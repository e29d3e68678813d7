/** Sorted sets over a slice, and the binary search they share with the code parameters. */
module OrderedSets {
  import opened Wrappers

  /** A boundary of `cond` in `[from, to)`: a value that satisfies it and whose predecessor, if in range,
      does not. It fails only if the range is empty or the last value does not satisfy `cond`. */
  method SmallestIntegerSatisfying(from: int, to: int, cond: int -> bool) returns (r: Option<int>)
    ensures r.Some? ==> from <= r.value < to && cond(r.value) && (from < r.value ==> !cond(r.value - 1))
    ensures r.None? ==> to <= from || !cond(to - 1)
  {
    var lower, upper := from, to;
    while lower < upper
      invariant from <= to ==> from <= lower <= upper <= to
      invariant to < from ==> lower == from && upper == to
      invariant upper < to ==> cond(upper)
      invariant from < lower ==> !cond(lower - 1)
    {
      var pivot := (lower + upper) / 2;
      if cond(pivot) {
        upper := pivot;
      } else {
        lower := pivot + 1;
      }
    }
    if lower == upper && upper < to {
      return Some(upper);
    }
    r := None;
  }

  const BINARY_SEARCH_THRESHOLD := 250

  ghost predicate Sorted(s: seq<nat>) {
    forall i, j :: 0 <= i < j < |s| ==> s[i] < s[j]
  }

  ghost function Contents(s: seq<nat>): set<nat> {
    set v | v in s
  }

  /** `i` splits a sorted slice into the values below `value` and the rest. */
  ghost predicate Places(s: seq<nat>, value: nat, i: nat) {
    && i <= |s|
    && (forall k :: 0 <= k < i ==> s[k] < value)
    && (forall k :: i <= k < |s| ==> value <= s[k])
  }

  lemma PlacedMember(s: seq<nat>, value: nat, i: nat)
    requires Sorted(s) && Places(s, value, i)
    ensures value in s <==> i < |s| && s[i] == value
  {}

  lemma Inserted(s: seq<nat>, value: nat, i: nat)
    requires Sorted(s) && Places(s, value, i) && value !in s
    ensures Sorted(s[..i] + [value] + s[i..]) && Contents(s[..i] + [value] + s[i..]) == Contents(s) + {value}
  {}

  lemma Removed(s: seq<nat>, i: nat)
    requires Sorted(s) && i < |s|
    ensures Sorted(s[..i] + s[i + 1..]) && Contents(s[..i] + s[i + 1..]) == Contents(s) - {s[i]}
  {}

  class OrderedSet {
    var data: seq<nat>

    ghost predicate Valid()
      reads this
    {
      Sorted(data)
    }

    constructor ()
      ensures Valid() && Contents(data) == {}
    {
      data := [];
    }

    /** Appends a value above every member. */
    method Append(value: nat)
      requires Valid() && forall v :: v in data ==> v < value
      modifies this
      ensures Valid() && Contents(data) == old(Contents(data)) + {value}
    {
      assert forall k :: 0 <= k < |data| ==> data[k] in data;
      data := data + [value];
    }

    /** The index of the lowest member at or above `value`: by scan when short, by search when long. */
    method PlacementIndex(value: nat) returns (i: nat)
      requires Valid()
      ensures Places(data, value, i)
    {
      if |data| < BINARY_SEARCH_THRESHOLD {
        for k := 0 to |data|
          invariant forall j :: 0 <= j < k ==> data[j] < value
        {
          if data[k] >= value {
            return k;
          }
        }
        return |data|;
      }
      var d := data;
      var cond := (p: int) => 0 <= p < |d| && d[p] >= value;
      var r := SmallestIntegerSatisfying(0, |data|, cond);
      i := if r.Some? then r.value else |data|;
      assert 0 < i ==> data[i - 1] < value;
    }

    method Has(value: nat) returns (b: bool)
      requires Valid()
      ensures b <==> value in Contents(data)
    {
      var i := PlacementIndex(value);
      PlacedMember(data, value, i);
      b := i < |data| && data[i] == value;
    }

    /** Adds a value; false when it is present. */
    method Insert(value: nat) returns (added: bool)
      requires Valid()
      modifies this
      ensures Valid() && Contents(data) == old(Contents(data)) + {value}
      ensures added <==> value !in old(Contents(data))
    {
      var i := PlacementIndex(value);
      PlacedMember(data, value, i);
      added := i == |data| || data[i] != value;
      if added {
        Inserted(data, value, i);
        data := data[..i] + [value] + data[i..];
      }
    }

    /** Removes a value; false when it is absent. */
    method Remove(value: nat) returns (found: bool)
      requires Valid()
      modifies this
      ensures Valid() && Contents(data) == old(Contents(data)) - {value}
      ensures found <==> value in old(Contents(data))
    {
      var i := PlacementIndex(value);
      PlacedMember(data, value, i);
      found := i < |data| && data[i] == value;
      if found {
        Removed(data, i);
        data := data[..i] + data[i + 1..];
      }
    }

    /** Toggles membership; true when the value was added. */
    method InsertOrRemove(value: nat) returns (added: bool)
      requires Valid()
      modifies this
      ensures Valid() && added == (value !in old(Contents(data)))
      ensures Contents(data) == if added then old(Contents(data)) + {value} else old(Contents(data)) - {value}
    {
      var i := PlacementIndex(value);
      PlacedMember(data, value, i);
      added := i == |data| || data[i] != value;
      if added {
        Inserted(data, value, i);
        data := data[..i] + [value] + data[i..];
      } else {
        Removed(data, i);
        data := data[..i] + data[i + 1..];
      }
    }

    /** The least member. */
    method First() returns (v: Option<nat>)
      requires Valid()
      ensures v.None? <==> Contents(data) == {}
      ensures v.Some? ==> v.value in Contents(data) && forall u :: u in Contents(data) ==> v.value <= u
    {
      if |data| == 0 {
        return None;
      }
      assert data[0] in Contents(data);
      v := Some(data[0]);
    }
  }
}
