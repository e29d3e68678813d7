/** The indexed min-heap that files buffers by weight. Three slices represent a finite map from
    buffer index to positive weight; `contents` is that map. */
module BufferWeightMaps {

  // ---- heap order on a sequence of weights ----

  ghost predicate ParentOf(p: int, c: int) {
    c == 2 * p + 1 || c == 2 * p + 2
  }

  ghost predicate Heap(ws: seq<nat>) {
    forall p, c :: 0 <= p < |ws| && 0 <= c < |ws| && ParentOf(p, c) ==> ws[p] <= ws[c]
  }

  /** Whatever stands above `k` does not outweigh what stands below it. */
  ghost predicate Bridged(ws: seq<nat>, k: int) {
    forall g, c :: 0 <= g < |ws| && 0 <= c < |ws| && ParentOf(g, k) && ParentOf(k, c) ==> ws[g] <= ws[c]
  }

  /** Heap order except between `k` and its parent. */
  ghost predicate HeapAbove(ws: seq<nat>, k: int) {
    && Bridged(ws, k)
    && forall p, c :: 0 <= p < |ws| && 0 <= c < |ws| && ParentOf(p, c) && c != k ==> ws[p] <= ws[c]
  }

  /** Heap order except between `k` and its children. */
  ghost predicate HeapBelow(ws: seq<nat>, k: int) {
    && Bridged(ws, k)
    && forall p, c :: 0 <= p < |ws| && 0 <= c < |ws| && ParentOf(p, c) && p != k ==> ws[p] <= ws[c]
  }

  lemma PullStep(ws: seq<nat>, k: nat, p: nat)
    requires k < |ws| && p < k && ParentOf(p, k)
    requires HeapAbove(ws, k) && ws[k] < ws[p]
    ensures HeapAbove(ws[k := ws[p]][p := ws[k]], p)
  {}

  lemma PushStep(ws: seq<nat>, k: nat, m: nat)
    requires k < m < |ws| && ParentOf(k, m)
    requires HeapBelow(ws, k) && ws[m] < ws[k]
    requires forall c :: 0 <= c < |ws| && ParentOf(k, c) ==> ws[m] <= ws[c]
    ensures HeapBelow(ws[k := ws[m]][m := ws[k]], m)
  {}

  lemma PullDone(ws: seq<nat>, k: nat, p: nat)
    requires k < |ws| && p < k && ParentOf(p, k) && HeapAbove(ws, k) && ws[p] <= ws[k]
    ensures Heap(ws)
  {}

  lemma PullRoot(ws: seq<nat>)
    requires HeapAbove(ws, 0)
    ensures Heap(ws)
  {}

  lemma PushDone(ws: seq<nat>, k: nat)
    requires k < |ws| && HeapBelow(ws, k)
    requires forall c :: 0 <= c < |ws| && ParentOf(k, c) ==> ws[k] <= ws[c]
    ensures Heap(ws)
  {}

  /** The root of a heap is a minimum. */
  lemma {:induction false} RootIsMin(ws: seq<nat>, h: nat)
    requires Heap(ws) && h < |ws|
    ensures ws[0] <= ws[h]
    decreases h
  {
    if h != 0 {
      var p := (h - 1) / 2;
      RootIsMin(ws, p);
      assert ParentOf(p, h);
    }
  }

  /** Lowering the weight at `k` breaks the order only above it, raising it only below it. */
  lemma Lowered(ws: seq<nat>, k: nat, w: nat)
    requires k < |ws| && Heap(ws)
    ensures w <= ws[k] ==> HeapAbove(ws[k := w], k)
    ensures ws[k] <= w ==> HeapBelow(ws[k := w], k)
  {}

  lemma AppendedAbove(ws: seq<nat>, w: nat)
    requires Heap(ws)
    ensures HeapAbove(ws + [w], |ws|)
  {}

  class BufferWeightMap {
    var heap: seq<nat>    // heap index -> buffer index
    var weight: seq<nat>  // buffer index -> weight, 0 when absent
    var pos: seq<nat>     // buffer index -> heap index
    ghost var contents: map<nat, nat>

    /** The heap slice and the position slice are inverse on the present buffers, and the weights of
        the present buffers are the contents. */
    ghost predicate Indexed()
      reads this
    {
      && |pos| == |weight|
      && (forall h :: 0 <= h < |heap| ==> heap[h] < |weight| && pos[heap[h]] == h && weight[heap[h]] != 0)
      && (forall b :: 0 <= b < |weight| && weight[b] != 0 ==> pos[b] < |heap| && heap[pos[b]] == b)
      && (forall b :: b in contents <==> 0 <= b < |weight| && weight[b] != 0)
      && (forall b :: b in contents ==> contents[b] == weight[b])
    }

    /** The weights in heap order. */
    ghost function Weights(): (ws: seq<nat>)
      requires Indexed()
      reads this
      ensures |ws| == |heap|
    {
      seq(|heap|, h requires 0 <= h < |heap| && heap[h] < |weight| reads this => weight[heap[h]])
    }

    ghost predicate Valid()
      reads this
    {
      Indexed() && Heap(Weights())
    }

    constructor ()
      ensures Valid() && contents == map[]
    {
      heap, weight, pos, contents := [], [], [], map[];
    }

    /** Weight at a heap position. */
    function At(h: nat): nat
      requires h < |heap| && heap[h] < |weight|
      reads this
    {
      weight[heap[h]]
    }

    /** The filed buffers, in heap order. */
    method Enumerate() returns (list: seq<nat>)
      requires Valid()
      ensures forall b :: b in list <==> b in contents
      ensures forall g, h :: 0 <= g < h < |list| ==> list[g] != list[h]
    {
      list := heap;
      forall b | b in contents ensures b in list {
        assert heap[pos[b]] == b;
      }
    }

    method PeekMin() returns (b: nat, w: nat, ok: bool)
      requires Valid()
      ensures ok <==> contents != map[]
      ensures ok ==> w != 0 && b in contents && contents[b] == w && forall c :: c in contents ==> w <= contents[c]
    {
      if |heap| == 0 {
        return 0, 0, false;
      }
      b := heap[0];
      w := weight[b];
      ok := true;
      assert b in contents;
      forall c | c in contents ensures w <= contents[c] {
        RootIsMin(Weights(), pos[c]);
      }
    }

    method Swap(ha: nat, hb: nat)
      requires Indexed()
      requires ha < |heap| && hb < |heap| && ha != hb
      modifies this
      ensures Indexed()
      ensures contents == old(contents) && weight == old(weight)
      ensures heap == old(heap)[ha := old(heap)[hb]][hb := old(heap)[ha]]
      ensures Weights() == old(Weights())[ha := old(Weights())[hb]][hb := old(Weights())[ha]]
    {
      var ba, bb := heap[ha], heap[hb];
      heap := heap[ha := bb][hb := ba];
      pos := pos[ba := hb][bb := ha];
    }

    method PullUp(heapIndex: nat)
      requires Indexed() && heapIndex < |heap| && HeapAbove(Weights(), heapIndex)
      modifies this
      ensures Valid()
      ensures contents == old(contents)
    {
      hide HeapAbove;
      hide Heap;
      var h: nat := heapIndex;
      while h != 0
        invariant Indexed() && contents == old(contents)
        invariant h < |heap| && HeapAbove(Weights(), h)
      {
        var parent: nat := (h - 1) / 2;
        assert ParentOf(parent, h);
        if At(parent) <= At(h) {
          PullDone(Weights(), h, parent);
          return;
        }
        PullStep(Weights(), h, parent);
        Swap(h, parent);
        h := parent;
      }
      PullRoot(Weights());
    }

    /** The lightest of a heap position and its children. */
    method Lightest(h: nat) returns (min: nat)
      requires Indexed() && h < |heap|
      ensures h <= min < |heap| && (min == h || (ParentOf(h, min) && Weights()[min] < Weights()[h]))
      ensures forall c :: 0 <= c < |heap| && ParentOf(h, c) ==> Weights()[min] <= Weights()[c]
    {
      min := h;
      if 2 * h + 1 < |heap| && At(2 * h + 1) < At(min) {
        min := 2 * h + 1;
      }
      if 2 * h + 2 < |heap| && At(2 * h + 2) < At(min) {
        min := 2 * h + 2;
      }
    }

    method PushDown(heapIndex: nat)
      requires Indexed() && heapIndex < |heap| && HeapBelow(Weights(), heapIndex)
      modifies this
      ensures Valid()
      ensures contents == old(contents)
    {
      hide HeapBelow;
      hide Heap;
      var h: nat := heapIndex;
      while true
        invariant Indexed() && contents == old(contents)
        invariant h < |heap| && HeapBelow(Weights(), h)
        decreases |heap| - h
      {
        var min := Lightest(h);
        if min == h {
          PushDone(Weights(), h);
          return;
        }
        PushStep(Weights(), h, min);
        Swap(h, min);
        h := min;
      }
    }

    /** Extends the per-buffer slices to cover `b`. */
    method Grow(b: nat)
      requires Indexed()
      modifies this`weight, this`pos
      ensures Indexed() && b < |weight|
      ensures Weights() == old(Weights())
    {
      while |weight| < b + 1
        invariant Indexed() && Weights() == old(Weights())
      {
        weight := weight + [0];
        pos := pos + [0];
        assert Weights() == old(Weights());
      }
    }

    /** Files `b` at the end of the heap slice, order not yet restored. */
    method Push(b: nat, w: nat)
      requires Indexed()
      requires b !in contents && w != 0 && b < |weight|
      modifies this
      ensures Indexed()
      ensures contents == old(contents)[b := w]
      ensures |heap| == old(|heap|) + 1
      ensures Weights() == old(Weights()) + [w]
    {
      pos := pos[b := |heap|];
      heap := heap + [b];
      weight := weight[b := w];
      contents := contents[b := w];
    }

    method Insert(b: nat, w: nat)
      requires Valid()
      requires b !in contents && w != 0
      modifies this
      ensures Valid()
      ensures contents == old(contents)[b := w]
    {
      var h := |heap|;
      Grow(b);
      Push(b, w);
      AppendedAbove(old(Weights()), w);
      PullUp(h);
    }

    /** Drops `b` from the end of the heap slice. */
    method DropLast(b: nat)
      requires Indexed()
      requires |heap| != 0 && heap[|heap| - 1] == b
      modifies this
      ensures Indexed()
      ensures contents == old(contents) - {b}
      ensures heap == old(heap)[..|old(heap)| - 1]
      ensures Weights() == old(Weights())[..|old(heap)| - 1]
    {
      heap := heap[..|heap| - 1];
      weight := weight[b := 0];
      contents := contents - {b};
    }

    method Remove(b: nat) returns (w: nat)
      requires Valid()
      requires b in contents
      modifies this
      ensures Valid()
      ensures w == old(contents)[b]
      ensures contents == old(contents) - {b}
    {
      w := weight[b];
      var h: nat, last: nat := pos[b], |heap| - 1;
      ghost var ws := Weights();
      if h == last {
        DropLast(b);
      } else {
        Swap(h, last);
        DropLast(b);
        Lowered(ws[..last], h, ws[last]);
        assert Weights() == ws[..last][h := ws[last]];
        if At(h) < w {
          PullUp(h);
        } else if w < At(h) {
          PushDown(h);
        } else {
          assert Weights() == ws[..last];
        }
      }
    }

    method Update(b: nat, w: nat)
      requires Valid()
      requires b in contents && w != 0
      modifies this
      ensures Valid()
      ensures contents == old(contents)[b := w]
    {
      var prev := weight[b];
      if prev == w {
        assert contents == old(contents)[b := w];
        return;
      }
      Lowered(Weights(), pos[b], w);
      weight := weight[b := w];
      contents := contents[b := w];
      assert Weights() == old(Weights())[pos[b] := w];
      if w < prev {
        PullUp(pos[b]);
      } else {
        PushDown(pos[b]);
      }
    }
  }
}
