/** `NoteBuffer`: the pending note events, kept as a binary min-heap in a Python list
    and maintained with `heapq.heappush` / `heapq.heappop`.

    The heap procedures follow the heapq algorithm: a push appends and moves the new
    element toward the root; a pop moves the last element to the root, walks the hole
    down along the smaller children to a leaf and then moves the element back up.
    heapq moves a hole where this model swaps; the final arrangement is the same. */
module NoteHeap {
  import opened Notes

  /** Every element is no smaller than its parent (heapq's heap invariant). */
  ghost predicate IsHeap(h: seq<Note>) {
    forall i {:trigger h[i]} :: 0 < i < |h| ==> Le(h[(i - 1) / 2], h[i])
  }

  /** The heap invariant holds except on the edge from `p`'s parent to `p`, and the
      parent of `p` is no larger than `p`'s children. */
  ghost predicate HeapExceptAbove(h: seq<Note>, p: nat) {
    (forall i {:trigger h[i]} :: 0 < i < |h| && i != p ==> Le(h[(i - 1) / 2], h[i]))
    && (0 < p ==> forall c :: 0 < c < |h| && (c - 1) / 2 == p ==> Le(h[(p - 1) / 2], h[c]))
  }

  /** The heap invariant holds except on the edges into and out of `p`, and the parent
      of `p` is no larger than `p`'s children. */
  ghost predicate HeapExceptAround(h: seq<Note>, p: nat) {
    (forall i {:trigger h[i]} :: 0 < i < |h| && i != p && (i - 1) / 2 != p ==> Le(h[(i - 1) / 2], h[i]))
    && (0 < p ==> forall c :: 0 < c < |h| && (c - 1) / 2 == p ==> Le(h[(p - 1) / 2], h[c]))
  }

  function Swap(h: seq<Note>, i: nat, j: nat): (r: seq<Note>)
    requires i < |h| && j < |h|
    ensures |r| == |h| && r[i] == h[j] && r[j] == h[i]
    ensures forall k :: 0 <= k < |h| && k != i && k != j ==> r[k] == h[k]
    ensures multiset(r) == multiset(h)
  {
    h[i := h[j]][j := h[i]]
  }

  /** In a heap, every element is no smaller than the root. */
  lemma {:induction false} RootLeAll(h: seq<Note>, i: nat)
    requires IsHeap(h) && i < |h|
    ensures Le(h[0], h[i])
    decreases i
  {
    if i > 0 {
      var p := (i - 1) / 2;
      RootLeAll(h, p);
      LeIsTotalOrder(h[0], h[p], h[i]);
    }
  }

  /** The root of a non-empty heap is the least element it holds. */
  lemma HeapRootIsLeast(h: seq<Note>)
    requires IsHeap(h) && |h| > 0
    ensures IsLeast(h[0], multiset(h))
  {
    forall y | y in multiset(h) ensures Le(h[0], y) {
      var i :| 0 <= i < |h| && h[i] == y;
      RootLeAll(h, i);
    }
  }

  /** One step of the walk toward the root: swapping `p` with its larger parent moves
      the exception up to the parent. */
  lemma SwapUpStep(r: seq<Note>, p: nat)
    requires 0 < p < |r| && HeapExceptAbove(r, p) && Lt(r[p], r[(p - 1) / 2])
    ensures HeapExceptAbove(Swap(r, p, (p - 1) / 2), (p - 1) / 2)
  {
    var q := (p - 1) / 2;
    var s := Swap(r, p, q);
    forall i {:trigger s[i]} | 0 < i < |s| && i != q
      ensures Le(s[(i - 1) / 2], s[i])
    {
      if i == p {
        LeIsTotalOrder(r[p], r[q], r[p]);
      } else if (i - 1) / 2 == p {
        assert Le(r[q], r[i]);
      } else if (i - 1) / 2 == q {
        assert Le(r[q], r[i]);
        LeIsTotalOrder(r[p], r[q], r[i]);
      } else {
        assert s[i] == r[i] && s[(i - 1) / 2] == r[(i - 1) / 2];
      }
    }
    if 0 < q {
      var g := (q - 1) / 2;
      forall c | 0 < c < |s| && (c - 1) / 2 == q
        ensures Le(s[g], s[c])
      {
        assert Le(r[g], r[q]);
        if c != p {
          assert Le(r[q], r[c]);
          LeIsTotalOrder(r[g], r[q], r[c]);
        }
      }
    }
  }

  /** heapq `_siftdown(heap, 0, pos)`: move the element at `pos` toward the root while
      it is smaller than its parent. */
  method SiftTowardRoot(h: seq<Note>, pos: nat) returns (r: seq<Note>)
    requires pos < |h| && HeapExceptAbove(h, pos)
    ensures IsHeap(r) && multiset(r) == multiset(h) && |r| == |h|
  {
    r := h;
    var p: nat := pos;
    while 0 < p
      invariant p < |r| == |h| && multiset(r) == multiset(h)
      invariant HeapExceptAbove(r, p)
    {
      var parent := (p - 1) / 2;
      if Lt(r[p], r[parent]) {
        SwapUpStep(r, p);
        r := Swap(r, p, parent);
        p := parent;
      } else {
        break;
      }
    }
  }

  /** One step of the walk toward the leaves: swapping the hole at `p` with its smaller
      child `c` moves the exception down to `c`. */
  lemma SwapDownStep(r: seq<Note>, p: nat, c: nat)
    requires c < |r| && (c - 1) / 2 == p && 0 < c && HeapExceptAround(r, p)
    requires forall d :: 0 < d < |r| && (d - 1) / 2 == p ==> Le(r[c], r[d])
    ensures HeapExceptAround(Swap(r, p, c), c)
  {
    var s := Swap(r, p, c);
    forall i {:trigger s[i]} | 0 < i < |s| && i != c && (i - 1) / 2 != c
      ensures Le(s[(i - 1) / 2], s[i])
    {
      if i == p {
        assert Le(r[(p - 1) / 2], r[c]);
      } else if (i - 1) / 2 == p {
        assert Le(r[c], r[i]);
      } else {
        assert s[i] == r[i] && s[(i - 1) / 2] == r[(i - 1) / 2];
      }
    }
    forall d | 0 < d < |s| && (d - 1) / 2 == c
      ensures Le(s[p], s[d])
    {
      assert s[p] == r[c] && s[d] == r[d];
    }
  }

  /** heapq `_siftup(heap, 0)`: move the hole at the root down along the smaller child
      to a leaf, then move the element it carried back toward the root. */
  method SiftFromRoot(h: seq<Note>) returns (r: seq<Note>)
    requires 0 < |h| && HeapExceptAround(h, 0)
    ensures IsHeap(r) && multiset(r) == multiset(h) && |r| == |h|
  {
    r := h;
    var p: nat := 0;
    var child: nat := 1;
    while child < |r|
      invariant p < |r| == |h| && multiset(r) == multiset(h)
      invariant child == 2 * p + 1
      invariant HeapExceptAround(r, p)
    {
      var right := child + 1;
      if right < |r| {
        LeIsTotalOrder(r[child], r[right], r[child]);
        if !Lt(r[child], r[right]) {
          child := right;
        }
      }
      SwapDownStep(r, p, child);
      r := Swap(r, p, child);
      p := child;
      child := 2 * p + 1;
    }
    r := SiftTowardRoot(r, p);
  }

  /** `heapq.heappop`: remove and return the root of a non-empty heap. */
  method HeapPop(h: seq<Note>) returns (x: Note, r: seq<Note>)
    requires IsHeap(h) && 0 < |h|
    ensures x == h[0] && IsHeap(r)
    ensures multiset(r) == multiset(h) - multiset{x}
  {
    var last := h[|h| - 1];
    r := h[..|h| - 1];
    assert h == r + [last];
    if r != [] {
      x := r[0];
      r := SiftFromRoot(r[0 := last]);
    } else {
      x := last;
    }
  }

  class NoteBuffer {
    /** `self.buffer`, the heap list. */
    var buffer: seq<Note>

    ghost predicate Valid()
      reads this
    {
      IsHeap(buffer)
    }

    /** The pending events, regardless of their place in the list. */
    ghost function Contents(): multiset<Note>
      reads this
    {
      multiset(buffer)
    }

    constructor ()
      ensures Valid() && Contents() == multiset{}
    {
      buffer := [];
    }

    /** `add_note`: push one `(timestamp, midinote, on_off)` event. */
    method AddNote(timestamp: int, midinote: int, onOff: bool)
      requires Valid()
      modifies this
      ensures Valid()
      ensures Contents() == old(Contents()) + multiset{Note(timestamp, midinote, onOff)}
    {
      buffer := SiftTowardRoot(buffer + [Note(timestamp, midinote, onOff)], |buffer|);
    }

    /** `poll_next(due)`: pop the least event if its timestamp is at most `due`. */
    method PollNext(due: int) returns (r: Option<Note>)
      requires Valid()
      modifies this
      ensures Valid()
      ensures r.None? <==> forall e | e in old(Contents()) :: due < e.time
      ensures r.None? ==> buffer == old(buffer)
      ensures r.Some? ==> r.value.time <= due && IsLeast(r.value, old(Contents()))
      ensures r.Some? ==> Contents() == old(Contents()) - multiset{r.value}
    {
      if buffer != [] && buffer[0].time <= due {
        HeapRootIsLeast(buffer);
        var x;
        x, buffer := HeapPop(buffer);
        r := Some(x);
      } else {
        if buffer != [] {
          HeapRootIsLeast(buffer);
        }
        r := None;
      }
    }
  }
}
