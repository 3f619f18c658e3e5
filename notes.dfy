/** Note events as the app queues them: Python tuples `(timestamp, midinote, on_off)`,
    compared the way Python compares tuples. */
module Notes {

  datatype Option<T> = None | Some(value: T)

  function Max(a: int, b: int): (r: int)
    ensures a <= r && b <= r && (r == a || r == b)
  {
    if a < b then b else a
  }

  function Min(a: int, b: int): (r: int)
    ensures r <= a && r <= b && (r == a || r == b)
  {
    if a < b then a else b
  }

  /** One queued event: `on` is true for a note-on, false for a note-off. */
  datatype Note = Note(time: int, pitch: int, on: bool)

  /** Python's `<` on `(timestamp, midinote, on_off)`: lexicographic, with `False < True`. */
  predicate Lt(a: Note, b: Note): (r: bool)
    ensures a.time < b.time ==> r
    ensures r ==> a.time <= b.time && a != b
  {
    a.time < b.time
    || (a.time == b.time && (a.pitch < b.pitch || (a.pitch == b.pitch && !a.on && b.on)))
  }

  /** Python's `<=` on the same tuples. */
  predicate Le(a: Note, b: Note): (r: bool)
    ensures r ==> a.time <= b.time
  {
    Lt(a, b) || a == b
  }

  /** The tuple order is a total order: any two notes compare, and only equal notes compare both ways. */
  lemma LeIsTotalOrder(a: Note, b: Note, c: Note)
    ensures Le(a, b) || Le(b, a)
    ensures Le(a, b) && Le(b, a) ==> a == b
    ensures Le(a, b) && Le(b, c) ==> Le(a, c)
    ensures Lt(a, b) <==> Le(a, b) && !Le(b, a)
  {
  }

  /** At equal timestamp and pitch a note-off sorts before a note-on, whatever order
      they were queued in. */
  lemma OffBeforeOn(t: int, n: int)
    ensures Lt(Note(t, n, false), Note(t, n, true))
    ensures IsLeast(Note(t, n, false), multiset{Note(t, n, true), Note(t, n, false)})
  {
  }

  /** `x` is the smallest element of `m` under the tuple order. */
  ghost predicate IsLeast(x: Note, m: multiset<Note>) {
    x in m && forall y | y in m :: Le(x, y)
  }

  /** A multiset has at most one least element. */
  lemma LeastIsUnique(x: Note, y: Note, m: multiset<Note>)
    requires IsLeast(x, m) && IsLeast(y, m)
    ensures x == y
  {
    LeIsTotalOrder(x, y, x);
  }

  /** Taking the least element twice in a row never goes back in time: the second
      element is no smaller than the first, so its timestamp is no earlier. */
  lemma LeastThenLeast(x: Note, y: Note, m: multiset<Note>)
    requires IsLeast(x, m) && IsLeast(y, m - multiset{x})
    ensures Le(x, y) && x.time <= y.time
  {
    assert y in m;
  }
}
