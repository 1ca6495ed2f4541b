/** Drag-and-drop reordering (src/hooks/useDrag.ts). A drop moves the dragged note to the slot it
    was dropped on: remove at `dragIndex`, insert at `dropIndex`, on a copy of the collection.
    Reading the drag index out of the DOM event is left to the caller. */
module UseDrag {
  import opened NoteModel
  import opened UseNotes

  /** `s.splice(from, 1)` then `splice(to, 0, moved)`: the element at `from` taken out and
      put back in at `to`. */
  function Moved<T>(s: seq<T>, from: int, to: int): (r: seq<T>)
    requires 0 <= from < |s| && 0 <= to < |s|
    ensures |r| == |s| && r[to] == s[from]
  {
    var rest := s[..from] + s[from + 1..];
    rest[..to] + [s[from]] + rest[to..]
  }

  /** The move is a permutation that keeps the length. */
  lemma MovedPermutes<T>(s: seq<T>, from: int, to: int)
    requires 0 <= from < |s| && 0 <= to < |s|
    ensures |Moved(s, from, to)| == |s|
    ensures multiset(Moved(s, from, to)) == multiset(s)
  {
    var rest := s[..from] + s[from + 1..];
    assert s == s[..from] + [s[from]] + s[from + 1..];
    assert multiset(s) == multiset(rest) + multiset{s[from]};
    assert rest == rest[..to] + rest[to..];
    assert multiset(Moved(s, from, to)) == multiset(rest[..to]) + multiset{s[from]} + multiset(rest[to..]);
  }

  /** Where everything goes: the dragged element lands at `to`; elements outside the range
      between the two indices stay put; those strictly between shift one place toward
      `from`. */
  lemma MovedAt<T>(s: seq<T>, from: int, to: int, i: int)
    requires 0 <= from < |s| && 0 <= to < |s| && 0 <= i < |s|
    ensures |Moved(s, from, to)| == |s|
    ensures i == to ==> Moved(s, from, to)[i] == s[from]
    ensures (i < from && i < to) || (i > from && i > to) ==> Moved(s, from, to)[i] == s[i]
    ensures from < to && from <= i < to ==> Moved(s, from, to)[i] == s[i + 1]
    ensures to < from && to < i <= from ==> Moved(s, from, to)[i] == s[i - 1]
  {
    var rest := s[..from] + s[from + 1..];
    assert |rest| == |s| - 1;
    assert forall j :: 0 <= j < |rest| ==> rest[j] == if j < from then s[j] else s[j + 1];
    var r := Moved(s, from, to);
    assert forall j :: 0 <= j < |r| ==> r[j] == if j < to then rest[j] else if j == to then s[from] else rest[j - 1];
  }

  /** Dropping the note back where it came from undoes a move. */
  lemma MovedBack<T>(s: seq<T>, from: int, to: int)
    requires 0 <= from < |s| && 0 <= to < |s|
    ensures Moved(Moved(s, from, to), to, from) == s
  {
    var r := Moved(s, from, to);
    MovedPermutes(s, from, to);
    var b := Moved(r, to, from);
    MovedPermutes(r, to, from);
    forall i | 0 <= i < |s| ensures b[i] == s[i] {
      MovedAt(s, from, to, i);
      MovedAt(r, to, from, i);
      if i == from {
        MovedAt(s, from, to, to);
      } else if from < to && from < i <= to {
        MovedAt(s, from, to, i - 1);
      } else if to < from && to <= i < from {
        MovedAt(s, from, to, i + 1);
      }
    }
  }

  /** The index of `s` whose element the move puts at slot `i`. */
  function SourceIndex(from: int, to: int, i: int): int {
    if i == to then from
    else if from < to && from <= i < to then i + 1
    else if to < from && to < i <= from then i - 1
    else i
  }

  lemma MovedFromSource<T>(s: seq<T>, from: int, to: int, i: int)
    requires 0 <= from < |s| && 0 <= to < |s| && 0 <= i < |s|
    ensures 0 <= SourceIndex(from, to, i) < |s|
    ensures Moved(s, from, to)[i] == s[SourceIndex(from, to, i)]
  {
    MovedAt(s, from, to, i);
  }

  /** A move keeps the ids distinct. */
  lemma MovedKeepsIdsDistinct(s: seq<Note>, from: int, to: int)
    requires 0 <= from < |s| && 0 <= to < |s|
    requires IdsDistinct(s)
    ensures IdsDistinct(Moved(s, from, to))
  {
    var r := Moved(s, from, to);
    MovedPermutes(s, from, to);
    forall i, j | 0 <= i < j < |r| ensures r[i].id != r[j].id {
      MovedFromSource(s, from, to, i);
      MovedFromSource(s, from, to, j);
      assert SourceIndex(from, to, i) != SourceIndex(from, to, j);
    }
  }

  /** With both indices past the pinned slot, the pinned note stays first. */
  lemma MovedKeepsPinned<T>(s: seq<T>, from: int, to: int)
    requires 1 <= from < |s| && 1 <= to < |s|
    ensures Moved(s, from, to)[0] == s[0]
  {
    MovedAt(s, from, to, 0);
  }

  /** The in-place version: shifts the elements between the two indices by one and writes
      the dragged element into the freed slot. */
  method MoveInPlace<T>(a: array<T>, from: int, to: int)
    requires 0 <= from < a.Length && 0 <= to < a.Length
    modifies a
    ensures a[..] == Moved(old(a[..]), from, to)
  {
    ghost var s := a[..];
    var moved := a[from];
    var i := from;
    if from < to {
      while i < to
        invariant from <= i <= to
        invariant forall j :: 0 <= j < a.Length && !(from <= j < i) ==> a[j] == s[j]
        invariant forall j :: from <= j < i ==> a[j] == s[j + 1]
      {
        a[i] := a[i + 1];
        i := i + 1;
      }
    } else {
      while i > to
        invariant to <= i <= from
        invariant forall j :: 0 <= j < a.Length && !(i < j <= from) ==> a[j] == s[j]
        invariant forall j :: i < j <= from ==> a[j] == s[j - 1]
      {
        a[i] := a[i - 1];
        i := i - 1;
      }
    }
    a[to] := moved;
    forall j | 0 <= j < a.Length ensures a[j] == Moved(s, from, to)[j] {
      MovedAt(s, from, to, j);
    }
  }

  /** What a drop does to the collection: nothing when the note is dropped on itself or on
      the pinned slot, otherwise the move. */
  function Dropped(notes: seq<Note>, dragIndex: int, dropIndex: int): (r: seq<Note>)
    requires dragIndex == dropIndex || dropIndex < 1 || (0 <= dragIndex < |notes| && dropIndex < |notes|)
    ensures |r| == |notes|
    ensures dragIndex != dropIndex && dropIndex >= 1 ==> r[dropIndex] == notes[dragIndex]
  {
    if dragIndex == dropIndex || dropIndex < 1 then notes else Moved(notes, dragIndex, dropIndex)
  }

  /** The state updater passed to `setNotes`: copy the previous collection and move the
      dragged note on the copy. */
  method Reorder(prev: seq<Note>, dragIndex: int, dropIndex: int) returns (next: seq<Note>)
    requires 0 <= dragIndex < |prev| && 0 <= dropIndex < |prev|
    ensures next == Moved(prev, dragIndex, dropIndex)
  {
    var copy := new Note[|prev|](i requires 0 <= i < |prev| => prev[i]);
    assert copy[..] == prev;
    MoveInPlace(copy, dragIndex, dropIndex);
    next := copy[..];
  }

  /** `onDrop` on the store: the guard, then the move. */
  method OnDrop(store: NoteStore, dragIndex: int, dropIndex: int)
    requires dragIndex == dropIndex || dropIndex < 1 || (0 <= dragIndex < |store.notes| && dropIndex < |store.notes|)
    modifies store
    ensures store.notes == Dropped(old(store.notes), dragIndex, dropIndex)
    ensures old(store.Valid()) ==> store.Valid()
  {
    DropKeepsNotes(store.notes, dragIndex, dropIndex);
    if dragIndex == dropIndex || dropIndex < 1 {
      return;
    }
    store.notes := Reorder(store.notes, dragIndex, dropIndex);
  }

  /** A drop keeps the same notes and keeps the ids distinct; with a dragged note past the
      pinned slot it also keeps the pinned note first. */
  lemma DropKeepsNotes(notes: seq<Note>, dragIndex: int, dropIndex: int)
    requires dragIndex == dropIndex || dropIndex < 1 || (0 <= dragIndex < |notes| && dropIndex < |notes|)
    ensures multiset(Dropped(notes, dragIndex, dropIndex)) == multiset(notes)
    ensures |Dropped(notes, dragIndex, dropIndex)| == |notes|
    ensures |notes| > 0 && dragIndex >= 1 ==> Dropped(notes, dragIndex, dropIndex)[0] == notes[0]
    ensures IdsDistinct(notes) ==> IdsDistinct(Dropped(notes, dragIndex, dropIndex))
  {
    if !(dragIndex == dropIndex || dropIndex < 1) {
      MovedPermutes(notes, dragIndex, dropIndex);
      if IdsDistinct(notes) {
        MovedKeepsIdsDistinct(notes, dragIndex, dropIndex);
      }
      if |notes| > 0 && dragIndex >= 1 {
        MovedKeepsPinned(notes, dragIndex, dropIndex);
      }
    }
  }
}
