/** The sort commands and the sort label (src/hooks/useSort.ts). A sort command reorders the
    stored collection and records which sort it applied; whenever the collection or the label
    changes, the label is checked against the collection and cleared when the collection is no
    longer in that order. The label stands for the persisted "sort" entry. */
module UseSort {
  import opened NoteModel
  import opened StableSorting
  import opened AppUtils
  import opened UseNotes

  // ---------------------------------------------------------------- labels

  const AlphAsc: string := "alphAsc"
  const AlphDes: string := "alphDes"
  const TimeAsc: string := "timeAsc"
  const TimeDes: string := "timeDes"
  /** No sort is in force. */
  const NoSort: string := ""

  /** The label `sortAlph(isAscending)` records. */
  function AlphLabel(ascending: bool): string {
    if ascending then AlphAsc else AlphDes
  }

  /** The label `sortTime(isAscending)` records. */
  function TimeLabel(ascending: bool): string {
    if ascending then TimeAsc else TimeDes
  }

  /** A label naming one of the four sorts. */
  predicate IsModeLabel(sortLabel: string) {
    sortLabel == AlphAsc || sortLabel == AlphDes || sortLabel == TimeAsc || sortLabel == TimeDes
  }

  /** A label the app itself writes. */
  predicate KnownLabel(sortLabel: string) {
    sortLabel == NoSort || IsModeLabel(sortLabel)
  }

  /** The comparator the label's check uses. */
  function LabelCompare(sortLabel: string): Comparator {
    if sortLabel == AlphAsc || sortLabel == AlphDes then TitleCompare else TimeCompare
  }

  /** The direction the label's check uses. */
  predicate LabelAscending(sortLabel: string) {
    sortLabel == AlphAsc || sortLabel == TimeAsc
  }

  /** The label after the revalidation effect: a sort label whose check fails is cleared;
      any other label is left as it is. */
  function Revalidated(sortLabel: string, notes: seq<Note>): (r: string)
    ensures r == sortLabel || r == NoSort
    ensures !IsModeLabel(sortLabel) ==> r == sortLabel
  {
    if IsModeLabel(sortLabel) && !PairsInOrderAfterPinned(notes, LabelCompare(sortLabel), LabelAscending(sortLabel))
    then NoSort
    else sortLabel
  }

  // ---------------------------------------------------------------- properties

  lemma LabelCompareIsTotalPreorder(sortLabel: string)
    ensures IsTotalPreorder(LabelCompare(sortLabel))
  {
    TitleCompareIsTotalPreorder();
    TimeCompareIsTotalPreorder();
  }

  /** The effect only ever keeps the label or clears it, so the labels the app writes stay
      the only ones it holds. */
  lemma RevalidatedKeepsOrClears(sortLabel: string, notes: seq<Note>)
    ensures KnownLabel(sortLabel) ==> KnownLabel(Revalidated(sortLabel, notes))
  {
  }

  /** Running the effect again on the same collection changes nothing. */
  lemma RevalidatedIdempotent(sortLabel: string, notes: seq<Note>)
    ensures Revalidated(Revalidated(sortLabel, notes), notes) == Revalidated(sortLabel, notes)
  {
  }

  /** A sort label survives exactly when everything after the pinned note is sorted in the
      label's order. */
  lemma LabelKeptIffSorted(sortLabel: string, notes: seq<Note>)
    requires IsModeLabel(sortLabel) && |notes| > 0
    ensures Revalidated(sortLabel, notes) == sortLabel
        <==> Sorted(notes[1..], Directed(LabelCompare(sortLabel), LabelAscending(sortLabel)))
  {
    LabelCompareIsTotalPreorder(sortLabel);
    CheckMeansSortedTail(notes, LabelCompare(sortLabel), LabelAscending(sortLabel));
  }

  /** Round trip: the label a title sort records survives the check on the collection it
      produced. */
  lemma AlphSortKeepsLabel(notes: seq<Note>, ascending: bool)
    requires |notes| > 0
    ensures Revalidated(AlphLabel(ascending), SortNotesAlpha(notes, ascending)) == AlphLabel(ascending)
  {
    AlphaSortPassesCheck(notes, ascending);
  }

  /** Round trip: the label a time sort records survives the check on the collection it
      produced. */
  lemma TimeSortKeepsLabel(notes: seq<Note>, ascending: bool)
    requires |notes| > 0
    ensures Revalidated(TimeLabel(ascending), SortNotesByTime(notes, ascending)) == TimeLabel(ascending)
  {
    TimeSortPassesCheck(notes, ascending);
  }

  /** Adding a note shifts the old pinned note to index 1, where the check now sees it: the
      label survives exactly when it held before and the old pinned note is in order with
      the note after it. */
  lemma AddExposesPinned(sortLabel: string, notes: seq<Note>, freshId: Id, now: int)
    requires |notes| > 0
    ensures Revalidated(sortLabel, WithAdded(notes, freshId, now)) == sortLabel
        <==> Revalidated(sortLabel, notes) == sortLabel
             && (!IsModeLabel(sortLabel) || |notes| < 2
                 || InOrder(LabelCompare(sortLabel)(notes[0], notes[1]), LabelAscending(sortLabel)))
  {
    var r := WithAdded(notes, freshId, now);
    var c, asc := LabelCompare(sortLabel), LabelAscending(sortLabel);
    assert forall i :: 1 <= i <= |notes| ==> r[i] == notes[i - 1];
    if IsModeLabel(sortLabel) && |notes| >= 2 {
      if PairsInOrderAfterPinned(r, c, asc) {
        forall i | 1 <= i < |notes| - 1 ensures InOrder(c(notes[i], notes[i + 1]), asc) {
          assert r[i + 1] == notes[i] && r[i + 2] == notes[i + 1];
        }
        assert r[1] == notes[0] && r[2] == notes[1];
      }
      if PairsInOrderAfterPinned(notes, c, asc) && InOrder(c(notes[0], notes[1]), asc) {
        forall i | 1 <= i < |r| - 1 ensures InOrder(c(r[i], r[i + 1]), asc) {
          if i == 1 {
            assert r[1] == notes[0] && r[2] == notes[1];
          } else {
            assert r[i] == notes[i - 1] && r[i + 1] == notes[i];
          }
        }
      }
    }
  }

  /** Removing notes from a sorted sequence leaves it sorted. */
  lemma {:induction false} DeletedStaysSorted(t: seq<Note>, id: Id, cmp: Comparator)
    requires IsTotalPreorder(cmp)
    requires Sorted(t, cmp)
    ensures Sorted(WithDeleted(t, id), cmp)
  {
    if t != [] {
      assert Sorted(t[1..], cmp) by {
        forall i | 0 < i < |t[1..]| ensures cmp(t[1..][i - 1], t[1..][i]) <= 0 {
          assert t[1..][i - 1] == t[i] && t[1..][i] == t[i + 1];
        }
      }
      DeletedStaysSorted(t[1..], id, cmp);
      var rest := WithDeleted(t[1..], id);
      if t[0].id != id && rest != [] {
        DeleteRemovesExactly(t[1..], id, rest[0]);
        HeadIsLeast(t, cmp, rest[0]);
        var r := [t[0]] + rest;
        forall i | 0 < i < |r| ensures cmp(r[i - 1], r[i]) <= 0 {
          if i > 1 {
            assert r[i - 1] == rest[i - 2] && r[i] == rest[i - 1];
          }
        }
      }
    }
  }

  /** Deleting any note but the pinned one keeps the label: the survivors stay in order. */
  lemma DeleteKeepsLabel(sortLabel: string, notes: seq<Note>, id: Id)
    requires |notes| > 0 && notes[0].id != id
    requires Revalidated(sortLabel, notes) == sortLabel
    ensures Revalidated(sortLabel, WithDeleted(notes, id)) == sortLabel
  {
    if IsModeLabel(sortLabel) {
      var d := Directed(LabelCompare(sortLabel), LabelAscending(sortLabel));
      LabelCompareIsTotalPreorder(sortLabel);
      DirectedIsTotalPreorder(LabelCompare(sortLabel), LabelAscending(sortLabel));
      var r := WithDeleted(notes, id);
      DeleteKeepsPinned(notes, id);
      assert r == [notes[0]] + WithDeleted(notes[1..], id);
      assert r[1..] == WithDeleted(notes[1..], id);
      LabelKeptIffSorted(sortLabel, notes);
      DeletedStaysSorted(notes[1..], id, d);
      LabelKeptIffSorted(sortLabel, r);
    }
  }

  /** Clearing the collection down to the pinned note keeps every label. */
  lemma DeleteAllKeepsLabel(sortLabel: string, notes: seq<Note>)
    ensures Revalidated(sortLabel, WithPinnedOnly(notes)) == sortLabel
  {
  }

  // ---------------------------------------------------------------- the hook

  /** The sort state over a note store. */
  class SortController {
    const store: NoteStore
    var sortLabel: string

    /** The labels the app writes. */
    predicate Valid()
      reads this
    {
      KnownLabel(sortLabel)
    }

    /** A fresh "sort" entry holds the empty label. */
    constructor (store: NoteStore)
      ensures this.store == store && sortLabel == NoSort
      ensures Valid()
    {
      this.store := store;
      sortLabel := NoSort;
    }

    /** `sortAlph`: sort by title and record the direction. The new collection passes the
        label's own check. */
    method SortAlph(ascending: bool)
      requires |store.notes| > 0
      modifies store, this
      ensures store.notes == SortNotesAlpha(old(store.notes), ascending)
      ensures old(store.Valid()) ==> store.Valid()
      ensures sortLabel == AlphLabel(ascending)
      ensures Valid() && Revalidated(sortLabel, store.notes) == sortLabel
    {
      store.notes := SortNotesAlpha(store.notes, ascending);
      sortLabel := AlphLabel(ascending);
      AlphSortKeepsLabel(old(store.notes), ascending);
      if old(store.Valid()) {
        SortsKeepIdsDistinct(old(store.notes), ascending);
      }
    }

    /** `sortTime`: sort by last update and record the direction. The new collection passes
        the label's own check. */
    method SortTime(ascending: bool)
      requires |store.notes| > 0
      modifies store, this
      ensures store.notes == SortNotesByTime(old(store.notes), ascending)
      ensures old(store.Valid()) ==> store.Valid()
      ensures sortLabel == TimeLabel(ascending)
      ensures Valid() && Revalidated(sortLabel, store.notes) == sortLabel
    {
      store.notes := SortNotesByTime(store.notes, ascending);
      sortLabel := TimeLabel(ascending);
      TimeSortKeepsLabel(old(store.notes), ascending);
      if old(store.Valid()) {
        SortsKeepIdsDistinct(old(store.notes), ascending);
      }
    }

    /** The effect that runs after every change of the collection or the label: it reads the
        label once and clears it if the collection fails that label's check. */
    method Revalidate()
      modifies this
      ensures sortLabel == Revalidated(old(sortLabel), store.notes)
      ensures old(Valid()) ==> Valid()
    {
      var current := sortLabel;
      if current == AlphAsc {
        var ok := AreNotesSorted(store.notes, TitleCompare, true);
        if !ok { sortLabel := NoSort; }
      }
      if current == TimeAsc {
        var ok := AreNotesSorted(store.notes, TimeCompare, true);
        if !ok { sortLabel := NoSort; }
      }
      if current == AlphDes {
        var ok := AreNotesSorted(store.notes, TitleCompare, false);
        if !ok { sortLabel := NoSort; }
      }
      if current == TimeDes {
        var ok := AreNotesSorted(store.notes, TimeCompare, false);
        if !ok { sortLabel := NoSort; }
      }
    }
  }
}
