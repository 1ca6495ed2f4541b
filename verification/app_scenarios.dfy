/** Worked examples of the ordering and layout utilities on the four-note collection the unit
    tests use (__tests__/appUtils.test.ts): a pinned note followed by "Delta", "Alpha" and
    "Beta", last updated on days 3, 4 and 2 of January 2024. */
module AppScenarios {
  import opened NoteModel
  import opened StableSorting
  import opened AppUtils

  /** 2024-01-01T10:00:00Z in milliseconds since the epoch, and one day. */
  const Day1: int := 1704103200000
  const DayMs: int := 86400000

  const PinnedNote: Note := Note("0", "Pinned Note", "", 0, Day1)
  const DeltaNote: Note := Note("3", "Delta Note", "", 0, Day1 + 2 * DayMs)
  const AlphaNote: Note := Note("1", "Alpha Note", "", 0, Day1 + 3 * DayMs)
  const BetaNote: Note := Note("2", "Beta Note", "", 0, Day1 + DayMs)

  const Mock: seq<Note> := [PinnedNote, DeltaNote, AlphaNote, BetaNote]

  /** The test collection meets the premises of the four sort scenarios below: titles
      Alpha < Beta < Delta, and update times Beta < Delta < Alpha. */
  lemma TestKeys()
    ensures |Mock| == 4
    ensures TitleCompare(Mock[2], Mock[3]) < 0 && TitleCompare(Mock[3], Mock[1]) < 0
    ensures TitleCompare(Mock[2], Mock[1]) < 0
    ensures Mock[3].updatedAt < Mock[1].updatedAt < Mock[2].updatedAt
  {
  }

  /** Each sort is the pinned note followed by the stable sort of the rest. */
  lemma SortsUnfold(notes: seq<Note>)
    requires |notes| > 0
    ensures SortNotesAlpha(notes, true) == [notes[0]] + Sort(notes[1..], TitleCompare)
    ensures SortNotesAlpha(notes, false) == [notes[0]] + Sort(notes[1..], Flipped(TitleCompare))
    ensures SortNotesByTime(notes, true) == [notes[0]] + Sort(notes[1..], TimeCompare)
    ensures SortNotesByTime(notes, false) == [notes[0]] + Sort(notes[1..], Flipped(TimeCompare))
  {
  }

  lemma TitlesAscending(d: Note, a: Note, b: Note)
    requires TitleCompare(a, b) < 0 && TitleCompare(b, d) < 0 && TitleCompare(a, d) < 0
    ensures Sort([d, a, b], TitleCompare) == [a, b, d]
  {
    var c := TitleCompare;
    LexCompareAntisymmetric(d.title, a.title);
    LexCompareAntisymmetric(d.title, b.title);
    assert Sort([b], c) == [b];
    assert Sort([a, b], c) == [a, b];
    assert Insert(d, [b], c) == [b, d];
  }

  lemma TitlesDescending(d: Note, a: Note, b: Note)
    requires TitleCompare(a, b) < 0 && TitleCompare(b, d) < 0 && TitleCompare(a, d) < 0
    ensures Sort([d, a, b], Flipped(TitleCompare)) == [d, b, a]
  {
    var c := Flipped(TitleCompare);
    LexCompareAntisymmetric(a.title, b.title);
    assert c(a, b) > 0 && c(d, a) < 0 && c(d, b) < 0;
    assert Sort([b], c) == [b];
    assert Insert(a, [b], c) == [b, a];
    assert Sort([a, b], c) == [b, a];
  }

  lemma TimesAscending(d: Note, a: Note, b: Note)
    requires b.updatedAt < d.updatedAt < a.updatedAt
    ensures Sort([d, a, b], TimeCompare) == [b, d, a]
  {
    var c := TimeCompare;
    assert Sort([b], c) == [b];
    assert Insert(a, [b], c) == [b, a];
    assert Sort([a, b], c) == [b, a];
    assert Insert(d, [a], c) == [d, a];
  }

  lemma TimesDescending(d: Note, a: Note, b: Note)
    requires b.updatedAt < d.updatedAt < a.updatedAt
    ensures Sort([d, a, b], Flipped(TimeCompare)) == [a, d, b]
  {
    var c := Flipped(TimeCompare);
    assert c(a, b) < 0 && c(d, b) < 0 && c(d, a) > 0;
    assert Sort([b], c) == [b];
    assert Sort([a, b], c) == [a, b];
    assert Insert(d, [b], c) == [d, b];
  }

  /** Title A to Z, on any collection whose notes after the pinned one have titles
      running n[2] < n[3] < n[1] (the test's Delta, Alpha, Beta), gives n[0], n[2], n[3], n[1]. */
  lemma AlphaAscendingScenario(n: seq<Note>)
    requires |n| == 4
    requires TitleCompare(n[2], n[3]) < 0 && TitleCompare(n[3], n[1]) < 0 && TitleCompare(n[2], n[1]) < 0
    ensures var r := SortNotesAlpha(n, true); r[0] == n[0] && r[1] == n[2] && r[2] == n[3] && r[3] == n[1]
  {
    SortsUnfold(n);
    assert n[1..] == [n[1], n[2], n[3]];
    TitlesAscending(n[1], n[2], n[3]);
  }

  /** Title Z to A on such a collection gives n[0], n[1], n[3], n[2]. */
  lemma AlphaDescendingScenario(n: seq<Note>)
    requires |n| == 4
    requires TitleCompare(n[2], n[3]) < 0 && TitleCompare(n[3], n[1]) < 0 && TitleCompare(n[2], n[1]) < 0
    ensures var r := SortNotesAlpha(n, false); r[0] == n[0] && r[1] == n[1] && r[2] == n[3] && r[3] == n[2]
  {
    SortsUnfold(n);
    assert n[1..] == [n[1], n[2], n[3]];
    TitlesDescending(n[1], n[2], n[3]);
  }

  /** Oldest first, on any collection whose notes after the pinned one were last updated in
      the order n[3], n[1], n[2] (the test's Beta on day 2, Delta on day 3, Alpha on day 4),
      gives n[0], n[3], n[1], n[2]. */
  lemma TimeAscendingScenario(n: seq<Note>)
    requires |n| == 4
    requires n[3].updatedAt < n[1].updatedAt < n[2].updatedAt
    ensures var r := SortNotesByTime(n, true); r[0] == n[0] && r[1] == n[3] && r[2] == n[1] && r[3] == n[2]
  {
    SortsUnfold(n);
    assert n[1..] == [n[1], n[2], n[3]];
    TimesAscending(n[1], n[2], n[3]);
  }

  /** Newest first on such a collection gives n[0], n[2], n[1], n[3]. */
  lemma TimeDescendingScenario(n: seq<Note>)
    requires |n| == 4
    requires n[3].updatedAt < n[1].updatedAt < n[2].updatedAt
    ensures var r := SortNotesByTime(n, false); r[0] == n[0] && r[1] == n[2] && r[2] == n[1] && r[3] == n[3]
  {
    SortsUnfold(n);
    assert n[1..] == [n[1], n[2], n[3]];
    TimesDescending(n[1], n[2], n[3]);
  }

  /** The title sort, A to Z, on the test collection: Pinned, Alpha, Beta, Delta. */
  lemma MockAlphaAscending()
    ensures var r := SortNotesAlpha(Mock, true);
      r[0] == PinnedNote && r[1] == AlphaNote && r[2] == BetaNote && r[3] == DeltaNote
  {
    TestKeys();
    AlphaAscendingScenario(Mock);
  }

  /** The title sort, Z to A, on the test collection: Pinned, Delta, Beta, Alpha. */
  lemma MockAlphaDescending()
    ensures var r := SortNotesAlpha(Mock, false);
      r[0] == PinnedNote && r[1] == DeltaNote && r[2] == BetaNote && r[3] == AlphaNote
  {
    TestKeys();
    AlphaDescendingScenario(Mock);
  }

  /** The time sort, oldest first, on the test collection: Pinned, Beta, Delta, Alpha. */
  lemma MockTimeAscending()
    ensures var r := SortNotesByTime(Mock, true);
      r[0] == PinnedNote && r[1] == BetaNote && r[2] == DeltaNote && r[3] == AlphaNote
  {
    TestKeys();
    TimeAscendingScenario(Mock);
  }

  /** The time sort, newest first, on the test collection: Pinned, Alpha, Delta, Beta. */
  lemma MockTimeDescending()
    ensures var r := SortNotesByTime(Mock, false);
      r[0] == PinnedNote && r[1] == AlphaNote && r[2] == DeltaNote && r[3] == BetaNote
  {
    TestKeys();
    TimeDescendingScenario(Mock);
  }

  /** The unsorted collection fails both ascending checks; the sorted ones pass. */
  lemma CheckScenario()
    ensures !PairsInOrderAfterPinned(Mock, TitleCompare, true)
    ensures !PairsInOrderAfterPinned(Mock, TimeCompare, true)
    ensures PairsInOrderAfterPinned(SortNotesAlpha(Mock, true), TitleCompare, true)
    ensures PairsInOrderAfterPinned(SortNotesByTime(Mock, true), TimeCompare, true)
  {
    assert !InOrder(TitleCompare(Mock[1], Mock[2]), true);
    assert !InOrder(TimeCompare(Mock[2], Mock[3]), true);
    AlphaSortPassesCheck(Mock, true);
    TimeSortPassesCheck(Mock, true);
  }

  /** A 1540-wide container with 400-wide cells holds three columns with a gap of 170. */
  lemma WideLayoutScenario()
    ensures CalculatePositions(Mock, 1540, 400)
         == [Position(0.0, 0), Position(570.0, 0), Position(1140.0, 0), Position(0.0, 400)]
  {
    assert Columns(1540, 400) == 3;
    assert Gap(1540, 400) == 170.0;
  }

  /** A container exactly one cell wide stacks the notes in one column. */
  lemma NarrowLayoutScenario()
    ensures CalculatePositions(Mock, 100, 100)
         == [Position(0.0, 0), Position(0.0, 100), Position(0.0, 200), Position(0.0, 300)]
  {
    assert Columns(100, 100) == 1;
  }

  const TwinA: Note := Note("5", "Same", "", 0, Day1)
  const TwinB: Note := Note("6", "Same", "", 0, Day1)

  /** Two notes with the same title keep their input order in both directions, so Z to A is
      not A to Z read back to front when titles tie. */
  lemma TiedTitlesScenario()
    ensures SortNotesAlpha([PinnedNote, TwinA, TwinB], true) == [PinnedNote, TwinA, TwinB]
    ensures SortNotesAlpha([PinnedNote, TwinA, TwinB], false) == [PinnedNote, TwinA, TwinB]
    ensures SortNotesAlpha([PinnedNote, TwinA, TwinB], false)[1..]
         != Reversed(SortNotesAlpha([PinnedNote, TwinA, TwinB], true)[1..])
  {
    var s := [PinnedNote, TwinA, TwinB];
    assert s[1..] == [TwinA, TwinB];
    LexCompareZero(TwinA.title, TwinB.title);
    assert TitleCompare(TwinA, TwinB) == 0;
    assert Flipped(TitleCompare)(TwinA, TwinB) == 0;
    assert Sort([TwinB], TitleCompare) == [TwinB];
    assert Sort([TwinB], Flipped(TitleCompare)) == [TwinB];
    assert Sort([TwinA, TwinB], TitleCompare) == [TwinA, TwinB];
    assert Sort([TwinA, TwinB], Flipped(TitleCompare)) == [TwinA, TwinB];
    assert Reversed([TwinA, TwinB]) == [TwinB, TwinA] by {
      assert [TwinA, TwinB][1..] == [TwinB];
      assert Reversed([TwinB]) == [TwinB];
    }
    assert ([PinnedNote, TwinA, TwinB])[1..] == [TwinA, TwinB];
  }
}
