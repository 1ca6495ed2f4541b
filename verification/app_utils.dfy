/** The ordering and layout utilities of the app (src/lib/appUtils.ts): the two sorts that keep
    the pinned note in place, the sortedness check, and the grid layout. */
module AppUtils {
  import opened NoteModel
  import opened StableSorting

  // ---------------------------------------------------------------- comparators

  /** Title comparison, standing in for `localeCompare`: lexicographic by character code,
      negative, zero or positive. */
  function LexCompare(a: string, b: string): (r: int)
    ensures -1 <= r <= 1
  {
    if a == [] then (if b == [] then 0 else -1)
    else if b == [] then 1
    else if a[0] < b[0] then -1
    else if a[0] > b[0] then 1
    else LexCompare(a[1..], b[1..])
  }

  /** Two titles compare equal exactly when they are the same string. */
  lemma {:induction false} LexCompareZero(a: string, b: string)
    ensures LexCompare(a, b) == 0 <==> a == b
  {
    if a != [] && b != [] && a[0] == b[0] {
      LexCompareZero(a[1..], b[1..]);
      assert a == [a[0]] + a[1..] && b == [b[0]] + b[1..];
    }
  }

  lemma {:induction false} LexCompareAntisymmetric(a: string, b: string)
    ensures LexCompare(a, b) == -LexCompare(b, a)
  {
    if a != [] && b != [] && a[0] == b[0] {
      LexCompareAntisymmetric(a[1..], b[1..]);
    }
  }

  lemma {:induction false} LexCompareTransitive(a: string, b: string, c: string)
    requires LexCompare(a, b) <= 0 && LexCompare(b, c) <= 0
    ensures LexCompare(a, c) <= 0
  {
    if a != [] && b != [] && c != [] && a[0] == b[0] && b[0] == c[0] {
      LexCompareTransitive(a[1..], b[1..], c[1..]);
    }
  }

  /** `a.title.localeCompare(b.title)`: zero exactly for equal titles, and swapping the
      notes negates the verdict. */
  function TitleCompare(a: Note, b: Note): (r: int)
    ensures -1 <= r <= 1
    ensures r == 0 <==> a.title == b.title
    ensures r == -LexCompare(b.title, a.title)
  {
    LexCompareZero(a.title, b.title);
    LexCompareAntisymmetric(a.title, b.title);
    LexCompare(a.title, b.title)
  }

  /** `new Date(a.updatedAt).getTime() - new Date(b.updatedAt).getTime()`: negative exactly
      when `a` was updated earlier, zero exactly when at the same instant. */
  function TimeCompare(a: Note, b: Note): (r: int)
    ensures r < 0 <==> a.updatedAt < b.updatedAt
    ensures r == 0 <==> a.updatedAt == b.updatedAt
  {
    a.updatedAt - b.updatedAt
  }

  lemma TitleCompareIsTotalPreorder()
    ensures IsTotalPreorder(TitleCompare)
  {
    forall a: Note, b: Note ensures TitleCompare(a, b) <= 0 <==> TitleCompare(b, a) >= 0 {
      LexCompareAntisymmetric(a.title, b.title);
    }
    forall a: Note, b: Note, c: Note | TitleCompare(a, b) <= 0 && TitleCompare(b, c) <= 0
      ensures TitleCompare(a, c) <= 0
    {
      LexCompareTransitive(a.title, b.title, c.title);
    }
  }

  lemma TimeCompareIsTotalPreorder()
    ensures IsTotalPreorder(TimeCompare)
  {
  }

  // ---------------------------------------------------------------- sorts

  /** `sortNotesAlpha`: the pinned note stays first; the rest is stably sorted by title,
      A to Z when ascending and Z to A otherwise. */
  function SortNotesAlpha(notes: seq<Note>, ascending: bool): (r: seq<Note>)
    requires |notes| > 0
    ensures |r| == |notes| && r[0] == notes[0]
    ensures multiset(r[1..]) == multiset(notes[1..])
    ensures Sorted(r[1..], Directed(TitleCompare, ascending))
    ensures forall k :: Class(r[1..], Directed(TitleCompare, ascending), k)
                     == Class(notes[1..], Directed(TitleCompare, ascending), k)
  {
    TitleCompareIsTotalPreorder();
    PinnedSort(notes, Directed(TitleCompare, ascending))
  }

  /** `sortNotesByTime`: the pinned note stays first; the rest is stably sorted by last
      update, oldest first when ascending and newest first otherwise. */
  function SortNotesByTime(notes: seq<Note>, ascending: bool): (r: seq<Note>)
    requires |notes| > 0
    ensures |r| == |notes| && r[0] == notes[0]
    ensures multiset(r[1..]) == multiset(notes[1..])
    ensures Sorted(r[1..], Directed(TimeCompare, ascending))
    ensures forall k :: Class(r[1..], Directed(TimeCompare, ascending), k)
                     == Class(notes[1..], Directed(TimeCompare, ascending), k)
  {
    TimeCompareIsTotalPreorder();
    PinnedSort(notes, Directed(TimeCompare, ascending))
  }

  /** `[notes[0], ...[...notes.slice(1)].sort(cmp)]`, shared by the two sorts. */
  function PinnedSort(notes: seq<Note>, cmp: Comparator): (r: seq<Note>)
    requires |notes| > 0
    requires IsTotalPreorder(cmp)
    ensures |r| == |notes| && r[0] == notes[0]
    ensures multiset(r[1..]) == multiset(notes[1..])
    ensures Sorted(r[1..], cmp)
    ensures forall k :: Class(r[1..], cmp, k) == Class(notes[1..], cmp, k)
  {
    var rest := Sort(notes[1..], cmp);
    SortPermutes(notes[1..], cmp);
    SortCharacterized(notes[1..], rest, cmp);
    assert ([notes[0]] + rest)[1..] == rest;
    [notes[0]] + rest
  }

  /** The contract of the pinned sort determines its result: any sequence that keeps the
      pinned note, sorts the rest and keeps every class of equal keys in input order is it. */
  lemma PinnedSortDetermined(notes: seq<Note>, cmp: Comparator, r: seq<Note>)
    requires |notes| > 0
    requires IsTotalPreorder(cmp)
    requires |r| > 0 && r[0] == notes[0]
    requires Sorted(r[1..], cmp)
    requires forall k :: Class(r[1..], cmp, k) == Class(notes[1..], cmp, k)
    ensures r == PinnedSort(notes, cmp)
  {
    var p := PinnedSort(notes, cmp);
    forall k ensures Class(r[1..], cmp, k) == Class(p[1..], cmp, k) {
      assert Class(r[1..], cmp, k) == Class(notes[1..], cmp, k);
    }
    SortedUnique(r[1..], p[1..], cmp);
    assert r == [r[0]] + r[1..] && p == [p[0]] + p[1..];
  }

  /** Sorting twice in the same mode is sorting once. */
  lemma PinnedSortIdempotent(notes: seq<Note>, cmp: Comparator)
    requires |notes| > 0
    requires IsTotalPreorder(cmp)
    ensures PinnedSort(PinnedSort(notes, cmp), cmp) == PinnedSort(notes, cmp)
  {
    var p := PinnedSort(notes, cmp);
    var q := PinnedSort(p, cmp);
    forall k ensures Class(p[1..], cmp, k) == Class(notes[1..], cmp, k) { }
    forall k ensures Class(q[1..], cmp, k) == Class(notes[1..], cmp, k) {
      assert Class(q[1..], cmp, k) == Class(p[1..], cmp, k);
    }
    PinnedSortDetermined(notes, cmp, q);
  }

  /** Neither sort loses or duplicates a note, so distinct ids stay distinct. */
  lemma SortsKeepIdsDistinct(notes: seq<Note>, ascending: bool)
    requires |notes| > 0 && IdsDistinct(notes)
    ensures IdsDistinct(SortNotesAlpha(notes, ascending))
    ensures IdsDistinct(SortNotesByTime(notes, ascending))
  {
    PinnedTailPermutes(notes, SortNotesAlpha(notes, ascending));
    PermutationKeepsIdsDistinct(notes, SortNotesAlpha(notes, ascending));
    PinnedTailPermutes(notes, SortNotesByTime(notes, ascending));
    PermutationKeepsIdsDistinct(notes, SortNotesByTime(notes, ascending));
  }

  /** Keeping the first note and permuting the rest permutes the whole. */
  lemma PinnedTailPermutes(notes: seq<Note>, r: seq<Note>)
    requires |notes| > 0 && |r| > 0 && r[0] == notes[0]
    requires multiset(r[1..]) == multiset(notes[1..])
    ensures multiset(r) == multiset(notes)
  {
    assert r == [r[0]] + r[1..];
    assert notes == [notes[0]] + notes[1..];
  }

  /** When no two notes after the pinned one share a title, Z to A is A to Z read back to
      front. */
  lemma AlphaDescendingIsReversed(notes: seq<Note>)
    requires |notes| > 0
    requires KeysDistinct(notes[1..], TitleCompare)
    ensures SortNotesAlpha(notes, false)[1..] == Reversed(SortNotesAlpha(notes, true)[1..])
  {
    TitleCompareIsTotalPreorder();
    FlippedSortIsReversed(notes[1..], TitleCompare);
    assert SortNotesAlpha(notes, true)[1..] == Sort(notes[1..], TitleCompare);
    assert SortNotesAlpha(notes, false)[1..] == Sort(notes[1..], Flipped(TitleCompare));
  }

  /** When no two notes after the pinned one share an update time, newest first is oldest
      first read back to front. */
  lemma TimeDescendingIsReversed(notes: seq<Note>)
    requires |notes| > 0
    requires KeysDistinct(notes[1..], TimeCompare)
    ensures SortNotesByTime(notes, false)[1..] == Reversed(SortNotesByTime(notes, true)[1..])
  {
    TimeCompareIsTotalPreorder();
    FlippedSortIsReversed(notes[1..], TimeCompare);
    assert SortNotesByTime(notes, true)[1..] == Sort(notes[1..], TimeCompare);
    assert SortNotesByTime(notes, false)[1..] == Sort(notes[1..], Flipped(TimeCompare));
  }

  // ---------------------------------------------------------------- sortedness check

  /** The verdict for one compared pair: `compare` is not positive (ascending) or not
      negative (descending). */
  predicate InOrder(c: int, ascending: bool) {
    if ascending then c <= 0 else c >= 0
  }

  /** What `areNotesSorted` decides: every adjacent pair from index 1 on is in order; the
      pair (0, 1) is never looked at. */
  predicate PairsInOrderAfterPinned(notes: seq<Note>, compare: Comparator, ascending: bool)
    ensures |notes| <= 2 ==> PairsInOrderAfterPinned(notes, compare, ascending)
  {
    forall i :: 1 <= i < |notes| - 1 ==> InOrder(compare(notes[i], notes[i + 1]), ascending)
  }

  /** `areNotesSorted`: scans the pairs (i, i + 1) for i from 1 while i < length - 1 and
      returns false at the first pair out of order. */
  method AreNotesSorted(notes: seq<Note>, compare: Comparator, ascending: bool) returns (sorted: bool)
    ensures sorted == PairsInOrderAfterPinned(notes, compare, ascending)
  {
    var i := 1;
    while i < |notes| - 1
      invariant 1 <= i && (i == 1 || i < |notes|)
      invariant forall j :: 1 <= j < i && j + 1 < |notes| ==> InOrder(compare(notes[j], notes[j + 1]), ascending)
    {
      if ascending && compare(notes[i], notes[i + 1]) > 0 {
        return false;
      } else if !ascending && compare(notes[i], notes[i + 1]) < 0 {
        return false;
      }
      i := i + 1;
    }
    return true;
  }

  /** For a consistent comparator the check passes exactly when everything after the pinned
      note is sorted in the checked direction. */
  lemma CheckMeansSortedTail(notes: seq<Note>, compare: Comparator, ascending: bool)
    requires IsTotalPreorder(compare)
    requires |notes| > 0
    ensures PairsInOrderAfterPinned(notes, compare, ascending) <==> Sorted(notes[1..], Directed(compare, ascending))
  {
    var t := notes[1..];
    var d := Directed(compare, ascending);
    forall i | 0 < i < |t| ensures d(t[i - 1], t[i]) <= 0 <==> InOrder(compare(notes[i], notes[i + 1]), ascending) {
      assert t[i - 1] == notes[i] && t[i] == notes[i + 1];
    }
    if Sorted(t, d) {
      forall i | 1 <= i < |notes| - 1 ensures InOrder(compare(notes[i], notes[i + 1]), ascending) {
        assert d(t[i - 1], t[i]) <= 0;
      }
    }
    if PairsInOrderAfterPinned(notes, compare, ascending) {
      forall i | 0 < i < |t| ensures d(t[i - 1], t[i]) <= 0 {
        assert InOrder(compare(notes[i], notes[i + 1]), ascending);
      }
    }
  }

  /** Only the notes after the pinned one matter to the check. */
  lemma CheckIgnoresPinned(notes: seq<Note>, pinned: Note, compare: Comparator, ascending: bool)
    requires |notes| > 0
    ensures PairsInOrderAfterPinned([pinned] + notes[1..], compare, ascending)
         == PairsInOrderAfterPinned(notes, compare, ascending)
  {
    var m := [pinned] + notes[1..];
    assert forall i :: 1 <= i < |notes| ==> m[i] == notes[i];
  }

  /** Round trip: the title sort passes the title check in the same direction. */
  lemma AlphaSortPassesCheck(notes: seq<Note>, ascending: bool)
    requires |notes| > 0
    ensures PairsInOrderAfterPinned(SortNotesAlpha(notes, ascending), TitleCompare, ascending)
  {
    TitleCompareIsTotalPreorder();
    CheckMeansSortedTail(SortNotesAlpha(notes, ascending), TitleCompare, ascending);
  }

  /** Round trip: the time sort passes the time check in the same direction. */
  lemma TimeSortPassesCheck(notes: seq<Note>, ascending: bool)
    requires |notes| > 0
    ensures PairsInOrderAfterPinned(SortNotesByTime(notes, ascending), TimeCompare, ascending)
  {
    TimeCompareIsTotalPreorder();
    CheckMeansSortedTail(SortNotesByTime(notes, ascending), TimeCompare, ascending);
  }

  // ---------------------------------------------------------------- layout

  /** The top-left corner of a note's cell. */
  datatype Position = Position(x: real, y: int)

  /** `Math.max(1, Math.floor(width / cellWidth))`: the most whole cells that fit across,
      and never fewer than one. */
  function Columns(width: int, cellWidth: int): (cols: int)
    requires cellWidth > 0
    ensures cols >= 1
    ensures width >= cellWidth ==> cols * cellWidth <= width < (cols + 1) * cellWidth
    ensures width < cellWidth ==> cols == 1
  {
    var fitted := width / cellWidth;
    if fitted > 1 then fitted else 1
  }

  /** The leftover width spread evenly between the columns; none with a single column. */
  function Gap(width: int, cellWidth: int): (gap: real)
    requires cellWidth > 0
    ensures 0.0 <= gap < cellWidth as real
    ensures Columns(width, cellWidth) == 1 ==> gap == 0.0
  {
    var cols := Columns(width, cellWidth);
    if cols > 1 then
      var leftover := width - cellWidth * cols;
      assert 0 <= leftover < cellWidth;
      GapBelowCell(leftover, cellWidth, cols - 1);
      leftover as real / (cols - 1) as real
    else 0.0
  }

  lemma GapBelowCell(leftover: int, cellWidth: int, spaces: int)
    requires 0 <= leftover < cellWidth && spaces >= 1
    ensures 0.0 <= leftover as real / spaces as real < cellWidth as real
  {
    var g := leftover as real / spaces as real;
    assert g * spaces as real == leftover as real;
    assert g * spaces as real >= g;
  }

  /** `calculatePositions`: note i sits in column i mod cols and row i div cols; columns are
      a cell plus a gap apart and rows one cell apart. */
  function CalculatePositions(notes: seq<Note>, width: int, cellWidth: int): (ps: seq<Position>)
    requires cellWidth > 0
    ensures |ps| == |notes|
  {
    var cols := Columns(width, cellWidth);
    var gap := Gap(width, cellWidth);
    seq(|notes|, i requires 0 <= i < |notes| =>
      Position((i % cols) as real * (cellWidth as real + gap), (i / cols) * cellWidth))
  }

  /** A container narrower than one cell gives a single column: every note at x = 0, one
      row per note. */
  lemma LayoutSingleColumn(notes: seq<Note>, width: int, cellWidth: int)
    requires 0 < cellWidth && width < cellWidth
    ensures Gap(width, cellWidth) == 0.0
    ensures forall i :: 0 <= i < |notes| ==>
      CalculatePositions(notes, width, cellWidth)[i] == Position(0.0, i * cellWidth)
  {
  }

  /** With more than one column the gaps take up all the leftover width: the right edge of
      the last column is the right edge of the container. */
  lemma LayoutFillsWidth(width: int, cellWidth: int)
    requires cellWidth > 0 && Columns(width, cellWidth) > 1
    ensures (Columns(width, cellWidth) - 1) as real * (cellWidth as real + Gap(width, cellWidth))
            + cellWidth as real == width as real
  {
    var cols := Columns(width, cellWidth);
    var spaces := (cols - 1) as real;
    var leftover := (width - cellWidth * cols) as real;
    assert Gap(width, cellWidth) * spaces == leftover;
    calc {
      spaces * (cellWidth as real + Gap(width, cellWidth)) + cellWidth as real;
      spaces * cellWidth as real + Gap(width, cellWidth) * spaces + cellWidth as real;
      (cols * cellWidth) as real + leftover;
    }
  }

  /** Note i's position, unfolded: column i mod cols, row i div cols, columns `step` apart. */
  lemma PositionAt(notes: seq<Note>, width: int, cellWidth: int, i: int, cols: int, step: real)
    requires cellWidth > 0 && 0 <= i < |notes|
    requires cols == Columns(width, cellWidth) && step == cellWidth as real + Gap(width, cellWidth)
    ensures CalculatePositions(notes, width, cellWidth)[i] == Position((i % cols) as real * step, (i / cols) * cellWidth)
  {
  }

  /** Every cell starts inside the container, and when at least one cell fits across, it
      also ends inside it. */
  lemma LayoutInside(notes: seq<Note>, width: int, cellWidth: int, i: int)
    requires cellWidth > 0 && 0 <= i < |notes|
    ensures 0.0 <= CalculatePositions(notes, width, cellWidth)[i].x
    ensures 0 <= CalculatePositions(notes, width, cellWidth)[i].y
    ensures width >= cellWidth ==>
      CalculatePositions(notes, width, cellWidth)[i].x + cellWidth as real <= width as real
  {
    var cols := Columns(width, cellWidth);
    var step := cellWidth as real + Gap(width, cellWidth);
    var p := CalculatePositions(notes, width, cellWidth)[i];
    PositionAt(notes, width, cellWidth, i, cols, step);
    DivModBounds(i, cols);
    CellInside(i % cols, i / cols, cols, cellWidth, width, step, p);
  }

  /** The cell in a given column and row of the grid starts inside the container and, when
      it is not wider than the container, ends inside it. */
  lemma CellInside(column: int, row: int, cols: int, cellWidth: int, width: int, step: real, p: Position)
    requires cellWidth > 0 && cols == Columns(width, cellWidth)
    requires step == cellWidth as real + Gap(width, cellWidth)
    requires 0 <= column < cols && 0 <= row
    requires p == Position(column as real * step, row * cellWidth)
    ensures 0.0 <= p.x && 0 <= p.y
    ensures width >= cellWidth ==> p.x + cellWidth as real <= width as real
  {
    ScaleMonotone(0.0, column as real, step);
    NatProductNonNegative(row, cellWidth);
    if cols > 1 {
      LayoutFillsWidth(width, cellWidth);
      LastColumnBound(column, cols, step, cellWidth as real, width as real);
    }
  }

  lemma DivModBounds(i: int, cols: int)
    requires 0 <= i && 1 <= cols
    ensures 0 <= i % cols < cols && 0 <= i / cols
  {
  }

  /** No column starts further right than the last one. */
  lemma LastColumnBound(column: int, cols: int, step: real, cell: real, w: real)
    requires 0 <= column < cols && 0.0 <= step
    requires (cols - 1) as real * step + cell == w
    ensures column as real * step + cell <= w
  {
    ScaleMonotone(column as real, (cols - 1) as real, step);
  }

  lemma ScaleMonotone(a: real, b: real, step: real)
    requires a <= b && 0.0 <= step
    ensures a * step <= b * step
  {
    assert b * step - a * step == (b - a) * step;
  }

  lemma NatProductNonNegative(a: int, b: int)
    requires 0 <= a && 0 <= b
    ensures 0 <= a * b
  {
  }

  lemma {:induction false} AtLeastOnce(d: int, c: int)
    requires 1 <= d && 0 <= c
    ensures c <= d * c
  {
    assert d * c == c + (d - 1) * c;
    NatProductNonNegative(d - 1, c);
  }

  /** Index i sits in row i div cols and column i mod cols, so a later index is in a later
      row, or in the same row and a later column. */
  lemma RowMajor(i: int, j: int, cols: int)
    requires 0 <= i < j && cols >= 1
    ensures i / cols < j / cols || (i / cols == j / cols && i % cols < j % cols)
  {
    var qi, ri, qj, rj := i / cols, i % cols, j / cols, j % cols;
    assert i == qi * cols + ri && j == qj * cols + rj;
    assert (qi - qj) * cols == qi * cols - qj * cols;
    assert (qi - qj) * cols < cols;
    if qi - qj >= 1 {
      AtLeastOnce(qi - qj, cols);
    }
  }

  /** Cells do not overlap, and the layout reads in note order: a later note is at least one
      row lower, or in the same row at least one cell further right. */
  lemma LayoutNoOverlap(notes: seq<Note>, width: int, cellWidth: int, i: int, j: int)
    requires cellWidth > 0 && 0 <= i < j < |notes|
    ensures var ps := CalculatePositions(notes, width, cellWidth);
      ps[j].y >= ps[i].y + cellWidth
      || (ps[j].y == ps[i].y && ps[j].x >= ps[i].x + cellWidth as real)
  {
    var ps := CalculatePositions(notes, width, cellWidth);
    var cols := Columns(width, cellWidth);
    var step := cellWidth as real + Gap(width, cellWidth);
    PositionAt(notes, width, cellWidth, i, cols, step);
    PositionAt(notes, width, cellWidth, j, cols, step);
    CellOrder(i, j, cols, cellWidth, step, ps[i], ps[j]);
  }

  /** The cells of two indices, laid out row-major, do not overlap. */
  lemma CellOrder(i: int, j: int, cols: int, cellWidth: int, step: real, pi: Position, pj: Position)
    requires 0 <= i < j && cols >= 1
    requires 0 < cellWidth && cellWidth as real <= step
    requires pi == Position((i % cols) as real * step, (i / cols) * cellWidth)
    requires pj == Position((j % cols) as real * step, (j / cols) * cellWidth)
    ensures pj.y >= pi.y + cellWidth || (pj.y == pi.y && pj.x >= pi.x + cellWidth as real)
  {
    RowMajor(i, j, cols);
    CellsApart(i / cols, i % cols, j / cols, j % cols, cellWidth, step);
  }

  lemma CellsApart(ri: int, ci: int, rj: int, cj: int, cellWidth: int, step: real)
    requires ri < rj || (ri == rj && ci < cj)
    requires 0 < cellWidth && cellWidth as real <= step
    ensures rj * cellWidth >= ri * cellWidth + cellWidth
            || (rj * cellWidth == ri * cellWidth && cj as real * step >= ci as real * step + cellWidth as real)
  {
    if ri < rj {
      RowsApart(ri, rj, cellWidth);
    } else {
      assert ri == rj && ci < cj;
      ColumnsApart(ci, cj, cellWidth as real, step);
    }
  }

  lemma RowsApart(ri: int, rj: int, cellWidth: int)
    requires ri < rj && 0 < cellWidth
    ensures rj * cellWidth >= ri * cellWidth + cellWidth
  {
    assert rj * cellWidth - ri * cellWidth == (rj - ri) * cellWidth;
    AtLeastOnce(rj - ri, cellWidth);
  }

  lemma ColumnsApart(ci: int, cj: int, cell: real, step: real)
    requires ci < cj && 0.0 <= cell <= step
    ensures cj as real * step >= ci as real * step + cell
  {
    assert cj as real * step - ci as real * step == (cj - ci) as real * step;
    ScaleMonotone(1.0, (cj - ci) as real, step);
  }
}
