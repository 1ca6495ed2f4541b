# Sticky notes: ordering, layout and collection commands

A model of the logic core of a browser sticky-notes app. The app keeps an ordered
collection of notes. Index 0 holds a "pinned" compose note that never takes part in
reordering.

- Users add, edit and delete notes, and clear the collection down to the pinned note.
- They sort the other notes by title or by last update, in either direction.
- They reorder notes by drag and drop.
- A persisted sort label remembers which sort is in force. It is cleared as soon as the
  collection is no longer in that order.
- Notes are laid out on a grid whose column count and gaps depend on the container width.

The modules follow the app's files:

| module | file | what it holds |
|---|---|---|
| `NoteModel` | `note_model.dfy` | the note record and the distinct-ids invariant |
| `StableSorting` | `stable_sorting.dfy` | `Array.prototype.sort` with a comparator, as a stable insertion sort, with its characterisation |
| `AppUtils` | `app_utils.dfy` | `src/lib/appUtils.ts`: the two pinned sorts, the sortedness check (a loop), the grid layout |
| `UseNotes` | `use_notes.dfy` | `src/hooks/useNotes.ts`: the collection commands, on a `NoteStore` class |
| `UseDrag` | `use_drag.dfy` | `src/hooks/useDrag.ts`: the drop guard and the in-place splice move on an array |
| `UseSort` | `use_sort.dfy` | `src/hooks/useSort.ts`: the sort commands and the label revalidation effect, on a `SortController` class |
| `AppScenarios` | `app_scenarios.dfy` | the unit tests' four-note examples, worked out |

Some choices of representation:

- Comparators are functions `(Note, Note) -> int`, as in JavaScript.
- A comparator is *consistent* (`IsTotalPreorder`) when its sign is antisymmetric and "not
  after" is transitive.
- Titles compare lexicographically by character code.
- Update times are integer milliseconds.
- Layout coordinates are exact reals for x and integers for y.

## Model

| member | source | states |
|---|---|---|
| NoteModel.DistinctIdsOccurOnce | src/lib/appUtils.ts:3-19 | supporting lemma for PermutationKeepsIdsDistinct: in a collection with distinct ids every note occurs at most once |
| NoteModel.RepeatOccursTwice | src/lib/appUtils.ts:3-19 | supporting lemma for PermutationKeepsIdsDistinct: a note found at two indices occurs at least twice |
| NoteModel.PermutationKeepsIdsDistinct | src/lib/appUtils.ts:3-19 | any reordering of a collection with distinct ids keeps them distinct; the sorts use it |
| StableSorting.Insert | src/lib/appUtils.ts:5 | one insertion step of the stable sort: the result is one longer; InsertPermutes, InsertSorted and InsertClass prove it adds exactly the element, keeps a sorted sequence sorted and puts the element first among the elements equivalent to it |
| StableSorting.Sort | src/lib/appUtils.ts:5 | the stable sort keeps the length; SortPermutes, SortSorted, SortStable and SortCharacterized prove it is the unique sorted, class-preserving permutation |
| StableSorting.DirectedIsTotalPreorder | src/lib/appUtils.ts:5-7 | the descending comparator (arguments swapped) is consistent whenever the ascending one is |
| StableSorting.InsertPermutes | src/lib/appUtils.ts:5-7 | inserting one element adds exactly that element to the multiset |
| StableSorting.SortPermutes | src/lib/appUtils.ts:5-7 | the sort keeps the length and is a permutation of its input |
| StableSorting.InsertSorted | src/lib/appUtils.ts:5-7 | inserting into a sorted sequence keeps it sorted |
| StableSorting.SortSorted | src/lib/appUtils.ts:5-7 | for a consistent comparator, every adjacent pair of the result is in order |
| StableSorting.ClassAppend | src/lib/appUtils.ts:5-7 | supporting lemma for InsertClass and SortStable: the class of equivalent elements of a concatenation is the concatenation of the classes |
| StableSorting.ClassMember | src/lib/appUtils.ts:5-7 | supporting lemma for SortedUnique: an element is in the class of k exactly when it is in the sequence and equivalent to k |
| StableSorting.InsertClass | src/lib/appUtils.ts:5-7 | insertion puts the new element in front of every element equivalent to it, so classes keep input order |
| StableSorting.SortStable | src/lib/appUtils.ts:5-7 | stability: every class of equivalent elements keeps its input order |
| StableSorting.SortedPair | src/lib/appUtils.ts:5-7 | supporting lemma for SortedUnique: in a sorted sequence, no element comes after any later element |
| StableSorting.HeadIsLeast | src/lib/appUtils.ts:5-7 | supporting lemma for SortedUnique and UseSort.DeletedStaysSorted: the head of a sorted sequence comes after none of its elements |
| StableSorting.ClassesDetectEmpty | src/lib/appUtils.ts:5-7 | supporting lemma for SortedUnique: two sequences with the same classes are empty together |
| StableSorting.SortedUnique | src/lib/appUtils.ts:5-7 | two sorted sequences with the same classes are equal, so a stable sort's result is unique |
| StableSorting.SortCharacterized | src/lib/appUtils.ts:5-7 | the sort is exactly the sorted sequence that keeps every class of the input in order (both directions) |
| StableSorting.SortFixesSorted | src/lib/appUtils.ts:5-7 | sorting leaves a sequence unchanged if and only if it is already sorted |
| StableSorting.SortIdempotent | src/lib/appUtils.ts:5-7 | sorting twice equals sorting once |
| StableSorting.Reversed | src/lib/appUtils.ts:5-7 | supporting definition for FlippedSortIsReversed: reading back to front keeps the length |
| StableSorting.ReversedAt | src/lib/appUtils.ts:5-7 | supporting lemma for ReversedSortedFlipped and ClassReversed: the element at i of the reversal is the element at length - 1 - i |
| StableSorting.ReversedSortedFlipped | src/lib/appUtils.ts:5-7 | a sequence sorted one way, read back to front, is sorted under the swapped comparator |
| StableSorting.ClassFlipped | src/lib/appUtils.ts:5-7 | supporting lemma for FlippedSortIsReversed: swapping a consistent comparator's arguments does not change which elements are equivalent |
| StableSorting.ClassReversed | src/lib/appUtils.ts:5-7 | supporting lemma for FlippedSortIsReversed: the class of a reversal is the reversal of the class |
| StableSorting.ClassAtMostOne | src/lib/appUtils.ts:5-7 | supporting lemma for FlippedSortIsReversed: without ties every class has at most one element |
| StableSorting.ReversedSortKeepsClass | src/lib/appUtils.ts:5-7 | supporting lemma for FlippedSortIsReversed: without ties, the reversed ascending sort has the input's classes under the swapped comparator |
| StableSorting.FlippedSortIsReversed | src/lib/appUtils.ts:5-7 | without ties, the descending sort is the ascending sort read back to front |
| AppUtils.LexCompare | src/lib/appUtils.ts:6 | the title comparison yields -1, 0 or 1 |
| AppUtils.LexCompareZero | src/lib/appUtils.ts:6 | two titles compare equal if and only if they are the same string |
| AppUtils.LexCompareAntisymmetric | src/lib/appUtils.ts:6 | comparing b with a gives the negation of comparing a with b |
| AppUtils.LexCompareTransitive | src/lib/appUtils.ts:6 | "not after" on titles is transitive |
| AppUtils.TitleCompare | src/lib/appUtils.ts:6 | the title comparator yields -1, 0 or 1, is zero exactly for equal titles, and swapping the notes negates it; the effect's title check (src/hooks/useSort.ts:27) uses the same comparator |
| AppUtils.TimeCompare | src/lib/appUtils.ts:15-16 | the time comparator is negative exactly when the first note was updated earlier and zero exactly when both were updated at the same instant; the effect's time check (src/hooks/useSort.ts:35) uses the same comparator |
| AppUtils.TitleCompareIsTotalPreorder | src/lib/appUtils.ts:6 | the title comparator is consistent |
| AppUtils.TimeCompareIsTotalPreorder | src/lib/appUtils.ts:15-16 | the update-time comparator (difference of the instants) is consistent |
| AppUtils.SortNotesAlpha | src/lib/appUtils.ts:3-9 | the pinned note stays first, the length is kept, the rest is a permutation of the input's rest, sorted by title in the chosen direction, and equal titles keep input order |
| AppUtils.SortNotesByTime | src/lib/appUtils.ts:11-19 | the pinned note stays first, the length is kept, the rest is a permutation of the input's rest, sorted by update time in the chosen direction, and equal times keep input order |
| AppUtils.PinnedSort | src/lib/appUtils.ts:4-8 | keeping element 0 and sorting the rest keeps the pinned note first, permutes and sorts the rest, and keeps classes in order |
| AppUtils.PinnedSortDetermined | src/lib/appUtils.ts:4-8 | any sequence meeting that contract is the pinned sort's result |
| AppUtils.PinnedSortIdempotent | src/lib/appUtils.ts:4-8 | sorting again in the same mode changes nothing |
| AppUtils.SortsKeepIdsDistinct | src/lib/appUtils.ts:3-19 | neither sort loses or duplicates a note, so distinct ids stay distinct |
| AppUtils.PinnedTailPermutes | src/lib/appUtils.ts:4-8 | supporting lemma for SortsKeepIdsDistinct: keeping the first note and permuting the rest permutes the whole |
| AppUtils.AlphaDescendingIsReversed | src/lib/appUtils.ts:3-9 | when no two non-pinned titles tie, Z to A is A to Z read back to front |
| AppUtils.TimeDescendingIsReversed | src/lib/appUtils.ts:11-19 | when no two non-pinned update times tie, newest first is oldest first read back to front |
| AppUtils.PairsInOrderAfterPinned | src/lib/appUtils.ts:26-27 | what the check decides: every adjacent pair from index 1 on is in order; a collection of at most two notes always passes, because the loop runs no iteration |
| AppUtils.AreNotesSorted | src/lib/appUtils.ts:21-32 | the loop returns true exactly when every adjacent pair from index 1 on is in order in the checked direction |
| AppUtils.CheckMeansSortedTail | src/lib/appUtils.ts:21-32 | for a consistent comparator, the check passes if and only if everything after the pinned note is sorted in that direction |
| AppUtils.CheckIgnoresPinned | src/lib/appUtils.ts:26 | the check's verdict does not depend on the note at index 0 |
| AppUtils.AlphaSortPassesCheck | src/lib/appUtils.ts:3-32 | the title sort's result passes the title check in the same direction |
| AppUtils.TimeSortPassesCheck | src/lib/appUtils.ts:11-32 | the time sort's result passes the time check in the same direction |
| AppUtils.Columns | src/lib/appUtils.ts:39 | at least one column; when a cell fits, the most whole cells that fit across the width |
| AppUtils.Gap | src/lib/appUtils.ts:40-41 | the gap is non-negative, smaller than a cell, and zero with a single column |
| AppUtils.GapBelowCell | src/lib/appUtils.ts:40-41 | supporting lemma for Gap: spreading less than a cell of leftover width over one or more gaps gives less than a cell each |
| AppUtils.CalculatePositions | src/lib/appUtils.ts:34-52 | one position per note |
| AppUtils.LayoutSingleColumn | src/lib/appUtils.ts:39-48 | a container narrower than a cell stacks every note at x = 0, one cell apart |
| AppUtils.LayoutFillsWidth | src/lib/appUtils.ts:39-48 | with several columns, the last column's right edge is the container's right edge |
| AppUtils.PositionAt | src/lib/appUtils.ts:43-50 | note i sits at column i mod cols, a cell plus a gap apart, and row i div cols, a cell apart |
| AppUtils.LayoutInside | src/lib/appUtils.ts:43-51 | every cell starts at non-negative coordinates and, when a cell fits, ends within the width |
| AppUtils.CellInside | src/lib/appUtils.ts:39-48 | supporting lemma for LayoutInside: a grid cell starts at non-negative coordinates and, when a cell fits, ends within the width |
| AppUtils.LastColumnBound | src/lib/appUtils.ts:44-48 | supporting lemma for CellInside: no column starts further right than the last one |
| AppUtils.RowMajor | src/lib/appUtils.ts:44-45 | supporting lemma for LayoutNoOverlap: a later index is in a later row, or in the same row and a later column |
| AppUtils.LayoutNoOverlap | src/lib/appUtils.ts:43-51 | a later note is at least one cell lower, or in the same row at least one cell to the right: cells never overlap |
| AppUtils.CellOrder | src/lib/appUtils.ts:43-50 | supporting lemma for LayoutNoOverlap: two indices laid out row-major give cells that do not overlap |
| UseNotes.InitialNotes | src/hooks/useNotes.ts:8-16 | a fresh store holds one blank note with colour 0, and its ids are distinct |
| UseNotes.WithAdded | src/hooks/useNotes.ts:18-30 | the new note goes first, blank, in the pinned note's colour, stamped now; the old collection follows unchanged; distinct ids stay distinct when the new id is fresh |
| UseNotes.Merged | src/hooks/useNotes.ts:36 | the edited note keeps its id and takes the current time; each field the patch sets is overwritten and every other field keeps its value |
| UseNotes.WithUpdated | src/hooks/useNotes.ts:33-39 | an update keeps the length |
| UseNotes.WithDeleted | src/hooks/useNotes.ts:44 | the filter never lengthens the collection and no survivor carries the id; DeleteRemovesExactly, DeleteCutsOne and DeleteAbsentIsIdentity give the rest |
| UseNotes.WithPinnedOnly | src/hooks/useNotes.ts:48-51 | clearing keeps exactly the note at index 0 (nothing when empty) |
| UseNotes.UpdateInPlace | src/hooks/useNotes.ts:32-41 | an update keeps every id in place, leaves notes with another id untouched, and applies the patch and the time to the note with the id |
| UseNotes.UpdateKeepsIdsDistinct | src/hooks/useNotes.ts:32-41 | an update keeps the ids distinct |
| UseNotes.UpdateAbsentIsIdentity | src/hooks/useNotes.ts:32-41 | updating an id no note carries changes nothing |
| UseNotes.DeleteRemovesExactly | src/hooks/useNotes.ts:43-46 | after a delete no note carries the id; a note survives if and only if it was there with another id; the length never grows |
| UseNotes.DeleteCutsOne | src/hooks/useNotes.ts:43-46 | with distinct ids, deleting the id at position k removes exactly that position, keeping the others in order |
| UseNotes.DeleteAbsentIsIdentity | src/hooks/useNotes.ts:43-46 | deleting an id no note carries changes nothing |
| UseNotes.DeleteKeepsIdsDistinct | src/hooks/useNotes.ts:43-46 | a delete keeps the ids distinct |
| UseNotes.DeleteKeepsPinned | src/hooks/useNotes.ts:43-46 | deleting any id but the pinned note's leaves the pinned note first |
| UseNotes.NoteStore.constructor | src/hooks/useNotes.ts:8-16 | a store with nothing saved holds the initial collection, with distinct ids |
| UseNotes.NoteStore.AddNote | src/hooks/useNotes.ts:18-30 | the stored collection becomes the added one; distinct ids are kept |
| UseNotes.NoteStore.UpdateNote | src/hooks/useNotes.ts:32-41 | the stored collection becomes the updated one; distinct ids are kept |
| UseNotes.NoteStore.DeleteNote | src/hooks/useNotes.ts:43-46 | the stored collection becomes the filtered one; distinct ids are kept |
| UseNotes.NoteStore.DeleteAllNotes | src/hooks/useNotes.ts:48-51 | the stored collection becomes the pinned note alone, whose ids are distinct |
| UseDrag.Moved | src/hooks/useDrag.ts:26-28 | the two splices keep the length and put the dragged note at the drop index; MovedPermutes and MovedAt give the rest |
| UseDrag.MovedPermutes | src/hooks/useDrag.ts:26-29 | the two splices keep the length and are a permutation |
| UseDrag.MovedAt | src/hooks/useDrag.ts:27-28 | the dragged note lands at the drop index; notes outside the two indices stay put; notes between them shift one place toward the drag index |
| UseDrag.MovedBack | src/hooks/useDrag.ts:27-28 | dropping the note back where it came from restores the collection |
| UseDrag.MovedFromSource | src/hooks/useDrag.ts:27-28 | every slot of the result holds the input element at a computed source index |
| UseDrag.MovedKeepsIdsDistinct | src/hooks/useDrag.ts:26-29 | a move keeps the ids distinct |
| UseDrag.MovedKeepsPinned | src/hooks/useDrag.ts:27-28 | with both indices past the pinned slot, the pinned note stays first |
| UseDrag.MoveInPlace | src/hooks/useDrag.ts:27-28 | the in-place shift on an array leaves it equal to the move of its old contents |
| UseDrag.Dropped | src/hooks/useDrag.ts:23-28 | a drop keeps the length and, past the guard, puts the dragged note at the drop index |
| UseDrag.Reorder | src/hooks/useDrag.ts:25-30 | the updater copies the collection and returns the moved copy |
| UseDrag.OnDrop | src/hooks/useDrag.ts:20-31 | a drop on the same index or on the pinned slot changes nothing; otherwise the stored collection becomes the move; distinct ids are kept |
| UseDrag.DropKeepsNotes | src/hooks/useDrag.ts:20-31 | a drop keeps the length, the multiset of notes and the distinct ids, and keeps the pinned note first unless the pinned note is dragged |
| UseSort.LabelCompareIsTotalPreorder | src/hooks/useSort.ts:24-37 | both comparators the effect checks with are consistent |
| UseSort.Revalidated | src/hooks/useSort.ts:39-42 | the effect either keeps the label or clears it, and keeps any label that names no sort |
| UseSort.RevalidatedKeepsOrClears | src/hooks/useSort.ts:39-42 | labels the app writes stay labels the app writes |
| UseSort.RevalidatedIdempotent | src/hooks/useSort.ts:23-43 | running the effect again on the same collection changes nothing |
| UseSort.LabelKeptIffSorted | src/hooks/useSort.ts:23-43 | a sort label survives if and only if everything after the pinned note is sorted in that label's order |
| UseSort.AlphSortKeepsLabel | src/hooks/useSort.ts:14-17 | the label a title sort records survives the effect on the collection it produced |
| UseSort.TimeSortKeepsLabel | src/hooks/useSort.ts:18-21 | the label a time sort records survives the effect on the collection it produced |
| UseSort.AddExposesPinned | src/hooks/useSort.ts:22-43 | after adding a note the label survives if and only if it held before and the old pinned note, now at index 1, is in order with the note after it |
| UseSort.DeletedStaysSorted | src/hooks/useNotes.ts:43-46 | removing notes from a sorted sequence leaves it sorted |
| UseSort.DeleteKeepsLabel | src/hooks/useSort.ts:23-43 | deleting any note but the pinned one keeps a label that held |
| UseSort.DeleteAllKeepsLabel | src/hooks/useSort.ts:23-43 | clearing down to the pinned note keeps every label |
| UseSort.SortController.constructor | src/hooks/useSort.ts:12 | a fresh "sort" entry holds the empty label |
| UseSort.SortController.SortAlph | src/hooks/useSort.ts:14-17 | the stored collection becomes the title sort, the label records the direction, the label passes its own check, and distinct ids are kept |
| UseSort.SortController.SortTime | src/hooks/useSort.ts:18-21 | the stored collection becomes the time sort, the label records the direction, the label passes its own check, and distinct ids are kept |
| UseSort.SortController.Revalidate | src/hooks/useSort.ts:23-43 | the label after the four guarded checks is the revalidated label; labels the app writes stay labels the app writes |
| AppScenarios.TestKeys | __tests__/appUtils.test.ts:11-40 | the test collection's titles run Alpha < Beta < Delta and its update times Beta < Delta < Alpha |
| AppScenarios.AlphaAscendingScenario | __tests__/appUtils.test.ts:43-49 | on any four notes whose keys are ordered as in the test collection, A to Z gives Pinned, Alpha, Beta, Delta |
| AppScenarios.AlphaDescendingScenario | __tests__/appUtils.test.ts:51-57 | on such notes, Z to A gives Pinned, Delta, Beta, Alpha |
| AppScenarios.TimeAscendingScenario | __tests__/appUtils.test.ts:61-67 | on such notes, oldest first gives Pinned, Beta, Delta, Alpha |
| AppScenarios.TimeDescendingScenario | __tests__/appUtils.test.ts:69-75 | on such notes, newest first gives Pinned, Alpha, Delta, Beta |
| AppScenarios.MockAlphaAscending | __tests__/appUtils.test.ts:43-49 | on the test collection itself, A to Z gives Pinned, Alpha, Beta, Delta |
| AppScenarios.MockAlphaDescending | __tests__/appUtils.test.ts:51-57 | on the test collection, Z to A gives Pinned, Delta, Beta, Alpha |
| AppScenarios.MockTimeAscending | __tests__/appUtils.test.ts:61-67 | on the test collection, oldest first gives Pinned, Beta, Delta, Alpha |
| AppScenarios.MockTimeDescending | __tests__/appUtils.test.ts:69-75 | on the test collection, newest first gives Pinned, Alpha, Delta, Beta |
| AppScenarios.CheckScenario | __tests__/appUtils.test.ts:84-100 | the unsorted collection fails both ascending checks and the sorted collections pass them |
| AppScenarios.WideLayoutScenario | __tests__/appUtils.test.ts:104-116 | width 1540 with cells of 400 gives (0, 0), (570, 0), (1140, 0), (0, 400) |
| AppScenarios.NarrowLayoutScenario | __tests__/appUtils.test.ts:118-129 | width 100 with cells of 100 stacks the notes at x = 0, y = 0, 100, 200, 300 |
| AppScenarios.TiedTitlesScenario | src/lib/appUtils.ts:3-9 | two notes with the same title keep their input order in both directions, so descending is not ascending reversed when titles tie |

## Left out

- Rendering, the toasts each command shows, and the React scheduling of the effect are not modelled. The effect is a method the caller runs after each change.
- Persistence is not modelled. The `notes` field of `NoteStore` and the label of `SortController` stand for the two stored entries. Cross-tab synchronisation is not modelled.
- The fresh id (`uuidv4`) and the clock (`new Date()`) are parameters.
- UseNotes.NoteStore.AddNote: requires the new id to be fresh, because uuid uniqueness is taken on trust.
- UseNotes.NoteStore.AddNote: requires a non-empty collection. On an empty one, reading `notes[0].colorIndex` throws.
- AppUtils.LexCompare: stands in for `localeCompare` and compares by character code. Locale collation (case, accents) is not modelled. Only the properties the sorts rely on are proved: a consistent order in which only equal strings tie.
- `updatedAt` is an integer instant. ISO-string parsing by `Date` is not modelled, and neither are unparsable dates, which give NaN differences.
- AppUtils.SortNotesAlpha, AppUtils.SortNotesByTime: require a non-empty collection. On an empty one the source returns `[undefined]`.
- The engine's sort algorithm is not modelled; an insertion sort stands in for it. Section 23.1.3.30 of ECMA-262 requires the sort to be stable. `StableSorting.SortedUnique` shows that every stable sort with a consistent comparator gives this same result.
- AppUtils.CalculatePositions: requires `cellWidth > 0`. A zero cell width makes the source's division give Infinity or NaN columns. A negative one gives a single column with no gap and rows going upward (y = row times cellWidth, at most 0); the model does not cover it. The width slider only offers 80 to 600 (src/components/Header.tsx:25-26), so neither case arises in the app.
- Widths are integers and x is an exact real, so floating-point rounding of the gap is not modelled.
- UseNotes.Patch: carries title, body and colour only. An edit that also overrides `id` or `updatedAt` through `Partial<NoteType>` is not modelled; the app never sends one, and `updatedAt` is overwritten anyway.
- UseDrag.OnDrop: requires both indices inside the collection, as they are when they come from rendered notes. The following are not modelled:
  - reading the drag index from the event's data transfer;
  - `parseInt` giving NaN;
  - the clamping and `undefined` entries that `splice` produces for indices outside the array.
- `onDragStart` and `onDragOver` only write to and cancel the browser event, so they are not modelled.
- AppUtils.AlphaDescendingIsReversed, AppUtils.TimeDescendingIsReversed: one might expect each descending sort to be the exact reverse of the ascending one. The code's stable sort keeps tied notes in input order in both directions, so the reversal holds only when no two keys tie. `AppScenarios.TiedTitlesScenario` shows the case where it fails.
- A label read back from storage may be any string. The effect leaves labels that name no sort as they are (`UseSort.Revalidated`).
