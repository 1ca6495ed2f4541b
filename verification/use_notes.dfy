/** The note collection commands (src/hooks/useNotes.ts). Each command builds a new collection
    from the stored one and stores it; the store is a class whose `notes` field stands for the
    persisted "notes" entry. The fresh id (`uuidv4`) and the clock (`new Date()`) are
    parameters. */
module UseNotes {
  import opened NoteModel

  /** The fields an edit may set (`Partial<NoteType>` as the app fills it). */
  datatype Patch = Patch(title: Option<string>, body: Option<string>, colorIndex: Option<int>)

  /** A note with no title and no body. */
  function BlankNote(id: Id, colorIndex: int, now: int): Note {
    Note(id, "", "", colorIndex, now)
  }

  /** The collection a new store starts with: the pinned compose note alone. */
  function InitialNotes(id: Id, now: int): (r: seq<Note>)
    ensures |r| == 1 && r[0].title == "" && r[0].body == "" && r[0].colorIndex == 0
    ensures IdsDistinct(r)
  {
    [BlankNote(id, 0, now)]
  }

  /** `addNote`: a blank note in the pinned note's colour goes in front of the collection. */
  function WithAdded(notes: seq<Note>, freshId: Id, now: int): (r: seq<Note>)
    requires |notes| > 0
    ensures |r| == |notes| + 1 && r[1..] == notes
    ensures r[0].id == freshId && r[0].title == "" && r[0].body == ""
    ensures r[0].colorIndex == notes[0].colorIndex && r[0].updatedAt == now
    ensures IdsDistinct(notes) && IdAbsent(notes, freshId) ==> IdsDistinct(r)
  {
    var r := [BlankNote(freshId, notes[0].colorIndex, now)] + notes;
    assert r[1..] == notes;
    r
  }

  /** `{ ...note, ...updates, updatedAt }` */
  function Merged(n: Note, p: Patch, now: int): (m: Note)
    ensures m.id == n.id && m.updatedAt == now
    ensures m.title == (if p.title.Some? then p.title.value else n.title)
    ensures m.body == (if p.body.Some? then p.body.value else n.body)
    ensures m.colorIndex == (if p.colorIndex.Some? then p.colorIndex.value else n.colorIndex)
  {
    n.(title := if p.title.Some? then p.title.value else n.title,
       body := if p.body.Some? then p.body.value else n.body,
       colorIndex := if p.colorIndex.Some? then p.colorIndex.value else n.colorIndex,
       updatedAt := now)
  }

  /** `updateNote`: every note with the id gets the patch and the current time. */
  function WithUpdated(notes: seq<Note>, id: Id, p: Patch, now: int): (r: seq<Note>)
    ensures |r| == |notes|
  {
    seq(|notes|, i requires 0 <= i < |notes| => if notes[i].id == id then Merged(notes[i], p, now) else notes[i])
  }

  /** `deleteNote`: the notes whose id differs, in their order. */
  function WithDeleted(notes: seq<Note>, id: Id): (r: seq<Note>)
    ensures |r| <= |notes| && IdAbsent(r, id)
  {
    if notes == [] then []
    else (if notes[0].id == id then [] else [notes[0]]) + WithDeleted(notes[1..], id)
  }

  /** `deleteAllNotes`: the notes at index 0, that is, the pinned note alone. */
  function WithPinnedOnly(notes: seq<Note>): (r: seq<Note>)
    ensures notes != [] ==> r == [notes[0]]
    ensures notes == [] ==> r == []
  {
    if notes == [] then [] else notes[..1]
  }

  // ---------------------------------------------------------------- properties

  /** An update keeps every note in place: same ids, same length; notes with another id are
      untouched, and the note with the id carries the patch and the new time. */
  lemma UpdateInPlace(notes: seq<Note>, id: Id, p: Patch, now: int)
    ensures var r := WithUpdated(notes, id, p, now);
      && |r| == |notes|
      && (forall i :: 0 <= i < |r| ==> r[i].id == notes[i].id)
      && (forall i :: 0 <= i < |r| && notes[i].id != id ==> r[i] == notes[i])
      && (forall i :: 0 <= i < |r| && notes[i].id == id ==> r[i] == Merged(notes[i], p, now))
  {
  }

  /** An update keeps the ids distinct. */
  lemma UpdateKeepsIdsDistinct(notes: seq<Note>, id: Id, p: Patch, now: int)
    requires IdsDistinct(notes)
    ensures IdsDistinct(WithUpdated(notes, id, p, now))
  {
    UpdateInPlace(notes, id, p, now);
  }

  /** Updating an id that no note carries changes nothing. */
  lemma UpdateAbsentIsIdentity(notes: seq<Note>, id: Id, p: Patch, now: int)
    requires IdAbsent(notes, id)
    ensures WithUpdated(notes, id, p, now) == notes
  {
  }

  /** After a delete no note carries the id, and the survivors are exactly the notes that
      carry another id. */
  lemma {:induction false} DeleteRemovesExactly(notes: seq<Note>, id: Id, n: Note)
    ensures IdAbsent(WithDeleted(notes, id), id)
    ensures n in WithDeleted(notes, id) <==> n in notes && n.id != id
    ensures |WithDeleted(notes, id)| <= |notes|
  {
    if notes != [] {
      DeleteRemovesExactly(notes[1..], id, n);
      assert notes == [notes[0]] + notes[1..];
    }
  }

  /** A delete keeps the survivors in their order: it is the identity on a collection without
      the id, and with distinct ids it cuts out the one note that carries it. */
  lemma {:induction false} DeleteCutsOne(notes: seq<Note>, id: Id, k: int)
    requires IdsDistinct(notes)
    requires 0 <= k < |notes| && notes[k].id == id
    ensures WithDeleted(notes, id) == notes[..k] + notes[k + 1..]
    ensures |WithDeleted(notes, id)| == |notes| - 1
  {
    if k == 0 {
      DeleteAbsentIsIdentity(notes[1..], id);
    } else {
      DeleteCutsOne(notes[1..], id, k - 1);
      assert notes[1..][..k - 1] == notes[1..k];
      assert notes[1..][k..] == notes[k + 1..];
      assert [notes[0]] + notes[1..k] == notes[..k];
    }
  }

  lemma {:induction false} DeleteAbsentIsIdentity(notes: seq<Note>, id: Id)
    requires IdAbsent(notes, id)
    ensures WithDeleted(notes, id) == notes
  {
    if notes != [] {
      DeleteAbsentIsIdentity(notes[1..], id);
      assert notes == [notes[0]] + notes[1..];
    }
  }

  /** A delete keeps the ids distinct. */
  lemma {:induction false} DeleteKeepsIdsDistinct(notes: seq<Note>, id: Id)
    requires IdsDistinct(notes)
    ensures IdsDistinct(WithDeleted(notes, id))
  {
    if notes != [] {
      DeleteKeepsIdsDistinct(notes[1..], id);
      var rest := WithDeleted(notes[1..], id);
      forall n | n in rest ensures n.id != notes[0].id {
        DeleteRemovesExactly(notes[1..], id, n);
      }
    }
  }

  /** Deleting any note but the pinned one leaves the pinned note first. */
  lemma DeleteKeepsPinned(notes: seq<Note>, id: Id)
    requires |notes| > 0 && notes[0].id != id
    ensures |WithDeleted(notes, id)| > 0 && WithDeleted(notes, id)[0] == notes[0]
  {
  }

  // ---------------------------------------------------------------- the store

  /** The stored collection and its commands. */
  class NoteStore {
    var notes: seq<Note>

    /** The invariant every command keeps: ids are distinct. */
    predicate Valid()
      reads this
    {
      IdsDistinct(notes)
    }

    /** A store with no saved collection starts with one blank pinned note. */
    constructor (id: Id, now: int)
      ensures notes == InitialNotes(id, now)
      ensures Valid()
    {
      notes := InitialNotes(id, now);
    }

    method AddNote(freshId: Id, now: int)
      requires |notes| > 0
      requires IdAbsent(notes, freshId)
      modifies this
      ensures notes == WithAdded(old(notes), freshId, now)
      ensures old(Valid()) ==> Valid()
    {
      notes := WithAdded(notes, freshId, now);
    }

    method UpdateNote(id: Id, p: Patch, now: int)
      modifies this
      ensures notes == WithUpdated(old(notes), id, p, now)
      ensures old(Valid()) ==> Valid()
    {
      if Valid() {
        UpdateKeepsIdsDistinct(notes, id, p, now);
      }
      notes := WithUpdated(notes, id, p, now);
    }

    method DeleteNote(id: Id)
      modifies this
      ensures notes == WithDeleted(old(notes), id)
      ensures old(Valid()) ==> Valid()
    {
      if Valid() {
        DeleteKeepsIdsDistinct(notes, id);
      }
      notes := WithDeleted(notes, id);
    }

    method DeleteAllNotes()
      modifies this
      ensures notes == WithPinnedOnly(old(notes))
      ensures Valid()
    {
      notes := WithPinnedOnly(notes);
    }
  }
}
