/** The note record shared by every hook of the app, and the invariants stated over a collection of notes. */
module NoteModel {

  /** A note identifier: a UUID string in the app, compared only for equality. */
  type Id = string

  /** A note. `updatedAt` is the instant of the last edit, as an integer timestamp
      (the app stores an ISO string and compares it through `getTime`). */
  datatype Note = Note(id: Id, title: string, body: string, colorIndex: int, updatedAt: int)

  datatype Option<T> = None | Some(value: T)

  /** No two notes of the collection share an id. */
  predicate IdsDistinct(s: seq<Note>) {
    forall i, j :: 0 <= i < j < |s| ==> s[i].id != s[j].id
  }

  /** Distinct ids make every note occur at most once. */
  lemma {:induction false} DistinctIdsOccurOnce(s: seq<Note>, x: Note)
    requires IdsDistinct(s)
    ensures multiset(s)[x] <= 1
  {
    if s != [] {
      var t := s[1..];
      assert s == [s[0]] + t;
      assert IdsDistinct(t) by {
        forall i, j | 0 <= i < j < |t| ensures t[i].id != t[j].id {
          assert t[i] == s[i + 1] && t[j] == s[j + 1];
        }
      }
      DistinctIdsOccurOnce(t, x);
      assert s[0] == x ==> x !in t by {
        forall i | 0 <= i < |t| ensures t[i].id != s[0].id {
          assert t[i] == s[i + 1];
        }
      }
    }
  }

  /** A note found at two indices occurs at least twice. */
  lemma RepeatOccursTwice(r: seq<Note>, i: int, j: int)
    requires 0 <= i < j < |r|
    ensures r[i] == r[j] ==> multiset(r)[r[i]] >= 2
  {
    var x := r[i];
    assert r == r[..j] + r[j..];
    assert x in r[..j];
    assert r[j..][0] == r[j];
  }

  /** Reordering a collection keeps its ids distinct. */
  lemma PermutationKeepsIdsDistinct(s: seq<Note>, r: seq<Note>)
    requires IdsDistinct(s) && multiset(r) == multiset(s)
    ensures IdsDistinct(r)
  {
    forall i, j | 0 <= i < j < |r| ensures r[i].id != r[j].id {
      var x, y := r[i], r[j];
      assert x in multiset(s) && y in multiset(s);
      var a :| 0 <= a < |s| && s[a] == x;
      var b :| 0 <= b < |s| && s[b] == y;
      DistinctIdsOccurOnce(s, x);
      RepeatOccursTwice(r, i, j);
      assert x.id == y.id ==> a == b;
    }
  }

  /** No note of the collection carries `id`. */
  predicate IdAbsent(s: seq<Note>, id: Id) {
    forall i :: 0 <= i < |s| ==> s[i].id != id
  }
}
