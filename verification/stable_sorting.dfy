/** `Array.prototype.sort` with a comparator, as the sorts of the app use it: a stable sort
    (section 23.1.3.30 of ECMA-262). It is written as an insertion sort; the lemmas show that
    for every consistent comparator its result is sorted, a permutation of the input, keeps
    the input order of equivalent elements, and is the only sequence with those properties. */
module StableSorting {
  import opened NoteModel

  /** A JavaScript comparator: negative, zero or positive. */
  type Comparator = (Note, Note) -> int

  /** A consistent comparator: its sign is antisymmetric and "not after" is transitive,
      so that "cmp(a, b) <= 0" is a total preorder. */
  ghost predicate IsTotalPreorder(cmp: Comparator) {
    && (forall a, b :: cmp(a, b) <= 0 <==> cmp(b, a) >= 0)
    && (forall a, b, c :: cmp(a, b) <= 0 && cmp(b, c) <= 0 ==> cmp(a, c) <= 0)
  }

  /** The comparator with its arguments swapped: `(a, b) => cmp(b, a)`. */
  function Flipped(cmp: Comparator): Comparator {
    (a: Note, b: Note) => cmp(b, a)
  }

  /** The comparator a sort uses for the given direction. */
  function Directed(cmp: Comparator, ascending: bool): Comparator {
    if ascending then cmp else Flipped(cmp)
  }

  /** Every adjacent pair is in order. */
  predicate Sorted(s: seq<Note>, cmp: Comparator) {
    forall i :: 0 < i < |s| ==> cmp(s[i - 1], s[i]) <= 0
  }

  /** Puts `x` in front of the first element it does not come after. */
  function Insert(x: Note, t: seq<Note>, cmp: Comparator): (r: seq<Note>)
    ensures |r| == |t| + 1
  {
    if t == [] || cmp(x, t[0]) <= 0 then [x] + t
    else [t[0]] + Insert(x, t[1..], cmp)
  }

  /** The stable sort of `s` under `cmp`. */
  function Sort(s: seq<Note>, cmp: Comparator): (r: seq<Note>)
    ensures |r| == |s|
  {
    if s == [] then [] else Insert(s[0], Sort(s[1..], cmp), cmp)
  }

  /** The elements of `s` equivalent to `k`, in their order in `s`. A sort is stable when it
      leaves every such subsequence as it was. */
  function Class(s: seq<Note>, cmp: Comparator, k: Note): seq<Note> {
    if s == [] then []
    else (if cmp(s[0], k) == 0 then [s[0]] else []) + Class(s[1..], cmp, k)
  }

  /** Both directions of a consistent comparator are consistent. */
  lemma DirectedIsTotalPreorder(cmp: Comparator, ascending: bool)
    requires IsTotalPreorder(cmp)
    ensures IsTotalPreorder(Directed(cmp, ascending))
  {
    if !ascending {
      var f := Flipped(cmp);
      forall a, b ensures f(a, b) <= 0 <==> f(b, a) >= 0 {
        assert f(a, b) == cmp(b, a) && f(b, a) == cmp(a, b);
      }
      forall a, b, c | f(a, b) <= 0 && f(b, c) <= 0 ensures f(a, c) <= 0 {
        assert cmp(c, b) <= 0 && cmp(b, a) <= 0;
      }
    }
  }

  lemma {:induction false} ClassAppend(a: seq<Note>, b: seq<Note>, cmp: Comparator, k: Note)
    ensures Class(a + b, cmp, k) == Class(a, cmp, k) + Class(b, cmp, k)
  {
    if a == [] {
      assert a + b == b;
    } else {
      assert (a + b)[1..] == a[1..] + b;
      ClassAppend(a[1..], b, cmp, k);
    }
  }

  /** `Class` holds exactly the elements of `s` equivalent to `k`. */
  lemma {:induction false} ClassMember(s: seq<Note>, cmp: Comparator, k: Note, e: Note)
    ensures e in Class(s, cmp, k) <==> e in s && cmp(e, k) == 0
  {
    if s != [] {
      ClassMember(s[1..], cmp, k, e);
      assert s == [s[0]] + s[1..];
    }
  }

  lemma {:induction false} InsertPermutes(x: Note, t: seq<Note>, cmp: Comparator)
    ensures |Insert(x, t, cmp)| == |t| + 1
    ensures multiset(Insert(x, t, cmp)) == multiset(t) + multiset{x}
  {
    if t != [] && cmp(x, t[0]) > 0 {
      InsertPermutes(x, t[1..], cmp);
      assert t == [t[0]] + t[1..];
    }
  }

  /** The sort returns a permutation of its input. */
  lemma {:induction false} SortPermutes(s: seq<Note>, cmp: Comparator)
    ensures |Sort(s, cmp)| == |s|
    ensures multiset(Sort(s, cmp)) == multiset(s)
  {
    if s != [] {
      SortPermutes(s[1..], cmp);
      InsertPermutes(s[0], Sort(s[1..], cmp), cmp);
      assert s == [s[0]] + s[1..];
    }
  }

  lemma {:induction false} InsertSorted(x: Note, t: seq<Note>, cmp: Comparator)
    requires IsTotalPreorder(cmp)
    requires Sorted(t, cmp)
    ensures Sorted(Insert(x, t, cmp), cmp)
  {
    if t != [] && cmp(x, t[0]) > 0 {
      var u := Insert(x, t[1..], cmp);
      InsertSorted(x, t[1..], cmp);
      InsertPermutes(x, t[1..], cmp);
      assert u[0] == x || u[0] == t[1];
      assert cmp(t[0], u[0]) <= 0;
      var r := [t[0]] + u;
      forall i | 0 < i < |r| ensures cmp(r[i - 1], r[i]) <= 0 {
        if i > 1 {
          assert r[i - 1] == u[i - 2] && r[i] == u[i - 1];
        }
      }
    } else if t != [] {
      var r := [x] + t;
      forall i | 0 < i < |r| ensures cmp(r[i - 1], r[i]) <= 0 {
        if i > 1 {
          assert r[i - 1] == t[i - 2] && r[i] == t[i - 1];
        }
      }
    }
  }

  /** The sort returns a sorted sequence. */
  lemma {:induction false} SortSorted(s: seq<Note>, cmp: Comparator)
    requires IsTotalPreorder(cmp)
    ensures Sorted(Sort(s, cmp), cmp)
  {
    if s != [] {
      SortSorted(s[1..], cmp);
      InsertSorted(s[0], Sort(s[1..], cmp), cmp);
    }
  }

  lemma {:induction false} InsertClass(x: Note, t: seq<Note>, cmp: Comparator, k: Note)
    requires IsTotalPreorder(cmp)
    requires Sorted(t, cmp)
    ensures Class(Insert(x, t, cmp), cmp, k) == Class([x], cmp, k) + Class(t, cmp, k)
  {
    if t == [] || cmp(x, t[0]) <= 0 {
      ClassAppend([x], t, cmp, k);
    } else {
      var t0 := [t[0]];
      assert t == t0 + t[1..];
      assert Sorted(t[1..], cmp) by {
        forall i | 0 < i < |t[1..]| ensures cmp(t[1..][i - 1], t[1..][i]) <= 0 {
          assert t[1..][i - 1] == t[i] && t[1..][i] == t[i + 1];
        }
      }
      InsertClass(x, t[1..], cmp, k);
      ClassAppend(t0, Insert(x, t[1..], cmp), cmp, k);
      ClassAppend(t0, t[1..], cmp, k);
      assert cmp(x, k) == 0 ==> cmp(t[0], k) != 0;
    }
  }

  /** The sort is stable: the elements equivalent to any `k` keep their input order. */
  lemma {:induction false} SortStable(s: seq<Note>, cmp: Comparator, k: Note)
    requires IsTotalPreorder(cmp)
    ensures Class(Sort(s, cmp), cmp, k) == Class(s, cmp, k)
  {
    if s != [] {
      SortStable(s[1..], cmp, k);
      SortSorted(s[1..], cmp);
      InsertClass(s[0], Sort(s[1..], cmp), cmp, k);
      assert s == [s[0]] + s[1..];
      ClassAppend([s[0]], s[1..], cmp, k);
    }
  }

  /** In a sorted sequence no element comes after a later one. */
  lemma {:induction false} SortedPair(s: seq<Note>, cmp: Comparator, i: nat, j: nat)
    requires IsTotalPreorder(cmp)
    requires Sorted(s, cmp)
    requires i <= j < |s|
    ensures cmp(s[i], s[j]) <= 0
    decreases j
  {
    if i < j {
      SortedPair(s, cmp, i, j - 1);
      assert cmp(s[j - 1], s[j]) <= 0;
    }
  }

  lemma HeadIsLeast(s: seq<Note>, cmp: Comparator, e: Note)
    requires IsTotalPreorder(cmp)
    requires Sorted(s, cmp)
    requires e in s
    ensures cmp(s[0], e) <= 0
  {
    var j :| 0 <= j < |s| && s[j] == e;
    SortedPair(s, cmp, 0, j);
  }

  /** Equal classes for every key: the two sequences are empty together. */
  lemma ClassesDetectEmpty(r1: seq<Note>, r2: seq<Note>, cmp: Comparator)
    requires IsTotalPreorder(cmp)
    requires forall k :: Class(r1, cmp, k) == Class(r2, cmp, k)
    ensures r1 == [] <==> r2 == []
  {
    if r1 != [] {
      assert Class(r1, cmp, r1[0]) != [];
    }
    if r2 != [] {
      assert Class(r2, cmp, r2[0]) != [];
    }
  }

  /** Two sorted sequences with the same elements in every equivalence class, in the same
      order, are equal: a stable sort has only one possible result. */
  lemma {:induction false} SortedUnique(r1: seq<Note>, r2: seq<Note>, cmp: Comparator)
    requires IsTotalPreorder(cmp)
    requires Sorted(r1, cmp) && Sorted(r2, cmp)
    requires forall k :: Class(r1, cmp, k) == Class(r2, cmp, k)
    ensures r1 == r2
    decreases |r1|
  {
    ClassesDetectEmpty(r1, r2, cmp);
    if r1 != [] {
      var a, b := r1[0], r2[0];
      assert b in Class(r1, cmp, b) by {
        assert Class(r2, cmp, b)[0] == b;
        ClassMember(r1, cmp, b, b);
      }
      ClassMember(r1, cmp, b, b);
      HeadIsLeast(r1, cmp, b);
      assert a in Class(r2, cmp, a) by {
        assert Class(r1, cmp, a)[0] == a;
        ClassMember(r2, cmp, a, a);
      }
      ClassMember(r2, cmp, a, a);
      HeadIsLeast(r2, cmp, a);
      assert cmp(b, a) == 0;
      assert Class(r1, cmp, a)[0] == a;
      assert Class(r2, cmp, a)[0] == b;
      forall k ensures Class(r1[1..], cmp, k) == Class(r2[1..], cmp, k) {
        var head := Class([a], cmp, k);
        assert r1 == [a] + r1[1..] && r2 == [a] + r2[1..];
        ClassAppend([a], r1[1..], cmp, k);
        ClassAppend([a], r2[1..], cmp, k);
        assert Class(r1[1..], cmp, k) == Class(r1, cmp, k)[|head|..];
        assert Class(r2[1..], cmp, k) == Class(r2, cmp, k)[|head|..];
      }
      assert Sorted(r1[1..], cmp) by {
        forall i | 0 < i < |r1[1..]| ensures cmp(r1[1..][i - 1], r1[1..][i]) <= 0 {
          assert r1[1..][i - 1] == r1[i] && r1[1..][i] == r1[i + 1];
        }
      }
      assert Sorted(r2[1..], cmp) by {
        forall i | 0 < i < |r2[1..]| ensures cmp(r2[1..][i - 1], r2[1..][i]) <= 0 {
          assert r2[1..][i - 1] == r2[i] && r2[1..][i] == r2[i + 1];
        }
      }
      SortedUnique(r1[1..], r2[1..], cmp);
      assert r1 == [a] + r1[1..] && r2 == [b] + r2[1..];
    }
  }

  /** The sort of `s` is exactly the sorted sequence that keeps every equivalence class of
      `s` in its input order. */
  lemma SortCharacterized(s: seq<Note>, r: seq<Note>, cmp: Comparator)
    requires IsTotalPreorder(cmp)
    ensures r == Sort(s, cmp) ==> Sorted(r, cmp) && forall k :: Class(r, cmp, k) == Class(s, cmp, k)
    ensures Sorted(r, cmp) && (forall k :: Class(r, cmp, k) == Class(s, cmp, k)) ==> r == Sort(s, cmp)
  {
    var t := Sort(s, cmp);
    SortSorted(s, cmp);
    forall k ensures Class(t, cmp, k) == Class(s, cmp, k) {
      SortStable(s, cmp, k);
    }
    if Sorted(r, cmp) && forall k :: Class(r, cmp, k) == Class(s, cmp, k) {
      forall k ensures Class(r, cmp, k) == Class(t, cmp, k) {
        assert Class(r, cmp, k) == Class(s, cmp, k);
      }
      SortedUnique(r, t, cmp);
    }
  }

  /** Sorting leaves a sequence unchanged exactly when it is already sorted. */
  lemma SortFixesSorted(t: seq<Note>, cmp: Comparator)
    requires IsTotalPreorder(cmp)
    ensures Sort(t, cmp) == t <==> Sorted(t, cmp)
  {
    SortCharacterized(t, t, cmp);
  }

  /** Sorting twice is sorting once. */
  lemma SortIdempotent(s: seq<Note>, cmp: Comparator)
    requires IsTotalPreorder(cmp)
    ensures Sort(Sort(s, cmp), cmp) == Sort(s, cmp)
  {
    SortSorted(s, cmp);
    SortFixesSorted(Sort(s, cmp), cmp);
  }

  // ---------------------------------------------------------------- the two directions

  /** `s` back to front. */
  function Reversed(s: seq<Note>): (r: seq<Note>)
    ensures |r| == |s|
  {
    if s == [] then [] else Reversed(s[1..]) + [s[0]]
  }

  lemma {:induction false} ReversedAt(s: seq<Note>, i: int)
    requires 0 <= i < |s|
    ensures Reversed(s)[i] == s[|s| - 1 - i]
  {
    if i < |s| - 1 {
      ReversedAt(s[1..], i);
    }
  }

  /** No two positions hold equivalent elements. */
  predicate KeysDistinct(s: seq<Note>, cmp: Comparator) {
    forall i, j :: 0 <= i < j < |s| ==> cmp(s[i], s[j]) != 0
  }

  /** Read back to front, a sorted sequence is sorted the other way round. */
  lemma ReversedSortedFlipped(s: seq<Note>, cmp: Comparator)
    requires Sorted(s, cmp)
    ensures Sorted(Reversed(s), Flipped(cmp))
  {
    var r := Reversed(s);
    forall i | 0 < i < |r| ensures Flipped(cmp)(r[i - 1], r[i]) <= 0 {
      ReversedAt(s, i - 1);
      ReversedAt(s, i);
      assert cmp(s[|s| - 1 - i], s[|s| - i]) <= 0;
    }
  }

  /** Flipping a consistent comparator does not change which elements are equivalent. */
  lemma {:induction false} ClassFlipped(s: seq<Note>, cmp: Comparator, k: Note)
    requires IsTotalPreorder(cmp)
    ensures Class(s, Flipped(cmp), k) == Class(s, cmp, k)
  {
    if s != [] {
      ClassFlipped(s[1..], cmp, k);
      assert Flipped(cmp)(s[0], k) == cmp(k, s[0]);
      assert cmp(k, s[0]) == 0 <==> cmp(s[0], k) == 0;
    }
  }

  lemma {:induction false} ClassReversed(s: seq<Note>, cmp: Comparator, k: Note)
    ensures Class(Reversed(s), cmp, k) == Reversed(Class(s, cmp, k))
  {
    if s != [] {
      ClassReversed(s[1..], cmp, k);
      ClassAppend(Reversed(s[1..]), [s[0]], cmp, k);
      var c := Class(s[1..], cmp, k);
      if cmp(s[0], k) == 0 {
        assert Class(s, cmp, k) == [s[0]] + c;
        assert ([s[0]] + c)[1..] == c;
      } else {
        assert Class(s, cmp, k) == c;
        assert Class([s[0]], cmp, k) == [];
      }
    }
  }

  /** Without ties every class holds at most one element. */
  lemma {:induction false} ClassAtMostOne(s: seq<Note>, cmp: Comparator, k: Note)
    requires IsTotalPreorder(cmp)
    requires KeysDistinct(s, cmp)
    ensures |Class(s, cmp, k)| <= 1
  {
    if s != [] {
      var t := s[1..];
      assert KeysDistinct(t, cmp) by {
        forall i, j | 0 <= i < j < |t| ensures cmp(t[i], t[j]) != 0 {
          assert t[i] == s[i + 1] && t[j] == s[j + 1];
        }
      }
      ClassAtMostOne(t, cmp, k);
      if cmp(s[0], k) == 0 {
        forall e | e in t ensures e !in Class(t, cmp, k) {
          var j :| 0 <= j < |t| && t[j] == e;
          var h := s[0];
          assert cmp(h, s[j + 1]) != 0;
          assert cmp(e, k) == 0 ==> cmp(k, e) <= 0 && cmp(e, k) <= 0 && cmp(h, e) <= 0 && cmp(e, h) <= 0;
          ClassMember(t, cmp, k, e);
        }
        if Class(t, cmp, k) != [] {
          ClassMember(t, cmp, k, Class(t, cmp, k)[0]);
        }
      }
    }
  }

  /** Without ties, the ascending sort read back to front keeps every class of the input
      under the swapped comparator. */
  lemma ReversedSortKeepsClass(s: seq<Note>, cmp: Comparator, k: Note)
    requires IsTotalPreorder(cmp)
    requires KeysDistinct(s, cmp)
    ensures Class(Reversed(Sort(s, cmp)), Flipped(cmp), k) == Class(s, Flipped(cmp), k)
  {
    var t := Sort(s, cmp);
    ClassFlipped(Reversed(t), cmp, k);
    ClassReversed(t, cmp, k);
    SortStable(s, cmp, k);
    ClassAtMostOne(s, cmp, k);
    var c := Class(s, cmp, k);
    assert Reversed(c) == c by {
      if c != [] {
        assert c[1..] == [];
      }
    }
    ClassFlipped(s, cmp, k);
  }

  /** Without ties, sorting with the flipped comparator gives the sort read back to front. */
  lemma FlippedSortIsReversed(s: seq<Note>, cmp: Comparator)
    requires IsTotalPreorder(cmp)
    requires KeysDistinct(s, cmp)
    ensures Sort(s, Flipped(cmp)) == Reversed(Sort(s, cmp))
  {
    var f := Flipped(cmp);
    var t := Sort(s, cmp);
    var r := Reversed(t);
    DirectedIsTotalPreorder(cmp, false);
    SortSorted(s, cmp);
    ReversedSortedFlipped(t, cmp);
    forall k ensures Class(r, f, k) == Class(s, f, k) {
      ReversedSortKeepsClass(s, cmp, k);
    }
    SortCharacterized(s, r, f);
  }
}
