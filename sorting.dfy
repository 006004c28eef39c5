/**
 * The contract of ECMAScript's Array.prototype.sort that the comment core relies on:
 * a stable sort driven by a comparator that answers negative, zero or positive.
 * It is written as an insertion sort over sequences; the engine's own algorithm is
 * not part of the repository, only the order it must produce.
 */
module Sorting {

  /** Inserts x behind every trailing element that does not compare greater than x. */
  function Insert<T>(s: seq<T>, x: T, cmp: (T, T) -> int): (r: seq<T>)
    ensures |r| == |s| + 1
    ensures multiset(r) == multiset(s) + multiset{x}
  {
    if s == [] then [x]
    else if cmp(s[|s| - 1], x) > 0 then
      assert s == s[..|s| - 1] + [s[|s| - 1]];
      Insert(s[..|s| - 1], x, cmp) + [s[|s| - 1]]
    else s + [x]
  }

  /** The order `a.sort(cmp)` leaves in `a`. */
  function StableSort<T>(s: seq<T>, cmp: (T, T) -> int): (r: seq<T>)
    ensures |r| == |s|
    ensures multiset(r) == multiset(s)
  {
    if s == [] then []
    else
      assert s == s[..|s| - 1] + [s[|s| - 1]];
      Insert(StableSort(s[..|s| - 1], cmp), s[|s| - 1], cmp)
  }

  /**
   * What ECMAScript calls a consistent comparator: the sign flips when the
   * arguments are swapped, and "not greater" is transitive.
   */
  ghost predicate IsConsistent<T(!new)>(cmp: (T, T) -> int) {
    && (forall a, b :: Flips(cmp, a, b))
    && (forall a, b, c :: Chains(cmp, a, b, c))
  }

  /** Swapping the arguments flips the sign. */
  ghost predicate Flips<T>(cmp: (T, T) -> int, a: T, b: T) {
    cmp(a, b) < 0 <==> cmp(b, a) > 0
  }

  /** "Not greater" carries over from a to b to c. */
  ghost predicate Chains<T>(cmp: (T, T) -> int, a: T, b: T, c: T) {
    cmp(a, b) <= 0 && cmp(b, c) <= 0 ==> cmp(a, c) <= 0
  }

  /** Only equal values compare as equal. */
  ghost predicate Discriminates<T(!new)>(cmp: (T, T) -> int) {
    forall a, b :: TiesAreEqual(cmp, a, b)
  }

  ghost predicate TiesAreEqual<T>(cmp: (T, T) -> int, a: T, b: T) {
    cmp(a, b) == 0 ==> a == b
  }

  ghost predicate SortedBy<T>(s: seq<T>, cmp: (T, T) -> int) {
    forall i, j :: 0 <= i < j < |s| ==> cmp(s[i], s[j]) <= 0
  }

  /** The elements of s that compare equal to p, in the order of s. */
  function Ties<T>(s: seq<T>, cmp: (T, T) -> int, p: T): seq<T> {
    if s == [] then []
    else Ties(s[..|s| - 1], cmp, p) + (if cmp(s[|s| - 1], p) == 0 then [s[|s| - 1]] else [])
  }

  /** No element of s compares greater than y. */
  ghost predicate AllBelow<T>(s: seq<T>, y: T, cmp: (T, T) -> int) {
    forall i :: 0 <= i < |s| ==> cmp(s[i], y) <= 0
  }

  lemma SortedPrefix<T>(s: seq<T>, n: nat, cmp: (T, T) -> int)
    requires SortedBy(s, cmp) && n <= |s|
    ensures SortedBy(s[..n], cmp)
  {
    var front := s[..n];
    forall i, j | 0 <= i < j < |front| ensures cmp(front[i], front[j]) <= 0 {
      assert front[i] == s[i] && front[j] == s[j];
    }
  }

  /** An element not less than the last one is inserted at the end. */
  lemma InsertAtEnd<T>(s: seq<T>, x: T, cmp: (T, T) -> int)
    requires s == [] || cmp(s[|s| - 1], x) <= 0
    ensures Insert(s, x, cmp) == s + [x]
  {
  }

  lemma SortedSnoc<T>(s: seq<T>, y: T, cmp: (T, T) -> int)
    requires SortedBy(s, cmp) && AllBelow(s, y, cmp)
    ensures SortedBy(s + [y], cmp)
  {
    var r := s + [y];
    forall i, j | 0 <= i < j < |r|
      ensures cmp(r[i], r[j]) <= 0
    {
      if j < |s| {
        assert r[i] == s[i] && r[j] == s[j];
      } else {
        assert r[i] == s[i] && r[j] == y;
      }
    }
  }

  /** Inserting an element not greater than y keeps every element not greater than y. */
  lemma {:induction false} InsertBelow<T>(s: seq<T>, x: T, y: T, cmp: (T, T) -> int)
    requires AllBelow(s, y, cmp) && cmp(x, y) <= 0
    ensures AllBelow(Insert(s, x, cmp), y, cmp)
    decreases |s|
  {
    if s != [] {
      var n := |s|;
      var last, front := s[n - 1], s[..n - 1];
      BelowSnoc(front, last, y, cmp);
      if cmp(last, x) > 0 {
        InsertBelow(front, x, y, cmp);
        BelowSnoc(Insert(front, x, cmp), last, y, cmp);
      } else {
        BelowSnoc(s, x, y, cmp);
      }
    }
  }

  lemma BelowSnoc<T>(s: seq<T>, z: T, y: T, cmp: (T, T) -> int)
    ensures AllBelow(s + [z], y, cmp) <==> AllBelow(s, y, cmp) && cmp(z, y) <= 0
  {
    if AllBelow(s, y, cmp) && cmp(z, y) <= 0 {
      forall i | 0 <= i < |s| + 1 ensures cmp((s + [z])[i], y) <= 0 {
        if i < |s| {
          assert (s + [z])[i] == s[i];
        }
      }
    }
    if AllBelow(s + [z], y, cmp) {
      forall i | 0 <= i < |s| ensures cmp(s[i], y) <= 0 {
        assert (s + [z])[i] == s[i];
      }
      assert (s + [z])[|s|] == z;
    }
  }


  lemma {:induction false} InsertSorted<T(!new)>(s: seq<T>, x: T, cmp: (T, T) -> int)
    requires IsConsistent(cmp) && SortedBy(s, cmp)
    ensures SortedBy(Insert(s, x, cmp), cmp)
    decreases |s|
  {
    if s == [] {
      assert Insert(s, x, cmp) == [x];
    } else {
      var n := |s|;
      var last, front := s[n - 1], s[..n - 1];
      SortedPrefix(s, n - 1, cmp);
      if cmp(last, x) > 0 {
        InsertSorted(front, x, cmp);
        FrontBelowLast(s, cmp);
        assert Flips(cmp, last, x);
        InsertBelow(front, x, last, cmp);
        SortedSnoc(Insert(front, x, cmp), last, cmp);
        assert Insert(s, x, cmp) == Insert(front, x, cmp) + [last];
      } else {
        AppendAfterLast(s, x, cmp);
        assert Insert(s, x, cmp) == s + [x];
      }
    }
  }

  /** In a sorted sequence every element before the last is not greater than the last. */
  lemma FrontBelowLast<T>(s: seq<T>, cmp: (T, T) -> int)
    requires SortedBy(s, cmp) && s != []
    ensures AllBelow(s[..|s| - 1], s[|s| - 1], cmp)
  {
    var front := s[..|s| - 1];
    forall i | 0 <= i < |front| ensures cmp(front[i], s[|s| - 1]) <= 0 {
      assert front[i] == s[i];
    }
  }

  /** A value not below the last element of a sorted sequence may be appended to it. */
  lemma AppendAfterLast<T(!new)>(s: seq<T>, x: T, cmp: (T, T) -> int)
    requires IsConsistent(cmp) && SortedBy(s, cmp) && s != [] && cmp(s[|s| - 1], x) <= 0
    ensures SortedBy(s + [x], cmp)
  {
    var n := |s|;
    forall i | 0 <= i < n ensures cmp(s[i], x) <= 0 {
      if i < n - 1 {
        assert cmp(s[i], s[n - 1]) <= 0;
        assert Chains(cmp, s[i], s[n - 1], x);
      }
    }
    SortedSnoc(s, x, cmp);
  }

  /** Under a consistent comparator the sort leaves its input ordered. */
  lemma {:induction false} StableSortSorted<T(!new)>(s: seq<T>, cmp: (T, T) -> int)
    requires IsConsistent(cmp)
    ensures SortedBy(StableSort(s, cmp), cmp)
    decreases |s|
  {
    if s != [] {
      StableSortSorted(s[..|s| - 1], cmp);
      InsertSorted(StableSort(s[..|s| - 1], cmp), s[|s| - 1], cmp);
    }
  }

  /** An element less than the last one is inserted in front of it. */
  lemma InsertBehind<T>(s: seq<T>, x: T, cmp: (T, T) -> int)
    requires s != [] && cmp(s[|s| - 1], x) > 0
    ensures Insert(s, x, cmp) == Insert(s[..|s| - 1], x, cmp) + [s[|s| - 1]]
  {
  }

  lemma TiesSnoc<T>(s: seq<T>, y: T, cmp: (T, T) -> int, p: T)
    ensures Ties(s + [y], cmp, p) == Ties(s, cmp, p) + (if cmp(y, p) == 0 then [y] else [])
  {
    assert (s + [y])[..|s|] == s;
  }

  /** Under a consistent comparator, two elements of which one compares greater do not both tie with p. */
  lemma NotBothTie<T(!new)>(cmp: (T, T) -> int, x: T, y: T, p: T)
    requires IsConsistent(cmp) && cmp(y, x) > 0
    ensures !(cmp(x, p) == 0 && cmp(y, p) == 0)
  {
    assert Flips(cmp, x, p) && Chains(cmp, y, p, x);
  }

  lemma OneSideEmpty<T>(a: seq<T>, b: seq<T>, c: seq<T>)
    requires b == [] || c == []
    ensures a + b + c == a + c + b
  {
    if b == [] {
      assert a + b == a && a + c + b == a + c;
    } else {
      assert a + c == a && a + b + c == a + b;
    }
  }

  /** Inserting x adds x, when it ties with p, behind the ties already there. */
  lemma {:induction false} InsertTies<T(!new)>(s: seq<T>, x: T, cmp: (T, T) -> int, p: T)
    requires IsConsistent(cmp)
    ensures Ties(Insert(s, x, cmp), cmp, p) == Ties(s, cmp, p) + (if cmp(x, p) == 0 then [x] else [])
    decreases |s|
  {
    if s == [] {
      assert Insert(s, x, cmp) == [] + [x];
      TiesSnoc([], x, cmp, p);
    } else {
      var last, front := s[|s| - 1], s[..|s| - 1];
      var tx := if cmp(x, p) == 0 then [x] else [];
      var tl := if cmp(last, p) == 0 then [last] else [];
      var a := Ties(front, cmp, p);
      assert Ties(s, cmp, p) == a + tl;
      if cmp(last, x) > 0 {
        var r := Insert(front, x, cmp);
        InsertTies(front, x, cmp, p);
        InsertBehind(s, x, cmp);
        TiesSnoc(r, last, cmp, p);
        NotBothTie(cmp, x, last, p);
        OneSideEmpty(a, tx, tl);
      } else {
        InsertAtEnd(s, x, cmp);
        TiesSnoc(s, x, cmp, p);
      }
    }
  }

  /** Stability: among elements that compare equal the input order survives the sort. */
  lemma {:induction false} StableSortKeepsTies<T(!new)>(s: seq<T>, cmp: (T, T) -> int, p: T)
    requires IsConsistent(cmp)
    ensures Ties(StableSort(s, cmp), cmp, p) == Ties(s, cmp, p)
    decreases |s|
  {
    if s != [] {
      var n := |s|;
      StableSortKeepsTies(s[..n - 1], cmp, p);
      StableSortSorted(s[..n - 1], cmp);
      InsertTies(StableSort(s[..n - 1], cmp), s[n - 1], cmp, p);
    }
  }

  /** Sorting an ordered sequence again changes nothing. */
  lemma {:induction false} StableSortOfSorted<T(!new)>(s: seq<T>, cmp: (T, T) -> int)
    requires SortedBy(s, cmp)
    ensures StableSort(s, cmp) == s
    decreases |s|
  {
    if s != [] {
      var front := s[..|s| - 1];
      SortedPrefix(s, |s| - 1, cmp);
      StableSortOfSorted(front, cmp);
      SortedEndsInOrder(s, cmp);
      InsertAtEnd(front, s[|s| - 1], cmp);
    }
  }

  /** The last element of an ordered sequence is not less than the one before, and the sequence is its front plus it. */
  lemma SortedEndsInOrder<T>(s: seq<T>, cmp: (T, T) -> int)
    requires SortedBy(s, cmp) && s != []
    ensures s[..|s| - 1] == [] || cmp(s[..|s| - 1][|s| - 2], s[|s| - 1]) <= 0
    ensures s[..|s| - 1] + [s[|s| - 1]] == s
  {
    if |s| > 1 {
      assert cmp(s[|s| - 2], s[|s| - 1]) <= 0;
    }
  }

  /** The first element of an ordered sequence is not greater than any element. */
  lemma HeadIsLeast<T(!new)>(x: seq<T>, v: T, cmp: (T, T) -> int)
    requires IsConsistent(cmp) && SortedBy(x, cmp)
    requires v in multiset(x)
    ensures cmp(x[0], v) <= 0
  {
    var i :| 0 <= i < |x| && x[i] == v;
    assert Flips(cmp, x[0], x[0]);
    if i > 0 {
      assert cmp(x[0], x[i]) <= 0;
    }
  }

  lemma TailsAgree<T>(x: seq<T>, y: seq<T>)
    requires x != [] && y != [] && x[0] == y[0] && multiset(x) == multiset(y)
    ensures multiset(x[1..]) == multiset(y[1..])
  {
    assert x == [x[0]] + x[1..] && y == [y[0]] + y[1..];
    assert multiset(x) == multiset{x[0]} + multiset(x[1..]);
    assert multiset(y) == multiset{y[0]} + multiset(y[1..]);
    assert multiset(x[1..]) == multiset(x) - multiset{x[0]};
    assert multiset(y[1..]) == multiset(y) - multiset{y[0]};
  }

  /** Two ordered arrangements of the same elements coincide when the comparator discriminates. */
  lemma {:induction false} SortedArrangementUnique<T(!new)>(x: seq<T>, y: seq<T>, cmp: (T, T) -> int)
    requires IsConsistent(cmp) && Discriminates(cmp)
    requires SortedBy(x, cmp) && SortedBy(y, cmp)
    requires multiset(x) == multiset(y)
    ensures x == y
    decreases |x|
  {
    if x == [] {
      assert |multiset(y)| == 0;
    } else {
      assert |y| == |multiset(y)| == |multiset(x)| == |x|;
      HeadIsLeast(x, y[0], cmp);
      HeadIsLeast(y, x[0], cmp);
      assert Flips(cmp, x[0], y[0]) && TiesAreEqual(cmp, x[0], y[0]);
      assert x[0] == y[0];
      TailsAgree(x, y);
      assert SortedBy(x[1..], cmp) && SortedBy(y[1..], cmp);
      SortedArrangementUnique(x[1..], y[1..], cmp);
      assert x == [x[0]] + x[1..] && y == [y[0]] + y[1..];
    }
  }

  /** `a.sort(cmp)`: the array is reordered in place. */
  method SortInPlace<T>(a: array<T>, cmp: (T, T) -> int)
    modifies a
    ensures a[..] == StableSort(old(a[..]), cmp)
  {
    var sorted := StableSort(a[..], cmp);
    forall i | 0 <= i < a.Length {
      a[i] := sorted[i];
    }
    assert forall i :: 0 <= i < a.Length ==> a[..][i] == sorted[i];
  }
}
