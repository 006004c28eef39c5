/**
 * The helpers of src/common/util.ts that the comment core uses: the nil test,
 * the blank-string test and the array comparison, over string elements.
 */
module Util {
  import opened Sorting

  /** A JavaScript value that may be undefined or null; both are None here. */
  datatype Option<+T> = None | Some(value: T)

  /** isNil: the value is undefined or null. */
  predicate IsNil<T>(v: Option<T>) {
    v.None?
  }

  /**
   * The characters String.prototype.trim removes: ECMAScript's WhiteSpace
   * (tab, vertical tab, form feed, space, no-break space, byte order mark and
   * the space separators) and LineTerminator (line feed, carriage return,
   * line and paragraph separators).
   */
  predicate IsTrimmed(ch: char) {
    || ch == '\U{9}' || ch == '\U{B}' || ch == '\U{C}' || ch == ' '
    || ch == '\U{A0}' || ch == '\U{FEFF}'
    || ch == '\U{1680}' || ('\U{2000}' <= ch <= '\U{200A}') || ch == '\U{202F}'
    || ch == '\U{205F}' || ch == '\U{3000}'
    || ch == '\U{A}' || ch == '\U{D}' || ch == '\U{2028}' || ch == '\U{2029}'
  }

  predicate AllTrimmed(s: string) {
    forall i :: 0 <= i < |s| ==> IsTrimmed(s[i])
  }

  function TrimStart(s: string): string {
    if s != [] && IsTrimmed(s[0]) then TrimStart(s[1..]) else s
  }

  function TrimEnd(s: string): string {
    if s != [] && IsTrimmed(s[|s| - 1]) then TrimEnd(s[..|s| - 1]) else s
  }

  /** String.prototype.trim. */
  function Trim(s: string): string {
    TrimEnd(TrimStart(s))
  }

  /** isStringEmpty: nil, or nothing left once trimmed. */
  predicate IsStringEmpty(value: Option<string>) {
    IsNil(value) || |Trim(value.value)| == 0
  }

  lemma {:induction false} TrimStartEmpty(s: string)
    ensures TrimStart(s) == [] <==> AllTrimmed(s)
    ensures TrimStart(s) != [] ==> !IsTrimmed(TrimStart(s)[0])
    decreases |s|
  {
    if s != [] && IsTrimmed(s[0]) {
      TrimStartEmpty(s[1..]);
      assert AllTrimmed(s) <==> AllTrimmed(s[1..]) by {
        if AllTrimmed(s[1..]) {
          forall i | 0 <= i < |s| ensures IsTrimmed(s[i]) {
            if i > 0 { assert s[i] == s[1..][i - 1]; }
          }
        }
      }
    }
  }

  lemma {:induction false} TrimEndKeepsFirst(s: string)
    requires s != [] && !IsTrimmed(s[0])
    ensures TrimEnd(s) != [] && TrimEnd(s)[0] == s[0]
    decreases |s|
  {
    if IsTrimmed(s[|s| - 1]) {
      TrimEndKeepsFirst(s[..|s| - 1]);
    }
  }

  /** isStringEmpty holds exactly for nil and for strings made only of trimmed characters. */
  lemma StringEmptyIffBlank(value: Option<string>)
    ensures IsStringEmpty(value) <==> value.None? || AllTrimmed(value.value)
  {
    if value.Some? {
      TrimStartEmpty(value.value);
      var t := TrimStart(value.value);
      if t != [] {
        TrimEndKeepsFirst(t);
      }
    }
  }

  /**
   * The order of the default `sort()` on strings: lexicographic by character
   * (ECMAScript compares UTF-16 code units; characters here are code points).
   */
  function CompareChars(a: string, b: string): (r: int)
    ensures -1 <= r <= 1
  {
    if a == [] && b == [] then 0
    else if a == [] then -1
    else if b == [] then 1
    else if a[0] < b[0] then -1
    else if a[0] > b[0] then 1
    else CompareChars(a[1..], b[1..])
  }

  lemma {:induction false} CompareCharsFlips(a: string, b: string)
    ensures CompareChars(a, b) == -CompareChars(b, a)
    ensures CompareChars(a, b) == 0 ==> a == b
    decreases |a|
  {
    if a != [] && b != [] && a[0] == b[0] {
      CompareCharsFlips(a[1..], b[1..]);
      if CompareChars(a, b) == 0 {
        assert a == [a[0]] + a[1..] && b == [b[0]] + b[1..];
      }
    }
  }

  lemma {:induction false} CompareCharsChains(a: string, b: string, c: string)
    ensures CompareChars(a, b) <= 0 && CompareChars(b, c) <= 0 ==> CompareChars(a, c) <= 0
    decreases |a|
  {
    if a != [] && b != [] && c != [] && a[0] == b[0] == c[0] {
      CompareCharsChains(a[1..], b[1..], c[1..]);
    }
  }

  /** The default string order is a consistent comparator that tells different strings apart. */
  lemma CompareCharsIsTotalOrder()
    ensures IsConsistent(CompareChars)
    ensures Discriminates(CompareChars)
  {
    forall a: string, b: string ensures Flips(CompareChars, a, b) && TiesAreEqual(CompareChars, a, b) {
      CompareCharsFlips(a, b);
    }
    forall a: string, b: string, c: string ensures Chains(CompareChars, a, b, c) {
      CompareCharsChains(a, b, c);
    }
  }

  /** What areArraysEqual decides: equal lengths and equal arrays once both are sorted. */
  predicate SameAfterSort(first: seq<string>, second: seq<string>) {
    |first| == |second| && StableSort(first, CompareChars) == StableSort(second, CompareChars)
  }

  /** On string elements, areArraysEqual compares its arguments as multisets. */
  lemma SameAfterSortIffSameElements(first: seq<string>, second: seq<string>)
    ensures SameAfterSort(first, second) <==> multiset(first) == multiset(second)
    ensures SameAfterSort(first, second) == SameAfterSort(second, first)
  {
    if multiset(first) == multiset(second) {
      CompareCharsIsTotalOrder();
      StableSortSorted(first, CompareChars);
      StableSortSorted(second, CompareChars);
      assert |first| == |multiset(first)| == |multiset(second)| == |second|;
      SortedArrangementUnique(StableSort(first, CompareChars), StableSort(second, CompareChars), CompareChars);
    }
  }

  /** Sorting a sorted array again leaves it as it is. */
  lemma SortingTwiceChangesNothing(s: seq<string>)
    ensures StableSort(StableSort(s, CompareChars), CompareChars) == StableSort(s, CompareChars)
  {
    CompareCharsIsTotalOrder();
    StableSortSorted(s, CompareChars);
    StableSortOfSorted(StableSort(s, CompareChars), CompareChars);
  }

  /**
   * areArraysEqual: false at once when the lengths differ; otherwise both
   * arrays are sorted in place and then compared slot by slot.
   */
  method AreArraysEqual(first: array<string>, second: array<string>) returns (equal: bool)
    modifies first, second
    ensures equal == SameAfterSort(old(first[..]), old(second[..]))
    ensures first.Length != second.Length ==> first[..] == old(first[..]) && second[..] == old(second[..])
    ensures first.Length == second.Length ==>
      && first[..] == StableSort(old(first[..]), CompareChars)
      && second[..] == StableSort(old(second[..]), CompareChars)
  {
    if first.Length != second.Length {
      return false;
    }
    ghost var sortedFirst := StableSort(first[..], CompareChars);
    ghost var sortedSecond := StableSort(second[..], CompareChars);
    SortInPlace(first, CompareChars);
    SortInPlace(second, CompareChars);
    if first == second {
      // the same array sorted twice: the second sort finds it ordered already
      SortingTwiceChangesNothing(old(first[..]));
    }
    equal := SameSlots(first, second);
    assert sortedFirst == first[..] && sortedSecond == second[..];
  }

  /** The index loop of areArraysEqual: whether the two arrays agree slot by slot. */
  method SameSlots(first: array<string>, second: array<string>) returns (equal: bool)
    requires first.Length == second.Length
    ensures equal <==> first[..] == second[..]
  {
    for i := 0 to first.Length
      invariant forall k :: 0 <= k < i ==> first[k] == second[k]
    {
      if first[i] != second[i] {
        assert first[..][i] != second[..][i];
        return false;
      }
    }
    assert first[..] == second[..];
    return true;
  }
}
