/** The orders Go's sort package is used with, and the canonical (strictly sorted) form of a set. */
module Ordering {
  ghost predicate TotalOrder<T(!new)>(le: (T, T) -> bool) {
    && (forall x :: le(x, x))
    && (forall x, y :: le(x, y) || le(y, x))
    && (forall x, y :: le(x, y) && le(y, x) ==> x == y)
    && (forall x, y, z :: le(x, y) && le(y, z) ==> le(x, z))
  }

  ghost predicate Sorted<T>(le: (T, T) -> bool, s: seq<T>) {
    forall i, j :: 0 <= i < j < |s| ==> le(s[i], s[j])
  }

  ghost predicate StrictlySorted<T>(le: (T, T) -> bool, s: seq<T>) {
    forall i, j :: 0 <= i < j < |s| ==> le(s[i], s[j]) && s[i] != s[j]
  }

  /** Inserts x in a sorted sequence. */
  function Insert<T>(le: (T, T) -> bool, x: T, s: seq<T>): seq<T> {
    if s == [] || le(x, s[0]) then [x] + s else [s[0]] + Insert(le, x, s[1..])
  }

  /** What sort.Strings and sort.Sort leave in the slice. */
  function Sort<T>(le: (T, T) -> bool, s: seq<T>): seq<T> {
    if s == [] then [] else Insert(le, s[0], Sort(le, s[1..]))
  }

  lemma {:induction false} InsertElements<T>(le: (T, T) -> bool, x: T, s: seq<T>)
    ensures multiset(Insert(le, x, s)) == multiset(s) + multiset{x}
  {
    if s != [] && !le(x, s[0]) {
      InsertElements(le, x, s[1..]);
      assert s == [s[0]] + s[1..];
    }
  }

  lemma {:induction false} InsertSorted<T(!new)>(le: (T, T) -> bool, x: T, s: seq<T>)
    requires TotalOrder(le) && Sorted(le, s)
    ensures Sorted(le, Insert(le, x, s))
  {
    if s != [] && !le(x, s[0]) {
      var t := Insert(le, x, s[1..]);
      InsertSorted(le, x, s[1..]);
      InsertElements(le, x, s[1..]);
      SameElements(t, s[1..] + [x]);
      forall y | y in t ensures le(s[0], y) {
        assert y == x || y in s[1..];
      }
    }
  }

  lemma {:induction false} SortSorts<T(!new)>(le: (T, T) -> bool, s: seq<T>)
    requires TotalOrder(le)
    ensures Sorted(le, Sort(le, s)) && multiset(Sort(le, s)) == multiset(s)
    ensures |Sort(le, s)| == |s| && forall x :: x in s <==> x in Sort(le, s)
  {
    if s != [] {
      SortSorts(le, s[1..]);
      InsertSorted(le, s[0], Sort(le, s[1..]));
      InsertElements(le, s[0], Sort(le, s[1..]));
      assert s == [s[0]] + s[1..];
    }
    SameElements(Sort(le, s), s);
  }

  lemma SameElements<T>(a: seq<T>, b: seq<T>)
    requires multiset(a) == multiset(b)
    ensures |a| == |b|
    ensures forall x :: x in a <==> x in b
  {
    assert forall x :: x in a <==> x in multiset(a);
    assert forall x :: x in b <==> x in multiset(b);
    assert |multiset(a)| == |multiset(b)|;
  }

  /** A set has only one strictly sorted listing. */
  lemma {:induction false} StrictlySortedIsUnique<T(!new)>(le: (T, T) -> bool, a: seq<T>, b: seq<T>)
    requires TotalOrder(le) && StrictlySorted(le, a) && StrictlySorted(le, b)
    requires forall x :: x in a <==> x in b
    ensures a == b
  {
    if a == [] {
      assert forall x :: x in b ==> x in a;
    } else {
      assert a[0] in b && b != [];
      assert b[0] in a;
      assert a[0] == b[0];
      forall x ensures x in a[1..] <==> x in b[1..] {
        assert x in a <==> x == a[0] || x in a[1..];
        assert x in b <==> x == b[0] || x in b[1..];
      }
      StrictlySortedIsUnique(le, a[1..], b[1..]);
      assert a == [a[0]] + a[1..] && b == [b[0]] + b[1..];
    }
  }

  /** The first of each run of equal elements. */
  function WithoutRepeats<T(==)>(s: seq<T>): (r: seq<T>)
    ensures s != [] ==> r != [] && r[|r| - 1] == s[|s| - 1]
  {
    var n := |s| - 1;
    if n <= 0 then s
    else if s[n] == s[n - 1] then WithoutRepeats(s[..n])
    else WithoutRepeats(s[..n]) + [s[n]]
  }

  lemma {:induction false} WithoutRepeatsIsStrict<T(!new)>(le: (T, T) -> bool, s: seq<T>)
    requires TotalOrder(le) && Sorted(le, s)
    ensures StrictlySorted(le, WithoutRepeats(s))
    ensures forall x :: x in WithoutRepeats(s) <==> x in s
  {
    var n := |s| - 1;
    if n > 0 {
      WithoutRepeatsIsStrict(le, s[..n]);
      assert s == s[..n] + [s[n]];
      var r := WithoutRepeats(s[..n]);
      if s[n] != s[n - 1] {
        forall k | 0 <= k < |r| ensures le(r[k], s[n]) && r[k] != s[n] {
          assert le(r[k], r[|r| - 1]) && r[|r| - 1] == s[n - 1];
        }
      }
    }
  }

  /** The in-place loop that keeps the first of each run of equal elements. */
  method DropRepeats<T(==)>(a: array<T>) returns (n: nat)
    requires a.Length > 0
    modifies a
    ensures n <= a.Length && a[..n] == WithoutRepeats(old(a[..]))
  {
    ghost var s := a[..];
    var j := 0;
    FirstIsKept(s, 1);
    assert a[..1] == s[..1];
    for i := 1 to a.Length
      invariant 0 <= j < i && a[j] == s[i - 1]
      invariant a[i..] == s[i..]
      invariant a[..j + 1] == WithoutRepeats(s[..i])
    {
      var x := a[i];
      assert x == a[i..][0] == s[i];
      assert s[..i + 1][..i] == s[..i];
      if x != a[j] {
        j := j + 1;
        a[j] := x;
      }
      assert a[i + 1..] == s[i..][1..];
    }
    assert s[..a.Length] == s;
    n := j + 1;
  }

  lemma FirstIsKept<T>(s: seq<T>, n: nat)
    requires n == 1 <= |s|
    ensures WithoutRepeats(s[..n]) == s[..n] == [s[0]]
  {
  }

  /** Go's string order: by code unit, a proper prefix first. */
  predicate StringLe(a: string, b: string) {
    a == [] || (b != [] && (a[0] < b[0] || (a[0] == b[0] && StringLe(a[1..], b[1..]))))
  }

  lemma {:induction false} StringLeIff(a: string, b: string)
    ensures StringLe(a, b) <==> a <= b || exists i: nat :: Differ(a, b, i) && a[i] < b[i]
  {
    if a != [] && b != [] && a[0] == b[0] {
      StringLeIff(a[1..], b[1..]);
      assert a == [a[0]] + a[1..] && b == [b[0]] + b[1..];
      forall i: nat | Differ(a[1..], b[1..], i) ensures Differ(a, b, i + 1) {
        assert a[..i + 1] == [a[0]] + a[1..][..i] && b[..i + 1] == [b[0]] + b[1..][..i];
      }
      forall i: nat | Differ(a, b, i + 1) ensures Differ(a[1..], b[1..], i) {
        assert a[1..][..i] == a[..i + 1][1..] && b[1..][..i] == b[..i + 1][1..];
      }
      if i: nat :| Differ(a, b, i) && a[i] < b[i] {
        assert i > 0 && Differ(a, b, (i - 1) + 1);
      }
    } else if a != [] && b != [] {
      assert Differ(a, b, 0);
      forall i: nat | Differ(a, b, i) ensures i == 0 {
        DifferOnce(a, b, i);
      }
    }
  }

  /** The first position at which two strings differ. */
  predicate Differ(a: string, b: string, i: nat) {
    i < |a| && i < |b| && a[..i] == b[..i] && a[i] != b[i]
  }

  lemma DifferOnce(a: string, b: string, i: nat)
    requires Differ(a, b, i)
    ensures i > 0 ==> a[0] == b[0]
  {
    if i > 0 {
      assert a[..i][0] == b[..i][0];
    }
  }

  lemma StringLeTotal(a: string, b: string)
    ensures StringLe(a, a)
    ensures StringLe(a, b) || StringLe(b, a)
    ensures StringLe(a, b) && StringLe(b, a) ==> a == b
  {
    if a != [] && b != [] {
      StringLeTotal(a[1..], b[1..]);
      assert a == [a[0]] + a[1..] && b == [b[0]] + b[1..];
    } else if a != [] {
      StringLeTotal(a[1..], b);
    }
  }

  lemma StringLeTransitive(a: string, b: string, c: string)
    requires StringLe(a, b) && StringLe(b, c)
    ensures StringLe(a, c)
  {
  }

  lemma StringOrder()
    ensures TotalOrder(StringLe)
  {
    forall x, y
      ensures StringLe(x, x) && (StringLe(x, y) || StringLe(y, x)) && (StringLe(x, y) && StringLe(y, x) ==> x == y)
    {
      StringLeTotal(x, y);
    }
    forall x, y, z | StringLe(x, y) && StringLe(y, z) ensures StringLe(x, z) {
      StringLeTransitive(x, y, z);
    }
  }
}
