/** Sorting by a pair of strings, as sort.Slice does, and why the result is unique for distinct keys. */
module KeyOrder {

  type Key = (string, string)

  /** Go's < on strings. */
  predicate Less(a: string, b: string) {
    b != [] && (a == [] || a[0] < b[0] || (a[0] == b[0] && Less(a[1..], b[1..])))
  }

  /** Up to some place they agree; there the first ends or has the smaller character. */
  ghost predicate Precedes(a: string, b: string) {
    exists k :: DiffersAt(a, b, k)
  }

  ghost predicate DiffersAt(a: string, b: string, k: int) {
    0 <= k < |b| && k <= |a| && a[..k] == b[..k] && (k == |a| || a[k] < b[k])
  }

  lemma SameFirst(a: string, b: string, k: int)
    requires DiffersAt(a, b, k)
    ensures k > 0 ==> a != [] && a[0] == b[0]
  {
    assert k > 0 ==> a[..k][0] == a[0] && b[..k][0] == b[0];
  }

  /** The order is the lexicographic one. */
  lemma {:induction false} LessIsLexicographic(a: string, b: string)
    ensures Less(a, b) <==> Precedes(a, b)
  {
    if a != [] && b != [] && a[0] == b[0] {
      LessIsLexicographic(a[1..], b[1..]);
      if k :| DiffersAt(a[1..], b[1..], k) {
        assert a[..k + 1] == [a[0]] + a[1..][..k] && b[..k + 1] == [b[0]] + b[1..][..k];
        assert DiffersAt(a, b, k + 1);
      }
      if k :| DiffersAt(a, b, k) {
        assert k > 0;
        assert a[1..][..k - 1] == a[..k][1..] && b[1..][..k - 1] == b[..k][1..];
        assert DiffersAt(a[1..], b[1..], k - 1);
      }
    } else if b != [] {
      if k :| DiffersAt(a, b, k) {
        SameFirst(a, b, k);
      }
      assert Less(a, b) ==> DiffersAt(a, b, 0);
    }
  }

  predicate KeyLess(a: Key, b: Key) {
    if a.0 == b.0 then Less(a.1, b.1) else Less(a.0, b.0)
  }

  lemma {:induction false} LessIrreflexive(a: string)
    ensures !Less(a, a)
  {
    if a != [] {
      LessIrreflexive(a[1..]);
    }
  }

  lemma {:induction false} LessTransitive(a: string, b: string, c: string)
    requires Less(a, b) && Less(b, c)
    ensures Less(a, c)
  {
    if a != [] && a[0] == b[0] == c[0] {
      LessTransitive(a[1..], b[1..], c[1..]);
    }
  }

  lemma {:induction false} LessTotal(a: string, b: string)
    ensures Less(a, b) || Less(b, a) || a == b
  {
    if a != [] && b != [] && a[0] == b[0] {
      LessTotal(a[1..], b[1..]);
      assert a == [a[0]] + a[1..] && b == [b[0]] + b[1..];
    }
  }

  lemma KeyOrderLaws(a: Key, b: Key, c: Key)
    ensures !KeyLess(a, a)
    ensures KeyLess(a, b) || KeyLess(b, a) || a == b
    ensures KeyLess(a, b) ==> !KeyLess(b, a)
    ensures !KeyLess(b, a) && !KeyLess(c, b) ==> !KeyLess(c, a)
  {
    LessIrreflexive(a.0);
    LessIrreflexive(a.1);
    LessTotal(a.0, b.0);
    LessTotal(a.1, b.1);
    if KeyLess(a, b) && KeyLess(b, a) {
      if a.0 == b.0 { LessTransitive(a.1, b.1, a.1); } else { LessTransitive(a.0, b.0, a.0); }
    }
    if !KeyLess(b, a) && !KeyLess(c, b) && KeyLess(c, a) {
      NotBelow(a, b, c);
    }
  }

  /** A key below a is below every b that is not below a. */
  lemma NotBelow(a: Key, b: Key, c: Key)
    requires KeyLess(c, a) && !KeyLess(b, a)
    ensures KeyLess(c, b)
  {
    LessTotal(a.0, b.0);
    LessTotal(a.1, b.1);
    if a.0 == b.0 {
      if c.0 == a.0 && Less(a.1, b.1) { LessTransitive(c.1, a.1, b.1); }
    } else if c.0 == a.0 {
    } else {
      LessTransitive(c.0, a.0, b.0);
      LessIrreflexive(b.0);
    }
  }

  ghost predicate SortedBy<T>(s: seq<T>, key: T -> Key) {
    forall i, j :: 0 <= i < j < |s| ==> !KeyLess(key(s[j]), key(s[i]))
  }

  /** Names first; only between equal names the IDs. */
  ghost predicate InOrder(a: Key, b: Key) {
    Precedes(a.0, b.0) || (a.0 == b.0 && Precedes(a.1, b.1))
  }

  /** Of two places in a sorted list with distinct keys, the first has the key that comes first. */
  lemma SortedIsInOrder<T>(s: seq<T>, key: T -> Key, i: nat, j: nat)
    requires SortedBy(s, key) && i < j < |s| && key(s[i]) != key(s[j])
    ensures InOrder(key(s[i]), key(s[j]))
  {
    var a, b := key(s[i]), key(s[j]);
    KeyOrderLaws(a, b, a);
    LessIsLexicographic(a.0, b.0);
    LessIsLexicographic(a.1, b.1);
  }

  method InsertByKey<T(==)>(s: seq<T>, x: T, key: T -> Key) returns (r: seq<T>)
    requires SortedBy(s, key)
    ensures SortedBy(r, key) && multiset(r) == multiset(s) + multiset{x}
  {
    hide KeyLess;
    var i := |s|;
    while i > 0 && KeyLess(key(x), key(s[i - 1]))
      invariant 0 <= i <= |s|
      invariant forall k :: i <= k < |s| ==> KeyLess(key(x), key(s[k]))
    {
      i := i - 1;
    }
    r := s[..i] + [x] + s[i..];
    assert s == s[..i] + s[i..];
    InsertKeepsSorted(s, x, key, i);
  }

  lemma InsertKeepsSorted<T>(s: seq<T>, x: T, key: T -> Key, i: nat)
    requires SortedBy(s, key) && i <= |s|
    requires i > 0 ==> !KeyLess(key(x), key(s[i - 1]))
    requires forall k :: i <= k < |s| ==> KeyLess(key(x), key(s[k]))
    ensures SortedBy(s[..i] + [x] + s[i..], key)
  {
    hide KeyLess;
    forall j | 0 <= j < i ensures !KeyLess(key(x), key(s[j])) {
      KeyOrderLaws(key(s[j]), key(s[i - 1]), key(x));
    }
    forall k | i <= k < |s| ensures !KeyLess(key(s[k]), key(x)) {
      KeyOrderLaws(key(x), key(s[k]), key(x));
    }
  }

  /** The library's sort: some sorted rearrangement. */
  method SortByKey<T(==)>(s: seq<T>, key: T -> Key) returns (r: seq<T>)
    ensures SortedBy(r, key) && multiset(r) == multiset(s)
  {
    r := [];
    for i := 0 to |s|
      invariant SortedBy(r, key) && multiset(r) == multiset(s[..i])
    {
      assert s[..i + 1] == s[..i] + [s[i]];
      r := InsertByKey(r, s[i], key);
    }
    assert s[..|s|] == s;
  }

  lemma HasMember<T>(s: seq<T>)
    ensures s != [] ==> exists x :: x in s
  {
    assert s != [] ==> s[0] in s;
  }

  /** Two sorted lists of the same elements are equal when no two elements share a key. */
  lemma {:induction false} SortedIsUnique<T>(a: seq<T>, b: seq<T>, key: T -> Key)
    requires SortedBy(a, key) && SortedBy(b, key)
    requires forall x :: x in a <==> x in b
    requires forall i, j :: 0 <= i < j < |a| ==> key(a[i]) != key(a[j])
    requires forall i, j :: 0 <= i < j < |b| ==> key(b[i]) != key(b[j])
    ensures a == b
  {
    HasMember(b);
    if a != [] {
      assert a[0] in b && (b != [] ==> b[0] in a);
      var i :| 0 <= i < |b| && b[i] == a[0];
      var j :| 0 <= j < |a| && a[j] == b[0];
      KeyOrderLaws(key(a[0]), key(b[0]), key(a[0]));
      assert key(a[0]) == key(b[0]);
      assert i == 0 && a[0] == b[0];
      forall x ensures x in a[1..] <==> x in b[1..] {
        TailMembers(a, key, x);
        TailMembers(b, key, x);
      }
      SortedIsUnique(a[1..], b[1..], key);
      assert a == [a[0]] + a[1..] && b == [b[0]] + b[1..];
    }
  }

  lemma TailMembers<T>(a: seq<T>, key: T -> Key, x: T)
    requires a != [] && forall i, j :: 0 <= i < j < |a| ==> key(a[i]) != key(a[j])
    ensures x in a[1..] <==> x in a && x != a[0]
  {
    if x in a && x != a[0] {
      var i :| 0 <= i < |a| && a[i] == x;
      assert a[1..][i - 1] == x;
    }
    if x in a[1..] {
      var i :| 0 <= i < |a[1..]| && a[1..][i] == x;
      assert a[i + 1] == x && key(a[0]) != key(a[i + 1]);
    }
  }

  /** An element occurs twice in a list exactly when its multiplicity is at least two. */
  lemma {:induction false} Twice<T>(s: seq<T>, x: T)
    ensures multiset(s)[x] >= 2 <==> exists i, j :: 0 <= i < j < |s| && s[i] == x && s[j] == x
  {
    if s != [] {
      var n := |s| - 1;
      assert s == s[..n] + [s[n]];
      Twice(s[..n], x);
      if multiset(s)[x] >= 2 {
        if s[n] == x {
          assert x in s[..n];
          var i :| 0 <= i < n && s[..n][i] == x;
          assert s[i] == x;
        } else {
          var i, j :| 0 <= i < j < n && s[..n][i] == x && s[..n][j] == x;
          assert s[i] == x && s[j] == x;
        }
      }
      if i, j :| 0 <= i < j < |s| && s[i] == x && s[j] == x {
        if j == n {
          assert s[..n][i] == x && x in s[..n];
        } else {
          assert s[..n][i] == x && s[..n][j] == x;
        }
      }
    }
  }
}
