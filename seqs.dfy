/** Small facts about sequences used as lists by both peers. */
module Seqs {

  /** No element occurs twice. */
  predicate NoDuplicates<T(==)>(s: seq<T>) {
    forall i, j :: 0 <= i < j < |s| ==> s[i] != s[j]
  }

  /** The set of elements of a list (`set(xs)` in Python, `new HashSet<>(xs)` in Java). */
  function Elements<T>(s: seq<T>): set<T> {
    set x | x in s
  }

  /** Position of the first occurrence of `x`, as Python's `list.index` finds it. */
  function IndexOf<T(==)>(s: seq<T>, x: T): (i: nat)
    requires x in s
    ensures i < |s| && s[i] == x && x !in s[..i]
  {
    if s[0] == x then 0 else 1 + IndexOf(s[1..], x)
  }

  /** Python's `list.remove(x)`: drops the first occurrence of `x`. */
  function Remove<T(==)>(s: seq<T>, x: T): (r: seq<T>)
    requires x in s
    ensures |r| == |s| - 1
    ensures multiset(r) == multiset(s) - multiset{x}
  {
    var i := IndexOf(s, x);
    assert s == s[..i] + [x] + s[i + 1..];
    s[..i] + s[i + 1..]
  }

  /** In a list without duplicates, removing `x` removes exactly `x` and keeps the list duplicate-free. */
  lemma RemoveUnique<T>(s: seq<T>, x: T)
    requires x in s && NoDuplicates(s)
    ensures NoDuplicates(Remove(s, x))
    ensures forall y :: y in Remove(s, x) <==> y in s && y != x
  {
    RemoveKeepsDistinct(s, x);
    RemoveMembers(s, x);
  }

  /** Removing an element keeps the other elements apart. */
  lemma RemoveKeepsDistinct<T>(s: seq<T>, x: T)
    requires x in s && NoDuplicates(s)
    ensures NoDuplicates(Remove(s, x))
  {
    var i := IndexOf(s, x);
    var r := Remove(s, x);
    assert r == s[..i] + s[i + 1..];
    forall a, b | 0 <= a < b < |r| ensures r[a] != r[b] {
      var a' := if a < i then a else a + 1;
      var b' := if b < i then b else b + 1;
      assert r[a] == s[a'] && r[b] == s[b'] && a' < b';
    }
  }

  /** In a list without duplicates, removing `x` leaves every other element and no copy of `x`. */
  lemma RemoveMembers<T>(s: seq<T>, x: T)
    requires x in s && NoDuplicates(s)
    ensures forall y :: y in Remove(s, x) <==> y in s && y != x
  {
    var i := IndexOf(s, x);
    var r := Remove(s, x);
    assert r == s[..i] + s[i + 1..];
    forall y ensures y in r <==> y in s && y != x {
      if y in r {
        var k :| 0 <= k < |r| && r[k] == y;
        var k' := if k < i then k else k + 1;
        assert s[k'] == y && k' != i;
      }
      if y in s && y != x {
        var k :| 0 <= k < |s| && s[k] == y;
        assert k != i;
        assert r[if k < i then k else k - 1] == y;
      }
    }
  }

  /** Removing at position `i` of a duplicate-free list is `list.remove(s[i])`. */
  lemma RemoveAt<T>(s: seq<T>, i: nat)
    requires i < |s| && NoDuplicates(s)
    ensures Remove(s, s[i]) == s[..i] + s[i + 1..]
  {
    var k := IndexOf(s, s[i]);
    assert s[k] == s[i];
  }

  /** A value appended to a list that did not hold it keeps the list duplicate-free. */
  lemma AppendFresh<T>(s: seq<T>, x: T)
    requires NoDuplicates(s) && x !in s
    ensures NoDuplicates(s + [x])
  {
    var r := s + [x];
    forall a, b | 0 <= a < b < |r| ensures r[a] != r[b] {
      if b == |s| { assert r[a] == s[a]; }
    }
  }

  /** Taking one more element of a list. */
  lemma TakeSnoc<T>(s: seq<T>, i: nat)
    requires i < |s|
    ensures s[..i + 1] == s[..i] + [s[i]]
  {
  }

  /** Extending a slice by one element. */
  lemma SliceSnoc<T>(s: seq<T>, i: nat, j: nat)
    requires i <= j < |s|
    ensures s[i..j + 1] == s[i..j] + [s[j]]
  {
  }

  /** Concatenation is associative; stated once so that callers do not pay for the proof. */
  lemma AppendAssociates<T>(x: seq<T>, y: seq<T>, z: seq<T>)
    ensures (x + y) + z == x + (y + z)
  {
  }

  /** A prefix of a prefix is a prefix. */
  lemma PrefixTransitive<T>(a: seq<T>, b: seq<T>, c: seq<T>)
    requires a <= b && b <= c
    ensures a <= c
  {
    assert c[..|a|] == b[..|a|];
  }
}
