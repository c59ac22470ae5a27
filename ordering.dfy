/**
 * Orders used by the tool's `sort.Slice` calls. Go compares strings byte-wise,
 * which for well-formed text is the order of character codes; `sort.Slice` is
 * not stable, so only sortedness and permutation are promised, never the order
 * of ties.
 */
module Ordering {

  /** Go's `a <= b` on strings. */
  predicate StrLeq(a: string, b: string)
    decreases |a|
  {
    a == [] || (b != [] && (a[0] < b[0] || (a[0] == b[0] && StrLeq(a[1..], b[1..]))))
  }

  lemma {:induction false} StrLeqTotal(a: string, b: string)
    ensures StrLeq(a, b) || StrLeq(b, a)
    decreases |a|
  {
    if a != [] && b != [] && a[0] == b[0] {
      StrLeqTotal(a[1..], b[1..]);
    }
  }

  lemma {:induction false} StrLeqReflexive(a: string)
    ensures StrLeq(a, a)
    decreases |a|
  {
    if a != [] {
      StrLeqReflexive(a[1..]);
    }
  }

  lemma {:induction false} StrLeqTransitive(a: string, b: string, c: string)
    requires StrLeq(a, b) && StrLeq(b, c)
    ensures StrLeq(a, c)
    decreases |a|
  {
    if a != [] && a[0] == b[0] && b[0] == c[0] {
      StrLeqTransitive(a[1..], b[1..], c[1..]);
    }
  }

  lemma {:induction false} StrLeqAntisymmetric(a: string, b: string)
    requires StrLeq(a, b) && StrLeq(b, a)
    ensures a == b
    decreases |a|
  {
    if a != [] {
      StrLeqAntisymmetric(a[1..], b[1..]);
      assert a == [a[0]] + a[1..] && b == [b[0]] + b[1..];
    }
  }

  /** A sort key: a group rank first, then a text compared as Go compares strings. */
  datatype SortKey = SortKey(rank: nat, text: string)

  predicate KeyLeq(a: SortKey, b: SortKey) {
    a.rank < b.rank || (a.rank == b.rank && StrLeq(a.text, b.text))
  }

  lemma KeyLeqTotal(a: SortKey, b: SortKey)
    ensures KeyLeq(a, b) || KeyLeq(b, a)
  {
    StrLeqTotal(a.text, b.text);
  }

  lemma KeyLeqTransitive(a: SortKey, b: SortKey, c: SortKey)
    requires KeyLeq(a, b) && KeyLeq(b, c)
    ensures KeyLeq(a, c)
  {
    if a.rank == b.rank == c.rank {
      StrLeqTransitive(a.text, b.text, c.text);
    }
  }

  /** No element is ordered strictly before an earlier one. */
  predicate SortedBy<T>(s: seq<T>, key: T -> SortKey) {
    forall i, j :: 0 <= i < j < |s| ==> KeyLeq(key(s[i]), key(s[j]))
  }

  /** A lower bound of `x` and of every element of `s` bounds every element of a rearrangement of both. */
  lemma LowerBoundKept<T>(b: SortKey, x: T, s: seq<T>, t: seq<T>, key: T -> SortKey)
    requires multiset(t) == multiset(s) + multiset{x}
    requires KeyLeq(b, key(x))
    requires forall j :: 0 <= j < |s| ==> KeyLeq(b, key(s[j]))
    ensures forall j :: 0 <= j < |t| ==> KeyLeq(b, key(t[j]))
  {
    forall j | 0 <= j < |t| ensures KeyLeq(b, key(t[j])) {
      assert t[j] in multiset(t);
      if t[j] != x {
        assert t[j] in multiset(s);
        var k :| 0 <= k < |s| && s[k] == t[j];
      }
    }
  }

  /** The tail of a sorted sequence is sorted, and its head bounds every element of the tail. */
  lemma SortedTail<T>(s: seq<T>, key: T -> SortKey)
    requires s != [] && SortedBy(s, key)
    ensures SortedBy(s[1..], key)
    ensures forall j :: 0 <= j < |s[1..]| ==> KeyLeq(key(s[0]), key(s[1..][j]))
  {
    forall i, j | 0 <= i < j < |s| - 1 ensures KeyLeq(key(s[1..][i]), key(s[1..][j])) {
      assert s[1..][i] == s[i + 1] && s[1..][j] == s[j + 1];
    }
    forall j | 0 <= j < |s[1..]| ensures KeyLeq(key(s[0]), key(s[1..][j])) {
      assert s[1..][j] == s[j + 1];
    }
  }

  /** A bound of every element of the sorted `t` may go in front of it. */
  lemma ConsSorted<T>(h: T, t: seq<T>, key: T -> SortKey)
    requires SortedBy(t, key)
    requires forall j :: 0 <= j < |t| ==> KeyLeq(key(h), key(t[j]))
    ensures SortedBy([h] + t, key)
  {
    var r := [h] + t;
    forall i, j | 0 <= i < j < |r| ensures KeyLeq(key(r[i]), key(r[j])) {
      assert r[j] == t[j - 1];
      if i > 0 { assert r[i] == t[i - 1]; }
    }
  }

  /** Inserts `x` into the sorted `s`. */
  function Insert<T>(x: T, s: seq<T>, key: T -> SortKey): (r: seq<T>)
    requires SortedBy(s, key)
    ensures multiset(r) == multiset(s) + multiset{x}
    ensures SortedBy(r, key)
  {
    if s == [] then [x]
    else
      SortedTail(s, key);
      if KeyLeq(key(x), key(s[0])) then
        assert forall j :: 0 <= j < |s| ==> KeyLeq(key(x), key(s[j])) by {
          forall j | 0 <= j < |s| ensures KeyLeq(key(x), key(s[j])) {
            if j > 0 {
              assert s[j] == s[1..][j - 1];
              KeyLeqTransitive(key(x), key(s[0]), key(s[j]));
            }
          }
        }
        ConsSorted(x, s, key);
        [x] + s
      else
        assert s == [s[0]] + s[1..];
        var tail := Insert(x, s[1..], key);
        KeyLeqTotal(key(x), key(s[0]));
        LowerBoundKept(key(s[0]), x, s[1..], tail, key);
        ConsSorted(s[0], tail, key);
        [s[0]] + tail
  }

  /** The `sort.Slice` call: a sorted permutation of `s`. */
  function SortBy<T>(s: seq<T>, key: T -> SortKey): (r: seq<T>)
    ensures multiset(r) == multiset(s)
    ensures SortedBy(r, key)
  {
    if s == [] then []
    else
      assert s == [s[0]] + s[1..];
      Insert(s[0], SortBy(s[1..], key), key)
  }

  /** A sequence without repeats has as many elements as the set of its elements. */
  lemma {:induction false} DistinctCard<T>(s: seq<T>)
    requires forall i, j :: 0 <= i < j < |s| ==> s[i] != s[j]
    ensures |set x | x in s| == |s|
  {
    if s != [] {
      var init := s[..|s| - 1];
      var last := s[|s| - 1];
      assert s == init + [last];
      DistinctCard(init);
      assert last !in init by {
        forall k | 0 <= k < |init| ensures init[k] != last {
          assert init[k] == s[k];
        }
      }
      assert (set x | x in s) == (set x | x in init) + {last};
    }
  }

  /** A rearrangement has the same elements and the same length. */
  lemma PermutationMembers<T>(a: seq<T>, b: seq<T>)
    requires multiset(a) == multiset(b)
    ensures |a| == |b|
    ensures forall x :: x in a <==> x in b
  {
    assert |multiset(a)| == |a| && |multiset(b)| == |b|;
    forall x ensures x in a <==> x in b {
      assert x in a <==> x in multiset(a);
      assert x in b <==> x in multiset(b);
    }
  }
}
