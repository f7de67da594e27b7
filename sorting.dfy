/**
 * Ordering by a key, the stand-in for the database's `order_by` and Python's
 * `sorted(..., key=...)`: a stable insertion sort whose result is ordered by
 * the key and is a permutation of its input.
 */
module Sorting {

  /** Lexicographic order on key pairs (`order_by(first, second)`). */
  predicate KeyLe(a: (int, int), b: (int, int)) {
    a.0 < b.0 || (a.0 == b.0 && a.1 <= b.1)
  }

  predicate SortedBy<T>(s: seq<T>, key: T -> (int, int)) {
    forall i, j :: 0 <= i < j < |s| ==> KeyLe(key(s[i]), key(s[j]))
  }

  /** Where `x` goes in `s`: after the leading elements whose key is not greater than its own. */
  function InsertionPoint<T>(x: T, s: seq<T>, key: T -> (int, int)): (i: nat)
    ensures i <= |s|
    ensures forall k :: 0 <= k < i ==> KeyLe(key(s[k]), key(x))
    ensures i < |s| ==> !KeyLe(key(s[i]), key(x))
  {
    if s == [] || !KeyLe(key(s[0]), key(x)) then 0
    else 1 + InsertionPoint(x, s[1..], key)
  }

  /** `x` placed after every element whose key is not greater than its own. */
  function Insert<T>(x: T, s: seq<T>, key: T -> (int, int)): (r: seq<T>)
    requires SortedBy(s, key)
    ensures SortedBy(r, key)
    ensures multiset(r) == multiset(s) + multiset{x}
    ensures |r| == |s| + 1
  {
    var i := InsertionPoint(x, s, key);
    assert s == s[..i] + s[i..];
    InsertedSorted(x, s, key, i);
    s[..i] + [x] + s[i..]
  }

  lemma InsertedSorted<T>(x: T, s: seq<T>, key: T -> (int, int), i: nat)
    requires SortedBy(s, key) && i == InsertionPoint(x, s, key)
    ensures SortedBy(s[..i] + [x] + s[i..], key)
  {
    var r := s[..i] + [x] + s[i..];
    forall p, q | 0 <= p < q < |r| ensures KeyLe(key(r[p]), key(r[q])) {
      if q == i {
        assert r[p] == s[p];
      } else if p == i {
        AfterInsertionPoint(x, s, key, i, q - 1);
        assert r[q] == s[q - 1];
      } else {
        var sp := if p < i then p else p - 1;
        var sq := if q < i then q else q - 1;
        assert r[p] == s[sp] && r[q] == s[sq];
      }
    }
  }

  lemma AfterInsertionPoint<T>(x: T, s: seq<T>, key: T -> (int, int), i: nat, k: nat)
    requires SortedBy(s, key) && i == InsertionPoint(x, s, key) && i <= k < |s|
    ensures KeyLe(key(x), key(s[k]))
  {
    assert !KeyLe(key(s[i]), key(x));
    if k > i {
      assert KeyLe(key(s[i]), key(s[k]));
    }
  }

  /** The input ordered by `key`; each insertion goes after the elements with an equal key. */
  function SortBy<T>(s: seq<T>, key: T -> (int, int)): (r: seq<T>)
    ensures SortedBy(r, key)
    ensures multiset(r) == multiset(s)
    ensures |r| == |s|
    decreases |s|
  {
    if s == [] then []
    else
      var sorted := SortBy(s[..|s| - 1], key);
      assert s == s[..|s| - 1] + [s[|s| - 1]];
      Insert(s[|s| - 1], sorted, key)
  }

  /** Sorting keeps exactly the input's elements. */
  lemma SortBySameElements<T>(s: seq<T>, key: T -> (int, int), x: T)
    ensures x in SortBy(s, key) <==> x in s
  {
    var r := SortBy(s, key);
    assert x in r <==> x in multiset(r);
    assert x in s <==> x in multiset(s);
  }

  // ---- Strings in Python's order --------------------------------------------

  /** Python's `a < b` on strings: lexicographic by code point, a proper prefix first. */
  predicate StrLt(a: string, b: string)
    decreases |a|
  {
    b != [] && (a == [] || a[0] < b[0] || (a[0] == b[0] && StrLt(a[1..], b[1..])))
  }

  lemma {:induction false} StrLtIrreflexive(a: string)
    ensures !StrLt(a, a)
    decreases |a|
  {
    if a != [] {
      StrLtIrreflexive(a[1..]);
    }
  }

  lemma {:induction false} StrLtTransitive(a: string, b: string, c: string)
    requires StrLt(a, b) && StrLt(b, c)
    ensures StrLt(a, c)
    decreases |a|
  {
    if a != [] && a[0] == b[0] && b[0] == c[0] {
      StrLtTransitive(a[1..], b[1..], c[1..]);
    }
  }

  lemma {:induction false} StrLtTotal(a: string, b: string)
    ensures a == b || StrLt(a, b) || StrLt(b, a)
    decreases |a|
  {
    if a != [] && b != [] && a[0] == b[0] {
      StrLtTotal(a[1..], b[1..]);
      if a[1..] == b[1..] {
        assert a == [a[0]] + a[1..] && b == [b[0]] + b[1..];
      }
    }
  }

  /** Every finite non-empty set of strings has a least element. */
  lemma {:induction false} LeastString(s: set<string>) returns (m: string)
    requires s != {}
    ensures m in s && forall y :: y in s && y != m ==> StrLt(m, y)
    decreases |s|
  {
    var x :| x in s;
    var rest := s - {x};
    assert s == rest + {x};
    if rest == {} {
      m := x;
    } else {
      var n := LeastString(rest);
      StrLtTotal(x, n);
      if StrLt(x, n) {
        m := x;
        forall y | y in s && y != m ensures StrLt(m, y) {
          if y != n {
            StrLtTransitive(x, n, y);
          }
        }
      } else {
        assert n in rest && x != n;
        m := n;
        assert forall y :: y in s ==> y == x || y in rest;
      }
    }
  }

  predicate StrictlyIncreasing(r: seq<string>) {
    forall i, j :: 0 <= i < j < |r| ==> StrLt(r[i], r[j])
  }

  /** Python's `sorted(s)` for a set of strings: its elements, each once, in increasing order. */
  method SortedStrings(s: set<string>) returns (r: seq<string>)
    ensures StrictlyIncreasing(r)
    ensures forall x :: x in r <==> x in s
    ensures |r| == |s|
  {
    r := [];
    var rest := s;
    while rest != {}
      invariant forall x :: x in s <==> x in r || x in rest
      invariant forall x :: x in r ==> x !in rest
      invariant StrictlyIncreasing(r)
      invariant forall i, y :: 0 <= i < |r| && y in rest ==> StrLt(r[i], y)
      invariant |r| + |rest| == |s|
      decreases |rest|
    {
      ghost var least := LeastString(rest);
      var m :| m in rest && forall y :: y in rest && y != m ==> StrLt(m, y);
      r := r + [m];
      rest := rest - {m};
    }
  }
}
