/** Orderings used by the listings: a lexicographic order on integer
    sequences, a sort by key built on it, and the ascending enumeration of a
    table's primary keys (the order in which rows are scanned). */
module Ordering {

  /** Lexicographic order on integer sequences; a prefix comes first. */
  predicate Lex(a: seq<int>, b: seq<int>)
  {
    |a| == 0 || (|b| > 0 && (a[0] < b[0] || (a[0] == b[0] && Lex(a[1..], b[1..]))))
  }

  lemma {:induction false} LexTotal(a: seq<int>, b: seq<int>)
    ensures Lex(a, b) || Lex(b, a)
  {
    if |a| > 0 && |b| > 0 && a[0] == b[0] {
      LexTotal(a[1..], b[1..]);
    }
  }

  lemma {:induction false} LexTransitive(a: seq<int>, b: seq<int>, c: seq<int>)
    requires Lex(a, b) && Lex(b, c)
    ensures Lex(a, c)
  {
    if |a| > 0 && |b| > 0 && |c| > 0 && a[0] == b[0] && b[0] == c[0] {
      LexTransitive(a[1..], b[1..], c[1..]);
    }
  }

  /** On two-element keys the order is "first component, then second". */
  lemma LexPair(a0: int, a1: int, b0: int, b1: int)
    ensures Lex([a0, a1], [b0, b1]) <==> a0 < b0 || (a0 == b0 && a1 <= b1)
  {
    assert [a0, a1][1..] == [a1];
    assert [b0, b1][1..] == [b1];
    assert [a1][1..] == [];
    assert Lex([a1], [b1]) <==> a1 <= b1 by {
      assert Lex([], []);
    }
  }

  /** Character codes of a string: names are compared ordinally. */
  function Codes(s: string): (r: seq<int>)
    ensures |r| == |s|
    ensures forall i :: 0 <= i < |s| ==> r[i] == s[i] as int
  {
    seq(|s|, i requires 0 <= i < |s| => s[i] as int)
  }

  ghost predicate SortedBy<T>(s: seq<T>, key: T -> seq<int>)
  {
    forall i, j :: 0 <= i < j < |s| ==> Lex(key(s[i]), key(s[j]))
  }

  lemma LowerBound<T>(k: seq<int>, s: seq<T>, key: T -> seq<int>)
    requires SortedBy(s, key) && |s| > 0 && Lex(k, key(s[0]))
    ensures forall j :: 0 <= j < |s| ==> Lex(k, key(s[j]))
  {
    forall j | 0 < j < |s|
      ensures Lex(k, key(s[j]))
    {
      LexTransitive(k, key(s[0]), key(s[j]));
    }
  }

  /** Inserts `x` into a sorted sequence, before the first element it does not follow. */
  function InsertBy<T(==)>(x: T, s: seq<T>, key: T -> seq<int>): (r: seq<T>)
    requires SortedBy(s, key)
    ensures SortedBy(r, key)
    ensures multiset(r) == multiset(s) + multiset{x}
  {
    if |s| == 0 then [x]
    else if Lex(key(x), key(s[0])) then
      LowerBound(key(x), s, key);
      [x] + s
    else
      LexTotal(key(x), key(s[0]));
      var rest := InsertBy(x, s[1..], key);
      assert s == [s[0]] + s[1..];
      assert forall y :: y in rest ==> y == x || y in s[1..] by {
        forall y | y in rest ensures y == x || y in s[1..] {
          assert y in multiset(rest);
        }
      }
      assert forall j :: 0 <= j < |rest| ==> Lex(key(s[0]), key(rest[j])) by {
        forall j | 0 <= j < |rest| ensures Lex(key(s[0]), key(rest[j])) {
          assert rest[j] in rest;
        }
      }
      [s[0]] + rest
  }

  /** Insertion sort by key: ascending, and a permutation of the input. */
  function SortBy<T(==)>(s: seq<T>, key: T -> seq<int>): (r: seq<T>)
    ensures SortedBy(r, key)
    ensures multiset(r) == multiset(s)
  {
    if |s| == 0 then []
    else
      assert s == [s[0]] + s[1..];
      InsertBy(s[0], SortBy(s[1..], key), key)
  }

  /** The smallest key of a non-empty set of keys. */
  function MinKey(ks: set<int>): (m: int)
    requires ks != {}
    ensures m in ks && forall k :: k in ks ==> m <= k
  {
    MinKeyExists(ks);
    var m :| m in ks && forall k :: k in ks ==> m <= k;
    m
  }

  lemma {:induction false} MinKeyExists(ks: set<int>)
    requires ks != {}
    ensures exists m :: m in ks && forall k :: k in ks ==> m <= k
    decreases |ks|
  {
    assert !(forall k :: k !in ks) by {
      if forall k :: k !in ks { assert false; }
    }
    var x :| x in ks;
    if ks != {x} {
      var rest := ks - {x};
      assert |rest| < |ks|;
      MinKeyExists(rest);
      var m :| m in rest && forall k :: k in rest ==> m <= k;
      var lo := if x < m then x else m;
      forall k | k in ks ensures lo <= k {
        if k != x { assert k in rest; }
      }
      assert lo in ks;
    } else {
      forall k | k in ks ensures x <= k {
        assert k in {x};
      }
    }
  }

  /** The keys of a table in ascending order, each exactly once. */
  function KeysAscending(ks: set<int>): (r: seq<int>)
    ensures forall k :: k in r <==> k in ks
    ensures forall i, j :: 0 <= i < j < |r| ==> r[i] < r[j]
    decreases |ks|
  {
    if ks == {} then []
    else
      var m := MinKey(ks);
      [m] + KeysAscending(ks - {m})
  }
}
