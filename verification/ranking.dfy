/** Python's `list.sort(key=key, reverse=True)`: a stable sort that puts the
    largest key first and keeps elements with equal keys in their original
    order. It is stated here as insertion sort over any element type. */
module Ranking {

  /** Keys never increase from one element to a later one. */
  predicate NonIncreasing<T>(s: seq<T>, key: T -> int) {
    forall i, j :: 0 <= i < j < |s| ==> key(s[i]) >= key(s[j])
  }

  /** Keys strictly increase from one element to a later one. */
  predicate StrictlyIncreasing<T>(s: seq<T>, key: T -> int) {
    forall i, j :: 0 <= i < j < |s| ==> key(s[i]) < key(s[j])
  }

  /** The elements whose key is `v`, in their order in `s`. A sort is stable
      when it leaves each of these subsequences as it was. */
  function WithKey<T>(s: seq<T>, key: T -> int, v: int): seq<T>
  {
    if s == [] then [] else (if key(s[0]) == v then [s[0]] else []) + WithKey(s[1..], key, v)
  }

  /** Inserts `x` into a list ordered largest key first, after every element
      whose key is at least that of `x`. */
  function InsertDesc<T>(x: T, s: seq<T>, key: T -> int): seq<T>
  {
    if s == [] then [x]
    else if key(s[0]) >= key(x) then [s[0]] + InsertDesc(x, s[1..], key)
    else [x] + s
  }

  /** The stable sort, largest key first: each element in turn is inserted into
      the sorted list of the ones before it. */
  function SortDesc<T>(s: seq<T>, key: T -> int): seq<T>
  {
    if s == [] then []
    else InsertDesc(s[|s| - 1], SortDesc(s[..|s| - 1], key), key)
  }

  /** `s` in reverse order. */
  function Reverse<T>(s: seq<T>): (r: seq<T>)
    ensures |r| == |s|
  {
    if s == [] then [] else [s[|s| - 1]] + Reverse(s[..|s| - 1])
  }

  lemma WithKeySingle<T>(x: T, key: T -> int, v: int)
    ensures WithKey([x], key, v) == if key(x) == v then [x] else []
  {
    assert [x][1..] == [];
  }

  /** The elements with key `v` among `a + b` are those of `a`, then those of `b`. */
  lemma {:induction false} WithKeyAppend<T>(a: seq<T>, b: seq<T>, key: T -> int, v: int)
    ensures WithKey(a + b, key, v) == WithKey(a, key, v) + WithKey(b, key, v)
  {
    if a == [] {
      assert a + b == b;
    } else {
      var ab := a + b;
      var head := if key(a[0]) == v then [a[0]] else [];
      assert ab != [] && ab[0] == a[0];
      assert ab[1..] == a[1..] + b;
      assert WithKey(ab, key, v) == head + WithKey(a[1..] + b, key, v);
      WithKeyAppend(a[1..], b, key, v);
      assert WithKey(a, key, v) == head + WithKey(a[1..], key, v);
    }
  }

  /** No element has key `v` when every key is below `v`. */
  lemma {:induction false} WithKeyNone<T>(s: seq<T>, key: T -> int, v: int)
    requires forall i :: 0 <= i < |s| ==> key(s[i]) < v
    ensures WithKey(s, key, v) == []
  {
    if s != [] {
      WithKeyNone(s[1..], key, v);
    }
  }

  /** Insertion adds exactly `x` and loses nothing. */
  lemma {:induction false} InsertDescPermutes<T>(x: T, s: seq<T>, key: T -> int)
    ensures multiset(InsertDesc(x, s, key)) == multiset(s) + multiset{x}
  {
    if s != [] && key(s[0]) >= key(x) {
      InsertDescPermutes(x, s[1..], key);
      assert s == [s[0]] + s[1..];
    }
  }

  /** Insertion brings in no key above a bound that `x` and `s` respect. */
  lemma {:induction false} InsertDescBounded<T>(x: T, s: seq<T>, key: T -> int, b: int)
    requires key(x) <= b
    requires forall i :: 0 <= i < |s| ==> key(s[i]) <= b
    ensures forall i :: 0 <= i < |InsertDesc(x, s, key)| ==> key(InsertDesc(x, s, key)[i]) <= b
  {
    if s != [] && key(s[0]) >= key(x) {
      InsertDescBounded(x, s[1..], key, b);
    }
  }

  /** Insertion into a list ordered largest key first keeps it ordered. */
  lemma {:induction false} InsertDescOrdered<T>(x: T, s: seq<T>, key: T -> int)
    requires NonIncreasing(s, key)
    ensures NonIncreasing(InsertDesc(x, s, key), key)
  {
    if s != [] && key(s[0]) >= key(x) {
      var tail := InsertDesc(x, s[1..], key);
      InsertDescOrdered(x, s[1..], key);
      InsertDescBounded(x, s[1..], key, key(s[0]));
      assert InsertDesc(x, s, key) == [s[0]] + tail;
    }
  }

  /** Insertion puts `x` after the elements that already had its key. */
  lemma {:induction false} InsertDescStable<T>(x: T, s: seq<T>, key: T -> int, v: int)
    requires NonIncreasing(s, key)
    ensures WithKey(InsertDesc(x, s, key), key, v) == WithKey(s, key, v) + (if key(x) == v then [x] else [])
  {
    var single := if key(x) == v then [x] else [];
    WithKeySingle(x, key, v);
    if s == [] {
      assert InsertDesc(x, s, key) == [x];
    } else if key(s[0]) >= key(x) {
      var head, rest := s[0], s[1..];
      var tail := InsertDesc(x, rest, key);
      InsertDescStable(x, rest, key, v);
      assert InsertDesc(x, s, key) == [head] + tail;
      assert s == [head] + rest;
      WithKeyAppend([head], tail, key, v);
      WithKeyAppend([head], rest, key, v);
      calc {
        WithKey(InsertDesc(x, s, key), key, v);
        WithKey([head], key, v) + WithKey(tail, key, v);
        WithKey([head], key, v) + (WithKey(rest, key, v) + single);
        (WithKey([head], key, v) + WithKey(rest, key, v)) + single;
        WithKey(s, key, v) + single;
      }
    } else {
      assert InsertDesc(x, s, key) == [x] + s;
      WithKeyAppend([x], s, key, v);
      if key(x) == v {
        WithKeyNone(s, key, v);
      }
    }
  }

  /** The sorted list is ordered largest key first. */
  lemma {:induction false} SortDescOrdered<T>(s: seq<T>, key: T -> int)
    ensures NonIncreasing(SortDesc(s, key), key)
  {
    if s != [] {
      var n := |s| - 1;
      SortDescOrdered(s[..n], key);
      InsertDescOrdered(s[n], SortDesc(s[..n], key), key);
    }
  }

  /** The sorted list is a permutation of its input. */
  lemma {:induction false} SortDescPermutes<T>(s: seq<T>, key: T -> int)
    ensures multiset(SortDesc(s, key)) == multiset(s)
  {
    if s != [] {
      var n := |s| - 1;
      var x, init := s[n], s[..n];
      SortDescPermutes(init, key);
      InsertDescPermutes(x, SortDesc(init, key), key);
      assert SortDesc(s, key) == InsertDesc(x, SortDesc(init, key), key);
      assert s == init + [x];
    }
  }

  /** The sort is stable: the elements with any one key keep their input order. */
  lemma {:induction false} SortDescStable<T>(s: seq<T>, key: T -> int, v: int)
    ensures WithKey(SortDesc(s, key), key, v) == WithKey(s, key, v)
  {
    if s != [] {
      var n := |s| - 1;
      var x, init := s[n], s[..n];
      var prev := SortDesc(init, key);
      var single := if key(x) == v then [x] else [];
      assert SortDesc(s, key) == InsertDesc(x, prev, key);
      SortDescOrdered(init, key);
      InsertDescStable(x, prev, key, v);
      SortDescStable(init, key, v);
      WithKeySingle(x, key, v);
      assert s == init + [x];
      WithKeyAppend(init, [x], key, v);
      calc {
        WithKey(SortDesc(s, key), key, v);
        WithKey(prev, key, v) + single;
        WithKey(init, key, v) + single;
        WithKey(init + [x], key, v);
      }
    }
  }

  /** On strictly increasing keys, sorting largest first is exactly reversal. */
  lemma {:induction false} SortDescReversesIncreasing<T>(s: seq<T>, key: T -> int)
    requires StrictlyIncreasing(s, key)
    ensures SortDesc(s, key) == Reverse(s)
  {
    if s != [] {
      var n := |s| - 1;
      SortDescReversesIncreasing(s[..n], key);
      var prev := Reverse(s[..n]);
      if prev != [] {
        assert prev[0] == s[n - 1];
      }
    }
  }

  /** The first element of a sequence is the last of its reversal. */
  lemma {:induction false} ReverseLast<T>(s: seq<T>)
    requires s != []
    ensures Reverse(s)[|s| - 1] == s[0]
  {
    if |s| > 1 {
      ReverseLast(s[..|s| - 1]);
    }
  }

  /** Two elements in order with equal keys are left as they are. */
  lemma EqualPairUnchanged<T>(x: T, y: T, key: T -> int)
    requires key(x) == key(y)
    ensures SortDesc([x, y], key) == [x, y]
  {
    assert [x, y][..1] == [x] && [x][..0] == [] && [x][1..] == [];
    assert SortDesc([x], key) == [x];
    assert InsertDesc(y, [x], key) == [x] + InsertDesc(y, [], key);
  }
}
