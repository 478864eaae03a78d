/** Descending sorts by an integer key, as `sorted(..., key=..., reverse=True)`
    (recommender.py, line 122) and `sort_values(..., ascending=False)`
    (line 98) use them, and Python's `[:n]` slice, which `DataFrame.head(n)`
    follows too (lines 98 and 122). */
module Sorting {

  /** Keys never increase from left to right. */
  ghost predicate SortedDesc<T>(s: seq<T>, key: T -> int) {
    forall i, j :: 0 <= i < j < |s| ==> key(s[i]) >= key(s[j])
  }

  /** The elements of `s` whose key is `k`, in their order in `s`. A sort is
      stable exactly when it leaves every such class as it was. */
  function KeyClass<T>(s: seq<T>, key: T -> int, k: int): seq<T> {
    if |s| == 0 then []
    else (if key(s[0]) == k then [s[0]] else []) + KeyClass(s[1..], key, k)
  }

  /** Puts `x` in front of the first element whose key is not above its own. */
  function InsertDesc<T>(x: T, s: seq<T>, key: T -> int): (r: seq<T>)
    ensures |r| == |s| + 1
    ensures multiset(r) == multiset(s) + multiset{x}
  {
    if |s| == 0 || key(s[0]) <= key(x) then [x] + s
    else
      assert s == [s[0]] + s[1..];
      [s[0]] + InsertDesc(x, s[1..], key)
  }

  lemma {:induction false} InsertDescSorted<T>(x: T, s: seq<T>, key: T -> int)
    requires SortedDesc(s, key)
    ensures SortedDesc(InsertDesc(x, s, key), key)
    decreases |s|
  {
    if |s| > 0 && key(s[0]) > key(x) {
      var rest := InsertDesc(x, s[1..], key);
      InsertDescSorted(x, s[1..], key);
      forall e | e in rest ensures key(e) <= key(s[0]) {
        assert e in multiset(rest);
        assert e == x || e in multiset(s[1..]);
      }
      var r := [s[0]] + rest;
      forall i, j | 0 <= i < j < |r| ensures key(r[i]) >= key(r[j]) {
        if i == 0 {
          assert r[j] in rest;
        } else {
          assert r[i] == rest[i - 1] && r[j] == rest[j - 1];
        }
      }
    }
  }

  /** A stable descending insertion sort: the first of two equal-key
      elements stays first. */
  function SortDesc<T>(s: seq<T>, key: T -> int): (r: seq<T>)
    ensures |r| == |s|
    ensures multiset(r) == multiset(s)
    ensures SortedDesc(r, key)
  {
    if |s| == 0 then []
    else
      assert s == [s[0]] + s[1..];
      var rest := SortDesc(s[1..], key);
      InsertDescSorted(s[0], rest, key);
      InsertDesc(s[0], rest, key)
  }

  lemma {:induction false} InsertDescClass<T>(x: T, s: seq<T>, key: T -> int, k: int)
    requires SortedDesc(s, key)
    ensures KeyClass(InsertDesc(x, s, key), key, k)
         == (if key(x) == k then [x] else []) + KeyClass(s, key, k)
    decreases |s|
  {
    var cx := if key(x) == k then [x] else [];
    if |s| == 0 || key(s[0]) <= key(x) {
      assert ([x] + s)[0] == x;
      assert ([x] + s)[1..] == s;
    } else {
      var rest := InsertDesc(x, s[1..], key);
      var c0 := if key(s[0]) == k then [s[0]] else [];
      assert SortedDesc(s[1..], key);
      InsertDescClass(x, s[1..], key, k);
      assert KeyClass(rest, key, k) == cx + KeyClass(s[1..], key, k);
      assert ([s[0]] + rest)[0] == s[0];
      assert ([s[0]] + rest)[1..] == rest;
      assert KeyClass([s[0]] + rest, key, k) == c0 + KeyClass(rest, key, k);
      assert KeyClass(s, key, k) == c0 + KeyClass(s[1..], key, k);
      assert c0 == [] || cx == [];
    }
  }

  /** The sort is stable: within every key class the elements keep their
      input order. */
  lemma {:induction false} SortDescStable<T>(s: seq<T>, key: T -> int, k: int)
    ensures KeyClass(SortDesc(s, key), key, k) == KeyClass(s, key, k)
    decreases |s|
  {
    if |s| > 0 {
      SortDescStable(s[1..], key, k);
      InsertDescClass(s[0], SortDesc(s[1..], key), key, k);
    }
  }

  lemma {:induction false} KeyClassMembers<T>(s: seq<T>, key: T -> int, k: int)
    ensures forall x :: x in KeyClass(s, key, k) <==> x in s && key(x) == k
    decreases |s|
  {
    if |s| > 0 {
      KeyClassMembers(s[1..], key, k);
      assert forall x :: x in s <==> x == s[0] || x in s[1..];
    }
  }

  lemma KeyClassHead<T>(s: seq<T>, key: T -> int)
    requires |s| > 0
    ensures KeyClass(s, key, key(s[0])) == [s[0]] + KeyClass(s[1..], key, key(s[0]))
  {
  }

  /** Two sequences, both sorted by descending key, that agree on every key
      class are equal. */
  lemma {:induction false} SortedByClassesUnique<T>(a: seq<T>, b: seq<T>, key: T -> int)
    requires SortedDesc(a, key) && SortedDesc(b, key)
    requires forall k :: KeyClass(a, key, k) == KeyClass(b, key, k)
    ensures a == b
    decreases |a| + |b|
  {
    if |a| == 0 && |b| == 0 {
    } else if |a| == 0 {
      KeyClassHead(b, key);
      assert false;
    } else if |b| == 0 {
      KeyClassHead(a, key);
      assert false;
    } else {
      var ka, kb := key(a[0]), key(b[0]);
      KeyClassMembers(a, key, kb);
      KeyClassMembers(b, key, ka);
      assert a[0] in KeyClass(b, key, ka);
      assert b[0] in KeyClass(a, key, kb);
      assert ka == kb;
      assert a[0] == b[0] by {
        assert KeyClass(a, key, ka)[0] == a[0];
        assert KeyClass(b, key, ka)[0] == b[0];
      }
      forall k ensures KeyClass(a[1..], key, k) == KeyClass(b[1..], key, k) {
        var c := if key(a[0]) == k then [a[0]] else [];
        assert KeyClass(a, key, k) == c + KeyClass(a[1..], key, k);
        assert KeyClass(b, key, k) == c + KeyClass(b[1..], key, k);
        assert KeyClass(a[1..], key, k) == KeyClass(a, key, k)[|c|..];
        assert KeyClass(b[1..], key, k) == KeyClass(b, key, k)[|c|..];
      }
      SortedByClassesUnique(a[1..], b[1..], key);
      assert a == [a[0]] + a[1..];
      assert b == [b[0]] + b[1..];
    }
  }

  /** Any sequence sorted by descending key that keeps every key class of
      `s` is `SortDesc(s, key)`. */
  lemma SortDescUnique<T>(s: seq<T>, r: seq<T>, key: T -> int)
    requires SortedDesc(r, key)
    requires forall k :: KeyClass(r, key, k) == KeyClass(s, key, k)
    ensures r == SortDesc(s, key)
  {
    var t := SortDesc(s, key);
    forall k ensures KeyClass(r, key, k) == KeyClass(t, key, k) {
      SortDescStable(s, key, k);
    }
    SortedByClassesUnique(r, t, key);
  }

  function Min(a: int, b: int): int { if a <= b then a else b }
  function Max(a: int, b: int): int { if a >= b then a else b }

  /** Python's `s[:n]`: the first `n` elements for `n >= 0`, all but the
      last `-n` for `n < 0`, clamped to the sequence. */
  function Prefix<T>(s: seq<T>, n: int): (r: seq<T>)
    ensures r <= s
    ensures n >= 0 ==> |r| == Min(n, |s|)
    ensures n < 0 ==> |r| == Max(0, |s| + n)
  {
    if n >= 0 then s[..Min(n, |s|)] else s[..Max(0, |s| + n)]
  }

  /** Cutting a sequence short cuts each key class short: what is left of a
      class is a leading part of it. */
  lemma {:induction false} KeyClassOfPrefix<T>(s: seq<T>, m: nat, key: T -> int, k: int)
    requires m <= |s|
    ensures KeyClass(s[..m], key, k) <= KeyClass(s, key, k)
    decreases m
  {
    if m > 0 {
      assert s[..m][1..] == s[1..][..m - 1];
      KeyClassOfPrefix(s[1..], m - 1, key, k);
    }
  }
}
