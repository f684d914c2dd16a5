/**
 * The two orderings the dashboard needs from `Array.prototype.sort`:
 * a stable sort by an integer key (events by start, articles by date,
 * commands by score), and the default sort of strings (cache keys).
 */
module Sorting {

  // ---------------------------------------------------------------------------
  // Stable sort by an integer key
  // ---------------------------------------------------------------------------

  ghost predicate SortedBy<T>(s: seq<T>, key: T -> int) {
    forall i, j :: 0 <= i < j < |s| ==> key(s[i]) <= key(s[j])
  }

  ghost predicate AdjacentSortedBy<T>(s: seq<T>, key: T -> int) {
    forall i :: 0 <= i < |s| - 1 ==> key(s[i]) <= key(s[i + 1])
  }

  lemma {:induction false} AdjacentSorted<T>(s: seq<T>, key: T -> int)
    requires AdjacentSortedBy(s, key)
    ensures SortedBy(s, key)
  {
    if |s| > 1 {
      AdjacentSorted(s[1..], key);
      forall j | 0 < j < |s| ensures key(s[0]) <= key(s[j]) {
        assert s[j] == s[1..][j - 1];
        if j > 1 { assert key(s[1]) <= key(s[1..][j - 1]); }
      }
    }
  }

  /** Puts `x` in front of the first element whose key is not smaller. */
  function InsertBy<T>(x: T, s: seq<T>, key: T -> int): (r: seq<T>)
    requires AdjacentSortedBy(s, key)
    ensures AdjacentSortedBy(r, key)
    ensures |r| == |s| + 1 && (r[0] == x || (s != [] && r[0] == s[0]))
    ensures multiset(r) == multiset(s) + multiset{x}
  {
    if s == [] then [x]
    else if key(x) <= key(s[0]) then [x] + s
    else
      var t := InsertBy(x, s[1..], key);
      assert s == [s[0]] + s[1..];
      [s[0]] + t
  }

  /** Insertion sort: a stable sort in ascending key order. */
  function SortBy<T>(s: seq<T>, key: T -> int): (r: seq<T>)
    ensures AdjacentSortedBy(r, key)
    ensures multiset(r) == multiset(s)
  {
    if s == [] then []
    else
      assert s == [s[0]] + s[1..];
      InsertBy(s[0], SortBy(s[1..], key), key)
  }

  /** The result of a sort is in ascending key order throughout. */
  lemma SortBySorted<T>(s: seq<T>, key: T -> int)
    ensures SortedBy(SortBy(s, key), key)
  {
    AdjacentSorted(SortBy(s, key), key);
  }

  /** The elements of `s` whose key is `k`, in their order in `s`. */
  function KeyFilter<T>(s: seq<T>, key: T -> int, k: int): seq<T> {
    if s == [] then []
    else (if key(s[0]) == k then [s[0]] else []) + KeyFilter(s[1..], key, k)
  }

  lemma AdjacentSortedTail<T>(s: seq<T>, key: T -> int)
    requires s != [] && AdjacentSortedBy(s, key)
    ensures AdjacentSortedBy(s[1..], key)
  {
    forall i | 0 <= i < |s| - 2 ensures key(s[1..][i]) <= key(s[1..][i + 1]) {
      assert s[1..][i] == s[i + 1] && s[1..][i + 1] == s[i + 2];
    }
  }

  lemma KeyFilterCons<T>(y: T, t: seq<T>, key: T -> int, k: int)
    ensures KeyFilter([y] + t, key, k) == (if key(y) == k then [y] else []) + KeyFilter(t, key, k)
  {
    assert ([y] + t)[1..] == t;
  }

  /** Two optional elements, at most one present, can be listed in either order. */
  lemma SwapOptional<T>(p: bool, u: T, q: bool, v: T, c: seq<T>)
    requires !(p && q)
    ensures (if p then [u] else []) + ((if q then [v] else []) + c)
         == (if q then [v] else []) + ((if p then [u] else []) + c)
  {
  }

  lemma InsertByLater<T>(x: T, s: seq<T>, key: T -> int)
    requires AdjacentSortedBy(s, key) && s != [] && key(x) > key(s[0])
    ensures AdjacentSortedBy(s[1..], key)
    ensures InsertBy(x, s, key) == [s[0]] + InsertBy(x, s[1..], key)
  {
    AdjacentSortedTail(s, key);
  }

  lemma {:induction false} KeyFilterInsert<T>(x: T, s: seq<T>, key: T -> int, k: int)
    requires AdjacentSortedBy(s, key)
    ensures KeyFilter(InsertBy(x, s, key), key, k)
         == (if key(x) == k then [x] else []) + KeyFilter(s, key, k)
  {
    if s == [] || key(x) <= key(s[0]) {
      assert InsertBy(x, s, key) == [x] + s;
      KeyFilterCons(x, s, key, k);
    } else {
      var hx, h0 := if key(x) == k then [x] else [], if key(s[0]) == k then [s[0]] else [];
      InsertByLater(x, s, key);
      var t := InsertBy(x, s[1..], key);
      calc {
        KeyFilter(InsertBy(x, s, key), key, k);
        KeyFilter([s[0]] + t, key, k);
        { KeyFilterCons(s[0], t, key, k); }
        h0 + KeyFilter(t, key, k);
        { KeyFilterInsert(x, s[1..], key, k); }
        h0 + (hx + KeyFilter(s[1..], key, k));
        { SwapOptional(key(s[0]) == k, s[0], key(x) == k, x, KeyFilter(s[1..], key, k)); }
        hx + (h0 + KeyFilter(s[1..], key, k));
        hx + KeyFilter(s, key, k);
      }
    }
  }

  /** Stability: among elements with equal keys, the sort keeps the input order. */
  lemma {:induction false} SortByStable<T>(s: seq<T>, key: T -> int, k: int)
    ensures KeyFilter(SortBy(s, key), key, k) == KeyFilter(s, key, k)
  {
    if s != [] {
      SortByStable(s[1..], key, k);
      KeyFilterInsert(s[0], SortBy(s[1..], key), key, k);
    }
  }

  // ---------------------------------------------------------------------------
  // Default string sort
  // ---------------------------------------------------------------------------

  /** Lexicographic order on strings, character by character. */
  predicate LexLe(a: string, b: string) {
    a == [] || (b != [] && (a[0] < b[0] || (a[0] == b[0] && LexLe(a[1..], b[1..]))))
  }

  lemma {:induction false} LexLeTotal(a: string, b: string)
    ensures LexLe(a, b) || LexLe(b, a)
  {
    if a != [] && b != [] && a[0] == b[0] {
      LexLeTotal(a[1..], b[1..]);
    }
  }

  lemma {:induction false} LexLeAntisymmetric(a: string, b: string)
    requires LexLe(a, b) && LexLe(b, a)
    ensures a == b
  {
    if a != [] && b != [] {
      LexLeAntisymmetric(a[1..], b[1..]);
      assert a == [a[0]] + a[1..] && b == [b[0]] + b[1..];
    }
  }

  lemma {:induction false} LexLeTransitive(a: string, b: string, c: string)
    requires LexLe(a, b) && LexLe(b, c)
    ensures LexLe(a, c)
  {
    if a != [] && b != [] && c != [] && a[0] == b[0] && b[0] == c[0] {
      LexLeTransitive(a[1..], b[1..], c[1..]);
    }
  }

  lemma {:induction false} LexLeReflexive(a: string)
    ensures LexLe(a, a)
  {
    if a != [] {
      LexLeReflexive(a[1..]);
    }
  }

  ghost predicate LexSorted(s: seq<string>) {
    forall i, j :: 0 <= i < j < |s| ==> LexLe(s[i], s[j])
  }

  function InsertString(x: string, s: seq<string>): (r: seq<string>)
    requires LexSorted(s)
    ensures LexSorted(r)
    ensures multiset(r) == multiset(s) + multiset{x}
  {
    if s == [] then [x]
    else if LexLe(x, s[0]) then
      assert forall j :: 0 <= j < |s| ==> LexLe(x, s[j]) by {
        forall j | 0 <= j < |s| ensures LexLe(x, s[j]) {
          if j > 0 { LexLeTransitive(x, s[0], s[j]); }
        }
      }
      [x] + s
    else
      LexLeTotal(x, s[0]);
      var t := InsertString(x, s[1..]);
      assert s == [s[0]] + s[1..];
      assert forall j :: 0 <= j < |t| ==> LexLe(s[0], t[j]) by {
        forall j | 0 <= j < |t| ensures LexLe(s[0], t[j]) {
          assert t[j] in multiset(t);
          if t[j] != x {
            assert t[j] in s[1..];
          }
        }
      }
      [s[0]] + t
  }

  /** `strings.sort()`: the strings in ascending lexicographic order. */
  function SortStrings(s: seq<string>): (r: seq<string>)
    ensures LexSorted(r)
    ensures multiset(r) == multiset(s)
  {
    if s == [] then []
    else
      assert s == [s[0]] + s[1..];
      InsertString(s[0], SortStrings(s[1..]))
  }

  lemma SortedHeadIsLeast(a: seq<string>, x: string)
    requires LexSorted(a) && x in multiset(a)
    ensures LexLe(a[0], x)
  {
    var i :| 0 <= i < |a| && a[i] == x;
    if i == 0 { LexLeReflexive(x); } else { assert LexLe(a[0], a[i]); }
  }

  lemma SortedTail(a: seq<string>)
    requires LexSorted(a) && a != []
    ensures LexSorted(a[1..])
  {
    forall i, j | 0 <= i < j < |a| - 1 ensures LexLe(a[1..][i], a[1..][j]) {
      assert LexLe(a[i + 1], a[j + 1]);
    }
  }

  /** Two sorted arrangements of the same strings are the same sequence. */
  lemma {:induction false} LexSortedUnique(a: seq<string>, b: seq<string>)
    requires LexSorted(a) && LexSorted(b) && multiset(a) == multiset(b)
    ensures a == b
  {
    if a == [] {
      assert |b| == |multiset(b)| == 0;
    } else {
      assert |b| == |multiset(b)| == |multiset(a)| == |a|;
      assert a[0] in multiset(a) && b[0] in multiset(b);
      SortedHeadIsLeast(b, a[0]);
      SortedHeadIsLeast(a, b[0]);
      LexLeAntisymmetric(a[0], b[0]);
      MultisetTail(a);
      MultisetTail(b);
      SortedTail(a);
      SortedTail(b);
      LexSortedUnique(a[1..], b[1..]);
      assert a == [a[0]] + a[1..] && b == [b[0]] + b[1..];
    }
  }

  lemma MultisetTail(a: seq<string>)
    requires a != []
    ensures multiset(a[1..]) == multiset(a) - multiset{a[0]}
  {
    assert a == [a[0]] + a[1..];
  }

  /** Sorting depends only on which strings there are, not on their order. */
  lemma SortStringsPermutation(a: seq<string>, b: seq<string>)
    requires multiset(a) == multiset(b)
    ensures SortStrings(a) == SortStrings(b)
  {
    LexSortedUnique(SortStrings(a), SortStrings(b));
  }
}
