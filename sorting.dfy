/** `data.sort(reverse=..., cmp=lambda x, y: cmp(x[section], y[section]))`:
    Python's list sort is stable, and with `reverse=True` it still keeps rows
    with equal keys in their original order. The library's algorithm is not
    part of this model; `SortRows` is a stable insertion sort, and
    `SortRowsUnique` shows that any result meeting the library's promise
    (ordered, a permutation, stable) is the one `SortRows` computes. */
module Sorting {
  import opened Entries

  /** `cmp(a, b) <= 0` on unicode strings: code point by code point, a proper
      prefix first. */
  predicate StrLe(a: string, b: string) {
    if a == [] then true
    else if b == [] then false
    else if a[0] != b[0] then a[0] < b[0]
    else StrLe(a[1..], b[1..])
  }

  /** `a` and `b` agree before position `i`, and there `a` has the smaller character. */
  ghost predicate FirstDiffLess(a: string, b: string, i: int) {
    0 <= i < |a| && i < |b| && a[..i] == b[..i] && a[i] < b[i]
  }

  lemma FirstDiffLessTail(a: string, b: string, i: nat)
    requires a != [] && b != [] && a[0] == b[0]
    ensures FirstDiffLess(a, b, i + 1) <==> FirstDiffLess(a[1..], b[1..], i)
  {
    if i < |a[1..]| && i < |b[1..]| {
      assert a[..i + 1] == [a[0]] + a[1..][..i] && b[..i + 1] == [b[0]] + b[1..][..i];
    }
  }

  lemma FirstDiffLessHead(a: string, b: string, i: int)
    requires a != [] && b != [] && a[0] != b[0] && FirstDiffLess(a, b, i)
    ensures i == 0
  {
  }

  lemma PrefixTail(a: string, b: string)
    requires a != [] && b != [] && a[0] == b[0]
    ensures a <= b <==> a[1..] <= b[1..]
  {
    assert a == [a[0]] + a[1..] && b == [b[0]] + b[1..];
  }

  /** `StrLe` is the lexicographic order: `a` is a prefix of `b`, or at the
      first position where they differ `a` has the smaller character. */
  lemma {:induction false} StrLeLexicographic(a: string, b: string)
    ensures StrLe(a, b) <==> a <= b || exists i :: FirstDiffLess(a, b, i)
  {
    if a == [] {
    } else if b == [] {
    } else if a[0] != b[0] {
      if StrLe(a, b) {
        assert FirstDiffLess(a, b, 0);
      }
      if i :| FirstDiffLess(a, b, i) {
        FirstDiffLessHead(a, b, i);
      }
    } else {
      StrLeLexicographic(a[1..], b[1..]);
      PrefixTail(a, b);
      if i :| FirstDiffLess(a[1..], b[1..], i) {
        FirstDiffLessTail(a, b, i);
      }
      if i :| FirstDiffLess(a, b, i) {
        assert i != 0;
        FirstDiffLessTail(a, b, i - 1);
      }
    }
  }

  lemma {:induction false} StrLeRefl(a: string)
    ensures StrLe(a, a)
  {
    if a != [] {
      StrLeRefl(a[1..]);
    }
  }

  lemma {:induction false} StrLeTotal(a: string, b: string)
    ensures StrLe(a, b) || StrLe(b, a)
  {
    if a != [] && b != [] && a[0] == b[0] {
      StrLeTotal(a[1..], b[1..]);
    }
  }

  lemma {:induction false} StrLeAntisymmetric(a: string, b: string)
    requires StrLe(a, b) && StrLe(b, a)
    ensures a == b
  {
    if a != [] && b != [] {
      StrLeAntisymmetric(a[1..], b[1..]);
      assert a == [a[0]] + a[1..] && b == [b[0]] + b[1..];
    }
  }

  lemma {:induction false} StrLeTransitive(a: string, b: string, c: string)
    requires StrLe(a, b) && StrLe(b, c)
    ensures StrLe(a, c)
  {
    if a != [] && b != [] && c != [] && a[0] == b[0] && b[0] == c[0] {
      StrLeTransitive(a[1..], b[1..], c[1..]);
    }
  }

  /** `cmp(x[section], y[section]) <= 0` */
  predicate ColumnLe(c: Column, x: Row, y: Row) {
    match c
    case Name => StrLe(x.name, y.name)
    case Path => StrLe(x.dirpath, y.dirpath)
    case Size => x.size <= y.size
    case Date => x.mtime <= y.mtime
  }

  /** `cmp(x[section], y[section]) == 0` */
  predicate SameKey(c: Column, x: Row, y: Row) {
    match c
    case Name => x.name == y.name
    case Path => x.dirpath == y.dirpath
    case Size => x.size == y.size
    case Date => x.mtime == y.mtime
  }

  /** `x` may precede `y` in the sorted list. */
  predicate InOrder(c: Column, order: SortOrder, x: Row, y: Row) {
    if order == Descending then ColumnLe(c, y, x) else ColumnLe(c, x, y)
  }

  lemma InOrderTotal(c: Column, order: SortOrder, x: Row, y: Row)
    ensures InOrder(c, order, x, y) || InOrder(c, order, y, x)
  {
    match c
    case Name => StrLeTotal(x.name, y.name);
    case Path => StrLeTotal(x.dirpath, y.dirpath);
    case Size =>
    case Date =>
  }

  lemma InOrderTransitive(c: Column, order: SortOrder, x: Row, y: Row, z: Row)
    requires InOrder(c, order, x, y) && InOrder(c, order, y, z)
    ensures InOrder(c, order, x, z)
  {
    match c
    case Name =>
      if order == Descending { StrLeTransitive(z.name, y.name, x.name); }
      else { StrLeTransitive(x.name, y.name, z.name); }
    case Path =>
      if order == Descending { StrLeTransitive(z.dirpath, y.dirpath, x.dirpath); }
      else { StrLeTransitive(x.dirpath, y.dirpath, z.dirpath); }
    case Size =>
    case Date =>
  }

  /** Rows are in order both ways exactly when their keys are equal. */
  lemma InOrderBothWays(c: Column, order: SortOrder, x: Row, y: Row)
    ensures InOrder(c, order, x, y) && InOrder(c, order, y, x) <==> SameKey(c, x, y)
  {
    match c
    case Name =>
      StrLeRefl(x.name);
      if StrLe(x.name, y.name) && StrLe(y.name, x.name) { StrLeAntisymmetric(x.name, y.name); }
    case Path =>
      StrLeRefl(x.dirpath);
      if StrLe(x.dirpath, y.dirpath) && StrLe(y.dirpath, x.dirpath) { StrLeAntisymmetric(x.dirpath, y.dirpath); }
    case Size =>
    case Date =>
  }

  /** Every row precedes every later row. */
  predicate Sorted(s: seq<Row>, c: Column, order: SortOrder) {
    forall i, j :: 0 <= i < j < |s| ==> InOrder(c, order, s[i], s[j])
  }

  /** The rows of `s` whose key equals `k`'s, in the order they have in `s`. */
  function KeyClass(s: seq<Row>, c: Column, k: Row): seq<Row> {
    if s == [] then [] else KeyHead(c, k, s[0]) + KeyClass(s[1..], c, k)
  }

  /** `[y]` when `y`'s key equals `k`'s, otherwise nothing. */
  function KeyHead(c: Column, k: Row, y: Row): seq<Row> {
    if SameKey(c, y, k) then [y] else []
  }

  /** Rows with different keys never both belong to one key class. */
  lemma KeyHeadsCommute(c: Column, k: Row, x: Row, y: Row, rest: seq<Row>)
    requires !SameKey(c, x, y)
    ensures KeyHead(c, k, x) + (KeyHead(c, k, y) + rest) == KeyHead(c, k, y) + (KeyHead(c, k, x) + rest)
  {
    assert KeyHead(c, k, x) == [] || KeyHead(c, k, y) == [];
  }

  /** Puts `x` in front of the first row it may precede: after every row with a
      strictly smaller key, before every row with an equal one. */
  function Insert(x: Row, s: seq<Row>, c: Column, order: SortOrder): (r: seq<Row>)
    ensures multiset(r) == multiset(s) + multiset{x}
  {
    if s == [] then [x]
    else if InOrder(c, order, x, s[0]) then [x] + s
    else
      assert s == [s[0]] + s[1..];
      [s[0]] + Insert(x, s[1..], c, order)
  }

  /** The rows of `s` ordered by column `c`, stable; `Descending` reverses the
      key order but not the order of rows with equal keys. */
  function SortRows(s: seq<Row>, c: Column, order: SortOrder): (r: seq<Row>)
    ensures multiset(r) == multiset(s)
  {
    if s == [] then []
    else
      assert s == [s[0]] + s[1..];
      Insert(s[0], SortRows(s[1..], c, order), c, order)
  }

  /** `y` may precede every row of `t`. */
  predicate AllAfter(c: Column, order: SortOrder, y: Row, t: seq<Row>) {
    forall j :: 0 <= j < |t| ==> InOrder(c, order, y, t[j])
  }

  lemma SortedCons(c: Column, order: SortOrder, y: Row, t: seq<Row>)
    requires Sorted(t, c, order) && AllAfter(c, order, y, t)
    ensures Sorted([y] + t, c, order)
  {
    var r := [y] + t;
    forall i, j | 0 <= i < j < |r| ensures InOrder(c, order, r[i], r[j]) {
      assert r[j] == t[j - 1];
      if i > 0 {
        assert r[i] == t[i - 1];
      }
    }
  }

  lemma SortedHeadAllAfter(c: Column, order: SortOrder, s: seq<Row>)
    requires s != [] && Sorted(s, c, order)
    ensures AllAfter(c, order, s[0], s[1..]) && Sorted(s[1..], c, order)
  {
    forall j | 0 <= j < |s[1..]| ensures InOrder(c, order, s[0], s[1..][j]) {
      assert s[1..][j] == s[j + 1];
    }
    SortedTail(s, c, order);
  }

  lemma {:induction false} InsertAllAfter(c: Column, order: SortOrder, y: Row, x: Row, s: seq<Row>)
    requires InOrder(c, order, y, x) && AllAfter(c, order, y, s)
    ensures AllAfter(c, order, y, Insert(x, s, c, order))
  {
    if s != [] && !InOrder(c, order, x, s[0]) {
      assert AllAfter(c, order, y, s[1..]) by {
        forall j | 0 <= j < |s[1..]| ensures InOrder(c, order, y, s[1..][j]) {
          assert s[1..][j] == s[j + 1];
        }
      }
      InsertAllAfter(c, order, y, x, s[1..]);
      var r := [s[0]] + Insert(x, s[1..], c, order);
      forall j | 0 <= j < |r| ensures InOrder(c, order, y, r[j]) {
        if j > 0 {
          assert r[j] == Insert(x, s[1..], c, order)[j - 1];
        }
      }
    }
  }

  lemma {:induction false} InsertSorted(x: Row, s: seq<Row>, c: Column, order: SortOrder)
    requires Sorted(s, c, order)
    ensures Sorted(Insert(x, s, c, order), c, order)
  {
    if s == [] {
    } else if InOrder(c, order, x, s[0]) {
      SortedHeadAllAfter(c, order, s);
      forall j | 0 <= j < |s| ensures InOrder(c, order, x, s[j]) {
        if j > 0 {
          InOrderTransitive(c, order, x, s[0], s[j]);
        }
      }
      SortedCons(c, order, x, s);
    } else {
      InOrderTotal(c, order, x, s[0]);
      SortedHeadAllAfter(c, order, s);
      InsertSorted(x, s[1..], c, order);
      InsertAllAfter(c, order, s[0], x, s[1..]);
      SortedCons(c, order, s[0], Insert(x, s[1..], c, order));
    }
  }

  /** The result is ordered by the column, in the requested direction. */
  lemma {:induction false} SortRowsSorted(s: seq<Row>, c: Column, order: SortOrder)
    ensures Sorted(SortRows(s, c, order), c, order)
  {
    if s != [] {
      SortRowsSorted(s[1..], c, order);
      InsertSorted(s[0], SortRows(s[1..], c, order), c, order);
    }
  }

  lemma KeyClassCons(c: Column, k: Row, y: Row, t: seq<Row>)
    ensures KeyClass([y] + t, c, k) == KeyHead(c, k, y) + KeyClass(t, c, k)
  {
    assert ([y] + t)[0] == y && ([y] + t)[1..] == t;
  }

  lemma {:induction false} KeyClassInsert(x: Row, s: seq<Row>, c: Column, order: SortOrder, k: Row)
    ensures KeyClass(Insert(x, s, c, order), c, k) == KeyHead(c, k, x) + KeyClass(s, c, k)
  {
    if s == [] {
      KeyClassCons(c, k, x, []);
    } else if InOrder(c, order, x, s[0]) {
      KeyClassCons(c, k, x, s);
    } else {
      InOrderBothWays(c, order, x, s[0]);
      KeyClassInsert(x, s[1..], c, order, k);
      KeyClassCons(c, k, s[0], Insert(x, s[1..], c, order));
      assert s == [s[0]] + s[1..];
      KeyClassCons(c, k, s[0], s[1..]);
      KeyHeadsCommute(c, k, x, s[0], KeyClass(s[1..], c, k));
    }
  }

  /** Stability: rows with equal keys keep their original relative order. */
  lemma {:induction false} SortRowsStable(s: seq<Row>, c: Column, order: SortOrder, k: Row)
    ensures KeyClass(SortRows(s, c, order), c, k) == KeyClass(s, c, k)
  {
    if s != [] {
      SortRowsStable(s[1..], c, order, k);
      KeyClassInsert(s[0], SortRows(s[1..], c, order), c, order, k);
    }
  }

  /** Sorting rows that are already in order leaves them unchanged, so a repeated
      identical sort request may be skipped. */
  lemma {:induction false} SortRowsOfSorted(s: seq<Row>, c: Column, order: SortOrder)
    requires Sorted(s, c, order)
    ensures SortRows(s, c, order) == s
  {
    if s != [] {
      SortedTail(s, c, order);
      SortRowsOfSorted(s[1..], c, order);
      if |s| > 1 {
        assert InOrder(c, order, s[0], s[1]);
      }
      assert s == [s[0]] + s[1..];
    }
  }

  lemma SortedTail(r: seq<Row>, c: Column, order: SortOrder)
    requires r != [] && Sorted(r, c, order)
    ensures Sorted(r[1..], c, order)
  {
    forall p, q | 0 <= p < q < |r[1..]| ensures InOrder(c, order, r[1..][p], r[1..][q]) {
      assert r[1..][p] == r[p + 1] && r[1..][q] == r[q + 1];
    }
  }

  /** The first row of a sorted sequence may precede every row of it. */
  lemma SortedHeadFirst(r: seq<Row>, c: Column, order: SortOrder, x: Row)
    requires r != [] && Sorted(r, c, order) && x in multiset(r)
    ensures InOrder(c, order, r[0], x)
  {
    var i :| 0 <= i < |r| && r[i] == x;
    if i == 0 {
      InOrderBothWays(c, order, x, x);
    }
  }

  /** Sorted, stable orderings of the same rows start with the same row. */
  lemma SortedStableSameHead(r1: seq<Row>, r2: seq<Row>, c: Column, order: SortOrder)
    requires r1 != [] && multiset(r1) == multiset(r2)
    requires Sorted(r1, c, order) && Sorted(r2, c, order)
    requires KeyClass(r1, c, r1[0]) == KeyClass(r2, c, r1[0])
    ensures r2 != [] && r1[0] == r2[0]
  {
    assert |multiset(r2)| == |r1|;
    var a, b := r1[0], r2[0];
    assert b in multiset(r1) && a in multiset(r2);
    SortedHeadFirst(r1, c, order, b);
    SortedHeadFirst(r2, c, order, a);
    InOrderBothWays(c, order, a, b);
    InOrderBothWays(c, order, a, a);
    assert KeyClass(r1, c, a)[0] == a;
    assert KeyClass(r2, c, a)[0] == b;
  }

  lemma KeyClassTail(r1: seq<Row>, r2: seq<Row>, c: Column, k: Row)
    requires r1 != [] && r2 != [] && r1[0] == r2[0]
    requires KeyClass(r1, c, k) == KeyClass(r2, c, k)
    ensures KeyClass(r1[1..], c, k) == KeyClass(r2[1..], c, k)
  {
    var h := KeyHead(c, k, r1[0]);
    assert KeyClass(r1, c, k) == h + KeyClass(r1[1..], c, k);
    assert KeyClass(r2, c, k) == h + KeyClass(r2[1..], c, k);
    assert KeyClass(r1[1..], c, k) == KeyClass(r1, c, k)[|h|..];
    assert KeyClass(r2[1..], c, k) == KeyClass(r2, c, k)[|h|..];
  }

  /** Two orderings of the same rows that are both sorted and both keep every
      key class in the same order are the same sequence. */
  lemma {:induction false} SortedStableUnique(r1: seq<Row>, r2: seq<Row>, c: Column, order: SortOrder)
    requires multiset(r1) == multiset(r2)
    requires Sorted(r1, c, order) && Sorted(r2, c, order)
    requires forall k :: KeyClass(r1, c, k) == KeyClass(r2, c, k)
    ensures r1 == r2
    decreases |r1|
  {
    if r1 == [] {
      assert |multiset(r2)| == 0;
    } else {
      SortedStableSameHead(r1, r2, c, order);
      forall k ensures KeyClass(r1[1..], c, k) == KeyClass(r2[1..], c, k) {
        KeyClassTail(r1, r2, c, k);
      }
      MultisetTail(r1, r2);
      SortedTail(r1, c, order);
      SortedTail(r2, c, order);
      SortedStableUnique(r1[1..], r2[1..], c, order);
      assert r1 == [r1[0]] + r1[1..] && r2 == [r2[0]] + r2[1..];
    }
  }

  lemma MultisetTail(r1: seq<Row>, r2: seq<Row>)
    requires r1 != [] && r2 != [] && r1[0] == r2[0] && multiset(r1) == multiset(r2)
    ensures multiset(r1[1..]) == multiset(r2[1..])
  {
    assert r1 == [r1[0]] + r1[1..] && r2 == [r2[0]] + r2[1..];
    assert multiset(r1[1..]) == multiset(r1) - multiset{r1[0]};
    assert multiset(r2[1..]) == multiset(r2) - multiset{r2[0]};
  }

  /** Whatever stable sort produces `r` (ordered, a permutation of `s`, every
      key class in its original order), `r` is `SortRows(s)`. */
  lemma SortRowsUnique(s: seq<Row>, r: seq<Row>, c: Column, order: SortOrder)
    requires multiset(r) == multiset(s)
    requires Sorted(r, c, order)
    requires forall k :: KeyClass(r, c, k) == KeyClass(s, c, k)
    ensures r == SortRows(s, c, order)
  {
    SortRowsSorted(s, c, order);
    forall k ensures KeyClass(r, c, k) == KeyClass(SortRows(s, c, order), c, k) {
      SortRowsStable(s, c, order, k);
    }
    SortedStableUnique(r, SortRows(s, c, order), c, order);
  }

  // ---------------------------------------------------------------------------
  // sorting by several columns

  lemma {:induction false} KeyClassAppend(a: seq<Row>, b: seq<Row>, c: Column, k: Row)
    ensures KeyClass(a + b, c, k) == KeyClass(a, c, k) + KeyClass(b, c, k)
  {
    if a == [] {
      assert a + b == b;
    } else {
      assert (a + b)[0] == a[0] && (a + b)[1..] == a[1..] + b;
      KeyClassAppend(a[1..], b, c, k);
    }
  }

  lemma {:induction false} KeyClassIn(t: seq<Row>, c: Column, k: Row, x: Row)
    requires x in KeyClass(t, c, k)
    ensures x in t
  {
    if x != t[0] {
      KeyClassIn(t[1..], c, k, x);
    }
  }

  /** A key class of rows sorted by one column is itself sorted by it. */
  lemma {:induction false} KeyClassSorted(t: seq<Row>, c1: Column, o1: SortOrder, c2: Column, k: Row)
    requires Sorted(t, c1, o1)
    ensures Sorted(KeyClass(t, c2, k), c1, o1)
  {
    if t != [] {
      SortedHeadAllAfter(c1, o1, t);
      KeyClassSorted(t[1..], c1, o1, c2, k);
      var rest := KeyClass(t[1..], c2, k);
      if SameKey(c2, t[0], k) {
        forall j | 0 <= j < |rest| ensures InOrder(c1, o1, t[0], rest[j]) {
          assert rest[j] in rest;
          KeyClassIn(t[1..], c2, k, rest[j]);
          var m :| 0 <= m < |t[1..]| && t[1..][m] == rest[j];
        }
        SortedCons(c1, o1, t[0], rest);
      }
    }
  }

  /** Two rows of one key class appear in its key class in the order they have in `r`. */
  lemma KeyClassPositions(r: seq<Row>, c: Column, i: nat, j: nat) returns (p: nat, q: nat)
    requires i < j < |r| && SameKey(c, r[i], r[j])
    ensures p < q < |KeyClass(r, c, r[i])|
    ensures KeyClass(r, c, r[i])[p] == r[i] && KeyClass(r, c, r[i])[q] == r[j]
  {
    var k := r[i];
    var a, mid, b := r[..i], r[i + 1..j], r[j + 1..];
    assert r == a + ([r[i]] + (mid + ([r[j]] + b)));
    KeyClassAppend(a, [r[i]] + (mid + ([r[j]] + b)), c, k);
    KeyClassCons(c, k, r[i], mid + ([r[j]] + b));
    KeyClassAppend(mid, [r[j]] + b, c, k);
    KeyClassCons(c, k, r[j], b);
    assert KeyHead(c, k, r[i]) == [r[i]] && KeyHead(c, k, r[j]) == [r[j]];
    p := |KeyClass(a, c, k)|;
    q := p + 1 + |KeyClass(mid, c, k)|;
  }

  /** Sorting by one column and then stably by another orders by the second
      column and, among rows equal there, by the first: how several columns
      are combined, the least important sorted first. */
  lemma SortTwiceByTwoKeys(s: seq<Row>, c1: Column, o1: SortOrder, c2: Column, o2: SortOrder)
    ensures var r := SortRows(SortRows(s, c1, o1), c2, o2);
      && Sorted(r, c2, o2)
      && forall i, j :: 0 <= i < j < |r| && SameKey(c2, r[i], r[j]) ==> InOrder(c1, o1, r[i], r[j])
  {
    var t := SortRows(s, c1, o1);
    var r := SortRows(t, c2, o2);
    SortRowsSorted(s, c1, o1);
    SortRowsSorted(t, c2, o2);
    forall i, j | 0 <= i < j < |r| && SameKey(c2, r[i], r[j]) ensures InOrder(c1, o1, r[i], r[j]) {
      SortRowsStable(t, c2, o2, r[i]);
      KeyClassSorted(t, c1, o1, c2, r[i]);
      var p, q := KeyClassPositions(r, c2, i, j);
    }
  }
}
