/** The forward-only scan behind `filterMoreRows`: a cursor into the rows, the
    list of indices of rows that passed the test so far, and where one call
    that asks for `count` more rows stops. Stated for any row test `keep`;
    the table model uses the filter-word test. */
module Cursor {

  /** The indices in `[lo, hi)` of rows that pass `keep`, in scan order: what
      `filterMoreRows` appends to `filtered_rows` while it scans from `lo` to `hi`. */
  function MatchingIndices<T>(rows: seq<T>, keep: T -> bool, lo: nat, hi: nat): (r: seq<nat>)
    requires lo <= hi <= |rows|
    ensures |r| <= hi - lo
    decreases hi
  {
    if hi == lo then []
    else MatchingIndices(rows, keep, lo, hi - 1) + (if keep(rows[hi - 1]) then [hi - 1] else [])
  }

  predicate Increasing(s: seq<nat>) {
    forall a, b :: 0 <= a < b < |s| ==> s[a] < s[b]
  }

  /** The list holds exactly the indices in `[lo, hi)` whose rows pass, strictly increasing. */
  lemma {:induction false} MatchingIndicesSpec<T>(rows: seq<T>, keep: T -> bool, lo: nat, hi: nat)
    requires lo <= hi <= |rows|
    ensures forall k :: 0 <= k < |MatchingIndices(rows, keep, lo, hi)| ==>
              var i := MatchingIndices(rows, keep, lo, hi)[k]; lo <= i < hi && keep(rows[i])
    ensures Increasing(MatchingIndices(rows, keep, lo, hi))
    ensures forall i :: lo <= i < hi && keep(rows[i]) ==> i in MatchingIndices(rows, keep, lo, hi)
    decreases hi
  {
    if hi > lo {
      var prev := MatchingIndices(rows, keep, lo, hi - 1);
      MatchingIndicesSpec(rows, keep, lo, hi - 1);
      var r := MatchingIndices(rows, keep, lo, hi);
      forall k | 0 <= k < |r| ensures lo <= r[k] < hi && keep(rows[r[k]]) {
        if k < |prev| {
          assert r[k] == prev[k];
        } else {
          assert r[k] == hi - 1 && keep(rows[hi - 1]);
        }
      }
    }
  }

  /** Scanning `[lo, mid)` and then `[mid, hi)` finds what scanning `[lo, hi)` finds. */
  lemma {:induction false} MatchingIndicesAppend<T>(rows: seq<T>, keep: T -> bool, lo: nat, mid: nat, hi: nat)
    requires lo <= mid <= hi <= |rows|
    ensures MatchingIndices(rows, keep, lo, mid) + MatchingIndices(rows, keep, mid, hi)
         == MatchingIndices(rows, keep, lo, hi)
    decreases hi
  {
    if hi == mid {
      assert MatchingIndices(rows, keep, lo, mid) + [] == MatchingIndices(rows, keep, lo, mid);
    } else {
      MatchingIndicesAppend(rows, keep, lo, mid, hi - 1);
    }
  }

  /** Where a scan that starts at `from` and wants `count` more passing rows
      stops: just past the `count`-th passing row, or at the end of the rows. */
  function ScanEnd<T>(rows: seq<T>, keep: T -> bool, from: nat, count: int): (e: nat)
    requires from <= |rows|
    ensures from <= e <= |rows|
    decreases |rows| - from
  {
    if from == |rows| || count <= 0 then from
    else if keep(rows[from]) then ScanEnd(rows, keep, from + 1, count - 1)
    else ScanEnd(rows, keep, from + 1, count)
  }

  /** One step of the scan: a row is looked at, and counted when it passes. */
  lemma ScanEndStep<T>(rows: seq<T>, keep: T -> bool, from: nat, count: int)
    requires from < |rows| && count > 0
    ensures ScanEnd(rows, keep, from, count)
         == ScanEnd(rows, keep, from + 1, if keep(rows[from]) then count - 1 else count)
  {
  }

  /** Asking for no rows does not move the scan; otherwise it adds at most
      `count` rows, falls short of `count` only at the end of the rows, and
      stops right after the `count`-th passing row. */
  lemma {:induction false} ScanEndCount<T>(rows: seq<T>, keep: T -> bool, from: nat, count: int)
    requires from <= |rows|
    ensures count <= 0 ==> ScanEnd(rows, keep, from, count) == from
    ensures count > 0 ==> |MatchingIndices(rows, keep, from, ScanEnd(rows, keep, from, count))| <= count
    ensures ScanEnd(rows, keep, from, count) < |rows| && count > 0 ==>
              |MatchingIndices(rows, keep, from, ScanEnd(rows, keep, from, count))| == count
    ensures ScanEnd(rows, keep, from, count) > from ==>
              |MatchingIndices(rows, keep, from, ScanEnd(rows, keep, from, count) - 1)| < count
    decreases |rows| - from
  {
    if from < |rows| && count > 0 {
      var m := keep(rows[from]);
      var rest := if m then count - 1 else count;
      var e := ScanEnd(rows, keep, from + 1, rest);
      ScanEndCount(rows, keep, from + 1, rest);
      MatchingIndicesAppend(rows, keep, from, from + 1, e);
      assert |MatchingIndices(rows, keep, from, from + 1)| == if m then 1 else 0;
      if e > from + 1 {
        MatchingIndicesAppend(rows, keep, from, from + 1, e - 1);
      }
    }
  }

  /** Fetching `a` rows and then `b` more ends where fetching `a + b` at once
      ends: how the rows are paged does not change which rows are shown. */
  lemma {:induction false} ScanEndCompose<T>(rows: seq<T>, keep: T -> bool, from: nat, a: nat, b: nat)
    requires from <= |rows|
    ensures ScanEnd(rows, keep, ScanEnd(rows, keep, from, a), b) == ScanEnd(rows, keep, from, a + b)
    decreases |rows| - from
  {
    if from == |rows| || a == 0 {
    } else if keep(rows[from]) {
      ScanEndCompose(rows, keep, from + 1, a - 1, b);
    } else {
      ScanEndCompose(rows, keep, from + 1, a, b);
    }
  }

  /** The loop of `filterMoreRows`: starting at row `from`, test row after row
      until `count` rows have passed or the rows run out. Returns where it
      stopped and the indices of the rows that passed, in scan order. */
  method Scan<T>(rows: seq<T>, keep: T -> bool, from: nat, count: int) returns (loaded: nat, found: seq<nat>)
    requires from <= |rows|
    ensures from <= loaded <= |rows|
    ensures loaded == ScanEnd(rows, keep, from, count)
    ensures found == MatchingIndices(rows, keep, from, loaded)
  {
    loaded := from;
    found := [];
    var filtered := 0;
    while loaded < |rows| && filtered < count
      invariant from <= loaded <= |rows|
      invariant found == MatchingIndices(rows, keep, from, loaded)
      invariant filtered == |found|
      invariant ScanEnd(rows, keep, from, count) == ScanEnd(rows, keep, loaded, count - filtered)
      decreases |rows| - loaded
    {
      ScanEndStep(rows, keep, loaded, count - filtered);
      if keep(rows[loaded]) {
        found := found + [loaded];
        filtered := filtered + 1;
      }
      loaded := loaded + 1;
    }
  }
}
