/** The `Inter-Arrival Time` column of src/question_4/ques_4.py line 40:
    `df.groupby('Flow ID Hash')['Timestamp'].diff().fillna(0)`.
    Rows are grouped by their flow identifier and differenced in TABLE
    order (there is no sort by timestamp): each row gets its timestamp
    minus that of the latest earlier row with the same identifier, and the
    first row of each identifier gets 0. The output keeps the input's rows
    and order. */
module InterArrival {
  import opened Results
  import Seqs

  /** The latest row of `ids` carrying identifier `g`, if there is one. */
  function LastIndexOf(ids: seq<nat>, g: nat): (r: Option<nat>)
    ensures r.Some? ==> r.value < |ids| && ids[r.value] == g
    ensures r.Some? ==> forall k :: r.value < k < |ids| ==> ids[k] != g
    ensures r.None? <==> forall k :: 0 <= k < |ids| ==> ids[k] != g
  {
    if |ids| == 0 then None
    else if ids[|ids| - 1] == g then Some(|ids| - 1)
    else LastIndexOf(ids[..|ids| - 1], g)
  }

  /** The value row `i` receives. */
  function GapAt(ids: seq<nat>, ts: seq<int>, i: nat): int
    requires |ids| == |ts| && i < |ids|
  {
    match LastIndexOf(ids[..i], ids[i])
    case None => 0
    case Some(j) => ts[i] - ts[j]
  }

  /** The whole column, one value per row. */
  function Column(ids: seq<nat>, ts: seq<int>): (col: seq<int>)
    requires |ids| == |ts|
    ensures |col| == |ids|
  {
    seq(|ids|, i requires 0 <= i < |ids| => GapAt(ids, ts, i))
  }

  /** The single pass pandas makes: a table of the last timestamp seen per
      identifier, updated row by row. */
  method ComputeColumn(ids: seq<nat>, ts: seq<int>) returns (col: seq<int>)
    requires |ids| == |ts|
    ensures |col| == |ids|
    ensures forall i :: 0 <= i < |ids| && LastIndexOf(ids[..i], ids[i]).None? ==> col[i] == 0
    ensures forall i :: 0 <= i < |ids| && LastIndexOf(ids[..i], ids[i]).Some? ==>
              col[i] == ts[i] - ts[LastIndexOf(ids[..i], ids[i]).value]
  {
    var last: map<nat, int> := map[];
    col := [];
    var i := 0;
    while i < |ids|
      invariant 0 <= i <= |ids|
      invariant |col| == i
      invariant forall k :: 0 <= k < i ==> col[k] == GapAt(ids, ts, k)
      invariant Tracks(last, ids, ts, i)
    {
      var g := ids[i];
      TracksStep(last, ids, ts, i);
      var gap := if g in last then ts[i] - last[g] else 0;
      col := col + [gap];
      last := last[g := ts[i]];
      i := i + 1;
    }
  }

  /** `last` maps exactly the identifiers of the first `i` rows, each to the
      timestamp of its latest row among them. */
  ghost predicate Tracks(last: map<nat, int>, ids: seq<nat>, ts: seq<int>, i: nat)
    requires |ids| == |ts| && i <= |ids|
  {
    forall g :: (g in last <==> LastIndexOf(ids[..i], g).Some?)
             && (g in last ==> last[g] == ts[LastIndexOf(ids[..i], g).value])
  }

  /** One row of the pass: the table gives the row's value, and recording
      the row's timestamp keeps the table up to date. */
  lemma TracksStep(last: map<nat, int>, ids: seq<nat>, ts: seq<int>, i: nat)
    requires |ids| == |ts| && i < |ids| && Tracks(last, ids, ts, i)
    ensures GapAt(ids, ts, i) == if ids[i] in last then ts[i] - last[ids[i]] else 0
    ensures Tracks(last[ids[i] := ts[i]], ids, ts, i + 1)
  {
    var last' := last[ids[i] := ts[i]];
    LastIndexSnoc(ids, i);
    forall g
      ensures (g in last' <==> LastIndexOf(ids[..i + 1], g).Some?)
           && (g in last' ==> last'[g] == ts[LastIndexOf(ids[..i + 1], g).value])
    {
      if g != ids[i] {
        assert LastIndexOf(ids[..i + 1], g) == LastIndexOf(ids[..i], g);
      }
    }
  }

  /** Looking back from one row further down finds that row for its own
      identifier and the same row as before for every other. */
  lemma LastIndexSnoc(ids: seq<nat>, i: nat)
    requires i < |ids|
    ensures forall g :: LastIndexOf(ids[..i + 1], g) == if g == ids[i] then Some(i) else LastIndexOf(ids[..i], g)
  {
    var p := ids[..i + 1];
    assert p[..i] == ids[..i] && p[i] == ids[i];
    forall g ensures LastIndexOf(p, g) == if g == ids[i] then Some(i) else LastIndexOf(ids[..i], g) {
    }
  }

  /** Rows of `xs` whose identifier is `g`, in table order. */
  function Select<T>(ids: seq<nat>, xs: seq<T>, g: nat): seq<T>
    requires |ids| == |xs|
  {
    if |ids| == 0 then []
    else
      Select(ids[..|ids| - 1], xs[..|xs| - 1], g) + (if ids[|ids| - 1] == g then [xs[|xs| - 1]] else [])
  }

  /** `diff().fillna(0)` on one group: 0, then the consecutive differences. */
  function FilledDiff(s: seq<int>): seq<int> {
    if |s| == 0 then [] else [0] + Seqs.ConsecutiveDiffs(s)
  }

  /** Rows with identifier `g` exist before position `n` exactly when the
      selected group is non-empty, and the latest one supplies its last
      timestamp. */
  lemma {:induction false} SelectLast(ids: seq<nat>, ts: seq<int>, g: nat)
    requires |ids| == |ts|
    ensures var s := Select(ids, ts, g);
      && (|s| == 0 <==> LastIndexOf(ids, g).None?)
      && (|s| > 0 ==> s[|s| - 1] == ts[LastIndexOf(ids, g).value])
  {
    if |ids| > 0 {
      SelectLast(ids[..|ids| - 1], ts[..|ts| - 1], g);
    }
  }

  lemma ColumnSnoc(ids: seq<nat>, ts: seq<int>)
    requires |ids| == |ts| > 0
    ensures Column(ids, ts) == Column(ids[..|ids| - 1], ts[..|ts| - 1]) + [GapAt(ids, ts, |ids| - 1)]
  {
    var n := |ids| - 1;
    forall i | 0 <= i < n ensures GapAt(ids, ts, i) == GapAt(ids[..n], ts[..n], i) {
      assert ids[..n][..i] == ids[..i];
    }
  }

  lemma FilledDiffSnoc(s: seq<int>, t: int)
    ensures FilledDiff(s + [t]) == FilledDiff(s) + [if |s| == 0 then 0 else t - s[|s| - 1]]
  {
    var u := s + [t];
    var d := FilledDiff(u);
    var e := FilledDiff(s) + [if |s| == 0 then 0 else t - s[|s| - 1]];
    assert |d| == |e|;
    forall k | 0 <= k < |d| ensures d[k] == e[k] {
      if k > 0 {
        assert d[k] == u[k] - u[k - 1];
        if k < |s| {
          assert e[k] == s[k] - s[k - 1];
        }
      }
    }
  }

  /** Grouping and differencing commute: the column restricted to one
      identifier is exactly that identifier's timestamps, in table order,
      differenced with a leading 0. This is pandas' split-apply-combine. */
  lemma {:induction false} ColumnIsGroupwiseDiff(ids: seq<nat>, ts: seq<int>, g: nat)
    requires |ids| == |ts|
    ensures Select(ids, Column(ids, ts), g) == FilledDiff(Select(ids, ts, g))
  {
    if |ids| > 0 {
      var n := |ids| - 1;
      ColumnIsGroupwiseDiff(ids[..n], ts[..n], g);
      GroupwiseStep(ids, ts, g);
    }
  }

  /** One more row extends both sides alike. */
  lemma GroupwiseStep(ids: seq<nat>, ts: seq<int>, g: nat)
    requires |ids| == |ts| > 0
    requires var n := |ids| - 1;
      Select(ids[..n], Column(ids[..n], ts[..n]), g) == FilledDiff(Select(ids[..n], ts[..n], g))
    ensures Select(ids, Column(ids, ts), g) == FilledDiff(Select(ids, ts, g))
  {
    var n := |ids| - 1;
    var sel := Select(ids[..n], ts[..n], g);
    SelectColumnSnoc(ids, ts, g);
    if ids[n] == g {
      GapFromGroup(ids, ts);
      FilledDiffSnoc(sel, ts[n]);
      assert Select(ids, ts, g) == sel + [ts[n]];
    } else {
      assert Select(ids, ts, g) == sel;
    }
  }

  /** Selecting from the column peels off its last row like any other
      sequence. */
  lemma SelectColumnSnoc(ids: seq<nat>, ts: seq<int>, g: nat)
    requires |ids| == |ts| > 0
    ensures var n := |ids| - 1;
      Select(ids, Column(ids, ts), g)
        == Select(ids[..n], Column(ids[..n], ts[..n]), g) + (if ids[n] == g then [GapAt(ids, ts, n)] else [])
  {
    var n := |ids| - 1;
    var col := Column(ids, ts);
    ColumnSnoc(ids, ts);
    assert col[..n] == Column(ids[..n], ts[..n]);
  }

  /** The last row's value, read off its group's earlier timestamps. */
  lemma GapFromGroup(ids: seq<nat>, ts: seq<int>)
    requires |ids| == |ts| > 0
    ensures var n := |ids| - 1;
      var sel := Select(ids[..n], ts[..n], ids[n]);
      GapAt(ids, ts, n) == if |sel| == 0 then 0 else ts[n] - sel[|sel| - 1]
  {
    var n := |ids| - 1;
    SelectLast(ids[..n], ts[..n], ids[n]);
  }

  /** Each identifier's rows: table order, each row a timestamp no earlier
      than those of the earlier rows with that identifier. */
  predicate NonDecreasingPerFlow(ids: seq<nat>, ts: seq<int>)
    requires |ids| == |ts|
  {
    forall j, i :: 0 <= j < i < |ids| && ids[j] == ids[i] ==> ts[j] <= ts[i]
  }

  /** With per-flow non-decreasing timestamps no gap is negative. */
  lemma ColumnNonNegative(ids: seq<nat>, ts: seq<int>)
    requires |ids| == |ts| && NonDecreasingPerFlow(ids, ts)
    ensures forall i :: 0 <= i < |ids| ==> Column(ids, ts)[i] >= 0
  {
  }

  /** Rows appended below do not change the values of the rows above. */
  lemma ColumnPrefixStable(ids: seq<nat>, ts: seq<int>, moreIds: seq<nat>, moreTs: seq<int>)
    requires |ids| == |ts| && |moreIds| == |moreTs|
    ensures Column(ids + moreIds, ts + moreTs)[..|ids|] == Column(ids, ts)
  {
    var a, b := ids + moreIds, ts + moreTs;
    forall i | 0 <= i < |ids| ensures GapAt(a, b, i) == GapAt(ids, ts, i) {
      assert a[..i] == ids[..i];
    }
  }

  /** A row of identifier `x` inserted at position `k` leaves the value of
      every row of any other identifier unchanged: rows above keep their
      place, rows below move down by one. */
  lemma ColumnInsertOther(ids: seq<nat>, ts: seq<int>, k: nat, x: nat, t: int)
    requires |ids| == |ts| && k <= |ids|
    ensures var col := Column(ids, ts);
      var col' := Column(ids[..k] + [x] + ids[k..], ts[..k] + [t] + ts[k..]);
      && |col'| == |col| + 1
      && (forall i :: 0 <= i < k ==> col'[i] == col[i])
      && (forall i :: k <= i < |ids| && ids[i] != x ==> col'[i + 1] == col[i])
  {
    var ids', ts' := ids[..k] + [x] + ids[k..], ts[..k] + [t] + ts[k..];
    var col, col' := Column(ids, ts), Column(ids', ts');
    forall i | 0 <= i < k ensures col'[i] == col[i] {
      GapAboveInsert(ids, ts, k, x, t, i);
    }
    forall i | k <= i < |ids| && ids[i] != x ensures col'[i + 1] == col[i] {
      GapBelowInsert(ids, ts, k, x, t, i);
    }
  }

  lemma GapAboveInsert(ids: seq<nat>, ts: seq<int>, k: nat, x: nat, t: int, i: nat)
    requires |ids| == |ts| && i < k <= |ids|
    ensures GapAt(ids[..k] + [x] + ids[k..], ts[..k] + [t] + ts[k..], i) == GapAt(ids, ts, i)
  {
    var ids', ts' := ids[..k] + [x] + ids[k..], ts[..k] + [t] + ts[k..];
    assert ids'[..i] == ids[..i];
    assert ids'[i] == ids[i];
    assert forall m :: 0 <= m <= i ==> ts'[m] == ts[m];
  }

  lemma GapBelowInsert(ids: seq<nat>, ts: seq<int>, k: nat, x: nat, t: int, i: nat)
    requires |ids| == |ts| && k <= i < |ids| && ids[i] != x
    ensures GapAt(ids[..k] + [x] + ids[k..], ts[..k] + [t] + ts[k..], i + 1) == GapAt(ids, ts, i)
  {
    var ids', ts' := ids[..k] + [x] + ids[k..], ts[..k] + [t] + ts[k..];
    LastIndexAfterInsert(ids, k, x, i);
    assert ids'[i + 1] == ids[i];
    assert ts'[i + 1] == ts[i];
    match LastIndexOf(ids[..i], ids[i])
    case None =>
    case Some(j) =>
      var j' := if j < k then j else j + 1;
      assert ts'[j'] == ts[j];
  }

  /** Looking back from row `i` after an insertion at `k <= i` of another
      identifier finds the same row, shifted when it lies at or after `k`. */
  lemma LastIndexAfterInsert(ids: seq<nat>, k: nat, x: nat, i: nat)
    requires k <= i < |ids| && ids[i] != x
    ensures var ids' := ids[..k] + [x] + ids[k..];
      var r, r' := LastIndexOf(ids[..i], ids[i]), LastIndexOf(ids'[..i + 1], ids[i]);
      && ids'[i + 1] == ids[i]
      && r'.Some? == r.Some?
      && (r.Some? ==> r'.value == if r.value < k then r.value else r.value + 1)
  {
    var ids' := ids[..k] + [x] + ids[k..];
    var g := ids[i];
    var p, p' := ids[..i], ids'[..i + 1];
    assert |p'| == i + 1;
    assert forall m :: 0 <= m < k ==> p'[m] == p[m];
    assert p'[k] == x;
    assert forall m :: k < m <= i ==> p'[m] == p[m - 1];
    assert ids'[i + 1] == ids[i];
    var r, r' := LastIndexOf(p, g), LastIndexOf(p', g);
    if r.Some? {
      var j := r.value;
      var j' := if j < k then j else j + 1;
      assert p'[j'] == g;
    }
    if r'.Some? {
      var j' := r'.value;
      var j := if j' < k then j' else j' - 1;
      assert p[j] == g;
    }
  }
}
