/** The two table computations of src/question_3/ques_3.py that feed its
    charts: the TLS subset (lines 106-107) and, per application, the sorted
    timestamps' consecutive differences (lines 94-96). */
module TrafficReports {
  import Seqs
  import PacketCapture

  type Record = PacketCapture.Record

  /** Destination ports counted as TLS traffic. */
  const TlsPorts: seq<nat> := [443, 993, 465, 587, 8443]

  predicate IsTls(r: Record) {
    r.dstPort in TlsPorts
  }

  /** `df[df["Dst_Port"].isin(tls_ports)]`: the TLS rows, in table order.
      Each row occurs as often as in the table when its destination port is
      a TLS port, and not at all otherwise. */
  function TlsSubset(rs: seq<Record>): (t: seq<Record>)
    ensures Seqs.IsSubsequence(t, rs)
    ensures forall x :: multiset(t)[x] == if IsTls(x) then multiset(rs)[x] else 0
  {
    Seqs.FilterIsSubsequence(rs, IsTls);
    Seqs.FilterMultiset(rs, IsTls);
    Seqs.Filter(rs, IsTls)
  }

  /** Taking the TLS subset of a combined table is taking it capture by
      capture. */
  lemma TlsSubsetConcat(a: seq<Record>, b: seq<Record>)
    ensures TlsSubset(a + b) == TlsSubset(a) + TlsSubset(b)
  {
    Seqs.FilterConcat(a, b, IsTls);
  }

  /** `df[df["App"] == app]["Timestamp"]`, in table order. */
  function AppTimestamps(rs: seq<Record>, app: string): (ts: seq<int>)
    ensures var sub := Seqs.Filter(rs, (r: Record) => r.app == app);
      |ts| == |sub| && forall i :: 0 <= i < |sub| ==> ts[i] == sub[i].timestamp
  {
    var sub := Seqs.Filter(rs, (r: Record) => r.app == app);
    seq(|sub|, i requires 0 <= i < |sub| => sub[i].timestamp)
  }

  /** `subset.sort_values("Timestamp")["Timestamp"].diff().dropna()`: one
      value fewer than the app has rows, none negative. */
  function AppInterArrival(rs: seq<Record>, app: string): (d: seq<int>)
    ensures var n := |AppTimestamps(rs, app)|; |d| == if n == 0 then 0 else n - 1
    ensures forall k :: 0 <= k < |d| ==> d[k] >= 0
  {
    var s := Seqs.Sort(AppTimestamps(rs, app));
    Seqs.SortedDiffsNonNegative(s);
    Seqs.ConsecutiveDiffs(s)
  }

  /** The differences of an app add up to the span of its timestamps: its
      latest minus its earliest. */
  lemma AppInterArrivalSpan(rs: seq<Record>, app: string)
    requires |AppTimestamps(rs, app)| > 0
    ensures var ts := AppTimestamps(rs, app);
      exists lo, hi :: Seqs.IsSpan(ts, lo, hi) && Seqs.Sum(AppInterArrival(rs, app)) == hi - lo
  {
    var ts := AppTimestamps(rs, app);
    assert AppInterArrival(rs, app) == Seqs.ConsecutiveDiffs(Seqs.Sort(ts));
    Seqs.SortedSpan(ts);
  }

  /** The `App` column. */
  function Apps(rs: seq<Record>): (apps: seq<string>)
    ensures |apps| == |rs| && forall i :: 0 <= i < |rs| ==> apps[i] == rs[i].app
  {
    seq(|rs|, i requires 0 <= i < |rs| => rs[i].app)
  }

  /** `Series.unique()`: each value once, in order of first appearance. */
  function Unique(xs: seq<string>): (u: seq<string>)
    ensures forall x :: x in u <==> x in xs
    ensures forall i, j :: 0 <= i < j < |u| ==> u[i] != u[j]
    ensures forall i, j :: 0 <= i < j < |u| ==> Seqs.FirstIndex(xs, u[i]) < Seqs.FirstIndex(xs, u[j])
  {
    if |xs| == 0 then []
    else
      var n := |xs| - 1;
      var p, y := xs[..n], xs[n];
      var u := Unique(p);
      assert xs == p + [y];
      assert forall x :: x in xs <==> x in p || x == y;
      forall x | x in p ensures Seqs.FirstIndex(xs, x) == Seqs.FirstIndex(p, x) {
        Seqs.FirstIndexPrefix(p, [y], x);
      }
      if y in u then u
      else
        assert Seqs.FirstIndex(xs, y) == n;
        u + [y]
  }

  /** Lines 94-96: one series per application present, in order of first
      appearance in the `App` column; each is that application's sorted,
      differenced timestamps. */
  function InterArrivalSeries(rs: seq<Record>): (series: seq<(string, seq<int>)>)
    ensures forall i :: 0 <= i < |series| ==> series[i].0 in Apps(rs)
    ensures forall i, j :: 0 <= i < j < |series| ==>
      Seqs.FirstIndex(Apps(rs), series[i].0) < Seqs.FirstIndex(Apps(rs), series[j].0)
    ensures forall i :: 0 <= i < |series| ==> series[i].1 == AppInterArrival(rs, series[i].0)
    ensures forall i :: 0 <= i < |series| ==>
      |series[i].1| == |AppTimestamps(rs, series[i].0)| - 1
  {
    var apps := Unique(Apps(rs));
    forall i | 0 <= i < |apps| ensures |AppTimestamps(rs, apps[i])| > 0 {
      AppPresentHasRows(rs, apps[i]);
    }
    seq(|apps|, i requires 0 <= i < |apps| => (apps[i], AppInterArrival(rs, apps[i])))
  }

  /** Every application of the table gets a series. */
  lemma InterArrivalSeriesCovers(rs: seq<Record>, app: string)
    requires app in Apps(rs)
    ensures exists i :: 0 <= i < |InterArrivalSeries(rs)| && InterArrivalSeries(rs)[i].0 == app
  {
    var apps := Unique(Apps(rs));
    var i :| 0 <= i < |apps| && apps[i] == app;
    assert InterArrivalSeries(rs)[i].0 == app;
  }

  lemma AppPresentHasRows(rs: seq<Record>, app: string)
    requires app in Apps(rs)
    ensures |AppTimestamps(rs, app)| > 0
  {
    var i :| 0 <= i < |rs| && Apps(rs)[i] == app;
    assert rs[i] in Seqs.Filter(rs, (r: Record) => r.app == app);
  }
}
