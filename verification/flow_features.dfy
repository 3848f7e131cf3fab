/** The feature preparation of src/question_4/ques_4.py, lines 24-50: the
    input guard, address conversion, flow key and identifier, the
    inter-arrival column, the two feature subsets and the label column.
    Every early `exit()` and every uncaught exception becomes an `Err`. */
module FlowFeatures {
  import opened Results
  import Ipv4
  import FlowKeys
  import InterArrival

  /** One row of `combined_dataset.csv`, its cells already typed. A cell of a
      column missing from the header is never read. */
  datatype CsvRow = CsvRow(
    timestamp: int,
    size: int,
    sourceIp: string,
    destIp: string,
    sourcePort: nat,
    destPort: nat,
    classification: int)

  /** The loaded table: its header and its rows. */
  datatype Dataset = Dataset(columns: set<string>, rows: seq<CsvRow>)

  datatype PrepareError =
    | EmptyOrMissingEssential      // the guard of line 25
    | MissingColumn(name: string)  // a KeyError on a column the script reads
    | AddressRejected(cause: Ipv4.AddressError)  // the OSError of ip_to_int

  /** The columns a feature subset is made of. */
  datatype Feature = Size | Timestamp | FlowIdHash | InterArrivalTime

  function ColumnName(f: Feature): string {
    match f
    case Size => "Size"
    case Timestamp => "Timestamp"
    case FlowIdHash => "Flow ID Hash"
    case InterArrivalTime => "Inter-Arrival Time"
  }

  /** Case 1 (line 44) and case 2 (line 47). */
  const Case1: seq<Feature> := [Size, Timestamp, FlowIdHash, InterArrivalTime]
  const Case2: seq<Feature> := [Size, Timestamp, InterArrivalTime]

  /** The numeric columns of the enriched table that the subsets draw on. */
  datatype FlowRow = FlowRow(size: int, timestamp: int, flowIdHash: nat, interArrival: int)

  function Cell(r: FlowRow, f: Feature): int {
    match f
    case Size => r.size
    case Timestamp => r.timestamp
    case FlowIdHash => r.flowIdHash
    case InterArrivalTime => r.interArrival
  }

  /** `df[[...]]`: every row, restricted to the named columns in that order. */
  function Project(rows: seq<FlowRow>, cols: seq<Feature>): (m: seq<seq<int>>)
    ensures |m| == |rows|
    ensures forall i :: 0 <= i < |m| ==> |m[i]| == |cols|
    ensures forall i, k :: 0 <= i < |rows| && 0 <= k < |cols| ==> m[i][k] == Cell(rows[i], cols[k])
  {
    seq(|rows|, i requires 0 <= i < |rows| => seq(|cols|, k requires 0 <= k < |cols| => Cell(rows[i], cols[k])))
  }

  /** What the script hands to the classifiers. */
  datatype Prepared = Prepared(
    flowRows: seq<FlowRow>,
    features1: seq<seq<int>>,
    features2: seq<seq<int>>,
    labels: seq<int>)

  /** Whether `ip_to_int` accepts every address of a column. */
  predicate AllConvertible(ips: seq<string>) {
    forall i :: 0 <= i < |ips| ==> Ipv4.IpToInt(ips[i]).Ok?
  }

  /** `Series.apply(ip_to_int)`: every address converted, or the error for
      the first one that cannot be. */
  function ConvertAll(ips: seq<string>): (r: Result<seq<nat>, PrepareError>)
    ensures r.Ok? ==> |r.value| == |ips|
    ensures r.Err? ==> r.error.AddressRejected?
  {
    if |ips| == 0 then Ok([])
    else
      match Ipv4.IpToInt(ips[0])
      case Err(e) => Err(AddressRejected(e))
      case Ok(v) =>
        var vs :- ConvertAll(ips[1..]);
        Ok([v] + vs)
  }

  /** The column converts exactly when every address does, each to its own
      value. */
  lemma {:induction false} ConvertAllOk(ips: seq<string>)
    ensures ConvertAll(ips).Ok? <==> AllConvertible(ips)
    ensures ConvertAll(ips).Ok? ==>
      forall i :: 0 <= i < |ips| ==> Ipv4.IpToInt(ips[i]) == Ok(ConvertAll(ips).value[i])
  {
    if |ips| > 0 {
      ConvertAllOk(ips[1..]);
      assert forall k :: 1 <= k < |ips| ==> ips[k] == ips[1..][k - 1];
    }
  }

  /** A failing column reports the first address `ip_to_int` rejects. */
  lemma {:induction false} ConvertAllFirstError(ips: seq<string>)
    requires ConvertAll(ips).Err?
    ensures exists i :: 0 <= i < |ips| && ConvertAll(ips).error == AddressRejected(Ipv4.IllegalAddress(ips[i]))
                     && Ipv4.IpToInt(ips[i]).Err? && AllConvertible(ips[..i])
  {
    if Ipv4.IpToInt(ips[0]).Err? {
      assert AllConvertible(ips[..0]);
    } else {
      var rest := ips[1..];
      assert ConvertAll(ips) == ConvertAll(rest).PropagateFailure();
      ConvertAllFirstError(rest);
      var i :| 0 <= i < |rest| && ConvertAll(rest).error == AddressRejected(Ipv4.IllegalAddress(rest[i]))
               && Ipv4.IpToInt(rest[i]).Err? && AllConvertible(rest[..i]);
      assert ips[i + 1] == rest[i];
      var before := ips[..i + 1];
      forall k | 0 <= k < i + 1 ensures Ipv4.IpToInt(before[k]).Ok? {
        if k > 0 {
          assert before[k] == rest[..i][k - 1];
        }
      }
    }
  }

  /** The `Source IP` column. */
  function SourceIps(rows: seq<CsvRow>): (ips: seq<string>)
    ensures |ips| == |rows| && forall i :: 0 <= i < |rows| ==> ips[i] == rows[i].sourceIp
  {
    seq(|rows|, i requires 0 <= i < |rows| => rows[i].sourceIp)
  }

  /** The `Dest IP` column. */
  function DestIps(rows: seq<CsvRow>): (ips: seq<string>)
    ensures |ips| == |rows| && forall i :: 0 <= i < |rows| ==> ips[i] == rows[i].destIp
  {
    seq(|rows|, i requires 0 <= i < |rows| => rows[i].destIp)
  }

  /** The `Flow ID Hash` of one row, given its converted addresses. */
  function RowFlowId(src: nat, dst: nat, row: CsvRow, sha256: string -> FlowKeys.HexDigest): nat {
    FlowKeys.FlowIdHash(FlowKeys.FlowKey(FlowKeys.FourTuple(src, dst, row.sourcePort, row.destPort)), sha256)
  }

  /** Whether the guard of line 25 stops the script. */
  predicate GuardRejects(d: Dataset) {
    |d.rows| == 0 || "Size" !in d.columns || "Timestamp" !in d.columns
  }

  /** The other columns the script reads, in the order it reads them. */
  const ReadColumns: seq<string> := ["Source IP", "Dest IP", "Source Port", "Dest Port", "Classification"]

  function Timestamps(rows: seq<CsvRow>): (ts: seq<int>)
    ensures |ts| == |rows| && forall i :: 0 <= i < |rows| ==> ts[i] == rows[i].timestamp
  {
    seq(|rows|, i requires 0 <= i < |rows| => rows[i].timestamp)
  }

  function FlowIds(frs: seq<FlowRow>): (ids: seq<nat>)
    ensures |ids| == |frs| && forall i :: 0 <= i < |frs| ==> ids[i] == frs[i].flowIdHash
  {
    seq(|frs|, i requires 0 <= i < |frs| => frs[i].flowIdHash)
  }

  /** Lines 34-40 once both address columns are converted: each row gets its
      identifier and its gap to the latest earlier row of that identifier. */
  function Enrich(rows: seq<CsvRow>, srcs: seq<nat>, dsts: seq<nat>, sha256: string -> FlowKeys.HexDigest)
    : (frs: seq<FlowRow>)
    requires |srcs| == |dsts| == |rows|
    ensures |frs| == |rows|
    ensures forall i :: 0 <= i < |rows| ==>
      && frs[i].size == rows[i].size
      && frs[i].timestamp == rows[i].timestamp
      && frs[i].flowIdHash == RowFlowId(srcs[i], dsts[i], rows[i], sha256)
      && frs[i].interArrival == InterArrival.GapAt(FlowIds(frs), Timestamps(rows), i)
  {
    var n := |rows|;
    var ids := seq(n, i requires 0 <= i < n => RowFlowId(srcs[i], dsts[i], rows[i], sha256));
    var gaps := InterArrival.Column(ids, Timestamps(rows));
    var frs := seq(n, i requires 0 <= i < n => FlowRow(rows[i].size, rows[i].timestamp, ids[i], gaps[i]));
    assert FlowIds(frs) == ids;
    frs
  }

  /** Lines 24-50: the table as the classifiers receive it, one feature row
      and one label per input row. */
  function Prepare(d: Dataset, sha256: string -> FlowKeys.HexDigest): (r: Result<Prepared, PrepareError>)
    ensures r.Ok? ==>
      && |r.value.flowRows| == |r.value.labels| == |d.rows|
      && |r.value.features1| == |r.value.features2| == |d.rows|
  {
    if GuardRejects(d) then Err(EmptyOrMissingEssential)
    else if "Source IP" !in d.columns then Err(MissingColumn("Source IP"))
    else
      var srcs :- ConvertAll(SourceIps(d.rows));
      if "Dest IP" !in d.columns then Err(MissingColumn("Dest IP"))
      else
        var dsts :- ConvertAll(DestIps(d.rows));
        if "Source Port" !in d.columns then Err(MissingColumn("Source Port"))
        else if "Dest Port" !in d.columns then Err(MissingColumn("Dest Port"))
        else if "Classification" !in d.columns then Err(MissingColumn("Classification"))
        else Ok(Assemble(d.rows, srcs, dsts, sha256))
  }

  /** Lines 34-50 once nothing can fail any more: the enriched rows, the two
      feature subsets drawn from them, and the labels. */
  function Assemble(rows: seq<CsvRow>, srcs: seq<nat>, dsts: seq<nat>, sha256: string -> FlowKeys.HexDigest)
    : (p: Prepared)
    requires |srcs| == |dsts| == |rows|
    ensures |p.flowRows| == |p.labels| == |rows|
    ensures |p.features1| == |p.features2| == |rows|
  {
    var flowRows := Enrich(rows, srcs, dsts, sha256);
    var n := |rows|;
    Prepared(flowRows, Project(flowRows, Case1), Project(flowRows, Case2),
             seq(n, i requires 0 <= i < n => rows[i].classification))
  }

  /** The guard of line 25 fires exactly when the table is empty or lacks
      `Size` or `Timestamp`; no later failure reports the guard's error. */
  lemma PrepareGuard(d: Dataset, sha256: string -> FlowKeys.HexDigest)
    ensures Prepare(d, sha256) == Err(EmptyOrMissingEssential) <==> GuardRejects(d)
  {
  }

  /** The script gets through to the classifiers exactly when the guard
      passes, every column it reads is present and both address columns
      convert completely. */
  lemma PrepareOkIff(d: Dataset, sha256: string -> FlowKeys.HexDigest)
    ensures Prepare(d, sha256).Ok? <==>
      && !GuardRejects(d)
      && (forall c :: c in ReadColumns ==> c in d.columns)
      && AllConvertible(SourceIps(d.rows))
      && AllConvertible(DestIps(d.rows))
  {
    var srcs, dsts := SourceIps(d.rows), DestIps(d.rows);
    var present := "Source IP" in d.columns && "Dest IP" in d.columns && "Source Port" in d.columns
                   && "Dest Port" in d.columns && "Classification" in d.columns;
    assert (forall c :: c in ReadColumns ==> c in d.columns) <==> present;
    assert ConvertAll(srcs).Ok? <==> AllConvertible(srcs) by {
      ConvertAllOk(srcs);
    }
    assert ConvertAll(dsts).Ok? <==> AllConvertible(dsts) by {
      ConvertAllOk(dsts);
    }
    assert Prepare(d, sha256).Ok? <==>
      !GuardRejects(d) && present && ConvertAll(srcs).Ok? && ConvertAll(dsts).Ok?;
  }

  /** Every other failure names a column the script reads and the table
      lacks, or an address of one of the two address columns that
      `ip_to_int` rejects. */
  lemma PrepareErrors(d: Dataset, sha256: string -> FlowKeys.HexDigest)
    requires Prepare(d, sha256).Err? && !GuardRejects(d)
    ensures match Prepare(d, sha256).error
      case EmptyOrMissingEssential => false
      case MissingColumn(c) => c in ReadColumns && c !in d.columns
      case AddressRejected(cause) =>
        (cause.ip in SourceIps(d.rows) || cause.ip in DestIps(d.rows)) && Ipv4.IpToInt(cause.ip) == Err(cause)
  {
    var srcs, dsts := SourceIps(d.rows), DestIps(d.rows);
    if "Source IP" in d.columns && ConvertAll(srcs).Err? {
      ConvertAllFirstError(srcs);
    } else if "Source IP" in d.columns && "Dest IP" in d.columns && ConvertAll(dsts).Err? {
      ConvertAllFirstError(dsts);
    }
  }

  /** What a successful run hands over: both address columns converted, the
      enriched rows built from them, the two feature subsets projected from
      those rows, and the `Classification` column as labels. */
  lemma PrepareOutput(d: Dataset, sha256: string -> FlowKeys.HexDigest)
    requires Prepare(d, sha256).Ok?
    ensures ConvertAll(SourceIps(d.rows)).Ok? && ConvertAll(DestIps(d.rows)).Ok?
    ensures var p := Prepare(d, sha256).value;
      && p.flowRows == Enrich(d.rows, ConvertAll(SourceIps(d.rows)).value, ConvertAll(DestIps(d.rows)).value, sha256)
      && p.features1 == Project(p.flowRows, Case1)
      && p.features2 == Project(p.flowRows, Case2)
      && forall i :: 0 <= i < |d.rows| ==> p.labels[i] == d.rows[i].classification
  {
    var srcs, dsts := SourceIps(d.rows), DestIps(d.rows);
    assert !GuardRejects(d) && "Source IP" in d.columns && "Dest IP" in d.columns;
    assert ConvertAll(srcs).Ok? && ConvertAll(dsts).Ok?;
    assert "Source Port" in d.columns && "Dest Port" in d.columns && "Classification" in d.columns;
  }

  /** Case 2 is case 1 without exactly the `Flow ID Hash` column: same rows,
      same row order, the other three values unchanged. */
  lemma Case2DropsFlowId(rows: seq<FlowRow>)
    ensures Case2 == Case1[..2] + Case1[3..] && Case1[2] == FlowIdHash && FlowIdHash !in Case2
    ensures var m1, m2 := Project(rows, Case1), Project(rows, Case2);
      |m1| == |m2| == |rows| && forall i :: 0 <= i < |rows| ==> m2[i] == m1[i][..2] + m1[i][3..]
  {
  }

  /** Rows with the same addresses and ports share a `Flow ID Hash`, hence a
      group; rows with different tuples have different `Flow ID` keys, though
      their hashes may still collide modulo 10^8. */
  lemma SameTupleSameGroup(r1: CsvRow, r2: CsvRow, sha256: string -> FlowKeys.HexDigest)
    requires Ipv4.IpToInt(r1.sourceIp).Ok? && Ipv4.IpToInt(r1.destIp).Ok?
    requires Ipv4.IpToInt(r2.sourceIp).Ok? && Ipv4.IpToInt(r2.destIp).Ok?
    ensures var t1 := FlowKeys.FourTuple(Ipv4.IpToInt(r1.sourceIp).value, Ipv4.IpToInt(r1.destIp).value, r1.sourcePort, r1.destPort);
      var t2 := FlowKeys.FourTuple(Ipv4.IpToInt(r2.sourceIp).value, Ipv4.IpToInt(r2.destIp).value, r2.sourcePort, r2.destPort);
      && (FlowKeys.FlowKey(t1) == FlowKeys.FlowKey(t2) <==>
          r1.sourceIp == r2.sourceIp && r1.destIp == r2.destIp && r1.sourcePort == r2.sourcePort && r1.destPort == r2.destPort)
      && (FlowKeys.FlowKey(t1) == FlowKeys.FlowKey(t2) ==>
          RowFlowId(t1.srcIp, t1.dstIp, r1, sha256) == RowFlowId(t2.srcIp, t2.dstIp, r2, sha256))
  {
    var t1 := FlowKeys.FourTuple(Ipv4.IpToInt(r1.sourceIp).value, Ipv4.IpToInt(r1.destIp).value, r1.sourcePort, r1.destPort);
    var t2 := FlowKeys.FourTuple(Ipv4.IpToInt(r2.sourceIp).value, Ipv4.IpToInt(r2.destIp).value, r2.sourcePort, r2.destPort);
    FlowKeys.FlowKeyInjective(t1, t2);
    Ipv4.IpToIntInjective(r1.sourceIp, r2.sourceIp);
    Ipv4.IpToIntInjective(r1.destIp, r2.destIp);
  }

  /** Two packets of one flow at 10.0 s and 10.25 s (in microseconds) get
      inter-arrival times 0 and 0.25 s. */
  lemma TwoPacketFlowExample(id: nat)
    ensures InterArrival.Column([id, id], [10_000_000, 10_250_000]) == [0, 250_000]
  {
    var col := InterArrival.Column([id, id], [10_000_000, 10_250_000]);
    assert [id, id][..1] == [id];
    assert col[1] == 250_000;
  }
}
