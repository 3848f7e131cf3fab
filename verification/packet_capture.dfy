/** `extract_traffic_scapy` and the per-capture concatenation of
    src/question_3/ques_3.py (lines 28-64). A decoded packet is abstract:
    its optional IP and TCP layers, and a marker for a packet whose
    processing raises inside the loop's `try`. */
module PacketCapture {
  import opened Results
  import Seqs

  datatype IpLayer = IpLayer(src: string, dst: string)

  datatype TcpLayer = TcpLayer(sport: nat, dport: nat, flags: nat)

  datatype Packet = Packet(
    time: int,
    length: nat,
    ip: Option<IpLayer>,
    tcp: Option<TcpLayer>,
    malformed: bool)

  /** One emitted row: `[Timestamp, Packet_Size, Src_IP, Dst_IP, Src_Port,
      Dst_Port, TCP_Flags, App]`. */
  datatype Record = Record(
    timestamp: int,
    packetSize: nat,
    srcIp: string,
    dstIp: string,
    srcPort: nat,
    dstPort: nat,
    tcpFlags: nat,
    app: string)

  /** What opening a capture file yields: missing (`os.path.exists` is
      false), unreadable (`rdpcap` raises), or its packets in file order. */
  datatype CaptureFile = NotFound | Unreadable | Readable(packets: seq<Packet>)

  /** The default `limit` of `extract_traffic_scapy`. */
  const DefaultLimit: int := 1000000

  /** A packet the loop turns into a record. */
  predicate Accepted(p: Packet) {
    !p.malformed && p.ip.Some? && p.tcp.Some?
  }

  function ToRecord(p: Packet, app: string): Record
    requires p.ip.Some? && p.tcp.Some?
  {
    Record(p.time, p.length, p.ip.value.src, p.ip.value.dst,
           p.tcp.value.sport, p.tcp.value.dport, p.tcp.value.flags, app)
  }

  /** The loop of lines 40-56 from the packet `pkts[0]` on, with `data`
      collected so far. A malformed packet raises before the limit test and
      is skipped; any other packet is tested against the limit after its
      record, if any, is appended. */
  function Loop(pkts: seq<Packet>, app: string, limit: int, data: seq<Record>): seq<Record>
    decreases |pkts|
  {
    if |pkts| == 0 then data
    else
      var p := pkts[0];
      if p.malformed then Loop(pkts[1..], app, limit, data)
      else
        var data' := if p.ip.Some? && p.tcp.Some? then data + [ToRecord(p, app)] else data;
        if |data'| >= limit then data' else Loop(pkts[1..], app, limit, data')
  }

  /** `extract_traffic_scapy(file_path, app_name, limit)`. */
  function ExtractTraffic(file: CaptureFile, app: string, limit: int): seq<Record> {
    match file
    case NotFound => []
    case Unreadable => []
    case Readable(pkts) => Loop(pkts, app, limit, [])
  }

  /** The records of every accepted packet, in packet order, with no limit:
      the reference the loop is measured against. */
  function AcceptedRecords(pkts: seq<Packet>, app: string): (rs: seq<Record>)
    ensures |rs| <= |pkts|
    decreases |pkts|
  {
    if |pkts| == 0 then []
    else if Accepted(pkts[0]) then [ToRecord(pkts[0], app)] + AcceptedRecords(pkts[1..], app)
    else AcceptedRecords(pkts[1..], app)
  }

  function Min(a: int, b: int): int {
    if a <= b then a else b
  }

  /** With a positive limit the loop appends accepted records until it holds
      `limit` of them. */
  lemma {:induction false} LoopTakesAccepted(pkts: seq<Packet>, app: string, limit: int, data: seq<Record>)
    requires |data| < limit
    ensures var all := data + AcceptedRecords(pkts, app);
      Loop(pkts, app, limit, data) == all[..Min(limit, |all|)]
    decreases |pkts|
  {
    var all := data + AcceptedRecords(pkts, app);
    if |pkts| == 0 {
      assert all == data;
    } else {
      var p := pkts[0];
      var rest := AcceptedRecords(pkts[1..], app);
      if p.malformed || !(p.ip.Some? && p.tcp.Some?) {
        assert all == data + rest;
        LoopTakesAccepted(pkts[1..], app, limit, data);
      } else {
        var data' := data + [ToRecord(p, app)];
        assert all == data' + rest;
        if |data'| >= limit {
          assert |data'| == limit;
          assert all[..limit] == data';
        } else {
          LoopTakesAccepted(pkts[1..], app, limit, data');
        }
      }
    }
  }

  /** With `limit >= 1` a readable capture yields the first
      `min(limit, #accepted)` accepted packets' records. */
  lemma ExtractIsAcceptedPrefix(pkts: seq<Packet>, app: string, limit: int)
    requires limit >= 1
    ensures var all := AcceptedRecords(pkts, app);
      ExtractTraffic(Readable(pkts), app, limit) == all[..Min(limit, |all|)]
  {
    LoopTakesAccepted(pkts, app, limit, []);
    assert [] + AcceptedRecords(pkts, app) == AcceptedRecords(pkts, app);
  }

  /** The first packet whose processing does not raise, if any. */
  function FirstWellFormed(pkts: seq<Packet>): (r: Option<Packet>)
    ensures r.None? <==> forall k :: 0 <= k < |pkts| ==> pkts[k].malformed
    ensures r.Some? ==> !r.value.malformed
    ensures r.Some? ==>
      exists k :: 0 <= k < |pkts| && pkts[k] == r.value && forall j :: 0 <= j < k ==> pkts[j].malformed
  {
    if |pkts| == 0 then None
    else if !pkts[0].malformed then Some(pkts[0])
    else
      var r := FirstWellFormed(pkts[1..]);
      assert forall k :: 1 <= k < |pkts| ==> pkts[k] == pkts[1..][k - 1];
      if r.Some? then
        var k :| 0 <= k < |pkts[1..]| && pkts[1..][k] == r.value && forall j :: 0 <= j < k ==> pkts[1..][j].malformed;
        assert pkts[k + 1] == r.value;
        r
      else r
  }

  /** With `limit <= 0` the loop stops at the first packet that does not
      raise, keeping its record if it has one. */
  lemma {:induction false} ExtractNonPositiveLimit(pkts: seq<Packet>, app: string, limit: int)
    requires limit <= 0
    ensures ExtractTraffic(Readable(pkts), app, limit) ==
      match FirstWellFormed(pkts)
      case Some(p) => if Accepted(p) then [ToRecord(p, app)] else []
      case None => []
    decreases |pkts|
  {
    if |pkts| > 0 && pkts[0].malformed {
      ExtractNonPositiveLimit(pkts[1..], app, limit);
    }
  }

  /** The output never exceeds `max(limit, 1)` records. */
  lemma ExtractBound(file: CaptureFile, app: string, limit: int)
    ensures |ExtractTraffic(file, app, limit)| <= if limit >= 1 then limit else 1
  {
    if file.Readable? {
      if limit >= 1 {
        ExtractIsAcceptedPrefix(file.packets, app, limit);
      } else {
        ExtractNonPositiveLimit(file.packets, app, limit);
      }
    }
  }

  /** Every emitted record is the record of an accepted packet of the
      capture, and carries `app` as its last field. */
  lemma ExtractProvenance(file: CaptureFile, app: string, limit: int)
    ensures forall r :: r in ExtractTraffic(file, app, limit) ==>
      r.app == app && file.Readable? && exists p :: p in file.packets && Accepted(p) && r == ToRecord(p, app)
  {
    if file.Readable? {
      AcceptedRecordsProvenance(file.packets, app);
      if limit >= 1 {
        ExtractIsAcceptedPrefix(file.packets, app, limit);
      } else {
        ExtractNonPositiveLimit(file.packets, app, limit);
      }
    }
  }

  lemma {:induction false} AcceptedRecordsProvenance(pkts: seq<Packet>, app: string)
    ensures forall r :: r in AcceptedRecords(pkts, app) ==>
      r.app == app && exists p :: p in pkts && Accepted(p) && r == ToRecord(p, app)
    decreases |pkts|
  {
    if |pkts| > 0 {
      AcceptedRecordsProvenance(pkts[1..], app);
      forall p | p in pkts[1..] ensures p in pkts {
      }
    }
  }

  /** A capture without any TCP packet yields nothing. */
  lemma NoTcpNoRecords(file: CaptureFile, app: string, limit: int)
    requires file.Readable? ==> forall k :: 0 <= k < |file.packets| ==> file.packets[k].tcp.None?
    ensures ExtractTraffic(file, app, limit) == []
  {
    if file.Readable? {
      if limit >= 1 {
        ExtractIsAcceptedPrefix(file.packets, app, limit);
        NoTcpNoAccepted(file.packets, app);
      } else {
        ExtractNonPositiveLimit(file.packets, app, limit);
      }
    }
  }

  lemma {:induction false} NoTcpNoAccepted(pkts: seq<Packet>, app: string)
    requires forall k :: 0 <= k < |pkts| ==> pkts[k].tcp.None?
    ensures AcceptedRecords(pkts, app) == []
    decreases |pkts|
  {
    if |pkts| > 0 {
      NoTcpNoAccepted(pkts[1..], app);
    }
  }

  /** A packet whose processing raises neither contributes a record nor
      stops the loop: removing it changes nothing. */
  lemma {:induction false} MalformedSkipped(pkts: seq<Packet>, k: nat, m: Packet, app: string, limit: int, data: seq<Record>)
    requires m.malformed && k <= |pkts|
    ensures Loop(pkts[..k] + [m] + pkts[k..], app, limit, data) == Loop(pkts, app, limit, data)
    decreases k
  {
    var with := pkts[..k] + [m] + pkts[k..];
    if k == 0 {
      assert with[1..] == pkts;
    } else {
      assert with[0] == pkts[0];
      assert with[1..] == pkts[1..][..k - 1] + [m] + pkts[1..][k - 1..];
      var p := pkts[0];
      var data' := if p.ip.Some? && p.tcp.Some? then data + [ToRecord(p, app)] else data;
      if p.malformed {
        MalformedSkipped(pkts[1..], k - 1, m, app, limit, data);
      } else {
        MalformedSkipped(pkts[1..], k - 1, m, app, limit, data');
      }
    }
  }

  /** Lines 62-64: the captures in dictionary order, each extracted with the
      default limit, concatenated. */
  function CollectTraffic(captures: seq<(string, CaptureFile)>): (rs: seq<Record>)
    decreases |captures|
  {
    if |captures| == 0 then []
    else CollectTraffic(captures[..|captures| - 1])
         + ExtractTraffic(captures[|captures| - 1].1, captures[|captures| - 1].0, DefaultLimit)
  }

  /** Collecting two lists of captures one after the other is collecting
      their concatenation: each capture's records stay contiguous and in
      dictionary order. */
  lemma {:induction false} CollectConcat(a: seq<(string, CaptureFile)>, b: seq<(string, CaptureFile)>)
    ensures CollectTraffic(a + b) == CollectTraffic(a) + CollectTraffic(b)
    decreases |b|
  {
    if |b| == 0 {
      assert a + b == a;
    } else {
      var n := |b| - 1;
      assert (a + b)[..|a + b| - 1] == a + b[..n];
      CollectConcat(a, b[..n]);
    }
  }

  /** The combined table holds at most `DefaultLimit` records per capture. */
  lemma {:induction false} CollectBound(captures: seq<(string, CaptureFile)>)
    ensures |CollectTraffic(captures)| <= |captures| * DefaultLimit
    decreases |captures|
  {
    if |captures| > 0 {
      var n := |captures| - 1;
      CollectBound(captures[..n]);
      ExtractBound(captures[n].1, captures[n].0, DefaultLimit);
    }
  }

  datatype ExtractError = NoValidPackets

  /** Lines 66-72: the table built from every capture, or the exit taken when
      it is empty. */
  function BuildTable(captures: seq<(string, CaptureFile)>): (r: Result<seq<Record>, ExtractError>)
    ensures r.Err? <==> forall i :: 0 <= i < |captures| ==> ExtractTraffic(captures[i].1, captures[i].0, DefaultLimit) == []
    ensures r.Ok? ==> r.value == CollectTraffic(captures) && |r.value| > 0
  {
    CollectEmptyIff(captures);
    var rs := CollectTraffic(captures);
    if |rs| == 0 then Err(NoValidPackets) else Ok(rs)
  }

  lemma {:induction false} CollectEmptyIff(captures: seq<(string, CaptureFile)>)
    ensures CollectTraffic(captures) == [] <==>
      forall i :: 0 <= i < |captures| ==> ExtractTraffic(captures[i].1, captures[i].0, DefaultLimit) == []
    decreases |captures|
  {
    if |captures| > 0 {
      var n := |captures| - 1;
      CollectEmptyIff(captures[..n]);
      assert forall i :: 0 <= i < n ==> captures[..n][i] == captures[i];
    }
  }
}
