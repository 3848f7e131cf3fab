/** Flow identity of src/question_4/ques_4.py: the directional key string
    `"<srcInt>_<dstInt>_<sport>_<dport>"` (line 34) and its reduction to an
    identifier in [0, 10^8) through a SHA-256 hex digest (line 37). */
module FlowKeys {
  import opened Results
  import Decimal
  import Text

  /** Source and destination address values and ports, in that order. */
  datatype FourTuple = FourTuple(srcIp: nat, dstIp: nat, srcPort: nat, dstPort: nat)

  /** The tuple of the packets travelling the other way. */
  function Reversed(t: FourTuple): FourTuple {
    FourTuple(t.dstIp, t.srcIp, t.dstPort, t.srcPort)
  }

  /** The `Flow ID` column: the four components in decimal, joined by `_`.
      Splitting the key on `_` gives the tuple back. */
  function FlowKey(t: FourTuple): (key: string)
    ensures ParseFlowKey(key) == Some(t)
  {
    var parts := [Decimal.NatToString(t.srcIp), Decimal.NatToString(t.dstIp),
                  Decimal.NatToString(t.srcPort), Decimal.NatToString(t.dstPort)];
    forall i | 0 <= i < |parts| ensures '_' !in parts[i] {
      Decimal.NoNonDigit([t.srcIp, t.dstIp, t.srcPort, t.dstPort][i], '_');
    }
    Text.SplitJoin(parts, '_');
    Decimal.ParseNatToString(t.srcIp);
    Decimal.ParseNatToString(t.dstIp);
    Decimal.ParseNatToString(t.srcPort);
    Decimal.ParseNatToString(t.dstPort);
    Text.Join(parts, '_')
  }

  /** Reads a flow key back into its tuple; `None` for any other string. */
  function ParseFlowKey(key: string): Option<FourTuple> {
    var parts := Text.Split(key, '_');
    if |parts| != 4 then None
    else
      match (Decimal.ParseNat(parts[0]), Decimal.ParseNat(parts[1]),
             Decimal.ParseNat(parts[2]), Decimal.ParseNat(parts[3]))
      case (Some(a), Some(b), Some(c), Some(d)) => Some(FourTuple(a, b, c, d))
      case _ => None
  }

  /** Every string that parses as a key is the key of what it parses to. */
  lemma ParseFlowKeyCanonical(key: string)
    requires ParseFlowKey(key).Some?
    ensures FlowKey(ParseFlowKey(key).value) == key
  {
    var parts := Text.Split(key, '_');
    Text.JoinSplit(key, '_');
    assert parts == [parts[0], parts[1], parts[2], parts[3]];
  }

  /** Distinct tuples have distinct keys. */
  lemma FlowKeyInjective(t1: FourTuple, t2: FourTuple)
    ensures FlowKey(t1) == FlowKey(t2) <==> t1 == t2
  {
    if FlowKey(t1) == FlowKey(t2) {
      assert Some(t1) == ParseFlowKey(FlowKey(t1)) == Some(t2);
    }
  }

  /** The key is directional: the reverse direction shares the key only
      when both endpoints are the same address and port. */
  lemma FlowKeyDirectional(t: FourTuple)
    ensures FlowKey(Reversed(t)) == FlowKey(t) <==> t.srcIp == t.dstIp && t.srcPort == t.dstPort
  {
    FlowKeyInjective(Reversed(t), t);
  }

  predicate IsHexDigit(c: char) {
    '0' <= c <= '9' || 'a' <= c <= 'f'
  }

  function HexDigitValue(c: char): (v: nat)
    requires IsHexDigit(c)
    ensures v < 16
  {
    if c <= '9' then c as int - '0' as int else c as int - 'a' as int + 10
  }

  /** What `hashlib.sha256(...).hexdigest()` returns: 64 lower-case hex digits. */
  type HexDigest = s: string | |s| == 64 && forall i :: 0 <= i < |s| ==> IsHexDigit(s[i])
    witness seq(64, i => '0')

  /** `int(h, 16)` for a string of hex digits, most significant first. */
  function HexValue(h: string): (v: nat)
    requires forall i :: 0 <= i < |h| ==> IsHexDigit(h[i])
    ensures v < Pow16(|h|)
  {
    if |h| == 0 then 0 else HexValue(h[..|h| - 1]) * 16 + HexDigitValue(h[|h| - 1])
  }

  function Pow16(n: nat): (p: nat)
    ensures p > 0
  {
    if n == 0 then 1 else 16 * Pow16(n - 1)
  }

  /** `10**8`, the modulus of line 37. */
  const IdModulus: nat := 100_000_000

  /** The `Flow ID Hash` column: the digest of the key, read as an integer,
      modulo 10^8. `sha256` stands for `hashlib.sha256(key.encode()).hexdigest()`. */
  function FlowIdHash(key: string, sha256: string -> HexDigest): (id: nat)
    ensures id < IdModulus
  {
    HexValue(sha256(key)) % IdModulus
  }

  /** The identifier of a key is fixed by the key alone: equal keys give equal
      identifiers, so packets of one flow always share a group. */
  lemma FlowIdDeterministic(k1: string, k2: string, sha256: string -> HexDigest)
    requires k1 == k2
    ensures FlowIdHash(k1, sha256) == FlowIdHash(k2, sha256)
  {
  }
}
