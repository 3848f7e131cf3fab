/** `ip_to_int` of src/question_4/ques_4.py: a dotted IPv4 address read by
    `socket.inet_aton` and unpacked as one unsigned 32-bit big-endian value.
    An IPv4 address is four octets (section 2.3 of RFC 791); only the
    four-part decimal form is accepted here. */
module Ipv4 {
  import opened Results
  import Decimal
  import Text

  /** The OSError `inet_aton` raises for a string it cannot read. */
  datatype AddressError = IllegalAddress(ip: string)

  /** 2^32: every address value lies below it. */
  const AddressSpace: nat := 0x1_0000_0000

  /** The network-byte-order value of the octets `a.b.c.d`. */
  function OctetsToInt(a: nat, b: nat, c: nat, d: nat): nat {
    a * 0x100_0000 + b * 0x1_0000 + c * 0x100 + d
  }

  function DottedQuad(a: nat, b: nat, c: nat, d: nat): string {
    Text.Join([Decimal.NatToString(a), Decimal.NatToString(b),
               Decimal.NatToString(c), Decimal.NatToString(d)], '.')
  }

  /** The dotted-quad text of a 32-bit value, most significant octet first. */
  function IntToDottedQuad(v: nat): string
    requires v < AddressSpace
  {
    var d, w1 := v % 0x100, v / 0x100;
    var c, w2 := w1 % 0x100, w1 / 0x100;
    DottedQuad(w2 / 0x100, w2 % 0x100, c, d)
  }

  lemma DivModUnique(v: int, q: int, r: int)
    requires 0 <= r < 0x100 && v == q * 0x100 + r
    ensures v / 0x100 == q && v % 0x100 == r
  {
  }

  /** One decimal component in 0..255. */
  function ParseOctet(s: string): (r: Option<nat>)
    ensures r.Some? <==> Decimal.IsCanonical(s) && Decimal.DigitsValue(s) < 256
    ensures r.Some? ==> r.value < 256 && Decimal.NatToString(r.value) == s
  {
    match Decimal.ParseNat(s)
    case None => None
    case Some(n) => if n < 256 then Some(n) else None
  }

  /** `ip_to_int(ip)`: the address as an unsigned 32-bit value, or the error
      `inet_aton` raises. The four octets are packed most significant first,
      as `struct.unpack("!I", ...)` reads the bytes `inet_aton` makes. */
  function IpToInt(ip: string): (r: Result<nat, AddressError>)
    ensures r.Ok? ==> r.value < AddressSpace
    ensures r.Err? ==> r.error == IllegalAddress(ip)
  {
    var parts := Text.Split(ip, '.');
    if |parts| != 4 then Err(IllegalAddress(ip))
    else
      match (ParseOctet(parts[0]), ParseOctet(parts[1]), ParseOctet(parts[2]), ParseOctet(parts[3]))
      case (Some(a), Some(b), Some(c), Some(d)) =>
        OctetsDecompose(a, b, c, d);
        Ok(OctetsToInt(a, b, c, d))
      case _ => Err(IllegalAddress(ip))
  }

  /** A value is produced only for the exact dotted-quad text of that value:
      no other spelling of an address is accepted. */
  lemma IpToIntCanonical(ip: string)
    requires IpToInt(ip).Ok?
    ensures ip == IntToDottedQuad(IpToInt(ip).value)
  {
    var parts := Text.Split(ip, '.');
    Text.JoinSplit(ip, '.');
    assert parts == [parts[0], parts[1], parts[2], parts[3]];
    var a, b, c, d := ParseOctet(parts[0]).value, ParseOctet(parts[1]).value,
                      ParseOctet(parts[2]).value, ParseOctet(parts[3]).value;
    OctetsDecompose(a, b, c, d);
  }

  /** Reading the octets back out of their 32-bit value. */
  lemma OctetsDecompose(a: nat, b: nat, c: nat, d: nat)
    requires a < 256 && b < 256 && c < 256 && d < 256
    ensures OctetsToInt(a, b, c, d) < AddressSpace
    ensures IntToDottedQuad(OctetsToInt(a, b, c, d)) == DottedQuad(a, b, c, d)
  {
    var v := OctetsToInt(a, b, c, d);
    var w1, w2 := a * 0x1_0000 + b * 0x100 + c, a * 0x100 + b;
    assert v == w1 * 0x100 + d;
    assert w1 == w2 * 0x100 + c;
    DivModUnique(v, w1, d);
    DivModUnique(w1, w2, c);
    DivModUnique(w2, a, b);
  }

  /** `ip_to_int("a.b.c.d") == a*2^24 + b*2^16 + c*2^8 + d` for octets written
      in decimal without leading zeros. */
  lemma IpToIntOfDottedQuad(a: nat, b: nat, c: nat, d: nat)
    requires a < 256 && b < 256 && c < 256 && d < 256
    ensures IpToInt(DottedQuad(a, b, c, d)) == Ok(OctetsToInt(a, b, c, d))
  {
    var parts := [Decimal.NatToString(a), Decimal.NatToString(b),
                  Decimal.NatToString(c), Decimal.NatToString(d)];
    forall i | 0 <= i < |parts| ensures '.' !in parts[i] {
      Decimal.NoNonDigit([a, b, c, d][i], '.');
    }
    Text.SplitJoin(parts, '.');
    Decimal.ParseNatToString(a);
    Decimal.ParseNatToString(b);
    Decimal.ParseNatToString(c);
    Decimal.ParseNatToString(d);
  }

  /** Every 32-bit value has a text that `ip_to_int` maps back to it. */
  lemma IpToIntSurjective(v: nat)
    requires v < AddressSpace
    ensures IpToInt(IntToDottedQuad(v)) == Ok(v)
  {
    var d, w1 := v % 0x100, v / 0x100;
    var c, w2 := w1 % 0x100, w1 / 0x100;
    var a, b := w2 / 0x100, w2 % 0x100;
    assert w1 < 0x100_0000 && w2 < 0x1_0000 && a < 0x100;
    IpToIntOfDottedQuad(a, b, c, d);
    assert OctetsToInt(a, b, c, d) == (w2 * 0x100 + c) * 0x100 + d;
  }

  /** Distinct accepted address strings have distinct values. */
  lemma IpToIntInjective(ip1: string, ip2: string)
    requires IpToInt(ip1).Ok? && IpToInt(ip2).Ok?
    ensures IpToInt(ip1) == IpToInt(ip2) <==> ip1 == ip2
  {
    IpToIntCanonical(ip1);
    IpToIntCanonical(ip2);
  }

  /** A string is rejected exactly when it is not the dotted quad of any
      32-bit value. */
  lemma IpToIntErrorIff(ip: string)
    ensures IpToInt(ip).Err? <==> forall v: nat :: v < AddressSpace ==> ip != IntToDottedQuad(v)
  {
    if IpToInt(ip).Err? {
      forall v: nat | v < AddressSpace ensures ip != IntToDottedQuad(v) {
        IpToIntSurjective(v);
      }
    } else {
      IpToIntCanonical(ip);
    }
  }
}
