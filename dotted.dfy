/** The dotted-quad form of an IPv4 address: str(IPv4Address(v)) and
    socket.inet_ntoa print it, and the ipaddress module's strict parser reads
    it back. */
module Dotted {
  import opened Outcome
  import opened PyText
  import opened Radix

  /** Number of bits in an IPv4 address. */
  const V4Bits: nat := 32

  /** Number of IPv4 addresses, 2^32. */
  const V4Count: nat := 0x1_0000_0000

  /** An IPv4 address as a 32-bit value. */
  type V4Value = v: nat | v < V4Count

  /** There are 2^32 IPv4 addresses. */
  lemma V4CountPow2()
    ensures Pow2(V4Bits) == V4Count
  {
    Pow2Constants();
  }

  predicate IsOctets(o: seq<nat>) {
    |o| == 4 && o[0] < 256 && o[1] < 256 && o[2] < 256 && o[3] < 256
  }

  /** Every one of four octets is below 256. */
  lemma OctetsBelow(o: seq<nat>)
    requires IsOctets(o)
    ensures forall i :: 0 <= i < 4 ==> o[i] < 256
  {
  }

  /** Four octets agreeing one by one are the same octets. */
  lemma SameOctets(a: seq<nat>, b: seq<nat>)
    requires |a| == 4 && |b| == 4
    requires a[0] == b[0] && a[1] == b[1] && a[2] == b[2] && a[3] == b[3]
    ensures a == b
  {
    assert forall i :: 0 <= i < 4 ==> a[i] == b[i];
  }

  /** The 32-bit value of four octets, most significant first. */
  function FromOctets(o: seq<nat>): (v: nat)
    requires IsOctets(o)
    ensures v < V4Count
  {
    ((o[0] * 256 + o[1]) * 256 + o[2]) * 256 + o[3]
  }

  /** The four octets of a 32-bit value, most significant first. */
  function Octets(v: nat): (o: seq<nat>)
    requires v < V4Count
    ensures IsOctets(o) && FromOctets(o) == v
  {
    var q1 := v / 256;
    var q2 := q1 / 256;
    [q2 / 256, q2 % 256, q1 % 256, v % 256]
  }

  /** Four octets are recovered from their 32-bit value. */
  lemma OctetsOfFromOctets(o: seq<nat>)
    requires IsOctets(o)
    ensures Octets(FromOctets(o)) == o
  {
    var v := FromOctets(o);
    assert v / 256 == (o[0] * 256 + o[1]) * 256 + o[2];
    assert v / 256 / 256 == o[0] * 256 + o[1];
  }

  /** [str(n) for n in ns]. */
  function DecimalParts(ns: seq<nat>): seq<string>
  {
    seq(|ns|, i requires 0 <= i < |ns| => NatToDecimal(ns[i]))
  }

  /** One more number adds its decimal text. */
  lemma DecimalPartsSnoc(ns: seq<nat>, n: nat)
    ensures DecimalParts(ns + [n]) == DecimalParts(ns) + [NatToDecimal(n)]
  {
  }

  /** '.'.join(str(n) for n in ns) contains exactly the decimal parts. */
  lemma SplitDecimalParts(ns: seq<nat>)
    requires |ns| >= 1
    ensures Split(Join(DecimalParts(ns), '.'), '.') == DecimalParts(ns)
  {
    var ps := DecimalParts(ns);
    forall i | 0 <= i < |ps| ensures '.' !in ps[i] {
      DecimalHasNoSeparator(ns[i], '.');
    }
    SplitJoin(ps, '.');
  }

  /** str(IPv4Address(v)): the four octets in decimal, joined by dots. */
  function FormatV4(v: nat): string
    requires v < V4Count
  {
    Join(DecimalParts(Octets(v)), '.')
  }

  /** One octet as the ipaddress module reads it: non-empty, ASCII digits
      only, at most three of them, no leading zero, value at most 255. */
  function ParseOctetStrict(s: string): (r: Option<nat>)
    ensures r.Some? ==> r.value < 256
  {
    if s == [] || !AllDigits(s) || |s| > 3 || (s != "0" && s[0] == '0') then None
    else if DigitsValue(s) > 255 then None
    else Some(DigitsValue(s))
  }

  /** IPv4Address(s): exactly four dot-separated strict octets. */
  function ParseV4(s: string): Option<V4Value>
  {
    var parts := Split(s, '.');
    if |parts| != 4 then None
    else
      match (ParseOctetStrict(parts[0]), ParseOctetStrict(parts[1]),
             ParseOctetStrict(parts[2]), ParseOctetStrict(parts[3]))
      case (Some(a), Some(b), Some(c), Some(d)) => Some(FromOctets([a, b, c, d]))
      case _ => None
  }

  lemma OctetDecimalParses(n: nat)
    requires n < 256
    ensures ParseOctetStrict(NatToDecimal(n)) == Some(n)
  {
    var s := NatToDecimal(n);
    if n >= 10 {
      if n >= 100 {
        assert NatToDecimal(n / 10) == NatToDecimal(n / 10 / 10) + [DigitChar(n / 10 % 10)];
      }
    }
    assert |s| <= 3;
    if s[0] == '0' {
      assert s == "0";
    }
  }

  /** The formatter's output is accepted by the strict parser and denotes
      the same address. */
  lemma {:induction false} FormatV4Parses(v: nat)
    requires v < V4Count
    ensures ParseV4(FormatV4(v)) == Some(v)
  {
    var o := Octets(v);
    SplitDecimalParts(o);
    var parts := Split(FormatV4(v), '.');
    assert parts == DecimalParts(o);
    OctetDecimalParses(o[0]);
    OctetDecimalParses(o[1]);
    OctetDecimalParses(o[2]);
    OctetDecimalParses(o[3]);
    assert [o[0], o[1], o[2], o[3]] == o;
  }

  /** The strict parser accepts only the formatter's spelling: a text it
      reads as v is FormatV4(v), character for character. */
  lemma {:induction false} ParseV4Canonical(s: string)
    requires ParseV4(s).Some?
    ensures FormatV4(ParseV4(s).value) == s
  {
    var parts := Split(s, '.');
    var o := seq(4, i requires 0 <= i < 4 => ParseOctetStrict(parts[i]).value);
    forall i | 0 <= i < 4 ensures parts[i] == NatToDecimal(o[i]) {
      DecimalCanonical(parts[i]);
    }
    assert o == [o[0], o[1], o[2], o[3]];
    OctetsOfFromOctets(o);
    assert DecimalParts(o) == parts;
  }

  /** The dotted form holds digits and dots only: no '/' or other separator. */
  lemma FormatV4NoChar(v: nat, c: char)
    requires v < V4Count && c != '.' && !IsDigit(c)
    ensures c !in FormatV4(v)
  {
    var ps := DecimalParts(Octets(v));
    forall i | 0 <= i < |ps| ensures c !in ps[i] {
      DecimalHasNoSeparator(Octets(v)[i], c);
    }
    JoinNoChar(ps, '.', c);
  }

  /** The dotted form is never all digits: it holds three dots. */
  lemma FormatV4HasDot(v: nat)
    requires v < V4Count
    ensures '.' in FormatV4(v)
  {
    JoinHasSeparator(DecimalParts(Octets(v)), '.');
  }
}
