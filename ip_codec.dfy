/** The IPv4 text conversions of backend/utils/ip_tools.py: validating
    dotted decimal, decimal <-> binary, decimal <-> hexadecimal, and netmask
    <-> prefix length. Each takes and returns text; a ValueError of the source
    is an `Err` naming the first check that failed. */
module IpCodec {
  import opened Outcome
  import opened PyText
  import opened Radix
  import opened Dotted
  import opened Netmask

  // ------------------------------------------------------ dotted decimal

  /** A part that int() reads as a number in 0..255. */
  predicate IsOctetText(part: string) {
    ParseInt(part).Some? && 0 <= ParseInt(part).value <= 255
  }

  /** int(part) and the range check of validate_ip_decimal. */
  function DecimalOctet(part: string): (r: Result<nat>)
    ensures r.Ok? <==> IsOctetText(part)
    ensures r.Ok? ==> r.value == ParseInt(part).value
  {
    match ParseInt(part)
    case None => Err(NotAnInteger)
    case Some(n) => if n < 0 || n > 255 then Err(OctetOutOfRange) else Ok(n)
  }

  /** validate_ip_decimal: succeeds, returning the parts, exactly when the
      text has four dot-separated parts each of which int() reads as a number
      in 0..255. A wrong part count is reported before any part is read. */
  function ValidateIpDecimal(ip: string): (r: Result<seq<string>>)
    ensures r.Ok? <==> |Split(ip, '.')| == 4 && forall i :: 0 <= i < 4 ==> IsOctetText(Split(ip, '.')[i])
    ensures r.Ok? ==> r.value == Split(ip, '.')
    ensures |Split(ip, '.')| != 4 ==> r == Err(WrongPartCount)
  {
    var parts := Split(ip, '.');
    if |parts| != 4 then Err(WrongPartCount)
    else
      var octets := MapAll(parts, DecimalOctet);
      assert octets.Ok? <==> forall i :: 0 <= i < 4 ==> IsOctetText(parts[i]);
      match octets
      case Err(e) => Err(e)
      case Ok(_) => Ok(parts)
  }

  /** validate_ip_decimal rejects text holding one of the separators
      0x1C..0x1F anywhere: the part holding it is no integer to int(). */
  lemma ValidateRejectsSeparator(ip: string, c: char)
    requires 28 <= c as int <= 31 && c in ip
    ensures ValidateIpDecimal(ip).Err?
  {
    var parts := Split(ip, '.');
    if |parts| == 4 && forall i :: 0 <= i < 4 ==> IsOctetText(parts[i]) {
      forall i | 0 <= i < |parts| ensures c !in parts[i] {
        if c in parts[i] {
          ParseIntRejectsSeparator(parts[i], c);
        }
      }
      JoinNoChar(parts, '.', c);
    }
  }

  /** The number int() reads from a part that validated. */
  function OctetOf(part: string): (n: nat)
    requires IsOctetText(part)
    ensures n < 256 && ParseInt(part) == Some(n as int)
  {
    ParseInt(part).value as nat
  }

  /** The numbers int() reads from the parts of a validated text. */
  function DottedOctets(ip: string): (o: seq<nat>)
    requires ValidateIpDecimal(ip).Ok?
    ensures IsOctets(o)
  {
    var parts := Split(ip, '.');
    [OctetOf(parts[0]), OctetOf(parts[1]), OctetOf(parts[2]), OctetOf(parts[3])]
  }

  /** The canonical spelling of a validated text: str(int(part)) for each part. */
  function CanonicalV4(ip: string): string
    requires ValidateIpDecimal(ip).Ok?
  {
    FormatV4(FromOctets(DottedOctets(ip)))
  }

  /** The canonical text of an address validates, and reads as that address. */
  lemma {:induction false} ValidateFormatV4(v: nat)
    requires v < V4Count
    ensures ValidateIpDecimal(FormatV4(v)).Ok?
    ensures DottedOctets(FormatV4(v)) == Octets(v)
    ensures CanonicalV4(FormatV4(v)) == FormatV4(v)
  {
    var o := Octets(v);
    var parts := Split(FormatV4(v), '.');
    FormatV4Parts(v);
    forall i | 0 <= i < 4 ensures ParseInt(parts[i]) == Some(o[i] as int) {
      NatToDecimalParses(o[i]);
    }
    ValidateReadsParts(FormatV4(v), parts, o);
  }

  /** Text whose four parts int() reads as the given octets validates, and
      reads as those octets. */
  lemma ValidateReadsParts(ip: string, parts: seq<string>, o: seq<nat>)
    requires IsOctets(o) && Split(ip, '.') == parts && |parts| == 4
    requires forall i :: 0 <= i < 4 ==> ParseInt(parts[i]) == Some(o[i] as int)
    ensures ValidateIpDecimal(ip).Ok? && DottedOctets(ip) == o
  {
    OctetsBelow(o);
    forall i | 0 <= i < 4 ensures IsOctetText(parts[i]) && OctetOf(parts[i]) == o[i] {
      OctetTextReads(parts[i], o[i]);
    }
    DottedOctetsOf(ip, parts, o);
  }

  /** The octets of a validated text are what int() reads from its parts. */
  lemma DottedOctetsOf(ip: string, parts: seq<string>, o: seq<nat>)
    requires ValidateIpDecimal(ip).Ok? && Split(ip, '.') == parts && |o| == 4
    requires forall i :: 0 <= i < 4 ==> OctetOf(parts[i]) == o[i]
    ensures DottedOctets(ip) == o
  {
    var d := DottedOctets(ip);
    assert d[0] == o[0] && d[1] == o[1] && d[2] == o[2] && d[3] == o[3];
    SameOctets(d, o);
  }

  /** A part int() reads as an octet is octet text. */
  lemma OctetTextReads(part: string, n: nat)
    requires ParseInt(part) == Some(n as int) && n < 256
    ensures IsOctetText(part) && OctetOf(part) == n
  {
  }

  /** The dotted form splits into the decimal texts of the four octets. */
  lemma FormatV4Parts(v: nat)
    requires v < V4Count
    ensures var o, parts := Octets(v), Split(FormatV4(v), '.');
      |parts| == 4 && forall i :: 0 <= i < 4 ==> parts[i] == NatToDecimal(o[i])
  {
    SplitDecimalParts(Octets(v));
  }


  // --------------------------------------------------------------- binary

  /** Four octets as eight binary digits each, joined by dots. */
  function BinaryText(o: seq<nat>): string
    requires IsOctets(o)
  {
    Join([Bin8(o[0]), Bin8(o[1]), Bin8(o[2]), Bin8(o[3])], '.')
  }

  /** ip_dec_to_bin: validate, then format(int(part), '08b') for each part. */
  function IpDecToBin(ip: string): Result<string>
  {
    match ValidateIpDecimal(ip)
    case Err(e) => Err(e)
    case Ok(_) => Ok(BinaryText(DottedOctets(ip)))
  }

  /** The binary text splits into four parts of eight binary digits that
      read back as the octets. */
  lemma {:induction false} BinaryTextParts(o: seq<nat>)
    requires IsOctets(o)
    ensures var parts := Split(BinaryText(o), '.');
      && |parts| == 4
      && forall i :: 0 <= i < 4 ==> |parts[i]| == 8 && IsBinary(parts[i]) && BinValue(parts[i]) == o[i]
  {
    SplitJoin([Bin8(o[0]), Bin8(o[1]), Bin8(o[2]), Bin8(o[3])], '.');
  }

  /** ip_dec_to_bin fails exactly when validation fails, with the same error;
      otherwise its four parts are eight binary digits spelling the octets. */
  lemma {:induction false} IpDecToBinShape(ip: string)
    ensures IpDecToBin(ip).Err? <==> ValidateIpDecimal(ip).Err?
    ensures IpDecToBin(ip).Err? ==> IpDecToBin(ip).error == ValidateIpDecimal(ip).error
    ensures IpDecToBin(ip).Ok? ==>
      var parts := Split(IpDecToBin(ip).value, '.');
      && |parts| == 4
      && forall i :: 0 <= i < 4 ==>
           |parts[i]| == 8 && IsBinary(parts[i]) && BinValue(parts[i]) == DottedOctets(ip)[i]
  {
    if ValidateIpDecimal(ip).Ok? {
      BinaryTextParts(DottedOctets(ip));
    }
  }

  /** The per-part checks of ip_bin_to_dec, in the source's order: only 0s
      and 1s, then exactly eight of them. */
  function BinaryOctet(part: string): Result<nat>
  {
    if !IsBinary(part) then Err(NotBinary)
    else if |part| != 8 then Err(WrongBinaryLength)
    else Ok(BinValue(part))
  }

  /** What ip_bin_to_dec returns. */
  function BinaryToDecimal(ip: string): Result<string>
  {
    var parts := Split(ip, '.');
    if |parts| != 4 then Err(WrongPartCount)
    else
      match MapAll(parts, BinaryOctet)
      case Err(e) => Err(e)
      case Ok(vs) => Ok(Join(DecimalParts(vs), '.'))
  }

  /** ip_bin_to_dec: the loop that converts the parts one by one and stops at
      the first bad one. */
  method IpBinToDec(ip: string) returns (r: Result<string>)
    ensures r == BinaryToDecimal(ip)
  {
    var parts := Split(ip, '.');
    if |parts| != 4 {
      return Err(WrongPartCount);
    }
    var decimalParts: seq<string> := [];
    ghost var values: seq<nat> := [];
    var i := 0;
    while i < |parts|
      invariant 0 <= i <= |parts|
      invariant MapFirst(parts, i, BinaryOctet) == Ok(values)
      invariant decimalParts == DecimalParts(values)
    {
      var part := parts[i];
      MapFirstStep(parts, i, BinaryOctet, values);
      if !IsBinary(part) {
        return Err(NotBinary);
      }
      if |part| != 8 {
        return Err(WrongBinaryLength);
      }
      DecimalPartsSnoc(values, BinValue(part));
      decimalParts := decimalParts + [NatToDecimal(BinValue(part))];
      values := values + [BinValue(part)];
      i := i + 1;
    }
    MapFirstAll(parts, BinaryOctet);
    r := Ok(Join(decimalParts, '.'));
  }

  /** The value of four eight-digit binary parts read in order. */
  lemma {:induction false} BinaryOctetsValue(b0: string, b1: string, b2: string, b3: string)
    requires IsBinary(b0) && IsBinary(b1) && IsBinary(b2) && IsBinary(b3)
    requires |b0| == 8 && |b1| == 8 && |b2| == 8 && |b3| == 8
    ensures IsBinary(b0 + b1 + b2 + b3) && |b0 + b1 + b2 + b3| == V4Bits
    ensures IsOctets([BinValue(b0), BinValue(b1), BinValue(b2), BinValue(b3)])
    ensures BinValue(b0 + b1 + b2 + b3) == FromOctets([BinValue(b0), BinValue(b1), BinValue(b2), BinValue(b3)])
  {
    Pow2Constants();
    BinValueAppend(b0, b1);
    BinValueAppend(b0 + b1, b2);
    BinValueAppend(b0 + b1 + b2, b3);
  }

  /** ip_bin_to_dec accepts exactly four parts of eight binary digits, and
      then returns the dotted decimal form of the 32-bit number the digits
      spell when read as one string. */
  lemma {:induction false} BinaryToDecimalMeaning(ip: string)
    ensures var parts := Split(ip, '.');
      BinaryToDecimal(ip).Ok? <==>
        |parts| == 4 && forall i :: 0 <= i < 4 ==> IsBinary(parts[i]) && |parts[i]| == 8
    ensures var parts := Split(ip, '.');
      BinaryToDecimal(ip).Ok? ==>
        var o := [BinValue(parts[0]), BinValue(parts[1]), BinValue(parts[2]), BinValue(parts[3])];
        && IsOctets(o)
        && IsBinary(parts[0] + parts[1] + parts[2] + parts[3])
        && BinValue(parts[0] + parts[1] + parts[2] + parts[3]) == FromOctets(o)
        && BinaryToDecimal(ip).value == FormatV4(FromOctets(o))
  {
    var parts := Split(ip, '.');
    if |parts| == 4 && MapAll(parts, BinaryOctet).Ok? {
      assert BinaryOctet(parts[0]).Ok? && BinaryOctet(parts[1]).Ok?;
      assert BinaryOctet(parts[2]).Ok? && BinaryOctet(parts[3]).Ok?;
      var o := [BinValue(parts[0]), BinValue(parts[1]), BinValue(parts[2]), BinValue(parts[3])];
      assert MapAll(parts, BinaryOctet).value == o;
      BinaryOctetsValue(parts[0], parts[1], parts[2], parts[3]);
      OctetsOfFromOctets(o);
    }
  }

  /** Binary text made from octets converts back to their dotted decimal form. */
  lemma {:induction false} BinaryTextDecodes(o: seq<nat>)
    requires IsOctets(o)
    ensures BinaryToDecimal(BinaryText(o)) == Ok(FormatV4(FromOctets(o)))
  {
    BinaryTextParts(o);
    var parts := Split(BinaryText(o), '.');
    assert BinValue(parts[0]) == o[0] && BinValue(parts[1]) == o[1];
    assert BinValue(parts[2]) == o[2] && BinValue(parts[3]) == o[3];
    assert [BinValue(parts[0]), BinValue(parts[1]), BinValue(parts[2]), BinValue(parts[3])] == o;
    assert forall i :: 0 <= i < 4 ==> IsBinary(parts[i]) && |parts[i]| == 8;
    BinaryToDecimalMeaning(BinaryText(o));
    assert BinaryToDecimal(BinaryText(o)).Ok?;
  }

  /** Decimal to binary and back gives the canonical spelling of the input
      (the input itself when it is already canonical, see ValidateFormatV4). */
  lemma {:induction false} BinaryRoundTrip(ip: string)
    requires ValidateIpDecimal(ip).Ok?
    ensures IpDecToBin(ip).Ok?
    ensures BinaryToDecimal(IpDecToBin(ip).value) == Ok(CanonicalV4(ip))
  {
    BinaryTextDecodes(DottedOctets(ip));
  }

  /** The binary text of the canonical form of an address. */
  lemma {:induction false} IpDecToBinOfFormat(v: nat)
    requires v < V4Count
    ensures IpDecToBin(FormatV4(v)) == Ok(BinaryText(Octets(v)))
  {
    ValidateFormatV4(v);
  }

  /** Eight-digit binary parts are the format(.., '08b') of their values. */
  lemma {:induction false} BinaryTextOfParts(parts: seq<string>)
    requires |parts| == 4 && forall i :: 0 <= i < 4 ==> IsBinary(parts[i]) && |parts[i]| == 8
    ensures IsOctets([BinValue(parts[0]), BinValue(parts[1]), BinValue(parts[2]), BinValue(parts[3])])
    ensures BinaryText([BinValue(parts[0]), BinValue(parts[1]), BinValue(parts[2]), BinValue(parts[3])]) == Join(parts, '.')
  {
    var o := [BinValue(parts[0]), BinValue(parts[1]), BinValue(parts[2]), BinValue(parts[3])];
    Pow2Constants();
    forall i | 0 <= i < 4 ensures Bin8(o[i]) == parts[i] {
      BinPadOfValue(parts[i]);
    }
    assert [Bin8(o[0]), Bin8(o[1]), Bin8(o[2]), Bin8(o[3])] == parts;
  }

  /** Binary to decimal and back gives the binary text back unchanged: an
      accepted binary text is already in the form ip_dec_to_bin prints. */
  lemma {:induction false} DecimalRoundTripFromBinary(ip: string)
    requires BinaryToDecimal(ip).Ok?
    ensures IpDecToBin(BinaryToDecimal(ip).value) == Ok(ip)
  {
    BinaryToDecimalMeaning(ip);
    var parts := Split(ip, '.');
    var o := [BinValue(parts[0]), BinValue(parts[1]), BinValue(parts[2]), BinValue(parts[3])];
    IpDecToBinOfFormat(FromOctets(o));
    OctetsOfFromOctets(o);
    BinaryTextOfParts(parts);
  }

  // ---------------------------------------------------------- hexadecimal

  /** Four octets as two upper-case hex digits each, joined by dots. */
  function HexText(o: seq<nat>): string
    requires IsOctets(o)
  {
    Join([Hex2(o[0]), Hex2(o[1]), Hex2(o[2]), Hex2(o[3])], '.')
  }

  /** ip_dec_to_hex: validate, then format(int(part), '02X') for each part. */
  function IpDecToHex(ip: string): Result<string>
  {
    match ValidateIpDecimal(ip)
    case Err(e) => Err(e)
    case Ok(_) => Ok(HexText(DottedOctets(ip)))
  }

  /** The hex text splits into four parts of two upper-case hex digits that
      read back as the octets. */
  lemma {:induction false} HexTextParts(o: seq<nat>)
    requires IsOctets(o)
    ensures var parts := Split(HexText(o), '.');
      && |parts| == 4
      && forall i :: 0 <= i < 4 ==> IsUpperHexPair(parts[i]) && IsHex(parts[i]) && HexValue(parts[i]) == o[i]
  {
    var hs := [Hex2(o[0]), Hex2(o[1]), Hex2(o[2]), Hex2(o[3])];
    forall i | 0 <= i < 4 ensures '.' !in hs[i] {
      assert hs[i][0] != '.' && hs[i][1] != '.';
    }
    SplitJoin(hs, '.');
  }

  /** ip_dec_to_hex fails exactly when validation fails, with the same error;
      otherwise its four parts are two upper-case hex digits spelling the
      octets. */
  lemma {:induction false} IpDecToHexShape(ip: string)
    ensures IpDecToHex(ip).Err? <==> ValidateIpDecimal(ip).Err?
    ensures IpDecToHex(ip).Err? ==> IpDecToHex(ip).error == ValidateIpDecimal(ip).error
    ensures IpDecToHex(ip).Ok? ==>
      var parts := Split(IpDecToHex(ip).value, '.');
      && |parts| == 4
      && forall i :: 0 <= i < 4 ==>
           IsUpperHexPair(parts[i]) && IsHex(parts[i]) && HexValue(parts[i]) == DottedOctets(ip)[i]
  {
    if ValidateIpDecimal(ip).Ok? {
      HexTextParts(DottedOctets(ip));
    }
  }

  /** The per-part checks of ip_hex_to_dec, in the source's order: only hex
      digits of either case, int(part, 16) (which rejects an empty part), then
      at most 255. */
  function HexOctet(part: string): Result<nat>
  {
    if !IsHex(part) then Err(NotHex)
    else if part == [] then Err(NotAnInteger)
    else if HexValue(part) > 255 then Err(HexOutOfRange)
    else Ok(HexValue(part))
  }

  /** What ip_hex_to_dec returns. */
  function HexToDecimal(ip: string): Result<string>
  {
    var parts := Split(ip, '.');
    if |parts| != 4 then Err(WrongPartCount)
    else
      match MapAll(parts, HexOctet)
      case Err(e) => Err(e)
      case Ok(vs) => Ok(Join(DecimalParts(vs), '.'))
  }

  /** ip_hex_to_dec: the loop that converts the parts one by one and stops at
      the first bad one. */
  method IpHexToDec(ip: string) returns (r: Result<string>)
    ensures r == HexToDecimal(ip)
  {
    var parts := Split(ip, '.');
    if |parts| != 4 {
      return Err(WrongPartCount);
    }
    var decimalParts: seq<string> := [];
    ghost var values: seq<nat> := [];
    var i := 0;
    while i < |parts|
      invariant 0 <= i <= |parts|
      invariant MapFirst(parts, i, HexOctet) == Ok(values)
      invariant decimalParts == DecimalParts(values)
    {
      var part := parts[i];
      MapFirstStep(parts, i, HexOctet, values);
      if !IsHex(part) {
        return Err(NotHex);
      }
      if part == [] {
        return Err(NotAnInteger);
      }
      var num := HexValue(part);
      if num > 255 {
        return Err(HexOutOfRange);
      }
      DecimalPartsSnoc(values, num);
      decimalParts := decimalParts + [NatToDecimal(num)];
      values := values + [num];
      i := i + 1;
    }
    MapFirstAll(parts, HexOctet);
    r := Ok(Join(decimalParts, '.'));
  }

  /** A part ip_hex_to_dec accepts. */
  predicate IsHexOctetText(part: string) {
    IsHex(part) && part != [] && HexValue(part) <= 255
  }

  /** ip_hex_to_dec accepts exactly four non-empty parts of hex digits (either
      case, any length) whose values are at most 255, and then returns the
      decimal value of each part. */
  lemma {:induction false} HexToDecimalMeaning(ip: string)
    ensures var parts := Split(ip, '.');
      HexToDecimal(ip).Ok? <==> |parts| == 4 && forall i :: 0 <= i < 4 ==> IsHexOctetText(parts[i])
    ensures var parts := Split(ip, '.');
      HexToDecimal(ip).Ok? ==>
        var o := [HexValue(parts[0]), HexValue(parts[1]), HexValue(parts[2]), HexValue(parts[3])];
        IsOctets(o) && HexToDecimal(ip).value == FormatV4(FromOctets(o))
  {
    var parts := Split(ip, '.');
    if |parts| == 4 && MapAll(parts, HexOctet).Ok? {
      assert HexOctet(parts[0]).Ok? && HexOctet(parts[1]).Ok?;
      assert HexOctet(parts[2]).Ok? && HexOctet(parts[3]).Ok?;
      var o := [HexValue(parts[0]), HexValue(parts[1]), HexValue(parts[2]), HexValue(parts[3])];
      assert MapAll(parts, HexOctet).value == o;
      OctetsOfFromOctets(o);
    }
  }

  /** Hex text made from octets converts back to their dotted decimal form. */
  lemma {:induction false} HexTextDecodes(o: seq<nat>)
    requires IsOctets(o)
    ensures HexToDecimal(HexText(o)) == Ok(FormatV4(FromOctets(o)))
  {
    HexTextParts(o);
    HexToDecimalMeaning(HexText(o));
    var parts := Split(HexText(o), '.');
    assert [HexValue(parts[0]), HexValue(parts[1]), HexValue(parts[2]), HexValue(parts[3])] == o;
  }

  /** Decimal to hex and back gives the canonical spelling of the input (the
      input itself when it is already canonical, see ValidateFormatV4). */
  lemma {:induction false} HexRoundTrip(ip: string)
    requires ValidateIpDecimal(ip).Ok?
    ensures IpDecToHex(ip).Ok?
    ensures HexToDecimal(IpDecToHex(ip).value) == Ok(CanonicalV4(ip))
  {
    HexTextDecodes(DottedOctets(ip));
  }

  /** The hex text of the canonical form of an address. */
  lemma {:induction false} IpDecToHexOfFormat(v: nat)
    requires v < V4Count
    ensures IpDecToHex(FormatV4(v)) == Ok(HexText(Octets(v)))
  {
    ValidateFormatV4(v);
  }

  /** Hex text made from octets is the given parts exactly when each part is
      two upper-case hex digits with that octet's value. */
  lemma {:induction false} HexTextOfParts(parts: seq<string>)
    requires |parts| == 4 && forall i :: 0 <= i < 4 ==> '.' !in parts[i]
    requires IsHexOctetText(parts[0]) && IsHexOctetText(parts[1])
    requires IsHexOctetText(parts[2]) && IsHexOctetText(parts[3])
    ensures IsOctets([HexValue(parts[0]), HexValue(parts[1]), HexValue(parts[2]), HexValue(parts[3])])
    ensures HexText([HexValue(parts[0]), HexValue(parts[1]), HexValue(parts[2]), HexValue(parts[3])]) == Join(parts, '.')
      <==> forall i :: 0 <= i < 4 ==> IsUpperHexPair(parts[i])
  {
    var o := [HexValue(parts[0]), HexValue(parts[1]), HexValue(parts[2]), HexValue(parts[3])];
    var hs := [Hex2(o[0]), Hex2(o[1]), Hex2(o[2]), Hex2(o[3])];
    if forall i :: 0 <= i < 4 ==> IsUpperHexPair(parts[i]) {
      forall i | 0 <= i < 4 ensures hs[i] == parts[i] {
        Hex2OfValue(parts[i]);
      }
      assert hs == parts;
    } else {
      HexTextParts(o);
      SplitJoin(parts, '.');
    }
  }

  /** Hex to decimal and back gives the hex text back exactly when each part
      is written as ip_dec_to_hex writes it: two upper-case digits. */
  lemma {:induction false} DecimalRoundTripFromHex(ip: string)
    requires HexToDecimal(ip).Ok?
    ensures IpDecToHex(HexToDecimal(ip).value).Ok?
    ensures IpDecToHex(HexToDecimal(ip).value) == Ok(ip) <==>
      forall i :: 0 <= i < 4 ==> IsUpperHexPair(Split(ip, '.')[i])
  {
    HexToDecimalMeaning(ip);
    var parts := Split(ip, '.');
    var o := [HexValue(parts[0]), HexValue(parts[1]), HexValue(parts[2]), HexValue(parts[3])];
    IpDecToHexOfFormat(FromOctets(o));
    OctetsOfFromOctets(o);
    HexTextOfParts(parts);
  }

  // ------------------------------------------------- netmask and prefix

  /** The 32 binary digits of four octets. */
  function OctetBits(o: seq<nat>): string
    requires IsOctets(o)
  {
    Bin8(o[0]) + Bin8(o[1]) + Bin8(o[2]) + Bin8(o[3])
  }

  /** The 32 digits spell the octets' 32-bit value. */
  lemma {:induction false} OctetBitsValue(o: seq<nat>)
    requires IsOctets(o)
    ensures |OctetBits(o)| == V4Bits && IsBinary(OctetBits(o))
    ensures BinValue(OctetBits(o)) == FromOctets(o)
  {
    BinaryOctetsValue(Bin8(o[0]), Bin8(o[1]), Bin8(o[2]), Bin8(o[3]));
    assert [BinValue(Bin8(o[0])), BinValue(Bin8(o[1])), BinValue(Bin8(o[2])), BinValue(Bin8(o[3]))] == o;
  }

  /** The 32 digits of the octets contain "01" exactly when their value is no
      netmask, and otherwise the number of 1s is the netmask's prefix. */
  lemma {:induction false} OctetBitsMask(o: seq<nat>)
    requires IsOctets(o)
    ensures HasZeroOne(OctetBits(o)) <==> PrefixOfMask(V4Bits, FromOctets(o)).None?
    ensures !HasZeroOne(OctetBits(o)) ==> CountOnes(OctetBits(o)) == PrefixOfMask(V4Bits, FromOctets(o)).value
  {
    OctetBitsValue(o);
    MaskDigits(OctetBits(o));
  }

  /** mask_to_cidr: the 32 binary digits of the mask must not contain "01";
      the prefix length is then the number of 1s. */
  function MaskToCidr(mask: string): Result<string>
  {
    match ValidateIpDecimal(mask)
    case Err(e) => Err(e)
    case Ok(_) =>
      var binary := OctetBits(DottedOctets(mask));
      if HasZeroOne(binary) then Err(NonContiguousMask)
      else Ok(NatToDecimal(CountOnes(binary)))
  }

  /** mask_to_cidr returns str(p) exactly when the mask's 32-bit value is the
      mask of prefix p, rejects as non-contiguous every other mask that
      validates, and passes validation errors through. */
  lemma {:induction false} MaskToCidrMeaning(mask: string)
    ensures ValidateIpDecimal(mask).Err? ==> MaskToCidr(mask) == Err(ValidateIpDecimal(mask).error)
    ensures ValidateIpDecimal(mask).Ok? ==>
      MaskToCidr(mask) ==
        match PrefixOfMask(V4Bits, FromOctets(DottedOctets(mask)))
        case Some(p) => Ok(NatToDecimal(p))
        case None => Err(NonContiguousMask)
  {
    if ValidateIpDecimal(mask).Ok? {
      OctetBitsMask(DottedOctets(mask));
    }
  }

  /** cidr_to_mask's text for a prefix: p ones and 32 - p zeros, read back
      eight digits at a time. */
  function PrefixMaskText(p: nat): string
    requires p <= V4Bits
  {
    var binary := Ones(p) + Zeros(V4Bits - p);
    Join(DecimalParts([BinValue(binary[0..8]), BinValue(binary[8..16]),
                       BinValue(binary[16..24]), BinValue(binary[24..32])]), '.')
  }

  /** That text is the dotted form of the netmask of prefix p. */
  lemma {:induction false} PrefixMaskTextMeaning(p: nat)
    requires p <= V4Bits
    ensures PrefixMaskText(p) == FormatV4(V4Mask(p))
  {
    var binary := Ones(p) + Zeros(V4Bits - p);
    var o := [BinValue(binary[0..8]), BinValue(binary[8..16]), BinValue(binary[16..24]), BinValue(binary[24..32])];
    PrefixMaskOctets(p);
    OctetsOfFromOctets(o);
  }

  /** The four 8-bit slices of the mask's bits are the octets of the netmask. */
  lemma PrefixMaskOctets(p: nat)
    requires p <= V4Bits
    ensures var binary := Ones(p) + Zeros(V4Bits - p);
      var o := [BinValue(binary[0..8]), BinValue(binary[8..16]), BinValue(binary[16..24]), BinValue(binary[24..32])];
      IsOctets(o) && FromOctets(o) == V4Mask(p)
  {
    var binary := Ones(p) + Zeros(V4Bits - p);
    var b0, b1, b2, b3 := binary[0..8], binary[8..16], binary[16..24], binary[24..32];
    assert binary == b0 + b1 + b2 + b3;
    BinaryOctetsValue(b0, b1, b2, b3);
    OnesZerosValue(p, V4Bits - p);
    Pow2Constants();
  }

  /** cidr_to_mask: int() of the text, checked to be in 0..32. */
  function CidrToMask(cidr: string): Result<string>
  {
    match ParseInt(cidr)
    case None => Err(NotAnInteger)
    case Some(p) =>
      if p < 0 || p > 32 then Err(PrefixOutOfRange)
      else Ok(PrefixMaskText(p))
  }

  /** cidr_to_mask fails exactly for text that is not an integer in 0..32,
      and otherwise returns the dotted form of the mask with that many
      leading 1-bits. */
  lemma {:induction false} CidrToMaskMeaning(cidr: string)
    ensures CidrToMask(cidr).Ok? <==> ParseInt(cidr).Some? && 0 <= ParseInt(cidr).value <= V4Bits
    ensures ParseInt(cidr).None? ==> CidrToMask(cidr) == Err(NotAnInteger)
    ensures CidrToMask(cidr).Ok? ==> CidrToMask(cidr).value == FormatV4(V4Mask(ParseInt(cidr).value as nat))
  {
    if CidrToMask(cidr).Ok? {
      PrefixMaskTextMeaning(ParseInt(cidr).value as nat);
    }
  }

  /** cidr_to_mask rejects text holding one of the separators 0x1C..0x1F
      as no integer, even where str.strip() would remove them. */
  lemma CidrRejectsSeparator(cidr: string, c: char)
    requires 28 <= c as int <= 31 && c in cidr
    ensures CidrToMask(cidr) == Err(NotAnInteger)
  {
    ParseIntRejectsSeparator(cidr, c);
  }

  /** mask_to_cidr of the netmask of prefix p is str(p). */
  lemma {:induction false} V4MaskToCidr(p: nat)
    requires p <= V4Bits
    ensures MaskToCidr(FormatV4(V4Mask(p))) == Ok(NatToDecimal(p))
  {
    var m := V4Mask(p);
    ValidateFormatV4(m);
    MaskToCidrMeaning(FormatV4(m));
    assert m == MaskValue(V4Bits, p);
    PrefixOfMaskValue(V4Bits, p);
  }

  /** mask_to_cidr(cidr_to_mask(c)) == str(int(c)) for every accepted c. */
  lemma {:induction false} CidrMaskRoundTrip(cidr: string)
    requires CidrToMask(cidr).Ok?
    ensures MaskToCidr(CidrToMask(cidr).value) == Ok(NatToDecimal(ParseInt(cidr).value as nat))
  {
    CidrToMaskMeaning(cidr);
    V4MaskToCidr(ParseInt(cidr).value as nat);
  }

  /** cidr_to_mask(mask_to_cidr(m)) is the canonical spelling of every
      accepted mask m (m itself when m is canonical, see ValidateFormatV4). */
  lemma {:induction false} MaskCidrRoundTrip(mask: string)
    requires MaskToCidr(mask).Ok?
    ensures CidrToMask(MaskToCidr(mask).value) == Ok(CanonicalV4(mask))
  {
    MaskToCidrMeaning(mask);
    var p := PrefixOfMask(V4Bits, FromOctets(DottedOctets(mask))).value;
    NatToDecimalParses(p);
    CidrToMaskMeaning(NatToDecimal(p));
  }
}
