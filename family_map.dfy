/** convert_ip_v4_to_v6 and convert_ip_v6_to_v4 of backend/utils/ip_tools.py:
    moving addresses between the two families, entry by entry, with the
    first bad entry failing the whole batch.

    The IPv6 text grammar is not modelled: reading an IPv6 literal
    (socket.inet_pton(AF_INET6, ...) and ipaddress.IPv6Address(...)) and
    printing one (str(IPv6Address)) are parameters, partial functions to and
    total functions from 128-bit values. */
module FamilyMap {
  import opened Outcome
  import opened PyText
  import opened Dotted
  import opened Network

  /** Reads an IPv6 literal as its 128-bit value, or rejects it. */
  type V6Parser = string -> Option<V6Value>

  /** Prints a 128-bit value as an IPv6 literal. */
  type V6Printer = V6Value -> string

  /** How an entry of a list is read as an address. A reader is given the
      entry as it stands and strips it itself, as the source does before
      parsing (ip.strip()). */
  type V4Reader = string -> Option<V4Value>
  type V6Reader = string -> Option<V6Value>

  /** ipaddress.IPv4Address(entry.strip()): the strict dotted-decimal
      parser. */
  function StrictV4Reader(): V4Reader
  {
    s => ParseV4(Strip(s))
  }

  /** The strict parser reads nothing but the canonical text of an address. */
  lemma StrictV4ReaderCanonical(s: string)
    ensures StrictV4Reader()(s) == ParseV4(Strip(s))
    ensures StrictV4Reader()(s).Some? ==> FormatV4(StrictV4Reader()(s).value) == Strip(s)
  {
    if ParseV4(Strip(s)).Some? {
      ParseV4Canonical(Strip(s));
    }
  }

  /** socket.inet_pton(AF_INET6, entry.strip()) as a 128-bit value: the
      reading ignores whitespace around the entry, so an entry and its
      stripped text read the same. */
  function PtonReader(pton: V6Parser): (read6: V6Reader)
    ensures forall s :: read6(s) == pton(Strip(s))
    ensures forall s :: read6(s) == read6(Strip(s))
  {
    s => pton(Strip(s))
  }

  // --------------------------------------------------------- packed bytes

  /** The k bytes of v (taken modulo 256^k), most significant first: for
      k = 16 the packed form socket.inet_pton returns. */
  function Packed(v: nat, k: nat): (b: seq<nat>)
    ensures |b| == k && forall i :: 0 <= i < k ==> b[i] < 256
  {
    if k == 0 then [] else Packed(v / 256, k - 1) + [v % 256]
  }

  /** The last j bytes of a packed form are the j-byte packed form. */
  lemma {:induction false} PackedSuffix(v: nat, k: nat, j: nat)
    requires j <= k
    ensures Packed(v, k)[k - j..] == Packed(v, j)
  {
    if j > 0 {
      PackedSuffix(v / 256, k - 1, j - 1);
      assert Packed(v, k)[k - j..] == Packed(v / 256, k - 1)[k - j..] + [v % 256];
    }
  }

  /** Four packed bytes are the octets of the value's low 32 bits. */
  lemma PackedLowBits(v: nat)
    ensures Packed(v, 4) == Octets(v % V4Count)
  {
    var q1 := v / 256;
    var q2 := q1 / 256;
    var q3 := q2 / 256;
    var o := [q3 % 256, q2 % 256, q1 % 256, v % 256];
    assert Packed(q3, 1) == [q3 % 256];
    assert Packed(q2, 2) == [q3 % 256, q2 % 256];
    assert Packed(q1, 3) == [q3 % 256, q2 % 256, q1 % 256];
    assert Packed(v, 4) == o;
    var low := FromOctets(o);
    assert v == q1 * 256 + v % 256;
    assert q1 == q2 * 256 + q1 % 256;
    assert q2 == q3 * 256 + q2 % 256;
    assert q3 == q3 / 256 * 256 + q3 % 256;
    assert v == q3 / 256 * V4Count + low;
    LowBits(v, q3 / 256, low);
    OctetsOfFromOctets(o);
  }

  /** A value split as q * 2^32 + r, with r below 2^32, has r as its low 32 bits. */
  lemma LowBits(v: nat, q: nat, r: nat)
    requires r < V4Count && v == q * V4Count + r
    ensures v % V4Count == r
  {
  }

  /** socket.inet_ntoa of four bytes: dotted decimal. */
  function Ntoa(b: seq<nat>): string
    requires IsOctets(b)
  {
    Join(DecimalParts(b), '.')
  }

  /** inet_ntoa(packed[-4:]) for the packed form of w. */
  function LastFour(w: nat): string
  {
    Ntoa(Packed(w, 16)[12..])
  }

  /** inet_ntoa(inet_pton(AF_INET6, s)[-4:]) prints the low 32 bits of the
      128-bit value as an IPv4 address: it is the value modulo 2^32. */
  lemma LastFourBytes(w: nat)
    ensures LastFour(w) == FormatV4(w % V4Count)
  {
    PackedSuffix(w, 16, 4);
    PackedLowBits(w);
  }

  // ------------------------------------------------------------- IPv6 to IPv4

  /** One entry of convert_ip_v6_to_v4: the entry is read as an IPv6
      address and its last four bytes are printed. */
  function V6ToV4Entry(read6: V6Reader): string -> Result<string>
  {
    s => match read6(s)
         case None => Err(InvalidAddress)
         case Some(w) => Ok(LastFour(w))
  }

  /** convert_ip_v6_to_v4(ipv6_list), blank entries skipped. */
  function V6ToV4(ipv6List: seq<string>, read6: V6Reader): Result<seq<string>>
  {
    MapEntries(ipv6List, |ipv6List|, V6ToV4Entry(read6))
  }

  /** Every non-blank entry is read as an IPv6 address. */
  predicate AllRead(entries: seq<string>, read6: V6Reader) {
    forall i :: 0 <= i < |entries| && !IsBlank(entries[i]) ==> read6(entries[i]).Some?
  }

  /** convert_ip_v6_to_v4 succeeds exactly when every non-blank entry is an
      IPv6 address; then it returns one address per non-blank entry, in
      order: the low 32 bits of that entry's value in dotted decimal, which
      the strict IPv4 parser reads back as that value. */
  lemma V6ToV4Meaning(ipv6List: seq<string>, read6: V6Reader)
    ensures V6ToV4(ipv6List, read6).Ok? <==> AllRead(ipv6List, read6)
    ensures V6ToV4(ipv6List, read6).Err? ==> V6ToV4(ipv6List, read6).error == InvalidAddress
    ensures var r := V6ToV4(ipv6List, read6);
      var kept := NonBlank(ipv6List);
      r.Ok? ==>
        && |r.value| == |kept|
        && forall k :: 0 <= k < |kept| ==>
             && read6(kept[k]).Some?
             && r.value[k] == FormatV4(read6(kept[k]).value % V4Count)
             && ParseV4(r.value[k]) == Some(read6(kept[k]).value % V4Count)
  {
    V6ToV4Batch(ipv6List, read6);
    V6ToV4Reads(ipv6List, read6);
    if V6ToV4(ipv6List, read6).Ok? {
      V6ToV4Texts(NonBlank(ipv6List), read6);
    }
  }

  /** The whole list is converted as its non-blank entries are. */
  lemma V6ToV4Batch(ipv6List: seq<string>, read6: V6Reader)
    ensures V6ToV4(ipv6List, read6) == MapAll(NonBlank(ipv6List), V6ToV4Entry(read6))
  {
    MapEntriesIsMapAll(ipv6List, |ipv6List|, V6ToV4Entry(read6));
    assert ipv6List[..|ipv6List|] == ipv6List;
  }

  /** The non-blank entries convert exactly when each is read, and the only
      failure is an invalid address. */
  lemma V6ToV4Reads(ipv6List: seq<string>, read6: V6Reader)
    ensures var r := MapAll(NonBlank(ipv6List), V6ToV4Entry(read6));
      && (r.Ok? <==> AllRead(ipv6List, read6))
      && (r.Err? ==> r.error == InvalidAddress)
  {
    var f := V6ToV4Entry(read6);
    var kept := NonBlank(ipv6List);
    NonBlankAll(ipv6List, f);
    forall i | 0 <= i < |ipv6List|
      ensures f(ipv6List[i]).Ok? <==> read6(ipv6List[i]).Some?
    {
    }
    var r := MapAll(kept, f);
    if r.Err? {
      var i :| 0 <= i < |kept| && f(kept[i]).Err? && r.error == f(kept[i]).error;
    }
  }

  /** Each converted entry is the low 32 bits of its value in dotted decimal. */
  lemma V6ToV4Texts(kept: seq<string>, read6: V6Reader)
    requires MapAll(kept, V6ToV4Entry(read6)).Ok?
    ensures var r := MapAll(kept, V6ToV4Entry(read6)).value;
      && |r| == |kept|
      && forall k :: 0 <= k < |kept| ==>
           && read6(kept[k]).Some?
           && r[k] == FormatV4(read6(kept[k]).value % V4Count)
           && ParseV4(r[k]) == Some(read6(kept[k]).value % V4Count)
  {
    var f := V6ToV4Entry(read6);
    var r := MapAll(kept, f).value;
    forall k | 0 <= k < |kept|
      ensures read6(kept[k]).Some?
      ensures r[k] == FormatV4(read6(kept[k]).value % V4Count)
      ensures ParseV4(r[k]) == Some(read6(kept[k]).value % V4Count)
    {
      assert f(kept[k]).Ok?;
      var w := read6(kept[k]).value;
      LastFourBytes(w);
      FormatV4Parses(w % V4Count);
    }
  }

  /** The loop of convert_ip_v6_to_v4 (lines 81-87). */
  method ConvertIpV6ToV4(ipv6List: seq<string>, read6: V6Reader) returns (r: Result<seq<string>>)
    ensures r == V6ToV4(ipv6List, read6)
  {
    var result: seq<string> := [];
    var i := 0;
    while i < |ipv6List|
      invariant 0 <= i <= |ipv6List|
      invariant MapEntries(ipv6List, i, V6ToV4Entry(read6)) == Ok(result)
    {
      V6ToV4Step(ipv6List, i, result, read6);
      var ip := ipv6List[i];
      if IsBlank(ip) {
        i := i + 1;
        continue;
      }
      var packed := read6(ip);
      if packed.None? {
        return Err(InvalidAddress);
      }
      var ipv4Address := LastFour(packed.value);
      result := result + [ipv4Address];
      i := i + 1;
    }
    r := Ok(result);
  }

  /** One turn of the loop: a blank entry changes nothing, an entry that
      is not an IPv6 address fails the batch, any other adds its low 32 bits. */
  lemma V6ToV4Step(entries: seq<string>, i: nat, done: seq<string>, read6: V6Reader)
    requires i < |entries| && MapEntries(entries, i, V6ToV4Entry(read6)) == Ok(done)
    ensures IsBlank(entries[i]) ==> MapEntries(entries, i + 1, V6ToV4Entry(read6)) == Ok(done)
    ensures !IsBlank(entries[i]) && read6(entries[i]).None? ==>
      V6ToV4(entries, read6) == Err(InvalidAddress)
    ensures !IsBlank(entries[i]) && read6(entries[i]).Some? ==>
      MapEntries(entries, i + 1, V6ToV4Entry(read6)) == Ok(done + [LastFour(read6(entries[i]).value)])
  {
    if !IsBlank(entries[i]) && read6(entries[i]).None? {
      MapEntriesFailed(entries, i + 1, |entries|, V6ToV4Entry(read6));
    }
  }

  // ------------------------------------------------------------- IPv4 to IPv6

  /** One entry of convert_ip_v4_to_v6: the entry is read as an IPv4
      address, its dotted form is appended to the prefix, the text is read
      as an IPv6 address and printed again. */
  function V4ToV6Entry(read4: V4Reader, prefix: string, parse6: V6Parser, show6: V6Printer): string -> Result<string>
  {
    s => match read4(s)
         case None => Err(InvalidAddress)
         case Some(v) => Embed(v, prefix, parse6, show6)
  }

  /** str(IPv6Address(ipv6_prefix + str(ipv4))). */
  function Embed(v: V4Value, prefix: string, parse6: V6Parser, show6: V6Printer): Result<string>
  {
    match parse6(prefix + FormatV4(v))
    case None => Err(InvalidAddress)
    case Some(w) => Ok(show6(w))
  }
  /** convert_ip_v4_to_v6(ipv4_list, ipv6_prefix), blank entries skipped. */
  function V4ToV6(ipv4List: seq<string>, read4: V4Reader, prefix: string, parse6: V6Parser, show6: V6Printer)
    : Result<seq<string>>
  {
    MapEntries(ipv4List, |ipv4List|, V4ToV6Entry(read4, prefix, parse6, show6))
  }

  /** The loop of convert_ip_v4_to_v6 (lines 68-74). */
  method ConvertIpV4ToV6(ipv4List: seq<string>, read4: V4Reader, ipv6Prefix: string, parse6: V6Parser, show6: V6Printer)
    returns (r: Result<seq<string>>)
    ensures r == V4ToV6(ipv4List, read4, ipv6Prefix, parse6, show6)
  {
    var result: seq<string> := [];
    var i := 0;
    while i < |ipv4List|
      invariant 0 <= i <= |ipv4List|
      invariant MapEntries(ipv4List, i, V4ToV6Entry(read4, ipv6Prefix, parse6, show6)) == Ok(result)
    {
      V4ToV6Step(ipv4List, i, result, read4, ipv6Prefix, parse6, show6);
      var ip := ipv4List[i];
      if IsBlank(ip) {
        i := i + 1;
        continue;
      }
      var ipv4 := read4(ip);
      if ipv4.None? {
        return Err(InvalidAddress);
      }
      var ipv6 := Embed(ipv4.value, ipv6Prefix, parse6, show6);
      if ipv6.Err? {
        return Err(InvalidAddress);
      }
      result := result + [ipv6.value];
      i := i + 1;
    }
    r := Ok(result);
  }

  /** One turn of the loop: a blank entry changes nothing, an entry that is
      not an IPv4 address, or whose text after the prefix is not an IPv6
      address, fails the batch, any other adds the printed IPv6 address. */
  lemma V4ToV6Step(entries: seq<string>, i: nat, done: seq<string>,
                   read4: V4Reader, prefix: string, parse6: V6Parser, show6: V6Printer)
    requires i < |entries| && MapEntries(entries, i, V4ToV6Entry(read4, prefix, parse6, show6)) == Ok(done)
    ensures IsBlank(entries[i]) ==> MapEntries(entries, i + 1, V4ToV6Entry(read4, prefix, parse6, show6)) == Ok(done)
    ensures !IsBlank(entries[i]) && V4ToV6Entry(read4, prefix, parse6, show6)(entries[i]).Err? ==>
      V4ToV6(entries, read4, prefix, parse6, show6) == Err(InvalidAddress)
    ensures !IsBlank(entries[i]) && read4(entries[i]).Some? && Embed(read4(entries[i]).value, prefix, parse6, show6).Ok? ==>
      MapEntries(entries, i + 1, V4ToV6Entry(read4, prefix, parse6, show6)) ==
        Ok(done + [Embed(read4(entries[i]).value, prefix, parse6, show6).value])
  {
    if !IsBlank(entries[i]) && V4ToV6Entry(read4, prefix, parse6, show6)(entries[i]).Err? {
      MapEntriesFailed(entries, i + 1, |entries|, V4ToV6Entry(read4, prefix, parse6, show6));
    }
  }

  // ---------------------------------------------------------- round trip

  /** What a prefix such as "::ffff:" or "64:ff9b::" does: the IPv6 literal
      it makes with a dotted IPv4 address is read, and carries that address
      in its low 32 bits. */
  ghost predicate CarriesLowBits(prefix: string, parse6: V6Parser) {
    forall v: V4Value ::
      parse6(prefix + FormatV4(v)).Some? && parse6(prefix + FormatV4(v)).value % V4Count == v
  }

  /** The IPv6 printer's text is never blank and the IPv6 reader reads it
      back. */
  ghost predicate ReadsBack(read6: V6Reader, show6: V6Printer) {
    forall w: V6Value :: !IsBlank(show6(w)) && read6(show6(w)) == Some(w)
  }

  /** The texts f gives the non-blank entries among the first n, in order,
      skipping the entries it gives none for. */
  function TextsOf(entries: seq<string>, n: nat, f: string -> Option<string>): seq<string>
    requires n <= |entries|
  {
    if n == 0 then []
    else if IsBlank(entries[n - 1]) || f(entries[n - 1]).None? then TextsOf(entries, n - 1, f)
    else TextsOf(entries, n - 1, f) + [f(entries[n - 1]).value]
  }

  /** The canonical dotted text of the address an entry is read as. */
  function CanonicalOf(read4: V4Reader): string -> Option<string> {
    s => if read4(s).Some? then Some(FormatV4(read4(s).value)) else None
  }

  /** The canonical dotted text of the address each non-blank entry among
      the first n is read as. */
  function CanonicalTexts(entries: seq<string>, read4: V4Reader, n: nat): seq<string>
    requires n <= |entries|
  {
    TextsOf(entries, n, CanonicalOf(read4))
  }

  /** Two text functions that agree on the non-blank entries give the same
      texts. */
  lemma {:induction false} TextsAgree(entries: seq<string>, n: nat, f: string -> Option<string>, g: string -> Option<string>)
    requires n <= |entries|
    requires forall i :: 0 <= i < n && !IsBlank(entries[i]) ==> f(entries[i]) == g(entries[i])
    ensures TextsOf(entries, n, f) == TextsOf(entries, n, g)
  {
    if n > 0 {
      TextsAgree(entries, n - 1, f, g);
    }
  }

  /** Entries after the first m of a longer list do not change the first m
      results. */
  lemma {:induction false} MapEntriesPrefix<U>(longer: seq<string>, items: seq<string>, m: nat, f: string -> Result<U>)
    requires m <= |items| <= |longer|
    requires forall k :: 0 <= k < |items| ==> longer[k] == items[k]
    ensures MapEntries(longer, m, f) == MapEntries(items, m, f)
  {
    if m > 0 {
      MapEntriesPrefix(longer, items, m - 1, f);
    }
  }

  /** Mapping the first n entries with f and the results with g gives the
      texts h gives those entries, when g undoes every result of f into h's
      text. */
  lemma {:induction false} MapBack(entries: seq<string>, n: nat, ys: seq<string>,
                                   f: string -> Result<string>, g: string -> Result<string>, h: string -> Option<string>)
    requires forall s :: f(s).Ok? ==> !IsBlank(f(s).value) && h(s).Some? && g(f(s).value) == Ok(h(s).value)
    requires n <= |entries| && MapEntries(entries, n, f) == Ok(ys)
    ensures MapEntries(ys, |ys|, g) == Ok(TextsOf(entries, n, h))
  {
    if n > 0 {
      var before := MapEntries(entries, n - 1, f).value;
      MapBack(entries, n - 1, before, f, g, h);
      if !IsBlank(entries[n - 1]) {
        var y := f(entries[n - 1]).value;
        assert ys == before + [y];
        MapEntriesPrefix(ys, before, |before|, g);
      }
    }
  }

  /** With a prefix that carries the IPv4 address in the low 32 bits,
      mapping the first n entries to IPv6 and back gives the canonical text
      of each entry's IPv4 address. */
  lemma RoundTrip(entries: seq<string>, n: nat, ys: seq<string>, read4: V4Reader,
                  prefix: string, parse6: V6Parser, show6: V6Printer, read6: V6Reader)
    requires CarriesLowBits(prefix, parse6) && ReadsBack(read6, show6)
    requires n <= |entries| && MapEntries(entries, n, V4ToV6Entry(read4, prefix, parse6, show6)) == Ok(ys)
    ensures MapEntries(ys, |ys|, V6ToV4Entry(read6)) == Ok(CanonicalTexts(entries, read4, n))
  {
    var f := V4ToV6Entry(read4, prefix, parse6, show6);
    forall s | f(s).Ok?
      ensures !IsBlank(f(s).value) && CanonicalOf(read4)(s).Some? && V6ToV4Entry(read6)(f(s).value) == Ok(CanonicalOf(read4)(s).value)
    {
      RoundTripEntry(s, f(s).value, read4, prefix, parse6, show6, read6);
    }
    MapBack(entries, n, ys, f, V6ToV4Entry(read6), CanonicalOf(read4));
  }

  /** One entry of the round trip. */
  lemma RoundTripEntry(s: string, y: string, read4: V4Reader,
                       prefix: string, parse6: V6Parser, show6: V6Printer, read6: V6Reader)
    requires CarriesLowBits(prefix, parse6) && ReadsBack(read6, show6)
    requires V4ToV6Entry(read4, prefix, parse6, show6)(s) == Ok(y)
    ensures read4(s).Some? && !IsBlank(y) && V6ToV4Entry(read6)(y) == Ok(FormatV4(read4(s).value))
  {
    var v := read4(s).value;
    var w := parse6(prefix + FormatV4(v)).value;
    assert y == show6(w);
    LastFourBytes(w);
  }

  /** An entry's text with surrounding whitespace removed. */
  function StripOf(s: string): Option<string> {
    Some(Strip(s))
  }

  /** The non-blank entries among the first n, stripped. */
  function StrippedEntries(entries: seq<string>, n: nat): seq<string>
    requires n <= |entries|
  {
    TextsOf(entries, n, StripOf)
  }

  /** Every non-blank entry among the first n is an IPv4 address. */
  predicate AllV4(entries: seq<string>, read4: V4Reader, n: nat)
    requires n <= |entries|
  {
    forall i :: 0 <= i < n && !IsBlank(entries[i]) ==> read4(entries[i]).Some?
  }

  /** A successful batch read every non-blank entry as an IPv4 address. */
  lemma {:induction false} V4ToV6Read(entries: seq<string>, n: nat, read4: V4Reader,
                                      prefix: string, parse6: V6Parser, show6: V6Printer)
    requires n <= |entries| && MapEntries(entries, n, V4ToV6Entry(read4, prefix, parse6, show6)).Ok?
    ensures AllV4(entries, read4, n)
  {
    if n > 0 {
      V4ToV6Read(entries, n - 1, read4, prefix, parse6, show6);
    }
  }

  /** convert_ip_v6_to_v4(convert_ip_v4_to_v6(entries, prefix)) returns the
      stripped non-blank entries when the prefix carries the IPv4 address in
      the low 32 bits and the IPv6 text printed is read back. */
  lemma V4ToV6ToV4(entries: seq<string>, prefix: string, parse6: V6Parser, show6: V6Printer, read6: V6Reader)
    requires CarriesLowBits(prefix, parse6) && ReadsBack(read6, show6)
    requires V4ToV6(entries, StrictV4Reader(), prefix, parse6, show6).Ok?
    ensures V6ToV4(V4ToV6(entries, StrictV4Reader(), prefix, parse6, show6).value, read6) ==
      Ok(StrippedEntries(entries, |entries|))
  {
    var read4 := StrictV4Reader();
    var ys := V4ToV6(entries, read4, prefix, parse6, show6).value;
    RoundTrip(entries, |entries|, ys, read4, prefix, parse6, show6, read6);
    V4ToV6Read(entries, |entries|, read4, prefix, parse6, show6);
    forall i | 0 <= i < |entries| && !IsBlank(entries[i])
      ensures CanonicalOf(read4)(entries[i]) == StripOf(entries[i])
    {
      StrictV4ReaderCanonical(entries[i]);
    }
    TextsAgree(entries, |entries|, CanonicalOf(read4), StripOf);
  }
}
