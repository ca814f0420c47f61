/** The Python string primitives that ip_tools relies on: str.split and
    str.join with a one-character separator, str.strip, int() on decimal text
    and str() of a non-negative integer. Characters are Unicode code points;
    only the ASCII part of Python's whitespace and digit tables is modelled.
    On ASCII, str.strip() and int() differ: int() does not skip 0x1C..0x1F. */
module PyText {
  import opened Outcome

  /** Whitespace as str.strip() treats it, restricted to ASCII: tab, line
      feed, vertical tab, form feed, carriage return, the four separators
      0x1C..0x1F, and space. */
  predicate IsSpace(c: char) {
    9 <= c as int <= 13 || 28 <= c as int <= 32
  }

  /** Whitespace as int() skips it around the number, restricted to ASCII:
      tab, line feed, vertical tab, form feed, carriage return and space.
      The separators 0x1C..0x1F are not among them. */
  predicate IsIntSpace(c: char) {
    9 <= c as int <= 13 || c as int == 32
  }

  /** The text without the leading characters of the set `space`. */
  function LStrip(s: string, space: char -> bool): (r: string)
    ensures |r| <= |s| && r == s[|s| - |r|..]
    ensures r != [] ==> !space(r[0])
    ensures forall i :: 0 <= i < |s| - |r| ==> space(s[i])
  {
    if s != [] && space(s[0]) then
      var r := LStrip(s[1..], space);
      assert forall i :: 1 <= i < |s| - |r| ==> s[i] == s[1..][i - 1];
      r
    else s
  }

  /** The text without the trailing characters of the set `space`. */
  function RStrip(s: string, space: char -> bool): (r: string)
    ensures |r| <= |s| && r == s[..|r|]
    ensures r != [] ==> !space(r[|r| - 1])
    ensures forall i :: |r| <= i < |s| ==> space(s[i])
  {
    if s != [] && space(s[|s| - 1]) then RStrip(s[..|s| - 1], space) else s
  }

  /** Text made of whitespace only, the entries for which `not text.strip()`
      holds. */
  predicate IsBlank(s: string) {
    forall i :: 0 <= i < |s| ==> IsSpace(s[i])
  }

  /** str.strip(): the text without leading and trailing whitespace. The
      result is blank exactly when the whole text is whitespace, and text that
      neither starts nor ends with whitespace is left alone. */
  function Strip(s: string): (r: string)
    ensures r == [] <==> IsBlank(s)
    ensures r != [] ==> !IsSpace(r[0]) && !IsSpace(r[|r| - 1])
    ensures (s == [] || (!IsSpace(s[0]) && !IsSpace(s[|s| - 1]))) ==> r == s
  {
    var l := LStrip(s, IsSpace);
    var r := RStrip(l, IsSpace);
    assert r == [] ==> l == [];
    r
  }

  /** The trimming int() does before reading a number: whitespace in its
      narrower sense is removed from both ends. */
  function IntStrip(s: string): (r: string)
    ensures r != [] ==> !IsIntSpace(r[0]) && !IsIntSpace(r[|r| - 1])
    ensures (s == [] || (!IsIntSpace(s[0]) && !IsIntSpace(s[|s| - 1]))) ==> r == s
  {
    RStrip(LStrip(s, IsIntSpace), IsIntSpace)
  }

  /** Position of the first occurrence of `c`. */
  function IndexOf(s: string, c: char): (i: nat)
    requires c in s
    ensures i < |s| && s[i] == c && c !in s[..i]
  {
    if s[0] == c then 0 else 1 + IndexOf(s[1..], c)
  }

  /** sep.join(parts). */
  function Join(parts: seq<string>, sep: char): string
  {
    if parts == [] then []
    else if |parts| == 1 then parts[0]
    else parts[0] + [sep] + Join(parts[1..], sep)
  }

  /** s.split(sep): the pieces between the separators. There is always at
      least one piece, no piece contains the separator, and joining the pieces
      gives the text back. */
  function Split(s: string, sep: char): (parts: seq<string>)
    ensures |parts| >= 1
    ensures forall i :: 0 <= i < |parts| ==> sep !in parts[i]
    ensures Join(parts, sep) == s
    decreases |s|
  {
    if sep !in s then [s]
    else
      var i := IndexOf(s, sep);
      var rest := Split(s[i + 1..], sep);
      assert s == s[..i] + [sep] + s[i + 1..];
      [s[..i]] + rest
  }

  /** Splitting a joined list of separator-free pieces gives the pieces back. */
  lemma {:induction false} SplitJoin(parts: seq<string>, sep: char)
    requires |parts| >= 1
    requires forall i :: 0 <= i < |parts| ==> sep !in parts[i]
    ensures Split(Join(parts, sep), sep) == parts
  {
    if |parts| > 1 {
      var s := Join(parts, sep);
      var tail := Join(parts[1..], sep);
      assert s == parts[0] + [sep] + tail;
      assert sep in s by { assert s[|parts[0]|] == sep; }
      var i := IndexOf(s, sep);
      if i < |parts[0]| {
        assert false;
      }
      if i > |parts[0]| {
        assert false;
      }
      assert s[..i] == parts[0];
      assert s[i + 1..] == tail;
      SplitJoin(parts[1..], sep);
    }
  }

  /** Two separator-free pieces joined by the separator split back apart. */
  lemma SplitPair(a: string, b: string, sep: char)
    requires sep !in a && sep !in b
    ensures Split(a + [sep] + b, sep) == [a, b]
  {
    assert Join([a, b], sep) == a + [sep] + b by {
      assert [a, b][1..] == [b];
    }
    SplitJoin([a, b], sep);
  }

  /** A character that is neither the separator nor in any piece is not in
      the joined text. */
  lemma {:induction false} JoinNoChar(parts: seq<string>, sep: char, c: char)
    requires c != sep
    requires forall i :: 0 <= i < |parts| ==> c !in parts[i]
    ensures c !in Join(parts, sep)
  {
    if |parts| > 1 {
      JoinNoChar(parts[1..], sep, c);
    }
  }

  /** Joining two or more pieces puts the separator in the text. */
  lemma JoinHasSeparator(parts: seq<string>, sep: char)
    requires |parts| >= 2
    ensures sep in Join(parts, sep)
  {
    assert Join(parts, sep)[|parts[0]|] == sep;
  }

  /** The entries a loop keeps when it skips every entry whose strip() is
      empty, in their original order. */
  function NonBlank(items: seq<string>): (kept: seq<string>)
    ensures |kept| <= |items|
    ensures forall s :: s in kept <==> s in items && !IsBlank(s)
  {
    if items == [] then []
    else
      var init, last := items[..|items| - 1], items[|items| - 1];
      assert items == init + [last];
      NonBlank(init) + (if IsBlank(last) then [] else [last])
  }

  /** Skipping blanks in two halves is skipping blanks in the whole. */
  lemma {:induction false} NonBlankAppend(xs: seq<string>, ys: seq<string>)
    ensures NonBlank(xs + ys) == NonBlank(xs) + NonBlank(ys)
  {
    if ys != [] {
      var init, last := ys[..|ys| - 1], ys[|ys| - 1];
      assert (xs + ys)[..|xs + ys| - 1] == xs + init;
      assert (xs + ys)[|xs + ys| - 1] == last;
      NonBlankAppend(xs, init);
    } else {
      assert xs + ys == xs;
    }
  }

  /** A batch over the non-blank entries succeeds exactly when every
      non-blank entry succeeds. */
  lemma NonBlankAll<U>(items: seq<string>, f: string -> Result<U>)
    ensures MapAll(NonBlank(items), f).Ok? <==>
      forall i :: 0 <= i < |items| && !IsBlank(items[i]) ==> f(items[i]).Ok?
  {
    var kept := NonBlank(items);
    if MapAll(kept, f).Ok? {
      forall i | 0 <= i < |items| && !IsBlank(items[i])
        ensures f(items[i]).Ok?
      {
        assert items[i] in kept;
      }
    } else {
      var k :| 0 <= k < |kept| && f(kept[k]).Err?;
      assert kept[k] in items;
    }
  }

  /** What a loop that skips every entry whose strip() is empty and applies
      `f` to the others has built once the first n entries are done: the
      results in order, or the error of the first failing entry. */
  function MapEntries<U>(items: seq<string>, n: nat, f: string -> Result<U>): Result<seq<U>>
    requires n <= |items|
  {
    if n == 0 then Ok([])
    else
      match MapEntries(items, n - 1, f)
      case Err(e) => Err(e)
      case Ok(done) =>
        if IsBlank(items[n - 1]) then Ok(done)
        else
          match f(items[n - 1])
          case Err(e) => Err(e)
          case Ok(y) => Ok(done + [y])
  }

  /** Once an entry among the first n has failed, the rest changes nothing. */
  lemma {:induction false} MapEntriesFailed<U>(items: seq<string>, n: nat, m: nat, f: string -> Result<U>)
    requires n <= m <= |items|
    requires MapEntries(items, n, f).Err?
    ensures MapEntries(items, m, f) == MapEntries(items, n, f)
  {
    if n < m {
      MapEntriesFailed(items, n, m - 1, f);
    }
  }

  /** The loop over the first n entries is the batch over their non-blank
      entries. */
  lemma {:induction false} MapEntriesIsMapAll<U>(items: seq<string>, n: nat, f: string -> Result<U>)
    requires n <= |items|
    ensures MapEntries(items, n, f) == MapAll(NonBlank(items[..n]), f)
  {
    if n > 0 {
      var init, last := items[..n - 1], items[n - 1];
      MapEntriesIsMapAll(items, n - 1, f);
      assert items[..n][..n - 1] == init;
      assert NonBlank(items[..n]) == NonBlank(init) + (if IsBlank(last) then [] else [last]);
      if IsBlank(last) {
        assert NonBlank(items[..n]) == NonBlank(init);
      } else if MapAll(NonBlank(init), f).Ok? {
        MapAllSnoc(NonBlank(init), last, f);
      } else {
        MapAllFailedPrefix(NonBlank(init), [last], f);
      }
    }
  }

  predicate IsDigit(c: char) {
    '0' <= c <= '9'
  }

  predicate AllDigits(s: string) {
    forall i :: 0 <= i < |s| ==> IsDigit(s[i])
  }

  function DigitValue(c: char): (d: nat)
    requires IsDigit(c)
    ensures d < 10
  {
    c as int - '0' as int
  }

  function DigitChar(d: nat): (c: char)
    requires d < 10
    ensures IsDigit(c) && DigitValue(c) == d
  {
    ('0' as int + d) as char
  }

  /** Decimal digits, possibly with underscores. */
  predicate DigitsOrUnderscores(s: string) {
    forall i :: 0 <= i < |s| ==> IsDigit(s[i]) || s[i] == '_'
  }

  /** The digit body int() accepts: digits, with single underscores allowed
      only between two digits. */
  predicate IsDigitRun(s: string) {
    && |s| > 0
    && DigitsOrUnderscores(s)
    && IsDigit(s[0])
    && IsDigit(s[|s| - 1])
    && forall i :: 0 <= i < |s| - 1 && s[i] == '_' ==> IsDigit(s[i + 1])
  }

  /** The number a digit body denotes; underscores are ignored. */
  function DigitsValue(s: string): nat
    requires DigitsOrUnderscores(s)
  {
    if s == [] then 0
    else if s[|s| - 1] == '_' then DigitsValue(s[..|s| - 1])
    else DigitsValue(s[..|s| - 1]) * 10 + DigitValue(s[|s| - 1])
  }

  /** int(s) for a str argument in base 10: surrounding whitespace (in
      int()'s own, narrower sense) is ignored, one optional sign, then a
      digit body. None stands for the ValueError int() raises. */
  function ParseInt(s: string): Option<int>
  {
    ParseSigned(IntStrip(s))
  }

  /** What int() makes of the text once its whitespace is trimmed: one
      optional sign, then a digit body. */
  function ParseSigned(t: string): Option<int>
  {
    if t != [] && (t[0] == '+' || t[0] == '-') then
      var body := t[1..];
      if IsDigitRun(body) then Some(if t[0] == '-' then -(DigitsValue(body) as int) else DigitsValue(body)) else None
    else if IsDigitRun(t) then Some(DigitsValue(t))
    else None
  }

  /** str(n) for a non-negative integer: its decimal digits, without leading
      zeros, denoting n. */
  function NatToDecimal(n: nat): (s: string)
    ensures |s| >= 1 && AllDigits(s)
    ensures DigitsOrUnderscores(s) && DigitsValue(s) == n
    ensures s[0] == '0' ==> |s| == 1
  {
    if n < 10 then [DigitChar(n)]
    else
      var s := NatToDecimal(n / 10) + [DigitChar(n % 10)];
      assert s[..|s| - 1] == NatToDecimal(n / 10);
      s
  }

  /** int(str(n)) == n. */
  lemma NatToDecimalParses(n: nat)
    ensures ParseInt(NatToDecimal(n)) == Some(n)
  {
    var s := NatToDecimal(n);
    assert IsDigit(s[0]) && IsDigit(s[|s| - 1]);
    assert IsDigitRun(s);
    ParseDigitRun(s);
  }

  /** int() of a bare digit body is the number it denotes. */
  lemma ParseDigitRun(t: string)
    requires IsDigitRun(t)
    ensures ParseInt(t) == Some(DigitsValue(t))
  {
    assert !IsIntSpace(t[0]) && !IsIntSpace(t[|t| - 1]);
    assert IntStrip(t) == t;
  }

  /** Leading characters of the set are all that LStrip removes. */
  lemma {:induction false} LStripPadding(lead: string, x: string, space: char -> bool)
    requires forall i :: 0 <= i < |lead| ==> space(lead[i])
    requires x != [] && !space(x[0])
    ensures LStrip(lead + x, space) == x
    decreases |lead|
  {
    if lead != [] {
      assert (lead + x)[1..] == lead[1..] + x;
      LStripPadding(lead[1..], x, space);
    }
  }

  /** Trailing characters of the set are all that RStrip removes. */
  lemma {:induction false} RStripPadding(x: string, trail: string, space: char -> bool)
    requires forall i :: 0 <= i < |trail| ==> space(trail[i])
    requires x != [] && !space(x[|x| - 1])
    ensures RStrip(x + trail, space) == x
    decreases |trail|
  {
    var s := x + trail;
    if trail == [] {
      assert s == x;
    } else {
      assert s[|s| - 1] == trail[|trail| - 1];
      assert s[..|s| - 1] == x + trail[..|trail| - 1];
      RStripPadding(x, trail[..|trail| - 1], space);
    }
  }

  /** int()'s trimming removes exactly the padding around text that neither
      starts nor ends with int()'s whitespace. */
  lemma IntStripPadded(lead: string, x: string, trail: string)
    requires forall i :: 0 <= i < |lead| ==> IsIntSpace(lead[i])
    requires forall i :: 0 <= i < |trail| ==> IsIntSpace(trail[i])
    requires x != [] && !IsIntSpace(x[0]) && !IsIntSpace(x[|x| - 1])
    ensures IntStrip(lead + x + trail) == x
  {
    assert lead + x + trail == lead + (x + trail);
    assert (x + trail)[0] == x[0];
    LStripPadding(lead, x + trail, IsIntSpace);
    RStripPadding(x, trail, IsIntSpace);
  }

  /** int() reads a digit body with an optional sign, padded on either side
      with whitespace in int()'s sense, as the signed value of the body. */
  lemma {:induction false} ParseIntPadded(lead: string, sign: string, body: string, trail: string)
    requires forall i :: 0 <= i < |lead| ==> IsIntSpace(lead[i])
    requires forall i :: 0 <= i < |trail| ==> IsIntSpace(trail[i])
    requires sign == "" || sign == "+" || sign == "-"
    requires IsDigitRun(body)
    ensures ParseInt(lead + sign + body + trail) ==
      Some(if sign == "-" then -(DigitsValue(body) as int) else DigitsValue(body))
  {
    var x := sign + body;
    assert lead + sign + body + trail == lead + x + trail;
    SignedBodyEnds(sign, body);
    IntStripPadded(lead, x, trail);
    ParseSignedBody(lead + x + trail, sign, body);
  }

  /** A digit body with an optional sign starts and ends with characters
      int() does not skip. */
  lemma SignedBodyEnds(sign: string, body: string)
    requires sign == "" || sign == "+" || sign == "-"
    requires IsDigitRun(body)
    ensures var x := sign + body; x != [] && !IsIntSpace(x[0]) && !IsIntSpace(x[|x| - 1])
  {
    var x := sign + body;
    assert x[|x| - 1] == body[|body| - 1];
    if sign == "" {
      assert x == body;
    } else {
      assert x[0] == sign[0];
    }
  }

  /** Trimmed text made of an optional sign and a digit body reads as the
      signed value of the body. */
  lemma ParseSignedOf(sign: string, body: string)
    requires sign == "" || sign == "+" || sign == "-"
    requires IsDigitRun(body)
    ensures ParseSigned(sign + body) == Some(if sign == "-" then -(DigitsValue(body) as int) else DigitsValue(body))
  {
    var t := sign + body;
    if sign == "" {
      assert t == body;
    } else {
      assert t[0] == sign[0] && t[1..] == body;
    }
  }

  /** Once trimmed to a digit body with an optional sign, int() reads the
      signed value of the body. */
  lemma ParseSignedBody(s: string, sign: string, body: string)
    requires sign == "" || sign == "+" || sign == "-"
    requires IsDigitRun(body)
    requires IntStrip(s) == sign + body
    ensures ParseInt(s) == Some(if sign == "-" then -(DigitsValue(body) as int) else DigitsValue(body))
  {
    ParseSignedOf(sign, body);
  }

  /** The characters of text int() accepts: its whitespace around the
      number, a sign, digits and underscores, and nothing else. */
  predicate IsIntChar(c: char) {
    IsIntSpace(c) || IsDigit(c) || c == '_' || c == '+' || c == '-'
  }

  /** Text int() reads holds only whitespace in int()'s sense, a sign, digits
      and underscores. */
  lemma ParseIntChars(s: string)
    requires ParseInt(s).Some?
    ensures forall i :: 0 <= i < |s| ==> IsIntChar(s[i])
  {
    var l := LStrip(s, IsIntSpace);
    var t := RStrip(l, IsIntSpace);
    var k := |s| - |l|;
    assert t == IntStrip(s);
    assert forall j :: 0 <= j < |t| ==> IsIntChar(t[j]) by {
      forall j | 0 <= j < |t| ensures IsIntChar(t[j]) {
        if j > 0 && (t[0] == '+' || t[0] == '-') {
          assert t[j] == t[1..][j - 1];
        }
      }
    }
    forall i | 0 <= i < |s| ensures IsIntChar(s[i]) {
      if k <= i < k + |t| {
        assert s[i] == l[i - k] == t[i - k];
      } else if k + |t| <= i {
        assert s[i] == l[i - k];
      }
    }
  }

  /** int() rejects every text holding one of the separators 0x1C..0x1F,
      although str.strip() removes them from the ends. */
  lemma ParseIntRejectsSeparator(s: string, c: char)
    requires 28 <= c as int <= 31 && c in s
    ensures ParseInt(s).None?
    ensures IsSpace(c) && !IsIntSpace(c)
  {
    if ParseInt(s).Some? {
      ParseIntChars(s);
    }
  }

  /** A digit string without a leading zero is the str() of its value: str()
      is the only spelling such a parser accepts. */
  lemma {:induction false} DecimalCanonical(s: string)
    requires |s| >= 1 && AllDigits(s)
    requires s[0] == '0' ==> |s| == 1
    ensures DigitsOrUnderscores(s) && NatToDecimal(DigitsValue(s)) == s
  {
    if |s| > 1 {
      var p := s[..|s| - 1];
      DecimalCanonical(p);
      DigitsValuePositive(p);
      var n := DigitsValue(s);
      assert n == DigitsValue(p) * 10 + DigitValue(s[|s| - 1]);
      assert n / 10 == DigitsValue(p) && n % 10 == DigitValue(s[|s| - 1]);
      assert s == p + [s[|s| - 1]];
    }
  }

  lemma {:induction false} DigitsValuePositive(s: string)
    requires |s| >= 1 && AllDigits(s) && s[0] != '0'
    ensures DigitsOrUnderscores(s) && DigitsValue(s) >= 1
  {
    if |s| > 1 {
      DigitsValuePositive(s[..|s| - 1]);
    }
  }

  /** No str() output contains a separator used by the address formats. */
  lemma DecimalHasNoSeparator(n: nat, sep: char)
    requires !IsDigit(sep)
    ensures sep !in NatToDecimal(n)
  {
  }
}
