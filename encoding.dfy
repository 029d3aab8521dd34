/** The encodings `as_str` and `__html__` rely on. `urllib.parse.quote` and
    `urlencode` (by way of `quote_plus`) do percent-encoding as in sections 2.1
    and 2.3 of RFC 3986: text is UTF-8 encoded, and every byte that is not an
    unreserved character or listed as safe becomes `%` and two upper-case hex
    digits. `html.escape` replaces the five markup-significant characters with
    entities. Each encoder comes with a decoder, and a lemma says that decoding
    undoes encoding. */
module Encoding {
  import opened Wrappers
  import opened Text

  type Byte = x: int | 0 <= x < 256

  /** UTF-8 encoding of one Unicode scalar value (one to four bytes). */
  function Utf8Char(c: char): (bs: seq<Byte>)
    ensures 1 <= |bs| <= 4
    ensures (|bs| == 1) == (c as int < 0x80)
    ensures bs[0] < 0x80 ==> |bs| == 1
    ensures forall k :: 1 <= k < |bs| ==> 0x80 <= bs[k] < 0xC0
  {
    var cp := c as int;
    if cp < 0x80 then [cp]
    else if cp < 0x800 then [0xC0 + cp / 0x40, 0x80 + cp % 0x40]
    else if cp < 0x1_0000 then [0xE0 + cp / 0x1000, 0x80 + (cp / 0x40) % 0x40, 0x80 + cp % 0x40]
    else [0xF0 + cp / 0x4_0000, 0x80 + (cp / 0x1000) % 0x40, 0x80 + (cp / 0x40) % 0x40, 0x80 + cp % 0x40]
  }

  /** `s.encode("utf-8")` */
  function Utf8(s: string): seq<Byte>
    decreases |s|
  {
    if |s| == 0 then [] else Utf8Char(s[0]) + Utf8(s[1..])
  }

  lemma {:induction false} Utf8Concat(a: string, b: string)
    ensures Utf8(a + b) == Utf8(a) + Utf8(b)
    decreases |a|
  {
    if |a| == 0 {
      assert a + b == b;
    } else {
      assert (a + b)[1..] == a[1..] + b;
      Utf8Concat(a[1..], b);
    }
  }

  /** The unreserved characters of section 2.3 of RFC 3986. */
  predicate Unreserved(c: char) {
    ('A' <= c <= 'Z') || ('a' <= c <= 'z') || ('0' <= c <= '9') || c == '-' || c == '.' || c == '_' || c == '~'
  }

  /** The `safe` argument `as_str` gives `quote`: the slash. */
  const PathSafe: set<char> := {'/'}

  /** Whether `quote(..., safe)` keeps byte `b` as the ASCII character it encodes. */
  predicate KeptByte(b: Byte, safe: set<char>) {
    b < 0x80 && (Unreserved(b as char) || b as char in safe)
  }

  /** Upper-case hex digit of a value below 16. */
  function HexDigit(d: int): (c: char)
    requires 0 <= d < 16
    ensures Unreserved(c) && c != '%'
  {
    if d < 10 then ('0' as int + d) as char else ('A' as int + d - 10) as char
  }

  /** `%XX` for one byte, upper-case hex as section 2.1 of RFC 3986 recommends. */
  function EscapeByte(b: Byte): string {
    ['%', HexDigit(b / 16), HexDigit(b % 16)]
  }

  function QuoteByte(b: Byte, safe: set<char>): string {
    if KeptByte(b, safe) then [b as char] else EscapeByte(b)
  }

  /** `urllib.parse.quote_from_bytes(bs, safe)` */
  function QuoteBytes(bs: seq<Byte>, safe: set<char>): string
    decreases |bs|
  {
    if |bs| == 0 then "" else QuoteByte(bs[0], safe) + QuoteBytes(bs[1..], safe)
  }

  /** `urllib.parse.quote(s, safe)`: UTF-8 first, then byte by byte. */
  function Quote(s: string, safe: set<char>): string {
    QuoteBytes(Utf8(s), safe)
  }

  /** `urllib.parse.quote_plus(s)`, which `urlencode` applies to keys and values:
      the safe set is empty (so `/` is escaped too) and a space becomes `+`. */
  function QuotePlusBytes(bs: seq<Byte>): string
    decreases |bs|
  {
    if |bs| == 0 then ""
    else (if bs[0] == 0x20 then "+" else QuoteByte(bs[0], {})) + QuotePlusBytes(bs[1..])
  }

  function QuotePlus(s: string): string {
    QuotePlusBytes(Utf8(s))
  }

  lemma {:induction false} QuoteBytesConcat(a: seq<Byte>, b: seq<Byte>, safe: set<char>)
    ensures QuoteBytes(a + b, safe) == QuoteBytes(a, safe) + QuoteBytes(b, safe)
    decreases |a|
  {
    if |a| == 0 {
      assert a + b == b;
    } else {
      assert (a + b)[1..] == a[1..] + b;
      QuoteBytesConcat(a[1..], b, safe);
    }
  }

  /** Quoting distributes over concatenation, so a path can be quoted piece by piece. */
  lemma QuoteConcat(a: string, b: string, safe: set<char>)
    ensures Quote(a + b, safe) == Quote(a, safe) + Quote(b, safe)
  {
    Utf8Concat(a, b);
    QuoteBytesConcat(Utf8(a), Utf8(b), safe);
  }

  /** The slash is kept by `quote(..., safe="/")`. */
  lemma QuoteSlash()
    ensures Quote("/", PathSafe) == "/"
  {
    assert Utf8Char('/') == [0x2F];
    assert Utf8("/") == [0x2F];
  }

  predicate UpperHex(c: char) {
    ('0' <= c <= '9') || ('A' <= c <= 'F')
  }

  /** The shape of quoted text: kept characters and `%XX` triples, nothing else. */
  predicate QuotedForm(t: string, safe: set<char>)
    decreases |t|
  {
    if |t| == 0 then true
    else if t[0] == '%' then |t| >= 3 && UpperHex(t[1]) && UpperHex(t[2]) && QuotedForm(t[3..], safe)
    else t[0] as int < 0x80 && (Unreserved(t[0]) || t[0] in safe) && QuotedForm(t[1..], safe)
  }

  lemma {:induction false} QuotedFormConcat(a: string, b: string, safe: set<char>)
    requires QuotedForm(a, safe) && QuotedForm(b, safe)
    ensures QuotedForm(a + b, safe)
    decreases |a|
  {
    if |a| == 0 {
      assert a + b == b;
    } else {
      assert (a + b)[0] == a[0];
      if a[0] == '%' {
        assert (a + b)[1] == a[1] && (a + b)[2] == a[2];
        assert (a + b)[3..] == a[3..] + b;
        QuotedFormConcat(a[3..], b, safe);
      } else {
        assert (a + b)[1..] == a[1..] + b;
        QuotedFormConcat(a[1..], b, safe);
      }
    }
  }

  lemma {:induction false} QuoteBytesForm(bs: seq<Byte>, safe: set<char>)
    requires '%' !in safe
    ensures QuotedForm(QuoteBytes(bs, safe), safe)
    decreases |bs|
  {
    if |bs| > 0 {
      var h := QuoteByte(bs[0], safe);
      assert QuotedForm(h, safe) by {
        if !KeptByte(bs[0], safe) {
          assert h[3..] == "";
        } else {
          assert h[1..] == "";
        }
      }
      QuoteBytesForm(bs[1..], safe);
      QuotedFormConcat(h, QuoteBytes(bs[1..], safe), safe);
    }
  }

  /** The output of `quote` holds only unreserved characters, safe characters and
      `%XX` triples with upper-case hex digits. */
  lemma QuoteForm(s: string, safe: set<char>)
    requires '%' !in safe
    ensures QuotedForm(Quote(s, safe), safe)
  {
    QuoteBytesForm(Utf8(s), safe);
  }

  /** A character that is neither unreserved, nor in the safe set, nor `%` does not
      occur in quoted text; this is how `?`, `#`, `&` and `=` stay unambiguous. */
  lemma {:induction false} QuotedFormAvoids(t: string, safe: set<char>, x: char)
    requires QuotedForm(t, safe)
    requires !Unreserved(x) && x !in safe && x != '%'
    ensures x !in t
    decreases |t|
  {
    if |t| > 0 {
      if t[0] == '%' {
        QuotedFormAvoids(t[3..], safe, x);
        assert t == t[..3] + t[3..];
      } else {
        QuotedFormAvoids(t[1..], safe, x);
        assert t == [t[0]] + t[1..];
      }
    }
  }

  function HexValue(c: char): Option<int> {
    if '0' <= c <= '9' then Some(c as int - '0' as int)
    else if 'A' <= c <= 'F' then Some(c as int - 'A' as int + 10)
    else if 'a' <= c <= 'f' then Some(c as int - 'a' as int + 10)
    else None
  }

  /** Reference decoder for percent-encoded text: `%XX` is a byte, an ASCII
      character stands for itself, anything else is malformed. When `plus` is
      set, `+` stands for a space, as in form encoding. */
  function PercentDecode(t: string, plus: bool): Option<seq<Byte>>
    decreases |t|
  {
    if |t| == 0 then Some([])
    else
      var step := if t[0] == '%' then 3 else 1;
      var head: Option<Byte> :=
        if t[0] == '%' then
          (if |t| >= 3 && HexValue(t[1]).Some? && HexValue(t[2]).Some?
           then Some(HexValue(t[1]).value * 16 + HexValue(t[2]).value) else None)
        else if plus && t[0] == '+' then Some(0x20)
        else if t[0] as int < 0x80 then Some(t[0] as int)
        else None;
      match head
      case None => None
      case Some(b) =>
        match PercentDecode(t[step..], plus)
        case None => None
        case Some(rest) => Some([b] + rest)
  }

  lemma HexDigitValue(d: int)
    requires 0 <= d < 16
    ensures HexValue(HexDigit(d)) == Some(d)
  {
  }

  lemma DecodeEscaped(b: Byte, rest: string, plus: bool)
    ensures PercentDecode(EscapeByte(b) + rest, plus) ==
      match PercentDecode(rest, plus)
      case None => None
      case Some(r) => Some([b] + r)
  {
    var t := EscapeByte(b) + rest;
    HexDigitValue(b / 16);
    HexDigitValue(b % 16);
    assert t[3..] == rest;
  }

  lemma DecodeKept(b: Byte, safe: set<char>, rest: string, plus: bool)
    requires KeptByte(b, safe) && '%' !in safe && (plus ==> b != '+' as int)
    ensures PercentDecode([b as char] + rest, plus) ==
      match PercentDecode(rest, plus)
      case None => None
      case Some(r) => Some([b] + r)
  {
    var t := [b as char] + rest;
    assert t[0] == b as char && t[1..] == rest;
  }

  lemma DecodeQuotedByte(b: Byte, safe: set<char>, rest: string)
    requires '%' !in safe
    ensures PercentDecode(QuoteByte(b, safe) + rest, false) ==
      match PercentDecode(rest, false)
      case None => None
      case Some(r) => Some([b] + r)
  {
    if KeptByte(b, safe) {
      DecodeKept(b, safe, rest, false);
    } else {
      DecodeEscaped(b, rest, false);
    }
  }

  lemma {:induction false} QuoteBytesDecode(bs: seq<Byte>, safe: set<char>)
    requires '%' !in safe
    ensures PercentDecode(QuoteBytes(bs, safe), false) == Some(bs)
    decreases |bs|
  {
    if |bs| > 0 {
      QuoteBytesDecode(bs[1..], safe);
      DecodeQuotedByte(bs[0], safe, QuoteBytes(bs[1..], safe));
      assert [bs[0]] + bs[1..] == bs;
    }
  }

  /** Percent-decoding the output of `quote` gives back the UTF-8 bytes of its input. */
  lemma QuoteDecode(s: string, safe: set<char>)
    requires '%' !in safe
    ensures PercentDecode(Quote(s, safe), false) == Some(Utf8(s))
  {
    QuoteBytesDecode(Utf8(s), safe);
  }

  lemma DecodePlusByte(b: Byte, rest: string)
    ensures PercentDecode((if b == 0x20 then "+" else QuoteByte(b, {})) + rest, true) ==
      match PercentDecode(rest, true)
      case None => None
      case Some(r) => Some([b] + r)
  {
    if b == 0x20 {
      assert ("+" + rest)[0] == '+' && ("+" + rest)[1..] == rest;
    } else if KeptByte(b, {}) {
      DecodeKept(b, {}, rest, true);
    } else {
      DecodeEscaped(b, rest, true);
    }
  }

  lemma {:induction false} QuotePlusBytesDecode(bs: seq<Byte>)
    ensures PercentDecode(QuotePlusBytes(bs), true) == Some(bs)
    decreases |bs|
  {
    if |bs| > 0 {
      QuotePlusBytesDecode(bs[1..]);
      DecodePlusByte(bs[0], QuotePlusBytes(bs[1..]));
      assert [bs[0]] + bs[1..] == bs;
    }
  }

  /** Form-decoding the output of `quote_plus` gives back the UTF-8 bytes of its input. */
  lemma QuotePlusDecode(s: string)
    ensures PercentDecode(QuotePlus(s), true) == Some(Utf8(s))
  {
    QuotePlusBytesDecode(Utf8(s));
  }

  lemma QuoteByteAvoids(b: Byte, x: char)
    requires !Unreserved(x) && x != '%' && x != '+'
    ensures x !in (if b == 0x20 then "+" else QuoteByte(b, {}))
  {
    if b != 0x20 && !KeptByte(b, {}) {
      var e := EscapeByte(b);
      assert e == ['%', HexDigit(b / 16), HexDigit(b % 16)];
    }
  }

  lemma {:induction false} QuotePlusBytesAvoids(bs: seq<Byte>, x: char)
    requires !Unreserved(x) && x != '%' && x != '+'
    ensures x !in QuotePlusBytes(bs)
    decreases |bs|
  {
    if |bs| > 0 {
      QuotePlusBytesAvoids(bs[1..], x);
      QuoteByteAvoids(bs[0], x);
    }
  }

  /** `quote_plus` escapes every character that is not unreserved, including `&` and
      `=`, so those separate `urlencode` pairs unambiguously. */
  lemma QuotePlusAvoids(s: string, x: char)
    requires !Unreserved(x) && x != '%' && x != '+'
    ensures x !in QuotePlus(s)
  {
    QuotePlusBytesAvoids(Utf8(s), x);
  }

  /** A character `quote` keeps literally: ASCII, and unreserved or safe. */
  predicate KeptChar(c: char, safe: set<char>) {
    c as int < 0x80 && (Unreserved(c) || c in safe)
  }

  /** `%XX` for each byte in turn: what `quote` makes of bytes it does not keep. */
  function EscapeAll(bs: seq<Byte>): string
    decreases |bs|
  {
    if |bs| == 0 then "" else EscapeByte(bs[0]) + EscapeAll(bs[1..])
  }

  /** Text made only of kept characters comes out of `quote` unchanged: unreserved
      and safe characters are never escaped. */
  lemma {:induction false} QuoteKeepsSafeText(s: string, safe: set<char>)
    requires forall i :: 0 <= i < |s| ==> KeptChar(s[i], safe)
    ensures Quote(s, safe) == s
    decreases |s|
  {
    if |s| > 0 {
      var b: Byte := s[0] as int;
      assert Utf8(s) == [b] + Utf8(s[1..]);
      assert ([b] + Utf8(s[1..]))[1..] == Utf8(s[1..]);
      assert KeptByte(b, safe);
      QuoteKeepsSafeText(s[1..], safe);
      assert [s[0]] + s[1..] == s;
    }
  }

  /** An ASCII character that is neither unreserved nor safe becomes `%` and two
      upper-case hex digits. */
  lemma QuoteEscapesAscii(c: char, safe: set<char>)
    requires c as int < 0x80 && !Unreserved(c) && c !in safe
    ensures Quote([c], safe) == EscapeByte(c as int)
  {
    var b: Byte := c as int;
    assert Utf8([c]) == [b];
    assert !KeptByte(b, safe) && [b][1..] == [];
    assert QuoteBytes([b], safe) == QuoteByte(b, safe) + QuoteBytes([], safe);
  }

  lemma {:induction false} QuoteBytesEscapesHigh(bs: seq<Byte>, safe: set<char>)
    requires forall i :: 0 <= i < |bs| ==> bs[i] >= 0x80
    ensures QuoteBytes(bs, safe) == EscapeAll(bs)
    decreases |bs|
  {
    if |bs| > 0 {
      QuoteBytesEscapesHigh(bs[1..], safe);
    }
  }

  /** A character outside ASCII becomes `%XX` for every byte of its UTF-8 encoding. */
  lemma QuoteEscapesNonAscii(c: char, safe: set<char>)
    requires c as int >= 0x80
    ensures Quote([c], safe) == EscapeAll(Utf8Char(c))
  {
    assert Utf8([c]) == Utf8Char(c) + Utf8([]);
    assert Utf8([c]) == Utf8Char(c);
    QuoteBytesEscapesHigh(Utf8Char(c), safe);
  }

  lemma {:induction false} QuotePlusBytesConcat(a: seq<Byte>, b: seq<Byte>)
    ensures QuotePlusBytes(a + b) == QuotePlusBytes(a) + QuotePlusBytes(b)
    decreases |a|
  {
    if |a| == 0 {
      assert a + b == b;
    } else {
      assert (a + b)[1..] == a[1..] + b;
      QuotePlusBytesConcat(a[1..], b);
    }
  }

  /** `quote_plus` distributes over concatenation. */
  lemma QuotePlusConcat(a: string, b: string)
    ensures QuotePlus(a + b) == QuotePlus(a) + QuotePlus(b)
  {
    Utf8Concat(a, b);
    QuotePlusBytesConcat(Utf8(a), Utf8(b));
  }

  /** A space becomes `+` wherever it occurs. */
  lemma QuotePlusSpace(a: string, b: string)
    ensures QuotePlus(a + " " + b) == QuotePlus(a) + "+" + QuotePlus(b)
  {
    QuotePlusConcat(a + " ", b);
    QuotePlusConcat(a, " ");
    assert Utf8(" ") == [0x20];
  }

  /** Text made only of unreserved characters comes out of `quote_plus` unchanged. */
  lemma {:induction false} QuotePlusKeepsUnreserved(s: string)
    requires forall i :: 0 <= i < |s| ==> KeptChar(s[i], {})
    ensures QuotePlus(s) == s
    decreases |s|
  {
    if |s| > 0 {
      var b: Byte := s[0] as int;
      assert Utf8(s) == [b] + Utf8(s[1..]);
      assert ([b] + Utf8(s[1..]))[1..] == Utf8(s[1..]);
      assert KeptByte(b, {}) && b != 0x20;
      QuotePlusKeepsUnreserved(s[1..]);
      assert [s[0]] + s[1..] == s;
    }
  }

  /** An ASCII character other than a space that is not unreserved becomes `%XX`;
      the slash is among them, since the safe set is empty. */
  lemma QuotePlusEscapesAscii(c: char)
    requires c as int < 0x80 && !Unreserved(c) && c != ' '
    ensures QuotePlus([c]) == EscapeByte(c as int)
  {
    var b: Byte := c as int;
    assert Utf8([c]) == [b];
    assert !KeptByte(b, {}) && b != 0x20 && [b][1..] == [];
    assert QuotePlusBytes([b]) == QuoteByte(b, {}) + QuotePlusBytes([]);
  }

  lemma {:induction false} QuotePlusBytesEscapesHigh(bs: seq<Byte>)
    requires forall i :: 0 <= i < |bs| ==> bs[i] >= 0x80
    ensures QuotePlusBytes(bs) == EscapeAll(bs)
    decreases |bs|
  {
    if |bs| > 0 {
      QuotePlusBytesEscapesHigh(bs[1..]);
    }
  }

  /** A character outside ASCII becomes `%XX` for every byte of its UTF-8 encoding. */
  lemma QuotePlusEscapesNonAscii(c: char)
    requires c as int >= 0x80
    ensures QuotePlus([c]) == EscapeAll(Utf8Char(c))
  {
    assert Utf8([c]) == Utf8Char(c) + Utf8([]);
    assert Utf8([c]) == Utf8Char(c);
    QuotePlusBytesEscapesHigh(Utf8Char(c));
  }

  lemma QuotePlusComma()
    ensures QuotePlus(",") == "%2C"
  {
    QuotePlusEscapesAscii(',');
    assert HexDigit(2) == '2' && HexDigit(12) == 'C';
  }

  /** The Cyrillic letter Ya, U+042F, is the two UTF-8 bytes D0 AF. */
  lemma QuotePlusYa()
    ensures QuotePlus("\U{042F}") == "%D0%AF"
  {
    QuotePlusEscapesNonAscii('\U{042F}');
    var bs := Utf8Char('\U{042F}');
    assert bs == [0xD0, 0xAF];
    assert EscapeAll(bs) == EscapeByte(0xD0) + EscapeAll([0xAF]);
    assert EscapeAll([0xAF]) == EscapeByte(0xAF) + EscapeAll([]);
    assert HexDigit(13) == 'D' && HexDigit(0) == '0' && HexDigit(10) == 'A' && HexDigit(15) == 'F';
  }

  lemma QuotePlusSpaceAlone()
    ensures QuotePlus(" ") == "+"
  {
    assert Utf8(" ") == [0x20];
  }

  lemma QuotePlusConcat5(a: string, b: string, c: string, d: string, e: string)
    ensures QuotePlus(a + b + c + d + e) == QuotePlus(a) + QuotePlus(b) + QuotePlus(c) + QuotePlus(d) + QuotePlus(e)
  {
    QuotePlusConcat(a + b + c + d, e);
    QuotePlusConcat(a + b + c, d);
    QuotePlusConcat(a + b, c);
    QuotePlusConcat(a, b);
  }

  /** The query value of the router's rendering example: spaces become `+`, commas
      `%2C`, and the Cyrillic letter Ya its two UTF-8 bytes. */
  lemma QuotePlusSample(v: string)
    requires v == " , ,\U{042F}"
    ensures QuotePlus(v) == "+%2C+%2C%D0%AF"
  {
    QuotePlusSpaceAlone();
    QuotePlusComma();
    QuotePlusYa();
    QuotePlusConcat5(" ", ",", " ", ",", "\U{042F}");
    assert " " + "," + " " + "," + "\U{042F}" == v;
  }

  /** `html.escape(c, quote=True)` for one character. */
  function HtmlEscapeChar(c: char): string {
    if c == '&' then "&amp;"
    else if c == '<' then "&lt;"
    else if c == '>' then "&gt;"
    else if c == '"' then "&quot;"
    else if c == '\'' then "&#x27;"
    else [c]
  }

  /** `html.escape(s)`; its chain of `replace` calls, `&` first, acts character by
      character, because no replacement introduces a character a later one replaces. */
  function HtmlEscape(s: string): string
    decreases |s|
  {
    if |s| == 0 then "" else HtmlEscapeChar(s[0]) + HtmlEscape(s[1..])
  }

  /** Decoder for exactly the five entities `HtmlEscape` produces. */
  function HtmlUnescape(t: string): string
    decreases |t|
  {
    if |t| == 0 then ""
    else if StartsWith(t, "&amp;") then "&" + HtmlUnescape(t[5..])
    else if StartsWith(t, "&lt;") then "<" + HtmlUnescape(t[4..])
    else if StartsWith(t, "&gt;") then ">" + HtmlUnescape(t[4..])
    else if StartsWith(t, "&quot;") then "\"" + HtmlUnescape(t[6..])
    else if StartsWith(t, "&#x27;") then "'" + HtmlUnescape(t[6..])
    else [t[0]] + HtmlUnescape(t[1..])
  }

  lemma UnescapeEscapedChar(c: char, rest: string)
    ensures HtmlUnescape(HtmlEscapeChar(c) + rest) == [c] + HtmlUnescape(rest)
  {
    var e := HtmlEscapeChar(c);
    var t := e + rest;
    assert t[|e|..] == rest && t[..|e|] == e;
    if c == '&' {
      assert StartsWith(t, "&amp;");
    } else if c == '<' {
      assert t[1] == 'l';
      assert !StartsWith(t, "&amp;") && StartsWith(t, "&lt;");
    } else if c == '>' {
      assert t[1] == 'g';
      assert !StartsWith(t, "&amp;") && !StartsWith(t, "&lt;") && StartsWith(t, "&gt;");
    } else if c == '"' {
      assert t[1] == 'q';
      assert !StartsWith(t, "&amp;") && !StartsWith(t, "&lt;") && !StartsWith(t, "&gt;");
      assert StartsWith(t, "&quot;");
    } else if c == '\'' {
      assert t[1] == '#';
      assert !StartsWith(t, "&amp;") && !StartsWith(t, "&lt;") && !StartsWith(t, "&gt;");
      assert !StartsWith(t, "&quot;") && StartsWith(t, "&#x27;");
    } else {
      assert t[0] == c;
      assert !StartsWith(t, "&amp;") && !StartsWith(t, "&lt;") && !StartsWith(t, "&gt;");
      assert !StartsWith(t, "&quot;") && !StartsWith(t, "&#x27;");
    }
  }

  /** Unescaping the output of `html.escape` gives back its input. */
  lemma {:induction false} HtmlRoundTrip(s: string)
    ensures HtmlUnescape(HtmlEscape(s)) == s
    decreases |s|
  {
    if |s| > 0 {
      UnescapeEscapedChar(s[0], HtmlEscape(s[1..]));
      HtmlRoundTrip(s[1..]);
      assert [s[0]] + s[1..] == s;
    }
  }

  lemma EscapeCharSafe(c: char, x: char)
    requires x == '<' || x == '>' || x == '"' || x == '\''
    ensures x !in HtmlEscapeChar(c)
  {
  }

  /** The output of `html.escape` contains none of `<`, `>`, `"` and `'`. */
  lemma {:induction false} HtmlEscapeSafe(s: string, x: char)
    requires x == '<' || x == '>' || x == '"' || x == '\''
    ensures x !in HtmlEscape(s)
    decreases |s|
  {
    if |s| > 0 {
      HtmlEscapeSafe(s[1..], x);
      EscapeCharSafe(s[0], x);
      assert HtmlEscape(s) == HtmlEscapeChar(s[0]) + HtmlEscape(s[1..]);
    }
  }

  /** Text that begins with one of the five entities `html.escape` produces. */
  predicate EntityStart(t: string) {
    StartsWith(t, "&amp;") || StartsWith(t, "&lt;") || StartsWith(t, "&gt;") ||
    StartsWith(t, "&quot;") || StartsWith(t, "&#x27;")
  }

  /** Every `&` in `r` begins an entity. */
  predicate AmpersandsEscaped(r: string) {
    forall i :: 0 <= i < |r| && r[i] == '&' ==> EntityStart(r[i..])
  }

  /** The escape of one character holds `&` only as the start of its own entity. */
  lemma EscapeCharEntity(c: char, rest: string, i: nat)
    requires i < |HtmlEscapeChar(c)| && (HtmlEscapeChar(c) + rest)[i] == '&'
    ensures EntityStart((HtmlEscapeChar(c) + rest)[i..])
  {
    var e := HtmlEscapeChar(c);
    var t := e + rest;
    assert e[i] == '&';
    assert i == 0;
    assert t[i..] == t && t[..|e|] == e;
  }

  /** Every `&` in the output of `html.escape` begins an entity, so a literal `&`,
      such as the one between query pairs, always appears as `&amp;`. */
  lemma {:induction false} HtmlEscapeEntities(s: string)
    ensures AmpersandsEscaped(HtmlEscape(s))
    decreases |s|
  {
    if |s| > 0 {
      var e := HtmlEscapeChar(s[0]);
      var rest := HtmlEscape(s[1..]);
      HtmlEscapeEntities(s[1..]);
      var r := HtmlEscape(s);
      assert r == e + rest;
      assert AmpersandsEscaped(rest);
      forall i | 0 <= i < |r| && r[i] == '&' ensures EntityStart(r[i..]) {
        if i < |e| {
          EscapeCharEntity(s[0], rest, i);
        } else {
          var j := i - |e|;
          assert r[i..] == rest[j..];
          assert 0 <= j < |rest| && rest[j] == '&';
          assert EntityStart(rest[j..]);
        }
      }
    }
  }

  /** One `key=value` item of `urlencode`. */
  function FormItem(k: string, v: string): string {
    QuotePlus(k) + "=" + QuotePlus(v)
  }

  function FormItems(pairs: seq<(string, string)>): seq<string>
    decreases |pairs|
  {
    if |pairs| == 0 then [] else [FormItem(pairs[0].0, pairs[0].1)] + FormItems(pairs[1..])
  }

  /** `urllib.parse.urlencode(pairs, doseq=True)` for a sequence of text pairs:
      each key and value through `quote_plus`, `=` inside a pair, `&` between pairs,
      in the given order. */
  function UrlEncode(pairs: seq<(string, string)>): string {
    Join("&", FormItems(pairs))
  }

  /** Reference decoder for one `key=value` item. */
  function DecodeItem(item: string): Option<(seq<Byte>, seq<Byte>)> {
    var parts := Split(item, '=');
    if |parts| != 2 then None
    else
      match (PercentDecode(parts[0], true), PercentDecode(parts[1], true))
      case (Some(k), Some(v)) => Some((k, v))
      case _ => None
  }

  function DecodeItems(items: seq<string>): Option<seq<(seq<Byte>, seq<Byte>)>>
    decreases |items|
  {
    if |items| == 0 then Some([])
    else
      match (DecodeItem(items[0]), DecodeItems(items[1..]))
      case (Some(p), Some(ps)) => Some([p] + ps)
      case _ => None
  }

  /** Reference decoder for a form-encoded query string. */
  function FormDecode(q: string): Option<seq<(seq<Byte>, seq<Byte>)>> {
    DecodeItems(Split(q, '&'))
  }

  /** The pairs as UTF-8 bytes, which is what decoding recovers. */
  function PairBytes(pairs: seq<(string, string)>): seq<(seq<Byte>, seq<Byte>)>
    decreases |pairs|
  {
    if |pairs| == 0 then [] else [(Utf8(pairs[0].0), Utf8(pairs[0].1))] + PairBytes(pairs[1..])
  }

  lemma DecodeFormItem(k: string, v: string)
    ensures DecodeItem(FormItem(k, v)) == Some((Utf8(k), Utf8(v)))
  {
    QuotePlusAvoids(k, '=');
    QuotePlusAvoids(v, '=');
    SplitAtFirst(QuotePlus(k), '=', QuotePlus(v));
    SplitNoSep(QuotePlus(v), '=');
    QuotePlusDecode(k);
    QuotePlusDecode(v);
  }

  lemma {:induction false} DecodeFormItems(pairs: seq<(string, string)>)
    ensures DecodeItems(FormItems(pairs)) == Some(PairBytes(pairs))
    decreases |pairs|
  {
    if |pairs| > 0 {
      DecodeFormItem(pairs[0].0, pairs[0].1);
      DecodeFormItems(pairs[1..]);
      assert FormItems(pairs)[1..] == FormItems(pairs[1..]);
    }
  }

  lemma {:induction false} FormItemsAvoid(pairs: seq<(string, string)>, x: char)
    requires !Unreserved(x) && x != '%' && x != '+' && x != '='
    ensures |FormItems(pairs)| == |pairs|
    ensures forall i :: 0 <= i < |pairs| ==> x !in FormItems(pairs)[i]
    decreases |pairs|
  {
    if |pairs| > 0 {
      QuotePlusAvoids(pairs[0].0, x);
      QuotePlusAvoids(pairs[0].1, x);
      FormItemsAvoid(pairs[1..], x);
    }
  }

  /** Form-decoding a non-empty `urlencode` result gives back every pair, in order,
      as UTF-8 bytes: keys and values are kept apart and no pair is lost or merged. */
  lemma FormRoundTrip(pairs: seq<(string, string)>)
    requires |pairs| > 0
    ensures FormDecode(UrlEncode(pairs)) == Some(PairBytes(pairs))
  {
    FormItemsAvoid(pairs, '&');
    SplitJoin(FormItems(pairs), '&');
    DecodeFormItems(pairs);
  }

  /** `urlencode` of at least one pair is never empty, and it contains no `#`. */
  lemma UrlEncodeShape(pairs: seq<(string, string)>)
    ensures |pairs| > 0 ==> UrlEncode(pairs) != ""
    ensures '#' !in UrlEncode(pairs)
  {
    FormItemsAvoid(pairs, '#');
    JoinAvoids("&", FormItems(pairs), '#');
    if |pairs| > 0 {
      assert '=' in FormItems(pairs)[0];
      assert |pairs| == 1 || Join("&", FormItems(pairs)) == FormItems(pairs)[0] + "&" + Join("&", FormItems(pairs)[1..]);
    }
  }
}
