/** UTF-8 as `str::from_utf8` accepts it. */
module Utf8 {
  import opened Common

  predicate IsScalar(cp: int) { 0 <= cp < 0xD800 || 0xE000 <= cp < 0x11_0000 }

  predicate IsContinuation(b: byte) { 0x80 <= b < 0xC0 }

  function EncodeChar(c: char): (r: seq<byte>)
    ensures 1 <= |r| <= 4
  {
    var cp := c as int;
    if cp < 0x80 then [cp as byte]
    else if cp < 0x800 then [(0xC0 + cp / 0x40) as byte, (0x80 + cp % 0x40) as byte]
    else if cp < 0x1_0000 then
      [(0xE0 + cp / 0x1000) as byte, (0x80 + cp / 0x40 % 0x40) as byte, (0x80 + cp % 0x40) as byte]
    else
      [(0xF0 + cp / 0x4_0000) as byte, (0x80 + cp / 0x1000 % 0x40) as byte, (0x80 + cp / 0x40 % 0x40) as byte,
       (0x80 + cp % 0x40) as byte]
  }

  function Encode(s: string): seq<byte> {
    if s == "" then [] else EncodeChar(s[0]) + Encode(s[1..])
  }

  /** Number of bytes a lead byte announces; 0 for a byte that leads nothing. */
  function Width(lead: byte): nat {
    if lead < 0x80 then 1 else if lead < 0xC0 then 0 else if lead < 0xE0 then 2 else if lead < 0xF0 then 3
    else if lead < 0xF8 then 4 else 0
  }

  function CodePoint(b: seq<byte>): int
    requires 1 <= |b| <= 4
  {
    var x := (i: int) requires 0 <= i < |b| => b[i] as int - 0x80;
    if |b| == 1 then b[0] as int
    else if |b| == 2 then (b[0] as int - 0xC0) * 0x40 + x(1)
    else if |b| == 3 then (b[0] as int - 0xE0) * 0x1000 + x(1) * 0x40 + x(2)
    else (b[0] as int - 0xF0) * 0x4_0000 + x(1) * 0x1000 + x(2) * 0x40 + x(3)
  }

  /** The least code point that needs `n` bytes; anything below is an overlong form. */
  function Least(n: nat): int {
    if n <= 1 then 0 else if n == 2 then 0x80 else if n == 3 then 0x800 else 0x1_0000
  }

  /** The first character of a byte string, if it starts with a well-formed one. */
  function DecodeFirst(b: seq<byte>): Option<char> {
    if b == [] || Width(b[0]) == 0 || |b| < Width(b[0]) then None
    else
      var n := Width(b[0]);
      if exists i :: 1 <= i < n && !IsContinuation(b[i]) then None
      else
        var cp := CodePoint(b[..n]);
        if !IsScalar(cp) || cp < Least(n) then None else Some(cp as char)
  }

  function Decode(b: seq<byte>): Option<string>
    decreases |b|
  {
    if b == [] then Some("")
    else
      var c := DecodeFirst(b);
      if c.None? then None
      else
        var rest := Decode(b[Width(b[0])..]);
        if rest.None? then None else Some([c.value] + rest.value)
  }

  // ---- encoding, then decoding ---------------------------------------------------------

  lemma EncodedWidth(c: char)
    ensures Width(EncodeChar(c)[0]) == |EncodeChar(c)|
    ensures forall i :: 1 <= i < |EncodeChar(c)| ==> IsContinuation(EncodeChar(c)[i])
  {
  }

  lemma EncodedCodePoint(c: char)
    ensures CodePoint(EncodeChar(c)) == c as int && Least(|EncodeChar(c)|) <= c as int
  {
    var cp := c as int;
    if cp >= 0x80 {
      assert cp == cp / 0x40 * 0x40 + cp % 0x40;
    }
    if cp >= 0x800 {
      assert cp / 0x40 == cp / 0x1000 * 0x40 + cp / 0x40 % 0x40;
    }
    if cp >= 0x1_0000 {
      assert cp / 0x1000 == cp / 0x4_0000 * 0x40 + cp / 0x1000 % 0x40;
    }
  }

  lemma DecodeFirstEncoded(c: char, rest: seq<byte>)
    ensures DecodeFirst(EncodeChar(c) + rest) == Some(c)
    ensures Width((EncodeChar(c) + rest)[0]) == |EncodeChar(c)|
  {
    EncodedWidth(c);
    EncodedCodePoint(c);
    assert (EncodeChar(c) + rest)[..|EncodeChar(c)|] == EncodeChar(c);
  }

  /** Every string survives encoding. */
  lemma {:induction false} RoundTrip(s: string)
    ensures Decode(Encode(s)) == Some(s)
  {
    if s != "" {
      RoundTrip(s[1..]);
      DecodeFirstEncoded(s[0], Encode(s[1..]));
      assert Encode(s)[|EncodeChar(s[0])|..] == Encode(s[1..]);
      assert [s[0]] + s[1..] == s;
    }
  }

  // ---- decoding, then encoding ---------------------------------------------------------

  lemma SixBits(q: nat, r: nat)
    requires r < 0x40
    ensures (q * 0x40 + r) / 0x40 == q && (q * 0x40 + r) % 0x40 == r
  {
  }

  lemma DecodedTwo(b: seq<byte>)
    requires |b| == 2 && 0xC0 <= b[0] < 0xE0 && IsContinuation(b[1]) && CodePoint(b) >= 0x80
    ensures CodePoint(b) < 0x800 && EncodeChar(CodePoint(b) as char) == b
  {
    SixBits(b[0] as int - 0xC0, b[1] as int - 0x80);
  }

  lemma DecodedThree(b: seq<byte>)
    requires |b| == 3 && 0xE0 <= b[0] < 0xF0 && IsContinuation(b[1]) && IsContinuation(b[2])
    requires IsScalar(CodePoint(b)) && CodePoint(b) >= 0x800
    ensures EncodeChar(CodePoint(b) as char) == b
  {
    var x0, x1, x2 := b[0] as int - 0xE0, b[1] as int - 0x80, b[2] as int - 0x80;
    var cp := CodePoint(b);
    assert cp == (x0 * 0x40 + x1) * 0x40 + x2 < 0x1_0000;
    SixBits(x0 * 0x40 + x1, x2);
    SixBits(x0, x1);
    assert cp / 0x1000 == cp / 0x40 / 0x40;
  }

  lemma DecodedFour(b: seq<byte>)
    requires |b| == 4 && 0xF0 <= b[0] < 0xF8 && IsContinuation(b[1]) && IsContinuation(b[2]) && IsContinuation(b[3])
    requires IsScalar(CodePoint(b)) && CodePoint(b) >= 0x1_0000
    ensures EncodeChar(CodePoint(b) as char) == b
  {
    var x0, x1, x2, x3 := b[0] as int - 0xF0, b[1] as int - 0x80, b[2] as int - 0x80, b[3] as int - 0x80;
    var cp := CodePoint(b);
    assert cp == ((x0 * 0x40 + x1) * 0x40 + x2) * 0x40 + x3;
    SixBits((x0 * 0x40 + x1) * 0x40 + x2, x3);
    SixBits(x0 * 0x40 + x1, x2);
    SixBits(x0, x1);
    assert cp / 0x1000 == cp / 0x40 / 0x40 && cp / 0x4_0000 == cp / 0x40 / 0x40 / 0x40;
  }

  lemma DecodedFirst(b: seq<byte>)
    requires DecodeFirst(b).Some?
    ensures b != [] && 1 <= Width(b[0]) <= |b| && EncodeChar(DecodeFirst(b).value) == b[..Width(b[0])]
  {
    var n := Width(b[0]);
    var f := b[..n];
    assert forall i :: 1 <= i < n ==> IsContinuation(f[i]);
    if n == 2 {
      DecodedTwo(f);
    } else if n == 3 {
      DecodedThree(f);
    } else if n == 4 {
      DecodedFour(f);
    }
  }

  /** Decoding accepts exactly the encodings: no overlong form, no surrogate, nothing cut short. */
  lemma {:induction false} DecodeIff(b: seq<byte>, s: string)
    ensures Decode(b) == Some(s) <==> b == Encode(s)
    decreases |b|
  {
    RoundTrip(s);
    if Decode(b) == Some(s) && b != [] {
      DecodedFirst(b);
      var n := Width(b[0]);
      DecodeIff(b[n..], s[1..]);
      assert b == b[..n] + b[n..];
    }
  }
}

/** `src/bootstrap.rs`: the response parser of the metadata client. */
module Http {
  import opened Common
  import Utf8

  const CRLFCRLF: seq<byte> := [13, 10, 13, 10]

  /** The body as text; bytes that are not UTF-8 are replaced in the source, which is not modelled further. */
  datatype Body = Text(text: string) | Replaced(bytes: seq<byte>)

  datatype HttpError = Malformed | Status(status: nat, body: Body)

  // ---- pieces of the parser ---------------------------------------------------------

  predicate BlankLineAt(b: seq<byte>, k: int) {
    0 <= k <= |b| - 4 && b[k] == 13 && b[k + 1] == 10 && b[k + 2] == 13 && b[k + 3] == 10
  }

  /** Position of the first blank line, as `windows(4).position` finds it. */
  function FindBlankLine(raw: seq<byte>, i: nat): (r: Option<nat>)
    requires i <= |raw|
    ensures r.Some? ==> i <= r.value && BlankLineAt(raw, r.value)
    ensures forall k :: i <= k && (r.Some? ==> k < r.value) ==> !BlankLineAt(raw, k)
    decreases |raw| - i
  {
    if i + 4 > |raw| then None
    else if BlankLineAt(raw, i) then Some(i)
    else FindBlankLine(raw, i + 1)
  }

  /** Unicode White_Space, which `split_whitespace` splits at. */
  predicate IsWhitespace(c: char) {
    var cp := c as int;
    || 0x09 <= cp <= 0x0D || cp == 0x20 || cp == 0x85 || cp == 0xA0 || cp == 0x1680 || 0x2000 <= cp <= 0x200A
    || cp == 0x2028 || cp == 0x2029 || cp == 0x202F || cp == 0x205F || cp == 0x3000
  }

  function FirstLine(s: string): string {
    if s == "" || s[0] == '\n' then "" else [s[0]] + FirstLine(s[1..])
  }

  function SkipSpace(s: string): string {
    if s != "" && IsWhitespace(s[0]) then SkipSpace(s[1..]) else s
  }

  function Word(s: string): (r: string)
    ensures |r| <= |s|
  {
    if s == "" || IsWhitespace(s[0]) then "" else [s[0]] + Word(s[1..])
  }

  /** `split_whitespace().nth(1)`, empty when there is none. */
  function SecondWord(s: string): string {
    var t := SkipSpace(s);
    Word(SkipSpace(t[|Word(t)|..]))
  }

  predicate AllDigits(s: string) { forall i :: 0 <= i < |s| ==> '0' <= s[i] <= '9' }

  function DecimalValue(s: string): nat
    requires AllDigits(s)
  {
    if s == "" then 0 else DecimalValue(s[..|s| - 1]) * 10 + (s[|s| - 1] as int - '0' as int)
  }

  /** `str::parse::<u16>`: digits, an optional plus sign, no overflow. */
  function ParseU16(s: string): Option<nat> {
    var digits := if s != "" && s[0] == '+' then s[1..] else s;
    if digits == "" || !AllDigits(digits) || DecimalValue(digits) > 0xFFFF then None else Some(DecimalValue(digits))
  }

  function BodyOf(bytes: seq<byte>): Body {
    var text := Utf8.Decode(bytes);
    if text.Some? then Text(text.value) else Replaced(bytes)
  }

  function StatusOf(header: string): Option<nat> { ParseU16(SecondWord(FirstLine(header))) }

  /** `parse_http_response` */
  function ParseHttpResponse(raw: seq<byte>): Result<Body, HttpError> {
    var sep := FindBlankLine(raw, 0);
    if sep.None? then Err(Malformed)
    else
      var header := Utf8.Decode(raw[..sep.value]);
      if header.None? then Err(Malformed)
      else
        var status := StatusOf(header.value);
        if status.None? then Err(Malformed)
        else
          var body := BodyOf(raw[sep.value + 4..]);
          if 200 <= status.value < 300 then Ok(body) else Err(Status(status.value, body))
  }

  // ---- finding the separator ------------------------------------------------------------

  ghost predicate ContainsBlankLine(b: seq<byte>) {
    exists k :: BlankLineAt(b, k)
  }

  predicate EndsInCrlf(b: seq<byte>) { |b| >= 2 && b[|b| - 2] == 13 && b[|b| - 1] == 10 }

  /** The separator found is the intended one exactly when the header block neither contains a blank line nor
      ends in CRLF; the body may contain anything. */
  lemma SeparatorFoundIff(header: seq<byte>, body: seq<byte>)
    ensures FindBlankLine(header + CRLFCRLF + body, 0) == Some(|header|)
       <==> !ContainsBlankLine(header) && !EndsInCrlf(header)
  {
    var raw, h := header + CRLFCRLF + body, |header|;
    assert BlankLineAt(raw, h);
    assert forall k :: 0 <= k < h ==> raw[k] == header[k];
    if k :| BlankLineAt(header, k) {
      assert BlankLineAt(raw, k);
    } else if EndsInCrlf(header) {
      assert BlankLineAt(raw, h - 2);
    } else {
      forall k | 0 <= k < h ensures !BlankLineAt(raw, k) {
        assert !BlankLineAt(header, k);
        assert raw[h] == 13 && raw[h + 1] == 10 && raw[h + 2] == 13;
      }
    }
  }

  // ---- reading the status line --------------------------------------------------------------

  function Digit(d: nat): char
    requires d < 10
  {
    ('0' as int + d) as char
  }

  function Decimal(n: nat): (s: string)
    ensures s != "" && AllDigits(s)
  {
    if n < 10 then [Digit(n)] else Decimal(n / 10) + [Digit(n % 10)]
  }

  lemma {:induction false} DecimalRoundTrip(n: nat)
    ensures DecimalValue(Decimal(n)) == n
  {
    if n >= 10 {
      DecimalRoundTrip(n / 10);
      assert Decimal(n)[..|Decimal(n)| - 1] == Decimal(n / 10);
    } else {
      assert Decimal(n)[..0] == "";
    }
  }

  lemma {:induction false} WordOf(w: string, rest: string)
    requires forall i :: 0 <= i < |w| ==> !IsWhitespace(w[i])
    requires rest == "" || IsWhitespace(rest[0])
    ensures Word(w + rest) == w
  {
    if w != "" {
      assert (w + rest)[1..] == w[1..] + rest;
      WordOf(w[1..], rest);
    } else {
      assert w + rest == rest;
    }
  }

  lemma {:induction false} FirstLineOf(line: string, rest: string)
    requires forall i :: 0 <= i < |line| ==> line[i] != '\n'
    requires rest == "" || rest[0] == '\n'
    ensures FirstLine(line + rest) == line
  {
    if line != "" {
      assert (line + rest)[1..] == line[1..] + rest;
      FirstLineOf(line[1..], rest);
    } else {
      assert line + rest == rest;
    }
  }

  /** A status line as section 4 of RFC 9112 has it: a version, one space, the status code, then a
      space and a reason phrase, or nothing. */
  predicate StatusLine(version: string, tail: string) {
    && version != "" && (forall i :: 0 <= i < |version| ==> !IsWhitespace(version[i]))
    && (tail == "" || tail[0] == ' ' || tail[0] == '\r')
    && (forall i :: 0 <= i < |tail| ==> tail[i] != '\n')
  }

  predicate Blank(s: string) { forall i :: 0 <= i < |s| ==> IsWhitespace(s[i]) }

  /** The characters with the Unicode property White_Space. */
  lemma WhitespaceIs(c: char)
    ensures IsWhitespace(c) <==>
            c as int in {0x09, 0x0A, 0x0B, 0x0C, 0x0D, 0x20, 0x85, 0xA0, 0x1680, 0x2000, 0x2001, 0x2002, 0x2003,
                         0x2004, 0x2005, 0x2006, 0x2007, 0x2008, 0x2009, 0x200A, 0x2028, 0x2029, 0x202F, 0x205F, 0x3000}
  {
  }

  lemma {:induction false} SkipsBlank(s: string, rest: string)
    requires Blank(s) && (rest == "" || !IsWhitespace(rest[0]))
    ensures SkipSpace(s + rest) == rest
  {
    if s == "" {
      assert s + rest == rest;
    } else {
      assert (s + rest)[1..] == s[1..] + rest;
      SkipsBlank(s[1..], rest);
    }
  }

  /** The second word of a line, whatever whitespace is around the first two words. */
  lemma SecondWordIs(lead: string, first: string, gap: string, second: string, rest: string)
    requires Blank(lead) && Blank(gap) && gap != "" && first != "" && second != ""
    requires forall i :: 0 <= i < |first| ==> !IsWhitespace(first[i])
    requires forall i :: 0 <= i < |second| ==> !IsWhitespace(second[i])
    requires rest == "" || IsWhitespace(rest[0])
    ensures SecondWord(lead + (first + (gap + (second + rest)))) == second
  {
    var t := first + (gap + (second + rest));
    SkipsBlank(lead, t);
    WordOf(first, gap + (second + rest));
    assert t[|first|..] == gap + (second + rest);
    SkipsBlank(gap, second + rest);
    WordOf(second, rest);
  }

  lemma SecondWordOf(version: string, status: string, tail: string)
    requires StatusLine(version, tail) && status != "" && AllDigits(status)
    ensures SecondWord(version + " " + status + tail) == status
  {
    SecondWordIs("", version, " ", status, tail);
    assert version + " " + status + tail == "" + (version + (" " + (status + tail)));
  }

  lemma DigitsParse(n: nat)
    requires n <= 0xFFFF
    ensures ParseU16(Decimal(n)) == Some(n)
  {
    DecimalRoundTrip(n);
  }

  predicate Numeral(t: string) { t != "" && forall i :: 0 <= i < |t| ==> '0' <= t[i] <= '9' }

  /** What parses is a numeral, with at most one plus sign before it. */
  lemma ParsesNumerals(s: string)
    ensures ParseU16(s).Some? ==> Numeral(s) || (s[0] == '+' && Numeral(s[1..]))
  {
  }

  /** The numeral of `n` parses if and only if it is at most 65535. */
  lemma ParseU16Iff(n: nat)
    ensures ParseU16(Decimal(n)) == if n <= 65_535 then Some(n) else None
  {
    DecimalRoundTrip(n);
  }

  /** One plus sign does not matter. */
  lemma ParsesWithPlus(t: string)
    requires Numeral(t)
    ensures ParseU16("+" + t) == ParseU16(t)
  {
    assert ("+" + t)[1..] == t;
  }

  /** Leading zeros do not matter. */
  lemma ParsesWithZero(t: string)
    requires Numeral(t)
    ensures ParseU16("0" + t) == ParseU16(t)
  {
    LeadingZero(t);
  }

  lemma {:induction false} LeadingZero(s: string)
    requires AllDigits(s)
    ensures AllDigits("0" + s) && DecimalValue("0" + s) == DecimalValue(s)
  {
    var t := "0" + s;
    if s == "" {
      assert t[..0] == "";
    } else {
      LeadingZero(s[..|s| - 1]);
      assert t[..|t| - 1] == "0" + s[..|s| - 1] && t[|t| - 1] == s[|s| - 1];
    }
  }

  lemma StatusRead(version: string, n: nat, tail: string, fields: string)
    requires StatusLine(version, tail) && n <= 0xFFFF
    requires fields == "" || fields[0] == '\n'
    ensures StatusOf(version + " " + Decimal(n) + tail + fields) == Some(n)
  {
    var line := version + " " + Decimal(n) + tail;
    assert forall i :: 0 <= i < |line| ==> line[i] != '\n';
    FirstLineOf(line, fields);
    SecondWordOf(version, Decimal(n), tail);
    DigitsParse(n);
  }

  function HeaderBlock(version: string, status: nat, tail: string, fields: string): seq<byte> {
    Utf8.Encode(version + " " + Decimal(status) + tail + fields)
  }

  /** The bytes before the first blank line, at `k`, are the UTF-8 of `header`. */
  ghost predicate HeaderIs(raw: seq<byte>, k: nat, header: string) {
    BlankLineAt(raw, k) && raw[..k] == Utf8.Encode(header) && forall m: nat :: m < k ==> !BlankLineAt(raw, m)
  }

  /** There is such a header block, and the second word of its first line is the 16-bit number `n`. */
  ghost predicate HasStatus(raw: seq<byte>, n: nat) {
    exists k: nat, header: string :: HeaderIs(raw, k, header) && StatusOf(header) == Some(n)
  }

  lemma HeaderFound(raw: seq<byte>, k: nat, header: string)
    requires HeaderIs(raw, k, header)
    ensures FindBlankLine(raw, 0) == Some(k) && Utf8.Decode(raw[..k]) == Some(header)
  {
    Utf8.DecodeIff(raw[..k], header);
  }

  lemma BodyText(body: string)
    ensures BodyOf(Utf8.Encode(body)) == Text(body)
  {
    Utf8.RoundTrip(body);
  }

  /** With a header block and a status, the body is everything after the first blank line, whatever it holds. */
  lemma ResponseIs(raw: seq<byte>, k: nat, header: string, n: nat)
    requires HeaderIs(raw, k, header) && StatusOf(header) == Some(n)
    ensures var body := BodyOf(raw[k + 4..]);
            ParseHttpResponse(raw) == if 200 <= n < 300 then Ok(body) else Err(Status(n, body))
  {
    HeaderFound(raw, k, header);
  }

  /** Round trip: a rendered response with any body parses back to exactly that body if the status is 2xx and
      otherwise to an error carrying that status and body, provided the header block neither contains a blank
      line nor ends in CRLF. */
  lemma HttpRoundTrip(version: string, n: nat, tail: string, fields: string, body: string)
    requires StatusLine(version, tail) && n <= 0xFFFF && (fields == "" || fields[0] == '\n')
    requires !ContainsBlankLine(HeaderBlock(version, n, tail, fields))
    requires !EndsInCrlf(HeaderBlock(version, n, tail, fields))
    ensures ParseHttpResponse(HeaderBlock(version, n, tail, fields) + CRLFCRLF + Utf8.Encode(body))
         == if 200 <= n < 300 then Ok(Text(body)) else Err(Status(n, Text(body)))
  {
    var text := version + " " + Decimal(n) + tail + fields;
    var header, b := Utf8.Encode(text), Utf8.Encode(body);
    var raw := header + CRLFCRLF + b;
    SeparatorFoundIff(header, b);
    assert raw[..|header|] == header && raw[|header| + 4..] == b;
    assert HeaderIs(raw, |header|, text);
    StatusRead(version, n, tail, fields);
    BodyText(body);
    ResponseIs(raw, |header|, text, n);
  }

  lemma StatusFound(raw: seq<byte>, n: nat)
    requires HasStatus(raw, n)
    ensures if 200 <= n < 300 then ParseHttpResponse(raw).Ok?
            else ParseHttpResponse(raw).Err? && ParseHttpResponse(raw).error.Status?
                 && ParseHttpResponse(raw).error.status == n
  {
    var k: nat, header: string :| HeaderIs(raw, k, header) && StatusOf(header) == Some(n);
    ResponseIs(raw, k, header, n);
  }

  lemma NotMalformed(raw: seq<byte>) returns (n: nat)
    requires ParseHttpResponse(raw) != Err(Malformed)
    ensures HasStatus(raw, n)
  {
    var k := FindBlankLine(raw, 0).value;
    var header := Utf8.Decode(raw[..k]).value;
    Utf8.DecodeIff(raw[..k], header);
    assert HeaderIs(raw, k, header);
    n := StatusOf(header).value;
  }

  /** A response is malformed if and only if it has no status; otherwise it succeeds if and only if the status is 200
      to 299, and fails with the status if not. */
  lemma ParsesIff(raw: seq<byte>, n: nat)
    ensures ParseHttpResponse(raw) == Err(Malformed) <==> !exists m: nat :: HasStatus(raw, m)
    ensures HasStatus(raw, n) ==> if 200 <= n < 300 then ParseHttpResponse(raw).Ok?
                                  else ParseHttpResponse(raw).Err? && ParseHttpResponse(raw).error.Status?
                                       && ParseHttpResponse(raw).error.status == n
  {
    if HasStatus(raw, n) {
      StatusFound(raw, n);
    }
    if m: nat :| HasStatus(raw, m) {
      StatusFound(raw, m);
    } else if ParseHttpResponse(raw) != Err(Malformed) {
      var m := NotMalformed(raw);
    }
  }

  // ---- parse_base_url ---------------------------------------------------------------------------

  const HTTP_PREFIX := "http://"

  function UpToSlash(s: string): string {
    if s == "" || s[0] == '/' then "" else [s[0]] + UpToSlash(s[1..])
  }

  /** Position of the last colon. */
  function LastColon(s: string): (r: Option<nat>)
    ensures r.Some? ==> r.value < |s| && s[r.value] == ':' && forall i :: r.value < i < |s| ==> s[i] != ':'
    ensures r.None? ==> forall i :: 0 <= i < |s| ==> s[i] != ':'
  {
    if s == "" then None
    else if s[|s| - 1] == ':' then Some(|s| - 1)
    else LastColon(s[..|s| - 1])
  }

  /** `http://host[:port][/path]` to host and port; the port defaults to 80 and a path is ignored. */
  function ParseBaseUrl(url: string): Option<(string, nat)> {
    if !(HTTP_PREFIX <= url) then None
    else
      var authority := UpToSlash(url[|HTTP_PREFIX|..]);
      var colon := LastColon(authority);
      if colon.Some? then
        var host, port := authority[..colon.value], ParseU16(authority[colon.value + 1..]);
        if port.None? || host == "" then None else Some((host, port.value))
      else if authority == "" then None
      else Some((authority, 80))
  }

  lemma {:induction false} UpToSlashOf(a: string, path: string)
    requires forall i :: 0 <= i < |a| ==> a[i] != '/'
    requires path == "" || path[0] == '/'
    ensures UpToSlash(a + path) == a
  {
    if a != "" {
      assert (a + path)[1..] == a[1..] + path;
      UpToSlashOf(a[1..], path);
    } else {
      assert a + path == path;
    }
  }

  lemma AuthorityRead(authority: string, path: string)
    requires forall i :: 0 <= i < |authority| ==> authority[i] != '/'
    requires path == "" || path[0] == '/'
    ensures var url := HTTP_PREFIX + (authority + path);
            HTTP_PREFIX <= url && UpToSlash(url[|HTTP_PREFIX|..]) == authority
  {
    assert (HTTP_PREFIX + (authority + path))[|HTTP_PREFIX|..] == authority + path;
    UpToSlashOf(authority, path);
  }

  /** Any host without a slash, any port and any path: the host (colons and all) and the port come back. */
  lemma BaseUrlRoundTrip(host: string, port: nat, path: string)
    requires host != "" && (forall i :: 0 <= i < |host| ==> host[i] != '/') && port <= 0xFFFF
    requires path == "" || path[0] == '/'
    ensures ParseBaseUrl(HTTP_PREFIX + (host + ":" + Decimal(port) + path)) == Some((host, port))
  {
    var a := host + ":" + Decimal(port);
    AuthorityRead(a, path);
    assert a[|host|] == ':' && a[|host| + 1..] == Decimal(port) && a[..|host|] == host;
    assert LastColon(a) == Some(|host|);
    DigitsParse(port);
  }

  /** Host and port are what is before and after the last colon. */
  predicate SplitsInto(authority: string, host: string, port: string) {
    authority == host + ":" + port && ':' !in port
  }

  lemma SplitAtLastColon(authority: string, host: string, port: string)
    requires SplitsInto(authority, host, port)
    ensures LastColon(authority) == Some(|host|)
    ensures host == authority[..|host|] && port == authority[|host| + 1..]
  {
    assert authority[|host|] == ':';
    assert forall i :: |host| < i < |authority| ==> authority[i] == port[i - |host| - 1];
  }

  /** A URL is refused if and only if it is not `http`, or its host is empty, or what follows the last colon of host and
      port is not a 16-bit number. */
  lemma BaseUrlRefusedIff(authority: string, path: string)
    requires forall i :: 0 <= i < |authority| ==> authority[i] != '/'
    requires path == "" || path[0] == '/'
    ensures ParseBaseUrl(HTTP_PREFIX + (authority + path)).None? <==>
            || authority == ""
            || exists host, port :: SplitsInto(authority, host, port) && (host == "" || ParseU16(port).None?)
    ensures forall url: string :: !("http://" <= url) ==> ParseBaseUrl(url).None?
  {
    AuthorityRead(authority, path);
    forall host, port | SplitsInto(authority, host, port)
      ensures LastColon(authority) == Some(|host|) && host == authority[..|host|] && port == authority[|host| + 1..]
    {
      SplitAtLastColon(authority, host, port);
    }
    var colon := LastColon(authority);
    if colon.Some? {
      assert SplitsInto(authority, authority[..colon.value], authority[colon.value + 1..]);
    }
  }

  /** Without a port the host comes back with port 80, exactly when it holds no colon. */
  lemma BaseUrlDefaultPortIff(host: string, path: string)
    requires host != "" && (forall i :: 0 <= i < |host| ==> host[i] != '/')
    requires path == "" || path[0] == '/'
    ensures ParseBaseUrl(HTTP_PREFIX + (host + path)) == Some((host, 80)) <==> ':' !in host
  {
    AuthorityRead(host, path);
  }
}
