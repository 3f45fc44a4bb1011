/**
 * `encodeURI` and `encodeURIComponent` as section 19.2.6 of ECMA-262 (URI Handling
 * Functions) defines them: a character outside the function's unescaped set is
 * replaced by the percent-encoding (section 2.1 of RFC 3986) of each byte of its
 * UTF-8 form, with upper-case hexadecimal digits. Dafny's `char` is a Unicode scalar
 * value, so the lone-surrogate `URIError` of ECMA-262 cannot arise.
 *
 * Percent-decoding to bytes is the inverse used to state what an encoded string means.
 */
module Uri {
  import opened Wrappers

  type Byte = b: int | 0 <= b < 256

  /** Which of the two functions: they differ only in the set of characters left alone. */
  datatype Flavour = WholeUri | Component

  predicate IsAsciiAlnum(c: char) {
    ('A' <= c <= 'Z') || ('a' <= c <= 'z') || ('0' <= c <= '9')
  }

  /** uriMark of ECMA-262: `- _ . ! ~ * ' ( )` */
  predicate IsUriMark(c: char) {
    c == '-' || c == '_' || c == '.' || c == '!' || c == '~' || c == '*' || c == '\'' || c == '(' || c == ')'
  }

  /** uriReserved of ECMA-262: `; / ? : @ & = + $ ,` */
  predicate IsUriReserved(c: char) {
    c == ';' || c == '/' || c == '?' || c == ':' || c == '@' || c == '&' || c == '=' || c == '+' || c == '$' || c == ','
  }

  /** The characters a flavour copies unchanged: encodeURI also keeps the reserved characters and `#`. */
  predicate Kept(f: Flavour, c: char) {
    IsAsciiAlnum(c) || IsUriMark(c) || (f == WholeUri && (IsUriReserved(c) || c == '#'))
  }

  lemma KeptIsAscii(f: Flavour, c: char)
    requires Kept(f, c)
    ensures c as int < 0x80 && c != '%' && c != ' '
  {
  }

  /** The UTF-8 bytes of one scalar value. */
  function Utf8(c: char): (r: seq<Byte>)
    ensures 1 <= |r| <= 4
    ensures c as int < 0x80 ==> r == [c as int]
  {
    var n := c as int;
    if n < 0x80 then [n]
    else if n < 0x800 then [0xC0 + n / 0x40, 0x80 + n % 0x40]
    else if n < 0x1_0000 then [0xE0 + n / 0x1000, 0x80 + (n / 0x40) % 0x40, 0x80 + n % 0x40]
    else [0xF0 + n / 0x4_0000, 0x80 + (n / 0x1000) % 0x40, 0x80 + (n / 0x40) % 0x40, 0x80 + n % 0x40]
  }

  /** The UTF-8 bytes of a string. */
  function Utf8Of(s: string): seq<Byte> {
    if s == [] then [] else Utf8(s[0]) + Utf8Of(s[1..])
  }

  function HexDigit(n: nat): (c: char)
    requires n < 16
  {
    "0123456789ABCDEF"[n]
  }

  /** The value of a hexadecimal digit of either case. */
  function HexValue(c: char): (r: Option<nat>)
    ensures r.Some? ==> r.value < 16
  {
    if '0' <= c <= '9' then Some(c as int - '0' as int)
    else if 'A' <= c <= 'F' then Some(c as int - 'A' as int + 10)
    else if 'a' <= c <= 'f' then Some(c as int - 'a' as int + 10)
    else None
  }

  lemma HexRoundTrip(n: nat)
    requires n < 16
    ensures HexValue(HexDigit(n)) == Some(n)
    ensures IsAsciiAlnum(HexDigit(n))
  {
  }

  /** `%XY` for every byte. */
  function Escape(bytes: seq<Byte>): (r: string)
    ensures |r| == 3 * |bytes|
    ensures forall i :: 0 <= i < |r| ==> r[i] == '%' || IsAsciiAlnum(r[i])
    ensures forall k :: 0 <= k < |bytes| ==> r[3 * k..3 * k + 3] == ['%', HexDigit(bytes[k] / 16), HexDigit(bytes[k] % 16)]
  {
    if bytes == [] then []
    else
      HexRoundTrip(bytes[0] / 16);
      HexRoundTrip(bytes[0] % 16);
      ['%', HexDigit(bytes[0] / 16), HexDigit(bytes[0] % 16)] + Escape(bytes[1..])
  }

  function EncodeChar(f: Flavour, c: char): string {
    if Kept(f, c) then [c] else Escape(Utf8(c))
  }

  /**
   * `encodeURI(s)` (flavour WholeUri) or `encodeURIComponent(s)` (flavour Component).
   * Every character of the result is one the flavour keeps, or the `%` of an escape.
   */
  function Encode(f: Flavour, s: string): (r: string)
    ensures forall i :: 0 <= i < |r| ==> Kept(f, r[i]) || r[i] == '%'
  {
    if s == [] then [] else EncodeChar(f, s[0]) + Encode(f, s[1..])
  }

  lemma EncodeHasNoSpace(f: Flavour, s: string)
    ensures ' ' !in Encode(f, s)
  {
    var r := Encode(f, s);
    forall i | 0 <= i < |r| ensures r[i] != ' ' {
      if Kept(f, r[i]) {
        KeptIsAscii(f, r[i]);
      }
    }
  }

  /** A string without `'` encodes to one without `'`: escapes are made of `%` and hexadecimal digits. */
  lemma {:induction false} EncodeQuoteFree(f: Flavour, s: string)
    requires '\'' !in s
    ensures '\'' !in Encode(f, s)
  {
    if s != [] {
      assert s[0] in s;
      EncodeQuoteFree(f, s[1..]);
      assert '\'' !in EncodeChar(f, s[0]);
    }
  }

  /** `encodeURIComponent` escapes `&`, so its output can stand as one query parameter. */
  lemma ComponentHasNoAmpersand(s: string)
    ensures '&' !in EncodeURIComponent(s)
  {
    var r := Encode(Component, s);
    forall i | 0 <= i < |r| ensures r[i] != '&' {
      assert Kept(Component, r[i]) || r[i] == '%';
    }
  }

  function EncodeURI(s: string): string {
    Encode(WholeUri, s)
  }

  function EncodeURIComponent(s: string): string {
    Encode(Component, s)
  }

  /**
   * Percent-decoding to bytes (section 2.1 of RFC 3986): `%XY` is one byte, any other
   * character stands for its own UTF-8 bytes; a `%` without two hexadecimal digits
   * after it is malformed.
   */
  function PercentDecode(s: string): (r: Option<seq<Byte>>)
  {
    if s == [] then Some([])
    else if s[0] == '%' then
      if |s| >= 3 && HexValue(s[1]).Some? && HexValue(s[2]).Some? then
        match PercentDecode(s[3..])
        case None => None
        case Some(rest) => Some([16 * HexValue(s[1]).value + HexValue(s[2]).value] + rest)
      else None
    else
      match PercentDecode(s[1..])
      case None => None
      case Some(rest) => Some(Utf8(s[0]) + rest)
  }

  lemma {:induction false} EncodeAppend(f: Flavour, a: string, b: string)
    ensures Encode(f, a + b) == Encode(f, a) + Encode(f, b)
  {
    if a != [] {
      assert (a + b)[1..] == a[1..] + b;
      EncodeAppend(f, a[1..], b);
    } else {
      assert a + b == b;
    }
  }

  /** A string made of kept characters only is its own encoding. */
  lemma {:induction false} EncodeKeptString(f: Flavour, s: string)
    requires forall i :: 0 <= i < |s| ==> Kept(f, s[i])
    ensures Encode(f, s) == s
  {
    if s != [] {
      EncodeKeptString(f, s[1..]);
    }
  }

  lemma DecodeOneEscape(b: Byte, t: string)
    requires PercentDecode(t).Some?
    ensures PercentDecode(['%', HexDigit(b / 16), HexDigit(b % 16)] + t) == Some([b] + PercentDecode(t).value)
  {
    HexRoundTrip(b / 16);
    HexRoundTrip(b % 16);
    var s := ['%', HexDigit(b / 16), HexDigit(b % 16)] + t;
    assert s[1] == HexDigit(b / 16) && s[2] == HexDigit(b % 16) && s[3..] == t;
  }

  lemma {:induction false} DecodeEscape(bytes: seq<Byte>, rest: string)
    requires PercentDecode(rest).Some?
    ensures PercentDecode(Escape(bytes) + rest) == Some(bytes + PercentDecode(rest).value)
  {
    if bytes == [] {
      assert Escape(bytes) + rest == rest;
      assert bytes + PercentDecode(rest).value == PercentDecode(rest).value;
    } else {
      DecodeEscape(bytes[1..], rest);
      DecodeEscapeCons(bytes, rest, PercentDecode(rest).value);
    }
  }

  /** One step of `DecodeEscape`: the first byte's escape decodes in front of the others. */
  lemma DecodeEscapeCons(bytes: seq<Byte>, rest: string, tail: seq<Byte>)
    requires bytes != []
    requires PercentDecode(Escape(bytes[1..]) + rest) == Some(bytes[1..] + tail)
    ensures PercentDecode(Escape(bytes) + rest) == Some(bytes + tail)
  {
    var b := bytes[0];
    var e := ['%', HexDigit(b / 16), HexDigit(b % 16)];
    var t := Escape(bytes[1..]) + rest;
    DecodeOneEscape(b, t);
    EscapeHead(bytes);
    Reassociate(e, Escape(bytes[1..]), rest);
    ConsSplit(bytes, tail);
  }

  lemma ConsSplit<T>(xs: seq<T>, tail: seq<T>)
    requires xs != []
    ensures [xs[0]] + (xs[1..] + tail) == xs + tail
  {
    assert xs == [xs[0]] + xs[1..];
  }

  lemma EscapeHead(bytes: seq<Byte>)
    requires bytes != []
    ensures Escape(bytes) == ['%', HexDigit(bytes[0] / 16), HexDigit(bytes[0] % 16)] + Escape(bytes[1..])
  {
  }

  lemma Reassociate(a: string, b: string, c: string)
    ensures (a + b) + c == a + (b + c)
  {
  }

  /** Round trip: percent-decoding an encoded string gives back the UTF-8 bytes of the input. */
  lemma {:induction false} DecodeEncode(f: Flavour, s: string)
    ensures PercentDecode(Encode(f, s)) == Some(Utf8Of(s))
  {
    if s != [] {
      var c := s[0];
      var t := Encode(f, s[1..]);
      DecodeEncode(f, s[1..]);
      if Kept(f, c) {
        KeptIsAscii(f, c);
        assert ([c] + t)[1..] == t;
      } else {
        DecodeEscape(Utf8(c), t);
      }
    }
  }

  /** For ASCII input the decoded bytes are the character codes themselves. */
  lemma {:induction false} Utf8OfAscii(s: string)
    requires forall i :: 0 <= i < |s| ==> s[i] as int < 0x80
    ensures |Utf8Of(s)| == |s|
    ensures forall i :: 0 <= i < |s| ==> Utf8Of(s)[i] == s[i] as int
  {
    if s != [] {
      Utf8OfAscii(s[1..]);
    }
  }

  /** `encodeURI` escapes `%` itself, so an already percent-encoded path is encoded again. */
  lemma EncodeURIPercent()
    ensures EncodeURI("%") == "%25"
    ensures EncodeURI(" ") == "%20"
  {
    assert Utf8('%') == [37];
    assert Escape([37]) == ['%', HexDigit(2), HexDigit(5)] + Escape([]);
    assert Utf8(' ') == [32];
    assert Escape([32]) == ['%', HexDigit(2), HexDigit(0)] + Escape([]);
  }
}
