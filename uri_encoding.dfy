/**
 `encodeURIComponent` on a string of Unicode scalar values: the unreserved
 characters pass through, every other character becomes the `%XX` escapes
 (upper-case hexadecimal) of its UTF-8 bytes.
 */
module UriEncoding {
  import opened JsText

  /** The characters `encodeURIComponent` leaves as they are. */
  predicate IsUnreserved(c: char)
  {
    || ('A' <= c <= 'Z') || ('a' <= c <= 'z') || ('0' <= c <= '9')
    || c == '-' || c == '_' || c == '.' || c == '!' || c == '~'
    || c == '*' || c == '\'' || c == '(' || c == ')'
  }

  /** Every character is unreserved or the escape introducer `%`. */
  predicate UriSafe(s: string)
  {
    forall i :: 0 <= i < |s| ==> IsUnreserved(s[i]) || s[i] == '%'
  }

  predicate IsByte(b: int)
  {
    0 <= b < 0x100
  }

  /** The UTF-8 encoding of one scalar value, as byte values. */
  function Utf8(c: char): (bytes: seq<int>)
    ensures 1 <= |bytes| <= 4
    ensures forall i :: 0 <= i < |bytes| ==> IsByte(bytes[i])
    ensures |bytes| == 1 <==> c as int < 0x80
    ensures forall i :: 1 <= i < |bytes| ==> 0x80 <= bytes[i] < 0xC0
  {
    var n := c as int;
    if n < 0x80 then [n]
    else if n < 0x800 then [0xC0 + n / 0x40, 0x80 + n % 0x40]
    else if n < 0x10000 then [0xE0 + n / 0x1000, 0x80 + (n / 0x40) % 0x40, 0x80 + n % 0x40]
    else [0xF0 + n / 0x40000, 0x80 + (n / 0x1000) % 0x40, 0x80 + (n / 0x40) % 0x40, 0x80 + n % 0x40]
  }

  /** Upper-case hexadecimal digit. */
  function HexDigit(v: int): (d: char)
    requires 0 <= v < 16
    ensures d == "0123456789ABCDEF"[v]
    ensures IsUnreserved(d) && d != '%'
  {
    if v < 10 then ('0' as int + v) as char else ('A' as int + v - 10) as char
  }

  /** The code point a one- to four-byte UTF-8 sequence stands for. */
  function Utf8Decode(bytes: seq<int>): (n: int)
    requires 1 <= |bytes| <= 4
  {
    if |bytes| == 1 then bytes[0]
    else if |bytes| == 2 then (bytes[0] - 0xC0) * 0x40 + (bytes[1] - 0x80)
    else if |bytes| == 3 then
      (bytes[0] - 0xE0) * 0x1000 + (bytes[1] - 0x80) * 0x40 + (bytes[2] - 0x80)
    else
      (bytes[0] - 0xF0) * 0x40000 + (bytes[1] - 0x80) * 0x1000 + (bytes[2] - 0x80) * 0x40 + (bytes[3] - 0x80)
  }

  /** The UTF-8 bytes of a character decode back to its code point. */
  lemma Utf8RoundTrip(c: char)
    ensures Utf8Decode(Utf8(c)) == c as int
  {
    var n := c as int;
    var q6, r6 := n / 0x40, n % 0x40;
    assert n == q6 * 0x40 + r6;
    var q12, r12 := q6 / 0x40, q6 % 0x40;
    assert q6 == q12 * 0x40 + r12;
    var q18, r18 := q12 / 0x40, q12 % 0x40;
    assert q12 == q18 * 0x40 + r18;
    assert n / 0x1000 == q12 && n / 0x40000 == q18;
  }

  /** The value of a hexadecimal digit, upper or lower case; -1 for any other character. */
  function HexValue(d: char): (v: int)
    ensures -1 <= v < 16
    ensures v == -1 <==> !(('0' <= d <= '9') || ('A' <= d <= 'F') || ('a' <= d <= 'f'))
  {
    if '0' <= d <= '9' then d as int - '0' as int
    else if 'A' <= d <= 'F' then d as int - 'A' as int + 10
    else if 'a' <= d <= 'f' then d as int - 'a' as int + 10
    else -1
  }

  /** A digit written by `HexDigit` reads back as the value it was written for. */
  lemma HexDigitRoundTrip(v: int)
    requires 0 <= v < 16
    ensures HexValue(HexDigit(v)) == v
  {
  }

  /** `%XX` for each byte. */
  function PercentEscapes(bytes: seq<int>): (r: string)
    requires forall i :: 0 <= i < |bytes| ==> IsByte(bytes[i])
    ensures |r| == 3 * |bytes|
    ensures bytes != [] ==> r[0] == '%'
    ensures UriSafe(r)
  {
    if bytes == [] then []
    else
      var b := bytes[0];
      assert IsByte(b) && b / 16 < 16;
      ['%', HexDigit(b / 16), HexDigit(b % 16)] + PercentEscapes(bytes[1..])
  }

  /** The escape of byte `i` sits at position `3 * i`, and its two digits give back the byte. */
  lemma {:induction false} PercentEscapesAt(bytes: seq<int>, i: nat)
    requires forall j :: 0 <= j < |bytes| ==> IsByte(bytes[j])
    requires i < |bytes|
    ensures var r := PercentEscapes(bytes);
      && r[3 * i] == '%'
      && 16 * HexValue(r[3 * i + 1]) + HexValue(r[3 * i + 2]) == bytes[i]
  {
    var r := PercentEscapes(bytes);
    if i == 0 {
      var b := bytes[0];
      assert r[1] == HexDigit(b / 16) && r[2] == HexDigit(b % 16);
      HexDigitRoundTrip(b / 16);
      HexDigitRoundTrip(b % 16);
      assert 16 * (b / 16) + b % 16 == b;
    } else {
      var rest := PercentEscapes(bytes[1..]);
      assert r[3..] == rest;
      PercentEscapesAt(bytes[1..], i - 1);
      assert r[3 * i] == rest[3 * (i - 1)];
      assert r[3 * i + 1] == rest[3 * (i - 1) + 1];
      assert r[3 * i + 2] == rest[3 * (i - 1) + 2];
    }
  }

  function EncodeChar(c: char): (r: string)
    ensures IsUnreserved(c) <==> r == [c]
    ensures !IsUnreserved(c) ==> 3 <= |r| <= 12 && r[0] == '%'
    ensures UriSafe(r)
  {
    if IsUnreserved(c) then [c] else PercentEscapes(Utf8(c))
  }

  /** `encodeURIComponent`. */
  function EncodeUriComponent(s: string): (r: string)
    ensures UriSafe(r)
    ensures |r| >= |s|
  {
    if s == [] then [] else EncodeChar(s[0]) + EncodeUriComponent(s[1..])
  }

  /** A string of unreserved characters is its own encoding. */
  lemma {:induction false} EncodeUnreservedIdentity(s: string)
    requires forall i :: 0 <= i < |s| ==> IsUnreserved(s[i])
    ensures EncodeUriComponent(s) == s
  {
    if s != [] {
      EncodeUnreservedIdentity(s[1..]);
    }
  }

  /** Encoding works character by character, so it distributes over concatenation. */
  lemma {:induction false} EncodeAppend(a: string, b: string)
    ensures EncodeUriComponent(a + b) == EncodeUriComponent(a) + EncodeUriComponent(b)
  {
    if a == [] {
      assert a + b == b;
    } else {
      assert (a + b)[0] == a[0];
      assert (a + b)[1..] == a[1..] + b;
      EncodeAppend(a[1..], b);
    }
  }

  /** An encoded component holds no white space and no URL delimiter, so it stays one path segment. */
  lemma EncodedIsOneSegment(s: string)
    ensures var r := EncodeUriComponent(s);
      forall i :: 0 <= i < |r| ==> !IsSpace(r[i]) && r[i] !in "/?#&="
  {
  }

  /** The escapes of a space and of a two-byte character. */
  lemma EncodeExamples()
    ensures EncodeUriComponent(" ") == "%20"
    ensures EncodeUriComponent("\U{00E9}") == "%C3%A9"
  {
    assert Utf8(' ') == [0x20];
    assert Utf8('\U{00E9}') == [0xC3, 0xA9];
  }

}
