/**
 * `encodeURIComponent` over Dafny strings: characters outside the unreserved
 * set are written as the `%XX` escapes (upper-case hexadecimal) of their UTF-8
 * bytes. Dafny characters are Unicode scalar values, so the lone surrogates
 * on which JavaScript throws cannot occur.
 */
module UriEncoding {
  import opened JsStrings

  newtype byte = x: int | 0 <= x < 256

  /** The characters `encodeURIComponent` leaves as they are. */
  predicate Unreserved(c: char) {
    || ('A' <= c <= 'Z') || ('a' <= c <= 'z') || ('0' <= c <= '9')
    || c == '-' || c == '_' || c == '.' || c == '!' || c == '~' || c == '*'
    || c == '\'' || c == '(' || c == ')'
  }

  /** The upper-case hexadecimal digit for `d`. */
  function HexDigit(d: int): (c: char)
    requires 0 <= d < 16
    ensures ('0' <= c <= '9') || ('A' <= c <= 'F')
  {
    if d < 10 then ('0' as int + d) as char else ('A' as int + d - 10) as char
  }

  /** The value of an upper-case hexadecimal digit. */
  function HexValue(c: char): int {
    if '0' <= c <= '9' then c as int - '0' as int
    else if 'A' <= c <= 'F' then c as int - 'A' as int + 10
    else 0
  }

  /** The UTF-8 encoding of one scalar value: one to four bytes. */
  function Utf8(c: char): (bs: seq<byte>)
    ensures 1 <= |bs| <= 4
  {
    var cp := c as int;
    if cp < 0x80 then [cp as byte]
    else if cp < 0x800 then [(0xC0 + cp / 0x40) as byte, (0x80 + cp % 0x40) as byte]
    else if cp < 0x10000 then
      [(0xE0 + cp / 0x1000) as byte, (0x80 + cp / 0x40 % 0x40) as byte, (0x80 + cp % 0x40) as byte]
    else
      [(0xF0 + cp / 0x40000) as byte, (0x80 + cp / 0x1000 % 0x40) as byte,
       (0x80 + cp / 0x40 % 0x40) as byte, (0x80 + cp % 0x40) as byte]
  }

  /** The scalar value a UTF-8 sequence of one to four bytes denotes: the
      payload bits of the lead byte, then six bits from each continuation byte. */
  function Utf8Value(bs: seq<byte>): int
    requires 1 <= |bs| <= 4
  {
    if |bs| == 1 then bs[0] as int
    else if |bs| == 2 then (bs[0] as int - 0xC0) * 0x40 + (bs[1] as int - 0x80)
    else if |bs| == 3 then
      ((bs[0] as int - 0xE0) * 0x40 + (bs[1] as int - 0x80)) * 0x40 + (bs[2] as int - 0x80)
    else
      (((bs[0] as int - 0xF0) * 0x40 + (bs[1] as int - 0x80)) * 0x40 + (bs[2] as int - 0x80)) * 0x40
      + (bs[3] as int - 0x80)
  }

  /** Decoding the UTF-8 bytes of a character gives the character back, the
      encoding is the shortest one for the code point, and the lead byte
      announces the length as UTF-8 prescribes. */
  lemma Utf8RoundTrip(c: char)
    ensures Utf8Value(Utf8(c)) == c as int
    ensures var bs, cp := Utf8(c), c as int;
            && (|bs| == 1 <==> cp < 0x80)
            && (|bs| == 2 <==> 0x80 <= cp < 0x800)
            && (|bs| == 3 <==> 0x800 <= cp < 0x10000)
            && (|bs| == 4 <==> 0x10000 <= cp)
    ensures var bs := Utf8(c);
            && (|bs| == 1 <==> bs[0] < 0x80)
            && (|bs| == 2 <==> 0xC0 <= bs[0] < 0xE0)
            && (|bs| == 3 <==> 0xE0 <= bs[0] < 0xF0)
            && (|bs| == 4 <==> 0xF0 <= bs[0] < 0xF8)
            && forall k :: 1 <= k < |bs| ==> 0x80 <= bs[k] < 0xC0
  {
    var cp := c as int;
    if cp >= 0x80 {
      assert cp == cp / 0x40 * 0x40 + cp % 0x40;
      if cp >= 0x800 {
        assert cp / 0x40 == cp / 0x1000 * 0x40 + cp / 0x40 % 0x40;
        if cp >= 0x10000 {
          assert cp / 0x1000 == cp / 0x40000 * 0x40 + cp / 0x1000 % 0x40;
        }
      }
    }
  }

  /** `%XX` for one byte. */
  function Escape(b: byte): string {
    ['%', HexDigit(b as int / 16), HexDigit(b as int % 16)]
  }

  /** The escapes of a byte sequence, one after another. */
  function Escapes(bs: seq<byte>): (r: string)
    ensures |r| == 3 * |bs|
  {
    if bs == [] then "" else Escape(bs[0]) + Escapes(bs[1..])
  }

  /** Reading the two digits of an escape gives the byte back. */
  lemma EscapeRoundTrip(b: byte)
    ensures var e := Escape(b); e[0] == '%' && HexValue(e[1]) * 16 + HexValue(e[2]) == b as int
  {
  }

  /** The escapes of a byte sequence, read back three characters at a time. */
  lemma {:induction false} EscapesRoundTrip(bs: seq<byte>, k: int)
    requires 0 <= k < |bs|
    ensures var r := Escapes(bs);
            r[3 * k] == '%' && HexValue(r[3 * k + 1]) * 16 + HexValue(r[3 * k + 2]) == bs[k] as int
  {
    EscapeRoundTrip(bs[0]);
    if k > 0 {
      EscapesRoundTrip(bs[1..], k - 1);
      var r := Escapes(bs);
      assert r == Escape(bs[0]) + Escapes(bs[1..]);
      assert r[3 * k..3 * k + 3] == Escapes(bs[1..])[3 * (k - 1)..3 * (k - 1) + 3];
    }
  }

  /** What one character becomes. */
  function EncodeChar(c: char): string {
    if Unreserved(c) then [c] else Escapes(Utf8(c))
  }

  /** `encodeURIComponent(s)` */
  function EncodeUriComponent(s: string): string {
    if s == [] then "" else EncodeChar(s[0]) + EncodeUriComponent(s[1..])
  }

  /** The characters an encoded component is made of. */
  predicate UriChar(c: char) {
    Unreserved(c) || c == '%'
  }

  /** Every character of `t` is unreserved or `%`. */
  predicate UriSafe(t: string) {
    forall i :: 0 <= i < |t| ==> UriChar(t[i])
  }

  /** The escapes are made of `%` and hexadecimal digits. */
  lemma {:induction false} EscapesSafe(bs: seq<byte>)
    ensures UriSafe(Escapes(bs))
  {
    if bs != [] {
      EscapesSafe(bs[1..]);
      var e := Escape(bs[0]);
      assert UriSafe(e);
      ConcatSafe(e, Escapes(bs[1..]));
    }
  }

  /** Safe strings concatenate to a safe string. */
  lemma ConcatSafe(a: string, b: string)
    requires UriSafe(a) && UriSafe(b)
    ensures UriSafe(a + b)
  {
    assert forall i :: |a| <= i < |a + b| ==> (a + b)[i] == b[i - |a|];
  }

  /** An encoded component consists of unreserved characters and `%` only, so it
      holds none of the characters that separate query parameters (`&`, `=`),
      the query (`?`) or the fragment (`#`). */
  lemma {:induction false} EncodedIsSafe(s: string)
    ensures UriSafe(EncodeUriComponent(s))
    ensures Free(EncodeUriComponent(s), '&') && Free(EncodeUriComponent(s), '=')
    ensures Free(EncodeUriComponent(s), '?') && Free(EncodeUriComponent(s), '#')
  {
    if s != [] {
      EncodedIsSafe(s[1..]);
      if !Unreserved(s[0]) {
        EscapesSafe(Utf8(s[0]));
      }
      ConcatSafe(EncodeChar(s[0]), EncodeUriComponent(s[1..]));
    }
    SafeHasNoSeparators(EncodeUriComponent(s));
  }

  /** A safe string holds none of the URL separators. */
  lemma SafeHasNoSeparators(t: string)
    requires UriSafe(t)
    ensures Free(t, '&') && Free(t, '=') && Free(t, '?') && Free(t, '#')
  {
    assert forall i :: 0 <= i < |t| ==> UriChar(t[i]);
  }

  /** A string of unreserved characters is its own encoding. */
  lemma {:induction false} EncodeUnreserved(s: string)
    requires forall i :: 0 <= i < |s| ==> Unreserved(s[i])
    ensures EncodeUriComponent(s) == s
  {
    if s != [] {
      assert Unreserved(s[0]);
      EncodeUnreserved(s[1..]);
      assert s == [s[0]] + s[1..];
    }
  }
}
