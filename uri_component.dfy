/**
 * `encodeURIComponent` over Unicode scalar values: every character outside the unreserved set
 * is written as the UTF-8 bytes of its code point, each as `%` and two upper-case hex digits.
 * A decoder for that form is given alongside, to show that nothing is lost.
 */
module UriComponent {
  import opened Wrappers

  /** The characters ECMAScript leaves as they are: letters, digits and `- _ . ! ~ * ' ( )`. */
  predicate Unreserved(c: char) {
    || ('A' <= c <= 'Z') || ('a' <= c <= 'z') || ('0' <= c <= '9')
    || c == '-' || c == '_' || c == '.' || c == '!' || c == '~' || c == '*' || c == '\'' || c == '(' || c == ')'
  }

  type Byte = b: int | 0 <= b < 256

  function HexDigit(v: int): (c: char)
    requires 0 <= v < 16
    ensures Unreserved(c)
  {
    if v < 10 then ('0' as int + v) as char else ('A' as int + v - 10) as char
  }

  /** The value of a hex digit of either case. */
  function HexValue(c: char): (r: Option<int>)
    ensures r.Some? ==> 0 <= r.value < 16
  {
    if '0' <= c <= '9' then Some(c as int - '0' as int)
    else if 'A' <= c <= 'F' then Some(c as int - 'A' as int + 10)
    else if 'a' <= c <= 'f' then Some(c as int - 'a' as int + 10)
    else None
  }

  lemma HexDigitValue(v: int)
    requires 0 <= v < 16
    ensures HexValue(HexDigit(v)) == Some(v)
  {
  }

  /** `%XX` for one byte. */
  function Escape(b: Byte): string {
    ['%', HexDigit(b / 16), HexDigit(b % 16)]
  }

  function Escapes(bs: seq<Byte>): string {
    if bs == [] then [] else Escape(bs[0]) + Escapes(bs[1..])
  }

  /** The UTF-8 encoding of a code point: one to four bytes. */
  function Utf8(c: char): (bs: seq<Byte>)
    ensures 1 <= |bs| <= 4
  {
    var n := c as int;
    if n < 0x80 then [n]
    else if n < 0x800 then [0xC0 + n / 64, 0x80 + n % 64]
    else if n < 0x10000 then [0xE0 + n / 4096, 0x80 + n / 64 % 64, 0x80 + n % 64]
    else [0xF0 + n / 262144, 0x80 + n / 4096 % 64, 0x80 + n / 64 % 64, 0x80 + n % 64]
  }

  /** `encodeURIComponent` for one character. */
  function EncodeChar(c: char): string {
    if Unreserved(c) then [c] else Escapes(Utf8(c))
  }

  /** `encodeURIComponent` */
  function Encode(s: string): string {
    if s == [] then [] else EncodeChar(s[0]) + Encode(s[1..])
  }

  // ---------------------------------------------------------------- decoding

  /** How many bytes a UTF-8 sequence has, read off its first byte. */
  function Utf8Length(lead: Byte): nat {
    if lead < 0x80 then 1 else if lead < 0xE0 then 2 else if lead < 0xF0 then 3 else 4
  }

  /** The code point a UTF-8 sequence of one to four bytes stands for, if it is a scalar value. */
  function FromUtf8(bs: seq<Byte>): Option<char>
    requires 1 <= |bs| <= 4
  {
    var b0, b1, b2, b3 := bs[0] as int, Payload(bs, 1), Payload(bs, 2), Payload(bs, 3);
    var n :=
      if |bs| == 1 then b0
      else if |bs| == 2 then (b0 - 0xC0) * 64 + b1
      else if |bs| == 3 then (b0 - 0xE0) * 4096 + b1 * 64 + b2
      else (b0 - 0xF0) * 262144 + b1 * 4096 + b2 * 64 + b3;
    if 0 <= n < 0xD800 || 0xE000 <= n < 0x110000 then Some(n as char) else None
  }

  /** The six low bits a continuation byte carries, or 0 past the end. */
  function Payload(bs: seq<Byte>, i: nat): int {
    if i < |bs| then bs[i] as int - 0x80 else 0
  }

  /** One `%XX` at the front of `t`, and what follows it. */
  function ReadEscape(t: string): (r: Option<(Byte, string)>)
    ensures r.Some? ==> |r.value.1| < |t|
  {
    if |t| >= 3 && t[0] == '%' && HexValue(t[1]).Some? && HexValue(t[2]).Some? then
      Some((HexValue(t[1]).value * 16 + HexValue(t[2]).value, t[3..]))
    else
      None
  }

  /** `k` escapes in a row. */
  function ReadEscapes(t: string, k: nat): (r: Option<(seq<Byte>, string)>)
    ensures r.Some? ==> |r.value.0| == k && |r.value.1| <= |t|
    ensures r.Some? && k > 0 ==> |r.value.1| < |t|
  {
    if k == 0 then Some(([], t))
    else match ReadEscape(t)
      case None => None
      case Some((b, rest)) =>
        match ReadEscapes(rest, k - 1)
        case None => None
        case Some((bs, after)) => Some(([b] + bs, after))
  }

  /** One character off the front of an encoded string. */
  function DecodeOne(t: string): (r: Option<(char, string)>)
    requires t != []
    ensures r.Some? ==> |r.value.1| < |t|
  {
    if t[0] != '%' then Some((t[0], t[1..]))
    else match ReadEscape(t)
      case None => None
      case Some((lead, _)) =>
        match ReadEscapes(t, Utf8Length(lead))
        case None => None
        case Some((bs, rest)) =>
          match FromUtf8(bs)
          case None => None
          case Some(c) => Some((c, rest))
  }

  /** `decodeURIComponent`, failing on a malformed escape. */
  function Decode(t: string): Option<string>
    decreases |t|
  {
    if t == [] then Some([])
    else match DecodeOne(t)
      case None => None
      case Some((c, rest)) =>
        match Decode(rest)
        case None => None
        case Some(s) => Some([c] + s)
  }

  // ---------------------------------------------------------------- properties

  lemma EscapeRead(b: Byte, rest: string)
    ensures ReadEscape(Escape(b) + rest) == Some((b, rest))
  {
    var t := Escape(b) + rest;
    HexDigitValue(b / 16);
    HexDigitValue(b % 16);
    assert t[0] == '%' && t[1] == HexDigit(b / 16) && t[2] == HexDigit(b % 16);
    assert t[3..] == rest;
  }

  lemma {:induction false} EscapesRead(bs: seq<Byte>, rest: string)
    ensures ReadEscapes(Escapes(bs) + rest, |bs|) == Some((bs, rest))
  {
    if bs != [] {
      var t := Escapes(bs) + rest;
      var tail := Escapes(bs[1..]) + rest;
      assert t == Escape(bs[0]) + tail;
      EscapeRead(bs[0], tail);
      EscapesRead(bs[1..], rest);
      assert ReadEscapes(tail, |bs| - 1) == Some((bs[1..], rest));
      var r := ReadEscapes(t, |bs|);
      assert r.Some? && r.value.0 == [bs[0]] + bs[1..] && r.value.1 == rest;
      assert [bs[0]] + bs[1..] == bs;
      assert r.value == (bs, rest);
    } else {
      assert Escapes(bs) + rest == rest;
    }
  }

  /** Each code point's UTF-8 bytes read back as it, and its first byte announces their number. */
  lemma Utf8RoundTrip(c: char)
    ensures Utf8Length(Utf8(c)[0]) == |Utf8(c)|
    ensures FromUtf8(Utf8(c)) == Some(c)
  {
    var n := c as int;
    if n < 0x80 {
    } else if n < 0x800 {
      Utf8Two(n);
    } else if n < 0x10000 {
      Utf8Three(n);
    } else {
      Utf8Four(n);
    }
  }

  lemma Utf8Two(n: int)
    requires 0x80 <= n < 0x800
    ensures 0xC0 <= 0xC0 + n / 64 < 0xE0
    ensures (n / 64) * 64 + n % 64 == n
  {
  }

  lemma Utf8Three(n: int)
    requires 0x800 <= n < 0x10000
    ensures 0xE0 <= 0xE0 + n / 4096 < 0xF0
    ensures (n / 4096) * 4096 + (n / 64 % 64) * 64 + n % 64 == n
  {
    assert n / 64 == (n / 4096) * 64 + n / 64 % 64;
  }

  lemma Utf8Four(n: int)
    requires 0x10000 <= n < 0x110000
    ensures 0xF0 <= 0xF0 + n / 262144 < 0x100
    ensures (n / 262144) * 262144 + (n / 4096 % 64) * 4096 + (n / 64 % 64) * 64 + n % 64 == n
  {
    assert n / 64 == (n / 4096) * 64 + n / 64 % 64;
    assert n / 4096 == (n / 262144) * 64 + n / 4096 % 64;
  }

  /** The encoding of one character, followed by anything, decodes to that character first. */
  lemma DecodeOneEncoded(c: char, rest: string)
    ensures EncodeChar(c) + rest != []
    ensures DecodeOne(EncodeChar(c) + rest) == Some((c, rest))
  {
    if Unreserved(c) {
      var t := EncodeChar(c) + rest;
      assert t[0] == c && t[1..] == rest;
    } else {
      Utf8RoundTrip(c);
      DecodeEscapes(Utf8(c), c, rest);
    }
  }

  /** Escaped bytes that announce their own number and spell `c` decode to `c`. */
  lemma DecodeEscapes(bs: seq<Byte>, c: char, rest: string)
    requires 1 <= |bs| <= 4 && Utf8Length(bs[0]) == |bs| && FromUtf8(bs) == Some(c)
    ensures Escapes(bs) + rest != []
    ensures DecodeOne(Escapes(bs) + rest) == Some((c, rest))
  {
    var t := Escapes(bs) + rest;
    assert t == Escape(bs[0]) + (Escapes(bs[1..]) + rest);
    EscapeRead(bs[0], Escapes(bs[1..]) + rest);
    EscapesRead(bs, rest);
    assert t[0] == '%';
  }

  /** Decoding undoes the encoding. */
  lemma {:induction false} DecodeEncode(s: string)
    ensures Decode(Encode(s)) == Some(s)
  {
    if s != [] {
      DecodeOneEncoded(s[0], Encode(s[1..]));
      DecodeEncode(s[1..]);
      assert [s[0]] + s[1..] == s;
    }
  }

  /** So two different strings never encode alike. */
  lemma EncodeInjective(a: string, b: string)
    requires Encode(a) == Encode(b)
    ensures a == b
  {
    DecodeEncode(a);
    DecodeEncode(b);
  }

  /** The encoding uses only unreserved characters and `%`: nothing in it ends a URL's query value. */
  lemma {:induction false} EncodedIsUrlSafe(s: string)
    ensures forall c :: c in Encode(s) ==> Unreserved(c) || c == '%'
  {
    if s != [] {
      EscapesUrlSafe(Utf8(s[0]));
      EncodedIsUrlSafe(s[1..]);
    }
  }

  lemma {:induction false} EscapesUrlSafe(bs: seq<Byte>)
    ensures forall c :: c in Escapes(bs) ==> Unreserved(c) || c == '%'
  {
    if bs != [] {
      EscapesUrlSafe(bs[1..]);
    }
  }

  /** A string of unreserved characters is its own encoding. */
  lemma {:induction false} UnreservedUnchanged(s: string)
    requires forall c :: c in s ==> Unreserved(c)
    ensures Encode(s) == s
  {
    if s != [] {
      assert s[0] in s;
      assert forall c :: c in s[1..] ==> c in s;
      UnreservedUnchanged(s[1..]);
      assert [s[0]] + s[1..] == s;
    }
  }
}
