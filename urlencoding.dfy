/**
 * Percent-encoding of a URI component as the JavaScript built-ins
 * `encodeURIComponent` and `decodeURIComponent` perform it (section 2.1 of
 * RFC 3986): a character of the unreserved set
 * `A-Z a-z 0-9 - _ . ! ~ * ' ( )` stands for itself, and every other
 * character is written as its UTF-8 bytes, each as `%` and two upper-case
 * hexadecimal digits.
 */
module UrlEncoding {
  import opened Wrappers
  import opened Text

  /** The characters `encodeURIComponent` leaves as they are. */
  predicate Unreserved(c: char) {
    || 'A' <= c <= 'Z' || 'a' <= c <= 'z' || '0' <= c <= '9'
    || c == '-' || c == '_' || c == '.' || c == '!' || c == '~' || c == '*' || c == '\'' || c == '(' || c == ')'
  }

  predicate AllUnreserved(s: string) {
    forall k | 0 <= k < |s| :: Unreserved(s[k])
  }

  /** A hexadecimal digit as `encodeURIComponent` writes it: a digit or `A`-`F`. */
  predicate UpperHex(c: char) {
    '0' <= c <= '9' || 'A' <= c <= 'F'
  }

  /** Every `%` in `t` is followed by two upper-case hexadecimal digits. */
  predicate EscapesUpperCase(t: string) {
    forall k | 0 <= k < |t| && t[k] == '%' :: k + 2 < |t| && UpperHex(t[k + 1]) && UpperHex(t[k + 2])
  }

  lemma EscapesUpperCaseAppend(a: string, b: string)
    requires EscapesUpperCase(a) && EscapesUpperCase(b)
    ensures EscapesUpperCase(a + b)
  {
    var t := a + b;
    forall k | 0 <= k < |t| && t[k] == '%'
      ensures k + 2 < |t| && UpperHex(t[k + 1]) && UpperHex(t[k + 2])
    {
      if k < |a| {
        assert a[k] == '%';
      } else {
        assert b[k - |a|] == '%';
        assert t[k + 1] == b[k - |a| + 1] && t[k + 2] == b[k - |a| + 2];
      }
    }
  }

  predicate IsByte(b: nat) {
    b < 256
  }

  predicate IsContinuation(b: nat) {
    0x80 <= b < 0xC0
  }

  /** The UTF-8 encoding of one Unicode scalar value. */
  function Utf8(c: char): (bytes: seq<nat>)
    ensures 1 <= |bytes| <= 4
    ensures forall k | 0 <= k < |bytes| :: IsByte(bytes[k])
  {
    var n := c as int;
    if n < 0x80 then [n]
    else if n < 0x800 then [0xC0 + n / 64, 0x80 + n % 64]
    else if n < 0x10000 then [0xE0 + n / 4096, 0x80 + (n / 64) % 64, 0x80 + n % 64]
    else [0xF0 + n / 262144, 0x80 + (n / 4096) % 64, 0x80 + (n / 64) % 64, 0x80 + n % 64]
  }

  /** One byte as `%` and two upper-case hexadecimal digits. */
  function PercentByte(b: nat): (s: string)
    requires IsByte(b)
    ensures |s| == 3
  {
    ['%', UpperHexDigit(b / 16), UpperHexDigit(b % 16)]
  }

  function PercentBytes(bytes: seq<nat>): (s: string)
    requires forall k | 0 <= k < |bytes| :: IsByte(bytes[k])
    ensures |s| == 3 * |bytes|
  {
    if bytes == [] then [] else PercentByte(bytes[0]) + PercentBytes(bytes[1..])
  }

  function EncodeChar(c: char): string {
    if Unreserved(c) then [c] else PercentBytes(Utf8(c))
  }

  /** `encodeURIComponent`. */
  function Encode(s: string): string {
    if s == [] then [] else EncodeChar(s[0]) + Encode(s[1..])
  }

  // ---------------------------------------------------------------------------
  // Decoding
  // ---------------------------------------------------------------------------

  /** The byte a `%XX` triplet at the start of `s` stands for. */
  function PercentByteAt(s: string): (b: Option<nat>)
    ensures b.Some? ==> |s| >= 3 && IsByte(b.value)
  {
    if |s| >= 3 && s[0] == '%' && IsHexDigit(s[1]) && IsHexDigit(s[2]) then
      Some(16 * HexValue(s[1]) + HexValue(s[2]))
    else None
  }

  /** Reads `count` consecutive `%XX` triplets. */
  function ReadBytes(s: string, count: nat): (r: Option<seq<nat>>)
    ensures r.Some? ==> |s| >= 3 * count && |r.value| == count
    decreases count
  {
    if count == 0 then Some([])
    else match PercentByteAt(s)
      case None => None
      case Some(b) =>
        match ReadBytes(s[3..], count - 1)
        case None => None
        case Some(rest) => Some([b] + rest)
  }

  /** How many bytes a UTF-8 sequence has, judged by its first byte; 0 if none. */
  function SequenceLength(lead: nat): nat {
    if lead < 0x80 then 1
    else if 0xC0 <= lead < 0xE0 then 2
    else if 0xE0 <= lead < 0xF0 then 3
    else if 0xF0 <= lead < 0xF8 then 4
    else 0
  }

  predicate IsScalar(n: int) {
    (0 <= n < 0xD800) || (0xE000 <= n < 0x110000)
  }

  /**
   * The scalar value of a complete UTF-8 sequence; malformed, overlong and
   * surrogate sequences are rejected.
   */
  function Utf8Decode(bytes: seq<nat>): Option<char> {
    if |bytes| == 1 && bytes[0] < 0x80 then Some(bytes[0] as char)
    else if |bytes| == 2 && 0xC0 <= bytes[0] < 0xE0 && IsContinuation(bytes[1]) then
      var n := (bytes[0] - 0xC0) * 64 + (bytes[1] - 0x80);
      if 0x80 <= n then Some(n as char) else None
    else if |bytes| == 3 && 0xE0 <= bytes[0] < 0xF0 && IsContinuation(bytes[1]) && IsContinuation(bytes[2]) then
      var n := (bytes[0] - 0xE0) * 4096 + (bytes[1] - 0x80) * 64 + (bytes[2] - 0x80);
      if 0x800 <= n && IsScalar(n) then Some(n as char) else None
    else if |bytes| == 4 && 0xF0 <= bytes[0] < 0xF8 && IsContinuation(bytes[1])
      && IsContinuation(bytes[2]) && IsContinuation(bytes[3]) then
      var n := (bytes[0] - 0xF0) * 262144 + (bytes[1] - 0x80) * 4096 + (bytes[2] - 0x80) * 64 + (bytes[3] - 0x80);
      if 0x10000 <= n < 0x110000 then Some(n as char) else None
    else None
  }

  /**
   * `decodeURIComponent`: every `%XX` sequence is read as UTF-8 and replaced
   * by its character; any other character stands for itself. A stray `%` or
   * a malformed sequence makes the whole input invalid.
   */
  function Decode(s: string): Option<string>
    decreases |s|
  {
    if s == [] then Some([])
    else if s[0] != '%' then
      match Decode(s[1..])
      case None => None
      case Some(rest) => Some([s[0]] + rest)
    else
      match PercentByteAt(s)
      case None => None
      case Some(lead) =>
        var count := SequenceLength(lead);
        if count == 0 then None
        else
          match ReadBytes(s, count)
          case None => None
          case Some(bytes) =>
            match Utf8Decode(bytes)
            case None => None
            case Some(c) =>
              match Decode(s[3 * count..])
              case None => None
              case Some(rest) => Some([c] + rest)
  }

  // ---------------------------------------------------------------------------
  // Properties
  // ---------------------------------------------------------------------------

  lemma Utf8TwoBytes(n: int)
    requires 0x80 <= n < 0x800
    ensures var b0, b1 := 0xC0 + n / 64, 0x80 + n % 64;
      0xC0 <= b0 < 0xE0 && IsContinuation(b1) && (b0 - 0xC0) * 64 + (b1 - 0x80) == n
  {
  }

  lemma Utf8ThreeBytes(n: int)
    requires 0x800 <= n < 0x10000
    ensures var b0, b1, b2 := 0xE0 + n / 4096, 0x80 + (n / 64) % 64, 0x80 + n % 64;
      0xE0 <= b0 < 0xF0 && IsContinuation(b1) && IsContinuation(b2)
      && (b0 - 0xE0) * 4096 + (b1 - 0x80) * 64 + (b2 - 0x80) == n
  {
    var hi := n / 64;
    assert n == hi * 64 + n % 64;
    assert hi == (hi / 64) * 64 + hi % 64;
    assert n / 4096 == hi / 64;
  }

  lemma Utf8FourBytes(n: int)
    requires 0x10000 <= n < 0x110000
    ensures var b0, b1, b2, b3 := 0xF0 + n / 262144, 0x80 + (n / 4096) % 64, 0x80 + (n / 64) % 64, 0x80 + n % 64;
      0xF0 <= b0 < 0xF8 && IsContinuation(b1) && IsContinuation(b2) && IsContinuation(b3)
      && (b0 - 0xF0) * 262144 + (b1 - 0x80) * 4096 + (b2 - 0x80) * 64 + (b3 - 0x80) == n
  {
    var hi := n / 64;
    var top := n / 4096;
    assert n == hi * 64 + n % 64;
    assert top == hi / 64;
    assert hi == top * 64 + hi % 64;
    assert n / 262144 == top / 64;
    assert top == (top / 64) * 64 + top % 64;
  }

  /** Decoding the UTF-8 encoding of a character gives the character back. */
  lemma Utf8RoundTrip(c: char)
    ensures SequenceLength(Utf8(c)[0]) == |Utf8(c)|
    ensures Utf8Decode(Utf8(c)) == Some(c)
  {
    var n := c as int;
    if n < 0x80 {
    } else if n < 0x800 {
      Utf8TwoBytes(n);
    } else if n < 0x10000 {
      Utf8ThreeBytes(n);
    } else {
      Utf8FourBytes(n);
    }
  }

  lemma PercentByteRoundTrip(b: nat, rest: string)
    requires IsByte(b)
    ensures PercentByteAt(PercentByte(b) + rest) == Some(b)
  {
    HexValueOfUpperHexDigit(b / 16);
    HexValueOfUpperHexDigit(b % 16);
  }

  lemma {:induction false} ReadPercentBytes(bytes: seq<nat>, rest: string)
    requires forall k | 0 <= k < |bytes| :: IsByte(bytes[k])
    ensures ReadBytes(PercentBytes(bytes) + rest, |bytes|) == Some(bytes)
    decreases |bytes|
  {
    if bytes != [] {
      var tail := PercentBytes(bytes[1..]) + rest;
      var s := PercentBytes(bytes) + rest;
      assert s == PercentByte(bytes[0]) + tail;
      PercentByteRoundTrip(bytes[0], tail);
      assert s[3..] == tail;
      ReadPercentBytes(bytes[1..], rest);
      assert ReadBytes(s, |bytes|) == Some([bytes[0]] + bytes[1..]);
      assert [bytes[0]] + bytes[1..] == bytes;
    }
  }

  /** Prepends a character to a decoding that succeeded. */
  function Prepend(c: char, r: Option<string>): Option<string> {
    match r
    case None => None
    case Some(t) => Some([c] + t)
  }

  /** One step of decoding a well-formed `%XX` sequence. */
  lemma DecodeSequenceStep(s: string, bytes: seq<nat>, c: char)
    requires PercentByteAt(s).Some? && SequenceLength(PercentByteAt(s).value) == |bytes| > 0
    requires ReadBytes(s, |bytes|) == Some(bytes) && Utf8Decode(bytes) == Some(c)
    ensures Decode(s) == Prepend(c, Decode(s[3 * |bytes|..]))
  {
  }

  lemma DecodePercentEncodedChar(c: char, rest: string)
    ensures Decode(PercentBytes(Utf8(c)) + rest) == Prepend(c, Decode(rest))
  {
    var bytes := Utf8(c);
    var s := PercentBytes(bytes) + rest;
    Utf8RoundTrip(c);
    assert s == PercentByte(bytes[0]) + (PercentBytes(bytes[1..]) + rest);
    PercentByteRoundTrip(bytes[0], PercentBytes(bytes[1..]) + rest);
    ReadPercentBytes(bytes, rest);
    assert s[3 * |bytes|..] == rest;
    DecodeSequenceStep(s, bytes, c);
  }

  /** Decoding the encoding of one character, followed by anything, yields that character first. */
  lemma DecodeEncodeChar(c: char, rest: string)
    ensures Decode(EncodeChar(c) + rest) == Prepend(c, Decode(rest))
  {
    if Unreserved(c) {
      var s := [c] + rest;
      assert s[0] == c && s[0] != '%' && s[1..] == rest;
    } else {
      DecodePercentEncodedChar(c, rest);
    }
  }

  /** `decodeURIComponent` undoes `encodeURIComponent`. */
  lemma {:induction false} DecodeEncode(s: string)
    ensures Decode(Encode(s)) == Some(s)
    decreases |s|
  {
    if s != [] {
      DecodeEncodeChar(s[0], Encode(s[1..]));
      DecodeEncode(s[1..]);
      assert [s[0]] + s[1..] == s;
    }
  }

  /** The encoding of a character uses only unreserved characters and `%`. */
  lemma EncodeCharAlphabet(c: char)
    ensures forall k | 0 <= k < |EncodeChar(c)| :: Unreserved(EncodeChar(c)[k]) || EncodeChar(c)[k] == '%'
  {
    if !Unreserved(c) {
      PercentBytesAlphabet(Utf8(c));
    }
  }

  lemma {:induction false} PercentBytesAlphabet(bytes: seq<nat>)
    requires forall k | 0 <= k < |bytes| :: IsByte(bytes[k])
    ensures forall k | 0 <= k < |PercentBytes(bytes)| :: Unreserved(PercentBytes(bytes)[k]) || PercentBytes(bytes)[k] == '%'
    ensures EscapesUpperCase(PercentBytes(bytes))
    decreases |bytes|
  {
    if bytes != [] {
      PercentBytesAlphabet(bytes[1..]);
      var p := PercentByte(bytes[0]);
      assert p[1] != '%' && p[2] != '%';
      assert EscapesUpperCase(p);
      EscapesUpperCaseAppend(p, PercentBytes(bytes[1..]));
    }
  }

  /**
   * The encoded text consists of unreserved characters and `%` only, so it
   * contains none of the delimiters of a query string (`&`, `=`, `?`, `/`,
   * `#`) and no space; every `%` starts an escape of two upper-case
   * hexadecimal digits.
   */
  lemma {:induction false} EncodeAlphabet(s: string)
    ensures forall k | 0 <= k < |Encode(s)| :: Unreserved(Encode(s)[k]) || Encode(s)[k] == '%'
    ensures forall c | c in "&=?/# " :: c !in Encode(s)
    ensures EscapesUpperCase(Encode(s))
    decreases |s|
  {
    if s != [] {
      EncodeCharAlphabet(s[0]);
      EncodeAlphabet(s[1..]);
      if !Unreserved(s[0]) {
        PercentBytesAlphabet(Utf8(s[0]));
      }
      EscapesUpperCaseAppend(EncodeChar(s[0]), Encode(s[1..]));
    }
  }

  /** A string of unreserved characters is its own encoding. */
  lemma {:induction false} EncodeUnreservedIdentity(s: string)
    requires AllUnreserved(s)
    ensures Encode(s) == s
    decreases |s|
  {
    if s != [] {
      EncodeUnreservedIdentity(s[1..]);
      assert [s[0]] + s[1..] == s;
    }
  }

  /** Encoding distributes over concatenation. */
  lemma {:induction false} EncodeAppend(a: string, b: string)
    ensures Encode(a + b) == Encode(a) + Encode(b)
    decreases |a|
  {
    if a != [] {
      assert (a + b)[0] == a[0];
      assert (a + b)[1..] == a[1..] + b;
      EncodeAppend(a[1..], b);
      calc {
        Encode(a + b);
        EncodeChar(a[0]) + Encode(a[1..] + b);
        EncodeChar(a[0]) + (Encode(a[1..]) + Encode(b));
        (EncodeChar(a[0]) + Encode(a[1..])) + Encode(b);
      }
    } else {
      assert a + b == b;
    }
  }
}
