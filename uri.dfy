/** `decodeURIComponent` (the Decode abstract operation of ECMA-262, section
    19.2.6.5, with an empty reserved set), which the plugin applies to every
    captured file name, and `encodeURIComponent`, the operation it inverts. */
module Uri {
  import opened Wrappers
  import Base64

  type byte = Base64.byte

  /** The value of a hexadecimal digit, either case. */
  function HexValue(c: char): Option<nat> {
    if '0' <= c <= '9' then Some(c as int - '0' as int)
    else if 'A' <= c <= 'F' then Some(c as int - 'A' as int + 10)
    else if 'a' <= c <= 'f' then Some(c as int - 'a' as int + 10)
    else None
  }

  /** The octet of a `%XY` escape at the start of `s`. */
  function EscapedOctet(s: string): (r: Option<byte>)
    ensures r.Some? ==> |s| >= 3 && s[0] == '%'
  {
    if |s| < 3 || s[0] != '%' then None
    else
      match (HexValue(s[1]), HexValue(s[2]))
      case (Some(h), Some(l)) => if h < 16 && l < 16 then Some(h * 16 + l) else None
      case _ => None
  }

  /** The number of leading one bits of the first octet of a UTF-8 sequence:
      0 for ASCII, 1 for a continuation octet, 5 for anything past 4. */
  function LeadingOnes(b: byte): nat {
    if b < 0x80 then 0
    else if b < 0xC0 then 1
    else if b < 0xE0 then 2
    else if b < 0xF0 then 3
    else if b < 0xF8 then 4
    else 5
  }

  /** `m` more `%XY` escapes at the start of `s`. */
  function Continuations(s: string, m: nat): (r: Option<seq<byte>>)
    decreases m
    ensures r.Some? ==> |r.value| == m
  {
    if m == 0 then Some([])
    else
      match EscapedOctet(s)
      case None => None
      case Some(b) =>
        match Continuations(s[3..], m - 1)
        case None => None
        case Some(rest) => Some([b] + rest)
  }

  predicate IsContinuation(b: byte) {
    0x80 <= b < 0xC0
  }

  /** The code point of a valid UTF-8 sequence of two to four octets; `None`
      for an overlong form, a surrogate or a value past U+10FFFF. */
  function CodePoint(octets: seq<byte>): Option<char> {
    if !(2 <= |octets| <= 4) then None
    else if exists i :: 1 <= i < |octets| && !IsContinuation(octets[i]) then None
    else if |octets| == 2 then
      var v := (octets[0] as int - 0xC0) * 64 + (octets[1] as int - 0x80);
      if 0x80 <= v < 0x800 then Some(v as char) else None
    else if |octets| == 3 then
      var v := (octets[0] as int - 0xE0) * 4096 + (octets[1] as int - 0x80) * 64 + (octets[2] as int - 0x80);
      if 0x800 <= v < 0xD800 || 0xE000 <= v < 0x10000 then Some(v as char) else None
    else
      var v := (octets[0] as int - 0xF0) * 262144 + (octets[1] as int - 0x80) * 4096 + (octets[2] as int - 0x80) * 64 + (octets[3] as int - 0x80);
      if 0x10000 <= v < 0x110000 then Some(v as char) else None
  }

  function Prepend(c: char, rest: Option<string>): Option<string> {
    match rest
    case None => None
    case Some(t) => Some([c] + t)
  }

  /** `decodeURIComponent(s)`; `None` where JavaScript throws `URIError`:
      a `%` without two hexadecimal digits, a continuation octet first, a
      missing or bad continuation, or an invalid UTF-8 sequence. */
  function Decode(s: string): Option<string>
    decreases |s|
  {
    if |s| == 0 then Some("")
    else if s[0] != '%' then Prepend(s[0], Decode(s[1..]))
    else
      match EscapedOctet(s)
      case None => None
      case Some(b) =>
        var n := LeadingOnes(b);
        if n == 0 then Prepend(b as char, Decode(s[3..]))
        else if n == 1 || n > 4 || 3 * n > |s| then None
        else
          match Continuations(s[3..], n - 1)
          case None => None
          case Some(cs) =>
            match CodePoint([b] + cs)
            case None => None
            case Some(c) => Prepend(c, Decode(s[3 * n..]))
  }

  /** Text without `%` decodes to itself. */
  lemma {:induction false} DecodePlain(s: string)
    requires '%' !in s
    ensures Decode(s) == Some(s)
    decreases |s|
  {
    if |s| > 0 {
      assert s[0] != '%';
      assert '%' !in s[1..];
      DecodePlain(s[1..]);
      assert s == [s[0]] + s[1..];
    }
  }

  /** Decoding never lengthens the text: every escape is at least three
      characters and stands for one. */
  lemma {:induction false} DecodeShrinks(s: string)
    requires Decode(s).Some?
    ensures |Decode(s).value| <= |s|
    decreases |s|
  {
    if |s| > 0 {
      if s[0] != '%' {
        DecodeShrinks(s[1..]);
      } else {
        var b := EscapedOctet(s).value;
        var n := LeadingOnes(b);
        if n == 0 {
          DecodeShrinks(s[3..]);
        } else {
          DecodeShrinks(s[3 * n..]);
        }
      }
    }
  }

  // ---------------------------------------------------------------------
  // encodeURIComponent, the partner that Decode inverts.

  /** The characters `encodeURIComponent` leaves as they are. */
  predicate Unreserved(c: char) {
    ('A' <= c <= 'Z') || ('a' <= c <= 'z') || ('0' <= c <= '9') || c in "-_.!~*'()"
  }

  function HexDigit(v: nat): char
    requires v < 16
  {
    if v < 10 then ('0' as int + v) as char else ('A' as int + v - 10) as char
  }

  /** The UTF-8 octets of a code point. */
  function Utf8(c: char): (r: seq<byte>)
    ensures 1 <= |r| <= 4
  {
    var v := c as int;
    if v < 0x80 then [v]
    else if v < 0x800 then [0xC0 + v / 64, 0x80 + v % 64]
    else if v < 0x10000 then [0xE0 + v / 4096, 0x80 + (v / 64) % 64, 0x80 + v % 64]
    else [0xF0 + v / 262144, 0x80 + (v / 4096) % 64, 0x80 + (v / 64) % 64, 0x80 + v % 64]
  }

  /** Each octet as `%XY` with upper-case digits. */
  function Escape(octets: seq<byte>): (r: string)
    decreases |octets|
    ensures |r| == 3 * |octets|
  {
    if |octets| == 0 then ""
    else ['%', HexDigit(octets[0] / 16), HexDigit(octets[0] % 16)] + Escape(octets[1..])
  }

  function EncodeURIComponent(s: string): string
    decreases |s|
  {
    if |s| == 0 then ""
    else (if Unreserved(s[0]) then [s[0]] else Escape(Utf8(s[0]))) + EncodeURIComponent(s[1..])
  }

  lemma HexRoundTrip(b: byte)
    ensures HexValue(HexDigit(b / 16)) == Some(b / 16)
    ensures HexValue(HexDigit(b % 16)) == Some(b % 16)
    ensures (b / 16) * 16 + b % 16 == b
  {
  }

  /** The escaped form of a non-empty octet sequence starts with the escape
      of its first octet. */
  lemma EscapeHead(octets: seq<byte>, t: string)
    requires |octets| > 0
    ensures var s := Escape(octets) + t;
      && |s| >= 3 && s[0] == '%' && s[1] == HexDigit(octets[0] / 16) && s[2] == HexDigit(octets[0] % 16)
      && s[3..] == Escape(octets[1..]) + t
  {
    var tail := Escape(octets[1..]) + t;
    var s := ['%', HexDigit(octets[0] / 16), HexDigit(octets[0] % 16)] + tail;
    assert Escape(octets) + t == s;
    assert s[3..] == tail;
  }

  /** A `%XY` escape of `b` with upper-case digits decodes to `b`. */
  lemma EscapedOctetAt(s: string, b: byte)
    requires |s| >= 3 && s[0] == '%' && s[1] == HexDigit(b / 16) && s[2] == HexDigit(b % 16)
    ensures EscapedOctet(s) == Some(b)
  {
    HexRoundTrip(b);
  }

  lemma EscapedOctetOf(octets: seq<byte>, t: string)
    requires |octets| > 0
    ensures EscapedOctet(Escape(octets) + t) == Some(octets[0])
    ensures (Escape(octets) + t)[3..] == Escape(octets[1..]) + t
  {
    EscapeHead(octets, t);
    EscapedOctetAt(Escape(octets) + t, octets[0]);
  }

  lemma {:induction false} ContinuationsOf(octets: seq<byte>, t: string)
    ensures Continuations(Escape(octets) + t, |octets|) == Some(octets)
    decreases |octets|
  {
    if |octets| > 0 {
      EscapedOctetOf(octets, t);
      ContinuationsOf(octets[1..], t);
      assert octets == [octets[0]] + octets[1..];
    }
  }

  lemma Utf8Two(c: char)
    requires 0x80 <= c as int < 0x800
    ensures CodePoint(Utf8(c)) == Some(c)
  {
    var v := c as int;
    assert (v / 64) * 64 + v % 64 == v;
  }

  lemma Utf8Three(c: char)
    requires 0x800 <= c as int < 0x10000
    ensures CodePoint(Utf8(c)) == Some(c)
  {
    var v := c as int;
    var hi, mid, lo := v / 4096, (v / 64) % 64, v % 64;
    assert v / 64 == hi * 64 + mid;
    assert hi * 4096 + mid * 64 + lo == v;
    assert Utf8(c) == [0xE0 + hi, 0x80 + mid, 0x80 + lo];
  }

  lemma Utf8Four(c: char)
    requires 0x10000 <= c as int
    ensures CodePoint(Utf8(c)) == Some(c)
  {
    var v := c as int;
    var top, hi, mid, lo := v / 262144, (v / 4096) % 64, (v / 64) % 64, v % 64;
    assert v / 4096 == top * 64 + hi;
    assert v / 64 == (v / 4096) * 64 + mid;
    assert top * 262144 + hi * 4096 + mid * 64 + lo == v;
    assert Utf8(c) == [0xF0 + top, 0x80 + hi, 0x80 + mid, 0x80 + lo];
  }

  /** The arithmetic of UTF-8: the octets of `Utf8` carry the bits back. */
  lemma Utf8Value(c: char)
    ensures |Utf8(c)| == 1 ==> Utf8(c)[0] == c as int
    ensures |Utf8(c)| >= 2 ==> CodePoint(Utf8(c)) == Some(c)
    ensures LeadingOnes(Utf8(c)[0]) == (if |Utf8(c)| == 1 then 0 else |Utf8(c)|)
  {
    var v := c as int;
    if 0x80 <= v < 0x800 {
      Utf8Two(c);
    } else if 0x800 <= v < 0x10000 {
      Utf8Three(c);
    } else if v >= 0x10000 {
      Utf8Four(c);
    }
  }

  /** One escaped character decodes back to itself. */
  lemma DecodeEscaped(c: char, t: string)
    ensures Decode(Escape(Utf8(c)) + t) == Prepend(c, Decode(t))
  {
    var o := Utf8(c);
    var s := Escape(o) + t;
    EscapedOctetOf(o, t);
    Utf8Value(c);
    var n := |o|;
    if n == 1 {
      assert Escape(o[1..]) == "";
      assert s[3..] == t;
    } else {
      ContinuationsOf(o[1..], t);
      assert s[3..] == Escape(o[1..]) + t;
      assert [o[0]] + o[1..] == o;
      assert s[3 * n..] == t;
    }
  }

  /** `decodeURIComponent(encodeURIComponent(s)) == s`. */
  lemma {:induction false} DecodeEncode(s: string)
    ensures Decode(EncodeURIComponent(s)) == Some(s)
    decreases |s|
  {
    if |s| > 0 {
      var rest := EncodeURIComponent(s[1..]);
      DecodeEncode(s[1..]);
      if Unreserved(s[0]) {
        assert ([s[0]] + rest)[1..] == rest;
      } else {
        DecodeEscaped(s[0], rest);
      }
      assert s == [s[0]] + s[1..];
    }
  }

  lemma DecodeAsciiEscape(s: string, b: byte)
    requires EscapedOctet(s) == Some(b) && b < 0x80
    ensures Decode(s) == Prepend(b as char, Decode(s[3..]))
  {
  }

  lemma DecodeLiteral(s: string)
    requires |s| > 0 && s[0] != '%'
    ensures Decode(s) == Prepend(s[0], Decode(s[1..]))
  {
  }

  /** The escape of spaces used in Markdown links, as in `my%20file.png`:
      `%20` between two runs without `%` decodes to one space. */
  lemma {:induction false} DecodeSpace(a: string, b: string)
    requires '%' !in a && '%' !in b
    ensures Decode(a + "%20" + b) == Some(a + " " + b)
    decreases |a|
  {
    var s := a + "%20" + b;
    if |a| == 0 {
      assert s == "%20" + b;
      EscapedOctetAt(s, 32);
      assert s[3..] == b;
      DecodePlain(b);
      DecodeAsciiEscape(s, 32);
      assert [32 as char] + b == a + " " + b;
    } else {
      assert '%' !in a[1..] by {
        forall c | c in a[1..]
          ensures c in a
        {
        }
      }
      DecodeSpace(a[1..], b);
      assert s[1..] == a[1..] + "%20" + b;
      DecodeLiteral(s);
      assert a + " " + b == [a[0]] + (a[1..] + " " + b);
    }
  }
}
