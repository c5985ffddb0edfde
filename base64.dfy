/** Base 64 encoding with the standard alphabet and `=` padding (section 4
    of RFC 4648), as produced by Node's `buffer.toString('base64')`, with a
    decoder that inverts it. */
module Base64 {
  import opened Wrappers

  type byte = x: int | 0 <= x < 256
  type Bytes = seq<byte>

  /** A base 64 digit: a 6-bit value. */
  type sextet = x: int | 0 <= x < 64

  const Pad: char := '='

  /** The digit for a 6-bit value, per Table 1 of RFC 4648: `A`-`Z`,
      `a`-`z`, `0`-`9`, `+`, `/`. */
  function CharOf(v: sextet): char {
    if v < 26 then ('A' as int + v) as char
    else if v < 52 then ('a' as int + v - 26) as char
    else if v < 62 then ('0' as int + v - 52) as char
    else if v == 62 then '+'
    else '/'
  }

  /** The value of a digit; `None` for every character outside the alphabet. */
  function ValueOf(c: char): Option<sextet> {
    if 'A' <= c <= 'Z' then Some(c as int - 'A' as int)
    else if 'a' <= c <= 'z' then Some(c as int - 'a' as int + 26)
    else if '0' <= c <= '9' then Some(c as int - '0' as int + 52)
    else if c == '+' then Some(62)
    else if c == '/' then Some(63)
    else None
  }

  lemma ValueOfCharOf(v: sextet)
    ensures ValueOf(CharOf(v)) == Some(v)
  {
  }

  /** Three bytes become four digits. */
  function EncodeTriple(b0: byte, b1: byte, b2: byte): string {
    [CharOf(b0 / 4), CharOf((b0 % 4) * 16 + b1 / 16), CharOf((b1 % 16) * 4 + b2 / 64), CharOf(b2 % 64)]
  }

  /** A final group of two bytes: three digits and `=`. */
  function EncodePair(b0: byte, b1: byte): string {
    [CharOf(b0 / 4), CharOf((b0 % 4) * 16 + b1 / 16), CharOf((b1 % 16) * 4), Pad]
  }

  /** A final group of one byte: two digits and `==`. */
  function EncodeSingle(b0: byte): string {
    [CharOf(b0 / 4), CharOf((b0 % 4) * 16), Pad, Pad]
  }

  /** The full encoding: whole groups of three bytes, then the final group. */
  function Encode(b: Bytes): string
    decreases |b|
  {
    if |b| == 0 then ""
    else if |b| == 1 then EncodeSingle(b[0])
    else if |b| == 2 then EncodePair(b[0], b[1])
    else EncodeTriple(b[0], b[1], b[2]) + Encode(b[3..])
  }

  function Byte0(v0: sextet, v1: sextet): byte { v0 * 4 + v1 / 16 }
  function Byte1(v1: sextet, v2: sextet): byte { (v1 % 16) * 16 + v2 / 4 }
  function Byte2(v2: sextet, v3: sextet): byte { (v2 % 4) * 64 + v3 }

  /** Four digits, the last two possibly padding, become one to three bytes. */
  function DecodeQuad(q: string): Option<Bytes>
    requires |q| == 4
  {
    match (ValueOf(q[0]), ValueOf(q[1]), ValueOf(q[2]), ValueOf(q[3]))
    case (Some(v0), Some(v1), Some(v2), Some(v3)) =>
      Some([Byte0(v0, v1), Byte1(v1, v2), Byte2(v2, v3)])
    case (Some(v0), Some(v1), Some(v2), None) =>
      if q[3] == Pad then Some([Byte0(v0, v1), Byte1(v1, v2)]) else None
    case (Some(v0), Some(v1), None, None) =>
      if q[2] == Pad && q[3] == Pad then Some([Byte0(v0, v1)]) else None
    case _ => None
  }

  /** Decoding: padding may only appear in the last group of four. */
  function Decode(s: string): Option<Bytes>
    decreases |s|
  {
    if |s| == 0 then Some([])
    else if |s| < 4 then None
    else
      match DecodeQuad(s[..4])
      case None => None
      case Some(head) =>
        if |s| == 4 then Some(head)
        else if |head| < 3 then None
        else
          match Decode(s[4..])
          case None => None
          case Some(tail) => Some(head + tail)
  }

  lemma Unsplit(q: int, r: int, d: int)
    requires d == 4 || d == 16 || d == 64
    requires 0 <= r < d
    ensures (q * d + r) / d == q && (q * d + r) % d == r
  {
  }

  lemma TripleRoundTrip(b0: byte, b1: byte, b2: byte)
    ensures DecodeQuad(EncodeTriple(b0, b1, b2)) == Some([b0, b1, b2])
  {
    var v0, v1, v2, v3 := b0 / 4, (b0 % 4) * 16 + b1 / 16, (b1 % 16) * 4 + b2 / 64, b2 % 64;
    ValueOfCharOf(v0);
    ValueOfCharOf(v1);
    ValueOfCharOf(v2);
    ValueOfCharOf(v3);
    Unsplit(b0 % 4, b1 / 16, 16);
    Unsplit(b1 % 16, b2 / 64, 4);
    assert Byte0(v0, v1) == b0;
    assert Byte1(v1, v2) == b1;
    assert Byte2(v2, v3) == b2;
  }

  lemma PairRoundTrip(b0: byte, b1: byte)
    ensures DecodeQuad(EncodePair(b0, b1)) == Some([b0, b1])
  {
    var v0, v1, v2 := b0 / 4, (b0 % 4) * 16 + b1 / 16, (b1 % 16) * 4;
    ValueOfCharOf(v0);
    ValueOfCharOf(v1);
    ValueOfCharOf(v2);
    Unsplit(b0 % 4, b1 / 16, 16);
    Unsplit(b1 % 16, 0, 4);
    assert Byte0(v0, v1) == b0;
    assert Byte1(v1, v2) == b1;
  }

  lemma SingleRoundTrip(b0: byte)
    ensures DecodeQuad(EncodeSingle(b0)) == Some([b0])
  {
    ValueOfCharOf(b0 / 4);
    ValueOfCharOf((b0 % 4) * 16);
    Unsplit(b0 % 4, 0, 16);
    assert Byte0(b0 / 4, (b0 % 4) * 16) == b0;
  }

  lemma DecodeStep(e: string, head: Bytes, tail: Bytes)
    requires |e| > 4 && DecodeQuad(e[..4]) == Some(head) && |head| == 3
    requires Decode(e[4..]) == Some(tail)
    ensures Decode(e) == Some(head + tail)
  {
  }

  lemma DecodeConcat(quad: string, rest: string, head: Bytes, tail: Bytes)
    requires |quad| == 4 && DecodeQuad(quad) == Some(head) && |head| == 3
    requires |rest| > 0 && Decode(rest) == Some(tail)
    ensures Decode(quad + rest) == Some(head + tail)
  {
    var e := quad + rest;
    assert e[..4] == quad && e[4..] == rest;
    DecodeStep(e, head, tail);
  }

  lemma EncodeNonEmpty(b: Bytes)
    requires |b| > 0
    ensures |Encode(b)| >= 4
  {
  }

  lemma DecodeFour(e: string)
    requires |e| == 4 && DecodeQuad(e).Some?
    ensures Decode(e) == DecodeQuad(e)
  {
    assert e[..4] == e;
  }

  lemma DecodeEncodeOne(b: Bytes)
    requires |b| == 1
    ensures Decode(Encode(b)) == Some(b)
  {
    SingleRoundTrip(b[0]);
    DecodeFour(EncodeSingle(b[0]));
    assert b == [b[0]];
  }

  lemma DecodeEncodeTwo(b: Bytes)
    requires |b| == 2
    ensures Decode(Encode(b)) == Some(b)
  {
    PairRoundTrip(b[0], b[1]);
    DecodeFour(EncodePair(b[0], b[1]));
    assert b == [b[0], b[1]];
  }

  lemma DecodeEncodeThree(b: Bytes)
    requires |b| == 3
    ensures Decode(Encode(b)) == Some(b)
  {
    var e := EncodeTriple(b[0], b[1], b[2]);
    assert Encode(b[3..]) == "";
    assert Encode(b) == e;
    TripleRoundTrip(b[0], b[1], b[2]);
    DecodeFour(e);
    assert b == [b[0], b[1], b[2]];
  }

  /** Decoding inverts encoding, so the data URI of a file carries exactly
      the file's bytes. */
  lemma {:induction false} DecodeEncode(b: Bytes)
    ensures Decode(Encode(b)) == Some(b)
    decreases |b|
  {
    if |b| == 1 {
      DecodeEncodeOne(b);
    } else if |b| == 2 {
      DecodeEncodeTwo(b);
    } else if |b| == 3 {
      DecodeEncodeThree(b);
    } else if |b| > 3 {
      TripleRoundTrip(b[0], b[1], b[2]);
      DecodeEncode(b[3..]);
      EncodeNonEmpty(b[3..]);
      DecodeConcat(EncodeTriple(b[0], b[1], b[2]), Encode(b[3..]), [b[0], b[1], b[2]], b[3..]);
      assert b == [b[0], b[1], b[2]] + b[3..];
    }
  }

  /** Every group of up to three bytes becomes exactly four characters. */
  lemma {:induction false} EncodeLength(b: Bytes)
    ensures |Encode(b)| == 4 * ((|b| + 2) / 3)
    decreases |b|
  {
    if |b| >= 3 {
      EncodeLength(b[3..]);
      assert |EncodeTriple(b[0], b[1], b[2])| == 4;
      assert (|b| + 2) / 3 == (|b[3..]| + 2) / 3 + 1;
    }
  }

  /** A text made of digits and padding only. */
  predicate InAlphabet(t: string) {
    forall c :: c in t ==> ValueOf(c).Some? || c == Pad
  }

  lemma GroupsInAlphabet(b0: byte, b1: byte, b2: byte)
    ensures InAlphabet(EncodeTriple(b0, b1, b2))
    ensures InAlphabet(EncodePair(b0, b1))
    ensures InAlphabet(EncodeSingle(b0))
  {
    ValueOfCharOf(b0 / 4);
    ValueOfCharOf((b0 % 4) * 16 + b1 / 16);
    ValueOfCharOf((b1 % 16) * 4 + b2 / 64);
    ValueOfCharOf(b2 % 64);
    ValueOfCharOf((b0 % 4) * 16);
    ValueOfCharOf((b1 % 16) * 4);
  }

  lemma InAlphabetAppend(g: string, rest: string)
    requires InAlphabet(g) && InAlphabet(rest)
    ensures InAlphabet(g + rest)
  {
  }

  /** `$` is neither a digit nor padding. */
  lemma NoDollar(t: string)
    requires InAlphabet(t)
    ensures '$' !in t
  {
  }

  /** The encoding uses only the alphabet and the padding character; in
      particular it never contains `$`. */
  lemma {:induction false} EncodeAlphabet(b: Bytes)
    ensures InAlphabet(Encode(b))
    ensures '$' !in Encode(b)
    decreases |b|
  {
    if |b| == 1 {
      GroupsInAlphabet(b[0], 0, 0);
    } else if |b| == 2 {
      GroupsInAlphabet(b[0], b[1], 0);
    } else if |b| >= 3 {
      GroupsInAlphabet(b[0], b[1], b[2]);
      EncodeAlphabet(b[3..]);
      InAlphabetAppend(EncodeTriple(b[0], b[1], b[2]), Encode(b[3..]));
    }
    NoDollar(Encode(b));
  }
}
