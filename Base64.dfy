/** The base 64 encoding of section 4 of RFC 4648: the 64-character alphabet
    of its Table 1, groups of three bytes written as four characters, and
    the `=` padding of a final group of one or two bytes. Decoding is the
    strict form (length a multiple of four, padding only at the end), which
    is what Python's `base64.b64decode` computes on well-formed input. */
module Base64 {
  import opened Text

  type byte = x: int | 0 <= x < 256
  type Sextet = x: int | 0 <= x < 64

  const Pad: char := '='

  /** The character that stands for a 6-bit value (RFC 4648, Table 1). */
  function EncodeChar(v: Sextet): char
  {
    if v < 26 then ('A' as int + v) as char
    else if v < 52 then ('a' as int + (v - 26)) as char
    else if v < 62 then ('0' as int + (v - 52)) as char
    else if v == 62 then '+'
    else '/'
  }

  /** The 6-bit value a character stands for, or None outside the alphabet. */
  function DecodeChar(c: char): (r: Option<Sextet>)
    ensures r.Some? ==> EncodeChar(r.value) == c
    ensures c == Pad ==> r.None?
  {
    if 'A' <= c <= 'Z' then Some(c as int - 'A' as int)
    else if 'a' <= c <= 'z' then Some(c as int - 'a' as int + 26)
    else if '0' <= c <= '9' then Some(c as int - '0' as int + 52)
    else if c == '+' then Some(62)
    else if c == '/' then Some(63)
    else None
  }

  lemma DecodeEncodeChar(v: Sextet)
    ensures DecodeChar(EncodeChar(v)) == Some(v)
  {
  }

  predicate InAlphabet(c: char)
  {
    DecodeChar(c).Some?
  }

  // ---------------------------------------------------------------------
  // Encoding
  // ---------------------------------------------------------------------

  function EncodeGroup(b0: byte, b1: byte, b2: byte): string
  {
    [EncodeChar(b0 / 4), EncodeChar((b0 % 4) * 16 + b1 / 16),
     EncodeChar((b1 % 16) * 4 + b2 / 64), EncodeChar(b2 % 64)]
  }

  function EncodeFinal2(b0: byte, b1: byte): string
  {
    [EncodeChar(b0 / 4), EncodeChar((b0 % 4) * 16 + b1 / 16), EncodeChar((b1 % 16) * 4), Pad]
  }

  function EncodeFinal1(b0: byte): string
  {
    [EncodeChar(b0 / 4), EncodeChar((b0 % 4) * 16), Pad, Pad]
  }

  /** The base 64 encoding of `b`: four characters per started group of three
      bytes, every character from the alphabet or the pad character. */
  function Encode(b: seq<byte>): (r: string)
    ensures |r| == (|b| + 2) / 3 * 4
    ensures forall i :: 0 <= i < |r| ==> InAlphabet(r[i]) || r[i] == Pad
    decreases |b|
  {
    if |b| == 0 then []
    else if |b| == 1 then EncodeFinal1(b[0])
    else if |b| == 2 then EncodeFinal2(b[0], b[1])
    else EncodeGroup(b[0], b[1], b[2]) + Encode(b[3..])
  }

  // ---------------------------------------------------------------------
  // Decoding
  // ---------------------------------------------------------------------

  /** Decodes one group of four characters; padding is accepted only in the
      final group, as `xx==` (one byte) or `xxx=` (two bytes). */
  function DecodeGroup(q: string, final: bool): (r: Option<seq<byte>>)
    requires |q| == 4
    ensures r.Some? ==> 1 <= |r.value| <= 3
    ensures r.Some? && |r.value| < 3 ==> final
  {
    var c0, c1, c2, c3 := DecodeChar(q[0]), DecodeChar(q[1]), DecodeChar(q[2]), DecodeChar(q[3]);
    if c0.None? || c1.None? then None
    else if c2.Some? && c3.Some? then
      Some([c0.value * 4 + c1.value / 16, (c1.value % 16) * 16 + c2.value / 4, (c2.value % 4) * 64 + c3.value])
    else if final && c2.Some? && q[3] == Pad then
      Some([c0.value * 4 + c1.value / 16, (c1.value % 16) * 16 + c2.value / 4])
    else if final && q[2] == Pad && q[3] == Pad then
      Some([c0.value * 4 + c1.value / 16])
    else None
  }

  /** `base64.b64decode(s)` on strict input; None is the `binascii.Error`
      raised for a length that is not a multiple of four, a character outside
      the alphabet, or padding anywhere but at the end. */
  function Decode(s: string): (r: Option<seq<byte>>)
    ensures r.Some? ==> |s| % 4 == 0
    ensures r.Some? ==> |s| / 4 * 3 - 2 <= |r.value| <= |s| / 4 * 3
    decreases |s|
  {
    if |s| == 0 then Some([])
    else if |s| < 4 then None
    else
      match DecodeGroup(s[..4], |s| == 4)
      case None => None
      case Some(head) =>
        match Decode(s[4..])
        case None => None
        case Some(tail) => Some(head + tail)
  }

  // ---------------------------------------------------------------------
  // Round trip
  // ---------------------------------------------------------------------

  lemma GroupRoundTrip(b0: byte, b1: byte, b2: byte)
    ensures (b0 / 4) * 4 + ((b0 % 4) * 16 + b1 / 16) / 16 == b0
    ensures (((b0 % 4) * 16 + b1 / 16) % 16) * 16 + ((b1 % 16) * 4 + b2 / 64) / 4 == b1
    ensures (((b1 % 16) * 4 + b2 / 64) % 4) * 64 + b2 % 64 == b2
  {
  }

  lemma DecodeGroupFull(b0: byte, b1: byte, b2: byte, final: bool)
    ensures DecodeGroup(EncodeGroup(b0, b1, b2), final) == Some([b0, b1, b2])
  {
    var q := EncodeGroup(b0, b1, b2);
    var v0: Sextet, v1: Sextet, v2: Sextet, v3: Sextet := b0 / 4, (b0 % 4) * 16 + b1 / 16, (b1 % 16) * 4 + b2 / 64, b2 % 64;
    DecodeEncodeChar(v0);
    DecodeEncodeChar(v1);
    DecodeEncodeChar(v2);
    DecodeEncodeChar(v3);
    assert q == [EncodeChar(v0), EncodeChar(v1), EncodeChar(v2), EncodeChar(v3)];
    GroupRoundTrip(b0, b1, b2);
    assert [v0 * 4 + v1 / 16, (v1 % 16) * 16 + v2 / 4, (v2 % 4) * 64 + v3] == [b0, b1, b2];
  }

  lemma DecodeGroupFinal2(b0: byte, b1: byte)
    ensures DecodeGroup(EncodeFinal2(b0, b1), true) == Some([b0, b1])
  {
    GroupRoundTrip(b0, b1, 0);
    DecodeEncodeChar(b0 / 4);
    DecodeEncodeChar((b0 % 4) * 16 + b1 / 16);
    DecodeEncodeChar((b1 % 16) * 4);
  }

  lemma DecodeGroupFinal1(b0: byte)
    ensures DecodeGroup(EncodeFinal1(b0), true) == Some([b0])
  {
    GroupRoundTrip(b0, 0, 0);
    DecodeEncodeChar(b0 / 4);
    DecodeEncodeChar((b0 % 4) * 16);
  }

  lemma DecodeFinal(q: string, bytes: seq<byte>)
    requires |q| == 4 && DecodeGroup(q, true) == Some(bytes)
    ensures Decode(q) == Some(bytes)
  {
    assert q[..4] == q && q[4..] == [];
    assert bytes + [] == bytes;
  }

  /** Decoding the encoding of any byte string gives that byte string back. */
  lemma {:induction false} DecodeEncode(b: seq<byte>)
    ensures Decode(Encode(b)) == Some(b)
    decreases |b|
  {
    if |b| == 1 {
      DecodeGroupFinal1(b[0]);
      DecodeFinal(EncodeFinal1(b[0]), [b[0]]);
      assert b == [b[0]];
    } else if |b| == 2 {
      DecodeGroupFinal2(b[0], b[1]);
      DecodeFinal(EncodeFinal2(b[0], b[1]), [b[0], b[1]]);
      assert b == [b[0], b[1]];
    } else if |b| >= 3 {
      DecodeEncode(b[3..]);
      DecodeCons(b);
    }
  }

  lemma DecodePrepend(head: string, tail: string, h: seq<byte>, t: seq<byte>)
    requires |head| == 4 && DecodeGroup(head, |tail| == 0) == Some(h)
    requires Decode(tail) == Some(t)
    ensures Decode(head + tail) == Some(h + t)
  {
    var s := head + tail;
    assert s[..4] == head && s[4..] == tail;
  }

  lemma FirstThree(b: seq<byte>)
    requires |b| >= 3
    ensures b == [b[0], b[1], b[2]] + b[3..]
  {
  }

  lemma DecodeCons(b: seq<byte>)
    requires |b| >= 3 && Decode(Encode(b[3..])) == Some(b[3..])
    ensures Decode(Encode(b)) == Some(b)
  {
    var head, tail := EncodeGroup(b[0], b[1], b[2]), Encode(b[3..]);
    DecodeGroupFull(b[0], b[1], b[2], |tail| == 0);
    DecodePrepend(head, tail, [b[0], b[1], b[2]], b[3..]);
    calc {
      Decode(Encode(b));
      Decode(head + tail);
      Some([b[0], b[1], b[2]] + b[3..]);
      { FirstThree(b); }
      Some(b);
    }
  }

  /** An encoding never holds a `;`, so it cannot contain the `;base64,` marker. */
  lemma EncodeHasNoSemicolon(b: seq<byte>)
    ensures ';' !in Encode(b)
  {
    var s := Encode(b);
    forall i | 0 <= i < |s| ensures s[i] != ';' {
      if s[i] != Pad { assert InAlphabet(s[i]); }
    }
  }
}
