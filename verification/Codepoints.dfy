/** One code point in one of the five encodings: the byte layouts of recode57_alu.c. */
module Codepoints {
  type codepoint = bv32

  datatype Encoding = UTF8 | UTF16BE | UTF16LE | UTF32BE | UTF32LE

  function Low(x: bv32): bv8 { (x & 0xFF) as bv8 }
  function Wide(b: bv8): bv32 { b as bv32 }

  /** A Unicode scalar value: not a surrogate, at most 0x10FFFF. */
  predicate Scalar(cp: codepoint) { cp < 0xD800 || 0xE000 <= cp <= 0x10FFFF }

  // ----- the pieces of a code point -----

  function Byte0(cp: codepoint): bv8 { Low(cp) }
  function Byte8(cp: codepoint): bv8 { Low(cp >> 8) }
  function Byte16(cp: codepoint): bv8 { Low(cp >> 16) }
  function Byte24(cp: codepoint): bv8 { Low(cp >> 24) }

  function Lead2(cp: codepoint): bv8 { Low(192 | (cp >> 6)) }
  function Lead3(cp: codepoint): bv8 { Low(224 | (cp >> 12)) }
  function Lead4(cp: codepoint): bv8 { Low(240 | (cp >> 18)) }
  function Cont0(cp: codepoint): bv8 { Low(128 | (cp & 63)) }
  function Cont6(cp: codepoint): bv8 { Low(128 | ((cp >> 6) & 63)) }
  function Cont12(cp: codepoint): bv8 { Low(128 | ((cp >> 12) & 63)) }

  function PairHigh1(cp: codepoint): bv8 { Low(216 | ((cp - 65536) >> 18)) }
  function PairLow1(cp: codepoint): bv8 { Low((cp - 65536) >> 10) }
  function PairHigh2(cp: codepoint): bv8 { Low(220 | (((cp - 65536) >> 8) & 3)) }
  function PairLow2(cp: codepoint): bv8 { Low(cp - 65536) }

  function Join32(b3: bv8, b2: bv8, b1: bv8, b0: bv8): codepoint {
    (Wide(b3) << 24) | (Wide(b2) << 16) | (Wide(b1) << 8) | Wide(b0)
  }
  function Join16(high: bv8, low: bv8): codepoint { (Wide(high) << 8) | Wide(low) }
  function JoinPair(h1: bv8, l1: bv8, h2: bv8, l2: bv8): codepoint {
    (((Wide(h1) & 3) << 18) | (Wide(l1) << 10) | ((Wide(h2) & 3) << 8) | Wide(l2)) + 65536
  }
  function Join2(b0: bv8, b1: bv8): codepoint { ((Wide(b0) & 31) << 6) | (Wide(b1) & 63) }
  function Join3(b0: bv8, b1: bv8, b2: bv8): codepoint {
    ((Wide(b0) & 15) << 12) | ((Wide(b1) & 63) << 6) | (Wide(b2) & 63)
  }
  function Join4(b0: bv8, b1: bv8, b2: bv8, b3: bv8): codepoint {
    ((Wide(b0) & 7) << 18) | ((Wide(b1) & 63) << 12) | ((Wide(b2) & 63) << 6) | (Wide(b3) & 63)
  }

  // ----- encoding and decoding -----

  function Encode1(enc: Encoding, cp: codepoint): (s: seq<bv8>)
    ensures 1 <= |s| <= 4
  {
    match enc
    case UTF32LE => [Byte0(cp), Byte8(cp), Byte16(cp), Byte24(cp)]
    case UTF32BE => [Byte24(cp), Byte16(cp), Byte8(cp), Byte0(cp)]
    case UTF16LE =>
      if cp <= 0xFFFF then [Byte0(cp), Byte8(cp)]
      else [PairLow1(cp), PairHigh1(cp), PairLow2(cp), PairHigh2(cp)]
    case UTF16BE =>
      if cp <= 0xFFFF then [Byte8(cp), Byte0(cp)]
      else [PairHigh1(cp), PairLow1(cp), PairHigh2(cp), PairLow2(cp)]
    case UTF8 =>
      if cp < 0x80 then [Byte0(cp)]
      else if cp < 0x800 then [Lead2(cp), Cont0(cp)]
      else if cp < 0x10000 then [Lead3(cp), Cont6(cp), Cont0(cp)]
      else [Lead4(cp), Cont12(cp), Cont6(cp), Cont0(cp)]
  }

  function Utf8Length(lead: bv8): (n: nat)
    ensures 1 <= n <= 4
  {
    if lead < 0x80 then 1 else if lead < 0xE0 then 2 else if lead < 0xF0 then 3 else 4
  }

  /** The high byte of a UTF-16 unit that starts, or ends, a surrogate pair. */
  predicate HighSurrogate(b: bv8) { b >> 2 == 0x36 }
  predicate LowSurrogate(b: bv8) { b >> 2 == 0x37 }

  /** How many bytes the first code point of `s` takes. */
  function Need(enc: Encoding, s: seq<bv8>): (n: nat)
    requires s != []
    ensures 1 <= n <= 4
  {
    match enc
    case UTF32BE => 4
    case UTF32LE => 4
    case UTF16BE => if |s| >= 2 && HighSurrogate(s[0]) then 4 else 2
    case UTF16LE => if |s| >= 2 && HighSurrogate(s[1]) then 4 else 2
    case UTF8 => Utf8Length(s[0])
  }

  function Decode1(enc: Encoding, s: seq<bv8>): codepoint
    requires s != [] && Need(enc, s) <= |s|
  {
    match enc
    case UTF32BE => Join32(s[0], s[1], s[2], s[3])
    case UTF32LE => Join32(s[3], s[2], s[1], s[0])
    case UTF16BE => if Need(enc, s) == 2 then Join16(s[0], s[1]) else JoinPair(s[0], s[1], s[2], s[3])
    case UTF16LE => if Need(enc, s) == 2 then Join16(s[1], s[0]) else JoinPair(s[1], s[0], s[3], s[2])
    case UTF8 =>
      var n := Utf8Length(s[0]);
      if n == 1 then Wide(s[0])
      else if n == 2 then Join2(s[0], s[1])
      else if n == 3 then Join3(s[0], s[1], s[2])
      else Join4(s[0], s[1], s[2], s[3])
  }

  // ----- well-formed bytes -----

  predicate Tail(b: bv8) { 0x80 <= b <= 0xBF }

  predicate Second3(b0: bv8, b1: bv8) {
    if b0 == 0xE0 then 0xA0 <= b1 <= 0xBF else if b0 == 0xED then 0x80 <= b1 <= 0x9F else Tail(b1)
  }

  predicate Second4(b0: bv8, b1: bv8) {
    if b0 == 0xF0 then 0x90 <= b1 <= 0xBF else if b0 == 0xF4 then 0x80 <= b1 <= 0x8F else Tail(b1)
  }

  /** The first bytes of `s` are one well-formed code point: section 4 of RFC 3629 for UTF-8,
      section 2.2 of RFC 2781 for UTF-16, a scalar value for UTF-32. */
  predicate WellFormed1(enc: Encoding, s: seq<bv8>) {
    s != [] && Need(enc, s) <= |s| &&
    match enc
    case UTF32BE => Scalar(Join32(s[0], s[1], s[2], s[3]))
    case UTF32LE => Scalar(Join32(s[3], s[2], s[1], s[0]))
    case UTF16BE => if HighSurrogate(s[0]) then LowSurrogate(s[2]) else !LowSurrogate(s[0])
    case UTF16LE => if HighSurrogate(s[1]) then LowSurrogate(s[3]) else !LowSurrogate(s[1])
    case UTF8 =>
      var n := Utf8Length(s[0]);
      if n == 1 then true
      else if n == 2 then 0xC2 <= s[0] && Tail(s[1])
      else if n == 3 then Second3(s[0], s[1]) && Tail(s[2])
      else s[0] <= 0xF4 && Second4(s[0], s[1]) && Tail(s[2]) && Tail(s[3])
  }

  // ----- the bits, shape by shape -----

  lemma Bits32(cp: codepoint)
    ensures Join32(Byte24(cp), Byte16(cp), Byte8(cp), Byte0(cp)) == cp
  {
  }

  lemma Bits32Back(b3: bv8, b2: bv8, b1: bv8, b0: bv8)
    ensures var cp := Join32(b3, b2, b1, b0); Byte24(cp) == b3 && Byte16(cp) == b2 && Byte8(cp) == b1 && Byte0(cp) == b0
  {
  }

  lemma Bits16(cp: codepoint)
    requires cp <= 0xFFFF && Scalar(cp)
    ensures Join16(Byte8(cp), Byte0(cp)) == cp && !HighSurrogate(Byte8(cp)) && !LowSurrogate(Byte8(cp))
  {
  }

  lemma Bits16Back(high: bv8, low: bv8)
    requires !HighSurrogate(high) && !LowSurrogate(high)
    ensures var cp := Join16(high, low); cp <= 0xFFFF && Scalar(cp) && Byte8(cp) == high && Byte0(cp) == low
  {
    Split16(high, low);
    Scalar16(high, low);
  }

  lemma Split16(high: bv8, low: bv8)
    ensures Byte8(Join16(high, low)) == high && Byte0(Join16(high, low)) == low && Join16(high, low) <= 0xFFFF
  {
  }

  lemma Scalar16(high: bv8, low: bv8)
    requires !HighSurrogate(high) && !LowSurrogate(high)
    ensures Scalar(Join16(high, low))
  {
  }

  lemma BitsPair(cp: codepoint)
    requires cp > 0xFFFF && Scalar(cp)
    ensures HighSurrogate(PairHigh1(cp)) && LowSurrogate(PairHigh2(cp))
    ensures JoinPair(PairHigh1(cp), PairLow1(cp), PairHigh2(cp), PairLow2(cp)) == cp
  {
  }

  lemma BitsPairBack(h1: bv8, l1: bv8, h2: bv8, l2: bv8)
    requires HighSurrogate(h1) && LowSurrogate(h2)
    ensures var cp := JoinPair(h1, l1, h2, l2);
      && 0xFFFF < cp && Scalar(cp)
      && PairHigh1(cp) == h1 && PairLow1(cp) == l1 && PairHigh2(cp) == h2 && PairLow2(cp) == l2
  {
  }

  lemma Bits8x1(cp: codepoint)
    requires cp < 0x80
    ensures Utf8Length(Byte0(cp)) == 1 && Wide(Byte0(cp)) == cp
  {
  }

  lemma Bits8x2(cp: codepoint)
    requires 0x80 <= cp < 0x800
    ensures Utf8Length(Lead2(cp)) == 2 && 0xC2 <= Lead2(cp) && Tail(Cont0(cp)) && Join2(Lead2(cp), Cont0(cp)) == cp
  {
  }

  lemma Bits8x3(cp: codepoint)
    requires 0x800 <= cp < 0x10000
    ensures Join3(Lead3(cp), Cont6(cp), Cont0(cp)) == cp
  {
  }

  lemma Form8x3(cp: codepoint)
    requires 0x800 <= cp < 0x10000 && Scalar(cp)
    ensures Utf8Length(Lead3(cp)) == 3 && Second3(Lead3(cp), Cont6(cp)) && Tail(Cont0(cp))
  {
  }

  lemma Bits8x4(cp: codepoint)
    requires 0x10000 <= cp <= 0x10FFFF
    ensures Join4(Lead4(cp), Cont12(cp), Cont6(cp), Cont0(cp)) == cp
  {
  }

  lemma Form8x4(cp: codepoint)
    requires 0x10000 <= cp <= 0x10FFFF
    ensures Utf8Length(Lead4(cp)) == 4 && Lead4(cp) <= 0xF4 && Second4(Lead4(cp), Cont12(cp)) && Tail(Cont6(cp))
      && Tail(Cont0(cp))
  {
  }

  lemma Bits8x1Back(b0: bv8)
    requires Utf8Length(b0) == 1
    ensures Wide(b0) < 0x80 && Byte0(Wide(b0)) == b0
  {
  }

  lemma Bits8x2Back(b0: bv8, b1: bv8)
    requires Utf8Length(b0) == 2 && 0xC2 <= b0 && Tail(b1)
    ensures var cp := Join2(b0, b1); 0x80 <= cp < 0x800 && Lead2(cp) == b0 && Cont0(cp) == b1
  {
  }

  lemma Bits8x3Back(b0: bv8, b1: bv8, b2: bv8)
    requires Utf8Length(b0) == 3 && Second3(b0, b1) && Tail(b2)
    ensures var cp := Join3(b0, b1, b2); Lead3(cp) == b0 && Cont6(cp) == b1 && Cont0(cp) == b2
  {
  }

  lemma Range8x3(b0: bv8, b1: bv8, b2: bv8)
    requires Utf8Length(b0) == 3 && Second3(b0, b1) && Tail(b2)
    ensures var cp := Join3(b0, b1, b2); 0x800 <= cp < 0x10000 && Scalar(cp)
  {
  }

  lemma Bits8x4Back(b0: bv8, b1: bv8, b2: bv8, b3: bv8)
    requires Utf8Length(b0) == 4 && b0 <= 0xF4 && Second4(b0, b1) && Tail(b2) && Tail(b3)
    ensures var cp := Join4(b0, b1, b2, b3); Lead4(cp) == b0 && Cont12(cp) == b1 && Cont6(cp) == b2 && Cont0(cp) == b3
  {
  }

  lemma Range8x4(b0: bv8, b1: bv8, b2: bv8, b3: bv8)
    requires Utf8Length(b0) == 4 && b0 <= 0xF4 && Second4(b0, b1) && Tail(b2) && Tail(b3)
    ensures var cp := Join4(b0, b1, b2, b3); 0x10000 <= cp <= 0x10FFFF
  {
  }

  // ----- round trips of one code point -----

  /** Encoding a scalar value gives one well-formed code point, which decodes to it whatever follows. */
  lemma EncodeThenDecode1(enc: Encoding, cp: codepoint, rest: seq<bv8>)
    requires Scalar(cp)
    ensures var s := Encode1(enc, cp) + rest;
      s != [] && Need(enc, s) == |Encode1(enc, cp)| && WellFormed1(enc, s) && Decode1(enc, s) == cp
  {
    hide Byte0, Byte8, Byte16, Byte24, Lead2, Lead3, Lead4, Cont0, Cont6, Cont12, PairHigh1, PairHigh2, PairLow1,
      PairLow2, HighSurrogate, LowSurrogate, Join32, Join16, JoinPair, Join2, Join3, Join4, Utf8Length, Second3,
      Second4, Tail, Wide;
    match enc
    case UTF32BE => Bits32(cp);
    case UTF32LE => Bits32(cp);
    case UTF16BE => if cp <= 0xFFFF { Bits16(cp); } else { BitsPair(cp); }
    case UTF16LE => if cp <= 0xFFFF { Bits16(cp); } else { BitsPair(cp); }
    case UTF8 =>
      if cp < 0x80 {
        Bits8x1(cp);
      } else if cp < 0x800 {
        Bits8x2(cp);
      } else if cp < 0x10000 {
        Bits8x3(cp);
        Form8x3(cp);
      } else {
        Bits8x4(cp);
        Form8x4(cp);
      }
  }

  lemma DecodeThenEncodeUtf8(s: seq<bv8>)
    requires WellFormed1(UTF8, s)
    ensures Scalar(Decode1(UTF8, s)) && Encode1(UTF8, Decode1(UTF8, s)) == s[..Need(UTF8, s)]
  {
    hide Byte0, Lead2, Lead3, Lead4, Cont0, Cont6, Cont12, Join2, Join3, Join4, Utf8Length, Second3, Second4, Tail,
      Wide;
    var n := Utf8Length(s[0]);
    if n == 1 {
      Bits8x1Back(s[0]);
    } else if n == 2 {
      Bits8x2Back(s[0], s[1]);
    } else if n == 3 {
      Bits8x3Back(s[0], s[1], s[2]);
      Range8x3(s[0], s[1], s[2]);
    } else {
      Bits8x4Back(s[0], s[1], s[2], s[3]);
      Range8x4(s[0], s[1], s[2], s[3]);
    }
  }

  /** A well-formed code point decodes to a scalar value, whose encoding is those same bytes. */
  lemma DecodeThenEncode1(enc: Encoding, s: seq<bv8>)
    requires WellFormed1(enc, s)
    ensures Scalar(Decode1(enc, s)) && Encode1(enc, Decode1(enc, s)) == s[..Need(enc, s)]
  {
    hide Byte0, Byte8, Byte16, Byte24, PairHigh1, PairHigh2, PairLow1, PairLow2, HighSurrogate, LowSurrogate,
      Join32, Join16, JoinPair;
    match enc
    case UTF32BE => Bits32Back(s[0], s[1], s[2], s[3]);
    case UTF32LE => Bits32Back(s[3], s[2], s[1], s[0]);
    case UTF16BE => if HighSurrogate(s[0]) { BitsPairBack(s[0], s[1], s[2], s[3]); } else { Bits16Back(s[0], s[1]); }
    case UTF16LE => if HighSurrogate(s[1]) { BitsPairBack(s[1], s[0], s[3], s[2]); } else { Bits16Back(s[1], s[0]); }
    case UTF8 => DecodeThenEncodeUtf8(s);
  }
}
