/** What the bytes of one code point are, in arithmetic: section 3 of RFC 3629 and section 2 of RFC 2781. */
module Encodings {
  import opened Codepoints
  import opened Transcoding

  /** A 16-bit unit from its two bytes. */
  function Unit(high: bv8, low: bv8): codepoint { Wide(high) * 0x100 + Wide(low) }

  /** The four bytes of `s` are the digits of `cp` in base 256. */
  predicate Digits256(s: seq<bv8>, cp: codepoint) {
    && |s| >= 4
    && Wide(s[0]) == cp / 0x100_0000 && Wide(s[1]) == cp / 0x1_0000 % 0x100
    && Wide(s[2]) == cp / 0x100 % 0x100 && Wide(s[3]) == cp % 0x100
  }

  // ----- UTF-32 and UTF-16 -----

  lemma Digits(cp: codepoint)
    ensures Wide(Byte24(cp)) == cp / 0x100_0000 && Wide(Byte16(cp)) == cp / 0x1_0000 % 0x100
    ensures Wide(Byte8(cp)) == cp / 0x100 % 0x100 && Wide(Byte0(cp)) == cp % 0x100
  {
  }

  /** UTF-32BE is the number in base 256, for every 32-bit value. */
  lemma Utf32Value(cp: codepoint)
    ensures |Encode1(UTF32BE, cp)| == 4 && Digits256(Encode1(UTF32BE, cp), cp)
  {
    hide Byte0, Byte8, Byte16, Byte24, Wide;
    Digits(cp);
  }

  lemma HighUnit(cp: codepoint)
    requires 0xFFFF < cp < 0x21_0000
    ensures Unit(PairHigh1(cp), PairLow1(cp)) == 0xD800 + (cp - 0x1_0000) / 0x400
  {
  }

  lemma LowUnit(cp: codepoint)
    requires 0xFFFF < cp
    ensures Unit(PairHigh2(cp), PairLow2(cp)) == 0xDC00 + (cp - 0x1_0000) % 0x400
  {
  }

  lemma OneUnit(cp: codepoint)
    requires cp <= 0xFFFF
    ensures Unit(Byte8(cp), Byte0(cp)) == cp
  {
  }

  /** UTF-16BE is one unit, or above 0xFFFF the two of section 2.1 of RFC 2781; from 0x210000 on only the second is. */
  lemma Utf16Units(cp: codepoint)
    ensures var s := Encode1(UTF16BE, cp);
      if cp <= 0xFFFF then |s| == 2 && Unit(s[0], s[1]) == cp
      else
        && |s| == 4
        && (cp < 0x21_0000 ==> Unit(s[0], s[1]) == 0xD800 + (cp - 0x1_0000) / 0x400)
        && Unit(s[2], s[3]) == 0xDC00 + (cp - 0x1_0000) % 0x400
  {
    hide Unit, Byte0, Byte8, PairHigh1, PairHigh2, PairLow1, PairLow2;
    if cp <= 0xFFFF {
      OneUnit(cp);
    } else {
      if cp < 0x21_0000 { HighUnit(cp); }
      LowUnit(cp);
    }
  }

  /** The little-endian encodings have the bytes of every unit in reverse. */
  lemma LittleEndian(cp: codepoint)
    ensures var be, le := Encode1(UTF32BE, cp), Encode1(UTF32LE, cp);
      |be| == 4 == |le| && forall i :: 0 <= i < 4 ==> le[i] == be[3 - i]
    ensures var be, le := Encode1(UTF16BE, cp), Encode1(UTF16LE, cp);
      |be| == |le| && |be| % 2 == 0 && forall i :: 0 <= i < |be| ==> le[i] == be[if i % 2 == 0 then i + 1 else i - 1]
  {
    hide Byte0, Byte8, Byte16, Byte24, PairHigh1, PairHigh2, PairLow1, PairLow2;
  }

  /** The byte order mark is U+FEFF in the encoding that it marks. */
  lemma MarkIsFeff(enc: Encoding)
    requires enc != UTF8
    ensures Bom(enc) == Encode1(enc, 0xFEFF)
  {
    assert Byte0(0xFEFF) == 0xFF && Byte8(0xFEFF) == 0xFE && Byte16(0xFEFF) == 0 && Byte24(0xFEFF) == 0;
  }

  // ----- UTF-8 -----

  lemma Octets1(cp: codepoint)
    requires cp < 0x80
    ensures Wide(Byte0(cp)) == cp
  {
  }

  lemma OctetsOfTwo(cp: codepoint)
    requires 0x80 <= cp < 0x800
    ensures Wide(Lead2(cp)) == 0xC0 + cp / 0x40
  {
  }

  lemma OctetsOfThree(cp: codepoint)
    requires 0x800 <= cp < 0x1_0000
    ensures Wide(Lead3(cp)) == 0xE0 + cp / 0x1000
  {
  }

  lemma OctetsOfFour(cp: codepoint)
    requires 0x1_0000 <= cp
    ensures Wide(Lead4(cp)) == 0xF0 + cp / 0x4_0000 % 0x10
  {
  }

  lemma Continuations(cp: codepoint)
    ensures Wide(Cont0(cp)) == 0x80 + cp % 0x40
    ensures Wide(Cont6(cp)) == 0x80 + cp / 0x40 % 0x40
    ensures Wide(Cont12(cp)) == 0x80 + cp / 0x1000 % 0x40
  {
  }

  /** The octets of UTF-8 by the table in section 3 of RFC 3629: how many there are, six bits in all but the first. */
  predicate Octets(s: seq<bv8>, cp: codepoint) {
    if cp < 0x80 then |s| == 1 && Wide(s[0]) == cp
    else if cp < 0x800 then |s| == 2 && Wide(s[0]) == 0xC0 + cp / 0x40 && Wide(s[1]) == 0x80 + cp % 0x40
    else if cp < 0x1_0000 then
      && |s| == 3 && Wide(s[0]) == 0xE0 + cp / 0x1000
      && Wide(s[1]) == 0x80 + cp / 0x40 % 0x40 && Wide(s[2]) == 0x80 + cp % 0x40
    else
      && |s| == 4 && Wide(s[0]) == 0xF0 + cp / 0x4_0000 % 0x10 && Wide(s[1]) == 0x80 + cp / 0x1000 % 0x40
      && Wide(s[2]) == 0x80 + cp / 0x40 % 0x40 && Wide(s[3]) == 0x80 + cp % 0x40
  }

  lemma Utf8Octets(cp: codepoint)
    ensures Octets(Encode1(UTF8, cp), cp)
  {
    hide Byte0, Lead2, Lead3, Lead4, Cont0, Cont6, Cont12, Wide;
    Continuations(cp);
    if cp < 0x80 {
      Octets1(cp);
    } else if cp < 0x800 {
      OctetsOfTwo(cp);
    } else if cp < 0x1_0000 {
      OctetsOfThree(cp);
    } else {
      OctetsOfFour(cp);
    }
  }

  // ----- the order of the bytes -----

  /** `a` comes before `b` in the lexicographic order. */
  predicate Below(a: seq<bv8>, b: seq<bv8>) {
    b != [] && (a == [] || a[0] < b[0] || (a[0] == b[0] && Below(a[1..], b[1..])))
  }

  lemma {:induction false} BelowMore(s: seq<bv8>, t: seq<bv8>, a: bv8, b: bv8)
    requires |s| == |t| && (Below(s, t) || (s == t && a < b))
    ensures Below(s + [a], t + [b])
  {
    if s != [] {
      if s[0] == t[0] { BelowMore(s[1..], t[1..], a, b); }
      assert (s + [a])[1..] == s[1..] + [a] && (t + [b])[1..] == t[1..] + [b];
    }
  }

  /** The bytes of two numbers in their order. */
  predicate InOrder(s: seq<bv8>, t: seq<bv8>, x: codepoint, y: codepoint) {
    |s| == |t| && x <= y && (if x == y then s == t else Below(s, t))
  }

  lemma HigherBy64(x: codepoint, y: codepoint)
    requires x / 0x40 > y / 0x40
    ensures x > y
  {
  }

  lemma HigherBy256(x: codepoint, y: codepoint)
    requires x / 0x100 > y / 0x100
    ensures x > y
  {
  }

  lemma QuotientBy64(x: codepoint, y: codepoint)
    requires x <= y
    ensures x / 0x40 <= y / 0x40
  {
    if x / 0x40 > y / 0x40 { HigherBy64(x, y); }
  }

  lemma QuotientBy256(x: codepoint, y: codepoint)
    requires x <= y
    ensures x / 0x100 <= y / 0x100
  {
    if x / 0x100 > y / 0x100 { HigherBy256(x, y); }
  }

  lemma LowByteOrder(x: codepoint, y: codepoint, a: bv8, b: bv8)
    requires x < y && x / 0x100 == y / 0x100 && Wide(a) == x % 0x100 && Wide(b) == y % 0x100
    ensures a < b
  {
  }

  lemma ContinuationOrder(x: codepoint, y: codepoint, a: bv8, b: bv8)
    requires x < y && x / 0x40 == y / 0x40 && Wide(a) == 0x80 + x % 0x40 && Wide(b) == 0x80 + y % 0x40
    ensures a < b
  {
  }

  lemma WideEqual(a: bv8, b: bv8)
    requires Wide(a) == Wide(b)
    ensures a == b
  {
  }

  lemma NextByte(s: seq<bv8>, t: seq<bv8>, x: codepoint, y: codepoint, a: bv8, b: bv8)
    requires x <= y && Wide(a) == x % 0x100 && Wide(b) == y % 0x100
    requires InOrder(s, t, x / 0x100, y / 0x100)
    ensures InOrder(s + [a], t + [b], x, y)
  {
    hide Wide, Below;
    if x == y {
      WideEqual(a, b);
    } else {
      if x / 0x100 == y / 0x100 { LowByteOrder(x, y, a, b); }
      BelowMore(s, t, a, b);
    }
  }

  lemma NextContinuation(s: seq<bv8>, t: seq<bv8>, x: codepoint, y: codepoint, a: bv8, b: bv8)
    requires x <= y && Wide(a) == 0x80 + x % 0x40 && Wide(b) == 0x80 + y % 0x40
    requires InOrder(s, t, x / 0x40, y / 0x40)
    ensures InOrder(s + [a], t + [b], x, y)
  {
    hide Wide, Below;
    if x == y {
      WideEqual(a, b);
    } else {
      if x / 0x40 == y / 0x40 { ContinuationOrder(x, y, a, b); }
      BelowMore(s, t, a, b);
    }
  }

  /** `s` is `x` in base 256. */
  predicate Base256(s: seq<bv8>, x: codepoint) {
    && s != []
    && if |s| == 1 then Wide(s[0]) == x else Wide(s[|s| - 1]) == x % 0x100 && Base256(s[..|s| - 1], x / 0x100)
  }

  /** `s` is a leading byte of offset `lead` with continuation bytes of six bits each. */
  predicate Base64(s: seq<bv8>, lead: codepoint, x: codepoint) {
    && s != []
    && if |s| == 1 then x < 0x20 && Wide(s[0]) == lead + x
       else Wide(s[|s| - 1]) == 0x80 + x % 0x40 && Base64(s[..|s| - 1], lead, x / 0x40)
  }

  lemma LeadOrder(lead: codepoint, x: codepoint, y: codepoint, a: bv8, b: bv8)
    requires x <= y < 0x20 && lead < 0x100 && lead % 0x10 == 0 && Wide(a) == lead + x && Wide(b) == lead + y
    ensures if x == y then a == b else a < b
  {
  }

  lemma {:induction false} Base256Order(s: seq<bv8>, t: seq<bv8>, x: codepoint, y: codepoint)
    requires |s| == |t| && x <= y && Base256(s, x) && Base256(t, y)
    ensures InOrder(s, t, x, y)
  {
    hide Wide, InOrder;
    var n := |s| - 1;
    if n == 0 {
      LeadOrder256(s[0], t[0], x, y);
      assert s == [s[0]] && t == [t[0]];
    } else {
      QuotientBy256(x, y);
      Base256Order(s[..n], t[..n], x / 0x100, y / 0x100);
      NextByte(s[..n], t[..n], x, y, s[n], t[n]);
      assert s == s[..n] + [s[n]] && t == t[..n] + [t[n]];
    }
  }

  lemma LeadOrder256(a: bv8, b: bv8, x: codepoint, y: codepoint)
    requires x <= y && Wide(a) == x && Wide(b) == y
    ensures InOrder([a], [b], x, y)
  {
  }

  lemma LeadOrder64(lead: codepoint, a: bv8, b: bv8, x: codepoint, y: codepoint)
    requires x <= y < 0x20 && lead < 0x100 && lead % 0x10 == 0 && Wide(a) == lead + x && Wide(b) == lead + y
    ensures InOrder([a], [b], x, y)
  {
    LeadOrder(lead, x, y, a, b);
  }

  lemma {:induction false} Base64Order(s: seq<bv8>, t: seq<bv8>, lead: codepoint, x: codepoint, y: codepoint)
    requires |s| == |t| && x <= y && lead < 0x100 && lead % 0x10 == 0 && Base64(s, lead, x) && Base64(t, lead, y)
    ensures InOrder(s, t, x, y)
  {
    hide Wide, InOrder;
    var n := |s| - 1;
    if n == 0 {
      LeadOrder64(lead, s[0], t[0], x, y);
      assert s == [s[0]] && t == [t[0]];
    } else {
      QuotientBy64(x, y);
      Base64Order(s[..n], t[..n], lead, x / 0x40, y / 0x40);
      NextContinuation(s[..n], t[..n], x, y, s[n], t[n]);
      assert s == s[..n] + [s[n]] && t == t[..n] + [t[n]];
    }
  }

  lemma Quotients(x: codepoint)
    ensures x / 0x40 / 0x40 == x / 0x1000 && x / 0x1000 / 0x40 == x / 0x4_0000
    ensures x / 0x100 / 0x100 == x / 0x1_0000 && x / 0x1_0000 / 0x100 == x / 0x100_0000
  {
  }

  lemma Utf32Base(cp: codepoint)
    ensures Base256(Encode1(UTF32BE, cp), cp)
  {
    hide Encode1, Wide;
    var s := Encode1(UTF32BE, cp);
    Utf32Value(cp);
    Quotients(cp);
    assert Base256(s[..1], cp / 0x100_0000);
    assert s[..2][..1] == s[..1] && Base256(s[..2], cp / 0x1_0000);
    assert s[..3][..2] == s[..2] && Base256(s[..3], cp / 0x100);
    assert s[..4] == s;
  }

  /** UTF-32BE keeps the order of all 32-bit values. */
  lemma Utf32Order(x: codepoint, y: codepoint)
    requires x < y
    ensures Below(Encode1(UTF32BE, x), Encode1(UTF32BE, y))
  {
    hide Encode1, Base256, Below;
    Utf32Base(x);
    Utf32Base(y);
    Utf32Value(x);
    Utf32Value(y);
    Base256Order(Encode1(UTF32BE, x), Encode1(UTF32BE, y), x, y);
  }

  lemma Utf8Base2(cp: codepoint, s: seq<bv8>)
    requires 0x80 <= cp < 0x800 && Octets(s, cp)
    ensures Base64(s, 0xC0, cp)
  {
    hide Wide;
    assert Base64(s[..1], 0xC0, cp / 0x40);
  }

  lemma Utf8Base3(cp: codepoint, s: seq<bv8>)
    requires 0x800 <= cp < 0x1_0000 && Octets(s, cp)
    ensures Base64(s, 0xE0, cp)
  {
    hide Wide;
    Quotients(cp);
    assert Base64(s[..1], 0xE0, cp / 0x1000);
    assert s[..2][..1] == s[..1] && Base64(s[..2], 0xE0, cp / 0x40);
  }

  lemma Utf8Base4(cp: codepoint, s: seq<bv8>)
    requires 0x1_0000 <= cp < 0x40_0000 && Octets(s, cp)
    ensures Base64(s, 0xF0, cp)
  {
    hide Wide;
    Quotients(cp);
    assert cp / 0x4_0000 % 0x10 == cp / 0x4_0000 < 0x10;
    assert Base64(s[..1], 0xF0, cp / 0x4_0000);
    assert s[..2][..1] == s[..1] && Base64(s[..2], 0xF0, cp / 0x1000);
    assert s[..3][..2] == s[..2] && Base64(s[..3], 0xF0, cp / 0x40);
  }

  /** How many octets there are, by the table, and where the first of them lies. */
  function Count(cp: codepoint): nat {
    if cp < 0x80 then 1 else if cp < 0x800 then 2 else if cp < 0x1_0000 then 3 else 4
  }

  predicate LeadOf(n: nat, b: bv8) {
    if n <= 1 then b < 0x80 else if n == 2 then 0xC0 <= b < 0xE0 else if n == 3 then 0xE0 <= b < 0xF0 else 0xF0 <= b
  }

  lemma LeadFacts(cp: codepoint, s: seq<bv8>)
    requires Octets(s, cp)
    ensures |s| == Count(cp) && LeadOf(|s|, s[0])
  {
    if cp < 0x80 {
    } else if cp < 0x800 {
      LeadOfTwo(cp, s[0]);
    } else if cp < 0x1_0000 {
      LeadOfThree(cp, s[0]);
    } else {
      LeadOfFour(cp, s[0]);
    }
  }

  lemma LeadOfTwo(cp: codepoint, b: bv8)
    requires cp < 0x800 && Wide(b) == 0xC0 + cp / 0x40
    ensures 0xC0 <= b < 0xE0
  {
  }

  lemma LeadOfThree(cp: codepoint, b: bv8)
    requires cp < 0x1_0000 && Wide(b) == 0xE0 + cp / 0x1000
    ensures 0xE0 <= b < 0xF0
  {
  }

  lemma LeadOfFour(cp: codepoint, b: bv8)
    requires Wide(b) == 0xF0 + cp / 0x4_0000 % 0x10
    ensures 0xF0 <= b
  {
  }

  lemma Strictly(x: codepoint, y: codepoint)
    requires x < y
    ensures x <= y && x != y
  {
  }

  lemma Base64Below(s: seq<bv8>, t: seq<bv8>, lead: codepoint, x: codepoint, y: codepoint)
    requires |s| == |t| && lead < 0x100 && lead % 0x10 == 0 && Base64(s, lead, x) && Base64(t, lead, y)
    requires x <= y && x != y
    ensures Below(s, t)
  {
    hide Base64, Below;
    Base64Order(s, t, lead, x, y);
  }

  lemma Order1(x: codepoint, y: codepoint, s: seq<bv8>, t: seq<bv8>)
    requires x < y && x < 0x80 && y < 0x80 && Octets(s, x) && Octets(t, y)
    ensures Below(s, t)
  {
    LeadOrder256(s[0], t[0], x, y);
  }

  lemma Order2(x: codepoint, y: codepoint, s: seq<bv8>, t: seq<bv8>)
    requires x < y && 0x80 <= x < 0x800 && 0x80 <= y < 0x800 && Octets(s, x) && Octets(t, y) && |s| == |t|
    ensures Below(s, t)
  {
    hide Octets, Base64, Below;
    Utf8Base2(x, s);
    Utf8Base2(y, t);
    Strictly(x, y);
    Base64Below(s, t, 0xC0, x, y);
  }

  lemma Order3(x: codepoint, y: codepoint, s: seq<bv8>, t: seq<bv8>)
    requires x < y && 0x800 <= x < 0x1_0000 && 0x800 <= y < 0x1_0000 && Octets(s, x) && Octets(t, y) && |s| == |t|
    ensures Below(s, t)
  {
    hide Octets, Base64, Below;
    Utf8Base3(x, s);
    Utf8Base3(y, t);
    Strictly(x, y);
    Base64Below(s, t, 0xE0, x, y);
  }

  lemma Order4(x: codepoint, y: codepoint, s: seq<bv8>, t: seq<bv8>)
    requires x < y && 0x1_0000 <= x < 0x40_0000 && 0x1_0000 <= y < 0x40_0000
    requires Octets(s, x) && Octets(t, y) && |s| == |t|
    ensures Below(s, t)
  {
    hide Octets, Base64, Below;
    Utf8Base4(x, s);
    Utf8Base4(y, t);
    Strictly(x, y);
    Base64Below(s, t, 0xF0, x, y);
  }

  lemma SameCount(x: codepoint, y: codepoint, s: seq<bv8>, t: seq<bv8>)
    requires x < y && x < 0x40_0000 && y < 0x40_0000 && Octets(s, x) && Octets(t, y)
    requires |s| == Count(x) == Count(y) == |t|
    ensures Below(s, t)
  {
    hide Octets, Below;
    if Count(x) == 1 {
      Order1(x, y, s, t);
    } else if Count(x) == 2 {
      Order2(x, y, s, t);
    } else if Count(x) == 3 {
      Order3(x, y, s, t);
    } else {
      Order4(x, y, s, t);
    }
  }

  lemma FewerOctets(m: nat, n: nat, s: seq<bv8>, t: seq<bv8>)
    requires 0 < m < n <= 4 && s != [] && t != [] && LeadOf(m, s[0]) && LeadOf(n, t[0])
    ensures Below(s, t)
  {
  }

  lemma CountOrder(x: codepoint, y: codepoint)
    requires x < y
    ensures 0 < Count(x) <= Count(y) <= 4
  {
  }

  /** UTF-8 keeps the order of the code points, and of all values that four octets hold. */
  lemma Utf8Order(x: codepoint, y: codepoint)
    requires x < y && x < 0x40_0000 && y < 0x40_0000
    ensures Below(Encode1(UTF8, x), Encode1(UTF8, y))
  {
    hide Encode1, Below, Octets, LeadOf, Count;
    var s, t := Encode1(UTF8, x), Encode1(UTF8, y);
    Utf8Octets(x);
    Utf8Octets(y);
    LeadFacts(x, s);
    LeadFacts(y, t);
    CountOrder(x, y);
    if Count(x) == Count(y) {
      SameCount(x, y, s, t);
    } else {
      FewerOctets(Count(x), Count(y), s, t);
    }
  }

  // ----- what is read from any bytes, well-formed or not -----

  lemma Joined32(b3: bv8, b2: bv8, b1: bv8, b0: bv8)
    ensures var v := Join32(b3, b2, b1, b0);
      && Wide(b3) == v / 0x100_0000 && Wide(b2) == v / 0x1_0000 % 0x100
      && Wide(b1) == v / 0x100 % 0x100 && Wide(b0) == v % 0x100
  {
  }

  lemma Joined16(high: bv8, low: bv8)
    ensures Join16(high, low) == Unit(high, low)
  {
  }

  lemma SurrogateUnit(high: bv8, low: bv8)
    ensures HighSurrogate(high) <==> 0xD800 <= Unit(high, low) < 0xDC00
  {
  }

  /** `v` is the code point of two units: ten bits from each, above 0xFFFF. */
  predicate FromUnits(v: codepoint, u: codepoint, w: codepoint) {
    0xFFFF < v <= 0x10FFFF && (v - 0x1_0000) / 0x400 == u % 0x400 && (v - 0x1_0000) % 0x400 == w % 0x400
  }

  lemma JoinedPair(h1: bv8, l1: bv8, h2: bv8, l2: bv8)
    ensures FromUnits(JoinPair(h1, l1, h2, l2), Unit(h1, l1), Unit(h2, l2))
  {
    PairRange(h1, l1, h2, l2);
    PairTop(h1, l1, h2, l2);
    PairBottom(h1, l1, h2, l2);
  }

  lemma PairRange(h1: bv8, l1: bv8, h2: bv8, l2: bv8)
    ensures 0xFFFF < JoinPair(h1, l1, h2, l2) <= 0x10FFFF
  {
  }

  lemma PairTop(h1: bv8, l1: bv8, h2: bv8, l2: bv8)
    ensures (JoinPair(h1, l1, h2, l2) - 0x1_0000) / 0x400 == Unit(h1, l1) % 0x400
  {
  }

  lemma PairBottom(h1: bv8, l1: bv8, h2: bv8, l2: bv8)
    ensures (JoinPair(h1, l1, h2, l2) - 0x1_0000) % 0x400 == Unit(h2, l2) % 0x400
  {
  }

  /** Four bytes of UTF-32 are the number in base 256. */
  lemma ReadUtf32Bytes(enc: Encoding, s: seq<bv8>)
    requires (enc == UTF32BE || enc == UTF32LE) && s != [] && Need(enc, s) <= |s|
    ensures Need(enc, s) == 4
    ensures Digits256(if enc == UTF32BE then s else [s[3], s[2], s[1], s[0]], Decode1(enc, s))
  {
    hide Join32, Wide;
    if enc == UTF32BE {
      Joined32(s[0], s[1], s[2], s[3]);
    } else {
      Joined32(s[3], s[2], s[1], s[0]);
    }
  }

  function UnitAt(enc: Encoding, s: seq<bv8>, i: nat): codepoint
    requires i + 1 < |s|
  {
    if enc == UTF16BE then Unit(s[i], s[i + 1]) else Unit(s[i + 1], s[i])
  }

  /** A unit of UTF-16 is a code point by itself unless it is a high surrogate; that takes its pair, whatever it is. */
  lemma ReadUtf16Bytes(enc: Encoding, s: seq<bv8>)
    requires (enc == UTF16BE || enc == UTF16LE) && s != [] && Need(enc, s) <= |s|
    ensures |s| >= 2
    ensures
      if 0xD800 <= UnitAt(enc, s, 0) < 0xDC00
      then Need(enc, s) == 4 && FromUnits(Decode1(enc, s), UnitAt(enc, s, 0), UnitAt(enc, s, 2))
      else Need(enc, s) == 2 && Decode1(enc, s) == UnitAt(enc, s, 0)
  {
    hide Unit, HighSurrogate, Join16, JoinPair, FromUnits;
    if enc == UTF16BE {
      SurrogateUnit(s[0], s[1]);
      Joined16(s[0], s[1]);
      if HighSurrogate(s[0]) { JoinedPair(s[0], s[1], s[2], s[3]); }
    } else {
      SurrogateUnit(s[1], s[0]);
      Joined16(s[1], s[0]);
      if HighSurrogate(s[1]) { JoinedPair(s[1], s[0], s[3], s[2]); }
    }
  }

  /** Six bits of every byte but the first, and what the first has beside the length. */
  lemma Joined2(b0: bv8, b1: bv8)
    ensures var v := Join2(b0, b1); v / 0x40 == Wide(b0) % 0x20 && v % 0x40 == Wide(b1) % 0x40
  {
  }

  lemma Joined3(b0: bv8, b1: bv8, b2: bv8)
    ensures var v := Join3(b0, b1, b2);
      v / 0x1000 == Wide(b0) % 0x10 && v / 0x40 % 0x40 == Wide(b1) % 0x40 && v % 0x40 == Wide(b2) % 0x40
  {
  }

  lemma Joined4(b0: bv8, b1: bv8, b2: bv8, b3: bv8)
    ensures var v := Join4(b0, b1, b2, b3);
      && v / 0x4_0000 == Wide(b0) % 8 && v / 0x1000 % 0x40 == Wide(b1) % 0x40
      && v / 0x40 % 0x40 == Wide(b2) % 0x40 && v % 0x40 == Wide(b3) % 0x40
  {
  }

  /** In UTF-8 the first byte tells the length and gives the high bits; six bits of every other byte follow. */
  lemma ReadUtf8Bytes(s: seq<bv8>)
    requires s != [] && Need(UTF8, s) <= |s|
    ensures var v := Decode1(UTF8, s);
      if s[0] < 0x80 then Need(UTF8, s) == 1 && v == Wide(s[0])
      else if s[0] < 0xE0 then
        Need(UTF8, s) == 2 && v / 0x40 == Wide(s[0]) % 0x20 && v % 0x40 == Wide(s[1]) % 0x40
      else if s[0] < 0xF0 then
        && Need(UTF8, s) == 3 && v / 0x1000 == Wide(s[0]) % 0x10
        && v / 0x40 % 0x40 == Wide(s[1]) % 0x40 && v % 0x40 == Wide(s[2]) % 0x40
      else
        && Need(UTF8, s) == 4 && v / 0x4_0000 == Wide(s[0]) % 8 && v / 0x1000 % 0x40 == Wide(s[1]) % 0x40
        && v / 0x40 % 0x40 == Wide(s[2]) % 0x40 && v % 0x40 == Wide(s[3]) % 0x40
  {
    hide Join2, Join3, Join4, Wide;
    if 0x80 <= s[0] < 0xE0 {
      Joined2(s[0], s[1]);
    } else if 0xE0 <= s[0] < 0xF0 {
      Joined3(s[0], s[1], s[2]);
    } else if 0xF0 <= s[0] {
      Joined4(s[0], s[1], s[2], s[3]);
    }
  }
}
