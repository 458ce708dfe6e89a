/** calcular_set_y_tag: the shifts and masks of 32-bit words, and the division they amount to. */
module CacheAddress {
  import opened CacheModel

  const WORDS := 0x1_0000_0000      // 2^32
  const ONES := 0xFFFF_FFFF
  const SIGN := 0x8000_0000

  // ----- operators on 32-bit patterns, held as numbers -----

  function And(x: nat, y: nat): nat {
    if x == 0 || y == 0 then 0 else 2 * And(x / 2, y / 2) + (if x % 2 == 1 && y % 2 == 1 then 1 else 0)
  }

  function Or(x: nat, y: nat): nat {
    if x == 0 then y else if y == 0 then x else 2 * Or(x / 2, y / 2) + (if x % 2 == 1 || y % 2 == 1 then 1 else 0)
  }

  function Xor(x: nat, y: nat): nat {
    if x == 0 then y else if y == 0 then x else 2 * Xor(x / 2, y / 2) + (if x % 2 != y % 2 then 1 else 0)
  }

  function Not(x: nat): int { ONES - x }
  function Shl(x: nat, k: nat): (r: nat) ensures r < WORDS { x * Pow2(k) % WORDS }
  function Shr(x: nat, k: nat): nat { Div(x, Pow2(k)) }
  /** The shift of a signed int, which copies the sign bit. */
  function Sar(x: nat, k: nat): (r: nat) ensures r < WORDS { (AsInt32(x) / Pow2(k)) % WORDS }

  function Div(x: nat, y: nat): (q: nat)
    requires y > 0
    ensures q * y <= x < q * y + y && q == x / y
  {
    DivFacts(x, y);
    x / y
  }

  lemma DivFacts(x: nat, y: nat)
    requires y > 0
    ensures x / y >= 0 && (x / y) * y <= x < (x / y) * y + y
  {
  }

  /** (int) log2((double) n), exact on the powers of two it is called with. */
  function Log2(n: nat): nat { if n <= 1 then 0 else 1 + Log2(n / 2) }

  lemma {:induction false} Log2OfPow2(k: nat)
    ensures Log2(Pow2(k)) == k
  {
    if k > 0 {
      Log2OfPow2(k - 1);
      assert Pow2(k) / 2 == Pow2(k - 1);
    }
  }

  // ----- powers of two -----

  lemma {:induction false} Pow2Add(a: nat, b: nat)
    ensures Pow2(a + b) == Pow2(a) * Pow2(b)
  {
    if a > 0 {
      Pow2Add(a - 1, b);
      assert Pow2(a + b) == 2 * Pow2(a - 1 + b);
      Assoc(2, Pow2(a - 1), Pow2(b));
    }
  }

  lemma Assoc(x: int, y: int, z: int)
    ensures x * y * z == x * (y * z)
  {
  }

  lemma Pow2Constants()
    ensures Pow2(0) == 1 && Pow2(31) == SIGN && Pow2(32) == WORDS
  {
    assert Pow2(8) == 0x100;
    Pow2Add(8, 8);
    Pow2Add(16, 15);
    assert Pow2(7) == 0x80;
    Pow2Add(8, 7);
    Pow2Add(16, 16);
  }

  // ----- division -----

  lemma MulMono(y: int, a: int, b: int)
    requires a <= b && 0 <= y
    ensures y * a <= y * b
  {
  }

  /** Quotient and remainder are unique. */
  lemma ModUnique(x: int, y: int, q: int, r: int)
    requires y > 0 && x == y * q + r && 0 <= r < y
    ensures x % y == r && x / y == q
  {
    var q' := x / y;
    assert y * q' <= x < y * q' + y;
    if q > q' {
      assert y * (q' + 1) == y * q' + y;
      MulMono(y, q' + 1, q);
      assert false;
    } else if q < q' {
      assert y * (q + 1) == y * q + y;
      MulMono(y, q + 1, q');
      assert false;
    }
  }

  lemma ModHalf(x: nat, p: nat)
    requires p > 0
    ensures x % (2 * p) == 2 * (x / 2 % p) + x % 2
  {
    var h := x / 2;
    var q, r := h / p, h % p;
    assert h == p * q + r;
    assert 2 * (p * q) == (2 * p) * q;
    ModUnique(x, 2 * p, q, 2 * r + x % 2);
  }

  lemma Distribute(x: int, y: int, p: int)
    ensures (x + y) * p == x * p + y * p
  {
  }

  /** Quotient z and remainder t of a quotient with remainder r, put together. */
  lemma Regroup(p: int, q: int, z: int, t: int, r: int)
    ensures (z * q + t) * p + r == (p * q) * z + (p * t + r)
  {
    Distribute(z * q, t, p);
    Assoc(z, q, p);
    Swap(q, p);
    Swap(z, p * q);
    Swap(t, p);
  }

  lemma Swap(x: int, y: int)
    ensures x * y == y * x
  {
  }

  lemma RemainderBelow(p: nat, q: nat, t: nat, r: nat)
    requires t < q && r < p
    ensures 0 <= p * t + r < p * q
  {
    MulMono(p, 0, t);
    MulMono(p, t, q - 1);
    Swap(p, q - 1);
    MinusOne(q, p);
    Swap(p, q);
  }

  lemma DivDiv(x: nat, p: nat, q: nat)
    requires p > 0 && q > 0
    ensures p * q > 0 && x / (p * q) == x / p / q
  {
    var y := Div(x, p);
    var z := Div(y, q);
    DivIdentity(x, p, q, y, z);
  }

  lemma DivIdentity(x: nat, p: nat, q: nat, y: nat, z: nat)
    requires p > 0 && q > 0 && y * p <= x < y * p + p && z * q <= y < z * q + q
    ensures p * q > 0 && x / (p * q) == z
  {
    var r, t := x - y * p, y - z * q;
    Regroup(p, q, z, t, r);
    RemainderBelow(p, q, t, r);
    ModUnique(x, p * q, z, p * t + r);
  }

  // ----- masks -----

  lemma {:induction false} AndMask(x: nat, k: nat)
    ensures And(x, Pow2(k) - 1) == x % Pow2(k)
  {
    if k > 0 {
      AndMask(x / 2, k - 1);
      AndMaskStep(x, Pow2(k - 1));
    }
  }

  lemma AndMaskStep(x: nat, p: nat)
    requires p > 0 && And(x / 2, p - 1) == x / 2 % p
    ensures And(x, 2 * p - 1) == x % (2 * p)
  {
    hide And;
    AndUnfold(x, 2 * p - 1);
    ModHalf(x, p);
    assert (2 * p - 1) / 2 == p - 1 && (2 * p - 1) % 2 == 1;
  }

  lemma AndUnfold(x: nat, y: nat)
    ensures And(x, y) == 2 * And(x / 2, y / 2) + (if x % 2 == 1 && y % 2 == 1 then 1 else 0)
  {
  }

  lemma Halved(a: int, k: nat)
    requires k > 0
    ensures a * Pow2(k) == 2 * (a * Pow2(k - 1))
  {
    Twice(a, Pow2(k - 1));
  }

  lemma Twice(a: int, p: int)
    ensures a * (2 * p) == 2 * (a * p)
  {
  }

  /** Disjoint bits add up. */
  lemma {:induction false} OrDisjoint(a: nat, b: nat, k: nat)
    requires b < Pow2(k)
    ensures Or(a * Pow2(k), b) == a * Pow2(k) + b
  {
    hide Pow2, Or;
    if k == 0 {
      Unshifted(a);
      Pow2Steps(0);
      OrZero(a);
    } else {
      Pow2Steps(k);
      Halved(a, k);
      OrDisjoint(a, b / 2, k - 1);
      OrLow(a * Pow2(k - 1), b);
    }
  }

  lemma Pow2Steps(k: nat)
    ensures Pow2(k) == if k == 0 then 1 else 2 * Pow2(k - 1)
  {
  }

  lemma OrZero(a: nat)
    ensures Or(a, 0) == a
  {
  }

  lemma OrLow(c: nat, b: nat)
    ensures Or(2 * c, b) == 2 * Or(c, b / 2) + b % 2
  {
    assert (2 * c) / 2 == c && (2 * c) % 2 == 0;
  }

  lemma OrDouble(a: nat, b: nat)
    ensures Or(2 * a, 2 * b) == 2 * Or(a, b) && Or(2 * a + 1, 2 * b) == 2 * Or(a, b) + 1
  {
    assert (2 * a) / 2 == a && (2 * b) / 2 == b && (2 * a + 1) / 2 == a;
  }

  /** The top bit of n ones is one of them. */
  lemma {:induction false} OrTop(n: nat)
    requires n > 0
    ensures Or(Pow2(n) - 1, Pow2(n - 1)) == Pow2(n) - 1
  {
    if n > 1 {
      OrTop(n - 1);
      OrDouble(Pow2(n - 1) - 1, Pow2(n - 2));
    }
  }

  lemma {:induction false} OrShifted(a: nat, b: nat, k: nat)
    ensures Or(a * Pow2(k), b * Pow2(k)) == Or(a, b) * Pow2(k)
  {
    hide Or, Pow2;
    if k == 0 {
      Unshifted(a);
      Unshifted(b);
      Unshifted(Or(a, b));
    } else {
      var x, y := a * Pow2(k - 1), b * Pow2(k - 1);
      OrShifted(a, b, k - 1);
      OrDouble(x, y);
      Halved(a, k);
      Halved(b, k);
      Halved(Or(a, b), k);
    }
  }

  lemma Unshifted(a: int)
    ensures a * Pow2(0) == a
  {
  }

  lemma XorUnfold(x: nat, y: nat)
    ensures Xor(x, y) == 2 * Xor(x / 2, y / 2) + (if x % 2 != y % 2 then 1 else 0)
  {
  }

  lemma {:induction false} XorOnes(x: nat, n: nat)
    requires x < Pow2(n)
    ensures Xor(x, Pow2(n) - 1) == Pow2(n) - 1 - x
  {
    if n > 0 {
      hide Xor;
      assert (Pow2(n) - 1) / 2 == Pow2(n - 1) - 1 && (Pow2(n) - 1) % 2 == 1;
      XorOnes(x / 2, n - 1);
      XorUnfold(x, Pow2(n) - 1);
    }
  }

  // ----- the masks of calcular_set_y_tag -----

  function MascaraTag(bitsTag: nat): nat
    requires bitsTag > 0
  {
    Sar(SIGN, bitsTag - 1)
  }

  function MascaraOffset(bitsOffset: nat): int { Not(Shl(Xor(SIGN, ONES), bitsOffset)) }

  lemma SarSign(p: int, q: int)
    requires p * q == SIGN && 0 < p < WORDS && 0 < q
    ensures (-SIGN / q) % WORDS == WORDS - p
  {
    assert q * (-p) == -(p * q);
    ModUnique(-SIGN, q, -p, 0);
    ModUnique(-p, WORDS, -1, WORDS - p);
  }

  lemma TagMaskIs(bits: nat)
    requires bits <= 31
    ensures MascaraTag(32 - bits) == WORDS - Pow2(bits)
  {
    hide Pow2;
    Pow2Constants();
    Pow2Add(bits, 31 - bits);
    Pow2Add(32 - bits, bits);
    Pow2Less(bits, 32);
    SarSign(Pow2(bits), Pow2(31 - bits));
  }

  lemma MinusOne(a: int, b: int)
    ensures (a - 1) * b == a * b - b
  {
  }

  lemma {:induction false} Pow2Less(a: nat, b: nat)
    requires a < b
    ensures Pow2(a) < Pow2(b)
  {
    if a < b - 1 { Pow2Less(a, b - 1); }
  }

  /** With one-byte blocks the offset mask is not empty: it is the sign bit, which the tag mask covers. */
  lemma OffsetMaskIs(o: nat)
    requires o <= 31
    ensures MascaraOffset(o) == if o == 0 then SIGN else Pow2(o) - 1
  {
    Pow2Constants();
    XorOnes(SIGN, 32);
    assert Xor(SIGN, ONES) == SIGN - 1;
    if o > 0 {
      var p, h := Pow2(o), Pow2(o - 1);
      Pow2Less(o, 32);
      assert (SIGN - 1) * p == WORDS * (h - 1) + (WORDS - p) by {
        assert (SIGN - 1) * p == SIGN * p - p;
        assert SIGN * p == WORDS * h;
      }
      ModUnique((SIGN - 1) * p, WORDS, h - 1, WORDS - p);
    } else {
      assert (SIGN - 1) * Pow2(0) == SIGN - 1;
    }
  }

  function MascaraSet(bitsTag: nat, bitsOffset: nat): int
    requires bitsTag > 0 && MascaraOffset(bitsOffset) >= 0
      && Not(Or(MascaraTag(bitsTag), MascaraOffset(bitsOffset))) >= 0
  {
    Shr(Not(Or(MascaraTag(bitsTag), MascaraOffset(bitsOffset))), bitsOffset)
  }

  lemma SetMaskIs(s: nat, o: nat)
    requires s + o <= 31
    ensures MascaraOffset(o) >= 0 && Not(Or(MascaraTag(32 - (s + o)), MascaraOffset(o))) >= 0
    ensures MascaraSet(32 - (s + o), o) == Pow2(s) - 1
  {
    hide Pow2, Or, MascaraTag, MascaraOffset;
    TagMaskIs(s + o);
    OffsetMaskIs(o);
    Pow2Less(s + o, 32);
    Pow2LessEq(o, s + o);
    Pow2Constants();
    MasksJoined(s, o, MascaraTag(32 - (s + o)), MascaraOffset(o));
    Pow2Add(s, o);
    BetweenMasks(Pow2(s), Pow2(o));
  }

  /** Together the tag mask and the offset mask cover everything but the set bits. */
  lemma MasksJoined(s: nat, o: nat, tagMask: nat, offsetMask: nat)
    requires s + o <= 31 && tagMask == WORDS - Pow2(s + o)
    requires offsetMask == if o == 0 then SIGN else Pow2(o) - 1
    ensures Or(tagMask, offsetMask) == WORDS - Pow2(s + o) + Pow2(o) - 1
  {
    hide Pow2, Or;
    var n := 32 - (s + o);
    Pow2Constants();
    Pow2Add(n, s + o);
    MinusOne(Pow2(n), Pow2(s + o));
    if o == 0 {
      Pow2Add(n - 1, s);
      OrShifted(Pow2(n) - 1, Pow2(n - 1), s);
      OrTop(n);
    } else {
      Pow2LessEq(o, s + o);
      OrDisjoint(Pow2(n) - 1, Pow2(o) - 1, s + o);
    }
  }

  lemma BetweenMasks(s: nat, o: nat)
    requires s > 0 && o > 0
    ensures s * o - o >= 0 && (s * o - o) / o == s - 1
  {
    assert s * o - o == o * (s - 1);
    ModUnique(s * o - o, o, s - 1, 0);
  }

  lemma Pow2LessEq(a: nat, b: nat)
    requires a <= b
    ensures Pow2(a) <= Pow2(b)
  {
    if a < b { Pow2Less(a, b); }
  }

  lemma ShrIs(x: nat, k: nat)
    ensures Shr(x, k) == x / Pow2(k)
  {
  }

  lemma SetIs(dir: nat, s: nat, o: nat)
    ensures And(Shr(dir, o), Pow2(s) - 1) == dir / Pow2(o) % Pow2(s)
  {
    hide And, Shr, Pow2;
    ShrIs(dir, o);
    AndMask(Shr(dir, o), s);
  }

  lemma TagIs(dir: nat, s: nat, o: nat)
    ensures Shr(dir, s + o) == dir / Pow2(o) / Pow2(s)
  {
    hide Shr, Pow2;
    ShrIs(dir, s + o);
    DivTwice(dir, o, s);
  }

  /** A 32-bit int that is `v` up to multiples of 2^32. */
  predicate Int32Of(t: int, v: int) { -SIGN <= t < SIGN && (v - t) % WORDS == 0 }

  lemma WrapIs(v: nat)
    requires v < WORDS
    ensures Int32Of(AsInt32(v), v)
  {
  }

  /** Tag, set and offset take an address apart: tag * (B * S) + set * B + offset, with the set below S. */
  lemma AddressParts(g: Geometry, dir: nat)
    requires dir < WORDS
    ensures g.SetOf(dir) == dir / g.Block() % g.Sets()
    ensures Int32Of(g.TagOf(dir), dir / (g.Block() * g.Sets()))
    ensures dir == (dir / (g.Block() * g.Sets()) * g.Sets() + g.SetOf(dir)) * g.Block() + dir % g.Block()
  {
    hide Pow2, Int32Of, AsInt32;
    var b, s := g.Block(), g.Sets();
    DivDiv(dir, b, s);
    BelowWords(dir, b, s);
    WrapIs(dir / b / s);
    SplitTwice(dir, b, s);
  }

  lemma BlockTimesSets(g: Geometry)
    ensures g.Block() * g.Sets() > 0
  {
  }

  lemma SplitTwice(x: nat, b: nat, s: nat)
    requires b > 0 && s > 0
    ensures x == (x / b / s * s + x / b % s) * b + x % b
  {
    var y := Div(x, b);
    var z := Div(y, s);
    assert x % b == x - y * b && y % s == y - z * s;
  }

  /** The set and tag that the shifts and masks compute. */
  method CalcularSetYTag(cantidadSets: nat, tamanioBloque: nat, dir: nat, ghost g: Geometry)
    returns (conjunto: nat, tag: int)
    requires cantidadSets == g.Sets() && tamanioBloque == g.Block() && g.setBits + g.offBits <= 31 && dir < WORDS
    ensures conjunto == g.SetOf(dir) && tag == g.TagOf(dir)
    ensures tamanioBloque > 0 && cantidadSets > 0 && conjunto == dir / tamanioBloque % cantidadSets
    ensures tamanioBloque * cantidadSets > 0 && Int32Of(tag, dir / (tamanioBloque * cantidadSets))
  {
    hide And, Shr, Log2, Pow2, MascaraSet, MascaraOffset, MascaraTag, Or, AsInt32, Int32Of;
    AddressParts(g, dir);
    BlockTimesSets(g);
    Log2OfPow2(g.setBits);
    Log2OfPow2(g.offBits);
    SetMaskIs(g.setBits, g.offBits);
    SetIs(dir, g.setBits, g.offBits);
    TagIs(dir, g.setBits, g.offBits);
    var bitsSet := Log2(cantidadSets);
    var bitsOffset := Log2(tamanioBloque);
    var bitsTag := 32 - (bitsSet + bitsOffset);
    var mascaraSet := MascaraSet(bitsTag, bitsOffset);
    conjunto := And(Shr(dir, bitsOffset), mascaraSet);
    tag := AsInt32(Shr(dir, bitsSet + bitsOffset));
  }

  lemma DivTwice(x: nat, a: nat, b: nat)
    ensures x / Pow2(a + b) == x / Pow2(a) / Pow2(b)
  {
    Pow2Add(a, b);
    DivDiv(x, Pow2(a), Pow2(b));
  }

  /** Set and tag identify the block: two addresses share them exactly when they lie in the same block. */
  lemma SetAndTagNameTheBlock(g: Geometry, x: nat, y: nat)
    requires g.setBits + g.offBits <= 31 && x < WORDS && y < WORDS
    ensures g.SetOf(x) == g.SetOf(y) && g.TagOf(x) == g.TagOf(y) <==> x / g.Block() == y / g.Block()
  {
    BelowWords(x, g.Block(), g.Sets());
    BelowWords(y, g.Block(), g.Sets());
    SameQuotient(Div(x, g.Block()), Div(y, g.Block()), g.Sets());
  }

  lemma SameQuotient(p: nat, q: nat, s: nat)
    requires s > 0
    ensures p / s == q / s && p % s == q % s ==> p == q
  {
  }

  lemma BelowWords(x: nat, b: nat, s: nat)
    requires b > 0 && s > 0 && x < WORDS
    ensures 0 <= x / b / s < WORDS
  {
    var p := Div(x, b);
    var q := Div(p, s);
    assert p <= p * b by { MulMono(p, 1, b); }
    assert q <= q * s by { MulMono(q, 1, s); }
  }
}
