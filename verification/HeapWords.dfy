/** Bytes, 64-bit little-endian words, and the header/footer helpers of mm.c (lines 32-80).
    Memory is the sequence of bytes of the arena; an address is an offset from its first byte. */
module HeapWords {
  type byte = x: int | 0 <= x < 256

  const WSIZE := 8
  const DSIZE := 16
  const TWO32 := 0x1_0000_0000
  const TWO64 := 0x1_0000_0000_0000_0000

  function Value(s: seq<byte>): nat {
    if s == [] then 0 else s[0] + 256 * Value(s[1..])
  }

  function Bytes(v: nat, n: nat): (s: seq<byte>)
    ensures |s| == n
  {
    if n == 0 then [] else [v % 256] + Bytes(v / 256, n - 1)
  }

  function Pow256(n: nat): nat {
    if n == 0 then 1 else 256 * Pow256(n - 1)
  }

  lemma {:induction false} ValueOfBytes(v: nat, n: nat)
    requires v < Pow256(n)
    ensures Value(Bytes(v, n)) == v
  {
    if n > 0 {
      ValueOfBytes(v / 256, n - 1);
      assert Bytes(v, n)[1..] == Bytes(v / 256, n - 1);
    }
  }

  function Word(m: seq<byte>, a: int): nat
    requires 0 <= a <= |m| - 8
  {
    Value(m[a..a + 8])
  }

  /** The memory after the 8-byte store of `v` at `a`. */
  function Store(m: seq<byte>, a: int, v: nat): (r: seq<byte>)
    requires 0 <= a <= |m| - 8
    ensures |r| == |m|
    ensures forall k :: 0 <= k < |m| && !(a <= k < a + 8) ==> r[k] == m[k]
  {
    m[..a] + Bytes(v, 8) + m[a + 8..]
  }

  lemma WordOfStore(m: seq<byte>, a: int, v: nat)
    requires 0 <= a <= |m| - 8 && v < TWO64
    ensures Word(Store(m, a, v), a) == v
  {
    assert Store(m, a, v)[a..a + 8] == Bytes(v, 8);
    assert Pow256(8) == TWO64 by { assert Pow256(4) == TWO32; }
    ValueOfBytes(v, 8);
  }

  lemma SameWord(m: seq<byte>, m': seq<byte>, a: int)
    requires |m| == |m'| && 0 <= a <= |m| - 8
    requires forall k :: a <= k < a + 8 ==> m[k] == m'[k]
    ensures Word(m, a) == Word(m', a)
  {
    assert m[a..a + 8] == m'[a..a + 8];
  }

  // ----- the helpers of mm.c -----

  /** `size | alloc`, for an allocation bit. */
  function PackWord(size: nat, alloc: bool): (w: nat) {
    if alloc && size % 2 == 0 then size + 1 else size
  }

  /** `word & ~0xF` */
  function BlockSize(m: seq<byte>, p: int): (n: nat)
    requires 0 <= p <= |m| - 8
    ensures n % 16 == 0
  {
    Word(m, p) - Word(m, p) % 16
  }

  predicate IsAllocated(m: seq<byte>, p: int)
    requires 0 <= p <= |m| - 8
  {
    Word(m, p) % 2 == 1
  }

  lemma SameTag(m: seq<byte>, m': seq<byte>, a: int)
    requires |m| == |m'| && 0 <= a <= |m| - 8
    requires forall k :: a <= k < a + 8 ==> m[k] == m'[k]
    ensures BlockSize(m', a) == BlockSize(m, a) && IsAllocated(m', a) == IsAllocated(m, a)
  {
    SameWord(m, m', a);
  }

  /** Size and allocation bit can be read back from a word. */
  lemma Unpacked(size: nat, alloc: bool)
    requires size % 16 == 0
    ensures var w := PackWord(size, alloc); w - w % 16 == size && (w % 2 == 1) == alloc && w <= size + 1
  {
    var q := size / 16;
    assert size == 16 * q;
    Parity(8 * q);
    Sixteenth(q);
  }

  lemma Parity(h: nat)
    ensures (2 * h) % 2 == 0 && (2 * h + 1) % 2 == 1
  {
  }

  lemma Sixteenth(q: nat)
    ensures (16 * q) % 16 == 0 && (16 * q + 1) % 16 == 1
  {
  }

  lemma TagOfStore(m: seq<byte>, a: int, size: nat, alloc: bool)
    requires 0 <= a <= |m| - 8 && size % 16 == 0 && size + 1 < TWO64
    ensures PackWord(size, alloc) < TWO64
    ensures BlockSize(Store(m, a, PackWord(size, alloc)), a) == size
  {
    hide Word, Store, PackWord;
    Unpacked(size, alloc);
    WordOfStore(m, a, PackWord(size, alloc));
  }

  function ObtenerHeader(block: int): int { block - WSIZE }

  function ObtenerFooter(m: seq<byte>, block: int): int
    requires 8 <= block <= |m|
  {
    block + BlockSize(m, ObtenerHeader(block)) - DSIZE
  }

  function ProximoBloque(m: seq<byte>, block: int): int
    requires 8 <= block <= |m|
  {
    block + BlockSize(m, block - WSIZE)
  }

  function BloqueAnterior(m: seq<byte>, block: int): int
    requires 16 <= block <= |m| + 8
  {
    block - BlockSize(m, block - DSIZE)
  }

  /** What the uint64_t argument of `mem_sbrk(int)` becomes: its low 32 bits, read as signed. */
  function ToInt32(v: nat): int {
    var low := v % TWO32;
    if low < 0x8000_0000 then low else low - TWO32
  }

  /** The block size that mm_malloc computes (mm.c lines 208-212), in uint64_t arithmetic. */
  function AdjustedSize(size: nat): (n: nat)
    ensures n % 16 == 0
  {
    if size <= DSIZE then 2 * DSIZE
    else DSIZE * (((size + DSIZE + (DSIZE - 1)) % TWO64) / DSIZE)
  }

  /** Sizes handed to extend_heap as words are not rounded there. */
  lemma EvenWords(g: nat)
    requires g % 16 == 0
    ensures (g / WSIZE + g / WSIZE % 2) * WSIZE == g
  {
    var q := g / 16;
    assert g == WSIZE * (2 * q);
    assert g / WSIZE == 2 * q;
    Parity(q);
  }

  /** The block computed for a request is large enough exactly when `size + 31` does not wrap. */
  lemma AdjustedCoversRequest(size: nat)
    requires 0 < size < TWO64
    ensures size + 16 <= AdjustedSize(size) <==> size + 31 < TWO64
    ensures size + 31 < TWO64 ==> 32 <= AdjustedSize(size) <= size + 31
  {
  }
}
