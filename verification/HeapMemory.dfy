/** How the bytes of the arena represent a layout: boundary tags, prologue and epilogue. */
module HeapMemory {
  import opened HeapWords
  import opened HeapLayout
  import opened HeapTheorems
  import opened HeapRequests

  function Tag(b: Block): nat { PackWord(b.size, b.Live?) }

  /** Header and footer of `b` both hold its size and allocation bit. */
  ghost predicate Tagged(m: seq<byte>, b: Block) {
    && 8 <= b.at && 16 <= b.size && b.End() <= |m|
    && Word(m, b.at - WSIZE) == Tag(b) && Word(m, b.at + b.size - DSIZE) == Tag(b)
  }

  /** The first `s.end` bytes of `m` are: a pad word, the prologue, the tagged blocks, the epilogue header. */
  ghost predicate Mapped(m: seq<byte>, s: Arena) {
    && FIRST <= s.end <= |m| && Chained(s.blocks, FIRST, s.end)
    && Word(m, 0) == 0 && Word(m, 8) == PackWord(DSIZE, true) && Word(m, 16) == PackWord(DSIZE, true)
    && Word(m, s.end - WSIZE) == PackWord(0, true)
    && forall i :: 0 <= i < |s.blocks| ==> Tagged(m, s.blocks[i])
  }

  ghost predicate PayloadKept(m: seq<byte>, m': seq<byte>, b: Block) {
    forall k :: b.Holds(k) ==> 0 <= k < |m| && 0 <= k < |m'| && m'[k] == m[k]
  }

  /** No byte of a live payload differs. */
  ghost predicate KeepsPayloads(m: seq<byte>, m': seq<byte>, bs: seq<Block>) {
    |m| == |m'| && forall b :: b in bs && b.Live? ==> PayloadKept(m, m', b)
  }

  /** Nothing outside [x, y) differs. */
  ghost predicate OnlyWithin(m: seq<byte>, m': seq<byte>, x: int, y: int) {
    |m| == |m'| && forall k :: 0 <= k < |m| && !(x <= k < y) ==> m'[k] == m[k]
  }

  /** `n` bytes at `src` of `m` are at `dst` of `m'`. */
  ghost predicate Copied(m: seq<byte>, src: int, m': seq<byte>, dst: int, n: int) {
    && 0 <= n && 0 <= src && 0 <= dst && src + n <= |m| && dst + n <= |m'|
    && forall k :: src <= k < src + n ==> m'[k - src + dst] == m[k]
  }

  /** The `n` bytes at `p` are all `value`. */
  ghost predicate AllBytes(m: seq<byte>, p: int, n: int, value: byte) {
    forall k :: p <= k < p + n ==> ByteIs(m, k, value)
  }

  predicate ByteIs(m: seq<byte>, k: int, value: byte) { 0 <= k < |m| && m[k] == value }

  lemma TaggedElsewhere(m: seq<byte>, m': seq<byte>, b: Block, x: int, y: int)
    requires Tagged(m, b) && OnlyWithin(m, m', x, y)
    requires b.size >= 32 && (b.End() - 8 <= x || y <= b.at - 8)
    ensures Tagged(m', b)
  {
    SameWord(m, m', b.at - WSIZE);
    SameWord(m, m', b.at + b.size - DSIZE);
  }

  /** Blocks lo..hi may be retagged as `mid` when nothing outside their space is written. */
  lemma Respan(m: seq<byte>, m': seq<byte>, s: Arena, lo: nat, hi: nat, mid: seq<Block>)
    requires Mapped(m, s) && lo < hi <= |s.blocks|
    requires OnlyWithin(m, m', s.blocks[lo].at - 8, s.blocks[hi - 1].End() - 8)
    requires Chained(mid, s.blocks[lo].at, s.blocks[hi - 1].End())
    requires forall i :: 0 <= i < |mid| ==> Tagged(m', mid[i])
    ensures Mapped(m', Arena(s.blocks[..lo] + mid + s.blocks[hi..], s.end))
    ensures forall j :: 0 <= j < lo || hi <= j < |s.blocks| ==> PayloadKept(m, m', s.blocks[j])
  {
    hide Word, Chained, Tagged;
    var bs := s.blocks;
    ChainedBlock(bs, FIRST, s.end, lo);
    ChainedBlock(bs, FIRST, s.end, hi - 1);
    ChainedReplace(bs, FIRST, s.end, lo, hi, mid);
    SameFrame(m, m', s.end, bs[lo].at - 8, bs[hi - 1].End() - 8);
    OthersKept(m, m', s, lo, hi);
    var r := bs[..lo] + mid + bs[hi..];
    forall j | 0 <= j < |r| ensures Tagged(m', r[j]) {
      if lo <= j < lo + |mid| {
        assert r[j] == mid[j - lo];
      } else if j >= lo + |mid| {
        assert r[j] == bs[j - lo - |mid| + hi];
      }
    }
  }

  lemma SameFrame(m: seq<byte>, m': seq<byte>, e: nat, x: int, y: int)
    requires FIRST <= e <= |m| && OnlyWithin(m, m', x, y) && 24 <= x && y <= e - 8
    ensures Word(m', 0) == Word(m, 0) && Word(m', 8) == Word(m, 8) && Word(m', 16) == Word(m, 16)
    ensures Word(m', e - WSIZE) == Word(m, e - WSIZE)
  {
    SameWord(m, m', 0);
    SameWord(m, m', 8);
    SameWord(m, m', 16);
    SameWord(m, m', e - WSIZE);
  }

  lemma OthersKept(m: seq<byte>, m': seq<byte>, s: Arena, lo: nat, hi: nat)
    requires Mapped(m, s) && lo < hi <= |s.blocks|
    requires OnlyWithin(m, m', s.blocks[lo].at - 8, s.blocks[hi - 1].End() - 8)
    ensures forall j :: 0 <= j < lo || hi <= j < |s.blocks| ==> Tagged(m', s.blocks[j])
    ensures forall j :: 0 <= j < lo || hi <= j < |s.blocks| ==> PayloadKept(m, m', s.blocks[j])
  {
    var bs := s.blocks;
    BlocksDisjoint(bs, FIRST, s.end);
    forall j | 0 <= j < lo || hi <= j < |bs|
      ensures Tagged(m', bs[j])
      ensures PayloadKept(m, m', bs[j])
    {
      assert bs[j].End() <= bs[lo].at || bs[hi - 1].End() <= bs[j].at;
      TaggedElsewhere(m, m', bs[j], bs[lo].at - 8, bs[hi - 1].End() - 8);
    }
  }

  /** Writing header and footer, in either order, tags a block. */
  lemma StoreTags(m: seq<byte>, b: Block, a: int, a': int, v: nat)
    requires 8 <= b.at && 32 <= b.size && b.End() <= |m| && v == Tag(b) < TWO64
    requires (a == b.at - 8 && a' == b.at + b.size - 16) || (a' == b.at - 8 && a == b.at + b.size - 16)
    ensures Tagged(Store(Store(m, a, v), a', v), b)
    ensures OnlyWithin(m, Store(Store(m, a, v), a', v), b.at - 8, b.End() - 8)
  {
    var m1 := Store(m, a, v);
    var m2 := Store(m1, a', v);
    WordOfStore(m, a, v);
    WordOfStore(m1, a', v);
    SameWord(m1, m2, a);
  }

  /** What the helpers of mm.c read off the tags of a block. */
  lemma TagFacts(m: seq<byte>, b: Block)
    requires Tagged(m, b) && Sized(b)
    ensures BlockSize(m, b.at - 8) == BlockSize(m, b.at + b.size - 16) == b.size
    ensures IsAllocated(m, b.at - 8) == IsAllocated(m, b.at + b.size - 16) == b.Live?
    ensures ObtenerFooter(m, b.at) == b.at + b.size - 16 && ProximoBloque(m, b.at) == b.End()
  {
    hide Word, PackWord;
    Unpacked(b.size, b.Live?);
  }

  /** What the address arithmetic of mm.c reads around block `i`; the block before the first is the prologue,
      the one after the last is the epilogue. */
  lemma BlockFacts(m: seq<byte>, s: Arena, i: nat)
    requires Mapped(m, s) && i < |s.blocks|
    ensures var b := s.blocks[i];
      && FIRST <= b.at && b.at % 16 == 0 && Sized(b) && b.End() <= s.end <= |m|
      && BlockSize(m, b.at - 8) == BlockSize(m, b.at + b.size - 16) == b.size
      && IsAllocated(m, b.at - 8) == IsAllocated(m, b.at + b.size - 16) == b.Live?
      && ObtenerFooter(m, b.at) == b.at + b.size - 16
      && ProximoBloque(m, b.at) == AtOf(s.blocks, i + 1, s.end) == b.End()
      && BloqueAnterior(m, b.at) == (if i == 0 then PROLOGUE else s.blocks[i - 1].at)
  {
    hide Word;
    ChainedBlock(s.blocks, FIRST, s.end, i);
    TagFacts(m, s.blocks[i]);
    if i == 0 {
      assert s.blocks[0].at == FIRST;
    } else {
      ChainedBlock(s.blocks, FIRST, s.end, i - 1);
      TagFacts(m, s.blocks[i - 1]);
    }
  }

  lemma KeepsAll(m: seq<byte>, s: Arena)
    requires Mapped(m, s)
    ensures KeepsPayloads(m, m, s.blocks) && FIRST <= s.end <= |m|
  {
  }

  /** An initialised heap is served as it is; one that is not has no payloads to keep. */
  lemma KeepsStart(m: seq<byte>, m0: seq<byte>, m': seq<byte>, bs: seq<Block>, bs0: seq<Block>)
    requires KeepsPayloads(m0, m', bs0) && |m| == |m0|
    requires bs == [] || (m == m0 && bs == bs0)
    ensures KeepsPayloads(m, m', bs)
  {
  }

  lemma MarkedKeeps(m: seq<byte>, m': seq<byte>, bs: seq<Block>, i: nat)
    requires |m| == |m'| && i < |bs|
    requires forall j :: 0 <= j < |bs| && j != i ==> PayloadKept(m, m', bs[j])
    ensures KeepsPayloads(m, m', bs[i := Freed(bs[i])])
  {
  }

  lemma KeepsFewer(m: seq<byte>, m': seq<byte>, bs: seq<Block>, fewer: seq<Block>)
    requires KeepsPayloads(m, m', bs) && Lives(fewer) <= Lives(bs)
    ensures KeepsPayloads(m, m', fewer)
  {
    forall b | b in fewer && b.Live? ensures PayloadKept(m, m', b) {
      assert b in Lives(fewer);
    }
  }

  lemma KeepsTwice(m: seq<byte>, m1: seq<byte>, m2: seq<byte>, bs: seq<Block>, bs1: seq<Block>)
    requires KeepsPayloads(m, m1, bs) && KeepsPayloads(m1, m2, bs1) && Lives(bs) <= Lives(bs1)
    ensures KeepsPayloads(m, m2, bs)
  {
    forall b | b in bs && b.Live? ensures PayloadKept(m, m2, b) {
      assert b in Lives(bs) && b in bs1;
    }
  }

  /** Keeping the payloads of all blocks but a free one keeps those of the live blocks. */
  lemma OthersLive(m: seq<byte>, m': seq<byte>, bs: seq<Block>, i: nat)
    requires |m| == |m'| && i < |bs| && bs[i].Free?
    requires forall j :: 0 <= j < |bs| && j != i ==> PayloadKept(m, m', bs[j])
    ensures KeepsPayloads(m, m', bs)
  {
  }

  /** What coalesce reads around block `i`. */
  lemma NeighbourFacts(m: seq<byte>, s: Arena, i: nat)
    requires Mapped(m, s) && i < |s.blocks|
    ensures var b, bs := s.blocks[i], s.blocks;
      && 16 <= b.at && 32 <= b.size == BlockSize(m, b.at - 8) && b.End() <= |m|
      && ProximoBloque(m, b.at) == b.End() && ObtenerFooter(m, b.at) == b.End() - 16
      && 8 <= BloqueAnterior(m, b.at) <= |m| && 0 <= ObtenerFooter(m, BloqueAnterior(m, b.at)) <= |m| - 8
      && IsAllocated(m, ObtenerFooter(m, BloqueAnterior(m, b.at))) == (i == 0 || bs[i - 1].Live?)
      && IsAllocated(m, b.End() - 8) == (i + 1 == |bs| || bs[i + 1].Live?)
  {
    hide Word, Chained;
    BlockFacts(m, s, i);
    if i > 0 {
      BlockFacts(m, s, i - 1);
    }
    if i + 1 < |s.blocks| {
      BlockFacts(m, s, i + 1);
    }
  }

  lemma PreviousFacts(m: seq<byte>, s: Arena, i: nat)
    requires Mapped(m, s) && 0 < i < |s.blocks|
    ensures var b, c := s.blocks[i], s.blocks[i - 1];
      && 16 <= b.at && BloqueAnterior(m, b.at) == c.at && 32 <= c.at && c.End() == b.at <= |m|
         && BlockSize(m, c.at - 8) == c.size >= 32
  {
    hide Word, Chained;
    BlockFacts(m, s, i);
    BlockFacts(m, s, i - 1);
  }

  lemma NextFacts(m: seq<byte>, s: Arena, i: nat)
    requires Mapped(m, s) && i + 1 < |s.blocks|
    ensures var b, c := s.blocks[i], s.blocks[i + 1];
      && 8 <= b.at && c.at == b.End() && c.End() <= |m| && BlockSize(m, b.End() - 8) == c.size >= 32
      && ObtenerFooter(m, b.End()) == c.End() - 16 && BlockSize(m, c.End() - 16) == c.size
  {
    hide Word, Chained;
    BlockFacts(m, s, i);
    BlockFacts(m, s, i + 1);
  }

  /** The stores of coalesce keep the footer before block `i`, through which the previous block is found. */
  lemma PreviousAfterStore(m: seq<byte>, s: Arena, i: nat, a: int, v: nat)
    requires Mapped(m, s) && 0 < i < |s.blocks|
    requires a == s.blocks[i - 1].at - 8 || s.blocks[i].End() - 16 <= a <= |m| - 8
    ensures 0 <= a <= |m| - 8 && 16 <= s.blocks[i].at <= |m|
    ensures BloqueAnterior(Store(m, a, v), s.blocks[i].at) == s.blocks[i - 1].at
  {
    hide Word, Chained, Store;
    BlockFacts(m, s, i);
    BlockFacts(m, s, i - 1);
    SameTag(m, Store(m, a, v), s.blocks[i].at - 16);
  }

  lemma PreviousAfterStores(m: seq<byte>, s: Arena, i: nat, a: int, a': int, v: nat)
    requires Mapped(m, s) && 0 < i < |s.blocks|
    requires a == s.blocks[i - 1].at - 8 || s.blocks[i].End() - 16 <= a <= |m| - 8
    requires a' == s.blocks[i - 1].at - 8 || s.blocks[i].End() - 16 <= a' <= |m| - 8
    ensures 0 <= a <= |m| - 8 && 0 <= a' <= |m| - 8 && 16 <= s.blocks[i].at <= |m|
    ensures BloqueAnterior(Store(Store(m, a, v), a', v), s.blocks[i].at) == s.blocks[i - 1].at
  {
    hide Word, Chained, Store;
    BlockFacts(m, s, i);
    BlockFacts(m, s, i - 1);
    PreviousAfterStore(m, s, i, a, v);
    SameTag(Store(m, a, v), Store(Store(m, a, v), a', v), s.blocks[i].at - 16);
  }

  /** Rewriting the header of the previous block keeps the header of block `i` and of the one after it. */
  lemma NextAfterStore(m: seq<byte>, s: Arena, i: nat, v: nat)
    requires Mapped(m, s) && 0 < i < |s.blocks| - 1
    ensures 8 <= s.blocks[i - 1].at && s.blocks[i - 1].at <= |m| && 8 <= s.blocks[i].at <= |m|
    ensures var m' := Store(m, s.blocks[i - 1].at - 8, v);
      && ProximoBloque(m', s.blocks[i].at) == s.blocks[i + 1].at <= |m'| && 8 <= s.blocks[i + 1].at
      && ObtenerFooter(m', s.blocks[i + 1].at) == s.blocks[i + 1].End() - 16
  {
    hide Word, Chained, Store;
    BlockFacts(m, s, i - 1);
    BlockFacts(m, s, i);
    BlockFacts(m, s, i + 1);
    SameTag(m, Store(m, s.blocks[i - 1].at - 8, v), s.blocks[i].at - 8);
    SameTag(m, Store(m, s.blocks[i - 1].at - 8, v), s.blocks[i + 1].at - 8);
  }

  /** Tagging the merged block, header and footer in either order, represents the merged layout. */
  lemma MergedMapped(m: seq<byte>, s: Arena, i: nat, a: int, a': int)
    requires Mapped(m, s) && i < |s.blocks| && s.blocks[i].Free? && s.end < TWO64
    requires var b := Merged(s.blocks, i);
      (a == b.at - 8 && a' == b.End() - 16) || (a' == b.at - 8 && a == b.End() - 16)
    ensures var b := Merged(s.blocks, i);
      && 0 <= a <= |m| - 8 && 0 <= a' <= |m| - 8
      && var w := PackWord(b.size, false);
      && Mapped(Store(Store(m, a, w), a', w), Arena(MergeAt(s.blocks, i), s.end))
      && KeepsPayloads(m, Store(Store(m, a, w), a', w), s.blocks)
  {
    hide Word, Store, Chained;
    var b, lo, hi := Merged(s.blocks, i), MergeLo(s.blocks, i), MergeHi(s.blocks, i);
    MergedShape(s, i);
    var m' := Store(Store(m, a, b.size), a', b.size);
    StoreTags(m, b, a, a', b.size);
    ChainedOne(b);
    Respan(m, m', s, lo, hi, [b]);
    forall c | c in s.blocks && c.Live? ensures PayloadKept(m, m', c) {
      var j :| 0 <= j < |s.blocks| && s.blocks[j] == c;
    }
  }

  lemma MergedShape(s: Arena, i: nat)
    requires Chained(s.blocks, FIRST, s.end) && i < |s.blocks| && s.blocks[i].Free?
    ensures var b, lo, hi := Merged(s.blocks, i), MergeLo(s.blocks, i), MergeHi(s.blocks, i);
      && Sized(b) && FIRST <= b.at == s.blocks[lo].at && b.End() == s.blocks[hi - 1].End() <= s.end
  {
    MergedSpan(s.blocks, FIRST, s.end, i);
    ChainedBlock(s.blocks, FIRST, s.end, MergeLo(s.blocks, i));
    ChainedBlock(s.blocks, FIRST, s.end, MergeHi(s.blocks, i) - 1);
    assert [Merged(s.blocks, i)][1..] == [];
  }

  /** The four cases of coalesce. */
  lemma MergedCases(m: seq<byte>, s: Arena, i: nat)
    requires Mapped(m, s) && i < |s.blocks| && s.blocks[i].Free?
    ensures var b, bs := Merged(s.blocks, i), s.blocks;
      var prev, next := i > 0 && bs[i - 1].Free?, i + 1 < |bs| && bs[i + 1].Free?;
      && FIRST <= b.at && 32 <= b.size && b.End() <= s.end && b.Free?
      && b.at == (if prev then bs[i - 1].at else bs[i].at)
      && b.size == bs[i].size + (if prev then bs[i - 1].size else 0) + (if next then bs[i + 1].size else 0)
      && b.End() == (if next then bs[i + 1].End() else bs[i].End())
      && (!prev && !next ==> MergeAt(bs, i) == bs)
  {
    hide Chained, MergeAt;
    MergedShape(s, i);
    MergeAlone(s.blocks, i);
  }

  lemma MergeAlone(bs: seq<Block>, i: nat)
    requires i < |bs| && bs[i].Free?
    ensures !(i > 0 && bs[i - 1].Free?) && !(i + 1 < |bs| && bs[i + 1].Free?) ==> MergeAt(bs, i) == bs
  {
    assert bs == bs[..i] + [bs[i]] + bs[i + 1..];
  }

  lemma LiveBlockFacts(m: seq<byte>, s: Arena, b: Block)
    requires Mapped(m, s) && b in s.blocks
    ensures FIRST <= b.at && Sized(b) && b.End() <= s.end <= |m| && BlockSize(m, b.at - 8) == b.size
  {
    var i :| 0 <= i < |s.blocks| && s.blocks[i] == b;
    BlockFacts(m, s, i);
  }

  /** Adding a free block over the old epilogue and a new epilogue behind it. */
  lemma ExtendMapped(m: seq<byte>, s: Arena, g: nat)
    requires Mapped(m, s) && 32 <= g < TWO64 && g % 16 == 0 && s.end + g <= |m|
    ensures var m' := Store(Store(Store(m, s.end - 8, PackWord(g, false)), s.end + g - 16, PackWord(g, false)),
        s.end + g - 8, PackWord(0, true));
      && Mapped(m', Arena(s.blocks + [Free(s.end, g)], s.end + g))
      && KeepsPayloads(m, m', s.blocks)
  {
    hide Word, Store, Chained;
    var b := Free(s.end, g);
    var m2 := Store(Store(m, s.end - 8, PackWord(g, false)), s.end + g - 16, PackWord(g, false));
    var m' := Store(m2, s.end + g - 8, PackWord(0, true));
    StoreTags(m, b, s.end - 8, s.end + g - 16, g);
    WordOfStore(m2, s.end + g - 8, PackWord(0, true));
    assert OnlyWithin(m2, m', s.end + g - 8, s.end + g);
    TaggedElsewhere(m2, m', b, s.end + g - 8, s.end + g);
    assert OnlyWithin(m, m', s.end - 8, s.end + g);
    ChainedOne(b);
    ChainedJoin(s.blocks, [b], FIRST, s.end, s.end + g);
    SameWord(m, m', 0);
    SameWord(m, m', 8);
    SameWord(m, m', 16);
    BlocksDisjoint(s.blocks, FIRST, s.end);
    forall i | 0 <= i < |s.blocks|
      ensures Tagged(m', s.blocks[i]) && PayloadKept(m, m', s.blocks[i])
    {
      TaggedElsewhere(m, m', s.blocks[i], s.end - 8, s.end + g);
    }
  }

  /** Coalescing the new free block (m1 to m2) completes the growth. */
  lemma JoinedTail(m: seq<byte>, m1: seq<byte>, m2: seq<byte>, s: Arena, g: nat)
    requires WellFormed(s) && g >= 32 && g % 16 == 0 && s.end + g <= MAX_HEAP
    requires KeepsPayloads(m, m1, s.blocks) && KeepsPayloads(m1, m2, s.blocks + [Free(s.end, g)])
    ensures KeepsPayloads(m, m2, s.blocks)
    ensures var bs, t := s.blocks + [Free(s.end, g)], Grow(s, g);
      && t == Arena(MergeAt(bs, |s.blocks|), s.end + g) && WellFormed(t)
      && |t.blocks| > 0 && t.blocks[|t.blocks| - 1] in t.blocks && t.blocks[|t.blocks| - 1] == Merged(bs, |s.blocks|)
  {
    hide WellFormed, KeepsPayloads, MergeAt, Merged, Lives;
    GrownTail(s, g);
    GrowKeeps(s, g);
    LivesJoin(s.blocks, [Free(s.end, g)]);
    KeepsTwice(m, m1, m2, s.blocks, s.blocks + [Free(s.end, g)]);
  }

  /** The header of a new block leads to its footer, also when that is outside the arena. */
  lemma GrownHeader(m: seq<byte>, e: nat, g: nat)
    requires 8 <= e <= |m| && g % 16 == 0 && g < TWO64
    ensures ObtenerFooter(Store(m, e - 8, PackWord(g, false)), e) == e + g - 16
  {
    hide Word, Store, BlockSize, PackWord;
    SixteenBelow(g);
    TagOfStore(m, e - 8, g, false);
  }

  lemma SixteenBelow(g: nat)
    requires g % 16 == 0 && g < TWO64
    ensures g + 1 < TWO64
  {
  }

  /** The header of a grown block is readable before its new epilogue is written. */
  lemma ExtendFacts(m: seq<byte>, e: nat, g: nat)
    requires 8 <= e && 32 <= g < TWO64 && g % 16 == 0 && e + g <= |m|
    ensures var m1 := Store(m, e - 8, PackWord(g, false));
      ProximoBloque(Store(m1, e + g - 16, PackWord(g, false)), e) == e + g
  {
    hide Word, Store, BlockSize, PackWord;
    SixteenBelow(g);
    TagOfStore(m, e - 8, g, false);
    var m1 := Store(m, e - 8, PackWord(g, false));
    SameTag(m1, Store(m1, e + g - 16, PackWord(g, false)), e - 8);
  }

  /** The words mm_init writes represent the empty layout. */
  lemma InitialMapped(m: seq<byte>)
    requires |m| >= FIRST
    ensures var w := PackWord(DSIZE, true);
      Mapped(Store(Store(Store(Store(m, 0, 0), 8, w), 16, w), 24, PackWord(0, true)), Arena([], FIRST))
  {
    hide Word, Store;
    var m1 := Store(m, 0, 0);
    var m2 := Store(m1, 8, PackWord(DSIZE, true));
    var m3 := Store(m2, 16, PackWord(DSIZE, true));
    var m4 := Store(m3, 24, PackWord(0, true));
    WordOfStore(m, 0, 0);
    WordOfStore(m1, 8, PackWord(DSIZE, true));
    WordOfStore(m2, 16, PackWord(DSIZE, true));
    WordOfStore(m3, 24, PackWord(0, true));
    SameWord(m1, m4, 0);
    SameWord(m2, m4, 8);
    SameWord(m3, m4, 16);
  }

  // ----- place and free -----

  /** Once the header of `b` is written, its footer is found. */
  lemma AfterHeader(m: seq<byte>, b: Block)
    requires Sized(b) && 8 <= b.at && b.End() <= |m| < TWO64
    ensures Tag(b) < TWO64
    ensures ObtenerFooter(Store(m, b.at - 8, Tag(b)), b.at) == b.End() - 16
  {
    hide Word, Store, PackWord, BlockSize;
    TagOfStore(m, b.at - 8, b.size, b.Live?);
  }

  /** Writing header and footer of block `i` with the same size and another allocation bit. */
  lemma RetagMapped(m: seq<byte>, s: Arena, i: nat, b: Block)
    requires Mapped(m, s) && i < |s.blocks| && |m| < TWO64
    requires Sized(b) && b.at == s.blocks[i].at && b.size == s.blocks[i].size
    ensures b.at - 8 >= 0 && b.End() <= |m|
    ensures var m' := Store(Store(m, b.at - 8, Tag(b)), b.End() - 16, Tag(b));
      && Mapped(m', Arena(s.blocks[..i] + [b] + s.blocks[i + 1..], s.end))
      && (forall j :: 0 <= j < |s.blocks| && j != i ==> PayloadKept(m, m', s.blocks[j]))
  {
    hide Word, Store, Chained, Tag, BlockSize;
    BlockFacts(m, s, i);
    AfterHeader(m, b);
    StoreTags(m, b, b.at - 8, b.End() - 16, Tag(b));
    ChainedOne(b);
    Respan(m, Store(Store(m, b.at - 8, Tag(b)), b.End() - 16, Tag(b)), s, i, i + 1, [b]);
  }

  /** The memory after place takes `n` bytes of the free block of `size` bytes at `at`. */
  function PlaceStores(m: seq<byte>, at: nat, size: nat, n: nat): (r: seq<byte>)
    requires 16 <= at && 32 <= size && at + size <= |m| && n <= size
    ensures |r| == |m|
  {
    if size - n >= 2 * DSIZE then
      var m2 := Store(Store(m, at - 8, PackWord(n, true)), at + n - 16, PackWord(n, true));
      Store(Store(m2, at + n - 8, PackWord(size - n, false)), at + size - 16, PackWord(size - n, false))
    else Store(Store(m, at - 8, PackWord(size, true)), at + size - 16, PackWord(size, true))
  }

  lemma Difference16(a: nat, b: nat)
    requires b <= a && a % 16 == 0 == b % 16
    ensures (a - b) % 16 == 0
  {
  }

  /** Where the tags it writes itself send the stores of place, and the size that ends up in the header. */
  lemma PlaceSteps(m: seq<byte>, b: Block, n: nat)
    requires 16 <= b.at && 32 <= b.size && b.End() <= |m| < TWO64 && n <= b.size && n % 16 == 0 == b.size % 16
    ensures var split := b.size - n >= 2 * DSIZE;
      var k := if split then n else b.size;
      var m1 := Store(m, b.at - 8, PackWord(k, true));
      var m2 := Store(m1, b.at + k - 16, PackWord(k, true));
      && ObtenerFooter(m1, b.at) == b.at + k - 16
      && (split ==> ProximoBloque(m2, b.at) == b.at + n
                    && ObtenerFooter(Store(m2, b.at + n - 8, PackWord(b.size - n, false)), b.at + n) == b.End() - 16)
    ensures BlockSize(PlaceStores(m, b.at, b.size, n), b.at - 8) == TakenSize(b, n)
  {
    hide Word, Store, PackWord, BlockSize;
    var split := b.size - n >= 2 * DSIZE;
    var k := if split then n else b.size;
    var w := PackWord(k, true);
    var m1 := Store(m, b.at - 8, w);
    var m2 := Store(m1, b.at + k - 16, w);
    TagOfStore(m, b.at - 8, k, true);
    SameTag(m1, m2, b.at - 8);
    if split {
      var v := PackWord(b.size - n, false);
      var m3 := Store(m2, b.at + n - 8, v);
      Difference16(b.size, n);
      TagOfStore(m2, b.at + n - 8, b.size - n, false);
      SameTag(m3, Store(m3, b.End() - 16, v), b.at - 8);
      if n > 0 {
        SameTag(m2, m3, b.at - 8);
      }
    }
  }

  /** The four stores of place when it splits block `i` into `b` and `c`. */
  lemma SplitMapped(m: seq<byte>, s: Arena, i: nat, b: Block, c: Block)
    requires Mapped(m, s) && i < |s.blocks| && |m| < TWO64
    requires Sized(b) && Sized(c) && b.at == s.blocks[i].at && b.End() == c.at && c.End() == s.blocks[i].End()
    ensures 8 <= b.at && c.End() <= |m|
    ensures var m2 := Store(Store(m, b.at - 8, Tag(b)), b.End() - 16, Tag(b));
      var m4 := Store(Store(m2, c.at - 8, Tag(c)), c.End() - 16, Tag(c));
      && Mapped(m4, Arena(s.blocks[..i] + [b, c] + s.blocks[i + 1..], s.end))
      && (forall j :: 0 <= j < |s.blocks| && j != i ==> PayloadKept(m, m4, s.blocks[j]))
  {
    hide Word, Store, Chained, Tag, BlockSize;
    BlockFacts(m, s, i);
    AfterHeader(m, b);
    AfterHeader(m, c);
    var m2 := Store(Store(m, b.at - 8, Tag(b)), b.End() - 16, Tag(b));
    var m4 := Store(Store(m2, c.at - 8, Tag(c)), c.End() - 16, Tag(c));
    StoreTags(m, b, b.at - 8, b.End() - 16, Tag(b));
    StoreTags(m2, c, c.at - 8, c.End() - 16, Tag(c));
    TaggedElsewhere(m2, m4, b, c.at - 8, c.End() - 8);
    ChainedOne(b);
    ChainedOne(c);
    ChainedJoin([b], [c], b.at, c.at, c.End());
    assert [b] + [c] == [b, c];
    Respan(m, m4, s, i, i + 1, [b, c]);
  }

  /** The stores of place, with or without a split, represent the layout with the front of block `i` taken. */
  lemma PlaceMapped(m: seq<byte>, s: Arena, i: nat, n: nat, req: nat)
    requires Mapped(m, s) && i < |s.blocks| && |m| < TWO64 && s.blocks[i].Free?
    requires 0 < req && req + 31 < TWO64 && n == AdjustedSize(req) <= s.blocks[i].size
    ensures var b := s.blocks[i]; 16 <= b.at && 32 <= b.size && b.End() <= |m|
    ensures var m' := PlaceStores(m, s.blocks[i].at, s.blocks[i].size, n);
      Mapped(m', Arena(PlaceAt(s.blocks, i, n, req), s.end)) && KeepsPayloads(m, m', s.blocks)
  {
    hide Word, Store, Chained, BlockSize, AdjustedSize, PackWord, KeepsPayloads, Mapped;
    BlockFacts(m, s, i);
    PlacedShape(s.blocks[i], n, req);
    var b, mid := s.blocks[i], Placed(s.blocks[i], n, req);
    if b.size - n >= 2 * DSIZE {
      SplitMapped(m, s, i, mid[0], mid[1]);
    } else {
      RetagMapped(m, s, i, mid[0]);
    }
    OthersLive(m, PlaceStores(m, b.at, b.size, n), s.blocks, i);
  }

  /** Writing inside the payload of one block leaves the representation, and every other payload, alone. */
  lemma PayloadWrites(m: seq<byte>, m': seq<byte>, s: Arena, b: Block)
    requires Mapped(m, s) && b in s.blocks && OnlyWithin(m, m', b.at, b.PayloadEnd())
    ensures Mapped(m', s)
    ensures forall c :: c in s.blocks && c != b ==> PayloadKept(m, m', c)
  {
    hide Word, Chained;
    var i :| 0 <= i < |s.blocks| && s.blocks[i] == b;
    ChainedBlock(s.blocks, FIRST, s.end, i);
    SameWord(m, m', b.at - 8);
    SameWord(m, m', b.at + b.size - 16);
    assert Tagged(m', b);
    ChainedOne(b);
    assert OnlyWithin(m, m', b.at - 8, b.End() - 8);
    Respan(m, m', s, i, i + 1, [b]);
    assert s.blocks[..i] + [b] + s.blocks[i + 1..] == s.blocks;
  }

  // ----- the search of find_fit -----

  /** The payload address of the prologue (i == -1), of block `i`, or of the epilogue. */
  function ScanAt(bs: seq<Block>, i: int, e: nat): nat
    requires -1 <= i <= |bs|
  {
    if i == -1 then PROLOGUE else AtOf(bs, i, e)
  }

  lemma ScanFacts(m: seq<byte>, s: Arena, i: int)
    requires Mapped(m, s) && -1 <= i <= |s.blocks|
    ensures var p := ScanAt(s.blocks, i, s.end);
      && 8 <= p <= |m|
      && IsAllocated(m, p - 8) == (0 <= i < |s.blocks| ==> s.blocks[i].Live?)
      && BlockSize(m, p - 8) == (if i == -1 then DSIZE else if i == |s.blocks| then 0 else s.blocks[i].size)
      && (0 <= i < |s.blocks| ==> s.blocks[i].size >= 32)
      && (i < |s.blocks| ==>
            0 <= ObtenerFooter(m, p) <= |m| - 8 && ProximoBloque(m, p) == ScanAt(s.blocks, i + 1, s.end))
  {
    hide Word;
    if 0 <= i < |s.blocks| {
      BlockFacts(m, s, i);
    }
  }

  // ----- check_heap -----

  /** The lines check_heap prints for the block at `line` (mm.c lines 284-303). */
  function Complaints(m: seq<byte>, line: int): nat
    requires 8 <= line <= |m| && 0 <= ObtenerFooter(m, line) <= |m| - 8
  {
    var h, f := ObtenerHeader(line), ObtenerFooter(m, line);
    var aligned := line % DSIZE == 0;
    var sameSize := BlockSize(m, h) == BlockSize(m, f);
    var sameBit := IsAllocated(m, h) == (Word(m, f) % 2 == 1);
    (if aligned && sameSize && sameBit then 0 else 1)
    + (if aligned then 0 else 1) + (if sameSize then 0 else 2) + (if sameBit then 0 else 2)
  }

  /** check_heap prints nothing exactly for an aligned block whose header and footer agree in size and in lowest bit;
      the other three flag bits may differ. */
  lemma SilentIff(m: seq<byte>, line: int)
    requires 8 <= line <= |m| && 0 <= ObtenerFooter(m, line) <= |m| - 8
    ensures var h, f := Word(m, line - 8), Word(m, line + Word(m, line - 8) / 16 * 16 - 16);
      Complaints(m, line) == 0 <==> line % 16 == 0 && h / 16 == f / 16 && h % 2 == f % 2
  {
    hide Word;
  }

  /** Header and footer of every block hold its size, plus one when it is live; the prologue's words are 17,
      the epilogue's is 1. */
  lemma TagWords(m: seq<byte>, s: Arena, b: Block)
    requires Mapped(m, s) && b in s.blocks
    ensures 8 <= b.at && 32 <= b.size && b.at + b.size - 16 <= |m| - 8 && s.end <= |m|
    ensures Word(m, b.at - 8) == Word(m, b.at + b.size - 16) == b.size + if b.Live? then 1 else 0
    ensures Word(m, 8) == 17 == Word(m, 16) && Word(m, s.end - 8) == 1
  {
    hide Word, Chained, PackWord;
    var i :| 0 <= i < |s.blocks| && s.blocks[i] == b;
    ChainedBlock(s.blocks, FIRST, s.end, i);
    TagIs(b.size, b.Live?);
    assert Tagged(m, s.blocks[i]);
    TagIs(DSIZE, true);
    TagIs(0, true);
  }

  lemma TagIs(size: nat, alloc: bool)
    requires size % 16 == 0
    ensures PackWord(size, alloc) == size + if alloc then 1 else 0
  {
    var q := size / 16;
    assert size == 2 * (8 * q);
    Parity(8 * q);
  }

  /** check_heap has nothing to say about any block of a represented layout, or about the prologue. */
  lemma NoComplaints(m: seq<byte>, s: Arena, line: int)
    requires Mapped(m, s) && (line == PROLOGUE || exists b :: b in s.blocks && b.at == line)
    ensures 8 <= line <= |m| && 0 <= ObtenerFooter(m, line) <= |m| - 8
    ensures Complaints(m, line) == 0
  {
    hide Word, Chained;
    if line != PROLOGUE {
      var i :| 0 <= i < |s.blocks| && s.blocks[i].at == line;
      BlockFacts(m, s, i);
    }
  }
}
