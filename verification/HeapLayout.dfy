/** The block layout of the arena and what each operation of mm.c does to it.
    The C heap keeps the layout only implicitly, as sizes in header words; here it is the sequence
    of regular blocks (those after the prologue) in address order. */
module HeapLayout {
  import opened Options
  import opened HeapWords

  const MAX_HEAP := 20 * 0x10_0000
  const CHUNKSIZE := 0x1000
  const PROLOGUE := 16      // payload address of the prologue block
  const FIRST := 32         // payload address of the first regular block

  /** `at` is the payload address, `size` the whole block with header and footer, `req` what the client asked for. */
  datatype Block = Free(at: nat, size: nat) | Live(at: nat, size: nat, req: nat) {
    function End(): nat { at + size }
    function PayloadEnd(): int { at + size - DSIZE }
    predicate Holds(k: int) { at <= k < PayloadEnd() }
  }

  /** `end` is the number of bytes obtained so far from mem_sbrk, and so the payload address of the epilogue. */
  datatype Arena = Arena(blocks: seq<Block>, end: nat)

  // ----- well-formed layouts -----

  ghost predicate Sized(b: Block) {
    && b.size >= 32 && b.size % 16 == 0
    && (b.Live? ==> 0 < b.req && b.req + 16 <= b.size <= b.req + 47)
  }

  /** The blocks tile [p, e) exactly. */
  ghost predicate Chained(bs: seq<Block>, p: nat, e: nat) {
    if bs == [] then p == e
    else bs[0].at == p && Sized(bs[0]) && Chained(bs[1..], p + bs[0].size, e)
  }

  ghost predicate NoAdjacentFree(bs: seq<Block>) {
    forall i :: 0 < i < |bs| ==> bs[i - 1].Live? || bs[i].Live?
  }

  ghost predicate WellFormed(s: Arena) {
    s.end <= MAX_HEAP && Chained(s.blocks, FIRST, s.end) && NoAdjacentFree(s.blocks)
  }

  function Lives(bs: seq<Block>): set<Block> {
    set b | b in bs && b.Live?
  }

  /** The address of block `i`, where block `|bs|` is the epilogue. */
  function AtOf(bs: seq<Block>, i: nat, e: nat): nat
    requires i <= |bs|
  {
    if i < |bs| then bs[i].at else e
  }

  lemma ChainedOnce(bs: seq<Block>, p: nat, e: nat)
    ensures Chained(bs, p, e) <==> if bs == [] then p == e
      else bs[0].at == p && Sized(bs[0]) && Chained(bs[1..], p + bs[0].size, e)
  {
  }

  lemma {:induction false} ChainedSplit(bs: seq<Block>, p: nat, e: nat, i: nat)
    requires Chained(bs, p, e) && i <= |bs|
    ensures p <= AtOf(bs, i, e) <= e
    ensures Chained(bs[..i], p, AtOf(bs, i, e)) && Chained(bs[i..], AtOf(bs, i, e), e)
  {
    hide Chained, Sized;
    ChainedOnce(bs, p, e);
    ChainedOnce([], p, p);
    assert bs[0..] == bs;
    if bs == [] {
    } else if i == 0 {
      ChainedSplit(bs[1..], p + bs[0].size, e, 0);
    } else {
      ChainedSplit(bs[1..], p + bs[0].size, e, i - 1);
      assert bs[1..][..i - 1] == bs[..i][1..];
      assert bs[1..][i - 1..] == bs[i..];
      ChainedOnce(bs[..i], p, AtOf(bs, i, e));
    }
  }

  lemma SameResidue(p: nat, k: nat)
    requires k % 16 == 0
    ensures (p + k) % 16 == p % 16
  {
    var q, r := k / 16, p / 16;
    assert k == 16 * q && p == 16 * r + p % 16;
    assert p + k == 16 * (q + r) + p % 16;
  }

  lemma {:induction false} ChainedAligned(bs: seq<Block>, p: nat, e: nat, i: nat)
    requires Chained(bs, p, e) && i <= |bs|
    ensures AtOf(bs, i, e) % 16 == p % 16
  {
    hide Chained;
    ChainedOnce(bs, p, e);
    if bs != [] && i > 0 {
      SameResidue(p, bs[0].size);
      ChainedAligned(bs[1..], p + bs[0].size, e, i - 1);
    }
  }

  lemma {:induction false} ChainedJoin(a: seq<Block>, b: seq<Block>, p: nat, q: nat, e: nat)
    requires Chained(a, p, q) && Chained(b, q, e)
    ensures Chained(a + b, p, e)
  {
    if a == [] {
      assert a + b == b;
    } else {
      ChainedJoin(a[1..], b, p + a[0].size, q, e);
      assert (a + b)[1..] == a[1..] + b;
    }
  }

  lemma ChainedOne(b: Block)
    requires Sized(b)
    ensures Chained([b], b.at, b.End())
  {
    assert [b][1..] == [];
  }

  /** Blocks lo..hi may be exchanged for any others that tile the same space. */
  lemma ChainedReplace(bs: seq<Block>, p: nat, e: nat, lo: nat, hi: nat, mid: seq<Block>)
    requires Chained(bs, p, e) && lo <= hi <= |bs|
    requires Chained(mid, AtOf(bs, lo, e), AtOf(bs, hi, e))
    ensures Chained(bs[..lo] + mid + bs[hi..], p, e)
  {
    ChainedSplit(bs, p, e, lo);
    ChainedSplit(bs, p, e, hi);
    ChainedJoin(bs[..lo], mid, p, AtOf(bs, lo, e), AtOf(bs, hi, e));
    ChainedJoin(bs[..lo] + mid, bs[hi..], p, AtOf(bs, hi, e), e);
  }

  lemma ChainedBlock(bs: seq<Block>, p: nat, e: nat, i: nat)
    requires Chained(bs, p, e) && i < |bs|
    ensures p <= bs[i].at && bs[i].at % 16 == p % 16 && Sized(bs[i])
    ensures bs[i].End() == AtOf(bs, i + 1, e) <= e
  {
    hide Sized;
    ChainedAligned(bs, p, e, i);
    ChainedSplit(bs, p, e, i);
    ChainedSplit(bs, p, e, i + 1);
    assert bs[i..][0] == bs[i];
    assert bs[i..][1..] == bs[i + 1..];
    ChainedSplit(bs[i + 1..], bs[i].End(), e, 0);
    if i + 1 < |bs| {
      assert bs[i + 1..][0] == bs[i + 1];
    }
  }

  lemma ChainedOrder(bs: seq<Block>, p: nat, e: nat, i: nat, j: nat)
    requires Chained(bs, p, e) && i < j <= |bs|
    ensures bs[i].End() <= AtOf(bs, j, e)
  {
    ChainedBlock(bs, p, e, i);
    ChainedSplit(bs, p, e, i + 1);
    ChainedSplit(bs[i + 1..], bs[i].End(), e, j - i - 1);
    if j < |bs| {
      assert bs[i + 1..][j - i - 1] == bs[j];
    }
  }

  /** Distinct blocks of a layout, header and footer included, do not overlap. */
  lemma BlocksDisjoint(bs: seq<Block>, p: nat, e: nat)
    requires Chained(bs, p, e)
    ensures forall i, j :: 0 <= i < j < |bs| ==> bs[i].End() <= bs[j].at && bs[i].at < bs[j].at
    ensures forall i :: 0 <= i < |bs| ==> Sized(bs[i]) && p <= bs[i].at && bs[i].End() <= e && bs[i].at % 16 == p % 16
  {
    forall i | 0 <= i < |bs|
      ensures Sized(bs[i]) && p <= bs[i].at && bs[i].End() <= e && bs[i].at % 16 == p % 16
      ensures forall j :: i < j < |bs| ==> bs[i].End() <= bs[j].at && bs[i].at < bs[j].at
    {
      ChainedBlock(bs, p, e, i);
      forall j | i < j < |bs| ensures bs[i].End() <= bs[j].at {
        ChainedOrder(bs, p, e, i, j);
      }
    }
  }

  /** Live payloads are 16-aligned, inside the heap, at least as long as requested, and pairwise disjoint. */
  lemma LivePayloads(s: Arena, b: Block, c: Block)
    requires WellFormed(s) && b in Lives(s.blocks) && c in Lives(s.blocks)
    ensures b.at % 16 == 0 && FIRST <= b.at && b.at + b.req <= b.PayloadEnd() < s.end
    ensures b.req + 16 <= b.size <= b.req + 47
    ensures b != c ==> b.at != c.at && (b.End() <= c.at || c.End() <= b.at)
  {
    BlocksDisjoint(s.blocks, FIRST, s.end);
    var i :| 0 <= i < |s.blocks| && s.blocks[i] == b;
    var j :| 0 <= j < |s.blocks| && s.blocks[j] == c;
  }

  // ----- what each operation does to a layout -----

  /** The lowest-addressed free block of at least `n` bytes; `|bs|` when there is none. */
  function FirstFit(bs: seq<Block>, n: nat): (i: nat)
    ensures i <= |bs|
    ensures i < |bs| ==> bs[i].Free? && bs[i].size >= n
    ensures forall j :: 0 <= j < i ==> bs[j].Live? || bs[j].size < n
  {
    if bs == [] then 0
    else if bs[0].Free? && bs[0].size >= n then 0
    else
      var r := FirstFit(bs[1..], n);
      assert forall j :: 0 < j <= r ==> j < r + 1 ==> bs[j] == bs[1..][j - 1];
      1 + r
  }

  lemma {:induction false} FirstFitIs(bs: seq<Block>, n: nat, i: nat)
    requires i <= |bs|
    requires i < |bs| ==> bs[i].Free? && bs[i].size >= n
    requires forall j :: 0 <= j < i ==> bs[j].Live? || bs[j].size < n
    ensures FirstFit(bs, n) == i
  {
    var k := FirstFit(bs, n);
  }

  /** place: take the front of block `i`, leaving the rest free when it makes a block. */
  function PlaceAt(bs: seq<Block>, i: nat, n: nat, req: nat): seq<Block>
    requires i < |bs| && n <= bs[i].size
  {
    bs[..i] + Placed(bs[i], n, req) + bs[i + 1..]
  }

  function Placed(b: Block, n: nat, req: nat): (r: seq<Block>)
    requires n <= b.size
    ensures |r| > 0
  {
    if b.size - n >= 2 * DSIZE then [Live(b.at, n, req), Free(b.at + n, b.size - n)]
    else [Live(b.at, b.size, req)]
  }

  lemma PlacedShape(b: Block, n: nat, req: nat)
    requires b.Free? && Sized(b) && n <= b.size && 0 < req && req + 31 < TWO64 && n == AdjustedSize(req)
    ensures var mid := Placed(b, n, req);
      && Sized(mid[0]) && mid[0].Live? && mid[0].at == b.at
      && (b.size - n >= 2 * DSIZE ==> |mid| == 2 && Sized(mid[1]) && mid[1].Free? && mid[0].size == n
                                      && mid[0].End() == mid[1].at && mid[1].End() == b.End())
      && (b.size - n < 2 * DSIZE ==> |mid| == 1 && mid[0].size == b.size)
  {
    AdjustedCoversRequest(req);
  }

  lemma PlacedAt(bs: seq<Block>, i: nat, n: nat, req: nat)
    requires i < |bs| && n <= bs[i].size
    ensures exists b :: b in PlaceAt(bs, i, n, req) && b.at == bs[i].at
  {
    assert PlaceAt(bs, i, n, req)[i] == Placed(bs[i], n, req)[0];
  }

  function MergeLo(bs: seq<Block>, i: nat): (lo: nat)
    requires i < |bs|
    ensures lo <= i
  {
    if i > 0 && bs[i - 1].Free? then i - 1 else i
  }

  function MergeHi(bs: seq<Block>, i: nat): (hi: nat)
    requires i < |bs|
    ensures i < hi <= |bs|
  {
    if i + 1 < |bs| && bs[i + 1].Free? then i + 2 else i + 1
  }

  /** coalesce: one free block in place of block `i` and its free neighbours. */
  function MergeAt(bs: seq<Block>, i: nat): seq<Block>
    requires i < |bs|
  {
    var lo, hi := MergeLo(bs, i), MergeHi(bs, i);
    bs[..lo] + [Merged(bs, i)] + bs[hi..]
  }

  function Merged(bs: seq<Block>, i: nat): Block
    requires i < |bs|
  {
    var lo, hi := MergeLo(bs, i), MergeHi(bs, i);
    Free(bs[lo].at, (if lo < i then bs[lo].size else 0) + bs[i].size + (if hi > i + 1 then bs[i + 1].size else 0))
  }

  /** extend_heap by `g` bytes. */
  function Grow(s: Arena, g: nat): Arena {
    Arena(MergeAt(s.blocks + [Free(s.end, g)], |s.blocks|), s.end + g)
  }

  function Max(x: nat, y: nat): nat { if x > y then x else y }

  function Malloc(s: Arena, req: nat): (Arena, Option<nat>) {
    var n := AdjustedSize(req);
    var i := FirstFit(s.blocks, n);
    if req == 0 then (s, None)
    else if i < |s.blocks| then (Arena(PlaceAt(s.blocks, i, n, req), s.end), Some(s.blocks[i].at))
    else if s.end + Max(n, CHUNKSIZE) > MAX_HEAP then (s, None)
    else
      var t := Grow(s, Max(n, CHUNKSIZE));
      var j := |t.blocks| - 1;
      GrownTail(s, Max(n, CHUNKSIZE));
      (Arena(PlaceAt(t.blocks, j, n, req), t.end), Some(t.blocks[j].at))
  }

  /** The three ways mm_malloc serves a nonzero request. */
  lemma MallocCases(s: Arena, req: nat)
    requires req > 0
    ensures var n := AdjustedSize(req);
      var i, g := FirstFit(s.blocks, n), Max(n, CHUNKSIZE);
      && (i < |s.blocks| ==> Malloc(s, req) == (Arena(PlaceAt(s.blocks, i, n, req), s.end), Some(s.blocks[i].at)))
      && (i == |s.blocks| && s.end + g > MAX_HEAP ==> Malloc(s, req) == (s, None))
      && (i == |s.blocks| && s.end + g <= MAX_HEAP ==>
            var t := Grow(s, g);
            && |t.blocks| > 0 && n <= t.blocks[|t.blocks| - 1].size
            && Malloc(s, req) == (Arena(PlaceAt(t.blocks, |t.blocks| - 1, n, req), t.end),
               Some(t.blocks[|t.blocks| - 1].at)))
  {
    GrownTail(s, Max(AdjustedSize(req), CHUNKSIZE));
  }

  /** The index of the first block at address `p`; `|bs|` when there is none. */
  function IndexOf(bs: seq<Block>, p: nat): (i: nat)
    ensures i <= |bs|
    ensures i < |bs| ==> bs[i].at == p
    ensures (exists b :: b in bs && b.at == p) ==> i < |bs|
  {
    if bs == [] then 0 else if bs[0].at == p then 0 else 1 + IndexOf(bs[1..], p)
  }

  function BlockAt(bs: seq<Block>, p: nat): Block
    requires exists b :: b in bs && b.at == p
  {
    bs[IndexOf(bs, p)]
  }

  predicate IsLive(bs: seq<Block>, p: nat) {
    exists b :: b in bs && b.Live? && b.at == p
  }

  function Freed(b: Block): Block { Free(b.at, b.size) }

  function FreeAt(bs: seq<Block>, i: nat): seq<Block>
    requires i < |bs|
  {
    MergeAt(bs[i := Freed(bs[i])], i)
  }

  /** mm_free of the payload address `p`. */
  function Release(s: Arena, p: nat): Arena {
    var i := IndexOf(s.blocks, p);
    if i < |s.blocks| then Arena(FreeAt(s.blocks, i), s.end) else s
  }

  function Realloc(s: Arena, p: nat, req: nat): (Arena, Option<nat>) {
    if req == 0 then (Release(s, p), None)
    else
      var (t, q) := Malloc(s, req);
      if q.None? then (t, None) else (Release(t, p), q)
  }

  /** Growing leaves a free block of at least the new bytes at the end. */
  lemma GrownTail(s: Arena, g: nat)
    ensures var t, bs := Grow(s, g).blocks, s.blocks + [Free(s.end, g)];
      && |t| == MergeLo(bs, |s.blocks|) + 1
      && t[|t| - 1] == Merged(bs, |s.blocks|) && t[|t| - 1].size >= g
  {
  }
}
