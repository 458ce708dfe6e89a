/** What every operation keeps of a well-formed layout, and what runs of operations add up to. */
module HeapTheorems {
  import opened HeapWords
  import opened HeapLayout

  // ----- splices -----

  lemma LivesJoin(a: seq<Block>, b: seq<Block>)
    ensures Lives(a + b) == Lives(a) + Lives(b)
  {
  }

  lemma LivesReplace(bs: seq<Block>, lo: nat, hi: nat, mid: seq<Block>)
    requires lo <= hi <= |bs|
    ensures Lives(bs) == Lives(bs[..lo]) + Lives(bs[lo..hi]) + Lives(bs[hi..])
    ensures Lives(bs[..lo] + mid + bs[hi..]) == Lives(bs[..lo]) + Lives(mid) + Lives(bs[hi..])
  {
    assert bs == bs[..lo] + bs[lo..hi] + bs[hi..];
    LivesJoin(bs[..lo], bs[lo..hi]);
    LivesJoin(bs[..lo] + bs[lo..hi], bs[hi..]);
    LivesJoin(bs[..lo], mid);
    LivesJoin(bs[..lo] + mid, bs[hi..]);
  }

  // ----- malloc -----

  ghost predicate Fits(bs: seq<Block>, n: nat) {
    exists b :: b in bs && b.Free? && b.size >= n
  }

  lemma PlacedSpan(b: Block, n: nat, req: nat)
    requires b.Free? && Sized(b) && n <= b.size && 0 < req && req + 31 < TWO64 && n == AdjustedSize(req)
    ensures var mid := Placed(b, n, req);
      && 1 <= |mid| <= 2 && mid[0].Live? && Chained(mid, b.at, b.End()) && Lives(mid) == {mid[0]}
  {
    hide Chained, AdjustedSize;
    PlacedShape(b, n, req);
    var mid := Placed(b, n, req);
    ChainedOne(mid[0]);
    if |mid| == 2 {
      ChainedOne(mid[1]);
      ChainedJoin([mid[0]], [mid[1]], b.at, mid[1].at, b.End());
      assert mid == [mid[0]] + [mid[1]];
    }
  }

  /** A block of the computed size fits somewhere, or the arena can grow by it. */
  ghost predicate Grantable(s: Arena, req: nat) {
    Fits(s.blocks, AdjustedSize(req)) || s.end + Max(AdjustedSize(req), CHUNKSIZE) <= MAX_HEAP
  }

  lemma PlaceKeeps(s: Arena, i: nat, n: nat, req: nat)
    requires WellFormed(s) && i < |s.blocks| && s.blocks[i].Free? && s.blocks[i].size >= n
    requires 0 < req && req + 31 < TWO64 && n == AdjustedSize(req)
    ensures WellFormed(Arena(PlaceAt(s.blocks, i, n, req), s.end))
    ensures Placed(s.blocks[i], n, req)[0].Live?
    ensures Lives(PlaceAt(s.blocks, i, n, req)) == Lives(s.blocks) + {Placed(s.blocks[i], n, req)[0]}
  {
    hide Chained, NoAdjacentFree, Lives, AdjustedSize, Placed;
    var bs, mid := s.blocks, Placed(s.blocks[i], n, req);
    ChainedBlock(bs, FIRST, s.end, i);
    PlacedSpan(bs[i], n, req);
    ChainedReplace(bs, FIRST, s.end, i, i + 1, mid);
    LivesReplace(bs, i, i + 1, mid);
    NoLives(bs[i..i + 1]);
    PlaceSeparates(bs, i, mid);
  }

  lemma PlaceSeparates(bs: seq<Block>, i: nat, mid: seq<Block>)
    requires NoAdjacentFree(bs) && i < |bs| && bs[i].Free? && 1 <= |mid| <= 2 && mid[0].Live?
    ensures NoAdjacentFree(bs[..i] + mid + bs[i + 1..])
  {
    var r := bs[..i] + mid + bs[i + 1..];
    forall k | 0 < k < |r| ensures r[k - 1].Live? || r[k].Live? {
      if k < i {
        assert r[k - 1] == bs[k - 1] && r[k] == bs[k];
      } else if k == i + |mid| {
        assert r[k] == bs[i + 1];
      } else if k > i + |mid| {
        var j := k - |mid| + 1;
        assert r[k - 1] == bs[j - 1] && r[k] == bs[j];
      }
    }
  }

  /** Coalescing block `i` repairs a layout with no adjacent free blocks but around `i`, and touches no live block. */
  lemma MergeKeeps(bs: seq<Block>, e: nat, i: nat)
    requires Chained(bs, FIRST, e) && i < |bs| && bs[i].Free?
    requires NoAdjacentFree(bs[..i]) && NoAdjacentFree(bs[i + 1..])
    ensures Chained(MergeAt(bs, i), FIRST, e) && NoAdjacentFree(MergeAt(bs, i))
    ensures Lives(MergeAt(bs, i)) == Lives(bs)
  {
    hide Chained, NoAdjacentFree, Lives, Merged, MergeLo, MergeHi;
    var lo, hi, b := MergeLo(bs, i), MergeHi(bs, i), Merged(bs, i);
    MergedSpan(bs, FIRST, e, i);
    ChainedReplace(bs, FIRST, e, lo, hi, [b]);
    LivesReplace(bs, lo, hi, [b]);
    MergedAreFree(bs, i);
    NoLives(bs[lo..hi]);
    NoLives([b]);
    MergeSeparates(bs, i);
  }

  lemma MergedAreFree(bs: seq<Block>, i: nat)
    requires i < |bs| && bs[i].Free?
    ensures Merged(bs, i).Free? && forall b :: b in bs[MergeLo(bs, i)..MergeHi(bs, i)] ==> b.Free?
  {
  }

  lemma NoLives(bs: seq<Block>)
    requires forall b :: b in bs ==> b.Free?
    ensures Lives(bs) == {}
  {
  }

  lemma MergeSeparates(bs: seq<Block>, i: nat)
    requires i < |bs| && bs[i].Free? && NoAdjacentFree(bs[..i]) && NoAdjacentFree(bs[i + 1..])
    ensures NoAdjacentFree(MergeAt(bs, i))
  {
    hide Merged;
    var lo, hi := MergeLo(bs, i), MergeHi(bs, i);
    var r := MergeAt(bs, i);
    forall k | 0 < k < |r| ensures r[k - 1].Live? || r[k].Live? {
      if k < lo {
        assert r[k - 1] == bs[..i][k - 1] && r[k] == bs[..i][k];
      } else if k == lo {
        if lo < i {
          assert bs[..i][lo - 1] == bs[lo - 1] && bs[..i][lo] == bs[lo];
        }
      } else if k == lo + 1 {
        assert r[k] == bs[hi];
        assert hi == i + 2 ==> bs[i + 1..][0].Live? || bs[i + 1..][1].Live?;
      } else {
        var j := k - lo - 1 + hi - (i + 1);
        assert r[k - 1] == bs[i + 1..][j - 1] && r[k] == bs[i + 1..][j];
      }
    }
  }

  lemma Multiples16(a: nat, b: nat)
    requires a % 16 == 0 && b % 16 == 0
    ensures (a + b) % 16 == 0
  {
  }

  /** The merged block covers exactly the blocks it replaces. */
  lemma MergedSpan(bs: seq<Block>, p: nat, e: nat, i: nat)
    requires Chained(bs, p, e) && i < |bs| && bs[i].Free?
    ensures var lo, hi := MergeLo(bs, i), MergeHi(bs, i);
      Chained([Merged(bs, i)], AtOf(bs, lo, e), AtOf(bs, hi, e))
  {
    ChainedBlock(bs, p, e, i);
    if i > 0 { ChainedBlock(bs, p, e, i - 1); }
    if i + 1 < |bs| { ChainedBlock(bs, p, e, i + 1); }
    var lo, hi, b := MergeLo(bs, i), MergeHi(bs, i), Merged(bs, i);
    assert b.End() == AtOf(bs, hi, e);
    assert Sized(b) by {
      Multiples16(if lo < i then bs[lo].size else 0, bs[i].size);
      Multiples16((if lo < i then bs[lo].size else 0) + bs[i].size, if hi > i + 1 then bs[i + 1].size else 0);
    }
    ChainedOne(b);
  }

  lemma GrowKeeps(s: Arena, g: nat)
    requires WellFormed(s) && g >= 32 && g % 16 == 0 && s.end + g <= MAX_HEAP
    ensures WellFormed(Grow(s, g)) && Lives(Grow(s, g).blocks) == Lives(s.blocks)
  {
    var bs := s.blocks + [Free(s.end, g)];
    assert Chained([Free(s.end, g)], s.end, s.end + g);
    ChainedJoin(s.blocks, [Free(s.end, g)], FIRST, s.end, s.end + g);
    assert bs[..|s.blocks|] == s.blocks && bs[|s.blocks| + 1..] == [];
    MergeKeeps(bs, s.end + g, |s.blocks|);
    LivesJoin(s.blocks, [Free(s.end, g)]);
  }

  ghost predicate NoneFree(bs: seq<Block>) { forall b :: b in bs ==> b.Live? }

  /** A size that wraps is rounded to 0 or 16 bytes, which every free block has. */
  lemma WrappedSize(s: Arena, req: nat)
    requires Chained(s.blocks, FIRST, s.end) && req < TWO64 <= req + 31
    ensures AdjustedSize(req) <= 16
    ensures FirstFit(s.blocks, AdjustedSize(req)) == |s.blocks| <==> NoneFree(s.blocks)
  {
    var n := AdjustedSize(req);
    BlocksDisjoint(s.blocks, FIRST, s.end);
    var i := FirstFit(s.blocks, n);
    if i < |s.blocks| {
      assert s.blocks[i] in s.blocks;
    }
  }

  /** The size is not harmed by rounding: it does not wrap, or no block is free and the arena cannot grow. */
  ghost predicate RoundsSafely(s: Arena, req: nat) {
    req + 31 < TWO64 || (NoneFree(s.blocks) && s.end + CHUNKSIZE > MAX_HEAP)
  }

  /** A size that wraps is then refused. */
  lemma WrappedRefused(s: Arena, req: nat)
    requires WellFormed(s) && req < TWO64 <= req + 31 && RoundsSafely(s, req)
    ensures Malloc(s, req).0 == s && Malloc(s, req).1.None? && !Fits(s.blocks, AdjustedSize(req))
    ensures Max(AdjustedSize(req), CHUNKSIZE) == CHUNKSIZE
  {
    hide AdjustedSize, FirstFit;
    WrappedSize(s, req);
  }

  /** mm_malloc fails exactly when the size is 0, or nothing fits and the arena cannot grow; then nothing changes.
      Otherwise exactly one live block is added, at the returned address, and no live block is moved or resized. */
  lemma MallocKeeps(s: Arena, req: nat)
    requires WellFormed(s) && req < TWO64 && RoundsSafely(s, req)
    ensures var (t, p) := Malloc(s, req); var n := AdjustedSize(req);
      && WellFormed(t) && s.end <= t.end
      && (p.None? <==> req == 0 || (!Fits(s.blocks, n) && s.end + Max(n, CHUNKSIZE) > MAX_HEAP))
      && (p.None? ==> t == s)
      && (p.Some? ==> var b := NewBlock(s, req);
                      && b.Live? && b.at == p.value && b.req == req && b !in Lives(s.blocks)
                      && Lives(t.blocks) == Lives(s.blocks) + {b})
  {
    if req + 31 < TWO64 {
      RoundedMallocKeeps(s, req);
    } else {
      WrappedRefused(s, req);
    }
  }

  lemma RoundedMallocKeeps(s: Arena, req: nat)
    requires WellFormed(s) && req + 31 < TWO64
    ensures var (t, p) := Malloc(s, req); var n := AdjustedSize(req);
      && WellFormed(t) && s.end <= t.end
      && (p.None? <==> req == 0 || (!Fits(s.blocks, n) && s.end + Max(n, CHUNKSIZE) > MAX_HEAP))
      && (p.None? ==> t == s)
      && (p.Some? ==> var b := NewBlock(s, req);
                      && b.Live? && b.at == p.value && b.req == req && b !in Lives(s.blocks)
                      && Lives(t.blocks) == Lives(s.blocks) + {b})
  {
    hide AdjustedSize;
    var (t, p) := Malloc(s, req);
    var n := AdjustedSize(req);
    var i := FirstFit(s.blocks, n);
    if req != 0 {
      AdjustedCoversRequest(req);
      if i < |s.blocks| {
        PlaceKeeps(s, i, n, req);
        assert Fits(s.blocks, n) by { assert s.blocks[i] in s.blocks; }
        NewBlockIsNew(s, i, Placed(s.blocks[i], n, req)[0]);
      } else if p.Some? {
        var g := Max(n, CHUNKSIZE);
        GrowKeeps(s, g);
        GrownTail(s, g);
        var u := Grow(s, g);
        PlaceKeeps(u, |u.blocks| - 1, n, req);
        NewBlockIsNew(u, |u.blocks| - 1, Placed(u.blocks[|u.blocks| - 1], n, req)[0]);
      }
    }
  }

  /** The block a successful malloc creates. */
  function NewBlock(s: Arena, req: nat): Block
    requires Malloc(s, req).1.Some?
  {
    var n := AdjustedSize(req);
    var i := FirstFit(s.blocks, n);
    if i < |s.blocks| then Placed(s.blocks[i], n, req)[0]
    else
      var t := Grow(s, Max(n, CHUNKSIZE)).blocks;
      GrownTail(s, Max(n, CHUNKSIZE));
      Placed(t[|t| - 1], n, req)[0]
  }

  lemma NewBlockIsNew(s: Arena, i: nat, b: Block)
    requires WellFormed(s) && i < |s.blocks| && s.blocks[i].Free? && b.at == s.blocks[i].at && b.Live?
    ensures b !in Lives(s.blocks)
  {
    BlocksDisjoint(s.blocks, FIRST, s.end);
  }

  // ----- where malloc puts a block -----

  /** `at` is the lowest address of a free block of at least `n` bytes. */
  ghost predicate LowestFit(bs: seq<Block>, n: nat, at: nat) {
    && (exists b :: b in bs && b.Free? && b.size >= n && b.at == at)
    && (forall b :: b in bs && b.Free? && b.size >= n ==> at <= b.at)
  }

  /** The address from which the arena is free up to its end. */
  function FreeTail(s: Arena): nat {
    if s.blocks != [] && s.blocks[|s.blocks| - 1].Free? then s.blocks[|s.blocks| - 1].at else s.end
  }

  ghost predicate NoFreeAt(bs: seq<Block>, at: nat) { forall b :: b in bs && b.Free? ==> b.at != at }

  /** A taken block has the computed size, or 16 bytes more when those could not have been a block. */
  lemma PlacedSize(s: Arena, i: nat, n: nat, req: nat)
    requires WellFormed(s) && i < |s.blocks| && s.blocks[i].Free? && s.blocks[i].size >= n && n % 16 == 0
    ensures var b := Placed(s.blocks[i], n, req)[0];
      b.size == n || (b.size == n + 16 && NoFreeAt(PlaceAt(s.blocks, i, n, req), b.End()))
  {
    var bs, f := s.blocks, s.blocks[i];
    BlocksDisjoint(bs, FIRST, s.end);
    if f.size - n < 2 * DSIZE {
      SixteenLeft(f.size, n);
      var t := PlaceAt(bs, i, n, req);
      assert i + 1 < |bs| ==> bs[i].Live? || bs[i + 1].Live?;
      assert forall j :: i + 1 < j < |bs| ==> f.End() <= bs[i + 1].at < bs[j].at;
      forall b | b in t && b.Free? ensures b.at != f.End() {
        var j :| 0 <= j < |t| && t[j] == b;
        assert j < i ==> b == bs[j];
        assert j > i ==> b == bs[j];
      }
    }
  }

  lemma SixteenLeft(a: nat, n: nat)
    requires n <= a < n + 32 && a % 16 == 0 == n % 16
    ensures a == n || a == n + 16
  {
    var x, y := a / 16, n / 16;
    assert a == 16 * x && n == 16 * y;
  }

  lemma FirstFitLowest(s: Arena, n: nat)
    requires WellFormed(s)
    ensures var i := FirstFit(s.blocks, n);
      && (i < |s.blocks| <==> Fits(s.blocks, n))
      && (i < |s.blocks| ==> LowestFit(s.blocks, n, s.blocks[i].at))
  {
    var bs, i := s.blocks, FirstFit(s.blocks, n);
    BlocksDisjoint(bs, FIRST, s.end);
    if i < |bs| {
      assert bs[i] in bs;
      forall b | b in bs && b.Free? && b.size >= n ensures bs[i].at <= b.at {
        var j :| 0 <= j < |bs| && bs[j] == b;
        assert j >= i;
      }
    }
  }

  lemma TailOfGrown(s: Arena, g: nat)
    ensures var t := Grow(s, g).blocks; |t| > 0 && t[|t| - 1].Free? && t[|t| - 1].at == FreeTail(s)
  {
    GrownTail(s, g);
    var bs := s.blocks + [Free(s.end, g)];
    assert s.blocks != [] ==> bs[|s.blocks| - 1] == s.blocks[|s.blocks| - 1];
  }

  /** A granted block is in the lowest free block it fits, and then the arena does not grow; else it is at the free end
      of the arena, which grows by the computed size, and by 4096 at least. */
  lemma MallocPlaces(s: Arena, req: nat)
    requires WellFormed(s) && req < TWO64 && RoundsSafely(s, req) && Malloc(s, req).1.Some?
    ensures var (t, p) := Malloc(s, req);
      var n, b := AdjustedSize(req), NewBlock(s, req);
      && (if Fits(s.blocks, n) then LowestFit(s.blocks, n, p.value) && t.end == s.end
          else p.value == FreeTail(s) && t.end == s.end + Max(n, CHUNKSIZE))
      && (b.size == n || (b.size == n + 16 && NoFreeAt(t.blocks, b.End())))
  {
    hide AdjustedSize, FirstFit, WellFormed, Malloc, PlaceAt, MergeAt, Merged, Fits, LowestFit, NoFreeAt, FreeTail,
      Placed;
    var n := AdjustedSize(req);
    var i, g := FirstFit(s.blocks, n), Max(n, CHUNKSIZE);
    if req + 31 >= TWO64 { WrappedRefused(s, req); }
    assert req > 0 by { NothingForZero(s); }
    AdjustedCoversRequest(req);
    MallocCases(s, req);
    FirstFitLowest(s, n);
    if i < |s.blocks| {
      PlacedSize(s, i, n, req);
    } else {
      GrowKeeps(s, g);
      GrownTail(s, g);
      TailOfGrown(s, g);
      PlacedSize(Grow(s, g), |Grow(s, g).blocks| - 1, n, req);
    }
  }

  // ----- free -----

  lemma IndexOfLive(s: Arena, b: Block)
    requires WellFormed(s) && b in Lives(s.blocks)
    ensures IndexOf(s.blocks, b.at) < |s.blocks| && s.blocks[IndexOf(s.blocks, b.at)] == b
  {
    BlocksDisjoint(s.blocks, FIRST, s.end);
  }

  lemma LiveIndex(s: Arena, p: nat) returns (i: nat, b: Block)
    requires WellFormed(s) && IsLive(s.blocks, p)
    ensures i == IndexOf(s.blocks, p) < |s.blocks| && s.blocks[i] == b && b.Live? && b.at == p
    ensures b in s.blocks && b in Lives(s.blocks) && BlockAt(s.blocks, p) == b
  {
    b :| b in s.blocks && b.Live? && b.at == p;
    assert b in Lives(s.blocks);
    IndexOfLive(s, b);
    i := IndexOf(s.blocks, p);
  }

  lemma NoAdjacentFreeSlice(bs: seq<Block>, lo: nat, hi: nat)
    requires NoAdjacentFree(bs) && lo <= hi <= |bs|
    ensures NoAdjacentFree(bs[lo..hi])
  {
    var r := bs[lo..hi];
    forall k | 0 < k < |r| ensures r[k - 1].Live? || r[k].Live? {
      assert r[k - 1] == bs[lo + k - 1] && r[k] == bs[lo + k];
    }
  }

  lemma LiveOnce(s: Arena, i: nat)
    requires WellFormed(s) && i < |s.blocks| && s.blocks[i].Live?
    ensures s.blocks[i] !in Lives(s.blocks[..i]) && s.blocks[i] !in Lives(s.blocks[i + 1..])
    ensures Lives(s.blocks[i..i + 1]) == {s.blocks[i]} && Lives([Freed(s.blocks[i])]) == {}
  {
    BlocksDisjoint(s.blocks, FIRST, s.end);
    assert s.blocks[i..i + 1] == [s.blocks[i]];
  }

  /** Marking block `i` free leaves a tiling with no adjacent free blocks on either side of it. */
  lemma MarkKeeps(s: Arena, i: nat)
    requires WellFormed(s) && i < |s.blocks| && s.blocks[i].Live?
    ensures var m := s.blocks[i := Freed(s.blocks[i])];
      && Chained(m, FIRST, s.end) && NoAdjacentFree(m[..i]) && NoAdjacentFree(m[i + 1..])
      && Lives(m) == Lives(s.blocks) - {s.blocks[i]}
  {
    hide Chained, NoAdjacentFree, Lives;
    var bs := s.blocks;
    var m := bs[i := Freed(bs[i])];
    assert m == bs[..i] + [Freed(bs[i])] + bs[i + 1..];
    assert m[..i] == bs[0..i] && m[i + 1..] == bs[i + 1..|bs|];
    ChainedBlock(bs, FIRST, s.end, i);
    ChainedOne(Freed(bs[i]));
    ChainedReplace(bs, FIRST, s.end, i, i + 1, [Freed(bs[i])]);
    NoAdjacentFreeSlice(bs, 0, i);
    NoAdjacentFreeSlice(bs, i + 1, |bs|);
    LivesReplace(bs, i, i + 1, [Freed(bs[i])]);
    LiveOnce(s, i);
  }

  /** mm_free removes exactly the freed block from the live blocks and keeps the layout well formed. */
  lemma ReleaseKeeps(s: Arena, b: Block)
    requires WellFormed(s) && b in Lives(s.blocks)
    ensures WellFormed(Release(s, b.at)) && Release(s, b.at).end == s.end
    ensures Lives(Release(s, b.at).blocks) == Lives(s.blocks) - {b}
  {
    var i := IndexOf(s.blocks, b.at);
    IndexOfLive(s, b);
    MarkKeeps(s, i);
    MergeKeeps(s.blocks[i := Freed(b)], s.end, i);
  }

  /** mm_realloc keeps the layout well formed. To size 0 it frees the block; when it fails nothing changes; on success
      it exchanges the old block for one of the new size, which did not overlap it. */
  lemma ReallocKeeps(s: Arena, b: Block, req: nat)
    requires WellFormed(s) && b in Lives(s.blocks) && req < TWO64 && RoundsSafely(s, req)
    ensures var (t, p) := Realloc(s, b.at, req);
      && WellFormed(t) && s.end <= t.end
      && (req == 0 ==> p.None? && t.end == s.end && Lives(t.blocks) == Lives(s.blocks) - {b})
      && (p.Some? <==> req > 0 && Grantable(s, req))
      && (req > 0 && p.None? ==> t == s)
      && (p.Some? ==>
            t.end == if Fits(s.blocks, AdjustedSize(req)) then s.end else s.end + Max(AdjustedSize(req), CHUNKSIZE))
      && (p.Some? ==> var c := NewBlock(s, req);
                      && c.Live? && c.at == p.value && c.req == req && c !in Lives(s.blocks)
                      && (b.End() <= c.at || c.End() <= b.at)
                      && Lives(t.blocks) == Lives(s.blocks) - {b} + {c})
  {
    if req == 0 {
      ReleaseKeeps(s, b);
    } else {
      MallocKeeps(s, req);
      var (u, p) := Malloc(s, req);
      if p.Some? {
        MallocPlaces(s, req);
        LivePayloads(u, b, NewBlock(s, req));
        ReleaseKeeps(u, b);
      }
    }
  }

  /** A resize of a live block is granted exactly when its new size is not 0 and a new block can be had. */
  lemma ReallocGranted(s: Arena, p: nat, req: nat)
    requires WellFormed(s) && IsLive(s.blocks, p) && req < TWO64 && RoundsSafely(s, req)
    ensures Realloc(s, p, req).1.Some? <==> req > 0 && Grantable(s, req)
  {
    hide WellFormed, Realloc, Grantable, RoundsSafely, IsLive;
    var i, b := LiveIndex(s, p);
    ReallocKeeps(s, b, req);
  }

  // ----- coalescing is global normalisation -----

  function Glue(b: Block, r: seq<Block>): seq<Block> {
    if b.Free? && r != [] && r[0].Free? then [Free(b.at, b.size + r[0].size)] + r[1..] else [b] + r
  }

  /** An independent account of coalescing: merge every maximal run of free blocks, over the whole layout. */
  function Normalize(bs: seq<Block>): seq<Block> {
    if bs == [] then [] else Glue(bs[0], Normalize(bs[1..]))
  }

  function Mark(bs: seq<Block>, p: nat): seq<Block> {
    if bs == [] then [] else [MarkBlock(bs[0], p)] + Mark(bs[1..], p)
  }

  lemma NoAdjacentFreeTail(bs: seq<Block>)
    requires NoAdjacentFree(bs) && bs != []
    ensures NoAdjacentFree(bs[1..])
  {
    var t := bs[1..];
    forall i | 0 < i < |t| ensures t[i - 1].Live? || t[i].Live? {
      assert t[i - 1] == bs[i] && t[i] == bs[i + 1];
    }
  }

  lemma {:induction false} NormalizeFixed(bs: seq<Block>)
    requires NoAdjacentFree(bs)
    ensures Normalize(bs) == bs
  {
    if bs != [] {
      NoAdjacentFreeTail(bs);
      NormalizeFixed(bs[1..]);
      assert |bs| > 1 ==> bs[0].Live? || bs[1].Live?;
      assert bs == [bs[0]] + bs[1..];
    }
  }

  /** The four cases of coalesce together are one step of normalisation. */
  lemma {:induction false} MergeIsNormalize(bs: seq<Block>, i: nat)
    requires i < |bs| && bs[i].Free? && NoAdjacentFree(bs[..i]) && NoAdjacentFree(bs[i + 1..])
    ensures MergeAt(bs, i) == Normalize(bs)
    decreases i
  {
    var t := bs[1..];
    if i == 0 {
      NormalizeFixed(t);
    } else {
      assert bs[..i][1..] == t[..i - 1] && bs[i + 1..] == t[i..];
      NoAdjacentFreeTail(bs[..i]);
      MergeIsNormalize(t, i - 1);
      MergeOfCons(bs, i);
    }
  }

  lemma MergeOfCons(bs: seq<Block>, i: nat)
    requires 0 < i < |bs| && bs[i].Free? && NoAdjacentFree(bs[..i])
    ensures MergeAt(bs, i) == Glue(bs[0], MergeAt(bs[1..], i - 1))
  {
    if i == 1 {
      MergeOfSecond(bs);
    } else {
      assert bs[..i][0].Live? || bs[..i][1].Live?;
      MergeOfLater(bs, i);
    }
  }

  lemma GlueCons(b: Block, f: Block, r: seq<Block>)
    ensures Glue(b, [f] + r) == if b.Free? && f.Free? then [Free(b.at, b.size + f.size)] + r else [b] + ([f] + r)
  {
  }

  lemma MergedOfSecond(bs: seq<Block>)
    requires |bs| > 1 && bs[1].Free?
    ensures MergeLo(bs, 1) == (if bs[0].Free? then 0 else 1) && MergeLo(bs[1..], 0) == 0
    ensures MergeHi(bs, 1) == 1 + MergeHi(bs[1..], 0) && Merged(bs[1..], 0).Free?
    ensures Merged(bs, 1) == if bs[0].Free? then Free(bs[0].at, bs[0].size + Merged(bs[1..], 0).size)
      else Merged(bs[1..], 0)
  {
  }

  lemma MergeOfSecond(bs: seq<Block>)
    requires |bs| > 1 && bs[1].Free?
    ensures MergeAt(bs, 1) == Glue(bs[0], MergeAt(bs[1..], 0))
  {
    hide Merged, MergeLo, MergeHi, Glue;
    var t := bs[1..];
    MergedOfSecond(bs);
    var f, r := Merged(t, 0), t[MergeHi(t, 0)..];
    assert bs[MergeHi(bs, 1)..] == r;
    assert t[..0] == [] && bs[..0] == [] && bs[..1] == [bs[0]];
    assert MergeAt(t, 0) == [f] + r;
    GlueCons(bs[0], f, r);
    assert [bs[0]] + [f] + r == [bs[0]] + ([f] + r);
  }

  lemma MergeOfLater(bs: seq<Block>, i: nat)
    requires 1 < i < |bs| && bs[i].Free? && (bs[0].Live? || bs[1].Live?)
    ensures MergeAt(bs, i) == Glue(bs[0], MergeAt(bs[1..], i - 1))
  {
    hide Merged, Glue;
    var t := bs[1..];
    MergedOfCons(bs, i);
    var lo, r := MergeLo(t, i - 1), MergeAt(t, i - 1);
    assert bs[MergeHi(bs, i)..] == t[MergeHi(t, i - 1)..];
    assert bs[..MergeLo(bs, i)] == [bs[0]] + t[..lo];
    assert MergeAt(bs, i) == [bs[0]] + r;
    assert bs[0].Live? || r[0].Live?;
    NotGlued(bs[0], r);
  }

  lemma MergedOfCons(bs: seq<Block>, i: nat)
    requires 1 < i < |bs|
    ensures MergeLo(bs, i) == 1 + MergeLo(bs[1..], i - 1) && MergeHi(bs, i) == 1 + MergeHi(bs[1..], i - 1)
    ensures Merged(bs, i) == Merged(bs[1..], i - 1)
  {
  }

  lemma NotGlued(b: Block, r: seq<Block>)
    requires r != [] && (b.Live? || r[0].Live?)
    ensures Glue(b, r) == [b] + r
  {
  }

  lemma {:induction false} MarkIsUpdate(bs: seq<Block>, i: nat)
    requires i < |bs| && bs[i].Live?
    requires forall j :: 0 <= j < |bs| && j != i ==> bs[j].at != bs[i].at
    ensures Mark(bs, bs[i].at) == bs[i := Freed(bs[i])]
  {
    if i == 0 {
      MarkAbsent(bs[1..], bs[0].at);
    } else {
      MarkIsUpdate(bs[1..], i - 1);
    }
  }

  lemma {:induction false} MarkAbsent(bs: seq<Block>, p: nat)
    requires forall j :: 0 <= j < |bs| ==> bs[j].at != p
    ensures Mark(bs, p) == bs
  {
    if bs != [] { MarkAbsent(bs[1..], p); }
  }

  /** mm_free, with its local four-case coalescing, gives the global normal form of the marked layout. */
  lemma ReleaseIsNormalize(s: Arena, b: Block)
    requires WellFormed(s) && b in Lives(s.blocks)
    ensures Release(s, b.at).blocks == Normalize(Mark(s.blocks, b.at))
  {
    var i := IndexOf(s.blocks, b.at);
    IndexOfLive(s, b);
    MarkKeeps(s, i);
    BlocksDisjoint(s.blocks, FIRST, s.end);
    MarkIsUpdate(s.blocks, i);
    MergeIsNormalize(s.blocks[i := Freed(b)], i);
  }

  function MarkBlock(b: Block, p: nat): Block { if b.Live? && b.at == p then Freed(b) else b }

  lemma NormalizeCons(b: Block, r: seq<Block>, q: nat)
    ensures Normalize([b] + r) == Glue(b, Normalize(r)) && Mark([b] + r, q) == [MarkBlock(b, q)] + Mark(r, q)
  {
    assert ([b] + r)[1..] == r;
  }

  lemma GlueTwice(b: Block, f: Block, r: seq<Block>)
    requires b.Free? && f.Free?
    ensures Glue(b, Glue(f, r)) == Glue(Free(b.at, b.size + f.size), r)
  {
  }

  lemma {:induction false} NormalizeAbsorbs(bs: seq<Block>, q: nat)
    ensures Normalize(Mark(Normalize(bs), q)) == Normalize(Mark(bs, q))
  {
    hide Normalize, Mark;
    if bs == [] {
      NormalizeNone(q);
    } else {
      var b, r := bs[0], bs[1..];
      var n := Normalize(r);
      NormalizeAbsorbs(r, q);
      assert bs == [b] + r;
      NormalizeCons(b, r, q);
      NormalizeCons(MarkBlock(b, q), Mark(r, q), q);
      if b.Free? && n != [] && n[0].Free? {
        var g := Free(b.at, b.size + n[0].size);
        assert n == [n[0]] + n[1..];
        NormalizeCons(n[0], n[1..], q);
        NormalizeCons(n[0], Mark(n[1..], q), q);
        NormalizeCons(g, n[1..], q);
        NormalizeCons(g, Mark(n[1..], q), q);
        GlueTwice(b, n[0], Normalize(Mark(n[1..], q)));
      } else {
        NormalizeCons(b, n, q);
        NormalizeCons(MarkBlock(b, q), Mark(n, q), q);
      }
    }
  }

  lemma NormalizeNone(q: nat)
    ensures Normalize([]) == [] && Mark([], q) == []
  {
  }

  /** mm_free of the addresses `ps`, in that order. */
  function ReleaseAll(s: Arena, ps: seq<nat>): Arena {
    if ps == [] then s else Release(ReleaseAll(s, ps[..|ps| - 1]), ps[|ps| - 1])
  }

  function MarkAll(bs: seq<Block>, ps: set<nat>): seq<Block> {
    if bs == [] then [] else [if bs[0].Live? && bs[0].at in ps then Freed(bs[0]) else bs[0]] + MarkAll(bs[1..], ps)
  }

  lemma {:induction false} MarkNone(bs: seq<Block>)
    ensures MarkAll(bs, {}) == bs
  {
    if bs != [] { MarkNone(bs[1..]); }
  }

  lemma {:induction false} MarkMore(bs: seq<Block>, ps: set<nat>, p: nat)
    ensures Mark(MarkAll(bs, ps), p) == MarkAll(bs, ps + {p})
  {
    if bs != [] {
      MarkMore(bs[1..], ps, p);
      assert MarkAll(bs, ps)[1..] == MarkAll(bs[1..], ps);
    }
  }

  function Addresses(ps: seq<nat>): set<nat> { set p | p in ps }

  /** `ps` are addresses of live blocks, each once. */
  ghost predicate Freeable(s: Arena, ps: seq<nat>) {
    && (forall p :: p in ps ==> IsLive(s.blocks, p))
    && (forall i, j :: 0 <= i < j < |ps| ==> ps[i] != ps[j])
  }

  ghost predicate Survives(s: Arena, ps: seq<nat>, b: Block) { b in Lives(s.blocks) && b.at !in ps }

  /** Freeing any live blocks, one after the other, is one global normalisation of the heap with all of them marked. */
  lemma {:induction false} ReleaseAllIsNormalize(s: Arena, ps: seq<nat>)
    requires WellFormed(s) && Freeable(s, ps)
    ensures var t := ReleaseAll(s, ps);
      && WellFormed(t) && t.end == s.end && (forall b :: b in Lives(t.blocks) <==> Survives(s, ps, b))
      && t.blocks == Normalize(MarkAll(s.blocks, Addresses(ps)))
  {
    hide WellFormed, Lives, Release, Normalize, Mark, MarkAll;
    if ps == [] {
      MarkNone(s.blocks);
      assert Addresses(ps) == {};
      assert NoAdjacentFree(s.blocks) by { Separated(s); }
      NormalizeFixed(s.blocks);
    } else {
      var init, p := ps[..|ps| - 1], ps[|ps| - 1];
      assert ps == init + [p];
      ReleaseAllIsNormalize(s, init);
      var t := ReleaseAll(s, init);
      var i, b := LiveIndex(s, p);
      assert Survives(s, init, b);
      ReleaseKeeps(t, b);
      ReleaseIsNormalize(t, b);
      NormalizeAbsorbs(MarkAll(s.blocks, Addresses(init)), p);
      MarkMore(s.blocks, Addresses(init), p);
      assert Addresses(ps) == Addresses(init) + {p};
      forall c | c in Lives(s.blocks) && c.at == p ensures c == b { OneAtAddress(s, b, c); }
    }
  }

  lemma Separated(s: Arena)
    requires WellFormed(s)
    ensures NoAdjacentFree(s.blocks)
  {
  }

  lemma OneAtAddress(s: Arena, b: Block, c: Block)
    requires WellFormed(s) && b in Lives(s.blocks) && c in Lives(s.blocks) && b.at == c.at
    ensures b == c
  {
    IndexOfLive(s, b);
    IndexOfLive(s, c);
  }

  /** Freeing the same live blocks in any two orders leaves the same heap. */
  lemma FreeOrderIrrelevant(s: Arena, ps: seq<nat>, qs: seq<nat>)
    requires WellFormed(s) && Freeable(s, ps) && Freeable(s, qs) && Addresses(ps) == Addresses(qs)
    ensures ReleaseAll(s, ps) == ReleaseAll(s, qs)
  {
    ReleaseAllIsNormalize(s, ps);
    ReleaseAllIsNormalize(s, qs);
  }

  // ----- whole runs -----

  lemma NothingLive(bs: seq<Block>)
    requires Lives(bs) == {}
    ensures forall i :: 0 <= i < |bs| ==> bs[i].Free?
  {
    assert forall b :: b in bs && b.Live? ==> b in Lives(bs);
  }

  /** When nothing is live, one free block of all but the 32 bytes of prologue and epilogue is left. */
  lemma AllFreed(s: Arena)
    requires WellFormed(s) && Lives(s.blocks) == {} && s.end > FIRST
    ensures s.blocks == [Free(FIRST, s.end - 32)]
  {
    var bs := s.blocks;
    assert |bs| <= 1 || bs[0].Live? || bs[1].Live?;
    NothingLive(bs);
    assert bs == [bs[0]] && bs[0] in bs;
    ChainedBlock(bs, FIRST, s.end, 0);
  }

  function SizeSum(bs: seq<Block>): nat {
    if bs == [] then 0 else bs[0].size + SizeSum(bs[1..])
  }

  /** The block sizes add up to the heap without its pad word, prologue and epilogue. */
  lemma {:induction false} SizesAddUp(bs: seq<Block>, p: nat, e: nat)
    requires Chained(bs, p, e)
    ensures SizeSum(bs) == e - p
  {
    if bs != [] { SizesAddUp(bs[1..], p + bs[0].size, e); }
  }

  /** Freeing the block a malloc just returned gives back the old layout, or, when the heap was extended,
      the old layout with the new space merged into its free tail. */
  lemma MallocThenFree(s: Arena, req: nat)
    requires WellFormed(s) && req < TWO64 && RoundsSafely(s, req) && Malloc(s, req).1.Some?
    ensures var (t, p) := Malloc(s, req);
      && Release(t, p.value) == (if t.end == s.end then s else Grow(s, Max(AdjustedSize(req), CHUNKSIZE)))
      && (Release(t, p.value) == s <==> t.end == s.end)
  {
    hide AdjustedSize, FirstFit, WellFormed, Malloc, Release, PlaceAt, MergeAt, Merged;
    var n := AdjustedSize(req);
    var i, g := FirstFit(s.blocks, n), Max(n, CHUNKSIZE);
    if req + 31 >= TWO64 { WrappedRefused(s, req); }
    assert req > 0 by { NothingForZero(s); }
    AdjustedCoversRequest(req);
    MallocCases(s, req);
    if i < |s.blocks| {
      PlaceThenFree(s, i, n, req);
    } else {
      GrowKeeps(s, g);
      GrownTail(s, g);
      MergedIsFree(s.blocks + [Free(s.end, g)], |s.blocks|);
      PlaceThenFree(Grow(s, g), |Grow(s, g).blocks| - 1, n, req);
    }
  }

  lemma NothingForZero(s: Arena)
    ensures Malloc(s, 0).1.None?
  {
  }

  lemma MergedIsFree(bs: seq<Block>, i: nat)
    requires i < |bs|
    ensures Merged(bs, i).Free?
  {
  }

  lemma PlaceThenFree(s: Arena, i: nat, n: nat, req: nat)
    requires WellFormed(s) && i < |s.blocks| && s.blocks[i].Free? && s.blocks[i].size >= n
    requires 0 < req && req + 31 < TWO64 && n == AdjustedSize(req)
    ensures Release(Arena(PlaceAt(s.blocks, i, n, req), s.end), s.blocks[i].at) == s
  {
    hide Chained, NoAdjacentFree, AdjustedSize, Lives, MergeAt;
    var bs, u := s.blocks, PlaceAt(s.blocks, i, n, req);
    var mid := Placed(bs[i], n, req);
    PlaceKeeps(s, i, n, req);
    assert u[i] == mid[0];
    IndexIs(Arena(u, s.end), i);
    Spliced(bs, i, mid, Freed(mid[0]));
    MergeBack(bs, i, [Freed(mid[0])] + mid[1..]);
  }

  lemma IndexIs(s: Arena, i: nat)
    requires WellFormed(s) && i < |s.blocks|
    ensures IndexOf(s.blocks, s.blocks[i].at) == i
  {
    BlocksDisjoint(s.blocks, FIRST, s.end);
    assert s.blocks[i] in s.blocks;
  }

  lemma Spliced(bs: seq<Block>, i: nat, mid: seq<Block>, x: Block)
    requires i < |bs| && mid != []
    ensures (bs[..i] + mid + bs[i + 1..])[i := x] == bs[..i] + ([x] + mid[1..]) + bs[i + 1..]
  {
  }

  /** Coalescing the pieces of a split free block whose neighbours are live restores it. */
  lemma MergeBack(bs: seq<Block>, i: nat, mid: seq<Block>)
    requires i < |bs| && bs[i].Free? && NoAdjacentFree(bs)
    requires mid == [bs[i]] || (|mid| == 2 && mid[0].Free? && mid[1].Free? && mid[0].at == bs[i].at
      && mid[0].size + mid[1].size == bs[i].size)
    ensures MergeAt(bs[..i] + mid + bs[i + 1..], i) == bs
  {
    var m := bs[..i] + mid + bs[i + 1..];
    assert i > 0 ==> m[i - 1] == bs[i - 1] && bs[i - 1].Live?;
    assert |mid| == 1 && i + 1 < |m| ==> m[i + 1] == bs[i + 1] && bs[i + 1].Live?;
    assert m[MergeHi(m, i)..] == bs[i + 1..];
    assert m[..i] == bs[..i];
    assert bs == bs[..i] + [bs[i]] + bs[i + 1..];
  }

  // ----- space accounting -----

  /** The bytes the client has asked for in the live blocks. */
  function Requested(bs: seq<Block>): nat {
    if bs == [] then 0 else (if bs[0].Live? then bs[0].req else 0) + Requested(bs[1..])
  }

  lemma {:induction false} RequestedJoin(a: seq<Block>, b: seq<Block>)
    ensures Requested(a + b) == Requested(a) + Requested(b)
  {
    if a == [] {
      assert a + b == b;
    } else {
      RequestedJoin(a[1..], b);
      assert (a + b)[1..] == a[1..] + b;
    }
  }

  lemma RequestedReplace(bs: seq<Block>, lo: nat, hi: nat, mid: seq<Block>)
    requires lo <= hi <= |bs|
    ensures Requested(bs[..lo] + mid + bs[hi..]) == Requested(bs) - Requested(bs[lo..hi]) + Requested(mid)
  {
    assert bs == bs[..lo] + bs[lo..hi] + bs[hi..];
    RequestedJoin(bs[..lo], bs[lo..hi]);
    RequestedJoin(bs[..lo] + bs[lo..hi], bs[hi..]);
    RequestedJoin(bs[..lo], mid);
    RequestedJoin(bs[..lo] + mid, bs[hi..]);
  }

  lemma PlaceRequests(bs: seq<Block>, i: nat, n: nat, req: nat)
    requires i < |bs| && bs[i].Free? && n <= bs[i].size
    ensures Requested(PlaceAt(bs, i, n, req)) == Requested(bs) + req
  {
    var mid := Placed(bs[i], n, req);
    RequestedReplace(bs, i, i + 1, mid);
    assert bs[i..i + 1] == [bs[i]];
    assert Requested([bs[i]]) == 0;
    assert |mid| == 2 ==> mid[1..] == [mid[1]] && Requested([mid[1]]) == 0;
  }

  lemma MergeRequests(bs: seq<Block>, i: nat)
    requires i < |bs| && bs[i].Free?
    ensures Requested(MergeAt(bs, i)) == Requested(bs)
  {
    hide Requested, Merged, MergeLo, MergeHi;
    var lo, hi, b := MergeLo(bs, i), MergeHi(bs, i), Merged(bs, i);
    RequestedReplace(bs, lo, hi, [b]);
    MergedAreFree(bs, i);
    NoneRequested(bs[lo..hi]);
    NoneRequested([b]);
  }

  lemma {:induction false} NoneRequested(bs: seq<Block>)
    requires forall b :: b in bs ==> b.Free?
    ensures Requested(bs) == 0
  {
    if bs != [] {
      assert bs[0] in bs;
      NoneRequested(bs[1..]);
    }
  }

  lemma MallocRequests(s: Arena, req: nat)
    requires Malloc(s, req).1.Some?
    ensures Requested(Malloc(s, req).0.blocks) == Requested(s.blocks) + req
  {
    var n := AdjustedSize(req);
    var i := FirstFit(s.blocks, n);
    if i < |s.blocks| {
      PlaceRequests(s.blocks, i, n, req);
    } else {
      var g := Max(n, CHUNKSIZE);
      GrownTail(s, g);
      RequestedJoin(s.blocks, [Free(s.end, g)]);
      MergeRequests(s.blocks + [Free(s.end, g)], |s.blocks|);
      var u := Grow(s, g).blocks;
      PlaceRequests(u, |u| - 1, n, req);
    }
  }

  lemma RequestedOne(b: Block)
    ensures Requested([b]) == if b.Live? then b.req else 0
  {
    assert [b][1..] == [];
  }

  lemma LivesAreLive(bs: seq<Block>, b: Block)
    requires b in Lives(bs)
    ensures b.Live?
  {
  }

  lemma ReleaseRequests(s: Arena, b: Block)
    requires WellFormed(s) && b in Lives(s.blocks)
    ensures Requested(Release(s, b.at).blocks) == Requested(s.blocks) - b.req
  {
    hide WellFormed, MergeAt, Lives, Requested, IndexOf;
    var i := IndexOf(s.blocks, b.at);
    IndexOfLive(s, b);
    var m := s.blocks[i := Freed(b)];
    assert m == s.blocks[..i] + [Freed(b)] + s.blocks[i + 1..];
    RequestedReplace(s.blocks, i, i + 1, [Freed(b)]);
    assert s.blocks[i..i + 1] == [b];
    RequestedOne(b);
    RequestedOne(Freed(b));
    assert b.Live? by { LivesAreLive(s.blocks, b); }
    MergeRequests(m, i);
  }

  function LiveCount(bs: seq<Block>): nat {
    if bs == [] then 0 else (if bs[0].Live? then 1 else 0) + LiveCount(bs[1..])
  }

  /** The requested bytes, plus 16 for every live block, fit between prologue and epilogue. */
  lemma {:induction false} RequestedFits(bs: seq<Block>, p: nat, e: nat)
    requires Chained(bs, p, e)
    ensures Requested(bs) + 16 * LiveCount(bs) <= e - p
  {
    if bs != [] { RequestedFits(bs[1..], p + bs[0].size, e); }
  }

  lemma {:induction false} LiveCountIs(bs: seq<Block>, p: nat, e: nat)
    requires Chained(bs, p, e)
    ensures LiveCount(bs) == |Lives(bs)|
  {
    hide Chained;
    ChainedOnce(bs, p, e);
    if bs == [] {
      NoLives(bs);
    } else {
      LiveCountIs(bs[1..], p + bs[0].size, e);
      assert bs == [bs[0]] + bs[1..];
      LivesJoin([bs[0]], bs[1..]);
      FirstIsAlone(bs, p, e);
    }
  }

  lemma FirstIsAlone(bs: seq<Block>, p: nat, e: nat)
    requires Chained(bs, p, e) && bs != []
    ensures bs[0] !in Lives(bs[1..]) && Lives([bs[0]]) == if bs[0].Live? then {bs[0]} else {}
  {
    BlocksDisjoint(bs, p, e);
  }

  lemma {:induction false} RequestsLive(bs: seq<Block>)
    requires Requested(bs) > 0
    ensures LiveCount(bs) > 0
  {
    if bs[0].Free? { RequestsLive(bs[1..]); }
  }
}
