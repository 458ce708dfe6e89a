/** Which requests mm_malloc answers rightly, of all uint64_t sizes: a size near 2^64 wraps when it is rounded up,
    and a growth is cut to an int on its way into mem_sbrk. */
module HeapRequests {
  import opened Options
  import opened HeapWords
  import opened HeapLayout
  import opened HeapTheorems

  predicate SbrkAccepts(incr: int, e: nat) { 0 <= incr && e + incr <= MAX_HEAP }

  /** mem_sbrk(int) asked for the uint64_t `g` grows the arena exactly when `g` fits. */
  predicate GrowthHonest(g: nat, e: nat)
    requires e <= MAX_HEAP
  {
    g < TWO32 || g % TWO32 > MAX_HEAP - e
  }

  /** Truncation to int is harmless exactly under GrowthHonest, a test on the size and the current break. */
  lemma SbrkHonest(g: nat, e: nat)
    requires e <= MAX_HEAP && 0 < g < TWO64
    ensures (SbrkAccepts(ToInt32(g), e) <==> e + g <= MAX_HEAP) <==> GrowthHonest(g, e)
    ensures e + g <= MAX_HEAP ==> ToInt32(g) == g
  {
  }

  /** What extend_heap sees of a growth: refused, granted whole, or granted in part; only in the last case is the
      footer of the new block outside the arena. */
  lemma SbrkOutcome(g: nat, e: nat)
    requires e <= MAX_HEAP && 32 <= g < TWO64
    ensures !SbrkAccepts(ToInt32(g), e) ==> GrowthHonest(g, e) && e + g > MAX_HEAP
    ensures SbrkAccepts(ToInt32(g), e) ==>
      if GrowthHonest(g, e) then e + g <= MAX_HEAP && ToInt32(g) == g else e + g - DSIZE > MAX_HEAP
  {
  }

  predicate Servable(size: nat, e: nat)
    requires e <= MAX_HEAP
  {
    size == 0 || (size + 31 < TWO64 && GrowthHonest(Max(AdjustedSize(size), CHUNKSIZE), e))
  }

  /** What the caller of mm_malloc gets: NULL, an address whose header then holds a block of `size` bytes,
      or a store outside the arena at `at`. */
  datatype Answer = Null | Given(at: nat, size: nat) | Outside(at: nat) {
    /** NULL, or a block with room for `req` bytes and its two tags. */
    predicate RightFor(req: nat) { Null? || (Given? && size >= req + 16) }
  }

  /** The size in the header of the free block `b` when place has taken `n` bytes of it. Taking nothing splits the
      block before its first byte, and the rest is the whole block again. */
  function TakenSize(b: Block, n: nat): nat
    requires n <= b.size
  {
    if n > 0 && b.size - n >= 2 * DSIZE then n else b.size
  }

  function MallocAnswer(s: Arena, req: nat): Answer {
    var n := AdjustedSize(req);
    var i, g := FirstFit(s.blocks, n), Max(n, CHUNKSIZE);
    if req == 0 then Null
    else if i < |s.blocks| then Given(s.blocks[i].at, TakenSize(s.blocks[i], n))
    else if !SbrkAccepts(ToInt32(g), s.end) then Null
    else if s.end + g > MAX_HEAP then Outside(s.end + g - DSIZE)
    else
      GrownTail(s, g);
      var t := Grow(s, g).blocks;
      Given(t[|t| - 1].at, TakenSize(t[|t| - 1], n))
  }

  /** The requests mm_malloc answers rightly: those that survive both conversions, and those that wrap
      when the heap has no free block and cannot grow. */
  ghost predicate Answerable(s: Arena, req: nat)
    requires s.end <= MAX_HEAP
  {
    Servable(req, s.end) || (req + 31 >= TWO64 && NoneFree(s.blocks) && s.end + CHUNKSIZE > MAX_HEAP)
  }

  /** Over every well-formed heap and every size: mm_malloc answers with NULL or a block that is large enough
      exactly when the request is answerable. */
  lemma AnswerRightIff(s: Arena, req: nat)
    requires WellFormed(s) && req < TWO64
    ensures MallocAnswer(s, req).RightFor(req) <==> Answerable(s, req)
  {
    hide Chained, NoAdjacentFree, FirstFit, MergeAt, Merged, AdjustedSize;
    if req != 0 {
      var n := AdjustedSize(req);
      AdjustedCoversRequest(req);
      var g := Max(n, CHUNKSIZE);
      if req + 31 >= TWO64 {
        WrappedSize(s, req);
      }
      SbrkHonest(g, s.end);
      SizesBounded(s);
      var i := FirstFit(s.blocks, n);
      if i == |s.blocks| && s.end + g <= MAX_HEAP {
        GrowKeeps(s, g);
        GrownTail(s, g);
        SizesBounded(Grow(s, g));
      }
    }
  }

  lemma SizesBounded(s: Arena)
    requires WellFormed(s)
    ensures forall i :: 0 <= i < |s.blocks| ==> 32 <= s.blocks[i].size <= MAX_HEAP
  {
    BlocksDisjoint(s.blocks, FIRST, s.end);
  }

  /** An answerable request is answered as the layouts say. */
  lemma AnswerIsMalloc(s: Arena, req: nat)
    requires WellFormed(s) && req < TWO64 && Answerable(s, req)
    ensures MallocAnswer(s, req) ==
      match Malloc(s, req).1 { case None => Null case Some(p) => Given(p, NewBlock(s, req).size) }
    ensures Malloc(s, req).1.Some? ==> 0 < req && req + 31 < TWO64
  {
    hide Chained, NoAdjacentFree, FirstFit, MergeAt, Merged, AdjustedSize;
    if req != 0 {
      AdjustedCoversRequest(req);
      SizesBounded(s);
      if req + 31 >= TWO64 {
        WrappedSize(s, req);
      }
      SbrkHonest(Max(AdjustedSize(req), CHUNKSIZE), s.end);
    }
  }

  /** What mm_realloc does with an answerable size; size 0 is one. */
  lemma AnswerableRealloc(s: Arena, p: nat, req: nat)
    requires WellFormed(s) && IsLive(s.blocks, p) && req < TWO64
    ensures Answerable(s, req) ==> (Realloc(s, p, req).1.Some? <==> req > 0 && Grantable(s, req))
  {
    hide Realloc, Grantable, IsLive, Chained, NoAdjacentFree;
    if Answerable(s, req) {
      ReallocGranted(s, p, req);
    }
  }

  lemma ZeroAnswerable(s: Arena)
    requires s.end <= MAX_HEAP
    ensures Answerable(s, 0)
  {
  }

  lemma NothingAsked(s: Arena)
    ensures MallocAnswer(s, 0) == Null
  {
  }

  /** The three ends of a request that fits nowhere. */
  lemma GrowthCases(s: Arena, req: nat)
    requires WellFormed(s) && 0 < req < TWO64 && FirstFit(s.blocks, AdjustedSize(req)) == |s.blocks|
    ensures var n := AdjustedSize(req);
      var g := Max(n, CHUNKSIZE);
      && 32 <= g < TWO64 && g % 16 == 0 && (g / WSIZE + g / WSIZE % 2) * WSIZE == g
      && (!GrowthHonest(g, s.end) ==> MallocAnswer(s, req).Outside?)
      && (GrowthHonest(g, s.end) && s.end + g > MAX_HEAP
         ==> MallocAnswer(s, req) == Null && Malloc(s, req) == (s, None))
      && (s.end + g <= MAX_HEAP ==>
            var t := Grow(s, g);
            && |t.blocks| > 0
            && var k, b := |t.blocks| - 1, t.blocks[|t.blocks| - 1];
            && GrowthHonest(g, s.end) && WellFormed(t) && Lives(t.blocks) == Lives(s.blocks)
            && b.Free? && n <= b.size && 32 <= b.size && FIRST <= b.at && b.End() <= MAX_HEAP && 16 <= TakenSize(b, n)
            && MallocAnswer(s, req) == Given(b.at, TakenSize(b, n))
            && Malloc(s, req) == (Arena(PlaceAt(t.blocks, k, n, req), t.end), Some(b.at)))
  {
    hide Chained, NoAdjacentFree, FirstFit, MergeAt, Merged, AdjustedSize, Lives, PlaceAt;
    var n := AdjustedSize(req);
    var g := Max(n, CHUNKSIZE);
    AdjustedCoversRequest(req);
    if req + 31 >= TWO64 {
      WrappedSize(s, req);
    }
    EvenWords(g);
    SbrkHonest(g, s.end);
    MallocCases(s, req);
    if s.end + g <= MAX_HEAP {
      GrowKeeps(s, g);
      GrownTail(s, g);
      var t := Grow(s, g);
      TailIsFree(s, g);
      BlocksDisjoint(t.blocks, FIRST, t.end);
    }
  }

  lemma TailIsFree(s: Arena, g: nat)
    ensures var t := Grow(s, g).blocks; |t| > 0 && t[|t| - 1].Free?
  {
    GrownTail(s, g);
  }

  /** The heap of mm_init. */
  const FRESH := Arena([Free(FIRST, CHUNKSIZE)], FIRST + CHUNKSIZE)

  lemma FitInFresh(n: nat)
    ensures WellFormed(FRESH) && FirstFit(FRESH.blocks, n) == (if n <= CHUNKSIZE then 0 else 1)
  {
    ChainedOne(Free(FIRST, CHUNKSIZE));
  }

  /** The last size wraps to a block without room for a single byte. */
  lemma NoRoomAnswer()
    ensures MallocAnswer(FRESH, TWO64 - 1) == Given(FIRST, 16)
  {
    hide FirstFit;
    FitInFresh(16);
  }

  /** The first size that wraps is given a block that stays free. */
  lemma StaysFreeAnswer()
    ensures MallocAnswer(FRESH, TWO64 - 31) == Given(FIRST, CHUNKSIZE)
  {
    hide FirstFit;
    FitInFresh(0);
  }

  /** A growth of 2^32 bytes is granted as none, and its footer is stored behind the arena. */
  lemma OutsideAnswer()
    ensures MallocAnswer(FRESH, TWO32 - 16) == Outside(FIRST + CHUNKSIZE + TWO32 - 16)
  {
    hide FirstFit;
    FitInFresh(TWO32);
    assert AdjustedSize(TWO32 - 16) == TWO32;
  }

  /** Wrong answers on the heap of mm_init: a block without room for a single byte; a block that stays free;
      and a footer stored 4 GB behind the arena. */
  lemma WrongAnswers()
    ensures WellFormed(FRESH) && MallocAnswer(FRESH, TWO64 - 1) == Given(FIRST, 16)
    ensures MallocAnswer(FRESH, TWO64 - 31) == Given(FIRST, CHUNKSIZE)
    ensures MallocAnswer(FRESH, TWO32 - 16) == Outside(FIRST + CHUNKSIZE + TWO32 - 16)
  {
    hide MallocAnswer, WellFormed;
    FitInFresh(0);
    NoRoomAnswer();
    StaysFreeAnswer();
    OutsideAnswer();
  }

  /** On a full heap the size that wraps is refused, as it should be. */
  lemma FullHeapRefuses()
    ensures var s := Arena([Live(FIRST, MAX_HEAP - 32, MAX_HEAP - 48)], MAX_HEAP);
      WellFormed(s) && !Servable(TWO64 - 1, s.end) && Answerable(s, TWO64 - 1) && MallocAnswer(s, TWO64 - 1) == Null
  {
    ChainedOne(Live(FIRST, MAX_HEAP - 32, MAX_HEAP - 48));
  }
}
