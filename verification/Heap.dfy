/** The allocator of mm.c over the arena of memlib.c: one array of bytes, updated in place.
    Pointers are offsets from the start of the arena (taken to be 16-aligned), NULL is None.
    The ghost field `layout` is the block layout that the boundary tags represent. */
module HeapMachine {
  import opened Options
  import opened HeapWords
  import opened HeapLayout
  import opened HeapTheorems
  import opened HeapRequests
  import opened HeapMemory

  /** The result of mm_malloc, `inside` telling whether its stores were inside the arena, is the answer `a`. */
  ghost predicate Answers(m: seq<byte>, p: Option<nat>, inside: bool, a: Answer) {
    match a
    case Null => inside && p == None
    case Given(at, size) => inside && p == Some(at) && 8 <= at <= |m| && BlockSize(m, at - 8) == size
    case Outside(_) => !inside
  }

  class Heap {
    const mem: array<byte>            // mem_start_brk .. mem_max_addr
    var brk: nat                      // mem_brk
    var heapListp: Option<nat>
    var printed: nat                  // lines printed by check_heap
    ghost var layout: seq<Block>

    ghost function Arena(): HeapLayout.Arena
      reads this
    {
      HeapLayout.Arena(layout, brk)
    }

    ghost predicate Ready()
      reads this, mem
    {
      mem.Length == MAX_HEAP && brk <= MAX_HEAP && heapListp == Some(PROLOGUE) && Mapped(mem[..], Arena())
    }

    ghost predicate Valid()
      reads this, mem
    {
      if heapListp.None? then mem.Length == MAX_HEAP && brk == 0 && layout == []
      else Ready() && WellFormed(Arena())
    }

    /** The layout the next request is served from: mm_malloc initialises a heap that is not. */
    ghost function Start(): HeapLayout.Arena
      reads this
    {
      if heapListp.None? then HeapLayout.Arena([Free(FIRST, CHUNKSIZE)], FIRST + CHUNKSIZE) else Arena()
    }

    /** mem_init */
    constructor ()
      ensures Valid() && heapListp.None? && printed == 0 && fresh(mem)
    {
      mem := new byte[MAX_HEAP];
      brk := 0;
      heapListp := None;
      printed := 0;
      layout := [];
    }

    method MemResetBrk()
      modifies this`brk, this`layout
      ensures brk == 0 && layout == []
    {
      brk := 0;
      layout := [];
    }

    method MemSbrk(incr: int) returns (start: Option<nat>)
      requires brk <= MAX_HEAP
      modifies this`brk
      ensures start.Some? <==> SbrkAccepts(incr, old(brk))
      ensures start.Some? ==> start == Some(old(brk)) && brk == old(brk) + incr
      ensures start.None? ==> brk == old(brk)
    {
      var oldBrk := brk;
      if incr < 0 || brk + incr > MAX_HEAP {
        return None;
      }
      brk := brk + incr;
      return Some(oldBrk);
    }

    method EscribirHeader(a: int, val: nat)
      requires 0 <= a <= mem.Length - 8
      modifies mem
      ensures mem[..] == Store(old(mem[..]), a, val)
    {
      var bs := Bytes(val, 8);
      forall i | 0 <= i < 8 { mem[a + i] := bs[i]; }
    }

    method CheckHeap(line: int)
      requires 8 <= line <= mem.Length && 0 <= ObtenerFooter(mem[..], line) <= mem.Length - 8
      modifies this`printed
      ensures printed == old(printed) + Complaints(mem[..], line)
    {
      var m := mem[..];
      var header, footer := ObtenerHeader(line), ObtenerFooter(m, line);
      var printeoBlock := false;
      if line % DSIZE != 0 {
        printed := printed + 2;
        printeoBlock := true;
      }
      if BlockSize(m, header) != BlockSize(m, footer) {
        if !printeoBlock { printed := printed + 1; printeoBlock := true; }
        printed := printed + 2;
      }
      if IsAllocated(m, header) != (Word(m, footer) % 2 == 1) {
        if !printeoBlock { printed := printed + 1; printeoBlock := true; }
        printed := printed + 2;
      }
    }

    /** The second tag of the block that merges block `i` with its neighbours; the first was stored at `first`. */
    method StoreSecondTag(tag: int, size: nat, ghost m0: seq<byte>, ghost first: int, ghost i: nat)
      requires mem.Length == MAX_HEAP && brk <= MAX_HEAP && heapListp == Some(PROLOGUE)
      requires Mapped(m0, Arena()) && i < |layout| && layout[i].Free? && size == Merged(layout, i).size
      requires var b := Merged(layout, i);
        (first == b.at - WSIZE && tag == b.End() - DSIZE) || (tag == b.at - WSIZE && first == b.End() - DSIZE)
      requires 0 <= first <= |m0| - 8 && mem[..] == Store(m0, first, PackWord(size, false))
      modifies mem, this`layout
      ensures Ready() && layout == MergeAt(old(layout), i) && KeepsPayloads(m0, mem[..], old(layout))
      ensures 0 <= tag <= |m0| - 8 && mem[..] == Store(Store(m0, first, PackWord(size, false)), tag,
          PackWord(size, false))
    {
      hide Word, Store, Mapped, KeepsPayloads, MergeAt, Merged, PackWord;
      MergedMapped(m0, Arena(), i, first, tag);
      EscribirHeader(tag, PackWord(size, false));
      layout := MergeAt(layout, i);
      assert Arena() == HeapLayout.Arena(layout, brk);
    }

    /** coalesce when only the next block is free (mm.c lines 91-95). */
    method JoinNext(block: nat, size: nat, ghost i: nat)
      requires Ready() && i < |layout| && layout[i].Free? && layout[i].at == block && layout[i].size == size
      requires (i == 0 || layout[i - 1].Live?) && i + 1 < |layout| && layout[i + 1].Free?
      modifies mem, this`layout
      ensures Ready() && layout == MergeAt(old(layout), i) && block == Merged(old(layout), i).at
      ensures KeepsPayloads(old(mem[..]), mem[..], old(layout))
    {
      hide Word, Store, BlockSize, Mapped, KeepsPayloads, MergeAt, Merged, PackWord, ObtenerFooter, ProximoBloque;
      var m := mem[..];
      ghost var m0, s, b := m, Arena(), Merged(layout, i);
      NeighbourFacts(m0, s, i);
      NextFacts(m0, s, i);
      MergedCases(m0, s, i);
      var newSize := size + BlockSize(m, ObtenerHeader(ProximoBloque(m, block)));
      EscribirHeader(ObtenerHeader(block), PackWord(newSize, false));
      GrownHeader(m0, block, newSize);
      StoreSecondTag(ObtenerFooter(mem[..], block), newSize, m0, b.at - WSIZE, i);
    }

    /** coalesce when only the previous block is free (mm.c lines 96-101). */
    method JoinPrevious(block: nat, size: nat, ghost i: nat) returns (joined: nat)
      requires Ready() && i < |layout| && layout[i].Free? && layout[i].at == block && layout[i].size == size
      requires i > 0 && layout[i - 1].Free? && (i + 1 == |layout| || layout[i + 1].Live?)
      modifies mem, this`layout
      ensures Ready() && layout == MergeAt(old(layout), i) && joined == Merged(old(layout), i).at
      ensures KeepsPayloads(old(mem[..]), mem[..], old(layout))
    {
      hide Word, Store, BlockSize, Mapped, KeepsPayloads, MergeAt, Merged, PackWord, ObtenerFooter, BloqueAnterior;
      var m := mem[..];
      ghost var m0, s, b := m, Arena(), Merged(layout, i);
      NeighbourFacts(m0, s, i);
      PreviousFacts(m0, s, i);
      MergedCases(m0, s, i);
      var newSize := size + BlockSize(m, ObtenerHeader(BloqueAnterior(m, block)));
      EscribirHeader(ObtenerFooter(m, block), PackWord(newSize, false));
      PreviousAfterStore(m0, s, i, b.End() - DSIZE, PackWord(newSize, false));
      StoreSecondTag(ObtenerHeader(BloqueAnterior(mem[..], block)), newSize, m0, b.End() - DSIZE, i);
      PreviousAfterStores(m0, s, i, b.End() - DSIZE, b.at - WSIZE, PackWord(newSize, false));
      joined := BloqueAnterior(mem[..], block);
    }

    /** coalesce when both neighbours are free (mm.c lines 102-107). */
    method JoinBoth(block: nat, size: nat, ghost i: nat) returns (joined: nat)
      requires Ready() && i < |layout| && layout[i].Free? && layout[i].at == block && layout[i].size == size
      requires 0 < i < |layout| - 1 && layout[i - 1].Free? && layout[i + 1].Free?
      modifies mem, this`layout
      ensures Ready() && layout == MergeAt(old(layout), i) && joined == Merged(old(layout), i).at
      ensures KeepsPayloads(old(mem[..]), mem[..], old(layout))
    {
      hide Word, Store, BlockSize, Mapped, KeepsPayloads, MergeAt, Merged, PackWord, ObtenerFooter, ProximoBloque,
        BloqueAnterior;
      var m := mem[..];
      ghost var m0, s, b := m, Arena(), Merged(layout, i);
      NeighbourFacts(m0, s, i);
      PreviousFacts(m0, s, i);
      NextFacts(m0, s, i);
      MergedCases(m0, s, i);
      var newSize := size + (BlockSize(m, ObtenerHeader(BloqueAnterior(m, block)))
                             + BlockSize(m, ObtenerFooter(m, ProximoBloque(m, block))));
      EscribirHeader(ObtenerHeader(BloqueAnterior(m, block)), PackWord(newSize, false));
      NextAfterStore(m0, s, i, PackWord(newSize, false));
      m := mem[..];
      StoreSecondTag(ObtenerFooter(m, ProximoBloque(m, block)), newSize, m0, b.at - WSIZE, i);
      PreviousAfterStores(m0, s, i, b.at - WSIZE, b.End() - DSIZE, PackWord(newSize, false));
      joined := BloqueAnterior(mem[..], block);
    }

    /** Joins the free block `i` at `block` with its free neighbours. */
    method Coalesce(block: nat, ghost i: nat) returns (joined: nat)
      requires Ready() && i < |layout| && layout[i].Free? && layout[i].at == block
      modifies mem, this`layout
      ensures Ready() && layout == MergeAt(old(layout), i) && joined == Merged(old(layout), i).at
      ensures KeepsPayloads(old(mem[..]), mem[..], old(layout))
    {
      hide Word, BlockSize, IsAllocated, Mapped, KeepsPayloads, MergeAt, Merged, ObtenerFooter, ProximoBloque,
        BloqueAnterior;
      var m := mem[..];
      NeighbourFacts(m, Arena(), i);
      var prevAlloc := IsAllocated(m, ObtenerFooter(m, BloqueAnterior(m, block)));
      var nextAlloc := IsAllocated(m, ObtenerHeader(ProximoBloque(m, block)));
      var newSize := BlockSize(m, ObtenerHeader(block));
      joined := block;
      if prevAlloc && nextAlloc {
        MergedCases(m, Arena(), i);
        KeepsAll(m, Arena());
      } else if prevAlloc && !nextAlloc {
        JoinNext(block, newSize, i);
      } else if !prevAlloc && nextAlloc {
        joined := JoinPrevious(block, newSize, i);
      } else {
        joined := JoinBoth(block, newSize, i);
      }
    }

    /** extend_heap, mm.c lines 121-124: the space mem_sbrk gave becomes a free block with a new epilogue behind it. */
    method TagNewSpace(bp: nat, size: nat) returns (inside: bool)
      requires mem.Length == MAX_HEAP && brk <= MAX_HEAP && heapListp == Some(PROLOGUE)
      requires Mapped(mem[..], HeapLayout.Arena(layout, bp)) && 32 <= size < TWO64 && size % 16 == 0
      requires if bp + size <= MAX_HEAP then brk == bp + size else bp + size - DSIZE > MAX_HEAP
      modifies mem, this`layout, this`printed
      ensures inside <==> bp + size <= MAX_HEAP
      ensures inside ==> Ready() && layout == old(layout) + [Free(bp, size)] && printed == old(printed)
      ensures inside ==> KeepsPayloads(old(mem[..]), mem[..], old(layout))
    {
      hide Word, Store, BlockSize, Mapped, KeepsPayloads, Complaints, PackWord, ObtenerFooter, ProximoBloque;
      ghost var m0, s := mem[..], HeapLayout.Arena(layout, bp);
      KeepsAll(m0, s);
      EscribirHeader(ObtenerHeader(bp), PackWord(size, false));
      GrownHeader(m0, bp, size);
      if ObtenerFooter(mem[..], bp) > mem.Length - WSIZE {
        return false;
      }
      ExtendFacts(m0, bp, size);
      EscribirHeader(ObtenerFooter(mem[..], bp), PackWord(size, false));
      EscribirHeader(ObtenerHeader(ProximoBloque(mem[..], bp)), PackWord(0, true));
      ExtendMapped(m0, s, size);
      layout := layout + [Free(bp, size)];
      assert Arena() == HeapLayout.Arena(s.blocks + [Free(bp, size)], bp + size);
      assert layout[|s.blocks|] == Free(bp, size) && Free(bp, size) in layout;
      NoComplaints(mem[..], Arena(), bp);
      CheckHeap(bp);
      return true;
    }

    /** Asks mem_sbrk for `words` words, rounded up to an even number, and joins them to a free tail. `inside` is false
        when mem_sbrk has granted too little and the next store, of the footer, is outside the arena. */
    method ExtendHeap(words: nat) returns (block: Option<nat>, inside: bool)
      requires Ready() && WellFormed(Arena())
      requires 32 <= (words + words % 2) * WSIZE < TWO64
      modifies mem, this`brk, this`layout, this`printed
      ensures inside <==> GrowthHonest((words + words % 2) * WSIZE, old(brk))
      ensures block.Some? ==> inside
      ensures inside ==> Ready() && WellFormed(Arena()) && printed == old(printed)
      ensures inside ==> var size := (words + words % 2) * WSIZE;
        if old(brk) + size > MAX_HEAP then block == None && Arena() == old(Arena()) && mem[..] == old(mem[..])
        else Arena() == Grow(old(Arena()), size) && |layout| > 0 && block == Some(layout[|layout| - 1].at)
      ensures inside ==> KeepsPayloads(old(mem[..]), mem[..], old(layout))
    {
      hide Word, Store, Chained, BlockSize, MergeAt, Merged, Mapped, WellFormed, KeepsPayloads, Complaints, PackWord,
        GrowthHonest, ToInt32, Grow, Lives, ObtenerFooter, ProximoBloque;
      var size := if words % 2 != 0 then (words + 1) * WSIZE else words * WSIZE;
      ghost var m0, s := mem[..], Arena();
      KeepsAll(m0, s);
      SbrkOutcome(size, brk);
      var sbrk := MemSbrk(ToInt32(size));
      if sbrk.None? {
        return None, true;
      }
      var bp := sbrk.value;
      inside := TagNewSpace(bp, size);
      if !inside {
        return None, false;
      }
      ghost var m1 := mem[..];
      bp := Coalesce(bp, |s.blocks|);
      JoinedTail(m0, m1, mem[..], s, size);
      NoComplaints(mem[..], Arena(), bp);
      CheckHeap(bp);
      return Some(bp), true;
    }

    /** On an empty arena (new, or just reset). */
    method MmInit() returns (ok: bool)
      requires mem.Length == MAX_HEAP && brk == 0
      modifies mem, this`brk, this`layout, this`printed, this`heapListp
      ensures ok && Valid() && heapListp.Some? && printed == old(printed)
      ensures Arena() == HeapLayout.Arena([Free(FIRST, CHUNKSIZE)], FIRST + CHUNKSIZE)
    {
      hide Word, Store;
      var sbrk := MemSbrk(4 * WSIZE);
      var listp := sbrk.value;
      ghost var m0 := mem[..];
      EscribirHeader(listp, 0);
      EscribirHeader(listp + WSIZE, PackWord(DSIZE, true));
      EscribirHeader(listp + 2 * WSIZE, PackWord(DSIZE, true));
      EscribirHeader(listp + 3 * WSIZE, PackWord(0, true));
      listp := listp + 2 * WSIZE;
      heapListp := Some(listp);
      InitialMapped(m0);
      layout := [];
      var block, _ := ExtendHeap(CHUNKSIZE / WSIZE);
      ok := block.Some?;
    }

    /** Takes the front of the free block `i` at `block`, for a request of `req` bytes, whose size may have wrapped. */
    method Place(block: nat, size: nat, ghost i: nat, ghost req: nat)
      requires Ready() && WellFormed(Arena()) && i < |layout| && layout[i].Free? && layout[i].at == block
      requires 0 < req < TWO64 && size == AdjustedSize(req) <= layout[i].size
      modifies mem, this`layout
      ensures 8 <= block <= mem.Length && BlockSize(mem[..], block - 8) == TakenSize(old(layout)[i], size)
      ensures req + 31 < TWO64 ==> Ready() && WellFormed(Arena()) && layout == PlaceAt(old(layout), i, size, req)
      ensures req + 31 < TWO64 ==> KeepsPayloads(old(mem[..]), mem[..], old(layout))
    {
      hide Word, Store, Chained, BlockSize, AdjustedSize, Mapped, WellFormed, PlaceAt, PackWord, KeepsPayloads;
      ghost var m0, s := mem[..], Arena();
      var m := mem[..];
      BlockFacts(m0, s, i);
      PlaceSteps(m0, s.blocks[i], size);
      var sizeHeader := BlockSize(m, ObtenerHeader(block));
      if sizeHeader - size >= DSIZE * 2 {
        EscribirHeader(ObtenerHeader(block), PackWord(size, true));
        EscribirHeader(ObtenerFooter(mem[..], block), PackWord(size, true));
        var next := ProximoBloque(mem[..], block);
        EscribirHeader(ObtenerHeader(next), PackWord(sizeHeader - size, false));
        EscribirHeader(ObtenerFooter(mem[..], next), PackWord(sizeHeader - size, false));
      } else {
        EscribirHeader(ObtenerHeader(block), PackWord(sizeHeader, true));
        EscribirHeader(ObtenerFooter(mem[..], block), PackWord(sizeHeader, true));
      }
      assert mem[..] == PlaceStores(m0, block, sizeHeader, size);
      if req + 31 < TWO64 {
        PlaceMapped(m0, s, i, size, req);
        PlaceKeeps(s, i, size, req);
        layout := PlaceAt(layout, i, size, req);
        assert Arena() == HeapLayout.Arena(PlaceAt(s.blocks, i, size, req), s.end);
      }
    }

    method FindFit(size: nat) returns (block: Option<nat>)
      requires Ready()
      modifies this`printed
      ensures printed == old(printed)
      ensures var i := FirstFit(layout, size);
        block == if i < |layout| then Some(layout[i].at) else None
    {
      hide Word, Chained, BlockSize, IsAllocated, Mapped, Complaints, ProximoBloque, FirstFit;
      var m := mem[..];
      var found := false;
      var blockFound := heapListp.value;
      var sizeBlock := BlockSize(m, ObtenerHeader(blockFound));
      ghost var i := -1;
      ScanFacts(m, Arena(), -1);
      while sizeBlock > 0 && !found
        invariant -1 <= i <= |layout| && printed == old(printed)
        invariant 8 <= blockFound <= |m|
        invariant blockFound == ScanAt(layout, i, brk)
        invariant sizeBlock == BlockSize(m, ObtenerHeader(blockFound))
        invariant found ==> 0 <= i < |layout| && layout[i].Free? && layout[i].size >= size
        invariant forall j :: 0 <= j < i ==> layout[j].Live? || layout[j].size < size
        decreases |layout| - i, !found
      {
        ScanFacts(m, Arena(), i);
        NoComplaints(m, Arena(), blockFound);
        CheckHeap(blockFound);
        if !IsAllocated(m, ObtenerHeader(blockFound)) && BlockSize(m, ObtenerHeader(blockFound)) >= size {
          found := true;
        } else {
          blockFound := ProximoBloque(m, blockFound);
          i := i + 1;
          ScanFacts(m, Arena(), i);
          sizeBlock := BlockSize(m, ObtenerHeader(blockFound));
        }
      }
      ScanFacts(m, Arena(), i);
      FirstFitIs(layout, size, i);
      if !found {
        return None;
      }
      return Some(blockFound);
    }

    /** The end of mm_malloc when the first fit is at `block` (mm.c lines 216-220). */
    method TakeFit(block: nat, adjustedSize: nat, ghost size: nat)
      requires Ready() && WellFormed(Arena()) && 0 < size < TWO64 && adjustedSize == AdjustedSize(size)
      requires var i := FirstFit(layout, adjustedSize); i < |layout| && layout[i].at == block
      modifies mem, this`layout, this`printed
      ensures Answers(mem[..], Some(block), true, MallocAnswer(old(Arena()), size))
      ensures size + 31 < TWO64 ==>
        Ready() && WellFormed(Arena()) && (Arena(), Some(block)) == Malloc(old(Arena()), size)
      ensures size + 31 < TWO64 ==> KeepsPayloads(old(mem[..]), mem[..], old(layout)) && printed == old(printed)
    {
      hide Word, Chained, BlockSize, Mapped, WellFormed, Complaints, PlaceAt, AdjustedSize, KeepsPayloads, FirstFit;
      ghost var i := FirstFit(layout, adjustedSize);
      assert layout[i] in layout;
      NoComplaints(mem[..], Arena(), block);
      CheckHeap(block);
      Place(block, adjustedSize, i, size);
    }

    /** The end of mm_malloc when nothing fits (mm.c lines 222-229). */
    method TakeGrown(adjustedSize: nat, ghost size: nat) returns (p: Option<nat>, inside: bool)
      requires Ready() && WellFormed(Arena()) && 0 < size < TWO64 && adjustedSize == AdjustedSize(size)
      requires FirstFit(layout, adjustedSize) == |layout|
      modifies mem, this`brk, this`layout, this`printed
      ensures Answers(mem[..], p, inside, MallocAnswer(old(Arena()), size)) && (p.Some? ==> inside)
      ensures inside && p == None ==> Arena() == old(Arena()) && mem[..] == old(mem[..])
      ensures inside && (p == None || size + 31 < TWO64) ==>
        Ready() && WellFormed(Arena()) && (Arena(), p) == Malloc(old(Arena()), size) && printed == old(printed)
      ensures inside && (p == None || size + 31 < TWO64) ==> KeepsPayloads(old(mem[..]), mem[..], old(layout))
    {
      hide Word, Chained, BlockSize, Mapped, WellFormed, Complaints, PlaceAt, AdjustedSize, KeepsPayloads, FirstFit,
        Grow;
      var extendSize := Max(adjustedSize, CHUNKSIZE);
      ghost var m0, s := mem[..], Arena();
      GrowthCases(s, size);
      p, inside := ExtendHeap(extendSize / WSIZE);
      if p == None {
        return;
      }
      ghost var m1, u := mem[..], Arena();
      Place(p.value, adjustedSize, |layout| - 1, size);
      if size + 31 < TWO64 {
        KeepsTwice(m0, m1, mem[..], s.blocks, u.blocks);
        PlacedAt(u.blocks, |u.blocks| - 1, adjustedSize, size);
        NoComplaints(mem[..], Arena(), p.value);
      }
      CheckHeap(p.value);
    }

    /** Any size below 2^64. */
    method MmMalloc(size: nat) returns (p: Option<nat>, inside: bool)
      requires Valid() && size < TWO64
      modifies mem, this`brk, this`layout, this`printed, this`heapListp
      ensures Answers(mem[..], p, inside, MallocAnswer(old(Start()), size)) && (p.Some? ==> inside)
      ensures size == 0 ==> Arena() == old(Arena()) && heapListp == old(heapListp) && mem[..] == old(mem[..])
      ensures Answerable(old(Start()), size) ==> inside && Valid() && printed == old(printed)
      ensures Answerable(old(Start()), size) && size > 0 ==>
        heapListp.Some? && (Arena(), p) == Malloc(old(Start()), size)
      ensures size > 0 && inside && p == None ==>
        Arena() == old(Start()) && (old(heapListp).Some? ==> mem[..] == old(mem[..]))
      ensures Answerable(old(Start()), size) ==> KeepsPayloads(old(mem[..]), mem[..], old(layout))
    {
      hide Word, Chained, BlockSize, Mapped, WellFormed, AdjustedSize, Malloc, MallocAnswer, Answerable,
        KeepsPayloads, FirstFit;
      KeepsSame();
      if size == 0 {
        NothingAsked(Start());
        return None, true;
      }
      ghost var before, fewer := mem[..], layout;
      if heapListp == None {
        var _ := MmInit();
      }
      ghost var m0, s := mem[..], Arena();
      assert s == old(Start());
      var adjustedSize := AdjustedSize(size);
      p := FindFit(adjustedSize);
      if p != None {
        inside := true;
        TakeFit(p.value, adjustedSize, size);
      } else {
        p, inside := TakeGrown(adjustedSize, size);
      }
      if Answerable(s, size) {
        AnswerIsMalloc(s, size);
        KeepsStart(before, m0, mem[..], fewer, s.blocks);
      }
    }

    /** mm_malloc, and whether it answered rightly, as the header of the returned block tells. */
    method RightMalloc(size: nat) returns (p: Option<nat>, right: bool)
      requires Valid() && 0 < size < TWO64
      modifies mem, this`brk, this`layout, this`printed, this`heapListp
      ensures right <==> Answerable(old(Start()), size)
      ensures right ==>
        Valid() && heapListp.Some? && printed == old(printed) && (Arena(), p) == Malloc(old(Start()), size)
      ensures right ==> KeepsPayloads(old(mem[..]), mem[..], old(layout))
    {
      hide Word, Chained, BlockSize, Mapped, WellFormed, Malloc, MallocAnswer, Answerable, KeepsPayloads;
      StartWellFormed();
      AnswerRightIff(Start(), size);
      p, right := MmMalloc(size);
      if p != None {
        right := BlockSize(mem[..], ObtenerHeader(p.value)) >= size + DSIZE;
      }
    }

    lemma StartWellFormed()
      requires Valid()
      ensures WellFormed(Start())
    {
      ChainedOne(Free(FIRST, CHUNKSIZE));
    }

    lemma KeepsSame()
      requires Valid()
      ensures KeepsPayloads(mem[..], mem[..], layout)
    {
      if heapListp.Some? {
        KeepsAll(mem[..], Arena());
      }
    }

    /** `p` is NULL or the address of a live block. */
    method MmFree(p: Option<nat>)
      requires Valid() && (p.Some? ==> IsLive(layout, p.value))
      modifies mem, this`layout, this`printed
      ensures Valid() && printed == old(printed)
      ensures Arena() == if p.Some? then Release(old(Arena()), p.value) else old(Arena())
      ensures KeepsPayloads(old(mem[..]), mem[..], layout)
    {
      hide Word, Store, Chained, BlockSize, Mapped, Complaints, MergeAt, Merged, NoAdjacentFree, KeepsPayloads,
        PayloadKept, IsAllocated, Lives;
      ghost var m0, s := mem[..], Arena();
      if p == None {
        KeepsSame();
        return;
      }
      var ptr := p.value;
      ghost var i, b := LiveIndex(s, ptr);
      BlockFacts(m0, s, i);
      NoComplaints(m0, s, ptr);
      CheckHeap(ptr);
      var size := BlockSize(mem[..], ObtenerHeader(ptr));
      TagFree(ptr, size, i);
      MarkKeeps(s, i);
      ghost var m1, u := mem[..], Arena();
      var _ := Coalesce(ptr, i);
      MergeKeeps(u.blocks, u.end, i);
      KeepsFewer(m0, m1, u.blocks, layout);
      KeepsTwice(m0, m1, mem[..], layout, u.blocks);
    }

    /** mm_free, mm.c lines 248-249: header and footer of the live block `i` at `ptr` are marked free. */
    method TagFree(ptr: nat, size: nat, ghost i: nat)
      requires Ready() && i < |layout| && layout[i].Live? && layout[i].at == ptr && layout[i].size == size
      modifies mem, this`layout
      ensures Ready() && layout == old(layout)[i := Freed(old(layout)[i])]
      ensures KeepsPayloads(old(mem[..]), mem[..], layout)
    {
      hide Word, Store, BlockSize, Mapped, KeepsPayloads, PayloadKept, ObtenerFooter;
      ghost var m0, s, b := mem[..], Arena(), layout[i];
      BlockFacts(m0, s, i);
      EscribirHeader(ObtenerHeader(ptr), PackWord(size, false));
      AfterHeader(m0, Freed(b));
      EscribirHeader(ObtenerFooter(mem[..], ptr), PackWord(size, false));
      RetagMapped(m0, s, i, Freed(b));
      layout := layout[i := Freed(b)];
      assert layout == s.blocks[..i] + [Freed(b)] + s.blocks[i + 1..];
      assert Arena() == HeapLayout.Arena(layout, s.end);
      MarkedKeeps(m0, mem[..], s.blocks, i);
    }

    /** memcpy within the arena; source and destination must not overlap. */
    method Memcpy(dst: nat, src: nat, n: nat)
      requires dst + n <= mem.Length && src + n <= mem.Length && (dst + n <= src || src + n <= dst || n == 0)
      modifies mem
      ensures OnlyWithin(old(mem[..]), mem[..], dst, dst + n)
      ensures Copied(old(mem[..]), src, mem[..], dst, n)
    {
      forall k | 0 <= k < n { mem[dst + k] := mem[src + k]; }
    }

    /** memset, or any other client write of `n` bytes, inside the payload of the live block at `p`. */
    method Memset(p: nat, value: byte, n: nat)
      requires Valid() && exists b :: b in Lives(layout) && b.at == p && p + n <= b.PayloadEnd()
      modifies mem
      ensures Valid()
      ensures AllBytes(mem[..], p, n, value)
      ensures forall c :: c in layout && c.at != p ==> PayloadKept(old(mem[..]), mem[..], c)
    {
      hide Word, Chained;
      ghost var m0 := mem[..];
      ghost var b :| b in Lives(layout) && b.at == p && p + n <= b.PayloadEnd();
      LivePayloads(Arena(), b, b);
      forall k | 0 <= k < n { mem[p + k] := value; }
      PayloadWrites(m0, mem[..], Arena(), b);
    }

    /** Any size below 2^64. `right` is false when mm_malloc stored outside the arena, or returned a block without room
        for the request; the model stops there. */
    method MmRealloc(p: Option<nat>, size: nat) returns (q: Option<nat>, right: bool)
      requires Valid() && (p.Some? ==> IsLive(layout, p.value))
      requires size < TWO64
      modifies mem, this`brk, this`layout, this`printed, this`heapListp
      ensures right <==> Answerable(old(Start()), size)
      ensures right ==> Valid() && printed == old(printed)
      ensures right && p.Some? ==> (Arena(), q) == Realloc(old(Arena()), p.value, size)
      ensures right && p.Some? ==> (q.Some? <==> size > 0 && Grantable(old(Start()), size))
      ensures right && p.None? && size == 0 ==> q == None && Arena() == old(Arena())
      ensures right && p.None? && size > 0 ==> (Arena(), q) == Malloc(old(Start()), size)
      // the new block starts with the old contents
      ensures right && p.Some? && q.Some? ==>
        Copied(old(mem[..]), p.value, mem[..], q.value, Min(BlockAt(old(layout), p.value).PayloadEnd() - p.value, size))
      ensures right ==> forall c :: c in Lives(old(layout)) && p != Some(c.at) ==> PayloadKept(old(mem[..]), mem[..], c)
    {
      hide Word, Store, Chained, BlockSize, Mapped, WellFormed, Complaints, AdjustedSize, Malloc, Release,
        KeepsPayloads, IsAllocated, FirstFit, NoAdjacentFree, NewBlock, Copied, Answerable, Grantable;
      ghost var m0, s := mem[..], Arena();
      if p.Some? { AnswerableRealloc(s, p.value, size); }
      ZeroAnswerable(Start());
      right := true;
      if size == 0 {
        MmFree(p);
        FreeKeeps(m0, mem[..], s, p);
        return None, true;
      }
      if p == None {
        q, right := RightMalloc(size);
        if right {
          KeptLives(m0, mem[..], s.blocks);
        }
        return;
      }
      var ptr := p.value;
      ghost var i, b := LiveIndex(s, ptr);
      NoComplaints(mem[..], s, ptr);
      CheckHeap(ptr);
      q, right := RightMalloc(size);
      if !right {
        return;
      }
      ghost var m1, u := mem[..], Arena();
      KeptLives(m0, m1, s.blocks);
      if q == None {
        return;
      }
      AnswerIsMalloc(s, size);
      ghost var c := ReallocFacts(m1, s, u, b, size);
      NoComplaints(mem[..], u, q.value);
      CheckHeap(q.value);
      var oldSize := BlockSize(mem[..], ObtenerHeader(ptr));
      if oldSize > size {
        oldSize := size;
      }
      Memcpy(q.value, ptr, oldSize);
      ghost var m2 := mem[..];
      assert OnlyWithin(m1, m2, c.at, c.PayloadEnd());
      PayloadWrites(m1, m2, u, c);
      MmFree(p);
      ReallocMemory(m0, m1, m2, mem[..], s, u, b, c, size);
      assert BlockAt(old(layout), ptr) == b && old(mem[..]) == m0;
    }
  }

  function Min(x: int, y: int): int { if x < y then x else y }

  lemma KeptLives(m: seq<byte>, m': seq<byte>, bs: seq<Block>)
    requires KeepsPayloads(m, m', bs)
    ensures forall c :: c in Lives(bs) ==> PayloadKept(m, m', c)
  {
  }

  lemma FreeKeeps(m: seq<byte>, m': seq<byte>, s: HeapLayout.Arena, p: Option<nat>)
    requires p.Some? ==> WellFormed(s) && IsLive(s.blocks, p.value)
    requires KeepsPayloads(m, m', (if p.Some? then Release(s, p.value) else s).blocks)
    ensures forall c :: c in Lives(s.blocks) && p != Some(c.at) ==> PayloadKept(m, m', c)
  {
    if p.Some? {
      var b :| b in s.blocks && b.Live? && b.at == p.value;
      assert b in Lives(s.blocks);
      ReleaseKeeps(s, b);
      KeptLives(m, m', Release(s, p.value).blocks);
    } else {
      KeptLives(m, m', s.blocks);
    }
  }

  /** After the malloc inside a realloc: the old block is still there, and the new one is elsewhere. */
  lemma ReallocFacts(m1: seq<byte>, s: HeapLayout.Arena, u: HeapLayout.Arena, b: Block, size: nat) returns (c: Block)
    requires WellFormed(s) && b in Lives(s.blocks) && 0 < size && size + 31 < TWO64
    requires Malloc(s, size).1.Some? && u == Malloc(s, size).0 && Mapped(m1, u)
    ensures WellFormed(u) && c == NewBlock(s, size) && c.Live? && c.at == Malloc(s, size).1.value && c.req == size
    ensures c !in Lives(s.blocks) && Lives(u.blocks) == Lives(s.blocks) + {c}
    ensures c in u.blocks && b in u.blocks && IsLive(u.blocks, b.at)
    ensures FIRST <= b.at && b.End() <= |m1| && 32 <= b.size == BlockSize(m1, b.at - 8)
    ensures FIRST <= c.at && c.at + size <= c.PayloadEnd() && c.End() <= |m1|
    ensures b.End() <= c.at || c.End() <= b.at
  {
    hide Word, Chained;
    MallocKeeps(s, size);
    c := NewBlock(s, size);
    assert b in Lives(u.blocks) && c in Lives(u.blocks);
    LiveBlockFacts(m1, u, b);
    LiveBlockFacts(m1, u, c);
    LivePayloads(u, b, c);
    LivePayloads(u, c, b);
  }

  /** The memories of a realloc, after malloc (m1), memcpy (m2) and free (m3): the new block `c` starts with the bytes
      of the old block `b`, and every other block keeps its payload. */
  lemma ReallocMemory(m0: seq<byte>, m1: seq<byte>, m2: seq<byte>, m3: seq<byte>,
                      s: HeapLayout.Arena, u: HeapLayout.Arena, b: Block, c: Block, size: nat)
    requires KeepsPayloads(m0, m1, s.blocks) && |m1| == |m2| && KeepsPayloads(m2, m3, Release(u, b.at).blocks)
    requires WellFormed(u) && b in Lives(s.blocks) && c !in Lives(s.blocks) && c.Live?
    requires Lives(u.blocks) == Lives(s.blocks) + {c}
    requires b.size >= 32 && b.End() <= |m0| && c.at + size <= c.PayloadEnd()
    requires forall d :: d in u.blocks && d != c ==> PayloadKept(m1, m2, d)
    requires Copied(m1, b.at, m2, c.at, if b.size > size then size else b.size)
    ensures Copied(m0, b.at, m3, c.at, Min(b.PayloadEnd() - b.at, size))
    ensures forall d :: d in Lives(s.blocks) && d.at != b.at ==> PayloadKept(m0, m3, d)
  {
    hide WellFormed, Chained, Release;
    assert b in Lives(u.blocks);
    ReleaseKeeps(u, b);
    KeptLives(m0, m1, s.blocks);
    KeptLives(m2, m3, Release(u, b.at).blocks);
    var keep := Min(b.PayloadEnd() - b.at, size);
    assert PayloadKept(m0, m1, b) && c in Lives(Release(u, b.at).blocks) && PayloadKept(m2, m3, c);
    forall k | b.at <= k < b.at + keep ensures m3[k - b.at + c.at] == m0[k] {
      assert b.Holds(k) && c.Holds(k - b.at + c.at) && m1[k] == m0[k];
    }
    forall d | d in Lives(s.blocks) && d.at != b.at ensures PayloadKept(m0, m3, d) {
      assert d in Lives(u.blocks) && d in Lives(Release(u, b.at).blocks) && PayloadKept(m2, m3, d);
    }
  }
}
