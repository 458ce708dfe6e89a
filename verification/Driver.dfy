/** The trace interpreters of mdriver.c that judge an allocator, run on the allocator of mm.c. */
module Driver {
  import opened Options
  import opened HeapWords
  import opened HeapLayout
  import opened HeapTheorems
  import opened HeapMemory
  import opened HeapRequests
  import opened HeapMachine
  import opened Traces

  const ALIGNMENT := 8

  /** First and last byte of a payload the client holds. */
  datatype Range = Range(lo: int, hi: int) {
    predicate Has(k: int) { lo <= k <= hi }
  }

  predicate Acceptable(ranges: seq<Range>, r: Range, heapSize: nat) {
    && r.lo % ALIGNMENT == 0 && 0 <= r.lo <= heapSize - 1 && 0 <= r.hi <= heapSize - 1
    && forall i :: 0 <= i < |ranges| ==> !ranges[i].Has(r.lo) && !ranges[i].Has(r.hi)
  }

  /** add_range takes exactly the aligned payloads in the heap that meet each recorded one nowhere,
      or contain it with bytes to spare on both sides: it misses that overlap. */
  lemma AcceptableIff(ranges: seq<Range>, r: Range, heapSize: nat)
    requires r.lo <= r.hi && forall q :: q in ranges ==> q.lo <= q.hi
    ensures Acceptable(ranges, r, heapSize) <==>
      r.lo % 8 == 0 && 0 <= r.lo && r.hi < heapSize && forall q :: q in ranges ==> Unnoticed(q, r)
  {
    forall i | 0 <= i < |ranges| ensures !ranges[i].Has(r.lo) && !ranges[i].Has(r.hi) <==> Unnoticed(ranges[i], r) {
      assert ranges[i] in ranges;
    }
  }

  /** One before the other; all of `q` strictly inside `r`. */
  predicate Apart(q: Range, r: Range) { q.hi < r.lo || r.hi < q.lo }
  predicate Within(q: Range, r: Range) { r.lo < q.lo && q.hi < r.hi }
  predicate Unnoticed(q: Range, r: Range) { Apart(q, r) || Within(q, r) }

  /** Prepends the payload [lo, lo + size) unless it is misaligned, outside the heap, or has an end in another one. */
  method AddRange(ranges: seq<Range>, lo: nat, size: nat, heapSize: nat) returns (ok: bool, added: seq<Range>)
    requires size > 0
    ensures ok <==> Acceptable(ranges, Range(lo, lo + size - 1), heapSize)
    ensures added == if ok then [Range(lo, lo + size - 1)] + ranges else ranges
  {
    var hi := lo + size - 1;
    added := ranges;
    if lo % ALIGNMENT != 0 {
      return false, ranges;
    }
    if lo > heapSize - 1 || hi > heapSize - 1 {
      return false, ranges;
    }
    for i := 0 to |ranges|
      invariant forall j :: 0 <= j < i ==> !ranges[j].Has(lo) && !ranges[j].Has(hi)
    {
      var p := ranges[i];
      if (lo >= p.lo && lo <= p.hi) || (hi >= p.lo && hi <= p.hi) {
        return false, ranges;
      }
    }
    return true, [Range(lo, hi)] + ranges;
  }

  ghost predicate DistinctLos(ranges: seq<Range>) {
    forall i, j :: 0 <= i < j < |ranges| ==> ranges[i].lo != ranges[j].lo
  }

  /** The list without the first range that starts at `lo`, the others in their order. */
  function Without(ranges: seq<Range>, lo: int): seq<Range> {
    if ranges == [] then [] else if ranges[0].lo == lo then ranges[1..] else [ranges[0]] + Without(ranges[1..], lo)
  }

  /** Unlinks the first range that starts at `lo`. */
  method RemoveRange(ranges: seq<Range>, lo: nat) returns (rest: seq<Range>)
    ensures rest == Without(ranges, lo)
  {
    for i := 0 to |ranges|
      invariant Without(ranges, lo) == ranges[..i] + Without(ranges[i..], lo)
    {
      if ranges[i].lo == lo {
        return ranges[..i] + ranges[i + 1..];
      }
      assert ranges[..i + 1] == ranges[..i] + [ranges[i]] && ranges[i..][1..] == ranges[i + 1..];
    }
    return ranges;
  }

  /** Where no two ranges start at one address, all but the one at `lo` stay, and still no two do. */
  lemma {:induction false} WithoutFacts(ranges: seq<Range>, lo: int)
    ensures forall r :: r in Without(ranges, lo) ==> r in ranges
    ensures DistinctLos(ranges) ==>
      DistinctLos(Without(ranges, lo)) && forall r :: r in ranges ==> (r in Without(ranges, lo) <==> r.lo != lo)
  {
    if ranges != [] {
      var first, tail := ranges[0], ranges[1..];
      WithoutFacts(tail, lo);
      assert ranges == [first] + tail;
      if DistinctLos(ranges) {
        assert forall r :: r in tail ==> r.lo != first.lo;
        assert DistinctLos(tail);
      }
    }
  }

  function RangeOf(b: Block): Range {
    if b.Live? then Range(b.at, b.at + b.req - 1) else Range(b.at, b.at)
  }

  /** Every recorded range is the requested part of some owned block, and none is recorded twice. */
  ghost predicate RangesMatch(ranges: seq<Range>, owner: map<nat, Block>) {
    && DistinctLos(ranges)
    && forall r :: r in ranges ==> exists id :: id in owner && r == RangeOf(owner[id])
  }

  /** Every owned payload is filled with the low byte of its id. */
  ghost predicate Filled(m: seq<byte>, owner: map<nat, Block>) {
    forall id :: id in owner && owner[id].Live? ==> AllBytes(m, owner[id].at, owner[id].req, id % 256)
  }

  /** `blocks[id]` and `block_sizes[id]` record the block of every live id. */
  ghost predicate Recorded(blocks: seq<nat>, sizes: seq<nat>, owner: map<nat, Block>) {
    forall id :: id in owner ==> id < |blocks| && id < |sizes| && owner[id].Live?
                                 && blocks[id] == owner[id].at && sizes[id] == owner[id].req
  }

  lemma ApartFrom(st: Run, id: nat, j: nat)
    requires Sound(st) && id in st.owner && j in st.owner && j != id
    ensures var r, q := RangeOf(st.owner[id]), RangeOf(st.owner[j]); !q.Has(r.lo) && !q.Has(r.hi) && q.lo != r.lo
  {
    hide WellFormed;
    var b, c := st.owner[id], st.owner[j];
    assert b in Lives(st.heap.blocks) && c in Lives(st.heap.blocks);
    LivePayloads(st.heap, b, c);
    BlockSized(st.heap, b);
    BlockSized(st.heap, c);
  }

  lemma OwnedInside(st: Run, id: nat)
    requires Sound(st) && id in st.owner && st.owner[id].Live?
    ensures var b := st.owner[id];
      b.req > 0 && b.at % ALIGNMENT == 0 && b.at + b.req <= st.heap.end
  {
    hide WellFormed;
    var b := st.owner[id];
    assert b in Lives(st.heap.blocks);
    LivePayloads(st.heap, b, b);
    BlockSized(st.heap, b);
    EightDivides(b.at);
  }

  lemma EightDivides(a: nat)
    requires a % 16 == 0
    ensures a % ALIGNMENT == 0
  {
    var q := a / 16;
    assert a == 16 * q == 8 * (2 * q);
  }

  /** A block fresh from mm_malloc or mm_realloc is never rejected by add_range. */
  lemma NewBlockAcceptable(ranges: seq<Range>, st: Run, id: nat, rest: map<nat, Block>)
    requires Sound(st) && id in st.owner && st.owner[id].Live?
    requires RangesMatch(ranges, rest)
    requires forall j :: j in rest ==> j in st.owner && st.owner[j] == rest[j] && j != id
    ensures st.owner[id].req > 0
    ensures Acceptable(ranges, RangeOf(st.owner[id]), st.heap.end)
    ensures RangesMatch([RangeOf(st.owner[id])] + ranges, st.owner)
  {
    hide Sound;
    OwnedInside(st, id);
    var r := RangeOf(st.owner[id]);
    forall q | q in ranges
      ensures !q.Has(r.lo) && !q.Has(r.hi) && q.lo != r.lo && exists j :: j in st.owner && q == RangeOf(st.owner[j])
    {
      var j :| j in rest && q == RangeOf(rest[j]);
      assert j in st.owner && q == RangeOf(st.owner[j]);
      ApartFrom(st, id, j);
    }
  }

  lemma BlockSized(s: Arena, b: Block)
    requires WellFormed(s) && b in Lives(s.blocks)
    ensures Sized(b)
  {
    BlocksDisjoint(s.blocks, FIRST, s.end);
  }

  /** A request for at most INT_MAX bytes never trips over the conversions to int. */
  lemma SmallServable(size: nat, e: nat)
    requires size <= INT_MAX && e <= MAX_HEAP
    ensures Servable(size, e)
  {
    if size > 0 { AdjustedCoversRequest(size); }
  }

  /** The value of a plain (signed) char. */
  function SignedChar(b: byte): int { if b < 128 then b else b - 256 }

  /** The ids whose fill byte survives the comparison through a signed char. */
  predicate PlainByteIds(ops: seq<Op>) {
    forall i :: 0 <= i < |ops| && ops[i].ReallocOp? ==> ops[i].id % 256 < 128
  }

  /** The block of `j` is live before and after `op`, away from the blocks `op` works on. */
  ghost predicate Bystander(st: Run, t: Run, op: Op, j: nat)
    requires j in st.owner && op.id in t.owner && (op.ReallocOp? ==> op.id in st.owner)
  {
    && st.owner[j] in Lives(st.heap.blocks) && st.owner[j] in Lives(t.heap.blocks)
    && st.owner[j].at != t.owner[op.id].at && (op.ReallocOp? ==> st.owner[j].at != st.owner[op.id].at)
  }

  /** The request that creates the block of `op.id` leaves the others as they were. */
  lemma CreatedFacts(st: Run, op: Op)
    requires Sound(st) && SizeFits(op) && Step(st, op).Some? && !op.FreeOp?
    requires op.AllocOp? <==> op.id !in st.owner
    ensures var t := Step(st, op).value;
      && Sound(t) && Served(st, op, t)
      && t.owner[op.id] in t.heap.blocks && t.owner[op.id] in Lives(t.heap.blocks)
      && t.owner[op.id].at + op.size <= t.owner[op.id].PayloadEnd()
      && op.size > 0 && t.owner[op.id].req == op.size && t.owner[op.id].Live?
      && Some(t.owner[op.id].at) == (if op.AllocOp? then Malloc(st.heap, op.size)
         else Realloc(st.heap, st.owner[op.id].at, op.size)).1
      && (forall j :: j in st.owner && j != op.id ==> Bystander(st, t, op, j))
  {
    hide WellFormed, Malloc, Release;
    StepSound(st, op);
    var t := Step(st, op).value;
    var c := t.owner[op.id];
    MallocKeeps(st.heap, op.size);
    assert c in Lives(t.heap.blocks);
    BlockSized(t.heap, c);
    forall j | j in st.owner && j != op.id ensures Bystander(st, t, op, j) {
      assert t.owner[j] == st.owner[j];
      LivePayloads(t.heap, c, t.owner[j]);
      if op.ReallocOp? {
        LivePayloads(st.heap, st.owner[op.id], st.owner[j]);
      }
    }
  }

  /** The fill of every block survives a request (m to m1) and the memset of the new block (m1 to m2). */
  lemma RefilledAfter(m: seq<byte>, m1: seq<byte>, m2: seq<byte>, st: Run, op: Op, t: Run)
    requires Sound(st) && SizeFits(op) && Step(st, op) == Some(t) && !op.FreeOp?
    requires op.AllocOp? <==> op.id !in st.owner
    requires Filled(m, st.owner)
    requires forall c :: c in Lives(st.heap.blocks) && (op.ReallocOp? ==> c.at != st.owner[op.id].at) ==>
      PayloadKept(m, m1, c)
    requires op.id in t.owner && t.owner[op.id].Live?
    requires AllBytes(m2, t.owner[op.id].at, t.owner[op.id].req, op.id % 256)
    requires forall c :: c in t.heap.blocks && c.at != t.owner[op.id].at ==> PayloadKept(m1, m2, c)
    ensures Filled(m2, t.owner)
  {
    hide WellFormed, Step;
    CreatedFacts(st, op);
    forall j | j in t.owner && j != op.id && t.owner[j].Live?
      ensures AllBytes(m2, t.owner[j].at, t.owner[j].req, j % 256)
    {
      assert j in st.owner && t.owner[j] == st.owner[j];
      var d := st.owner[j];
      assert Bystander(st, t, op, j);
      BlockSized(st.heap, d);
      assert PayloadKept(m, m1, d) && d in t.heap.blocks && PayloadKept(m1, m2, d);
      FillSurvives(m, m1, d, j % 256);
      FillSurvives(m1, m2, d, j % 256);
    }
  }

  lemma RecordedAfter(blocks: seq<nat>, sizes: seq<nat>, st: Run, op: Op, t: Run)
    requires Recorded(blocks, sizes, st.owner) && Served(st, op, t) && !op.FreeOp?
    requires op.id < |blocks| && op.id < |sizes|
    ensures Recorded(blocks[op.id := t.owner[op.id].at], sizes[op.id := op.size], t.owner)
  {
  }

  lemma RecordedAfterFree(blocks: seq<nat>, sizes: seq<nat>, owner: map<nat, Block>, id: nat)
    requires Recorded(blocks, sizes, owner)
    ensures Recorded(blocks, sizes, owner - {id})
  {
  }

  /** The arrays of a trace_t, the list of ranges, and the heap they describe. */
  class Trace {
    const heap: Heap
    const blocks: array<nat>
    const blockSizes: array<nat>
    var ranges: seq<Range>
    ghost var st: Run

    ghost predicate Valid()
      reads this, heap, heap.mem, blocks, blockSizes
    {
      && blocks != blockSizes && blocks as object != heap.mem && blockSizes as object != heap.mem
      && heap.Valid() && heap.heapListp.Some? && heap.Arena() == st.heap
      && Sound(st) && Recorded(blocks[..], blockSizes[..], st.owner)
      && RangesMatch(ranges, st.owner) && Filled(heap.mem[..], st.owner)
    }

    /** mem_reset_brk, clear_ranges and mm_init. */
    constructor (heap: Heap, numIds: nat)
      requires heap.mem.Length == MAX_HEAP
      modifies heap, heap.mem
      ensures Valid() && st == INITIAL && this.heap == heap && fresh(blocks) && fresh(blockSizes)
      ensures blocks.Length == blockSizes.Length == numIds && heap.printed == old(heap.printed)
    {
      this.heap := heap;
      blocks := new nat[numIds];
      blockSizes := new nat[numIds];
      ranges := [];
      st := INITIAL;
      new;
      InitialSound();
      heap.MemResetBrk();
      var _ := heap.MmInit();
    }

    /** The end of an ALLOC or REALLOC request: the new block `p` is filled with the low byte of its id, and remembered.
        `m0` and `st0` are the memory and the run before the request. */
    method Remember(p: nat, index: nat, size: nat, ghost m0: seq<byte>, ghost st0: Run, ghost op: Op)
      requires blocks != blockSizes && blocks as object != heap.mem && blockSizes as object != heap.mem
      requires index < blocks.Length == blockSizes.Length && op.id == index && !op.FreeOp? && op.size == size
      requires heap.Valid() && heap.heapListp.Some? && heap.Arena() == st.heap
      requires Sound(st0) && SizeFits(op) && (op.AllocOp? <==> index !in st0.owner) && Step(st0, op) == Some(st)
      requires index in st.owner && p == st.owner[index].at
      requires Recorded(blocks[..], blockSizes[..], st0.owner) && Filled(m0, st0.owner) && RangesMatch(ranges, st.owner)
      requires forall c :: c in Lives(st0.heap.blocks) && (op.ReallocOp? ==> c.at != st0.owner[index].at) ==>
        PayloadKept(m0, heap.mem[..], c)
      modifies heap.mem, blocks, blockSizes
      ensures Valid()
    {
      hide WellFormed, Mapped, KeepsPayloads, PayloadKept, Filled, RangesMatch, Sound, Step, Malloc,
        HeapLayout.Realloc, Recorded, AllBytes, Lives, Bystander;
      ghost var m1, c := heap.mem[..], st.owner[index];
      CreatedFacts(st0, op);
      heap.Memset(p, index % 256, size);
      assert AllBytes(heap.mem[..], c.at, c.req, index % 256);
      RecordedAfter(blocks[..], blockSizes[..], st0, op, st);
      RefilledAfter(m0, m1, heap.mem[..], st0, op, st);
      blocks[index] := p;
      blockSizes[index] := size;
    }

    /** One ALLOC request of eval_mm_valid. */
    method Alloc(index: nat, size: nat) returns (ok: bool)
      requires Valid() && index !in st.owner && index < blocks.Length == blockSizes.Length && size <= INT_MAX
      modifies this, heap, heap.mem, blocks, blockSizes
      ensures heap.printed == old(heap.printed)
      ensures ok <==> Step(old(st), AllocOp(index, size)).Some?
      ensures ok ==> Valid() && st == Step(old(st), AllocOp(index, size)).value
    {
      hide WellFormed, Mapped, KeepsPayloads, PayloadKept, Filled, RangesMatch, Sound, Malloc, Acceptable, NewBlock,
        Recorded, Requested, Bystander;
      ghost var st0, m0, op := st, heap.mem[..], AllocOp(index, size);
      SmallServable(size, heap.brk);
      ZeroRequest(st0.heap);
      var p, _ := heap.MmMalloc(size);
      if p == None {
        return false;
      }
      st := Step(st0, op).value;
      CreatedFacts(st0, op);
      KeptLives(m0, heap.mem[..], st0.heap.blocks);
      NewBlockAcceptable(ranges, st, index, st0.owner);
      ok, ranges := AddRange(ranges, p.value, size, heap.brk);
      if !ok {
        return;
      }
      Remember(p.value, index, size, m0, st0, op);
    }

    /** The check of the first bytes of a resized block, which the fill of its id must have kept. */
    method StillFilled(p: nat, index: nat, oldSize: nat) returns (ok: bool)
      requires p + oldSize <= heap.mem.Length
      ensures ok <==> forall k :: p <= k < p + oldSize ==> SignedChar(heap.mem[k]) == index % 256
    {
      for j := 0 to oldSize
        invariant forall k :: p <= k < p + j ==> SignedChar(heap.mem[k]) == index % 256
      {
        if SignedChar(heap.mem[p + j]) != index % 256 {
          return false;
        }
      }
      return true;
    }

    /** One REALLOC request of eval_mm_valid: the driver also checks the first bytes of the new block. */
    method Realloc(index: nat, size: nat) returns (ok: bool)
      requires Valid() && index in st.owner && index < blocks.Length == blockSizes.Length && size <= INT_MAX
      modifies this, heap, heap.mem, blocks, blockSizes
      ensures heap.printed == old(heap.printed)
      ensures ok <==> Step(old(st), ReallocOp(index, size)).Some? && index % 256 < 128
      ensures ok ==> Valid() && st == Step(old(st), ReallocOp(index, size)).value
    {
      hide WellFormed, Mapped, KeepsPayloads, PayloadKept, Filled, RangesMatch, Sound, Malloc, Acceptable, NewBlock,
        Recorded, Copied, HeapLayout.Realloc, Bystander, Requested, Without, Lives, Grantable, Chained, NoAdjacentFree;
      ghost var st0, m0, op := st, heap.mem[..], ReallocOp(index, size);
      SmallServable(size, heap.brk);
      OwnedBlock(blocks[..], blockSizes[..], st0, index);
      var oldp := blocks[index];
      var newp, _ := heap.MmRealloc(Some(oldp), size);
      if newp == None {
        return false;
      }
      var p := newp.value;
      st := Step(st0, op).value;
      ghost var m1 := heap.mem[..];
      CreatedFacts(st0, op);
      RangeMoved(ranges, st0, st, index);
      ranges := RemoveRange(ranges, oldp);
      ok, ranges := AddRange(ranges, p, size, heap.brk);
      if !ok {
        return;
      }
      var oldSize := blockSizes[index];
      if size < oldSize {
        oldSize := size;
      }
      ContentsMoved(m0, m1, st0.owner, index, p, size, oldSize);
      ok := StillFilled(p, index, oldSize);
      if !ok {
        return;
      }
      Remember(p, index, size, m0, st0, op);
    }

    /** One FREE request of eval_mm_valid. */
    method Free(index: nat)
      requires Valid() && index in st.owner && index < blocks.Length == blockSizes.Length
      modifies this, heap, heap.mem
      ensures heap.printed == old(heap.printed)
      ensures Step(old(st), FreeOp(index)).Some?
      ensures Valid() && st == Step(old(st), FreeOp(index)).value
    {
      hide WellFormed, Mapped, KeepsPayloads, PayloadKept, Filled, RangesMatch, Sound, Malloc, AdjustedSize, Word,
        Acceptable, NewBlock, Recorded, Copied;
      ghost var st0, m0 := st, heap.mem[..];
      OwnedBlock(blocks[..], blockSizes[..], st0, index);
      var p := blocks[index];
      ghost var ranges0 := ranges;
      ranges := RemoveRange(ranges, p);
      RangesRest(ranges0, ranges, st0.owner, index);
      heap.MmFree(Some(p));
      st := Step(st0, FreeOp(index)).value;
      StepSound(st0, FreeOp(index));
      FreedAfter(m0, heap.mem[..], blocks[..], blockSizes[..], st0, index);
    }
  }

  lemma OwnedBlock(blocks: seq<nat>, sizes: seq<nat>, st: Run, index: nat)
    requires Sound(st) && Recorded(blocks, sizes, st.owner) && index in st.owner
    ensures var b := st.owner[index];
      && index < |blocks| && index < |sizes| && blocks[index] == b.at && sizes[index] == b.req
      && b.Live? && 0 < b.req && b.at + b.req <= b.PayloadEnd()
      && WellFormed(st.heap) && b in Lives(st.heap.blocks) && IsLive(st.heap.blocks, b.at)
         && BlockAt(st.heap.blocks, b.at) == b
  {
    hide WellFormed;
    var b := st.owner[index];
    assert b in Lives(st.heap.blocks);
    BlockSized(st.heap, b);
    IndexOfLive(st.heap, b);
  }

  /** Removing the range of a block leaves the ranges of the others. */
  lemma RangesRest(ranges: seq<Range>, rest: seq<Range>, owner: map<nat, Block>, index: nat)
    requires RangesMatch(ranges, owner) && index in owner
    requires rest == Without(ranges, owner[index].at)
    ensures RangesMatch(rest, owner - {index})
  {
    WithoutFacts(ranges, owner[index].at);
    forall r | r in rest ensures exists id :: id in owner - {index} && r == RangeOf((owner - {index})[id]) {
      var id :| id in owner && r == RangeOf(owner[id]);
      assert id in owner - {index};
    }
  }

  /** The range of a resized block can take the place of its old one. */
  lemma RangeMoved(ranges: seq<Range>, st: Run, t: Run, id: nat)
    requires Sound(t) && id in st.owner && id in t.owner && t.owner[id].Live? && RangesMatch(ranges, st.owner)
    requires forall j :: j in st.owner && j != id ==> j in t.owner && t.owner[j] == st.owner[j]
    ensures var rest := Without(ranges, st.owner[id].at);
      && t.owner[id].req > 0 && Acceptable(rest, RangeOf(t.owner[id]), t.heap.end)
      && RangesMatch([RangeOf(t.owner[id])] + rest, t.owner)
  {
    hide Sound, RangesMatch, Acceptable, Without;
    var rest := Without(ranges, st.owner[id].at);
    RangesRest(ranges, rest, st.owner, id);
    NewBlockAcceptable(rest, t, id, st.owner - {id});
  }

  /** The bytes the driver checks after a resize are the fill bytes of the old block. */
  lemma ContentsMoved(m0: seq<byte>, m1: seq<byte>, owner: map<nat, Block>, index: nat, p: nat, size: nat, oldSize: nat)
    requires Filled(m0, owner) && index in owner && owner[index].Live?
    requires var b := owner[index];
      && b.at + b.req <= b.PayloadEnd() && oldSize == Min(b.req, size)
      && Copied(m0, b.at, m1, p, Min(b.PayloadEnd() - b.at, size))
    ensures p + oldSize <= |m1|
    ensures (forall k :: p <= k < p + oldSize ==> SignedChar(m1[k]) == index % 256)
      <==> oldSize == 0 || index % 256 < 128
  {
    var b := owner[index];
    assert AllBytes(m0, b.at, b.req, index % 256);
    forall k | p <= k < p + oldSize ensures m1[k] == index % 256 {
      assert ByteIs(m0, k - p + b.at, index % 256);
    }
    assert oldSize > 0 ==> m1[p] == index % 256;
  }

  lemma FreedAfter(m0: seq<byte>, m1: seq<byte>, blocks: seq<nat>, sizes: seq<nat>, st: Run, index: nat)
    requires Sound(st) && index in st.owner && Filled(m0, st.owner) && Recorded(blocks, sizes, st.owner)
    requires KeepsPayloads(m0, m1, Release(st.heap, st.owner[index].at).blocks)
    ensures Filled(m1, st.owner - {index}) && Recorded(blocks, sizes, st.owner - {index})
  {
    hide WellFormed, Release;
    var b, owner := st.owner[index], st.owner - {index};
    assert b in Lives(st.heap.blocks);
    ReleaseKeeps(st.heap, b);
    KeptLives(m0, m1, Release(st.heap, b.at).blocks);
    forall j | j in owner && owner[j].Live? ensures AllBytes(m1, owner[j].at, owner[j].req, j % 256) {
      var d := owner[j];
      assert d in Lives(st.heap.blocks) && d in Lives(Release(st.heap, b.at).blocks);
      BlockSized(st.heap, d);
      FillSurvives(m0, m1, d, j % 256);
    }
  }

  lemma FillSurvives(m0: seq<byte>, m1: seq<byte>, d: Block, value: byte)
    requires d.Live? && d.at + d.req <= d.PayloadEnd() && PayloadKept(m0, m1, d) && AllBytes(m0, d.at, d.req, value)
    ensures AllBytes(m1, d.at, d.req, value)
  {
    forall k | d.at <= k < d.at + d.req ensures ByteIs(m1, k, value) {
      assert d.Holds(k) && ByteIs(m0, k, value);
    }
  }

  /** eval_mm_valid: a well-formed trace is accepted exactly when the allocator can serve it
      and no resized id has a fill byte that a signed char turns negative. */
  method EvalMmValid(heap: Heap, ops: seq<Op>, numIds: nat) returns (ok: bool)
    requires heap.mem.Length == MAX_HEAP && WellFormedTrace(ops, numIds)
    modifies heap, heap.mem
    ensures ok <==> RunTrace(ops).Some? && PlainByteIds(ops)
    ensures Ample(ops) && PlainByteIds(ops) ==> ok
    ensures ok ==> heap.Valid() && heap.Arena() == RunTrace(ops).value.heap
    ensures heap.printed == old(heap.printed)
  {
    hide RunTrace, LiveIds, Step, Sound, WellFormed, Recorded, RangesMatch, Filled, Mapped, Ample;
    var trace := new Trace(heap, numIds);
    TraceStart(ops);
    if Ample(ops) { AmpleServed(ops, numIds); }
    for i := 0 to |ops|
      invariant trace.heap == heap && fresh(trace) && fresh(trace.blocks) && fresh(trace.blockSizes)
      invariant trace.blocks.Length == trace.blockSizes.Length == numIds
      invariant trace.Valid() && heap.printed == old(heap.printed)
      invariant RunTrace(ops[..i]) == Some(trace.st) && trace.st.owner.Keys == LiveIds(ops[..i])
      invariant PlainByteIds(ops[..i])
    {
      TraceNext(ops, numIds, i);
      ok := true;
      match ops[i] {
        case AllocOp(index, size) =>
          ok := trace.Alloc(index, size);
        case ReallocOp(index, size) =>
          ok := trace.Realloc(index, size);
        case FreeOp(index) =>
          trace.Free(index);
      }
      if !ok {
        return;
      }
    }
    assert ops[..|ops|] == ops;
    ok := true;
  }

  /** A trace that is served and yet rejected: id 128 is allocated and resized. */
  lemma SignedFillRejected()
    ensures var ops := [AllocOp(128, 1), ReallocOp(128, 1)];
      WellFormedTrace(ops, 129) && RunTrace(ops).Some? && !PlainByteIds(ops)
  {
    hide Malloc, Release, WellFormed, AdjustedSize, PlaceAt, NewBlock;
    var a, b := AllocOp(128, 1), ReallocOp(128, 1);
    var ops := [a, b];
    assert ops[..0] == [] && ops[..1] == [a] && [a][..0] == [];
    assert LiveIds([]) == {} && LiveIds([a]) == {128};
    SmallestSize();
    InitialSound();
    MallocKeeps(INITIAL.heap, 1);
    MallocCases(INITIAL.heap, 1);
    assert FirstFit(INITIAL.heap.blocks, 32) == 0;
    assert RunTrace([a]) == Step(INITIAL, a);
    var st := Step(INITIAL, a).value;
    StepSound(INITIAL, a);
    assert st.heap.end == FIRST + CHUNKSIZE;
    MallocKeeps(st.heap, 1);
    assert RunTrace(ops) == Step(st, b);
    forall i | 0 <= i < |ops|
      ensures ops[i].id < 129 && SizeFits(ops[i]) && (ops[i].AllocOp? <==> ops[i].id !in LiveIds(ops[..i]))
    {
      assert i == 0 || i == 1;
    }
    assert ops[1].ReallocOp? && ops[1].id % 256 == 128;
  }

  lemma SmallestSize()
    ensures AdjustedSize(1) == 32
  {
  }

  lemma TraceStart(ops: seq<Op>)
    ensures RunTrace(ops[..0]) == Some(INITIAL) && LiveIds(ops[..0]) == {} == INITIAL.owner.Keys
  {
  }

  /** How one more request of a well-formed trace, served or failed, decides the run. */
  lemma TraceNext(ops: seq<Op>, n: nat, i: nat)
    requires WellFormedTrace(ops, n) && i < |ops| && RunTrace(ops[..i]).Some?
    ensures var st := RunTrace(ops[..i]).value;
      && ops[i].id < n && SizeFits(ops[i]) && (ops[i].AllocOp? <==> ops[i].id !in st.owner)
      && RunTrace(ops[..i + 1]) == Step(st, ops[i])
      && (Step(st, ops[i]).Some? ==> Step(st, ops[i]).value.owner.Keys == LiveIds(ops[..i + 1]))
      && (Step(st, ops[i]).None? ==> RunTrace(ops).None?)
  {
    PrefixWellFormed(ops, n, i);
    PrefixWellFormed(ops, n, i + 1);
    EveryRunSound(ops[..i], n);
    RunSnoc(ops, i);
    if RunTrace(ops[..i + 1]).Some? {
      EveryRunSound(ops[..i + 1], n);
    } else {
      FailureIsFinal(ops, i + 1);
    }
  }

  /** The arrays of a trace_t and the totals of eval_mm_util. */
  class Usage {
    const heap: Heap
    const blocks: array<nat>
    const blockSizes: array<nat>
    var totalSize: int
    var maxTotalSize: int
    ghost var st: Run

    ghost predicate Valid()
      reads this, heap, heap.mem, blocks, blockSizes
    {
      && blocks != blockSizes && blocks as object != heap.mem && blockSizes as object != heap.mem
      && heap.Valid() && heap.heapListp.Some? && heap.Arena() == st.heap
      && Sound(st) && Recorded(blocks[..], blockSizes[..], st.owner) && totalSize == Requested(st.heap.blocks)
    }

    /** mem_reset_brk and mm_init. */
    constructor (heap: Heap, numIds: nat)
      requires heap.mem.Length == MAX_HEAP
      modifies heap, heap.mem
      ensures Valid() && st == INITIAL && maxTotalSize == 0 && this.heap == heap && fresh(blocks) && fresh(blockSizes)
      ensures blocks.Length == blockSizes.Length == numIds && heap.printed == old(heap.printed)
    {
      this.heap := heap;
      blocks := new nat[numIds];
      blockSizes := new nat[numIds];
      totalSize, maxTotalSize := 0, 0;
      st := INITIAL;
      new;
      InitialSound();
      NoneRequested(INITIAL.heap.blocks);
      heap.MemResetBrk();
      var _ := heap.MmInit();
    }

    method Alloc(index: nat, size: nat) returns (ok: bool)
      requires Valid() && index !in st.owner && index < blocks.Length == blockSizes.Length && size <= INT_MAX
      modifies this, heap, heap.mem, blocks, blockSizes
      ensures heap.printed == old(heap.printed)
      ensures ok <==> Step(old(st), AllocOp(index, size)).Some?
      ensures ok ==> Valid() && st == Step(old(st), AllocOp(index, size)).value
      ensures ok ==> maxTotalSize == if totalSize > old(maxTotalSize) then totalSize else old(maxTotalSize)
    {
      hide WellFormed, Mapped, KeepsPayloads, Sound, Malloc, AdjustedSize, NewBlock, Recorded, Requested, Lives;
      ghost var st0, op := st, AllocOp(index, size);
      SmallServable(size, heap.brk);
      ZeroRequest(st0.heap);
      var p, _ := heap.MmMalloc(size);
      if p == None {
        return false;
      }
      st := Step(st0, op).value;
      CreatedFacts(st0, op);
      RecordedAfter(blocks[..], blockSizes[..], st0, op, st);
      blocks[index] := p.value;
      blockSizes[index] := size;
      totalSize := totalSize + size;
      maxTotalSize := if totalSize > maxTotalSize then totalSize else maxTotalSize;
      ok := true;
    }

    method Realloc(index: nat, newSize: nat) returns (ok: bool)
      requires Valid() && index in st.owner && index < blocks.Length == blockSizes.Length && newSize <= INT_MAX
      modifies this, heap, heap.mem, blocks, blockSizes
      ensures heap.printed == old(heap.printed)
      ensures ok <==> Step(old(st), ReallocOp(index, newSize)).Some?
      ensures ok ==> Valid() && st == Step(old(st), ReallocOp(index, newSize)).value
      ensures ok ==> maxTotalSize == if totalSize > old(maxTotalSize) then totalSize else old(maxTotalSize)
    {
      hide WellFormed, Mapped, KeepsPayloads, PayloadKept, Sound, Malloc, HeapLayout.Realloc, Copied, AdjustedSize,
        NewBlock, Recorded, Requested, Lives;
      ghost var st0, op := st, ReallocOp(index, newSize);
      SmallServable(newSize, heap.brk);
      OwnedBlock(blocks[..], blockSizes[..], st0, index);
      var oldSize := blockSizes[index];
      var oldp := blocks[index];
      var newp, _ := heap.MmRealloc(Some(oldp), newSize);
      if newp == None {
        return false;
      }
      st := Step(st0, op).value;
      CreatedFacts(st0, op);
      RecordedAfter(blocks[..], blockSizes[..], st0, op, st);
      blocks[index] := newp.value;
      blockSizes[index] := newSize;
      totalSize := totalSize + (newSize - oldSize);
      maxTotalSize := if totalSize > maxTotalSize then totalSize else maxTotalSize;
      ok := true;
    }

    method Free(index: nat)
      requires Valid() && index in st.owner && index < blocks.Length == blockSizes.Length
      modifies this, heap, heap.mem
      ensures heap.printed == old(heap.printed)
      ensures Step(old(st), FreeOp(index)).Some?
      ensures Valid() && st == Step(old(st), FreeOp(index)).value && maxTotalSize == old(maxTotalSize)
    {
      hide WellFormed, Mapped, KeepsPayloads, Sound, Release, Recorded, Requested, Lives;
      ghost var st0 := st;
      OwnedBlock(blocks[..], blockSizes[..], st0, index);
      var size := blockSizes[index];
      var p := blocks[index];
      heap.MmFree(Some(p));
      st := Step(st0, FreeOp(index)).value;
      StepSound(st0, FreeOp(index));
      RecordedAfterFree(blocks[..], blockSizes[..], st0.owner, index);
      totalSize := totalSize - size;
    }
  }

  /** eval_mm_util: the largest total of live requested bytes over the final heap size, always below 1. */
  method EvalMmUtil(heap: Heap, ops: seq<Op>, numIds: nat) returns (util: Option<real>)
    requires heap.mem.Length == MAX_HEAP && WellFormedTrace(ops, numIds)
    modifies heap, heap.mem
    ensures util.Some? <==> RunTrace(ops).Some?
    ensures Ample(ops) ==> util.Some?
    ensures util.Some? ==> heap.Valid() && heap.Arena() == RunTrace(ops).value.heap
    ensures util.Some? ==>
      RunTrace(ops).value.heap.end > 0 && util.value == Peak(ops) as real / RunTrace(ops).value.heap.end as real
    ensures util.Some? ==> 0.0 <= util.value < 1.0
    ensures heap.printed == old(heap.printed)
  {
    hide RunTrace, LiveIds, Step, Sound, WellFormed, Recorded, Mapped, Requested, Peak, Ample;
    var usage := new Usage(heap, numIds);
    TraceStart(ops);
    if Ample(ops) { AmpleServed(ops, numIds); }
    UtilStart(ops);
    for i := 0 to |ops|
      invariant usage.heap == heap && fresh(usage) && fresh(usage.blocks) && fresh(usage.blockSizes)
      invariant usage.blocks.Length == usage.blockSizes.Length == numIds
      invariant usage.Valid() && heap.printed == old(heap.printed)
      invariant RunTrace(ops[..i]) == Some(usage.st) && usage.maxTotalSize == Peak(ops[..i])
    {
      TraceNext(ops, numIds, i);
      var ok := true;
      match ops[i] {
        case AllocOp(index, size) =>
          ok := usage.Alloc(index, size);
        case ReallocOp(index, size) =>
          ok := usage.Realloc(index, size);
        case FreeOp(index) =>
          ghost var before := usage.st;
          usage.Free(index);
          RequestsShrink(before, ops[i]);
      }
      if !ok {
        return None;
      }
      PeakNext(ops, i);
    }
    assert ops[..|ops|] == ops;
    PeakFits(ops, numIds);
    util := Some(usage.maxTotalSize as real / heap.brk as real);
    RatioBelowOne(usage.maxTotalSize, heap.brk);
  }

  lemma RequestsShrink(st: Run, op: Op)
    requires Sound(st) && op.FreeOp? && Step(st, op).Some?
    ensures Requested(Step(st, op).value.heap.blocks) <= Requested(st.heap.blocks)
  {
    StepSound(st, op);
  }

  lemma UtilStart(ops: seq<Op>)
    ensures Requested(INITIAL.heap.blocks) == 0 == Peak(ops[..0])
  {
    NoneRequested(INITIAL.heap.blocks);
  }

  lemma ZeroRequest(s: Arena)
    ensures Malloc(s, 0) == (s, None)
  {
  }

  lemma PeakNext(ops: seq<Op>, i: nat)
    requires i < |ops| && RunTrace(ops[..i]).Some? && RunTrace(ops[..i + 1]).Some?
    ensures Requested(RunTrace(ops[..i]).value.heap.blocks) <= Peak(ops[..i])
    ensures Peak(ops[..i + 1]) == Max(Requested(RunTrace(ops[..i + 1]).value.heap.blocks), Peak(ops[..i]))
  {
    assert ops[..i + 1][..i] == ops[..i];
  }

  lemma RatioBelowOne(x: int, y: int)
    requires 0 <= x < y
    ensures 0.0 <= x as real / y as real < 1.0
  {
  }
}
