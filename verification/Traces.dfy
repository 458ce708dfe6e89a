/** Whole runs of the allocator: the request traces that mdriver.c interprets, on layouts. */
module Traces {
  import opened Options
  import opened HeapWords
  import opened HeapLayout
  import opened HeapTheorems

  const INT_MAX := 0x7fff_ffff

  datatype Op = AllocOp(id: nat, size: nat) | ReallocOp(id: nat, size: nat) | FreeOp(id: nat)

  /** A heap together with the live block that each trace id owns. */
  datatype Run = Run(heap: Arena, owner: map<nat, Block>)

  const INITIAL := Run(Arena([Free(FIRST, CHUNKSIZE)], FIRST + CHUNKSIZE), map[])

  /** The ids holding a block after `ops`. */
  function LiveIds(ops: seq<Op>): set<nat> {
    if ops == [] then {}
    else
      var live := LiveIds(ops[..|ops| - 1]);
      match ops[|ops| - 1]
      case AllocOp(id, _) => live + {id}
      case ReallocOp(_, _) => live
      case FreeOp(id) => live - {id}
  }

  predicate SizeFits(op: Op) { op.FreeOp? || op.size <= INT_MAX }

  /** Ids are below `n`; only free ids are allocated, only live ids are resized or freed. */
  ghost predicate WellFormedTrace(ops: seq<Op>, n: nat) {
    forall i :: 0 <= i < |ops| ==>
      && ops[i].id < n && SizeFits(ops[i])
      && (ops[i].AllocOp? <==> ops[i].id !in LiveIds(ops[..i]))
  }

  /** One request; None when it fails. */
  function Step(st: Run, op: Op): Option<Run> {
    match op
    case AllocOp(id, size) =>
      var (t, p) := Malloc(st.heap, size);
      if p.None? then None else Some(Run(t, st.owner[id := NewBlock(st.heap, size)]))
    case ReallocOp(id, size) =>
      if id !in st.owner then None
      else
        var (t, p) := Realloc(st.heap, st.owner[id].at, size);
        if p.None? then None else Some(Run(t, st.owner[id := NewBlock(st.heap, size)]))
    case FreeOp(id) =>
      if id !in st.owner then None
      else Some(Run(Release(st.heap, st.owner[id].at), st.owner - {id}))
  }

  /** The state after a whole trace; None when some request failed. */
  function RunTrace(ops: seq<Op>): Option<Run> {
    if ops == [] then Some(INITIAL)
    else
      match RunTrace(ops[..|ops| - 1])
      case None => None
      case Some(st) => Step(st, ops[|ops| - 1])
  }

  /** The layout is well formed, and the live blocks are exactly those the ids own, one each. */
  ghost predicate Sound(st: Run) {
    && WellFormed(st.heap) && st.heap.end > FIRST
    && Lives(st.heap.blocks) == st.owner.Values
    && forall i, j :: i in st.owner && j in st.owner && i != j ==> st.owner[i] != st.owner[j]
  }

  lemma InitialSound()
    ensures Sound(INITIAL)
  {
    ChainedOne(Free(FIRST, CHUNKSIZE));
  }

  /** What a granted request may do: never shrink the heap, own or disown its own id only,
      and change the requested bytes by its own size. */
  ghost predicate Served(st: Run, op: Op, t: Run) {
    && st.heap.end <= t.heap.end
    && (op.FreeOp? ==> t.owner.Keys == st.owner.Keys - {op.id})
    && (!op.FreeOp? ==>
          t.owner.Keys == st.owner.Keys + {op.id} && t.owner[op.id].Live? && t.owner[op.id].req == op.size)
    && (forall j :: j in st.owner && j != op.id ==> j in t.owner && t.owner[j] == st.owner[j])
    && (op.AllocOp? ==> Requested(t.heap.blocks) == Requested(st.heap.blocks) + op.size)
    && (!op.AllocOp? ==> op.id in st.owner && st.owner[op.id].Live?)
    && (op.ReallocOp? ==> Requested(t.heap.blocks) == Requested(st.heap.blocks) + op.size - st.owner[op.id].req)
    && (op.FreeOp? ==> Requested(t.heap.blocks) == Requested(st.heap.blocks) - st.owner[op.id].req)
  }

  lemma AllocSound(st: Run, id: nat, size: nat)
    requires Sound(st) && size < TWO64 && RoundsSafely(st.heap, size) && id !in st.owner
      && Malloc(st.heap, size).1.Some?
    ensures var t := Run(Malloc(st.heap, size).0, st.owner[id := NewBlock(st.heap, size)]);
      Sound(t) && Served(st, AllocOp(id, size), t)
  {
    hide WellFormed, Malloc, Requested, NewBlock, Lives;
    MallocKeeps(st.heap, size);
    MallocRequests(st.heap, size);
    OwnerPut(st.owner, id, NewBlock(st.heap, size));
    assert forall b :: b in st.owner.Values ==> b in Lives(st.heap.blocks);
  }

  lemma ReallocSound(st: Run, id: nat, size: nat)
    requires Sound(st) && size < TWO64 && RoundsSafely(st.heap, size)
    requires id in st.owner && Realloc(st.heap, st.owner[id].at, size).1.Some?
    ensures var t := Run(Realloc(st.heap, st.owner[id].at, size).0, st.owner[id := NewBlock(st.heap, size)]);
      Sound(t) && Served(st, ReallocOp(id, size), t)
  {
    hide WellFormed, Malloc, Release, Requested, NewBlock, Lives;
    var b, u := st.owner[id], Malloc(st.heap, size).0;
    assert b in Lives(st.heap.blocks);
    LivesAreLive(st.heap.blocks, b);
    ReallocKeeps(st.heap, b, size);
    MallocKeeps(st.heap, size);
    MallocRequests(st.heap, size);
    ReleaseRequests(u, b);
    OwnerPut(st.owner, id, NewBlock(st.heap, size));
  }

  lemma FreeSound(st: Run, id: nat)
    requires Sound(st) && id in st.owner
    ensures var t := Run(Release(st.heap, st.owner[id].at), st.owner - {id});
      Sound(t) && Served(st, FreeOp(id), t)
  {
    hide WellFormed, Release, Requested, Lives;
    var b := st.owner[id];
    assert b in Lives(st.heap.blocks);
    LivesAreLive(st.heap.blocks, b);
    ReleaseKeeps(st.heap, b);
    ReleaseRequests(st.heap, b);
    OwnerDrop(st.owner, id);
  }

  lemma StepSound(st: Run, op: Op)
    requires Sound(st) && SizeFits(op) && Step(st, op).Some?
    requires op.AllocOp? <==> op.id !in st.owner
    ensures Sound(Step(st, op).value) && Served(st, op, Step(st, op).value)
  {
    hide Sound, Served, Malloc, Realloc, Release, NewBlock;
    match op
    case AllocOp(id, size) => AllocSound(st, id, size);
    case ReallocOp(id, size) => ReallocSound(st, id, size);
    case FreeOp(id) => FreeSound(st, id);
  }

  /** Frees and resizes are of ids that own a block, sizes are positive, and a block can be had. */
  ghost predicate CanServe(st: Run, op: Op) {
    match op
    case AllocOp(_, size) => size > 0 && Grantable(st.heap, size)
    case ReallocOp(id, size) => id in st.owner && size > 0 && Grantable(st.heap, size)
    case FreeOp(id) => id in st.owner
  }

  lemma OwnedIsLive(st: Run, id: nat)
    requires Sound(st) && id in st.owner
    ensures WellFormed(st.heap) && st.owner[id] in Lives(st.heap.blocks) && st.owner[id].Live?
  {
    assert st.owner[id] in Lives(st.heap.blocks);
  }

  /** A request is granted exactly when it can be, and the heap grows by no more than it needs. */
  lemma StepServed(st: Run, op: Op)
    requires Sound(st) && SizeFits(op)
    ensures Step(st, op).Some? <==> CanServe(st, op)
    ensures Step(st, op).Some? ==> Step(st, op).value.heap.end <= st.heap.end + Need(op)
  {
    hide WellFormed, Malloc, Realloc, Release, NewBlock, Grantable, Lives, AdjustedSize;
    match op
    case AllocOp(_, size) =>
      AllocGranted(st.heap, size);
    case ReallocOp(id, size) =>
      if id in st.owner {
        OwnedIsLive(st, id);
        ReallocServed(st.heap, st.owner[id], size);
      }
    case FreeOp(id) =>
      if id in st.owner {
        OwnedIsLive(st, id);
        ReleaseKeeps(st.heap, st.owner[id]);
      }
  }

  lemma ReallocServed(s: Arena, b: Block, size: nat)
    requires WellFormed(s) && b in Lives(s.blocks) && size <= INT_MAX
    ensures Realloc(s, b.at, size).1.Some? <==> size > 0 && Grantable(s, size)
    ensures Realloc(s, b.at, size).1.Some? ==>
      Realloc(s, b.at, size).0.end <= s.end + Max(AdjustedSize(size), CHUNKSIZE)
  {
    hide WellFormed, Realloc, Grantable, AdjustedSize, Fits;
    ReallocKeeps(s, b, size);
  }

  lemma AllocGranted(s: Arena, size: nat)
    requires WellFormed(s) && size <= INT_MAX
    ensures Malloc(s, size).1.Some? <==> size > 0 && Grantable(s, size)
    ensures Malloc(s, size).1.Some? ==> Malloc(s, size).0.end <= s.end + Max(AdjustedSize(size), CHUNKSIZE)
  {
    hide WellFormed, Malloc, AdjustedSize, Fits;
    MallocKeeps(s, size);
    if Malloc(s, size).1.Some? { MallocPlaces(s, size); }
  }

  /** By how much a request can make the heap grow. */
  function Need(op: Op): nat { if op.FreeOp? then 0 else Max(AdjustedSize(op.size), CHUNKSIZE) }

  lemma OwnerPut(owner: map<nat, Block>, id: nat, b: Block)
    requires forall i, j :: i in owner && j in owner && i != j ==> owner[i] != owner[j]
    ensures id in owner ==> owner[id := b].Values == owner.Values - {owner[id]} + {b}
    ensures id !in owner ==> owner[id := b].Values == owner.Values + {b}
  {
    var o := owner[id := b];
    assert forall i :: i in owner && i != id ==> i in o && o[i] == owner[i];
    assert o[id] == b;
  }

  lemma OwnerDrop(owner: map<nat, Block>, id: nat)
    requires forall i, j :: i in owner && j in owner && i != j ==> owner[i] != owner[j]
    requires id in owner
    ensures (owner - {id}).Values == owner.Values - {owner[id]}
  {
    var o := owner - {id};
    assert forall i :: i in owner && i != id ==> i in o && o[i] == owner[i];
  }

  /** The heap reached by any well-formed trace that is served to the end is sound. */
  lemma {:induction false} EveryRunSound(ops: seq<Op>, n: nat)
    requires WellFormedTrace(ops, n) && RunTrace(ops).Some?
    ensures Sound(RunTrace(ops).value) && RunTrace(ops).value.owner.Keys == LiveIds(ops)
  {
    if ops == [] {
      InitialSound();
    } else {
      var k := |ops| - 1;
      PrefixWellFormed(ops, n, k);
      EveryRunSound(ops[..k], n);
      StepSound(RunTrace(ops[..k]).value, ops[k]);
    }
  }

  lemma PrefixWellFormed(ops: seq<Op>, n: nat, k: nat)
    requires WellFormedTrace(ops, n) && k <= |ops|
    ensures WellFormedTrace(ops[..k], n)
  {
    forall i | 0 <= i < k
      ensures var p := ops[..k]; p[i].id < n && SizeFits(p[i]) && (p[i].AllocOp? <==> p[i].id !in LiveIds(p[..i]))
    {
      assert ops[..k][..i] == ops[..i] && ops[..k][i] == ops[i];
    }
  }

  /** A failed request fails the run. */
  lemma {:induction false} FailureIsFinal(ops: seq<Op>, k: nat)
    requires k <= |ops| && RunTrace(ops[..k]).None?
    ensures RunTrace(ops).None?
  {
    if k == |ops| {
      assert ops[..k] == ops;
    } else {
      assert ops[..|ops| - 1][..k] == ops[..k];
      FailureIsFinal(ops[..|ops| - 1], k);
    }
  }

  lemma RunSnoc(ops: seq<Op>, i: nat)
    requires i < |ops|
    ensures RunTrace(ops[..i + 1]) == match RunTrace(ops[..i]) { case None => None case Some(st) => Step(st, ops[i]) }
    ensures LiveIds(ops[..i + 1]) == match ops[i] {
        case AllocOp(id, _) => LiveIds(ops[..i]) + {id}
        case ReallocOp(_, _) => LiveIds(ops[..i])
        case FreeOp(id) => LiveIds(ops[..i]) - {id}
      }
  {
    assert ops[..i + 1][..i] == ops[..i];
  }

  /** After a run that freed everything, in any order, the arena is one free block. */
  lemma EverythingFreed(ops: seq<Op>, n: nat)
    requires WellFormedTrace(ops, n) && RunTrace(ops).Some? && LiveIds(ops) == {}
    ensures var h := RunTrace(ops).value.heap; h.end > FIRST && h.blocks == [Free(FIRST, h.end - 32)]
  {
    hide RunTrace, WellFormed;
    EveryRunSound(ops, n);
    var st := RunTrace(ops).value;
    assert st.owner.Values == {};
    AllFreed(st.heap);
  }

  // ----- which traces are served -----

  ghost predicate ServedAt(ops: seq<Op>, i: nat)
    requires i < |ops|
  {
    RunTrace(ops[..i]).Some? && CanServe(RunTrace(ops[..i]).value, ops[i])
  }

  /** A trace is served to the end exactly when each of its requests can be served where it comes. */
  lemma {:induction false} ServedIff(ops: seq<Op>, n: nat)
    requires WellFormedTrace(ops, n)
    ensures RunTrace(ops).Some? <==> forall i :: 0 <= i < |ops| ==> ServedAt(ops, i)
  {
    hide CanServe, Step, Sound;
    if ops != [] {
      var k := |ops| - 1;
      PrefixWellFormed(ops, n, k);
      ServedIff(ops[..k], n);
      forall i | 0 <= i < k ensures ServedAt(ops, i) <==> ServedAt(ops[..k], i) {
        assert ops[..k][..i] == ops[..i];
      }
      if RunTrace(ops[..k]).Some? {
        EveryRunSound(ops[..k], n);
        StepServed(RunTrace(ops[..k]).value, ops[k]);
      }
      assert (forall i :: 0 <= i < |ops| ==> ServedAt(ops, i)) <==>
        (forall i :: 0 <= i < k ==> ServedAt(ops, i)) && ServedAt(ops, k);
    }
  }

  function Demand(ops: seq<Op>): nat {
    if ops == [] then 0 else Demand(ops[..|ops| - 1]) + Need(ops[|ops| - 1])
  }

  /** All sizes are positive, and the arena has room for all of them one after the other. */
  ghost predicate Ample(ops: seq<Op>) {
    && (forall i :: 0 <= i < |ops| ==> ops[i].FreeOp? || ops[i].size > 0)
    && FIRST + CHUNKSIZE + Demand(ops) <= MAX_HEAP
  }

  /** Such a trace is served to the end, whatever its order. */
  lemma {:induction false} AmpleServed(ops: seq<Op>, n: nat)
    requires WellFormedTrace(ops, n) && Ample(ops)
    ensures RunTrace(ops).Some? && RunTrace(ops).value.heap.end <= FIRST + CHUNKSIZE + Demand(ops)
  {
    hide Step, Sound, Need;
    if ops != [] {
      var k := |ops| - 1;
      PrefixWellFormed(ops, n, k);
      assert Ample(ops[..k]);
      AmpleServed(ops[..k], n);
      EveryRunSound(ops[..k], n);
      var st := RunTrace(ops[..k]).value;
      StepServed(st, ops[k]);
      RoomServes(st, ops[k]);
    }
  }

  lemma RoomServes(st: Run, op: Op)
    requires op.AllocOp? || op.id in st.owner
    requires op.FreeOp? || op.size > 0
    requires st.heap.end + Need(op) <= MAX_HEAP
    ensures CanServe(st, op)
  {
    hide AdjustedSize, Fits;
  }

  // ----- the bytes a client holds, from the trace alone -----

  /** The size last asked for under an id. */
  function LastSize(ops: seq<Op>, id: nat): nat {
    if ops == [] then 0
    else
      var op := ops[|ops| - 1];
      if !op.FreeOp? && op.id == id then op.size else LastSize(ops[..|ops| - 1], id)
  }

  /** What the ids that are live at the end asked for last, added up. */
  function NetBytes(ops: seq<Op>): int {
    if ops == [] then 0
    else
      var init := ops[..|ops| - 1];
      match ops[|ops| - 1]
      case AllocOp(_, size) => NetBytes(init) + size
      case ReallocOp(id, size) => NetBytes(init) + size - LastSize(init, id)
      case FreeOp(id) => NetBytes(init) - LastSize(init, id)
  }

  lemma {:induction false} LiveBytesAre(ops: seq<Op>, n: nat)
    requires WellFormedTrace(ops, n) && RunTrace(ops).Some?
    ensures LiveBytes(ops) == NetBytes(ops)
    ensures forall id :: id in RunTrace(ops).value.owner ==>
      RunTrace(ops).value.owner[id].Live? && RunTrace(ops).value.owner[id].req == LastSize(ops, id)
  {
    hide Step, Sound, Requested;
    if ops == [] {
      NoneRequested(INITIAL.heap.blocks);
    } else {
      var k := |ops| - 1;
      PrefixWellFormed(ops, n, k);
      LiveBytesAre(ops[..k], n);
      EveryRunSound(ops[..k], n);
      StepSound(RunTrace(ops[..k]).value, ops[k]);
    }
  }

  // ----- utilisation -----

  function LiveBytes(ops: seq<Op>): nat {
    match RunTrace(ops) case None => 0 case Some(st) => Requested(st.heap.blocks)
  }

  /** The high-water mark of the live requested bytes over the prefixes of a trace. */
  function Peak(ops: seq<Op>): (m: nat)
    ensures m >= LiveBytes(ops)
  {
    if ops == [] then LiveBytes(ops) else Max(LiveBytes(ops), Peak(ops[..|ops| - 1]))
  }

  function NetAfter(ops: seq<Op>, k: nat): int
    requires k <= |ops|
  {
    NetBytes(ops[..k])
  }

  /** Peak is the largest total of live bytes over the prefixes of the trace. */
  lemma {:induction false} PeakIs(ops: seq<Op>, n: nat)
    requires WellFormedTrace(ops, n) && RunTrace(ops).Some?
    ensures forall k :: 0 <= k <= |ops| ==> NetAfter(ops, k) <= Peak(ops)
    ensures exists k :: 0 <= k <= |ops| && NetAfter(ops, k) == Peak(ops)
  {
    hide RunTrace, LiveBytes, NetAfter, WellFormedTrace;
    LiveBytesAre(ops, n);
    NetAfterAll(ops);
    if ops != [] {
      var m := |ops| - 1;
      var init := ops[..m];
      PrefixWellFormed(ops, n, m);
      RunPrefix(ops);
      PeakIs(init, n);
      forall k | 0 <= k <= m ensures NetAfter(ops, k) == NetAfter(init, k) {
        NetAfterPrefix(ops, m, k);
      }
      if Peak(ops) != LiveBytes(ops) {
        var k :| 0 <= k <= m && NetAfter(init, k) == Peak(init);
        assert NetAfter(ops, k) == Peak(ops);
      }
    }
  }

  lemma NetAfterAll(ops: seq<Op>)
    ensures NetAfter(ops, |ops|) == NetBytes(ops)
  {
    assert ops[..|ops|] == ops;
  }

  lemma NetAfterPrefix(ops: seq<Op>, m: nat, k: nat)
    requires k <= m <= |ops|
    ensures NetAfter(ops[..m], k) == NetAfter(ops, k)
  {
    assert ops[..m][..k] == ops[..k];
  }

  lemma RunPrefix(ops: seq<Op>)
    requires ops != [] && RunTrace(ops).Some?
    ensures RunTrace(ops[..|ops| - 1]).Some?
  {
  }

  lemma {:induction false} ValuesCount(owner: map<nat, Block>)
    requires forall i, j :: i in owner && j in owner && i != j ==> owner[i] != owner[j]
    ensures |owner.Values| == |owner.Keys|
    decreases |owner|
  {
    if owner == map[] {
      assert owner.Keys == {} && owner.Values == {};
    } else {
      var id :| id in owner;
      OwnerDrop(owner, id);
      ValuesCount(owner - {id});
      assert (owner - {id}).Keys == owner.Keys - {id};
    }
  }

  /** The live requests and 16 bytes for each of them fit between prologue and epilogue. */
  lemma LiveBytesFit(ops: seq<Op>, n: nat)
    requires WellFormedTrace(ops, n) && RunTrace(ops).Some?
    ensures LiveBytes(ops) + 16 * |LiveIds(ops)| + 32 <= RunTrace(ops).value.heap.end
    ensures LiveBytes(ops) > 0 ==> |LiveIds(ops)| > 0
  {
    hide RunTrace, LiveIds, Requested, LiveCount, Chained, Lives;
    var st := RunTrace(ops).value;
    EveryRunSound(ops, n);
    RequestedFits(st.heap.blocks, FIRST, st.heap.end);
    LiveCountIs(st.heap.blocks, FIRST, st.heap.end);
    ValuesCount(st.owner);
    if LiveBytes(ops) > 0 { RequestsLive(st.heap.blocks); }
  }

  /** The high-water mark of the live requested bytes with 16 bytes for the tags of each block. */
  function TaggedPeak(ops: seq<Op>): (m: nat)
    ensures m >= LiveBytes(ops) + 16 * |LiveIds(ops)|
  {
    var now := LiveBytes(ops) + 16 * |LiveIds(ops)|;
    if ops == [] then now else Max(now, TaggedPeak(ops[..|ops| - 1]))
  }

  /** The high-water mark of the requested bytes, also with 16 bytes for every block then live, stays 32 bytes below
      the heap size reached at the end. */
  lemma {:induction false} PeakFits(ops: seq<Op>, n: nat)
    requires WellFormedTrace(ops, n) && RunTrace(ops).Some?
    ensures TaggedPeak(ops) + 32 <= RunTrace(ops).value.heap.end
    ensures Peak(ops) <= TaggedPeak(ops) && (Peak(ops) > 0 ==> Peak(ops) + 16 <= TaggedPeak(ops))
  {
    hide LiveBytes, LiveIds, Sound;
    LiveBytesFit(ops, n);
    if ops != [] {
      var k := |ops| - 1;
      PrefixWellFormed(ops, n, k);
      EveryRunSound(ops[..k], n);
      StepSound(RunTrace(ops[..k]).value, ops[k]);
      PeakFits(ops[..k], n);
    }
  }
}
