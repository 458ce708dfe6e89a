/** Runs of the allocator under any client: requests of any size that go on after a refusal, resizes to 0, and
    pointers that are NULL. An id names what the client holds; one that owns no block holds NULL. */
module ClientRuns {
  import opened Options
  import opened HeapWords
  import opened HeapLayout
  import opened HeapTheorems
  import opened HeapRequests
  import opened Traces

  /** mm_malloc for `id`; NULL changes nothing. */
  function ServeMalloc(st: Run, id: nat, size: nat): Run {
    var (t, p) := Malloc(st.heap, size);
    if p.None? then st else Run(t, st.owner[id := NewBlock(st.heap, size)])
  }

  /** One request, granted or refused. */
  function Serve(st: Run, op: Op): Run {
    match op
    case AllocOp(id, size) => ServeMalloc(st, id, size)
    case ReallocOp(id, size) =>
      if id !in st.owner then ServeMalloc(st, id, size)
      else
        var (t, p) := Realloc(st.heap, st.owner[id].at, size);
        if size == 0 then Run(t, st.owner - {id})
        else if p.None? then st
        else Run(t, st.owner[id := NewBlock(st.heap, size)])
    case FreeOp(id) =>
      if id !in st.owner then st else Run(Release(st.heap, st.owner[id].at), st.owner - {id})
  }

  /** A new block gets a new id, and its size is one that mm_malloc answers rightly. */
  ghost predicate Legal(st: Run, op: Op)
    requires st.heap.end <= MAX_HEAP
  {
    && (op.AllocOp? ==> op.id !in st.owner)
    && (!op.FreeOp? ==> op.size < TWO64 && Answerable(st.heap, op.size))
  }

  function AnyRun(ops: seq<Op>): Run {
    if ops == [] then INITIAL else Serve(AnyRun(ops[..|ops| - 1]), ops[|ops| - 1])
  }

  ghost predicate LegalRun(ops: seq<Op>) {
    forall i :: 0 <= i < |ops| ==> LegalAt(ops, i)
  }

  ghost predicate LegalAt(ops: seq<Op>, i: nat)
    requires i < |ops|
  {
    AnyRun(ops[..i]).heap.end <= MAX_HEAP && Legal(AnyRun(ops[..i]), ops[i])
  }

  /** The heap does not shrink, and the blocks of other ids stay where they are. */
  ghost predicate Kept(st: Run, op: Op, t: Run) {
    st.heap.end <= t.heap.end && forall j :: j in st.owner && j != op.id ==> j in t.owner && t.owner[j] == st.owner[j]
  }

  lemma ServeMallocSound(st: Run, id: nat, size: nat)
    requires Sound(st) && id !in st.owner && size < TWO64 && Answerable(st.heap, size)
    ensures var t := ServeMalloc(st, id, size); Sound(t) && Kept(st, AllocOp(id, size), t)
  {
    hide WellFormed, Malloc, NewBlock, Requested;
    if Malloc(st.heap, size).1.Some? {
      AllocSound(st, id, size);
    }
  }

  /** Every legal request keeps the heap sound. */
  lemma ServeSound(st: Run, op: Op)
    requires Sound(st) && Legal(st, op)
    ensures Sound(Serve(st, op)) && Kept(st, op, Serve(st, op))
  {
    hide Sound, Malloc, NewBlock, Release, Requested;
    match op
    case AllocOp(id, size) => ServeMallocSound(st, id, size);
    case ReallocOp(id, size) =>
      if id !in st.owner {
        ServeMallocSound(st, id, size);
      } else if size == 0 {
        FreeSound(st, id);
      } else if Realloc(st.heap, st.owner[id].at, size).1.Some? {
        ReallocSound(st, id, size);
      }
    case FreeOp(id) =>
      if id in st.owner {
        FreeSound(st, id);
      }
  }

  /** After any legal requests, granted or refused, the heap is sound. */
  lemma {:induction false} AnyRunSound(ops: seq<Op>)
    requires LegalRun(ops)
    ensures Sound(AnyRun(ops))
  {
    hide Sound, Serve, Legal;
    if ops == [] {
      InitialSound();
    } else {
      var k := |ops| - 1;
      LegalPrefix(ops, k);
      AnyRunSound(ops[..k]);
      assert LegalAt(ops, k);
      ServeSound(AnyRun(ops[..k]), ops[k]);
    }
  }

  lemma LegalPrefix(ops: seq<Op>, k: nat)
    requires LegalRun(ops) && k <= |ops|
    ensures LegalRun(ops[..k])
  {
    hide AnyRun, Legal;
    forall i | 0 <= i < k ensures LegalAt(ops[..k], i) {
      assert LegalAt(ops, i) && ops[..k][..i] == ops[..i];
    }
  }

  /** When the client holds nothing any more, one free block is left. */
  lemma NothingHeld(ops: seq<Op>)
    requires LegalRun(ops) && AnyRun(ops).owner == map[]
    ensures var h := AnyRun(ops).heap; h.end > FIRST && h.blocks == [Free(FIRST, h.end - 32)]
  {
    hide AnyRun, LegalRun, WellFormed;
    AnyRunSound(ops);
    assert AnyRun(ops).owner.Values == {};
    AllFreed(AnyRun(ops).heap);
  }

  lemma SmallAnswerable(s: Arena, size: nat)
    requires size <= INT_MAX && s.end <= MAX_HEAP
    ensures size < TWO64 && Answerable(s, size)
  {
    if size > 0 { AdjustedCoversRequest(size); }
  }

  lemma BoundedIfSound(st: Run)
    requires Sound(st)
    ensures st.heap.end <= MAX_HEAP
  {
  }

  lemma ServedStep(st: Run, op: Op)
    requires Sound(st) && SizeFits(op) && Step(st, op).Some? && (op.AllocOp? <==> op.id !in st.owner)
    ensures Legal(st, op) && Serve(st, op) == Step(st, op).value
  {
    hide Malloc, Release, NewBlock, WellFormed, Answerable;
    BoundedIfSound(st);
    if !op.FreeOp? { SmallAnswerable(st.heap, op.size); }
  }

  /** The traces of mdriver.c that are served to the end are such runs. */
  lemma {:induction false} ServedIsAnyRun(ops: seq<Op>, n: nat)
    requires WellFormedTrace(ops, n) && RunTrace(ops).Some?
    ensures AnyRun(ops) == RunTrace(ops).value && LegalRun(ops)
  {
    hide Serve, Step, Sound, Legal;
    if ops != [] {
      var k := |ops| - 1;
      PrefixWellFormed(ops, n, k);
      ServedIsAnyRun(ops[..k], n);
      EveryRunSound(ops[..k], n);
      var st := RunTrace(ops[..k]).value;
      ServedStep(st, ops[k]);
      BoundedIfSound(st);
      forall i | 0 <= i < |ops| ensures LegalAt(ops, i) {
        if i < k {
          assert LegalAt(ops[..k], i) && ops[..k][..i] == ops[..i];
        }
      }
    }
  }
}
