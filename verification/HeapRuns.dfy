// Any sequence of calls, from initialisation on.
module HeapRuns {
  import opened Chunks
  import Coalescing
  import opened Errors
  import opened HeapModel
  import opened HeapTheorems

  datatype Call = Malloc(size: nat) | Free(ptr: nat)

  ghost function Do(v: Variant, h: Heap, c: Call): (o: Outcome)
    requires h.Tables()
    ensures o.heap.Tables()
  {
    match c
    case Malloc(n) => HeapModel.Malloc(h, n)
    case Free(p) => HeapModel.Free(v, h, p)
  }

  lemma DoValid(v: Variant, h: Heap, c: Call)
    requires h.Valid()
    ensures var g := Do(v, h, c).heap;
      && g.Valid() && g.base == h.base && g.cap == h.cap && |g.taken| == |h.taken|
      && (v.TwoSided? && Coalesced(h.freed) ==> Coalesced(g.freed))
  {
    match c
    case Malloc(n) => MallocValid(h, n);
    case Free(p) => FreeValid(v, h, p);
  }

  ghost function Run(v: Variant, h: Heap, calls: seq<Call>): (g: Heap)
    requires h.Tables()
    ensures g.Tables()
    decreases |calls|
  {
    if calls == [] then h
    else
      Run(v, Do(v, h, calls[0]).heap, calls[1..])
  }

  /** Every reachable heap is partitioned; the installer's is also fully coalesced. */
  lemma {:induction false} RunValid(v: Variant, h: Heap, calls: seq<Call>)
    requires h.Valid()
    ensures var g := Run(v, h, calls);
      && g.Valid() && g.base == h.base && g.cap == h.cap && |g.taken| == |h.taken|
      && (v.TwoSided? && Coalesced(h.freed) ==> Coalesced(g.freed))
    decreases |calls|
  {
    if calls != [] {
      DoValid(v, h, calls[0]);
      RunValid(v, Do(v, h, calls[0]).heap, calls[1..]);
    }
  }

  /** A call leaks exactly when it reports an internal error, and then just the chunk
      it failed to record: the bytes cut by malloc, or the block given to free. */
  lemma LeakGrowth(v: Variant, h: Heap, c: Call)
    requires h.Valid()
    ensures var o := Do(v, h, c);
      if o.err != Internal then o.heap.leaked == h.leaked
      else exists b ::
        && o.heap.leaked == h.leaked + [b]
        && match c
           case Malloc(n) => b.size == n && Unused(h, b.start, n)
           case Free(p) => b in h.Live() && b.start == p
  {
    match c
    case Malloc(n) =>
      var k := FirstFit(h.freed, n);
      if n > 0 && k < |h.freed| {
        CutIsUnused(h, k, n);
        var b := Chunk(h.freed[k].start, n);
        assert b.size == n;
      }
    case Free(p) =>
      var k := FirstAt(h.taken, p);
      if p > 0 && k < |h.taken| {
        assert h.taken[k] in h.Live();
      }
  }

  // No malloc of the run meets a full table of live blocks while it has the room.
  ghost predicate SlotsSuffice(v: Variant, h: Heap, calls: seq<Call>)
    requires h.Tables()
    decreases |calls|
  {
    calls != [] ==>
      && (calls[0].Malloc? && calls[0].size > 0 && h.HasRoom(calls[0].size) ==> h.HasSlot())
      && SlotsSuffice(v, Do(v, h, calls[0]).heap, calls[1..])
  }

  lemma {:induction false} LeaksStay(v: Variant, h: Heap, calls: seq<Call>)
    requires h.Valid()
    ensures h.leaked <= Run(v, h, calls).leaked
    decreases |calls|
  {
    if calls != [] {
      DoValid(v, h, calls[0]);
      LeakGrowth(v, h, calls[0]);
      LeaksStay(v, Do(v, h, calls[0]).heap, calls[1..]);
    }
  }

  /** The installer's heap loses memory exactly when some malloc found every slot taken:
      free never does, over any run. */
  lemma {:induction false} RunLeaks(h: Heap, calls: seq<Call>)
    requires h.Valid() && Coalesced(h.freed) && h.leaked == []
    ensures Run(TwoSided, h, calls).leaked == [] <==> SlotsSuffice(TwoSided, h, calls)
    decreases |calls|
  {
    if calls != [] {
      var c := calls[0];
      var g := Do(TwoSided, h, c).heap;
      DoValid(TwoSided, h, c);
      LeakGrowth(TwoSided, h, c);
      if c.Free? {
        FreeNeverFails(TwoSided, h, c.ptr);
      }
      if g.leaked == [] {
        RunLeaks(g, calls[1..]);
      } else {
        LeaksStay(TwoSided, g, calls[1..]);
      }
    }
  }

  /** Whatever else is called, a block stays live, at its address and with its size,
      until it is freed. */
  lemma {:induction false} BlockSurvives(v: Variant, h: Heap, calls: seq<Call>, b: Chunk)
    requires h.Valid() && b in h.Live() && Free(b.start) !in calls
    ensures b in Run(v, h, calls).Live()
    decreases |calls|
  {
    if calls != [] {
      var c := calls[0];
      DoValid(v, h, c);
      match c {
        case Malloc(n) => MallocDelivers(h, n);
        case Free(p) => OtherBlockStays(v, h, p, b);
      }
      BlockSurvives(v, Do(v, h, c).heap, calls[1..], b);
    }
  }

  lemma OtherBlockStays(v: Variant, h: Heap, p: nat, b: Chunk)
    requires h.Valid() && b in h.Live() && b.start != p
    ensures b in HeapModel.Free(v, h, p).heap.Live()
  {
    var k := FirstAt(h.taken, p);
    if p > 0 && k < |h.taken| {
      BlocksRemove(h.taken, k);
    }
  }

  /** Live blocks never overlap and never leave the heap. */
  lemma LiveBlocksApart(v: Variant, h: Heap, calls: seq<Call>, b: Chunk, c: Chunk)
    requires h.Valid()
    requires b in Run(v, h, calls).Live() && c in Run(v, h, calls).Live() && b != c
    ensures b.Apart(c) && h.base <= b.start && b.End() <= h.base + h.cap
  {
    RunValid(v, h, calls);
    var g := Run(v, h, calls);
    var i: nat :| i < |g.taken| && g.taken[i] == b;
    var j: nat :| j < |g.taken| && g.taken[j] == c;
    Coalescing.SeparatePair(g.taken, i, j);
    Coalescing.CoversSlot(g.taken, i, b.start);
    Coalescing.CoversSlot(g.taken, i, b.End() - 1);
    assert b.start in Cells(g.taken) && b.End() - 1 in Cells(g.taken);
    assert b.start in g.Range() && b.End() - 1 in g.Range();
  }

  /** After any run of the installer in which the slots sufficed and every block was
      freed again, the heap is as good as new: one free chunk, and a request that fits
      gets its base. */
  lemma EverythingFreed(base: nat, cap: nat, slots: nat, calls: seq<Call>, n: nat)
    requires base > 0 && cap > 0 && base + cap < WORD && slots > 0 && 0 < n <= cap
    requires SlotsSuffice(TwoSided, Init(base, cap, slots), calls)
    requires Run(TwoSided, Init(base, cap, slots), calls).Live() == {}
    ensures var g := Run(TwoSided, Init(base, cap, slots), calls);
      Blocks(g.freed) == {Chunk(base, cap)} && HeapModel.Malloc(g, n).ptr == base
  {
    var h := Init(base, cap, slots);
    InitValid(base, cap, slots);
    RunValid(TwoSided, h, calls);
    RunLeaks(h, calls);
    AllFreed(Run(TwoSided, h, calls), n);
  }

  // No free of the run gives back a block that lies between two free chunks.
  ghost predicate NoGapCloses(h: Heap, calls: seq<Call>)
    requires h.Tables()
    decreases |calls|
  {
    calls != [] ==>
      && (calls[0].Free? ==> !ClosesGap(h, calls[0].ptr))
      && NoGapCloses(Do(OneSided, h, calls[0]).heap, calls[1..])
  }

  // After every call of the run the two allocators hold the same tables.
  ghost predicate InStep(h: Heap, calls: seq<Call>)
    requires h.Tables()
    decreases |calls|
  {
    calls != [] ==>
      var c := calls[0];
      Do(OneSided, h, c) == Do(TwoSided, h, c) && InStep(Do(OneSided, h, c).heap, calls[1..])
  }

  /** The kernel's allocator keeps in step with the installer's exactly as long as no
      freed block lies between two free chunks; until then its table is coalesced too. */
  lemma {:induction false} KernelInStep(h: Heap, calls: seq<Call>)
    requires h.Valid() && Coalesced(h.freed)
    ensures InStep(h, calls) <==> NoGapCloses(h, calls)
    ensures NoGapCloses(h, calls) ==>
      var g := Run(OneSided, h, calls);
      && g == Run(TwoSided, h, calls) && Coalesced(g.freed)
      && (SlotsSuffice(OneSided, h, calls) <==> SlotsSuffice(TwoSided, h, calls))
    decreases |calls|
  {
    if calls != [] {
      var c := calls[0];
      DoAgrees(h, c);
      DoValid(TwoSided, h, c);
      if Do(OneSided, h, c) == Do(TwoSided, h, c) {
        KernelInStep(Do(OneSided, h, c).heap, calls[1..]);
      }
    }
  }

  lemma DoAgrees(h: Heap, c: Call)
    requires h.Valid() && Coalesced(h.freed)
    ensures Do(OneSided, h, c) == Do(TwoSided, h, c) <==> (c.Free? ==> !ClosesGap(h, c.ptr))
  {
    if c.Free? {
      FreeAgrees(h, c.ptr);
    }
  }
}
