// Short runs that show where the theorems stop: a leak can strand a live block, and the
// kernel's one-sided merge falls short of the installer's even without a leak.
module HeapLimits {
  import opened Chunks
  import Coalescing
  import opened Errors
  import opened HeapModel
  import opened HeapRuns

  // One call of a run, when the slots the scans stop at are known.

  lemma MallocThen(v: Variant, h: Heap, n: nat, k: nat, e: nat, rest: seq<Call>, g: Heap)
    requires h.Tables()
    requires n > 0 && k < |h.freed| && h.freed[k].size >= n && forall i :: 0 <= i < k ==> h.freed[i].size < n
    requires e < |h.taken| && h.taken[e].Empty() && forall i :: 0 <= i < e ==> !h.taken[i].Empty()
    requires g == h.(freed := h.freed[k := Rest(h.freed[k], n)], taken := h.taken[e := Chunk(h.freed[k].start, n)])
    ensures g.Tables() && Run(v, h, [Malloc(n)] + rest) == Run(v, g, rest)
    ensures SlotsSuffice(v, h, [Malloc(n)] + rest) <==> SlotsSuffice(v, g, rest)
  {
    hide First;
    FitIsAt(h.freed, n, k);
    EmptyIsAt(h.taken, e);
    assert ([Malloc(n)] + rest)[1..] == rest;
  }

  lemma MallocFullThen(v: Variant, h: Heap, n: nat, k: nat, rest: seq<Call>, g: Heap)
    requires h.Tables()
    requires n > 0 && k < |h.freed| && h.freed[k].size >= n && forall i :: 0 <= i < k ==> h.freed[i].size < n
    requires forall i :: 0 <= i < |h.taken| ==> !h.taken[i].Empty()
    requires g == h.(freed := h.freed[k := Rest(h.freed[k], n)], leaked := h.leaked + [Chunk(h.freed[k].start, n)])
    ensures g.Tables() && Run(v, h, [Malloc(n)] + rest) == Run(v, g, rest)
  {
    hide First;
    FitIsAt(h.freed, n, k);
    EmptyIsAt(h.taken, |h.taken|);
    assert ([Malloc(n)] + rest)[1..] == rest;
  }

  // The block in slot k joins the free chunk in slot j.
  lemma FreeJoins(h: Heap, k: nat, j: nat, rest: seq<Call>, g: Heap)
    requires h.Tables() && k < |h.taken| && !h.taken[k].Empty()
    requires forall i :: 0 <= i < k ==> h.taken[i].start != h.taken[k].start
    requires j < |h.freed| && h.freed[j].Touches(h.taken[k])
    requires forall i :: 0 <= i < j ==> !h.freed[i].Touches(h.taken[k])
    requires g == h.(taken := h.taken[k := NONE], freed := h.freed[j := Join(h.freed[j], h.taken[k])])
    ensures g.Tables() && Run(OneSided, h, [Free(h.taken[k].start)] + rest) == Run(OneSided, g, rest)
    ensures SlotsSuffice(OneSided, h, [Free(h.taken[k].start)] + rest) <==> SlotsSuffice(OneSided, g, rest)
  {
    hide First, Absorb;
    StartIsAt(h.taken, h.taken[k].start, k);
    NeighbourIsAt(h.freed, h.taken[k], j);
    assert ([Free(h.taken[k].start)] + rest)[1..] == rest;
  }

  // The block in slot k has no free neighbour and goes into the empty slot e.
  lemma FreeInserts(h: Heap, k: nat, e: nat, rest: seq<Call>, g: Heap)
    requires h.Tables() && k < |h.taken| && !h.taken[k].Empty()
    requires forall i :: 0 <= i < k ==> h.taken[i].start != h.taken[k].start
    requires forall i :: 0 <= i < |h.freed| ==> !h.freed[i].Touches(h.taken[k])
    requires e < |h.freed| && h.freed[e].Empty() && forall i :: 0 <= i < e ==> !h.freed[i].Empty()
    requires g == h.(taken := h.taken[k := NONE], freed := h.freed[e := h.taken[k]])
    ensures g.Tables() && Run(OneSided, h, [Free(h.taken[k].start)] + rest) == Run(OneSided, g, rest)
    ensures SlotsSuffice(OneSided, h, [Free(h.taken[k].start)] + rest) <==> SlotsSuffice(OneSided, g, rest)
  {
    hide First, Absorb;
    StartIsAt(h.taken, h.taken[k].start, k);
    NeighbourIsAt(h.freed, h.taken[k], |h.freed|);
    EmptyIsAt(h.freed, e);
    assert ([Free(h.taken[k].start)] + rest)[1..] == rest;
  }

  // Freeing the live block b fails and loses it.
  ghost predicate Stranded(v: Variant, h: Heap, b: Chunk)
    requires h.Tables()
  {
    var o := HeapModel.Free(v, h, b.start);
    b in h.Live() && o.err == Internal && o.heap.leaked == h.leaked + [b]
  }

  // The block in slot k has no free neighbour and no slot to go into.
  lemma FreeFails(v: Variant, h: Heap, k: nat, b: Chunk)
    requires h.Tables() && k < |h.taken| && !b.Empty() && h.taken[k] == b
    requires forall i :: 0 <= i < k ==> h.taken[i].start != b.start
    requires forall i :: 0 <= i < |h.freed| ==> !h.freed[i].Touches(b) && !h.freed[i].Empty()
    ensures Stranded(v, h, b)
  {
    hide PutBack;
    StartIsAt(h.taken, b.start, k);
    Coalescing.PutBackFails(v, h.freed, b);
  }

  /** With one slot per table, a malloc that finds it taken makes the installer's next
      free of a live block fail as well. */
  lemma LeakStrandsBlock()
    ensures var g := Run(TwoSided, Init(1, 10, 1), [Malloc(1)] + ([Malloc(1)] + []));
      g.leaked == [Chunk(2, 1)] && Stranded(TwoSided, g, Chunk(1, 1))
  {
    hide Run, SlotsSuffice;
    var h0 := Heap(1, 10, [NONE], [Chunk(1, 10)], []);
    var h1 := Heap(1, 10, [Chunk(1, 1)], [Chunk(2, 9)], []);
    var h2 := Heap(1, 10, [Chunk(1, 1)], [Chunk(3, 8)], [Chunk(2, 1)]);
    assert h0 == Init(1, 10, 1);
    MallocThen(TwoSided, h0, 1, 0, 0, [Malloc(1)] + [], h1);
    MallocFullThen(TwoSided, h1, 1, 0, [], h2);
    Done(TwoSided, h2);
    FreeFails(TwoSided, h2, 0, Chunk(1, 1));
  }

  lemma Done(v: Variant, h: Heap)
    requires h.Tables()
    ensures Run(v, h, []) == h && SlotsSuffice(v, h, [])
  {
  }

  // Two blocks cut from a heap of nine bytes ...
  lemma TwoTaken(rest: seq<Call>)
    ensures var h := Init(1, 9, 2);
      var g := Heap(1, 9, [Chunk(1, 7), Chunk(8, 1)], [Chunk(9, 1), NONE], []);
      var calls := [Malloc(7)] + ([Malloc(1)] + rest);
      g.Tables() && Run(OneSided, h, calls) == Run(OneSided, g, rest)
      && (SlotsSuffice(OneSided, h, calls) <==> SlotsSuffice(OneSided, g, rest))
  {
    hide Run, SlotsSuffice;
    var h0 := Heap(1, 9, [NONE, NONE], [Chunk(1, 9), NONE], []);
    var h1 := Heap(1, 9, [Chunk(1, 7), NONE], [Chunk(8, 2), NONE], []);
    var h2 := Heap(1, 9, [Chunk(1, 7), Chunk(8, 1)], [Chunk(9, 1), NONE], []);
    assert h0 == Init(1, 9, 2);
    MallocThen(OneSided, h0, 7, 0, 0, [Malloc(1)] + rest, h1);
    MallocThen(OneSided, h1, 1, 0, 1, rest, h2);
  }

  // ... and freed again.
  lemma TwoFreed(rest: seq<Call>)
    ensures var h := Heap(1, 9, [Chunk(1, 7), Chunk(8, 1)], [Chunk(9, 1), NONE], []);
      var g := Heap(1, 9, [NONE, NONE], [Chunk(8, 2), Chunk(1, 7)], []);
      var calls := [Free(1)] + ([Free(8)] + rest);
      g.Tables() && h.Tables() && Run(OneSided, h, calls) == Run(OneSided, g, rest)
      && (SlotsSuffice(OneSided, h, calls) <==> SlotsSuffice(OneSided, g, rest))
  {
    hide Run, SlotsSuffice;
    var h2 := Heap(1, 9, [Chunk(1, 7), Chunk(8, 1)], [Chunk(9, 1), NONE], []);
    var h3 := Heap(1, 9, [NONE, Chunk(8, 1)], [Chunk(9, 1), Chunk(1, 7)], []);
    var h4 := Heap(1, 9, [NONE, NONE], [Chunk(8, 2), Chunk(1, 7)], []);
    FreeInserts(h2, 0, 1, [Free(8)] + rest, h3);
    FreeJoins(h3, 1, 0, rest, h4);
  }

  lemma Hole(rest: seq<Call>)
    ensures var h := Init(1, 9, 2);
      var g := Heap(1, 9, [NONE, NONE], [Chunk(8, 2), Chunk(1, 7)], []);
      var calls := [Malloc(7)] + ([Malloc(1)] + ([Free(1)] + ([Free(8)] + rest)));
      g.Tables() && Run(OneSided, h, calls) == Run(OneSided, g, rest)
      && (SlotsSuffice(OneSided, h, calls) <==> SlotsSuffice(OneSided, g, rest))
  {
    hide Run, SlotsSuffice;
    TwoTaken([Free(1)] + ([Free(8)] + rest));
    TwoFreed(rest);
  }

  // Two more blocks, both from the second free chunk.
  lemma TwoMore(rest: seq<Call>)
    ensures var h := Heap(1, 9, [NONE, NONE], [Chunk(8, 2), Chunk(1, 7)], []);
      var g := Heap(1, 9, [Chunk(1, 3), Chunk(4, 3)], [Chunk(8, 2), Chunk(7, 1)], []);
      var calls := [Malloc(3)] + ([Malloc(3)] + rest);
      g.Tables() && h.Tables() && Run(OneSided, h, calls) == Run(OneSided, g, rest)
      && (SlotsSuffice(OneSided, h, calls) <==> SlotsSuffice(OneSided, g, rest))
  {
    hide Run, SlotsSuffice;
    var h4 := Heap(1, 9, [NONE, NONE], [Chunk(8, 2), Chunk(1, 7)], []);
    var h5 := Heap(1, 9, [Chunk(1, 3), NONE], [Chunk(8, 2), Chunk(4, 4)], []);
    var h6 := Heap(1, 9, [Chunk(1, 3), Chunk(4, 3)], [Chunk(8, 2), Chunk(7, 1)], []);
    MallocThen(OneSided, h4, 3, 1, 0, [Malloc(3)] + rest, h5);
    MallocThen(OneSided, h5, 3, 1, 1, rest, h6);
  }

  /** Everything is freed, nothing leaked, and still the heap cannot be allocated whole:
      two adjacent free chunks stay apart. */
  lemma KernelStaysSplit()
    ensures var h := Init(1, 9, 2);
      var calls := [Malloc(7)] + ([Malloc(1)] + ([Free(1)] + ([Free(8)] + [])));
      SlotsSuffice(OneSided, h, calls) &&
      var g := Run(OneSided, h, calls);
      && g.Live() == {} && g.leaked == [] && !Coalesced(g.freed)
      && HeapModel.Malloc(g, 9).err == HeapFull
  {
    hide Run, SlotsSuffice;
    Hole([]);
    var g := Heap(1, 9, [NONE, NONE], [Chunk(8, 2), Chunk(1, 7)], []);
    Done(OneSided, g);
    assert g.freed[0].Touches(g.freed[1]);
  }

  /** free of a live block can fail, and lose the block, although every malloc of the
      run found an empty slot. */
  lemma KernelFreeFails()
    ensures var h := Init(1, 9, 2);
      var calls := [Malloc(7)] + ([Malloc(1)] + ([Free(1)] + ([Free(8)] + ([Malloc(3)] + ([Malloc(3)] + [])))));
      SlotsSuffice(OneSided, h, calls) &&
      Run(OneSided, h, calls).leaked == [] && Stranded(OneSided, Run(OneSided, h, calls), Chunk(1, 3))
  {
    hide Run, SlotsSuffice;
    Hole([Malloc(3)] + ([Malloc(3)] + []));
    TwoMore([]);
    Done(OneSided, Heap(1, 9, [Chunk(1, 3), Chunk(4, 3)], [Chunk(8, 2), Chunk(7, 1)], []));
    FreeFails(OneSided, Heap(1, 9, [Chunk(1, 3), Chunk(4, 3)], [Chunk(8, 2), Chunk(7, 1)], []), 0, Chunk(1, 3));
  }
}
