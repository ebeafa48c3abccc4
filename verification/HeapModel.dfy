// The heap as a state machine: one step per call of malloc or free.
module HeapModel {
  import opened Wrappers
  import opened Chunks
  import opened Coalescing
  import opened Errors

  /** `leaked` lists the chunks that a failed table insertion dropped. */
  datatype Heap = Heap(base: nat, cap: nat, taken: seq<Chunk>, freed: seq<Chunk>, leaked: seq<Chunk>)
  {
    ghost function Range(): iset<int> { Chunk(base, cap).Span() }

    ghost predicate Tables() { Table(taken) && Table(freed) }

    ghost predicate WellFormed() {
      && base > 0 && cap > 0 && base + cap < WORD
      && |taken| == |freed| > 0
      && Tables() && Table(leaked)
      && Separate(taken) && Separate(freed) && Separate(leaked)
    }

    /** The heap is cut, without overlap or gap, into live, free and leaked chunks. */
    ghost predicate Partitioned() {
      && Cells(taken) !! Cells(freed)
      && Cells(leaked) !! Cells(taken) + Cells(freed)
      && Cells(taken) + Cells(freed) + Cells(leaked) == Range()
    }

    ghost predicate Valid() { WellFormed() && Partitioned() }

    ghost function Live(): set<Chunk> { Blocks(taken) }

    predicate HasSlot() { FirstEmpty(taken) < |taken| }

    predicate HasRoom(n: nat) { FirstFit(freed, n) < |freed| }
  }

  function Init(base: nat, cap: nat, slots: nat): Heap
    requires slots > 0
  {
    var empty := seq(slots, _ => NONE);
    Heap(base, cap, empty, empty[0 := Chunk(base, cap)], [])
  }

  datatype Outcome = Outcome(heap: Heap, ptr: nat, err: Error)

  // malloc: cut n bytes off the first free chunk that is large enough, then record
  // them; when there is no slot to record them in they are gone.
  function Malloc(h: Heap, n: nat): (o: Outcome)
  {
    if n == 0 then Outcome(h, 0, InvalidArgument)
    else
      var k := FirstFit(h.freed, n);
      if k == |h.freed| then Outcome(h, 0, HeapFull)
      else
        var c := Chunk(h.freed[k].start, n);
        var freed := h.freed[k := Rest(h.freed[k], n)];
        var r := Insert(h.taken, c);
        if r.None? then Outcome(h.(freed := freed, leaked := h.leaked + [c]), 0, Internal)
        else Outcome(h.(freed := freed, taken := r.value), c.start, NoError)
  }

  // free: drop the record of the block at p, then give its chunk to the free table.
  function Free(v: Variant, h: Heap, p: nat): (o: Outcome)
    requires Table(h.freed) && Table(h.taken)
  {
    if p == 0 then Outcome(h, 0, InvalidArgument)
    else
      var k := FirstAt(h.taken, p);
      if k == |h.taken| then Outcome(h, 0, InvalidArgument)
      else
        var c := h.taken[k];
        var h' := h.(taken := h.taken[k := NONE]);
        var r := PutBack(v, h.freed, c);
        if r.None? then Outcome(h'.(leaked := h.leaked + [c]), 0, Internal)
        else Outcome(h'.(freed := r.value), 0, NoError)
  }

  // ------------------------------------------------------------- one step

  lemma EmptyTable(t: seq<Chunk>)
    requires forall i :: 0 <= i < |t| ==> t[i] == NONE
    ensures Table(t) && Separate(t) && Coalesced(t) && Blocks(t) == {}
    ensures Cells(t) == iset{}
  {
    hide Cells, Separate, Blocks;
    EmptyCells(t);
    EmptySeparate(t);
    EmptyBlocks(t);
  }

  lemma EmptySeparate(t: seq<Chunk>)
    requires forall i :: 0 <= i < |t| ==> t[i].Empty()
    ensures Separate(t)
  {
    hide Chunk.Apart;
    forall i, j | 0 <= i < j < |t| ensures t[i].Apart(t[j]) {
      EmptyApart(t[i], t[j]);
    }
  }

  lemma EmptyApart(a: Chunk, b: Chunk)
    requires a.Empty()
    ensures a.Apart(b)
  {
  }

  lemma EmptyBlocks(t: seq<Chunk>)
    requires forall i :: 0 <= i < |t| ==> t[i] == NONE
    ensures Blocks(t) == {}
  {
  }

  lemma EmptyCells(t: seq<Chunk>)
    requires forall i :: 0 <= i < |t| ==> t[i] == NONE
    ensures Cells(t) == iset{}
  {
    assert forall x :: !Covers(t, x);
  }

  lemma OneChunk(t: seq<Chunk>, k: nat)
    requires Table(t) && k < |t| && !t[k].Empty() && forall i :: 0 <= i < |t| && i != k ==> t[i] == NONE
    ensures Separate(t) && Coalesced(t) && Cells(t) == t[k].Span()
  {
    OneChunkCells(t, k);
    hide Cells;
  }

  lemma OneChunkCells(t: seq<Chunk>, k: nat)
    requires k < |t| && !t[k].Empty() && forall i :: 0 <= i < |t| && i != k ==> t[i] == NONE
    ensures Cells(t) == t[k].Span()
  {
    forall x ensures Covers(t, x) <==> t[k].Has(x) {
    }
  }

  lemma InitValid(base: nat, cap: nat, slots: nat)
    requires base > 0 && cap > 0 && base + cap < WORD && slots > 0
    ensures var h := Init(base, cap, slots);
      h.Valid() && Coalesced(h.freed) && h.Live() == {} && h.leaked == []
  {
    hide Cells, Separate, Coalesced, Blocks;
    var h := Init(base, cap, slots);
    EmptyTable(h.taken);
    EmptyTable(h.leaked);
    OneChunk(h.freed, 0);
  }

  lemma AppendSeparate(t: seq<Chunk>, c: Chunk)
    requires Separate(t) && forall i :: 0 <= i < |t| ==> t[i].Apart(c)
    ensures Separate(t + [c])
  {
    var u := t + [c];
    forall i, j | 0 <= i < j < |u| ensures u[i].Apart(u[j]) {
      if j < |t| {
        assert t[i].Apart(t[j]);
      }
    }
  }

  lemma AppendCells(t: seq<Chunk>, c: Chunk)
    ensures Cells(t + [c]) == Cells(t) + c.Span()
  {
    var u := t + [c];
    forall x ensures Covers(u, x) <==> Covers(t, x) || c.Has(x) {
      if Covers(t, x) {
        var i :| 0 <= i < |t| && t[i].Has(x);
        assert u[i].Has(x);
      }
      if c.Has(x) {
        assert u[|t|].Has(x);
      }
    }
  }

  lemma AppendKeeps(t: seq<Chunk>, c: Chunk)
    requires Table(t) && Separate(t) && c.WellFormed() && Cells(t) !! c.Span()
    ensures Table(t + [c]) && Separate(t + [c]) && Cells(t + [c]) == Cells(t) + c.Span()
  {
    hide Cells, Separate;
    ApartFromCells(t, c);
    AppendSeparate(t, c);
    AppendCells(t, c);
  }

  // Cutting the front of a free chunk.
  lemma CutKeeps(t: seq<Chunk>, k: nat, n: nat)
    requires Table(t) && Separate(t) && k < |t| && 0 < n <= t[k].size
    ensures var c := Chunk(t[k].start, n);
      var r := t[k := Rest(t[k], n)];
      && c.WellFormed() && !c.Empty()
      && Table(r) && Separate(r)
      && c.Span() <= Cells(t) && Cells(r) == Cells(t) - c.Span()
      && (Coalesced(t) ==> Coalesced(r))
  {
    var c := Chunk(t[k].start, n);
    var d := Rest(t[k], n);
    SlotInCells(t, k);
    CellsUpdate(t, k, d);
    assert t[k].Span() == c.Span() + d.Span();
    forall i | 0 <= i < |t| && i != k ensures t[i].Apart(d) {
      SeparatePair(t, i, k);
    }
    ReplaceKeepsSeparate(t, k, d);
    if Coalesced(t) {
      CutCoalesced(t, k, n);
    }
  }

  lemma CutCoalesced(t: seq<Chunk>, k: nat, n: nat)
    requires Table(t) && Separate(t) && Coalesced(t) && k < |t| && 0 < n <= t[k].size
    ensures Coalesced(t[k := Rest(t[k], n)])
  {
    var r := t[k := Rest(t[k], n)];
    forall i, l | 0 <= i < |r| && 0 <= l < |r| && i != -1 && l != -1 && !r[i].Empty() && !r[l].Empty()
      ensures !r[i].Touches(r[l])
    {
      assert !t[i].Touches(t[l]);
      if i != k { SeparatePair(t, i, k); }
      if l != k { SeparatePair(t, l, k); }
    }
  }

  /** malloc keeps the heap partitioned, and its free table coalesced. */
  lemma MallocValid(h: Heap, n: nat)
    requires h.Valid()
    ensures var o := Malloc(h, n);
      o.heap.Valid() && (Coalesced(h.freed) ==> Coalesced(o.heap.freed))
  {
    hide Insert, Cells, Separate, Coalesced;
    var k := FirstFit(h.freed, n);
    if n > 0 && k < |h.freed| {
      var c := Chunk(h.freed[k].start, n);
      CutKeeps(h.freed, k, n);
      InsertKeeps(h.taken, c);
      AppendKeeps(h.leaked, c);
    }
  }

  /** free keeps the heap partitioned, and the installer's free table coalesced. */
  lemma FreeValid(v: Variant, h: Heap, p: nat)
    requires h.Valid()
    ensures var o := Free(v, h, p);
      o.heap.Valid() && (v.TwoSided? && Coalesced(h.freed) ==> Coalesced(o.heap.freed))
  {
    hide PutBack, Cells, Separate, Coalesced;
    var k := FirstAt(h.taken, p);
    if p > 0 && k < |h.taken| {
      var c := h.taken[k];
      SlotInCells(h.taken, k);
      Clear(h.taken, k);
      PutBackKeeps(v, h.freed, c);
      AppendKeeps(h.leaked, c);
    }
  }
}
