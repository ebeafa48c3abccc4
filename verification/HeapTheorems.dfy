// What the allocators promise their callers, for one call and over whole runs.
module HeapTheorems {
  import opened Wrappers
  import opened Chunks
  import opened Coalescing
  import opened Errors
  import opened HeapModel

  // ------------------------------------------------------------- live blocks

  lemma BlocksInsert(t: seq<Chunk>, e: nat, c: Chunk)
    requires e < |t| && t[e].Empty() && !c.Empty()
    ensures Blocks(t[e := c]) == Blocks(t) + {c}
  {
    var r := t[e := c];
    assert r[e] == c;
    forall b | b in Blocks(t) ensures b in r {
      var i :| 0 <= i < |t| && t[i] == b;
      assert r[i] == b;
    }
  }

  lemma BlocksRemove(t: seq<Chunk>, k: nat)
    requires Table(t) && Separate(t) && k < |t|
    ensures Blocks(t[k := NONE]) == Blocks(t) - {t[k]}
  {
    var r := t[k := NONE];
    forall b | b in Blocks(t) - {t[k]} ensures b in r {
      var i :| 0 <= i < |t| && t[i] == b;
      assert r[i] == b;
    }
    forall b | b in Blocks(r) ensures b in t && b != t[k] {
      var i :| 0 <= i < |r| && r[i] == b;
      assert t[i] == b;
      SeparatePair(t, i, k);
    }
  }

  // n contiguous bytes from x on that belong to no live block and are not leaked.
  ghost predicate Unused(h: Heap, x: int, n: nat) {
    forall y :: x <= y < x + n ==> y in h.Range() && !Covers(h.taken, y) && !Covers(h.leaked, y)
  }

  lemma CutIsUnused(h: Heap, k: nat, n: nat)
    requires h.Valid() && k < |h.freed| && 0 < n <= h.freed[k].size
    ensures Unused(h, h.freed[k].start, n)
  {
    SlotInCells(h.freed, k);
    forall y | h.freed[k].Has(y) ensures y in h.Range() && !Covers(h.taken, y) && !Covers(h.leaked, y) {
      assert y in Cells(h.freed);
      assert y !in Cells(h.taken) && y !in Cells(h.leaked);
    }
  }

  lemma UncoveredIsNew(t: seq<Chunk>, c: Chunk)
    requires !Covers(t, c.start) && c.size > 0
    ensures c !in t
  {
    forall i | 0 <= i < |t| ensures t[i] != c {
      CoversSlot(t, i, c.start);
    }
  }

  /** A successful malloc returns a block of unused heap and adds just that block. */
  lemma MallocDelivers(h: Heap, n: nat)
    requires h.Valid()
    ensures var o := Malloc(h, n);
      var b := Chunk(o.ptr, n);
      if o.ptr != 0
      then Unused(h, o.ptr, n) && b !in h.Live() && o.heap.Live() == h.Live() + {b}
           && o.heap.leaked == h.leaked && o.err == NoError
      else o.heap.Live() == h.Live() && o.err != NoError
  {
    hide Cells, Separate, Table, Coalesced;
    var k := FirstFit(h.freed, n);
    if n > 0 && k < |h.freed| {
      var c := Chunk(h.freed[k].start, n);
      CutIsUnused(h, k, n);
      var e := FirstEmpty(h.taken);
      if e < |h.taken| {
        BlocksInsert(h.taken, e, c);
        UncoveredIsNew(h.taken, c);
      }
    }
  }

  lemma UnusedIsFree(h: Heap, x: int, n: nat, y: int)
    requires h.Valid() && Unused(h, x, n) && x <= y < x + n
    ensures Covers(h.freed, y)
  {
    assert y in h.Range();
    assert y in Cells(h.freed);
  }

  lemma UnusedFits(h: Heap, x: int, n: nat)
    requires h.Valid() && Coalesced(h.freed) && n > 0 && Unused(h, x, n)
    ensures h.HasRoom(n)
  {
    forall y | x <= y < x + n ensures Covers(h.freed, y) {
      UnusedIsFree(h, x, n, y);
    }
    hide Cells, Separate, Coalesced;
    assert Covers(h.freed, x);
    var i: nat :| i < |h.freed| && h.freed[i].Has(x);
    BlockIsMaximal(h.freed, i);
  }

  lemma RoomIsUnused(h: Heap, n: nat)
    requires h.Valid() && Coalesced(h.freed) && n > 0
    ensures h.HasRoom(n) <==> exists x :: Unused(h, x, n)
  {
    hide Heap.Valid, Coalesced, Unused;
    var k := FirstFit(h.freed, n);
    if k < |h.freed| {
      CutIsUnused(h, k, n);
    }
    forall x | Unused(h, x, n) ensures h.HasRoom(n) {
      UnusedFits(h, x, n);
    }
  }

  lemma FitStart(h: Heap, n: nat)
    requires h.Valid() && n > 0 && h.HasRoom(n)
    ensures h.freed[FirstFit(h.freed, n)].start > 0
  {
    hide Heap.Partitioned, Separate;
  }

  /** malloc is complete: asked for bytes, it fails only when there is no such run of
      unused ones, or no slot. */
  lemma MallocComplete(h: Heap, n: nat)
    requires h.Valid() && Coalesced(h.freed)
    ensures var o := Malloc(h, n);
      && (o.ptr != 0 <==> n > 0 && h.HasSlot() && exists x :: Unused(h, x, n))
      && (o.err == InvalidArgument <==> n == 0)
      && (o.err == HeapFull <==> n > 0 && !exists x :: Unused(h, x, n))
      && (o.err == Internal <==> n > 0 && !h.HasSlot() && exists x :: Unused(h, x, n))
  {
    hide Heap.Valid, Coalesced, Unused, First;
    if n > 0 {
      RoomIsUnused(h, n);
      if h.HasRoom(n) {
        FitStart(h, n);
      }
    }
  }

  /** free removes exactly the block at p; any other pointer changes nothing. */
  lemma FreeReleases(v: Variant, h: Heap, p: nat)
    requires h.Valid()
    ensures var o := Free(v, h, p);
      && (forall b :: b in h.Live() && b.start == p ==>
            o.heap.Live() == h.Live() - {b}
            && (o.err == NoError ==> Cells(o.heap.freed) == Cells(h.freed) + b.Span() && o.heap.leaked == h.leaked)
            && (o.err != NoError ==> o.heap.freed == h.freed && o.heap.leaked == h.leaked + [b] && o.err == Internal))
      && ((forall b :: b in h.Live() ==> b.start != p) ==> o.heap == h && o.err == InvalidArgument)
  {
    var k := FirstAt(h.taken, p);
    if p > 0 && k < |h.taken| {
      var c := h.taken[k];
      BlocksRemove(h.taken, k);
      SlotInCells(h.taken, k);
      PutBackKeeps(v, h.freed, c);
      assert c in h.Live();
      forall b | b in h.Live() && b.start == p ensures b == c {
        var i :| 0 <= i < |h.taken| && h.taken[i] == b;
        if i != k {
          SeparatePair(h.taken, i, k);
        }
      }
    }
  }

  // ------------------------------------------------------------- pigeonhole

  lemma {:induction false} InjectionBound(m: map<nat, nat>, B: set<nat>)
    requires forall a :: a in m ==> m[a] in B
    requires forall a, b :: a in m && b in m && a != b ==> m[a] != m[b]
    ensures |m| <= |B|
  {
    if |m| > 0 {
      var a :| a in m;
      var rest := m - {a};
      assert m.Keys == rest.Keys + {a};
      InjectionBound(rest, B - {m[a]});
    }
  }

  // The slot that holds address x.
  ghost function Holder(t: seq<Chunk>, x: int): nat { First(t, (c: Chunk) => c.Has(x)) }

  lemma HolderExists(t: seq<Chunk>, x: int)
    requires Table(t) && Covers(t, x)
    ensures Holder(t, x) < |t| && t[Holder(t, x)].Has(x) && Holder(t, x) in Used(t)
  {
    var i :| 0 <= i < |t| && t[i].Has(x);
  }

  // Two free chunks cannot end inside the same live block.
  lemma EndsApart(f: seq<Chunk>, t: seq<Chunk>, i: nat, j: nat, k: nat)
    requires Table(f) && Separate(f) && Cells(f) !! Cells(t)
    requires i < |f| && j < |f| && i != j && !f[i].Empty() && !f[j].Empty() && k < |t|
    requires t[k].Has(f[i].End())
    ensures !t[k].Has(f[j].End())
  {
    SeparatePair(f, i, j);
    CoversSlot(f, i, f[i].End() - 1);
    CoversSlot(f, j, f[j].End() - 1);
    CoversSlot(t, k, f[i].End() - 1);
    CoversSlot(t, k, f[j].End() - 1);
    assert !(f[i].End() - 1 in Cells(f) && f[i].End() - 1 in Cells(t));
    assert !(f[j].End() - 1 in Cells(f) && f[j].End() - 1 in Cells(t));
  }

  /** Between coalesced free chunks there are live blocks, so there is at most one
      more free chunk than there are live blocks. */
  lemma FreeChunksBound(f: seq<Chunk>, t: seq<Chunk>, base: nat, cap: nat)
    requires Table(f) && Separate(f) && Coalesced(f) && Table(t)
    requires Cells(f) !! Cells(t) && Cells(f) + Cells(t) == Chunk(base, cap).Span()
    ensures |Used(f)| <= |Used(t)| + 1
  {
    hide Cells, Separate, Coalesced;
    var low := set i: nat | i in Used(f) && f[i].End() != base + cap;
    InnerChunksBound(f, t, base, cap, low);
    var top := Used(f) - low;
    forall i: nat, j: nat | i in top && j in top ensures i == j {
      SameEnd(f, i, j);
    }
    AtMostOne(top);
    assert Used(f) == low + top;
  }

  lemma SameEnd(f: seq<Chunk>, i: nat, j: nat)
    requires Table(f) && Separate(f) && i < |f| && j < |f| && !f[i].Empty() && !f[j].Empty()
    requires f[i].End() == f[j].End()
    ensures i == j
  {
    if i != j { SeparatePair(f, i, j); }
  }

  lemma InnerChunksBound(f: seq<Chunk>, t: seq<Chunk>, base: nat, cap: nat, low: set<nat>)
    requires Table(f) && Separate(f) && Coalesced(f) && Table(t)
    requires Cells(f) !! Cells(t) && Cells(f) + Cells(t) == Chunk(base, cap).Span()
    requires forall i :: i in low ==> i in Used(f) && f[i].End() != base + cap
    ensures |low| <= |Used(t)|
  {
    var m := map i | i in low :: Holder(t, f[i].End());
    forall i | i in m ensures m[i] in Used(t) && m[i] < |t| && t[m[i]].Has(f[i].End()) {
      EndIsHeld(f, t, base, cap, i);
    }
    forall i, j | i in m && j in m && i != j ensures m[i] != m[j] {
      EndsApart(f, t, i, j, m[i]);
    }
    InjectionBound(m, Used(t));
    assert m.Keys == low;
  }

  lemma AtMostOne(s: set<nat>)
    requires forall i, j :: i in s && j in s ==> i == j
    ensures |s| <= 1
  {
    if |s| > 0 {
      var i :| i in s;
      assert s == {i};
    }
  }

  lemma EndIsHeld(f: seq<Chunk>, t: seq<Chunk>, base: nat, cap: nat, i: nat)
    requires Table(f) && Separate(f) && Coalesced(f) && Table(t)
    requires Cells(f) !! Cells(t) && Cells(f) + Cells(t) == Chunk(base, cap).Span()
    requires i in Used(f) && f[i].End() != base + cap
    ensures var k := Holder(t, f[i].End());
      k < |t| && t[k].Has(f[i].End()) && k in Used(t)
  {
    var e := f[i].End();
    BlockIsMaximal(f, i);
    CoversSlot(f, i, e - 1);
    assert e - 1 in Cells(f);
    assert e - 1 in Chunk(base, cap).Span();
    assert e in Chunk(base, cap).Span();
    assert e in Cells(t);
    HolderExists(t, e);
  }

  ghost function Slots(n: nat): (s: set<nat>)
    ensures |s| == n && forall i: nat :: i in s <==> i < n
  {
    if n == 0 then {} else Slots(n - 1) + {n - 1}
  }

  lemma FullTable(t: seq<Chunk>)
    requires forall i :: 0 <= i < |t| ==> !t[i].Empty()
    ensures |Used(t)| == |t|
  {
    assert Used(t) == Slots(|t|);
  }

  lemma HoleShrinks(t: seq<Chunk>, k: nat)
    requires k < |t|
    ensures |Used(t[k := NONE])| < |t|
  {
    assert Used(t[k := NONE]) <= Slots(|t|) - {k};
    SubsetSize(Used(t[k := NONE]), Slots(|t|) - {k});
  }

  lemma {:induction false} SubsetSize(a: set<nat>, b: set<nat>)
    requires a <= b
    ensures |a| <= |b|
  {
    assert b == a + (b - a);
  }

  lemma AppendCoalesced(t: seq<Chunk>, c: Chunk)
    requires Table(t) && Coalesced(t) && c.WellFormed() && !c.Empty()
    requires forall i :: 0 <= i < |t| ==> !t[i].Touches(c)
    ensures Coalesced(t + [c])
  {
    var r := t + [c];
    forall i, l | 0 <= i < |r| && 0 <= l < |r| && i != -1 && l != -1 && !r[i].Empty() && !r[l].Empty()
      ensures !r[i].Touches(r[l])
    {
      if i < |t| && l < |t| {
        assert !t[i].Touches(t[l]);
      }
    }
  }

  /** free of a live block fails exactly when every free slot is in use and none of the
      free chunks touches it. */
  lemma FreeFails(v: Variant, h: Heap, b: Chunk)
    requires h.Valid() && b in h.Live()
    ensures Free(v, h, b.start).err == Internal <==>
      forall i :: 0 <= i < |h.freed| ==> !h.freed[i].Touches(b) && !h.freed[i].Empty()
  {
    hide PutBack, Separate, Heap.Partitioned, First;
    FreeChunkOf(h, b);
    PutBackFails(v, h.freed, b);
  }

  /** While nothing has leaked and the free table is coalesced, free never runs out of
      slots, with either merge: a full free table and the freed block would make N+1
      separated chunks among N-1 live blocks. */
  lemma FreeNeverFails(v: Variant, h: Heap, p: nat)
    requires h.Valid() && Coalesced(h.freed) && h.leaked == []
    ensures Free(v, h, p).err != Internal
  {
    var k := FirstAt(h.taken, p);
    if p > 0 && k < |h.taken| {
      var c := h.taken[k];
      PutBackFails(v, h.freed, c);
      if PutBack(v, h.freed, c).None? {
        var f, t := h.freed + [c], h.taken[k := NONE];
        SlotInCells(h.taken, k);
        Clear(h.taken, k);
        AppendKeeps(h.freed, c);
        AppendCoalesced(h.freed, c);
        EmptyTable(h.leaked);
        FreeChunksBound(f, t, h.base, h.cap);
        FullTable(f);
        HoleShrinks(h.taken, k);
        assert false;
      }
    }
  }

  // ------------------------------------------------------------- what calls undo

  // The two heaps hold the same live and free blocks, in whatever slots.
  ghost predicate Same(g: Heap, h: Heap) {
    g.Live() == h.Live() && Blocks(g.freed) == Blocks(h.freed) && g.leaked == h.leaked
  }

  /** free undoes the malloc before it: live and free blocks are as they were. */
  lemma MallocThenFree(h: Heap, n: nat)
    requires h.Valid() && Coalesced(h.freed) && Malloc(h, n).ptr != 0
    ensures var o := Malloc(h, n);
      var g := Free(TwoSided, o.heap, o.ptr);
      o.heap.Valid() && g.err == NoError && Same(g.heap, h)
  {
    MallocCuts(h, n);
    var o := Malloc(h, n);
    var b := Chunk(o.ptr, n);
    FreeChunkOf(o.heap, b);
    FreeReleases(TwoSided, o.heap, o.ptr);
    FreeValid(TwoSided, o.heap, o.ptr);
    var g := Free(TwoSided, o.heap, o.ptr).heap;
    assert Cells(g.freed) == Cells(h.freed);
    CoalescedCanonical(g.freed, h.freed);
  }

  lemma MallocCuts(h: Heap, n: nat)
    requires h.Valid() && Coalesced(h.freed) && Malloc(h, n).ptr != 0
    ensures var o := Malloc(h, n);
      var b := Chunk(o.ptr, n);
      && o.heap.Valid() && Coalesced(o.heap.freed) && o.heap.leaked == h.leaked
      && b !in h.Live() && o.heap.Live() == h.Live() + {b}
      && b.Span() <= Cells(h.freed) && Cells(o.heap.freed) == Cells(h.freed) - b.Span()
      && b.WellFormed() && !b.Empty() && PutBack(TwoSided, o.heap.freed, b).Some?
  {
    var k := FirstFit(h.freed, n);
    MallocValid(h, n);
    MallocDelivers(h, n);
    CutKeeps(h.freed, k, n);
    CutGoesBack(h.freed, k, n);
  }

  lemma FreeChunkOf(h: Heap, b: Chunk)
    requires h.Valid() && b in h.Live()
    ensures b.start > 0 && b.WellFormed()
    ensures var k := FirstAt(h.taken, b.start); k < |h.taken| && h.taken[k] == b
  {
    var i: nat :| i < |h.taken| && h.taken[i] == b;
    var k := FirstAt(h.taken, b.start);
    if i != k {
      SeparatePair(h.taken, i, k);
    }
  }

  lemma CutGoesBack(t: seq<Chunk>, k: nat, n: nat)
    requires Table(t) && k < |t| && 0 < n <= t[k].size
    ensures var c := Chunk(t[k].start, n);
      var r := t[k := Rest(t[k], n)];
      c.WellFormed() && !c.Empty() && Table(r) && PutBack(TwoSided, r, c).Some?
  {
    hide PutBack;
    var c := Chunk(t[k].start, n);
    var r := t[k := Rest(t[k], n)];
    PutBackFails(TwoSided, r, c);
    assert r[k].Touches(c) || r[k].Empty();
  }

  /** The order in which two blocks are freed does not matter. */
  lemma FreesCommute(h: Heap, b: Chunk, c: Chunk)
    requires h.Valid() && Coalesced(h.freed) && h.leaked == []
    requires b in h.Live() && c in h.Live() && b != c
    ensures var g1 := Free(TwoSided, h, b.start).heap;
      var g2 := Free(TwoSided, h, c.start).heap;
      && g1.Valid() && g2.Valid()
      && Same(Free(TwoSided, g1, c.start).heap, Free(TwoSided, g2, b.start).heap)
  {
    FreeTwo(h, b, c);
    FreeTwo(h, c, b);
    var g1 := Free(TwoSided, Free(TwoSided, h, b.start).heap, c.start).heap;
    var g2 := Free(TwoSided, Free(TwoSided, h, c.start).heap, b.start).heap;
    assert Cells(g1.freed) == Cells(g2.freed);
    CoalescedCanonical(g1.freed, g2.freed);
  }

  lemma FreeOne(h: Heap, b: Chunk)
    requires h.Valid() && Coalesced(h.freed) && h.leaked == [] && b in h.Live()
    ensures var g := Free(TwoSided, h, b.start).heap;
      && g.Valid() && Coalesced(g.freed) && g.leaked == []
      && g.Live() == h.Live() - {b} && Cells(g.freed) == Cells(h.freed) + b.Span()
  {
    FreeValid(TwoSided, h, b.start);
    FreeReleases(TwoSided, h, b.start);
    FreeNeverFails(TwoSided, h, b.start);
    FreeChunkOf(h, b);
  }

  lemma FreeTwo(h: Heap, b: Chunk, c: Chunk)
    requires h.Valid() && Coalesced(h.freed) && h.leaked == []
    requires b in h.Live() && c in h.Live() && b != c
    ensures var g1 := Free(TwoSided, h, b.start).heap;
      g1.Valid() &&
      var g := Free(TwoSided, g1, c.start).heap;
      && g.Valid() && Coalesced(g.freed) && g.leaked == []
      && g.Live() == h.Live() - {b, c} && Cells(g.freed) == Cells(h.freed) + b.Span() + c.Span()
  {
    FreeOne(h, b);
    FreeOne(Free(TwoSided, h, b.start).heap, c);
  }

  /** When no block is live the free table is the whole heap in one chunk, so any
      request that fits the heap is served from its base. */
  lemma AllFreed(h: Heap, n: nat)
    requires h.Valid() && Coalesced(h.freed) && h.leaked == [] && h.Live() == {}
    requires 0 < n <= h.cap
    ensures Blocks(h.freed) == {Chunk(h.base, h.cap)}
    ensures Malloc(h, n).ptr == h.base
  {
    WholeHeapFree(h);
    var c := Chunk(h.base, h.cap);
    assert c in h.freed;
    var k := FirstFit(h.freed, n);
    assert k < |h.freed| && h.freed[k] in Blocks(h.freed);
    NothingLive(h.taken);
    assert h.taken[0].Empty();
  }

  lemma WholeHeapFree(h: Heap)
    requires h.Valid() && Coalesced(h.freed) && h.leaked == [] && h.Live() == {}
    ensures Blocks(h.freed) == {Chunk(h.base, h.cap)}
  {
    var whole := [Chunk(h.base, h.cap)];
    NothingLive(h.taken);
    EmptyTable(h.leaked);
    assert Cells(whole) == h.Range() by {
      assert forall x :: whole[0].Has(x) ==> Covers(whole, x);
    }
    CoalescedCanonical(h.freed, whole);
    assert Blocks(whole) == {whole[0]};
  }

  /** A heap with no live block serves a request for all of it, by either allocator,
      exactly when its free table is coalesced. */
  lemma WholeHeapServed(h: Heap)
    requires h.Valid() && h.leaked == [] && h.Live() == {}
    ensures var o := Malloc(h, h.cap);
      if Coalesced(h.freed) then o.ptr == h.base && o.err == NoError else o.ptr == 0 && o.err == HeapFull
  {
    if Coalesced(h.freed) {
      AllFreed(h, h.cap);
      MallocDelivers(h, h.cap);
    } else if h.HasRoom(h.cap) {
      WholeChunk(h, FirstFit(h.freed, h.cap));
    }
  }

  // A free chunk as large as the heap is the only one.
  lemma WholeChunk(h: Heap, k: nat)
    requires h.Valid() && k < |h.freed| && h.freed[k].size >= h.cap
    ensures Coalesced(h.freed)
  {
    var f := h.freed;
    InRange(h, k);
    forall i | 0 <= i < |f| && i != k ensures f[i] == NONE {
      if !f[i].Empty() {
        InRange(h, i);
        SeparatePair(f, i, k);
      }
    }
    OneChunk(f, k);
  }

  lemma InRange(h: Heap, i: nat)
    requires h.Valid() && i < |h.freed| && h.freed[i].size > 0
    ensures h.base <= h.freed[i].start && h.freed[i].End() <= h.base + h.cap
  {
    var c := h.freed[i];
    SlotInCells(h.freed, i);
    assert c.Has(c.start) && c.Has(c.End() - 1);
    assert c.start in h.Range() && c.End() - 1 in h.Range();
  }

  // The block at p lies between two free chunks.
  ghost predicate ClosesGap(h: Heap, p: nat) {
    exists b :: b in h.Live() && b.start == p && Bridges(h.freed, b)
  }

  /** On a coalesced heap the kernel's free and the installer's are the same, and leave
      the heap coalesced, unless the block lies between two free chunks. */
  lemma FreeAgrees(h: Heap, p: nat)
    requires h.Valid() && Coalesced(h.freed)
    ensures var o := Free(OneSided, h, p);
      && (Free(TwoSided, h, p) == o <==> !ClosesGap(h, p))
      && (o.err == NoError ==> (Coalesced(o.heap.freed) <==> !ClosesGap(h, p)))
  {
    hide PutBack, Cells, Separate, Coalesced, Bridges, First;
    var k := FirstAt(h.taken, p);
    if ClosesGap(h, p) {
      var b :| b in h.Live() && b.start == p && Bridges(h.freed, b);
      FreeChunkOf(h, b);
    }
    if p > 0 && k < |h.taken| {
      var c := h.taken[k];
      SlotInCells(h.taken, k);
      OneSidedCoalesced(h.freed, c);
      assert c in h.Live();
    }
  }

  lemma NothingLive(t: seq<Chunk>)
    requires Table(t) && Blocks(t) == {}
    ensures forall i :: 0 <= i < |t| ==> t[i] == NONE
    ensures Cells(t) == iset{}
  {
    forall i | 0 <= i < |t| ensures t[i] == NONE {
      assert t[i] in t && t[i] !in Blocks(t);
    }
    EmptyTable(t);
  }
}
