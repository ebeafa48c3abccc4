// What the table edits preserve: the addresses covered, and full coalescing.
module Coalescing {
  import opened Wrappers
  import opened Chunks

  lemma SeparatePair(t: seq<Chunk>, i: nat, j: nat)
    requires Separate(t) && i < |t| && j < |t| && i != j
    ensures t[i].Apart(t[j])
  {
    assert if i < j then t[i].Apart(t[j]) else t[j].Apart(t[i]);
  }

  lemma CellsUpdate(t: seq<Chunk>, k: nat, c: Chunk)
    requires k < |t| && Separate(t)
    ensures Cells(t[k := c]) == (Cells(t) - t[k].Span()) + c.Span()
  {
    var u := t[k := c];
    forall x | x in Cells(t) - t[k].Span() ensures x in Cells(u) {
      var i :| 0 <= i < |t| && t[i].Has(x);
      assert u[i].Has(x);
    }
    forall x | x in c.Span() ensures x in Cells(u) {
      assert u[k].Has(x);
    }
    forall x | x in Cells(u) ensures x in (Cells(t) - t[k].Span()) + c.Span() {
      var i :| 0 <= i < |u| && u[i].Has(x);
      if i != k {
        assert t[i].Has(x);
        SeparatePair(t, i, k);
      }
    }
  }

  lemma JoinSpan(a: Chunk, b: Chunk)
    requires a.WellFormed() && b.WellFormed() && !a.Empty() && !b.Empty() && a.Touches(b)
    ensures Join(a, b).WellFormed() && !Join(a, b).Empty()
    ensures Join(a, b).Span() == a.Span() + b.Span()
    ensures a.Apart(b)
  {
  }

  // Disjointness of tables is disjointness of what they cover.
  lemma ApartFromCells(t: seq<Chunk>, c: Chunk)
    requires Table(t) && c.WellFormed() && Cells(t) !! c.Span()
    ensures forall i :: 0 <= i < |t| ==> t[i].Apart(c)
  {
    forall i | 0 <= i < |t| ensures t[i].Apart(c) {
      var x := if t[i].start <= c.start then c.start else t[i].start;
      assert t[i].Has(x) ==> x in Cells(t);
      assert !(x in Cells(t) && x in c.Span());
    }
  }

  lemma ReplaceKeepsSeparate(t: seq<Chunk>, j: nat, c: Chunk)
    requires Separate(t) && j < |t|
    requires forall i :: 0 <= i < |t| && i != j ==> t[i].Apart(c)
    ensures Separate(t[j := c])
  {
    var r := t[j := c];
    forall i, l | 0 <= i < l < |r| ensures r[i].Apart(r[l]) {
      if i != j && l != j {
        assert t[i].Apart(t[l]);
      }
    }
  }

  // Growing slot j by an adjacent chunk c that the table does not cover.
  lemma Grow(t: seq<Chunk>, j: nat, c: Chunk)
    requires Table(t) && Separate(t) && j < |t| && c.WellFormed() && !c.Empty()
    requires Cells(t) !! c.Span()
    requires t[j].Touches(c)
    ensures !t[j].Empty()
    ensures var r := t[j := Join(t[j], c)];
      Table(r) && Separate(r) && !r[j].Empty() && Cells(r) == Cells(t) + c.Span()
  {
    var g := Join(t[j], c);
    JoinSpan(t[j], c);
    CellsUpdate(t, j, g);
    ApartFromCells(t, c);
    forall i | 0 <= i < |t| && i != j ensures t[i].Apart(g) {
      SeparatePair(t, i, j);
    }
    ReplaceKeepsSeparate(t, j, g);
    SlotInCells(t, j);
  }

  lemma SlotInCells(t: seq<Chunk>, k: nat)
    requires k < |t|
    ensures t[k].Span() <= Cells(t)
  {
  }

  lemma Clear(t: seq<Chunk>, k: nat)
    requires Table(t) && Separate(t) && k < |t|
    ensures var r := t[k := NONE];
      Table(r) && Separate(r) && Cells(r) == Cells(t) - t[k].Span()
  {
    CellsUpdate(t, k, NONE);
  }

  lemma FuseKeeps(t: seq<Chunk>, k: nat, j: nat)
    requires Table(t) && Separate(t) && k < |t| && !t[k].Empty()
    requires j < |t| && t[j].Touches(t[k])
    ensures var r := Fuse(t, k, j);
      Table(r) && Separate(r) && Cells(r) == Cells(t)
  {
    FuseShrinks(t, k, j);
    var u := t[k := NONE];
    Clear(t, k);
    assert t[k].Span() <= Cells(t);
    Grow(u, j, t[k]);
    assert u[j := Join(u[j], t[k])] == Fuse(t, k, j);
  }

  lemma FuseCoalesced(t: seq<Chunk>, k: nat, j: nat)
    requires Table(t) && CoalescedBut(t, k) && k < |t| && j < |t| && j != k
    ensures CoalescedBut(Fuse(t, k, j), j)
  {
    var r := Fuse(t, k, j);
    forall i, l | 0 <= i < |r| && 0 <= l < |r| && i != j && l != j && !r[i].Empty() && !r[l].Empty()
      ensures !r[i].Touches(r[l])
    {
      assert i != k && l != k;
      assert !t[i].Touches(t[l]);
    }
  }

  lemma NoNeighbourLeft(t: seq<Chunk>, k: nat)
    requires Table(t) && CoalescedBut(t, k) && k < |t| && !t[k].Empty()
    requires Neighbour(t, t[k]) == |t|
    ensures Coalesced(t)
  {
    forall i, l | 0 <= i < |t| && 0 <= l < |t| && !t[i].Empty() && !t[l].Empty()
      ensures !t[i].Touches(t[l])
    {
      assert !t[i].Touches(t[k]) && !t[l].Touches(t[k]);
      if i != k && l != k {
        assert !t[i].Touches(t[l]);
      }
    }
  }

  /** The recursive merge covers the same addresses, and leaves no adjacent pair if
      the only chunk that had a neighbour was the one it started from. */
  lemma {:induction false} AbsorbKeeps(t: seq<Chunk>, k: nat)
    requires Table(t) && Separate(t) && k < |t| && !t[k].Empty()
    ensures var r := Absorb(t, k);
      Separate(r) && Cells(r) == Cells(t) && (CoalescedBut(t, k) ==> Coalesced(r))
    decreases |Used(t)|
  {
    var j := Neighbour(t, t[k]);
    if j == |t| {
      if CoalescedBut(t, k) {
        NoNeighbourLeft(t, k);
      }
    } else {
      FuseShrinks(t, k, j);
      FuseKeeps(t, k, j);
      if CoalescedBut(t, k) {
        FuseCoalesced(t, k, j);
      }
      AbsorbKeeps(Fuse(t, k, j), j);
    }
  }

  // ------------------------------------------------ returning a chunk to a table

  lemma InsertKeeps(t: seq<Chunk>, c: Chunk)
    requires Table(t) && Separate(t) && c.WellFormed() && Cells(t) !! c.Span()
    ensures Insert(t, c).Some? ==>
      var r := Insert(t, c).value;
      Table(r) && Separate(r) && |r| == |t| && Cells(r) == Cells(t) + c.Span()
  {
    var e := FirstEmpty(t);
    if e < |t| {
      CellsUpdate(t, e, c);
      ApartFromCells(t, c);
      ReplaceKeepsSeparate(t, e, c);
    }
  }

  lemma InsertCoalesced(t: seq<Chunk>, c: Chunk)
    requires Table(t) && Coalesced(t) && c.WellFormed() && !c.Empty()
    requires Neighbour(t, c) == |t|
    ensures Insert(t, c).Some? ==> Coalesced(Insert(t, c).value)
  {
    var e := FirstEmpty(t);
    if e < |t| {
      var r := t[e := c];
      forall i, l | 0 <= i < |r| && 0 <= l < |r| && i != -1 && l != -1 && !r[i].Empty() && !r[l].Empty()
        ensures !r[i].Touches(r[l])
      {
        assert i != e ==> !t[i].Touches(c);
        assert l != e ==> !t[l].Touches(c);
        if i != e && l != e {
          assert !t[i].Touches(t[l]);
        }
      }
    }
  }

  lemma GrowCoalescedBut(t: seq<Chunk>, j: nat, c: Chunk)
    requires Coalesced(t) && j < |t|
    ensures CoalescedBut(t[j := c], j)
  {
    forall i, l | 0 <= i < |t| && 0 <= l < |t| && i != j && l != j && !t[i].Empty() && !t[l].Empty()
      ensures !t[i].Touches(t[l])
    {
    }
  }

  /** What giving a chunk back does, for both allocators. */
  lemma PutBackKeeps(v: Variant, t: seq<Chunk>, c: Chunk)
    requires Table(t) && Separate(t) && c.WellFormed() && !c.Empty() && Cells(t) !! c.Span()
    ensures PutBack(v, t, c).Some? ==>
      var r := PutBack(v, t, c).value;
      && Table(r) && Separate(r) && |r| == |t|
      && Cells(r) == Cells(t) + c.Span()
      && (v.TwoSided? && Coalesced(t) ==> Coalesced(r))
  {
    var j := Neighbour(t, c);
    if j == |t| {
      InsertKeeps(t, c);
      if Coalesced(t) {
        InsertCoalesced(t, c);
      }
    } else {
      Grow(t, j, c);
      if v.TwoSided? {
        var g := t[j := Join(t[j], c)];
        if Coalesced(t) {
          GrowCoalescedBut(t, j, g[j]);
        }
        AbsorbKeeps(g, j);
      }
    }
  }

  /** A chunk cannot go back exactly when it touches no chunk and no slot is empty. */
  lemma PutBackFails(v: Variant, t: seq<Chunk>, c: Chunk)
    requires Table(t) && c.WellFormed() && !c.Empty()
    ensures PutBack(v, t, c).None? <==>
      forall i :: 0 <= i < |t| ==> !t[i].Touches(c) && !t[i].Empty()
  {
    hide Merge, Insert, Table, Chunk.Touches, Chunk.Empty, Chunk.WellFormed;
    MergeFails(v, t, c);
    InsertFails(t, c);
  }

  lemma MergeFails(v: Variant, t: seq<Chunk>, c: Chunk)
    requires Table(t) && c.WellFormed() && !c.Empty()
    ensures Merge(v, t, c).None? <==> forall i :: 0 <= i < |t| ==> !t[i].Touches(c)
  {
    hide Absorb;
    var j := Neighbour(t, c);
    if j < |t| {
      assert t[j].Touches(c);
    }
  }

  lemma InsertFails(t: seq<Chunk>, c: Chunk)
    ensures Insert(t, c).None? <==> forall i :: 0 <= i < |t| ==> !t[i].Empty()
  {
    var e := FirstEmpty(t);
    if e < |t| {
      assert t[e].Empty();
    }
  }

  // ------------------------------------------------ what the one-sided merge leaves

  // Chunk c fills the gap between two chunks of the table.
  ghost predicate Bridges(t: seq<Chunk>, c: Chunk) {
    exists i, j :: 0 <= i < |t| && 0 <= j < |t| && Between(t[i], c, t[j])
  }

  predicate Between(a: Chunk, c: Chunk, b: Chunk) {
    !a.Empty() && !b.Empty() && a.End() == c.start && c.End() == b.start
  }

  lemma NoSecondNeighbour(t: seq<Chunk>, j: nat, c: Chunk)
    requires Table(t) && Separate(t) && Coalesced(t) && c.WellFormed() && !c.Empty()
    requires j < |t| && t[j].Touches(c) && !Bridges(t, c)
    ensures var g := t[j := Join(t[j], c)];
      Table(g) && !g[j].Empty() && Neighbour(g, g[j]) == |g| && Coalesced(g)
  {
    var g := t[j := Join(t[j], c)];
    JoinSpan(t[j], c);
    forall i | 0 <= i < |g| ensures !g[i].Touches(g[j]) {
      if i != j && !t[i].Empty() {
        assert !t[i].Touches(t[j]);
        assert !Between(t[i], c, t[j]) && !Between(t[j], c, t[i]);
      }
    }
    NeighbourIsAt(g, g[j], |g|);
    GrowCoalescedBut(t, j, g[j]);
    NoNeighbourLeft(g, j);
  }

  lemma SecondNeighbour(t: seq<Chunk>, j: nat, c: Chunk)
    requires Table(t) && Separate(t) && c.WellFormed() && !c.Empty()
    requires j < |t| && t[j].Touches(c) && Bridges(t, c)
    ensures !Coalesced(t[j := Join(t[j], c)])
  {
    var g := t[j := Join(t[j], c)];
    var a, b :| 0 <= a < |t| && 0 <= b < |t| && Between(t[a], c, t[b]);
    if t[j].End() == c.start {
      if a != j { SeparatePair(t, a, j); }
      assert g[j].Touches(g[b]);
    } else {
      if b != j { SeparatePair(t, b, j); }
      assert g[a].Touches(g[j]);
    }
  }

  /** The kernel's merge leaves the table coalesced, and does what the installer's does,
      unless the chunk fills the gap between two chunks of the table. */
  lemma OneSidedCoalesced(t: seq<Chunk>, c: Chunk)
    requires Table(t) && Separate(t) && Coalesced(t) && c.WellFormed() && !c.Empty() && Cells(t) !! c.Span()
    ensures var r := PutBack(OneSided, t, c);
      && (PutBack(TwoSided, t, c) == r <==> !Bridges(t, c))
      && (r.Some? ==> (Coalesced(r.value) <==> !Bridges(t, c)))
  {
    hide Cells, Separate, Coalesced;
    PutBackKeeps(TwoSided, t, c);
    var j := Neighbour(t, c);
    if j == |t| {
      InsertCoalesced(t, c);
      NothingTouches(t, c);
    } else if Bridges(t, c) {
      SecondNeighbour(t, j, c);
    } else {
      NoSecondNeighbour(t, j, c);
    }
  }

  lemma NothingTouches(t: seq<Chunk>, c: Chunk)
    requires Neighbour(t, c) == |t|
    ensures !Bridges(t, c)
  {
    forall i | 0 <= i < |t| ensures !t[i].Touches(c) {
    }
  }

  // ------------------------------------------------ coalesced tables are canonical

  lemma NotAdjacent(t: seq<Chunk>, i: nat, l: nat)
    requires Table(t) && Separate(t) && Coalesced(t) && i < |t| && !t[i].Empty() && l < |t|
    ensures !t[l].Has(t[i].start - 1) && !t[l].Has(t[i].End())
  {
    if l != i {
      SeparatePair(t, i, l);
      assert !t[l].Empty() ==> !t[i].Touches(t[l]);
    }
  }

  lemma BlockIsMaximal(t: seq<Chunk>, i: nat)
    requires Table(t) && Separate(t) && Coalesced(t) && i < |t| && !t[i].Empty()
    ensures !Covers(t, t[i].start - 1) && !Covers(t, t[i].End())
  {
    forall l | 0 <= l < |t| ensures !t[l].Has(t[i].start - 1) && !t[l].Has(t[i].End()) {
      NotAdjacent(t, i, l);
    }
  }

  lemma CoversSlot(t: seq<Chunk>, i: nat, x: int)
    requires i < |t|
    ensures t[i].Has(x) ==> Covers(t, x)
  {
  }

  lemma SameCellsSameBlock(t: seq<Chunk>, u: seq<Chunk>, i: nat)
    requires Table(t) && Separate(t) && Coalesced(t) && Table(u) && Separate(u) && Coalesced(u)
    requires forall x :: Covers(t, x) <==> Covers(u, x)
    requires i < |t| && !t[i].Empty()
    ensures t[i] in u
  {
    hide Separate, Coalesced;
    var c := t[i];
    CoversSlot(t, i, c.start);
    var l: nat :| l < |u| && u[l].Has(c.start);
    var d := u[l];
    BlockIsMaximal(t, i);
    BlockIsMaximal(u, l);
    CoversSlot(u, l, c.start - 1);
    CoversSlot(u, l, c.End());
    CoversSlot(t, i, d.End());
  }

  /** A coalesced table is determined, up to slot order, by the addresses it covers. */
  lemma CoalescedCanonical(t: seq<Chunk>, u: seq<Chunk>)
    requires Table(t) && Separate(t) && Coalesced(t) && Table(u) && Separate(u) && Coalesced(u)
    requires Cells(t) == Cells(u)
    ensures Blocks(t) == Blocks(u)
  {
    assert forall x :: Covers(t, x) <==> x in Cells(t);
    assert forall x :: Covers(u, x) <==> x in Cells(u);
    forall c | c in Blocks(t) ensures c in Blocks(u) {
      var i :| 0 <= i < |t| && t[i] == c;
      SameCellsSameBlock(t, u, i);
    }
    forall c | c in Blocks(u) ensures c in Blocks(t) {
      var i :| 0 <= i < |u| && u[i] == c;
      SameCellsSameBlock(u, t, i);
    }
  }
}
