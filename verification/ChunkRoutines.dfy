// The table routines as the allocators run them: scans that edit an array in place.
module ChunkRoutines {
  import opened Wrappers
  import opened Chunks

  method InsertChunk(c: Chunk, list: array<Chunk>) returns (ok: bool)
    modifies list
    ensures ok <==> Insert(old(list[..]), c).Some?
    ensures list[..] == if ok then Insert(old(list[..]), c).value else old(list[..])
  {
    for i := 0 to list.Length
      invariant list[..] == old(list[..])
      invariant forall j :: 0 <= j < i ==> !list[j].Empty()
    {
      if list[i].start == 0 && list[i].size == 0 {
        assert FirstEmpty(list[..]) == i;
        list[i] := c;
        return true;
      }
    }
    return false;
  }

  // The word arithmetic of the merge: no sum wraps.
  lemma EndAsWord(a: Chunk)
    requires a.WellFormed()
    ensures Add32(a.start, a.size) == a.End()
  {
    NoCarry(a.start, a.size);
  }

  lemma NoCarry(x: nat, y: nat)
    requires x + y < WORD
    ensures Add32(x, y) == x + y
  {
  }

  lemma JoinWords(a: Chunk, c: Chunk)
    requires a.WellFormed() && c.WellFormed() && !a.Empty() && !c.Empty() && a.End() == c.start
    ensures Chunk(a.start, Add32(a.size, c.size)) == Join(a, c) == Join(c, a)
    ensures Join(a, c).WellFormed() && !Join(a, c).Empty()
  {
  }

  lemma MergeAt(v: Variant, t: seq<Chunk>, c: Chunk, i: nat)
    requires Table(t) && c.WellFormed() && !c.Empty()
    requires i < |t| && t[i].Touches(c) && forall j :: 0 <= j < i ==> !t[j].Touches(c)
    ensures var g := t[i := Join(t[i], c)];
      && Table(g) && !g[i].Empty()
      && Merge(v, t, c) == Some(if v.TwoSided? then Absorb(g, i) else g)
  {
    hide Absorb, Neighbour;
    if t[i].End() == c.start { JoinWords(t[i], c); } else { JoinWords(c, t[i]); }
    NeighbourIsAt(t, c, i);
  }

  lemma EndInTable(t: seq<Chunk>, i: nat)
    requires Table(t) && i < |t|
    ensures Add32(t[i].start, t[i].size) == t[i].End()
  {
    EndAsWord(t[i]);
  }

  // One round of the recursive merge, at the first neighbour i of slot k.
  lemma Round(t: seq<Chunk>, k: nat, i: nat)
    requires Table(t) && k < |t| && !t[k].Empty()
    requires i < |t| && t[i].Touches(t[k]) && forall j :: 0 <= j < i ==> !t[j].Touches(t[k])
    ensures i != k && Neighbour(t, t[k]) == i
    ensures var r := Fuse(t, k, i);
      && Table(r) && !r[i].Empty() && |Used(r)| < |Used(t)|
      && Absorb(t, k) == Absorb(r, i)
    ensures Join(t[i], t[k]) ==
      if t[i].End() == t[k].start then Chunk(t[i].start, Add32(t[i].size, t[k].size))
      else Chunk(t[k].start, Add32(t[k].size, t[i].size))
  {
    FuseShrinks(t, k, i);
    assert Neighbour(t, t[k]) == i;
    if t[i].End() == t[k].start { JoinWords(t[i], t[k]); } else { JoinWords(t[k], t[i]); }
  }

  // `k` is the slot the chunk pointer points at: the routine is only ever called on a
  // slot of the very table it edits.
  method MergeRemoveChunk(k: nat, list: array<Chunk>) returns (merged: bool)
    requires Table(list[..]) && k < list.Length && !list[k].Empty()
    modifies list
    ensures merged <==> Neighbour(old(list[..]), old(list[k])) < list.Length
    ensures list[..] == Absorb(old(list[..]), k)
    decreases |Used(list[..])|
  {
    hide Table, Used;
    ghost var t := list[..];
    EndInTable(t, k);
    for i := 0 to list.Length
      invariant list[..] == t
      invariant forall j :: 0 <= j < i ==> !t[j].Touches(t[k])
    {
      assert list[i] == t[i] && list[k] == t[k];
      EndInTable(t, i);
      if Add32(list[i].start, list[i].size) == list[k].start {
        Round(t, k, i);
        list[i] := Chunk(list[i].start, Add32(list[i].size, list[k].size));
        list[k] := NONE;
        assert list[..] == Fuse(t, k, i);
        var _ := MergeRemoveChunk(i, list);
        return true;
      }
      if Add32(list[k].start, list[k].size) == list[i].start {
        Round(t, k, i);
        list[i] := Chunk(list[k].start, Add32(list[k].size, list[i].size));
        list[k] := NONE;
        assert list[..] == Fuse(t, k, i);
        var _ := MergeRemoveChunk(i, list);
        return true;
      }
    }
    return false;
  }

  // The installer's merge.
  method MergeChunk(c: Chunk, list: array<Chunk>) returns (ok: bool)
    requires Table(list[..]) && c.WellFormed() && !c.Empty()
    modifies list
    ensures ok <==> Merge(TwoSided, old(list[..]), c).Some?
    ensures list[..] == if ok then Merge(TwoSided, old(list[..]), c).value else old(list[..])
  {
    hide Absorb, First;
    ghost var t := list[..];
    for i := 0 to list.Length
      invariant list[..] == t
      invariant forall j :: 0 <= j < i ==> !t[j].Touches(c)
    {
      assert list[i] == t[i];
      EndAsWord(t[i]);
      EndAsWord(c);
      if Add32(list[i].start, list[i].size) == c.start {
        MergeAt(TwoSided, t, c, i);
        JoinWords(t[i], c);
        list[i] := Chunk(list[i].start, Add32(list[i].size, c.size));
        assert list[..] == t[i := Join(t[i], c)];
        var _ := MergeRemoveChunk(i, list);
        return true;
      }
      if Add32(c.start, c.size) == list[i].start {
        MergeAt(TwoSided, t, c, i);
        JoinWords(c, t[i]);
        list[i] := Chunk(c.start, Add32(c.size, list[i].size));
        assert list[..] == t[i := Join(t[i], c)];
        var _ := MergeRemoveChunk(i, list);
        return true;
      }
    }
    NeighbourIsAt(t, c, |t|);
    return false;
  }

  // The kernel's merge: one join, or else an insertion.
  method KernelMergeChunk(c: Chunk, list: array<Chunk>) returns (ok: bool)
    requires Table(list[..]) && c.WellFormed() && !c.Empty()
    modifies list
    ensures ok <==> PutBack(OneSided, old(list[..]), c).Some?
    ensures list[..] == if ok then PutBack(OneSided, old(list[..]), c).value else old(list[..])
  {
    hide Absorb, First;
    ghost var t := list[..];
    for i := 0 to list.Length
      invariant list[..] == t
      invariant forall j :: 0 <= j < i ==> !t[j].Touches(c)
    {
      assert list[i] == t[i];
      EndAsWord(t[i]);
      EndAsWord(c);
      if Add32(list[i].start, list[i].size) == c.start {
        MergeAt(OneSided, t, c, i);
        JoinWords(t[i], c);
        list[i] := Chunk(list[i].start, Add32(list[i].size, c.size));
        return true;
      }
      if Add32(c.start, c.size) == list[i].start {
        MergeAt(OneSided, t, c, i);
        JoinWords(c, t[i]);
        list[i] := Chunk(c.start, Add32(c.size, list[i].size));
        return true;
      }
    }
    NeighbourIsAt(t, c, |t|);
    ok := InsertChunk(c, list);
  }

  method RemoveChunkBySize(list: array<Chunk>, size: nat) returns (ok: bool, c: Chunk)
    requires Table(list[..]) && size > 0
    modifies list
    ensures var t := old(list[..]);
      var k := FirstFit(t, size);
      && (ok <==> k < |t|)
      && (ok ==> c == Chunk(t[k].start, size) && list[..] == t[k := Rest(t[k], size)])
      && (!ok ==> list[..] == t)
  {
    c := NONE;
    for i := 0 to list.Length
      invariant list[..] == old(list[..])
      invariant forall j :: 0 <= j < i ==> list[j].size < size
    {
      if list[i].size >= size {
        assert FirstFit(list[..], size) == i;
        c := Chunk(list[i].start, size);
        list[i] := Chunk(list[i].start, list[i].size - size);
        if list[i].size == 0 {
          list[i] := Chunk(0, list[i].size);
        } else {
          list[i] := Chunk(Add32(list[i].start, size), list[i].size);
        }
        return true, c;
      }
    }
    return false, c;
  }

  method RemoveChunkByAddress(list: array<Chunk>, p: nat) returns (ok: bool, c: Chunk)
    modifies list
    ensures var t := old(list[..]);
      var k := FirstAt(t, p);
      && (ok <==> k < |t|)
      && (ok ==> c == t[k] && list[..] == t[k := NONE])
      && (!ok ==> list[..] == t)
  {
    c := NONE;
    for i := 0 to list.Length
      invariant list[..] == old(list[..])
      invariant forall j :: 0 <= j < i ==> list[j].start != p
    {
      if list[i].start == p {
        assert FirstAt(list[..], p) == i;
        c := list[i];
        list[i] := NONE;
        return true, c;
      }
    }
    return false, c;
  }
}
