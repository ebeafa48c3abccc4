// The kernel's allocator: the same tables, no error code, and a one-sided merge.
module KernelAllocator {
  import opened Chunks
  import opened ChunkRoutines
  import opened HeapModel

  class Heap {
    const taken: array<Chunk>
    const freed: array<Chunk>
    ghost var base: nat
    ghost var cap: nat
    ghost var leaked: seq<Chunk>

    /** The state the theorems speak of. */
    ghost function Model(): HeapModel.Heap
      reads this, taken, freed
    {
      HeapModel.Heap(base, cap, taken[..], freed[..], leaked)
    }

    ghost predicate Valid()
      reads this, taken, freed
    {
      taken != freed && Model().Valid()
    }

    // The statically allocated, zeroed tables.
    constructor (slots: nat)
      requires slots > 0
      ensures taken != freed && taken.Length == freed.Length == slots
      ensures fresh(taken) && fresh(freed)
    {
      taken := new Chunk[slots](_ => NONE);
      freed := new Chunk[slots](_ => NONE);
    }

    method AllocInit(start: nat, size: nat)
      requires taken != freed && taken.Length == freed.Length > 0
      requires start > 0 && size > 0 && start + size < WORD
      modifies this, taken, freed
      ensures Valid() && Model() == Init(start, size, taken.Length)
    {
      for i := 0 to taken.Length
        modifies taken, freed
        invariant forall j :: 0 <= j < i ==> freed[j] == NONE && taken[j] == NONE
      {
        freed[i] := NONE;
        taken[i] := NONE;
      }
      freed[0] := Chunk(start, size);
      base, cap, leaked := start, size, [];
      ghost var h := Init(start, size, taken.Length);
      assert taken[..] == h.taken && freed[..] == h.freed;
      InitValid(start, size, taken.Length);
    }

    method Free(p: nat)
      requires Valid()
      modifies this, taken, freed
      ensures Valid()
      ensures var o := HeapModel.Free(OneSided, old(Model()), p);
        Model() == o.heap
    {
      FreeValid(OneSided, Model(), p);
      if p == 0 {
        return;
      }
      ghost var h := Model();
      var found, c := RemoveChunkByAddress(taken, p);
      if !found {
        return;
      }
      assert h.freed == freed[..];
      var ok := KernelMergeChunk(c, freed);
      if !ok {
        leaked := leaked + [c];
      }
    }

    method Malloc(n: nat) returns (p: nat)
      requires Valid()
      modifies this, taken, freed
      ensures Valid()
      ensures var o := HeapModel.Malloc(old(Model()), n);
        Model() == o.heap && p == o.ptr
    {
      MallocValid(Model(), n);
      if n == 0 {
        return 0;
      }
      ghost var h := Model();
      var found, c := RemoveChunkBySize(freed, n);
      if !found {
        return 0;
      }
      assert h.taken == taken[..];
      var ok := InsertChunk(c, taken);
      if !ok {
        leaked := leaked + [c];
        return 0;
      }
      return c.start;
    }
  }
}
