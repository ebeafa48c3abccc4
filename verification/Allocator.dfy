// The installer's allocator: two fixed tables of chunks and the global error code.
module Allocator {
  import opened Chunks
  import opened ChunkRoutines
  import opened Errors
  import opened HeapModel

  class Heap {
    const taken: array<Chunk>
    const freed: array<Chunk>
    var err: Error
    ghost var base: nat
    ghost var cap: nat
    ghost var leaked: seq<Chunk>

    /** The state the theorems speak of. */
    ghost function Model(): HeapModel.Heap
      reads this, taken, freed
    {
      HeapModel.Heap(base, cap, taken[..], freed[..], leaked)
    }

    ghost predicate Valid()
      reads this, taken, freed
    {
      taken != freed && Model().Valid() && Coalesced(freed[..])
    }

    // The statically allocated, zeroed tables.
    constructor (slots: nat)
      requires slots > 0
      ensures taken != freed && taken.Length == freed.Length == slots
      ensures fresh(taken) && fresh(freed) && err == NoError
    {
      taken := new Chunk[slots](_ => NONE);
      freed := new Chunk[slots](_ => NONE);
      err := NoError;
    }

    method AllocInit(start: nat, size: nat)
      requires taken != freed && taken.Length == freed.Length > 0
      requires start > 0 && size > 0 && start + size < WORD
      modifies this, taken, freed
      ensures Valid() && Model() == Init(start, size, taken.Length)
      ensures err == old(err)
    {
      for i := 0 to taken.Length
        modifies taken, freed
        invariant forall j :: 0 <= j < i ==> freed[j] == NONE && taken[j] == NONE
      {
        freed[i] := NONE;
        taken[i] := NONE;
      }
      freed[0] := Chunk(start, size);
      base, cap, leaked := start, size, [];
      ghost var h := Init(start, size, taken.Length);
      assert taken[..] == h.taken && freed[..] == h.freed;
      InitValid(start, size, taken.Length);
    }

    method Free(p: nat)
      requires Valid()
      modifies this, taken, freed
      ensures Valid()
      ensures var o := HeapModel.Free(TwoSided, old(Model()), p);
        Model() == o.heap && err == if o.err.NoError? then old(err) else o.err
    {
      FreeValid(TwoSided, Model(), p);
      if p == 0 {
        err := InvalidArgument;
        return;
      }
      ghost var h := Model();
      var found, c := RemoveChunkByAddress(taken, p);
      if !found {
        err := InvalidArgument;
        return;
      }
      assert h.freed == freed[..];
      var ok := MergeChunk(c, freed);
      if !ok {
        ok := InsertChunk(c, freed);
      }
      if !ok {
        leaked := leaked + [c];
        err := Internal;
      }
    }

    method Malloc(n: nat) returns (p: nat)
      requires Valid()
      modifies this, taken, freed
      ensures Valid()
      ensures var o := HeapModel.Malloc(old(Model()), n);
        Model() == o.heap && p == o.ptr && err == if o.err.NoError? then old(err) else o.err
    {
      MallocValid(Model(), n);
      if n == 0 {
        err := InvalidArgument;
        return 0;
      }
      ghost var h := Model();
      var found, c := RemoveChunkBySize(freed, n);
      if !found {
        err := HeapFull;
        return 0;
      }
      assert h.taken == taken[..];
      var ok := InsertChunk(c, taken);
      if !ok {
        leaked := leaked + [c];
        err := Internal;
        return 0;
      }
      return c.start;
    }
  }
}
