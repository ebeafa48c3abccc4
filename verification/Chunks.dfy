// Chunk tables: the data both allocators edit in place, and the pure functions
// that say what each table routine does to it.
module Chunks {
  import opened Wrappers

  const WORD: nat := 0x1_0000_0000

  /** Addition of two machine words: pointers and `size_t` are 32 bits wide, and a carry
      out of the top bit is lost. */
  function Add32(a: nat, b: nat): nat
  {
    if a + b < WORD then a + b else a + b - WORD
  }

  datatype Chunk = Chunk(start: nat, size: nat) {
    predicate Empty() { start == 0 && size == 0 }

    function End(): nat { start + size }

    // A slot is either free (address 0, size 0) or holds a chunk that does not wrap.
    predicate WellFormed() {
      Empty() || (start > 0 && size > 0 && End() < WORD)
    }

    predicate Touches(c: Chunk) { End() == c.start || c.End() == start }

    ghost predicate Apart(c: Chunk) { End() <= c.start || c.End() <= start }

    predicate Has(x: int) { start <= x < End() }

    ghost function Span(): iset<int> { iset x: int | Has(x) }
  }

  const NONE := Chunk(0, 0)

  predicate Table(t: seq<Chunk>) {
    forall i :: 0 <= i < |t| ==> t[i].WellFormed()
  }

  ghost predicate Separate(t: seq<Chunk>) {
    forall i, j {:trigger t[i].Apart(t[j])} :: 0 <= i < j < |t| ==> t[i].Apart(t[j])
  }

  // No two chunks are adjacent, except perhaps where slot k takes part.
  ghost predicate CoalescedBut(t: seq<Chunk>, k: int) {
    forall i, j {:trigger t[i].Touches(t[j])} ::
      0 <= i < |t| && 0 <= j < |t| && i != k && j != k && !t[i].Empty() && !t[j].Empty()
      ==> !t[i].Touches(t[j])
  }

  ghost predicate Coalesced(t: seq<Chunk>) {
    CoalescedBut(t, -1)
  }

  /** The set of addresses a table covers. */
  ghost function Cells(t: seq<Chunk>): iset<int> {
    iset x: int | Covers(t, x)
  }

  ghost predicate Covers(t: seq<Chunk>, x: int) {
    exists i :: 0 <= i < |t| && t[i].Has(x)
  }

  /** The slots in use. */
  ghost function Used(t: seq<Chunk>): set<nat> {
    set i: nat | i < |t| && !t[i].Empty()
  }

  /** The chunks a table holds, whatever slots they sit in. */
  ghost function Blocks(t: seq<Chunk>): set<Chunk> {
    set c | c in t && !c.Empty()
  }

  // ---------------------------------------------------------------- searches

  /** The first slot with property p, or |t|: every table routine scans from slot 0. */
  function First(t: seq<Chunk>, p: Chunk -> bool): (k: nat)
    ensures k <= |t|
    ensures forall i :: 0 <= i < k ==> !p(t[i])
    ensures k < |t| ==> p(t[k])
  {
    if t == [] then 0 else if p(t[0]) then 0 else 1 + First(t[1..], p)
  }

  function FirstEmpty(t: seq<Chunk>): nat { First(t, (s: Chunk) => s.Empty()) }

  function FirstFit(t: seq<Chunk>, n: nat): nat { First(t, (s: Chunk) => s.size >= n) }

  function FirstAt(t: seq<Chunk>, p: nat): nat { First(t, (s: Chunk) => s.start == p) }

  function Neighbour(t: seq<Chunk>, c: Chunk): nat { First(t, (s: Chunk) => s.Touches(c)) }

  // A search stops at slot k when k has the property and no slot before it does.

  lemma EmptyIsAt(t: seq<Chunk>, k: nat)
    requires k <= |t| && (k < |t| ==> t[k].Empty()) && forall i :: 0 <= i < k ==> !t[i].Empty()
    ensures FirstEmpty(t) == k
  {
  }

  lemma FitIsAt(t: seq<Chunk>, n: nat, k: nat)
    requires k <= |t| && (k < |t| ==> t[k].size >= n) && forall i :: 0 <= i < k ==> t[i].size < n
    ensures FirstFit(t, n) == k
  {
  }

  lemma StartIsAt(t: seq<Chunk>, p: nat, k: nat)
    requires k <= |t| && (k < |t| ==> t[k].start == p) && forall i :: 0 <= i < k ==> t[i].start != p
    ensures FirstAt(t, p) == k
  {
  }

  lemma NeighbourIsAt(t: seq<Chunk>, c: Chunk, k: nat)
    requires k <= |t| && (k < |t| ==> t[k].Touches(c)) && forall i :: 0 <= i < k ==> !t[i].Touches(c)
    ensures Neighbour(t, c) == k
  {
  }

  // ---------------------------------------------------------------- table edits

  function Insert(t: seq<Chunk>, c: Chunk): Option<seq<Chunk>> {
    var e := FirstEmpty(t);
    if e == |t| then None else Some(t[e := c])
  }

  function Join(a: Chunk, b: Chunk): Chunk {
    Chunk(if a.start <= b.start then a.start else b.start, a.size + b.size)
  }

  // What is left of a chunk once n bytes are cut from its front.
  function Rest(c: Chunk, n: nat): Chunk
    requires n <= c.size
  {
    if c.size == n then NONE else Chunk(c.start + n, c.size - n)
  }

  // One round of the merge: slot k goes into its first neighbour j and is cleared.
  function Fuse(t: seq<Chunk>, k: nat, j: nat): seq<Chunk>
    requires k < |t| && j < |t|
  {
    t[j := Join(t[j], t[k])][k := NONE]
  }

  // The facts about a round that make the recursion go through: they hold of any
  // well-formed table, even one whose chunks overlap.
  lemma FuseShrinks(t: seq<Chunk>, k: nat, j: nat)
    requires Table(t) && k < |t| && !t[k].Empty()
    requires j < |t| && t[j].Touches(t[k])
    ensures j != k && !t[j].Empty()
    ensures Table(Fuse(t, k, j)) && !Fuse(t, k, j)[j].Empty()
    ensures Used(Fuse(t, k, j)) == Used(t) - {k}
    ensures |Used(Fuse(t, k, j))| < |Used(t)|
  {
    assert k in Used(t);
  }

  /** Merges slot k with its neighbours until none is left. */
  function Absorb(t: seq<Chunk>, k: nat): (r: seq<Chunk>)
    requires Table(t) && k < |t| && !t[k].Empty()
    ensures Table(r) && |r| == |t|
    decreases |Used(t)|
  {
    var j := Neighbour(t, t[k]);
    if j == |t| then t
    else
      FuseShrinks(t, k, j);
      Absorb(Fuse(t, k, j), j)
  }

  // The installer merges on both sides; the kernel stops after the first join.
  datatype Variant = TwoSided | OneSided

  /** Merging chunk c, which is not in the table, into its first neighbour. */
  function Merge(v: Variant, t: seq<Chunk>, c: Chunk): Option<seq<Chunk>>
    requires Table(t) && c.WellFormed() && !c.Empty()
  {
    var j := Neighbour(t, c);
    if j == |t| then None
    else
      var g := t[j := Join(t[j], c)];
      Some(if v.TwoSided? then Absorb(g, j) else g)
  }

  /** Giving chunk c to the table: merge it, or else find it a slot. */
  function PutBack(v: Variant, t: seq<Chunk>, c: Chunk): (r: Option<seq<Chunk>>)
    requires Table(t) && c.WellFormed() && !c.Empty()
    ensures r.Some? ==> Table(r.value) && |r.value| == |t|
  {
    var m := Merge(v, t, c);
    if m.Some? then m else Insert(t, c)
  }
}
