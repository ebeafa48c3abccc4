// Directories: the search for a name, and the listing fat12_dir_open builds.
module Fat12Dir {
  import opened Wrappers
  import opened Errors
  import opened Strings
  import opened Fat12Names

  /** The fields of a directory entry that the code looks at. */
  datatype Entry = Entry(raw: Raw, volumeLabel: bool, subdirectory: bool, cluster: nat)

  datatype Result<+T> = Ok(value: T) | Err(error: Error)

  predicate Terminated(dir: seq<Entry>) {
    exists i :: 0 <= i < |dir| && dir[i].raw[0] == 0
  }

  /** The entries before the one that ends the directory. */
  function Used(dir: seq<Entry>): (r: seq<Entry>)
    ensures |r| <= |dir| && r == dir[..|r|]
    ensures forall i :: 0 <= i < |r| ==> r[i].raw[0] != 0
    ensures |r| < |dir| ==> dir[|r|].raw[0] == 0
  {
    if dir == [] || dir[0].raw[0] == 0 then [] else [dir[0]] + Used(dir[1..])
  }

  lemma UsedEnds(dir: seq<Entry>)
    requires Terminated(dir)
    ensures |Used(dir)| < |dir|
  {
    var i :| 0 <= i < |dir| && dir[i].raw[0] == 0;
    forall j | 0 <= j < |Used(dir)| ensures dir[j].raw[0] != 0 {
      assert Used(dir)[j] == dir[j];
    }
  }

  // ------------------------------------------------------------------ find

  /** The first entry in use that has the name. */
  function Find(dir: seq<Entry>, name: Name): (r: Option<Entry>)
    ensures r.None? ==> forall e :: e in Used(dir) ==> NameOf(e.raw) != name
    ensures r.Some? ==> r.value in Used(dir) && NameOf(r.value.raw) == name
  {
    if dir == [] || dir[0].raw[0] == 0 then None
    else if NameOf(dir[0].raw) == name then Some(dir[0])
    else Find(dir[1..], name)
  }

  /** What first means: no entry before the one found has the name. */
  lemma {:induction false} FindSlot(dir: seq<Entry>, name: Name) returns (k: nat)
    requires Find(dir, name).Some?
    ensures k < |Used(dir)| && Find(dir, name) == Some(dir[k]) && NameOf(dir[k].raw) == name
    ensures forall i :: 0 <= i < k ==> NameOf(dir[i].raw) != name
    decreases |dir|
  {
    hide NameOf;
    if NameOf(dir[0].raw) == name {
      k := 0;
    } else {
      var l := FindSlot(dir[1..], name);
      k := l + 1;
      forall i | 0 <= i < k ensures NameOf(dir[i].raw) != name {
        assert i > 0 ==> dir[i] == dir[1..][i - 1];
      }
    }
  }

  // Entry k is in use and holds the padded form of the name.
  ghost predicate Holds(dir: seq<Entry>, k: nat, name: Name) {
    k < |Used(dir)| && Pack(name) == Some(dir[k].raw)
  }

  ghost predicate FirstToHold(dir: seq<Entry>, k: nat, name: Name) {
    Holds(dir, k, name) && forall i: nat :: i < k ==> !Holds(dir, i, name)
  }

  ghost predicate AllWellFormed(dir: seq<Entry>) {
    forall k: nat :: k < |Used(dir)| ==> WellFormed(dir[k].raw)
  }

  lemma HoldsByName(dir: seq<Entry>, k: nat, name: Name)
    requires AllWellFormed(dir) && k < |Used(dir)|
    ensures dir[k] in Used(dir) && (Holds(dir, k, name) <==> NameOf(dir[k].raw) == name)
  {
    hide NameOf, Pack, WellFormed;
    assert Used(dir)[k] == dir[k];
    NameMatches(dir[k].raw, name);
  }

  /** Among well-formed entries the search goes by the raw bytes: it finds the first
      entry that holds the padded form of the name, and fails only if there is none. */
  lemma FindByBytes(dir: seq<Entry>, name: Name)
    requires AllWellFormed(dir)
    ensures match Find(dir, name)
      case None => forall k: nat :: !Holds(dir, k, name)
      case Some(e) => exists k: nat :: FirstToHold(dir, k, name) && e == dir[k]
  {
    hide NameOf, Holds, AllWellFormed;
    if Find(dir, name).Some? {
      var k := FindSlot(dir, name);
      HoldsByName(dir, k, name);
      forall i: nat | i < k ensures !Holds(dir, i, name) {
        HoldsByName(dir, i, name);
      }
      assert FirstToHold(dir, k, name);
    } else {
      forall k: nat ensures !Holds(dir, k, name) {
        NotHeld(dir, k, name);
      }
    }
  }

  lemma NotHeld(dir: seq<Entry>, k: nat, name: Name)
    requires AllWellFormed(dir) && Find(dir, name).None?
    ensures !Holds(dir, k, name)
  {
    hide NameOf, AllWellFormed;
    if k < |Used(dir)| {
      HoldsByName(dir, k, name);
    }
  }

  // The C string at the start of a buffer.
  function CStringAt(buf: seq<SChar>): (s: seq<SChar>)
    ensures 0 in buf ==> CStr(s)
  {
    Until(buf, 0) + [0]
  }

  method EntryName(raw: Raw) returns (s: seq<SChar>)
    ensures s == NameOf(raw) + [0] && CStr(s)
  {
    var name := new SChar[16];
    ClusterFilenameToFilename(name, raw);
    ghost var out := Render(raw);
    assert name[..][..|out| + 1] == out + [0];
    UntilNul(name[..], out);
    s := CStringAt(name[..]);
  }

  lemma UntilNul(buf: seq<SChar>, out: Name)
    requires |out| < |buf| && buf[..|out| + 1] == out + [0]
    ensures Until(buf, 0) == Until(out, 0)
  {
    hide Until;
    var u := Until(out, 0);
    assert u == buf[..|u|];
    assert |u| < |out| ==> buf[|u|] == out[|u|];
    assert buf[|out|] == 0;
    UntilIs(buf, 0, u);
  }

  lemma FindFrom(dir: seq<Entry>, i: nat, name: Name)
    requires i < |dir|
    ensures Find(dir[i..], name) ==
      if dir[i].raw[0] == 0 then None
      else if NameOf(dir[i].raw) == name then Some(dir[i])
      else Find(dir[i + 1..], name)
  {
    hide NameOf, Used;
    assert dir[i..][1..] == dir[i + 1..];
  }

  /** Finds the first entry of that name, or reports that there is none. The test for a
      deleted entry compares a signed byte with 229 and so never fires. */
  method FindEntry(dir: seq<Entry>, name: seq<SChar>) returns (r: Result<Entry>)
    requires Terminated(dir) && CStr(name)
    ensures r == match Find(dir, name[..|name| - 1]) case None => Err(NotFound) case Some(e) => Ok(e)
  {
    hide NameOf, Find, Terminated;
    UsedEnds(dir);
    ghost var want := name[..|name| - 1];
    assert name == want + [0] && dir[0..] == dir;
    var i := 0;
    while true
      invariant i <= |Used(dir)| && Find(dir[i..], want) == Find(dir, want)
      decreases |dir| - i
    {
      FindFrom(dir, i, want);
      if dir[i].raw[0] == 0 {
        return Err(NotFound);
      }
      if dir[i].raw[0] != 0xE5 {
        var entryName := EntryName(dir[i].raw);
        var cmp := StrCmp(entryName, name);
        if cmp == 0 {
          assert NameOf(dir[i].raw) == entryName[..|entryName| - 1] == want;
          return Ok(dir[i]);
        }
        assert NameOf(dir[i].raw) != want;
      }
      i := i + 1;
    }
  }

  // ------------------------------------------------------------------ deleted entries

  // The first byte 0xE5 marks a deleted entry; as a signed char it is -27.
  predicate Deleted(e: Entry) { e.raw[0] == -27 }

  function WithoutDeleted(dir: seq<Entry>): seq<Entry> {
    if dir == [] then []
    else (if Deleted(dir[0]) then [] else [dir[0]]) + WithoutDeleted(dir[1..])
  }

  lemma FirstCharacter(raw: Raw)
    requires raw[0] != 0 && raw[0] != SPACE
    ensures NameOf(raw) != [] && NameOf(raw)[0] == raw[0]
  {
    assert raw[..8][0] == raw[0];
    assert Render(raw)[0] == raw[0];
  }

  lemma FindFirst(e: Entry, rest: seq<Entry>, name: Name)
    ensures Find([e] + rest, name) ==
      if e.raw[0] == 0 then None else if NameOf(e.raw) == name then Some(e) else Find(rest, name)
  {
    hide NameOf, Used;
    assert ([e] + rest)[1..] == rest;
  }

  /** Deleted entries do not disturb the search for any name that does not itself begin
      with that byte. */
  lemma {:induction false} FindIgnoresDeleted(dir: seq<Entry>, name: Name)
    requires name == [] || name[0] != -27
    ensures Find(dir, name) == Find(WithoutDeleted(dir), name)
    decreases |dir|
  {
    hide NameOf, Used;
    if dir != [] {
      FindIgnoresDeleted(dir[1..], name);
      if Deleted(dir[0]) {
        FirstCharacter(dir[0].raw);
        assert WithoutDeleted(dir) == WithoutDeleted(dir[1..]);
      } else {
        FindFirst(dir[0], WithoutDeleted(dir[1..]), name);
        FindFirst(dir[0], dir[1..], name);
        assert dir == [dir[0]] + dir[1..];
      }
    }
  }

  // Deleted entries make no difference to the search for the name, in any directory.
  ghost predicate SkipsDeleted(name: Name) {
    forall dir :: Terminated(dir) ==> Find(dir, name) == Find(WithoutDeleted(dir), name)
  }

  lemma FirstByte(raw: Raw)
    requires raw[0] != 0
    ensures NameOf(raw) != [] && NameOf(raw)[0] == -27 <==> raw[0] == -27
  {
    if raw[0] != SPACE {
      FirstCharacter(raw);
    }
  }

  // A directory of one entry.
  lemma FindAlone(e: Entry, term: Entry)
    requires e.raw[0] != 0 && term.raw[0] == 0
    ensures Terminated([e, term]) && Find([e, term], NameOf(e.raw)) == Some(e)
    ensures Deleted(e) ==> Find(WithoutDeleted([e, term]), NameOf(e.raw)) == None
  {
    hide NameOf;
    assert [e, term][1].raw[0] == 0;
    assert [e, term][1..] == [term] && [term][1..] == [];
    assert WithoutDeleted([term]) == [term];
    if Deleted(e) {
      assert WithoutDeleted([e, term]) == [term];
    }
  }

  /** For a name that some entry has, the search skips deleted entries exactly when the
      name does not begin with byte 0xE5: for one that does, a deleted entry is found. */
  lemma FindSkipsDeleted(raw: Raw)
    requires raw[0] != 0
    ensures var name := NameOf(raw);
      SkipsDeleted(name) <==> name == [] || name[0] != -27
  {
    hide NameOf, Find, WithoutDeleted;
    var name := NameOf(raw);
    FirstByte(raw);
    if name != [] && name[0] == -27 {
      var e, term := Entry(raw, false, false, 0), Entry(seq(11, _ => 0), false, false, 0);
      FindAlone(e, term);
      assert !SkipsDeleted(name);
    } else {
      forall dir | Terminated(dir) ensures Find(dir, name) == Find(WithoutDeleted(dir), name) {
        FindIgnoresDeleted(dir, name);
      }
    }
  }

  // ------------------------------------------------------------------ listing

  datatype EntryType = Directory | File
  datatype DirEntry = DirEntry(kind: EntryType, name: Name)

  function Describe(e: Entry): DirEntry {
    DirEntry(if e.subdirectory then Directory else File, NameOf(e.raw))
  }

  /** The listing: every entry in use but the volume labels, in order. */
  function Listing(used: seq<Entry>): seq<DirEntry> {
    if used == [] then []
    else
      var e := used[|used| - 1];
      Listing(used[..|used| - 1]) + if e.volumeLabel then [] else [Describe(e)]
  }

  // How many of the first i entries are listed.
  function Rank(used: seq<Entry>, i: nat): nat
    requires i <= |used|
  {
    if i == 0 then 0 else Rank(used, i - 1) + if used[i - 1].volumeLabel then 0 else 1
  }

  /** The listing has a slot for each entry that is no volume label, in their order, with
      its kind and name: for a well-formed entry the name its 11 bytes pack. */
  lemma ListedAt(used: seq<Entry>, i: nat)
    requires i < |used| && !used[i].volumeLabel
    ensures |Listing(used)| == Rank(used, |used|) && Rank(used, i) < |Listing(used)|
    ensures var d, e := Listing(used)[Rank(used, i)], used[i];
      && (d.kind == Directory <==> e.subdirectory)
      && d.name == NameOf(e.raw) && (WellFormed(e.raw) ==> Pack(d.name) == Some(e.raw))
  {
    hide NameOf, Pack, WellFormed, Listing;
    var prefix := Listing(used[..i]);
    ListingLength(used, i);
    ListingLength(used, |used|);
    assert used[..|used|] == used;
    ListingStep(used, i);
    ListingPrefix(used, i + 1);
    if WellFormed(used[i].raw) {
      PackRender(used[i].raw);
    }
  }

  lemma {:induction false} ListingLength(used: seq<Entry>, i: nat)
    requires i <= |used|
    ensures |Listing(used[..i])| == Rank(used, i)
    decreases i
  {
    hide Describe;
    if i > 0 {
      ListingLength(used, i - 1);
      ListingStep(used, i - 1);
    }
  }

  lemma {:induction false} ListingPrefix(used: seq<Entry>, i: nat)
    requires i <= |used|
    ensures Listing(used[..i]) <= Listing(used)
    decreases |used| - i
  {
    hide Listing, Describe;
    if i == |used| {
      assert used[..i] == used;
    } else {
      ListingStep(used, i);
      ListingPrefix(used, i + 1);
    }
  }

  method CreateDirEntry(e: Entry) returns (d: DirEntry)
    ensures d == Describe(e)
  {
    var name := new SChar[13];
    ClusterFilenameToFilename(name, e.raw);
    ghost var out := Render(e.raw);
    assert name[..][..|out| + 1] == out + [0];
    UntilNul(name[..], out);
    d := DirEntry(if e.subdirectory then Directory else File, Until(name[..], 0));
  }

  // The counting pass.
  method CountEntries(dir: seq<Entry>) returns (count: nat)
    requires Terminated(dir)
    ensures count == |Listing(Used(dir))|
  {
    hide Listing;
    UsedEnds(dir);
    ghost var used := Used(dir);
    ListingStart(used);
    count := 0;
    var i := 0;
    while dir[i].raw[0] != 0
      invariant i <= |used| && count == |Listing(used[..i])|
      decreases |dir| - i
    {
      ListingStep(used, i);
      if dir[i].raw[0] != 0xE5 && !dir[i].volumeLabel {
        count := count + 1;
      }
      i := i + 1;
    }
    assert used[..i] == used;
  }

  lemma ListingStart(used: seq<Entry>)
    ensures Listing(used[..0]) == []
  {
  }

  lemma ListingStep(used: seq<Entry>, i: nat)
    requires i < |used|
    ensures Listing(used[..i + 1]) == Listing(used[..i]) + if used[i].volumeLabel then [] else [Describe(used[i])]
  {
    assert used[..i + 1][..i] == used[..i];
  }

  lemma SlotWritten(now: seq<DirEntry>, before: seq<DirEntry>, count: nat, d: DirEntry)
    requires count < |before| && now == before[count := d]
    ensures now[..count + 1] == before[..count] + [d]
  {
  }

  // The filling pass: it writes every slot the counting pass reserved, and no other.
  method FillEntries(dir: seq<Entry>, entries: array<DirEntry>)
    requires Terminated(dir) && entries.Length == |Listing(Used(dir))|
    modifies entries
    ensures entries[..] == Listing(Used(dir))
  {
    hide Listing, Describe, Terminated;
    UsedEnds(dir);
    ghost var used := Used(dir);
    ListingStart(used);
    var i, count := 0, 0;
    while dir[i].raw[0] != 0
      invariant i <= |used| && count == |Listing(used[..i])| <= entries.Length
      invariant entries[..count] == Listing(used[..i])
      decreases |dir| - i
    {
      ListingStep(used, i);
      ListingGrows(used, i + 1);
      if dir[i].raw[0] != 0xE5 && !dir[i].volumeLabel {
        var d := CreateDirEntry(dir[i]);
        ghost var before := entries[..];
        entries[count] := d;
        SlotWritten(entries[..], before, count, d);
        count := count + 1;
      }
      i := i + 1;
    }
    assert used[..i] == used;
  }

  lemma {:induction false} ListingGrows(used: seq<Entry>, i: nat)
    requires i <= |used|
    ensures |Listing(used[..i])| <= |Listing(used)|
    decreases |used| - i
  {
    if i == |used| {
      assert used[..i] == used;
    } else {
      ListingStep(used, i);
      ListingGrows(used, i + 1);
    }
  }

  /** Counts, allocates and fills. Asking malloc for
      no entries is an error, so an empty directory does not open. `heap` is what malloc
      reports for any other request. */
  method ListDirectory(read: Result<seq<Entry>>, heap: Error) returns (r: Result<array<DirEntry>>)
    requires read.Ok? ==> Terminated(read.value)
    ensures match read
      case Err(e) => r == Err(e)
      case Ok(dir) =>
        var l := Listing(Used(dir));
        if l == [] then r == Err(InvalidArgument)
        else if heap != NoError then r == Err(heap)
        else r.Ok? && fresh(r.value) && r.value[..] == l
  {
    if read.Err? {
      return Err(read.error);
    }
    var dir := read.value;
    var count := CountEntries(dir);
    if count == 0 {
      return Err(InvalidArgument);
    }
    if heap != NoError {
      return Err(heap);
    }
    var entries := new DirEntry[count](_ => DirEntry(File, []));
    FillEntries(dir, entries);
    return Ok(entries);
  }

  lemma {:induction false} WithoutDeletedSnoc(s: seq<Entry>, e: Entry)
    ensures WithoutDeleted(s + [e]) == WithoutDeleted(s) + if Deleted(e) then [] else [e]
    decreases |s|
  {
    if s == [] {
      assert s + [e] == [e];
    } else {
      assert (s + [e])[1..] == s[1..] + [e];
      WithoutDeletedSnoc(s[1..], e);
    }
  }

  lemma ListingSnoc(s: seq<Entry>, e: Entry)
    ensures Listing(s + [e]) == Listing(s) + if e.volumeLabel then [] else [Describe(e)]
  {
    assert (s + [e])[..|s|] == s;
  }

  ghost predicate ShowsDeleted(used: seq<Entry>) {
    exists i :: 0 <= i < |used| && Deleted(used[i]) && !used[i].volumeLabel
  }

  lemma ShowsDeletedSnoc(s: seq<Entry>, e: Entry)
    ensures ShowsDeleted(s + [e]) <==> ShowsDeleted(s) || (Deleted(e) && !e.volumeLabel)
  {
    var u := s + [e];
    if ShowsDeleted(s) {
      var i :| 0 <= i < |s| && Deleted(s[i]) && !s[i].volumeLabel;
      assert u[i] == s[i];
    }
    assert u[|s|] == e;
  }

  /** Deleted files are listed too: the listing is the one the disk format asks for when
      there is none among the entries, and longer otherwise. */
  lemma {:induction false} ListingShowsDeleted(used: seq<Entry>)
    ensures if ShowsDeleted(used) then |Listing(used)| > |Listing(WithoutDeleted(used))|
      else Listing(used) == Listing(WithoutDeleted(used))
    decreases |used|
  {
    hide Listing, WithoutDeleted, ShowsDeleted, Deleted, Describe;
    if used == [] {
      NothingDeleted();
    } else {
      var s, e := used[..|used| - 1], used[|used| - 1];
      assert used == s + [e];
      ListingShowsDeleted(s);
      ListingSnoc(s, e);
      WithoutDeletedSnoc(s, e);
      ShowsDeletedSnoc(s, e);
      if !Deleted(e) {
        ListingSnoc(WithoutDeleted(s), e);
      } else {
        assert WithoutDeleted(s) + [] == WithoutDeleted(s);
      }
    }
  }

  lemma NothingDeleted()
    ensures WithoutDeleted([]) == [] && !ShowsDeleted([])
  {
  }
}
