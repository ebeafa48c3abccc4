// Opening a directory by its path.
module Fat12Open {
  import opened Wrappers
  import opened Errors
  import opened Strings
  import Fat12Names
  import opened Fat12Dir
  import opened Fat12Path

  const ROOT: seq<SChar> := [Fat12Names.SLASH, 0]

  /** What the path of a directory reads as: the entries of the directory it resolves to,
      in upper case. */
  function Contents(disk: Disk, path: Fat12Names.Name): Result<seq<Entry>> {
    match Resolve(disk, UpperAll(path))
    case Err(x) => Err(x)
    case Ok(e) => disk.Enter(e)
  }

  // `fats` is what reading the allocation tables reports.
  method ReadDirectory(disk: Disk, fats: Error, dirname: seq<SChar>) returns (r: Result<seq<Entry>>)
    requires disk.Valid() && CStr(dirname) && |dirname| <= 512
    ensures r == if fats != NoError then Err(fats) else Contents(disk, dirname[..|dirname| - 1])
    ensures r.Ok? ==> Terminated(r.value)
  {
    hide Resolve, Fat12Names.Until, UpperAll;
    ghost var path := UpperAll(dirname[..|dirname| - 1]);
    var buffer := new SChar[512];
    RegularFilenameToFilename(buffer, dirname);
    if fats != NoError {
      return Err(fats);
    }
    UpperText(buffer[..], dirname);
    var entry := GetEntryOfFilename(disk, buffer);
    if entry.Err? {
      return Err(entry.error);
    }
    if !entry.value.subdirectory {
      return Err(NotADirectory);
    }
    r := disk.Load(entry.value.cluster % 0x1000);
  }

  lemma UpperText(buf: seq<SChar>, src: seq<SChar>)
    requires CStr(src) && |src| <= |buf| && buf[..|src|] == UpperAll(src[..|src| - 1]) + [0]
    ensures TextIn(buf, 0) && TextAt(buf, 0) == UpperAll(src[..|src| - 1])
  {
    var t := UpperAll(src[..|src| - 1]);
    assert buf[0..0 + |t|] == buf[..|src|][..|t|];
    assert buf[|t|] == buf[..|src|][|t|];
    TextIs(buf, 0, t);
  }

  /** Opens the root for no name or "/", else the directory the path leads to, and lists
      it: the listing succeeds exactly when the directory can be read, lists something,
      and its listing fits in memory. */
  method Open(disk: Disk, fats: Error, heap: Error, dirname: Option<seq<SChar>>) returns (r: Result<array<DirEntry>>)
    requires disk.Valid()
    requires dirname.Some? ==> CStr(dirname.value) && |dirname.value| <= 512
    ensures var read :=
        if dirname.None? || dirname.value == ROOT then disk.root
        else if fats != NoError then Err(fats)
        else Contents(disk, dirname.value[..|dirname.value| - 1]);
      match read
      case Err(e) => r == Err(e)
      case Ok(dir) =>
        var l := Listing(Used(dir));
        if l == [] then r == Err(InvalidArgument)
        else if heap != NoError then r == Err(heap)
        else r.Ok? && fresh(r.value) && r.value[..] == l
  {
    hide Contents, Listing, Used, Terminated;
    var read := disk.root;
    if dirname.Some? {
      var cmp := StrCmp(dirname.value, ROOT);
      if cmp != 0 {
        read := ReadDirectory(disk, fats, dirname.value);
      }
    }
    RootReads(disk);
    r := ListDirectory(read, heap);
  }

  lemma RootReads(disk: Disk)
    requires disk.Valid()
    ensures disk.root.Ok? ==> Terminated(disk.root.value)
  {
  }
}
