// Path resolution: from a slash-separated path to a directory entry.
module Fat12Path {
  import opened Wrappers
  import opened Errors
  import opened Strings
  import opened Fat12Names
  import opened Fat12Dir

  /** The disk, as far as the walk sees it: what reading the root directory gives, and
      what reading the entry that starts at a cluster gives. */
  datatype Disk = Disk(root: Result<seq<Entry>>, clusters: nat -> Result<seq<Entry>>)
  {
    ghost predicate Valid() {
      && (root.Ok? ==> Terminated(root.value))
      && forall c :: clusters(c).Ok? ==> Terminated(clusters(c).value)
    }

    // Reading an entry; cluster numbers from 0xFF8 on mark the end of a chain.
    function Load(cluster: nat): (r: Result<seq<Entry>>)
      ensures Valid() && r.Ok? ==> Terminated(r.value)
    {
      if cluster >= 0xFF8 then Err(InvalidArgument) else clusters(cluster)
    }

    function Enter(e: Entry): (r: Result<seq<Entry>>)
      ensures Valid() && r.Ok? ==> Terminated(r.value)
    {
      if !e.subdirectory then Err(NotADirectory) else Load(e.cluster % 0x1000)
    }
  }

  // ------------------------------------------------------------------ the meaning of a path

  /** The components of a path; consecutive slashes enclose an empty one. */
  function Split(path: Name): (r: seq<Name>)
    ensures |r| > 0
  {
    var c := Until(path, SLASH);
    if |c| == |path| then [path] else [c] + Split(path[|c| + 1..])
  }

  function Join(comps: seq<Name>): Name
    requires |comps| > 0
  {
    if |comps| == 1 then comps[0] else comps[0] + [SLASH] + Join(comps[1..])
  }

  /** Looking up one component. An empty one is an invalid argument at the end of the
      path, and just a name that is hardly ever there before it. */
  function Step(dir: seq<Entry>, name: Name, last: bool): Result<Entry> {
    if name == [] && last then Err(InvalidArgument)
    else
      match Find(dir, name)
      case None => Err(NotFound)
      case Some(e) => Ok(e)
  }

  /** Recursive lookup in the tree of directories. */
  function Lookup(disk: Disk, dir: seq<Entry>, comps: seq<Name>): Result<Entry>
    requires |comps| > 0
    decreases |comps|
  {
    match Step(dir, comps[0], |comps| == 1)
    case Err(x) => Err(x)
    case Ok(e) =>
      if |comps| == 1 then Ok(e)
      else
        match disk.Enter(e)
        case Err(x) => Err(x)
        case Ok(d) => Lookup(disk, d, comps[1..])
  }

  function Upper(c: SChar): SChar { if 97 <= c <= 122 then c - 32 else c }

  function UpperAll(s: seq<SChar>): (r: seq<SChar>)
    ensures |r| == |s| && forall i :: 0 <= i < |s| ==> r[i] == Upper(s[i])
  {
    seq(|s|, i requires 0 <= i < |s| => Upper(s[i]))
  }

  /** What an upper-cased path resolves to: one leading slash is skipped. */
  function Resolve(disk: Disk, path: Name): Result<Entry> {
    var p := if path != [] && path[0] == SLASH then path[1..] else path;
    match disk.root
    case Err(x) => Err(x)
    case Ok(d) => Lookup(disk, d, Split(p))
  }

  // ------------------------------------------------------------------ the routines

  method RegularFilenameToFilename(dest: array<SChar>, src: seq<SChar>)
    requires CStr(src) && |src| <= dest.Length
    modifies dest
    ensures dest[..] == UpperAll(src[..|src| - 1]) + [0] + old(dest[|src|..])
  {
    var i := 0;
    while src[i] != 0
      invariant i < |src|
      invariant forall j :: 0 <= j < i ==> dest[j] == Upper(src[j])
      invariant forall j :: i <= j < dest.Length ==> dest[j] == old(dest[j])
      decreases |src| - i
    {
      dest[i] := Upper(src[i]);
      i := i + 1;
    }
    dest[i] := 0;
    assert dest[..i] == UpperAll(src[..i]);
  }

  // The string that starts at position p of a buffer.
  ghost function TextAt(buf: seq<SChar>, p: nat): Name {
    if p <= |buf| then Until(buf[p..], 0) else []
  }

  ghost predicate TextIn(buf: seq<SChar>, p: nat) { p < |buf| && 0 in buf[p..] }

  // t is the string at p, given its characters and its end.
  lemma TextIs(buf: seq<SChar>, p: nat, t: Name)
    requires p + |t| < |buf| && buf[p..p + |t|] == t && 0 !in t && buf[p + |t|] == 0
    ensures TextIn(buf, p) && TextAt(buf, p) == t
  {
    var s := buf[p..];
    assert s[|t|] == 0 && s[..|t|] == t;
    UntilIs(s, 0, t);
  }

  lemma TextHere(buf: seq<SChar>, p: nat)
    requires TextIn(buf, p)
    ensures var t := TextAt(buf, p);
      p + |t| < |buf| && buf[p..p + |t|] == t && 0 !in t && buf[p + |t|] == 0
  {
    hide Until;
    var s := buf[p..];
    var t := TextAt(buf, p);
    assert |t| == |s| ==> t == s;
    assert s[..|t|] == buf[p..p + |t|];
  }

  // To the next slash, or the end.
  method FindSlash(buf: array<SChar>, p: nat) returns (i: nat)
    requires TextIn(buf[..], p)
    ensures i == p + |Until(TextAt(buf[..], p), SLASH)|
  {
    ghost var t := TextAt(buf[..], p);
    TextHere(buf[..], p);
    hide TextAt, TextIn;
    i := p;
    while buf[i] != SLASH && buf[i] != 0
      invariant p <= i <= p + |t| && SLASH !in t[..i - p]
      decreases p + |t| - i
    {
      assert t[i - p] == buf[i];
      assert t[..i - p + 1] == t[..i - p] + [buf[i]];
      i := i + 1;
    }
    assert i - p < |t| ==> t[i - p] == buf[i];
    UntilIs(t, SLASH, t[..i - p]);
  }

  // Writing a terminator over the slash leaves the component in front and the rest behind.
  lemma CutAtSlash(buf: seq<SChar>, p: nat, k: nat)
    requires TextIn(buf, p) && k < |TextAt(buf, p)|
    ensures var t := TextAt(buf, p);
      p + |t| < |buf| &&
      var cut := buf[p + k := 0];
      && TextIn(cut, p) && TextAt(cut, p) == t[..k]
      && TextIn(cut, p + k + 1) && TextAt(cut, p + k + 1) == t[k + 1..]
  {
    hide TextAt, TextIn;
    var t := TextAt(buf, p);
    TextHere(buf, p);
    var cut := buf[p + k := 0];
    assert cut[p..p + k] == buf[p..p + |t|][..k];
    TextIs(cut, p, t[..k]);
    assert cut[p + k + 1..p + |t|] == buf[p..p + |t|][k + 1..];
    TextIs(cut, p + k + 1, t[k + 1..]);
  }

  /** Cuts off the first component in place and tells where the next one starts; an
      empty rest is an error. */
  method Tokenize(buf: array<SChar>, p: nat) returns (r: Result<Option<nat>>)
    requires TextIn(buf[..], p)
    modifies buf
    ensures var t := old(TextAt(buf[..], p));
      var c := Until(t, SLASH);
      match r
      case Err(x) => t == [] && x == InvalidArgument
      case Ok(None) => t != [] && |c| == |t| && TextIn(buf[..], p) && TextAt(buf[..], p) == t
      case Ok(Some(next)) =>
        && |c| < |t| && TextIn(buf[..], p) && TextAt(buf[..], p) == c
        && TextIn(buf[..], next) && TextAt(buf[..], next) == t[|c| + 1..]
  {
    hide TextAt, TextIn;
    ghost var t, b0 := TextAt(buf[..], p), buf[..];
    TextHere(b0, p);
    assert t != [] ==> t[0] == buf[p];
    if buf[p] == 0 {
      return Err(InvalidArgument);
    }
    var i := FindSlash(buf, p);
    ghost var k := i - p;
    assert k < |t| ==> t[k] == buf[i];
    if buf[i] == 0 {
      return Ok(None);
    }
    CutAtSlash(b0, p, k);
    buf[i] := 0;
    assert buf[..] == b0[p + k := 0];
    return Ok(Some(i + 1));
  }

  /** Walks a path down from the root: the result is that of the recursive lookup. */
  method GetEntryOfFilename(disk: Disk, buf: array<SChar>) returns (r: Result<Entry>)
    requires disk.Valid() && TextIn(buf[..], 0)
    modifies buf
    ensures r == Resolve(disk, old(TextAt(buf[..], 0)))
  {
    ghost var path := TextAt(buf[..], 0);
    var current := 0;
    if buf[0] == SLASH {
      current := 1;
    }
    SkipSlash(buf[..]);
    if disk.root.Err? {
      return Err(disk.root.error);
    }
    r := Walk(disk, disk.root.value, buf, current);
  }

  lemma SkipSlash(buf: seq<SChar>)
    requires TextIn(buf, 0)
    ensures var t := TextAt(buf, 0);
      if buf[0] == SLASH then t != [] && t[0] == SLASH && TextIn(buf, 1) && TextAt(buf, 1) == t[1..]
      else t == [] || t[0] != SLASH
  {
    hide TextAt, TextIn;
    var t := TextAt(buf, 0);
    TextHere(buf, 0);
    assert t != [] ==> t[0] == buf[0];
    if buf[0] == SLASH {
      assert buf[1..|t|] == buf[0..|t|][1..];
      TextIs(buf, 1, t[1..]);
    }
  }

  lemma ComponentAt(buf: seq<SChar>, p: nat)
    requires TextIn(buf, p)
    ensures p <= |buf| && CStr(CStringAt(buf[p..])) && CStringAt(buf[p..]) == TextAt(buf, p) + [0]
  {
  }

  // One turn of the loop: the end of the walk, or a directory and the path left in it.
  method WalkStep(disk: Disk, dir: seq<Entry>, buf: array<SChar>, p: nat)
    returns (r: Result<Entry>, left: Option<(seq<Entry>, nat)>)
    requires disk.Valid() && Terminated(dir) && TextIn(buf[..], p)
    modifies buf
    ensures left.None? ==> r == Lookup(disk, dir, Split(old(TextAt(buf[..], p))))
    ensures left.Some? ==>
      var (d, q) := left.value;
      && Terminated(d) && TextIn(buf[..], q) && |TextAt(buf[..], q)| < |old(TextAt(buf[..], p))|
      && Lookup(disk, dir, Split(old(TextAt(buf[..], p)))) == Lookup(disk, d, Split(TextAt(buf[..], q)))
  {
    hide TextAt, TextIn, Terminated, Disk.Valid, Disk.Load, Split, Lookup, Find, Until, CStringAt;
    ghost var t := TextAt(buf[..], p);
    left := None;
    LookupSplit(disk, dir, t);
    var token := Tokenize(buf, p);
    if token.Err? {
      return Err(token.error), None;
    }
    ghost var c, name := Until(t, SLASH), TextAt(buf[..], p);
    assert |c| == |t| ==> c == t;
    assert name == c;
    ComponentAt(buf[..], p);
    assert buf[..][p..] == buf[p..];
    assert (name + [0])[..|name|] == name;
    var found := FindEntry(dir, CStringAt(buf[p..]));
    if found.Err? {
      return Err(NotFound), None;
    }
    if token.value.None? {
      return found, None;
    }
    var e := found.value;
    if !e.subdirectory {
      return Err(NotADirectory), None;
    }
    var read := disk.Load(e.cluster % 0x1000);
    if read.Err? {
      return Err(read.error), None;
    }
    return found, Some((read.value, token.value.value));
  }

  method Walk(disk: Disk, dir: seq<Entry>, buf: array<SChar>, start: nat) returns (r: Result<Entry>)
    requires disk.Valid() && Terminated(dir) && TextIn(buf[..], start)
    modifies buf
    ensures r == Lookup(disk, dir, Split(old(TextAt(buf[..], start))))
  {
    hide TextAt, TextIn, Terminated, Disk.Valid, Split, Lookup;
    var entries, current := dir, start;
    ghost var all := Lookup(disk, dir, Split(TextAt(buf[..], start)));
    while true
      invariant TextIn(buf[..], current) && Terminated(entries)
      invariant Lookup(disk, entries, Split(TextAt(buf[..], current))) == all
      decreases |TextAt(buf[..], current)|
    {
      var left;
      r, left := WalkStep(disk, entries, buf, current);
      if left.None? {
        return;
      }
      entries, current := left.value.0, left.value.1;
    }
  }

  // One step of the lookup, at the first slash of the path that is left.
  lemma LookupSplit(disk: Disk, dir: seq<Entry>, t: Name)
    ensures var c := Until(t, SLASH);
      Lookup(disk, dir, Split(t)) ==
      match Step(dir, c, |c| == |t|)
      case Err(x) => Err(x)
      case Ok(e) =>
        if |c| == |t| then Ok(e)
        else
          match disk.Enter(e)
          case Err(x) => Err(x)
          case Ok(d) => Lookup(disk, d, Split(t[|c| + 1..]))
  {
    hide Until, Step, Disk.Enter;
    var c := Until(t, SLASH);
    if |c| == |t| {
      assert Split(t) == [t] && c == t;
    } else {
      assert Split(t) == [c] + Split(t[|c| + 1..]);
      assert Split(t)[1..] == Split(t[|c| + 1..]);
    }
  }
}
