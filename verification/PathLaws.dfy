// Laws of paths: what resolving one means, in terms of entries and clusters.
module PathLaws {
  import opened Wrappers
  import opened Errors
  import opened Strings
  import opened Fat12Names
  import opened Fat12Dir
  import opened Fat12Path
  import Fat12Open

  // ------------------------------------------------------------------ paths and components

  lemma SplitCons(c: Name, rest: Name)
    requires SLASH !in c
    ensures Split(c + [SLASH] + rest) == [c] + Split(rest)
  {
    var p := c + [SLASH] + rest;
    UntilIs(p, SLASH, c);
    assert p[|c| + 1..] == rest;
  }

  lemma SplitOne(c: Name)
    requires SLASH !in c
    ensures Split(c) == [c]
  {
    UntilIs(c, SLASH, c);
  }

  lemma JoinCons(c: Name, comps: seq<Name>)
    requires |comps| > 0
    ensures Join([c] + comps) == c + [SLASH] + Join(comps)
  {
    assert ([c] + comps)[1..] == comps;
  }

  /** Splitting loses nothing ... */
  lemma {:induction false} JoinSplit(path: Name)
    ensures Join(Split(path)) == path
    decreases |path|
  {
    hide Split, Join;
    var c := Until(path, SLASH);
    if |c| == |path| {
      SplitOne(path);
      JoinOne(path);
    } else {
      var rest := path[|c| + 1..];
      assert path == c + [SLASH] + rest;
      SplitCons(c, rest);
      JoinSplit(rest);
      JoinCons(c, Split(rest));
    }
  }

  lemma JoinOne(c: Name)
    ensures Join([c]) == c
  {
  }

  /** ... and finds exactly the components a path was joined from. */
  lemma {:induction false} SplitJoin(comps: seq<Name>)
    requires |comps| > 0 && forall c :: c in comps ==> SLASH !in c
    ensures Split(Join(comps)) == comps
    decreases |comps|
  {
    hide Split, Join;
    var c := comps[0];
    if |comps| == 1 {
      assert comps == [c];
      JoinOne(c);
      SplitOne(c);
    } else {
      var rest := comps[1..];
      assert comps == [c] + rest;
      JoinCons(c, rest);
      SplitJoin(rest);
      SplitCons(c, Join(rest));
    }
  }

  // ------------------------------------------------------------------ the walk

  /** Resolving p/q is resolving q in the directory p resolves to; the first component
      that fails decides the error. Only a path that ends in a slash means something
      else on its own than in front of another. */
  lemma {:induction false} LookupAppend(disk: Disk, dir: seq<Entry>, p: seq<Name>, q: seq<Name>)
    requires |p| > 0 && |q| > 0 && p[|p| - 1] != []
    ensures Lookup(disk, dir, p + q) ==
      match Lookup(disk, dir, p)
      case Err(x) => Err(x)
      case Ok(e) =>
        match disk.Enter(e)
        case Err(x) => Err(x)
        case Ok(d) => Lookup(disk, d, q)
    decreases |p|
  {
    hide Disk.Enter, Find;
    assert (p + q)[0] == p[0];
    if |p| == 1 {
      assert (p + q)[1..] == q;
    } else {
      assert (p + q)[1..] == p[1..] + q;
      match Step(dir, p[0], false)
      case Err(_) =>
      case Ok(e) =>
        match disk.Enter(e)
        case Err(_) =>
        case Ok(d) => LookupAppend(disk, d, p[1..], q);
    }
  }

  // The directory an entry opens: it must be a subdirectory, and the low 12 bits of its
  // cluster number must not mark the end of a chain.
  ghost predicate Opens(disk: Disk, e: Entry, d: seq<Entry>) {
    && e.subdirectory && e.cluster % 0x1000 < 0xFF8
    && disk.clusters(e.cluster % 0x1000) == Ok(d)
  }

  // Why an entry does not open.
  ghost predicate Shut(disk: Disk, e: Entry, x: Error) {
    if !e.subdirectory then x == NotADirectory
    else if e.cluster % 0x1000 >= 0xFF8 then x == InvalidArgument
    else disk.clusters(e.cluster % 0x1000) == Err(x)
  }

  // What reading an entry as a directory gives.
  ghost predicate ReadsAs(disk: Disk, e: Entry, r: Result<seq<Entry>>) {
    if r.Ok? then Opens(disk, e, r.value) else Shut(disk, e, r.error)
  }

  lemma Reading(disk: Disk, e: Entry) returns (r: Result<seq<Entry>>)
    ensures ReadsAs(disk, e, r)
  {
    r := disk.Enter(e);
  }

  /** One step down: the rest of the path is looked up in the directory the first entry
      of that name opens. */
  lemma LookupEnters(disk: Disk, dir: seq<Entry>, name: Name, rest: seq<Name>)
    requires rest != []
    ensures Find(dir, name).None? ==> Lookup(disk, dir, [name] + rest) == Err(NotFound)
    ensures forall d :: Find(dir, name).Some? && Opens(disk, Find(dir, name).value, d) ==>
      Lookup(disk, dir, [name] + rest) == Lookup(disk, d, rest)
    ensures forall x :: Find(dir, name).Some? && Shut(disk, Find(dir, name).value, x) ==>
      Lookup(disk, dir, [name] + rest) == Err(x)
  {
    hide Find;
    assert ([name] + rest)[1..] == rest;
  }

  /** The last component: the entry itself, whatever its kind. */
  lemma LookupEnds(disk: Disk, dir: seq<Entry>, name: Name)
    ensures Lookup(disk, dir, [name]) ==
      if name == [] then Err(InvalidArgument)
      else match Find(dir, name) case None => Err(NotFound) case Some(e) => Ok(e)
  {
  }

  // es is the way from dir down the components: each entry is the first of its name in
  // the directory the one before it opens.
  ghost predicate Way(disk: Disk, dir: seq<Entry>, comps: seq<Name>, es: seq<Entry>)
    decreases |comps|
  {
    && |es| == |comps| > 0
    && (|comps| == 1 ==> comps[0] != []) && Find(dir, comps[0]) == Some(es[0])
    && (|comps| > 1 ==> exists d :: Opens(disk, es[0], d) && Way(disk, d, comps[1..], es[1..]))
  }

  lemma HeadAndTail(comps: seq<Name>)
    requires comps != []
    ensures comps == if |comps| == 1 then [comps[0]] else [comps[0]] + comps[1..]
  {
  }

  /** A path resolves to an entry exactly when there is such a way to it. */
  lemma {:induction false} LookupFindsWay(disk: Disk, dir: seq<Entry>, comps: seq<Name>, e: Entry)
    requires |comps| > 0
    ensures Lookup(disk, dir, comps) == Ok(e) <==>
      exists es :: Way(disk, dir, comps, es) && es[|es| - 1] == e
    decreases |comps|
  {
    if Lookup(disk, dir, comps) == Ok(e) {
      var es := WayOf(disk, dir, comps);
    }
    forall es | Way(disk, dir, comps, es) && es[|es| - 1] == e
      ensures Lookup(disk, dir, comps) == Ok(e)
    {
      WayIsLookup(disk, dir, comps, es);
    }
  }

  lemma FirstOfWay(disk: Disk, dir: seq<Entry>, comps: seq<Name>) returns (d: seq<Entry>)
    requires |comps| > 1 && Lookup(disk, dir, comps).Ok?
    ensures Find(dir, comps[0]).Some? && Opens(disk, Find(dir, comps[0]).value, d)
    ensures Lookup(disk, dir, comps) == Lookup(disk, d, comps[1..])
  {
    hide Find, Lookup, Opens, Shut;
    HeadAndTail(comps);
    LookupEnters(disk, dir, comps[0], comps[1..]);
    var r := Reading(disk, Find(dir, comps[0]).value);
    d := r.value;
  }

  lemma WayCons(disk: Disk, dir: seq<Entry>, comps: seq<Name>, d: seq<Entry>, e: Entry, rest: seq<Entry>)
    requires |comps| > 1 && Find(dir, comps[0]) == Some(e) && Opens(disk, e, d) && Way(disk, d, comps[1..], rest)
    ensures Way(disk, dir, comps, [e] + rest) && |rest| > 0 && ([e] + rest)[|rest|] == rest[|rest| - 1]
  {
    hide Find, Opens;
    assert ([e] + rest)[1..] == rest;
  }

  lemma {:induction false} WayOf(disk: Disk, dir: seq<Entry>, comps: seq<Name>) returns (es: seq<Entry>)
    requires |comps| > 0 && Lookup(disk, dir, comps).Ok?
    ensures Way(disk, dir, comps, es) && |es| > 0 && Lookup(disk, dir, comps) == Ok(es[|es| - 1])
    decreases |comps|
  {
    hide Find, Lookup, Opens;
    if |comps| == 1 {
      HeadAndTail(comps);
      LookupEnds(disk, dir, comps[0]);
      es := [Find(dir, comps[0]).value];
    } else {
      hide Way;
      var d := FirstOfWay(disk, dir, comps);
      var rest := WayOf(disk, d, comps[1..]);
      WayCons(disk, dir, comps, d, Find(dir, comps[0]).value, rest);
      es := [Find(dir, comps[0]).value] + rest;
    }
  }

  // The lookup goes on in the directory the first entry opens.
  lemma LookupGoesOn(disk: Disk, dir: seq<Entry>, comps: seq<Name>, d: seq<Entry>)
    requires |comps| > 1 && Find(dir, comps[0]).Some? && Opens(disk, Find(dir, comps[0]).value, d)
    ensures Lookup(disk, dir, comps) == Lookup(disk, d, comps[1..])
  {
    hide Find, Lookup, Opens;
    HeadAndTail(comps);
    LookupEnters(disk, dir, comps[0], comps[1..]);
  }

  lemma WayGoesOn(disk: Disk, dir: seq<Entry>, comps: seq<Name>, es: seq<Entry>) returns (d: seq<Entry>)
    requires Way(disk, dir, comps, es) && |comps| > 1
    ensures Find(dir, comps[0]).Some? && Opens(disk, Find(dir, comps[0]).value, d)
    ensures |es| == |comps| && Way(disk, d, comps[1..], es[1..]) && es[1..][|es| - 2] == es[|es| - 1]
  {
    hide Find, Opens;
    d :| Opens(disk, es[0], d) && Way(disk, d, comps[1..], es[1..]);
  }

  lemma {:induction false} WayIsLookup(disk: Disk, dir: seq<Entry>, comps: seq<Name>, es: seq<Entry>)
    requires Way(disk, dir, comps, es)
    ensures Lookup(disk, dir, comps) == Ok(es[|es| - 1])
    decreases |comps|
  {
    hide Find, Lookup, Opens;
    if |comps| == 1 {
      HeadAndTail(comps);
      LookupEnds(disk, dir, comps[0]);
    } else {
      var d := WayGoesOn(disk, dir, comps, es);
      hide Way;
      WayIsLookup(disk, d, comps[1..], es[1..]);
      LookupGoesOn(disk, dir, comps, d);
    }
  }

  // ------------------------------------------------------------------ failing

  // The components lead from dir to the directory d.
  ghost predicate LeadsTo(disk: Disk, dir: seq<Entry>, comps: seq<Name>, d: seq<Entry>)
    decreases |comps|
  {
    if comps == [] then d == dir
    else
      && Find(dir, comps[0]).Some?
      && exists d' :: Opens(disk, Find(dir, comps[0]).value, d') && LeadsTo(disk, d', comps[1..], d)
  }

  // Looking the component up in d fails with x.
  ghost predicate FailsAt(disk: Disk, d: seq<Entry>, name: Name, last: bool, x: Error) {
    if last && name == [] then x == InvalidArgument
    else match Find(d, name)
      case None => x == NotFound
      case Some(e) => !last && Shut(disk, e, x)
  }

  // Component k of the path is the first to fail.
  ghost predicate FirstFailure(disk: Disk, dir: seq<Entry>, comps: seq<Name>, k: nat, x: Error) {
    && k < |comps|
    && exists d :: LeadsTo(disk, dir, comps[..k], d) && FailsAt(disk, d, comps[k], k == |comps| - 1, x)
  }

  /** A path fails exactly with the error of its first failing component. */
  lemma {:induction false} LookupFails(disk: Disk, dir: seq<Entry>, comps: seq<Name>, x: Error)
    requires |comps| > 0
    ensures Lookup(disk, dir, comps) == Err(x) <==> exists k: nat :: FirstFailure(disk, dir, comps, k, x)
    decreases |comps|
  {
    if Lookup(disk, dir, comps) == Err(x) {
      var k := FailureOf(disk, dir, comps, x);
    }
    forall k: nat | FirstFailure(disk, dir, comps, k, x) ensures Lookup(disk, dir, comps) == Err(x) {
      FailureIsLookup(disk, dir, comps, k, x);
    }
  }

  // Either the first component fails, or its entry opens and the rest fails.
  lemma FailsHereOrBelow(disk: Disk, dir: seq<Entry>, comps: seq<Name>, x: Error) returns (d: seq<Entry>)
    requires |comps| > 0 && Lookup(disk, dir, comps) == Err(x) && !FailsAt(disk, dir, comps[0], |comps| == 1, x)
    ensures |comps| > 1 && Find(dir, comps[0]).Some?
    ensures Opens(disk, Find(dir, comps[0]).value, d) && Lookup(disk, d, comps[1..]) == Err(x)
  {
    hide Find, Lookup, Opens, Shut;
    HeadAndTail(comps);
    d := [];
    if |comps| == 1 {
      LookupEnds(disk, dir, comps[0]);
    } else {
      LookupEnters(disk, dir, comps[0], comps[1..]);
      var r := Reading(disk, Find(dir, comps[0]).value);
      d := r.value;
    }
  }

  // The first failure of the rest is that of the whole.
  lemma FailureCons(disk: Disk, dir: seq<Entry>, comps: seq<Name>, d: seq<Entry>, l: nat, x: Error)
    requires |comps| > 1 && Find(dir, comps[0]).Some? && Opens(disk, Find(dir, comps[0]).value, d)
    ensures FirstFailure(disk, d, comps[1..], l, x) <==> FirstFailure(disk, dir, comps, l + 1, x)
  {
    hide Find, FailsAt;
    if l < |comps| - 1 {
      assert comps[..l + 1][1..] == comps[1..][..l] && comps[..l + 1][0] == comps[0] && comps[1..][l] == comps[l + 1];
      var last := l + 2 == |comps|;
      assert (l == |comps[1..]| - 1) == last && (l + 1 == |comps| - 1) == last;
      forall d'
        ensures LeadsTo(disk, dir, comps[..l + 1], d') && FailsAt(disk, d', comps[l + 1], last, x)
          <==> LeadsTo(disk, d, comps[1..][..l], d') && FailsAt(disk, d', comps[1..][l], last, x)
      {
      }
    }
  }

  lemma {:induction false} FailureOf(disk: Disk, dir: seq<Entry>, comps: seq<Name>, x: Error) returns (k: nat)
    requires |comps| > 0 && Lookup(disk, dir, comps) == Err(x)
    ensures FirstFailure(disk, dir, comps, k, x)
    decreases |comps|
  {
    hide Find, Lookup, Opens, FailsAt;
    if FailsAt(disk, dir, comps[0], |comps| == 1, x) {
      k := 0;
      assert LeadsTo(disk, dir, comps[..0], dir);
    } else {
      hide FirstFailure;
      var d := FailsHereOrBelow(disk, dir, comps, x);
      var l := FailureOf(disk, d, comps[1..], x);
      k := l + 1;
      FailureCons(disk, dir, comps, d, l, x);
    }
  }

  lemma FailsHere(disk: Disk, dir: seq<Entry>, comps: seq<Name>, x: Error)
    requires |comps| > 0 && FailsAt(disk, dir, comps[0], |comps| == 1, x)
    ensures Lookup(disk, dir, comps) == Err(x)
  {
    hide Find, Lookup, Shut;
    HeadAndTail(comps);
    if |comps| == 1 {
      LookupEnds(disk, dir, comps[0]);
    } else {
      LookupEnters(disk, dir, comps[0], comps[1..]);
    }
  }

  // A path that fails later leads somewhere first.
  lemma FirstOpens(disk: Disk, dir: seq<Entry>, comps: seq<Name>, k: nat, x: Error) returns (d: seq<Entry>)
    requires FirstFailure(disk, dir, comps, k, x) && k > 0
    ensures |comps| > 1 && Find(dir, comps[0]).Some? && Opens(disk, Find(dir, comps[0]).value, d)
  {
    hide Find, Opens, FailsAt;
    var d' :| LeadsTo(disk, dir, comps[..k], d') && FailsAt(disk, d', comps[k], k == |comps| - 1, x);
    assert comps[..k][0] == comps[0];
    d :| Opens(disk, Find(dir, comps[0]).value, d) && LeadsTo(disk, d, comps[..k][1..], d');
  }

  lemma FirstIsHere(disk: Disk, dir: seq<Entry>, comps: seq<Name>, x: Error)
    requires FirstFailure(disk, dir, comps, 0, x)
    ensures FailsAt(disk, dir, comps[0], |comps| == 1, x)
  {
    hide Find, Opens, FailsAt;
    var d :| LeadsTo(disk, dir, comps[..0], d) && FailsAt(disk, d, comps[0], 0 == |comps| - 1, x);
    assert (0 == |comps| - 1) == (|comps| == 1);
  }

  lemma {:induction false} FailureIsLookup(disk: Disk, dir: seq<Entry>, comps: seq<Name>, k: nat, x: Error)
    requires k < |comps| && FirstFailure(disk, dir, comps, k, x)
    ensures Lookup(disk, dir, comps) == Err(x)
    decreases k
  {
    hide Find, Lookup, Opens, FailsAt, FirstFailure;
    if k == 0 {
      FirstIsHere(disk, dir, comps, x);
      FailsHere(disk, dir, comps, x);
    } else {
      var d := FirstOpens(disk, dir, comps, k, x);
      FailureCons(disk, dir, comps, d, k - 1, x);
      FailureIsLookup(disk, d, comps[1..], k - 1, x);
      LookupGoesOn(disk, dir, comps, d);
    }
  }

  // ------------------------------------------------------------------ letter case and the first slash

  const A: SChar := 65
  const Z: SChar := 90

  // The name is the upper-case name u, letter by letter, in whatever case.
  ghost predicate InAnyCase(name: Name, u: Name) {
    && |name| == |u|
    && (forall i :: 0 <= i < |u| ==> name[i] == u[i] || (A <= u[i] <= Z && name[i] == u[i] + 32))
    && forall i :: 0 <= i < |u| ==> !(A + 32 <= u[i] <= Z + 32)
  }

  lemma UpperCase(name: Name, u: Name)
    requires InAnyCase(name, u)
    ensures UpperAll(name) == u
  {
  }

  // The path spells the components, with or without a slash in front.
  ghost predicate Spells(path: Name, comps: seq<Name>) {
    && comps != [] && (forall c :: c in comps ==> SLASH !in c)
    && (InAnyCase(path, [SLASH] + Join(comps))
        || (InAnyCase(path, Join(comps)) && (Join(comps) != [] ==> Join(comps)[0] != SLASH)))
  }

  lemma ResolveSpelled(disk: Disk, path: Name, comps: seq<Name>)
    requires Spells(path, comps)
    ensures Resolve(disk, UpperAll(path)) ==
      if disk.root.Err? then Err(disk.root.error) else Lookup(disk, disk.root.value, comps)
  {
    hide Split, Lookup, UpperAll, Join;
    SplitJoin(comps);
    if InAnyCase(path, [SLASH] + Join(comps)) {
      UpperCase(path, [SLASH] + Join(comps));
      assert ([SLASH] + Join(comps))[1..] == Join(comps);
    } else {
      UpperCase(path, Join(comps));
    }
  }

  /** A path in either letter case, with or without its first slash, reads as the
      directory its upper-case components lead to, if they lead to an entry that opens. */
  lemma DirectoryOfPath(disk: Disk, path: Name, comps: seq<Name>)
    requires Spells(path, comps)
    ensures disk.root.Err? ==> Fat12Open.Contents(disk, path) == Err(disk.root.error)
    ensures disk.root.Ok? ==>
      var found := Lookup(disk, disk.root.value, comps);
      if found.Err? then Fat12Open.Contents(disk, path) == Err(found.error)
      else ReadsAs(disk, found.value, Fat12Open.Contents(disk, path))
  {
    hide Spells, Resolve, Lookup, UpperAll;
    ResolveSpelled(disk, path, comps);
  }
}
