// 8.3 names: the 11 bytes of a directory entry and the file name they stand for.
module Fat12Names {
  import opened Wrappers
  import opened Strings

  const SPACE: SChar := ' ' as int
  const DOT: SChar := '.' as int
  const SLASH: SChar := '/' as int

  type Raw = s: seq<SChar> | |s| == 11 witness seq(11, _ => 0)
  type Name = seq<SChar>

  // What precedes the first c.
  function Until(s: Name, c: SChar): (r: Name)
    ensures |r| <= |s| && r == s[..|r|] && c !in r
    ensures |r| < |s| ==> s[|r|] == c
  {
    if s == [] || s[0] == c then [] else [s[0]] + Until(s[1..], c)
  }

  /** The name as it is written into a buffer: name, dot, extension. */
  function Render(raw: Raw): (n: Name)
    ensures |n| <= 12
  {
    Until(raw[..8], SPACE) + (if raw[8] != SPACE then [DOT] else []) + Until(raw[8..], SPACE)
  }

  /** The name as a C string: a NUL byte inside the entry ends it. */
  function NameOf(raw: Raw): Name { Until(Render(raw), 0) }

  // Blanks only at the end of each part, no dot, no NUL: the entries a formatter writes.
  ghost predicate WellFormed(raw: Raw) {
    && 0 !in raw && DOT !in raw
    && (forall i :: |Until(raw[..8], SPACE)| <= i < 8 ==> raw[i] == SPACE)
    && (forall i :: 8 + |Until(raw[8..], SPACE)| <= i < 11 ==> raw[i] == SPACE)
  }

  function Blanks(n: nat): (s: Name)
    ensures |s| == n && forall i :: 0 <= i < n ==> s[i] == SPACE
  {
    seq(n, _ => SPACE)
  }

  // The two parts of a file name, and the two forms they take.
  ghost predicate Parts(b: Name, e: Name) {
    |b| <= 8 && |e| <= 3 && SPACE !in b && SPACE !in e && DOT !in b && DOT !in e
  }

  function Dotted(b: Name, e: Name): Name { b + (if e != [] then [DOT] else []) + e }

  function Filled(b: Name, e: Name): Raw
    requires |b| <= 8 && |e| <= 3
  {
    b + Blanks(8 - |b|) + e + Blanks(3 - |e|)
  }

  /** The 11 bytes of an entry for a name, if it has an 8.3 form. */
  function Pack(n: Name): Option<Raw> {
    var b := Until(n, DOT);
    var e := if |b| < |n| then n[|b| + 1..] else [];
    if |b| > 8 || |e| > 3 || (|b| < |n| && e == []) || SPACE in n || DOT in e then None
    else Some(Filled(b, e))
  }

  lemma {:induction false} UntilIs(s: Name, c: SChar, r: Name)
    requires |r| <= |s| && r == s[..|r|] && c !in r && (|r| < |s| ==> s[|r|] == c)
    ensures Until(s, c) == r
  {
    if r != [] {
      assert s[0] == r[0] && r[0] in r;
      assert r[1..] == s[1..][..|r| - 1];
      UntilIs(s[1..], c, r[1..]);
      assert r == [r[0]] + r[1..];
    }
  }

  lemma RenderFilled(b: Name, e: Name)
    requires Parts(b, e)
    ensures Render(Filled(b, e)) == Dotted(b, e)
    ensures Until(Filled(b, e)[..8], SPACE) == b && Until(Filled(b, e)[8..], SPACE) == e
  {
    var raw := Filled(b, e);
    assert raw[..8] == b + Blanks(8 - |b|) && raw[8..] == e + Blanks(3 - |e|);
    UntilIs(raw[..8], SPACE, b);
    UntilIs(raw[8..], SPACE, e);
  }

  lemma FilledIs(raw: Raw, b: Name, e: Name)
    requires |b| <= 8 && |e| <= 3
    requires forall i :: 0 <= i < 8 ==> raw[i] == if i < |b| then b[i] else SPACE
    requires forall i :: 8 <= i < 11 ==> raw[i] == if i - 8 < |e| then e[i - 8] else SPACE
    ensures raw == Filled(b, e)
  {
    assert raw[..8] == b + Blanks(8 - |b|);
    assert raw[8..] == e + Blanks(3 - |e|);
  }

  /** Eight bytes of name and three of extension, filled up with blanks, are the name, a
      dot if there is an extension, and the extension. */
  lemma EightDotThree(raw: Raw, b: Name, e: Name)
    requires |b| <= 8 && |e| <= 3
    requires forall c :: c in b || c in e ==> c != ' ' as int && c != '.' as int && c != 0
    requires forall i :: 0 <= i < 8 ==> raw[i] == if i < |b| then b[i] else ' ' as int
    requires forall i :: 8 <= i < 11 ==> raw[i] == if i - 8 < |e| then e[i - 8] else ' ' as int
    ensures var name := if e == [] then b else b + ['.' as int] + e;
      NameOf(raw) == name && Pack(name) == Some(raw)
  {
    hide Render, Pack, Until;
    var name := Dotted(b, e);
    FilledIs(raw, b, e);
    RenderFilled(b, e);
    PackDotted(b, e);
    assert name == if e == [] then b else b + ['.' as int] + e;
    assert 0 !in name;
    UntilIs(name, 0, name);
  }

  lemma PackDotted(b: Name, e: Name)
    requires Parts(b, e)
    ensures Pack(Dotted(b, e)) == Some(Filled(b, e))
  {
    var n := Dotted(b, e);
    UntilIs(n, DOT, b);
    if e != [] {
      assert n[|b| + 1..] == e;
    }
  }

  lemma PartsOf(raw: Raw)
    requires WellFormed(raw)
    ensures var b, e := Until(raw[..8], SPACE), Until(raw[8..], SPACE);
      Parts(b, e) && raw == Filled(b, e)
  {
    var b, e := Until(raw[..8], SPACE), Until(raw[8..], SPACE);
    assert forall x :: x in b || x in e ==> x in raw;
    assert raw[..8] == b + Blanks(8 - |b|);
    assert raw[8..] == e + Blanks(3 - |e|);
  }

  lemma NulFree(raw: Raw)
    requires WellFormed(raw)
    ensures 0 !in Render(raw)
  {
    var b, e := Until(raw[..8], SPACE), Until(raw[8..], SPACE);
    assert forall x :: x in b || x in e ==> x in raw;
  }

  /** Packing the name of a well-formed entry gives its bytes back, so the rendering is
      injective on well-formed entries. */
  lemma PackRender(raw: Raw)
    requires WellFormed(raw)
    ensures NameOf(raw) == Render(raw)
    ensures Pack(Render(raw)) == Some(raw)
  {
    hide Render, Pack, Filled, Dotted, Parts, WellFormed;
    NulFree(raw);
    UntilIs(Render(raw), 0, Render(raw));
    PartsOf(raw);
    RenderFilled(Until(raw[..8], SPACE), Until(raw[8..], SPACE));
    PackDotted(Until(raw[..8], SPACE), Until(raw[8..], SPACE));
  }

  /** And rendering the packed form of a name gives the name back. */
  lemma RenderPack(n: Name)
    requires Pack(n).Some?
    ensures Render(Pack(n).value) == n
  {
    hide Render, Filled;
    var b := Until(n, DOT);
    var e := if |b| < |n| then n[|b| + 1..] else [];
    assert forall x :: x in b || x in e ==> x in n;
    assert n == Dotted(b, e);
    RenderFilled(b, e);
  }

  /** So a well-formed entry has the requested name exactly when its bytes are the padded
      form of the request. */
  lemma NameMatches(raw: Raw, n: Name)
    requires WellFormed(raw)
    ensures NameOf(raw) == n <==> Pack(n) == Some(raw)
  {
    PackRender(raw);
    if Pack(n) == Some(raw) {
      RenderPack(n);
    }
  }

  // ------------------------------------------------------------------ the routines

  // `now` is `before` with `out` written from d on.
  ghost predicate Copied(now: seq<SChar>, before: seq<SChar>, d: nat, out: Name) {
    d + |out| <= |before| && now == before[..d] + out + before[d + |out|..]
  }

  lemma CopiedNothing(b: seq<SChar>, d: nat)
    requires d <= |b|
    ensures Copied(b, b, d, [])
  {
  }

  lemma CopiedNext(now: seq<SChar>, before: seq<SChar>, d: nat, out: Name, c: SChar)
    requires Copied(now, before, d, out) && d + |out| < |before|
    ensures d + |out| < |now| && Copied(now[d + |out| := c], before, d, out + [c])
  {
  }

  // Copies up to the first blank; `max` bytes at most.
  method CopyPart(dest: array<SChar>, d: nat, src: Raw, from: nat, max: nat) returns (end: nat)
    requires from + max <= 11 && d + max <= dest.Length
    modifies dest
    ensures var out := Until(src[from..from + max], SPACE);
      end == d + |out| && Copied(dest[..], old(dest[..]), d, out)
  {
    hide Until, Copied;
    ghost var part, b0 := src[from..from + max], dest[..];
    end := d;
    CopiedNothing(b0, d);
    assert part[..0] == [];
    for i := 0 to max
      invariant end == d + i && SPACE !in part[..i]
      invariant Copied(dest[..], b0, d, part[..i])
    {
      if src[from + i] == SPACE {
        UntilIs(part, SPACE, part[..i]);
        return;
      }
      CopiedNext(dest[..], b0, d, part[..i], src[from + i]);
      dest[end] := src[from + i];
      assert part[..i + 1] == part[..i] + [src[from + i]];
      end := end + 1;
    }
    assert part[..max] == part;
    UntilIs(part, SPACE, part[..max]);
  }

  lemma CopiedThen(b0: seq<SChar>, b1: seq<SChar>, b2: seq<SChar>, d: nat, x: Name, y: Name)
    requires Copied(b1, b0, d, x) && Copied(b2, b1, d + |x|, y)
    ensures Copied(b2, b0, d, x + y)
  {
  }

  lemma CopiedFromStart(now: seq<SChar>, before: seq<SChar>, out: Name)
    requires Copied(now, before, 0, out)
    ensures now == out + before[|out|..]
  {
  }

  // The name and, if there is an extension, the dot.
  method CopyBase(dest: array<SChar>, src: Raw) returns (d: nat)
    requires dest.Length >= 13
    modifies dest
    ensures var head := Until(src[..8], SPACE) + if src[8] != SPACE then [DOT] else [];
      d == |head| && Copied(dest[..], old(dest[..]), 0, head)
  {
    hide Until, Copied;
    ghost var b0 := dest[..];
    d := CopyPart(dest, 0, src, 0, 8);
    assert src[0..0 + 8] == src[..8];
    ghost var head := Until(src[..8], SPACE);
    assert head + [] == head;
    if src[8] != SPACE {
      CopiedNext(dest[..], b0, 0, head, DOT);
      dest[d] := DOT;
      d := d + 1;
    }
  }

  /** Writes the rendered name and its terminator, 13 bytes at most, and nothing else. */
  method ClusterFilenameToFilename(dest: array<SChar>, src: Raw)
    requires dest.Length >= 13
    modifies dest
    ensures dest[..] == Render(src) + [0] + old(dest[|Render(src)| + 1..])
  {
    hide Until, Copied;
    ghost var b0 := dest[..];
    var d := CopyBase(dest, src);
    ghost var head, b1 := Until(src[..8], SPACE) + (if src[8] != SPACE then [DOT] else []), dest[..];
    d := CopyPart(dest, d, src, 8, 3);
    assert src[8..8 + 3] == src[8..];
    CopiedThen(b0, b1, dest[..], 0, head, Until(src[8..], SPACE));
    CopiedNext(dest[..], b0, 0, Render(src), 0);
    dest[d] := 0;
    CopiedFromStart(dest[..], b0, Render(src) + [0]);
  }
}
