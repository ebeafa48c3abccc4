// strcmp on strings of signed characters, and strnlen.
module Strings {
  import Text

  type SChar = x: int | -128 <= x < 128

  /** A terminated string of signed characters. */
  predicate CStr(s: seq<SChar>) {
    |s| > 0 && s[|s| - 1] == 0 && forall i :: 0 <= i < |s| - 1 ==> s[i] != 0
  }

  /** The place where two different strings first differ. */
  function Differ(s: seq<SChar>, t: seq<SChar>): (k: nat)
    requires CStr(s) && CStr(t) && s != t
    ensures k < |s| && k < |t| && s[k] != t[k] && s[..k] == t[..k]
  {
    if s[0] != t[0] then 0
    else
      assert s == [s[0]] + s[1..] && t == [t[0]] + t[1..];
      var k := Differ(s[1..], t[1..]);
      assert s[..k + 1] == [s[0]] + s[1..][..k] && t[..k + 1] == [t[0]] + t[1..][..k];
      k + 1
  }

  /** The result of strcmp: the order of the first difference, except that a string that
      ends there counts as smaller whatever the other one holds. */
  function Order(s: seq<SChar>, t: seq<SChar>): int
    requires CStr(s) && CStr(t)
  {
    if s == t then 0
    else
      var k := Differ(s, t);
      if s[k] == 0 || s[k] < t[k] then -1 else 1
  }

  method StrCmp(s1: seq<SChar>, s2: seq<SChar>) returns (r: int)
    requires CStr(s1) && CStr(s2)
    ensures r == Order(s1, s2)
    ensures r == 0 <==> s1 == s2
  {
    var i := 0;
    while s1[i] != 0
      invariant i < |s1| && i < |s2| && s1[..i] == s2[..i]
      decreases |s1| - i
    {
      if s1[i] < s2[i] {
        DifferIs(s1, s2, i);
        return -1;
      }
      if s1[i] > s2[i] {
        DifferIs(s1, s2, i);
        return 1;
      }
      assert s1[..i + 1] == s2[..i + 1];
      i := i + 1;
    }
    if s2[i] == 0 {
      assert s1 == s1[..i] + [0] && s2 == s2[..i] + [0];
      return 0;
    }
    DifferIs(s1, s2, i);
    return -1;
  }

  lemma {:induction false} DifferIs(s: seq<SChar>, t: seq<SChar>, i: nat)
    requires CStr(s) && CStr(t) && i < |s| && i < |t| && s[i] != t[i] && s[..i] == t[..i]
    ensures s != t && Differ(s, t) == i
    decreases i
  {
    if i > 0 {
      assert s[0] == s[..i][0] == t[..i][0] == t[0];
      assert s[1..][..i - 1] == s[..i][1..] == t[..i][1..] == t[1..][..i - 1];
      DifferIs(s[1..], t[1..], i - 1);
    }
  }

  /** The first difference decides: the string that ends there, or has the smaller
      character, is the smaller one. */
  lemma OrderDecided(s: seq<SChar>, t: seq<SChar>, k: nat)
    requires CStr(s) && CStr(t) && k < |s| && k < |t| && s[..k] == t[..k] && s[k] != t[k]
    ensures Order(s, t) == if s[k] == 0 || s[k] < t[k] then -1 else 1
  {
    DifferIs(s, t, k);
  }

  /** strcmp is antisymmetric except when one string ends where the other goes on with a
      character above 127: then each counts as smaller than the other. */
  lemma OrderAntisymmetric(s: seq<SChar>, t: seq<SChar>)
    requires CStr(s) && CStr(t) && s != t
    ensures Order(s, t) == -Order(t, s) <==>
      var k := Differ(s, t); !(s[k] == 0 && t[k] < 0) && !(t[k] == 0 && s[k] < 0)
  {
    DifferIs(t, s, Differ(s, t));
  }

  /** The length of a string, or the limit if that is smaller. */
  method StrNLen(s: seq<char>, maxlen: nat) returns (n: nat)
    requires Text.CString(s)
    ensures n == if |s| - 1 <= maxlen then |s| - 1 else maxlen
  {
    n := 0;
    var left := maxlen;
    while s[n] != Text.NUL && left != 0
      invariant n < |s| && left == maxlen - n
      decreases left
    {
      n, left := n + 1, left - 1;
    }
  }
}
