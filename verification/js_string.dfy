/**
 String.prototype.trim as the handlers use it: strip the leading and the
 trailing run of white space from a string. White space is the ECMAScript
 WhiteSpace and LineTerminator code points (sections 12.2 and 12.3 of
 ECMA-262); the Unicode "Space_Separator" members are those of Unicode 15.
 */
module JsString {

  /** The code points `trim` removes. */
  const WhiteSpace: set<char> := {
    // WhiteSpace: TAB, VT, FF, SP, NBSP, ZWNBSP
    '\U{9}', '\U{B}', '\U{C}', '\U{20}', '\U{A0}', '\U{FEFF}',
    // the remaining Space_Separator code points
    '\U{1680}', '\U{2000}', '\U{2001}', '\U{2002}', '\U{2003}', '\U{2004}',
    '\U{2005}', '\U{2006}', '\U{2007}', '\U{2008}', '\U{2009}', '\U{200A}',
    '\U{202F}', '\U{205F}', '\U{3000}',
    // LineTerminator: LF, CR, LS, PS
    '\U{A}', '\U{D}', '\U{2028}', '\U{2029}'
  }

  predicate IsWs(c: char) {
    c in WhiteSpace
  }

  /** Neither end of `s` is white space. */
  predicate IsTrimmed(s: string) {
    |s| == 0 || (!IsWs(s[0]) && !IsWs(s[|s| - 1]))
  }

  /** Every character of `s` at a position in `[lo, hi)` is white space. */
  predicate WsBetween(s: string, lo: nat, hi: nat)
    requires lo <= hi <= |s|
  {
    forall k :: lo <= k < hi ==> IsWs(s[k])
  }

  /** Every character of `s` is white space. */
  predicate AllWs(s: string) {
    WsBetween(s, 0, |s|)
  }

  /** Drops the leading run of white space: the result is a suffix of `s`,
      everything dropped is white space, and what is left does not start with it. */
  function TrimStart(s: string): (r: string)
    ensures |r| <= |s| && r == s[|s| - |r|..]
    ensures WsBetween(s, 0, |s| - |r|)
    ensures |r| > 0 ==> !IsWs(r[0])
  {
    if |s| > 0 && IsWs(s[0]) then
      var r := TrimStart(s[1..]);
      assert s[1..][|s| - 1 - |r|..] == s[|s| - |r|..];
      assert forall k :: 1 <= k < |s| ==> s[k] == s[1..][k - 1];
      r
    else
      s
  }

  /** Drops the trailing run of white space: the result is a prefix of `s`,
      everything dropped is white space, and what is left does not end with it. */
  function TrimEnd(s: string): (r: string)
    ensures |r| <= |s| && r == s[..|r|]
    ensures WsBetween(s, |r|, |s|)
    ensures |r| > 0 ==> !IsWs(r[|r| - 1])
  {
    if |s| > 0 && IsWs(s[|s| - 1]) then
      var r := TrimEnd(s[..|s| - 1]);
      assert s[..|s| - 1][..|r|] == s[..|r|];
      assert forall k :: 0 <= k < |s| - 1 ==> s[k] == s[..|s| - 1][k];
      r
    else
      s
  }

  /** `t` is what trimming `s` must give: a slice `s[i..j]` with only white
      space outside it and no white space at either of its ends. */
  ghost predicate IsTrimOf(t: string, s: string) {
    exists i, j :: 0 <= i <= j <= |s| && t == s[i..j]
      && WsBetween(s, 0, i) && WsBetween(s, j, |s|) && IsTrimmed(t)
  }

  /** `s.trim()`: the slice of `s` that IsTrimOf describes. */
  function Trim(s: string): (r: string)
    ensures IsTrimOf(r, s)
    ensures IsTrimmed(r)
    ensures |r| <= |s|
    ensures IsTrimmed(s) ==> r == s
    ensures r == [] <==> AllWs(s)
  {
    var u := TrimStart(s);
    var r := TrimEnd(u);
    var i := |s| - |u|;
    var j := i + |r|;
    assert forall k :: i <= k < |s| ==> s[k] == u[k - i];
    assert r == s[i..j];
    assert WsBetween(s, 0, i) && WsBetween(s, j, |s|);
    r
  }

  /** Two slices of `s` that both meet the characterisation are the same slice. */
  lemma SlicesAgree(s: string, i: nat, j: nat, i': nat, j': nat)
    requires i <= j <= |s| && i' <= j' <= |s|
    requires WsBetween(s, 0, i) && WsBetween(s, j, |s|) && IsTrimmed(s[i..j])
    requires WsBetween(s, 0, i') && WsBetween(s, j', |s|) && IsTrimmed(s[i'..j'])
    ensures s[i..j] == s[i'..j']
  {
    if i < j && i' < j' {
      // both ends of each slice are the first and the last character of s
      // that are not white space
      assert s[i..j][0] == s[i] && s[i..j][j - i - 1] == s[j - 1];
      assert s[i'..j'][0] == s[i'] && s[i'..j'][j' - i' - 1] == s[j' - 1];
      assert i == i' && j == j';
    }
    // when one slice is empty all of s is white space, so the other one,
    // whose ends are not white space, is empty too
  }

  /** The slice characterisation pins the result down: any `t` meeting it is `Trim(s)`. */
  lemma TrimOfIsUnique(s: string, t: string)
    requires IsTrimOf(t, s)
    ensures t == Trim(s)
  {
    var i, j :| 0 <= i <= j <= |s| && t == s[i..j]
      && WsBetween(s, 0, i) && WsBetween(s, j, |s|) && IsTrimmed(t);
    var i', j' :| 0 <= i' <= j' <= |s| && Trim(s) == s[i'..j']
      && WsBetween(s, 0, i') && WsBetween(s, j', |s|) && IsTrimmed(Trim(s));
    SlicesAgree(s, i, j, i', j');
  }

  /** Trimming twice is trimming once. */
  lemma TrimIdempotent(s: string)
    ensures Trim(Trim(s)) == Trim(s)
  {
  }
}
