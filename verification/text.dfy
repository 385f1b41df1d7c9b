/** String facts shared by the server and the page: the ECMAScript whitespace set used by
    `String.prototype.trim` and by the regular-expression class `\s`, the line terminators
    that `.` refuses to match, trimming, and substring search. */
module Text {
  import opened Wrappers

  /** ECMAScript WhiteSpace and LineTerminator code points: exactly the characters that
      `trim()` removes and that `\s` matches. */
  predicate IsWs(c: char) {
    || c == '\t' || c == '\n' || c == '\U{000B}' || c == '\U{000C}' || c == '\r'
    || c == ' ' || c == '\U{00A0}' || c == '\U{1680}'
    || ('\U{2000}' <= c <= '\U{200A}')
    || c == '\U{2028}' || c == '\U{2029}' || c == '\U{202F}' || c == '\U{205F}'
    || c == '\U{3000}' || c == '\U{FEFF}'
  }

  /** The characters a regular-expression `.` does not match (no `s` flag). */
  predicate IsLineTerminator(c: char) {
    c == '\n' || c == '\r' || c == '\U{2028}' || c == '\U{2029}'
  }

  predicate AllWs(s: string) {
    forall i :: 0 <= i < |s| ==> IsWs(s[i])
  }

  predicate NoLineTerminator(s: string) {
    forall i :: 0 <= i < |s| ==> !IsLineTerminator(s[i])
  }

  /** `trimStart()`: what is dropped is whitespace, and what is kept is a suffix that
      does not start with whitespace. */
  function TrimStart(s: string): (r: string)
    ensures |r| <= |s| && r == s[|s| - |r|..]
    ensures AllWs(s[..|s| - |r|])
    ensures r == [] || !IsWs(r[0])
    decreases |s|
  {
    if |s| > 0 && IsWs(s[0]) then
      var r := TrimStart(s[1..]);
      assert s[..|s| - |r|] == [s[0]] + s[1..][..|s| - 1 - |r|];
      r
    else
      s
  }

  /** `trimEnd()`: the mirror image of TrimStart. */
  function TrimEnd(s: string): (r: string)
    ensures |r| <= |s| && r == s[..|r|]
    ensures AllWs(s[|r|..])
    ensures r == [] || !IsWs(r[|r| - 1])
    decreases |s|
  {
    if |s| > 0 && IsWs(s[|s| - 1]) then
      var r := TrimEnd(s[..|s| - 1]);
      assert s[|r|..] == s[..|s| - 1][|r|..] + [s[|s| - 1]];
      r
    else
      s
  }

  /** `r` is `s[i..j]` with whitespace on both sides of it and none at either of its ends. */
  ghost predicate TrimmedAt(s: string, r: string, i: int, j: int) {
    && 0 <= i <= j <= |s| && r == s[i..j]
    && AllWs(s[..i]) && AllWs(s[j..])
    && (r == [] || (!IsWs(r[0]) && !IsWs(r[|r| - 1])))
  }

  /** `r` is `s` with all leading and trailing whitespace removed. */
  ghost predicate IsTrimOf(s: string, r: string) {
    exists i, j :: TrimmedAt(s, r, i, j)
  }

  /** `trim()`. */
  function Trim(s: string): (r: string)
    ensures IsTrimOf(s, r)
    ensures r == [] <==> AllWs(s)
  {
    var a := TrimStart(s);
    var r := TrimEnd(a);
    var i := |s| - |a|;
    assert r == s[i..i + |r|];
    assert s[i + |r|..] == a[|r|..];
    assert TrimmedAt(s, r, i, i + |r|) by {
      assert s[..i] == s[..|s| - |a|];
    }
    if r == [] then
      assert s == s[..i] + a;
      assert a == a[|r|..];
      r
    else
      r
  }

  /** The trimmed text is unique: any string meeting the description of `trim()` is the
      one Trim computes. */
  lemma TrimIsUnique(s: string, r: string)
    requires IsTrimOf(s, r)
    ensures r == Trim(s)
  {
    var t := Trim(s);
    var i, j :| TrimmedAt(s, r, i, j);
    var i', j' :| TrimmedAt(s, t, i', j');
    TrimmedAtIsUnique(s, r, i, j, t, i', j');
  }

  lemma TrimmedAtIsUnique(s: string, r: string, i: int, j: int, t: string, i': int, j': int)
    requires TrimmedAt(s, r, i, j) && TrimmedAt(s, t, i', j')
    ensures r == t
  {
    if r == [] {
      assert s == s[..i] + s[j..];
      AllWsConcat(s[..i], s[j..]);
    } else if t != [] {
      assert s[i] == r[0] && s[i'] == t[0];
      FirstNonWsUnique(s, i, i');
      assert s[j - 1] == r[|r| - 1] && s[j' - 1] == t[|t| - 1];
      LastNonWsUnique(s, j, j');
    }
  }

  lemma AllWsConcat(a: string, b: string)
    requires AllWs(a) && AllWs(b)
    ensures AllWs(a + b)
  {
  }

  lemma FirstNonWsUnique(s: string, i: nat, i': nat)
    requires i < |s| && i' < |s|
    requires AllWs(s[..i]) && !IsWs(s[i])
    requires AllWs(s[..i']) && !IsWs(s[i'])
    ensures i == i'
  {
  }

  lemma LastNonWsUnique(s: string, j: nat, j': nat)
    requires 0 < j <= |s| && 0 < j' <= |s|
    requires AllWs(s[j..]) && !IsWs(s[j - 1])
    requires AllWs(s[j'..]) && !IsWs(s[j' - 1])
    ensures j == j'
  {
  }

  /** `pat` occurs in `s` starting at index `i`. */
  predicate OccursAt(s: string, pat: string, i: int) {
    0 <= i && i + |pat| <= |s| && s[i..i + |pat|] == pat
  }

  /** `s.indexOf(pat, from)`, as an Option: the first occurrence at or after `from`. */
  function IndexFrom(s: string, pat: string, from: nat): (r: Option<nat>)
    ensures r.Some? ==> from <= r.value && OccursAt(s, pat, r.value)
    ensures r.Some? ==> forall k :: from <= k < r.value ==> !OccursAt(s, pat, k)
    ensures r.None? ==> forall k :: from <= k ==> !OccursAt(s, pat, k)
    decreases |s| - from
  {
    if from + |pat| > |s| then None
    else if OccursAt(s, pat, from) then Some(from)
    else IndexFrom(s, pat, from + 1)
  }
}
