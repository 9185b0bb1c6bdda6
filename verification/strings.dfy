/** The string operations behind the keyword search: Python's `str.strip()`,
    the ASCII case folding of a case-insensitive LIKE, and substring containment. */
module Strings {

  /** Python's `str.isspace()` for one character: ASCII tab to carriage return,
      the four separator controls, space, and the Unicode space separators. */
  predicate IsSpace(c: char) {
    || c == ' '
    || ('\t' <= c <= '\r')
    || ('\U{1C}' <= c <= '\U{1F}')
    || c == '\U{85}' || c == '\U{A0}' || c == '\U{1680}'
    || ('\U{2000}' <= c <= '\U{200A}')
    || c == '\U{2028}' || c == '\U{2029}' || c == '\U{202F}' || c == '\U{205F}' || c == '\U{3000}'
  }

  /** Drops leading whitespace. */
  function TrimStart(s: string): (r: string)
    ensures |r| <= |s| && r == s[|s| - |r|..]
    ensures r == [] || !IsSpace(r[0])
    ensures forall i :: 0 <= i < |s| - |r| ==> IsSpace(s[i])
  {
    if s != [] && IsSpace(s[0]) then TrimStart(s[1..]) else s
  }

  /** Drops trailing whitespace. */
  function TrimEnd(s: string): (r: string)
    ensures |r| <= |s| && r == s[..|r|]
    ensures r == [] || !IsSpace(r[|r| - 1])
    ensures forall i :: |r| <= i < |s| ==> IsSpace(s[i])
  {
    if s != [] && IsSpace(s[|s| - 1]) then TrimEnd(s[..|s| - 1]) else s
  }

  /** Python's `str.strip()` with no argument: a stretch of `s` that neither starts
      nor ends with whitespace. */
  function Strip(s: string): (r: string)
    ensures |r| <= |s|
    ensures r == [] || (!IsSpace(r[0]) && !IsSpace(r[|r| - 1]))
  {
    var t := TrimStart(s);
    var r := TrimEnd(t);
    assert r != [] ==> r[0] == t[0];
    r
  }

  /** A keyword made only of whitespace strips to the empty keyword, and only such a keyword does. */
  lemma {:induction false} StripEmptyIffAllSpace(s: string)
    ensures Strip(s) == [] <==> forall i :: 0 <= i < |s| ==> IsSpace(s[i])
  {
    var t := TrimStart(s);
    if t != [] {
      assert s[|s| - |t|] == t[0];
    }
  }

  /** Stripping twice is stripping once. */
  lemma StripIdempotent(s: string)
    ensures Strip(Strip(s)) == Strip(s)
  {
    var r := Strip(s);
    if r != [] {
      assert TrimStart(r) == r;
      assert TrimEnd(r) == r;
    }
  }

  /** ASCII lower-casing of one character. */
  function LowerChar(c: char): char {
    if 'A' <= c <= 'Z' then (c as int + 32) as char else c
  }

  /** ASCII lower-casing of a string, character by character. */
  function Lower(s: string): (r: string)
    ensures |r| == |s|
    ensures forall i :: 0 <= i < |s| ==> r[i] == LowerChar(s[i])
  {
    if s == [] then [] else [LowerChar(s[0])] + Lower(s[1..])
  }

  /** Lower-casing is idempotent, so folding the keyword before the search changes nothing. */
  lemma LowerIdempotent(s: string)
    ensures Lower(Lower(s)) == Lower(s)
  {
    assert forall i :: 0 <= i < |s| ==> LowerChar(LowerChar(s[i])) == LowerChar(s[i]);
  }

  /** `p` occurs in `s` starting at position `i`. */
  ghost predicate OccursAt(p: string, s: string, i: int) {
    0 <= i && i + |p| <= |s| && s[i..i + |p|] == p
  }

  /** Substring containment, scanning the start positions of `s` from left to right. */
  function IsInfix(p: string, s: string): bool
    decreases |s|
  {
    if |p| <= |s| && p == s[..|p|] then true
    else if s == [] then false
    else IsInfix(p, s[1..])
  }

  /** The scan finds `p` exactly when `p` occurs at some position of `s`. */
  lemma {:induction false} IsInfixIff(p: string, s: string)
    ensures IsInfix(p, s) <==> exists i :: OccursAt(p, s, i)
    decreases |s|
  {
    if |p| <= |s| && p == s[..|p|] {
      assert OccursAt(p, s, 0);
    } else if s == [] {
      assert |p| > 0;
      forall i ensures !OccursAt(p, s, i) {
      }
    } else {
      IsInfixIff(p, s[1..]);
      if IsInfix(p, s[1..]) {
        var i :| OccursAt(p, s[1..], i);
        assert s[1..][i..i + |p|] == s[i + 1..i + 1 + |p|];
        assert OccursAt(p, s, i + 1);
      }
      if exists i :: OccursAt(p, s, i) {
        var i :| OccursAt(p, s, i);
        assert i != 0;
        assert s[1..][i - 1..i - 1 + |p|] == s[i..i + |p|];
        assert OccursAt(p, s[1..], i - 1);
      }
    }
  }

  /** Case-insensitive containment as an ILIKE '%keyword%' pattern tests it,
      with ASCII folding on both sides and the keyword read literally. */
  predicate ContainsFolded(s: string, keyword: string) {
    IsInfix(Lower(keyword), Lower(s))
  }

  /** Case-insensitive containment holds exactly when the folded keyword occurs
      at some position of the folded string. */
  lemma ContainsFoldedOccurs(s: string, keyword: string)
    ensures ContainsFolded(s, keyword) ==> exists i :: OccursAt(Lower(keyword), Lower(s), i)
    ensures (exists i :: OccursAt(Lower(keyword), Lower(s), i)) ==> ContainsFolded(s, keyword)
  {
    IsInfixIff(Lower(keyword), Lower(s));
  }

  /** The empty keyword is contained in every string (the pattern '%%' matches anything). */
  lemma EmptyKeywordContained(s: string)
    ensures ContainsFolded(s, "")
  {
    assert Lower("") == [];
    assert OccursAt([], Lower(s), 0);
    IsInfixIff([], Lower(s));
  }

  /** Containment ignores the case of both the field and the keyword. */
  lemma ContainsFoldedIgnoresCase(s: string, keyword: string)
    ensures ContainsFolded(s, keyword) == ContainsFolded(Lower(s), Lower(keyword))
  {
    LowerIdempotent(s);
    LowerIdempotent(keyword);
  }
}
