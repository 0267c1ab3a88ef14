/**
 * The parts of Python's `str` that the core relies on: `isspace`, `split()` with no
 * separator, `strip()`, `lower()`, `isalpha()` on one character, `sep in s` and
 * `split(sep)` with a separator.  Strings are `seq<char>`.
 */
module Strs {
  import opened Wrappers

  /** Python's `str.isspace()` on one character: the characters CPython counts as whitespace. */
  predicate IsSpace(c: char) {
    c == ' ' || ('\t' <= c <= '\r') || ('\U{1C}' <= c <= '\U{1F}') ||
    c == '\U{85}' || c == '\U{A0}' || c == '\U{1680}' || ('\U{2000}' <= c <= '\U{200A}') ||
    c == '\U{2028}' || c == '\U{2029}' || c == '\U{202F}' || c == '\U{205F}' || c == '\U{3000}'
  }

  predicate AllSpace(s: string) {
    forall i :: 0 <= i < |s| ==> IsSpace(s[i])
  }

  predicate NoSpace(s: string) {
    forall i :: 0 <= i < |s| ==> !IsSpace(s[i])
  }

  /** `isalpha()` of a one-character string, for ASCII and Latin-1 letters. */
  predicate IsAlpha(c: char) {
    ('A' <= c <= 'Z') || ('a' <= c <= 'z') ||
    c == '\U{AA}' || c == '\U{B5}' || c == '\U{BA}' ||
    ('\U{C0}' <= c <= '\U{D6}') || ('\U{D8}' <= c <= '\U{F6}') || ('\U{F8}' <= c <= '\U{FF}')
  }

  /** The capital letters that `lower()` changes among ASCII and Latin-1: A to Z, \u00C0 to \u00D6 and \u00D8 to \u00DE. */
  predicate IsUpper(c: char) {
    ('A' <= c <= 'Z') || ('\U{C0}' <= c <= '\U{D6}') || ('\U{D8}' <= c <= '\U{DE}')
  }

  /** `lower()` of one character, for ASCII and Latin-1: a capital moves 32 code points up to its small letter. */
  function LowerChar(c: char): (r: char)
    ensures IsUpper(c) ==> r as int == c as int + 32 && IsAlpha(r) && !IsUpper(r)
    ensures !IsUpper(c) ==> r == c
    ensures IsAlpha(r) <==> IsAlpha(c)
  {
    if IsUpper(c) then (c as int + 32) as char else c
  }

  function Lower(s: string): (r: string)
    ensures |r| == |s|
    ensures forall i :: 0 <= i < |s| ==> r[i] == LowerChar(s[i])
    ensures forall i :: 0 <= i < |r| ==> !IsUpper(r[i])
  {
    seq(|s|, i requires 0 <= i < |s| => LowerChar(s[i]))
  }

  /** `s` without its leading whitespace. */
  function TrimLeft(s: string): (r: string)
    ensures |r| <= |s| && r == s[|s| - |r|..]
    ensures AllSpace(s[..|s| - |r|])
    ensures r == [] || !IsSpace(r[0])
  {
    if s != [] && IsSpace(s[0]) then
      var t := s[1..];
      var r := TrimLeft(t);
      assert t[|t| - |r|..] == s[|s| - |r|..];
      assert s[..|s| - |r|] == [s[0]] + t[..|t| - |r|];
      AllSpaceAppend([s[0]], t[..|t| - |r|]);
      r
    else s
  }

  /** `s` without its trailing whitespace. */
  function TrimRight(s: string): (r: string)
    ensures |r| <= |s| && r == s[..|r|]
    ensures AllSpace(s[|r|..])
    ensures r == [] || !IsSpace(r[|r| - 1])
  {
    if s != [] && IsSpace(s[|s| - 1]) then
      var t := s[..|s| - 1];
      var r := TrimRight(t);
      assert t[..|r|] == s[..|r|];
      assert s[|r|..] == t[|r|..] + [s[|s| - 1]];
      AllSpaceAppend(t[|r|..], [s[|s| - 1]]);
      r
    else s
  }

  lemma {:induction false} AllSpaceAppend(a: string, b: string)
    requires AllSpace(a) && AllSpace(b)
    ensures AllSpace(a + b)
  {
    forall i | 0 <= i < |a + b|
      ensures IsSpace((a + b)[i])
    {
      if i >= |a| {
        assert (a + b)[i] == b[i - |a|];
      }
    }
  }

  /**
   * Python's `str.strip()` with no argument: the piece of `s` between its leading and its
   * trailing whitespace, which neither starts nor ends with whitespace.
   */
  function Strip(s: string): (r: string)
    ensures r == [] || (!IsSpace(r[0]) && !IsSpace(r[|r| - 1]))
    ensures r == [] <==> AllSpace(s)
  {
    var t := TrimLeft(s);
    var r := TrimRight(t);
    StripPieces(s, t, r);
    r
  }

  /** `r` is a slice of `s` with only whitespace before and after it. */
  predicate MiddleSlice(s: string, r: string) {
    exists a :: 0 <= a && a + |r| <= |s| && s[a..a + |r|] == r && AllSpace(s[..a]) && AllSpace(s[a + |r|..])
  }

  /**
   * What `strip()` keeps is a slice of `s` with only whitespace around it; with `Strip`'s
   * own ensures, this fixes the result.
   */
  lemma {:induction false} StripSlice(s: string)
    ensures MiddleSlice(s, Strip(s))
  {
    var t := TrimLeft(s);
    var r := TrimRight(t);
    assert Strip(s) == r;
    PiecesMiddle(s, t, r);
  }

  /** The pieces of `strip()` leave a middle slice. */
  lemma {:induction false} PiecesMiddle(s: string, t: string, r: string)
    requires |t| <= |s| && t == s[|s| - |t|..] && AllSpace(s[..|s| - |t|]) && (t == [] || !IsSpace(t[0]))
    requires |r| <= |t| && r == t[..|r|] && AllSpace(t[|r|..]) && (r == [] || !IsSpace(r[|r| - 1]))
    ensures MiddleSlice(s, r)
  {
    StripPieces(s, t, r);
    SliceBetweenSpaces(s, r, |s| - |t|);
  }

  lemma {:induction false} SliceBetweenSpaces(s: string, r: string, a: nat)
    requires a + |r| <= |s| && s[a..a + |r|] == r && AllSpace(s[..a]) && AllSpace(s[a + |r|..])
    ensures MiddleSlice(s, r)
  {
  }

  /**
   * The pieces of `strip()`: `t` is `s` without its leading whitespace, `r` is `t` without its
   * trailing whitespace.
   */
  lemma {:induction false} StripPieces(s: string, t: string, r: string)
    requires |t| <= |s| && t == s[|s| - |t|..] && AllSpace(s[..|s| - |t|]) && (t == [] || !IsSpace(t[0]))
    requires |r| <= |t| && r == t[..|r|] && AllSpace(t[|r|..]) && (r == [] || !IsSpace(r[|r| - 1]))
    ensures var a := |s| - |t|;
      a + |r| <= |s| && s[a..a + |r|] == r && AllSpace(s[..a]) && AllSpace(s[a + |r|..])
    ensures r == [] || (!IsSpace(r[0]) && !IsSpace(r[|r| - 1]))
    ensures r == [] <==> AllSpace(s)
  {
    var a := |s| - |t|;
    SuffixSlices(s, a, |r|);
    if r == [] {
      AllSpaceAppend(s[..a], t);
      assert s == s[..a] + t;
    } else {
      assert r[0] == t[0] == s[a];
    }
  }

  /** Slicing the suffix from `a` at `m`. */
  lemma {:induction false} SuffixSlices(s: string, a: nat, m: nat)
    requires a + m <= |s|
    ensures s[a..][..m] == s[a..a + m] && s[a..][m..] == s[a + m..]
  {
  }

  /** The length of the longest prefix of `s` holding no whitespace. */
  function WordLength(s: string): (k: nat)
    ensures k <= |s| && NoSpace(s[..k])
    ensures k < |s| ==> IsSpace(s[k])
  {
    if s == [] || IsSpace(s[0]) then 0 else 1 + WordLength(s[1..])
  }

  /** Python's `str.split()` with no separator: the maximal runs of non-whitespace, in order. */
  function Split(s: string): (parts: seq<string>)
    ensures forall k :: 0 <= k < |parts| ==> parts[k] != [] && NoSpace(parts[k])
    decreases |s|
  {
    var t := TrimLeft(s);
    if t == [] then []
    else
      var k := WordLength(t);
      var word, rest := t[..k], Split(t[k..]);
      assert word != [] && NoSpace(word) by { assert k > 0; }
      WordsCons(word, rest);
      [word] + rest
  }

  /** A non-empty, whitespace-free word in front of such words. */
  lemma {:induction false} WordsCons(word: string, rest: seq<string>)
    requires word != [] && NoSpace(word)
    requires forall k :: 0 <= k < |rest| ==> rest[k] != [] && NoSpace(rest[k])
    ensures forall k :: 0 <= k < |[word] + rest| ==> ([word] + rest)[k] != [] && NoSpace(([word] + rest)[k])
  {
    var parts := [word] + rest;
    forall k | 0 <= k < |parts|
      ensures parts[k] != [] && NoSpace(parts[k])
    {
      if k > 0 {
        assert parts[k] == rest[k - 1];
      }
    }
  }

  /** `split()` gives no token exactly when the string is empty or all whitespace. */
  lemma {:induction false} SplitEmpty(s: string)
    ensures Split(s) == [] <==> AllSpace(s)
  {
    var t := TrimLeft(s);
    if t == [] {
      assert s[..|s|] == s;
    } else {
      assert !IsSpace(s[|s| - |t|]);
    }
  }

  /** The first token of `split()` is the longest whitespace-free prefix of the string without its leading whitespace. */
  lemma {:induction false} SplitFirst(s: string)
    requires TrimLeft(s) != []
    ensures Split(s) != []
    ensures Split(s)[0] == TrimLeft(s)[..WordLength(TrimLeft(s))]
  {
  }

  // ---- Substrings ----

  predicate OccursAt(s: string, sep: string, i: nat) {
    i + |sep| <= |s| && s[i..i + |sep|] == sep
  }

  /** The first position at or after `i` where `sep` occurs in `s`. */
  function IndexFrom(s: string, sep: string, i: nat): (r: Option<nat>)
    ensures r.Some? ==> i <= r.value && OccursAt(s, sep, r.value)
    ensures r.Some? ==> forall k :: i <= k < r.value ==> !OccursAt(s, sep, k)
    ensures r.None? ==> forall k :: i <= k ==> !OccursAt(s, sep, k)
    decreases |s| - i
  {
    if i + |sep| > |s| then None
    else if OccursAt(s, sep, i) then Some(i)
    else IndexFrom(s, sep, i + 1)
  }

  /** Python's `sep in s`. */
  predicate Contains(s: string, sep: string) {
    IndexFrom(s, sep, 0).Some?
  }

  /** Python's `s.split(sep)` for a non-empty separator: cut at each occurrence, left to right. */
  function SplitOn(s: string, sep: string): (parts: seq<string>)
    requires sep != []
    ensures |parts| >= 1
    decreases |s|
  {
    match IndexFrom(s, sep, 0)
    case None => [s]
    case Some(i) => [s[..i]] + SplitOn(s[i + |sep|..], sep)
  }

  /** Python's `sep.join(parts)`. */
  function Join(parts: seq<string>, sep: string): string
    requires |parts| >= 1
  {
    if |parts| == 1 then parts[0] else parts[0] + sep + Join(parts[1..], sep)
  }

  /** Joining the pieces of `split(sep)` with `sep` gives back the string. */
  lemma {:induction false} JoinSplitOn(s: string, sep: string)
    requires sep != []
    ensures Join(SplitOn(s, sep), sep) == s
    decreases |s|
  {
    match IndexFrom(s, sep, 0)
    case None =>
    case Some(i) =>
      var rest := s[i + |sep|..];
      var parts := SplitOn(s, sep);
      assert parts == [s[..i]] + SplitOn(rest, sep);
      assert parts[1..] == SplitOn(rest, sep);
      assert Join(parts, sep) == s[..i] + sep + Join(SplitOn(rest, sep), sep);
      JoinSplitOn(rest, sep);
      assert s == s[..i] + s[i..i + |sep|] + rest;
  }

  /** An occurrence inside a prefix is an occurrence in the whole string. */
  lemma {:induction false} OccursInPrefix(s: string, sep: string, i: nat, k: nat)
    requires i <= |s| && OccursAt(s[..i], sep, k)
    ensures OccursAt(s, sep, k) && k + |sep| <= i
  {
    assert s[..i][k..k + |sep|] == s[k..k + |sep|];
  }

  /** No piece of `split(sep)` contains `sep`. */
  lemma {:induction false} SplitOnPiecesFree(s: string, sep: string)
    requires sep != []
    ensures forall k :: 0 <= k < |SplitOn(s, sep)| ==> !Contains(SplitOn(s, sep)[k], sep)
    decreases |s|
  {
    match IndexFrom(s, sep, 0)
    case None =>
    case Some(i) =>
      var rest := s[i + |sep|..];
      SplitOnPiecesFree(rest, sep);
      var parts := SplitOn(s, sep);
      assert parts == [s[..i]] + SplitOn(rest, sep);
      if Contains(s[..i], sep) {
        var k := IndexFrom(s[..i], sep, 0).value;
        OccursInPrefix(s, sep, i, k);
        assert false;
      }
      forall k | 0 <= k < |parts|
        ensures !Contains(parts[k], sep)
      {
        if k > 0 {
          assert parts[k] == SplitOn(rest, sep)[k - 1];
        }
      }
  }

  /** `split(sep)` has a second piece exactly when `sep in s`. */
  lemma {:induction false} SplitOnHasSecond(s: string, sep: string)
    requires sep != []
    ensures |SplitOn(s, sep)| >= 2 <==> Contains(s, sep)
  {
  }

  /** The second piece of `split(sep)`: from the first occurrence to the next one, or to the end. */
  lemma {:induction false} SplitOnSecond(s: string, sep: string)
    requires sep != [] && Contains(s, sep)
    ensures var i := IndexFrom(s, sep, 0).value;
      var rest := s[i + |sep|..];
      SplitOn(s, sep)[1] == SplitOn(rest, sep)[0] &&
      SplitOn(rest, sep)[0] == match IndexFrom(rest, sep, 0)
                               case None => rest
                               case Some(j) => rest[..j]
  {
  }

  /** The first piece of `split(sep)`: everything before the first occurrence, or all of `s`. */
  lemma {:induction false} SplitOnFirst(s: string, sep: string)
    requires sep != []
    ensures SplitOn(s, sep)[0] == match IndexFrom(s, sep, 0)
                                  case None => s
                                  case Some(i) => s[..i]
  {
  }

  /** `s.split(sep)[-1]`. */
  function LastPiece(s: string, sep: string): string
    requires sep != []
  {
    var parts := SplitOn(s, sep);
    parts[|parts| - 1]
  }

  /** Past the first occurrence, the last piece is the last piece of the rest. */
  lemma {:induction false} LastPieceOfRest(s: string, sep: string, i: nat)
    requires sep != [] && IndexFrom(s, sep, 0) == Some(i)
    ensures LastPiece(s, sep) == LastPiece(s[i + |sep|..], sep)
  {
    var parts := SplitOn(s, sep);
    assert parts == [s[..i]] + SplitOn(s[i + |sep|..], sep);
  }

  /** The last piece of `split(sep)` is a suffix of the string, and all of it when `sep` does not occur. */
  lemma {:induction false} LastPieceSuffix(s: string, sep: string)
    requires sep != []
    ensures var last := LastPiece(s, sep);
      |last| <= |s| && s[|s| - |last|..] == last && (!Contains(s, sep) ==> last == s)
    decreases |s|
  {
    match IndexFrom(s, sep, 0)
    case None =>
    case Some(i) =>
      var rest := s[i + |sep|..];
      LastPieceOfRest(s, sep, i);
      LastPieceSuffix(rest, sep);
      var last := LastPiece(s, sep);
      assert s[|s| - |last|..] == rest[|rest| - |last|..];
  }

  /** When `sep` occurs, an occurrence of `sep` stands right before the last piece. */
  lemma {:induction false} LastPieceAfterSep(s: string, sep: string)
    requires sep != [] && Contains(s, sep)
    ensures var last := LastPiece(s, sep);
      |last| + |sep| <= |s| && OccursAt(s, sep, |s| - |last| - |sep|)
    decreases |s|
  {
    var i := IndexFrom(s, sep, 0).value;
    var rest := s[i + |sep|..];
    LastPieceOfRest(s, sep, i);
    LastPieceSuffix(rest, sep);
    var last := LastPiece(s, sep);
    if Contains(rest, sep) {
      LastPieceAfterSep(rest, sep);
      OccursInSuffix(s, sep, i + |sep|, |rest| - |last| - |sep|);
    } else {
      assert last == rest;
    }
  }

  /** An occurrence inside a suffix is an occurrence in the whole string, shifted. */
  lemma {:induction false} OccursInSuffix(s: string, sep: string, d: nat, k: nat)
    requires d <= |s| && OccursAt(s[d..], sep, k)
    ensures OccursAt(s, sep, d + k)
  {
    assert s[d..][k..k + |sep|] == s[d + k..d + k + |sep|];
  }
}
