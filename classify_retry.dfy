/**
 * Parsing a language model's reply into name classifications, and matching the
 * classifications back to author ids (classify_names_retry.py).
 *
 * `json.loads` is an abstract partial parser `loads: string -> Option<J>`: `None` is a
 * `JSONDecodeError`, `Some(v)` the decoded document.  The chat call is the abstract
 * function `classify` from a batch to the dictionary it yields.
 */
module ClassifyRetry {
  import opened Wrappers
  import opened Strs
  import opened Seqs

  // ---- Strategy 2: fenced blocks (lines 42-54) ----

  const JsonFence := "```json"
  const Fence := "```"

  /** `text.split(fence)[1].split("```")[0].strip()`. */
  function FencedCandidate(text: string, fence: string): (c: string)
    requires fence != [] && Contains(text, fence)
  {
    SplitOnHasSecond(text, fence);
    Strip(SplitOn(SplitOn(text, fence)[1], Fence)[0])
  }

  /** `s` up to the first occurrence of `sep`, or all of `s`. */
  function UpTo(s: string, sep: string): (r: string)
    requires sep != []
    ensures |r| <= |s| && r == s[..|r|]
    ensures !Contains(r, sep)
  {
    match IndexFrom(s, sep, 0)
    case None => s
    case Some(i) =>
      assert !Contains(s[..i], sep) by {
        if Contains(s[..i], sep) {
          OccursInPrefix(s, sep, i, IndexFrom(s[..i], sep, 0).value);
        }
      }
      s[..i]
  }

  /** `s` after the first occurrence of `sep`. */
  function After(s: string, sep: string): string
    requires sep != [] && Contains(s, sep)
  {
    s[IndexFrom(s, sep, 0).value + |sep|..]
  }

  /**
   * The candidate of a fence: after its first occurrence, up to its next occurrence,
   * then up to the first "```" in that piece, stripped.
   */
  lemma {:induction false} FencedCandidateLocation(text: string, fence: string)
    requires fence != [] && Contains(text, fence)
    ensures FencedCandidate(text, fence) == Strip(UpTo(UpTo(After(text, fence), fence), Fence))
  {
    SplitOnSecond(text, fence);
    var piece := SplitOn(text, fence)[1];
    assert piece == UpTo(After(text, fence), fence);
    SplitOnFirst(piece, Fence);
  }

  /** A plain "```" fence: the candidate is the segment between the first and second "```", stripped. */
  lemma {:induction false} PlainFenceSegment(text: string)
    requires Contains(text, Fence)
    ensures FencedCandidate(text, Fence) == Strip(UpTo(After(text, Fence), Fence))
  {
    FencedCandidateLocation(text, Fence);
    var piece := UpTo(After(text, Fence), Fence);
    assert UpTo(piece, Fence) == piece;
  }

  /**
   * A "```json" fence that is not repeated: the candidate is the text after it up to the
   * next "```", or to the end, stripped.
   */
  lemma {:induction false} JsonFenceSegment(text: string)
    requires Contains(text, JsonFence) && !Contains(After(text, JsonFence), JsonFence)
    ensures FencedCandidate(text, JsonFence) == Strip(UpTo(After(text, JsonFence), Fence))
  {
    FencedCandidateLocation(text, JsonFence);
  }

  // ---- Strategy 3: re.sub(r',(\s*[}\]])', r'\1', text) (line 59) ----

  /** The first position at or after `k` that is the end of `s` or not whitespace (the greedy `\s*`). */
  function SpaceRun(s: string, k: nat): (n: nat)
    requires k <= |s|
    ensures k <= n <= |s| && (n < |s| ==> !IsSpace(s[n]))
    decreases |s| - k
  {
    if k < |s| && IsSpace(s[k]) then SpaceRun(s, k + 1) else k
  }

  /** Everything `SpaceRun` passes over is whitespace. */
  lemma {:induction false} SpaceRunSpaces(s: string, k: nat)
    requires k <= |s|
    ensures forall m :: k <= m < SpaceRun(s, k) ==> IsSpace(s[m])
    decreases |s| - k
  {
    if k < |s| && IsSpace(s[k]) {
      SpaceRunSpaces(s, k + 1);
    }
  }

  /** Where the pattern `,\s*[}\]]` matches at `i`, the end of the match. */
  function TrailingMatch(s: string, i: nat): (e: Option<nat>)
    requires i < |s|
    ensures e.Some? ==> i + 2 <= e.value <= |s| && s[i] == ','
    ensures e.Some? ==> forall m :: i < m < e.value ==> s[m] != ','
  {
    if s[i] != ',' then None
    else
      var w := SpaceRun(s, i + 1);
      SpaceRunSpaces(s, i + 1);
      if w < |s| && (s[w] == '}' || s[w] == ']') then Some(w + 1) else None
  }

  /** The comma at `i` is followed by optional whitespace and then a closing bracket. */
  predicate TrailingComma(s: string, i: nat)
    requires i < |s|
  {
    TrailingMatch(s, i).Some?
  }

  /** `re.sub` scanning from `i`: a match is replaced by its group, anything else is copied. */
  function SubFrom(s: string, i: nat): string
    requires i <= |s|
    decreases |s| - i
  {
    if i == |s| then []
    else match TrailingMatch(s, i)
      case Some(e) => s[i + 1..e] + SubFrom(s, e)
      case None => [s[i]] + SubFrom(s, i + 1)
  }

  /**
   * The text of strategy 3: the reference text without its trailing commas, and the only
   * characters removed are those commas.
   */
  function RemoveTrailingCommas(text: string): (r: string)
    ensures r == WithoutTrailingCommas(text, 0)
    ensures |r| == |text| - TrailingCount(text, 0)
    ensures multiset(r) + multiset(Commas(TrailingCount(text, 0))) == multiset(text)
  {
    SubRemovesTrailingCommas(text, 0);
    TrailingCommasOnly(text, 0);
    assert text[0..] == text;
    SubFrom(text, 0)
  }

  /** Reference definition: the characters from `i` on, except the trailing commas. */
  function WithoutTrailingCommas(s: string, i: nat): string
    requires i <= |s|
    decreases |s| - i
  {
    if i == |s| then []
    else (if TrailingComma(s, i) then [] else [s[i]]) + WithoutTrailingCommas(s, i + 1)
  }

  /** A stretch with no comma is copied unchanged by the reference definition. */
  lemma {:induction false} CommaFreeKept(s: string, i: nat, e: nat)
    requires i <= e <= |s|
    requires forall m :: i <= m < e ==> s[m] != ','
    ensures WithoutTrailingCommas(s, i) == s[i..e] + WithoutTrailingCommas(s, e)
    decreases e - i
  {
    if i < e {
      CommaFreeKept(s, i + 1, e);
      assert !TrailingComma(s, i);
      calc {
        WithoutTrailingCommas(s, i);
        [s[i]] + WithoutTrailingCommas(s, i + 1);
        [s[i]] + (s[i + 1..e] + WithoutTrailingCommas(s, e));
        ([s[i]] + s[i + 1..e]) + WithoutTrailingCommas(s, e);
        { assert s[i..e] == [s[i]] + s[i + 1..e]; }
        s[i..e] + WithoutTrailingCommas(s, e);
      }
    }
  }

  /** The regular-expression scan removes exactly the trailing commas and keeps everything else in order. */
  lemma {:induction false} SubRemovesTrailingCommas(s: string, i: nat)
    requires i <= |s|
    ensures SubFrom(s, i) == WithoutTrailingCommas(s, i)
    decreases |s| - i
  {
    if i < |s| {
      match TrailingMatch(s, i)
      case Some(e) =>
        SubRemovesTrailingCommas(s, e);
        CommaFreeKept(s, i + 1, e);
      case None =>
        SubRemovesTrailingCommas(s, i + 1);
    }
  }

  function TrailingCount(s: string, i: nat): nat
    requires i <= |s|
    decreases |s| - i
  {
    if i == |s| then 0 else (if TrailingComma(s, i) then 1 else 0) + TrailingCount(s, i + 1)
  }

  /** Only commas go: every other character keeps its count, and the length drops by the trailing commas. */
  lemma {:induction false} TrailingCommasOnly(s: string, i: nat)
    requires i <= |s|
    ensures |WithoutTrailingCommas(s, i)| == |s| - i - TrailingCount(s, i)
    ensures multiset(WithoutTrailingCommas(s, i)) + multiset(Commas(TrailingCount(s, i))) == multiset(s[i..])
    ensures forall c :: c != ',' ==> multiset(WithoutTrailingCommas(s, i))[c] == multiset(s[i..])[c]
  {
    TrailingCommasKeep(s, i);
    var n := TrailingCount(s, i);
    assert |multiset(WithoutTrailingCommas(s, i))| + |multiset(Commas(n))| == |multiset(s[i..])|;
    assert |Commas(n)| == n;
    forall c | c != ','
      ensures multiset(WithoutTrailingCommas(s, i))[c] == multiset(s[i..])[c]
    {
      assert c !in Commas(n);
    }
  }

  /** `n` commas. */
  function Commas(n: nat): (cs: string)
    ensures |cs| == n && forall k :: 0 <= k < n ==> cs[k] == ','
  {
    seq(n, _ => ',')
  }

  /** The characters that go are exactly `TrailingCount` commas. */
  lemma {:induction false} TrailingCommasKeep(s: string, i: nat)
    requires i <= |s|
    ensures multiset(WithoutTrailingCommas(s, i)) + multiset(Commas(TrailingCount(s, i))) == multiset(s[i..])
    decreases |s| - i
  {
    if i == |s| {
      assert Commas(0) == [];
    } else {
      TrailingCommasKeep(s, i + 1);
      var head := WithoutTrailingCommasStep(s, i);
      assert s[i..] == [s[i]] + s[i + 1..];
      DropOrKeep(head, s[i], WithoutTrailingCommas(s, i + 1), s[i + 1..], TrailingCount(s, i), TrailingCount(s, i + 1));
    }
  }

  /** Keeping a character, or dropping a comma and counting it, keeps the multiset equation. */
  lemma {:induction false} DropOrKeep(head: string, x: char, rest: string, tail: string, n0: nat, n1: nat)
    requires multiset(rest) + multiset(Commas(n1)) == multiset(tail)
    requires (head == [x] && n0 == n1) || (head == [] && x == ',' && n0 == n1 + 1)
    ensures multiset(head + rest) + multiset(Commas(n0)) == multiset([x] + tail)
  {
    if head == [] {
      assert Commas(n0) == [','] + Commas(n1);
    }
  }

  /** The reference definition either keeps the character at `i` (no comma counted) or drops a counted comma there. */
  lemma {:induction false} WithoutTrailingCommasStep(s: string, i: nat) returns (head: string)
    requires i < |s|
    ensures WithoutTrailingCommas(s, i) == head + WithoutTrailingCommas(s, i + 1)
    ensures (head == [s[i]] && TrailingCount(s, i) == TrailingCount(s, i + 1)) ||
            (head == [] && s[i] == ',' && TrailingCount(s, i) == TrailingCount(s, i + 1) + 1)
  {
    head := if TrailingComma(s, i) then [] else [s[i]];
  }

  // ---- Strategy 4: re.findall(r'"([^"]+)":\s*"(male|female|unknown)"', text) (lines 67-70) ----

  const Genders := ["male", "female", "unknown"]

  /** The first `"` at or after `k`. */
  function QuoteFrom(s: string, k: nat): (r: Option<nat>)
    ensures r.Some? ==> k <= r.value < |s| && s[r.value] == '"'
    decreases |s| - k
  {
    if k >= |s| then None else if s[k] == '"' then Some(k) else QuoteFrom(s, k + 1)
  }

  /** No quote comes before the one `QuoteFrom` finds, and none at all when it finds none. */
  lemma {:induction false} QuoteFromSkips(s: string, k: nat)
    ensures QuoteFrom(s, k).Some? ==> forall m :: k <= m < QuoteFrom(s, k).value ==> s[m] != '"'
    ensures QuoteFrom(s, k).None? ==> forall m :: k <= m < |s| ==> s[m] != '"'
    decreases |s| - k
  {
    if k < |s| && s[k] != '"' {
      QuoteFromSkips(s, k + 1);
    }
  }

  /**
   * The alternation `(male|female|unknown)` followed by `"`, at `w`, compared letter by
   * letter.  The three words start with different letters, so at most one of them matches.
   */
  function GenderAt(s: string, w: nat): (g: Option<string>)
    ensures g.Some? ==> g.value in Genders && w + |g.value| < |s|
  {
    if w + 4 < |s| && s[w] == 'm' && s[w + 1] == 'a' && s[w + 2] == 'l' && s[w + 3] == 'e' && s[w + 4] == '"'
    then Some("male")
    else if w + 6 < |s| && s[w] == 'f' && s[w + 1] == 'e' && s[w + 2] == 'm' && s[w + 3] == 'a' &&
            s[w + 4] == 'l' && s[w + 5] == 'e' && s[w + 6] == '"'
    then Some("female")
    else if w + 7 < |s| && s[w] == 'u' && s[w + 1] == 'n' && s[w + 2] == 'k' && s[w + 3] == 'n' &&
            s[w + 4] == 'o' && s[w + 5] == 'w' && s[w + 6] == 'n' && s[w + 7] == '"'
    then Some("unknown")
    else None
  }

  /** The alternation matches `g` at `w` exactly when `g` is one of the words and `g"` occurs at `w`. */
  lemma {:induction false} GenderAtOccurs(s: string, w: nat, g: string)
    ensures GenderAt(s, w) == Some(g) <==> g in Genders && OccursAt(s, g + "\"", w)
  {
    if g in Genders && OccursAt(s, g + "\"", w) {
      var t := s[w..w + |g| + 1];
      assert t == g + "\"";
      assert s[w] == t[0] && s[w + 1] == t[1] && s[w + 2] == t[2] && s[w + 3] == t[3] && s[w + 4] == t[4];
      if |g| > 4 {
        assert s[w + 5] == t[5] && s[w + 6] == t[6];
      }
      if |g| > 6 {
        assert s[w + 7] == t[7];
      }
    }
  }

  /** A match of the pair pattern at `i`: the key, the gender and the end of the match. */
  datatype PairMatch = PairMatch(key: string, gender: string, end: nat)

  function PairAt(s: string, i: nat): (m: Option<PairMatch>)
    requires i < |s|
    ensures m.Some? ==> i < m.value.end <= |s|
    ensures m.Some? ==> m.value.key != [] && '"' !in m.value.key && m.value.gender in Genders
  {
    if s[i] != '"' then None
    else match QuoteFrom(s, i + 1)
      case None => None
      case Some(j) =>
        if j == i + 1 || j + 1 >= |s| || s[j + 1] != ':' then None
        else
          var w := SpaceRun(s, j + 2);
          if w >= |s| || s[w] != '"' then None
          else match GenderAt(s, w + 1)
            case None => None
            case Some(g) =>
              QuoteFromSkips(s, i + 1);
              NoQuoteIn(s, i + 1, j);
              Some(PairMatch(s[i + 1..j], g, w + 1 + |g| + 1))
  }

  lemma {:induction false} NoQuoteIn(s: string, a: nat, b: nat)
    requires a <= b <= |s| && forall m :: a <= m < b ==> s[m] != '"'
    ensures '"' !in s[a..b]
  {
  }

  /**
   * `re.findall` scanning from `i`: each match gives a pair and the scan resumes after it.
   * Every pair has a non-empty key free of quotes and a gender among male, female and unknown.
   */
  function FindPairs(s: string, i: nat): (ps: seq<(string, string)>)
    requires i <= |s|
    ensures forall p :: p in ps ==> p.0 != [] && '"' !in p.0 && p.1 in Genders
    decreases |s| - i
  {
    if i == |s| then []
    else match PairAt(s, i)
      case Some(m) => [(m.key, m.gender)] + FindPairs(s, m.end)
      case None => FindPairs(s, i + 1)
  }

  /**
   * The pattern `"([^"]+)":\s*"(male|female|unknown)"` read off the text: from `i` to `e`,
   * `s` holds a quote, the non-empty quote-free `key`, a quote and a colon, whitespace,
   * and the gender `g` between quotes.
   */
  predicate PairPattern(s: string, i: nat, key: string, g: string, e: nat) {
    var j := i + 1 + |key|;    // the quote closing the key
    var w := e - |g| - 2;      // the quote opening the gender
    key != [] && '"' !in key && g in Genders && j + 2 <= w && e <= |s| &&
    s[i] == '"' && s[i + 1..j] == key && s[j] == '"' && s[j + 1] == ':' &&
    AllSpace(s[j + 2..w]) && s[w] == '"' && s[w + 1..e - 1] == g && s[e - 1] == '"'
  }

  /** The scan at `i` finds the pair `(key, g)` ending at `e` exactly when the pattern reads so there. */
  lemma {:induction false} PairAtPattern(s: string, i: nat, key: string, g: string, e: nat)
    requires i < |s|
    ensures PairAt(s, i) == Some(PairMatch(key, g, e)) <==> PairPattern(s, i, key, g, e)
  {
    if PairAt(s, i) == Some(PairMatch(key, g, e)) {
      PairAtSound(s, i, key, g, e);
    }
    if PairPattern(s, i, key, g, e) {
      PairAtComplete(s, i, key, g, e);
    }
  }

  lemma {:induction false} PairAtSound(s: string, i: nat, key: string, g: string, e: nat)
    requires i < |s| && PairAt(s, i) == Some(PairMatch(key, g, e))
    ensures PairPattern(s, i, key, g, e)
  {
    var j := QuoteFrom(s, i + 1).value;
    assert j != i + 1 && j + 1 < |s| && s[j + 1] == ':';
    var w := SpaceRun(s, j + 2);
    SpaceRunSpaces(s, j + 2);
    assert w < |s| && s[w] == '"' && GenderAt(s, w + 1) == Some(g);
    assert key == s[i + 1..j] && e == w + |g| + 2;
    GenderAtOccurs(s, w + 1, g);
    PatternOfParts(s, i, j, w, key, g, e);
  }

  lemma {:induction false} PairAtComplete(s: string, i: nat, key: string, g: string, e: nat)
    requires i < |s| && PairPattern(s, i, key, g, e)
    ensures PairAt(s, i) == Some(PairMatch(key, g, e))
  {
    var j := i + 1 + |key|;
    var w := e - |g| - 2;
    KeyQuote(s, i + 1, j, key);
    RunEnd(s, j + 2, w);
    GenderQuote(s, w + 1, e, g);
    PairAtOfParts(s, i, j, w, g);
  }

  /** The scan at `i`, from where its quotes, its colon and its gender were found. */
  lemma {:induction false} PairAtOfParts(s: string, i: nat, j: nat, w: nat, g: string)
    requires i + 1 < j && j + 2 <= w < |s| && s[i] == '"' && s[j + 1] == ':' && s[w] == '"'
    requires QuoteFrom(s, i + 1) == Some(j) && SpaceRun(s, j + 2) == w && GenderAt(s, w + 1) == Some(g)
    ensures PairAt(s, i) == Some(PairMatch(s[i + 1..j], g, w + |g| + 2))
  {
  }

  /** The pattern, from the positions of its quotes: `j` closes the key, `w` opens the gender. */
  lemma {:induction false} PatternOfParts(s: string, i: nat, j: nat, w: nat, key: string, g: string, e: nat)
    requires i + 1 < j && j + 2 <= w < |s| && key == s[i + 1..j] && '"' !in key && g in Genders
    requires s[i] == '"' && s[j] == '"' && s[j + 1] == ':' && s[w] == '"'
    requires forall m :: j + 2 <= m < w ==> IsSpace(s[m])
    requires OccursAt(s, g + "\"", w + 1) && e == w + |g| + 2
    ensures PairPattern(s, i, key, g, e)
  {
    var run := s[j + 2..w];
    forall m | 0 <= m < |run|
      ensures IsSpace(run[m])
    {
      assert run[m] == s[j + 2 + m];
    }
    assert s[w + 1..e] == g + "\"";
    assert s[w + 1..e - 1] == s[w + 1..e][..|g|];
  }

  /** The key runs from `a` to the quote at `j`, so that quote is the first one from `a`. */
  lemma {:induction false} KeyQuote(s: string, a: nat, j: nat, key: string)
    requires a <= j < |s| && s[a..j] == key && '"' !in key && s[j] == '"'
    ensures QuoteFrom(s, a) == Some(j)
  {
    forall m | a <= m < j
      ensures s[m] != '"'
    {
      assert s[m] == key[m - a];
    }
    QuoteFromSkips(s, a);
  }

  /** Whitespace from `a` up to a non-space at `w`: the greedy run stops at `w`. */
  lemma {:induction false} RunEnd(s: string, a: nat, w: nat)
    requires a <= w < |s| && AllSpace(s[a..w]) && !IsSpace(s[w])
    ensures SpaceRun(s, a) == w
  {
    forall m | a <= m < w
      ensures IsSpace(s[m])
    {
      assert s[m] == s[a..w][m - a];
    }
    SpaceRunSpaces(s, a);
  }

  /** The gender `g` from `v` and a quote just before `e`: the alternation matches `g` at `v`. */
  lemma {:induction false} GenderQuote(s: string, v: nat, e: nat, g: string)
    requires g in Genders && v + |g| + 1 == e <= |s| && s[v..e - 1] == g && s[e - 1] == '"'
    ensures GenderAt(s, v) == Some(g)
  {
    assert s[v..e] == s[v..e - 1] + [s[e - 1]];
    GenderAtOccurs(s, v, g);
  }

  /** `(key, g)` is read by the pattern somewhere at or after `i`. */
  ghost predicate PatternFrom(s: string, i: nat, key: string, g: string) {
    exists k, e :: i <= k < |s| && PairPattern(s, k, key, g, e)
  }

  /** Every pair `re.findall` returns is a match of the pattern in the text at or after `i`. */
  lemma {:induction false} FindPairsSound(s: string, i: nat)
    requires i <= |s|
    ensures forall p :: p in FindPairs(s, i) ==> PatternFrom(s, i, p.0, p.1)
    decreases |s| - i
  {
    if i < |s| {
      match PairAt(s, i)
      case Some(m) =>
        PairAtSound(s, i, m.key, m.gender, m.end);
        FindPairsSound(s, m.end);
        forall p | p in FindPairs(s, m.end)
          ensures PatternFrom(s, i, p.0, p.1)
        {
          var k, e :| m.end <= k < |s| && PairPattern(s, k, p.0, p.1, e);
        }
      case None =>
        FindPairsSound(s, i + 1);
        forall p | p in FindPairs(s, i + 1)
          ensures PatternFrom(s, i, p.0, p.1)
        {
          var k, e :| i + 1 <= k < |s| && PairPattern(s, k, p.0, p.1, e);
        }
    }
  }

  /** A match of the pattern at `k` is found by a scan from any `i <= k`. */
  lemma {:induction false} FindPairsFinds(s: string, i: nat, k: nat, key: string, g: string, e: nat)
    requires i <= k < |s| && PairPattern(s, k, key, g, e)
    ensures FindPairs(s, i) != []
    ensures i == k ==> FindPairs(s, i)[0] == (key, g)
    decreases k - i
  {
    if k == i {
      PairAtComplete(s, i, key, g, e);
    } else if PairAt(s, i).None? {
      FindPairsFinds(s, i + 1, k, key, g, e);
    }
  }

  /** The scan comes back empty exactly when the pattern occurs nowhere at or after `i`. */
  lemma {:induction false} FindPairsEmpty(s: string, i: nat)
    requires i <= |s|
    ensures FindPairs(s, i) == [] <==> forall k, key, g, e :: i <= k < |s| ==> !PairPattern(s, k, key, g, e)
  {
    if FindPairs(s, i) != [] {
      FindPairsSound(s, i);
      assert FindPairs(s, i)[0] in FindPairs(s, i);
    }
    forall k, key, g, e | i <= k < |s| && PairPattern(s, k, key, g, e)
      ensures FindPairs(s, i) != []
    {
      FindPairsFinds(s, i, k, key, g, e);
    }
  }

  // ---- parse_json_response (lines 31-73) ----

  /** What the cascade returns: a decoded document, or the dictionary of scanned pairs. */
  datatype Parsed<J> = Loaded(doc: J) | Scanned(pairs: map<string, string>)

  /** The "```json" candidate, when the text has that fence. */
  function JsonCandidate(text: string): Option<string> {
    if Contains(text, JsonFence) then Some(FencedCandidate(text, JsonFence)) else None
  }

  /** The plain "```" candidate, when the text has that fence. */
  function PlainCandidate(text: string): Option<string> {
    if Contains(text, Fence) then Some(FencedCandidate(text, Fence)) else None
  }

  function Maybe(o: Option<string>): seq<string> {
    if o.Some? then [o.value] else []
  }

  /** The candidate strings the cascade hands to `json.loads`, in the order it tries them. */
  function Candidates(text: string): seq<string> {
    [text] + Maybe(JsonCandidate(text)) + Maybe(PlainCandidate(text)) + [RemoveTrailingCommas(text)]
  }

  /**
   * `parse_json_response(text)`: the document of the first candidate that `json.loads`
   * accepts, in the order whole text, "```json" block, "```" block, comma-fixed text; when
   * none is accepted, the scanned pairs, and `None` when there are none.
   */
  function ParseJsonResponse<J>(text: string, loads: string -> Option<J>): (r: Option<Parsed<J>>)
    ensures r ==
      match FirstDecoded(Candidates(text), loads)
      case Some(v) => Some(Loaded(v))
      case None =>
        var pairs := FindPairs(text, 0);
        if pairs == [] then None else Some(Scanned(DictOf(pairs)))
  {
    FirstDecodedOfFour(text, JsonCandidate(text), PlainCandidate(text), RemoveTrailingCommas(text), loads);
    var json := JsonCandidate(text);
    var plain := PlainCandidate(text);
    var fixed := RemoveTrailingCommas(text);
    if loads(text).Some? then Some(Loaded(loads(text).value))
    else if json.Some? && loads(json.value).Some? then Some(Loaded(loads(json.value).value))
    else if plain.Some? && loads(plain.value).Some? then Some(Loaded(loads(plain.value).value))
    else if loads(fixed).Some? then Some(Loaded(loads(fixed).value))
    else
      var matches := FindPairs(text, 0);
      if matches != [] then Some(Scanned(DictOf(matches))) else None
  }

  /** The document of the first candidate that decodes, if any. */
  function FirstDecoded<J(==)>(cs: seq<string>, loads: string -> Option<J>): (r: Option<J>)
    ensures r.Some? ==>
      exists k :: 0 <= k < |cs| && loads(cs[k]) == r && forall j :: 0 <= j < k ==> loads(cs[j]).None?
    ensures r.None? <==> forall c :: c in cs ==> loads(c).None?
  {
    if cs == [] then None
    else if loads(cs[0]).Some? then loads(cs[0])
    else
      var r := FirstDecoded(cs[1..], loads);
      assert cs == [cs[0]] + cs[1..];
      if r.Some? then
        var k :| 0 <= k < |cs[1..]| && loads(cs[1..][k]) == r && forall j :: 0 <= j < k ==> loads(cs[1..][j]).None?;
        assert loads(cs[k + 1]) == r;
        r
      else r
  }

  lemma {:induction false} FirstDecodedCons<J>(c: string, rest: seq<string>, loads: string -> Option<J>)
    ensures FirstDecoded([c] + rest, loads) == if loads(c).Some? then loads(c) else FirstDecoded(rest, loads)
  {
    assert ([c] + rest)[1..] == rest;
  }

  /** Four candidates, the middle two optional, tried left to right. */
  lemma {:induction false} FirstDecodedOfFour<J>(t: string, a: Option<string>, b: Option<string>, f: string, loads: string -> Option<J>)
    ensures FirstDecoded([t] + Maybe(a) + Maybe(b) + [f], loads) ==
      if loads(t).Some? then loads(t)
      else if a.Some? && loads(a.value).Some? then loads(a.value)
      else if b.Some? && loads(b.value).Some? then loads(b.value)
      else loads(f)
  {
    assert [t] + Maybe(a) + Maybe(b) + [f] == [t] + (Maybe(a) + (Maybe(b) + [f]));
    FirstDecodedCons(t, Maybe(a) + (Maybe(b) + [f]), loads);
    if a.Some? {
      FirstDecodedCons(a.value, Maybe(b) + [f], loads);
    }
    if b.Some? {
      FirstDecodedCons(b.value, [f], loads);
    }
    FirstDecodedCons(f, [], loads);
  }

  /** A whole text that decodes is returned as decoded, and no later strategy runs. */
  lemma {:induction false} WholeTextFirst<J>(text: string, loads: string -> Option<J>)
    requires loads(text).Some?
    ensures ParseJsonResponse(text, loads) == Some(Loaded(loads(text).value))
  {
  }

  /**
   * A scanned result only comes after every candidate failed to decode; it is non-empty,
   * its keys are non-empty and quote-free, and its values are male, female or unknown.
   */
  lemma {:induction false} ScannedPairs<J>(text: string, loads: string -> Option<J>)
    requires ParseJsonResponse(text, loads).Some? && ParseJsonResponse(text, loads).value.Scanned?
    ensures forall c :: c in Candidates(text) ==> loads(c).None?
    ensures var d := ParseJsonResponse(text, loads).value.pairs;
      d != map[] && forall k :: k in d ==> k != [] && '"' !in k && d[k] in Genders
  {
    var pairs := FindPairs(text, 0);
    DictOfValues(pairs);
    var d := DictOf(pairs);
    assert ParseJsonResponse(text, loads).value.pairs == d;
    assert pairs[0] in pairs;
    assert pairs[0].0 in d;
    forall k | k in d
      ensures k != [] && '"' !in k && d[k] in Genders
    {
      assert (k, d[k]) in pairs;
    }
  }

  /** `None` exactly when no candidate decodes and the scan finds no pair. */
  lemma {:induction false} ParseNone<J>(text: string, loads: string -> Option<J>)
    ensures ParseJsonResponse(text, loads).None? <==>
      (forall c :: c in Candidates(text) ==> loads(c).None?) && FindPairs(text, 0) == []
  {
  }

  // ---- main: batches and update matching (lines 147-176) ----

  const BatchSize: nat := 100

  /** One row of `SELECT id, name FROM authors ...`. */
  datatype Unknown = Unknown(id: int, name: string)

  /**
   * `updates`: `(id, classifications[name])` for each batch entry whose name is a key, in
   * batch order; an update is exactly an entry whose name has a classification, paired with it.
   */
  function MatchUpdates<V>(batch: seq<Unknown>, cls: map<string, V>): (us: seq<(int, V)>)
    ensures |us| <= |batch|
  {
    if batch == [] then []
    else
      (if batch[0].name in cls then [(batch[0].id, cls[batch[0].name])] else []) +
      MatchUpdates(batch[1..], cls)
  }

  /** Every update pairs an entry whose name was classified with its label, and every such entry gives one. */
  lemma {:induction false} MatchUpdatesMembers<V>(batch: seq<Unknown>, cls: map<string, V>)
    ensures forall u :: u in MatchUpdates(batch, cls) ==>
      exists e :: e in batch && e.name in cls && u == (e.id, cls[e.name])
    ensures forall e :: e in batch && e.name in cls ==> (e.id, cls[e.name]) in MatchUpdates(batch, cls)
  {
    if batch != [] {
      var rest := batch[1..];
      MatchUpdatesMembers(rest, cls);
      assert batch == [batch[0]] + rest;
      var us := MatchUpdates(batch, cls);
      forall u | u in us
        ensures exists e :: e in batch && e.name in cls && u == (e.id, cls[e.name])
      {
        if u in MatchUpdates(rest, cls) {
          var e :| e in rest && e.name in cls && u == (e.id, cls[e.name]);
          assert e in batch;
        } else {
          assert batch[0] in batch;
        }
      }
    }
  }

  /** An empty dictionary matches nothing, so skipping its batch changes nothing. */
  lemma {:induction false} EmptyMatchesNothing<V>(batch: seq<Unknown>, cls: map<string, V>)
    requires |cls| == 0
    ensures MatchUpdates(batch, cls) == []
  {
    if batch != [] {
      EmptyMatchesNothing(batch[1..], cls);
    }
  }

  /** The updates of every batch, one batch after another. */
  function AllUpdates<V>(batches: seq<seq<Unknown>>, classify: seq<Unknown> -> map<string, V>): seq<(int, V)> {
    if batches == [] then []
    else MatchUpdates(batches[0], classify(batches[0])) + AllUpdates(batches[1..], classify)
  }

  /** The updates from offset `i` on: those of the slice `[i, end)` and then the rest. */
  lemma {:induction false} AllUpdatesFrom<V>(xs: seq<Unknown>, i: nat, end: nat, classify: seq<Unknown> -> map<string, V>)
    requires i < |xs| && end == (if i + BatchSize <= |xs| then i + BatchSize else |xs|)
    ensures AllUpdates(Batches(xs[i..], BatchSize), classify) ==
      MatchUpdates(xs[i..end], classify(xs[i..end])) + AllUpdates(Batches(xs[end..], BatchSize), classify)
  {
    BatchesFrom(xs, i, BatchSize);
    var bs := Batches(xs[i..], BatchSize);
    assert bs[0] == xs[i..end];
    assert bs[1..] == Batches(xs[end..], BatchSize);
  }

  /** Appending one batch's updates keeps `written` a prefix of all the updates. */
  lemma {:induction false} WrittenStep<V>(xs: seq<Unknown>, i: nat, end: nat, classify: seq<Unknown> -> map<string, V>,
                       written: seq<(int, V)>, updates: seq<(int, V)>)
    requires i < |xs| && end == (if i + BatchSize <= |xs| then i + BatchSize else |xs|)
    requires updates == MatchUpdates(xs[i..end], classify(xs[i..end]))
    requires written + AllUpdates(Batches(xs[i..], BatchSize), classify) == AllUpdates(Batches(xs, BatchSize), classify)
    ensures (written + updates) + AllUpdates(Batches(xs[end..], BatchSize), classify)
      == AllUpdates(Batches(xs, BatchSize), classify)
  {
    var rest := AllUpdates(Batches(xs[end..], BatchSize), classify);
    assert AllUpdates(Batches(xs[i..], BatchSize), classify) == updates + rest by {
      AllUpdatesFrom(xs, i, end, classify);
    }
    AppendAssoc(written, updates, rest);
  }

  /**
   * `main` after fetching the names: classify each slice of `BatchSize` names, match the
   * classifications to ids and count what `update_database` writes.
   */
  method RetryUnknowns<V>(unknowns: seq<Unknown>, classify: seq<Unknown> -> map<string, V>)
    returns (totalBatches: nat, totalUpdated: nat, written: seq<(int, V)>)
    ensures totalBatches == |Batches(unknowns, BatchSize)|
    ensures written == AllUpdates(Batches(unknowns, BatchSize), classify)
    ensures totalUpdated == |written|
  {
    totalBatches := (|unknowns| + BatchSize - 1) / BatchSize;
    BatchCount(unknowns, BatchSize);
    totalUpdated := 0;
    written := [];
    var i := 0;
    assert unknowns[i..] == unknowns;
    while i < |unknowns|
      invariant i <= |unknowns|
      invariant totalUpdated == |written|
      invariant written + AllUpdates(Batches(unknowns[i..], BatchSize), classify)
        == AllUpdates(Batches(unknowns, BatchSize), classify)
      decreases |unknowns| - i
    {
      var end := if i + BatchSize <= |unknowns| then i + BatchSize else |unknowns|;
      var batch := unknowns[i..end];
      var updates := ClassifyBatch(batch, classify);
      WrittenStep(unknowns, i, end, classify, written, updates);
      if updates != [] {
        totalUpdated := totalUpdated + |updates|;
        written := written + updates;
      } else {
        assert written + updates == written;
      }
      i := end;
    }
    assert unknowns[i..] == [];
  }

  /** One batch of `main`: classify it, skip it when nothing came back, else match the names. */
  method ClassifyBatch<V>(batch: seq<Unknown>, classify: seq<Unknown> -> map<string, V>)
    returns (updates: seq<(int, V)>)
    ensures updates == MatchUpdates(batch, classify(batch))
  {
    var classifications := classify(batch);
    if |classifications| == 0 {
      EmptyMatchesNothing(batch, classifications);
      updates := [];
    } else {
      updates := MatchBatch(batch, classifications);
    }
  }

  lemma {:induction false} MatchUpdatesStep<V>(batch: seq<Unknown>, k: nat, cls: map<string, V>)
    requires k < |batch|
    ensures MatchUpdates(batch[k..], cls) ==
      (if batch[k].name in cls then [(batch[k].id, cls[batch[k].name])] else []) + MatchUpdates(batch[k + 1..], cls)
  {
    assert batch[k..][1..] == batch[k + 1..];
  }

  /** One pass of the loop of `MatchBatch` keeps its invariant. */
  lemma {:induction false} MatchBatchStep<V>(batch: seq<Unknown>, k: nat, cls: map<string, V>, updates: seq<(int, V)>)
    requires k < |batch| && updates + MatchUpdates(batch[k..], cls) == MatchUpdates(batch, cls)
    ensures var e := batch[k];
      (if e.name in cls then updates + [(e.id, cls[e.name])] else updates) + MatchUpdates(batch[k + 1..], cls) ==
        MatchUpdates(batch, cls)
  {
    var e := batch[k];
    var head := if e.name in cls then [(e.id, cls[e.name])] else [];
    MatchUpdatesStep(batch, k, cls);
    AppendAssoc(updates, head, MatchUpdates(batch[k + 1..], cls));
    assert (if e.name in cls then updates + [(e.id, cls[e.name])] else updates) == updates + head;
  }

  /** The inner loop that builds `updates` for one batch. */
  method MatchBatch<V>(batch: seq<Unknown>, cls: map<string, V>) returns (updates: seq<(int, V)>)
    ensures updates == MatchUpdates(batch, cls)
  {
    updates := [];
    var k := 0;
    while k < |batch|
      invariant k <= |batch|
      invariant updates + MatchUpdates(batch[k..], cls) == MatchUpdates(batch, cls)
    {
      MatchBatchStep(batch, k, cls, updates);
      var e := batch[k];
      if e.name in cls {
        updates := updates + [(e.id, cls[e.name])];
      }
      k := k + 1;
    }
    assert batch[k..] == [];
  }
}
