/**
 * Matching journal names to their ScimagoJR quartile (preprocess_journal_quartiles.py).
 *
 * `difflib.get_close_matches(name, titles, n=1, cutoff)` is the abstract `CloseMatch`:
 * it names the position of the one close title, if any.  Whatever `difflib` answers is
 * some `CloseMatch`, and the model keeps its one guarantee, that the answer is a title
 * from the list it was given.
 */
module JournalQuartiles {
  import opened Wrappers
  import opened Strs
  import opened Seqs

  /** One row of the ScimagoJR table: its title and its "SJR Best Quartile" cell. */
  datatype SjrRow = SjrRow(title: string, quartile: Option<string>)

  const Quartiles := ["Q1", "Q2", "Q3", "Q4"]

  /**
   * `name.lower().strip()`: no capital is left that `lower()` would change, and there is no
   * whitespace at either end.
   */
  function Normalize(name: string): (n: string)
    ensures forall i :: 0 <= i < |n| ==> !IsUpper(n[i])
    ensures n == [] || (!IsSpace(n[0]) && !IsSpace(n[|n| - 1]))
  {
    StripKeepsCase(Lower(name));
    Strip(Lower(name))
  }

  /**
   * The normalised name is a slice of the lower-cased name with only whitespace around it;
   * with the ends `Normalize` ensures, this is exactly `name.lower().strip()`.
   */
  lemma {:induction false} NormalizeSlice(name: string)
    ensures MiddleSlice(Lower(name), Normalize(name))
  {
    StripSlice(Lower(name));
  }

  /** Stripping keeps a string free of the capitals `lower()` changes. */
  lemma {:induction false} StripKeepsCase(s: string)
    requires forall i :: 0 <= i < |s| ==> !IsUpper(s[i])
    ensures forall i :: 0 <= i < |Strip(s)| ==> !IsUpper(Strip(s)[i])
  {
    var t := TrimLeft(s);
    PiecesKeepCase(s, t, TrimRight(t));
  }

  /** A prefix of a suffix of a string free of capitals is free of capitals. */
  lemma {:induction false} PiecesKeepCase(s: string, t: string, n: string)
    requires forall i :: 0 <= i < |s| ==> !IsUpper(s[i])
    requires |t| <= |s| && t == s[|s| - |t|..] && |n| <= |t| && n == t[..|n|]
    ensures forall i :: 0 <= i < |n| ==> !IsUpper(n[i])
  {
    forall i | 0 <= i < |n|
      ensures !IsUpper(n[i])
    {
      assert n[i] == t[i] == s[|s| - |t| + i];
    }
  }

  /** Names that differ only in the case of their letters normalise alike. */
  lemma {:induction false} NormalizeIgnoresCase(a: string, b: string)
    requires |a| == |b| && forall i :: 0 <= i < |a| ==> LowerChar(a[i]) == LowerChar(b[i])
    ensures Normalize(a) == Normalize(b)
  {
    assert Lower(a) == Lower(b);
  }

  /** A Latin-1 capital folds like an ASCII one: "\u00C4rzteblatt" and "\u00E4rzteblatt" normalise alike. */
  lemma {:induction false} LatinCapitalFolds()
    ensures Normalize("\U{C4}rzteblatt") == Normalize("\U{E4}rzteblatt")
  {
    NormalizeIgnoresCase("\U{C4}rzteblatt", "\U{E4}rzteblatt");
  }

  // ---- The lookup (lines 24-31 and 78-81) ----

  /** `zip(Title_normalized, quartile)` over the rows ranked Q1 to Q4, in table order. */
  function RankedPairs(rows: seq<SjrRow>): (ps: seq<(string, string)>)
    ensures forall p :: p in ps ==> p.1 in Quartiles
  {
    if rows == [] then []
    else
      var r := rows[0];
      (if r.quartile.Some? && r.quartile.value in Quartiles then [(Normalize(r.title), r.quartile.value)] else []) +
      RankedPairs(rows[1..])
  }

  /** `scimagojr_titles`, the normalised ranked titles. */
  function Titles(rows: seq<SjrRow>): (ts: seq<string>)
    ensures |ts| == |RankedPairs(rows)|
    ensures forall i :: 0 <= i < |ts| ==> ts[i] == RankedPairs(rows)[i].0
  {
    var ps := RankedPairs(rows);
    seq(|ps|, i requires 0 <= i < |ps| => ps[i].0)
  }

  /**
   * `scimagojr_lookup`, where a later row with the same title wins: every stored quartile
   * is one of Q1 to Q4, and every title is a key.
   */
  function Lookup(rows: seq<SjrRow>): (m: map<string, string>)
    ensures forall k :: k in m ==> m[k] in Quartiles
    ensures forall t :: t in Titles(rows) ==> t in m
  {
    RankedDictWellFormed(rows);
    DictOf(RankedPairs(rows))
  }

  lemma {:induction false} RankedDictWellFormed(rows: seq<SjrRow>)
    ensures forall k :: k in DictOf(RankedPairs(rows)) ==> DictOf(RankedPairs(rows))[k] in Quartiles
    ensures forall t :: t in Titles(rows) ==> t in DictOf(RankedPairs(rows))
  {
    var ps := RankedPairs(rows);
    DictOfValues(ps);
    forall t | t in Titles(rows)
      ensures t in DictOf(ps)
    {
      var i :| 0 <= i < |Titles(rows)| && Titles(rows)[i] == t;
      assert ps[i] in ps;
    }
  }

  // ---- match_journal_to_quartile (lines 49-67) ----

  /** `get_close_matches(name, titles, n=1, cutoff)`, as the position of the chosen title. */
  type CloseMatch = (string, seq<string>, real) -> Option<nat>

  const Threshold: real := 0.8

  /** The one close title, if any: always a member of `titles`. */
  function FuzzyHit(name: string, titles: seq<string>, close: CloseMatch): (t: Option<string>)
    ensures t.Some? ==> t.value in titles
  {
    if titles == [] then None
    else match close(name, titles, Threshold)
      case None => None
      case Some(k) => Some(titles[k % |titles|])
  }

  /** The pair `(quartile, is_exact)`. */
  datatype QuartileMatch = QuartileMatch(quartile: Option<string>, isExact: bool)

  /**
   * `match_journal_to_quartile`; every title must be a key, as the caller's construction
   * ensures.  The three outcomes: an exact hit on the normalised name, a fuzzy hit on a
   * listed title (only when there is no exact hit), or no quartile at all.
   */
  function MatchJournal(name: string, titles: seq<string>, lookup: map<string, string>, close: CloseMatch): (r: QuartileMatch)
    requires forall t :: t in titles ==> t in lookup
    ensures var n := Normalize(name);
      n in lookup ==> r == QuartileMatch(Some(lookup[n]), true)
    ensures var n := Normalize(name);
      n !in lookup && FuzzyHit(n, titles, close).Some? ==>
        var t := FuzzyHit(n, titles, close).value; t in titles && r == QuartileMatch(Some(lookup[t]), false)
    ensures r.quartile.None? <==> Normalize(name) !in lookup && FuzzyHit(Normalize(name), titles, close).None?
    ensures r.quartile.None? ==> !r.isExact
  {
    var normalized := Normalize(name);
    if normalized in lookup then QuartileMatch(Some(lookup[normalized]), true)
    else match FuzzyHit(normalized, titles, close)
      case Some(t) => QuartileMatch(Some(lookup[t]), false)
      case None => QuartileMatch(None, false)
  }

  /** With the table's own lookup, a matched quartile is one of Q1 to Q4. */
  lemma {:induction false} MatchedQuartileRanked(name: string, rows: seq<SjrRow>, close: CloseMatch)
    ensures forall t :: t in Titles(rows) ==> t in Lookup(rows)
    ensures var r := MatchJournal(name, Titles(rows), Lookup(rows), close);
      r.quartile.Some? ==> r.quartile.value in Quartiles
  {
  }

  // ---- The matching loop of main (lines 88-108) ----

  /** One entry of `journal_data`. */
  datatype JournalEntry = JournalEntry(journalName: string, quartile: string, isExactMatch: bool)

  /** Python's truth value of the returned quartile: present and non-empty. */
  predicate Found(m: QuartileMatch) {
    m.quartile.Some? && m.quartile.value != ""
  }

  /** `journal_data` after matching `journals`, in input order. */
  function MatchedEntries(journals: seq<string>, titles: seq<string>, lookup: map<string, string>, close: CloseMatch): seq<JournalEntry>
    requires forall t :: t in titles ==> t in lookup
  {
    if journals == [] then []
    else
      var j := journals[|journals| - 1];
      var m := MatchJournal(j, titles, lookup, close);
      MatchedEntries(journals[..|journals| - 1], titles, lookup, close) +
      (if Found(m) then [JournalEntry(j, m.quartile.value, m.isExact)] else [])
  }

  /** `unmatched_journals` after matching `journals`, in input order. */
  function UnmatchedNames(journals: seq<string>, titles: seq<string>, lookup: map<string, string>, close: CloseMatch): seq<string>
    requires forall t :: t in titles ==> t in lookup
  {
    if journals == [] then []
    else
      var j := journals[|journals| - 1];
      UnmatchedNames(journals[..|journals| - 1], titles, lookup, close) +
      (if Found(MatchJournal(j, titles, lookup, close)) then [] else [j])
  }

  /** Matching one more journal extends one of the two lists by it. */
  lemma {:induction false} MatchStep(journals: seq<string>, i: nat, titles: seq<string>, lookup: map<string, string>, close: CloseMatch)
    requires i < |journals| && forall t :: t in titles ==> t in lookup
    ensures var j := journals[i]; var m := MatchJournal(j, titles, lookup, close);
      MatchedEntries(journals[..i + 1], titles, lookup, close) ==
        MatchedEntries(journals[..i], titles, lookup, close) + (if Found(m) then [JournalEntry(j, m.quartile.value, m.isExact)] else []) &&
      UnmatchedNames(journals[..i + 1], titles, lookup, close) ==
        UnmatchedNames(journals[..i], titles, lookup, close) + (if Found(m) then [] else [j])
  {
    assert journals[..i + 1][..i] == journals[..i];
  }

  /** Matched and unmatched journals partition the input. */
  lemma {:induction false} MatchPartition(journals: seq<string>, titles: seq<string>, lookup: map<string, string>, close: CloseMatch)
    requires forall t :: t in titles ==> t in lookup
    ensures |MatchedEntries(journals, titles, lookup, close)| + |UnmatchedNames(journals, titles, lookup, close)| == |journals|
    ensures forall j :: j in UnmatchedNames(journals, titles, lookup, close) <==>
      j in journals && !Found(MatchJournal(j, titles, lookup, close))
    ensures forall e :: e in MatchedEntries(journals, titles, lookup, close) ==>
      e.journalName in journals && Found(MatchJournal(e.journalName, titles, lookup, close)) &&
      MatchJournal(e.journalName, titles, lookup, close) == QuartileMatch(Some(e.quartile), e.isExactMatch)
  {
    MatchCount(journals, titles, lookup, close);
    UnmatchedMembers(journals, titles, lookup, close);
    MatchedMembers(journals, titles, lookup, close);
  }

  lemma {:induction false} MatchCount(journals: seq<string>, titles: seq<string>, lookup: map<string, string>, close: CloseMatch)
    requires forall t :: t in titles ==> t in lookup
    ensures |MatchedEntries(journals, titles, lookup, close)| + |UnmatchedNames(journals, titles, lookup, close)| == |journals|
  {
    if journals != [] {
      MatchCount(journals[..|journals| - 1], titles, lookup, close);
    }
  }

  lemma {:induction false} UnmatchedMembers(journals: seq<string>, titles: seq<string>, lookup: map<string, string>, close: CloseMatch)
    requires forall t :: t in titles ==> t in lookup
    ensures forall j :: j in UnmatchedNames(journals, titles, lookup, close) <==>
      j in journals && !Found(MatchJournal(j, titles, lookup, close))
  {
    if journals != [] {
      var init := journals[..|journals| - 1];
      var last := journals[|journals| - 1];
      UnmatchedMembers(init, titles, lookup, close);
      assert journals == init + [last];
      var tail := if Found(MatchJournal(last, titles, lookup, close)) then [] else [last];
      assert UnmatchedNames(journals, titles, lookup, close) == UnmatchedNames(init, titles, lookup, close) + tail;
      forall j
        ensures j in UnmatchedNames(journals, titles, lookup, close) <==>
          j in journals && !Found(MatchJournal(j, titles, lookup, close))
      {
        assert j in journals <==> j in init || j == last;
      }
    }
  }

  lemma {:induction false} MatchedMembers(journals: seq<string>, titles: seq<string>, lookup: map<string, string>, close: CloseMatch)
    requires forall t :: t in titles ==> t in lookup
    ensures forall e :: e in MatchedEntries(journals, titles, lookup, close) ==>
      e.journalName in journals && Found(MatchJournal(e.journalName, titles, lookup, close)) &&
      MatchJournal(e.journalName, titles, lookup, close) == QuartileMatch(Some(e.quartile), e.isExactMatch)
  {
    if journals != [] {
      var init := journals[..|journals| - 1];
      var j := journals[|journals| - 1];
      var m := MatchJournal(j, titles, lookup, close);
      MatchedMembers(init, titles, lookup, close);
      var before := MatchedEntries(init, titles, lookup, close);
      var tail: seq<JournalEntry> := if Found(m) then [JournalEntry(j, m.quartile.value, m.isExact)] else [];
      forall e: JournalEntry | e in before + tail
        ensures e.journalName in journals && Found(MatchJournal(e.journalName, titles, lookup, close)) &&
          MatchJournal(e.journalName, titles, lookup, close) == QuartileMatch(Some(e.quartile), e.isExactMatch)
      {
        if e in before {
          assert e.journalName in init;
        } else {
          assert e == JournalEntry(j, m.quartile.value, m.isExact);
        }
      }
    }
  }

  /** Every journal kept by `main` carries a quartile from Q1 to Q4. */
  lemma {:induction false} EntriesRanked(journals: seq<string>, rows: seq<SjrRow>, close: CloseMatch)
    ensures forall t :: t in Titles(rows) ==> t in Lookup(rows)
    ensures forall e :: e in MatchedEntries(journals, Titles(rows), Lookup(rows), close) ==> e.quartile in Quartiles
  {
    MatchPartition(journals, Titles(rows), Lookup(rows), close);
    forall e | e in MatchedEntries(journals, Titles(rows), Lookup(rows), close)
      ensures e.quartile in Quartiles
    {
      MatchedQuartileRanked(e.journalName, rows, close);
    }
  }

  /** The matching loop of `main`, over the ranked table `sjr`. */
  method MatchJournals(journals: seq<string>, sjr: seq<SjrRow>, close: CloseMatch)
    returns (journalData: seq<JournalEntry>, matched: nat, unmatched: seq<string>)
    ensures forall t :: t in Titles(sjr) ==> t in Lookup(sjr)
    ensures journalData == MatchedEntries(journals, Titles(sjr), Lookup(sjr), close)
    ensures unmatched == UnmatchedNames(journals, Titles(sjr), Lookup(sjr), close)
    ensures matched == |journalData| && matched + |unmatched| == |journals|
  {
    var titles := Titles(sjr);
    var lookup := Lookup(sjr);
    journalData := [];
    matched := 0;
    unmatched := [];
    for i := 0 to |journals|
      invariant journalData == MatchedEntries(journals[..i], titles, lookup, close)
      invariant unmatched == UnmatchedNames(journals[..i], titles, lookup, close)
      invariant matched == |journalData|
    {
      MatchStep(journals, i, titles, lookup, close);
      var m := MatchJournal(journals[i], titles, lookup, close);
      if Found(m) {
        matched := matched + 1;
        journalData := journalData + [JournalEntry(journals[i], m.quartile.value, m.isExact)];
      } else {
        unmatched := unmatched + [journals[i]];
      }
    }
    assert journals[..|journals|] == journals;
    MatchPartition(journals, titles, lookup, close);
  }
}
