/**
 * Turning PubMed records into paper rows (src/pubmed_fetcher.py, lines 138-241).
 *
 * An Entrez record is given already read: the fields `_parse_article` looks up, with ""
 * for a missing key as its `.get(key, "")` calls give, or `Unreadable` for a record on
 * which one of those lookups raises.  The `efetch` round trip of one batch is the
 * abstract function `efetch`, with `None` for a batch whose fetch or read raises.
 */
module PubmedFetcher {
  import opened Wrappers
  import opened Strs
  import opened Seqs

  // ---- int(pub_data["Year"]) ----

  predicate IsDigit(c: char) {
    '0' <= c <= '9'
  }

  /**
   * The body of a Python integer literal as `int()` accepts it: ASCII digits, where an
   * underscore may stand between two digits.
   */
  predicate IntLiteral(ds: string) {
    |ds| > 0 && IsDigit(ds[0]) && IsDigit(ds[|ds| - 1]) &&
    (forall i :: 0 <= i < |ds| ==> IsDigit(ds[i]) || ds[i] == '_') &&
    UnderscoresBeforeDigits(ds)
  }

  /** Every underscore in `ds` but a last character is followed by a digit. */
  predicate UnderscoresBeforeDigits(ds: string)
    decreases |ds|
  {
    |ds| < 2 || ((ds[0] != '_' || IsDigit(ds[1])) && UnderscoresBeforeDigits(ds[1..]))
  }

  /** The value of the digits of `ds`, read left to right, underscores skipped. */
  function DigitsValue(ds: string): nat {
    if ds == [] then 0
    else
      var c := ds[|ds| - 1];
      var v := DigitsValue(ds[..|ds| - 1]);
      if IsDigit(c) then v * 10 + (c as int - '0' as int) else v
  }

  /**
   * Python's `int(s)` on a string: `None` where it raises `ValueError`.  A blank string
   * raises, and a negative value needs a leading minus sign once the whitespace is stripped.
   */
  function ParseInt(s: string): (r: Option<int>)
    ensures AllSpace(s) ==> r.None?
    ensures r.Some? && r.value < 0 ==> Strip(s) != [] && Strip(s)[0] == '-'
  {
    SignedLiteral(Strip(s))
  }

  /** `int(s) == int(s.strip())`: surrounding whitespace never changes the value. */
  lemma {:induction false} ParseIgnoresSpace(s: string)
    ensures ParseInt(s) == ParseInt(Strip(s))
  {
    var t := Strip(s);
    if t != [] {
      StripUnspaced(t);
    } else {
      assert AllSpace(t);
    }
  }

  /** An optional sign and then a literal body. */
  function SignedLiteral(t: string): Option<int> {
    if t == [] then None
    else
      var body := if t[0] == '-' || t[0] == '+' then t[1..] else t;
      if !IntLiteral(body) then None
      else if t[0] == '-' then Some(-(DigitsValue(body) as int))
      else Some(DigitsValue(body))
  }

  /** Python's `str(n)` for a natural number. */
  function NatString(n: nat): (s: string)
    ensures |s| > 0 && forall i :: 0 <= i < |s| ==> IsDigit(s[i])
  {
    var d := ['0', '1', '2', '3', '4', '5', '6', '7', '8', '9'][n % 10];
    if n < 10 then [d] else NatString(n / 10) + [d]
  }

  /** Python's `str(n)`. */
  function IntString(n: int): string {
    if n < 0 then "-" + NatString(-n) else NatString(n)
  }

  lemma {:induction false} NatStringValue(n: nat)
    ensures DigitsValue(NatString(n)) == n
  {
    var s := NatString(n);
    assert s[..|s| - 1] == (if n < 10 then [] else NatString(n / 10));
    if n >= 10 {
      NatStringValue(n / 10);
    }
  }

  /** A string that starts and ends with a non-space character has nothing to strip. */
  lemma {:induction false} StripUnspaced(s: string)
    requires |s| > 0 && !IsSpace(s[0]) && !IsSpace(s[|s| - 1])
    ensures Strip(s) == s
  {
    assert TrimLeft(s) == s;
  }

  lemma {:induction false} DigitsLiteral(ds: string)
    requires |ds| > 0 && forall i :: 0 <= i < |ds| ==> IsDigit(ds[i])
    ensures IntLiteral(ds)
  {
    DigitsSeparated(ds);
  }

  lemma {:induction false} DigitsSeparated(ds: string)
    requires forall i :: 0 <= i < |ds| ==> IsDigit(ds[i])
    ensures UnderscoresBeforeDigits(ds)
    decreases |ds|
  {
    if |ds| >= 2 {
      assert ds[0] != '_';
      DigitsSeparated(ds[1..]);
    }
  }

  /** A run of digits parses to its value. */
  lemma {:induction false} ParseDigits(ds: string)
    requires |ds| > 0 && forall i :: 0 <= i < |ds| ==> IsDigit(ds[i])
    ensures ParseInt(ds) == Some(DigitsValue(ds))
  {
    DigitsLiteral(ds);
    StripUnspaced(ds);
    ParseStripped(ds);
  }

  /** A minus sign followed by a run of digits parses to the negated value of the digits. */
  lemma {:induction false} ParseNegatedDigits(ds: string, v: nat)
    requires |ds| > 0 && forall i :: 0 <= i < |ds| ==> IsDigit(ds[i])
    requires DigitsValue(ds) == v
    ensures ParseInt("-" + ds) == Some(-(v as int))
  {
    var t := "-" + ds;
    assert t[1..] == ds && t[|t| - 1] == ds[|ds| - 1];
    DigitsLiteral(ds);
    StripUnspaced(t);
    ParseStripped(t);
  }

  /** Where `strip()` changes nothing, `int()` reads the sign and the literal directly. */
  lemma {:induction false} ParseStripped(t: string)
    requires Strip(t) == t
    ensures ParseInt(t) == SignedLiteral(t)
  {
  }

  /** `int(str(n)) == n`: the year parser reads back every integer Python writes. */
  lemma {:induction false} ParseIntString(n: int)
    ensures ParseInt(IntString(n)) == Some(n)
  {
    var s := IntString(n);
    if n < 0 {
      var m: nat := -n;
      assert s == "-" + NatString(m);
      assert ParseInt("-" + NatString(m)) == Some(-(m as int)) by { ParseNegatedString(m); }
    } else {
      assert s == NatString(n);
      assert ParseInt(NatString(n)) == Some(n) by { ParseNatString(n); }
    }
  }

  lemma {:induction false} ParseNatString(m: nat)
    ensures ParseInt(NatString(m)) == Some(m)
  {
    NatStringValue(m);
    ParseDigits(NatString(m));
  }

  lemma {:induction false} ParseNegatedString(m: nat)
    ensures ParseInt("-" + NatString(m)) == Some(-(m as int))
  {
    NatStringValue(m);
    ParseNegatedDigits(NatString(m), m);
  }

  // ---- _parse_article (lines 182-241) ----

  /** One entry of `AuthorList`: its `LastName` and `ForeName`, "" when absent. */
  datatype AuthorEntry = AuthorEntry(lastName: string, foreName: string)

  /** The fields of a PubMed record that the parser reads; `year` is `None` when PubDate has no "Year". */
  datatype Article =
    | Article(pmid: string, title: string, journal: string, year: Option<string>, authorList: seq<AuthorEntry>)
    | Unreadable

  /** The paper dict. */
  datatype PaperRecord = PaperRecord(
    pmid: string, title: string, journal: string, year: int,
    authors: seq<string>, authorCount: nat, positions: seq<string>)

  /** The name recorded for one author entry, if any. */
  function AuthorName(a: AuthorEntry): (n: Option<string>)
    ensures a.foreName != "" && a.lastName != "" ==> n == Some(a.foreName + " " + a.lastName)
    ensures a.foreName == "" && a.lastName != "" ==> n == Some(a.lastName)
    ensures a.lastName == "" <==> n.None?
  {
    if a.foreName != "" && a.lastName != "" then Some(a.foreName + " " + a.lastName)
    else if a.lastName != "" then Some(a.lastName)
    else None
  }

  /** The names of the entries that have a last name, in input order. */
  function AuthorNames(entries: seq<AuthorEntry>): (names: seq<string>)
    ensures |names| <= |entries|
  {
    if entries == [] then []
    else
      var init := entries[..|entries| - 1];
      var n := AuthorName(entries[|entries| - 1]);
      AuthorNames(init) + (if n.Some? then [n.value] else [])
  }

  /** A single entry gives its name, or nothing when it has no last name. */
  lemma {:induction false} AuthorNamesSingle(e: AuthorEntry)
    ensures AuthorNames([e]) == (if AuthorName(e).Some? then [AuthorName(e).value] else [])
  {
    assert [e][..0] == [];
  }

  /** The names of two lists of entries are the names of the first followed by those of the second. */
  lemma {:induction false} AuthorNamesAppend(x: seq<AuthorEntry>, y: seq<AuthorEntry>)
    ensures AuthorNames(x + y) == AuthorNames(x) + AuthorNames(y)
    decreases |y|
  {
    if y == [] {
      assert x + y == x;
    } else {
      var k := |y| - 1;
      AuthorNamesAppend(x, y[..k]);
      assert y == y[..k] + [y[k]];
      AuthorNamesAppendStep(x, y[..k], y[k]);
    }
  }

  /** One more entry at the end of the second list keeps the append rule. */
  lemma {:induction false} AuthorNamesAppendStep(x: seq<AuthorEntry>, init: seq<AuthorEntry>, e: AuthorEntry)
    requires AuthorNames(x + init) == AuthorNames(x) + AuthorNames(init)
    ensures AuthorNames(x + (init + [e])) == AuthorNames(x) + AuthorNames(init + [e])
  {
    var n := if AuthorName(e).Some? then [AuthorName(e).value] else [];
    AppendAssoc(x, init, [e]);
    AuthorNamesLast(x + init, e);
    AuthorNamesLast(init, e);
    AppendAssoc(AuthorNames(x), AuthorNames(init), n);
  }

  /** Appending an entry appends its name, if it has one. */
  lemma {:induction false} AuthorNamesLast(init: seq<AuthorEntry>, e: AuthorEntry)
    ensures AuthorNames(init + [e]) == AuthorNames(init) + (if AuthorName(e).Some? then [AuthorName(e).value] else [])
  {
    assert (init + [e])[..|init|] == init;
  }

  /** One name per entry with a last name; entries without one are dropped. */
  lemma {:induction false} AuthorNamesCount(entries: seq<AuthorEntry>)
    ensures |AuthorNames(entries)| == |set i | 0 <= i < |entries| && entries[i].lastName != ""|
  {
    if entries != [] {
      var k := |entries| - 1;
      var init := entries[..k];
      AuthorNamesCount(init);
      NamedIndicesSnoc(entries);
      assert AuthorNames(entries) == AuthorNames(init) + (if AuthorName(entries[k]).Some? then [AuthorName(entries[k]).value] else []);
    }
  }

  /** The positions with a last name grow by the last one when it has one. */
  lemma {:induction false} NamedIndicesSnoc(entries: seq<AuthorEntry>)
    requires entries != []
    ensures var k := |entries| - 1;
      |set i | 0 <= i < |entries| && entries[i].lastName != ""| ==
      |set i | 0 <= i < |entries[..k]| && entries[..k][i].lastName != ""| + (if entries[k].lastName != "" then 1 else 0)
  {
    var k := |entries| - 1;
    var init := entries[..k];
    var extra := if entries[k].lastName != "" then {k} else {};
    var all := set i | 0 <= i < |entries| && entries[i].lastName != "";
    var before := set i | 0 <= i < |init| && init[i].lastName != "";
    forall i
      ensures i in all <==> i in before + extra
    {
      if 0 <= i < k {
        assert init[i] == entries[i];
      }
    }
    assert all == before + extra;
    assert k !in before;
    assert |before + extra| == |before| + |extra|;
  }

  /** The year: present, a parsable integer, and not 0 (`not year`). */
  function YearOf(year: Option<string>): (y: Option<int>)
    ensures y.Some? <==> year.Some? && ParseInt(year.value).Some? && ParseInt(year.value).value != 0
    ensures y.Some? ==> y == ParseInt(year.value)
  {
    if year.None? then None
    else match ParseInt(year.value)
      case None => None
      case Some(y) => if y == 0 then None else Some(y)
  }

  /** Every non-zero year Python writes as `str(year)` is read back as that year. */
  lemma {:induction false} YearOfIntString(n: int)
    requires n != 0
    ensures YearOf(Some(IntString(n))) == Some(n)
  {
    ParseIntString(n);
  }

  /** What `_parse_article` returns for a record. */
  function ParsedArticle(a: Article): (r: Option<PaperRecord>)
    ensures r.None? <==> a.Unreadable? || AuthorNames(a.authorList) == [] || YearOf(a.year).None?
    ensures r.Some? ==>
      r.value.authorCount == |r.value.authors| && r.value.positions == [] && r.value.year != 0 && r.value.pmid == a.pmid
    ensures r.Some? ==>
      r.value.authors == AuthorNames(a.authorList) && Some(r.value.year) == YearOf(a.year) &&
      r.value.title == a.title && r.value.journal == a.journal
  {
    if a.Unreadable? then None
    else
      var names := AuthorNames(a.authorList);
      var year := YearOf(a.year);
      if names == [] || year.None? then None
      else Some(PaperRecord(a.pmid, a.title, a.journal, year.value, names, |names|, []))
  }

  /** `_parse_article`, with its loop over the author list. */
  method ParseArticle(a: Article) returns (r: Option<PaperRecord>)
    ensures r == ParsedArticle(a)
  {
    if a.Unreadable? {
      return None;
    }
    var year: Option<int> := None;
    if a.year.Some? {
      year := ParseInt(a.year.value);
    }
    var authors := CollectAuthors(a.authorList);
    ParsedFrom(a, authors, year);
    if authors == [] || year.None? || year.value == 0 {
      return None;
    }
    return Some(PaperRecord(a.pmid, a.title, a.journal, year.value, authors, |authors|, []));
  }

  /** The loop of lines 211-224 over `AuthorList`, gathering the names it can form. */
  method CollectAuthors(entries: seq<AuthorEntry>) returns (authors: seq<string>)
    ensures authors == AuthorNames(entries)
  {
    authors := [];
    for k := 0 to |entries|
      invariant authors == AuthorNames(entries[..k])
    {
      AuthorNamesSnoc(entries, k);
      var entry := entries[k];
      if entry.foreName != "" && entry.lastName != "" {
        authors := authors + [entry.foreName + " " + entry.lastName];
      } else if entry.lastName != "" {
        authors := authors + [entry.lastName];
      }
    }
    assert entries[..|entries|] == entries;
  }

  /** The parsed record, given the author names and the parsed year of a readable record. */
  lemma {:induction false} ParsedFrom(a: Article, authors: seq<string>, year: Option<int>)
    requires a.Article? && authors == AuthorNames(a.authorList)
    requires year == if a.year.Some? then ParseInt(a.year.value) else None
    ensures ParsedArticle(a) ==
      if authors == [] || year.None? || year.value == 0 then None
      else Some(PaperRecord(a.pmid, a.title, a.journal, year.value, authors, |authors|, []))
  {
    assert YearOf(a.year) == if year.None? || year.value == 0 then None else year;
  }

  lemma {:induction false} AuthorNamesSnoc(entries: seq<AuthorEntry>, k: nat)
    requires k < |entries|
    ensures var n := AuthorName(entries[k]);
      AuthorNames(entries[..k + 1]) == AuthorNames(entries[..k]) + (if n.Some? then [n.value] else [])
  {
    assert entries[..k + 1][..k] == entries[..k];
  }

  // ---- fetch_paper_details (lines 138-180) ----

  /** The efetch and read of one batch of PMIDs: its `PubmedArticle` records, or `None` if it raised. */
  type Efetch = seq<string> -> Option<seq<Article>>

  /** The papers parsed from a list of records, skipping those that give `None`. */
  function ParsedPapers(records: seq<Article>): seq<PaperRecord> {
    if records == [] then []
    else
      var init := records[..|records| - 1];
      var p := ParsedArticle(records[|records| - 1]);
      ParsedPapers(init) + (if p.Some? then [p.value] else [])
  }

  /** The papers of each batch in turn; a batch that raised contributes nothing. */
  function BatchPapers(batches: seq<seq<string>>, efetch: Efetch): seq<PaperRecord> {
    if batches == [] then []
    else
      var records := efetch(batches[0]);
      (if records.Some? then ParsedPapers(records.value) else []) + BatchPapers(batches[1..], efetch)
  }

  /** `fetch_paper_details(pmids, batch_size)`. */
  method FetchPaperDetails(pmids: seq<string>, batchSize: nat, efetch: Efetch) returns (papers: seq<PaperRecord>)
    requires batchSize > 0
    ensures papers == BatchPapers(Batches(pmids, batchSize), efetch)
  {
    papers := [];
    var i := 0;
    assert pmids[i..] == pmids;
    while i < |pmids|
      invariant i <= |pmids|
      invariant papers + BatchPapers(Batches(pmids[i..], batchSize), efetch) == BatchPapers(Batches(pmids, batchSize), efetch)
      decreases |pmids| - i
    {
      var end := if i + batchSize <= |pmids| then i + batchSize else |pmids|;
      var batch := pmids[i..end];
      var fetched := FetchBatch(batch, efetch);
      PapersStep(pmids, i, end, batchSize, efetch, papers, fetched);
      papers := papers + fetched;
      i := end;
    }
    assert pmids[i..] == [];
  }

  /** The body of the batch loop: fetch, then parse every record that came back. */
  method FetchBatch(batch: seq<string>, efetch: Efetch) returns (fetched: seq<PaperRecord>)
    ensures fetched == (if efetch(batch).Some? then ParsedPapers(efetch(batch).value) else [])
  {
    var records := efetch(batch);
    fetched := [];
    if records.None? {
      return;
    }
    var recs := records.value;
    for k := 0 to |recs|
      invariant fetched == ParsedPapers(recs[..k])
    {
      assert recs[..k + 1][..k] == recs[..k];
      var paper := ParseArticle(recs[k]);
      if paper.Some? {
        fetched := fetched + [paper.value];
      }
    }
    assert recs[..|recs|] == recs;
  }

  /** The papers from offset `i` on: those of the slice `[i, end)` and then the rest. */
  lemma {:induction false} PapersFrom(pmids: seq<string>, i: nat, end: nat, size: nat, efetch: Efetch)
    requires size > 0 && i < |pmids| && end == (if i + size <= |pmids| then i + size else |pmids|)
    ensures BatchPapers(Batches(pmids[i..], size), efetch) ==
      (if efetch(pmids[i..end]).Some? then ParsedPapers(efetch(pmids[i..end]).value) else []) +
      BatchPapers(Batches(pmids[end..], size), efetch)
  {
    BatchesFrom(pmids, i, size);
    var bs := Batches(pmids[i..], size);
    assert bs[0] == pmids[i..end];
    assert bs[1..] == Batches(pmids[end..], size);
  }

  lemma {:induction false} PapersStep(pmids: seq<string>, i: nat, end: nat, size: nat, efetch: Efetch,
                   papers: seq<PaperRecord>, fetched: seq<PaperRecord>)
    requires size > 0 && i < |pmids| && end == (if i + size <= |pmids| then i + size else |pmids|)
    requires fetched == (if efetch(pmids[i..end]).Some? then ParsedPapers(efetch(pmids[i..end]).value) else [])
    requires papers + BatchPapers(Batches(pmids[i..], size), efetch) == BatchPapers(Batches(pmids, size), efetch)
    ensures (papers + fetched) + BatchPapers(Batches(pmids[end..], size), efetch) == BatchPapers(Batches(pmids, size), efetch)
  {
    var rest := BatchPapers(Batches(pmids[end..], size), efetch);
    assert BatchPapers(Batches(pmids[i..], size), efetch) == fetched + rest by {
      PapersFrom(pmids, i, end, size, efetch);
    }
    AppendAssoc(papers, fetched, rest);
  }

  /** Every paper comes from a record of a batch that did not raise. */
  lemma {:induction false} ParsedPapersFrom(records: seq<Article>)
    ensures forall p :: p in ParsedPapers(records) ==> exists a :: a in records && ParsedArticle(a) == Some(p)
  {
    if records != [] {
      var init := records[..|records| - 1];
      ParsedPapersFrom(init);
      assert records == init + [records[|records| - 1]];
    }
  }
}
