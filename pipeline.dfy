/**
 * The pipeline helpers of pipeline.py: author positions on the paper records, the
 * paper-to-author expansion, the per-author gender lookup with the P(female) conversion,
 * and the COVID-period windows of the analysis step.
 *
 * `eval` of a stored positions string is an uninterpreted parser.  Table cells that pandas
 * may hold as `None`, NaN, a string or an integer are kept apart, because Python truthiness
 * tells them apart in the `pmid` fallback.
 */
module Pipeline {
  import opened Wrappers
  import opened Strs
  import opened GenderUtils
  import opened Bootstrap

  // ---- add_author_positions (lines 362-367) ----

  /** A paper record: its `authors` entry (`None` when the key is absent) and its `positions`. */
  class Paper {
    var authors: Option<seq<string>>
    var positions: seq<(string, Position)>

    constructor (authors: Option<seq<string>>)
      ensures this.authors == authors && this.positions == []
    {
      this.authors := authors;
      this.positions := [];
    }
  }

  /**
   * The positions `add_author_positions` gives a paper: `paper.get("authors", [])` labelled,
   * each author in order with the label the reference scheme gives its index.
   */
  function PositionsFor(authors: Option<seq<string>>): (ps: seq<(string, Position)>)
    ensures var a := authors.GetOr([]);
      |ps| == |a| && forall i :: 0 <= i < |ps| ==> ps[i] == (a[i], PositionLabel(|a|, i))
    ensures authors.None? ==> ps == []
  {
    AssignPositionsLabels(authors.GetOr([]));
    AssignPositions(authors.GetOr([]))
  }

  /** `add_author_positions`: label every paper in place and hand back the same list. */
  method AddAuthorPositions(papers: seq<Paper>) returns (r: seq<Paper>)
    modifies set p | p in papers
    ensures r == papers
    ensures forall p :: p in papers ==> p.authors == old(p.authors) && p.positions == PositionsFor(p.authors)
  {
    var i := 0;
    while i < |papers|
      invariant 0 <= i <= |papers|
      invariant forall p :: p in papers ==> p.authors == old(p.authors)
      invariant forall p :: p in papers[..i] ==> p.positions == PositionsFor(p.authors)
    {
      var paper := papers[i];
      paper.positions := AssignPositions(paper.authors.GetOr([]));
      assert papers[..i + 1] == papers[..i] + [paper];
      i := i + 1;
    }
    assert papers[..i] == papers;
    return papers;
  }

  // ---- expand_author_positions (lines 370-389) ----

  /** A cell that may be missing (`None`), NaN, a string or an integer. */
  datatype Cell = Absent | NaN | Str(s: string) | Num(n: int)

  /** Python truthiness of a cell: NaN is truthy, the empty string and zero are not. */
  predicate Truthy(c: Cell) {
    match c
    case Absent => false
    case NaN => true
    case Str(s) => s != ""
    case Num(n) => n != 0
  }

  /** The `positions` cell: a stored string literal for `eval`, or the list itself. */
  datatype PositionsCell = Literal(text: string) | Pairs(pairs: seq<(string, Position)>)

  /** One paper-level row. */
  datatype PaperRow = PaperRow(pmid: Cell, arxivId: Cell, year: int, dataset: string, positions: PositionsCell)

  /** One author-level row. */
  datatype AuthorRow = AuthorRow(pmid: Cell, year: int, dataset: string, author: string, position: Position)

  /** `row.get("pmid") or row.get("arxiv_id")`. */
  function PmidOf(row: PaperRow): (c: Cell)
    ensures Truthy(row.pmid) ==> c == row.pmid
    ensures !Truthy(row.pmid) ==> c == row.arxivId
  {
    if Truthy(row.pmid) then row.pmid else row.arxivId
  }

  /** The pairs of a row: `eval(positions)` for a string, otherwise the stored list. */
  function PairsOf(row: PaperRow, parse: string -> seq<(string, Position)>): seq<(string, Position)> {
    match row.positions
    case Literal(text) => parse(text)
    case Pairs(ps) => ps
  }

  /** The author rows of one paper, in author order. */
  function ExpandRow(row: PaperRow, parse: string -> seq<(string, Position)>): (out: seq<AuthorRow>)
    ensures |out| == |PairsOf(row, parse)|
  {
    var ps := PairsOf(row, parse);
    seq(|ps|, j requires 0 <= j < |ps| => AuthorRow(PmidOf(row), row.year, row.dataset, ps[j].0, ps[j].1))
  }

  /** The author rows of all papers: paper order, then author order, one row per pair. */
  function Expand(rows: seq<PaperRow>, parse: string -> seq<(string, Position)>): (out: seq<AuthorRow>)
    ensures |out| == Offset(rows, parse, |rows|)
  {
    if rows == [] then [] else ExpandRow(rows[0], parse) + Expand(rows[1..], parse)
  }

  /** The number of author rows before paper `i`. */
  function Offset(rows: seq<PaperRow>, parse: string -> seq<(string, Position)>, i: nat): nat
    requires i <= |rows|
  {
    if i == 0 then 0 else |PairsOf(rows[0], parse)| + Offset(rows[1..], parse, i - 1)
  }

  /**
   * Author `j` of paper `i` is output row `Offset(i) + j`; it carries the paper's `year`,
   * `dataset` and PMID-or-arXiv id and the pair's author and position.  There are
   * `Offset(|rows|)` rows in all.
   */
  lemma {:induction false} ExpandIndex(rows: seq<PaperRow>, parse: string -> seq<(string, Position)>, i: nat, j: nat)
    requires i < |rows| && j < |PairsOf(rows[i], parse)|
    ensures |Expand(rows, parse)| == Offset(rows, parse, |rows|)
    ensures Offset(rows, parse, i) + j < |Expand(rows, parse)|
    ensures var ps := PairsOf(rows[i], parse);
      Expand(rows, parse)[Offset(rows, parse, i) + j] ==
        AuthorRow(PmidOf(rows[i]), rows[i].year, rows[i].dataset, ps[j].0, ps[j].1)
    decreases |rows|
  {
    OffsetBound(rows, parse, i);
    ExpandAt(rows, parse, i, j);
  }

  /** Output row `Offset(i) + j` is row `j` of paper `i`'s own expansion. */
  lemma {:induction false} ExpandAt(rows: seq<PaperRow>, parse: string -> seq<(string, Position)>, i: nat, j: nat)
    requires i < |rows| && j < |PairsOf(rows[i], parse)|
    ensures Offset(rows, parse, i) + j < |Expand(rows, parse)|
    ensures Expand(rows, parse)[Offset(rows, parse, i) + j] == ExpandRow(rows[i], parse)[j]
    decreases |rows|, 1
  {
    if i > 0 {
      ExpandAtLater(rows, parse, i, j);
    } else {
      ExpandAtFirst(rows, parse, j);
    }
  }

  /** The rows of the first paper open the output. */
  lemma {:induction false} ExpandAtFirst(rows: seq<PaperRow>, parse: string -> seq<(string, Position)>, j: nat)
    requires 0 < |rows| && j < |PairsOf(rows[0], parse)|
    ensures Offset(rows, parse, 0) + j < |Expand(rows, parse)|
    ensures Expand(rows, parse)[Offset(rows, parse, 0) + j] == ExpandRow(rows[0], parse)[j]
  {
    var head := ExpandRow(rows[0], parse);
    assert Expand(rows, parse) == head + Expand(rows[1..], parse);
    assert (head + Expand(rows[1..], parse))[j] == head[j];
  }

  /** The rows of a later paper sit where they sit in the output of the papers after the first. */
  lemma {:induction false} ExpandAtLater(rows: seq<PaperRow>, parse: string -> seq<(string, Position)>, i: nat, j: nat)
    requires 0 < i < |rows| && j < |PairsOf(rows[i], parse)|
    ensures Offset(rows, parse, i) + j < |Expand(rows, parse)|
    ensures Expand(rows, parse)[Offset(rows, parse, i) + j] == ExpandRow(rows[i], parse)[j]
    decreases |rows|, 0
  {
    var rest := rows[1..];
    assert rest[i - 1] == rows[i];
    ExpandAt(rest, parse, i - 1, j);
    ExpandShift(rows, parse, i, j);
    calc {
      Expand(rows, parse)[Offset(rows, parse, i) + j];
      == // ExpandShift
      Expand(rest, parse)[Offset(rest, parse, i - 1) + j];
      == // ExpandAt on the papers after the first
      ExpandRow(rest[i - 1], parse)[j];
    }
  }

  /** Past the first paper, output row `Offset(i) + j` is that row of the other papers' output. */
  lemma {:induction false} ExpandShift(rows: seq<PaperRow>, parse: string -> seq<(string, Position)>, i: nat, j: nat)
    requires 0 < i < |rows| && Offset(rows[1..], parse, i - 1) + j < |Expand(rows[1..], parse)|
    ensures Offset(rows, parse, i) + j < |Expand(rows, parse)|
    ensures Expand(rows, parse)[Offset(rows, parse, i) + j] ==
      Expand(rows[1..], parse)[Offset(rows[1..], parse, i - 1) + j]
  {
    var head, tail := ExpandRow(rows[0], parse), Expand(rows[1..], parse);
    assert Expand(rows, parse) == head + tail;
    var o := Offset(rows[1..], parse, i - 1);
    assert Offset(rows, parse, i) == |head| + o;
    assert (head + tail)[|head| + o + j] == tail[o + j];
  }

  lemma {:induction false} OffsetBound(rows: seq<PaperRow>, parse: string -> seq<(string, Position)>, i: nat)
    requires i < |rows|
    ensures Offset(rows, parse, i) + |PairsOf(rows[i], parse)| <= Offset(rows, parse, |rows|)
    decreases i
  {
    if i > 0 {
      OffsetBound(rows[1..], parse, i - 1);
      assert rows[1..][i - 1] == rows[i];
    } else {
      OffsetMonotone(rows[1..], parse, |rows| - 1);
    }
  }

  lemma {:induction false} OffsetMonotone(rows: seq<PaperRow>, parse: string -> seq<(string, Position)>, i: nat)
    requires i <= |rows|
    ensures 0 <= Offset(rows, parse, i)
  {
  }

  /** `expand_author_positions`: the outer loop over papers. */
  method ExpandAuthorPositions(rows: seq<PaperRow>, parse: string -> seq<(string, Position)>) returns (out: seq<AuthorRow>)
    ensures out == Expand(rows, parse)
  {
    out := [];
    var i := 0;
    while i < |rows|
      invariant 0 <= i <= |rows|
      invariant out + Expand(rows[i..], parse) == Expand(rows, parse)
    {
      var authorRows := ExpandPaper(rows[i], parse);
      ExpandFrom(rows, parse, i);
      out := out + authorRows;
      i := i + 1;
    }
    assert rows[i..] == [];
  }

  /** The inner loop of `expand_author_positions`: one author row per pair of the paper. */
  method ExpandPaper(row: PaperRow, parse: string -> seq<(string, Position)>) returns (out: seq<AuthorRow>)
    ensures out == ExpandRow(row, parse)
  {
    var pairs := match row.positions case Literal(text) => parse(text) case Pairs(ps) => ps;
    out := [];
    for j := 0 to |pairs|
      invariant |out| == j
      invariant forall k :: 0 <= k < j ==> out[k] == AuthorRow(PmidOf(row), row.year, row.dataset, pairs[k].0, pairs[k].1)
    {
      out := out + [AuthorRow(PmidOf(row), row.year, row.dataset, pairs[j].0, pairs[j].1)];
    }
  }

  /** The author rows from paper `i` on: those of paper `i`, then the rest. */
  lemma {:induction false} ExpandFrom(rows: seq<PaperRow>, parse: string -> seq<(string, Position)>, i: nat)
    requires i < |rows|
    ensures Expand(rows[i..], parse) == ExpandRow(rows[i], parse) + Expand(rows[i + 1..], parse)
  {
    assert rows[i..][0] == rows[i] && rows[i..][1..] == rows[i + 1..];
  }

  // ---- infer_gender_batch (lines 392-420) ----

  /**
   * `author.split()[0] if author else ""`; `None` where `split()[0]` raises.  The empty
   * author gives `""`; a non-empty one fails exactly when it is all whitespace, and
   * otherwise gives its first token.
   */
  function FirstName(author: string): (r: Option<string>)
    ensures author == [] ==> r == Some("")
    ensures author != [] ==> (r.None? <==> AllSpace(author))
    ensures author != [] && r.Some? ==> r.value != [] && NoSpace(r.value) && r.value == Split(author)[0]
  {
    SplitEmpty(author);
    if author == [] then Some("")
    else
      var parts := Split(author);
      if parts == [] then None else Some(parts[0])
  }

  /** The first name is the first token after the leading whitespace, up to the next whitespace. */
  lemma {:induction false} FirstNameToken(author: string)
    requires !AllSpace(author)
    ensures var t := TrimLeft(author);
      FirstName(author) == Some(t[..WordLength(t)])
  {
    SplitEmpty(author);
    SplitFirst(author);
  }

  /** `df["author"].unique()`: the distinct authors in order of first appearance. */
  function Unique(xs: seq<string>): (u: seq<string>)
    ensures forall i, j :: 0 <= i < j < |u| ==> u[i] != u[j]
    ensures forall x :: x in u <==> x in xs
  {
    if xs == [] then []
    else
      var u := Unique(xs[..|xs| - 1]);
      var x := xs[|xs| - 1];
      assert xs == xs[..|xs| - 1] + [x];
      if x in u then u else u + [x]
  }

  /** The index of the first occurrence of `x` in `xs`. */
  function FirstIndex(xs: seq<string>, x: string): (k: nat)
    requires x in xs
    ensures k < |xs| && xs[k] == x && x !in xs[..k]
  {
    if xs[0] == x then 0
    else
      assert xs[1..][..FirstIndex(xs[1..], x)] == xs[1..1 + FirstIndex(xs[1..], x)];
      1 + FirstIndex(xs[1..], x)
  }

  /** Only one index holds the first occurrence. */
  lemma {:induction false} FirstIndexAt(xs: seq<string>, x: string, k: nat)
    requires k < |xs| && xs[k] == x && x !in xs[..k]
    ensures FirstIndex(xs, x) == k
  {
  }

  /** Every element of `u` occurs in `xs`, and `u` lists them in the order of their first occurrence there. */
  predicate FirstOrdered(xs: seq<string>, u: seq<string>) {
    forall i, j :: 0 <= i < j < |u| ==> u[i] in xs && u[j] in xs && FirstIndex(xs, u[i]) < FirstIndex(xs, u[j])
  }

  /** Appending leaves the first occurrence of an earlier value where it was. */
  lemma {:induction false} FirstIndexSnoc(xs: seq<string>, x: string, y: string)
    requires y in xs
    ensures FirstIndex(xs + [x], y) == FirstIndex(xs, y)
  {
    var k := FirstIndex(xs, y);
    assert (xs + [x])[..k] == xs[..k];
    FirstIndexAt(xs + [x], y, k);
  }

  /** A new value first occurs at the end. */
  lemma {:induction false} FirstIndexLast(xs: seq<string>, x: string)
    requires x !in xs
    ensures FirstIndex(xs + [x], x) == |xs|
  {
    assert (xs + [x])[..|xs|] == xs;
    FirstIndexAt(xs + [x], x, |xs|);
  }

  /** An ordering by first occurrence survives appending to the column, and a new value may follow. */
  lemma {:induction false} FirstOrderedSnoc(xs: seq<string>, x: string, u: seq<string>)
    requires FirstOrdered(xs, u)
    requires forall y :: y in u ==> y in xs
    ensures FirstOrdered(xs + [x], u)
    ensures x !in xs ==> FirstOrdered(xs + [x], u + [x])
  {
    forall i | 0 <= i < |u|
      ensures u[i] in xs + [x] && FirstIndex(xs + [x], u[i]) == FirstIndex(xs, u[i])
    {
      FirstIndexSnoc(xs, x, u[i]);
    }
    if x !in xs {
      FirstIndexLast(xs, x);
      var v := u + [x];
      forall i, j | 0 <= i < j < |v|
        ensures v[i] in xs + [x] && v[j] in xs + [x] && FirstIndex(xs + [x], v[i]) < FirstIndex(xs + [x], v[j])
      {
        assert v[i] == u[i];
        if j < |u| {
          assert v[j] == u[j];
        }
      }
    }
  }

  /** `unique()` lists the values in the order of their first appearance in the column. */
  lemma {:induction false} UniqueFirstAppearance(xs: seq<string>)
    ensures FirstOrdered(xs, Unique(xs))
  {
    if xs != [] {
      var init := xs[..|xs| - 1];
      var x := xs[|xs| - 1];
      UniqueFirstAppearance(init);
      assert xs == init + [x];
      FirstOrderedSnoc(init, x, Unique(init));
    }
  }

  /** `get_p_female`: the female probability as given, one minus the male probability, else `None`. */
  function PFemale(r: GenderResult): (p: Option<real>)
    ensures r.gender == "female" ==> p == r.probability
    ensures r.gender == "male" ==>
      (p.Some? <==> r.probability.Some?) && (p.Some? ==> p.value == 1.0 - r.probability.value)
    ensures r.gender != "female" && r.gender != "male" ==> p.None?
  {
    if r.gender == "female" then r.probability
    else if r.gender == "male" then (if r.probability.Some? then Some(1.0 - r.probability.value) else None)
    else None
  }

  /**
   * For a lookup result as the engine produces it, P(female) is missing for unknowns and
   * otherwise never strictly between 0.3 and 0.7; the detector's answers give exactly
   * 1.0, 0.75, 0.25 or 0.0.
   */
  lemma {:induction false} PFemaleConfident(r: GenderResult)
    requires Proper(r)
    ensures r.source.None? ==> PFemale(r).None?
    ensures PFemale(r).Some? ==> PFemale(r).value <= 0.3 || PFemale(r).value >= 0.7
    ensures r.source == Some(GenderGuesser) ==>
      PFemale(r) in {Some(1.0), Some(0.75), Some(0.25), Some(0.0)}
  {
    if r.source.Some? {
      ProperConfidence(r);
    }
  }

  /** An author-level row with the three columns the lookup adds. */
  datatype GenderRow = GenderRow(row: AuthorRow, pFemale: Option<real>, gender: string, source: Option<Source>)

  function Annotate(row: AuthorRow, r: GenderResult): GenderRow {
    GenderRow(row, PFemale(r), r.gender, r.source)
  }

  /** Every row's author has an entry in the table. */
  predicate Covers(rows: seq<AuthorRow>, table: map<string, GenderResult>) {
    forall j :: 0 <= j < |rows| ==> rows[j].author in table
  }

  /** The `p_female`, `gender` and `source` columns mapped from each row's author. */
  function AnnotateAll(rows: seq<AuthorRow>, table: map<string, GenderResult>): (out: seq<GenderRow>)
    requires Covers(rows, table)
    ensures |out| == |rows|
    ensures forall j :: 0 <= j < |rows| ==> out[j].row == rows[j] && out[j] == Annotate(rows[j], table[rows[j].author])
  {
    seq(|rows|, j requires 0 <= j < |rows| => Annotate(rows[j], table[rows[j].author]))
  }

  /** Rows with the same author get the same three columns. */
  lemma {:induction false} SameAuthorSameColumns(rows: seq<AuthorRow>, table: map<string, GenderResult>, i: nat, j: nat)
    requires Covers(rows, table) && i < |rows| && j < |rows| && rows[i].author == rows[j].author
    ensures var out := AnnotateAll(rows, table);
      out[i].pFemale == out[j].pFemale && out[i].gender == out[j].gender && out[i].source == out[j].source
  {
  }

  /** The number of leading authors whose first name can be extracted. */
  function Extractable(authors: seq<string>): (k: nat)
    ensures k <= |authors|
    ensures forall i :: 0 <= i < k ==> FirstName(authors[i]).Some?
    ensures k < |authors| ==> FirstName(authors[k]).None?
  {
    var firsts := seq(|authors|, i requires 0 <= i < |authors| => FirstName(authors[i]));
    var k := FirstNone(firsts, 0);
    assert forall i :: 0 <= i < k ==> firsts[i] == FirstName(authors[i]);
    k
  }

  /** The first position at or after `start` holding `None`, or the end. */
  function FirstNone<T>(xs: seq<Option<T>>, start: nat): (k: nat)
    requires start <= |xs|
    ensures start <= k <= |xs|
    ensures forall i :: start <= i < k ==> xs[i].Some?
    ensures k < |xs| ==> xs[k].None?
    decreases |xs| - start
  {
    if start == |xs| || xs[start].None? then start
    else FirstNone(xs, start + 1)
  }

  /** Below the extractable prefix's end, a name extends the prefix exactly when it has a first name. */
  lemma {:induction false} ExtractableAt(authors: seq<string>, i: nat)
    requires i <= Extractable(authors) && i < |authors|
    ensures FirstName(authors[i]).Some? <==> i < Extractable(authors)
  {
  }

  /** The first names of `authors`; used only where every one of them is extractable. */
  function FirstNames(authors: seq<string>): (names: seq<string>)
    ensures |names| == |authors|
  {
    seq(|authors|, i requires 0 <= i < |authors| => FirstName(authors[i]).GetOr(""))
  }

  lemma {:induction false} FirstNamesSnoc(authors: seq<string>, i: nat)
    requires i < |authors|
    ensures FirstNames(authors[..i + 1]) == FirstNames(authors[..i]) + [FirstName(authors[i]).GetOr("")]
  {
    var a := FirstNames(authors[..i + 1]);
    var b := FirstNames(authors[..i]) + [FirstName(authors[i]).GetOr("")];
    forall k | 0 <= k < |a|
      ensures a[k] == b[k]
    {
      if k < i {
        assert authors[..i + 1][k] == authors[..i][k];
      }
    }
  }

  /** The dict `author_to_gender` built from parallel lists (a later key wins). */
  function Table(authors: seq<string>, results: seq<GenderResult>): map<string, GenderResult>
    requires |authors| == |results|
  {
    if authors == [] then map[]
    else Table(authors[..|authors| - 1], results[..|results| - 1])[authors[|authors| - 1] := results[|results| - 1]]
  }

  /** The table's keys are the authors. */
  lemma {:induction false} TableKeys(authors: seq<string>, results: seq<GenderResult>)
    requires |authors| == |results|
    ensures Table(authors, results).Keys == set a | a in authors
    decreases |authors|
  {
    if authors != [] {
      var n := |authors| - 1;
      TableKeys(authors[..n], results[..n]);
      assert authors == authors[..n] + [authors[n]];
      assert (set a | a in authors) == (set a | a in authors[..n]) + {authors[n]};
    }
  }

  /** Over distinct authors the table maps each author to its own result and has no other key. */
  lemma {:induction false} TableLookup(authors: seq<string>, results: seq<GenderResult>)
    requires |authors| == |results|
    requires forall i, j :: 0 <= i < j < |authors| ==> authors[i] != authors[j]
    ensures Table(authors, results).Keys == set a | a in authors
    ensures forall i :: 0 <= i < |authors| ==> Table(authors, results)[authors[i]] == results[i]
  {
    TableKeys(authors, results);
    TableValues(authors, results);
  }

  /** Over distinct authors each author's entry is its own result. */
  lemma {:induction false} TableValues(authors: seq<string>, results: seq<GenderResult>)
    requires |authors| == |results|
    requires forall i, j :: 0 <= i < j < |authors| ==> authors[i] != authors[j]
    ensures forall i :: 0 <= i < |authors| ==> authors[i] in Table(authors, results) && Table(authors, results)[authors[i]] == results[i]
    decreases |authors|
  {
    if authors != [] {
      var n := |authors| - 1;
      TableValues(authors[..n], results[..n]);
      var t := Table(authors[..n], results[..n]);
      assert Table(authors, results) == t[authors[n] := results[n]];
      forall i | 0 <= i < n
        ensures Table(authors, results)[authors[i]] == results[i]
      {
        assert authors[..n][i] == authors[i];
        assert results[..n][i] == results[i];
      }
    }
  }

  /**
   * `infer_gender_batch`: one lookup per distinct author, in order of first appearance, then
   * each row annotated from its author's result.  `None` when an author is blank, which
   * raises at `split()[0]`; the lookups before it have already reached the cache.
   */
  method InferGenderBatch(gi: GenderInference, rows: seq<AuthorRow>) returns (out: Option<seq<GenderRow>>)
    modifies gi
    ensures var uniq := Unique(Authors(rows));
      var k := Extractable(uniq);
      var (c, rs) := InferAll(old(gi.cache), gi.detector, gi.genderize, FirstNames(uniq[..k]));
      && gi.cache == c
      && (out.Some? <==> k == |uniq|)
      && (out.Some? ==> Covers(rows, Table(uniq, rs)) && out.value == AnnotateAll(rows, Table(uniq, rs)))
  {
    var uniq := Unique(Authors(rows));
    var table := LookupAuthors(gi, uniq);
    if table.None? {
      return None;
    }
    ghost var rs := InferAll(old(gi.cache), gi.detector, gi.genderize, FirstNames(uniq)).1;
    assert uniq[..|uniq|] == uniq;
    TableKeys(uniq, rs);
    assert forall j :: 0 <= j < |rows| ==> Authors(rows)[j] in Authors(rows);
    out := Some(AnnotateAll(rows, table.value));
  }

  /** The `author` column. */
  function Authors(rows: seq<AuthorRow>): (authors: seq<string>)
    ensures |authors| == |rows| && forall j :: 0 <= j < |rows| ==> authors[j] == rows[j].author
  {
    seq(|rows|, j requires 0 <= j < |rows| => rows[j].author)
  }

  /** The loop of lines 397-403: look each distinct author's first name up and record the result. */
  method LookupAuthors(gi: GenderInference, uniq: seq<string>) returns (table: Option<map<string, GenderResult>>)
    modifies gi
    ensures var k := Extractable(uniq);
      var (c, rs) := InferAll(old(gi.cache), gi.detector, gi.genderize, FirstNames(uniq[..k]));
      && gi.cache == c
      && (table.Some? <==> k == |uniq|)
      && (table.Some? ==> table.value == Table(uniq, rs))
  {
    var t: map<string, GenderResult> := map[];
    ghost var names: seq<string> := [];
    ghost var results: seq<GenderResult> := [];
    var i := 0;
    while i < |uniq|
      invariant 0 <= i <= Extractable(uniq)
      invariant names == FirstNames(uniq[..i])
      invariant (gi.cache, results) == InferAll(old(gi.cache), gi.detector, gi.genderize, names)
      invariant t == Table(uniq[..i], results)
    {
      var first := FirstName(uniq[i]);
      ExtractableAt(uniq, i);
      if first.None? {
        assert Extractable(uniq) == i;
        return None;
      }
      ghost var c := gi.cache;
      var r := gi.InferGender(first.value);
      LookupStep(old(gi.cache), gi.detector, gi.genderize, uniq, i, names, results, t, c, first.value, gi.cache, r);
      t := t[uniq[i] := r];
      names := names + [first.value];
      results := results + [r];
      i := i + 1;
    }
    assert Extractable(uniq) == i && uniq[..i] == uniq;
    return Some(t);
  }

  /** One round of the lookup loop keeps the names, the cache and results, and the table in step. */
  lemma {:induction false} LookupStep(cache0: Cache, detector: string -> Verdict, genderize: string -> GenderizeReply,
                                      uniq: seq<string>, i: nat, names: seq<string>, results: seq<GenderResult>,
                                      t: map<string, GenderResult>, c: Cache, first: string, c2: Cache, r: GenderResult)
    requires i < |uniq| && FirstName(uniq[i]) == Some(first)
    requires names == FirstNames(uniq[..i]) && (c, results) == InferAll(cache0, detector, genderize, names)
    requires t == Table(uniq[..i], results) && (c2, r) == InferStep(c, detector, genderize, first)
    ensures names + [first] == FirstNames(uniq[..i + 1])
    ensures (c2, results + [r]) == InferAll(cache0, detector, genderize, names + [first])
    ensures |uniq[..i + 1]| == |results + [r]| && t[uniq[i] := r] == Table(uniq[..i + 1], results + [r])
  {
    FirstNamesSnoc(uniq, i);
    InferAllSnoc(cache0, detector, genderize, names, first);
    var u := uniq[..i + 1];
    assert u[..i] == uniq[..i] && u[i] == uniq[i];
    assert (results + [r])[..|results|] == results;
  }

  /**
   * Each distinct author is looked up exactly once: from a well-formed cache the table holds
   * every author, under its own first name, with a proper result.
   */
  lemma {:induction false} LookupPerAuthor(cache: Cache, detector: string -> Verdict, genderize: string -> GenderizeReply, uniq: seq<string>)
    requires WellFormed(cache)
    requires forall i, j :: 0 <= i < j < |uniq| ==> uniq[i] != uniq[j]
    requires forall i :: 0 <= i < |uniq| ==> FirstName(uniq[i]).Some?
    ensures var (c, rs) := InferAll(cache, detector, genderize, FirstNames(uniq));
      var t := Table(uniq, rs);
      && t.Keys == (set a | a in uniq)
      && forall i :: 0 <= i < |uniq| ==>
           t[uniq[i]] == rs[i] && t[uniq[i]].name == FirstName(uniq[i]).value && Proper(t[uniq[i]])
  {
    var (c, rs) := InferAll(cache, detector, genderize, FirstNames(uniq));
    InferAllWellFormed(cache, detector, genderize, FirstNames(uniq));
    TableLookup(uniq, rs);
  }

  // ---- The COVID-period windows of the analysis step (lines 222-243) ----

  /** The three named windows, each an inclusive pair of years. */
  const Periods: seq<(string, int, int)> := [
    ("Pre-COVID (2018-2019)", 2018, 2019),
    ("Pandemic (2020-2021)", 2020, 2021),
    ("Recovery (2022-2023)", 2022, 2023)
  ]

  /** The iteration count `bootstrap_pfemale` uses by default. */
  const DefaultIterations: nat := 1000

  /** A row of the PubMed frame: its year (missing years compare false) and its P(female). */
  datatype YearRow = YearRow(year: Option<int>, pFemale: Prob)

  predicate InWindow(r: YearRow, start: int, end: int) {
    r.year.Some? && start <= r.year.value <= end
  }

  /** `df[(df.year >= start) & (df.year <= end)]`, in order. */
  function WindowRows(rows: seq<YearRow>, start: int, end: int): (kept: seq<YearRow>)
    ensures |kept| <= |rows|
    ensures forall r :: r in kept <==> r in rows && InWindow(r, start, end)
  {
    if rows == [] then []
    else
      assert rows == [rows[0]] + rows[1..];
      (if InWindow(rows[0], start, end) then [rows[0]] else []) + WindowRows(rows[1..], start, end)
  }

  function ProbsOf(rows: seq<YearRow>): (ps: seq<Prob>)
    ensures |ps| == |rows|
  {
    seq(|rows|, i requires 0 <= i < |rows| => rows[i].pFemale)
  }

  /** One row of the COVID table. */
  datatype PeriodRow = PeriodRow(period: string, estimate: Option<Estimate>, n: nat)

  /**
   * The row of one period: its name, the estimate over the rows in its year window (none
   * when no P(female) there survives the filter) and the number of those rows.
   */
  function PeriodResult(rows: seq<YearRow>, period: (string, int, int), draw: Draw): (r: PeriodRow)
    ensures r.period == period.0 && r.n == |WindowRows(rows, period.1, period.2)|
    ensures r.estimate.None? <==> Retained(ProbsOf(WindowRows(rows, period.1, period.2))) == []
  {
    var kept := WindowRows(rows, period.1, period.2);
    PeriodRow(period.0, BootstrapSpec(ProbsOf(kept), DefaultIterations, draw), |kept|)
  }

  /** The COVID-impact loop: one estimate per window, `draws[i]` driving window `i`. */
  method CovidImpact(rows: seq<YearRow>, draws: seq<Draw>) returns (results: seq<PeriodRow>)
    requires |draws| == |Periods|
    ensures |results| == |Periods|
    ensures forall i :: 0 <= i < |Periods| ==> results[i] == PeriodResult(rows, Periods[i], draws[i])
  {
    results := [];
    var i := 0;
    while i < |Periods|
      invariant 0 <= i <= |Periods|
      invariant |results| == i
      invariant forall j :: 0 <= j < i ==> results[j] == PeriodResult(rows, Periods[j], draws[j])
    {
      var (name, start, end) := Periods[i];
      var kept := WindowRows(rows, start, end);
      var estimate := BootstrapPFemale(ProbsOf(kept), DefaultIterations, draws[i]);
      results := results + [PeriodRow(name, estimate, |kept|)];
      i := i + 1;
    }
  }

  /** The number of the three windows that hold a row: at most one, as they do not overlap. */
  function WindowsHolding(r: YearRow): (k: nat)
    ensures k <= 1
  {
    (if InWindow(r, Periods[0].1, Periods[0].2) then 1 else 0) +
    (if InWindow(r, Periods[1].1, Periods[1].2) then 1 else 0) +
    (if InWindow(r, Periods[2].1, Periods[2].2) then 1 else 0)
  }

  /** The rows of the three windows together are at most all the rows: each row lies in one window at most. */
  lemma {:induction false} WindowsTotal(rows: seq<YearRow>)
    ensures |WindowRows(rows, Periods[0].1, Periods[0].2)| + |WindowRows(rows, Periods[1].1, Periods[1].2)| +
      |WindowRows(rows, Periods[2].1, Periods[2].2)| <= |rows|
  {
    if rows != [] {
      WindowsTotal(rows[1..]);
      assert WindowsHolding(rows[0]) <= 1;
    }
  }

  /** Over any rows and draws, the `n` of the three periods add up to at most the number of rows. */
  lemma {:induction false} PeriodsDisjoint(rows: seq<YearRow>, draws: seq<Draw>)
    requires |draws| == |Periods|
    ensures PeriodResult(rows, Periods[0], draws[0]).n + PeriodResult(rows, Periods[1], draws[1]).n +
      PeriodResult(rows, Periods[2], draws[2]).n <= |rows|
  {
    WindowsTotal(rows);
  }

  /** `n` counts every kept row, including those whose P(female) is missing or NaN. */
  lemma {:induction false} PeriodCount(rows: seq<YearRow>, period: (string, int, int), draw: Draw)
    ensures var kept := WindowRows(rows, period.1, period.2);
      PeriodResult(rows, period, draw).n == |kept| >= |Retained(ProbsOf(kept))|
      && (|Retained(ProbsOf(kept))| < |kept| <== exists k :: 0 <= k < |kept| && !kept[k].pFemale.Val?)
  {
    var kept := WindowRows(rows, period.1, period.2);
    NotNullCountSplits(ProbsOf(kept));
    if exists k :: 0 <= k < |kept| && !kept[k].pFemale.Val? {
      var k :| 0 <= k < |kept| && !kept[k].pFemale.Val?;
      RetainedShorter(ProbsOf(kept), k);
    }
  }
}
