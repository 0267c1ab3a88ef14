/**
 * Turning the arXiv result stream of one category into preprint rows
 * (src/arxiv_fetcher.py, lines 29-124).
 *
 * The stream `client.results(search)` is given already read, as a sequence of results in
 * the order the client yields them; the query, paging, rate limiting and retries are the
 * client's business.  `str(author)` of an arXiv author is its name.
 */
module ArxivFetcher {
  import opened Wrappers
  import opened Strs

  /** The fields of `result.published` that the model keeps. */
  datatype DateTime = DateTime(year: int, month: int, day: int, hour: int, minute: int, second: int)

  /** An author object of the arxiv library: `str(author)` is `name`. */
  datatype Author = Author(name: string)

  /** One search result, with the attributes `_fetch_category` reads. */
  datatype ArxivResult = ArxivResult(entryId: string, title: string, published: DateTime, authors: seq<Author>)

  /** The preprint dict. */
  datatype Preprint = Preprint(
    arxivId: string, title: string, year: int, publishedDate: DateTime,
    authors: seq<string>, authorCount: nat, category: string, positions: seq<string>)

  const AbsMarker := "/abs/"

  // ---- The arXiv identifier (line 97) ----

  /**
   * `entry_id.split("/abs/")[-1]`.  The identifier ends the entry id and holds no "/abs/";
   * when the entry id holds "/abs/", an occurrence of "/abs/" stands right before the
   * identifier, and otherwise the identifier is the whole entry id.  (Occurrences can
   * overlap: `"/abs/abs/x"` gives `"abs/x"`, not the `"x"` after the last occurrence.)
   */
  function ArxivId(entryId: string): (id: string)
    ensures |id| <= |entryId| && entryId[|entryId| - |id|..] == id && !Contains(id, AbsMarker)
    ensures !Contains(entryId, AbsMarker) ==> id == entryId
    ensures Contains(entryId, AbsMarker) ==>
      var cut := |entryId| - |id| - |AbsMarker|;
      0 <= cut && entryId == entryId[..cut] + AbsMarker + id
  {
    AbsPieceShape(entryId);
    LastPiece(entryId, AbsMarker)
  }

  lemma {:induction false} AbsPieceShape(entryId: string)
    ensures var id := LastPiece(entryId, AbsMarker);
      |id| <= |entryId| && entryId[|entryId| - |id|..] == id && !Contains(id, AbsMarker) &&
      (!Contains(entryId, AbsMarker) ==> id == entryId) &&
      (Contains(entryId, AbsMarker) ==>
        var cut := |entryId| - |id| - |AbsMarker|;
        0 <= cut && entryId == entryId[..cut] + AbsMarker + id)
  {
    var id := LastPiece(entryId, AbsMarker);
    LastPieceSuffix(entryId, AbsMarker);
    SplitOnPiecesFree(entryId, AbsMarker);
    assert !Contains(id, AbsMarker) by {
      var parts := SplitOn(entryId, AbsMarker);
      assert id == parts[|parts| - 1];
    }
    if Contains(entryId, AbsMarker) {
      LastPieceAfterSep(entryId, AbsMarker);
      var cut := |entryId| - |id| - |AbsMarker|;
      assert entryId == entryId[..cut] + entryId[cut..cut + |AbsMarker|] + entryId[cut + |AbsMarker|..];
    }
  }

  /**
   * The split cuts at the first "/abs/" and goes on with the rest: the id of an entry id
   * holding "/abs/" is the id of what follows its first occurrence.  With the whole-entry-id
   * case of `ArxivId`, this fixes the id of every entry id.
   */
  lemma {:induction false} ArxivIdRest(entryId: string)
    requires Contains(entryId, AbsMarker)
    ensures ArxivId(entryId) == ArxivId(entryId[IndexFrom(entryId, AbsMarker, 0).value + |AbsMarker|..])
  {
    LastPieceOfRest(entryId, AbsMarker, IndexFrom(entryId, AbsMarker, 0).value);
  }

  /** Overlapping markers: the split cuts at the first "/abs/", so the id is not what follows the last one. */
  lemma {:induction false} OverlappingMarker()
    ensures ArxivId("/abs/abs/x") == "abs/x"
  {
    assert OccursAt("/abs/abs/x", AbsMarker, 0);
    assert IndexFrom("/abs/abs/x", AbsMarker, 0) == Some(0);
    assert "/abs/abs/x"[5..] == "abs/x";
    assert "abs/x"[0..5][0] != AbsMarker[0];
    assert IndexFrom("abs/x", AbsMarker, 0) == None;
    LastPieceOfRest("/abs/abs/x", AbsMarker, 0);
  }

  // ---- _parse_arxiv_authors (line 124) ----

  /** `[str(author) for author in authors]`: one name per author, in order. */
  function ParseArxivAuthors(authors: seq<Author>): (names: seq<string>)
    ensures |names| == |authors|
    ensures forall i :: 0 <= i < |authors| ==> names[i] == authors[i].name
  {
    if authors == [] then [] else [authors[0].name] + ParseArxivAuthors(authors[1..])
  }

  // ---- _fetch_category (lines 63-109) ----

  /** The year filter: the result is kept unless `year < start_year or year > end_year`. */
  predicate InWindow(r: ArxivResult, startYear: int, endYear: int) {
    !(r.published.year < startYear || r.published.year > endYear)
  }

  /** The dict built for a kept result. */
  function ToPreprint(r: ArxivResult, category: string): (p: Preprint)
    ensures p.arxivId == ArxivId(r.entryId) && p.title == r.title
    ensures p.year == r.published.year && p.publishedDate == r.published
    ensures p.authors == ParseArxivAuthors(r.authors) && p.authorCount == |r.authors|
    ensures p.category == category && p.positions == []
  {
    var authors := seq(|r.authors|, i requires 0 <= i < |r.authors| => r.authors[i].name);
    Preprint(ArxivId(r.entryId), r.title, r.published.year, r.published, authors, |authors|, category, [])
  }

  /**
   * `preprints` after the loop has seen `results`: at most one dict per result, each in the
   * year window and with the shape of lines 96-105.
   */
  function Preprints(results: seq<ArxivResult>, category: string, startYear: int, endYear: int): (ps: seq<Preprint>)
    ensures |ps| <= |results|
    ensures forall p :: p in ps ==>
      startYear <= p.year <= endYear && p.category == category && p.positions == [] &&
      p.authorCount == |p.authors|
  {
    if results == [] then []
    else
      var r := results[|results| - 1];
      Preprints(results[..|results| - 1], category, startYear, endYear) +
      (if InWindow(r, startYear, endYear) then [ToPreprint(r, category)] else [])
  }

  /** The loop of `_fetch_category` over the result stream. */
  method FetchCategory(results: seq<ArxivResult>, category: string, startYear: int, endYear: int)
    returns (preprints: seq<Preprint>)
    ensures preprints == Preprints(results, category, startYear, endYear)
  {
    preprints := [];
    for i := 0 to |results|
      invariant preprints == Preprints(results[..i], category, startYear, endYear)
    {
      assert results[..i + 1][..i] == results[..i];
      var year := results[i].published.year;
      if year < startYear || year > endYear {
        continue;
      }
      var authors := [];
      for k := 0 to |results[i].authors|
        invariant |authors| == k
        invariant forall j :: 0 <= j < k ==> authors[j] == results[i].authors[j].name
      {
        authors := authors + [results[i].authors[k].name];
      }
      assert authors == ParseArxivAuthors(results[i].authors);
      var preprint := Preprint(ArxivId(results[i].entryId), results[i].title, year, results[i].published,
                               authors, |authors|, category, []);
      preprints := preprints + [preprint];
    }
    assert results[..|results|] == results;
  }

  /** `fetch_quantitative_biology`: the q-bio category. */
  method FetchQuantitativeBiology(results: seq<ArxivResult>, startYear: int, endYear: int)
    returns (preprints: seq<Preprint>)
    ensures preprints == Preprints(results, "q-bio", startYear, endYear)
  {
    preprints := FetchCategory(results, "q-bio", startYear, endYear);
  }

  /** `fetch_computer_science`: the cs category. */
  method FetchComputerScience(results: seq<ArxivResult>, startYear: int, endYear: int)
    returns (preprints: seq<Preprint>)
    ensures preprints == Preprints(results, "cs", startYear, endYear)
  {
    preprints := FetchCategory(results, "cs", startYear, endYear);
  }

  // ---- What the output is ----

  /**
   * The output holds exactly the dicts of the results in the year window: every such
   * result gives one, and every dict comes from one.
   */
  lemma {:induction false} PreprintsExact(results: seq<ArxivResult>, category: string, startYear: int, endYear: int)
    ensures forall r :: r in results && InWindow(r, startYear, endYear) ==>
      ToPreprint(r, category) in Preprints(results, category, startYear, endYear)
    ensures forall p :: p in Preprints(results, category, startYear, endYear) ==>
      exists r :: r in results && InWindow(r, startYear, endYear) && p == ToPreprint(r, category)
  {
    if results != [] {
      var init := results[..|results| - 1];
      PreprintsExact(init, category, startYear, endYear);
      assert results == init + [results[|results| - 1]];
    }
  }

  /** Stream order is kept: the output of a concatenated stream is the concatenation of the outputs. */
  lemma {:induction false} PreprintsAppend(a: seq<ArxivResult>, b: seq<ArxivResult>, category: string, startYear: int, endYear: int)
    ensures Preprints(a + b, category, startYear, endYear) ==
      Preprints(a, category, startYear, endYear) + Preprints(b, category, startYear, endYear)
  {
    if b != [] {
      var init := b[..|b| - 1];
      PreprintsAppend(a, init, category, startYear, endYear);
      assert (a + b)[..|a + b| - 1] == a + init;
    } else {
      assert a + b == a;
    }
  }

  /** The positions in the window grow by the last one when it is in the window. */
  lemma {:induction false} WindowIndicesSnoc(results: seq<ArxivResult>, startYear: int, endYear: int)
    requires results != []
    ensures var n := |results| - 1;
      |set i | 0 <= i < |results| && InWindow(results[i], startYear, endYear)| ==
      |set i | 0 <= i < n && InWindow(results[..n][i], startYear, endYear)| +
      (if InWindow(results[n], startYear, endYear) then 1 else 0)
  {
    var n := |results| - 1;
    var init := results[..n];
    var extra := if InWindow(results[n], startYear, endYear) then {n} else {};
    var all := set i | 0 <= i < |results| && InWindow(results[i], startYear, endYear);
    var before := set i | 0 <= i < n && InWindow(init[i], startYear, endYear);
    forall i
      ensures i in all <==> i in before + extra
    {
      if 0 <= i < n {
        assert init[i] == results[i];
      }
    }
    assert all == before + extra;
    assert n !in before;
    assert |before + extra| == |before| + |extra|;
  }

  /** One dict per result in the window. */
  lemma {:induction false} PreprintsCount(results: seq<ArxivResult>, category: string, startYear: int, endYear: int)
    ensures |Preprints(results, category, startYear, endYear)| ==
      |set i | 0 <= i < |results| && InWindow(results[i], startYear, endYear)|
  {
    if results != [] {
      var n := |results| - 1;
      var init := results[..n];
      PreprintsCount(init, category, startYear, endYear);
      WindowIndicesSnoc(results, startYear, endYear);
      assert Preprints(results, category, startYear, endYear) ==
        Preprints(init, category, startYear, endYear) +
        (if InWindow(results[n], startYear, endYear) then [ToPreprint(results[n], category)] else []);
    }
  }
}
