/**
 * Mapping each merged author record to its cached journal quartile
 * (analyze_journal_impact.py, lines 83-126).
 *
 * The closure `assign_quartile_from_db` and the two variables it updates become the class
 * `QuartileAssigner`.  A quartile cell read from the database may be NULL, so the lookup
 * stores `Option<string>`.
 */
module JournalImpact {
  import opened Wrappers
  import opened Seqs

  /**
   * What the closure returns for one journal cell: a quartile exactly when the journal is
   * present and is a key with a non-null quartile, and then that quartile.
   */
  function AssignedQuartile(lookup: map<string, Option<string>>, journal: Option<string>): (q: Option<string>)
    ensures q.Some? <==> journal.Some? && journal.value in lookup && lookup[journal.value].Some?
    ensures q.Some? ==> q == lookup[journal.value]
  {
    if journal.None? then None
    else if journal.value in lookup then lookup[journal.value]
    else None
  }

  /** The number of cells whose journal is a lookup key: rows, not distinct journals. */
  function MatchedRows(lookup: map<string, Option<string>>, journals: seq<Option<string>>): (n: nat)
    ensures n <= |journals|
  {
    if journals == [] then 0
    else
      var j := journals[|journals| - 1];
      MatchedRows(lookup, journals[..|journals| - 1]) + (if j.Some? && j.value in lookup then 1 else 0)
  }

  /** The distinct present journals that are not lookup keys. */
  function UnmatchedSet(lookup: map<string, Option<string>>, journals: seq<Option<string>>): (u: set<string>)
    ensures forall j :: j in u <==> Some(j) in journals && j !in lookup
  {
    set i | 0 <= i < |journals| && journals[i].Some? && journals[i].value !in lookup :: journals[i].value
  }

  /** The counters of the closure and its lookup table. */
  class QuartileAssigner {
    const lookup: map<string, Option<string>>
    var matched: nat
    var unmatchedJournals: set<string>

    constructor (lookup: map<string, Option<string>>)
      ensures this.lookup == lookup && matched == 0 && unmatchedJournals == {}
    {
      this.lookup := lookup;
      matched := 0;
      unmatchedJournals := {};
    }

    /**
     * `assign_quartile_from_db(journal)`: NaN changes nothing; a known journal counts as
     * matched; an unknown one joins the unmatched set.
     */
    method Assign(journal: Option<string>) returns (q: Option<string>)
      modifies this
      ensures q == AssignedQuartile(lookup, journal)
      ensures matched == old(matched) + (if journal.Some? && journal.value in lookup then 1 else 0)
      ensures unmatchedJournals == old(unmatchedJournals) + (if journal.Some? && journal.value !in lookup then {journal.value} else {})
    {
      if journal.None? {
        return None;
      }
      if journal.value in lookup {
        matched := matched + 1;
        return lookup[journal.value];
      } else {
        unmatchedJournals := unmatchedJournals + {journal.value};
        return None;
      }
    }
  }

  /** One row of `merged_df`: the other columns, and the journal cell. */
  datatype MergedRow<R> = MergedRow(rest: R, journal: Option<string>)

  /** The row with its `quartile` column added. */
  datatype QuartileRow<R> = QuartileRow(rest: R, journal: Option<string>, quartile: Option<string>)

  function Journals<R>(rows: seq<MergedRow<R>>): (js: seq<Option<string>>)
    ensures |js| == |rows| && forall i :: 0 <= i < |rows| ==> js[i] == rows[i].journal
  {
    seq(|rows|, i requires 0 <= i < |rows| => rows[i].journal)
  }

  /** Every row with the quartile the closure gives its journal. */
  function WithQuartiles<R>(lookup: map<string, Option<string>>, rows: seq<MergedRow<R>>): (out: seq<QuartileRow<R>>)
    ensures |out| == |rows|
    ensures forall i :: 0 <= i < |rows| ==>
      out[i] == QuartileRow(rows[i].rest, rows[i].journal, AssignedQuartile(lookup, rows[i].journal))
  {
    seq(|rows|, i requires 0 <= i < |rows| => QuartileRow(rows[i].rest, rows[i].journal, AssignedQuartile(lookup, rows[i].journal)))
  }

  /** `merged_df["journal"].apply(assign_quartile_from_db)`, applied row by row in order. */
  method ApplyAssigner<R>(a: QuartileAssigner, rows: seq<MergedRow<R>>) returns (out: seq<QuartileRow<R>>)
    modifies a
    ensures out == WithQuartiles(a.lookup, rows)
    ensures a.matched == old(a.matched) + MatchedRows(a.lookup, Journals(rows))
    ensures a.unmatchedJournals == old(a.unmatchedJournals) + UnmatchedSet(a.lookup, Journals(rows))
  {
    ghost var lookup, matched0, unmatched0 := a.lookup, a.matched, a.unmatchedJournals;
    out := [];
    for i := 0 to |rows|
      invariant out == WithQuartiles(lookup, rows[..i])
      invariant a.matched == matched0 + MatchedRows(lookup, Journals(rows[..i]))
      invariant a.unmatchedJournals == unmatched0 + UnmatchedSet(lookup, Journals(rows[..i]))
    {
      ApplyStep(lookup, rows, i);
      var q := a.Assign(rows[i].journal);
      out := out + [QuartileRow(rows[i].rest, rows[i].journal, q)];
    }
    assert rows[..|rows|] == rows;
  }

  /** One more row: one more quartile row, and the counters advance by that row's journal. */
  lemma {:induction false} ApplyStep<R>(lookup: map<string, Option<string>>, rows: seq<MergedRow<R>>, i: nat)
    requires i < |rows|
    ensures var j := rows[i].journal;
      WithQuartiles(lookup, rows[..i + 1]) ==
        WithQuartiles(lookup, rows[..i]) + [QuartileRow(rows[i].rest, j, AssignedQuartile(lookup, j))]
    ensures var j := rows[i].journal;
      MatchedRows(lookup, Journals(rows[..i + 1])) ==
        MatchedRows(lookup, Journals(rows[..i])) + (if j.Some? && j.value in lookup then 1 else 0)
    ensures var j := rows[i].journal;
      UnmatchedSet(lookup, Journals(rows[..i + 1])) ==
        UnmatchedSet(lookup, Journals(rows[..i])) + (if j.Some? && j.value !in lookup then {j.value} else {})
  {
    WithQuartilesSnoc(lookup, rows, i);
    JournalsSnoc(rows, i);
    MatchedSnoc(lookup, Journals(rows[..i]), rows[i].journal);
    UnmatchedSnoc(lookup, Journals(rows[..i]), rows[i].journal);
  }

  lemma {:induction false} WithQuartilesSnoc<R>(lookup: map<string, Option<string>>, rows: seq<MergedRow<R>>, i: nat)
    requires i < |rows|
    ensures var j := rows[i].journal;
      WithQuartiles(lookup, rows[..i + 1]) ==
        WithQuartiles(lookup, rows[..i]) + [QuartileRow(rows[i].rest, j, AssignedQuartile(lookup, j))]
  {
    var j := rows[i].journal;
    var a := WithQuartiles(lookup, rows[..i + 1]);
    var b := WithQuartiles(lookup, rows[..i]) + [QuartileRow(rows[i].rest, j, AssignedQuartile(lookup, j))];
    forall k | 0 <= k < |a|
      ensures a[k] == b[k]
    {
      if k < i {
        assert rows[..i + 1][k] == rows[..i][k];
      }
    }
  }

  lemma {:induction false} JournalsSnoc<R>(rows: seq<MergedRow<R>>, i: nat)
    requires i < |rows|
    ensures Journals(rows[..i + 1]) == Journals(rows[..i]) + [rows[i].journal]
    ensures Journals(rows[..i + 1])[..i] == Journals(rows[..i])
  {
  }

  lemma {:induction false} MatchedSnoc(lookup: map<string, Option<string>>, js: seq<Option<string>>, j: Option<string>)
    ensures MatchedRows(lookup, js + [j]) ==
      MatchedRows(lookup, js) + (if j.Some? && j.value in lookup then 1 else 0)
  {
    assert (js + [j])[..|js|] == js;
  }

  lemma {:induction false} UnmatchedSnoc(lookup: map<string, Option<string>>, js: seq<Option<string>>, j: Option<string>)
    ensures UnmatchedSet(lookup, js + [j]) ==
      UnmatchedSet(lookup, js) + (if j.Some? && j.value !in lookup then {j.value} else {})
  {
  }

  /** `dropna(subset=["quartile"])`: the rows with a quartile, in order. */
  function DropMissing<R(!new)>(rows: seq<QuartileRow<R>>): (kept: seq<QuartileRow<R>>)
    ensures |kept| <= |rows|
    ensures forall r :: r in kept <==> r in rows && r.quartile.Some?
  {
    if rows == [] then []
    else
      assert rows == [rows[0]] + rows[1..];
      (if rows[0].quartile.Some? then [rows[0]] else []) + DropMissing(rows[1..])
  }

  /** `matched / initial_rows * 100`, or 0 for an empty frame. */
  function MatchRate(matched: nat, initialRows: nat): (r: real)
    ensures initialRows == 0 ==> r == 0.0
    ensures matched <= initialRows ==> 0.0 <= r <= 100.0
  {
    if initialRows > 0 then (matched as real) / (initialRows as real) * 100.0 else 0.0
  }

  /** One row of the cached journal table. */
  datatype JournalRow = JournalRow(journalName: string, quartile: Option<string>)

  /**
   * `journal_lookup_db = dict(zip(journal_name, quartile))`: the keys are the journal names
   * of the table, and a name maps to the quartile of its last row.
   */
  function JournalLookup(table: seq<JournalRow>): (m: map<string, Option<string>>)
    ensures forall k :: k in m <==> exists i :: 0 <= i < |table| && table[i].journalName == k
    ensures forall i :: 0 <= i < |table| && (forall j :: i < j < |table| ==> table[j].journalName != table[i].journalName) ==>
      table[i].journalName in m && m[table[i].journalName] == table[i].quartile
  {
    var pairs := NameQuartilePairs(table);
    LastRowWins(table);
    DictOf(pairs)
  }

  /** The `(journal_name, quartile)` pairs of the table, in order. */
  function NameQuartilePairs(table: seq<JournalRow>): (ps: seq<(string, Option<string>)>)
    ensures |ps| == |table| && forall i :: 0 <= i < |table| ==> ps[i] == (table[i].journalName, table[i].quartile)
  {
    seq(|table|, i requires 0 <= i < |table| => (table[i].journalName, table[i].quartile))
  }

  lemma {:induction false} LastRowWins(table: seq<JournalRow>)
    ensures var d := DictOf(NameQuartilePairs(table));
      (forall k :: k in d <==> exists i :: 0 <= i < |table| && table[i].journalName == k) &&
      forall i :: 0 <= i < |table| && (forall j :: i < j < |table| ==> table[j].journalName != table[i].journalName) ==>
        table[i].journalName in d && d[table[i].journalName] == table[i].quartile
  {
    var ps := NameQuartilePairs(table);
    forall k
      ensures k in DictOf(ps) <==> exists i :: 0 <= i < |table| && table[i].journalName == k
    {
      if k in DictOf(ps) {
        var p :| p in ps && p.0 == k;
        var i :| 0 <= i < |ps| && ps[i] == p;
        assert table[i].journalName == k;
      }
      if exists i :: 0 <= i < |table| && table[i].journalName == k {
        var i :| 0 <= i < |table| && table[i].journalName == k;
        assert ps[i] in ps;
      }
    }
    forall i | 0 <= i < |table| && (forall j :: i < j < |table| ==> table[j].journalName != table[i].journalName)
      ensures table[i].journalName in DictOf(ps) && DictOf(ps)[table[i].journalName] == table[i].quartile
    {
      DictOfLastWins(ps, i);
    }
  }

  /** What the quartile step of `load_and_prepare_data` yields. */
  datatype Prepared<R> = Prepared(rows: seq<QuartileRow<R>>, matchRate: real, unmatchedCount: nat)

  /**
   * Lines 83-126: refuse an empty journal table (the `ValueError`), else build the lookup,
   * map every row, drop the rows without a quartile and compute the match rate.
   */
  method AssignQuartiles<R(!new)>(merged: seq<MergedRow<R>>, journalTable: seq<JournalRow>) returns (r: Option<Prepared<R>>)
    ensures r.None? <==> journalTable == []
    ensures r.Some? ==>
      var lookup := JournalLookup(journalTable);
      r.value == Prepared(DropMissing(WithQuartiles(lookup, merged)),
                          MatchRate(MatchedRows(lookup, Journals(merged)), |merged|),
                          |UnmatchedSet(lookup, Journals(merged))|)
  {
    if journalTable == [] {
      return None;
    }
    var lookup := JournalLookup(journalTable);
    var assigner := new QuartileAssigner(lookup);
    var mapped := ApplyAssigner(assigner, merged);
    var matched, unmatched := assigner.matched, assigner.unmatchedJournals;
    assert matched == MatchedRows(lookup, Journals(merged)) && unmatched == UnmatchedSet(lookup, Journals(merged));
    var initialRows := |merged|;
    var kept := DropMissing(mapped);
    var rate := MatchRate(matched, initialRows);
    r := Some(Prepared(kept, rate, |unmatched|));
  }

  /**
   * After `dropna`, exactly the rows whose journal has a stored, non-null quartile remain,
   * each with that quartile.
   */
  lemma {:induction false} KeptRows<R(!new)>(lookup: map<string, Option<string>>, merged: seq<MergedRow<R>>)
    ensures forall q :: q in DropMissing(WithQuartiles(lookup, merged)) <==> exists i :: HasQuartile(lookup, merged, i, q)
  {
    var out := WithQuartiles(lookup, merged);
    forall q | q in DropMissing(out)
      ensures exists i :: HasQuartile(lookup, merged, i, q)
    {
      var i :| 0 <= i < |out| && out[i] == q;
      assert HasQuartile(lookup, merged, i, q);
    }
    forall i, q | HasQuartile(lookup, merged, i, q)
      ensures q in DropMissing(out)
    {
      assert out[i] in out;
    }
  }

  /** Row `i` has a journal with a stored, non-null quartile, and `q` is that row with it. */
  ghost predicate HasQuartile<R>(lookup: map<string, Option<string>>, merged: seq<MergedRow<R>>, i: int, q: QuartileRow<R>) {
    0 <= i < |merged| && merged[i].journal.Some? && merged[i].journal.value in lookup &&
    lookup[merged[i].journal.value].Some? &&
    q == QuartileRow(merged[i].rest, merged[i].journal, lookup[merged[i].journal.value])
  }

  /** The positions of the cells whose journal is a lookup key. */
  function KeyPositions(lookup: map<string, Option<string>>, journals: seq<Option<string>>): set<nat> {
    set i: nat | i < |journals| && journals[i].Some? && journals[i].value in lookup
  }

  /** `matched` counts rows, not distinct journals: one per position whose journal is a key. */
  lemma {:induction false} MatchedRowsArePositions(lookup: map<string, Option<string>>, journals: seq<Option<string>>)
    ensures MatchedRows(lookup, journals) == |KeyPositions(lookup, journals)|
  {
    if journals != [] {
      var n := |journals| - 1;
      var init := journals[..n];
      MatchedRowsArePositions(lookup, init);
      var j := journals[n];
      var extra: set<nat> := if j.Some? && j.value in lookup then {n} else {};
      assert KeyPositions(lookup, journals) == KeyPositions(lookup, init) + extra;
      assert n !in KeyPositions(lookup, init);
    }
  }
}
