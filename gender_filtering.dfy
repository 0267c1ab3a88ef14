/**
 * The initial-first filter and the filtered statistics of analyze_gender_with_filtering.py.
 *
 * The rows are what `SELECT name, gender FROM authors` returns; a SQL NULL gender is `None`.
 * Only the branches that filter in Python are modelled.
 */
module GenderFiltering {
  import opened Wrappers
  import opened Strs

  // ---- is_initial_first (lines 12-17) ----

  /**
   * `is_initial_first`: the first whitespace token is one alphabetic character, that is,
   * after the leading whitespace comes a letter, followed by the end of the string or by
   * whitespace.
   */
  function IsInitialFirst(name: string): (r: bool)
    ensures var t := TrimLeft(name);
      r <==> t != [] && IsAlpha(t[0]) && (|t| == 1 || IsSpace(t[1]))
  {
    var parts := Split(name);
    FirstTokenChars(name);
    if parts == [] then false else |parts[0]| == 1 && IsAlpha(parts[0][0])
  }

  /** The first token is one letter exactly when the text after the leading whitespace starts with a letter and then ends or has whitespace. */
  lemma {:induction false} FirstTokenChars(name: string)
    ensures var parts := Split(name); var t := TrimLeft(name);
      (parts != [] && |parts[0]| == 1 && IsAlpha(parts[0][0])) <==>
      (t != [] && IsAlpha(t[0]) && (|t| == 1 || IsSpace(t[1])))
  {
    var t := TrimLeft(name);
    if t != [] {
      SplitFirst(name);
      WordLengthOne(t);
      var k := WordLength(t);
      assert k >= 1 ==> t[..k][0] == t[0];
    } else {
      assert Split(name) == [];
    }
  }

  /** A name that is empty or only whitespace is never initial-first. */
  lemma {:induction false} BlankNotInitial(name: string)
    requires AllSpace(name)
    ensures !IsInitialFirst(name)
  {
    SplitEmpty(name);
  }

  /** A word that starts with a non-space character is one character long exactly when the next one is absent or whitespace. */
  lemma {:induction false} WordLengthOne(t: string)
    requires t != [] && !IsSpace(t[0])
    ensures WordLength(t) >= 1
    ensures WordLength(t) == 1 <==> (|t| == 1 || IsSpace(t[1]))
  {
    assert WordLength(t) == 1 + WordLength(t[1..]);
    if |t| > 1 {
      assert t[1..][0] == t[1];
    }
  }

  // ---- The filtered branch of get_gender_stats (lines 24-35) ----

  datatype AuthorRecord = AuthorRecord(name: string, gender: Option<string>)

  /** `[row for row in rows if not is_initial_first(row[0])]`. */
  function Filtered(rows: seq<AuthorRecord>): (kept: seq<AuthorRecord>)
    ensures |kept| <= |rows|
    ensures forall r :: r in kept <==> r in rows && !IsInitialFirst(r.name)
  {
    if rows == [] then []
    else
      assert rows == [rows[0]] + rows[1..];
      (if IsInitialFirst(rows[0].name) then [] else [rows[0]]) + Filtered(rows[1..])
  }

  function InitialFirstCount(rows: seq<AuthorRecord>): nat {
    if rows == [] then 0 else (if IsInitialFirst(rows[0].name) then 1 else 0) + InitialFirstCount(rows[1..])
  }

  /** The filter drops exactly the initial-first rows. */
  lemma {:induction false} FilteredCount(rows: seq<AuthorRecord>)
    ensures |Filtered(rows)| == |rows| - InitialFirstCount(rows)
  {
    if rows != [] {
      FilteredCount(rows[1..]);
    }
  }

  /** The genders `('unknown', None, '')`. */
  predicate IsUnknown(g: Option<string>) {
    g == Some("unknown") || g.None? || g == Some("")
  }

  function CountGender(rows: seq<AuthorRecord>, g: string): (n: nat)
    ensures n <= |rows|
  {
    if rows == [] then 0 else (if rows[0].gender == Some(g) then 1 else 0) + CountGender(rows[1..], g)
  }

  function CountUnknown(rows: seq<AuthorRecord>): (n: nat)
    ensures n <= |rows|
  {
    if rows == [] then 0 else (if IsUnknown(rows[0].gender) then 1 else 0) + CountUnknown(rows[1..])
  }

  /** A gender that is none of male, female or unknown. */
  predicate IsOther(g: Option<string>) {
    g != Some("male") && g != Some("female") && !IsUnknown(g)
  }

  function CountOther(rows: seq<AuthorRecord>): nat {
    if rows == [] then 0 else (if IsOther(rows[0].gender) then 1 else 0) + CountOther(rows[1..])
  }

  /** The dict `{total, male, female, unknown, other}`. */
  datatype Stats = Stats(total: int, male: int, female: int, unknown: int, other: int)

  /** The male, female and unknown counts are disjoint, so `other` counts the remaining genders. */
  lemma {:induction false} CountsPartition(rows: seq<AuthorRecord>)
    ensures |rows| == CountGender(rows, "male") + CountGender(rows, "female") + CountUnknown(rows) + CountOther(rows)
  {
    if rows != [] {
      CountsPartition(rows[1..]);
    }
  }

  /**
   * `get_gender_stats(conn, exclude_initial_first=True)` over the fetched rows: `total` is
   * the number of rows minus the initial-first ones, and `other`, computed by subtraction,
   * is the number of kept rows with some other gender, so it is never negative.
   */
  function FilteredStats(rows: seq<AuthorRecord>): (s: Stats)
    ensures s.total == |rows| - InitialFirstCount(rows)
    ensures s.male == CountGender(Filtered(rows), "male") && s.female == CountGender(Filtered(rows), "female")
    ensures s.unknown == CountUnknown(Filtered(rows))
    ensures s.other == s.total - s.male - s.female - s.unknown
    ensures s.other == CountOther(Filtered(rows)) >= 0
    ensures 0 <= s.male <= s.total && 0 <= s.female <= s.total && 0 <= s.unknown <= s.total
  {
    var kept := Filtered(rows);
    var total := |kept|;
    var male := CountGender(kept, "male");
    var female := CountGender(kept, "female");
    var unknown := CountUnknown(kept);
    CountsPartition(kept);
    FilteredCount(rows);
    Stats(total, male, female, unknown, total - male - female - unknown)
  }

  // ---- The filtered branch of analyze_unknowns (lines 62-73) ----

  /** The dict `{total_unknowns, initial_first_in_unknowns}`. */
  datatype UnknownStats = UnknownStats(totalUnknowns: nat, initialFirstInUnknowns: nat)

  /** `[n for n in unknown_names if not is_initial_first(n)]`. */
  function FilterNames(names: seq<string>): (kept: seq<string>)
    ensures |kept| <= |names|
    ensures forall i :: 0 <= i < |kept| ==> !IsInitialFirst(kept[i])
    ensures forall n :: n in kept <==> n in names && !IsInitialFirst(n)
  {
    if names == [] then []
    else
      assert names == [names[0]] + names[1..];
      (if IsInitialFirst(names[0]) then [] else [names[0]]) + FilterNames(names[1..])
  }

  function CountInitialNames(names: seq<string>): nat {
    if names == [] then 0 else (if IsInitialFirst(names[0]) then 1 else 0) + CountInitialNames(names[1..])
  }

  /**
   * `analyze_unknowns(conn, exclude_initial_first=True)` over the names the query returned:
   * the initial-first names are dropped, so none of the kept ones is initial-first.
   */
  function AnalyzeUnknownsFiltered(names: seq<string>): (u: UnknownStats)
    ensures u.totalUnknowns == |names| - CountInitialNames(names)
    ensures u.initialFirstInUnknowns == 0
  {
    var kept := FilterNames(names);
    FilterNamesCount(names);
    CountInitialNone(kept);
    UnknownStats(|kept|, CountInitialNames(kept))
  }

  /** The filter drops exactly the initial-first names. */
  lemma {:induction false} FilterNamesCount(names: seq<string>)
    ensures |FilterNames(names)| == |names| - CountInitialNames(names)
  {
    if names != [] {
      FilterNamesCount(names[1..]);
    }
  }

  lemma {:induction false} CountInitialNone(names: seq<string>)
    requires forall i :: 0 <= i < |names| ==> !IsInitialFirst(names[i])
    ensures CountInitialNames(names) == 0
  {
    if names != [] {
      CountInitialNone(names[1..]);
    }
  }

  // ---- calc_pcts (lines 103-110) ----

  datatype Pcts = Pcts(malePct: real, femalePct: real, unknownPct: real, otherPct: real)

  function Pct(count: int, total: int): real {
    if total > 0 then (count as real) / (total as real) * 100.0 else 0.0
  }

  /**
   * `calc_pcts`: each count as a percentage of the total, or 0 for an empty table; a
   * count between 0 and the total gives a percentage between 0 and 100.
   */
  function CalcPcts(s: Stats): (p: Pcts)
    ensures s.total <= 0 ==> p == Pcts(0.0, 0.0, 0.0, 0.0)
    ensures s.total > 0 ==> p.malePct * (s.total as real) == (s.male as real) * 100.0
    ensures s.total > 0 ==> p.femalePct * (s.total as real) == (s.female as real) * 100.0
    ensures s.total > 0 ==> p.unknownPct * (s.total as real) == (s.unknown as real) * 100.0
    ensures s.total > 0 ==> p.otherPct * (s.total as real) == (s.other as real) * 100.0
    ensures 0 <= s.male <= s.total ==> 0.0 <= p.malePct <= 100.0
    ensures 0 <= s.female <= s.total ==> 0.0 <= p.femalePct <= 100.0
    ensures 0 <= s.unknown <= s.total ==> 0.0 <= p.unknownPct <= 100.0
    ensures 0 <= s.other <= s.total ==> 0.0 <= p.otherPct <= 100.0
  {
    PctBound(s.male, s.total);
    PctBound(s.female, s.total);
    PctBound(s.unknown, s.total);
    PctBound(s.other, s.total);
    Pcts(Pct(s.male, s.total), Pct(s.female, s.total), Pct(s.unknown, s.total), Pct(s.other, s.total))
  }

  /** For a non-empty table the four percentages add up to 100. */
  lemma {:induction false} PctsSum(s: Stats)
    requires s.other == s.total - s.male - s.female - s.unknown
    ensures s.total > 0 ==>
      var p := CalcPcts(s);
      p.malePct + p.femalePct + p.unknownPct + p.otherPct == 100.0
  {
    if s.total > 0 {
      SharesSum(s.male as real, s.female as real, s.unknown as real, s.other as real, s.total as real);
    }
  }

  /** Shares of a whole that add up to it add up to 100 percent. */
  lemma {:induction false} SharesSum(a: real, b: real, c: real, d: real, t: real)
    requires t > 0.0 && a + b + c + d == t
    ensures a / t * 100.0 + b / t * 100.0 + c / t * 100.0 + d / t * 100.0 == 100.0
  {
    assert a / t + b / t + c / t + d / t == (a + b + c + d) / t;
  }

  /** For the filtered statistics each percentage lies in `[0, 100]`. */
  lemma {:induction false} PctsBounded(rows: seq<AuthorRecord>)
    ensures var p := CalcPcts(FilteredStats(rows));
      0.0 <= p.malePct <= 100.0 && 0.0 <= p.femalePct <= 100.0 &&
      0.0 <= p.unknownPct <= 100.0 && 0.0 <= p.otherPct <= 100.0
  {
    var s := FilteredStats(rows);
    CountsPartition(Filtered(rows));
    assert s.other <= s.total;
  }

  /**
   * A part of a positive whole is between 0 and 100 percent of it, and the percentage
   * times the whole is 100 times the part.
   */
  lemma {:induction false} PctBound(count: int, total: int)
    ensures 0 <= count <= total ==> 0.0 <= Pct(count, total) <= 100.0
    ensures total > 0 ==> Pct(count, total) * (total as real) == (count as real) * 100.0
  {
    if total > 0 {
      var q := (count as real) / (total as real);
      assert q * (total as real) == count as real;
    }
  }

  /** For a non-empty filtered table the four percentages of `calc_pcts` add up to 100. */
  lemma {:induction false} FilteredPctsSum(rows: seq<AuthorRecord>)
    ensures var s := FilteredStats(rows);
      s.total > 0 ==>
      var p := CalcPcts(s);
      p.malePct + p.femalePct + p.unknownPct + p.otherPct == 100.0
  {
    PctsSum(FilteredStats(rows));
  }
}
