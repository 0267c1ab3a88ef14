/**
 * Author positions and the layered first-name gender lookup (src/gender_utils.py).
 *
 * The offline `gender_guesser` detector and the genderize.io reply are uninterpreted
 * functions of the name.  The cache is a map from name to result; loading and saving it
 * as JSON is not modelled.
 */
module GenderUtils {
  import opened Wrappers

  // ---- assign_positions (lines 165-209) ----

  datatype Position = First | Second | Other | Penultimate | Last

  /**
   * The label of the author at index `i` of `n`: the reference form of the position scheme.
   * The first author is first, the last (of two or more) last; then the second and the
   * penultimate, and everyone strictly between them is other.
   */
  function PositionLabel(n: nat, i: nat): (p: Position)
    requires i < n
    ensures p == First <==> i == 0
    ensures p == Last <==> 0 < i && i == n - 1
    ensures p == Second <==> i == 1 && i < n - 1
    ensures p == Penultimate <==> 1 < i && i == n - 2
    ensures p == Other <==> 1 < i < n - 2
  {
    if i == 0 then First
    else if i == n - 1 then Last
    else if i == 1 then Second
    else if i == n - 2 then Penultimate
    else Other
  }

  /** `assign_positions`, case by case on the number of authors. */
  function AssignPositions<A>(authors: seq<A>): (r: seq<(A, Position)>)
    ensures |r| == |authors|
    ensures forall i :: 0 <= i < |r| ==> r[i].0 == authors[i]
  {
    var n := |authors|;
    if n == 0 then []
    else if n == 1 then [(authors[0], First)]
    else if n == 2 then [(authors[0], First), (authors[1], Last)]
    else if n == 3 then [(authors[0], First), (authors[1], Second), (authors[2], Last)]
    else if n == 4 then
      [(authors[0], First), (authors[1], Second), (authors[2], Penultimate), (authors[3], Last)]
    else
      [(authors[0], First), (authors[1], Second)]
      + seq(n - 4, k requires 0 <= k < n - 4 => (authors[k + 2], Other))
      + [(authors[n - 2], Penultimate), (authors[n - 1], Last)]
  }

  function Labels<A>(r: seq<(A, Position)>): (ls: seq<Position>)
    ensures |ls| == |r|
  {
    seq(|r|, i requires 0 <= i < |r| => r[i].1)
  }

  /** Every author gets the label the reference scheme gives its index. */
  lemma {:induction false} AssignPositionsLabels<A>(authors: seq<A>)
    ensures forall i :: 0 <= i < |authors| ==> AssignPositions(authors)[i].1 == PositionLabel(|authors|, i)
  {
    var n := |authors|;
    var r := AssignPositions(authors);
    if n >= 5 {
      forall i | 0 <= i < n
        ensures r[i].1 == PositionLabel(n, i)
      {
        if 2 <= i < n - 2 {
          assert r[i] == (authors[i], Other);
        }
      }
    }
  }

  /** The label lists for one to four authors. */
  lemma {:induction false} SmallAuthorLists<A>(authors: seq<A>)
    ensures |authors| == 0 ==> AssignPositions(authors) == []
    ensures |authors| == 1 ==> Labels(AssignPositions(authors)) == [First]
    ensures |authors| == 2 ==> Labels(AssignPositions(authors)) == [First, Last]
    ensures |authors| == 3 ==> Labels(AssignPositions(authors)) == [First, Second, Last]
    ensures |authors| == 4 ==> Labels(AssignPositions(authors)) == [First, Second, Penultimate, Last]
  {
  }

  /** Five or more authors: first, second, `n - 4` times other, penultimate, last. */
  lemma {:induction false} LongAuthorList<A>(authors: seq<A>)
    requires |authors| >= 5
    ensures var n := |authors|;
      Labels(AssignPositions(authors)) == [First, Second] + seq(n - 4, _ => Other) + [Penultimate, Last]
  {
    var n := |authors|;
    var ls := Labels(AssignPositions(authors));
    var expected := [First, Second] + seq(n - 4, _ => Other) + [Penultimate, Last];
    assert |ls| == |expected|;
    forall i | 0 <= i < n
      ensures ls[i] == expected[i]
    {
      if 2 <= i < n - 2 {
        assert AssignPositions(authors)[i] == (authors[i], Other);
        assert expected[i] == seq(n - 4, _ => Other)[i - 2];
      }
    }
  }

  // ---- Results, the detector layer and the genderize.io layer ----

  datatype Source = GenderGuesser | Genderize

  /** The dict `{name, gender, probability, source}`. */
  datatype GenderResult = GenderResult(name: string, gender: string, probability: Option<real>, source: Option<Source>)

  /**
   * What `r.json()` yields: `Failed` when the request or the decoding raises, otherwise the
   * `gender` field and the `probability` field (`None` when absent or JSON null).
   */
  datatype GenderizeReply = Failed | Reply(gender: Option<string>, probability: Option<real>)

  function UnknownResult(name: string): (r: GenderResult)
    ensures r.name == name && r.gender == "unknown" && r.probability.None? && r.source.None?
  {
    GenderResult(name, "unknown", None, None)
  }

  /** `_query_genderize`: accept the API's answer only with a non-empty gender and probability at least 0.7. */
  function QueryGenderize(name: string, reply: GenderizeReply): (r: GenderResult)
    ensures r.name == name
    ensures r.source == Some(Genderize) <==>
      reply.Reply? && reply.gender.Some? && reply.gender.value != "" &&
      reply.probability.Some? && reply.probability.value >= 0.7
    ensures r.source == Some(Genderize) ==> r.gender == reply.gender.value && r.probability == reply.probability
    ensures r.source != Some(Genderize) ==> r == UnknownResult(name)
  {
    match reply
    case Failed => UnknownResult(name)
    case Reply(g, p) =>
      if g.Some? && g.value != "" && p.Some? && p.value >= 0.7 then GenderResult(name, g.value, p, Some(Genderize))
      else UnknownResult(name)
  }

  /** The answers of `gender_guesser`'s `get_gender`: `unknown`, `andy`, `male`, `female`, `mostly_male`, `mostly_female`. */
  datatype Verdict = Unknown | Andy | Male | Female | MostlyMale | MostlyFemale

  /** The four verdicts the detector layer resolves itself. */
  predicate Resolved(verdict: Verdict) {
    verdict.Female? || verdict.Male? || verdict.MostlyFemale? || verdict.MostlyMale?
  }

  /**
   * A result as the lookup produces it: named after its name, unknown exactly when it has
   * no source, the detector giving male/female with 1.0 or 0.75, genderize.io a non-empty
   * gender with probability at least 0.7.
   */
  predicate Proper(r: GenderResult) {
    && (r.source.None? <==> r.probability.None?)
    && (r.source.None? ==> r.gender == "unknown")
    && (r.source == Some(GenderGuesser) ==>
         (r.gender == "female" || r.gender == "male") && (r.probability == Some(1.0) || r.probability == Some(0.75)))
    && (r.source == Some(Genderize) ==> r.gender != "" && r.probability.value >= 0.7)
  }

  /**
   * Lines 77-109: the detector's verdict decides, and only an unresolved verdict reaches
   * genderize.io.  Every classification is proper and carries the name: female and male
   * with 1.0, mostly_female and mostly_male as female and male with 0.75.
   */
  function Classify(name: string, verdict: Verdict, reply: GenderizeReply): (r: GenderResult)
    ensures r.name == name && Proper(r)
    ensures Resolved(verdict) <==> r.source == Some(GenderGuesser)
    ensures verdict.Female? || verdict.MostlyFemale? ==> r.gender == "female"
    ensures verdict.Male? || verdict.MostlyMale? ==> r.gender == "male"
    ensures verdict.Female? || verdict.Male? ==> r.probability == Some(1.0)
    ensures verdict.MostlyFemale? || verdict.MostlyMale? ==> r.probability == Some(0.75)
    ensures !Resolved(verdict) ==> r == QueryGenderize(name, reply)
  {
    match verdict
    case Female => GenderResult(name, "female", Some(1.0), Some(GenderGuesser))
    case Male => GenderResult(name, "male", Some(1.0), Some(GenderGuesser))
    case MostlyFemale => GenderResult(name, "female", Some(0.75), Some(GenderGuesser))
    case MostlyMale => GenderResult(name, "male", Some(0.75), Some(GenderGuesser))
    case _ => QueryGenderize(name, reply)
  }

  /** A classified gender other than unknown comes with a probability of at least 0.7. */
  lemma {:induction false} ProperConfidence(r: GenderResult)
    requires Proper(r) && r.source.Some?
    ensures r.probability.Some? && r.probability.value >= 0.7
  {
    if r.source == Some(GenderGuesser) {
      assert r.probability == Some(1.0) || r.probability == Some(0.75);
      assert r.probability.value == 1.0 || r.probability.value == 0.75;
    } else {
      assert r.source.value.Genderize?;
      assert r.source == Some(Genderize);
    }
  }

  // ---- infer_gender as a transition on the cache ----

  type Cache = map<string, GenderResult>

  /** Every cached entry is proper and stored under its own name. */
  predicate WellFormed(cache: Cache) {
    forall k :: k in cache ==> cache[k].name == k && Proper(cache[k])
  }

  /**
   * What `infer_gender(name)` returns and what the cache becomes: a name of at most one
   * character is unknown and leaves the cache alone; a longer name is answered from the
   * cache when it is there, and otherwise classified and stored with its result; no other
   * entry changes.
   */
  function InferStep(cache: Cache, detector: string -> Verdict, genderize: string -> GenderizeReply, name: string)
    : (out: (Cache, GenderResult))
    ensures |name| <= 1 ==> out == (cache, UnknownResult(name))
    ensures |name| > 1 ==> name in out.0 && out.0[name] == out.1
    ensures |name| > 1 && name in cache ==> out == (cache, cache[name])
    ensures |name| > 1 && name !in cache ==> out.1 == Classify(name, detector(name), genderize(name))
    ensures forall k :: k in cache && k != name ==> k in out.0 && out.0[k] == cache[k]
  {
    if |name| <= 1 then (cache, UnknownResult(name))
    else if name in cache then (cache, cache[name])
    else
      var out := Classify(name, detector(name), genderize(name));
      (cache[name := out], out)
  }

  /** A cache hit returns the stored entry whatever the detector and genderize.io would say. */
  lemma {:induction false} CacheHit(cache: Cache, d1: string -> Verdict, g1: string -> GenderizeReply,
                 d2: string -> Verdict, g2: string -> GenderizeReply, name: string)
    requires |name| > 1 && name in cache
    ensures InferStep(cache, d1, g1, name) == InferStep(cache, d2, g2, name) == (cache, cache[name])
  {
  }

  /**
   * After a lookup the name (when longer than one character) is cached with the returned
   * result, and no other entry is added or changed.
   */
  lemma {:induction false} InferStepFrame(cache: Cache, detector: string -> Verdict, genderize: string -> GenderizeReply, name: string)
    ensures var (c, r) := InferStep(cache, detector, genderize, name);
      && c.Keys == cache.Keys + (if |name| > 1 then {name} else {})
      && (|name| > 1 ==> c[name] == r)
      && (forall k :: k in cache && k != name ==> c[k] == cache[k])
      && (name in cache ==> c == cache)
  {
  }

  /** Looking a name up twice gives the same result and leaves the cache as the first lookup did. */
  lemma {:induction false} InferIdempotent(cache: Cache, detector: string -> Verdict, genderize: string -> GenderizeReply, name: string)
    ensures var (c1, r1) := InferStep(cache, detector, genderize, name);
      InferStep(c1, detector, genderize, name) == (c1, r1)
  {
  }

  /** A well-formed cache stays well-formed, and then every result is proper and carries its name. */
  lemma {:induction false} InferStepWellFormed(cache: Cache, detector: string -> Verdict, genderize: string -> GenderizeReply, name: string)
    requires WellFormed(cache)
    ensures var (c, r) := InferStep(cache, detector, genderize, name);
      WellFormed(c) && r.name == name && Proper(r)
  {
  }

  // ---- infer_batch (lines 149-162) ----

  /** `infer_batch(names)`: the lookups in order, each seeing the cache the previous one left. */
  function InferAll(cache: Cache, detector: string -> Verdict, genderize: string -> GenderizeReply, names: seq<string>)
    : (out: (Cache, seq<GenderResult>))
    ensures |out.1| == |names|
  {
    if names == [] then (cache, [])
    else
      var (c, rs) := InferAll(cache, detector, genderize, names[..|names| - 1]);
      var (c2, r) := InferStep(c, detector, genderize, names[|names| - 1]);
      (c2, rs + [r])
  }

  /** One more name at the end of a batch is one more lookup from the cache the batch left. */
  lemma {:induction false} InferAllSnoc(cache: Cache, detector: string -> Verdict, genderize: string -> GenderizeReply, names: seq<string>, x: string)
    ensures var (c, rs) := InferAll(cache, detector, genderize, names);
      var (c2, r) := InferStep(c, detector, genderize, x);
      InferAll(cache, detector, genderize, names + [x]) == (c2, rs + [r])
  {
    assert (names + [x])[..|names|] == names;
  }

  /**
   * After a batch, each name longer than one character is cached with exactly the result it
   * was given, entries cached before are unchanged, and short names got the unknown result.
   */
  lemma {:induction false} InferAllCached(cache: Cache, detector: string -> Verdict, genderize: string -> GenderizeReply, names: seq<string>)
    ensures var (c, rs) := InferAll(cache, detector, genderize, names);
      && (forall i :: 0 <= i < |names| && |names[i]| > 1 ==> names[i] in c && c[names[i]] == rs[i])
      && (forall i :: 0 <= i < |names| && |names[i]| <= 1 ==> rs[i] == UnknownResult(names[i]))
      && (forall k :: k in cache ==> k in c && c[k] == cache[k])
    decreases |names|
  {
    if names != [] {
      var n := |names| - 1;
      var front := names[..n];
      InferAllCached(cache, detector, genderize, front);
      var (c, rs) := InferAll(cache, detector, genderize, front);
      InferStepFrame(c, detector, genderize, names[n]);
      var (c2, r) := InferStep(c, detector, genderize, names[n]);
      assert InferAll(cache, detector, genderize, names) == (c2, rs + [r]);
      assert names == front + [names[n]];
      CachedStep(cache, front, c, rs, names[n], c2, r);
    }
  }

  /** The facts of `InferAllCached` carry over one more lookup, given what that lookup does to the cache. */
  lemma {:induction false} CachedStep(cache: Cache, names: seq<string>, c: Cache, rs: seq<GenderResult>,
                                      x: string, c2: Cache, r: GenderResult)
    requires |rs| == |names|
    requires forall i :: 0 <= i < |names| && |names[i]| > 1 ==> names[i] in c && c[names[i]] == rs[i]
    requires forall i :: 0 <= i < |names| && |names[i]| <= 1 ==> rs[i] == UnknownResult(names[i])
    requires forall k :: k in cache ==> k in c && c[k] == cache[k]
    requires c2.Keys == c.Keys + (if |x| > 1 then {x} else {})
    requires |x| > 1 ==> c2[x] == r
    requires |x| <= 1 ==> r == UnknownResult(x)
    requires forall k :: k in c && k != x ==> c2[k] == c[k]
    requires x in c ==> c2 == c
    ensures var ns, rs2 := names + [x], rs + [r];
      && (forall i :: 0 <= i < |ns| && |ns[i]| > 1 ==> ns[i] in c2 && c2[ns[i]] == rs2[i])
      && (forall i :: 0 <= i < |ns| && |ns[i]| <= 1 ==> rs2[i] == UnknownResult(ns[i]))
      && (forall k :: k in cache ==> k in c2 && c2[k] == cache[k])
  {
    var ns, rs2 := names + [x], rs + [r];
    forall i | 0 <= i < |ns|
      ensures |ns[i]| > 1 ==> ns[i] in c2 && c2[ns[i]] == rs2[i]
      ensures |ns[i]| <= 1 ==> rs2[i] == UnknownResult(ns[i])
    {
      if i < |names| {
        assert ns[i] == names[i] && rs2[i] == rs[i];
      }
    }
  }

  /** The same name twice in a batch gets the same result both times. */
  lemma {:induction false} RepeatedNames(cache: Cache, detector: string -> Verdict, genderize: string -> GenderizeReply, names: seq<string>, i: nat, j: nat)
    requires i < |names| && j < |names| && names[i] == names[j]
    ensures InferAll(cache, detector, genderize, names).1[i] == InferAll(cache, detector, genderize, names).1[j]
  {
    InferAllCached(cache, detector, genderize, names);
  }

  /** From a well-formed cache, a batch keeps the cache well-formed and every result is proper. */
  lemma {:induction false} InferAllWellFormed(cache: Cache, detector: string -> Verdict, genderize: string -> GenderizeReply, names: seq<string>)
    requires WellFormed(cache)
    ensures var (c, rs) := InferAll(cache, detector, genderize, names);
      WellFormed(c) && forall i :: 0 <= i < |rs| ==> rs[i].name == names[i] && Proper(rs[i])
    decreases |names|
  {
    if names != [] {
      var n := |names| - 1;
      InferAllWellFormed(cache, detector, genderize, names[..n]);
      var (c, rs) := InferAll(cache, detector, genderize, names[..n]);
      InferStepWellFormed(c, detector, genderize, names[n]);
      forall i | 0 <= i < n
        ensures names[i] == names[..n][i]
      {
      }
    }
  }

  /** `GenderInference`: the detector, the genderize.io replies and the mutable cache. */
  class GenderInference {
    var cache: Cache
    const detector: string -> Verdict
    const genderize: string -> GenderizeReply

    /** The engine with the cache read from its file (`{}` when there is none). */
    constructor (detector: string -> Verdict, genderize: string -> GenderizeReply, stored: Cache)
      ensures this.cache == stored && this.detector == detector && this.genderize == genderize
    {
      this.detector := detector;
      this.genderize := genderize;
      this.cache := stored;
    }

    /** `infer_gender` (lines 49-113). */
    method InferGender(firstName: string) returns (r: GenderResult)
      modifies this
      ensures (cache, r) == InferStep(old(cache), detector, genderize, firstName)
    {
      if |firstName| <= 1 {
        return UnknownResult(firstName);
      }
      if firstName in cache {
        return cache[firstName];
      }
      var verdict := detector(firstName);
      var out: GenderResult;
      if verdict == Female {
        out := GenderResult(firstName, "female", Some(1.0), Some(GenderGuesser));
      } else if verdict == Male {
        out := GenderResult(firstName, "male", Some(1.0), Some(GenderGuesser));
      } else if verdict == MostlyFemale {
        out := GenderResult(firstName, "female", Some(0.75), Some(GenderGuesser));
      } else if verdict == MostlyMale {
        out := GenderResult(firstName, "male", Some(0.75), Some(GenderGuesser));
      } else {
        out := QueryGenderize(firstName, genderize(firstName));
      }
      cache := cache[firstName := out];
      r := out;
    }

    /** `infer_batch` (lines 149-162). */
    method InferBatch(firstNames: seq<string>) returns (results: seq<GenderResult>)
      modifies this
      ensures (cache, results) == InferAll(old(cache), detector, genderize, firstNames)
    {
      results := [];
      var i := 0;
      while i < |firstNames|
        invariant 0 <= i <= |firstNames|
        invariant (cache, results) == InferAll(old(cache), detector, genderize, firstNames[..i])
      {
        var r := InferGender(firstNames[i]);
        assert firstNames[..i + 1][..i] == firstNames[..i];
        results := results + [r];
        i := i + 1;
      }
      assert firstNames[..i] == firstNames;
    }
  }
}
