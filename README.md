# gender-gap-compbio in Dafny

A model of the data-shaping and estimation chain of the gender-gap-compbio analysis. This is
the chain that runs between the network fetchers and the plots:

- the bootstrap estimator of P(female) and its grouped forms;
- the author-position scheme;
- the layered, cached first-name gender lookup;
- the pipeline helpers that expand papers into author rows and turn a gender result into P(female);
- the initial-first name filter and its statistics;
- the cascade that parses a language model's reply, and the matching of classifications back to author ids;
- the journal-to-quartile matching and the per-row quartile assignment;
- the PubMed and arXiv record parsers.

There is one module per source file, plus three helper modules:

| module | file | models |
|---|---|---|
| `Wrappers` | `wrappers.dfy` | `Option` |
| `Strs` | `strs.dfy` | Python's `str.split()`, `split(sep)`, `strip()`, `lower()`, `isalpha()` and `in`, over `seq<char>` |
| `Seqs` | `seqs.dfy` | `range(0, n, size)` slicing, and `dict(pairs)` where a later key wins |
| `Bootstrap` | `bootstrap.dfy` | src/bootstrap.py |
| `GenderUtils` | `gender_utils.dfy` | src/gender_utils.py |
| `Pipeline` | `pipeline.dfy` | pipeline.py |
| `GenderFiltering` | `gender_filtering.dfy` | analyze_gender_with_filtering.py |
| `ClassifyRetry` | `classify_retry.dfy` | classify_names_retry.py |
| `JournalQuartiles` | `journal_quartiles.dfy` | preprocess_journal_quartiles.py |
| `JournalImpact` | `journal_impact.dfy` | analyze_journal_impact.py |
| `PubmedFetcher` | `pubmed_fetcher.dfy` | src/pubmed_fetcher.py |
| `ArxivFetcher` | `arxiv_fetcher.dfy` | src/arxiv_fetcher.py |

Code that updates state keeps that form in the model:

- The gender cache is a `map` field of the class `GenderUtils.GenderInference`, which its methods update.
- The paper dicts that `add_author_positions` labels in place are objects of the class `Pipeline.Paper`.
- The closure `assign_quartile_from_db` and its two nonlocal counters are the class `JournalImpact.QuartileAssigner`.
- Every loop of the source is a `method` with a `while` or `for` loop, proved equal to a specification function.

Pure code is written as functions and lemmas.

Foreign code is a parameter of the model:

| foreign code | modelled as |
|---|---|
| numpy's generator | `Draw`, a function from (resample, draw) to a natural number; its remainder modulo the number of values is the index drawn |
| the gender-guesser detector | a function from a name to its verdict |
| genderize.io | a function from a name to its reply |
| `json.loads` | a partial parser `string -> Option<J>` |
| `difflib.get_close_matches` | the position of the chosen title, if any |
| `eval` of a positions string | a parser function |
| Entrez `efetch` and read | a function from a batch of PMIDs to its records, or `None` when it raised |
| the Groq chat call | a function from a batch to the dictionary it yields |
| the arXiv result stream | a sequence of results |
| `np.polyfit` | a function of the two columns |

Probabilities are mathematical reals. Percentiles follow numpy's default linear rule: the rank
is `q/100*(m-1)` in the sorted values, interpolated between floor and ceiling.

Where the code and its own comments or docstrings disagree, the model follows the code:

- `n_samples` counts every entry that is not `None`, NaN included (src/bootstrap.py:82).
- `get_p_female` has no 1.0/0.0 default: a male result with no probability gives `None` (pipeline.py:409-416).
- `entry_id.split("/abs/")[-1]` is not quite "the text after the last /abs/". "/abs/" can overlap itself, so `"/abs/abs/x"` gives `"abs/x"` (`ArxivFetcher.OverlappingMarker`). The contract of `ArxivFetcher.ArxivId` gives the shape of the id. With `ArxivFetcher.ArxivIdRest`, which follows the split from the first "/abs/" to the rest, it fixes the id of every entry id.
- `text.split("```json")[1]` stops at a second "```json" before the "```" split. `ClassifyRetry.FencedCandidateLocation` states that composition exactly. `ClassifyRetry.JsonFenceSegment` gives the simple reading, for a text where "```json" is not repeated.

## Model

| member | source | states |
|---|---|---|
| Bootstrap.Retained | src/bootstrap.py:31 | the values that survive the `None`/NaN filter are never more than the entries |
| Bootstrap.RetainedMembers | src/bootstrap.py:31 | a value is kept by the `None`/NaN filter iff it occurs as a number in the input |
| Bootstrap.NotNullCountSplits | src/bootstrap.py:82 | `n_samples` is the number of retained values plus the number of NaN entries, so NaN entries count although they are not resampled |
| Bootstrap.RetainedShorter | src/bootstrap.py:31 | a `None` or NaN entry makes the retained list strictly shorter than the input |
| Bootstrap.RetainedIgnoresMissing | src/bootstrap.py:31 | inserting a `None` or NaN anywhere does not change the retained values |
| Bootstrap.MeanWithin | src/bootstrap.py:42 | the mean of values in `[lo, hi]` lies in `[lo, hi]` |
| Bootstrap.Resample | src/bootstrap.py:41 | a resample has exactly `len(probs)` draws, each one of the retained values |
| Bootstrap.ResampledMeansWithin | src/bootstrap.py:40-42 | every resampled mean lies between the minimum and maximum retained value |
| Bootstrap.Percentile | src/bootstrap.py:48-49 | numpy's linear percentile of a non-empty sequence lies between its minimum and maximum |
| Bootstrap.SortReals | src/bootstrap.py:48-49 | the sorted order that the percentile reads is sorted and a permutation of the means |
| Bootstrap.PercentileWithin | src/bootstrap.py:48-49 | a linear percentile of values in `[lo, hi]` lies in `[lo, hi]` |
| Bootstrap.PercentileMonotone | src/bootstrap.py:48-49 | the linear percentile is monotone in `q`, so the 2.5 percentile is at most the 97.5 percentile |
| Bootstrap.EstimateWithin | src/bootstrap.py:44-50 | mean, `ci_lower` and `ci_upper` lie within the retained values' range, and `ci_lower <= ci_upper` |
| Bootstrap.EstimateIsProbability | src/bootstrap.py:44-50 | inputs in `[0, 1]` give mean and interval in `[0, 1]` |
| Bootstrap.ConstantEstimate | src/bootstrap.py:40-50 | if every retained value is `v`, the result is `(v, v, v)` |
| Bootstrap.SingleValue | src/bootstrap.py:40-50 | a single value `v` gives mean = `ci_lower` = `ci_upper` = `v` |
| Bootstrap.MissingIgnored | src/bootstrap.py:31-50 | inserting `None`/NaN anywhere leaves the estimate unchanged for the same draws |
| Bootstrap.BootstrapSpec | src/bootstrap.py:30-50 | the estimator is `None` exactly when no value survives the filter |
| Bootstrap.BootstrapPFemale | src/bootstrap.py:12-50 | the loop of `bootstrap_pfemale` computes the estimator; `None` exactly when no value survives the filter; otherwise the bounds above hold |
| Bootstrap.GroupKey | src/bootstrap.py:108 | a row's key tuple has one value per grouping column |
| Bootstrap.KeysPresent | src/bootstrap.py:108 | the key combinations that occur, each with one value per column |
| Bootstrap.ZipKeysEcho | src/bootstrap.py:116 | with distinct column names, the zipped dict has exactly the columns as keys and each maps to its own key value |
| Bootstrap.EchoKeysEcho | src/bootstrap.py:113-116 | both branches echo every grouping column under its own name with its key value, and nothing more |
| Bootstrap.GroupResult | src/bootstrap.py:74-83 | a `bootstrap_by_group` row: the value under `group`, no estimate iff the group has no retained value, and `n_samples` the retained plus NaN entries |
| Bootstrap.KeyedResult | src/bootstrap.py:109-123 | a `bootstrap_by_multiple_groups` row: each column echoed with its key value, no estimate iff the group has no retained value, and `n_samples` the retained plus NaN entries |
| Bootstrap.EstimateGroup | src/bootstrap.py:74-83 | one loop body of `bootstrap_by_group`: the key under `group`, the estimate of that group's cells and `n_samples` |
| Bootstrap.EstimateKeyedGroup | src/bootstrap.py:109-125 | one loop body of `bootstrap_by_multiple_groups`: echoed keys, the estimate and `n_samples` |
| Bootstrap.BootstrapByGroup | src/bootstrap.py:53-85 | one result row per value of the grouping column present in the data and no other, no value twice, each row the estimate of that group |
| Bootstrap.GroupValuesKeys | src/bootstrap.py:73 | grouping by one column is grouping by the one-column key: a value is present exactly when its one-value key is |
| Bootstrap.BootstrapByMultipleGroups | src/bootstrap.py:88-127 | raises exactly when the column list is empty and the table is not (pandas' "No group keys passed!"); otherwise one result row per distinct key combination present and no other, each with its keys echoed and that group's estimate |
| Bootstrap.GroupsPartition | src/bootstrap.py:108-122 | when every row's key is among distinct keys, the groups' `n_samples` add up to the non-`None` cells of the table |
| Bootstrap.MultipleGroupsTotal | src/bootstrap.py:106-127 | over the keys `bootstrap_by_multiple_groups` visits, the `n_samples` count every non-`None` cell exactly once |
| Bootstrap.TrendPointsMembers | src/bootstrap.py:147 | `dropna` keeps exactly the rows where both year and P(female) are present |
| Bootstrap.CalculateTrend | src/bootstrap.py:147-154 | `(None, None)` exactly when fewer than two complete rows remain, otherwise the fit of the complete rows |
| GenderUtils.PositionLabel | src/gender_utils.py:186-208 | index 0 is first; the last index of two or more is last; index 1 is second unless last; index `n - 2` above 1 is penultimate; every other index is other |
| GenderUtils.AssignPositions | src/gender_utils.py:182-209 | the output has the input's length, with the names in input order |
| GenderUtils.AssignPositionsLabels | src/gender_utils.py:182-209 | each author gets the label the position scheme gives its index |
| GenderUtils.SmallAuthorLists | src/gender_utils.py:184-202 | 0 authors give `[]`; 1 to 4 authors get exactly [first], [first, last], [first, second, last], [first, second, penultimate, last] |
| GenderUtils.LongAuthorList | src/gender_utils.py:203-208 | five or more authors get first, second, `n - 4` times other, penultimate, last |
| GenderUtils.UnknownResult | src/gender_utils.py:142-147 | the unknown result names the name, with gender unknown and no probability or source |
| GenderUtils.QueryGenderize | src/gender_utils.py:127-147 | the API's answer is accepted iff its gender is non-empty and its probability is at least 0.7; otherwise, including on an exception, the result is unknown |
| GenderUtils.Classify | src/gender_utils.py:76-109 | the detector's female/male give probability 1.0 and mostly_female/mostly_male give 0.75, with source gender-guesser exactly for those four verdicts; any other verdict gives genderize.io's answer |
| GenderUtils.ProperConfidence | src/gender_utils.py:79-147 | a classified gender other than unknown comes with a probability of at least 0.7 |
| GenderUtils.CacheHit | src/gender_utils.py:73-74 | a cached name returns its stored entry whatever the detector or genderize.io would say |
| GenderUtils.InferStep | src/gender_utils.py:64-113 | a short name gives the unknown result with the cache untouched; a cached name gives its entry; otherwise the classification, stored under the name; no other entry changes |
| GenderUtils.InferStepFrame | src/gender_utils.py:111-113 | a looked-up name is cached with the returned result, and no other entry is added or changed |
| GenderUtils.InferIdempotent | src/gender_utils.py:64-113 | looking a name up twice gives the same result and the same cache as looking it up once |
| GenderUtils.InferStepWellFormed | src/gender_utils.py:64-113 | a well-formed cache stays well formed, and every result is well formed and carries its name |
| GenderUtils.InferAll | src/gender_utils.py:159-162 | a batch gives one result per name |
| GenderUtils.InferAllSnoc | src/gender_utils.py:159-162 | one more name at the end of a batch is one more lookup, from the cache the batch left |
| GenderUtils.InferAllCached | src/gender_utils.py:159-162 | after a batch every longer name is cached with its result, entries cached before are unchanged, and short names got the unknown result |
| GenderUtils.RepeatedNames | src/gender_utils.py:159-162 | the same name twice in a batch gets the same result both times |
| GenderUtils.InferAllWellFormed | src/gender_utils.py:159-162 | a batch from a well-formed cache keeps it well formed and gives only well-formed results |
| GenderUtils.GenderInference.constructor | src/gender_utils.py:25-41 | the engine starts from the cache that was read |
| GenderUtils.GenderInference.InferGender | src/gender_utils.py:49-113 | `infer_gender` returns the lookup's result and leaves the cache as the transition says |
| GenderUtils.GenderInference.InferBatch | src/gender_utils.py:149-162 | the loop of `infer_batch` performs the lookups in order, each from the cache the previous one left |
| Pipeline.Paper.constructor | pipeline.py:362-367 | a paper dict with its `authors` entry and no positions yet |
| Pipeline.AddAuthorPositions | pipeline.py:362-367 | every paper gets `assign_positions(paper.get("authors", []))` in place, keeps its authors, and the same list is returned |
| Pipeline.PositionsFor | pipeline.py:365-366 | the positions list each author of `paper.get("authors", [])` in order with the label of its index; a paper with no `authors` key gets `[]` |
| Pipeline.PmidOf | pipeline.py:382 | `pmid` is kept when truthy (NaN is truthy), and otherwise replaced by `arxiv_id` |
| Pipeline.ExpandRow | pipeline.py:379-388 | one author row per pair of the paper |
| Pipeline.Expand | pipeline.py:372-389 | the expanded table has one row per (author, position) pair over all papers |
| Pipeline.ExpandIndex | pipeline.py:372-389 | author `j` of paper `i` is output row `Offset(i) + j`, with the paper's year, dataset and id and the pair's author and position; nothing else is output |
| Pipeline.ExpandAt | pipeline.py:372-389 | the row that pair `j` of paper `i` produces sits at position `Offset(i) + j` of the output |
| Pipeline.ExpandPaper | pipeline.py:379-388 | the inner loop emits one row per (author, position) pair of the paper, in pair order, each carrying the paper's id, year and dataset |
| Pipeline.ExpandAuthorPositions | pipeline.py:370-389 | the nested loops emit the rows in paper order, then author order |
| Pipeline.FirstName | pipeline.py:401 | `""` for an empty author; a failure exactly for an all-whitespace author; otherwise the first non-empty, space-free token of `split()` |
| Pipeline.FirstNameToken | pipeline.py:401 | the first name is the first whitespace-separated token of the author |
| Pipeline.Unique | pipeline.py:396 | `unique()` has no repeats and the same members as the column |
| Pipeline.UniqueFirstAppearance | pipeline.py:396 | `unique()` lists the values in the order of their first occurrence in the column |
| Pipeline.PFemale | pipeline.py:409-416 | female gives the probability as given; male gives `1 - p`, or `None` without a probability; any other label gives `None` |
| Pipeline.PFemaleConfident | pipeline.py:409-416 | for an engine result, unknowns have no P(female), and P(female) is never strictly between 0.3 and 0.7 |
| Pipeline.AnnotateAll | pipeline.py:418-420 | each row's `p_female`, `gender` and `source` come from its author's table entry |
| Pipeline.SameAuthorSameColumns | pipeline.py:418-420 | rows with the same author get the same three columns |
| Pipeline.TableKeys | pipeline.py:397-403 | the table's keys are exactly the authors looked up |
| Pipeline.TableLookup | pipeline.py:397-403 | over distinct authors, each author maps to its own result |
| Pipeline.InferGenderBatch | pipeline.py:392-422 | one lookup per distinct author in order of first appearance, then every row annotated from its author's result; `None` when a blank author raises |
| Pipeline.LookupAuthors | pipeline.py:400-403 | the loop looks up the authors it reaches in order and stops at the first blank one |
| Pipeline.LookupPerAuthor | pipeline.py:396-403 | from a well-formed cache, every distinct author is in the table under its own first name with a well-formed result |
| Pipeline.WindowRows | pipeline.py:231-234 | a period keeps exactly the rows with `start <= year <= end`, in order |
| Pipeline.PeriodResult | pipeline.py:231-243 | a period row names its period, `n` is the number of rows in the window, and it has no estimate iff no P(female) in the window survives the filter |
| Pipeline.CovidImpact | pipeline.py:223-244 | one row per period, holding that window's estimate and its row count |
| Pipeline.PeriodsDisjoint | pipeline.py:223-243 | the `n` of the three periods add up to at most the number of rows, because the windows do not overlap |
| Pipeline.PeriodCount | pipeline.py:231-242 | `n` counts every kept row, including those with a missing or NaN P(female) |
| GenderFiltering.IsInitialFirst | analyze_gender_with_filtering.py:12-17 | initial-first iff after the leading whitespace comes a letter followed by the end or whitespace, that is, the first token of `split()` has length 1 and is alphabetic |
| GenderFiltering.BlankNotInitial | analyze_gender_with_filtering.py:14-16 | an empty or whitespace-only name is not initial-first |
| Strs.Split | analyze_gender_with_filtering.py:14 | every token of `split()` is non-empty and free of whitespace |
| GenderFiltering.Filtered | analyze_gender_with_filtering.py:29 | the filtered rows are exactly the rows whose name is not initial-first |
| GenderFiltering.FilteredCount | analyze_gender_with_filtering.py:29-31 | `total` is the number of rows minus the initial-first ones |
| GenderFiltering.FilteredStats | analyze_gender_with_filtering.py:23-35 | `total` is the rows minus the initial-first ones; `male`, `female` and `unknown` are the counts of those genders among the kept rows (`unknown` taking `'unknown'`, `None` and `''`); `other = total - male - female - unknown`, which is the count of the remaining genders, so never negative |
| GenderFiltering.CountsPartition | analyze_gender_with_filtering.py:32-35 | male, female, unknown and other counts are disjoint and add up to the rows |
| GenderFiltering.AnalyzeUnknownsFiltered | analyze_gender_with_filtering.py:63-74 | `total_unknowns` is the names minus the initial-first ones, and `initial_first_in_unknowns` is 0 |
| GenderFiltering.FilterNames | analyze_gender_with_filtering.py:69 | a name is kept exactly when it is among the unknown names and is not initial-first; the list grows no longer |
| GenderFiltering.CalcPcts | analyze_gender_with_filtering.py:103-110 | all zeros when `total` is at most 0; otherwise each percentage times `total` is 100 times its own count; a count in `[0, total]` gives a percentage in `[0, 100]` |
| GenderFiltering.FilteredPctsSum | analyze_gender_with_filtering.py:103-110 | for a non-empty filtered table the four percentages add up to 100 |
| GenderFiltering.PctsSum | analyze_gender_with_filtering.py:103-110 | all zeros when `total` is 0; otherwise the four percentages add up to 100 |
| GenderFiltering.PctsBounded | analyze_gender_with_filtering.py:103-110 | for the filtered statistics every percentage lies in `[0, 100]` |
| Strs.SplitOn | classify_names_retry.py:44 | `split(sep)` always gives at least one part |
| ClassifyRetry.FencedCandidateLocation | classify_names_retry.py:44-51 | the fence candidate is the text after the first fence, cut at the next fence, then at the first "```", stripped |
| ClassifyRetry.PlainFenceSegment | classify_names_retry.py:49-51 | with a "```" fence the candidate is the segment between the first and second "```", stripped |
| ClassifyRetry.JsonFenceSegment | classify_names_retry.py:42-44 | with one "```json" fence the candidate is the text after it up to the next "```" or the end, stripped |
| ClassifyRetry.RemoveTrailingCommas | classify_names_retry.py:59 | the substitution gives the reference without the trailing commas, its length drops by their number, and it holds the input's characters less those commas |
| ClassifyRetry.SubRemovesTrailingCommas | classify_names_retry.py:59 | the regex substitution equals the reference: every character except the commas followed by optional whitespace and `}` or `]`, in order |
| ClassifyRetry.TrailingCommasOnly | classify_names_retry.py:59 | only those commas go: the output's characters together with `TrailingCount` commas are exactly the input's characters, so every other character keeps its count and the length drops by their number |
| ClassifyRetry.FindPairs | classify_names_retry.py:67-68 | every pair the scan finds has a non-empty, quote-free key and a value among male, female, unknown |
| ClassifyRetry.GenderAtOccurs | classify_names_retry.py:67 | the value alternative matches at a position exactly when one of male, female, unknown followed by a closing quote occurs there |
| ClassifyRetry.PairAtPattern | classify_names_retry.py:67 | the scanner matches at a position exactly when the pattern `"([^"]+)":\s*"(male\|female\|unknown)"` does: an opening quote, a non-empty quote-free key, `":`, whitespace, and a quoted value among the three, ending where the match ends |
| ClassifyRetry.FindPairsSound | classify_names_retry.py:67-68 | every `(key, value)` `findall` returns is the group pair of some occurrence of the pattern at or after the scan start |
| ClassifyRetry.FindPairsFinds | classify_names_retry.py:67-68 | an occurrence of the pattern at or after the scan start means `findall` returns something, and one at the scan start gives the first pair |
| ClassifyRetry.FindPairsEmpty | classify_names_retry.py:67-69 | `findall` comes back empty exactly when the pattern occurs nowhere in the text |
| ClassifyRetry.ParseJsonResponse | classify_names_retry.py:31-73 | the cascade tries the whole text, the "```json" candidate, the "```" candidate and the comma-fixed text in that order and returns the first document that decodes; otherwise the dictionary of the scanned pairs, or `None` when the scan finds none |
| ClassifyRetry.FirstDecoded | classify_names_retry.py:36-62 | the first candidate that decodes is returned; `None` iff none decodes |
| ClassifyRetry.WholeTextFirst | classify_names_retry.py:36-39 | a whole text that decodes is returned, and no later strategy runs |
| ClassifyRetry.ScannedPairs | classify_names_retry.py:64-71 | a scanned result comes only after every candidate failed; it is non-empty, with well-formed keys and values |
| ClassifyRetry.ParseNone | classify_names_retry.py:73 | `None` exactly when no candidate decodes and the scan finds no pair |
| ClassifyRetry.MatchUpdates | classify_names_retry.py:164-168 | one update per entry at most: there are never more updates than entries in the batch |
| ClassifyRetry.MatchUpdatesMembers | classify_names_retry.py:164-168 | every update is `(id, classifications[name])` for an entry whose name is a key, and every such entry gives one |
| ClassifyRetry.EmptyMatchesNothing | classify_names_retry.py:159-161 | an empty dictionary matches nothing, so skipping its batch writes nothing |
| ClassifyRetry.RetryUnknowns | classify_names_retry.py:147-176 | `total_batches` is the number of 100-name slices, the written updates are those of every slice in order, and `total_updated` is their number |
| ClassifyRetry.ClassifyBatch | classify_names_retry.py:157-168 | one batch writes the matches of its own classifications |
| ClassifyRetry.MatchBatch | classify_names_retry.py:164-168 | the inner loop builds exactly the matched updates, in batch order |
| Seqs.Batches | src/pubmed_fetcher.py:154-155 | the slices of `range(0, n, size)`: each holds 1 to `size` elements, and every slice but the last holds exactly `size` |
| Seqs.FlattenBatches | classify_names_retry.py:151-152 | the slices together give back every element exactly once, in order |
| Seqs.BatchCount | classify_names_retry.py:149 | the number of slices is `(n + size - 1) // size` |
| Seqs.DictOfLastWins | classify_names_retry.py:70 | in `dict(pairs)` a key maps to the value of its last pair |
| Seqs.DictOfValues | preprocess_journal_quartiles.py:79-81 | every entry of `dict(pairs)` is one of the pairs |
| JournalQuartiles.Normalize | preprocess_journal_quartiles.py:56 | the normalised name holds no capital that `lower()` changes and has no leading or trailing whitespace |
| JournalQuartiles.NormalizeSlice | preprocess_journal_quartiles.py:56 | the normalised name is a slice of the lower-cased name with only whitespace around it; with the ends above, it is exactly `name.lower().strip()` |
| JournalQuartiles.Lookup | preprocess_journal_quartiles.py:79-81 | every stored quartile is one of Q1 to Q4, and every ranked title is a key |
| Strs.Strip | preprocess_journal_quartiles.py:56 | `strip()` gives an empty string exactly when the string is all whitespace, and otherwise a string that starts and ends with non-whitespace |
| Strs.StripSlice | preprocess_journal_quartiles.py:56 | what `strip()` keeps is a slice of the string with only whitespace before and after it; with the row above, this is exactly the text between the leading and the trailing whitespace |
| JournalQuartiles.RankedPairs | preprocess_journal_quartiles.py:24-31 | only rows ranked Q1 to Q4 give pairs |
| JournalQuartiles.FuzzyHit | preprocess_journal_quartiles.py:63 | a fuzzy hit is always a title from the list |
| JournalQuartiles.MatchJournal | preprocess_journal_quartiles.py:49-67 | an exact hit on the lower-cased, stripped name gives `(q, True)`; otherwise a fuzzy hit gives `(lookup[title], False)`; with neither the result is `(None, False)` |
| JournalQuartiles.MatchedQuartileRanked | preprocess_journal_quartiles.py:78-81 | with the table's own lookup every returned quartile is one of Q1 to Q4 |
| JournalQuartiles.MatchPartition | preprocess_journal_quartiles.py:88-108 | matched and unmatched journals partition the input; an entry carries its journal's match |
| JournalQuartiles.EntriesRanked | preprocess_journal_quartiles.py:88-108 | every kept journal has a quartile from Q1 to Q4 |
| JournalQuartiles.MatchJournals | preprocess_journal_quartiles.py:88-108 | the loop keeps `matched == len(journal_data)` and `matched + len(unmatched) == len(journals)`, both lists in input order |
| JournalImpact.JournalLookup | analyze_journal_impact.py:90-92 | the keys are exactly the table's journal names, and a name maps to the quartile of its last row |
| JournalImpact.AssignedQuartile | analyze_journal_impact.py:101-111 | a row gets a quartile iff its journal is present, is a key and has a stored quartile, and then it is that quartile |
| JournalImpact.UnmatchedSet | analyze_journal_impact.py:99-110 | a name is unmatched iff it is a present journal that is not a lookup key |
| JournalImpact.QuartileAssigner.constructor | analyze_journal_impact.py:98-99 | the counters start at zero and the empty set |
| JournalImpact.QuartileAssigner.Assign | analyze_journal_impact.py:101-111 | NaN gives `None` and changes nothing; a key gives its quartile and adds one to `matched`; another name gives `None` and joins the unmatched set |
| JournalImpact.WithQuartiles | analyze_journal_impact.py:113 | every row gets the quartile its journal is assigned |
| JournalImpact.ApplyAssigner | analyze_journal_impact.py:113 | applying the closure row by row adds the matched rows to `matched` and the unmatched journals to the set |
| JournalImpact.DropMissing | analyze_journal_impact.py:117 | `dropna` keeps exactly the rows with a quartile |
| JournalImpact.MatchRate | analyze_journal_impact.py:119 | the rate is 0 with no rows, and lies in `[0, 100]` |
| JournalImpact.AssignQuartiles | analyze_journal_impact.py:83-126 | an empty journal table is refused; otherwise the rows with a quartile, the match rate and the number of unmatched journals |
| JournalImpact.KeptRows | analyze_journal_impact.py:113-117 | after `dropna` exactly the rows whose journal has a stored, non-null quartile remain, each with that quartile |
| JournalImpact.MatchedRowsArePositions | analyze_journal_impact.py:98-113 | `matched` counts rows whose journal is a key, not distinct journals |
| PubmedFetcher.ParseInt | src/pubmed_fetcher.py:205-208 | `int()` of a blank string fails, and a negative value comes only from a string whose stripped form starts with a minus sign |
| PubmedFetcher.YearOf | src/pubmed_fetcher.py:203-208 | the year is present iff PubDate has a "Year" that `int()` parses to a non-zero value, and then it is that value |
| PubmedFetcher.NatStringValue | src/pubmed_fetcher.py:206 | the digits of `str(n)` read back to `n` |
| PubmedFetcher.ParseDigits | src/pubmed_fetcher.py:206 | `int()` of a run of digits gives its value |
| PubmedFetcher.ParseNegatedDigits | src/pubmed_fetcher.py:206 | `int()` of a minus sign and digits gives the negated value |
| PubmedFetcher.ParseIntString | src/pubmed_fetcher.py:206 | `int(str(n)) == n` for every integer |
| PubmedFetcher.AuthorName | src/pubmed_fetcher.py:215-224 | ForeName and LastName give "ForeName LastName"; LastName alone gives LastName; no LastName gives nothing |
| PubmedFetcher.AuthorNamesCount | src/pubmed_fetcher.py:211-224 | one name per entry that has a LastName |
| PubmedFetcher.ParsedArticle | src/pubmed_fetcher.py:182-241 | `None` iff the record raises, has no author or its year is missing, unparsable or 0; otherwise the record's authors are the names `AuthorNames` forms from the author list, its year is the parsed year, title, journal and pmid are kept, `author_count == len(authors)` and `positions == []` |
| PubmedFetcher.AuthorNamesSingle | src/pubmed_fetcher.py:215-224 | one entry gives "ForeName LastName", the last name alone, or nothing without a last name |
| PubmedFetcher.AuthorNamesAppend | src/pubmed_fetcher.py:211-224 | the names of a list are formed entry by entry in input order: the names of `x + y` are those of `x` followed by those of `y` |
| PubmedFetcher.ParseArticle | src/pubmed_fetcher.py:192-237 | the author loop computes the parsed record |
| PubmedFetcher.CollectAuthors | src/pubmed_fetcher.py:211-224 | the loop gathers exactly the names `AuthorNames` forms, in order, skipping entries without a last name |
| PubmedFetcher.FetchPaperDetails | src/pubmed_fetcher.py:138-180 | the papers of each slice of `batch_size` PMIDs in turn; a batch that raised contributes nothing |
| PubmedFetcher.FetchBatch | src/pubmed_fetcher.py:157-177 | one batch gives the parsed papers of its records, or nothing when it raised |
| PubmedFetcher.ParsedPapersFrom | src/pubmed_fetcher.py:168-171 | every paper comes from a record of the batch |
| ArxivFetcher.ArxivId | src/arxiv_fetcher.py:97 | the id is a suffix of the entry id without "/abs/"; without "/abs/" it is the whole entry id, and otherwise "/abs/" stands right before it |
| ArxivFetcher.ArxivIdRest | src/arxiv_fetcher.py:97 | the id of an entry id holding "/abs/" is the id of the text after its first "/abs/"; with the row above, this fixes `split("/abs/")[-1]` for every entry id, overlapping markers included |
| ArxivFetcher.OverlappingMarker | src/arxiv_fetcher.py:97 | `"/abs/abs/x"` gives the id `"abs/x"`: the split cuts at the first of two overlapping markers |
| ArxivFetcher.ParseArxivAuthors | src/arxiv_fetcher.py:111-124 | one string per author, in order |
| ArxivFetcher.ToPreprint | src/arxiv_fetcher.py:94-105 | the record has the id, title and year of its result, its authors' names, `author_count == len(authors)`, the category echoed and `positions == []` |
| ArxivFetcher.FetchCategory | src/arxiv_fetcher.py:63-109 | the loop appends the record of every result in the year window, in stream order |
| ArxivFetcher.FetchQuantitativeBiology | src/arxiv_fetcher.py:29-44 | the q-bio category |
| ArxivFetcher.FetchComputerScience | src/arxiv_fetcher.py:46-61 | the cs category |
| ArxivFetcher.Preprints | src/arxiv_fetcher.py:87-106 | at most one record per result, each in the year window with its category echoed, no positions and `author_count == len(authors)` |
| ArxivFetcher.PreprintsExact | src/arxiv_fetcher.py:87-106 | every result in the window gives a record, and every record comes from such a result |
| ArxivFetcher.PreprintsAppend | src/arxiv_fetcher.py:87-106 | stream order is kept: a concatenated stream gives the concatenated records |
| ArxivFetcher.PreprintsCount | src/arxiv_fetcher.py:87-106 | one record per result in the window |

## Left out

- Network clients are not modelled: Entrez search, the `arxiv.Client` query and paging, genderize.io over `requests`, and the Groq call (classify_names_retry.py:75-122). Their outputs are abstract inputs.
- SQLite and files are not modelled: src/db_utils.py, `update_database`, the SQL queries, the gender cache's JSON load and save, `save_to_csv`, and `batch_insert_journals` (called at preprocess_journal_quartiles.py:119; it is not defined in src/db_utils.py).
- The SQL branches of `get_gender_stats` and `analyze_unknowns` are not modelled; they are database queries. Their `IN ('unknown', NULL, '')` never matches NULL, unlike the Python branch.
- Plotting, the CLI, progress bars and printed output are rendering or wiring, and are not modelled. The `add_author_positions` of cli.py duplicates pipeline.py:362-367, so it is modelled once.
- The batch scripts run_gender_inference_db.py and run_arxiv_fetch.py are not modelled.
- Float arithmetic, numpy's generator and seeding, and the accuracy of the bootstrap are not modelled: reals replace floats, and the draws are a parameter.
- `np.polyfit` is a parameter. Only the two-point guard of `calculate_trend` is modelled.
- Bootstrap.BootstrapSpec: requires `n_iterations >= 1` whenever a value survives the filter, because numpy's percentile of an empty array raises.
- Bootstrap.BootstrapByGroup: pandas' `groupby` order and its dropping of NaN keys are not modelled. This holds for Bootstrap.BootstrapByMultipleGroups too. The result is one row per value (or key combination) present, in some order, and the row keys are not sorted.
- Bootstrap.BootstrapByGroup: requires every row to hold the grouping column, and `n_iterations >= 1`. A missing column is pandas' `KeyError` at src/bootstrap.py:73, which is not modelled. With `n_iterations == 0` the source still works when every group has only missing values; the model does not cover that case.
- Bootstrap.BootstrapByMultipleGroups: requires every row to hold the grouping columns, and `n_iterations >= 1`, as for Bootstrap.BootstrapByGroup. The `KeyError` at src/bootstrap.py:108 is not modelled. The `ValueError` for an empty column list is modelled.
- Bootstrap.ZipKeysEcho: pandas 2's 1-tuple keys for a one-element list of columns are not modelled; the one-column branch echoes the key value itself.
- pandas' conversion of `None` to NaN in float columns is not modelled; `Prob` keeps `None` and NaN apart as the Python lists do.
- Letters, case and whitespace (`IsAlpha`, `LowerChar` and `IsSpace` in `strs.dfy`) cover ASCII and Latin-1 letters and the whitespace `str.split()` knows. Other Unicode letters and case mappings are not modelled, nor are the non-ASCII digits `int()` accepts.
- Pipeline.AnnotateAll: requires every row's author in the table; this is the `KeyError` case, which `infer_gender_batch`'s own table construction rules out.
- Pipeline.PositionsFor: an `authors` entry holding `None` (a `TypeError` in `len`) is not modelled; a missing key gives `[]`.
- GenderUtils.GenderInference.InferGender: the detector and genderize.io are fixed functions of the name, so a name always gets the same reply. A flaky API is not modelled.
- The PubMed record (`Article` in `pubmed_fetcher.dfy`): Entrez's nested record is given already read, with "" for a missing key. A record on which a lookup raises is `Unreadable`; what raises is not modelled.
- PubmedFetcher.FetchPaperDetails: requires `batch_size > 0`, because `range` with step 0 raises.
- ClassifyRetry.RetryUnknowns: the classifier's reply is a dictionary from name to value. A non-dict JSON document, on which `name in classifications` does something else, is not modelled.
- JournalQuartiles.FuzzyHit: difflib's similarity ranking is not modelled, only that its answer is one of the titles given.
- The arXiv publication date: the timezone and sub-second part of `published` are not modelled.
