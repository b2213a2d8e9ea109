# UFC event predictor: outcome enumeration and resolution

A Dafny model of the prediction engine of `TheFightCalculator.py`. A
statistics table with one row per fighter gives the event's roster. Consecutive
names are paired into a bracket. The engine then enumerates all 2^M ways to pick
a winner for each of the M matchups. It resolves every matchup of every outcome
again by adjusted strike output, which is significant strikes landed per minute
times striking accuracy. It lists each resulting winner once, in the order it
is first seen.

Modules, one per component (each in its own file):

- `Bracket` (`bracket.dfy`): matchups, entries, outcomes, and the pairing of the
  roster.
- `Stats` (`stats.dfy`): table rows and the name-keyed lookup, where the last
  row with a given name wins.
- `Enumerator` (`enumerator.dfy`): the recursive outcome generator. Some binary
  digit helpers describe its branch order.
- `Resolver` (`resolver.dfy`): the winner of one matchup and the two failures.
- `Aggregator` (`aggregator.dfy`): the nested loops that collect winners, the
  reference definition they are proved against (resolve every matchup, then
  deduplicate keeping first-seen order), and the full prediction run.

The main results:

- Outcome `i` is `current` followed by the remaining matchups, each decided by
  the binary digits of `i` (`OutcomeAt`). The first matchup's choice is the most
  significant digit, and a 1 means fighter2 wins. So the enumeration counts in
  binary: it is depth-first, takes fighter1 first, and visits every choice
  string exactly once, in lexicographic order.
- Over all 2^M outcomes, the aggregation loop returns the same result as
  resolving the bracket once and deduplicating (`AggregateOverAllOutcomes`).
  The enumerator's winner labels and the number of outcomes make no difference.

Modelling decisions:

- The `fighters` pool passed to the generator ends up in a parameter that is
  never read. It is a sequence here, while the source starts with a set.
  `PoolIrrelevant` shows that the pool does not matter. The source removes the
  *winner* from the pool at each level (line 17). A description that says the
  loser is removed does not match the code. The model follows the code. Since
  the pool is never consulted, the difference cannot be observed.
- Accuracy is the number already read from the `"NN.N%"` cell
  (`Percent(45.5)`), or `Unparseable` for a cell that `float` would reject.
  The ratio is that number divided by 100, computed as an exact `real`.
- The failures follow the order in which lines 112-114 evaluate. First comes a
  missing record for fighter1, then for fighter2. (The `defaultdict` returns an
  empty dict, and then `"SLpM"` is missing.) After that comes an unparseable
  accuracy for fighter1, then for fighter2. A failure ends the run. The outcome
  count has already been reported by then (line 105), so `Predict` returns the
  count next to the winners-or-failure result.
- The table's row order is the pandas positional order. The default
  `RangeIndex` makes the labels used at line 95 equal to the positions.

## Model

| member | source | states |
|---|---|---|
| `Bracket.Pairs` | TheFightCalculator/TheFightCalculator.py:95 | floor(n/2) pairs; pair j is (roster[2j], roster[2j+1]); a trailing odd name is dropped |
| `Stats.StatsMapKeys` | TheFightCalculator/TheFightCalculator.py:97-99 | the lookup has exactly one key per name appearing in the table |
| `Stats.StatsMapLastWins` | TheFightCalculator/TheFightCalculator.py:97-99 | a repeated name maps to the record of its last row |
| `Stats.BuildStats` | TheFightCalculator/TheFightCalculator.py:97-99 | the loop that stores each row under its name builds exactly the lookup `StatsMap` |
| `Enumerator.Without` | TheFightCalculator/TheFightCalculator.py:17 | the next pool holds exactly the pool's fighters other than the winner |
| `Enumerator.Outcomes` | TheFightCalculator/TheFightCalculator.py:10-18 | exactly 2^(M - depth) outcomes; from the empty start, 2^M |
| `Enumerator.OutcomeAt` | TheFightCalculator/TheFightCalculator.py:11-18 | outcome i is `current` followed by the remaining matchups decided by the binary digits of i (most significant first, 1 = fighter2) |
| `Enumerator.OutcomeShape` | TheFightCalculator/TheFightCalculator.py:11-16 | each outcome has length |current| + M - depth, keeps `current` as prefix, and entry |current|+t names matchup depth+t's two fighters with one of them as winner |
| `Enumerator.EveryChoiceEnumerated` | TheFightCalculator/TheFightCalculator.py:14-18 | every choice string for the remaining matchups appears, at the index it denotes in binary |
| `Enumerator.OutcomesInOrder` | TheFightCalculator/TheFightCalculator.py:15-18 | for i < j, the choices of outcome i are lexicographically smaller than those of outcome j (fighter1 before fighter2) |
| `Enumerator.FirstOutcome` | TheFightCalculator/TheFightCalculator.py:15-18 | the first outcome gives every remaining matchup to fighter1 |
| `Enumerator.LastOutcome` | TheFightCalculator/TheFightCalculator.py:15-18 | the last outcome gives every remaining matchup to fighter2 |
| `Enumerator.BaseCase` | TheFightCalculator/TheFightCalculator.py:11-12 | once all matchups are decided, the single outcome is `current`; an empty bracket yields one empty outcome |
| `Enumerator.PoolIrrelevant` | TheFightCalculator/TheFightCalculator.py:17-18 | any two fighter pools give identical outcome sequences |
| `Resolver.Resolve` | TheFightCalculator/TheFightCalculator.py:110-122 | Ok exactly when both fighters have records with numeric accuracy; fighter1 wins iff its SLpM×accuracy is strictly greater, otherwise fighter2 (ties included); failures in lookup order |
| `Resolver.ResolveSwapped` | TheFightCalculator/TheFightCalculator.py:119-122 | swapping sides keeps the winner unless the scores tie, in which case the second-listed fighter wins either way |
| `Resolver.ResolveExample` | TheFightCalculator/TheFightCalculator.py:116-122 | 5.0 at 50% (2.5) against 3.0 at 90% (2.7): the second fighter wins |
| `Aggregator.Aggregate` | TheFightCalculator/TheFightCalculator.py:107-125 | the nested loops over outcomes and entries compute `Gather` of the traversal: append-if-absent per resolved matchup, first failure ends the run |
| `Aggregator.GatherRepeated` | TheFightCalculator/TheFightCalculator.py:108-125 | visiting the same bracket in one or more outcomes gives the same result as visiting it once |
| `Aggregator.GatherIsWinners` | TheFightCalculator/TheFightCalculator.py:124-125 | the append-if-absent loop result equals the first-seen deduplication of the per-matchup winners |
| `Aggregator.AggregateOverAllOutcomes` | TheFightCalculator/TheFightCalculator.py:101-125 | aggregating all outcomes of a bracket gives `Winners` of the bracket, independently of the enumerator's winner labels |
| `Aggregator.ResolveAll` | TheFightCalculator/TheFightCalculator.py:108-122 | succeeds exactly when every matchup resolves; then one winner per matchup, in bracket order |
| `Aggregator.Dedup` | TheFightCalculator/TheFightCalculator.py:124-125 | no duplicates, the same set of names as the input, no longer than the input |
| `Aggregator.DedupFirstSeen` | TheFightCalculator/TheFightCalculator.py:124-125 | the deduplicated names are ordered by their first occurrence in the input |
| `Aggregator.WinnerList` | TheFightCalculator/TheFightCalculator.py:101-125 | the reported list has no duplicates, has at most one name per matchup, holds exactly the matchups' winners, and is in first-seen order |
| `Aggregator.OneWinnerPerMatchup` | TheFightCalculator/TheFightCalculator.py:95-125 | with no repeated roster name, the list is exactly one winner per matchup in bracket order |
| `Aggregator.FirstFailureReported` | TheFightCalculator/TheFightCalculator.py:111-114 | a failed run reports the failure of the first failing matchup in bracket order |
| `Aggregator.Predict` | TheFightCalculator/TheFightCalculator.py:95-125 | the outcome count is 2^(rows/2); the winners are `Winners` of the table's lookup on the paired roster |

## Left out

- Scraping the event page and fighter pages (`get_fighter_urls`, `scrape_career_statistics`, lines 20-45 and 56-79): network I/O and HTML parsing in a library that is not part of this model.
- CSV persistence (`save_to_csv`, the `read_csv` at lines 88-93, `os.remove` at line 132): file I/O through pandas. The model starts from the rows the table holds.
- The Tk window and the text written into it (lines 105, 127-131, 134-170): user interface. The count and the winner list are returned instead.
- Reading `"NN.N%"` with `strip('%')` and `float` (lines 113-114): the accuracy comes already parsed, or as `Unparseable`. Special spellings that `float` accepts, such as `nan` and `inf`, and a non-string cell (which would raise a different exception) are not modelled.
- IEEE double rounding of `slpm * sa` (lines 116-117): the model uses exact reals. By the real ordering, two products that round to the same double may differ.
- Generator laziness (`yield`, `yield from`): line 102 turns the generator into a list anyway, so the model returns the finite sequence.
- The empty entry that the `defaultdict` inserts for a missing name at line 111: the `KeyError` that follows ends the run before that entry is read.
