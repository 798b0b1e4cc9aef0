# Popularity League, modelled in Dafny

`PopularityLeague` is a two-stage Hadoop pipeline that ranks the pages of a
"league" by how often they are linked to.

* **Stage 1 ("Page Count").**
  * `LinkCountMap.map` splits each line of the link corpus on the delimiter
    set `" \t,;.?!-:@[](){}_*/"` with `StringTokenizer`.
  * It parses every token with `Integer.parseInt` and writes `(source, 0)`
    for the first token and `(target, 1)` for each later one.
  * `LinkCountReduce.reduce` adds up the values of each key with Java `int`
    arithmetic.
* **Stage 2 ("League Rank").**
  * Each `LeagueRankMap` keeps, in a `TreeSet<Pair<Integer, Integer>>`, the
    `(count, pageID)` rows of the stage-1 table whose page is in the league.
  * Its `cleanup` writes them out in ascending order as two-element
    `IntArrayWritable`s.
  * A single `LeagueRankReduce.reduce` merges every row into one `TreeSet`
    and walks it in ascending `(count, pageID)` order.
  * The walk fills the `ID`, `count` and `rank` arrays and writes
    `(ID[i], rank[i])`, where `rank[i]` is `i` unless the count ties with
    the previous one (standard competition ranking, from zero, least
    popular first).

The model has five modules, one per file:

* `JavaLang`: the `int` range and its wrap-around, `Integer.parseInt`,
  `Integer.toString` and `Integer.compare`.
* `Tokenizer`: `StringTokenizer` with the mapper's delimiters.
* `LinkCount`: stage 1. The mapper and the reducer are methods with loops.
  The whole stage is the function `LinkCounts`, which is proved against the
  independent definitions `TargetCount` and `Mentioned`.
* `Pairs`: `Pair.compareTo` and `Pair.equals`. A `TreeSet` is modelled as
  its strictly increasing iteration order, with `TreeSet.add` as `Insert`.
* `LeagueRank`: stage 2.
  * `IntArrayWritable` is a class over an `array<int>`.
  * `LeagueRankMapper` and `LeagueRankReducer` are classes whose
    `countToPageMap` field the methods update.
  * The rank walk is the method `AssignRanks`, over `ID`, `count` and
    `rank` arrays. It is proved equal to `RankedOutput`, whose meaning is
    proved by the `Rank` lemmas.

Two behaviours of the code may surprise a reader. The model follows the
code in both.

* An overflowing count is not an error. The reducer wraps silently
  (`sum += val.get()` on an `int`). `LinkCount.Reduce` wraps too, and
  `LinkCountsCorrect` says the count is exact whenever it fits in an `int`.
* The league is not loaded once as a set of ids. The mapper keeps the
  league file's lines and parses them again on every `map` call, in order.
  A bad league line therefore fails the call only when it is reached,
  after any earlier additions. `LeagueRankMapper.Map` models exactly that.

## Model

| member | source | states |
|---|---|---|
| JavaLang.Wrap | src/PopularityLeague.java:134-137 | the `int` that `sum` holds: in the 32-bit range, congruent to the exact value modulo 2^32, and equal to it whenever it fits |
| JavaLang.WrapAdd | src/PopularityLeague.java:135-137 | wrapping after every `+=` gives the same `int` as wrapping the exact total once |
| JavaLang.Compare | src/PopularityLeague.java:279-280 | `Integer.compareTo`: negative, zero or positive exactly when less, equal or greater |
| JavaLang.ParseInt | src/PopularityLeague.java:162-163 | `Integer.parseInt`: a rejected string fails with `NumberFormat` of that very string, and an accepted one yields an `int` |
| JavaLang.ParseIntAccepts | src/PopularityLeague.java:117-122 | `parseInt` returns `v` exactly when the string is one or more digits, optionally after a single `+` or `-`, and `v` is their decimal value with that sign and fits in an `int`; every other string is rejected |
| JavaLang.ParseFormatRoundTrip | src/PopularityLeague.java:206-207 | `Integer.parseInt(IntWritable.toString())` gives back the same `int` for every `int` |
| JavaLang.FormatInt | src/PopularityLeague.java:206-207 | `IntWritable.toString()`: a non-empty string that starts with `-` exactly for a negative value, and is otherwise all digits |
| Tokenizer.Tokens | src/PopularityLeague.java:113 | every token is non-empty and holds no delimiter |
| Tokenizer.TokensCover | src/PopularityLeague.java:113-117 | the tokens, concatenated, are the line with its delimiters removed: no character is lost or reordered |
| Tokenizer.TokensOfJoin | src/PopularityLeague.java:113-117 | tokens joined with spaces tokenize back to exactly those tokens |
| Tokenizer.TokensAreMaximalRuns | src/PopularityLeague.java:113-117 | a string is a token of the line exactly when it is a maximal run of non-delimiters: non-empty, delimiter-free, and bounded on each side by a delimiter or an end of the line |
| Tokenizer.TokensStep | src/PopularityLeague.java:113-117 | tokens come in line order: after leading delimiters, the first maximal run is the first token, followed by the tokens of the rest of the line |
| Tokenizer.TokensOfDelims | src/PopularityLeague.java:113-117 | a line of delimiters only has no tokens, so the mapper writes nothing for it |
| LinkCount.ParseTokens | src/PopularityLeague.java:116-122 | succeeds exactly when every token parses, giving the tokens' values in order; otherwise fails with the error of the first bad token |
| LinkCount.ParseTokensStopsAt | src/PopularityLeague.java:116-122 | the first token `parseInt` rejects decides the failure, whatever follows it |
| LinkCount.Emits | src/PopularityLeague.java:119-122 | one pair per id in order, the first with increment 0 and every later one with 1 |
| LinkCount.LineEmits | src/PopularityLeague.java:112-125 | a line gives one pair per token in token order, first `(id, 0)` then `(id, 1)`, or fails at the first non-`int` token instead of skipping it |
| LinkCount.Map | src/PopularityLeague.java:110-126 | the mapper's token loop writes exactly `LineEmits(line)`, and returns the parse error at the first bad token |
| LinkCount.Reduce | src/PopularityLeague.java:132-140 | writes one `(key, sum)` whose sum is the wrapped total of all values in the group |
| LinkCount.Counts | src/PopularityLeague.java:132-139 | the reduced table has an entry for every key some mapper wrote and for no other, and each entry is an `int` |
| LinkCount.SumPermutation | src/PopularityLeague.java:134-137 | the total does not depend on the order in which the values arrive |
| LinkCount.CountsPermutation | src/PopularityLeague.java:132-139 | any rearrangement of the mapped pairs, however split among mappers, gives the same table |
| LinkCount.EmitsSum | src/PopularityLeague.java:119-122 | for one line, the increments written for `k` add up to the occurrences of `k` among the line's non-first tokens |
| LinkCount.CorpusAgree | src/PopularityLeague.java:110-139 | mapping all lines and grouping by key succeeds exactly when every line parses, and gives each id its target count and the keys of all mentioned ids |
| LinkCount.LinkCounts | src/PopularityLeague.java:110-139 | stage 1 succeeds exactly when every line maps without error, and then every count is an `int` |
| LinkCount.LinkCountsCorrect | src/PopularityLeague.java:110-139 | stage 1 fails exactly when a token is not an `int`. Otherwise the table has an entry for exactly the ids on some line, as source or target, and each entry is the id's target-occurrence count: wrapped to 32 bits, exact when it fits |
| LinkCount.LinesPermutation | src/PopularityLeague.java:110-139 | reordering the corpus lines changes neither whether stage 1 succeeds nor its table |
| Pairs.CompareTo | src/PopularityLeague.java:278-281 | zero exactly on equal pairs, negative exactly when lexicographically smaller by `(first, second)`, positive exactly when larger |
| Pairs.Equals | src/PopularityLeague.java:293-304 | true exactly when both components are equal |
| Pairs.CompareToIsTotalOrder | src/PopularityLeague.java:278-304 | `compareTo` is antisymmetric, irreflexive, transitive and total, and consistent with `equals`, as `TreeSet` requires |
| Pairs.Insert | src/PopularityLeague.java:167 | `TreeSet.add`: the result stays strictly ordered, gains exactly the new element, is unchanged when the element is already present, and otherwise grows by one |
| Pairs.SortedUnique | src/PopularityLeague.java:198-209 | two `TreeSet`s with the same elements iterate in the same order |
| Pairs.SortedSize | src/PopularityLeague.java:212-214 | `size()` equals the number of distinct elements, so the rank arrays have one slot per distinct pair |
| LeagueRank.IntArrayWritable.constructor | src/PopularityLeague.java:97-104 | a fresh array of the same length holding `numbers[i]` at every position `i` |
| LeagueRank.IntArrayWritable.ToArray | src/PopularityLeague.java:204 | `toArray()` gives the stored elements, one per slot and in slot order |
| LeagueRank.Admit | src/PopularityLeague.java:165-168 | one row adds exactly `(count, pageID)` to a member's set and leaves a non-member's set unchanged |
| LeagueRank.ParsedPrefix | src/PopularityLeague.java:165-166 | how many league lines parse before the first one `parseInt` rejects |
| LeagueRank.ParseLeague | src/PopularityLeague.java:165-166 | the league lines read as ids succeed exactly when every line parses, giving one id per line, in order |
| LeagueRank.LeagueMembers | src/PopularityLeague.java:165-166 | when the league parses (`ParseLeague`), the mapper never fails on the league, and a page matches exactly when its id is one of the league ids |
| LeagueRank.LeagueRankMapper.constructor | src/PopularityLeague.java:145-157 | the league lines as given and an empty set |
| LeagueRank.LeagueRankMapper.Map | src/PopularityLeague.java:160-170 | fails, leaving the set alone, on a bad count and then on a bad page id. Otherwise it adds `(count, pageID)` once if a league line before the first bad one equals the page, and fails at the first bad league line if there is one |
| LeagueRank.LeagueRankMapper.Cleanup | src/PopularityLeague.java:173-180 | writes `[pageID, count]` for every element of the set, in strictly ascending `(count, pageID)` order |
| LeagueRank.Filter | src/PopularityLeague.java:160-169 | after mapping a sequence of table entries, the set holds exactly the `(count, page)` of the entries whose page is a league member, in strict order |
| LeagueRank.MapEntries | src/PopularityLeague.java:160-169 | calling `map` on every stage-1 entry, each handed over as `toString()` text, never fails when the league parses, and leaves the mapper's set equal to `Filter` of the entries |
| LeagueRank.FilterRows | src/PopularityLeague.java:165-168 | a pair is kept exactly when its page is a league member and the table has that `(page, count)` entry |
| LeagueRank.FilterTable | src/PopularityLeague.java:160-169 | over the whole stage-1 table, the kept pairs are exactly `(count, id)` for league ids in the table, with no row for an absent member |
| LeagueRank.FilterOrder | src/PopularityLeague.java:160-169 | the order in which a mapper reads the table's entries does not change its set |
| LeagueRank.Collect | src/PopularityLeague.java:203-210 | the reducer's set after the rows arrive is strictly ordered and holds exactly the `(count, pageID)` of every row |
| LeagueRank.CollectCleanup | src/PopularityLeague.java:173-210 | rows written by `cleanup` rebuild the mapper's set exactly in the reducer: the `IntArrayWritable` hand-off loses nothing |
| LeagueRank.CollectOrder | src/PopularityLeague.java:203-210 | the reducer's set depends only on which rows arrive, not on their order or how many mappers sent the same row |
| LeagueRank.Scores | src/PopularityLeague.java:217-220 | `count[i]` is the count of the `i`-th pair of the walk |
| LeagueRank.Rank | src/PopularityLeague.java:221-227 | the rank at position `i` never exceeds `i` |
| LeagueRank.RankTieLaw | src/PopularityLeague.java:221-227 | a position shares its predecessor's rank exactly when it shares its count, and otherwise its rank is its position |
| LeagueRank.RankMonotone | src/PopularityLeague.java:221-227 | ranks never decrease along the walk |
| LeagueRank.RankRunStart | src/PopularityLeague.java:221-227 | the rank is where the run of equal counts ending at `i` begins |
| LeagueRank.ScoresAscending | src/PopularityLeague.java:217-220 | the counts seen in `TreeSet` order never decrease |
| LeagueRank.RankCountsSmaller | src/PopularityLeague.java:217-227 | over ascending counts, the positions before the rank are exactly those with a smaller count |
| LeagueRank.RankIsNumberSmaller | src/PopularityLeague.java:217-227 | over ascending counts, the rank is the number of positions with a smaller count |
| LeagueRank.RankOrder | src/PopularityLeague.java:217-227 | over ascending counts, equal counts get equal ranks and a smaller count gets a smaller rank, both ways |
| LeagueRank.RankedOutput | src/PopularityLeague.java:217-231 | one record per pair of the set |
| LeagueRank.RankedOutputMeaning | src/PopularityLeague.java:217-231 | the `k`-th record is the `k`-th page, ranked by how many pages of the set have a smaller count |
| LeagueRank.RankedOutputTies | src/PopularityLeague.java:217-231 | for every set and every position after the first, the record gets its predecessor's rank exactly when the counts tie, and its own position as rank when they do not |
| LeagueRank.RankedOutputExamples | src/PopularityLeague.java:217-231 | two small sets: counts `1,3,3` are ranked `0,1,1`, and counts `1,1,2` are ranked `0,0,2` |
| LeagueRank.AssignRanks | src/PopularityLeague.java:212-231 | the walk over the `ID`, `count` and `rank` arrays writes exactly `RankedOutput` of the set, and nothing for an empty set |
| LeagueRank.LeagueRankReducer.constructor | src/PopularityLeague.java:198 | an empty set |
| LeagueRank.ReadRow | src/PopularityLeague.java:204-207 | reading a row back through `toString()` and `parseInt` gives exactly its `(count, pageID)`: no value is lost or swapped |
| LeagueRank.LeagueRankReducer.Reduce | src/PopularityLeague.java:201-231 | re-parses each row's `toString()`, adds `(count, pageID)` for every row, and writes the ranked walk of the whole set |

## Left out

- The `run` job orchestration, temp-path deletion and exit status
  (src/PopularityLeague.java:34-73) are Hadoop plumbing. The stages are
  joined in the model only through their interfaces: `LinkCounts` yields
  the table, `Filter`/`FilterTable` consume its entries, and
  `CollectCleanup` links the two halves of stage 2.
- `readHDFSFile` and both `setup` methods are file-system I/O. The mapper
  takes the league file's lines, already split on `"\n"`. The reducer's own
  copy of the league is never used and is not modelled.
- The framework's shuffle, partitioning and distribution are not modelled.
  The shuffle becomes `Group`, and the lemmas about rearrangements
  (`CountsPermutation`, `LinesPermutation`, `FilterOrder`, `CollectOrder`)
  stand in for any split among workers. `Context.write` becomes appending
  to an output sequence.
- Writable serialisation and the `KeyValueTextInputFormat`/`TextOutputFormat`
  text encoding are not modelled. The stage-1 table reaches the stage-2
  mapper as `FormatInt` text, which `ParseFormatRoundTrip` shows is
  lossless.
- `Pair.hashCode`, `Pair.toString`, `Pair.of` and the commented-out code
  after the rank loop do not affect any output.
- JavaLang.ParseInt: only ASCII digits are modelled. `Integer.parseInt`
  also accepts other Unicode decimal digits.
- Pairs.CompareTo: the `o == null` case is not modelled, because no null
  pair is ever built.
- Partial output is not modelled. A failing `map` call makes the Hadoop
  task fail, and the model returns the error (`Err`/`Fail`) instead of the
  pairs written before it. Across several lines, `LinkCounts` reports the
  first failing line's error, although on a cluster the failing task need
  not be the first one.
- LeagueRank.LeagueRankReducer.Reduce: requires every row to hold at least
  two `int`s, which every mapper's `cleanup` guarantees. The
  `ArrayIndexOutOfBoundsException` a shorter row would raise is not
  modelled.
- The reducer's rows reach `Reduce` as the `toArray()` contents of each
  `IntArrayWritable`, not as the objects themselves. The aliasing of the
  framework's reused value objects is not modelled.
