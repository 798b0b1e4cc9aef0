/**
 * Stage 2 of the popularity pipeline ("League Rank"). Each mapper keeps, in a
 * `TreeSet` ordered by `(count, pageID)`, the table rows whose page is in the
 * league, and writes them out in that order when it is done. A single reducer
 * merges every mapper's rows into one `TreeSet` and walks it in ascending
 * order, giving each page the standard competition rank (1-2-2-4 style, from
 * zero, least popular first) of its count.
 */
module LeagueRank {
  import opened JavaLang
  import opened Pairs
  import LinkCount

  type KeyValue = LinkCount.KeyValue

  // ---------------------------------------------------------------------------
  // IntArrayWritable

  /** `IntArrayWritable`: the array of `int`s a league mapper writes for one row. */
  class IntArrayWritable {
    var values: array<int>

    /** `IntArrayWritable(Integer[] numbers)`: copies `numbers`, element by element. */
    constructor (numbers: array<int>)
      ensures fresh(values)
      ensures values.Length == numbers.Length
      ensures values[..] == numbers[..]
    {
      var ints := new int[numbers.Length];
      for i := 0 to numbers.Length
        invariant ints[..i] == numbers[..i]
      {
        ints[i] := numbers[i];
      }
      values := ints;
    }

    /** `toArray()`: the elements, in order. */
    function ToArray(): (r: seq<int>)
      reads this, values
      ensures |r| == values.Length
      ensures forall i :: 0 <= i < |r| ==> r[i] == values[i]
    {
      values[..]
    }
  }

  // ---------------------------------------------------------------------------
  // The league filter (LeagueRankMap)

  /**
   * One row's effect on a mapper's set: the row `(count, pageID)` is added
   * when its page is a league member, and the set is unchanged otherwise.
   */
  function Admit(s: seq<Pair>, member: bool, row: Pair): (r: seq<Pair>)
    requires StrictlySorted(s)
    ensures StrictlySorted(r)
    ensures member ==> Elements(r) == Elements(s) + {row}
    ensures !member ==> r == s
  {
    if member then Insert(s, row) else s
  }

  /** How many league lines, from the first, `Integer.parseInt` accepts before one is rejected. */
  function ParsedPrefix(lines: seq<string>): (n: nat)
    ensures n <= |lines|
    ensures forall k :: 0 <= k < n ==> ParseInt(lines[k]).Ok?
    ensures n < |lines| ==> ParseInt(lines[n]).Err?
  {
    if lines == [] || ParseInt(lines[0]).Err? then 0 else 1 + ParsedPrefix(lines[1..])
  }

  /** The prefix that parses ends exactly at the first rejected line. */
  lemma ParsedPrefixAt(lines: seq<string>, i: nat)
    requires i <= |lines| && forall k :: 0 <= k < i ==> ParseInt(lines[k]).Ok?
    requires i < |lines| ==> ParseInt(lines[i]).Err?
    ensures ParsedPrefix(lines) == i
  {
  }

  /** One of the first `n` league lines is the id `id`. */
  predicate Matches(lines: seq<string>, n: nat, id: int) {
    exists k :: 0 <= k < n && k < |lines| && ParseInt(lines[k]) == Ok(id)
  }

  /**
   * The league file's lines read as ids: every line must be an `int`
   * literal, and the ids keep the lines' order.
   */
  function ParseLeague(lines: seq<string>): (r: Result<seq<int>>)
    ensures r.Ok? <==> ParsedPrefix(lines) == |lines|
    ensures r.Ok? ==> |r.value| == |lines| && forall k :: 0 <= k < |lines| ==> ParseInt(lines[k]) == Ok(r.value[k])
  {
    var r := LinkCount.ParseTokens(lines);
    assert r.Ok? ==> ParsedPrefix(lines) == |lines| by {
      if r.Ok? {
        ParsedPrefixAt(lines, |lines|);
      }
    }
    r
  }

  /**
   * When every league line parses, the mapper never fails on the league, and
   * a page is a member exactly when its id is among the parsed lines.
   */
  lemma LeagueMembers(lines: seq<string>, id: int)
    requires ParseLeague(lines).Ok?
    ensures ParsedPrefix(lines) == |lines|
    ensures Matches(lines, |lines|, id) <==> id in ParseLeague(lines).value
  {
    var ids := ParseLeague(lines).value;
    if id in ids {
      var k :| 0 <= k < |ids| && ids[k] == id;
      assert ParseInt(lines[k]) == Ok(id);
    }
  }

  /** Both components of every element are `int`s. */
  predicate IntPairs(s: seq<Pair>) {
    forall p :: p in s ==> IsInt(p.first) && IsInt(p.second)
  }

  lemma InsertIntPairs(s: seq<Pair>, p: Pair)
    requires StrictlySorted(s) && IntPairs(s) && IsInt(p.first) && IsInt(p.second)
    ensures IntPairs(Insert(s, p))
  {
    forall x | x in Insert(s, p) ensures IsInt(x.first) && IsInt(x.second) {
      assert x in Elements(Insert(s, p));
    }
  }

  /**
   * The mapper's set after `map` has been called on the stage-1 table
   * entries `entries` (`key` the page, `value` its count), when the league
   * lines parse to the ids `league`.
   */
  function Filter(s: seq<Pair>, league: seq<int>, entries: seq<KeyValue>): (r: seq<Pair>)
    requires StrictlySorted(s)
    ensures StrictlySorted(r)
    ensures Elements(r) == Elements(s) + set e | e in entries && e.key in league :: Pair(e.value, e.key)
  {
    if entries == [] then s
    else
      var last := entries[|entries| - 1];
      var before := Filter(s, league, entries[..|entries| - 1]);
      assert entries == entries[..|entries| - 1] + [last];
      Admit(before, last.key in league, Pair(last.value, last.key))
  }

  /** `LeagueRankMap`, holding the league file's lines that `setup` reads from the file system. */
  class LeagueRankMapper {
    const league: seq<string>
    var countToPageMap: seq<Pair>

    ghost predicate Valid()
      reads this
    {
      StrictlySorted(countToPageMap) && IntPairs(countToPageMap)
    }

    constructor (league: seq<string>)
      ensures Valid()
      ensures this.league == league && countToPageMap == []
    {
      this.league := league;
      countToPageMap := [];
    }

    /**
     * `map(key, value)`: parses the count (`value`) and then the page id
     * (`key`); then parses the league lines in order, adding `(count, pageID)`
     * to the set whenever a line's id equals `pageID`, and throwing at the
     * first line that is not an `int` literal (after any earlier additions).
     */
    method Map(key: string, value: string) returns (r: Outcome)
      requires Valid()
      modifies this
      ensures Valid()
      ensures ParseInt(value).Err? ==> r == Fail(ParseInt(value).error) && countToPageMap == old(countToPageMap)
      ensures ParseInt(value).Ok? && ParseInt(key).Err? ==>
                r == Fail(ParseInt(key).error) && countToPageMap == old(countToPageMap)
      ensures ParseInt(value).Ok? && ParseInt(key).Ok? ==>
                r == if ParsedPrefix(league) == |league| then Pass else Fail(NumberFormat(league[ParsedPrefix(league)]))
      ensures ParseInt(value).Ok? && ParseInt(key).Ok? ==>
                countToPageMap == Admit(old(countToPageMap), Matches(league, ParsedPrefix(league), ParseInt(key).value),
                                        Pair(ParseInt(value).value, ParseInt(key).value))
    {
      var count := ParseInt(value);
      if count.Err? {
        return Fail(count.error);
      }
      var pageID := ParseInt(key);
      if pageID.Err? {
        return Fail(pageID.error);
      }
      var row := Pair(count.value, pageID.value);
      for i := 0 to |league|
        invariant Valid()
        invariant forall k :: 0 <= k < i ==> ParseInt(league[k]).Ok?
        invariant countToPageMap == Admit(old(countToPageMap), Matches(league, i, pageID.value), row)
      {
        var id := ParseInt(league[i]);
        if id.Err? {
          ParsedPrefixAt(league, i);
          return Fail(id.error);
        }
        if pageID.value == id.value {
          InsertIntPairs(countToPageMap, row);
          countToPageMap := Insert(countToPageMap, row);
        }
        assert Matches(league, i + 1, pageID.value) <==> Matches(league, i, pageID.value) || pageID.value == id.value;
      }
      ParsedPrefixAt(league, |league|);
      r := Pass;
    }

    /** `cleanup`: writes `[pageID, count]` for every row, in the set's ascending order. */
    method Cleanup() returns (out: seq<seq<int>>)
      requires Valid()
      ensures |out| == |countToPageMap|
      ensures forall k :: 0 <= k < |out| ==> out[k] == [countToPageMap[k].second, countToPageMap[k].first]
      ensures forall i, j :: 0 <= i < j < |out| ==> Less(Pair(out[i][1], out[i][0]), Pair(out[j][1], out[j][0]))
    {
      out := [];
      for k := 0 to |countToPageMap|
        invariant |out| == k
        invariant forall m :: 0 <= m < k ==> out[m] == [countToPageMap[m].second, countToPageMap[m].first]
      {
        var item := countToPageMap[k];
        var integers := new int[2];
        integers[0], integers[1] := item.second, item.first;
        var val := new IntArrayWritable(integers);
        out := out + [val.ToArray()];
      }
    }
  }

  /** `Filter` over one more entry admits that entry's row. */
  lemma FilterStep(s: seq<Pair>, league: seq<int>, entries: seq<KeyValue>, i: nat)
    requires StrictlySorted(s) && i < |entries|
    ensures Filter(s, league, entries[..i + 1])
         == Admit(Filter(s, league, entries[..i]), entries[i].key in league, Pair(entries[i].value, entries[i].key))
  {
    assert entries[..i + 1][..i] == entries[..i];
  }

  /**
   * The framework calling `map` on every entry of the stage-1 table, each
   * handed over as text: when the league parses, no call fails, and the
   * mapper's set becomes `Filter` of the entries.
   */
  method MapEntries(m: LeagueRankMapper, entries: seq<KeyValue>) returns (r: Outcome)
    requires m.Valid() && ParseLeague(m.league).Ok?
    requires forall e :: e in entries ==> IsInt(e.key) && IsInt(e.value)
    modifies m
    ensures m.Valid()
    ensures r == Pass
    ensures m.countToPageMap == Filter(old(m.countToPageMap), ParseLeague(m.league).value, entries)
  {
    var league := ParseLeague(m.league).value;
    r := Pass;
    for i := 0 to |entries|
      invariant m.Valid() && r == Pass
      invariant m.countToPageMap == Filter(old(m.countToPageMap), league, entries[..i])
    {
      var e := entries[i];
      ParseFormatRoundTrip(e.key);
      ParseFormatRoundTrip(e.value);
      LeagueMembers(m.league, e.key);
      FilterStep(old(m.countToPageMap), league, entries, i);
      var outcome := m.Map(FormatInt(e.key), FormatInt(e.value));
      if outcome.Fail? {
        r := outcome;
      }
    }
    assert entries[..|entries|] == entries;
  }

  /** Mapper rows are well formed: at least `[pageID, count]`, both `int`s. */
  predicate WellFormedRows(rows: seq<seq<int>>) {
    forall k :: 0 <= k < |rows| ==> |rows[k]| >= 2 && IsInt(rows[k][0]) && IsInt(rows[k][1])
  }

  /** The `(count, pageID)` pair a mapper row stands for. */
  function RowPair(row: seq<int>): Pair
    requires |row| >= 2
  {
    Pair(row[1], row[0])
  }

  /**
   * The reducer's reading of one row: each `int` goes through
   * `IntWritable.toString()` and back through `Integer.parseInt`, and the
   * row is read as `(count, pageID)`. No value is lost on the way.
   */
  method ReadRow(row: seq<int>) returns (p: Pair)
    requires |row| >= 2 && IsInt(row[0]) && IsInt(row[1])
    ensures p == RowPair(row)
  {
    ParseFormatRoundTrip(row[0]);
    ParseFormatRoundTrip(row[1]);
    var pageID := ParseInt(FormatInt(row[0])).value;
    var count := ParseInt(FormatInt(row[1])).value;
    p := Pair(count, pageID);
  }

  /** The reducer's set after adding every row of `rows` to `s`. */
  function Collect(s: seq<Pair>, rows: seq<seq<int>>): (r: seq<Pair>)
    requires StrictlySorted(s) && WellFormedRows(rows)
    ensures StrictlySorted(r)
    ensures Elements(r) == Elements(s) + RowPairs(rows)
  {
    if rows == [] then s
    else
      var n := |rows| - 1;
      Insert(Collect(s, rows[..n]), RowPair(rows[n]))
  }

  /** The pairs that the rows stand for. */
  function RowPairs(rows: seq<seq<int>>): (r: set<Pair>)
    requires WellFormedRows(rows)
    ensures forall x :: x in r <==> exists k :: 0 <= k < |rows| && x == RowPair(rows[k])
  {
    if rows == [] then {}
    else
      var n := |rows| - 1;
      var before := RowPairs(rows[..n]);
      assert forall k :: 0 <= k < n ==> rows[..n][k] == rows[k];
      before + {RowPair(rows[n])}
  }

  /**
   * The order in which a mapper sees the table's lines does not matter: the
   * same entries give the same set.
   */
  lemma FilterOrder(league: seq<int>, e1: seq<KeyValue>, e2: seq<KeyValue>)
    requires forall e :: e in e1 <==> e in e2
    ensures Filter([], league, e1) == Filter([], league, e2)
  {
    var a, b := Filter([], league, e1), Filter([], league, e2);
    assert Elements(a) == Elements(b);
    SortedUnique(a, b);
  }

  /**
   * A league member the table has no entry for contributes no row, and the
   * rows are exactly the table entries of league members.
   */
  lemma FilterRows(league: seq<int>, entries: seq<KeyValue>, p: Pair)
    ensures p in Filter([], league, entries) <==>
              p.second in league && LinkCount.KeyValue(p.second, p.first) in entries
  {
    var r := Filter([], league, entries);
    assert p in r <==> p in Elements(r);
  }

  /**
   * Run over the whole stage-1 table `m`, one entry per id, the mappers keep
   * exactly the pairs `(m[id], id)` of the league members that are in the
   * table: a member the table lacks gives no row, and no other id does.
   */
  lemma FilterTable(league: seq<int>, m: map<int, int>, entries: seq<KeyValue>)
    requires forall e :: e in entries <==> e.key in m && e.value == m[e.key]
    ensures Elements(Filter([], league, entries)) == set id | id in m && id in league :: Pair(m[id], id)
  {
    var want := set id | id in m && id in league :: Pair(m[id], id);
    var got := set e | e in entries && e.key in league :: Pair(e.value, e.key);
    forall x | x in want ensures x in got {
      assert LinkCount.KeyValue(x.second, x.first) in entries;
    }
  }

  /**
   * Feeding one mapper's `cleanup` output to the reducer rebuilds that
   * mapper's set: the hand-off through `IntArrayWritable` loses nothing.
   */
  lemma CollectCleanup(s: seq<Pair>, rows: seq<seq<int>>)
    requires StrictlySorted(s) && IntPairs(s)
    requires |rows| == |s|
    requires forall k :: 0 <= k < |rows| ==> rows[k] == [s[k].second, s[k].first]
    ensures WellFormedRows(rows)
    ensures Collect([], rows) == s
  {
    assert WellFormedRows(rows) by {
      forall k | 0 <= k < |rows| ensures |rows[k]| >= 2 && IsInt(rows[k][0]) && IsInt(rows[k][1]) {
        assert s[k] in s;
      }
    }
    assert RowPairs(rows) == Elements(s) by {
      forall x | x in RowPairs(rows) ensures x in Elements(s) {
        var k :| 0 <= k < |rows| && x == RowPair(rows[k]);
        assert x == s[k];
      }
      forall x | x in Elements(s) ensures x in RowPairs(rows) {
        var k :| 0 <= k < |s| && s[k] == x;
        assert x == RowPair(rows[k]);
      }
    }
    SortedUnique(Collect([], rows), s);
  }

  /**
   * The reducer's set depends only on which rows arrive, not on their order
   * or on how many mappers sent the same row.
   */
  lemma CollectOrder(r1: seq<seq<int>>, r2: seq<seq<int>>)
    requires WellFormedRows(r1) && WellFormedRows(r2)
    requires forall row :: row in r1 <==> row in r2
    ensures Collect([], r1) == Collect([], r2)
  {
    assert RowPairs(r1) == RowPairs(r2) by {
      forall x | x in RowPairs(r1) ensures x in RowPairs(r2) {
        var k :| 0 <= k < |r1| && x == RowPair(r1[k]);
        assert r1[k] in r2;
        var m :| 0 <= m < |r2| && r2[m] == r1[k];
      }
      forall x | x in RowPairs(r2) ensures x in RowPairs(r1) {
        var k :| 0 <= k < |r2| && x == RowPair(r2[k]);
        assert r2[k] in r1;
        var m :| 0 <= m < |r1| && r1[m] == r2[k];
      }
    }
    SortedUnique(Collect([], r1), Collect([], r2));
  }

  // ---------------------------------------------------------------------------
  // Rank assignment (LeagueRankReduce)

  /** The counts of the rows, in order. */
  function Scores(items: seq<Pair>): (c: seq<int>)
    ensures |c| == |items|
    ensures forall k :: 0 <= k < |items| ==> c[k] == items[k].first
  {
    if items == [] then [] else Scores(items[..|items| - 1]) + [items[|items| - 1].first]
  }

  /**
   * The rank the reducer gives position `i`: 0 at the start, the previous
   * rank when the count ties with the previous one, and `i` otherwise. It is
   * the position where the run of equal counts holding `i` begins.
   */
  function Rank(c: seq<int>, i: nat): (r: nat)
    requires i < |c|
    ensures r <= i
  {
    if i == 0 then 0
    else if c[i] == c[i - 1] then Rank(c, i - 1)
    else i
  }

  /** The records the reducer writes: `(ID[i], rank[i])` for every position, in order. */
  function RankedOutput(items: seq<Pair>): (out: seq<KeyValue>)
    ensures |out| == |items|
  {
    seq(|items|, i requires 0 <= i < |items| => LinkCount.KeyValue(items[i].second, Rank(Scores(items), i)))
  }

  /** Tie law: a position shares its predecessor's rank exactly when it shares its count. */
  lemma RankTieLaw(c: seq<int>, i: nat)
    requires 0 < i < |c|
    ensures c[i] == c[i - 1] <==> Rank(c, i) == Rank(c, i - 1)
    ensures c[i] != c[i - 1] ==> Rank(c, i) == i
  {
  }

  /** Ranks never decrease along the walk, whatever the counts. */
  lemma {:induction false} RankMonotone(c: seq<int>, i: nat, j: nat)
    requires i <= j < |c|
    ensures Rank(c, i) <= Rank(c, j)
  {
    if i < j {
      RankMonotone(c, i, j - 1);
      RankTieLaw(c, j);
    }
  }

  /** The counts never decrease along the sequence. */
  predicate Ascending(c: seq<int>) {
    forall i, j :: 0 <= i < j < |c| ==> c[i] <= c[j]
  }

  /** The reducer walks its set in ascending order, so the counts it sees never decrease. */
  lemma ScoresAscending(items: seq<Pair>)
    requires StrictlySorted(items)
    ensures Ascending(Scores(items))
  {
    var c := Scores(items);
    forall i, j | 0 <= i < j < |c| ensures c[i] <= c[j] {
      assert Less(items[i], items[j]);
    }
  }

  /**
   * `Rank(c, i)` is the start of the run of equal counts that ends at `i`:
   * every count from there to `i` equals `c[i]`, and the one before differs.
   */
  lemma {:induction false} RankRunStart(c: seq<int>, i: nat)
    requires i < |c|
    ensures forall j :: Rank(c, i) <= j <= i ==> c[j] == c[i]
    ensures Rank(c, i) == 0 || c[Rank(c, i) - 1] != c[i]
  {
    if i > 0 && c[i] == c[i - 1] {
      RankRunStart(c, i - 1);
    }
  }

  /**
   * Standard competition ranking: over ascending counts, the positions
   * before `Rank(c, i)` are exactly those whose count is smaller than `c[i]`.
   */
  lemma RankCountsSmaller(c: seq<int>, i: nat)
    requires Ascending(c) && i < |c|
    ensures forall j :: 0 <= j < |c| ==> (c[j] < c[i] <==> j < Rank(c, i))
  {
    RankRunStart(c, i);
    var r := Rank(c, i);
    forall j | 0 <= j < |c| ensures c[j] < c[i] <==> j < r {
      if j < r {
        assert c[j] <= c[r - 1] && c[r - 1] <= c[i];
      } else if i < j {
        assert c[i] <= c[j];
      }
    }
  }

  /** The rank of a count is the number of positions holding a smaller count. */
  lemma RankIsNumberSmaller(c: seq<int>, i: nat)
    requires Ascending(c) && i < |c|
    ensures Rank(c, i) == |set j | 0 <= j < |c| && c[j] < c[i]|
  {
    RankCountsSmaller(c, i);
    var r := Rank(c, i);
    assert (set j | 0 <= j < |c| && c[j] < c[i]) == Range(r);
  }

  /** Equal counts share a rank; a larger count has a larger rank. */
  lemma RankOrder(c: seq<int>, i: nat, j: nat)
    requires Ascending(c) && i < |c| && j < |c|
    ensures c[i] == c[j] <==> Rank(c, i) == Rank(c, j)
    ensures c[i] < c[j] <==> Rank(c, i) < Rank(c, j)
  {
    RankCountsSmaller(c, i);
    RankCountsSmaller(c, j);
    RankRunStart(c, i);
    RankRunStart(c, j);
    var ri, rj := Rank(c, i), Rank(c, j);
    if c[i] < c[j] {
      assert i < rj;
    } else if c[j] < c[i] {
      assert j < ri;
    }
  }

  /** The positions `0 .. n - 1`. */
  function Range(n: nat): (r: set<int>)
    ensures forall j :: j in r <==> 0 <= j < n
    ensures |r| == n
  {
    if n == 0 then {} else Range(n - 1) + {n - 1}
  }

  /**
   * What the reducer writes for the row at position `k` of its set: the row's
   * page, ranked by how many rows of the set have a smaller count.
   */
  lemma RankedOutputMeaning(items: seq<Pair>, k: nat)
    requires StrictlySorted(items) && k < |items|
    ensures RankedOutput(items)[k].key == items[k].second
    ensures RankedOutput(items)[k].value == |set j | 0 <= j < |items| && items[j].first < items[k].first|
  {
    var c := Scores(items);
    ScoresAscending(items);
    RankIsNumberSmaller(c, k);
    assert (set j | 0 <= j < |c| && c[j] < c[k]) == (set j | 0 <= j < |items| && items[j].first < items[k].first);
  }

  /**
   * In the written records, a row gets its predecessor's rank exactly when
   * it ties on count, and a row that does not tie gets its own position.
   */
  lemma RankedOutputTies(items: seq<Pair>, k: nat)
    requires 0 < k < |items|
    ensures RankedOutput(items)[k].value == RankedOutput(items)[k - 1].value <==> items[k].first == items[k - 1].first
    ensures items[k].first != items[k - 1].first ==> RankedOutput(items)[k].value == k
  {
    RankTieLaw(Scores(items), k);
  }

  /** Two small league outputs: ties share the lower rank, the next count skips ahead. */
  lemma RankedOutputExamples()
    ensures RankedOutput([Pair(1, 9), Pair(3, 5), Pair(3, 7)])
         == [LinkCount.KeyValue(9, 0), LinkCount.KeyValue(5, 1), LinkCount.KeyValue(7, 1)]
    ensures RankedOutput([Pair(1, 4), Pair(1, 6), Pair(2, 1)])
         == [LinkCount.KeyValue(4, 0), LinkCount.KeyValue(6, 0), LinkCount.KeyValue(1, 2)]
  {
    var c1 := Scores([Pair(1, 9), Pair(3, 5), Pair(3, 7)]);
    assert c1 == [1, 3, 3];
    var c2 := Scores([Pair(1, 4), Pair(1, 6), Pair(2, 1)]);
    assert c2 == [1, 1, 2];
  }

  /**
   * The rank loop of `LeagueRankReduce.reduce`: walks the rows in order,
   * filling the `ID`, `count` and `rank` arrays and writing `(ID[i], rank[i])`.
   */
  method AssignRanks(items: seq<Pair>) returns (out: seq<KeyValue>)
    ensures out == RankedOutput(items)
  {
    var n := |items|;
    ghost var c := Scores(items);
    var ID := new int[n];
    var rank := new int[n];
    var count := new int[n];
    out := [];
    var i := 0;
    while i < n
      invariant 0 <= i <= n
      invariant i > 0 ==> count[i - 1] == c[i - 1] && rank[i - 1] == Rank(c, i - 1)
      invariant |out| == i
      invariant forall k :: 0 <= k < i ==> out[k] == LinkCount.KeyValue(items[k].second, Rank(c, k))
    {
      var item := items[i];
      ID[i] := item.second;
      count[i] := item.first;
      rank[i] := i;
      if i != 0 {
        if count[i] == count[i - 1] {
          rank[i] := rank[i - 1];
        }
      }
      assert rank[i] == Rank(c, i);
      assert ID[i] == items[i].second;
      out := out + [LinkCount.KeyValue(ID[i], rank[i])];
      i := i + 1;
    }
  }

  /** `LeagueRankReduce`: one reduce call receives the rows of every mapper. */
  class LeagueRankReducer {
    var countToPageMap: seq<Pair>

    ghost predicate Valid()
      reads this
    {
      StrictlySorted(countToPageMap)
    }

    constructor ()
      ensures Valid() && countToPageMap == []
    {
      countToPageMap := [];
    }

    /**
     * `reduce`: adds `(count, pageID)` for every row (each read back through
     * `IntWritable.toString()` and `Integer.parseInt`) to the set, then ranks
     * the whole set.
     */
    method Reduce(rows: seq<seq<int>>) returns (out: seq<KeyValue>)
      requires Valid() && WellFormedRows(rows)
      modifies this
      ensures Valid()
      ensures countToPageMap == Collect(old(countToPageMap), rows)
      ensures out == RankedOutput(countToPageMap)
    {
      for k := 0 to |rows|
        invariant Valid()
        invariant countToPageMap == Collect(old(countToPageMap), rows[..k])
      {
        var p := ReadRow(rows[k]);
        assert rows[..k + 1][..k] == rows[..k];
        countToPageMap := Insert(countToPageMap, p);
      }
      assert rows[..|rows|] == rows;
      out := AssignRanks(countToPageMap);
    }
  }
}
