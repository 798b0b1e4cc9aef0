/**
 * Stage 1 of the popularity pipeline ("Page Count"): the link-count mapper
 * turns each line `src t1 t2 ...` into `(src, 0), (t1, 1), (t2, 1), ...`, the
 * framework groups the values by key, and the reducer sums each group with
 * Java `int` arithmetic. The result is, for every id seen on any line, the
 * number of times it occurs as a link target.
 */
module LinkCount {
  import opened JavaLang
  import opened Tokenizer

  /** A key/value pair written to the framework's context: `(IntWritable, IntWritable)`. */
  datatype KeyValue = KeyValue(key: int, value: int)

  /** Parses the tokens in order; the first token that is not an `int` literal aborts. */
  function ParseTokens(toks: seq<string>): (r: Result<seq<int>>)
    ensures r.Ok? <==> forall k :: 0 <= k < |toks| ==> ParseInt(toks[k]).Ok?
    ensures r.Ok? ==> |r.value| == |toks|
    ensures r.Ok? ==> forall k :: 0 <= k < |toks| ==> r.value[k] == ParseInt(toks[k]).value
    ensures r.Err? ==> exists k :: FirstBadToken(toks, k) && r.error == ParseInt(toks[k]).error
  {
    if toks == [] then Ok([])
    else match ParseInt(toks[0])
      case Err(e) => (assert FirstBadToken(toks, 0); Err(e))
      case Ok(v) =>
        match ParseTokens(toks[1..])
        case Err(e) =>
          (var k :| FirstBadToken(toks[1..], k) && e == ParseInt(toks[1..][k]).error;
           assert FirstBadToken(toks, k + 1);
           Err(e))
        case Ok(rest) => Ok([v] + rest)
  }

  /** Parsing stops at the first token that `Integer.parseInt` rejects. */
  lemma {:induction false} ParseTokensStopsAt(toks: seq<string>, i: nat)
    requires i < |toks| && ParseInt(toks[i]).Err?
    requires forall k :: 0 <= k < i ==> ParseInt(toks[k]).Ok?
    ensures ParseTokens(toks) == Err(ParseInt(toks[i]).error)
  {
    if i > 0 {
      ParseTokensStopsAt(toks[1..], i - 1);
    }
  }

  /** `toks[k]` is the first token that `Integer.parseInt` rejects. */
  predicate FirstBadToken(toks: seq<string>, k: int) {
    0 <= k < |toks| && ParseInt(toks[k]).Err? && forall m :: 0 <= m < k ==> ParseInt(toks[m]).Ok?
  }

  /** Every id paired with the increment 1. */
  function Ones(ids: seq<int>): (r: seq<KeyValue>)
    ensures |r| == |ids|
    ensures forall k :: 0 <= k < |ids| ==> r[k] == KeyValue(ids[k], 1)
  {
    if ids == [] then [] else [KeyValue(ids[0], 1)] + Ones(ids[1..])
  }

  /** What the mapper writes for a line whose tokens are the ids `ids`. */
  function Emits(ids: seq<int>): (r: seq<KeyValue>)
    ensures |r| == |ids|
    ensures forall k :: 0 <= k < |ids| ==> r[k] == KeyValue(ids[k], if k == 0 then 0 else 1)
  {
    if ids == [] then [] else [KeyValue(ids[0], 0)] + Ones(ids[1..])
  }

  /**
   * The pairs `LinkCountMap.map` writes for one line: one per token, in token
   * order, the first with increment 0 and every later one with increment 1;
   * or the `NumberFormatException` of the first token that is not an `int`.
   */
  function LineEmits(line: string): (r: Result<seq<KeyValue>>)
    ensures r.Ok? <==> forall k :: 0 <= k < |Tokens(line)| ==> ParseInt(Tokens(line)[k]).Ok?
    ensures r.Err? ==> exists k :: FirstBadToken(Tokens(line), k) && r.error == NumberFormat(Tokens(line)[k])
    ensures r.Ok? ==> |r.value| == |Tokens(line)|
    ensures r.Ok? ==> forall k :: 0 <= k < |r.value| ==>
              r.value[k] == KeyValue(ParseInt(Tokens(line)[k]).value, if k == 0 then 0 else 1)
  {
    match ParseTokens(Tokens(line))
    case Err(e) => Err(e)
    case Ok(ids) => Ok(Emits(ids))
  }

  /** `LinkCountMap.map`: tokenizes the line and writes one pair per token. */
  method Map(line: string) returns (r: Result<seq<KeyValue>>)
    ensures r == LineEmits(line)
  {
    var toks := Tokens(line);
    var out: seq<KeyValue> := [];
    var i := 0;
    while i < |toks|
      invariant 0 <= i <= |toks|
      invariant forall k :: 0 <= k < i ==> ParseInt(toks[k]).Ok?
      invariant |out| == i
      invariant forall k :: 0 <= k < i ==> out[k] == KeyValue(ParseInt(toks[k]).value, if k == 0 then 0 else 1)
    {
      var id := ParseInt(toks[i]);
      if id.Err? {
        ParseTokensStopsAt(toks, i);
        return Err(id.error);
      }
      if i == 0 {
        out := out + [KeyValue(id.value, 0)];
      } else {
        out := out + [KeyValue(id.value, 1)];
      }
      i := i + 1;
    }
    assert LineEmits(line).Ok?;
    assert out == LineEmits(line).value;
    r := Ok(out);
  }

  function Sum(s: seq<int>): int {
    if s == [] then 0 else s[0] + Sum(s[1..])
  }

  /** The values written under key `k`, in arrival order: what the shuffle hands one reduce call. */
  function Group(pairs: seq<KeyValue>, k: int): seq<int> {
    if pairs == [] then []
    else (if pairs[0].key == k then [pairs[0].value] else []) + Group(pairs[1..], k)
  }

  function Keys(pairs: seq<KeyValue>): set<int> {
    set p | p in pairs :: p.key
  }

  /** `LinkCountReduce.reduce`: `sum += val.get()` over the group, with `int` wrap-around. */
  method Reduce(key: int, values: seq<int>) returns (out: KeyValue)
    ensures out == KeyValue(key, Wrap(Sum(values)))
  {
    var sum := 0;
    for i := 0 to |values|
      invariant sum == Wrap(Sum(values[..i]))
    {
      SumConcat(values[..i], [values[i]]);
      assert values[..i + 1] == values[..i] + [values[i]];
      WrapAdd(Sum(values[..i]), values[i]);
      sum := Wrap(sum + values[i]);
    }
    assert values[..|values|] == values;
    out := KeyValue(key, sum);
  }

  /** The reducer's output for every key of the shuffled pairs. */
  function Counts(pairs: seq<KeyValue>): (r: map<int, int>)
    ensures forall i :: 0 <= i < |pairs| ==> pairs[i].key in r
    ensures forall k :: k in r ==> exists i :: 0 <= i < |pairs| && pairs[i].key == k
    ensures forall k :: k in r ==> IsInt(r[k])
  {
    map k | k in Keys(pairs) :: Wrap(Sum(Group(pairs, k)))
  }

  /** The pairs written for every line, in line order; the first bad line aborts the job. */
  function CorpusEmits(lines: seq<string>): Result<seq<KeyValue>> {
    Flatten(PerLine(lines))
  }

  /** The mapper's result for each line. */
  function PerLine(lines: seq<string>): seq<Result<seq<KeyValue>>> {
    Apply(LineEmits, lines)
  }

  /** `f` applied to every element, in order. */
  function Apply<A, B>(f: A -> B, xs: seq<A>): (ys: seq<B>)
    ensures |ys| == |xs|
    ensures forall i :: 0 <= i < |xs| ==> ys[i] == f(xs[i])
  {
    if xs == [] then [] else [f(xs[0])] + Apply(f, xs[1..])
  }

  /** Concatenates the per-line results; the first failed line aborts. */
  function Flatten<T>(rs: seq<Result<seq<T>>>): (r: Result<seq<T>>)
    ensures r.Ok? <==> forall i :: 0 <= i < |rs| ==> rs[i].Ok?
  {
    if rs == [] then Ok([])
    else match rs[0]
      case Err(e) => Err(e)
      case Ok(first) =>
        match Flatten(rs[1..])
        case Err(e) => Err(e)
        case Ok(rest) => Ok(first + rest)
  }

  /** Stage 1 as a whole: the table `id -> count` that stage 2 reads. */
  function LinkCounts(lines: seq<string>): (r: Result<map<int, int>>)
    ensures r.Ok? <==> forall i :: 0 <= i < |lines| ==> LineEmits(lines[i]).Ok?
    ensures r.Ok? ==> forall k :: k in r.value ==> IsInt(r.value[k])
  {
    match CorpusEmits(lines)
    case Err(e) => Err(e)
    case Ok(pairs) => Ok(Counts(pairs))
  }

  // ---------------------------------------------------------------------------
  // Reference definition of the counts, independent of the shuffle.

  /** The ids of every line, or the error of the first line that does not parse. */
  function CorpusIds(lines: seq<string>): Result<seq<seq<int>>> {
    if lines == [] then Ok([])
    else match ParseTokens(Tokens(lines[0]))
      case Err(e) => Err(e)
      case Ok(ids) =>
        match CorpusIds(lines[1..])
        case Err(e) => Err(e)
        case Ok(rest) => Ok([ids] + rest)
  }

  /** Occurrences of `k` as a link target (any token but the first) over all lines. */
  function TargetCount(idss: seq<seq<int>>, k: int): nat {
    if idss == [] then 0
    else (if idss[0] == [] then 0 else multiset(idss[0][1..])[k]) + TargetCount(idss[1..], k)
  }

  /** `k` occurs on some line, as source or as target. */
  predicate Mentioned(idss: seq<seq<int>>, k: int) {
    exists l :: 0 <= l < |idss| && k in idss[l]
  }

  // ---------------------------------------------------------------------------
  // Lemmas

  lemma {:induction false} SumConcat(a: seq<int>, b: seq<int>)
    ensures Sum(a + b) == Sum(a) + Sum(b)
  {
    if a == [] {
      assert a + b == b;
    } else {
      assert (a + b)[1..] == a[1..] + b;
      SumConcat(a[1..], b);
    }
  }

  /**
   * The reduce result does not depend on the order in which the framework
   * delivers the values: any rearrangement of a group has the same sum.
   */
  lemma {:induction false} SumPermutation(a: seq<int>, b: seq<int>)
    requires multiset(a) == multiset(b)
    ensures Sum(a) == Sum(b)
  {
    if a != [] {
      assert a[0] in multiset(b);
      var j :| 0 <= j < |b| && b[j] == a[0];
      var b' := b[..j] + b[j + 1..];
      RemoveMatching(a, b, j);
      SumPermutation(a[1..], b');
      SumRemove(b, j);
    } else {
      assert |b| == |multiset(b)| == 0;
    }
  }

  lemma SumRemove(b: seq<int>, j: nat)
    requires j < |b|
    ensures Sum(b) == b[j] + Sum(b[..j] + b[j + 1..])
  {
    RemoveAt(b, j);
    SumConcat(b[..j], [b[j]] + b[j + 1..]);
    SumConcat(b[..j], b[j + 1..]);
    assert ([b[j]] + b[j + 1..])[1..] == b[j + 1..];
  }

  lemma {:induction false} GroupConcat(a: seq<KeyValue>, b: seq<KeyValue>, k: int)
    ensures Group(a + b, k) == Group(a, k) + Group(b, k)
  {
    if a == [] {
      assert a + b == b;
    } else {
      var head := if a[0].key == k then [a[0].value] else [];
      assert (a + b)[0] == a[0] && (a + b)[1..] == a[1..] + b;
      assert Group(a + b, k) == head + Group(a[1..] + b, k);
      GroupConcat(a[1..], b, k);
      assert head + (Group(a[1..], k) + Group(b, k)) == (head + Group(a[1..], k)) + Group(b, k);
    }
  }

  /** The first pair adds one copy of its value to its key's group. */
  lemma GroupCountStep(pairs: seq<KeyValue>, k: int, v: int)
    requires pairs != []
    ensures multiset(Group(pairs, k))[v]
         == (if pairs[0] == KeyValue(k, v) then 1 else 0) + multiset(Group(pairs[1..], k))[v]
  {
    var head := if pairs[0].key == k then [pairs[0].value] else [];
    assert Group(pairs, k) == head + Group(pairs[1..], k);
    assert multiset(head)[v] == if pairs[0] == KeyValue(k, v) then 1 else 0;
  }

  /** The first element adds one copy of itself to a sequence's multiset. */
  lemma CountStep<T>(s: seq<T>, x: T)
    requires s != []
    ensures multiset(s)[x] == (if s[0] == x then 1 else 0) + multiset(s[1..])[x]
  {
    assert s == [s[0]] + s[1..];
  }

  /** Each value in the group for `k` stands for one pair `(k, value)`. */
  lemma {:induction false} GroupMultiset(pairs: seq<KeyValue>, k: int, v: int)
    ensures multiset(Group(pairs, k))[v] == multiset(pairs)[KeyValue(k, v)]
  {
    if pairs != [] {
      GroupMultiset(pairs[1..], k, v);
      GroupCountStep(pairs, k, v);
      CountStep(pairs, KeyValue(k, v));
    }
  }

  /** Rearranged pairs give each key a rearranged group, with the same sum. */
  lemma GroupSumPermutation(p: seq<KeyValue>, q: seq<KeyValue>, k: int)
    requires multiset(p) == multiset(q)
    ensures Sum(Group(p, k)) == Sum(Group(q, k))
  {
    forall v ensures multiset(Group(p, k))[v] == multiset(Group(q, k))[v] {
      GroupMultiset(p, k, v);
      GroupMultiset(q, k, v);
    }
    assert multiset(Group(p, k)) == multiset(Group(q, k));
    SumPermutation(Group(p, k), Group(q, k));
  }

  /**
   * The shuffle's grouping and ordering do not matter: pairs that are a
   * rearrangement of each other (however they were split between mappers)
   * give the same table.
   */
  lemma CountsPermutation(p: seq<KeyValue>, q: seq<KeyValue>)
    requires multiset(p) == multiset(q)
    ensures Counts(p) == Counts(q)
  {
    forall k | k in Keys(p)
      ensures Sum(Group(p, k)) == Sum(Group(q, k))
    {
      GroupSumPermutation(p, q, k);
    }
    assert Keys(p) == Keys(q) by {
      assert forall x :: x in p <==> x in multiset(p);
    }
  }

  lemma {:induction false} OnesSum(ids: seq<int>, k: int)
    ensures Sum(Group(Ones(ids), k)) == multiset(ids)[k]
  {
    if ids != [] {
      var o := Ones(ids);
      OnesSum(ids[1..], k);
      assert o[1..] == Ones(ids[1..]);
      assert Group(o, k) == (if ids[0] == k then [1] else []) + Group(o[1..], k);
      SumConcat(if ids[0] == k then [1] else [], Group(o[1..], k));
      assert ids == [ids[0]] + ids[1..];
    }
  }

  /** For one line, the increments for `k` add up to its occurrences as a target. */
  lemma EmitsSum(ids: seq<int>, k: int)
    ensures Sum(Group(Emits(ids), k)) == if ids == [] then 0 else multiset(ids[1..])[k]
  {
    if ids != [] {
      var e := Emits(ids);
      OnesSum(ids[1..], k);
      assert e[1..] == Ones(ids[1..]);
      assert Group(e, k) == (if ids[0] == k then [0] else []) + Group(e[1..], k);
      SumConcat(if ids[0] == k then [0] else [], Group(e[1..], k));
    }
  }

  lemma EmitsKeys(ids: seq<int>)
    ensures forall k :: k in Keys(Emits(ids)) <==> k in ids
  {
    var e := Emits(ids);
    forall k | k in ids ensures k in Keys(e) {
      var j :| 0 <= j < |ids| && ids[j] == k;
      assert e[j] in e;
    }
  }

  lemma {:induction false} CorpusAgree(lines: seq<string>)
    ensures CorpusEmits(lines).Ok? <==> CorpusIds(lines).Ok?
    ensures CorpusEmits(lines).Ok? ==> forall k ::
              Sum(Group(CorpusEmits(lines).value, k)) == TargetCount(CorpusIds(lines).value, k)
    ensures CorpusEmits(lines).Ok? ==> forall k ::
              k in Keys(CorpusEmits(lines).value) <==> Mentioned(CorpusIds(lines).value, k)
  {
    if lines != [] {
      CorpusAgree(lines[1..]);
      if CorpusEmits(lines).Ok? {
        var ids := ParseTokens(Tokens(lines[0])).value;
        assert PerLine(lines) == [LineEmits(lines[0])] + PerLine(lines[1..]);
        var first, rest := Emits(ids), CorpusEmits(lines[1..]).value;
        assert CorpusEmits(lines).value == first + rest;
        var idss := CorpusIds(lines).value;
        assert idss == [ids] + CorpusIds(lines[1..]).value;
        assert idss[1..] == CorpusIds(lines[1..]).value;
        forall k ensures Sum(Group(first + rest, k)) == TargetCount(idss, k) {
          GroupConcat(first, rest, k);
          SumConcat(Group(first, k), Group(rest, k));
          EmitsSum(ids, k);
        }
        EmitsKeys(ids);
        forall k ensures k in Keys(first + rest) <==> Mentioned(idss, k) {
          assert k in Keys(first + rest) <==> k in Keys(first) || k in Keys(rest);
          if Mentioned(idss[1..], k) {
            var l :| 0 <= l < |idss[1..]| && k in idss[1..][l];
            assert k in idss[l + 1];
          }
          if Mentioned(idss, k) {
            var l :| 0 <= l < |idss| && k in idss[l];
            assert l == 0 || k in idss[1..][l - 1];
          }
        }
      }
    }
  }

  /**
   * Stage 1 is correct: it fails exactly when some line holds a token that is
   * not an `int`; otherwise the table has one entry for every id that occurs
   * on some line, as source or target, and that entry is the number of times
   * the id occurs as a target (wrapped to 32 bits, so exact while it fits).
   */
  lemma LinkCountsCorrect(lines: seq<string>)
    ensures LinkCounts(lines).Ok? <==> CorpusIds(lines).Ok?
    ensures LinkCounts(lines).Ok? ==> forall k ::
              k in LinkCounts(lines).value <==> Mentioned(CorpusIds(lines).value, k)
    ensures LinkCounts(lines).Ok? ==> forall k :: k in LinkCounts(lines).value ==>
              LinkCounts(lines).value[k] == Wrap(TargetCount(CorpusIds(lines).value, k))
    ensures LinkCounts(lines).Ok? ==> forall k :: k in LinkCounts(lines).value && TargetCount(CorpusIds(lines).value, k) <= IntMax ==>
              LinkCounts(lines).value[k] == TargetCount(CorpusIds(lines).value, k)
  {
    CorpusAgree(lines);
  }

  /** Taking out the element at `j` takes one copy of it out of the multiset. */
  lemma RemoveAt<T>(s: seq<T>, j: nat)
    requires j < |s|
    ensures s == s[..j] + ([s[j]] + s[j + 1..])
    ensures multiset(s[..j] + s[j + 1..]) == multiset(s) - multiset{s[j]}
  {
    assert s == s[..j] + [s[j]] + s[j + 1..];
  }

  lemma {:induction false} FlattenConcat<T>(a: seq<Result<seq<T>>>, b: seq<Result<seq<T>>>)
    requires Flatten(a).Ok? && Flatten(b).Ok?
    ensures Flatten(a + b) == Ok(Flatten(a).value + Flatten(b).value)
  {
    if a == [] {
      assert a + b == b;
      assert Flatten(a).value + Flatten(b).value == Flatten(b).value;
    } else {
      assert (a + b)[0] == a[0];
      assert (a + b)[1..] == a[1..] + b;
      FlattenConcat(a[1..], b);
      var x, y, z := a[0].value, Flatten(a[1..]).value, Flatten(b).value;
      assert x + (y + z) == (x + y) + z;
    }
  }

  /** The parts of a flattening that succeeds succeed too. */
  lemma FlattenSplit<T>(a: seq<Result<seq<T>>>, b: seq<Result<seq<T>>>)
    requires Flatten(a + b).Ok?
    ensures Flatten(a).Ok? && Flatten(b).Ok?
  {
    forall i | 0 <= i < |a| ensures a[i].Ok? {
      assert a[i] == (a + b)[i];
    }
    forall i | 0 <= i < |b| ensures b[i].Ok? {
      assert b[i] == (a + b)[|a| + i];
    }
  }

  /** Flattening around the element at `j`, with and without it. */
  lemma FlattenAround<T>(rs: seq<Result<seq<T>>>, j: nat)
    requires j < |rs| && Flatten(rs).Ok?
    ensures Flatten(rs[..j] + rs[j + 1..]).Ok?
    ensures multiset(Flatten(rs).value)
         == multiset(Flatten(rs[..j]).value) + (multiset(rs[j].value) + multiset(Flatten(rs[j + 1..]).value))
    ensures multiset(Flatten(rs[..j] + rs[j + 1..]).value)
         == multiset(Flatten(rs[..j]).value) + multiset(Flatten(rs[j + 1..]).value)
  {
    var before, after := rs[..j], rs[j + 1..];
    assert rs == before + ([rs[j]] + after) by {
      RemoveAt(rs, j);
    }
    FlattenSplit(before, [rs[j]] + after);
    FlattenSplit([rs[j]], after);
    assert rs[j].Ok? by {
      assert ([rs[j]] + after)[0] == rs[j];
    }
    var x, y, z := Flatten(before).value, rs[j].value, Flatten(after).value;
    FlattenConcat(before, after);
    assert Flatten([rs[j]]) == Ok(y) by {
      assert [rs[j]][0] == rs[j] && [rs[j]][1..] == [];
      assert y + [] == y;
    }
    FlattenConcat([rs[j]], after);
    FlattenConcat(before, [rs[j]] + after);
    assert Flatten(rs).value == x + (y + z);
  }

  lemma FlattenOkPermutation<T>(r1: seq<Result<seq<T>>>, r2: seq<Result<seq<T>>>)
    requires multiset(r1) == multiset(r2)
    requires Flatten(r1).Ok?
    ensures Flatten(r2).Ok?
  {
    forall i | 0 <= i < |r2| ensures r2[i].Ok? {
      assert r2[i] in multiset(r1);
    }
  }

  lemma {:induction false} FlattenPermutation<T>(r1: seq<Result<seq<T>>>, r2: seq<Result<seq<T>>>)
    requires multiset(r1) == multiset(r2)
    requires Flatten(r1).Ok?
    ensures Flatten(r2).Ok?
    ensures multiset(Flatten(r1).value) == multiset(Flatten(r2).value)
  {
    FlattenOkPermutation(r1, r2);
    if r1 != [] {
      assert r1[0] in multiset(r2);
      var j :| 0 <= j < |r2| && r2[j] == r1[0];
      var rest1, rest2 := r1[1..], r2[..j] + r2[j + 1..];
      RemoveMatching(r1, r2, j);
      FlattenPermutation(rest1, rest2);
      var mx, mb, ma := multiset(r1[0].value), multiset(Flatten(r2[..j]).value), multiset(Flatten(r2[j + 1..]).value);
      assert multiset(Flatten(r1).value) == mx + multiset(Flatten(rest1).value);
      FlattenAround(r2, j);
      RegroupMultiset(multiset(Flatten(r1).value), mx, mb, ma, multiset(Flatten(r2).value));
    }
  }

  /** Removing the same element from two rearrangements of each other leaves two rearrangements. */
  lemma RemoveMatching<T>(a: seq<T>, b: seq<T>, j: nat)
    requires multiset(a) == multiset(b) && a != [] && j < |b| && b[j] == a[0]
    ensures multiset(a[1..]) == multiset(b[..j] + b[j + 1..])
  {
    RemoveAt(a, 0);
    RemoveAt(b, j);
    assert a[..0] + a[1..] == a[1..];
  }

  lemma RegroupMultiset<T>(m: multiset<T>, a: multiset<T>, b: multiset<T>, c: multiset<T>, n: multiset<T>)
    requires m == a + (b + c) && n == b + (a + c)
    ensures m == n
  {
  }

  lemma ApplyConcat<A, B>(f: A -> B, a: seq<A>, b: seq<A>)
    ensures Apply(f, a + b) == Apply(f, a) + Apply(f, b)
  {
  }

  lemma {:induction false} ApplyPermutation<A, B>(f: A -> B, l1: seq<A>, l2: seq<A>)
    requires multiset(l1) == multiset(l2)
    ensures multiset(Apply(f, l1)) == multiset(Apply(f, l2))
  {
    if l1 == [] {
      assert |l2| == |multiset(l2)| == 0;
    } else {
      var x := l1[0];
      assert x in multiset(l2);
      var j :| 0 <= j < |l2| && l2[j] == x;
      var before, after := l2[..j], l2[j + 1..];
      RemoveAt(l1, 0);
      RemoveAt(l2, j);
      assert l1[..0] + l1[1..] == l1[1..];
      ApplyPermutation(f, l1[1..], before + after);
      assert l1 == [x] + l1[1..];
      ApplyConcat(f, [x], l1[1..]);
      ApplyConcat(f, before, after);
      ApplyConcat(f, before, [x] + after);
      ApplyConcat(f, [x], after);
      var fx, rest, fb, fa := Apply(f, [x]), Apply(f, l1[1..]), Apply(f, before), Apply(f, after);
      assert multiset(Apply(f, l1)) == multiset(fx) + multiset(rest);
      assert multiset(rest) == multiset(fb) + multiset(fa);
      assert multiset(Apply(f, l2)) == multiset(fb) + (multiset(fx) + multiset(fa));
      RegroupMultiset(multiset(Apply(f, l1)), multiset(fx), multiset(fb), multiset(fa), multiset(Apply(f, l2)));
    }
  }

  /**
   * Aggregation is independent of the input order: any rearrangement of the
   * lines (and so any split of them between mappers) gives the same table.
   */
  lemma LinesPermutation(l1: seq<string>, l2: seq<string>)
    requires multiset(l1) == multiset(l2)
    ensures LinkCounts(l1).Ok? <==> LinkCounts(l2).Ok?
    ensures LinkCounts(l1).Ok? ==> LinkCounts(l1).value == LinkCounts(l2).value
  {
    ApplyPermutation(LineEmits, l1, l2);
    if CorpusEmits(l1).Ok? {
      FlattenPermutation(PerLine(l1), PerLine(l2));
      CountsPermutation(CorpusEmits(l1).value, CorpusEmits(l2).value);
    }
    if CorpusEmits(l2).Ok? {
      FlattenPermutation(PerLine(l2), PerLine(l1));
    }
  }
}
