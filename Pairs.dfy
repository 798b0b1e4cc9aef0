/**
 * `Pair<Integer, Integer>` and the `TreeSet` it is kept in. A `TreeSet`
 * ordered by `Pair.compareTo` is modelled as the sequence of its elements in
 * iteration order, which is strictly increasing under that order.
 */
module Pairs {
  import opened JavaLang

  datatype Pair = Pair(first: int, second: int)

  /** `Pair.compareTo`: by `first`, then by `second` (`Integer.compareTo` on each). */
  function CompareTo(p: Pair, o: Pair): (r: int)
    ensures r == 0 <==> p == o
    ensures r < 0 <==> p.first < o.first || (p.first == o.first && p.second < o.second)
    ensures r > 0 <==> p.first > o.first || (p.first == o.first && p.second > o.second)
  {
    var cmp := Compare(p.first, o.first);
    if cmp == 0 then Compare(p.second, o.second) else cmp
  }

  /** `Pair.equals`: both components equal. */
  function Equals(p: Pair, o: Pair): (b: bool)
    ensures b <==> p == o
  {
    p.first == o.first && p.second == o.second
  }

  predicate Less(p: Pair, o: Pair) {
    CompareTo(p, o) < 0
  }

  /**
   * `compareTo` is a strict total order that is consistent with `equals`, as
   * `TreeSet` requires of it.
   */
  lemma CompareToIsTotalOrder(p: Pair, o: Pair, q: Pair)
    ensures CompareTo(p, o) == 0 <==> Equals(p, o)
    ensures CompareTo(p, o) < 0 <==> CompareTo(o, p) > 0
    ensures !Less(p, p)
    ensures Less(p, o) && Less(o, q) ==> Less(p, q)
    ensures p == o || Less(p, o) || Less(o, p)
  {
  }

  /** The elements in iteration order, each greater than the one before. */
  predicate StrictlySorted(s: seq<Pair>) {
    forall i, j :: 0 <= i < j < |s| ==> Less(s[i], s[j])
  }

  function Elements(s: seq<Pair>): set<Pair> {
    set x | x in s
  }

  /** `TreeSet.add(p)`: inserts `p` in order unless an equal element is already there. */
  function Insert(s: seq<Pair>, p: Pair): (r: seq<Pair>)
    requires StrictlySorted(s)
    ensures StrictlySorted(r)
    ensures Elements(r) == Elements(s) + {p}
    ensures p in s ==> r == s
    ensures p !in s ==> |r| == |s| + 1
  {
    if s == [] then [p]
    else if Less(p, s[0]) then
      InsertFront(p, s);
      [p] + s
    else if p == s[0] then s
    else
      var rest := Insert(s[1..], p);
      InsertTail(s, p, rest);
      [s[0]] + rest
  }

  /** `Insert`'s step when `p` belongs in front of every element of `s`. */
  lemma InsertFront(p: Pair, s: seq<Pair>)
    requires StrictlySorted(s) && s != [] && Less(p, s[0])
    ensures p !in s
    ensures StrictlySorted([p] + s)
    ensures Elements([p] + s) == Elements(s) + {p}
  {
    forall y | y in Elements(s) ensures Less(p, y) {
      var k :| 0 <= k < |s| && s[k] == y;
      assert k == 0 || Less(s[0], s[k]);
    }
    SortedCons(p, s);
  }

  /** `Insert`'s step when `p` belongs after the first element of `s`. */
  lemma InsertTail(s: seq<Pair>, p: Pair, rest: seq<Pair>)
    requires StrictlySorted(s) && s != [] && Less(s[0], p)
    requires StrictlySorted(rest) && Elements(rest) == Elements(s[1..]) + {p}
    ensures StrictlySorted([s[0]] + rest)
    ensures Elements([s[0]] + rest) == Elements(s) + {p}
    ensures p in s <==> p in s[1..]
  {
    forall y | y in Elements(rest) ensures Less(s[0], y) {
      if y != p {
        var k :| 0 <= k < |s[1..]| && s[1..][k] == y;
        assert s[k + 1] == y;
      }
    }
    SortedCons(s[0], rest);
    ElementsCons(s[0], rest);
    ElementsCons(s[0], s[1..]);
    assert s == [s[0]] + s[1..];
  }

  lemma ElementsCons(x: Pair, t: seq<Pair>)
    ensures Elements([x] + t) == {x} + Elements(t)
  {
    assert forall y :: y in [x] + t <==> y == x || y in t;
  }

  lemma SortedCons(x: Pair, s: seq<Pair>)
    requires StrictlySorted(s)
    requires forall y :: y in Elements(s) ==> Less(x, y)
    ensures StrictlySorted([x] + s)
  {
    forall i, j | 0 <= i < j < |[x] + s| ensures Less(([x] + s)[i], ([x] + s)[j]) {
      if i == 0 {
        assert ([x] + s)[j] == s[j - 1] && s[j - 1] in Elements(s);
      }
    }
  }

  lemma EmptyElements(s: seq<Pair>)
    ensures Elements(s) == {} ==> s == []
  {
    if s != [] {
      assert s[0] in Elements(s);
    }
  }

  /** A strictly increasing sequence is determined by its elements. */
  lemma {:induction false} SortedUnique(a: seq<Pair>, b: seq<Pair>)
    requires StrictlySorted(a) && StrictlySorted(b)
    requires Elements(a) == Elements(b)
    ensures a == b
  {
    if a != [] && b != [] {
      assert a[0] in Elements(b) && b[0] in Elements(a);
      assert a[0] == b[0];
      assert Elements(a[1..]) == Elements(a) - {a[0]};
      assert Elements(b[1..]) == Elements(b) - {b[0]};
      SortedUnique(a[1..], b[1..]);
    } else {
      EmptyElements(a);
      EmptyElements(b);
    }
  }

  /** A `TreeSet`'s `size()`: as many elements as its iteration order has positions. */
  lemma {:induction false} SortedSize(s: seq<Pair>)
    requires StrictlySorted(s)
    ensures |Elements(s)| == |s|
  {
    if s != [] {
      SortedSize(s[1..]);
      forall k | 0 <= k < |s[1..]| ensures s[1..][k] != s[0] {
        assert Less(s[0], s[k + 1]);
      }
      ElementsCons(s[0], s[1..]);
      assert s == [s[0]] + s[1..];
    }
  }
}
