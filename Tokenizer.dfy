/**
 * `java.util.StringTokenizer` with the delimiter set the link-count mapper
 * passes it: a token is a maximal non-empty run of non-delimiter characters,
 * and the delimiters themselves are not returned.
 */
module Tokenizer {

  const Delimiters: string := " \t,;.?!-:@[](){}_*/"

  predicate IsDelimiter(c: char) {
    c in Delimiters
  }

  /** A possible token: non-empty and free of delimiters. */
  predicate IsToken(t: string) {
    |t| > 0 && forall i :: 0 <= i < |t| ==> !IsDelimiter(t[i])
  }

  /** The tokens of `line`, in the order `nextToken()` returns them. */
  function Tokens(line: string): (r: seq<string>)
    ensures forall k :: 0 <= k < |r| ==> IsToken(r[k])
  {
    Scan(line, [])
  }

  /** Scans `s`, with `pending` the characters of the token read so far. */
  function Scan(s: string, pending: string): (r: seq<string>)
    requires forall i :: 0 <= i < |pending| ==> !IsDelimiter(pending[i])
    ensures forall k :: 0 <= k < |r| ==> IsToken(r[k])
    decreases |s|
  {
    if s == [] then
      (if pending == [] then [] else [pending])
    else if IsDelimiter(s[0]) then
      (if pending == [] then Scan(s[1..], []) else [pending] + Scan(s[1..], []))
    else
      Scan(s[1..], pending + [s[0]])
  }

  /** The characters of `s` that are not delimiters, in order. */
  function Stripped(s: string): string {
    if s == [] then [] else (if IsDelimiter(s[0]) then [] else [s[0]]) + Stripped(s[1..])
  }

  function Concat(ts: seq<string>): string {
    if ts == [] then [] else ts[0] + Concat(ts[1..])
  }

  /** Tokens joined by single spaces: a line that tokenizes back to `ts`. */
  function Join(ts: seq<string>): string {
    if ts == [] then []
    else if |ts| == 1 then ts[0]
    else ts[0] + " " + Join(ts[1..])
  }

  lemma {:induction false} ConcatScan(s: string, pending: string)
    requires forall i :: 0 <= i < |pending| ==> !IsDelimiter(pending[i])
    ensures Concat(Scan(s, pending)) == pending + Stripped(s)
    decreases |s|
  {
    if s == [] {
      assert Stripped(s) == [];
    } else if IsDelimiter(s[0]) {
      ConcatScan(s[1..], []);
      if pending != [] {
        assert Concat([pending] + Scan(s[1..], [])) == pending + Concat(Scan(s[1..], []));
      }
    } else {
      ConcatScan(s[1..], pending + [s[0]]);
      assert pending + [s[0]] + Stripped(s[1..]) == pending + Stripped(s);
    }
  }

  /** No character is lost or invented: the tokens spell out the line minus its delimiters. */
  lemma TokensCover(line: string)
    ensures Concat(Tokens(line)) == Stripped(line)
  {
    ConcatScan(line, []);
  }

  /**
   * `line[a..b]` is a maximal run of non-delimiters: it is non-empty, holds
   * no delimiter, and is bounded on each side by a delimiter or an end of
   * the line.
   */
  predicate MaximalRun(line: string, a: int, b: int) {
    0 <= a < b <= |line|
    && (forall i :: a <= i < b ==> !IsDelimiter(line[i]))
    && (a == 0 || IsDelimiter(line[a - 1]))
    && (b == |line| || IsDelimiter(line[b]))
  }

  /**
   * The state of a scan of `line`: `s` is the unread suffix, and `pending`
   * is the text read since the last delimiter (or the start of the line).
   */
  predicate ScanState(line: string, s: string, pending: string) {
    |s| + |pending| <= |line|
    && s == line[|line| - |s|..]
    && pending == line[|line| - |s| - |pending|..|line| - |s|]
    && (|line| - |s| - |pending| == 0 || IsDelimiter(line[|line| - |s| - |pending| - 1]))
  }

  /** The text read since the last delimiter holds no delimiter. */
  lemma PendingRun(line: string, s: string, pending: string)
    requires forall i :: 0 <= i < |pending| ==> !IsDelimiter(pending[i])
    requires ScanState(line, s, pending)
    ensures forall i :: |line| - |s| - |pending| <= i < |line| - |s| ==> !IsDelimiter(line[i])
  {
    var start := |line| - |s| - |pending|;
    forall i | start <= i < |line| - |s| ensures !IsDelimiter(line[i]) {
      assert line[i] == pending[i - start];
    }
  }

  /** Reading one character moves the scan state on. */
  lemma ScanStep(line: string, s: string, pending: string)
    requires ScanState(line, s, pending) && s != []
    ensures line[|line| - |s|] == s[0]
    ensures ScanState(line, s[1..], pending + [s[0]])
    ensures IsDelimiter(s[0]) ==> ScanState(line, s[1..], [])
  {
    var off := |line| - |s|;
    assert s[0] == line[off..][0];
    assert line[off + 1..] == line[off..][1..];
    assert line[off - |pending|..off + 1] == line[off - |pending|..off] + [line[off]];
  }

  /** Every one of `ts` is a maximal run of `line`. */
  ghost predicate AllRuns(line: string, ts: seq<string>) {
    forall t :: t in ts ==> exists a, b :: MaximalRun(line, a, b) && t == line[a..b]
  }

  /**
   * Scanning `line` from offset `off`, with `line[start..off]` read since
   * the last delimiter, yields only maximal runs.
   */
  lemma {:induction false} ScanRuns(line: string, start: int, off: int)
    requires 0 <= start <= off <= |line|
    requires start == 0 || IsDelimiter(line[start - 1])
    requires forall i :: start <= i < off ==> !IsDelimiter(line[i])
    ensures AllRuns(line, Scan(line[off..], line[start..off]))
    decreases |line| - off
  {
    var s, pending := line[off..], line[start..off];
    if off == |line| {
      if start < off {
        assert Scan(s, pending) == [line[start..off]] + [];
      }
    } else {
      assert s[0] == line[off] && s[1..] == line[off + 1..];
      if IsDelimiter(line[off]) {
        ScanRuns(line, off + 1, off + 1);
        assert line[off + 1..off + 1] == [];
        if start < off {
          assert Scan(s, pending) == [line[start..off]] + Scan(line[off + 1..], []);
        }
      } else {
        ScanRuns(line, start, off + 1);
        assert pending + [s[0]] == line[start..off + 1];
      }
    }
  }

  /**
   * Scanning the rest `s` of `line`, with `pending` read since the last
   * delimiter, yields every maximal run that starts no earlier than
   * `pending`.
   */
  lemma {:induction false} ScanComplete(line: string, s: string, pending: string, a: int, b: int)
    requires forall i :: 0 <= i < |pending| ==> !IsDelimiter(pending[i])
    requires ScanState(line, s, pending)
    requires MaximalRun(line, a, b) && |line| - |s| - |pending| <= a
    ensures line[a..b] in Scan(s, pending)
    decreases |s|
  {
    var off := |line| - |s|;
    PendingRun(line, s, pending);
    if s != [] {
      ScanStep(line, s, pending);
    }
    if b <= off {
      assert line[a..b] == pending;
    } else if IsDelimiter(s[0]) {
      ScanComplete(line, s[1..], [], a, b);
    } else {
      ScanComplete(line, s[1..], pending + [s[0]], a, b);
    }
  }

  /**
   * `StringTokenizer` returns exactly the maximal runs of non-delimiters:
   * every token is one, and every one is a token.
   */
  lemma TokensAreMaximalRuns(line: string)
    ensures forall t :: t in Tokens(line) <==> exists a, b :: MaximalRun(line, a, b) && t == line[a..b]
  {
    assert line[0..] == line && line[0..0] == [];
    assert ScanState(line, line, []);
    ScanRuns(line, 0, 0);
    forall a, b | MaximalRun(line, a, b) ensures line[a..b] in Tokens(line) {
      ScanComplete(line, line, [], a, b);
    }
  }

  /** Reading a token's characters only extends the pending token. */
  lemma {:induction false} ScanThroughToken(t: string, rest: string, pending: string)
    requires forall i :: 0 <= i < |pending| ==> !IsDelimiter(pending[i])
    requires forall i :: 0 <= i < |t| ==> !IsDelimiter(t[i])
    ensures Scan(t + rest, pending) == Scan(rest, pending + t)
    decreases |t|
  {
    if t == [] {
      assert t + rest == rest;
      assert pending + t == pending;
    } else {
      assert (t + rest)[0] == t[0];
      assert (t + rest)[1..] == t[1..] + rest;
      ScanThroughToken(t[1..], rest, pending + [t[0]]);
      assert pending + [t[0]] + t[1..] == pending + t;
    }
  }

  /** Tokenizing is the inverse of joining tokens with a delimiter. */
  lemma {:induction false} TokensOfJoin(ts: seq<string>)
    requires forall k :: 0 <= k < |ts| ==> IsToken(ts[k])
    ensures Tokens(Join(ts)) == ts
  {
    if |ts| == 1 {
      ScanThroughToken(ts[0], [], []);
      assert ts[0] + [] == ts[0];
    } else if |ts| > 1 {
      var rest := Join(ts[1..]);
      assert Join(ts) == ts[0] + (" " + rest);
      ScanThroughToken(ts[0], " " + rest, []);
      assert [] + ts[0] == ts[0];
      assert (" " + rest)[1..] == rest;
      TokensOfJoin(ts[1..]);
      assert Scan(" " + rest, ts[0]) == [ts[0]] + Scan(rest, []);
    }
  }

  /** A stretch made of delimiters only. */
  predicate AllDelims(d: string) {
    forall i :: 0 <= i < |d| ==> IsDelimiter(d[i])
  }

  /** Leading delimiters are skipped without producing a token. */
  lemma {:induction false} ScanDelims(d: string, x: string)
    requires AllDelims(d)
    ensures Scan(d + x, []) == Scan(x, [])
    decreases |d|
  {
    if d == [] {
      assert d + x == x;
    } else {
      assert (d + x)[0] == d[0] && (d + x)[1..] == d[1..] + x;
      ScanDelims(d[1..], x);
    }
  }

  /** A line of delimiters only has no tokens. */
  lemma TokensOfDelims(d: string)
    requires AllDelims(d)
    ensures Tokens(d) == []
  {
    ScanDelims(d, []);
    assert d + [] == d;
  }

  /**
   * The first token of a line is its first maximal run: after leading
   * delimiters `d`, the run `t` that a delimiter or the end of the line
   * closes comes first, and the rest of the line follows in order.
   */
  lemma TokensStep(d: string, t: string, rest: string)
    requires AllDelims(d) && IsToken(t)
    requires rest == [] || IsDelimiter(rest[0])
    ensures Tokens(d + t + rest) == [t] + Tokens(rest)
  {
    assert d + t + rest == d + (t + rest);
    ScanDelims(d, t + rest);
    ScanThroughToken(t, rest, []);
    assert [] + t == t;
    if rest == [] {
      assert Scan(rest, t) == [t] + [];
    } else {
      assert Scan(rest, t) == [t] + Scan(rest[1..], []);
    }
  }
}
