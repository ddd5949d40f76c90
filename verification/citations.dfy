/** Removal of the hosted assistant's source markers from its answer: the
    substitution of the pattern `【.*】` by the empty string. Because `.` does
    not match a line break, the substitution works line by line, and on each
    line it removes the span from the first `【` through the last `】`. */
module Citations {
  import opened Wrappers
  import opened Text

  const Open: char := '【'
  const Close: char := '】'

  // ---------------------------------------------------------------------------
  // The line-wise model
  // ---------------------------------------------------------------------------

  /** `s` holds no line break. */
  predicate NoBreak(s: string) {
    forall k :: 0 <= k < |s| ==> s[k] != '\n'
  }

  /** `a` is the index of the first `【` of `line`. */
  predicate FirstOpen(line: string, a: int) {
    0 <= a < |line| && line[a] == Open && forall j :: 0 <= j < a ==> line[j] != Open
  }

  /** `b` is the index of the last `】` of `line`. */
  predicate LastClose(line: string, b: int) {
    0 <= b < |line| && line[b] == Close && forall j :: b < j < |line| ==> line[j] != Close
  }

  /** One line of the answer: when its first `【` comes before its last `】`,
      everything from that `【` through that `】` goes; otherwise the line is
      kept as it is (`StripLineSpec`). */
  function StripLine(line: string): (r: string)
    ensures |r| <= |line|
  {
    match (IndexOf(line, Open), LastIndexOf(line, Close))
    case (Some(a), Some(b)) =>
      if a < b then
        assert line == line[..a] + line[a..b + 1] + line[b + 1..];
        line[..a] + line[b + 1..]
      else line
    case (_, _) => line
  }

  /** Stripping a line only removes characters. */
  lemma StripLineKeepsChars(line: string)
    ensures multiset(StripLine(line)) <= multiset(line)
  {
    var a, c := StripLineCut(line);
    DropMiddle(line, a, c);
  }

  /** Stripping a line cuts out one (possibly empty) span of it. */
  lemma StripLineCut(line: string) returns (a: nat, c: nat)
    ensures a <= c <= |line|
    ensures StripLine(line) == line[..a] + line[c..]
  {
    a, c := |line|, |line|;
    match (IndexOf(line, Open), LastIndexOf(line, Close)) {
      case (Some(i), Some(j)) =>
        if i < j {
          a, c := i, j + 1;
        }
      case (_, _) =>
    }
  }

  /** Cutting out a middle part only removes characters. */
  lemma DropMiddle(s: string, a: nat, c: nat)
    requires a <= c <= |s|
    ensures multiset(s[..a] + s[c..]) <= multiset(s)
  {
    assert s == s[..a] + s[a..c] + s[c..];
  }

  /** `IndexOf` finds the first `【`. */
  lemma FirstOpenIsIndexOf(line: string, a: int)
    ensures FirstOpen(line, a) <==> IndexOf(line, Open) == Some(a)
  {
  }

  /** `LastIndexOf` finds the last `】`. */
  lemma LastCloseIsLastIndexOf(line: string, b: int)
    ensures LastClose(line, b) <==> LastIndexOf(line, Close) == Some(b)
  {
  }

  /** What `StripLine` removes, stated through the first `【` and the last `】`. */
  lemma StripLineSpec(line: string)
    ensures forall a, b :: FirstOpen(line, a) && LastClose(line, b) && a < b ==>
              StripLine(line) == line[..a] + line[b + 1..]
    ensures (forall a, b :: FirstOpen(line, a) && LastClose(line, b) ==> b < a) ==>
              StripLine(line) == line
  {
    forall a, b | FirstOpen(line, a) && LastClose(line, b)
      ensures IndexOf(line, Open) == Some(a) && LastIndexOf(line, Close) == Some(b)
    {
      FirstOpenIsIndexOf(line, a);
      LastCloseIsLastIndexOf(line, b);
    }
    match (IndexOf(line, Open), LastIndexOf(line, Close))
    case (Some(a), Some(b)) =>
      FirstOpenIsIndexOf(line, a);
      LastCloseIsLastIndexOf(line, b);
    case (_, _) =>
  }

  /** A `【` followed later on the line by a `】` always makes the line shorter. */
  lemma PairShortens(line: string)
    ensures forall i, c :: 0 <= i < c < |line| && line[i] == Open && line[c] == Close ==>
              |StripLine(line)| < |line|
  {
    match (IndexOf(line, Open), LastIndexOf(line, Close))
    case (Some(a), Some(b)) =>
    case (_, _) =>
  }

  /** Where the first line of `s` ends: at its first line break, or at the end. */
  function LineEnd(s: string): (e: nat)
    ensures e <= |s|
    ensures forall k :: 0 <= k < e ==> s[k] != '\n'
    ensures e == |s| || s[e] == '\n'
  {
    match IndexOf(s, '\n')
    case None => |s|
    case Some(k) => k
  }

  /** The answer with the markers removed, line by line; never longer than
      the answer. */
  function StripCitations(s: string): (r: string)
    ensures |r| <= |s|
    decreases |s|
  {
    var e := LineEnd(s);
    if e == |s| then StripLine(s)
    else StripLine(s[..e]) + ['\n'] + StripCitations(s[e + 1..])
  }

  /** Only characters are removed, and never a line break: the answer keeps
      its number of lines. */
  lemma {:induction false} StripCitationsKeepsLines(s: string)
    ensures multiset(StripCitations(s))['\n'] == multiset(s)['\n']
    ensures multiset(StripCitations(s)) <= multiset(s)
    decreases |s|
  {
    var e := LineEnd(s);
    if e == |s| {
      assert s[..e] == s;
      StripCitationsLast(s);
      NoBreakKept(s);
      StripLineKeepsChars(s);
    } else {
      var line, rest := s[..e], s[e + 1..];
      StripCitationsKeepsLines(rest);
      NoBreakKept(line);
      StripLineKeepsChars(line);
      SplitAtBreak(s, e);
      StripCitationsCons(line, rest);
      BreakJoinCounts(line, StripLine(line), rest, StripCitations(rest));
    }
  }

  /** Two parts that each keep their line breaks and lose only characters
      still do so once joined by a line break. */
  lemma BreakJoinCounts(x: string, x': string, y: string, y': string)
    requires multiset(x') <= multiset(x) && multiset(x')['\n'] == multiset(x)['\n']
    requires multiset(y') <= multiset(y) && multiset(y')['\n'] == multiset(y)['\n']
    ensures multiset(x' + ['\n'] + y') <= multiset(x + ['\n'] + y)
    ensures multiset(x' + ['\n'] + y')['\n'] == multiset(x + ['\n'] + y)['\n']
  {
    assert multiset(x + ['\n'] + y) == multiset(x) + multiset(['\n']) + multiset(y);
    assert multiset(x' + ['\n'] + y') == multiset(x') + multiset(['\n']) + multiset(y');
  }

  /** A line without a line break keeps having none once stripped. */
  lemma NoBreakKept(line: string)
    requires NoBreak(line)
    ensures multiset(line)['\n'] == 0
    ensures multiset(StripLine(line))['\n'] == 0
    ensures NoBreak(StripLine(line))
  {
    var r := StripLine(line);
    StripLineKeepsChars(line);
    assert '\n' !in line;
    assert '\n' !in multiset(line);
    forall k | 0 <= k < |r| ensures r[k] != '\n' {
      assert r[k] in multiset(r);
    }
  }

  /** The first line and the rest are handled separately. */
  lemma StripCitationsCons(line: string, rest: string)
    requires NoBreak(line)
    ensures StripCitations(line + ['\n'] + rest) == StripLine(line) + ['\n'] + StripCitations(rest)
  {
    var s := line + ['\n'] + rest;
    assert s[|line|] == '\n';
    assert forall k :: 0 <= k < |line| ==> s[k] == line[k];
    assert LineEnd(s) == |line|;
    assert s[..|line|] == line;
    assert s[|line| + 1..] == rest;
  }

  /** A text with no line break is a single line. */
  lemma StripCitationsLast(line: string)
    requires NoBreak(line)
    ensures StripCitations(line) == StripLine(line)
  {
    assert LineEnd(line) == |line|;
  }

  // ---------------------------------------------------------------------------
  // Properties of the line-wise model
  // ---------------------------------------------------------------------------

  /** An answer that contains no `【` is returned unchanged. */
  lemma {:induction false} NoMarkerUnchanged(s: string)
    requires forall i :: 0 <= i < |s| ==> s[i] != Open
    ensures StripCitations(s) == s
    decreases |s|
  {
    var e := LineEnd(s);
    if e == |s| {
      assert s[..e] == s;
      StripCitationsLast(s);
      NoOpenKept(s);
    } else {
      var line, rest := s[..e], s[e + 1..];
      assert StripLine(line) == line by {
        assert forall i :: 0 <= i < |line| ==> line[i] == s[i];
        NoOpenKept(line);
      }
      assert StripCitations(rest) == rest by {
        assert forall i :: 0 <= i < |rest| ==> rest[i] == s[e + 1 + i];
        NoMarkerUnchanged(rest);
      }
      StripCitationsCons(line, rest);
      SplitAtBreak(s, e);
    }
  }

  /** A line without `【` is kept as it is. */
  lemma NoOpenKept(line: string)
    requires forall i :: 0 <= i < |line| ==> line[i] != Open
    ensures StripLine(line) == line
  {
    assert IndexOf(line, Open).None?;
  }

  /** Stripping a line twice is stripping it once: after the removal every `】`
      that is left lies before every `【` that is left. */
  lemma StripLineIdempotent(line: string)
    ensures StripLine(StripLine(line)) == StripLine(line)
  {
    var r := StripLine(line);
    match (IndexOf(line, Open), LastIndexOf(line, Close))
    case (Some(a), Some(b)) =>
      if a < b {
        assert r == line[..a] + line[b + 1..];
        assert forall k :: 0 <= k < a ==> r[k] == line[k];
        assert forall k :: 0 <= k < a ==> r[k] != Open;
        assert forall k :: a <= k < |r| ==> r[k] == line[k - a + b + 1];
        assert forall k :: a <= k < |r| ==> r[k] != Close;
        StripLineSpec(r);
      }
    case (_, _) =>
  }

  /** Removing the markers is idempotent. */
  lemma {:induction false} StripCitationsIdempotent(s: string)
    ensures StripCitations(StripCitations(s)) == StripCitations(s)
    decreases |s|
  {
    var e := LineEnd(s);
    if e == |s| {
      assert s[..e] == s;
      IdempotentLast(s);
    } else {
      var line, rest := s[..e], s[e + 1..];
      StripCitationsIdempotent(rest);
      IdempotentCons(line, rest);
      SplitAtBreak(s, e);
    }
  }

  /** A text is its part before a line break, the break, and the part after. */
  lemma SplitAtBreak(s: string, e: nat)
    requires e < |s| && s[e] == '\n'
    ensures s == s[..e] + ['\n'] + s[e + 1..]
  {
    assert s == s[..e] + s[e..];
  }

  /** A single line stripped twice is stripped once. */
  lemma IdempotentLast(line: string)
    requires NoBreak(line)
    ensures StripCitations(StripCitations(line)) == StripCitations(line)
  {
    StripCitationsLast(line);
    NoBreakKept(line);
    StripCitationsLast(StripLine(line));
    StripLineIdempotent(line);
  }

  /** A first line in front of a text that strips idempotently keeps it so. */
  lemma IdempotentCons(line: string, rest: string)
    requires NoBreak(line)
    requires StripCitations(StripCitations(rest)) == StripCitations(rest)
    ensures StripCitations(StripCitations(line + ['\n'] + rest)) == StripCitations(line + ['\n'] + rest)
  {
    StripCitationsCons(line, rest);
    NoBreakKept(line);
    StripCitationsCons(StripLine(line), StripCitations(rest));
    StripLineIdempotent(line);
  }

  // ---------------------------------------------------------------------------
  // The regular-expression reference
  // ---------------------------------------------------------------------------

  /** `【.*】` matches `s[i..j]`: it starts with `【`, ends with `】`, and has no
      line break in between (without the DOTALL flag `.` does not match one). */
  predicate MatchesAt(s: string, i: int, j: int) {
    0 <= i && i + 2 <= j <= |s| && s[i] == Open && s[j - 1] == Close &&
    forall k :: i < k < j - 1 ==> s[k] != '\n'
  }

  /** The greedy match at the start of `s`: the end of the longest match
      starting at index 0, if there is one (`.*` takes as much of the line as
      it can and gives back only what `】` needs). */
  function GreedyMatch(s: string): (r: Option<nat>)
    ensures r.Some? ==> 2 <= r.value <= |s|
  {
    if |s| == 0 || s[0] != Open then None
    else MatchScan(s, 1, None)
  }

  /** Scans the line on from index `i`, remembering in `best` the end of the
      last `】` seen so far. */
  function MatchScan(s: string, i: nat, best: Option<nat>): (r: Option<nat>)
    requires 1 <= i <= |s|
    requires best.Some? ==> 2 <= best.value <= i
    ensures r.Some? ==> 2 <= r.value <= |s|
    decreases |s| - i
  {
    if i == |s| || s[i] == '\n' then best
    else MatchScan(s, i + 1, if s[i] == Close then Some(i + 1) else best)
  }

  /** `best` is the longest match at index 0 that ends by `i`. */
  ghost predicate BestUpTo(s: string, i: nat, best: Option<nat>) {
    (best.None? ==> forall j :: j <= i ==> !MatchesAt(s, 0, j)) &&
    (best.Some? ==> best.value <= i && MatchesAt(s, 0, best.value) &&
                    forall j :: best.value < j <= i ==> !MatchesAt(s, 0, j))
  }

  /** The scan ends with the longest match at index 0. */
  lemma {:induction false} MatchScanSpec(s: string, i: nat, best: Option<nat>)
    requires 1 <= i <= |s| && s[0] == Open
    requires forall k :: 0 < k < i ==> s[k] != '\n'
    requires BestUpTo(s, i, best)
    ensures var r := MatchScan(s, i, best);
      (r.Some? ==> MatchesAt(s, 0, r.value) && forall j :: r.value < j ==> !MatchesAt(s, 0, j)) &&
      (r.None? ==> forall j :: !MatchesAt(s, 0, j))
    decreases |s| - i
  {
    if i == |s| {
    } else if s[i] == '\n' {
      forall j | i < j ensures !MatchesAt(s, 0, j) {
        if j - 1 > i {
          assert s[i] == '\n';
        }
      }
    } else {
      var best' := if s[i] == Close then Some(i + 1) else best;
      assert BestUpTo(s, i + 1, best');
      MatchScanSpec(s, i + 1, best');
    }
  }

  /** `GreedyMatch` finds the longest match at index 0, and none when there is none. */
  lemma GreedyMatchSpec(s: string)
    ensures GreedyMatch(s).Some? ==> MatchesAt(s, 0, GreedyMatch(s).value)
    ensures GreedyMatch(s).Some? ==> forall j :: GreedyMatch(s).value < j ==> !MatchesAt(s, 0, j)
    ensures GreedyMatch(s).None? ==> forall j :: !MatchesAt(s, 0, j)
  {
    if |s| > 0 && s[0] == Open {
      MatchScanSpec(s, 1, None);
    }
  }

  /** `re.sub(r"【.*】", "", s)`: scanning from the left, wherever a match
      starts the longest one is removed and scanning resumes after it;
      elsewhere the character is kept. */
  function ReSub(s: string): string
    decreases |s|
  {
    if |s| == 0 then []
    else match GreedyMatch(s)
      case Some(j) => ReSub(s[j..])
      case None => [s[0]] + ReSub(s[1..])
  }

  /** Characters at which no match starts are copied through. */
  lemma {:induction false} ReSubKeep(s: string, k: nat)
    requires k <= |s|
    requires forall i :: 0 <= i < k ==> GreedyMatch(s[i..]).None?
    ensures ReSub(s) == s[..k] + ReSub(s[k..])
    decreases k
  {
    if k > 0 {
      var t := s[1..];
      assert ReSub(s) == [s[0]] + ReSub(t) by {
        assert s[0..] == s;
      }
      NoMatchAfterFirst(s, k);
      ReSubKeep(t, k - 1);
      DropFirst(s, k);
      KeepFirst(s, k, ReSub(s), ReSub(t), ReSub(s[k..]));
    }
  }

  /** Copying the first character and then `k - 1` more copies `k`. */
  lemma KeepFirst(s: string, k: nat, r: string, rt: string, x: string)
    requires 0 < k <= |s| && r == [s[0]] + rt && rt == s[1..][..k - 1] + x
    ensures r == s[..k] + x
  {
    DropFirst(s, k);
    assert [s[0]] + s[1..][..k - 1] + x == [s[0]] + (s[1..][..k - 1] + x);
  }

  /** Dropping the first character shifts the positions without a match by one. */
  lemma NoMatchAfterFirst(s: string, k: nat)
    requires 0 < k <= |s|
    requires forall i :: 0 <= i < k ==> GreedyMatch(s[i..]).None?
    ensures forall i :: 0 <= i < k - 1 ==> GreedyMatch(s[1..][i..]).None?
  {
    forall i | 0 <= i < k - 1 ensures GreedyMatch(s[1..][i..]).None? {
      assert s[1..][i..] == s[i + 1..];
    }
  }

  /** The first `k` characters are the first one and `k - 1` of the rest. */
  lemma DropFirst(s: string, k: nat)
    requires 0 < k <= |s|
    ensures s[1..][k - 1..] == s[k..]
    ensures s[..k] == [s[0]] + s[1..][..k - 1]
  {
  }

  /** A match that starts inside the first line ends inside it. */
  lemma MatchInLine(s: string, i: nat)
    requires i < LineEnd(s)
    ensures var g := GreedyMatch(s[i..]);
      g.Some? ==> s[i] == Open && i < i + g.value - 1 < LineEnd(s) && s[i + g.value - 1] == Close
  {
    var t := s[i..];
    GreedyMatchSpec(t);
    var g := GreedyMatch(t);
    if g.Some? {
      var j := g.value;
      assert t[0] == s[i] && t[j - 1] == s[i + j - 1];
      assert forall k :: i < k < i + j - 1 ==> s[k] == t[k - i];
    }
  }

  /** On a line where nothing is removed, no match starts. */
  lemma KeptLine(s: string)
    requires StripLine(s[..LineEnd(s)]) == s[..LineEnd(s)]
    ensures ReSub(s) == s[..LineEnd(s)] + ReSub(s[LineEnd(s)..])
  {
    var e := LineEnd(s);
    var line := s[..e];
    PairShortens(line);
    forall i | 0 <= i < e ensures GreedyMatch(s[i..]).None? {
      MatchInLine(s, i);
      assert forall c :: i < c < e ==> line[c] == s[c];
      assert line[i] == s[i];
    }
    ReSubKeep(s, e);
  }

  /** At the first `【` of the first line, the longest match runs through the
      last `】` of that line. */
  lemma MatchAtFirstOpen(s: string, a: nat, b: nat)
    requires a < b < LineEnd(s)
    requires FirstOpen(s[..LineEnd(s)], a) && LastClose(s[..LineEnd(s)], b)
    ensures GreedyMatch(s[a..]) == Some(b - a + 1)
  {
    var e := LineEnd(s);
    var t := s[a..];
    assert MatchesAt(t, 0, b - a + 1) by {
      assert t[0] == s[a] && t[b - a] == s[b];
      assert forall k :: 0 < k < b - a ==> t[k] == s[a + k];
    }
    GreedyMatchSpec(t);
    MatchInLine(s, a);
    assert forall j :: b < j < e ==> s[j] != Close by {
      assert forall j :: b < j < e ==> s[..e][j] == s[j];
    }
  }

  /** Between the last `】` of the first line and its end, no match starts. */
  lemma AfterLastClose(s: string, b: nat)
    requires b < LineEnd(s)
    requires LastClose(s[..LineEnd(s)], b)
    ensures ReSub(s[b + 1..]) == s[b + 1..LineEnd(s)] + ReSub(s[LineEnd(s)..])
  {
    var e := LineEnd(s);
    var u := s[b + 1..];
    assert forall j :: b < j < e ==> s[j] != Close by {
      assert forall j :: b < j < e ==> s[..e][j] == s[j];
    }
    forall i | 0 <= i < e - (b + 1) ensures GreedyMatch(u[i..]).None? {
      assert u[i..] == s[b + 1 + i..];
      MatchInLine(s, b + 1 + i);
    }
    ReSubKeep(u, e - (b + 1));
    assert u[e - (b + 1)..] == s[e..];
    assert u[..e - (b + 1)] == s[b + 1..e];
  }

  /** Before the first `【` of the first line, no match starts. */
  lemma BeforeFirstOpen(s: string, a: nat)
    requires a < LineEnd(s)
    requires FirstOpen(s[..LineEnd(s)], a)
    ensures ReSub(s) == s[..a] + ReSub(s[a..])
  {
    forall i | 0 <= i < a ensures GreedyMatch(s[i..]).None? {
      assert s[i..][0] == s[..LineEnd(s)][i];
    }
    ReSubKeep(s, a);
  }

  /** Where a match starts, it is dropped as a whole. */
  lemma SkipMatch(t: string, j: nat)
    requires GreedyMatch(t) == Some(j)
    ensures j <= |t| && ReSub(t) == ReSub(t[j..])
  {
    GreedyMatchSpec(t);
  }

  /** On a line where a span is removed, the reference removes the same span. */
  lemma CutLine(s: string, a: nat, b: nat)
    requires a < b < LineEnd(s)
    requires FirstOpen(s[..LineEnd(s)], a) && LastClose(s[..LineEnd(s)], b)
    ensures ReSub(s) == s[..a] + s[b + 1..LineEnd(s)] + ReSub(s[LineEnd(s)..])
  {
    var e := LineEnd(s);
    var x, y, z := s[..a], s[b + 1..e], ReSub(s[e..]);
    assert ReSub(s) == x + ReSub(s[a..]) by {
      BeforeFirstOpen(s, a);
    }
    assert ReSub(s[a..]) == ReSub(s[b + 1..]) by {
      MatchAtFirstOpen(s, a, b);
      SkipMatch(s[a..], b - a + 1);
      assert s[a..][b - a + 1..] == s[b + 1..];
    }
    assert ReSub(s[b + 1..]) == y + z by {
      AfterLastClose(s, b);
    }
    assert x + y + z == x + (y + z);
  }

  /** A line that `StripLine` changes has its first `【` before its last `】`,
      and loses exactly the span between them. */
  lemma StripLineChanged(line: string) returns (a: nat, b: nat)
    requires |StripLine(line)| < |line|
    ensures FirstOpen(line, a) && LastClose(line, b) && a < b
    ensures StripLine(line) == line[..a] + line[b + 1..]
  {
    a := IndexOf(line, Open).value;
    b := LastIndexOf(line, Close).value;
    FirstOpenIsIndexOf(line, a);
    LastCloseIsLastIndexOf(line, b);
  }

  /** A first line that loses a span loses the same span under the reference. */
  lemma ChangedLine(s: string)
    requires |StripLine(s[..LineEnd(s)])| < LineEnd(s)
    ensures ReSub(s) == StripLine(s[..LineEnd(s)]) + ReSub(s[LineEnd(s)..])
  {
    var a, b := ChangedSpan(s);
    CutLine(s, a, b);
  }

  /** The span a changed first line loses, as indices into the text. */
  lemma ChangedSpan(s: string) returns (a: nat, b: nat)
    requires |StripLine(s[..LineEnd(s)])| < LineEnd(s)
    ensures a < b < LineEnd(s)
    ensures FirstOpen(s[..LineEnd(s)], a) && LastClose(s[..LineEnd(s)], b)
    ensures StripLine(s[..LineEnd(s)]) == s[..a] + s[b + 1..LineEnd(s)]
  {
    var e := LineEnd(s);
    a, b := StripLineChanged(s[..e]);
    LineSlices(s, e, a, b);
  }

  /** Slices of the first line are slices of the text. */
  lemma LineSlices(s: string, e: nat, a: nat, b: nat)
    requires a <= b < e <= |s|
    ensures s[..e][..a] == s[..a] && s[..e][b + 1..] == s[b + 1..e]
  {
  }

  /** On the first line, the reference does what `StripLine` does. */
  lemma FirstLine(s: string)
    ensures ReSub(s) == StripLine(s[..LineEnd(s)]) + ReSub(s[LineEnd(s)..])
  {
    if |StripLine(s[..LineEnd(s)])| < LineEnd(s) {
      ChangedLine(s);
    } else {
      KeptLine(s);
    }
  }

  /** The line-wise model is exactly the regular-expression substitution. */
  lemma {:induction false} StripCitationsIsReSub(s: string)
    ensures StripCitations(s) == ReSub(s)
    decreases |s|
  {
    var e := LineEnd(s);
    if e == |s| {
      FirstLine(s);
      assert s[..e] == s;
      assert s[e..] == [];
      StripCitationsLast(s);
    } else {
      var line, rest := s[..e], s[e + 1..];
      calc {
        StripCitations(s);
      == { SplitAtBreak(s, e); StripCitationsCons(line, rest); }
        StripLine(line) + ['\n'] + StripCitations(rest);
      == { StripCitationsIsReSub(rest); }
        StripLine(line) + ['\n'] + ReSub(rest);
      == { assert StripLine(line) + ['\n'] + ReSub(rest) == StripLine(line) + (['\n'] + ReSub(rest)); }
        StripLine(line) + (['\n'] + ReSub(rest));
      == { ReSubAtBreak(s, e); }
        StripLine(line) + ReSub(s[e..]);
      == { FirstLine(s); }
        ReSub(s);
      }
    }
  }

  /** A line break is never part of a match, so the reference keeps it. */
  lemma ReSubAtBreak(s: string, e: nat)
    requires e < |s| && s[e] == '\n'
    ensures ReSub(s[e..]) == ['\n'] + ReSub(s[e + 1..])
  {
    var u := s[e..];
    assert u[0] == '\n' && GreedyMatch(u).None?;
    assert u[1..] == s[e + 1..];
  }
}
