/** Python's string primitives as used by the benchmark harness: `str.strip()`,
    `str.find`, `str.split(d, 1)`, `str.replace`, `str.join` and splitting on a
    set of single characters (`re.split` with a character class). */
module Text {
  import opened Wrappers

  /** Python's `str.isspace` for one character: the ASCII controls TAB..CR and
      FS..US, SPACE, NEL, NBSP, and the Unicode space separators (including the
      ideographic space U+3000 that Japanese text uses). */
  predicate IsSpace(c: char) {
    || ('\t' <= c <= '\r')
    || ('\U{1C}' <= c <= ' ')
    || c == '\U{85}' || c == '\U{A0}' || c == '\U{1680}'
    || ('\U{2000}' <= c <= '\U{200A}')
    || c == '\U{2028}' || c == '\U{2029}' || c == '\U{202F}' || c == '\U{205F}'
    || c == '\U{3000}'
  }

  predicate AllSpace(s: string) {
    forall i :: 0 <= i < |s| ==> IsSpace(s[i])
  }

  /** No leading and no trailing whitespace. */
  predicate IsStripped(s: string) {
    s == [] || (!IsSpace(s[0]) && !IsSpace(s[|s| - 1]))
  }

  /** The number of whitespace characters `s` starts with. */
  function LeadingSpace(s: string): (n: nat)
    ensures n <= |s|
    ensures forall i :: 0 <= i < n ==> IsSpace(s[i])
    ensures n == |s| || !IsSpace(s[n])
    decreases |s|
  {
    if |s| > 0 && IsSpace(s[0]) then 1 + LeadingSpace(s[1..]) else 0
  }

  /** The index where the trailing whitespace of `s[lo..]` begins. */
  function TrailingStart(s: string, lo: nat): (m: nat)
    requires lo <= |s|
    ensures lo <= m <= |s|
    ensures forall i :: m <= i < |s| ==> IsSpace(s[i])
    ensures m == lo || !IsSpace(s[m - 1])
    decreases |s|
  {
    if lo < |s| && IsSpace(s[|s| - 1]) then TrailingStart(s[..|s| - 1], lo) else |s|
  }

  /** `s.strip()`: `s` with the whitespace at both ends removed. The result is
      the middle of `s` once its leading and trailing whitespace are cut, and
      it is empty exactly when `s` is all whitespace. */
  function Strip(s: string): (r: string)
    ensures IsStripped(r)
    ensures |r| <= |s|
    ensures var n := LeadingSpace(s);
      n + |r| <= |s| && r == s[n..n + |r|] && forall i :: n + |r| <= i < |s| ==> IsSpace(s[i])
    ensures r == [] <==> AllSpace(s)
  {
    var n := LeadingSpace(s);
    var m := TrailingStart(s, n);
    assert m > n ==> !IsSpace(s[n]);
    s[n..m]
  }

  /** Stripping is idempotent: a stripped string is its own strip. */
  lemma StripStripped(s: string)
    requires IsStripped(s)
    ensures Strip(s) == s
  {
    if s != [] {
      assert LeadingSpace(s) == 0;
      assert TrailingStart(s, 0) == |s|;
    }
  }

  /** `a` is a suffix of `b`: `b` with some characters dropped from the front.
      (Stated recursively, so that the verifier unfolds it only on demand.) */
  predicate IsSuffix(a: string, b: string)
    decreases |b|
  {
    a == b || (|a| < |b| && IsSuffix(a, b[1..]))
  }

  /** A suffix is what is left after dropping `|b| - |a|` characters. */
  lemma {:induction false} SuffixIsDrop(a: string, b: string)
    requires IsSuffix(a, b)
    ensures |a| <= |b| && a == b[|b| - |a|..]
    decreases |b|
  {
    if a != b {
      SuffixIsDrop(a, b[1..]);
      assert b[1..][|b| - 1 - |a|..] == b[|b| - |a|..];
    }
  }

  /** Dropping any number of characters from the front leaves a suffix. */
  lemma {:induction false} DropIsSuffix(b: string, k: nat)
    requires k <= |b|
    ensures IsSuffix(b[k..], b)
    decreases k
  {
    if k > 0 {
      DropIsSuffix(b[1..], k - 1);
      assert b[1..][k - 1..] == b[k..];
    }
  }

  lemma {:induction false} SuffixTrans(a: string, b: string, c: string)
    requires IsSuffix(a, b) && IsSuffix(b, c)
    ensures IsSuffix(a, c)
    decreases |c|
  {
    if b != c {
      SuffixTrans(a, b, c[1..]);
      SuffixIsDrop(a, b);
      SuffixIsDrop(b, c);
    }
  }

  /** `d` occurs in `s` starting at index `i`. */
  predicate OccursAt(s: string, d: string, i: int) {
    0 <= i && i + |d| <= |s| && s[i..i + |d|] == d
  }

  /** `s.find(d, start)`: the first index at or after `start` where `d` occurs. */
  function FindFrom(s: string, d: string, start: nat): (r: Option<nat>)
    requires start <= |s|
    ensures r.Some? ==> start <= r.value && OccursAt(s, d, r.value)
    ensures r.Some? ==> forall j :: start <= j < r.value ==> !OccursAt(s, d, j)
    ensures r.None? ==> forall j :: start <= j ==> !OccursAt(s, d, j)
    decreases |s| - start
  {
    if OccursAt(s, d, start) then Some(start)
    else if start == |s| then None
    else FindFrom(s, d, start + 1)
  }

  /** `s.find(d)`: the first index where `d` occurs in `s`. */
  function Find(s: string, d: string): (r: Option<nat>)
    ensures r.Some? ==> OccursAt(s, d, r.value)
    ensures r.Some? ==> forall j :: 0 <= j < r.value ==> !OccursAt(s, d, j)
    ensures r.None? ==> forall j :: !OccursAt(s, d, j)
  {
    FindFrom(s, d, 0)
  }

  /** `s.split(d, 1)` for a non-empty separator: the text before the first
      occurrence of `d` and the text after it, or `[s]` when `d` does not occur.
      (Python rejects an empty separator; callers check that themselves.) */
  function SplitOnce(s: string, d: string): (parts: seq<string>)
    requires d != []
    ensures 1 <= |parts| <= 2
    ensures |parts| == 1 <==> Find(s, d).None?
    ensures |parts| == 1 ==> parts[0] == s
    ensures |parts| == 2 ==> s == parts[0] + d + parts[1]
    ensures |parts| == 2 ==> forall j :: 0 <= j < |parts[0]| ==> !OccursAt(s, d, j)
    ensures |parts| == 2 ==> |parts[0]| == Find(s, d).value
  {
    match Find(s, d)
    case None => [s]
    case Some(k) =>
      assert s == s[..k] + d + s[k + |d|..] by {
        assert s[k..k + |d|] == d;
        assert s == s[..k] + s[k..k + |d|] + s[k + |d|..];
      }
      [s[..k], s[k + |d|..]]
  }

  /** `s.replace(pat, repl)` for a non-empty `pat`: occurrences are replaced from
      left to right, and the inserted text is never searched again. */
  function ReplaceAll(s: string, pat: string, repl: string): string
    requires pat != []
    decreases |s|
  {
    if |s| == 0 then []
    else if OccursAt(s, pat, 0) then repl + ReplaceAll(s[|pat|..], pat, repl)
    else [s[0]] + ReplaceAll(s[1..], pat, repl)
  }

  /** Text in which `pat` does not occur is left unchanged. */
  lemma {:induction false} ReplaceAllNoMatch(s: string, pat: string, repl: string)
    requires pat != []
    requires forall j :: !OccursAt(s, pat, j)
    ensures ReplaceAll(s, pat, repl) == s
    decreases |s|
  {
    if |s| > 0 {
      forall j ensures !OccursAt(s[1..], pat, j) {
        if j >= 0 { OccursShift(s, 1, pat, j); }
      }
      ReplaceAllNoMatch(s[1..], pat, repl);
    }
  }

  /** Replacing a single character by a single character keeps the length and
      changes exactly the positions that held that character. */
  lemma {:induction false} ReplaceCharPointwise(s: string, pat: char, repl: char)
    ensures |ReplaceAll(s, [pat], [repl])| == |s|
    ensures forall i :: 0 <= i < |s| ==>
              ReplaceAll(s, [pat], [repl])[i] == (if s[i] == pat then repl else s[i])
    decreases |s|
  {
    if |s| > 0 {
      ReplaceCharPointwise(s[1..], pat, repl);
      var r := ReplaceAll(s, [pat], [repl]);
      var t := ReplaceAll(s[1..], [pat], [repl]);
      assert OccursAt(s, [pat], 0) <==> s[0] == pat by {
        assert s[0..1] == [s[0]];
      }
      if s[0] == pat {
        assert s[|[pat]|..] == s[1..];
        assert r == [repl] + t;
      } else {
        assert r == [s[0]] + t;
      }
      forall i | 0 <= i < |s| ensures r[i] == (if s[i] == pat then repl else s[i]) {
        if i > 0 { assert r[i] == t[i - 1]; assert s[1..][i - 1] == s[i]; }
      }
    }
  }

  /** An occurrence in a suffix is an occurrence in the whole text, shifted. */
  lemma OccursShift(s: string, k: nat, pat: string, i: nat)
    requires k <= |s|
    ensures OccursAt(s[k..], pat, i) <==> OccursAt(s, pat, i + k)
  {
    if i + |pat| <= |s| - k {
      assert s[k..][i..i + |pat|] == s[i + k..i + k + |pat|];
    }
  }

  /** Dropping the first `k` characters of `x` keeps the boundary with `y` free
      of straddling occurrences. */
  lemma NoStraddleDrop(x: string, y: string, pat: string, k: nat)
    requires k <= |x|
    requires forall i :: 0 <= i < |x| < i + |pat| ==> !OccursAt(x + y, pat, i)
    ensures forall i :: 0 <= i < |x[k..]| < i + |pat| ==> !OccursAt(x[k..] + y, pat, i)
  {
    assert x[k..] + y == (x + y)[k..];
    forall i | 0 <= i < |x[k..]| < i + |pat| ensures !OccursAt(x[k..] + y, pat, i) {
      OccursShift(x + y, k, pat, i);
    }
  }

  /** `pat` does not occur in a text none of whose characters starts it. */
  lemma NoOccurrenceByHead(s: string, pat: string)
    requires pat != []
    requires forall j :: 0 <= j < |s| ==> s[j] != pat[0]
    ensures forall j :: !OccursAt(s, pat, j)
  {
    forall j | OccursAt(s, pat, j) ensures s[j] == pat[0] {
      assert s[j..j + |pat|][0] == s[j];
    }
  }

  /** No occurrence of `pat` straddles the end of `x` when no character of `x`
      starts `pat`. */
  lemma NoStraddleByHead(x: string, y: string, pat: string)
    requires pat != []
    requires forall j :: 0 <= j < |x| ==> x[j] != pat[0]
    ensures forall i :: 0 <= i < |x| < i + |pat| ==> !OccursAt(x + y, pat, i)
  {
    forall i | 0 <= i < |x| && OccursAt(x + y, pat, i) ensures (x + y)[i] == pat[0] {
      assert (x + y)[i..i + |pat|][0] == (x + y)[i];
    }
  }

  /** No occurrence of `pat` straddles the start of `y` when the first character
      of `y` does not appear in `pat`. */
  lemma NoStraddleByBoundary(x: string, y: string, pat: string)
    requires |y| > 0
    requires forall k :: 0 <= k < |pat| ==> pat[k] != y[0]
    ensures forall i :: 0 <= i < |x| < i + |pat| ==> !OccursAt(x + y, pat, i)
  {
    forall i | 0 <= i < |x| < i + |pat| && OccursAt(x + y, pat, i)
      ensures pat[|x| - i] == y[0]
    {
      assert (x + y)[i..i + |pat|][|x| - i] == (x + y)[|x|];
    }
  }

  /** A text that starts with `pat` has it replaced first. */
  lemma ReplaceAllHead(pat: string, y: string, repl: string)
    requires pat != []
    ensures ReplaceAll(pat + y, pat, repl) == repl + ReplaceAll(y, pat, repl)
  {
    assert (pat + y)[..|pat|] == pat;
    assert (pat + y)[|pat|..] == y;
  }

  /** Replacement distributes over a concatenation when no occurrence of `pat`
      straddles the boundary between the two parts. */
  lemma {:induction false} ReplaceAllAppend(x: string, y: string, pat: string, repl: string)
    requires pat != []
    requires forall i :: 0 <= i < |x| < i + |pat| ==> !OccursAt(x + y, pat, i)
    ensures ReplaceAll(x + y, pat, repl) == ReplaceAll(x, pat, repl) + ReplaceAll(y, pat, repl)
    decreases |x|
  {
    var s := x + y;
    if |x| == 0 {
      assert s == y;
    } else if OccursAt(s, pat, 0) {
      var k := |pat|;
      assert k <= |x|;
      NoStraddleDrop(x, y, pat, k);
      ReplaceAllAppend(x[k..], y, pat, repl);
      ReplaceAllMatchHead(x, y, pat, repl);
    } else {
      NoStraddleDrop(x, y, pat, 1);
      ReplaceAllAppend(x[1..], y, pat, repl);
      ReplaceAllSkipHead(x, y, pat, repl);
    }
  }

  /** The step of `ReplaceAllAppend` where `x + y` starts with `pat` inside `x`. */
  lemma ReplaceAllMatchHead(x: string, y: string, pat: string, repl: string)
    requires pat != [] && |pat| <= |x| && OccursAt(x + y, pat, 0)
    requires ReplaceAll(x[|pat|..] + y, pat, repl) == ReplaceAll(x[|pat|..], pat, repl) + ReplaceAll(y, pat, repl)
    ensures ReplaceAll(x + y, pat, repl) == ReplaceAll(x, pat, repl) + ReplaceAll(y, pat, repl)
  {
    var s := x + y;
    assert x[..|pat|] == s[..|pat|];
    assert OccursAt(x, pat, 0);
    assert s[|pat|..] == x[|pat|..] + y;
  }

  /** The step of `ReplaceAllAppend` where `x + y` does not start with `pat`. */
  lemma ReplaceAllSkipHead(x: string, y: string, pat: string, repl: string)
    requires pat != [] && |x| > 0 && !OccursAt(x + y, pat, 0)
    requires ReplaceAll(x[1..] + y, pat, repl) == ReplaceAll(x[1..], pat, repl) + ReplaceAll(y, pat, repl)
    ensures ReplaceAll(x + y, pat, repl) == ReplaceAll(x, pat, repl) + ReplaceAll(y, pat, repl)
  {
    var s := x + y;
    assert !OccursAt(x, pat, 0) by {
      if |pat| <= |x| { assert s[..|pat|] == x[..|pat|]; }
    }
    assert s[1..] == x[1..] + y;
    assert s[0] == x[0];
  }

  /** `sep.join(parts)`. */
  function Join(parts: seq<string>, sep: char): string
  {
    if |parts| == 0 then []
    else if |parts| == 1 then parts[0]
    else parts[0] + [sep] + Join(parts[1..], sep)
  }

  /** No character of `s` belongs to `seps`. */
  predicate Avoids(s: string, seps: set<char>) {
    forall i :: 0 <= i < |s| ==> s[i] !in seps
  }

  /** The number of characters of `s` that belong to `seps`. */
  function CountIn(s: string, seps: set<char>): nat
  {
    if |s| == 0 then 0 else (if s[0] in seps then 1 else 0) + CountIn(s[1..], seps)
  }

  /** The characters of `s` that belong to `seps`, in order. */
  function Separators(s: string, seps: set<char>): (r: string)
    ensures |r| == CountIn(s, seps)
    ensures forall i :: 0 <= i < |r| ==> r[i] in seps
  {
    if |s| == 0 then []
    else if s[0] in seps then [s[0]] + Separators(s[1..], seps)
    else Separators(s[1..], seps)
  }

  /** Splitting on every character of `seps` (`re.split('[...]', s)`): one more
      piece than there are separator characters, and no piece holds one. */
  function SplitOn(s: string, seps: set<char>): (r: seq<string>)
    ensures |r| == CountIn(s, seps) + 1
    ensures forall k :: 0 <= k < |r| ==> Avoids(r[k], seps)
    decreases |s|
  {
    if |s| == 0 then [[]]
    else
      var rest := SplitOn(s[1..], seps);
      if s[0] in seps then [[]] + rest
      else
        assert Avoids([s[0]] + rest[0], seps) by {
          assert Avoids(rest[0], seps);
        }
        [[s[0]] + rest[0]] + rest[1..]
  }

  /** The pieces interleaved with the given separator characters:
      `parts[0] + [cs[0]] + parts[1] + ... + parts[n]`. */
  function Interleave(parts: seq<string>, cs: string): string
    requires |parts| == |cs| + 1
    decreases |cs|
  {
    if |cs| == 0 then parts[0]
    else parts[0] + [cs[0]] + Interleave(parts[1..], cs[1..])
  }

  /** Splitting loses nothing: the pieces and the separators found rebuild `s`. */
  lemma {:induction false} SplitOnRejoins(s: string, seps: set<char>)
    ensures Interleave(SplitOn(s, seps), Separators(s, seps)) == s
    decreases |s|
  {
    if |s| > 0 {
      SplitOnRejoins(s[1..], seps);
      var rest := SplitOn(s[1..], seps);
      var cs := Separators(s[1..], seps);
      if s[0] in seps {
        assert SplitOn(s, seps) == [[]] + rest;
        assert Separators(s, seps) == [s[0]] + cs;
        assert ([[]] + rest)[1..] == rest;
        assert s == [s[0]] + s[1..];
      } else {
        var parts := [[s[0]] + rest[0]] + rest[1..];
        assert SplitOn(s, seps) == parts;
        assert Separators(s, seps) == cs;
        if |cs| == 0 {
          assert Interleave(rest, cs) == rest[0];
        } else {
          assert parts[1..] == rest[1..];
          assert Interleave(rest, cs) == rest[0] + [cs[0]] + Interleave(rest[1..], cs[1..]);
        }
        assert s == [s[0]] + s[1..];
      }
    }
  }

  /** And conversely: pieces free of separators, interleaved with separator
      characters, split back into exactly those pieces. */
  lemma {:induction false} InterleaveSplits(parts: seq<string>, cs: string, seps: set<char>)
    requires |parts| == |cs| + 1
    requires forall k :: 0 <= k < |parts| ==> Avoids(parts[k], seps)
    requires forall i :: 0 <= i < |cs| ==> cs[i] in seps
    ensures SplitOn(Interleave(parts, cs), seps) == parts
    decreases |cs|, |parts[0]|
  {
    var s := Interleave(parts, cs);
    if |parts[0]| > 0 {
      var p := parts[0];
      var parts' := [p[1..]] + parts[1..];
      assert Avoids(p[1..], seps) by { assert Avoids(p, seps); }
      assert SplitOn(s[1..], seps) == parts' by {
        InterleaveTail(parts, cs);
        InterleaveSplits(parts', cs, seps);
      }
      assert s[0] == p[0] && p[0] !in seps by {
        InterleaveTail(parts, cs);
        assert Avoids(p, seps);
      }
      assert SplitOn(s, seps) == [[p[0]] + p[1..]] + parts[1..];
      assert [p[0]] + p[1..] == p;
    } else if |cs| > 0 {
      assert s == [cs[0]] + Interleave(parts[1..], cs[1..]);
      assert SplitOn(s[1..], seps) == parts[1..] by {
        assert s[1..] == Interleave(parts[1..], cs[1..]);
        InterleaveSplits(parts[1..], cs[1..], seps);
      }
      assert parts == [parts[0]] + parts[1..];
    }
  }

  /** Taking the first character off a non-empty first piece takes it off the
      interleaving. */
  lemma InterleaveTail(parts: seq<string>, cs: string)
    requires |parts| == |cs| + 1 && |parts[0]| > 0
    ensures |Interleave(parts, cs)| > 0 && Interleave(parts, cs)[0] == parts[0][0]
    ensures Interleave(parts, cs)[1..] == Interleave([parts[0][1..]] + parts[1..], cs)
  {
    var parts' := [parts[0][1..]] + parts[1..];
    if |cs| > 0 {
      assert parts'[1..] == parts[1..];
    }
  }

  /** `sep.join(parts)` is the interleaving with a repeated separator. */
  lemma {:induction false} JoinIsInterleave(parts: seq<string>, sep: char)
    requires |parts| > 0
    ensures Join(parts, sep) == Interleave(parts, seq(|parts| - 1, _ => sep))
    decreases |parts|
  {
    if |parts| > 1 {
      JoinIsInterleave(parts[1..], sep);
      var cs := seq(|parts| - 1, _ => sep);
      assert cs[1..] == seq(|parts| - 2, _ => sep);
    }
  }

  /** Joining fields that contain no separator and splitting the line again
      gives back exactly the fields, so the line has as many fields as `parts`. */
  lemma JoinSplitRoundTrip(parts: seq<string>, sep: char)
    requires |parts| > 0
    requires forall k :: 0 <= k < |parts| ==> Avoids(parts[k], {sep})
    ensures SplitOn(Join(parts, sep), {sep}) == parts
  {
    JoinIsInterleave(parts, sep);
    InterleaveSplits(parts, seq(|parts| - 1, _ => sep), {sep});
  }

  /** The first index of character `c` in `s`. */
  function IndexOf(s: string, c: char): (r: Option<nat>)
    ensures r.Some? ==> r.value < |s| && s[r.value] == c
    ensures r.Some? ==> forall j :: 0 <= j < r.value ==> s[j] != c
    ensures r.None? ==> forall j :: 0 <= j < |s| ==> s[j] != c
  {
    IndexFromSpec(s, c, 0);
    IndexFrom(s, c, 0)
  }

  /** The first index of `c` in `s` at or after `i`. */
  function IndexFrom(s: string, c: char, i: nat): Option<nat>
    requires i <= |s|
    decreases |s| - i
  {
    if i == |s| then None
    else if s[i] == c then Some(i)
    else IndexFrom(s, c, i + 1)
  }

  /** `IndexFrom` finds the first `c` at or after `i`, and nothing when there is none. */
  lemma {:induction false} IndexFromSpec(s: string, c: char, i: nat)
    requires i <= |s|
    ensures var r := IndexFrom(s, c, i);
      (r.Some? ==> i <= r.value < |s| && s[r.value] == c && forall j :: i <= j < r.value ==> s[j] != c) &&
      (r.None? ==> forall j :: i <= j < |s| ==> s[j] != c)
    decreases |s| - i
  {
    if i < |s| && s[i] != c {
      IndexFromSpec(s, c, i + 1);
    }
  }

  /** The last index of character `c` in `s` (`s.rfind(c)`). */
  function LastIndexOf(s: string, c: char): (r: Option<nat>)
    ensures r.Some? ==> r.value < |s| && s[r.value] == c
    ensures r.Some? ==> forall j :: r.value < j < |s| ==> s[j] != c
    ensures r.None? ==> forall j :: 0 <= j < |s| ==> s[j] != c
  {
    LastBeforeSpec(s, c, |s|);
    LastBefore(s, c, |s|)
  }

  /** The last index of `c` in `s` before `n`. */
  function LastBefore(s: string, c: char, n: nat): Option<nat>
    requires n <= |s|
  {
    if n == 0 then None
    else if s[n - 1] == c then Some(n - 1)
    else LastBefore(s, c, n - 1)
  }

  /** `LastBefore` finds the last `c` before `n`, and nothing when there is none. */
  lemma {:induction false} LastBeforeSpec(s: string, c: char, n: nat)
    requires n <= |s|
    ensures var r := LastBefore(s, c, n);
      (r.Some? ==> r.value < n && s[r.value] == c && forall j :: r.value < j < n ==> s[j] != c) &&
      (r.None? ==> forall j :: 0 <= j < n ==> s[j] != c)
  {
    if n > 0 && s[n - 1] != c {
      LastBeforeSpec(s, c, n - 1);
    }
  }

  /** An occurrence of `c` with none after it is the one `LastIndexOf` finds. */
  lemma LastIndexOfAt(s: string, c: char, k: nat)
    requires k < |s| && s[k] == c
    requires forall j :: k < j < |s| ==> s[j] != c
    ensures LastIndexOf(s, c) == Some(k)
  {
  }
}
