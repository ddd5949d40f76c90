/** The local text handling of the retrieval-augmented assistant: the filter
    over the PDF partitioner's elements, the delimiter-driven section splitter
    that runs on the model's proposed section boundaries, and the sentence split
    that feeds the sub-node index. */
module Sections {
  import opened Wrappers
  import opened Text

  // ---------------------------------------------------------------------------
  // Delimiter-driven section splitter
  // ---------------------------------------------------------------------------

  /** The splitter's loop state: the working text, re-anchored at each found
      delimiter, and the sections emitted so far. */
  datatype Splitter = Splitter(work: string, out: seq<string>)

  /** Python's `str.split` refuses an empty separator (`ValueError`). */
  datatype SplitError = EmptySeparator

  predicate NoEmpty(ds: seq<string>) {
    forall i :: 0 <= i < |ds| ==> ds[i] != []
  }

  /** What the `strip() != ""` test appends for a piece of text: its stripped
      copy when that is not blank, and nothing otherwise. */
  function Emit(t: string): (r: seq<string>)
    ensures |r| <= 1
    ensures |r| == 1 <==> !AllSpace(t)
    ensures forall k :: 0 <= k < |r| ==> r[k] == Strip(t) && r[k] != [] && IsStripped(r[k])
  {
    if Strip(t) != [] then [Strip(t)] else []
  }

  /** One turn of the loop for delimiter `d`: the working text can only shrink
      to one of its suffixes, earlier output is never changed, and at most two
      sections are added. */
  function Step(st: Splitter, d: string): (st': Splitter)
    requires d != []
    ensures IsSuffix(st'.work, st.work)
    ensures |st.out| <= |st'.out| <= |st.out| + 2
    ensures st'.out[..|st.out|] == st.out
  {
    var parts := SplitOnce(st.work, d);
    var out := st.out + Emit(parts[0]);
    if |parts| > 1 then
      assert st.work[|parts[0]|..] == d + parts[1];
      DropIsSuffix(st.work, |parts[0]|);
      Splitter(d + parts[1], out)
    else
      Splitter(st.work, out + [st.work])
  }

  /** A string that starts with `d`. */
  predicate StartsWith(w: string, d: string) {
    |d| <= |w| && w[..|d|] == d
  }

  lemma RunCons(st: Splitter, ds: seq<string>)
    requires |ds| > 0 && ds[0] != []
    ensures Run(st, ds) == Run(Step(st, ds[0]), ds[1..])
  {
  }

  /** A delimiter that occurs: the stripped text before its first occurrence is
      emitted when it is not blank, and the new working text is the suffix of
      the old one that starts at that occurrence, so it starts with the
      delimiter and the unstripped prefix followed by it rebuilds the old text. */
  lemma StepFound(st: Splitter, d: string)
    requires d != [] && Find(st.work, d).Some?
    ensures var k := Find(st.work, d).value; var st' := Step(st, d);
      && st'.work == st.work[k..]
      && |d| <= |st'.work| && st'.work[..|d|] == d
      && st.work[..k] + st'.work == st.work
      && st'.out == st.out + Emit(st.work[..k])
  {
    var k := Find(st.work, d).value;
    var parts := SplitOnce(st.work, d);
    assert st.work[..k] == parts[0];
    assert st.work[k..] == d + parts[1];
  }

  /** A delimiter that does not occur: the working text is unchanged, and the
      whole unstripped working text is emitted, preceded by its stripped copy
      when that is not blank. */
  lemma StepMissing(st: Splitter, d: string)
    requires d != [] && Find(st.work, d).None?
    ensures Step(st, d).work == st.work
    ensures Step(st, d).out == st.out + Emit(st.work) + [st.work]
  {
  }

  /** The loop from state `st` over the remaining delimiters `ds`: it stops
      with an error at the first empty delimiter, and otherwise the working
      text stays a suffix of the one it started from, the output already
      emitted is kept, and each delimiter adds at most two sections. */
  function Run(st: Splitter, ds: seq<string>): (r: Result<Splitter, SplitError>)
    ensures r.Failure? <==> !NoEmpty(ds)
    ensures r.Success? ==> IsSuffix(r.value.work, st.work)
    ensures r.Success? ==> |st.out| <= |r.value.out| <= |st.out| + 2 * |ds|
    ensures r.Success? ==> r.value.out[..|st.out|] == st.out
    decreases |ds|
  {
    if |ds| == 0 then Success(st)
    else if ds[0] == [] then Failure(EmptySeparator)
    else
      var next := Step(st, ds[0]);
      var r := Run(next, ds[1..]);
      NoEmptyTail(ds);
      if r.Success? then
        KeepsChain(st, next, r.value, |ds|);
        r
      else r
  }

  /** With a non-empty first delimiter, all delimiters are non-empty exactly
      when the rest are. */
  lemma NoEmptyTail(ds: seq<string>)
    requires |ds| > 0 && ds[0] != []
    ensures NoEmpty(ds) <==> NoEmpty(ds[1..])
  {
    if NoEmpty(ds[1..]) {
      forall i | 0 <= i < |ds| ensures ds[i] != [] {
        if i > 0 { assert ds[1..][i - 1] == ds[i]; }
      }
    }
  }

  /** One step followed by the rest of the loop keeps what each keeps: a
      suffix of a suffix, and output that extends output. */
  lemma KeepsChain(st: Splitter, next: Splitter, last: Splitter, n: nat)
    requires n > 0
    requires IsSuffix(next.work, st.work)
    requires |st.out| <= |next.out| <= |st.out| + 2 && next.out[..|st.out|] == st.out
    requires IsSuffix(last.work, next.work)
    requires |next.out| <= |last.out| <= |next.out| + 2 * (n - 1) && last.out[..|next.out|] == next.out
    ensures IsSuffix(last.work, st.work)
    ensures |st.out| <= |last.out| <= |st.out| + 2 * n
    ensures last.out[..|st.out|] == st.out
  {
    SuffixTrans(last.work, next.work, st.work);
    assert last.out[..|st.out|] == last.out[..|next.out|][..|st.out|];
  }

  /** `split_by_openai` after the model call: the sections cut out of `content`
      by the delimiter list, or the error an empty delimiter raises. */
  function SplitByDelimiters(content: string, ds: seq<string>): (r: Result<seq<string>, SplitError>)
    ensures r.Failure? <==> exists i :: 0 <= i < |ds| && ds[i] == []
    ensures r.Success? ==> |r.value| <= 2 * |ds|
    ensures |ds| == 0 ==> r == Success([])
  {
    var st :- Run(Splitter(content, []), ds);
    Success(st.out)
  }

  /** One turn of `split_by_openai`'s loop as the source writes it:
      `split(d, 1)` is a search for the first occurrence of `d`; the stripped
      text before it is kept when it is not blank, and the working text is
      re-anchored at the delimiter; a delimiter that does not occur appends
      the whole working text. It agrees with the functional `Step`. */
  method Turn(work: string, out: seq<string>, d: string) returns (work': string, out': seq<string>)
    requires d != []
    ensures Splitter(work', out') == Step(Splitter(work, out), d)
    ensures IsSuffix(work', work)
  {
    var found := Find(work, d);
    if found.Some? {
      var k := found.value;
      FoundTurn(Splitter(work, out), d, k);
      var head := Strip(work[..k]);
      out' := out;
      if head != [] {
        out' := out' + [head];
      }
      work' := d + work[k + |d|..];
    } else {
      StepMissing(Splitter(work, out), d);
      var head := Strip(work);
      out' := out;
      if head != [] {
        out' := out' + [head];
      }
      out' := out' + [work];
      work' := work;
    }
  }

  /** The loop of `split_by_openai`: it walks the delimiters and stops with an
      error at the first empty one. `rest` is the final working text, a suffix
      of `content`; together with the sections it is the state the functional
      splitter ends in. */
  method SplitSections(content: string, delimiters: seq<string>) returns (r: Result<seq<string>, SplitError>, rest: string)
    ensures r == SplitByDelimiters(content, delimiters)
    ensures IsSuffix(rest, content)
    ensures r.Success? ==> Run(Splitter(content, []), delimiters) == Success(Splitter(rest, r.value))
  {
    var work := content;
    var out: seq<string> := [];
    var i := 0;
    ghost var goal := Run(Splitter(content, []), delimiters);
    while i < |delimiters|
      invariant 0 <= i <= |delimiters|
      invariant IsSuffix(work, content)
      invariant Run(Splitter(work, out), delimiters[i..]) == goal
    {
      var d := delimiters[i];
      RunAt(Splitter(work, out), delimiters, i);
      if d == [] {
        return Failure(EmptySeparator), work;
      }
      var work', out' := Turn(work, out, d);
      SuffixTrans(work', work, content);
      work, out := work', out';
      i := i + 1;
    }
    RunAt(Splitter(work, out), delimiters, i);
    return Success(out), work;
  }

  /** The loop from delimiter `i` on: done at the end of the list, failed at an
      empty delimiter, and otherwise one step followed by the rest. */
  lemma RunAt(st: Splitter, ds: seq<string>, i: nat)
    requires i <= |ds|
    ensures i == |ds| ==> Run(st, ds[i..]) == Success(st)
    ensures i < |ds| && ds[i] == [] ==> Run(st, ds[i..]) == Failure(EmptySeparator)
    ensures i < |ds| && ds[i] != [] ==> Run(st, ds[i..]) == Run(Step(st, ds[i]), ds[i + 1..])
  {
    if i < |ds| {
      assert ds[i..][0] == ds[i] && ds[i..][1..] == ds[i + 1..];
    }
  }

  /** A found delimiter in the terms the loop uses: the working text becomes
      the delimiter followed by what comes after its first occurrence. */
  lemma FoundTurn(st: Splitter, d: string, k: nat)
    requires d != [] && Find(st.work, d) == Some(k)
    ensures k + |d| <= |st.work|
    ensures Step(st, d).work == d + st.work[k + |d|..]
    ensures IsSuffix(d + st.work[k + |d|..], st.work)
    ensures Step(st, d).out == st.out + (if Strip(st.work[..k]) != [] then [Strip(st.work[..k])] else [])
  {
    StepFound(st, d);
    assert st.work[k..] == d + st.work[k + |d|..];
  }

  /** Every delimiter of `ds` is non-empty and found in the working text at its turn. */
  predicate AllFound(st: Splitter, ds: seq<string>)
    decreases |ds|
  {
    |ds| == 0 || (ds[0] != [] && Find(st.work, ds[0]).Some? && AllFound(Step(st, ds[0]), ds[1..]))
  }

  /** The total number of characters in a list of strings. */
  function TotalLength(xs: seq<string>): nat
    decreases |xs|
  {
    if |xs| == 0 then 0 else TotalLength(xs[..|xs| - 1]) + |xs[|xs| - 1]|
  }

  /** When every delimiter is found, the sections emitted along the way and
      the final working text together fit inside the text the loop started
      from, and the final working text is a suffix of the starting text that
      starts with the last delimiter. Every section emitted is a slice of the
      text before that suffix, so nothing from the last delimiter on is ever
      returned. */
  lemma {:induction false} FoundTailDropped(st: Splitter, ds: seq<string>)
    requires AllFound(st, ds)
    ensures Run(st, ds).Success?
    ensures TotalLength(Run(st, ds).value.out) + |Run(st, ds).value.work| <= TotalLength(st.out) + |st.work|
    ensures |ds| > 0 ==> StartsWith(Run(st, ds).value.work, ds[|ds| - 1])
    ensures EmittedBefore(st, Run(st, ds).value)
    decreases |ds|
  {
    if |ds| > 0 {
      var next := Step(st, ds[0]);
      RunCons(st, ds);
      assert AllFound(next, ds[1..]);
      FoundTailDropped(next, ds[1..]);
      ghost var last := Run(next, ds[1..]).value;
      assert Run(st, ds) == Success(last);
      assert TotalLength(last.out) + |last.work| <= TotalLength(st.out) + |st.work| by {
        FoundStepBudget(st, ds[0]);
      }
      FoundSlicesStep(st, next, last, ds[0]);
      if |ds| > 1 {
        assert ds[1..][|ds[1..]| - 1] == ds[|ds| - 1];
      }
    } else {
      assert Run(st, ds) == Success(st);
      assert st.work[0..] == st.work;
    }
  }

  /** The inductive step of the slice property: a found step, then the rest
      of the loop with its slices inside the step's working text. */
  lemma FoundSlicesStep(st: Splitter, next: Splitter, last: Splitter, d: string)
    requires d != [] && Find(st.work, d).Some? && next == Step(st, d)
    requires |next.out| <= |last.out| && last.out[..|next.out|] == next.out && EmittedBefore(next, last)
    ensures EmittedBefore(st, last)
  {
    FoundStepSlices(st, d);
    SlicesChain(st, next, last);
  }

  /** `r`'s working text is a suffix of `st`'s, and every section `r`
      emitted beyond `st`'s output is a slice of `st`'s working text that
      ends before that suffix begins. */
  ghost predicate EmittedBefore(st: Splitter, r: Splitter) {
    |r.work| <= |st.work| && r.work == st.work[|st.work| - |r.work|..] &&
    forall k :: |st.out| <= k < |r.out| ==> SliceBefore(r.out[k], st.work, |st.work| - |r.work|)
  }

  /** `x` is a slice of `s` that ends at or before position `n`. */
  ghost predicate SliceBefore(x: string, s: string, n: nat) {
    n <= |s| && exists i :: OccursAt(s, x, i) && i + |x| <= n
  }

  /** A slice of a suffix of `s` is a slice of `s`, shifted by where the
      suffix starts. */
  lemma SliceBeforeShift(x: string, s: string, k: nat, n: nat)
    requires k <= |s| && SliceBefore(x, s[k..], n)
    ensures SliceBefore(x, s, k + n)
  {
    var i :| OccursAt(s[k..], x, i) && i + |x| <= n;
    assert s[k + i..k + i + |x|] == s[k..][i..i + |x|];
    assert OccursAt(s, x, k + i);
  }

  /** One found delimiter emits only a slice of the text before it, and the
      new working text is the rest of the old one. */
  lemma FoundStepSlices(st: Splitter, d: string)
    requires d != [] && Find(st.work, d).Some?
    ensures var next := Step(st, d);
      |st.out| <= |next.out| && EmittedBefore(st, next)
  {
    StepFound(st, d);
    var next := Step(st, d);
    var p := Find(st.work, d).value;
    var e := Emit(st.work[..p]);
    assert next.out == st.out + e;
    assert |st.work| - |next.work| == p;
    if |e| == 1 {
      assert SliceBefore(e[0], st.work, p) by {
        StripIsSlice(st.work, p);
      }
      assert next.out[|st.out|] == e[0];
    }
  }

  /** The stripped copy of a prefix of `s` is a slice of `s` within that prefix. */
  lemma StripIsSlice(s: string, p: nat)
    requires p <= |s|
    ensures SliceBefore(Strip(s[..p]), s, p)
  {
    var x := Strip(s[..p]);
    var n := LeadingSpace(s[..p]);
    assert s[n..n + |x|] == s[..p][n..n + |x|];
    assert OccursAt(s, x, n);
  }

  /** One step followed by the rest of the loop: what the step emitted lies
      before the step's working text, what the rest emitted lies inside that
      working text, and both lie before the final working text. */
  lemma SlicesChain(st: Splitter, next: Splitter, last: Splitter)
    requires |st.out| <= |next.out| && EmittedBefore(st, next)
    requires |next.out| <= |last.out| && last.out[..|next.out|] == next.out && EmittedBefore(next, last)
    ensures EmittedBefore(st, last)
  {
    var c := |st.work| - |next.work|;
    assert last.work == st.work[|st.work| - |last.work|..] by {
      assert st.work[c..][|next.work| - |last.work|..] == st.work[|st.work| - |last.work|..];
    }
    forall k | |st.out| <= k < |last.out| ensures SliceBefore(last.out[k], st.work, |st.work| - |last.work|) {
      if k < |next.out| {
        assert last.out[k] == last.out[..|next.out|][k];
        var i :| OccursAt(st.work, last.out[k], i) && i + |last.out[k]| <= c;
        assert OccursAt(st.work, last.out[k], i);
      } else {
        SliceBeforeShift(last.out[k], st.work, c, |next.work| - |last.work|);
      }
    }
  }

  /** One found delimiter: what is emitted plus the new working text is no
      longer than the old working text, and the new working text starts with
      the delimiter. */
  lemma FoundStepBudget(st: Splitter, d: string)
    requires d != [] && Find(st.work, d).Some?
    ensures TotalLength(Step(st, d).out) + |Step(st, d).work| <= TotalLength(st.out) + |st.work|
    ensures StartsWith(Step(st, d).work, d)
  {
    var next := Step(st, d);
    StepFound(st, d);
    var k := Find(st.work, d).value;
    var e := Emit(st.work[..k]);
    assert next.out == st.out + e;
    if |e| == 1 {
      assert (st.out + e)[..|st.out|] == st.out;
      assert TotalLength(next.out) == TotalLength(st.out) + |e[0]|;
      assert |e[0]| <= k by { assert e[0] == Strip(st.work[..k]); }
    } else {
      assert next.out == st.out;
    }
    assert |next.work| == |st.work| - k;
  }

  // ---------------------------------------------------------------------------
  // PDF element filter
  // ---------------------------------------------------------------------------

  /** One element from the PDF partitioner, reduced to what the filter reads:
      its category, its text, and the HTML rendering a table carries. */
  datatype Element = Element(category: string, text: string, html: Option<string>)

  /** A table element without an HTML rendering makes `.strip()` fail on `None`. */
  datatype ParseError = TableWithoutHtml

  /** Elements the filter skips: missing ones and images, footers and headers. */
  predicate Skipped(el: Option<Element>) {
    el.None? || el.value.category in {"Image", "Footer", "Header"}
  }

  /** The stripped text a kept element contributes: a table's HTML, otherwise its text. */
  function Contents(el: Element): Result<string, ParseError>
  {
    if el.category == "Table" then
      match el.html
      case None => Failure(TableWithoutHtml)
      case Some(h) => Success(Strip(h))
    else Success(Strip(el.text))
  }

  /** The first pass over the elements: skip, then strip. */
  function Collect(els: seq<Option<Element>>): (r: Result<seq<string>, ParseError>)
    ensures r.Success? ==> |r.value| <= |els|
    ensures r.Success? ==> forall k :: 0 <= k < |r.value| ==> IsStripped(r.value[k])
    decreases |els|
  {
    if |els| == 0 then Success([])
    else
      var rest :- Collect(els[1..]);
      if Skipped(els[0]) then Success(rest)
      else
        var c :- Contents(els[0].value);
        Success([c] + rest)
  }

  /** The second pass: drop the empty strings, keeping the order of the rest. */
  function DropEmpty(xs: seq<string>): (r: seq<string>)
    ensures |r| <= |xs|
    ensures forall k :: 0 <= k < |r| ==> r[k] != [] && r[k] in xs
    decreases |xs|
  {
    if |xs| == 0 then []
    else if xs[0] == [] then DropEmpty(xs[1..])
    else [xs[0]] + DropEmpty(xs[1..])
  }

  /** A table element that is kept but has no HTML rendering. */
  predicate BadTable(el: Option<Element>) {
    el.Some? && el.value.category == "Table" && el.value.html.None?
  }

  /** `parse_file` once the partitioner has run: the stripped, non-empty
      contents of the kept elements, no more of them than there are elements,
      and an error exactly when some table lacks its HTML rendering. */
  function ParseFile(els: seq<Option<Element>>): (r: Result<seq<string>, ParseError>)
    ensures r.Success? ==> |r.value| <= |els|
    ensures r.Success? ==> forall k :: 0 <= k < |r.value| ==> r.value[k] != [] && IsStripped(r.value[k])
    ensures r.Failure? <==> exists i :: 0 <= i < |els| && BadTable(els[i])
  {
    CollectFails(els);
    var cs :- Collect(els);
    Success(DropEmpty(cs))
  }

  lemma {:induction false} CollectFails(els: seq<Option<Element>>)
    ensures Collect(els).Failure? <==> exists i :: 0 <= i < |els| && BadTable(els[i])
    decreases |els|
  {
    if |els| > 0 {
      CollectFails(els[1..]);
      if exists i :: 0 <= i < |els[1..]| && BadTable(els[1..][i]) {
        var i :| 0 <= i < |els[1..]| && BadTable(els[1..][i]);
        assert BadTable(els[i + 1]);
      }
      if exists i :: 0 <= i < |els| && BadTable(els[i]) {
        var i :| 0 <= i < |els| && BadTable(els[i]);
        if i > 0 { assert BadTable(els[1..][i - 1]); }
      }
    }
  }

  /** The per-element reference: what one element contributes to the output. */
  function Contribution(el: Option<Element>): Result<seq<string>, ParseError>
  {
    if Skipped(el) then Success([])
    else
      var c :- Contents(el.value);
      Success(if c == [] then [] else [c])
  }

  /** Sequencing of two outcomes: the first failure wins, otherwise the lists
      are concatenated in order. */
  function Then(a: Result<seq<string>, ParseError>, b: Result<seq<string>, ParseError>): Result<seq<string>, ParseError>
  {
    if a.Failure? then a else if b.Failure? then b else Success(a.value + b.value)
  }

  lemma {:induction false} DropEmptyAppend(xs: seq<string>, ys: seq<string>)
    ensures DropEmpty(xs + ys) == DropEmpty(xs) + DropEmpty(ys)
    decreases |xs|
  {
    if |xs| > 0 {
      assert (xs + ys)[1..] == xs[1..] + ys;
      DropEmptyAppend(xs[1..], ys);
    } else {
      assert xs + ys == ys;
    }
  }

  /** The second pass drops exactly the empty strings: every non-empty string
      occurs in the result as often as in the input, and no empty string is left. */
  lemma {:induction false} DropEmptyCounts(xs: seq<string>)
    ensures multiset(DropEmpty(xs)) == multiset(xs)[[] := 0]
    decreases |xs|
  {
    if |xs| > 0 {
      DropEmptyCounts(xs[1..]);
      assert xs == [xs[0]] + xs[1..];
      assert multiset(xs) == multiset{xs[0]} + multiset(xs[1..]);
      if xs[0] != [] {
        assert multiset(DropEmpty(xs)) == multiset{xs[0]} + multiset(DropEmpty(xs[1..]));
      }
    }
  }

  /** What one element adds in the first pass, before empty strings are dropped. */
  function Raw(el: Option<Element>): Result<seq<string>, ParseError>
  {
    if Skipped(el) then Success([])
    else
      var c :- Contents(el.value);
      Success([c])
  }

  lemma {:induction false} CollectSnoc(els: seq<Option<Element>>, el: Option<Element>)
    ensures Collect(els + [el]) == Then(Collect(els), Raw(el))
    decreases |els|
  {
    if |els| == 0 {
      assert els + [el] == [el];
      assert [el][1..] == [];
      assert Collect([el][1..]) == Success([]);
      if Skipped(el) {
        assert Collect([el]) == Success([]);
        var none: seq<string> := [];
        assert none + none == none;
        assert Raw(el) == Success(none);
      } else if Contents(el.value).Success? {
        var c := Contents(el.value).value;
        assert [c] + [] == [] + [c];
      } else {
        assert Collect([el]) == Failure(TableWithoutHtml);
        assert Raw(el) == Failure(TableWithoutHtml);
      }
    } else {
      assert (els + [el])[1..] == els[1..] + [el];
      assert (els + [el])[0] == els[0];
      CollectSnoc(els[1..], el);
      var rest := Collect(els[1..]);
      var raw := Raw(el);
      if rest.Success? && raw.Success? && !Skipped(els[0]) && Contents(els[0].value).Success? {
        var c := Contents(els[0].value).value;
        assert [c] + (rest.value + raw.value) == ([c] + rest.value) + raw.value;
      }
    }
  }

  /** `parse_file` keeps input order: the result for `els + [el]` is the result
      for `els` followed by what `el` alone contributes. */
  lemma ParseFileSnoc(els: seq<Option<Element>>, el: Option<Element>)
    ensures ParseFile(els + [el]) == Then(ParseFile(els), Contribution(el))
  {
    CollectSnoc(els, el);
    if Collect(els).Success? && Raw(el).Success? {
      DropEmptyAppend(Collect(els).value, Raw(el).value);
      if !Skipped(el) {
        var c := Contents(el.value).value;
        assert Raw(el).value == [c];
        assert DropEmpty([c]) == (if c == [] then [] else [c]) by {
          assert [c][1..] == [];
        }
      }
    }
  }

  // ---------------------------------------------------------------------------
  // Sentence split
  // ---------------------------------------------------------------------------

  /** The characters the section text is cut at: the ideographic full stop,
      the ASCII full stop and the line break. */
  const SentenceEnds: set<char> := {'。', '.', '\n'}

  /** `re.split('[。.\n]', section)`: one more piece than there are sentence
      ends, and no piece contains one. */
  function Sentences(section: string): (r: seq<string>)
    ensures |r| == CountIn(section, SentenceEnds) + 1
    ensures forall k :: 0 <= k < |r| ==> Avoids(r[k], SentenceEnds)
  {
    SplitOn(section, SentenceEnds)
  }

  /** The pieces, rejoined with the sentence ends that were cut out, give back
      the section. */
  lemma SentencesRejoin(section: string)
    ensures Interleave(Sentences(section), Separators(section, SentenceEnds)) == section
  {
    SplitOnRejoins(section, SentenceEnds);
  }
}
