/** The benchmark driver: every bench answers every question, a judge scores
    each answer, and the results go to the detail file (one row per answer)
    and the summary file (one row per bench). The benches, the judge, the
    clock and the numeric summary are parameters. */
module Bench {
  import opened Wrappers
  import opened Text
  import opened CsvLog
  import opened ScoreFile

  // ---------------------------------------------------------------------------
  // The judge's prompt
  // ---------------------------------------------------------------------------

  const QuestionSlot: string := "{question}"
  const AnswerSlot: string := "{answer}"

  /** The user-prompt template sent to the judge: a line break, `質問: {question}`,
      a line break, `回答: {answer}`, and a final line break. */
  const UserTemplate: string := "\n質問: " + QuestionSlot + "\n回答: " + AnswerSlot + "\n"

  /** `evaluate`'s user prompt: every `{question}` replaced by the question,
      then every `{answer}` replaced by the answer. */
  function UserPrompt(question: string, answer: string): string {
    ReplaceAll(ReplaceAll(UserTemplate, QuestionSlot, question), AnswerSlot, answer)
  }

  /** Text none of whose characters is a `{` is left alone by both substitutions. */
  lemma NoBrace(s: string, pat: string, repl: string)
    requires pat != [] && pat[0] == '{'
    requires forall j :: 0 <= j < |s| ==> s[j] != '{'
    ensures ReplaceAll(s, pat, repl) == s
    ensures forall i :: 0 <= i < |s| < i + |pat| ==> !OccursAt(s + repl, pat, i)
  {
    NoOccurrenceByHead(s, pat);
    ReplaceAllNoMatch(s, pat, repl);
    NoStraddleByHead(s, repl, pat);
  }

  /** The part of the template after the question slot holds no `{question}`:
      before its `{` there is none, and from the `{` on it is too short. */
  lemma TailHasNoQuestionSlot(question: string)
    ensures ReplaceAll("\n回答: " + AnswerSlot + "\n", QuestionSlot, question) ==
            "\n回答: " + AnswerSlot + "\n"
  {
    var a0, rest := "\n回答: ", AnswerSlot + "\n";
    assert a0 + AnswerSlot + "\n" == a0 + rest;
    assert ReplaceAll(a0, QuestionSlot, question) == a0 by {
      NoBrace(a0, QuestionSlot, question);
    }
    assert ReplaceAll(rest, QuestionSlot, question) == rest by {
      ReplaceAllNoMatch(rest, QuestionSlot, question);
    }
    NoStraddleByHead(a0, rest, QuestionSlot);
    ReplaceAllAppend(a0, rest, QuestionSlot, question);
  }

  /** Filling a slot whose text before it holds no `{` and whose text after it
      holds no further occurrence of the slot. */
  lemma FillSlot(before: string, slot: string, after: string, v: string)
    requires slot != [] && slot[0] == '{'
    requires forall j :: 0 <= j < |before| ==> before[j] != '{'
    requires ReplaceAll(after, slot, v) == after
    ensures ReplaceAll(before + slot + after, slot, v) == before + v + after
  {
    assert before + slot + after == before + (slot + after);
    NoBrace(before, slot, v);
    NoStraddleByHead(before, slot + after, slot);
    ReplaceAllAppend(before, slot + after, slot, v);
    ReplaceAllHead(slot, after, v);
  }

  /** The first substitution puts the question in its slot and nothing else. */
  lemma QuestionFilled(question: string)
    ensures ReplaceAll(UserTemplate, QuestionSlot, question) ==
            "\n質問: " + question + "\n回答: " + AnswerSlot + "\n"
  {
    var tail := "\n回答: " + AnswerSlot + "\n";
    assert UserTemplate == "\n質問: " + QuestionSlot + tail;
    TailHasNoQuestionSlot(question);
    FillSlot("\n質問: ", QuestionSlot, tail, question);
    assert "\n質問: " + question + tail == "\n質問: " + question + "\n回答: " + AnswerSlot + "\n";
  }

  /** The second substitution on the part after the question: the answer
      goes in its slot. */
  lemma AnswerFilled(answer: string)
    ensures ReplaceAll("\n回答: " + AnswerSlot + "\n", AnswerSlot, answer) == "\n回答: " + answer + "\n"
  {
    NoBrace("\n", AnswerSlot, answer);
    FillSlot("\n回答: ", AnswerSlot, "\n", answer);
  }

  /** Substituting into `before + middle + after`, where `before` holds no `{`
      and `after` starts with a character `slot` lacks, substitutes into the
      three parts separately. */
  lemma ReplaceThree(before: string, middle: string, after: string, slot: string, v: string)
    requires slot != [] && slot[0] == '{'
    requires forall j :: 0 <= j < |before| ==> before[j] != '{'
    requires |after| > 0 && forall k :: 0 <= k < |slot| ==> slot[k] != after[0]
    ensures ReplaceAll(before + middle + after, slot, v) ==
            before + ReplaceAll(middle, slot, v) + ReplaceAll(after, slot, v)
  {
    NoStraddleByBoundary(before + middle, after, slot);
    ReplaceAllAppend(before + middle, after, slot, v);
    NoBrace(before, slot, v);
    NoStraddleByHead(before, middle, slot);
    ReplaceAllAppend(before, middle, slot, v);
  }

  /** The prompt holds the question with any `{answer}` in it replaced by the
      answer, then the answer itself; a `{question}` in the answer stays as it
      is, because the question slot was filled first. */
  lemma UserPromptShape(question: string, answer: string)
    ensures UserPrompt(question, answer) ==
            "\n質問: " + ReplaceAll(question, AnswerSlot, answer) + "\n回答: " + answer + "\n"
  {
    var head, tail := "\n質問: ", "\n回答: " + AnswerSlot + "\n";
    var filled := ReplaceAll(question, AnswerSlot, answer);
    calc {
      UserPrompt(question, answer);
    ==
      ReplaceAll(ReplaceAll(UserTemplate, QuestionSlot, question), AnswerSlot, answer);
    == { QuestionFilled(question); assert head + question + tail == head + question + "\n回答: " + AnswerSlot + "\n"; }
      ReplaceAll(head + question + tail, AnswerSlot, answer);
    == { ReplaceThree(head, question, tail, AnswerSlot, answer); }
      head + filled + ReplaceAll(tail, AnswerSlot, answer);
    == { AnswerFilled(answer); }
      head + filled + ("\n回答: " + answer + "\n");
    == { assert head + filled + ("\n回答: " + answer + "\n") == head + filled + "\n回答: " + answer + "\n"; }
      head + filled + "\n回答: " + answer + "\n";
    }
  }

  // ---------------------------------------------------------------------------
  // The fixed lists
  // ---------------------------------------------------------------------------

  /** The questions, as the list literal evaluates: the second and third lines
      of the literal have no comma between them, so Python joins them into a
      single string. */
  const Questions: seq<string> := [
    "インボイス制度について教えてください",
    "インボイス制度において発行者のデメリットはなんですか？" +
    "インボイスはいつまでに登録申請をする必要がありますか？",
    "インボイス制度が始まると、課税事業者はどうなりますか？",
    "簡易課税について教えて",
    "簡易課税のメリット・デメリットを教えて",
    "インボイス発行事業者になるためには、どうすればよいでしょうか？",
    "インボイスの記載事項について教えて",
    "仕入税額控除をするための要件を教えて",
    "「適格請求書等保存方式」の概要を教えてください",
    "適格請求書発行事業者の登録は、どのような手続で行うのですか。",
    "適格請求書等保存方式の下での仕入税額控除の要件を教えてください。",
    "適格請求書の様式は、法令又は通達等で定められていますか",
    "登録番号は、どのような構成ですか",
    "３万円未満の自動販売機や自動サービス機による商品の販売等は、適格請求書の交付義務 が免除されるそうですが、具体的にはどのようなものが該当しますか。"
  ]

  /** The judge's columns, in the order the detail file lists them. */
  const JudgedColumns: seq<string> := ["appropriateness", "accuracy", "additional", "score", "comment"]

  const DetailPath: string := "result/result_detail.csv"
  const ScorePath: string := "result/result.csv"
  const TargetFiles: seq<string> := ["invoice"]

  /** The document a bench is built on. */
  function DocPath(file: string): string {
    "data/" + file + ".pdf"
  }

  /** Where the driver writes and which of the judge's columns it keeps. */
  datatype Layout = Layout(detailPath: string, scorePath: string, judged: seq<string>)

  /** The layout `main` uses. */
  const BenchLayout: Layout := Layout(DetailPath, ScorePath, JudgedColumns)

  /** The headers of a detail row: the judge's columns, then the query and the
      answer. */
  function DetailHeaders(l: Layout): seq<string> {
    l.judged + ["query", "answer"]
  }

  /** A layout whose writers cannot fail for want of a directory and whose
      detail headers name each column once. */
  predicate WellFormed(l: Layout) {
    HasDirectory(l.detailPath) && HasDirectory(l.scorePath) &&
    forall i :: 0 <= i < |DetailHeaders(l)| ==> DetailHeaders(l)[i] !in DetailHeaders(l)[..i]
  }

  // ---------------------------------------------------------------------------
  // Benches, judge and the collection loop
  // ---------------------------------------------------------------------------

  /** A bench under test: its name, and its answer to a query given the document
      it was built on and the queries it was asked since then. */
  datatype Agent = Agent(name: string, chat: (string, seq<string>, string) -> string)

  /** The benches `main` runs, in order: the hosted assistant, then the local
      assistant retrieving two and three passages. */
  datatype BenchKind = Hosted | Origin(topK: nat)

  const Benches: seq<BenchKind> := [Hosted, Origin(2), Origin(3)]

  /** The agents `main` runs, one per bench, given how each bench answers. */
  function BenchAgents(agentOf: BenchKind -> Agent): (r: seq<Agent>)
    ensures |r| == |Benches| == 3
    ensures forall k :: 0 <= k < |r| ==> r[k] == agentOf(Benches[k])
  {
    [agentOf(Benches[0]), agentOf(Benches[1]), agentOf(Benches[2])]
  }

  /** What the driver cannot see: the judge (its verdict for a user prompt),
      float rounding, numpy's statistics and the clock, read once per row. */
  datatype World = World(
    judge: string -> map<string, Value>,
    round3: real -> real,
    summarize: seq<Value> -> Summary,
    clock: Tick -> string)

  /** When the clock is read: for target file `target`, bench `bench`, and
      question `question` (the summary row reads it with `question` equal to
      the number of questions). */
  datatype Tick = Tick(target: nat, bench: nat, question: nat)

  /** The two result files. */
  datatype Files = Files(detail: FileState, summary: FileState)

  datatype BenchError = ScoreMissing | WriteFailed(error: CsvError)

  /** The loop over the questions of one bench: finished with the scores, or
      halted with the detail file as it was. */
  datatype Asked = Asked(detail: FileState, scores: seq<Value>) | AskHalted(error: BenchError, detail: FileState)

  /** The driver after some benches: still going, or halted by an error. */
  datatype Progress = Going(files: Files) | Halted(error: BenchError, files: Files)

  /** The answer to question `i`: the bench has already been asked the earlier
      questions. */
  function AnswerAt(agent: Agent, doc: string, queries: seq<string>, i: nat): string
    requires i < |queries|
  {
    agent.chat(doc, queries[..i], queries[i])
  }

  /** The judge's verdict on question `i`, as `evaluate` returns it. */
  function VerdictAt(w: World, agent: Agent, doc: string, queries: seq<string>, i: nat): map<string, Value>
    requires i < |queries|
  {
    w.judge(UserPrompt(queries[i], AnswerAt(agent, doc, queries, i)))
  }

  /** The map written as detail row `i`: the verdict with the query and the
      answer added. */
  function DetailValue(w: World, agent: Agent, doc: string, queries: seq<string>, i: nat): map<string, Value>
    requires i < |queries|
  {
    VerdictAt(w, agent, doc, queries, i)["query" := Str(queries[i])]["answer" := Str(AnswerAt(agent, doc, queries, i))]
  }

  /** The detail write for question `i`. */
  function WriteDetail(l: Layout, w: World, t: nat, b: nat, agent: Agent, doc: string,
                       queries: seq<string>, i: nat, detail: FileState): Outcome<map<string, Value>>
    requires i < |queries|
  {
    WriteAny(detail, l.detailPath, agent.name, DetailHeaders(l),
             DetailValue(w, agent, doc, queries, i), w.clock(Tick(t, b, i)), w.round3)
  }

  /** Questions `i..` of one bench: each answer is judged, its score is kept,
      and its detail row is written; a verdict without a score or a detail row
      that cannot be written stops the loop. */
  function AskFrom(l: Layout, w: World, t: nat, b: nat, agent: Agent, doc: string, queries: seq<string>,
                   i: nat, detail: FileState, scores: seq<Value>): Asked
    requires i <= |queries|
    decreases |queries| - i, 1
  {
    if i == |queries| then Asked(detail, scores)
    else Judged(l, w, t, b, agent, doc, queries, i, detail, scores)
  }

  /** The body of the loop for question `i`: keep the score, write the detail
      row, go on with the next question. */
  function Judged(l: Layout, w: World, t: nat, b: nat, agent: Agent, doc: string, queries: seq<string>,
                  i: nat, detail: FileState, scores: seq<Value>): Asked
    requires i < |queries|
    decreases |queries| - i, 0
  {
    var verdict := VerdictAt(w, agent, doc, queries, i);
    if "score" !in verdict then AskHalted(ScoreMissing, detail)
    else
      match WriteDetail(l, w, t, b, agent, doc, queries, i, detail)
      case Stopped(e, f) => AskHalted(WriteFailed(e), f)
      case Done(f, _) => AskFrom(l, w, t, b, agent, doc, queries, i + 1, f, scores + [verdict["score"]])
  }

  /** One bench: all its questions, then one summary row. */
  function RunBench(l: Layout, w: World, t: nat, b: nat, agent: Agent, doc: string, queries: seq<string>,
                    files: Files): Progress
  {
    match AskFrom(l, w, t, b, agent, doc, queries, 0, files.detail, [])
    case AskHalted(e, d) => Halted(e, Files(d, files.summary))
    case Asked(d, scores) =>
      match WriteScore(files.summary, l.scorePath, agent.name, scores, w.summarize,
                       w.clock(Tick(t, b, |queries|)))
      case Stopped(e, s) => Halted(WriteFailed(e), Files(d, s))
      case Done(s, _) => Going(Files(d, s))
  }

  /** Benches `b..` on one target document. */
  function RunBenches(l: Layout, w: World, t: nat, agents: seq<Agent>, b: nat, doc: string,
                      queries: seq<string>, files: Files): Progress
    requires b <= |agents|
    decreases |agents| - b
  {
    if b == |agents| then Going(files)
    else
      match RunBench(l, w, t, b, agents[b], doc, queries, files)
      case Halted(e, f) => Halted(e, f)
      case Going(f) => RunBenches(l, w, t, agents, b + 1, doc, queries, f)
  }

  /** Target documents `t..`, every bench on each, every question to each bench. */
  function RunAll(l: Layout, w: World, targets: seq<string>, t: nat, agents: seq<Agent>,
                  queries: seq<string>, files: Files): Progress
    requires t <= |targets|
    decreases |targets| - t
  {
    if t == |targets| then Going(files)
    else
      match RunBenches(l, w, t, agents, 0, DocPath(targets[t]), queries, files)
      case Halted(e, f) => Halted(e, f)
      case Going(f) => RunAll(l, w, targets, t + 1, agents, queries, f)
  }

  // ---------------------------------------------------------------------------
  // Properties of the fixed lists
  // ---------------------------------------------------------------------------

  /** There are fourteen questions, not fifteen: the second one is two lines of
      the literal run together. */
  lemma QuestionsAsWritten()
    ensures |Questions| == 14
    ensures Questions[1] == "インボイス制度において発行者のデメリットはなんですか？" +
                            "インボイスはいつまでに登録申請をする必要がありますか？"
  {
  }

  /** Both result paths name a directory. */
  lemma BenchPaths()
    ensures HasDirectory(DetailPath) && HasDirectory(ScorePath)
  {
    LastIndexOfAt(DetailPath, '/', 6);
    LastIndexOfAt(ScorePath, '/', 6);
  }

  /** The `file` column of the detail file is `result_detail`. */
  lemma DetailFileName()
    ensures FileName(DetailPath) == "result_detail"
  {
    var b := "result_detail.csv";
    BasenameAfter(DetailPath, 6);
    assert DetailPath[7..] == b;
    StemNamed(b, 13);
  }

  /** The `file` column of the summary file is `result`. */
  lemma ScoreFileName()
    ensures FileName(ScorePath) == "result"
  {
    var c := "result.csv";
    BasenameAfter(ScorePath, 6);
    assert ScorePath[7..] == c;
    StemNamed(c, 6);
  }

  /** A path whose last `/` is at `k` has what follows it as its base name. */
  lemma BasenameAfter(path: string, k: nat)
    requires k < |path| && path[k] == '/'
    requires forall j :: k < j < |path| ==> path[j] != '/'
    ensures Basename(path) == path[k + 1..]
  {
    LastIndexOfAt(path, '/', k);
  }

  /** A base name whose only dot is at `d > 0`, not preceded by a dot, has
      the part before `d` as its stem. */
  lemma StemNamed(b: string, d: nat)
    requires 0 < d < |b| && b[d] == '.' && b[0] != '.'
    requires forall j :: d < j < |b| ==> b[j] != '.'
    ensures Stem(b) == b[..d]
  {
    LastIndexOfAt(b, '.', d);
    assert b[..d][0] != '.';
  }

  /** The detail headers of `main` name each column once. */
  lemma BenchHeadersDistinct()
    ensures forall i :: 0 <= i < |DetailHeaders(BenchLayout)| ==>
      DetailHeaders(BenchLayout)[i] !in DetailHeaders(BenchLayout)[..i]
  {
    var h := DetailHeaders(BenchLayout);
    var lengths := [15, 8, 10, 5, 7, 5, 6];
    assert forall i :: 0 <= i < 7 ==> |h[i]| == lengths[i];
    assert h[3][0] != h[5][0];
  }

  /** The layout `main` uses is well formed. */
  lemma BenchLayoutWellFormed()
    ensures WellFormed(BenchLayout)
  {
    BenchPaths();
    BenchHeadersDistinct();
  }

  /** The detail header line of `main` has ten columns, the judged columns at
      their places. */
  lemma BenchHeaderLine()
    ensures var cols := SplitOn(HeaderText(DetailHeaders(BenchLayout)), {','});
      |cols| == 10 && cols[5] == "score" && cols[7] == "query" && cols[8] == "answer"
  {
    var h := DetailHeaders(BenchLayout);
    forall i | 0 <= i < |h| ensures Avoids(h[i], {','}) {
    }
    HeaderFields(h);
    assert h[3] == "score" && h[5] == "query" && h[6] == "answer";
  }

  // ---------------------------------------------------------------------------
  // Properties of the collection loop
  // ---------------------------------------------------------------------------

  /** A verdict the loop can use: it has a score and every judged column. */
  predicate Complete(l: Layout, verdict: map<string, Value>) {
    "score" in verdict && forall h :: h in l.judged ==> h in verdict
  }

  /** Every question from `i` on gets a verdict the loop can use. */
  predicate CompleteFrom(l: Layout, w: World, agent: Agent, doc: string, queries: seq<string>, i: nat) {
    forall k :: i <= k < |queries| ==> Complete(l, VerdictAt(w, agent, doc, queries, k))
  }

  /** Every question from `i` on gets a score numpy can average. */
  predicate NumericFrom(w: World, agent: Agent, doc: string, queries: seq<string>, i: nat) {
    forall k :: i <= k < |queries| ==>
      "score" in VerdictAt(w, agent, doc, queries, k) && Numeric(VerdictAt(w, agent, doc, queries, k)["score"])
  }

  /** The map written for a question with a score lacks no detail header
      exactly when the verdict is complete; `query` and `answer` are always
      there. */
  lemma DetailValueComplete(l: Layout, w: World, agent: Agent, doc: string, queries: seq<string>, i: nat)
    requires WellFormed(l)
    requires i < |queries| && "score" in VerdictAt(w, agent, doc, queries, i)
    ensures FirstMissing(DetailHeaders(l), DetailValue(w, agent, doc, queries, i).Keys).None? <==>
            Complete(l, VerdictAt(w, agent, doc, queries, i))
  {
    var v := VerdictAt(w, agent, doc, queries, i);
    var h := DetailHeaders(l);
    var n := |l.judged|;
    assert DetailValue(w, agent, doc, queries, i).Keys == v.Keys + {"query", "answer"};
    assert h[n] == "query" && h[n + 1] == "answer" && h[..n] == l.judged;
    assert h[n] !in h[..n] && h[n + 1] !in h[..n + 1];
    assert h[..n + 1] == l.judged + ["query"];
    if FirstMissing(h, DetailValue(w, agent, doc, queries, i).Keys).None? {
      forall x | x in l.judged ensures x in v {
        var j :| 0 <= j < n && l.judged[j] == x;
        assert h[j] == x;
      }
    }
  }

  /** A judged column is neither `query` nor `answer`, so the detail map holds
      the verdict's own value for it. */
  lemma JudgedKept(l: Layout, w: World, agent: Agent, doc: string, queries: seq<string>, i: nat, j: nat)
    requires WellFormed(l) && i < |queries| && j < |l.judged|
    ensures var v := VerdictAt(w, agent, doc, queries, i);
      var value := DetailValue(w, agent, doc, queries, i);
      l.judged[j] in v ==> l.judged[j] in value && value[l.judged[j]] == v[l.judged[j]]
  {
    var h := DetailHeaders(l);
    var n := |l.judged|;
    assert h[n] == "query" && h[n + 1] == "answer";
    assert h[n] !in h[..n] && h[n + 1] !in h[..n + 1];
    assert l.judged[j] == h[j] == h[..n][j] == h[..n + 1][j];
  }

  /** The detail row written for question `i` of a bench: the detail file name,
      the bench name, the judged columns, the query and the answer, each
      cleaned, and the time. */
  lemma DetailRowOf(l: Layout, w: World, t: nat, b: nat, agent: Agent, doc: string, queries: seq<string>,
                    i: nat, detail: FileState)
    requires WellFormed(l)
    requires i < |queries| && Complete(l, VerdictAt(w, agent, doc, queries, i))
    ensures var r := WriteDetail(l, w, t, b, agent, doc, queries, i, detail);
      var n := |l.judged|;
      var v := VerdictAt(w, agent, doc, queries, i);
      r.Done? && |r.file.lines| > 0 &&
      var row := r.file.lines[|r.file.lines| - 1];
      row.Row? && |row.cells| == n + 5 &&
      row.cells[0] == Str(FileName(l.detailPath)) && row.cells[1] == Str(agent.name) &&
      (forall j :: 0 <= j < n ==> row.cells[j + 2] == Clean(v[l.judged[j]], w.round3)) &&
      row.cells[n + 2] == Clean(Str(queries[i]), w.round3) &&
      row.cells[n + 3] == Clean(Str(AnswerAt(agent, doc, queries, i)), w.round3) &&
      row.cells[n + 4] == Str(w.clock(Tick(t, b, i)))
  {
    var value := DetailValue(w, agent, doc, queries, i);
    var now := w.clock(Tick(t, b, i));
    var h := DetailHeaders(l);
    var n := |l.judged|;
    DetailValueComplete(l, w, agent, doc, queries, i);
    WriteAnyRow(detail, l.detailPath, agent.name, h, value, now, w.round3);
    assert h[n] == "query" && h[n + 1] == "answer";
    forall j | 0 <= j < n ensures h[j] == l.judged[j] && value[h[j]] == VerdictAt(w, agent, doc, queries, i)[h[j]] {
      JudgedKept(l, w, agent, doc, queries, i, j);
    }
  }

  /** One step of the loop over questions: a complete verdict moves on to the
      next question with its score kept, any other verdict halts the loop. */
  lemma AskStep(l: Layout, w: World, t: nat, b: nat, agent: Agent, doc: string, queries: seq<string>,
                i: nat, detail: FileState, scores: seq<Value>)
    requires WellFormed(l) && i < |queries|
    ensures var v := VerdictAt(w, agent, doc, queries, i);
      if Complete(l, v) then
        WriteDetail(l, w, t, b, agent, doc, queries, i, detail).Done? &&
        AskFrom(l, w, t, b, agent, doc, queries, i, detail, scores) ==
        AskFrom(l, w, t, b, agent, doc, queries, i + 1, WriteDetail(l, w, t, b, agent, doc, queries, i, detail).file,
                scores + [v["score"]])
      else AskFrom(l, w, t, b, agent, doc, queries, i, detail, scores).AskHalted?
  {
    assert AskFrom(l, w, t, b, agent, doc, queries, i, detail, scores) ==
           Judged(l, w, t, b, agent, doc, queries, i, detail, scores);
    if "score" in VerdictAt(w, agent, doc, queries, i) {
      DetailValueComplete(l, w, agent, doc, queries, i);
    }
  }


  /** The scores of questions `i..`, in question order. */
  function ScoresFrom(l: Layout, w: World, agent: Agent, doc: string, queries: seq<string>, i: nat): seq<Value>
    requires i <= |queries| && CompleteFrom(l, w, agent, doc, queries, i)
    decreases |queries| - i
  {
    if i == |queries| then []
    else [VerdictAt(w, agent, doc, queries, i)["score"]] + ScoresFrom(l, w, agent, doc, queries, i + 1)
  }

  /** `ScoresFrom` holds one score per question, each at its question's place. */
  lemma {:induction false} ScoresFromAt(l: Layout, w: World, agent: Agent, doc: string, queries: seq<string>, i: nat)
    requires i <= |queries| && CompleteFrom(l, w, agent, doc, queries, i)
    ensures |ScoresFrom(l, w, agent, doc, queries, i)| == |queries| - i
    ensures forall k :: i <= k < |queries| ==>
      ScoresFrom(l, w, agent, doc, queries, i)[k - i] == VerdictAt(w, agent, doc, queries, k)["score"]
    decreases |queries| - i
  {
    var all := ScoresFrom(l, w, agent, doc, queries, i);
    if i < |queries| {
      ScoresFromStep(l, w, agent, doc, queries, i, []);
      var rest := ScoresFrom(l, w, agent, doc, queries, i + 1);
      assert all == [VerdictAt(w, agent, doc, queries, i)["score"]] + rest;
      ScoresFromAt(l, w, agent, doc, queries, i + 1);
      forall k | i < k < |queries|
        ensures all[k - i] == VerdictAt(w, agent, doc, queries, k)["score"]
      {
        assert all[k - i] == rest[k - (i + 1)];
      }
    } else {
      assert all == [];
    }
  }

  /** When every verdict is complete, the loop over questions `i..` finishes
      and adds the questions' scores in question order. */
  lemma {:induction false} AskFromScores(l: Layout, w: World, t: nat, b: nat, agent: Agent, doc: string,
                                         queries: seq<string>, i: nat, detail: FileState,
                                         scores: seq<Value>)
    requires WellFormed(l) && i <= |queries| && CompleteFrom(l, w, agent, doc, queries, i)
    ensures var r := AskFrom(l, w, t, b, agent, doc, queries, i, detail, scores);
      r.Asked? && r.scores == scores + ScoresFrom(l, w, agent, doc, queries, i)
    decreases |queries| - i
  {
    if i < |queries| {
      var v := VerdictAt(w, agent, doc, queries, i);
      ScoresFromStep(l, w, agent, doc, queries, i, scores);
      var f := AskNext(l, w, t, b, agent, doc, queries, i, detail, scores);
      AskFromScores(l, w, t, b, agent, doc, queries, i + 1, f, scores + [v["score"]]);
      ghost var r := AskFrom(l, w, t, b, agent, doc, queries, i + 1, f, scores + [v["score"]]);
      assert AskFrom(l, w, t, b, agent, doc, queries, i, detail, scores) == r;
      assert r.scores == scores + ScoresFrom(l, w, agent, doc, queries, i);
    } else {
      assert AskFrom(l, w, t, b, agent, doc, queries, i, detail, scores) == Asked(detail, scores);
      assert scores + ScoresFrom(l, w, agent, doc, queries, i) == scores;
    }
  }


  /** Keeping question `i`'s score and then the scores of `i + 1..` keeps the
      scores of `i..`. */
  lemma ScoresFromStep(l: Layout, w: World, agent: Agent, doc: string, queries: seq<string>, i: nat,
                       scores: seq<Value>)
    requires i < |queries| && CompleteFrom(l, w, agent, doc, queries, i)
    ensures CompleteFrom(l, w, agent, doc, queries, i + 1)
    ensures scores + [VerdictAt(w, agent, doc, queries, i)["score"]] + ScoresFrom(l, w, agent, doc, queries, i + 1)
         == scores + ScoresFrom(l, w, agent, doc, queries, i)
  {
    var v := VerdictAt(w, agent, doc, queries, i)["score"];
    assert ScoresFrom(l, w, agent, doc, queries, i) == [v] + ScoresFrom(l, w, agent, doc, queries, i + 1);
    assert scores + [v] + ScoresFrom(l, w, agent, doc, queries, i + 1) ==
           scores + ([v] + ScoresFrom(l, w, agent, doc, queries, i + 1));
  }

  /** When every verdict is complete, the loop over questions `i..` adds one
      detail row per question, as wide as the detail header, after the lines
      the file had. */
  lemma {:induction false} AskFromRows(l: Layout, w: World, t: nat, b: nat, agent: Agent, doc: string,
                                       queries: seq<string>, i: nat, detail: FileState,
                                       scores: seq<Value>)
    requires WellFormed(l) && i <= |queries| && CompleteFrom(l, w, agent, doc, queries, i)
    requires detail.Present? || i < |queries|
    ensures var r := AskFrom(l, w, t, b, agent, doc, queries, i, detail, scores);
      var before := LinesBefore(detail, HeaderText(DetailHeaders(l)));
      r.detail.Present? && |r.detail.lines| == |before| + |queries| - i &&
      r.detail.lines[..|before|] == before && RowsFrom(r.detail.lines, |before|, |l.judged| + 5)
    decreases |queries| - i
  {
    if i < |queries| {
      var before := LinesBefore(detail, HeaderText(DetailHeaders(l)));
      var v := VerdictAt(w, agent, doc, queries, i);
      var f := AskNext(l, w, t, b, agent, doc, queries, i, detail, scores);
      AskFromRows(l, w, t, b, agent, doc, queries, i + 1, f, scores + [v["score"]]);
      var r := AskFrom(l, w, t, b, agent, doc, queries, i + 1, f, scores + [v["score"]]);
      RowsChain(before, f.lines, r.detail.lines, |l.judged| + 5);
    } else {
      assert AskFrom(l, w, t, b, agent, doc, queries, i, detail, scores) == Asked(detail, scores);
      assert detail.lines[..|detail.lines|] == detail.lines;
    }
  }

  /** A complete verdict for question `i`: the loop goes on with the detail
      file that has gained one row as wide as the detail header. */
  lemma AskNext(l: Layout, w: World, t: nat, b: nat, agent: Agent, doc: string, queries: seq<string>,
                i: nat, detail: FileState, scores: seq<Value>) returns (f: FileState)
    requires WellFormed(l) && i < |queries| && CompleteFrom(l, w, agent, doc, queries, i)
    ensures AskFrom(l, w, t, b, agent, doc, queries, i, detail, scores) ==
            AskFrom(l, w, t, b, agent, doc, queries, i + 1, f,
                    scores + [VerdictAt(w, agent, doc, queries, i)["score"]])
    ensures var before := LinesBefore(detail, HeaderText(DetailHeaders(l)));
      f.Present? && |f.lines| == |before| + 1 && f.lines[..|before|] == before &&
      RowsFrom(f.lines, |before|, |l.judged| + 5)
  {
    assert Complete(l, VerdictAt(w, agent, doc, queries, i));
    f := WriteDetail(l, w, t, b, agent, doc, queries, i, detail).file;
    AskStep(l, w, t, b, agent, doc, queries, i, detail, scores);
    DetailValueComplete(l, w, agent, doc, queries, i);
    WriteAnyOneRow(detail, l.detailPath, agent.name, DetailHeaders(l), DetailValue(w, agent, doc, queries, i),
                   w.clock(Tick(t, b, i)), w.round3);
  }


  /** A file that gained some rows and then some more rows still starts with
      its old lines, and every line after them is a row of the same width. */
  lemma RowsChain(before: seq<Line>, mid: seq<Line>, after: seq<Line>, width: nat)
    requires |mid| >= |before| && mid[..|before|] == before && RowsFrom(mid, |before|, width)
    requires |after| >= |mid| && after[..|mid|] == mid && RowsFrom(after, |mid|, width)
    ensures after[..|before|] == before && RowsFrom(after, |before|, width)
  {
    assert after[..|before|] == after[..|mid|][..|before|];
    forall k | |before| <= k < |mid| ensures after[k] == mid[k] {
      assert after[k] == after[..|mid|][k];
    }
  }

  /** The loop over questions `i..` halts exactly when some verdict from `i` on
      is incomplete. */
  lemma {:induction false} AskFromHalts(l: Layout, w: World, t: nat, b: nat, agent: Agent, doc: string,
                                        queries: seq<string>, i: nat, detail: FileState,
                                        scores: seq<Value>)
    requires WellFormed(l) && i <= |queries|
    ensures AskFrom(l, w, t, b, agent, doc, queries, i, detail, scores).AskHalted? <==>
            !CompleteFrom(l, w, agent, doc, queries, i)
    decreases |queries| - i
  {
    if i < |queries| {
      var v := VerdictAt(w, agent, doc, queries, i);
      AskStep(l, w, t, b, agent, doc, queries, i, detail, scores);
      if Complete(l, v) {
        AskFromHalts(l, w, t, b, agent, doc, queries, i + 1,
                     WriteDetail(l, w, t, b, agent, doc, queries, i, detail).file, scores + [v["score"]]);
        assert CompleteFrom(l, w, agent, doc, queries, i) <==> CompleteFrom(l, w, agent, doc, queries, i + 1);
      } else {
        assert !Complete(l, VerdictAt(w, agent, doc, queries, i));
      }
    }
  }

  // ---------------------------------------------------------------------------
  // Properties of the benches and of `main`
  // ---------------------------------------------------------------------------

  /** The summary row of a bench whose verdicts were all complete. */
  function SummaryRow(l: Layout, w: World, t: nat, b: nat, agent: Agent, doc: string, queries: seq<string>): Line
    requires CompleteFrom(l, w, agent, doc, queries, 0)
  {
    var s := w.summarize(ScoresFrom(l, w, agent, doc, queries, 0));
    Row([Str(FileName(l.scorePath)), Str(agent.name), s.mean, s.median, s.std, s.min, s.max,
         Str(w.clock(Tick(t, b, |queries|)))])
  }

  /** A bench whose verdicts are all complete, with numeric scores, writes one
      detail row per question, then one summary row holding the statistics of
      its scores in question order. */
  lemma RunBenchRows(l: Layout, w: World, t: nat, b: nat, agent: Agent, doc: string, queries: seq<string>,
                     files: Files)
    requires WellFormed(l) && |queries| > 0
    requires CompleteFrom(l, w, agent, doc, queries, 0) && NumericFrom(w, agent, doc, queries, 0)
    ensures var r := RunBench(l, w, t, b, agent, doc, queries, files);
      var before := LinesBefore(files.detail, HeaderText(DetailHeaders(l)));
      r.Going? && r.files.detail.Present? &&
      |r.files.detail.lines| == |before| + |queries| && r.files.detail.lines[..|before|] == before &&
      RowsFrom(r.files.detail.lines, |before|, |l.judged| + 5) &&
      r.files.summary == Present(LinesBefore(files.summary, ScoreHeader) +
                                 [SummaryRow(l, w, t, b, agent, doc, queries)])
  {
    var a := AskFrom(l, w, t, b, agent, doc, queries, 0, files.detail, []);
    AskFromScores(l, w, t, b, agent, doc, queries, 0, files.detail, []);
    AskFromRows(l, w, t, b, agent, doc, queries, 0, files.detail, []);
    var scores := ScoresFrom(l, w, agent, doc, queries, 0);
    assert a == Asked(a.detail, scores) by {
      assert [] + scores == scores;
    }
    ScoresNumeric(l, w, agent, doc, queries);
    var now := w.clock(Tick(t, b, |queries|));
    var s := w.summarize(scores);
    assert WriteScore(files.summary, l.scorePath, agent.name, scores, w.summarize, now) ==
           Done(Present(LinesBefore(files.summary, ScoreHeader) + [SummaryRow(l, w, t, b, agent, doc, queries)]), ());
    assert RunBench(l, w, t, b, agent, doc, queries, files) ==
           Going(Files(a.detail, Present(LinesBefore(files.summary, ScoreHeader) +
                                         [SummaryRow(l, w, t, b, agent, doc, queries)])));
  }

  /** Scores taken from verdicts whose scores are numbers are numbers. */
  lemma ScoresNumeric(l: Layout, w: World, agent: Agent, doc: string, queries: seq<string>)
    requires CompleteFrom(l, w, agent, doc, queries, 0) && NumericFrom(w, agent, doc, queries, 0)
    ensures AllNumeric(ScoresFrom(l, w, agent, doc, queries, 0))
  {
    var scores := ScoresFrom(l, w, agent, doc, queries, 0);
    ScoresFromAt(l, w, agent, doc, queries, 0);
    forall k | 0 <= k < |scores| ensures Numeric(scores[k]) {
      assert scores[k] == VerdictAt(w, agent, doc, queries, k)["score"];
    }
  }

  /** A bench halts the driver exactly when it has no questions (numpy's
      statistics reject an empty list), some verdict is incomplete, or some
      score is not a number (numpy's statistics reject it). */
  lemma RunBenchHalts(l: Layout, w: World, t: nat, b: nat, agent: Agent, doc: string, queries: seq<string>,
                      files: Files)
    requires WellFormed(l)
    ensures RunBench(l, w, t, b, agent, doc, queries, files).Halted? <==>
            |queries| == 0 || !CompleteFrom(l, w, agent, doc, queries, 0) || !NumericFrom(w, agent, doc, queries, 0)
  {
    AskFromHalts(l, w, t, b, agent, doc, queries, 0, files.detail, []);
    if |queries| > 0 && CompleteFrom(l, w, agent, doc, queries, 0) {
      if NumericFrom(w, agent, doc, queries, 0) {
        RunBenchRows(l, w, t, b, agent, doc, queries, files);
      } else {
        NonNumericHalts(l, w, t, b, agent, doc, queries, files);
      }
    }
  }

  /** Complete verdicts with a score that is not a number: the questions all
      run, and then `write_score` stops the driver. */
  lemma NonNumericHalts(l: Layout, w: World, t: nat, b: nat, agent: Agent, doc: string, queries: seq<string>,
                        files: Files)
    requires WellFormed(l) && |queries| > 0
    requires CompleteFrom(l, w, agent, doc, queries, 0) && !NumericFrom(w, agent, doc, queries, 0)
    ensures RunBench(l, w, t, b, agent, doc, queries, files).Halted?
  {
    var a := AskFrom(l, w, t, b, agent, doc, queries, 0, files.detail, []);
    AskFromScores(l, w, t, b, agent, doc, queries, 0, files.detail, []);
    var scores := ScoresFrom(l, w, agent, doc, queries, 0);
    assert a == Asked(a.detail, scores) by {
      assert [] + scores == scores;
    }
    assert !AllNumeric(scores) by {
      ScoresFromAt(l, w, agent, doc, queries, 0);
      var k :| 0 <= k < |queries| && !("score" in VerdictAt(w, agent, doc, queries, k) &&
                                       Numeric(VerdictAt(w, agent, doc, queries, k)["score"]));
      assert Complete(l, VerdictAt(w, agent, doc, queries, k));
      assert scores[k] == VerdictAt(w, agent, doc, queries, k)["score"];
    }
    assert WriteScore(files.summary, l.scorePath, agent.name, scores, w.summarize,
                      w.clock(Tick(t, b, |queries|))).Stopped?;
  }

  /** The judge always returns a complete verdict with a numeric score. */
  ghost predicate AlwaysScored(l: Layout, w: World) {
    forall p :: Complete(l, w.judge(p)) && Numeric(w.judge(p)["score"])
  }

  /** Both files exist, or a bench is still to come that creates them. */
  predicate Ready(files: Files, more: bool) {
    (files.detail.Present? && files.summary.Present?) || more
  }

  /** What the driver adds to the two files: `d` detail rows as wide as the
      detail header, and `s` summary rows of eight cells, after the lines the
      files had. */
  predicate Added(l: Layout, files: Files, r: Files, d: int, s: int) {
    var bd := LinesBefore(files.detail, HeaderText(DetailHeaders(l)));
    var bs := LinesBefore(files.summary, ScoreHeader);
    0 <= d && 0 <= s && r.detail.Present? && r.summary.Present? &&
    |r.detail.lines| == |bd| + d && r.detail.lines[..|bd|] == bd && RowsFrom(r.detail.lines, |bd|, |l.judged| + 5) &&
    |r.summary.lines| == |bs| + s && r.summary.lines[..|bs|] == bs && RowsFrom(r.summary.lines, |bs|, 8)
  }

  /** Adding rows and then more rows adds both counts. */
  lemma AddedChain(l: Layout, files: Files, mid: Files, r: Files, d1: int, s1: int, d2: int, s2: int)
    requires 0 <= d1 && 0 <= s1 && 0 <= d2 && 0 <= s2
    requires Added(l, files, mid, d1, s1) && Added(l, mid, r, d2, s2)
    ensures Added(l, files, r, d1 + d2, s1 + s2)
  {
    RowsChain(LinesBefore(files.detail, HeaderText(DetailHeaders(l))), mid.detail.lines, r.detail.lines,
              |l.judged| + 5);
    RowsChain(LinesBefore(files.summary, ScoreHeader), mid.summary.lines, r.summary.lines, 8);
  }

  /** One bench on a judge that always scores adds one detail row per
      question and one summary row. */
  lemma RunBenchAdds(l: Layout, w: World, t: nat, b: nat, agent: Agent, doc: string, queries: seq<string>,
                     files: Files)
    requires WellFormed(l) && |queries| > 0 && AlwaysScored(l, w)
    ensures var r := RunBench(l, w, t, b, agent, doc, queries, files);
      r.Going? && Added(l, files, r.files, |queries|, 1)
  {
    RunBenchRows(l, w, t, b, agent, doc, queries, files);
  }

  /**
   * `n` times `m`, as `n` additions of `m`. The driver lemmas below count
   * rows bench by bench and target by target; writing the count as repeated
   * addition keeps each induction step in linear arithmetic, where the
   * solver is reliable, and `TimesIsProduct` connects it to `*` once.
   */
  function Times(n: nat, m: nat): nat {
    if n == 0 then 0 else m + Times(n - 1, m)
  }

  /** `Times` is multiplication. */
  lemma {:induction false} TimesIsProduct(n: nat, m: nat)
    ensures Times(n, m) == n * m
  {
    if n > 0 {
      TimesIsProduct(n - 1, m);
    }
  }

  /** Benches `b..` on a judge that always scores: one detail row per bench
      and question, one summary row per bench. */
  lemma {:induction false} RunBenchesAdds(l: Layout, w: World, t: nat, agents: seq<Agent>, b: nat, doc: string,
                                          queries: seq<string>, files: Files)
    requires WellFormed(l) && |queries| > 0 && AlwaysScored(l, w)
    requires b <= |agents| && Ready(files, b < |agents|)
    ensures var r := RunBenches(l, w, t, agents, b, doc, queries, files);
      r.Going? && Added(l, files, r.files, Times(|agents| - b, |queries|), |agents| - b)
    decreases |agents| - b
  {
    if b < |agents| {
      RunBenchAdds(l, w, t, b, agents[b], doc, queries, files);
      var mid := RunBench(l, w, t, b, agents[b], doc, queries, files).files;
      RunBenchesAdds(l, w, t, agents, b + 1, doc, queries, mid);
      var r := RunBenches(l, w, t, agents, b + 1, doc, queries, mid);
      AddedChain(l, files, mid, r.files, |queries|, 1, Times(|agents| - (b + 1), |queries|), |agents| - (b + 1));
    } else {
      assert LinesBefore(files.detail, HeaderText(DetailHeaders(l))) == files.detail.lines;
    }
  }

  /** Target documents `t..` on a judge that always scores: one detail row
      per document, bench and question, one summary row per document and
      bench. */
  lemma {:induction false} RunAllAdds(l: Layout, w: World, targets: seq<string>, t: nat, agents: seq<Agent>,
                                      queries: seq<string>, files: Files)
    requires WellFormed(l) && |queries| > 0 && |agents| > 0 && AlwaysScored(l, w)
    requires t <= |targets| && Ready(files, t < |targets|)
    ensures var r := RunAll(l, w, targets, t, agents, queries, files);
      r.Going? && Added(l, files, r.files, Times(|targets| - t, Times(|agents|, |queries|)),
                        Times(|targets| - t, |agents|))
    decreases |targets| - t
  {
    if t < |targets| {
      RunBenchesAdds(l, w, t, agents, 0, DocPath(targets[t]), queries, files);
      var mid := RunBenches(l, w, t, agents, 0, DocPath(targets[t]), queries, files).files;
      RunAllAdds(l, w, targets, t + 1, agents, queries, mid);
      var r := RunAll(l, w, targets, t + 1, agents, queries, mid);
      var n := |targets| - (t + 1);
      AddedChain(l, files, mid, r.files, Times(|agents|, |queries|), |agents|,
                 Times(n, Times(|agents|, |queries|)), Times(n, |agents|));
    } else {
      assert LinesBefore(files.detail, HeaderText(DetailHeaders(l))) == files.detail.lines;
    }
  }

  /** The files the driver leaves behind from a clean directory after `a`
      benches on `q` questions each: a header line, then a row per bench and
      question as wide as the detail header in the detail file, and a header
      line, then a row of eight cells per bench in the summary file. */
  predicate FromScratch(l: Layout, r: Files, a: nat, q: nat) {
    r.detail.Present? && r.summary.Present? &&
    |r.detail.lines| == 1 + q * a &&
    r.detail.lines[0] == HeaderLine(HeaderText(DetailHeaders(l))) &&
    RowsFrom(r.detail.lines, 1, |l.judged| + 5) &&
    |r.summary.lines| == 1 + a &&
    r.summary.lines[0] == HeaderLine(ScoreHeader) &&
    RowsFrom(r.summary.lines, 1, 8)
  }

  /** What `Added` says about two files that did not exist, after one target
      document. */
  lemma AddedFromScratch(l: Layout, files: Files, r: Files, a: nat, q: nat, d: int, s: int)
    requires files == Files(Absent, Absent)
    requires d == Times(1, Times(a, q)) && s == Times(1, a)
    requires Added(l, files, r, d, s)
    ensures FromScratch(l, r, a, q)
  {
    TimesIsProduct(a, q);
    assert Times(1, Times(a, q)) == Times(a, q) && Times(1, a) == a;
    assert r.detail.lines[0] == r.detail.lines[..1][0];
    assert r.summary.lines[0] == r.summary.lines[..1][0];
  }

  /** One target document from a clean directory, with a judge that always
      scores: each file is its header line and then the rows `Added`
      counts. */
  lemma RunFromScratch(l: Layout, w: World, targets: seq<string>, agents: seq<Agent>, queries: seq<string>)
    requires WellFormed(l) && |targets| == 1 && |queries| > 0
    requires |agents| > 0 && AlwaysScored(l, w)
    ensures var r := RunAll(l, w, targets, 0, agents, queries, Files(Absent, Absent));
      r.Going? && FromScratch(l, r.files, |agents|, |queries|)
  {
    var files := Files(Absent, Absent);
    RunAllAdds(l, w, targets, 0, agents, queries, files);
    var r := RunAll(l, w, targets, 0, agents, queries, files);
    AddedFromScratch(l, files, r.files, |agents|, |queries|, Times(|targets| - 0, Times(|agents|, |queries|)),
                     Times(|targets| - 0, |agents|));
  }

  /** `main` from a clean directory, with a judge that always scores: the
      detail file is its header line and one row of ten cells per bench and
      question, the summary file its header line and one row of eight cells
      per bench: 43 and 4 lines for the three benches and fourteen questions. */
  lemma MainFromScratch(w: World, agentOf: BenchKind -> Agent)
    requires AlwaysScored(BenchLayout, w)
    ensures var r := RunAll(BenchLayout, w, TargetFiles, 0, BenchAgents(agentOf), Questions, Files(Absent, Absent));
      r.Going? && FromScratch(BenchLayout, r.files, 3, 14) && |BenchLayout.judged| + 5 == 10 &&
      |r.files.detail.lines| == 43 && |r.files.summary.lines| == 4
  {
    BenchLayoutWellFormed();
    QuestionsAsWritten();
    RunFromScratch(BenchLayout, w, TargetFiles, BenchAgents(agentOf), Questions);
  }
}
