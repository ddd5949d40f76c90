# Benchmark harness for two document assistants — Dafny model

The repository benchmarks two question-answering assistants over a PDF. The
first is a hosted assistant that gets the file directly. The second is a
retrieval-augmented assistant that cuts the document into sections and
sentences. A judge model scores every answer, and the scores are logged to
CSV files. Most of the program calls external services. This project models
the local logic around those calls and proves properties of it:

- **Sections** (`sections.dfy`) covers three routines of the retrieval
  assistant:
  - the delimiter-driven section splitter of `split_by_openai`, both as a
    function and as the source's loop with an invariant;
  - the element filter of `parse_file`;
  - the sentence split on `。`, `.` and line breaks.
- **Citations** (`citations.dfy`) covers the hosted assistant's removal of
  source markers, `re.sub(r"【.*】", "", text)`. It gives two definitions:
  - a line-wise model (`StripCitations`);
  - an independent left-to-right greedy regular-expression reference
    (`ReSub`).

  The two are proved equal.
- **CsvLog** (`csvlog.dfy`) covers `write_any` and `write_score` over an
  explicit file state:
  - the header line is written only when the file is absent;
  - the `file` column comes from the path;
  - line breaks in string cells are sanitised;
  - the row width;
  - the `KeyError`, `makedirs`, empty-scores and non-numeric-score error
    paths.
- **Bench** (`bench.dfy`) covers the judge prompt substitution, the question
  list exactly as the Python literal evaluates (14 entries), and the driver
  `main`:
  - every bench answers every question;
  - every answer is judged;
  - its score is kept;
  - its detail row is written;
  - one summary row is written per bench.
- **Text** (`text.dfy`) defines the Python string primitives the core relies
  on: `str.strip`, `find`, `split(d, 1)`, `replace`, `join`, `rfind`, and
  `re.split` on a character class.
- **Wrappers** (`wrappers.dfy`) defines `Option` and `Result`.

The external pieces are parameters of the model:
- the benches' answers, given as a function of the document, the earlier
  questions and the question;
- the judge's verdict, given as a function of the user prompt;
- the clock, read once per row;
- float rounding;
- numpy's statistics.

The driver is proved for any layout of paths and judged columns. The layout
`main` uses is then shown to be well formed.

An empty delimiter in the splitter makes Python's `str.split` raise
`ValueError`. The model returns a `Failure(EmptySeparator)` for it instead of
excluding it by a precondition, so the rest of the loop is not run.

## Model

| member | source | states |
|---|---|---|
| Text.Strip | app/agents/origin_assistant.py:88-89 | `strip()` yields the middle of the text after the leading and trailing whitespace are cut: it has no whitespace at either end, and it is empty exactly when the text is all whitespace |
| Text.StripStripped | app/agents/origin_assistant.py:89 | a string with no whitespace at either end is its own strip, so stripping is idempotent |
| Text.Find | app/agents/origin_assistant.py:87 | `find` returns the first index where the delimiter occurs, and nothing exactly when it occurs nowhere |
| Text.SplitOnce | app/agents/origin_assistant.py:87 | `split(d, 1)` gives one piece exactly when `d` is absent, otherwise the text before the first occurrence and the text after it, which rebuild the input around `d` |
| Text.ReplaceAllNoMatch | app/bench.py:57 | `replace` leaves text in which the pattern does not occur unchanged |
| Text.ReplaceAllAppend | app/bench.py:57 | `replace` distributes over a concatenation when no occurrence straddles the boundary |
| Text.ReplaceCharPointwise | app/appcsv/__init__.py:22 | replacing one character by another keeps the length and changes exactly the positions that held that character |
| Text.SplitOn | app/agents/origin_assistant.py:117 | splitting on a character class gives one more piece than there are separator characters, and no piece contains a separator |
| Text.SplitOnRejoins | app/agents/origin_assistant.py:117 | the pieces interleaved with the separators found rebuild the input, so splitting loses nothing |
| Text.InterleaveSplits | app/agents/origin_assistant.py:117 | conversely, separator-free pieces interleaved with separators split back into exactly those pieces |
| Text.JoinIsInterleave | app/appcsv/__init__.py:14 | `','.join(parts)` is the parts interleaved with a repeated comma |
| Text.JoinSplitRoundTrip | app/appcsv/__init__.py:13-14 | joining comma-free column names and splitting the line again gives back exactly those names |
| Text.IndexOf | app/agents/openai_assistant.py:53-54 | the first index of a character: it holds the character, no earlier index does, and nothing is returned exactly when the character is absent |
| Text.LastIndexOf | app/appcsv/__init__.py:16 | the last index of a character: it holds the character, no later index does, and nothing is returned exactly when the character is absent |
| Sections.Emit | app/agents/origin_assistant.py:88-89 | the found-prefix branch appends at most one entry, exactly when the text is not blank, and that entry is the stripped, non-empty text |
| Sections.Step | app/agents/origin_assistant.py:86-93 | one delimiter turns the working text into one of its suffixes, keeps the earlier output, and adds at most two sections |
| Sections.StepFound | app/agents/origin_assistant.py:87-91 | for a delimiter that occurs, the new working text is the suffix of the old one starting at its first occurrence; it starts with the delimiter, the unstripped prefix plus it rebuilds the old text, and the stripped prefix is emitted when not blank |
| Sections.StepMissing | app/agents/origin_assistant.py:87-93 | for a delimiter that does not occur, the working text is unchanged and the whole unstripped working text is appended, preceded by its stripped copy when that is not blank |
| Sections.Run | app/agents/origin_assistant.py:85-94 | the loop fails exactly when some delimiter is empty; otherwise the working text stays a suffix of the start, earlier output is kept, and each delimiter adds at most two sections |
| Sections.SplitByDelimiters | app/agents/origin_assistant.py:85-94 | `split_by_openai` after the model call fails exactly when some delimiter is empty, returns at most two sections per delimiter, and returns nothing for no delimiters |
| Sections.Turn | app/agents/origin_assistant.py:87-93 | one turn of the loop written as the source does, with `find` and slices, agrees with the functional step, and the new working text is a suffix of the old |
| Sections.SplitSections | app/agents/origin_assistant.py:85-94 | the imperative loop fails exactly where the functional splitter fails and otherwise returns the same sections; its final working text is a suffix of the content and is the one the functional splitter ends with |
| Sections.FoundTailDropped | app/agents/origin_assistant.py:85-94 | when every delimiter is found, the emitted sections plus the final working text fit within the starting text; the final working text is a suffix of the starting text that starts with the last delimiter, and every emitted section occurs in the starting text wholly before that suffix, so no text from the last delimiter on is ever returned |
| Sections.FoundStepBudget | app/agents/origin_assistant.py:87-91 | one found delimiter emits no more characters than the working text loses, and the new working text starts with the delimiter |
| Sections.CollectSnoc | app/agents/origin_assistant.py:52-59 | the first pass keeps element order: its result for `els + [el]` is its result for `els` followed by what `el` adds on its own (skipped: nothing; table: its stripped HTML; other: its stripped text), and the first failure wins |
| Sections.CollectFails | app/agents/origin_assistant.py:56-57 | the first pass fails exactly when a kept table element has no HTML rendering |
| Sections.DropEmptyAppend | app/agents/origin_assistant.py:60 | the second pass keeps order: filtering a concatenation is concatenating the two filtered parts |
| Sections.DropEmptyCounts | app/agents/origin_assistant.py:60 | the second pass drops exactly the empty strings: every non-empty string occurs in the result as often as in the input, and no empty string is left |
| Sections.ParseFile | app/agents/origin_assistant.py:52-61 | `parse_file` returns stripped, non-empty strings, no more than there are elements, and fails exactly when some table element lacks its HTML |
| Sections.ParseFileSnoc | app/agents/origin_assistant.py:52-61 | `parse_file` keeps input order: its result for `els + [el]` is its result for `els` followed by what `el` alone contributes (skipped: nothing; table: stripped HTML; other: stripped text; empty: nothing) |
| Sections.Sentences | app/agents/origin_assistant.py:117 | the sentence split gives one more piece than there are `。`, `.` and line breaks, and no piece contains one |
| Sections.SentencesRejoin | app/agents/origin_assistant.py:117 | the pieces rejoined with the cut characters give back the section |
| Citations.StripLine | app/agents/openai_assistant.py:54 | stripping one line never makes it longer |
| Citations.StripLineSpec | app/agents/openai_assistant.py:53-54 | on a line whose first `【` precedes its last `】`, exactly the span from that `【` through that `】` is removed; otherwise the line is unchanged |
| Citations.StripLineKeepsChars | app/agents/openai_assistant.py:54 | stripping a line only removes characters (multiset inclusion) |
| Citations.PairShortens | app/agents/openai_assistant.py:53-54 | any `【` followed later on the line by a `】` makes the line shorter |
| Citations.StripCitations | app/agents/openai_assistant.py:54 | the result is never longer than the answer |
| Citations.StripCitationsKeepsLines | app/agents/openai_assistant.py:53-54 | no line break is ever removed, so the line count is preserved, and only characters of the input remain |
| Citations.NoMarkerUnchanged | app/agents/openai_assistant.py:53-54 | an answer containing no `【` is returned unchanged |
| Citations.StripLineIdempotent | app/agents/openai_assistant.py:53-54 | stripping a line twice is stripping it once |
| Citations.StripCitationsIdempotent | app/agents/openai_assistant.py:53-54 | removing the markers twice is removing them once |
| Citations.GreedyMatchSpec | app/agents/openai_assistant.py:53 | `【.*】` anchored at a position matches the longest span that ends in `】` and contains no line break, and there is no match when no such span exists |
| Citations.StripCitationsIsReSub | app/agents/openai_assistant.py:53-54 | the line-wise model is exactly the left-to-right greedy regular-expression substitution |
| CsvLog.HeaderFields | app/appcsv/__init__.py:13-14 | the detail header line splits back into `file`, `bench`, the given headers in order, and `created_at`: `len(headers) + 3` columns |
| CsvLog.FileNameOf | app/appcsv/__init__.py:16 | the `file` column of `dir/stem.ext` is `stem` |
| CsvLog.StemKept | app/appcsv/__init__.py:16 | a base name without a dot, or whose last dot has only dots before it, keeps its whole name |
| CsvLog.Clean | app/appcsv/__init__.py:21-24 | a string cell keeps its length, with every line break turned into `_` and every other character kept; a float is rounded; other values pass through |
| CsvLog.CleanStrSettled | app/appcsv/__init__.py:21-22 | a cleaned string holds no line break, and cleaning it again changes nothing |
| CsvLog.FillRow | app/appcsv/__init__.py:20-25 | the row loop fails with `KeyError` on the first header missing from the map; otherwise there is one cell per header, a header's first cell is its original value cleaned, the map ends up holding each header's last cell, and other keys keep their values |
| CsvLog.WriteAny | app/appcsv/__init__.py:8-27 | `write_any` fails exactly when the directory cannot be made or a header is missing; on success it adds exactly one line after the lines the file had, or after a new header line when the file was absent |
| CsvLog.WriteAnyRow | app/appcsv/__init__.py:19-26 | the appended row is as wide as the header: file name, bench name, each header's value cleaned in order, then the time |
| CsvLog.WriteAnyValue | app/appcsv/__init__.py:20-25 | the caller's map keeps its keys; only entries named by a header are rewritten, each with its cleaned value |
| CsvLog.WriteAnyStopped | app/appcsv/__init__.py:10-21 | without a directory nothing is written; a missing header is reported once the header line is in place |
| ScoreFile.ScoreHeaderColumns | app/appcsv/__init__.py:35 | the summary header splits into its eight column names |
| CsvLog.WriteScore | app/appcsv/__init__.py:30-42 | `write_score` adds its header only to an absent file and then one row of eight cells (file name, bench, the five statistics, time); it fails exactly when the directory cannot be made, there are no scores, or some score is not a number (a string or `None`, which numpy cannot average); after either score error the header line is in place and no row is added |
| CsvLog.WriteAnyOneRow | app/appcsv/__init__.py:10-27 | one `write_any` with a complete map, to a file that exists or can be created, adds one row of the header's width after the lines it had |
| CsvLog.WriteAnyEachRows | app/appcsv/__init__.py:10-17 | repeated `write_any` calls on one path leave one header line, or the old lines, followed by one row per call, each as wide as the header |
| Bench.QuestionFilled | app/bench.py:41-44 | substituting the question into the template puts it in its slot and changes nothing else |
| Bench.UserPromptShape | app/bench.py:57 | the prompt is the question, with any `{answer}` inside it replaced by the answer, followed by the answer; a `{question}` inside the answer stays literal |
| Bench.QuestionsAsWritten | app/bench.py:9-25 | the list has 14 entries, because the second entry is lines 11 and 12 run together |
| Bench.BenchHeadersDistinct | app/bench.py:95-103 | the seven detail headers name each column once |
| Bench.BenchLayoutWellFormed | app/bench.py:95-106 | the paths and headers `main` uses form a well-formed layout |
| Bench.DetailValueComplete | app/bench.py:93-104 | the map written for a scored question lacks no header exactly when the verdict has every judged column |
| Bench.JudgedKept | app/bench.py:93-94 | adding `query` and `answer` leaves the verdict's judged columns as they were |
| Bench.DetailRowOf | app/bench.py:93-104 | the detail row of a question holds the file name, the bench name, the judged columns, the query and the answer, each cleaned, and the time |
| Bench.AskStep | app/bench.py:85-104 | a complete verdict moves the loop on to the next question with its score appended and its row written; any other verdict halts it |
| Bench.ScoresFromAt | app/bench.py:88 | there is one score per question, each at its question's position |
| Bench.AskFromScores | app/bench.py:83-88 | with complete verdicts the loop finishes and appends the questions' scores in question order |
| Bench.AskNext | app/bench.py:85-104 | a complete verdict continues the loop with a detail file that has gained one row of the header's width |
| Bench.AskFromRows | app/bench.py:85-104 | with complete verdicts the loop writes one detail row per question, each as wide as the header, after the lines the file had |
| Bench.AskFromHalts | app/bench.py:85-104 | the loop over the questions halts exactly when some verdict is incomplete |
| Bench.RunBenchRows | app/bench.py:82-106 | a bench whose verdicts are complete and whose scores are numbers writes one detail row per question, then exactly one summary row with the statistics of its scores in question order |
| Bench.RunBenchHalts | app/bench.py:82-106 | a bench halts the driver exactly when there are no questions, some verdict is incomplete, or some score is not a number |
| Bench.NonNumericHalts | app/bench.py:82-106 | with complete verdicts of which one has a score that is not a number, every question is asked and then the summary write stops the driver |
| Bench.RunBenchAdds | app/bench.py:82-106 | with a judge that always returns a complete verdict with a numeric score, one bench adds one detail row per question and one summary row |
| Bench.RunBenchesAdds | app/bench.py:82-106 | the benches on one document add one detail row per bench and question, and one summary row per bench |
| Bench.RunAllAdds | app/bench.py:77-106 | all target documents add one detail row per document, bench and question, and one summary row per document and bench |
| Bench.RunFromScratch | app/bench.py:75-106 | from a clean directory with one target document, each file holds its header line followed by those rows |
| Bench.MainFromScratch | app/bench.py:48-106 | `main` from a clean directory, with a judge that always scores, leaves a detail file of one header and one ten-cell row per bench and question, and a summary file of one header and one eight-cell row per bench: 43 and 4 lines for its three benches and fourteen questions |

## Left out

- Network and API calls, because they are foreign services. This covers the
  chat completions for sections and for judging, the hosted assistant's
  file, thread and message calls, and the run-status poll loop. The delimiter
  list, the answers and the verdicts are inputs or parameters.
- The JSON decoding of the model's replies, because it belongs to those calls.
  A reply without `sections`, or a judge reply that is not JSON, is not
  modelled. A verdict without `score` is modelled; it halts the loop, as the
  `KeyError` at `result["score"]` does.
- `partition_pdf`, the embeddings and the llama_index parsing, indexing and
  retrieval, because they are third-party libraries. Elements are abstract
  records, and a bench is a function from the document, the questions asked
  before and the question to its answer; `bench.build` is folded into that
  function.
- Floating point, because numpy and `round` are external. `round(value, 3)`
  and numpy's statistics are parameters; `np.mean` of an empty list is
  folded into the empty-scores error that `np.min` raises. A score that is a
  string or `None` is modelled as the `TypeError` numpy raises; a boolean
  score counts as a number, as numpy averages it.
- The real file system, because it is an effect. A file is absent or a list
  of lines. `makedirs` fails only when the path has no directory part.
  Permissions, races and existing directories are not modelled.
- `datetime.now`, because it is a clock. It is a parameter read once per row.
- The quoting done by `csv.writer`, because rows are kept as cell lists
  rather than serialised text.
- `print`, `tqdm` and the `verbose` flag of `write_score`, because they are
  console output only.
- `app/agents/base.py`, because it is an interface with no behaviour.
- Verdict values other than JSON scalars, because a judge reply's values are
  modelled as strings, numbers, booleans or null. A list or object `score`,
  which `json.loads` can return and numpy may average, is not modelled, so
  `Bench.RunBenchHalts` states when the loop halts for scalar verdicts only.
  Likewise the delimiters are strings: a non-string entry in `sections`,
  which `content.split` rejects, is not modelled.
- The system prompts' contents, because they are sent only to the external
  models.
