/** The two result-file writers: `write_any` appends one detail row per call and
    `write_score` one summary row per call. Each writes its header line only when
    the file does not exist yet. The file system is an explicit file state; the
    clock, float rounding and the numeric summary are parameters. */
module CsvLog {
  import opened Wrappers
  import opened Text
  import opened ScoreFile

  /** A cell value, as the judge's JSON or the caller supplies it. */
  datatype Value = Str(s: string) | Float(f: real) | Int(i: int) | Bool(b: bool) | Null

  /** A line of a result file: the header is written as raw text, while data rows
      go through the CSV writer and are kept as their cells. */
  datatype Line = HeaderLine(text: string) | Row(cells: seq<Value>)

  /** A result file: not there yet, or the lines it holds. */
  datatype FileState = Absent | Present(lines: seq<Line>)

  datatype CsvError =
    | NoParentDirectory    // `os.makedirs('')`: the path names no directory
    | MissingKey(key: string)   // `value[header]` on a header the map lacks
    | EmptyScores          // `np.min` of no scores
    | NonNumericScores     // `np.mean` over a string or `None` score

  /** What a writer leaves behind: the file, and the caller's value map as the
      writer rewrote it; or the error that stopped it, and the file as it was
      at that point. */
  datatype Outcome<T> = Done(file: FileState, out: T) | Stopped(error: CsvError, file: FileState)

  // ---------------------------------------------------------------------------
  // Header line and file name
  // ---------------------------------------------------------------------------

  /** The column names of a detail file. */
  function HeaderColumns(headers: seq<string>): seq<string> {
    ["file", "bench"] + headers + ["created_at"]
  }

  /** The header line of a detail file: its column names joined by commas. */
  function HeaderText(headers: seq<string>): string {
    Join(HeaderColumns(headers), ',')
  }

  /** When no column name holds a comma, the header line splits back into
      exactly its column names: the three fixed ones around the given headers. */
  lemma HeaderFields(headers: seq<string>)
    requires forall i :: 0 <= i < |headers| ==> Avoids(headers[i], {','})
    ensures var cols := SplitOn(HeaderText(headers), {','});
      |cols| == |headers| + 3 && cols[0] == "file" && cols[1] == "bench" &&
      cols[|headers| + 2] == "created_at" &&
      forall i :: 0 <= i < |headers| ==> cols[i + 2] == headers[i]
  {
    var cols := HeaderColumns(headers);
    forall k | 0 <= k < |cols| ensures Avoids(cols[k], {','}) {
      if 2 <= k < |headers| + 2 {
        assert cols[k] == headers[k - 2];
      }
    }
    JoinSplitRoundTrip(cols, ',');
  }

  /** `os.path.basename`: what follows the last `/`. */
  function Basename(path: string): string {
    match LastIndexOf(path, '/')
    case None => path
    case Some(i) => path[i + 1..]
  }

  /** `os.path.dirname(path)` is not empty: the path has a `/`. */
  predicate HasDirectory(path: string) {
    LastIndexOf(path, '/').Some?
  }

  /** Every character of `s` is a dot. */
  predicate AllDots(s: string) {
    forall i :: 0 <= i < |s| ==> s[i] == '.'
  }

  /** `os.path.splitext(b)[0]` for a base name `b`: the last dot starts the
      extension, unless only dots come before it (so `.bashrc` keeps its name). */
  function Stem(b: string): string {
    match LastIndexOf(b, '.')
    case None => b
    case Some(d) => if AllDots(b[..d]) then b else b[..d]
  }

  /** The `file` column: the base name of the path without its extension. */
  function FileName(path: string): string {
    Stem(Basename(path))
  }

  /** The base name of `dir/b` is `b` when `b` has no `/`. */
  lemma BasenameOf(dir: string, b: string)
    requires Avoids(b, {'/'})
    ensures Basename(dir + "/" + b) == b
  {
    var path := dir + "/" + b;
    assert forall j :: |dir| < j < |path| ==> path[j] == b[j - |dir| - 1];
    LastIndexOfAt(path, '/', |dir|);
    assert path[|dir| + 1..] == b;
  }

  /** The stem of `stem.ext` is `stem` when the extension has no dot and the
      stem is not all dots. */
  lemma StemOf(stem: string, ext: string)
    requires Avoids(ext, {'.'}) && !AllDots(stem)
    ensures Stem(stem + "." + ext) == stem
  {
    var b := stem + "." + ext;
    assert forall j :: |stem| < j < |b| ==> b[j] == ext[j - |stem| - 1];
    LastIndexOfAt(b, '.', |stem|);
    assert b[..|stem|] == stem;
  }

  /** The file name of `dir/stem.ext` is `stem`, for any directory, when the
      extension has no dot, neither part has a `/`, and the stem is not all dots. */
  lemma FileNameOf(dir: string, stem: string, ext: string)
    requires Avoids(stem, {'/'}) && Avoids(ext, {'/'}) && Avoids(ext, {'.'})
    requires !AllDots(stem)
    ensures FileName(dir + "/" + stem + "." + ext) == stem
  {
    var b := stem + "." + ext;
    assert Avoids(b, {'/'});
    assert dir + "/" + stem + "." + ext == dir + "/" + b;
    BasenameOf(dir, b);
    StemOf(stem, ext);
  }

  /** A base name with no dot is its own stem, and so is one in which only dots
      precede the last dot. */
  lemma StemKept(b: string)
    ensures (forall i :: 0 <= i < |b| ==> b[i] != '.') ==> Stem(b) == b
    ensures (exists d :: 0 <= d < |b| && b[d] == '.' && AllDots(b[..d]) &&
              forall j :: d < j < |b| ==> b[j] != '.') ==> Stem(b) == b
  {
  }

  // ---------------------------------------------------------------------------
  // Cells
  // ---------------------------------------------------------------------------

  /** The cell a value becomes: line breaks in a string become `_`, a float is
      rounded to three places by `round3`, anything else passes through. */
  function Clean(v: Value, round3: real -> real): (c: Value)
    ensures v.Str? ==> c.Str? && |c.s| == |v.s|
    ensures v.Str? ==> forall i :: 0 <= i < |v.s| ==>
              c.s[i] == (if v.s[i] == '\n' then '_' else v.s[i])
    ensures v.Float? ==> c == Float(round3(v.f))
    ensures !v.Str? && !v.Float? ==> c == v
  {
    match v
    case Str(s) =>
      ReplaceCharPointwise(s, '\n', '_');
      Str(ReplaceAll(s, "\n", "_"))
    case Float(f) => Float(round3(f))
    case _ => v
  }

  /** A cleaned string holds no line break, and cleaning it again changes nothing. */
  lemma CleanStrSettled(v: Value, round3: real -> real)
    requires v.Str?
    ensures var c := Clean(v, round3);
      (forall i :: 0 <= i < |c.s| ==> c.s[i] != '\n') && Clean(c, round3) == c
  {
    var c := Clean(v, round3);
    var c2 := Clean(c, round3);
    assert c2.s == c.s;
  }

  /** The index of the first header that is not a key of the map, if any. */
  function FirstMissing(headers: seq<string>, keys: set<string>): (r: Option<nat>)
    ensures r.Some? ==> r.value < |headers| && headers[r.value] !in keys
    ensures r.Some? ==> forall j :: 0 <= j < r.value ==> headers[j] in keys
    ensures r.None? ==> forall j :: 0 <= j < |headers| ==> headers[j] in keys
  {
    if |headers| == 0 then None
    else if headers[0] !in keys then Some(0)
    else match FirstMissing(headers[1..], keys)
      case None => None
      case Some(k) => Some(k + 1)
  }

  /** The loop over `headers` in `write_any`: each named value is cleaned in
      place in the map and appended to the row; the first header that is not
      in the map stops the loop with a `KeyError`.
      On success there is one cell per header. The cell of a header's first
      mention is its original value cleaned, the map ends up holding the cell
      of each header's last mention, and keys that are not headers keep their
      values. */
  function FillRow(headers: seq<string>, value: map<string, Value>, round3: real -> real)
    : (r: Result<(seq<Value>, map<string, Value>), CsvError>)
    ensures r.Failure? <==> FirstMissing(headers, value.Keys).Some?
    ensures r.Failure? ==> r.error == MissingKey(headers[FirstMissing(headers, value.Keys).value])
    ensures r.Success? ==> |r.value.0| == |headers| && r.value.1.Keys == value.Keys
    ensures r.Success? ==> forall k :: k in value && k !in headers ==> r.value.1[k] == value[k]
    ensures r.Success? ==> forall i :: 0 <= i < |headers| && headers[i] !in headers[..i] ==>
              r.value.0[i] == Clean(value[headers[i]], round3)
    ensures r.Success? ==> forall i :: 0 <= i < |headers| && headers[i] !in headers[i + 1..] ==>
              r.value.1[headers[i]] == r.value.0[i]
    decreases |headers|
  {
    if |headers| == 0 then Success(([], value))
    else
      var h := headers[0];
      if h !in value then Failure(MissingKey(h))
      else
        var c := Clean(value[h], round3);
        var rest :- FillRow(headers[1..], value[h := c], round3);
        FillRowStep(headers, value, round3, c, rest);
        Success(([c] + rest.0, rest.1))
  }

  /** The inductive step of `FillRow`'s contract, for the cell of the head. */
  lemma FillRowStep(headers: seq<string>, value: map<string, Value>, round3: real -> real,
                    c: Value, rest: (seq<Value>, map<string, Value>))
    requires |headers| > 0
    requires forall i :: 0 <= i < |headers| ==> headers[i] in value
    requires c == Clean(value[headers[0]], round3)
    requires |rest.0| == |headers| - 1 && rest.1.Keys == value.Keys
    requires forall i :: 0 <= i < |headers| - 1 && headers[1..][i] !in headers[1..][..i] ==>
               rest.0[i] == Clean(value[headers[0] := c][headers[1..][i]], round3)
    requires forall i :: 0 <= i < |headers| - 1 && headers[1..][i] !in headers[1..][i + 1..] ==>
               rest.1[headers[1..][i]] == rest.0[i]
    requires forall k :: k in value[headers[0] := c] && k !in headers[1..] ==>
               rest.1[k] == value[headers[0] := c][k]
    ensures var cells := [c] + rest.0;
      (forall i :: 0 <= i < |headers| && headers[i] !in headers[..i] ==>
        cells[i] == Clean(value[headers[i]], round3)) &&
      (forall i :: 0 <= i < |headers| && headers[i] !in headers[i + 1..] ==>
        rest.1[headers[i]] == cells[i])
  {
    FirstMentionCells(headers, value, round3, c, rest.0);
    if headers[0] !in headers[1..] {
      assert headers[0] in value[headers[0] := c];
    }
    LastMentionCells(headers, value, c, rest);
  }

  /** The cell of a header's first mention is its original value cleaned: the
      head's own cell, or one of the rest's first mentions, which the head's
      rewrite did not touch. */
  lemma FirstMentionCells(headers: seq<string>, value: map<string, Value>, round3: real -> real,
                          c: Value, cells: seq<Value>)
    requires |headers| > 0
    requires forall i :: 0 <= i < |headers| ==> headers[i] in value
    requires c == Clean(value[headers[0]], round3)
    requires |cells| == |headers| - 1
    requires forall i :: 0 <= i < |headers| - 1 && headers[1..][i] !in headers[1..][..i] ==>
               cells[i] == Clean(value[headers[0] := c][headers[1..][i]], round3)
    ensures forall i :: 0 <= i < |headers| && headers[i] !in headers[..i] ==>
              ([c] + cells)[i] == Clean(value[headers[i]], round3)
  {
    var h := headers[0];
    forall i | 0 <= i < |headers| && headers[i] !in headers[..i]
      ensures ([c] + cells)[i] == Clean(value[headers[i]], round3)
    {
      if i > 0 {
        assert headers[i] != h by { assert headers[..i][0] == h; }
        assert headers[1..][i - 1] == headers[i];
        assert headers[1..][..i - 1] == headers[1..i];
        assert headers[1..i] == headers[..i][1..];
      }
    }
  }

  /** The map holds the cell of each header's last mention: the rest's, or the
      head's own when the head is not mentioned again. */
  lemma LastMentionCells(headers: seq<string>, value: map<string, Value>, c: Value,
                         rest: (seq<Value>, map<string, Value>))
    requires |headers| > 0
    requires forall i :: 0 <= i < |headers| ==> headers[i] in value
    requires |rest.0| == |headers| - 1 && rest.1.Keys == value.Keys
    requires forall i :: 0 <= i < |headers| - 1 && headers[1..][i] !in headers[1..][i + 1..] ==>
               rest.1[headers[1..][i]] == rest.0[i]
    requires headers[0] !in headers[1..] ==> rest.1[headers[0]] == c
    ensures forall i :: 0 <= i < |headers| && headers[i] !in headers[i + 1..] ==>
              rest.1[headers[i]] == ([c] + rest.0)[i]
  {
    forall i | 0 <= i < |headers| && headers[i] !in headers[i + 1..]
      ensures rest.1[headers[i]] == ([c] + rest.0)[i]
    {
      if i > 0 {
        assert headers[1..][i - 1] == headers[i];
        assert headers[1..][i..] == headers[i + 1..];
      }
    }
  }

  // ---------------------------------------------------------------------------
  // The writers
  // ---------------------------------------------------------------------------

  /** The header step both writers share. An existing file is left alone; a
      missing one gets its directory created, which fails when the path names
      none, and then holds only the header line. */
  function OpenForAppend(file: FileState, path: string, header: string): Result<FileState, CsvError> {
    match file
    case Present(_) => Success(file)
    case Absent =>
      if HasDirectory(path) then Success(Present([HeaderLine(header)])) else Failure(NoParentDirectory)
  }

  /** The file with one more row at its end. */
  function Append(file: FileState, cells: seq<Value>): FileState
    requires file.Present?
  {
    Present(file.lines + [Row(cells)])
  }

  /** The lines a file holds before a write's row: its own lines when it
      exists, else the given header line alone. */
  function LinesBefore(file: FileState, header: string): seq<Line> {
    match file
    case Present(lines) => lines
    case Absent => [HeaderLine(header)]
  }

  /** The row `write_any` appends: file name, bench name, the cleaned header
      cells, and the time. */
  function DetailRow(path: string, name: string, cells: seq<Value>, now: string): seq<Value> {
    [Str(FileName(path)), Str(name)] + cells + [Str(now)]
  }

  /** `write_any(path, name, headers, value)` with the clock reading `now`. */
  function WriteAny(file: FileState, path: string, name: string, headers: seq<string>,
                    value: map<string, Value>, now: string, round3: real -> real)
    : (r: Outcome<map<string, Value>>)
    // it fails exactly when the directory cannot be made or a header is missing
    ensures r.Stopped? <==>
      (file.Absent? && !HasDirectory(path)) || FirstMissing(headers, value.Keys).Some?
    // the header line is written exactly when the file did not exist, and a
    // successful call adds exactly one line after it
    ensures r.Done? ==> (r.file.Present? &&
      |r.file.lines| == |LinesBefore(file, HeaderText(headers))| + 1 &&
      r.file.lines[..|r.file.lines| - 1] == LinesBefore(file, HeaderText(headers)))
  {
    match OpenForAppend(file, path, HeaderText(headers))
    case Failure(e) => Stopped(e, file)
    case Success(f) =>
      match FillRow(headers, value, round3)
      case Failure(e) => Stopped(e, f)
      case Success(filled) =>
        var g := Append(f, DetailRow(path, name, filled.0, now));
        assert g.lines[..|g.lines| - 1] == f.lines;
        Done(g, filled.1)
  }

  /** The row a successful `write_any` appends is as wide as the header: the
      file name, the bench name, one cell per header holding that header's value
      cleaned, and the time. */
  lemma WriteAnyRow(file: FileState, path: string, name: string, headers: seq<string>,
                    value: map<string, Value>, now: string, round3: real -> real)
    requires WriteAny(file, path, name, headers, value, now, round3).Done?
    ensures var lines := WriteAny(file, path, name, headers, value, now, round3).file.lines;
      var row := lines[|lines| - 1];
      row.Row? && |row.cells| == |headers| + 3 == |HeaderColumns(headers)| &&
      row.cells[0] == Str(FileName(path)) && row.cells[1] == Str(name) &&
      row.cells[|headers| + 2] == Str(now) &&
      forall i :: 0 <= i < |headers| && headers[i] !in headers[..i] ==>
        row.cells[i + 2] == Clean(value[headers[i]], round3)
  {
    var filled := FillRow(headers, value, round3).value;
    DetailRowCells(path, name, filled.0, now);
  }

  /** Where each part of a detail row sits. */
  lemma DetailRowCells(path: string, name: string, cells: seq<Value>, now: string)
    ensures var row := DetailRow(path, name, cells, now);
      |row| == |cells| + 3 && row[0] == Str(FileName(path)) && row[1] == Str(name) &&
      row[|cells| + 2] == Str(now) && forall i :: 0 <= i < |cells| ==> row[i + 2] == cells[i]
  {
  }

  /** A successful `write_any` keeps the keys of the caller's map and rewrites
      only the entries named by a header. */
  lemma WriteAnyValue(file: FileState, path: string, name: string, headers: seq<string>,
                      value: map<string, Value>, now: string, round3: real -> real)
    requires WriteAny(file, path, name, headers, value, now, round3).Done?
    ensures var out := WriteAny(file, path, name, headers, value, now, round3).out;
      out.Keys == value.Keys &&
      (forall k :: k in value && k !in headers ==> out[k] == value[k]) &&
      forall i :: 0 <= i < |headers| && headers[i] !in headers[..i] && headers[i] !in headers[i + 1..] ==>
        out[headers[i]] == Clean(value[headers[i]], round3)
  {
  }

  /** A failed `write_any`: without a directory nothing is written; a missing
      header is reported after the header line is already in place. */
  lemma WriteAnyStopped(file: FileState, path: string, name: string, headers: seq<string>,
                        value: map<string, Value>, now: string, round3: real -> real)
    requires WriteAny(file, path, name, headers, value, now, round3).Stopped?
    ensures var r := WriteAny(file, path, name, headers, value, now, round3);
      if file.Absent? && !HasDirectory(path) then
        r.error == NoParentDirectory && r.file == Absent
      else
        r.error == MissingKey(headers[FirstMissing(headers, value.Keys).value]) &&
        r.file == Present(LinesBefore(file, HeaderText(headers)))
  {
  }

  /** The five statistics numpy computes over the scores. */
  datatype Summary = Summary(mean: Value, median: Value, std: Value, min: Value, max: Value)

  /** A value numpy's statistics accept: a number or a boolean. A string or
      `None` among the scores makes `np.mean` raise a `TypeError`. */
  predicate Numeric(v: Value) {
    v.Int? || v.Float? || v.Bool?
  }

  predicate AllNumeric(scores: seq<Value>) {
    forall i :: 0 <= i < |scores| ==> Numeric(scores[i])
  }

  /** `write_score(path, name, scores)` with the clock reading `now`; the
      statistics come from `summarize`, which is only asked for a non-empty
      list of numbers: `np.min` rejects an empty list and `np.mean` one that
      holds a string or `None`. Either error leaves the header line in place
      and adds no row. */
  function WriteScore(file: FileState, path: string, name: string, scores: seq<Value>,
                      summarize: seq<Value> -> Summary, now: string): (r: Outcome<()>)
    ensures r.Done? ==> (r.file.Present? &&
      |r.file.lines| == |LinesBefore(file, ScoreHeader)| + 1 &&
      r.file.lines[..|r.file.lines| - 1] == LinesBefore(file, ScoreHeader))
    ensures r.Done? ==> (|r.file.lines| > 0 &&
      var row := r.file.lines[|r.file.lines| - 1];
      var s := summarize(scores);
      row == Row([Str(FileName(path)), Str(name), s.mean, s.median, s.std, s.min, s.max, Str(now)]) &&
      |row.cells| == |ScoreColumns|)
    ensures r.Stopped? <==> (file.Absent? && !HasDirectory(path)) || |scores| == 0 || !AllNumeric(scores)
    ensures r.Stopped? && (file.Present? || HasDirectory(path)) ==>
      r.error == (if |scores| == 0 then EmptyScores else NonNumericScores) &&
      r.file == Present(LinesBefore(file, ScoreHeader))
  {
    match OpenForAppend(file, path, ScoreHeader)
    case Failure(e) => Stopped(e, file)
    case Success(f) =>
      if |scores| == 0 then Stopped(EmptyScores, f)
      else if !AllNumeric(scores) then Stopped(NonNumericScores, f)
      else
        var s := summarize(scores);
        Done(Append(f, [Str(FileName(path)), Str(name), s.mean, s.median, s.std, s.min, s.max, Str(now)]), ())
  }

  // ---------------------------------------------------------------------------
  // Repeated writes
  // ---------------------------------------------------------------------------

  /** One `write_any` call per entry of `calls` (bench name, value map, time),
      all on one path with one header list, stopping at the first error. */
  function WriteAnyEach(file: FileState, path: string, headers: seq<string>,
                        calls: seq<(string, map<string, Value>, string)>, round3: real -> real)
    : Outcome<()>
    decreases |calls|
  {
    if |calls| == 0 then Done(file, ())
    else
      match WriteAny(file, path, calls[0].0, headers, calls[0].1, calls[0].2, round3)
      case Stopped(e, f) => Stopped(e, f)
      case Done(f, _) => WriteAnyEach(f, path, headers, calls[1..], round3)
  }

  /** Every value map of `calls` has all the headers. */
  predicate AllComplete(headers: seq<string>, calls: seq<(string, map<string, Value>, string)>) {
    forall i :: 0 <= i < |calls| ==> FirstMissing(headers, calls[i].1.Keys).None?
  }

  /** Every line of `lines` from index `from` on is a row of `width` cells. */
  predicate RowsFrom(lines: seq<Line>, from: nat, width: nat) {
    forall i :: from <= i < |lines| ==> lines[i].Row? && |lines[i].cells| == width
  }

  /** One complete `write_any` to a file that exists or can be created adds
      one row of the header's width after the lines it had. */
  lemma WriteAnyOneRow(file: FileState, path: string, name: string, headers: seq<string>,
                       value: map<string, Value>, now: string, round3: real -> real)
    requires file.Present? || HasDirectory(path)
    requires FirstMissing(headers, value.Keys).None?
    ensures var r := WriteAny(file, path, name, headers, value, now, round3);
      var before := LinesBefore(file, HeaderText(headers));
      r.Done? && r.file.Present? && |r.file.lines| == |before| + 1 &&
      r.file.lines[..|before|] == before && RowsFrom(r.file.lines, |before|, |headers| + 3)
  {
    WriteAnyRow(file, path, name, headers, value, now, round3);
  }

  /** Writing `n` complete rows to a path with a directory: a missing file ends
      up with one header line followed by `n` rows, an existing one with its
      old lines followed by `n` rows; every row is as wide as the header. */
  lemma {:induction false} WriteAnyEachRows(file: FileState, path: string, headers: seq<string>,
                                            calls: seq<(string, map<string, Value>, string)>,
                                            round3: real -> real)
    requires file.Present? || (HasDirectory(path) && |calls| > 0)
    requires AllComplete(headers, calls)
    ensures var r := WriteAnyEach(file, path, headers, calls, round3);
      var before := LinesBefore(file, HeaderText(headers));
      r.Done? && r.file.Present? && |r.file.lines| == |before| + |calls| &&
      r.file.lines[..|before|] == before && RowsFrom(r.file.lines, |before|, |headers| + 3)
    decreases |calls|
  {
    if |calls| > 0 {
      var before := LinesBefore(file, HeaderText(headers));
      var f := WriteAny(file, path, calls[0].0, headers, calls[0].1, calls[0].2, round3).file;
      assert |f.lines| == |before| + 1 && f.lines[..|before|] == before &&
             RowsFrom(f.lines, |before|, |headers| + 3) by {
        assert FirstMissing(headers, calls[0].1.Keys).None?;
        WriteAnyOneRow(file, path, calls[0].0, headers, calls[0].1, calls[0].2, round3);
      }
      assert WriteAnyEach(file, path, headers, calls, round3) ==
             WriteAnyEach(f, path, headers, calls[1..], round3) by {
        assert FirstMissing(headers, calls[0].1.Keys).None?;
        WriteAnyOneRow(file, path, calls[0].0, headers, calls[0].1, calls[0].2, round3);
      }
      assert AllComplete(headers, calls[1..]) by {
        forall i | 0 <= i < |calls[1..]| ensures FirstMissing(headers, calls[1..][i].1.Keys).None? {
          assert calls[1..][i] == calls[i + 1];
        }
      }
      WriteAnyEachRows(f, path, headers, calls[1..], round3);
      var lines := WriteAnyEach(f, path, headers, calls[1..], round3).file.lines;
      var n := |f.lines|;
      assert lines[..n] == f.lines;
      assert lines[..|before|] == f.lines[..|before|];
      assert RowsFrom(lines, |before|, |headers| + 3) by {
        forall i | |before| <= i < |lines|
          ensures lines[i].Row? && |lines[i].cells| == |headers| + 3
        {
          if i < n {
            assert lines[i] == f.lines[i];
          }
        }
      }
    }
  }
}

/** The fixed header of the summary file and its columns. */
module ScoreFile {
  import opened Text

  /** The columns of the summary file: file, bench, mean, median, standard
      deviation, minimum, maximum, time written. */
  const ScoreColumns: seq<string> := ["file", "bench", "平均", "中央値", "標準偏差", "最小値", "最大値", "作成日時"]

  /** The fixed header line of the summary file. */
  const ScoreHeader: string := "file,bench,平均,中央値,標準偏差,最小値,最大値,作成日時"

  /** The summary header is its columns joined by commas. */
  lemma ScoreHeaderIsJoin()
    ensures ScoreHeader == Join(ScoreColumns, ',')
  {
  }

  /** The summary header has eight columns. */
  lemma ScoreHeaderColumns()
    ensures SplitOn(ScoreHeader, {','}) == ScoreColumns && |ScoreColumns| == 8
  {
    ScoreHeaderIsJoin();
    assert forall k :: 0 <= k < |ScoreColumns| ==> Avoids(ScoreColumns[k], {','});
    JoinSplitRoundTrip(ScoreColumns, ',');
  }
}
