/** The conversion loop over the chosen files (jsontoexcel.py:51-131).

    Each path is checked for the `.json` suffix, then for a zero size, then
    read and parsed, split into records and written as a workbook named after
    the input. Files rejected by one of these checks are skipped with
    `continue`: they advance neither the progress counter nor the success
    counter. A file whose reading or writing raises inside the `try` counts
    as processed but not successful. The size query sits OUTSIDE the `try`,
    so when it raises the whole batch stops there. At the end the number of
    failed files is the number of files minus the number of successes.

    The file system, the parser, the clock and the workbook writer are not
    modelled: what the loop learns from them about one file is given as a
    `FileInput`. */
module Batch {
  import opened Wrappers
  import opened JsonValue
  import opened Table

  const JsonSuffix: string := ".json"
  const WorkbookSuffix: string := ".xlsx"

  /** Python's `str.endswith`. */
  predicate EndsWith(s: string, suffix: string)
  {
    |suffix| <= |s| && s[|s| - |suffix|..] == suffix
  }

  /** Python's `path[:-5]`: everything but the last five characters, and the
      empty string when there are fewer. */
  function DropLastFive(path: string): (r: string)
    ensures |path| >= 5 ==> r + path[|path| - 5..] == path
    ensures |path| < 5 ==> r == ""
  {
    if |path| >= 5 then path[..|path| - 5] else ""
  }

  /** The workbook name built at line 96: the input path without its last
      five characters, an underscore, the time stamp and `.xlsx`. */
  function OutputName(path: string, stamp: string): (r: string)
    ensures EndsWith(r, WorkbookSuffix)
    ensures EndsWith(path, JsonSuffix) ==> |r| == |path| + |stamp| + 1
  {
    DropLastFive(path) + "_" + stamp + WorkbookSuffix
  }

  /** The input a workbook name was built from, given the stamp's length. */
  function InputOf(name: string, stampLength: nat): string
  {
    if |name| >= stampLength + 6 then name[..|name| - stampLength - 6] + JsonSuffix else ""
  }

  /** Splits a workbook name into the input and the stamp it was built from,
      given the stamp's length: `None` unless the name ends in `.xlsx` and
      an underscore stands just before the stamp. */
  function ReadBack(name: string, stampLength: nat): Option<(string, string)>
  {
    if |name| >= stampLength + 6 && EndsWith(name, WorkbookSuffix)
       && name[|name| - stampLength - 6] == '_'
    then Some((name[..|name| - stampLength - 6] + JsonSuffix, name[|name| - stampLength - 5..|name| - 5]))
    else None
  }

  /** The workbook name keeps the whole input apart from its suffix, an
      underscore, then the stamp: both inputs can be read back from it. */
  lemma OutputNameRoundTrip(path: string, stamp: string)
    requires EndsWith(path, JsonSuffix)
    ensures InputOf(OutputName(path, stamp), |stamp|) == path
    ensures ReadBack(OutputName(path, stamp), |stamp|) == Some((path, stamp))
  {
    var name := OutputName(path, stamp);
    var stem := DropLastFive(path);
    assert name == stem + ("_" + stamp + WorkbookSuffix);
    assert name[..|name| - |stamp| - 6] == stem;
    assert name[|name| - |stamp| - 6] == '_';
    assert name[|name| - |stamp| - 5..|name| - 5] == stamp;
  }

  /** With stamps of one length (strftime's `%Y%m%d%H%M%S` always gives
      fourteen digits for four-digit years) two conversions write the same
      workbook only for the same input at the same second. */
  lemma OutputNameInjective(p1: string, s1: string, p2: string, s2: string)
    requires EndsWith(p1, JsonSuffix) && EndsWith(p2, JsonSuffix)
    requires |s1| == |s2|
    requires OutputName(p1, s1) == OutputName(p2, s2)
    ensures p1 == p2 && s1 == s2
  {
    OutputNameRoundTrip(p1, s1);
    OutputNameRoundTrip(p2, s2);
    var n := OutputName(p1, s1);
    var stem := DropLastFive(p1);
    assert n == stem + "_" + s1 + WorkbookSuffix;
    assert n[|stem| + 1..|n| - 5] == s1;
    assert |DropLastFive(p2)| == |stem|;
    assert n == DropLastFive(p2) + "_" + s2 + WorkbookSuffix;
    assert n[|stem| + 1..|n| - 5] == s2;
  }

  /** A conversion never overwrites its own input. */
  lemma OutputNameIsNotInput(path: string, stamp: string)
    requires EndsWith(path, JsonSuffix)
    ensures OutputName(path, stamp) != path
  {
  }

  /** What reading and parsing a file yields: a payload, a `ValueError` from
      `json.load`, or any other exception raised while opening or reading. */
  datatype Parse = Parsed(value: Json) | Malformed | ReadFault

  /** Everything the loop learns about one file from outside: its path, what
      the size query returns (`None` when it raises), the parse, the time
      stamp of line 96, and whether writing the workbook raises. */
  datatype FileInput = FileInput(path: string, size: Option<nat>, content: Parse, stamp: string, writeFails: bool)

  /** The workbook a successful conversion saves. */
  datatype Written = Written(name: string, sheet: seq<seq<Json>>)

  /** The fate of one file in the loop. */
  datatype Outcome =
    | WrongSuffix        // line 59: skipped
    | SizeUnavailable    // line 64: the size query raised, the batch stops
    | EmptyFile          // line 64: skipped
    | InvalidJson        // line 73: skipped
    | UnsupportedShape   // line 83: skipped
    | NoRecordsFound     // line 87: skipped
    | Converted(written: Written)  // line 112: counted as a success
    | Failed             // line 113: an exception inside the `try`, counted
  {
    /** The `continue` paths, which skip the progress update. */
    predicate Skipped()
    {
      WrongSuffix? || EmptyFile? || InvalidJson? || UnsupportedShape? || NoRecordsFound?
    }

    /** The paths that reach the progress update at line 118. */
    predicate Counted()
    {
      Converted? || Failed?
    }
  }

  /** One iteration of the loop body. */
  function ConvertFile(f: FileInput): (r: Outcome)
    ensures r.Converted? ==> InputOf(r.written.name, |f.stamp|) == f.path
    ensures r.SizeUnavailable? <==> EndsWith(f.path, JsonSuffix) && f.size.None?
  {
    if !EndsWith(f.path, JsonSuffix) then WrongSuffix
    else if f.size.None? then SizeUnavailable
    else if f.size.value == 0 then EmptyFile
    else match f.content
      case Malformed => InvalidJson
      case ReadFault => Failed
      case Parsed(data) =>
        match Tabulate(data)
        case BadShape => UnsupportedShape
        case NoRecords => NoRecordsFound
        case Tabled(t) =>
          if f.writeFails then Failed
          else
            OutputNameRoundTrip(f.path, f.stamp);
            Converted(Written(OutputName(f.path, f.stamp), Worksheet(t)))
  }

  /** A conversion happens exactly for a `.json` file of non-zero size that
      parses to an object or a non-empty array and whose workbook is saved
      without error. */
  lemma ConvertsExactly(f: FileInput)
    ensures ConvertFile(f).Converted? <==>
      && EndsWith(f.path, JsonSuffix)
      && f.size.Some? && f.size.value > 0
      && f.content.Parsed? && !f.content.value.IsScalar() && f.content.value != JArr([])
      && !f.writeFails
  {
    if f.content.Parsed? {
      TabulateOutcome(f.content.value);
    }
  }

  /** Which files end in a `continue` (no progress) and which reach the
      progress update without converting: a file fails exactly when it
      passed the suffix and size checks and then either could not be read,
      or parsed to an object or non-empty array whose workbook could not be
      written; it is skipped exactly when it has the wrong suffix, or a
      readable size and then is empty, malformed, a scalar or `[]`. */
  lemma CountedExactly(f: FileInput)
    ensures ConvertFile(f).Failed? <==>
      && EndsWith(f.path, JsonSuffix) && f.size.Some? && f.size.value > 0
      && (|| f.content.ReadFault?
          || (f.content.Parsed? && !f.content.value.IsScalar() && f.content.value != JArr([]) && f.writeFails))
    ensures ConvertFile(f).Skipped() <==>
      || !EndsWith(f.path, JsonSuffix)
      || (f.size.Some? && (|| f.size.value == 0
                           || f.content.Malformed?
                           || (f.content.Parsed? && (f.content.value.IsScalar() || f.content.value == JArr([])))))
    ensures ConvertFile(f).Counted() <==> !ConvertFile(f).Skipped() && !ConvertFile(f).SizeUnavailable?
  {
    if f.content.Parsed? {
      TabulateOutcome(f.content.value);
    }
  }

  /** The workbook of a converted file holds the header line and one
      rectangular row per record, under the name built from the path. */
  lemma ConvertedWorkbook(f: FileInput)
    requires ConvertFile(f).Converted?
    ensures f.content.Parsed? && Tabulate(f.content.value).Tabled?
    ensures var t := Tabulate(f.content.value).table;
      var w := ConvertFile(f).written;
      && w.name == OutputName(f.path, f.stamp)
      && |w.sheet| == |ExtractRecords(f.content.value).value| + 1
      && (forall line :: line in w.sheet ==> |line| == |t.headers|)
      && (forall i :: 0 <= i < |t.headers| ==> w.sheet[0][i] == JStr(t.headers[i]))
      && w.sheet[1..] == t.rows
      && w.sheet == Worksheet(t)
  {
    TabulatedSheet(f.content.value);
    var t := Tabulate(f.content.value).table;
    assert ConvertFile(f).written == Written(OutputName(f.path, f.stamp), Worksheet(t));
  }

  /** Number of files that reach the progress update. */
  function Progress(files: seq<FileInput>): (n: nat)
    ensures n <= |files|
  {
    if |files| == 0 then 0
    else Progress(files[..|files| - 1]) + (if ConvertFile(files[|files| - 1]).Counted() then 1 else 0)
  }

  /** Number of files converted. */
  function Successes(files: seq<FileInput>): (n: nat)
    ensures n <= |files|
  {
    if |files| == 0 then 0
    else Successes(files[..|files| - 1]) + (if ConvertFile(files[|files| - 1]).Converted? then 1 else 0)
  }

  /** Number of files skipped by a `continue`. */
  function Skips(files: seq<FileInput>): (n: nat)
    ensures n <= |files|
  {
    if |files| == 0 then 0
    else Skips(files[..|files| - 1]) + (if ConvertFile(files[|files| - 1]).Skipped() then 1 else 0)
  }

  /** The workbooks saved, in the order of the files. */
  function Outputs(files: seq<FileInput>): seq<Written>
  {
    if |files| == 0 then []
    else
      var o := ConvertFile(files[|files| - 1]);
      Outputs(files[..|files| - 1]) + (if o.Converted? then [o.written] else [])
  }

  /** No file makes the size query raise. */
  predicate Completes(files: seq<FileInput>)
  {
    forall i :: 0 <= i < |files| ==> !ConvertFile(files[i]).SizeUnavailable?
  }

  /** The status line of lines 123-131: the progress, the number of files,
      and, when some file did not convert, how many did not. */
  datatype Report =
    | AllConverted(progress: nat, total: nat)
    | SomeFailed(progress: nat, total: nat, failed: nat)

  function ReportOf(progress: nat, total: nat, success: nat): Report
    requires success <= total
  {
    if total - success == 0 then AllConverted(progress, total)
    else SomeFailed(progress, total, total - success)
  }

  datatype BatchResult =
    | Finished(report: Report, saved: seq<Written>)
    | Stopped(at: nat, progress: nat, success: nat, saved: seq<Written>)

  /** The loop of lines 58-121 followed by the report of lines 123-131. */
  method RunBatch(files: seq<FileInput>) returns (r: BatchResult)
    ensures r.Finished? <==> Completes(files)
    ensures r.Finished? ==>
      && Successes(files) <= |files|
      && r.report == ReportOf(Progress(files), |files|, Successes(files))
      && r.saved == Outputs(files)
    ensures r.Stopped? ==>
      && r.at < |files|
      && ConvertFile(files[r.at]).SizeUnavailable?
      && Completes(files[..r.at])
      && r.progress == Progress(files[..r.at])
      && r.success == Successes(files[..r.at])
      && r.saved == Outputs(files[..r.at])
  {
    var progress := 0;
    var success := 0;
    var saved := [];
    var i := 0;
    while i < |files|
      invariant i <= |files|
      invariant Completes(files[..i])
      invariant progress == Progress(files[..i])
      invariant success == Successes(files[..i])
      invariant success <= i
      invariant saved == Outputs(files[..i])
    {
      var o := ConvertFile(files[i]);
      assert files[..i + 1][..i] == files[..i];
      if o.SizeUnavailable? {
        return Stopped(i, progress, success, saved);
      }
      if o.Converted? {
        success := success + 1;
        saved := saved + [o.written];
      }
      if o.Counted() {
        progress := progress + 1;
      }
      i := i + 1;
    }
    assert files[..i] == files;
    r := Finished(ReportOf(progress, |files|, success), saved);
  }

  /** Every file is either skipped, counted or stops the batch, so the
      counters split the batch. */
  lemma {:induction false} CountsPartition(files: seq<FileInput>)
    requires Completes(files)
    ensures Progress(files) + Skips(files) == |files|
    ensures Successes(files) <= Progress(files) <= |files|
  {
    if |files| > 0 {
      var init := files[..|files| - 1];
      assert Completes(init) by {
        forall i | 0 <= i < |init| ensures !ConvertFile(init[i]).SizeUnavailable? {
          assert init[i] == files[i];
        }
      }
      CountsPartition(init);
    }
  }

  /** A file skipped by a `continue` moves neither counter. */
  lemma SkippedAdvancesNothing(files: seq<FileInput>, f: FileInput)
    requires ConvertFile(f).Skipped()
    ensures Progress(files + [f]) == Progress(files)
    ensures Successes(files + [f]) == Successes(files)
    ensures Outputs(files + [f]) == Outputs(files)
  {
    assert (files + [f])[..|files|] == files;
  }

  /** Appending one file moves each counter by what that file's outcome
      contributes, and adds its workbook, if any, to the end. */
  lemma CountersStep(files: seq<FileInput>, f: FileInput)
    ensures Progress(files + [f]) == Progress(files) + (if ConvertFile(f).Counted() then 1 else 0)
    ensures Successes(files + [f]) == Successes(files) + (if ConvertFile(f).Converted? then 1 else 0)
    ensures Skips(files + [f]) == Skips(files) + (if ConvertFile(f).Skipped() then 1 else 0)
    ensures Outputs(files + [f]) == Outputs(files) + (if ConvertFile(f).Converted? then [ConvertFile(f).written] else [])
  {
    assert (files + [f])[..|files|] == files;
  }

  /** The batch reports success exactly when every file was converted, and
      then the progress has reached the number of files. */
  lemma {:induction false} AllConvertedIff(files: seq<FileInput>)
    requires Completes(files)
    ensures Successes(files) <= |files|
    ensures ReportOf(Progress(files), |files|, Successes(files)).AllConverted? <==>
      forall i :: 0 <= i < |files| ==> ConvertFile(files[i]).Converted?
    ensures ReportOf(Progress(files), |files|, Successes(files)).AllConverted? ==> Progress(files) == |files|
  {
    CountsPartition(files);
    SuccessesAll(files);
  }

  /** The success count reaches the number of files exactly when every
      file was converted. */
  lemma SuccessesAll(files: seq<FileInput>)
    ensures Successes(files) <= |files|
    ensures Successes(files) == |files| <==> forall i :: 0 <= i < |files| ==> ConvertFile(files[i]).Converted?
  {
    if Successes(files) == |files| {
      FullSuccessesConverted(files);
    }
    if forall i :: 0 <= i < |files| ==> ConvertFile(files[i]).Converted? {
      ConvertedGivesFullSuccesses(files);
    }
  }

  lemma {:induction false} FullSuccessesConverted(files: seq<FileInput>)
    requires Successes(files) == |files|
    ensures forall i :: 0 <= i < |files| ==> ConvertFile(files[i]).Converted?
  {
    if |files| > 0 {
      var init := files[..|files| - 1];
      var last := files[|files| - 1];
      assert files == init + [last];
      CountersStep(init, last);
      assert Successes(init) <= |init|;
      assert ConvertFile(last).Converted? && Successes(init) == |init|;
      FullSuccessesConverted(init);
      forall i | 0 <= i < |init| ensures ConvertFile(files[i]).Converted? {
        assert files[i] == init[i];
      }
    }
  }

  lemma {:induction false} ConvertedGivesFullSuccesses(files: seq<FileInput>)
    requires forall i :: 0 <= i < |files| ==> ConvertFile(files[i]).Converted?
    ensures Successes(files) == |files|
  {
    if |files| > 0 {
      var init := files[..|files| - 1];
      assert files == init + [files[|files| - 1]];
      CountersStep(init, files[|files| - 1]);
      forall i | 0 <= i < |init| ensures ConvertFile(init[i]).Converted? {
        assert init[i] == files[i];
      }
      ConvertedGivesFullSuccesses(init);
    }
  }

  /** The failure count of the report counts skipped files as well as files
      whose conversion raised: it is the number of files minus the
      successes, while the progress counts only the processed ones. */
  lemma FailedCountIncludesSkipped(files: seq<FileInput>)
    requires Completes(files)
    requires ReportOf(Progress(files), |files|, Successes(files)).SomeFailed?
    ensures var rep := ReportOf(Progress(files), |files|, Successes(files));
      rep.failed == Skips(files) + (Progress(files) - Successes(files))
  {
    CountsPartition(files);
  }

  /** No file at all: the loop does not run and the batch reports success. */
  lemma EmptyBatchSucceeds()
    ensures ReportOf(Progress([]), 0, Successes([])) == AllConverted(0, 0)
  {
  }

  /** One file with the wrong suffix: it is skipped, so the report reads
      zero of one completed and one failed. */
  lemma SkippedFileExample(stamp: string)
    ensures var files := [FileInput("data.txt", Some(10), Parsed(JObj([])), stamp, false)];
      ReportOf(Progress(files), |files|, Successes(files)) == SomeFailed(0, 1, 1)
  {
    var files := [FileInput("data.txt", Some(10), Parsed(JObj([])), stamp, false)];
    assert !EndsWith("data.txt", JsonSuffix) by {
      assert "data.txt"[3..] != JsonSuffix by { assert "data.txt"[3..][0] == 'a'; }
    }
    assert files[..0] == [];
  }

  /** An emptied file entry reaches the loop as the single path `""`: it
      fails the suffix test, whatever the file system says about it, so the
      report reads zero of one completed and one failed. */
  lemma EmptyEntryExample(f: FileInput)
    requires f.path == ""
    ensures ConvertFile(f) == WrongSuffix
    ensures ReportOf(Progress([f]), 1, Successes([f])) == SomeFailed(0, 1, 1)
  {
    assert [f][..0] == [];
  }
}
