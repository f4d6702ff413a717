/** The console progress renderer (lib/ProgressTracker.js). Standard output and
    standard error are one sequence of output events; `isTTY` is fixed when the
    tracker is made. */
module Progress {
  import opened Util

  /** What the tracker sends to the terminal: text on stdout or stderr, or one of the
      two cursor controls it uses to overwrite a progress line. */
  datatype Output = Stdout(text: string) | Stderr(text: string) | ClearLine | CursorToStart

  const BarWidth: nat := 20

  /** `Math.round((progress / 100) * 20)`: the filled cells for a percent. */
  function FilledCells(progress: int): (cells: nat)
    requires 0 <= progress <= 100
    ensures cells <= BarWidth
    ensures 5 * cells - 2 <= progress <= 5 * cells + 2
  {
    (2 * progress + 5) / 10
  }

  /** A higher percent never fills fewer cells. */
  lemma {:induction false} FilledCellsMonotone(p: int, q: int)
    requires 0 <= p <= q <= 100
    ensures FilledCells(p) <= FilledCells(q)
  {
    DivMonotone(2 * p + 5, 2 * q + 5, 10);
  }

  /** The bar is full exactly from 98% on and empty exactly up to 2%. */
  lemma FilledCellsEnds(progress: int)
    requires 0 <= progress <= 100
    ensures FilledCells(progress) == BarWidth <==> progress >= 98
    ensures FilledCells(progress) == 0 <==> progress <= 2
  {
  }

  function Repeat(c: char, n: nat): (s: string)
    ensures |s| == n && forall i :: 0 <= i < n ==> s[i] == c
  {
    if n == 0 then [] else [c] + Repeat(c, n - 1)
  }

  /** `createProgressBar`: twenty cells between brackets, the filled ones first. */
  function CreateProgressBar(progress: int): (bar: string)
    requires 0 <= progress <= 100
    ensures |bar| == BarWidth + 2 && bar[0] == '[' && bar[BarWidth + 1] == ']'
    ensures forall i :: 1 <= i <= BarWidth ==> bar[i] == if i <= FilledCells(progress) then '█' else '░'
  {
    var completed := FilledCells(progress);
    "[" + Repeat('█', completed) + Repeat('░', BarWidth - completed) + "]"
  }

  /** The text shown for a progress report. */
  function ProgressText(progress: int, operation: string, details: string): string
  {
    IntToString(progress) + "% - " + operation + (if details != "" then " - " + details else "")
  }

  /** The progress line written on a terminal. */
  function ProgressLine(progress: int, operation: string, details: string): (line: string)
    requires 0 <= progress <= 100
    ensures line != []
  {
    "📊 " + CreateProgressBar(progress) + " " + ProgressText(progress, operation, details)
  }

  /** The percents a non-terminal output reports. */
  predicate IsMilestone(progress: int)
  {
    progress == 0 || progress == 25 || progress == 50 || progress == 75 || progress == 100
  }

  /** `console.log` of a message. */
  function LogLine(message: string): Output
  {
    Stdout(message + "\n")
  }

  /** The line logged for a milestone report off a terminal. */
  function MilestoneLine(progress: int, operation: string, details: string): Output
  {
    LogLine("📊 Progresso: " + ProgressText(progress, operation, details))
  }

  /** What one report writes off a terminal: its line when it is a milestone, and
      nothing otherwise. */
  function ReportOutput(progress: int, operation: string, details: string): (out: seq<Output>)
    ensures |out| <= 1
  {
    if IsMilestone(progress) then [MilestoneLine(progress, operation, details)] else []
  }

  /** The message `endOperation` prints. */
  function EndMessage(operation: string, success: bool): string
  {
    (if success then "✅ " else "❌ ") + operation + " " + (if success then "concluído" else "falhou")
  }

  class ProgressTracker {
    var currentOperation: string
    var lastProgressLine: string
    const isTTY: bool
    var output: seq<Output>

    /** A pending progress line exists only on a terminal and is the last thing
        written: nothing has been printed after it without first ending it. */
    ghost predicate Valid()
      reads this
    {
      (!isTTY ==> lastProgressLine == "") &&
      (lastProgressLine != "" ==> |output| > 0 && output[|output| - 1] == Stdout(lastProgressLine))
    }

    constructor(isTTY: bool)
      ensures Valid()
      ensures this.isTTY == isTTY && currentOperation == "" && lastProgressLine == "" && output == []
    {
      this.isTTY := isTTY;
      currentOperation := "";
      lastProgressLine := "";
      output := [];
    }

    /** The newline written before other output when a progress line is pending. */
    function LineBreak(): seq<Output>
      reads this
    {
      if lastProgressLine != "" && isTTY then [Stdout("\n")] else []
    }

    method EndPendingLine()
      requires Valid()
      modifies this
      ensures Valid()
      ensures lastProgressLine == "" && currentOperation == old(currentOperation)
      ensures output == old(output) + old(LineBreak())
    {
      if lastProgressLine != "" && isTTY {
        output := output + [Stdout("\n")];
        lastProgressLine := "";
      }
    }

    /** `updateProgress`: on a terminal, overwrites a pending line with the bar and
        ends the line at 100%; elsewhere prints only the milestone percents. */
    method UpdateProgress(progress: int, operation: string, details: string)
      requires Valid()
      requires isTTY ==> 0 <= progress <= 100
      modifies this
      ensures Valid()
      ensures currentOperation == old(currentOperation)
      ensures isTTY ==>
        var line := ProgressLine(progress, operation, details);
        output == old(output) + (if old(lastProgressLine) != "" then [ClearLine, CursorToStart] else [])
                  + [Stdout(line)] + (if progress == 100 then [Stdout("\n")] else []) &&
        lastProgressLine == (if progress == 100 then "" else line)
    ensures !isTTY ==>
        lastProgressLine == "" &&
        output == old(output) + ReportOutput(progress, operation, details)
    {
      if isTTY {
        var line := ProgressLine(progress, operation, details);
        if lastProgressLine != "" {
          output := output + [ClearLine, CursorToStart];
        }
        output := output + [Stdout(line)];
        lastProgressLine := line;
        if progress == 100 {
          output := output + [Stdout("\n")];
          lastProgressLine := "";
        }
      } else {
        output := output + ReportOutput(progress, operation, details);
      }
    }

    /** `startOperation`: the only method that sets currentOperation. */
    method StartOperation(operation: string)
      requires Valid()
      modifies this
      ensures Valid()
      ensures currentOperation == operation && lastProgressLine == ""
      ensures output == old(output) + old(LineBreak()) + [LogLine("\n🔧 " + operation + "...")]
    {
      currentOperation := operation;
      EndPendingLine();
      output := output + [LogLine("\n🔧 " + operation + "...")];
    }

    /** `endOperation`. */
    method EndOperation(operation: string, success: bool)
      requires Valid()
      modifies this
      ensures Valid()
      ensures currentOperation == old(currentOperation) && lastProgressLine == ""
      ensures output == old(output) + old(LineBreak()) + [LogLine(EndMessage(operation, success))]
    {
      EndPendingLine();
      output := output + [LogLine(EndMessage(operation, success))];
    }

    /** `log`: a message on a fresh stdout line. */
    method Log(message: string)
      requires Valid()
      modifies this
      ensures Valid()
      ensures currentOperation == old(currentOperation) && lastProgressLine == ""
      ensures output == old(output) + old(LineBreak()) + [LogLine("📝 " + message)]
    {
      EndPendingLine();
      output := output + [LogLine("📝 " + message)];
    }

    /** `error`: a message on stderr, after ending a pending progress line. */
    method Error(message: string)
      requires Valid()
      modifies this
      ensures Valid()
      ensures currentOperation == old(currentOperation) && lastProgressLine == ""
      ensures output == old(output) + old(LineBreak()) + [Stderr("❌ " + message + "\n")]
    {
      EndPendingLine();
      output := output + [Stderr("❌ " + message + "\n")];
    }

    /** A stream of `updateProgress` calls for one operation, as a transfer's chunk
        handler makes them, on a tracker that is not a terminal. */
    method ReportAll(reports: seq<int>, operation: string, details: string)
      requires Valid() && !isTTY
      modifies this
      ensures Valid()
      ensures currentOperation == old(currentOperation) && lastProgressLine == ""
      ensures output == old(output) + OffTerminalOutput(reports, operation, details)
    {
      var i := 0;
      while i < |reports|
        invariant 0 <= i <= |reports|
        invariant Valid() && currentOperation == old(currentOperation) && lastProgressLine == ""
        invariant output == old(output) + OffTerminalOutput(reports[..i], operation, details)
      {
        UpdateProgress(reports[i], operation, details);
        OffTerminalOutputStep(reports, i, operation, details);
        i := i + 1;
      }
      assert reports[..|reports|] == reports;
    }
  }

  /** What a stream of reports writes off a terminal, one `updateProgress` call after
      another: each milestone report logs its line and every other report writes
      nothing. */
  function OffTerminalOutput(reports: seq<int>, operation: string, details: string): (out: seq<Output>)
    ensures |out| <= |reports|
  {
    if reports == [] then []
    else
      var last := reports[|reports| - 1];
      OffTerminalOutput(reports[..|reports| - 1], operation, details) + ReportOutput(last, operation, details)
  }

  /** One more report extends the off-terminal output by that report's line, if any. */
  lemma OffTerminalOutputStep(reports: seq<int>, i: nat, operation: string, details: string)
    requires i < |reports|
    ensures OffTerminalOutput(reports[..i + 1], operation, details) ==
      OffTerminalOutput(reports[..i], operation, details) + ReportOutput(reports[i], operation, details)
  {
    assert reports[..i + 1][..i] == reports[..i];
  }

  /** The milestone reports of a stream: in order, exactly the reports that are
      milestones. */
  function MilestoneReports(reports: seq<int>): (shown: seq<int>)
    ensures |shown| <= |reports| && IsSubsequence(shown, reports)
    ensures forall i :: 0 <= i < |shown| ==> IsMilestone(shown[i]) && shown[i] in reports
    ensures forall i :: 0 <= i < |reports| && IsMilestone(reports[i]) ==> reports[i] in shown
  {
    Filter(reports, IsMilestone)
  }

  /** One more report extends the milestone reports by that report, if it is one. */
  lemma MilestoneReportsSnoc(init: seq<int>, last: int)
    ensures MilestoneReports(init + [last]) == MilestoneReports(init) + (if IsMilestone(last) then [last] else [])
  {
    FilterAppend(init, [last], IsMilestone);
    assert Filter([last], IsMilestone) == if IsMilestone(last) then [last] else [];
  }

  /** The lines logged for a sequence of milestone reports: one each, in order. */
  function MilestoneLines(shown: seq<int>, operation: string, details: string): (lines: seq<Output>)
    ensures |lines| == |shown|
  {
    if shown == [] then []
    else MilestoneLines(shown[..|shown| - 1], operation, details) + [MilestoneLine(shown[|shown| - 1], operation, details)]
  }

  /** Each milestone report has its own line, at its own position. */
  lemma {:induction false} MilestoneLinesAt(shown: seq<int>, i: nat, operation: string, details: string)
    requires i < |shown|
    ensures MilestoneLines(shown, operation, details)[i] == MilestoneLine(shown[i], operation, details)
  {
    if i < |shown| - 1 {
      var init := shown[..|shown| - 1];
      MilestoneLinesAt(init, i, operation, details);
      assert MilestoneLines(shown, operation, details)[i] == MilestoneLines(init, operation, details)[i];
    }
  }

  /** Off a terminal, a stream of reports writes one line per milestone report and
      nothing else, in the order of the reports. */
  lemma {:induction false} OffTerminalOutputIsMilestones(reports: seq<int>, operation: string, details: string)
    ensures OffTerminalOutput(reports, operation, details) ==
      MilestoneLines(MilestoneReports(reports), operation, details)
  {
    if reports != [] {
      var init, last := reports[..|reports| - 1], reports[|reports| - 1];
      assert reports == init + [last];
      var shownInit := MilestoneReports(init);
      OffTerminalOutputIsMilestones(init, operation, details);
      MilestoneReportsSnoc(init, last);
      if IsMilestone(last) {
        assert ReportOutput(last, operation, details) == [MilestoneLine(last, operation, details)];
        assert MilestoneReports(reports) == shownInit + [last];
        assert (shownInit + [last])[..|shownInit|] == shownInit;
        assert MilestoneLines(shownInit + [last], operation, details) ==
          MilestoneLines(shownInit, operation, details) + [MilestoneLine(last, operation, details)];
      } else {
        assert ReportOutput(last, operation, details) == [];
        assert MilestoneReports(reports) == shownInit;
      }
    }
  }

  /** A report stream that ends at 100, as every successful stage's does, always ends
      its output off a terminal with the 100% line. */
  lemma CompletionAlwaysPrinted(reports: seq<int>, operation: string, details: string)
    requires |reports| > 0 && reports[|reports| - 1] == 100
    ensures 100 in MilestoneReports(reports)
    ensures var out := OffTerminalOutput(reports, operation, details);
      |out| > 0 && out[|out| - 1] == MilestoneLine(100, operation, details)
  {
    assert IsMilestone(reports[|reports| - 1]);
  }

  /** The capped streaming percents never exceed 95, so while a transfer streams its
      output off a terminal holds only 0, 25, 50 and 75 lines; 100 never appears. */
  lemma StreamingNeverPrintsCompletion(chunks: seq<nat>, total: nat, operation: string, details: string)
    requires AllPositive(chunks)
    ensures var reports := StreamPercents(chunks, total);
      var shown := MilestoneReports(reports);
      var out := OffTerminalOutput(reports, operation, details);
      100 !in shown && out == MilestoneLines(shown, operation, details) &&
      forall i :: 0 <= i < |shown| ==> shown[i] in {0, 25, 50, 75}
  {
    OffTerminalOutputIsMilestones(StreamPercents(chunks, total), operation, details);
  }
}
