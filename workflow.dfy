/**
 * The conversion workflow of `DocxToPdfApp`: `drop_files` selects the .docx paths of a
 * drop payload and either shows an error or runs `convert_files`, which writes the status
 * label, calls the external converter once per path, logs failures and carries on, and ends
 * with a completion notice citing the number of paths attempted.
 *
 * The observable effects (status writes, converter calls, dialogs, log lines) are recorded
 * as a trace of events; `ConvertTrace` and `DropTrace` specify the trace a run produces,
 * and the class `App` holds the status label and the effects and is proved against them.
 */
module Workflow {
  import opened Wrappers
  import opened Text
  import opened DropParser
  import opened DocxFilter

  /** What the external converter does with one path: writes the PDF, or raises an error. */
  datatype ConvertOutcome = Converted | Failed(detail: string)

  /** The texts the status label is given, by the values they interpolate. */
  datatype StatusText =
    | Processing(total: nat)   // before the loop
    | Converting(path: string) // at the start of each iteration
    | Complete                 // after the loop
    | Ready                    // idle

  /** The two modal dialogs. */
  datatype Dialog = NoDocxError | SuccessNotice(total: nat)

  /** One observable effect of the application. */
  datatype Event =
    | SetStatus(status: StatusText)          // the status label's text is set
    | Convert(path: string)                  // the external converter is called
    | Show(dialog: Dialog)                   // a modal dialog is shown
    | LogFailure(path: string, detail: string) // a line printed on the console

  /** The exact text the label shows for each status. */
  function Label(s: StatusText): (r: string)
    ensures r == "Ready" <==> s.Ready?
    ensures r == "Conversion Complete!" <==> s.Complete?
  {
    match s
    case Processing(total) => "Processing " + NatToString(total) + " file(s)..."
    case Converting(path) =>
      var r := "Converting: " + Basename(path);
      assert r[6] != "Conversion Complete!"[6];
      r
    case Complete => "Conversion Complete!"
    case Ready => "Ready"
  }

  function DialogTitle(d: Dialog): (r: string)
    ensures r == "Error" <==> d.NoDocxError?
    ensures r == "Success" <==> d.SuccessNotice?
  {
    match d
    case NoDocxError => "Error"
    case SuccessNotice(_) => "Success"
  }

  function DialogMessage(d: Dialog): (r: string)
    ensures r == NoDocxMessage <==> d.NoDocxError?
  {
    match d
    case NoDocxError => NoDocxMessage
    case SuccessNotice(total) => "Successfully converted " + NatToString(total) + " file(s)!"
  }

  /** The console line printed for a failed conversion. */
  function LogText(path: string, detail: string): (r: string)
    ensures |r| == 19 + |path| + |detail|
    ensures r[17..17 + |path|] == path && r[|r| - |detail|..] == detail
  {
    "Error converting " + path + ": " + detail
  }

  const NoDocxMessage: string := "No .docx files found!"

  /** The count in the progress text and in the success notice can be read back. */
  lemma CountsReadBack(a: nat, b: nat)
    ensures Label(Processing(a)) == Label(Processing(b)) ==> a == b
    ensures DialogMessage(SuccessNotice(a)) == DialogMessage(SuccessNotice(b)) ==> a == b
  {
    var pre, post := "Processing ", " file(s)...";
    if Label(Processing(a)) == Label(Processing(b)) {
      var x, y := NatToString(a), NatToString(b);
      assert |x| == |y|;
      assert x == (pre + x + post)[|pre|..|pre| + |x|];
      assert y == (pre + y + post)[|pre|..|pre| + |y|];
      NatToStringInjective(a, b);
    }
    var pre', post' := "Successfully converted ", " file(s)!";
    if DialogMessage(SuccessNotice(a)) == DialogMessage(SuccessNotice(b)) {
      var x, y := NatToString(a), NatToString(b);
      assert |x| == |y|;
      assert x == (pre' + x + post')[|pre'|..|pre'| + |x|];
      assert y == (pre' + y + post')[|pre'|..|pre'| + |y|];
      NatToStringInjective(a, b);
    }
  }

  /** The selection step of `drop_files`: the .docx paths of the payload, or the error
      message when none survives the filter. */
  function SelectDocx(data: string): (r: Result<seq<string>, string>)
    ensures r.Failure? <==>
      forall k :: 0 <= k < |ParseDroppedFiles(data)| ==> !IsDocx(ParseDroppedFiles(data)[k])
    ensures r.Failure? ==> r.error == NoDocxMessage
    ensures r.Success? ==> r.value != [] && r.value == FilterDocx(ParseDroppedFiles(data))
  {
    var docx := FilterDocx(ParseDroppedFiles(data));
    FilterEmptyIff(ParseDroppedFiles(data));
    if docx == [] then Failure(NoDocxMessage) else Success(docx)
  }

  /** The effects of one iteration of the loop of `convert_files`. */
  function FileSteps(path: string, outcome: ConvertOutcome): seq<Event> {
    [SetStatus(Converting(path)), Convert(path)] + FailureStep(path, outcome)
  }

  /** The `except` branch: a console line when the conversion fails. */
  function FailureStep(path: string, outcome: ConvertOutcome): seq<Event> {
    match outcome
    case Converted => []
    case Failed(detail) => [LogFailure(path, detail)]
  }

  /** The effects of the loop of `convert_files` over `files`, iteration after iteration. */
  function LoopTrace(files: seq<string>, convert: string -> ConvertOutcome): seq<Event>
    decreases |files|
  {
    if files == [] then []
    else
      var last := files[|files| - 1];
      LoopTrace(files[..|files| - 1], convert) + FileSteps(last, convert(last))
  }

  /** The effects of `convert_files(files)` when the converter behaves as `convert`. */
  function ConvertTrace(files: seq<string>, convert: string -> ConvertOutcome): (r: seq<Event>)
    ensures 4 <= |r| && r[0] == SetStatus(Processing(|files|))
    ensures r[|r| - 2] == Show(SuccessNotice(|files|)) && r[|r| - 1] == SetStatus(Ready)
  {
    [SetStatus(Processing(|files|))]
      + LoopTrace(files, convert)
      + RunEnd(|files|)
  }

  /** The effects of `drop_files` on a payload, the conversion run as part of it. */
  function DropTrace(data: string, convert: string -> ConvertOutcome): (r: seq<Event>)
    ensures r == [Show(NoDocxError)] <==> SelectDocx(data).Failure?
  {
    match SelectDocx(data)
    case Failure(_) => [Show(NoDocxError)]
    case Success(docx) => ConvertTrace(docx, convert)
  }

  // ---------------------------------------------------------------------------
  // Views of a trace.

  /** The events of `t` that satisfy `keep`, in order. */
  function Select(t: seq<Event>, keep: Event -> bool): seq<Event>
    decreases |t|
  {
    if t == [] then []
    else (if keep(t[0]) then [t[0]] else []) + Select(t[1..], keep)
  }

  lemma {:induction false} SelectAppend(a: seq<Event>, b: seq<Event>, keep: Event -> bool)
    ensures Select(a + b, keep) == Select(a, keep) + Select(b, keep)
    decreases |a|
  {
    if a == [] {
      assert a + b == b;
    } else {
      assert (a + b)[0] == a[0];
      assert (a + b)[1..] == a[1..] + b;
      SelectAppend(a[1..], b, keep);
    }
  }

  predicate IsStatusWrite(e: Event) { e.SetStatus? }
  predicate IsConverterCall(e: Event) { e.Convert? }
  predicate IsDialog(e: Event) { e.Show? }
  predicate IsLogLine(e: Event) { e.LogFailure? }
  predicate IsVisible(e: Event) { !e.LogFailure? }

  /** The status writes naming each file, in order. */
  function ConvertingWrites(files: seq<string>): seq<Event> {
    seq(|files|, k requires 0 <= k < |files| => SetStatus(Converting(files[k])))
  }

  /** One converter call per file, in order. */
  function ConverterCalls(files: seq<string>): seq<Event> {
    seq(|files|, k requires 0 <= k < |files| => Convert(files[k]))
  }

  /** The log lines of the files whose conversion fails, in order. */
  function FailureLog(files: seq<string>, convert: string -> ConvertOutcome): seq<Event>
    decreases |files|
  {
    if files == [] then []
    else FailureStep(files[0], convert(files[0])) + FailureLog(files[1..], convert)
  }

  function AllConverted(path: string): ConvertOutcome {
    Converted
  }

  // ---------------------------------------------------------------------------
  // The loop, view by view.

  lemma SelectCons(e: Event, t: seq<Event>, keep: Event -> bool)
    ensures Select([e] + t, keep) == (if keep(e) then [e] else []) + Select(t, keep)
  {
    assert ([e] + t)[0] == e;
    assert ([e] + t)[1..] == t;
  }

  /** What a view keeps of one iteration: each of its effects, if the view keeps it. */
  lemma SelectFileSteps(path: string, outcome: ConvertOutcome, keep: Event -> bool)
    ensures Select(FileSteps(path, outcome), keep)
      == (if keep(SetStatus(Converting(path))) then [SetStatus(Converting(path))] else [])
       + (if keep(Convert(path)) then [Convert(path)] else [])
       + Select(FailureStep(path, outcome), keep)
  {
    var a := SetStatus(Converting(path));
    var log := FailureStep(path, outcome);
    assert FileSteps(path, outcome) == [a] + ([Convert(path)] + log);
    SelectCons(a, [Convert(path)] + log, keep);
    SelectCons(Convert(path), log, keep);
  }

  /** The loop trace grows by one iteration's effects per file. */
  lemma LoopTraceStep(files: seq<string>, i: nat, convert: string -> ConvertOutcome)
    requires i < |files|
    ensures LoopTrace(files[..i + 1], convert) == LoopTrace(files[..i], convert) + FileSteps(files[i], convert(files[i]))
  {
    assert files[..i + 1][..i] == files[..i];
  }

  lemma {:induction false} LoopStatusWrites(files: seq<string>, convert: string -> ConvertOutcome)
    ensures Select(LoopTrace(files, convert), IsStatusWrite) == ConvertingWrites(files)
    decreases |files|
  {
    if files != [] {
      var init, last := files[..|files| - 1], files[|files| - 1];
      LoopStatusWrites(init, convert);
      SelectAppend(LoopTrace(init, convert), FileSteps(last, convert(last)), IsStatusWrite);
      SelectFileSteps(last, convert(last), IsStatusWrite);
      assert Select(FileSteps(last, convert(last)), IsStatusWrite) == [SetStatus(Converting(last))];
      assert ConvertingWrites(files) == ConvertingWrites(init) + [SetStatus(Converting(last))];
    }
  }

  lemma {:induction false} LoopConverterCalls(files: seq<string>, convert: string -> ConvertOutcome)
    ensures Select(LoopTrace(files, convert), IsConverterCall) == ConverterCalls(files)
    decreases |files|
  {
    if files != [] {
      var init, last := files[..|files| - 1], files[|files| - 1];
      LoopConverterCalls(init, convert);
      SelectAppend(LoopTrace(init, convert), FileSteps(last, convert(last)), IsConverterCall);
      SelectFileSteps(last, convert(last), IsConverterCall);
      assert Select(FileSteps(last, convert(last)), IsConverterCall) == [Convert(last)];
      assert ConverterCalls(files) == ConverterCalls(init) + [Convert(last)];
    }
  }

  lemma {:induction false} LoopDialogs(files: seq<string>, convert: string -> ConvertOutcome)
    ensures Select(LoopTrace(files, convert), IsDialog) == []
    decreases |files|
  {
    if files != [] {
      var init, last := files[..|files| - 1], files[|files| - 1];
      LoopDialogs(init, convert);
      SelectAppend(LoopTrace(init, convert), FileSteps(last, convert(last)), IsDialog);
      SelectFileSteps(last, convert(last), IsDialog);
      assert Select(FileSteps(last, convert(last)), IsDialog) == [];
    }
  }

  lemma {:induction false} LoopVisible(files: seq<string>, convert: string -> ConvertOutcome)
    ensures Select(LoopTrace(files, convert), IsVisible) == LoopTrace(files, AllConverted)
    decreases |files|
  {
    if files != [] {
      var init, last := files[..|files| - 1], files[|files| - 1];
      LoopVisible(init, convert);
      SelectAppend(LoopTrace(init, convert), FileSteps(last, convert(last)), IsVisible);
      SelectFileSteps(last, convert(last), IsVisible);
      assert Select(FileSteps(last, convert(last)), IsVisible) == FileSteps(last, Converted);
    }
  }

  lemma {:induction false} FailureLogSnoc(files: seq<string>, convert: string -> ConvertOutcome)
    requires files != []
    ensures FailureLog(files, convert)
      == FailureLog(files[..|files| - 1], convert) + FailureStep(files[|files| - 1], convert(files[|files| - 1]))
    decreases |files|
  {
    if |files| == 1 {
      assert files[..0] == [];
      assert files[1..] == [];
    } else {
      FailureLogSnoc(files[1..], convert);
      assert files[1..][..|files| - 2] == files[..|files| - 1][1..];
      assert files[..|files| - 1][0] == files[0];
    }
  }

  lemma SelectFailureStep(path: string, outcome: ConvertOutcome)
    ensures Select(FailureStep(path, outcome), IsLogLine) == FailureStep(path, outcome)
  {
    if outcome.Failed? {
      SelectCons(LogFailure(path, outcome.detail), [], IsLogLine);
    }
  }

  lemma {:induction false} LoopLog(files: seq<string>, convert: string -> ConvertOutcome)
    ensures Select(LoopTrace(files, convert), IsLogLine) == FailureLog(files, convert)
    decreases |files|
  {
    if files != [] {
      var init, last := files[..|files| - 1], files[|files| - 1];
      LoopLog(init, convert);
      SelectAppend(LoopTrace(init, convert), FileSteps(last, convert(last)), IsLogLine);
      SelectFileSteps(last, convert(last), IsLogLine);
      SelectFailureStep(last, convert(last));
      FailureLogSnoc(files, convert);
    }
  }

  /** The three effects that close a run of `convert_files`. */
  function RunEnd(total: nat): seq<Event> {
    [SetStatus(Complete), Show(SuccessNotice(total)), SetStatus(Ready)]
  }

  lemma SelectRunEnd(total: nat, keep: Event -> bool)
    ensures Select(RunEnd(total), keep)
      == (if keep(SetStatus(Complete)) then [SetStatus(Complete)] else [])
       + (if keep(Show(SuccessNotice(total))) then [Show(SuccessNotice(total))] else [])
       + (if keep(SetStatus(Ready)) then [SetStatus(Ready)] else [])
  {
    var a, b, c := SetStatus(Complete), Show(SuccessNotice(total)), SetStatus(Ready);
    assert RunEnd(total) == [a] + ([b] + ([c] + []));
    SelectCons(a, [b] + ([c] + []), keep);
    SelectCons(b, [c] + [], keep);
    SelectCons(c, [], keep);
  }

  /** What a view keeps of a whole run: the start, the loop and the three closing effects. */
  lemma SelectRun(files: seq<string>, convert: string -> ConvertOutcome, keep: Event -> bool)
    ensures Select(ConvertTrace(files, convert), keep)
      == (if keep(SetStatus(Processing(|files|))) then [SetStatus(Processing(|files|))] else [])
       + Select(LoopTrace(files, convert), keep)
       + Select(RunEnd(|files|), keep)
  {
    var head := [SetStatus(Processing(|files|))];
    var loop := LoopTrace(files, convert);
    assert ConvertTrace(files, convert) == head + loop + RunEnd(|files|);
    SelectAppend(head + loop, RunEnd(|files|), keep);
    SelectAppend(head, loop, keep);
    SelectCons(SetStatus(Processing(|files|)), [], keep);
  }

  // ---------------------------------------------------------------------------
  // What a run of convert_files shows, whatever the converter does.

  /** The status label goes through a fixed sequence: the count, each file's base name in
      order, completion, then ready again; failures change none of it. */
  lemma ConvertStatusWrites(files: seq<string>, convert: string -> ConvertOutcome)
    ensures Select(ConvertTrace(files, convert), IsStatusWrite)
      == [SetStatus(Processing(|files|))] + ConvertingWrites(files)
         + [SetStatus(Complete), SetStatus(Ready)]
  {
    SelectRun(files, convert, IsStatusWrite);
    SelectRunEnd(|files|, IsStatusWrite);
    LoopStatusWrites(files, convert);
  }

  /** The converter is called exactly once per file, in order: a failure never stops the
      files after it. */
  lemma ConvertCallsEveryFile(files: seq<string>, convert: string -> ConvertOutcome)
    ensures Select(ConvertTrace(files, convert), IsConverterCall) == ConverterCalls(files)
  {
    SelectRun(files, convert, IsConverterCall);
    SelectRunEnd(|files|, IsConverterCall);
    LoopConverterCalls(files, convert);
  }

  /** The one dialog of a run is the success notice citing the number of files attempted,
      not the number converted. */
  lemma ConvertNoticeCitesTotal(files: seq<string>, convert: string -> ConvertOutcome)
    ensures Select(ConvertTrace(files, convert), IsDialog) == [Show(SuccessNotice(|files|))]
  {
    SelectRun(files, convert, IsDialog);
    SelectRunEnd(|files|, IsDialog);
    LoopDialogs(files, convert);
  }

  /** The console log holds one line per failed file, in order. */
  lemma ConvertLogsFailures(files: seq<string>, convert: string -> ConvertOutcome)
    ensures Select(ConvertTrace(files, convert), IsLogLine) == FailureLog(files, convert)
  {
    SelectRun(files, convert, IsLogLine);
    SelectRunEnd(|files|, IsLogLine);
    LoopLog(files, convert);
  }

  /** Per-file failure isolation: apart from the console log, a run looks the same whatever
      the converter does with each file. */
  lemma ConvertOutcomesOnlyReachLog(files: seq<string>, c1: string -> ConvertOutcome, c2: string -> ConvertOutcome)
    ensures Select(ConvertTrace(files, c1), IsVisible) == Select(ConvertTrace(files, c2), IsVisible)
  {
    SelectRun(files, c1, IsVisible);
    SelectRun(files, c2, IsVisible);
    LoopVisible(files, c1);
    LoopVisible(files, c2);
  }

  /** Three files, only the second of which fails: the third is still converted, the notice
      still cites three and the console shows the one failure. */
  lemma SecondOfThreeFails(files: seq<string>, convert: string -> ConvertOutcome)
    requires |files| == 3
    requires convert(files[0]).Converted? && convert(files[1]).Failed? && convert(files[2]).Converted?
    ensures Select(ConvertTrace(files, convert), IsConverterCall)
      == [Convert(files[0]), Convert(files[1]), Convert(files[2])]
    ensures Select(ConvertTrace(files, convert), IsDialog) == [Show(SuccessNotice(3))]
    ensures Select(ConvertTrace(files, convert), IsLogLine) == [LogFailure(files[1], convert(files[1]).detail)]
  {
    ConvertCallsEveryFile(files, convert);
    ConvertNoticeCitesTotal(files, convert);
    ConvertLogsFailures(files, convert);
    assert files[1..][1..] == [files[2]];
    assert FailureLog([files[2]], convert) == [];
    assert FailureLog(files[1..], convert) == [LogFailure(files[1], convert(files[1]).detail)];
  }

  // ---------------------------------------------------------------------------
  // What a drop shows.

  /** The converter sees exactly the .docx paths of the payload, once each, in payload order;
      none at all when the payload holds no .docx path. */
  lemma DropConvertsDocxOnly(data: string, convert: string -> ConvertOutcome)
    ensures Select(DropTrace(data, convert), IsConverterCall)
      == ConverterCalls(FilterDocx(ParseDroppedFiles(data)))
  {
    match SelectDocx(data)
    case Failure(message) =>
      assert FilterDocx(ParseDroppedFiles(data)) == [] by {
        FilterEmptyIff(ParseDroppedFiles(data));
      }
    case Success(docx) =>
      ConvertCallsEveryFile(docx, convert);
  }

  /** A payload without a .docx path shows only the error dialog: the status label is not
      written and nothing is converted. */
  lemma DropWithoutDocx(data: string, convert: string -> ConvertOutcome)
    requires forall k :: 0 <= k < |ParseDroppedFiles(data)| ==> !IsDocx(ParseDroppedFiles(data)[k])
    ensures Select(DropTrace(data, convert), IsStatusWrite) == []
    ensures Select(DropTrace(data, convert), IsConverterCall) == []
    ensures Select(DropTrace(data, convert), IsDialog) == [Show(NoDocxError)]
  {
  }

  // ---------------------------------------------------------------------------
  // The application state.

  /** The part of `DocxToPdfApp` the workflow touches: the status label's text, and the
      record of everything the application has shown or done so far. */
  class App {
    var status: string
    var effects: seq<Event>

    /** A new window shows "Ready" and has done nothing yet. */
    constructor ()
      ensures status == Label(Ready) && effects == []
    {
      status := Label(Ready);
      effects := [];
    }

    /** `update_status`: the label shows the text of `s`. */
    method UpdateStatus(s: StatusText)
      modifies this
      ensures status == Label(s)
      ensures effects == old(effects) + [SetStatus(s)]
    {
      status := Label(s);
      effects := effects + [SetStatus(s)];
    }

    /** One iteration of the loop of `convert_files`: name the file on the label, call the
        converter, and print the error if it raises. */
    method ConvertOne(path: string, convert: string -> ConvertOutcome)
      modifies this
      ensures status == Label(Converting(path))
      ensures effects == old(effects) + FileSteps(path, convert(path))
    {
      UpdateStatus(Converting(path));
      effects := effects + [Convert(path)];
      var outcome := convert(path);
      match outcome {
        case Converted =>
        case Failed(detail) =>
          effects := effects + [LogFailure(path, detail)];
      }
    }

    /** The end of `convert_files`: completion on the label, the success notice citing
        `total`, then the label back to ready. */
    method FinishRun(total: nat)
      modifies this
      ensures status == Label(Ready)
      ensures effects == old(effects) + RunEnd(total)
    {
      UpdateStatus(Complete);
      effects := effects + [Show(SuccessNotice(total))];
      UpdateStatus(Ready);
    }

    /** `convert_files`: the whole run, with the external converter behaving as `convert`. */
    method ConvertFiles(files: seq<string>, convert: string -> ConvertOutcome)
      modifies this
      ensures status == Label(Ready)
      ensures effects == old(effects) + ConvertTrace(files, convert)
    {
      var total := |files|;
      UpdateStatus(Processing(total));
      var i := 0;
      assert LoopTrace(files[..0], convert) == [];
      while i < |files|
        invariant 0 <= i <= |files|
        invariant effects == old(effects) + [SetStatus(Processing(total))] + LoopTrace(files[..i], convert)
      {
        ConvertOne(files[i], convert);
        LoopTraceStep(files, i, convert);
        i := i + 1;
      }
      assert files[..i] == files;
      ghost var looped := effects;
      FinishRun(total);
      assert effects == looped + RunEnd(total);
    }

    /** `drop_files`: parse the payload, keep the .docx paths, then either show the error
        and stop or convert them. */
    method DropFiles(data: string, convert: string -> ConvertOutcome)
      modifies this
      ensures effects == old(effects) + DropTrace(data, convert)
      ensures SelectDocx(data).Failure? ==> status == old(status)
      ensures SelectDocx(data).Success? ==> status == Label(Ready)
    {
      var selection := SelectDocx(data);
      match selection {
        case Failure(_) =>
          effects := effects + [Show(NoDocxError)];
        case Success(docx) =>
          ConvertFiles(docx, convert);
      }
    }
  }
}
