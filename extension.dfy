/**
 * The two commands of the extension. `executeSelection` extracts the code
 * with its own inline copy of the four extraction modes (do-while loops, no
 * bound check when scanning down), strips one final newline, asks for a
 * runtime when none was found, and hands the text to `executeAt`.
 * `execute`, the command behind the code lenses, checks its arguments and
 * the configured confirmation before it does the same.
 */
module Extension {
  import opened Wrappers
  import opened Strings
  import opened Host
  import opened Types
  import opened SelectionExtractor
  import ExecuteAt

  const NoActiveEditor := "Could not detect an active editor."
  const NothingSelected := "Nothing selected"
  const NoRuntimeSelected := "No runtime selected."
  const EmptyCommand := "Empty command, nothing to execute."
  const ExecutionCancelled := "Execution cancelled."

  /** The handler's own copy of `addLineToSelection`. */
  function NewSelection(line: string, start: int, stop: int): string
  {
    var selection := Trim(Substring(line, start, stop));
    if selection != "" && !StartsWith(selection, "//") then selection + "\n" else ""
  }

  /** The copy agrees with the extractor's helper on every input. */
  lemma NewSelectionIsAddLineToSelection(line: string, start: int, stop: int)
    ensures NewSelection(line, start, stop) == AddLineToSelection(line, start, stop)
  {
  }

  /** `newSelection(documentLines[i].trim(), 0, documentLines[i].length)`, as the fence scans call it. */
  method NewTrimmedSelection(line: string) returns (piece: string)
    ensures piece == KeepLine(line)
  {
    piece := NewSelection(Trim(line), 0, |line|);
    NewSelectionIsAddLineToSelection(Trim(line), 0, |line|);
    AddTrimmedLine(line);
  }

  /** How the inline extraction ends. */
  datatype InlineResult =
      /** Case 1 read past the last line: `documentLines[i].trim()` throws. */
    | Faulted
      /** Case 2 with the cursor on line 0 or 1: the handler returns silently. */
    | Aborted
    | Extracted(text: string, runtime: Option<Runtime>)

  /** Case 1: down from an opening marker to the first bare fence, which must exist. */
  function InlineOpening(lines: seq<string>, cursorLine: nat, runtime: Runtime): InlineResult
    requires cursorLine < |lines|
  {
    var e := FenceEnd(lines, cursorLine + 1);
    if e == |lines| then Faulted else Extracted(Block(lines, cursorLine + 1, e), Some(runtime))
  }

  /** Case 2: up from a closing fence to the nearest marker. */
  function InlineClosing(lines: seq<string>, cursorLine: nat): InlineResult
    requires cursorLine < |lines|
  {
    if cursorLine < 2 then Aborted
    else
      var r := ClosingFenceResult(lines, cursorLine);
      Extracted(r.text, r.runtime)
  }

  /** What the inline extraction of the handler yields for the lines and the selection. */
  function InlineExtraction(lines: seq<string>, selection: Selection): InlineResult
    requires selection.start.line < |lines|
    requires selection.start.line <= selection.end.line ==> selection.end.line < |lines|
  {
    if selection.IsEmpty() then
      var cursorLine := selection.start.line;
      var runtime := DetectRuntime(lines[cursorLine]);
      if runtime.Some? then InlineOpening(lines, cursorLine, runtime.value)
      else if StartsWith(Trim(lines[cursorLine]), "```") then InlineClosing(lines, cursorLine)
      else
        var r := SingleLineResult(lines, cursorLine);
        Extracted(r.text, r.runtime)
    else Extracted(MultiLineText(lines, selection), None)
  }

  // ---------------------------------------------------------------------------
  // The inline loops.
  // ---------------------------------------------------------------------------

  method InlineCaseOne(documentLines: seq<string>, cursorLine: nat, runtime: Runtime)
    returns (r: InlineResult)
    requires cursorLine < |documentLines|
    ensures r == InlineOpening(documentLines, cursorLine, runtime)
  {
    var selectedText := "";
    var i: int := cursorLine + 1;
    var reachedEnd := false;
    while true
      invariant cursorLine + 1 <= i <= |documentLines|
      invariant FenceEnd(documentLines, cursorLine + 1) == FenceEnd(documentLines, i)
      invariant selectedText == Block(documentLines, cursorLine + 1, i)
      decreases |documentLines| - i
    {
      if i == |documentLines| {
        // `documentLines[i]` is undefined here.
        return Faulted;
      }
      if IsFence(documentLines[i]) {
        reachedEnd := true;
      } else {
        var piece := NewTrimmedSelection(documentLines[i]);
        selectedText := selectedText + piece;
        i := i + 1;
      }
      if !(i >= 0 && !reachedEnd) {
        break;
      }
    }
    return Extracted(selectedText, Some(runtime));
  }

  method InlineCaseTwo(documentLines: seq<string>, cursorLine: nat)
    returns (r: InlineResult)
    requires cursorLine < |documentLines|
    ensures r == InlineClosing(documentLines, cursorLine)
  {
    if cursorLine < 2 {
      return Aborted;
    }
    var selectedText := "";
    var runtime: Option<Runtime> := None;
    var i: int := cursorLine - 1;
    var reachedEnd := false;
    while true
      invariant 0 <= i <= cursorLine - 1
      invariant MarkerAbove(documentLines, cursorLine - 1) == MarkerAbove(documentLines, i)
      invariant selectedText == BlockBackward(documentLines, i + 1, cursorLine)
      decreases i
    {
      runtime := DetectTrimmedRuntime(documentLines[i]);
      if runtime.Some? {
        reachedEnd := true;
        selectedText := ReverseLines(selectedText);
        ClosingFenceWithMarker(documentLines, cursorLine, i);
      } else {
        var piece := NewTrimmedSelection(documentLines[i]);
        ClosingScanStep(documentLines, cursorLine, i);
        selectedText := selectedText + piece;
        i := i - 1;
      }
      if !(i >= 0 && !reachedEnd) {
        break;
      }
    }
    if !reachedEnd {
      ClosingFenceWithoutMarker(documentLines, cursorLine);
    }
    return Extracted(selectedText, runtime);
  }

  method InlineCaseThree(documentLines: seq<string>, cursorLine: nat)
    returns (r: InlineResult)
    requires cursorLine < |documentLines|
    ensures r == Extracted(SingleLineResult(documentLines, cursorLine).text, SingleLineResult(documentLines, cursorLine).runtime)
  {
    var selectedText := Trim(documentLines[cursorLine]);
    var runtime: Option<Runtime> := None;
    var i: int := cursorLine;
    var reachedEnd := false;
    while true
      invariant 0 <= i <= cursorLine
      invariant MarkerAbove(documentLines, cursorLine) == MarkerAbove(documentLines, i)
      decreases i
    {
      runtime := DetectTrimmedRuntime(documentLines[i]);
      if runtime.Some? {
        reachedEnd := true;
      } else {
        i := i - 1;
      }
      if !(i >= 0 && !reachedEnd) {
        break;
      }
    }
    return Extracted(selectedText, runtime);
  }

  /** The handler's own loop over a non-empty selection. */
  method InlineRange(documentLines: seq<string>, selection: Selection) returns (selectedText: string)
    requires selection.start.line <= selection.end.line ==> selection.end.line < |documentLines|
    ensures selectedText == MultiLineText(documentLines, selection)
  {
    selectedText := "";
    if selection.start.line > selection.end.line {
      return;
    }
    for i := selection.start.line to selection.end.line + 1
      invariant selectedText == RangeText(documentLines, selection, i)
    {
      var from, to;
      if selection.start.line == selection.end.line {
        from, to := selection.start.character, selection.end.character;
      } else if i == selection.start.line {
        from, to := selection.start.character, |documentLines[i]|;
      } else if i == selection.end.line {
        from, to := 0, selection.end.character;
      } else {
        from, to := 0, |documentLines[i]|;
      }
      NewSelectionIsAddLineToSelection(documentLines[i], from, to);
      selectedText := selectedText + NewSelection(documentLines[i], from, to);
    }
  }

  method ExtractInline(documentLines: seq<string>, selection: Selection) returns (r: InlineResult)
    requires selection.start.line < |documentLines|
    requires selection.start.line <= selection.end.line ==> selection.end.line < |documentLines|
    ensures r == InlineExtraction(documentLines, selection)
  {
    if selection.IsEmpty() {
      var cursorLine := selection.start.line;
      var lineAtCursor := documentLines[cursorLine];
      var runtime := DetectTrimmedRuntime(lineAtCursor);
      if runtime.Some? {
        r := InlineCaseOne(documentLines, cursorLine, runtime.value);
      } else if StartsWith(Trim(lineAtCursor), "```") {
        r := InlineCaseTwo(documentLines, cursorLine);
      } else {
        r := InlineCaseThree(documentLines, cursorLine);
      }
    } else {
      var text := InlineRange(documentLines, selection);
      r := Extracted(text, None);
    }
  }

  // ---------------------------------------------------------------------------
  // How the inline extraction relates to the extractor's helpers.
  // ---------------------------------------------------------------------------

  /** Case 1 faults exactly when no bare fence follows the opening marker. */
  lemma OpeningFaultsIffUnterminated(lines: seq<string>, cursorLine: nat, runtime: Runtime)
    requires cursorLine < |lines|
    ensures InlineOpening(lines, cursorLine, runtime) == Faulted
        <==> forall k :: cursorLine < k < |lines| ==> !IsFence(lines[k])
  {
    FenceEndIsFirst(lines, cursorLine + 1);
    var e := FenceEnd(lines, cursorLine + 1);
    if e < |lines| {
      assert IsFence(lines[e]);
    }
  }

  /**
   * The inline extraction and `extractSelectionFromEditor` agree, except that
   * case 1 faults where the helper stops at the end of the document and case
   * 2 aborts where the helper returns an empty result.
   */
  lemma InlineAgreesWithHelpers(lines: seq<string>, selection: Selection)
    requires selection.start.line < |lines|
    requires selection.start.line <= selection.end.line ==> selection.end.line < |lines|
    ensures var c := selection.start.line;
      var inline := InlineExtraction(lines, selection);
      && (inline.Faulted? <==> selection.IsEmpty() && DetectRuntime(lines[c]).Some?
                                && forall k :: c < k < |lines| ==> !IsFence(lines[k]))
      && (inline.Aborted? <==> selection.IsEmpty() && DetectRuntime(lines[c]).None?
                                && StartsWith(Trim(lines[c]), "```") && c < 2)
      && (inline.Aborted? ==> ExtractSelection(lines, selection) == SelectionResult("", None))
      && (inline.Extracted? ==> ExtractSelection(lines, selection) == SelectionResult(inline.text, inline.runtime))
  {
    var c := selection.start.line;
    if selection.IsEmpty() && DetectRuntime(lines[c]).Some? {
      OpeningFaultsIffUnterminated(lines, c, DetectRuntime(lines[c]).value);
    }
  }

  // ---------------------------------------------------------------------------
  // The `executeSelection` command.
  // ---------------------------------------------------------------------------

  /** The active editor: the document's text and its selection. */
  datatype Editor = Editor(documentText: string, selection: Selection)

  /** The selection lies inside the document, as the editor guarantees. */
  predicate ValidEditor(editor: Editor) {
    var lineCount := |Split(editor.documentText, '\n')|;
    && editor.selection.start.line < lineCount
    && (editor.selection.start.line <= editor.selection.end.line ==> editor.selection.end.line < lineCount)
  }

  /** The effects of one run of the handler, and whether it ended with an exception. */
  datatype Outcome = Outcome(events: seq<Event>, faulted: bool)

  /** The runtime string that reaches `executeAt`. */
  function RuntimeArgument(runtime: Option<Runtime>): Option<string>
  {
    if runtime.Some? then Some(RuntimeValue(runtime.value)) else None
  }

  /** After extraction: strip one newline, then run what is left. */
  function RunExtracted(text: string, runtime: Option<Runtime>, picked: Option<Runtime>, available: string -> bool): seq<Event>
  {
    RunStripped(RemoveTrailingNewline(text), runtime, picked, available)
  }

  /** Refuse empty text, ask for a missing runtime, run. */
  function RunStripped(selectedText: string, runtime: Option<Runtime>, picked: Option<Runtime>, available: string -> bool): seq<Event>
  {
    if selectedText == "" then [ShowInformationMessage(NothingSelected)]
    else if runtime.Some? then ExecuteAt.ExecuteAtEvents(RuntimeArgument(runtime), selectedText, available)
    else [PickRuntime] + ExecuteAt.ExecuteAtEvents(RuntimeArgument(picked), selectedText, available)
  }

  /**
   * The whole handler; `picked` is what the runtime quick pick returns if it
   * is shown (`None` when it is dismissed).
   */
  function ExecuteSelectionOutcome(editor: Option<Editor>, picked: Option<Runtime>, available: string -> bool): Outcome
    requires editor.Some? ==> ValidEditor(editor.value)
  {
    if editor.None? then Outcome([ShowInformationMessage(NoActiveEditor)], false)
    else
      match InlineExtraction(Split(editor.value.documentText, '\n'), editor.value.selection)
      case Faulted => Outcome([], true)
      case Aborted => Outcome([], false)
      case Extracted(text, runtime) => Outcome(RunExtracted(text, runtime, picked, available), false)
  }

  method ExecuteSelection(editor: Option<Editor>, picked: Option<Runtime>, available: string -> bool)
    returns (outcome: Outcome)
    requires editor.Some? ==> ValidEditor(editor.value)
    ensures outcome == ExecuteSelectionOutcome(editor, picked, available)
  {
    if editor.None? {
      return Outcome([ShowInformationMessage(NoActiveEditor)], false);
    }
    var documentLines := Split(editor.value.documentText, '\n');
    var extracted := ExtractInline(documentLines, editor.value.selection);
    if extracted.Faulted? {
      return Outcome([], true);
    }
    if extracted.Aborted? {
      return Outcome([], false);
    }
    var events := RunSelection(extracted.text, extracted.runtime, picked, available);
    outcome := Outcome(events, false);
  }

  /** The second half of the handler, from the extracted text to `executeAt`. */
  method RunSelection(text: string, runtime: Option<Runtime>, picked: Option<Runtime>, available: string -> bool)
    returns (events: seq<Event>)
    ensures events == RunExtracted(text, runtime, picked, available)
  {
    var selectedText := text;
    if EndsWith(selectedText, "\n") {
      selectedText := Substring(selectedText, 0, |selectedText| - 1);
    }
    assert selectedText == RemoveTrailingNewline(text);
    if selectedText == "" {
      return [ShowInformationMessage(NothingSelected)];
    }
    events := [];
    var chosen := runtime;
    if chosen.None? {
      events := events + [PickRuntime];
      chosen := picked;
    }
    var executed := ExecuteAt.ExecuteAt(RuntimeArgument(chosen), selectedText, available);
    events := events + executed;
  }

  /** One run of the handler executes at most once, and not at all when it faults, aborts or finds nothing. */
  lemma ExecuteSelectionAtMostOnce(editor: Option<Editor>, picked: Option<Runtime>, available: string -> bool)
    requires editor.Some? ==> ValidEditor(editor.value)
    ensures var o := ExecuteSelectionOutcome(editor, picked, available);
      && ExecuteCount(o.events) <= 1
      && (o.faulted ==> o.events == [])
      && (ShowInformationMessage(NothingSelected) in o.events ==> ExecuteCount(o.events) == 0)
  {
    if editor.Some? {
      var lines := Split(editor.value.documentText, '\n');
      var inline := InlineExtraction(lines, editor.value.selection);
      if inline.Extracted? {
        RunExtractedAtMostOnce(inline.text, inline.runtime, picked, available);
      }
    }
  }

  lemma RunExtractedAtMostOnce(text: string, runtime: Option<Runtime>, picked: Option<Runtime>, available: string -> bool)
    ensures var e := RunExtracted(text, runtime, picked, available);
      && ExecuteCount(e) <= 1
      && (ShowInformationMessage(NothingSelected) in e ==> ExecuteCount(e) == 0)
  {
    var selectedText := RemoveTrailingNewline(text);
    if selectedText != "" {
      var chosen := if runtime.Some? then runtime else picked;
      var executed := ExecuteAt.ExecuteAtEvents(RuntimeArgument(chosen), selectedText, available);
      ExecuteAt.AtMostOneExecute(RuntimeArgument(chosen), selectedText, available);
      ExecuteAt.OnlyMissingMessages(RuntimeArgument(chosen), selectedText, available);
      if runtime.None? {
        ExecuteCountAppend([PickRuntime], executed);
        assert ExecuteCount([PickRuntime]) == 0;
      }
    }
  }

  /** A non-empty range selection leaves the runtime unknown, so the user is always asked for one first. */
  lemma RangeSelectionAsksForRuntime(editor: Editor, picked: Option<Runtime>, available: string -> bool)
    requires ValidEditor(editor) && !editor.selection.IsEmpty()
    requires RemoveTrailingNewline(MultiLineText(Split(editor.documentText, '\n'), editor.selection)) != ""
    ensures var o := ExecuteSelectionOutcome(Some(editor), picked, available);
      && !o.faulted
      && |o.events| > 0 && o.events[0] == PickRuntime
  {
  }

  /** Exactly one newline is stripped, and text that is then empty is reported and not run. */
  lemma EmptyExtractionIsReported(text: string, runtime: Option<Runtime>, picked: Option<Runtime>, available: string -> bool)
    ensures RunExtracted(text, runtime, picked, available) == [ShowInformationMessage(NothingSelected)]
        <==> text == "" || text == "\n"
  {
    if text != "" && text != "\n" {
      var selectedText := RemoveTrailingNewline(text);
      if EndsWith(text, "\n") {
        assert |selectedText| == |text| - 1 > 0;
      }
      assert selectedText != "";
      RunExtractedIsNotTheMessage(selectedText, runtime, picked, available);
    } else if text == "\n" {
      assert EndsWith(text, "\n");
    }
  }

  lemma RunExtractedIsNotTheMessage(selectedText: string, runtime: Option<Runtime>, picked: Option<Runtime>, available: string -> bool)
    requires selectedText != ""
    ensures RunStripped(selectedText, runtime, picked, available) != [ShowInformationMessage(NothingSelected)]
  {
    var chosen := if runtime.Some? then runtime else picked;
    var e := ExecuteAt.ExecuteAtEvents(RuntimeArgument(chosen), selectedText, available);
    if runtime.Some? {
      ExecuteAt.OnlyMissingMessages(RuntimeArgument(runtime), selectedText, available);
      assert |NothingSelected| != |ExecuteAt.PythonMissing| && |NothingSelected| != |ExecuteAt.TypeScriptMissing|;
      assert ShowInformationMessage(NothingSelected) !in e;
    } else {
      assert ([PickRuntime] + e)[0] == PickRuntime;
    }
  }

  // ---------------------------------------------------------------------------
  // The `execute` command.
  // ---------------------------------------------------------------------------

  /** A JavaScript truthy string: present and non-empty. */
  predicate Truthy(s: Option<string>) {
    s.Some? && s.value != ""
  }

  /** The confirmation modes that show a prompt; any other setting shows none and yields no choice. */
  predicate IsPromptMode(mode: string) {
    mode == "pick" || mode == "message" || mode == "modal"
  }

  /**
   * The effects of the `execute` command: `confirmation` is the configured
   * setting and `answer` what the user picks if a prompt is shown.
   */
  function ExecuteCommandEvents(args: Option<CommandArgs>, confirmation: string, answer: Option<string>, available: string -> bool): seq<Event>
  {
    if args.None? || !Truthy(args.value.runtime) then [ShowInformationMessage(NoRuntimeSelected)]
    else if !Truthy(args.value.command) then [ShowInformationMessage(EmptyCommand)]
    else
      var run := ExecuteAt.ExecuteAtEvents(args.value.runtime, args.value.command.value, available);
      if confirmation == "none" then run
      else if !IsPromptMode(confirmation) then [ShowInformationMessage(ExecutionCancelled)]
      else if answer != Some("Execute") then [Confirm(confirmation), ShowInformationMessage(ExecutionCancelled)]
      else [Confirm(confirmation)] + run
  }

  /** A missing runtime or command stops the command with exactly one message. */
  lemma ExecuteCommandGuards(args: Option<CommandArgs>, confirmation: string, answer: Option<string>, available: string -> bool)
    ensures args.None? || !Truthy(args.value.runtime)
        ==> ExecuteCommandEvents(args, confirmation, answer, available) == [ShowInformationMessage(NoRuntimeSelected)]
    ensures args.Some? && Truthy(args.value.runtime) && !Truthy(args.value.command)
        ==> ExecuteCommandEvents(args, confirmation, answer, available) == [ShowInformationMessage(EmptyCommand)]
  {
  }

  /**
   * The command reaches `executeAt` exactly when both arguments are present
   * and either no confirmation is configured or the user chose "Execute";
   * it then runs `executeAt` once, after the prompt if there was one.
   */
  lemma ExecuteCommandRunsIffConfirmed(args: Option<CommandArgs>, confirmation: string, answer: Option<string>, available: string -> bool)
    ensures var confirmed := confirmation == "none" || (IsPromptMode(confirmation) && answer == Some("Execute"));
      var prompt: seq<Event> := if confirmation == "none" then [] else [Confirm(confirmation)];
      var e := ExecuteCommandEvents(args, confirmation, answer, available);
      && (args.Some? && Truthy(args.value.runtime) && Truthy(args.value.command) && confirmed
          ==> e == prompt + ExecuteAt.ExecuteAtEvents(args.value.runtime, args.value.command.value, available))
      && (!confirmed ==> ExecuteCount(e) == 0)
      && ExecuteCount(e) <= 1
  {
    var e := ExecuteCommandEvents(args, confirmation, answer, available);
    if args.Some? && Truthy(args.value.runtime) && Truthy(args.value.command) {
      var run := ExecuteAt.ExecuteAtEvents(args.value.runtime, args.value.command.value, available);
      ExecuteAt.AtMostOneExecute(args.value.runtime, args.value.command.value, available);
      if confirmation != "none" && IsPromptMode(confirmation) && answer == Some("Execute") {
        ExecuteCountAppend([Confirm(confirmation)], run);
        assert ExecuteCount([Confirm(confirmation)]) == 0;
      } else if confirmation != "none" && IsPromptMode(confirmation) {
        assert e == [Confirm(confirmation), ShowInformationMessage(ExecutionCancelled)];
        assert e[1..][1..] == [];
      } else if confirmation != "none" {
        assert e[1..] == [];
      }
    } else {
      assert e[1..] == [];
    }
  }
}
