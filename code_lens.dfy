/**
 * The code-lens scanner: one pass over the lines of a markdown document
 * that groups each fenced block opened by a line starting with three
 * backticks and `sh` or `bash` into a lens running the block's text through
 * the `execute` command.
 */
module CodeLens {
  import opened Wrappers
  import opened Strings
  import opened Host
  import opened Types
  import opened SelectionExtractor
  import Extension

  const LensTitle := "Execute command in terminal"
  const ExecuteCommandId := "markdown-execute.execute"

  /**
   * The command the editor runs when a lens is clicked. Every lens carries the
   * same title and command id, so only the arguments are stored.
   */
  datatype Command = Command(arguments: CommandArgs)
  {
    function title(): string { LensTitle }
    function command(): string { ExecuteCommandId }
  }

  datatype CodeLens = CodeLens(range: Range, command: Command)

  /** The document's lines, each trimmed as the scanner reads it. */
  function TrimLines(lines: seq<string>): (r: seq<string>)
    ensures |r| == |lines|
    ensures forall k :: 0 <= k < |lines| ==> r[k] == Trim(lines[k])
  {
    seq(|lines|, k requires 0 <= k < |lines| => Trim(lines[k]))
  }

  /** A trimmed line that starts with a shell fence opens a block; it is a prefix test, so three backticks and `shell` open one too. */
  predicate OpensShellBlock(line: string) {
    StartsWith(line, "```sh") || StartsWith(line, "```bash")
  }

  /** A trimmed line that is exactly three backticks closes a block. */
  predicate IsBareFence(line: string) {
    line == "```"
  }

  /** The lens for a block whose opening fence is on line `commandStartLine`: it spans that line, and carries only the text. */
  function CommandBlockLens(currentCommand: string, commandStartLine: nat): CodeLens
  {
    CodeLens(Range(Position(commandStartLine, 0), Position(commandStartLine + 1, 0)),
             Command(CommandArgs(None, Some(currentCommand))))
  }

  /** The scanner's variables between two lines. */
  datatype ScanState = ScanState(inCommand: bool, currentCommand: string, commandStartLine: nat, codeLenses: seq<CodeLens>)

  const Initial := ScanState(false, "", 0, [])

  /** What the scanner does with the trimmed line `line`, number `i`. */
  function Step(state: ScanState, line: string, i: nat): ScanState
  {
    if !state.inCommand && OpensShellBlock(line) then state.(inCommand := true, commandStartLine := i)
    else if state.inCommand && !IsBareFence(line) then state.(currentCommand := state.currentCommand + line + "\n")
    else if state.inCommand then
      ScanState(false, "", state.commandStartLine, state.codeLenses + [CommandBlockLens(state.currentCommand, state.commandStartLine)])
    else state
  }

  /** The lenses the scanner returns when it continues from trimmed line `i` in `state`. */
  function Run(lines: seq<string>, i: nat, state: ScanState): seq<CodeLens>
    requires i <= |lines|
    decreases |lines| - i
  {
    if i == |lines| then state.codeLenses else Run(lines, i + 1, Step(state, lines[i], i))
  }

  method ProvideCodeLenses(documentText: string) returns (codeLenses: seq<CodeLens>)
    ensures codeLenses == Run(TrimLines(Split(documentText, '\n')), 0, Initial)
  {
    codeLenses := [];
    var lines := Split(documentText, '\n');
    ghost var trimmed := TrimLines(lines);
    var inCommand := false;
    var currentCommand := "";
    var commandStartLine: nat := 0;
    for i := 0 to |lines|
      invariant Run(trimmed, i, ScanState(inCommand, currentCommand, commandStartLine, codeLenses)) == Run(trimmed, 0, Initial)
    {
      var line := Trim(lines[i]);
      RunStep(trimmed, i, ScanState(inCommand, currentCommand, commandStartLine, codeLenses));
      if !inCommand && OpensShellBlock(line) {
        inCommand := true;
        commandStartLine := i;
        continue;
      }
      if inCommand {
        if !IsBareFence(line) {
          currentCommand := currentCommand + line + "\n";
          continue;
        }
        codeLenses := codeLenses + [CommandBlockLens(currentCommand, commandStartLine)];
        inCommand := false;
        currentCommand := "";
      }
    }
  }

  lemma RunStep(lines: seq<string>, i: nat, state: ScanState)
    requires i < |lines|
    ensures Run(lines, i, state) == Run(lines, i + 1, Step(state, lines[i], i))
  {
  }

  // ---------------------------------------------------------------------------
  // The reference: the document as a series of closed shell blocks.
  // Every definition below is over the trimmed lines.
  // ---------------------------------------------------------------------------

  /** The first line at or after `i` that opens a shell block, or the end of the document. */
  function NextOpener(lines: seq<string>, i: nat): (o: nat)
    requires i <= |lines|
    ensures i <= o <= |lines|
    decreases |lines| - i
  {
    if i == |lines| || OpensShellBlock(lines[i]) then i else NextOpener(lines, i + 1)
  }

  /** The first bare fence at or after `i`, or the end of the document. */
  function NextFence(lines: seq<string>, i: nat): (c: nat)
    requires i <= |lines|
    ensures i <= c <= |lines|
    decreases |lines| - i
  {
    if i == |lines| || IsBareFence(lines[i]) then i else NextFence(lines, i + 1)
  }

  /** The lines `lo .. hi-1`, each followed by a newline, with nothing filtered out. */
  function BodyText(lines: seq<string>, lo: nat, hi: nat): string
    requires lo <= hi <= |lines|
    decreases hi - lo
  {
    if lo == hi then "" else lines[lo] + "\n" + BodyText(lines, lo + 1, hi)
  }

  /**
   * The lenses of the document from line `i` on, outside a block: the next
   * opener, the first bare fence after it, a lens for the lines between, and
   * so on after that fence. A block without a closing fence contributes nothing.
   */
  function Blocks(lines: seq<string>, i: nat): seq<CodeLens>
    requires i <= |lines|
    decreases |lines| - i
  {
    var o := NextOpener(lines, i);
    if o == |lines| then []
    else
      var c := NextFence(lines, o + 1);
      if c == |lines| then []
      else [CommandBlockLens(BodyText(lines, o + 1, c), o)] + Blocks(lines, c + 1)
  }

  /** The rest of a block opened on line `o` whose text so far is `text`, and the blocks after it. */
  function InsideBlocks(lines: seq<string>, i: nat, o: nat, text: string): seq<CodeLens>
    requires i <= |lines|
  {
    var c := NextFence(lines, i);
    if c == |lines| then [] else [CommandBlockLens(text + BodyText(lines, i, c), o)] + Blocks(lines, c + 1)
  }

  /** Outside a block, where the gathered text is always empty, the scanner emits the reference blocks. */
  lemma {:induction false} RunOutside(lines: seq<string>, i: nat, state: ScanState)
    requires i <= |lines| && !state.inCommand && state.currentCommand == ""
    ensures Run(lines, i, state) == state.codeLenses + Blocks(lines, i)
    decreases |lines| - i, 1
  {
    if i == |lines| {
      assert Blocks(lines, i) == [];
      assert state.codeLenses + [] == state.codeLenses;
    } else {
      var next := Step(state, lines[i], i);
      assert Run(lines, i, state) == Run(lines, i + 1, next);
      if OpensShellBlock(lines[i]) {
        assert next == state.(inCommand := true, commandStartLine := i);
        RunInside(lines, i + 1, next);
        BlocksAtOpener(lines, i);
      } else {
        assert next == state;
        RunOutside(lines, i + 1, state);
        assert NextOpener(lines, i) == NextOpener(lines, i + 1);
      }
    }
  }

  /** At an opening line, the reference blocks are the rest of that block and what follows it. */
  lemma BlocksAtOpener(lines: seq<string>, i: nat)
    requires i < |lines| && OpensShellBlock(lines[i])
    ensures Blocks(lines, i) == InsideBlocks(lines, i + 1, i, "")
  {
    assert NextOpener(lines, i) == i;
    var c := NextFence(lines, i + 1);
    assert "" + BodyText(lines, i + 1, c) == BodyText(lines, i + 1, c);
  }

  /** Inside a block, the scanner finishes it at the next bare fence and then emits the reference blocks. */
  lemma {:induction false} RunInside(lines: seq<string>, i: nat, state: ScanState)
    requires i <= |lines| && state.inCommand
    ensures Run(lines, i, state) == state.codeLenses + InsideBlocks(lines, i, state.commandStartLine, state.currentCommand)
    decreases |lines| - i, 0
  {
    if i == |lines| {
      assert InsideBlocks(lines, i, state.commandStartLine, state.currentCommand) == [];
      assert state.codeLenses + [] == state.codeLenses;
    } else {
      var next := Step(state, lines[i], i);
      assert Run(lines, i, state) == Run(lines, i + 1, next);
      if IsBareFence(lines[i]) {
        var lens := CommandBlockLens(state.currentCommand, state.commandStartLine);
        assert next == ScanState(false, "", state.commandStartLine, state.codeLenses + [lens]);
        RunOutside(lines, i + 1, next);
        InsideAtFence(lines, i, state.commandStartLine, state.currentCommand);
      } else {
        assert next == state.(currentCommand := state.currentCommand + lines[i] + "\n");
        RunInside(lines, i + 1, next);
        InsideStep(lines, i, state.commandStartLine, state.currentCommand);
      }
    }
  }

  /** A bare fence ends the block with the text gathered so far. */
  lemma InsideAtFence(lines: seq<string>, i: nat, o: nat, text: string)
    requires i < |lines| && IsBareFence(lines[i])
    ensures InsideBlocks(lines, i, o, text) == [CommandBlockLens(text, o)] + Blocks(lines, i + 1)
  {
    assert NextFence(lines, i) == i;
    assert text + "" == text;
  }

  /** Any other line inside a block joins its text. */
  lemma InsideStep(lines: seq<string>, i: nat, o: nat, text: string)
    requires i < |lines| && !IsBareFence(lines[i])
    ensures InsideBlocks(lines, i, o, text) == InsideBlocks(lines, i + 1, o, text + lines[i] + "\n")
  {
    var c := NextFence(lines, i);
    assert c == NextFence(lines, i + 1);
    if c < |lines| {
      assert BodyText(lines, i, c) == lines[i] + "\n" + BodyText(lines, i + 1, c);
      assert text + BodyText(lines, i, c) == (text + lines[i] + "\n") + BodyText(lines, i + 1, c);
    }
  }

  /** The scanner's lenses are exactly the reference blocks of the document. */
  lemma ScannerIsBlocks(lines: seq<string>)
    ensures Run(lines, 0, Initial) == Blocks(lines, 0)
  {
    RunOutside(lines, 0, Initial);
  }

  /** On trimmed lines the scanner's bare fence is the extractor's fence line, and both scans stop at the same line. */
  lemma {:induction false} NextFenceIsFenceEnd(lines: seq<string>, i: nat)
    requires i <= |lines|
    ensures NextFence(TrimLines(lines), i) == FenceEnd(lines, i)
    decreases |lines| - i
  {
    if i < |lines| && !IsFence(lines[i]) {
      NextFenceIsFenceEnd(lines, i + 1);
    }
  }

  /** The lens text of a block: every line followed by a newline, so a non-empty one ends with a newline. */
  lemma {:induction false} BodyTextShape(lines: seq<string>, lo: nat, hi: nat)
    requires lo <= hi <= |lines|
    ensures BodyText(lines, lo, hi) == "" <==> lo == hi
    ensures lo < hi ==> EndsWith(BodyText(lines, lo, hi), "\n")
    decreases hi - lo
  {
    if lo < hi {
      BodyTextShape(lines, lo + 1, hi);
      var rest := BodyText(lines, lo + 1, hi);
      var t := lines[lo] + "\n" + rest;
      if rest == "" {
        assert t[|t| - 1..] == "\n";
      } else {
        assert t[|t| - 1..] == rest[|rest| - 1..];
      }
    }
  }

  /** Every lens from line `i` on starts at or after `i`. */
  predicate StartsFrom(lenses: seq<CodeLens>, i: nat) {
    forall k :: 0 <= k < |lenses| ==> lenses[k].range.start.line >= i
  }

  /** The lenses go down the document strictly. */
  predicate InDocumentOrder(lenses: seq<CodeLens>) {
    forall j, k :: 0 <= j < k < |lenses| ==> lenses[j].range.start.line < lenses[k].range.start.line
  }

  lemma {:induction false} BlocksInOrder(lines: seq<string>, i: nat)
    requires i <= |lines|
    ensures StartsFrom(Blocks(lines, i), i) && InDocumentOrder(Blocks(lines, i))
    decreases |lines| - i
  {
    var o := NextOpener(lines, i);
    if o < |lines| {
      var c := NextFence(lines, o + 1);
      if c < |lines| {
        BlocksInOrder(lines, c + 1);
        var rest := Blocks(lines, c + 1);
        var all := [CommandBlockLens(BodyText(lines, o + 1, c), o)] + rest;
        assert Blocks(lines, i) == all;
        assert forall k :: 0 < k < |all| ==> all[k] == rest[k - 1];
      }
    }
  }

  /**
   * Each lens of the reference sits on an opening line `o`, has a bare fence
   * `c` after it with no bare fence in between, spans line `o`, and carries
   * the text of the lines between and no runtime.
   */
  predicate IsClosedBlockLens(lines: seq<string>, lens: CodeLens) {
    var o := lens.range.start.line;
    && o < |lines| && OpensShellBlock(lines[o])
    && lens.range.end == Position(o + 1, 0) && lens.range.start.character == 0
    && lens.command.arguments.runtime.None?
    && exists c :: o < c < |lines| && IsBareFence(lines[c]) && NextFence(lines, o + 1) == c
                   && lens.command.arguments.command == Some(BodyText(lines, o + 1, c))
  }

  lemma {:induction false} BlocksAreClosed(lines: seq<string>, i: nat)
    requires i <= |lines|
    ensures forall k :: 0 <= k < |Blocks(lines, i)| ==> IsClosedBlockLens(lines, Blocks(lines, i)[k])
    decreases |lines| - i
  {
    var o := NextOpener(lines, i);
    NextOpenerIsFirst(lines, i);
    if o < |lines| {
      var c := NextFence(lines, o + 1);
      NextFenceIsFirst(lines, o + 1);
      if c < |lines| {
        BlocksAreClosed(lines, c + 1);
        var rest := Blocks(lines, c + 1);
        var all := [CommandBlockLens(BodyText(lines, o + 1, c), o)] + rest;
        assert Blocks(lines, i) == all;
        assert IsClosedBlockLens(lines, all[0]);
        assert forall k :: 0 < k < |all| ==> all[k] == rest[k - 1];
      }
    }
  }

  lemma {:induction false} NextOpenerIsFirst(lines: seq<string>, i: nat)
    requires i <= |lines|
    ensures var o := NextOpener(lines, i);
      && (o < |lines| ==> OpensShellBlock(lines[o]))
      && (forall k :: i <= k < o ==> !OpensShellBlock(lines[k]))
    decreases |lines| - i
  {
    if i < |lines| && !OpensShellBlock(lines[i]) {
      NextOpenerIsFirst(lines, i + 1);
    }
  }

  lemma {:induction false} NextFenceIsFirst(lines: seq<string>, i: nat)
    requires i <= |lines|
    ensures var c := NextFence(lines, i);
      && (c < |lines| ==> IsBareFence(lines[c]))
      && (forall k :: i <= k < c ==> !IsBareFence(lines[k]))
    decreases |lines| - i
  {
    if i < |lines| && !IsBareFence(lines[i]) {
      NextFenceIsFirst(lines, i + 1);
    }
  }

  lemma {:induction false} NextFenceIs(lines: seq<string>, i: nat, c: nat)
    requires i <= c <= |lines|
    requires c < |lines| ==> IsBareFence(lines[c])
    requires forall k :: i <= k < c ==> !IsBareFence(lines[k])
    ensures NextFence(lines, i) == c
    decreases c - i
  {
    if i < c {
      NextFenceIs(lines, i + 1, c);
    }
  }

  /** A document with no bare fence after its first shell opener gets no lens at all. */
  lemma UnterminatedBlockEmitsNothing(lines: seq<string>)
    requires forall k :: NextOpener(lines, 0) < k < |lines| ==> !IsBareFence(lines[k])
    ensures Run(lines, 0, Initial) == []
  {
    NoClosingFenceNoBlocks(lines);
    ScannerIsBlocks(lines);
  }

  lemma NoClosingFenceNoBlocks(lines: seq<string>)
    requires forall k :: NextOpener(lines, 0) < k < |lines| ==> !IsBareFence(lines[k])
    ensures Blocks(lines, 0) == []
  {
    var o := NextOpener(lines, 0);
    if o < |lines| {
      NextFenceIs(lines, o + 1, |lines|);
      assert NextFence(lines, o + 1) == |lines|;
    } else {
      assert o == |lines|;
    }
  }

  /** The lens passes no runtime, so the `execute` command it runs stops at "No runtime selected." */
  lemma LensCommandHasNoRuntime(lens: CodeLens, confirmation: string, answer: Option<string>, available: string -> bool)
    requires lens.command.arguments.runtime.None?
    ensures Extension.ExecuteCommandEvents(Some(lens.command.arguments), confirmation, answer, available)
         == [ShowInformationMessage(Extension.NoRuntimeSelected)]
  {
  }
}
