# markdown-execute, modelled in Dafny

markdown-execute is an editor extension. It runs the fenced code blocks of a markdown
document (shell, Node, Python, TypeScript) in a terminal. This project models its core
and proves properties of the model:

- **Fence-marker detection.** `detectRuntime` maps a trimmed line to a runtime.
- **The shell escaper.** It exists twice, and the two copies are proved equal.
- **The dispatcher `executeAt`.** It wraps a fragment for its runtime and probes for a
  Python or TypeScript interpreter.
- **The first-success probe loop `detectExecutable`.**
- **Selection extraction.** There are four modes: forward from an opening fence,
  backward from a closing fence, the single cursor line, and a range. There are two
  implementations: the helpers in `selectionExtractor.ts` and the inline copy in the
  `executeSelection` command.
- **The guards of the `execute` command.**
- **The terminal session manager.** It covers terminal affinity, the one-shot handler
  registration, shell re-encoding and per-line sending.
- **The code-lens scanner.** It groups `sh`/`bash` blocks into lenses.

Each source file is one module:

| module | source file |
|---|---|
| `Types` | `types.ts` |
| `ShellEscape` | `shellEscape.ts` |
| `RuntimeDetector` | `runtimeDetector.ts` |
| `ExecuteAt` | `executeAt.ts` |
| `SelectionExtractor` | `selectionExtractor.ts` |
| `Extension` | `extension.ts` |
| `TerminalManager` | `terminalManager.ts` |
| `CodeLens` | `commandCodeLensProvider.ts` |

Three helper modules support them:

- `Wrappers` holds `Option`.
- `Strings` holds the JavaScript string operations the source relies on: `trim`,
  `substring` (with clamping and argument swapping), `split`, `join`, `startsWith`,
  `endsWith`, `includes` and `replaceAll`. A string is a sequence of characters, and
  `substring` offsets count characters. JavaScript counts UTF-16 code units instead;
  "## Left out" says where that matters.
- `Host` holds positions, selections, ranges and the log of effects.

The editor host is represented as follows:

- **Effects become events.** Every effect the core requests is an `Event` appended to a
  log. The effects are: information messages, interpreter probes, calls of `execute`,
  quick picks, confirmation prompts, terminal creation, `show` and `sendText`.
- **Probes become an oracle.** `exec('<x> --version')` is the oracle
  `available: string -> bool`.
- **User answers become parameters.** So do the configured confirmation mode, the active
  editor and the host's terminals.

The source's loops are methods:

- the extractors;
- the inline do-while loops;
- the probe loop;
- `findAvailableTerminal` and `sendMultilineCommand`;
- the lens scanner.

Each loop method is proved equal to a function of its inputs, and properties are proved
about those functions. The terminal manager's module state (`lastUsedTerminal`,
`didRegisterTerminalHandlers`) is the class `TerminalManager.TerminalManager`. The host's
terminal list, active terminal, listener counts and effect log form the class
`TerminalManager.Window`.

The model follows the code where it differs from the extension's documented behaviour:

- **Closing-fence mode tests a prefix.** It is chosen for any trimmed cursor line that
  starts with three backticks and is not a marker, such as a line tagged `json`, and not
  only for a bare fence.
- **Closing-fence mode adds a leading newline.** The split, reverse and join keeps the
  empty piece after the last newline, so the re-reversed block starts with a newline.
  Once the final newline is stripped, the result is a newline followed by the kept lines
  in document order (`SelectionExtractor.OpeningAndClosingAgree`).
- **Lens arguments carry only the block text.** The command behind a lens therefore
  always stops at "No runtime selected." (`CodeLens.LensCommandHasNoRuntime`).
- **The code-lens provider follows the code, not its tests.**
  `src/test/suite/commandCodeLensProvider.test.ts` describes a different provider: lens
  arguments with a runtime, more languages, comment filtering and no trailing newline.
  The provider's code does none of this.

## Model

| member | source | states |
|---|---|---|
| Types.RuntimeValueInjective | src/types/types.ts:1-6 | distinct runtimes have distinct string values |
| Types.MarkerTableIsChain | src/types/types.ts:13-28 | the marker table gives, on every line, what the source's chain of comparisons gives |
| Types.DetectRuntimeIff | src/types/types.ts:13-28 | a line detects runtime r exactly when its trim is one of r's markers (sh/bash, js, python, ts/typescript) |
| Types.DetectRuntimeNone | src/types/types.ts:27 | a line detects nothing exactly when its trim is no runtime's marker |
| Types.DetectRuntimeIsFence | src/types/types.ts:15-26 | a detected runtime implies the trimmed line starts with three backticks |
| Types.DetectRuntimeTrimInvariant | src/types/types.ts:14 | surrounding whitespace never changes the result |
| Types.DetectRuntimeByTrimmedLine | src/types/types.ts:14-27 | each marker maps to its runtime; "", a bare fence, json, shell and "sh x" tags give null |
| Types.DetectRuntimePaddedCases | src/types/types.ts:14-15 | the empty line gives null and a padded sh marker gives Shell |
| ShellEscape.ReplacementsAreBackslashPrefixed | src/utils/shellEscape.ts:1-11 | the regex's character class is the table's key set, and each key maps to a backslash and itself |
| ShellEscape.EscapeChar | src/utils/shellEscape.ts:8-13 | a special character becomes a backslash and itself; any other character is copied |
| ShellEscape.EscapeLength | src/utils/shellEscape.ts:9-12 | output length is input length plus the number of special characters |
| ShellEscape.EscapeAppend | src/utils/shellEscape.ts:9-12 | escape(a + b) == escape(a) + escape(b) |
| ShellEscape.UnescapeEscape | src/utils/shellEscape.ts:1-13 | dropping the backslash of each escaped pair recovers the input |
| ShellEscape.EscapeIdentityIff | src/utils/shellEscape.ts:8-13 | escaping is the identity exactly when the input has no special character |
| ShellEscape.EscapeKeepsWhitespace | src/utils/shellEscape.ts:8-13 | any string made only of spaces, tabs and line breaks passes through unchanged |
| ShellEscape.EscapeNotIdempotent | src/utils/shellEscape.ts:2-5 | escaping a double quote twice differs from escaping it once |
| ShellEscape.EscapeEmpty | src/utils/shellEscape.ts:8-13 | the empty string escapes to itself |
| ShellEscape.EscapeQuotedWord | src/utils/shellEscape.ts:8-13 | a plain word in double quotes keeps the word and escapes both quotes |
| ShellEscape.EscapeDollar | src/utils/shellEscape.ts:8-13 | "$PATH" becomes "\$PATH", so the variable is not expanded |
| RuntimeDetector.DetectExecutable | src/utils/runtimeDetector.ts:6-24 | the loop returns the first available candidate or "none", having probed exactly the candidates up to and including that one |
| RuntimeDetector.SkipFailed | src/utils/runtimeDetector.ts:9-22 | a prefix of failed candidates contributes only its probes; the answer and later probes are those of the rest |
| RuntimeDetector.FirstAvailableIsFirst | src/utils/runtimeDetector.ts:9-12 | when candidate k is the first that runs, it is the answer and nothing after it is probed |
| RuntimeDetector.AllUnavailable | src/utils/runtimeDetector.ts:9-23 | when every probe fails, the answer is "none" and every candidate was probed once, in order |
| RuntimeDetector.FirstAvailableIsCandidate | src/utils/runtimeDetector.ts:6-24 | the answer is "none" or a candidate whose probe succeeds |
| RuntimeDetector.EmptyCandidates | src/utils/runtimeDetector.ts:9-23 | no candidates: "none" and no probe |
| ExecuteAt.EscapeCopiesAgree | src/executeAt.ts:109-128 | the local escaper equals the one in shellEscape.ts on every input |
| ExecuteAt.ExecuteAt | src/executeAt.ts:10-107 | the effects of the dispatcher, with its sequential probe fallbacks, are those of the reference events function |
| ExecuteAt.ShellAndNodeCommands | src/executeAt.ts:15-20 | Shell runs the text verbatim; NodeJs runs exactly node -e "<escaped>" |
| ExecuteAt.PythonIsFirstAvailable | src/executeAt.ts:21-60 | Python makes the probes of detectExecutable over python, python3 and runs <chosen> -c "<escaped>", or shows the python message |
| ExecuteAt.TypeScriptIsFirstAvailable | src/executeAt.ts:61-103 | TypeScript probes tsx, then ts-node only if tsx failed; tsx -e or the fixed ts-node prefix, or the message |
| ExecuteAt.AtMostOneExecute | src/executeAt.ts:14-106 | each invocation calls execute at most once, and never after an "Unable to find" message |
| ExecuteAt.OnlyMissingMessages | src/executeAt.ts:14-106 | the only messages shown are the two "Unable to find" ones |
| ExecuteAt.UnknownRuntimeDoesNothing | src/executeAt.ts:104-105 | a missing or unknown runtime has no effect |
| ExecuteAt.OnlyPython3Installed | src/executeAt.ts:21-58 | with only python3 installed, plain text runs as python3 -c "<text>" after both probes |
| ExecuteAt.NoTypeScriptRunner | src/executeAt.ts:61-96 | with neither tsx nor ts-node: two probes, one message, no execute |
| SelectionExtractor.AddLineToSelectionShape | src/utils/selectionExtractor.ts:9-19 | the result is "" exactly when the trimmed piece is blank or starts with //, and is otherwise that piece and one newline |
| SelectionExtractor.AddTrimmedLine | src/utils/selectionExtractor.ts:34 | passing the trimmed line with the untrimmed length keeps the same as keeping the whole line |
| SelectionExtractor.DetectTrimmedRuntime | src/utils/selectionExtractor.ts:55 | detection on the trimmed line equals detection on the line |
| SelectionExtractor.AddTrimmedLineToSelection | src/utils/selectionExtractor.ts:34 | a block line contributes its kept piece |
| SelectionExtractor.FenceEndIsFirst | src/utils/selectionExtractor.ts:29-33 | the forward scan's stop is a bare fence (or the end) with no bare fence before it |
| SelectionExtractor.MarkerAboveIsNearest | src/utils/selectionExtractor.ts:53-60 | the backward scan's stop is a marker (or -1) with no marker between it and the start |
| SelectionExtractor.ExtractFromOpeningFence | src/utils/selectionExtractor.ts:21-39 | the kept lines strictly after the cursor, up to the first bare fence or the end, with the given runtime |
| SelectionExtractor.ExtractFromClosingFence | src/utils/selectionExtractor.ts:41-67 | ("", null) below line 2; otherwise the lines below the nearest marker, re-reversed, with its runtime; or all lines above, backward, with null |
| SelectionExtractor.ScanUpToMarker | src/utils/selectionExtractor.ts:49-64 | the loop stops at the nearest marker above the cursor, having accumulated the lines below it bottom-up |
| SelectionExtractor.ClosingFenceWithMarker | src/utils/selectionExtractor.ts:53-60 | with a marker above, the result is the re-reversed block and that marker's runtime |
| SelectionExtractor.ClosingFenceWithoutMarker | src/utils/selectionExtractor.ts:53-66 | with no marker above, the runtime is null and the text is the backward accumulation |
| SelectionExtractor.ExtractSingleLineAndFindRuntime | src/utils/selectionExtractor.ts:69-83 | the trimmed cursor line, unfiltered, with the runtime of the nearest marker at or above it |
| SelectionExtractor.ExtractFromMultiLineSelection | src/utils/selectionExtractor.ts:85-106 | the first line from start.character, the last to end.character, interior lines whole, each piece filtered |
| SelectionExtractor.ExtractSelectionFromEditor | src/utils/selectionExtractor.ts:108-128 | a marker gives opening mode, another fence prefix closing mode, else single-line mode; a range gives runtime null |
| SelectionExtractor.RemoveTrailingNewline | src/utils/selectionExtractor.ts:130-132 | removes exactly one final newline when there is one, and is otherwise the identity |
| SelectionExtractor.RemoveTrailingNewlineOnce | src/utils/selectionExtractor.ts:130-132 | "a\n\n" becomes "a\n": stripping is not idempotent |
| SelectionExtractor.BlockIsKeptLines | src/utils/selectionExtractor.ts:29-36 | a forward block is its kept lines, each followed by one newline |
| SelectionExtractor.BlockFragment | src/utils/selectionExtractor.ts:29-36 | a stripped forward block is its kept lines joined by newlines and does not end with a newline |
| SelectionExtractor.BlockBackwardIsReversedKept | src/utils/selectionExtractor.ts:53-64 | the backward accumulation holds the kept lines in reverse order, each followed by a newline |
| SelectionExtractor.KeptPieces | src/utils/selectionExtractor.ts:13-19 | every kept piece is non-blank, not a comment, trimmed at its end and free of newlines |
| SelectionExtractor.ReversedBlock | src/utils/selectionExtractor.ts:58 | the re-reversal yields a newline followed by the kept lines in document order |
| SelectionExtractor.ReverseLinesOfReversedJoin | src/utils/selectionExtractor.ts:58 | split, reverse and join of reversed newline-terminated pieces restores their order behind one newline |
| SelectionExtractor.OpeningScanOfBlock | src/utils/selectionExtractor.ts:21-39 | on a fenced block, the forward scan stops at its closing fence |
| SelectionExtractor.ClosingScanOfBlock | src/utils/selectionExtractor.ts:41-67 | on a fenced block, the backward scan stops at its opening marker |
| SelectionExtractor.ClosingTextOfBlock | src/utils/selectionExtractor.ts:53-66 | a stripped backward result is "" for no kept lines, else a newline and the kept lines joined |
| SelectionExtractor.OpeningAndClosingAgree | src/utils/selectionExtractor.ts:21-67 | both fence scans of one block find the same runtime and lines; the closing one has a leading newline |
| SelectionExtractor.FullLineRange | src/utils/selectionExtractor.ts:85-106 | selecting whole lines gives the same text as a fence scan over those lines |
| SelectionExtractor.RangeTextShape | src/utils/selectionExtractor.ts:85-106 | a range text is empty or ends with a newline |
| SelectionExtractor.DocumentLinesHaveNoNewlines | src/utils/selectionExtractor.ts:109 | lines split on newlines contain no newline |
| Extension.NewSelectionIsAddLineToSelection | src/extension.ts:234-240 | newSelection equals addLineToSelection on every input |
| Extension.NewTrimmedSelection | src/extension.ts:106-110 | a block line contributes its kept piece |
| Extension.InlineCaseOne | src/extension.ts:99-112 | the unchecked do-while faults when no bare fence follows, and otherwise yields the forward block and the runtime |
| Extension.OpeningFaultsIffUnterminated | src/extension.ts:99-112 | case 1 faults exactly when no bare fence follows the cursor |
| Extension.InlineCaseTwo | src/extension.ts:113-138 | aborts below line 2; otherwise equals the closing-fence extractor, reversal included |
| Extension.InlineCaseThree | src/extension.ts:139-159 | equals the single-line extractor |
| Extension.InlineRange | src/extension.ts:160-204 | equals the multi-line extractor |
| Extension.ExtractInline | src/extension.ts:76-204 | the inline extraction dispatches like extractSelectionFromEditor |
| Extension.InlineAgreesWithHelpers | src/extension.ts:76-204 | the inline code agrees with the helpers except that case 1 faults and case 2 aborts, each exactly where it does |
| Extension.ExecuteSelection | src/extension.ts:64-228 | the handler's effects are those of the reference outcome function |
| Extension.RunSelection | src/extension.ts:206-228 | strip one newline, refuse empty text, ask for a missing runtime, then run executeAt |
| Extension.ExecuteSelectionAtMostOnce | src/extension.ts:64-228 | one run executes at most once, a fault has no effect, and "Nothing selected" runs nothing |
| Extension.RangeSelectionAsksForRuntime | src/extension.ts:160-226 | a non-empty range leaves the runtime null, so the runtime pick comes first |
| Extension.EmptyExtractionIsReported | src/extension.ts:206-214 | "Nothing selected" alone is shown exactly when the text is "" or "\n" |
| Extension.ExecuteCommandGuards | src/extension.ts:20-29 | a missing runtime or command stops the command with exactly its message |
| Extension.ExecuteCommandRunsIffConfirmed | src/extension.ts:30-41 | executeAt runs (after the prompt, if any) exactly when confirmation is "none" or the answer is Execute; at most once |
| TerminalManager.FirstLiveIsFirst | src/utils/terminalManager.ts:7-16 | the result is the first terminal without an exit status, or none when all have exited |
| TerminalManager.FindAvailableTerminal | src/utils/terminalManager.ts:7-16 | the loop returns the first live terminal |
| TerminalManager.CreatesOnlyWhenNothingToReuse | src/utils/terminalManager.ts:75-87 | last used, then active, then first live terminal; a new one exactly when all are absent |
| TerminalManager.RemoveLineBreaksIsWithout | src/utils/terminalManager.ts:44 | the line-break regex removes every CR and LF and nothing else |
| TerminalManager.AdjustOnlyWrappedCommands | src/utils/terminalManager.ts:18-28 | the identity unless the command wraps node -e or python -c and the shell path is a string |
| TerminalManager.Python3CommandNotAdjusted | src/utils/terminalManager.ts:19-22 | a python3 -c "<text>" command whose text contains neither python -c nor node -e is returned unchanged on every shell; the python3 prefix matches neither pattern |
| TerminalManager.PowerShellNode | src/utils/terminalManager.ts:30-39 | PowerShell: a node -e command has every backslash replaced by a backtick, first, so the \" replacement then finds nothing |
| TerminalManager.PowerShellPython | src/utils/terminalManager.ts:30-39 | PowerShell: a python -c command has every \" replaced by ' |
| TerminalManager.CmdFlattens | src/utils/terminalManager.ts:41-45 | cmd: the result has no backslash, CR or LF, and the other characters keep their order |
| TerminalManager.OtherShellsUnchanged | src/utils/terminalManager.ts:47 | any other shell path leaves the command unchanged |
| TerminalManager.SendLinesAt | src/utils/terminalManager.ts:50-55 | one sendText(line, true) per line, in order |
| TerminalManager.SendEventsShape | src/utils/terminalManager.ts:97-101 | no newline: one plain sendText; else one sendText(piece, true) per piece, newlines + 1, joining back to the command |
| TerminalManager.Window.CreateTerminal | src/utils/terminalManager.ts:83 | a new live terminal with a fresh handle is appended and logged |
| TerminalManager.TerminalManager.constructor | src/utils/terminalManager.ts:4-5 | no affinity and the flag unset at load |
| TerminalManager.TerminalManager.RegisterTerminalHandlers | src/utils/terminalManager.ts:57-73 | the two listeners are registered exactly once over any number of calls |
| TerminalManager.TerminalManager.OnDidCloseTerminal | src/utils/terminalManager.ts:62-66 | affinity is cleared only when the closed terminal is the one it holds |
| TerminalManager.TerminalManager.OnDidChangeActiveTerminal | src/utils/terminalManager.ts:68-70 | affinity is overwritten with the new active terminal, even with none |
| TerminalManager.TerminalManager.GetOrCreateTerminal | src/utils/terminalManager.ts:75-87 | returns the chosen terminal without touching the host, or creates exactly one new terminal |
| TerminalManager.TerminalManager.SendMultilineCommand | src/utils/terminalManager.ts:50-55 | appends one sendText(line, true) per split piece |
| TerminalManager.TerminalManager.ExecuteInTerminal | src/utils/terminalManager.ts:89-104 | sets affinity to the target, registers once, and logs show, the sends of the adjusted command and the message |
| TerminalManager.SendThenReuse | src/utils/terminalManager.ts:75-104 | executeInTerminal followed by getOrCreateTerminal returns the terminal just used and creates no terminal; the log grows only by the send's events |
| TerminalManager.LoadedManagerIsRegistered | src/utils/terminalManager.ts:4-5 | at load the flag is clear, there is no affinity, and the host's listener counts match the flag |
| CodeLens.TrimLines | src/commandCodeLensProvider.ts:9-15 | the scanner reads each line trimmed |
| CodeLens.ProvideCodeLenses | src/commandCodeLensProvider.ts:4-43 | the loop's lenses are those of the reference scanner run over the trimmed lines |
| CodeLens.RunOutside | src/commandCodeLensProvider.ts:14-42 | outside a block the scanner emits exactly the reference blocks |
| CodeLens.RunInside | src/commandCodeLensProvider.ts:27-39 | inside a block the scanner finishes it at the next bare fence, then emits the reference blocks |
| CodeLens.BlocksAtOpener | src/commandCodeLensProvider.ts:18-25 | an opening line starts a block with empty text |
| CodeLens.InsideAtFence | src/commandCodeLensProvider.ts:34-39 | a bare fence emits one lens with the gathered text and resets |
| CodeLens.InsideStep | src/commandCodeLensProvider.ts:27-32 | any other line, blank or // included, joins the text with a newline |
| CodeLens.ScannerIsBlocks | src/commandCodeLensProvider.ts:4-43 | the lenses are exactly the closed sh/bash blocks of the document |
| CodeLens.NextFenceIsFenceEnd | src/commandCodeLensProvider.ts:34 | the scanner's closing fence is the one the forward extractor stops at |
| CodeLens.BodyTextShape | src/commandCodeLensProvider.ts:30 | a lens text is empty only for an empty block, and otherwise ends with a newline |
| CodeLens.BlocksInOrder | src/commandCodeLensProvider.ts:14-42 | lenses appear in strictly increasing line order |
| CodeLens.BlocksAreClosed | src/commandCodeLensProvider.ts:56-75 | each lens sits on an opener, spans it, has a closing fence after it, and carries that block's text and no runtime |
| CodeLens.UnterminatedBlockEmitsNothing | src/commandCodeLensProvider.ts:14-42 | without a bare fence after the first opener, no lens is emitted |
| CodeLens.LensCommandHasNoRuntime | src/commandCodeLensProvider.ts:61-65 | a lens's arguments carry no runtime, so its command stops at "No runtime selected." |

## Left out

- `src/execute.ts` (how a command reaches a terminal, and the busy and SSH detection) is not part of this model. A call of `execute(command)` is the event `Execute(command)`.
- The VS Code API is reduced to parameters and events: command and code-lens registration, configuration reading, quick picks and dialogs. Quick-pick and confirmation answers are parameters; showing them is an event.
- `child_process.exec` is the oracle `available`. The error-shape check and console logging do not affect behaviour, so they are left out.
- Async and Promise scheduling are left out. Each `await` is a plain sequential call.
- Extension.ExecuteSelection: a selection outside the document is excluded by `ValidEditor`, because the editor never produces one. Case 1 reading past the last line is modelled as the `Faulted` outcome.
- Extension.ExecuteCommandEvents: `args.runtime` is passed to `executeAt` as a string. A non-string runtime value is not modelled.
- CodeLens.CommandBlockLens: the lens title and command id are the same for every lens. They are member functions of `Command` rather than stored fields.
- CodeLens.ProvideCodeLenses: the cancellation token and `resolveCodeLens` are not modelled. The `codeLenses.push` inside `registerCommandBlock` is a sequence append.
- SelectionExtractor.ExtractFromMultiLineSelection: a selection's `character` offsets count code points, while VS Code and `String.substring` count UTF-16 code units. On a line with a character outside the Basic Multilingual Plane before or inside the selection, the model cuts the line at different places than the source. Example: on the line `🙂 ls`, the selection (0,3)–(0,5) gives `ls` in the source and `s` in the model. Lines made only of BMP characters are cut identically. `trim`, `split`, `includes`, `replaceAll` and the shell escaper are unaffected, because every character they look for is in the BMP.
- Extension.InlineRange: the same code-point versus UTF-16 difference as in `SelectionExtractor.ExtractFromMultiLineSelection`, for the range loop of the inline command handler.
- Terminal objects are compared by their handle. A `shellPath` that is absent or not a string is `None`.
- TerminalManager.TerminalManager.ExecuteInTerminal: requires `Registered(window)`. This means the host's listener count matches the module flag. `TerminalManager.LoadedManagerIsRegistered` proves it holds at load, and every method of the manager keeps it.
- TerminalManager.TerminalManager.OnDidCloseTerminal: requires the handlers to be registered, because the host only calls a listener after it has been registered.
- TerminalManager.Window.CreateTerminal: creating a terminal leaves the host's active terminal as it was. Activation by the host is not modelled.
- A `sendText` with one argument is logged with `shouldExecute` absent (`None`).
- Test files are not modelled. Their concrete cases appear only as small lemmas.
