/**
 * The terminal session manager: which terminal a command goes to (the last
 * used one, the active one, the first live one, or a new one), how a
 * wrapped command is re-encoded for PowerShell or cmd, and how it is sent,
 * one `sendText` per line when it spans several lines. The affinity state
 * (the last used terminal) and the one-shot handler flag are the fields of
 * `TerminalManager`; the host's terminals, listeners and effects are the
 * fields of `Window`.
 */
module TerminalManager {
  import opened Wrappers
  import opened Strings
  import opened Host

  /**
   * A terminal as the manager sees it: its handle, whether it has an exit
   * status, and the `shellPath` of its creation options when that is a
   * string (absent or any other type is `None`).
   */
  datatype Terminal = Terminal(id: nat, exited: bool, shellPath: Option<string>)

  const SentToTerminal := "Code block sent to terminal for execution!"

  // ---------------------------------------------------------------------------
  // Finding a live terminal.
  // ---------------------------------------------------------------------------

  /** The first terminal without an exit status, in the host's order. */
  function FirstLive(terminals: seq<Terminal>): Option<Terminal>
    decreases |terminals|
  {
    if terminals == [] then None
    else if !terminals[0].exited then Some(terminals[0])
    else FirstLive(terminals[1..])
  }

  /** `FirstLive` finds a live terminal that every earlier one is not, and finds none only when all have exited. */
  lemma {:induction false} FirstLiveIsFirst(terminals: seq<Terminal>)
    ensures var r := FirstLive(terminals);
      && (r.None? <==> forall k :: 0 <= k < |terminals| ==> terminals[k].exited)
      && (r.Some? ==> exists i :: 0 <= i < |terminals| && terminals[i] == r.value && !r.value.exited
                        && forall k :: 0 <= k < i ==> terminals[k].exited)
    decreases |terminals|
  {
    if terminals != [] {
      FirstLiveIsFirst(terminals[1..]);
      if terminals[0].exited {
        var r := FirstLive(terminals[1..]);
        if r.Some? {
          var i :| 0 <= i < |terminals[1..]| && terminals[1..][i] == r.value && !r.value.exited
                   && forall k :: 0 <= k < i ==> terminals[1..][k].exited;
          assert terminals[i + 1] == r.value;
          forall k | 0 <= k < i + 1 ensures terminals[k].exited {
            if k > 0 {
              assert terminals[k] == terminals[1..][k - 1];
            }
          }
        } else {
          forall k | 0 <= k < |terminals| ensures terminals[k].exited {
            if k > 0 {
              assert terminals[k] == terminals[1..][k - 1];
            }
          }
        }
      } else {
        assert terminals[0] == FirstLive(terminals).value;
      }
    }
  }

  method FindAvailableTerminal(terminals: seq<Terminal>) returns (r: Option<Terminal>)
    ensures r == FirstLive(terminals)
  {
    for i := 0 to |terminals|
      invariant FirstLive(terminals) == FirstLive(terminals[i..])
    {
      assert terminals[i..][1..] == terminals[i + 1..];
      if !terminals[i].exited {
        return Some(terminals[i]);
      }
    }
    assert terminals[|terminals|..] == [];
    return None;
  }

  /**
   * The terminal `getOrCreateTerminal` reuses, in priority order: the last
   * used one, the active one, the first live one; `None` means a new one is
   * created.
   */
  function ChooseTerminal(lastUsed: Option<Terminal>, active: Option<Terminal>, terminals: seq<Terminal>): Option<Terminal>
  {
    if lastUsed.Some? then lastUsed
    else if active.Some? then active
    else FirstLive(terminals)
  }

  /** A new terminal is created exactly when there is no last used, no active and no live terminal. */
  lemma CreatesOnlyWhenNothingToReuse(lastUsed: Option<Terminal>, active: Option<Terminal>, terminals: seq<Terminal>)
    ensures ChooseTerminal(lastUsed, active, terminals).None?
        <==> lastUsed.None? && active.None? && forall k :: 0 <= k < |terminals| ==> terminals[k].exited
    ensures lastUsed.Some? ==> ChooseTerminal(lastUsed, active, terminals) == lastUsed
    ensures lastUsed.None? && active.Some? ==> ChooseTerminal(lastUsed, active, terminals) == active
  {
    FirstLiveIsFirst(terminals);
  }

  // ---------------------------------------------------------------------------
  // Re-encoding a wrapped command for the terminal's shell.
  // ---------------------------------------------------------------------------

  predicate WrapsNode(command: string) {
    Includes(command, "node -e")
  }

  predicate WrapsPython(command: string) {
    Includes(command, "python -c")
  }

  predicate IsPowerShell(shellPath: string) {
    Includes(shellPath, "powershell")
  }

  predicate IsCmd(shellPath: string) {
    Includes(shellPath, "cmd")
  }

  /**
   * The global regular expression `(\r\n|\n|\r)` replaced by nothing: at
   * each position the two-character break is tried first, then each single one.
   */
  function RemoveLineBreaks(s: string): string
    decreases |s|
  {
    if s == [] then []
    else if |s| >= 2 && s[0] == '\r' && s[1] == '\n' then RemoveLineBreaks(s[2..])
    else if s[0] == '\n' || s[0] == '\r' then RemoveLineBreaks(s[1..])
    else [s[0]] + RemoveLineBreaks(s[1..])
  }

  /** The regular expression removes every carriage return and line feed and nothing else. */
  lemma {:induction false} RemoveLineBreaksIsWithout(s: string)
    ensures RemoveLineBreaks(s) == Without(s, {'\r', '\n'})
    decreases |s|
  {
    if s != [] {
      if |s| >= 2 && s[0] == '\r' && s[1] == '\n' {
        RemoveLineBreaksIsWithout(s[2..]);
        assert s[1..][1..] == s[2..];
        assert Without(s, {'\r', '\n'}) == Without(s[1..], {'\r', '\n'}) == Without(s[2..], {'\r', '\n'});
      } else {
        RemoveLineBreaksIsWithout(s[1..]);
      }
    }
  }

  /** The command as the terminal's shell should receive it. */
  function AdjustCommandForShell(command: string, terminal: Terminal): string
  {
    if !(WrapsNode(command) || WrapsPython(command)) || terminal.shellPath.None? then command
    else
      var shellPath := terminal.shellPath.value;
      if IsPowerShell(shellPath) then
        var adjusted := if WrapsNode(command) then ReplaceAll(command, "\\", "`") else command;
        if WrapsPython(command) then ReplaceAll(adjusted, "\\\"", "'") else adjusted
      else if IsCmd(shellPath) then RemoveLineBreaks(ReplaceAll(command, "\\", ""))
      else command
  }

  /** A command that wraps no `node -e` or `python -c`, or a terminal with no string shell path, is left alone. */
  lemma AdjustOnlyWrappedCommands(command: string, terminal: Terminal)
    requires !(WrapsNode(command) || WrapsPython(command)) || terminal.shellPath.None?
    ensures AdjustCommandForShell(command, terminal) == command
  {
  }

  /**
   * A `python3 -c "<text>"` command, as `executeAt` builds it, is never
   * re-encoded when its text wraps neither `python -c` nor `node -e`: the
   * `python3` prefix itself matches neither pattern.
   */
  lemma Python3CommandNotAdjusted(text: string, terminal: Terminal)
    requires !WrapsPython(text) && !WrapsNode(text)
    ensures AdjustCommandForShell("python3 -c \"" + text + "\"", terminal) == "python3 -c \"" + text + "\""
  {
    Python3IsNotPythonC(text);
    Python3IsNotNodeE(text);
  }

  lemma Python3IsNotPythonC(text: string)
    requires !WrapsPython(text)
    ensures !WrapsPython("python3 -c \"" + text + "\"")
  {
    var quoted := text + "\"";
    var command := "python3 -c \"" + text + "\"";
    var tail := "ython3 -c \"";
    assert command == "p" + (tail + quoted);
    assert command[6] == '3';
    assert !StartsWith(command, "python -c");
    assert command[1..] == tail + quoted;
    assert 'p' !in tail;
    IncludesPastPrefix(tail, quoted, "python -c");
    IncludesPastLastChar(text, '"', "python -c");
  }

  lemma Python3IsNotNodeE(text: string)
    requires !WrapsNode(text)
    ensures !WrapsNode("python3 -c \"" + text + "\"")
  {
    var quoted := text + "\"";
    var command := "python3 -c \"" + text + "\"";
    var head, mid := "pytho", "3 -c \"";
    var tail := "n" + (mid + quoted);
    assert command == head + tail;
    assert 'n' !in head;
    IncludesPastPrefix(head, tail, "node -e");
    assert tail[1] == '3';
    assert !StartsWith(tail, "node -e");
    assert tail[1..] == mid + quoted;
    assert 'n' !in mid;
    IncludesPastPrefix(mid, quoted, "node -e");
    IncludesPastLastChar(text, '"', "node -e");
  }

  /** An occurrence in `s + [c]` of a pattern that does not end in `c` is an occurrence in `s`. */
  lemma {:induction false} IncludesPastLastChar(s: string, c: char, sub: string)
    requires sub != [] && sub[|sub| - 1] != c
    ensures Includes(s + [c], sub) ==> Includes(s, sub)
    decreases |s|
  {
    if StartsWith(s + [c], sub) {
      assert (s + [c])[|sub| - 1] == sub[|sub| - 1];
      assert s[..|sub|] == (s + [c])[..|sub|];
    } else if s == [] {
      assert (s + [c])[1..] == [];
    } else {
      assert (s + [c])[1..] == s[1..] + [c];
      IncludesPastLastChar(s[1..], c, sub);
    }
  }

  /** An occurrence whose first character is not in `a` lies wholly in `b`. */
  lemma {:induction false} IncludesPastPrefix(a: string, b: string, sub: string)
    requires sub != [] && sub[0] !in a
    ensures Includes(a + b, sub) ==> Includes(b, sub)
    decreases |a|
  {
    if a != [] {
      assert (a + b)[0] == a[0];
      assert (a + b)[1..] == a[1..] + b;
      IncludesPastPrefix(a[1..], b, sub);
    } else {
      assert a + b == b;
    }
  }

  /** No occurrence of a pattern, nothing replaced. */
  lemma {:induction false} ReplaceAllAbsent(s: string, pattern: string, replacement: string)
    requires |pattern| > 0 && !Includes(s, pattern)
    ensures ReplaceAll(s, pattern, replacement) == s
    decreases |s|
  {
    if s != [] {
      ReplaceAllAbsent(s[1..], pattern, replacement);
    }
  }

  /** An occurrence of `sub` puts its first character in `s`. */
  lemma {:induction false} IncludesFirstChar(s: string, sub: string)
    requires sub != [] && Includes(s, sub)
    ensures sub[0] in s
    decreases |s|
  {
    if !StartsWith(s, sub) {
      IncludesFirstChar(s[1..], sub);
    } else {
      assert s[0] == sub[0];
    }
  }

  /**
   * In PowerShell a `node -e` command has every backslash turned into a
   * backtick; that leaves no `\"` behind, so when the command also wraps
   * `python -c` the second replacement, which runs after it, has no effect.
   */
  lemma PowerShellNode(command: string, terminal: Terminal)
    requires WrapsNode(command) && terminal.shellPath.Some? && IsPowerShell(terminal.shellPath.value)
    ensures var r := AdjustCommandForShell(command, terminal);
      && r == ReplaceAll(command, "\\", "`")
      && |r| == |command|
      && (forall k :: 0 <= k < |command| ==> r[k] == if command[k] == '\\' then '`' else command[k])
  {
    var adjusted := ReplaceAll(command, "\\", "`");
    ReplaceAllCharByChar(command, '\\', '`');
    if WrapsPython(command) {
      assert '\\' !in adjusted by {
        forall k | 0 <= k < |adjusted| ensures adjusted[k] != '\\' {
        }
      }
      if Includes(adjusted, "\\\"") {
        IncludesFirstChar(adjusted, "\\\"");
      }
      ReplaceAllAbsent(adjusted, "\\\"", "'");
    }
  }

  /** In PowerShell a `python -c` command, with no `node -e`, has every `\"` turned into `'`. */
  lemma PowerShellPython(command: string, terminal: Terminal)
    requires WrapsPython(command) && !WrapsNode(command)
    requires terminal.shellPath.Some? && IsPowerShell(terminal.shellPath.value)
    ensures AdjustCommandForShell(command, terminal) == ReplaceAll(command, "\\\"", "'")
  {
  }

  /**
   * In cmd (a path that is not PowerShell's) a wrapped command loses every
   * backslash, carriage return and line feed; the other characters stay in order.
   */
  lemma CmdFlattens(command: string, terminal: Terminal)
    requires WrapsNode(command) || WrapsPython(command)
    requires terminal.shellPath.Some? && !IsPowerShell(terminal.shellPath.value) && IsCmd(terminal.shellPath.value)
    ensures AdjustCommandForShell(command, terminal) == Without(command, {'\\', '\r', '\n'})
    ensures var r := AdjustCommandForShell(command, terminal); '\\' !in r && '\r' !in r && '\n' !in r
  {
    ReplaceAllCharByNothing(command, '\\');
    RemoveLineBreaksIsWithout(Without(command, {'\\'}));
    WithoutTwice(command, {'\\'}, {'\r', '\n'});
    assert {'\\'} + {'\r', '\n'} == {'\\', '\r', '\n'};
    WithoutFacts(command, {'\\', '\r', '\n'});
  }

  /** Any other shell path leaves the command alone. */
  lemma OtherShellsUnchanged(command: string, terminal: Terminal)
    requires terminal.shellPath.Some? && !IsPowerShell(terminal.shellPath.value) && !IsCmd(terminal.shellPath.value)
    ensures AdjustCommandForShell(command, terminal) == command
  {
  }

  // ---------------------------------------------------------------------------
  // Sending.
  // ---------------------------------------------------------------------------

  /** One `sendText(line, true)` per line, in order. */
  function SendLines(id: nat, lines: seq<string>): (r: seq<Event>)
    decreases |lines|
  {
    if lines == [] then []
    else SendLines(id, lines[..|lines| - 1]) + [SendText(id, lines[|lines| - 1], Some(true))]
  }

  lemma {:induction false} SendLinesAt(id: nat, lines: seq<string>)
    ensures |SendLines(id, lines)| == |lines|
    ensures forall k :: 0 <= k < |lines| ==> SendLines(id, lines)[k] == SendText(id, lines[k], Some(true))
    decreases |lines|
  {
    if lines != [] {
      SendLinesAt(id, lines[..|lines| - 1]);
    }
  }

  /** What is sent for an adjusted command: one plain `sendText`, or one per line when there are several. */
  function SendEvents(id: nat, adjusted: string): seq<Event>
  {
    if Includes(adjusted, "\n") then SendLines(id, Split(adjusted, '\n')) else [SendText(id, adjusted, None)]
  }

  /**
   * A command with line feeds is sent as one `sendText(line, true)` per piece,
   * the pieces in order, one more than there are line feeds, and joined back
   * they are the command.
   */
  lemma SendEventsShape(id: nat, adjusted: string)
    ensures '\n' !in adjusted ==> SendEvents(id, adjusted) == [SendText(id, adjusted, None)]
    ensures '\n' in adjusted ==>
      var lines := Split(adjusted, '\n');
      && SendEvents(id, adjusted) == SendLines(id, lines)
      && |SendEvents(id, adjusted)| == |lines| == multiset(adjusted)['\n'] + 1
      && Join(lines, '\n') == adjusted
      && (forall k :: 0 <= k < |lines| ==> SendEvents(id, adjusted)[k] == SendText(id, lines[k], Some(true)))
  {
    IncludesCharIff(adjusted, '\n');
    var lines := Split(adjusted, '\n');
    SendLinesAt(id, lines);
    SplitPieces(adjusted, '\n');
    JoinSplit(adjusted, '\n');
  }

  /** Everything `executeInTerminal` asks the host to do, in order. */
  function ExecuteEvents(terminal: Terminal, command: string): seq<Event>
  {
    [Show(terminal.id)] + SendEvents(terminal.id, AdjustCommandForShell(command, terminal)) + [ShowInformationMessage(SentToTerminal)]
  }

  // ---------------------------------------------------------------------------
  // The host and the manager.
  // ---------------------------------------------------------------------------

  /** The host side: its terminals, the active one, the listeners registered with it and the log of effects. */
  class Window {
    var terminals: seq<Terminal>
    var activeTerminal: Option<Terminal>
    /** The handle the next created terminal gets. */
    var nextId: nat
    var closeListeners: nat
    var changeListeners: nat
    var log: seq<Event>

    constructor(terminals: seq<Terminal>, activeTerminal: Option<Terminal>, nextId: nat)
      requires forall k :: 0 <= k < |terminals| ==> terminals[k].id < nextId
      ensures this.terminals == terminals && this.activeTerminal == activeTerminal && this.nextId == nextId
      ensures closeListeners == 0 && changeListeners == 0 && log == []
      ensures Valid()
    {
      this.terminals := terminals;
      this.activeTerminal := activeTerminal;
      this.nextId := nextId;
      closeListeners := 0;
      changeListeners := 0;
      log := [];
    }

    /** Every known terminal has a handle below `nextId`, so a created terminal is new. */
    predicate Valid()
      reads this
    {
      forall k :: 0 <= k < |terminals| ==> terminals[k].id < nextId
    }

    /** `createTerminal()` with no options: a new live terminal without a shell path. */
    method CreateTerminal() returns (t: Terminal)
      requires Valid()
      modifies this
      ensures Valid()
      ensures t == Terminal(old(nextId), false, None)
      ensures forall k :: 0 <= k < |old(terminals)| ==> old(terminals)[k].id != t.id
      ensures terminals == old(terminals) + [t] && nextId == old(nextId) + 1
      ensures log == old(log) + [Event.CreateTerminal(t.id)]
      ensures activeTerminal == old(activeTerminal)
      ensures closeListeners == old(closeListeners) && changeListeners == old(changeListeners)
    {
      t := Terminal(nextId, false, None);
      terminals := terminals + [t];
      nextId := nextId + 1;
      log := log + [Event.CreateTerminal(t.id)];
    }
  }

  /** The module state of the manager: the affinity target and the one-shot registration flag. */
  class TerminalManager {
    var lastUsedTerminal: Option<Terminal>
    var didRegisterTerminalHandlers: bool

    constructor()
      ensures lastUsedTerminal == None && !didRegisterTerminalHandlers
    {
      lastUsedTerminal := None;
      didRegisterTerminalHandlers := false;
    }

    /** The two listeners are registered with the host once if the flag is set, and not at all otherwise. */
    predicate Registered(window: Window)
      reads this, window
    {
      var expected := if didRegisterTerminalHandlers then 1 else 0;
      window.closeListeners == expected && window.changeListeners == expected
    }

    method RegisterTerminalHandlers(window: Window)
      requires Registered(window)
      modifies this, window
      ensures Registered(window) && didRegisterTerminalHandlers
      ensures window.closeListeners == 1 && window.changeListeners == 1
      ensures old(didRegisterTerminalHandlers) ==> unchanged(window)
      ensures lastUsedTerminal == old(lastUsedTerminal)
      ensures window.terminals == old(window.terminals) && window.activeTerminal == old(window.activeTerminal)
      ensures window.nextId == old(window.nextId) && window.log == old(window.log)
    {
      if didRegisterTerminalHandlers {
        return;
      }
      window.closeListeners := window.closeListeners + 1;
      window.changeListeners := window.changeListeners + 1;
      didRegisterTerminalHandlers := true;
    }

    /** The close listener: affinity is cleared only when the closed terminal is the one it holds. */
    method OnDidCloseTerminal(terminal: Terminal)
      requires didRegisterTerminalHandlers
      modifies this
      ensures lastUsedTerminal
           == if old(lastUsedTerminal).Some? && old(lastUsedTerminal).value.id == terminal.id then None else old(lastUsedTerminal)
      ensures didRegisterTerminalHandlers
    {
      if lastUsedTerminal.Some? && lastUsedTerminal.value.id == terminal.id {
        lastUsedTerminal := None;
      }
    }

    /** The active-terminal listener: affinity follows the active terminal, even to none. */
    method OnDidChangeActiveTerminal(terminal: Option<Terminal>)
      requires didRegisterTerminalHandlers
      modifies this
      ensures lastUsedTerminal == terminal
      ensures didRegisterTerminalHandlers
    {
      lastUsedTerminal := terminal;
    }

    method GetOrCreateTerminal(window: Window) returns (terminal: Terminal)
      requires window.Valid()
      modifies window
      ensures window.Valid()
      ensures var chosen := ChooseTerminal(old(lastUsedTerminal), old(window.activeTerminal), old(window.terminals));
        if chosen.Some? then terminal == chosen.value && unchanged(window)
        else
          && terminal == Terminal(old(window.nextId), false, None)
          && window.terminals == old(window.terminals) + [terminal]
          && window.log == old(window.log) + [Event.CreateTerminal(terminal.id)]
          && window.nextId == old(window.nextId) + 1
          && window.activeTerminal == old(window.activeTerminal)
          && window.closeListeners == old(window.closeListeners)
          && window.changeListeners == old(window.changeListeners)
    {
      var found := if lastUsedTerminal.Some? then lastUsedTerminal else window.activeTerminal;
      if found.None? {
        found := FindAvailableTerminal(window.terminals);
      }
      if found.None? {
        terminal := window.CreateTerminal();
      } else {
        terminal := found.value;
      }
    }

    method SendMultilineCommand(window: Window, terminal: Terminal, command: string)
      modifies window
      ensures window.log == old(window.log) + SendLines(terminal.id, Split(command, '\n'))
      ensures window.terminals == old(window.terminals) && window.activeTerminal == old(window.activeTerminal)
      ensures window.nextId == old(window.nextId)
      ensures window.closeListeners == old(window.closeListeners) && window.changeListeners == old(window.changeListeners)
    {
      var lines := Split(command, '\n');
      for i := 0 to |lines|
        invariant window.log == old(window.log) + SendLines(terminal.id, lines[..i])
        invariant window.terminals == old(window.terminals) && window.activeTerminal == old(window.activeTerminal)
        invariant window.nextId == old(window.nextId)
        invariant window.closeListeners == old(window.closeListeners) && window.changeListeners == old(window.changeListeners)
      {
        assert lines[..i + 1][..i] == lines[..i];
        window.log := window.log + [SendText(terminal.id, lines[i], Some(true))];
      }
      assert lines[..|lines|] == lines;
    }

    method ExecuteInTerminal(window: Window, terminal: Terminal, command: string)
      requires Registered(window)
      modifies this, window
      ensures lastUsedTerminal == Some(terminal)
      ensures Registered(window) && didRegisterTerminalHandlers
      ensures window.log == old(window.log) + ExecuteEvents(terminal, command)
      ensures window.terminals == old(window.terminals) && window.activeTerminal == old(window.activeTerminal)
      ensures window.nextId == old(window.nextId)
    {
      lastUsedTerminal := Some(terminal);
      RegisterTerminalHandlers(window);
      var adjustedCommand := AdjustCommandForShell(command, terminal);
      window.log := window.log + [Show(terminal.id)];
      if Includes(adjustedCommand, "\n") {
        SendMultilineCommand(window, terminal, adjustedCommand);
      } else {
        window.log := window.log + [SendText(terminal.id, adjustedCommand, None)];
      }
      window.log := window.log + [ShowInformationMessage(SentToTerminal)];
    }
  }

  /**
   * After a command is sent, the next `getOrCreateTerminal` reuses the same
   * terminal, whatever the host's active terminal and terminal list are, and
   * creates nothing.
   */
  method SendThenReuse(m: TerminalManager, window: Window, terminal: Terminal, command: string)
    returns (next: Terminal)
    requires m.Registered(window) && window.Valid()
    modifies m, window
    ensures next == terminal && m.lastUsedTerminal == Some(terminal)
    ensures window.log == old(window.log) + ExecuteEvents(terminal, command)
    ensures window.terminals == old(window.terminals) && window.nextId == old(window.nextId)
  {
    m.ExecuteInTerminal(window, terminal, command);
    next := m.GetOrCreateTerminal(window);
  }

  /**
   * At load the manager's flag is clear and the host has no listeners from
   * it, so every precondition `Registered` of the manager's methods holds.
   */
  method LoadedManagerIsRegistered(terminals: seq<Terminal>, active: Option<Terminal>, nextId: nat)
    returns (m: TerminalManager, window: Window)
    requires forall k :: 0 <= k < |terminals| ==> terminals[k].id < nextId
    ensures m.Registered(window) && window.Valid()
    ensures m.lastUsedTerminal == None && !m.didRegisterTerminalHandlers
    ensures window.terminals == terminals && window.activeTerminal == active && window.nextId == nextId
  {
    m := new TerminalManager();
    window := new Window(terminals, active, nextId);
  }
}
