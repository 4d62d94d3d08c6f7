/**
 * The command dispatcher `executeAt`: wraps the fragment for its runtime,
 * probing for a Python or TypeScript interpreter first, and hands the result
 * to `execute`. Probes are the oracle `available`; `execute` and the
 * information messages are events of the returned log.
 */
module ExecuteAt {
  import opened Wrappers
  import opened Host
  import opened Types
  import ShellEscape
  import RuntimeDetector

  const PythonMissing := "Unable to find python or python3. Is it installed?"
  const TypeScriptMissing := "Unable to find tsx or ts-node. Is it installed?"
  const TsNodeFlags := "--transpile-only --compiler-options '{\"module\":\"commonjs\",\"moduleResolution\":\"node\"}'"

  /** The local copy of the escaper's lookup table. */
  const Replacements: map<char, string> :=
    map['"' := "\\\"", '`' := "\\`", '$' := "\\$", '\\' := "\\\\"]

  /** The local copy of the escaper, with its own table. */
  function EscapeForShell(inputString: string): string
    decreases |inputString|
  {
    if inputString == [] then []
    else
      var c := inputString[0];
      (if c == '\\' || c == '"' || c == '`' || c == '$' then Replacements[c] else [c])
        + EscapeForShell(inputString[1..])
  }

  /** The two copies of the escaper agree on every input. */
  lemma {:induction false} EscapeCopiesAgree(s: string)
    ensures EscapeForShell(s) == ShellEscape.EscapeForShell(s)
    decreases |s|
  {
    if s != [] {
      EscapeCopiesAgree(s[1..]);
    }
  }

  /** The effects of `executeAt(runtime, selectedText)`, in order. */
  function ExecuteAtEvents(runtime: Option<string>, selectedText: string, available: string -> bool): seq<Event>
  {
    var escaped := EscapeForShell(selectedText);
    if runtime == Some(RuntimeValue(Shell)) then [Execute(selectedText)]
    else if runtime == Some(RuntimeValue(NodeJs)) then [Execute("node -e \"" + escaped + "\"")]
    else if runtime == Some(RuntimeValue(Python)) then
      var fallback :=
        if available("python3") then [Execute("python3" + " -c \"" + escaped + "\"")]
        else [ShowInformationMessage(PythonMissing)];
      [Probe("python")]
      + (if available("python") then [Execute("python" + " -c \"" + escaped + "\"")] else [Probe("python3")] + fallback)
    else if runtime == Some(RuntimeValue(TypeScript)) then
      var fallback :=
        if available("ts-node") then [Execute("ts-node " + TsNodeFlags + " -e \"" + escaped + "\"")]
        else [ShowInformationMessage(TypeScriptMissing)];
      [Probe("tsx")]
      + (if available("tsx") then [Execute("tsx -e \"" + escaped + "\"")] else [Probe("ts-node")] + fallback)
    else []
  }

  method ExecuteAt(runtime: Option<string>, selectedText: string, available: string -> bool)
    returns (events: seq<Event>)
    ensures events == ExecuteAtEvents(runtime, selectedText, available)
  {
    events := [];
    if runtime == Some(RuntimeValue(Shell)) {
      events := events + [Execute(selectedText)];
    } else if runtime == Some(RuntimeValue(NodeJs)) {
      events := events + [Execute("node -e \"" + EscapeForShell(selectedText) + "\"")];
    } else if runtime == Some(RuntimeValue(Python)) {
      var python := "none";
      events := events + [Probe("python")];
      if available("python") {
        python := "python";
      }
      if python == "none" {
        events := events + [Probe("python3")];
        if available("python3") {
          python := "python3";
        }
      }
      if python == "none" {
        events := events + [ShowInformationMessage(PythonMissing)];
      } else {
        events := events + [Execute(python + " -c \"" + EscapeForShell(selectedText) + "\"")];
      }
    } else if runtime == Some(RuntimeValue(TypeScript)) {
      var tsx := "none";
      events := events + [Probe("tsx")];
      if available("tsx") {
        tsx := "tsx";
      }
      if tsx == "none" {
        events := events + [Probe("ts-node")];
        if available("ts-node") {
          tsx := "ts-node";
        }
      }
      if tsx == "none" {
        events := events + [ShowInformationMessage(TypeScriptMissing)];
      } else if tsx == "tsx" {
        events := events + [Execute("tsx -e \"" + EscapeForShell(selectedText) + "\"")];
      } else {
        events := events + [Execute("ts-node " + TsNodeFlags + " -e \"" + EscapeForShell(selectedText) + "\"")];
      }
    }
  }

  /** Shell fragments run verbatim; Node fragments run as `node -e "<escaped>"`. */
  lemma ShellAndNodeCommands(text: string, available: string -> bool)
    ensures ExecuteAtEvents(Some("Shell"), text, available) == [Execute(text)]
    ensures ExecuteAtEvents(Some("NodeJs"), text, available)
         == [Execute("node -e \"" + ShellEscape.EscapeForShell(text) + "\"")]
  {
    EscapeCopiesAgree(text);
  }

  /**
   * Python probes `python`, then `python3` only if `python` failed: the same
   * probes and answer as `detectExecutable` over `["python", "python3"]`.
   */
  lemma PythonIsFirstAvailable(text: string, available: string -> bool)
    ensures var chosen := RuntimeDetector.FirstAvailable(["python", "python3"], available);
      ExecuteAtEvents(Some("Python"), text, available)
      == RuntimeDetector.ProbeLog(["python", "python3"], available)
         + (if chosen == "none" then [ShowInformationMessage(PythonMissing)]
            else [Execute(chosen + " -c \"" + ShellEscape.EscapeForShell(text) + "\"")])
  {
    EscapeCopiesAgree(text);
    assert ["python", "python3"][1..] == ["python3"];
    assert ["python3"][1..] == [];
  }

  /** TypeScript probes `tsx`, then `ts-node` only if `tsx` failed: `detectExecutable` over `["tsx", "ts-node"]`. */
  lemma TypeScriptIsFirstAvailable(text: string, available: string -> bool)
    ensures var chosen := RuntimeDetector.FirstAvailable(["tsx", "ts-node"], available);
      ExecuteAtEvents(Some("TypeScript"), text, available)
      == RuntimeDetector.ProbeLog(["tsx", "ts-node"], available)
         + (if chosen == "none" then [ShowInformationMessage(TypeScriptMissing)]
            else if chosen == "tsx" then [Execute("tsx -e \"" + ShellEscape.EscapeForShell(text) + "\"")]
            else [Execute("ts-node " + TsNodeFlags + " -e \"" + ShellEscape.EscapeForShell(text) + "\"")])
  {
    EscapeCopiesAgree(text);
    assert ["tsx", "ts-node"][1..] == ["ts-node"];
    assert ["ts-node"][1..] == [];
  }

  /** Each invocation runs `execute` at most once, and not at all after an "Unable to find" message. */
  lemma AtMostOneExecute(runtime: Option<string>, text: string, available: string -> bool)
    ensures ExecuteCount(ExecuteAtEvents(runtime, text, available)) <= 1
    ensures ShowInformationMessage(PythonMissing) in ExecuteAtEvents(runtime, text, available)
         || ShowInformationMessage(TypeScriptMissing) in ExecuteAtEvents(runtime, text, available)
         ==> ExecuteCount(ExecuteAtEvents(runtime, text, available)) == 0
  {
    var e := ExecuteAtEvents(runtime, text, available);
    ExecuteCountSmall(e);
  }

  /** The only messages `executeAt` shows are the two "Unable to find" ones. */
  lemma OnlyMissingMessages(runtime: Option<string>, text: string, available: string -> bool)
    ensures forall m :: (ShowInformationMessage(m) in ExecuteAtEvents(runtime, text, available)
                         ==> m == PythonMissing || m == TypeScriptMissing)
  {
  }

  lemma ExecuteCountSmall(e: seq<Event>)
    requires |e| <= 3
    ensures ExecuteCount(e) == (if |e| > 0 && e[0].Execute? then 1 else 0)
                             + (if |e| > 1 && e[1].Execute? then 1 else 0)
                             + (if |e| > 2 && e[2].Execute? then 1 else 0)
  {
    if |e| > 0 {
      if |e| > 1 {
        if |e| > 2 {
          assert e[1..][1..][1..] == [];
        }
      }
    }
  }

  /** An unknown or missing runtime does nothing at all. */
  lemma UnknownRuntimeDoesNothing(runtime: Option<string>, text: string, available: string -> bool)
    requires forall r: Runtime :: runtime != Some(RuntimeValue(r))
    ensures ExecuteAtEvents(runtime, text, available) == []
  {
    assert runtime != Some(RuntimeValue(Shell));
    assert runtime != Some(RuntimeValue(NodeJs));
    assert runtime != Some(RuntimeValue(Python));
    assert runtime != Some(RuntimeValue(TypeScript));
  }

  /** Only `python3` runs (the `python` probe fails): the dispatched command is `python3 -c "<text>"` for plain text. */
  lemma OnlyPython3Installed(text: string, available: string -> bool)
    requires !available("python") && available("python3")
    requires forall k :: 0 <= k < |text| ==> !ShellEscape.IsSpecial(text[k])
    ensures ExecuteAtEvents(Some("Python"), text, available)
         == [Probe("python"), Probe("python3"), Execute("python3 -c \"" + text + "\"")]
  {
    EscapeCopiesAgree(text);
    ShellEscape.EscapeIdentityIff(text);
    assert "python3" + " -c \"" == "python3 -c \"";
  }

  /** Neither `tsx` nor `ts-node`: one message, no `execute`. */
  lemma NoTypeScriptRunner(text: string, available: string -> bool)
    requires !available("tsx") && !available("ts-node")
    ensures ExecuteAtEvents(Some("TypeScript"), text, available)
         == [Probe("tsx"), Probe("ts-node"), ShowInformationMessage(TypeScriptMissing)]
  {
  }
}
