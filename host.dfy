/**
 * What the core sees of the editor host: positions and selections in a
 * document, and the log of effects the core asks the host to perform
 * (notifications, probes, terminal operations, prompts).
 */
module Host {
  import opened Wrappers

  /** A zero-based line and character offset in a document. */
  datatype Position = Position(line: nat, character: nat)

  /** An editor selection; it is empty when it starts where it ends (the cursor). */
  datatype Selection = Selection(start: Position, end: Position) {
    predicate IsEmpty() {
      start == end
    }
  }

  datatype Range = Range(start: Position, end: Position)

  /** The effects the core requests, in the order it requests them. */
  datatype Event =
    | ShowInformationMessage(message: string)
      /** `exec(executable + " --version")`, used as a probe for an interpreter. */
    | Probe(executable: string)
      /** A call of the legacy `execute(command)` entry point of the host side. */
    | Execute(command: string)
      /** A quick pick offering the runtimes, shown when none was detected. */
    | PickRuntime
      /** A confirmation prompt in the configured mode. */
    | Confirm(mode: string)
    | CreateTerminal(terminal: nat)
    | Show(terminal: nat)
      /** `terminal.sendText(text)` or `terminal.sendText(text, shouldExecute)`. */
    | SendText(terminal: nat, text: string, shouldExecute: Option<bool>)

  /** How many events of the log run a command through `execute`. */
  function ExecuteCount(events: seq<Event>): nat
  {
    if events == [] then 0
    else (if events[0].Execute? then 1 else 0) + ExecuteCount(events[1..])
  }

  /** Counting distributes over concatenation of logs. */
  lemma {:induction false} ExecuteCountAppend(a: seq<Event>, b: seq<Event>)
    ensures ExecuteCount(a + b) == ExecuteCount(a) + ExecuteCount(b)
    decreases |a|
  {
    if a == [] {
      assert a + b == b;
    } else {
      assert (a + b)[1..] == a[1..] + b;
      ExecuteCountAppend(a[1..], b);
    }
  }
}
