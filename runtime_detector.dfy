/**
 * The executable probe: tries each candidate in order with `<candidate> --version`
 * and answers the first one that runs, or the sentinel `"none"`.
 * The subprocess is an oracle `available`: `available(x)` holds when
 * `x --version` succeeds. Whatever shape a failure has, the candidate is skipped.
 */
module RuntimeDetector {
  import opened Host

  const NoExecutable := "none"

  /** The probes `DetectExecutable` runs: the candidates up to and including the first available one. */
  function ProbeLog(executables: seq<string>, available: string -> bool): seq<Event>
    decreases |executables|
  {
    if executables == [] then []
    else [Probe(executables[0])] + (if available(executables[0]) then [] else ProbeLog(executables[1..], available))
  }

  /** The first available candidate, or `"none"`. */
  function FirstAvailable(executables: seq<string>, available: string -> bool): string
    decreases |executables|
  {
    if executables == [] then NoExecutable
    else if available(executables[0]) then executables[0]
    else FirstAvailable(executables[1..], available)
  }

  /** The probes of the candidates `names`, in order. */
  function Probes(names: seq<string>): seq<Event>
    decreases |names|
  {
    if names == [] then [] else [Probe(names[0])] + Probes(names[1..])
  }

  /** One probe per candidate, in the candidates' order. */
  lemma {:induction false} ProbesAt(names: seq<string>)
    ensures |Probes(names)| == |names|
    ensures forall k :: 0 <= k < |names| ==> Probes(names)[k] == Probe(names[k])
    decreases |names|
  {
    if names != [] {
      ProbesAt(names[1..]);
    }
  }

  lemma {:induction false} ProbesAppend(a: seq<string>, b: seq<string>)
    ensures Probes(a + b) == Probes(a) + Probes(b)
    decreases |a|
  {
    if a == [] {
      assert a + b == b;
    } else {
      ProbesAppend(a[1..], b);
      assert (a + b)[0] == a[0];
      assert (a + b)[1..] == a[1..] + b;
    }
  }

  /** Skipping candidates that all failed changes neither the answer nor the later probes. */
  lemma {:induction false} SkipFailed(executables: seq<string>, available: string -> bool, i: nat)
    requires i <= |executables|
    requires forall j :: 0 <= j < i ==> !available(executables[j])
    ensures FirstAvailable(executables, available) == FirstAvailable(executables[i..], available)
    ensures ProbeLog(executables, available) == Probes(executables[..i]) + ProbeLog(executables[i..], available)
    decreases i
  {
    if i > 0 {
      var rest := executables[1..];
      SkipFailed(rest, available, i - 1);
      assert !available(executables[0]);
      assert FirstAvailable(executables, available) == FirstAvailable(rest, available);
      assert ProbeLog(executables, available) == [Probe(executables[0])] + ProbeLog(rest, available);
      assert rest[i - 1..] == executables[i..];
      assert executables[..i] == [executables[0]] + rest[..i - 1];
      assert Probes(executables[..i]) == [Probe(executables[0])] + Probes(rest[..i - 1]);
    } else {
      assert executables[..0] == [];
      assert executables[0..] == executables;
    }
  }

  method DetectExecutable(executables: seq<string>, available: string -> bool)
    returns (r: string, probes: seq<Event>)
    ensures r == FirstAvailable(executables, available)
    ensures probes == ProbeLog(executables, available)
  {
    probes := [];
    for i := 0 to |executables|
      invariant forall j :: 0 <= j < i ==> !available(executables[j])
      invariant probes == Probes(executables[..i])
    {
      var executable := executables[i];
      probes := probes + [Probe(executable)];
      ProbesAppend(executables[..i], [executable]);
      assert executables[..i + 1] == executables[..i] + [executable];
      if available(executable) {
        SkipFailed(executables, available, i);
        assert executables[i..][1..] == executables[i + 1..];
        return executable, probes;
      }
    }
    SkipFailed(executables, available, |executables|);
    assert executables[..|executables|] == executables;
    return NoExecutable, probes;
  }

  /** The answer is the first candidate that runs, with every earlier one having failed. */
  lemma {:induction false} FirstAvailableIsFirst(executables: seq<string>, available: string -> bool, k: nat)
    requires k < |executables| && available(executables[k])
    requires forall j :: 0 <= j < k ==> !available(executables[j])
    ensures FirstAvailable(executables, available) == executables[k]
    ensures ProbeLog(executables, available) == Probes(executables[..k + 1])
  {
    SkipFailed(executables, available, k);
    assert executables[k..][1..] == executables[k + 1..];
    ProbesAppend(executables[..k], [executables[k]]);
    assert executables[..k + 1] == executables[..k] + [executables[k]];
  }

  /** When no candidate runs, the answer is `"none"` and every candidate was probed once. */
  lemma AllUnavailable(executables: seq<string>, available: string -> bool)
    requires forall j :: 0 <= j < |executables| ==> !available(executables[j])
    ensures FirstAvailable(executables, available) == NoExecutable
    ensures ProbeLog(executables, available) == Probes(executables)
  {
    SkipFailed(executables, available, |executables|);
    assert executables[..|executables|] == executables;
  }

  /** The answer is always a candidate that runs, or `"none"`. */
  lemma {:induction false} FirstAvailableIsCandidate(executables: seq<string>, available: string -> bool)
    ensures var r := FirstAvailable(executables, available);
      r == NoExecutable || (r in executables && available(r))
    decreases |executables|
  {
    if executables != [] && !available(executables[0]) {
      FirstAvailableIsCandidate(executables[1..], available);
    }
  }

  lemma EmptyCandidates(available: string -> bool)
    ensures FirstAvailable([], available) == NoExecutable && ProbeLog([], available) == []
  {
  }
}
