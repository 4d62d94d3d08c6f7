/** The runtime catalogue: the supported script kinds and fence-marker detection. */
module Types {
  import opened Wrappers
  import opened Strings

  datatype Runtime = Shell | NodeJs | Python | TypeScript

  /** The string value of each enum member, which is what travels through commands and quick picks. */
  function RuntimeValue(r: Runtime): (v: string)
    ensures v != ""
  {
    match r
    case Shell => "Shell"
    case NodeJs => "NodeJs"
    case Python => "Python"
    case TypeScript => "TypeScript"
  }

  lemma RuntimeValueInjective(r: Runtime, q: Runtime)
    ensures RuntimeValue(r) == RuntimeValue(q) ==> r == q
  {
  }

  /**
   * The arguments of the `execute` command. In the source `runtime` and
   * `command` are untyped at the call site, so both may be missing.
   */
  datatype CommandArgs = CommandArgs(runtime: Option<string>, command: Option<string>)

  /** Looks the trimmed line up among the exact fence markers. */
  function DetectRuntime(line: string): Option<Runtime>
  {
    MarkerRuntime(Trim(line))
  }

  /** The exact fence markers and the runtime each one names. */
  const MarkerTable: map<string, Runtime> :=
    map["```sh" := Shell, "```bash" := Shell, "```js" := NodeJs, "```python" := Python,
        "```ts" := TypeScript, "```typescript" := TypeScript]

  /** The runtime an already trimmed line names, looked up in the marker table. */
  function MarkerRuntime(trimmedLine: string): Option<Runtime>
  {
    if trimmedLine in MarkerTable then Some(MarkerTable[trimmedLine]) else None
  }

  /** The chain of comparisons in the order the detector makes them. */
  function MarkerChain(trimmedLine: string): Option<Runtime>
  {
    if trimmedLine == "```sh" || trimmedLine == "```bash" then Some(Shell)
    else if trimmedLine == "```js" then Some(NodeJs)
    else if trimmedLine == "```python" then Some(Python)
    else if trimmedLine == "```ts" || trimmedLine == "```typescript" then Some(TypeScript)
    else None
  }

  /** The table gives what the chain of comparisons gives, on every line. */
  lemma MarkerTableIsChain(trimmedLine: string)
    ensures MarkerRuntime(trimmedLine) == MarkerChain(trimmedLine)
  {
  }

  /** The fence markers each runtime is recognised by: three backticks and one of its tags. */
  function Markers(r: Runtime): set<string>
  {
    match r
    case Shell => {"```sh", "```bash"}
    case NodeJs => {"```js"}
    case Python => {"```python"}
    case TypeScript => {"```ts", "```typescript"}
  }

  /** A line opens a block of runtime `r` exactly when, trimmed, it is one of `r`'s markers. */
  lemma DetectRuntimeIff(line: string, r: Runtime)
    ensures DetectRuntime(line) == Some(r) <==> Trim(line) in Markers(r)
  {
  }

  /** Every marker is a fence: the dispatch tries opening fences before other fence lines. */
  lemma DetectRuntimeIsFence(line: string)
    ensures DetectRuntime(line).Some? ==> StartsWith(Trim(line), "```")
  {
  }

  /** Every other line, including an empty one, a bare fence and an unknown tag, detects nothing. */
  lemma DetectRuntimeNone(line: string)
    ensures DetectRuntime(line) == None <==> forall r: Runtime :: Trim(line) !in Markers(r)
  {
    DetectRuntimeIff(line, Shell);
    DetectRuntimeIff(line, NodeJs);
    DetectRuntimeIff(line, Python);
    DetectRuntimeIff(line, TypeScript);
  }

  /** Surrounding whitespace never changes the result. */
  lemma DetectRuntimeTrimInvariant(line: string)
    ensures DetectRuntime(line) == DetectRuntime(Trim(line))
  {
    TrimIdempotent(line);
  }

  /** Matching is exact after trimming: a longer tag or trailing words detect nothing. */
  lemma DetectRuntimeByTrimmedLine(line: string)
    ensures Trim(line) == "```sh" || Trim(line) == "```bash" ==> DetectRuntime(line) == Some(Shell)
    ensures Trim(line) == "```js" ==> DetectRuntime(line) == Some(NodeJs)
    ensures Trim(line) == "```python" ==> DetectRuntime(line) == Some(Python)
    ensures Trim(line) == "```ts" || Trim(line) == "```typescript" ==> DetectRuntime(line) == Some(TypeScript)
    ensures Trim(line) in {"", "```", "```json", "```shell", "```sh x"} ==> DetectRuntime(line) == None
  {
  }

  lemma PaddedMarkerTrimmed()
    ensures Trim("  ```sh  ") == "```sh"
  {
    assert TrimStart("  ```sh  ") == "```sh  ";
    assert TrimEnd("```sh  ") == "```sh";
  }

  lemma DetectRuntimePaddedCases()
    ensures DetectRuntime("") == None
    ensures DetectRuntime("  ```sh  ") == Some(Shell)
  {
    DetectRuntimeByTrimmedLine("");
    PaddedMarkerTrimmed();
    DetectRuntimeByTrimmedLine("  ```sh  ");
  }
}
