/**
 * The selection extractor: given the lines of a markdown document and the
 * editor's cursor or selection, finds the code fragment to run and, when it
 * can, its runtime. Four modes: forward from an opening fence, backward from
 * a closing fence, the single cursor line, and an explicit range.
 */
module SelectionExtractor {
  import opened Wrappers
  import opened Strings
  import opened Host
  import opened Types

  datatype SelectionResult = SelectionResult(text: string, runtime: Option<Runtime>)

  predicate IsCommentLine(line: string) {
    StartsWith(line, "//")
  }

  /** Whether a trimmed piece of a line is kept: it is neither blank nor a `//` comment. */
  predicate IsKept(piece: string) {
    piece != "" && !IsCommentLine(piece)
  }

  /** A trimmed piece followed by a newline, or nothing when the piece is blank or a comment. */
  function Keep(piece: string): string
  {
    if piece != "" && !IsCommentLine(piece) then piece + "\n" else ""
  }

  /** The trimmed piece `line[start..end]`, followed by a newline, or nothing when the piece is blank or a comment. */
  function AddLineToSelection(line: string, start: int, end: int): string
  {
    var selection := Trim(Substring(line, start, end));
    Keep(selection)
  }

  /** A line contributes nothing exactly when its piece is blank or a comment, and otherwise the piece and one newline. */
  lemma AddLineToSelectionShape(line: string, start: int, end: int)
    ensures var r := AddLineToSelection(line, start, end);
      var piece := Trim(Substring(line, start, end));
      && (r == "" <==> !IsKept(piece))
      && (r != "" ==> r[..|r| - 1] == piece && r[|r| - 1] == '\n')
  {
  }

  /** What a whole document line contributes to a block. */
  function KeepLine(line: string): string
  {
    Keep(Trim(line))
  }

  /**
   * The block extractors pass the trimmed line with the untrimmed length;
   * that is the same as keeping the whole line.
   */
  lemma AddTrimmedLine(line: string)
    ensures AddLineToSelection(Trim(line), 0, |line|) == KeepLine(line)
    ensures AddLineToSelection(line, 0, |line|) == KeepLine(line)
  {
    TrimFacts(line);
    TrimIdempotent(line);
  }

  /** `detectRuntime(line.trim())`, as every scan calls it. */
  method DetectTrimmedRuntime(line: string) returns (runtime: Option<Runtime>)
    ensures runtime == DetectRuntime(line)
  {
    runtime := DetectRuntime(Trim(line));
    DetectRuntimeTrimInvariant(line);
  }

  /** `addLineToSelection(line.trim(), 0, line.length)`, as the fence scans call it. */
  method AddTrimmedLineToSelection(line: string) returns (piece: string)
    ensures piece == KeepLine(line)
  {
    piece := AddLineToSelection(Trim(line), 0, |line|);
    AddTrimmedLine(line);
  }

  predicate IsFence(line: string) {
    Trim(line) == "```"
  }

  /** The first line at or after `i` that is a bare fence, or the end of the document. */
  function FenceEnd(lines: seq<string>, i: nat): (e: nat)
    requires i <= |lines|
    ensures i <= e <= |lines|
    decreases |lines| - i
  {
    if i == |lines| || IsFence(lines[i]) then i else FenceEnd(lines, i + 1)
  }

  /** `FenceEnd` is the first fence at or after `i`: a fence, and no fence before it. */
  lemma {:induction false} FenceEndIsFirst(lines: seq<string>, i: nat)
    requires i <= |lines|
    ensures var e := FenceEnd(lines, i);
      && (e < |lines| ==> IsFence(lines[e]))
      && (forall k :: i <= k < e ==> !IsFence(lines[k]))
    decreases |lines| - i
  {
    if i < |lines| && !IsFence(lines[i]) {
      FenceEndIsFirst(lines, i + 1);
    }
  }

  /** The kept lines `lo .. hi-1`, in document order, each followed by a newline. */
  function Block(lines: seq<string>, lo: nat, hi: nat): string
    requires lo <= hi <= |lines|
    decreases hi - lo
  {
    if lo == hi then "" else Block(lines, lo, hi - 1) + KeepLine(lines[hi - 1])
  }

  /** The same lines accumulated bottom-up, as the backward scan does. */
  function BlockBackward(lines: seq<string>, lo: nat, hi: nat): string
    requires lo <= hi <= |lines|
    decreases hi - lo
  {
    if lo == hi then "" else BlockBackward(lines, lo + 1, hi) + KeepLine(lines[lo])
  }

  /** The trimmed lines `lo .. hi-1` that the filter keeps, in document order. */
  function Kept(lines: seq<string>, lo: nat, hi: nat): seq<string>
    requires lo <= hi <= |lines|
    decreases hi - lo
  {
    if lo == hi then []
    else Kept(lines, lo, hi - 1) + KeptPiece(lines[hi - 1])
  }

  /** The trimmed line as a one-element list when it is kept, otherwise nothing. */
  function KeptPiece(line: string): seq<string>
  {
    if IsKept(Trim(line)) then [Trim(line)] else []
  }

  /** The nearest line at or above `i` that is a fence marker, or -1. */
  function MarkerAbove(lines: seq<string>, i: int): (m: int)
    requires -1 <= i < |lines|
    ensures -1 <= m <= i
    decreases i + 1
  {
    if i < 0 then -1
    else if DetectRuntime(lines[i]).Some? then i
    else MarkerAbove(lines, i - 1)
  }

  /** `MarkerAbove` is the nearest marker at or above `i`: a marker, and no marker below it up to `i`. */
  lemma {:induction false} MarkerAboveIsNearest(lines: seq<string>, i: int)
    requires -1 <= i < |lines|
    ensures var m := MarkerAbove(lines, i);
      && (m >= 0 ==> DetectRuntime(lines[m]).Some?)
      && (forall k :: m < k <= i ==> DetectRuntime(lines[k]).None?)
    decreases i + 1
  {
    if i >= 0 && DetectRuntime(lines[i]).None? {
      MarkerAboveIsNearest(lines, i - 1);
    }
  }

  /** `text.split('\n').reverse().join('\n')`. */
  function ReverseLines(text: string): string
  {
    Join(Reverse(Split(text, '\n')), '\n')
  }

  /** The runtime of the nearest marker at or above `i`, if any. */
  function RuntimeAbove(lines: seq<string>, i: int): Option<Runtime>
    requires -1 <= i < |lines|
  {
    var m := MarkerAbove(lines, i);
    if m >= 0 then DetectRuntime(lines[m]) else None
  }

  /** The result of the forward scan from an opening fence on `cursorLine`. */
  function OpeningFenceResult(lines: seq<string>, cursorLine: nat, runtime: Runtime): SelectionResult
  {
    if cursorLine + 1 <= |lines| then SelectionResult(Block(lines, cursorLine + 1, FenceEnd(lines, cursorLine + 1)), Some(runtime))
    else SelectionResult("", Some(runtime))
  }

  /** The result of the backward scan from a closing fence on `cursorLine`. */
  function ClosingFenceResult(lines: seq<string>, cursorLine: nat): SelectionResult
    requires cursorLine <= |lines|
  {
    if cursorLine < 2 then SelectionResult("", None)
    else
      var m := MarkerAbove(lines, cursorLine - 1);
      if m >= 0 then SelectionResult(ReverseLines(BlockBackward(lines, m + 1, cursorLine)), DetectRuntime(lines[m]))
      else SelectionResult(BlockBackward(lines, 0, cursorLine), None)
  }

  /** The result of the single-line mode on `cursorLine`. */
  function SingleLineResult(lines: seq<string>, cursorLine: nat): SelectionResult
    requires cursorLine < |lines|
  {
    SelectionResult(Trim(lines[cursorLine]), RuntimeAbove(lines, cursorLine))
  }

  /** The first column of line `k` a range selection covers. */
  function RangeStart(selection: Selection, k: nat): int
  {
    if k == selection.start.line then selection.start.character else 0
  }

  /** The column of line `k` where a range selection ends. */
  function RangeEnd(lines: seq<string>, selection: Selection, k: nat): int
    requires k < |lines|
  {
    if k == selection.end.line then selection.end.character else |lines[k]|
  }

  /** What line `k` of a range selection contributes. */
  function RangePiece(lines: seq<string>, selection: Selection, k: nat): string
    requires k < |lines|
  {
    AddLineToSelection(lines[k], RangeStart(selection, k), RangeEnd(lines, selection, k))
  }

  /** The pieces of the selected lines from the first one up to, excluding, line `hi`. */
  function RangeText(lines: seq<string>, selection: Selection, hi: nat): string
    requires hi <= |lines|
    decreases hi
  {
    if hi <= selection.start.line then "" else RangeText(lines, selection, hi - 1) + RangePiece(lines, selection, hi - 1)
  }

  /** The text a selection covers, or "" when it ends before it starts. */
  function MultiLineText(lines: seq<string>, selection: Selection): string
    requires selection.start.line <= selection.end.line ==> selection.end.line < |lines|
  {
    if selection.start.line <= selection.end.line then RangeText(lines, selection, selection.end.line + 1) else ""
  }

  /** Which mode the editor state selects, and what that mode yields. */
  function ExtractSelection(lines: seq<string>, selection: Selection): SelectionResult
    requires selection.start.line < |lines|
    requires selection.start.line <= selection.end.line ==> selection.end.line < |lines|
  {
    if selection.IsEmpty() then
      var cursorLine := selection.start.line;
      var runtime := DetectRuntime(lines[cursorLine]);
      if runtime.Some? then OpeningFenceResult(lines, cursorLine, runtime.value)
      else if StartsWith(Trim(lines[cursorLine]), "```") then ClosingFenceResult(lines, cursorLine)
      else SingleLineResult(lines, cursorLine)
    else SelectionResult(MultiLineText(lines, selection), None)
  }

  // ---------------------------------------------------------------------------
  // The extractors, as the loops the source runs.
  // ---------------------------------------------------------------------------

  method ExtractFromOpeningFence(documentLines: seq<string>, cursorLine: nat, runtime: Runtime)
    returns (r: SelectionResult)
    ensures r == OpeningFenceResult(documentLines, cursorLine, runtime)
  {
    var text := "";
    var lineIndex := cursorLine + 1;
    if lineIndex > |documentLines| {
      return SelectionResult(text, Some(runtime));
    }
    while lineIndex < |documentLines|
      invariant cursorLine + 1 <= lineIndex <= |documentLines|
      invariant FenceEnd(documentLines, cursorLine + 1) == FenceEnd(documentLines, lineIndex)
      invariant text == Block(documentLines, cursorLine + 1, lineIndex)
    {
      var line := documentLines[lineIndex];
      if IsFence(line) {
        assert FenceEnd(documentLines, lineIndex) == lineIndex;
        break;
      }
      var piece := AddTrimmedLineToSelection(line);
      OpeningScanStep(documentLines, cursorLine + 1, lineIndex);
      text := text + piece;
      lineIndex := lineIndex + 1;
    }
    return SelectionResult(text, Some(runtime));
  }

  /** One line of the forward scan that is not a fence: the fence ahead stays the same, and the line joins the block. */
  lemma OpeningScanStep(lines: seq<string>, lo: nat, i: nat)
    requires lo <= i < |lines| && !IsFence(lines[i])
    ensures FenceEnd(lines, i) == FenceEnd(lines, i + 1)
    ensures Block(lines, lo, i + 1) == Block(lines, lo, i) + KeepLine(lines[i])
  {
  }

  /** `FenceEnd` is the first fence: one found by scanning is it. */
  lemma {:induction false} FenceEndIs(lines: seq<string>, i: nat, e: nat)
    requires i <= e <= |lines|
    requires e < |lines| ==> IsFence(lines[e])
    requires forall k :: i <= k < e ==> !IsFence(lines[k])
    ensures FenceEnd(lines, i) == e
    decreases e - i
  {
    if i < e {
      FenceEndIs(lines, i + 1, e);
    }
  }

  /** `MarkerAbove` is the nearest marker: one found by scanning upwards is it. */
  lemma {:induction false} MarkerAboveIs(lines: seq<string>, i: int, m: int)
    requires -1 <= m <= i < |lines|
    requires m >= 0 ==> DetectRuntime(lines[m]).Some?
    requires forall k :: m < k <= i ==> DetectRuntime(lines[k]).None?
    ensures MarkerAbove(lines, i) == m
    decreases i - m
  {
    if m < i {
      MarkerAboveIs(lines, i - 1, m);
    }
  }

  method ExtractFromClosingFence(documentLines: seq<string>, cursorLine: nat)
    returns (r: SelectionResult)
    requires cursorLine <= |documentLines|
    ensures r == ClosingFenceResult(documentLines, cursorLine)
  {
    if cursorLine < 2 {
      return SelectionResult("", None);
    }
    var lineIndex, text, runtime := ScanUpToMarker(documentLines, cursorLine);
    if runtime.Some? {
      text := ReverseLines(text);
    }
    return SelectionResult(text, runtime);
  }

  /**
   * The loop of the backward scan: from the line above the cursor upwards,
   * stopping at the first marker, accumulating the lines below it bottom-up.
   */
  method ScanUpToMarker(documentLines: seq<string>, cursorLine: nat)
    returns (lineIndex: int, text: string, runtime: Option<Runtime>)
    requires 1 <= cursorLine <= |documentLines|
    ensures lineIndex == MarkerAbove(documentLines, cursorLine - 1)
    ensures text == BlockBackward(documentLines, lineIndex + 1, cursorLine)
    ensures runtime == RuntimeAbove(documentLines, cursorLine - 1)
    ensures runtime.Some? <==> lineIndex >= 0
  {
    text := "";
    runtime := None;
    lineIndex := cursorLine - 1;
    while lineIndex >= 0
      invariant -1 <= lineIndex <= cursorLine - 1
      invariant MarkerAbove(documentLines, cursorLine - 1) == MarkerAbove(documentLines, lineIndex)
      invariant text == BlockBackward(documentLines, lineIndex + 1, cursorLine)
      invariant runtime == None
    {
      var line := documentLines[lineIndex];
      runtime := DetectTrimmedRuntime(line);
      if runtime.Some? {
        assert MarkerAbove(documentLines, lineIndex) == lineIndex;
        return;
      }
      var piece := AddTrimmedLineToSelection(line);
      ClosingScanStep(documentLines, cursorLine, lineIndex);
      text := text + piece;
      lineIndex := lineIndex - 1;
    }
  }

  /** One line of the backward scan that is not a marker: it is accumulated and the search goes on above it. */
  lemma ClosingScanStep(lines: seq<string>, cursorLine: nat, i: nat)
    requires i < cursorLine <= |lines| && DetectRuntime(lines[i]).None?
    ensures MarkerAbove(lines, i) == MarkerAbove(lines, i - 1)
    ensures BlockBackward(lines, i, cursorLine) == BlockBackward(lines, i + 1, cursorLine) + KeepLine(lines[i])
  {
  }

  lemma ClosingFenceWithMarker(lines: seq<string>, cursorLine: nat, m: nat)
    requires 2 <= cursorLine <= |lines| && m < cursorLine && MarkerAbove(lines, cursorLine - 1) == m
    ensures ClosingFenceResult(lines, cursorLine)
         == SelectionResult(ReverseLines(BlockBackward(lines, m + 1, cursorLine)), DetectRuntime(lines[m]))
  {
  }

  lemma ClosingFenceWithoutMarker(lines: seq<string>, cursorLine: nat)
    requires 2 <= cursorLine <= |lines| && MarkerAbove(lines, cursorLine - 1) == -1
    ensures ClosingFenceResult(lines, cursorLine) == SelectionResult(BlockBackward(lines, 0, cursorLine), None)
  {
  }

  method ExtractSingleLineAndFindRuntime(documentLines: seq<string>, cursorLine: nat)
    returns (r: SelectionResult)
    requires cursorLine < |documentLines|
    ensures r == SingleLineResult(documentLines, cursorLine)
  {
    var text := Trim(documentLines[cursorLine]);
    var runtime: Option<Runtime> := None;
    var lineIndex: int := cursorLine;
    while lineIndex >= 0 && runtime.None?
      invariant -1 <= lineIndex <= cursorLine
      invariant runtime.None? ==> MarkerAbove(documentLines, cursorLine) == MarkerAbove(documentLines, lineIndex)
      invariant runtime.Some? ==> runtime == RuntimeAbove(documentLines, cursorLine)
      decreases lineIndex + 1
    {
      runtime := DetectTrimmedRuntime(documentLines[lineIndex]);
      lineIndex := lineIndex - 1;
    }
    return SelectionResult(text, runtime);
  }

  method ExtractFromMultiLineSelection(documentLines: seq<string>, selection: Selection)
    returns (text: string)
    requires selection.start.line <= selection.end.line ==> selection.end.line < |documentLines|
    ensures text == MultiLineText(documentLines, selection)
  {
    text := "";
    if selection.start.line > selection.end.line {
      return;
    }
    for i := selection.start.line to selection.end.line + 1
      invariant text == RangeText(documentLines, selection, i)
    {
      var line := documentLines[i];
      var from, to;
      if selection.start.line == selection.end.line {
        from, to := selection.start.character, selection.end.character;
      } else if i == selection.start.line {
        from, to := selection.start.character, |line|;
      } else if i == selection.end.line {
        from, to := 0, selection.end.character;
      } else {
        from, to := 0, |line|;
      }
      text := text + AddLineToSelection(line, from, to);
    }
  }

  method ExtractSelectionFromEditor(documentText: string, selection: Selection)
    returns (r: SelectionResult)
    requires selection.start.line < |Split(documentText, '\n')|
    requires selection.start.line <= selection.end.line ==> selection.end.line < |Split(documentText, '\n')|
    ensures r == ExtractSelection(Split(documentText, '\n'), selection)
  {
    var documentLines := Split(documentText, '\n');
    if selection.IsEmpty() {
      var cursorLine := selection.start.line;
      var lineAtCursor := documentLines[cursorLine];
      var runtime := DetectTrimmedRuntime(lineAtCursor);
      if runtime.Some? {
        r := ExtractFromOpeningFence(documentLines, cursorLine, runtime.value);
      } else if StartsWith(Trim(lineAtCursor), "```") {
        r := ExtractFromClosingFence(documentLines, cursorLine);
      } else {
        r := ExtractSingleLineAndFindRuntime(documentLines, cursorLine);
      }
    } else {
      var text := ExtractFromMultiLineSelection(documentLines, selection);
      r := SelectionResult(text, None);
    }
  }

  /** Drops one final newline, if there is one. */
  function RemoveTrailingNewline(text: string): (r: string)
    ensures EndsWith(text, "\n") ==> r + "\n" == text
    ensures !EndsWith(text, "\n") ==> r == text
  {
    if EndsWith(text, "\n") then Substring(text, 0, |text| - 1) else text
  }

  /** Only one newline goes: stripping is not idempotent. */
  lemma RemoveTrailingNewlineOnce()
    ensures RemoveTrailingNewline("a\n\n") == "a\n"
    ensures RemoveTrailingNewline(RemoveTrailingNewline("a\n\n")) == "a"
  {
    assert EndsWith("a\n\n", "\n");
    assert EndsWith("a\n", "\n");
  }

  // ---------------------------------------------------------------------------
  // What the extracted text is.
  // ---------------------------------------------------------------------------

  lemma {:induction false} JoinSnoc(parts: seq<string>, x: string, sep: char)
    requires parts != []
    ensures Join(parts + [x], sep) == Join(parts, sep) + [sep] + x
    decreases |parts|
  {
    if |parts| == 1 {
      assert parts + [x] == [parts[0], x];
      assert [parts[0], x][1..] == [x];
    } else {
      JoinSnoc(parts[1..], x, sep);
      assert (parts + [x])[1..] == parts[1..] + [x];
    }
  }

  /** The pieces joined by newlines with one more newline at the end; nothing for no pieces. */
  function Terminated(parts: seq<string>): string {
    if parts == [] then "" else Join(parts, '\n') + "\n"
  }

  /** Terminating one more piece appends it and its newline. */
  lemma TerminatedSnoc(parts: seq<string>, x: string)
    ensures Terminated(parts + [x]) == Terminated(parts) + (x + "\n")
  {
    if parts != [] {
      JoinSnoc(parts, x, '\n');
    } else {
      assert parts + [x] == [x];
    }
  }

  /** A block is its kept lines, each followed by one newline. */
  lemma {:induction false} BlockIsKeptLines(lines: seq<string>, lo: nat, hi: nat)
    requires lo <= hi <= |lines|
    ensures Block(lines, lo, hi) == Terminated(Kept(lines, lo, hi))
    decreases hi - lo
  {
    if lo < hi {
      BlockIsKeptLines(lines, lo, hi - 1);
      KeptPieceTerminated(Kept(lines, lo, hi - 1), lines[hi - 1]);
    }
  }

  /** Keeping one more line appends the same text to a block and to its terminated kept lines. */
  lemma KeptPieceTerminated(before: seq<string>, line: string)
    ensures Terminated(before + KeptPiece(line)) == Terminated(before) + KeepLine(line)
  {
    if IsKept(Trim(line)) {
      TerminatedSnoc(before, Trim(line));
    } else {
      assert before + [] == before;
    }
  }

  /** After stripping the final newline, a block is its kept lines joined by newlines, so it never ends with a newline. */
  lemma BlockFragment(lines: seq<string>, lo: nat, hi: nat)
    requires lo <= hi <= |lines|
    ensures RemoveTrailingNewline(Block(lines, lo, hi)) == Join(Kept(lines, lo, hi), '\n')
    ensures !EndsWith(Join(Kept(lines, lo, hi), '\n'), "\n")
  {
    BlockIsKeptLines(lines, lo, hi);
    KeptPieces(lines, lo, hi);
    var kept := Kept(lines, lo, hi);
    if kept != [] {
      var j := Join(kept, '\n');
      assert EndsWith(j + "\n", "\n");
      assert (j + "\n")[..|j|] == j;
      JoinEndsWithLast(kept, '\n');
    }
  }

  lemma {:induction false} JoinEndsWithLast(parts: seq<string>, sep: char)
    requires parts != [] && parts[|parts| - 1] != ""
    ensures var j := Join(parts, sep); |j| > 0 && j[|j| - 1] == parts[|parts| - 1][|parts[|parts| - 1]| - 1]
    decreases |parts|
  {
    if |parts| > 1 {
      JoinEndsWithLast(parts[1..], sep);
    }
  }

  /** The backward accumulation holds the kept lines bottom-up. */
  lemma {:induction false} BlockBackwardIsReversedKept(lines: seq<string>, lo: nat, hi: nat)
    requires lo <= hi <= |lines|
    ensures BlockBackward(lines, lo, hi) == Terminated(Reverse(Kept(lines, lo, hi)))
    decreases hi - lo
  {
    if lo < hi {
      BlockBackwardIsReversedKept(lines, lo + 1, hi);
      KeptFront(lines, lo, hi);
      var after := Kept(lines, lo + 1, hi);
      var piece := Trim(lines[lo]);
      if IsKept(piece) {
        assert Kept(lines, lo, hi) == [piece] + after;
        ReverseAppend([piece], after);
        assert Reverse([piece]) == [piece];
        assert BlockBackward(lines, lo, hi) == Terminated(Reverse(after)) + (piece + "\n");
        TerminatedSnoc(Reverse(after), piece);
      } else {
        assert Kept(lines, lo, hi) == after;
      }
    }
  }

  /** `Kept` can equally be peeled from the front. */
  lemma {:induction false} KeptFront(lines: seq<string>, lo: nat, hi: nat)
    requires lo < hi <= |lines|
    ensures Kept(lines, lo, hi) == KeptPiece(lines[lo]) + Kept(lines, lo + 1, hi)
    decreases hi - lo
  {
    var first := KeptPiece(lines[lo]);
    if lo + 1 < hi {
      KeptFront(lines, lo, hi - 1);
      var middle := Kept(lines, lo + 1, hi - 1);
      var last := KeptPiece(lines[hi - 1]);
      assert Kept(lines, lo, hi) == (first + middle) + last;
      assert Kept(lines, lo + 1, hi) == middle + last;
      ConcatAssociative(first, middle, last);
    } else {
      assert Kept(lines, lo, hi) == [] + first;
      assert Kept(lines, lo + 1, hi) == [];
      ConcatAssociative([], first, []);
    }
  }

  predicate NoNewlines(lines: seq<string>) {
    forall k :: 0 <= k < |lines| ==> '\n' !in lines[k]
  }

  /** Non-blank, non-comment pieces, none ending in whitespace. */
  predicate AllKept(pieces: seq<string>) {
    forall k :: 0 <= k < |pieces| ==> IsKept(pieces[k]) && !IsWhitespace(pieces[k][|pieces[k]| - 1])
  }

  /** Every kept piece is a non-blank, non-comment trimmed line; it has no newline when the lines have none. */
  lemma {:induction false} KeptPieces(lines: seq<string>, lo: nat, hi: nat)
    requires lo <= hi <= |lines|
    ensures AllKept(Kept(lines, lo, hi))
    ensures NoNewlines(lines) ==> NoNewlines(Kept(lines, lo, hi))
    decreases hi - lo
  {
    if lo < hi {
      KeptPieces(lines, lo, hi - 1);
      TrimFacts(lines[hi - 1]);
      var before := Kept(lines, lo, hi - 1);
      var piece := Trim(lines[hi - 1]);
      if IsKept(piece) {
        assert Kept(lines, lo, hi) == before + [piece];
      } else {
        assert Kept(lines, lo, hi) == before;
      }
    }
  }

  /**
   * The backward scan's re-reversal puts the kept lines back in document
   * order, but the empty piece after the last newline comes first: the
   * result is a newline followed by the kept lines joined by newlines.
   */
  lemma ReversedBlock(lines: seq<string>, lo: nat, hi: nat)
    requires lo <= hi <= |lines| && NoNewlines(lines)
    ensures ReverseLines(BlockBackward(lines, lo, hi))
         == if Kept(lines, lo, hi) == [] then "" else "\n" + Join(Kept(lines, lo, hi), '\n')
  {
    BlockBackwardIsReversedKept(lines, lo, hi);
    var kept := Kept(lines, lo, hi);
    if kept == [] {
      assert Split("", '\n') == [""];
      assert Reverse([""]) == [""];
    } else {
      KeptPieces(lines, lo, hi);
      ReverseLinesOfReversedJoin(kept);
    }
  }

  /** Reversing the lines of `parts` joined bottom-up, with a final newline, restores their order behind one leading newline. */
  lemma ReverseLinesOfReversedJoin(parts: seq<string>)
    requires parts != [] && NoNewlines(parts)
    ensures ReverseLines(Join(Reverse(parts), '\n') + "\n") == "\n" + Join(parts, '\n')
  {
    var rk := Reverse(parts);
    ReverseIndex(parts);
    var pieces := rk + [""];
    assert NoNewlines(pieces) by {
      forall k | 0 <= k < |pieces| ensures '\n' !in pieces[k] {
        if k < |rk| {
          assert pieces[k] == parts[|parts| - 1 - k];
        }
      }
    }
    JoinSnoc(rk, "", '\n');
    assert Join(rk, '\n') + "\n" == Join(pieces, '\n');
    SplitJoin(pieces, '\n');
    ReverseAppend(rk, [""]);
    assert Reverse([""]) == [""];
    ReverseReverse(parts);
    assert Reverse(pieces) == [""] + parts;
    JoinCons("", parts, '\n');
  }

  lemma JoinCons(x: string, parts: seq<string>, sep: char)
    requires parts != []
    ensures Join([x] + parts, sep) == x + [sep] + Join(parts, sep)
  {
    assert ([x] + parts)[1..] == parts;
  }

  /** Line `o` opens a block of code that line `c` closes, with no marker or fence between them. */
  predicate IsFencedBlock(lines: seq<string>, o: nat, c: nat) {
    && o < c < |lines|
    && DetectRuntime(lines[o]).Some? && IsFence(lines[c])
    && (forall k :: o < k < c ==> !IsFence(lines[k]) && DetectRuntime(lines[k]).None?)
  }

  /** The forward scan from the opening marker stops at the closing fence. */
  lemma OpeningScanOfBlock(lines: seq<string>, o: nat, c: nat)
    requires IsFencedBlock(lines, o, c)
    ensures OpeningFenceResult(lines, o, DetectRuntime(lines[o]).value)
         == SelectionResult(Block(lines, o + 1, c), DetectRuntime(lines[o]))
  {
    FenceEndIs(lines, o + 1, c);
  }

  /** The backward scan from the closing fence stops at the opening marker. */
  lemma ClosingScanOfBlock(lines: seq<string>, o: nat, c: nat)
    requires IsFencedBlock(lines, o, c) && 2 <= c
    ensures ClosingFenceResult(lines, c)
         == SelectionResult(ReverseLines(BlockBackward(lines, o + 1, c)), DetectRuntime(lines[o]))
  {
    MarkerAboveIs(lines, c - 1, o);
    ClosingFenceWithMarker(lines, c, o);
  }

  /** After stripping, the backward scan of a non-empty block is a newline and the kept lines. */
  lemma ClosingTextOfBlock(lines: seq<string>, lo: nat, hi: nat)
    requires lo <= hi <= |lines| && NoNewlines(lines)
    ensures var kept := Kept(lines, lo, hi);
      RemoveTrailingNewline(ReverseLines(BlockBackward(lines, lo, hi))) == if kept == [] then "" else "\n" + Join(kept, '\n')
  {
    ReversedBlock(lines, lo, hi);
    var kept := Kept(lines, lo, hi);
    if kept != [] {
      BlockFragment(lines, lo, hi);
      KeptPieces(lines, lo, hi);
      JoinEndsWithLast(kept, '\n');
      LeadingNewlineKept(Join(kept, '\n'));
    }
  }

  /**
   * A block opened by a marker on line `o` and closed by a bare fence on
   * line `c`: the forward scan from `o` and the backward scan from `c` keep
   * the same lines and find the same runtime, but after the final newline is
   * stripped the backward result has an extra newline in front.
   */
  lemma OpeningAndClosingAgree(lines: seq<string>, o: nat, c: nat)
    requires IsFencedBlock(lines, o, c) && 2 <= c && NoNewlines(lines)
    ensures var opening := OpeningFenceResult(lines, o, DetectRuntime(lines[o]).value);
      var closing := ClosingFenceResult(lines, c);
      var kept := Kept(lines, o + 1, c);
      && opening.runtime == closing.runtime
      && RemoveTrailingNewline(opening.text) == Join(kept, '\n')
      && RemoveTrailingNewline(closing.text) == if kept == [] then "" else "\n" + Join(kept, '\n')
  {
    OpeningScanOfBlock(lines, o, c);
    ClosingScanOfBlock(lines, o, c);
    BlockFragment(lines, o + 1, c);
    ClosingTextOfBlock(lines, o + 1, c);
  }

  /** A newline in front survives the stripping when the text itself does not end with one. */
  lemma LeadingNewlineKept(t: string)
    requires t != "" && !EndsWith(t, "\n")
    ensures RemoveTrailingNewline("\n" + t) == "\n" + t
  {
    assert ("\n" + t)[|t|] == t[|t| - 1];
    assert t[|t| - 1..] != "\n";
  }

  /** Selecting whole lines `s .. e` (from column 0 to the end of line `e`) gives the same block as the fence scans. */
  lemma {:induction false} FullLineRange(lines: seq<string>, selection: Selection, hi: nat)
    requires selection.start.line < selection.end.line < |lines|
    requires selection.start.character == 0 && |lines[selection.end.line]| <= selection.end.character
    requires selection.start.line <= hi <= selection.end.line + 1
    ensures RangeText(lines, selection, hi) == Block(lines, selection.start.line, hi)
    decreases hi
  {
    if hi > selection.start.line {
      FullLineRange(lines, selection, hi - 1);
    }
  }

  /** Empty, or ending with a newline. */
  predicate IsLineText(t: string) {
    t == "" || t[|t| - 1] == '\n'
  }

  lemma AppendLineText(a: string, b: string)
    requires IsLineText(a) && IsLineText(b)
    ensures IsLineText(a + b)
  {
    if b == "" {
      assert a + b == a;
    }
  }

  lemma RangePieceIsLineText(lines: seq<string>, selection: Selection, k: nat)
    requires k < |lines|
    ensures IsLineText(RangePiece(lines, selection, k))
  {
  }

  lemma RangeTextStep(lines: seq<string>, selection: Selection, hi: nat)
    requires selection.start.line < hi <= |lines|
    requires IsLineText(RangeText(lines, selection, hi - 1))
    ensures IsLineText(RangeText(lines, selection, hi))
  {
    RangePieceIsLineText(lines, selection, hi - 1);
    AppendLineText(RangeText(lines, selection, hi - 1), RangePiece(lines, selection, hi - 1));
  }

  /** Every piece of a range ends with a newline, so a range text is empty or ends with one. */
  lemma {:induction false} RangeTextShape(lines: seq<string>, selection: Selection, hi: nat)
    requires hi <= |lines|
    ensures IsLineText(RangeText(lines, selection, hi))
    decreases hi
  {
    if hi > selection.start.line {
      RangeTextShape(lines, selection, hi - 1);
      RangeTextStep(lines, selection, hi);
    }
  }

  /** The lines of a document split on newlines never contain a newline, so the reversal lemma applies to them. */
  lemma DocumentLinesHaveNoNewlines(documentText: string)
    ensures NoNewlines(Split(documentText, '\n'))
  {
    SplitPieces(documentText, '\n');
  }
}
