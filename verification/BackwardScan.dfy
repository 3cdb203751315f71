/** The chunked backward line reader (pkg/gatewaylog/manager.go). */
module BackwardScan {
  // scanLinesBackward reads a file from `endOffset` towards its start in chunks; the part
  // of a line that reaches beyond the chunk read so far is carried in a remainder buffer.
  // The Go callback `onLine` becomes a pure step over a visitor state, whose flag says
  // whether to keep scanning.

  import opened Bytes

  /** A reported line and the file offset at which it starts. */
  datatype Line = Line(text: string, start: nat)

  const CR: set<char> := {'\r'}
  const CRLF: set<char> := {'\r', '\n'}

  /** The report for one raw line: trailing CRs go, a line then empty is skipped. */
  function Report(raw: string, start: nat): seq<Line> {
    var text := TrimRight(raw, CR);
    if text == "" then [] else [Line(text, start)]
  }

  /** Reference definition: split `text` at newlines from the left. */
  function LinesOf(text: string, base: nat): seq<Line>
    decreases |text|
  {
    var i := FirstIndex(text, '\n');
    if i == -1 then Report(text, base)
    else Report(text[..i], base) + LinesOf(text[i + 1..], base + i + 1)
  }

  /** The same lines, last first, split off from the right. */
  function BackLines(text: string): seq<Line>
    decreases |text|
  {
    var i := LastIndex(text, '\n');
    if i == -1 then Report(text, 0)
    else Report(text[i + 1..], i + 1) + BackLines(text[..i])
  }

  /** Run a visitor over `lines` until it asks to stop. */
  function Visit<S>(onLine: (S, string, nat) -> (S, bool), s: S, lines: seq<Line>): S {
    if lines == [] then s
    else
      var (s', keep) := onLine(s, lines[0].text, lines[0].start);
      if keep then Visit(onLine, s', lines[1..]) else s'
  }

  // ------------------------------------------------------------------
  // BackLines against the reference
  // ------------------------------------------------------------------

  lemma {:induction false} LinesOfSplit(a: string, b: string, base: nat)
    ensures LinesOf(a + "\n" + b, base) == LinesOf(a, base) + LinesOf(b, base + |a| + 1)
    decreases |a|
  {
    hide FirstIndex, Report, LinesOf;
    var text := a + "\n" + b;
    var i := FirstIndex(a, '\n');
    FirstIndexSplit(a, '\n', b);
    if i == -1 {
      assert text[..|a|] == a && text[|a| + 1..] == b;
      LinesOfUnfold(text, |a|, base);
      LinesOfNone(a, base);
    } else {
      var rest := a[i + 1..];
      assert text[..i] == a[..i];
      assert text[i + 1..] == rest + "\n" + b;
      LinesOfSplit(rest, b, base + i + 1);
      LinesOfUnfold(text, i, base);
      LinesOfUnfold(a, i, base);
    }
  }

  lemma {:induction false} LinesOfNone(text: string, base: nat)
    requires FirstIndex(text, '\n') == -1
    ensures LinesOf(text, base) == Report(text, base)
  {
    hide FirstIndex, Report;
  }

  lemma {:induction false} LinesOfUnfold(text: string, i: nat, base: nat)
    requires i == FirstIndex(text, '\n')
    ensures LinesOf(text, base) == Report(text[..i], base) + LinesOf(text[i + 1..], base + i + 1)
  {
    hide FirstIndex, Report;
  }

  /** Splitting from the right gives the reference lines in reverse. */
  lemma {:induction false} BackLinesReverse(text: string)
    ensures BackLines(text) == Reverse(LinesOf(text, 0))
    decreases |text|
  {
    hide Report, LinesOf, BackLines, Reverse;
    var i := LastIndex(text, '\n');
    if i == -1 {
      FirstIndexNone(text, '\n');
      LinesOfNone(text, 0);
      BackLinesNone(text);
      ReverseReport(text, 0);
    } else {
      var a, b := text[..i], text[i + 1..];
      assert text == a + "\n" + b;
      LinesOfSplit(a, b, 0);
      BackLinesReverse(a);
      assert '\n' !in b;
      FirstIndexNone(b, '\n');
      LinesOfNone(b, i + 1);
      BackLinesUnfold(text, i);
      ReverseConcat(LinesOf(a, 0), LinesOf(b, i + 1));
      ReverseReport(b, i + 1);
    }
  }

  lemma {:induction false} ReverseReport(raw: string, start: nat)
    ensures Reverse(Report(raw, start)) == Report(raw, start)
  {
  }

  // ------------------------------------------------------------------
  // Steps of the scan
  // ------------------------------------------------------------------

  lemma {:induction false} BackLinesTrimOne(t: string, c: char)
    requires c in CRLF
    ensures BackLines(t + [c]) == BackLines(t)
  {
    hide BackLines, LastIndex, TrimRight;
    var text, i := t + [c], LastIndex(t, '\n');
    LastIndexAppend(t, [c], '\n');
    LastIndexOne(c, '\n');
    if c == '\n' {
      assert text[|t| + 1..] == "" && text[..|t|] == t;
      BackLinesUnfold(text, |t|);
      assert TrimRight("", CR) == "";
    } else if i >= 0 {
      assert text[i + 1..] == t[i + 1..] + [c] && text[..i] == t[..i];
      TrimRightAppend(t[i + 1..], c, CR);
      BackLinesUnfold(text, i);
      BackLinesUnfold(t, i);
    } else {
      TrimRightAppend(t, c, CR);
      BackLinesNone(text);
      BackLinesNone(t);
    }
  }

  lemma {:induction false} LastIndexOne(c: char, d: char)
    ensures LastIndex([c], d) == if c == d then 0 else -1
  {
  }

  /** Line ends at the very end of the text contribute nothing. */
  lemma {:induction false} BackLinesTrim(text: string, tail: string)
    requires forall c :: c in tail ==> c in CRLF
    ensures BackLines(text + tail) == BackLines(text)
    decreases |tail|
  {
    hide BackLines;
    if tail == "" {
      assert text + tail == text;
    } else {
      var c := tail[|tail| - 1];
      var t := text + tail[..|tail| - 1];
      assert text + tail == t + [c];
      BackLinesTrim(text, tail[..|tail| - 1]);
      BackLinesTrimOne(t, c);
    }
  }

  /** The first pass drops the line ends at the end of the file. */
  lemma {:induction false} FirstTrim(front: string, text: string)
    ensures BackLines(front + text) == BackLines(front + TrimRight(text, CRLF))
  {
    hide BackLines;
    var kept := TrimRight(text, CRLF);
    assert front + text == front + kept + text[|kept|..];
    BackLinesTrim(front + kept, text[|kept|..]);
  }

  /** Cutting the last line out of `front + back` when the newline is in `back`. */
  lemma {:induction false} BackLinesCut(front: string, back: string, i: nat)
    requires i == LastIndex(back, '\n')
    ensures BackLines(front + back) == Report(back[i + 1..], |front| + i + 1) + BackLines(front + back[..i])
  {
    hide LastIndex, Report, BackLines;
    LastIndexAppend(front, back, '\n');
    var text := front + back;
    var j := |front| + i;
    assert text[j + 1..] == back[i + 1..];
    assert text[..j] == front + back[..i];
    BackLinesUnfold(text, j);
  }

  lemma {:induction false} BackLinesNone(text: string)
    requires LastIndex(text, '\n') == -1
    ensures BackLines(text) == Report(text, 0)
  {
  }

  lemma {:induction false} BackLinesUnfold(text: string, i: nat)
    requires i == LastIndex(text, '\n')
    ensures BackLines(text) == Report(text[i + 1..], i + 1) + BackLines(text[..i])
  {
  }

  /** One visitor step: a raw line is skipped when empty after trimming. */
  lemma {:induction false} VisitReport<S>(onLine: (S, string, nat) -> (S, bool), s: S, raw: string, start: nat,
                                          rest: seq<Line>)
    ensures var text := TrimRight(raw, CR);
            Visit(onLine, s, Report(raw, start) + rest) ==
              if text == "" then Visit(onLine, s, rest)
              else if onLine(s, text, start).1 then Visit(onLine, onLine(s, text, start).0, rest)
              else onLine(s, text, start).0
  {
    var text := TrimRight(raw, CR);
    if text == "" {
      assert Report(raw, start) + rest == rest;
    } else {
      assert (Report(raw, start) + rest)[1..] == rest;
    }
  }

  /** What is left at the start of the file is one line. */
  lemma {:induction false} LastLine<S>(onLine: (S, string, nat) -> (S, bool), s: S, text: string)
    requires '\n' !in text
    ensures var t := TrimRight(text, CRLF);
            Visit(onLine, s, BackLines(text)) == if t == "" then s else onLine(s, t, 0).0
  {
    FirstIndexNone(text, '\n');
    TrimSame(text);
    VisitReport(onLine, s, text, 0, []);
    assert Report(text, 0) + [] == Report(text, 0);
  }

  /** file.ReadAt on a range inside the file. */
  method ReadAt(file: string, start: nat, n: nat, buffer: array<char>)
    requires start + n <= |file| && n <= buffer.Length
    modifies buffer
    ensures buffer[..n] == file[start..start + n]
  {
    for k := 0 to n
      invariant forall j :: 0 <= j < k ==> buffer[j] == file[start + j]
    {
      buffer[k] := file[start + k];
    }
  }

  /** Go's copy of `src[:n]` to `dst[at:]`. */
  method CopyTo(dst: array<char>, at: nat, src: array<char>, n: nat)
    requires dst != src && n <= src.Length && at + n <= dst.Length
    modifies dst
    ensures dst[at..at + n] == src[..n]
    ensures forall j :: 0 <= j < at ==> dst[j] == old(dst[j])
  {
    for k := 0 to n
      invariant forall j :: 0 <= j < k ==> dst[at + j] == src[j]
      invariant forall j :: 0 <= j < at ==> dst[j] == old(dst[j])
    {
      dst[at + k] := src[k];
    }
  }

  /** Read one chunk and put the remainder of the previous pass behind it; the
      combined buffer is replaced only when it is too small. */
  method ReadChunk(file: string, start: nat, readSize: nat, readBuffer: array<char>,
                   remainder: array<char>, remainderLen: nat, combinedBuffer: array<char>)
    returns (combined: array<char>, combinedLen: nat, grown: array<char>)
    requires start + readSize <= |file|
    requires readSize <= readBuffer.Length && remainderLen <= remainder.Length
    requires remainder != combinedBuffer && readBuffer != combinedBuffer && remainder != readBuffer
    modifies readBuffer, combinedBuffer
    ensures grown == combinedBuffer || fresh(grown)
    ensures combined == readBuffer || combined == grown
    ensures combinedLen <= combined.Length
    ensures combined[..combinedLen] == file[start..start + readSize] + remainder[..remainderLen]
  {
    ReadAt(file, start, readSize, readBuffer);
    combined, combinedLen, grown := readBuffer, readSize, combinedBuffer;
    if remainderLen > 0 {
      var needed := readSize + remainderLen;
      if grown.Length < needed {
        grown := new char[needed];
      }
      CopyTo(grown, 0, readBuffer, readSize);
      CopyTo(grown, readSize, remainder, remainderLen);
      assert grown[..needed] == grown[..readSize] + grown[readSize..needed];
      combined, combinedLen := grown, needed;
    }
  }

  /** len(bytes.TrimRight(combined[:n], "\r\n")) */
  method TrimEnd(combined: array<char>, n: nat) returns (end: nat)
    requires n <= combined.Length
    ensures end <= n && combined[..end] == TrimRight(combined[..n], CRLF)
  {
    end := |TrimRight(combined[..n], CRLF)|;
  }

  /** The inner loop: report the lines that start inside `combined[..end]`, which
      follows `front` in the file, and keep the part before the first of them. */
  method ScanCombined<S>(ghost front: string, start: nat, combined: array<char>, end: nat, init: S,
                         onLine: (S, string, nat) -> (S, bool))
    returns (s: S, scanEnd: nat, stopped: bool)
    requires end <= combined.Length && start == |front|
    ensures scanEnd <= end && (!stopped ==> '\n' !in combined[..scanEnd])
    ensures Visit(onLine, init, BackLines(front + combined[..end]))
         == if stopped then s else Visit(onLine, s, BackLines(front + combined[..scanEnd]))
  {
    hide LastIndex, TrimRight, BackLines, Report, Visit;
    s, scanEnd, stopped := init, end, false;
    while scanEnd > 0
      invariant 0 <= scanEnd <= end
      invariant Visit(onLine, init, BackLines(front + combined[..end]))
             == Visit(onLine, s, BackLines(front + combined[..scanEnd]))
    {
      ghost var back := combined[..scanEnd];
      var index := LastIndex(combined[..scanEnd], '\n');
      if index == -1 {
        assert '\n' !in back;
        break;
      }
      BackLinesCut(front, back, index);
      assert back[index + 1..] == combined[index + 1..scanEnd] && back[..index] == combined[..index];
      VisitReport(onLine, s, back[index + 1..], start + index + 1, BackLines(front + back[..index]));
      var line := TrimRight(combined[index + 1..scanEnd], CR);
      var lineStart := start + index + 1;
      scanEnd := index;
      if line == "" {
        continue;
      }
      var (next, keepScanning) := onLine(s, line, lineStart);
      s := next;
      if !keepScanning {
        stopped := true;
        return;
      }
    }
  }

  /** append(remainder[:0], combined[:n]...): the old storage is reused if it is large enough. */
  method Keep(remainder: array<char>, combined: array<char>, n: nat) returns (kept: array<char>)
    requires remainder != combined && n <= combined.Length
    modifies remainder
    ensures kept == remainder || fresh(kept)
    ensures n <= kept.Length && kept[..n] == old(combined[..n])
  {
    kept := remainder;
    if kept.Length < n {
      kept := new char[n];
    }
    CopyTo(kept, 0, combined, n);
  }

  /** scanLinesBackward: the visitor sees exactly the lines of
      `file[..endOffset]`, last first, until it stops, for every chunk size. */
  method ScanLinesBackward<S>(file: string, endOffset: nat, chunkSize: nat, init: S,
                              onLine: (S, string, nat) -> (S, bool))
    returns (s: S)
    requires endOffset <= |file| && chunkSize >= 1
    ensures s == Visit(onLine, init, Reverse(LinesOf(file[..endOffset], 0)))
  {
    hide LastIndex, TrimRight, BackLines, LinesOf, Report, Reverse, Visit;
    ghost var whole := file[..endOffset];
    BackLinesReverse(whole);
    s := init;
    var position := endOffset;
    var remainder := new char[0];
    var remainderLen := 0;
    var readBuffer := new char[if 0 < endOffset < chunkSize then endOffset else chunkSize];
    var combinedBuffer := new char[0];
    var firstPass := true;
    ghost var rem := "";
    assert file[..position] + rem == whole;

    while position > 0
      invariant position <= endOffset
      invariant fresh(remainder) && fresh(readBuffer) && fresh(combinedBuffer)
      invariant remainder != readBuffer && readBuffer != combinedBuffer && remainder != combinedBuffer
      invariant readBuffer.Length == if 0 < endOffset < chunkSize then endOffset else chunkSize
      invariant 0 <= remainderLen <= remainder.Length && remainder[..remainderLen] == rem && '\n' !in rem
      invariant Visit(onLine, init, BackLines(whole)) == Visit(onLine, s, BackLines(file[..position] + rem))
    {
      var readSize := if chunkSize > position then position else chunkSize;
      var start := position - readSize;
      ghost var front, text := file[..start], file[start..position] + rem;
      assert file[..position] + rem == front + text;
      var combined, combinedLen, grown :=
        ReadChunk(file, start, readSize, readBuffer, remainder, remainderLen, combinedBuffer);
      combinedBuffer := grown;
      assert combined[..combinedLen] == text;

      var scanEnd := combinedLen;
      if firstPass {
        scanEnd := TrimEnd(combined, scanEnd);
        FirstTrim(front, text);
        text := TrimRight(text, CRLF);
        firstPass := false;
      }
      assert combined[..scanEnd] == text;

      var stopped;
      s, scanEnd, stopped := ScanCombined(front, start, combined, scanEnd, s, onLine);
      if stopped {
        return;
      }
      rem := combined[..scanEnd];
      remainder := Keep(remainder, combined, scanEnd);
      remainderLen := scanEnd;
      position := start;
    }

    assert file[..0] + rem == rem;
    LastLine(onLine, s, rem);
    var line := TrimRight(remainder[..remainderLen], CRLF);
    if line == "" {
      return;
    }
    var (final, _) := onLine(s, line, 0);
    s := final;
  }

  lemma {:induction false} TrimSame(text: string)
    requires '\n' !in text
    ensures TrimRight(text, CR) == TrimRight(text, CRLF)
    decreases |text|
  {
    if text != "" {
      assert text[|text| - 1] in text;
      if text[|text| - 1] in CRLF {
        TrimSame(text[..|text| - 1]);
      }
    }
  }
}
