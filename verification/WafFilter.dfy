/** Filtering rule files of directives about rules that are not enabled, and collecting the
    ids that rules define (pkg/waf/loader.go:358-540). */
module WafFilter {
  import opened Bytes
  import opened Decimal

  const DIRECTIVE := "SecRuleUpdateTargetById"
  const SKIPPED := "# fn-knock skipped SecRuleUpdateTargetById "
  const REASON := " because the target rule is not enabled"

  function LowerASCII(c: char): char {
    if 'A' <= c <= 'Z' then (c as int + 32) as char else c
  }

  /** isRegexpSpace: without the vertical tab that TrimSpace also cuts. */
  predicate Space(c: char) {
    c == ' ' || c == '\t' || c == '\n' || c == '\U{0C}' || c == '\r'
  }

  predicate WordByte(c: char) {
    'a' <= c <= 'z' || 'A' <= c <= 'Z' || '0' <= c <= '9' || c == '_'
  }

  // ------------------------------------------------------------------
  // Numbers
  // ------------------------------------------------------------------

  /** A digit string as an int, when it is one and fits. */
  function RuleID(digits: string): Option<nat> {
    if digits != "" && AllDigits(digits) && Value(digits) <= MAX_INT64 then Some(Value(digits)) else None
  }

  lemma {:induction false} ValueGrows(s: string, n: nat)
    requires AllDigits(s) && n <= |s|
    ensures Value(s[..n]) <= Value(s)
  {
    if n < |s| {
      assert s[..|s| - 1][..n] == s[..n];
      ValueGrows(s[..|s| - 1], n);
    } else {
      assert s[..n] == s;
    }
  }

  /** parseRuleIDDigits: the overflow test before each digit rejects exactly the numbers that do
      not fit. */
  method ParseRuleIDDigits(raw: string) returns (id: Option<nat>)
    ensures id == RuleID(raw)
  {
    if |raw| == 0 {
      return None;
    }
    var n := 0;
    for i := 0 to |raw|
      invariant AllDigits(raw[..i]) && n == Value(raw[..i]) <= MAX_INT64
    {
      if raw[i] < '0' || raw[i] > '9' {
        return None;
      }
      var digit := raw[i] as int - '0' as int;
      assert raw[..i + 1][..i] == raw[..i];
      if n > (MAX_INT64 - digit) / 10 {
        if AllDigits(raw) {
          ValueGrows(raw, i + 1);
        }
        return None;
      }
      n := n * 10 + digit;
    }
    assert raw[..|raw|] == raw;
    return Some(n);
  }

  // ------------------------------------------------------------------
  // One line
  // ------------------------------------------------------------------

  /** Where a run of bytes that satisfy `p` ends. */
  function RunEnd(s: string, from: nat, p: char -> bool): (end: nat)
    requires from <= |s|
    ensures from <= end <= |s| && (forall k :: from <= k < end ==> p(s[k])) && (end < |s| ==> !p(s[end]))
    decreases |s| - from
  {
    if from < |s| && p(s[from]) then RunEnd(s, from + 1, p) else from
  }

  predicate FoldsTo(value: string, prefix: string) {
    |value| >= |prefix| && forall k :: 0 <= k < |prefix| ==> LowerASCII(value[k]) == LowerASCII(prefix[k])
  }

  lemma {:induction false} RunUnique(s: string, from: nat, end: nat, p: char -> bool)
    requires from <= end <= |s| && (forall k :: from <= k < end ==> p(s[k])) && (end < |s| ==> !p(s[end]))
    ensures RunEnd(s, from, p) == end
    decreases end - from
  {
    if from < end {
      RunUnique(s, from + 1, end, p);
    }
  }

  /** The digits an update directive names, by scanning. */
  function Directive(line: string): Option<string> {
    if !FoldsTo(line, DIRECTIVE) then None
    else
      var i := RunEnd(line, |DIRECTIVE|, Space);
      var j := RunEnd(line, i, IsDigit);
      if i == |DIRECTIVE| || j == i || (j < |line| && WordByte(line[j])) then None else Some(line[i..j])
  }

  /** What the scan looks for: the directive's name in any case of letters, white space, digits
      `line[i..j]`, and no word byte behind them. */
  predicate NamesAt(line: string, i: nat, j: nat) {
    && |DIRECTIVE| < i < j <= |line|
    && FoldsTo(line, DIRECTIVE)
    && (forall k :: |DIRECTIVE| <= k < i ==> Space(line[k]))
    && (forall k :: i <= k < j ==> IsDigit(line[k]))
    && (j < |line| ==> !WordByte(line[j]))
  }

  /** The scan finds the digits exactly when they are there. */
  lemma DirectiveIs(line: string, digits: string)
    ensures Directive(line) == Some(digits) <==>
            exists i: nat, j: nat :: NamesAt(line, i, j) && digits == line[i..j]
  {
    hide FoldsTo, WordByte;
    if Directive(line) == Some(digits) {
      var i := RunEnd(line, |DIRECTIVE|, Space);
      assert NamesAt(line, i, RunEnd(line, i, IsDigit));
    }
    if i: nat, j: nat :| NamesAt(line, i, j) && digits == line[i..j] {
      DigitIsNoSpace(line[i]);
      RunUnique(line, |DIRECTIVE|, i, Space);
      if j < |line| {
        DigitIsNoSpace(line[j]);
      }
      RunUnique(line, i, j, IsDigit);
    }
  }

  /** parseSecRuleUpdateTargetByID */
  method ParseSecRuleUpdateTargetByID(line: string) returns (digits: Option<string>)
    ensures digits == Directive(line)
  {
    hide Space, IsDigit, WordByte, FoldsTo;
    var folds := EqualFoldASCIIPrefix(line, DIRECTIVE);
    if !folds {
      return None;
    }
    var i := |DIRECTIVE|;
    FoldedIsLonger(line, DIRECTIVE);
    if i >= |line| || !Space(line[i]) {
      return None;
    }
    while i < |line| && Space(line[i])
      invariant |DIRECTIVE| <= i <= |line|
      invariant RunEnd(line, i, Space) == RunEnd(line, |DIRECTIVE|, Space)
    {
      i := i + 1;
    }
    var start := i;
    while i < |line| && IsDigit(line[i])
      invariant start <= i <= |line|
      invariant RunEnd(line, i, IsDigit) == RunEnd(line, start, IsDigit)
    {
      i := i + 1;
    }
    if start == i {
      return None;
    }
    if i < |line| && WordByte(line[i]) {
      return None;
    }
    return Some(line[start..i]);
  }

  lemma FoldedIsLonger(value: string, prefix: string)
    requires FoldsTo(value, prefix)
    ensures |value| >= |prefix|
  {
  }

  lemma DigitIsNoSpace(c: char)
    ensures IsDigit(c) ==> !Space(c) && WordByte(c)
  {
  }

  method EqualFoldASCIIPrefix(value: string, prefix: string) returns (folds: bool)
    ensures folds <==> FoldsTo(value, prefix)
  {
    if |value| < |prefix| {
      return false;
    }
    for i := 0 to |prefix|
      invariant forall k :: 0 <= k < i ==> LowerASCII(value[k]) == LowerASCII(prefix[k])
    {
      if LowerASCII(value[i]) != LowerASCII(prefix[i]) {
        return false;
      }
    }
    return true;
  }

  /** The digits of the rule a line wants to update, when no enabled rule has that id. */
  function Missing(line: string, defined: set<nat>): Option<string> {
    var trimmed := TrimSpace(line);
    if trimmed == "" || trimmed[0] == '#' then None
    else
      var digits := Directive(trimmed);
      if digits == None || RuleID(digits.value) == None || RuleID(digits.value).value in defined then None else digits
  }

  /** missingUpdateTargetRuleID */
  method MissingUpdateTargetRuleID(line: string, defined: set<nat>) returns (missing: Option<string>)
    ensures missing == Missing(line, defined)
  {
    hide Directive, RuleID, TrimSpace;
    var trimmed := TrimSpace(line);
    if |trimmed| == 0 || trimmed[0] == '#' {
      return None;
    }
    var digits := ParseSecRuleUpdateTargetByID(trimmed);
    if digits == None {
      return None;
    }
    var id := ParseRuleIDDigits(digits.value);
    if id == None {
      return None;
    }
    return if id.value in defined then None else digits;
  }

  // ------------------------------------------------------------------
  // A file
  // ------------------------------------------------------------------

  /** The lines of a file, each with its line break; the last may lack one. */
  function Lines(raw: string): seq<string>
    decreases |raw|
  {
    if raw == "" then []
    else
      var end := FirstIndex(raw, '\n');
      if end == -1 then [raw] else [raw[..end + 1]] + Lines(raw[end + 1..])
  }

  function Ending(line: string): string {
    if line != "" && line[|line| - 1] == '\n' then "\n" else ""
  }

  function FilterLine(line: string, defined: set<nat>): string {
    var missing := Missing(line, defined);
    if missing == None then line else SKIPPED + missing.value + REASON + Ending(line)
  }

  function FilterLines(lines: seq<string>, defined: set<nat>): seq<string> {
    if lines == [] then [] else [FilterLine(lines[0], defined)] + FilterLines(lines[1..], defined)
  }

  function Concat(lines: seq<string>): string {
    if lines == [] then "" else lines[0] + Concat(lines[1..])
  }

  function Filtered(raw: string, defined: set<nat>): string {
    Concat(FilterLines(Lines(raw), defined))
  }

  predicate AnyMissing(lines: seq<string>, defined: set<nat>) {
    exists i :: 0 <= i < |lines| && Missing(lines[i], defined).Some?
  }

  lemma AnyMissingStep(lines: seq<string>, defined: set<nat>)
    ensures AnyMissing(lines, defined)
            <==> lines != [] && (Missing(lines[0], defined).Some? || AnyMissing(lines[1..], defined))
  {
    hide Missing;
    if i :| 0 <= i < |lines| && Missing(lines[i], defined).Some? {
      assert i > 0 ==> lines[1..][i - 1] == lines[i];
    }
    if lines != [] && AnyMissing(lines[1..], defined) {
      var i :| 0 <= i < |lines[1..]| && Missing(lines[1..][i], defined).Some?;
      assert lines[i + 1] == lines[1..][i];
    }
  }

  /** The end of the line that starts at `start`. */
  function LineEnd(raw: string, start: nat): (next: nat)
    requires start < |raw|
    ensures start < next <= |raw|
  {
    var end := FirstIndex(raw[start..], '\n');
    if end >= 0 then start + end + 1 else |raw|
  }

  lemma FilteredStep(raw: string, start: nat, defined: set<nat>)
    requires start < |raw|
    ensures var next := LineEnd(raw, start);
            var line := raw[start..next];
            && Filtered(raw[start..], defined) == FilterLine(line, defined) + Filtered(raw[next..], defined)
            && (AnyMissing(Lines(raw[start..]), defined) <==>
                Missing(line, defined).Some? || AnyMissing(Lines(raw[next..]), defined))
  {
    hide FilterLine, Missing, AnyMissing, FirstIndex;
    LinesStep(raw, start);
    var next := LineEnd(raw, start);
    var lines := Lines(raw[start..]);
    assert lines[0] == raw[start..next] && lines[1..] == Lines(raw[next..]);
    AnyMissingStep(lines, defined);
  }

  lemma LinesStep(raw: string, start: nat)
    requires start < |raw|
    ensures var next := LineEnd(raw, start);
            Lines(raw[start..]) == [raw[start..next]] + Lines(raw[next..])
  {
    var rest, next := raw[start..], LineEnd(raw, start);
    assert rest[..next - start] == raw[start..next];
    assert rest[next - start..] == raw[next..];
    assert FirstIndex(rest, '\n') == -1 ==> raw[next..] == "" && rest == raw[start..next];
  }

  lemma FilteredNothing(defined: set<nat>)
    ensures Filtered("", defined) == "" && !AnyMissing(Lines(""), defined)
  {
  }

  /** filterMissingUpdateTargetDirectives: each line on its own, and `changed` exactly when some
      line was replaced. */
  method FilterMissingUpdateTargetDirectives(raw: string, defined: set<nat>) returns (result: string, changed: bool)
    ensures result == Filtered(raw, defined)
    ensures changed <==> AnyMissing(Lines(raw), defined)
    ensures !changed ==> result == raw
  {
    hide Missing, Filtered, AnyMissing, Lines, FilterLine;
    changed := false;
    var copyStart, start := 0, 0;
    var out := "";
    ghost var done := "";
    assert raw[0..] == raw && "" + Filtered(raw, defined) == Filtered(raw, defined);
    while start < |raw|
      invariant 0 <= copyStart <= start <= |raw|
      invariant !changed ==> out == "" && copyStart == 0
      invariant out + raw[copyStart..start] == done
      invariant done + Filtered(raw[start..], defined) == Filtered(raw, defined)
      invariant changed || AnyMissing(Lines(raw[start..]), defined) <==> AnyMissing(Lines(raw), defined)
      decreases |raw| - start
    {
      FilteredStep(raw, start, defined);
      var end := FirstIndex(raw[start..], '\n');
      var next := |raw|;
      if end >= 0 {
        next := start + end + 1;
      }
      var line := raw[start..next];
      var missing := MissingUpdateTargetRuleID(line, defined);
      FilterLineIs(line, defined);
      AppendRest(done, FilterLine(line, defined), Filtered(raw[next..], defined));
      done := done + FilterLine(line, defined);
      if missing.Some? {
        changed := true;
        out := out + raw[copyStart..start];
        out := Append(out, missing.value, line);
        copyStart := next;
      } else {
        TakeLine(raw, copyStart, start, next, out);
      }
      start := next;
    }
    FilteredNothing(defined);
    assert raw[start..] == "" && raw[copyStart..start] == raw[copyStart..];
    assert done + "" == done;
    if !changed {
      assert "" + raw[0..] == raw;
      return raw, false;
    }
    result := out + raw[copyStart..];
  }

  /** The comment that stands for a skipped directive. */
  method Append(before: string, digits: string, line: string) returns (out: string)
    ensures out == before + (SKIPPED + digits + REASON + Ending(line))
  {
    out := before + SKIPPED;
    out := out + digits;
    out := out + REASON;
    TakeTogether(before, SKIPPED, digits, REASON);
    var comment := SKIPPED + digits + REASON;
    if |line| > 0 && line[|line| - 1] == '\n' {
      AppendRest(before, comment, "\n");
      out := out + "\n";
    } else {
      assert comment + "" == comment;
    }
  }

  lemma TakeTogether(before: string, a: string, b: string, c: string)
    ensures before + a + b + c == before + (a + b + c)
  {
  }

  lemma AppendRest(done: string, line: string, rest: string)
    ensures done + (line + rest) == (done + line) + rest
  {
  }

  lemma TakeLine(raw: string, copyStart: nat, start: nat, next: nat, out: string)
    requires copyStart <= start <= next <= |raw|
    ensures out + raw[copyStart..next] == (out + raw[copyStart..start]) + raw[start..next]
  {
  }

  lemma FilterLineIs(line: string, defined: set<nat>)
    ensures Missing(line, defined) == None ==> FilterLine(line, defined) == line
    ensures Missing(line, defined).Some? ==>
              FilterLine(line, defined) == SKIPPED + Missing(line, defined).value + REASON + Ending(line)
  {
  }
}
