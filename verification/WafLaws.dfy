/** Laws of the rule file filter, and the scan for defined rule ids
    (pkg/waf/loader.go:358-476). */
module WafLaws {
  import opened Bytes
  import opened Decimal
  import opened WafFilter

  // ------------------------------------------------------------------
  // Filtering twice
  // ------------------------------------------------------------------

  /** A line as Lines yields it: at most one line break, at the end. */
  predicate OneLine(line: string) {
    line != "" && '\n' !in line[..|line| - 1]
  }

  /** Lines that are lines, all but the last with a line break. */
  predicate CutLines(lines: seq<string>) {
    && (forall i :: 0 <= i < |lines| ==> OneLine(lines[i]))
    && (forall i :: 0 <= i < |lines| - 1 ==> Ending(lines[i]) == "\n")
  }

  lemma CutLinesJoin(first: string, rest: seq<string>)
    requires OneLine(first) && (rest == [] || Ending(first) == "\n") && CutLines(rest)
    ensures CutLines([first] + rest)
  {
    hide OneLine, Ending;
  }

  lemma {:induction false} LinesAreLines(raw: string)
    ensures CutLines(Lines(raw))
    decreases |raw|
  {
    hide FirstIndex, OneLine, Ending, Lines, CutLines;
    var end := FirstIndex(raw, '\n');
    LinesOpen(raw);
    NoneCut();
    if raw == "" {
    } else if end == -1 {
      UncutIsLine(raw);
      CutLinesJoin(raw, []);
      assert [raw] + [] == [raw];
    } else {
      LinesAreLines(raw[end + 1..]);
      CutIsLine(raw, end);
      CutLinesJoin(raw[..end + 1], Lines(raw[end + 1..]));
    }
  }

  lemma NoneCut()
    ensures CutLines([])
  {
  }

  lemma LinesOpen(raw: string)
    ensures var end := FirstIndex(raw, '\n');
            Lines(raw) ==
            if raw == "" then [] else if end == -1 then [raw] else [raw[..end + 1]] + Lines(raw[end + 1..])
  {
    hide FirstIndex;
  }

  lemma CutIsLine(raw: string, end: nat)
    requires end == FirstIndex(raw, '\n')
    ensures OneLine(raw[..end + 1]) && Ending(raw[..end + 1]) == "\n"
  {
    hide FirstIndex;
    assert raw[..end + 1][..end] == raw[..end];
  }

  lemma UncutIsLine(raw: string)
    requires raw != "" && '\n' !in raw
    ensures OneLine(raw)
  {
    assert raw == raw[..|raw| - 1] + [raw[|raw| - 1]];
  }

  /** Such lines are what their text is cut into. */
  lemma {:induction false} LinesOfConcat(lines: seq<string>)
    requires CutLines(lines)
    ensures Lines(Concat(lines)) == lines
  {
    hide FirstIndex, Lines, Concat;
    ConcatStep(lines);
    if lines == [] {
      NoLines();
    } else {
      LinesOfConcat(lines[1..]);
      assert lines == [lines[0]] + lines[1..];
      if Ending(lines[0]) == "\n" {
        CutLine(lines[0], Concat(lines[1..]));
      } else {
        assert lines[1..] == [];
        ConcatStep([]);
        LastLine(lines[0]);
        assert lines[0] + "" == lines[0];
      }
    }
  }

  lemma NoLines()
    ensures Lines("") == []
  {
  }

  lemma ConcatStep(lines: seq<string>)
    ensures Concat(lines) == if lines == [] then "" else lines[0] + Concat(lines[1..])
  {
  }

  lemma CutLine(line: string, rest: string)
    requires OneLine(line) && Ending(line) == "\n"
    ensures Lines(line + rest) == [line] + Lines(rest)
  {
    hide FirstIndex;
    var text, all := line[..|line| - 1], line + rest;
    assert all == text + ['\n'] + rest;
    FirstIndexSplit(text, '\n', rest);
    FirstIndexNone(text, '\n');
    assert all[..|line|] == line && all[|line|..] == rest;
  }

  lemma LastLine(line: string)
    requires OneLine(line) && Ending(line) == ""
    ensures Lines(line) == [line]
  {
    assert line == line[..|line| - 1] + [line[|line| - 1]];
    FirstIndexNone(line, '\n');
  }

  lemma MissingDigits(line: string, defined: set<nat>)
    ensures Missing(line, defined).Some? ==> AllDigits(Missing(line, defined).value)
  {
  }

  /** A replaced line is one line with the same ending, and a comment. */
  lemma FilterLineIsLine(line: string, defined: set<nat>)
    requires OneLine(line)
    ensures OneLine(FilterLine(line, defined)) && Ending(FilterLine(line, defined)) == Ending(line)
    ensures Missing(FilterLine(line, defined), defined) == None
  {
    hide Missing, AllDigits;
    MissingDigits(line, defined);
    FilterLineIs(line, defined);
    if Missing(line, defined).Some? {
      ReplacedIsLine(Missing(line, defined).value, Ending(line));
      CommentIsKept(FilterLine(line, defined), defined);
    }
  }

  lemma ReplacedIsLine(digits: string, ending: string)
    requires AllDigits(digits) && (ending == "" || ending == "\n")
    ensures var text := SKIPPED + digits + REASON + ending;
            text != "" && text[0] == '#' && OneLine(text) && Ending(text) == ending
  {
    var body := SKIPPED + digits + REASON;
    NoBreaks();
    assert '\n' !in digits;
    assert '\n' !in body;
    NoBreakAnywhere(body);
    var text := body + ending;
    if ending == "\n" {
      assert text[..|text| - 1] == body && text[|text| - 1] == '\n';
      assert text[0] == body[0] == SKIPPED[0];
    } else {
      assert text == body;
      assert OneLine(text) && Ending(text) == "" && text[0] == SKIPPED[0];
    }
  }

  lemma NoBreakAnywhere(text: string)
    requires '\n' !in text && text != ""
    ensures OneLine(text) && Ending(text) == ""
  {
    assert text[|text| - 1] in text;
    assert text == text[..|text| - 1] + [text[|text| - 1]];
  }

  lemma NoBreaks()
    ensures '\n' !in SKIPPED && '\n' !in REASON
  {
  }

  lemma CommentIsKept(line: string, defined: set<nat>)
    requires line != "" && line[0] == '#'
    ensures Missing(line, defined) == None
  {
    hide Directive, RuleID;
    assert !IsSpace('#') && SpaceEnd(line, 0) == 0;
    var t := TrimSpace(line);
    assert t != "" ==> t[0] == line[0];
  }

  lemma {:induction false} FilterLinesAre(lines: seq<string>, defined: set<nat>)
    ensures |FilterLines(lines, defined)| == |lines|
    ensures forall i :: 0 <= i < |lines| ==> FilterLines(lines, defined)[i] == FilterLine(lines[i], defined)
  {
    hide FilterLine;
    if lines != [] {
      FilterLinesAre(lines[1..], defined);
    }
  }

  /** Main result: the output's lines are the input's lines, each filtered on its own, in order;
      a line that is not replaced is kept as it was. */
  lemma FilteredLines(raw: string, defined: set<nat>)
    ensures Lines(Filtered(raw, defined)) == FilterLines(Lines(raw), defined)
    ensures |Lines(Filtered(raw, defined))| == |Lines(raw)|
    ensures forall i :: 0 <= i < |Lines(raw)| && Missing(Lines(raw)[i], defined) == None ==>
              Lines(Filtered(raw, defined))[i] == Lines(raw)[i]
  {
    hide Lines, FilterLine, FilterLines, Missing, OneLine, Ending;
    var lines, filtered := Lines(raw), FilterLines(Lines(raw), defined);
    LinesAreLines(raw);
    FilterLinesAre(lines, defined);
    forall i | 0 <= i < |lines|
      ensures OneLine(filtered[i]) && Ending(filtered[i]) == Ending(lines[i])
      ensures Missing(lines[i], defined) == None ==> filtered[i] == lines[i]
    {
      FilterLineIsLine(lines[i], defined);
      FilterLineIs(lines[i], defined);
    }
    LinesOfConcat(filtered);
  }

  /** Main result: every directive left over that names an id that fits an int names a defined one. */
  lemma RemainingAreDefined(raw: string, defined: set<nat>)
    ensures !AnyMissing(Lines(Filtered(raw, defined)), defined)
    ensures forall i, digits ::
              (0 <= i < |Lines(Filtered(raw, defined))| && Updates(Lines(Filtered(raw, defined))[i], digits)
               && RuleID(digits).Some?) ==>
                RuleID(digits).value in defined
  {
    hide Lines, FilterLine, FilterLines, Missing, OneLine, Filtered, Updates, RuleID;
    FilteredLines(raw, defined);
    LinesAreLines(raw);
    var lines, after := Lines(raw), Lines(Filtered(raw, defined));
    FilterLinesAre(lines, defined);
    forall i | 0 <= i < |after| ensures Missing(after[i], defined) == None {
      FilterLineIsLine(lines[i], defined);
    }
    forall i, digits | 0 <= i < |after| && Updates(after[i], digits) && RuleID(digits).Some?
      ensures RuleID(digits).value in defined
    {
      if RuleID(digits).value !in defined {
        UpdateOfUndefined(after[i], digits, defined);
      }
    }
  }

  /** A line that is an active update directive for the rule with the given digits. */
  ghost predicate Updates(line: string, digits: string) {
    var t := TrimSpace(line);
    t != "" && t[0] != '#' && exists i: nat, j: nat :: DirectiveAt(t, i, j) && digits == t[i..j]
  }

  /** The directive's name in any case of letters, then white space, then digits `t[i..j]`, and no
      letter, digit or underscore behind them. */
  ghost predicate DirectiveAt(t: string, i: nat, j: nat) {
    && 23 < i < j <= |t|
    && (forall k :: 0 <= k < 23 ==> SameLetter(t[k], "SecRuleUpdateTargetById"[k]))
    && (forall k :: 23 <= k < i ==> t[k] in " \t\n\U{0C}\r")
    && (forall k :: i <= k < j ==> '0' <= t[k] <= '9')
    && (j < |t| ==> !('a' <= t[j] <= 'z' || 'A' <= t[j] <= 'Z' || '0' <= t[j] <= '9' || t[j] == '_'))
  }

  predicate SameLetter(a: char, b: char) {
    || a == b
    || ('A' <= a <= 'Z' && a as int + 32 == b as int)
    || ('A' <= b <= 'Z' && b as int + 32 == a as int)
  }

  lemma FoldedAre(a: char, b: char)
    ensures LowerASCII(a) == LowerASCII(b) <==> SameLetter(a, b)
  {
  }

  lemma DirectiveMeans(t: string, i: nat, j: nat)
    ensures NamesAt(t, i, j) <==> DirectiveAt(t, i, j)
  {
    hide LowerASCII, SameLetter;
    forall k | 0 <= k < |t| && k < 23
      ensures LowerASCII(t[k]) == LowerASCII(DIRECTIVE[k]) <==> SameLetter(t[k], "SecRuleUpdateTargetById"[k])
    {
      FoldedAre(t[k], DIRECTIVE[k]);
    }
  }

  lemma UpdatesMeans(line: string, digits: string)
    ensures Updates(line, digits) <==>
            && TrimSpace(line) != "" && TrimSpace(line)[0] != '#'
            && exists i: nat, j: nat :: NamesAt(TrimSpace(line), i, j) && digits == TrimSpace(line)[i..j]
  {
    hide TrimSpace, NamesAt, DirectiveAt;
    var t := TrimSpace(line);
    forall i: nat, j: nat ensures NamesAt(t, i, j) <==> DirectiveAt(t, i, j) {
      DirectiveMeans(t, i, j);
    }
  }

  /** An active update directive whose digits are an int that is the id of no enabled rule. */
  ghost predicate UpdatesUndefined(line: string, digits: string, defined: set<nat>) {
    Updates(line, digits) && AllDigits(digits) && Value(digits) <= MAX_INT64 && Value(digits) !in defined
  }

  lemma MissingExactlyWhen(line: string, digits: string, defined: set<nat>)
    ensures Missing(line, defined) == Some(digits) <==> UpdatesUndefined(line, digits, defined)
  {
    hide Directive, TrimSpace, NamesAt, Updates;
    DirectiveIs(TrimSpace(line), digits);
    UpdatesMeans(line, digits);
    if Updates(line, digits) {
      NamedDigits(TrimSpace(line), digits);
    }
  }

  lemma NamedDigits(t: string, digits: string)
    requires exists i: nat, j: nat :: NamesAt(t, i, j) && digits == t[i..j]
    ensures digits != "" && AllDigits(digits)
  {
    var i: nat, j: nat :| NamesAt(t, i, j) && digits == t[i..j];
    assert forall k :: 0 <= k < |digits| ==> digits[k] == t[i + k];
  }

  /** Main result: a line of the file is replaced if and only if it is an active update directive for
      an int that is the id of no enabled rule, and then by the comment with its digits and its line
      break; every other line is kept byte for byte. The file is reported changed exactly when there
      is such a line. */
  lemma ReplacedExactlyWhen(raw: string, defined: set<nat>)
    ensures var lines, after := Lines(raw), Lines(Filtered(raw, defined));
            && |after| == |lines|
            && (forall i, digits :: 0 <= i < |lines| && UpdatesUndefined(lines[i], digits, defined) ==>
                  && after[i] == "# fn-knock skipped SecRuleUpdateTargetById " + digits
                                 + " because the target rule is not enabled" + Ending(lines[i])
                  && after[i] != lines[i])
            && (forall i :: 0 <= i < |lines| && (forall digits :: !UpdatesUndefined(lines[i], digits, defined)) ==>
                  after[i] == lines[i])
    ensures AnyMissing(Lines(raw), defined)
            <==> exists i, digits :: 0 <= i < |Lines(raw)| && UpdatesUndefined(Lines(raw)[i], digits, defined)
  {
    hide Lines, FilterLine, FilterLines, Missing, Ending, Filtered, UpdatesUndefined;
    var lines, after := Lines(raw), Lines(Filtered(raw, defined));
    FilteredLines(raw, defined);
    LinesAreLines(raw);
    FilterLinesAre(lines, defined);
    forall i | 0 <= i < |lines|
      ensures forall digits ::
                UpdatesUndefined(lines[i], digits, defined) <==> Missing(lines[i], defined) == Some(digits)
      ensures Missing(lines[i], defined).Some? ==> after[i] != lines[i]
      ensures Missing(lines[i], defined).Some? ==>
                after[i] == SKIPPED + Missing(lines[i], defined).value + REASON + Ending(lines[i])
    {
      forall digits
        ensures UpdatesUndefined(lines[i], digits, defined) <==> Missing(lines[i], defined) == Some(digits)
      {
        MissingExactlyWhen(lines[i], digits, defined);
      }
      FilterLineIs(lines[i], defined);
      FilterLineIsLine(lines[i], defined);
    }
    if AnyMissing(lines, defined) {
      var i :| 0 <= i < |lines| && Missing(lines[i], defined).Some?;
      assert UpdatesUndefined(lines[i], Missing(lines[i], defined).value, defined);
    }
  }

  lemma UpdateOfUndefined(line: string, digits: string, defined: set<nat>)
    requires Updates(line, digits) && RuleID(digits).Some? && RuleID(digits).value !in defined
    ensures Missing(line, defined) == Some(digits)
  {
    hide Directive, RuleID, TrimSpace, NamesAt, Updates;
    UpdatesMeans(line, digits);
    DirectiveIs(TrimSpace(line), digits);
  }

  /** Filtering is idempotent. */
  lemma FilterTwice(raw: string, defined: set<nat>)
    ensures Filtered(Filtered(raw, defined), defined) == Filtered(raw, defined)
  {
    hide Lines, FilterLine, Missing, Filtered, Updates, RuleID, AnyMissing;
    RemainingAreDefined(raw, defined);
    NothingMissing(Filtered(raw, defined), defined);
  }

  lemma NothingMissing(raw: string, defined: set<nat>)
    requires !AnyMissing(Lines(raw), defined)
    ensures Filtered(raw, defined) == raw
  {
    hide Lines, FilterLine, Missing, AnyMissing;
    KeepAll(Lines(raw), defined);
    ConcatLines(raw);
  }

  lemma {:induction false} KeepAll(lines: seq<string>, defined: set<nat>)
    requires !AnyMissing(lines, defined)
    ensures FilterLines(lines, defined) == lines
  {
    hide Missing, FilterLine, AnyMissing;
    AnyMissingStep(lines, defined);
    if lines != [] {
      KeepAll(lines[1..], defined);
      FilterLineIs(lines[0], defined);
    }
  }

  lemma {:induction false} ConcatLines(raw: string)
    ensures Concat(Lines(raw)) == raw
    decreases |raw|
  {
    hide FirstIndex, Lines, Concat;
    var end := FirstIndex(raw, '\n');
    LinesOpen(raw);
    ConcatStep([]);
    if raw == "" {
    } else if end == -1 {
      Rejoin(raw, []);
      assert [raw] + [] == [raw] && raw + "" == raw;
    } else {
      ConcatLines(raw[end + 1..]);
      Rejoin(raw[..end + 1], Lines(raw[end + 1..]));
    }
  }

  lemma Rejoin(line: string, rest: seq<string>)
    ensures Concat([line] + rest) == line + Concat(rest)
  {
    hide Concat;
    ConcatStep([line] + rest);
    assert ([line] + rest)[1..] == rest;
  }

  // ------------------------------------------------------------------
  // Collecting ids
  // ------------------------------------------------------------------

  /** An occurrence of `id : digits`: the word at `i` in any case of letters and not inside a
      longer word, the colon at `colon` and digits from `start` to `end`, not inside a longer
      word either, with white space anywhere between. */
  predicate Occurs(line: string, i: nat, colon: nat, start: nat, end: nat) {
    && i + 2 <= colon < start < end <= |line|
    && LowerASCII(line[i]) == 'i' && LowerASCII(line[i + 1]) == 'd'
    && (i > 0 ==> !WordByte(line[i - 1]))
    && (forall k :: i + 2 <= k < colon ==> Space(line[k]))
    && line[colon] == ':'
    && (forall k :: colon < k < start ==> Space(line[k]))
    && (forall k :: start <= k < end ==> IsDigit(line[k]))
    && (end < |line| ==> !WordByte(line[end]))
  }

  /** Whether an occurrence that starts before `limit` names the id `n`. */
  ghost predicate Named(line: string, n: nat, limit: nat) {
    exists i: nat, colon: nat, start: nat, end: nat ::
      i < limit && Occurs(line, i, colon, start, end) && RuleID(line[start..end]) == Some(n)
  }

  /** The colon of an occurrence at `i`, by scanning. */
  function Colon(line: string, i: nat): Option<nat>
    requires i + 1 < |line|
  {
    if LowerASCII(line[i]) != 'i' || LowerASCII(line[i + 1]) != 'd' || (i > 0 && WordByte(line[i - 1])) then None
    else
      var colon := RunEnd(line, i + 2, Space);
      if colon >= |line| || line[colon] != ':' then None else Some(colon)
  }

  /** Where the digits behind position `from` start and end, by scanning. */
  function Digits(line: string, from: nat): Option<(nat, nat)>
    requires from <= |line|
  {
    var start := RunEnd(line, from, Space);
    var end := RunEnd(line, start, IsDigit);
    if start == end || (end < |line| && WordByte(line[end])) then None else Some((start, end))
  }

  /** The digits of an occurrence at `i`. */
  function Scan(line: string, i: nat): Option<(nat, nat)>
    requires i + 1 < |line|
  {
    var colon := Colon(line, i);
    if colon == None || colon.value + 1 > |line| then None else Digits(line, colon.value + 1)
  }

  lemma ScanIs(line: string, i: nat, colon: nat, start: nat, end: nat)
    requires Occurs(line, i, colon, start, end)
    ensures Scan(line, i) == Some((start, end))
  {
    hide LowerASCII, WordByte, IsDigit;
    assert Colon(line, i) == Some(colon) by {
      ColonIsNoSpace();
      RunUnique(line, i + 2, colon, Space);
    }
    assert Digits(line, colon + 1) == Some((start, end)) by {
      DigitIsNoSpace(line[start]);
      RunUnique(line, colon + 1, start, Space);
      if end < |line| {
        DigitIsNoSpace(line[end]);
      }
      RunUnique(line, start, end, IsDigit);
    }
  }

  lemma ColonIsNoSpace()
    ensures !Space(':')
  {
  }

  lemma ScanOccurs(line: string, i: nat)
    requires i + 1 < |line| && Scan(line, i).Some?
    ensures var (start, end) := Scan(line, i).value;
            Occurs(line, i, RunEnd(line, i + 2, Space), start, end)
  {
  }

  /** No occurrence starts inside another one, or at the byte right behind its digits. */
  lemma NoneInside(line: string, i: nat, colon: nat, start: nat, end: nat, other: nat)
    requires Occurs(line, i, colon, start, end) && i < other <= end && other + 1 < |line|
    ensures Scan(line, other) == None
  {
    assert LowerASCII(line[other]) != 'i';
  }

  /** collectRuleIDActionIDs */
  method CollectRuleIDActionIDs(line: string, ids: set<nat>) returns (more: set<nat>)
    ensures forall n: nat :: n in more <==> n in ids || Named(line, n, |line|)
  {
    hide Scan, Named, RuleID, LowerASCII;
    more := ids;
    var i := 0;
    NamedNone(line);
    while i + 1 < |line|
      invariant 0 <= i <= |line| + 1
      invariant forall n: nat :: n in more <==> n in ids || Named(line, n, if i <= |line| then i else |line|)
      decreases |line| + 1 - i
    {
      var found := ScanAt(line, i);
      if found == None {
        NamedSame(line, i);
        i := i + 1;
      } else {
        var (start, end) := found.value;
        NamedNext(line, i);
        var id := ParseRuleIDDigits(line[start..end]);
        if id.Some? {
          more := more + {id.value};
        }
        i := end + 1;
      }
    }
    NamedEnd(line, i);
  }

  lemma NamedNone(line: string)
    ensures forall n: nat :: !Named(line, n, 0)
  {
  }

  lemma NamedSame(line: string, i: nat)
    requires i + 1 < |line| && Scan(line, i) == None
    ensures forall n: nat :: Named(line, n, i + 1) <==> Named(line, n, i)
  {
    hide Scan, RuleID;
    forall n: nat | Named(line, n, i + 1) ensures Named(line, n, i) {
      var k: nat, colon: nat, start: nat, end: nat :|
        k < i + 1 && Occurs(line, k, colon, start, end) && RuleID(line[start..end]) == Some(n);
      ScanIs(line, k, colon, start, end);
    }
  }

  /** Behind a found occurrence the scan goes on behind the byte that follows its digits. */
  lemma NamedNext(line: string, i: nat)
    requires i + 1 < |line| && Scan(line, i).Some?
    ensures var (start, end) := Scan(line, i).value;
            && i + 2 < end <= |line| && start <= end
            && forall n: nat ::
                 Named(line, n, if end + 1 <= |line| then end + 1 else |line|)
                 <==> Named(line, n, i) || RuleID(line[start..end]) == Some(n)
  {
    hide Scan, RuleID;
    ScanOccurs(line, i);
    var (start, end) := Scan(line, i).value;
    var colon := RunEnd(line, i + 2, Space);
    var limit := if end + 1 <= |line| then end + 1 else |line|;
    forall n: nat ensures Named(line, n, limit) <==> Named(line, n, i) || RuleID(line[start..end]) == Some(n) {
      if Named(line, n, limit) {
        var k: nat, c: nat, s: nat, e: nat :|
          k < limit && Occurs(line, k, c, s, e) && RuleID(line[s..e]) == Some(n);
        ScanIs(line, k, c, s, e);
        if k > i {
          NoneInside(line, i, colon, start, end, k);
          assert false;
        }
      }
    }
  }

  lemma NamedEnd(line: string, i: nat)
    requires |line| <= i + 1
    ensures forall n: nat :: Named(line, n, if i <= |line| then i else |line|) <==> Named(line, n, |line|)
  {
    hide RuleID;
  }

  /** One round of the scan. */
  method ScanAt(line: string, i: nat) returns (digits: Option<(nat, nat)>)
    requires i + 1 < |line|
    ensures digits == Scan(line, i)
  {
    hide Space, WordByte, LowerASCII, Digits;
    if LowerASCII(line[i]) != 'i' || LowerASCII(line[i + 1]) != 'd' {
      return None;
    }
    if i > 0 && WordByte(line[i - 1]) {
      return None;
    }
    var j := i + 2;
    while j < |line| && Space(line[j])
      invariant i + 2 <= j <= |line|
      invariant RunEnd(line, j, Space) == RunEnd(line, i + 2, Space)
    {
      j := j + 1;
    }
    if j >= |line| || line[j] != ':' {
      return None;
    }
    digits := ScanDigits(line, j + 1);
  }

  method ScanDigits(line: string, from: nat) returns (digits: Option<(nat, nat)>)
    requires from <= |line|
    ensures digits == Digits(line, from)
  {
    hide Space, IsDigit, WordByte;
    var j := from;
    while j < |line| && Space(line[j])
      invariant from <= j <= |line|
      invariant RunEnd(line, j, Space) == RunEnd(line, from, Space)
    {
      j := j + 1;
    }
    var start := j;
    while j < |line| && IsDigit(line[j])
      invariant start <= j <= |line|
      invariant RunEnd(line, j, IsDigit) == RunEnd(line, start, IsDigit)
    {
      j := j + 1;
    }
    if start == j {
      return None;
    }
    if j < |line| && WordByte(line[j]) {
      return None;
    }
    return Some((start, j));
  }
}
