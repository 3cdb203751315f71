/** Taking a chain's jumps out of a parent chain (pkg/iptables/manager.go:483-508,
    1411-1469): the kernel's rule listing is read as text, line by line, and every
    line that jumps is turned back into the arguments of a delete command. */
module ParentJumps {
  import opened Bytes
  import opened Decimal

  /** A rule of a parent chain, as the argument list that describes it. */
  type Fields = seq<string>

  predicate Blank(c: char) {
    IsSpace(c)
  }

  /** What the kernel keeps in an argument: no line break. */
  predicate StoredField(w: string) {
    '\n' !in w
  }

  predicate Stored(r: Fields) {
    forall i :: 0 <= i < |r| ==> StoredField(r[i])
  }

  /** A field that survives being split at blanks. */
  predicate Word(w: string) {
    w != "" && forall i :: 0 <= i < |w| ==> !Blank(w[i])
  }

  predicate HasJump(r: Fields, chain: string) {
    exists i :: 0 <= i < |r| - 1 && r[i] == "-j" && r[i + 1] == chain
  }

  // ------------------------------------------------------------------
  // The listing, as -S prints it
  // ------------------------------------------------------------------

  /** How the kernel tool lists argument `i` of a rule. */
  type Show = (Fields, nat) -> string

  /** It lists an argument as it is, or in quotes, with escapes of its own. Which ones it quotes
      depends on the argument and on the rule around it; one that is empty or has a blank it
      always quotes. */
  ghost predicate Faithful(show: Show) {
    forall r: Fields, i: nat :: i < |r| && StoredField(r[i]) ==>
      (show(r, i) == r[i] && Word(r[i])) || ('"' in show(r, i) && '\n' !in show(r, i))
  }

  /** No argument is listed in quotes. */
  predicate Plain(show: Show, r: Fields) {
    forall i :: 0 <= i < |r| ==> show(r, i) == r[i] && Word(r[i])
  }

  function TextFrom(show: Show, r: Fields, i: nat): string
    requires i <= |r|
    decreases |r| - i
  {
    if i == |r| then "" else " " + show(r, i) + TextFrom(show, r, i + 1)
  }

  function Text(show: Show, r: Fields): string {
    TextFrom(show, r, 0)
  }

  function LineOf(show: Show, parent: string, r: Fields): string {
    "-A " + parent + Text(show, r)
  }

  function Body(show: Show, parent: string, rules: seq<Fields>): string {
    if rules == [] then "" else LineOf(show, parent, rules[0]) + "\n" + Body(show, parent, rules[1..])
  }

  function Header(parent: string): string {
    "-N " + parent
  }

  function Listing(show: Show, parent: string, rules: seq<Fields>): string {
    Header(parent) + "\n" + Body(show, parent, rules)
  }

  /** Rules whose listing has one line for each. */
  ghost predicate Listable(show: Show, rules: seq<Fields>) {
    Faithful(show) && forall r :: r in rules ==> Stored(r)
  }

  /** The arguments a listed rule is read back as. */
  function ReadBack(show: Show, r: Fields): Fields {
    FieldsOf(Text(show, r))
  }

  // ------------------------------------------------------------------
  // Reading a line back
  // ------------------------------------------------------------------

  function WordLength(t: string): (n: nat)
    ensures n <= |t| && (t != "" && !Blank(t[0]) ==> n > 0)
    ensures forall k :: 0 <= k < n ==> !Blank(t[k])
    ensures n < |t| ==> Blank(t[n])
  {
    if t == "" || Blank(t[0]) then 0 else 1 + WordLength(t[1..])
  }

  /** The maximal runs of characters that are not blank. */
  function FieldsOf(line: string): Fields
    decreases |line|
  {
    if line == "" then []
    else if Blank(line[0]) then FieldsOf(line[1..])
    else
      var n := WordLength(line);
      [line[..n]] + FieldsOf(line[n..])
  }

  /** The arguments that delete the rule a line describes, when it jumps to `chain`. */
  function DeleteArgs(words: Fields, parent: string, chain: string): Option<Fields> {
    if |words| >= 2 && words[0] == "-A" && words[1] == parent && HasJump(words[2..], chain) then Some(words[2..])
    else None
  }

  /** Words behind -A and the parent, with the jump among them. */
  lemma DeleteArgsExactly(words: Fields, parent: string, chain: string, args: Fields)
    ensures DeleteArgs(words, parent, chain) == Some(args) <==>
            words == ["-A", parent] + args
            && exists i :: 0 <= i && i + 1 < |args| && args[i] == "-j" && args[i + 1] == chain
  {
    if |words| >= 2 && words[0] == "-A" && words[1] == parent {
      assert words == ["-A", parent] + words[2..];
    }
    if words == ["-A", parent] + args {
      assert words[2..] == args;
    }
    if i :| 0 <= i && i + 1 < |args| && args[i] == "-j" && args[i + 1] == chain {
      assert HasJump(args, chain);
    }
  }

  lemma {:induction false} WordLengthUnique(t: string, n: nat)
    requires n <= |t| && (n < |t| ==> Blank(t[n]))
    requires forall k :: 0 <= k < n ==> !Blank(t[k])
    ensures WordLength(t) == n
  {
    if n > 0 {
      WordLengthUnique(t[1..], n - 1);
    }
  }

  lemma FieldsBlank(line: string)
    requires line != "" && Blank(line[0])
    ensures FieldsOf(line) == FieldsOf(line[1..])
  {
  }

  lemma FieldsFirst(line: string, n: nat)
    requires 0 < n <= |line| && (n < |line| ==> Blank(line[n]))
    requires forall k :: 0 <= k < n ==> !Blank(line[k])
    ensures FieldsOf(line) == [line[..n]] + FieldsOf(line[n..])
  {
    hide Blank;
    WordLengthUnique(line, n);
  }

  lemma FieldsNone()
    ensures FieldsOf("") == []
  {
  }

  method NextRuleField(line: string) returns (field: string, rest: string, ok: bool)
    ensures FieldsOf(line) == if ok then [field] + FieldsOf(rest) else []
    ensures ok ==> |rest| < |line|
    ensures if ok then IsFirstField(line, |line| - |rest| - |field|, field, rest)
            else forall k :: 0 <= k < |line| ==> line[k] in " \t\n\U{0B}\U{0C}\r"
  {
    hide FieldsOf, Blank;
    BlankBytes();
    var i := 0;
    assert line[0..] == line;
    while i < |line| && Blank(line[i])
      invariant 0 <= i <= |line|
      invariant FieldsOf(line[i..]) == FieldsOf(line)
      invariant forall k :: 0 <= k < i ==> Blank(line[k])
    {
      FieldsBlank(line[i..]);
      assert line[i..][1..] == line[i + 1..];
      i := i + 1;
    }
    if i >= |line| {
      FieldsNone();
      assert line[i..] == "";
      return "", "", false;
    }
    var start := i;
    while i < |line| && !Blank(line[i])
      invariant start <= i <= |line|
      invariant forall k :: start <= k < i ==> !Blank(line[k])
      invariant !Blank(line[start])
    {
      i := i + 1;
    }
    ghost var t := line[start..];
    assert t[..i - start] == line[start..i] && t[i - start..] == line[i..];
    FieldsFirst(t, i - start);
    field, rest, ok := line[start..i], line[i..], true;
    assert line == line[..start] + field + rest;
  }

  /** White space up to `from`, then the field without any, and behind it the end or white space. */
  predicate IsFirstField(line: string, from: int, field: string, rest: string) {
    && 0 <= from <= |line| && line == line[..from] + field + rest
    && (forall k :: 0 <= k < from ==> line[k] in " \t\n\U{0B}\U{0C}\r")
    && field != "" && (forall k :: 0 <= k < |field| ==> field[k] !in " \t\n\U{0B}\U{0C}\r")
    && (rest != "" ==> rest[0] in " \t\n\U{0B}\U{0C}\r")
  }

  lemma BlankBytes()
    ensures forall c: char :: Blank(c) <==> c in " \t\n\U{0B}\U{0C}\r"
  {
  }

  const STACK := 16

  /** The fields read so far: up to sixteen in an array, more in an overflow list. */
  predicate Collected(stack: array<string>, extra: Fields, seen: Fields)
    reads stack
  {
    && stack.Length == STACK
    && (if |seen| <= STACK then extra == [] && seen == stack[..|seen|] else seen == stack[..] + extra)
  }

  method Collect(stack: array<string>, extra: Fields, ghost seen: Fields, count: nat, field: string)
    returns (more: Fields)
    requires Collected(stack, extra, seen) && count == |seen|
    modifies stack
    ensures Collected(stack, more, seen + [field])
  {
    assert count == STACK ==> stack[..count] == stack[..];
    if count < STACK {
      stack[count] := field;
      return extra;
    } else {
      return extra + [field];
    }
  }

  /** What has been read of a text, and what is left of it. */
  predicate ReadSoFar(text: string, seen: Fields, rest: string, more: bool) {
    FieldsOf(text) == if more then seen + FieldsOf(rest) else seen
  }

  function Latest(seen: Fields): string {
    if seen == [] then "" else seen[|seen| - 1]
  }

  method CollectFields(text: string, chain: string) returns (fields: Fields, hasJump: bool)
    ensures fields == FieldsOf(text) && (hasJump <==> HasJump(fields, chain))
  {
    hide FieldsOf, HasJump, Collected, Blank, ReadSoFar, Latest;
    var rest, stack := text, new string[STACK](_ => "");
    var extra: Fields := [];
    var count, previous, more := 0, "", true;
    ghost var seen: Fields := [];
    NothingRead(text, chain);
    hasJump := false;
    assert Collected(stack, extra, seen) by {
      NothingCollected(stack);
    }
    while more
      invariant |seen| == count && Collected(stack, extra, seen)
      invariant ReadSoFar(text, seen, rest, more)
      invariant previous == Latest(seen) && (hasJump <==> HasJump(seen, chain))
      decreases more, |rest|
    {
      var field, next;
      field, next, more := NextRuleField(rest);
      FieldRead(text, seen, rest, field, next, more);
      if more {
        HasJumpNext(seen, field, chain);
        if previous == "-j" && field == chain {
          hasJump := true;
        }
        extra := Collect(stack, extra, seen, count, field);
        seen := seen + [field];
        count := count + 1;
        previous := field;
        rest := next;
      }
    }
    AllRead(text, seen, rest);
    AllCollected(stack, extra, seen);
    fields := if count <= STACK then stack[..count] else stack[..] + extra;
  }

  lemma NothingRead(text: string, chain: string)
    ensures ReadSoFar(text, [], text, true) && Latest([]) == "" && !HasJump([], chain)
  {
    hide FieldsOf;
    assert [] + FieldsOf(text) == FieldsOf(text);
  }

  lemma FieldRead(text: string, seen: Fields, rest: string, field: string, next: string, more: bool)
    requires ReadSoFar(text, seen, rest, true)
    requires FieldsOf(rest) == if more then [field] + FieldsOf(next) else []
    ensures more ==> ReadSoFar(text, seen + [field], next, true) && Latest(seen + [field]) == field
    ensures !more ==> ReadSoFar(text, seen, rest, false)
  {
    hide FieldsOf;
    if more {
      assert seen + ([field] + FieldsOf(next)) == (seen + [field]) + FieldsOf(next);
    } else {
      assert seen + [] == seen;
    }
  }

  lemma AllRead(text: string, seen: Fields, rest: string)
    requires ReadSoFar(text, seen, rest, false)
    ensures FieldsOf(text) == seen
  {
  }

  lemma NothingCollected(stack: array<string>)
    requires stack.Length == STACK
    ensures Collected(stack, [], [])
  {
  }

  lemma AllCollected(stack: array<string>, extra: Fields, seen: Fields)
    requires Collected(stack, extra, seen)
    ensures stack.Length == STACK && seen == if |seen| <= STACK then stack[..|seen|] else stack[..] + extra
  {
  }

  method ParentJumpDeleteArgs(line: string, parent: string, chain: string) returns (args: Option<Fields>)
    ensures args == DeleteArgs(FieldsOf(line), parent, chain)
  {
    hide FieldsOf, HasJump;
    ghost var words := FieldsOf(line);
    var first, rest, ok := NextRuleField(line);
    if !ok || first != "-A" {
      return None;
    }
    var second;
    second, rest, ok := NextRuleField(rest);
    if !ok || second != parent {
      return None;
    }
    assert words == [first, second] + FieldsOf(rest);
    assert words[2..] == FieldsOf(rest);
    var fields, hasJump := CollectFields(rest, chain);
    return if hasJump then Some(fields) else None;
  }

  lemma HasJumpNext(seen: Fields, field: string, chain: string)
    ensures HasJump(seen + [field], chain) <==>
            HasJump(seen, chain) || (Latest(seen) == "-j" && field == chain)
  {
    var next := seen + [field];
    if HasJump(seen, chain) {
      var i :| 0 <= i < |seen| - 1 && seen[i] == "-j" && seen[i + 1] == chain;
      assert next[i] == "-j" && next[i + 1] == chain;
    }
    if seen != [] && seen[|seen| - 1] == "-j" && field == chain {
      assert next[|seen| - 1] == "-j" && next[|seen| - 1 + 1] == chain;
    }
    if HasJump(next, chain) {
      var i :| 0 <= i < |next| - 1 && next[i] == "-j" && next[i + 1] == chain;
      if i < |seen| - 1 {
        assert seen[i] == "-j" && seen[i + 1] == chain;
      }
    }
  }

  // ------------------------------------------------------------------
  // A listed rule, read back
  // ------------------------------------------------------------------

  lemma FieldsSkip(rest: string)
    ensures FieldsOf(" " + rest) == FieldsOf(rest)
  {
    assert (" " + rest)[1..] == rest;
  }

  lemma FieldsWord(w: string, rest: string)
    requires Word(w) && (rest == "" || Blank(rest[0]))
    ensures FieldsOf(w + rest) == [w] + FieldsOf(rest)
  {
    hide Blank, FieldsOf;
    var t := w + rest;
    assert t[..|w|] == w && t[|w|..] == rest;
    FieldsFirst(t, |w|);
  }

  lemma {:induction false} PlainText(show: Show, r: Fields, i: nat)
    requires i <= |r| && Plain(show, r)
    ensures FieldsOf(TextFrom(show, r, i)) == r[i..]
    decreases |r| - i
  {
    hide FieldsOf;
    if i == |r| {
      FieldsNone();
    } else {
      var rest := TextFrom(show, r, i + 1);
      PlainText(show, r, i + 1);
      FieldsWord(r[i], rest);
      FieldsSkip(r[i] + rest);
      assert TextFrom(show, r, i) == " " + (r[i] + rest);
    }
  }

  predicate Somewhere(words: Fields, c: char) {
    exists i :: 0 <= i < |words| && c in words[i]
  }

  lemma SomewhereNext(w: string, words: Fields, c: char)
    requires c in w || Somewhere(words, c)
    ensures Somewhere([w] + words, c)
  {
    if c in w {
      assert c in ([w] + words)[0];
    } else {
      var i :| 0 <= i < |words| && c in words[i];
      assert c in ([w] + words)[i + 1];
    }
  }

  /** Reading fields loses blanks only. */
  lemma {:induction false} FieldsKeep(text: string, c: char)
    requires c in text && !Blank(c)
    ensures Somewhere(FieldsOf(text), c)
    decreases |text|
  {
    hide Somewhere, Blank;
    if Blank(text[0]) {
      FieldsKeep(text[1..], c);
    } else {
      var n := WordLength(text);
      assert text == text[..n] + text[n..];
      if c !in text[..n] {
        FieldsKeep(text[n..], c);
      }
      SomewhereNext(text[..n], FieldsOf(text[n..]), c);
    }
  }

  lemma {:induction false} QuotedText(show: Show, r: Fields, i: nat, k: nat)
    requires i <= k < |r| && '"' in show(r, k)
    ensures '"' in TextFrom(show, r, i)
    decreases k - i
  {
    if i < k {
      QuotedText(show, r, i + 1, k);
    }
  }

  /** An argument holds a quote. */
  predicate Quoted(r: Fields) {
    Somewhere(r, '"')
  }

  lemma PlainReadsBack(show: Show, r: Fields)
    requires Faithful(show) && Stored(r)
    ensures if Plain(show, r) then ReadBack(show, r) == r else Quoted(ReadBack(show, r))
  {
    hide FieldsOf, Plain, Faithful, Stored, Quoted;
    if Plain(show, r) {
      PlainText(show, r, 0);
      assert r[0..] == r;
    } else {
      QuotedFields(show, r);
    }
  }

  /** A listed rule comes back as its own arguments when none was listed in quotes, and otherwise
      as arguments one of which holds a quote. */
  lemma ListedRule(show: Show, parent: string, chain: string, r: Fields)
    requires Word(parent) && Faithful(show) && Stored(r)
    ensures var back := ReadBack(show, r);
            && (DeleteArgs(FieldsOf(LineOf(show, parent, r)), parent, chain)
                == if HasJump(back, chain) then Some(back) else None)
            && (if Plain(show, r) then back == r else Quoted(back))
  {
    hide FieldsOf, LineOf, Word, Plain, Stored, HasJump, Faithful, Quoted;
    LineFields(show, parent, r);
    var words := FieldsOf(LineOf(show, parent, r));
    assert words[2..] == FieldsOf(Text(show, r));
    PlainReadsBack(show, r);
  }

  lemma TextStarts(show: Show, r: Fields)
    ensures Text(show, r) == "" || Text(show, r)[0] == ' '
  {
  }

  lemma LineFields(show: Show, parent: string, r: Fields)
    requires Word(parent)
    ensures FieldsOf(LineOf(show, parent, r)) == ["-A", parent] + FieldsOf(Text(show, r))
  {
    hide FieldsOf, TextFrom;
    TextStarts(show, r);
    var text := Text(show, r);
    assert LineOf(show, parent, r) == "-A" + (" " + (parent + text));
    FieldsWord("-A", " " + (parent + text));
    FieldsSkip(parent + text);
    FieldsWord(parent, text);
  }

  lemma QuotedFields(show: Show, r: Fields)
    requires Faithful(show) && Stored(r) && !Plain(show, r)
    ensures Quoted(ReadBack(show, r))
  {
    hide FieldsOf, TextFrom;
    var k :| 0 <= k < |r| && !(show(r, k) == r[k] && Word(r[k]));
    assert StoredField(r[k]);
    QuotedText(show, r, 0, k);
    FieldsKeep(Text(show, r), '"');
  }

  lemma ListedHeader(parent: string, chain: string)
    ensures DeleteArgs(FieldsOf(Header(parent)), parent, chain) == None
  {
    hide FieldsOf;
    assert Header(parent) == "-N" + (" " + parent);
    FieldsWord("-N", " " + parent);
  }

  // ------------------------------------------------------------------
  // Deleting
  // ------------------------------------------------------------------

  function DeleteFirst(rules: seq<Fields>, r: Fields): (left: seq<Fields>)
    ensures r in rules ==> |left| < |rules|
  {
    if rules == [] then []
    else if rules[0] == r then rules[1..]
    else [rules[0]] + DeleteFirst(rules[1..], r)
  }

  /** A jump whose listed form can be handed back to the kernel. */
  predicate Removable(show: Show, r: Fields, chain: string) {
    Plain(show, r) && HasJump(r, chain)
  }

  function NotJumping(show: Show, rules: seq<Fields>, chain: string): seq<Fields> {
    if rules == [] then []
    else if Removable(show, rules[0], chain) then NotJumping(show, rules[1..], chain)
    else [rules[0]] + NotJumping(show, rules[1..], chain)
  }

  function BareJump(chain: string): Fields {
    ["-j", chain]
  }

  function WithoutBare(rules: seq<Fields>, r: Fields): seq<Fields> {
    if rules == [] then []
    else if rules[0] == r then WithoutBare(rules[1..], r)
    else [rules[0]] + WithoutBare(rules[1..], r)
  }

  lemma {:induction false} DeleteFirstNone(rules: seq<Fields>, r: Fields)
    requires r !in rules
    ensures DeleteFirst(rules, r) == rules && WithoutBare(rules, r) == rules
  {
    if rules != [] {
      DeleteFirstNone(rules[1..], r);
    }
  }

  lemma {:induction false} DeleteFirstThenRest(rules: seq<Fields>, r: Fields)
    requires r in rules
    ensures WithoutBare(DeleteFirst(rules, r), r) == WithoutBare(rules, r)
  {
    if rules[0] != r {
      DeleteFirstThenRest(rules[1..], r);
    }
  }

  lemma {:induction false} NotJumpingSplits(show: Show, a: seq<Fields>, b: seq<Fields>, chain: string)
    ensures NotJumping(show, a + b, chain) == NotJumping(show, a, chain) + NotJumping(show, b, chain)
  {
    hide Removable;
    if a == [] {
      assert a + b == b;
    } else {
      assert (a + b)[1..] == a[1..] + b;
      NotJumpingSplits(show, a[1..], b, chain);
    }
  }

  lemma {:induction false} NotJumpingKeeps(show: Show, rules: seq<Fields>, chain: string)
    ensures forall r :: r in NotJumping(show, rules, chain) <==> r in rules && !Removable(show, r, chain)
  {
    hide Removable;
    if rules != [] {
      NotJumpingKeeps(show, rules[1..], chain);
      assert rules == [rules[0]] + rules[1..];
    }
  }

  /** The chain after the first `k` listed lines have been acted on. */
  function Deleted(show: Show, rules: seq<Fields>, chain: string, k: nat): seq<Fields>
    requires k <= |rules|
  {
    if k == 0 then rules
    else
      var before, back := Deleted(show, rules, chain, k - 1), ReadBack(show, rules[k - 1]);
      if HasJump(back, chain) then DeleteFirst(before, back) else before
  }

  /** What deleting the jumps to the chain leaves of a parent that is listed. */
  function Unlinked(show: Show, rules: seq<Fields>, chain: string): seq<Fields> {
    WithoutBare(Deleted(show, rules, chain, |rules|), BareJump(chain))
  }

  /** Acting on a listed line. */
  lemma DeleteListed(show: Show, parent: string, chain: string, rules: seq<Fields>, k: nat)
    requires Word(parent) && k < |rules| && Listable(show, rules)
    ensures var args := DeleteArgs(FieldsOf(LineOf(show, parent, rules[k])), parent, chain);
            var left := Deleted(show, rules, chain, k);
            (if args.Some? then DeleteFirst(left, args.value) else left)
            == Deleted(show, rules, chain, k + 1)
  {
    hide FieldsOf, LineOf, DeleteArgs, Plain, HasJump, DeleteFirst, ReadBack, Faithful, Stored;
    ListedRule(show, parent, chain, rules[k]);
  }

  // ------------------------------------------------------------------
  // When exactly the removable jumps are gone
  // ------------------------------------------------------------------

  /** No line reads back as another rule that jumps and is itself listed in quotes. */
  ghost predicate Safe(show: Show, rules: seq<Fields>, chain: string) {
    forall r :: r in rules && ReadBack(show, r) in rules && HasJump(ReadBack(show, r), chain) ==>
      Removable(show, ReadBack(show, r), chain)
  }

  /** Rules whose arguments hold no quotes are safe, whatever the tool quotes. */
  lemma QuoteFreeIsSafe(show: Show, rules: seq<Fields>, chain: string)
    requires Listable(show, rules) && forall r :: r in rules ==> !Quoted(r)
    ensures Safe(show, rules, chain)
  {
    hide FieldsOf, Text, Plain, Faithful, Stored, Quoted, HasJump;
    forall r | r in rules && ReadBack(show, r) in rules && HasJump(ReadBack(show, r), chain)
      ensures Removable(show, ReadBack(show, r), chain)
    {
      PlainReadsBack(show, r);
    }
  }

  lemma {:induction false} DeleteFirstCounts(rules: seq<Fields>, x: Fields)
    ensures multiset(DeleteFirst(rules, x)) == multiset(rules) - multiset{x}
  {
    if rules != [] {
      assert rules == [rules[0]] + rules[1..];
      if rules[0] != x {
        DeleteFirstCounts(rules[1..], x);
      }
    }
  }

  /** Deleting a removable jump leaves the other rules as they are. */
  lemma {:induction false} DeleteRemovable(show: Show, rules: seq<Fields>, x: Fields, chain: string)
    requires Removable(show, x, chain)
    ensures NotJumping(show, DeleteFirst(rules, x), chain) == NotJumping(show, rules, chain)
  {
    hide Removable;
    if rules != [] && rules[0] != x {
      DeleteRemovable(show, rules[1..], x, chain);
    }
  }

  lemma {:induction false} NothingRemovable(show: Show, rules: seq<Fields>, chain: string)
    requires forall r :: r in rules ==> !Removable(show, r, chain)
    ensures NotJumping(show, rules, chain) == rules
  {
    hide Removable;
    if rules != [] {
      NothingRemovable(show, rules[1..], chain);
    }
  }

  /** Of rules that are no removable jumps all stay. */
  lemma {:induction false} NotJumpingCounts(show: Show, rules: seq<Fields>, chain: string, x: Fields)
    requires !Removable(show, x, chain)
    ensures multiset(NotJumping(show, rules, chain))[x] == multiset(rules)[x]
  {
    hide Removable;
    if rules != [] {
      NotJumpingCounts(show, rules[1..], chain, x);
      assert rules == [rules[0]] + rules[1..];
    }
  }

  lemma {:induction false} DeletedIsPart(show: Show, rules: seq<Fields>, chain: string, k: nat)
    requires k <= |rules|
    ensures multiset(Deleted(show, rules, chain, k)) <= multiset(rules)
  {
    hide HasJump, ReadBack, DeleteFirst;
    if k > 0 {
      DeletedIsPart(show, rules, chain, k - 1);
      DeleteFirstCounts(Deleted(show, rules, chain, k - 1), ReadBack(show, rules[k - 1]));
    }
  }

  /** Each removable jump is deleted by its own line, if not before. */
  lemma {:induction false} RemovableGone(show: Show, rules: seq<Fields>, chain: string, k: nat)
    requires k <= |rules| && Listable(show, rules)
    ensures forall v :: Removable(show, v, chain) ==>
              multiset(Deleted(show, rules, chain, k))[v] <= multiset(rules[k..])[v]
  {
    hide HasJump, ReadBack, DeleteFirst, Stored, Faithful, Plain;
    if k == 0 {
      assert rules[0..] == rules;
    } else {
      var r, before := rules[k - 1], Deleted(show, rules, chain, k - 1);
      RemovableGone(show, rules, chain, k - 1);
      assert rules[k - 1..] == [r] + rules[k..];
      PlainReadsBack(show, r);
      DeleteFirstCounts(before, ReadBack(show, r));
    }
  }

  /** When the chain is safe, only removable jumps are deleted. */
  lemma {:induction false} SafeKeeps(show: Show, rules: seq<Fields>, chain: string, k: nat)
    requires k <= |rules| && Safe(show, rules, chain)
    ensures NotJumping(show, Deleted(show, rules, chain, k), chain) == NotJumping(show, rules, chain)
  {
    hide HasJump, ReadBack, DeleteFirst, Plain, NotJumping;
    if k > 0 {
      var before, back := Deleted(show, rules, chain, k - 1), ReadBack(show, rules[k - 1]);
      SafeKeeps(show, rules, chain, k - 1);
      if HasJump(back, chain) {
        if back in rules {
          DeleteRemovable(show, before, back, chain);
        } else {
          DeletedIsPart(show, rules, chain, k - 1);
          OnlyListed(before, rules, back);
          DeleteFirstNone(before, back);
        }
      }
    }
  }

  /** Of any chain, no removable jump and nothing new is left. */
  lemma UnlinkedIsPart(show: Show, rules: seq<Fields>, chain: string)
    requires Listable(show, rules) && Plain(show, BareJump(chain))
    ensures multiset(Unlinked(show, rules, chain)) <= multiset(rules)
    ensures forall r :: r in Unlinked(show, rules, chain) ==> r in rules && !Removable(show, r, chain)
  {
    hide HasJump, ReadBack, DeleteFirst, Listable, Plain, Deleted, WithoutBare, Removable;
    var deleted, left := Deleted(show, rules, chain, |rules|), Unlinked(show, rules, chain);
    DeletedIsPart(show, rules, chain, |rules|);
    RemovableGone(show, rules, chain, |rules|);
    WithoutBareIsPart(deleted, BareJump(chain));
    assert rules[|rules|..] == [];
    forall r | r in left ensures r in rules && !Removable(show, r, chain) {
      assert multiset(left)[r] > 0;
    }
  }

  lemma OnlyListed(part: seq<Fields>, rules: seq<Fields>, x: Fields)
    requires multiset(part) <= multiset(rules) && x !in rules
    ensures x !in part
  {
    assert x !in multiset(rules) && x !in multiset(part);
  }

  /** When it is not, a rule that is no removable jump is deleted by another one's line. */
  lemma {:induction false} UnsafeDeletes(show: Show, rules: seq<Fields>, chain: string, k: nat, i: nat)
    requires i < k <= |rules| && ReadBack(show, rules[i]) in rules && HasJump(ReadBack(show, rules[i]), chain)
    ensures var x := ReadBack(show, rules[i]); multiset(Deleted(show, rules, chain, k))[x] < multiset(rules)[x]
    decreases k
  {
    hide HasJump, ReadBack, DeleteFirst;
    var before, back := Deleted(show, rules, chain, k - 1), ReadBack(show, rules[k - 1]);
    DeletedIsPart(show, rules, chain, k - 1);
    DeleteFirstCounts(before, back);
    OneFewer(multiset(before), multiset(rules), back, ReadBack(show, rules[i]));
    if i < k - 1 {
      UnsafeDeletes(show, rules, chain, k - 1, i);
    }
  }

  lemma OneFewer(part: multiset<Fields>, all: multiset<Fields>, x: Fields, y: Fields)
    requires part <= all
    ensures (part - multiset{x})[y] <= part[y] && (x in all ==> (part - multiset{x})[x] < all[x])
  {
  }

  /** Main result: with a listing exactly the removable jumps are deleted and every other rule
      keeps its place, if and only if the chain is safe. */
  lemma DeletedExactlyWhen(show: Show, rules: seq<Fields>, chain: string)
    requires Listable(show, rules) && Plain(show, BareJump(chain))
    ensures Unlinked(show, rules, chain) == NotJumping(show, rules, chain) <==> Safe(show, rules, chain)
  {
    hide HasJump, ReadBack, DeleteFirst, Listable, Plain, NotJumping, Deleted, WithoutBare, Removable;
    var left, bare := Deleted(show, rules, chain, |rules|), BareJump(chain);
    BareIsRemovable(show, chain);
    if Safe(show, rules, chain) {
      SafeKeeps(show, rules, chain, |rules|);
      RemovableGone(show, rules, chain, |rules|);
      assert forall r :: r in left ==> multiset(left)[r] > 0;
      assert rules[|rules|..] == [];
      NothingRemovable(show, left, chain);
      DeleteFirstNone(left, bare);
    } else {
      var r :| r in rules && ReadBack(show, r) in rules && HasJump(ReadBack(show, r), chain)
        && !Removable(show, ReadBack(show, r), chain);
      var i :| 0 <= i < |rules| && rules[i] == r;
      UnsafeDeletes(show, rules, chain, |rules|, i);
      NotJumpingCounts(show, rules, chain, ReadBack(show, r));
      WithoutBareIsPart(left, bare);
    }
  }

  /** A chain that is not safe: the line of a rule with a comment reads back as another rule, which
      jumps and has quotes in its own comment. The tool quotes what has a blank or a quote. */
  const COMMENTED: Fields := ["-m", "comment", "--comment", "a -j C b"]
  const JUMPING: Fields := ["-m", "comment", "--comment", "\"a", "-j", "C", "b\""]

  function QuotesBlanks(r: Fields, i: nat): string {
    if i >= |r| then ""
    else if Word(r[i]) && '"' !in r[i] then r[i]
    else "\"" + r[i] + "\""
  }

  lemma UnsafeChain()
    ensures Listable(QuotesBlanks, [COMMENTED, JUMPING]) && Plain(QuotesBlanks, BareJump("C"))
    ensures !Safe(QuotesBlanks, [COMMENTED, JUMPING], "C")
    ensures HasJump(JUMPING, "C") && !HasJump(COMMENTED, "C")
  {
    hide ReadBack, Plain, Faithful, Stored, QuotesBlanks;
    var rules := [COMMENTED, JUMPING];
    CommentedReadsBack();
    BlanksAreQuoted();
    CommentsAreStored();
    JumpingIsQuoted();
    assert JUMPING[4] == "-j" && JUMPING[4 + 1] == "C";
    assert rules[0] == COMMENTED && rules[1] == JUMPING;
    assert COMMENTED in rules && JUMPING in rules;
  }

  lemma BlanksAreQuoted()
    ensures Faithful(QuotesBlanks)
  {
  }

  lemma CommentsAreStored()
    ensures Stored(COMMENTED) && Stored(JUMPING)
  {
  }

  lemma JumpingIsQuoted()
    ensures !Plain(QuotesBlanks, JUMPING) && Plain(QuotesBlanks, BareJump("C"))
  {
    assert '"' in JUMPING[3] by {
      assert JUMPING[3][0] == '"';
    }
    var shown := QuotesBlanks(JUMPING, 3);
    assert shown == "\"" + JUMPING[3] + "\"" && |shown| != |JUMPING[3]|;
    assert Word("-j") && Word("C");
  }

  lemma CommentedReadsBack()
    ensures ReadBack(QuotesBlanks, COMMENTED) == JUMPING
  {
    hide FieldsOf, TextFrom;
    var comment := "\"a -j C b\"";
    var third := "--comment" + (" " + comment);
    var second := "comment" + (" " + third);
    CommentedText();
    assert Word("-m") && Word("comment") && Word("--comment") && Blank(' ');
    CommentFields();
    FieldsSkip(comment);
    FieldsWord("--comment", " " + comment);
    FieldsSkip(third);
    FieldsWord("comment", " " + third);
    FieldsSkip(second);
    FieldsWord("-m", " " + second);
    FieldsSkip("-m" + (" " + second));
  }

  lemma CommentedText()
    ensures Text(QuotesBlanks, COMMENTED)
            == " " + ("-m" + (" " + ("comment" + (" " + ("--comment" + (" " + "\"a -j C b\""))))))
  {
    hide QuotesBlanks;
    CommentedShown();
    var show: Show := QuotesBlanks;
    assert TextFrom(show, COMMENTED, 3) == " " + show(COMMENTED, 3) + TextFrom(show, COMMENTED, 4);
    assert TextFrom(show, COMMENTED, 2) == " " + show(COMMENTED, 2) + TextFrom(show, COMMENTED, 3);
    assert TextFrom(show, COMMENTED, 1) == " " + show(COMMENTED, 1) + TextFrom(show, COMMENTED, 2);
  }

  lemma CommentedShown()
    ensures QuotesBlanks(COMMENTED, 0) == "-m" && QuotesBlanks(COMMENTED, 1) == "comment"
    ensures QuotesBlanks(COMMENTED, 2) == "--comment" && QuotesBlanks(COMMENTED, 3) == "\"a -j C b\""
  {
    assert "a -j C b"[1] == ' ' && Blank(' ');
    assert Word("-m") && Word("comment") && Word("--comment") && !Word("a -j C b");
  }

  lemma CommentFields()
    ensures FieldsOf("\"a -j C b\"") == ["\"a", "-j", "C", "b\""]
  {
    hide FieldsOf;
    assert Blank(' ') && Word("\"a") && Word("-j") && Word("C") && Word("b\"");
    FieldsNone();
    assert "b\"" + "" == "b\"";
    FieldsWord("b\"", "");
    FieldsSkip("b\"");
    assert "C" + (" " + "b\"") == "C b\"";
    FieldsWord("C", " " + "b\"");
    FieldsSkip("C b\"");
    assert "-j" + (" " + "C b\"") == "-j C b\"";
    FieldsWord("-j", " " + "C b\"");
    FieldsSkip("-j C b\"");
    assert "\"a" + (" " + "-j C b\"") == "\"a -j C b\"";
    FieldsWord("\"a", " " + "-j C b\"");
  }

  lemma {:induction false} WithoutBareIsPart(rules: seq<Fields>, r: Fields)
    ensures multiset(WithoutBare(rules, r)) <= multiset(rules)
  {
    if rules != [] {
      WithoutBareIsPart(rules[1..], r);
      assert rules == [rules[0]] + rules[1..];
    }
  }

  // ------------------------------------------------------------------
  // The loops
  // ------------------------------------------------------------------

  /** The next line of a listing, and where the rest starts. */
  lemma NextLine(output: string, start: nat, line: string, rest: string)
    requires start <= |output| && output[start..] == line + "\n" + rest && '\n' !in line
    ensures FirstIndex(output[start..], '\n') == |line|
    ensures start + |line| + 1 <= |output|
    ensures output[start..start + |line|] == line && output[start + |line| + 1..] == rest
  {
    var here := output[start..];
    FirstIndexSplit(line, '\n', rest);
    FirstIndexNone(line, '\n');
    assert output[start..start + |line|] == here[..|line|];
    assert output[start + |line| + 1..] == here[|line| + 1..];
  }

  lemma {:induction false} TextHasNoBreak(show: Show, r: Fields, i: nat)
    requires Faithful(show) && Stored(r) && i <= |r|
    ensures '\n' !in TextFrom(show, r, i)
    decreases |r| - i
  {
    hide Faithful;
    if i < |r| {
      TextHasNoBreak(show, r, i + 1);
      ShownHasNoBreak(show, r, i);
      var shown, rest := show(r, i), TextFrom(show, r, i + 1);
      assert TextFrom(show, r, i) == " " + shown + rest;
    }
  }

  lemma ShownHasNoBreak(show: Show, r: Fields, i: nat)
    requires Faithful(show) && Stored(r) && i < |r|
    ensures '\n' !in show(r, i)
  {
    assert StoredField(r[i]);
    assert Blank('\n');
  }

  lemma LineHasNoBreak(show: Show, parent: string, r: Fields)
    requires Word(parent) && Faithful(show) && Stored(r)
    ensures '\n' !in LineOf(show, parent, r)
  {
    hide Faithful, Stored;
    TextHasNoBreak(show, r, 0);
    assert Blank('\n');
  }

  /** deleteParentJumpsToChain on an existing parent; `listed` says whether -S succeeded.
      With a listing, every listed line that jumps is acted on; in any case the bare jumps are
      gone, and no other rule when there is no listing. */
  method DeleteParentJumpsToChain(show: Show, rules: seq<Fields>, parent: string, chain: string, listed: bool)
    returns (left: seq<Fields>)
    requires Word(parent) && Listable(show, rules)
    ensures left == if listed then Unlinked(show, rules, chain) else WithoutBare(rules, BareJump(chain))
  {
    hide FieldsOf, LineOf, DeleteArgs, Deleted, WithoutBare, DeleteFirst, Listable;
    left := rules;
    if listed {
      left := DeleteByListing(show, rules, parent, chain);
    }
    ghost var before := left;
    while BareJump(chain) in left
      invariant WithoutBare(left, BareJump(chain)) == WithoutBare(before, BareJump(chain))
      decreases |left|
    {
      DeleteFirstThenRest(left, BareJump(chain));
      left := DeleteFirst(left, BareJump(chain));
    }
    DeleteFirstNone(left, BareJump(chain));
  }

  lemma BareIsRemovable(show: Show, chain: string)
    requires Plain(show, BareJump(chain))
    ensures Removable(show, BareJump(chain), chain)
  {
    assert BareJump(chain)[0] == "-j" && BareJump(chain)[0 + 1] == chain;
  }

  method DeleteByListing(show: Show, rules: seq<Fields>, parent: string, chain: string) returns (left: seq<Fields>)
    requires Word(parent) && Listable(show, rules)
    ensures left == Deleted(show, rules, chain, |rules|)
  {
    hide FieldsOf, LeftAt, Unread, Listing, DeleteArgs, Deleted, DeleteFirst, Listable, Word, FirstIndex;
    left := rules;
    var output := Listing(show, parent, rules);
    var start := 0;
    ghost var k := -1;
    UnreadAll(show, parent, rules);
    LeftAtIs(show, rules, chain, -1);
    assert output[0..] == output;
    while start < |output|
      invariant 0 <= start <= |output| && -1 <= k <= |rules|
      invariant output[start..] == Unread(show, parent, rules, k)
      invariant left == LeftAt(show, rules, chain, k)
      decreases |output| - start
    {
      ListingStep(show, parent, chain, rules, output, start, k);
      var end := FirstIndex(output[start..], '\n');
      var lineEnd := if end >= 0 then start + end else |output|;
      var args := ParentJumpDeleteArgs(output[start..lineEnd], parent, chain);
      if args.Some? {
        left := DeleteFirst(left, args.value);
      }
      if end < 0 {
        break;
      }
      start := lineEnd + 1;
      k := k + 1;
    }
    UnreadStep(show, parent, rules, k);
    LeftAtIs(show, rules, chain, |rules|);
  }

  /** The chain when the listing has been read up to rule `k`; the header counts as rule -1. */
  function LeftAt(show: Show, rules: seq<Fields>, chain: string, k: int): seq<Fields>
    requires -1 <= k <= |rules|
  {
    if k == -1 then rules else Deleted(show, rules, chain, k)
  }

  lemma LeftAtIs(show: Show, rules: seq<Fields>, chain: string, k: int)
    requires -1 <= k <= |rules|
    ensures k <= 0 ==> LeftAt(show, rules, chain, k) == rules
    ensures k >= 0 ==> LeftAt(show, rules, chain, k) == Deleted(show, rules, chain, k)
  {
  }

  /** One line of the listing, read from the text and acted on. */
  lemma ListingStep(show: Show, parent: string, chain: string, rules: seq<Fields>, output: string, start: nat, k: int)
    requires Word(parent) && Listable(show, rules)
    requires start < |output| && -1 <= k <= |rules| && output[start..] == Unread(show, parent, rules, k)
    ensures k < |rules|
    ensures var end := FirstIndex(output[start..], '\n');
            && end >= 0 && start + end + 1 <= |output|
            && output[start + end + 1..] == Unread(show, parent, rules, k + 1)
            && var args := DeleteArgs(FieldsOf(output[start..start + end]), parent, chain);
            && var left := LeftAt(show, rules, chain, k);
            (if args.Some? then DeleteFirst(left, args.value) else left) == LeftAt(show, rules, chain, k + 1)
  {
    hide FieldsOf, ListedLine, Unread, LeftAt, DeleteArgs, DeleteFirst, Listable, Word, FirstIndex;
    UnreadStep(show, parent, rules, k);
    NextLine(output, start, ListedLine(show, parent, rules, k), Unread(show, parent, rules, k + 1));
    LeftAtNext(show, parent, chain, rules, k);
  }

  /** What acting on one line does. */
  lemma LeftAtNext(show: Show, parent: string, chain: string, rules: seq<Fields>, k: int)
    requires Word(parent) && -1 <= k < |rules| && Listable(show, rules)
    ensures var args := DeleteArgs(FieldsOf(ListedLine(show, parent, rules, k)), parent, chain);
            var left := LeftAt(show, rules, chain, k);
            (if args.Some? then DeleteFirst(left, args.value) else left) == LeftAt(show, rules, chain, k + 1)
  {
    hide FieldsOf, ListedLine, DeleteArgs, Deleted, LeftAt, DeleteFirst, Listable, Word;
    LeftAtIs(show, rules, chain, k);
    LeftAtIs(show, rules, chain, k + 1);
    ListedLineIs(show, parent, rules, k);
    if k >= 0 {
      DeleteListed(show, parent, chain, rules, k);
    } else {
      ListedHeader(parent, chain);
    }
  }

  lemma ListedLineIs(show: Show, parent: string, rules: seq<Fields>, k: int)
    requires -1 <= k < |rules|
    ensures ListedLine(show, parent, rules, k) == if k == -1 then Header(parent) else LineOf(show, parent, rules[k])
  {
  }

  lemma HeaderHasNoBreak(parent: string)
    requires Word(parent)
    ensures '\n' !in Header(parent)
  {
    assert Blank('\n');
  }

  /** What is left of the listing before rule `k`; the header counts as rule -1. */
  function Unread(show: Show, parent: string, rules: seq<Fields>, k: int): string
    requires -1 <= k <= |rules|
  {
    if k == -1 then Listing(show, parent, rules) else Body(show, parent, rules[k..])
  }

  function ListedLine(show: Show, parent: string, rules: seq<Fields>, k: int): string
    requires -1 <= k < |rules|
  {
    if k == -1 then Header(parent) else LineOf(show, parent, rules[k])
  }

  lemma UnreadAll(show: Show, parent: string, rules: seq<Fields>)
    ensures Unread(show, parent, rules, -1) == Listing(show, parent, rules)
  {
  }

  lemma UnreadStep(show: Show, parent: string, rules: seq<Fields>, k: int)
    requires Word(parent) && -1 <= k <= |rules| && Listable(show, rules)
    ensures k == |rules| ==> Unread(show, parent, rules, k) == ""
    ensures k < |rules| ==>
              && '\n' !in ListedLine(show, parent, rules, k)
              && Unread(show, parent, rules, k)
                 == ListedLine(show, parent, rules, k) + "\n" + Unread(show, parent, rules, k + 1)
    ensures k < |rules| ==> Unread(show, parent, rules, k) != ""
  {
    hide LineOf, Word, Header, Stored, Faithful;
    if k == -1 {
      HeaderHasNoBreak(parent);
      assert rules[0..] == rules;
    } else if k < |rules| {
      LineHasNoBreak(show, parent, rules[k]);
      assert rules[k..][1..] == rules[k + 1..];
    }
  }
}
