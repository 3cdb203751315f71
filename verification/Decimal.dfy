/** Decimal text and 64-bit integers: strconv.FormatInt and strconv.ParseInt as
    used for log cursors, and Go's wrap-around. */
module Decimal {
  import opened Bytes

  const MAX_INT64: int := 0x7fff_ffff_ffff_ffff
  const WORD: int := 0x1_0000_0000_0000_0000

  /** Go's 64-bit wrap-around. */
  function Wrap(x: int): int {
    (x + MAX_INT64 + 1) % WORD - MAX_INT64 - 1
  }

  lemma {:induction false} WrapInRange(x: int)
    requires -MAX_INT64 - 1 <= x <= MAX_INT64
    ensures Wrap(x) == x
  {
  }

  /** A digit appended to a wrapped number is the wrapped number with the digit appended. */
  lemma {:induction false} WrapDigit(x: int, d: int)
    ensures Wrap(10 * Wrap(x) + d) == Wrap(10 * x + d)
  {
    var q := (x + MAX_INT64 + 1) / WORD;
    assert x == Wrap(x) + q * WORD;
    WrapShift(10 * Wrap(x) + d, 10 * q);
    assert 10 * x + d == 10 * Wrap(x) + d + 10 * q * WORD;
  }

  lemma {:induction false} WrapShift(x: int, q: int)
    ensures Wrap(x + q * WORD) == Wrap(x)
  {
    var y := x + MAX_INT64 + 1;
    assert y == (y / WORD) * WORD + y % WORD;
    assert y + q * WORD == (y / WORD + q) * WORD + y % WORD;
    EuclidUnique(y + q * WORD, y / WORD + q, y % WORD);
  }

  lemma {:induction false} EuclidUnique(y: int, q: int, r: int)
    requires y == q * WORD + r && 0 <= r < WORD
    ensures y % WORD == r
  {
  }

  predicate IsDigit(c: char) {
    '0' <= c <= '9'
  }

  predicate AllDigits(s: string) {
    forall k :: 0 <= k < |s| ==> IsDigit(s[k])
  }

  function DigitValue(c: char): (d: nat)
    requires IsDigit(c)
    ensures d < 10
  {
    c as int - '0' as int
  }

  /** The number a digit string denotes; the empty string denotes 0. */
  function Value(s: string): nat
    requires AllDigits(s)
  {
    if s == "" then 0 else 10 * Value(s[..|s| - 1]) + DigitValue(s[|s| - 1])
  }

  function FormatInt(n: nat): (s: string)
    ensures s != "" && AllDigits(s) && Value(s) == n
  {
    var last := [('0' as int + n % 10) as char];
    if n < 10 then
      assert last[..0] == "";
      last
    else
      var s := FormatInt(n / 10) + last;
      assert s[..|s| - 1] == FormatInt(n / 10);
      s
  }

  /** An optional sign, at least one digit, a value that fits 64 bits. */
  function ParseInt(s: string): (r: Option<int>)
    ensures r.Some? ==> -MAX_INT64 - 1 <= r.value <= MAX_INT64
  {
    var negative := s != "" && s[0] == '-';
    var digits := if s != "" && (s[0] == '-' || s[0] == '+') then s[1..] else s;
    if digits == "" || !AllDigits(digits) then None
    else
      var n: int := Value(digits);
      if negative then (if n <= MAX_INT64 + 1 then Some(-n) else None)
      else if n <= MAX_INT64 then Some(n) else None
  }

  /** ASCII white space, as strings.TrimSpace cuts it. */
  predicate IsSpace(c: char) {
    c == ' ' || c == '\t' || c == '\n' || c == '\U{0B}' || c == '\U{0C}' || c == '\r'
  }

  /** Where the white space that starts at `i` ends. */
  function SpaceEnd(s: string, i: nat): (end: nat)
    requires i <= |s|
    ensures i <= end <= |s| && (forall k :: i <= k < end ==> IsSpace(s[k])) && (end < |s| ==> !IsSpace(s[end]))
    decreases |s| - i
  {
    if i < |s| && IsSpace(s[i]) then SpaceEnd(s, i + 1) else i
  }

  /** Where the white space that ends at `j` starts. */
  function SpaceStart(s: string, j: nat): (start: nat)
    requires j <= |s|
    ensures start <= j && (forall k :: start <= k < j ==> IsSpace(s[k])) && (start > 0 ==> !IsSpace(s[start - 1]))
  {
    if j > 0 && IsSpace(s[j - 1]) then SpaceStart(s, j - 1) else j
  }

  /** strings.TrimSpace on its ASCII white space. */
  function TrimSpace(s: string): string {
    var i := SpaceEnd(s, 0);
    if i == |s| then "" else s[i..SpaceStart(s, |s|)]
  }

  lemma {:induction false} TrimNothing(s: string)
    requires s != "" && !IsSpace(s[0]) && !IsSpace(s[|s| - 1])
    ensures TrimSpace(s) == s
  {
  }

  /** `t` is what lies between the white space at both ends of `s`. */
  ghost predicate InnerPart(s: string, i: nat, j: nat, t: string) {
    && i <= j <= |s| && t == s[i..j]
    && (forall k :: 0 <= k < i || j <= k < |s| ==> s[k] in " \t\n\U{0B}\U{0C}\r")
    && (t != "" ==> t[0] !in " \t\n\U{0B}\U{0C}\r" && t[|t| - 1] !in " \t\n\U{0B}\U{0C}\r")
  }

  lemma SpaceIs(c: char)
    ensures IsSpace(c) <==> c in " \t\n\U{0B}\U{0C}\r"
  {
  }

  /** Trimming takes away all white space at both ends, and nothing else. */
  lemma TrimmedExactly(s: string, t: string)
    ensures TrimSpace(s) == t <==> exists i: nat, j: nat :: InnerPart(s, i, j, t)
  {
    hide IsSpace;
    forall c: char ensures IsSpace(c) <==> c in " \t\n\U{0B}\U{0C}\r" {
      SpaceIs(c);
    }
    var i := SpaceEnd(s, 0);
    var j := if i == |s| then i else SpaceStart(s, |s|);
    assert InnerPart(s, i, j, TrimSpace(s));
    if a: nat, b: nat :| InnerPart(s, a, b, t) {
      InnerUnique(s, i, j, TrimSpace(s), a, b, t);
    }
  }

  lemma InnerUnique(s: string, i: nat, j: nat, t: string, a: nat, b: nat, u: string)
    requires InnerPart(s, i, j, t) && InnerPart(s, a, b, u)
    ensures t == u
  {
    if t != "" {
      assert s[i] == t[0] && s[j - 1] == t[|t| - 1];
    }
    if u != "" {
      assert s[a] == u[0] && s[b - 1] == u[|u| - 1];
    }
  }

  /** A formatted offset survives trimming and parses back to itself. */
  lemma {:induction false} ParseFormat(n: nat)
    requires n <= MAX_INT64
    ensures TrimSpace(FormatInt(n)) == FormatInt(n)
    ensures ParseInt(FormatInt(n)) == Some(n)
  {
    hide FormatInt, Value, TrimSpace;
    var s := FormatInt(n);
    assert IsDigit(s[0]) && IsDigit(s[|s| - 1]);
    TrimNothing(s);
  }
}
