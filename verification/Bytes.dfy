/** Byte-string helpers shared by the components. A Go byte string is a Dafny
    `string` with one character per byte; nothing here depends on the character
    codes staying below 256. */
module Bytes {

  datatype Option<+T> = None | Some(value: T)

  /** Index of the last occurrence of `c` before `n`, or -1. */
  function LastBefore(s: string, c: char, n: nat): (i: int)
    requires n <= |s|
    ensures -1 <= i < n
    ensures i >= 0 ==> s[i] == c
    ensures forall k :: i < k < n ==> s[k] != c
  {
    if n == 0 then -1
    else if s[n - 1] == c then n - 1
    else LastBefore(s, c, n - 1)
  }

  /** Index of the last occurrence of `c` in `s`, or -1. */
  function LastIndex(s: string, c: char): (i: int)
    ensures -1 <= i < |s|
    ensures i >= 0 ==> s[i] == c
    ensures forall k :: i < k < |s| ==> s[k] != c
  {
    LastBefore(s, c, |s|)
  }

  /** Index of the first occurrence of `c` from `n` on, or -1. */
  function FirstFrom(s: string, c: char, n: nat): (i: int)
    requires n <= |s|
    ensures i == -1 || n <= i < |s|
    ensures i >= 0 ==> s[i] == c
    ensures forall k :: n <= k < (if i == -1 then |s| else i) ==> s[k] != c
    decreases |s| - n
  {
    if n == |s| then -1
    else if s[n] == c then n
    else FirstFrom(s, c, n + 1)
  }

  /** Index of the first occurrence of `c` in `s`, or -1. */
  function FirstIndex(s: string, c: char): (i: int)
    ensures -1 <= i < |s|
    ensures i >= 0 ==> s[i] == c && c !in s[..i]
    ensures i == -1 ==> c !in s
  {
    FirstFrom(s, c, 0)
  }

  predicate HasPrefix(s: string, prefix: string) {
    |prefix| <= |s| && s[..|prefix|] == prefix
  }

  /** Where the run of characters of `cut` that ends at `n` starts. */
  function RunStart(s: string, n: nat, cut: set<char>): (m: nat)
    requires n <= |s|
    ensures m <= n && (m > 0 ==> s[m - 1] !in cut) && forall k :: m <= k < n ==> s[k] in cut
  {
    if n > 0 && s[n - 1] in cut then RunStart(s, n - 1, cut) else n
  }

  /** Where the run of characters of `cut` that starts at `n` ends. */
  function FirstOutside(s: string, n: nat, cut: set<char>): (m: nat)
    requires n <= |s|
    ensures n <= m <= |s| && (m < |s| ==> s[m] !in cut) && forall k :: n <= k < m ==> s[k] in cut
    decreases |s| - n
  {
    if n < |s| && s[n] in cut then FirstOutside(s, n + 1, cut) else n
  }

  /** `s` without the longest suffix made of characters of `cut`. */
  function TrimRight(s: string, cut: set<char>): (t: string)
    ensures t <= s
    ensures t != "" ==> t[|t| - 1] !in cut
    ensures forall k :: |t| <= k < |s| ==> s[k] in cut
  {
    s[..RunStart(s, |s|, cut)]
  }

  /** `s` without the longest prefix made of characters of `cut`. */
  function TrimLeft(s: string, cut: set<char>): (t: string)
    ensures |t| <= |s| && t == s[|s| - |t|..]
    ensures t != "" ==> t[0] !in cut
    ensures forall k :: 0 <= k < |s| - |t| ==> s[k] in cut
  {
    s[FirstOutside(s, 0, cut)..]
  }

  function Reverse<T>(s: seq<T>): (r: seq<T>)
    ensures |r| == |s|
    ensures forall k :: 0 <= k < |s| ==> r[k] == s[|s| - 1 - k]
  {
    if s == [] then [] else Reverse(s[1..]) + [s[0]]
  }

  lemma {:induction false} ReverseConcat<T>(a: seq<T>, b: seq<T>)
    ensures Reverse(a + b) == Reverse(b) + Reverse(a)
  {
  }

  /** A trailing run of cut characters does not survive trimming. */
  lemma {:induction false} TrimRightAppend(s: string, c: char, cut: set<char>)
    requires c in cut
    ensures TrimRight(s + [c], cut) == TrimRight(s, cut)
  {
    assert (s + [c])[..|s|] == s;
  }

  lemma LastIndexAppend(a: string, b: string, c: char)
    ensures LastIndex(a + b, c) == if LastIndex(b, c) >= 0 then |a| + LastIndex(b, c) else LastIndex(a, c)
  {
    var j := LastIndex(b, c);
    LastIndexIs(a + b, c, if j >= 0 then |a| + j else LastIndex(a, c));
  }

  lemma LastIndexIs(s: string, c: char, j: int)
    requires -1 <= j < |s| && (j >= 0 ==> s[j] == c) && forall k :: j < k < |s| ==> s[k] != c
    ensures LastIndex(s, c) == j
  {
  }

  /** The first separator of `a + sep + b` is the first one of `a`, else `sep`. */
  lemma FirstIndexSplit(a: string, c: char, b: string)
    ensures FirstIndex(a + [c] + b, c) == if FirstIndex(a, c) >= 0 then FirstIndex(a, c) else |a|
  {
    var all, i := a + [c] + b, FirstIndex(a, c);
    var j := if i >= 0 then i else |a|;
    FirstIndexIs(all, c, j);
  }

  lemma FirstIndexIs(s: string, c: char, j: nat)
    requires j < |s| && s[j] == c && forall k :: 0 <= k < j ==> s[k] != c
    ensures FirstIndex(s, c) == j
  {
  }

  lemma FirstIndexNone(s: string, c: char)
    requires c !in s
    ensures FirstIndex(s, c) == -1 && LastIndex(s, c) == -1
  {
  }
}
