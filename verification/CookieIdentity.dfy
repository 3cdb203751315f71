/** The canonical identity of a request's cookies (pkg/proxy/handler.go:3040-3215,
    pkg/proxy/auth_cache.go:521-600). Cookie pairs are those of section 4.2.1 of RFC 6265. */
module CookieIdentity {
  import opened Bytes
  import opened Decimal

  datatype Pair = Pair(name: string, value: string)

  const PROXY_PATH := "__proxy_path"
  const MAX_COOKIES := 3000

  // ------------------------------------------------------------------
  // Order
  // ------------------------------------------------------------------

  /** Go's `<` on strings. */
  predicate Less(a: string, b: string) {
    b != "" && (a == "" || a[0] < b[0] || (a[0] == b[0] && Less(a[1..], b[1..])))
  }

  /** The texts agree up to `k`, where the first one ends or has the smaller byte. */
  predicate LessAt(a: string, b: string, k: nat) {
    && k <= |a| && k < |b|
    && (forall j :: 0 <= j < k ==> a[j] == b[j])
    && (k == |a| || a[k] < b[k])
  }

  /** Byte by byte: smaller at the first place where they differ, or a proper prefix. */
  lemma {:induction false} LessExactly(a: string, b: string)
    ensures Less(a, b) <==> exists k: nat :: LessAt(a, b, k)
    decreases |a|
  {
    if a != "" && b != "" && a[0] == b[0] {
      var x, y := a[1..], b[1..];
      LessExactly(x, y);
      if k: nat :| LessAt(x, y, k) {
        assert forall j :: 0 < j < k + 1 ==> a[j] == x[j - 1] && b[j] == y[j - 1];
        assert k < |x| ==> a[k + 1] == x[k] && b[k + 1] == y[k];
        assert LessAt(a, b, k + 1);
      }
      if k: nat :| LessAt(a, b, k) {
        assert k > 0;
        assert LessAt(x, y, k - 1);
      }
    } else if b != "" && (a == "" || a[0] < b[0]) {
      assert LessAt(a, b, 0);
    }
  }

  /** The sorted list is ordered by name, and by value among equal names. */
  lemma SortedByName(ps: seq<Pair>, i: nat, j: nat)
    requires i < j < |Sorted(ps)|
    ensures var a, b := Sorted(ps)[i], Sorted(ps)[j];
            Less(a.name, b.name) || (a.name == b.name && (Less(a.value, b.value) || a.value == b.value))
  {
    hide Sorted, Less;
    SortedIsOrdered(ps);
    LessTotal(Sorted(ps)[i].name, Sorted(ps)[j].name);
    LessTotal(Sorted(ps)[i].value, Sorted(ps)[j].value);
  }

  /** canonicalCookiePairLess */
  predicate PairLess(a: Pair, b: Pair) {
    if a.name == b.name then Less(a.value, b.value) else Less(a.name, b.name)
  }

  lemma {:induction false} LessTotal(a: string, b: string)
    ensures Less(a, b) || Less(b, a) || a == b
    ensures !(Less(a, b) && Less(b, a)) && !Less(a, a)
  {
    if a != "" && b != "" && a[0] == b[0] {
      LessTotal(a[1..], b[1..]);
      assert a[1..] == b[1..] ==> a == [a[0]] + a[1..] == b;
    }
    if a != "" {
      LessTotal(a[1..], a[1..]);
    }
  }

  lemma {:induction false} LessTransitive(a: string, b: string, c: string)
    requires Less(a, b) && Less(b, c)
    ensures Less(a, c)
  {
    if a != "" && a[0] == b[0] == c[0] {
      LessTransitive(a[1..], b[1..], c[1..]);
    }
  }

  lemma PairLessTotal(a: Pair, b: Pair)
    ensures PairLess(a, b) || PairLess(b, a) || a == b
    ensures !(PairLess(a, b) && PairLess(b, a))
  {
    LessTotal(a.name, b.name);
    LessTotal(a.value, b.value);
  }

  /** Not-less chains. */
  lemma NotLessTransitive(a: Pair, b: Pair, c: Pair)
    requires !PairLess(b, a) && !PairLess(c, b)
    ensures !PairLess(c, a)
  {
    if PairLess(c, a) {
      PairLessTotal(a, b);
      PairLessTotal(b, c);
      LessTotal(a.name, b.name);
      if PairLess(a, b) {
        PairLessTransitive(c, a, b);
      }
    }
  }

  lemma PairLessTransitive(a: Pair, b: Pair, c: Pair)
    requires PairLess(a, b) && PairLess(b, c)
    ensures PairLess(a, c)
  {
    if a.name == b.name == c.name {
      LessTransitive(a.value, b.value, c.value);
    } else if a.name != b.name && b.name != c.name {
      LessTransitive(a.name, b.name, c.name);
      LessTotal(a.name, b.name);
    }
  }

  ghost predicate Ordered(ps: seq<Pair>) {
    forall i, j :: 0 <= i < j < |ps| ==> !PairLess(ps[j], ps[i])
  }

  // ------------------------------------------------------------------
  // Sorting
  // ------------------------------------------------------------------

  /** `x` placed behind everything that is not greater than it. */
  function Insert(ps: seq<Pair>, x: Pair): seq<Pair> {
    if ps == [] || !PairLess(x, ps[|ps| - 1]) then ps + [x]
    else Insert(ps[..|ps| - 1], x) + [ps[|ps| - 1]]
  }

  function Sorted(ps: seq<Pair>): seq<Pair> {
    if ps == [] then [] else Insert(Sorted(ps[..|ps| - 1]), ps[|ps| - 1])
  }

  lemma {:induction false} InsertIsOrdered(ps: seq<Pair>, x: Pair)
    requires Ordered(ps)
    ensures Ordered(Insert(ps, x)) && multiset(Insert(ps, x)) == multiset(ps) + multiset{x}
  {
    hide PairLess;
    if ps == [] {
    } else if !PairLess(x, ps[|ps| - 1]) {
      forall i | 0 <= i < |ps| ensures !PairLess(x, ps[i]) {
        if i < |ps| - 1 {
          NotLessTransitive(ps[i], ps[|ps| - 1], x);
        }
      }
    } else {
      var front, last := ps[..|ps| - 1], ps[|ps| - 1];
      InsertIsOrdered(front, x);
      assert ps == front + [last];
      var head := Insert(front, x);
      forall i | 0 <= i < |head| ensures !PairLess(last, head[i]) {
        assert head[i] in multiset(head);
        PairLessTotal(x, last);
      }
    }
  }

  lemma {:induction false} SortedIsOrdered(ps: seq<Pair>)
    ensures Ordered(Sorted(ps)) && multiset(Sorted(ps)) == multiset(ps)
  {
    hide Insert;
    if ps != [] {
      SortedIsOrdered(ps[..|ps| - 1]);
      InsertIsOrdered(Sorted(ps[..|ps| - 1]), ps[|ps| - 1]);
      assert ps == ps[..|ps| - 1] + [ps[|ps| - 1]];
    }
  }

  /** An ordered list is determined by its elements. */
  lemma {:induction false} OrderedUnique(a: seq<Pair>, b: seq<Pair>)
    requires Ordered(a) && Ordered(b) && multiset(a) == multiset(b)
    ensures a == b
  {
    hide PairLess, Ordered;
    assert |multiset(a)| == |multiset(b)|;
    if a != [] {
      FirstOf(a);
      FirstOf(b);
      FirstIsLeast(a, b[0]);
      FirstIsLeast(b, a[0]);
      PairLessTotal(a[0], b[0]);
      OrderedRest(a);
      OrderedRest(b);
      assert multiset(a[1..]) == multiset(a) - multiset{a[0]};
      assert multiset(b[1..]) == multiset(b) - multiset{b[0]};
      OrderedUnique(a[1..], b[1..]);
    }
  }

  lemma FirstOf(a: seq<Pair>)
    requires a != []
    ensures a == [a[0]] + a[1..] && multiset(a) == multiset{a[0]} + multiset(a[1..]) && a[0] in multiset(a)
  {
    assert a == [a[0]] + a[1..];
  }

  lemma OrderedRest(a: seq<Pair>)
    requires Ordered(a) && a != []
    ensures Ordered(a[1..])
  {
    hide PairLess;
  }

  lemma FirstIsLeast(a: seq<Pair>, x: Pair)
    requires Ordered(a) && x in multiset(a)
    ensures !PairLess(x, a[0])
  {
    PairLessTotal(a[0], a[0]);
  }

  /** sortCanonicalCookiePairs, in place. */
  method SortCanonicalCookiePairs(a: array<Pair>)
    modifies a
    ensures a[..] == Sorted(old(a[..]))
  {
    hide Sorted, Insert, PairLess;
    ghost var was := a[..];
    var i := 1;
    SortedSmall(was);
    while i < a.Length
      invariant 1 <= i && (i <= a.Length || a.Length == 0)
      invariant a.Length > 0 ==> a[..i] == Sorted(was[..i]) && a[i..] == was[i..]
      invariant a.Length == 0 ==> a[..] == was
    {
      InsertLast(a, i);
      assert was[..i + 1][..i] == was[..i] && was[..i + 1][i] == was[i];
      SortedStep(was[..i + 1]);
      i := i + 1;
    }
    assert a.Length > 0 ==> a[..i] == a[..] && was[..i] == was;
  }

  /** One round: `a[i]` moves down to its place among the sorted elements before it. */
  method InsertLast(a: array<Pair>, i: nat)
    requires 1 <= i < a.Length
    modifies a
    ensures a[..i + 1] == Insert(old(a[..i]), old(a[i])) && a[i + 1..] == old(a[i + 1..])
  {
    hide Insert, PairLess, WithHole, Placed;
    ghost var sorted, rest := a[..i], a[i + 1..];
    var pair := a[i];
    var j := i - 1;
    WithHoleStart(a[..], i);
    PlacedStart(sorted, pair);
    while j >= 0 && PairLess(pair, a[j])
      invariant -1 <= j < i
      invariant a[..] == WithHole(sorted, j + 1, a[j + 1], rest)
      invariant Placed(sorted, j + 1, pair) == Insert(sorted, pair)
    {
      WithHoleAt(sorted, j + 1, a[j + 1], rest, a[..]);
      PlacedDown(sorted, j, pair);
      HoleDown(sorted, j, a[j + 1], rest);
      a[j + 1] := a[j];
      j := j - 1;
    }
    if j >= 0 {
      WithHoleAt(sorted, j + 1, a[j + 1], rest, a[..]);
    }
    PlacedHere(sorted, j + 1, pair);
    Filled(sorted, j + 1, a[j + 1], rest, pair);
    a[j + 1] := pair;
  }

  /** The array while elements behind position `k` have moved up by one. */
  function WithHole(sorted: seq<Pair>, k: nat, hole: Pair, rest: seq<Pair>): seq<Pair>
    requires k <= |sorted|
  {
    sorted[..k] + [hole] + sorted[k..] + rest
  }

  lemma WithHoleStart(all: seq<Pair>, i: nat)
    requires i < |all|
    ensures all == WithHole(all[..i], i, all[i], all[i + 1..])
  {
  }

  lemma WithHoleAt(sorted: seq<Pair>, k: nat, hole: Pair, rest: seq<Pair>, all: seq<Pair>)
    requires 0 < k <= |sorted| && all == WithHole(sorted, k, hole, rest)
    ensures k - 1 < |all| && all[k - 1] == sorted[k - 1]
  {
  }

  lemma HoleDown(sorted: seq<Pair>, j: nat, hole: Pair, rest: seq<Pair>)
    requires j < |sorted|
    ensures WithHole(sorted, j + 1, hole, rest)[j + 1 := sorted[j]] == WithHole(sorted, j, sorted[j], rest)
  {
  }

  /** The hole filled: what is in front of the rest, and the rest. */
  lemma Filled(sorted: seq<Pair>, k: nat, hole: Pair, rest: seq<Pair>, x: Pair)
    requires k <= |sorted|
    ensures var all := WithHole(sorted, k, hole, rest);
            && |all| == |sorted| + 1 + |rest|
            && all[k := x][..|sorted| + 1] == sorted[..k] + [x] + sorted[k..]
            && all[k := x][|sorted| + 1..] == rest
  {
    var front := sorted[..k] + [x] + sorted[k..];
    assert WithHole(sorted, k, hole, rest)[k := x] == front + rest && |front| == |sorted| + 1;
  }

  /** The sorted list with `x` inserted among its first `k` elements. */
  function Placed(sorted: seq<Pair>, k: nat, x: Pair): seq<Pair>
    requires k <= |sorted|
  {
    Insert(sorted[..k], x) + sorted[k..]
  }

  lemma PlacedStart(sorted: seq<Pair>, x: Pair)
    ensures Placed(sorted, |sorted|, x) == Insert(sorted, x)
  {
    hide Insert;
    assert sorted[..|sorted|] == sorted;
  }

  lemma PlacedDown(sorted: seq<Pair>, j: nat, x: Pair)
    requires j < |sorted|
    ensures PairLess(x, sorted[j]) ==> Placed(sorted, j + 1, x) == Placed(sorted, j, x)
  {
    hide PairLess, Insert;
    InsertStep(sorted[..j + 1], x);
    assert sorted[..j + 1][..j] == sorted[..j];
    assert [sorted[j]] + sorted[j + 1..] == sorted[j..];
  }

  lemma PlacedHere(sorted: seq<Pair>, k: nat, x: Pair)
    requires k <= |sorted| && (k > 0 ==> !PairLess(x, sorted[k - 1]))
    ensures Placed(sorted, k, x) == sorted[..k] + [x] + sorted[k..]
  {
    hide PairLess, Insert;
    InsertStep(sorted[..k], x);
  }

  lemma InsertStep(ps: seq<Pair>, x: Pair)
    ensures ps == [] || !PairLess(x, ps[|ps| - 1]) ==> Insert(ps, x) == ps + [x]
    ensures ps != [] && PairLess(x, ps[|ps| - 1]) ==> Insert(ps, x) == Insert(ps[..|ps| - 1], x) + [ps[|ps| - 1]]
  {
    hide PairLess;
  }

  lemma SortedStep(ps: seq<Pair>)
    requires ps != []
    ensures Sorted(ps) == Insert(Sorted(ps[..|ps| - 1]), ps[|ps| - 1])
  {
    hide Insert;
  }

  lemma SortedSmall(ps: seq<Pair>)
    ensures ps == [] ==> Sorted(ps) == ps
    ensures ps != [] ==> Sorted(ps[..1]) == ps[..1]
  {
    hide PairLess;
    if ps != [] {
      var one := ps[..1];
      assert one[..0] == [];
      assert Sorted(one) == Insert([], one[0]) == [one[0]];
    }
  }

  // ------------------------------------------------------------------
  // Parsing
  // ------------------------------------------------------------------

  function Before(s: string, c: char): string {
    var i := FirstIndex(s, c);
    if i == -1 then s else s[..i]
  }

  function Behind(s: string, c: char): string {
    var i := FirstIndex(s, c);
    if i == -1 then "" else s[i + 1..]
  }

  const TOKEN_MARKS := "!#$%&'*+-.^_`|~"

  /** A field name byte, as httpguts.ValidHeaderFieldName takes it. */
  predicate TokenByte(c: char) {
    'a' <= c <= 'z' || 'A' <= c <= 'Z' || '0' <= c <= '9' || c in TOKEN_MARKS
  }

  predicate ValidName(name: string) {
    name != "" && forall i :: 0 <= i < |name| ==> TokenByte(name[i])
  }

  /** validCanonicalCookieValueByte */
  predicate ValueByte(c: char) {
    ' ' <= c <= '~' && c != '"' && c != ';' && c != '\\'
  }

  predicate ValidValue(value: string) {
    forall i :: 0 <= i < |value| ==> ValueByte(value[i])
  }

  /** One pair of surrounding quotes is not part of the value. */
  function Unquoted(raw: string): string {
    if |raw| > 1 && raw[0] == '"' && raw[|raw| - 1] == '"' then raw[1..|raw| - 1] else raw
  }

  /** parseCanonicalCookiePart, of a part already trimmed. */
  function ParsePart(part: string): Option<Pair> {
    var name, value := TrimSpace(Before(part, '=')), Unquoted(Behind(part, '='));
    if part != "" && ValidName(name) && ValidValue(value) then Some(Pair(name, value)) else None
  }

  /** The parts of a header between semicolons. */
  function Parts(header: string): seq<string>
    decreases |header|
  {
    var i := FirstIndex(header, ';');
    if i == -1 then [header] else [header[..i]] + Parts(header[i + 1..])
  }

  /** The cookies that parse, other than the proxy's own, with or without a value. */
  function Parsed(parts: seq<string>): seq<Pair> {
    if parts == [] then []
    else
      var pair := ParsePart(TrimSpace(parts[0]));
      if pair.Some? && pair.value.name != PROXY_PATH then [pair.value] + Parsed(parts[1..]) else Parsed(parts[1..])
  }

  function Cookies(headers: seq<string>): seq<Pair> {
    if headers == [] then [] else Parsed(Parts(headers[0])) + Cookies(headers[1..])
  }

  function WithValue(cookies: seq<Pair>): seq<Pair> {
    if cookies == [] then []
    else if cookies[0].value != "" then [cookies[0]] + WithValue(cookies[1..])
    else WithValue(cookies[1..])
  }

  function PartCount(headers: seq<string>): nat {
    if headers == [] then 0 else |Parts(headers[0])| + PartCount(headers[1..])
  }

  /** The accepted pairs of a request; beyond the limit none is accepted. */
  function Accepted(headers: seq<string>): seq<Pair> {
    if PartCount(headers) > MAX_COOKIES then [] else WithValue(Cookies(headers))
  }

  /** strings.Count(header, ";") */
  function Semicolons(header: string): (n: nat)
    ensures n <= |header|
  {
    if header == "" then 0 else (if header[0] == ';' then 1 else 0) + Semicolons(header[1..])
  }

  lemma {:induction false} SemicolonsSplit(a: string, b: string)
    ensures Semicolons(a + b) == Semicolons(a) + Semicolons(b)
  {
    if a == "" {
      assert a + b == b;
    } else {
      assert (a + b)[1..] == a[1..] + b;
      SemicolonsSplit(a[1..], b);
    }
  }

  lemma {:induction false} NoSemicolons(a: string)
    requires ';' !in a
    ensures Semicolons(a) == 0
  {
    if a != "" {
      NoSemicolons(a[1..]);
    }
  }

  lemma {:induction false} PartsCount(header: string)
    ensures |Parts(header)| == Semicolons(header) + 1
    decreases |header|
  {
    var i := FirstIndex(header, ';');
    if i == -1 {
      NoSemicolons(header);
    } else {
      PartsCount(header[i + 1..]);
      NoSemicolons(header[..i]);
      SemicolonsSplit(header[..i], header[i..]);
      assert header == header[..i] + header[i..];
      assert header[i..][1..] == header[i + 1..];
    }
  }

  function TotalLength(headers: seq<string>): nat {
    if headers == [] then 0 else |headers[0]| + TotalLength(headers[1..])
  }

  lemma {:induction false} ShortHeadersFit(headers: seq<string>)
    ensures PartCount(headers) <= TotalLength(headers) + |headers|
  {
    hide Parts;
    if headers != [] {
      PartsCount(headers[0]);
      ShortHeadersFit(headers[1..]);
    }
  }

  /** cookieHeaderValuesWithinDefaultLimit: the shortcut by length decides as the count does. */
  method WithinDefaultLimit(headers: seq<string>) returns (ok: bool)
    ensures ok <==> PartCount(headers) <= 3000
  {
    hide Parts, Semicolons;
    if |headers| == 0 {
      return true;
    }
    var total := 0;
    assert headers[0..] == headers;
    for i := 0 to |headers|
      invariant total + TotalLength(headers[i..]) == TotalLength(headers)
    {
      assert headers[i..][1..] == headers[i + 1..];
      total := total + |headers[i]|;
    }
    ShortHeadersFit(headers);
    if total + |headers| <= MAX_COOKIES {
      return true;
    }
    var count := 0;
    for i := 0 to |headers|
      invariant count <= MAX_COOKIES && count + PartCount(headers[i..]) == PartCount(headers)
    {
      assert headers[i..][1..] == headers[i + 1..];
      PartsCount(headers[i]);
      count := count + Semicolons(headers[i]) + 1;
      if count > MAX_COOKIES {
        return false;
      }
    }
    return true;
  }

  /** appendCanonicalCookieIdentityPairs */
  method AppendPairs(pairs: seq<Pair>, header: string) returns (more: seq<Pair>)
    ensures more == pairs + WithValue(Parsed(Parts(header)))
  {
    hide ParsePart, Parts, WithValue, Parsed;
    more := pairs;
    var rest := header;
    while true
      invariant more + WithValue(Parsed(Parts(rest))) == pairs + WithValue(Parsed(Parts(header)))
      decreases |rest|
    {
      var i := FirstIndex(rest, ';');
      var pair := ParsePart(TrimSpace(Before(rest, ';')));
      AcceptedStep(rest, more);
      if pair.Some? && pair.value.name != PROXY_PATH && pair.value.value != "" {
        more := more + [pair.value];
      }
      if i == -1 {
        return;
      }
      rest := Behind(rest, ';');
    }
  }

  lemma AcceptedStep(rest: string, more: seq<Pair>)
    ensures var pair := ParsePart(TrimSpace(Before(rest, ';')));
            var taken := if pair.Some? && pair.value.name != PROXY_PATH && pair.value.value != "" then [pair.value]
                         else [];
            more + WithValue(Parsed(Parts(rest))) ==
            if FirstIndex(rest, ';') == -1 then more + taken
            else (more + taken) + WithValue(Parsed(Parts(Behind(rest, ';'))))
  {
    hide ParsePart, WithValue, Parsed, Parts, TrimSpace, FirstIndex, Before, Behind;
    CookiesStep(rest);
    var pair := ParsePart(TrimSpace(Before(rest, ';')));
    var behind := if FirstIndex(rest, ';') == -1 then [] else Parsed(Parts(Behind(rest, ';')));
    WithValueNone();
    if pair.Some? && pair.value.name != PROXY_PATH {
      WithValueSplits([pair.value], behind);
      WithValueOne(pair.value);
    } else {
      assert [] + behind == behind;
    }
    var taken := if pair.Some? && pair.value.name != PROXY_PATH && pair.value.value != "" then [pair.value] else [];
    assert WithValue(Parsed(Parts(rest))) == taken + WithValue(behind);
    assert more + (taken + WithValue(behind)) == (more + taken) + WithValue(behind);
    assert taken + [] == taken;
  }

  lemma WithValueOne(p: Pair)
    ensures WithValue([p]) == if p.value != "" then [p] else []
  {
  }

  /** The first part of a header, and the header behind it. */
  lemma CookiesStep(rest: string)
    ensures var pair := ParsePart(TrimSpace(Before(rest, ';')));
            var first := if pair.Some? && pair.value.name != PROXY_PATH then [pair.value] else [];
            Parsed(Parts(rest)) ==
            first + if FirstIndex(rest, ';') == -1 then [] else Parsed(Parts(Behind(rest, ';')))
  {
    hide ParsePart, TrimSpace;
    var parts := Parts(rest);
    if FirstIndex(rest, ';') == -1 {
      assert parts == [rest] && parts[1..] == [];
    } else {
      assert parts[1..] == Parts(Behind(rest, ';'));
    }
  }

  lemma {:induction false} WithValueSplits(a: seq<Pair>, b: seq<Pair>)
    ensures WithValue(a + b) == WithValue(a) + WithValue(b)
  {
    if a == [] {
      assert a + b == b;
    } else {
      assert (a + b)[1..] == a[1..] + b;
      WithValueSplits(a[1..], b);
    }
  }

  // ------------------------------------------------------------------
  // The identity
  // ------------------------------------------------------------------

  function Text(p: Pair): string {
    p.name + "=" + p.value
  }

  function Join(ps: seq<Pair>): string {
    if ps == [] then ""
    else if |ps| == 1 then Text(ps[0])
    else Text(ps[0]) + ";" + Join(ps[1..])
  }

  function Identity(headers: seq<string>): string {
    Join(Sorted(Accepted(headers)))
  }

  /** canonicalCookieIdentity */
  method CanonicalCookieIdentity(headers: seq<string>) returns (id: string)
    ensures id == Identity(headers)
  {
    hide Cookies, WithValue, PartCount, Sorted, Join, Parsed, Parts;
    var within := WithinDefaultLimit(headers);
    NoPairs();
    if |headers| == 0 || !within {
      NoHeaders(headers);
      return "";
    }
    var pairs := CollectPairs(headers);
    if |pairs| == 0 {
      return "";
    }
    SortedSmall(pairs);
    if |pairs| == 1 {
      assert pairs[..1] == pairs == [pairs[0]];
      JoinOne(pairs[0]);
      return Text(pairs[0]);
    }
    var a := new Pair[|pairs|](i requires 0 <= i < |pairs| => pairs[i]);
    assert a[..] == pairs;
    SortCanonicalCookiePairs(a);
    id := JoinPairs(a[..]);
  }

  method CollectPairs(headers: seq<string>) returns (pairs: seq<Pair>)
    ensures pairs == WithValue(Cookies(headers))
  {
    hide WithValue, Parsed, Parts;
    pairs := [];
    assert headers[0..] == headers;
    WithValueNone();
    for i := 0 to |headers|
      invariant pairs + WithValue(Cookies(headers[i..])) == WithValue(Cookies(headers))
    {
      assert headers[i..][1..] == headers[i + 1..];
      WithValueSplits(Parsed(Parts(headers[i])), Cookies(headers[i + 1..]));
      pairs := AppendPairs(pairs, headers[i]);
    }
  }

  lemma WithValueNone()
    ensures WithValue([]) == []
  {
  }

  lemma NoPairs()
    ensures Join(Sorted([])) == ""
  {
  }

  lemma NoHeaders(headers: seq<string>)
    ensures headers == [] ==> Accepted(headers) == []
  {
  }

  lemma JoinOne(p: Pair)
    ensures Join([p]) == Text(p)
  {
  }

  method JoinPairs(ps: seq<Pair>) returns (text: string)
    ensures text == Join(ps)
  {
    hide Join, Text;
    text := "";
    assert ps[0..] == ps;
    for i := 0 to |ps|
      invariant text + (if 0 < i < |ps| then ";" else "") + Join(ps[i..]) == Join(ps)
    {
      JoinStep(ps[i..]);
      assert ps[i..][1..] == ps[i + 1..];
      if i > 0 {
        text := text + ";";
      }
      text := text + Text(ps[i]);
    }
    JoinStep(ps[|ps|..]);
  }

  lemma JoinStep(ps: seq<Pair>)
    ensures ps == [] ==> Join(ps) == ""
    ensures ps != [] ==> Join(ps) == Text(ps[0]) + (if |ps| == 1 then "" else ";") + Join(ps[1..])
  {
  }
}
