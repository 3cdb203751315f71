/** Route matching (pkg/proxy/handler.go:238-254, 1744-1746, 1863-1884, 4163-4203,
    4266-4287): the path rule with the longest prefix, and the location of a host rule. */
module RouteMatch {
  import opened Bytes

  // ------------------------------------------------------------------
  // Path rules
  // ------------------------------------------------------------------

  datatype Rule<T> = Rule(path: string, target: T)

  predicate Matches<T>(r: Rule<T>, request: string) {
    r.path != "" && HasPrefix(request, r.path)
  }

  /** The first configured rule among those with the longest non-empty path that is a prefix of
      the request. */
  predicate IsBest<T>(rules: seq<Rule<T>>, request: string, i: nat) {
    && i < |rules| && Matches(rules[i], request)
    && (forall j :: 0 <= j < |rules| && Matches(rules[j], request) ==> |rules[j].path| <= |rules[i].path|)
    && (forall j :: 0 <= j < i && Matches(rules[j], request) ==> |rules[j].path| < |rules[i].path|)
  }

  predicate NoneMatches<T>(rules: seq<Rule<T>>, request: string) {
    forall j :: 0 <= j < |rules| ==> !Matches(rules[j], request)
  }

  /** What a lookup promises. */
  ghost predicate IsAnswer<T>(rules: seq<Rule<T>>, request: string, answer: Option<Rule<T>>, length: int) {
    if answer == None then NoneMatches(rules, request) && length == 0
    else length == |answer.value.path| && exists i: nat :: IsBest(rules, request, i) && rules[i] == answer.value
  }

  datatype Snapshot<T> = Snapshot(
    rules: seq<Rule<T>>,
    rulesByLength: seq<Rule<T>>,
    rulesByPath: map<string, Rule<T>>)

  /** `x` placed behind everything that is not shorter. */
  function InsertByLength<T>(sorted: seq<Rule<T>>, x: Rule<T>): seq<Rule<T>> {
    if sorted == [] || |sorted[|sorted| - 1].path| >= |x.path| then sorted + [x]
    else InsertByLength(sorted[..|sorted| - 1], x) + [sorted[|sorted| - 1]]
  }

  /** sort.SliceStable by falling length. */
  function ByLength<T>(rules: seq<Rule<T>>): seq<Rule<T>> {
    if rules == [] then [] else InsertByLength(ByLength(rules[..|rules| - 1]), rules[|rules| - 1])
  }

  predicate FirstWith<T>(rules: seq<Rule<T>>, path: string, k: nat) {
    k < |rules| && rules[k].path == path && forall j :: 0 <= j < k ==> rules[j].path != path
  }

  /** The first rule of every non-empty path. */
  ghost predicate FirstOfPath<T>(rules: seq<Rule<T>>, byPath: map<string, Rule<T>>) {
    && (forall p :: p in byPath ==> p != "" && exists k: nat :: FirstWith(rules, p, k) && rules[k] == byPath[p])
    && (forall i :: 0 <= i < |rules| && rules[i].path != "" ==> rules[i].path in byPath)
  }

  ghost predicate Built<T>(s: Snapshot<T>) {
    s.rulesByLength == ByLength(s.rules) && FirstOfPath(s.rules, s.rulesByPath)
  }

  /** The routing part of buildRequestSnapshotLocked. */
  method BuildRequestSnapshot<T>(rules: seq<Rule<T>>) returns (s: Snapshot<T>)
    ensures Built(s) && s.rules == rules
  {
    var byPath: map<string, Rule<T>> := map[];
    for i := 0 to |rules|
      invariant FirstOfPath(rules[..i], byPath)
    {
      PathStep(rules, i, byPath);
      if rules[i].path != "" && rules[i].path !in byPath {
        byPath := byPath[rules[i].path := rules[i]];
      }
    }
    assert rules[..|rules|] == rules;
    return Snapshot(rules, ByLength(rules), byPath);
  }

  lemma PathStep<T>(rules: seq<Rule<T>>, i: nat, byPath: map<string, Rule<T>>)
    requires i < |rules| && FirstOfPath(rules[..i], byPath)
    ensures FirstOfPath(rules[..i + 1],
              if rules[i].path != "" && rules[i].path !in byPath then byPath[rules[i].path := rules[i]] else byPath)
  {
    var p, less, more := rules[i].path, rules[..i], rules[..i + 1];
    assert more == less + [rules[i]];
    var next := if p != "" && p !in byPath then byPath[p := rules[i]] else byPath;
    forall q | q in next ensures q != "" && exists k: nat :: FirstWith(more, q, k) && more[k] == next[q] {
      if q in byPath {
        var k: nat :| FirstWith(less, q, k) && less[k] == byPath[q];
        assert FirstWith(more, q, k);
      } else {
        assert FirstWith(more, q, i);
      }
    }
  }

  // ------------------------------------------------------------------
  // The scan of the list by length
  // ------------------------------------------------------------------

  function FirstMatch<T>(rules: seq<Rule<T>>, request: string): (i: int)
    ensures -1 <= i < |rules|
    ensures i >= 0 ==> Matches(rules[i], request)
    ensures forall j :: 0 <= j < (if i >= 0 then i else |rules|) ==> !Matches(rules[j], request)
  {
    if rules == [] then -1
    else
      var front := FirstMatch(rules[..|rules| - 1], request);
      if front >= 0 then front
      else if Matches(rules[|rules| - 1], request) then |rules| - 1
      else -1
  }

  predicate Falling<T>(rules: seq<Rule<T>>) {
    forall i, j :: 0 <= i < j < |rules| ==> |rules[i].path| >= |rules[j].path|
  }

  /** The rule at an index, or none. */
  function RuleAt<T>(rules: seq<Rule<T>>, i: int): Option<Rule<T>>
    requires -1 <= i < |rules|
  {
    if i >= 0 then Some(rules[i]) else None
  }

  function First<T>(rules: seq<Rule<T>>, request: string): Option<Rule<T>> {
    RuleAt(rules, FirstMatch(rules, request))
  }

  lemma {:induction false} InsertKeepsFalling<T>(sorted: seq<Rule<T>>, x: Rule<T>)
    requires Falling(sorted)
    ensures Falling(InsertByLength(sorted, x))
    ensures forall m: nat :: NoneShorter(sorted, m) && |x.path| >= m ==> NoneShorter(InsertByLength(sorted, x), m)
  {
    if sorted != [] && |sorted[|sorted| - 1].path| < |x.path| {
      var front, last := sorted[..|sorted| - 1], sorted[|sorted| - 1];
      InsertKeepsFalling(front, x);
      assert NoneShorter(front, |last.path|);
      assert NoneShorter(InsertByLength(front, x), |last.path|);
      forall m: nat | NoneShorter(sorted, m) && |x.path| >= m ensures NoneShorter(InsertByLength(sorted, x), m) {
        assert NoneShorter(front, m);
      }
    }
  }

  predicate NoneShorter<T>(rules: seq<Rule<T>>, m: nat) {
    forall i :: 0 <= i < |rules| ==> |rules[i].path| >= m
  }

  /** Inserting a rule changes the first match only if the rule matches and is longer. */
  lemma {:induction false} FirstAfterInsert<T>(sorted: seq<Rule<T>>, x: Rule<T>, request: string)
    requires Falling(sorted)
    ensures First(InsertByLength(sorted, x), request) ==
            var first := First(sorted, request);
            if Matches(x, request) && (first == None || |x.path| > |first.value.path|) then Some(x) else first
  {
    hide Matches;
    if sorted == [] || |sorted[|sorted| - 1].path| >= |x.path| {
      FirstOfAppend(sorted, x, request);
      var i := FirstMatch(sorted, request);
      if i >= 0 {
        assert |sorted[i].path| >= |sorted[|sorted| - 1].path|;
      }
    } else {
      var front, last := sorted[..|sorted| - 1], sorted[|sorted| - 1];
      FirstAfterInsert(front, x, request);
      assert front + [last] == sorted;
      FirstOfAppend(front, last, request);
      FirstOfAppend(InsertByLength(front, x), last, request);
      var i := FirstMatch(front, request);
    }
  }

  lemma FirstOfAppend<T>(rules: seq<Rule<T>>, x: Rule<T>, request: string)
    ensures First(rules + [x], request) ==
            if First(rules, request).Some? then First(rules, request)
            else if Matches(x, request) then Some(x) else None
  {
    hide Matches;
    assert (rules + [x])[..|rules|] == rules;
  }

  lemma {:induction false} ByLengthFalls<T>(rules: seq<Rule<T>>)
    ensures Falling(ByLength(rules)) && |ByLength(rules)| == |rules|
  {
    hide InsertByLength;
    if rules != [] {
      ByLengthFalls(rules[..|rules| - 1]);
      InsertKeepsFalling(ByLength(rules[..|rules| - 1]), rules[|rules| - 1]);
      InsertSize(ByLength(rules[..|rules| - 1]), rules[|rules| - 1]);
    }
  }

  lemma {:induction false} InsertSize<T>(sorted: seq<Rule<T>>, x: Rule<T>)
    ensures |InsertByLength(sorted, x)| == |sorted| + 1
  {
    if sorted != [] {
      InsertSize(sorted[..|sorted| - 1], x);
    }
  }

  lemma BestStep<T>(rules: seq<Rule<T>>, request: string, front: Option<Rule<T>>, answer: Option<Rule<T>>)
    requires rules != []
    requires IsAnswer(rules[..|rules| - 1], request, front, if front == None then 0 else |front.value.path|)
    requires var x := rules[|rules| - 1];
             answer == if Matches(x, request) && (front == None || |x.path| > |front.value.path|) then Some(x)
                       else front
    ensures IsAnswer(rules, request, answer, if answer == None then 0 else |answer.value.path|)
  {
    hide Matches;
    var n, less := |rules| - 1, rules[..|rules| - 1];
    assert forall j :: 0 <= j < n ==> rules[j] == less[j];
    if answer != None {
      if answer != front {
        assert IsBest(rules, request, n);
      } else {
        var i: nat :| IsBest(less, request, i) && less[i] == front.value;
        assert IsBest(rules, request, i);
      }
    }
  }

  /** The first match of the list sorted by length is the first configured longest match. */
  lemma {:induction false} FirstIsBest<T>(rules: seq<Rule<T>>, request: string)
    ensures var first := First(ByLength(rules), request);
            IsAnswer(rules, request, first, if first == None then 0 else |first.value.path|)
  {
    hide Matches, InsertByLength, First, IsAnswer;
    if rules == [] {
      NoRules<T>(request);
    } else {
      var front := rules[..|rules| - 1];
      FirstIsBest(front, request);
      ByLengthFalls(front);
      FirstAfterInsert(ByLength(front), rules[|rules| - 1], request);
      BestStep(rules, request, First(ByLength(front), request), First(ByLength(rules), request));
    }
  }

  lemma NoRules<T>(request: string)
    ensures First(ByLength<T>([]), request) == None
    ensures IsAnswer<T>([], request, None, 0)
  {
  }

  // ------------------------------------------------------------------
  // The lookup
  // ------------------------------------------------------------------

  /** longestPathRuleMatch: the walk over the request's prefixes when there are few of them per
      rule, else the scan of the list by length. */
  method LongestPathRuleMatch<T(==)>(request: string, s: Snapshot<T>) returns (answer: Option<Rule<T>>, length: int)
    requires Built(s)
    ensures IsAnswer(s.rules, request, answer, length)
  {
    hide IsAnswer, FirstOfPath, ByLength, Matches;
    var rulesByLength := s.rulesByLength;
    ByLengthFalls(s.rules);
    if |rulesByLength| == 0 {
      rulesByLength := s.rules;
      assert s.rules == s.rulesByLength;
    }
    if |s.rulesByPath| > 0 && |request| <= |rulesByLength| * 4 {
      answer, length := WalkPrefixes(request, s);
      return;
    }
    FirstIsBest(s.rules, request);
    for i := 0 to |rulesByLength|
      invariant forall j :: 0 <= j < i ==> !Matches(rulesByLength[j], request)
    {
      var rule := rulesByLength[i];
      if Fits(rule, request) {
        FirstAt(rulesByLength, request, i);
        return Some(rule), |rule.path|;
      }
    }
    FirstNone(rulesByLength, request);
    return None, 0;
  }

  predicate Fits<T>(rule: Rule<T>, request: string)
    ensures Fits(rule, request) <==> Matches(rule, request)
  {
    rule.path != "" && HasPrefix(request, rule.path)
  }

  lemma FirstAt<T>(rules: seq<Rule<T>>, request: string, i: nat)
    requires i < |rules| && Matches(rules[i], request) && forall j :: 0 <= j < i ==> !Matches(rules[j], request)
    ensures First(rules, request) == Some(rules[i])
  {
    hide Matches;
    var k := FirstMatch(rules, request);
    assert k == i;
  }

  lemma FirstNone<T>(rules: seq<Rule<T>>, request: string)
    requires forall j :: 0 <= j < |rules| ==> !Matches(rules[j], request)
    ensures First(rules, request) == None
  {
    hide Matches;
  }

  method WalkPrefixes<T(==)>(request: string, s: Snapshot<T>) returns (answer: Option<Rule<T>>, length: int)
    requires FirstOfPath(s.rules, s.rulesByPath)
    ensures IsAnswer(s.rules, request, answer, length)
  {
    hide IsAnswer, FirstOfPath;
    var end := |request|;
    while end > 0
      invariant 0 <= end <= |request|
      invariant forall k :: end < k <= |request| ==> request[..k] !in s.rulesByPath
    {
      if request[..end] in s.rulesByPath {
        WalkHit(request, s, end);
        return Some(s.rulesByPath[request[..end]]), |s.rulesByPath[request[..end]].path|;
      }
      end := end - 1;
    }
    WalkMiss(request, s);
    return None, 0;
  }

  lemma WalkHit<T>(request: string, s: Snapshot<T>, end: nat)
    requires FirstOfPath(s.rules, s.rulesByPath) && 0 < end <= |request| && request[..end] in s.rulesByPath
    requires forall k :: end < k <= |request| ==> request[..k] !in s.rulesByPath
    ensures var rule := s.rulesByPath[request[..end]];
            IsAnswer(s.rules, request, Some(rule), |rule.path|)
  {
    var p := request[..end];
    var i: nat :| FirstWith(s.rules, p, i) && s.rules[i] == s.rulesByPath[p];
    forall j | 0 <= j < |s.rules| && Matches(s.rules[j], request)
      ensures |s.rules[j].path| <= |p| && (j < i ==> |s.rules[j].path| < |p|)
    {
      assert s.rules[j].path == request[..|s.rules[j].path|];
    }
    assert IsBest(s.rules, request, i);
  }

  lemma WalkMiss<T>(request: string, s: Snapshot<T>)
    requires FirstOfPath(s.rules, s.rulesByPath)
    requires forall k :: 0 < k <= |request| ==> request[..k] !in s.rulesByPath
    ensures IsAnswer(s.rules, request, None, 0)
  {
    forall j | 0 <= j < |s.rules| ensures !Matches(s.rules[j], request) {
      var path := s.rules[j].path;
      if path != "" && |path| <= |request| {
        assert path in s.rulesByPath && request[..|path|] !in s.rulesByPath;
      }
    }
  }

  /** Both branches, and any two snapshots of the same rules, give the same rule. */
  lemma AnswerUnique<T>(rules: seq<Rule<T>>, request: string, a: Option<Rule<T>>, m: int, b: Option<Rule<T>>, n: int)
    requires IsAnswer(rules, request, a, m) && IsAnswer(rules, request, b, n)
    ensures a == b && m == n
  {
    hide Matches;
    if a.Some? && b.Some? {
      var i: nat :| IsBest(rules, request, i) && rules[i] == a.value;
      var j: nat :| IsBest(rules, request, j) && rules[j] == b.value;
      assert i == j;
    }
  }

  // ------------------------------------------------------------------
  // Host locations
  // ------------------------------------------------------------------

  datatype Kind = Exact | Prefix

  datatype Location<T> = Location(kind: Kind, path: string, action: T)

  function KindText(kind: Kind): string {
    if kind == Exact then "exact" else "prefix"
  }

  /** hostLocationMapKey */
  function Key<T>(l: Location<T>): string {
    KindText(l.kind) + "\U{0}" + l.path
  }

  lemma KeyInjective<T>(a: Location<T>, b: Location<T>)
    requires Key(a) == Key(b)
    ensures a.kind == b.kind && a.path == b.path
  {
    assert Key(a)[0] == KindText(a.kind)[0] && Key(b)[0] == KindText(b.kind)[0];
    var n := |KindText(a.kind)| + 1;
    assert Key(a)[n..] == a.path && Key(b)[n..] == b.path;
  }

  ghost predicate NoDuplicates<T>(locations: seq<Location<T>>) {
    forall i, j :: 0 <= i < j < |locations| ==>
      !(locations[i].kind == locations[j].kind && locations[i].path == locations[j].path)
  }

  /** The duplicate check of normalizeHostLocations. */
  method CheckDuplicates<T>(locations: seq<Location<T>>) returns (ok: bool)
    ensures ok <==> NoDuplicates(locations)
  {
    hide Key;
    var seen: set<string> := {};
    for i := 0 to |locations|
      invariant forall k :: 0 <= k < i ==> Key(locations[k]) in seen
      invariant forall key :: key in seen ==> exists k :: 0 <= k < i && Key(locations[k]) == key
      invariant forall k, j :: 0 <= k < j < i ==> Key(locations[k]) != Key(locations[j])
    {
      if Key(locations[i]) in seen {
        var k :| 0 <= k < i && Key(locations[k]) == Key(locations[i]);
        KeyInjective(locations[k], locations[i]);
        return false;
      }
      seen := seen + {Key(locations[i])};
    }
    forall k, j | 0 <= k < j < |locations|
      ensures !(locations[k].kind == locations[j].kind && locations[k].path == locations[j].path)
    {
      SameKey(locations[k], locations[j]);
    }
    return true;
  }

  lemma SameKey<T>(a: Location<T>, b: Location<T>)
    ensures a.kind == b.kind && a.path == b.path ==> Key(a) == Key(b)
  {
  }

  /** hostLocationPrefixMatches: at a path segment boundary. */
  predicate PrefixMatches(request: string, path: string) {
    path != "" &&
    (request == path
     || if path[|path| - 1] == '/' then HasPrefix(request, path) else HasPrefix(request, path + "/"))
  }

  predicate ExactHit<T>(l: Location<T>, request: string) {
    l.path != "" && l.kind == Exact && request == l.path
  }

  predicate PrefixHit<T>(l: Location<T>, request: string) {
    l.path != "" && l.kind == Prefix && PrefixMatches(request, l.path)
  }

  /** What a lookup means: an exact location first, else a longest prefix location; the first
      of the list among equals. */
  ghost predicate IsLocation<T>(locations: seq<Location<T>>, request: string, answer: Option<Location<T>>) {
    if exists i :: 0 <= i < |locations| && ExactHit(locations[i], request) then
      answer.Some? && exists i: nat :: FirstExact(locations, request, i) && answer.value == locations[i]
    else if exists i :: 0 <= i < |locations| && PrefixHit(locations[i], request) then
      answer.Some? && exists i: nat :: LongestPrefix(locations, request, i, |locations|) && answer.value == locations[i]
    else answer == None
  }

  predicate FirstExact<T>(locations: seq<Location<T>>, request: string, i: nat) {
    i < |locations| && ExactHit(locations[i], request)
    && forall j :: 0 <= j < i ==> !ExactHit(locations[j], request)
  }

  /** Among the first `n`. */
  predicate LongestPrefix<T>(locations: seq<Location<T>>, request: string, i: nat, n: nat) {
    && i < n <= |locations| && PrefixHit(locations[i], request)
    && (forall j :: 0 <= j < n && PrefixHit(locations[j], request) ==> |locations[j].path| <= |locations[i].path|)
    && (forall j :: 0 <= j < i && PrefixHit(locations[j], request) ==> |locations[j].path| < |locations[i].path|)
  }

  /** matchHostLocation */
  method MatchHostLocation<T>(request: string, locations: seq<Location<T>>) returns (answer: Option<Location<T>>)
    ensures IsLocation(locations, request, answer)
  {
    hide PrefixMatches;
    var longest := -1;
    ghost var at := 0;
    answer := None;
    for i := 0 to |locations|
      invariant forall j :: 0 <= j < i ==> !ExactHit(locations[j], request)
      invariant answer == None ==> longest == -1 && forall j :: 0 <= j < i ==> !PrefixHit(locations[j], request)
      invariant answer.Some? ==>
                  LongestPrefix(locations, request, at, i) && answer.value == locations[at]
                  && longest == |locations[at].path|
    {
      var location := locations[i];
      if location.path != "" {
        match location.kind {
          case Exact =>
            if request == location.path {
              assert FirstExact(locations, request, i);
              return Some(location);
            }
          case Prefix =>
            if PrefixMatches(request, location.path) && |location.path| > longest {
              answer, longest, at := Some(location), |location.path|, i;
            }
        }
      }
    }
  }

  lemma PrefixHitIsPrefix<T>(l: Location<T>, request: string)
    requires PrefixHit(l, request)
    ensures |l.path| <= |request| && l.path == request[..|l.path|]
  {
    if request != l.path && l.path[|l.path| - 1] != '/' {
      assert (l.path + "/")[..|l.path|] == l.path;
    }
  }

  /** The path is the request or a prefix of it that ends where a path segment does. */
  predicate AtBoundary(request: string, path: string) {
    && 0 < |path| <= |request| && request[..|path|] == path
    && (|path| == |request| || path[|path| - 1] == '/' || request[|path|] == '/')
  }

  lemma BoundaryExactly(request: string, path: string)
    ensures PrefixMatches(request, path) <==> AtBoundary(request, path)
  {
    if path != "" && |path| < |request| && request[..|path|] == path && request[|path|] == '/' {
      assert request[..|path| + 1] == path + "/";
    }
    if HasPrefix(request, path + "/") {
      assert request[..|path|] == (path + "/")[..|path|];
      assert request[|path|] == (path + "/")[|path|];
    }
  }

  /** Main result: the answer is a location whose path is the request, or a prefix of it at a segment
      boundary; an exact one whenever there is one, and otherwise none is longer. */
  lemma MatchedAtBoundary<T>(locations: seq<Location<T>>, request: string, answer: Option<Location<T>>)
    requires IsLocation(locations, request, answer)
    ensures answer.Some? ==>
              var l := answer.value;
              l in locations && l.path != "" &&
              if l.kind == Exact then request == l.path else AtBoundary(request, l.path)
    ensures forall l :: l in locations && l.kind == Exact && l.path != "" && request == l.path ==>
              answer.Some? && answer.value.kind == Exact
    ensures forall l :: l in locations && l.kind == Prefix && AtBoundary(request, l.path) ==>
              answer.Some? && (answer.value.kind == Exact || |l.path| <= |answer.value.path|)
  {
    hide PrefixMatches, AtBoundary;
    forall path: string ensures PrefixMatches(request, path) <==> AtBoundary(request, path) {
      BoundaryExactly(request, path);
    }
    forall l | l in locations && (ExactHit(l, request) || PrefixHit(l, request))
      ensures answer.Some?
      ensures ExactHit(l, request) ==> answer.value.kind == Exact
      ensures PrefixHit(l, request) ==> answer.value.kind == Exact || |l.path| <= |answer.value.path|
    {
      var k :| 0 <= k < |locations| && locations[k] == l;
    }
    forall l | l in locations && l.kind == Prefix && AtBoundary(request, l.path)
      ensures answer.Some? && (answer.value.kind == Exact || |l.path| <= |answer.value.path|)
    {
      BoundaryNotEmpty(request, l.path);
      assert PrefixHit(l, request);
    }
  }

  lemma BoundaryNotEmpty(request: string, path: string)
    requires AtBoundary(request, path)
    ensures path != ""
  {
  }

  ghost predicate SameElements<T>(a: seq<Location<T>>, b: seq<Location<T>>) {
    (forall l :: l in a ==> l in b) && (forall l :: l in b ==> l in a)
  }

  /** Main result: on locations that passed the duplicate check the answer does not depend on
      their order. */
  lemma OrderIndependent<T>(a: seq<Location<T>>, b: seq<Location<T>>, request: string, x: Option<Location<T>>,
                            y: Option<Location<T>>)
    requires NoDuplicates(a) && NoDuplicates(b) && SameElements(a, b)
    requires IsLocation(a, request, x) && IsLocation(b, request, y)
    ensures x == y
  {
    hide PrefixHit, ExactHit, NoDuplicates;
    SameHits(a, b, request);
    SameHits(b, a, request);
    if exists i :: 0 <= i < |a| && ExactHit(a[i], request) {
      var i: nat :| FirstExact(a, request, i) && x.value == a[i];
      var j: nat :| FirstExact(b, request, j) && y.value == b[j];
      assert b[j] in b;
      SameExact(a, x.value, y.value, request);
    } else if exists i :: 0 <= i < |a| && PrefixHit(a[i], request) {
      var i: nat :| LongestPrefix(a, request, i, |a|) && x.value == a[i];
      var j: nat :| LongestPrefix(b, request, j, |b|) && y.value == b[j];
      assert a[i] in a && b[j] in b;
      assert |b[j].path| <= |a[i].path| by {
        var k :| 0 <= k < |a| && a[k] == b[j];
      }
      assert |a[i].path| <= |b[j].path| by {
        var k :| 0 <= k < |b| && b[k] == a[i];
      }
      SamePrefix(a, x.value, y.value, request);
    }
  }

  lemma SameExact<T>(locations: seq<Location<T>>, x: Location<T>, y: Location<T>, request: string)
    requires NoDuplicates(locations) && x in locations && y in locations
    requires ExactHit(x, request) && ExactHit(y, request)
    ensures x == y
  {
    SameLocation(locations, x, y);
  }

  lemma SamePrefix<T>(locations: seq<Location<T>>, x: Location<T>, y: Location<T>, request: string)
    requires NoDuplicates(locations) && x in locations && y in locations
    requires PrefixHit(x, request) && PrefixHit(y, request) && |x.path| == |y.path|
    ensures x == y
  {
    hide PrefixMatches, NoDuplicates;
    PrefixHitIsPrefix(x, request);
    PrefixHitIsPrefix(y, request);
    SameLocation(locations, x, y);
  }

  lemma SameHits<T>(a: seq<Location<T>>, b: seq<Location<T>>, request: string)
    requires SameElements(a, b)
    ensures (exists i :: 0 <= i < |a| && ExactHit(a[i], request)) ==>
              exists i :: 0 <= i < |b| && ExactHit(b[i], request)
    ensures (exists i :: 0 <= i < |a| && PrefixHit(a[i], request)) ==>
              exists i :: 0 <= i < |b| && PrefixHit(b[i], request)
  {
    hide ExactHit, PrefixHit;
    if i :| 0 <= i < |a| && ExactHit(a[i], request) {
      assert a[i] in b;
    }
    if i :| 0 <= i < |a| && PrefixHit(a[i], request) {
      assert a[i] in b;
    }
  }

  lemma SameLocation<T>(locations: seq<Location<T>>, x: Location<T>, y: Location<T>)
    requires NoDuplicates(locations) && x in locations && y in locations
    requires x.kind == y.kind && x.path == y.path
    ensures x == y
  {
    var i :| 0 <= i < |locations| && locations[i] == x;
    var j :| 0 <= j < |locations| && locations[j] == y;
    assert i == j;
  }
}
