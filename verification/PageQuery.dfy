/** Page queries over the gateway log (pkg/gatewaylog/manager.go): the one-pass
    form that keeps the last page*limit matching lines in a ring buffer, and the
    two-pass form that counts first and collects afterwards.

    The one-pass form counts lines by a test that does not decode them; the two-pass
    form counts entries. Both are functions of the lines of the file, compared with
    each other and with a page of the reversed matches. */
module PageQuery {
  import opened Bytes
  import opened Decimal
  import opened LogFilter
  import B = BackwardScan
  import C = CursorPaging

  const PAGE_QUERY_TAIL_WINDOW_MAX_ENTRIES := 10000

  // ------------------------------------------------------------------
  // Lines and matches, oldest first
  // ------------------------------------------------------------------

  function DropCR(line: string): string {
    if line != "" && line[|line| - 1] == '\r' then line[..|line| - 1] else line
  }

  /** The tokens of a bufio.Scanner with its default split function. */
  function ScannerLines(text: string): seq<string>
    decreases |text|
  {
    if text == "" then []
    else
      var i := FirstIndex(text, '\n');
      if i == -1 then [DropCR(text)] else [DropCR(text[..i])] + ScannerLines(text[i + 1..])
  }

  /** The entries of the matching lines. */
  function Matches<E>(f: Filter<E>, lines: seq<string>): seq<E> {
    if lines == [] then []
    else
      var rest := Matches(f, lines[..|lines| - 1]);
      match Accept(f, lines[|lines| - 1])
      case None => rest
      case Some(e) => rest + [e]
  }

  /** What one line adds to the matches. */
  function Head<E>(f: Filter<E>, line: string): seq<E> {
    match Accept(f, line) case None => [] case Some(e) => [e]
  }

  /** The line test of the one-pass scan: it decodes only when the filter needs it. */
  predicate PassesFast<E>(f: Filter<E>, line: string) {
    PassesRaw(f, line) && if f.needsDecoded then Accept(f, line).Some? else f.valid(line)
  }

  function FastLines<E>(f: Filter<E>, lines: seq<string>): seq<string> {
    if lines == [] then []
    else
      var line, rest := lines[|lines| - 1], FastLines(f, lines[..|lines| - 1]);
      if PassesFast(f, line) then rest + [line] else rest
  }

  // ------------------------------------------------------------------
  // The ring buffer
  // ------------------------------------------------------------------

  /** The last `n` elements of `s`. */
  function Last<T>(s: seq<T>, n: nat): seq<T> {
    if |s| <= n then s else s[|s| - n..]
  }

  /** Decode every line; None if one of them does not decode. */
  function DecodeAll<E>(f: Filter<E>, lines: seq<string>): Option<seq<E>> {
    if lines == [] then Some([])
    else match (DecodeAll(f, lines[..|lines| - 1]), f.decode(lines[|lines| - 1]))
      case (Some(es), Some(e)) => Some(es + [e])
      case _ => None
  }

  lemma {:induction false} DecodeAllPrefix<E>(f: Filter<E>, lines: seq<string>, k: nat)
    requires k <= |lines| && DecodeAll(f, lines[..k]) == None
    ensures DecodeAll(f, lines) == None
    decreases |lines|
  {
    if k < |lines| {
      assert lines[..|lines| - 1][..k] == lines[..k];
      DecodeAllPrefix(f, lines[..|lines| - 1], k);
    } else {
      assert lines[..k] == lines;
    }
  }

  lemma {:induction false} DecodeAllStep<E>(f: Filter<E>, lines: seq<string>, k: nat)
    requires k < |lines|
    ensures DecodeAll(f, lines[..k + 1]) ==
      match (DecodeAll(f, lines[..k]), f.decode(lines[k]))
        case (Some(es), Some(e)) => Some(es + [e])
        case _ => None
  {
    assert lines[..k + 1][..k] == lines[..k];
  }

  /** The slot of the i-th oldest line of a ring of `n` cells. */
  function Slot(n: nat, start: nat, i: nat): nat {
    if start + i < n then start + i else start + i - n
  }

  /** Go computes slots with the remainder operator. */
  lemma {:induction false} SlotIsRemainder(n: nat, start: nat, i: nat)
    requires start < n && i <= n
    ensures (start + i) % n == Slot(n, start, i) < n
  {
    if start + i >= n {
      assert start + i == 1 * n + (start + i - n);
    }
  }

  ghost function RingWindow(cells: seq<string>, start: nat, count: nat): (w: seq<string>)
    requires count <= |cells| && (count > 0 ==> start < |cells|)
    ensures |w| == count
  {
    seq(count, i requires 0 <= i < count => cells[Slot(|cells|, start, i)])
  }

  lemma {:induction false} RingAt(cells: seq<string>, start: nat, count: nat, i: nat)
    requires i < count <= |cells| && start < |cells|
    ensures RingWindow(cells, start, count)[i] == cells[Slot(|cells|, start, i)]
  {
  }

  /** Writing behind the window extends it; when it is full the oldest cell is
      overwritten and the window slides by one. */
  lemma {:induction false} RingAdd(cells: seq<string>, start: nat, count: nat, line: string)
    requires count <= |cells| && start < |cells|
    ensures var n, was := |cells|, RingWindow(cells, start, count);
            Last(was + [line], n) ==
              if count == n then RingWindow(cells[start := line], Slot(n, start, 1), n)
              else RingWindow(cells[Slot(n, start, count) := line], start, count + 1)
  {
    var n, was := |cells|, RingWindow(cells, start, count);
    if count == n {
      var w := RingWindow(cells[start := line], Slot(n, start, 1), n);
      assert forall i :: 0 <= i < n - 1 ==> Slot(n, Slot(n, start, 1), i) == Slot(n, start, i + 1) != start;
      assert Slot(n, Slot(n, start, 1), n - 1) == start;
      assert Last(was + [line], n) == was[1..] + [line];
      assert w == was[1..] + [line];
    } else {
      var w := RingWindow(cells[Slot(n, start, count) := line], start, count + 1);
      assert forall i :: 0 <= i < count ==> Slot(n, start, i) != Slot(n, start, count);
      assert w == was + [line];
    }
  }

  /** rawLineTailWindow */
  class RawLineTailWindow {
    var lines: array<string>
    var start: nat
    var count: nat

    ghost predicate Valid()
      reads this
    {
      count <= lines.Length && if lines.Length == 0 then start == 0 else start < lines.Length
    }

    /** The lines kept, oldest first. */
    ghost function Window(): (w: seq<string>)
      reads this, lines
      requires Valid()
      ensures |w| == count
    {
      RingWindow(lines[..], start, count)
    }

    constructor (capacity: int)
      ensures Valid() && fresh(lines) && Window() == []
      ensures lines.Length == if capacity <= 0 then 0 else capacity
    {
      lines := new string[if capacity <= 0 then 0 else capacity](_ => "");
      start, count := 0, 0;
    }

    /** Keeps the last `lines.Length` lines added. */
    method Add(line: string)
      requires Valid()
      modifies this`start, this`count, lines
      ensures Valid() && lines == old(lines)
      ensures Window() == Last(old(Window()) + [line], lines.Length)
    {
      hide RingWindow, Last;
      if lines.Length == 0 {
        NothingKept(old(Window()) + [line]);
        EmptyRing(lines[..], start);
        return;
      }
      SlotIsRemainder(lines.Length, start, count);
      SlotIsRemainder(lines.Length, start, 1);
      RingAdd(lines[..], start, count, line);
      var index := (start + count) % lines.Length;
      if count == lines.Length {
        index := start;
        start := (start + 1) % lines.Length;
      } else {
        count := count + 1;
      }
      lines[index] := line;
      assert lines[..] == old(lines[..])[index := line];
    }

    /** Decodes lines `from` to `to` of the window, newest first. */
    method DecodeEntriesDescending<E>(f: Filter<E>, from: int, to: int) returns (r: Option<seq<E>>)
      requires Valid()
      ensures lines.Length == 0 || from < 0 || to < from || to > count ==> r == Some([])
      ensures !(lines.Length == 0 || from < 0 || to < from || to > count) ==>
                r == match DecodeAll(f, Window()[from..to]) case None => None case Some(es) => Some(Reverse(es))
    {
      hide DecodeAll, Reverse, RingWindow;
      if lines.Length == 0 || from < 0 || to < from || to > count {
        return Some([]);
      }
      ghost var part := Window()[from..to];
      var items: seq<E> := [];
      assert part[..0] == [];
      DecodeNone(f);
      for i := from to to
        invariant DecodeAll(f, part[..i - from]).Some? && items == Reverse(DecodeAll(f, part[..i - from]).value)
      {
        SlotIsRemainder(lines.Length, start, i);
        RingAt(lines[..], start, count, i);
        DecodeAllStep(f, part, i - from);
        var entry := f.decode(lines[(start + i) % lines.Length]);
        if entry == None {
          DecodeAllPrefix(f, part, i - from + 1);
          return None;
        }
        ReverseSnoc(DecodeAll(f, part[..i - from]).value, entry.value);
        items := [entry.value] + items;
      }
      assert part[..to - from] == part;
      r := Some(items);
    }
  }

  lemma {:induction false} DecodeNone<E>(f: Filter<E>)
    ensures DecodeAll(f, []) == Some([]) && Reverse<E>([]) == []
  {
  }

  lemma {:induction false} ReverseSnoc<T>(s: seq<T>, x: T)
    ensures Reverse(s + [x]) == [x] + Reverse(s)
  {
  }

  lemma {:induction false} NothingKept<T>(s: seq<T>)
    ensures Last(s, 0) == []
  {
  }

  lemma {:induction false} EmptyRing(cells: seq<string>, start: nat)
    requires cells == []
    ensures RingWindow(cells, start, 0) == []
  {
  }

  // ------------------------------------------------------------------
  // Windows
  // ------------------------------------------------------------------

  /** resolveForwardWindow, with Go's integer width. */
  function ResolveForwardWindow(total: int, page: int, limit: int): (int, int) {
    var startDesc := Wrap(Wrap(page - 1) * limit);
    if startDesc >= total then (total, total)
    else
      var end := Wrap(startDesc + limit);
      var endDesc := if end > total then total else end;
      (Wrap(total - endDesc), Wrap(total - startDesc))
  }

  datatype Answer<E> = Answer(items: seq<E>, total: int, hasMore: bool)

  /** The elements with index i, lo <= i < hi. */
  function Between<T>(s: seq<T>, lo: int, hi: int): seq<T> {
    var from := if lo < 0 then 0 else if lo > |s| then |s| else lo;
    var to := if hi > |s| then |s| else hi;
    if to <= from then [] else s[from..to]
  }

  /** What the two-pass form answers for the matching entries `ms`. */
  function TwoPassAnswer<E>(ms: seq<E>, page: int, limit: int): Answer<E> {
    var (start, end) := ResolveForwardWindow(|ms|, page, limit);
    if start == end then Answer([], |ms|, false)
    else Answer(Reverse(Between(ms, start, end)), |ms|, start > 0)
  }

  /** What the one-pass form answers for the lines that pass its test; `otherwise`
      is the two-pass answer it falls back to. */
  function RawTailAnswer<E>(f: Filter<E>, fast: seq<string>, page: int, limit: int, otherwise: Answer<E>): Answer<E> {
    var (start, end) := ResolveForwardWindow(|fast|, page, limit);
    if start == end then Answer([], |fast|, false)
    else match DecodeAll(f, Between(fast, start, end))
      case None => otherwise
      case Some(es) => Answer(Reverse(es), |fast|, start > 0)
  }

  /** Page `page` of a newest-first listing. */
  function PageOfListing<E>(newest: seq<E>, page: int, limit: int): Answer<E>
    requires page >= 1 && limit >= 1
  {
    var lo := if (page - 1) * limit < |newest| then (page - 1) * limit else |newest|;
    var hi := if lo + limit < |newest| then lo + limit else |newest|;
    Answer(newest[lo..hi], |newest|, hi < |newest|)
  }

  /** Inside the int range the window arithmetic does not wrap. */
  lemma {:induction false} WindowInRange(total: nat, page: int, limit: int)
    requires page >= 1 && limit >= 1 && page * limit <= MAX_INT64 && total <= MAX_INT64
    ensures var startDesc := (page - 1) * limit;
            && 0 <= startDesc <= page * limit - limit
            && ResolveForwardWindow(total, page, limit) ==
                 if startDesc >= total then (total, total)
                 else (if page * limit > total then 0 else total - page * limit, total - startDesc)
  {
    var startDesc := (page - 1) * limit;
    assert startDesc == page * limit - limit && startDesc >= 0;
    assert page <= page * limit;
    WrapInRange(page - 1);
    WrapInRange(startDesc);
    WrapInRange(startDesc + limit);
    if startDesc < total {
      var endDesc := if startDesc + limit > total then total else startDesc + limit;
      WrapInRange(total - endDesc);
      WrapInRange(total - startDesc);
    }
  }

  /** In range, the two-pass form returns page `page` of the matches, newest first. */
  lemma {:induction false} TwoPassIsPage<E>(ms: seq<E>, page: int, limit: int)
    requires page >= 1 && limit >= 1 && page * limit <= MAX_INT64 && |ms| <= MAX_INT64
    ensures TwoPassAnswer(ms, page, limit) == PageOfListing(Reverse(ms), page, limit)
  {
    hide ResolveForwardWindow;
    WindowInRange(|ms|, page, limit);
    var startDesc := (page - 1) * limit;
    if startDesc < |ms| {
      var (start, end) := ResolveForwardWindow(|ms|, page, limit);
      ReverseSlice(ms, start, end);
    } else {
      assert Reverse(ms)[|ms|..|ms|] == [];
    }
  }

  lemma {:induction false} ReverseSlice<T>(s: seq<T>, lo: nat, hi: nat)
    requires lo <= hi <= |s|
    ensures Reverse(s[lo..hi]) == Reverse(s)[|s| - hi..|s| - lo]
  {
  }

  // ------------------------------------------------------------------
  // Pages beyond the int range
  // ------------------------------------------------------------------

  /** How many entries lie in front of a page, as the code computes it. */
  function StartOf(page: int, limit: int): int {
    Wrap((page - 1) * limit)
  }

  /** A total with which the window of the page is right: the start fits an int, or its wrapped
      value is beyond the listing anyway. A negative start shows no entry of an empty listing,
      unless the end is negative too; then the rest of the arithmetic must wrap as well. */
  predicate PageFits(total: nat, page: int, limit: int) {
    var start := StartOf(page, limit);
    || (page - 1) * limit <= MAX_INT64
    || start >= total
    || (start + limit >= 0 && total == 0)
    || (start + limit < 0 && total - start - limit > MAX_INT64)
  }

  predicate InIntRange(page: int, limit: int) {
    1 <= page <= MAX_INT64 && 1 <= limit <= MAX_INT64
  }

  /** A wrapped sum of two numbers with at most one carry. */
  function Carry(x: int): int {
    if x > MAX_INT64 then x - WORD else x
  }

  lemma WrapBounds(x: int)
    ensures -MAX_INT64 - 1 <= Wrap(x) <= MAX_INT64
    ensures -MAX_INT64 - 1 <= x <= MAX_INT64 + WORD ==> Wrap(x) == Carry(x)
  {
    if MAX_INT64 < x <= MAX_INT64 + WORD {
      WrapShift(x - WORD, 1);
      WrapInRange(x - WORD);
    } else if -MAX_INT64 - 1 <= x <= MAX_INT64 {
      WrapInRange(x);
    }
  }

  /** The window, with every carry written out. */
  lemma WindowCarries(total: nat, page: int, limit: int)
    requires InIntRange(page, limit) && total <= MAX_INT64
    ensures var start := StartOf(page, limit);
            && -MAX_INT64 - 1 <= start <= MAX_INT64
            && ResolveForwardWindow(total, page, limit) ==
                 if start >= total then (total, total)
                 else
                   var end := if Carry(start + limit) > total then total else Carry(start + limit);
                   (Carry(total - end), Carry(total - start))
  {
    hide Wrap;
    WrapInRange(page - 1);
    var start := StartOf(page, limit);
    WrapBounds((page - 1) * limit);
    if start < total {
      WrapBounds(start + limit);
      var end := if Carry(start + limit) > total then total else Carry(start + limit);
      WrapBounds(total - end);
      WrapBounds(total - start);
    }
  }

  /** The start is not negative when it fits. */
  lemma StartFits(page: int, limit: int)
    requires InIntRange(page, limit)
    ensures (page - 1) * limit >= 0
    ensures (page - 1) * limit <= MAX_INT64 ==> StartOf(page, limit) == (page - 1) * limit
  {
    hide Wrap;
    assert (page - 1) * limit >= 0;
    if (page - 1) * limit <= MAX_INT64 {
      WrapInRange((page - 1) * limit);
    }
  }

  /** The start fits: the page is right even where its end does not fit. */
  lemma {:induction false} FittingPage<E>(ms: seq<E>, page: int, limit: int)
    requires InIntRange(page, limit) && |ms| <= MAX_INT64 && (page - 1) * limit <= MAX_INT64
    ensures TwoPassAnswer(ms, page, limit) == PageOfListing(Reverse(ms), page, limit)
  {
    hide ResolveForwardWindow, StartOf, Reverse, Between;
    StartFits(page, limit);
    WindowCarries(|ms|, page, limit);
    var start := (page - 1) * limit;
    if start < |ms| {
      var (from, to) := ResolveForwardWindow(|ms|, page, limit);
      SliceOfListing(ms, start, if start + limit < |ms| then start + limit else |ms|, from);
    } else {
      assert Reverse(ms)[|ms|..|ms|] == [];
    }
  }

  /** Entries counted from the newest one; a lower bound that is negative is no bound. */
  lemma SliceOfListing<E>(ms: seq<E>, start: nat, stop: nat, from: int)
    requires start <= stop <= |ms| && (from == |ms| - stop || (from < 0 && stop == |ms|))
    ensures Reverse(Between(ms, from, |ms| - start)) == Reverse(ms)[start..stop]
  {
    hide Reverse;
    ReverseSlice(ms, |ms| - stop, |ms| - start);
    if start == stop {
      assert Reverse(ms)[start..stop] == [] == ms[|ms| - stop..|ms| - start];
    }
  }

  /** The start does not fit: no entry is that far back. */
  lemma {:induction false} NoSuchPage<E>(ms: seq<E>, page: int, limit: int)
    requires InIntRange(page, limit) && |ms| <= MAX_INT64 && (page - 1) * limit > MAX_INT64
    ensures PageOfListing(Reverse(ms), page, limit) == Answer([], |ms|, false)
    ensures TwoPassAnswer(ms, page, limit) == Answer([], |ms|, false) <==> PageFits(|ms|, page, limit)
  {
    hide ResolveForwardWindow, StartOf, Reverse;
    WindowCarries(|ms|, page, limit);
    var (from, to) := ResolveForwardWindow(|ms|, page, limit);
    assert |Reverse(ms)| == |ms| by { ReverseLength(ms); }
    ReverseLength(Between(ms, from, to));
    assert |Between(ms, from, to)| == 0 <==> to <= 0 || from >= |ms| || to <= from;
  }

  lemma ReverseLength<T>(s: seq<T>)
    ensures |Reverse(s)| == |s|
  {
  }

  /** Main result: for any page and limit, and any listing, the two-pass form returns that page
      if and only if the page fits. */
  lemma TwoPassIsPageExactlyWhen<E>(ms: seq<E>, page: int, limit: int)
    requires InIntRange(page, limit) && |ms| <= MAX_INT64
    ensures TwoPassAnswer(ms, page, limit) == PageOfListing(Reverse(ms), page, limit)
            <==> PageFits(|ms|, page, limit)
  {
    hide StartOf, Reverse, TwoPassAnswer, PageOfListing;
    if (page - 1) * limit <= MAX_INT64 {
      FittingPage(ms, page, limit);
    } else {
      NoSuchPage(ms, page, limit);
    }
  }

  /** A page is right for all listings if and only if its start fits an int, or wraps to the
      greatest one. */
  lemma PageFitsEveryListing(page: int, limit: int)
    requires InIntRange(page, limit)
    ensures (forall total: nat :: total <= MAX_INT64 ==> PageFits(total, page, limit))
            <==> (page - 1) * limit <= MAX_INT64 || StartOf(page, limit) == MAX_INT64
  {
    hide Wrap;
    WrapBounds((page - 1) * limit);
    assert PageFits(0, page, limit) && PageFits(MAX_INT64, page, limit) ==>
        (page - 1) * limit <= MAX_INT64 || StartOf(page, limit) == MAX_INT64;
  }

  /** The room the second pass asks for never exceeds the limit, whatever wrapped. */
  lemma RoomWithinLimit(total: nat, page: int, limit: int)
    requires InIntRange(page, limit) && total <= MAX_INT64
    ensures var (start, end) := ResolveForwardWindow(total, page, limit);
            start != end ==> 1 <= Wrap(end - start) <= limit
  {
    hide ResolveForwardWindow, StartOf, Wrap;
    WindowCarries(total, page, limit);
    var (start, end) := ResolveForwardWindow(total, page, limit);
    WrapBounds(end - start);
    if start != end && end < start {
      WrapShift(end - start, 1);
      WrapBounds(end - start + WORD);
    }
  }

  /** A page that does not fit: with four to a page, page 2^62 + 1 shows page 1, though no listing
      is that long. */
  lemma {:induction false} PageWraps<E>(ms: seq<E>)
    requires 1 <= |ms| <= MAX_INT64
    ensures var page := 0x4000_0000_0000_0001;
            && !PageFits(|ms|, page, 4)
            && TwoPassAnswer(ms, page, 4) == PageOfListing(Reverse(ms), 1, 4)
            && TwoPassAnswer(ms, page, 4) != PageOfListing(Reverse(ms), page, 4)
  {
    hide Reverse, Between, ResolveForwardWindow;
    WindowWraps(|ms|);
    TwoPassIsPage(ms, 1, 4);
    TwoPassIsPageExactlyWhen(ms, 0x4000_0000_0000_0001, 4);
  }

  lemma {:induction false} WindowWraps(total: nat)
    requires total >= 1
    ensures ResolveForwardWindow(total, 0x4000_0000_0000_0001, 4) == ResolveForwardWindow(total, 1, 4)
    ensures !PageFits(total, 0x4000_0000_0000_0001, 4)
  {
    assert Wrap(0x4000_0000_0000_0000) * 4 == WORD;
    assert Wrap(WORD) == 0 == Wrap(Wrap(0) * 4);
  }

  // ------------------------------------------------------------------
  // The two forms agree
  // ------------------------------------------------------------------

  /** Every line that passes the one-pass test also decodes and matches. */
  ghost predicate AllMatch<E>(f: Filter<E>, lines: seq<string>) {
    forall k :: 0 <= k < |lines| && PassesFast(f, lines[k]) ==> Accept(f, lines[k]).Some?
  }

  ghost predicate DecodeImpliesValid<E>(f: Filter<E>, lines: seq<string>) {
    forall k :: 0 <= k < |lines| && f.decode(lines[k]).Some? ==> f.valid(lines[k])
  }

  lemma {:induction false} Snoc<E>(f: Filter<E>, init: seq<string>, last: string)
    ensures var lines := init + [last];
            && (AllMatch(f, lines) <==> AllMatch(f, init) && (PassesFast(f, last) ==> Accept(f, last).Some?))
            && (DecodeImpliesValid(f, lines) <==>
                DecodeImpliesValid(f, init) && (f.decode(last).Some? ==> f.valid(last)))
            && FastLines(f, lines) == (if PassesFast(f, last) then FastLines(f, init) + [last] else FastLines(f, init))
  {
    hide PassesFast, Accept;
    var lines := init + [last];
    assert lines[..|init|] == init;
    assert forall k :: 0 <= k < |init| ==> init[k] == lines[k];
    if AllMatch(f, lines) {
      assert lines[|init|] == last;
    }
    if DecodeImpliesValid(f, lines) {
      assert lines[|init|] == last;
    }
  }

  lemma AcceptIsFast<E>(f: Filter<E>, line: string)
    requires f.decode(line).Some? ==> f.valid(line)
    requires Accept(f, line).Some?
    ensures PassesFast(f, line) && f.decode(line) == Accept(f, line)
  {
  }

  lemma NoLines<E>(f: Filter<E>)
    ensures Matches(f, []) == [] && FastLines(f, []) == [] && AllMatch(f, []) && DecodeAll(f, []) == Some([])
  {
  }

  lemma {:induction false} MatchesAreFast<E>(f: Filter<E>, lines: seq<string>)
    requires DecodeImpliesValid(f, lines)
    ensures |Matches(f, lines)| <= |FastLines(f, lines)|
    ensures AllMatch(f, lines) <==> |Matches(f, lines)| == |FastLines(f, lines)|
    ensures AllMatch(f, lines) ==> DecodeAll(f, FastLines(f, lines)) == Some(Matches(f, lines))
    decreases |lines|
  {
    hide PassesFast, Accept, FastLines, Matches, AllMatch, DecodeImpliesValid, DecodeAll;
    if lines == [] {
      NoLines(f);
    } else {
      var n := |lines| - 1;
      var init, last := lines[..n], lines[n];
      assert lines == init + [last];
      Snoc(f, init, last);
      MatchesStep(f, lines, n);
      assert lines[..n + 1] == lines;
      MatchesAreFast(f, init);
      if Accept(f, last).Some? {
        AcceptIsFast(f, last);
      }
      if PassesFast(f, last) {
        var fast := FastLines(f, init);
        assert (fast + [last])[..|fast|] == fast && (fast + [last])[..|fast| + 1] == fast + [last];
        DecodeAllStep(f, fast + [last], |fast|);
      }
    }
  }

  ghost predicate Decodes<E>(f: Filter<E>, lines: seq<string>, es: seq<E>) {
    |es| == |lines| && forall k :: 0 <= k < |lines| ==> f.decode(lines[k]) == Some(es[k])
  }

  lemma {:induction false} DecodesEach<E>(f: Filter<E>, lines: seq<string>, es: seq<E>)
    ensures DecodeAll(f, lines) == Some(es) <==> Decodes(f, lines, es)
    decreases |lines|
  {
    if lines != [] {
      var n := |lines| - 1;
      if DecodeAll(f, lines[..n]).Some? {
        DecodesEach(f, lines[..n], DecodeAll(f, lines[..n]).value);
      }
      if Decodes(f, lines, es) {
        DecodesEach(f, lines[..n], es[..n]);
        assert es == es[..n] + [es[n]];
      }
    }
  }

  /** Decoding part of the lines is part of the decoding. */
  lemma {:induction false} DecodeSlice<E>(f: Filter<E>, lines: seq<string>, es: seq<E>, lo: nat, hi: nat)
    requires lo <= hi <= |lines| && DecodeAll(f, lines) == Some(es)
    ensures |es| == |lines| && DecodeAll(f, lines[lo..hi]) == Some(es[lo..hi])
  {
    hide DecodeAll;
    DecodesEach(f, lines, es);
    DecodesEach(f, lines[lo..hi], es[lo..hi]);
  }

  /** The one-pass answer is the two-pass answer exactly when every line that
      passes its test also matches, or a line shown on the page does not decode,
      so that it falls back. */
  lemma {:induction false} OnePassAgrees<E>(f: Filter<E>, lines: seq<string>, page: int, limit: int)
    requires page >= 1 && limit >= 1 && page * limit <= MAX_INT64 && |lines| <= MAX_INT64
    requires DecodeImpliesValid(f, lines)
    ensures var fast, slow := FastLines(f, lines), TwoPassAnswer(Matches(f, lines), page, limit);
            var (start, end) := ResolveForwardWindow(|fast|, page, limit);
            RawTailAnswer(f, fast, page, limit, slow) == slow
            <==> AllMatch(f, lines) || (start != end && DecodeAll(f, Between(fast, start, end)) == None)
  {
    hide ResolveForwardWindow, AllMatch, FastLines, Matches;
    var fast, ms := FastLines(f, lines), Matches(f, lines);
    MatchesAreFast(f, lines);
    FastIsShorter(f, lines);
    WindowInRange(|fast|, page, limit);
    var (start, end) := ResolveForwardWindow(|fast|, page, limit);
    if |ms| == |fast| {
      DecodeSlice(f, fast, ms, start, end);
      assert Between(fast, start, end) == fast[start..end];
      assert Between(ms, start, end) == ms[start..end];
    }
  }

  /** An input that misses the condition: an older line that is valid JSON and does not decode is
      counted by the one-pass form alone. It is not on the page, so nothing falls back. */
  lemma OnePassDiffers<E>(f: Filter<E>, good: string, bad: string)
    requires DecodeImpliesValid(f, [bad, good])
    requires Accept(f, good).Some? && PassesFast(f, good)
    requires f.decode(bad) == None && PassesFast(f, bad)
    ensures var lines := [bad, good];
            var slow := TwoPassAnswer(Matches(f, lines), 1, 1);
            && slow == Answer([Accept(f, good).value], 1, false)
            && RawTailAnswer(f, FastLines(f, lines), 1, 1, slow) == Answer([Accept(f, good).value], 2, true)
  {
    hide PassesFast, Accept, DecodeAll, DecodeImpliesValid;
    var lines, e := [bad, good], Accept(f, good).value;
    TwoLines(f, bad, good);
    DecodeAllStep(f, [good], 0);
    NoLines(f);
    assert [good][..0] == [] && [good][..1] == [good] && [] + [e] == [e];
    AcceptDecodes(f, good);
    WindowOfOne(1);
    WindowOfOne(2);
    assert Between([e], 0, 1) == [e] && Between(lines, 1, 2) == [good];
    ReverseSingle(e);
  }

  lemma WindowOfOne(total: nat)
    requires 1 <= total <= 2
    ensures ResolveForwardWindow(total, 1, 1) == (total - 1, total)
  {
    WindowInRange(total, 1, 1);
  }

  lemma ReverseSingle<E>(e: E)
    ensures Reverse([e]) == [e]
  {
  }

  lemma AcceptDecodes<E>(f: Filter<E>, line: string)
    ensures Accept(f, line).Some? ==> f.decode(line) == Accept(f, line)
    ensures f.decode(line) == None ==> Accept(f, line) == None
  {
  }

  lemma TwoLines<E>(f: Filter<E>, bad: string, good: string)
    requires Accept(f, good).Some? && PassesFast(f, good) && f.decode(bad) == None && PassesFast(f, bad)
    ensures Matches(f, [bad, good]) == [Accept(f, good).value] && FastLines(f, [bad, good]) == [bad, good]
  {
    hide PassesFast, Accept;
    AcceptDecodes(f, bad);
    assert [bad, good][..1] == [bad] && [bad][..0] == [];
    NoLines(f);
  }

  lemma {:induction false} FastIsShorter<E>(f: Filter<E>, lines: seq<string>)
    ensures |FastLines(f, lines)| <= |lines|
    decreases |lines|
  {
    if lines != [] {
      FastIsShorter(f, lines[..|lines| - 1]);
    }
  }

  /** The window never starts before the oldest line in the ring. */
  lemma {:induction false} WindowInRing(fast: seq<string>, page: int, limit: int)
    requires page >= 1 && limit >= 1 && page * limit <= MAX_INT64 && |fast| <= MAX_INT64
    ensures var (start, end) := ResolveForwardWindow(|fast|, page, limit);
            var ring := Last(fast, page * limit);
            var tailStart := |fast| - |ring|;
            start != end ==>
              && start == tailStart < end <= |fast|
              && ring[start - tailStart..end - tailStart] == Between(fast, start, end)
  {
    hide ResolveForwardWindow;
    WindowInRange(|fast|, page, limit);
  }

  // ------------------------------------------------------------------
  // The queries
  // ------------------------------------------------------------------

  /** scanMatchingRawLinesToTail: counts the lines that pass, and keeps the last ones. */
  method ScanMatchingRawLinesToTail<E>(f: Filter<E>, lines: seq<string>, tail: RawLineTailWindow) returns (total: nat)
    requires tail.Valid() && tail.Window() == []
    modifies tail`start, tail`count, tail.lines
    ensures tail.Valid() && tail.lines == old(tail.lines)
    ensures total == |FastLines(f, lines)|
    ensures tail.Window() == Last(FastLines(f, lines), tail.lines.Length)
  {
    hide RingWindow, Last;
    total := 0;
    LastAdd([], "", tail.lines.Length);
    for i := 0 to |lines|
      invariant tail.Valid() && tail.lines == old(tail.lines)
      invariant total == |FastLines(f, lines[..i])|
      invariant tail.Window() == Last(FastLines(f, lines[..i]), tail.lines.Length)
    {
      var line := lines[i];
      assert lines[..i + 1][..i] == lines[..i];
      if PassesFast(f, line) {
        LastAdd(FastLines(f, lines[..i]), line, tail.lines.Length);
        tail.Add(line);
        total := total + 1;
      }
    }
    assert lines[..|lines|] == lines;
  }

  lemma {:induction false} LastAdd<T>(s: seq<T>, x: T, n: nat)
    ensures Last(Last(s, n) + [x], n) == Last(s + [x], n)
    ensures s == [] ==> Last(s, n) == []
  {
  }

  /** scanMatchingEntries with a callback that keeps the matches numbered from
      `start` to `end`, and stops after them. */
  method CollectMatchingEntries<E>(f: Filter<E>, lines: seq<string>, start: int, end: int) returns (items: seq<E>)
    ensures items == Between(Matches(f, lines), start, end)
  {
    hide Matches, Between;
    items := [];
    var total := 0;
    BetweenEmpty<E>(start, end);
    MatchesNil(f);
    assert lines[..0] == [];
    for i := 0 to |lines|
      invariant total == |Matches(f, lines[..i])|
      invariant items == Between(Matches(f, lines[..i]), start, end)
    {
      MatchesStep(f, lines, i);
      var entry := Accept(f, lines[i]);
      if entry.Some? {
        BetweenSnoc(Matches(f, lines[..i]), entry.value, start, end);
        if total < start {
        } else if total >= end {
          MatchesGrow(f, lines, i);
          BetweenGrow(Matches(f, lines[..i]), Matches(f, lines), start, end);
          return;
        } else {
          items := items + [entry.value];
        }
        total := total + 1;
      }
    }
    assert lines[..|lines|] == lines;
  }

  lemma {:induction false} MatchesStep<E>(f: Filter<E>, lines: seq<string>, i: nat)
    requires i < |lines|
    ensures Matches(f, lines[..i + 1]) == Matches(f, lines[..i]) + Head(f, lines[i])
    ensures Accept(f, lines[i]) == None ==> Matches(f, lines[..i + 1]) == Matches(f, lines[..i])
  {
    assert lines[..i + 1][..i] == lines[..i];
  }

  lemma {:induction false} MatchesGrow<E>(f: Filter<E>, lines: seq<string>, i: nat)
    requires i <= |lines|
    ensures Matches(f, lines[..i]) <= Matches(f, lines)
    decreases |lines| - i
  {
    hide Matches;
    if i < |lines| {
      MatchesStep(f, lines, i);
      MatchesGrow(f, lines, i + 1);
    } else {
      assert lines[..i] == lines;
    }
  }

  lemma {:induction false} BetweenEmpty<T>(lo: int, hi: int)
    ensures Between<T>([], lo, hi) == []
  {
  }

  lemma {:induction false} BetweenSnoc<T>(s: seq<T>, x: T, lo: int, hi: int)
    ensures Between(s + [x], lo, hi) == if lo <= |s| < hi then Between(s, lo, hi) + [x] else Between(s, lo, hi)
  {
    var more, from := s + [x], if lo < 0 then 0 else lo;
    if lo <= |s| < hi {
      assert Between(more, lo, hi) == more[from..|s| + 1] == s[from..|s|] + [x];
      assert Between(s, lo, hi) == s[from..|s|];
    } else if hi <= from || |s| < lo {
      assert Between(more, lo, hi) == [] == Between(s, lo, hi);
    } else {
      assert Between(more, lo, hi) == more[from..hi] == s[from..hi] == Between(s, lo, hi);
    }
  }

  lemma {:induction false} BetweenGrow<T>(s: seq<T>, t: seq<T>, lo: int, hi: int)
    requires s <= t && hi <= |s|
    ensures Between(t, lo, hi) == Between(s, lo, hi)
  {
  }

  /** The counting pass. */
  method CountMatchingEntries<E>(f: Filter<E>, lines: seq<string>) returns (total: nat)
    ensures total == |Matches(f, lines)|
  {
    total := 0;
    for i := 0 to |lines|
      invariant total == |Matches(f, lines[..i])|
    {
      MatchesStep(f, lines, i);
      if Accept(f, lines[i]).Some? {
        total := total + 1;
      }
    }
    assert lines[..|lines|] == lines;
  }

  /** queryEntriesStreamingTwoPass */
  method QueryTwoPass<E>(f: Filter<E>, lines: seq<string>, page: int, limit: int) returns (r: Answer<E>)
    ensures r == TwoPassAnswer(Matches(f, lines), page, limit)
  {
    var total := CountMatchingEntries(f, lines);
    var (start, end) := ResolveForwardWindow(total, page, limit);
    if start == end {
      return Answer([], total, false);
    }
    var items := CollectMatchingEntries(f, lines, start, end);
    r := Answer(Reverse(items), total, start > 0);
  }

  /** queryEntriesStreamingRawTail */
  method QueryRawTail<E>(f: Filter<E>, lines: seq<string>, page: int, limit: int) returns (r: Answer<E>)
    requires page >= 1 && limit >= 1 && page * limit <= MAX_INT64 && |lines| <= MAX_INT64
    ensures r == RawTailAnswer(f, FastLines(f, lines), page, limit, TwoPassAnswer(Matches(f, lines), page, limit))
  {
    hide ResolveForwardWindow, FastLines, Matches, DecodeAll, TwoPassAnswer, Last, Between, RingWindow, Reverse;
    var windowSize := page * limit;
    assert windowSize >= 1;
    var tail := new RawLineTailWindow(windowSize);
    var total := ScanMatchingRawLinesToTail(f, lines, tail);
    var (start, end) := ResolveForwardWindow(total, page, limit);
    if start == end {
      return Answer([], total, false);
    }
    FastIsShorter(f, lines);
    WindowInRing(FastLines(f, lines), page, limit);
    var tailStart := total - tail.count;
    if start < tailStart {
      r := QueryTwoPass(f, lines, page, limit);
      return;
    }
    var items := tail.DecodeEntriesDescending(f, start - tailStart, end - tailStart);
    if items == None {
      r := QueryTwoPass(f, lines, page, limit);
      return;
    }
    r := Answer(items.value, total, start > 0);
  }

  /** queryEntriesStreaming: page and limit are normalised, big windows go to the
      two-pass form. When every line that passes the raw test matches, the answer
      is the page of the matches, newest first, whichever form produced it. */
  method QueryEntries<E>(f: Filter<E>, lines: seq<string>, page: int, limit: int) returns (r: Answer<E>)
    requires page <= MAX_INT64 && limit <= MAX_INT64 && |lines| <= MAX_INT64 && DecodeImpliesValid(f, lines)
    ensures var p, l := if page <= 0 then 1 else page, if limit <= 0 then 20 else limit;
            && (AllMatch(f, lines) ==>
                  (r == PageOfListing(Reverse(Matches(f, lines)), p, l) <==> PageFits(|Matches(f, lines)|, p, l)))
            && var slow := TwoPassAnswer(Matches(f, lines), p, l);
               r == if p * l > 10000 then slow
                    else RawTailAnswer(f, FastLines(f, lines), p, l, slow)
    ensures f.needsDecoded || AllMatch(f, lines) ==> ListsAnswer(f, lines, r)
  {
    hide FastLines, Matches, AllMatch, RawTailAnswer, TwoPassAnswer, PageOfListing, DecodeImpliesValid, PageFits;
    hide ListsAnswer;
    var p := if page <= 0 then 1 else page;
    var l := if limit <= 0 then 20 else limit;
    GuardIsRange(p, l);
    MatchesAreFast(f, lines);
    FastIsShorter(f, lines);
    TwoPassIsPageExactlyWhen(Matches(f, lines), p, l);
    TwoPassLists(f, lines, p, l);
    DecodedMatch(f, lines);
    if p * l <= MAX_INT64 {
      BothFormsArePage(f, lines, p, l);
    }
    if p > MAX_INT64 / l || p * l > PAGE_QUERY_TAIL_WINDOW_MAX_ENTRIES {
      r := QueryTwoPass(f, lines, p, l);
      return;
    }
    r := QueryRawTail(f, lines, p, l);
  }

  // ------------------------------------------------------------------
  // What is listed and counted
  // ------------------------------------------------------------------

  /** Every item comes from a line that the filter lists, and the total counts these lines. */
  ghost predicate ListsAnswer<E>(f: Filter<E>, lines: seq<string>, r: Answer<E>) {
    && (forall e :: e in r.items ==> exists i :: 0 <= i < |lines| && Lists(f, lines[i], e))
    && r.total == |set i: nat | i < |lines| && IsListed(f, lines[i])|
  }

  /** The matches are the entries of the listed lines, each once and in the order of the lines. */
  lemma {:induction false} MatchesExactly<E>(f: Filter<E>, lines: seq<string>) returns (at: seq<nat>)
    ensures |at| == |Matches(f, lines)|
    ensures forall k :: 0 <= k < |at| ==> at[k] < |lines| && Lists(f, lines[at[k]], Matches(f, lines)[k])
    ensures forall j, k :: 0 <= j < k < |at| ==> at[j] < at[k]
    ensures forall i :: 0 <= i < |lines| && IsListed(f, lines[i]) ==> i in at
    decreases |lines|
  {
    hide Accept, Lists, Matches;
    if lines == [] {
      MatchesNil(f);
      at := [];
    } else {
      var n := |lines| - 1;
      var front := lines[..n];
      at := MatchesExactly(f, front);
      MatchesStep(f, lines, n);
      assert lines[..n + 1] == lines;
      LastListed(f, lines[n]);
      if Accept(f, lines[n]).Some? {
        var was := at;
        at := at + [n];
        assert forall i :: i in at <==> i in was || i == n;
      }
    }
  }

  lemma LastListed<E>(f: Filter<E>, line: string)
    ensures Accept(f, line).Some? ==> Lists(f, line, Accept(f, line).value)
    ensures IsListed(f, line) ==> Accept(f, line).Some?
  {
    hide Accept, Lists;
    if Accept(f, line).Some? {
      AcceptsExactly(f, line, Accept(f, line).value);
    }
    if IsListed(f, line) {
      AcceptsExactly(f, line, f.decode(line).value);
    }
  }

  /** As many matches as listed lines. */
  lemma MatchesCount<E>(f: Filter<E>, lines: seq<string>)
    ensures |Matches(f, lines)| == |set i: nat | i < |lines| && IsListed(f, lines[i])|
  {
    hide Matches, Lists;
    var at := MatchesExactly(f, lines);
    var listed := set i: nat | i < |lines| && IsListed(f, lines[i]);
    forall i ensures i in at <==> i in listed {
      if i in at {
        var k :| 0 <= k < |at| && at[k] == i;
        ListedDecodes(f, lines[i], Matches(f, lines)[k]);
      }
    }
    SizeOfAscending(at, listed);
  }

  lemma ListedDecodes<E>(f: Filter<E>, line: string, e: E)
    requires Lists(f, line, e)
    ensures IsListed(f, line)
  {
  }

  lemma {:induction false} SizeOfAscending(at: seq<nat>, members: set<nat>)
    requires forall j, k :: 0 <= j < k < |at| ==> at[j] < at[k]
    requires forall i :: i in at <==> i in members
    ensures |at| == |members|
    decreases |at|
  {
    if at == [] {
      assert members == {};
    } else {
      var n := |at| - 1;
      var front, last := at[..n], at[n];
      assert at == front + [last] && last !in front;
      SizeOfAscending(front, members - {last});
    }
  }

  lemma TwoPassLists<E>(f: Filter<E>, lines: seq<string>, page: int, limit: int)
    ensures ListsAnswer(f, lines, TwoPassAnswer(Matches(f, lines), page, limit))
  {
    hide Matches, Lists, ResolveForwardWindow, Reverse, Between, IsListed;
    var ms := Matches(f, lines);
    MatchesCount(f, lines);
    var at := MatchesExactly(f, lines);
    var (start, end) := ResolveForwardWindow(|ms|, page, limit);
    BetweenMembers(ms, start, end);
    forall e | e in TwoPassAnswer(ms, page, limit).items
      ensures exists i :: 0 <= i < |lines| && Lists(f, lines[i], e)
    {
      assert e in Reverse(Between(ms, start, end));
      var k :| 0 <= k < |ms| && ms[k] == e;
      assert Lists(f, lines[at[k]], e);
    }
  }

  lemma BetweenMembers<T>(s: seq<T>, lo: int, hi: int)
    ensures forall x :: x in Reverse(Between(s, lo, hi)) ==> x in s
  {
    hide Reverse;
    var part := Between(s, lo, hi);
    forall x | x in Reverse(part) ensures x in s {
      var k :| 0 <= k < |part| && Reverse(part)[k] == x;
      assert part[|part| - 1 - k] == x && x in part;
    }
  }

  /** A scan that decodes every line takes only lines that are listed. */
  lemma DecodedMatch<E>(f: Filter<E>, lines: seq<string>)
    ensures f.needsDecoded ==> AllMatch(f, lines)
  {
    hide Accept;
  }

  /** When the one-pass test takes only listed lines, in the filter's own terms. */
  lemma AllMatchExactlyWhen<E>(f: Filter<E>, lines: seq<string>)
    ensures AllMatch(f, lines) <==>
            f.needsDecoded ||
            forall k :: 0 <= k < |lines| && LooksLikeEntryObject(lines[k])
                        && f.matchLine(lines[k]) && f.matchRawFields(lines[k]) && f.valid(lines[k]) ==>
              IsListed(f, lines[k])
  {
    hide LooksLikeEntryObject, Lists;
    forall k | 0 <= k < |lines| ensures Accept(f, lines[k]).Some? <==> IsListed(f, lines[k]) {
      LastListed(f, lines[k]);
      if Accept(f, lines[k]).Some? {
        ListedDecodes(f, lines[k], Accept(f, lines[k]).value);
      }
    }
  }

  /** The overflow guard of the source is exact. */
  lemma {:induction false} GuardIsRange(page: int, limit: int)
    requires page >= 1 && limit >= 1
    ensures page > MAX_INT64 / limit <==> page * limit > MAX_INT64
  {
    var q := MAX_INT64 / limit;
    if page > q {
      assert page * limit >= (q + 1) * limit;
    } else {
      assert page * limit <= q * limit;
    }
  }

  lemma {:induction false} BothFormsArePage<E>(f: Filter<E>, lines: seq<string>, page: int, limit: int)
    requires page >= 1 && limit >= 1 && page * limit <= MAX_INT64 && |lines| <= MAX_INT64
    requires DecodeImpliesValid(f, lines)
    ensures var slow := TwoPassAnswer(Matches(f, lines), page, limit);
            && slow == PageOfListing(Reverse(Matches(f, lines)), page, limit)
            && (AllMatch(f, lines) ==> RawTailAnswer(f, FastLines(f, lines), page, limit, slow) == slow)
  {
    hide FastLines, Matches, AllMatch, RawTailAnswer, TwoPassAnswer, PageOfListing, DecodeImpliesValid;
    MatchesAreFast(f, lines);
    FastIsShorter(f, lines);
    TwoPassIsPage(Matches(f, lines), page, limit);
    OnePassAgrees(f, lines, page, limit);
  }

  // ------------------------------------------------------------------
  // All the pages, and the two pagination modes
  // ------------------------------------------------------------------

  /** The items of pages 1 to n, one after the other. */
  function PagesUpTo<E>(newest: seq<E>, n: nat, limit: int): seq<E>
    requires limit >= 1
  {
    if n == 0 then [] else PagesUpTo(newest, n - 1, limit) + PageOfListing(newest, n, limit).items
  }

  /** Pages 1, 2, ... partition the listing, and `hasMore` marks all but the last. */
  lemma {:induction false} PagesPartition<E>(newest: seq<E>, n: nat, limit: int)
    requires limit >= 1
    ensures PagesUpTo(newest, n, limit) == newest[..if n * limit < |newest| then n * limit else |newest|]
    ensures n >= 1 ==> (PageOfListing(newest, n, limit).hasMore <==> n * limit < |newest|)
  {
    if n > 0 {
      PagesPartition(newest, n - 1, limit);
      assert n * limit == (n - 1) * limit + limit && (n - 1) * limit >= 0;
    }
  }

  /** A filter that does not look at trailing carriage returns. */
  ghost predicate IgnoresTrailingCR<E(!new)>(f: Filter<E>) {
    forall line: string :: Accept(f, line + "\r") == Accept(f, line)
  }

  lemma {:induction false} AcceptTrimmed<E(!new)>(f: Filter<E>, raw: string)
    requires IgnoresTrailingCR(f)
    ensures Accept(f, raw) == Accept(f, TrimRight(raw, B.CR))
    decreases |raw|
  {
    hide Accept;
    if raw != "" && raw[|raw| - 1] == '\r' {
      assert raw == raw[..|raw| - 1] + "\r";
      AcceptTrimmed(f, raw[..|raw| - 1]);
      TrimRightAppend(raw[..|raw| - 1], '\r', B.CR);
    } else {
      assert raw != "" ==> raw[|raw| - 1] !in B.CR;
      assert TrimRight(raw, B.CR) == raw;
    }
  }

  /** One raw line contributes the same entry to both modes. */
  lemma {:induction false} SameContribution<E(!new)>(f: Filter<E>, raw: string, start: nat)
    requires IgnoresTrailingCR(f)
    ensures C.Entries(C.Hits(f, B.Report(raw, start))) ==
            Head(f, DropCR(raw))
  {
    hide Accept, IgnoresTrailingCR;
    AcceptTrimmed(f, raw);
    AcceptTrimmed(f, DropCR(raw));
    AcceptEmpty(f);
    TrimDropped(raw);
    var text := TrimRight(raw, B.CR);
    if text != "" {
      assert B.Report(raw, start) == [B.Line(text, start)];
      assert C.Hits(f, [B.Line(text, start)][1..]) == [];
    }
  }

  lemma AcceptEmpty<E>(f: Filter<E>)
    ensures Accept(f, "") == None
  {
  }

  lemma {:induction false} TrimDropped(raw: string)
    ensures TrimRight(DropCR(raw), B.CR) == TrimRight(raw, B.CR)
  {
  }

  lemma {:induction false} MatchesCons<E>(f: Filter<E>, line: string, rest: seq<string>)
    ensures Matches(f, [line] + rest) == Head(f, line) + Matches(f, rest)
    decreases |rest|
  {
    if rest == [] {
      assert [line] + rest == [line];
      assert Matches(f, [line][..0]) == [];
    } else {
      var n := |rest| - 1;
      assert ([line] + rest)[..n + 1] == [line] + rest[..n];
      MatchesCons(f, line, rest[..n]);
    }
  }

  lemma {:induction false} ForwardEntries<E(!new)>(f: Filter<E>, text: string, base: nat)
    requires IgnoresTrailingCR(f)
    ensures C.Entries(C.Hits(f, B.LinesOf(text, base))) == Matches(f, ScannerLines(text))
    decreases |text|
  {
    hide Accept, IgnoresTrailingCR, Matches, C.Hits, C.Entries, B.Report, B.LinesOf;
    var i := FirstIndex(text, '\n');
    if i == -1 {
      B.LinesOfNone(text, base);
      SameContribution(f, text, base);
      AcceptEmpty(f);
      MatchesNil(f);
      if text != "" {
        MatchesCons(f, DropCR(text), []);
        assert [DropCR(text)] + [] == [DropCR(text)];
      }
    } else {
      var line, rest := text[..i], text[i + 1..];
      B.LinesOfUnfold(text, i, base);
      C.HitsConcat(f, B.Report(line, base), B.LinesOf(rest, base + i + 1));
      EntriesConcat(C.Hits(f, B.Report(line, base)), C.Hits(f, B.LinesOf(rest, base + i + 1)));
      SameContribution(f, line, base);
      ForwardEntries(f, rest, base + i + 1);
      MatchesCons(f, DropCR(line), ScannerLines(rest));
    }
  }

  lemma MatchesNil<E>(f: Filter<E>)
    ensures Matches(f, []) == []
  {
  }

  lemma {:induction false} EntriesConcat<E>(a: seq<C.Hit<E>>, b: seq<C.Hit<E>>)
    ensures C.Entries(a + b) == C.Entries(a) + C.Entries(b)
  {
  }

  lemma {:induction false} ReverseHits<E>(f: Filter<E>, lines: seq<B.Line>)
    ensures C.Entries(C.Hits(f, Reverse(lines))) == Reverse(C.Entries(C.Hits(f, lines)))
    decreases |lines|
  {
    hide Accept, Reverse, C.Hits, C.Entries;
    if lines == [] {
      NoEntries(f);
    } else {
      var x, rest := lines[0], lines[1..];
      ReverseHits(f, rest);
      assert lines == [x] + rest;
      ReverseConcat([x], rest);
      ReverseOne(x);
      C.HitsConcat(f, Reverse(rest), [x]);
      EntriesConcat(C.Hits(f, Reverse(rest)), C.Hits(f, [x]));
      C.HitsConcat(f, [x], rest);
      EntriesConcat(C.Hits(f, [x]), C.Hits(f, rest));
      ReverseConcat(C.Entries(C.Hits(f, [x])), C.Entries(C.Hits(f, rest)));
      OneEntry(f, x);
    }
  }

  lemma NoEntries<E>(f: Filter<E>)
    ensures C.Entries(C.Hits(f, [])) == [] && Reverse<E>([]) == [] && Reverse<B.Line>([]) == []
  {
  }

  lemma ReverseOne<T>(x: T)
    ensures Reverse([x]) == [x]
  {
  }

  lemma {:induction false} OneEntry<E>(f: Filter<E>, x: B.Line)
    ensures var es := C.Entries(C.Hits(f, [x])); Reverse(es) == es
  {
    assert C.Hits(f, [x][1..]) == [];
  }

  /** Cursor mode and page mode list the same entries in the same order, for a
      filter that does not look at trailing carriage returns. */
  lemma {:induction false} ModesAgree<E(!new)>(f: Filter<E>, text: string)
    requires IgnoresTrailingCR(f)
    ensures C.Entries(C.Newest(f, text)) == Reverse(Matches(f, ScannerLines(text)))
  {
    hide Matches, C.Hits, C.Entries, IgnoresTrailingCR, Reverse;
    ForwardEntries(f, text, 0);
    ReverseHits(f, B.LinesOf(text, 0));
  }
}
