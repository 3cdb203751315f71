/** Cursor pagination of the gateway log (pkg/gatewaylog/manager.go). */
module CursorPaging {
  // A cursor is the decimal offset of the oldest line already returned. One query is proved
  // against a page read off the list of all matches. A walk is a sequence of queries that
  // each start at the cursor the one before handed out, while lines are appended to the
  // file. What it delivers is compared with the matches of the file as it stood at the first
  // query; the lines appended later lie behind every cursor, so no query of the walk reads
  // them.

  import opened Bytes
  import opened BackwardScan
  import opened LogFilter
  import D = Decimal

  /** A matching entry and the offset of its line. */
  datatype Hit<E> = Hit(entry: E, start: nat)

  datatype CursorError = InvalidCursor | CursorOutOfRange

  datatype CursorResult<E> =
    | Failed(error: CursorError)
    | Page(items: seq<E>, nextCursor: string, hasMore: bool, cursor: string)

  // ------------------------------------------------------------------
  // What a query answers
  // ------------------------------------------------------------------

  function Hits<E>(f: Filter<E>, lines: seq<Line>): seq<Hit<E>> {
    if lines == [] then []
    else
      var rest := Hits(f, lines[1..]);
      match Accept(f, lines[0].text)
      case None => rest
      case Some(e) => [Hit(e, lines[0].start)] + rest
  }

  function Entries<E>(hits: seq<Hit<E>>): (es: seq<E>)
    ensures |es| == |hits|
    ensures forall k :: 0 <= k < |hits| ==> es[k] == hits[k].entry
  {
    if hits == [] then [] else [hits[0].entry] + Entries(hits[1..])
  }

  /** The matching lines of `text`, newest first. */
  ghost function Newest<E>(f: Filter<E>, text: string): seq<Hit<E>> {
    Hits(f, Reverse(LinesOf(text, 0)))
  }

  /** The page that ends right before offset |text|: the newest `limit` matches,
      a flag for older ones, and the offset at which to go on. */
  ghost function PageOf<E>(f: Filter<E>, text: string, limit: nat, cursor: string): CursorResult<E>
    requires limit >= 1
  {
    var hits := Newest(f, text);
    if |hits| <= limit then Page(Entries(hits), "", false, cursor)
    else Page(Entries(hits[..limit]), D.FormatInt(hits[limit - 1].start), true, cursor)
  }

  datatype Offset = BadOffset(error: CursorError) | OffsetAt(offset: nat, cursor: string)

  /** resolveCursorOffset */
  function ResolveCursorOffset(fileSize: nat, cursor: string): (r: Offset)
    ensures r.OffsetAt? ==> r.offset <= fileSize
  {
    var trimmed := D.TrimSpace(cursor);
    if trimmed == "" then OffsetAt(fileSize, "")
    else match D.ParseInt(trimmed)
      case None => BadOffset(InvalidCursor)
      case Some(n) => if n < 0 || n > fileSize then BadOffset(CursorOutOfRange) else OffsetAt(n, trimmed)
  }

  /** The answer to one cursor query; a missing file is an empty page. */
  ghost function Query<E>(f: Filter<E>, file: Option<string>, cursor: string, limit: nat): CursorResult<E>
    requires limit >= 1
  {
    match file
    case None => Page([], "", false, "")
    case Some(content) =>
      match ResolveCursorOffset(|content|, cursor)
      case BadOffset(e) => Failed(e)
      case OffsetAt(end, resolved) => PageOf(f, content[..end], limit, resolved)
  }

  // ------------------------------------------------------------------
  // The query
  // ------------------------------------------------------------------

  /** The variables the scan callback updates. */
  datatype Collected<E> = Collected(items: seq<E>, oldest: nat, more: bool)

  function OnLine<E>(f: Filter<E>, limit: nat, c: Collected<E>, line: string, start: nat): (Collected<E>, bool) {
    match Accept(f, line)
    case None => (c, true)
    case Some(e) =>
      if |c.items| == limit then (c.(more := true), false)
      else (Collected(c.items + [e], start, c.more), true)
  }

  function Visitor<E>(f: Filter<E>, limit: nat): (Collected<E>, string, nat) -> (Collected<E>, bool) {
    (c: Collected<E>, line: string, start: nat) => OnLine(f, limit, c, line, start)
  }

  /** The outcome of a scan that meets the matches `hits`. */
  ghost function Collect<E>(c: Collected<E>, hits: seq<Hit<E>>, limit: nat): Collected<E>
    requires |c.items| <= limit
  {
    var room := limit - |c.items|;
    if |hits| <= room then
      Collected(c.items + Entries(hits), if hits == [] then c.oldest else hits[|hits| - 1].start, c.more)
    else
      Collected(c.items + Entries(hits[..room]), if room == 0 then c.oldest else hits[room - 1].start, true)
  }

  lemma {:induction false} CollectCons<E>(c: Collected<E>, h: Hit<E>, rest: seq<Hit<E>>, limit: nat)
    requires |c.items| < limit
    ensures Collect(c, [h] + rest, limit) == Collect(Collected(c.items + [h.entry], h.start, c.more), rest, limit)
  {
    hide Entries;
    var room := limit - |c.items|;
    if 1 + |rest| <= room {
      EntriesCons(h, rest);
      assert c.items + ([h.entry] + Entries(rest)) == (c.items + [h.entry]) + Entries(rest);
    } else {
      assert ([h] + rest)[..room] == [h] + rest[..room - 1];
      EntriesCons(h, rest[..room - 1]);
      assert c.items + ([h.entry] + Entries(rest[..room - 1])) == (c.items + [h.entry]) + Entries(rest[..room - 1]);
    }
  }

  lemma {:induction false} EntriesCons<E>(h: Hit<E>, rest: seq<Hit<E>>)
    ensures Entries([h] + rest) == [h.entry] + Entries(rest)
  {
    assert ([h] + rest)[1..] == rest;
  }

  /** The scan collects matches while there is room and notices one more. */
  lemma {:induction false} VisitCollects<E>(f: Filter<E>, limit: nat, c: Collected<E>, lines: seq<Line>)
    requires |c.items| <= limit
    ensures Visit(Visitor(f, limit), c, lines) == Collect(c, Hits(f, lines), limit)
    decreases |lines|
  {
    if lines == [] {
      assert Collect(c, [], limit) == c;
    } else {
      var rest := Hits(f, lines[1..]);
      match Accept(f, lines[0].text) {
        case None =>
          VisitCollects(f, limit, c, lines[1..]);
        case Some(e) =>
          var h := Hit(e, lines[0].start);
          if |c.items| == limit {
            assert Entries(([h] + rest)[..0]) == [];
          } else {
            CollectCons(c, h, rest, limit);
            VisitCollects(f, limit, Collected(c.items + [e], lines[0].start, c.more), lines[1..]);
          }
      }
    }
  }

  /** queryEntriesByCursor, for the limits its caller allows (at least 1). */
  method QueryEntriesByCursor<E>(f: Filter<E>, file: Option<string>, cursor: string, limit: nat, chunkSize: nat)
    returns (r: CursorResult<E>)
    requires limit >= 1 && chunkSize >= 1
    ensures r == Query(f, file, cursor, limit)
    ensures file.Some? && r.Page? ==>
              ListsPage(f, file.value[..ResolveCursorOffset(|file.value|, cursor).offset], limit, r)
  {
    if file == None {
      return Page([], "", false, "");
    }
    var content := file.value;
    var resolved := ResolveCursorOffset(|content|, cursor);
    if resolved.BadOffset? {
      return Failed(resolved.error);
    }
    PageLists(f, content[..resolved.offset], limit, resolved.cursor);
    if resolved.offset == 0 {
      EmptyText(f);
      return Page([], "", false, resolved.cursor);
    }
    hide LinesOf, Reverse, Entries, Hits, Visit, Newest;
    var c := ScanLinesBackward(content, resolved.offset, chunkSize, Collected([], 0, false), Visitor(f, limit));
    ScanIsPage(f, content[..resolved.offset], limit, resolved.cursor);
    var nextCursor := "";
    if c.more && c.oldest > 0 {
      nextCursor := D.FormatInt(c.oldest);
    }
    r := Page(c.items, nextCursor, c.more, resolved.cursor);
  }

  /** A sign, if any, and digits: the text of a number. */
  ghost predicate NumberText(t: string, n: int) {
    || Denotes(t, n)
    || (t != "" && t[0] == '+' && Denotes(t[1..], n))
    || (t != "" && t[0] == '-' && Denotes(t[1..], -n))
  }

  predicate Denotes(digits: string, n: int) {
    digits != "" && D.AllDigits(digits) && D.Value(digits) == n
  }

  lemma NumberExactly(t: string, n: int)
    ensures D.ParseInt(t) == Some(n) <==>
            NumberText(t, n) && -0x8000_0000_0000_0000 <= n <= 0x7fff_ffff_ffff_ffff
  {
    hide D.Value;
    assert t != "" && D.AllDigits(t) ==> D.IsDigit(t[0]);
  }

  /** Which cursors are refused: one that is no 64-bit number, and one outside the file. */
  lemma CursorErrors<E>(f: Filter<E>, content: string, cursor: string, limit: nat)
    requires limit >= 1 && D.TrimSpace(cursor) != "" && |content| <= D.MAX_INT64
    ensures var t, r := D.TrimSpace(cursor), Query(f, Some(content), cursor, limit);
            && (r == Failed(InvalidCursor) <==>
                forall n :: -0x8000_0000_0000_0000 <= n <= 0x7fff_ffff_ffff_ffff ==> !NumberText(t, n))
            && (r == Failed(CursorOutOfRange) <==>
                exists n :: -0x8000_0000_0000_0000 <= n <= 0x7fff_ffff_ffff_ffff && NumberText(t, n)
                            && !(0 <= n <= |content|))
  {
    hide NumberText, D.ParseInt, D.TrimSpace, PageOf;
    var t := D.TrimSpace(cursor);
    forall n: int
      ensures D.ParseInt(t) == Some(n) <==> NumberText(t, n) && -0x8000_0000_0000_0000 <= n <= 0x7fff_ffff_ffff_ffff
    {
      NumberExactly(t, n);
    }
    assert D.ParseInt(t).Some? ==> NumberText(t, D.ParseInt(t).value);
    PageIsPage(f, content, limit, t);
  }

  lemma PageIsPage<E>(f: Filter<E>, content: string, limit: nat, cursor: string)
    requires limit >= 1
    ensures forall n :: 0 <= n <= |content| ==> PageOf(f, content[..n], limit, cursor).Page?
  {
  }

  /** The page shows lines that the filter lists, and each such line is on it or lies before the
      cursor it hands out. */
  ghost predicate ListsPage<E>(f: Filter<E>, text: string, limit: nat, p: CursorResult<E>)
    requires p.Page?
  {
    && (forall e :: e in p.items ==> exists line :: line in LinesOf(text, 0) && Lists(f, line.text, e))
    && (|text| <= D.MAX_INT64 ==>
          forall line :: line in LinesOf(text, 0) && IsListed(f, line.text) ==>
            f.decode(line.text).value in p.items || (p.hasMore && Precedes(line.start, p.nextCursor)))
    && |p.items| <= limit && (p.hasMore ==> |p.items| == limit)
  }

  predicate Precedes(start: nat, cursor: string) {
    D.ParseInt(cursor).Some? && start < D.ParseInt(cursor).value
  }

  lemma {:induction false} HitsListed<E>(f: Filter<E>, lines: seq<Line>)
    ensures forall h :: h in Hits(f, lines) <==>
              exists line :: line in lines && Lists(f, line.text, h.entry) && h.start == line.start
    decreases |lines|
  {
    hide Accept, Lists;
    if lines != [] {
      HitsListed(f, lines[1..]);
      var first := lines[0];
      assert lines == [first] + lines[1..];
      forall e: E ensures Accept(f, first.text) == Some(e) <==> Lists(f, first.text, e) {
        AcceptsExactly(f, first.text, e);
      }
      forall h ensures h in Hits(f, lines) <==>
                       h in Hits(f, lines[1..]) || (Lists(f, first.text, h.entry) && h.start == first.start)
      {
      }
    }
  }

  lemma ReverseMembers(lines: seq<Line>)
    ensures forall line :: line in Reverse(lines) <==> line in lines
  {
    hide Reverse;
    forall line ensures line in Reverse(lines) <==> line in lines {
      if line in lines {
        var k :| 0 <= k < |lines| && lines[k] == line;
        assert Reverse(lines)[|lines| - 1 - k] == line;
      }
    }
  }

  /** The matches from one on start before the ones in front of it. */
  lemma {:induction false} NewestFalls<E>(f: Filter<E>, text: string, i: nat, j: nat)
    requires i < j < |Newest(f, text)|
    ensures Newest(f, text)[j].start < Newest(f, text)[i].start
    decreases j
  {
    hide Newest;
    OlderMatches(f, text, j);
    if i < j - 1 {
      NewestFalls(f, text, i, j - 1);
    }
  }

  lemma {:induction false} PageLists<E>(f: Filter<E>, text: string, limit: nat, cursor: string)
    requires limit >= 1
    ensures ListsPage(f, text, limit, PageOf(f, text, limit, cursor))
  {
    hide Newest, Lists, LinesOf, Entries, Precedes;
    var hits, p := Newest(f, text), PageOf(f, text, limit, cursor);
    forall e | e in p.items
      ensures exists line :: line in LinesOf(text, 0) && Lists(f, line.text, e)
    {
      var k :| 0 <= k < |p.items| && p.items[k] == e;
      var line := LineOfHit(f, text, hits[k]);
    }
    if |text| <= D.MAX_INT64 {
      forall line | line in LinesOf(text, 0) && IsListed(f, line.text)
        ensures f.decode(line.text).value in p.items || (p.hasMore && Precedes(line.start, p.nextCursor))
      {
        var e := f.decode(line.text).value;
        HitOfLine(f, text, line);
        var k :| 0 <= k < |hits| && hits[k] == Hit(e, line.start);
        if k < limit {
          assert p.items[k] == e;
        } else {
          NewestFalls(f, text, limit - 1, k);
          OlderMatches(f, text, limit - 1);
          CursorIs(hits[limit - 1].start, line.start);
        }
      }
    }
  }

  lemma CursorIs(at: nat, start: nat)
    requires at <= D.MAX_INT64 && start < at
    ensures Precedes(start, D.FormatInt(at))
  {
    D.ParseFormat(at);
  }

  lemma LineOfHit<E>(f: Filter<E>, text: string, h: Hit<E>) returns (line: Line)
    requires h in Newest(f, text)
    ensures line in LinesOf(text, 0) && Lists(f, line.text, h.entry)
  {
    hide Lists, LinesOf, Reverse, Hits;
    HitsListed(f, Reverse(LinesOf(text, 0)));
    ReverseMembers(LinesOf(text, 0));
    line :| line in Reverse(LinesOf(text, 0)) && Lists(f, line.text, h.entry) && h.start == line.start;
  }

  lemma HitOfLine<E>(f: Filter<E>, text: string, line: Line)
    requires line in LinesOf(text, 0) && IsListed(f, line.text)
    ensures Hit(f.decode(line.text).value, line.start) in Newest(f, text)
  {
    hide Lists, LinesOf, Reverse, Hits;
    HitsListed(f, Reverse(LinesOf(text, 0)));
    ReverseMembers(LinesOf(text, 0));
    var h := Hit(f.decode(line.text).value, line.start);
    assert line in Reverse(LinesOf(text, 0)) && Lists(f, line.text, h.entry) && h.start == line.start;
  }

  /** What the scan leaves in the callback's variables is the page. */
  lemma {:induction false} ScanIsPage<E>(f: Filter<E>, text: string, limit: nat, cursor: string)
    requires limit >= 1
    ensures var c := Visit(Visitor(f, limit), Collected([], 0, false), Reverse(LinesOf(text, 0)));
            PageOf(f, text, limit, cursor)
            == Page(c.items, if c.more && c.oldest > 0 then D.FormatInt(c.oldest) else "", c.more, cursor)
  {
    hide LinesOf, Reverse, Entries, Hits, Visit;
    var start: Collected<E> := Collected([], 0, false);
    VisitCollects(f, limit, start, Reverse(LinesOf(text, 0)));
    CollectPage(f, text, limit, cursor);
  }

  lemma {:induction false} CollectPage<E>(f: Filter<E>, text: string, limit: nat, cursor: string)
    requires limit >= 1
    ensures var c := Collect(Collected([], 0, false), Newest(f, text), limit);
            PageOf(f, text, limit, cursor)
            == Page(c.items, if c.more && c.oldest > 0 then D.FormatInt(c.oldest) else "", c.more, cursor)
  {
    hide Newest, Entries;
    var hits := Newest(f, text);
    if |hits| > limit {
      OlderMatches(f, text, limit);
      assert [] + Entries(hits[..limit]) == Entries(hits[..limit]);
    } else {
      assert [] + Entries(hits) == Entries(hits);
    }
  }

  lemma EmptyText<E>(f: Filter<E>)
    ensures Newest(f, "") == []
  {
    assert Report("", 0) == [];
  }

  // ------------------------------------------------------------------
  // Going on from a cursor
  // ------------------------------------------------------------------

  lemma {:induction false} HitsConcat<E>(f: Filter<E>, a: seq<Line>, b: seq<Line>)
    ensures Hits(f, a + b) == Hits(f, a) + Hits(f, b)
    decreases |a|
  {
    if a == [] {
      assert a + b == b;
    } else {
      assert (a + b)[1..] == a[1..] + b;
      HitsConcat(f, a[1..], b);
    }
  }

  /** The last line of `text` comes first, then the matches before it. */
  lemma {:induction false} NewestStep<E>(f: Filter<E>, text: string)
    ensures var i := LastIndex(text, '\n');
            Newest(f, text) == Hits(f, Report(text[i + 1..], i + 1)) + if i == -1 then [] else Newest(f, text[..i])
  {
    hide LastIndex, Report, Reverse, LinesOf, BackLines;
    var i := LastIndex(text, '\n');
    BackLinesReverse(text);
    if i == -1 {
      BackLinesNone(text);
      assert text[0..] == text;
      assert Hits(f, Report(text, 0)) + [] == Hits(f, Report(text, 0));
    } else {
      BackLinesUnfold(text, i);
      BackLinesReverse(text[..i]);
      HitsConcat(f, Report(text[i + 1..], i + 1), BackLines(text[..i]));
    }
  }

  lemma {:induction false} NewestNewline<E>(f: Filter<E>, text: string)
    ensures Newest(f, text + "\n") == Newest(f, text)
  {
    hide Reverse, LinesOf, BackLines;
    BackLinesReverse(text + "\n");
    BackLinesReverse(text);
    BackLinesTrimOne(text, '\n');
  }

  lemma {:induction false} OneHit<E>(f: Filter<E>, raw: string, start: nat)
    ensures var hits := Hits(f, Report(raw, start));
            |hits| <= 1 && (hits != [] ==> hits[0].start == start)
  {
  }

  /** The matches of the text before the k-th match are the matches after it. */
  lemma {:induction false} OlderMatches<E>(f: Filter<E>, text: string, k: nat)
    requires k < |Newest(f, text)|
    ensures var s := Newest(f, text)[k].start;
            s <= |text| && Newest(f, text[..s]) == Newest(f, text)[k + 1..]
    ensures k > 0 ==> Newest(f, text)[k].start < Newest(f, text)[k - 1].start
    decreases |text|
  {
    hide Newest, LastIndex, Report, Hits;
    var hits, i := Newest(f, text), LastIndex(text, '\n');
    NewestStep(f, text);
    var first := Hits(f, Report(text[i + 1..], i + 1));
    OneHit(f, text[i + 1..], i + 1);
    if i == -1 {
      EmptyText(f);
      assert text[..0] == "";
    } else {
      var older := Newest(f, text[..i]);
      if k < |first| {
        assert text[..i + 1] == text[..i] + "\n";
        NewestNewline(f, text[..i]);
      } else {
        var j := k - |first|;
        OlderMatches(f, text[..i], j);
        assert text[..i][..older[j].start] == text[..older[j].start];
        assert hits[k..] == older[j..];
      }
    }
  }

  // ------------------------------------------------------------------
  // A whole pagination
  // ------------------------------------------------------------------

  /** Pages fetched one after the other; between two fetches the file may only grow. */
  ghost predicate Continues<E>(f: Filter<E>, limit: nat, files: seq<string>, pages: seq<CursorResult<E>>)
    requires limit >= 1
  {
    && |files| == |pages|
    && (forall i :: 0 <= i < |files| ==> |files[i]| <= D.MAX_INT64)
    && (forall i :: 0 <= i < |files| - 1 ==> files[i] <= files[i + 1])
    && (forall i :: 0 <= i < |pages| - 1 ==>
          && pages[i].Page? && pages[i].hasMore
          && pages[i + 1] == Query(f, Some(files[i + 1]), pages[i].nextCursor, limit))
  }

  ghost function AllItems<E>(pages: seq<CursorResult<E>>): seq<E>
    requires forall i :: 0 <= i < |pages| ==> pages[i].Page?
  {
    if pages == [] then [] else pages[0].items + AllItems(pages[1..])
  }

  /** Every next cursor is a smaller offset than the one before. */
  ghost predicate CursorsDecrease<E>(pages: seq<CursorResult<E>>) {
    forall i :: 0 <= i < |pages| - 1 && pages[i].Page? && pages[i + 1].Page? && pages[i + 1].hasMore ==>
      var a, b := D.ParseInt(pages[i].nextCursor), D.ParseInt(pages[i + 1].nextCursor);
      a.Some? && b.Some? && 0 < b.value < a.value
  }

  /** A page that has more can be continued: its cursor resolves, on any grown
      file, to the text before the last item. */
  lemma {:induction false} CursorResolves<E>(f: Filter<E>, text: string, limit: nat, cursor: string, file: string)
    requires limit >= 1 && text <= file && |file| <= D.MAX_INT64
    requires |Newest(f, text)| > limit
    ensures var hits := Newest(f, text);
            var s := hits[limit - 1].start;
            && 0 < s <= |text|
            && D.ParseInt(PageOf(f, text, limit, cursor).nextCursor) == Some(s)
            && Query(f, Some(file), PageOf(f, text, limit, cursor).nextCursor, limit)
               == PageOf(f, text[..s], limit, D.FormatInt(s))
            && Newest(f, text[..s]) == hits[limit..]
  {
    hide Newest;
    var s := Newest(f, text)[limit - 1].start;
    OlderMatches(f, text, limit - 1);
    OlderMatches(f, text, limit);
    D.ParseFormat(s);
    assert file[..s] == text[..s];
  }

  /** What a run of pages over the matches `all` of a text of length `end` delivers. */
  ghost predicate Delivers<E>(all: seq<E>, limit: nat, end: nat, pages: seq<CursorResult<E>>)
    requires pages != []
  {
    && (forall i :: 0 <= i < |pages| ==> pages[i].Page?)
    && (forall i :: 0 <= i < |pages| - 1 ==> |pages[i].items| == limit)
    && AllItems(pages) <= all
    && (!pages[|pages| - 1].hasMore <==> AllItems(pages) == all)
    && |pages| <= |all| + 1
    && CursorsDecrease(pages)
    && (pages[0].hasMore ==> var o := D.ParseInt(pages[0].nextCursor); o.Some? && 0 < o.value <= end)
  }

  lemma {:induction false} DeliversOne<E>(f: Filter<E>, text: string, limit: nat, cursor: string)
    requires limit >= 1 && |text| <= D.MAX_INT64
    ensures Delivers(Entries(Newest(f, text)), limit, |text|, [PageOf(f, text, limit, cursor)])
  {
    hide Newest, Query, PageOf, Entries;
    var hits, page := Newest(f, text), PageOf(f, text, limit, cursor);
    PageShape(f, text, limit, cursor);
    NextOffset(f, text, limit, cursor);
    assert AllItems([page]) == page.items + AllItems([]) == page.items;
    if |hits| > limit {
      EntriesSplit(hits, limit);
    }
  }

  lemma {:induction false} DeliversCons<E>(first: seq<E>, rest: seq<E>, limit: nat, end: nat, s: nat,
                                           page: CursorResult<E>, pages: seq<CursorResult<E>>)
    requires pages != [] && Delivers(rest, limit, s, pages) && s <= end
    requires page.Page? && page.hasMore && page.items == first && |first| == limit >= 1
    requires D.ParseInt(page.nextCursor) == Some(s) && 0 < s
    requires pages[0].hasMore ==> var o := D.ParseInt(pages[0].nextCursor); o.Some? && 0 < o.value < s
    ensures Delivers(first + rest, limit, end, [page] + pages)
  {
    var more := [page] + pages;
    assert more[1..] == pages;
    assert AllItems(more) == first + AllItems(pages);
    if AllItems(more) == first + rest {
      assert AllItems(pages) == AllItems(more)[|first|..] == rest;
    }
    DecreaseCons(more);
  }

  lemma {:induction false} WalkFrom<E>(f: Filter<E>, limit: nat, files: seq<string>, pages: seq<CursorResult<E>>,
                                       end: nat, cursor: string)
    requires limit >= 1 && pages != [] && |files| == |pages| && Continues(f, limit, files, pages)
    requires end <= |files[0]| && pages[0] == PageOf(f, files[0][..end], limit, cursor)
    ensures Delivers(Entries(Newest(f, files[0][..end])), limit, end, pages)
    decreases |pages|
  {
    hide Newest, Query, Delivers, PageOf, Entries, Continues;
    var text := files[0][..end];
    if |pages| == 1 {
      SmallFile(f, limit, files, pages);
      DeliversOne(f, text, limit, cursor);
      assert pages == [PageOf(f, text, limit, cursor)];
    } else {
      ContinuesTail(f, limit, files, pages);
      PageShape(f, text, limit, cursor);
      var all := Newest(f, text);
      assert text <= files[1];
      CursorResolves(f, text, limit, cursor, files[1]);
      var s := all[limit - 1].start;
      assert files[1][..s] == text[..s];
      WalkFrom(f, limit, files[1..], pages[1..], s, D.FormatInt(s));
      NextOffset(f, text[..s], limit, D.FormatInt(s));
      DeliversCons(Entries(all[..limit]), Entries(all[limit..]), limit, end, s, pages[0], pages[1..]);
      EntriesSplit(all, limit);
      assert pages == [pages[0]] + pages[1..];
    }
  }

  lemma {:induction false} SmallFile<E>(f: Filter<E>, limit: nat, files: seq<string>, pages: seq<CursorResult<E>>)
    requires limit >= 1 && |files| == |pages| >= 1 && Continues(f, limit, files, pages)
    ensures |files[0]| <= D.MAX_INT64
  {
  }

  lemma {:induction false} EntriesSplit<E>(hits: seq<Hit<E>>, k: nat)
    requires k <= |hits|
    ensures Entries(hits) == Entries(hits[..k]) + Entries(hits[k..])
  {
  }

  /** A next cursor points before the end of the text it was computed from. */
  lemma {:induction false} NextOffset<E>(f: Filter<E>, text: string, limit: nat, cursor: string)
    requires limit >= 1 && |text| <= D.MAX_INT64
    ensures var page := PageOf(f, text, limit, cursor);
            page.Page? && (page.hasMore ==>
              var o := D.ParseInt(page.nextCursor); o.Some? && 0 < o.value < |text|)
  {
    hide Newest, Query, Entries;
    if |Newest(f, text)| > limit {
      CursorResolves(f, text, limit, cursor, text);
      LaterStart(f, text, limit - 1);
    }
  }

  lemma {:induction false} PageShape<E>(f: Filter<E>, text: string, limit: nat, cursor: string)
    requires limit >= 1
    ensures var page, hits := PageOf(f, text, limit, cursor), Newest(f, text);
            && page.Page? && (page.hasMore <==> |hits| > limit)
            && page.items == if page.hasMore then Entries(hits[..limit]) else Entries(hits)
  {
  }

  /** A match starts inside its text. */
  lemma {:induction false} LaterStart<E>(f: Filter<E>, text: string, k: nat)
    requires k < |Newest(f, text)| && text != ""
    ensures Newest(f, text)[k].start < |text|
    decreases |text|
  {
    hide Newest, LastIndex, Report, Hits;
    var i := LastIndex(text, '\n');
    NewestStep(f, text);
    OneHit(f, text[i + 1..], i + 1);
    var first := Hits(f, Report(text[i + 1..], i + 1));
    if k < |first| {
      if i + 1 == |text| {
        assert text[i + 1..] == "";
        NoHit(f, i + 1);
      }
    } else {
      if text[..i] == "" {
        EmptyText(f);
      } else {
        LaterStart(f, text[..i], k - |first|);
      }
    }
  }

  lemma {:induction false} NoHit<E>(f: Filter<E>, start: nat)
    ensures Hits(f, Report("", start)) == []
  {
    assert Report("", start) == [];
  }

  lemma {:induction false} ContinuesTail<E>(f: Filter<E>, limit: nat, files: seq<string>, pages: seq<CursorResult<E>>)
    requires limit >= 1 && |files| == |pages| >= 2 && Continues(f, limit, files, pages)
    ensures Continues(f, limit, files[1..], pages[1..])
    ensures files[0] <= files[1] && |files[1]| <= D.MAX_INT64
    ensures pages[0].Page? && pages[0].hasMore && pages[1] == Query(f, Some(files[1]), pages[0].nextCursor, limit)
  {
    hide Query;
    var files', pages' := files[1..], pages[1..];
    forall i | 0 <= i < |pages'| - 1
      ensures pages'[i].Page? && pages'[i].hasMore && files'[i] <= files'[i + 1]
      ensures pages'[i + 1] == Query(f, Some(files'[i + 1]), pages'[i].nextCursor, limit)
    {
      assert pages'[i] == pages[i + 1] && pages'[i + 1] == pages[i + 2];
      assert files'[i] == files[i + 1] && files'[i + 1] == files[i + 2];
    }
  }

  lemma {:induction false} DecreaseCons<E>(pages: seq<CursorResult<E>>)
    requires |pages| >= 2 && CursorsDecrease(pages[1..])
    requires pages[0].Page? && pages[1].Page?
    requires pages[1].hasMore ==>
               var a, b := D.ParseInt(pages[0].nextCursor), D.ParseInt(pages[1].nextCursor);
               a.Some? && b.Some? && 0 < b.value < a.value
    ensures CursorsDecrease(pages)
  {
    forall i | 0 <= i < |pages| - 1 && pages[i].Page? && pages[i + 1].Page? && pages[i + 1].hasMore
      ensures var a, b := D.ParseInt(pages[i].nextCursor), D.ParseInt(pages[i + 1].nextCursor);
              a.Some? && b.Some? && 0 < b.value < a.value
    {
      if i > 0 {
        assert pages[1..][i - 1] == pages[i] && pages[1..][i] == pages[i + 1];
      }
    }
  }

  /** Following next_cursor from the empty cursor yields the matching lines of
      the file as it stood at the first call: newest first, each exactly once,
      `limit` to a page except the last, with strictly decreasing cursors; the
      walk ends, and lines appended between the calls change nothing. */
  lemma {:induction false} CursorWalk<E>(f: Filter<E>, limit: nat, files: seq<string>, pages: seq<CursorResult<E>>)
    requires limit >= 1 && pages != [] && Continues(f, limit, files, pages)
    requires pages[0] == Query(f, Some(files[0]), "", limit)
    ensures Delivers(Entries(Newest(f, files[0])), limit, |files[0]|, pages)
  {
    hide Newest, Delivers;
    assert files[0][..|files[0]|] == files[0];
    assert D.TrimSpace("") == "";
    WalkFrom(f, limit, files, pages, |files[0]|, "");
  }
}
