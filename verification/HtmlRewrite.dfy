/** Prefixing the absolute links of an HTML page (pkg/proxy/handler.go:4846-4925). */
module HtmlRewrite {
  import opened Bytes

  const HREF := "href=\""
  const SRC := "src=\""
  const ACTION := "action=\""
  const BASE := "<base href=\""

  predicate EndsIn(body: string, end: nat, pattern: string) {
    |pattern| <= end <= |body| && body[end - |pattern|..end] == pattern
  }

  /** A link site: a slash right behind one of the three attribute openings. */
  predicate Site(body: string, p: nat) {
    && p < |body| && body[p] == '/'
    && (EndsIn(body, p, HREF) || EndsIn(body, p, SRC) || EndsIn(body, p, ACTION))
  }

  lemma EndsInMeans(body: string, p: nat, pattern: string)
    requires p < |body| && body[p] == '/'
    ensures EndsIn(body, p, pattern) <==> exists front :: body[..p + 1] == front + pattern + "/"
  {
    if EndsIn(body, p, pattern) {
      var front := body[..p - |pattern|];
      assert body[..p] == front + body[p - |pattern|..p];
      assert body[..p + 1] == body[..p] + "/";
      assert body[..p + 1] == front + pattern + "/";
    }
    if front :| body[..p + 1] == front + pattern + "/" {
      assert body[..p + 1] == body[..p] + [body[p]];
      assert body[..p] == front + pattern;
      assert |front| == p - |pattern|;
      assert body[p - |pattern|..p] == body[..p][|front|..];
    }
  }

  /** A site is a slash behind href=", src=" or action=". */
  lemma SiteExactly(body: string, p: nat)
    ensures Site(body, p) <==>
            p < |body| && exists front ::
              || body[..p + 1] == front + "href=\"" + "/"
              || body[..p + 1] == front + "src=\"" + "/"
              || body[..p + 1] == front + "action=\"" + "/"
  {
    hide EndsIn;
    if p < |body| {
      assert body[..p + 1][p] == body[p];
      if body[p] == '/' {
        EndsInMeans(body, p, HREF);
        EndsInMeans(body, p, SRC);
        EndsInMeans(body, p, ACTION);
      }
    }
  }

  function Count(body: string, n: nat): nat
    requires n <= |body|
  {
    if n == 0 then 0 else Count(body, n - 1) + if Site(body, n - 1) then 1 else 0
  }

  /** The first `n` bytes with the prefix in front of every link site. */
  function Prefixed(body: string, prefix: string, n: nat): string
    requires n <= |body|
  {
    if n == 0 then ""
    else Prefixed(body, prefix, n - 1) + (if Site(body, n - 1) then prefix else "") + [body[n - 1]]
  }

  // ------------------------------------------------------------------
  // The scan
  // ------------------------------------------------------------------

  /** htmlAbsolutePathReplacement: lengths of the match and of what stays in front of the
      insertion, and the text behind it. */
  function Replacement(s: string): (int, int, string) {
    if s == "" then (0, 0, "")
    else if s[0] == 'h' && HasPrefix(s, HREF + "/") then (|HREF| + 1, |HREF|, "/")
    else if s[0] == 's' && HasPrefix(s, SRC + "/") then (|SRC| + 1, |SRC|, "/")
    else if s[0] == 'a' && HasPrefix(s, ACTION + "/") then (|ACTION| + 1, |ACTION|, "/")
    else if s[0] == '<' && HasPrefix(s, BASE + "/\">") then (|BASE| + 3, |BASE|, "/\">")
    else (0, 0, "")
  }

  /** rewriteHTMLAbsolutePaths */
  method RewriteHTMLAbsolutePaths(body: string, prefix: string) returns (out: string)
    ensures out == Prefixed(body, prefix, |body|)
  {
    hide Prefixed, Replacement, Site;
    if |body| == 0 || prefix == "" {
      NoPrefix(body, prefix, |body|);
      assert body[..|body|] == body;
      return body;
    }
    out := "";
    var replaced := false;
    var last, i := 0, 0;
    Nothing(body, prefix);
    while i < |body|
      invariant 0 <= last <= i <= |body|
      invariant Between(body, i)
      invariant replaced || (out == "" && last == 0)
      invariant out + body[last..i] == Prefixed(body, prefix, i)
    {
      var (oldLen, headLen, tail) := Replacement(body[i..]);
      if oldLen == 0 {
        NoSite(body, i);
        PrefixedStep(body, prefix, i);
        assert out + body[last..i + 1] == (out + body[last..i]) + [body[i]];
        i := i + 1;
      } else {
        replaced := true;
        OneSite(body, prefix, i);
        out := out + body[last..i];
        out := out + body[i..i + headLen];
        out := out + prefix;
        out := out + tail;
        i := i + oldLen;
        last := i;
        assert out + body[last..i] == out;
      }
    }
    if !replaced {
      assert body[0..|body|] == body;
      return body;
    }
    assert body[last..] == body[last..|body|];
    out := out + body[last..];
  }

  // ------------------------------------------------------------------
  // Why skipping a match skips no site
  // ------------------------------------------------------------------

  predicate At(body: string, start: nat, pattern: string) {
    start + |pattern| <= |body| && body[start..start + |pattern|] == pattern
  }

  /** An attribute opening at `start` with its slash at `p`. */
  predicate Opens(body: string, start: nat, p: nat) {
    && p < |body| && body[p] == '/'
    && ((p == start + |HREF| && At(body, start, HREF)) || (p == start + |SRC| && At(body, start, SRC))
        || (p == start + |ACTION| && At(body, start, ACTION)))
  }

  /** Every site from `i` on has its opening there too. */
  ghost predicate Between(body: string, i: nat) {
    forall p: nat :: i <= p && Site(body, p) ==> exists start :: i <= start < p && Opens(body, start, p)
  }

  lemma SiteOpens(body: string, p: nat)
    ensures Site(body, p) <==> exists start :: 0 <= start < p && Opens(body, start, p)
  {
    hide Site, Opens;
    if Site(body, p) {
      OpeningOf(body, p);
    }
    if start :| 0 <= start < p && Opens(body, start, p) {
      OpeningIsSite(body, start, p);
    }
  }

  lemma OpeningOf(body: string, p: nat)
    requires Site(body, p)
    ensures exists start :: 0 <= start < p && Opens(body, start, p)
  {
    if EndsIn(body, p, HREF) {
      EndsIsAt(body, p - |HREF|, p, HREF);
      assert Opens(body, p - |HREF|, p);
    } else if EndsIn(body, p, SRC) {
      EndsIsAt(body, p - |SRC|, p, SRC);
      assert Opens(body, p - |SRC|, p);
    } else {
      EndsIsAt(body, p - |ACTION|, p, ACTION);
      assert Opens(body, p - |ACTION|, p);
    }
  }

  lemma OpeningIsSite(body: string, start: nat, p: nat)
    requires Opens(body, start, p)
    ensures Site(body, p)
  {
    hide At, EndsIn;
    if p == start + |HREF| && At(body, start, HREF) {
      EndsIsAt(body, start, p, HREF);
    } else if p == start + |SRC| && At(body, start, SRC) {
      EndsIsAt(body, start, p, SRC);
    } else {
      EndsIsAt(body, start, p, ACTION);
    }
  }

  lemma EndsIsAt(body: string, start: nat, p: nat, pattern: string)
    requires p == start + |pattern|
    ensures EndsIn(body, p, pattern) <==> At(body, start, pattern)
  {
  }

  lemma Nothing(body: string, prefix: string)
    ensures Prefixed(body, prefix, 0) == "" && Between(body, 0)
  {
    hide Site, Opens;
    forall p: nat | Site(body, p) ensures exists start :: 0 <= start < p && Opens(body, start, p) {
      SiteOpens(body, p);
    }
  }

  lemma HrefAt(body: string, i: nat)
    requires At(body, i, HREF)
    ensures body[i] == 'h' && body[i + 1] == 'r' && body[i + 2] == 'e' && body[i + 3] == 'f'
            && body[i + 4] == '=' && body[i + 5] == '"'
  {
    var t := body[i..i + |HREF|];
    assert t[0] == body[i] && t[1] == body[i + 1] && t[2] == body[i + 2] && t[3] == body[i + 3] && t[4] == body[i + 4]
           && t[5] == body[i + 5];
  }

  lemma SrcAt(body: string, i: nat)
    requires At(body, i, SRC)
    ensures body[i] == 's' && body[i + 1] == 'r' && body[i + 2] == 'c' && body[i + 3] == '=' && body[i + 4] == '"'
  {
    var t := body[i..i + |SRC|];
    assert t[0] == body[i] && t[1] == body[i + 1] && t[2] == body[i + 2] && t[3] == body[i + 3] && t[4] == body[i + 4];
  }

  lemma ActionAt(body: string, i: nat)
    requires At(body, i, ACTION)
    ensures body[i] == 'a' && body[i + 1] == 'c' && body[i + 2] == 't' && body[i + 3] == 'i' && body[i + 4] == 'o'
            && body[i + 5] == 'n' && body[i + 6] == '=' && body[i + 7] == '"'
  {
    var t := body[i..i + |ACTION|];
    assert t[0] == body[i] && t[1] == body[i + 1] && t[2] == body[i + 2] && t[3] == body[i + 3] && t[4] == body[i + 4]
           && t[5] == body[i + 5] && t[6] == body[i + 6] && t[7] == body[i + 7];
  }

  lemma BaseAt(body: string, i: nat)
    requires At(body, i, BASE)
    ensures body[i] == '<' && body[i + 1] == 'b' && body[i + 2] == 'a' && body[i + 3] == 's' && body[i + 4] == 'e'
            && body[i + 5] == ' ' && At(body, i + 6, HREF)
  {
    var t := body[i..i + |BASE|];
    assert t[0] == body[i] && t[1] == body[i + 1] && t[2] == body[i + 2] && t[3] == body[i + 3] && t[4] == body[i + 4]
           && t[5] == body[i + 5];
    assert t[6..] == HREF && t[6..] == body[i + 6..i + 6 + |HREF|];
  }

  /** Two openings never overlap. */
  lemma OpeningsApart(body: string, start: nat, p: nat, other: nat, q: nat)
    requires Opens(body, start, p) && Opens(body, other, q) && start <= other <= p
    ensures start == other && p == q
  {
    hide At;
    SpelledOpening(body, start, p);
    SpelledOpening(body, other, q);
  }

  lemma SpelledOpening(body: string, i: nat, p: nat)
    requires Opens(body, i, p)
    ensures || (p == i + 6 && body[i] == 'h' && body[i + 1] == 'r' && body[i + 2] == 'e' && body[i + 3] == 'f'
                && body[i + 4] == '=' && body[i + 5] == '"')
            || (p == i + 5 && body[i] == 's' && body[i + 1] == 'r' && body[i + 2] == 'c' && body[i + 3] == '='
                && body[i + 4] == '"')
            || (p == i + 8 && body[i] == 'a' && body[i + 1] == 'c' && body[i + 2] == 't' && body[i + 3] == 'i'
                && body[i + 4] == 'o' && body[i + 5] == 'n' && body[i + 6] == '=' && body[i + 7] == '"')
  {
    hide At;
    if p == i + |HREF| && At(body, i, HREF) {
      HrefAt(body, i);
    } else if p == i + |SRC| && At(body, i, SRC) {
      SrcAt(body, i);
    } else {
      ActionAt(body, i);
    }
  }

  /** What the pattern match at a position means. */
  lemma ReplacementIs(body: string, i: nat)
    requires i < |body|
    ensures var (oldLen, headLen, tail) := Replacement(body[i..]);
            if oldLen == 0 then forall p :: !Opens(body, i, p)
            else
              && 0 < headLen < oldLen && i + oldLen <= |body|
              && |tail| == oldLen - headLen && tail == body[i + headLen..i + oldLen]
              && tail in {"/", "/\">"}
              && ((tail == "/" && Opens(body, i, i + headLen))
                  || (tail == "/\">" && headLen == |BASE| && At(body, i, BASE) && Opens(body, i + 6, i + headLen)))
  {
    hide HasPrefix, At, Replacement;
    var (oldLen, headLen, tail) := Replacement(body[i..]);
    ReplacementCases(body[i..]);
    if oldLen == 0 {
      forall p ensures !Opens(body, i, p) {
        if Opens(body, i, p) {
          OpensHasPrefix(body, i, p);
        }
      }
    } else if headLen == |HREF| {
      Pieces(body, i, HREF, tail);
    } else if headLen == |SRC| {
      Pieces(body, i, SRC, tail);
    } else if headLen == |ACTION| {
      Pieces(body, i, ACTION, tail);
    } else {
      Pieces(body, i, BASE, tail);
      BaseAt(body, i);
    }
  }

  lemma ReplacementCases(s: string)
    ensures var (oldLen, headLen, tail) := Replacement(s);
            || oldLen == 0
            || (oldLen == headLen + 1 && tail == "/"
                && ((headLen == |HREF| && HasPrefix(s, HREF + tail)) || (headLen == |SRC| && HasPrefix(s, SRC + tail))
                    || (headLen == |ACTION| && HasPrefix(s, ACTION + tail))))
            || (oldLen == headLen + 3 && tail == "/\">" && headLen == |BASE| && HasPrefix(s, BASE + tail))
  {
    hide HasPrefix;
  }

  /** A text in two parts, at a position of the page. */
  lemma Pieces(body: string, i: nat, head: string, tail: string)
    requires i <= |body| && HasPrefix(body[i..], head + tail)
    ensures i + |head| + |tail| <= |body| && At(body, i, head)
    ensures body[i + |head|..i + |head| + |tail|] == tail
    ensures tail != "" ==> body[i + |head|] == tail[0]
  {
    var n := |head + tail|;
    assert body[i..][..n] == body[i..i + n];
    assert body[i..i + |head|] == (head + tail)[..|head|] == head;
    assert body[i + |head|..i + n] == (head + tail)[|head|..] == tail;
  }

  lemma OpensHasPrefix(body: string, i: nat, p: nat)
    requires i < |body| && Opens(body, i, p)
    ensures Replacement(body[i..]).0 != 0
  {
    var s := body[i..];
    SpelledOpening(body, i, p);
    if p == i + |HREF| {
      assert s[..7] == HREF + "/";
    } else if p == i + |SRC| {
      assert s[..6] == SRC + "/";
    } else {
      assert s[..9] == ACTION + "/";
    }
  }

  lemma PrefixedStep(body: string, prefix: string, i: nat)
    requires i < |body|
    ensures Prefixed(body, prefix, i + 1)
            == Prefixed(body, prefix, i) + (if Site(body, i) then prefix else "") + [body[i]]
  {
    hide Site;
  }

  lemma {:induction false} NoPrefix(body: string, prefix: string, n: nat)
    requires n <= |body| && (prefix == "" || body == "")
    ensures Prefixed(body, prefix, n) == body[..n]
  {
    hide Site;
    if n > 0 {
      NoPrefix(body, prefix, n - 1);
    }
  }

  lemma {:induction false} NoSitesBetween(body: string, prefix: string, i: nat, j: nat)
    requires i <= j <= |body| && forall q :: i <= q < j ==> !Site(body, q)
    ensures Prefixed(body, prefix, j) == Prefixed(body, prefix, i) + body[i..j]
    decreases j
  {
    hide Site, Prefixed;
    if i < j {
      NoSitesBetween(body, prefix, i, j - 1);
      PrefixedStep(body, prefix, j - 1);
      assert body[i..j] == body[i..j - 1] + [body[j - 1]];
      assert Prefixed(body, prefix, j - 1) + "" == Prefixed(body, prefix, j - 1);
    }
  }

  lemma NoSite(body: string, i: nat)
    requires i < |body| && Between(body, i) && Replacement(body[i..]).0 == 0
    ensures !Site(body, i) && Between(body, i + 1)
  {
    hide Site, Opens, Replacement;
    ReplacementIs(body, i);
    forall p: nat | i + 1 <= p && Site(body, p) ensures exists start :: i + 1 <= start < p && Opens(body, start, p) {
      var start :| i <= start < p && Opens(body, start, p);
      assert start != i;
    }
  }

  /** An opening that starts at or behind `i`, when a match at `i` has its slash at `p`: it is
      the match's own, or it starts behind the match. */
  lemma OpeningInMatch(body: string, i: nat, start: nat, q: nat)
    requires i < |body| && i <= start && Opens(body, start, q)
    ensures var (oldLen, headLen, tail) := Replacement(body[i..]);
            oldLen != 0 ==> q == i + headLen || start >= i + oldLen
  {
    hide Replacement, At;
    ReplacementIs(body, i);
    SpelledOpening(body, start, q);
    var (oldLen, headLen, tail) := Replacement(body[i..]);
    if oldLen != 0 && start < i + oldLen {
      if tail == "/" {
        OpeningsApart(body, i, i + headLen, start, q);
      } else {
        BaseAt(body, i);
        var t := body[i + headLen..i + oldLen];
        assert t[0] == body[i + headLen] && t[1] == body[i + headLen + 1] && t[2] == body[i + headLen + 2];
        if i + 6 <= start <= i + headLen {
          OpeningsApart(body, i + 6, i + headLen, start, q);
        } else if start < i + 6 <= q {
          OpeningsApart(body, start, q, i + 6, i + headLen);
        }
      }
    }
  }

  lemma OneSite(body: string, prefix: string, i: nat)
    requires i < |body| && Between(body, i) && Replacement(body[i..]).0 != 0
    ensures var (oldLen, headLen, tail) := Replacement(body[i..]);
            && 0 < headLen < oldLen && i + oldLen <= |body|
            && Prefixed(body, prefix, i + oldLen)
               == Prefixed(body, prefix, i) + body[i..i + headLen] + prefix + tail
            && Between(body, i + oldLen)
  {
    hide Site, Opens, Replacement, Prefixed;
    var (oldLen, headLen, tail) := Replacement(body[i..]);
    ReplacementIs(body, i);
    var p := i + headLen;
    SiteOpens(body, p);
    forall q: nat | i <= q && Site(body, q)
      ensures q == p || exists start :: i + oldLen <= start < q && Opens(body, start, q)
    {
      var start :| i <= start < q && Opens(body, start, q);
      OpeningInMatch(body, i, start, q);
    }
    NoSitesBetween(body, prefix, i, p);
    PrefixedStep(body, prefix, p);
    NoSitesBetween(body, prefix, p + 1, i + oldLen);
    assert tail == [body[p]] + body[p + 1..i + oldLen];
  }

  // ------------------------------------------------------------------
  // What the result is
  // ------------------------------------------------------------------

  /** The output is longer by one prefix for each link site. */
  lemma {:induction false} Growth(body: string, prefix: string, n: nat)
    requires n <= |body|
    ensures |Prefixed(body, prefix, n)| == n + Count(body, n) * |prefix|
  {
    hide Site;
    if n > 0 {
      Growth(body, prefix, n - 1);
      Distribute(Count(body, n - 1), |prefix|);
    }
  }

  lemma Distribute(k: nat, w: nat)
    ensures (k + 1) * w == k * w + w
  {
  }

  lemma {:induction false} PrefixedGrows(body: string, prefix: string, m: nat, n: nat)
    requires m <= n <= |body|
    ensures Prefixed(body, prefix, m) <= Prefixed(body, prefix, n)
    decreases n
  {
    hide Site;
    if m < n {
      PrefixedGrows(body, prefix, m, n - 1);
    }
  }

  /** Main result: every byte of the body is in the output behind the prefixes of the sites up to
      it, and a site has its prefix right in front of it. */
  lemma BytesAndPrefixes(body: string, prefix: string, p: nat, at: nat, next: nat)
    requires p < |body| && at == p + Count(body, p) * |prefix| && next == p + Count(body, p + 1) * |prefix|
    ensures var out := Prefixed(body, prefix, |body|);
            && at <= next < |out|
            && out[next] == body[p]
            && out[at..next] == if Site(body, p) then prefix else ""
  {
    hide Site, Prefixed, Count;
    var before, here, out := Prefixed(body, prefix, p), Prefixed(body, prefix, p + 1), Prefixed(body, prefix, |body|);
    Growth(body, prefix, p);
    PrefixedStep(body, prefix, p);
    PrefixedGrows(body, prefix, p + 1, |body|);
    CountStep(body, p);
    Distribute(Count(body, p), |prefix|);
    assert |before| == at && |here| == next + 1;
    assert out[..next + 1] == here;
    assert out[next] == here[next];
    assert out[at..next] == here[at..next];
  }

  lemma CountStep(body: string, p: nat)
    requires p < |body|
    ensures Count(body, p + 1) == Count(body, p) + if Site(body, p) then 1 else 0
  {
    hide Site;
  }

  /** The link sites among the first `n` positions. */
  function Sites(body: string, n: nat): (sites: seq<nat>)
    requires n <= |body|
    ensures |sites| == Count(body, n)
  {
    if n == 0 then [] else Sites(body, n - 1) + (if Site(body, n - 1) then [n - 1] else [])
  }

  /** Where position `p` is behind `k` insertions. */
  function Shifted(p: nat, k: nat, width: nat): nat {
    p + k * width
  }

  /** Takes `width` bytes out of the output in front of each of the given body positions. */
  function Erased(out: string, sites: seq<nat>, width: nat): string
    decreases |sites|
  {
    if sites == [] then out
    else
      var k := |sites| - 1;
      var at := Shifted(sites[k], k, width);
      if at + width <= |out| then Erased(out[..at], sites[..k], width) + out[at + width..]
      else Erased(out, sites[..k], width)
  }

  lemma ErasedBehind(out: string, sites: seq<nat>, width: nat, more: string)
    requires Fit(sites, width, |out|)
    ensures Erased(out + more, sites, width) == Erased(out, sites, width) + more
  {
    hide Fit, Shifted, Erased;
    if sites == [] {
      ErasedNone(out, width);
      ErasedNone(out + more, width);
    } else {
      var k := |sites| - 1;
      var at := Shifted(sites[k], k, width);
      LastFits(sites, width, |out|);
      ErasedOpen(out, sites, width);
      ErasedOpen(out + more, sites, width);
      assert (out + more)[..at] == out[..at];
      assert (out + more)[at + width..] == out[at + width..] + more;
    }
  }

  lemma ErasedOpen(out: string, sites: seq<nat>, width: nat)
    requires sites != []
    ensures var k := |sites| - 1;
            var at := Shifted(sites[k], k, width);
            at + width <= |out| ==>
              Erased(out, sites, width) == Erased(out[..at], sites[..k], width) + out[at + width..]
  {
    hide Shifted;
  }

  lemma {:induction false} SitesFit(body: string, prefix: string, n: nat)
    requires n <= |body|
    ensures Fit(Sites(body, n), |prefix|, |Prefixed(body, prefix, n)|)
  {
    if n > 0 {
      hide Site, Prefixed, Fit;
      SitesFit(body, prefix, n - 1);
      Growth(body, prefix, n);
      Growth(body, prefix, n - 1);
      Distribute(Count(body, n - 1), |prefix|);
      FitMore(Sites(body, n - 1), |prefix|, |Prefixed(body, prefix, n - 1)|, n - 1, |Prefixed(body, prefix, n)|);
    }
  }

  /** Sites that fit still fit in more space, and so does one more. */
  lemma FitMore(sites: seq<nat>, width: nat, size: nat, site: nat, more: nat)
    requires Fit(sites, width, size) && size <= more
    ensures Fit(sites + [], width, more)
    ensures site + (|sites| + 1) * width <= more ==> Fit(sites + [site], width, more)
  {
    forall i | 0 <= i < |sites| ensures sites[i] + (i + 1) * width <= more {
      assert sites[i] + (i + 1) * width <= size;
    }
    assert sites + [] == sites;
  }

  predicate Fit(sites: seq<nat>, width: nat, size: nat) {
    forall i :: 0 <= i < |sites| ==> sites[i] + (i + 1) * width <= size
  }

  lemma LastFits(sites: seq<nat>, width: nat, size: nat)
    requires Fit(sites, width, size) && sites != []
    ensures Shifted(sites[|sites| - 1], |sites| - 1, width) + width <= size
    ensures Fit(sites[..|sites| - 1], width, size)
  {
    Distribute(|sites| - 1, width);
  }

  /** Main result: erasing the insertions gives back the body. */
  lemma {:induction false} EraseGivesBack(body: string, prefix: string, n: nat)
    requires n <= |body|
    ensures Erased(Prefixed(body, prefix, n), Sites(body, n), |prefix|) == body[..n]
  {
    hide Site, Erased, Prefixed, Fit;
    if n == 0 {
      assert Prefixed(body, prefix, 0) == "" by {
        Nothing(body, prefix);
      }
      ErasedNone("", |prefix|);
    } else {
      EraseGivesBack(body, prefix, n - 1);
      SitesFit(body, prefix, n - 1);
      Growth(body, prefix, n - 1);
      var before, sites, c := Prefixed(body, prefix, n - 1), Sites(body, n - 1), [body[n - 1]];
      assert body[..n] == body[..n - 1] + c;
      PrefixedStep(body, prefix, n - 1);
      if Site(body, n - 1) {
        ErasedLast(before, sites, n - 1, prefix, c);
      } else {
        assert before + "" + c == before + c;
        assert sites + [] == sites;
        ErasedBehind(before, sites, |prefix|, c);
      }
    }
  }

  lemma ErasedNone(out: string, width: nat)
    ensures Erased(out, [], width) == out
  {
  }

  lemma ErasedLast(before: string, sites: seq<nat>, p: nat, prefix: string, c: string)
    requires |before| == p + |sites| * |prefix|
    ensures Erased(before + prefix + c, sites + [p], |prefix|) == Erased(before, sites, |prefix|) + c
  {
    var out, all := before + prefix + c, sites + [p];
    assert all[..|sites|] == sites;
    assert out[..|before|] == before;
    assert out[|before| + |prefix|..] == c;
  }
}
