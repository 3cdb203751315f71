/** Laws of canonical cookie identities (pkg/proxy/handler.go, pkg/proxy/auth_cache.go). */
module CookieLaws {
  // What the canonical identity determines (handler.go:3048-3083), and when it is the identity
  // computed from a cookie map (auth_cache.go:521-591).

  import opened Bytes
  import opened Decimal
  import opened CookieIdentity

  // ------------------------------------------------------------------
  // The joined text determines the pairs
  // ------------------------------------------------------------------

  /** What every parsed pair satisfies. */
  predicate Sound(p: Pair) {
    ValidName(p.name) && ValidValue(p.value)
  }

  predicate AllSound(ps: seq<Pair>) {
    forall i :: 0 <= i < |ps| ==> Sound(ps[i])
  }

  lemma SoundText(p: Pair)
    requires Sound(p)
    ensures ';' !in Text(p) && '=' !in p.name && Text(p) != ""
  {
    assert !TokenByte('=') && !TokenByte(';') && !ValueByte(';');
  }

  lemma {:induction false} ParsedAreSound(parts: seq<string>)
    ensures AllSound(Parsed(parts))
  {
    if parts != [] {
      hide TrimSpace, ValidName, ValidValue, Unquoted, Before, Behind;
      ParsedAreSound(parts[1..]);
    }
  }

  lemma {:induction false} CookiesAreSound(headers: seq<string>)
    ensures AllSound(Cookies(headers))
  {
    hide Parsed, Parts, Sound;
    if headers != [] {
      ParsedAreSound(Parts(headers[0]));
      CookiesAreSound(headers[1..]);
      SoundTogether(Parsed(Parts(headers[0])), Cookies(headers[1..]));
    }
  }

  lemma SoundTogether(a: seq<Pair>, b: seq<Pair>)
    requires AllSound(a) && AllSound(b)
    ensures AllSound(a + b)
  {
    hide Sound;
  }

  lemma {:induction false} WithValueAre(cookies: seq<Pair>)
    ensures forall p :: p in WithValue(cookies) <==> p in cookies && p.value != ""
  {
    if cookies != [] {
      WithValueAre(cookies[1..]);
      assert cookies == [cookies[0]] + cookies[1..];
    }
  }

  lemma TextInjective(p: Pair, q: Pair)
    requires Sound(p) && Sound(q) && Text(p) == Text(q)
    ensures p == q
  {
    SoundText(p);
    SoundText(q);
    FirstIndexSplit(p.name, '=', p.value);
    FirstIndexSplit(q.name, '=', q.value);
    FirstIndexNone(p.name, '=');
    FirstIndexNone(q.name, '=');
    assert Text(p)[..|p.name|] == p.name && Text(q)[..|p.name|] == q.name;
    assert Text(p)[|p.name| + 1..] == p.value && Text(q)[|p.name| + 1..] == q.value;
  }

  lemma JoinCut(ps: seq<Pair>)
    requires AllSound(ps) && ps != []
    ensures FirstIndex(Join(ps), ';') == if |ps| == 1 then -1 else |Text(ps[0])|
    ensures Join(ps) != ""
  {
    hide Text, Sound, Join;
    SoundText(ps[0]);
    JoinStep(ps);
    FirstIndexNone(Text(ps[0]), ';');
    if |ps| == 1 {
      JoinStep(ps[1..]);
      assert Join(ps) == Text(ps[0]);
    } else {
      FirstIndexSplit(Text(ps[0]), ';', Join(ps[1..]));
    }
  }

  /** The joined text determines the pairs and their order. */
  lemma {:induction false} JoinInjective(a: seq<Pair>, b: seq<Pair>)
    requires AllSound(a) && AllSound(b) && Join(a) == Join(b)
    ensures a == b
  {
    hide Text, Sound, Join, FirstIndex;
    JoinStep(a);
    JoinStep(b);
    if a != [] {
      JoinCut(a);
    }
    if b != [] {
      JoinCut(b);
    }
    if a != [] && b != [] {
      var n := if |a| == 1 then |Join(a)| else |Text(a[0])|;
      JoinHead(a);
      JoinHead(b);
      TextInjective(a[0], b[0]);
      JoinInjective(a[1..], b[1..]);
      assert a == [a[0]] + a[1..] && b == [b[0]] + b[1..];
    }
  }

  lemma JoinHead(ps: seq<Pair>)
    requires AllSound(ps) && ps != []
    ensures var i := FirstIndex(Join(ps), ';');
            if i == -1 then |ps| == 1 && Text(ps[0]) == Join(ps) && Join(ps[1..]) == ""
            else |ps| > 1 && Text(ps[0]) == Join(ps)[..i] && Join(ps[1..]) == Join(ps)[i + 1..]
  {
    hide Text, AllSound, Join, FirstIndex;
    JoinCut(ps);
    JoinStep(ps);
    JoinStep(ps[1..]);
    if |ps| > 1 {
      CutBehind(Text(ps[0]), Join(ps[1..]));
    } else {
      assert Text(ps[0]) + "" + "" == Text(ps[0]);
    }
  }

  lemma CutBehind(a: string, b: string)
    ensures (a + ";" + b)[..|a|] == a && (a + ";" + b)[|a| + 1..] == b
  {
  }

  // ------------------------------------------------------------------
  // Equal identities
  // ------------------------------------------------------------------

  lemma AcceptedAreSound(headers: seq<string>)
    ensures AllSound(Accepted(headers))
  {
    hide Sound, Cookies, WithValue, PartCount;
    CookiesAreSound(headers);
    WithValueAre(Cookies(headers));
    var ps := WithValue(Cookies(headers));
    forall i | 0 <= i < |ps| ensures Sound(ps[i]) {
      assert ps[i] in ps;
    }
  }

  lemma SortedAreSound(ps: seq<Pair>)
    requires AllSound(ps)
    ensures AllSound(Sorted(ps))
  {
    hide Sound, Sorted;
    SortedIsOrdered(ps);
    forall i | 0 <= i < |Sorted(ps)| ensures Sound(Sorted(ps)[i]) {
      assert Sorted(ps)[i] in multiset(Sorted(ps));
      assert Sorted(ps)[i] in ps;
    }
  }

  lemma SortedIsCanonical(a: seq<Pair>, b: seq<Pair>)
    ensures Sorted(a) == Sorted(b) <==> multiset(a) == multiset(b)
  {
    hide Sorted, Ordered;
    SortedIsOrdered(a);
    SortedIsOrdered(b);
    if multiset(a) == multiset(b) {
      OrderedUnique(Sorted(a), Sorted(b));
    }
  }

  /** Main result: two requests get the same canonical text exactly when their accepted pairs
      are the same, counted with repetition, in whatever order and however split over headers. */
  lemma SameIdentity(a: seq<string>, b: seq<string>)
    ensures Identity(a) == Identity(b) <==> multiset(Accepted(a)) == multiset(Accepted(b))
  {
    hide Accepted, Sorted, Join, AllSound;
    AcceptedAreSound(a);
    AcceptedAreSound(b);
    SortedAreSound(Accepted(a));
    SortedAreSound(Accepted(b));
    SortedIsCanonical(Accepted(a), Accepted(b));
    if Identity(a) == Identity(b) {
      JoinInjective(Sorted(Accepted(a)), Sorted(Accepted(b)));
    }
  }

  // ------------------------------------------------------------------
  // Canonical text as a cookie header
  // ------------------------------------------------------------------

  /** A pair that a header gives back: a value that does not end in a space, and not the proxy's own. */
  predicate Plain(p: Pair) {
    Sound(p) && p.value != "" && p.value[|p.value| - 1] != ' ' && p.name != "__proxy_path"
  }

  predicate AllPlain(ps: seq<Pair>) {
    forall i :: 0 <= i < |ps| ==> Plain(ps[i])
  }

  lemma NameIsTrimmed(name: string)
    requires ValidName(name)
    ensures TrimSpace(name) == name
  {
    hide TokenByte, IsSpace;
    TokenIsNoSpace(name[0]);
    TokenIsNoSpace(name[|name| - 1]);
    TrimNothing(name);
  }

  lemma TokenIsNoSpace(c: char)
    requires TokenByte(c)
    ensures !IsSpace(c)
  {
    hide TokenByte;
    TokenCodes(c);
  }

  /** The name in front of the first equals sign, and what follows it. */
  lemma NameCut(name: string, rest: string)
    requires ValidName(name)
    ensures Before(name + "=" + rest, '=') == name && Behind(name + "=" + rest, '=') == rest
    ensures name + "=" + rest != "" && !IsSpace((name + "=" + rest)[0])
  {
    var text := name + ['='] + rest;
    assert '=' !in name by {
      assert !TokenByte('=');
    }
    hide TokenByte, IsSpace, FirstIndex, TrimSpace;
    FirstIndexNone(name, '=');
    FirstIndexSplit(name, '=', rest);
    assert text[..|name|] == name && text[|name| + 1..] == rest;
    NameIsTrimmed(name);
    TokenIsNoSpace(name[0]);
    assert text[0] == name[0];
  }

  lemma TextParses(p: Pair)
    requires Plain(p)
    ensures ParsePart(TrimSpace(Text(p))) == Some(p)
  {
    hide TrimSpace, ValidName, Before, Behind, FirstIndex, IsSpace;
    NameCut(p.name, p.value);
    NameIsTrimmed(p.name);
    ValueEnd(p.value);
    assert Text(p)[|Text(p)| - 1] == p.value[|p.value| - 1];
    TrimNothing(Text(p));
    assert p.value[0] != '"' by {
      assert ValueByte(p.value[0]);
    }
  }

  lemma ValueEnd(value: string)
    requires ValidValue(value) && value != "" && value[|value| - 1] != ' '
    ensures !IsSpace(value[|value| - 1])
  {
    assert ValueByte(value[|value| - 1]);
  }

  lemma {:induction false} JoinReparses(ps: seq<Pair>)
    requires AllPlain(ps) && ps != []
    ensures Parsed(Parts(Join(ps))) == ps && |Parts(Join(ps))| == |ps|
    decreases |ps|
  {
    hide Text, Plain, Join, FirstIndex, ParsePart, TrimSpace;
    var text := Join(ps);
    assert AllSound(ps) by {
      PlainIsSound(ps);
    }
    JoinHead(ps);
    TextParses(ps[0]);
    NotTheProxys(ps[0]);
    if |ps| == 1 {
      assert Parts(text) == [text] && [text][1..] == [] && ps == [ps[0]];
    } else {
      JoinReparses(ps[1..]);
      var parts := Parts(text);
      assert parts[0] == Text(ps[0]) && parts[1..] == Parts(Join(ps[1..]));
      assert ps == [ps[0]] + ps[1..];
    }
  }

  lemma PlainIsSound(ps: seq<Pair>)
    requires AllPlain(ps)
    ensures AllSound(ps) && forall p :: p in ps ==> p.value != ""
  {
  }

  lemma NotTheProxys(p: Pair)
    requires Plain(p)
    ensures p.name != PROXY_PATH
  {
  }

  lemma {:induction false} AllWithValue(ps: seq<Pair>)
    requires forall p :: p in ps ==> p.value != ""
    ensures WithValue(ps) == ps
  {
    if ps != [] {
      assert ps[0] in ps && forall p :: p in ps[1..] ==> p in ps;
      AllWithValue(ps[1..]);
    }
  }

  lemma OneHeader(header: string)
    ensures PartCount([header]) == |Parts(header)| && Cookies([header]) == Parsed(Parts(header))
  {
    assert [header][1..] == [];
  }

  /** Main result: joined pairs, sent as a header, are accepted as the same pairs in the same order, up
      to the limit of 3000. */
  lemma JoinedAreAccepted(ps: seq<Pair>)
    requires AllPlain(ps) && 1 <= |ps| <= 3000
    ensures Accepted([Join(ps)]) == ps
  {
    hide Plain, Join, Parts, Parsed, WithValue;
    JoinReparses(ps);
    OneHeader(Join(ps));
    PlainIsSound(ps);
    AllWithValue(ps);
  }

  /** A value in quotes is accepted without them, also with spaces at its ends. */
  lemma QuotedIsAccepted(name: string, value: string)
    requires ValidName(name) && ValidValue(value) && value != "" && name != "__proxy_path"
    ensures Accepted([name + "=" + ("\"" + value + "\"")]) == [Pair(name, value)]
  {
    OneCookie(name, "\"" + value + "\"", value);
  }

  /** The proxy's own cookie and cookies without a value are not. */
  lemma NotAccepted(name: string, value: string)
    requires ValidName(name) && ValidValue(value) && (value != "" ==> value[|value| - 1] != ' ')
    requires name == "__proxy_path" || value == ""
    ensures Accepted([name + "=" + value]) == []
  {
    OneCookie(name, value, value);
  }

  lemma OneCookie(name: string, raw: string, value: string)
    requires ValidName(name) && ValidValue(value)
    requires raw == "\"" + value + "\"" || (raw == value && (value != "" ==> value[|value| - 1] != ' '))
    ensures Accepted([name + "=" + raw])
            == if name == "__proxy_path" || value == "" then [] else [Pair(name, value)]
  {
    hide TrimSpace, Before, Behind, FirstIndex, IsSpace, ValidName, Parsed, WithValue, Parts;
    var text := name + "=" + raw;
    NameCut(name, raw);
    NameIsTrimmed(name);
    LastByte(name, raw, value);
    TrimNothing(text);
    RawValue(raw, value);
    OnePart(name, raw, value);
    OneHeader(text);
    assert ParsePart(text) == Some(Pair(name, value));
    ParsedOne(text);
    WithValueOne(Pair(name, value));
  }

  lemma LastByte(name: string, raw: string, value: string)
    requires ValidValue(value)
    requires raw == "\"" + value + "\"" || (raw == value && (value != "" ==> value[|value| - 1] != ' '))
    ensures !IsSpace((name + "=" + raw)[|name + "=" + raw| - 1])
  {
    if raw == value && value != "" {
      assert ValueByte(value[|value| - 1]);
    }
  }

  lemma RawValue(raw: string, value: string)
    requires ValidValue(value) && (raw == "\"" + value + "\"" || raw == value)
    ensures Unquoted(raw) == value
  {
    if raw == value && value != "" {
      assert ValueByte(value[0]);
    }
  }

  // ------------------------------------------------------------------
  // Which parts of a header are cookies
  // ------------------------------------------------------------------

  /** A token byte of section 3.2.6 of RFC 7230, by its code. */
  lemma TokenCodes(c: char)
    ensures var n := c as int;
            TokenByte(c) <==>
            || n == 0x21 || 0x23 <= n <= 0x27 || n == 0x2a || n == 0x2b || n == 0x2d || n == 0x2e
            || 0x30 <= n <= 0x39 || 0x41 <= n <= 0x5a || 0x5e <= n <= 0x7a || n == 0x7c || n == 0x7e
  {
    assert c in "!#$%&'*+-.^_`|~" <==>
           || c == '!' || c == '#' || c == '$' || c == '%' || c == '&' || c == '\'' || c == '*' || c == '+'
           || c == '-' || c == '.' || c == '^' || c == '_' || c == '`' || c == '|' || c == '~';
  }

  /** A cookie octet of section 4.1.1 of RFC 6265, a space or a comma. */
  lemma ValueCodes(c: char)
    ensures var n := c as int;
            ValueByte(c) <==>
            || c == ' ' || c == ','
            || n == 0x21 || 0x23 <= n <= 0x2b || 0x2d <= n <= 0x3a || 0x3c <= n <= 0x5b || 0x5d <= n <= 0x7e
  {
  }

  predicate Blanks(s: string) {
    forall k :: 0 <= k < |s| ==> IsSpace(s[k])
  }

  /** A trimmed part read as a cookie: a name, white space, and a value behind an equals sign, in
      quotes or not; without an equals sign the value is empty. */
  ghost predicate ReadsAs(t: string, p: Pair, blanks: string) {
    && Blanks(blanks)
    && (|| (t == p.name + blanks && p.value == "")
        || t == p.name + blanks + "=" + p.value
        || t == p.name + blanks + "=" + ("\"" + p.value + "\""))
  }

  lemma FrontIsCut(front: string, raw: string)
    requires '=' !in front
    ensures Before(front + "=" + raw, '=') == front && Behind(front + "=" + raw, '=') == raw
    ensures Before(front, '=') == front && Behind(front, '=') == ""
  {
    hide FirstIndex;
    var t := front + ['='] + raw;
    FirstIndexNone(front, '=');
    FirstIndexSplit(front, '=', raw);
    assert t[..|front|] == front && t[|front| + 1..] == raw;
  }

  lemma FrontIsTrimmed(name: string, blanks: string)
    requires ValidName(name) && Blanks(blanks)
    ensures TrimSpace(name + blanks) == name && '=' !in name + blanks
  {
    hide TokenByte, IsSpace;
    var s := name + blanks;
    TokenIsNoSpace(name[0]);
    TokenIsNoSpace(name[|name| - 1]);
    assert !TokenByte('=') && !IsSpace('=') by {
      TokenCodes('=');
      SpaceIs('=');
    }
    assert s[0] == name[0] && s[|name| - 1] == name[|name| - 1];
    assert forall k :: |name| <= k < |s| ==> IsSpace(s[k]) by {
      assert forall k :: |name| <= k < |s| ==> s[k] == blanks[k - |name|];
    }
    assert SpaceEnd(s, 0) == 0;
    assert SpaceStart(s, |s|) == |name|;
  }

  /** What a text without leading white space loses by trimming. */
  lemma TrimmedTail(s: string)
    requires s == "" || !IsSpace(s[0])
    ensures Blanks(s[|TrimSpace(s)|..]) && |TrimSpace(s)| <= |s| && s[..|TrimSpace(s)|] == TrimSpace(s)
  {
    hide IsSpace;
    assert SpaceEnd(s, 0) == 0;
  }

  lemma UnquotedFrom(raw: string, value: string)
    requires ValidValue(value)
    ensures Unquoted(raw) == value <==> raw == value || raw == "\"" + value + "\""
  {
    if raw == value || raw == "\"" + value + "\"" {
      RawValue(raw, value);
    }
    if Unquoted(raw) == value && raw != value {
      assert raw == [raw[0]] + value + [raw[|raw| - 1]];
    }
  }

  /** Main result: a trimmed part is read as a cookie if and only if it is its name, white space, and
      its value behind an equals sign, with or without quotes around it; no equals sign stands
      for the empty value. Names are tokens, and values valid bytes. */
  lemma PartExactly(t: string, p: Pair)
    requires t == "" || !IsSpace(t[0])
    ensures ParsePart(t) == Some(p)
            <==> ValidName(p.name) && ValidValue(p.value) && exists blanks :: ReadsAs(t, p, blanks)
  {
    hide ValidName, ValidValue, ReadsAs, TrimSpace, Before, Behind, Unquoted, IsSpace, Blanks;
    if ValidName(p.name) && ValidValue(p.value) {
      if blanks :| ReadsAs(t, p, blanks) {
        PartParses(t, p, blanks);
      }
      if ParsePart(t) == Some(p) {
        var blanks := PartReads(t, p);
      }
    }
  }

  lemma PartParses(t: string, p: Pair, blanks: string)
    requires ValidName(p.name) && ValidValue(p.value) && ReadsAs(t, p, blanks)
    ensures ParsePart(t) == Some(p)
  {
    hide ValidValue, TrimSpace, Before, Behind, Unquoted, IsSpace, TokenByte, Blanks;
    var front := p.name + blanks;
    FrontIsTrimmed(p.name, blanks);
    UnquotedFrom(p.value, p.value);
    UnquotedFrom("\"" + p.value + "\"", p.value);
    FrontIsCut(front, p.value);
    FrontIsCut(front, "\"" + p.value + "\"");
  }

  lemma PartReads(t: string, p: Pair) returns (blanks: string)
    requires (t == "" || !IsSpace(t[0])) && ParsePart(t) == Some(p) && ValidValue(p.value)
    ensures ReadsAs(t, p, blanks)
  {
    hide IsSpace, ParsePart, ValidValue, ReadsAs, TrimSpace, Unquoted, Blanks, Before, Behind;
    BeforeBehind(t);
    ParsedFrom(t, p);
    blanks := BehindName(Before(t, '='));
    UnquotedFrom(Behind(t, '='), p.value);
    ReadsFrom(t, p, blanks, Before(t, '='), Behind(t, '='));
  }

  lemma BehindName(front: string) returns (blanks: string)
    requires front == "" || !IsSpace(front[0])
    ensures Blanks(blanks) && front == TrimSpace(front) + blanks
  {
    hide IsSpace, TrimSpace, Blanks;
    TrimmedTail(front);
    blanks := front[|TrimSpace(front)|..];
  }

  lemma ParsedFrom(t: string, p: Pair)
    requires ParsePart(t) == Some(p)
    ensures TrimSpace(Before(t, '=')) == p.name && Unquoted(Behind(t, '=')) == p.value
  {
    hide ValidName, ValidValue, TrimSpace, Unquoted, Before, Behind;
  }

  lemma BeforeBehind(t: string)
    ensures var front, raw := Before(t, '='), Behind(t, '=');
            && (t == front + "=" + raw || (t == front && raw == ""))
            && (front != "" ==> front[0] == t[0])
  {
    hide FirstIndex;
    var i := FirstIndex(t, '=');
    if i >= 0 {
      assert t == t[..i] + [t[i]] + t[i + 1..];
    }
  }

  lemma ReadsFrom(t: string, p: Pair, blanks: string, front: string, raw: string)
    requires Blanks(blanks) && front == p.name + blanks && Unquoted(raw) == p.value
    requires t == front + "=" + raw || (t == front && raw == "")
    requires raw == p.value || raw == "\"" + p.value + "\""
    ensures ReadsAs(t, p, blanks)
  {
    hide Blanks;
  }

  lemma OnePart(name: string, raw: string, value: string)
    requires ValidName(name) && ValidValue(value) && (raw == "\"" + value + "\"" || raw == value)
    ensures Parts(name + "=" + raw) == [name + "=" + raw]
  {
    assert !TokenByte(';') && !ValueByte(';');
    assert ';' !in name && ';' !in value && ';' !in raw;
    FirstIndexNone(name + "=" + raw, ';');
  }

  lemma ParsedOne(part: string)
    ensures Parsed([part]) == var pair := ParsePart(TrimSpace(part));
                              if pair.Some? && pair.value.name != "__proxy_path" then [pair.value] else []
  {
    hide ParsePart, TrimSpace;
    assert [part][1..] == [];
  }

  lemma WithValueOne(p: Pair)
    ensures WithValue([p]) == (if p.value != "" then [p] else []) && WithValue([]) == []
  {
    assert [p][1..] == [];
  }

  // ------------------------------------------------------------------
  // The map form
  // ------------------------------------------------------------------

  /** A cookie without a value deletes its name; any other overwrites it. */
  function Put(m: map<string, string>, p: Pair): map<string, string> {
    if p.value == "" then m - {p.name} else m[p.name := p.value]
  }

  function MapOf(cookies: seq<Pair>): map<string, string> {
    if cookies == [] then map[] else Put(MapOf(cookies[..|cookies| - 1]), cookies[|cookies| - 1])
  }

  function CookieMap(headers: seq<string>): map<string, string> {
    if PartCount(headers) > MAX_COOKIES then map[] else MapOf(Cookies(headers))
  }

  /** appendRequestCookieMapHeader, behind the cookies already read. */
  method AppendCookieMap(values: map<string, string>, ghost before: seq<Pair>, header: string)
    returns (more: map<string, string>)
    requires values == MapOf(before)
    ensures more == MapOf(before + Parsed(Parts(header)))
  {
    hide ParsePart, Parts, Parsed, MapOf, TrimSpace;
    more := values;
    var rest := header;
    ghost var read := before;
    while true
      invariant more == MapOf(read)
      invariant read + Parsed(Parts(rest)) == before + Parsed(Parts(header))
      decreases |rest|
    {
      var i := FirstIndex(rest, ';');
      var pair := ParsePart(TrimSpace(Before(rest, ';')));
      CookiesStep(rest);
      ghost var first := if pair.Some? && pair.value.name != PROXY_PATH then [pair.value] else [];
      ghost var behind := if i == -1 then [] else Parsed(Parts(Behind(rest, ';')));
      assert read + (first + behind) == (read + first) + behind;
      assert read + [] == read;
      if pair.Some? && pair.value.name != PROXY_PATH {
        MapStep(read, pair.value);
        more := if pair.value.value == "" then more - {pair.value.name} else more[pair.value.name := pair.value.value];
        read := read + [pair.value];
      }
      if i == -1 {
        assert read + [] == read;
        return;
      }
      rest := Behind(rest, ';');
    }
  }

  lemma MapStep(read: seq<Pair>, p: Pair)
    ensures MapOf(read + [p]) == Put(MapOf(read), p)
  {
    assert (read + [p])[..|read|] == read;
  }

  /** requestCookieMap */
  method RequestCookieMap(headers: seq<string>) returns (values: map<string, string>)
    ensures values == CookieMap(headers)
  {
    hide MapOf, Parsed, Parts, PartCount;
    var within := WithinDefaultLimit(headers);
    MapNone();
    if |headers| == 0 || !within {
      return map[];
    }
    values := map[];
    ghost var read: seq<Pair> := [];
    assert headers[0..] == headers;
    for i := 0 to |headers|
      invariant values == MapOf(read)
      invariant read + Cookies(headers[i..]) == Cookies(headers)
    {
      assert headers[i..][1..] == headers[i + 1..];
      values := AppendCookieMap(values, read, headers[i]);
      read := read + Parsed(Parts(headers[i]));
    }
    assert read == Cookies(headers);
  }

  lemma MapNone()
    ensures MapOf([]) == map[]
  {
  }

  predicate Usable(m: map<string, string>, name: string) {
    name in m && name != "" && m[name] != "" && name != PROXY_PATH
  }

  ghost function Items(m: map<string, string>): set<Pair> {
    set name | name in m && Usable(m, name) :: Pair(name, m[name])
  }

  /** canonicalCookieIdentityFromMap: the usable names, sorted, each with its value. */
  method CanonicalCookieIdentityFromMap(values: map<string, string>) returns (id: string)
    ensures forall ps :: multiset(ps) == multiset(Items(values)) ==> id == Join(Sorted(ps))
  {
    hide Sorted, Join;
    var pairs: seq<Pair> := [];
    var todo := values.Keys;
    while todo != {}
      invariant todo <= values.Keys
      invariant multiset(pairs) == multiset(set p | p in Items(values) && p.name !in todo)
      decreases |todo|
    {
      var name :| name in todo;
      NextItem(values, todo, name);
      if name != "" && values[name] != "" && name != PROXY_PATH {
        pairs := pairs + [Pair(name, values[name])];
      }
      todo := todo - {name};
    }
    assert (set p | p in Items(values) && p.name !in todo) == Items(values);
    var a := new Pair[|pairs|](i requires 0 <= i < |pairs| => pairs[i]);
    assert a[..] == pairs;
    SortCanonicalCookiePairs(a);
    id := JoinPairs(a[..]);
    forall ps | multiset(ps) == multiset(Items(values)) ensures id == Join(Sorted(ps)) {
      SortedIsCanonical(ps, pairs);
    }
  }

  lemma NextItem(values: map<string, string>, todo: set<string>, name: string)
    requires name in todo && name in values
    ensures var done := set p | p in Items(values) && p.name !in todo;
            (set p | p in Items(values) && p.name !in todo - {name})
            == if Usable(values, name) then done + {Pair(name, values[name])} else done
    ensures forall p :: p in (set p | p in Items(values) && p.name !in todo) ==> p.name != name
  {
  }

  // ------------------------------------------------------------------
  // When both forms agree
  // ------------------------------------------------------------------

  /** No cookie that had a value is followed by another one of its name. */
  predicate NoneReplaced(cookies: seq<Pair>) {
    forall i, j :: 0 <= i < j < |cookies| && cookies[i].value != "" ==> cookies[i].name != cookies[j].name
  }

  ghost predicate AgreesWithMap(cookies: seq<Pair>) {
    multiset(WithValue(cookies)) == multiset(Items(MapOf(cookies)))
  }

  /** While no cookie is replaced, the map holds exactly the cookies with a value. */
  ghost predicate Mirrors(cookies: seq<Pair>, m: map<string, string>) {
    && |m| == |WithValue(cookies)|
    && (forall p :: p in WithValue(cookies) <==> p.name in m && m[p.name] == p.value)
  }

  lemma {:induction false} WithValueLast(cookies: seq<Pair>)
    requires cookies != []
    ensures var front, last := cookies[..|cookies| - 1], cookies[|cookies| - 1];
            WithValue(cookies) == WithValue(front) + if last.value != "" then [last] else []
  {
    var front, last := cookies[..|cookies| - 1], cookies[|cookies| - 1];
    assert cookies == front + [last];
    WithValueSplits(front, [last]);
    WithValueOne(last);
  }

  /** Dropping a key takes at most one from the size of a map, writing one adds at most one. */
  lemma PutSize(m: map<string, string>, p: Pair)
    ensures p.name !in m ==> |Put(m, p)| == |m| + if p.value == "" then 0 else 1
    ensures p.name in m ==> |Put(m, p)| == |m| - if p.value == "" then 1 else 0
  {
    if p.value == "" {
      assert (m - {p.name}).Keys == m.Keys - {p.name};
    } else {
      assert m[p.name := p.value].Keys == m.Keys + {p.name};
    }
  }

  /** The map never holds more than the cookies with a value, and fewer once one is replaced. */
  lemma {:induction false} MapSize(cookies: seq<Pair>)
    ensures |MapOf(cookies)| <= |WithValue(cookies)|
    ensures NoneReplaced(cookies) ==> Mirrors(cookies, MapOf(cookies))
    ensures !NoneReplaced(cookies) ==> |MapOf(cookies)| < |WithValue(cookies)|
  {
    if cookies != [] {
      hide NoneReplaced, Mirrors, MapOf, Put, WithValue;
      var front, last := cookies[..|cookies| - 1], cookies[|cookies| - 1];
      MapSize(front);
      WithValueLast(cookies);
      assert front + [last] == cookies;
      MapStep(front, last);
      PutSize(MapOf(front), last);
      ReplacedLast(cookies);
      WithValueAre(front);
      if NoneReplaced(front) {
        InMirror(front, MapOf(front), last.name);
        if NoneReplaced(cookies) {
          MirrorsPut(front, last);
        }
      }
    } else {
      assert MapOf(cookies) == map[] && WithValue(cookies) == [];
    }
  }

  lemma ReplacedLast(cookies: seq<Pair>)
    requires cookies != []
    ensures var front, last := cookies[..|cookies| - 1], cookies[|cookies| - 1];
            NoneReplaced(cookies) <==>
            NoneReplaced(front) && forall p :: p in front && p.value != "" ==> p.name != last.name
  {
    var front, last := cookies[..|cookies| - 1], cookies[|cookies| - 1];
    if NoneReplaced(front) && forall p :: p in front && p.value != "" ==> p.name != last.name {
      forall i, j | 0 <= i < j < |cookies| && cookies[i].value != "" ensures cookies[i].name != cookies[j].name {
        assert cookies[i] == front[i] && front[i] in front;
        if j < |front| {
          assert cookies[j] == front[j];
        }
      }
    }
    if NoneReplaced(cookies) {
      forall p | p in front && p.value != "" ensures p.name != last.name {
        var i :| 0 <= i < |front| && front[i] == p;
        assert cookies[i].name != cookies[|cookies| - 1].name;
      }
      forall i, j | 0 <= i < j < |front| && front[i].value != "" ensures front[i].name != front[j].name {
        assert cookies[i].name != cookies[j].name;
      }
    }
  }

  lemma InMirror(cookies: seq<Pair>, m: map<string, string>, name: string)
    requires Mirrors(cookies, m)
    ensures name in m <==> exists p :: p in cookies && p.value != "" && p.name == name
  {
    WithValueAre(cookies);
    if name in m {
      assert Pair(name, m[name]) in WithValue(cookies);
    }
  }

  lemma MirrorsPut(front: seq<Pair>, last: Pair)
    requires Mirrors(front, MapOf(front))
    requires forall p :: p in front && p.value != "" ==> p.name != last.name
    ensures Mirrors(front + [last], Put(MapOf(front), last))
  {
    hide MapOf, WithValue;
    var m := MapOf(front);
    WithValueLast(front + [last]);
    assert (front + [last])[..|front|] == front;
    InMirror(front, m, last.name);
    PutSize(m, last);
    WithValueAre(front);
  }

  lemma UsableCookies(cookies: seq<Pair>)
    requires AllSound(cookies) && (forall p :: p in cookies ==> p.name != PROXY_PATH)
    requires Mirrors(cookies, MapOf(cookies))
    ensures forall p :: p in Items(MapOf(cookies)) <==> p in WithValue(cookies)
  {
    hide MapOf, WithValue;
    WithValueAre(cookies);
    var m := MapOf(cookies);
    forall p | p in WithValue(cookies) ensures p in Items(m) {
      var i :| 0 <= i < |cookies| && cookies[i] == p;
      assert Sound(cookies[i]);
      assert Usable(m, p.name);
    }
  }

  lemma {:induction false} CardOfSet(ps: seq<Pair>, s: set<Pair>)
    requires forall p :: p in ps <==> p in s
    requires |ps| == |s|
    ensures multiset(ps) == multiset(s)
  {
    if ps != [] {
      var front, last := ps[..|ps| - 1], ps[|ps| - 1];
      assert ps == front + [last];
      if last in front {
        assert forall p :: p in s ==> p in front;
        SetNoLarger(front, s);
        assert false;
      } else {
        CardOfSet(front, s - {last});
        assert multiset(s) == multiset(s - {last}) + multiset{last};
      }
    } else {
      assert s == {};
    }
  }

  lemma {:induction false} SetNoLarger(ps: seq<Pair>, s: set<Pair>)
    requires forall p :: p in s ==> p in ps
    ensures |s| <= |ps|
  {
    if ps != [] {
      SetNoLarger(ps[1..], s - {ps[0]});
    }
  }

  lemma ItemsSize(m: map<string, string>)
    ensures |Items(m)| <= |m|
    ensures (forall name :: name in m ==> Usable(m, name)) ==> |Items(m)| == |m|
  {
    var usable := set name | name in m && Usable(m, name);
    NamesOfItems(m, usable);
    assert Items(m) == set n | n in usable :: Pair(n, m[n]);
    SubsetSize(usable, m.Keys);
    if forall name :: name in m ==> Usable(m, name) {
      assert usable == m.Keys;
    }
  }

  lemma SubsetSize(a: set<string>, b: set<string>)
    requires a <= b
    ensures |a| <= |b|
  {
    assert b == a + (b - a);
  }

  lemma {:induction false} NamesOfItems(m: map<string, string>, names: set<string>)
    requires forall n :: n in names ==> n in m
    ensures |set n | n in names :: Pair(n, m[n])| == |names|
  {
    var items := set n | n in names :: Pair(n, m[n]);
    if names == {} {
      assert items == {};
    } else {
      var n :| n in names;
      NamesOfItems(m, names - {n});
      assert items == (set k | k in names - {n} :: Pair(k, m[k])) + {Pair(n, m[n])};
    }
  }

  lemma {:induction false} NotProxyPath(parts: seq<string>)
    ensures forall p :: p in Parsed(parts) ==> p.name != PROXY_PATH
  {
    hide ParsePart, TrimSpace;
    if parts != [] {
      NotProxyPath(parts[1..]);
    }
  }

  lemma {:induction false} NoProxyPath(headers: seq<string>)
    ensures forall p :: p in Cookies(headers) ==> p.name != PROXY_PATH
  {
    hide Parsed, Parts;
    if headers != [] {
      NotProxyPath(Parts(headers[0]));
      NoProxyPath(headers[1..]);
    }
  }

  lemma {:induction false} MapFromCookies(cookies: seq<Pair>)
    ensures forall name :: name in MapOf(cookies) ==> Pair(name, MapOf(cookies)[name]) in cookies
  {
    if cookies != [] {
      var front := cookies[..|cookies| - 1];
      MapFromCookies(front);
      assert cookies == front + [cookies[|cookies| - 1]];
    }
  }

  lemma ItemsAreSound(cookies: seq<Pair>, ps: seq<Pair>)
    requires AllSound(cookies) && multiset(ps) == multiset(Items(MapOf(cookies)))
    ensures AllSound(ps)
  {
    hide Sound, MapOf;
    MapFromCookies(cookies);
    forall i | 0 <= i < |ps| ensures Sound(ps[i]) {
      assert ps[i] in multiset(ps);
      assert ps[i] in cookies;
    }
  }

  /** The two multisets of pairs are the same exactly when no cookie is replaced. */
  lemma PairsAgree(cookies: seq<Pair>)
    requires AllSound(cookies) && forall p :: p in cookies ==> p.name != PROXY_PATH
    ensures AgreesWithMap(cookies) <==> NoneReplaced(cookies)
  {
    hide NoneReplaced, MapOf, WithValue, AllSound, Items, Usable;
    var m := MapOf(cookies);
    MapSize(cookies);
    ItemsSize(m);
    if NoneReplaced(cookies) {
      UsableCookies(cookies);
      AllUsable(cookies);
      CardOfSet(WithValue(cookies), Items(m));
    }
    if AgreesWithMap(cookies) {
      assert |multiset(WithValue(cookies))| == |multiset(Items(m))|;
    }
  }

  lemma AllUsable(cookies: seq<Pair>)
    requires AllSound(cookies) && (forall p :: p in cookies ==> p.name != PROXY_PATH)
    requires Mirrors(cookies, MapOf(cookies))
    ensures forall name :: name in MapOf(cookies) ==> Usable(MapOf(cookies), name)
  {
    hide MapOf, WithValue, AllSound;
    var m := MapOf(cookies);
    UsableCookies(cookies);
    forall name | name in m ensures Usable(m, name) {
      assert Pair(name, m[name]) in WithValue(cookies);
      assert Pair(name, m[name]) in Items(m);
    }
  }

  /** Main result: the map form of the identity is the pair form if and only if no cookie that
      had a value is followed by another one of its name; always, when the names are distinct. */
  lemma FormsAgree(headers: seq<string>, ps: seq<Pair>)
    requires multiset(ps) == multiset(Items(CookieMap(headers)))
    ensures Join(Sorted(ps)) == Identity(headers)
            <==> PartCount(headers) > 3000 || NoneReplaced(Cookies(headers))
  {
    hide NoneReplaced, MapOf, WithValue, AllSound, Sorted, Join, Cookies, PartCount;
    var cookies := Cookies(headers);
    if PartCount(headers) > MAX_COOKIES {
      assert |multiset(ps)| == 0;
    } else {
      CookiesAreSound(headers);
      NoProxyPath(headers);
      PairsAgree(cookies);
      ItemsAreSound(cookies, ps);
      AcceptedAreSound(headers);
      SortedAreSound(ps);
      SortedAreSound(Accepted(headers));
      SortedIsCanonical(ps, Accepted(headers));
      if Join(Sorted(ps)) == Identity(headers) {
        JoinInjective(Sorted(ps), Sorted(Accepted(headers)));
      }
    }
  }
}
