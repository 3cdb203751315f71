/** The keys under which the authentication caches store (pkg/proxy/auth_cache.go:135-347). */
module CacheKeys {
  // A key is the hash of a text of fields joined by line breaks, the first of which is the hash
  // of what identifies the client: its cookies, its Authorization header or its address. So
  // equal keys have equal identities, unless the hash collides on a text that was hashed.

  import opened Bytes
  import opened Decimal
  import opened AuthCache
  import opened AuthCacheHistory
  import CookieIdentity
  import CookieLaws

  const DIGEST := 64

  type Hash = string -> string

  /** A digest is sixty-four hexadecimal digits. */
  ghost predicate Hex(hash: Hash) {
    forall x: string :: |hash(x)| == DIGEST && '\n' !in hash(x)
  }

  datatype Kind = AuthKey | PreflightKey

  datatype URL = URL(opaque_: string, scheme: string, path: string, forceQuery: bool, query: string)

  /** A request as the lookups see it; access mode, scheme, method and host are normalised. */
  datatype Ask = Ask(
    cookies: seq<string>,
    authorization: string,
    clientIP: string,
    accessMode: string,
    scheme: string,
    verb: string,
    host: string,
    matched: bool,
    url: URL)

  // ------------------------------------------------------------------
  // Identities
  // ------------------------------------------------------------------

  const COOKIE := "cookie:"
  const AUTH := "auth:"
  const IP := "ip:"

  /** What identifies the client. */
  datatype Client = ByCookies(text: string) | ByAuthorization(value: string) | ByAddress(ip: string)

  /** requestIdentityForCache: cookies first, then the Authorization header, then the address. */
  function ClientOf(ask: Ask): Option<Client> {
    if CookieIdentity.Accepted(ask.cookies) != [] then Some(ByCookies(CookieIdentity.Identity(ask.cookies)))
    else if TrimSpace(ask.authorization) != "" then Some(ByAuthorization(TrimSpace(ask.authorization)))
    else if TrimSpace(ask.clientIP) != "" then Some(ByAddress(TrimSpace(ask.clientIP)))
    else None
  }

  function Source(client: Client): string {
    match client
    case ByCookies(text) => COOKIE + text
    case ByAuthorization(value) => AUTH + value
    case ByAddress(ip) => IP + ip
  }

  /** A client known by its address needs no second field for it. */
  function Dimension(client: Client, ask: Ask): string {
    if client.ByAddress? then "" else TrimSpace(ask.clientIP)
  }

  /** The text determines what identifies the client. */
  lemma SourceInjective(a: Client, b: Client)
    ensures Source(a) == Source(b) <==> a == b
  {
    if Source(a) == Source(b) {
      assert Source(a)[0] == Source(b)[0];
      var n := match a case ByCookies(_) => |COOKIE| case ByAuthorization(_) => |AUTH| case ByAddress(_) => |IP|;
      assert Source(a)[n..] == Source(b)[n..];
    }
  }

  // ------------------------------------------------------------------
  // Keys
  // ------------------------------------------------------------------

  function Joined(fields: seq<string>): string {
    if fields == [] then ""
    else if |fields| == 1 then fields[0]
    else fields[0] + "\n" + Joined(fields[1..])
  }

  /** appendURLRequestURI */
  function RequestURI(url: URL): string {
    (if url.opaque_ == "" then if url.path == "" then "/" else url.path
     else if HasPrefix(url.opaque_, "//") then url.scheme + ":" + url.opaque_
     else url.opaque_)
    + if url.forceQuery || url.query != "" then "?" + url.query else ""
  }

  function BoolField(b: bool): string {
    if b then "true" else "false"
  }

  /** The fields behind the identity. */
  function OtherFields(kind: Kind, client: Client, ask: Ask): seq<string> {
    match kind
    case AuthKey =>
      [Dimension(client, ask), ask.accessMode, ask.scheme, ask.verb, ask.host, RequestURI(ask.url)]
    case PreflightKey =>
      [Dimension(client, ask), ask.accessMode, ask.scheme, ask.host, BoolField(ask.matched), RequestURI(ask.url)]
  }

  function KeyText(hash: Hash, kind: Kind, client: Client, ask: Ask): string {
    Joined([hash(Source(client))] + OtherFields(kind, client, ask))
  }

  /** appendCacheKeyField */
  function AppendField(buf: string, field: string): string {
    if |buf| > 0 then buf + "\n" + field else buf + field
  }

  lemma JoinedAppend(fields: seq<string>, field: string)
    requires fields != [] && fields[0] != ""
    ensures AppendField(Joined(fields), field) == Joined(fields + [field]) && Joined(fields) != ""
  {
    JoinedMore(fields, field);
    if |fields| > 1 {
      assert |Joined(fields)| >= |fields[0]|;
    }
  }

  lemma {:induction false} JoinedMore(fields: seq<string>, field: string)
    requires fields != []
    ensures Joined(fields + [field]) == Joined(fields) + "\n" + field
    decreases |fields|
  {
    var more := fields + [field];
    if |fields| == 1 {
      assert more[1..] == [field];
    } else {
      assert more[1..] == fields[1..] + [field];
      JoinedMore(fields[1..], field);
      assert fields[0] + "\n" + (Joined(fields[1..]) + "\n" + field)
        == fields[0] + "\n" + Joined(fields[1..]) + "\n" + field;
    }
  }

  lemma OneField(field: string)
    ensures AppendField("", field) == Joined([field])
  {
  }

  lemma NextField(fields: seq<string>, field: string, more: seq<string>)
    requires fields != [] && fields[0] != "" && more == fields + [field]
    ensures AppendField(Joined(fields), field) == Joined(more)
  {
    hide Joined, AppendField;
    JoinedAppend(fields, field);
  }

  /** authCacheLookupKey, with verb and host, and preflightCacheLookupKey, with host and match flag:
      one buffer, field after field. */
  method LookupKey(hash: Hash, identity: string, dimension: string, accessMode: string, scheme: string,
                   fifth: string, sixth: string, url: URL)
    returns (key: string)
    ensures identity != "" ==>
              key == hash(Joined([identity, dimension, accessMode, scheme, fifth, sixth, RequestURI(url)]))
  {
    hide Joined, AppendField, RequestURI;
    var uri := RequestURI(url);
    var buf := AppendField("", identity);
    buf := AppendField(buf, dimension);
    buf := AppendField(buf, accessMode);
    buf := AppendField(buf, scheme);
    buf := AppendField(buf, fifth);
    buf := AppendField(buf, sixth);
    buf := AppendField(buf, uri);
    if identity != "" {
      SevenFields(identity, dimension, accessMode, scheme, fifth, sixth, uri);
    }
    return hash(buf);
  }

  lemma SevenFields(a: string, b: string, c: string, d: string, e: string, f: string, g: string)
    requires a != ""
    ensures var abcd := AppendField(AppendField(AppendField(AppendField("", a), b), c), d);
            AppendField(AppendField(AppendField(abcd, e), f), g) == Joined([a, b, c, d, e, f, g])
  {
    hide Joined, AppendField;
    OneField(a);
    NextField([a], b, [a, b]);
    NextField([a, b], c, [a, b, c]);
    NextField([a, b, c], d, [a, b, c, d]);
    NextField([a, b, c, d], e, [a, b, c, d, e]);
    NextField([a, b, c, d, e], f, [a, b, c, d, e, f]);
    NextField([a, b, c, d, e, f], g, [a, b, c, d, e, f, g]);
  }

  datatype Lookup = Lookup(key: string, identity: string)

  /** The key and the identity of a request; none when nothing identifies it. */
  function LookupOf(hash: Hash, kind: Kind, ask: Ask): Option<Lookup> {
    if ClientOf(ask) == None then None
    else Some(Lookup(hash(KeyText(hash, kind, ClientOf(ask).value, ask)), hash(Source(ClientOf(ask).value))))
  }

  /** requestIdentityForCache */
  method IdentityForCache(hash: Hash, ask: Ask) returns (r: Option<(string, string)>)
    ensures r == if ClientOf(ask) == None then None
                 else Some((hash(Source(ClientOf(ask).value)), Dimension(ClientOf(ask).value, ask)))
  {
    hide CookieIdentity.Accepted, CookieIdentity.Identity, TrimSpace;
    var cookies := CookieIdentity.CanonicalCookieIdentity(ask.cookies);
    NoText(ask.cookies);
    if cookies != "" {
      return Some((hash(COOKIE + cookies), TrimSpace(ask.clientIP)));
    }
    var auth := TrimSpace(ask.authorization);
    if auth != "" {
      return Some((hash(AUTH + auth), TrimSpace(ask.clientIP)));
    }
    var ip := TrimSpace(ask.clientIP);
    if ip != "" {
      return Some((hash(IP + ip), ""));
    }
    return None;
  }

  /** The cookies give no text exactly when no pair is accepted. */
  lemma NoText(headers: seq<string>)
    ensures CookieIdentity.Identity(headers) == "" <==> CookieIdentity.Accepted(headers) == []
  {
    hide CookieIdentity.Accepted, CookieIdentity.Sorted;
    var pairs := CookieIdentity.Accepted(headers);
    CookieIdentity.SortedIsOrdered(pairs);
    assert |pairs| == |multiset(pairs)| == |multiset(CookieIdentity.Sorted(pairs))|;
  }

  /** buildAuthCacheLookup and buildPreflightCacheLookup */
  method BuildLookup(hash: Hash, kind: Kind, ask: Ask) returns (r: Option<Lookup>)
    requires Hex(hash)
    ensures r == LookupOf(hash, kind, ask)
  {
    hide Joined, Source, ClientOf, RequestURI;
    var identity := IdentityForCache(hash, ask);
    if identity == None {
      return None;
    }
    var (id, dimension) := identity.value;
    assert |id| == DIGEST;
    ghost var others := OtherFields(kind, ClientOf(ask).value, ask);
    var key;
    match kind {
      case AuthKey =>
        assert [id] + others
          == [id, dimension, ask.accessMode, ask.scheme, ask.verb, ask.host, RequestURI(ask.url)];
        key := LookupKey(hash, id, dimension, ask.accessMode, ask.scheme, ask.verb, ask.host, ask.url);
      case PreflightKey =>
        assert [id] + others
          == [id, dimension, ask.accessMode, ask.scheme, ask.host, BoolField(ask.matched), RequestURI(ask.url)];
        key := LookupKey(hash, id, dimension, ask.accessMode, ask.scheme, ask.host, BoolField(ask.matched), ask.url);
    }
    return Some(Lookup(key, id));
  }

  // ------------------------------------------------------------------
  // What a key determines
  // ------------------------------------------------------------------

  lemma JoinedFirst(first: string, rest: seq<string>)
    requires rest != []
    ensures Joined([first] + rest) == first + "\n" + Joined(rest)
  {
    assert ([first] + rest)[1..] == rest;
  }

  /** Fields without line breaks, but for the last one, are determined by the text. */
  lemma {:induction false} JoinedInjective(a: seq<string>, b: seq<string>)
    requires |a| == |b| && forall i :: 0 <= i < |a| - 1 ==> '\n' !in a[i] && '\n' !in b[i]
    ensures Joined(a) == Joined(b) <==> a == b
    decreases |a|
  {
    if |a| > 1 && Joined(a) == Joined(b) {
      var s, t := a[0] + ['\n'] + Joined(a[1..]), b[0] + ['\n'] + Joined(b[1..]);
      assert s == Joined(a) == Joined(b) == t;
      FirstIndexSplit(a[0], '\n', Joined(a[1..]));
      FirstIndexSplit(b[0], '\n', Joined(b[1..]));
      FirstIndexNone(a[0], '\n');
      FirstIndexNone(b[0], '\n');
      assert s[..|a[0]|] == a[0] && t[..|b[0]|] == b[0];
      assert s[|a[0]| + 1..] == Joined(a[1..]) && t[|b[0]| + 1..] == Joined(b[1..]);
      JoinedInjective(a[1..], b[1..]);
      assert a == [a[0]] + a[1..] && b == [b[0]] + b[1..];
    }
  }

  /** The text of a key starts with the identity. */
  lemma TextKeepsIdentity(hash: Hash, kind: Kind, c: Client, ask: Ask, d: Client, other: Ask)
    requires Hex(hash) && KeyText(hash, kind, c, ask) == KeyText(hash, kind, d, other)
    ensures hash(Source(c)) == hash(Source(d))
    ensures Joined(OtherFields(kind, c, ask)) == Joined(OtherFields(kind, d, other))
  {
    hide Joined, OtherFields, Source;
    HasOtherFields(kind, c, ask);
    HasOtherFields(kind, d, other);
    var a, b := hash(Source(c)), hash(Source(d));
    var s, t := Joined(OtherFields(kind, c, ask)), Joined(OtherFields(kind, d, other));
    JoinedFirst(a, OtherFields(kind, c, ask));
    JoinedFirst(b, OtherFields(kind, d, other));
    assert |a| == DIGEST && |b| == DIGEST;
    assert (a + "\n" + s)[..DIGEST] == a && (b + "\n" + t)[..DIGEST] == b;
    assert (a + "\n" + s)[DIGEST + 1..] == s && (b + "\n" + t)[DIGEST + 1..] == t;
  }

  lemma HasOtherFields(kind: Kind, c: Client, ask: Ask)
    ensures |OtherFields(kind, c, ask)| == 6
  {
  }

  /** The hash does not take two texts to one digest. */
  predicate Apart(hash: Hash, s: string, t: string) {
    hash(s) == hash(t) ==> s == t
  }

  /** No field but the request URI has a line break. */
  predicate NoBreaks(kind: Kind, c: Client, ask: Ask) {
    var fields := OtherFields(kind, c, ask);
    forall i :: 0 <= i < |fields| - 1 ==> '\n' !in fields[i]
  }

  /** Two requests of a client agree in what the cache distinguishes besides: the address, unless it
      is what identifies the client, access mode, scheme, host and request URI, and the method in one
      cache and whether the request matched a rule in the other. */
  predicate SameFields(kind: Kind, c: Client, ask: Ask, other: Ask) {
    && (c.ByAddress? || TrimSpace(ask.clientIP) == TrimSpace(other.clientIP))
    && ask.accessMode == other.accessMode && ask.scheme == other.scheme && ask.host == other.host
    && RequestURI(ask.url) == RequestURI(other.url)
    && (kind == AuthKey ==> ask.verb == other.verb)
    && (kind == PreflightKey ==> ask.matched == other.matched)
  }

  lemma FieldsExactly(kind: Kind, c: Client, ask: Ask, other: Ask)
    ensures OtherFields(kind, c, ask) == OtherFields(kind, c, other) <==> SameFields(kind, c, ask, other)
  {
    hide TrimSpace, RequestURI;
    var a, b := OtherFields(kind, c, ask), OtherFields(kind, c, other);
    if a == b {
      assert a[0] == b[0] && a[1] == b[1] && a[2] == b[2] && a[3] == b[3] && a[4] == b[4] && a[5] == b[5];
      assert "true"[0] != "false"[0];
    }
  }

  /** Without an opaque part, and when the paths hold no question mark, the URI tells the path and the
      whole query. */
  lemma URIExactly(a: URL, b: URL)
    requires a.opaque_ == "" && b.opaque_ == "" && '?' !in a.path && '?' !in b.path
    ensures RequestURI(a) == RequestURI(b) <==>
            && (if a.path == "" then "/" else a.path) == (if b.path == "" then "/" else b.path)
            && (a.forceQuery || a.query != "" <==> b.forceQuery || b.query != "")
            && a.query == b.query
  {
    PathAndQuery(a);
    PathAndQuery(b);
    hide RequestURI, FirstIndex;
  }

  lemma PathAndQuery(url: URL)
    requires url.opaque_ == "" && '?' !in url.path
    ensures var path, uri := if url.path == "" then "/" else url.path, RequestURI(url);
            if url.forceQuery || url.query != "" then
              FirstIndex(uri, '?') == |path| < |uri| && uri[..|path|] == path && uri[|path| + 1..] == url.query
            else FirstIndex(uri, '?') == -1 && uri == path && url.query == ""
  {
    hide FirstIndex;
    var path, uri := if url.path == "" then "/" else url.path, RequestURI(url);
    FirstIndexNone(path, '?');
    if url.forceQuery || url.query != "" {
      assert uri == path + ['?'] + url.query;
      FirstIndexSplit(path, '?', url.query);
    } else {
      assert uri == path + "" == path;
    }
  }

  /** What identifies a client tells its accepted cookies, or else its Authorization header, or else
      its address. */
  lemma ClientTells(ask: Ask, other: Ask)
    requires ClientOf(ask).Some? && ClientOf(ask) == ClientOf(other)
    ensures multiset(CookieIdentity.Accepted(ask.cookies)) == multiset(CookieIdentity.Accepted(other.cookies))
    ensures CookieIdentity.Accepted(ask.cookies) == [] ==>
              && TrimSpace(ask.authorization) == TrimSpace(other.authorization)
              && (TrimSpace(ask.authorization) == "" ==> TrimSpace(ask.clientIP) == TrimSpace(other.clientIP))
  {
    hide CookieIdentity.Accepted, CookieIdentity.Identity, TrimSpace;
    if CookieIdentity.Accepted(ask.cookies) != [] {
      CookieLaws.SameIdentity(ask.cookies, other.cookies);
    }
  }

  /** Main result: unless the hash collides on their texts, two requests have the same key exactly
      when they come from the same client and agree in all other fields of the key. */
  lemma SameKey(hash: Hash, kind: Kind, c: Client, ask: Ask, d: Client, other: Ask)
    requires Hex(hash) && NoBreaks(kind, c, ask) && NoBreaks(kind, d, other)
    requires Apart(hash, KeyText(hash, kind, c, ask), KeyText(hash, kind, d, other))
    requires Apart(hash, Source(c), Source(d))
    ensures hash(KeyText(hash, kind, c, ask)) == hash(KeyText(hash, kind, d, other))
            <==> c == d && SameFields(kind, c, ask, other)
  {
    hide Joined, OtherFields, Source;
    if c == d {
      FieldsExactly(kind, c, ask, other);
    }
    if hash(KeyText(hash, kind, c, ask)) == hash(KeyText(hash, kind, d, other)) {
      TextKeepsIdentity(hash, kind, c, ask, d, other);
      SourceInjective(c, d);
      HasOtherFields(kind, c, ask);
      HasOtherFields(kind, d, other);
      JoinedInjective(OtherFields(kind, c, ask), OtherFields(kind, d, other));
    }
  }

  /** Clients known by their cookies are the same exactly when the accepted pairs are. */
  lemma SameCookieClient(ask: Ask, other: Ask)
    requires CookieIdentity.Accepted(ask.cookies) != [] && CookieIdentity.Accepted(other.cookies) != []
    ensures ClientOf(ask) == ClientOf(other)
            <==> multiset(CookieIdentity.Accepted(ask.cookies)) == multiset(CookieIdentity.Accepted(other.cookies))
  {
    hide CookieIdentity.Accepted, CookieIdentity.Identity;
    CookieLaws.SameIdentity(ask.cookies, other.cookies);
  }

  // ------------------------------------------------------------------
  // Runs of requests
  // ------------------------------------------------------------------

  datatype RequestOp<V> =
    | Store(ask: Ask, value: V, expiresAt: int, now: int)
    | Get(ask: Ask, now: int)
    | Delete(ask: Ask)
    | Invalidate(ids: seq<string>)
    | Clear

  /** The cache operation of a request; a request that nothing identifies has none. */
  function OpOf<V>(hash: Hash, kind: Kind, r: RequestOp<V>): Option<Op<V>> {
    match r
    case Invalidate(ids) => Some(Op.Invalidate(ids))
    case Clear => Some(Op.Clear)
    case _ =>
      match LookupOf(hash, kind, r.ask)
      case None => None
      case Some(lookup) =>
        match r
        case Store(_, value, expiresAt, now) =>
          Some(Op.Store(lookup.key, Entry(value, expiresAt, lookup.identity), now))
        case Get(_, now) => Some(Op.Get(lookup.key, now))
        case Delete(_) => Some(Op.Delete(lookup.key))
  }

  function OpsOf<V>(hash: Hash, kind: Kind, rs: seq<RequestOp<V>>): seq<Op<V>> {
    if rs == [] then []
    else
      var front, op := OpsOf(hash, kind, rs[..|rs| - 1]), OpOf(hash, kind, rs[|rs| - 1]);
      if op.Some? then front + [op.value] else front
  }

  /** The request stores, under the key with that text. */
  predicate StoresText<V>(hash: Hash, kind: Kind, r: RequestOp<V>, text: string) {
    r.Store? && ClientOf(r.ask).Some? && text == KeyText(hash, kind, ClientOf(r.ask).value, r.ask)
  }

  /** The hash does not take a text under which the run stores and the given one to one digest. */
  ghost predicate NoCollision<V>(hash: Hash, kind: Kind, rs: seq<RequestOp<V>>, text: string) {
    forall i, t :: 0 <= i < |rs| && StoresText(hash, kind, rs[i], t) ==> Apart(hash, t, text)
  }

  ghost predicate NoCollisions<V>(hash: Hash, kind: Kind, rs: seq<RequestOp<V>>) {
    forall j, t :: 0 <= j < |rs| && StoresText(hash, kind, rs[j], t) ==> NoCollision(hash, kind, rs, t)
  }

  lemma {:induction false} OpsOfAt<V>(hash: Hash, kind: Kind, rs: seq<RequestOp<V>>, k: nat) returns (i: nat)
    requires k < |OpsOf(hash, kind, rs)|
    ensures i < |rs| && OpOf(hash, kind, rs[i]) == Some(OpsOf(hash, kind, rs)[k])
  {
    hide OpOf;
    var front := rs[..|rs| - 1];
    if k < |OpsOf(hash, kind, front)| {
      i := OpsOfAt(hash, kind, front, k);
    } else {
      i := |rs| - 1;
    }
  }

  /** A store of a run, and the request it comes from. */
  lemma StoreAt<V>(hash: Hash, kind: Kind, rs: seq<RequestOp<V>>, k: nat) returns (i: nat)
    requires k < |OpsOf(hash, kind, rs)| && OpsOf(hash, kind, rs)[k].Store?
    ensures i < |rs| && rs[i].Store? && LookupOf(hash, kind, rs[i].ask).Some?
    ensures var lookup := LookupOf(hash, kind, rs[i].ask).value;
            OpsOf(hash, kind, rs)[k]
            == Op.Store(lookup.key, Entry(rs[i].value, rs[i].expiresAt, lookup.identity), rs[i].now)
  {
    hide OpsOf, LookupOf;
    i := OpsOfAt(hash, kind, rs, k);
  }

  /** Two requests with the same key have the same identity. */
  lemma SameIdentity(hash: Hash, kind: Kind, c: Client, ask: Ask, d: Client, other: Ask)
    requires Hex(hash) && Apart(hash, KeyText(hash, kind, c, ask), KeyText(hash, kind, d, other))
    requires hash(KeyText(hash, kind, c, ask)) == hash(KeyText(hash, kind, d, other))
    ensures hash(Source(c)) == hash(Source(d))
  {
    hide KeyText, Source;
    TextKeepsIdentity(hash, kind, c, ask, d, other);
  }

  /** The identity last stored under a key. */
  function IdentityStored<V>(ops: seq<Op<V>>, key: string): string {
    if ops == [] then ""
    else if ops[|ops| - 1].Store? && ops[|ops| - 1].key == key then ops[|ops| - 1].entry.identity
    else IdentityStored(ops[..|ops| - 1], key)
  }

  lemma {:induction false} IdentityStoredAt<V>(ops: seq<Op<V>>, i: nat) returns (j: nat)
    requires i < |ops| && ops[i].Store?
    ensures j < |ops| && ops[j].Store? && ops[j].key == ops[i].key
    ensures IdentityStored(ops, ops[i].key) == ops[j].entry.identity
  {
    var last := |ops| - 1;
    if ops[last].Store? && ops[last].key == ops[i].key {
      j := last;
    } else {
      j := IdentityStoredAt(ops[..last], i);
    }
  }

  /** Main result: in every run of requests the keys determine the identities. */
  lemma KeysDetermine<V>(hash: Hash, kind: Kind, rs: seq<RequestOp<V>>)
    requires Hex(hash) && NoCollisions(hash, kind, rs)
    ensures var ops := OpsOf(hash, kind, rs); Determined(ops, k => IdentityStored(ops, k))
  {
    hide OpsOf, IdentityStored, KeyText, Source, ClientOf, Apart;
    var ops := OpsOf(hash, kind, rs);
    forall i | 0 <= i < |ops| && ops[i].Store?
      ensures ops[i].entry.identity == IdentityStored(ops, ops[i].key)
    {
      var j := IdentityStoredAt(ops, i);
      var m := StoreAt(hash, kind, rs, i);
      var n := StoreAt(hash, kind, rs, j);
      var c, d := ClientOf(rs[m].ask).value, ClientOf(rs[n].ask).value;
      assert StoresText(hash, kind, rs[m], KeyText(hash, kind, c, rs[m].ask));
      assert StoresText(hash, kind, rs[n], KeyText(hash, kind, d, rs[n].ask));
      assert NoCollision(hash, kind, rs, KeyText(hash, kind, d, rs[n].ask));
      SameIdentity(hash, kind, c, rs[m].ask, d, rs[n].ask);
    }
  }

  lemma {:induction false} LiveIsStored<V>(ops: seq<Op<V>>, key: string) returns (i: nat)
    requires Live(ops, key).Some?
    ensures i < |ops| && ops[i].Store? && ops[i].key == key && Live(ops, key) == Some(ops[i].entry)
  {
    var front, last := ops[..|ops| - 1], ops[|ops| - 1];
    if last.Store? && last.key == key {
      i := |ops| - 1;
    } else {
      i := LiveIsStored(front, key);
    }
  }

  /** The request at `i` stored the entry, for a request with the same key text. */
  ghost predicate MadeFor<V>(hash: Hash, kind: Kind, rs: seq<RequestOp<V>>, i: nat, ask: Ask, e: Entry<V>)
    requires ClientOf(ask).Some?
  {
    && i < |rs| && StoresText(hash, kind, rs[i], KeyText(hash, kind, ClientOf(ask).value, ask))
    && e == Entry(rs[i].value, rs[i].expiresAt, hash(Source(ClientOf(ask).value)))
  }

  /** Main result: in every run of requests, whatever their keys, a lookup hits exactly when the latest
      store under its key is unexpired and not since deleted, invalidated or cleared; and what it
      returns was stored by a request with the same text of fields, identity first. */
  lemma RequestsHit<V>(hash: Hash, kind: Kind, rs: seq<RequestOp<V>>, ask: Ask, now: int)
    requires Hex(hash) && NoCollisions(hash, kind, rs) && Ordered(OpsOf(hash, kind, rs), now)
    requires ClientOf(ask).Some? && NoCollision(hash, kind, rs, KeyText(hash, kind, ClientOf(ask).value, ask))
    ensures var key := LookupOf(hash, kind, ask).value.key;
            var live, found := Live(OpsOf(hash, kind, rs), key), Found(Run(OpsOf(hash, kind, rs)), key, now);
            && found == (if live.Some? && now < live.value.expiresAt then live else None)
            && (found.Some? ==> exists i: nat :: MadeFor(hash, kind, rs, i, ask, found.value))
  {
    hide OpsOf, IdentityStored, KeyText, Source, ClientOf, Apart, Live, Run, Determined, Ordered, Found;
    var ops, c := OpsOf(hash, kind, rs), ClientOf(ask).value;
    var text := KeyText(hash, kind, c, ask);
    KeysDetermine(hash, kind, rs);
    HitsExactly(ops, k => IdentityStored(ops, k), hash(text), now);
    if Live(ops, hash(text)).Some? {
      var k := LiveIsStored(ops, hash(text));
      var i := StoreAt(hash, kind, rs, k);
      var d := ClientOf(rs[i].ask).value;
      assert StoresText(hash, kind, rs[i], KeyText(hash, kind, d, rs[i].ask));
      assert Apart(hash, KeyText(hash, kind, d, rs[i].ask), text);
      assert KeyText(hash, kind, d, rs[i].ask) == text by {
        ApartMeans(hash, KeyText(hash, kind, d, rs[i].ask), text);
      }
      SameIdentity(hash, kind, d, rs[i].ask, c, ask);
      assert MadeFor(hash, kind, rs, i, ask, ops[k].entry);
    }
  }

  /** So an answer from the cache was made for the same client and the same other fields. */
  lemma HitIsOwn<V>(hash: Hash, kind: Kind, rs: seq<RequestOp<V>>, i: nat, ask: Ask, e: Entry<V>)
    requires Hex(hash) && ClientOf(ask).Some? && MadeFor(hash, kind, rs, i, ask, e)
    requires var c, d := ClientOf(ask).value, ClientOf(rs[i].ask).value;
             NoBreaks(kind, c, ask) && NoBreaks(kind, d, rs[i].ask) && Apart(hash, Source(d), Source(c))
    ensures ClientOf(rs[i].ask) == ClientOf(ask)
    ensures SameFields(kind, ClientOf(ask).value, rs[i].ask, ask)
  {
    hide KeyText, Source, ClientOf, OtherFields, NoBreaks, SameFields;
    SameKey(hash, kind, ClientOf(rs[i].ask).value, rs[i].ask, ClientOf(ask).value, ask);
  }

  lemma ApartMeans(hash: Hash, s: string, t: string)
    requires Apart(hash, s, t) && hash(s) == hash(t)
    ensures s == t
  {
  }

  /** In every run of requests an invalidation removes all entries of the identities and no others. */
  lemma RequestsInvalidated<V>(hash: Hash, kind: Kind, rs: seq<RequestOp<V>>, now: int, ids: seq<string>)
    requires Hex(hash) && NoCollisions(hash, kind, rs) && Ordered(OpsOf(hash, kind, rs), now)
    ensures var before := Run(OpsOf(hash, kind, rs));
            var after := Run(OpsOf(hash, kind, rs + [RequestOp.Invalidate(ids)]));
            forall k :: k in after.entries <==>
              k in before.entries && (before.entries[k].identity == "" || before.entries[k].identity !in ids)
  {
    hide OpOf, IdentityStored, Run, Determined, Ordered;
    var ops, more := OpsOf(hash, kind, rs), rs + [RequestOp<V>.Invalidate(ids)];
    KeysDetermine(hash, kind, rs);
    InvalidationIsExact(ops, k => IdentityStored(ops, k), now, ids);
    assert more[..|rs|] == rs;
    InvalidateOp<V>(hash, kind, ids);
  }

  lemma InvalidateOp<V>(hash: Hash, kind: Kind, ids: seq<string>)
    ensures OpOf(hash, kind, RequestOp<V>.Invalidate(ids)) == Some(Op.Invalidate(ids))
  {
  }
}
