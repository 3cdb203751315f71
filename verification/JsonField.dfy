/** The JSON member scanner of the log queries (pkg/gatewaylog/manager.go). */
module JsonField {
  // rawJSONFieldValue and its helpers find a top-level member of a log line without decoding
  // it. They are proved against the JSON grammar of sections 4 and 7 of RFC 8259.

  import opened Bytes
  import D = Decimal

  // ------------------------------------------------------------------
  // The scanner, on the text that is left to read
  // ------------------------------------------------------------------

  predicate IsJsonSpace(c: char) {
    c == ' ' || c == '\n' || c == '\r' || c == '\t'
  }

  function SkipSpace(s: string): (t: string)
    ensures |t| <= |s| && t == s[|s| - |t|..]
    ensures t != "" ==> !IsJsonSpace(t[0])
  {
    if s != "" && IsJsonSpace(s[0]) then SkipSpace(s[1..]) else s
  }

  /** The text behind a string's closing quote; `s` starts inside the string. */
  function SkipString(s: string): (r: Option<string>)
    ensures r.Some? ==> |r.value| < |s| && r.value == s[|s| - |r.value|..]
    decreases |s|
  {
    if s == "" then None
    else if s[0] == '\\' then (if |s| == 1 then None else SkipString(s[2..]))
    else if s[0] == '"' then Some(s[1..])
    else SkipString(s[1..])
  }

  /** `s` starts at a quote: the text of the value, when this is the member `field`. */
  function ValueAt(s: string, field: string): (r: Option<string>)
    requires s != ""
  {
    var end := 1 + |field|;
    if end >= |s| || s[end] != '"' || s[1..end] != field then None
    else
      ValueBehind(SkipSpace(s[end + 1..]))
  }

  /** The value behind a colon. */
  function ValueBehind(colon: string): Option<string> {
    if colon == "" || colon[0] != ':' then None
    else
      var value := SkipSpace(colon[1..]);
      if value == "" then None else Some(value)
  }

  function Scan(s: string, field: string, depth: nat): Option<string>
    decreases |s|
  {
    if s == "" then None
    else if s[0] == '"' then
      var found := if depth == 1 then ValueAt(s, field) else None;
      if found.Some? then found
      else match SkipString(s[1..])
        case None => None
        case Some(rest) => Scan(rest, field, depth)
    else if s[0] == '{' || s[0] == '[' then Scan(s[1..], field, depth + 1)
    else if s[0] == '}' || s[0] == ']' then
      if depth == 0 then None else Scan(s[1..], field, depth - 1)
    else Scan(s[1..], field, depth)
  }

  // ------------------------------------------------------------------
  // The loops
  // ------------------------------------------------------------------

  lemma SkipSpaceStep(line: string, j: nat)
    requires j <= |line|
    ensures SkipSpace(line[j..]) == if j < |line| && IsJsonSpace(line[j]) then SkipSpace(line[j + 1..]) else line[j..]
  {
    hide IsJsonSpace;
    if j < |line| {
      assert line[j..][1..] == line[j + 1..];
    }
  }

  /** The first position from `from` on that holds no JSON space. */
  method SkipSpaces(line: string, from: nat) returns (j: nat)
    requires from <= |line|
    ensures from <= j <= |line| && line[j..] == SkipSpace(line[from..])
  {
    hide SkipSpace, IsJsonSpace;
    j := from;
    while j < |line| && IsJsonSpace(line[j])
      invariant from <= j <= |line|
      invariant SkipSpace(line[j..]) == SkipSpace(line[from..])
    {
      SkipSpaceStep(line, j);
      j := j + 1;
    }
    SkipSpaceStep(line, j);
  }

  lemma {:induction false} SkipStringStep(line: string, i: nat)
    requires i < |line|
    ensures SkipString(line[i..]) ==
      if line[i] == '\\' then (if i + 1 == |line| then None else SkipString(line[i + 2..]))
      else if line[i] == '"' then Some(line[i + 1..])
      else SkipString(line[i + 1..])
  {
    assert line[i..][1..] == line[i + 1..];
    if i + 2 <= |line| {
      assert line[i..][2..] == line[i + 2..];
    }
  }

  /** skipJSONString */
  method SkipJSONString(line: string, quote: nat) returns (end: nat, ok: bool)
    requires quote < |line|
    ensures ok <==> SkipString(line[quote + 1..]).Some?
    ensures ok ==> quote < end < |line| && SkipString(line[quote + 1..]) == Some(line[end + 1..])
  {
    hide SkipString;
    var i := quote + 1;
    while i < |line|
      invariant quote < i
      invariant SkipString(line[quote + 1..]) == if i <= |line| then SkipString(line[i..]) else None
    {
      SkipStringStep(line, i);
      if line[i] == '\\' {
        i := i + 1;
      } else if line[i] == '"' {
        return i, true;
      }
      i := i + 1;
    }
    SkipStringEmpty();
    return |line|, false;
  }

  lemma SkipStringEmpty()
    ensures SkipString("") == None
  {
  }

  /** ValueAt by positions in the line. */
  lemma {:induction false} ValueAtLine(line: string, field: string, quote: nat)
    requires quote < |line|
    ensures var nameEnd := quote + 1 + |field|;
            ValueAt(line[quote..], field) ==
              if nameEnd >= |line| || line[nameEnd] != '"' || line[quote + 1..nameEnd] != field then None
              else ValueBehind(SkipSpace(line[nameEnd + 1..]))
  {
    hide SkipSpace;
    var s, nameEnd := line[quote..], quote + 1 + |field|;
    if nameEnd < |line| {
      assert s[1..1 + |field|] == line[quote + 1..nameEnd];
      assert s[2 + |field|..] == line[nameEnd + 1..];
    }
  }

  lemma ValueBehindLine(line: string, j: nat)
    requires j <= |line|
    ensures ValueBehind(line[j..]) ==
            if j == |line| || line[j] != ':' then None
            else if SkipSpace(line[j + 1..]) == "" then None
            else Some(SkipSpace(line[j + 1..]))
  {
    hide SkipSpace;
    if j < |line| {
      assert line[j..][1..] == line[j + 1..];
    }
  }

  /** rawJSONTopLevelFieldValueAt */
  method RawJSONTopLevelFieldValueAt(line: string, field: string, quote: nat) returns (r: Option<string>)
    requires quote < |line|
    ensures r == ValueAt(line[quote..], field)
  {
    hide SkipSpace, ValueAt, ValueBehind;
    ValueAtLine(line, field, quote);
    var nameStart := quote + 1;
    var nameEnd := nameStart + |field|;
    if nameEnd >= |line| || line[nameEnd] != '"' || line[nameStart..nameEnd] != field {
      return None;
    }
    r := ValueAfter(line, nameEnd + 1);
  }

  /** The text behind spaces, a colon and spaces. */
  method ValueAfter(line: string, from: nat) returns (r: Option<string>)
    requires from <= |line|
    ensures r == ValueBehind(SkipSpace(line[from..]))
  {
    hide SkipSpace, ValueBehind;
    var j := SkipSpaces(line, from);
    ValueBehindLine(line, j);
    if j >= |line| || line[j] != ':' {
      return None;
    }
    j := SkipSpaces(line, j + 1);
    if j >= |line| {
      return None;
    }
    return Some(line[j..]);
  }

  lemma ScanStep(line: string, field: string, i: nat, depth: nat)
    requires i < |line|
    ensures Scan(line[i..], field, depth) ==
            if line[i] == '"' then
              if depth == 1 && ValueAt(line[i..], field).Some? then ValueAt(line[i..], field)
              else if SkipString(line[i + 1..]).Some? then Scan(SkipString(line[i + 1..]).value, field, depth)
              else None
            else if line[i] == '{' || line[i] == '[' then Scan(line[i + 1..], field, depth + 1)
            else if line[i] == '}' || line[i] == ']' then
              if depth == 0 then None else Scan(line[i + 1..], field, depth - 1)
            else Scan(line[i + 1..], field, depth)
  {
    hide ValueAt, SkipString;
    assert line[i..][1..] == line[i + 1..];
  }

  lemma ScanNothing(field: string, depth: nat)
    ensures Scan("", field, depth) == None
  {
  }

  /** rawJSONFieldValue */
  method RawJSONFieldValue(line: string, field: string) returns (r: Option<string>)
    ensures r == Scan(line, field, 0)
  {
    hide ValueAt, SkipString, Scan;
    var depth := 0;
    var i := 0;
    assert line[0..] == line;
    while i < |line|
      invariant 0 <= i <= |line| && depth >= 0
      invariant Scan(line, field, 0) == Scan(line[i..], field, depth)
    {
      ScanStep(line, field, i, depth);
      if line[i] == '"' {
        if depth == 1 {
          var value := RawJSONTopLevelFieldValueAt(line, field, i);
          if value.Some? {
            return value;
          }
        }
        var end, ok := SkipJSONString(line, i);
        if !ok {
          return None;
        }
        i := end;
      } else if line[i] == '{' || line[i] == '[' {
        depth := depth + 1;
      } else if line[i] == '}' || line[i] == ']' {
        if depth == 0 {
          return None;
        }
        depth := depth - 1;
      }
      i := i + 1;
    }
    ScanNothing(field, depth);
    assert line[i..] == "";
    return None;
  }

  // ------------------------------------------------------------------
  // JSON texts: sections 2 to 7 of RFC 8259, with white space kept
  // ------------------------------------------------------------------

  datatype Json =
    | Scalar(text: string)                  // a number or a literal
    | Str(body: string)                     // a string, escapes unresolved
    | Arr(elements: Elements)
    | Obj(members: Members)

  datatype Elements =
    | NoElement(space: string)
    | LastElement(before: string, value: Json, after: string)
    | Element(before: string, value: Json, after: string, rest: Elements)

  datatype Members =
    | NoMember(space: string)
    | LastMember(before: string, name: string, colonBefore: string, colonAfter: string, value: Json, after: string)
    | Member(before: string, name: string, colonBefore: string, colonAfter: string, value: Json, after: string,
             rest: Members)

  function Quoted(body: string): string {
    "\"" + body + "\""
  }

  function Render(v: Json): string {
    match v
    case Scalar(text) => text
    case Str(body) => Quoted(body)
    case Arr(es) => "[" + RenderElements(es) + "]"
    case Obj(ms) => "{" + RenderMembers(ms) + "}"
  }

  function RenderElements(es: Elements): string {
    match es
    case NoElement(space) => space
    case LastElement(before, value, after) => before + (Render(value) + after)
    case Element(before, value, after, rest) => before + (Render(value) + (after + ("," + RenderElements(rest))))
  }

  function RenderMembers(ms: Members): string {
    match ms
    case NoMember(space) => space
    case LastMember(before, name, cb, ca, value, after) =>
      before + (Quoted(name) + (cb + (":" + (ca + (Render(value) + after)))))
    case Member(before, name, cb, ca, value, after, rest) =>
      before + (Quoted(name) + (cb + (":" + (ca + (Render(value) + (after + ("," + RenderMembers(rest))))))))
  }

  predicate IsSpace(s: string) {
    forall k :: 0 <= k < |s| ==> s[k] in " \t\n\r"
  }

  /** Number and literal characters; none of them means anything to the scanner. */
  predicate IsScalarChar(c: char) {
    '0' <= c <= '9' || 'a' <= c <= 'z' || 'A' <= c <= 'Z' || c == '+' || c == '-' || c == '.'
  }

  /** Unescaped quotes and lone backslashes cannot occur in a string body. */
  predicate IsBody(s: string)
    decreases |s|
  {
    if s == "" then true
    else if s[0] == '"' then false
    else if s[0] == '\\' then |s| >= 2 && IsBody(s[2..])
    else IsBody(s[1..])
  }

  predicate WellFormed(v: Json) {
    match v
    case Scalar(text) => text != "" && forall k :: 0 <= k < |text| ==> IsScalarChar(text[k])
    case Str(body) => IsBody(body)
    case Arr(es) => WellFormedElements(es)
    case Obj(ms) => WellFormedMembers(ms)
  }

  predicate WellFormedElements(es: Elements) {
    match es
    case NoElement(space) => IsSpace(space)
    case LastElement(before, value, after) => IsSpace(before) && WellFormed(value) && IsSpace(after)
    case Element(before, value, after, rest) =>
      IsSpace(before) && WellFormed(value) && IsSpace(after) && WellFormedElements(rest)
  }

  predicate WellFormedMembers(ms: Members) {
    match ms
    case NoMember(space) => IsSpace(space)
    case LastMember(before, name, cb, ca, value, after) =>
      IsSpace(before) && IsBody(name) && IsSpace(cb) && IsSpace(ca) && WellFormed(value) && IsSpace(after)
    case Member(before, name, cb, ca, value, after, rest) =>
      IsSpace(before) && IsBody(name) && IsSpace(cb) && IsSpace(ca) && WellFormed(value) && IsSpace(after)
      && WellFormedMembers(rest)
  }

  /** A field the scanner is asked for: plain text (the source asks for `status` and `logged_in`). */
  predicate PlainField(field: string) {
    forall k :: 0 <= k < |field| ==> field[k] != '"' && field[k] != '\\'
  }

  // ------------------------------------------------------------------
  // Reading past one piece of text
  // ------------------------------------------------------------------

  lemma {:induction false} SkipSpaceOver(space: string, rest: string)
    requires IsSpace(space) && (rest != "" ==> !IsJsonSpace(rest[0]))
    ensures SkipSpace(space + rest) == rest
    decreases |space|
  {
    if space == "" {
      assert space + rest == rest;
    } else {
      assert (space + rest)[1..] == space[1..] + rest;
      SkipSpaceOver(space[1..], rest);
    }
  }

  /** Characters without a meaning for the scanner are passed over. */
  predicate Inert(s: string) {
    forall k :: 0 <= k < |s| ==> s[k] !in {'"', '{', '}', '[', ']'}
  }

  lemma {:induction false} ScanInert(s: string, rest: string, field: string, depth: nat)
    requires Inert(s)
    ensures Scan(s + rest, field, depth) == Scan(rest, field, depth)
    decreases |s|
  {
    if s == "" {
      assert s + rest == rest;
    } else {
      assert (s + rest)[1..] == s[1..] + rest;
      ScanInert(s[1..], rest, field, depth);
    }
  }

  lemma {:induction false} SkipStringOver(body: string, rest: string)
    requires IsBody(body)
    ensures SkipString(body + ("\"" + rest)) == Some(rest)
    decreases |body|
  {
    var s := body + ("\"" + rest);
    if body == "" {
      assert s == "\"" + rest;
      assert s[1..] == rest;
    } else if body[0] == '\\' {
      assert s[2..] == body[2..] + ("\"" + rest);
      SkipStringOver(body[2..], rest);
    } else {
      assert s[1..] == body[1..] + ("\"" + rest);
      SkipStringOver(body[1..], rest);
    }
  }

  /** A plain field ends at the string's own closing quote, or not at a quote at all. */
  lemma {:induction false} PlainPrefix(body: string, rest: string, field: string)
    requires IsBody(body) && PlainField(field)
    ensures var s := body + ("\"" + rest);
            |field| < |s| && s[..|field|] == field && s[|field|] == '"' <==> body == field
    decreases |field|
  {
    var s := body + ("\"" + rest);
    if body == "" {
      assert s[0] == '"';
    } else if field == "" {
      assert s[0] == body[0];
    } else if body[0] == '\\' {
      assert s[0] == body[0];
    } else {
      var s' := body[1..] + ("\"" + rest);
      assert s == [body[0]] + s';
      PlainPrefix(body[1..], rest, field[1..]);
      if |field| < |s| && s[..|field|] == field {
        assert s[..|field|][0] == field[0];
        assert s'[..|field| - 1] == s[..|field|][1..];
      }
      if body == field {
        assert s[..|field|] == field;
      }
    }
  }

  /** A quoted string is taken for the member `field` exactly when it spells the
      field and a colon and a value follow. */
  lemma {:induction false} ValueAtQuoted(body: string, rest: string, field: string)
    requires IsBody(body) && PlainField(field)
    ensures ValueAt(Quoted(body) + rest, field) ==
      var colon := SkipSpace(rest);
      if body == field && colon != "" && colon[0] == ':' && SkipSpace(colon[1..]) != ""
      then Some(SkipSpace(colon[1..])) else None
  {
    hide SkipSpace, IsBody;
    var s := Quoted(body) + rest;
    var inner := body + ("\"" + rest);
    assert s == "\"" + inner;
    PlainPrefix(body, rest, field);
    var end := 1 + |field|;
    if end < |s| {
      assert s[1..end] == inner[..|field|] && s[end] == inner[|field|];
    }
    if body == field {
      assert s[end + 1..] == rest;
    }
  }

  /** A string value is passed over: what follows it is no colon. */
  lemma {:induction false} ScanString(body: string, rest: string, field: string, depth: nat)
    requires IsBody(body) && PlainField(field)
    requires depth == 1 ==> body != field || SkipSpace(rest) == "" || SkipSpace(rest)[0] != ':'
    ensures Scan(Quoted(body) + rest, field, depth) == Scan(rest, field, depth)
  {
    hide SkipSpace, IsBody, SkipString;
    var s := Quoted(body) + rest;
    assert s[0] == '"' && s[1..] == body + ("\"" + rest);
    SkipStringOver(body, rest);
    if depth == 1 {
      ValueAtQuoted(body, rest, field);
    }
    ScanQuote(s, rest, field, depth);
  }

  lemma {:induction false} ScanQuote(s: string, rest: string, field: string, depth: nat)
    requires s != "" && s[0] == '"' && SkipString(s[1..]) == Some(rest)
    requires depth == 1 ==> ValueAt(s, field) == None
    ensures Scan(s, field, depth) == Scan(rest, field, depth)
  {
  }

  lemma {:induction false} ScanOpen(c: char, rest: string, field: string, depth: nat)
    requires c == '{' || c == '['
    ensures Scan([c] + rest, field, depth) == Scan(rest, field, depth + 1)
  {
    assert ([c] + rest)[1..] == rest;
  }

  lemma {:induction false} ScanClose(c: char, rest: string, field: string, depth: nat)
    requires c == '}' || c == ']'
    ensures Scan([c] + rest, field, depth) == if depth == 0 then None else Scan(rest, field, depth - 1)
  {
    assert ([c] + rest)[1..] == rest;
  }

  /** The text after a value: white space, then a comma or a closing bracket. */
  predicate AfterValue(rest: string) {
    var s := SkipSpace(rest);
    s != "" && (s[0] == ',' || s[0] == '}' || s[0] == ']')
  }

  lemma {:induction false} AfterSpace(space: string, rest: string)
    requires IsSpace(space) && rest != "" && (rest[0] == ',' || rest[0] == '}' || rest[0] == ']')
    ensures AfterValue(space + rest)
  {
    SkipSpaceOver(space, rest);
  }

  // ------------------------------------------------------------------
  // Reading past nested values
  // ------------------------------------------------------------------

  /** Inside an object, a whole value is passed over: neither nested members nor
      string contents mislead the scanner. */
  lemma {:induction false} ScanValue(v: Json, rest: string, field: string, depth: nat)
    requires WellFormed(v) && PlainField(field) && depth >= 1 && AfterValue(rest)
    ensures Scan(Render(v) + rest, field, depth) == Scan(rest, field, depth)
    decreases v, 1
  {
    hide Scan, SkipSpace, IsBody;
    match v {
      case Scalar(text) =>
        ScanInert(text, rest, field, depth);
      case Str(body) =>
        ScanString(body, rest, field, depth);
      case Arr(es) =>
        var inner := RenderElements(es);
        assert "[" + inner + "]" + rest == ['['] + (inner + ([']'] + rest));
        ScanOpen('[', inner + ([']'] + rest), field, depth);
        ScanElements(es, [']'] + rest, field, depth + 1);
        ScanClose(']', rest, field, depth + 1);
      case Obj(ms) =>
        var inner := RenderMembers(ms);
        assert "{" + inner + "}" + rest == ['{'] + (inner + (['}'] + rest));
        ScanOpen('{', inner + (['}'] + rest), field, depth);
        ScanMembers(ms, ['}'] + rest, field, depth + 1);
        ScanClose('}', rest, field, depth + 1);
    }
  }

  lemma {:induction false} ScanElements(es: Elements, rest: string, field: string, depth: nat)
    requires WellFormedElements(es) && PlainField(field) && depth >= 2 && rest != "" && rest[0] == ']'
    ensures Scan(RenderElements(es) + rest, field, depth) == Scan(rest, field, depth)
    decreases es, 0
  {
    hide Scan, SkipSpace, IsBody, AfterValue, Render;
    match es {
      case NoElement(space) =>
        ScanInert(space, rest, field, depth);
      case LastElement(before, value, after) =>
        var t := after + rest;
        assert RenderElements(es) + rest == before + (Render(value) + t);
        ScanInert(before, Render(value) + t, field, depth);
        AfterSpace(after, rest);
        ScanValue(value, t, field, depth);
        ScanInert(after, rest, field, depth);
      case Element(before, value, after, more) =>
        var t := [','] + (RenderElements(more) + rest);
        assert RenderElements(es) + rest == before + (Render(value) + (after + t));
        ScanInert(before, Render(value) + (after + t), field, depth);
        AfterSpace(after, t);
        ScanValue(value, after + t, field, depth);
        ScanInert(after, t, field, depth);
        ScanInert([','], RenderElements(more) + rest, field, depth);
        ScanElements(more, rest, field, depth);
    }
  }

  /** One member up to the text behind its value, below the top level. */
  lemma {:induction false} ScanMember(before: string, name: string, cb: string, ca: string, value: Json, t: string,
                                      field: string, depth: nat)
    requires IsSpace(before) && IsBody(name) && IsSpace(cb) && IsSpace(ca) && WellFormed(value)
    requires PlainField(field) && depth >= 1 && AfterValue(t) && (depth == 1 ==> name != field)
    ensures Scan(before + (Quoted(name) + (cb + (":" + (ca + (Render(value) + t))))), field, depth)
         == Scan(t, field, depth)
    decreases value, 2
  {
    hide Scan, SkipSpace, IsBody, AfterValue, Render, WellFormed;
    var v := Render(value) + t;
    ScanInert(before, Quoted(name) + (cb + (":" + (ca + v))), field, depth);
    ScanString(name, cb + (":" + (ca + v)), field, depth);
    ScanInert(cb, ":" + (ca + v), field, depth);
    ScanInert(":", ca + v, field, depth);
    ScanInert(ca, v, field, depth);
    ScanValue(value, t, field, depth);
  }

  lemma {:induction false} ScanMembers(ms: Members, rest: string, field: string, depth: nat)
    requires WellFormedMembers(ms) && PlainField(field) && depth >= 2 && rest != "" && rest[0] == '}'
    ensures Scan(RenderMembers(ms) + rest, field, depth) == Scan(rest, field, depth)
    decreases ms, 0
  {
    hide Scan, SkipSpace, IsBody, AfterValue, Render;
    match ms {
      case NoMember(space) =>
        ScanInert(space, rest, field, depth);
      case LastMember(before, name, cb, ca, value, after) =>
        LastMemberText(ms, rest);
        AfterSpace(after, rest);
        ScanMember(before, name, cb, ca, value, after + rest, field, depth);
        ScanInert(after, rest, field, depth);
      case Member(before, name, cb, ca, value, after, more) =>
        var t := [','] + (RenderMembers(more) + rest);
        MemberText(ms, rest);
        AfterSpace(after, t);
        ScanMember(before, name, cb, ca, value, after + t, field, depth);
        ScanInert(after, t, field, depth);
        ScanInert([','], RenderMembers(more) + rest, field, depth);
        ScanMembers(more, rest, field, depth);
    }
  }

  lemma {:induction false} LastMemberText(ms: Members, rest: string)
    requires ms.LastMember?
    ensures RenderMembers(ms) + rest == ms.before + (Quoted(ms.name) + (ms.colonBefore + (":" +
              (ms.colonAfter + (Render(ms.value) + (ms.after + rest))))))
  {
    hide Render;
  }

  lemma {:induction false} MemberText(ms: Members, rest: string)
    requires ms.Member?
    ensures RenderMembers(ms) + rest == ms.before + (Quoted(ms.name) + (ms.colonBefore + (":" +
              (ms.colonAfter + (Render(ms.value) + (ms.after + ([','] + (RenderMembers(ms.rest) + rest))))))))
  {
    hide Render;
    var tail := RenderMembers(ms.rest);
    assert RenderMembers(ms) == ms.before + (Quoted(ms.name) + (ms.colonBefore + (":" +
              (ms.colonAfter + (Render(ms.value) + (ms.after + ("," + tail)))))));
  }

  // ------------------------------------------------------------------
  // The top-level object
  // ------------------------------------------------------------------

  /** The text that starts at the value of the first member named `field`. */
  function FirstValue(ms: Members, field: string, rest: string): Option<string> {
    match ms
    case NoMember(_) => None
    case LastMember(_, name, _, _, value, after) =>
      if name == field then Some(Render(value) + (after + rest)) else None
    case Member(_, name, _, _, value, after, more) =>
      if name == field then Some(Render(value) + (after + ([','] + (RenderMembers(more) + rest))))
      else FirstValue(more, field, rest)
  }

  lemma {:induction false} RenderStart(v: Json)
    requires WellFormed(v)
    ensures Render(v) != "" && !IsJsonSpace(Render(v)[0]) && Render(v)[0] != ':'
  {
  }

  /** At the member asked for, the scanner stops with its value. */
  lemma {:induction false} ScanFound(before: string, cb: string, ca: string, value: Json, t: string, field: string)
    requires IsSpace(before) && IsSpace(cb) && IsSpace(ca) && WellFormed(value) && PlainField(field)
    ensures Scan(before + (Quoted(field) + (cb + (":" + (ca + (Render(value) + t))))), field, 1)
         == Some(Render(value) + t)
  {
    hide Scan, SkipSpace, IsBody, Render, WellFormed;
    var v := Render(value) + t;
    var colon := ":" + (ca + v);
    ScanInert(before, Quoted(field) + (cb + colon), field, 1);
    SkipSpaceOver(cb, colon);
    RenderStart(value);
    assert colon[1..] == ca + v;
    SkipSpaceOver(ca, v);
    PlainIsBody(field);
    ValueAtQuoted(field, cb + colon, field);
    ScanHit(Quoted(field) + (cb + colon), field);
  }

  lemma {:induction false} ScanHit(s: string, field: string)
    requires s != "" && s[0] == '"' && ValueAt(s, field).Some?
    ensures Scan(s, field, 1) == ValueAt(s, field)
  {
  }

  lemma {:induction false} PlainIsBody(field: string)
    requires PlainField(field)
    ensures IsBody(field)
  {
    if field != "" {
      PlainIsBody(field[1..]);
    }
  }

  lemma {:induction false} ScanTop(ms: Members, tail: string, field: string)
    requires WellFormedMembers(ms) && PlainField(field) && IsSpace(tail)
    ensures Scan(RenderMembers(ms) + (['}'] + tail), field, 1) == FirstValue(ms, field, ['}'] + tail)
    decreases ms
  {
    hide Scan, SkipSpace, IsBody, AfterValue, Render;
    var rest := ['}'] + tail;
    match ms {
      case NoMember(space) =>
        ScanInert(space, rest, field, 1);
        ScanEnd(tail, field);
      case LastMember(before, name, cb, ca, value, after) =>
        LastMemberText(ms, rest);
        if name == field {
          ScanFound(before, cb, ca, value, after + rest, field);
        } else {
          AfterSpace(after, rest);
          ScanMember(before, name, cb, ca, value, after + rest, field, 1);
          ScanInert(after, rest, field, 1);
          ScanEnd(tail, field);
        }
      case Member(before, name, cb, ca, value, after, more) =>
        var t := [','] + (RenderMembers(more) + rest);
        MemberText(ms, rest);
        if name == field {
          ScanFound(before, cb, ca, value, after + t, field);
        } else {
          AfterSpace(after, t);
          ScanMember(before, name, cb, ca, value, after + t, field, 1);
          ScanInert(after, t, field, 1);
          ScanInert([','], RenderMembers(more) + rest, field, 1);
          ScanTop(more, tail, field);
        }
    }
  }

  lemma {:induction false} ScanEnd(tail: string, field: string)
    requires IsSpace(tail)
    ensures Scan(['}'] + tail, field, 1) == None
  {
    ScanClose('}', tail, field, 1);
    ScanInert(tail, "", field, 0);
    assert tail + "" == tail;
  }

  /** For every JSON object, however spaced and nested, the scanner returns the
      text that starts at the value of the first top-level member whose name is
      written `field`, and nothing when there is none. */
  lemma {:induction false} FindsTopLevelMember(ms: Members, lead: string, tail: string, field: string)
    requires WellFormedMembers(ms) && IsSpace(lead) && IsSpace(tail) && PlainField(field)
    ensures Scan(lead + (Render(Obj(ms)) + tail), field, 0) == FirstValue(ms, field, ['}'] + tail)
  {
    hide Scan, RenderMembers;
    var inner := RenderMembers(ms);
    assert Render(Obj(ms)) + tail == ['{'] + (inner + (['}'] + tail));
    ScanInert(lead, Render(Obj(ms)) + tail, field, 0);
    ScanOpen('{', inner + (['}'] + tail), field, 0);
    ScanTop(ms, tail, field);
  }

  // ------------------------------------------------------------------
  // Numbers and flags
  // ------------------------------------------------------------------

  /** The digits at the start of `s`. */
  function LeadingDigits(s: string): (t: string)
    ensures t <= s && D.AllDigits(t)
    ensures |t| < |s| ==> !D.IsDigit(s[|t|])
  {
    if s == "" || !D.IsDigit(s[0]) then ""
    else
      var t := LeadingDigits(s[1..]);
      [s[0]] + t
  }

  /** rawJSONIntField: the digits at the start of the value, in a 64-bit integer. */
  method RawJSONIntField(line: string, field: string) returns (n: int, ok: bool)
    ensures Scan(line, field, 0) == None ==> n == 0 && !ok
    ensures Scan(line, field, 0).Some? ==>
              var digits := LeadingDigits(Scan(line, field, 0).value);
              n == D.Wrap(D.Value(digits)) && (ok <==> digits != "")
  {
    hide Scan, LeadingDigits, D.Wrap;
    var found := RawJSONFieldValue(line, field);
    if found == None {
      return 0, false;
    }
    var value := found.value;
    ghost var digits := LeadingDigits(value);
    n := 0;
    D.WrapInRange(0);
    var i := 0;
    while i < |value|
      invariant 0 <= i <= |digits|
      invariant n == D.Wrap(D.Value(digits[..i]))
    {
      var c := value[i];
      if c < '0' || c > '9' {
        assert i == |digits| && digits[..i] == digits;
        return n, i > 0;
      }
      assert i < |digits| && digits[..i + 1][..i] == digits[..i];
      D.WrapDigit(D.Value(digits[..i]), D.DigitValue(c));
      n := D.Wrap(10 * n + D.DigitValue(c));
      i := i + 1;
    }
    assert digits[..i] == digits;
    return n, |value| > 0;
  }

  /** rawJSONBoolField */
  method RawJSONBoolField(line: string, field: string) returns (flag: bool, ok: bool)
    ensures var found := Scan(line, field, 0);
            && (ok <==> found.Some? && ("true" <= found.value || "false" <= found.value))
            && (flag <==> found.Some? && "true" <= found.value)
  {
    hide Scan;
    var found := RawJSONFieldValue(line, field);
    if found == None {
      return false, false;
    }
    var value := found.value;
    if |value| >= 4 && value[0] == 't' && value[1] == 'r' && value[2] == 'u' && value[3] == 'e' {
      assert "true" == value[..4];
      return true, true;
    }
    if |value| >= 5 && value[0] == 'f' && value[1] == 'a' && value[2] == 'l' && value[3] == 's' && value[4] == 'e' {
      assert "false" == value[..5];
      return false, true;
    }
    return false, false;
  }

  /** The value of the first member whose name is written `field`. */
  function FirstMember(ms: Members, field: string): Option<Json> {
    match ms
    case NoMember(_) => None
    case LastMember(_, name, _, _, value, _) => if name == field then Some(value) else None
    case Member(_, name, _, _, value, _, more) => if name == field then Some(value) else FirstMember(more, field)
  }

  /** The scanner's text is the first member's value, then white space and punctuation. */
  lemma {:induction false} FirstValueShape(ms: Members, field: string, tail: string)
    requires WellFormedMembers(ms)
    ensures FirstValue(ms, field, ['}'] + tail).Some? <==> FirstMember(ms, field).Some?
    ensures FirstMember(ms, field).Some? ==>
              var v, text := Render(FirstMember(ms, field).value), FirstValue(ms, field, ['}'] + tail).value;
              && v <= text && |v| < |text| && !IsScalarChar(text[|v|])
  {
    hide Render;
    match ms {
      case NoMember(_) =>
      case LastMember(_, name, _, _, value, after) =>
        var t := after + (['}'] + tail);
        assert !IsScalarChar(t[0]);
      case Member(_, name, _, _, value, after, more) =>
        if name == field {
          var t := after + ([','] + (RenderMembers(more) + (['}'] + tail)));
          assert !IsScalarChar(t[0]);
        } else {
          FirstValueShape(more, field, tail);
        }
    }
  }

  lemma {:induction false} LeadingDigitsOf(digits: string, rest: string)
    requires D.AllDigits(digits) && rest != "" && !D.IsDigit(rest[0])
    ensures LeadingDigits(digits + rest) == digits
    decreases |digits|
  {
    if digits == "" {
      assert digits + rest == rest;
    } else {
      assert (digits + rest)[1..] == digits[1..] + rest;
      LeadingDigitsOf(digits[1..], rest);
    }
  }

  /** For a member that holds a number without sign, fraction or exponent, the
      raw test sees that number: the digits it reads are all the digits there are. */
  lemma {:induction false} ReadsNumber(ms: Members, lead: string, tail: string, field: string, digits: string)
    requires WellFormedMembers(ms) && IsSpace(lead) && IsSpace(tail) && PlainField(field)
    requires FirstMember(ms, field) == Some(Scalar(digits)) && D.AllDigits(digits)
    ensures var found := Scan(lead + (Render(Obj(ms)) + tail), field, 0);
            found.Some? && LeadingDigits(found.value) == digits
  {
    hide Scan, LeadingDigits, FirstValue;
    FindsTopLevelMember(ms, lead, tail, field);
    FirstValueShape(ms, field, tail);
    var text := FirstValue(ms, field, ['}'] + tail).value;
    assert text == digits + text[|digits|..];
    LeadingDigitsOf(digits, text[|digits|..]);
  }

  /** For a member that holds true or false, the raw test sees the flag. */
  lemma {:induction false} ReadsFlag(ms: Members, lead: string, tail: string, field: string, flag: bool)
    requires WellFormedMembers(ms) && IsSpace(lead) && IsSpace(tail) && PlainField(field)
    requires FirstMember(ms, field) == Some(Scalar(if flag then "true" else "false"))
    ensures var found := Scan(lead + (Render(Obj(ms)) + tail), field, 0);
            found.Some? && (if flag then "true" <= found.value else "false" <= found.value && !("true" <= found.value))
  {
    hide Scan, FirstValue;
    FindsTopLevelMember(ms, lead, tail, field);
    FirstValueShape(ms, field, tail);
    var text := FirstValue(ms, field, ['}'] + tail).value;
    if !flag {
      assert text[0] == "false"[0];
    }
  }
}
