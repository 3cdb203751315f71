/** The line filter of the gateway log queries (queryFilter and the checks the
    scans make around it). Search, JSON decoding and the entry checks stay
    abstract: any functions will do. */
module LogFilter {
  import opened Bytes

  /** `valid` is json.Valid, `decode` json.Unmarshal into an entry. */
  datatype Filter<!E> = Filter(
    matchLine: string -> bool,
    matchRawFields: string -> bool,
    valid: string -> bool,
    decode: string -> Option<E>,
    matchEntry: E -> bool,
    needsDecoded: bool)

  /** jsonLogLineLooksLikeEntryObject */
  predicate LooksLikeEntryObject(line: string) {
    var t := TrimLeft(line, {' ', '\t', '\r', '\n'});
    t != "" && t[0] == '{'
  }

  /** The checks made before a line is decoded. */
  predicate PassesRaw<E>(f: Filter<E>, line: string) {
    f.matchLine(line) && LooksLikeEntryObject(line) && f.matchRawFields(line)
  }

  /** The entry of a matching line: it passes the raw checks, decodes, and its entry matches. */
  function Accept<E>(f: Filter<E>, line: string): Option<E> {
    if !PassesRaw(f, line) then None
    else match f.decode(line)
      case None => None
      case Some(e) => if f.matchEntry(e) then Some(e) else None
  }

  /** The filter takes a line and lists it as an entry: its first byte that is no blank opens an
      object, all tests on the line and the entry succeed, and the line decodes to the entry. */
  ghost predicate Lists<E>(f: Filter<E>, line: string, e: E) {
    && (exists i :: 0 <= i < |line| && line[i] == '{' && forall j :: 0 <= j < i ==> line[j] in " \t\r\n")
    && f.matchLine(line)
    && f.matchRawFields(line)
    && f.decode(line) == Some(e)
    && f.matchEntry(e)
  }

  ghost predicate IsListed<E>(f: Filter<E>, line: string) {
    f.decode(line).Some? && Lists(f, line, f.decode(line).value)
  }

  /** The tests of the scans, in their order, take exactly these lines. */
  lemma AcceptsExactly<E>(f: Filter<E>, line: string, e: E)
    ensures Accept(f, line) == Some(e) <==> Lists(f, line, e)
  {
    OpensObject(line);
  }

  lemma OpensObject(line: string)
    ensures LooksLikeEntryObject(line) <==>
            exists i :: 0 <= i < |line| && line[i] == '{' && forall j :: 0 <= j < i ==> line[j] in " \t\r\n"
  {
    var t := TrimLeft(line, {' ', '\t', '\r', '\n'});
    var n := |line| - |t|;
    assert forall c: char :: c in {' ', '\t', '\r', '\n'} <==> c in " \t\r\n";
    if t != "" {
      assert t[0] == line[n];
    }
    if i :| 0 <= i < |line| && line[i] == '{' && forall j :: 0 <= j < i ==> line[j] in " \t\r\n" {
      assert line[i] !in " \t\r\n";
      assert i == n;
    }
  }
}
