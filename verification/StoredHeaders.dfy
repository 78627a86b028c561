/**
 What a cache keeps of a response's header list, and how a validation response changes it
 (src/fetch/cache-http.ts `cacheHeaders`, `HTTPCacheEntry.update`; src/http/cache.ts `parseVary`).
 */
module StoredHeaders {
  import opened Prelude
  import opened Text
  import opened HeaderList
  import opened HeaderSplit
  import HeadersGuard

  datatype Request = Request(url: string, method_: string, noStore: bool, headers: seq<Header>)

  datatype Response = Response(status: int, headers: seq<Header>)

  datatype Tag = Tag(value: string, weak: bool) {
    /** `EntityTag.matches` */
    predicate Matches(other: Tag, strong: bool) { value == other.value && (strong ==> !weak && !other.weak) }
  }

  /** Date arithmetic, entity tag syntax and the Cache-Control policy, which are not part of this model. */
  datatype Rules = Rules(
    dateText: real -> string,
    parseDate: (string, real) -> Option<real>,
    parseTag: string -> Option<Tag>,
    permits: (int, seq<Header>, string) -> bool)

  /** `get(name) ?? ''` */
  function FieldText(list: seq<Header>, name: string): string
  {
    match Get(list, name) case None => "" case Some(value) => value
  }

  // ---------------------------------------------------------------------------
  // Vary
  // ---------------------------------------------------------------------------

  /** `split(',')` */
  function Members(s: string): (r: seq<string>)
    ensures r != []
  {
    if s == "" then [""]
    else
      var rest := Members(s[1..]);
      if s[0] == ',' then [""] + rest else [[s[0]] + rest[0]] + rest[1..]
  }

  function VaryNames(members: seq<string>): Option<seq<string>>
  {
    if members == [] then Some([])
    else
      var name := Trim(members[0], TabOrSpace);
      if name == "" then VaryNames(members[1..])
      else if !HeadersGuard.Token(name) then None
      else match VaryNames(members[1..])
        case None => None
        case Some(names) => Some([Lower(name)] + names)
  }

  function ParseVary(value: string): Option<seq<string>> { VaryNames(Members(value)) }

  lemma {:induction false} MembersOf(parts: seq<string>)
    requires parts != [] && forall p :: p in parts ==> ',' !in p
    ensures Members(Join(parts)) == parts
    decreases |parts|, |parts[0]|
  {
    var first, text := parts[0], Join(parts);
    if first != "" {
      var shorter := [first[1..]] + parts[1..];
      assert shorter[1..] == parts[1..] && forall c :: c in first[1..] ==> c in first;
      assert first == [first[0]] + first[1..];
      MembersOf(shorter);
      assert text[1..] == Join(shorter) && text[0] == first[0];
    } else if |parts| > 1 {
      assert text[1..] == Join(parts[1..]) && text[0] == ',';
      MembersOf(parts[1..]);
      assert parts == [""] + parts[1..];
    }
  }

  lemma {:induction false} VaryNamesOf(parts: seq<string>)
    ensures VaryNames(parts).Some? <==>
      forall p :: p in parts ==> Trim(p, TabOrSpace) == "" || HeadersGuard.Token(Trim(p, TabOrSpace))
    ensures VaryNames(parts).Some? ==> forall name ::
      name in VaryNames(parts).value <==>
      exists p :: p in parts && Trim(p, TabOrSpace) != "" && name == Lower(Trim(p, TabOrSpace))
  {
    hide Trim, HeadersGuard.Token, Lower;
    if parts != [] {
      VaryNamesOf(parts[1..]);
      assert parts == [parts[0]] + parts[1..];
    }
  }

  /** A Vary field is a list of names between commas, in any case, with blanks around them and empty members. */
  lemma VaryOfParts(parts: seq<string>)
    requires parts != [] && forall p :: p in parts ==> ',' !in p
    ensures var names := ParseVary(Join(parts));
      (names.Some? <==>
        forall p :: p in parts ==> Trim(p, TabOrSpace) == "" || HeadersGuard.Token(Trim(p, TabOrSpace))) &&
      (names.Some? ==> forall name :: name in names.value <==>
        exists p :: p in parts && Trim(p, TabOrSpace) != "" && name == Lower(Trim(p, TabOrSpace)))
  {
    hide Trim, HeadersGuard.Token, Lower;
    MembersOf(parts);
    VaryNamesOf(parts);
  }

  predicate UsableVary(headers: seq<Header>)
  {
    var names := ParseVary(FieldText(headers, "Vary"));
    names.Some? && "*" !in names.value
  }

  /** `canStoreResponse`, its method, status and Vary conditions spelled out. */
  predicate CanStore(rules: Rules, method_: string, status: int, headers: seq<Header>, control: string)
  {
    (method_ == "GET" || method_ == "HEAD") && 200 <= status <= 599 && status != 206 && status != 304 &&
    UsableVary(headers) && rules.permits(status, headers, control)
  }

  /** `shouldInvalidateCache` */
  predicate ShouldInvalidate(method_: string, status: int)
  {
    200 <= status < 400 && method_ !in {"GET", "HEAD", "OPTIONS", "TRACE"}
  }

  /** The condition of `HTTPCachePartition.begin`. */
  predicate Storable(rules: Rules, request: Request, response: Response)
  {
    !request.noStore && !Has(request.headers, "Range") &&
    CanStore(rules, request.method_, response.status, response.headers, FieldText(request.headers, "Cache-Control"))
  }

  /** Section 3 of RFC 9111, as far as it is a matter of method, status and fields. */
  lemma StorableExactly(rules: Rules, request: Request, response: Response)
    ensures var vary := ParseVary(FieldText(response.headers, "Vary"));
      Storable(rules, request, response) <==>
      request.method_ in {"GET", "HEAD"} && !request.noStore && Get(request.headers, "Range") == None &&
      200 <= response.status < 600 && response.status !in {206, 304} && vary.Some? && "*" !in vary.value &&
      rules.permits(response.status, response.headers, FieldText(request.headers, "Cache-Control"))
  {
    HasValues(request.headers, "Range");
  }

  /** Section 4.4 of RFC 9111: a successful or redirecting answer to an unsafe method. */
  lemma InvalidatesExactly(method_: string, status: int)
    ensures ShouldInvalidate(method_, status) <==>
      status / 100 in {2, 3} && !(method_ == "GET" || method_ == "HEAD" || method_ == "OPTIONS" || method_ == "TRACE")
  {
  }

  // ---------------------------------------------------------------------------
  // Stored lines
  // ---------------------------------------------------------------------------

  const HOP_BY_HOP := [
    "Connection", "Proxy-Connection", "Keep-Alive", "TE", "Trailer", "Transfer-Encoding",
    "Upgrade", "Proxy-Authenticate", "Proxy-Authorization", "Proxy-Authentication-Info"]

  predicate Named(names: seq<string>, name: string)
  {
    exists n :: n in names && Same(name, n)
  }

  function DeleteAll(list: seq<Header>, names: seq<string>): seq<Header>
    decreases |names|
  {
    if names == [] then list else DeleteAll(Delete(list, names[0]), names[1..])
  }

  lemma {:induction false} GetDeleteAll(list: seq<Header>, names: seq<string>, name: string)
    ensures Get(DeleteAll(list, names), name) == if Named(names, name) then None else Get(list, name)
    decreases |names|
  {
    if names != [] {
      GetDelete(list, names[0], name);
      GetDeleteAll(Delete(list, names[0]), names[1..], name);
      assert names == [names[0]] + names[1..];
      if Named(names[1..], name) { assert Named(names, name); }
    }
  }

  /** The names a response declares as belonging to its connection. */
  function ConnectionNames(headers: seq<Header>): seq<string>
  {
    match Get(headers, "Connection") case None => [] case Some(value) => Split(value)
  }

  /** `cacheHeaders` */
  function StoredLines(rules: Rules, headers: seq<Header>, received: real): seq<Header>
  {
    var stored := DeleteAll(headers, ConnectionNames(headers) + HOP_BY_HOP);
    if Has(stored, "Date") then stored else Append(stored, "Date", rules.dateText(received))
  }

  /** A stored list keeps every end-to-end field, no field of the connection, and always has a date. */
  lemma GetStored(rules: Rules, headers: seq<Header>, received: real, name: string)
    ensures var stored := StoredLines(rules, headers, received);
      Get(stored, name) ==
        if Named(ConnectionNames(headers) + HOP_BY_HOP, name) then
          if Same(name, "Date") then Some(rules.dateText(received)) else None
        else if Same(name, "Date") && Get(headers, name) == None then Some(rules.dateText(received))
        else Get(headers, name)
  {
    var names := ConnectionNames(headers) + HOP_BY_HOP;
    var kept := DeleteAll(headers, names);
    GetDeleteAll(headers, names, name);
    HasValues(kept, "Date");
    GetAppend(kept, "Date", rules.dateText(received), name);
    if Same(name, "Date") { SameValues(kept, name, "Date"); }
  }

  /** Section 7.6.1 of RFC 9110: which fields stay with the connection, and are not stored. */
  predicate Forwarded(headers: seq<Header>, name: string)
  {
    var listed := Get(headers, "Connection");
    Lower(name) !in {
      "connection", "proxy-connection", "keep-alive", "te", "trailer", "transfer-encoding", "upgrade",
      "proxy-authenticate", "proxy-authorization", "proxy-authentication-info"} &&
    (listed != None ==> forall n :: n in Split(listed.value) ==> !Same(n, name))
  }

  lemma StoredExactly(rules: Rules, headers: seq<Header>, received: real, name: string)
    ensures Get(StoredLines(rules, headers, received), name) ==
      if Forwarded(headers, name) && Get(headers, name) != None then Get(headers, name)
      else if Same(name, "Date") then Some(rules.dateText(received))
      else None
  {
    hide StoredLines, Get, Split, Lower;
    GetStored(rules, headers, received, name);
    var listed := ConnectionNames(headers);
    HopByHop(name);
    var all := listed + HOP_BY_HOP;
    assert forall n :: n in all <==> n in listed || n in HOP_BY_HOP;
    assert Named(all, name) <==> Named(listed, name) || Named(HOP_BY_HOP, name);
    assert Named(listed, name) <==> exists n :: n in listed && Same(n, name);
  }

  lemma HopByHop(name: string)
    ensures Named(HOP_BY_HOP, name) <==>
      Lower(name) in {
        "connection", "proxy-connection", "keep-alive", "te", "trailer", "transfer-encoding", "upgrade",
        "proxy-authenticate", "proxy-authorization", "proxy-authentication-info"}
  {
    hide Lower;
    HopByHopFirst();
    HopByHopLast();
    HopByHopProxy();
    NamedLower(HOP_BY_HOP, name);
    assert LowerAll(HOP_BY_HOP) == [
      "connection", "proxy-connection", "keep-alive", "te", "trailer", "transfer-encoding", "upgrade",
      "proxy-authenticate", "proxy-authorization", "proxy-authentication-info"];
  }

  function LowerAll(names: seq<string>): (r: seq<string>)
    ensures |r| == |names| && forall i :: 0 <= i < |r| ==> r[i] == Lower(names[i])
  {
    seq(|names|, i requires 0 <= i < |names| => Lower(names[i]))
  }

  lemma NamedLower(names: seq<string>, name: string)
    ensures Named(names, name) <==> Lower(name) in LowerAll(names)
  {
    hide Lower;
    if Named(names, name) {
      var n :| n in names && Same(name, n);
      var i :| 0 <= i < |names| && names[i] == n;
      assert LowerAll(names)[i] == Lower(name);
    }
    if Lower(name) in LowerAll(names) {
      var i :| 0 <= i < |names| && LowerAll(names)[i] == Lower(name);
      assert names[i] in names;
    }
  }

  lemma HopByHopFirst()
    ensures Lower("Connection") == "connection" && Lower("Proxy-Connection") == "proxy-connection"
    ensures Lower("Keep-Alive") == "keep-alive" && Lower("TE") == "te" && Lower("Trailer") == "trailer"
  {
  }

  lemma HopByHopLast()
    ensures Lower("Transfer-Encoding") == "transfer-encoding" && Lower("Upgrade") == "upgrade"
    ensures Lower("Proxy-Authenticate") == "proxy-authenticate"
  {
  }

  lemma HopByHopProxy()
    ensures Lower("Proxy-Authorization") == "proxy-authorization"
    ensures Lower("Proxy-Authentication-Info") == "proxy-authentication-info"
  {
  }

  /** The list kept of a storable response has a Vary field that parses. */
  lemma StoredVary(rules: Rules, request: Request, response: Response, received: real)
    requires Storable(rules, request, response)
    ensures UsableVary(StoredLines(rules, response.headers, received))
  {
    hide StoredLines, Get, Named, ConnectionNames, ParseVary, Same;
    GetStored(rules, response.headers, received, "Vary");
    VaryIsNotDate();
    EmptyVary();
  }

  lemma VaryIsNotDate()
    ensures !Same("Vary", "Date")
  {
    assert Lower("Vary")[0] == 'v' && Lower("Date")[0] == 'd';
  }

  lemma EmptyVary()
    ensures ParseVary("") == Some([])
  {
    assert Members("") == [""] && [""][1..] == [] && Trim("", TabOrSpace) == "";
  }

  // ---------------------------------------------------------------------------
  // Validation
  // ---------------------------------------------------------------------------

  /**
   How `revalidate` recognizes a stored representation: by a strong tag, else by a weak tag, else by the
   modification date, else because it is the only candidate and has no validator.
   */
  predicate Identifies(rules: Rules, response: seq<Header>, stored: seq<Header>, alone: bool)
  {
    match rules.parseTag(FieldText(response, "ETag"))
    case Some(tag) =>
      var other := rules.parseTag(FieldText(stored, "ETag"));
      other.Some? && other.value.Matches(tag, !tag.weak)
    case None =>
      if Has(response, "Last-Modified") then Get(stored, "Last-Modified") == Get(response, "Last-Modified")
      else alone && !Has(stored, "ETag") && !Has(stored, "Last-Modified")
  }

  /** A strong tag identifies every match, anything weaker only the newest. */
  predicate Strong(rules: Rules, response: seq<Header>)
  {
    var tag := rules.parseTag(FieldText(response, "ETag"));
    tag.Some? && !tag.value.weak
  }

  /** A validator or length that both responses carry differs. */
  predicate Contradicts(response: seq<Header>, stored: seq<Header>)
  {
    exists name :: name in ["ETag", "Last-Modified", "Content-Length"] &&
      Has(response, name) && Get(response, name) != Get(stored, name)
  }

  lemma ContradictsExactly(response: seq<Header>, stored: seq<Header>)
    ensures Contradicts(response, stored) <==>
      exists name :: name in {"ETag", "Last-Modified", "Content-Length"} &&
        Get(response, name) != None && Get(response, name) != Get(stored, name)
  {
    hide Get, Has;
    forall name | name in {"ETag", "Last-Modified", "Content-Length"}
      ensures Has(response, name) <==> Get(response, name) != None
    {
      HasValues(response, name);
    }
  }

  // ---------------------------------------------------------------------------
  // Merging
  // ---------------------------------------------------------------------------

  /** Fields that describe the retained bytes, which a validation response does not replace. */
  predicate Pinned(name: string)
  {
    Lower(name) in {"content-length", "content-encoding", "content-range"}
  }

  function Fresh(list: seq<Header>): seq<Header>
  {
    if list == [] then [] else (if Pinned(list[0].name) then [] else [list[0]]) + Fresh(list[1..])
  }

  function Names(list: seq<Header>): (r: seq<string>)
    ensures |r| == |list| && forall i :: 0 <= i < |r| ==> r[i] == list[i].name
  {
    seq(|list|, i requires 0 <= i < |list| => list[i].name)
  }

  function AppendAll(list: seq<Header>, lines: seq<Header>): seq<Header>
    decreases |lines|
  {
    if lines == [] then list else AppendAll(Append(list, lines[0].name, lines[0].value), lines[1..])
  }

  /** The list of `update`. */
  function Merged(rules: Rules, old_: seq<Header>, headers: seq<Header>, received: real): seq<Header>
  {
    var stored := StoredLines(rules, headers, received);
    var merged := AppendAll(DeleteAll(old_, Names(Fresh(stored))), Fresh(stored));
    if Has(stored, "Age") then merged else Delete(merged, "Age")
  }

  lemma {:induction false} ValuesFresh(list: seq<Header>, name: string)
    ensures ValuesOf(Fresh(list), name) == if Pinned(name) then [] else ValuesOf(list, name)
  {
    if list != [] {
      ValuesFresh(list[1..], name);
      var first := if Pinned(list[0].name) then [] else [list[0]];
      ValuesAppend(first, Fresh(list[1..]), name);
      assert ValuesOf([list[0]], name) == if Same(list[0].name, name) then [list[0].value] else [];
    }
  }

  lemma ValuesSnoc(list: seq<Header>, line: Header, name: string)
    ensures ValuesOf(Append(list, line.name, line.value), name) ==
      ValuesOf(list, name) + (if Same(line.name, name) then [line.value] else [])
  {
    var last := Header(Spelling(list, line.name), line.value);
    SpellingSame(list, line.name);
    ValuesAppend(list, [last], name);
    assert ValuesOf([last], name) == if Same(last.name, name) then [last.value] else [];
  }

  lemma {:induction false} ValuesAppendAll(list: seq<Header>, lines: seq<Header>, name: string)
    ensures ValuesOf(AppendAll(list, lines), name) == ValuesOf(list, name) + ValuesOf(lines, name)
    decreases |lines|
  {
    hide Same, Append;
    if lines == [] {
      assert ValuesOf(list, name) + [] == ValuesOf(list, name);
    } else {
      ValuesSnoc(list, lines[0], name);
      ValuesAppendAll(Append(list, lines[0].name, lines[0].value), lines[1..], name);
      var a, c := ValuesOf(list, name), ValuesOf(lines[1..], name);
      var b := if Same(lines[0].name, name) then [lines[0].value] else [];
      assert ValuesOf(lines, name) == b + c;
      assert (a + b) + c == a + (b + c);
    }
  }

  lemma NamedHas(list: seq<Header>, name: string)
    ensures Named(Names(list), name) <==> Has(list, name)
  {
    if Has(list, name) {
      var h :| h in list && Same(h.name, name);
      var i :| 0 <= i < |list| && list[i] == h;
      assert Names(list)[i] in Names(list);
    }
    if Named(Names(list), name) {
      var n :| n in Names(list) && Same(name, n);
      var i :| 0 <= i < |list| && Names(list)[i] == n;
      assert list[i] in list;
    }
  }

  lemma AgeMoves(name: string)
    requires Same(name, "Age")
    ensures !Pinned(name)
  {
    assert Lower("Age") == "age";
  }

  /** A validation replaces exactly the fields it carries, keeps those that describe the bytes, and restarts the age. */
  lemma GetMerged(rules: Rules, old_: seq<Header>, headers: seq<Header>, received: real, name: string)
    ensures var stored := StoredLines(rules, headers, received);
      Get(Merged(rules, old_, headers, received), name) ==
        if !Pinned(name) && Get(stored, name) != None then Get(stored, name)
        else if Same(name, "Age") then None
        else Get(old_, name)
  {
    hide StoredLines, DeleteAll, AppendAll, Fresh, Names, Delete, Has, ValuesOf, Pinned, Combined, Same, Named;
    var stored := StoredLines(rules, headers, received);
    var newer := Fresh(stored);
    var kept := DeleteAll(old_, Names(newer));
    var merged := AppendAll(kept, newer);
    ValuesFresh(stored, name);
    GetDeleteAll(old_, Names(newer), name);
    NamedHas(newer, name);
    HasValues(newer, name);
    ValuesAppendAll(kept, newer, name);
    assert [] + ValuesOf(newer, name) == ValuesOf(newer, name);
    assert ValuesOf(kept, name) + [] == ValuesOf(kept, name);
    HasValues(stored, "Age");
    GetDelete(merged, "Age", name);
    if Same(name, "Age") {
      SameValues(stored, name, "Age");
      AgeMoves(name);
    }
  }

  /** Section 3.2 of RFC 9111, in terms of the fields that both responses have. */
  lemma MergedExactly(rules: Rules, old_: seq<Header>, headers: seq<Header>, received: real, name: string)
    ensures Get(Merged(rules, old_, headers, received), name) ==
      if Lower(name) in {"content-length", "content-encoding", "content-range"} then Get(old_, name)
      else if Forwarded(headers, name) && Get(headers, name) != None then Get(headers, name)
      else if Same(name, "Date") then Some(rules.dateText(received))
      else if Same(name, "Age") then None
      else Get(old_, name)
  {
    hide StoredLines, Merged, Get, Forwarded, Lower;
    GetMerged(rules, old_, headers, received, name);
    StoredExactly(rules, headers, received, name);
    AgeAndDate();
  }

  lemma AgeAndDate()
    ensures Lower("Age") == "age" && Lower("Date") == "date"
  {
  }

  // ---------------------------------------------------------------------------
  // What a stored response remembers beside its bytes
  // ---------------------------------------------------------------------------

  datatype Metadata = Metadata(headers: seq<Header>, requestTime: real, responseTime: real, vary: seq<string>)

  /** A Vary field that does not parse stands for the wildcard. */
  function VaryOf(headers: seq<Header>): seq<string>
  {
    match ParseVary(FieldText(headers, "Vary")) case Some(names) => names case None => ["*"]
  }

  function Remembered(headers: seq<Header>, requestTime: real, responseTime: real): Metadata
  {
    Metadata(headers, requestTime, responseTime, VaryOf(headers))
  }

  /** Of a response that is stored. */
  function Initial(rules: Rules, response: Response, requestTime: real, responseTime: real): Metadata
  {
    Remembered(StoredLines(rules, response.headers, responseTime), requestTime, responseTime)
  }

  /** Of a stored response that a later one validates. */
  function Validated(rules: Rules, was: Metadata, response: Response, requestTime: real, responseTime: real): Metadata
  {
    Remembered(Merged(rules, was.headers, response.headers, responseTime), requestTime, responseTime)
  }
}
