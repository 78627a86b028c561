/**
 Guarded author mutations of a header list (src/fetch/headers.ts `HeadersImpl`). Parsing a MIME type is a
 parameter: `essence` gives the type and subtype of a value, or None for a value that does not parse.
 */
module HeadersGuard {
  import opened Prelude
  import opened Text
  import opened HeaderList
  import opened HeaderSplit

  datatype Guard = Unguarded | Immutable | Request | RequestNoCORS | Response

  /** The reasons for which a mutation throws a TypeError. */
  datatype Fault = InvalidName | InvalidValue | ImmutableList | WrongLength

  type Essence = string -> Option<string>

  // ---------------------------------------------------------------------------
  // Names and values
  // ---------------------------------------------------------------------------

  predicate AlphaNumeric(c: char) { '0' <= c <= '9' || 'A' <= c <= 'Z' || 'a' <= c <= 'z' }

  /** `isHTTPToken` */
  predicate Token(s: string)
  {
    s != "" && forall i :: 0 <= i < |s| ==> AlphaNumeric(s[i]) || s[i] in "!#$%&'*+-.^_`|~"
  }

  /** `isHeaderValue`: no surrounding tab or space, NUL, line break or character above a byte. */
  predicate ValidValue(s: string)
  {
    Bare(s, TabOrSpace) && forall i :: 0 <= i < |s| ==> s[i] !in "\0\r\n" && s[i] as int < 0x100
  }

  /** `isCORSUnsafeRequestHeaderByte` */
  predicate UnsafeByte(c: char)
  {
    (c < ' ' && c != '\t') || c as int == 0x7F || c in "\"():<>?@[\\]{}"
  }

  predicate LanguageValue(s: string)
  {
    forall i :: 0 <= i < |s| ==> AlphaNumeric(s[i]) || s[i] in " *,-.;="
  }

  /** `isNoCORSSafelistedRequestHeaderName` */
  predicate AllowedName(name: string)
  {
    Lower(name) in {"accept", "accept-language", "content-language", "content-type"}
  }

  /** `isCORSSafelistedRequestHeader` for those four names. */
  predicate SafelistedValue(name: string, value: string, essence: Essence)
  {
    |value| <= 128 &&
    match Lower(name)
    case "accept" => forall i :: 0 <= i < |value| ==> !UnsafeByte(value[i])
    case "content-type" =>
      (forall i :: 0 <= i < |value| ==> !UnsafeByte(value[i])) &&
      essence(value) in {Some("application/x-www-form-urlencoded"), Some("multipart/form-data"), Some("text/plain")}
    case "accept-language" => LanguageValue(value)
    case "content-language" => LanguageValue(value)
    case _ => false
  }

  predicate Safelisted(name: string, value: string, essence: Essence)
  {
    AllowedName(name) && SafelistedValue(name, value, essence)
  }

  /** `isForbiddenMethod` */
  predicate ForbiddenMethod(method_: string) { Lower(method_) in {"connect", "trace", "track"} }

  const FORBIDDEN_NAMES := {
    "accept-charset", "accept-encoding", "access-control-request-headers", "access-control-request-method",
    "connection", "content-length", "cookie", "cookie2", "date", "dnt", "expect", "host", "keep-alive",
    "origin", "referer", "set-cookie", "te", "trailer", "transfer-encoding", "upgrade", "via"
  }

  predicate OverrideName(name: string)
  {
    Lower(name) in {"x-http-method", "x-http-method-override", "x-method-override"}
  }

  predicate ForbiddenName(name: string)
  {
    var lower := Lower(name);
    lower in FORBIDDEN_NAMES || "proxy-" <= lower || "sec-" <= lower
  }

  /** `isForbiddenRequestHeader` */
  predicate ForbiddenRequest(name: string, value: string)
  {
    ForbiddenName(name) || (OverrideName(name) && exists m :: m in Split(value) && ForbiddenMethod(m))
  }

  /** `isForbiddenResponseHeaderName` */
  predicate ForbiddenResponse(name: string) { Lower(name) in {"set-cookie", "set-cookie2"} }

  // ---------------------------------------------------------------------------
  // What the mutations do
  // ---------------------------------------------------------------------------

  /** Ok(false): the mutation is ignored. */
  function Validate(guard: Guard, name: string, value: string): Result<bool, Fault>
  {
    if !Token(name) then Err(InvalidName)
    else if !ValidValue(value) then Err(InvalidValue)
    else if guard == Immutable then Err(ImmutableList)
    else Ok(!(guard == Request && ForbiddenRequest(name, value)) && !(guard == Response && ForbiddenResponse(name)))
  }

  /** `#removePrivilegedNoCORSRequestHeaders`, under the one guard that calls it. */
  function Cleared(guard: Guard, list: seq<Header>): seq<Header>
  {
    if guard == RequestNoCORS then Delete(list, "Range") else list
  }

  function Normalized(value: string): string { Trim(value, HTTPWhitespace) }

  function Extended(list: seq<Header>, name: string, value: string): string
  {
    match Get(list, name) case None => value case Some(before) => before + ", " + value
  }

  /** A header object's own state, and what a call makes of it. */
  datatype Headers = Headers(guard: Guard, essence: Essence, list: seq<Header>) {
    function Append(name: string, raw: string): Result<Headers, Fault>
    {
      var value := Normalized(raw);
      match Validate(guard, name, value)
      case Err(fault) => Err(fault)
      case Ok(false) => Ok(this)
      case Ok(true) =>
        if guard == RequestNoCORS && !Safelisted(name, Extended(list, name, value), essence) then Ok(this)
        else Ok(this.(list := Cleared(guard, HeaderList.Append(list, name, value))))
    }

    function Set(name: string, raw: string): Result<Headers, Fault>
    {
      var value := Normalized(raw);
      match Validate(guard, name, value)
      case Err(fault) => Err(fault)
      case Ok(false) => Ok(this)
      case Ok(true) =>
        if guard == RequestNoCORS && !Safelisted(name, value, essence) then Ok(this)
        else Ok(this.(list := Cleared(guard, HeaderList.Set(list, name, value))))
    }

    function Delete(name: string): Result<Headers, Fault>
    {
      match Validate(guard, name, "")
      case Err(fault) => Err(fault)
      case Ok(false) => Ok(this)
      case Ok(true) =>
        if guard == RequestNoCORS && !AllowedName(name) && Lower(name) != "range" then Ok(this)
        else if !Has(list, name) then Ok(this)
        else Ok(this.(list := Cleared(guard, HeaderList.Delete(list, name))))
    }

    /** `fill` from its entry `i` on: it stops at the first entry that throws, keeping what came before. */
    function Fill(init: seq<seq<string>>, i: nat): (Headers, Option<Fault>)
      requires i <= |init|
      decreases |init| - i
    {
      if i == |init| then (this, None)
      else if |init[i]| != 2 then (this, Some(WrongLength))
      else match Append(init[i][0], init[i][1])
        case Err(fault) => (this, Some(fault))
        case Ok(next) => next.Fill(init, i + 1)
    }

    /** The state after a call, thrown or not. */
    function After(call: Call): Headers
    {
      match call
      case AppendCall(name, value) => Kept(Append(name, value))
      case SetCall(name, value) => Kept(Set(name, value))
      case DeleteCall(name) => Kept(Delete(name))
      case FillCall(init) => Fill(init, 0).0
    }

    function Kept(outcome: Result<Headers, Fault>): Headers
    {
      match outcome case Ok(next) => next case Err(_) => this
    }

    function Run(calls: seq<Call>): Headers
      decreases |calls|
    {
      if calls == [] then this else After(calls[0]).Run(calls[1..])
    }
  }

  datatype Call =
    | AppendCall(name: string, value: string)
    | SetCall(name: string, value: string)
    | DeleteCall(name: string)
    | FillCall(init: seq<seq<string>>)

  // ---------------------------------------------------------------------------
  // The no-CORS guard
  // ---------------------------------------------------------------------------

  /** Every line has one of the four names, and every name's combined value is safelisted. */
  predicate Safe(list: seq<Header>, essence: Essence)
  {
    forall h :: h in list ==>
      AllowedName(h.name) && Get(list, h.name).Some? && SafelistedValue(h.name, Get(list, h.name).value, essence)
  }

  lemma SafeGet(list: seq<Header>, essence: Essence, name: string)
    requires Safe(list, essence) && Get(list, name).Some?
    ensures AllowedName(name) && SafelistedValue(name, Get(list, name).value, essence)
    ensures |Get(list, name).value| <= 128
  {
    HasValues(list, name);
    var h :| h in list && Same(h.name, name);
    SameValues(list, h.name, name);
  }

  /** A list whose every present name is safelisted is safe. */
  lemma SafeByGet(list: seq<Header>, essence: Essence)
    requires forall name :: Get(list, name).Some? ==> Safelisted(name, Get(list, name).value, essence)
    ensures Safe(list, essence)
  {
    forall h | h in list ensures Get(list, h.name).Some? { HasValues(list, h.name); }
  }

  lemma {:induction false} DeleteAbsent(list: seq<Header>, name: string)
    requires !Has(list, name)
    ensures Delete(list, name) == list
  {
    if list != [] { DeleteAbsent(list[1..], name); }
  }

  lemma NoRange(list: seq<Header>, essence: Essence)
    requires Safe(list, essence)
    ensures Delete(list, "Range") == list
  {
    assert Lower("Range") == "range";
    if Has(list, "Range") {
      HasValues(list, "Range");
      SafeGet(list, essence, "Range");
    } else {
      DeleteAbsent(list, "Range");
    }
  }

  lemma SafeAppend(list: seq<Header>, essence: Essence, name: string, value: string)
    requires Safe(list, essence) && Safelisted(name, Extended(list, name, value), essence)
    ensures Safe(Append(list, name, value), essence)
  {
    var longer := Append(list, name, value);
    forall other | Get(longer, other).Some? ensures Safelisted(other, Get(longer, other).value, essence) {
      GetAppend(list, name, value, other);
      if !Same(other, name) { SafeGet(list, essence, other); }
    }
    SafeByGet(longer, essence);
  }

  lemma SafeSet(list: seq<Header>, essence: Essence, name: string, value: string)
    requires Safe(list, essence) && Safelisted(name, value, essence)
    ensures Safe(Set(list, name, value), essence)
  {
    var other_ := Set(list, name, value);
    forall other | Get(other_, other).Some? ensures Safelisted(other, Get(other_, other).value, essence) {
      GetSet(list, name, value, other);
      if !Same(other, name) { SafeGet(list, essence, other); }
    }
    SafeByGet(other_, essence);
  }

  lemma SafeDelete(list: seq<Header>, essence: Essence, name: string)
    requires Safe(list, essence)
    ensures Safe(Delete(list, name), essence)
  {
    var shorter := Delete(list, name);
    forall other | Get(shorter, other).Some? ensures Safelisted(other, Get(shorter, other).value, essence) {
      GetDelete(list, name, other);
      SafeGet(list, essence, other);
    }
    SafeByGet(shorter, essence);
  }

  /** What every call keeps under a guard, whatever it is called with. */
  ghost predicate Guarded(h: Headers)
  {
    match h.guard
    case RequestNoCORS => Safe(h.list, h.essence)
    case Request => forall line :: line in h.list ==> !ForbiddenRequest(line.name, line.value)
    case Response => forall line :: line in h.list ==> !ForbiddenResponse(line.name)
    case Immutable => true
    case Unguarded => true
  }

  ghost predicate Kin(h: Headers, next: Headers) { next.guard == h.guard && next.essence == h.essence }

  lemma GuardedAppend(h: Headers, name: string, raw: string)
    requires Guarded(h)
    ensures h.Append(name, raw).Ok? ==> Guarded(h.Append(name, raw).value) && Kin(h, h.Append(name, raw).value)
  {
    hide Safelisted, Get, Token, ValidValue, Safe;
    var value := Normalized(raw);
    if h.Append(name, raw).Ok? && h.Append(name, raw).value != h {
      SpellingSame(h.list, name);
      if h.guard == RequestNoCORS {
        SafeAppend(h.list, h.essence, name, value);
        NoRange(Append(h.list, name, value), h.essence);
      }
    }
  }

  lemma GuardedSet(h: Headers, name: string, raw: string)
    requires Guarded(h)
    ensures h.Set(name, raw).Ok? ==> Guarded(h.Set(name, raw).value) && Kin(h, h.Set(name, raw).value)
  {
    hide Safelisted, Get, Token, ValidValue, Safe, Delete, HeaderList.Set;
    var value := Normalized(raw);
    if h.Set(name, raw).Ok? && h.Set(name, raw).value != h {
      if h.guard == RequestNoCORS {
        SafeSet(h.list, h.essence, name, value);
        NoRange(Set(h.list, name, value), h.essence);
      } else {
        forall line | line in Set(h.list, name, value)
          ensures line in h.list || (Same(line.name, name) && line.value == value)
        {
          LinesOfSet(h.list, name, value, line);
        }
      }
    }
  }

  lemma GuardedDelete(h: Headers, name: string)
    requires Guarded(h)
    ensures h.Delete(name).Ok? ==> Guarded(h.Delete(name).value) && Kin(h, h.Delete(name).value)
  {
    hide Safelisted, Get, Token, ValidValue, Safe, Delete;
    if h.Delete(name).Ok? && h.Delete(name).value != h {
      if h.guard == RequestNoCORS {
        SafeDelete(h.list, h.essence, name);
        NoRange(Delete(h.list, name), h.essence);
      } else {
        forall line | line in Delete(h.list, name) ensures line in h.list {
          LinesOfDelete(h.list, name, line);
        }
      }
    }
  }

  lemma {:induction false} GuardedFill(h: Headers, init: seq<seq<string>>, i: nat)
    requires Guarded(h) && i <= |init|
    ensures Guarded(h.Fill(init, i).0) && Kin(h, h.Fill(init, i).0)
    decreases |init| - i
  {
    if i < |init| && |init[i]| == 2 {
      GuardedAppend(h, init[i][0], init[i][1]);
      match h.Append(init[i][0], init[i][1]) {
        case Ok(next) => GuardedFill(next, init, i + 1);
        case Err(_) =>
      }
    }
  }

  /** Over any run of calls, thrown or not, the guard keeps its promise about the list. */
  lemma {:induction false} GuardedRun(h: Headers, calls: seq<Call>)
    requires Guarded(h)
    ensures Guarded(h.Run(calls)) && Kin(h, h.Run(calls))
    decreases |calls|
  {
    if calls != [] {
      match calls[0] {
        case AppendCall(name, value) => GuardedAppend(h, name, value);
        case SetCall(name, value) => GuardedSet(h, name, value);
        case DeleteCall(name) => GuardedDelete(h, name);
        case FillCall(init) => GuardedFill(h, init, 0);
      }
      GuardedRun(h.After(calls[0]), calls[1..]);
    }
  }

  /** What a no-CORS list read by name gives after any run from an empty list. */
  lemma NoCORSRun(essence: Essence, calls: seq<Call>, name: string)
    ensures match Get(Headers(RequestNoCORS, essence, []).Run(calls).list, name)
      case None => true
      case Some(value) => AllowedName(name) && SafelistedValue(name, value, essence) && |value| <= 128
  {
    hide SafelistedValue, Get, Headers.Run, AllowedName;
    var h := Headers(RequestNoCORS, essence, []);
    GuardedRun(h, calls);
    if Get(h.Run(calls).list, name).Some? { SafeGet(h.Run(calls).list, essence, name); }
  }

  // ---------------------------------------------------------------------------
  // Names an author cannot touch
  // ---------------------------------------------------------------------------

  predicate Protected(guard: Guard, name: string)
  {
    match guard
    case Immutable => true
    case Request => ForbiddenName(name)
    case Response => ForbiddenResponse(name)
    case RequestNoCORS => !AllowedName(name) && Lower(name) != "range"
    case Unguarded => false
  }

  lemma ProtectedAppend(h: Headers, name: string, raw: string, other: string)
    requires Protected(h.guard, other)
    ensures h.Append(name, raw).Ok? ==>
      Get(h.Append(name, raw).value.list, other) == Get(h.list, other) && h.Append(name, raw).value.guard == h.guard
  {
    hide Get, Token, ValidValue, SafelistedValue, Delete, HeaderList.Append;
    if h.Append(name, raw).Ok? && h.Append(name, raw).value != h {
      GetAppend(h.list, name, Normalized(raw), other);
      GetDelete(Append(h.list, name, Normalized(raw)), "Range", other);
    }
  }

  lemma ProtectedSet(h: Headers, name: string, raw: string, other: string)
    requires Protected(h.guard, other)
    ensures h.Set(name, raw).Ok? ==>
      Get(h.Set(name, raw).value.list, other) == Get(h.list, other) && h.Set(name, raw).value.guard == h.guard
  {
    hide Get, Token, ValidValue, SafelistedValue, Delete, HeaderList.Set;
    if h.Set(name, raw).Ok? && h.Set(name, raw).value != h {
      GetSet(h.list, name, Normalized(raw), other);
      GetDelete(Set(h.list, name, Normalized(raw)), "Range", other);
    }
  }

  lemma ProtectedDelete(h: Headers, name: string, other: string)
    requires Protected(h.guard, other)
    ensures h.Delete(name).Ok? ==>
      Get(h.Delete(name).value.list, other) == Get(h.list, other) && h.Delete(name).value.guard == h.guard
  {
    hide Get, Token, ValidValue, Delete;
    if h.Delete(name).Ok? && h.Delete(name).value != h {
      GetDelete(h.list, name, other);
      GetDelete(Delete(h.list, name), "Range", other);
    }
  }

  lemma {:induction false} ProtectedFill(h: Headers, init: seq<seq<string>>, i: nat, other: string)
    requires Protected(h.guard, other) && i <= |init|
    ensures Get(h.Fill(init, i).0.list, other) == Get(h.list, other) && h.Fill(init, i).0.guard == h.guard
    decreases |init| - i
  {
    if i < |init| && |init[i]| == 2 {
      ProtectedAppend(h, init[i][0], init[i][1], other);
      match h.Append(init[i][0], init[i][1]) {
        case Ok(next) => ProtectedFill(next, init, i + 1, other);
        case Err(_) =>
      }
    }
  }

  /** No run of calls changes what the guard protects, whatever the list held before. */
  lemma {:induction false} ProtectedRun(h: Headers, calls: seq<Call>, other: string)
    requires Protected(h.guard, other)
    ensures Get(h.Run(calls).list, other) == Get(h.list, other)
    decreases |calls|
  {
    if calls != [] {
      match calls[0] {
        case AppendCall(name, value) => ProtectedAppend(h, name, value, other);
        case SetCall(name, value) => ProtectedSet(h, name, value, other);
        case DeleteCall(name) => ProtectedDelete(h, name, other);
        case FillCall(init) => ProtectedFill(h, init, 0, other);
      }
      ProtectedRun(h.After(calls[0]), calls[1..], other);
    }
  }

  // ---------------------------------------------------------------------------
  // Method overrides, read as one value
  // ---------------------------------------------------------------------------

  /** Lines that are each permitted stay permitted when read together, while they close their quoted strings. */
  lemma CombinedOverride(list: seq<Header>, name: string)
    requires OverrideName(name) && Has(list, name)
    ensures Get(list, name).Some?
    ensures AllButLastClosed(ValuesOf(list, name)) ==>
      (ForbiddenRequest(name, Get(list, name).value) <==>
       exists v :: v in ValuesOf(list, name) && ForbiddenRequest(name, v))
  {
    hide Split, ForbiddenName, Get, ValuesOf, ForbiddenMethod;
    var values := ValuesOf(list, name);
    SplitOfList(list, name);
    forall m ensures m in Concat(SplitAll(values)) <==> exists v :: v in values && m in Split(v) {
      InConcat(values, m);
    }
    assert values[0] in values;
    if AllButLastClosed(values) {
      if m :| m in Split(Get(list, name).value) && ForbiddenMethod(m) {
        var v :| v in values && m in Split(v);
        assert ForbiddenRequest(name, v);
      }
    }
    assert ForbiddenName(name) ==> ForbiddenRequest(name, values[0]);
  }

  /**
   The guard checks a line by itself. What is then read, the line after what was there, is forbidden exactly when
   the line is, whatever the line, if and only if the value so far closes its quoted strings.
   */
  lemma ExtendedOverride(name: string, before: string)
    requires OverrideName(name) && !ForbiddenRequest(name, before)
    ensures Closed(before) <==>
      forall value :: ForbiddenRequest(name, before + ", " + value) <==> ForbiddenRequest(name, value)
  {
    hide Split, Closed, OverrideName, ForbiddenName, ForbiddenMethod;
    if Closed(before) {
      forall value ensures ForbiddenRequest(name, before + ", " + value) <==> ForbiddenRequest(name, value) {
        SplitCombination(before, value);
      }
    } else {
      assert HIDDEN == "\"" + ", TRACE";
      OpenHides(name, ", TRACE");
      OpenReveals(name, before);
    }
  }

  const HIDDEN: string := "\", TRACE"

  /** A line that is one open quoted string. */
  lemma OpenHides(name: string, rest: string)
    requires !ForbiddenName(name) && Bare("\"" + rest, TabOrSpace)
    requires forall i :: 0 <= i < |rest| ==> rest[i] != '"' && rest[i] != '\\'
    ensures !ForbiddenRequest(name, "\"" + rest)
  {
    hide Lower;
    var s := "\"" + rest;
    OpenWhole(rest);
    assert s[1..] == rest;
    assert Cut(s, Plain) == Prepend("\"", [rest]) == [s];
    TrimBare(s, TabOrSpace);
    NotMethod(s);
  }

  lemma NotMethod(s: string)
    requires s != "" && s[0] == '"'
    ensures !ForbiddenMethod(s)
  {
    assert Lower(s)[0] == '"';
  }

  lemma {:induction false} OpenWhole(s: string)
    requires forall i :: 0 <= i < |s| ==> s[i] != '"' && s[i] != '\\'
    ensures Cut(s, Quoted) == [s]
  {
    if s != "" {
      OpenWhole(s[1..]);
      assert [s[0]] + s[1..] == s;
    }
  }

  /** After an open quoted string its quote closes that one, and the rest stands for itself. */
  lemma OpenReveals(name: string, before: string)
    requires OverrideName(name) && !Closed(before)
    ensures ForbiddenRequest(name, before + ", " + HIDDEN)
  {
    hide Split, OverrideName;
    var open := before + ", \"";
    ModeAppend(before, ", \"", Plain);
    assert before + ", " + "\"" == open;
    CloseAfter(ModeAfter(before, Plain));
    SplitCombination(open, "TRACE");
    assert before + ", " + HIDDEN == open + ", " + "TRACE";
    TraceForbidden();
    assert "TRACE" in Split(open) + Split("TRACE");
  }

  lemma CloseAfter(mode: Mode)
    requires mode != Plain
    ensures ModeAfter(", \"", mode) == Plain
  {
    var s := ", \"";
    assert s[1..] == " \"" && s[1..][1..] == "\"" && s[1..][1..][1..] == "";
  }

  lemma TraceForbidden()
    ensures "TRACE" in Split("TRACE") && ForbiddenMethod("TRACE")
  {
    var s := "TRACE";
    assert s[1..] == "RACE" && s[2..] == "ACE" && s[3..] == "CE" && s[4..] == "E" && s[5..] == "";
    assert Lower(s) == "trace";
    PlainWhole(s);
    TrimBare(s, TabOrSpace);
    assert Split(s)[0] == s;
  }

  lemma {:induction false} PlainWhole(s: string)
    requires forall i :: 0 <= i < |s| ==> s[i] != '"' && s[i] != ','
    ensures Cut(s, Plain) == [s]
  {
    if s != "" {
      PlainWhole(s[1..]);
      assert [s[0]] + s[1..] == s;
    }
  }

  const OVERRIDE: string := "X-HTTP-Method"

  /** Two permitted calls on an empty request list leave two permitted lines that read together are not. */
  lemma OverrideSlipsThrough(essence: Essence)
    ensures var calls := [AppendCall(OVERRIDE, "\""), AppendCall(OVERRIDE, HIDDEN)];
      var list := Headers(Request, essence, []).Run(calls).list;
      list == [Header(OVERRIDE, "\""), Header(OVERRIDE, HIDDEN)] &&
      (forall h :: h in list ==> !ForbiddenRequest(h.name, h.value)) &&
      Get(list, OVERRIDE).Some? && ForbiddenRequest(OVERRIDE, Get(list, OVERRIDE).value)
  {
    hide Split, ForbiddenRequest, Headers.After, Headers.Run, Closed, OverrideName, ForbiddenName, Token, ValidValue;
    hide Get;
    OverrideWords();
    var h, one := Headers(Request, essence, []), [Header(OVERRIDE, "\"")];
    assert "\"" + "" == "\"" && "\"" + ", TRACE" == HIDDEN;
    OpenHides(OVERRIDE, "");
    OpenHides(OVERRIDE, ", TRACE");
    PermittedAppend(h, "\"");
    PermittedAppend(h.(list := one), HIDDEN);
    RunTwo(h, AppendCall(OVERRIDE, "\""), AppendCall(OVERRIDE, HIDDEN));
    OneLine();
    GetAppend(one, OVERRIDE, HIDDEN, OVERRIDE);
    OpenReveals(OVERRIDE, "\"");
  }

  lemma OneLine()
    ensures var one := [Header(OVERRIDE, "\"")];
      Append([], OVERRIDE, "\"") == one && Get(one, OVERRIDE) == Some("\"") &&
      Append(one, OVERRIDE, HIDDEN) == one + [Header(OVERRIDE, HIDDEN)]
  {
    var one := [Header(OVERRIDE, "\"")];
    assert one[1..] == [] && ValuesOf(one, OVERRIDE) == ["\""];
  }

  lemma RunTwo(h: Headers, first: Call, second: Call)
    ensures h.Run([first, second]) == h.After(first).After(second)
  {
    hide Headers.After;
    var calls, rest := [first, second], [second];
    assert h.Run(calls) == h.After(first).Run(calls[1..]) && calls[1..] == rest;
    assert h.After(first).Run(rest) == h.After(first).After(second).Run(rest[1..]) && rest[1..] == [];
  }

  lemma OverrideWords()
    ensures OverrideName(OVERRIDE) && !ForbiddenName(OVERRIDE) && Token(OVERRIDE)
    ensures !Closed("\"") && ValidValue("\"") && ValidValue(HIDDEN)
  {
    var lower := Lower(OVERRIDE);
    assert lower == "x-http-method" && lower[0] == 'x' && "proxy-"[0] == 'p' && "sec-"[0] == 's';
    assert "\""[1..] == "";
  }

  lemma PermittedAppend(h: Headers, value: string)
    requires h.guard == Request && Token(OVERRIDE) && ValidValue(value) && !ForbiddenRequest(OVERRIDE, value)
    ensures h.After(AppendCall(OVERRIDE, value)) == h.(list := Append(h.list, OVERRIDE, value))
  {
    hide ForbiddenRequest, Token, HeaderList.Append;
    TrimBare(value, HTTPWhitespace);
  }

  /** What is read under an override name is permitted, and closes its quoted strings. */
  predicate Sound(name: string, combined: Option<string>)
  {
    OverrideName(name) && combined.Some? ==> !ForbiddenRequest(name, combined.value) && Closed(combined.value)
  }

  ghost predicate OverridesSound(list: seq<Header>) { forall name :: Sound(name, Get(list, name)) }

  predicate ClosedValue(name: string, raw: string) { OverrideName(name) ==> Closed(Normalized(raw)) }

  predicate ClosedCall(call: Call)
  {
    match call
    case AppendCall(name, value) => ClosedValue(name, value)
    case SetCall(name, value) => ClosedValue(name, value)
    case DeleteCall(_) => true
    case FillCall(init) => forall i :: 0 <= i < |init| && |init[i]| == 2 ==> ClosedValue(init[i][0], init[i][1])
  }

  /** Over any run of calls that leave no quoted string open, what is read under an override name is permitted. */
  lemma {:induction false} OverrideRun(h: Headers, calls: seq<Call>)
    requires h.guard == Request && OverridesSound(h.list) && forall c :: c in calls ==> ClosedCall(c)
    ensures OverridesSound(h.Run(calls).list)
    decreases |calls|
  {
    hide OverridesSound, ClosedValue;
    if calls != [] {
      var call := calls[0];
      assert ClosedCall(call);
      match call {
        case AppendCall(name, value) => SoundAppend(h, name, value);
        case SetCall(name, value) => SoundSet(h, name, value);
        case DeleteCall(name) => SoundDelete(h, name);
        case FillCall(init) => SoundFill(h, init, 0);
      }
      OverrideRun(h.After(call), calls[1..]);
    }
  }

  lemma SoundAppend(h: Headers, name: string, raw: string)
    requires h.guard == Request && OverridesSound(h.list) && ClosedValue(name, raw)
    ensures h.Append(name, raw).Ok? ==>
      h.Append(name, raw).value.guard == Request && OverridesSound(h.Append(name, raw).value.list)
  {
    hide Token, ValidValue, SafelistedValue, HeaderList.Append, Split, Closed, ForbiddenRequest, ForbiddenName, Trim;
    hide Get;
    var value := Normalized(raw);
    forall other ensures h.Append(name, raw).Ok? ==> Sound(other, Get(h.Append(name, raw).value.list, other)) {
      assert Sound(other, Get(h.list, other)) && Sound(name, Get(h.list, name));
      GetAppend(h.list, name, value, other);
      if Same(other, name) {
        SameForbidden(other, name, Extended(h.list, name, value));
        if OverrideName(name) && Get(h.list, name).Some? { SoundExtended(name, Get(h.list, name).value, value); }
      }
    }
  }

  lemma SameForbidden(a: string, b: string, value: string)
    requires Same(a, b)
    ensures ForbiddenRequest(a, value) == ForbiddenRequest(b, value) && OverrideName(a) == OverrideName(b)
  {
  }

  lemma SoundExtended(name: string, before: string, value: string)
    requires OverrideName(name) && !ForbiddenRequest(name, before) && Closed(before)
    ensures ForbiddenRequest(name, before + ", " + value) <==> ForbiddenRequest(name, value)
    ensures Closed(before + ", " + value) <==> Closed(value)
  {
    hide Split, ForbiddenName;
    SplitCombination(before, value);
    ModeAppend(before + ", ", value, Plain);
    ModeAppend(before, ", ", Plain);
    assert ", "[1..] == " " && " "[1..] == "";
  }

  lemma SoundSet(h: Headers, name: string, raw: string)
    requires h.guard == Request && OverridesSound(h.list) && ClosedValue(name, raw)
    ensures h.Set(name, raw).Ok? ==>
      h.Set(name, raw).value.guard == Request && OverridesSound(h.Set(name, raw).value.list)
  {
    hide Get, Token, ValidValue, SafelistedValue, HeaderList.Set, Split, Closed, ForbiddenRequest, ForbiddenName, Trim;
    forall other ensures h.Set(name, raw).Ok? ==> Sound(other, Get(h.Set(name, raw).value.list, other)) {
      assert Sound(other, Get(h.list, other));
      GetSet(h.list, name, Normalized(raw), other);
      if Same(other, name) { SameForbidden(other, name, Normalized(raw)); }
    }
  }

  lemma SoundDelete(h: Headers, name: string)
    requires h.guard == Request && OverridesSound(h.list)
    ensures h.Delete(name).Ok? ==> h.Delete(name).value.guard == Request && OverridesSound(h.Delete(name).value.list)
  {
    hide Get, Token, ValidValue, HeaderList.Delete, Split, Closed, ForbiddenRequest, ForbiddenName;
    forall other ensures h.Delete(name).Ok? ==> Sound(other, Get(h.Delete(name).value.list, other)) {
      assert Sound(other, Get(h.list, other));
      GetDelete(h.list, name, other);
    }
  }

  lemma {:induction false} SoundFill(h: Headers, init: seq<seq<string>>, i: nat)
    requires h.guard == Request && OverridesSound(h.list) && i <= |init| && ClosedCall(FillCall(init))
    ensures h.Fill(init, i).0.guard == Request && OverridesSound(h.Fill(init, i).0.list)
    decreases |init| - i
  {
    hide OverridesSound, ClosedValue;
    if i < |init| && |init[i]| == 2 {
      SoundAppend(h, init[i][0], init[i][1]);
      match h.Append(init[i][0], init[i][1]) {
        case Ok(next) => SoundFill(next, init, i + 1);
        case Err(_) =>
      }
    }
  }

  lemma {:induction false} InConcat(values: seq<string>, m: string)
    ensures m in Concat(SplitAll(values)) <==> exists v :: v in values && m in Split(v)
  {
    if values != [] {
      assert SplitAll(values)[1..] == SplitAll(values[1..]);
      assert values == [values[0]] + values[1..];
      InConcat(values[1..], m);
    }
  }

  // ---------------------------------------------------------------------------
  // The object
  // ---------------------------------------------------------------------------

  class HeadersImpl {
    const headerList: FetchHeaders
    const essence: Essence
    var guard: Guard

    constructor (headerList: FetchHeaders, guard: Guard, essence: Essence)
      ensures this.headerList == headerList && State() == Headers(guard, essence, headerList.list)
    {
      this.headerList, this.guard, this.essence := headerList, guard, essence;
    }

    ghost function State(): Headers
      reads this, headerList
    {
      Headers(guard, essence, headerList.list)
    }

    /** `append` */
    method Append(name: string, raw: string) returns (fault: Option<Fault>)
      modifies headerList
      ensures match old(State()).Append(name, raw)
        case Err(f) => fault == Some(f) && State() == old(State())
        case Ok(next) => fault == None && State() == next
    {
      var value := Trim(raw, HTTPWhitespace);
      match Validate(guard, name, value) {
        case Err(f) => return Some(f);
        case Ok(permitted) => if !permitted { return None; }
      }
      if guard == RequestNoCORS {
        var existing := headerList.GetValue(name);
        var temporary := if existing == None then value else existing.value + ", " + value;
        if !Safelisted(name, temporary, essence) { return None; }
      }
      headerList.AppendLine(name, value);
      if guard == RequestNoCORS { headerList.DeleteName("Range"); }
      fault := None;
    }

    /** `set` */
    method Set(name: string, raw: string) returns (fault: Option<Fault>)
      modifies headerList
      ensures match old(State()).Set(name, raw)
        case Err(f) => fault == Some(f) && State() == old(State())
        case Ok(next) => fault == None && State() == next
    {
      var value := Trim(raw, HTTPWhitespace);
      match Validate(guard, name, value) {
        case Err(f) => return Some(f);
        case Ok(permitted) => if !permitted { return None; }
      }
      if guard == RequestNoCORS && !Safelisted(name, value, essence) { return None; }
      headerList.SetValue(name, value);
      if guard == RequestNoCORS { headerList.DeleteName("Range"); }
      fault := None;
    }

    /** `delete` */
    method Delete(name: string) returns (fault: Option<Fault>)
      modifies headerList
      ensures match old(State()).Delete(name)
        case Err(f) => fault == Some(f) && State() == old(State())
        case Ok(next) => fault == None && State() == next
    {
      match Validate(guard, name, "") {
        case Err(f) => return Some(f);
        case Ok(permitted) => if !permitted { return None; }
      }
      if guard == RequestNoCORS && !AllowedName(name) && Lower(name) != "range" { return None; }
      var present := headerList.HasName(name);
      if !present { return None; }
      headerList.DeleteName(name);
      if guard == RequestNoCORS { headerList.DeleteName("Range"); }
      fault := None;
    }

    /** `fill`; a record is given as its list of pairs. */
    method Fill(init: seq<seq<string>>) returns (fault: Option<Fault>)
      modifies headerList
      ensures (State(), fault) == old(State()).Fill(init, 0)
    {
      for i := 0 to |init|
        invariant State().Fill(init, i) == old(State()).Fill(init, 0)
      {
        if |init[i]| != 2 { return Some(WrongLength); }
        fault := Append(init[i][0], init[i][1]);
        if fault != None { return; }
      }
      fault := None;
    }
  }
}
