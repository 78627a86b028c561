/**
 What a call on a guarded header object leaves to be read (src/fetch/headers.ts `HeadersImpl`): the exact condition,
 guard by guard, under which `append`, `set`, `delete` and `fill` throw, are ignored, or take effect.
 */
module HeaderCalls {
  import opened Prelude
  import opened Text
  import opened HeaderList
  import opened HeaderSplit
  import opened HeadersGuard

  predicate LetterOrDigit(c: char) { 'a' <= c <= 'z' || 'A' <= c <= 'Z' || '0' <= c <= '9' }

  /** A token of section 5.6.2 of RFC 9110. */
  predicate GoodName(name: string)
  {
    name != "" && forall c :: c in name ==> LetterOrDigit(c) || c in "!#$%&'*+-.^_`|~"
  }

  predicate GoodValue(value: string)
  {
    (value == "" || (value[0] !in "\t " && value[|value| - 1] !in "\t ")) &&
    forall c :: c in value ==> c !in "\n\r" && 0 < c as int < 256
  }

  /** A name that only the user agent sets. */
  predicate UserAgentName(name: string)
  {
    var lower := Lower(name);
    lower in {
      "accept-charset", "accept-encoding", "access-control-request-headers", "access-control-request-method",
      "connection", "content-length", "cookie", "cookie2", "date", "dnt", "expect", "host", "keep-alive", "origin",
      "referer", "set-cookie", "te", "trailer", "transfer-encoding", "upgrade", "via"} ||
    lower[..if |lower| < 6 then |lower| else 6] == "proxy-" || lower[..if |lower| < 4 then |lower| else 4] == "sec-"
  }

  /** One of the method names between the commas may not be used. */
  predicate OverridesMethod(name: string, value: string)
  {
    Lower(name) in {"x-http-method", "x-http-method-override", "x-method-override"} &&
    exists m :: m in Split(value) && (Same(m, "CONNECT") || Same(m, "TRACE") || Same(m, "TRACK"))
  }

  predicate ResponseName(name: string) { Same(name, "Set-Cookie") || Same(name, "Set-Cookie2") }

  predicate PlainByte(c: char) { (c == '\t' || ' ' <= c) && c as int != 127 && c !in "\"():<>?@[\\]{}" }

  /** A value, as it would then be read, that needs no preflight. */
  predicate SimpleValue(name: string, value: string, essence: Essence)
  {
    |value| <= 128 &&
    if Same(name, "Accept") then forall c :: c in value ==> PlainByte(c)
    else if Same(name, "Accept-Language") || Same(name, "Content-Language") then
      forall c :: c in value ==> LetterOrDigit(c) || c in " *,-.;="
    else
      Same(name, "Content-Type") && (forall c :: c in value ==> PlainByte(c)) &&
      (essence(value) == Some("application/x-www-form-urlencoded") || essence(value) == Some("multipart/form-data") ||
       essence(value) == Some("text/plain"))
  }

  /** A call that sets the value takes effect if what is then read, `read`, is in order. */
  predicate Takes(h: Headers, name: string, value: string, read: string)
  {
    GoodName(name) && GoodValue(value) && h.guard != Immutable &&
    (h.guard == Request ==> !UserAgentName(name) && !OverridesMethod(name, value)) &&
    (h.guard == Response ==> !ResponseName(name)) &&
    (h.guard == RequestNoCORS ==> SimpleValue(name, read, h.essence))
  }

  // ---------------------------------------------------------------------------
  // The conditions are those of the source
  // ---------------------------------------------------------------------------

  lemma GoodToken(name: string)
    ensures Token(name) <==> GoodName(name)
  {
    assert forall i :: 0 <= i < |name| ==> name[i] in name;
  }

  lemma GoodText(value: string)
    ensures ValidValue(value) <==> GoodValue(value)
  {
    assert forall i :: 0 <= i < |value| ==> value[i] in value;
  }

  lemma Words()
    ensures Lower("CONNECT") == "connect" && Lower("TRACE") == "trace" && Lower("TRACK") == "track"
    ensures Lower("Set-Cookie") == "set-cookie" && Lower("Set-Cookie2") == "set-cookie2" && Lower("Range") == "range"
    ensures Lower("Accept") == "accept" && Lower("Accept-Language") == "accept-language"
    ensures Lower("Content-Language") == "content-language" && Lower("Content-Type") == "content-type"
  {
  }

  lemma UserAgentForbidden(name: string)
    ensures ForbiddenName(name) <==> UserAgentName(name)
  {
  }

  lemma OverrideForbidden(name: string, value: string)
    ensures ForbiddenRequest(name, value) <==> UserAgentName(name) || OverridesMethod(name, value)
  {
    hide Split, Lower;
    Words();
    UserAgentForbidden(name);
  }

  lemma SimpleSafelisted(name: string, value: string, essence: Essence)
    ensures Safelisted(name, value, essence) <==> SimpleValue(name, value, essence)
  {
    hide Lower;
    Words();
    assert forall i :: 0 <= i < |value| ==> value[i] in value;
  }

  lemma TakesExactly(h: Headers, name: string, value: string, read: string)
    ensures Takes(h, name, value, read) <==>
      Validate(h.guard, name, value) == Ok(true) && (h.guard == RequestNoCORS ==> Safelisted(name, read, h.essence))
  {
    hide Token, GoodName, ValidValue, GoodValue, Safelisted, SimpleValue, ForbiddenRequest, Lower, Split;
    Words();
    GoodToken(name);
    GoodText(value);
    OverrideForbidden(name, value);
    SimpleSafelisted(name, read, h.essence);
  }

  /** Normalizing drops tabs, spaces and line breaks at both ends, and nothing else. */
  lemma NormalizedExactly(raw: string, value: string)
    ensures Trim(raw, HTTPWhitespace) == value <==>
      exists left: string, right: string :: raw == left + value + right && Edge(left) && Edge(right) && Core(value)
  {
    hide Trim;
    if Trim(raw, HTTPWhitespace) == value {
      var left, right := TrimParts(raw, HTTPWhitespace);
      assert raw == left + value + right && Edge(left) && Edge(right) && Core(value);
    }
    if left: string, right: string :| raw == left + value + right && Edge(left) && Edge(right) && Core(value) {
      TrimPadded(left, value, right, HTTPWhitespace);
    }
  }

  predicate Edge(s: string) { forall i :: 0 <= i < |s| ==> s[i] in "\t \n\r" }

  predicate Core(s: string) { s != "" ==> s[0] !in "\t \n\r" && s[|s| - 1] !in "\t \n\r" }

  // ---------------------------------------------------------------------------
  // What a call leaves to be read
  // ---------------------------------------------------------------------------

  /** Setting and appending throw exactly then, the name being looked at first. */
  lemma ThrowsExactly(h: Headers, name: string, raw: string)
    ensures var value := Trim(raw, HTTPWhitespace);
      var fault :=
        if !GoodName(name) then Some(InvalidName)
        else if !GoodValue(value) then Some(InvalidValue)
        else if h.guard == Immutable then Some(ImmutableList)
        else None;
      (match h.Set(name, raw) case Ok(_) => fault == None case Err(f) => fault == Some(f)) &&
      (match h.Append(name, raw) case Ok(_) => fault == None case Err(f) => fault == Some(f)) &&
      (match h.Delete(name)
       case Ok(_) => GoodName(name) && h.guard != Immutable
       case Err(f) => f == if !GoodName(name) then InvalidName else ImmutableList) &&
      (fault != None ==> h.After(SetCall(name, raw)) == h == h.After(AppendCall(name, raw)))
  {
    hide Token, GoodName, ValidValue, GoodValue, ForbiddenRequest, Safelisted, Trim, HeaderList.Set;
    GoodToken(name);
    GoodText(Trim(raw, HTTPWhitespace));
    GoodText("");
    EmptyGood();
  }

  lemma EmptyGood()
    ensures GoodValue("")
  {
  }

  /** After `set`, if it takes effect, the name reads as the one value; no other name changes, but for Range. */
  lemma SetReads(h: Headers, name: string, raw: string, other: string)
    ensures var value, after := Trim(raw, HTTPWhitespace), h.After(SetCall(name, raw));
      if !Takes(h, name, value, value) then after == h
      else
        after.guard == h.guard && after.essence == h.essence &&
        Get(after.list, other) ==
          if h.guard == RequestNoCORS && Same(other, "Range") then None
          else if Same(other, name) then Some(value)
          else Get(h.list, other)
  {
    hide Takes, Validate, Safelisted, Get, HeaderList.Set, HeaderList.Delete, Trim;
    var value := Trim(raw, HTTPWhitespace);
    TakesExactly(h, name, value, value);
    GetSet(h.list, name, value, other);
    GetDelete(Set(h.list, name, value), "Range", other);
  }

  /** After `append`, if it takes effect, the value follows what was read before. */
  lemma AppendReads(h: Headers, name: string, raw: string, other: string)
    ensures var value, before, after := Trim(raw, HTTPWhitespace), Get(h.list, name), h.After(AppendCall(name, raw));
      var read := if before == None then value else before.value + ", " + value;
      if !Takes(h, name, value, read) then after == h
      else
        after.guard == h.guard && after.essence == h.essence &&
        Get(after.list, other) ==
          if h.guard == RequestNoCORS && Same(other, "Range") then None
          else if Same(other, name) then Some(read)
          else Get(h.list, other)
  {
    hide Takes, Validate, Safelisted, Get, HeaderList.Append, HeaderList.Delete, Trim;
    var value, before := Trim(raw, HTTPWhitespace), Get(h.list, name);
    TakesExactly(h, name, value, if before == None then value else before.value + ", " + value);
    GetAppend(h.list, name, value, other);
    GetDelete(Append(h.list, name, value), "Range", other);
  }

  /** The name may be deleted under this guard. */
  predicate Deletes(guard: Guard, name: string)
  {
    GoodName(name) && guard != Immutable && (guard == Request ==> !UserAgentName(name)) &&
    (guard == Response ==> !ResponseName(name)) &&
    (guard == RequestNoCORS ==>
      Same(name, "Accept") || Same(name, "Accept-Language") || Same(name, "Content-Language") ||
      Same(name, "Content-Type") || Same(name, "Range"))
  }

  /** After `delete`, if it takes effect, nothing reads under the name; no other name changes, but for Range. */
  lemma DeleteReads(h: Headers, name: string, other: string)
    ensures var after := h.After(DeleteCall(name));
      if !Deletes(h.guard, name) || Get(h.list, name) == None then after == h
      else
        after.guard == h.guard && after.essence == h.essence &&
        Get(after.list, other) ==
          if Same(other, name) || (h.guard == RequestNoCORS && Same(other, "Range")) then None else Get(h.list, other)
  {
    hide Validate, Get, Has, HeaderList.Delete, Lower;
    DeletesExactly(h.guard, name);
    HasValues(h.list, name);
    GetDelete(h.list, name, other);
    GetDelete(Delete(h.list, name), "Range", other);
  }

  lemma DeletesExactly(guard: Guard, name: string)
    ensures Deletes(guard, name) <==>
      Validate(guard, name, "") == Ok(true) &&
      (guard == RequestNoCORS ==> AllowedName(name) || Lower(name) == "range")
  {
    hide Token, GoodName, ValidValue, GoodValue, ForbiddenRequest, UserAgentName, Lower, Split;
    Words();
    GoodToken(name);
    GoodText("");
    EmptyGood();
    OverrideForbidden(name, "");
    NoMethods();
  }

  lemma NoMethods()
    ensures Split("") == [""] && !Same("", "CONNECT") && !Same("", "TRACE") && !Same("", "TRACK")
  {
    PlainWhole("");
    TrimBare("", TabOrSpace);
  }

  function Appends(init: seq<seq<string>>, from: nat, to: nat): (calls: seq<Call>)
    requires from <= to <= |init| && forall i :: from <= i < to ==> |init[i]| == 2
    ensures |calls| == to - from
  {
    seq(to - from, i requires 0 <= i < to - from => AppendCall(init[from + i][0], init[from + i][1]))
  }

  /** `fill` appends the entries up to the first that is no pair or throws, and throws for that one. */
  lemma {:induction false} FillAppends(h: Headers, init: seq<seq<string>>, from: nat) returns (n: nat)
    requires from <= |init|
    ensures from <= n <= |init| && forall i :: from <= i < n ==> |init[i]| == 2
    ensures var (after, fault) := h.Fill(init, from);
      after == h.Run(Appends(init, from, n)) && (from == 0 ==> after == h.After(FillCall(init))) &&
      if n == |init| then fault == None
      else if |init[n]| != 2 then fault == Some(WrongLength)
      else fault.Some? && after.Append(init[n][0], init[n][1]) == Err(fault.value)
    decreases |init| - from
  {
    hide Headers.Append;
    n := from;
    if from < |init| && |init[from]| == 2 {
      var first := h.Append(init[from][0], init[from][1]);
      if first.Ok? {
        n := FillAppends(first.value, init, from + 1);
        var calls := Appends(init, from, n);
        assert calls[0] == AppendCall(init[from][0], init[from][1]) && calls[1..] == Appends(init, from + 1, n);
        assert h.After(calls[0]) == first.value;
      }
    }
  }
}
