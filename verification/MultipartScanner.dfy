/** The loops of src/fetch/multipart.ts, with their positions: they compute what the other modules describe. */
module MultipartScanner {
  import opened Prelude
  import opened Text
  import opened MultipartText
  import opened MultipartHeaders
  import opened Multipart

  /** `encodeMultipartFormData`, for a given boundary. */
  method EncodeFormData(entries: seq<Entry>, boundary: string) returns (data: string)
    ensures data == Encode(entries, boundary)
  {
    hide Body, SectionOf, Encode;
    var parts: seq<string> := [];
    assert entries[0..] == entries;
    for i := 0 to |entries|
      invariant Concat(parts) + Encode(entries[i..], boundary) == Encode(entries, boundary)
    {
      var entry := entries[i];
      var header := "--" + boundary + CRLF + SectionOf(entry) + BLANK;
      EncodeStep(parts, entries, i, boundary, header);
      parts := parts + [header];
      parts := parts + [Body(entry)];
      parts := parts + [CRLF];
    }
    assert entries[|entries|..] == [];
    EncodeEnd(parts, boundary);
    parts := parts + ["--" + boundary + "--" + CRLF];
    data := Concat(parts);
  }

  lemma EncodeStep(parts: seq<string>, entries: seq<Entry>, i: nat, boundary: string, header: string)
    requires i < |entries| && header == "--" + boundary + CRLF + SectionOf(entries[i]) + BLANK
    ensures Concat(parts) + Encode(entries[i..], boundary) ==
      Concat(parts + [header] + [Body(entries[i])] + [CRLF]) + Encode(entries[i + 1..], boundary)
  {
    hide Body, SectionOf;
    var body := Body(entries[i]);
    assert entries[i..][1..] == entries[i + 1..];
    ConcatSnoc(parts, header);
    ConcatSnoc(parts + [header], body);
    ConcatSnoc(parts + [header] + [body], CRLF);
    var before, after := Concat(parts), Encode(entries[i + 1..], boundary);
    assert Encode(entries[i..], boundary) == header + body + CRLF + after;
    assert before + (header + body + CRLF + after) == before + header + body + CRLF + after;
  }

  lemma EncodeEnd(parts: seq<string>, boundary: string)
    ensures Concat(parts + ["--" + boundary + "--" + CRLF]) == Concat(parts) + Encode([], boundary)
  {
    ConcatSnoc(parts, "--" + boundary + "--" + CRLF);
  }

  // ---------------------------------------------------------------------------
  // Cursor movements
  // ---------------------------------------------------------------------------

  /** The rest of the text from a position. */
  function Rest(s: string, i: nat): (r: string)
    requires i <= |s|
    ensures |r| == |s| - i
  {
    s[i..]
  }

  lemma RestStep(s: string, i: nat)
    requires i < |s|
    ensures Rest(s, i)[0] == s[i] && Rest(s, i)[1..] == Rest(s, i + 1)
  {
  }

  method CloseComment(s: string, from: nat) returns (r: Option<nat>)
    requires from <= |s|
    ensures match r
      case None => AfterComment(Rest(s, from), 1) == None
      case Some(i) => from <= i <= |s| && AfterComment(Rest(s, from), 1) == Some(Rest(s, i))
  {
    var i, depth: nat := from, 1;
    while depth != 0
      invariant from <= i <= |s|
      invariant AfterComment(Rest(s, from), 1) == AfterComment(Rest(s, i), depth)
      decreases |s| - i, depth
    {
      if i == |s| { return None; }
      RestStep(s, i);
      var c := s[i];
      i := i + 1;
      if c == '(' {
        depth := depth + 1;
      } else if c == ')' {
        depth := depth - 1;
      } else if c == '\\' {
        if i == |s| { return None; }
        assert Rest(s, i - 1)[2..] == Rest(s, i + 1);
        i := i + 1;
      }
    }
    r := Some(i);
  }

  /** `skipWhitespaceAndComments` */
  method SkipWhitespaceAndComments(s: string, from: nat) returns (r: Option<nat>)
    requires from <= |s|
    ensures match r
      case None => Skip(Rest(s, from)) == None
      case Some(i) => from <= i <= |s| && Skip(Rest(s, from)) == Some(Rest(s, i))
  {
    var i := from;
    while true
      invariant from <= i <= |s| && Skip(Rest(s, from)) == Skip(Rest(s, i))
      decreases |s| - i
    {
      while i < |s| && TabOrSpace(s[i])
        invariant from <= i <= |s| && Skip(Rest(s, from)) == Skip(Rest(s, i))
      {
        RestStep(s, i);
        i := i + 1;
      }
      if i == |s| || s[i] != '(' { return Some(i); }
      RestStep(s, i);
      var closed := CloseComment(s, i + 1);
      if closed == None { return None; }
      i := closed.value;
    }
  }

  method TakeToken(s: string, from: nat) returns (i: nat)
    requires from <= |s|
    ensures from <= i <= |s| && Token(Rest(s, from)) == (s[from..i], Rest(s, i))
  {
    i := from;
    while i < |s| && TokenChar(s[i])
      invariant from <= i <= |s| && forall k :: from <= k < i ==> TokenChar(s[k])
    {
      i := i + 1;
    }
    assert Rest(s, from) == s[from..i] + Rest(s, i);
    TokenOf(s[from..i], Rest(s, i));
  }

  /** The loop over a quoted string, from after its opening quote. */
  method ReadQuoted(s: string, from: nat) returns (r: Option<(string, nat)>)
    requires from <= |s|
    ensures match r
      case None => Quoted(Rest(s, from)) == None
      case Some((value, i)) => from < i <= |s| && Quoted(Rest(s, from)) == Some((value, Rest(s, i)))
  {
    var value, i := "", from;
    JoinedNothing(Quoted(Rest(s, from)));
    while i < |s|
      invariant from <= i <= |s|
      invariant Quoted(Rest(s, from)) == Joined(value, Quoted(Rest(s, i)))
    {
      RestStep(s, i);
      assert value + "" == value;
      if s[i] == '"' { return Some((value, i + 1)); }
      if s[i] == '\\' {
        if i + 1 == |s| { return None; }
        assert Rest(s, i)[1] == s[i + 1] && Rest(s, i)[2..] == Rest(s, i + 2);
        JoinedTwice(value, s[i + 1], Quoted(Rest(s, i + 2)));
        value, i := value + [s[i + 1]], i + 2;
      } else {
        JoinedTwice(value, s[i], Quoted(Rest(s, i + 1)));
        value, i := value + [s[i]], i + 1;
      }
    }
    r := None;
  }

  function Joined(value: string, rest: Option<(string, string)>): Option<(string, string)>
  {
    match rest case None => None case Some((text, after)) => Some((value + text, after))
  }

  lemma JoinedNothing(rest: Option<(string, string)>)
    ensures Joined("", rest) == rest
  {
    if rest.Some? { assert "" + rest.value.0 == rest.value.0; }
  }

  lemma JoinedTwice(value: string, c: char, rest: Option<(string, string)>)
    ensures Joined(value + [c], rest) == Joined(value, Joined([c], rest))
  {
    if rest.Some? { assert value + [c] + rest.value.0 == value + ([c] + rest.value.0); }
  }

  // ---------------------------------------------------------------------------
  // A part's headers
  // ---------------------------------------------------------------------------

  /** One turn of the parameter loop. */
  method ReadParameter(s: string, from: nat) returns (r: Result<(string, string, nat), Fault>)
    requires from < |s|
    ensures match r
      case Err(fault) => Parameter(Rest(s, from)) == Err(fault)
      case Ok((name, value, i)) => from < i <= |s| && Parameter(Rest(s, from)) == Ok((name, value, Rest(s, i)))
  {
    hide Skip, Token, Quoted;
    RestStep(s, from);
    if s[from] != ';' { return Err(InvalidParameter); }
    var a := SkipWhitespaceAndComments(s, from + 1);
    if a == None { return Err(UnterminatedComment); }
    var b := TakeToken(s, a.value);
    var name := Lower(s[a.value..b]);
    var c := SkipWhitespaceAndComments(s, b);
    if c == None { return Err(UnterminatedComment); }
    if name == "" || c.value == |s| || s[c.value] != '=' { return Err(InvalidParameter); }
    RestStep(s, c.value);
    var d := SkipWhitespaceAndComments(s, c.value + 1);
    if d == None { return Err(UnterminatedComment); }
    r := ReadValue(s, name, d.value);
  }

  method ReadValue(s: string, name: string, from: nat) returns (r: Result<(string, string, nat), Fault>)
    requires from <= |s|
    ensures match r
      case Err(fault) => ParameterValue(name, Rest(s, from)) == Err(fault)
      case Ok((n, value, i)) => from <= i <= |s| && ParameterValue(name, Rest(s, from)) == Ok((n, value, Rest(s, i)))
  {
    hide Skip, Token, Quoted;
    var value, end := "", from;
    if from < |s| && s[from] == '"' {
      RestStep(s, from);
      var quoted := ReadQuoted(s, from + 1);
      if quoted == None { return Err(UnterminatedParameter); }
      value, end := quoted.value.0, quoted.value.1;
    } else {
      end := TakeToken(s, from);
      value := s[from..end];
      if value == "" { return Err(MissingValue); }
    }
    var after := SkipWhitespaceAndComments(s, end);
    r := match after case None => Err(UnterminatedComment) case Some(i) => Ok((name, value, i));
  }

  method ReadDisposition(s: string) returns (r: Result<map<string, string>, Fault>)
    ensures r == Disposition(s)
  {
    hide Skip, Token, Parameter;
    assert Rest(s, 0) == s;
    var a := SkipWhitespaceAndComments(s, 0);
    if a == None { return Err(UnterminatedComment); }
    var b := TakeToken(s, a.value);
    if Lower(s[a.value..b]) != "form-data" { return Err(UnexpectedDisposition); }
    var c := SkipWhitespaceAndComments(s, b);
    if c == None { return Err(UnterminatedComment); }
    var parameters: map<string, string> := map[];
    var i := c.value;
    while i < |s|
      invariant i <= |s| && Disposition(s) == Parameters(Rest(s, i), parameters)
    {
      var read := ReadParameter(s, i);
      match read {
        case Err(fault) => return Err(fault);
        case Ok((name, value, next)) =>
          if name in parameters { return Err(DuplicateParameter); }
          parameters, i := parameters[name := value], next;
      }
    }
    r := Ok(parameters);
  }

  /** `parsePartHeaders` */
  method ParsePartHeaders(section: string) returns (r: Result<Fields, Fault>)
    ensures r == PartFields(section)
  {
    hide Disposition, ReadLine;
    var lines := Lines(Unfolded(section));
    var found := Found(None, None);
    assert lines[0..] == lines;
    for i := 0 to |lines|
      invariant ReadLines(Found(None, None), lines) == ReadLines(found, lines[i..])
    {
      assert lines[i..][1..] == lines[i + 1..];
      match ReadLine(found, lines[i]) {
        case Err(fault) => return Err(fault);
        case Ok(next) => found := next;
      }
    }
    if found.disposition == None { return Err(MissingDisposition); }
    var parameters := ReadDisposition(found.disposition.value);
    match parameters {
      case Err(fault) => return Err(fault);
      case Ok(known) =>
        if "name" !in known { return Err(MissingName); }
        r := Ok(Fields(known["name"], Lookup(known, "filename"), found.contentType));
    }
  }

  // ---------------------------------------------------------------------------
  // The whole body
  // ---------------------------------------------------------------------------

  /** The part between two delimiters, from a position: the entry, and where the next delimiter's line break is. */
  method ReadPartAt(input: string, position: nat, delimiter: string) returns (r: Result<(Entry, nat), Fault>)
    requires position <= |input|
    ensures match r
      case Err(fault) => ReadPart(Rest(input, position), delimiter) == Err(fault)
      case Ok((entry, next)) =>
        position <= next && ReadPart(Rest(input, position), delimiter) == Ok((entry, next - position))
  {
    hide Find, PartFields, ReadEntry;
    FindRest(input, CRLF + delimiter, position);
    FindRest(input, BLANK, position);
    var next := IndexOf(input, CRLF + delimiter, position);
    if next == None { return Err(IncompleteBody); }
    var end := IndexOf(input, BLANK, position);
    if end == None || end.value + 4 > next.value { return Err(MissingSeparator); }
    assert Rest(input, position)[..end.value - position] == input[position..end.value];
    assert Rest(input, position)[end.value + 4 - position..next.value - position] == input[end.value + 4..next.value];
    var fields := ParsePartHeaders(input[position..end.value]);
    match fields {
      case Err(fault) => return Err(fault);
      case Ok(f) => r := Ok((ReadEntry(f, input[end.value + 4..next.value]), next.value));
    }
  }

  /** The tabs and spaces after a delimiter. */
  method SkipPadding(input: string, from: nat) returns (position: nat)
    requires from <= |input|
    ensures from <= position <= |input| && SkipBlanks(Rest(input, from)) == SkipBlanks(Rest(input, position))
    ensures position < |input| ==> !TabOrSpace(input[position])
  {
    position := from;
    while position < |input| && TabOrSpace(input[position])
      invariant from <= position <= |input|
      invariant SkipBlanks(Rest(input, from)) == SkipBlanks(Rest(input, position))
    {
      RestStep(input, position);
      position := position + 1;
    }
  }

  function Preceded(entries: seq<Entry>, rest: Result<seq<Entry>, Fault>): Result<seq<Entry>, Fault>
  {
    match rest case Err(fault) => Err(fault) case Ok(more) => Ok(entries + more)
  }

  lemma PrecededTwice(entries: seq<Entry>, entry: Entry, rest: Result<seq<Entry>, Fault>)
    ensures Preceded(entries + [entry], rest) == Preceded(entries, Prepended(entry, rest))
  {
    if rest.Ok? { assert entries + [entry] + rest.value == entries + ([entry] + rest.value); }
  }

  /** `parseMultipartFormData` */
  method ParseFormData(input: string, boundary: Option<string>) returns (r: Result<seq<Entry>, Fault>)
    ensures r == Parse(input, boundary)
  {
    hide ParseRest, ReadPart, ValidBoundary, SkipBlanks, Prepended, FindFrom;
    if boundary == None || !ValidBoundary(boundary.value) { return Err(InvalidBoundary); }
    var delimiter := "--" + boundary.value;
    var position: nat := 0;
    if !(delimiter <= input) {
      var first := IndexOf(input, CRLF + delimiter, 0);
      if first == None { return Err(MissingDelimiter); }
      position := first.value + 2;
    }
    var entries: seq<Entry> := [];
    PrecededNothing(ParseRest(Rest(input, position + |delimiter|), delimiter));
    while true
      invariant position + |delimiter| <= |input|
      invariant Parse(input, boundary) == Preceded(entries, ParseRest(Rest(input, position + |delimiter|), delimiter))
      decreases |input| - position
    {
      var start := position + |delimiter|;
      position := start;
      var closing := At(input, "--", position);
      if closing { position := position + 2; }
      position := SkipPadding(input, position);
      DelimiterLine(input, start, position, closing, delimiter);
      assert entries + [] == entries;
      if closing && position == |input| { return Ok(entries); }
      if !At(input, CRLF, position) { return Err(InvalidDelimiterEnding); }
      position := position + 2;
      if closing { return Ok(entries); }
      var part := ReadPartAt(input, position, delimiter);
      match part {
        case Err(fault) => return Err(fault);
        case Ok((entry, next)) =>
          assert Rest(input, position)[next - position + 2 + |delimiter|..] == Rest(input, next + 2 + |delimiter|);
          PrecededTwice(entries, entry, ParseRest(Rest(input, next + 2 + |delimiter|), delimiter));
          entries, position := entries + [entry], next + 2;
      }
    }
  }

  lemma PrecededNothing(rest: Result<seq<Entry>, Fault>)
    ensures Preceded([], rest) == rest
  {
    if rest.Ok? { assert [] + rest.value == rest.value; }
  }

  /** What follows a delimiter, by position. */
  lemma DelimiterLine(input: string, start: nat, position: nat, closing: bool, delimiter: string)
    requires start <= position <= |input| && closing == At(input, "--", start)
    requires SkipBlanks(Rest(input, if closing then start + 2 else start)) == SkipBlanks(Rest(input, position))
    requires position < |input| ==> !TabOrSpace(input[position])
    ensures ParseRest(Rest(input, start), delimiter) ==
      if closing && position == |input| then Ok([])
      else if !At(input, CRLF, position) then Err(InvalidDelimiterEnding)
      else if closing then Ok([])
      else match ReadPart(Rest(input, position + 2), delimiter)
        case Err(fault) => Err(fault)
        case Ok((entry, next)) =>
          Prepended(entry, ParseRest(Rest(input, position + 2)[next + 2 + |delimiter|..], delimiter))
  {
    hide ParseRest, ReadPart, At, SkipBlanks, Prepended, Rest;
    var rest, a := Rest(input, start), Rest(input, position);
    AtRest(input, "--", start);
    AtRest(input, CRLF, position);
    SkipsNothing(input, position);
    LineCases(rest, a, closing, delimiter);
  }

  lemma SkipsNothing(input: string, position: nat)
    requires position <= |input| && (position < |input| ==> !TabOrSpace(input[position]))
    ensures SkipBlanks(Rest(input, position)) == Rest(input, position)
  {
  }

  lemma AtRest(s: string, pattern: string, i: nat)
    requires i <= |s|
    ensures At(s, pattern, i) <==> pattern <= Rest(s, i)
    ensures pattern <= Rest(s, i) ==> Rest(s, i)[|pattern|..] == Rest(s, i + |pattern|)
  {
  }
}
