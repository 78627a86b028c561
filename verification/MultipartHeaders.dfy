/**
 The header section of one multipart part (src/fetch/multipart.ts `parsePartHeaders`,
 `skipWhitespaceAndComments`), on byte strings of one character per byte.
 */
module MultipartHeaders {
  import opened Prelude
  import opened Text
  import opened MultipartText

  /** The reasons for which the parser throws a TypeError. */
  datatype Fault =
    | InvalidBoundary | MissingDelimiter | InvalidDelimiterEnding | IncompleteBody | MissingSeparator
    | InvalidHeader | DuplicateHeader | MissingDisposition | UnexpectedDisposition
    | UnterminatedComment | InvalidParameter | UnterminatedParameter | MissingValue | DuplicateParameter | MissingName

  datatype Fields = Fields(name: string, filename: Option<string>, contentType: Option<string>)

  // ---------------------------------------------------------------------------
  // Lines
  // ---------------------------------------------------------------------------

  /** `replace(headerFoldingPattern, '')`: line breaks before a tab or space go. */
  function Unfolded(s: string): string
  {
    if s == "" then ""
    else if Folds(s) then Unfolded(s[2..])
    else [s[0]] + Unfolded(s[1..])
  }

  /** A line break before a tab or space. */
  predicate Folds(s: string) { |s| > 2 && s[0] == '\r' && s[1] == '\n' && TabOrSpace(s[2]) }

  /** `split('\r\n')` */
  function Lines(s: string): (r: seq<string>)
    ensures r != []
  {
    if s == "" then [""]
    else if CRLF <= s then [""] + Lines(s[2..])
    else
      var rest := Lines(s[1..]);
      [[s[0]] + rest[0]] + rest[1..]
  }

  /** `headerNamePattern` */
  predicate FieldName(s: string)
  {
    s != "" && forall i :: 0 <= i < |s| ==> '!' <= s[i] <= '~' && s[i] != ':'
  }

  /** What the lines have given so far. */
  datatype Found = Found(disposition: Option<string>, contentType: Option<string>)

  function ReadLine(found: Found, line: string): Result<Found, Fault>
  {
    match Find(line, ":")
    case None => Err(InvalidHeader)
    case Some(colon) =>
      if !FieldName(line[..colon]) || !NoBreak(line) then Err(InvalidHeader)
      else
        var value := Trim(line[colon + 1..], TabOrSpace);
        match Lower(line[..colon])
        case "content-disposition" =>
          if found.disposition.Some? then Err(DuplicateHeader) else Ok(found.(disposition := Some(value)))
        case "content-type" =>
          if found.contentType.Some? then Err(DuplicateHeader) else Ok(found.(contentType := Some(value)))
        case _ => Ok(found)
  }

  function ReadLines(found: Found, lines: seq<string>): Result<Found, Fault>
    decreases |lines|
  {
    if lines == [] then Ok(found)
    else match ReadLine(found, lines[0])
      case Err(fault) => Err(fault)
      case Ok(next) => ReadLines(next, lines[1..])
  }

  // ---------------------------------------------------------------------------
  // Content-Disposition
  // ---------------------------------------------------------------------------

  /** `isMIMETokenCharacter` */
  predicate TokenChar(c: char)
  {
    ' ' < c < 0x7F as char && c !in "()<>@,;:\\\"/[]?="
  }

  /** The token at the start of the text, and what follows it. */
  function Token(s: string): (r: (string, string))
    ensures r.0 + r.1 == s && |r.1| <= |s|
  {
    if s == "" || !TokenChar(s[0]) then ("", s)
    else
      var (token, rest) := Token(s[1..]);
      ([s[0]] + token, rest)
  }

  /** What follows a comment that is open `depth` times. */
  function AfterComment(s: string, depth: nat): (r: Option<string>)
    ensures r.Some? ==> |r.value| <= |s|
    decreases |s|
  {
    if depth == 0 then Some(s)
    else if s == "" then None
    else if s[0] == '(' then AfterComment(s[1..], depth + 1)
    else if s[0] == ')' then AfterComment(s[1..], depth - 1)
    else if s[0] == '\\' then if |s| == 1 then None else AfterComment(s[2..], depth)
    else AfterComment(s[1..], depth)
  }

  /** `skipWhitespaceAndComments` */
  function Skip(s: string): (r: Option<string>)
    ensures r.Some? ==> |r.value| <= |s|
    decreases |s|
  {
    if s == "" then Some("")
    else if TabOrSpace(s[0]) then Skip(s[1..])
    else if s[0] != '(' then Some(s)
    else match AfterComment(s[1..], 1)
      case None => None
      case Some(rest) => Skip(rest)
  }

  /** The text of a quoted string after its opening quote, its escapes resolved, and what follows it. */
  function Quoted(s: string): (r: Option<(string, string)>)
    ensures r.Some? ==> |r.value.1| < |s|
    decreases |s|
  {
    if s == "" then None
    else if s[0] == '"' then Some(("", s[1..]))
    else if s[0] == '\\' && |s| == 1 then None
    else
      var n := if s[0] == '\\' then 2 else 1;
      match Quoted(s[n..])
      case None => None
      case Some((text, rest)) => Some(([s[n - 1]] + text, rest))
  }

  /** One parameter from its semicolon on: its name, its value, and what follows. */
  function Parameter(s: string): (r: Result<(string, string, string), Fault>)
    ensures r.Ok? ==> |r.value.2| < |s|
  {
    if s == "" || s[0] != ';' then Err(InvalidParameter)
    else match Skip(s[1..])
      case None => Err(UnterminatedComment)
      case Some(a) =>
        var (name, b) := Token(a);
        match Skip(b)
        case None => Err(UnterminatedComment)
        case Some(c) =>
          if name == "" || c == "" || c[0] != '=' then Err(InvalidParameter)
          else match Skip(c[1..])
            case None => Err(UnterminatedComment)
            case Some(d) => ParameterValue(Lower(name), d)
  }

  function ParameterValue(name: string, d: string): (r: Result<(string, string, string), Fault>)
    ensures r.Ok? ==> |r.value.2| <= |d|
  {
    if d != "" && d[0] == '"' then
      match Quoted(d[1..])
      case None => Err(UnterminatedParameter)
      case Some((value, e)) => AfterValue(name, value, e)
    else
      var (value, e) := Token(d);
      if value == "" then Err(MissingValue) else AfterValue(name, value, e)
  }

  function AfterValue(name: string, value: string, e: string): (r: Result<(string, string, string), Fault>)
    ensures r.Ok? ==> |r.value.2| <= |e|
  {
    match Skip(e) case None => Err(UnterminatedComment) case Some(rest) => Ok((name, value, rest))
  }

  function Parameters(s: string, known: map<string, string>): Result<map<string, string>, Fault>
    decreases |s|
  {
    if s == "" then Ok(known)
    else match Parameter(s)
      case Err(fault) => Err(fault)
      case Ok((name, value, rest)) =>
        if name in known then Err(DuplicateParameter) else Parameters(rest, known[name := value])
  }

  function Disposition(s: string): Result<map<string, string>, Fault>
  {
    match Skip(s)
    case None => Err(UnterminatedComment)
    case Some(a) =>
      var (kind, b) := Token(a);
      if Lower(kind) != "form-data" then Err(UnexpectedDisposition)
      else match Skip(b)
        case None => Err(UnterminatedComment)
        case Some(c) => Parameters(c, map[])
  }

  function Lookup(parameters: map<string, string>, name: string): Option<string>
  {
    if name in parameters then Some(parameters[name]) else None
  }

  /** `parsePartHeaders` */
  function PartFields(section: string): Result<Fields, Fault>
  {
    match ReadLines(Found(None, None), Lines(Unfolded(section)))
    case Err(fault) => Err(fault)
    case Ok(found) =>
      match found.disposition
      case None => Err(MissingDisposition)
      case Some(disposition) =>
        match Disposition(disposition)
        case Err(fault) => Err(fault)
        case Ok(parameters) =>
          match Lookup(parameters, "name")
          case None => Err(MissingName)
          case Some(name) => Ok(Fields(name, Lookup(parameters, "filename"), found.contentType))
  }

  // ---------------------------------------------------------------------------
  // What the printer writes
  // ---------------------------------------------------------------------------

  const DISPOSITION := "Content-Disposition"
  const TYPE := "Content-Type"

  function DispositionText(name: string, filename: Option<string>): string
  {
    "form-data; name=\"" + name + "\"" + match filename case None => "" case Some(f) => "; filename=\"" + f + "\""
  }

  function Section(name: string, filename: Option<string>, contentType: Option<string>): string
  {
    DISPOSITION + ": " + DispositionText(name, filename) +
    match contentType case None => "" case Some(t) => CRLF + TYPE + ": " + t
  }

  // ---------------------------------------------------------------------------
  // It reads back
  // ---------------------------------------------------------------------------

  lemma {:induction false} TokenOf(token: string, rest: string)
    requires forall i :: 0 <= i < |token| ==> TokenChar(token[i])
    requires rest == "" || !TokenChar(rest[0])
    ensures Token(token + rest) == (token, rest)
  {
    if token == "" {
      assert token + rest == rest;
    } else {
      assert (token + rest)[1..] == token[1..] + rest;
      TokenOf(token[1..], rest);
      assert [token[0]] + token[1..] == token;
    }
  }

  /**
   The text is read back if it holds no backslash; otherwise an escape has swallowed a backslash of it, or
   has carried its closing quote into what is read.
   */
  lemma {:induction false} QuotedOf(text: string, rest: string)
    requires Quotable(text)
    ensures var r := Quoted(text + "\"" + rest);
      if NoBackslash(text) then r == Some((text, rest))
      else r.Some? ==> |r.value.0| < |text| || !Quotable(r.value.0)
    decreases |text|
  {
    var s := text + "\"" + rest;
    if text == "" {
      assert s[1..] == rest;
    } else if text[0] != '\\' {
      assert s[1..] == text[1..] + "\"" + rest;
      QuotedOf(text[1..], rest);
      assert [text[0]] + text[1..] == text;
      KeepsQuote(text[0], text[1..] + "\"" + rest);
    } else if |text| == 1 {
      assert s[1] == '"';
      assert Quoted(s).Some? ==> Quoted(s).value.0[0] == '"';
    } else {
      assert s[2..] == text[2..] + "\"" + rest && s[1] == text[1];
      QuotedOf(text[2..], rest);
      KeepsQuote(text[1], text[2..] + "\"" + rest);
    }
  }

  lemma KeepsQuote(c: char, s: string)
    ensures Quoted(s).Some? && !Quotable(Quoted(s).value.0) ==> !Quotable([c] + Quoted(s).value.0)
  {
    if Quoted(s).Some? {
      var text := Quoted(s).value.0;
      assert forall i :: 0 <= i < |text| ==> ([c] + text)[i + 1] == text[i];
    }
  }

  /** One printed parameter, before a semicolon or the end: read back unless its value holds a backslash. */
  lemma ParameterOf(name: string, value: string, rest: string)
    requires name != "" && Lower(name) == name && forall i :: 0 <= i < |name| ==> TokenChar(name[i])
    requires Quotable(value) && (rest == "" || rest[0] == ';')
    ensures var r := Parameter("; " + name + "=\"" + value + "\"" + rest);
      if NoBackslash(value) then r == Ok((name, value, rest))
      else r.Ok? ==> r.value.0 == name && r.value.1 != value
  {
    var quoted := value + "\"" + rest;
    var given := "=\"" + quoted;
    var s := "; " + name + "=\"" + value + "\"" + rest;
    assert s[1..] == " " + (name + given);
    assert given[1..] == "\"" + quoted && ("\"" + quoted)[1..] == quoted;
    SkipBlank(name + given);
    SkipNothing(name + given) by { assert TokenChar(name[0]); }
    TokenOf(name, given) by { assert !TokenChar('='); }
    SkipNothing(given);
    SkipNothing(given[1..]);
    SkipNothing(rest);
    QuotedOf(value, rest);
    assert Parameter(s) == ParameterValue(name, given[1..]);
  }

  lemma SkipNothing(s: string)
    requires s != "" ==> !TabOrSpace(s[0]) && s[0] != '('
    ensures Skip(s) == Some(s)
  {
  }

  lemma SkipBlank(s: string)
    ensures Skip(" " + s) == Skip(s)
  {
    assert (" " + s)[1..] == s;
  }

  /** Later parameters change no earlier one. */
  lemma {:induction false} ParametersKeep(s: string, known: map<string, string>, name: string)
    requires name in known
    ensures var r := Parameters(s, known);
      r.Ok? ==> name in r.value && r.value[name] == known[name]
    decreases |s|
  {
    hide Parameter;
    if s != "" {
      match Parameter(s) {
        case Err(_) =>
        case Ok((other, value, rest)) =>
          if other !in known { ParametersKeep(rest, known[other := value], name); }
      }
    }
  }

  /** No name holds a backslash, which would read as an escape. */
  predicate Literal(name: string, filename: Option<string>)
  {
    NoBackslash(name) && (filename.Some? ==> NoBackslash(filename.value))
  }

  predicate QuotableNames(name: string, filename: Option<string>)
  {
    Quotable(name) && (filename.Some? ==> Quotable(filename.value))
  }

  lemma DispositionOf(name: string, filename: Option<string>)
    requires QuotableNames(name, filename)
    ensures var r := Disposition(DispositionText(name, filename));
      var agrees := r.Ok? && Lookup(r.value, "name") == Some(name) && Lookup(r.value, "filename") == filename;
      agrees <==> Literal(name, filename)
  {
    hide Parameter, Skip, Token, Quotable, Parameters;
    var last := match filename case None => "" case Some(f) => "; filename=\"" + f + "\"";
    var parameters := "; name=\"" + name + "\"" + last;
    assert DispositionText(name, filename) == "form-data" + parameters;
    FormData(parameters);
    TokenWords();
    ParametersOf(name, filename, last);
  }

  lemma ParametersOf(name: string, filename: Option<string>, last: string)
    requires QuotableNames(name, filename)
    requires last == match filename case None => "" case Some(f) => "; filename=\"" + f + "\""
    ensures var r := Parameters("; name=\"" + name + "\"" + last, map[]);
      var agrees := r.Ok? && Lookup(r.value, "name") == Some(name) && Lookup(r.value, "filename") == filename;
      agrees <==> Literal(name, filename)
  {
    hide Parameter, Quotable, NoBackslash, Lower, TokenChar;
    var parameters := "; name=\"" + name + "\"" + last;
    TokenWords();
    ParameterOf("name", name, last);
    assert parameters == "; " + "name" + "=\"" + name + "\"" + last;
    if NoBackslash(name) {
      var one: map<string, string> := map["name" := name];
      assert Parameters(parameters, map[]) == Parameters(last, one);
      if filename.Some? { FilenameOf(filename.value, last, one); }
    } else if Parameter(parameters).Ok? {
      var (_, value, rest) := Parameter(parameters).value;
      ParametersKeep(rest, map["name" := value], "name");
    }
  }

  lemma FilenameOf(filename: string, last: string, one: map<string, string>)
    requires Quotable(filename) && one.Keys == {"name"} && last == "; filename=\"" + filename + "\""
    ensures var r := Parameters(last, one);
      if NoBackslash(filename) then r == Ok(one["filename" := filename])
      else r.Ok? ==> Lookup(r.value, "filename") != Some(filename)
  {
    hide Parameter, Quotable, NoBackslash, Lower, TokenChar;
    TokenWords();
    ParameterOf("filename", filename, "");
    assert last == "; " + "filename" + "=\"" + filename + "\"" + "";
    if NoBackslash(filename) {
      assert Parameters(last, one) == Parameters("", one["filename" := filename]);
    } else if Parameter(last).Ok? {
      var (_, value, rest) := Parameter(last).value;
      ParametersKeep(rest, one["filename" := value], "filename");
    }
  }

  lemma TokenWords()
    ensures forall i :: 0 <= i < |"name"| ==> TokenChar("name"[i])
    ensures forall i :: 0 <= i < |"filename"| ==> TokenChar("filename"[i])
    ensures forall i :: 0 <= i < |"form-data"| ==> TokenChar("form-data"[i])
    ensures Lower("name") == "name" && Lower("filename") == "filename" && Lower("form-data") == "form-data"
  {
  }

  lemma FormData(parameters: string)
    requires parameters != "" && parameters[0] == ';'
    ensures Skip("form-data" + parameters) == Some("form-data" + parameters)
    ensures Token("form-data" + parameters) == ("form-data", parameters)
    ensures Skip(parameters) == Some(parameters)
  {
    TokenWords();
    TokenOf("form-data", parameters);
  }

  lemma {:induction false} OneLine(line: string)
    requires NoBreak(line)
    ensures Unfolded(line) == line && Lines(line) == [line]
  {
    if line != "" {
      OneLine(line[1..]);
      assert [line[0]] + line[1..] == line;
    }
  }

  /** A character that starts no line break comes first in what follows from the rest. */
  lemma FirstChar(c: char, s: string)
    requires c != '\r'
    ensures Unfolded([c] + s) == [c] + Unfolded(s)
    ensures Lines([c] + s) == [[c] + Lines(s)[0]] + Lines(s)[1..]
  {
    assert ([c] + s)[1..] == s;
  }

  lemma Newline(b: string)
    requires b != "" && !TabOrSpace(b[0])
    ensures Unfolded(CRLF + b) == CRLF + Unfolded(b) && Lines(CRLF + b) == [""] + Lines(b)
  {
    hide Unfolded, Lines;
    var s, rest := CRLF + b, ['\n'] + b;
    assert s[2] == b[0] && s[1..] == rest && s[2..] == b && CRLF <= s;
    NotFolded(s);
    FirstChar('\n', b);
    LineBreak(s);
    assert ['\r'] + (['\n'] + Unfolded(b)) == CRLF + Unfolded(b);
  }

  lemma NotFolded(s: string)
    requires s != "" && !Folds(s)
    ensures Unfolded(s) == [s[0]] + Unfolded(s[1..])
  {
  }

  lemma LineBreak(s: string)
    requires CRLF <= s
    ensures Lines(s) == [""] + Lines(s[2..])
  {
  }

  lemma {:induction false} TwoLines(a: string, b: string)
    requires NoBreak(a) && NoBreak(b) && b != "" && !TabOrSpace(b[0])
    ensures Unfolded(a + CRLF + b) == a + CRLF + b && Lines(a + CRLF + b) == [a, b]
  {
    hide Unfolded, Lines;
    if a == "" {
      OneLine(b);
      Newline(b);
      assert a + CRLF + b == CRLF + b;
    } else {
      var rest := a[1..] + CRLF + b;
      TwoLines(a[1..], b);
      FirstChar(a[0], rest);
      assert a + CRLF + b == [a[0]] + rest && [a[0]] + a[1..] == a;
      assert Lines(rest)[1..] == [b];
    }
  }

  /** A printed line gives its value without the blanks around it. */
  lemma LineValue(found: Found, name: string, value: string)
    requires FieldName(name) && NoBreak(name + ": " + value)
    ensures var line := name + ": " + value;
      ReadLine(found, line) ==
        var text := Trim(value, TabOrSpace);
        match Lower(name)
        case "content-disposition" =>
          if found.disposition.Some? then Err(DuplicateHeader) else Ok(found.(disposition := Some(text)))
        case "content-type" =>
          if found.contentType.Some? then Err(DuplicateHeader) else Ok(found.(contentType := Some(text)))
        case _ => Ok(found)
  {
    var line := name + ": " + value;
    assert line[..|name|] == name && line[|name| + 1..] == " " + value;
    FindIs(line, ":", |name|) by {
      assert line[|name|..|name| + 1] == ":";
      forall j | 0 <= j < |name| ensures !At(line, ":", j) { assert line[j..j + 1][0] == name[j]; }
    }
    TrimLeading(" ", value, TabOrSpace);
  }

  lemma HeaderWords()
    ensures FieldName(DISPOSITION) && Lower(DISPOSITION) == "content-disposition" && NoBreak(DISPOSITION)
    ensures FieldName(TYPE) && Lower(TYPE) == "content-type" && NoBreak(TYPE)
  {
  }

  lemma DispositionPlain(name: string, filename: Option<string>)
    requires QuotableNames(name, filename)
    ensures var text := DispositionText(name, filename);
      NoBreak(text) && Bare(text, TabOrSpace)
  {
    var text := DispositionText(name, filename);
    assert text[0] == 'f' && text[|text| - 1] == '"';
  }

  /** What the fields of a printed section should be; a type loses the blanks around it. */
  function Expected(name: string, filename: Option<string>, contentType: Option<string>): Fields
  {
    Fields(name, filename, match contentType case None => None case Some(t) => Some(Trim(t, TabOrSpace)))
  }

  /** What the printer writes for a part, the parser reads, unless a name holds a backslash. */
  lemma SectionReadsBack(name: string, filename: Option<string>, contentType: Option<string>)
    requires QuotableNames(name, filename) && (contentType.Some? ==> NoBreak(contentType.value))
    ensures var r := PartFields(Section(name, filename, contentType));
      if Literal(name, filename) then r == Ok(Expected(name, filename, contentType))
      else r.Ok? ==> r.value.name != name || r.value.filename != filename
  {
    hide Trim, Disposition, DispositionText, Lower, ReadLine, Lines, Unfolded, Literal, Quotable;
    HeaderWords();
    var text := DispositionText(name, filename);
    DispositionPlain(name, filename);
    DispositionOf(name, filename);
    TrimBare(text, TabOrSpace);
    var first := DISPOSITION + ": " + text;
    var none := Found(None, None);
    LineValue(none, DISPOSITION, text);
    match contentType {
      case None =>
        assert Section(name, filename, contentType) == first;
        OneLine(first);
        assert [first][1..] == [];
        assert ReadLines(none, [first]) == ReadLines(Found(Some(text), None), []);
      case Some(t) =>
        var second := TYPE + ": " + t;
        assert Section(name, filename, contentType) == first + CRLF + second;
        TwoLines(first, second);
        LineValue(Found(Some(text), None), TYPE, t);
        assert [first, second][1..] == [second] && [second][1..] == [];
        assert ReadLines(none, [first, second]) == ReadLines(Found(Some(text), None), [second]) ==
          ReadLines(Found(Some(text), Some(Trim(t, TabOrSpace))), []);
    }
  }

  // ---------------------------------------------------------------------------
  // What else is read
  // ---------------------------------------------------------------------------

  /** A header folded before a tab or space reads as if it stood on one line, wherever the fold is. */
  lemma {:induction false} FoldingUndone(a: string, b: string)
    requires b != "" && TabOrSpace(b[0])
    ensures Unfolded(a + CRLF + b) == Unfolded(a) + Unfolded(b)
    decreases |a|
  {
    var s := a + CRLF + b;
    if a == "" {
      assert s[0] == '\r' && s[1] == '\n' && s[2] == b[0] && s[2..] == b;
      assert "" + Unfolded(b) == Unfolded(b);
    } else {
      FoldsAppend(a, CRLF + b);
      assert s == a + (CRLF + b);
      var n := if Folds(a) then 2 else 1;
      assert s[n..] == a[n..] + CRLF + b;
      FoldingUndone(a[n..], b);
      if n == 1 { assert [a[0]] + (Unfolded(a[1..]) + Unfolded(b)) == [a[0]] + Unfolded(a[1..]) + Unfolded(b); }
    }
  }

  /** What folds at the start of a text folds whatever line break follows the text. */
  lemma FoldsAppend(a: string, t: string)
    requires a != "" && |t| > 1 && t[0] == '\r'
    ensures Folds(a + t) <==> Folds(a)
  {
  }

  /** The inside of a comment: characters, quoted pairs and comments. */
  datatype Piece = Char(c: char) | Pair(c: char) | Nested(pieces: seq<Piece>)

  predicate PieceOk(p: Piece)
  {
    match p
    case Char(c) => c !in "()\\"
    case Pair(_) => true
    case Nested(pieces) => forall q :: q in pieces ==> PieceOk(q)
  }

  function PieceText(p: Piece): string
  {
    match p
    case Char(c) => [c]
    case Pair(c) => ['\\', c]
    case Nested(pieces) => "(" + PiecesText(pieces) + ")"
  }

  function PiecesText(pieces: seq<Piece>): string
  {
    if pieces == [] then "" else PieceText(pieces[0]) + PiecesText(pieces[1..])
  }

  /** Every well-formed comment, however nested, is skipped. */
  lemma CommentSkipped(pieces: seq<Piece>, rest: string)
    requires forall p :: p in pieces ==> PieceOk(p)
    ensures Skip("(" + PiecesText(pieces) + ")" + rest) == Skip(rest)
  {
    var s := "(" + PiecesText(pieces) + ")" + rest;
    assert s[1..] == PiecesText(pieces) + (")" + rest) && (")" + rest)[1..] == rest;
    PiecesRead(pieces, ")" + rest, 1);
    assert AfterComment(")" + rest, 1) == AfterComment(rest, 0) == Some(rest);
  }

  /** Reading the inside of a comment leaves its depth as it was. */
  lemma {:induction false} PiecesRead(pieces: seq<Piece>, rest: string, depth: nat)
    requires depth > 0 && forall p :: p in pieces ==> PieceOk(p)
    ensures AfterComment(PiecesText(pieces) + rest, depth) == AfterComment(rest, depth)
    decreases pieces
  {
    if pieces == [] {
      assert PiecesText(pieces) + rest == rest;
    } else {
      var more := PiecesText(pieces[1..]) + rest;
      assert PiecesText(pieces) + rest == PieceText(pieces[0]) + more;
      PieceRead(pieces[0], more, depth);
      PiecesRead(pieces[1..], rest, depth);
    }
  }

  lemma {:induction false} PieceRead(p: Piece, rest: string, depth: nat)
    requires depth > 0 && PieceOk(p)
    ensures AfterComment(PieceText(p) + rest, depth) == AfterComment(rest, depth)
    decreases p
  {
    var s := PieceText(p) + rest;
    match p {
      case Char(c) => assert s[1..] == rest;
      case Pair(c) => assert s[2..] == rest;
      case Nested(pieces) =>
        assert s[1..] == PiecesText(pieces) + (")" + rest) && (")" + rest)[1..] == rest;
        PiecesRead(pieces, ")" + rest, depth + 1);
        assert AfterComment(")" + rest, depth + 1) == AfterComment(rest, depth);
    }
  }
}
