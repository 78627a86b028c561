/**
 Printing and parsing multipart/form-data (src/fetch/multipart.ts). Strings hold one character per byte:
 names, filenames and text are taken as they are encoded.
 */
module Multipart {
  import opened Prelude
  import opened Text
  import opened MultipartText
  import opened MultipartHeaders

  datatype Value = TextValue(text: string) | FileValue(filename: string, type_: string, bytes: string)

  datatype Entry = Entry(name: string, value: Value)

  const BLANK := "\r\n\r\n"
  const OCTETS := "application/octet-stream"

  /** The type a File is given: lowercase, or empty when a character is not printable ASCII. */
  function BlobType(t: string): string
  {
    if forall i :: 0 <= i < |t| ==> ' ' <= t[i] <= '~' then Lower(t) else ""
  }

  predicate BoundaryChar(c: char)
  {
    '0' <= c <= '9' || 'A' <= c <= 'Z' || 'a' <= c <= 'z' || c in "'()+_,-./:=? "
  }

  /** `boundaryPattern`: one to seventy characters, the last of them not a space. */
  predicate ValidBoundary(b: string)
  {
    0 < |b| <= 70 && b[|b| - 1] != ' ' && forall i :: 0 <= i < |b| ==> BoundaryChar(b[i])
  }

  // ---------------------------------------------------------------------------
  // Printing
  // ---------------------------------------------------------------------------

  function Body(entry: Entry): string
  {
    match entry.value case TextValue(text) => Normalized(text) case FileValue(_, _, bytes) => bytes
  }

  function SectionOf(entry: Entry): string
  {
    var name := Escape(Normalized(entry.name));
    match entry.value
    case TextValue(_) => Section(name, None, None)
    case FileValue(filename, type_, _) =>
      Section(name, Some(Escape(filename)), Some(if type_ == "" then OCTETS else type_))
  }

  function Part(entry: Entry, boundary: string): string
  {
    "--" + boundary + CRLF + SectionOf(entry) + BLANK + Body(entry) + CRLF
  }

  function Encode(entries: seq<Entry>, boundary: string): string
  {
    if entries == [] then "--" + boundary + "--" + CRLF else Part(entries[0], boundary) + Encode(entries[1..], boundary)
  }

  // ---------------------------------------------------------------------------
  // Parsing
  // ---------------------------------------------------------------------------

  function SkipBlanks(s: string): (r: string)
    ensures |r| <= |s|
  {
    if s != "" && TabOrSpace(s[0]) then SkipBlanks(s[1..]) else s
  }

  function ReadEntry(fields: Fields, body: string): Entry
  {
    match fields.filename
    case None => Entry(fields.name, TextValue(body))
    case Some(filename) =>
      var type_ := match fields.contentType case None => "text/plain" case Some(t) => t;
      Entry(fields.name, FileValue(filename, BlobType(type_), body))
  }

  /** One part, from just after its delimiter line to the next delimiter: the entry, and where that delimiter is. */
  function ReadPart(part: string, delimiter: string): (r: Result<(Entry, nat), Fault>)
    ensures r.Ok? ==> r.value.1 + 2 + |delimiter| <= |part|
  {
    match Find(part, CRLF + delimiter)
    case None => Err(IncompleteBody)
    case Some(next) =>
      match Find(part, BLANK)
      case None => Err(MissingSeparator)
      case Some(end) =>
        if end + 4 > next then Err(MissingSeparator)
        else match PartFields(part[..end])
          case Err(fault) => Err(fault)
          case Ok(fields) => Ok((ReadEntry(fields, part[end + 4..next]), next))
  }

  /** The rest of a body after a delimiter. */
  function ParseRest(rest: string, delimiter: string): Result<seq<Entry>, Fault>
    decreases |rest|
  {
    var closing := "--" <= rest;
    var a := SkipBlanks(if closing then rest[2..] else rest);
    if closing && a == "" then Ok([])
    else if !(CRLF <= a) then Err(InvalidDelimiterEnding)
    else if closing then Ok([])
    else match ReadPart(a[2..], delimiter)
      case Err(fault) => Err(fault)
      case Ok((entry, next)) =>
        match ParseRest(a[2..][next + 2 + |delimiter|..], delimiter)
        case Err(fault) => Err(fault)
        case Ok(entries) => Ok([entry] + entries)
  }

  /** `parseMultipartFormData`; `boundary` is the parameter of a multipart/form-data type. */
  function Parse(input: string, boundary: Option<string>): Result<seq<Entry>, Fault>
  {
    if boundary == None || !ValidBoundary(boundary.value) then Err(InvalidBoundary)
    else
      var delimiter := "--" + boundary.value;
      if delimiter <= input then ParseRest(input[|delimiter|..], delimiter)
      else match Find(input, CRLF + delimiter)
        case None => Err(MissingDelimiter)
        case Some(i) => ParseRest(input[i + 2 + |delimiter|..], delimiter)
  }

  // ---------------------------------------------------------------------------
  // The round trip
  // ---------------------------------------------------------------------------

  /** What a type is printed as, without surrounding blanks. */
  function PrintedType(type_: string): string { Trim(if type_ == "" then OCTETS else type_, TabOrSpace) }

  /** A printed entry as it should come back: escapes stay, text has CRLF line endings, an empty type is octets. */
  function ReadBack(entry: Entry): Entry
  {
    var name := Escape(Normalized(entry.name));
    match entry.value
    case TextValue(text) => Entry(name, TextValue(Normalized(text)))
    case FileValue(filename, type_, bytes) =>
      Entry(name, FileValue(Escape(filename), PrintedType(type_), bytes))
  }

  function ReadBackAll(entries: seq<Entry>): (r: seq<Entry>)
    ensures |r| == |entries| && forall i :: 0 <= i < |r| ==> r[i] == ReadBack(entries[i])
  {
    seq(|entries|, i requires 0 <= i < |entries| => ReadBack(entries[i]))
  }

  /**
   The printed type is one that the File constructor keeps. A File of the host may have another one, with line
   breaks or tabs in it.
   */
  predicate Typed(entry: Entry)
  {
    entry.value.FileValue? ==> BlobType(PrintedType(entry.value.type_)) == PrintedType(entry.value.type_)
  }

  function FilenameOf(entry: Entry): Option<string>
  {
    match entry.value case TextValue(_) => None case FileValue(filename, _, _) => Some(filename)
  }

  /** Neither name nor filename holds a backslash, which the printer leaves and the parser takes for an escape. */
  predicate Verbatim(entry: Entry) { Literal(entry.name, FilenameOf(entry)) }

  /** The delimiter does not occur in the part's body. */
  predicate Apart(entry: Entry, boundary: string)
  {
    !Contains(CRLF + Body(entry), CRLF + ("--" + boundary))
  }

  /** What an entry needs to come back from its printed part. */
  predicate Safe(entry: Entry, boundary: string) { Verbatim(entry) && Apart(entry, boundary) && Typed(entry) }

  predicate AllSafe(entries: seq<Entry>, boundary: string)
  {
    forall i :: 0 <= i < |entries| ==> Safe(entries[i], boundary)
  }

  /** Inside a header section a line break is followed by neither another one nor a hyphen. */
  predicate Unbroken(section: string)
  {
    forall i :: 0 <= i < |section| && section[i] == '\r' ==>
      i + 2 < |section| && section[i + 2] != '\r' && section[i + 2] != '-'
  }

  /** The same entry around other content. */
  function WithBody(entry: Entry, body: string): Entry
  {
    match entry.value
    case TextValue(_) => entry.(value := TextValue(body))
    case FileValue(filename, type_, _) => entry.(value := FileValue(filename, type_, body))
  }

  lemma SectionFacts(entry: Entry)
    requires Typed(entry)
    ensures Unbroken(SectionOf(entry))
    ensures var r, back := PartFields(SectionOf(entry)), ReadBack(entry);
      if Verbatim(entry) then r.Ok? && ReadEntry(r.value, "") == WithBody(back, "")
      else r.Ok? ==> r.value.name != back.name || r.value.filename != FilenameOf(back)
  {
    hide Section, PartFields, Normalized, Escape, Trim, BlobType;
    var name := Escape(Normalized(entry.name));
    NormalizedBackslash(entry.name);
    EscapeQuotable(Normalized(entry.name));
    match entry.value {
      case TextValue(_) =>
        SectionReadsBack(name, None, None);
        SectionUnbroken(name, None, None);
      case FileValue(filename, type_, _) =>
        EscapeQuotable(filename);
        var t := if type_ == "" then OCTETS else type_;
        PrintedBreaks(type_);
        SectionReadsBack(name, Some(Escape(filename)), Some(t));
        SectionUnbroken(name, Some(Escape(filename)), Some(t));
    }
  }

  /** Trimming blanks takes no line break away. */
  lemma PrintedBreaks(type_: string)
    requires BlobType(PrintedType(type_)) == PrintedType(type_)
    ensures NoBreak(if type_ == "" then OCTETS else type_)
  {
    hide Trim;
    var t := if type_ == "" then OCTETS else type_;
    var left, right := TrimParts(t, TabOrSpace);
    assert NoBreak(left) && NoBreak(right) && NoBreak(PrintedType(type_));
  }

  lemma SectionUnbroken(name: string, filename: Option<string>, contentType: Option<string>)
    requires QuotableNames(name, filename) && (contentType.Some? ==> NoBreak(contentType.value))
    ensures Unbroken(Section(name, filename, contentType))
  {
    var first := DISPOSITION + ": " + DispositionText(name, filename);
    HeaderWords();
    DispositionPlain(name, filename);
    assert NoBreak(first);
    var s := Section(name, filename, contentType);
    match contentType {
      case None => assert s == first;
      case Some(t) =>
        var second := TYPE + ": " + t;
        assert NoBreak(second) && second[0] == 'C';
        assert s == first + CRLF + second;
    }
  }

  /** The blank line is found right after the section. */
  lemma FindsSeparator(section: string, rest: string)
    requires Unbroken(section)
    ensures Find(section + BLANK + rest, BLANK) == Some(|section|)
  {
    var s := section + BLANK + rest;
    assert s[|section|..|section| + 4] == BLANK;
    forall j | 0 <= j < |section| ensures !At(s, BLANK, j) {
      if section[j] == '\r' { Mismatch(s, BLANK, j, 2); } else { Mismatch(s, BLANK, j, 0); }
    }
    FindIs(s, BLANK, |section|);
  }

  /** The next delimiter is found where the body ends, or earlier just when the body holds one. */
  lemma FindsDelimiter(section: string, body: string, delimiter: string, rest: string)
    requires Unbroken(section) && Headed(CRLF + delimiter) && |delimiter| > 2 && delimiter[..2] == "--"
    ensures var s := section + BLANK + body + (CRLF + delimiter) + rest;
      var end := |section| + 4 + |body|;
      Find(s, CRLF + delimiter).Some? &&
      var next := Find(s, CRLF + delimiter).value;
      |section| + 2 <= next <= end && (next == end <==> !Contains(CRLF + body, CRLF + delimiter))
  {
    hide Find, At, Contains;
    var pattern := CRLF + delimiter;
    var tail := CRLF + body;
    var behind := tail + pattern + rest;
    assert section + BLANK + body + pattern + rest == section + CRLF + behind;
    assert pattern[0] == '\r' && pattern[2] == '-';
    NotInSection(section, behind, pattern);
    FindsBehind(section + CRLF, tail, pattern, rest);
  }

  lemma NotInSection(section: string, behind: string, pattern: string)
    requires Unbroken(section) && behind != "" && behind[0] == '\r'
    requires |pattern| > 2 && pattern[0] == '\r' && pattern[2] == '-'
    ensures forall j: nat :: j < |section| + 2 ==> !At(section + CRLF + behind, pattern, j)
  {
    hide At;
    var s := section + CRLF + behind;
    forall j: nat | j < |section| + 2 ensures !At(s, pattern, j) {
      if s[j] == '\r' { Mismatch(s, pattern, j, 2); } else { Mismatch(s, pattern, j, 0); }
    }
  }

  lemma FindsBehind(front: string, tail: string, pattern: string, rest: string)
    requires Headed(pattern) && forall j: nat :: j < |front| ==> !At(front + (tail + pattern + rest), pattern, j)
    ensures var r := Find(front + (tail + pattern + rest), pattern);
      r.Some? && |front| <= r.value <= |front| + |tail| && (r.value == |front| + |tail| <==> !Contains(tail, pattern))
  {
    var behind := tail + pattern + rest;
    var s := front + behind;
    assert At(behind, pattern, |tail|);
    AtShift(front, behind, pattern, |tail|);
    var next := Find(s, pattern).value;
    if Contains(tail, pattern) {
      var k := Find(tail, pattern).value;
      NoOverlap(tail, pattern, rest, k);
      AtShift(front, behind, pattern, k);
    }
    if next < |front| + |tail| {
      AtShift(front, behind, pattern, next - |front|);
      NoOverlap(tail, pattern, rest, next - |front|);
    }
  }

  lemma AtShift(front: string, s: string, pattern: string, j: nat)
    ensures At(front + s, pattern, |front| + j) <==> At(s, pattern, j)
  {
    if j + |pattern| <= |s| {
      assert (front + s)[|front| + j..|front| + j + |pattern|] == s[j..j + |pattern|];
    }
  }

  /** The encoding after its first delimiter, and an epilogue. */
  function Tail(entries: seq<Entry>, boundary: string, epilogue: string): string
  {
    if entries == [] then "--" + CRLF + epilogue
    else
      CRLF + (SectionOf(entries[0]) + BLANK + Body(entries[0]) + (CRLF + ("--" + boundary)) +
        Tail(entries[1..], boundary, epilogue))
  }

  lemma {:induction false} EncodeTail(entries: seq<Entry>, boundary: string, epilogue: string)
    ensures Encode(entries, boundary) + epilogue == "--" + boundary + Tail(entries, boundary, epilogue)
  {
    hide SectionOf, Body;
    if entries == [] {
      assert "--" + boundary + "--" + CRLF + epilogue == "--" + boundary + ("--" + CRLF + epilogue);
    } else {
      EncodeTail(entries[1..], boundary, epilogue);
      var section, body := SectionOf(entries[0]), Body(entries[0]);
      var rest := Tail(entries[1..], boundary, epilogue);
      assert Part(entries[0], boundary) + Encode(entries[1..], boundary) + epilogue ==
        Part(entries[0], boundary) + (Encode(entries[1..], boundary) + epilogue);
      assert "--" + boundary + CRLF + section + BLANK + body + CRLF + ("--" + boundary + rest) ==
        "--" + boundary + (CRLF + (section + BLANK + body + (CRLF + ("--" + boundary)) + rest));
    }
  }

  /** Reading one printed part. */
  lemma PartReadsBack(entry: Entry, boundary: string, rest: string)
    requires ValidBoundary(boundary)
    ensures var delimiter := "--" + boundary;
      var end := |SectionOf(entry)| + 4 + |Body(entry)|;
      var r := ReadPart(SectionOf(entry) + BLANK + Body(entry) + (CRLF + delimiter) + rest, delimiter);
      if Safe(entry, boundary) then r == Ok((ReadBack(entry), end)) else r.Ok? ==> r.value.0 != ReadBack(entry)
  {
    hide SectionOf, Body, ReadPart, ReadBack, Verbatim, Apart;
    if Typed(entry) {
      TypedReadsBack(entry, boundary, rest);
    } else {
      ReadsTyped(SectionOf(entry) + BLANK + Body(entry) + (CRLF + ("--" + boundary)) + rest, "--" + boundary, entry);
    }
  }

  /** No part gives a type that the File constructor does not keep. */
  lemma ReadsTyped(part: string, delimiter: string, entry: Entry)
    requires !Typed(entry)
    ensures var r := ReadPart(part, delimiter); r.Ok? ==> r.value.0 != ReadBack(entry)
  {
    hide Find, PartFields, PrintedType;
    forall t ensures BlobType(BlobType(t)) == BlobType(t) { BlobTypeTwice(t); }
  }

  lemma BlobTypeTwice(t: string)
    ensures BlobType(BlobType(t)) == BlobType(t)
  {
  }

  lemma TypedReadsBack(entry: Entry, boundary: string, rest: string)
    requires Typed(entry) && ValidBoundary(boundary)
    ensures var delimiter := "--" + boundary;
      var end := |SectionOf(entry)| + 4 + |Body(entry)|;
      var r := ReadPart(SectionOf(entry) + BLANK + Body(entry) + (CRLF + delimiter) + rest, delimiter);
      if Safe(entry, boundary) then r == Ok((ReadBack(entry), end)) else r.Ok? ==> r.value.0 != ReadBack(entry)
  {
    hide SectionOf, Body, Find, Contains, PartFields, ReadEntry, ReadBack, WithBody, Typed;
    var delimiter := "--" + boundary;
    var section, body := SectionOf(entry), Body(entry);
    var part := section + BLANK + body + (CRLF + delimiter) + rest;
    SectionFacts(entry);
    BoundaryHeaded(boundary);
    FindsDelimiter(section, body, delimiter, rest);
    FindsSeparator(section, body + (CRLF + delimiter) + rest);
    assert part == section + BLANK + (body + (CRLF + delimiter) + rest);
    var next := Find(part, CRLF + delimiter).value;
    assert part[..|section|] == section;
    if |section| + 4 <= next {
      var read := part[|section| + 4..next];
      if PartFields(section).Ok? { BodyReadsBack(PartFields(section).value, entry, read); }
      assert next == |section| + 4 + |body| ==> read == body;
    }
  }

  lemma BodyReadsBack(fields: Fields, entry: Entry, read: string)
    ensures ReadEntry(fields, "") == WithBody(ReadBack(entry), "") ==>
      ReadEntry(fields, read) == WithBody(ReadBack(entry), read)
    ensures fields.name != ReadBack(entry).name || fields.filename != FilenameOf(ReadBack(entry)) ==>
      ReadEntry(fields, read) != ReadBack(entry)
    ensures WithBody(ReadBack(entry), read) == ReadBack(entry) <==> read == Body(entry)
  {
  }

  lemma BoundaryHeaded(boundary: string)
    requires ValidBoundary(boundary)
    ensures Headed(CRLF + ("--" + boundary))
  {
  }

  lemma {:induction false} TailReadsBack(entries: seq<Entry>, boundary: string, epilogue: string)
    requires ValidBoundary(boundary)
    ensures ParseRest(Tail(entries, boundary, epilogue), "--" + boundary) == Ok(ReadBackAll(entries)) <==>
      AllSafe(entries, boundary)
  {
    hide SectionOf, Body, ReadPart, ReadBack, Safe, ValidBoundary, ParseRest, Tail, AllSafe;
    var delimiter := "--" + boundary;
    if entries == [] {
      NoParts(boundary, epilogue);
      assert AllSafe([], boundary) by { NoneSafe(boundary); }
    } else {
      var rest := Tail(entries[1..], boundary, epilogue);
      var part := SectionOf(entries[0]) + BLANK + Body(entries[0]) + (CRLF + delimiter) + rest;
      TailPart(entries, boundary, epilogue);
      PartReadsBack(entries[0], boundary, rest);
      TailReadsBack(entries[1..], boundary, epilogue);
      ParsePart(part, delimiter);
      assert ReadBackAll(entries) == [ReadBack(entries[0])] + ReadBackAll(entries[1..]);
      AllSafeRest(entries, boundary);
      if Safe(entries[0], boundary) {
        assert part[|SectionOf(entries[0])| + 4 + |Body(entries[0])| + 2 + |delimiter|..] == rest;
        SameRest(ReadBack(entries[0]), ReadBackAll(entries[1..]), ParseRest(rest, delimiter));
      }
    }
  }

  lemma NoneSafe(boundary: string)
    ensures AllSafe([], boundary)
  {
  }

  lemma NoParts(boundary: string, epilogue: string)
    ensures ParseRest(Tail([], boundary, epilogue), "--" + boundary) == Ok([])
  {
    assert Tail([], boundary, epilogue)[2..] == CRLF + epilogue;
  }

  lemma TailPart(entries: seq<Entry>, boundary: string, epilogue: string)
    requires entries != []
    ensures Tail(entries, boundary, epilogue) ==
      CRLF + (SectionOf(entries[0]) + BLANK + Body(entries[0]) + (CRLF + ("--" + boundary)) +
        Tail(entries[1..], boundary, epilogue))
  {
  }

  function Prepended(entry: Entry, rest: Result<seq<Entry>, Fault>): Result<seq<Entry>, Fault>
  {
    match rest case Err(fault) => Err(fault) case Ok(entries) => Ok([entry] + entries)
  }

  /** What a delimiter line leads to, once its padding is skipped. */
  lemma LineCases(rest: string, a: string, closing: bool, delimiter: string)
    requires closing == ("--" <= rest) && SkipBlanks(if closing then rest[2..] else rest) == a
    ensures ParseRest(rest, delimiter) ==
      if closing && a == "" then Ok([])
      else if !(CRLF <= a) then Err(InvalidDelimiterEnding)
      else if closing then Ok([])
      else match ReadPart(a[2..], delimiter)
        case Err(fault) => Err(fault)
        case Ok((entry, next)) => Prepended(entry, ParseRest(a[2..][next + 2 + |delimiter|..], delimiter))
  {
    hide ReadPart, SkipBlanks;
  }

  /** A delimiter line that opens a part. */
  lemma ParsePart(part: string, delimiter: string)
    ensures ParseRest(CRLF + part, delimiter) ==
      match ReadPart(part, delimiter)
      case Err(fault) => Err(fault)
      case Ok((entry, next)) => Prepended(entry, ParseRest(part[next + 2 + |delimiter|..], delimiter))
  {
    hide ParseRest, ReadPart, SkipBlanks, Prepended;
    var rest := CRLF + part;
    assert rest[0] == '\r' && rest[2..] == part && CRLF <= rest;
    NoPadding(rest);
    LineCases(rest, rest, false, delimiter);
  }

  lemma NoPadding(s: string)
    requires s != "" ==> !TabOrSpace(s[0])
    ensures SkipBlanks(s) == s
  {
  }

  lemma SameRest(entry: Entry, expected: seq<Entry>, rest: Result<seq<Entry>, Fault>)
    ensures Prepended(entry, rest) == Ok([entry] + expected) <==> rest == Ok(expected)
  {
    assert rest.Ok? ==> ([entry] + rest.value)[1..] == rest.value;
    assert ([entry] + expected)[1..] == expected;
  }

  lemma AllSafeRest(entries: seq<Entry>, boundary: string)
    requires entries != []
    ensures AllSafe(entries, boundary) <==> Safe(entries[0], boundary) && AllSafe(entries[1..], boundary)
  {
    if Safe(entries[0], boundary) && AllSafe(entries[1..], boundary) {
      forall i | 0 <= i < |entries| ensures Safe(entries[i], boundary) {
        if i > 0 { assert entries[i] == entries[1..][i - 1]; }
      }
    }
  }

  /**
   Parsing undoes printing exactly when the delimiter occurs in no body, no name or filename holds a backslash,
   and every type is one that the File constructor keeps; an epilogue is ignored.
   */
  lemma RoundTrip(entries: seq<Entry>, boundary: string, epilogue: string)
    requires ValidBoundary(boundary)
    ensures Parse(Encode(entries, boundary) + epilogue, Some(boundary)) == Ok(ReadBackAll(entries)) <==>
      AllSafe(entries, boundary)
  {
    EncodeTail(entries, boundary, epilogue);
    TailReadsBack(entries, boundary, epilogue);
    var delimiter := "--" + boundary;
    assert (Encode(entries, boundary) + epilogue)[|delimiter|..] == Tail(entries, boundary, epilogue);
  }

  lemma FindsFirst(front: string, pattern: string, rest: string)
    requires Headed(pattern) && !Contains(front, pattern)
    ensures Find(front + pattern + rest, pattern) == Some(|front|)
  {
    var s := front + pattern + rest;
    assert At(s, pattern, |front|);
    forall j | 0 <= j < |front| ensures !At(s, pattern, j) { NoOverlap(front, pattern, rest, j); }
    FindIs(s, pattern, |front|);
  }

  lemma NotAtStart(preamble: string, delimiter: string, tail: string)
    requires NoBreak(delimiter) && !(delimiter <= preamble)
    ensures !(delimiter <= preamble + (CRLF + delimiter) + tail)
  {
    var input := preamble + (CRLF + delimiter) + tail;
    assert input[|preamble|] == '\r';
    if |delimiter| <= |preamble| { assert input[..|delimiter|] == preamble[..|delimiter|]; }
  }

  /** A name with a backslash: the printer leaves it, and the parser takes it for an escape. */
  lemma BackslashIsLost(boundary: string)
    requires ValidBoundary(boundary)
    ensures Quoted("a\\b\"") == Some(("ab", ""))
    ensures var entries := [Entry("a\\b", TextValue(""))];
      Parse(Encode(entries, boundary), Some(boundary)) != Ok(ReadBackAll(entries))
  {
    hide Parse, Encode, ReadBackAll, ValidBoundary;
    var s := "a\\b\"";
    assert s[1..] == "\\b\"" && s[1..][2..] == "\"" && "\""[1..] == "";
    assert Quoted("\"") == Some(("", "")) && ['b'] + "" == "b";
    assert Quoted(s[1..]) == Some(("b", ""));
    assert "a" + "b" == "ab";
    var entry := Entry("a\\b", TextValue(""));
    assert entry.name[1] == '\\' && !Safe(entry, boundary) && [entry][0] == entry;
    RoundTrip([entry], boundary, "");
    assert Encode([entry], boundary) + "" == Encode([entry], boundary);
  }

  /** A type with a line break, as a File of the host may have it. */
  lemma BrokenTypeIsLost(boundary: string)
    requires ValidBoundary(boundary)
    ensures var entries := [Entry("a", FileValue("b", "text/plain\n", ""))];
      Parse(Encode(entries, boundary), Some(boundary)) != Ok(ReadBackAll(entries))
  {
    hide Parse, Encode, ReadBackAll, ValidBoundary, Trim;
    var t := "text/plain\n";
    assert t[|t| - 1] == '\n' && t[0] == 't';
    TrimBare(t, TabOrSpace);
    var entry := Entry("a", FileValue("b", t, ""));
    assert !Safe(entry, boundary) && [entry][0] == entry;
    RoundTrip([entry], boundary, "");
    assert Encode([entry], boundary) + "" == Encode([entry], boundary);
  }

  /** A preamble without the delimiter, before a line break, is ignored. */
  lemma PreambleIgnored(preamble: string, entries: seq<Entry>, boundary: string, epilogue: string)
    requires ValidBoundary(boundary) && !Contains(preamble, CRLF + ("--" + boundary))
    requires !("--" + boundary <= preamble)
    ensures Parse(preamble + CRLF + Encode(entries, boundary) + epilogue, Some(boundary)) ==
      Parse(Encode(entries, boundary) + epilogue, Some(boundary))
  {
    hide Parse, Tail, Encode, Contains, ValidBoundary;
    var delimiter := "--" + boundary;
    var tail := Tail(entries, boundary, epilogue);
    EncodeTail(entries, boundary, epilogue);
    PreambleSkipped(preamble, boundary, tail);
    Regroup(preamble, CRLF, Encode(entries, boundary), epilogue);
    Regrouped(preamble, CRLF, delimiter, tail);
  }

  lemma Regroup(a: string, b: string, c: string, d: string)
    ensures a + b + c + d == a + b + (c + d)
  {
  }

  lemma Regrouped(a: string, b: string, c: string, d: string)
    ensures a + b + (c + d) == a + (b + c) + d
  {
  }

  lemma PreambleSkipped(preamble: string, boundary: string, tail: string)
    requires ValidBoundary(boundary) && !Contains(preamble, CRLF + ("--" + boundary))
    requires !("--" + boundary <= preamble)
    ensures Parse(preamble + (CRLF + ("--" + boundary)) + tail, Some(boundary)) ==
      Parse("--" + boundary + tail, Some(boundary))
  {
    var delimiter := "--" + boundary;
    var input := preamble + (CRLF + delimiter) + tail;
    BoundaryHeaded(boundary);
    assert NoBreak(delimiter);
    NotAtStart(preamble, delimiter, tail);
    FindsFirst(preamble, CRLF + delimiter, tail);
    assert input[|preamble| + 2 + |delimiter|..] == tail && (delimiter + tail)[|delimiter|..] == tail;
  }

  /** Which printed entries come back as they were. */
  lemma Unchanged(entry: Entry)
    ensures ReadBack(entry) == entry <==>
      Quotable(entry.name) &&
      match entry.value
      case TextValue(text) => Canonical(text)
      case FileValue(filename, type_, _) => Quotable(filename) && type_ != "" && Bare(type_, TabOrSpace)
  {
    hide Canonical, Trim, Quotable, Normalized, Escape, PrintedType;
    NameUnchanged(entry.name);
    match entry.value {
      case TextValue(text) =>
        NormalizedCanonical(text);
        if Canonical(text) { CanonicalNormalized(text); }
      case FileValue(filename, type_, _) =>
        EscapeQuotable(filename);
        if Quotable(filename) { EscapeNothing(filename); }
        TypeUnchanged(type_);
    }
  }

  lemma TypeUnchanged(t: string)
    ensures PrintedType(t) == t <==> t != "" && Bare(t, TabOrSpace)
  {
    hide Trim;
    if t == "" {
      TrimBare(OCTETS, TabOrSpace);
    } else {
      var left, right := TrimParts(t, TabOrSpace);
      if Bare(t, TabOrSpace) { TrimBare(t, TabOrSpace); }
    }
  }

  lemma NameUnchanged(name: string)
    ensures Escape(Normalized(name)) == name <==> Quotable(name)
  {
    EscapeQuotable(Normalized(name));
    if Quotable(name) {
      NormalizedNothing(name);
      EscapeNothing(name);
    }
  }

  /** So a form of plain names, canonical text and typed files survives the round trip untouched. */
  lemma RoundTripPlain(entries: seq<Entry>, boundary: string)
    requires ValidBoundary(boundary) && AllSafe(entries, boundary)
    requires forall e :: e in entries ==> ReadBack(e) == e
    ensures Parse(Encode(entries, boundary), Some(boundary)) == Ok(entries)
  {
    hide ReadBack;
    RoundTrip(entries, boundary, "");
    assert Encode(entries, boundary) + "" == Encode(entries, boundary);
    assert ReadBackAll(entries) == entries;
  }
}
