/**
 The multipart forms that the parser accepts (src/fetch/multipart.ts `parseMultipartFormData`, `parsePartHeaders`), and
 what it makes of them: header sections of fields on lines of their own, parts between delimiter lines.
 */
module MultipartForms {
  import opened Prelude
  import opened Text
  import opened MultipartText
  import opened MultipartHeaders
  import opened Multipart
  import DG = DispositionGrammar

  // ---------------------------------------------------------------------------
  // Lines
  // ---------------------------------------------------------------------------

  function Rejoined(lines: seq<string>): string
    requires lines != []
  {
    if |lines| == 1 then lines[0] else lines[0] + "\r\n" + Rejoined(lines[1..])
  }

  predicate Uncut(line: string)
  {
    forall i :: 0 <= i < |line| - 1 ==> !(line[i] == '\r' && line[i + 1] == '\n')
  }

  /** A text is cut at every CRLF, and nowhere else. */
  lemma {:induction false} LinesJoin(s: string)
    ensures Rejoined(Lines(s)) == s && forall line :: line in Lines(s) ==> Uncut(line)
    decreases |s|
  {
    hide Uncut;
    var lines := Lines(s);
    if s == "" {
      ShortUncut();
    } else if CRLF <= s {
      LinesJoin(s[2..]);
      ShortUncut();
      assert lines[1..] == Lines(s[2..]) && s == "" + "\r\n" + s[2..];
    } else {
      var rest := Lines(s[1..]);
      LinesJoin(s[1..]);
      assert lines[1..] == rest[1..] && rest == [rest[0]] + rest[1..];
      FirstStays(s, rest[0], rest);
      RejoinedLonger(s[0], rest);
      assert s == [s[0]] + s[1..];
    }
  }

  lemma ShortUncut()
    ensures Uncut("")
  {
  }

  lemma RejoinedLonger(c: char, lines: seq<string>)
    requires lines != []
    ensures Rejoined([[c] + lines[0]] + lines[1..]) == [c] + Rejoined(lines)
  {
    if |lines| > 1 {
      var rest := Rejoined(lines[1..]);
      assert ([[c] + lines[0]] + lines[1..])[1..] == lines[1..];
      assert [c] + (lines[0] + "\r\n" + rest) == [c] + lines[0] + "\r\n" + rest;
    }
  }

  lemma FirstStays(s: string, first: string, rest: seq<string>)
    requires s != "" && !(CRLF <= s) && rest != [] && rest[0] == first && Rejoined(rest) == s[1..] && Uncut(first)
    ensures Uncut([s[0]] + first)
  {
    var line := [s[0]] + first;
    if first != "" {
      assert s[1] == Rejoined(rest)[0] == first[0];
      assert s[..2] == [s[0], s[1]];
    }
    forall i | 0 <= i < |line| - 1 ensures !(line[i] == '\r' && line[i + 1] == '\n') {
      if i > 0 { assert line[i] == first[i - 1] && line[i + 1] == first[i]; }
    }
  }

  // ---------------------------------------------------------------------------
  // Fields
  // ---------------------------------------------------------------------------

  datatype Field = Field(name: string, value: string)

  predicate FieldOk(f: Field)
  {
    f.name != "" && (forall i :: 0 <= i < |f.name| ==> 33 <= f.name[i] as int <= 126 && f.name[i] != ':') &&
    forall i :: 0 <= i < |f.value| ==> f.value[i] != '\r' && f.value[i] != '\n'
  }

  function FieldText(f: Field): string { f.name + ":" + f.value }

  function FieldTexts(fields: seq<Field>): (r: seq<string>)
    ensures |r| == |fields| && forall i :: 0 <= i < |r| ==> r[i] == FieldText(fields[i])
  {
    seq(|fields|, i requires 0 <= i < |fields| => FieldText(fields[i]))
  }

  predicate FieldsOk(fields: seq<Field>) { forall i :: 0 <= i < |fields| ==> FieldOk(fields[i]) }

  /** The values of a name, in whatever case, without the tabs and spaces around them. */
  function ValuesOf(fields: seq<Field>, name: string): seq<string>
  {
    if fields == [] then []
    else (if Same(fields[0].name, name) then [Trim(fields[0].value, TabOrSpace)] else []) + ValuesOf(fields[1..], name)
  }

  function Listed(value: Option<string>): seq<string>
  {
    match value case None => [] case Some(v) => [v]
  }

  lemma FieldFinds(f: Field)
    requires FieldOk(f)
    ensures Find(FieldText(f), ":") == Some(|f.name|)
    ensures FieldText(f)[..|f.name|] == f.name && FieldText(f)[|f.name| + 1..] == f.value
    ensures FieldName(f.name) && NoBreak(FieldText(f))
  {
    var s := FieldText(f);
    assert s[|f.name|..|f.name| + 1] == ":";
    forall j | 0 <= j < |f.name| ensures !At(s, ":", j) { Mismatch(s, ":", j, 0); }
    FindIs(s, ":", |f.name|);
  }

  lemma FieldWords()
    ensures Lower("content-disposition") == "content-disposition" && Lower("content-type") == "content-type"
  {
  }

  lemma FieldRead(found: Found, f: Field)
    requires FieldOk(f)
    ensures var value := Trim(f.value, TabOrSpace);
      ReadLine(found, FieldText(f)) ==
        if Same(f.name, "content-disposition") then
          if found.disposition.Some? then Err(DuplicateHeader) else Ok(found.(disposition := Some(value)))
        else if Same(f.name, "content-type") then
          if found.contentType.Some? then Err(DuplicateHeader) else Ok(found.(contentType := Some(value)))
        else Ok(found)
  {
    hide Lower, Trim, Find, FieldText, FieldName, NoBreak;
    FieldWords();
    FieldFinds(f);
  }

  /** Fields on lines are read unless there are two dispositions, or two types. */
  lemma {:induction false} FieldsRead(found: Found, fields: seq<Field>)
    requires FieldsOk(fields)
    ensures var r := ReadLines(found, FieldTexts(fields));
      var disposition := Listed(found.disposition) + ValuesOf(fields, "content-disposition");
      var contentType := Listed(found.contentType) + ValuesOf(fields, "content-type");
      (r.Ok? <==> |disposition| <= 1 && |contentType| <= 1) &&
      (r.Ok? ==> disposition == Listed(r.value.disposition) && contentType == Listed(r.value.contentType))
    decreases |fields|
  {
    hide Trim, ReadLine, FieldOk;
    FieldWords();
    if fields != [] {
      FieldRead(found, fields[0]);
      assert FieldTexts(fields)[1..] == FieldTexts(fields[1..]);
      var next := ReadLine(found, FieldText(fields[0]));
      if next.Ok? { FieldsRead(next.value, fields[1..]); }
    }
  }

  lemma FieldIs(found: Found, line: string) returns (f: Field)
    requires ReadLine(found, line).Ok?
    ensures FieldOk(f) && line == FieldText(f)
  {
    hide Lower, Trim;
    var colon := Find(line, ":").value;
    f := Field(line[..colon], line[colon + 1..]);
    assert line[colon..colon + 1] == ":";
    assert line == line[..colon] + line[colon..colon + 1] + line[colon + 1..];
  }

  lemma {:induction false} FieldsAre(found: Found, lines: seq<string>) returns (fields: seq<Field>)
    requires ReadLines(found, lines).Ok?
    ensures FieldsOk(fields) && lines == FieldTexts(fields)
    decreases |lines|
  {
    hide ReadLine, FieldOk, FieldText;
    fields := [];
    if lines != [] {
      var f := FieldIs(found, lines[0]);
      var more := FieldsAre(ReadLine(found, lines[0]).value, lines[1..]);
      fields := [f] + more;
      assert lines == [lines[0]] + lines[1..];
    }
  }

  /** A header section: its fields, of which one is the disposition, and what the parser is to make of them. */
  ghost predicate Reads(section: string, fields: seq<Field>, h: DG.Header, r: Fields)
  {
    FieldTexts(fields) == Lines(Unfolded(section)) && FieldsOk(fields) &&
    DG.HeaderOk(h) && ValuesOf(fields, "content-disposition") == [DG.HeaderText(h)] &&
    DG.Names(h, "name", Some(r.name)) && DG.Names(h, "filename", r.filename) &&
    ValuesOf(fields, "content-type") == Listed(r.contentType)
  }

  lemma NameWords()
    ensures Lower("name") == "name" && Lower("filename") == "filename"
  {
  }

  /** The parser accepts exactly such sections, with exactly that result. */
  lemma SectionExactly(section: string, r: Fields)
    ensures PartFields(section) == Ok(r) <==>
      exists fields: seq<Field>, h: DG.Header :: Reads(section, fields, h, r)
  {
    hide Disposition, Lines, Unfolded, DG.HeaderOk, DG.HeaderText, DG.Names, FieldsOk, ReadLines, ValuesOf, Lower;
    if PartFields(section) == Ok(r) { var fields, h := SectionIs(section, r); }
    if fields: seq<Field>, h: DG.Header :| Reads(section, fields, h, r) { SectionRead(section, fields, h, r); }
  }

  lemma SectionIs(section: string, r: Fields) returns (fields: seq<Field>, h: DG.Header)
    requires PartFields(section) == Ok(r)
    ensures Reads(section, fields, h, r)
  {
    hide Disposition, Lines, Unfolded, DG.HeaderOk, DG.HeaderText, DG.Names, FieldsOk, ReadLines, ValuesOf, Lower;
    var none := Found(None, None);
    var lines := Lines(Unfolded(section));
    fields := FieldsAre(none, lines);
    FieldsRead(none, fields);
    var found := ReadLines(none, lines).value;
    h := DG.HeaderIs(found.disposition.value);
    NameWords();
    DG.GivesNamed(h, "name");
    DG.GivesNamed(h, "filename");
    assert [] + ValuesOf(fields, "content-disposition") == ValuesOf(fields, "content-disposition");
    assert [] + ValuesOf(fields, "content-type") == ValuesOf(fields, "content-type");
  }

  lemma SectionRead(section: string, fields: seq<Field>, h: DG.Header, r: Fields)
    requires Reads(section, fields, h, r)
    ensures PartFields(section) == Ok(r)
  {
    hide Disposition, Lines, Unfolded, DG.HeaderOk, DG.HeaderText, DG.Names, FieldsOk, ReadLines, ValuesOf, Lower;
    var none := Found(None, None);
    FieldsRead(none, fields);
    assert [] + ValuesOf(fields, "content-disposition") == ValuesOf(fields, "content-disposition");
    assert [] + ValuesOf(fields, "content-type") == ValuesOf(fields, "content-type");
    var found := ReadLines(none, Lines(Unfolded(section))).value;
    assert found.disposition == Some(DG.HeaderText(h));
    NameWords();
    DG.GivesNamed(h, "name");
    DG.GivesNamed(h, "filename");
    var m := Disposition(DG.HeaderText(h)).value;
    NamesUnique(h, "name", Some(r.name), Lookup(m, "name"));
    NamesUnique(h, "filename", r.filename, Lookup(m, "filename"));
  }

  lemma NamesUnique(h: DG.Header, name: string, a: Option<string>, b: Option<string>)
    requires DG.HeaderOk(h) && DG.Names(h, name, a) && DG.Names(h, name, b)
    ensures a == b
  {
    hide DG.Meaning, DG.ParamOk, Lower;
    if a.Some? && b.Some? {
      var p :| p in h.params && Same(p.name, name) && DG.Meaning(p.value) == a.value;
      var q :| q in h.params && Same(q.name, name) && DG.Meaning(q.value) == b.value;
      var i :| 0 <= i < |h.params| && h.params[i] == p;
      var j :| 0 <= j < |h.params| && h.params[j] == q;
      assert i == j;
    }
  }

  // ---------------------------------------------------------------------------
  // Forms
  // ---------------------------------------------------------------------------

  predicate Blanks(s: string) { forall i :: 0 <= i < |s| ==> s[i] == ' ' || s[i] == '\t' }

  lemma {:induction false} BlanksSkipped(pad: string, rest: string)
    requires Blanks(pad) && (rest != "" ==> rest[0] != ' ' && rest[0] != '\t')
    ensures SkipBlanks(pad + rest) == rest
  {
    if pad == "" {
      assert pad + rest == rest;
    } else {
      assert (pad + rest)[1..] == pad[1..] + rest;
      BlanksSkipped(pad[1..], rest);
    }
  }

  lemma {:induction false} BlanksOf(s: string) returns (pad: string)
    ensures Blanks(pad) && s == pad + SkipBlanks(s)
  {
    pad := "";
    if s != "" && TabOrSpace(s[0]) {
      var more := BlanksOf(s[1..]);
      pad := [s[0]] + more;
      assert s == [s[0]] + s[1..];
    }
  }

  /** What follows one delimiter: padding to the end of its line, a header section, an empty line, and the body. */
  datatype FormPart = FormPart(pad: string, section: string, fields: Fields, body: string)

  predicate PartOk(p: FormPart, boundary: string)
  {
    Blanks(p.pad) && PartFields(p.section) == Ok(p.fields) &&
    Find(p.section + "\r\n\r\n", "\r\n\r\n") == Some(|p.section|) &&
    !Contains(p.section + "\r\n\r\n" + p.body, "\r\n--" + boundary)
  }

  predicate EndOk(end: string)
  {
    Blanks(end) || exists n :: 0 <= n <= |end| && Blanks(end[..n]) && "\r\n" <= end[n..]
  }

  function PartText(p: FormPart): string
  {
    p.pad + ("\r\n" + (p.section + "\r\n\r\n" + p.body))
  }

  /** From after the first delimiter on: the parts, each up to the next delimiter, and two hyphens after the last. */
  function PartsText(parts: seq<FormPart>, boundary: string, end: string): string
  {
    if parts == [] then "--" + end
    else PartText(parts[0]) + ("\r\n--" + boundary) + PartsText(parts[1..], boundary, end)
  }

  predicate Printable(s: string) { forall i :: 0 <= i < |s| ==> ' ' <= s[i] <= '~' }

  /** A part with a filename is a file, of plain text by default; one without is text. */
  function EntryOf(p: FormPart): Entry
  {
    if p.fields.filename == None then Entry(p.fields.name, TextValue(p.body))
    else
      var t := if p.fields.contentType == None then "text/plain" else p.fields.contentType.value;
      Entry(p.fields.name, FileValue(p.fields.filename.value, if Printable(t) then Lower(t) else "", p.body))
  }

  function EntriesOf(parts: seq<FormPart>): (r: seq<Entry>)
    ensures |r| == |parts| && forall i :: 0 <= i < |r| ==> r[i] == EntryOf(parts[i])
  {
    seq(|parts|, i requires 0 <= i < |parts| => EntryOf(parts[i]))
  }

  lemma EntryRead(p: FormPart)
    ensures ReadEntry(p.fields, p.body) == EntryOf(p)
  {
    hide Lower;
    forall t: string ensures BlobType(t) == if Printable(t) then Lower(t) else "" { TypeKept(t); }
  }

  lemma TypeKept(t: string)
    ensures BlobType(t) == if Printable(t) then Lower(t) else ""
  {
  }

  lemma PartRead(p: FormPart, boundary: string, rest: string)
    requires ValidBoundary(boundary) && PartOk(p, boundary)
    ensures ReadPart(p.section + "\r\n\r\n" + p.body + ("\r\n--" + boundary) + rest, "--" + boundary) ==
      Ok((EntryOf(p), |p.section| + 4 + |p.body|))
  {
    hide Find, PartFields, ReadEntry, EntryOf, At;
    var delimiter, head := "--" + boundary, p.section + "\r\n\r\n";
    var part := head + p.body + ("\r\n--" + boundary) + rest;
    assert CRLF + delimiter == "\r\n--" + boundary;
    BoundaryHeaded(boundary);
    FindsFirst(head + p.body, CRLF + delimiter, rest);
    assert part == head + (p.body + ("\r\n--" + boundary) + rest);
    FindsHere(p.section, BLANK, p.body + ("\r\n--" + boundary) + rest);
    assert part[..|p.section|] == p.section && part[|p.section| + 4..|head| + |p.body|] == p.body;
    EntryRead(p);
  }

  /** A pattern first found at the end of a text is first found there in every longer one. */
  lemma FindsHere(front: string, pattern: string, rest: string)
    requires Find(front + pattern, pattern) == Some(|front|)
    ensures Find(front + pattern + rest, pattern) == Some(|front|)
  {
    hide At;
    var s, longer := front + pattern, front + pattern + rest;
    AtShorter(s, rest, pattern, |front|);
    forall j | 0 <= j < |front| ensures !At(longer, pattern, j) { AtShorter(s, rest, pattern, j); }
    FindIs(longer, pattern, |front|);
  }

  lemma AtShorter(s: string, rest: string, pattern: string, j: nat)
    requires j + |pattern| <= |s|
    ensures At(s + rest, pattern, j) <==> At(s, pattern, j)
  {
    assert (s + rest)[j..j + |pattern|] == s[j..j + |pattern|];
  }

  /** Where a pattern is first found: nothing before it holds the pattern. */
  lemma FoundFirst(s: string, pattern: string) returns (rest: string)
    requires Find(s, pattern).Some? && pattern != ""
    ensures var i := Find(s, pattern).value;
      i + |pattern| <= |s| && s == s[..i] + pattern + rest && rest == s[i + |pattern|..] &&
      !Contains(s[..i], pattern) && Find(s[..i] + pattern, pattern) == Some(i)
  {
    hide At;
    var i := Find(s, pattern).value;
    PatternAt(s, pattern, i);
    rest := s[i + |pattern|..];
    assert s == s[..i] + pattern + rest;
    var upto := s[..i] + pattern;
    forall j: nat | j + |pattern| <= |upto| ensures At(upto, pattern, j) <==> At(s, pattern, j) {
      AtShorter(upto, rest, pattern, j);
    }
    FindIs(upto, pattern, i);
    assert s[..i] + (pattern + rest) == s;
    if Contains(s[..i], pattern) {
      var j := Find(s[..i], pattern).value;
      PatternAt(s[..i], pattern, j);
      AtShorter(s[..i], pattern + rest, pattern, j);
    }
  }

  lemma PatternAt(s: string, pattern: string, i: nat)
    requires At(s, pattern, i)
    ensures i + |pattern| <= |s| && s[i..i + |pattern|] == pattern
  {
  }

  lemma PartIs(part: string, boundary: string, pad: string) returns (p: FormPart, rest: string)
    requires ValidBoundary(boundary) && Blanks(pad) && ReadPart(part, "--" + boundary).Ok?
    ensures PartOk(p, boundary) && p.pad == pad
    ensures part == p.section + "\r\n\r\n" + p.body + ("\r\n--" + boundary) + rest
    ensures var (entry, next) := ReadPart(part, "--" + boundary).value;
      entry == EntryOf(p) && part[next + 4 + |boundary|..] == rest
  {
    hide Find, PartFields, ReadEntry, EntryOf, Contains;
    var pattern := CRLF + ("--" + boundary);
    assert pattern == "\r\n--" + boundary;
    rest := FoundFirst(part, pattern);
    var after := FoundFirst(part, BLANK);
    var next, end := Find(part, pattern).value, Find(part, BLANK).value;
    p := FormPart(pad, part[..end], PartFields(part[..end]).value, part[end + 4..next]);
    assert part[..next] == part[..end] + part[end..end + 4] + part[end + 4..next];
    assert part[end..end + 4] == BLANK == "\r\n\r\n";
    EntryRead(p);
  }

  /** A form is read as written. */
  lemma {:induction false} PartsRead(parts: seq<FormPart>, boundary: string, end: string)
    requires ValidBoundary(boundary) && EndOk(end) && forall i :: 0 <= i < |parts| ==> PartOk(parts[i], boundary)
    ensures ParseRest(PartsText(parts, boundary, end), "--" + boundary) == Ok(EntriesOf(parts))
    decreases |parts|
  {
    hide ReadPart, EntryOf, ParseRest, ValidBoundary, SkipBlanks, Prepended, PartText, PartOk, EndOk;
    var delimiter, text := "--" + boundary, PartsText(parts, boundary, end);
    if parts == [] {
      EndRead(end, delimiter);
    } else {
      var p, more := parts[0], PartsText(parts[1..], boundary, end);
      var inner := p.section + "\r\n\r\n" + p.body + ("\r\n--" + boundary) + more;
      PartTextIs(p, p.pad, inner, boundary, more);
      PadBlank(p, boundary);
      PartsRead(parts[1..], boundary, end);
      PartRead(p, boundary, more);
      OpensPart(p.pad, inner, delimiter);
      assert inner[|p.section| + 4 + |p.body| + 2 + |delimiter|..] == more;
      assert EntriesOf(parts) == [EntryOf(p)] + EntriesOf(parts[1..]);
      SameRest(EntryOf(p), EntriesOf(parts[1..]), Ok(EntriesOf(parts[1..])));
    }
  }

  lemma PadBlank(p: FormPart, boundary: string)
    requires PartOk(p, boundary)
    ensures Blanks(p.pad)
  {
  }

  lemma EndRead(end: string, delimiter: string)
    requires EndOk(end)
    ensures ParseRest("--" + end, delimiter) == Ok([])
  {
    hide ParseRest, ReadPart, SkipBlanks, Prepended, Blanks;
    var s := "--" + end;
    assert s[2..] == end && "--" <= s;
    if Blanks(end) {
      BlanksSkipped(end, "");
      assert end + "" == end;
      LineCases(s, "", true, delimiter);
    } else {
      var n :| 0 <= n <= |end| && Blanks(end[..n]) && "\r\n" <= end[n..];
      BlanksSkipped(end[..n], end[n..]);
      assert end[..n] + end[n..] == end;
      LineCases(s, end[n..], true, delimiter);
    }
  }

  lemma OpensPart(pad: string, part: string, delimiter: string)
    requires Blanks(pad)
    ensures ParseRest(pad + ("\r\n" + part), delimiter) ==
      match ReadPart(part, delimiter)
      case Err(fault) => Err(fault)
      case Ok((entry, next)) => Prepended(entry, ParseRest(part[next + 2 + |delimiter|..], delimiter))
  {
    hide ReadPart, ParseRest, SkipBlanks, Prepended;
    var text := pad + ("\r\n" + part);
    assert text[0] == if pad == "" then '\r' else pad[0];
    BlanksSkipped(pad, "\r\n" + part);
    assert ("\r\n" + part)[2..] == part;
    LineCases(text, "\r\n" + part, false, delimiter);
  }

  /** What is accepted after a delimiter is the end, or a part and what is accepted after its delimiter. */
  lemma RestIs(rest: string, delimiter: string) returns (pad: string, part: string)
    requires ParseRest(rest, delimiter).Ok?
    ensures Blanks(pad)
    ensures "--" <= rest ==> EndOk(rest[2..]) && ParseRest(rest, delimiter) == Ok([])
    ensures !("--" <= rest) ==> rest == pad + ("\r\n" + part) && ReadPart(part, delimiter).Ok?
    ensures !("--" <= rest) ==>
      var (entry, next) := ReadPart(part, delimiter).value;
      ParseRest(rest, delimiter) == Prepended(entry, ParseRest(part[next + 2 + |delimiter|..], delimiter))
  {
    hide ParseRest, ReadPart, SkipBlanks, Prepended;
    var closing := "--" <= rest;
    var line := if closing then rest[2..] else rest;
    var a := SkipBlanks(line);
    pad := BlanksOf(line);
    LineCases(rest, a, closing, delimiter);
    part := if CRLF <= a then a[2..] else "";
    if CRLF <= a { assert a == "\r\n" + part; }
    if closing {
      assert line[..|pad|] == pad && line[|pad|..] == a;
      if a == "" { assert pad == line; }
    }
  }

  /** Whatever is accepted was written so. */
  lemma {:induction false} PartsAre(rest: string, boundary: string) returns (parts: seq<FormPart>, end: string)
    requires ValidBoundary(boundary) && ParseRest(rest, "--" + boundary).Ok?
    ensures EndOk(end) && forall i :: 0 <= i < |parts| ==> PartOk(parts[i], boundary)
    ensures rest == PartsText(parts, boundary, end)
    decreases |rest|
  {
    hide ParseRest, ReadPart, SkipBlanks, EntryOf, PartOk, EndOk, PartText;
    var delimiter := "--" + boundary;
    var pad, part := RestIs(rest, delimiter);
    parts, end := [], rest;
    if "--" <= rest {
      end := rest[2..];
      assert rest == "--" + rest[2..];
    } else {
      var p, after := PartIs(part, boundary, pad);
      var next := ReadPart(part, delimiter).value.1;
      assert part[next + 2 + |delimiter|..] == after;
      var more;
      more, end := PartsAre(after, boundary);
      parts := [p] + more;
      assert parts[1..] == more;
      PartTextIs(p, pad, part, boundary, after);
    }
  }

  lemma PartTextIs(p: FormPart, pad: string, part: string, boundary: string, rest: string)
    requires p.pad == pad && part == p.section + "\r\n\r\n" + p.body + ("\r\n--" + boundary) + rest
    ensures pad + ("\r\n" + part) == PartText(p) + ("\r\n--" + boundary) + rest
  {
  }

  // ---------------------------------------------------------------------------
  // Bodies
  // ---------------------------------------------------------------------------

  /** Section 5.1.1 of RFC 2046. */
  predicate BoundaryOk(b: string)
  {
    1 <= |b| <= 70 && b[|b| - 1] != ' ' &&
    forall i :: 0 <= i < |b| ==>
      'a' <= b[i] <= 'z' || 'A' <= b[i] <= 'Z' || '0' <= b[i] <= '9' || b[i] in "'()+_,-./:=? "
  }

  /** A body: perhaps a preamble, then the delimiter that opens the form. */
  ghost predicate BodyOf(input: string, boundary: string, parts: seq<FormPart>, end: string)
  {
    var form := "--" + boundary + PartsText(parts, boundary, end);
    EndOk(end) && (forall i :: 0 <= i < |parts| ==> PartOk(parts[i], boundary)) &&
    (input == form ||
     exists preamble: string ::
       input == preamble + "\r\n" + form && !Contains(preamble, "\r\n--" + boundary) && !("--" + boundary <= input))
  }

  /** The parser accepts exactly the forms with a good boundary, and gives the entries that the parts stand for. */
  lemma FormExactly(input: string, boundary: string, entries: seq<Entry>)
    ensures Parse(input, Some(boundary)) == Ok(entries) <==>
      BoundaryOk(boundary) &&
      exists parts: seq<FormPart>, end: string :: BodyOf(input, boundary, parts, end) && EntriesOf(parts) == entries
    ensures !BoundaryOk(boundary) ==> Parse(input, Some(boundary)) == Err(InvalidBoundary)
    ensures Parse(input, None) == Err(InvalidBoundary)
  {
    hide ParseRest, PartsText, PartOk, EndOk, Contains, EntryOf, BodyOf;
    BoundaryIs(boundary);
    if Parse(input, Some(boundary)) == Ok(entries) {
      var parts, end := BodyIs(input, boundary);
      BodyRead(input, boundary, parts, end);
    }
    if BoundaryOk(boundary) {
      forall parts: seq<FormPart>, end: string | BodyOf(input, boundary, parts, end)
        ensures Parse(input, Some(boundary)) == Ok(EntriesOf(parts))
      {
        BodyRead(input, boundary, parts, end);
      }
    }
  }

  lemma BoundaryIs(b: string)
    ensures BoundaryOk(b) <==> ValidBoundary(b)
  {
  }

  lemma BodyRead(input: string, boundary: string, parts: seq<FormPart>, end: string)
    requires ValidBoundary(boundary) && BodyOf(input, boundary, parts, end)
    ensures Parse(input, Some(boundary)) == Ok(EntriesOf(parts))
  {
    hide ParseRest, PartsText, PartOk, EndOk, EntryOf, ValidBoundary, Headed, Contains, Find;
    var delimiter, text := "--" + boundary, PartsText(parts, boundary, end);
    PartsRead(parts, boundary, end);
    assert (delimiter + text)[|delimiter|..] == text;
    assert "\r\n--" + boundary == CRLF + delimiter;
    BoundaryHeaded(boundary);
    if input != delimiter + text {
      var preamble: string :|
        input == preamble + "\r\n" + (delimiter + text) && !Contains(preamble, "\r\n--" + boundary) &&
        !(delimiter <= input);
      assert input == preamble + (CRLF + delimiter) + text;
      FindsFirst(preamble, CRLF + delimiter, text);
      assert input[|preamble| + 2 + |delimiter|..] == text;
    }
  }

  lemma BodyIs(input: string, boundary: string) returns (parts: seq<FormPart>, end: string)
    requires Parse(input, Some(boundary)).Ok?
    ensures BodyOf(input, boundary, parts, end)
  {
    hide ParseRest, PartsText, PartOk, EndOk, ValidBoundary, Find, Contains;
    var delimiter := "--" + boundary;
    assert "\r\n--" + boundary == CRLF + delimiter;
    if delimiter <= input {
      parts, end := PartsAre(input[|delimiter|..], boundary);
      assert input == delimiter + input[|delimiter|..];
    } else {
      var rest := FoundFirst(input, CRLF + delimiter);
      var i := Find(input, CRLF + delimiter).value;
      parts, end := PartsAre(rest, boundary);
      assert input == input[..i] + "\r\n" + (delimiter + rest);
    }
  }

  /** Text without a folded line is not changed by unfolding. */
  lemma {:induction false} UnfoldsNothing(s: string)
    requires forall i :: 0 <= i < |s| - 2 ==>
      !(s[i] == '\r' && s[i + 1] == '\n' && (s[i + 2] == ' ' || s[i + 2] == '\t'))
    ensures Unfolded(s) == s
  {
    if s != "" {
      assert s == [s[0]] + s[1..];
      UnfoldsNothing(s[1..]);
    }
  }
}
