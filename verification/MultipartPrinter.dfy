/** What the multipart printer writes, byte for byte (src/fetch/multipart.ts `encodeMultipartFormData`). */
module MultipartPrinter {
  import opened Prelude
  import opened MultipartText
  import opened MultipartHeaders
  import opened Multipart

  /** Line ends become CRLF, one for each; every other character stays. */
  lemma {:induction false} NormalizedLine(line: string, end: string, rest: string)
    requires NoBreak(line) && end in {"\r", "\n", "\r\n"} && !(end == "\r" && "\n" <= rest)
    ensures Normalized(line + end + rest) == line + "\r\n" + Normalized(rest)
  {
    hide Normalized;
    if line == "" {
      NormalizedEnd(end, rest);
      assert line + end + rest == end + rest && line + "\r\n" == "\r\n";
    } else {
      NormalizedLine(line[1..], end, rest);
      NormalizedChar(line[0], line[1..] + end + rest);
      assert line + end + rest == [line[0]] + (line[1..] + end + rest);
      assert line + "\r\n" + Normalized(rest) == [line[0]] + (line[1..] + "\r\n" + Normalized(rest));
    }
  }

  lemma NormalizedEnd(end: string, rest: string)
    requires end in {"\r", "\n", "\r\n"} && !(end == "\r" && "\n" <= rest)
    ensures Normalized(end + rest) == "\r\n" + Normalized(rest)
  {
    var s := end + rest;
    assert s[|end|..] == rest;
    if end == "\r" && |s| >= 2 {
      assert s[1] == rest[0];
      assert s[1] == '\n' ==> "\n" <= rest;
    }
  }

  lemma NormalizedChar(c: char, rest: string)
    requires c != '\r' && c != '\n'
    ensures Normalized([c] + rest) == [c] + Normalized(rest)
  {
    assert ([c] + rest)[1..] == rest;
  }

  /** In names a quote or line break is percent-encoded, every other character stays. */
  lemma {:induction false} EscapeAppend(a: string, b: string)
    ensures Escape(a + b) == Escape(a) + Escape(b)
  {
    hide EscapeChar;
    if a == "" {
      assert a + b == b;
    } else {
      EscapeAppend(a[1..], b);
      assert (a + b)[1..] == a[1..] + b;
      assert EscapeChar(a[0]) + (Escape(a[1..]) + Escape(b)) == EscapeChar(a[0]) + Escape(a[1..]) + Escape(b);
    }
  }

  lemma EscapeOne(c: char)
    ensures Escape([c]) == if c == '"' then "%22" else if c == '\r' then "%0D" else if c == '\n' then "%0A" else [c]
  {
    assert [c][1..] == "";
  }

  /** A printed part. */
  datatype Written = Written(name: string, filename: Option<string>, type_: Option<string>, body: string)

  function HeadText(part: Written): string
  {
    "Content-Disposition: form-data; name=\"" + part.name + "\"" +
    (if part.filename == None then "" else "; filename=\"" + part.filename.value + "\"") +
    (if part.type_ == None then "" else "\r\nContent-Type: " + part.type_.value)
  }

  lemma HeadIsSection(part: Written)
    ensures HeadText(part) == Section(part.name, part.filename, part.type_)
  {
    hide DispositionText;
    DispositionIs(part.name, part.filename);
    if part.type_.Some? { assert "\r\nContent-Type: " == CRLF + TYPE + ": "; }
  }

  lemma DispositionIs(name: string, filename: Option<string>)
    ensures "Content-Disposition: form-data; name=\"" + name + "\"" +
      (if filename == None then "" else "; filename=\"" + filename.value + "\"") ==
      DISPOSITION + ": " + DispositionText(name, filename)
  {
    assert "Content-Disposition: form-data; name=\"" == "Content-Disposition: " + "form-data; name=\"";
    assert DISPOSITION + ": " == "Content-Disposition: ";
  }

  /** A printed entry: a file always has a type, text never has one. */
  lemma PrintedExactly(entry: Entry, boundary: string)
    ensures var name := Escape(Normalized(entry.name));
      var part := match entry.value
        case TextValue(text) => Written(name, None, None, Normalized(text))
        case FileValue(filename, type_, bytes) =>
          Written(name, Some(Escape(filename)), Some(if type_ == "" then "application/octet-stream" else type_), bytes);
      Part(entry, boundary) == "--" + boundary + "\r\n" + HeadText(part) + "\r\n\r\n" + part.body + "\r\n"
    ensures Encode([], boundary) == "--" + boundary + "--\r\n"
  {
    hide Escape, Normalized, HeadText, Section;
    var name := Escape(Normalized(entry.name));
    match entry.value {
      case TextValue(text) => HeadIsSection(Written(name, None, None, Normalized(text)));
      case FileValue(filename, type_, bytes) =>
        var printed := if type_ == "" then "application/octet-stream" else type_;
        HeadIsSection(Written(name, Some(Escape(filename)), Some(printed), bytes));
    }
  }
}
