/**
 The Content-Disposition values that a multipart part may have (src/fetch/multipart.ts `parsePartHeaders`,
 `skipWhitespaceAndComments`; section 5.1 of RFC 2045, section 3.4 of RFC 822): the parser reads exactly those that the
 grammar writes.
 */
module DispositionGrammar {
  import opened Prelude
  import opened Text
  import opened MultipartHeaders

  // ---------------------------------------------------------------------------
  // Between the tokens
  // ---------------------------------------------------------------------------

  /** White space: a tab or space, or a comment. */
  datatype Space = Blank(c: char) | Comment(pieces: seq<Piece>)

  predicate SpacesOk(spaces: seq<Space>)
  {
    forall s :: s in spaces ==>
      if s.Blank? then s.c == ' ' || s.c == '\t' else forall p :: p in s.pieces ==> PieceOk(p)
  }

  function SpaceText(s: Space): string { if s.Blank? then [s.c] else "(" + PiecesText(s.pieces) + ")" }

  function SpacesText(spaces: seq<Space>): string
  {
    if spaces == [] then "" else SpaceText(spaces[0]) + SpacesText(spaces[1..])
  }

  /** White space is over. */
  predicate Solid(s: string) { s != "" ==> s[0] != ' ' && s[0] != '\t' && s[0] != '(' }

  lemma {:induction false} SpacesSkipped(spaces: seq<Space>, rest: string)
    requires SpacesOk(spaces) && Solid(rest)
    ensures Skip(SpacesText(spaces) + rest) == Some(rest)
  {
    hide PieceOk, Skip, SpaceText;
    var s := SpacesText(spaces) + rest;
    if spaces == [] {
      assert s == rest;
      SkipNothing(rest);
    } else {
      var more := SpacesText(spaces[1..]) + rest;
      assert spaces[0] in spaces && s == SpaceText(spaces[0]) + more;
      SpaceSkipped(spaces[0], more);
      SpacesSkipped(spaces[1..], rest);
    }
  }

  lemma SpaceSkipped(space: Space, rest: string)
    requires SpacesOk([space])
    ensures Skip(SpaceText(space) + rest) == Skip(rest)
  {
    hide PiecesText, PieceOk, AfterComment;
    assert space in [space];
    if space.Blank? { assert ([space.c] + rest)[1..] == rest; } else { CommentSkipped(space.pieces, rest); }
  }

  /** What closes one level of a comment. */
  lemma {:induction false} CommentOf(s: string, depth: nat) returns (pieces: seq<Piece>, rest: string)
    requires depth > 0 && AfterComment(s, depth).Some?
    ensures s == PiecesText(pieces) + ")" + rest && forall p :: p in pieces ==> PieceOk(p)
    ensures AfterComment(s, depth) == AfterComment(rest, depth - 1)
    decreases |s|
  {
    if s[0] == ')' {
      pieces, rest := [], s[1..];
      assert s == [')'] + rest && "" + ")" == ")";
    } else {
      var first, after := Piece.Char(s[0]), s[1..];
      if s[0] == '\\' {
        first, after := Piece.Pair(s[1]), s[2..];
      } else if s[0] == '(' {
        var inner;
        inner, after := CommentOf(s[1..], depth + 1);
        first := Nested(inner);
      }
      assert s == PieceText(first) + after;
      var more;
      more, rest := CommentOf(after, depth);
      pieces := [first] + more;
      assert pieces[1..] == more;
      assert PieceText(first) + (PiecesText(more) + ")" + rest) == PieceText(first) + PiecesText(more) + ")" + rest;
    }
  }

  lemma SpaceOf(s: string) returns (first: Space, rest: string)
    requires Skip(s).Some? && !Solid(s)
    ensures SpacesOk([first]) && s == SpaceText(first) + rest && |rest| < |s| && Skip(rest) == Skip(s)
  {
    first, rest := Blank(s[0]), s[1..];
    if s[0] == '(' {
      var pieces;
      pieces, rest := CommentOf(s[1..], 1);
      first := Comment(pieces);
      assert AfterComment(rest, 0) == Some(rest);
      assert s == "(" + s[1..] == SpaceText(first) + rest;
    }
  }

  lemma {:induction false} SpacesOf(s: string) returns (spaces: seq<Space>)
    requires Skip(s).Some?
    ensures SpacesOk(spaces) && s == SpacesText(spaces) + Skip(s).value && Solid(Skip(s).value)
    decreases |s|
  {
    hide Skip, SpaceText;
    if Solid(s) {
      SkipNothing(s);
      spaces := [];
      assert s == SpacesText([]) + s;
    } else {
      var first, rest := SpaceOf(s);
      var more := SpacesOf(rest);
      var after := Skip(s).value;
      spaces := [first] + more;
      assert spaces[1..] == more;
      assert first in [first];
      assert SpaceText(first) + (SpacesText(more) + after) == SpaceText(first) + SpacesText(more) + after;
    }
  }

  // ---------------------------------------------------------------------------
  // Tokens and quoted strings
  // ---------------------------------------------------------------------------

  predicate TokenText(s: string)
  {
    forall i :: 0 <= i < |s| ==> 32 < s[i] as int < 127 && s[i] !in "()<>@,;:\\\"/[]?="
  }

  lemma {:induction false} TokenIs(s: string)
    ensures TokenText(Token(s).0) && s == Token(s).0 + Token(s).1
    ensures Token(s).1 != "" ==> !TokenChar(Token(s).1[0])
  {
    if s != "" && TokenChar(s[0]) { TokenIs(s[1..]); }
  }

  datatype Item = Plain(c: char) | Escaped(c: char)

  datatype Value = Bare(token: string) | Quotes(items: seq<Item>)

  predicate ValueOk(value: Value)
  {
    match value
    case Bare(token) => token != "" && TokenText(token)
    case Quotes(items) => forall item :: item in items && item.Plain? ==> item.c != '"' && item.c != '\\'
  }

  function ItemsText(items: seq<Item>): string
  {
    if items == [] then "" else ItemText(items[0]) + ItemsText(items[1..])
  }

  function ItemText(item: Item): string { if item.Plain? then [item.c] else ['\\', item.c] }

  /** A quoted pair stands for its second character. */
  function Meaning(value: Value): (r: string)
    ensures value.Bare? ==> r == value.token
    ensures value.Quotes? ==> |r| == |value.items| && forall i :: 0 <= i < |r| ==> r[i] == value.items[i].c
  {
    match value
    case Bare(token) => token
    case Quotes(items) => seq(|items|, i requires 0 <= i < |items| => items[i].c)
  }

  function ValueText(value: Value): string
  {
    match value case Bare(token) => token case Quotes(items) => "\"" + ItemsText(items) + "\""
  }

  lemma QuotedItem(item: Item, more: string)
    requires item.Plain? ==> item.c != '"' && item.c != '\\'
    ensures Quoted(ItemText(item) + more) ==
      match Quoted(more) case None => None case Some((text, rest)) => Some(([item.c] + text, rest))
  {
    var s := ItemText(item) + more;
    var n := if item.Plain? then 1 else 2;
    assert s[n..] == more && s[n - 1] == item.c && s[0] == ItemText(item)[0];
  }

  lemma {:induction false} QuotedRead(items: seq<Item>, rest: string)
    requires ValueOk(Quotes(items))
    ensures Quoted(ItemsText(items) + "\"" + rest) == Some((Meaning(Quotes(items)), rest))
  {
    hide Quoted, ItemText;
    if items == [] {
      QuoteCloses(rest);
      assert ItemsText([]) + "\"" + rest == "\"" + rest;
    } else {
      var item, more := items[0], ItemsText(items[1..]) + "\"" + rest;
      assert item in items;
      QuotedItem(item, more);
      QuotedRead(items[1..], rest);
      assert ItemsText(items) + "\"" + rest == ItemText(item) + more;
      assert Meaning(Quotes(items)) == [item.c] + Meaning(Quotes(items[1..]));
    }
  }

  lemma QuoteCloses(rest: string)
    ensures Quoted("\"" + rest) == Some(("", rest))
  {
    assert ("\"" + rest)[1..] == rest;
  }

  lemma {:induction false} QuotedIs(s: string) returns (items: seq<Item>)
    requires Quoted(s).Some?
    ensures ValueOk(Quotes(items)) && Quoted(s).value.0 == Meaning(Quotes(items))
    ensures s == ItemsText(items) + "\"" + Quoted(s).value.1
    decreases |s|
  {
    if s[0] == '"' {
      items := [];
      QuoteCloses(s[1..]);
      assert s == "\"" + s[1..] == "" + "\"" + s[1..];
    } else {
      var item, rest := ItemOf(s);
      var more := QuotedIs(rest);
      items := [item] + more;
      assert items[1..] == more;
      MeaningCons(item, more);
      var after := Quoted(rest).value.1;
      assert ItemText(item) + (ItemsText(more) + "\"" + after) == ItemText(item) + ItemsText(more) + "\"" + after;
    }
  }

  lemma MeaningCons(item: Item, more: seq<Item>)
    ensures Meaning(Quotes([item] + more)) == [item.c] + Meaning(Quotes(more))
  {
  }

  lemma ItemOf(s: string) returns (item: Item, rest: string)
    requires Quoted(s).Some? && s[0] != '"'
    ensures (item.Plain? ==> item.c != '"' && item.c != '\\') && s == ItemText(item) + rest && |rest| < |s|
    ensures Quoted(rest).Some? &&
      Quoted(s) == Some(([item.c] + Quoted(rest).value.0, Quoted(rest).value.1))
  {
    var n := if s[0] == '\\' then 2 else 1;
    item, rest := if s[0] == '\\' then Escaped(s[1]) else Plain(s[0]), s[n..];
    assert s == ItemText(item) + rest;
    QuotedItem(item, rest);
  }

  // ---------------------------------------------------------------------------
  // Parameters
  // ---------------------------------------------------------------------------

  /** `;name=value`, with white space before the name, on both sides of the equals sign, and after the value. */
  datatype Param = Param(
    before: seq<Space>, name: string, left: seq<Space>, right: seq<Space>, value: Value, after: seq<Space>)

  predicate ParamOk(p: Param)
  {
    SpacesOk(p.before) && SpacesOk(p.left) && SpacesOk(p.right) && SpacesOk(p.after) &&
    p.name != "" && TokenText(p.name) && ValueOk(p.value)
  }

  function ParamText(p: Param): string
  {
    ";" + (SpacesText(p.before) + (p.name + (SpacesText(p.left) + ("=" + (SpacesText(p.right) +
      (ValueText(p.value) + SpacesText(p.after)))))))
  }

  /** What follows a parameter: another one, or nothing. */
  predicate Follows(rest: string) { rest != "" ==> rest[0] == ';' }

  /** White space and what follows it do not go on with a token. */
  lemma SpacesEnd(spaces: seq<Space>, rest: string)
    requires SpacesOk(spaces) && (rest != "" ==> !TokenChar(rest[0]))
    ensures var s := SpacesText(spaces) + rest; s != "" ==> !TokenChar(s[0])
  {
    if spaces != [] { assert spaces[0] in spaces; }
  }

  lemma ValueRead(name: string, value: Value, after: seq<Space>, rest: string)
    requires ValueOk(value) && SpacesOk(after) && Follows(rest)
    ensures ParameterValue(name, ValueText(value) + (SpacesText(after) + rest)) == Ok((name, Meaning(value), rest))
  {
    hide Skip, SpacesText, ItemsText, ParameterValue;
    var tail := SpacesText(after) + rest;
    SpacesSkipped(after, rest);
    match value {
      case Bare(token) =>
        SpacesEnd(after, rest);
        BareRead(name, token, tail);
      case Quotes(items) =>
        assert ValueText(value) + tail == "\"" + (ItemsText(items) + "\"" + tail);
        QuotesRead(name, items, tail);
    }
  }

  lemma BareRead(name: string, token: string, tail: string)
    requires token != "" && TokenText(token) && (tail != "" ==> !TokenChar(tail[0]))
    ensures ParameterValue(name, token + tail) == AfterValue(name, token, tail)
  {
    hide Token, AfterValue;
    TokenOf(token, tail);
    assert (token + tail)[0] == token[0];
  }

  lemma QuotesRead(name: string, items: seq<Item>, tail: string)
    requires ValueOk(Quotes(items))
    ensures ParameterValue(name, "\"" + (ItemsText(items) + "\"" + tail)) ==
      AfterValue(name, Meaning(Quotes(items)), tail)
  {
    hide Quoted, ItemsText, AfterValue, Meaning;
    QuotedRead(items, tail);
    var d := "\"" + (ItemsText(items) + "\"" + tail);
    assert d[1..] == ItemsText(items) + "\"" + tail;
  }

  lemma ParamRead(p: Param, rest: string)
    requires ParamOk(p) && Follows(rest)
    ensures Parameter(ParamText(p) + rest) == Ok((Lower(p.name), Meaning(p.value), rest))
  {
    hide Skip, SpacesText, ValueText, ValueOk, ParameterValue, Token, Lower;
    var e := ValueText(p.value) + (SpacesText(p.after) + rest);
    var d := SpacesText(p.right) + e;
    var c := "=" + d;
    var b := SpacesText(p.left) + c;
    var a := p.name + b;
    assert ParamText(p) + rest == ";" + (SpacesText(p.before) + a);
    assert (";" + (SpacesText(p.before) + a))[1..] == SpacesText(p.before) + a;
    assert TokenChar(a[0]);
    SpacesSkipped(p.before, a);
    SpacesEnd(p.left, c);
    TokenOf(p.name, b);
    SpacesSkipped(p.left, c);
    assert c[1..] == d;
    SolidValue(p.value, SpacesText(p.after) + rest);
    SpacesSkipped(p.right, e);
    ValueRead(Lower(p.name), p.value, p.after, rest);
  }

  lemma SolidValue(value: Value, rest: string)
    requires ValueOk(value)
    ensures Solid(ValueText(value) + rest)
  {
  }

  lemma ValueIs(name: string, d: string) returns (value: Value, after: seq<Space>)
    requires ParameterValue(name, d).Ok?
    ensures ValueOk(value) && SpacesOk(after)
    ensures var (n, v, rest) := ParameterValue(name, d).value;
      n == name && v == Meaning(value) && d == ValueText(value) + (SpacesText(after) + rest) && Solid(rest)
  {
    hide Skip, SpacesText, ItemsText, Quoted, Token;
    if d != "" && d[0] == '"' {
      var (text, e) := Quoted(d[1..]).value;
      var items := QuotedIs(d[1..]);
      value := Quotes(items);
      after := SpacesOf(e);
      assert d == "\"" + (ItemsText(items) + "\"" + e) == ValueText(value) + e;
    } else {
      TokenIs(d);
      var (token, e) := Token(d);
      value := Bare(token);
      after := SpacesOf(e);
    }
  }

  lemma ParamIs(s: string) returns (p: Param)
    requires Parameter(s).Ok?
    ensures ParamOk(p)
    ensures var (n, v, rest) := Parameter(s).value;
      n == Lower(p.name) && v == Meaning(p.value) && s == ParamText(p) + rest && Solid(rest)
  {
    hide Skip, SpacesText, ValueText, ValueOk, ParameterValue, Token, Lower;
    var before := SpacesOf(s[1..]);
    var a := Skip(s[1..]).value;
    TokenIs(a);
    var (name, b) := Token(a);
    var left := SpacesOf(b);
    var c := Skip(b).value;
    var right := SpacesOf(c[1..]);
    var d := Skip(c[1..]).value;
    var value, after := ValueIs(Lower(name), d);
    p := Param(before, name, left, right, value, after);
    var rest := Parameter(s).value.2;
    assert s == ";" + s[1..] && c == "=" + c[1..];
    assert s == ";" + (SpacesText(before) + (name + (SpacesText(left) + ("=" + (SpacesText(right) + d)))));
    assert ParamText(p) + rest == ";" + (SpacesText(before) + (name + (SpacesText(left) + ("=" + (SpacesText(right) +
      (ValueText(value) + (SpacesText(after) + rest)))))));
  }

  function ParamsText(params: seq<Param>): string
  {
    if params == [] then "" else ParamText(params[0]) + ParamsText(params[1..])
  }

  /** No name comes twice, in whatever case, or is known already. */
  predicate Apart(params: seq<Param>, known: set<string>)
  {
    (forall i :: 0 <= i < |params| ==> Lower(params[i].name) !in known) &&
    forall i, j :: 0 <= i < j < |params| ==> !Same(params[i].name, params[j].name)
  }

  /** The map holds what the parameters say, and what was known. */
  ghost predicate Says(m: map<string, string>, params: seq<Param>, known: map<string, string>)
  {
    (forall p :: p in params ==> Lower(p.name) in m && m[Lower(p.name)] == Meaning(p.value)) &&
    (forall n :: n in known ==> n in m && m[n] == known[n]) &&
    forall n :: n in m ==> n in known || exists p :: p in params && Lower(p.name) == n
  }

  /** Parameters are read as written, unless a name comes twice. */
  lemma {:induction false} ParamsRead(params: seq<Param>, known: map<string, string>)
    requires forall p :: p in params ==> ParamOk(p)
    ensures var r := Parameters(ParamsText(params), known);
      if Apart(params, known.Keys) then r.Ok? && Says(r.value, params, known) else r == Err(DuplicateParameter)
  {
    hide Parameter, ParamText, ParamOk, Lower, Meaning;
    if params != [] {
      var p, rest := params[0], params[1..];
      assert params == [p] + rest && p in params;
      FollowingParams(rest);
      ParamStarts(p);
      ParamRead(p, ParamsText(rest));
      if Lower(p.name) !in known {
        var more := known[Lower(p.name) := Meaning(p.value)];
        ParamsRead(rest, more);
        assert Apart(params, known.Keys) <==> Apart(rest, more.Keys) by { ApartRest(params, known.Keys, more.Keys); }
        if Apart(params, known.Keys) { SaysRest(Parameters(ParamsText(params), known).value, params, known, more); }
      }
    }
  }

  lemma ParamStarts(p: Param)
    ensures ParamText(p) != "" && ParamText(p)[0] == ';'
  {
  }

  lemma FollowingParams(params: seq<Param>)
    ensures Follows(ParamsText(params))
  {
    if params != [] { ParamStarts(params[0]); }
  }

  lemma ApartRest(params: seq<Param>, known: set<string>, more: set<string>)
    requires params != [] && more == known + {Lower(params[0].name)} && Lower(params[0].name) !in known
    ensures Apart(params, known) <==> Apart(params[1..], more)
  {
    hide Lower;
    var rest := params[1..];
    assert forall i :: 0 <= i < |rest| ==> rest[i] == params[i + 1];
    if Apart(rest, more) {
      forall i, j | 0 <= i < j < |params| ensures !Same(params[i].name, params[j].name) {
        assert params[j] == rest[j - 1];
        if i > 0 { assert params[i] == rest[i - 1]; }
      }
      forall i | 0 <= i < |params| ensures Lower(params[i].name) !in known {
        if i > 0 { assert params[i] == rest[i - 1]; }
      }
    }
    if Apart(params, known) {
      forall i | 0 <= i < |rest| ensures Lower(rest[i].name) !in more {
        assert !Same(params[0].name, params[i + 1].name);
      }
    }
  }

  lemma SaysRest(m: map<string, string>, params: seq<Param>, known: map<string, string>, more: map<string, string>)
    requires params != [] && more == known[Lower(params[0].name) := Meaning(params[0].value)]
    requires Lower(params[0].name) !in known && Says(m, params[1..], more)
    ensures Says(m, params, known)
  {
    hide Lower, Meaning;
    assert params == [params[0]] + params[1..];
    forall n | n in m ensures n in known || exists p :: p in params && Lower(p.name) == n {
      if n !in known && n == Lower(params[0].name) { assert params[0] in params; }
    }
  }

  /** Whatever is read was written so. */
  lemma {:induction false} ParamsAre(s: string, known: map<string, string>) returns (params: seq<Param>)
    requires Parameters(s, known).Ok?
    ensures (forall p :: p in params ==> ParamOk(p)) && s == ParamsText(params)
    decreases |s|
  {
    hide Parameter, ParamText, ParamOk, Lower, Meaning;
    if s == "" {
      params := [];
    } else {
      var p := ParamIs(s);
      var (name, value, rest) := Parameter(s).value;
      var more := ParamsAre(rest, known[name := value]);
      params := [p] + more;
      assert params[1..] == more;
    }
  }

  // ---------------------------------------------------------------------------
  // The header value
  // ---------------------------------------------------------------------------

  datatype Header = Header(before: seq<Space>, kind: string, after: seq<Space>, params: seq<Param>)

  predicate HeaderOk(h: Header)
  {
    SpacesOk(h.before) && SpacesOk(h.after) && TokenText(h.kind) && Same(h.kind, "form-data") &&
    (forall p :: p in h.params ==> ParamOk(p)) && Apart(h.params, {})
  }

  function HeaderText(h: Header): string
  {
    SpacesText(h.before) + (h.kind + (SpacesText(h.after) + ParamsText(h.params)))
  }

  /** The parameter of a name, in whatever case. */
  ghost predicate Names(h: Header, name: string, value: Option<string>)
  {
    if value.Some? then exists p :: p in h.params && Same(p.name, name) && Meaning(p.value) == value.value
    else forall p :: p in h.params ==> !Same(p.name, name)
  }

  /** What is written in the grammar is read, */
  lemma HeaderRead(h: Header)
    requires HeaderOk(h)
    ensures var r := Disposition(HeaderText(h)); r.Ok? && Says(r.value, h.params, map[])
  {
    hide Skip, SpacesText, Token, ParamsText, Lower, Parameters, Meaning, ParamOk;
    var c := ParamsText(h.params);
    var b := SpacesText(h.after) + c;
    var a := h.kind + b;
    FormDataLower();
    FollowingParams(h.params);
    assert |h.kind| == 9 && TokenChar(a[0]) by { SameLength(h.kind, "form-data"); }
    SpacesSkipped(h.before, a);
    SpacesEnd(h.after, c);
    TokenOf(h.kind, b);
    SpacesSkipped(h.after, c);
    var none: map<string, string> := map[];
    assert none.Keys == {};
    ParamsRead(h.params, none);
  }

  lemma FormDataLower()
    ensures Lower("form-data") == "form-data"
  {
  }

  lemma SameLength(a: string, b: string)
    requires Same(a, b)
    ensures |a| == |b|
  {
    assert |Lower(a)| == |a| && |Lower(b)| == |b|;
  }

  /** and nothing else is. */
  lemma HeaderIs(s: string) returns (h: Header)
    requires Disposition(s).Ok?
    ensures HeaderOk(h) && s == HeaderText(h)
  {
    hide Skip, SpacesText, Token, ParamsText, Lower, Parameters, Meaning, ParamOk;
    FormDataLower();
    var before := SpacesOf(s);
    var a := Skip(s).value;
    TokenIs(a);
    var (kind, b) := Token(a);
    var after := SpacesOf(b);
    var c := Skip(b).value;
    var none: map<string, string> := map[];
    assert none.Keys == {};
    var params := ParamsAre(c, none);
    ParamsRead(params, none);
    h := Header(before, kind, after, params);
  }

  /** The parser accepts exactly the values of the grammar. */
  lemma AcceptsExactly(s: string)
    ensures Disposition(s).Ok? <==> exists h: Header :: HeaderOk(h) && HeaderText(h) == s
  {
    hide Disposition, HeaderOk, HeaderText;
    if Disposition(s).Ok? { var h := HeaderIs(s); }
    if h: Header :| HeaderOk(h) && HeaderText(h) == s { HeaderRead(h); }
  }

  /** And what it gives for a name is what the parameter of that name says. */
  lemma GivesNamed(h: Header, name: string)
    requires HeaderOk(h) && Lower(name) == name
    ensures Disposition(HeaderText(h)).Ok? && Names(h, name, Lookup(Disposition(HeaderText(h)).value, name))
  {
    hide Disposition, HeaderOk, HeaderText, Lower, Meaning;
    HeaderRead(h);
  }
}
