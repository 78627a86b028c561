/**
 The grammar behind header splitting (src/fetch/headers.ts `getDecodeAndSplitHeaderValue`, src/http/syntax.ts
 `collectHTTPQuotedString`; section 5.6.4 of RFC 9110): raw characters and quoted strings, whose backslashes escape.
 */
module QuotedPieces {
  import opened Text
  import opened HeaderSplit

  /** In a quoted string: a character, or a backslash and the character it escapes. */
  datatype Item = Char(c: char) | Pair(escaped: char)

  /** `Open`: a quoted string that the value does not close, perhaps with a backslash at its very end. */
  datatype Piece = Raw(c: char) | String(items: seq<Item>) | Open(items: seq<Item>, backslash: bool)

  predicate GoodItems(items: seq<Item>)
  {
    forall item :: item in items && item.Char? ==> item.c != '"' && item.c != '\\'
  }

  predicate GoodPiece(piece: Piece)
  {
    if piece.Raw? then piece.c != '"' && piece.c != ',' else GoodItems(piece.items)
  }

  function ItemText(item: Item): string
  {
    match item case Char(c) => [c] case Pair(escaped) => ['\\', escaped]
  }

  function ItemsText(items: seq<Item>): string
  {
    if items == [] then "" else ItemText(items[0]) + ItemsText(items[1..])
  }

  /** The text after the opening quote. */
  function Inside(piece: Piece): string
    requires !piece.Raw?
  {
    ItemsText(piece.items) + if piece.String? then "\"" else if piece.backslash then "\\" else ""
  }

  function PieceText(piece: Piece): string
  {
    if piece.Raw? then [piece.c] else "\"" + Inside(piece)
  }

  function PiecesText(pieces: seq<Piece>): string
  {
    if pieces == [] then "" else PieceText(pieces[0]) + PiecesText(pieces[1..])
  }

  /** Only the last piece of the last part may be open. */
  predicate GoodPieces(pieces: seq<Piece>, last: bool)
  {
    (forall piece :: piece in pieces ==> GoodPiece(piece)) &&
    forall i :: 0 <= i < |pieces| && pieces[i].Open? ==> last && i == |pieces| - 1
  }

  /** The text of a part, between tabs and spaces. */
  datatype Part = Part(left: string, pieces: seq<Piece>, right: string)

  predicate Blanks(s: string) { forall i :: 0 <= i < |s| ==> s[i] == '\t' || s[i] == ' ' }

  predicate Trimmed(s: string)
  {
    s != "" ==> s[0] != '\t' && s[0] != ' ' && s[|s| - 1] != '\t' && s[|s| - 1] != ' '
  }

  predicate GoodPart(part: Part, last: bool)
  {
    GoodPieces(part.pieces, last) && Blanks(part.left) && Blanks(part.right) && Trimmed(PiecesText(part.pieces))
  }

  function PartText(part: Part): string { part.left + PiecesText(part.pieces) + part.right }

  function Texts(parts: seq<Part>): (r: seq<string>)
    ensures |r| == |parts| && forall i :: 0 <= i < |r| ==> r[i] == PartText(parts[i])
  {
    seq(|parts|, i requires 0 <= i < |parts| => PartText(parts[i]))
  }

  predicate GoodParts(parts: seq<Part>)
  {
    parts != [] && forall i :: 0 <= i < |parts| ==> GoodPart(parts[i], i == |parts| - 1)
  }

  // ---------------------------------------------------------------------------
  // Scanning a piece
  // ---------------------------------------------------------------------------

  lemma {:induction false} WholeAppend(a: string, b: string, mode: Mode)
    ensures Whole(a + b, mode) <==> Whole(a, mode) && Whole(b, ModeAfter(a, mode))
  {
    if a == "" {
      assert a + b == b;
    } else {
      assert (a + b)[1..] == a[1..] + b;
      WholeAppend(a[1..], b, Next(mode, a[0]));
    }
  }

  lemma One(c: char, mode: Mode)
    ensures ModeAfter([c], mode) == Next(mode, c)
    ensures Whole([c], mode) <==> !(mode == Plain && c == ',')
  {
    assert [c][1..] == "";
  }

  lemma {:induction false} ItemsScan(items: seq<Item>)
    requires GoodItems(items)
    ensures ModeAfter(ItemsText(items), Quoted) == Quoted && Whole(ItemsText(items), Quoted)
  {
    if items != [] {
      var first := ItemText(items[0]);
      assert items[0] in items;
      if items[0].Char? {
        One(items[0].c, Quoted);
      } else {
        assert first[1..] == [items[0].escaped];
        One(items[0].escaped, Escape);
      }
      ItemsScan(items[1..]);
      ModeAppend(first, ItemsText(items[1..]), Quoted);
      WholeAppend(first, ItemsText(items[1..]), Quoted);
    }
  }

  lemma PieceScan(piece: Piece)
    requires GoodPiece(piece)
    ensures Whole(PieceText(piece), Plain) && (piece.Open? <==> ModeAfter(PieceText(piece), Plain) != Plain)
  {
    if piece.Raw? {
      One(piece.c, Plain);
    } else {
      var inner := ItemsText(piece.items);
      var tail := if piece.String? then "\"" else if piece.backslash then "\\" else "";
      ItemsScan(piece.items);
      One('"', Plain);
      One('"', Quoted);
      One('\\', Quoted);
      assert PieceText(piece) == "\"" + inner + tail;
      ModeAppend("\"", inner, Plain);
      WholeAppend("\"", inner, Plain);
      ModeAppend("\"" + inner, tail, Plain);
      WholeAppend("\"" + inner, tail, Plain);
    }
  }

  lemma {:induction false} PiecesScan(pieces: seq<Piece>, last: bool)
    requires GoodPieces(pieces, last)
    ensures Whole(PiecesText(pieces), Plain)
    ensures (forall piece :: piece in pieces ==> !piece.Open?) ==> ModeAfter(PiecesText(pieces), Plain) == Plain
  {
    if pieces != [] {
      assert pieces == [pieces[0]] + pieces[1..];
      PieceScan(pieces[0]);
      PiecesScan(pieces[1..], last);
      var first, rest := PieceText(pieces[0]), PiecesText(pieces[1..]);
      ModeAppend(first, rest, Plain);
      WholeAppend(first, rest, Plain);
      if pieces[0].Open? { assert pieces[1..] == []; }
    }
  }

  lemma {:induction false} BlankScan(s: string, mode: Mode)
    requires Blanks(s)
    ensures Whole(s, mode) && (ModeAfter(s, mode) == Plain <==> mode == Plain)
  {
    if s != "" {
      BlankScan(s[1..], Next(mode, s[0]));
    }
  }

  lemma PartScan(part: Part, last: bool)
    requires GoodPart(part, last)
    ensures Whole(PartText(part), Plain) && (!last ==> ModeAfter(PartText(part), Plain) == Plain)
    ensures Trim(PartText(part), TabOrSpace) == PiecesText(part.pieces)
  {
    hide Trim, PiecesText, PieceText;
    var text := PiecesText(part.pieces);
    BlankScan(part.left, Plain);
    BlankScan(part.right, ModeAfter(text, Plain));
    PiecesScan(part.pieces, last);
    ModeAppend(part.left, text, Plain);
    WholeAppend(part.left, text, Plain);
    ModeAppend(part.left + text, part.right, Plain);
    WholeAppend(part.left + text, part.right, Plain);
    TrimPadded(part.left, text, part.right, TabOrSpace);
  }

  // ---------------------------------------------------------------------------
  // Splitting a value
  // ---------------------------------------------------------------------------

  lemma {:induction false} PartsScan(parts: seq<Part>)
    requires GoodParts(parts)
    ensures Parts(Texts(parts), Plain)
  {
    PartScan(parts[0], |parts| == 1);
    if |parts| > 1 {
      PartsScan(parts[1..]);
      assert Texts(parts)[1..] == Texts(parts[1..]);
    }
  }

  /** Splitting gives back the parts: no comma within a quoted string cuts, and no other is missed. */
  lemma SplitParts(parts: seq<Part>)
    requires GoodParts(parts)
    ensures var values := Split(Join(Texts(parts)));
      |values| == |parts| && forall i :: 0 <= i < |parts| ==> values[i] == PiecesText(parts[i].pieces)
  {
    hide Trim, Join, Cut, GoodPart;
    PartsScan(parts);
    JoinCuts(Texts(parts), Plain);
    forall i | 0 <= i < |parts| ensures Trim(PartText(parts[i]), TabOrSpace) == PiecesText(parts[i].pieces) {
      PartScan(parts[i], i == |parts| - 1);
    }
  }

  // ---------------------------------------------------------------------------
  // Every value is made of such parts
  // ---------------------------------------------------------------------------

  /** What follows an opening quote: a string that ends, with more after it, or one that does not. */
  lemma {:induction false} StringOf(s: string) returns (piece: Piece, rest: string)
    ensures !piece.Raw? && GoodPiece(piece) && s == Inside(piece) + rest && (piece.Open? ==> rest == "")
  {
    if s == "" {
      piece, rest := Open([], false), "";
    } else if s[0] == '"' {
      piece, rest := String([]), s[1..];
    } else if s == "\\" {
      piece, rest := Open([], true), "";
    } else {
      var item := if s[0] == '\\' then Pair(s[1]) else Char(s[0]);
      var inner;
      inner, rest := StringOf(s[|ItemText(item)|..]);
      var items := [item] + inner.items;
      assert items[1..] == inner.items;
      piece := if inner.String? then String(items) else Open(items, inner.backslash);
      assert s == ItemText(item) + s[|ItemText(item)|..];
      assert Inside(piece) == ItemText(item) + Inside(inner);
      assert ItemText(item) + (Inside(inner) + rest) == ItemText(item) + Inside(inner) + rest;
    }
  }

  lemma NothingScanned()
    ensures ModeAfter("", Plain) == Plain
  {
  }

  lemma FirstNoComma(s: string)
    requires s != "" && Whole(s, Plain)
    ensures s[0] != ','
  {
  }

  lemma {:induction false} PiecesOf(s: string) returns (pieces: seq<Piece>)
    requires Whole(s, Plain)
    ensures PiecesText(pieces) == s && GoodPieces(pieces, ModeAfter(s, Plain) != Plain)
    decreases |s|
  {
    hide ModeAfter, Whole, Inside;
    if s == "" {
      NothingScanned();
      return [];
    }
    FirstNoComma(s);
    var piece, rest := Raw(s[0]), s[1..];
    if s[0] == '"' {
      piece, rest := StringOf(s[1..]);
      assert PieceText(piece) + rest == "\"" + (Inside(piece) + rest) == s;
    } else {
      assert [s[0]] + rest == s;
    }
    PieceScan(piece);
    ModeAppend(PieceText(piece), rest, Plain);
    WholeAppend(PieceText(piece), rest, Plain);
    if piece.Open? {
      assert rest == "" && PieceText(piece) + rest == PieceText(piece);
      pieces := [piece];
      assert PiecesText(pieces) == PieceText(piece) + PiecesText([]);
    } else {
      assert |PieceText(piece)| > 0;
      var more := PiecesOf(rest);
      pieces := [piece] + more;
      assert pieces[1..] == more;
    }
  }

  lemma PartOf(s: string, last: bool) returns (part: Part)
    requires Whole(s, Plain) && (!last ==> ModeAfter(s, Plain) == Plain)
    ensures GoodPart(part, last) && PartText(part) == s
  {
    hide Trim;
    var left, right := TrimParts(s, TabOrSpace);
    var text := Trim(s, TabOrSpace);
    BlankScan(left, Plain);
    BlankScan(right, ModeAfter(text, Plain));
    ModeAppend(left, text, Plain);
    WholeAppend(left, text, Plain);
    ModeAppend(left + text, right, Plain);
    WholeAppend(left + text, right, Plain);
    var pieces := PiecesOf(text);
    part := Part(left, pieces, right);
  }

  lemma {:induction false} PartsOfCut(cut: seq<string>) returns (parts: seq<Part>)
    requires Parts(cut, Plain)
    ensures GoodParts(parts) && Texts(parts) == cut
  {
    var part := PartOf(cut[0], |cut| == 1);
    parts := [part];
    if |cut| > 1 {
      var more := PartsOfCut(cut[1..]);
      parts := [part] + more;
    }
  }

  /** So the law covers every value. */
  lemma EveryValue(value: string) returns (parts: seq<Part>)
    ensures GoodParts(parts) && Join(Texts(parts)) == value
  {
    CutJoins(value, Plain);
    parts := PartsOfCut(Cut(value, Plain));
  }
}
