/**
 Splitting a header value at its unquoted commas (src/fetch/headers.ts `getDecodeAndSplitHeaderValue`,
 src/http/syntax.ts `collectHTTPQuotedString`).
 */
module HeaderSplit {
  import opened Prelude
  import opened Text
  import opened HeaderList

  /** Where a scan stands: outside a quoted string, inside one, or just after a backslash inside one. */
  datatype Mode = Plain | Quoted | Escape

  function Next(mode: Mode, c: char): Mode
  {
    match mode
    case Plain => if c == '"' then Quoted else Plain
    case Quoted => if c == '"' then Plain else if c == '\\' then Escape else Quoted
    case Escape => Quoted
  }

  function ModeAfter(s: string, mode: Mode): Mode
  {
    if s == "" then mode else ModeAfter(s[1..], Next(mode, s[0]))
  }

  /** Every quoted string of the value is closed. */
  predicate Closed(s: string) { ModeAfter(s, Plain) == Plain }

  /** The raw text between the unquoted commas. */
  function Cut(s: string, mode: Mode): (r: seq<string>)
    ensures r != []
  {
    if s == "" then [""]
    else if mode == Plain && s[0] == ',' then [""] + Cut(s[1..], Plain)
    else Prepend([s[0]], Cut(s[1..], Next(mode, s[0])))
  }

  function Prepend(text: string, parts: seq<string>): seq<string>
    requires parts != []
  {
    [text + parts[0]] + parts[1..]
  }

  function TrimAll(parts: seq<string>): (r: seq<string>)
    ensures |r| == |parts| && forall i :: 0 <= i < |r| ==> r[i] == Trim(parts[i], TabOrSpace)
  {
    seq(|parts|, i requires 0 <= i < |parts| => Trim(parts[i], TabOrSpace))
  }

  function Split(value: string): (r: seq<string>)
    ensures r != []
  {
    TrimAll(Cut(value, Plain))
  }

  // ---------------------------------------------------------------------------
  // Cutting and joining undo each other
  // ---------------------------------------------------------------------------

  function Join(parts: seq<string>): string
    requires parts != []
  {
    if |parts| == 1 then parts[0] else parts[0] + "," + Join(parts[1..])
  }

  /** No comma outside quoted strings. */
  predicate Whole(s: string, mode: Mode)
  {
    s == "" || (!(mode == Plain && s[0] == ',') && Whole(s[1..], Next(mode, s[0])))
  }

  /** Every part is whole, and all but the last close their quoted strings. */
  predicate Parts(parts: seq<string>, mode: Mode)
  {
    parts != [] && Whole(parts[0], mode) &&
    (|parts| > 1 ==> ModeAfter(parts[0], mode) == Plain && Parts(parts[1..], Plain))
  }

  lemma {:induction false} JoinPrepend(text: string, parts: seq<string>)
    requires parts != []
    ensures Join(Prepend(text, parts)) == text + Join(parts)
  {
    if |parts| > 1 {
      assert Prepend(text, parts)[1..] == parts[1..];
      assert text + parts[0] + "," + Join(parts[1..]) == text + (parts[0] + "," + Join(parts[1..]));
    }
  }

  /** The cuts lose nothing, and fall at commas outside quoted strings only. */
  lemma {:induction false} CutJoins(s: string, mode: Mode)
    ensures Join(Cut(s, mode)) == s
    ensures Parts(Cut(s, mode), mode)
  {
    if s == "" {
    } else if mode == Plain && s[0] == ',' {
      CutJoins(s[1..], Plain);
      assert Cut(s, mode)[1..] == Cut(s[1..], Plain);
      assert Join(Cut(s, mode)) == "" + "," + Join(Cut(s[1..], Plain));
    } else {
      var rest := Cut(s[1..], Next(mode, s[0]));
      CutJoins(s[1..], Next(mode, s[0]));
      JoinPrepend([s[0]], rest);
      assert Prepend([s[0]], rest)[1..] == rest[1..];
      assert ([s[0]] + rest[0])[1..] == rest[0];
    }
  }

  /** There is no other way to cut: such parts are what their join is cut into. */
  lemma {:induction false} JoinCuts(parts: seq<string>, mode: Mode)
    requires Parts(parts, mode)
    ensures Cut(Join(parts), mode) == parts
    decreases |parts|, |parts[0]|
  {
    var first, text := parts[0], Join(parts);
    if first != "" {
      var shorter := [first[1..]] + parts[1..];
      assert shorter[1..] == parts[1..];
      JoinCuts(shorter, Next(mode, first[0]));
      assert Prepend([first[0]], shorter) == parts by { assert [first[0]] + first[1..] == first; }
      JoinPrepend([first[0]], shorter);
      assert text[1..] == Join(shorter);
    } else if |parts| > 1 {
      assert text[1..] == Join(parts[1..]);
      JoinCuts(parts[1..], Plain);
    }
  }

  // ---------------------------------------------------------------------------
  // Splitting distributes over combination
  // ---------------------------------------------------------------------------

  lemma {:induction false} ModeAppend(a: string, b: string, mode: Mode)
    ensures ModeAfter(a + b, mode) == ModeAfter(b, ModeAfter(a, mode))
  {
    if a == "" {
      assert a + b == b;
    } else {
      assert (a + b)[1..] == a[1..] + b;
      ModeAppend(a[1..], b, Next(mode, a[0]));
    }
  }

  /** The last part of `x` runs on into the first of `y`. */
  function Glue(x: seq<string>, y: seq<string>): seq<string>
    requires x != [] && y != []
  {
    x[..|x| - 1] + Prepend(x[|x| - 1], y)
  }

  lemma GluePrepend(text: string, x: seq<string>, y: seq<string>)
    requires x != [] && y != []
    ensures Prepend(text, Glue(x, y)) == Glue(Prepend(text, x), y)
  {
    if |x| == 1 { assert text + (x[0] + y[0]) == text + x[0] + y[0]; }
  }

  lemma {:induction false} CutAppend(a: string, b: string, mode: Mode)
    ensures Cut(a + b, mode) == Glue(Cut(a, mode), Cut(b, ModeAfter(a, mode)))
  {
    if a == "" {
      assert a + b == b;
      PrependNothing(Cut(b, mode));
    } else {
      assert (a + b)[1..] == a[1..] + b;
      var next := Next(mode, a[0]);
      CutAppend(a[1..], b, next);
      GluePrepend([a[0]], Cut(a[1..], next), Cut(b, ModeAfter(a, mode)));
      if mode == Plain && a[0] == ',' {
        assert Cut(a, mode)[..|Cut(a, mode)| - 1] == [""] + Cut(a[1..], Plain)[..|Cut(a[1..], Plain)| - 1];
      }
    }
  }

  /** Splitting a combination gives both splits exactly when the first value closes its quoted strings. */
  lemma SplitCombination(a: string, b: string)
    ensures Split(a + ", " + b) == Split(a) + Split(b) <==> Closed(a)
  {
    if Closed(a) { ClosedSplits(a, b); } else { OpenStringShows(a, b, Split(b)); }
  }

  lemma ClosedSplits(a: string, b: string)
    requires Closed(a)
    ensures Split(a + ", " + b) == Split(a) + Split(b)
  {
    hide Cut, Trim, Prepend, Glue, TrimAll;
    var x, z := Cut(a, Plain), Cut(b, Plain);
    CutBlank(b);
    assert a + ", " + b == a + (", " + b);
    CutAppend(a, ", " + b, Plain);
    GlueNothing(x, Prepend(" ", z));
    TrimBlank(x, z);
  }

  lemma GlueNothing(x: seq<string>, y: seq<string>)
    requires x != []
    ensures Glue(x, [""] + y) == x + y
  {
    assert x[|x| - 1] + "" == x[|x| - 1];
    assert ([""] + y)[1..] == y;
  }

  lemma TrimBlank(x: seq<string>, z: seq<string>)
    requires z != []
    ensures TrimAll(x + Prepend(" ", z)) == TrimAll(x) + TrimAll(z)
  {
    hide Trim;
    TrimLeading(" ", z[0], TabOrSpace);
  }

  lemma CutBlank(b: string)
    ensures Cut(", " + b, Plain) == [""] + Prepend(" ", Cut(b, Plain))
  {
    assert (", " + b)[1..] == " " + b;
    assert (" " + b)[1..] == b;
  }

  function SplitAll(values: seq<string>): (r: seq<seq<string>>)
    ensures |r| == |values| && forall i :: 0 <= i < |r| ==> r[i] == Split(values[i])
  {
    seq(|values|, i requires 0 <= i < |values| => Split(values[i]))
  }

  predicate AllButLastClosed(values: seq<string>)
  {
    forall i :: 0 <= i < |values| - 1 ==> Closed(values[i])
  }

  /** The first value that leaves a quoted string open swallows the comma after it. */
  lemma {:induction false} SplitCombined(values: seq<string>)
    requires values != []
    ensures Split(Combined(values)) == Concat(SplitAll(values)) <==> AllButLastClosed(values)
  {
    hide Split, Closed, SplitAll;
    var rest := values[1..];
    assert SplitAll(values)[1..] == SplitAll(rest);
    assert Concat(SplitAll(values)) == Split(values[0]) + Concat(SplitAll(rest));
    if rest == [] {
      assert Concat(SplitAll(values)) == Split(values[0]) + [];
    } else {
      SplitCombined(rest);
      AllButLastRest(values);
      if Closed(values[0]) {
        SplitCombination(values[0], Combined(rest));
        SamePrefix(Split(values[0]), Split(Combined(rest)), Concat(SplitAll(rest)));
      } else {
        OpenStringShows(values[0], Combined(rest), Concat(SplitAll(rest)));
      }
    }
  }

  lemma SamePrefix(p: seq<string>, x: seq<string>, y: seq<string>)
    ensures p + x == p + y <==> x == y
  {
    assert x == (p + x)[|p|..] && y == (p + y)[|p|..];
  }

  lemma AllButLastRest(values: seq<string>)
    requires |values| > 1
    ensures AllButLastClosed(values) <==> Closed(values[0]) && AllButLastClosed(values[1..])
  {
    var rest := values[1..];
    if AllButLastClosed(values) {
      forall i | 0 <= i < |rest| - 1 ensures Closed(rest[i]) { assert rest[i] == values[i + 1]; }
    } else {
      var i :| 0 <= i < |values| - 1 && !Closed(values[i]);
      if i > 0 { assert rest[i - 1] == values[i]; }
    }
  }

  lemma OpenStringShows(a: string, b: string, tail: seq<string>)
    requires !Closed(a)
    ensures Split(a + ", " + b) != Split(a) + tail
  {
    hide Trim;
    var mode, x := ModeAfter(a, Plain), Cut(a, Plain);
    var last := x[|x| - 1];
    assert a + ", " + b == a + (", " + b);
    CutAppend(a, ", " + b, Plain);
    assert (", " + b)[1..] == " " + b;
    var rest := Cut(" " + b, Next(mode, ','));
    assert Cut(", " + b, mode) == Prepend([','], rest);
    assert last + ([','] + rest[0]) == last + [','] + rest[0];
    TrimGrows(last, ',', rest[0], TabOrSpace);
    assert Split(a + ", " + b)[|x| - 1] == Trim(last + [','] + rest[0], TabOrSpace);
    assert (Split(a) + tail)[|x| - 1] == Trim(last, TabOrSpace);
  }

  /** `getDecodeAndSplit`: what a header list gives for a name its lines spell in closed values. */
  lemma SplitOfList(list: seq<Header>, name: string)
    requires Has(list, name)
    ensures Get(list, name).Some? && ValuesOf(list, name) != []
    ensures Split(Get(list, name).value) == Concat(SplitAll(ValuesOf(list, name))) <==>
      AllButLastClosed(ValuesOf(list, name))
  {
    HasValues(list, name);
    SplitCombined(ValuesOf(list, name));
  }

  // ---------------------------------------------------------------------------
  // The scanner
  // ---------------------------------------------------------------------------

  /** `collectHTTPQuotedString`: the end of the quoted string that starts here. */
  method QuotedEnd(value: string, start: nat) returns (end: nat)
    requires start < |value| && value[start] == '"'
    ensures start < end <= |value|
    ensures forall k :: start < k < end ==> !Closed(value[start..k])
    ensures Cut(value[start..], Plain) ==
      Prepend(value[start..end], Cut(value[end..], ModeAfter(value[start..end], Plain)))
    ensures end < |value| ==> Closed(value[start..end])
  {
    hide Cut;
    end := start + 1;
    PrependNothing(Cut(value[start..], Plain));
    StepAt(value, start, start, Plain);
    while true
      invariant start < end <= |value|
      invariant ModeAfter(value[start..end], Plain) == Quoted
      invariant forall k :: start < k <= end ==> !Closed(value[start..k])
      invariant Cut(value[start..], Plain) == Prepend(value[start..end], Cut(value[end..], Quoted))
      decreases |value| - end
    {
      while end < |value| && value[end] != '"' && value[end] != '\\'
        invariant start < end <= |value|
        invariant ModeAfter(value[start..end], Plain) == Quoted
        invariant forall k :: start < k <= end ==> !Closed(value[start..k])
        invariant Cut(value[start..], Plain) == Prepend(value[start..end], Cut(value[end..], Quoted))
      {
        StepAt(value, start, end, Quoted);
        end := end + 1;
      }
      if end == |value| { return; }
      StepAt(value, start, end, Quoted);
      end := end + 1;
      if value[end - 1] == '"' { return; }
      if end == |value| { return; }
      StepAt(value, start, end, Escape);
      end := end + 1;
    }
  }

  /** Reading one character that does not cut. */
  lemma StepAt(value: string, start: nat, i: nat, mode: Mode)
    requires start <= i < |value|
    requires ModeAfter(value[start..i], Plain) == mode && !(mode == Plain && value[i] == ',')
    requires Cut(value[start..], Plain) == Prepend(value[start..i], Cut(value[i..], mode))
    ensures ModeAfter(value[start..i + 1], Plain) == Next(mode, value[i])
    ensures Cut(value[start..], Plain) == Prepend(value[start..i + 1], Cut(value[i + 1..], Next(mode, value[i])))
  {
    assert value[start..i + 1] == value[start..i] + [value[i]];
    ModeAppend(value[start..i], [value[i]], Plain);
    assert ModeAfter([value[i]], mode) == ModeAfter([value[i]][1..], Next(mode, value[i]));
    assert value[i..][1..] == value[i + 1..];
    var rest := Cut(value[i + 1..], Next(mode, value[i]));
    assert Cut(value[i..], mode) == Prepend([value[i]], rest);
    assert value[start..i] + ([value[i]] + rest[0]) == value[start..i + 1] + rest[0];
  }

  /** The next double quote or comma outside quoted strings. */
  method PlainEnd(value: string, start: nat) returns (end: nat)
    requires start <= |value|
    ensures start <= end <= |value| && (end == |value| || value[end] == '"' || value[end] == ',')
    ensures Cut(value[start..], Plain) == Prepend(value[start..end], Cut(value[end..], Plain))
  {
    hide Cut;
    end := start;
    assert value[start..start] == "";
    PrependNothing(Cut(value[start..], Plain));
    while end < |value| && value[end] != '"' && value[end] != ','
      invariant start <= end <= |value|
      invariant Cut(value[start..], Plain) == Prepend(value[start..end], Cut(value[end..], Plain))
    {
      PlainStep(value, start, end);
      end := end + 1;
    }
  }

  /** `getDecodeAndSplitHeaderValue` */
  method SplitValue(value: string) returns (values: seq<string>)
    ensures values == Split(value)
  {
    hide Cut, Trim, ModeAfter, Prepend;
    var position: nat := 0;
    var temporary := "";
    values := [];
    ghost var done: seq<string> := [];
    assert value[0..] == value;
    PrependNothing(Cut(value, Plain));
    while true
      invariant position <= |value|
      invariant values == TrimAll(done)
      invariant Cut(value, Plain) == done + Prepend(temporary, Cut(value[position..], Plain))
      decreases |value| - position
    {
      var end := PlainEnd(value, position);
      PrependTwice(temporary, value[position..end], Cut(value[end..], Plain));
      temporary, position := temporary + value[position..end], end;
      if position < |value| && value[position] == '"' {
        end := QuotedEnd(value, position);
        ghost var mode := ModeAfter(value[position..end], Plain);
        PrependTwice(temporary, value[position..end], Cut(value[end..], mode));
        temporary, position := temporary + value[position..end], end;
        if position < |value| { continue; }
        CutAtEnd(value, temporary, mode);
      }
      values := values + [Trim(temporary, TabOrSpace)];
      if position == |value| {
        CutAtEnd(value, temporary, Plain);
        assert values == TrimAll(done + [temporary]);
        return;
      }
      CutAt(value, position, temporary);
      done, temporary, position := done + [temporary], "", position + 1;
    }
  }

  lemma PlainStep(value: string, start: nat, i: nat)
    requires start <= i < |value| && value[i] != '"' && value[i] != ','
    requires Cut(value[start..], Plain) == Prepend(value[start..i], Cut(value[i..], Plain))
    ensures Cut(value[start..], Plain) == Prepend(value[start..i + 1], Cut(value[i + 1..], Plain))
  {
    assert value[i..][1..] == value[i + 1..];
    var rest := Cut(value[i + 1..], Plain);
    assert Cut(value[i..], Plain) == Prepend([value[i]], rest);
    assert value[start..i] + ([value[i]] + rest[0]) == value[start..i + 1] + rest[0];
  }

  /** At an unquoted comma the text read so far is a part of its own. */
  lemma CutAt(value: string, i: nat, text: string)
    requires i < |value| && value[i] == ','
    ensures Prepend(text, Cut(value[i..], Plain)) == [text] + Prepend("", Cut(value[i + 1..], Plain))
  {
    assert value[i..][1..] == value[i + 1..];
    assert text + "" == text;
    PrependNothing(Cut(value[i + 1..], Plain));
  }

  lemma CutAtEnd(value: string, text: string, mode: Mode)
    ensures Prepend(text, Cut(value[|value|..], mode)) == [text]
  {
    assert text + "" == text;
  }

  lemma PrependNothing(parts: seq<string>)
    requires parts != []
    ensures Prepend("", parts) == parts
  {
    assert "" + parts[0] == parts[0];
  }

  lemma PrependTwice(a: string, b: string, parts: seq<string>)
    requires parts != []
    ensures Prepend(a, Prepend(b, parts)) == Prepend(a + b, parts)
  {
    assert a + (b + parts[0]) == a + b + parts[0];
  }
}
