/** ASCII case and the trimming of surrounding characters. A string is one character per byte. */
module Text {
  function LowerChar(c: char): char
  {
    if 'A' <= c <= 'Z' then c + ' ' else c
  }

  function Lower(s: string): (r: string)
    ensures |r| == |s|
  {
    seq(|s|, i requires 0 <= i < |s| => LowerChar(s[i]))
  }

  /** Equal without regard to ASCII case. */
  predicate Same(a: string, b: string) { Lower(a) == Lower(b) }

  predicate SameLetter(c: char, d: char)
  {
    c == d || ('a' <= c <= 'z' && d as int == c as int - 32) || ('a' <= d <= 'z' && c as int == d as int - 32)
  }

  lemma SameChar(c: char, d: char)
    ensures LowerChar(c) == LowerChar(d) <==> SameLetter(c, d)
  {
  }

  /** Equal but for letters of different case. */
  lemma SameExactly(a: string, b: string)
    ensures Same(a, b) <==> |a| == |b| && forall i :: 0 <= i < |a| ==> SameLetter(a[i], b[i])
  {
    hide LowerChar, SameLetter;
    forall c, d ensures LowerChar(c) == LowerChar(d) <==> SameLetter(c, d) { SameChar(c, d); }
    if Same(a, b) {
      assert forall i :: 0 <= i < |a| ==> LowerChar(a[i]) == Lower(a)[i] == Lower(b)[i] == LowerChar(b[i]);
    }
  }

  predicate TabOrSpace(c: char) { c == '\t' || c == ' ' }

  predicate HTTPWhitespace(c: char) { c == '\t' || c == ' ' || c == '\n' || c == '\r' }

  function TrimStart(s: string, blank: char -> bool): string
  {
    if s != "" && blank(s[0]) then TrimStart(s[1..], blank) else s
  }

  function TrimEnd(s: string, blank: char -> bool): string
  {
    if s != "" && blank(s[|s| - 1]) then TrimEnd(s[..|s| - 1], blank) else s
  }

  /** `replace(/^[...]+|[...]+$/g, '')` */
  function Trim(s: string, blank: char -> bool): string
  {
    TrimEnd(TrimStart(s, blank), blank)
  }

  predicate AllBlank(s: string, blank: char -> bool) { forall i :: 0 <= i < |s| ==> blank(s[i]) }

  /** Neither starts nor ends with a blank. */
  predicate Bare(s: string, blank: char -> bool) { s != "" ==> !blank(s[0]) && !blank(s[|s| - 1]) }

  lemma {:induction false} StartParts(s: string, blank: char -> bool) returns (left: string)
    ensures s == left + TrimStart(s, blank) && AllBlank(left, blank)
    ensures TrimStart(s, blank) != "" ==> !blank(TrimStart(s, blank)[0])
  {
    left := "";
    if s != "" && blank(s[0]) {
      var rest := StartParts(s[1..], blank);
      left := [s[0]] + rest;
      assert s == [s[0]] + s[1..] == left + TrimStart(s, blank);
    }
  }

  lemma {:induction false} EndParts(s: string, blank: char -> bool) returns (right: string)
    ensures s == TrimEnd(s, blank) + right && AllBlank(right, blank)
    ensures var r := TrimEnd(s, blank); r != "" ==> !blank(r[|r| - 1]) && r[0] == s[0]
  {
    right := "";
    if s != "" && blank(s[|s| - 1]) {
      var rest := EndParts(s[..|s| - 1], blank);
      right := rest + [s[|s| - 1]];
      assert s == s[..|s| - 1] + [s[|s| - 1]] == TrimEnd(s, blank) + right;
    }
  }

  lemma TrimParts(s: string, blank: char -> bool) returns (left: string, right: string)
    ensures s == left + Trim(s, blank) + right
    ensures AllBlank(left, blank) && AllBlank(right, blank) && Bare(Trim(s, blank), blank)
  {
    left := StartParts(s, blank);
    right := EndParts(TrimStart(s, blank), blank);
    assert left + (Trim(s, blank) + right) == left + Trim(s, blank) + right;
  }

  lemma {:induction false} StartBlank(left: string, s: string, blank: char -> bool)
    requires AllBlank(left, blank)
    ensures TrimStart(left + s, blank) == TrimStart(s, blank)
  {
    if left == "" {
      assert left + s == s;
    } else {
      assert (left + s)[1..] == left[1..] + s;
      StartBlank(left[1..], s, blank);
    }
  }

  lemma TrimBare(s: string, blank: char -> bool)
    requires Bare(s, blank)
    ensures Trim(s, blank) == s
  {
  }

  lemma TrimLeading(left: string, s: string, blank: char -> bool)
    requires AllBlank(left, blank)
    ensures Trim(left + s, blank) == Trim(s, blank)
  {
    StartBlank(left, s, blank);
  }

  lemma {:induction false} EndBlank(s: string, right: string, blank: char -> bool)
    requires AllBlank(right, blank)
    ensures TrimEnd(s + right, blank) == TrimEnd(s, blank)
    decreases |right|
  {
    if right == "" {
      assert s + right == s;
    } else {
      var n := |right| - 1;
      assert (s + right)[..|s + right| - 1] == s + right[..n] && (s + right)[|s + right| - 1] == right[n];
      EndBlank(s, right[..n], blank);
    }
  }

  /** Blanks around what neither starts nor ends with one are all that goes. */
  lemma TrimPadded(left: string, s: string, right: string, blank: char -> bool)
    requires AllBlank(left, blank) && AllBlank(right, blank) && Bare(s, blank)
    ensures Trim(left + s + right, blank) == s
  {
    assert left + s + right == left + (s + right);
    TrimLeading(left, s + right, blank);
    EndBlank(s, right, blank);
    if s == "" {
      assert s + right == right == right + "";
      StartBlank(right, "", blank);
    }
  }

  lemma {:induction false} StartGrows(s: string, mark: char, rest: string, blank: char -> bool)
    requires !blank(mark)
    ensures TrimStart(s + [mark] + rest, blank) == TrimStart(s, blank) + [mark] + rest
  {
    if s != "" && blank(s[0]) {
      assert (s + [mark] + rest)[1..] == s[1..] + [mark] + rest;
      StartGrows(s[1..], mark, rest, blank);
    }
  }

  lemma {:induction false} EndGrows(s: string, mark: char, rest: string, blank: char -> bool)
    requires !blank(mark)
    ensures |TrimEnd(s + [mark] + rest, blank)| > |s|
    decreases |rest|
  {
    if rest != "" {
      assert (s + [mark] + rest)[..|s + [mark] + rest| - 1] == s + [mark] + rest[..|rest| - 1];
      EndGrows(s, mark, rest[..|rest| - 1], blank);
    }
  }

  /** A character that is not blank survives, with everything kept before it. */
  lemma TrimGrows(s: string, mark: char, rest: string, blank: char -> bool)
    requires !blank(mark)
    ensures |Trim(s + [mark] + rest, blank)| > |Trim(s, blank)|
  {
    var head := TrimStart(s, blank);
    StartGrows(s, mark, rest, blank);
    EndGrows(head, mark, rest, blank);
    var after := EndParts(head, blank);
  }
}
