/** Searching, line endings and escaping in byte strings of one character per byte, for src/fetch/multipart.ts. */
module MultipartText {
  import opened Prelude

  const CRLF := "\r\n"

  // ---------------------------------------------------------------------------
  // Searching
  // ---------------------------------------------------------------------------

  /** `startsWith(pattern, i)` */
  predicate At(s: string, pattern: string, i: nat)
  {
    i + |pattern| <= |s| && s[i..i + |pattern|] == pattern
  }

  /** `indexOf(pattern, i)` */
  function FindFrom(s: string, pattern: string, i: nat): (r: Option<nat>)
    ensures r.Some? ==> i <= r.value && At(s, pattern, r.value) && forall j :: i <= j < r.value ==> !At(s, pattern, j)
    ensures r == None ==> forall j :: i <= j ==> !At(s, pattern, j)
    decreases |s| - i
  {
    if i + |pattern| > |s| then None
    else if At(s, pattern, i) then Some(i)
    else FindFrom(s, pattern, i + 1)
  }

  function Find(s: string, pattern: string): Option<nat> { FindFrom(s, pattern, 0) }

  predicate Contains(s: string, pattern: string) { Find(s, pattern).Some? }

  lemma Mismatch(s: string, pattern: string, i: nat, k: nat)
    requires i + k < |s| && k < |pattern| && s[i + k] != pattern[k]
    ensures !At(s, pattern, i)
  {
    if i + |pattern| <= |s| { assert s[i..i + |pattern|][k] == s[i + k]; }
  }

  lemma FindIs(s: string, pattern: string, i: nat)
    requires At(s, pattern, i) && forall j :: 0 <= j < i ==> !At(s, pattern, j)
    ensures Find(s, pattern) == Some(i)
  {
  }

  lemma AtRest(s: string, pattern: string, from: nat, i: nat)
    requires from <= |s|
    ensures At(s, pattern, from + i) <==> At(s[from..], pattern, i)
  {
    var rest := s[from..];
    if i + |pattern| <= |rest| { assert rest[i..i + |pattern|] == s[from + i..from + i + |pattern|]; }
  }

  /** Searching from a position is searching the rest of the string. */
  lemma FindRest(s: string, pattern: string, from: nat)
    requires from <= |s|
    ensures FindFrom(s, pattern, from) ==
      match Find(s[from..], pattern) case None => None case Some(i) => Some(from + i)
  {
    hide At;
    forall i: nat ensures At(s, pattern, from + i) <==> At(s[from..], pattern, i) { AtRest(s, pattern, from, i); }
    match Find(s[from..], pattern) {
      case Some(i) =>
        forall j | from <= j < from + i ensures !At(s, pattern, j) { assert !At(s[from..], pattern, j - from); }
      case None =>
        forall j | from <= j ensures !At(s, pattern, j) { assert !At(s[from..], pattern, j - from); }
    }
  }

  /** The pattern starts with a character that it holds nowhere else. */
  predicate Headed(pattern: string)
  {
    pattern != "" && forall k :: 0 < k < |pattern| ==> pattern[k] != pattern[0]
  }

  /** Such a pattern cannot overlap another occurrence of itself, so a match that starts before one ends before it. */
  lemma NoOverlap(a: string, pattern: string, b: string, i: nat)
    requires Headed(pattern) && i < |a|
    ensures At(a + pattern + b, pattern, i) <==> At(a, pattern, i)
  {
    var s := a + pattern + b;
    assert s[|a|] == pattern[0];
    if i + |pattern| <= |a| { assert s[i..i + |pattern|] == a[i..i + |pattern|]; }
  }

  method IndexOf(s: string, pattern: string, from: nat) returns (r: Option<nat>)
    ensures r == FindFrom(s, pattern, from)
  {
    var i := from;
    while i + |pattern| <= |s|
      invariant FindFrom(s, pattern, from) == FindFrom(s, pattern, i)
      decreases |s| - i
    {
      if s[i..i + |pattern|] == pattern { return Some(i); }
      i := i + 1;
    }
    r := None;
  }

  // ---------------------------------------------------------------------------
  // Line endings
  // ---------------------------------------------------------------------------

  /** `replace(lineEndingPattern, '\r\n')` */
  function Normalized(s: string): string
  {
    if s == "" then ""
    else if CRLF <= s then CRLF + Normalized(s[2..])
    else if s[0] == '\r' || s[0] == '\n' then CRLF + Normalized(s[1..])
    else [s[0]] + Normalized(s[1..])
  }

  /** Every line ending is CRLF. */
  predicate Canonical(s: string)
  {
    s == "" ||
    if s[0] == '\r' then CRLF <= s && Canonical(s[2..]) else s[0] != '\n' && Canonical(s[1..])
  }

  lemma {:induction false} NormalizedCanonical(s: string)
    ensures Canonical(Normalized(s))
  {
    if s == "" {
    } else if CRLF <= s {
      NormalizedCanonical(s[2..]);
      assert (CRLF + Normalized(s[2..]))[2..] == Normalized(s[2..]);
    } else {
      NormalizedCanonical(s[1..]);
      if s[0] == '\r' || s[0] == '\n' {
        assert (CRLF + Normalized(s[1..]))[2..] == Normalized(s[1..]);
      } else {
        assert ([s[0]] + Normalized(s[1..]))[1..] == Normalized(s[1..]);
      }
    }
  }

  /** Canonical text is left as it is. */
  lemma {:induction false} CanonicalNormalized(s: string)
    requires Canonical(s)
    ensures Normalized(s) == s
  {
    if s != "" {
      if s[0] == '\r' {
        CanonicalNormalized(s[2..]);
        assert s == CRLF + s[2..];
      } else {
        CanonicalNormalized(s[1..]);
        assert s == [s[0]] + s[1..];
      }
    }
  }

  predicate NoBreak(s: string) { forall i :: 0 <= i < |s| ==> s[i] != '\r' && s[i] != '\n' }

  // ---------------------------------------------------------------------------
  // Escaping
  // ---------------------------------------------------------------------------

  function EscapeChar(c: char): string
  {
    if c == '"' then "%22" else if c == '\r' then "%0D" else if c == '\n' then "%0A" else [c]
  }

  /** `escapeName`, on encoded bytes. */
  function Escape(s: string): string
  {
    if s == "" then "" else EscapeChar(s[0]) + Escape(s[1..])
  }

  /** Safe inside a quoted string on one header line. */
  predicate Quotable(s: string) { NoBreak(s) && forall i :: 0 <= i < |s| ==> s[i] != '"' }

  predicate NoBackslash(s: string) { forall i :: 0 <= i < |s| ==> s[i] != '\\' }

  lemma {:induction false} EscapeQuotable(s: string)
    ensures Quotable(Escape(s))
    ensures NoBackslash(Escape(s)) <==> NoBackslash(s)
  {
    if s != "" {
      var first, rest := EscapeChar(s[0]), Escape(s[1..]);
      EscapeQuotable(s[1..]);
      EscapedChar(s[0]);
      BackslashAppend(first, rest);
      BackslashAppend([s[0]], s[1..]);
      assert s == [s[0]] + s[1..];
    }
  }

  lemma EscapedChar(c: char)
    ensures Quotable(EscapeChar(c))
    ensures NoBackslash(EscapeChar(c)) <==> NoBackslash([c])
  {
    assert [c][0] == c;
    if EscapeChar(c) == [c] { assert EscapeChar(c)[0] == c; }
  }

  lemma BackslashAppend(a: string, b: string)
    ensures NoBackslash(a + b) <==> NoBackslash(a) && NoBackslash(b)
  {
    if NoBackslash(a + b) {
      forall i | 0 <= i < |a| ensures a[i] != '\\' { assert a[i] == (a + b)[i]; }
      forall i | 0 <= i < |b| ensures b[i] != '\\' { assert b[i] == (a + b)[|a| + i]; }
    }
  }

  lemma {:induction false} EscapeNothing(s: string)
    requires Quotable(s)
    ensures Escape(s) == s
  {
    if s != "" {
      EscapeNothing(s[1..]);
      assert s == [s[0]] + s[1..];
    }
  }

  lemma {:induction false} NormalizedNothing(s: string)
    requires NoBreak(s)
    ensures Normalized(s) == s
  {
    if s != "" {
      NormalizedNothing(s[1..]);
      assert s == [s[0]] + s[1..];
    }
  }

  lemma {:induction false} NormalizedBackslash(s: string)
    ensures NoBackslash(Normalized(s)) <==> NoBackslash(s)
  {
    if s != "" {
      var n := if CRLF <= s then 2 else 1;
      var first := if CRLF <= s || s[0] == '\r' || s[0] == '\n' then CRLF else [s[0]];
      NormalizedBackslash(s[n..]);
      assert s[..n] == if n == 2 then CRLF else [s[0]];
      if first != s[..n] { assert NoBackslash(first) && NoBackslash([s[0]]); }
      BackslashAppend(first, Normalized(s[n..]));
      BackslashAppend(s[..n], s[n..]);
      assert s == s[..n] + s[n..];
    }
  }
}
