/**
 Header lists (src/fetch/headers.ts `FetchHeaders`): ordered name/value lines, matched without regard
 to ASCII case. Names are byte strings; a string here is one character per byte.
 */
module HeaderList {
  import opened Prelude
  import opened Text

  datatype Header = Header(name: string, value: string)

  // ---------------------------------------------------------------------------
  // What the operations compute
  // ---------------------------------------------------------------------------

  predicate Has(list: seq<Header>, name: string)
  {
    exists h :: h in list && Same(h.name, name)
  }

  /** The values of the matching lines, in order. */
  function ValuesOf(list: seq<Header>, name: string): seq<string>
  {
    if list == [] then [] else
      (if Same(list[0].name, name) then [list[0].value] else []) + ValuesOf(list[1..], name)
  }

  /** Values joined by a comma and a space. */
  function Combined(values: seq<string>): string
    requires values != []
  {
    if |values| == 1 then values[0] else values[0] + ", " + Combined(values[1..])
  }

  function Get(list: seq<Header>, name: string): Option<string>
  {
    var values := ValuesOf(list, name);
    if values == [] then None else Some(Combined(values))
  }

  /** The name as the first matching line spells it. */
  function Spelling(list: seq<Header>, name: string): string
  {
    if list == [] then name else if Same(list[0].name, name) then list[0].name else Spelling(list[1..], name)
  }

  function Append(list: seq<Header>, name: string, value: string): seq<Header>
  {
    list + [Header(Spelling(list, name), value)]
  }

  function Delete(list: seq<Header>, name: string): seq<Header>
  {
    if list == [] then [] else
      (if Same(list[0].name, name) then [] else [list[0]]) + Delete(list[1..], name)
  }

  /** The first matching line takes the value, the others go; a new line otherwise. */
  function Set(list: seq<Header>, name: string, value: string): seq<Header>
  {
    if list == [] then [Header(name, value)]
    else if Same(list[0].name, name) then [list[0].(value := value)] + Delete(list[1..], name)
    else [list[0]] + Set(list[1..], name, value)
  }

  /** The first matching line's value grows; a new line otherwise. */
  function Combine(list: seq<Header>, name: string, value: string): seq<Header>
  {
    if list == [] then [Header(name, value)]
    else if Same(list[0].name, name) then [list[0].(value := list[0].value + ", " + value)] + list[1..]
    else [list[0]] + Combine(list[1..], name, value)
  }

  // ---------------------------------------------------------------------------
  // What they mean for a reader of the list
  // ---------------------------------------------------------------------------

  lemma {:induction false} ValuesAppend(a: seq<Header>, b: seq<Header>, name: string)
    ensures ValuesOf(a + b, name) == ValuesOf(a, name) + ValuesOf(b, name)
  {
    if a == [] {
      assert a + b == b;
    } else {
      assert (a + b)[1..] == a[1..] + b;
      ValuesAppend(a[1..], b, name);
    }
  }

  lemma {:induction false} HasValues(list: seq<Header>, name: string)
    ensures Has(list, name) <==> ValuesOf(list, name) != []
    ensures Has(list, name) <==> Get(list, name).Some?
  {
    if list != [] {
      assert list == [list[0]] + list[1..];
      HasValues(list[1..], name);
      assert Has(list, name) <==> Same(list[0].name, name) || Has(list[1..], name);
    }
  }

  lemma {:induction false} CombinedSnoc(values: seq<string>, last: string)
    requires values != []
    ensures Combined(values + [last]) == Combined(values) + ", " + last
  {
    if |values| == 1 {
      assert (values + [last])[1..] == [last];
    } else {
      assert (values + [last])[1..] == values[1..] + [last];
      CombinedSnoc(values[1..], last);
      assert values[0] + ", " + (Combined(values[1..]) + ", " + last) ==
        values[0] + ", " + Combined(values[1..]) + ", " + last;
    }
  }

  lemma {:induction false} SpellingSame(list: seq<Header>, name: string)
    ensures Same(Spelling(list, name), name)
  {
    if list != [] { SpellingSame(list[1..], name); }
  }

  /** The first line of the name. */
  predicate IsFirst(list: seq<Header>, name: string, i: nat)
  {
    i < |list| && Same(list[i].name, name) && forall k :: 0 <= k < i ==> !Same(list[k].name, name)
  }

  /** A present name is spelled as its first line spells it, an absent one as given. */
  lemma {:induction false} SpellingIsFirst(list: seq<Header>, name: string)
    ensures Has(list, name) ==> exists i: nat :: IsFirst(list, name, i) && Spelling(list, name) == list[i].name
    ensures !Has(list, name) ==> Spelling(list, name) == name
  {
    if list != [] && !Same(list[0].name, name) {
      SpellingIsFirst(list[1..], name);
      if h :| h in list && Same(h.name, name) {
        assert h in list[1..];
        var i: nat :| IsFirst(list[1..], name, i) && Spelling(list[1..], name) == list[1..][i].name;
        assert list[i + 1] == list[1..][i];
        forall k | 0 <= k < i + 1 ensures !Same(list[k].name, name) { if k > 0 { assert list[k] == list[1..][k - 1]; } }
        assert IsFirst(list, name, i + 1);
      }
    } else if list != [] {
      assert list[0] in list && IsFirst(list, name, 0);
    }
  }

  lemma GetSnoc(list: seq<Header>, i: nat, name: string)
    requires i < |list|
    ensures Get(list[..i + 1], name) ==
      if !Same(list[i].name, name) then Get(list[..i], name)
      else match Get(list[..i], name)
        case None => Some(list[i].value)
        case Some(before) => Some(before + ", " + list[i].value)
  {
    var h := list[i];
    var values := ValuesOf(list[..i], name);
    assert list[..i + 1] == list[..i] + [h];
    ValuesAppend(list[..i], [h], name);
    assert ValuesOf([h], name) == if Same(h.name, name) then [h.value] else [];
    if !Same(h.name, name) {
      assert values + [] == values;
    } else if values == [] {
      assert values + [h.value] == [h.value];
    } else {
      CombinedSnoc(values, h.value);
    }
  }

  /** Appending extends the combined value of that name, and of no other. */
  lemma GetAppend(list: seq<Header>, name: string, value: string, other: string)
    ensures Get(Append(list, name, value), other) ==
      if !Same(other, name) then Get(list, other)
      else match Get(list, name)
        case None => Some(value)
        case Some(before) => Some(before + ", " + value)
  {
    var line := Header(Spelling(list, name), value);
    SpellingSame(list, name);
    ValuesAppend(list, [line], other);
    assert ValuesOf([line], other) == if Same(other, name) then [value] else [];
    if Same(other, name) {
      SameValues(list, name, other);
      var values := ValuesOf(list, name);
      if values == [] { assert values + [value] == [value]; } else { CombinedSnoc(values, value); }
    } else {
      assert ValuesOf(list, other) + [] == ValuesOf(list, other);
    }
  }

  lemma {:induction false} SameValues(list: seq<Header>, a: string, b: string)
    requires Same(a, b)
    ensures ValuesOf(list, a) == ValuesOf(list, b)
  {
    if list != [] { SameValues(list[1..], a, b); }
  }

  lemma {:induction false} ValuesDelete(list: seq<Header>, name: string, other: string)
    ensures ValuesOf(Delete(list, name), other) == if Same(other, name) then [] else ValuesOf(list, other)
  {
    if list != [] {
      ValuesDelete(list[1..], name, other);
      var first := if Same(list[0].name, name) then [] else [list[0]];
      ValuesAppend(first, Delete(list[1..], name), other);
      assert ValuesOf([list[0]], other) == if Same(list[0].name, other) then [list[0].value] else [];
    }
  }

  /** Deleting makes that name absent, and changes no other. */
  lemma GetDelete(list: seq<Header>, name: string, other: string)
    ensures Get(Delete(list, name), other) == if Same(other, name) then None else Get(list, other)
  {
    ValuesDelete(list, name, other);
  }

  lemma {:induction false} ValuesSet(list: seq<Header>, name: string, value: string, other: string)
    ensures ValuesOf(Set(list, name, value), other) == if Same(other, name) then [value] else ValuesOf(list, other)
  {
    if list == [] {
      assert ValuesOf([Header(name, value)][1..], other) == [];
    } else if Same(list[0].name, name) {
      ValuesDelete(list[1..], name, other);
      assert Set(list, name, value)[1..] == Delete(list[1..], name);
    } else {
      ValuesSet(list[1..], name, value, other);
      assert Set(list, name, value)[1..] == Set(list[1..], name, value);
    }
  }

  /** Setting leaves exactly the one value under that name, and changes no other. */
  lemma GetSet(list: seq<Header>, name: string, value: string, other: string)
    ensures Get(Set(list, name, value), other) == if Same(other, name) then Some(value) else Get(list, other)
  {
    ValuesSet(list, name, value, other);
  }

  lemma {:induction false} CombineValues(list: seq<Header>, name: string, value: string, other: string)
    ensures var values := ValuesOf(list, other);
      ValuesOf(Combine(list, name, value), other) ==
        if !Same(other, name) then values
        else if values == [] then [value]
        else [values[0] + ", " + value] + values[1..]
  {
    if list == [] {
      assert ValuesOf([Header(name, value)][1..], other) == [];
    } else if Same(list[0].name, name) {
      assert Combine(list, name, value)[1..] == list[1..];
    } else {
      CombineValues(list[1..], name, value, other);
      assert Combine(list, name, value)[1..] == Combine(list[1..], name, value);
    }
  }

  /** The later lines' values, joined, read the same with the new value before them as after them. */
  predicate Commutes(values: seq<string>, value: string)
    requires |values| > 1
  {
    value + ", " + Combined(values[1..]) == Combined(values[1..]) + ", " + value
  }

  /**
   Combining reads like appending exactly when the name has at most one line, or its later lines could as
   well follow the new value, which joins the first line.
   */
  lemma GetCombine(list: seq<Header>, name: string, value: string)
    ensures var values := ValuesOf(list, name);
      Get(Combine(list, name, value), name) == Get(Append(list, name, value), name) <==>
      |values| <= 1 || Commutes(values, value)
  {
    hide ValuesOf, Append, Combine, Commutes, Combined;
    var values := ValuesOf(list, name);
    GetAppend(list, name, value, name);
    CombineValues(list, name, value, name);
    if |values| > 1 {
      InsertedReads(values, value);
    } else if |values| == 1 {
      OneCombined(values[0]);
      OneCombined(values[0] + ", " + value);
      assert values == [values[0]] && values[1..] == [];
      assert [values[0] + ", " + value] + values[1..] == [values[0] + ", " + value];
      assert Combined(values) == values[0];
    } else {
      OneCombined(value);
    }
  }

  lemma OneCombined(value: string)
    ensures Combined([value]) == value
  {
  }

  lemma InsertedReads(values: seq<string>, value: string)
    requires |values| > 1
    ensures Combined([values[0] + ", " + value] + values[1..]) == Combined(values) + ", " + value <==>
      Commutes(values, value)
  {
    hide Combined;
    var first, rest := values[0], Combined(values[1..]);
    CombinedHead(first, values[1..]);
    CombinedHead(first + ", " + value, values[1..]);
    assert values == [first] + values[1..];
    JoinedIn(first, value, rest);
    SameTail(first + ", ", value + ", " + rest, rest + ", " + value);
  }

  lemma CombinedHead(value: string, rest: seq<string>)
    requires rest != []
    ensures Combined([value] + rest) == value + ", " + Combined(rest)
  {
    assert ([value] + rest)[1..] == rest;
  }

  lemma JoinedIn(first: string, value: string, rest: string)
    ensures first + ", " + value + ", " + rest == (first + ", ") + (value + ", " + rest)
    ensures first + ", " + rest + ", " + value == (first + ", ") + (rest + ", " + value)
  {
  }

  lemma SameTail(front: string, a: string, b: string)
    ensures front + a == front + b <==> a == b
  {
    assert (front + a)[|front|..] == a && (front + b)[|front|..] == b;
  }

  /** Two lines, and a value that lands between them. */
  lemma CombineDiffers()
    ensures var list := [Header("X", "a"), Header("X", "b")];
      Get(Combine(list, "X", "c"), "X") == Some("a, c, b") && Get(Append(list, "X", "c"), "X") == Some("a, b, c")
  {
    var list := [Header("X", "a"), Header("X", "b")];
    assert list[1..] == [Header("X", "b")] && list[1..][1..] == [];
    assert ValuesOf(list[1..], "X") == ["b"] && ValuesOf(list, "X") == ["a", "b"];
    GetAppend(list, "X", "c", "X");
    CombineValues(list, "X", "c", "X");
    assert ["a", "b"][1..] == ["b"] && ["a, c", "b"][1..] == ["b"];
    assert "a" + ", " + "c" == "a, c";
    assert Combined(["a, c", "b"]) == "a, c" + ", " + "b" == "a, c, b";
    assert Combined(["a", "b"]) + ", " + "c" == "a" + ", " + "b" + ", " + "c" == "a, b, c";
  }

  lemma {:induction false} LinesOfDelete(list: seq<Header>, name: string, line: Header)
    requires line in Delete(list, name)
    ensures line in list
  {
    if line in Delete(list[1..], name) { LinesOfDelete(list[1..], name, line); }
  }

  lemma {:induction false} LinesOfSet(list: seq<Header>, name: string, value: string, line: Header)
    requires line in Set(list, name, value)
    ensures line in list || (Same(line.name, name) && line.value == value)
  {
    if list != [] {
      if Same(list[0].name, name) {
        if line in Delete(list[1..], name) { LinesOfDelete(list[1..], name, line); }
      } else if line != list[0] {
        LinesOfSet(list[1..], name, value, line);
      }
    }
  }

  // ---------------------------------------------------------------------------
  // The list object
  // ---------------------------------------------------------------------------

  class FetchHeaders {
    var list: seq<Header>

    constructor (list: seq<Header>)
      ensures this.list == list
    {
      this.list := list;
    }

    /** `has` */
    method HasName(name: string) returns (r: bool)
      ensures r == Has(list, name)
    {
      var lower := Lower(name);
      for i := 0 to |list|
        invariant forall k :: 0 <= k < i ==> !Same(list[k].name, name)
      {
        if Lower(list[i].name) == lower { return true; }
      }
      r := false;
    }

    /** `get` */
    method GetValue(name: string) returns (combined: Option<string>)
      ensures combined == Get(list, name)
    {
      var lower := Lower(name);
      combined := None;
      for i := 0 to |list|
        invariant combined == Get(list[..i], name)
      {
        GetSnoc(list, i, name);
        if Lower(list[i].name) == lower {
          combined := Some(if combined == None then list[i].value else combined.value + ", " + list[i].value);
        }
      }
      assert list[..|list|] == list;
    }

    /** `append` */
    method AppendLine(name: string, value: string)
      modifies this
      ensures list == Append(old(list), name, value)
    {
      var first := FindIndex(name);
      list := list + [Header(if first < |list| then list[first].name else name, value)];
    }

    /** The index of the first matching line, or the length of the list. */
    method FindIndex(name: string) returns (first: nat)
      ensures first <= |list| && forall k :: 0 <= k < first ==> !Same(list[k].name, name)
      ensures first < |list| ==> Same(list[first].name, name)
      ensures Spelling(list, name) == if first < |list| then list[first].name else name
    {
      first := 0;
      assert list[0..] == list;
      while first < |list| && !Same(list[first].name, name)
        invariant first <= |list| && forall k :: 0 <= k < first ==> !Same(list[k].name, name)
        invariant Spelling(list, name) == Spelling(list[first..], name)
      {
        assert list[first..][1..] == list[first + 1..];
        first := first + 1;
      }
    }

    /** The backward loop of `delete` and `set`: splice the matching lines out down to the index `from`. */
    method RemoveFrom(name: string, from: nat)
      requires from <= |list|
      modifies this
      ensures list == old(list)[..from] + Delete(old(list)[from..], name)
    {
      var i := |list|;
      assert list[i..] == [];
      while i > from
        invariant from <= i <= |old(list)|
        invariant list == old(list)[..i] + Delete(old(list)[i..], name)
      {
        i := i - 1;
        assert old(list)[i..][1..] == old(list)[i + 1..];
        assert old(list)[..i + 1] == old(list)[..i] + [old(list)[i]];
        if Lower(list[i].name) == Lower(name) { list := list[..i] + list[i + 1..]; }
      }
    }

    /** `delete` */
    method DeleteName(name: string)
      modifies this
      ensures list == Delete(old(list), name)
    {
      RemoveFrom(name, 0);
      assert old(list)[0..] == old(list);
    }

    /** `set` */
    method SetValue(name: string, value: string)
      modifies this
      ensures list == Set(old(list), name, value)
    {
      hide Same, Set, Delete;
      var first := FindIndex(name);
      SetAt(list, name, value, first);
      if first == |list| {
        list := list + [Header(name, value)];
        return;
      }
      list := list[first := list[first].(value := value)];
      assert list[first + 1..] == old(list)[first + 1..];
      RemoveFrom(name, first + 1);
    }

    /** `combine` */
    method CombineValue(name: string, value: string)
      modifies this
      ensures list == Combine(old(list), name, value)
    {
      var first := FindIndex(name);
      CombineAt(list, name, value, first);
      if first < |list| {
        list := list[first := list[first].(value := list[first].value + ", " + value)];
      } else {
        list := list + [Header(name, value)];
      }
    }
  }

  lemma {:induction false} SetAt(list: seq<Header>, name: string, value: string, first: nat)
    requires first <= |list| && forall k :: 0 <= k < first ==> !Same(list[k].name, name)
    requires first < |list| ==> Same(list[first].name, name)
    ensures Set(list, name, value) ==
      if first == |list| then list + [Header(name, value)]
      else list[..first] + [list[first].(value := value)] + Delete(list[first + 1..], name)
    decreases first
  {
    hide Same, Delete;
    if first > 0 {
      SetAt(list[1..], name, value, first - 1);
      assert list == [list[0]] + list[1..];
      if first < |list| {
        assert list[1..][first..] == list[first + 1..];
        assert list[..first] == [list[0]] + list[1..][..first - 1];
      }
    }
  }

  lemma {:induction false} CombineAt(list: seq<Header>, name: string, value: string, first: nat)
    requires first <= |list| && forall k :: 0 <= k < first ==> !Same(list[k].name, name)
    requires first < |list| ==> Same(list[first].name, name)
    ensures Combine(list, name, value) ==
      if first == |list| then list + [Header(name, value)]
      else list[first := list[first].(value := list[first].value + ", " + value)]
    decreases first
  {
    if first > 0 {
      var rest := list[1..];
      forall k | 0 <= k < first - 1 ensures !Same(rest[k].name, name) { assert rest[k] == list[k + 1]; }
      CombineAt(rest, name, value, first - 1);
      assert Combine(list, name, value) == [list[0]] + Combine(rest, name, value);
    }
  }
}
