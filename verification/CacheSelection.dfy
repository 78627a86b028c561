/**
 What replacing a stored response means (src/fetch/cache-http.ts `HTTPCachePartition.replace`): the requests that the
 response that goes and the one that stays can answer.
 */
module CacheSelection {
  import opened Prelude
  import opened Text
  import opened HeaderList
  import opened StoredHeaders
  import HeaderSplit
  import opened HttpCache

  predicate Distinct(names: seq<string>)
  {
    forall i, j :: 0 <= i < j < |names| ==> names[i] != names[j]
  }

  lemma {:induction false} CountNames(names: seq<string>)
    ensures |Elements(names)| <= |names|
    ensures |Elements(names)| == |names| <==> Distinct(names)
  {
    if names != [] {
      var first, rest := names[0], names[1..];
      CountNames(rest);
      assert names == [first] + rest;
      assert Elements(names) == {first} + Elements(rest);
      if first in rest {
        assert Elements(names) == Elements(rest);
        var k :| 0 <= k < |rest| && rest[k] == first;
        assert names[0] == names[k + 1];
      } else {
        assert Distinct(names) <==> Distinct(rest);
      }
    }
  }

  /** Of two lists of equal length without repetitions, one within the other is all of it. */
  lemma AllOfIt(few: seq<string>, all: seq<string>)
    requires Distinct(few) && |few| == |all| && forall name :: name in few ==> name in all
    ensures forall name :: name in all ==> name in few
  {
    CountNames(few);
    CountNames(all);
    var a, b := Elements(few), Elements(all);
    assert forall x :: x in a ==> x in few;
    assert a <= b;
    assert b == a + (b - a);
    assert b - a == {};
    assert forall name :: name in all ==> name in b;
  }

  lemma SameCount(a: seq<string>, b: seq<string>)
    requires Distinct(a) && Distinct(b) && forall name :: name in a <==> name in b
    ensures |a| == |b|
  {
    CountNames(a);
    CountNames(b);
    assert forall x :: x in Elements(a) <==> x in a;
    assert Elements(a) == Elements(b);
  }

  lemma LowerLower(s: string)
    ensures Lower(Lower(s)) == Lower(s)
  {
  }

  /** The names of a Vary field are in lower case. */
  lemma NamesLower(value: string, name: string)
    requires ParseVary(value).Some? && name in ParseVary(value).value
    ensures Lower(name) == name
  {
    hide Trim, Members, Lower, HeadersGuard.Token;
    VaryNamesOf(Members(value));
    var p :| p in Members(value) && Trim(p, TabOrSpace) != "" && name == Lower(Trim(p, TabOrSpace));
    LowerLower(Trim(p, TabOrSpace));
  }

  /** Two stored responses of one partition that a new one may replace and be replaced by. */
  ghost predicate Comparable(p: HTTPCachePartition, a: HTTPCacheEntry, b: HTTPCacheEntry)
    reads a`body, a`headers, a`vary, b`body, b`headers, b`vary
  {
    a != b && a.cache == p == b.cache && a.body != None && b.body != None &&
    ParseVary(FieldText(a.headers, "Vary")) == Some(a.vary) && ParseVary(FieldText(b.headers, "Vary")) == Some(b.vary)
  }

  /** Whatever goes, the new response can answer every request that the replaced one could. */
  lemma NothingIsLost(
    es: seq<HTTPCacheEntry>, p: HTTPCachePartition, gone: HTTPCacheEntry, newer: HTTPCacheEntry, request: Request)
    requires Comparable(p, gone, newer) && gone in Superseded(es, newer) && p.Answers(gone, request)
    ensures p.Answers(newer, request)
  {
    hide ParseVary, Get;
  }

  /** Between field lists without repetitions, a response goes exactly if the new one answers the same requests. */
  lemma ReplacedExactly(
    es: seq<HTTPCacheEntry>, p: HTTPCachePartition, other: HTTPCacheEntry, newer: HTTPCacheEntry)
    requires other in es && Comparable(p, other, newer) && Distinct(other.vary) && Distinct(newer.vary)
    ensures other in Superseded(es, newer) <==>
      forall request: Request :: p.Answers(other, request) <==> p.Answers(newer, request)
  {
    hide ParseVary, Get;
    if other in Superseded(es, newer) {
      AllOfIt(newer.vary, other.vary);
    }
    if forall request: Request :: p.Answers(other, request) <==> p.Answers(newer, request) {
      SameRequests(p, other, newer);
      SameRequests(p, newer, other);
      SameCount(newer.vary, other.vary);
    }
  }

  /** A response that can answer whatever another can is for its URL and method, and is selected by no other names. */
  lemma SameRequests(p: HTTPCachePartition, a: HTTPCacheEntry, b: HTTPCacheEntry)
    requires Comparable(p, a, b)
    requires forall request: Request :: p.Answers(b, request) <==> p.Answers(a, request)
    ensures a.url == b.url && a.method_ == b.method_
    ensures forall name :: name in a.vary ==>
      name in b.vary && Get(a.requestHeaders, name) == Get(b.requestHeaders, name)
  {
    hide ParseVary, Get, Set;
    var own := Request(b.url, b.method_, false, b.requestHeaders);
    assert p.Answers(b, own) && p.Answers(a, own);
    var theirs := Request(a.url, a.method_, false, a.requestHeaders);
    assert p.Answers(a, theirs) && p.Answers(b, theirs);
    forall name | name in a.vary ensures name in b.vary {
      if name !in b.vary {
        var request := ToldApart(p, a, b, name);
        assert false;
      }
    }
  }

  /** A name that selects one response only makes a request that the other alone can answer. */
  lemma ToldApart(p: HTTPCachePartition, a: HTTPCacheEntry, b: HTTPCacheEntry, name: string) returns (request: Request)
    requires Comparable(p, a, b) && name in a.vary && name !in b.vary
    ensures p.Answers(b, request) && !p.Answers(a, request)
  {
    hide ParseVary, Get, Set;
    var value := if Get(a.requestHeaders, name) == Some("") then "x" else "";
    request := Request(b.url, b.method_, false, Set(b.requestHeaders, name, value));
    NamesLower(FieldText(a.headers, "Vary"), name);
    GetSet(b.requestHeaders, name, value, name);
    forall n | n in b.vary ensures Get(request.headers, n) == Get(b.requestHeaders, n) {
      NamesLower(FieldText(b.headers, "Vary"), n);
      GetSet(b.requestHeaders, name, value, n);
    }
  }

  /**
   The source compares field lists by length, and does not drop repetitions: a response selected by "a" and "b" goes
   when a new one comes whose field names "a" twice, and requests that differ in "b" are then answered with the new one.
   */
  lemma RepeatedNameReplaces(
    es: seq<HTTPCacheEntry>, p: HTTPCachePartition, other: HTTPCacheEntry, newer: HTTPCacheEntry)
    requires other in es && Comparable(p, other, newer) && other.url == newer.url && other.method_ == newer.method_
    requires other.vary == ["a", "b"] && newer.vary == ["a", "a"]
    requires Get(other.requestHeaders, "a") == Get(newer.requestHeaders, "a")
    requires Get(other.requestHeaders, "b") != Get(newer.requestHeaders, "b")
    ensures other in Superseded(es, newer) && newer !in Superseded(es, other)
    ensures var request := Request(newer.url, newer.method_, false, newer.requestHeaders);
      p.Answers(newer, request) && !p.Answers(other, request)
  {
    hide ParseVary, Get;
    assert "b" in other.vary && "b" !in newer.vary;
  }

  /** A field text that names "a" twice keeps it twice. */
  lemma RepetitionIsKept()
    ensures ParseVary("A,a") == Some(["a", "a"])
  {
    var parts := ["A", "a"];
    assert HeaderSplit.Join(parts) == "A,a";
    MembersOf(parts);
    OneName("a", []);
    OneName("A", ["a"]);
    assert Lower("A") == "a" && Lower("a") == "a";
    assert ["a"] + ["a"] == ["a", "a"] && ["A"] + ["a"] == parts && ["a"] + [] == ["a"];
  }

  lemma OneName(name: string, rest: seq<string>)
    requires HeadersGuard.Token(name) && Bare(name, TabOrSpace) && VaryNames(rest).Some?
    ensures VaryNames([name] + rest) == Some([Lower(name)] + VaryNames(rest).value)
  {
    assert ([name] + rest)[1..] == rest;
    TrimBare(name, TabOrSpace);
  }
}
