/** The front end's cookie lookup, with the cookie string passed in instead of being
    read from `document.cookie`.  The input has the shape of a Cookie header
    (section 5.4 of RFC 6265) but the lookup does not parse it: it searches for the
    name anywhere in the string. */
module Cookies {
  import opened JavaStrings

  /** The characters that make a string passed to `String.prototype.search` differ from a
      literal search. */
  const RegexMeta: set<char> := {'\\', '^', '$', '.', '|', '?', '*', '+', '(', ')', '[', ']', '{', '}'}

  /** A name whose regular expression matches exactly its own occurrences. */
  predicate IsLiteralPattern(name: string) {
    forall i :: 0 <= i < |name| ==> name[i] !in RegexMeta
  }

  const NotFoundValue: string := "World !"

  function Min(a: int, b: int): int {
    if a <= b then a else b
  }

  /** JavaScript's `s.slice(start, end)` for non-negative bounds: both are clamped to the
      length, and a start at or after the end gives the empty string. */
  function Slice(s: string, start: nat, end: nat): (r: string)
    ensures start >= end ==> r == []
    ensures start < end <= |s| ==> r == s[start..end]
  {
    var a := Min(start, |s|);
    var b := Min(end, |s|);
    if a >= b then [] else s[a..b]
  }

  /** Where the value found at `from` ends: the first `;` at or after `from`, or the end of
      the string when there is none. */
  function ValueEnd(cookies: string, from: nat): (end: nat)
    requires from <= |cookies|
    ensures from <= end <= |cookies|
    ensures forall j :: from <= j < end ==> cookies[j] != ';'
    ensures end < |cookies| ==> cookies[end] == ';'
  {
    var semicolon := IndexOf(cookies, ";", from);
    assert forall j :: from <= j < |cookies| && (semicolon == -1 || j < semicolon) ==> cookies[j] != ';' by {
      forall j | from <= j < |cookies| && (semicolon == -1 || j < semicolon) ensures cookies[j] != ';' {
        assert !OccursAt(cookies, ";", j);
        assert cookies[j..j + 1] == [cookies[j]];
      }
    }
    if semicolon == -1 then |cookies|
    else
      assert cookies[semicolon..semicolon + 1] == [cookies[semicolon]];
      semicolon
  }

  /** `getCookie(name)` over the cookie string `cookies`.  The name is located by its first
      occurrence anywhere; the value runs from one character past the name (the `=` is
      skipped without being checked) to the first `;` at or after the name, or to the end. */
  function GetCookie(cookies: string, name: string): (r: string)
    requires IsLiteralPattern(name)
    ensures IndexOf(cookies, name, 0) == -1 ==> r == NotFoundValue
    ensures IndexOf(cookies, name, 0) != -1 ==> ';' !in r
    ensures IndexOf(cookies, name, 0) != -1 && r != [] ==>
              var start := IndexOf(cookies, name, 0) + |name| + 1;
              OccursAt(cookies, r, start)
              && (start + |r| == |cookies| || cookies[start + |r|] == ';')
    ensures var index := IndexOf(cookies, name, 0); var start := index + |name| + 1;
      index != -1 && (exists j :: index <= j < start && j < |cookies| && cookies[j] == ';') ==> r == []
    ensures var index := IndexOf(cookies, name, 0); var start := index + |name| + 1;
      index != -1 && start < |cookies| && (forall j :: index <= j <= start ==> cookies[j] != ';') ==> r != []
  {
    var index := IndexOf(cookies, name, 0);
    if index == -1 then NotFoundValue
    else Slice(cookies, index + |name| + 1, ValueEnd(cookies, index))
  }

  /** The intended use: the value of a cookie that opens the string. */
  lemma {:induction false} FirstCookieValue(name: string, value: string, rest: string)
    requires IsLiteralPattern(name) && ';' !in name
    requires ';' !in value
    ensures GetCookie(name + "=" + value, name) == value
    ensures GetCookie(name + "=" + value + "; " + rest, name) == value
  {
    FirstCookieCase(name, value, []);
    FirstCookieCase(name, value, "; " + rest);
    assert name + "=" + value + [] == name + "=" + value;
    assert name + "=" + value + "; " + rest == name + "=" + value + ("; " + rest);
  }

  lemma {:induction false} FirstCookieCase(name: string, value: string, tail: string)
    requires IsLiteralPattern(name) && ';' !in name
    requires ';' !in value
    requires tail == [] || tail[0] == ';'
    ensures GetCookie(name + "=" + value + tail, name) == value
  {
    var c := name + "=" + value + tail;
    assert c[..|name|] == name;
    assert OccursAt(c, name, 0);
    var start := |name| + 1;
    assert c[start..start + |value|] == value;
    var semicolon := IndexOf(c, ";", 0);
    forall j | start <= j < start + |value| ensures !OccursAt(c, ";", j) {
      assert c[j] == value[j - start];
      assert c[j..j + 1] == [c[j]];
    }
    forall j | 0 <= j < start ensures !OccursAt(c, ";", j) {
      if j < |name| {
        assert c[j] == name[j];
        assert c[j..j + 1] == [c[j]];
      } else {
        assert c[j] == '=';
        assert c[j..j + 1] == [c[j]];
      }
    }
    if tail == [] {
      assert semicolon == -1;
    } else {
      assert OccursAt(c, ";", start + |value|) by {
        assert c[start + |value|] == ';';
        assert c[start + |value|..start + |value| + 1] == [c[start + |value|]];
      }
      assert semicolon == start + |value|;
    }
  }

  /** The match is not anchored at a cookie boundary: the first occurrence of the name
      may be inside another cookie's name. */
  lemma MatchesInsideAnotherName()
    ensures GetCookie("xname=1; name=2", "name") == "1"
  {
    var c := "xname=1; name=2";
    NotOccursAt(c, "name", 0);
    assert c[1..5] == "name";
    IndexOfFirst(c, "name", 0, 1);
    IndexOfChar(c, ';', 1, 7);
    OccursAtChar(c, '1', 6);
    assert GetCookie(c, "name") == Slice(c, 6, 7);
  }

  /** A `;` right where the value should start gives the empty string. */
  lemma SemicolonBeforeStart()
    ensures GetCookie("ab;c", "ab") == ""
  {
    var c := "ab;c";
    assert c[0..2] == "ab";
    IndexOfChar(c, ';', 0, 2);
    assert GetCookie(c, "ab") == Slice(c, 3, 2);
  }
}
