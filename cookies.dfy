/**
 * Reading a cookie out of `document.cookie`, and the browser's cookie jar that produces
 * that string, so that lookups can be related to the cookies actually stored.
 */
module Cookies {
  import opened Common
  import opened Text

  /** The cookie that holds the signed-in email on both pages. */
  const SessionCookie: string := "fruitmap_session"

  /** A `;`-separated segment matches when, with leading spaces removed, it starts with `name=`. */
  predicate Matches(segment: string, nameEq: string) {
    HasPrefix(StripLeadingSpaces(segment), nameEq)
  }

  /** The index of the first matching segment, or `|segments|` when none matches. */
  function FirstMatch(segments: seq<string>, nameEq: string): (k: nat)
    ensures k <= |segments|
    ensures forall j :: 0 <= j < k ==> !Matches(segments[j], nameEq)
    ensures k < |segments| ==> Matches(segments[k], nameEq)
  {
    if segments == [] then 0
    else if Matches(segments[0], nameEq) then 0
    else 1 + FirstMatch(segments[1..], nameEq)
  }

  /** The text after `name=` in the first matching segment. */
  function ValueIn(segments: seq<string>, nameEq: string): Option<string> {
    var k := FirstMatch(segments, nameEq);
    if k < |segments| then Some(StripLeadingSpaces(segments[k])[|nameEq|..]) else None
  }

  /** What `getCookie(name)` finds in the cookie string `header`. */
  function CookieValue(header: string, name: string): Option<string> {
    ValueIn(Split(header, ';'), name + "=")
  }

  /** `getCookie` of the map page: scan the segments, strip spaces, return at the first match. */
  method GetCookie(header: string, name: string) returns (v: Option<string>)
    ensures v == CookieValue(header, name)
  {
    var nameEq := name + "=";
    var ca := Split(header, ';');
    var i := 0;
    while i < |ca|
      invariant 0 <= i <= |ca|
      invariant forall j :: 0 <= j < i ==> !Matches(ca[j], nameEq)
    {
      var c := ca[i];
      while |c| > 0 && c[0] == ' '
        invariant StripLeadingSpaces(c) == StripLeadingSpaces(ca[i])
      {
        c := c[1..];
      }
      assert c == StripLeadingSpaces(ca[i]);
      if HasPrefix(c, nameEq) {
        assert FirstMatch(ca, nameEq) == i;
        return Some(c[|nameEq|..]);
      }
      i := i + 1;
    }
    assert FirstMatch(ca, nameEq) == |ca|;
    return None;
  }

  /** Looking up in `[s] + rest` tries `s` first and otherwise looks in `rest`. */
  lemma ValueInCons(s: string, rest: seq<string>, nameEq: string)
    ensures ValueIn([s] + rest, nameEq)
         == if Matches(s, nameEq) then Some(StripLeadingSpaces(s)[|nameEq|..]) else ValueIn(rest, nameEq)
  {
    var segs := [s] + rest;
    assert segs[1..] == rest;
    if !Matches(s, nameEq) {
      var k := FirstMatch(rest, nameEq);
      assert FirstMatch(segs, nameEq) == 1 + k;
      assert k < |rest| ==> segs[1 + k] == rest[k];
    }
  }

  /** A leading space on the first segment does not change the lookup. */
  lemma ValueInPadded(s: string, rest: seq<string>, nameEq: string)
    ensures ValueIn([" " + s] + rest, nameEq) == ValueIn([s] + rest, nameEq)
  {
    assert (" " + s)[1..] == s;
    assert StripLeadingSpaces(" " + s) == StripLeadingSpaces(s);
    ValueInCons(" " + s, rest, nameEq);
    ValueInCons(s, rest, nameEq);
  }

  /** One cookie of the jar. */
  datatype Cookie = Cookie(name: string, value: string)

  /** What the browser stores: a non-empty name without `=`, `;` or a leading space, and a value without `;`. */
  predicate WellFormed(c: Cookie) {
    |c.name| > 0 && c.name[0] != ' ' && '=' !in c.name && ';' !in c.name && ';' !in c.value
  }

  predicate WellFormedJar(jar: seq<Cookie>) {
    forall i :: 0 <= i < |jar| ==> WellFormed(jar[i])
  }

  function Pair(c: Cookie): string {
    c.name + "=" + c.value
  }

  function Pairs(jar: seq<Cookie>): (ps: seq<string>)
    ensures |ps| == |jar| && forall i :: 0 <= i < |jar| ==> ps[i] == Pair(jar[i])
  {
    if jar == [] then [] else [Pair(jar[0])] + Pairs(jar[1..])
  }

  /** `document.cookie`: the jar's `name=value` pairs joined by "; ". */
  function Header(jar: seq<Cookie>): string {
    Join(Pairs(jar), "; ")
  }

  /** The value of the first cookie called `name`. */
  function JarValue(jar: seq<Cookie>, name: string): (r: Option<string>)
    ensures r.None? <==> forall i :: 0 <= i < |jar| ==> jar[i].name != name
  {
    if jar == [] then None
    else if jar[0].name == name then Some(jar[0].value)
    else JarValue(jar[1..], name)
  }

  /** The jar after an expired cookie called `name` is written: every cookie of that name is gone. */
  function WithoutCookie(jar: seq<Cookie>, name: string): (r: seq<Cookie>)
    ensures forall i :: 0 <= i < |r| ==> r[i].name != name
    ensures forall c :: c in r <==> c in jar && c.name != name
  {
    if jar == [] then []
    else (if jar[0].name == name then [] else [jar[0]]) + WithoutCookie(jar[1..], name)
  }

  /** For a well-formed cookie, the segment `name=value` matches exactly its own name. */
  lemma {:induction false} PairMatches(c: Cookie, name: string)
    requires WellFormed(c) && '=' !in name
    ensures Matches(Pair(c), name + "=") <==> c.name == name
    ensures c.name == name ==> StripLeadingSpaces(Pair(c))[|name + "="|..] == c.value
  {
    var p := Pair(c);
    assert p[0] == c.name[0];
    assert StripLeadingSpaces(p) == p;
    var n := c.name;
    if HasPrefix(p, name + "=") {
      if |n| < |name| {
        PrefixCharAt(p, name + "=", |n|);
        assert false;
      } else if |n| > |name| {
        PrefixCharAt(p, name + "=", |name|);
        assert false;
      } else {
        assert n == p[..|n|];
      }
    }
    if n == name {
      assert p[..|name + "="|] == name + "=";
      assert p[|name + "="|..] == c.value;
    }
  }

  /** A string agrees with each of its prefixes position by position. */
  lemma PrefixCharAt(s: string, p: string, i: int)
    requires HasPrefix(s, p) && 0 <= i < |p|
    ensures s[i] == p[i]
  {
    assert s[..|p|][i] == s[i];
  }

  /** Reading the serialised jar back finds the first cookie with that name, and nothing else. */
  lemma {:induction false} HeaderLookup(jar: seq<Cookie>, name: string)
    requires WellFormedJar(jar) && '=' !in name
    ensures CookieValue(Header(jar), name) == JarValue(jar, name)
  {
    var nameEq := name + "=";
    if jar == [] {
      assert Split("", ';') == [""];
      assert !Matches("", nameEq);
    } else {
      var c := jar[0];
      var rest := jar[1..];
      assert WellFormed(c);
      PairMatches(c, name);
      assert ';' !in Pair(c) by {
        assert Pair(c) == c.name + "=" + c.value;
      }
      if rest == [] {
        assert Header(jar) == Pair(c);
        SplitNoSeparator(Pair(c), ';');
        ValueInCons(Pair(c), [], nameEq);
        assert ValueIn([], nameEq) == None;
      } else {
        assert WellFormedJar(rest) by {
          forall i | 0 <= i < |rest| ensures WellFormed(rest[i]) {
            assert rest[i] == jar[i + 1];
          }
        }
        HeaderLookup(rest, name);
        var h := Header(rest);
        assert Pairs(jar)[1..] == Pairs(rest);
        assert Header(jar) == Pair(c) + [';'] + (" " + h);
        SplitAtSeparator(Pair(c), ';', " " + h);
        var segs := Split(h, ';');
        assert (" " + h) == [' '] + h;
        assert Split(" " + h, ';') == [" " + segs[0]] + segs[1..];
        ValueInCons(Pair(c), Split(" " + h, ';'), nameEq);
        ValueInPadded(segs[0], segs[1..], nameEq);
        assert [segs[0]] + segs[1..] == segs;
      }
    }
  }

  /** Removing a cookie keeps the jar well formed and leaves nothing under that name. */
  lemma {:induction false} WithoutCookieGone(jar: seq<Cookie>, name: string)
    requires WellFormedJar(jar)
    ensures WellFormedJar(WithoutCookie(jar, name))
    ensures JarValue(WithoutCookie(jar, name), name) == None
  {
    var r := WithoutCookie(jar, name);
    forall i | 0 <= i < |r| ensures WellFormed(r[i]) {
      assert r[i] in r;
      var j :| 0 <= j < |jar| && jar[j] == r[i];
    }
  }
}
