/**
 Text as the two services and their stores see it: lexicographic order, blank
 text in the sense of JavaScript's `trim`, and substring search.
 */
module Text {

  /** Strict lexicographic order on characters, the order of a string sort. */
  predicate LexLess(a: string, b: string) {
    if b == "" then false
    else if a == "" then true
    else if a[0] != b[0] then a[0] < b[0]
    else LexLess(a[1..], b[1..])
  }

  predicate ProperPrefix(a: string, b: string) {
    |a| < |b| && a == b[..|a|]
  }

  lemma ProperPrefixTail(a: string, b: string)
    requires a != "" && b != "" && a[0] == b[0]
    ensures ProperPrefix(a, b) <==> ProperPrefix(a[1..], b[1..])
    ensures a == b <==> a[1..] == b[1..]
  {
    assert a == [a[0]] + a[1..] && b == [b[0]] + b[1..];
    if |a| < |b| {
      assert b[..|a|][1..] == b[1..][..|a| - 1];
      assert b[..|a|] == [b[0]] + b[1..][..|a| - 1];
    }
  }

  lemma {:induction false} LexTrichotomy(a: string, b: string)
    ensures LexLess(a, b) || a == b || LexLess(b, a)
    ensures !(LexLess(a, b) && LexLess(b, a))
    ensures LexLess(a, b) ==> a != b
  {
    if a == "" || b == "" || a[0] != b[0] {
    } else {
      LexTrichotomy(a[1..], b[1..]);
      assert a == [a[0]] + a[1..] && b == [b[0]] + b[1..];
    }
  }

  lemma {:induction false} LexTransitive(a: string, b: string, c: string)
    requires LexLess(a, b) && LexLess(b, c)
    ensures LexLess(a, c)
  {
    if a == "" || a[0] != b[0] || b[0] != c[0] {
    } else {
      LexTransitive(a[1..], b[1..], c[1..]);
    }
  }

  /** A common prefix does not influence the order. */
  lemma {:induction false} LexCommonPrefix(p: string, a: string, b: string)
    ensures LexLess(p + a, p + b) == LexLess(a, b)
  {
    if p == "" {
      assert p + a == a && p + b == b;
    } else {
      assert (p + a)[1..] == p[1..] + a && (p + b)[1..] == p[1..] + b;
      LexCommonPrefix(p[1..], a, b);
    }
  }

  /** Once two texts differ within their common length, what follows is irrelevant. */
  lemma {:induction false} LexDecided(a: string, b: string, x: string, y: string)
    requires a != b && !ProperPrefix(a, b) && !ProperPrefix(b, a)
    ensures LexLess(a + x, b + y) == LexLess(a, b)
  {
    if a == "" || b == "" || a[0] != b[0] {
    } else {
      assert (a + x)[1..] == a[1..] + x && (b + y)[1..] == b[1..] + y;
      ProperPrefixTail(a, b);
      ProperPrefixTail(b, a);
      LexDecided(a[1..], b[1..], x, y);
    }
  }

  /** White space and line terminators, the characters `String.prototype.trim` removes. */
  predicate IsSpace(c: char) {
    || '\t' <= c <= '\r' || c == ' ' || c == '\U{A0}' || c == '\U{1680}'
    || '\U{2000}' <= c <= '\U{200A}' || c == '\U{2028}' || c == '\U{2029}'
    || c == '\U{202F}' || c == '\U{205F}' || c == '\U{3000}' || c == '\U{FEFF}'
  }

  /** The 25 of them (sections 12.2 and 12.3 of ECMA-262). */
  lemma WhiteSpace(c: char)
    ensures IsSpace(c) <==>
              c in {'\U{9}', '\U{A}', '\U{B}', '\U{C}', '\U{D}', '\U{20}', '\U{A0}', '\U{1680}',
                    '\U{2000}', '\U{2001}', '\U{2002}', '\U{2003}', '\U{2004}', '\U{2005}', '\U{2006}', '\U{2007}',
                    '\U{2008}', '\U{2009}', '\U{200A}', '\U{2028}', '\U{2029}', '\U{202F}', '\U{205F}', '\U{3000}',
                    '\U{FEFF}'}
  {
  }

  function TrimStart(s: string): string {
    if s != "" && IsSpace(s[0]) then TrimStart(s[1..]) else s
  }

  function TrimEnd(s: string): string {
    if s != "" && IsSpace(s[|s| - 1]) then TrimEnd(s[..|s| - 1]) else s
  }

  function Trim(s: string): string {
    TrimEnd(TrimStart(s))
  }

  /** True of a text with no visible character, the empty text included. */
  predicate Blank(s: string) {
    forall i :: 0 <= i < |s| ==> IsSpace(s[i])
  }

  lemma {:induction false} TrimStartBlank(s: string)
    ensures if Blank(s) then TrimStart(s) == ""
            else TrimStart(s) != "" && !IsSpace(TrimStart(s)[0])
  {
    if s == "" || !IsSpace(s[0]) {
    } else {
      TrimStartBlank(s[1..]);
      assert forall i :: 0 < i < |s| ==> s[i] == s[1..][i - 1];
      assert Blank(s) == Blank(s[1..]);
    }
  }

  lemma {:induction false} TrimEndVisible(s: string)
    requires s != "" && !IsSpace(s[0])
    ensures TrimEnd(s) != ""
  {
    if !IsSpace(s[|s| - 1]) {
    } else {
      TrimEndVisible(s[..|s| - 1]);
    }
  }

  /** `trim().length === 0` says exactly that no character is visible. */
  lemma TrimEmptyIffBlank(s: string)
    ensures Trim(s) == "" <==> Blank(s)
  {
    TrimStartBlank(s);
    if !Blank(s) {
      TrimEndVisible(TrimStart(s));
    }
  }

  /** `needle` occurs in `hay` starting at index `i`. */
  predicate OccursAt(hay: string, needle: string, i: nat) {
    i + |needle| <= |hay| && hay[i..i + |needle|] == needle
  }

  predicate Contains(hay: string, needle: string) {
    exists i: nat :: i <= |hay| && OccursAt(hay, needle, i)
  }

  /** A text contains another exactly if it is that other with something before and after it. */
  lemma ContainsIff(hay: string, needle: string)
    ensures Contains(hay, needle) <==> exists left, right :: hay == left + needle + right
  {
    if Contains(hay, needle) {
      var i: nat :| i <= |hay| && OccursAt(hay, needle, i);
      assert hay == hay[..i] + needle + hay[i + |needle|..];
    }
    if exists left, right :: hay == left + needle + right {
      var left, right :| hay == left + needle + right;
      assert hay[|left|..|left| + |needle|] == needle;
      assert OccursAt(hay, needle, |left|);
    }
  }
}
