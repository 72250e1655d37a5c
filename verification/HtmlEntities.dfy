/** Escaping text for the portal's pages: three whole-string replacements. */
module HtmlEntities {
  import Sequences

  /** The String class's replacement of every occurrence of one character. */
  function ReplaceAll(s: string, find: char, entity: string): string {
    if s == "" then "" else (if s[0] == find then entity else [s[0]]) + ReplaceAll(s[1..], find, entity)
  }

  /** The escape of a single character. */
  function EscapeChar(c: char): (s: string)
    ensures s != ""
  {
    if c == '&' then "&amp;" else if c == '<' then "&lt;" else if c == '>' then "&gt;" else [c]
  }

  /** A single pass from left to right. */
  function Escape(s: string): string {
    if s == "" then "" else EscapeChar(s[0]) + Escape(s[1..])
  }

  predicate StartsWith(s: string, prefix: string) {
    |prefix| <= |s| && s[..|prefix|] == prefix
  }

  /** The first character of an escaped text and the number of places it takes. */
  function FirstOf(s: string): (first: (char, nat))
    requires s != ""
    ensures 1 <= first.1 <= |s|
  {
    if StartsWith(s, "&amp;") then ('&', 5)
    else if StartsWith(s, "&lt;") then ('<', 4)
    else if StartsWith(s, "&gt;") then ('>', 4)
    else (s[0], 1)
  }

  /** Reads entities back in a single pass. */
  function Unescape(s: string): string
    decreases |s|
  {
    if s == "" then "" else [FirstOf(s).0] + Unescape(s[FirstOf(s).1..])
  }

  lemma ReplaceEmpty(find: char, entity: string)
    ensures ReplaceAll("", find, entity) == ""
  {}

  lemma Unfold(a: string, b: string, find: char, entity: string)
    requires a != ""
    ensures var one := if a[0] == find then entity else [a[0]];
            ReplaceAll(a, find, entity) == one + ReplaceAll(a[1..], find, entity) &&
            ReplaceAll(a + b, find, entity) == one + ReplaceAll(a[1..] + b, find, entity)
  {
    assert (a + b)[1..] == a[1..] + b;
  }

  lemma {:induction false} ReplaceConcat(a: string, b: string, find: char, entity: string)
    ensures ReplaceAll(a + b, find, entity) == ReplaceAll(a, find, entity) + ReplaceAll(b, find, entity)
  {
    hide ReplaceAll;
    if a == "" {
      assert a + b == b;
      ReplaceEmpty(find, entity);
    } else {
      Unfold(a, b, find, entity);
      ReplaceConcat(a[1..], b, find, entity);
      var one := if a[0] == find then entity else [a[0]];
      Sequences.Reassociate(one, ReplaceAll(a[1..], find, entity), ReplaceAll(b, find, entity));
    }
  }

  /** A string without the character is left alone. */
  lemma {:induction false} ReplaceNothing(s: string, find: char, entity: string)
    requires find !in s
    ensures ReplaceAll(s, find, entity) == s
  {
    if s != "" {
      assert find !in s[1..];
      ReplaceNothing(s[1..], find, entity);
    }
  }

  function ThreePasses(s: string): string {
    ReplaceAll(ReplaceAll(ReplaceAll(s, '&', "&amp;"), '<', "&lt;"), '>', "&gt;")
  }

  lemma ReplaceOne(c: char, find: char, entity: string)
    ensures ReplaceAll([c], find, entity) == if c == find then entity else [c]
  {
    assert [c][1..] == "";
  }

  /** Later passes leave what earlier passes put in alone. */
  lemma ThreePassesChar(c: char)
    ensures ThreePasses([c]) == EscapeChar(c)
  {
    hide ReplaceAll;
    ReplaceOne(c, '&', "&amp;");
    if c == '&' {
      ReplaceNothing("&amp;", '<', "&lt;");
      ReplaceNothing("&amp;", '>', "&gt;");
    } else {
      ReplaceOne(c, '<', "&lt;");
      ReplaceOne(c, '>', "&gt;");
      ReplaceNothing("&lt;", '>', "&gt;");
    }
  }

  /** The three replacements in the source's order are one pass. */
  lemma {:induction false} PassesAreEscape(s: string)
    ensures ThreePasses(s) == Escape(s)
  {
    if s != "" {
      var head, tail := [s[0]], s[1..];
      assert s == head + tail;
      PassesAreEscape(tail);
      ThreePassesChar(s[0]);
      var head1, tail1 := ReplaceAll(head, '&', "&amp;"), ReplaceAll(tail, '&', "&amp;");
      var head2, tail2 := ReplaceAll(head1, '<', "&lt;"), ReplaceAll(tail1, '<', "&lt;");
      ReplaceConcat(head, tail, '&', "&amp;");
      ReplaceConcat(head1, tail1, '<', "&lt;");
      ReplaceConcat(head2, tail2, '>', "&gt;");
    }
  }

  method EscapeEntities(text: string) returns (str: string)
    ensures str == Escape(text)
  {
    str := ReplaceAll(text, '&', "&amp;");
    str := ReplaceAll(str, '<', "&lt;");
    str := ReplaceAll(str, '>', "&gt;");
    PassesAreEscape(text);
  }

  /** No raw angle bracket is left. */
  lemma {:induction false} NoRawBrackets(s: string)
    ensures '<' !in Escape(s) && '>' !in Escape(s)
  {
    if s != "" {
      NoRawBrackets(s[1..]);
    }
  }

  lemma Mismatch(s: string, prefix: string, i: nat)
    requires i < |prefix| && i < |s| && s[i] != prefix[i]
    ensures !StartsWith(s, prefix)
  {
    assert i < |prefix| <= |s| ==> s[..|prefix|][i] == s[i];
  }

  lemma FirstOfEscaped(c: char, rest: string)
    ensures FirstOf(EscapeChar(c) + rest) == (c, |EscapeChar(c)|)
  {
    var s := EscapeChar(c) + rest;
    assert s[..|EscapeChar(c)|] == EscapeChar(c) && s[0] == EscapeChar(c)[0];
    if c == '<' {
      Mismatch(s, "&amp;", 1);
    } else if c == '>' {
      Mismatch(s, "&amp;", 1);
      Mismatch(s, "&lt;", 1);
    } else if c != '&' {
      Mismatch(s, "&amp;", 0);
      Mismatch(s, "&lt;", 0);
      Mismatch(s, "&gt;", 0);
    }
  }

  /** Escaping loses nothing: one pass reads the text back. */
  lemma {:induction false} UnescapeInvertsEscape(s: string)
    ensures Unescape(Escape(s)) == s
  {
    hide FirstOf, EscapeChar;
    if s != "" {
      var head, rest := EscapeChar(s[0]), Escape(s[1..]);
      FirstOfEscaped(s[0], rest);
      UnescapeInvertsEscape(s[1..]);
      assert (head + rest)[|head|..] == rest;
    }
  }

  lemma EscapeIsInjective(s: string, t: string)
    requires Escape(s) == Escape(t)
    ensures s == t
  {
    UnescapeInvertsEscape(s);
    UnescapeInvertsEscape(t);
  }
}
