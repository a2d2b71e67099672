/** The matcher of kernel/grep.c against a meaning for its patterns. Strings are without the NUL. */
module Regex {

  /** `c`, or any character for `c == '.'`; and zero or more of them. */
  datatype Item = One(c: char) | Star(c: char)

  /** A pattern without `^`: items, and whether a final `$` ties it to the end of the text. */
  datatype Pattern = Pattern(items: seq<Item>, toEnd: bool)

  /** How a pattern string reads: a character before `*` is starred, `$` is special only when it is the
    last character, everything else stands for itself. */
  function Parse(re: string): Pattern {
    if re == "" then Pattern([], false)
    else if |re| >= 2 && re[1] == '*' then
      var rest := Parse(re[2..]);
      Pattern([Star(re[0])] + rest.items, rest.toEnd)
    else if re == "$" then Pattern([], true)
    else
      var rest := Parse(re[1..]);
      Pattern([One(re[0])] + rest.items, rest.toEnd)
  }

  predicate Fits(c: char, x: char) {
    c == '.' || x == c
  }

  predicate AllFit(c: char, w: string) {
    forall i :: 0 <= i < |w| ==> Fits(c, w[i])
  }

  /** The string w is in the language of the items. */
  predicate InLang(items: seq<Item>, w: string)
    decreases items
  {
    if items == [] then w == ""
    else
      match items[0]
      case One(c) => w != "" && Fits(c, w[0]) && InLang(items[1..], w[1..])
      case Star(c) => exists k :: 0 <= k <= |w| && AllFit(c, w[..k]) && InLang(items[1..], w[k..])
  }

  /** Some prefix of the text is in the language; the whole text, if the pattern ends in `$`. */
  ghost predicate Prefixed(p: Pattern, text: string) {
    exists n :: 0 <= n <= |text| && (p.toEnd ==> n == |text|) && InLang(p.items, text[..n])
  }

  /** The meaning of a whole pattern string for a line of text. */
  ghost predicate Meaning(re: string, text: string) {
    if re != "" && re[0] == '^' then Prefixed(Parse(re[1..]), text)
    else exists i :: 0 <= i <= |text| && Prefixed(Parse(re), text[i..])
  }

  lemma PrefixedOne(c: char, p: Pattern, text: string)
    ensures Prefixed(Pattern([One(c)] + p.items, p.toEnd), text)
            <==> text != "" && Fits(c, text[0]) && Prefixed(p, text[1..])
  {
    var q := Pattern([One(c)] + p.items, p.toEnd);
    assert q.items[1..] == p.items;
    if Prefixed(q, text) {
      var n :| 0 <= n <= |text| && (q.toEnd ==> n == |text|) && InLang(q.items, text[..n]);
      assert text[..n][1..] == text[1..][..n - 1];
    }
    if text != "" && Fits(c, text[0]) && Prefixed(p, text[1..]) {
      var n :| 0 <= n <= |text[1..]| && (p.toEnd ==> n == |text[1..]|) && InLang(p.items, text[1..][..n]);
      assert text[..n + 1][1..] == text[1..][..n];
      assert InLang(q.items, text[..n + 1]);
    }
  }

  /** c* followed by p: skip k characters that fit, then p. */
  ghost predicate Starred(c: char, p: Pattern, text: string) {
    exists k :: 0 <= k <= |text| && AllFit(c, text[..k]) && Prefixed(p, text[k..])
  }

  lemma PrefixedStar(c: char, p: Pattern, text: string)
    ensures Prefixed(Pattern([Star(c)] + p.items, p.toEnd), text) <==> Starred(c, p, text)
  {
    var q := Pattern([Star(c)] + p.items, p.toEnd);
    assert q.items[1..] == p.items;
    if Prefixed(q, text) {
      var n :| 0 <= n <= |text| && (q.toEnd ==> n == |text|) && InLang(q.items, text[..n]);
      var k :| 0 <= k <= n && AllFit(c, text[..n][..k]) && InLang(p.items, text[..n][k..]);
      assert text[..n][..k] == text[..k] && text[..n][k..] == text[k..][..n - k];
      assert Prefixed(p, text[k..]);
    }
    if Starred(c, p, text) {
      var k :| 0 <= k <= |text| && AllFit(c, text[..k]) && Prefixed(p, text[k..]);
      var n :| 0 <= n <= |text[k..]| && (p.toEnd ==> n == |text[k..]|) && InLang(p.items, text[k..][..n]);
      assert text[..k + n][..k] == text[..k] && text[..k + n][k..] == text[k..][..n];
      assert InLang(q.items, text[..k + n]);
    }
  }

  /** matchhere */
  method MatchHere(re: string, text: string) returns (r: bool)
    ensures r <==> Prefixed(Parse(re), text)
    decreases |re|, 0
  {
    if re == "" {
      assert InLang([], text[..0]);
      return true;
    }
    if |re| >= 2 && re[1] == '*' {
      r := MatchStar(re[0], re[2..], text);
      PrefixedStar(re[0], Parse(re[2..]), text);
      return;
    }
    if re[0] == '$' && |re| == 1 {
      assert text[..|text|] == text;
      return text == "";
    }
    PrefixedOne(re[0], Parse(re[1..]), text);
    if text != "" && (re[0] == '.' || re[0] == text[0]) {
      r := MatchHere(re[1..], text[1..]);
      return;
    }
    return false;
  }

  /** matchstar: the text cursor is at position i. */
  method MatchStar(c: char, re: string, text: string) returns (r: bool)
    ensures r <==> Starred(c, Parse(re), text)
    decreases |re|, 1
  {
    var i := 0;
    while true
      invariant i <= |text| && AllFit(c, text[..i])
      invariant forall k :: 0 <= k < i ==> !Prefixed(Parse(re), text[k..])
      decreases |text| - i
    {
      var here := MatchHere(re, text[i..]);
      if here {
        return true;
      }
      if i == |text| || !(text[i] == c || c == '.') {
        StarStops(c, Parse(re), text, i);
        return false;
      }
      i := i + 1;
    }
  }

  /** When a character does not fit, no longer skip fits either. */
  lemma StarStops(c: char, p: Pattern, text: string, i: nat)
    requires i <= |text| && (i < |text| ==> !Fits(c, text[i]))
    requires forall k :: 0 <= k <= i ==> !Prefixed(p, text[k..])
    ensures !Starred(c, p, text)
  {
    forall k | i < k <= |text| ensures !AllFit(c, text[..k]) {
      assert text[..k][i] == text[i];
    }
  }

  /** match: true exactly when the line has a substring the pattern describes, at the start of the line
    for `^`, up to its end for a final `$`. */
  method Match(re: string, text: string) returns (r: bool)
    ensures r <==> Meaning(re, text)
  {
    if re != "" && re[0] == '^' {
      r := MatchHere(re[1..], text);
      return;
    }
    var i := 0;
    while true
      invariant i <= |text|
      invariant forall k :: 0 <= k < i ==> !Prefixed(Parse(re), text[k..])
      decreases |text| - i
    {
      var here := MatchHere(re, text[i..]);
      if here {
        return true;
      }
      if i == |text| {
        return false;
      }
      i := i + 1;
    }
  }
}
