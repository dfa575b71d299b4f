/** The regular-expression matcher of grep, against a declarative meaning.

    A NUL-terminated C string is a sequence without its terminator, so the test
    `*text == '\0'` is the test that the sequence is exhausted. */
module Grep {

  /** One element of a pattern: exactly one character, or any number of them. */
  datatype Item = One(c: char) | Star(c: char)

  /** A pattern: its items in order, and whether a final '$' pins it to the end. */
  datatype Pattern = Pattern(items: seq<Item>, atEnd: bool)

  /** The character `x` is one that the pattern character `c` stands for. */
  predicate Stands(c: char, x: char) {
    c == '.' || c == x
  }

  /** How a pattern string reads: a character followed by '*' is a repetition
      (even '$' or '^'), a lone last '$' is the end anchor, the rest is literal. */
  function Read(re: string): Pattern {
    if re == [] then Pattern([], false)
    else if |re| > 1 && re[1] == '*' then
      var rest := Read(re[2..]);
      rest.(items := [Star(re[0])] + rest.items)
    else if re == "$" then Pattern([], true)
    else
      var rest := Read(re[1..]);
      rest.(items := [One(re[0])] + rest.items)
  }

  /** The word `w` is in the language of the items: it splits into consecutive
      pieces, one for each item. */
  ghost predicate Denotes(items: seq<Item>, w: string)
    decreases |items|
  {
    if items == [] then w == []
    else match items[0]
      case One(c) => w != [] && Stands(c, w[0]) && Denotes(items[1..], w[1..])
      case Star(c) => exists k :: 0 <= k <= |w| && Repeats(c, w[..k]) && Denotes(items[1..], w[k..])
  }

  ghost predicate Repeats(c: char, w: string) {
    forall i :: 0 <= i < |w| ==> Stands(c, w[i])
  }

  /** The part of `text` that ends at `j` is matched from the beginning. */
  ghost predicate PrefixMatches(p: Pattern, text: string, j: nat)
    requires j <= |text|
  {
    Denotes(p.items, text[..j]) && (p.atEnd ==> j == |text|)
  }

  /** Some prefix of `text` lies in the language of `p`. */
  ghost predicate MatchesHere(p: Pattern, text: string) {
    exists j :: 0 <= j <= |text| && PrefixMatches(p, text, j)
  }

  /** The substring `text[i..j]` lies in the language of `p`. */
  ghost predicate SubstringMatches(p: Pattern, text: string, i: nat, j: nat)
    requires i <= j <= |text|
  {
    Denotes(p.items, text[i..j]) && (p.atEnd ==> j == |text|)
  }

  /** What grep promises: some substring lies in the language of the pattern, a
      prefix when the pattern starts with '^'. */
  ghost predicate Matches(re: string, text: string) {
    if re != [] && re[0] == '^' then
      exists j :: 0 <= j <= |text| && SubstringMatches(Read(re[1..]), text, 0, j)
    else
      exists i, j :: 0 <= i <= j <= |text| && SubstringMatches(Read(re), text, i, j)
  }

  lemma HereIsSubstring(p: Pattern, text: string, i: nat)
    requires i <= |text|
    ensures MatchesHere(p, text[i..]) <==> exists j :: i <= j <= |text| && SubstringMatches(p, text, i, j)
  {
    forall j | i <= j <= |text|
      ensures SubstringMatches(p, text, i, j) <==> PrefixMatches(p, text[i..], j - i)
    {
      assert text[i..][..j - i] == text[i..j];
    }
    if MatchesHere(p, text[i..]) {
      var j :| 0 <= j <= |text[i..]| && PrefixMatches(p, text[i..], j);
      assert SubstringMatches(p, text, i, j + i);
    }
  }

  /** One step of a match of a single character. */
  lemma OneHere(c: char, rest: Pattern, text: string)
    ensures MatchesHere(rest.(items := [One(c)] + rest.items), text)
       <==> text != [] && Stands(c, text[0]) && MatchesHere(rest, text[1..])
  {
    var p := rest.(items := [One(c)] + rest.items);
    assert p.items[1..] == rest.items;
    if MatchesHere(p, text) {
      var j :| 0 <= j <= |text| && PrefixMatches(p, text, j);
      assert text[..j][1..] == text[1..][..j - 1];
      assert PrefixMatches(rest, text[1..], j - 1);
    }
    if text != [] && Stands(c, text[0]) && MatchesHere(rest, text[1..]) {
      var j :| 0 <= j <= |text[1..]| && PrefixMatches(rest, text[1..], j);
      assert text[..j + 1][1..] == text[1..][..j];
      assert PrefixMatches(p, text, j + 1);
    }
  }

  /** A match of a repetition skips some characters it stands for, then matches the rest. */
  lemma StarHere(c: char, rest: Pattern, text: string)
    ensures MatchesHere(rest.(items := [Star(c)] + rest.items), text)
       <==> exists k :: 0 <= k <= |text| && Repeats(c, text[..k]) && MatchesHere(rest, text[k..])
  {
    var p := rest.(items := [Star(c)] + rest.items);
    assert p.items[1..] == rest.items;
    if MatchesHere(p, text) {
      var j :| 0 <= j <= |text| && PrefixMatches(p, text, j);
      var w := text[..j];
      var k :| 0 <= k <= |w| && Repeats(c, w[..k]) && Denotes(rest.items, w[k..]);
      assert w[..k] == text[..k] && w[k..] == text[k..][..j - k];
      assert PrefixMatches(rest, text[k..], j - k);
    }
    if k :| 0 <= k <= |text| && Repeats(c, text[..k]) && MatchesHere(rest, text[k..]) {
      var j :| 0 <= j <= |text[k..]| && PrefixMatches(rest, text[k..], j);
      var w := text[..k + j];
      assert w[..k] == text[..k] && w[k..] == text[k..][..j];
      assert Denotes(p.items, w);
      assert PrefixMatches(p, text, k + j);
    }
  }

  lemma EmptyHere(text: string)
    ensures MatchesHere(Pattern([], false), text)
    ensures MatchesHere(Pattern([], true), text) <==> text == []
  {
    assert PrefixMatches(Pattern([], false), text, 0);
    if text == [] {
      assert PrefixMatches(Pattern([], true), text, 0);
    }
  }

  method Match(re: string, text: string) returns (found: bool)
    ensures found <==> Matches(re, text)
  {
    if re != [] && re[0] == '^' {
      HereIsSubstring(Read(re[1..]), text, 0);
      assert text[0..] == text;
      found := MatchHere(re[1..], text);
      return;
    }
    var t := 0;
    while true
      invariant t <= |text|
      invariant forall i, j :: 0 <= i < t && i <= j <= |text| ==> !SubstringMatches(Read(re), text, i, j)
      decreases |text| - t
    {
      HereIsSubstring(Read(re), text, t);
      var here := MatchHere(re, text[t..]);
      if here {
        return true;
      }
      if t == |text| {
        return false;
      }
      t := t + 1;
    }
  }

  /** Search for `re` at the beginning of `text`. */
  method MatchHere(re: string, text: string) returns (found: bool)
    ensures found <==> MatchesHere(Read(re), text)
    decreases |re|, 0
  {
    EmptyHere(text);
    if re == [] {
      return true;
    }
    if |re| > 1 && re[1] == '*' {
      StarHere(re[0], Read(re[2..]), text);
      found := MatchStar(re[0], re[2..], text);
      return;
    }
    if re[0] == '$' && |re| == 1 {
      return text == [];
    }
    assert re != "$";
    OneHere(re[0], Read(re[1..]), text);
    if text != [] && (re[0] == '.' || re[0] == text[0]) {
      found := MatchHere(re[1..], text[1..]);
      return;
    }
    return false;
  }

  /** Search for `c*re` at the beginning of `text`. */
  method MatchStar(c: char, re: string, text: string) returns (found: bool)
    ensures found <==> exists k :: 0 <= k <= |text| && Repeats(c, text[..k]) && MatchesHere(Read(re), text[k..])
    decreases |re|, 1
  {
    var t := 0;
    while true
      invariant t <= |text|
      invariant Repeats(c, text[..t])
      invariant forall k :: 0 <= k < t ==> !MatchesHere(Read(re), text[k..])
      decreases |text| - t
    {
      var here := MatchHere(re, text[t..]);
      if here {
        return true;
      }
      if t == |text| || !(text[t] == c || c == '.') {
        forall k | t < k <= |text|
          ensures !Repeats(c, text[..k])
        {
          assert text[..k][t] == text[t];
        }
        return false;
      }
      t := t + 1;
    }
  }
}
