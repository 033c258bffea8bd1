/** The regular expression matcher of grep.c against a declarative semantics. Patterns and texts are the
    characters before their NUL. */
module Grep {
  datatype Item = One(c: char) | Star(c: char)

  /** What a pattern without its leading '^' means: items in a row, and whether they must end the text. */
  datatype Pattern = Pattern(items: seq<Item>, toEnd: bool)

  predicate IsStar(re: string) { |re| >= 2 && re[1] == '*' }

  /** '*' stars the character before it, whatever that is; a final '$' on its own is the end of the text;
      everything else stands for itself. */
  function Meaning(re: string): Pattern {
    if re == "" then Pattern([], false)
    else if IsStar(re) then var p := Meaning(re[2..]); Pattern([Star(re[0])] + p.items, p.toEnd)
    else if re == "$" then Pattern([], true)
    else var p := Meaning(re[1..]); Pattern([One(re[0])] + p.items, p.toEnd)
  }

  predicate Accepts(c: char, x: char) { c == '.' || c == x }

  predicate AllAccepted(c: char, s: string) {
    forall k | 0 <= k < |s| :: Accepts(c, s[k])
  }

  predicate ItemMatches(it: Item, s: string) {
    match it
    case One(c) => |s| == 1 && Accepts(c, s[0])
    case Star(c) => AllAccepted(c, s)
  }

  function Concat(pieces: seq<string>): string {
    if pieces == [] then "" else pieces[0] + Concat(pieces[1..])
  }

  ghost predicate Cuts(items: seq<Item>, s: string, pieces: seq<string>) {
    |pieces| == |items| && Concat(pieces) == s && forall k | 0 <= k < |items| :: ItemMatches(items[k], pieces[k])
  }

  /** The string can be cut into one piece for each item. */
  ghost predicate Matches(items: seq<Item>, s: string) {
    exists pieces :: Cuts(items, s, pieces)
  }

  ghost predicate MatchesUpTo(p: Pattern, text: string, n: nat) {
    n <= |text| && Matches(p.items, text[..n]) && (p.toEnd ==> n == |text|)
  }

  /** The pattern matches at the beginning of the text. */
  ghost predicate Here(re: string, text: string) {
    exists n: nat :: MatchesUpTo(Meaning(re), text, n)
  }

  ghost predicate HereAt(re: string, text: string, i: nat) {
    i <= |text| && Here(re, text[i..])
  }

  /** What grep promises: a match at the beginning for '^', anywhere otherwise. */
  ghost predicate Found(re: string, text: string) {
    if re != "" && re[0] == '^' then Here(re[1..], text) else exists i: nat :: HereAt(re, text, i)
  }

  // ----- the semantics, one item at a time -----

  lemma MatchesCons(it: Item, rest: seq<Item>, s: string, k: nat)
    requires k <= |s| && ItemMatches(it, s[..k]) && Matches(rest, s[k..])
    ensures Matches([it] + rest, s)
  {
    var pieces :| Cuts(rest, s[k..], pieces);
    var all := [s[..k]] + pieces;
    assert all[1..] == pieces && s[..k] + s[k..] == s;
    assert Cuts([it] + rest, s, all);
  }

  lemma MatchesUncons(it: Item, rest: seq<Item>, s: string) returns (k: nat)
    requires Matches([it] + rest, s)
    ensures k <= |s| && ItemMatches(it, s[..k]) && Matches(rest, s[k..])
  {
    var items := [it] + rest;
    var pieces :| Cuts(items, s, pieces);
    k := |pieces[0]|;
    assert s == pieces[0] + Concat(pieces[1..]);
    assert s[..k] == pieces[0] && s[k..] == Concat(pieces[1..]);
    assert items[1..] == rest && ItemMatches(items[0], pieces[0]);
    forall j | 0 <= j < |rest| ensures ItemMatches(rest[j], pieces[1..][j]) {
      assert ItemMatches(items[j + 1], pieces[j + 1]);
    }
    assert Cuts(rest, s[k..], pieces[1..]);
  }

  lemma MatchesNone(s: string)
    ensures Matches([], s) <==> s == ""
  {
    if s == "" { assert Cuts([], s, []); }
  }

  /** What is left for the rest of the pattern once the first item has taken k characters. */
  lemma HereCons(it: Item, p: Pattern, text: string, k: nat, n: nat)
    requires k <= |text| && ItemMatches(it, text[..k]) && MatchesUpTo(p, text[k..], n)
    ensures MatchesUpTo(Pattern([it] + p.items, p.toEnd), text, k + n)
  {
    var s := text[..k + n];
    assert s[..k] == text[..k] && s[k..] == text[k..][..n];
    MatchesCons(it, p.items, s, k);
  }

  lemma HereUncons(it: Item, p: Pattern, text: string, n: nat) returns (k: nat)
    requires MatchesUpTo(Pattern([it] + p.items, p.toEnd), text, n)
    ensures k <= n && ItemMatches(it, text[..k]) && MatchesUpTo(p, text[k..], n - k)
  {
    var s := text[..n];
    k := MatchesUncons(it, p.items, s);
    assert s[..k] == text[..k] && s[k..] == text[k..][..n - k];
  }

  lemma HereEmpty(text: string)
    ensures Here("", text)
  {
    MatchesNone(text[..0]);
    assert MatchesUpTo(Meaning(""), text, 0);
  }

  lemma HereEnd(text: string)
    ensures Here("$", text) <==> text == ""
  {
    if Here("$", text) {
      var n: nat :| MatchesUpTo(Meaning("$"), text, n);
      MatchesNone(text[..n]);
    }
    if text == "" {
      MatchesNone(text[..0]);
      assert MatchesUpTo(Meaning("$"), text, 0);
    }
  }

  lemma HereOne(re: string, text: string)
    requires re != "" && !IsStar(re) && re != "$"
    ensures Here(re, text) <==> text != "" && Accepts(re[0], text[0]) && Here(re[1..], text[1..])
  {
    var it, p := One(re[0]), Meaning(re[1..]);
    if Here(re, text) {
      var n: nat :| MatchesUpTo(Meaning(re), text, n);
      var k := HereUncons(it, p, text, n);
      assert k == 1 && MatchesUpTo(p, text[1..], n - 1);
    }
    if text != "" && Accepts(re[0], text[0]) && Here(re[1..], text[1..]) {
      var n: nat :| MatchesUpTo(p, text[1..], n);
      HereCons(it, p, text, 1, n);
      assert MatchesUpTo(Meaning(re), text, 1 + n);
    }
  }

  /** c* followed by re: some number of accepted characters, then a match of re. */
  ghost predicate StarTo(c: char, re: string, text: string, k: nat) {
    k <= |text| && AllAccepted(c, text[..k]) && Here(re, text[k..])
  }

  lemma HereStar(re: string, text: string)
    requires IsStar(re)
    ensures Here(re, text) <==> exists k: nat :: StarTo(re[0], re[2..], text, k)
  {
    var it, p := Star(re[0]), Meaning(re[2..]);
    if Here(re, text) {
      var n: nat :| MatchesUpTo(Meaning(re), text, n);
      var k := HereUncons(it, p, text, n);
      assert Here(re[2..], text[k..]) && StarTo(re[0], re[2..], text, k);
    }
    if k: nat :| StarTo(re[0], re[2..], text, k) {
      var n: nat :| MatchesUpTo(p, text[k..], n);
      HereCons(it, p, text, k, n);
      assert MatchesUpTo(Meaning(re), text, k + n);
    }
  }

  // ----- what patterns find -----

  /** A text that stands for itself as a pattern. */
  predicate Plain(re: string) {
    forall k | 0 <= k < |re| :: re[k] != '^' && re[k] != '$' && re[k] != '.' && re[k] != '*'
  }

  /** At the beginning a plain pattern is a prefix, whatever pattern follows it, as long as that does not begin
      with '*'. */
  lemma {:induction false} PlainHere(re: string, rest: string, text: string)
    requires Plain(re) && (rest == "" || rest[0] != '*')
    ensures Here(re + rest, text) <==> re <= text && Here(rest, text[|re|..])
  {
    var all := re + rest;
    if re == "" {
      assert all == rest && text[0..] == text;
    } else {
      assert all[0] == re[0] && all[1..] == re[1..] + rest;
      assert |all| >= 2 ==> all[1] == if |re| >= 2 then re[1] else rest[0];
      HereOne(all, text);
      if text != "" {
        PlainHere(re[1..], rest, text[1..]);
        assert re <= text <==> re[0] == text[0] && re[1..] <= text[1..] by {
          if re[0] == text[0] && re[1..] <= text[1..] {
            assert re == [re[0]] + re[1..] && text == [text[0]] + text[1..];
          }
        }
        if re <= text { assert text[1..][|re[1..]|..] == text[|re|..]; }
      }
    }
  }

  ghost predicate OccursAt(re: string, text: string, i: nat) {
    i <= |text| && re <= text[i..]
  }

  /** A plain pattern is found exactly where it occurs; behind '^' at the beginning, and before '$' at the end. */
  lemma PlainFound(re: string, text: string)
    requires Plain(re)
    ensures Found(re, text) <==> exists i: nat :: OccursAt(re, text, i)
    ensures Found("^" + re, text) <==> re <= text
    ensures Found("^" + re + "$", text) <==> text == re
    ensures Found(re + "$", text) <==> |re| <= |text| && text[|text| - |re|..] == re
  {
    assert ("^" + re)[1..] == re && ("^" + re + "$")[1..] == re + "$" && re + "" == re;
    forall i: nat | i <= |text| ensures HereAt(re, text, i) <==> OccursAt(re, text, i) {
      PlainHere(re, "", text[i..]);
      HereEmpty(text[i..][if re <= text[i..] then |re| else 0..]);
    }
    PlainHere(re, "", text);
    HereEmpty(text[if re <= text then |re| else 0..]);
    forall i: nat | i <= |text| ensures HereAt(re + "$", text, i) <==> text[i..] == re {
      PlainHere(re, "$", text[i..]);
      if re <= text[i..] {
        HereEnd(text[i..][|re|..]);
      }
    }
    assert text[0..] == text && HereAt(re + "$", text, 0) == Here(re + "$", text);
    FoundAtEnd(re, text);
  }

  lemma FoundAtEnd(re: string, text: string)
    requires Plain(re) && forall i: nat | i <= |text| :: HereAt(re + "$", text, i) <==> text[i..] == re
    ensures Found(re + "$", text) <==> |re| <= |text| && text[|text| - |re|..] == re
  {
    assert (re + "$")[0] != '^';
    if |re| <= |text| && text[|text| - |re|..] == re { assert HereAt(re + "$", text, |text| - |re|); }
  }

  /** '.' takes any character, and a star any number of its own. */
  lemma DotAndStar(re: string, c: char, text: string, k: nat)
    ensures !IsStar("." + re) ==> (Here("." + re, text) <==> text != "" && Here(re, text[1..]))
    ensures StarTo('.', re, text, k) <==> k <= |text| && Here(re, text[k..])
    ensures c != '.' ==>
              (StarTo(c, re, text, k) <==>
                k <= |text| && (forall j | 0 <= j < k :: text[j] == c) && Here(re, text[k..]))
  {
    var dot := "." + re;
    assert dot[0] == '.' && dot[1..] == re && dot != "$";
    if !IsStar(dot) { HereOne(dot, text); }
    if k <= |text| {
      assert AllAccepted(c, text[..k]) <==> forall j | 0 <= j < k :: Accepts(c, text[j]);
    }
  }

  // ----- the matcher -----

  method Match(re: string, text: string) returns (found: bool)
    ensures found <==> Found(re, text)
  {
    if re != "" && re[0] == '^' {
      found := MatchHere(re[1..], text);
      return;
    }
    var i := 0;
    while true
      invariant i <= |text| && forall j: nat | j < i :: !HereAt(re, text, j)
      decreases |text| - i
    {
      var here := MatchHere(re, text[i..]);
      if here {
        assert HereAt(re, text, i);
        return true;
      }
      if i == |text| { break; }
      i := i + 1;
    }
    return false;
  }

  method MatchHere(re: string, text: string) returns (found: bool)
    ensures found <==> Here(re, text)
    decreases |re|, 0
  {
    if re == "" {
      HereEmpty(text);
      return true;
    }
    if IsStar(re) {
      HereStar(re, text);
      found := MatchStar(re[0], re[2..], text);
      return;
    }
    if re[0] == '$' && |re| == 1 {
      assert re == "$";
      HereEnd(text);
      return text == "";
    }
    HereOne(re, text);
    if text != "" && (re[0] == '.' || re[0] == text[0]) {
      found := MatchHere(re[1..], text[1..]);
      return;
    }
    return false;
  }

  method MatchStar(c: char, re: string, text: string) returns (found: bool)
    ensures found <==> exists k: nat :: StarTo(c, re, text, k)
    decreases |re|, 1
  {
    var i := 0;
    while true
      invariant i <= |text| && AllAccepted(c, text[..i]) && forall j: nat | j < i :: !StarTo(c, re, text, j)
      decreases |text| - i
    {
      var here := MatchHere(re, text[i..]);
      if here {
        assert StarTo(c, re, text, i);
        return true;
      }
      if i == |text| || !(text[i] == c || c == '.') {
        forall k: nat | i < k <= |text| ensures !StarTo(c, re, text, k) {
          assert text[..k][i] == text[i];
        }
        break;
      }
      i := i + 1;
    }
    return false;
  }
}
