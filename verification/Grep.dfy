/**
  grep's matcher, grep.c, against the language of its patterns. Patterns and
  texts are C strings: the terminating NUL is their end.
 */
module Grep {

  /** One character of a kind, or any number of them; '.' is the kind of every character. */
  datatype Item = One(c: char) | Many(c: char)

  /** The pattern after any leading '^': a '*' counts only behind a character, a '$' only at the end. */
  function Items(re: string): seq<Item>
    decreases |re|
  {
    if re == "" || re == "$" then []
    else if |re| > 1 && re[1] == '*' then [Many(re[0])] + Items(re[2..])
    else [One(re[0])] + Items(re[1..])
  }

  /** Whether the pattern ends in a '$' that is an anchor. */
  predicate Dollar(re: string)
    decreases |re|
  {
    if re == "" then false
    else if |re| > 1 && re[1] == '*' then Dollar(re[2..])
    else re == "$" || Dollar(re[1..])
  }

  predicate Fits(c: char, x: char) { c == '.' || c == x }

  ghost predicate Piece(item: Item, p: string) {
    && (item.One? ==> |p| == 1)
    && forall i :: 0 <= i < |p| ==> Fits(item.c, p[i])
  }

  ghost function Concat(ps: seq<string>): string {
    if ps == [] then "" else ps[0] + Concat(ps[1..])
  }

  ghost predicate Divides(items: seq<Item>, ps: seq<string>, s: string) {
    && |ps| == |items| && Concat(ps) == s
    && forall i :: 0 <= i < |items| ==> Piece(items[i], ps[i])
  }

  /** s is in the language: it divides into one piece for each item. */
  ghost predicate InLanguage(items: seq<Item>, s: string) {
    exists ps :: Divides(items, ps, s)
  }

  /** A prefix of the text is in the language, all of it if the pattern is anchored at its end. */
  ghost predicate Here(re: string, text: string) {
    exists j :: 0 <= j <= |text| && (Dollar(re) ==> j == |text|) && InLanguage(Items(re), text[..j])
  }

  ghost predicate AllFit(c: char, text: string, k: nat) {
    k <= |text| && forall i :: 0 <= i < k ==> Fits(c, text[i])
  }

  ghost predicate AfterStar(c: char, re: string, text: string, k: nat) {
    AllFit(c, text, k) && Here(re, text[k..])
  }

  // ----- the language, one item at a time -----

  lemma NoItems(s: string)
    ensures InLanguage([], s) <==> s == ""
  {
    if s == "" { assert Divides([], [], s); }
  }

  lemma FirstItem(item: Item, items: seq<Item>, s: string, k: nat)
    requires k <= |s| && Piece(item, s[..k]) && InLanguage(items, s[k..])
    ensures InLanguage([item] + items, s)
  {
    var ps :| Divides(items, ps, s[k..]);
    var qs := [s[..k]] + ps;
    assert qs[1..] == ps && s == s[..k] + s[k..];
    assert Divides([item] + items, qs, s);
  }

  lemma SplitFirst(item: Item, items: seq<Item>, s: string) returns (k: nat)
    requires InLanguage([item] + items, s)
    ensures k <= |s| && Piece(item, s[..k]) && InLanguage(items, s[k..])
  {
    var ps :| Divides([item] + items, ps, s);
    k := |ps[0]|;
    assert s[..k] == ps[0] && s[k..] == Concat(ps[1..]);
    assert ([item] + items)[0] == item;
    assert forall i :: 0 <= i < |items| ==> ([item] + items)[i + 1] == items[i];
    assert Divides(items, ps[1..], s[k..]);
  }

  // ----- what matchhere decides, by the shape of the pattern -----

  lemma HereEmpty(text: string)
    ensures Here("", text)
  {
    NoItems(text[..0]);
  }

  lemma HereDollar(text: string)
    ensures Here("$", text) <==> text == ""
  {
    NoItems(text);
    assert text[..|text|] == text;
  }

  lemma HereStar(re: string, text: string)
    requires |re| > 1 && re[1] == '*'
    ensures Here(re, text) <==> exists k :: 0 <= k <= |text| && AfterStar(re[0], re[2..], text, k)
  {
    hide InLanguage;
    var c, rest := re[0], re[2..];
    if Here(re, text) {
      var j :| 0 <= j <= |text| && (Dollar(re) ==> j == |text|) && InLanguage(Items(re), text[..j]);
      var k := SplitFirst(Many(c), Items(rest), text[..j]);
      assert text[..j][..k] == text[..k] && text[..j][k..] == text[k..][..j - k];
      assert forall i :: 0 <= i < k ==> text[..k][i] == text[i];
      assert AfterStar(c, rest, text, k);
    }
    if k :| 0 <= k <= |text| && AfterStar(c, rest, text, k) {
      var j :| 0 <= j <= |text[k..]| && (Dollar(rest) ==> j == |text[k..]|) && InLanguage(Items(rest), text[k..][..j]);
      assert text[..k + j][..k] == text[..k] && text[..k + j][k..] == text[k..][..j];
      FirstItem(Many(c), Items(rest), text[..k + j], k);
    }
  }

  lemma HereOne(re: string, text: string)
    requires re != "" && re != "$" && !(|re| > 1 && re[1] == '*')
    ensures Here(re, text) <==> text != "" && Fits(re[0], text[0]) && Here(re[1..], text[1..])
  {
    hide InLanguage;
    var c, rest := re[0], re[1..];
    if Here(re, text) {
      var j :| 0 <= j <= |text| && (Dollar(re) ==> j == |text|) && InLanguage(Items(re), text[..j]);
      var k := SplitFirst(One(c), Items(rest), text[..j]);
      assert text[..j][..k] == text[..1] && text[..j][k..] == text[1..][..j - 1];
      assert text[..1][0] == text[0];
    }
    if text != "" && Fits(c, text[0]) && Here(rest, text[1..]) {
      var j :| 0 <= j <= |text[1..]| && (Dollar(rest) ==> j == |text[1..]|) && InLanguage(Items(rest), text[1..][..j]);
      assert text[..1 + j][..1] == [text[0]] && text[..1 + j][1..] == text[1..][..j];
      FirstItem(One(c), Items(rest), text[..1 + j], 1);
    }
  }

  // ----- the code -----

  method MatchHere(re: string, text: string) returns (r: bool)
    ensures r <==> Here(re, text)
    decreases |re|, 0
  {
    hide Here;
    if re == "" {
      HereEmpty(text);
      return true;
    }
    if |re| > 1 && re[1] == '*' {
      HereStar(re, text);
      r := MatchStar(re[0], re[2..], text);
      return;
    }
    if re == "$" {
      HereDollar(text);
      return text == "";
    }
    HereOne(re, text);
    if text != "" && (re[0] == '.' || re[0] == text[0]) {
      r := MatchHere(re[1..], text[1..]);
      return;
    }
    return false;
  }

  method MatchStar(c: char, re: string, text: string) returns (r: bool)
    ensures r <==> exists k :: 0 <= k <= |text| && AfterStar(c, re, text, k)
    decreases |re|, 1
  {
    hide Here;
    var k := 0;
    while true
      invariant 0 <= k <= |text| && AllFit(c, text, k)
      invariant forall i :: 0 <= i < k ==> !AfterStar(c, re, text, i)
      decreases |text| - k
    {
      var found := MatchHere(re, text[k..]);
      if found {
        assert AfterStar(c, re, text, k);
        return true;
      }
      if !(k < |text| && (text[k] == c || c == '.')) { break; }
      k := k + 1;
    }
    assert forall i :: k < i <= |text| ==> !AllFit(c, text, i);
    return false;
  }

  /** Some part of the text is in the pattern's language, from its start after '^', to its end before '$'. */
  ghost predicate Matches(re: string, text: string) {
    var caret := re != "" && re[0] == '^';
    var body := if caret then re[1..] else re;
    exists i, j :: 0 <= i <= j <= |text| && (caret ==> i == 0) && (Dollar(body) ==> j == |text|)
      && InLanguage(Items(body), text[i..j])
  }

  lemma MatchesFrom(re: string, text: string)
    requires !(re != "" && re[0] == '^')
    ensures Matches(re, text) <==> exists i :: 0 <= i <= |text| && Here(re, text[i..])
  {
    if Matches(re, text) {
      var i, j :| 0 <= i <= j <= |text| && (Dollar(re) ==> j == |text|) && InLanguage(Items(re), text[i..j]);
      assert text[i..][..j - i] == text[i..j];
      assert Here(re, text[i..]);
    }
    if i :| 0 <= i <= |text| && Here(re, text[i..]) {
      var j :| 0 <= j <= |text[i..]| && (Dollar(re) ==> j == |text[i..]|) && InLanguage(Items(re), text[i..][..j]);
      assert text[i..][..j] == text[i..i + j];
    }
  }

  lemma MatchesCaret(re: string, text: string)
    requires re != "" && re[0] == '^'
    ensures Matches(re, text) <==> Here(re[1..], text)
  {
    assert forall j :: 0 <= j <= |text| ==> text[0..j] == text[..j];
  }

  method Match(re: string, text: string) returns (r: bool)
    ensures r <==> Matches(re, text)
  {
    hide Here, Matches;
    if re != "" && re[0] == '^' {
      MatchesCaret(re, text);
      r := MatchHere(re[1..], text);
      return;
    }
    MatchesFrom(re, text);
    var i := 0;
    while true
      invariant 0 <= i <= |text|
      invariant forall k :: 0 <= k < i ==> !Here(re, text[k..])
      decreases |text| - i
    {
      r := MatchHere(re, text[i..]);
      if r { return; }
      if i == |text| { break; }
      i := i + 1;
    }
    return false;
  }

  // ----- what the characters mean -----

  /** Plain characters are looked for anywhere. */
  lemma FindsPlain(text: string)
    ensures Matches("ab", text) <==> exists i :: 0 <= i < |text| - 1 && text[i] == 'a' && text[i + 1] == 'b'
  {
    MatchesFrom("ab", text);
    hide Here, Matches;
    if i :| 0 <= i <= |text| && Here("ab", text[i..]) {
      HerePlain(text, i);
    }
    if i :| 0 <= i < |text| - 1 && text[i] == 'a' && text[i + 1] == 'b' {
      HerePlain(text, i);
    }
  }

  lemma HerePlain(text: string, i: nat)
    requires i <= |text|
    ensures Here("ab", text[i..]) <==> i + 1 < |text| && text[i] == 'a' && text[i + 1] == 'b'
  {
    assert "ab"[1..] == "b" && "b"[1..] == "";
    hide Here;
    HereOne("ab", text[i..]);
    if i < |text| {
      HereOne("b", text[i..][1..]);
      if i + 1 < |text| { HereEmpty(text[i..][1..][1..]); }
    }
  }

  /** '^' and '$' anchor, '.' is any character and '*' any number of the character before it. */
  lemma FindsAnchored(text: string)
    ensures Matches("^a.*b$", text) <==> |text| >= 2 && text[0] == 'a' && text[|text| - 1] == 'b'
  {
    MatchesCaret("^a.*b$", text);
    assert "^a.*b$"[1..] == "a.*b$" && "a.*b$"[1..] == ".*b$" && ".*b$"[2..] == "b$" && "b$"[1..] == "$";
    hide Here, Matches;
    HereOne("a.*b$", text);
    if text != "" {
      var rest := text[1..];
      HereStar(".*b$", rest);
      forall k | 0 <= k <= |rest|
        ensures AfterStar('.', "b$", rest, k) <==> k + 1 == |rest| && rest[k] == 'b'
      {
        HereOne("b$", rest[k..]);
        if k < |rest| { HereDollar(rest[k..][1..]); }
      }
    }
  }
}
