/** The regular expression matcher of grep.c. Patterns and texts are C strings without their NUL. */
module Grep {

  // ----- what a pattern means -----

  /** A pattern is a sequence of items: one character, any number of a character, the end of the text. */
  datatype Item = One(c: char) | Many(c: char) | TextEnd

  function Items(re: string): (s: seq<Item>)
  {
    if re == [] then []
    else if |re| >= 2 && re[1] == '*' then [Many(re[0])] + Items(re[2..])
    else if re == "$" then [TextEnd]
    else [One(re[0])] + Items(re[1..])
  }

  predicate Fits(c: char, x: char) {
    c == '.' || c == x
  }

  /** Piece w is what item t may stand for, `rest` being the text after it. */
  ghost predicate PieceOk(t: Item, w: string, rest: string) {
    match t
    case One(c) => |w| == 1 && Fits(c, w[0])
    case Many(c) => forall i :: 0 <= i < |w| ==> Fits(c, w[i])
    case TextEnd => w == [] && rest == []
  }

  /** A reading of the items in the text: the lengths of consecutive pieces, one per item. */
  ghost predicate Reading(items: seq<Item>, lens: seq<nat>, text: string)
    decreases |items|
  {
    && |lens| == |items|
    && (items != [] ==>
          && lens[0] <= |text|
          && PieceOk(items[0], text[..lens[0]], text[lens[0]..])
          && Reading(items[1..], lens[1..], text[lens[0]..]))
  }

  /** The pattern matches at the beginning of the text. */
  ghost predicate MatchesHere(re: string, text: string) {
    exists lens :: Reading(Items(re), lens, text)
  }

  /** The pattern matches somewhere; a leading ^ ties it to the beginning. */
  ghost predicate Matches(re: string, text: string) {
    if re != [] && re[0] == '^' then MatchesHere(re[1..], text)
    else exists i :: 0 <= i <= |text| && MatchesHere(re, text[i..])
  }

  // ----- one item at a time -----

  lemma NoItems(text: string)
    ensures MatchesHere([], text)
  {
    assert Items([]) == [] && Reading(Items([]), [], text);
  }

  /** Reading the first item as a piece of length k leaves the rest of the pattern for the rest of the text. */
  lemma HeadPiece(items: seq<Item>, text: string, k: nat)
    requires items != [] && k <= |text| && PieceOk(items[0], text[..k], text[k..])
    requires exists lens :: Reading(items[1..], lens, text[k..])
    ensures exists lens :: Reading(items, lens, text)
  {
    var lens :| Reading(items[1..], lens, text[k..]);
    assert ([k] + lens)[1..] == lens;
    assert Reading(items, [k] + lens, text);
  }

  lemma HeadRead(items: seq<Item>, text: string) returns (k: nat)
    requires items != [] && exists lens :: Reading(items, lens, text)
    ensures k <= |text| && PieceOk(items[0], text[..k], text[k..])
    ensures exists lens :: Reading(items[1..], lens, text[k..])
  {
    var lens :| Reading(items, lens, text);
    k := lens[0];
    assert Reading(items[1..], lens[1..], text[k..]);
  }

  /** All of the first k characters may be stood for by c. */
  ghost predicate Run(c: char, text: string, k: nat) {
    k <= |text| && forall i :: 0 <= i < k ==> Fits(c, text[i])
  }

  lemma StarUnfold(c: char, re: string, text: string)
    ensures MatchesHere([c, '*'] + re, text) <==> exists k: nat :: Run(c, text, k) && MatchesHere(re, text[k..])
  {
    var items := Items([c, '*'] + re);
    assert ([c, '*'] + re)[2..] == re;
    assert items[0] == Many(c) && items[1..] == Items(re);
    if MatchesHere([c, '*'] + re, text) {
      var k := HeadRead(items, text);
      assert forall i :: 0 <= i < k ==> text[..k][i] == text[i];
      assert Run(c, text, k) && MatchesHere(re, text[k..]);
    }
    if k: nat :| Run(c, text, k) && MatchesHere(re, text[k..]) {
      HeadPiece(items, text, k);
    }
  }

  lemma DollarUnfold(text: string)
    ensures MatchesHere("$", text) <==> text == []
  {
    var items := Items("$");
    assert items == [TextEnd] && items[1..] == [];
    if MatchesHere("$", text) {
      var k := HeadRead(items, text);
      assert k == 0 && text[0..] == text;
    }
    if text == [] {
      assert Reading([], [], text[0..]);
      HeadPiece(items, text, 0);
    }
  }

  lemma CharUnfold(re: string, text: string)
    requires re != [] && !(|re| >= 2 && re[1] == '*') && re != "$"
    ensures MatchesHere(re, text) <==> text != [] && Fits(re[0], text[0]) && MatchesHere(re[1..], text[1..])
  {
    var items := Items(re);
    assert items[0] == One(re[0]) && items[1..] == Items(re[1..]);
    if MatchesHere(re, text) {
      var k := HeadRead(items, text);
      assert k == 1 && text[..1][0] == text[0];
    }
    if text != [] && Fits(re[0], text[0]) && MatchesHere(re[1..], text[1..]) {
      HeadPiece(items, text, 1);
    }
  }

  // ----- the matcher -----

  /** matchhere: sound and complete. */
  method Matchhere(re: string, text: string) returns (found: bool)
    ensures found <==> MatchesHere(re, text)
    decreases |re|, 1
  {
    if re == [] {
      NoItems(text);
      return true;
    }
    if |re| >= 2 && re[1] == '*' {
      assert re == [re[0], '*'] + re[2..];
      found := Matchstar(re[0], re[2..], text);
      return;
    }
    if re[0] == '$' && |re| == 1 {
      assert re == "$";
      DollarUnfold(text);
      return text == [];
    }
    CharUnfold(re, text);
    if text != [] && (re[0] == '.' || re[0] == text[0]) {
      found := Matchhere(re[1..], text[1..]);
      return;
    }
    found := false;
  }

  /** matchstar: its loop tries every run of c, shortest first. */
  method Matchstar(c: char, re: string, text: string) returns (found: bool)
    ensures found <==> MatchesHere([c, '*'] + re, text)
    decreases |re|, 2
  {
    StarUnfold(c, re, text);
    var i := 0;
    while true
      invariant Run(c, text, i)
      invariant forall k :: 0 <= k < i ==> !MatchesHere(re, text[k..])
      decreases |text| - i
    {
      found := Matchhere(re, text[i..]);
      if found {
        return;
      }
      if i == |text| || !(text[i] == c || c == '.') {
        break;
      }
      i := i + 1;
    }
    assert forall k: nat :: Run(c, text, k) ==> k <= i;
    found := false;
  }

  /** match: true exactly when the pattern occurs in the text. */
  method Match(re: string, text: string) returns (found: bool)
    ensures found <==> Matches(re, text)
  {
    if re != [] && re[0] == '^' {
      found := Matchhere(re[1..], text);
      return;
    }
    var i := 0;
    while true
      invariant 0 <= i <= |text|
      invariant forall k :: 0 <= k < i ==> !MatchesHere(re, text[k..])
      decreases |text| - i
    {
      found := Matchhere(re, text[i..]);
      if found {
        return;
      }
      if i == |text| {
        break;
      }
      i := i + 1;
    }
    found := false;
  }
}
