/** A line as its sequence of tokens, and how token sequences are spelled. */
module ShellLexer {
  import opened ShellGrammar
  import opened ShellWords

  /** A token with its text; Twice is the sign for appending. */
  datatype Lexeme = Name(w: string) | Sign(c: char) | Twice

  function LexemeOf(s: string, t: Token): Lexeme
    requires t.span.q <= t.span.eq <= |s|
  {
    match t.kind
    case Symbol(c) => Sign(c)
    case Append => Twice
    case _ => Name(s[t.span.q..t.span.eq])
  }

  /** What gettoken returns, called again and again from i on. */
  function Lexemes(s: string, i: nat): seq<Lexeme>
    requires i <= |s|
    decreases |s| - i
  {
    var t := GetToken(s, i);
    if t.kind.EndOfLine? then [] else [LexemeOf(s, t)] + Lexemes(s, t.next)
  }

  /** The functions do not mind white space that was already skipped. */
  lemma SkipAgain(s: string, i: nat)
    requires i <= |s|
    ensures Skip(s, Skip(s, i)) == Skip(s, i)
    ensures GetToken(s, Skip(s, i)) == GetToken(s, i)
    ensures forall toks :: Peek(s, Skip(s, i), toks) == Peek(s, i, toks)
  {
    SkipStays(s, Skip(s, i));
  }

  lemma LexSkip(s: string, i: nat)
    requires i <= |s|
    ensures Lexemes(s, Skip(s, i)) == Lexemes(s, i)
  {
    hide GetToken, Skip, LexemeOf;
    SkipAgain(s, i);
  }

  /** The first token of what is left, as gettoken sees it. */
  lemma LexFirst(s: string, i: nat)
    requires i <= |s|
    ensures var t, xs := GetToken(s, i), Lexemes(s, i);
            && (t.kind.EndOfLine? <==> xs == [])
            && (xs != [] ==> Lexemes(s, t.next) == xs[1..] && xs[0] == LexemeOf(s, t))
            && (t.kind.Word? <==> xs != [] && xs[0].Name?)
            && (xs != [] && xs[0].Name? ==> CleanWord(xs[0].w) && SpanIn(s, t.span) && Cut(s, t.span) == xs[0].w)
            && (t.kind == Symbol('<') <==> xs != [] && xs[0] == Sign('<'))
  {
  }

  /** The token begins with one of the characters. */
  predicate Begins(xs: seq<Lexeme>, toks: string) {
    xs != [] && !xs[0].Name? && (if xs[0].Twice? then '>' in toks else xs[0].c in toks)
  }

  /** peek looks at the first token. */
  lemma PeekIs(s: string, i: nat, toks: string)
    requires i <= |s| && forall c :: c in toks ==> IsSymbol(c)
    ensures Peek(s, i, toks) <==> Begins(Lexemes(s, i), toks)
  {
    var q := Skip(s, i);
    if q < |s| && !IsSymbol(s[q]) {
      assert GetToken(s, i).kind.Word?;
    }
  }

  // ----- spelling -----

  predicate CleanLexeme(x: Lexeme) {
    match x
    case Name(w) => CleanWord(w)
    case Sign(c) => IsSymbol(c)
    case Twice => true
  }

  function Spell(x: Lexeme): (w: string)
    ensures CleanLexeme(x) ==> w != []
  {
    match x
    case Name(w) => w
    case Sign(c) => [c]
    case Twice => ">>"
  }

  /** Side by side the two would be lexed differently. */
  predicate Fuses(x: Lexeme, y: Lexeme) {
    (x.Name? && y.Name?) || (x == Sign('>') && (y == Sign('>') || y.Twice?))
  }

  predicate White(w: string) {
    forall k :: 0 <= k < |w| ==> IsSpace(w[k])
  }

  /** White space to stand before, between and behind the tokens, some of it between tokens that would fuse. */
  predicate Gaps(xs: seq<Lexeme>, gaps: seq<string>) {
    && |gaps| == |xs| + 1
    && (forall k :: 0 <= k < |gaps| ==> White(gaps[k]))
    && (forall k :: 0 < k < |xs| && Fuses(xs[k - 1], xs[k]) ==> gaps[k] != [])
  }

  function Render(xs: seq<Lexeme>, gaps: seq<string>): string
    requires |gaps| == |xs| + 1
  {
    if xs == [] then gaps[0] else gaps[0] + Spell(xs[0]) + Render(xs[1..], gaps[1..])
  }

  lemma {:induction false} SkipOver(s: string, i: nat, j: nat)
    requires i <= j <= |s| && (forall k :: i <= k < j ==> IsSpace(s[k])) && (j < |s| ==> !IsSpace(s[j]))
    ensures Skip(s, i) == j
    decreases j - i
  {
    if i < j {
      SkipOver(s, i + 1, j);
    } else {
      SkipStays(s, i);
    }
  }

  lemma {:induction false} WordEndIs(s: string, i: nat, j: nat)
    requires i <= j <= |s| && (forall k :: i <= k < j ==> !IsDelim(s[k])) && (j < |s| ==> IsDelim(s[j]))
    ensures WordEnd(s, i) == j
    decreases j - i
  {
    if i < j {
      WordEndIs(s, i + 1, j);
    }
  }

  /** What a rendering begins with. */
  lemma RenderBegins(xs: seq<Lexeme>, gaps: seq<string>)
    requires |gaps| == |xs| + 1 && (forall k :: 0 <= k < |gaps| ==> White(gaps[k]))
    requires forall k :: 0 <= k < |xs| ==> CleanLexeme(xs[k])
    ensures var r := Render(xs, gaps);
            r != [] ==> if gaps[0] != [] then IsSpace(r[0]) else xs != [] && CleanLexeme(xs[0]) && r[0] == Spell(xs[0])[0]
  {
    assert White(gaps[0]);
  }

  /** The lexer undoes the spelling, whatever the white space. */
  lemma {:induction false} SpelledIsLexed(s: string, i: nat, xs: seq<Lexeme>, gaps: seq<string>)
    requires i <= |s| && Gaps(xs, gaps) && s[i..] == Render(xs, gaps)
    requires forall k :: 0 <= k < |xs| ==> CleanLexeme(xs[k])
    ensures Lexemes(s, i) == xs
    decreases |xs|
  {
    hide Skip, WordEnd, Render, Lexemes, GetToken;
    var q := i + |gaps[0]|;
    Unrendered(s, i, xs, gaps);
    if xs == [] {
      SkipOver(s, i, q);
      LexEnd(s, i);
    } else {
      var e := q + |Spell(xs[0])|;
      assert Gaps(xs[1..], gaps[1..]);
      SpelledIsLexed(s, e, xs[1..], gaps[1..]);
      if e < |s| {
        NextApart(s, e, xs, gaps);
      }
      TokenFound(s, i, q, xs[0]);
    }
  }

  lemma LexEnd(s: string, i: nat)
    requires i <= |s| && Skip(s, i) == |s|
    ensures Lexemes(s, i) == []
  {
  }

  lemma LexStep(s: string, i: nat, x: Lexeme, e: nat)
    requires i <= |s| && e <= |s|
    requires var t := GetToken(s, i);
             !t.kind.EndOfLine? && LexemeOf(s, t) == x && t.next == Skip(s, e)
    ensures Lexemes(s, i) == [x] + Lexemes(s, Skip(s, e))
  {
  }

  lemma Pieces(s: string, i: nat, g: string, w: string, r: string)
    requires i <= |s| && s[i..] == g + w + r
    ensures var q, e := i + |g|, i + |g| + |w|;
            e <= |s| && s[i..q] == g && s[q..e] == w && s[e..] == r
  {
    var t := g + w + r;
    assert s[i..i + |g|] == t[..|g|];
    assert s[i + |g|..i + |g| + |w|] == t[|g|..|g| + |w|];
    assert s[i + |g| + |w|..] == t[|g| + |w|..];
  }

  lemma AllWhite(s: string, i: nat, q: nat)
    requires i <= q <= |s| && White(s[i..q])
    ensures forall k :: i <= k < q ==> IsSpace(s[k])
  {
    forall k | i <= k < q
      ensures IsSpace(s[k])
    {
      assert s[k] == s[i..q][k - i];
    }
  }

  /** A rendering at i, cut into its first gap, its first token and the rest. */
  lemma Unrendered(s: string, i: nat, xs: seq<Lexeme>, gaps: seq<string>)
    requires i <= |s| && Gaps(xs, gaps) && s[i..] == Render(xs, gaps)
    ensures var q := i + |gaps[0]|;
            && q <= |s| && (forall k :: i <= k < q ==> IsSpace(s[k]))
            && (xs == [] ==> q == |s|)
            && (xs != [] ==>
                  && q + |Spell(xs[0])| <= |s| && s[q..q + |Spell(xs[0])|] == Spell(xs[0])
                  && s[q + |Spell(xs[0])|..] == Render(xs[1..], gaps[1..]))
  {
    var g := gaps[0];
    assert White(g);
    if xs == [] {
      assert s[i..] == s[i..|s|];
    } else {
      Pieces(s, i, g, Spell(xs[0]), Render(xs[1..], gaps[1..]));
    }
    AllWhite(s, i, i + |g|);
  }

  /** The three ways in which a token is read off from q, white space up to q. */
  lemma NameToken(s: string, i: nat, q: nat, w: string)
    requires i <= q && q + |w| <= |s| && Skip(s, i) == q && CleanWord(w) && s[q..q + |w|] == w
    requires q + |w| < |s| ==> IsDelim(s[q + |w|])
    ensures GetToken(s, i) == Token(Word, Span(q, q + |w|), Skip(s, q + |w|))
  {
    hide Skip, WordEnd;
    var e := q + |w|;
    forall k | q <= k < e
      ensures !IsDelim(s[k])
    {
      assert s[k] == s[q..e][k - q] == w[k - q];
    }
    WordEndIs(s, q, e);
    assert !IsDelim(s[q]);
  }

  lemma SignToken(s: string, i: nat, q: nat, c: char)
    requires i <= q < |s| && Skip(s, i) == q && s[q..q + 1] == [c] && IsSymbol(c)
    requires !(c == '>' && q + 1 < |s| && s[q + 1] == '>')
    ensures GetToken(s, i) == Token(Symbol(c), Span(q, q + 1), Skip(s, q + 1))
  {
    hide Skip, WordEnd;
    assert s[q] == s[q..q + 1][0];
  }

  lemma TwiceToken(s: string, i: nat, q: nat)
    requires i <= q && q + 2 <= |s| && Skip(s, i) == q && s[q..q + 2] == ">>"
    ensures GetToken(s, i) == Token(Append, Span(q, q + 2), Skip(s, q + 2))
  {
    hide Skip, WordEnd;
    assert s[q] == s[q..q + 2][0] && s[q + 1] == s[q..q + 2][1];
  }

  /** What follows the first token does not fuse with it. */
  lemma NextApart(s: string, e: nat, xs: seq<Lexeme>, gaps: seq<string>)
    requires e < |s| && Gaps(xs, gaps) && xs != [] && s[e..] == Render(xs[1..], gaps[1..])
    requires forall k :: 0 <= k < |xs| ==> CleanLexeme(xs[k])
    ensures xs[0].Name? ==> IsDelim(s[e])
    ensures xs[0] == Sign('>') ==> s[e] != '>'
  {
    hide Render;
    RenderBegins(xs[1..], gaps[1..]);
    assert s[e] == s[e..][0];
    if |xs| > 1 {
      assert CleanLexeme(xs[1]) && (Fuses(xs[0], xs[1]) ==> gaps[1] != []);
    }
  }

  lemma NotSpace(s: string, q: nat, x: Lexeme)
    requires CleanLexeme(x) && q + |Spell(x)| <= |s| && s[q..q + |Spell(x)|] == Spell(x)
    ensures q < |s| && !IsSpace(s[q])
  {
    assert s[q] == s[q..q + |Spell(x)|][0] == Spell(x)[0];
  }

  lemma TokenRead(s: string, i: nat, q: nat, x: Lexeme)
    requires i <= q <= |s| && Skip(s, i) == q && CleanLexeme(x)
    requires q + |Spell(x)| <= |s| && s[q..q + |Spell(x)|] == Spell(x)
    requires q + |Spell(x)| < |s| ==>
               (x.Name? ==> IsDelim(s[q + |Spell(x)|])) && (x == Sign('>') ==> s[q + |Spell(x)|] != '>')
    ensures var t := GetToken(s, i);
            !t.kind.EndOfLine? && LexemeOf(s, t) == x && t.next == Skip(s, q + |Spell(x)|)
  {
    hide Skip, WordEnd, GetToken, IsDelim, IsSpace, IsSymbol, CleanWord;
    match x
    case Name(w) => NameToken(s, i, q, w);
    case Sign(c) => SignToken(s, i, q, c);
    case Twice => TwiceToken(s, i, q);
  }

  lemma TokenFound(s: string, i: nat, q: nat, x: Lexeme)
    requires i <= q <= |s| && (forall k :: i <= k < q ==> IsSpace(s[k])) && CleanLexeme(x)
    requires q + |Spell(x)| <= |s| && s[q..q + |Spell(x)|] == Spell(x)
    requires q + |Spell(x)| < |s| ==>
               (x.Name? ==> IsDelim(s[q + |Spell(x)|])) && (x == Sign('>') ==> s[q + |Spell(x)|] != '>')
    ensures Lexemes(s, i) == [x] + Lexemes(s, q + |Spell(x)|)
  {
    hide *;
    NotSpace(s, q, x);
    SkipOver(s, i, q);
    TokenRead(s, i, q, x);
    LexStep(s, i, x, q + |Spell(x)|);
    LexSkip(s, q + |Spell(x)|);
  }
}
