/** The parser of sh.c accepts exactly the command language, and yields what the language means. */
module ShellRoundTrip {
  import opened ShellGrammar
  import opened ShellWords
  import opened ShellLexer
  import opened ShellSyntax

  /** Parsing succeeded with the tree t, and rest is left of the line. */
  ghost predicate Yields(s: string, r: Result<Cmd<Span>>, t: Cmd<string>, rest: seq<Lexeme>) {
    r.Ok? && r.at <= |s| && InBounds(s, r.value) && Text(s, r.value) == t && Lexemes(s, r.at) == rest
  }

  /** The spans of the redirections that were read stand for dirs. */
  ghost predicate Stand(s: string, arrows: seq<Arrow<Span>>, dirs: seq<Redirect>) {
    |arrows| == |dirs|
    && forall k :: 0 <= k < |dirs| ==>
         SpanIn(s, arrows[k].file) && Cut(s, arrows[k].file) == dirs[k].file && arrows[k].out == !dirs[k].way.From?
  }

  lemma {:induction false} WrapText(s: string, c: Cmd<Span>, arrows: seq<Arrow<Span>>, dirs: seq<Redirect>)
    requires InBounds(s, c) && Stand(s, arrows, dirs)
    ensures InBounds(s, Wrap(c, arrows)) && Text(s, Wrap(c, arrows)) == Around(Text(s, c), dirs)
    decreases |arrows|
  {
    hide Cut, SpanIn;
    if arrows != [] {
      var n := |arrows| - 1;
      WrapText(s, c, arrows[..n], dirs[..n]);
      AroundSnoc(Text(s, c), dirs[..n], dirs[n]);
      assert dirs == dirs[..n] + [dirs[n]];
    }
  }

  lemma {:induction false} CutCount(s: string, argv: seq<Span>)
    requires AllIn(s, argv)
    ensures |CutAll(s, argv)| == |argv|
  {
    if argv != [] {
      CutCount(s, argv[..|argv| - 1]);
    }
  }

  /** Nothing follows, or a token that begins with one of the characters. */
  predicate Follows(rest: seq<Lexeme>, toks: string) {
    rest == [] || Begins(rest, toks)
  }

  // ----- what the language has, the parser accepts -----

  lemma {:induction false} DirsParse(s: string, i: nat, dirs: seq<Redirect>, rest: seq<Lexeme>)
    requires i <= |s| && Lexemes(s, i) == LexedDirs(dirs) + rest && !Begins(rest, "<>")
    ensures var a := Arrows(s, i);
            a.Ok? && Stand(s, a.value, dirs) && Lexemes(s, a.at) == rest
    decreases |dirs|
  {
    hide GetToken, Skip, Lexemes, LexemeOf, Cut, Peek;
    PeekIs(s, i, "<>");
    LexFirst(s, i);
    if dirs == [] {
      LexSkip(s, i);
    } else {
      var op := GetToken(s, i);
      LexFirst(s, op.next);
      DirsParse(s, GetToken(s, op.next).next, dirs[1..], rest);
    }
  }

  lemma ArgsEnd(s: string, i: nat, rest: seq<Lexeme>, argv: seq<Span>, arrows: seq<Arrow<Span>>, dirs: seq<Redirect>)
    requires i <= |s| && Lexemes(s, i) == rest && Follows(rest, "|)&;") && AllIn(s, argv) && Stand(s, arrows, dirs)
    ensures Yields(s, Args(s, i, argv, arrows), Around(Exec(CutAll(s, argv)), dirs), rest)
  {
    hide GetToken, Skip, Lexemes, LexemeOf, Cut, Peek, Wrap, CutAll, Stand;
    PeekIs(s, i, "|)&;");
    LexFirst(s, i);
    LexSkip(s, i);
    LexDone(s, i);
    WrapText(s, Exec(argv), arrows, dirs);
  }

  lemma LexDone(s: string, i: nat)
    requires i <= |s|
    ensures GetToken(s, i).kind.EndOfLine? ==> Lexemes(s, GetToken(s, i).next) == []
  {
  }

  lemma {:induction false} ArgsParse(s: string, i: nat, items: seq<Item>, rest: seq<Lexeme>,
                                     argv: seq<Span>, words: seq<string>, arrows: seq<Arrow<Span>>, dirs: seq<Redirect>)
    requires i <= |s| && Lexemes(s, i) == LexedItems(items) + rest && Follows(rest, "|)&;")
    requires items != [] ==> items[0].Arg?
    requires AllIn(s, argv) && CutAll(s, argv) == words && Stand(s, arrows, dirs) && |words| + |ArgsOf(items)| <= 9
    ensures Yields(s, Args(s, i, argv, arrows), Around(Exec(words + ArgsOf(items)), dirs + DirsOf(items)), rest)
    decreases |items|
  {
    hide GetToken, Skip, Lexemes, LexemeOf, Cut, Peek, Wrap, CutAll, Around, Yields, Arrows, LexedDirs, AllIn;
    if items == [] {
      assert LexedItems(items) + rest == rest && words + ArgsOf(items) == words && dirs + DirsOf(items) == dirs;
      ArgsEnd(s, i, rest, argv, arrows, dirs);
    } else {
      var lead, after := LeadDirs(items[1..]), AfterDirs(items[1..]);
      var w := items[0].w;
      var t := GetToken(s, i);
      ArgTaken(s, i, items, rest);
      CutCount(s, argv);
      DirsParse(s, t.next, lead, LexedItems(after) + rest);
      var more := Arrows(s, t.next);
      CutSnoc(s, argv, t.span);
      StandMore(s, arrows, dirs, more.value, lead);
      ArgsParse(s, more.at, after, rest, argv + [t.span], words + [w], arrows + more.value, dirs + lead);
      assert words + [w] + ArgsOf(after) == words + ArgsOf(items);
      assert dirs + lead + DirsOf(after) == dirs + DirsOf(items);
      assert Args(s, i, argv, arrows) == Args(s, more.at, argv + [t.span], arrows + more.value);
    }
  }

  lemma StandMore(s: string, arrows: seq<Arrow<Span>>, dirs: seq<Redirect>, more: seq<Arrow<Span>>, lead: seq<Redirect>)
    requires Stand(s, arrows, dirs) && Stand(s, more, lead)
    ensures Stand(s, arrows + more, dirs + lead)
  {
    hide Cut, SpanIn;
  }

  /** A word and the redirections behind it. */
  lemma ArgTaken(s: string, i: nat, items: seq<Item>, rest: seq<Lexeme>)
    requires i <= |s| && Lexemes(s, i) == LexedItems(items) + rest && Follows(rest, "|)&;")
    requires items != [] && items[0].Arg?
    ensures var t := GetToken(s, i);
            var lead, after := LeadDirs(items[1..]), AfterDirs(items[1..]);
            && !Peek(s, i, "|)&;") && t.kind.Word? && SpanIn(s, t.span) && Cut(s, t.span) == items[0].w
            && Lexemes(s, t.next) == LexedDirs(lead) + (LexedItems(after) + rest)
            && !Begins(LexedItems(after) + rest, "<>")
            && ArgsOf(items) == [items[0].w] + ArgsOf(after) && DirsOf(items) == lead + DirsOf(after)
  {
    hide GetToken, Skip, Lexemes, LexemeOf, Peek, LexedDirs, LeadDirs, AfterDirs, LexedItems, ArgsOf, DirsOf, CleanWord;
    ArgSplit(items, rest);
    PeekIs(s, i, "|)&;");
    LexFirst(s, i);
  }

  lemma ArgSplit(items: seq<Item>, rest: seq<Lexeme>)
    requires Follows(rest, "|)&;") && items != [] && items[0].Arg?
    ensures var lead, after := LeadDirs(items[1..]), AfterDirs(items[1..]);
            && LexedItems(items) + rest == [Name(items[0].w)] + (LexedDirs(lead) + (LexedItems(after) + rest))
            && !Begins(LexedItems(after) + rest, "<>")
            && ArgsOf(items) == [items[0].w] + ArgsOf(after) && DirsOf(items) == lead + DirsOf(after)
  {
    hide LexedDirs, LeadDirs, AfterDirs, LexedItems, ArgsOf, DirsOf;
    var lead, after := LeadDirs(items[1..]), AfterDirs(items[1..]);
    LeadParts(items[1..]);
    ArgFirst(items[0].w, items[1..]);
    SimpleBegins(items[1..], rest);
    assert items == [Arg(items[0].w)] + items[1..];
    var x, y := LexedDirs(lead), LexedItems(after);
    assert [Name(items[0].w)] + (x + y) + rest == [Name(items[0].w)] + (x + (y + rest));
  }

  lemma SimpleParses(s: string, i: nat, items: seq<Item>, rest: seq<Lexeme>)
    requires i <= |s| && Lexemes(s, i) == LexedItems(items) + rest && Follows(rest, "|)&;") && |ArgsOf(items)| <= 9
    ensures Yields(s, ParseExec(s, i), Meaning(Simple(items)), rest)
  {
    hide GetToken, Skip, Lexemes, LexemeOf, Peek, LexedDirs, LeadDirs, AfterDirs, Args, Arrows, Yields, Around;
    var lead, after := LeadDirs(items), AfterDirs(items);
    LeadParts(items);
    PeekIs(s, i, "(");
    SimpleBegins(items, rest);
    assert LexedDirs(lead) + LexedItems(after) + rest == LexedDirs(lead) + (LexedItems(after) + rest);
    DirsParse(s, i, lead, LexedItems(after) + rest);
    var a := Arrows(s, i);
    assert [] + ArgsOf(after) == ArgsOf(after);
    ArgsParse(s, a.at, after, rest, [], [], a.value, lead);
  }

  lemma SimpleBegins(items: seq<Item>, rest: seq<Lexeme>)
    requires Follows(rest, "|)&;")
    ensures !Begins(LexedItems(items) + rest, "(")
    ensures !Begins(LexedItems(AfterDirs(items)) + rest, "<>")
  {
  }

  /** A line in parentheses and the redirections behind it. */
  lemma {:induction false} CommandParses(s: string, i: nat, x: Syntax, rest: seq<Lexeme>)
    requires i <= |s| && IsCommand(x) && Lexemes(s, i) == Lexed(x) + rest && Follows(rest, "|)&;")
    ensures Yields(s, ParseExec(s, i), Meaning(x), rest)
    decreases x, 0
  {
    hide GetToken, Skip, Lexemes, LexemeOf, Peek, Yields, ParseLine, ParseBlock, ParseExec, LexedDirs;
    if x.Simple? {
      SimpleParses(s, i, x.items, rest);
    } else {
      var inner := [Sign(')')] + (LexedDirs(x.dirs) + rest);
      assert Lexed(x) + rest == [Sign('(')] + (Lexed(x.line) + inner);
      LexFirst(s, i);
      LineParses(s, GetToken(s, i).next, x.line, inner);
      ParenParses(s, i, x, rest);
    }
  }

  lemma ParenParses(s: string, i: nat, x: Syntax, rest: seq<Lexeme>)
    requires i <= |s| && x.Paren? && Begins(Lexemes(s, i), "(") && Follows(rest, "|)&;")
    requires Yields(s, ParseLine(s, GetToken(s, i).next), Meaning(x.line), [Sign(')')] + (LexedDirs(x.dirs) + rest))
    ensures Yields(s, ParseExec(s, i), Meaning(x), rest)
  {
    hide GetToken, Skip, Lexemes, LexemeOf, Peek, ParseLine, Arrows, LexedDirs, Wrap, Text, InBounds, Around;
    PeekIs(s, i, "(");
    var line := ParseLine(s, GetToken(s, i).next);
    PeekIs(s, line.at, ")");
    LexFirst(s, line.at);
    var close := GetToken(s, line.at);
    DirsParse(s, close.next, x.dirs, rest);
    WrapText(s, line.value, Arrows(s, close.next).value, x.dirs);
  }

  lemma {:induction false} PipelineParses(s: string, i: nat, x: Syntax, rest: seq<Lexeme>)
    requires i <= |s| && IsPipeline(x) && Lexemes(s, i) == Lexed(x) + rest && Follows(rest, ")&;")
    ensures Yields(s, ParsePipe(s, i), Meaning(x), rest)
    decreases x, 1
  {
    hide GetToken, Skip, Lexemes, LexemeOf, Peek, ParseExec, IsCommand;
    if IsCommand(x) {
      CommandParses(s, i, x, rest);
      PeekIs(s, ParseExec(s, i).at, "|");
    } else {
      var after := [Sign('|')] + (Lexed(x.right) + rest);
      assert Lexed(x) + rest == Lexed(x.left) + after;
      CommandParses(s, i, x.left, after);
      var l := ParseExec(s, i);
      PeekIs(s, l.at, "|");
      LexFirst(s, l.at);
      PipelineParses(s, GetToken(s, l.at).next, x.right, rest);
    }
  }

  /** A pipeline with & signs behind it: where the loop over them stands once it has read those of x. */
  lemma {:induction false} JobParses(s: string, i: nat, x: Syntax, rest: seq<Lexeme>) returns (c: Cmd<Span>, j: nat)
    requires i <= |s| && IsJob(x) && Lexemes(s, i) == Lexed(x) + rest && Follows(rest, ")&;")
    ensures var p := ParsePipe(s, i);
            && p.Ok? && j <= |s| && Ampersands(s, p.at, p.value) == Ampersands(s, j, c)
            && InBounds(s, c) && Text(s, c) == Meaning(x) && Lexemes(s, j) == rest
    decreases x, 2
  {
    hide GetToken, Skip, Lexemes, LexemeOf, Peek, ParsePipe, IsPipeline;
    if IsPipeline(x) {
      PipelineParses(s, i, x, rest);
      c, j := ParsePipe(s, i).value, ParsePipe(s, i).at;
    } else {
      assert Lexed(x) + rest == Lexed(x.line) + ([Sign('&')] + rest);
      c, j := JobParses(s, i, x.line, [Sign('&')] + rest);
      PeekIs(s, j, "&");
      LexFirst(s, j);
      c, j := Back(c), GetToken(s, j).next;
    }
  }

  lemma {:induction false} LineParses(s: string, i: nat, x: Syntax, rest: seq<Lexeme>)
    requires i <= |s| && IsLine(x) && Lexemes(s, i) == Lexed(x) + rest && Follows(rest, ")")
    ensures Yields(s, ParseLine(s, i), Meaning(x), rest)
    decreases x, 3
  {
    hide GetToken, Skip, Lexemes, LexemeOf, Peek, ParsePipe, IsJob;
    if IsJob(x) {
      var c, j := JobParses(s, i, x, rest);
      JobEnds(s, j, c);
      PeekIs(s, Skip(s, j), ";");
    } else {
      var after := [Sign(';')] + (Lexed(x.right) + rest);
      assert Lexed(x) + rest == Lexed(x.left) + after;
      var c, j := JobParses(s, i, x.left, after);
      JobEnds(s, j, c);
      PeekIs(s, Skip(s, j), ";");
      LexFirst(s, Skip(s, j));
      LineParses(s, GetToken(s, Skip(s, j)).next, x.right, rest);
    }
  }

  lemma JobEnds(s: string, j: nat, c: Cmd<Span>)
    requires j <= |s| && !Begins(Lexemes(s, j), "&")
    ensures Ampersands(s, j, c) == Ok(c, Skip(s, j)) && Lexemes(s, Skip(s, j)) == Lexemes(s, j)
  {
    hide Skip, Lexemes, Peek;
    PeekIs(s, j, "&");
    LexSkip(s, j);
  }

  // ----- what the parser accepts, the language has -----

  /** The sign that peek for < or > saw. */
  lemma WayOf(x: Lexeme) returns (w: Way)
    requires Begins([x], "<>")
    ensures WayLexeme(w) == x && (w.From? <==> x == Sign('<'))
  {
    w := if x == Sign('<') then From else if x.Twice? then Onto else To;
  }

  lemma {:induction false} DirsFound(s: string, i: nat) returns (dirs: seq<Redirect>)
    requires i <= |s| && Arrows(s, i).Ok?
    ensures Stand(s, Arrows(s, i).value, dirs) && CleanDirs(dirs)
    ensures Lexemes(s, i) == LexedDirs(dirs) + Lexemes(s, Arrows(s, i).at)
    decreases |s| - i
  {
    hide GetToken, Skip, Lexemes, LexemeOf, Cut, Peek, CleanWord, WayLexeme;
    PeekIs(s, i, "<>");
    LexSkip(s, i);
    dirs := [];
    if Peek(s, i, "<>") {
      var op := GetToken(s, i);
      var f := GetToken(s, op.next);
      LexFirst(s, i);
      LexFirst(s, op.next);
      var way := WayOf(Lexemes(s, i)[0]);
      var r := Redirect(way, Lexemes(s, op.next)[0].w);
      var more := DirsFound(s, f.next);
      dirs := [r] + more;
      DirsFirst(r, more);
      var xs, a, two := Lexemes(s, i), Lexemes(s, Arrows(s, i).at), [WayLexeme(way), Name(r.file)];
      assert xs == [xs[0], xs[1]] + xs[1..][1..];
      assert two + LexedDirs(more) + a == two + (LexedDirs(more) + a);
    }
  }

  lemma {:induction false} ArgsFound(s: string, i: nat, argv: seq<Span>, words: seq<string>,
                                     arrows: seq<Arrow<Span>>, dirs: seq<Redirect>) returns (items: seq<Item>)
    requires i <= |s| && Args(s, i, argv, arrows).Ok?
    requires AllIn(s, argv) && CutAll(s, argv) == words && Stand(s, arrows, dirs) && |words| <= 9
    ensures CleanItems(items) && |words| + |ArgsOf(items)| <= 9
    ensures var r := Args(s, i, argv, arrows);
            && Lexemes(s, i) == LexedItems(items) + Lexemes(s, r.at)
            && Yields(s, r, Around(Exec(words + ArgsOf(items)), dirs + DirsOf(items)), Lexemes(s, r.at))
    decreases |s| - i
  {
    hide GetToken, Skip, Lexemes, LexemeOf, Cut, Peek, Wrap, CutAll, Around, Yields, Arrows, LexedDirs, AllIn, CleanWord,
         CleanItems, CleanDirs, LexedItems, ArgsOf, DirsOf;
    CutCount(s, argv);
    LexFirst(s, i);
    NoItems();
    var t := GetToken(s, i);
    if Peek(s, i, "|)&;") || t.kind.EndOfLine? {
      items := [];
      PeekIs(s, i, "|)&;");
      ArgsEnd(s, i, Lexemes(s, i), argv, arrows, dirs);
      EndStays(s, i, argv, arrows);
      assert words + [] == words && dirs + [] == dirs;
      assert [] + Lexemes(s, i) == Lexemes(s, i);
    } else {
      var w := Lexemes(s, i)[0].w;
      var lead := DirsFound(s, t.next);
      var more := Arrows(s, t.next);
      CutSnoc(s, argv, t.span);
      StandMore(s, arrows, dirs, more.value, lead);
      var after := ArgsFound(s, more.at, argv + [t.span], words + [w], arrows + more.value, dirs + lead);
      items := [Arg(w)] + (DirItems(lead) + after);
      ArgJoins(w, lead, after, Lexemes(s, more.at), Lexemes(s, Args(s, i, argv, arrows).at));
      assert Lexemes(s, i) == [Name(w)] + Lexemes(s, t.next);
      assert words + [w] + ArgsOf(after) == words + ArgsOf(items);
      assert dirs + lead + DirsOf(after) == dirs + DirsOf(items);
    }
  }

  lemma NoItems()
    ensures LexedItems([]) == [] && ArgsOf([]) == [] && DirsOf([]) == [] && CleanItems([])
  {
  }

  lemma EndStays(s: string, i: nat, argv: seq<Span>, arrows: seq<Arrow<Span>>)
    requires i <= |s| && (Peek(s, i, "|)&;") || GetToken(s, i).kind.EndOfLine?)
    ensures Args(s, i, argv, arrows).Ok? && Lexemes(s, Args(s, i, argv, arrows).at) == Lexemes(s, i)
  {
    hide Wrap, GetToken, Skip, Lexemes, LexemeOf, Peek;
    LexSkip(s, i);
    LexDone(s, i);
    LexFirst(s, i);
  }

  lemma ArgJoins(w: string, lead: seq<Redirect>, after: seq<Item>, mid: seq<Lexeme>, rest: seq<Lexeme>)
    requires CleanWord(w) && CleanDirs(lead) && CleanItems(after) && mid == LexedItems(after) + rest
    ensures var items := [Arg(w)] + (DirItems(lead) + after);
            && LexedItems(items) + rest == [Name(w)] + (LexedDirs(lead) + mid)
            && ArgsOf(items) == [w] + ArgsOf(after) && DirsOf(items) == lead + DirsOf(after) && CleanItems(items)
  {
    hide LexedDirs, LexedItems, ArgsOf, DirsOf, CleanWord;
    ArgFirst(w, DirItems(lead) + after);
    DirsThen(lead, after);
    var x, y := LexedDirs(lead), LexedItems(after);
    assert [Name(w)] + (x + y) + rest == [Name(w)] + (x + (y + rest));
  }

  lemma SimpleFound(s: string, i: nat) returns (x: Syntax)
    requires i <= |s| && !Peek(s, i, "(") && ParseExec(s, i).Ok?
    ensures IsCommand(x)
    ensures var r := ParseExec(s, i);
            Lexemes(s, i) == Lexed(x) + Lexemes(s, r.at) && Yields(s, r, Meaning(x), Lexemes(s, r.at))
  {
    hide GetToken, Skip, Lexemes, LexemeOf, Peek, LexedDirs, Args, Arrows, Yields, Around, CleanWord, LexedItems, ArgsOf,
         DirsOf, Stand, CleanItems, CleanDirs;
    var lead := DirsFound(s, i);
    var a := Arrows(s, i);
    var after := ArgsFound(s, a.at, [], [], a.value, lead);
    x := Simple(DirItems(lead) + after);
    DirsThen(lead, after);
    DirsClean(lead, after);
    assert [] + ArgsOf(after) == ArgsOf(after);
    var rest := Lexemes(s, ParseExec(s, i).at);
    assert LexedDirs(lead) + LexedItems(after) + rest == LexedDirs(lead) + (LexedItems(after) + rest);
  }

  lemma DirsClean(lead: seq<Redirect>, after: seq<Item>)
    requires CleanDirs(lead) && CleanItems(after)
    ensures CleanItems(DirItems(lead) + after)
  {
    hide CleanWord;
  }

  lemma {:induction false} CommandFound(s: string, i: nat) returns (x: Syntax)
    requires i <= |s| && ParseExec(s, i).Ok?
    ensures IsCommand(x)
    ensures var r := ParseExec(s, i);
            Lexemes(s, i) == Lexed(x) + Lexemes(s, r.at) && Yields(s, r, Meaning(x), Lexemes(s, r.at))
    decreases |s| - i, 1
  {
    hide GetToken, Skip, Lexemes, LexemeOf, Peek, Yields, ParseLine, Lexed, Meaning, IsLine, Arrows, Wrap, Stand,
         CleanDirs, LexedDirs, Args;
    if !Peek(s, i, "(") {
      x := SimpleFound(s, i);
    } else {
      LexFirst(s, i);
      PeekIs(s, i, "(");
      var open := GetToken(s, i);
      var inner := LineFound(s, open.next);
      var line := ParseLine(s, open.next);
      PeekIs(s, line.at, ")");
      LexFirst(s, line.at);
      var close := GetToken(s, line.at);
      var dirs := DirsFound(s, close.next);
      x := Paren(inner, dirs);
      ParenFound(s, i, inner, dirs);
    }
  }

  lemma ParenFound(s: string, i: nat, inner: Syntax, dirs: seq<Redirect>)
    requires i <= |s| && Begins(Lexemes(s, i), "(") && ParseExec(s, i).Ok?
    requires var line := ParseLine(s, GetToken(s, i).next);
             && line.Ok? && Yields(s, line, Meaning(inner), Lexemes(s, line.at))
             && Lexemes(s, GetToken(s, i).next) == Lexed(inner) + Lexemes(s, line.at)
             && Begins(Lexemes(s, line.at), ")")
             && var a := Arrows(s, GetToken(s, line.at).next);
                && a.Ok? && Stand(s, a.value, dirs)
                && Lexemes(s, GetToken(s, line.at).next) == LexedDirs(dirs) + Lexemes(s, a.at)
    ensures var r := ParseExec(s, i);
            && Lexemes(s, i) == Lexed(Paren(inner, dirs)) + Lexemes(s, r.at)
            && Yields(s, r, Meaning(Paren(inner, dirs)), Lexemes(s, r.at))
  {
    hide GetToken, Skip, Lexemes, LexemeOf, Peek, ParseLine, Arrows, LexedDirs, Wrap, Text, InBounds, Around, Stand;
    PeekIs(s, i, "(");
    LexFirst(s, i);
    var line := ParseLine(s, GetToken(s, i).next);
    PeekIs(s, line.at, ")");
    LexFirst(s, line.at);
    var a := Arrows(s, GetToken(s, line.at).next);
    WrapText(s, line.value, a.value, dirs);
    var rest := Lexemes(s, a.at);
    assert Lexemes(s, i) == [Sign('(')] + (Lexed(inner) + ([Sign(')')] + (LexedDirs(dirs) + rest)));
    assert [Sign('(')] + (Lexed(inner) + ([Sign(')')] + (LexedDirs(dirs) + rest)))
        == [Sign('(')] + Lexed(inner) + [Sign(')')] + LexedDirs(dirs) + rest;
  }

  lemma {:induction false} PipelineFound(s: string, i: nat) returns (x: Syntax)
    requires i <= |s| && ParsePipe(s, i).Ok?
    ensures IsPipeline(x)
    ensures var r := ParsePipe(s, i);
            Lexemes(s, i) == Lexed(x) + Lexemes(s, r.at) && Yields(s, r, Meaning(x), Lexemes(s, r.at))
    decreases |s| - i, 2
  {
    hide GetToken, Skip, Lexemes, LexemeOf, Peek, ParseExec, IsCommand;
    x := CommandFound(s, i);
    var l := ParseExec(s, i);
    if Peek(s, l.at, "|") {
      PeekIs(s, l.at, "|");
      LexFirst(s, l.at);
      var y := PipelineFound(s, GetToken(s, l.at).next);
      var rest := Lexemes(s, ParsePipe(s, i).at);
      assert Lexed(x) + ([Sign('|')] + (Lexed(y) + rest)) == Lexed(x) + [Sign('|')] + Lexed(y) + rest;
      assert Lexemes(s, l.at) == [Sign('|')] + (Lexed(y) + rest);
      x := Piped(x, y);
    }
  }

  lemma {:induction false} JobFound(s: string, i: nat, j: nat, c: Cmd<Span>, x: Syntax) returns (y: Syntax)
    requires i <= |s| && j <= |s| && IsJob(x) && InBounds(s, c) && Text(s, c) == Meaning(x)
    requires Lexemes(s, i) == Lexed(x) + Lexemes(s, j)
    ensures var r := Ampersands(s, j, c);
            && IsJob(y) && Lexemes(s, i) == Lexed(y) + Lexemes(s, r.at) && Yields(s, r, Meaning(y), Lexemes(s, r.at))
    decreases |s| - j
  {
    hide GetToken, Skip, Lexemes, LexemeOf, Peek, IsPipeline;
    PeekIs(s, j, "&");
    if !Peek(s, j, "&") {
      LexSkip(s, j);
      y := x;
    } else {
      LexFirst(s, j);
      var k := GetToken(s, j).next;
      assert Lexemes(s, j) == [Sign('&')] + Lexemes(s, k);
      assert Lexed(x) + ([Sign('&')] + Lexemes(s, k)) == Lexed(Behind(x)) + Lexemes(s, k);
      y := JobFound(s, i, k, Back(c), Behind(x));
    }
  }

  lemma {:induction false} LineFound(s: string, i: nat) returns (x: Syntax)
    requires i <= |s| && ParseLine(s, i).Ok?
    ensures IsLine(x)
    ensures var r := ParseLine(s, i);
            Lexemes(s, i) == Lexed(x) + Lexemes(s, r.at) && Yields(s, r, Meaning(x), Lexemes(s, r.at))
    decreases |s| - i, 3
  {
    hide GetToken, Skip, Lexemes, LexemeOf, Peek, ParsePipe, IsPipeline, Ampersands;
    x := PipelineFound(s, i);
    var p := ParsePipe(s, i);
    x := JobFound(s, i, p.at, p.value, x);
    var b := Ampersands(s, p.at, p.value);
    if Peek(s, b.at, ";") {
      PeekIs(s, b.at, ";");
      LexFirst(s, b.at);
      var y := LineFound(s, GetToken(s, b.at).next);
      var rest := Lexemes(s, ParseLine(s, i).at);
      assert Lexed(x) + ([Sign(';')] + (Lexed(y) + rest)) == Lexed(x) + [Sign(';')] + Lexed(y) + rest;
      assert Lexemes(s, b.at) == [Sign(';')] + (Lexed(y) + rest);
      x := Then(x, y);
    }
  }

  // ----- the language of parsecmd -----

  /** parsecmd accepts the line, and its tree stands for t. */
  ghost predicate Parses(s: string, t: Cmd<string>) {
    ParseCmd(s).Ok? && InBounds(s, ParseCmd(s).value) && Text(s, ParseCmd(s).value) == t
  }

  /** The tokens of the line are written x, which means t. */
  ghost predicate Writes(s: string, x: Syntax, t: Cmd<string>) {
    IsLine(x) && Lexed(x) == Lexemes(s, 0) && Meaning(x) == t
  }

  lemma AllRead(s: string, i: nat)
    requires i <= |s|
    ensures Skip(s, i) == |s| <==> Lexemes(s, i) == []
  {
  }

  /** The parser accepts exactly the language, and gives each line its meaning. */
  lemma ParsesExactlyTheLanguage(s: string, t: Cmd<string>)
    ensures Parses(s, t) <==> exists x :: Writes(s, x, t)
  {
    hide Lexemes, Lexed, Meaning, IsLine, ParseLine, Skip, Text, InBounds;
    if x :| Writes(s, x, t) {
      assert Lexed(x) + [] == Lexed(x);
      LineParses(s, 0, x, []);
      AllRead(s, ParseLine(s, 0).at);
    }
    if Parses(s, t) {
      var x := LineFound(s, 0);
      AllRead(s, ParseLine(s, 0).at);
      assert Lexed(x) + [] == Lexed(x);
      assert Writes(s, x, t);
    }
  }

  /** Written out with any white space, a line parses as what it means. */
  lemma WrittenParsesBack(x: Syntax, gaps: seq<string>)
    requires IsLine(x) && |gaps| == |Lexed(x)| + 1 && Gaps(Lexed(x), gaps)
    ensures Parses(Render(Lexed(x), gaps), Meaning(x))
  {
    hide *;
    var s := Render(Lexed(x), gaps);
    LineClean(x);
    assert s[0..] == s;
    SpelledIsLexed(s, 0, Lexed(x), gaps);
    IsWritten(s, x);
    ParsesExactlyTheLanguage(s, Meaning(x));
  }

  lemma IsWritten(s: string, x: Syntax)
    requires IsLine(x) && Lexed(x) == Lexemes(s, 0)
    ensures Writes(s, x, Meaning(x))
  {
  }

  predicate CleanLexemes(xs: seq<Lexeme>) {
    forall k :: 0 <= k < |xs| ==> CleanLexeme(xs[k])
  }

  lemma {:induction false} DirsLexClean(dirs: seq<Redirect>)
    requires CleanDirs(dirs)
    ensures CleanLexemes(LexedDirs(dirs))
    decreases |dirs|
  {
    hide CleanWord;
    if dirs != [] {
      DirsLexClean(dirs[1..]);
    }
  }

  lemma {:induction false} ItemsLexClean(items: seq<Item>)
    requires CleanItems(items)
    ensures CleanLexemes(LexedItems(items))
    decreases |items|
  {
    hide CleanWord;
    if items != [] {
      assert forall k :: 0 <= k < |items| - 1 ==> items[1..][k] == items[k + 1];
      ItemsLexClean(items[1..]);
    }
  }

  lemma {:induction false} LineClean(x: Syntax)
    requires IsLine(x)
    ensures forall k :: 0 <= k < |Lexed(x)| ==> CleanLexeme(Lexed(x)[k])
  {
    hide CleanWord, LexedDirs, LexedItems, CleanItems, CleanDirs;
    Upward(x);
    match x
    case Simple(items) => ItemsLexClean(items);
    case Paren(line, dirs) => LineClean(line); DirsLexClean(dirs);
    case Piped(l, r) => Upward(l); Upward(r); LineClean(l); LineClean(r);
    case Behind(l) => Upward(l); LineClean(l);
    case Then(l, r) => Upward(l); LineClean(l); LineClean(r);
  }

  /** Commands are pipelines, pipelines jobs, and jobs lines. */
  lemma Upward(x: Syntax)
    ensures IsCommand(x) ==> IsPipeline(x)
    ensures IsPipeline(x) ==> IsJob(x)
    ensures IsJob(x) ==> IsLine(x)
    ensures IsLine(x) && !x.Then? ==> IsJob(x)
    ensures IsJob(x) && !x.Behind? ==> IsPipeline(x)
    ensures IsPipeline(x) && !x.Piped? ==> IsCommand(x)
  {
  }

  // ----- every tree can be written -----

  predicate Clean(t: Cmd<string>) {
    match t
    case Exec(argv) => |argv| <= 9 && forall i :: 0 <= i < |argv| ==> CleanWord(argv[i])
    case Redir(c, f, _) => Clean(c) && CleanWord(f)
    case Pipe(l, r) => Clean(l) && Clean(r)
    case List(l, r) => Clean(l) && Clean(r)
    case Back(c) => Clean(c)
  }

  function ArgItems(ws: seq<string>): (items: seq<Item>)
    ensures |items| == |ws| && forall k :: 0 <= k < |ws| ==> items[k] == Arg(ws[k])
  {
    seq(|ws|, k requires 0 <= k < |ws| => Arg(ws[k]))
  }

  /** A way to write the tree t, parentheses around everything inside. */
  function Writing(t: Cmd<string>): Syntax {
    match t
    case Exec(argv) => Simple(ArgItems(argv))
    case Redir(c, f, out) => Paren(Writing(c), [Redirect(if out then To else From, f)])
    case Pipe(l, r) => Piped(Paren(Writing(l), []), Paren(Writing(r), []))
    case List(l, r) => Then(Paren(Writing(l), []), Paren(Writing(r), []))
    case Back(c) => Behind(Paren(Writing(c), []))
  }

  lemma {:induction false} OnlyArgs(ws: seq<string>)
    ensures ArgsOf(ArgItems(ws)) == ws && DirsOf(ArgItems(ws)) == []
    decreases |ws|
  {
    if ws != [] {
      OnlyArgs(ws[1..]);
      ArgFirst(ws[0], ArgItems(ws[1..]));
      assert ArgItems(ws) == [Arg(ws[0])] + ArgItems(ws[1..]);
      assert ws == [ws[0]] + ws[1..];
    }
  }

  lemma {:induction false} WritingMeans(t: Cmd<string>)
    requires Clean(t)
    ensures IsLine(Writing(t)) && Meaning(Writing(t)) == t
  {
    hide CleanWord, ArgsOf, DirsOf, ArgItems;
    match t
    case Exec(argv) =>
      OnlyArgs(argv);
      Upward(Writing(t));
    case Redir(c, f, out) =>
      WritingMeans(c);
      var r := Redirect(if out then To else From, f);
      assert [] + [r] == [r];
      AroundSnoc(c, [], r);
      Upward(Paren(Writing(c), [r]));
    case Pipe(l, r) =>
      WritingMeans(l);
      WritingMeans(r);
      Upward(Paren(Writing(r), []));
      assert IsCommand(Paren(Writing(l), [])) && IsPipeline(Paren(Writing(r), []));
      Upward(Writing(t));
    case List(l, r) =>
      WritingMeans(l);
      WritingMeans(r);
      Upward(Paren(Writing(l), []));
      Upward(Paren(Writing(r), []));
    case Back(c) =>
      WritingMeans(c);
      Upward(Paren(Writing(c), []));
      Upward(Writing(t));
  }

  function Blanks(n: nat): (gaps: seq<string>)
    ensures |gaps| == n && forall k :: 0 <= k < n ==> gaps[k] == " "
  {
    seq(n, _ => " ")
  }

  function Print(t: Cmd<string>): string {
    var xs := Lexed(Writing(t));
    Render(xs, Blanks(|xs| + 1))
  }

  /** Every tree of clean words, at most nine to a command, can be written so that it parses back. */
  lemma PrintedParsesBack(t: Cmd<string>)
    requires Clean(t)
    ensures Parses(Print(t), t)
  {
    hide Parses, Lexed, Render, IsLine, Writing;
    WritingMeans(t);
    WrittenParsesBack(Writing(t), Blanks(|Lexed(Writing(t))| + 1));
  }
}
