/** nulterminate, and why no terminator damages a token. */
module ShellTokens {
  import opened ShellGrammar
  import opened ShellWords
  import opened ShellLexer
  import opened ShellSyntax
  import opened ShellRoundTrip

  const NUL: char := '\0'

  /** The span is a whole word of s: clean characters, ending at a delimiter or at the end. */
  predicate IsToken(s: string, w: Span) {
    w.q < w.eq <= |s| && (forall k :: w.q <= k < w.eq ==> !IsDelim(s[k])) && (w.eq < |s| ==> IsDelim(s[w.eq]))
  }

  predicate AllTokens(s: string, ws: seq<Span>) {
    forall i :: 0 <= i < |ws| ==> IsToken(s, ws[i])
  }

  predicate ArrowTokens(s: string, arrows: seq<Arrow<Span>>) {
    forall i :: 0 <= i < |arrows| ==> IsToken(s, arrows[i].file)
  }

  /** Every span of the tree is a whole word, and no command has more than MAXARGS - 1 of them. */
  predicate OfTokens(s: string, c: Cmd<Span>) {
    match c
    case Exec(argv) => |argv| < MAXARGS && AllTokens(s, argv)
    case Redir(d, f, _) => OfTokens(s, d) && IsToken(s, f)
    case Pipe(l, r) => OfTokens(s, l) && OfTokens(s, r)
    case List(l, r) => OfTokens(s, l) && OfTokens(s, r)
    case Back(d) => OfTokens(s, d)
  }

  lemma WordIsToken(s: string, i: nat)
    requires i <= |s| && GetToken(s, i).kind.Word?
    ensures IsToken(s, GetToken(s, i).span)
  {
  }

  lemma {:induction false} WrapOfTokens(s: string, c: Cmd<Span>, arrows: seq<Arrow<Span>>)
    requires OfTokens(s, c) && ArrowTokens(s, arrows)
    ensures OfTokens(s, Wrap(c, arrows))
    decreases |arrows|
  {
    if arrows != [] {
      WrapOfTokens(s, c, arrows[..|arrows| - 1]);
    }
  }

  lemma {:induction false} ArrowsOfTokens(s: string, i: nat)
    requires i <= |s|
    ensures Arrows(s, i).Ok? ==> ArrowTokens(s, Arrows(s, i).value)
    decreases |s| - i
  {
    if Peek(s, i, "<>") {
      var f := GetToken(s, GetToken(s, i).next);
      if f.kind.Word? {
        WordIsToken(s, GetToken(s, i).next);
        ArrowsOfTokens(s, f.next);
      }
    }
  }

  lemma {:induction false} ArgsOfTokens(s: string, i: nat, argv: seq<Span>, arrows: seq<Arrow<Span>>)
    requires i <= |s| && |argv| < MAXARGS && AllTokens(s, argv) && ArrowTokens(s, arrows)
    ensures Args(s, i, argv, arrows).Ok? ==> OfTokens(s, Args(s, i, argv, arrows).value)
    decreases |s| - i
  {
    hide Wrap, IsToken, GetToken, Arrows, Skip;
    var t := GetToken(s, i);
    WrapOfTokens(s, Exec(argv), arrows);
    if !Peek(s, i, "|)&;") && t.kind.Word? && |argv| + 1 < MAXARGS {
      WordIsToken(s, i);
      ArrowsOfTokens(s, t.next);
      var more := Arrows(s, t.next);
      if more.Ok? {
        ArgsOfTokens(s, more.at, argv + [t.span], arrows + more.value);
      }
    }
  }

  lemma {:induction false} ExecOfTokens(s: string, i: nat)
    requires i <= |s|
    ensures ParseExec(s, i).Ok? ==> OfTokens(s, ParseExec(s, i).value)
    decreases |s| - i, 1
  {
    hide Args, Arrows, Wrap, GetToken, Skip, IsToken;
    if Peek(s, i, "(") {
      BlockOfTokens(s, i);
    } else {
      ArrowsOfTokens(s, i);
      var a := Arrows(s, i);
      if a.Ok? {
        ArgsOfTokens(s, a.at, [], a.value);
      }
    }
  }

  lemma {:induction false} BlockOfTokens(s: string, i: nat)
    requires i <= |s|
    ensures ParseBlock(s, i).Ok? ==> OfTokens(s, ParseBlock(s, i).value)
    decreases |s| - i, 0
  {
    hide Args, Arrows, Wrap, GetToken, Skip, ParseLine, OfTokens, ArrowTokens;
    if Peek(s, i, "(") {
      var line := ParseLine(s, GetToken(s, i).next);
      LineOfTokens(s, GetToken(s, i).next);
      if line.Ok? && Peek(s, line.at, ")") {
        var next := GetToken(s, line.at).next;
        ArrowsOfTokens(s, next);
        if Arrows(s, next).Ok? {
          WrapOfTokens(s, line.value, Arrows(s, next).value);
        }
      }
    }
  }

  lemma {:induction false} PipeOfTokens(s: string, i: nat)
    requires i <= |s|
    ensures ParsePipe(s, i).Ok? ==> OfTokens(s, ParsePipe(s, i).value)
    decreases |s| - i, 2
  {
    hide GetToken, Skip, ParseExec;
    var l := ParseExec(s, i);
    ExecOfTokens(s, i);
    if l.Ok? && Peek(s, l.at, "|") {
      PipeOfTokens(s, GetToken(s, l.at).next);
    }
  }

  lemma {:induction false} BacksOfTokens(s: string, i: nat, c: Cmd<Span>)
    requires i <= |s| && OfTokens(s, c)
    ensures OfTokens(s, Ampersands(s, i, c).value)
    decreases |s| - i
  {
    hide GetToken, Skip;
    if Peek(s, i, "&") {
      BacksOfTokens(s, GetToken(s, i).next, Back(c));
    }
  }

  /** Whatever the line, every word of the tree that parsing it yields is a whole word of the line. */
  lemma {:induction false} LineOfTokens(s: string, i: nat)
    requires i <= |s|
    ensures ParseLine(s, i).Ok? ==> OfTokens(s, ParseLine(s, i).value)
    decreases |s| - i, 3
  {
    hide GetToken, Skip, ParsePipe, Ampersands;
    var p := ParsePipe(s, i);
    PipeOfTokens(s, i);
    if p.Ok? {
      BacksOfTokens(s, p.at, p.value);
      var b := Ampersands(s, p.at, p.value);
      if Peek(s, b.at, ";") {
        LineOfTokens(s, GetToken(s, b.at).next);
      }
    }
  }

  // ----- terminators -----

  /** Where nulterminate writes. */
  function Ends(c: Cmd<Span>): set<nat> {
    match c
    case Exec(argv) => set i | 0 <= i < |argv| :: argv[i].eq
    case Redir(d, f, _) => Ends(d) + {f.eq}
    case Pipe(l, r) => Ends(l) + Ends(r)
    case List(l, r) => Ends(l) + Ends(r)
    case Back(d) => Ends(d)
  }

  function Terminated(b: string, ends: set<nat>): (r: string)
    ensures |r| == |b|
    ensures forall k :: 0 <= k < |b| ==> r[k] == if k in ends then NUL else b[k]
  {
    seq(|b|, k requires 0 <= k < |b| => if k in ends then NUL else b[k])
  }

  /** The C string that begins at b[i]. */
  function CString(b: string, i: nat): string
    decreases |b| - i
  {
    if i < |b| && b[i] != NUL then [b[i]] + CString(b, i + 1) else []
  }

  function CStrings(b: string, ws: seq<Span>): (r: seq<string>) {
    if ws == [] then [] else CStrings(b, ws[..|ws| - 1]) + [CString(b, ws[|ws| - 1].q)]
  }

  /** The tree as runcmd sees it: each word is the C string at its start. */
  function Seen(b: string, c: Cmd<Span>): Cmd<string> {
    match c
    case Exec(argv) => Exec(CStrings(b, argv))
    case Redir(d, f, out) => Redir(Seen(b, d), CString(b, f.q), out)
    case Pipe(l, r) => Pipe(Seen(b, l), Seen(b, r))
    case List(l, r) => List(Seen(b, l), Seen(b, r))
    case Back(d) => Back(Seen(b, d))
  }

  /** Terminators stand only on delimiters of s or at its end. */
  predicate OnDelims(s: string, ends: set<nat>) {
    forall k :: k in ends ==> k <= |s| && (k < |s| ==> IsDelim(s[k]))
  }

  lemma {:induction false} CStringIs(b: string, i: nat, e: nat)
    requires i <= e < |b| && b[e] == NUL && forall k :: i <= k < e ==> b[k] != NUL
    ensures CString(b, i) == b[i..e]
    decreases e - i
  {
    if i < e {
      CStringIs(b, i + 1, e);
      assert b[i..e] == [b[i]] + b[i + 1..e];
    }
  }

  /** b holds the line s, NUL at its end and at the ends. */
  predicate Stands(b: string, s: string, ends: set<nat>) {
    |s| < |b| && forall k :: 0 <= k <= |s| ==> b[k] == if k in ends || k == |s| then NUL else s[k]
  }

  lemma TokenSeen(b: string, s: string, ends: set<nat>, w: Span)
    requires NUL !in s && Stands(b, s, ends) && IsToken(s, w) && OnDelims(s, ends) && w.eq in ends
    ensures CString(b, w.q) == Cut(s, w)
  {
    hide CString;
    CStringIs(b, w.q, w.eq);
    assert b[w.q..w.eq] == s[w.q..w.eq];
  }

  lemma {:induction false} TokensSeen(b: string, s: string, ends: set<nat>, ws: seq<Span>)
    requires NUL !in s && Stands(b, s, ends) && AllTokens(s, ws) && OnDelims(s, ends)
    requires forall i :: 0 <= i < |ws| ==> ws[i].eq in ends
    ensures AllIn(s, ws) && CStrings(b, ws) == CutAll(s, ws)
    decreases |ws|
  {
    hide CString, Stands, Cut;
    if ws != [] {
      TokensSeen(b, s, ends, ws[..|ws| - 1]);
      TokenSeen(b, s, ends, ws[|ws| - 1]);
    }
  }

  lemma {:induction false} EndsOnDelims(s: string, c: Cmd<Span>)
    requires OfTokens(s, c)
    ensures OnDelims(s, Ends(c))
  {
    match c
    case Exec(argv) =>
      forall k | k in Ends(c)
        ensures k <= |s| && (k < |s| ==> IsDelim(s[k]))
      {
        var i :| 0 <= i < |argv| && argv[i].eq == k;
        assert IsToken(s, argv[i]);
      }
    case Redir(d, f, _) => EndsOnDelims(s, d);
    case Pipe(l, r) => EndsOnDelims(s, l); EndsOnDelims(s, r);
    case List(l, r) => EndsOnDelims(s, l); EndsOnDelims(s, r);
    case Back(d) => EndsOnDelims(s, d);
  }

  lemma {:induction false} TreeSeen(b: string, s: string, ends: set<nat>, c: Cmd<Span>)
    requires NUL !in s && Stands(b, s, ends) && OfTokens(s, c) && OnDelims(s, ends) && Ends(c) <= ends
    ensures InBounds(s, c) && Seen(b, c) == Text(s, c)
  {
    hide CString, CStrings, Stands, Cut, CutAll, IsToken, OnDelims;
    match c
    case Exec(argv) =>
      forall i | 0 <= i < |argv|
        ensures argv[i].eq in ends
      {
        assert argv[i].eq in Ends(c);
      }
      TokensSeen(b, s, ends, argv);
    case Redir(d, f, _) =>
      TreeSeen(b, s, ends, d);
      assert f.eq in Ends(c);
      TokenSeen(b, s, ends, f);
      InToken(s, f);
    case Pipe(l, r) => TreeSeen(b, s, ends, l); TreeSeen(b, s, ends, r);
    case List(l, r) => TreeSeen(b, s, ends, l); TreeSeen(b, s, ends, r);
    case Back(d) => TreeSeen(b, s, ends, d);
  }

  lemma InToken(s: string, w: Span)
    requires IsToken(s, w)
    ensures SpanIn(s, w)
  {
  }

  /** After nulterminate every C string of the tree is its token: no terminator lands inside another one. */
  lemma NulterminateKeepsTokens(b: string, s: string)
    requires NUL !in s && s + [NUL] <= b && ParseCmd(s).Ok?
    ensures var c := ParseCmd(s).value;
            InBounds(s, c) && Seen(Terminated(b, Ends(c)), c) == Text(s, c)
            && forall k :: k in Ends(c) ==> k <= |s|
  {
    hide ParseLine, OfTokens, InBounds, Seen, Text, Ends;
    var c := ParseCmd(s).value;
    LineOfTokens(s, 0);
    EndsOnDelims(s, c);
    TreeSeen(Terminated(b, Ends(c)), s, Ends(c), c);
  }

  /** End to end: whatever the white space, what runcmd sees after a line is parsed and terminated is what it means. */
  lemma WrittenIsSeen(x: Syntax, gaps: seq<string>)
    requires IsLine(x) && |gaps| == |Lexed(x)| + 1 && Gaps(Lexed(x), gaps) && NUL !in Render(Lexed(x), gaps)
    ensures var s := Render(Lexed(x), gaps);
            ParseCmd(s).Ok? && var c := ParseCmd(s).value; Seen(Terminated(s + [NUL], Ends(c)), c) == Meaning(x)
  {
    hide ParseCmd, IsLine, Lexed, Meaning, Render, Gaps, Seen, Terminated, Ends, Text, InBounds;
    WrittenParsesBack(x, gaps);
    var s := Render(Lexed(x), gaps);
    NulterminateKeepsTokens(s + [NUL], s);
  }

  /** The same of every printed tree. */
  lemma PrintedIsSeen(t: Cmd<string>)
    requires Clean(t) && NUL !in Print(t)
    ensures var s := Print(t);
            ParseCmd(s).Ok? && var c := ParseCmd(s).value; Seen(Terminated(s + [NUL], Ends(c)), c) == t
  {
    hide ParseCmd, Print, Clean, Seen, Terminated, Ends, Text, InBounds;
    PrintedParsesBack(t);
    NulterminateKeepsTokens(Print(t) + [NUL], Print(t));
  }
}
