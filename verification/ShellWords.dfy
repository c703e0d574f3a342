/** The words that the spans of a parse tree stand for. */
module ShellWords {
  import opened ShellGrammar

  /** A word the lexer keeps whole. */
  predicate CleanWord(w: string) {
    w != [] && forall i :: 0 <= i < |w| ==> !IsDelim(w[i])
  }

  const WHITESPACE: string := [' ', '\t', '\r', '\n', 11 as char]
  const SYMBOLS: string := "<|>&;()"

  /** White space and symbols are the characters of the two tables of sh.c. */
  lemma Delimiters(c: char)
    ensures IsSpace(c) <==> c in WHITESPACE
    ensures IsSymbol(c) <==> c in SYMBOLS
  {
  }

  predicate SpanIn(s: string, w: Span) {
    w.q <= w.eq <= |s|
  }

  predicate AllIn(s: string, ws: seq<Span>) {
    forall i :: 0 <= i < |ws| ==> SpanIn(s, ws[i])
  }

  predicate InBounds(s: string, c: Cmd<Span>) {
    match c
    case Exec(argv) => AllIn(s, argv)
    case Redir(d, f, _) => InBounds(s, d) && SpanIn(s, f)
    case Pipe(l, r) => InBounds(s, l) && InBounds(s, r)
    case List(l, r) => InBounds(s, l) && InBounds(s, r)
    case Back(d) => InBounds(s, d)
  }

  function Cut(s: string, w: Span): string
    requires SpanIn(s, w)
  {
    s[w.q..w.eq]
  }

  function CutAll(s: string, ws: seq<Span>): (r: seq<string>)
    requires AllIn(s, ws)
  {
    if ws == [] then [] else CutAll(s, ws[..|ws| - 1]) + [Cut(s, ws[|ws| - 1])]
  }

  lemma {:induction false} CutSnoc(s: string, argv: seq<Span>, x: Span)
    requires AllIn(s, argv) && SpanIn(s, x)
    ensures AllIn(s, argv + [x]) && CutAll(s, argv + [x]) == CutAll(s, argv) + [Cut(s, x)]
  {
    assert (argv + [x])[..|argv|] == argv;
  }

  function Text(s: string, c: Cmd<Span>): Cmd<string>
    requires InBounds(s, c)
  {
    match c
    case Exec(argv) => Exec(CutAll(s, argv))
    case Redir(d, f, out) => Redir(Text(s, d), Cut(s, f), out)
    case Pipe(l, r) => Pipe(Text(s, l), Text(s, r))
    case List(l, r) => List(Text(s, l), Text(s, r))
    case Back(d) => Back(Text(s, d))
  }

  lemma SkipStays(s: string, i: nat)
    requires i <= |s| && (i < |s| ==> !IsSpace(s[i]))
    ensures Skip(s, i) == i
  {
  }
}
