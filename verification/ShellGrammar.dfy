/** The lexer and parser of sh.c as functions of the input line and a position in it. */
module ShellGrammar {

  const MAXARGS: nat := 10

  /** Commands; W is how a word is given: a span of the input while parsing, the word itself afterwards. */
  datatype Cmd<W> =
    | Exec(argv: seq<W>)
    | Redir(cmd: Cmd<W>, file: W, out: bool)
    | Pipe(left: Cmd<W>, right: Cmd<W>)
    | List(left: Cmd<W>, right: Cmd<W>)
    | Back(cmd: Cmd<W>)

  datatype Span = Span(q: nat, eq: nat)

  /** A redirection: to or from the file named by the span. */
  datatype Arrow<W> = Arrow(file: W, out: bool)

  datatype Error = MissingFile | NoBlock | MissingParen | Syntax | TooManyArgs | Leftovers

  datatype Result<T> = Ok(value: T, at: nat) | Bad(error: Error)

  predicate IsSpace(c: char) {
    c == ' ' || c == '\t' || c == '\r' || c == '\n' || c as int == 11
  }

  predicate IsSymbol(c: char) {
    c == '<' || c == '|' || c == '>' || c == '&' || c == ';' || c == '(' || c == ')'
  }

  predicate IsDelim(c: char) {
    IsSpace(c) || IsSymbol(c)
  }

  // ----- lexing -----

  function Skip(s: string, i: nat): (j: nat)
    requires i <= |s|
    ensures i <= j <= |s|
    ensures forall k :: i <= k < j ==> IsSpace(s[k])
    ensures j < |s| ==> !IsSpace(s[j])
    decreases |s| - i
  {
    if i < |s| && IsSpace(s[i]) then Skip(s, i + 1) else i
  }

  function WordEnd(s: string, i: nat): (j: nat)
    requires i <= |s|
    ensures i <= j <= |s|
    ensures forall k :: i <= k < j ==> !IsDelim(s[k])
    ensures j < |s| ==> IsDelim(s[j])
    decreases |s| - i
  {
    if i < |s| && !IsDelim(s[i]) then WordEnd(s, i + 1) else i
  }

  datatype Kind = EndOfLine | Symbol(c: char) | Append | Word
  datatype Token = Token(kind: Kind, span: Span, next: nat)

  /** gettoken. */
  function GetToken(s: string, i: nat): (t: Token)
    requires i <= |s|
    ensures i <= t.span.q <= t.span.eq <= t.next <= |s|
    ensures t.kind.EndOfLine? <==> t.span.q == |s|
    ensures !t.kind.EndOfLine? ==> i < t.next
    ensures t.kind.Word? ==> t.span.q < t.span.eq
  {
    var q := Skip(s, i);
    if q == |s| then Token(EndOfLine, Span(q, q), q)
    else if s[q] == '>' && q + 1 < |s| && s[q + 1] == '>' then Token(Append, Span(q, q + 2), Skip(s, q + 2))
    else if IsSymbol(s[q]) then Token(Symbol(s[q]), Span(q, q + 1), Skip(s, q + 1))
    else
      var e := WordEnd(s, q);
      Token(Word, Span(q, e), Skip(s, e))
  }

  /** peek: is the next character past white space one of toks? */
  predicate Peek(s: string, i: nat, toks: string)
    requires i <= |s|
  {
    Skip(s, i) < |s| && s[Skip(s, i)] in toks
  }

  /** The cursor rests on no white space. */
  predicate Settled(s: string, i: nat) {
    i < |s| ==> !IsSpace(s[i])
  }

  // ----- parsing -----

  function Wrap<W>(c: Cmd<W>, arrows: seq<Arrow<W>>): Cmd<W> {
    if arrows == [] then c
    else Redir(Wrap(c, arrows[..|arrows| - 1]), arrows[|arrows| - 1].file, arrows[|arrows| - 1].out)
  }

  /** The redirections that parseredirs finds, in order. */
  function Arrows(s: string, i: nat): (r: Result<seq<Arrow<Span>>>)
    requires i <= |s|
    ensures r.Ok? ==> i <= r.at <= |s| && Settled(s, r.at)
    decreases |s| - i
  {
    if !Peek(s, i, "<>") then Ok([], Skip(s, i))
    else
      var op := GetToken(s, i);
      var f := GetToken(s, op.next);
      if !f.kind.Word? then Bad(MissingFile)
      else
        var rest := Arrows(s, f.next);
        if rest.Bad? then Bad(rest.error) else Ok([Arrow(f.span, op.kind != Symbol('<'))] + rest.value, rest.at)
  }

  /** parseexec's loop: words and redirections up to a separator. */
  function Args(s: string, i: nat, argv: seq<Span>, arrows: seq<Arrow<Span>>): (r: Result<Cmd<Span>>)
    requires i <= |s|
    ensures r.Ok? ==> i <= r.at <= |s| && Settled(s, r.at)
    decreases |s| - i
  {
    if Peek(s, i, "|)&;") then Ok(Wrap(Exec(argv), arrows), Skip(s, i))
    else
      var t := GetToken(s, i);
      if t.kind.EndOfLine? then Ok(Wrap(Exec(argv), arrows), t.next)
      else if !t.kind.Word? then Bad(Syntax)
      else if |argv| + 1 >= MAXARGS then Bad(TooManyArgs)
      else
        var more := Arrows(s, t.next);
        if more.Bad? then Bad(more.error) else Args(s, more.at, argv + [t.span], arrows + more.value)
  }

  function ParseExec(s: string, i: nat): (r: Result<Cmd<Span>>)
    requires i <= |s|
    ensures r.Ok? ==> i <= r.at <= |s| && Settled(s, r.at)
    decreases |s| - i, 1
  {
    if Peek(s, i, "(") then ParseBlock(s, i)
    else
      var a := Arrows(s, i);
      if a.Bad? then Bad(a.error) else Args(s, a.at, [], a.value)
  }

  function ParseBlock(s: string, i: nat): (r: Result<Cmd<Span>>)
    requires i <= |s|
    ensures r.Ok? ==> i <= r.at <= |s| && Settled(s, r.at)
    decreases |s| - i, 0
  {
    if !Peek(s, i, "(") then Bad(NoBlock)
    else
      var open := GetToken(s, i);
      var line := ParseLine(s, open.next);
      if line.Bad? then line
      else if !Peek(s, line.at, ")") then Bad(MissingParen)
      else
        var close := GetToken(s, line.at);
        var a := Arrows(s, close.next);
        if a.Bad? then Bad(a.error) else Ok(Wrap(line.value, a.value), a.at)
  }

  function ParsePipe(s: string, i: nat): (r: Result<Cmd<Span>>)
    requires i <= |s|
    ensures r.Ok? ==> i <= r.at <= |s| && Settled(s, r.at)
    decreases |s| - i, 2
  {
    var l := ParseExec(s, i);
    if l.Bad? || !Peek(s, l.at, "|") then l
    else
      var bar := GetToken(s, l.at);
      var r := ParsePipe(s, bar.next);
      if r.Bad? then r else Ok(Pipe(l.value, r.value), r.at)
  }

  /** The & signs after a pipeline. */
  function Ampersands(s: string, i: nat, c: Cmd<Span>): (r: Result<Cmd<Span>>)
    requires i <= |s|
    ensures r.Ok? && i <= r.at <= |s| && Settled(s, r.at)
    decreases |s| - i
  {
    if !Peek(s, i, "&") then Ok(c, Skip(s, i)) else Ampersands(s, GetToken(s, i).next, Back(c))
  }

  function ParseLine(s: string, i: nat): (r: Result<Cmd<Span>>)
    requires i <= |s|
    ensures r.Ok? ==> i <= r.at <= |s| && Settled(s, r.at)
    decreases |s| - i, 3
  {
    var p := ParsePipe(s, i);
    if p.Bad? then p
    else
      var b := Ampersands(s, p.at, p.value);
      if !Peek(s, b.at, ";") then b
      else
        var semi := GetToken(s, b.at);
        var r := ParseLine(s, semi.next);
        if r.Bad? then r else Ok(List(b.value, r.value), r.at)
  }

  /** parsecmd, up to nulterminate. */
  function ParseCmd(s: string): (r: Result<Cmd<Span>>)
  {
    var line := ParseLine(s, 0);
    if line.Bad? then line else if Skip(s, line.at) != |s| then Bad(Leftovers) else line
  }
}
