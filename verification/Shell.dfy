/** The parser of sh.c as it runs: a cursor that peek and gettoken move, and nulterminate's writes. */
module Shell {
  import opened ShellGrammar
  import opened ShellWords
  import opened ShellLexer
  import opened ShellTokens

  // ----- the functions do not mind white space that was already skipped -----

  lemma ArrowsAgain(s: string, i: nat)
    requires i <= |s|
    ensures Arrows(s, Skip(s, i)) == Arrows(s, i)
  {
    SkipAgain(s, i);
  }

  lemma BlockAgain(s: string, i: nat)
    requires i <= |s|
    ensures ParseBlock(s, Skip(s, i)) == ParseBlock(s, i)
  {
    hide ParseLine, Arrows;
    SkipAgain(s, i);
  }

  /** What redirections already read contribute to the result. */
  function Joined(done: seq<Arrow<Span>>, r: Result<seq<Arrow<Span>>>): Result<seq<Arrow<Span>>> {
    if r.Bad? then r else Ok(done + r.value, r.at)
  }

  lemma JoinedStep(done: seq<Arrow<Span>>, a: Arrow<Span>, r: Result<seq<Arrow<Span>>>)
    ensures Joined(done + [a], r) == Joined(done, if r.Bad? then r else Ok([a] + r.value, r.at))
  {
    if r.Ok? {
      assert done + [a] + r.value == done + ([a] + r.value);
    }
  }

  lemma JoinedNone(r: Result<seq<Arrow<Span>>>)
    ensures Joined([], r) == r
  {
    if r.Ok? {
      assert [] + r.value == r.value;
    }
  }

  /** One more turn of parseredirs' loop, with white space already skipped up to its arrow. */
  lemma ArrowTaken(s: string, i: nat, done: seq<Arrow<Span>>)
    requires i <= |s| && Peek(s, i, "<>")
    ensures var op := GetToken(s, Skip(s, i));
            var f := GetToken(s, op.next);
            && f.next > i
            && (!f.kind.Word? ==> Joined(done, Arrows(s, i)) == Bad(MissingFile))
            && (f.kind.Word? ==>
                  Joined(done + [Arrow(f.span, op.kind != Symbol('<'))], Arrows(s, f.next)) == Joined(done, Arrows(s, i)))
  {
    SkipAgain(s, i);
    var op := GetToken(s, i);
    var f := GetToken(s, op.next);
    JoinedStep(done, Arrow(f.span, op.kind != Symbol('<')), Arrows(s, f.next));
  }

  lemma ArrowsDone(s: string, i: nat, done: seq<Arrow<Span>>)
    requires i <= |s| && !Peek(s, i, "<>")
    ensures Joined(done, Arrows(s, i)) == Ok(done, Skip(s, i))
  {
    assert done + [] == done;
  }

  class Parser {
    const s: string
    var at: nat

    ghost predicate Valid()
      reads this
    {
      at <= |s|
    }

    constructor (s: string)
      ensures Valid() && this.s == s && at == 0
    {
      this.s := s;
      at := 0;
    }

    /** The loop over white space that gettoken and peek share. */
    method SkipSpace(i: nat) returns (j: nat)
      requires i <= |s|
      ensures j == Skip(s, i)
    {
      j := i;
      while j < |s| && IsSpace(s[j])
        invariant i <= j <= |s|
        invariant Skip(s, j) == Skip(s, i)
      {
        j := j + 1;
      }
    }

    method GetTok() returns (t: Token)
      requires Valid()
      modifies this
      ensures Valid() && t == GetToken(s, old(at)) && at == t.next
    {
      var q := SkipSpace(at);
      var kind, e := EndOfLine, q;
      if q < |s| {
        if IsSymbol(s[q]) {
          kind, e := Symbol(s[q]), q + 1;
          if s[q] == '>' && e < |s| && s[e] == '>' {
            kind, e := Append, e + 1;
          }
        } else {
          kind := Word;
          while e < |s| && !IsDelim(s[e])
            invariant q <= e <= |s|
            invariant WordEnd(s, e) == WordEnd(s, q)
          {
            e := e + 1;
          }
        }
      }
      at := SkipSpace(e);
      t := Token(kind, Span(q, e), at);
      SkipStays(s, q);
    }

    method PeekFor(toks: string) returns (b: bool)
      requires Valid()
      modifies this
      ensures Valid() && at == Skip(s, old(at)) && b == Peek(s, old(at), toks)
    {
      at := SkipSpace(at);
      b := at < |s| && s[at] in toks;
    }

    /** parseredirs: the redirections it finds, in the order in which they wrap the command. */
    method ParseRedirs() returns (r: Result<seq<Arrow<Span>>>)
      requires Valid()
      modifies this
      ensures Valid() && r == Arrows(s, old(at)) && (r.Ok? ==> at == r.at)
    {
      hide Arrows, Joined, GetToken, Skip, Peek;
      var done: seq<Arrow<Span>> := [];
      JoinedNone(Arrows(s, at));
      ghost var i := at;
      var more := PeekFor("<>");
      while more
        invariant Valid() && i <= |s| && at == Skip(s, i) && more == Peek(s, i, "<>")
        invariant Joined(done, Arrows(s, i)) == Arrows(s, old(at))
        decreases |s| - i
      {
        ArrowTaken(s, i, done);
        var op := GetTok();
        var f := GetTok();
        if !f.kind.Word? {
          return Bad(MissingFile);
        }
        done := done + [Arrow(f.span, op.kind != Symbol('<'))];
        i := at;
        more := PeekFor("<>");
      }
      ArrowsDone(s, i, done);
      r := Ok(done, at);
    }

    /** parseexec. */
    method Exec() returns (r: Result<Cmd<Span>>)
      requires Valid()
      modifies this
      ensures Valid() && r == ParseExec(s, old(at)) && (r.Ok? ==> at == r.at)
      decreases |s| - at, 1
    {
      ghost var start := at;
      SkipAgain(s, start);
      ArrowsAgain(s, start);
      BlockAgain(s, start);
      var block := PeekFor("(");
      if block {
        r := BlockCmd();
        return;
      }
      var first := ParseRedirs();
      if first.Bad? {
        return Bad(first.error);
      }
      r := Words(first.value);
    }

    /** parseexec's loop; argv has MAXARGS entries and the last one written is the null that ends it. */
    method Words(first: seq<Arrow<Span>>) returns (r: Result<Cmd<Span>>)
      requires Valid()
      modifies this
      ensures Valid() && r == Args(s, old(at), [], first) && (r.Ok? ==> at == r.at)
    {
      var argv: seq<Span>, arrows := [], first;
      ghost var i := at;
      var stop := PeekFor("|)&;");
      while !stop
        invariant Valid() && i <= |s| && at == Skip(s, i) && stop == Peek(s, i, "|)&;") && |argv| < MAXARGS
        invariant Args(s, i, argv, arrows) == Args(s, old(at), [], first)
        decreases |s| - i
      {
        SkipAgain(s, i);
        var t := GetTok();
        if t.kind.EndOfLine? {
          break;
        }
        if !t.kind.Word? {
          return Bad(Syntax);
        }
        assert |argv| < MAXARGS;
        argv := argv + [t.span];
        if |argv| >= MAXARGS {
          return Bad(TooManyArgs);
        }
        var more := ParseRedirs();
        if more.Bad? {
          return Bad(more.error);
        }
        arrows := arrows + more.value;
        i := at;
        stop := PeekFor("|)&;");
      }
      assert |argv| < MAXARGS;
      r := Ok(Wrap(Cmd.Exec(argv), arrows), at);
    }

    /** parseblock. */
    method BlockCmd() returns (r: Result<Cmd<Span>>)
      requires Valid()
      modifies this
      ensures Valid() && r == ParseBlock(s, old(at)) && (r.Ok? ==> at == r.at)
      decreases |s| - at, 0
    {
      hide Arrows, ParseLine;
      ghost var start := at;
      SkipAgain(s, start);
      var open := PeekFor("(");
      if !open {
        return Bad(NoBlock);
      }
      var paren := GetTok();
      r := Line();
      if r.Bad? {
        return;
      }
      SkipStays(s, at);
      var closes := PeekFor(")");
      if !closes {
        return Bad(MissingParen);
      }
      paren := GetTok();
      var arrows := ParseRedirs();
      r := if arrows.Bad? then Bad(arrows.error) else Ok(Wrap(r.value, arrows.value), at);
    }

    /** parsepipe. */
    method PipeCmd() returns (r: Result<Cmd<Span>>)
      requires Valid()
      modifies this
      ensures Valid() && r == ParsePipe(s, old(at)) && (r.Ok? ==> at == r.at)
      decreases |s| - at, 2
    {
      hide ParseExec;
      r := Exec();
      if r.Bad? {
        return;
      }
      SkipStays(s, at);
      var bar := PeekFor("|");
      if bar {
        var tok := GetTok();
        var right := PipeCmd();
        r := if right.Bad? then right else Ok(Cmd.Pipe(r.value, right.value), at);
      }
    }

    /** parseline. */
    method Line() returns (r: Result<Cmd<Span>>)
      requires Valid()
      modifies this
      ensures Valid() && r == ParseLine(s, old(at)) && (r.Ok? ==> at == r.at)
      decreases |s| - at, 3
    {
      hide ParsePipe, Ampersands;
      r := PipeCmd();
      if r.Bad? {
        return;
      }
      var c := Backs(r.value);
      r := Ok(c, at);
      SkipStays(s, at);
      var semi := PeekFor(";");
      if semi {
        var tok := GetTok();
        var right := Line();
        r := if right.Bad? then right else Ok(Cmd.List(c, right.value), at);
      }
    }

    /** parseline's loop over the & signs. */
    method Backs(c: Cmd<Span>) returns (d: Cmd<Span>)
      requires Valid()
      modifies this
      ensures Valid() && Ampersands(s, old(at), c) == Ok(d, at)
    {
      d := c;
      ghost var i := at;
      var more := PeekFor("&");
      while more
        invariant Valid() && i <= |s| && at == Skip(s, i) && more == Peek(s, i, "&")
        invariant Ampersands(s, i, d) == Ampersands(s, old(at), c)
        decreases |s| - i
      {
        SkipAgain(s, i);
        var tok := GetTok();
        d := Cmd.Back(d);
        i := at;
        more := PeekFor("&");
      }
    }
  }

  /** nulterminate: exactly the ends of the tree's words become NUL. */
  method Nulterminate(c: Cmd<Span>, buf: array<char>)
    requires forall k :: k in Ends(c) ==> k < buf.Length
    modifies buf
    ensures buf[..] == Terminated(old(buf[..]), Ends(c))
  {
    match c
    case Exec(argv) =>
      for i := 0 to |argv|
        invariant forall k :: 0 <= k < buf.Length ==>
                                buf[k] == if exists j :: 0 <= j < i && argv[j].eq == k then NUL else old(buf[k])
      {
        assert argv[i].eq in Ends(c);
        buf[argv[i].eq] := NUL;
      }
    case Redir(d, f, _) =>
      assert Ends(c) == Ends(d) + {f.eq};
      Nulterminate(d, buf);
      buf[f.eq] := NUL;
    case Pipe(l, r) =>
      assert Ends(c) == Ends(l) + Ends(r);
      Nulterminate(l, buf);
      Nulterminate(r, buf);
    case List(l, r) =>
      assert Ends(c) == Ends(l) + Ends(r);
      Nulterminate(l, buf);
      Nulterminate(r, buf);
    case Back(d) =>
      assert Ends(c) == Ends(d);
      Nulterminate(d, buf);
  }

  /** strlen. */
  method Strlen(buf: array<char>) returns (n: nat)
    requires NUL in buf[..]
    ensures n < buf.Length && buf[n] == NUL && NUL !in buf[..n]
  {
    n := 0;
    while buf[n] != NUL
      invariant n < buf.Length && NUL !in buf[..n]
      invariant NUL in buf[n..]
      decreases buf.Length - n
    {
      assert buf[n..] == [buf[n]] + buf[n + 1..];
      n := n + 1;
    }
  }

  /** parsecmd on a buffer: a panic leaves the buffer alone, otherwise runcmd sees exactly the parsed words. */
  method ParseCommand(buf: array<char>) returns (r: Result<Cmd<Span>>, ghost s: string)
    requires NUL in buf[..]
    modifies buf
    ensures s + [NUL] <= old(buf[..]) && NUL !in s && r == ParseCmd(s)
    ensures r.Bad? ==> buf[..] == old(buf[..])
    ensures r.Ok? ==> InBounds(s, r.value) && Seen(buf[..], r.value) == Text(s, r.value)
  {
    hide ParseLine, Seen, Text, InBounds, Ends, Skip;
    var n := Strlen(buf);
    var line := buf[..n];
    s := line;
    assert s + [NUL] == buf[..n + 1];
    var p := new Parser(line);
    r := p.Line();
    if r.Ok? {
      SkipStays(s, p.at);
      var rest := p.PeekFor("");
      if p.at != n {
        r := Bad(Leftovers);
      } else {
        NulterminateKeepsTokens(buf[..], s);
        Nulterminate(r.value, buf);
      }
    }
  }
}
