/** The command language of the shell: its syntax, how it is written in tokens and which command tree it means. */
module ShellSyntax {
  import opened ShellGrammar
  import opened ShellWords
  import opened ShellLexer

  datatype Way = From | To | Onto

  /** <file, >file or >>file. */
  datatype Redirect = Redirect(way: Way, file: string)

  /** A simple command is words and redirections in any order. */
  datatype Item = Arg(w: string) | Dir(r: Redirect)

  datatype Syntax =
    | Simple(items: seq<Item>)
    | Paren(line: Syntax, dirs: seq<Redirect>)
    | Piped(left: Syntax, right: Syntax)
    | Behind(line: Syntax)
    | Then(left: Syntax, right: Syntax)

  // ----- which of them are commands, pipelines and lines -----

  predicate CleanDirs(dirs: seq<Redirect>) {
    forall k :: 0 <= k < |dirs| ==> CleanWord(dirs[k].file)
  }

  predicate CleanItems(items: seq<Item>) {
    forall k :: 0 <= k < |items| ==> CleanWord(if items[k].Arg? then items[k].w else items[k].r.file)
  }

  predicate IsCommand(x: Syntax)
    decreases x, 0
  {
    (x.Simple? && CleanItems(x.items) && |ArgsOf(x.items)| <= 9) || (x.Paren? && IsLine(x.line) && CleanDirs(x.dirs))
  }

  predicate IsPipeline(x: Syntax)
    decreases x, 1
  {
    IsCommand(x) || (x.Piped? && IsCommand(x.left) && IsPipeline(x.right))
  }

  predicate IsJob(x: Syntax)
    decreases x, 2
  {
    IsPipeline(x) || (x.Behind? && IsJob(x.line))
  }

  predicate IsLine(x: Syntax)
    decreases x, 3
  {
    IsJob(x) || (x.Then? && IsJob(x.left) && IsLine(x.right))
  }

  // ----- tokens -----

  function WayLexeme(w: Way): Lexeme {
    match w
    case From => Sign('<')
    case To => Sign('>')
    case Onto => Twice
  }

  function LexedDirs(dirs: seq<Redirect>): seq<Lexeme> {
    if dirs == [] then [] else [WayLexeme(dirs[0].way), Name(dirs[0].file)] + LexedDirs(dirs[1..])
  }

  function LexedItems(items: seq<Item>): seq<Lexeme> {
    if items == [] then []
    else (match items[0] case Arg(w) => [Name(w)] case Dir(r) => [WayLexeme(r.way), Name(r.file)])
         + LexedItems(items[1..])
  }

  function Lexed(x: Syntax): seq<Lexeme> {
    match x
    case Simple(items) => LexedItems(items)
    case Paren(line, dirs) => [Sign('(')] + Lexed(line) + [Sign(')')] + LexedDirs(dirs)
    case Piped(l, r) => Lexed(l) + [Sign('|')] + Lexed(r)
    case Behind(l) => Lexed(l) + [Sign('&')]
    case Then(l, r) => Lexed(l) + [Sign(';')] + Lexed(r)
  }

  // ----- meaning -----

  function ArgsOf(items: seq<Item>): seq<string> {
    if items == [] then []
    else (match items[0] case Arg(w) => [w] case Dir(_) => []) + ArgsOf(items[1..])
  }

  function DirsOf(items: seq<Item>): seq<Redirect> {
    if items == [] then []
    else (match items[0] case Arg(_) => [] case Dir(r) => [r]) + DirsOf(items[1..])
  }

  /** The command with the redirections around it, the first one innermost. */
  function Around(c: Cmd<string>, dirs: seq<Redirect>): Cmd<string>
    decreases |dirs|
  {
    if dirs == [] then c else Around(Redir(c, dirs[0].file, !dirs[0].way.From?), dirs[1..])
  }

  function Meaning(x: Syntax): Cmd<string> {
    match x
    case Simple(items) => Around(Exec(ArgsOf(items)), DirsOf(items))
    case Paren(line, dirs) => Around(Meaning(line), dirs)
    case Piped(l, r) => Pipe(Meaning(l), Meaning(r))
    case Behind(l) => Back(Meaning(l))
    case Then(l, r) => List(Meaning(l), Meaning(r))
  }

  // ----- a simple command, taken apart -----

  /** The redirections that items begins with, and what follows them. */
  function LeadDirs(items: seq<Item>): seq<Redirect> {
    if items == [] || items[0].Arg? then [] else [items[0].r] + LeadDirs(items[1..])
  }

  function AfterDirs(items: seq<Item>): (r: seq<Item>)
    ensures |r| <= |items| && (r != [] ==> r[0].Arg?)
  {
    if items == [] || items[0].Arg? then items else AfterDirs(items[1..])
  }

  /** Items made of redirections alone. */
  function DirItems(dirs: seq<Redirect>): (items: seq<Item>)
    ensures |items| == |dirs| && forall k :: 0 <= k < |dirs| ==> items[k] == Dir(dirs[k])
  {
    seq(|dirs|, k requires 0 <= k < |dirs| => Dir(dirs[k]))
  }

  lemma DirFirst(r: Redirect, items: seq<Item>)
    ensures LexedItems([Dir(r)] + items) == [WayLexeme(r.way), Name(r.file)] + LexedItems(items)
    ensures ArgsOf([Dir(r)] + items) == ArgsOf(items) && DirsOf([Dir(r)] + items) == [r] + DirsOf(items)
  {
    assert ([Dir(r)] + items)[1..] == items;
  }

  lemma ArgFirst(w: string, items: seq<Item>)
    ensures LexedItems([Arg(w)] + items) == [Name(w)] + LexedItems(items)
    ensures ArgsOf([Arg(w)] + items) == [w] + ArgsOf(items) && DirsOf([Arg(w)] + items) == DirsOf(items)
  {
    assert ([Arg(w)] + items)[1..] == items;
  }

  lemma DirsFirst(r: Redirect, dirs: seq<Redirect>)
    ensures LexedDirs([r] + dirs) == [WayLexeme(r.way), Name(r.file)] + LexedDirs(dirs)
  {
    assert ([r] + dirs)[1..] == dirs;
  }

  lemma {:induction false} DirsThen(dirs: seq<Redirect>, items: seq<Item>)
    ensures LexedItems(DirItems(dirs) + items) == LexedDirs(dirs) + LexedItems(items)
    ensures ArgsOf(DirItems(dirs) + items) == ArgsOf(items) && DirsOf(DirItems(dirs) + items) == dirs + DirsOf(items)
    decreases |dirs|
  {
    hide LexedItems, ArgsOf, DirsOf, WayLexeme;
    if dirs == [] {
      assert DirItems(dirs) + items == items;
    } else {
      hide LexedDirs;
      var r, rest := dirs[0], dirs[1..];
      DirsThen(rest, items);
      DirFirst(r, DirItems(rest) + items);
      DirsFirst(r, rest);
      assert DirItems(dirs) + items == [Dir(r)] + (DirItems(rest) + items);
      assert dirs == [r] + rest;
      assert [r] + (rest + DirsOf(items)) == dirs + DirsOf(items);
      assert [WayLexeme(r.way), Name(r.file)] + (LexedDirs(rest) + LexedItems(items))
          == [WayLexeme(r.way), Name(r.file)] + LexedDirs(rest) + LexedItems(items);
    }
  }

  lemma {:induction false} LeadSplit(items: seq<Item>)
    ensures items == DirItems(LeadDirs(items)) + AfterDirs(items)
  {
    if items != [] && items[0].Dir? {
      LeadSplit(items[1..]);
      assert items == [items[0]] + items[1..];
      assert DirItems(LeadDirs(items)) == [items[0]] + DirItems(LeadDirs(items[1..]));
    }
  }

  lemma LeadParts(items: seq<Item>)
    ensures LexedItems(items) == LexedDirs(LeadDirs(items)) + LexedItems(AfterDirs(items))
    ensures ArgsOf(items) == ArgsOf(AfterDirs(items)) && DirsOf(items) == LeadDirs(items) + DirsOf(AfterDirs(items))
  {
    hide *;
    LeadSplit(items);
    DirsThen(LeadDirs(items), AfterDirs(items));
  }

  lemma {:induction false} AroundSnoc(c: Cmd<string>, dirs: seq<Redirect>, r: Redirect)
    ensures Around(c, dirs + [r]) == Redir(Around(c, dirs), r.file, !r.way.From?)
    decreases |dirs|
  {
    if dirs == [] {
      assert (dirs + [r])[1..] == [];
    } else {
      assert (dirs + [r])[1..] == dirs[1..] + [r];
      AroundSnoc(Redir(c, dirs[0].file, !dirs[0].way.From?), dirs[1..], r);
    }
  }
}
