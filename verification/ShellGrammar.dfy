/** The grammar the shell of user/sh.c accepts, over tokens, and a printing of every command that it
  reads back. */
module ShellGrammar {

  const MAXARGS: nat := 10    // user/sh.c:14

  /** What gettoken finds; `Append` is ">>". */
  datatype Tok<W> = Word(w: W) | Sym(c: char) | Append

  /** A redirection is `<` or, for both `>` and `>>`, output that does not truncate. */
  datatype Cmd<W> =
    | Exec(argv: seq<W>)
    | Redir(cmd: Cmd<W>, file: W, out: bool)
    | Pipe(left: Cmd<W>, right: Cmd<W>)
    | List(left: Cmd<W>, right: Cmd<W>)
    | Back(cmd: Cmd<W>)

  /** The panics of the parser. */
  datatype Error = MissingFile | MissingParen | NotAWord | TooManyArgs | Leftovers

  datatype Parsed<W> = Ok(cmd: Cmd<W>, rest: seq<Tok<W>>) | Err(error: Error)

  predicate Starts<W(==)>(toks: seq<Tok<W>>, c: char) {
    |toks| > 0 && toks[0] == Sym(c)
  }

  predicate StartsRedir<W(==)>(toks: seq<Tok<W>>) {
    Starts(toks, '<') || Starts(toks, '>') || (|toks| > 0 && toks[0] == Append)
  }

  predicate Stops<W(==)>(toks: seq<Tok<W>>) {
    toks == [] || Starts(toks, '|') || Starts(toks, ')') || Starts(toks, '&') || Starts(toks, ';')
  }

  // ---------------------------------------------------------------- the parser

  /** Every word of the tokens, and of a command. */
  function TokWords<W>(toks: seq<Tok<W>>): multiset<W> {
    if toks == [] then multiset{}
    else (if toks[0].Word? then multiset{toks[0].w} else multiset{}) + TokWords(toks[1..])
  }

  function Words<W>(cmd: Cmd<W>): multiset<W> {
    match cmd
    case Exec(argv) => multiset(argv)
    case Redir(c, file, _) => Words(c) + multiset{file}
    case Pipe(l, r) => Words(l) + Words(r)
    case List(l, r) => Words(l) + Words(r)
    case Back(c) => Words(c)
  }

  /** Parsing puts each word it consumes in the command, once. */
  predicate Conserves<W>(r: Parsed<W>, before: multiset<W>, toks: seq<Tok<W>>) {
    r.Ok? ==> Words(r.cmd) + TokWords(r.rest) == before + TokWords(toks)
  }

  function Redirs<W(==)>(cmd: Cmd<W>, toks: seq<Tok<W>>): (r: Parsed<W>)
    ensures r.Ok? ==> |r.rest| <= |toks|
    ensures Conserves(r, Words(cmd), toks)
    decreases |toks|
  {
    if !StartsRedir(toks) then Ok(cmd, toks)
    else if |toks| < 2 || !toks[1].Word? then Err(MissingFile)
    else
      assert TokWords(toks) == multiset{toks[1].w} + TokWords(toks[2..]) by {
        assert toks[1..][1..] == toks[2..];
      }
      Redirs(Redir(cmd, toks[1].w, toks[0] != Sym('<')), toks[2..])
  }

  /** The word goes to the simple command under the redirections. */
  function AddArg<W>(cmd: Cmd<W>, w: W): (r: Cmd<W>)
    ensures Simple(cmd) ==> Simple(r) && Words(r) == Words(cmd) + multiset{w}
  {
    match cmd
    case Exec(argv) => Exec(argv + [w])
    case Redir(c, file, out) => Redir(AddArg(c, w), file, out)
    case _ => cmd
  }

  /** A simple command with its redirections. */
  predicate Simple<W>(cmd: Cmd<W>) {
    cmd.Exec? || (cmd.Redir? && Simple(cmd.cmd))
  }

  lemma RedirsSimple<W>(cmd: Cmd<W>, toks: seq<Tok<W>>)
    requires Simple(cmd)
    ensures Redirs(cmd, toks).Ok? ==> Simple(Redirs(cmd, toks).cmd)
    decreases |toks|
  {
  }

  function Args<W(==)>(cmd: Cmd<W>, argc: nat, toks: seq<Tok<W>>): (r: Parsed<W>)
    requires Simple(cmd)
    ensures r.Ok? ==> |r.rest| <= |toks|
    ensures Conserves(r, Words(cmd), toks)
    decreases |toks|
  {
    if Stops(toks) then Ok(cmd, toks)
    else if !toks[0].Word? then Err(NotAWord)
    else if argc + 1 >= MAXARGS then Err(TooManyArgs)
    else
      var a := AddArg(cmd, toks[0].w);
      var r := Redirs(a, toks[1..]);
      RedirsSimple(a, toks[1..]);
      if r.Err? then r else Args(r.cmd, argc + 1, r.rest)
  }

  /** One turn of the loop of parseexec. */
  lemma ArgsTurn<W>(cmd: Cmd<W>, argc: nat, toks: seq<Tok<W>>)
    requires Simple(cmd)
    ensures Stops(toks) ==> Args(cmd, argc, toks) == Ok(cmd, toks)
    ensures !Stops(toks) && !toks[0].Word? ==> Args(cmd, argc, toks) == Err(NotAWord)
    ensures !Stops(toks) && toks[0].Word? && argc + 1 >= MAXARGS ==> Args(cmd, argc, toks) == Err(TooManyArgs)
    ensures !Stops(toks) && toks[0].Word? && argc + 1 < MAXARGS ==>
              var r := Redirs(AddArg(cmd, toks[0].w), toks[1..]);
              && (r.Ok? ==> Simple(r.cmd) && |r.rest| < |toks|)
              && Args(cmd, argc, toks) == if r.Err? then r else Args(r.cmd, argc + 1, r.rest)
  {
    hide Words, TokWords, Conserves;
    if !Stops(toks) && toks[0].Word? {
      RedirsSimple(AddArg(cmd, toks[0].w), toks[1..]);
    }
  }

  function ParseExec<W(==)>(toks: seq<Tok<W>>): (r: Parsed<W>)
    ensures r.Ok? ==> |r.rest| <= |toks|
    ensures Conserves(r, multiset{}, toks)
    decreases |toks|, 0
  {
    if Starts(toks, '(') then
      var r := ParseLine(toks[1..]);
      if r.Err? then r
      else if !Starts(r.rest, ')') then Err(MissingParen)
      else Redirs(r.cmd, r.rest[1..])
    else
      var e: Cmd<W> := Exec([]);
      var r := Redirs(e, toks);
      RedirsSimple(e, toks);
      if r.Err? then r else Args(r.cmd, 0, r.rest)
  }

  function ParsePipe<W(==)>(toks: seq<Tok<W>>): (r: Parsed<W>)
    ensures r.Ok? ==> |r.rest| <= |toks|
    ensures Conserves(r, multiset{}, toks)
    decreases |toks|, 1
  {
    var l := ParseExec(toks);
    if l.Err? || !Starts(l.rest, '|') then l
    else
      var r := ParsePipe(l.rest[1..]);
      if r.Err? then r else Ok(Pipe(l.cmd, r.cmd), r.rest)
  }

  function Backs<W(==)>(cmd: Cmd<W>, toks: seq<Tok<W>>): (r: Parsed<W>)
    ensures r.Ok? && |r.rest| <= |toks|
    ensures Conserves(r, Words(cmd), toks)
    decreases |toks|
  {
    if Starts(toks, '&') then Backs(Back(cmd), toks[1..]) else Ok(cmd, toks)
  }

  function ParseLine<W(==)>(toks: seq<Tok<W>>): (r: Parsed<W>)
    ensures r.Ok? ==> |r.rest| <= |toks|
    ensures Conserves(r, multiset{}, toks)
    decreases |toks|, 2
  {
    var p := ParsePipe(toks);
    if p.Err? then p
    else
      var b := Backs(p.cmd, p.rest);
      if !Starts(b.rest, ';') then b
      else
        var r := ParseLine(b.rest[1..]);
        if r.Err? then r else Ok(List(b.cmd, r.cmd), r.rest)
  }

  function ParseCmd<W(==)>(toks: seq<Tok<W>>): (r: Parsed<W>)
    ensures r.Ok? ==> r.rest == [] && Words(r.cmd) == TokWords(toks)
  {
    var r := ParseLine(toks);
    if r.Ok? && r.rest != [] then Err(Leftovers)
    else
      assert r.Ok? ==> Words(r.cmd) + TokWords(r.rest) == Words(r.cmd) && multiset{} + TokWords(toks) == TokWords(toks);
      r
  }

  // ---------------------------------------------------------------- printing

  /** How loosely a command binds. */
  function Level<W>(cmd: Cmd<W>): nat {
    match cmd
    case List(_, _) => 3
    case Back(_) => 2
    case Pipe(_, _) => 1
    case _ => 0
  }

  function WordToks<W>(ws: seq<W>): seq<Tok<W>> {
    if ws == [] then [] else [Word(ws[0])] + WordToks(ws[1..])
  }

  function Body<W>(cmd: Cmd<W>): seq<Tok<W>>
    decreases cmd, 0
  {
    match cmd
    case Exec(argv) => WordToks(argv)
    case Redir(c, file, out) => Print(c, 0) + [Sym(if out then '>' else '<'), Word(file)]
    case Pipe(l, r) => Print(l, 0) + [Sym('|')] + Print(r, 1)
    case List(l, r) => Print(l, 2) + [Sym(';')] + Print(r, 3)
    case Back(c) => Print(c, 2) + [Sym('&')]
  }

  /** The command, in parentheses where the context binds tighter than it. */
  function Print<W>(cmd: Cmd<W>, level: nat): seq<Tok<W>>
    decreases cmd, 1
  {
    if Level(cmd) > level then [Sym('(')] + Body(cmd) + [Sym(')')] else Body(cmd)
  }

  predicate Fits<W>(cmd: Cmd<W>) {
    match cmd
    case Exec(argv) => |argv| < MAXARGS
    case Redir(c, _, _) => Fits(c)
    case Pipe(l, r) => Fits(l) && Fits(r)
    case List(l, r) => Fits(l) && Fits(r)
    case Back(c) => Fits(c)
  }
}
