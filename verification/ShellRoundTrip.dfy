/** What the grammar of ShellGrammar prints it reads back, if no command has too many words, and
  otherwise it reports too many words. */
module ShellRoundTrip {
  import opened ShellGrammar

  function Expect<W>(cmd: Cmd<W>, read: Parsed<W>): Parsed<W> {
    if Fits(cmd) then read else Err(TooManyArgs)
  }

  /** What may follow a command printed at each level. */
  predicate Ends<W(==)>(x: seq<Tok<W>>, level: nat) {
    && Stops(x)
    && (level >= 1 ==> !Starts(x, '|'))
    && (level >= 2 ==> !Starts(x, '&'))
    && (level >= 3 ==> !Starts(x, ';'))
  }

  function Argc<W>(cmd: Cmd<W>): nat {
    match cmd
    case Exec(argv) => |argv|
    case Redir(c, _, _) => Argc(c)
    case _ => 0
  }

  /** parseexec after it has read cmd, before the redirections that follow. */
  function After<W(==)>(cmd: Cmd<W>, x: seq<Tok<W>>): Parsed<W> {
    var r := Redirs(cmd, x);
    if r.Err? || !Simple(cmd) then r
    else
      RedirsSimple(cmd, x);
      Args(r.cmd, Argc(cmd), r.rest)
  }

  lemma {:induction false} ArgsRead<W>(done: seq<W>, ws: seq<W>, x: seq<Tok<W>>)
    requires |done| < MAXARGS && ws != [] && (Stops(x) || StartsRedir(x))
    ensures Args(Exec(done), |done|, WordToks(ws) + x)
         == if |done| + |ws| < MAXARGS then After(Exec(done + ws), x) else Err(TooManyArgs)
    decreases |ws|
  {
    hide Args, Redirs, After, AddArg, Words, TokWords, Conserves, WordToks, Stops, StartsRedir;
    FirstWord(ws, x);
    Shift(done, ws);
    OneArg(done, ws[0], WordToks(ws) + x);
    ArgsTurn(Exec(done), |done|, WordToks(ws) + x);
    if |ws| > 1 && |done| + 1 < MAXARGS {
      FirstWord(ws[1..], x);
      NoRedirs(Exec(done + [ws[0]]), WordToks(ws[1..]) + x);
      ArgsRead(done + [ws[0]], ws[1..], x);
    }
  }

  lemma NoRedirs<W>(cmd: Cmd<W>, toks: seq<Tok<W>>)
    requires !StartsRedir(toks)
    ensures Redirs(cmd, toks) == Ok(cmd, toks)
  {
  }

  lemma OneArg<W>(done: seq<W>, w: W, toks: seq<Tok<W>>)
    requires !Stops(toks) && toks[0] == Word(w)
    ensures AddArg(Exec(done), w) == Exec(done + [w])
    ensures var x := toks[1..];
            var r := Redirs(Exec(done + [w]), x);
            After(Exec(done + [w]), x)
            == if r.Err? then r else (RedirsSimple(Exec(done + [w]), x); Args(r.cmd, |done| + 1, r.rest))
  {
  }

  lemma {:induction false} FirstWord<W>(ws: seq<W>, x: seq<Tok<W>>)
    requires ws != []
    ensures var toks := WordToks(ws) + x;
            && toks[0] == Word(ws[0]) && toks[1..] == WordToks(ws[1..]) + x
            && !Stops(toks) && !StartsRedir(toks)
    ensures |ws| == 1 ==> WordToks(ws[1..]) + x == x
  {
    var r := WordToks(ws[1..]);
    assert WordToks(ws) == [Word(ws[0])] + r;
    assert |ws| == 1 ==> r == [];
    hide WordToks;
    Cons(Word(ws[0]), r, x);
  }

  lemma Cons<T>(a: T, r: seq<T>, x: seq<T>)
    ensures ([a] + r + x)[0] == a && ([a] + r + x)[1..] == r + x
    ensures r == [] ==> r + x == x
  {
  }

  lemma Shift<W>(done: seq<W>, ws: seq<W>)
    requires ws != []
    ensures (done + [ws[0]]) + ws[1..] == done + ws
    ensures |ws| == 1 ==> done + [ws[0]] == done + ws
  {
  }

  lemma {:induction false} ExecRead<W>(argv: seq<W>, x: seq<Tok<W>>)
    requires Stops(x) || StartsRedir(x)
    ensures ParseExec(WordToks(argv) + x) == Expect(Exec(argv), After(Exec(argv), x))
  {
    hide Words, TokWords, Conserves;
    if argv == [] {
      assert WordToks(argv) + x == x;
    } else {
      assert (WordToks(argv) + x)[0] == Word(argv[0]);
      ArgsRead([], argv, x);
      assert [] + argv == argv;
    }
  }

  function Rank<W>(cmd: Cmd<W>, level: nat): nat {
    if Level(cmd) > level then 10 + level else level
  }

  lemma {:induction false} ReadAtom<W>(t: Cmd<W>, x: seq<Tok<W>>)
    requires Stops(x) || StartsRedir(x)
    ensures ParseExec(Print(t, 0) + x) == Expect(t, After(t, x))
    decreases t, Rank(t, 0)
  {
    hide Words, TokWords, Conserves;
    match t
    case Exec(argv) => ExecRead(argv, x);
    case Redir(c, file, out) =>
      var y := [Sym(if out then '>' else '<'), Word(file)] + x;
      assert Print(t, 0) + x == Print(c, 0) + y;
      ReadAtom(c, y);
      assert y[2..] == x;
    case _ =>
      var y := [Sym(')')] + x;
      assert Print(t, 0) + x == [Sym('(')] + (Print(t, 3) + y);
      ReadLine(t, y);
      assert y[1..] == x;
  }

  lemma {:induction false} ReadPipe<W>(t: Cmd<W>, x: seq<Tok<W>>)
    requires Ends(x, 1)
    ensures ParsePipe(Print(t, 1) + x) == Expect(t, Ok(t, x))
    decreases t, Rank(t, 1)
  {
    hide Words, TokWords, Conserves;
    if t.Pipe? {
      var y := [Sym('|')] + (Print(t.right, 1) + x);
      assert Print(t, 1) + x == Print(t.left, 0) + y;
      ReadAtom(t.left, y);
      assert y[1..] == Print(t.right, 1) + x;
      ReadPipe(t.right, x);
    } else {
      ReadAtom(t, x);
    }
  }

  lemma {:induction false} ReadBacks<W>(t: Cmd<W>, x: seq<Tok<W>>)
    requires Ends(x, 1)
    ensures var p := ParsePipe(Print(t, 2) + x);
            (if p.Err? then p else Backs(p.cmd, p.rest)) == Expect(t, Backs(t, x))
    decreases t, Rank(t, 2)
  {
    hide Words, TokWords, Conserves;
    if t.Back? {
      var y := [Sym('&')] + x;
      assert Print(t, 2) + x == Print(t.cmd, 2) + y;
      ReadBacks(t.cmd, y);
      assert y[1..] == x;
    } else {
      ReadPipe(t, x);
    }
  }

  /** A printed line is read back whole and what follows it is left, or it is refused for a command of
    ten words or more. */
  lemma {:induction false} ReadLine<W>(t: Cmd<W>, x: seq<Tok<W>>)
    requires Ends(x, 3)
    ensures ParseLine(Print(t, 3) + x) == Expect(t, Ok(t, x))
    decreases t, Rank(t, 3)
  {
    hide Words, TokWords, Conserves;
    if t.List? {
      var y := [Sym(';')] + (Print(t.right, 3) + x);
      assert Print(t, 3) + x == Print(t.left, 2) + y;
      ReadBacks(t.left, y);
      assert y[1..] == Print(t.right, 3) + x;
      ReadLine(t.right, x);
    } else {
      ReadBacks(t, x);
    }
  }

  lemma RoundTrip<W>(t: Cmd<W>)
    ensures ParseCmd(Print(t, 3)) == Expect(t, Ok(t, []))
  {
    ReadLine(t, []);
    assert Print(t, 3) + [] == Print(t, 3);
  }
}
