/** parsecmd of user/sh.c as it runs: a cursor moves over the line, and each parse method takes from the
  line what the grammar of ShellGrammar takes from its tokens. */
module ShellParser {
  import opened ShellGrammar
  import opened Shell
  import opened ShellSentences

  class Parser {
    const text: string
    var pos: nat

    ghost predicate Valid()
      reads this
    {
      pos <= |text| && Line(text)
    }

    /** The tokens not yet read. */
    ghost function Toks(): seq<Tok<Span>>
      reads this
      requires Valid()
    {
      Lex(text, pos)
    }

    constructor (line: string)
      requires Line(line)
      ensures Valid() && text == line && pos == 0
    {
      text, pos := line, 0;
    }

    method SkipWhite(i: nat) returns (j: nat)
      requires Valid() && i <= |text|
      ensures j == Skip(text, i)
    {
      j := i;
      while j < |text| && White(text[j])
        invariant i <= j <= |text| && forall k :: i <= k < j ==> White(text[k])
      {
        j := j + 1;
      }
      SkipIs(text, i, j);
    }

    method Peek(toks: string) returns (r: bool)
      requires Valid()
      modifies this
      ensures Valid() && old(pos) <= pos && Toks() == old(Toks())
      ensures pos == Skip(text, pos) && r == (At(text, pos) != '\0' && At(text, pos) in toks)
    {
      pos := SkipWhite(pos);
      LexSkip(text, old(pos));
      SkipAgain(text, old(pos), pos);
      r := pos < |text| && text[pos] in toks;
    }

    /** Takes one token off the line; '\\0' at its end. q and eq are the ends of the token. */
    method GetToken() returns (ret: char, q: nat, eq: nat)
      requires Valid()
      modifies this
      ensures Valid() && old(pos) <= pos && (old(Toks()) != [] ==> old(pos) < pos)
      ensures Toks() == if old(Toks()) == [] then [] else old(Toks())[1..]
      ensures old(Toks()) == [] ==> ret == '\0'
      ensures old(Toks()) != [] ==> match old(Toks()[0]) case Word(w) => ret == 'a' && w == Span(q, eq)
                                                         case Sym(c) => ret == c && Symbol(c)
                                                         case Append => ret == '+'
    {
      var s := SkipWhite(pos);
      q := s;
      ret := if s < |text| then text[s] else '\0';
      if s == |text| {
      } else if ret == '|' || ret == '(' || ret == ')' || ret == ';' || ret == '&' || ret == '<' {
        s := s + 1;
      } else if ret == '>' {
        s := s + 1;
        if s < |text| && text[s] == '>' {
          ret := '+';
          s := s + 1;
        }
      } else {
        ret := 'a';
        while s < |text| && !White(text[s]) && !Symbol(text[s])
          invariant q <= s <= |text| && forall k :: q <= k < s ==> WordChar(text[k])
        {
          s := s + 1;
        }
        WordEndIs(text, q, s);
      }
      eq := s;
      pos := SkipWhite(s);
      LexSkip(text, s);
    }

    /** A parse method's outcome against the grammar's. */
    ghost predicate Agrees(r: Result, p: Parsed<Span>)
      reads this
      requires Valid()
    {
      match r
      case Done(cmd) => p == Ok(cmd, Toks())
      case Fail(e) => p == Err(e)
    }

    method Parseredirs(cmd0: Cmd<Span>) returns (r: Result)
      requires Valid()
      modifies this
      ensures Valid() && old(pos) <= pos && Agrees(r, Redirs(cmd0, old(Toks())))
    {
      hide Words, TokWords, Conserves, Lex;
      var cmd := cmd0;
      var more := PeekRedir();
      while more
        invariant Valid() && old(pos) <= pos && more == StartsRedir(Toks())
        invariant Redirs(cmd, Toks()) == Redirs(cmd0, old(Toks()))
        decreases |text| - pos
      {
        ghost var t := Toks();
        var tok, _, _ := GetToken();
        var a, q, eq := GetToken();
        if a != 'a' {
          return Fail(MissingFile);
        }
        assert t[1..][1..] == t[2..];
        cmd := Redir(cmd, Span(q, eq), tok != '<');
        more := PeekRedir();
      }
      r := Done(cmd);
    }

    method PeekRedir() returns (r: bool)
      requires Valid()
      modifies this
      ensures Valid() && old(pos) <= pos && Toks() == old(Toks()) && r == StartsRedir(Toks())
    {
      r := Peek("<>");
      PeekTells(text, pos);
    }

    method PeekStop() returns (r: bool)
      requires Valid()
      modifies this
      ensures Valid() && old(pos) <= pos && Toks() == old(Toks())
      ensures r <==> Toks() != [] && Stops(Toks())
    {
      r := Peek("|)&;");
      PeekTells(text, pos);
    }

    method PeekSym(c: char) returns (r: bool)
      requires Valid() && c in "(|)&;"
      modifies this
      ensures Valid() && old(pos) <= pos && Toks() == old(Toks()) && r == Starts(Toks(), c)
    {
      r := Peek([c]);
      PeekTells(text, pos);
    }

    /** parseexec and, for a parenthesis, parseblock. A simple command has the words that follow no redirection
      symbol as its arguments and the others as the files of its redirections, both in the order of the line. */
    method Parseexec() returns (r: Result)
      requires Valid()
      modifies this
      ensures Valid() && old(pos) <= pos && Agrees(r, ParseExec(old(Toks())))
      ensures r.Done? && !Starts(old(Toks()), '(') ==>
                var read := old(Toks())[..PlainEnd(old(Toks()))];
                r.cmd == Wrap(Exec(Arguments(read)), Files(read)) && Paired(read)
      decreases |text| - pos, 1
    {
      hide Words, TokWords, Conserves, Lex;
      var paren := PeekSym('(');
      if paren {
        r := Parseblock();
        return;
      }
      var ret: Cmd<Span> := Exec([]);
      ghost var t := Toks();
      SimpleCommand(t);
      RedirsSimple(ret, t);
      RedirsTo(ret, t);
      r := Parseredirs(ret);
      if r.Fail? { return; }
      r := Parseargs(r.cmd, t[..Run(t)]);
    }

    method Parseblock() returns (r: Result)
      requires Valid() && Starts(Toks(), '(')
      modifies this
      ensures Valid() && old(pos) <= pos && Agrees(r, ParseExec(old(Toks())))
      decreases |text| - pos, 0
    {
      hide Words, TokWords, Conserves, Lex;
      var _, _, _ := GetToken();
      r := Parseline();
      if r.Fail? { return; }
      var closed := PeekSym(')');
      if !closed { return Fail(MissingParen); }
      var _, _, _ := GetToken();
      r := Parseredirs(r.cmd);
    }

    /** The loop of parseexec over arguments, after the redirections `done`. It takes all words and redirections
      there are, whatever their order: every word that follows no redirection symbol is an argument, and the
      redirections go around the command in turn. It fails exactly if some symbol has no file, there are ten
      arguments, or something else than the end of a command comes next. */
    method Parseargs(cmd0: Cmd<Span>, ghost done: seq<Tok<Span>>) returns (r: Result)
      requires Valid() && Simple(cmd0) && cmd0 == Wrap(Exec([]), Files(done))
      requires Paired(done) && Arguments(done) == [] && !StartsRedir(Toks())
      modifies this
      ensures Valid() && old(pos) <= pos && Agrees(r, Args(cmd0, 0, old(Toks())))
      ensures var toks := old(Toks()); var read := toks[..PlainEnd(toks)];
              && (r.Done? <==> Paired(read) && |Arguments(read)| < 10 && Stops(toks[|read|..]))
              && (r.Done? ==> r.cmd == Wrap(Exec(Arguments(read)), Files(done) + Files(read)))
    {
      hide Words, TokWords, Conserves, Lex, Args, Redirs, Simple, AddArg, Arguments, Files, Wrap, Paired;
      ghost var n := PlainEnd(Toks());
      assert [] + Arguments(Toks()[..n]) == Arguments(Toks()[..n]);
      ArgsTo(done, cmd0, Toks());
      var ret, argc: nat := cmd0, 0;
      var stop := PeekStop();
      while !stop
        invariant Valid() && old(pos) <= pos && Simple(ret)
        invariant stop <==> Toks() != [] && Stops(Toks())
        invariant Args(ret, argc, Toks()) == Args(cmd0, 0, old(Toks()))
        decreases |text| - pos
      {
        ghost var t := Toks();
        ArgsTurn(ret, argc, t);
        var tok, q, eq := GetToken();
        if tok == '\0' { break; }
        if tok != 'a' { return Fail(NotAWord); }
        argc := argc + 1;
        if argc >= MAXARGS { return Fail(TooManyArgs); }
        r := Parseredirs(AddArg(ret, Span(q, eq)));
        if r.Fail? { return; }
        ret := r.cmd;
        stop := PeekStop();
      }
      ArgsTurn(ret, argc, Toks());
      r := Done(ret);
    }

    method Parsepipe() returns (r: Result)
      requires Valid()
      modifies this
      ensures Valid() && old(pos) <= pos && Agrees(r, ParsePipe(old(Toks())))
      decreases |text| - pos, 2
    {
      hide Words, TokWords, Conserves, Lex;
      r := Parseexec();
      if r.Fail? { return; }
      var cmd := r.cmd;
      var bar := PeekSym('|');
      if bar {
        var _, _, _ := GetToken();
        r := Parsepipe();
        if r.Done? { r := Done(Pipe(cmd, r.cmd)); }
      }
    }

    method Parseline() returns (r: Result)
      requires Valid()
      modifies this
      ensures Valid() && old(pos) <= pos && Agrees(r, ParseLine(old(Toks())))
      decreases |text| - pos, 3
    {
      hide Words, TokWords, Conserves, Lex;
      r := Parsepipe();
      if r.Fail? { return; }
      var cmd := r.cmd;
      ghost var p := Ok(cmd, Toks());
      var amp := PeekSym('&');
      while amp
        invariant Valid() && old(pos) <= pos && amp == Starts(Toks(), '&')
        invariant Backs(cmd, Toks()) == Backs(p.cmd, p.rest)
        decreases |text| - pos
      {
        var _, _, _ := GetToken();
        cmd := Back(cmd);
        amp := PeekSym('&');
      }
      r := Done(cmd);
      var semi := PeekSym(';');
      if semi {
        var _, _, _ := GetToken();
        r := Parseline();
        if r.Done? { r := Done(List(cmd, r.cmd)); }
      }
    }

    /** parsecmd up to nulterminate: it accepts exactly the lines that are sentences, with the tree they have. */
    method Parsecmd() returns (r: Result)
      requires Valid() && pos == 0
      modifies this
      ensures Valid() && Agrees(r, ParseCmd(Lex(text, 0)))
      ensures forall t :: r == Done(t) <==> IsLine(t, Lex(text, 0))
    {
      hide Words, TokWords, Conserves, Lex, IsLine;
      forall t ensures ParseCmd(Lex(text, 0)) == Ok(t, []) <==> IsLine(t, Lex(text, 0)) {
        AcceptsSentences(t, Lex(text, 0));
      }
      r := Parseline();
      if r.Fail? { return; }
      var _ := Peek("");
      PeekTells(text, pos);
      if pos != |text| { return Fail(Leftovers); }
    }
  }
}
