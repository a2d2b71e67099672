/** The language of user/sh.c over tokens, by what a command looks like and not by how it is read: which token
  lists are commands, and of which tree. The parser accepts exactly these and builds that tree. */
module ShellSentences {
  import opened ShellGrammar
  import opened ShellRoundTrip

  // ---------------------------------------------------------------- a simple command

  predicate IsRedir<W(==)>(t: Tok<W>) {
    t == Sym('<') || t == Sym('>') || t == Append
  }

  /** Words and redirection symbols in any order, and behind each symbol its file. */
  predicate Paired<W(==)>(toks: seq<Tok<W>>) {
    forall i: nat :: i < |toks| ==> InPlace(toks, i)
  }

  predicate InPlace<W(==)>(toks: seq<Tok<W>>, i: nat)
    requires i < |toks|
  {
    toks[i].Word? || (IsRedir(toks[i]) && i + 1 < |toks| && toks[i + 1].Word?)
  }

  /** The words that do not stand behind a redirection symbol, in order. */
  function Arguments<W(==)>(toks: seq<Tok<W>>): seq<W> {
    if toks == [] then []
    else
      var n := |toks| - 1;
      Arguments(toks[..n]) + if toks[n].Word? && !(n > 0 && IsRedir(toks[n - 1])) then [toks[n].w] else []
  }

  /** The words that do, with whether the symbol is one for output, in order. */
  function Files<W(==)>(toks: seq<Tok<W>>): seq<(W, bool)> {
    if toks == [] then []
    else
      var n := |toks| - 1;
      Files(toks[..n]) + if toks[n].Word? && n > 0 && IsRedir(toks[n - 1])
                         then [(toks[n].w, toks[n - 1] != Sym('<'))] else []
  }

  /** A command with redirections around it, the first innermost. */
  function Wrap<W>(cmd: Cmd<W>, files: seq<(W, bool)>): Cmd<W> {
    if files == [] then cmd
    else
      var n := |files| - 1;
      Redir(Wrap(cmd, files[..n]), files[n].0, files[n].1)
  }

  // ---------------------------------------------------------------- sentences

  /** A simple command, or a line in parentheses with redirections behind it. */
  ghost predicate IsCommand<W(!new)>(t: Cmd<W>, toks: seq<Tok<W>>)
    decreases |toks|, 0
  {
    || (Paired(toks) && |Arguments(toks)| < 10 && t == Wrap(Exec(Arguments(toks)), Files(toks)))
    || exists b: Cmd<W>, m: nat :: IsBlock(t, toks, b, m)
  }

  ghost predicate IsBlock<W(!new)>(t: Cmd<W>, toks: seq<Tok<W>>, b: Cmd<W>, m: nat)
    decreases |toks|, -1
  {
    && 0 < m < |toks| && toks[0] == Sym('(') && toks[m] == Sym(')')
    && IsLine(b, toks[1..m])
    && Paired(toks[m + 1..]) && Arguments(toks[m + 1..]) == [] && t == Wrap(b, Files(toks[m + 1..]))
  }

  /** Commands with "|" between them, to the right. */
  ghost predicate IsPipeline<W(!new)>(t: Cmd<W>, toks: seq<Tok<W>>)
    decreases |toks|, 1
  {
    || IsCommand(t, toks)
    || (t.Pipe? && exists m: nat :: m < |toks| && toks[m] == Sym('|')
                                    && IsCommand(t.left, toks[..m]) && IsPipeline(t.right, toks[m + 1..]))
  }

  /** A pipeline with any number of "&" behind it. */
  ghost predicate IsJob<W(!new)>(t: Cmd<W>, toks: seq<Tok<W>>)
    decreases |toks|, 2
  {
    || IsPipeline(t, toks)
    || (t.Back? && toks != [] && toks[|toks| - 1] == Sym('&') && IsJob(t.cmd, toks[..|toks| - 1]))
  }

  /** Jobs with ";" between them, to the right. */
  ghost predicate IsLine<W(!new)>(t: Cmd<W>, toks: seq<Tok<W>>)
    decreases |toks|, 3
  {
    || IsJob(t, toks)
    || (t.List? && exists m: nat :: m < |toks| && toks[m] == Sym(';')
                                    && IsJob(t.left, toks[..m]) && IsLine(t.right, toks[m + 1..]))
  }

  // ---------------------------------------------------------------- tokens side by side

  lemma {:induction false} Joined<W>(p: seq<Tok<W>>, q: seq<Tok<W>>)
    requires Paired(p)
    ensures Arguments(p + q) == Arguments(p) + Arguments(q) && Files(p + q) == Files(p) + Files(q)
    ensures Paired(p + q) <==> Paired(q)
    decreases |q|
  {
    PairedJoined(p, q);
    if q == [] {
      assert p + q == p;
    } else {
      var n := |q| - 1;
      Joined(p, q[..n]);
      LastToken(q);
      LastToken(p + q);
      NotLast(p);
      var s := p + q;
      assert s[..|p| + n] == p + q[..n] && s[|p| + n] == q[n] && (n > 0 ==> s[|p| + n - 1] == q[n - 1]);
      hide Paired, Arguments, Files;
    }
  }

  lemma LastToken<W>(s: seq<Tok<W>>)
    requires s != []
    ensures var n := |s| - 1; var file := n > 0 && IsRedir(s[n - 1]);
            && Arguments(s) == Arguments(s[..n]) + (if s[n].Word? && !file then [s[n].w] else [])
            && Files(s) == Files(s[..n]) + (if s[n].Word? && file then [(s[n].w, s[n - 1] != Sym('<'))] else [])
  {
  }

  lemma PairedJoined<W>(p: seq<Tok<W>>, q: seq<Tok<W>>)
    requires Paired(p)
    ensures Paired(p + q) <==> Paired(q)
  {
    var s := p + q;
    if Paired(s) {
      forall i: nat | i < |q| ensures InPlace(q, i) {
        assert InPlace(s, |p| + i);
      }
    }
    if Paired(q) {
      forall i: nat | i < |s| ensures InPlace(s, i) {
        if i < |p| { assert InPlace(p, i); } else { assert InPlace(q, i - |p|); }
      }
    }
  }

  lemma NotLast<W>(p: seq<Tok<W>>)
    requires Paired(p)
    ensures p != [] ==> !IsRedir(p[|p| - 1])
  {
    if p != [] { assert InPlace(p, |p| - 1); }
  }

  lemma {:induction false} WrapTwice<W>(cmd: Cmd<W>, f: (W, bool), files: seq<(W, bool)>)
    ensures Wrap(Redir(cmd, f.0, f.1), files) == Wrap(cmd, [f] + files)
  {
    if files == [] {
      assert [f] + files == [f] && [f][..0] == [];
    } else {
      var n := |files| - 1;
      WrapTwice(cmd, f, files[..n]);
      assert ([f] + files)[..n + 1] == [f] + files[..n];
    }
  }

  /** The new argument of a simple command comes last, whatever its redirections. */
  lemma {:induction false} AddArgWrap<W>(argv: seq<W>, files: seq<(W, bool)>, w: W)
    ensures AddArg(Wrap(Exec(argv), files), w) == Wrap(Exec(argv + [w]), files)
  {
    if files != [] { AddArgWrap(argv, files[..|files| - 1], w); }
  }

  lemma {:induction false} WrapSimple<W>(argv: seq<W>, files: seq<(W, bool)>)
    ensures Simple(Wrap(Exec(argv), files))
  {
    if files != [] { WrapSimple(argv, files[..|files| - 1]); }
  }

  // ---------------------------------------------------------------- redirections

  /** How many tokens the redirections at the start are. */
  function Run<W(==)>(toks: seq<Tok<W>>): (n: nat)
    ensures n <= |toks|
  {
    if StartsRedir(toks) && |toks| > 1 && toks[1].Word? then 2 + Run(toks[2..]) else 0
  }

  lemma One<W>(r: Tok<W>, w: W)
    requires IsRedir(r)
    ensures var q := [r, Word(w)];
            Paired(q) && Arguments(q) == [] && Files(q) == [(w, r != Sym('<'))]
  {
    var q := [r, Word(w)];
    var none: seq<Tok<W>> := [];
    assert q[..1] == [r] && [r][..0] == none;
    assert Arguments([r]) == Arguments(none) && Files([r]) == Files(none);
  }

  lemma {:induction false} RedirsTo<W>(cmd: Cmd<W>, toks: seq<Tok<W>>)
    ensures var n := Run(toks);
            && Paired(toks[..n]) && Arguments(toks[..n]) == []
            && Redirs(cmd, toks) == (if StartsRedir(toks[n..]) then Err(MissingFile)
                                     else Ok(Wrap(cmd, Files(toks[..n])), toks[n..]))
            && (StartsRedir(toks[n..]) ==> n < |toks| && (n + 1 == |toks| || !toks[n + 1].Word?))
    decreases |toks|
  {
    hide Words, TokWords, Conserves, Wrap, Paired, Arguments, Files;
    if StartsRedir(toks) && |toks| > 1 && toks[1].Word? {
      var f := (toks[1].w, toks[0] != Sym('<'));
      var n := Run(toks[2..]);
      var q := toks[2..][..n];
      RedirsTo(Redir(cmd, f.0, f.1), toks[2..]);
      One(toks[0], toks[1].w);
      Joined([toks[0], toks[1]], q);
      assert toks[..n + 2] == [toks[0], toks[1]] + q && toks[n + 2..] == toks[2..][n..];
      WrapTwice(cmd, f, Files(q));
    } else {
      NoTokens(cmd, toks);
    }
  }

  lemma NoTokens<W>(cmd: Cmd<W>, toks: seq<Tok<W>>)
    ensures toks[..0] == [] && toks[0..] == toks && Paired(toks[..0]) && Arguments(toks[..0]) == []
    ensures Wrap(cmd, Files(toks[..0])) == cmd
  {
  }

  // ---------------------------------------------------------------- arguments

  predicate Plain<W(==)>(t: Tok<W>) {
    t.Word? || IsRedir(t)
  }

  /** Where the words and redirections at the start end. */
  function PlainEnd<W(==)>(toks: seq<Tok<W>>): (n: nat)
    ensures n <= |toks| && (forall i :: 0 <= i < n ==> Plain(toks[i])) && (n < |toks| ==> !Plain(toks[n]))
  {
    if toks != [] && Plain(toks[0]) then 1 + PlainEnd(toks[1..]) else 0
  }

  lemma {:induction false} WrapJoined<W>(cmd: Cmd<W>, f: seq<(W, bool)>, g: seq<(W, bool)>)
    ensures Wrap(Wrap(cmd, f), g) == Wrap(cmd, f + g)
    decreases |g|
  {
    if g == [] {
      assert f + g == f;
    } else {
      var n := |g| - 1;
      WrapJoined(cmd, f, g[..n]);
      assert (f + g)[..|f| + n] == f + g[..n];
    }
  }

  /** One argument and the redirections behind it. */
  lemma OneArgument<W>(toks: seq<Tok<W>>)
    requires toks != [] && toks[0].Word?
    ensures var m := 1 + Run(toks[1..]);
            && m <= |toks| && Paired(toks[..m]) && Arguments(toks[..m]) == [toks[0].w]
            && Files(toks[..m]) == Files(toks[1..][..m - 1]) && toks[m..] == toks[1..][m - 1..]
  {
    var m := 1 + Run(toks[1..]);
    assert m <= |toks|;
    hide *;
    var one, q := [toks[0]], toks[1..][..m - 1];
    OneWord(toks[0]);
    RunTakes(toks[1..]);
    Joined(one, q);
    Behind(toks, m);
    Around(Arguments(one), Files(q));
  }

  lemma RunTakes<W>(toks: seq<Tok<W>>)
    ensures var n := Run(toks); n <= |toks| && Paired(toks[..n]) && Arguments(toks[..n]) == []
  {
    var n := Run(toks);
    hide *;
    RedirsTo(Exec([]), toks);
  }

  lemma Behind<T>(s: seq<T>, m: nat)
    requires 0 < m <= |s|
    ensures s[..m] == [s[0]] + s[1..][..m - 1] && s[m..] == s[1..][m - 1..]
  {
  }

  lemma Around<S, T>(a: seq<S>, b: seq<T>)
    ensures a + [] == a && [] + b == b
  {
  }

  lemma OneWord<W>(t: Tok<W>)
    requires t.Word?
    ensures Paired([t]) && Arguments([t]) == [t.w] && Files([t]) == []
  {
    var none: seq<Tok<W>> := [];
    assert [t][..0] == none && Arguments(none) == [] && Files(none) == [];
  }

  lemma Unpaired<W>(toks: seq<Tok<W>>, k: nat)
    requires k < PlainEnd(toks) && IsRedir(toks[k]) && (k + 1 == |toks| || !toks[k + 1].Word?)
    ensures !Paired(toks[..PlainEnd(toks)])
  {
    assert !InPlace(toks[..PlainEnd(toks)], k);
  }

  lemma PlainAfter<W>(toks: seq<Tok<W>>, m: nat)
    requires m <= |toks| && Paired(toks[..m])
    ensures PlainEnd(toks) == m + PlainEnd(toks[m..])
  {
    var n := m + PlainEnd(toks[m..]);
    forall i | 0 <= i < n ensures Plain(toks[i]) {
      if i < m { assert InPlace(toks[..m], i); } else { assert toks[i] == toks[m..][i - m]; }
    }
  }

  /** What the loop of parseexec makes of the words and redirections before it. */
  function Reads<W(==)>(done: seq<Tok<W>>, toks: seq<Tok<W>>): Parsed<W> {
    var n := PlainEnd(toks);
    if Paired(toks[..n]) && Stops(toks[n..]) && |Arguments(done)| + |Arguments(toks[..n])| < MAXARGS
    then Ok(Wrap(Exec(Arguments(done) + Arguments(toks[..n])), Files(done) + Files(toks[..n])), toks[n..])
    else Err(NotAWord)
  }

  /** The same outcome, whatever the error. */
  predicate Same<W(==)>(r: Parsed<W>, e: Parsed<W>) {
    if e.Ok? then r == e else r.Err?
  }

  lemma ReadsStop<W>(done: seq<Tok<W>>, toks: seq<Tok<W>>)
    requires |Arguments(done)| < MAXARGS && PlainEnd(toks) == 0
    ensures Reads(done, toks) == if Stops(toks) then Ok(Wrap(Exec(Arguments(done)), Files(done)), toks)
                                 else Err(NotAWord)
  {
    var none: seq<Tok<W>> := [];
    assert toks[..0] == none && toks[0..] == toks;
    assert Arguments(done) + Arguments(none) == Arguments(done) && Files(done) + Files(none) == Files(done);
    assert Paired(none);
  }

  lemma ReadsMore<W>(done: seq<Tok<W>>, toks: seq<Tok<W>>, m: nat)
    requires Paired(done) && m <= |toks| && Paired(toks[..m])
    ensures Reads(done + toks[..m], toks[m..]) == Reads(done, toks)
  {
    hide Arguments, Files, Wrap, Paired, Stops;
    var n := PlainEnd(toks[m..]);
    PlainAfter(toks, m);
    Joined(done, toks[..m]);
    Joined(toks[..m], toks[m..][..n]);
    assert toks[..m + n] == toks[..m] + toks[m..][..n] && toks[m..][n..] == toks[m + n..];
    Assoc(Arguments(done), Arguments(toks[..m]), Arguments(toks[m..][..n]));
    Assoc(Files(done), Files(toks[..m]), Files(toks[m..][..n]));
  }

  lemma Assoc<T>(a: seq<T>, b: seq<T>, c: seq<T>)
    ensures a + b + c == a + (b + c)
  {
  }

  lemma PlainStart<W>(toks: seq<Tok<W>>)
    requires !StartsRedir(toks)
    ensures toks == [] || !toks[0].Word? ==> PlainEnd(toks) == 0
    ensures toks != [] && toks[0].Word? ==> !Stops(toks)
  {
  }

  /** Too many words. */
  lemma ReadsFull<W>(done: seq<Tok<W>>, toks: seq<Tok<W>>)
    requires |Arguments(done)| + 1 >= MAXARGS && toks != [] && toks[0].Word?
    ensures Reads(done, toks).Err?
  {
    var n, m := PlainEnd(toks), 1 + Run(toks[1..]);
    if Paired(toks[..n]) {
      var one := [toks[0]];
      var none: seq<Tok<W>> := [];
      assert one[..0] == none && Arguments(one) == Arguments(none) + [toks[0].w];
      assert toks[..n] == one + toks[1..n];
      Joined(one, toks[1..n]);
    }
  }

  /** A symbol without its file. */
  lemma ReadsUnpaired<W>(done: seq<Tok<W>>, toks: seq<Tok<W>>, m: nat)
    requires m <= |toks| && Paired(toks[..m]) && StartsRedir(toks[m..]) && (m + 1 == |toks| || !toks[m + 1].Word?)
    ensures Reads(done, toks).Err?
  {
    PlainAfter(toks, m);
    assert Plain(toks[m..][0]);
    Unpaired(toks, m);
  }

  lemma {:induction false} ArgsTo<W>(done: seq<Tok<W>>, cmd: Cmd<W>, toks: seq<Tok<W>>)
    requires Paired(done) && |Arguments(done)| < MAXARGS && !StartsRedir(toks)
    requires cmd == Wrap(Exec(Arguments(done)), Files(done))
    ensures Simple(cmd) && Same(Args(cmd, |Arguments(done)|, toks), Reads(done, toks))
    decreases |toks|
  {
    hide Words, TokWords, Conserves, Args, Redirs, Arguments, Files, Wrap, Paired, Simple, Reads, AddArg, Run, Stops;
    hide StartsRedir;
    var argv, files := Arguments(done), Files(done);
    WrapSimple(argv, files);
    ArgsTurn(cmd, |argv|, toks);
    PlainStart(toks);
    if toks == [] || !toks[0].Word? {
      ReadsStop(done, toks);
    } else if |argv| + 1 >= MAXARGS {
      ReadsFull(done, toks);
    } else {
      var m := 1 + Run(toks[1..]);
      AddArgWrap(argv, files, toks[0].w);
      OneArgument(toks);
      var a := Wrap(Exec(argv + [toks[0].w]), files);
      RedirsTo(a, toks[1..]);
      if StartsRedir(toks[m..]) {
        assert m + 1 < |toks| ==> toks[1..][m] == toks[m + 1];
        ReadsUnpaired(done, toks, m);
      } else {
        WrapJoined(Exec(argv + [toks[0].w]), files, Files(toks[..m]));
        Joined(done, toks[..m]);
        ReadsMore(done, toks, m);
        ArgsTo(done + toks[..m], Wrap(a, Files(toks[..m])), toks[m..]);
      }
    }
  }

  // ---------------------------------------------------------------- simple commands

  /** parseexec on words and redirections in any order: it takes them all, exactly if every symbol has its file,
    there are fewer than ten arguments and a command can end there. The arguments and the redirections are
    then those of the tokens, in order. */
  lemma SimpleCommand<W>(toks: seq<Tok<W>>)
    requires !Starts(toks, '(')
    ensures var n, r := PlainEnd(toks), ParseExec(toks);
            && (r.Ok? <==> Paired(toks[..n]) && |Arguments(toks[..n])| < 10 && Stops(toks[n..]))
            && (r.Ok? ==> r.rest == toks[n..]
                          && r.cmd == Wrap(Exec(Arguments(toks[..n])), Files(toks[..n])))
  {
    hide Words, TokWords, Conserves, Args, Redirs, Arguments, Files, Wrap, Paired, Run, Stops;
    var e: Cmd<W> := Exec([]);
    var m := Run(toks);
    RedirsTo(e, toks);
    RedirsSimple(e, toks);
    Nothing<W>();
    ReadsMore([], toks, m);
    assert [] + toks[..m] == toks[..m];
    if StartsRedir(toks[m..]) {
      ReadsUnpaired([], toks, m);
    } else {
      ArgsTo(toks[..m], Wrap(e, Files(toks[..m])), toks[m..]);
    }
    var n := PlainEnd(toks);
    assert [] + Arguments(toks[..n]) == Arguments(toks[..n]) && [] + Files(toks[..n]) == Files(toks[..n]);
  }

  lemma Nothing<W>()
    ensures var none: seq<Tok<W>> := []; Paired(none) && Arguments(none) == [] && Files(none) == []
  {
  }

  // ---------------------------------------------------------------- what is a sentence is accepted

  lemma AllPlain<W>(toks: seq<Tok<W>>, x: seq<Tok<W>>)
    requires Paired(toks) && Stops(x)
    ensures PlainEnd(toks + x) == |toks| && (toks + x)[..|toks|] == toks && (toks + x)[|toks|..] == x
    ensures !Starts(toks + x, '(')
  {
    var s := toks + x;
    assert s[..|toks|] == toks && s[|toks|..] == x;
    PlainAfter(s, |toks|);
    assert PlainEnd(x) == 0;
    if toks != [] { assert InPlace(toks, 0); }
  }

  /** Redirections before something that is none. */
  lemma {:induction false} RunIs<W>(q: seq<Tok<W>>, x: seq<Tok<W>>)
    requires Paired(q) && Arguments(q) == [] && Stops(x)
    ensures Run(q + x) == |q| && (q + x)[..|q|] == q && (q + x)[|q|..] == x
    decreases |q|
  {
    if q == [] {
      assert q + x == x;
    } else {
      assert InPlace(q, 0);
      if q[0].Word? { FirstArgument(q); }
      var r := q[2..];
      assert q == [q[0], q[1]] + r && (q + x)[2..] == r + x;
      One(q[0], q[1].w);
      Joined([q[0], q[1]], r);
      RunIs(r, x);
    }
  }

  lemma {:induction false} FirstArgument<W>(q: seq<Tok<W>>)
    requires Paired(q) && q != [] && q[0].Word?
    ensures Arguments(q) != []
  {
    var one := [q[0]];
    var none: seq<Tok<W>> := [];
    assert one[..0] == none && Arguments(one) == Arguments(none) + [q[0].w];
    assert q == one + q[1..];
    assert InPlace(one, 0);
    Joined(one, q[1..]);
  }

  lemma {:induction false} CommandAccepted<W(!new)>(t: Cmd<W>, toks: seq<Tok<W>>, x: seq<Tok<W>>)
    requires IsCommand(t, toks) && Stops(x)
    ensures ParseExec(toks + x) == Ok(t, x)
    decreases |toks|, 0
  {
    hide Words, TokWords, Conserves, Args, Redirs, Arguments, Files, Wrap, Run, Paired, IsBlock, ParseExec;
    if Paired(toks) && |Arguments(toks)| < 10 && t == Wrap(Exec(Arguments(toks)), Files(toks)) {
      AllPlain(toks, x);
      SimpleCommand(toks + x);
    } else {
      var b: Cmd<W>, m: nat :| IsBlock(t, toks, b, m);
      BlockAccepted(t, toks, x, b, m);
    }
  }

  lemma {:induction false} BlockAccepted<W(!new)>(t: Cmd<W>, toks: seq<Tok<W>>, x: seq<Tok<W>>, b: Cmd<W>, m: nat)
    requires IsBlock(t, toks, b, m) && Stops(x)
    ensures ParseExec(toks + x) == Ok(t, x)
    decreases |toks|, -1
  {
    var q := toks[m + 1..];
    assert IsLine(b, toks[1..m]) && Paired(q) && Arguments(q) == [] && t == Wrap(b, Files(q));
    hide *;
    EndsBlock(q + x);
    LineAccepted(b, toks[1..m], [Sym(')')] + (q + x));
    RunIs(q, x);
    RedirsTo(b, q + x);
    AroundBlock(toks, m, x);
    BlockTurn(b, toks[1..m] + ([Sym(')')] + (q + x)), q + x);
    StopsNoRedir(x);
  }

  lemma AroundBlock<W>(toks: seq<Tok<W>>, m: nat, x: seq<Tok<W>>)
    requires 0 < m < |toks| && toks[0] == Sym('(') && toks[m] == Sym(')')
    ensures toks + x == [Sym('(')] + (toks[1..m] + ([Sym(')')] + (toks[m + 1..] + x)))
  {
  }

  lemma EndsBlock<W>(z: seq<Tok<W>>)
    ensures Ends([Sym(')')] + z, 3)
  {
  }

  lemma StopsNoRedir<W>(x: seq<Tok<W>>)
    requires Stops(x)
    ensures !StartsRedir(x)
  {
  }

  /** parseblock. */
  lemma BlockTurn<W>(b: Cmd<W>, toks: seq<Tok<W>>, z: seq<Tok<W>>)
    requires ParseLine(toks) == Ok(b, [Sym(')')] + z)
    ensures ParseExec([Sym('(')] + toks) == Redirs(b, z)
  {
    hide Words, TokWords, Conserves, Redirs, ParseLine;
    assert ([Sym('(')] + toks)[1..] == toks && ([Sym(')')] + z)[1..] == z;
  }

  lemma {:induction false} PipelineAccepted<W(!new)>(t: Cmd<W>, toks: seq<Tok<W>>, x: seq<Tok<W>>)
    requires IsPipeline(t, toks) && Ends(x, 1)
    ensures ParsePipe(toks + x) == Ok(t, x)
    decreases |toks|, 1
  {
    hide Words, TokWords, Conserves, IsCommand, ParseExec, ParsePipe, Ends, Starts, Stops;
    EndsPipe(x);
    if IsCommand(t, toks) {
      CommandAccepted(t, toks, x);
      PipeTurn(toks + x);
    } else {
      var m: nat :| m < |toks| && toks[m] == Sym('|')
                    && IsCommand(t.left, toks[..m]) && IsPipeline(t.right, toks[m + 1..]);
      var y := [Sym('|')] + (toks[m + 1..] + x);
      EndsCommand(toks[m + 1..] + x);
      assert toks + x == toks[..m] + y;
      CommandAccepted(t.left, toks[..m], y);
      PipeTurn(toks + x);
      PipelineAccepted(t.right, toks[m + 1..], x);
    }
  }

  lemma EndsPipe<W>(x: seq<Tok<W>>)
    requires Ends(x, 1)
    ensures Stops(x) && !Starts(x, '|')
  {
  }

  lemma EndsCommand<W>(z: seq<Tok<W>>)
    ensures var y := [Sym('|')] + z; Stops(y) && Starts(y, '|') && y[1..] == z
  {
  }

  /** One turn of parsepipe. */
  lemma PipeTurn<W>(toks: seq<Tok<W>>)
    ensures var l := ParseExec(toks);
            && (l.Err? || !Starts(l.rest, '|') ==> ParsePipe(toks) == l)
            && (l.Ok? && Starts(l.rest, '|') ==>
                  ParsePipe(toks) == var r := ParsePipe(l.rest[1..]);
                                     if r.Err? then r else Ok(Pipe(l.cmd, r.cmd), r.rest))
  {
    hide Words, TokWords, Conserves, ParseExec;
  }

  lemma {:induction false} JobAccepted<W(!new)>(t: Cmd<W>, toks: seq<Tok<W>>, x: seq<Tok<W>>)
    requires IsJob(t, toks) && Ends(x, 1)
    ensures var p := ParsePipe(toks + x); p.Ok? && Backs(p.cmd, p.rest) == Backs(t, x)
    decreases |toks|, 2
  {
    hide Words, TokWords, Conserves, IsPipeline, ParsePipe;
    if IsPipeline(t, toks) {
      PipelineAccepted(t, toks, x);
    } else {
      var n := |toks| - 1;
      var y := [Sym('&')] + x;
      assert toks + x == toks[..n] + y;
      JobAccepted(t.cmd, toks[..n], y);
      assert y[1..] == x;
    }
  }

  lemma EndsLine<W>(x: seq<Tok<W>>)
    requires Ends(x, 3)
    ensures Ends(x, 1) && !Starts(x, '&') && !Starts(x, ';')
  {
  }

  lemma EndsJob<W>(z: seq<Tok<W>>)
    ensures var y := [Sym(';')] + z; Ends(y, 1) && !Starts(y, '&') && Starts(y, ';') && y[1..] == z
  {
  }

  /** One turn of parseline. */
  lemma LineTurn<W>(toks: seq<Tok<W>>, cmd: Cmd<W>, rest: seq<Tok<W>>)
    requires var p := ParsePipe(toks); p.Ok? && Backs(p.cmd, p.rest) == Backs(cmd, rest) && !Starts(rest, '&')
    ensures !Starts(rest, ';') ==> ParseLine(toks) == Ok(cmd, rest)
    ensures Starts(rest, ';') ==>
              ParseLine(toks) == var r := ParseLine(rest[1..]); if r.Err? then r else Ok(List(cmd, r.cmd), r.rest)
  {
    hide Words, TokWords, Conserves, ParsePipe;
  }

  lemma {:induction false} LineAccepted<W(!new)>(t: Cmd<W>, toks: seq<Tok<W>>, x: seq<Tok<W>>)
    requires IsLine(t, toks) && Ends(x, 3)
    ensures ParseLine(toks + x) == Ok(t, x)
    decreases |toks|, 3
  {
    hide Words, TokWords, Conserves, IsJob, ParsePipe, ParseLine, Backs, Ends, Starts, Stops;
    EndsLine(x);
    if IsJob(t, toks) {
      JobAccepted(t, toks, x);
      LineTurn(toks + x, t, x);
    } else {
      var m: nat :| m < |toks| && toks[m] == Sym(';') && IsJob(t.left, toks[..m]) && IsLine(t.right, toks[m + 1..]);
      var y := [Sym(';')] + (toks[m + 1..] + x);
      EndsJob(toks[m + 1..] + x);
      assert toks + x == toks[..m] + y;
      JobAccepted(t.left, toks[..m], y);
      LineTurn(toks + x, t.left, y);
      LineAccepted(t.right, toks[m + 1..], x);
    }
  }

  // ---------------------------------------------------------------- what is accepted is a sentence

  /** How many tokens were read. */
  function Taken<W>(toks: seq<Tok<W>>, r: Parsed<W>): nat
    requires r.Ok? && |r.rest| <= |toks|
  {
    |toks| - |r.rest|
  }

  lemma {:induction false} ExecIsCommand<W(!new)>(toks: seq<Tok<W>>)
    requires ParseExec(toks).Ok?
    ensures var r := ParseExec(toks); var n := Taken(toks, r);
            r.rest == toks[n..] && IsCommand(r.cmd, toks[..n])
    decreases |toks|, 0
  {
    hide Words, TokWords, Conserves, Arguments, Files, Wrap, Paired, ParseExec, ParseLine, IsLine;
    if Starts(toks, '(') {
      BlockIsBlock(toks);
    } else {
      SimpleCommand(toks);
    }
  }

  lemma {:induction false} BlockIsBlock<W(!new)>(toks: seq<Tok<W>>)
    requires ParseExec(toks).Ok? && Starts(toks, '(')
    ensures var r := ParseExec(toks); var n := Taken(toks, r);
            r.rest == toks[n..] && exists b: Cmd<W>, m: nat :: IsBlock(r.cmd, toks[..n], b, m)
    decreases |toks|, -1
  {
    hide Words, TokWords, Conserves, Redirs, Arguments, Files, Wrap, Run, Paired, IsLine, ParseLine;
    var r := ParseExec(toks);
    var n := Taken(toks, r);
    var l := ParseLine(toks[1..]);
    LineIsLine(toks[1..]);
    var m := 1 + Taken(toks[1..], l);
    assert l.rest == toks[m..] && toks[1..][..m - 1] == toks[1..m];
    var x := l.rest[1..];
    assert x == toks[m + 1..];
    RedirsTo(l.cmd, x);
    assert r.rest == x[Run(x)..] == toks[n..] && toks[..n][m + 1..] == x[..Run(x)];
    assert toks[..n][1..m] == toks[1..m];
    assert IsBlock(r.cmd, toks[..n], l.cmd, m);
  }

  lemma {:induction false} PipeIsPipeline<W(!new)>(toks: seq<Tok<W>>)
    requires ParsePipe(toks).Ok?
    ensures var r := ParsePipe(toks); var n := Taken(toks, r);
            r.rest == toks[n..] && IsPipeline(r.cmd, toks[..n])
    decreases |toks|, 1
  {
    hide Words, TokWords, Conserves, IsCommand, ParseExec;
    var r := ParsePipe(toks);
    var n := Taken(toks, r);
    var l := ParseExec(toks);
    ExecIsCommand(toks);
    if Starts(l.rest, '|') {
      var m := Taken(toks, l);
      assert l.rest[1..] == toks[m + 1..];
      PipeIsPipeline(toks[m + 1..]);
      assert toks[..n][..m] == toks[..m] && toks[..n][m + 1..] == toks[m + 1..][..n - m - 1];
      assert r.rest == toks[n..];
      assert toks[..n][m] == Sym('|');
    }
  }

  lemma {:induction false} BacksIsJob<W(!new)>(cmd: Cmd<W>, toks: seq<Tok<W>>, m: nat)
    requires m <= |toks| && IsJob(cmd, toks[..m])
    ensures var r := Backs(cmd, toks[m..]); var n := Taken(toks, r);
            r.rest == toks[n..] && IsJob(r.cmd, toks[..n])
    decreases |toks| - m
  {
    hide Words, TokWords, Conserves;
    if Starts(toks[m..], '&') {
      assert toks[m..][1..] == toks[m + 1..] && toks[..m + 1][..m] == toks[..m];
      assert IsJob(Back(cmd), toks[..m + 1]);
      BacksIsJob(Back(cmd), toks, m + 1);
    }
  }

  lemma {:induction false} LineIsLine<W(!new)>(toks: seq<Tok<W>>)
    requires ParseLine(toks).Ok?
    ensures var r := ParseLine(toks); var n := Taken(toks, r);
            r.rest == toks[n..] && IsLine(r.cmd, toks[..n])
    decreases |toks|, 2
  {
    hide Words, TokWords, Conserves, IsPipeline, ParsePipe;
    var r := ParseLine(toks);
    var n := Taken(toks, r);
    var p := ParsePipe(toks);
    PipeIsPipeline(toks);
    var k := Taken(toks, p);
    assert IsJob(p.cmd, toks[..k]);
    BacksIsJob(p.cmd, toks, k);
    var b := Backs(p.cmd, p.rest);
    var m := Taken(toks, b);
    hide IsJob, Backs;
    if Starts(b.rest, ';') {
      assert b.rest[1..] == toks[m + 1..];
      LineIsLine(toks[m + 1..]);
      assert toks[..n][..m] == toks[..m] && toks[..n][m + 1..] == toks[m + 1..][..n - m - 1];
      assert r.rest == toks[n..];
      assert toks[..n][m] == Sym(';');
    }
  }

  /** The parser accepts the sentences and nothing else, and its tree is the sentence's: there is no other. */
  lemma AcceptsSentences<W(!new)>(t: Cmd<W>, toks: seq<Tok<W>>)
    ensures ParseCmd(toks) == Ok(t, []) <==> IsLine(t, toks)
  {
    hide Words, TokWords, Conserves, IsLine, ParseLine;
    if IsLine(t, toks) {
      LineAccepted(t, toks, []);
      assert toks + [] == toks;
    }
    if ParseCmd(toks) == Ok(t, []) {
      LineIsLine(toks);
      assert toks[..|toks|] == toks;
    }
  }
}
