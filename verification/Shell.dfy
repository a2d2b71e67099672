/** The parser of user/sh.c over the characters of a line: a cursor moved by peek and gettoken, the
  mutually recursive parse methods, and nulterminate writing into the line. */
module Shell {
  import opened ShellGrammar

  /** A token of the line: the characters from `from` up to, not including, `to`. */
  datatype Span = Span(from: nat, to: nat)

  datatype Result = Done(cmd: Cmd<Span>) | Fail(error: Error)

  predicate White(c: char) {
    c == ' ' || c == '\t' || c == '\r' || c == '\n' || c == 11 as char
  }

  predicate Symbol(c: char) {
    c == '<' || c == '|' || c == '>' || c == '&' || c == ';' || c == '(' || c == ')'
  }

  predicate WordChar(c: char) {
    !White(c) && !Symbol(c) && c != '\0'
  }

  /** A C string without its terminator. */
  predicate Line(s: string) {
    forall i :: 0 <= i < |s| ==> s[i] != '\0'
  }

  /** What *s reads, the terminator included. */
  function At(s: string, i: nat): char {
    if i < |s| then s[i] else '\0'
  }

  function Skip(s: string, i: nat): (j: nat)
    requires i <= |s|
    ensures i <= j <= |s| && !White(At(s, j)) && forall k :: i <= k < j ==> White(s[k])
    decreases |s| - i
  {
    if i < |s| && White(s[i]) then Skip(s, i + 1) else i
  }

  function WordEnd(s: string, i: nat): (j: nat)
    requires i <= |s| && Line(s)
    ensures i <= j <= |s| && !WordChar(At(s, j)) && forall k :: i <= k < j ==> WordChar(s[k])
    decreases |s| - i
  {
    if i < |s| && WordChar(s[i]) then WordEnd(s, i + 1) else i
  }

  lemma {:induction false} SkipAgain(s: string, i: nat, j: nat)
    requires i <= |s| && i <= j <= Skip(s, i)
    ensures Skip(s, j) == Skip(s, i)
    decreases j - i
  {
    if i < j { SkipAgain(s, i + 1, j); }
  }

  lemma {:induction false} WordEndIs(s: string, i: nat, j: nat)
    requires i <= j <= |s| && Line(s) && !WordChar(At(s, j)) && forall k :: i <= k < j ==> WordChar(s[k])
    ensures WordEnd(s, i) == j
    decreases j - i
  {
    if i < j { WordEndIs(s, i + 1, j); }
  }

  lemma {:induction false} SkipIs(s: string, i: nat, j: nat)
    requires i <= j <= |s| && !White(At(s, j)) && forall k :: i <= k < j ==> White(s[k])
    ensures Skip(s, i) == j
    decreases j - i
  {
    if i < j { SkipIs(s, i + 1, j); }
  }

  /** The token at a character that is not white, and where it ends. */
  function TokenAt(s: string, j: nat): Tok<Span>
    requires j < |s| && Line(s)
  {
    if s[j] == '>' then (if At(s, j + 1) == '>' then Append else Sym('>'))
    else if Symbol(s[j]) then Sym(s[j])
    else Word(Span(j, WordEnd(s, j)))
  }

  function TokenEnd(s: string, j: nat): (e: nat)
    requires j < |s| && Line(s)
    ensures j <= e <= |s| && (!White(s[j]) ==> j < e)
  {
    if s[j] == '>' then (if At(s, j + 1) == '>' then j + 2 else j + 1)
    else if Symbol(s[j]) then j + 1
    else WordEnd(s, j)
  }

  /** The tokens from position i on. */
  function Lex(s: string, i: nat): seq<Tok<Span>>
    requires i <= |s| && Line(s)
    decreases |s| - i
  {
    var j := Skip(s, i);
    if j == |s| then [] else [TokenAt(s, j)] + Lex(s, TokenEnd(s, j))
  }

  lemma LexSkip(s: string, i: nat)
    requires i <= |s| && Line(s)
    ensures Lex(s, Skip(s, i)) == Lex(s, i)
  {
    SkipAgain(s, i, Skip(s, i));
  }

  /** What peek sees is the first token. */
  lemma PeekTells(s: string, i: nat)
    requires i <= |s| && Line(s)
    ensures var c, t := At(s, Skip(s, i)), Lex(s, i);
            && (c == '\0' <==> t == [])
            && (c == '(' <==> Starts(t, '(')) && (c == ')' <==> Starts(t, ')')) && (c == '|' <==> Starts(t, '|'))
            && (c == '&' <==> Starts(t, '&')) && (c == ';' <==> Starts(t, ';'))
            && (c == '<' || c == '>' <==> StartsRedir(t))
  {
  }

  // ---------------------------------------------------------------- the text of a printed command

  predicate GoodWord(w: string) {
    w != [] && forall i :: 0 <= i < |w| ==> WordChar(w[i])
  }

  function Spelling(t: Tok<string>): string {
    match t
    case Word(w) => w
    case Sym(c) => [c]
    case Append => ">>"
  }

  /** Tokens written one after the other, each followed by a blank. */
  function Render(toks: seq<Tok<string>>): string {
    if toks == [] then []
    else Spelling(toks[0]) + " " + Render(toks[1..])
  }

  predicate GoodTok(t: Tok<string>) {
    match t
    case Word(w) => GoodWord(w)
    case Sym(c) => Symbol(c)
    case Append => true
  }

  predicate Good(toks: seq<Tok<string>>) {
    forall i :: 0 <= i < |toks| ==> GoodTok(toks[i])
  }

  function Text(s: string, w: Span): string {
    if w.from <= w.to <= |s| then s[w.from..w.to] else []
  }

  function TokText(s: string, t: Tok<Span>): Tok<string> {
    match t
    case Word(w) => Word(Text(s, w))
    case Sym(c) => Sym(c)
    case Append => Append
  }

  function Texts(s: string, toks: seq<Tok<Span>>): seq<Tok<string>> {
    if toks == [] then [] else [TokText(s, toks[0])] + Texts(s, toks[1..])
  }

  lemma {:induction false} RenderLine(toks: seq<Tok<string>>)
    requires Good(toks)
    ensures Line(Render(toks))
  {
    if toks != [] {
      RenderLine(toks[1..]);
      assert GoodTok(toks[0]);
    }
  }

  /** Reading back what was rendered, from any position where it stands. */
  lemma {:induction false} LexRender(s: string, i: nat, toks: seq<Tok<string>>)
    requires i <= |s| && Line(s) && Good(toks) && s[i..] == Render(toks)
    ensures Texts(s, Lex(s, i)) == toks
    decreases |toks|
  {
    if toks == [] {
      assert Skip(s, i) == |s|;
    } else {
      assert GoodTok(toks[0]);
      var e := i + |Spelling(toks[0])|;
      assert s[i..] == Spelling(toks[0]) + " " + Render(toks[1..]);
      OneToken(s, i, toks[0], Render(toks[1..]));
      LexBlank(s, e);
      LexRender(s, e + 1, toks[1..]);
      hide Render, Spelling, TokenAt, TokenEnd, Skip, TokText, Good, Line;
    }
  }

  lemma OneToken(s: string, i: nat, t: Tok<string>, rest: string)
    requires i <= |s| && Line(s) && GoodTok(t) && s[i..] == Spelling(t) + " " + rest
    ensures var e := i + |Spelling(t)|;
            && i < e < |s| && White(s[e]) && s[e + 1..] == rest
            && Skip(s, i) == i && TokenEnd(s, i) == e && TokText(s, TokenAt(s, i)) == t
  {
    var p, e := Spelling(t), i + |Spelling(t)|;
    assert forall k :: 0 <= k < |p| ==> s[i + k] == s[i..][k] == p[k];
    assert s[e] == s[i..][|p|] == ' ';
    assert s[i..e] == p && s[e + 1..] == rest;
    assert s[i] == p[0] && !White(s[i]);
    if t.Word? { WordEndIs(s, i, e); }
  }

  lemma LexBlank(s: string, e: nat)
    requires e < |s| && Line(s) && White(s[e])
    ensures Lex(s, e) == Lex(s, e + 1)
  {
  }

  // ---------------------------------------------------------------- spans read as strings

  function Strings(s: string, ws: seq<Span>): (r: seq<string>)
    ensures |r| == |ws|
  {
    if ws == [] then [] else Strings(s, ws[..|ws| - 1]) + [Text(s, ws[|ws| - 1])]
  }

  function TextCmd(s: string, c: Cmd<Span>): Cmd<string> {
    match c
    case Exec(argv) => Exec(Strings(s, argv))
    case Redir(d, file, out) => Redir(TextCmd(s, d), Text(s, file), out)
    case Pipe(l, r) => Pipe(TextCmd(s, l), TextCmd(s, r))
    case List(l, r) => List(TextCmd(s, l), TextCmd(s, r))
    case Back(d) => Back(TextCmd(s, d))
  }

  function TextParsed(s: string, p: Parsed<Span>): Parsed<string> {
    if p.Ok? then Ok(TextCmd(s, p.cmd), Texts(s, p.rest)) else Err(p.error)
  }

  lemma TextsHead(s: string, toks: seq<Tok<Span>>)
    ensures |Texts(s, toks)| == |toks|
    ensures toks != [] ==> Texts(s, toks)[0] == TokText(s, toks[0]) && Texts(s, toks)[1..] == Texts(s, toks[1..])
    ensures |toks| > 1 ==> Texts(s, toks)[1] == TokText(s, toks[1]) && Texts(s, toks)[2..] == Texts(s, toks[2..])
    ensures forall c :: Starts(Texts(s, toks), c) == Starts(toks, c)
    ensures StartsRedir(Texts(s, toks)) == StartsRedir(toks) && Stops(Texts(s, toks)) == Stops(toks)
  {
    if |toks| > 1 {
      assert toks[1..][1..] == toks[2..];
    }
    TextsLength(s, toks);
  }

  lemma {:induction false} TextsLength(s: string, toks: seq<Tok<Span>>)
    ensures |Texts(s, toks)| == |toks|
  {
    if toks != [] { TextsLength(s, toks[1..]); }
  }

  lemma {:induction false} TextRedirs(s: string, c: Cmd<Span>, toks: seq<Tok<Span>>)
    ensures Redirs(TextCmd(s, c), Texts(s, toks)) == TextParsed(s, Redirs(c, toks))
    decreases |toks|
  {
    hide Words, TokWords, Conserves, Text, Strings;
    TextsHead(s, toks);
    if StartsRedir(toks) && |toks| > 1 && toks[1].Word? {
      TextRedirs(s, Redir(c, toks[1].w, toks[0] != Sym('<')), toks[2..]);
    }
  }

  lemma {:induction false} TextAddArg(s: string, c: Cmd<Span>, w: Span)
    requires Simple(c)
    ensures Simple(TextCmd(s, c)) && TextCmd(s, AddArg(c, w)) == AddArg(TextCmd(s, c), Text(s, w))
  {
    match c
    case Exec(argv) => assert (argv + [w])[..|argv|] == argv;
    case Redir(d, _, _) => TextAddArg(s, d, w);
  }

  lemma {:induction false} TextArgs(s: string, c: Cmd<Span>, argc: nat, toks: seq<Tok<Span>>)
    requires Simple(c)
    ensures Simple(TextCmd(s, c)) && Args(TextCmd(s, c), argc, Texts(s, toks)) == TextParsed(s, Args(c, argc, toks))
    decreases |toks|
  {
    hide Words, TokWords, Conserves, Text, Strings, Args, Redirs, AddArg, TextCmd, Simple, Texts;
    TextsHead(s, toks);
    TextAddArg(s, c, Span(0, 0));
    ArgsTurn(c, argc, toks);
    ArgsTurn(TextCmd(s, c), argc, Texts(s, toks));
    if !Stops(toks) && toks[0].Word? && argc + 1 < MAXARGS {
      TextAddArg(s, c, toks[0].w);
      var a := AddArg(c, toks[0].w);
      TextRedirs(s, a, toks[1..]);
      var r := Redirs(a, toks[1..]);
      if r.Ok? { TextArgs(s, r.cmd, argc + 1, r.rest); }
    }
  }

  lemma {:induction false} TextExec(s: string, toks: seq<Tok<Span>>)
    ensures ParseExec(Texts(s, toks)) == TextParsed(s, ParseExec(toks))
    decreases |toks|, 0
  {
    hide Words, TokWords, Conserves, Text;
    TextsHead(s, toks);
    if Starts(toks, '(') {
      TextLine(s, toks[1..]);
      var r := ParseLine(toks[1..]);
      if r.Ok? {
        TextsHead(s, r.rest);
        if Starts(r.rest, ')') { TextRedirs(s, r.cmd, r.rest[1..]); }
      }
    } else {
      var e: Cmd<Span> := Exec([]);
      TextRedirs(s, e, toks);
      RedirsSimple(e, toks);
      var r := Redirs(e, toks);
      if r.Ok? { TextArgs(s, r.cmd, 0, r.rest); }
    }
  }

  lemma {:induction false} TextPipe(s: string, toks: seq<Tok<Span>>)
    ensures ParsePipe(Texts(s, toks)) == TextParsed(s, ParsePipe(toks))
    decreases |toks|, 1
  {
    hide Words, TokWords, Conserves, Text, Strings;
    TextExec(s, toks);
    var l := ParseExec(toks);
    if l.Ok? {
      TextsHead(s, l.rest);
      if Starts(l.rest, '|') { TextPipe(s, l.rest[1..]); }
    }
  }

  lemma {:induction false} TextBacks(s: string, c: Cmd<Span>, toks: seq<Tok<Span>>)
    ensures Backs(TextCmd(s, c), Texts(s, toks)) == TextParsed(s, Backs(c, toks))
    decreases |toks|
  {
    hide Words, TokWords, Conserves, Text, Strings;
    TextsHead(s, toks);
    if Starts(toks, '&') { TextBacks(s, Back(c), toks[1..]); }
  }

  /** The grammar does not look inside words. */
  lemma {:induction false} TextLine(s: string, toks: seq<Tok<Span>>)
    ensures ParseLine(Texts(s, toks)) == TextParsed(s, ParseLine(toks))
    decreases |toks|, 2
  {
    hide Words, TokWords, Conserves, Text, Strings, Texts, TokText, Stops, StartsRedir;
    TextPipe(s, toks);
    var p := ParsePipe(toks);
    if p.Err? { return; }
    TextBacks(s, p.cmd, p.rest);
    var b := Backs(p.cmd, p.rest);
    TextsHead(s, b.rest);
    var t := Backs(TextCmd(s, p.cmd), Texts(s, p.rest));
    assert t == TextParsed(s, b) && t.rest == Texts(s, b.rest);
    if Starts(b.rest, ';') {
      TextLine(s, b.rest[1..]);
      var r := ParseLine(b.rest[1..]);
      assert ParseLine(toks) == if r.Err? then r else Ok(List(b.cmd, r.cmd), r.rest);
      assert ParseLine(t.rest[1..]) == TextParsed(s, r);
    } else {
      assert ParseLine(toks) == b;
    }
  }
}
