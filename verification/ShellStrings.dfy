/** nulterminate of user/sh.c, and the line as a whole: what is printed is read back with every word a C
  string of its own. */
module ShellStrings {
  import opened ShellGrammar
  import opened ShellRoundTrip
  import opened Shell

  // ---------------------------------------------------------------- tokens do not overlap

  /** The characters that end a word: user/sh.c:261-262, a blank, tab, return, newline or vertical tab, or a
    symbol. */
  const DELIMITERS: string := " \t\r\n\U{0B}<|>&;()"

  /** A word of the line, as long as can be. */
  predicate Token(s: string, w: Span) {
    && w.from < w.to <= |s| && (w.to < |s| ==> s[w.to] in DELIMITERS)
    && forall k :: w.from <= k < w.to ==> s[k] !in DELIMITERS
  }

  lemma Delimits(c: char)
    ensures WordChar(c) <==> c !in DELIMITERS && c != '\0'
  {
    var d := DELIMITERS;
    assert d[0] == ' ' && d[1] == '\t' && d[2] == '\r' && d[3] == '\n' && d[4] == 11 as char && d[5] == '<';
    assert d[6] == '|' && d[7] == '>' && d[8] == '&' && d[9] == ';' && d[10] == '(' && d[11] == ')';
  }

  lemma {:induction false} LexTokens(s: string, i: nat, w: Span)
    requires i <= |s| && Line(s) && w in TokWords(Lex(s, i))
    ensures Token(s, w)
    decreases |s| - i
  {
    var j := Skip(s, i);
    if j < |s| {
      var l := Lex(s, TokenEnd(s, j));
      assert Lex(s, i) == [TokenAt(s, j)] + l;
      assert Lex(s, i)[1..] == l;
      if w in TokWords(l) {
        LexTokens(s, TokenEnd(s, j), w);
      } else {
        assert TokenAt(s, j) == Word(w);
        forall k | w.from <= k < w.to ensures s[k] !in DELIMITERS { Delimits(s[k]); }
        if w.to < |s| { Delimits(s[w.to]); }
      }
    }
  }

  /** The place where a word ends is inside no word. */
  lemma EndsOutside(s: string, w: Span, v: Span)
    requires Token(s, w) && Token(s, v)
    ensures !(v.from <= w.to < v.to)
  {
  }

  // ---------------------------------------------------------------- nulterminate

  function Ends(cmd: Cmd<Span>): set<nat> {
    match cmd
    case Exec(argv) => set i | 0 <= i < |argv| :: argv[i].to
    case Redir(c, file, _) => Ends(c) + {file.to}
    case Pipe(l, r) => Ends(l) + Ends(r)
    case List(l, r) => Ends(l) + Ends(r)
    case Back(c) => Ends(c)
  }

  lemma {:induction false} EndsAreOfWords(cmd: Cmd<Span>, e: nat)
    ensures e in Ends(cmd) <==> exists w :: w in Words(cmd) && w.to == e
  {
    match cmd
    case Exec(argv) =>
      assert e in Ends(cmd) ==> exists i :: 0 <= i < |argv| && argv[i].to == e && argv[i] in multiset(argv);
    case Redir(c, file, _) =>
      EndsAreOfWords(c, e);
      assert file in Words(cmd);
    case Pipe(l, r) =>
      EndsAreOfWords(l, e);
      EndsAreOfWords(r, e);
    case List(l, r) =>
      EndsAreOfWords(l, e);
      EndsAreOfWords(r, e);
    case Back(c) => EndsAreOfWords(c, e);
  }

  /** Writes NUL at the end of every word and nowhere else. */
  method Nulterminate(buf: array<char>, cmd: Cmd<Span>)
    requires forall e :: e in Ends(cmd) ==> e < buf.Length
    modifies buf
    ensures forall k :: 0 <= k < buf.Length ==> buf[k] == if k in Ends(cmd) then '\0' else old(buf[k])
    decreases cmd
  {
    match cmd
    case Exec(argv) =>
      for i := 0 to |argv|
        invariant forall k :: 0 <= k < buf.Length ==>
                    buf[k] == if exists j :: 0 <= j < i && argv[j].to == k then '\0' else old(buf[k])
      {
        assert argv[i].to in Ends(cmd);
        buf[argv[i].to] := '\0';
      }
    case Redir(c, file, _) =>
      assert file.to in Ends(cmd) && forall e :: e in Ends(c) ==> e in Ends(cmd);
      Nulterminate(buf, c);
      buf[file.to] := '\0';
    case Pipe(l, r) =>
      assert forall e :: e in Ends(l) || e in Ends(r) ==> e in Ends(cmd);
      Nulterminate(buf, l);
      Nulterminate(buf, r);
    case List(l, r) =>
      assert forall e :: e in Ends(l) || e in Ends(r) ==> e in Ends(cmd);
      Nulterminate(buf, l);
      Nulterminate(buf, r);
    case Back(c) =>
      assert forall e :: e in Ends(c) ==> e in Ends(cmd);
      Nulterminate(buf, c);
  }

  /** The characters from i up to the first NUL. */
  function CString(b: seq<char>, i: nat): string
    decreases |b| - i
  {
    if i >= |b| || b[i] == '\0' then [] else [b[i]] + CString(b, i + 1)
  }

  /** The line after nulterminate. */
  predicate Terminated(s: string, b: seq<char>, cmd: Cmd<Span>) {
    |b| == |s| + 1 && forall k :: 0 <= k <= |s| ==> b[k] == if k in Ends(cmd) then '\0' else At(s, k)
  }

  lemma {:induction false} CStringIs(b: seq<char>, i: nat, e: nat)
    requires i <= e < |b| && b[e] == '\0' && forall k :: i <= k < e ==> b[k] != '\0'
    ensures CString(b, i) == b[i..e]
    decreases e - i
  {
    if i < e { CStringIs(b, i + 1, e); }
  }

  /** Each word of the command is left, NUL-terminated, at its own place in the line. */
  lemma {:induction false} WordsStand(s: string, b: seq<char>, w: Span)
    requires Line(s) && ParseCmd(Lex(s, 0)).Ok? && w in Words(ParseCmd(Lex(s, 0)).cmd)
    requires Terminated(s, b, ParseCmd(Lex(s, 0)).cmd)
    ensures w.from < w.to <= |s| && CString(b, w.from) == s[w.from..w.to]
  {
    var cmd := ParseCmd(Lex(s, 0)).cmd;
    LexTokens(s, 0, w);
    EndsAreOfWords(cmd, w.to);
    forall k | w.from <= k < w.to ensures k !in Ends(cmd) {
      EndsAreOfWords(cmd, k);
      if k in Ends(cmd) {
        var v :| v in Words(cmd) && v.to == k;
        LexTokens(s, 0, v);
        EndsOutside(s, v, w);
      }
    }
    CStringIs(b, w.from, w.to);
    assert b[w.from..w.to] == s[w.from..w.to];
  }

  /** nulterminate writes inside the line. */
  lemma {:induction false} EndsInLine(s: string, e: nat)
    requires Line(s) && ParseCmd(Lex(s, 0)).Ok? && e in Ends(ParseCmd(Lex(s, 0)).cmd)
    ensures e <= |s|
  {
    var cmd := ParseCmd(Lex(s, 0)).cmd;
    EndsAreOfWords(cmd, e);
    var w :| w in Words(cmd) && w.to == e;
    LexTokens(s, 0, w);
  }

  // ---------------------------------------------------------------- the whole line

  predicate GoodCmd(cmd: Cmd<string>) {
    match cmd
    case Exec(argv) => forall i :: 0 <= i < |argv| ==> GoodWord(argv[i])
    case Redir(c, file, _) => GoodCmd(c) && GoodWord(file)
    case Pipe(l, r) => GoodCmd(l) && GoodCmd(r)
    case List(l, r) => GoodCmd(l) && GoodCmd(r)
    case Back(c) => GoodCmd(c)
  }

  lemma {:induction false} GoodWordToks(ws: seq<string>)
    requires forall i :: 0 <= i < |ws| ==> GoodWord(ws[i])
    ensures Good(WordToks(ws))
  {
    if ws != [] { GoodWordToks(ws[1..]); }
  }

  lemma {:induction false} GoodBody(cmd: Cmd<string>)
    requires GoodCmd(cmd)
    ensures Good(Body(cmd))
  {
    match cmd
    case Exec(argv) => GoodWordToks(argv);
    case Redir(c, _, _) => GoodBody(c);
    case Pipe(l, r) =>
      GoodBody(l);
      GoodBody(r);
    case List(l, r) =>
      GoodBody(l);
      GoodBody(r);
    case Back(c) => GoodBody(c);
  }

  /** The line a command is written as. */
  function Written(cmd: Cmd<string>): string {
    Render(Print(cmd, 3))
  }

  /** Every command with fewer than ten words in each simple command is read back from its line exactly;
    every other is refused for too many arguments. */
  lemma {:induction false} LineRoundTrip(cmd: Cmd<string>)
    requires GoodCmd(cmd)
    ensures Line(Written(cmd))
    ensures TextParsed(Written(cmd), ParseCmd(Lex(Written(cmd), 0))) == Expect(cmd, Ok(cmd, []))
  {
    var s := Written(cmd);
    GoodBody(cmd);
    RenderLine(Print(cmd, 3));
    assert s[0..] == s;
    LexRender(s, 0, Print(cmd, 3));
    hide *;
    TextWhole(s, Lex(s, 0));
    RoundTrip(cmd);
  }

  lemma TextWhole(s: string, toks: seq<Tok<Span>>)
    ensures ParseCmd(Texts(s, toks)) == TextParsed(s, ParseCmd(toks))
  {
    hide Words, TokWords, Conserves, ParseLine, TextCmd;
    TextLine(s, toks);
    if ParseLine(toks).Ok? { TextsHead(s, ParseLine(toks).rest); }
  }
}
