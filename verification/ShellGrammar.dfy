/**
 * The command language of the shell, on strings: what the parser's functions return, and the round trip with a
 * canonical printer.
 */
module ShellGrammar {
  import opened Outcomes

  const WHITESPACE: string := " \t\r\n\U{0B}"
  const SYMBOLS: string := "<|>&;()"
  const MAXARGS := 10

  datatype Flow = Input | Output

  /** The tree; W is what stands for a word: the string itself, or its place in the buffer. */
  datatype Cmd<W> =
    | Exec(argv: seq<W>)
    | Redir(cmd: Cmd<W>, file: W, flow: Flow)
    | Pipe(left: Cmd<W>, right: Cmd<W>)
    | List(left: Cmd<W>, right: Cmd<W>)
    | Back(cmd: Cmd<W>)

  datatype Token = End | Symbol(c: char) | Append | Word(w: string)

  // ----- Tokens

  predicate WordChar(c: char) {
    c !in WHITESPACE && c !in SYMBOLS
  }

  function Skip(s: string): (t: string)
    ensures |t| <= |s| && (t == "" || t[0] !in WHITESPACE)
  {
    if s != "" && s[0] in WHITESPACE then Skip(s[1..]) else s
  }

  function WordOf(s: string): (w: string)
    ensures |w| <= |s| && w == s[..|w|]
    ensures s != "" && WordChar(s[0]) ==> w != ""
    ensures forall i :: 0 <= i < |w| ==> WordChar(w[i])
    ensures |w| < |s| ==> !WordChar(s[|w|])
  {
    if s != "" && WordChar(s[0]) then s[..1] + WordOf(s[1..]) else ""
  }

  /** The token that t begins with, and what follows it. */
  function Lex(t: string): (r: (Token, string))
    requires t == "" || t[0] !in WHITESPACE
    ensures |r.1| <= |t| && (r.0 != End ==> |r.1| < |t|)
    ensures r.0 == End <==> t == ""
  {
    if t == "" then (End, t)
    else if t[0] == '>' then if |t| > 1 && t[1] == '>' then (Append, t[2..]) else (Symbol('>'), t[1..])
    else if t[0] in SYMBOLS then (Symbol(t[0]), t[1..])
    else var w := WordOf(t); (Word(w), t[|w|..])
  }

  /** gettoken: the next token and what is left, without the white space around it. */
  function GetToken(s: string): (r: (Token, string))
    ensures |r.1| <= |s| && (r.0 != End ==> |r.1| < |s|)
    ensures r.0 == End <==> Skip(s) == ""
  {
    var (tok, rest) := Lex(Skip(s));
    (tok, Skip(rest))
  }

  /** peek: is the next character one of toks? */
  predicate Peek(s: string, toks: string) {
    var t := Skip(s);
    t != "" && t[0] in toks
  }

  // ----- Phrases

  type Parsed<T> = Outcome<(T, string)>

  /** The redirections in front of s, in order; ">" and ">>" open the file in the same way. */
  function Redirs(s: string): (r: Parsed<seq<(Flow, string)>>)
    ensures r.Done? ==> |r.value.1| <= |s|
    decreases |s|
  {
    if !Peek(s, "<>") then Done(([], Skip(s)))
    else
      var (tok, s1) := GetToken(s);
      var (w, s2) := GetToken(s1);
      if !w.Word? then Panic
      else
        var (rs, rest) :- Redirs(s2);
        Done(([(if tok == Symbol('<') then Input else Output, w.w)] + rs, rest))
  }

  function Wrap<W>(c: Cmd<W>, rs: seq<(Flow, W)>): Cmd<W>
    decreases |rs|
  {
    if rs == [] then c else Wrap(Redir(c, rs[0].1, rs[0].0), rs[1..])
  }

  /** The argument loop of parseexec, after argv and the redirections rs. */
  function Args(argv: seq<string>, rs: seq<(Flow, string)>, s: string): (r: Parsed<Cmd<string>>)
    ensures r.Done? ==> |r.value.1| <= |s|
    decreases |s|
  {
    if Peek(s, "|)&;") then Done((Wrap(Exec(argv), rs), Skip(s)))
    else
      var (tok, s1) := GetToken(s);
      if tok == End then Done((Wrap(Exec(argv), rs), s1))
      else if !tok.Word? || |argv| + 1 >= MAXARGS then Panic
      else
        var (more, s2) :- Redirs(s1);
        Args(argv + [tok.w], rs + more, s2)
  }

  function ParseExec(s: string): (r: Parsed<Cmd<string>>)
    ensures r.Done? ==> |r.value.1| <= |s|
    decreases |s|, 1
  {
    if Peek(s, "(") then ParseBlock(s)
    else
      var (rs, s1) :- Redirs(s);
      Args([], rs, s1)
  }

  function ParsePipe(s: string): (r: Parsed<Cmd<string>>)
    ensures r.Done? ==> |r.value.1| <= |s|
    decreases |s|, 2
  {
    var (c, s1) :- ParseExec(s);
    if !Peek(s1, "|") then Done((c, Skip(s1)))
    else
      var (d, s2) :- ParsePipe(GetToken(s1).1);
      Done((Pipe(c, d), s2))
  }

  /** The loop of parseline over "&". */
  function Backs(c: Cmd<string>, s: string): (r: (Cmd<string>, string))
    ensures |r.1| <= |s|
    decreases |s|
  {
    if Peek(s, "&") then Backs(Back(c), GetToken(s).1) else (c, Skip(s))
  }

  function ParseLine(s: string): (r: Parsed<Cmd<string>>)
    ensures r.Done? ==> |r.value.1| <= |s|
    decreases |s|, 3
  {
    var (c, s1) :- ParsePipe(s);
    var (b, s2) := Backs(c, s1);
    if !Peek(s2, ";") then Done((b, Skip(s2)))
    else
      var (d, s3) :- ParseLine(GetToken(s2).1);
      Done((List(b, d), s3))
  }

  function ParseBlock(s: string): (r: Parsed<Cmd<string>>)
    ensures r.Done? ==> |r.value.1| <= |s|
    decreases |s|, 0
  {
    if !Peek(s, "(") then Panic
    else
      var (c, s1) :- ParseLine(GetToken(s).1);
      if !Peek(s1, ")") then Panic
      else
        var (rs, s2) :- Redirs(GetToken(s1).1);
        Done((Wrap(c, rs), s2))
  }

  function ParseCmd(s: string): Outcome<Cmd<string>> {
    var (c, s1) :- ParseLine(s);
    if Skip(s1) != "" then Panic else Done(c)
  }

  // ----- Printing

  predicate GoodWord(w: string) {
    w != "" && forall i :: 0 <= i < |w| ==> WordChar(w[i])
  }

  /** The trees that the shell can run: at most nine good words in a simple command. */
  predicate WellFormed(c: Cmd<string>) {
    match c
    case Exec(argv) => |argv| < MAXARGS && forall i :: 0 <= i < |argv| ==> GoodWord(argv[i])
    case Redir(d, file, _) => WellFormed(d) && GoodWord(file)
    case Pipe(l, r) => WellFormed(l) && WellFormed(r)
    case List(l, r) => WellFormed(l) && WellFormed(r)
    case Back(d) => WellFormed(d)
  }

  function Spaced(argv: seq<string>): string {
    if argv == [] then "" else " " + argv[0] + Spaced(argv[1..])
  }

  function Group(c: Cmd<string>): string
    decreases c, 1
  {
    "(" + Print(c) + ")"
  }

  /** The canonical form of a command, with every part in parentheses. */
  function Print(c: Cmd<string>): string
    decreases c, 0
  {
    match c
    case Exec(argv) => Spaced(argv)
    case Redir(d, file, flow) => Group(d) + (if flow == Input then "<" else ">") + file
    case Pipe(l, r) => Group(l) + "|" + Group(r)
    case List(l, r) => Group(l) + ";" + Group(r)
    case Back(d) => Group(d) + "&"
  }

  // ----- Leading white space makes no difference

  lemma {:induction false} SkipTwice(s: string)
    ensures Skip(Skip(s)) == Skip(s)
  {
  }

  lemma PeekSkip(s: string, toks: string)
    ensures Peek(Skip(s), toks) == Peek(s, toks) && GetToken(Skip(s)) == GetToken(s)
  {
    SkipTwice(s);
  }

  lemma {:induction false} RedirsSkip(s: string)
    ensures Redirs(Skip(s)) == Redirs(s)
  {
    SkipTwice(s);
    PeekSkip(s, "<>");
  }

  lemma {:induction false} ArgsSkip(argv: seq<string>, rs: seq<(Flow, string)>, s: string)
    ensures Args(argv, rs, Skip(s)) == Args(argv, rs, s)
  {
    SkipTwice(s);
    PeekSkip(s, "|)&;");
  }

  lemma {:induction false} ExecSkip(s: string)
    ensures ParseExec(Skip(s)) == ParseExec(s)
  {
    PeekSkip(s, "(");
    RedirsSkip(s);
  }

  lemma {:induction false} PipeSkip(s: string)
    ensures ParsePipe(Skip(s)) == ParsePipe(s)
  {
    ExecSkip(s);
  }

  lemma {:induction false} LineSkip(s: string)
    ensures ParseLine(Skip(s)) == ParseLine(s)
  {
    PipeSkip(s);
  }

  // ----- Parsing undoes printing

  /** The text after a phrase in parentheses or at the end of the line. */
  predicate Stop(k: string) {
    var t := Skip(k);
    t == "" || t[0] == ')'
  }

  lemma {:induction false} StopFacts(k: string)
    requires Stop(k)
    ensures k == "" || !WordChar(k[0])
    ensures !Peek(k, "<>") && !Peek(k, "|") && !Peek(k, "&") && !Peek(k, ";") && !Peek(k, "(")
    ensures Redirs(k) == Done(([], Skip(k)))
  {
  }

  lemma {:induction false} WordOfWord(w: string, k: string)
    requires forall i :: 0 <= i < |w| ==> WordChar(w[i])
    requires k == "" || !WordChar(k[0])
    ensures WordOf(w + k) == w
  {
    if w == "" {
      assert w + k == k;
    } else {
      assert (w + k)[1..] == w[1..] + k;
      WordOfWord(w[1..], k);
      assert w[..1] + w[1..] == w;
    }
  }

  lemma {:induction false} TokenOfWord(w: string, k: string)
    requires GoodWord(w) && (k == "" || !WordChar(k[0]))
    ensures GetToken(w + k) == (Word(w), Skip(k))
    ensures !Peek(w + k, "|)&;") && !Peek(w + k, "<>") && !Peek(w + k, "(")
  {
    WordOfWord(w, k);
    assert (w + k)[0] == w[0];
    assert Skip(w + k) == w + k;
    assert (w + k)[|w|..] == k;
  }

  lemma {:induction false} ArgsStep(done: seq<string>, w: string, s: string, k: string)
    requires GetToken(s) == (Word(w), k) && !Peek(s, "|)&;") && |done| + 1 < MAXARGS
    requires Redirs(k) == Done(([], Skip(k)))
    ensures Args(done, [], s) == Args(done + [w], [], k)
  {
    var none: seq<(Flow, string)> := [];
    assert none + none == none;
    ArgsSkip(done + [w], [], k);
  }

  lemma {:induction false} ArgsWord(done: seq<string>, w: string, more: string)
    requires GoodWord(w) && |done| + 1 < MAXARGS
    requires Redirs(more) == Done(([], Skip(more))) && (more == "" || !WordChar(more[0]))
    ensures Args(done, [], " " + (w + more)) == Args(done + [w], [], more)
  {
    var s := " " + (w + more);
    SpaceWord(w, more);
    TokenOfWord(w, more);
    PeekSkip(s, "|)&;");
    RedirsSkip(more);
    SkipTwice(more);
    ArgsStep(done, w, s, Skip(more));
    ArgsSkip(done + [w], [], more);
  }

  lemma {:induction false} ArgsEnd(done: seq<string>, k: string)
    requires Stop(k)
    ensures Args(done, [], k) == Done((Exec(done), Skip(k)))
  {
    SkipTwice(k);
  }

  lemma SpaceWord(w: string, k: string)
    requires GoodWord(w)
    ensures Skip(" " + (w + k)) == w + k == Skip(w + k)
  {
    assert (" " + (w + k))[1..] == w + k;
    assert (w + k)[0] == w[0];
  }

  /** What the printed arguments look like from outside: no redirection and no group. */
  lemma {:induction false} SpacedFacts(argv: seq<string>, k: string)
    requires Stop(k) && forall i :: 0 <= i < |argv| ==> GoodWord(argv[i])
    ensures var s := Spaced(argv) + k;
            && Redirs(s) == Done(([], Skip(s))) && !Peek(s, "(") && (s == "" || !WordChar(s[0]))
  {
    StopFacts(k);
    var s := Spaced(argv) + k;
    if argv == [] {
      assert s == k;
    } else {
      var more := Spaced(argv[1..]) + k;
      assert s == " " + (argv[0] + more);
      SpaceWord(argv[0], more);
    }
  }

  lemma {:induction false} SpacedCons(argv: seq<string>, k: string)
    requires argv != []
    ensures Spaced(argv) + k == " " + (argv[0] + (Spaced(argv[1..]) + k))
  {
    var b := Spaced(argv[1..]);
    assert Spaced(argv) == " " + argv[0] + b;
    Regroup(" ", argv[0], b, k);
  }

  lemma HeadFirst<T>(done: seq<T>, more: seq<T>)
    requires more != []
    ensures done + [more[0]] + more[1..] == done + more
  {
  }

  lemma Regroup(a: string, b: string, c: string, d: string)
    ensures a + b + c + d == a + (b + (c + d))
  {
  }

  lemma {:induction false} RoundArgs(done: seq<string>, argv: seq<string>, k: string)
    requires Stop(k) && |done| + |argv| < MAXARGS
    requires forall i :: 0 <= i < |argv| ==> GoodWord(argv[i])
    ensures Args(done, [], Spaced(argv) + k) == Done((Exec(done + argv), Skip(k)))
    decreases |argv|
  {
    if argv == [] {
      assert Spaced(argv) + k == k && done + argv == done;
      ArgsEnd(done, k);
    } else {
      var w, more := argv[0], Spaced(argv[1..]) + k;
      SpacedFacts(argv[1..], k);
      ArgsWord(done, w, more);
      RoundArgs(done + [w], argv[1..], k);
      SpacedCons(argv, k);
      HeadFirst(done, argv);
    }
  }

  /** A pipeline that is one command. */
  lemma {:induction false} PipeOfOne(s: string, c: Cmd<string>, k: string)
    requires ParseExec(s) == Done((c, k)) && !Peek(k, "|")
    ensures ParsePipe(s) == Done((c, Skip(k)))
  {
  }

  /** A line that is one pipeline. */
  lemma {:induction false} LineOfOne(s: string, c: Cmd<string>, k: string)
    requires ParsePipe(s) == Done((c, k)) && !Peek(k, "&") && !Peek(k, ";")
    ensures ParseLine(s) == Done((c, Skip(k)))
  {
    SkipTwice(k);
  }

  lemma {:induction false} LineOfExec(s: string, c: Cmd<string>, k: string)
    requires ParseExec(s) == Done((c, Skip(k))) && Stop(k)
    ensures ParsePipe(s) == ParseLine(s) == Done((c, Skip(k)))
  {
    StopFacts(k);
    SkipTwice(k);
    PeekSkip(k, "|");
    PeekSkip(k, "&");
    PeekSkip(k, ";");
    PipeOfOne(s, c, Skip(k));
    LineOfOne(s, c, Skip(k));
  }

  /** One separator in front of the text k. */
  lemma {:induction false} Separator(c: char, k: string)
    requires c in "|&;()"
    ensures var s := [c] + k;
            && Skip(s) == s && GetToken(s) == (Symbol(c), Skip(k))
            && (forall toks: string :: Peek(s, toks) <==> c in toks)
            && (c != '>' ==> Redirs(s) == Done(([], s)))
  {
    assert ([c] + k)[1..] == k;
  }

  /** A group reads as its command with whatever redirections follow it. */
  lemma {:induction false} RoundGroup(c: Cmd<string>, k: string)
    requires WellFormed(c) && Redirs(k).Done?
    ensures ParseExec(Group(c) + k) == Done((Wrap(c, Redirs(k).value.0), Redirs(k).value.1))
    decreases c, 2
  {
    var close := [')'] + k;
    var inner := Print(c) + close;
    var s := ['('] + inner;
    assert Group(c) + k == s;
    Separator('(', inner);
    Separator(')', k);
    LineSkip(inner);
    RoundLine(c, close);
    RedirsSkip(k);
  }

  /** A plain group in front of a separator. */
  lemma {:induction false} RoundPlain(c: Cmd<string>, sep: char, k: string)
    requires WellFormed(c) && sep in "|&;"
    ensures ParseExec(Group(c) + ([sep] + k)) == Done((c, [sep] + k))
    decreases c, 3
  {
    Separator(sep, k);
    RoundGroup(c, [sep] + k);
  }

  lemma {:induction false} RoundRedir(d: Cmd<string>, file: string, flow: Flow, k: string)
    requires WellFormed(d) && GoodWord(file) && Stop(k)
    ensures ParseLine(Print(Redir(d, file, flow)) + k) == Done((Redir(d, file, flow), Skip(k)))
    decreases Redir(d, file, flow), 0
  {
    var mark := if flow == Input then '<' else '>';
    var tail := [mark] + (file + k);
    var s := Group(d) + tail;
    assert Print(Redir(d, file, flow)) + k == s;
    RedirsOfOne(mark, file, k);
    RoundGroup(d, tail);
    assert [(flow, file)][1..] == [];
    LineOfExec(s, Redir(d, file, flow), k);
  }

  lemma {:induction false} RedirsOfOne(mark: char, file: string, k: string)
    requires mark in "<>" && GoodWord(file) && Stop(k)
    ensures Redirs([mark] + (file + k)) == Done(([(if mark == '<' then Input else Output, file)], Skip(k)))
  {
    var s := [mark] + (file + k);
    assert s[1..] == file + k;
    assert s[0] == mark && Skip(s) == s;
    assert Skip(file + k) == file + k by { SpaceWord(file, k); }
    assert s[1] == file[0];
    assert GetToken(s) == (Symbol(mark), file + k);
    StopFacts(k);
    TokenOfWord(file, k);
    RedirsSkip(k);
    SkipTwice(k);
    var here: seq<(Flow, string)> := [(if mark == '<' then Input else Output, file)];
    assert here + [] == here;
    assert GetToken(file + k) == (Word(file), Skip(k));
    assert Redirs(Skip(k)) == Done(([], Skip(k)));
  }

  lemma {:induction false} RoundPipe(l: Cmd<string>, r: Cmd<string>, k: string)
    requires WellFormed(l) && WellFormed(r) && Stop(k)
    ensures ParseLine(Print(Pipe(l, r)) + k) == Done((Pipe(l, r), Skip(k)))
    decreases Pipe(l, r), 0
  {
    var right := Group(r) + k;
    var s := Group(l) + (['|'] + right);
    assert Print(Pipe(l, r)) + k == s;
    RoundPlain(l, '|', right);
    Separator('|', right);
    StopFacts(k);
    RoundGroup(r, k);
    LineOfExec(right, r, k);
    PipeSkip(right);
    assert ParsePipe(s) == Done((Pipe(l, r), Skip(k)));
    PeekSkip(k, "&");
    PeekSkip(k, ";");
    LineOfOne(s, Pipe(l, r), Skip(k));
    SkipTwice(k);
  }

  lemma {:induction false} RoundList(l: Cmd<string>, r: Cmd<string>, k: string)
    requires WellFormed(l) && WellFormed(r) && Stop(k)
    ensures ParseLine(Print(List(l, r)) + k) == Done((List(l, r), Skip(k)))
    decreases List(l, r), 0
  {
    var right := Group(r) + k;
    var s := Group(l) + ([';'] + right);
    assert Print(List(l, r)) + k == s;
    RoundPlain(l, ';', right);
    Separator(';', right);
    PipeOfOne(s, l, [';'] + right);
    StopFacts(k);
    RoundGroup(r, k);
    LineOfExec(right, r, k);
    LineSkip(right);
  }

  lemma {:induction false} RoundBack(d: Cmd<string>, k: string)
    requires WellFormed(d) && Stop(k)
    ensures ParseLine(Print(Back(d)) + k) == Done((Back(d), Skip(k)))
    decreases Back(d), 0
  {
    var s := Group(d) + (['&'] + k);
    assert Print(Back(d)) + k == s;
    RoundPlain(d, '&', k);
    Separator('&', k);
    PipeOfOne(s, d, ['&'] + k);
    StopFacts(k);
    PeekSkip(k, "&");
    PeekSkip(k, ";");
    SkipTwice(k);
    assert Backs(d, ['&'] + k) == (Back(d), Skip(k));
  }

  lemma {:induction false} RoundLine(c: Cmd<string>, k: string)
    requires WellFormed(c) && Stop(k)
    ensures ParseLine(Print(c) + k) == Done((c, Skip(k)))
    decreases c, 1
  {
    match c
    case Exec(argv) =>
      var s := Print(c) + k;
      SpacedFacts(argv, k);
      RoundArgs([], argv, k);
      ArgsSkip([], [], s);
      assert [] + argv == argv;
      LineOfExec(s, c, k);
    case Redir(d, file, flow) => RoundRedir(d, file, flow, k);
    case Pipe(l, r) => RoundPipe(l, r, k);
    case List(l, r) => RoundList(l, r, k);
    case Back(d) => RoundBack(d, k);
  }

  /** Parsing the printed form of a command gives the command back. */
  lemma RoundTrip(c: Cmd<string>)
    requires WellFormed(c)
    ensures ParseCmd(Print(c)) == Done(c)
  {
    RoundLine(c, "");
    assert Print(c) + "" == Print(c);
  }

  // ----- Every parsed command can be printed

  predicate GoodRedirs(rs: seq<(Flow, string)>) {
    forall i :: 0 <= i < |rs| ==> GoodWord(rs[i].1)
  }

  predicate GoodResult(r: Parsed<Cmd<string>>) {
    r.Done? ==> WellFormed(r.value.0)
  }

  lemma {:induction false} RedirsGood(s: string)
    ensures Redirs(s).Done? ==> GoodRedirs(Redirs(s).value.0)
    decreases |s|
  {
    if Peek(s, "<>") {
      RedirsGood(GetToken(GetToken(s).1).1);
    }
  }

  lemma {:induction false} WrapGood(c: Cmd<string>, rs: seq<(Flow, string)>)
    requires WellFormed(c) && GoodRedirs(rs)
    ensures WellFormed(Wrap(c, rs))
    decreases |rs|
  {
    if rs != [] {
      WrapGood(Redir(c, rs[0].1, rs[0].0), rs[1..]);
    }
  }

  lemma {:induction false} ArgsGood(argv: seq<string>, rs: seq<(Flow, string)>, s: string)
    requires WellFormed(Exec(argv)) && GoodRedirs(rs)
    ensures GoodResult(Args(argv, rs, s))
    decreases |s|
  {
    WrapGood(Exec(argv), rs);
    var (tok, s1) := GetToken(s);
    if !Peek(s, "|)&;") && tok.Word? && |argv| + 1 < MAXARGS {
      RedirsGood(s1);
      if Redirs(s1).Done? {
        var (more, s2) := Redirs(s1).value;
        ArgsGood(argv + [tok.w], rs + more, s2);
      }
    }
  }

  lemma {:induction false} ExecGood(s: string)
    ensures GoodResult(ParseExec(s))
    decreases |s|, 1
  {
    if Peek(s, "(") {
      BlockGood(s);
    } else {
      RedirsGood(s);
      if Redirs(s).Done? {
        ArgsGood([], Redirs(s).value.0, Redirs(s).value.1);
      }
    }
  }

  lemma {:induction false} PipeGood(s: string)
    ensures GoodResult(ParsePipe(s))
    decreases |s|, 2
  {
    ExecGood(s);
    if ParseExec(s).Done? {
      var (c, s1) := ParseExec(s).value;
      if Peek(s1, "|") {
        PipeGood(GetToken(s1).1);
      }
    }
  }

  lemma {:induction false} BacksGood(c: Cmd<string>, s: string)
    requires WellFormed(c)
    ensures WellFormed(Backs(c, s).0)
    decreases |s|
  {
    if Peek(s, "&") {
      BacksGood(Back(c), GetToken(s).1);
    }
  }

  lemma {:induction false} LineGood(s: string)
    ensures GoodResult(ParseLine(s))
    decreases |s|, 3
  {
    PipeGood(s);
    if ParsePipe(s).Done? {
      var (c, s1) := ParsePipe(s).value;
      BacksGood(c, s1);
      var (b, s2) := Backs(c, s1);
      if Peek(s2, ";") {
        LineGood(GetToken(s2).1);
      }
    }
  }

  lemma {:induction false} BlockGood(s: string)
    ensures GoodResult(ParseBlock(s))
    decreases |s|, 0
  {
    if Peek(s, "(") {
      LineGood(GetToken(s).1);
      var line := ParseLine(GetToken(s).1);
      if line.Done? && Peek(line.value.1, ")") {
        RedirsGood(GetToken(line.value.1).1);
        var rs := Redirs(GetToken(line.value.1).1);
        if rs.Done? {
          WrapGood(line.value.0, rs.value.0);
        }
      }
    }
  }

  /** The printer is a right inverse of the parser exactly on the commands that the parser can produce. */
  lemma RoundTripExactly(c: Cmd<string>)
    ensures ParseCmd(Print(c)) == Done(c) <==> WellFormed(c)
    ensures WellFormed(c) <==> exists s :: ParseCmd(s) == Done(c)
  {
    if WellFormed(c) {
      RoundTrip(c);
    }
    if s :| ParseCmd(s) == Done(c) {
      LineGood(s);
    }
  }
}
