/** The command language as its grammar: what a line is built from, how that is written, and what it means. */
module ShellSyntax {
  import opened Outcomes
  import opened ShellGrammar

  // ----- The grammar

  datatype Mark = Less | Greater | GreaterTwice

  datatype Redirection = Redirection(mark: Mark, file: string)

  /** A word of a simple command, and the redirections behind it. */
  datatype Argument = Argument(word: string, rs: seq<Redirection>)

  /** A group, or a simple command with redirections anywhere among its words. */
  datatype Part =
    | Block(line: Line, rs: seq<Redirection>)
    | Simple(rs: seq<Redirection>, args: seq<Argument>)

  /** Parts joined by "|". */
  datatype Pipeline = One(part: Part) | Piped(part: Part, more: Pipeline)

  /** Pipelines, each with any number of "&" behind it, joined by ";". */
  datatype Line = Last(pipe: Pipeline, backs: nat) | Followed(pipe: Pipeline, backs: nat, more: Line)

  // ----- How it is written

  function MarkText(m: Mark): string {
    match m
    case Less => "<"
    case Greater => ">"
    case GreaterTwice => ">>"
  }

  /** Each of these writes a phrase in front of the text k, with sp before every token. */
  function WriteRedirs(rs: seq<Redirection>, sp: string, k: string): string {
    if rs == [] then k else sp + (MarkText(rs[0].mark) + (sp + (rs[0].file + WriteRedirs(rs[1..], sp, k))))
  }

  function WriteArgs(args: seq<Argument>, sp: string, k: string): string {
    if args == [] then k else sp + (args[0].word + WriteRedirs(args[0].rs, sp, WriteArgs(args[1..], sp, k)))
  }

  function WritePart(p: Part, sp: string, k: string): string
    decreases p
  {
    match p
    case Block(line, rs) => sp + ("(" + WriteLine(line, sp, sp + (")" + WriteRedirs(rs, sp, k))))
    case Simple(rs, args) => WriteRedirs(rs, sp, WriteArgs(args, sp, k))
  }

  function WritePipe(p: Pipeline, sp: string, k: string): string
    decreases p
  {
    match p
    case One(part) => WritePart(part, sp, k)
    case Piped(part, more) => WritePart(part, sp, sp + ("|" + WritePipe(more, sp, k)))
  }

  function WriteBacks(n: nat, sp: string, k: string): string {
    if n == 0 then k else sp + ("&" + WriteBacks(n - 1, sp, k))
  }

  function WriteLine(l: Line, sp: string, k: string): string
    decreases l
  {
    match l
    case Last(pipe, backs) => WritePipe(pipe, sp, WriteBacks(backs, sp, k))
    case Followed(pipe, backs, more) =>
      WritePipe(pipe, sp, WriteBacks(backs, sp, sp + (";" + WriteLine(more, sp, k))))
  }

  // ----- What it means

  /** "<" opens the file as standard input, the other two as standard output. */
  function Flows(rs: seq<Redirection>): seq<(Flow, string)> {
    if rs == [] then [] else [(if rs[0].mark == Less then Input else Output, rs[0].file)] + Flows(rs[1..])
  }

  function Words(args: seq<Argument>): seq<string> {
    if args == [] then [] else [args[0].word] + Words(args[1..])
  }

  function ArgFlows(args: seq<Argument>): seq<(Flow, string)> {
    if args == [] then [] else Flows(args[0].rs) + ArgFlows(args[1..])
  }

  function PartMeans(p: Part): Cmd<string>
    decreases p
  {
    match p
    case Block(line, rs) => Wrap(LineMeans(line), Flows(rs))
    case Simple(rs, args) => Wrap(Exec(Words(args)), Flows(rs) + ArgFlows(args))
  }

  /** "|" binds its parts to the right. */
  function PipeMeans(p: Pipeline): Cmd<string>
    decreases p
  {
    match p
    case One(part) => PartMeans(part)
    case Piped(part, more) => Pipe(PartMeans(part), PipeMeans(more))
  }

  function InBack(c: Cmd<string>, n: nat): Cmd<string>
    decreases n
  {
    if n == 0 then c else InBack(Back(c), n - 1)
  }

  /** ";" binds to the right, and less than "&", which binds less than "|". */
  function LineMeans(l: Line): Cmd<string>
    decreases l
  {
    match l
    case Last(pipe, backs) => InBack(PipeMeans(pipe), backs)
    case Followed(pipe, backs, more) => List(InBack(PipeMeans(pipe), backs), LineMeans(more))
  }

  // ----- Which of it the shell takes

  predicate GoodFiles(rs: seq<Redirection>) {
    forall i :: 0 <= i < |rs| ==> GoodWord(rs[i].file)
  }

  predicate GoodArgs(args: seq<Argument>) {
    forall i :: 0 <= i < |args| ==> GoodWord(args[i].word) && GoodFiles(args[i].rs)
  }

  predicate GoodPart(p: Part)
    decreases p
  {
    match p
    case Block(line, rs) => GoodLine(line) && GoodFiles(rs)
    case Simple(rs, args) => GoodFiles(rs) && GoodArgs(args) && |args| < MAXARGS
  }

  predicate GoodPipe(p: Pipeline)
    decreases p
  {
    GoodPart(p.part) && (p.Piped? ==> GoodPipe(p.more))
  }

  predicate GoodLine(l: Line)
    decreases l
  {
    GoodPipe(l.pipe) && (l.Followed? ==> GoodLine(l.more))
  }

  /** At least one blank, and nothing else. */
  predicate Blank(sp: string) {
    sp != "" && forall i :: 0 <= i < |sp| ==> sp[i] in WHITESPACE
  }

  // ----- Tokens as they are written

  lemma {:induction false} SkipBlank(sp: string, s: string)
    requires forall i :: 0 <= i < |sp| ==> sp[i] in WHITESPACE
    ensures Skip(sp + s) == Skip(s)
  {
    if sp == "" {
      assert sp + s == s;
    } else {
      assert (sp + s)[1..] == sp[1..] + s;
      SkipBlank(sp[1..], s);
    }
  }

  /** Blanks in front of a text make no difference to what it is read as. */
  lemma BlankBefore(sp: string, s: string)
    requires Blank(sp)
    ensures GetToken(sp + s) == GetToken(s) && (forall toks: string :: Peek(sp + s, toks) == Peek(s, toks))
    ensures !WordChar((sp + s)[0])
  {
    SkipBlank(sp, s);
    assert (sp + s)[0] == sp[0];
  }

  lemma SymbolHere(c: char, s: string)
    requires c in "|&;()"
    ensures GetToken([c] + s) == (Symbol(c), Skip(s)) && forall toks: string :: Peek([c] + s, toks) <==> c in toks
  {
    Separator(c, s);
  }

  function MarkToken(m: Mark): Token {
    match m
    case Less => Symbol('<')
    case Greater => Symbol('>')
    case GreaterTwice => Append
  }

  lemma MarkHere(m: Mark, s: string)
    requires s != "" && s[0] != '>'
    ensures GetToken(MarkText(m) + s) == (MarkToken(m), Skip(s))
    ensures Peek(MarkText(m) + s, "<>") && !Peek(MarkText(m) + s, "(") && !Peek(MarkText(m) + s, "|)&;")
  {
    match m
    case Less => LessHere("<" + s, s);
    case Greater => GreaterHere(">" + s, s);
    case GreaterTwice => TwiceHere(">>" + s, s);
  }

  lemma LessHere(t: string, s: string)
    requires t == "<" + s
    ensures GetToken(t) == (Symbol('<'), Skip(s)) && Peek(t, "<>") && !Peek(t, "(") && !Peek(t, "|)&;")
  {
    assert t[0] == '<' && t[1..] == s && Skip(t) == t;
  }

  lemma GreaterHere(t: string, s: string)
    requires t == ">" + s && s != "" && s[0] != '>'
    ensures GetToken(t) == (Symbol('>'), Skip(s)) && Peek(t, "<>") && !Peek(t, "(") && !Peek(t, "|)&;")
  {
    assert t[0] == '>' && t[1] == s[0] && t[1..] == s && Skip(t) == t;
  }

  lemma TwiceHere(t: string, s: string)
    requires t == ">>" + s
    ensures GetToken(t) == (Append, Skip(s)) && Peek(t, "<>") && !Peek(t, "(") && !Peek(t, "|)&;")
  {
    assert t[0] == '>' && t[1] == '>' && t[2..] == s && Skip(t) == t;
  }

  // ----- Redirections and words

  /** What may stand behind a word: no character of a word. */
  predicate Ends(k: string) {
    k == "" || !WordChar(k[0])
  }

  /** One redirection in front of others. */
  lemma RedirWritten(r: Redirection, sp: string, rest: string, fs: seq<(Flow, string)>, k: string)
    requires Blank(sp) && GoodWord(r.file) && Ends(rest) && Redirs(rest) == Done((fs, k))
    ensures var s := sp + (MarkText(r.mark) + (sp + (r.file + rest)));
            && Redirs(s) == Done(([(if r.mark == Less then Input else Output, r.file)] + fs, k))
            && Ends(s) && !Peek(s, "(") && !Peek(s, "|)&;")
  {
    var file := r.file + rest;
    var t := MarkText(r.mark) + (sp + file);
    BlankBefore(sp, t);
    assert (sp + file)[0] == sp[0];
    MarkHere(r.mark, sp + file);
    BlankBefore(sp, file);
    SkipBlank(sp, file);
    SpaceWord(r.file, rest);
    TokenOfWord(r.file, rest);
    RedirsSkip(rest);
    RedirRead(sp + t, MarkToken(r.mark), file, r.file, rest, fs, k);
  }

  lemma RedirRead(s: string, tok: Token, s1: string, file: string, rest: string, fs: seq<(Flow, string)>, k: string)
    requires Peek(s, "<>") && GetToken(s) == (tok, s1) && GetToken(s1) == (Word(file), Skip(rest))
    requires Redirs(Skip(rest)) == Done((fs, k))
    ensures Redirs(s) == Done(([(if tok == Symbol('<') then Input else Output, file)] + fs, k))
  {
  }

  lemma {:induction false} RedirsWritten(rs: seq<Redirection>, sp: string, k: string)
    requires Blank(sp) && GoodFiles(rs) && Ends(k) && !Peek(k, "<>")
    ensures var s := WriteRedirs(rs, sp, k); Ends(s) && Redirs(s) == Done((Flows(rs), Skip(k)))
    ensures rs != [] ==> var s := WriteRedirs(rs, sp, k); !Peek(s, "(") && !Peek(s, "|)&;")
    decreases |rs|
  {
    if rs != [] {
      RedirsWritten(rs[1..], sp, k);
      RedirWritten(rs[0], sp, WriteRedirs(rs[1..], sp, k), Flows(rs[1..]), Skip(k));
    }
  }

  /** What may stand behind a simple command, or a group. */
  predicate Closes(k: string) {
    Ends(k) && (Skip(k) == "" || Skip(k)[0] in "|)&;")
  }

  lemma ClosesFacts(k: string)
    requires Closes(k)
    ensures !Peek(k, "<>") && !Peek(k, "(") && (Peek(k, "|)&;") <==> Skip(k) != "")
  {
  }

  lemma {:induction false} ArgsStart(args: seq<Argument>, sp: string, k: string)
    requires Blank(sp) && GoodArgs(args) && Closes(k)
    ensures var s := WriteArgs(args, sp, k); Ends(s) && !Peek(s, "<>") && !Peek(s, "(")
  {
    ClosesFacts(k);
    if args != [] {
      var rest := WriteRedirs(args[0].rs, sp, WriteArgs(args[1..], sp, k));
      BlankBefore(sp, args[0].word + rest);
      assert Skip(args[0].word + rest)[0] == args[0].word[0] by { SpaceWord(args[0].word, rest); }
    }
  }

  /** One word, and the redirections behind it. */
  lemma ArgWritten(done: seq<string>, rs: seq<(Flow, string)>, w: string, sp: string, rest: string,
                   fs: seq<(Flow, string)>, more: string)
    requires Blank(sp) && GoodWord(w) && Ends(rest) && Redirs(rest) == Done((fs, Skip(more))) && |done| + 1 < MAXARGS
    ensures Args(done, rs, sp + (w + rest)) == Args(done + [w], rs + fs, more)
  {
    BlankBefore(sp, w + rest);
    TokenOfWord(w, rest);
    RedirsSkip(rest);
    ArgsSkip(done + [w], rs + fs, more);
    ArgRead(done, rs, w, sp + (w + rest), rest, fs, more);
  }

  lemma ArgRead(done: seq<string>, rs: seq<(Flow, string)>, w: string, s: string, rest: string,
                fs: seq<(Flow, string)>, more: string)
    requires !Peek(s, "|)&;") && GetToken(s) == (Word(w), Skip(rest)) && |done| + 1 < MAXARGS
    requires Redirs(Skip(rest)) == Done((fs, Skip(more)))
    ensures Args(done, rs, s) == Args(done + [w], rs + fs, Skip(more))
  {
  }

  lemma {:induction false} ArgsWritten(done: seq<string>, rs: seq<(Flow, string)>, args: seq<Argument>, sp: string,
                                       k: string)
    requires Blank(sp) && GoodArgs(args) && Closes(k) && |done| + |args| < MAXARGS
    ensures Args(done, rs, WriteArgs(args, sp, k)) ==
            Done((Wrap(Exec(done + Words(args)), rs + ArgFlows(args)), Skip(k)))
    decreases |args|
  {
    if args == [] {
      ClosesFacts(k);
      assert done + [] == done && rs + [] == rs;
    } else {
      var a, more := args[0], WriteArgs(args[1..], sp, k);
      ArgsStart(args[1..], sp, k);
      RedirsWritten(a.rs, sp, more);
      ArgWritten(done, rs, a.word, sp, WriteRedirs(a.rs, sp, more), Flows(a.rs), more);
      ArgsWritten(done + [a.word], rs + Flows(a.rs), args[1..], sp, k);
      HeadFirst(done, Words(args));
      Regrouped(rs, Flows(a.rs), ArgFlows(args[1..]));
    }
  }

  lemma Regrouped<T>(a: seq<T>, b: seq<T>, c: seq<T>)
    ensures a + b + c == a + (b + c)
  {
  }

  // ----- The parser reads what is written

  lemma {:induction false} PartWritten(p: Part, sp: string, k: string)
    requires Blank(sp) && GoodPart(p) && Closes(k)
    ensures ParseExec(WritePart(p, sp, k)) == Done((PartMeans(p), Skip(k)))
    decreases p, 0
  {
    ClosesFacts(k);
    match p
    case Block(line, rs) => BlockWritten(line, rs, sp, k);
    case Simple(rs, args) =>
      var s := WriteArgs(args, sp, k);
      ArgsStart(args, sp, k);
      RedirsWritten(rs, sp, s);
      ArgsSkip([], Flows(rs), s);
      ArgsWritten([], Flows(rs), args, sp, k);
      assert [] + Words(args) == Words(args);
  }

  lemma {:induction false} BlockWritten(line: Line, rs: seq<Redirection>, sp: string, k: string)
    requires Blank(sp) && GoodLine(line) && GoodFiles(rs) && Closes(k)
    ensures ParseExec(WritePart(Block(line, rs), sp, k)) == Done((Wrap(LineMeans(line), Flows(rs)), Skip(k)))
    decreases line, 2
  {
    var tail := WriteRedirs(rs, sp, k);
    var close := ")" + tail;
    var inner := WriteLine(line, sp, sp + close);
    ClosesFacts(k);
    RedirsWritten(rs, sp, k);
    RedirsSkip(tail);
    SymbolHere(')', tail);
    BlankBefore(sp, close);
    SkipBlank(sp, close);
    LineWritten(line, sp, sp + close);
    LineSkip(inner);
    SymbolHere('(', inner);
    BlankBefore(sp, "(" + inner);
    PeekSkip(sp + close, ")");
  }

  lemma {:induction false} PipeWritten(p: Pipeline, sp: string, k: string)
    requires Blank(sp) && GoodPipe(p) && Closes(k) && !Peek(k, "|")
    ensures ParsePipe(WritePipe(p, sp, k)) == Done((PipeMeans(p), Skip(k)))
    decreases p, 1
  {
    SkipTwice(k);
    match p
    case One(part) =>
      PartWritten(part, sp, k);
      PeekSkip(k, "|");
    case Piped(part, more) =>
      var rest := WritePipe(more, sp, k);
      var bar := "|" + rest;
      SymbolHere('|', rest);
      BlankBefore(sp, bar);
      SkipBlank(sp, bar);
      PartWritten(part, sp, sp + bar);
      PeekSkip(sp + bar, "|");
      PipeWritten(more, sp, k);
      PipeSkip(rest);
  }

  lemma {:induction false} BacksWritten(c: Cmd<string>, n: nat, sp: string, k: string)
    requires Blank(sp) && Closes(k) && !Peek(k, "&") && !Peek(k, "|")
    ensures var s := WriteBacks(n, sp, k); Backs(c, Skip(s)) == (InBack(c, n), Skip(k)) && Closes(s) && !Peek(s, "|")
    decreases n
  {
    SkipTwice(k);
    if n == 0 {
      PeekSkip(k, "&");
    } else {
      var rest := WriteBacks(n - 1, sp, k);
      var s := sp + ("&" + rest);
      SymbolHere('&', rest);
      BlankBefore(sp, "&" + rest);
      SkipBlank(sp, "&" + rest);
      PeekSkip(s, "&");
      BacksWritten(Back(c), n - 1, sp, k);
    }
  }

  lemma {:induction false} LineWritten(l: Line, sp: string, k: string)
    requires Blank(sp) && GoodLine(l) && Stop(k)
    ensures ParseLine(WriteLine(l, sp, k)) == Done((LineMeans(l), Skip(k)))
    decreases l, 1
  {
    StopFacts(k);
    SkipTwice(k);
    match l
    case Last(pipe, backs) =>
      var s := WriteBacks(backs, sp, k);
      BacksWritten(PipeMeans(pipe), backs, sp, k);
      PipeWritten(pipe, sp, s);
      PeekSkip(k, ";");
    case Followed(pipe, backs, more) =>
      var rest := WriteLine(more, sp, k);
      var semi := ";" + rest;
      SymbolHere(';', rest);
      BlankBefore(sp, semi);
      SkipBlank(sp, semi);
      BacksWritten(PipeMeans(pipe), backs, sp, sp + semi);
      PipeWritten(pipe, sp, WriteBacks(backs, sp, sp + semi));
      PeekSkip(sp + semi, ";");
      LineWritten(more, sp, k);
      LineSkip(rest);
  }

  /** Every line of the grammar, however its redirections are marked and with any blanks, is read as what it means. */
  lemma GrammarIsRead(l: Line, sp: string)
    requires Blank(sp) && GoodLine(l)
    ensures ParseCmd(WriteLine(l, sp, "")) == Done(LineMeans(l))
  {
    LineWritten(l, sp, "");
  }

  /** ">>" opens a file as ">" does, whatever follows. */
  lemma AppendIsOutput(file: string, k: string)
    requires GoodWord(file)
    ensures Redirs(">>" + (file + k)) == Redirs(">" + (file + k))
  {
    var s, t := ">>" + (file + k), ">" + (file + k);
    assert (file + k)[0] == file[0];
    assert s[2..] == file + k && t[1..] == file + k && t[1] == file[0];
    assert Skip(s) == s && Skip(t) == t;
    assert GetToken(s) == (Append, Skip(file + k)) && GetToken(t) == (Symbol('>'), Skip(file + k));
  }
}
