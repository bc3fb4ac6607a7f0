/**
 * The shell's parser as it runs: a cursor over the line, nodes that are allocated and filled in place, and words that
 * are cut out of the line by writing NULs into it.
 */
module ShellParser {
  import opened Outcomes
  import G = ShellGrammar
  import opened Grammar = ShellGrammar

  /** A word of the line: it starts at q and ends before eq. */
  datatype Span = Span(q: nat, eq: nat)

  /** A malloc'd node; pointers are indices, and every node is allocated after the nodes it points to. */
  datatype Node =
    | ExecNode(argv: seq<Span>)
    | RedirNode(cmd: nat, file: Span, flow: Flow)
    | PipeNode(left: nat, right: nat)
    | ListNode(left: nat, right: nat)
    | BackNode(cmd: nat)

  predicate PointsBelow(n: Node, p: nat) {
    match n
    case ExecNode(_) => true
    case RedirNode(c, _, _) => c < p
    case PipeNode(l, r) => l < p && r < p
    case ListNode(l, r) => l < p && r < p
    case BackNode(c) => c < p
  }

  ghost predicate NodesOk(nodes: seq<Node>) {
    forall p :: 0 <= p < |nodes| ==> PointsBelow(nodes[p], p)
  }

  /** The tree under node p. */
  ghost function Tree(nodes: seq<Node>, p: nat): Cmd<Span>
    requires NodesOk(nodes) && p < |nodes|
  {
    match nodes[p]
    case ExecNode(argv) => Exec(argv)
    case RedirNode(c, file, flow) => Redir(Tree(nodes, c), file, flow)
    case PipeNode(l, r) => Pipe(Tree(nodes, l), Tree(nodes, r))
    case ListNode(l, r) => List(Tree(nodes, l), Tree(nodes, r))
    case BackNode(c) => Back(Tree(nodes, c))
  }

  lemma {:induction false} TreeFrame(nodes: seq<Node>, nodes': seq<Node>, p: nat)
    requires NodesOk(nodes) && NodesOk(nodes') && nodes <= nodes' && p < |nodes|
    ensures Tree(nodes', p) == Tree(nodes, p)
    decreases p
  {
    assert nodes'[p] == nodes[p];
    match nodes[p]
    case ExecNode(_) =>
    case RedirNode(c, _, _) => TreeFrame(nodes, nodes', c);
    case PipeNode(l, r) => TreeFrame(nodes, nodes', l); TreeFrame(nodes, nodes', r);
    case ListNode(l, r) => TreeFrame(nodes, nodes', l); TreeFrame(nodes, nodes', r);
    case BackNode(c) => TreeFrame(nodes, nodes', c);
  }

  // ----- What spans mean

  /** A maximal word of the line. */
  ghost predicate SpanOk(mem: string, w: Span) {
    && w.q < w.eq < |mem|
    && (forall i :: w.q <= i < w.eq ==> WordChar(mem[i]) && mem[i] != '\0')
    && (!WordChar(mem[w.eq]) || mem[w.eq] == '\0')
  }

  function Cut(mem: string, w: Span): string {
    if w.q <= w.eq <= |mem| then mem[w.q..w.eq] else ""
  }

  /** The C string at q. */
  function CString(mem: string, q: nat): string
    decreases |mem| - q
  {
    if q < |mem| && mem[q] != '\0' then [mem[q]] + CString(mem, q + 1) else ""
  }

  ghost predicate SpansOk(mem: string, c: Cmd<Span>) {
    match c
    case Exec(argv) => forall i :: 0 <= i < |argv| ==> SpanOk(mem, argv[i])
    case Redir(d, file, _) => SpansOk(mem, d) && SpanOk(mem, file)
    case Pipe(l, r) => SpansOk(mem, l) && SpansOk(mem, r)
    case List(l, r) => SpansOk(mem, l) && SpansOk(mem, r)
    case Back(d) => SpansOk(mem, d)
  }

  function CutAll(mem: string, argv: seq<Span>): (ws: seq<string>)
    ensures |ws| == |argv| && forall i :: 0 <= i < |argv| ==> ws[i] == Cut(mem, argv[i])
  {
    seq(|argv|, i requires 0 <= i < |argv| => Cut(mem, argv[i]))
  }

  /** The command while its words are still counted strings. */
  function Counted(mem: string, c: Cmd<Span>): Cmd<string> {
    match c
    case Exec(argv) => Exec(CutAll(mem, argv))
    case Redir(d, file, flow) => Redir(Counted(mem, d), Cut(mem, file), flow)
    case Pipe(l, r) => Pipe(Counted(mem, l), Counted(mem, r))
    case List(l, r) => List(Counted(mem, l), Counted(mem, r))
    case Back(d) => Back(Counted(mem, d))
  }

  function StringsAt(mem: string, argv: seq<Span>): (ws: seq<string>)
    ensures |ws| == |argv| && forall i :: 0 <= i < |argv| ==> ws[i] == CString(mem, argv[i].q)
  {
    seq(|argv|, i requires 0 <= i < |argv| => CString(mem, argv[i].q))
  }

  /** The command as runcmd sees it: its words are the C strings that start at the q of each span. */
  function Terminated(mem: string, c: Cmd<Span>): Cmd<string> {
    match c
    case Exec(argv) => Exec(StringsAt(mem, argv))
    case Redir(d, file, flow) => Redir(Terminated(mem, d), CString(mem, file.q), flow)
    case Pipe(l, r) => Pipe(Terminated(mem, l), Terminated(mem, r))
    case List(l, r) => List(Terminated(mem, l), Terminated(mem, r))
    case Back(d) => Back(Terminated(mem, d))
  }

  /** Where nulterminate writes. */
  ghost function Ends(c: Cmd<Span>): set<nat> {
    match c
    case Exec(argv) => set i | 0 <= i < |argv| :: argv[i].eq
    case Redir(d, file, _) => Ends(d) + {file.eq}
    case Pipe(l, r) => Ends(l) + Ends(r)
    case List(l, r) => Ends(l) + Ends(r)
    case Back(d) => Ends(d)
  }

  ghost predicate EndsBelow(ends: set<nat>, n: nat) {
    forall e :: e in ends ==> e < n
  }

  lemma SmallerEnds(ends: set<nat>, some: set<nat>, others: set<nat>, n: nat)
    requires EndsBelow(ends, n) && ends == some + others
    ensures EndsBelow(some, n) && EndsBelow(others, n)
  {
    assert some <= ends && others <= ends;
  }

  /** mem' is mem with NULs at the given places. */
  ghost predicate Nulled(mem: string, mem': string, ends: set<nat>) {
    |mem'| == |mem| && forall k :: 0 <= k < |mem| ==> mem'[k] == if k in ends then '\0' else mem[k]
  }

  lemma {:induction false} CStringIs(mem: string, q: nat, eq: nat)
    requires q <= eq < |mem| && mem[eq] == '\0' && forall i :: q <= i < eq ==> mem[i] != '\0'
    ensures CString(mem, q) == mem[q..eq]
    decreases eq - q
  {
    if q < eq {
      CStringIs(mem, q + 1, eq);
    }
  }

  /** No word of the line is damaged by the NULs behind other words. */
  lemma WordSurvives(mem: string, mem': string, ends: set<nat>, w: Span)
    requires SpanOk(mem, w) && Nulled(mem, mem', ends) && w.eq in ends
    requires forall e :: e in ends ==> e < |mem| && (!WordChar(mem[e]) || mem[e] == '\0')
    ensures CString(mem', w.q) == Cut(mem, w)
  {
    CStringIs(mem', w.q, w.eq);
    assert mem'[w.q..w.eq] == mem[w.q..w.eq];
  }

  lemma {:induction false} EndsStop(mem: string, c: Cmd<Span>)
    requires SpansOk(mem, c)
    ensures forall e :: e in Ends(c) ==> e < |mem| && (!WordChar(mem[e]) || mem[e] == '\0')
  {
    match c
    case Exec(_) =>
    case Redir(d, file, _) => EndsStop(mem, d);
    case Pipe(l, r) => EndsStop(mem, l); EndsStop(mem, r);
    case List(l, r) => EndsStop(mem, l); EndsStop(mem, r);
    case Back(d) => EndsStop(mem, d);
  }

  /** After nulterminate, the C strings of a command are its counted words. */
  lemma {:induction false} WordsSurvive(mem: string, mem': string, ends: set<nat>, c: Cmd<Span>)
    requires SpansOk(mem, c) && Nulled(mem, mem', ends) && Ends(c) <= ends
    requires forall e :: e in ends ==> e < |mem| && (!WordChar(mem[e]) || mem[e] == '\0')
    ensures Terminated(mem', c) == Counted(mem, c)
  {
    match c
    case Exec(argv) =>
      forall i | 0 <= i < |argv|
        ensures CString(mem', argv[i].q) == Cut(mem, argv[i])
      {
        assert argv[i].eq in Ends(c);
        WordSurvives(mem, mem', ends, argv[i]);
      }
    case Redir(d, file, _) =>
      WordsSurvive(mem, mem', ends, d);
      WordSurvives(mem, mem', ends, file);
    case Pipe(l, r) => WordsSurvive(mem, mem', ends, l); WordsSurvive(mem, mem', ends, r);
    case List(l, r) => WordsSurvive(mem, mem', ends, l); WordsSurvive(mem, mem', ends, r);
    case Back(d) => WordsSurvive(mem, mem', ends, d);
  }

  // ----- Redirections around a node that may still change

  /** From p, redirection nodes lead down to cmd; rs are those nodes, innermost first. */
  ghost predicate Leads(nodes: seq<Node>, p: nat, cmd: nat, rs: seq<(Flow, Span)>)
    decreases |rs|
  {
    && p < |nodes|
    && if rs == [] then p == cmd
       else
         var last := rs[|rs| - 1];
         && p > cmd && nodes[p].RedirNode? && nodes[p] == RedirNode(nodes[p].cmd, last.1, last.0)
         && Leads(nodes, nodes[p].cmd, cmd, rs[..|rs| - 1])
  }

  lemma {:induction false} LeadsFrame(nodes: seq<Node>, nodes': seq<Node>, p: nat, cmd: nat, rs: seq<(Flow, Span)>)
    requires Leads(nodes, p, cmd, rs) && |nodes| <= |nodes'|
    requires forall k :: cmd < k < |nodes| ==> nodes'[k] == nodes[k]
    ensures Leads(nodes', p, cmd, rs)
    decreases |rs|
  {
    if rs != [] {
      LeadsFrame(nodes, nodes', nodes[p].cmd, cmd, rs[..|rs| - 1]);
    }
  }

  function CutFiles(mem: string, rs: seq<(Flow, Span)>): (fs: seq<(Flow, string)>)
    ensures |fs| == |rs| && forall i :: 0 <= i < |rs| ==> fs[i] == (rs[i].0, Cut(mem, rs[i].1))
  {
    seq(|rs|, i requires 0 <= i < |rs| => (rs[i].0, Cut(mem, rs[i].1)))
  }

  ghost predicate FilesOk(mem: string, rs: seq<(Flow, Span)>) {
    forall i :: 0 <= i < |rs| ==> SpanOk(mem, rs[i].1)
  }

  lemma {:induction false} WrapLast(c: Cmd<string>, rs: seq<(Flow, string)>)
    requires rs != []
    ensures var k := |rs| - 1; Wrap(c, rs) == Redir(Wrap(c, rs[..k]), rs[k].1, rs[k].0)
    decreases |rs|
  {
    var k := |rs| - 1;
    if k > 0 {
      WrapLast(Redir(c, rs[0].1, rs[0].0), rs[1..]);
      assert rs[1..][..k - 1] == rs[..k][1..];
    }
  }

  lemma WrapLastFile(mem: string, c: Cmd<string>, rs: seq<(Flow, Span)>)
    requires rs != []
    ensures var k := |rs| - 1;
      Wrap(c, CutFiles(mem, rs)) == Redir(Wrap(c, CutFiles(mem, rs[..k])), Cut(mem, rs[k].1), rs[k].0)
  {
    WrapLast(c, CutFiles(mem, rs));
    assert CutFiles(mem, rs)[..|rs| - 1] == CutFiles(mem, rs[..|rs| - 1]);
  }

  lemma {:induction false} LeadsWrap(mem: string, nodes: seq<Node>, p: nat, cmd: nat, rs: seq<(Flow, Span)>)
    requires NodesOk(nodes) && cmd < |nodes| && Leads(nodes, p, cmd, rs) && FilesOk(mem, rs)
    requires SpansOk(mem, Tree(nodes, cmd))
    ensures SpansOk(mem, Tree(nodes, p))
    ensures Counted(mem, Tree(nodes, p)) == Wrap(Counted(mem, Tree(nodes, cmd)), CutFiles(mem, rs))
    decreases |rs|
  {
    if rs != [] {
      var k := |rs| - 1;
      LeadsWrap(mem, nodes, nodes[p].cmd, cmd, rs[..k]);
      WrapLastFile(mem, Counted(mem, Tree(nodes, cmd)), rs);
    }
  }

  lemma LeadsLast(nodes: seq<Node>, p': nat, p: nat, cmd: nat, rs: seq<(Flow, Span)>, flow: Flow, file: Span)
    requires Leads(nodes, p, cmd, rs) && cmd <= p < p' < |nodes| && nodes[p'] == RedirNode(p, file, flow)
    ensures Leads(nodes, p', cmd, rs + [(flow, file)])
  {
    assert (rs + [(flow, file)])[..|rs|] == rs;
  }

  lemma LeadsOn(nodes: seq<Node>, nodes': seq<Node>, p': nat, p: nat, cmd: nat, rs: seq<(Flow, Span)>, flow: Flow,
                file: Span)
    requires Leads(nodes, p, cmd, rs) && cmd <= p < p' && p' == |nodes| && nodes' == nodes + [RedirNode(p, file, flow)]
    ensures Leads(nodes', p', cmd, rs + [(flow, file)])
  {
    LeadsFrame(nodes, nodes', p, cmd, rs);
    LeadsLast(nodes', p', p, cmd, rs, flow, file);
  }

  lemma {:induction false} LeadsMore(nodes: seq<Node>, p: nat, cmd: nat, rs: seq<(Flow, Span)>, p': nat,
                                     more: seq<(Flow, Span)>)
    requires Leads(nodes, p, cmd, rs) && Leads(nodes, p', p, more) && cmd <= p
    ensures Leads(nodes, p', cmd, rs + more)
    decreases |more|
  {
    if more == [] {
      assert rs + more == rs;
    } else {
      LeadsMore(nodes, p, cmd, rs, nodes[p'].cmd, more[..|more| - 1]);
      assert (rs + more)[..|rs + more| - 1] == rs + more[..|more| - 1];
    }
  }

  // ----- The parser

  function Code(t: Token): char {
    match t
    case End => '\0'
    case Symbol(c) => c
    case Append => '+'
    case Word(_) => 'a'
  }

  lemma CodeTells(s: string)
    ensures var t := GetToken(s).0;
            && (Code(t) == 'a' <==> t.Word?) && (Code(t) == '\0' <==> t == End)
               && (Code(t) == '<' <==> t == Symbol('<'))
  {
  }

  class Parser {
    const buf: array<char>
    const es: nat
    var s: nat
    var nodes: seq<Node>

    /** The line in buf[..es] has no NUL, and one behind it. */
    ghost predicate Valid()
      reads this, buf
    {
      && s <= es < buf.Length && buf[es] == '\0' && (forall i :: 0 <= i < es ==> buf[i] != '\0')
      && NodesOk(nodes)
    }

    /** What is left of the line. */
    ghost function Text(): string
      requires s <= es < buf.Length
      reads this, buf
    {
      buf[s..es]
    }

    /** r is the pointer to a tree that says what the grammar's function says; nothing allocated before has changed. */
    ghost predicate Gives(before: seq<Node>, r: Outcome<nat>, f: Parsed<Cmd<string>>)
      reads this, buf
    {
      && Valid() && before <= nodes
      && (r.Panic? <==> f.Panic?)
      && (r.Done? ==> IsCmd(r.value, f.value.0) && Text() == f.value.1)
    }

    ghost predicate IsCmd(p: nat, c: Cmd<string>)
      requires NodesOk(nodes)
      reads this, buf
    {
      && p < |nodes| && SpansOk(buf[..], Tree(nodes, p)) && Counted(buf[..], Tree(nodes, p)) == c
    }

    constructor (line: array<char>)
      requires exists i :: 0 <= i < line.Length && line[i] == '\0'
      ensures Valid() && buf == line && s == 0 && nodes == []
    {
      var n := StrLen(line);
      buf, es, s, nodes := line, n, 0, [];
    }

    static method StrLen(line: array<char>) returns (n: nat)
      requires exists i :: 0 <= i < line.Length && line[i] == '\0'
      ensures n < line.Length && line[n] == '\0' && forall i :: 0 <= i < n ==> line[i] != '\0'
    {
      n := 0;
      while line[n] != '\0'
        invariant n < line.Length && forall i :: 0 <= i < n ==> line[i] != '\0'
        decreases line.Length - n
      {
        n := n + 1;
      }
    }

    /** Moves the cursor past white space. */
    method SkipSpace()
      requires Valid()
      modifies this`s
      ensures Valid() && s >= old(s) && Text() == Skip(old(Text()))
    {
      while s < es && buf[s] in WHITESPACE
        invariant Valid() && s >= old(s) && Skip(Text()) == Skip(old(Text()))
      {
        assert Text()[1..] == buf[s + 1..es];
        s := s + 1;
      }
    }

    /** peek: skips white space and tells whether the next character is one of toks. */
    method Peek(toks: string) returns (b: bool)
      requires Valid()
      modifies this`s
      ensures Valid() && s >= old(s) && Text() == Skip(old(Text())) && b == G.Peek(old(Text()), toks)
    {
      SkipSpace();
      b := buf[s] != '\0' && buf[s] in toks;
    }

    /** gettoken: what kind of token comes next, and where it is. */
    method GetToken() returns (ret: char, q: nat, eq: nat)
      requires Valid()
      modifies this`s
      ensures Valid() && s >= old(s) && Text() == G.GetToken(old(Text())).1
      ensures IsToken(ret, q, eq, G.GetToken(old(Text())).0)
    {
      SkipSpace();
      q := s;
      ret := Lex();
      eq := s;
      SkipSpace();
    }

    ghost predicate IsToken(ret: char, q: nat, eq: nat, t: Token)
      reads buf
    {
      ret == Code(t) && (t.Word? ==> SpanOk(buf[..], Span(q, eq)) && Cut(buf[..], Span(q, eq)) == t.w)
    }

    /** The switch of gettoken. */
    method Lex() returns (ret: char)
      requires Valid() && (Text() == "" || Text()[0] !in WHITESPACE)
      modifies this`s
      ensures Valid() && s >= old(s) && Text() == G.Lex(old(Text())).1
      ensures IsToken(ret, old(s), s, G.Lex(old(Text())).0)
    {
      ret := buf[s];
      if buf[s] == '\0' {
      } else if buf[s] == '>' {
        s := s + 1;
        assert Text() == old(Text())[1..];
        if buf[s] == '>' {
          ret := '+';
          s := s + 1;
          assert Text() == old(Text())[2..];
        }
      } else if buf[s] in SYMBOLS {
        s := s + 1;
        assert Text() == old(Text())[1..];
      } else {
        ret := 'a';
        TakeWord();
      }
    }

    /** The inner loop of gettoken over the characters of a word. */
    method TakeWord()
      requires Valid() && s < es && WordChar(buf[s])
      modifies this`s
      ensures Valid() && old(s) < s
      ensures SpanOk(buf[..], Span(old(s), s)) && Cut(buf[..], Span(old(s), s)) == WordOf(old(Text()))
      ensures Text() == old(Text())[|WordOf(old(Text()))|..]
    {
      while s < es && WordChar(buf[s])
        invariant Valid() && old(s) <= s && (s == old(s) ==> s < es && WordChar(buf[s]))
        invariant forall i :: old(s) <= i < s ==> WordChar(buf[i])
        decreases es - s
      {
        s := s + 1;
      }
      WordSplit(buf[..], old(s), s, es);
    }

    /** Allocates a node. */
    method Malloc(n: Node) returns (p: nat)
      requires NodesOk(nodes) && PointsBelow(n, |nodes|)
      modifies this`nodes
      ensures NodesOk(nodes) && p == |old(nodes)| && nodes == old(nodes) + [n]
    {
      p := |nodes|;
      nodes := nodes + [n];
    }

    /** rs has been wrapped around cmd, and p is the outermost node. */
    ghost predicate Wrapped(before: seq<Node>, cmd: nat, p: nat, rs: seq<(Flow, Span)>)
      reads this, buf
    {
      Valid() && before <= nodes && cmd <= p && Leads(nodes, p, cmd, rs) && FilesOk(buf[..], rs)
    }

    /** parseredirs: wraps a redirection around cmd for each one in front of the cursor. */
    method ParseRedirs(cmd: nat) returns (r: Outcome<nat>, ghost rs: seq<(Flow, Span)>)
      requires Valid() && cmd < |nodes|
      modifies this`s, this`nodes
      ensures Valid() && s >= old(s) && old(nodes) <= nodes
      ensures r.Panic? <==> Redirs(old(Text())).Panic?
      ensures r.Done? ==>
        && Wrapped(old(nodes), cmd, r.value, rs)
        && Redirs(old(Text())) == Done((CutFiles(buf[..], rs), Text()))
    {
      var p := cmd;
      rs := [];
      RedirsSkip(Text());
      var more := PeekAhead("<>");
      PrefixedNone(Redirs(Text()));
      while more
        invariant s >= old(s) && Wrapped(old(nodes), cmd, p, rs)
        invariant more == G.Peek(Text(), "<>") && Skip(Text()) == Text()
        invariant Redirs(old(Text())) == Prefixed(CutFiles(buf[..], rs), Redirs(Text()))
        decreases es - s
      {
        p, rs :- ParseRedir(cmd, p, old(nodes), rs);
        RedirsSkip(Text());
        more := PeekAhead("<>");
      }
      NoMoreRedirs(CutFiles(buf[..], rs), Text());
      return Done(p), rs;
    }

    /** One round of parseredirs: one more redirection, around p. */
    method ParseRedir(cmd: nat, p: nat, ghost before: seq<Node>, ghost rs: seq<(Flow, Span)>)
      returns (r: Outcome<nat>, ghost rs': seq<(Flow, Span)>)
      requires Wrapped(before, cmd, p, rs) && G.Peek(Text(), "<>")
      modifies this`s, this`nodes
      ensures Valid() && s > old(s) && before <= nodes
      ensures r.Panic? ==> Redirs(old(Text())).Panic?
      ensures r.Done? ==>
        && Wrapped(before, cmd, r.value, rs')
        && Prefixed(CutFiles(buf[..], rs), Redirs(old(Text()))) == Prefixed(CutFiles(buf[..], rs'), Redirs(Text()))
    {
      ghost var nodes0 := nodes;
      CodeTells(Text());
      var tok, _, _ := GetToken();
      CodeTells(Text());
      var kind, q, eq := GetToken();
      rs' := rs;
      if kind != 'a' {
        return Panic, rs';
      }
      var flow := if tok == '<' then Input else Output;
      var p' := Malloc(RedirNode(p, Span(q, eq), flow));
      rs' := rs + [(flow, Span(q, eq))];
      LeadsOn(nodes0, nodes, p', p, cmd, rs, flow, Span(q, eq));
      PrefixedMore(buf[..], rs, (flow, Span(q, eq)), Redirs(Text()));
      return Done(p'), rs';
    }

    /** parseexec: a group, or a simple command whose node is filled in while redirections already point to it. */
    method ParseExec() returns (r: Outcome<nat>)
      requires Valid()
      modifies this`s, this`nodes
      ensures Gives(old(nodes), r, G.ParseExec(old(Text())))
      decreases es - s, 1
    {
      ExecSkip(Text());
      var group := PeekAhead("(");
      if group {
        r := ParseBlock();
        return;
      }
      var cmd := Malloc(ExecNode([]));
      var ret, rs :- ParseRedirs(cmd);
      r := ParseArgs(cmd, ret, old(nodes), rs);
    }

    /** The argument loop of parseexec. */
    method ParseArgs(cmd: nat, start: nat, ghost before: seq<Node>, ghost rs0: seq<(Flow, Span)>)
      returns (r: Outcome<nat>)
      requires InArgs(before, cmd, start, [], rs0)
      modifies this`s, this`nodes
      ensures Gives(before, r, Args([], CutFiles(buf[..], rs0), old(Text())))
    {
      var ret, argc := start, 0;
      ghost var rs, argv: seq<Span> := rs0, [];
      assert CutAll(buf[..], argv) == [];
      ghost var goal := Args([], CutFiles(buf[..], rs), Text());
      ArgsSkip([], CutFiles(buf[..], rs), Text());
      var done := PeekAhead("|)&;");
      while !done
        invariant InArgs(before, cmd, ret, argv, rs) && argc == |argv| < MAXARGS
        invariant done == G.Peek(Text(), "|)&;") && Skip(Text()) == Text()
        invariant goal == Args(CutAll(buf[..], argv), CutFiles(buf[..], rs), Text())
        decreases es - s
      {
        var tok, q, eq := NextWord(CutAll(buf[..], argv), CutFiles(buf[..], rs));
        if tok == '\0' {
          break;
        }
        if tok != 'a' {
          return Panic;
        }
        ghost var more;
        ret, more :- AddWord(cmd, ret, argc, q, eq, before, argv, rs);
        CutMore(buf[..], argv, Span(q, eq), rs, more);
        argc, argv, rs := argc + 1, argv + [Span(q, eq)], rs + more;
        ArgsSkip(CutAll(buf[..], argv), CutFiles(buf[..], rs), Text());
        done := PeekAhead("|)&;");
      }
      ArgsUnfold(CutAll(buf[..], argv), CutFiles(buf[..], rs), Text());
      LeadsWrap(buf[..], nodes, ret, cmd, rs);
      return Done(ret);
    }

    /** The gettoken of the argument loop, with what it means for the loop. */
    method NextWord(ghost argv: seq<string>, ghost rs: seq<(Flow, string)>) returns (tok: char, q: nat, eq: nat)
      requires Valid() && !G.Peek(Text(), "|)&;") && Skip(Text()) == Text()
      modifies this`s
      ensures Valid() && s >= old(s)
      ensures var w := Cut(buf[..], Span(q, eq));
        if tok == '\0' then old(Text()) == Text() == ""
        else if tok != 'a' || |argv| + 1 >= MAXARGS || Redirs(Text()).Panic? then Args(argv, rs, old(Text())) == Panic
        else Args(argv, rs, old(Text())) == Args(argv + [w], rs + Redirs(Text()).value.0, Redirs(Text()).value.1)
      ensures tok != '\0' ==> s > old(s)
      ensures tok == 'a' ==> SpanOk(buf[..], Span(q, eq))
    {
      ArgsUnfold(argv, rs, Text());
      CodeTells(Text());
      tok, q, eq := GetToken();
    }

    /** Enters one word into the command's node, and then the redirections behind the word. */
    method AddWord(cmd: nat, ret: nat, argc: nat, q: nat, eq: nat, ghost before: seq<Node>, ghost argv: seq<Span>,
                   ghost rs: seq<(Flow, Span)>)
      returns (r: Outcome<nat>, ghost more: seq<(Flow, Span)>)
      requires InArgs(before, cmd, ret, argv, rs) && argc == |argv| && SpanOk(buf[..], Span(q, eq))
      modifies this`s, this`nodes
      ensures s >= old(s) && Valid() && before <= nodes
      ensures r.Panic? <==> |argv| + 1 >= MAXARGS || Redirs(old(Text())).Panic?
      ensures r.Done? ==>
        && InArgs(before, cmd, r.value, argv + [Span(q, eq)], rs + more)
        && Redirs(old(Text())) == Done((CutFiles(buf[..], more), Text()))
    {
      more := [];
      ghost var nodes0 := nodes;
      nodes := nodes[cmd := ExecNode(nodes[cmd].argv + [Span(q, eq)])];
      LeadsFrame(nodes0, nodes, ret, cmd, rs);
      if argc + 1 >= MAXARGS {
        return Panic, more;
      }
      ghost var nodes1 := nodes;
      var p;
      p, more :- ParseRedirs(ret);
      LeadsFrame(nodes1, nodes, ret, cmd, rs);
      LeadsMore(nodes, ret, cmd, rs, p, more);
      return Done(p), more;
    }

    /** peek, for text that is read on afterwards. */
    method PeekAhead(toks: string) returns (b: bool)
      requires Valid()
      modifies this`s
      ensures Valid() && s >= old(s) && Text() == Skip(old(Text())) == Skip(Text())
        && b == G.Peek(Text(), toks) == G.Peek(old(Text()), toks)
    {
      SkipTwice(Text());
      PeekSkip(Text(), toks);
      b := Peek(toks);
    }

    /** In the argument loop: cmd holds the words so far, and ret leads down to it. */
    ghost predicate InArgs(before: seq<Node>, cmd: nat, ret: nat, argv: seq<Span>, rs: seq<(Flow, Span)>)
      reads this, buf
    {
      && Valid() && before <= nodes && cmd == |before| < |nodes| && nodes[cmd] == ExecNode(argv)
      && cmd <= ret && Leads(nodes, ret, cmd, rs) && FilesOk(buf[..], rs)
      && forall i :: 0 <= i < |argv| ==> SpanOk(buf[..], argv[i])
    }

    method ParsePipe() returns (r: Outcome<nat>)
      requires Valid()
      modifies this`s, this`nodes
      ensures Gives(old(nodes), r, G.ParsePipe(old(Text())))
      decreases es - s, 2
    {
      var cmd :- ParseExec();
      ghost var nodes1, s1 := nodes, Text();
      var more := Peek("|");
      if more {
        PeekSkip(s1, "|");
        var _, _, _ := GetToken();
        var right :- ParsePipe();
        TreeFrame(nodes1, nodes, cmd);
        cmd := Join(PipeNode(cmd, right));
      }
      return Done(cmd);
    }

    method ParseLine() returns (r: Outcome<nat>)
      requires Valid()
      modifies this`s, this`nodes
      ensures Gives(old(nodes), r, G.ParseLine(old(Text())))
      decreases es - s, 3
    {
      var cmd :- ParsePipe();
      cmd := ParseBacks(cmd);
      ghost var nodes1, s1 := nodes, Text();
      var more := Peek(";");
      if more {
        PeekSkip(s1, ";");
        var _, _, _ := GetToken();
        var right :- ParseLine();
        TreeFrame(nodes1, nodes, cmd);
        cmd := Join(ListNode(cmd, right));
      }
      return Done(cmd);
    }

    /** Wraps the tree in one background node for each & that follows. */
    method ParseBacks(start: nat) returns (cmd: nat)
      requires Valid() && start < |nodes| && SpansOk(buf[..], Tree(nodes, start))
      modifies this`s, this`nodes
      ensures Valid() && s >= old(s) && old(nodes) <= nodes
      ensures var (c, rest) := Backs(old(Counted(buf[..], Tree(nodes, start))), old(Text()));
              IsCmd(cmd, c) && Text() == rest
    {
      cmd := start;
      ghost var c := Counted(buf[..], Tree(nodes, cmd));
      BacksSkip(c, Text());
      var more := PeekAhead("&");
      while more
        invariant Valid() && s >= old(s) && old(nodes) <= nodes && IsCmd(cmd, c)
        invariant more == G.Peek(Text(), "&") && Skip(Text()) == Text()
        invariant Backs(old(Counted(buf[..], Tree(nodes, start))), old(Text())) == Backs(c, Text())
        decreases es - s
      {
        var _, _, _ := GetToken();
        cmd := Join(BackNode(cmd));
        c := Back(c);
        BacksSkip(c, Text());
        more := PeekAhead("&");
      }
    }

    /** Allocates a node above trees that are there already. */
    method Join(n: Node) returns (p: nat)
      requires Valid() && PointsBelow(n, |nodes|) && !n.ExecNode?
      modifies this`nodes
      ensures Valid() && p == |old(nodes)| && nodes == old(nodes) + [n]
      ensures Tree(nodes, p) == match n {
        case RedirNode(c, file, flow) => Redir(old(Tree(nodes, c)), file, flow)
        case PipeNode(l, r) => Pipe(old(Tree(nodes, l)), old(Tree(nodes, r)))
        case ListNode(l, r) => List(old(Tree(nodes, l)), old(Tree(nodes, r)))
        case BackNode(c) => Back(old(Tree(nodes, c)))
        case ExecNode(argv) => Exec(argv)
      }
    {
      p := Malloc(n);
      match n
      case ExecNode(_) =>
      case RedirNode(c, _, _) => TreeFrame(old(nodes), nodes, c);
      case PipeNode(l, r) => TreeFrame(old(nodes), nodes, l); TreeFrame(old(nodes), nodes, r);
      case ListNode(l, r) => TreeFrame(old(nodes), nodes, l); TreeFrame(old(nodes), nodes, r);
      case BackNode(c) => TreeFrame(old(nodes), nodes, c);
    }

    method ParseBlock() returns (r: Outcome<nat>)
      requires Valid()
      modifies this`s, this`nodes
      ensures Gives(old(nodes), r, G.ParseBlock(old(Text())))
      decreases es - s, 0
    {
      var open := PeekAhead("(");
      if !open {
        return Panic;
      }
      PeekSkip(old(Text()), "(");
      var _, _, _ := GetToken();
      var cmd :- ParseLine();
      ghost var s1 := Text();
      var close := Peek(")");
      if !close {
        return Panic;
      }
      PeekSkip(s1, ")");
      var _, _, _ := GetToken();
      ghost var nodes1 := nodes;
      var ret, rs :- ParseRedirs(cmd);
      TreeFrame(nodes1, nodes, cmd);
      LeadsWrap(buf[..], nodes, ret, cmd, rs);
      return Done(ret);
    }

    /** nulterminate: writes a NUL behind every word of the tree, and nothing else. */
    method NulTerminate(cmd: nat)
      requires NodesOk(nodes) && cmd < |nodes| && EndsBelow(Ends(Tree(nodes, cmd)), buf.Length)
      modifies buf
      ensures Nulled(old(buf[..]), buf[..], Ends(Tree(nodes, cmd)))
      decreases cmd
    {
      ghost var ends := Ends(Tree(nodes, cmd));
      match nodes[cmd]
      case ExecNode(argv) =>
        for i := 0 to |argv|
          invariant Nulled(old(buf[..]), buf[..], set k | 0 <= k < i :: argv[k].eq)
        {
          assert argv[i].eq in ends;
          assert (set k | 0 <= k < i + 1 :: argv[k].eq) == (set k | 0 <= k < i :: argv[k].eq) + {argv[i].eq};
          buf[argv[i].eq] := '\0';
        }
      case RedirNode(c, file, _) =>
        SmallerEnds(ends, Ends(Tree(nodes, c)), {file.eq}, buf.Length);
        NulTerminate(c);
        buf[file.eq] := '\0';
      case PipeNode(l, r) =>
        SmallerEnds(ends, Ends(Tree(nodes, l)), Ends(Tree(nodes, r)), buf.Length);
        NulTerminate(l);
        NulTerminate(r);
      case ListNode(l, r) =>
        SmallerEnds(ends, Ends(Tree(nodes, l)), Ends(Tree(nodes, r)), buf.Length);
        NulTerminate(l);
        NulTerminate(r);
      case BackNode(c) =>
        NulTerminate(c);
    }

    /**
     * parsecmd: halts exactly on the lines that the grammar rejects; otherwise the C strings of the tree it returns are
     * the words of the command that the grammar reads.
     */
    method ParseCmd() returns (r: Outcome<nat>)
      requires Valid()
      modifies this`s, this`nodes, buf
      ensures r.Panic? <==> G.ParseCmd(old(Text())).Panic?
      ensures r.Done? ==>
        && NodesOk(nodes) && r.value < |nodes|
        && Done(Terminated(buf[..], Tree(nodes, r.value))) == G.ParseCmd(old(Text()))
    {
      var cmd :- ParseLine();
      SkipSpace();
      if s != es {
        return Panic;
      }
      ghost var mem, c := buf[..], Tree(nodes, cmd);
      EndsStop(mem, c);
      assert EndsBelow(Ends(c), buf.Length);
      NulTerminate(cmd);
      WordsSurvive(mem, buf[..], Ends(c), c);
      return Done(cmd);
    }
  }

  /** From a printed command in memory to the tree that runcmd walks: parsing gives back what was printed. */
  method ParsePrinted(c: Cmd<string>, line: array<char>) returns (parser: Parser, r: Outcome<nat>)
    requires WellFormed(c) && line.Length == |Print(c)| + 1 && line[..] == Print(c) + ['\0'] && '\0' !in Print(c)
    modifies line
    ensures r.Done? && NodesOk(parser.nodes) && r.value < |parser.nodes|
    ensures Terminated(line[..], Tree(parser.nodes, r.value)) == c
  {
    assert line[|Print(c)|] == '\0';
    parser := new Parser(line);
    assert line[..parser.es] == Print(c);
    RoundTrip(c);
    r := parser.ParseCmd();
  }

  lemma BacksSkip(c: Cmd<string>, s: string)
    ensures Backs(c, Skip(s)) == Backs(c, s)
  {
    SkipTwice(s);
    PeekSkip(s, "&");
  }

  lemma CutMore(mem: string, argv: seq<Span>, w: Span, rs: seq<(Flow, Span)>, more: seq<(Flow, Span)>)
    ensures CutAll(mem, argv + [w]) == CutAll(mem, argv) + [Cut(mem, w)]
    ensures CutFiles(mem, rs + more) == CutFiles(mem, rs) + CutFiles(mem, more)
  {
  }

  lemma WordSplit(mem: string, q: nat, s: nat, es: nat)
    requires q <= s <= es <= |mem| && (forall i :: q <= i < s ==> WordChar(mem[i])) && (s < es ==> !WordChar(mem[s]))
    ensures WordOf(mem[q..es]) == mem[q..s] && mem[q..es][s - q..] == mem[s..es]
  {
    assert mem[q..es] == mem[q..s] + mem[s..es];
    WordOfWord(mem[q..s], mem[s..es]);
  }

  lemma {:induction false} NoMoreRedirs(before: seq<(Flow, string)>, s: string)
    requires !G.Peek(s, "<>") && Skip(s) == s
    ensures Prefixed(before, Redirs(s)) == Done((before, s))
  {
    assert before + [] == before;
  }

  /** One round of the argument loop, as a function. */
  lemma {:induction false} ArgsUnfold(argv: seq<string>, rs: seq<(Flow, string)>, s: string)
    requires Skip(s) == s
    ensures G.Peek(s, "|)&;") || s == "" ==> Args(argv, rs, s) == Done((Wrap(Exec(argv), rs), s))
    ensures var (tok, s1) := G.GetToken(s);
            !G.Peek(s, "|)&;") && s != "" ==>
              if !tok.Word? || |argv| + 1 >= MAXARGS || Redirs(s1).Panic? then Args(argv, rs, s) == Panic
              else Args(argv, rs, s) == Args(argv + [tok.w], rs + Redirs(s1).value.0, Redirs(s1).value.1)
  {
  }

  /** The result of parseredirs after some redirections have been read. */
  function Prefixed(before: seq<(Flow, string)>, r: Parsed<seq<(Flow, string)>>): Parsed<seq<(Flow, string)>> {
    if r.Panic? then Panic else Done((before + r.value.0, r.value.1))
  }

  lemma PrefixedNone(r: Parsed<seq<(Flow, string)>>)
    ensures Prefixed([], r) == r
  {
    assert r.Done? ==> [] + r.value.0 == r.value.0;
  }

  lemma PrefixedMore(mem: string, rs: seq<(Flow, Span)>, x: (Flow, Span), r: Parsed<seq<(Flow, string)>>)
    ensures Prefixed(CutFiles(mem, rs), Prefixed([(x.0, Cut(mem, x.1))], r)) == Prefixed(CutFiles(mem, rs + [x]), r)
  {
    var y := (x.0, Cut(mem, x.1));
    assert CutFiles(mem, rs + [x]) == CutFiles(mem, rs) + [y];
    assert r.Done? ==> CutFiles(mem, rs) + ([y] + r.value.0) == CutFiles(mem, rs) + [y] + r.value.0;
  }
}
