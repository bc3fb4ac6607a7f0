/** grep.c: the matcher against a declarative meaning of patterns, and the buffered line splitter. */
module Grep {
  import opened Basics

  // ----- What a pattern means

  datatype Item = One(c: char) | Star(c: char)

  /** The items of a pattern, and whether it ends with "$". */
  datatype Pattern = Pattern(items: seq<Item>, atEnd: bool)

  function Parse(re: string): Pattern {
    if re == "" then Pattern([], false)
    else if |re| >= 2 && re[1] == '*' then
      var p := Parse(re[2..]);
      p.(items := [Star(re[0])] + p.items)
    else if re == "$" then Pattern([], true)
    else
      var p := Parse(re[1..]);
      p.(items := [One(re[0])] + p.items)
  }

  predicate Ok(c: char, x: char) {
    c == '.' || x == c
  }

  /** The piece of text that an item may stand for: one character, or a run of any length. */
  predicate Fits(item: Item, piece: string) {
    && (item.One? ==> |piece| == 1)
    && forall i :: 0 <= i < |piece| ==> Ok(item.c, piece[i])
  }

  function Concat(pieces: seq<string>): string {
    if pieces == [] then "" else pieces[0] + Concat(pieces[1..])
  }

  /** pieces fit the items one by one, and together begin the text, or are all of it. */
  ghost predicate Splits(p: Pattern, pieces: seq<string>, text: string) {
    && |pieces| == |p.items| && (forall i :: 0 <= i < |pieces| ==> Fits(p.items[i], pieces[i]))
    && if p.atEnd then Concat(pieces) == text else Concat(pieces) <= text
  }

  /** Some split of the beginning of text into one piece for each item. */
  ghost predicate Here(p: Pattern, text: string) {
    exists pieces :: Splits(p, pieces, text)
  }

  /** The pattern occurs in text: at its start after "^", and anywhere otherwise. */
  ghost predicate Accepts(re: string, text: string) {
    if re != "" && re[0] == '^' then Here(Parse(re[1..]), text)
    else exists k :: 0 <= k <= |text| && Here(Parse(re), text[k..])
  }

  lemma HereNone(text: string)
    ensures Here(Pattern([], false), text) && (Here(Pattern([], true), text) <==> text == "")
  {
    assert Splits(Pattern([], false), [], text);
    assert text == "" ==> Splits(Pattern([], true), [], text);
    if pieces :| Splits(Pattern([], true), pieces, text) {
      assert pieces == [];
    }
  }

  /** The first piece is a beginning of the text, and the other items match what is left. */
  lemma HereFirst(item: Item, p: Pattern, text: string)
    ensures Here(p.(items := [item] + p.items), text) <==>
            exists n :: 0 <= n <= |text| && Fits(item, text[..n]) && Here(p, text[n..])
  {
    var q := p.(items := [item] + p.items);
    if pieces :| Splits(q, pieces, text) {
      var n := |pieces[0]|;
      FirstPiece(item, p, pieces, text);
      assert Splits(p, pieces[1..], text[n..]);
      assert Fits(item, text[..n]) && Here(p, text[n..]);
    }
    if n :| 0 <= n <= |text| && Fits(item, text[..n]) && Here(p, text[n..]) {
      var rest :| Splits(p, rest, text[n..]);
      var pieces := [text[..n]] + rest;
      assert pieces[1..] == rest;
      assert text == text[..n] + text[n..];
      assert Concat(pieces) == text[..n] + Concat(rest);
      assert Splits(q, pieces, text);
    }
  }

  lemma FirstPiece(item: Item, p: Pattern, pieces: seq<string>, text: string)
    requires Splits(p.(items := [item] + p.items), pieces, text)
    ensures pieces != [] && |pieces[0]| <= |text| && Fits(item, text[..|pieces[0]|]) && text[..|pieces[0]|] == pieces[0]
    ensures Splits(p, pieces[1..], text[|pieces[0]|..])
  {
    var n := |pieces[0]|;
    var rest := Concat(pieces[1..]);
    assert Concat(pieces) == pieces[0] + rest;
    assert (pieces[0] + rest)[..n] == pieces[0] && (pieces[0] + rest)[n..] == rest;
    assert text[..n] == pieces[0];
    forall i | 0 <= i < |pieces[1..]| ensures Fits(p.items[i], pieces[1..][i]) {
      assert ([item] + p.items)[i + 1] == p.items[i];
    }
  }

  // ----- The matcher

  /** search for re anywhere in text */
  method Match(re: string, text: string) returns (b: bool)
    ensures b <==> Accepts(re, text)
  {
    if re != "" && re[0] == '^' {
      b := MatchHere(re[1..], text);
      return;
    }
    var k := 0;
    while true
      invariant 0 <= k <= |text|
      invariant forall j :: 0 <= j < k ==> !Here(Parse(re), text[j..])
      decreases |text| - k
    {
      var found := MatchHere(re, text[k..]);
      if found {
        return true;
      }
      if k == |text| {
        return false;
      }
      k := k + 1;
    }
  }

  /** search for re at the beginning of text */
  method MatchHere(re: string, text: string) returns (b: bool)
    ensures b <==> Here(Parse(re), text)
    decreases |re|, 0
  {
    HereNone(text);
    if re == "" {
      return true;
    }
    if |re| >= 2 && re[1] == '*' {
      b := MatchStar(re[0], re[2..], text);
      return;
    }
    if re == "$" {
      return text == "";
    }
    HereFirst(One(re[0]), Parse(re[1..]), text);
    if text != "" && (re[0] == '.' || re[0] == text[0]) {
      b := MatchHere(re[1..], text[1..]);
      assert Fits(One(re[0]), text[..1]);
      return;
    }
    return false;
  }

  /** search for c*re at the beginning of text */
  method MatchStar(c: char, re: string, text: string) returns (b: bool)
    ensures b <==> Here(Parse(re).(items := [Star(c)] + Parse(re).items), text)
    decreases |re|, 1
  {
    HereFirst(Star(c), Parse(re), text);
    var k := 0;
    while true
      invariant 0 <= k <= |text| && Fits(Star(c), text[..k])
      invariant forall j :: 0 <= j < k ==> !Here(Parse(re), text[j..])
      decreases |text| - k
    {
      var found := MatchHere(re, text[k..]);
      if found {
        return true;
      }
      if k == |text| || !(text[k] == c || c == '.') {
        assert forall n :: k < n <= |text| ==> k < |text| && text[..n][k] == text[k] && !Fits(Star(c), text[..n]);
        return false;
      }
      k := k + 1;
    }
  }

  // ----- Lines

  const BUFSIZE: nat := 1024

  /** How many characters the buffer takes, before the NUL behind them. */
  const ROOM: nat := BUFSIZE - 1

  predicate Stops(c: char, nul: bool) {
    c == '\n' || (nul && c == '\0')
  }

  /** Where the first newline is, or NUL if those count, or the length. */
  function Until(s: string, nul: bool): (k: nat)
    ensures k <= |s| && (k < |s| ==> Stops(s[k], nul))
  {
    if s == "" || Stops(s[0], nul) then 0 else Until(s[1..], nul) + 1
  }

  lemma {:induction false} UntilIsFirst(s: string, nul: bool, k: nat)
    requires k <= |s| && forall j :: 0 <= j < k ==> !Stops(s[j], nul)
    ensures Until(s, nul) >= k && (k < |s| && Stops(s[k], nul) ==> Until(s, nul) == k)
  {
    if k > 0 {
      assert forall j :: 0 <= j < k - 1 ==> s[1..][j] == s[j + 1];
      UntilIsFirst(s[1..], nul, k - 1);
    }
  }

  lemma {:induction false} NoneBefore(s: string, nul: bool, j: nat)
    requires j < Until(s, nul)
    ensures !Stops(s[j], nul)
  {
    if j > 0 {
      NoneBefore(s[1..], nul, j - 1);
    }
  }

  lemma {:induction false} UntilOfParts(a: string, b: string, nul: bool)
    ensures Until(a + b, nul) == if Until(a, nul) < |a| then Until(a, nul) else |a| + Until(b, nul)
  {
    if a == "" {
      assert a + b == b;
    } else if !Stops(a[0], nul) {
      assert (a + b)[1..] == a[1..] + b;
      UntilOfParts(a[1..], b, nul);
    }
  }

  function Newline(s: string): nat {
    Until(s, false)
  }

  /** What grep is for: the newline-terminated lines that match, each with its newline. */
  ghost function Selected(re: string, s: string): string
    decreases |s|
  {
    var k := Newline(s);
    if k == |s| then ""
    else (if Accepts(re, s[..k]) then s[..k + 1] else "") + Selected(re, s[k + 1..])
  }

  /** As much of s as the buffer takes. */
  function Window(s: string): string {
    s[..Min(|s|, ROOM)]
  }

  /** Where strchr looks for the end of a line: it stops at a NUL. */
  function LineEnd(s: string): nat {
    Until(s, true)
  }

  predicate HasLine(s: string) {
    LineEnd(s) < |s| && s[LineEnd(s)] == '\n'
  }

  /** What grep writes: a line is seen only if it ends within the buffer; otherwise the whole buffer is dropped. */
  ghost function Printed(re: string, s: string): string
    decreases |s|
  {
    var w := Window(s);
    var k := LineEnd(w);
    if s == "" then ""
    else if HasLine(w) then (if Accepts(re, s[..k]) then s[..k + 1] else "") + Printed(re, s[k + 1..])
    else Printed(re, s[|w|..])
  }

  /** Every newline-terminated line fits the buffer together with its newline, and has no NUL in it. */
  predicate Whole(s: string)
    decreases |s|
  {
    var k := Newline(s);
    k == |s| || (k + 1 <= ROOM && '\0' !in s[..k] && Whole(s[k + 1..]))
  }

  /** grep writes the matching lines, whatever the pattern, exactly for the files whose lines are whole. */
  lemma SelectsExactlyWhen(s: string)
    ensures (forall re :: Printed(re, s) == Selected(re, s)) <==> Whole(s)
  {
    if Whole(s) {
      forall re ensures Printed(re, s) == Selected(re, s) { WholeIsPrinted(re, s); }
    } else {
      BrokenIsShort(s);
      AllSelected(s);
    }
  }

  lemma {:induction false} WholeIsPrinted(re: string, s: string)
    requires Whole(s)
    ensures Printed(re, s) == Selected(re, s)
    decreases |s|
  {
    var w, k := Window(s), Newline(s);
    if k < |s| {
      LineSeen(s);
      var line := if Accepts(re, s[..k]) then s[..k + 1] else "";
      PrintedStep(re, s, k, line);
      SelectedStep(re, s, k, line);
      WholeIsPrinted(re, s[k + 1..]);
    } else if s != "" {
      var t := s[|w|..];
      Suffix(s, |w|, t);
      NoLineSeen(s);
      PrintedDrop(re, s, |w|, t);
      WholeIsPrinted(re, t);
    }
  }

  lemma NoLineSeen(s: string)
    requires Newline(s) == |s|
    ensures !HasLine(Window(s))
  {
    var w := Window(s);
    if HasLine(w) {
      NoneBefore(s, false, LineEnd(w));
    }
  }

  lemma PrintedDrop(re: string, s: string, n: nat, t: string)
    requires s != "" && !HasLine(Window(s)) && n == |Window(s)| && t == s[n..]
    ensures Printed(re, s) == Printed(re, t)
  {
  }

  /** A line that is whole is the one that the buffer shows. */
  lemma LineSeen(s: string)
    requires Newline(s) < |s|
    ensures HasLine(Window(s)) <==> Newline(s) + 1 <= ROOM && '\0' !in s[..Newline(s)]
    ensures HasLine(Window(s)) ==> LineEnd(Window(s)) == Newline(s)
  {
    var w, k := Window(s), Newline(s);
    var e := LineEnd(w);
    if HasLine(w) {
      UntilIsFirst(s, false, e) by {
        forall j | 0 <= j < e ensures s[j] != '\n' { NoneBefore(w, true, j); assert w[j] == s[j]; }
      }
      forall j | 0 <= j < e ensures s[..k][j] != '\0' { NoneBefore(w, true, j); assert w[j] == s[j]; }
    }
    if k + 1 <= ROOM && '\0' !in s[..k] {
      forall j | 0 <= j < k ensures !Stops(w[j], true) { NoneBefore(s, false, j); assert s[..k][j] == w[j]; }
      UntilIsFirst(w, true, k);
    }
  }

  /** The newline is as much nearer as characters before it are dropped. */
  lemma Suffix(s: string, n: nat, t: string)
    requires n <= Newline(s) && t == s[n..]
    ensures Newline(t) == Newline(s) - n
  {
    var a := s[..n];
    assert s == a + t;
    UntilOfParts(a, t, false);
  }

  /** How many characters are in newline-terminated lines. */
  function Terminated(s: string): nat
    decreases |s|
  {
    var k := Newline(s);
    if k == |s| then 0 else k + 1 + Terminated(s[k + 1..])
  }

  lemma SelectedStep(re: string, s: string, k: nat, line: string)
    requires k == Newline(s) < |s| && line == if Accepts(re, s[..k]) then s[..k + 1] else ""
    ensures Selected(re, s) == line + Selected(re, s[k + 1..])
  {
  }

  /** The empty pattern selects every line. */
  lemma {:induction false} AllSelected(s: string)
    ensures |Selected("", s)| == Terminated(s)
    decreases |s|
  {
    var k := Newline(s);
    if k < |s| {
      AllAccepted(s[..k]);
      SelectedStep("", s, k, s[..k + 1]);
      AllSelected(s[k + 1..]);
    }
  }

  lemma AllAccepted(line: string)
    ensures Accepts("", line)
  {
    HereNone(line);
    assert line[0..] == line;
  }

  lemma TailOfTail(s: string, a: nat, b: nat, t: string)
    requires a <= b <= |s| && t == s[a..]
    ensures t[b - a..] == s[b..]
  {
  }

  lemma DroppingSome(s: string, n: nat, t: string)
    requires n <= Newline(s) && t == s[n..]
    ensures Terminated(t) == if n <= Terminated(s) then Terminated(s) - n else 0
  {
    var k := Newline(s);
    Suffix(s, n, t);
    if k < |s| {
      var u := s[k + 1..];
      TailOfTail(s, n, k + 1, t);
      FirstTerminated(s, k, u);
      FirstTerminated(t, k - n, u);
    }
  }

  lemma FirstTerminated(s: string, k: nat, u: string)
    requires k == Newline(s) < |s| && u == s[k + 1..]
    ensures Terminated(s) == k + 1 + Terminated(u)
  {
    var n := Terminated(u);
    assert Terminated(s) == k + 1 + n;
  }

  /** Dropping n characters drops that many from the lines. */
  lemma {:induction false} Dropping(s: string, n: nat, t: string)
    requires n <= |s| && t == s[n..]
    ensures Terminated(t) == if n <= Terminated(s) then Terminated(s) - n else 0
    decreases |s|
  {
    var k := Newline(s);
    if n <= k {
      DroppingSome(s, n, t);
    } else {
      var u := s[k + 1..];
      TailOfTail(s, k + 1, n, u);
      Dropping(u, n - k - 1, t);
    }
  }

  /** With that pattern grep writes no more than the lines, and less if one of them is not whole. */
  lemma {:induction false} BrokenIsShort(s: string)
    ensures |Printed("", s)| <= Terminated(s)
    ensures !Whole(s) ==> |Printed("", s)| < Terminated(s)
    decreases |s|
  {
    var w, k := Window(s), Newline(s);
    if k == |s| {
      NoLineSeen(s);
    } else {
      LineSeen(s);
    }
    if HasLine(w) {
      AllAccepted(s[..k]);
      PrintedStep("", s, k, s[..k + 1]);
      BrokenIsShort(s[k + 1..]);
    } else if s != "" {
      var t := s[|w|..];
      Dropping(s, |w|, t);
      PrintedDrop("", s, |w|, t);
      BrokenIsShort(t);
    }
  }

  /** Of a line as long as the buffer only the newline is seen, as a line of its own. */
  lemma LongLineIsLost(s: string)
    requires |s| == ROOM + 1 && s[ROOM] == '\n' && forall j :: 0 <= j < ROOM ==> !Stops(s[j], true)
    ensures Selected("", s) == s && Printed("", s) == "\n"
  {
    LongLine(s, s[..ROOM], "\n");
    LoneNewline("\n");
  }

  lemma LoneNewline(t: string)
    requires t == "\n"
    ensures Printed("", t) == t
  {
    AllAccepted("");
    PrintedStep("", t, 0, t);
  }

  lemma LongLine(s: string, w: string, t: string)
    requires |s| == ROOM + 1 && s == w + t && |w| == ROOM && t == "\n"
    requires forall j :: 0 <= j < ROOM ==> !Stops(w[j], true)
    ensures Selected("", s) == s && Printed("", s) == Printed("", t)
  {
    UntilIsFirst(s, false, ROOM);
    UntilIsFirst(w, true, ROOM);
    AllAccepted(s[..ROOM]);
    SelectedStep("", s, ROOM, s[..ROOM + 1]);
    assert s[..ROOM + 1] == s && s[ROOM + 1..] == "" && Selected("", "") == "";
    assert Window(s) == w && s[ROOM..] == t;
    PrintedDrop("", s, ROOM, t);
  }

  class Grepper {
    const buf: array<char>

    constructor ()
      ensures buf.Length == BUFSIZE && fresh(buf)
    {
      buf := new char[BUFSIZE];
    }

    /** Reads as much as there is room for behind the first m, or all that is left. */
    method Read(file: string, pos: nat, m: nat) returns (n: nat)
      requires buf.Length == BUFSIZE && pos <= |file| && m < BUFSIZE
      modifies buf
      ensures n == (if |file| - pos < BUFSIZE - m - 1 then |file| - pos else BUFSIZE - m - 1)
      ensures buf[..m + n] == old(buf[..m]) + file[pos..][..n] && file[pos + n..] == file[pos..][n..]
    {
      n := if |file| - pos < BUFSIZE - m - 1 then |file| - pos else BUFSIZE - m - 1;
      forall i | 0 <= i < n {
        buf[m + i] := file[pos + i];
      }
    }

    /** grep: what is written for a file. */
    method Grep(pattern: string, file: string) returns (out: string)
      requires buf.Length == BUFSIZE
      modifies buf
      ensures out == Printed(pattern, file)
      ensures Whole(file) ==> out == Selected(pattern, file)
    {
      SelectsExactlyWhen(file);
      out := "";
      var m: nat, pos: nat, more := 0, 0, true;
      ghost var total := Printed(pattern, file);
      assert buf[..m] == "" && file[pos..] == file && "" + file == file;
      while more
        invariant m + 1 < BUFSIZE && pos <= |file|
        invariant more ==> Pending(pattern, total, out, buf[..m], file[pos..])
        invariant !more ==> out == total
        decreases more, |file| - pos
      {
        more, m, pos, out := Refill(pattern, file, m, pos, out, total);
      }
    }

    /** One round of grep's outer loop; false at the end of the file. */
    method Refill(pattern: string, file: string, m0: nat, pos0: nat, out0: string, ghost total: string)
      returns (more: bool, m: nat, pos: nat, out: string)
      requires buf.Length == BUFSIZE && m0 + 1 < BUFSIZE && pos0 <= |file|
      requires Pending(pattern, total, out0, buf[..m0], file[pos0..])
      modifies buf
      ensures m + 1 < BUFSIZE && pos <= |file|
      ensures if more then pos > pos0 && Pending(pattern, total, out, buf[..m], file[pos..]) else out == total
    {
      ghost var kept, rest := buf[..m0], file[pos0..];
      var n := Read(file, pos0, m0);
      if n == 0 {
        AllRead(pattern, total, out0, kept, rest);
        return false, m0, pos0, out0;
      }
      m, pos := m0 + n, pos0 + n;
      ghost var filled, left := buf[..m], file[pos..];
      Terminate(m);
      ReadMoves(pattern, total, out0, kept, rest, filled, left, n);
      var p;
      out, p := WriteLines(pattern, m, out0, left, total);
      m := Keep(p, m, pattern, total, out, left);
      more := true;
    }

    /** The NUL behind the m characters that are in the buffer. */
    method Terminate(m: nat)
      requires m < buf.Length
      modifies buf
      ensures buf[m] == '\0' && buf[..m] == old(buf[..m])
    {
      buf[m] := '\0';
    }

    /** What is behind the last line moves to the front; if there was no line in the whole buffer, it is emptied. */
    method Keep(p: nat, m0: nat, ghost re: string, ghost total: string, ghost out: string, ghost rest: string)
      returns (m: nat)
      requires p <= m0 < BUFSIZE == buf.Length && (rest == "" || m0 == ROOM)
      requires Pending(re, total, out, buf[p..m0], rest)
      modifies buf
      ensures m + 1 < BUFSIZE && Pending(re, total, out, buf[..m], rest)
    {
      m := m0;
      if p == 0 {
        NothingSeen(re, total, out, buf[p..m], rest);
        m := 0;
      }
      if m > 0 {
        MoveDown(p, m);
        m := m - p;
      } else {
        assert buf[..m] == "";
      }
    }

    /**
     * The inner loop of grep: every line in the buffer is matched and,
     * if it matches, written; p is behind the last one.
     */
    method WriteLines(pattern: string, m: nat, out0: string, ghost rest: string, ghost total: string)
      returns (out: string, p: nat)
      requires buf.Length == BUFSIZE && m < BUFSIZE && buf[m] == '\0' && Owing(pattern, total, out0, buf[..m], rest)
      modifies buf
      ensures p <= m && Pending(pattern, total, out, buf[p..m], rest)
    {
      out, p := out0, 0;
      ghost var b := buf[..];
      assert b[0..m] == buf[..m];
      while true
        invariant p <= m && buf[p..] == b[p..]
        invariant Owing(pattern, total, out, b[p..m], rest)
        decreases m - p
      {
        SameTails(buf[..], b, p, p, m);
        assert buf[m] == buf[p..][m - p] == b[m];
        var q := Strchr(p, m);
        SameTails(buf[..], b, p, q, m);
        if buf[q] == '\0' {
          break;
        }
        out := NextLine(pattern, p, q, out, m, rest, total, b, q + 1);
        p := q + 1;
      }
    }

    /** One round of that loop, for the line from p to the newline at q; b is what was in the buffer before the loop. */
    method NextLine(pattern: string, p: nat, q: nat, out0: string, ghost m: nat, ghost rest: string,
                    ghost total: string, ghost b: string, ghost next: nat)
      returns (out: string)
      requires p <= q < m < buf.Length == |b| && buf[p..] == b[p..] && buf[q] == '\n' && next == q + 1
      requires q - p == LineEnd(b[p..m]) && Owing(pattern, total, out0, b[p..m], rest)
      modifies buf
      ensures buf[next..] == b[next..] && Owing(pattern, total, out, b[next..m], rest)
    {
      ghost var s, s' := b[p..m], b[next..m];
      SameTails(buf[..], b, p, q, m);
      assert s[q - p] == buf[p..][q - p];
      var line := WriteLine(pattern, p, q);
      SplitAt(b, p, q, m, s, next);
      LineStep(pattern, total, out0, s, rest, q - p, line, s');
      out := out0 + line;
    }

    /** Cuts the line off with a NUL to match it; a line that matches is written with its newline put back. */
    method WriteLine(pattern: string, p: nat, q: nat) returns (line: string)
      requires p <= q < buf.Length && buf[q] == '\n'
      modifies buf
      ensures line == if Accepts(pattern, old(buf[p..q])) then old(buf[p..q]) + "\n" else ""
      ensures buf[q + 1..] == old(buf[q + 1..])
    {
      buf[q] := '\0';
      var found := Match(pattern, buf[p..q]);
      line := "";
      if found {
        buf[q] := '\n';
        line := buf[p..q + 1];
      }
    }

    /** Finds the first newline, or a NUL, at m if there is none before. */
    method Strchr(p: nat, ghost m: nat) returns (q: nat)
      requires p <= m < buf.Length && buf[m] == '\0'
      ensures p <= q <= m && q - p == LineEnd(buf[p..m]) && (buf[q] == '\0' || buf[q] == '\n')
    {
      q := p;
      while buf[q] != '\0' && buf[q] != '\n'
        invariant p <= q <= m && forall j :: p <= j < q ==> buf[j] != '\0' && buf[j] != '\n'
        decreases m - q
      {
        q := q + 1;
      }
      ghost var s := buf[p..m];
      assert q < m ==> s[q - p] == buf[q];
      UntilIsFirst(s, true, q - p);
    }

    /** Moves the unfinished line at p to the front of the buffer. */
    method MoveDown(p: nat, m: nat)
      requires p <= m < buf.Length
      modifies buf
      ensures buf[..m - p] == old(buf[p..m])
    {
      forall i | 0 <= i < m - p {
        buf[i] := buf[p + i];
      }
    }
  }

  /** out has been written of total; s, which is in the buffer, and the rest of the file are still to be searched. */
  ghost predicate Owing(re: string, total: string, out: string, s: string, rest: string) {
    |s| <= ROOM && total == out + Printed(re, s + rest)
  }

  /** The same, with no line left in the buffer. */
  ghost predicate Pending(re: string, total: string, out: string, s: string, rest: string) {
    Owing(re, total, out, s, rest) && !HasLine(s)
  }

  lemma AllRead(re: string, total: string, out: string, s: string, rest: string)
    requires Pending(re, total, out, s, rest) && rest == ""
    ensures out == total
  {
    assert s + rest == s == Window(s) && s[|s|..] == "";
    assert Printed(re, s) == "";
  }

  lemma ReadMoves(re: string, total: string, out: string, s: string, rest: string, s': string, rest': string, n: nat)
    requires Owing(re, total, out, s, rest) && n <= |rest| && s' == s + rest[..n] && rest' == rest[n..]
    requires |s'| <= ROOM
    ensures Owing(re, total, out, s', rest')
  {
    assert s' + rest' == s + rest;
  }

  lemma SameTails(s: string, t: string, p: nat, q: nat, m: nat)
    requires |s| == |t| && p <= q <= m <= |s| && s[p..] == t[p..]
    ensures s[p..m] == t[p..m] && s[p..q] == t[p..q] && (q < m ==> s[q + 1..] == t[q + 1..])
  {
    assert s[p..m] == s[p..][..m - p] && t[p..m] == t[p..][..m - p];
    assert s[p..q] == s[p..][..q - p] && t[p..q] == t[p..][..q - p];
    assert q < m ==> s[q + 1..] == s[p..][q + 1 - p..] && t[q + 1..] == t[p..][q + 1 - p..];
  }

  lemma SplitAt(b: string, p: nat, q: nat, m: nat, s: string, next: nat)
    requires p <= q < m <= |b| && s == b[p..m] && next == q + 1
    ensures s[..q - p] == b[p..q] && s[q - p + 1..] == b[next..m]
  {
  }

  /** One line off the front. */
  lemma LineStep(re: string, total: string, out: string, s: string, rest: string, k: nat, line: string,
                 s': string)
    requires Owing(re, total, out, s, rest) && HasLine(s) && k == LineEnd(s) && s' == s[k + 1..]
    requires line == if Accepts(re, s[..k]) then s[..k] + "\n" else ""
    ensures Owing(re, total, out + line, s', rest)
  {
    FrontSlices(s, rest, k);
    FrontSeen(s, s + rest, rest);
    PrintedStep(re, s + rest, k, line);
    Regroup(out, line, Printed(re, s[k + 1..] + rest));
  }

  /** The line that the buffer shows is the first one of what is left. */
  lemma FrontSeen(s: string, t: string, rest: string)
    requires |s| <= ROOM && t == s + rest
    ensures HasLine(s) ==> HasLine(Window(t)) && LineEnd(Window(t)) == LineEnd(s)
  {
    var more := Window(t)[|s|..];
    assert Window(t) == s + more;
    UntilOfParts(s, more, true);
  }

  lemma PrintedStep(re: string, t: string, k: nat, line: string)
    requires HasLine(Window(t)) && k == LineEnd(Window(t))
    requires line == if Accepts(re, t[..k]) then t[..k + 1] else ""
    ensures Printed(re, t) == line + Printed(re, t[k + 1..])
  {
  }

  lemma FrontSlices(s: string, rest: string, k: nat)
    requires k < |s| && s[k] == '\n'
    ensures (s + rest)[k + 1..] == s[k + 1..] + rest && (s + rest)[..k] == s[..k]
      && (s + rest)[..k + 1] == s[..k] + "\n"
  {
  }

  lemma Regroup(a: string, b: string, c: string)
    ensures a + (b + c) == a + b + c
  {
  }

  /** A buffer that is full, or holds the end of the file, and shows no line is dropped. */
  lemma NothingSeen(re: string, total: string, out: string, s: string, rest: string)
    requires Pending(re, total, out, s, rest) && (rest == "" || |s| == ROOM)
    ensures Pending(re, total, out, "", rest)
  {
    var t := s + rest;
    assert "" + rest == rest;
    if t != "" {
      assert Window(t) == s && t[|s|..] == rest;
    }
  }
}
