/** The layout of an ELF file: its headers as a linker writes them, field by field, and exec's reading of them. */
module ExecFormat {
  import opened Outcomes
  import opened Bytes
  import opened ExecImage

  /** A program header, with the fields that exec does not use. */
  datatype Segment = Segment(kind: nat, off: nat, vaddr: nat, paddr: nat, filesz: nat, memsz: nat, flags: nat,
    align: nat)

  function SegmentWords(s: Segment): seq<nat> {
    [s.kind, s.off, s.vaddr, s.paddr, s.filesz, s.memsz, s.flags, s.align]
  }

  function SegmentBytes(s: Segment): (b: seq<byte>)
    requires WordsOk(SegmentWords(s))
    ensures |b| == PROGHDR
  {
    Flat(SegmentWords(s))
  }

  /** The fields come back as they were written. */
  lemma SegmentReadBack(s: Segment)
    requires WordsOk(SegmentWords(s))
    ensures ReadProgHdr(SegmentBytes(s)) == ProgHdr(s.kind, s.off, s.vaddr, s.filesz, s.memsz)
  {
    var ws := SegmentWords(s);
    FlatWord(ws, 0);
    FlatWord(ws, 1);
    FlatWord(ws, 2);
    FlatWord(ws, 4);
    FlatWord(ws, 5);
  }

  /** The i-th program header of a file is the one written behind i others at phoff. */
  lemma HeaderReadBack(file: seq<byte>, phoff: nat, i: nat, s: Segment, at: nat)
    requires WordsOk(SegmentWords(s)) && at == phoff + PROGHDR * i && at + PROGHDR <= |file| < WORD_LIMIT
    requires file[at..at + PROGHDR] == SegmentBytes(s)
    ensures HeaderAt(file, phoff, i) == Some(ProgHdr(s.kind, s.off, s.vaddr, s.filesz, s.memsz))
  {
    SegmentReadBack(s);
    assert (phoff + PROGHDR * i) % WORD_LIMIT == at;
    SliceRead(file, at, SegmentBytes(s));
  }

  lemma SliceRead(file: seq<byte>, at: nat, b: seq<byte>)
    requires |b| == PROGHDR && at + PROGHDR <= |file| < WORD_LIMIT && file[at..at + PROGHDR] == b
    ensures ReadAt(file, at, PROGHDR) == Some(b)
  {
  }

  /** The file header; ident are the 12 bytes behind the magic number. */
  datatype Header = Header(ident: seq<byte>, kind: nat, machine: nat, version: nat, entry: nat, phoff: nat, shoff: nat,
                           flags: nat, ehsize: nat, phentsize: nat, phnum: nat, shentsize: nat, shnum: nat,
                           shstrndx: nat)

  predicate HeaderOk(h: Header) {
    && |h.ident| == 12 && WordsOk([h.version, h.entry, h.phoff, h.shoff, h.flags])
    && HalvesOk([h.kind, h.machine]) && HalvesOk([h.ehsize, h.phentsize, h.phnum, h.shentsize, h.shnum, h.shstrndx])
  }

  predicate HalvesOk(hs: seq<nat>) {
    forall i :: 0 <= i < |hs| ==> hs[i] < 65536
  }

  function Halves(hs: seq<nat>): (b: seq<byte>)
    requires HalvesOk(hs)
    ensures |b| == 2 * |hs|
  {
    if hs == [] then [] else [hs[0] % 256, hs[0] / 256] + Halves(hs[1..])
  }

  lemma {:induction false} HalfReadBack(hs: seq<nat>, i: nat)
    requires HalvesOk(hs) && i < |hs|
    ensures var low: nat, high: nat := Halves(hs)[2 * i], Halves(hs)[2 * i + 1]; low + 256 * high == hs[i]
  {
    if i > 0 {
      HalfReadBack(hs[1..], i - 1);
    }
  }

  /** The three stretches of the header: 20 bytes, five words, six half words. */
  function HeaderStart(h: Header): (b: seq<byte>)
    requires HeaderOk(h)
    ensures |b| == 20
  {
    WordBytes(ELF_MAGIC) + h.ident + Halves([h.kind, h.machine])
  }

  function HeaderWords(h: Header): seq<nat> {
    [h.version, h.entry, h.phoff, h.shoff, h.flags]
  }

  function HeaderHalves(h: Header): seq<nat> {
    [h.ehsize, h.phentsize, h.phnum, h.shentsize, h.shnum, h.shstrndx]
  }

  function HeaderBytes(h: Header): (b: seq<byte>)
    requires HeaderOk(h)
    ensures |b| == ELFHDR
  {
    HeaderStart(h) + Flat(HeaderWords(h)) + Halves(HeaderHalves(h))
  }

  /** The word at a multiple of four in the second stretch. */
  lemma MiddleWord(b: seq<byte>, start: seq<byte>, ws: seq<nat>, f: seq<byte>, end: seq<byte>, i: nat, k: nat)
    requires |start| == 20 && WordsOk(ws) && f == Flat(ws) && b == start + f + end && i < |ws| && k == 5 + i
    ensures 4 * k + 4 <= |b| && GetWord(b, k) == ws[i]
  {
    FlatWord(ws, i);
    SliceOfMiddle(b, start, f, end, 4 * i, 4 * k);
    SameWord(b, k, f, i);
  }

  lemma SliceOfMiddle(b: seq<byte>, start: seq<byte>, f: seq<byte>, end: seq<byte>, lo: nat, at: nat)
    requires b == start + f + end && lo + 4 <= |f| && at == |start| + lo
    ensures b[at..at + 4] == f[lo..lo + 4]
  {
  }

  lemma SameWord(a: seq<byte>, i: nat, b: seq<byte>, j: nat)
    requires 4 * i + 4 <= |a| && 4 * j + 4 <= |b| && a[4 * i..4 * i + 4] == b[4 * j..4 * j + 4]
    ensures GetWord(a, i) == GetWord(b, j)
  {
    var x, y := a[4 * i..4 * i + 4], b[4 * j..4 * j + 4];
    assert x[0] == a[4 * i] && x[1] == a[4 * i + 1] && x[2] == a[4 * i + 2] && x[3] == a[4 * i + 3];
    assert y[0] == b[4 * j] && y[1] == b[4 * j + 1] && y[2] == b[4 * j + 2] && y[3] == b[4 * j + 3];
  }

  /** A file that begins with a header is an ELF file, with the entry point and the program headers that it says. */
  lemma HeaderRead(file: seq<byte>, h: Header)
    requires HeaderOk(h) && HeaderBytes(h) <= file
    ensures IsElf(file) && EntryPoint(file) == h.entry && PhOff(file) == h.phoff && PhNum(file) == h.phnum
  {
    var b := file[..ELFHDR];
    assert b == HeaderBytes(h);
    var magic := WordBytes(ELF_MAGIC);
    assert b[..4] == magic;
    SameWord(b, 0, magic, 0);
    var words := Flat(HeaderWords(h));
    MiddleWord(b, HeaderStart(h), HeaderWords(h), words, Halves(HeaderHalves(h)), 1, 6);
    MiddleWord(b, HeaderStart(h), HeaderWords(h), words, Halves(HeaderHalves(h)), 2, 7);
    HalfReadBack(HeaderHalves(h), 2);
    assert file[44] == b[44] == Halves(HeaderHalves(h))[4];
    assert file[45] == b[45] == Halves(HeaderHalves(h))[5];
  }
}
