/** Writing a notebook with the older script and reading the text back with
    it (`ipynb_to_rmd` followed by `rmd_to_ipynb`, ipyrmd.py:67-120 and
    ipyrmd.py:129-211). The script strips every line it reads, so only text
    whose lines carry no indentation and no trailing whitespace survives;
    for such cells the reader returns one cell per cell, code with a final
    newline added, markdown with the blank lines around it in the file.
    The script's plain join is also set against the package writer's. */
module LegacyRoundTrip {
  import opened PyStr
  import opened Notebook
  import opened Patterns
  import opened FrontMatter
  import opened Segment
  import opened RmdWrite
  import opened Legacy
  import Helpers

  /** A line the script stores as it is: `l.strip() == l`. */
  predicate Trimmed(l: string) {
    Strip(l) == l
  }

  /** Markdown text the script gives back: some visible text, no newline at
      either end, no line with surrounding whitespace, and no line the reader
      would take for an opening fence or a header delimiter. */
  predicate LegacyProseWritable(m: string) {
    var ls := Split(m, '\n');
    && Helpers.Clean(m)
    && AnyContent(ls)
    && forall i | 0 <= i < |ls| :: Trimmed(ls[i]) && FenceOpen(ls[i]).None? && !DelimLine(ls[i], RmdDelim)
  }

  /** Code text the script gives back: empty or without a newline at either
      end, no line with surrounding whitespace, none that closes the chunk or
      delimits a header; options, when set, not empty and on one line. */
  predicate LegacyChunkWritable(s: string, opts: Option<string>) {
    var ls := Split(s, '\n');
    && (s == "" || Helpers.Clean(s))
    && (opts.Some? ==> opts.value != "" && '\n' !in opts.value)
    && forall i | 0 <= i < |ls| :: Trimmed(ls[i]) && !FenceClose(ls[i]) && !DelimLine(ls[i], RmdDelim)
  }

  predicate LegacyWritable(c: Cell) {
    match c
    case Markdown(src, _) => LegacyProseWritable(MaybeJoin(src))
    case Code(src, opts) => LegacyChunkWritable(MaybeJoin(src), opts)
    case Raw => false
  }

  /** A notebook body the round trip keeps: at least one cell, every cell
      writable, and no two markdown cells in a row. */
  predicate LegacyRoundTrippable(cells: seq<Cell>) {
    && |cells| > 0
    && (forall i | 0 <= i < |cells| :: LegacyWritable(cells[i]))
    && forall i | 0 <= i < |cells| - 1 :: cells[i].Markdown? ==> cells[i + 1].Code?
  }

  /** How a cell comes back: markdown text with the separating empty lines
      around it; code options unchanged and code text with a final newline,
      since every stored line ends with one. */
  predicate LegacyAgrees(c: Cell, r: Cell, first: bool, last: bool) {
    match c
    case Markdown(src, _) =>
      && r.Markdown? && r.options.None?
      && MaybeJoin(r.source) == (if first then "" else "\n") + MaybeJoin(src) + (if last then "\n" else "\n\n")
    case Code(src, opts) =>
      && r.Code? && r.options == opts
      && MaybeJoin(r.source) == (if MaybeJoin(src) == "" then "" else MaybeJoin(src) + "\n")
    case Raw => false
  }

  // ---------------------------------------------------------------------
  // The lines of the file

  /** The lines a block occupies in the file. */
  function LegacyBlockLines(c: Cell): seq<string>
    requires !c.Raw?
  {
    match c
    case Markdown(src, _) => Split(MaybeJoin(src), '\n')
    case Code(src, opts) => [LegacyCodeStart(opts)] + BodyLines(MaybeJoin(src)) + ["```"]
  }

  function AllLegacyBlockLines(cells: seq<Cell>): (parts: seq<seq<string>>)
    requires forall i | 0 <= i < |cells| :: !cells[i].Raw?
    ensures |parts| == |cells|
    ensures forall i | 0 <= i < |cells| :: parts[i] == LegacyBlockLines(cells[i])
  {
    seq(|cells|, i requires 0 <= i < |cells| => LegacyBlockLines(cells[i]))
  }

  /** The lines of the file: the blocks' lines with an empty line between blocks. */
  function LegacyDocLines(cells: seq<Cell>): seq<string>
    requires forall i | 0 <= i < |cells| :: !cells[i].Raw?
  {
    Sections(AllLegacyBlockLines(cells), "")
  }

  /** The opening fence is read back as the same options, and is neither a
      closing fence nor a header delimiter. */
  lemma LegacyStartPlain(opts: Option<string>)
    requires opts.Some? ==> opts.value != "" && '\n' !in opts.value
    ensures FenceOpen(LegacyCodeStart(opts)).Some?
    ensures LegacyOptions(FenceOpen(LegacyCodeStart(opts)).value) == opts
    ensures !FenceClose(LegacyCodeStart(opts)) && !DelimLine(LegacyCodeStart(opts), RmdDelim)
    ensures '\n' !in LegacyCodeStart(opts)
  {
    LegacyOptionsRoundTrip(opts);
    FenceLinePlain(LegacyCodeStart(opts), LegacyGroup(opts));
  }

  /** The group the opening fence captures for the given options. */
  function LegacyGroup(opts: Option<string>): (g: string)
    ensures LegacyCodeStart(opts) == "```" + ("{r" + g + "}")
    ensures opts.Some? ==> g == opts.value
    ensures opts.None? ==> g == ""
  {
    if opts.None? then "" else opts.value
  }

  /** A writable cell's block is its lines joined by newlines, with no
      newline at either end. */
  lemma LegacyBlockFits(c: Cell)
    requires LegacyWritable(c)
    ensures |LegacyBlockLines(c)| > 0
    ensures Join(LegacyBlockLines(c), "\n") == LegacyBlock(c)
    ensures Helpers.Clean(LegacyBlock(c))
  {
    match c
    case Markdown(src, _) =>
      JoinSplit(MaybeJoin(src), '\n');
    case Code(src, opts) =>
      var start := LegacyCodeStart(opts);
      assert start[|start| - 1] == '}';
      FencedJoin(start, MaybeJoin(src));
      var b := LegacyBlock(c);
      assert b[0] == start[0] == '`';
      assert b[|b| - 1] == "```"[2];
  }

  /** No line of a block holds a newline or is a header delimiter. */
  lemma LegacyBlockLinesPlain(c: Cell)
    requires LegacyWritable(c)
    ensures LinesPlain(LegacyBlockLines(c))
  {
    if c.Code? {
      var s := MaybeJoin(c.source);
      var ls := Split(s, '\n');
      assert forall j | 0 <= j < |ls| :: !DelimLine(ls[j], RmdDelim);
      LegacyCodeLinesPlain(s, c.options);
    }
  }

  lemma LegacyCodeLinesPlain(s: string, opts: Option<string>)
    requires opts.Some? ==> opts.value != "" && '\n' !in opts.value
    requires forall j | 0 <= j < |Split(s, '\n')| :: !DelimLine(Split(s, '\n')[j], RmdDelim)
    ensures LinesPlain([LegacyCodeStart(opts)] + BodyLines(s) + ["```"])
  {
    FenceLinePlain(LegacyCodeStart(opts), LegacyGroup(opts));
    assert LinesPlain(BodyLines(s));
    FencedPlain(LegacyCodeStart(opts), BodyLines(s));
  }

  lemma LegacyDocLinesPlain(cells: seq<Cell>)
    requires forall i | 0 <= i < |cells| :: !cells[i].Raw? && LegacyWritable(cells[i])
    ensures LinesPlain(LegacyDocLines(cells))
  {
    var parts := AllLegacyBlockLines(cells);
    forall i | 0 <= i < |parts| ensures LinesPlain(parts[i]) {
      LegacyBlockLinesPlain(cells[i]);
    }
    SectionsPlain(parts);
  }

  /** Without a header the script writes the file's lines joined by
      newlines, and the text does not end in a newline. */
  lemma LegacyWrittenText<V>(cells: seq<Cell>, dump: V -> string)
    requires LegacyRoundTrippable(cells)
    ensures var out := LegacyIpynbToRmd(Notebook(cells, None), Null, dump);
      && out == Join(LegacyDocLines(cells), "\n")
      && |out| > 0 && out[|out| - 1] != '\n'
  {
    var nb: Notebook<V> := Notebook(cells, None);
    var bs := LegacyCellBlocks(cells);
    var parts := AllLegacyBlockLines(cells);
    assert LegacyIpynbToRmd(nb, Null, dump) == Join(bs, "\n\n") by {
      assert ChosenHeader(Null, nb.header) == Null;
    }
    assert |bs| == |cells| && forall i | 0 <= i < |cells| :: bs[i] == LegacyBlock(cells[i]);
    forall i | 0 <= i < |cells|
      ensures |parts[i]| > 0 && Join(parts[i], "\n") == bs[i] && Helpers.Clean(bs[i])
    {
      LegacyBlockFits(cells[i]);
    }
    assert Join(LegacyDocLines(cells), "\n") == Join(bs, "\n\n") by {
      SectionsJoin(parts, bs);
    }
    Helpers.JoinCleanEnd(bs, "\n\n");
  }

  // ---------------------------------------------------------------------
  // Reading the file back

  /** Lines no fenced reader can tell apart read the same: the script looks
      at a line only through the fence patterns and its stripped text. */
  lemma {:induction false} LegacyRunAlike(st: State, xs: seq<Scanned>, ys: seq<Scanned>)
    requires |xs| == |ys| && forall i | 0 <= i < |xs| :: SameScan(xs[i], ys[i])
    ensures LegacyRun(st, xs) == LegacyRun(st, ys)
    decreases |xs|
  {
    if |xs| > 0 {
      assert Stored(xs[0].text) == Stored(ys[0].text);
      assert LegacyStep(st, xs[0]) == LegacyStep(st, ys[0]);
      LegacyRunAlike(LegacyStep(st, xs[0]).1, xs[1..], ys[1..]);
    }
  }

  /** The written text reads as the cells of its lines and no header. */
  lemma LegacyReadWritten<V>(d: seq<string>, t: string, load: string -> Option<Yaml<V>>)
    requires |d| > 0 && LinesPlain(d)
    requires t == Join(d, "\n") && |t| > 0 && t[|t| - 1] != '\n'
    ensures LegacyRmdToIpynb(t, load) == Notebook(LegacyCells(d), None)
  {
    var r := ReadLines(t);
    assert LinesAlike(d, r) by {
      ReadLinesAlike(d, t);
    }
    assert LegacyFrontMatter(r, load) == Parted(None, r) by {
      PlainNoHeader(d, r, load);
    }
    assert LegacyCells(r) == LegacyCells(d) by {
      ScanAlike(d, r);
      LegacyRunAlike(Start, Scan(d), Scan(r));
    }
    calc {
      LegacyRmdToIpynb(t, load);
      Notebook(LegacyCells(LegacyFrontMatter(r, load).body), LegacyFrontMatter(r, load).header);
      Notebook(LegacyCells(r), None);
      Notebook(LegacyCells(d), None);
    }
  }

  /** Lines alike to lines without a delimiter hold no header block. */
  lemma PlainNoHeader<V>(d: seq<string>, r: seq<string>, load: string -> Option<Yaml<V>>)
    requires LinesPlain(d) && LinesAlike(d, r)
    ensures LegacyFrontMatter(r, load) == Parted(None, r)
  {
    forall j | 0 <= j < |d| ensures DelimLine(d[j], RmdDelim) == DelimLine(r[j], RmdDelim) {
      if r[j] != d[j] {
        DelimNewline(d[j], RmdDelim);
      }
    }
    HeaderBoundsAgree(d, r, RmdDelim);
    assert HeaderBounds(r, RmdDelim).None?;
  }

  /** The code cell the script makes of a chunk block: the inner lines
      stored, the group as options. */
  function LegacyChunkCell(p: seq<Scanned>): Cell
    requires ChunkPart(p)
  {
    Code(Lines(StoredLines(Texts(p[1..|p| - 1]))), LegacyOptions(p[0].open.value))
  }

  /** The cell the script makes of a block: a chunk's cell, or prose with
      the empty lines around it in the file. */
  function LegacyPartCell(p: seq<Scanned>, first: bool, last: bool): Cell {
    if ChunkPart(p) then LegacyChunkCell(p)
    else Markdown(Lines(StoredLines(Lead(first) + Texts(p) + Lead(last))), None)
  }

  function LegacyPartCells(parts: seq<seq<Scanned>>, first: bool): (r: seq<Cell>)
    ensures |r| == |parts|
    ensures forall i | 0 <= i < |parts| :: r[i] == LegacyPartCell(parts[i], first && i == 0, i == |parts| - 1)
  {
    seq(|parts|, i requires 0 <= i < |parts| => LegacyPartCell(parts[i], first && i == 0, i == |parts| - 1))
  }

  lemma LegacyPartCellsOne(parts: seq<seq<Scanned>>, first: bool)
    requires |parts| == 1
    ensures LegacyPartCells(parts, first) == [LegacyPartCell(parts[0], first, true)]
  {
  }

  lemma LegacyPartCellsTwo(parts: seq<seq<Scanned>>, first: bool)
    requires |parts| == 2
    ensures LegacyPartCells(parts, first) == [LegacyPartCell(parts[0], first, false), LegacyPartCell(parts[1], false, true)]
  {
  }

  lemma LegacyPartCellsConsTwo(parts: seq<seq<Scanned>>, first: bool)
    requires |parts| > 2
    ensures LegacyPartCells(parts, first)
         == [LegacyPartCell(parts[0], first, false), LegacyPartCell(parts[1], false, false)] + LegacyPartCells(parts[2..], false)
  {
    LegacyPartCellsCons(parts, first);
    LegacyPartCellsCons(parts[1..], false);
    assert parts[1..][0] == parts[1] && parts[1..][1..] == parts[2..];
    SeqAssoc([LegacyPartCell(parts[0], first, false)], [LegacyPartCell(parts[1], false, false)], LegacyPartCells(parts[2..], false));
  }

  lemma LegacyPartCellsCons(parts: seq<seq<Scanned>>, first: bool)
    requires |parts| > 1
    ensures LegacyPartCells(parts, first) == [LegacyPartCell(parts[0], first, false)] + LegacyPartCells(parts[1..], false)
  {
    var a := LegacyPartCells(parts, first);
    var b := [LegacyPartCell(parts[0], first, false)] + LegacyPartCells(parts[1..], false);
    forall i | 0 <= i < |a| ensures a[i] == b[i] {
      if i > 0 {
        assert parts[1..][i - 1] == parts[i];
      }
    }
  }

  /** Prose, then a chunk block, then more lines: the prose cell if any, the
      chunk's cell, and the rest read afresh. */
  lemma LegacyProseChunk(md: seq<Scanned>, p: seq<Scanned>, tail: seq<Scanned>)
    requires forall j | 0 <= j < |md| :: md[j].open.None?
    requires ChunkPart(p)
    ensures LegacyRun(Start, md + p + tail)
         == LegacyProseCell(Texts(md)) + [LegacyChunkCell(p)] + LegacyRun(Start, tail)
  {
    ChunkPartSplit(md, p, tail);
    ChunkUnit(md, p[0], p[1..|p| - 1], p[|p| - 1], tail);
  }

  /** Blank prose, then a chunk block, then more lines. */
  lemma LegacyChunkBlock(lead: seq<Scanned>, p: seq<Scanned>, tail: seq<Scanned>)
    requires forall j | 0 <= j < |lead| :: lead[j].open.None?
    requires !AnyContent(Texts(lead))
    requires ChunkPart(p)
    ensures LegacyRun(Start, lead + p + tail) == [LegacyChunkCell(p)] + LegacyRun(Start, tail)
  {
    LegacyProseChunk(lead, p, tail);
    assert LegacyProseCell(Texts(lead)) == [];
    SeqUnit([LegacyChunkCell(p)]);
  }

  /** Prose with text, then a chunk block, then more lines. */
  lemma LegacyProseChunkBlock(md: seq<Scanned>, p: seq<Scanned>, tail: seq<Scanned>)
    requires forall j | 0 <= j < |md| :: md[j].open.None?
    requires AnyContent(Texts(md))
    requires ChunkPart(p)
    ensures LegacyRun(Start, md + p + tail)
         == [Markdown(Lines(StoredLines(Texts(md))), None), LegacyChunkCell(p)] + LegacyRun(Start, tail)
  {
    LegacyProseChunk(md, p, tail);
    assert LegacyProseCell(Texts(md)) == [Markdown(Lines(StoredLines(Texts(md))), None)];
    PairCons(Markdown(Lines(StoredLines(Texts(md))), None), LegacyChunkCell(p), LegacyRun(Start, tail));
  }

  /** Reading the blocks' lines gives one cell per block. */
  lemma {:induction false} LegacyReadParts(parts: seq<seq<Scanned>>, first: bool)
    requires |parts| > 0 && Separable(parts)
    ensures LegacyRun(Start, LeadScan(first) + Sections(parts, Blank)) == LegacyPartCells(parts, first)
    decreases |parts|, 2
  {
    if ChunkPart(parts[0]) {
      LegacyReadChunkFirst(parts, first);
    } else {
      LegacyReadProseFirst(parts, first);
    }
  }

  lemma {:induction false} LegacyReadChunkFirst(parts: seq<seq<Scanned>>, first: bool)
    requires |parts| > 0 && Separable(parts) && ChunkPart(parts[0])
    ensures LegacyRun(Start, LeadScan(first) + Sections(parts, Blank)) == LegacyPartCells(parts, first)
    decreases |parts|, 1
  {
    var p := parts[0];
    var tail := if |parts| == 1 then [] else [Blank] + Sections(parts[1..], Blank);
    var lead := LeadScan(first);
    SectionsAfterLead(parts, lead);
    LeadBlank(first);
    LegacyChunkBlock(lead, p, tail);
    assert LegacyPartCell(p, first, |parts| == 1) == LegacyChunkCell(p);
    if |parts| == 1 {
      LegacyPartCellsOne(parts, first);
      assert LegacyRun(Start, tail) == [];
      SeqUnit([LegacyChunkCell(p)]);
    } else {
      SeparableTail(parts, 1);
      LegacyReadParts(parts[1..], false);
      LegacyPartCellsCons(parts, first);
    }
  }

  lemma {:induction false} LegacyReadProseFirst(parts: seq<seq<Scanned>>, first: bool)
    requires |parts| > 0 && Separable(parts) && !ChunkPart(parts[0])
    ensures LegacyRun(Start, LeadScan(first) + Sections(parts, Blank)) == LegacyPartCells(parts, first)
    decreases |parts|, 1
  {
    if |parts| == 1 {
      LegacyReadProseOnly(parts, first);
    } else {
      LegacyReadProseThenChunk(parts, first);
    }
  }

  /** A single prose block reads as one markdown cell. */
  lemma LegacyReadProseOnly(parts: seq<seq<Scanned>>, first: bool)
    requires |parts| == 1 && ProsePart(parts[0])
    ensures LegacyRun(Start, LeadScan(first) + Sections(parts, Blank)) == LegacyPartCells(parts, first)
  {
    var p := parts[0];
    var md := LeadScan(first) + p + LeadScan(true);
    ProseAround(first, p, true);
    assert !ChunkPart(p);
    calc {
      LegacyRun(Start, LeadScan(first) + Sections(parts, Blank));
      { SeqUnit(LeadScan(first) + p); }
      LegacyRun(Start, md);
      { ProseOnly(md); }
      [Markdown(Lines(StoredLines(Texts(md))), None)];
      [LegacyPartCell(p, first, true)];
      { LegacyPartCellsOne(parts, first); }
      LegacyPartCells(parts, first);
    }
  }

  lemma {:induction false} LegacyReadProseThenChunk(parts: seq<seq<Scanned>>, first: bool)
    requires |parts| > 1 && Separable(parts) && !ChunkPart(parts[0])
    ensures LegacyRun(Start, LeadScan(first) + Sections(parts, Blank)) == LegacyPartCells(parts, first)
    decreases |parts|, 0
  {
    var tail := if |parts| == 2 then [] else [Blank] + Sections(parts[2..], Blank);
    var two := [LegacyPartCell(parts[0], first, false), LegacyPartCell(parts[1], false, |parts| == 2)];
    assert ProsePart(parts[0]) && ChunkPart(parts[1]);
    LegacyProseThenChunkCells(parts, first);
    if |parts| == 2 {
      LegacyPartCellsTwo(parts, first);
      assert LegacyRun(Start, tail) == [];
      SeqUnit(two);
    } else {
      SeparableTail(parts, 2);
      LegacyReadParts(parts[2..], false);
      LegacyPartCellsConsTwo(parts, first);
    }
  }

  /** A prose block and a chunk block at the front read as two cells. */
  lemma LegacyProseThenChunkCells(parts: seq<seq<Scanned>>, first: bool)
    requires |parts| > 1 && ProsePart(parts[0]) && !ChunkPart(parts[0]) && ChunkPart(parts[1])
    ensures var tail := if |parts| == 2 then [] else [Blank] + Sections(parts[2..], Blank);
      LegacyRun(Start, LeadScan(first) + Sections(parts, Blank))
      == [LegacyPartCell(parts[0], first, false), LegacyPartCell(parts[1], false, |parts| == 2)] + LegacyRun(Start, tail)
  {
    var p := parts[0];
    var q := parts[1];
    var lead := LeadScan(first);
    var md := lead + p + [Blank];
    var tail := if |parts| == 2 then [] else [Blank] + Sections(parts[2..], Blank);
    assert LegacyPartCell(q, false, |parts| == 2) == LegacyChunkCell(q);
    assert LegacyPartCell(p, first, false) == Markdown(Lines(StoredLines(Texts(md))), None) by {
      ProseAround(first, p, false);
    }
    ProseThenChunkLines(parts, lead);
    ProseAround(first, p, false);
    LegacyProseChunkBlock(md, q, tail);
  }

  // ---------------------------------------------------------------------
  // From the cells to the blocks the reader sees

  lemma StoredLinesAppend(a: seq<string>, b: seq<string>)
    ensures StoredLines(a + b) == StoredLines(a) + StoredLines(b)
  {
  }

  /** Text whose lines are all trimmed is stored line by line and joins back
      to itself with a final newline. */
  lemma StoredText(m: string)
    requires forall i | 0 <= i < |Split(m, '\n')| :: Trimmed(Split(m, '\n')[i])
    ensures Join(StoredLines(Split(m, '\n')), "") == m + "\n"
  {
    var ls := Split(m, '\n');
    assert StoredLines(ls) == Terminated(ls);
    ReadLinesSplit(m);
    JoinReadLines(m + "\n");
  }

  /** The empty line around prose comes back as one newline. */
  lemma StoredLead(first: bool)
    ensures Join(StoredLines(Lead(first)), "") == if first then "" else "\n"
  {
    if !first {
      StripEmptyIffBlank("");
      var p := StoredLines([""]);
      assert |p| == 1 && p[0] == Stored("") == "\n";
    }
  }

  /** A writable code cell's block is a chunk whose cell agrees with it. */
  lemma LegacyCodeComesBack(c: Cell, first: bool, last: bool)
    requires c.Code? && LegacyWritable(c)
    ensures ChunkPart(Scan(LegacyBlockLines(c)))
    ensures LegacyAgrees(c, LegacyPartCell(Scan(LegacyBlockLines(c)), first, last), first, last)
  {
    var s := MaybeJoin(c.source);
    LegacyChunkScan(s, c.options);
    assert LegacyBlockLines(c) == [LegacyCodeStart(c.options)] + BodyLines(s) + ["```"];
    LegacyCodeText(s);
  }

  /** A code block's lines scan as a chunk holding the code's lines and options. */
  lemma LegacyChunkScan(s: string, opts: Option<string>)
    requires opts.Some? ==> opts.value != "" && '\n' !in opts.value
    requires forall j | 0 <= j < |BodyLines(s)| :: !FenceClose(BodyLines(s)[j])
    ensures var ps := Scan([LegacyCodeStart(opts)] + BodyLines(s) + ["```"]);
      ChunkPart(ps) && LegacyChunkCell(ps) == Code(Lines(StoredLines(BodyLines(s))), opts)
  {
    LegacyStartPlain(opts);
    EndFence();
    CodeBlockScan(LegacyCodeStart(opts), BodyLines(s), "```");
  }

  /** Code text of trimmed lines comes back with a final newline, unless empty. */
  lemma LegacyCodeText(s: string)
    requires forall i | 0 <= i < |Split(s, '\n')| :: Trimmed(Split(s, '\n')[i])
    ensures MaybeJoin(Lines(StoredLines(BodyLines(s)))) == if s == "" then "" else s + "\n"
  {
    if s != "" {
      StoredText(s);
    }
  }

  /** A writable markdown cell's block is prose whose cell agrees with it. */
  lemma LegacyProseComesBack(c: Cell, first: bool, last: bool)
    requires c.Markdown? && LegacyWritable(c)
    ensures !ChunkPart(Scan(LegacyBlockLines(c))) && ProsePart(Scan(LegacyBlockLines(c)))
    ensures LegacyAgrees(c, LegacyPartCell(Scan(LegacyBlockLines(c)), first, last), first, last)
  {
    var m := MaybeJoin(c.source);
    assert LegacyBlockLines(c) == Split(m, '\n');
    LegacyProsePart(m);
    LegacyProseCellAgrees(c, first, last);
  }

  /** Writable markdown text scans as prose, not as a chunk. */
  lemma LegacyProsePart(m: string)
    requires LegacyProseWritable(m)
    ensures var ps := Scan(Split(m, '\n'));
      !ChunkPart(ps) && ProsePart(ps) && Texts(ps) == Split(m, '\n')
  {
    var ls := Split(m, '\n');
    TextsScan(ls);
    var ps := Scan(ls);
    assert ps[0].open == FenceOpen(ls[0]);
  }

  /** The prose cell read from a markdown cell's lines agrees with it. */
  lemma LegacyProseCellAgrees(c: Cell, first: bool, last: bool)
    requires c.Markdown?
    requires forall i | 0 <= i < |Split(MaybeJoin(c.source), '\n')| :: Trimmed(Split(MaybeJoin(c.source), '\n')[i])
    ensures var ls := Split(MaybeJoin(c.source), '\n');
      LegacyAgrees(c, Markdown(Lines(StoredLines(Lead(first) + ls + Lead(last))), None), first, last)
  {
    var m := MaybeJoin(c.source);
    var ls := Split(m, '\n');
    var lead := if first then "" else "\n";
    calc {
      MaybeJoin(Lines(StoredLines(Lead(first) + ls + Lead(last))));
      Join(StoredLines(Lead(first) + ls + Lead(last)), "");
      { StoredAroundText(ls, first, last); }
      lead + Join(StoredLines(ls), "") + (if last then "" else "\n");
      { StoredText(m); }
      lead + (m + "\n") + (if last then "" else "\n");
      { Framed(lead, m, last); }
      lead + m + (if last then "\n" else "\n\n");
    }
  }

  lemma Framed(lead: string, m: string, last: bool)
    ensures lead + (m + "\n") + (if last then "" else "\n") == lead + m + (if last then "\n" else "\n\n")
  {
  }

  /** The stored prose is its lines' text with the empty lines around it. */
  lemma StoredAroundText(ls: seq<string>, first: bool, last: bool)
    ensures Join(StoredLines(Lead(first) + ls + Lead(last)), "")
      == (if first then "" else "\n") + Join(StoredLines(ls), "") + (if last then "" else "\n")
  {
    StoredLinesAppend(Lead(first) + ls, Lead(last));
    StoredLinesAppend(Lead(first), ls);
    JoinConcat(StoredLines(Lead(first)) + StoredLines(ls), StoredLines(Lead(last)));
    JoinConcat(StoredLines(Lead(first)), StoredLines(ls));
    StoredLead(first);
    StoredLead(last);
  }

  /** The blocks of a round-trippable notebook are separable, and each reads
      back as a cell that agrees with the one it was written from. */
  lemma LegacyBlocksComeBack(cells: seq<Cell>)
    requires LegacyRoundTrippable(cells)
    ensures var parts := ScanParts(AllLegacyBlockLines(cells));
      && Separable(parts)
      && forall i | 0 <= i < |cells| ::
        LegacyAgrees(cells[i], LegacyPartCell(parts[i], i == 0, i == |cells| - 1), i == 0, i == |cells| - 1)
  {
    var parts := ScanParts(AllLegacyBlockLines(cells));
    forall i | 0 <= i < |cells|
      ensures ChunkPart(parts[i]) <==> cells[i].Code?
      ensures cells[i].Markdown? ==> ProsePart(parts[i])
      ensures LegacyAgrees(cells[i], LegacyPartCell(parts[i], i == 0, i == |cells| - 1), i == 0, i == |cells| - 1)
    {
      if cells[i].Code? {
        LegacyCodeComesBack(cells[i], i == 0, i == |cells| - 1);
      } else {
        LegacyProseComesBack(cells[i], i == 0, i == |cells| - 1);
      }
    }
  }

  /** The cells the script finds in the written lines. */
  lemma LegacyDocCells(cells: seq<Cell>)
    requires forall i | 0 <= i < |cells| :: !cells[i].Raw?
    requires |cells| > 0 && Separable(ScanParts(AllLegacyBlockLines(cells)))
    ensures LegacyCells(LegacyDocLines(cells)) == LegacyPartCells(ScanParts(AllLegacyBlockLines(cells)), true)
  {
    var parts := AllLegacyBlockLines(cells);
    var sp := ScanParts(parts);
    calc {
      LegacyCells(LegacyDocLines(cells));
      LegacyRun(Start, Scan(Sections(parts, "")));
      { ScanSections(parts); }
      LegacyRun(Start, Sections(sp, Blank));
      { SeqUnit(Sections(sp, Blank)); }
      LegacyRun(Start, LeadScan(true) + Sections(sp, Blank));
      { LegacyReadParts(sp, true); }
      LegacyPartCells(sp, true);
    }
  }

  /** Notebook to R Markdown and back with the older script. A notebook
      without header whose cells are all writable, with no two markdown cells
      in a row, comes back with no header, as many cells, code options
      unchanged, code text with a final newline, and markdown text framed by
      the empty lines around it. */
  lemma LegacyRoundTrip<V>(cells: seq<Cell>, dump: V -> string, load: string -> Option<Yaml<V>>)
    requires LegacyRoundTrippable(cells)
    ensures var nb := LegacyRmdToIpynb(LegacyIpynbToRmd(Notebook(cells, None), Null, dump), load);
      && nb.header.None?
      && |nb.cells| == |cells|
      && forall i | 0 <= i < |cells| :: LegacyAgrees(cells[i], nb.cells[i], i == 0, i == |cells| - 1)
  {
    LegacyWrittenText(cells, dump);
    var out := LegacyIpynbToRmd(Notebook(cells, None), Null, dump);
    LegacyDocLinesPlain(cells);
    assert |LegacyDocLines(cells)| > 0 by {
      LegacyBlockFits(cells[0]);
      SectionsFront(AllLegacyBlockLines(cells), "");
    }
    LegacyReadWritten(LegacyDocLines(cells), out, load);
    LegacyBlocksComeBack(cells);
    LegacyDocCells(cells);
  }

  // ---------------------------------------------------------------------
  // The two writers' joins compared

  /** Two markdown cells are written exactly as they are, one empty line
      between them, where the package trims the newlines at the junction. */
  lemma LegacyJoinsPlainly<V>(x: string, y: string, dump: V -> string)
    ensures var nb: Notebook<V> := Notebook([Markdown(Text(x), None), Markdown(Text(y), None)], None);
      && LegacyIpynbToRmd(nb, Null, dump) == x + "\n\n" + y
      && IpynbToRmd(nb, Null, dump) == Some(RTrim(x, Helpers.Newline) + "\n\n" + LTrim(y, Helpers.Newline))
  {
    var nb: Notebook<V> := Notebook([Markdown(Text(x), None), Markdown(Text(y), None)], None);
    assert ChosenHeader(Null, nb.header) == Null;
    assert LegacyBlocks(nb, Null, dump) == [x, y] by {
      assert LegacyCellBlocks(nb.cells) == [x, y];
    }
    assert Join([x, y], "\n\n") == x + "\n\n" + y by {
      JoinCons(x, [y], "\n\n");
      assert [x] + [y] == [x, y];
    }
    assert RmdBlocks(nb, Null, dump) == [x, y] by {
      assert CellBlocks(nb.cells) == [x, y];
    }
    assert Helpers.JoinWithEmptylines([x, y]) == Some(Helpers.Junction(x, y)) by {
      assert [x, y][1..] == [y];
      assert [y][1..] == [];
      var j := Helpers.Junction(x, y);
      assert Helpers.JoinFrom(j, []) == j;
      assert Helpers.JoinFrom(x, [y]) == Helpers.JoinFrom(j, []);
    }
  }
}
