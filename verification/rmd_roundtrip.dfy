/** Writing a notebook as R Markdown and reading the text back
    (`ipynb_to_rmd` followed by `rmd_to_ipynb`, ipyrmd/ipyrmd.py:90-122 and
    ipyrmd/ipyrmd.py:163-245). For cells the writer can express unambiguously
    the reader returns one cell per cell, in order: code cells with their text
    and chunk options, markdown cells with the blank lines that separated the
    blocks in the file around their text. */
module RmdRoundTrip {
  import opened PyStr
  import opened Notebook
  import opened Patterns
  import opened Helpers
  import opened FrontMatter
  import opened Segment
  import opened RmdRead
  import opened RmdWrite

  /** Chunk options that survive the fence: no newline, and nothing for
      `.strip(" ,")` to remove. */
  predicate CleanOptions(opts: Option<string>) {
    opts.Some? ==>
      var o := opts.value;
      '\n' !in o && (|o| > 0 ==> o[0] !in OptionTrim && o[|o| - 1] !in OptionTrim)
  }

  /** Markdown text the reader gives back: some visible text, no blank line
      at either end, no trailing whitespace on a line, and no line the reader
      would take for a chunk fence or a header delimiter. */
  predicate ProseWritable(m: string) {
    var ls := Split(m, '\n');
    && Clean(m)
    && AnyContent(ls)
    && forall i | 0 <= i < |ls| :: Bare(ls[i]) && FenceOpen(ls[i]).None? && !DelimLine(ls[i], RmdDelim)
  }

  /** Code text the reader gives back: empty, or without a newline at either
      end; no trailing whitespace on a line; no line that closes the chunk or
      delimits a header. */
  predicate ChunkWritable(s: string, opts: Option<string>) {
    var ls := Split(s, '\n');
    && (s == "" || Clean(s))
    && CleanOptions(opts)
    && forall i | 0 <= i < |ls| :: Bare(ls[i]) && !FenceClose(ls[i]) && !DelimLine(ls[i], RmdDelim)
  }

  predicate Writable(c: Cell) {
    match c
    case Markdown(src, _) => ProseWritable(MaybeJoin(src))
    case Code(src, opts) => ChunkWritable(MaybeJoin(src), opts)
    case Raw => false
  }

  /** A notebook body the round trip keeps: at least one cell, every cell
      writable, and no two markdown cells in a row (the file would merge them). */
  predicate RoundTrippable(cells: seq<Cell>) {
    && |cells| > 0
    && (forall i | 0 <= i < |cells| :: !cells[i].Raw?)
    && (forall i | 0 <= i < |cells| :: Writable(cells[i]))
    && forall i | 0 <= i < |cells| - 1 :: cells[i].Markdown? ==> cells[i + 1].Code?
  }

  /** The lines a block occupies in the file. */
  function BlockLines(c: Cell): seq<string>
    requires !c.Raw?
  {
    match c
    case Markdown(src, _) => Split(MaybeJoin(src), '\n')
    case Code(src, opts) => [CodeStart(opts)] + BodyLines(MaybeJoin(src)) + ["```"]
  }

  /** Each cell's lines. */
  function AllBlockLines(cells: seq<Cell>): (parts: seq<seq<string>>)
    requires forall i | 0 <= i < |cells| :: !cells[i].Raw?
    ensures |parts| == |cells|
    ensures forall i | 0 <= i < |cells| :: parts[i] == BlockLines(cells[i])
  {
    seq(|cells|, i requires 0 <= i < |cells| => BlockLines(cells[i]))
  }

  /** The lines of the file: the blocks' lines with an empty line between blocks. */
  function DocLines(cells: seq<Cell>): seq<string>
    requires forall i | 0 <= i < |cells| :: !cells[i].Raw?
  {
    Sections(AllBlockLines(cells), "")
  }

  /** How a cell comes back: markdown text with the separating empty lines
      around it, code text and options unchanged. */
  predicate Agrees(c: Cell, r: Cell, first: bool, last: bool) {
    match c
    case Markdown(src, _) =>
      && r.Markdown? && r.options.None?
      && MaybeJoin(r.source) == (if first then "" else "\n") + MaybeJoin(src) + (if last then "\n" else "\n\n")
    case Code(src, opts) =>
      r.Code? && r.options == opts && MaybeJoin(r.source) == MaybeJoin(src)
    case Raw => false
  }

  // ---------------------------------------------------------------------
  // The opening fence

  /** The group the opening fence captures for the given options. */
  function StartGroup(opts: Option<string>): (g: string)
    ensures CodeStart(opts) == "```" + ("{r" + g + "}")
  {
    if opts.None? then "" else ", " + opts.value
  }

  /** The opening fence the writer produces is read back as the same options,
      and is neither a closing fence nor a header delimiter. */
  lemma StartReadsBack(opts: Option<string>)
    requires CleanOptions(opts)
    ensures FenceOpen(CodeStart(opts)).Some?
    ensures ChunkOptions(FenceOpen(CodeStart(opts)).value) == opts
    ensures !FenceClose(CodeStart(opts)) && !DelimLine(CodeStart(opts), RmdDelim)
    ensures '\n' !in CodeStart(opts)
  {
    var g := StartGroup(opts);
    FenceLineOpens(CodeStart(opts), g);
    if opts.Some? {
      OptionsTrimmed(opts.value);
    }
    FenceLinePlain(CodeStart(opts), g);
  }

  /** `", " + o` stripped of spaces and commas is `o` again. */
  lemma OptionsTrimmed(o: string)
    requires |o| > 0 ==> o[0] !in OptionTrim && o[|o| - 1] !in OptionTrim
    ensures Trim(", " + o, OptionTrim) == o
  {
    var s := ", " + o;
    if |o| == 0 {
      RTrimAt(s, 0, OptionTrim);
    } else {
      RTrimAt(s, |s|, OptionTrim);
      assert s[..|s|] == s;
      LTrimAt(s, 2, OptionTrim);
    }
  }

  // ---------------------------------------------------------------------
  // The text of the file

  /** A block is its lines joined by newlines. */
  lemma BlockJoin(c: Cell)
    requires Writable(c)
    ensures Join(BlockLines(c), "\n") == Block(c)
  {
    match c
    case Markdown(src, _) =>
      JoinSplit(MaybeJoin(src), '\n');
    case Code(src, opts) =>
      CodeBlockJoin(MaybeJoin(src), opts);
  }

  lemma CodeBlockJoin(s: string, opts: Option<string>)
    requires (s == "" || Clean(s)) && CleanOptions(opts)
    ensures Join([CodeStart(opts)] + BodyLines(s) + ["```"], "\n") == CodeBlock(s, opts)
  {
    var start := CodeStart(opts);
    assert start[|start| - 1] == '}';
    FencedJoin(start, s);
  }

  /** A writable cell's block has no newline at either end. */
  lemma BlockClean(c: Cell)
    requires Writable(c)
    ensures Clean(Block(c))
  {
    if c.Code? {
      var b := Block(c);
      var start := CodeStart(c.options);
      assert b[0] == start[0] == '`';
      assert b[|b| - 1] == "\n```"[3];
    }
  }

  /** No line of a block holds a newline or is a header delimiter. */
  lemma BlockLinesPlain(c: Cell)
    requires Writable(c)
    ensures LinesPlain(BlockLines(c))
  {
    if c.Code? {
      var s := MaybeJoin(c.source);
      var ls := Split(s, '\n');
      assert forall j | 0 <= j < |ls| :: !DelimLine(ls[j], RmdDelim);
      CodeLinesPlain(s, c.options);
    }
  }

  lemma CodeLinesPlain(s: string, opts: Option<string>)
    requires CleanOptions(opts)
    requires forall j | 0 <= j < |Split(s, '\n')| :: !DelimLine(Split(s, '\n')[j], RmdDelim)
    ensures LinesPlain([CodeStart(opts)] + BodyLines(s) + ["```"])
  {
    FenceLinePlain(CodeStart(opts), StartGroup(opts));
    assert LinesPlain(BodyLines(s));
    FencedPlain(CodeStart(opts), BodyLines(s));
  }

  /** Every line of the file is free of newlines and delimiters. */
  lemma DocLinesPlain(cells: seq<Cell>)
    requires forall i | 0 <= i < |cells| :: !cells[i].Raw?
    requires forall i | 0 <= i < |cells| :: Writable(cells[i])
    ensures LinesPlain(DocLines(cells))
  {
    var parts := AllBlockLines(cells);
    forall i | 0 <= i < |parts| ensures LinesPlain(parts[i]) {
      BlockLinesPlain(cells[i]);
    }
    SectionsPlain(parts);
  }

  /** What the writer needs of each block: it is its lines joined, and clean. */
  lemma BlocksFit(cells: seq<Cell>)
    requires forall i | 0 <= i < |cells| :: Writable(cells[i])
    ensures forall i | 0 <= i < |cells| ::
      && !cells[i].Raw?
      && |BlockLines(cells[i])| > 0
      && Join(BlockLines(cells[i]), "\n") == Block(cells[i])
      && Clean(Block(cells[i]))
  {
    forall i | 0 <= i < |cells|
      ensures !cells[i].Raw? && |BlockLines(cells[i])| > 0 && Join(BlockLines(cells[i]), "\n") == Block(cells[i]) && Clean(Block(cells[i]))
    {
      BlockJoin(cells[i]);
      BlockClean(cells[i]);
    }
  }

  /** For round-trippable cells and no header the writer's output is the
      file's lines joined by newlines, and it does not end in a newline. */
  lemma WrittenText<V>(cells: seq<Cell>, dump: V -> string)
    requires RoundTrippable(cells)
    ensures var out := IpynbToRmd(Notebook(cells, None), Null, dump);
      && out.Some? && out.value == Join(DocLines(cells), "\n")
      && |out.value| > 0 && out.value[|out.value| - 1] != '\n'
  {
    var bs := CellBlocks(cells);
    var nb: Notebook<V> := Notebook(cells, None);
    assert IpynbToRmd(nb, Null, dump) == JoinWithEmptylines(bs) by {
      assert ChosenHeader(Null, nb.header) == Null;
    }
    BlocksClean(cells);
    JoinWithEmptylinesClean(bs);
    var out := Join(bs, "\n\n");
    var last := bs[|bs| - 1];
    JoinEndsLike(bs, "\n\n");
    assert out[|out| - 1] == last[|last| - 1];
    DocLinesJoin(cells);
  }

  lemma BlocksClean(cells: seq<Cell>)
    requires RoundTrippable(cells)
    ensures |CellBlocks(cells)| == |cells|
    ensures forall i | 0 <= i < |cells| :: Clean(CellBlocks(cells)[i])
  {
    BlocksFit(cells);
  }

  lemma DocLinesJoin(cells: seq<Cell>)
    requires RoundTrippable(cells)
    ensures Join(DocLines(cells), "\n") == Join(CellBlocks(cells), "\n\n")
  {
    var bs := CellBlocks(cells);
    BlocksFit(cells);
    SectionsJoin(AllBlockLines(cells), bs);
  }

  // ---------------------------------------------------------------------
  // Reading the file back

  /** The cell the reader makes of a block: a chunk's inner lines with its
      options, or prose with the empty lines around it in the file. */
  function PartCell(p: seq<Scanned>, first: bool, last: bool): Cell {
    if ChunkPart(p) then Code(Lines(CodeLines(Texts(p[1..|p| - 1]))), ChunkOptions(p[0].open.value))
    else Markdown(Lines(ProseLines(Lead(first) + Texts(p) + Lead(last))), None)
  }

  /** The cells made of a run of blocks; `first` when nothing precedes them. */
  function PartCells(parts: seq<seq<Scanned>>, first: bool): (r: seq<Cell>)
    ensures |r| == |parts|
    ensures forall i | 0 <= i < |parts| :: r[i] == PartCell(parts[i], first && i == 0, i == |parts| - 1)
  {
    seq(|parts|, i requires 0 <= i < |parts| => PartCell(parts[i], first && i == 0, i == |parts| - 1))
  }

  lemma PartCellsOne(parts: seq<seq<Scanned>>, first: bool)
    requires |parts| == 1
    ensures PartCells(parts, first) == [PartCell(parts[0], first, true)]
  {
  }

  lemma PartCellsTwo(parts: seq<seq<Scanned>>, first: bool)
    requires |parts| == 2
    ensures PartCells(parts, first) == [PartCell(parts[0], first, false), PartCell(parts[1], false, true)]
  {
  }

  lemma PartCellsConsTwo(parts: seq<seq<Scanned>>, first: bool)
    requires |parts| > 2
    ensures PartCells(parts, first)
         == [PartCell(parts[0], first, false), PartCell(parts[1], false, false)] + PartCells(parts[2..], false)
  {
    PartCellsCons(parts, first);
    PartCellsCons(parts[1..], false);
    assert parts[1..][0] == parts[1] && parts[1..][1..] == parts[2..];
    SeqAssoc([PartCell(parts[0], first, false)], [PartCell(parts[1], false, false)], PartCells(parts[2..], false));
  }

  lemma PartCellsCons(parts: seq<seq<Scanned>>, first: bool)
    requires |parts| > 1
    ensures PartCells(parts, first) == [PartCell(parts[0], first, false)] + PartCells(parts[1..], false)
  {
    var a := PartCells(parts, first);
    var b := [PartCell(parts[0], first, false)] + PartCells(parts[1..], false);
    forall i | 0 <= i < |a| ensures a[i] == b[i] {
      if i > 0 {
        assert parts[1..][i - 1] == parts[i];
      }
    }
  }

  /** Reading the blocks' lines gives one cell per block. */
  lemma {:induction false} ReadParts(parts: seq<seq<Scanned>>, first: bool)
    requires |parts| > 0 && Separable(parts)
    ensures Run(Start, LeadScan(first) + Sections(parts, Blank)) == PartCells(parts, first)
    decreases |parts|, 2
  {
    if ChunkPart(parts[0]) {
      ReadChunkFirst(parts, first);
    } else {
      ReadProseFirst(parts, first);
    }
  }

  /** The code cell a chunk block makes. */
  function ChunkCell(p: seq<Scanned>): Cell
    requires ChunkPart(p)
  {
    Code(Lines(CodeLines(Texts(p[1..|p| - 1]))), ChunkOptions(p[0].open.value))
  }

  /** Blank prose, then a chunk block, then more lines. */
  lemma ChunkBlock(lead: seq<Scanned>, p: seq<Scanned>, tail: seq<Scanned>)
    requires forall j | 0 <= j < |lead| :: lead[j].open.None?
    requires !AnyContent(Texts(lead))
    requires ChunkPart(p)
    ensures Run(Start, lead + p + tail) == [ChunkCell(p)] + Run(Start, tail)
  {
    ChunkPartSplit(lead, p, tail);
    ChunkUnit(lead, p[0], p[1..|p| - 1], p[|p| - 1], tail);
    assert ProseCell(Texts(lead)) == [];
    SeqUnit([ChunkCell(p)]);
  }

  /** Prose with text, then a chunk block, then more lines. */
  lemma ProseChunkBlock(md: seq<Scanned>, p: seq<Scanned>, tail: seq<Scanned>)
    requires forall j | 0 <= j < |md| :: md[j].open.None?
    requires AnyContent(Texts(md))
    requires ChunkPart(p)
    ensures Run(Start, md + p + tail) == [Markdown(Lines(ProseLines(Texts(md))), None), ChunkCell(p)] + Run(Start, tail)
  {
    ChunkPartSplit(md, p, tail);
    ProseContent(Texts(md));
    ChunkUnit(md, p[0], p[1..|p| - 1], p[|p| - 1], tail);
    assert ProseCell(Texts(md)) == [Markdown(Lines(ProseLines(Texts(md))), None)];
    PairCons(Markdown(Lines(ProseLines(Texts(md))), None), ChunkCell(p), Run(Start, tail));
  }

  lemma {:induction false} ReadChunkFirst(parts: seq<seq<Scanned>>, first: bool)
    requires |parts| > 0 && Separable(parts) && ChunkPart(parts[0])
    ensures Run(Start, LeadScan(first) + Sections(parts, Blank)) == PartCells(parts, first)
    decreases |parts|, 1
  {
    var p := parts[0];
    var tail := if |parts| == 1 then [] else [Blank] + Sections(parts[1..], Blank);
    var lead := LeadScan(first);
    SectionsAfterLead(parts, lead);
    LeadBlank(first);
    ChunkBlock(lead, p, tail);
    assert PartCell(p, first, |parts| == 1) == ChunkCell(p);
    if |parts| == 1 {
      PartCellsOne(parts, first);
      assert Run(Start, tail) == [];
      SeqUnit([ChunkCell(p)]);
    } else {
      SeparableTail(parts, 1);
      ReadParts(parts[1..], false);
      PartCellsCons(parts, first);
    }
  }

  lemma {:induction false} ReadProseFirst(parts: seq<seq<Scanned>>, first: bool)
    requires |parts| > 0 && Separable(parts) && !ChunkPart(parts[0])
    ensures Run(Start, LeadScan(first) + Sections(parts, Blank)) == PartCells(parts, first)
    decreases |parts|, 1
  {
    var p := parts[0];
    assert ProsePart(p);
    var lead := LeadScan(first);
    var md := lead + p + LeadScan(|parts| == 1);
    ProseAround(first, p, |parts| == 1);
    SectionsFront(parts, Blank);
    if |parts| == 1 {
      ProseUnit(md);
      assert md == lead + Sections(parts, Blank);
    } else {
      ReadProseThenChunk(parts, first);
    }
  }

  lemma {:induction false} ReadProseThenChunk(parts: seq<seq<Scanned>>, first: bool)
    requires |parts| > 1 && Separable(parts) && !ChunkPart(parts[0])
    ensures Run(Start, LeadScan(first) + Sections(parts, Blank)) == PartCells(parts, first)
    decreases |parts|, 0
  {
    var tail := if |parts| == 2 then [] else [Blank] + Sections(parts[2..], Blank);
    var two := [PartCell(parts[0], first, false), PartCell(parts[1], false, |parts| == 2)];
    assert ProsePart(parts[0]) && ChunkPart(parts[1]);
    ProseThenChunkCells(parts, first);
    if |parts| == 2 {
      PartCellsTwo(parts, first);
      assert Run(Start, tail) == [];
      SeqUnit(two);
    } else {
      SeparableTail(parts, 2);
      ReadParts(parts[2..], false);
      PartCellsConsTwo(parts, first);
    }
  }

  /** A prose block and a chunk block at the front read as two cells. */
  lemma ProseThenChunkCells(parts: seq<seq<Scanned>>, first: bool)
    requires |parts| > 1 && ProsePart(parts[0]) && !ChunkPart(parts[0]) && ChunkPart(parts[1])
    ensures var tail := if |parts| == 2 then [] else [Blank] + Sections(parts[2..], Blank);
      Run(Start, LeadScan(first) + Sections(parts, Blank))
      == [PartCell(parts[0], first, false), PartCell(parts[1], false, |parts| == 2)] + Run(Start, tail)
  {
    var p := parts[0];
    var q := parts[1];
    var lead := LeadScan(first);
    var md := lead + p + [Blank];
    var tail := if |parts| == 2 then [] else [Blank] + Sections(parts[2..], Blank);
    assert PartCell(q, false, |parts| == 2) == ChunkCell(q);
    assert PartCell(p, first, false) == Markdown(Lines(ProseLines(Texts(md))), None) by {
      ProseAround(first, p, false);
    }
    ProseThenChunkLines(parts, lead);
    ProseAround(first, p, false);
    ProseChunkBlock(md, q, tail);
  }

  // ---------------------------------------------------------------------
  // From the cells to the blocks the reader sees

  /** A writable code cell's block is a chunk whose cell agrees with it. */
  lemma CodeComesBack(c: Cell, first: bool, last: bool)
    requires c.Code? && Writable(c)
    ensures ChunkPart(Scan(BlockLines(c)))
    ensures Agrees(c, PartCell(Scan(BlockLines(c)), first, last), first, last)
  {
    var s := MaybeJoin(c.source);
    assert BlockLines(c) == [CodeStart(c.options)] + BodyLines(s) + ["```"];
    CodePartBack(s, c.options);
  }

  /** Writable code text, fenced, scans as a chunk that reads back as the
      text and the options. */
  lemma CodePartBack(s: string, opts: Option<string>)
    requires ChunkWritable(s, opts)
    ensures ChunkPart(Scan([CodeStart(opts)] + BodyLines(s) + ["```"]))
    ensures var ps := Scan([CodeStart(opts)] + BodyLines(s) + ["```"]);
      ps[0].open.Some? && ChunkOptions(ps[0].open.value) == opts
    ensures var ps := Scan([CodeStart(opts)] + BodyLines(s) + ["```"]);
      |ps| >= 2 && MaybeJoin(Lines(CodeLines(Texts(ps[1..|ps| - 1])))) == s
  {
    var body := BodyLines(s);
    var ps := Scan([CodeStart(opts)] + body + ["```"]);
    var g := FenceOpen(CodeStart(opts));
    assert ChunkPart(ps) && ps[0].open == g && Texts(ps[1..|ps| - 1]) == body by {
      StartReadsBack(opts);
      EndFence();
      BodyNoClose(s);
      CodeBlockScan(CodeStart(opts), body, "```");
    }
    assert g.Some? && ChunkOptions(g.value) == opts by {
      StartReadsBack(opts);
    }
    assert MaybeJoin(Lines(CodeLines(body))) == s by {
      CodeTextBack(s);
    }
    assert MaybeJoin(Lines(CodeLines(Texts(ps[1..|ps| - 1])))) == s;
  }

  /** No line of writable code text closes the chunk. */
  lemma BodyNoClose(s: string)
    requires forall i | 0 <= i < |Split(s, '\n')| :: !FenceClose(Split(s, '\n')[i])
    ensures forall j | 0 <= j < |BodyLines(s)| :: !FenceClose(BodyLines(s)[j])
  {
  }

  /** Code text of bare lines is stored line by line and joins back to itself. */
  lemma CodeTextBack(s: string)
    requires forall i | 0 <= i < |Split(s, '\n')| :: Bare(Split(s, '\n')[i])
    ensures MaybeJoin(Lines(CodeLines(BodyLines(s)))) == s
  {
    var body := BodyLines(s);
    CodeLinesText(body);
    if s != "" {
      assert Stripped(body) == body;
      JoinSplit(s, '\n');
    }
  }

  /** A writable markdown cell's block is prose whose cell agrees with it. */
  lemma ProseComesBack(c: Cell, first: bool, last: bool)
    requires c.Markdown? && Writable(c)
    ensures !ChunkPart(Scan(BlockLines(c))) && ProsePart(Scan(BlockLines(c)))
    ensures Agrees(c, PartCell(Scan(BlockLines(c)), first, last), first, last)
  {
    var m := MaybeJoin(c.source);
    ProsePartBack(m);
    assert BlockLines(c) == Split(m, '\n');
    ProseCellAgrees(c, first, last);
  }

  /** Writable markdown text scans as prose, not as a chunk. */
  lemma ProsePartBack(m: string)
    requires ProseWritable(m)
    ensures var ps := Scan(Split(m, '\n'));
      !ChunkPart(ps) && ProsePart(ps) && Texts(ps) == Split(m, '\n')
  {
    var ls := Split(m, '\n');
    TextsScan(ls);
    var ps := Scan(ls);
    assert ps[0].open == FenceOpen(ls[0]);
  }

  /** The prose cell read from a markdown cell's lines agrees with it. */
  lemma ProseCellAgrees(c: Cell, first: bool, last: bool)
    requires c.Markdown?
    requires forall i | 0 <= i < |Split(MaybeJoin(c.source), '\n')| :: Bare(Split(MaybeJoin(c.source), '\n')[i])
    ensures var ls := Split(MaybeJoin(c.source), '\n');
      Agrees(c, Markdown(Lines(ProseLines(Lead(first) + ls + Lead(last))), None), first, last)
  {
    var m := MaybeJoin(c.source);
    var ls := Split(m, '\n');
    calc {
      MaybeJoin(Lines(ProseLines(Lead(first) + ls + Lead(last))));
      Join(ProseLines(Lead(first) + ls + Lead(last)), "");
      { ProseAroundText(ls, first, last); }
      (if first then "" else "\n") + Join(ProseLines(ls), "") + (if last then "" else "\n");
      { ProseTextBack(m); }
      (if first then "" else "\n") + (m + "\n") + (if last then "" else "\n");
      { NewlineTail(m, last); SeqAssoc(if first then "" else "\n", m + "\n", if last then "" else "\n"); }
      (if first then "" else "\n") + m + (if last then "\n" else "\n\n");
    }
  }

  lemma NewlineTail(m: string, last: bool)
    ensures (m + "\n") + (if last then "" else "\n") == m + (if last then "\n" else "\n\n")
  {
  }

  /** The prose cell's text is its lines' text with the empty lines around it. */
  lemma ProseAroundText(ls: seq<string>, first: bool, last: bool)
    ensures Join(ProseLines(Lead(first) + ls + Lead(last)), "")
      == (if first then "" else "\n") + Join(ProseLines(ls), "") + (if last then "" else "\n")
  {
    ProseLinesAppend(Lead(first) + ls, Lead(last));
    ProseLinesAppend(Lead(first), ls);
    JoinConcat(ProseLines(Lead(first)) + ProseLines(ls), ProseLines(Lead(last)));
    JoinConcat(ProseLines(Lead(first)), ProseLines(ls));
    LeadText(first);
    LeadText(last);
  }

  /** Markdown text of bare lines comes back with a final newline. */
  lemma ProseTextBack(m: string)
    requires forall i | 0 <= i < |Split(m, '\n')| :: Bare(Split(m, '\n')[i])
    ensures Join(ProseLines(Split(m, '\n')), "") == m + "\n"
  {
    var ls := Split(m, '\n');
    assert ProseLines(ls) == Terminated(ls);
    ReadLinesSplit(m);
    JoinReadLines(m + "\n");
  }

  lemma ProseLinesAppend(a: seq<string>, b: seq<string>)
    ensures ProseLines(a + b) == ProseLines(a) + ProseLines(b)
  {
  }

  /** The empty line around prose comes back as one newline. */
  lemma LeadText(first: bool)
    ensures Join(ProseLines(Lead(first)), "") == if first then "" else "\n"
  {
    if !first {
      var p := ProseLines([""]);
      assert |RStrip("")| == 0;
      assert |p| == 1 && p[0] == RStrip([""][0]) + "\n";
    }
  }

  /** Each writable cell's block is a chunk exactly when the cell is code,
      prose otherwise, and reads back as a cell that agrees with it. */
  lemma CellComesBack(c: Cell, first: bool, last: bool)
    requires !c.Raw? && Writable(c)
    ensures ChunkPart(Scan(BlockLines(c))) <==> c.Code?
    ensures c.Markdown? ==> ProsePart(Scan(BlockLines(c)))
    ensures Agrees(c, PartCell(Scan(BlockLines(c)), first, last), first, last)
  {
    if c.Code? {
      CodeComesBack(c, first, last);
    } else {
      ProseComesBack(c, first, last);
    }
  }

  /** The blocks of a round-trippable notebook are separable, and each reads
      back as a cell that agrees with the one it was written from. */
  lemma BlocksComeBack(cells: seq<Cell>)
    requires RoundTrippable(cells)
    ensures var parts := ScanParts(AllBlockLines(cells));
      && Separable(parts)
      && forall i | 0 <= i < |cells| :: Agrees(cells[i], PartCell(parts[i], i == 0, i == |cells| - 1), i == 0, i == |cells| - 1)
  {
    var parts := ScanParts(AllBlockLines(cells));
    forall i | 0 <= i < |cells|
      ensures ChunkPart(parts[i]) <==> cells[i].Code?
      ensures cells[i].Markdown? ==> ProsePart(parts[i])
      ensures Agrees(cells[i], PartCell(parts[i], i == 0, i == |cells| - 1), i == 0, i == |cells| - 1)
    {
      assert !cells[i].Raw? && Writable(cells[i]);
      CellComesBack(cells[i], i == 0, i == |cells| - 1);
    }
  }

  /** The cells the reader finds in the written lines. */
  lemma DocCells(cells: seq<Cell>)
    requires forall i | 0 <= i < |cells| :: !cells[i].Raw?
    requires |cells| > 0 && Separable(ScanParts(AllBlockLines(cells)))
    ensures Cells(DocLines(cells)) == PartCells(ScanParts(AllBlockLines(cells)), true)
  {
    var parts := AllBlockLines(cells);
    var sp := ScanParts(parts);
    calc {
      Cells(DocLines(cells));
      Run(Start, Scan(Sections(parts, "")));
      { ScanSections(parts); }
      Run(Start, Sections(sp, Blank));
      { SeqUnit(Sections(sp, Blank)); }
      Run(Start, LeadScan(true) + Sections(sp, Blank));
      { ReadParts(sp, true); }
      PartCells(sp, true);
    }
  }

  /** The written text reads as the cells of its lines and no header: its
      lines hold no delimiter, and the final newline the reader misses does
      not matter. */
  lemma ReadWritten<V>(cells: seq<Cell>, t: string, load: string -> Option<Yaml<V>>)
    requires forall i | 0 <= i < |cells| :: !cells[i].Raw?
    requires |cells| > 0 && LinesPlain(DocLines(cells))
    requires t == Join(DocLines(cells), "\n") && |t| > 0 && t[|t| - 1] != '\n'
    ensures RmdToIpynb(t, load) == Notebook(Cells(DocLines(cells)), None)
  {
    var d := DocLines(cells);
    FinalNewlineIgnored(t, load);
    ReadLinesSplit(t);
    assert |d| > 0;
    SplitJoin(d, '\n');
    var ts := Terminated(d);
    assert ReadLines(t + "\n") == ts;
    NoHeader(d, ts);
    CellsAlike(d, ts);
  }

  /** Lines without a delimiter have no header block, newline-terminated or not. */
  lemma NoHeader(d: seq<string>, ts: seq<string>)
    requires LinesPlain(d) && ts == Terminated(d)
    ensures HeaderBounds(ts, RmdDelim).None? && LinesAlike(d, ts)
  {
    forall j | 0 <= j < |d| ensures DelimLine(d[j], RmdDelim) == DelimLine(ts[j], RmdDelim) {
      DelimNewline(d[j], RmdDelim);
    }
    HeaderBoundsAgree(d, ts, RmdDelim);
  }

  /** Notebook to R Markdown and back. A notebook without header whose cells
      are all writable, with no two markdown cells in a row, comes back with
      no header, as many cells, the code cells' text and options unchanged
      and the markdown cells' text framed by the empty lines around them. */
  lemma RoundTrip<V>(cells: seq<Cell>, dump: V -> string, load: string -> Option<Yaml<V>>)
    requires RoundTrippable(cells)
    ensures var out := IpynbToRmd(Notebook(cells, None), Null, dump);
      && out.Some?
      && var nb := RmdToIpynb(out.value, load);
      && nb.header.None?
      && |nb.cells| == |cells|
      && forall i | 0 <= i < |cells| :: Agrees(cells[i], nb.cells[i], i == 0, i == |cells| - 1)
  {
    WrittenText(cells, dump);
    var out := IpynbToRmd(Notebook(cells, None), Null, dump);
    DocLinesPlain(cells);
    ReadWritten(cells, out.value, load);
    BlocksComeBack(cells);
    DocCells(cells);
  }
}
