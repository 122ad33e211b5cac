/** Writing a notebook as a spin script and reading the text back
    (`ipynb_to_spin` followed by `spin_to_ipynb`, ipyrmd/ipyrmd.py:125-152
    and ipyrmd/ipyrmd.py:248-330), with the first markdown line after code
    newline-terminated like every other markdown line. For cells the writer
    can express unambiguously the reader returns one cell per cell, in order:
    markdown cells newline-terminated, code cells with their options and the
    empty separator lines that follow them in the file. */
module SpinRoundTrip {
  import opened PyStr
  import opened Notebook
  import opened Patterns
  import opened Helpers
  import opened FrontMatter
  import opened Segment
  import opened SpinRead
  import opened SpinWrite
  import opened RmdWrite

  /** A line that starts with one of the two spin markers. */
  predicate Marked(y: string) {
    |y| >= 3 && (y[..3] == "#' " || y[..3] == "#+ ")
  }

  /** Markdown text the reader gives back: some visible text, no trailing
      whitespace on a line, and no line that once marked would delimit a
      header block. */
  predicate SpinProseWritable(m: string) {
    var ls := Split(m, '\n');
    && AnyContent(ls)
    && forall i | 0 <= i < |ls| :: Bare(ls[i]) && !DelimLine(ls[i], RmdDelim)
  }

  /** Code the reader gives back as a cell of its own: options without a
      newline and with nothing for `.strip(" ,")` to remove; source with
      visible text, no newline at either end, no trailing whitespace on a
      line, and no line starting with a marker. */
  predicate SpinChunkWritable(s: string, o: string) {
    var ls := Split(s, '\n');
    && Clean(s)
    && AnyContent(ls)
    && '\n' !in o && Trim(o, OptionTrim) == o
    && forall i | 0 <= i < |ls| :: Bare(ls[i]) && !Marked(ls[i])
  }

  /** Code cells need options: without a `#+ ` line a code cell runs into
      the cell before it. */
  predicate SpinWritable(c: Cell) {
    match c
    case Markdown(src, _) => SpinProseWritable(MaybeJoin(src))
    case Code(src, opts) => opts.Some? && SpinChunkWritable(MaybeJoin(src), opts.value)
    case Raw => false
  }

  predicate SpinRoundTrippable(cells: seq<Cell>) {
    && |cells| > 0
    && forall i | 0 <= i < |cells| :: SpinWritable(cells[i])
  }

  /** How a cell comes back: markdown text newline-terminated and without
      options; code text with the newline of its last line and, unless it is
      the last cell, the empty line after it; options unchanged. */
  predicate SpinAgrees(c: Cell, r: Cell, last: bool) {
    match c
    case Markdown(src, _) =>
      r.Markdown? && r.options.None? && MaybeJoin(r.source) == MaybeJoin(src) + "\n"
    case Code(src, opts) =>
      && r.Code? && r.options == opts
      && MaybeJoin(r.source) == MaybeJoin(src) + (if last then "\n" else "\n\n")
    case Raw => false
  }

  // ---------------------------------------------------------------------
  // Reading classified blocks

  /** A block as the reader sees it: a run of markdown lines, or a directive
      and the code lines after it. */
  datatype Piece = ProsePiece(xs: seq<string>) | ChunkPiece(o: string, ys: seq<string>)

  function PieceLines(p: Piece): seq<SpinLine> {
    match p
    case ProsePiece(xs) => ProseRun(xs)
    case ChunkPiece(o, ys) => [Directive(o)] + PlainRun(ys)
  }

  /** A block with visible text. */
  predicate Readable(p: Piece) {
    match p
    case ProsePiece(xs) => AnyContent(Terminated(xs))
    case ChunkPiece(_, ys) => AnyContent(Terminated(ys))
  }

  /** The cell a block reads as; a code block keeps the separator line after it. */
  function PieceCell(p: Piece, last: bool): Cell {
    match p
    case ProsePiece(xs) => Markdown(Lines(Terminated(xs)), None)
    case ChunkPiece(o, ys) =>
      Code(Lines(Terminated(ys) + (if last then [] else ["\n"])), Some(Trim(o, OptionTrim)))
  }

  function AllPieceLines(ps: seq<Piece>): (r: seq<seq<SpinLine>>)
    ensures |r| == |ps| && forall i | 0 <= i < |ps| :: r[i] == PieceLines(ps[i])
  {
    seq(|ps|, i requires 0 <= i < |ps| => PieceLines(ps[i]))
  }

  function PieceCells(ps: seq<Piece>): (r: seq<Cell>)
    ensures |r| == |ps| && forall i | 0 <= i < |ps| :: r[i] == PieceCell(ps[i], i == |ps| - 1)
  {
    seq(|ps|, i requires 0 <= i < |ps| => PieceCell(ps[i], i == |ps| - 1))
  }

  /** The lines after the first block: nothing, or the separator and the rest. */
  function After(ps: seq<Piece>): seq<SpinLine>
    requires |ps| > 0
  {
    if |ps| == 1 then [] else [Plain("")] + Sections(AllPieceLines(ps[1..]), Plain(""))
  }

  /** Where the reader stands between blocks: at the start, or in code. */
  predicate Between(st: State) {
    st == Start || st.mode == InCode
  }

  lemma PieceCellsCons(ps: seq<Piece>)
    requires |ps| > 1
    ensures PieceCells(ps) == [PieceCell(ps[0], false)] + PieceCells(ps[1..])
  {
  }

  /** Read from between blocks, the blocks come back one cell each. */
  lemma {:induction false} ReadPieces(st: State, ps: seq<Piece>)
    requires Between(st) && |ps| > 0
    requires forall i | 0 <= i < |ps| :: Readable(ps[i])
    ensures Run(st, Sections(AllPieceLines(ps), Plain("")), true) == Flush(st) + PieceCells(ps)
    decreases |ps|, 2
  {
    SectionsFront(AllPieceLines(ps), Plain(""));
    assert AllPieceLines(ps)[1..] == AllPieceLines(ps[1..]);
    assert Sections(AllPieceLines(ps), Plain("")) == PieceLines(ps[0]) + After(ps);
    if ps[0].ProsePiece? {
      ReadProsePiece(st, ps);
    } else {
      ReadChunkPiece(st, ps);
    }
  }

  /** The rest of the blocks read from the state a block leaves. */
  lemma ReadAfter(st: State, ps: seq<Piece>, cells: seq<Cell>)
    requires st.mode == InCode && |ps| > 1
    requires forall i | 0 <= i < |ps| :: Readable(ps[i])
    requires Flush(st) == cells
    ensures Run(st, Sections(AllPieceLines(ps[1..]), Plain("")), true) == cells + PieceCells(ps[1..])
    decreases |ps|, 0
  {
    ReadPieces(st, ps[1..]);
  }

  lemma {:induction false} ReadProsePiece(st: State, ps: seq<Piece>)
    requires Between(st) && |ps| > 0 && ps[0].ProsePiece?
    requires forall i | 0 <= i < |ps| :: Readable(ps[i])
    ensures Run(st, PieceLines(ps[0]) + After(ps), true) == Flush(st) + PieceCells(ps)
    decreases |ps|, 1
  {
    var xs := ps[0].xs;
    assert Readable(ps[0]);
    var md := State(InMarkdown, Terminated(xs), None);
    ProsePieceReads(st, xs, After(ps));
    if |ps| == 1 {
      PieceCellsOne(ps);
      assert Run(md, [], true) == [PieceCell(ps[0], true)];
    } else {
      var gap := State(InCode, ["\n"], None);
      var rest := Sections(AllPieceLines(ps[1..]), Plain(""));
      RunGapAfterProse(md, rest, true);
      NewlineBlank();
      ReadAfter(gap, ps, []);
      SeqUnit(PieceCells(ps[1..]));
      PieceCellsCons(ps);
      SeqAssoc(Flush(st), Flush(md), PieceCells(ps[1..]));
    }
  }

  lemma PieceCellsOne(ps: seq<Piece>)
    requires |ps| == 1
    ensures PieceCells(ps) == [PieceCell(ps[0], true)]
  {
  }

  /** A chunk block read from between blocks flushes what is open and is collected. */
  lemma ChunkPieceOpens(st: State, o: string, ys: seq<string>, after: seq<SpinLine>)
    ensures Run(st, PieceLines(ChunkPiece(o, ys)) + after, true)
         == Flush(st) + Run(State(InCode, Terminated(ys), Some(Trim(o, OptionTrim))), after, true)
  {
    SeqAssoc([Directive(o)], PlainRun(ys), after);
    RunDirective(st, o, PlainRun(ys) + after, true);
    PlainRunReads([], Some(Trim(o, OptionTrim)), ys, after, true);
    SeqUnit(Terminated(ys));
  }

  lemma {:induction false} ReadChunkPiece(st: State, ps: seq<Piece>)
    requires Between(st) && |ps| > 0 && ps[0].ChunkPiece?
    requires forall i | 0 <= i < |ps| :: Readable(ps[i])
    ensures Run(st, PieceLines(ps[0]) + After(ps), true) == Flush(st) + PieceCells(ps)
    decreases |ps|, 1
  {
    var o, ys := ps[0].o, ps[0].ys;
    assert Readable(ps[0]);
    var opts := Some(Trim(o, OptionTrim));
    var code := State(InCode, Terminated(ys), opts);
    ChunkPieceOpens(st, o, ys, After(ps));
    if |ps| == 1 {
      PieceCellsOne(ps);
      SeqUnit(Terminated(ys));
      assert Run(code, [], true) == [PieceCell(ps[0], true)];
    } else {
      var more := State(InCode, Terminated(ys) + ["\n"], opts);
      var rest := Sections(AllPieceLines(ps[1..]), Plain(""));
      RunGapInCode(code, rest, true);
      ContentGrows(Terminated(ys), ["\n"]);
      ReadAfter(more, ps, [PieceCell(ps[0], false)]);
      PieceCellsCons(ps);
    }
  }

  /** A markdown run read from between blocks flushes what is open and is collected. */
  lemma ProsePieceReads(st: State, xs: seq<string>, rest: seq<SpinLine>)
    requires Between(st) && |xs| > 0
    ensures Run(st, ProseRun(xs) + rest, true)
         == Flush(st) + Run(State(InMarkdown, Terminated(xs), None), rest, true)
  {
    var tail := ProseRun(xs[1..]) + rest;
    assert ProseRun(xs) + rest == [Prose(xs[0])] + tail;
    var first := [xs[0] + "\n"];
    if st == Start {
      ConsSplit([Prose(xs[0])], tail);
      SeqUnit(first);
    } else {
      RunProseAfterCode(st, xs[0], tail, true);
    }
    ProseRunReads(first, None, xs[1..], rest, true);
    assert first + Terminated(xs[1..]) == Terminated(xs);
  }

  /** Adding lines keeps visible text. */
  lemma ContentGrows(a: seq<string>, b: seq<string>)
    requires AnyContent(a)
    ensures AnyContent(a + b)
  {
    var i :| 0 <= i < |a| && HasContent(a[i]);
    assert (a + b)[i] == a[i];
  }

  // ---------------------------------------------------------------------
  // The written lines and how they classify

  /** The lines a block occupies in the script. */
  function SpinBlockLines(c: Cell): seq<string>
    requires !c.Raw?
  {
    Split(SpinBlock(c), '\n')
  }

  function AllSpinBlockLines(cells: seq<Cell>): (parts: seq<seq<string>>)
    requires forall i | 0 <= i < |cells| :: !cells[i].Raw?
    ensures |parts| == |cells| && forall i | 0 <= i < |cells| :: parts[i] == SpinBlockLines(cells[i])
  {
    seq(|cells|, i requires 0 <= i < |cells| => SpinBlockLines(cells[i]))
  }

  /** The lines of the script: the blocks' lines with an empty line between blocks. */
  function SpinDocLines(cells: seq<Cell>): seq<string>
    requires forall i | 0 <= i < |cells| :: !cells[i].Raw?
  {
    Sections(AllSpinBlockLines(cells), "")
  }

  /** The block a writable cell reads as. */
  function CellPiece(c: Cell): Piece
    requires SpinWritable(c)
  {
    match c
    case Markdown(src, _) => ProsePiece(Split(MaybeJoin(src), '\n'))
    case Code(src, opts) => ChunkPiece(opts.value, Split(MaybeJoin(src), '\n'))
  }

  function Pieces(cells: seq<Cell>): (ps: seq<Piece>)
    requires forall i | 0 <= i < |cells| :: SpinWritable(cells[i])
    ensures |ps| == |cells| && forall i | 0 <= i < |cells| :: ps[i] == CellPiece(cells[i])
  {
    seq(|cells|, i requires 0 <= i < |cells| => CellPiece(cells[i]))
  }

  /** A marked line reads as its text: a markdown line right-stripped, a
      directive as it stands. */
  lemma ClassifyMarked(marker: string, x: string)
    requires marker == "#' " || marker == "#+ "
    requires '\n' !in x
    ensures Classify(marker + x) == if marker == "#' " then Prose(RStrip(x)) else Directive(x)
  {
    LineGroupComplete(marker + x, marker, x);
    if marker == "#+ " {
      assert (marker + x)[..3] != "#' ";
    }
  }

  /** A line without a marker reads as a code line. */
  lemma ClassifyUnmarked(y: string)
    requires '\n' !in y && !Marked(y) && Bare(y)
    ensures Classify(y) == Plain(y)
  {
  }

  /** Classifying is line by line, and the empty separator line is a code line. */
  lemma {:induction false} ClassesSections(parts: seq<seq<string>>, classed: seq<seq<SpinLine>>)
    requires |parts| == |classed| && forall i | 0 <= i < |parts| :: Classes(parts[i]) == classed[i]
    ensures Classes(Sections(parts, "")) == Sections(classed, Plain(""))
    decreases |parts|
  {
    if |parts| > 1 {
      var rest := Sections(parts[1..], "");
      calc {
        Classes(Sections(parts, ""));
        == { ClassesAppend(parts[0] + [""], rest); }
        Classes(parts[0] + [""]) + Classes(rest);
        == { ClassesAppend(parts[0], [""]); ClassifyEmpty(); }
        classed[0] + [Plain("")] + Classes(rest);
        == { ClassesSections(parts[1..], classed[1..]); }
        classed[0] + [Plain("")] + Sections(classed[1..], Plain(""));
      }
    }
  }

  lemma ClassifyEmpty()
    ensures Classes([""]) == [Plain("")]
  {
  }

  lemma ClassesAppend(a: seq<string>, b: seq<string>)
    ensures Classes(a + b) == Classes(a) + Classes(b)
  {
  }

  /** A writable markdown cell's block is its marked lines, read as a markdown run. */
  lemma ProseBlockPiece(c: Cell)
    requires c.Markdown? && SpinWritable(c)
    ensures Classes(SpinBlockLines(c)) == PieceLines(CellPiece(c))
  {
    var ls := Split(MaybeJoin(c.source), '\n');
    MarkdownBlockLines(MaybeJoin(c.source));
    forall i | 0 <= i < |ls| ensures Classify(Prefixed(ls, "#' ")[i]) == Prose(ls[i]) {
      ClassifyMarked("#' ", ls[i]);
    }
  }

  /** A writable code cell's block is its directive and its lines, read as a chunk. */
  lemma ChunkBlockPiece(c: Cell)
    requires c.Code? && SpinWritable(c)
    ensures Classes(SpinBlockLines(c)) == PieceLines(CellPiece(c))
  {
    var s, o := MaybeJoin(c.source), c.options.value;
    CodeBlockLines(s, o);
    ChunkLinesClass(o, Split(s, '\n'));
  }

  lemma ChunkLinesClass(o: string, ls: seq<string>)
    requires '\n' !in o
    requires forall i | 0 <= i < |ls| :: '\n' !in ls[i] && Bare(ls[i]) && !Marked(ls[i])
    ensures Classes(["#+ " + o] + ls) == [Directive(o)] + PlainRun(ls)
  {
    ClassifyMarked("#+ ", o);
    ClassesAppend(["#+ " + o], ls);
    forall i | 0 <= i < |ls| ensures Classify(ls[i]) == Plain(ls[i]) {
      ClassifyUnmarked(ls[i]);
    }
  }

  lemma BlockPiece(c: Cell)
    requires SpinWritable(c)
    ensures Classes(SpinBlockLines(c)) == PieceLines(CellPiece(c))
    ensures Readable(CellPiece(c))
  {
    var ls := Split(MaybeJoin(c.source), '\n');
    TerminatedContent(ls);
    if c.Markdown? {
      ProseBlockPiece(c);
    } else {
      ChunkBlockPiece(c);
    }
  }

  lemma TerminatedContent(ls: seq<string>)
    requires AnyContent(ls)
    ensures AnyContent(Terminated(ls))
  {
    var i :| 0 <= i < |ls| && HasContent(ls[i]);
    var j :| 0 <= j < |ls[i]| && ls[i][j] !in Whitespace;
    assert Terminated(ls)[i][j] == ls[i][j];
  }

  /** The script's lines read as the cells' blocks. */
  lemma DocPieces(cells: seq<Cell>)
    requires SpinRoundTrippable(cells)
    ensures Classes(SpinDocLines(cells)) == Sections(AllPieceLines(Pieces(cells)), Plain(""))
    ensures forall i | 0 <= i < |cells| :: Readable(Pieces(cells)[i])
  {
    var ps := Pieces(cells);
    forall i | 0 <= i < |cells|
      ensures Classes(AllSpinBlockLines(cells)[i]) == AllPieceLines(ps)[i] && Readable(ps[i])
    {
      BlockPiece(cells[i]);
    }
    ClassesSections(AllSpinBlockLines(cells), AllPieceLines(ps));
  }

  /** Each block comes back as a cell that agrees with the cell written. */
  lemma PieceAgrees(c: Cell, last: bool)
    requires SpinWritable(c)
    ensures SpinAgrees(c, PieceCell(CellPiece(c), last), last)
  {
    if c.Code? {
      ChunkPieceAgrees(c, last);
    } else {
      TerminatedText(MaybeJoin(c.source));
    }
  }

  /** A code block comes back with its text newline-terminated, and the
      empty line after it unless it is the last block. */
  lemma ChunkPieceAgrees(c: Cell, last: bool)
    requires c.Code? && SpinWritable(c)
    ensures SpinAgrees(c, PieceCell(CellPiece(c), last), last)
  {
    var s := MaybeJoin(c.source);
    var ts := Terminated(Split(s, '\n'));
    var tail: seq<string> := if last then [] else ["\n"];
    calc {
      Join(ts + tail, "");
      { JoinConcat(ts, tail); }
      Join(ts, "") + Join(tail, "");
      { TerminatedText(s); GapText(last); }
      (s + "\n") + (if last then "" else "\n");
      { GapAfter(s, last); }
      s + (if last then "\n" else "\n\n");
    }
  }

  /** The empty line after a code block, as text. */
  lemma GapText(last: bool)
    ensures Join(if last then [] else ["\n"], "") == if last then "" else "\n"
  {
    if !last {
      Single("\n");
    }
  }

  lemma GapAfter(s: string, last: bool)
    ensures (s + "\n") + (if last then "" else "\n") == s + (if last then "\n" else "\n\n")
  {
    if last {
      SeqUnit(s + "\n");
    } else {
      SeqAssoc(s, "\n", "\n");
    }
  }

  /** Newline-terminated lines concatenate to the text with a final newline. */
  lemma TerminatedText(s: string)
    ensures Join(Terminated(Split(s, '\n')), "") == s + "\n"
  {
    ReadLinesSplit(s);
    JoinReadLines(s + "\n");
  }

  // ---------------------------------------------------------------------
  // The written text

  /** A writable cell's block has no newline at either end. */
  lemma SpinBlockClean(c: Cell)
    requires SpinWritable(c)
    ensures Clean(SpinBlock(c))
  {
    var s := MaybeJoin(c.source);
    if c.Markdown? {
      var ps := Prefixed(Split(s, '\n'), "#' ");
      forall i | 0 <= i < |ps| ensures Clean(ps[i]) {
        MarkedClean("#' ", Split(s, '\n')[i]);
      }
      JoinEndsLike(ps, "\n");
      JoinFront(ps, "\n");
    } else {
      var d := "#+ " + c.options.value;
      var b := MaybeNewline(d, s);
      assert b[0] == b[..|d|][0] == d[0];
      assert b[|b| - 1] == b[|b| - |s|..][|s| - 1] == s[|s| - 1];
    }
  }

  lemma MarkedClean(marker: string, x: string)
    requires |marker| > 0 && marker[0] != '\n' && marker[|marker| - 1] != '\n' && '\n' !in x
    ensures Clean(marker + x)
  {
    if |x| > 0 {
      assert (marker + x)[|marker + x| - 1] == x[|x| - 1];
    }
  }

  /** A join starts like its first part. */
  lemma JoinFront(parts: seq<string>, sep: string)
    requires |parts| > 0 && |parts[0]| > 0
    ensures |Join(parts, sep)| > 0 && Join(parts, sep)[0] == parts[0][0]
  {
  }

  /** Lines that hold no newline and no spin header delimiter. */
  predicate SpinLinesPlain(ls: seq<string>) {
    forall j | 0 <= j < |ls| :: '\n' !in ls[j] && !DelimLine(ls[j], SpinDelim)
  }

  /** A marked line is a header delimiter exactly when its text is `---`
      followed by whitespace. */
  lemma MarkedDelim(x: string)
    ensures DelimLine("#' " + x, SpinDelim) <==> DelimLine(x, RmdDelim)
  {
    var l := "#' " + x;
    if |x| >= 3 {
      assert l[..6] == "#' " + x[..3];
      assert l[6..] == x[3..];
      if l[..6] == SpinDelim {
        assert x[..3] == l[..6][3..] == RmdDelim;
      }
    }
  }

  /** A line without a marker is no header delimiter. */
  lemma UnmarkedNoDelim(y: string)
    requires !Marked(y)
    ensures !DelimLine(y, SpinDelim)
  {
  }

  /** No line of a writable cell's block holds a newline or is a header delimiter. */
  lemma BlockLinesPlain(c: Cell)
    requires SpinWritable(c)
    ensures SpinLinesPlain(SpinBlockLines(c))
  {
    if c.Markdown? {
      ProseLinesPlain(MaybeJoin(c.source));
    } else {
      ChunkLinesPlain(MaybeJoin(c.source), c.options.value);
    }
  }

  lemma ProseLinesPlain(s: string)
    requires SpinProseWritable(s)
    ensures SpinLinesPlain(Split(PrependLines(s, "#' "), '\n'))
  {
    var ls := Split(s, '\n');
    MarkdownBlockLines(s);
    forall j | 0 <= j < |ls| ensures !DelimLine("#' " + ls[j], SpinDelim) {
      MarkedDelim(ls[j]);
    }
  }

  lemma ChunkLinesPlain(s: string, o: string)
    requires SpinChunkWritable(s, o)
    ensures SpinLinesPlain(Split(SpinCodeBlock(s, Some(o)), '\n'))
  {
    CodeBlockLines(s, o);
    DirectiveLinesPlain(o, Split(s, '\n'));
  }

  /** A directive line followed by unmarked lines without newlines. */
  lemma DirectiveLinesPlain(o: string, ls: seq<string>)
    requires '\n' !in o
    requires forall j | 0 <= j < |ls| :: '\n' !in ls[j] && !Marked(ls[j])
    ensures SpinLinesPlain(["#+ " + o] + ls)
  {
    var ps := ["#+ " + o] + ls;
    forall j | 0 <= j < |ps| ensures '\n' !in ps[j] && !DelimLine(ps[j], SpinDelim) {
      if j == 0 {
        DirectiveNoDelim(o);
      } else {
        assert ps[j] == ls[j - 1];
        UnmarkedNoDelim(ls[j - 1]);
      }
    }
  }

  lemma DirectiveNoDelim(o: string)
    ensures !DelimLine("#+ " + o, SpinDelim)
  {
    var l := "#+ " + o;
    if |l| >= 6 {
      assert l[..6][1] == '+' != SpinDelim[1];
    }
  }

  /** Every line of the script is free of newlines and delimiters. */
  lemma {:induction false} SectionsPlain(parts: seq<seq<string>>)
    requires forall i | 0 <= i < |parts| :: SpinLinesPlain(parts[i])
    ensures SpinLinesPlain(Sections(parts, ""))
    decreases |parts|
  {
    if |parts| > 1 {
      assert forall i | 0 <= i < |parts| - 1 :: parts[1..][i] == parts[i + 1];
      SectionsPlain(parts[1..]);
      var all := parts[0] + [""] + Sections(parts[1..], "");
      forall j | 0 <= j < |all| ensures '\n' !in all[j] && !DelimLine(all[j], SpinDelim) {
        if j < |parts[0]| {
          assert all[j] == parts[0][j];
        } else if j > |parts[0]| {
          assert all[j] == Sections(parts[1..], "")[j - |parts[0]| - 1];
        }
      }
    }
  }

  lemma DocLinesPlain(cells: seq<Cell>)
    requires SpinRoundTrippable(cells)
    ensures SpinLinesPlain(SpinDocLines(cells))
  {
    var parts := AllSpinBlockLines(cells);
    forall i | 0 <= i < |parts| ensures SpinLinesPlain(parts[i]) {
      BlockLinesPlain(cells[i]);
    }
    SectionsPlain(parts);
  }

  /** Without a header the writer's output is the script's lines joined by
      newlines, and it does not end in a newline. */
  lemma SpinWrittenText<V>(cells: seq<Cell>, dump: V -> string)
    requires SpinRoundTrippable(cells)
    ensures var out := IpynbToSpin(Notebook(cells, None), Null, dump);
      && out.Some? && out.value == Join(SpinDocLines(cells), "\n")
      && |out.value| > 0 && out.value[|out.value| - 1] != '\n'
  {
    BlocksFit(cells);
    SpinJoined(Notebook(cells, None), dump, AllSpinBlockLines(cells));
  }

  /** The writer's output for blocks that fit, with no header. */
  lemma SpinJoined<V>(nb: Notebook<V>, dump: V -> string, parts: seq<seq<string>>)
    requires nb.header.None?
    requires var bs := SpinCellBlocks(nb.cells);
      && |parts| == |bs| > 0
      && forall i | 0 <= i < |bs| :: Clean(bs[i]) && |parts[i]| > 0 && Join(parts[i], "\n") == bs[i]
    ensures var out := IpynbToSpin(nb, Null, dump);
      && out.Some? && out.value == Join(Sections(parts, ""), "\n")
      && |out.value| > 0 && out.value[|out.value| - 1] != '\n'
  {
    var bs := SpinCellBlocks(nb.cells);
    var j := Join(Sections(parts, ""), "\n");
    assert JoinWithEmptylines(bs) == Some(j) && |j| > 0 && j[|j| - 1] != '\n' by {
      BlocksJoined(parts, bs);
    }
    SpinNoHeader(nb, dump);
  }

  /** With no header to write, the text is the cell blocks joined. */
  lemma SpinNoHeader<V>(nb: Notebook<V>, dump: V -> string)
    requires nb.header.None?
    ensures IpynbToSpin(nb, Null, dump) == JoinWithEmptylines(SpinCellBlocks(nb.cells))
  {
    assert ChosenHeader(Null, nb.header) == Null;
  }

  /** What the writer needs of each block: it is its lines joined, and clean. */
  lemma BlocksFit(cells: seq<Cell>)
    requires SpinRoundTrippable(cells)
    ensures |SpinCellBlocks(cells)| == |cells|
    ensures forall i | 0 <= i < |cells| ::
      && Clean(SpinCellBlocks(cells)[i])
      && |AllSpinBlockLines(cells)[i]| > 0
      && Join(AllSpinBlockLines(cells)[i], "\n") == SpinCellBlocks(cells)[i]
  {
    forall i | 0 <= i < |cells|
      ensures Clean(SpinBlock(cells[i])) && Join(SpinBlockLines(cells[i]), "\n") == SpinBlock(cells[i])
    {
      SpinBlockClean(cells[i]);
      JoinSplit(SpinBlock(cells[i]), '\n');
    }
  }

  // ---------------------------------------------------------------------
  // Reading the script back

  /** A final newline changes no classification. */
  lemma ClassifyNewline(l: string)
    requires '\n' !in l
    ensures Classify(l + "\n") == Classify(l)
  {
    LineGroupNewline(l, "#' ");
    LineGroupNewline(l, "#+ ");
    RStripNewline(l);
  }

  /** The written text reads as the cells of its lines and no header: no
      line is a delimiter, and the missing final newline changes no line's
      reading. */
  lemma ReadWritten<V>(d: seq<string>, t: string, load: string -> Option<Yaml<V>>)
    requires |d| > 0 && SpinLinesPlain(d)
    requires t == Join(d, "\n") && |t| > 0 && t[|t| - 1] != '\n'
    ensures SpinToIpynbCorrected(t, load) == Notebook(Run(Start, Classes(d), true), None)
  {
    var r := ReadLines(t);
    ReadLinesAlike(d, t);
    SpinPlainNoHeader(d, r, load);
    ClassesAlike(d, r);
    assert SpinToIpynbCorrected(t, load) == Notebook(SpinCells(r, true), None);
  }

  /** Lines alike to lines without a delimiter hold no header block. */
  lemma SpinPlainNoHeader<V>(d: seq<string>, r: seq<string>, load: string -> Option<Yaml<V>>)
    requires SpinLinesPlain(d) && LinesAlike(d, r)
    ensures SpinFrontMatter(r, load) == Parted(None, r)
  {
    forall j | 0 <= j < |d| ensures DelimLine(d[j], SpinDelim) == DelimLine(r[j], SpinDelim) {
      DelimNewline(d[j], SpinDelim);
    }
    HeaderBoundsAgree(d, r, SpinDelim);
    NoDelimNoHeader(d);
    assert HeaderBounds(r, SpinDelim).None?;
  }

  /** Lines that differ at most by a final newline classify alike. */
  lemma ClassesAlike(d: seq<string>, r: seq<string>)
    requires LinesAlike(d, r) && forall j | 0 <= j < |d| :: '\n' !in d[j]
    ensures Classes(r) == Classes(d)
  {
    forall j | 0 <= j < |d| ensures Classify(r[j]) == Classify(d[j]) {
      ClassifyNewline(d[j]);
    }
  }

  /** Lines without a delimiter have no header block. */
  lemma NoDelimNoHeader(d: seq<string>)
    requires SpinLinesPlain(d)
    ensures HeaderBounds(d, SpinDelim).None?
  {
  }

  /** Notebook to spin script and back, with the corrected reading. A
      notebook without header whose cells are all writable comes back with
      no header, as many cells, and each cell's text and options as
      `SpinAgrees` describes. */
  lemma RoundTrip<V>(cells: seq<Cell>, dump: V -> string, load: string -> Option<Yaml<V>>)
    requires SpinRoundTrippable(cells)
    ensures var out := IpynbToSpin(Notebook(cells, None), Null, dump);
      && out.Some?
      && var nb := SpinToIpynbCorrected(out.value, load);
      && nb.header.None?
      && |nb.cells| == |cells|
      && forall i | 0 <= i < |cells| :: SpinAgrees(cells[i], nb.cells[i], i == |cells| - 1)
  {
    SpinWrittenText(cells, dump);
    var out := IpynbToSpin(Notebook(cells, None), Null, dump);
    ReadBack(cells, out.value, load);
    PiecesAgree(cells);
  }

  /** The script's text reads as the cells' blocks, one cell each. */
  lemma ReadBack<V>(cells: seq<Cell>, t: string, load: string -> Option<Yaml<V>>)
    requires SpinRoundTrippable(cells)
    requires t == Join(SpinDocLines(cells), "\n") && |t| > 0 && t[|t| - 1] != '\n'
    ensures SpinToIpynbCorrected(t, load) == Notebook(PieceCells(Pieces(cells)), None)
  {
    var d := SpinDocLines(cells);
    DocLinesPlain(cells);
    ReadWritten(d, t, load);
    DocRead(cells);
  }

  /** The lines of the script read as the pieces' cells. */
  lemma DocRead(cells: seq<Cell>)
    requires SpinRoundTrippable(cells)
    ensures Run(Start, Classes(SpinDocLines(cells)), true) == PieceCells(Pieces(cells))
  {
    DocPieces(cells);
    ReadPieces(Start, Pieces(cells));
    assert Flush(Start) == [];
  }

  lemma PiecesAgree(cells: seq<Cell>)
    requires SpinRoundTrippable(cells)
    ensures forall i | 0 <= i < |cells| :: SpinAgrees(cells[i], PieceCells(Pieces(cells))[i], i == |cells| - 1)
  {
    forall i | 0 <= i < |cells| ensures SpinAgrees(cells[i], PieceCells(Pieces(cells))[i], i == |cells| - 1) {
      PieceAgrees(cells[i], i == |cells| - 1);
    }
  }
}
