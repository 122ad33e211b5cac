/** Writing a notebook as a knitr spin script (`ipynb_to_spin` with
    `read_ipynb`, ipyrmd/ipyrmd.py:125-152): the YAML header block with every
    line marked `#' `, then one block per markdown or code cell, joined with
    `join_with_emptylines`. Markdown lines are marked `#' `; a code cell's
    chunk options become a `#+ ` line in front of its source. */
module SpinWrite {
  import opened PyStr
  import opened Notebook
  import opened Helpers
  import opened RmdWrite

  /** The header block: the R Markdown header block with every line marked. */
  function SpinHeaderBlock(yaml: string): string {
    PrependLines(HeaderBlock(yaml), "#' ")
  }

  /** A code cell: the `#+ ` options line, when there are options, then the source. */
  function SpinCodeBlock(src: string, opts: Option<string>): string {
    match opts
    case Some(o) => MaybeNewline("#+ " + o, src)
    case None => src
  }

  /** The block a markdown or code cell contributes. */
  function SpinBlock(c: Cell): string
    requires !c.Raw?
  {
    match c
    case Markdown(src, _) => PrependLines(MaybeJoin(src), "#' ")
    case Code(src, opts) => SpinCodeBlock(MaybeJoin(src), opts)
  }

  /** The blocks of the cells in order; cells of other types contribute none. */
  function SpinCellBlocks(cells: seq<Cell>): (bs: seq<string>)
    ensures |bs| <= |cells|
    ensures |bs| == 0 <==> forall i | 0 <= i < |cells| :: cells[i].Raw?
    ensures (forall i | 0 <= i < |cells| :: !cells[i].Raw?) ==>
      |bs| == |cells| && forall i | 0 <= i < |cells| :: bs[i] == SpinBlock(cells[i])
    decreases |cells|
  {
    if |cells| == 0 then []
    else
      var rest := SpinCellBlocks(cells[1..]);
      assert forall i | 1 <= i < |cells| :: cells[i] == cells[1..][i - 1];
      if cells[0].Raw? then rest else [SpinBlock(cells[0])] + rest
  }

  /** All blocks of the script: the header block, if any, then the cells'. */
  function SpinBlocks<V>(nb: Notebook<V>, explicit: Yaml<V>, dump: V -> string): seq<string> {
    match ChosenHeader(explicit, nb.header)
    case Value(v) => [SpinHeaderBlock(dump(v))] + SpinCellBlocks(nb.cells)
    case Null => SpinCellBlocks(nb.cells)
  }

  /** `ipynb_to_spin`: the text written, or `None` where `join_with_emptylines`
      raises on an empty block list. */
  function IpynbToSpin<V>(nb: Notebook<V>, explicit: Yaml<V>, dump: V -> string): (out: Option<string>)
    ensures out.None? <==>
      ChosenHeader(explicit, nb.header).Null? && forall i | 0 <= i < |nb.cells| :: nb.cells[i].Raw?
    ensures ChosenHeader(explicit, nb.header).Value? ==>
      out.Some? && SpinHeaderBlock(dump(ChosenHeader(explicit, nb.header).v)) <= out.value
  {
    var blocks := SpinBlocks(nb, explicit, dump);
    var h := ChosenHeader(explicit, nb.header);
    if h.Value? then
      var hb := SpinHeaderBlock(dump(h.v));
      SpinHeaderTail(dump(h.v));
      HeaderFirst(hb, SpinCellBlocks(nb.cells));
      assert blocks == [hb] + SpinCellBlocks(nb.cells);
      JoinWithEmptylines(blocks)
    else
      JoinWithEmptylines(blocks)
  }

  // ---------------------------------------------------------------------

  /** The header block's last line is the marked closing delimiter `#' ---`. */
  lemma SpinHeaderEnds(yaml: string)
    ensures var hb := SpinHeaderBlock(yaml);
      |hb| >= 6 && hb[|hb| - 6..] == "#' ---"
  {
    HeaderBlockTail(yaml);
    MarkedEnd(HeaderBlock(yaml));
  }

  /** The header block ends in `---`, as the R Markdown one does. */
  lemma SpinHeaderTail(yaml: string)
    ensures var hb := SpinHeaderBlock(yaml);
      |hb| >= 3 && hb[|hb| - 3..] == "---"
  {
    var hb := SpinHeaderBlock(yaml);
    SpinHeaderEnds(yaml);
    assert hb[|hb| - 3..] == hb[|hb| - 6..][3..];
  }

  /** A text whose last line is `---` is marked into one whose last line is `#' ---`. */
  lemma MarkedEnd(text: string)
    requires |text| >= 4 && text[|text| - 3..] == "---" && text[|text| - 4] == '\n'
    ensures var hb := PrependLines(text, "#' ");
      |hb| >= 6 && hb[|hb| - 6..] == "#' ---"
  {
    LastLineSplit(text, "---");
    var ps := Split(text[..|text| - 4], '\n');
    MarkedLast(ps, "---", "#' ");
    assert PrependLines(text, "#' ") == Join(Prefixed(ps + ["---"], "#' "), "\n");
  }

  /** The R Markdown header block ends in a newline and `---`. */
  lemma HeaderBlockTail(yaml: string)
    ensures var text := HeaderBlock(yaml);
      |text| >= 4 && text[|text| - 3..] == "---" && text[|text| - 4] == '\n'
  {
    var text := HeaderBlock(yaml);
    assert |text| == |yaml| + 3 || |text| == |yaml| + 4;
  }

  /** A text ending in a newline and a last line splits into the lines before and that line. */
  lemma LastLineSplit(text: string, last: string)
    requires '\n' !in last && |text| > |last| && text[|text| - |last|..] == last && text[|text| - |last| - 1] == '\n'
    ensures Split(text, '\n') == Split(text[..|text| - |last| - 1], '\n') + [last]
  {
    var k := |text| - |last| - 1;
    var front := text[..k];
    var ps := Split(front, '\n');
    Pivot(text, k);
    calc {
      Split(text, '\n');
      Split(front + "\n" + last, '\n');
      { JoinSplit(front, '\n'); }
      Split(Join(ps, "\n") + "\n" + last, '\n');
      { JoinSnoc(ps, last, "\n"); }
      Split(Join(ps + [last], "\n"), '\n');
      { NoneInSnoc(ps, last, '\n'); SplitJoin(ps + [last], '\n'); }
      ps + [last];
    }
  }

  /** Pieces without `c`, one more appended, still have none. */
  lemma NoneInSnoc(ps: seq<string>, last: string, c: char)
    requires c !in last && forall i | 0 <= i < |ps| :: c !in ps[i]
    ensures forall i | 0 <= i < |ps + [last]| :: c !in (ps + [last])[i]
  {
  }

  /** Marking lines ending in `last` gives a text ending in the marked `last`. */
  lemma MarkedLast(ps: seq<string>, last: string, marker: string)
    ensures var t := Join(Prefixed(ps + [last], marker), "\n");
      |t| >= |marker + last| && t[|t| - |marker + last|..] == marker + last
  {
    var marked := Prefixed(ps + [last], marker);
    assert marked == Prefixed(ps, marker) + [marker + last];
    JoinSnoc(Prefixed(ps, marker), marker + last, "\n");
  }

  /** An explicit header replaces whatever the notebook stores. */
  lemma SpinExplicitHeaderWins<V>(nb: Notebook<V>, v: V, dump: V -> string)
    ensures IpynbToSpin(nb, Value(v), dump) == IpynbToSpin(Notebook(nb.cells, Some(Value(v))), Null, dump)
    ensures forall stored: Option<Yaml<V>> ::
      IpynbToSpin(nb, Value(v), dump) == IpynbToSpin(Notebook(nb.cells, stored), Value(v), dump)
  {
  }

  /** Dropping a cell of another type leaves the blocks unchanged. */
  lemma {:induction false} SpinRawCellsIgnored(cells: seq<Cell>, i: nat)
    requires i < |cells| && cells[i].Raw?
    ensures SpinCellBlocks(cells[..i] + cells[i + 1..]) == SpinCellBlocks(cells)
    decreases i
  {
    if i == 0 {
      assert cells[..0] + cells[1..] == cells[1..];
    } else {
      var rest := cells[1..];
      assert rest[..i - 1] + rest[i..] == (cells[..i] + cells[i + 1..])[1..];
      SpinRawCellsIgnored(rest, i - 1);
    }
  }

  /** Each markdown line is written marked, and no line is added or lost. */
  lemma MarkdownBlockLines(m: string)
    ensures Split(PrependLines(m, "#' "), '\n') == Prefixed(Split(m, '\n'), "#' ")
  {
    var ps := Prefixed(Split(m, '\n'), "#' ");
    forall i | 0 <= i < |ps| ensures '\n' !in ps[i] {
      assert ps[i] == "#' " + Split(m, '\n')[i];
    }
    SplitJoin(ps, '\n');
  }

  /** With options, a code cell's first line is `#+ ` and the options, and
      the source follows on the next line unless it starts with a newline. */
  lemma CodeBlockLines(s: string, o: string)
    requires '\n' !in o && (|s| == 0 || s[0] != '\n')
    ensures Split(SpinCodeBlock(s, Some(o)), '\n') == ["#+ " + o] + Split(s, '\n')
  {
    var d := "#+ " + o;
    OptionLineClean(o);
    calc {
      Split(SpinCodeBlock(s, Some(o)), '\n');
      Split(d + "\n" + s, '\n');
      { SplitCons(d, s, '\n'); }
      [d] + Split(s, '\n');
    }
  }

  /** The `#+ ` line holds no newline, and so does not end in one. */
  lemma OptionLineClean(o: string)
    requires '\n' !in o
    ensures var d := "#+ " + o; '\n' !in d && d[|d| - 1] != '\n'
  {
    var d := "#+ " + o;
    assert d[|d| - 1] in d;
  }
}
