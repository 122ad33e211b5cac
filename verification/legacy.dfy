/** The older standalone script (ipyrmd.py, version 0.1): its own R Markdown
    reader (`rmd_to_ipynb`, ipyrmd.py:129-211) and writer (`ipynb_to_rmd`,
    ipyrmd.py:67-120). It matches the same patterns as the package, but
    strips every line on both sides, keeps chunk options verbatim, drops
    everything up to the end of the header block, and joins blocks with a
    plain `"\n\n".join`. */
module Legacy {
  import opened PyStr
  import opened Notebook
  import opened Patterns
  import opened FrontMatter
  import opened Segment
  import Helpers

  // ---------------------------------------------------------------------
  // The header block

  /** The header split: the same delimiter rule as the package, but the
      remaining lines are only those after the second delimiter. */
  function LegacyFrontMatter<V>(lines: seq<string>, load: string -> Option<Yaml<V>>): (r: Parted<V>)
    ensures forall a: nat, b: nat | FirstTwo(lines, RmdDelim, a, b) && a + 1 < b ::
      && r.body == lines[b + 1..]
      && r.header == load(Join(lines[a + 1..b], "\n"))
    ensures (forall a: nat, b: nat | FirstTwo(lines, RmdDelim, a, b) :: b == a + 1) ==> r == Parted(None, lines)
  {
    var hb := HeaderBounds(lines, RmdDelim);
    if hb.None? then Parted(None, lines)
    else
      var a, b := hb.value.0, hb.value.1;
      Parted(load(Join(lines[a + 1..b], "\n")), lines[b + 1..])
  }

  /** Both versions load the same header; the lines before the first
      delimiter, which the package keeps, are lost here. */
  lemma HeaderCutDropsLead<V>(lines: seq<string>, load: string -> Option<Yaml<V>>, a: nat, b: nat)
    requires FirstTwo(lines, RmdDelim, a, b) && a + 1 < b
    ensures LegacyFrontMatter(lines, load).header == RmdFrontMatter(lines, load).header
    ensures RmdFrontMatter(lines, load).body == lines[..a] + LegacyFrontMatter(lines, load).body
  {
  }

  // ---------------------------------------------------------------------
  // The reader

  /** `meta['Rmd_chunk_options'] = match.group(1)`, set verbatim when the group is not empty. */
  function LegacyOptions(g: string): (o: Option<string>)
    ensures o.None? <==> g == ""
    ensures o.Some? ==> o.value == g
  {
    if g == "" then None else Some(g)
  }

  /** `l.strip() + "\n"`: how the script stores every line, prose or code. */
  function Stored(l: string): string {
    Strip(l) + "\n"
  }

  /** A stored line is stripped, newline-terminated, and has visible text
      exactly when the line it came from had. */
  lemma StoredLine(l: string)
    ensures StoredShape(Stored(l))
    ensures HasContent(Stored(l)) <==> HasContent(l)
  {
    StripEnds(l);
    StripEmptyIffBlank(l);
    var x := Stored(l);
    assert x[|x| - 1] in Whitespace;
    if |x| > 1 {
      assert x[0] == Strip(l)[0];
    }
  }

  function StoredLines(ls: seq<string>): (r: seq<string>)
    ensures |r| == |ls| && forall i | 0 <= i < |ls| :: r[i] == Stored(ls[i])
  {
    seq(|ls|, i requires 0 <= i < |ls| => Stored(ls[i]))
  }

  /** Appending a line is storing the longer list. */
  lemma StoredSnoc(ls: seq<string>, l: string)
    ensures StoredLines(ls) + [Stored(l)] == StoredLines(ls + [l])
  {
    var a := StoredLines(ls) + [Stored(l)];
    var b := StoredLines(ls + [l]);
    forall i | 0 <= i < |a| ensures a[i] == b[i] {
      if i < |ls| {
        assert (ls + [l])[i] == ls[i];
      }
    }
  }

  /** One turn of the loop over the lines: the cells it emits and the next state. */
  function LegacyStep(st: State, l: Scanned): (seq<Cell>, State) {
    match st.mode
    case InMarkdown =>
      (match l.open
       case Some(g) =>
         (if AnyContent(st.buf) then [Emit(InMarkdown, st.buf, st.opts)] else [],
          State(InCode, [], LegacyOptions(g)))
       case None => ([], State(InMarkdown, st.buf + [Stored(l.text)], st.opts)))
    case InCode =>
      if l.close then ([Emit(InCode, st.buf, st.opts)], Start)
      else ([], State(InCode, st.buf + [Stored(l.text)], st.opts))
  }

  /** The loop from state `st` over `lines`, followed by the final flush. */
  function LegacyRun(st: State, lines: seq<Scanned>): seq<Cell>
    decreases |lines|
  {
    if |lines| == 0 then Finish(st)
    else
      var (out, next) := LegacyStep(st, lines[0]);
      out + LegacyRun(next, lines[1..])
  }

  /** The cells of a document body. */
  function LegacyCells(lines: seq<string>): seq<Cell> {
    LegacyRun(Start, Scan(lines))
  }

  /** `rmd_to_ipynb` of the script on the text of a file. */
  function LegacyRmdToIpynb<V>(text: string, load: string -> Option<Yaml<V>>): (nb: Notebook<V>)
    ensures nb.header == LegacyFrontMatter(ReadLines(text), load).header
    ensures nb.cells == LegacyCells(LegacyFrontMatter(ReadLines(text), load).body)
    ensures nb.cells == LegacyReference(Scan(LegacyFrontMatter(ReadLines(text), load).body))
  {
    var p := LegacyFrontMatter(ReadLines(text), load);
    LegacyCellsAreReference(Scan(p.body));
    Notebook(LegacyCells(p.body), p.header)
  }

  // ---------------------------------------------------------------------
  // A reference reading: prose up to the first opening fence, the chunk up
  // to the first closing fence, and the rest read the same way.

  /** The markdown cell for the prose `md` before a chunk: none when it is blank. */
  function LegacyProseCell(md: seq<string>): seq<Cell> {
    if AnyContent(md) then [Markdown(Lines(StoredLines(md)), None)] else []
  }

  function LegacyReference(lines: seq<Scanned>): seq<Cell>
    decreases |lines|
  {
    var k := FirstOpen(lines);
    if k == |lines| then
      (if k == 0 then [] else [Markdown(Lines(StoredLines(Texts(lines))), None)])
    else
      var md := Texts(lines[..k]);
      var after := lines[k + 1..];
      var c := FirstClose(after);
      var chunk := Code(Lines(StoredLines(Texts(after[..c]))), LegacyOptions(lines[k].open.value));
      LegacyProseCell(md) + [chunk] + (if c == |after| then [] else LegacyReference(after[c + 1..]))
  }

  /** The line-by-line reader and the chunk-by-chunk reading agree on every input. */
  lemma {:induction false} LegacyCellsAreReference(lines: seq<Scanned>)
    ensures LegacyRun(Start, lines) == LegacyReference(lines)
    decreases |lines|
  {
    var k := FirstOpen(lines);
    if k == |lines| {
      if k > 0 {
        ProseOnly(lines);
      }
    } else {
      var after := lines[k + 1..];
      var c := FirstClose(after);
      RunChunk(lines, k, c);
      ReferenceChunk(lines, k, c);
      if c < |after| {
        LegacyCellsAreReference(after[c + 1..]);
      }
    }
  }

  /** How the line-by-line reader reads a document whose first chunk opens
      at `k` and closes at `k + 1 + c`. */
  lemma RunChunk(lines: seq<Scanned>, k: nat, c: nat)
    requires k == FirstOpen(lines) && k < |lines| && c == FirstClose(lines[k + 1..])
    ensures var after := lines[k + 1..];
      LegacyRun(Start, lines)
      == LegacyProseCell(Texts(lines[..k]))
         + [Code(Lines(StoredLines(Texts(after[..c]))), LegacyOptions(lines[k].open.value))]
         + (if c == |after| then [] else LegacyRun(Start, after[c + 1..]))
  {
    var after := lines[k + 1..];
    var o := LegacyOptions(lines[k].open.value);
    var chunk := Code(Lines(StoredLines(Texts(after[..c]))), o);
    var prose := LegacyProseCell(Texts(lines[..k]));
    var rest := if c == |after| then [] else LegacyRun(Start, after[c + 1..]);
    var inner := LegacyRun(State(InCode, [], o), after);
    assert LegacyRun(Start, lines) == prose + inner by {
      ProseThenChunk(lines, k);
    }
    assert inner == [chunk] + rest by {
      ChunkThenRest(after, o);
    }
    SeqAssoc(prose, [chunk], rest);
  }

  lemma ReferenceChunk(lines: seq<Scanned>, k: nat, c: nat)
    requires k == FirstOpen(lines) && k < |lines| && c == FirstClose(lines[k + 1..])
    ensures var after := lines[k + 1..];
      LegacyReference(lines)
      == LegacyProseCell(Texts(lines[..k]))
         + [Code(Lines(StoredLines(Texts(after[..c]))), LegacyOptions(lines[k].open.value))]
         + (if c == |after| then [] else LegacyReference(after[c + 1..]))
  {
  }

  /** Without an opening fence everything is one markdown cell, blank or not. */
  lemma ProseOnly(lines: seq<Scanned>)
    requires |lines| > 0
    requires forall j | 0 <= j < |lines| :: lines[j].open.None?
    ensures LegacyRun(Start, lines) == [Markdown(Lines(StoredLines(Texts(lines))), None)]
  {
    ProseFromStart(lines, []);
    SeqUnit(lines);
  }

  /** Prose lines read from the start all land in the buffer. */
  lemma ProseFromStart(md: seq<Scanned>, rest: seq<Scanned>)
    requires forall j | 0 <= j < |md| :: md[j].open.None?
    ensures LegacyRun(Start, md + rest) == LegacyRun(State(InMarkdown, StoredLines(Texts(md)), None), rest)
  {
    ProseRun([], md, rest);
    SeqUnit(Texts(md));
  }

  /** Prose up to the first opening fence, then the chunk's state. */
  lemma ProseThenChunk(lines: seq<Scanned>, k: nat)
    requires k < |lines| && lines[k].open.Some?
    requires forall j | 0 <= j < k :: lines[j].open.None?
    ensures LegacyRun(Start, lines)
         == LegacyProseCell(Texts(lines[..k])) + LegacyRun(State(InCode, [], LegacyOptions(lines[k].open.value)), lines[k + 1..])
  {
    var md := lines[..k];
    var buf := StoredLines(Texts(md));
    var o := LegacyOptions(lines[k].open.value);
    calc {
      LegacyRun(Start, lines);
      == { TakeDrop(lines, k); ProseFromStart(md, lines[k..]); }
      LegacyRun(State(InMarkdown, buf, None), lines[k..]);
      == { ConsAt(lines, k); OpenStep(buf, lines[k], lines[k + 1..]); }
      (if AnyContent(buf) then [Markdown(Lines(buf), None)] else []) + LegacyRun(State(InCode, [], o), lines[k + 1..]);
      == { StoredContent(Texts(md)); }
      LegacyProseCell(Texts(md)) + LegacyRun(State(InCode, [], o), lines[k + 1..]);
    }
  }

  /** An opening fence in prose flushes the prose if it has content and starts a chunk. */
  lemma OpenStep(buf: seq<string>, l: Scanned, rest: seq<Scanned>)
    requires l.open.Some?
    ensures LegacyRun(State(InMarkdown, buf, None), [l] + rest)
         == (if AnyContent(buf) then [Markdown(Lines(buf), None)] else [])
            + LegacyRun(State(InCode, [], LegacyOptions(l.open.value)), rest)
  {
    ConsSplit([l], rest);
  }

  /** Prose without opening fences, a chunk, then more lines: the prose as
      a markdown cell if it has visible text, the chunk as a code cell, then
      whatever the rest reads as on its own. */
  lemma ChunkUnit(md: seq<Scanned>, l: Scanned, body: seq<Scanned>, e: Scanned, rest: seq<Scanned>)
    requires forall j | 0 <= j < |md| :: md[j].open.None?
    requires l.open.Some?
    requires forall j | 0 <= j < |body| :: !body[j].close
    requires e.close
    ensures LegacyRun(Start, md + [l] + body + [e] + rest)
         == LegacyProseCell(Texts(md)) + [Code(Lines(StoredLines(Texts(body))), LegacyOptions(l.open.value))] + LegacyRun(Start, rest)
  {
    var xs := md + [l] + body + [e] + rest;
    var after := body + [e] + rest;
    var o := LegacyOptions(l.open.value);
    var code := StoredLines(Texts(body));
    SeqAssoc(md + [l], body + [e], rest);
    SeqAssoc(md + [l], body, [e]);
    Around(md, l, after);
    Around(body, e, rest);
    calc {
      LegacyRun(Start, xs);
      == { ProseThenChunk(xs, |md|); }
      LegacyProseCell(Texts(md)) + LegacyRun(State(InCode, [], o), after);
      == { ChunkBody(after, |body|, o); }
      LegacyProseCell(Texts(md)) + LegacyRun(State(InCode, code, o), [e] + rest);
      == { CloseStep(code, o, e, rest); }
      LegacyProseCell(Texts(md)) + ([Code(Lines(code), o)] + LegacyRun(Start, rest));
      == { SeqAssoc(LegacyProseCell(Texts(md)), [Code(Lines(code), o)], LegacyRun(Start, rest)); }
      LegacyProseCell(Texts(md)) + [Code(Lines(code), o)] + LegacyRun(Start, rest);
    }
  }

  /** Stored lines have content exactly when the source lines had. */
  lemma StoredContent(ls: seq<string>)
    ensures AnyContent(StoredLines(ls)) <==> AnyContent(ls)
  {
    var ss := StoredLines(ls);
    forall i | 0 <= i < |ls| ensures HasContent(ss[i]) <==> HasContent(ls[i]) {
      StoredLine(ls[i]);
    }
  }

  /** A chunk runs to the first closing fence, which ends it and restarts the reader. */
  lemma ChunkThenRest(after: seq<Scanned>, o: Option<string>)
    ensures var c := FirstClose(after);
      LegacyRun(State(InCode, [], o), after)
      == [Code(Lines(StoredLines(Texts(after[..c]))), o)] + (if c == |after| then [] else LegacyRun(Start, after[c + 1..]))
  {
    var c := FirstClose(after);
    if c < |after| {
      ChunkCloses(after, c, o);
    } else {
      ChunkUnclosed(after, o);
      assert after[..c] == after;
      SeqUnit([Code(Lines(StoredLines(Texts(after))), o)]);
    }
  }

  /** A chunk closed at `c` is emitted there and the reader restarts after it. */
  lemma ChunkCloses(after: seq<Scanned>, c: nat, o: Option<string>)
    requires c == FirstClose(after) && c < |after|
    ensures LegacyRun(State(InCode, [], o), after)
         == [Code(Lines(StoredLines(Texts(after[..c]))), o)] + LegacyRun(Start, after[c + 1..])
  {
    ChunkBody(after, c, o);
    ConsAt(after, c);
    CloseStep(StoredLines(Texts(after[..c])), o, after[c], after[c + 1..]);
  }

  /** A chunk never closed is emitted at the end with all the lines. */
  lemma ChunkUnclosed(after: seq<Scanned>, o: Option<string>)
    requires FirstClose(after) == |after|
    ensures LegacyRun(State(InCode, [], o), after) == [Code(Lines(StoredLines(Texts(after))), o)]
  {
    ChunkBody(after, |after|, o);
    assert after[..|after|] == after;
    assert after[|after|..] == [];
  }

  /** The lines before the first closing fence all land in the chunk's buffer. */
  lemma ChunkBody(after: seq<Scanned>, c: nat, o: Option<string>)
    requires c <= |after| && forall j | 0 <= j < c :: !after[j].close
    ensures LegacyRun(State(InCode, [], o), after) == LegacyRun(State(InCode, StoredLines(Texts(after[..c])), o), after[c..])
  {
    var body := Texts(after[..c]);
    SeqUnit(body);
    TakeDrop(after, c);
    ChunkRun([], after[..c], after[c..], o);
  }

  /** A closing fence emits the chunk, whatever it holds, and restarts the reader. */
  lemma CloseStep(buf: seq<string>, o: Option<string>, l: Scanned, rest: seq<Scanned>)
    requires l.close
    ensures LegacyRun(State(InCode, buf, o), [l] + rest) == [Code(Lines(buf), o)] + LegacyRun(Start, rest)
  {
    ConsSplit([l], rest);
  }

  /** Prose lines before any opening fence go into the buffer stripped. */
  lemma {:induction false} ProseRun(pre: seq<string>, md: seq<Scanned>, rest: seq<Scanned>)
    requires forall j | 0 <= j < |md| :: md[j].open.None?
    ensures LegacyRun(State(InMarkdown, StoredLines(pre), None), md + rest)
         == LegacyRun(State(InMarkdown, StoredLines(pre + Texts(md)), None), rest)
    decreases |md|
  {
    if |md| == 0 {
      assert md + rest == rest && pre + Texts(md) == pre;
    } else {
      ConsSplit(md, rest);
      StoredSnoc(pre, md[0].text);
      ProseRun(pre + [md[0].text], md[1..], rest);
      TextsCons(pre, md);
    }
  }

  /** Chunk lines before any closing fence go into the code buffer stripped. */
  lemma {:induction false} ChunkRun(pre: seq<string>, body: seq<Scanned>, rest: seq<Scanned>, o: Option<string>)
    requires forall j | 0 <= j < |body| :: !body[j].close
    ensures LegacyRun(State(InCode, StoredLines(pre), o), body + rest)
         == LegacyRun(State(InCode, StoredLines(pre + Texts(body)), o), rest)
    decreases |body|
  {
    if |body| == 0 {
      assert body + rest == rest && pre + Texts(body) == pre;
    } else {
      ConsSplit(body, rest);
      StoredSnoc(pre, body[0].text);
      ChunkRun(pre + [body[0].text], body[1..], rest, o);
      TextsCons(pre, body);
    }
  }

  // ---------------------------------------------------------------------
  // What every reading guarantees

  /** A line as the script stores it: stripped, then newline-terminated. */
  predicate StoredShape(x: string) {
    |x| > 0 && x[|x| - 1] == '\n' && (|x| > 1 ==> x[0] !in Whitespace && x[|x| - 2] !in Whitespace)
  }

  /** A cell as the script emits it: a list of stored lines; markdown
      without options; code options, when set, not empty. */
  predicate LegacyShaped(c: Cell) {
    && !c.Raw? && c.source.Lines?
    && (forall x | x in c.source.lines :: StoredShape(x))
    && (c.Markdown? ==> c.options.None?)
    && (c.Code? && c.options.Some? ==> c.options.value != "")
  }

  /** A reader state whose buffer and options could have produced such a cell. */
  predicate StateShaped(st: State) {
    && (forall x | x in st.buf :: StoredShape(x))
    && (st.mode == InMarkdown ==> st.opts.None?)
    && (st.opts.Some? ==> st.opts.value != "")
  }

  /** Every cell the script emits is shaped so: indentation and trailing
      whitespace are gone from every line, and code ends with a newline. */
  lemma {:induction false} CellsShaped(st: State, lines: seq<Scanned>)
    requires StateShaped(st)
    ensures forall c | c in LegacyRun(st, lines) :: LegacyShaped(c)
    decreases |lines|
  {
    if |lines| > 0 {
      var (out, next) := LegacyStep(st, lines[0]);
      assert StateShaped(next) by {
        forall x | x in next.buf ensures StoredShape(x) {
          if x !in st.buf {
            assert x == Stored(lines[0].text);
            StoredLine(lines[0].text);
          }
        }
      }
      CellsShaped(next, lines[1..]);
      assert LegacyRun(st, lines) == out + LegacyRun(next, lines[1..]);
    }
  }

  // ---------------------------------------------------------------------
  // The writer

  /** The opening fence: the stored options verbatim after `{r`. */
  function LegacyCodeStart(opts: Option<string>): string {
    match opts
    case None => "```{r}"
    case Some(o) => "```{r" + o + "}"
  }

  /** A code cell: opening fence, source, closing fence, each on its own line. */
  function LegacyCodeBlock(src: string, opts: Option<string>): string {
    MaybeNewline(MaybeNewline(LegacyCodeStart(opts), src), "```")
  }

  /** The block a markdown or code cell contributes. */
  function LegacyBlock(c: Cell): string
    requires !c.Raw?
  {
    match c
    case Markdown(src, _) => MaybeJoin(src)
    case Code(src, opts) => LegacyCodeBlock(MaybeJoin(src), opts)
  }

  /** The blocks of the cells in order; cells of other types contribute none. */
  function LegacyCellBlocks(cells: seq<Cell>): (bs: seq<string>)
    ensures |bs| <= |cells|
    ensures |bs| == 0 <==> forall i | 0 <= i < |cells| :: cells[i].Raw?
    ensures (forall i | 0 <= i < |cells| :: !cells[i].Raw?) ==>
      |bs| == |cells| && forall i | 0 <= i < |cells| :: bs[i] == LegacyBlock(cells[i])
    decreases |cells|
  {
    if |cells| == 0 then []
    else
      var rest := LegacyCellBlocks(cells[1..]);
      assert forall i | 1 <= i < |cells| :: cells[i] == cells[1..][i - 1];
      if cells[0].Raw? then rest else [LegacyBlock(cells[0])] + rest
  }

  /** All blocks of the document: the header block, if any, then the cells'. */
  function LegacyBlocks<V>(nb: Notebook<V>, explicit: Yaml<V>, dump: V -> string): seq<string> {
    match ChosenHeader(explicit, nb.header)
    case Value(v) => [HeaderBlock(dump(v))] + LegacyCellBlocks(nb.cells)
    case Null => LegacyCellBlocks(nb.cells)
  }

  /** `ipynb_to_rmd` of the script: the text written. Blocks are joined with
      one empty line and nothing trimmed, so no blocks give the empty text. */
  function LegacyIpynbToRmd<V>(nb: Notebook<V>, explicit: Yaml<V>, dump: V -> string): (out: string)
    ensures ChosenHeader(explicit, nb.header).Null? && (forall i | 0 <= i < |nb.cells| :: nb.cells[i].Raw?)
      ==> out == ""
    ensures ChosenHeader(explicit, nb.header).Value? ==>
      HeaderBlock(dump(ChosenHeader(explicit, nb.header).v)) <= out
  {
    var bs := LegacyBlocks(nb, explicit, dump);
    if ChosenHeader(explicit, nb.header).Value? then
      JoinCons(bs[0], bs[1..], "\n\n");
      assert [bs[0]] + bs[1..] == bs;
      Join(bs, "\n\n")
    else
      Join(bs, "\n\n")
  }

  /** Options the writer produces come back verbatim: any options without a
      newline, and no options; only empty options are lost, since the
      reader sets none for an empty group. */
  lemma LegacyOptionsRoundTrip(opts: Option<string>)
    requires opts.Some? ==> opts.value != "" && '\n' !in opts.value
    ensures FenceOpen(LegacyCodeStart(opts)).Some?
    ensures LegacyOptions(FenceOpen(LegacyCodeStart(opts)).value) == opts
  {
    var g := if opts.Some? then opts.value else "";
    assert LegacyCodeStart(opts) == "```" + ("{r" + g + "}");
    FenceLineOpens(LegacyCodeStart(opts), g);
  }

  /** An explicit header replaces whatever the notebook stores. */
  lemma LegacyExplicitHeaderWins<V>(nb: Notebook<V>, v: V, dump: V -> string)
    ensures forall stored: Option<Yaml<V>> ::
      LegacyIpynbToRmd(nb, Value(v), dump) == LegacyIpynbToRmd(Notebook(nb.cells, stored), Value(v), dump)
    ensures LegacyIpynbToRmd(nb, Value(v), dump) == LegacyIpynbToRmd(Notebook(nb.cells, Some(Value(v))), Null, dump)
  {
  }

  /** Dropping a cell of another type leaves the blocks unchanged. */
  lemma {:induction false} LegacyRawCellsIgnored(cells: seq<Cell>, i: nat)
    requires i < |cells| && cells[i].Raw?
    ensures LegacyCellBlocks(cells[..i] + cells[i + 1..]) == LegacyCellBlocks(cells)
    decreases i
  {
    if i == 0 {
      assert cells[..0] + cells[1..] == cells[1..];
    } else {
      var rest := cells[1..];
      assert rest[..i - 1] + rest[i..] == (cells[..i] + cells[i + 1..])[1..];
      LegacyRawCellsIgnored(rest, i - 1);
    }
  }
}
