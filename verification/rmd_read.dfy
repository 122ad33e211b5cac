/** Reading R Markdown into a notebook (`rmd_to_ipynb`,
    ipyrmd/ipyrmd.py:163-245): the front matter becomes the `Rmd_header`
    entry, every fenced R chunk a code cell, and the prose between chunks a
    markdown cell when it has any visible text. */
module RmdRead {
  import opened PyStr
  import opened Notebook
  import opened Patterns
  import opened FrontMatter
  import opened Segment

  /** `meta['Rmd_chunk_options'] = group.strip(" ,")`, set only when the
      group captured after `{r` is not empty: the options are the group
      with the spaces and commas around it cut off, and nothing else. */
  function ChunkOptions(g: string): (o: Option<string>)
    ensures o.None? <==> g == ""
    ensures o.Some? ==> o.value == Trim(g, OptionTrim)
    ensures o.Some? ==> exists i: nat, j: nat | i <= j <= |g| ::
      o.value == g[i..j] && AllIn(g[..i], OptionTrim) && AllIn(g[j..], OptionTrim)
    ensures o.Some? && o.value != "" ==> o.value[0] !in OptionTrim && o.value[|o.value| - 1] !in OptionTrim
  {
    if g == "" then None
    else
      TrimShape(g, OptionTrim);
      Some(Trim(g, OptionTrim))
  }

  /** One turn of the loop over the lines: the cells it emits and the next state. */
  function Step(st: State, l: Scanned): (seq<Cell>, State) {
    match st.mode
    case InMarkdown =>
      (match l.open
       case Some(g) =>
         (if AnyContent(st.buf) then [Emit(InMarkdown, st.buf, st.opts)] else [],
          State(InCode, [], ChunkOptions(g)))
       case None => ([], State(InMarkdown, st.buf + [RStrip(l.text) + "\n"], st.opts)))
    case InCode =>
      if l.close then ([Emit(InCode, st.buf, st.opts)], Start)
      else ([], State(InCode, CodeAppend(st.buf, l.text), st.opts))
  }

  /** The loop from state `st` over `lines`, followed by the final flush. */
  function Run(st: State, lines: seq<Scanned>): seq<Cell>
    decreases |lines|
  {
    if |lines| == 0 then Finish(st)
    else
      var (out, next) := Step(st, lines[0]);
      out + Run(next, lines[1..])
  }

  /** The cells of a document body (the lines after the front matter is cut). */
  function Cells(lines: seq<string>): seq<Cell> {
    Run(Start, Scan(lines))
  }

  /** `rmd_to_ipynb` on the text of a file: `readlines`, the header split,
      then the cells. `load` is the YAML loader (`None` for a `YAMLError`). */
  function RmdToIpynb<V>(text: string, load: string -> Option<Yaml<V>>): (nb: Notebook<V>)
    ensures nb.header == RmdFrontMatter(ReadLines(text), load).header
    ensures nb.cells == Cells(RmdFrontMatter(ReadLines(text), load).body)
    ensures nb.cells == Reference(Scan(RmdFrontMatter(ReadLines(text), load).body))
  {
    var p := RmdFrontMatter(ReadLines(text), load);
    CellsAreReference(Scan(p.body));
    Notebook(Cells(p.body), p.header)
  }

  // ---------------------------------------------------------------------
  // A reference reading of the body: prose up to the first opening fence,
  // the chunk up to the first closing fence, and the rest read the same way.

  /** The markdown cell for the prose `md` before a chunk: none when it is blank. */
  function ProseCell(md: seq<string>): seq<Cell> {
    if AnyContent(md) then [Markdown(Lines(ProseLines(md)), None)] else []
  }

  /** The body read chunk by chunk. */
  function Reference(lines: seq<Scanned>): seq<Cell>
    decreases |lines|
  {
    var k := FirstOpen(lines);
    if k == |lines| then
      (if k == 0 then [] else [Markdown(Lines(ProseLines(Texts(lines))), None)])
    else
      var md := Texts(lines[..k]);
      var after := lines[k + 1..];
      var c := FirstClose(after);
      var chunk := Code(Lines(CodeLines(Texts(after[..c]))), ChunkOptions(lines[k].open.value));
      ProseCell(md) + [chunk] + (if c == |after| then [] else Reference(after[c + 1..]))
  }

  /** The line-by-line reader and the chunk-by-chunk reading agree on every input. */
  lemma {:induction false} CellsAreReference(lines: seq<Scanned>)
    ensures Run(Start, lines) == Reference(lines)
    decreases |lines|
  {
    var k := FirstOpen(lines);
    if k == |lines| {
      if k > 0 {
        ProseUnit(lines);
      }
    } else {
      var after := lines[k + 1..];
      var c := FirstClose(after);
      RunChunk(lines, k, c);
      ReferenceChunk(lines, k, c);
      if c < |after| {
        CellsAreReference(after[c + 1..]);
      }
    }
  }

  /** How the line-by-line reader reads a document whose first chunk opens
      at `k` and closes at `k + 1 + c`. */
  lemma RunChunk(lines: seq<Scanned>, k: nat, c: nat)
    requires k == FirstOpen(lines) && k < |lines| && c == FirstClose(lines[k + 1..])
    ensures var after := lines[k + 1..];
      Run(Start, lines)
      == ProseCell(Texts(lines[..k]))
         + [Code(Lines(CodeLines(Texts(after[..c]))), ChunkOptions(lines[k].open.value))]
         + (if c == |after| then [] else Run(Start, after[c + 1..]))
  {
    var after := lines[k + 1..];
    var o := ChunkOptions(lines[k].open.value);
    var chunk := Code(Lines(CodeLines(Texts(after[..c]))), o);
    var prose := ProseCell(Texts(lines[..k]));
    var rest := if c == |after| then [] else Run(Start, after[c + 1..]);
    calc {
      Run(Start, lines);
      == { ProseThenChunk(lines, k); }
      prose + Run(State(InCode, [], o), after);
      == { ChunkThenRest(after, o); }
      prose + ([chunk] + rest);
      == { SeqAssoc(prose, [chunk], rest); }
      prose + [chunk] + rest;
    }
  }

  /** How `Reference` reads a document whose first chunk opens at `k` and closes at `k + 1 + c`. */
  lemma ReferenceChunk(lines: seq<Scanned>, k: nat, c: nat)
    requires k == FirstOpen(lines) && k < |lines| && c == FirstClose(lines[k + 1..])
    ensures var after := lines[k + 1..];
      Reference(lines)
      == ProseCell(Texts(lines[..k]))
         + [Code(Lines(CodeLines(Texts(after[..c]))), ChunkOptions(lines[k].open.value))]
         + (if c == |after| then [] else Reference(after[c + 1..]))
  {
  }


  /** Prose lines read from the start all land in the buffer. */
  lemma ProseFromStart(md: seq<Scanned>, rest: seq<Scanned>)
    requires forall j | 0 <= j < |md| :: md[j].open.None?
    ensures Run(Start, md + rest) == Run(State(InMarkdown, ProseLines(Texts(md)), None), rest)
  {
    ProseRun([], md, rest);
    SeqUnit(Texts(md));
  }

  /** Prose up to the first opening fence, then the chunk's state. */
  lemma ProseThenChunk(lines: seq<Scanned>, k: nat)
    requires k < |lines| && lines[k].open.Some?
    requires forall j | 0 <= j < k :: lines[j].open.None?
    ensures Run(Start, lines)
         == ProseCell(Texts(lines[..k])) + Run(State(InCode, [], ChunkOptions(lines[k].open.value)), lines[k + 1..])
  {
    var md := lines[..k];
    var buf := ProseLines(Texts(md));
    var o := ChunkOptions(lines[k].open.value);
    calc {
      Run(Start, lines);
      == { TakeDrop(lines, k); ProseFromStart(md, lines[k..]); }
      Run(State(InMarkdown, buf, None), lines[k..]);
      == { ConsAt(lines, k); OpenStep(buf, lines[k], lines[k + 1..]); }
      (if AnyContent(buf) then [Markdown(Lines(buf), None)] else []) + Run(State(InCode, [], o), lines[k + 1..]);
      == { ProseContent(Texts(md)); }
      ProseCell(Texts(md)) + Run(State(InCode, [], o), lines[k + 1..]);
    }
  }

  /** An opening fence in prose flushes the prose if it has content and starts a chunk. */
  lemma OpenStep(buf: seq<string>, l: Scanned, rest: seq<Scanned>)
    requires l.open.Some?
    ensures Run(State(InMarkdown, buf, None), [l] + rest)
         == (if AnyContent(buf) then [Markdown(Lines(buf), None)] else [])
            + Run(State(InCode, [], ChunkOptions(l.open.value)), rest)
  {
    ConsSplit([l], rest);
  }

  /** A chunk runs to the first closing fence, which ends it and restarts the reader. */
  lemma ChunkThenRest(after: seq<Scanned>, o: Option<string>)
    ensures var c := FirstClose(after);
      Run(State(InCode, [], o), after)
      == [Code(Lines(CodeLines(Texts(after[..c]))), o)] + (if c == |after| then [] else Run(Start, after[c + 1..]))
  {
    var c := FirstClose(after);
    if c < |after| {
      ChunkCloses(after, c, o);
    } else {
      ChunkUnclosed(after, o);
      assert after[..c] == after;
      SeqUnit([Code(Lines(CodeLines(Texts(after))), o)]);
    }
  }

  /** A chunk closed at `c` is emitted there and the reader restarts after it. */
  lemma ChunkCloses(after: seq<Scanned>, c: nat, o: Option<string>)
    requires c == FirstClose(after) && c < |after|
    ensures Run(State(InCode, [], o), after)
         == [Code(Lines(CodeLines(Texts(after[..c]))), o)] + Run(Start, after[c + 1..])
  {
    ChunkBody(after, c, o);
    ConsAt(after, c);
    CloseStep(CodeLines(Texts(after[..c])), o, after[c], after[c + 1..]);
  }

  /** A chunk never closed is emitted at the end with all the lines. */
  lemma ChunkUnclosed(after: seq<Scanned>, o: Option<string>)
    requires FirstClose(after) == |after|
    ensures Run(State(InCode, [], o), after) == [Code(Lines(CodeLines(Texts(after))), o)]
  {
    ChunkBody(after, |after|, o);
    assert after[..|after|] == after;
    assert after[|after|..] == [];
  }

  /** The lines before the first closing fence all land in the chunk's buffer. */
  lemma ChunkBody(after: seq<Scanned>, c: nat, o: Option<string>)
    requires c <= |after| && forall j | 0 <= j < c :: !after[j].close
    ensures Run(State(InCode, [], o), after) == Run(State(InCode, CodeLines(Texts(after[..c])), o), after[c..])
  {
    var body := Texts(after[..c]);
    SeqUnit(body);
    TakeDrop(after, c);
    ChunkRun([], after[..c], after[c..], o);
  }

  /** A closing fence emits the chunk, whatever it holds, and restarts the reader. */
  lemma CloseStep(buf: seq<string>, o: Option<string>, l: Scanned, rest: seq<Scanned>)
    requires l.close
    ensures Run(State(InCode, buf, o), [l] + rest) == [Code(Lines(buf), o)] + Run(Start, rest)
  {
    ConsSplit([l], rest);
  }

  /** Prose lines before any opening fence go into the buffer right-stripped. */
  lemma {:induction false} ProseRun(pre: seq<string>, md: seq<Scanned>, rest: seq<Scanned>)
    requires forall j | 0 <= j < |md| :: md[j].open.None?
    ensures Run(State(InMarkdown, ProseLines(pre), None), md + rest)
         == Run(State(InMarkdown, ProseLines(pre + Texts(md)), None), rest)
    decreases |md|
  {
    if |md| == 0 {
      assert md + rest == rest && pre + Texts(md) == pre;
    } else {
      ConsSplit(md, rest);
      ProseSnoc(pre, md[0].text);
      ProseRun(pre + [md[0].text], md[1..], rest);
      TextsCons(pre, md);
    }
  }

  /** Chunk lines before any closing fence go into the code buffer. */
  lemma {:induction false} ChunkRun(pre: seq<string>, body: seq<Scanned>, rest: seq<Scanned>, o: Option<string>)
    requires forall j | 0 <= j < |body| :: !body[j].close
    ensures Run(State(InCode, CodeLines(pre), o), body + rest)
         == Run(State(InCode, CodeLines(pre + Texts(body)), o), rest)
    decreases |body|
  {
    if |body| == 0 {
      assert body + rest == rest && pre + Texts(body) == pre;
    } else {
      ConsSplit(body, rest);
      CodeAppendLines(pre, body[0].text);
      ChunkRun(pre + [body[0].text], body[1..], rest, o);
      TextsCons(pre, body);
    }
  }

  /** Prose without opening fences, a chunk, then more lines: the prose as
      a markdown cell if it has visible text, the chunk as a code cell, then
      whatever the rest reads as on its own. */
  lemma ChunkUnit(md: seq<Scanned>, l: Scanned, body: seq<Scanned>, e: Scanned, rest: seq<Scanned>)
    requires forall j | 0 <= j < |md| :: md[j].open.None?
    requires l.open.Some?
    requires forall j | 0 <= j < |body| :: !body[j].close
    requires e.close
    ensures Run(Start, md + [l] + body + [e] + rest)
         == ProseCell(Texts(md)) + [Code(Lines(CodeLines(Texts(body))), ChunkOptions(l.open.value))] + Run(Start, rest)
  {
    var xs := md + [l] + body + [e] + rest;
    var after := body + [e] + rest;
    var o := ChunkOptions(l.open.value);
    var code := CodeLines(Texts(body));
    SeqAssoc(md + [l], body + [e], rest);
    SeqAssoc(md + [l], body, [e]);
    Around(md, l, after);
    Around(body, e, rest);
    calc {
      Run(Start, xs);
      == { ProseThenChunk(xs, |md|); }
      ProseCell(Texts(md)) + Run(State(InCode, [], o), after);
      == { ChunkBody(after, |body|, o); }
      ProseCell(Texts(md)) + Run(State(InCode, code, o), [e] + rest);
      == { CloseStep(code, o, e, rest); }
      ProseCell(Texts(md)) + ([Code(Lines(code), o)] + Run(Start, rest));
      == { SeqAssoc(ProseCell(Texts(md)), [Code(Lines(code), o)], Run(Start, rest)); }
      ProseCell(Texts(md)) + [Code(Lines(code), o)] + Run(Start, rest);
    }
  }

  /** Lines without opening fences are one markdown cell, blank or not. */
  lemma ProseUnit(md: seq<Scanned>)
    requires |md| > 0
    requires forall j | 0 <= j < |md| :: md[j].open.None?
    ensures Run(Start, md) == [Markdown(Lines(ProseLines(Texts(md))), None)]
  {
    ProseFromStart(md, []);
    SeqUnit(md);
  }

  // ---------------------------------------------------------------------
  // What the reader promises about the cells it produces

  /** Cells as the reader leaves them: list sources throughout; markdown
      without options; and every markdown cell but a final one has visible
      text and is followed by a code cell. */
  ghost predicate ReaderShaped(cs: seq<Cell>) {
    && (forall i | 0 <= i < |cs| :: !cs[i].Raw? && cs[i].source.Lines?)
    && (forall i | 0 <= i < |cs| :: cs[i].Markdown? ==> cs[i].options.None?)
    && (forall i | 0 <= i < |cs| - 1 :: cs[i].Markdown? ==> AnyContent(cs[i].source.lines) && cs[i + 1].Code?)
  }

  /** The reader's cells have the reader's shape. */
  lemma CellsShaped(lines: seq<string>)
    ensures ReaderShaped(Cells(lines))
  {
    CellsAreReference(Scan(lines));
    ReferenceShaped(Scan(lines));
  }

  lemma {:induction false} ReferenceShaped(lines: seq<Scanned>)
    ensures ReaderShaped(Reference(lines))
    decreases |lines|
  {
    var k := FirstOpen(lines);
    if k < |lines| {
      var after := lines[k + 1..];
      var c := FirstClose(after);
      var chunk := Code(Lines(CodeLines(Texts(after[..c]))), ChunkOptions(lines[k].open.value));
      var tail: seq<Cell> := [];
      if c < |after| {
        ReferenceShaped(after[c + 1..]);
        tail := Reference(after[c + 1..]);
      }
      ReferenceChunk(lines, k, c);
      ProseCellShaped(Texts(lines[..k]));
      ShapedPrefix(ProseCell(Texts(lines[..k])), chunk, tail);
    }
  }

  /** The prose before a chunk gives at most one cell, a markdown cell with visible text. */
  lemma ProseCellShaped(md: seq<string>)
    ensures var p := ProseCell(md);
      && |p| <= 1
      && forall i | 0 <= i < |p| ::
           p[i].Markdown? && p[i].source.Lines? && p[i].options.None? && AnyContent(p[i].source.lines)
  {
    ProseContent(md);
  }

  /** Prose (if any), a chunk, then shaped cells: shaped. */
  lemma ShapedPrefix(prose: seq<Cell>, chunk: Cell, tail: seq<Cell>)
    requires |prose| <= 1
    requires forall i | 0 <= i < |prose| ::
      prose[i].Markdown? && prose[i].source.Lines? && prose[i].options.None? && AnyContent(prose[i].source.lines)
    requires chunk.Code? && chunk.source.Lines?
    requires ReaderShaped(tail)
    ensures ReaderShaped(prose + [chunk] + tail)
  {
    var cs := prose + [chunk] + tail;
    forall i | 0 <= i < |cs| - 1 && cs[i].Markdown?
      ensures AnyContent(cs[i].source.lines) && cs[i + 1].Code?
    {
      if i >= |prose| + 1 {
        assert cs[i] == tail[i - |prose| - 1] && cs[i + 1] == tail[i - |prose|];
      }
    }
  }

  // ---------------------------------------------------------------------
  // A missing final newline makes no difference

  /** The reader sees lines only through their fence matches and their
      right-stripped text. */
  lemma {:induction false} RunSameScan(st: State, xs: seq<Scanned>, ys: seq<Scanned>)
    requires |xs| == |ys| && forall i | 0 <= i < |xs| :: SameScan(xs[i], ys[i])
    ensures Run(st, xs) == Run(st, ys)
    decreases |xs|
  {
    if |xs| > 0 {
      assert Step(st, xs[0]) == Step(st, ys[0]);
      RunSameScan(Step(st, xs[0]).1, xs[1..], ys[1..]);
    }
  }

  lemma CellsAlike(xs: seq<string>, ys: seq<string>)
    requires LinesAlike(xs, ys)
    ensures Cells(xs) == Cells(ys)
  {
    ScanAlike(xs, ys);
    RunSameScan(Start, Scan(xs), Scan(ys));
  }

  /** Reading a file whose last line lacks its newline gives the same notebook
      as reading it with the newline. */
  lemma FinalNewlineIgnored<V>(t: string, load: string -> Option<Yaml<V>>)
    requires |t| > 0 && t[|t| - 1] != '\n'
    ensures RmdToIpynb(t + "\n", load) == RmdToIpynb(t, load)
  {
    ReadLinesFinal(t);
    var xs := ReadLines(t);
    var ys := ReadLines(t + "\n");
    assert LinesAlike(xs, ys) && xs[..|xs| - 1] == ys[..|ys| - 1];
    var px := RmdFrontMatter(xs, load);
    var py := RmdFrontMatter(ys, load);
    FrontMatterAlike(xs, ys, load);
    CellsAlike(px.body, py.body);
  }

  /** Lines that differ only by a newline added to the last one part alike. */
  lemma FrontMatterAlike<V>(xs: seq<string>, ys: seq<string>, load: string -> Option<Yaml<V>>)
    requires LinesAlike(xs, ys) && |xs| > 0 && xs[..|xs| - 1] == ys[..|ys| - 1]
    ensures RmdFrontMatter(xs, load).header == RmdFrontMatter(ys, load).header
    ensures LinesAlike(RmdFrontMatter(xs, load).body, RmdFrontMatter(ys, load).body)
  {
    DelimsAlike(xs, ys);
    HeaderBoundsAgree(xs, ys, RmdDelim);
    HeaderAlike(xs, ys, load);
    BodyAlike(xs, ys, load);
  }

  lemma HeaderAlike<V>(xs: seq<string>, ys: seq<string>, load: string -> Option<Yaml<V>>)
    requires |xs| == |ys| && |xs| > 0 && xs[..|xs| - 1] == ys[..|ys| - 1]
    requires HeaderBounds(xs, RmdDelim) == HeaderBounds(ys, RmdDelim)
    ensures RmdFrontMatter(xs, load).header == RmdFrontMatter(ys, load).header
  {
    var hb := HeaderBounds(xs, RmdDelim);
    if hb.Some? {
      SliceBeforeLast(xs, ys, hb.value.0 + 1, hb.value.1);
    }
  }

  lemma BodyAlike<V>(xs: seq<string>, ys: seq<string>, load: string -> Option<Yaml<V>>)
    requires LinesAlike(xs, ys)
    requires HeaderBounds(xs, RmdDelim) == HeaderBounds(ys, RmdDelim)
    ensures LinesAlike(RmdFrontMatter(xs, load).body, RmdFrontMatter(ys, load).body)
  {
    var hb := HeaderBounds(xs, RmdDelim);
    if hb.Some? {
      CutAlike(xs, ys, hb.value.0, hb.value.1);
    }
  }

  /** Lines alike are delimiter lines alike. */
  lemma DelimsAlike(xs: seq<string>, ys: seq<string>)
    requires LinesAlike(xs, ys)
    ensures forall j | 0 <= j < |xs| :: DelimLine(xs[j], RmdDelim) == DelimLine(ys[j], RmdDelim)
  {
    forall j | 0 <= j < |xs| ensures DelimLine(xs[j], RmdDelim) == DelimLine(ys[j], RmdDelim) {
      if ys[j] != xs[j] { DelimNewline(xs[j], RmdDelim); }
    }
  }

  /** Lists that agree but for their last elements agree on every slice that stops before it. */
  lemma SliceBeforeLast(xs: seq<string>, ys: seq<string>, i: nat, j: nat)
    requires |xs| == |ys| && i <= j < |xs| && xs[..|xs| - 1] == ys[..|ys| - 1]
    ensures xs[i..j] == ys[i..j]
  {
    assert xs[i..j] == xs[..|xs| - 1][i..j];
    assert ys[i..j] == ys[..|ys| - 1][i..j];
  }

  /** Cutting the same lines out of lines alike leaves lines alike. */
  lemma CutAlike(xs: seq<string>, ys: seq<string>, a: nat, b: nat)
    requires LinesAlike(xs, ys) && a <= b < |xs|
    ensures LinesAlike(xs[..a] + xs[b + 1..], ys[..a] + ys[b + 1..])
  {
    var bx := xs[..a] + xs[b + 1..];
    var bys := ys[..a] + ys[b + 1..];
    forall i | 0 <= i < |bx| ensures bys[i] == bx[i] || bys[i] == bx[i] + "\n" {
      if i < a {
        assert bx[i] == xs[i] && bys[i] == ys[i];
      } else {
        assert bx[i] == xs[i - a + b + 1] && bys[i] == ys[i - a + b + 1];
      }
    }
  }
}
