/** Reading a knitr spin script into a notebook (`spin_to_ipynb`,
    ipyrmd/ipyrmd.py:248-330): the `#' ---` front matter becomes the
    `Rmd_header` entry, runs of `#' ` lines become markdown cells, and the
    other lines code cells, a `#+ ` directive starting a new code cell with
    its chunk options. Only cells with visible text are kept. */
module SpinRead {
  import opened PyStr
  import opened Notebook
  import opened Patterns
  import opened FrontMatter
  import opened Segment

  /** A line as the reader classifies it: a `#' ` markdown line (the text
      after the marker, right-stripped), a `#+ ` directive (the captured
      group), or any other line (right-stripped). */
  datatype SpinLine = Prose(text: string) | Directive(text: string) | Plain(text: string)

  /** `re_spin.match(l)` first, then `re_spinprop.match(l)`. A line read from
      a file is markdown exactly when it starts with `#' `, a directive
      exactly when it starts with `#+ `, and code otherwise. */
  function Classify(l: string): (r: SpinLine)
    ensures SingleLine(l) ==> (r.Prose? <==> |l| >= 3 && l[..3] == "#' ")
    ensures SingleLine(l) ==> (r.Directive? <==> |l| >= 3 && l[..3] == "#+ ")
    ensures r.Prose? ==> |l| >= 3 && r.text == RStrip(l[3..])
    ensures r.Directive? ==> '\n' !in r.text && (l == "#+ " + r.text || l == "#+ " + r.text + "\n")
    ensures r.Plain? ==> r.text == RStrip(l)
  {
    match SpinText(l)
    case Some(g) =>
      ProseMarked(l, g);
      Prose(RStrip(g))
    case None =>
      match SpinDirective(l)
      case Some(g) =>
        DirectiveMarked(l, g);
        Directive(g)
      case None =>
        UnmarkedPlain(l);
        Plain(RStrip(l))
  }

  /** A `#' ` match: the line starts with the marker, and its text
      right-stripped is the group right-stripped. */
  lemma ProseMarked(l: string, g: string)
    requires SpinText(l) == Some(g)
    ensures |l| >= 3 && l[..3] == "#' " && RStrip(g) == RStrip(l[3..])
    ensures SingleLine(l) ==> !(l[..3] == "#+ ")
  {
    if l == "#' " + g {
      assert l[..3] == "#' " && l[3..] == g;
    } else {
      assert l[..3] == "#' " && l[3..] == g + "\n";
      RStripNewline(g);
    }
  }

  /** A `#+ ` match that is not a `#' ` match: the line starts with `#+ `. */
  lemma DirectiveMarked(l: string, g: string)
    requires SpinText(l).None? && SpinDirective(l) == Some(g)
    ensures |l| >= 3 && l[..3] == "#+ "
    ensures SingleLine(l) ==> !(l[..3] == "#' ")
  {
    if l == "#+ " + g {
      assert l[..3] == "#+ ";
    } else {
      assert l[..3] == "#+ ";
    }
  }

  /** A single line matching neither pattern starts with neither marker. */
  lemma UnmarkedPlain(l: string)
    requires SpinText(l).None? && SpinDirective(l).None?
    ensures SingleLine(l) ==> !(|l| >= 3 && l[..3] == "#' ") && !(|l| >= 3 && l[..3] == "#+ ")
  {
    if SingleLine(l) {
      LineGroupMarked(l, "#' ");
      LineGroupMarked(l, "#+ ");
    }
  }

  function Classes(lines: seq<string>): (r: seq<SpinLine>)
    ensures |r| == |lines|
    ensures forall i | 0 <= i < |lines| :: r[i] == Classify(lines[i])
  {
    seq(|lines|, i requires 0 <= i < |lines| => Classify(lines[i]))
  }

  /** `if any([c.strip() for c in celldata]): add_cell(state, celldata, **meta)`. */
  function Flush(st: State): seq<Cell> {
    if AnyContent(st.buf) then [Emit(st.mode, st.buf, st.opts)] else []
  }

  /** One turn of the loop. `corrected` selects how the first markdown line
      after code is stored: as the source does, without its newline, or
      with it, like every other markdown line. */
  function Step(st: State, l: SpinLine, corrected: bool): (seq<Cell>, State) {
    match st.mode
    case InMarkdown =>
      (match l
       case Prose(t) => ([], State(InMarkdown, st.buf + [t + "\n"], st.opts))
       case Directive(g) => (Flush(st), State(InCode, [], Some(Trim(g, OptionTrim))))
       case Plain(t) => (Flush(st), State(InCode, [t + "\n"], None)))
    case InCode =>
      (match l
       case Prose(t) => (Flush(st), State(InMarkdown, [if corrected then t + "\n" else t], None))
       case Directive(g) => (Flush(st), State(InCode, [], Some(Trim(g, OptionTrim))))
       case Plain(t) => ([], State(InCode, st.buf + [t + "\n"], st.opts)))
  }

  /** The loop from state `st` over `lines`, then the final flush. */
  function Run(st: State, lines: seq<SpinLine>, corrected: bool): seq<Cell>
    decreases |lines|
  {
    if |lines| == 0 then Flush(st)
    else
      var (out, next) := Step(st, lines[0], corrected);
      out + Run(next, lines[1..], corrected)
  }

  /** The cells of a script body (the lines after the front matter is cut). */
  function SpinCells(lines: seq<string>, corrected: bool): seq<Cell> {
    Run(Start, Classes(lines), corrected)
  }

  /** The script read with either treatment of the first markdown line after code. */
  function Read<V>(text: string, load: string -> Option<Yaml<V>>, corrected: bool): Notebook<V> {
    var p := SpinFrontMatter(ReadLines(text), load);
    Notebook(SpinCells(p.body, corrected), p.header)
  }

  /** `spin_to_ipynb` as written. `load` is the YAML loader (`None` for a `YAMLError`). */
  function SpinToIpynb<V>(text: string, load: string -> Option<Yaml<V>>): Notebook<V> {
    Read(text, load, false)
  }

  /** `spin_to_ipynb` with the first markdown line after code newline-terminated. */
  function SpinToIpynbCorrected<V>(text: string, load: string -> Option<Yaml<V>>): Notebook<V> {
    Read(text, load, true)
  }

  // ---------------------------------------------------------------------
  // What every reading guarantees

  /** A cell whose stored lines hold visible text. */
  predicate Visible(c: Cell) {
    !c.Raw? && c.source.Lines? && AnyContent(c.source.lines)
  }

  /** Every cell the reader emits has a line with visible text. */
  lemma {:induction false} CellsVisible(st: State, lines: seq<SpinLine>, corrected: bool)
    ensures forall i | 0 <= i < |Run(st, lines, corrected)| :: Visible(Run(st, lines, corrected)[i])
    decreases |lines|
  {
    if |lines| > 0 {
      var (out, next) := Step(st, lines[0], corrected);
      CellsVisible(next, lines[1..], corrected);
      var rest := Run(next, lines[1..], corrected);
      assert forall i | 0 <= i < |out| :: Visible(out[i]);
      assert Run(st, lines, corrected) == out + rest;
    }
  }

  /** Markdown cells carry no chunk options: the options only ever change on
      the way into code and are dropped on the way back to markdown. */
  lemma {:induction false} MarkdownWithoutOptions(st: State, lines: seq<SpinLine>, corrected: bool)
    requires st.mode == InMarkdown ==> st.opts.None?
    ensures forall c | c in Run(st, lines, corrected) :: c.Markdown? ==> c.options.None?
    decreases |lines|
  {
    if |lines| > 0 {
      var (out, next) := Step(st, lines[0], corrected);
      MarkdownWithoutOptions(next, lines[1..], corrected);
      var rest := Run(next, lines[1..], corrected);
      assert Run(st, lines, corrected) == out + rest;
    }
  }

  /** A line that starts with `#'` or `#+` but not with the following space
      is an ordinary code line. */
  lemma MarkerNeedsSpace(l: string)
    requires |l| >= 2 && (l[..2] == "#'" || l[..2] == "#+")
    requires |l| == 2 || l[2] != ' '
    ensures Classify(l) == Plain(RStrip(l))
  {
    assert |l| < 3 || l[..3] != "#' ";
    assert |l| < 3 || l[..3] != "#+ ";
  }

  /** A directive ends whatever run is open, then heads a code cell that
      carries its options, stripped of spaces and commas, even when they are
      empty; the cell is dropped when no visible text follows. */
  lemma DirectiveHeadsCell(st: State, g: string, ys: seq<string>, corrected: bool)
    ensures Run(st, [Directive(g)] + PlainRun(ys), corrected)
      == Flush(st)
         + (if AnyContent(Terminated(ys)) then [Code(Lines(Terminated(ys)), Some(Trim(g, OptionTrim)))] else [])
  {
    var o := Some(Trim(g, OptionTrim));
    ConsSplit([Directive(g)], PlainRun(ys));
    SeqUnit(PlainRun(ys));
    PlainRunReads([], o, ys, [], corrected);
    SeqUnit(Terminated(ys));
  }

  // ---------------------------------------------------------------------
  // Runs of lines

  function ProseRun(xs: seq<string>): (r: seq<SpinLine>)
    ensures |r| == |xs| && forall i | 0 <= i < |xs| :: r[i] == Prose(xs[i])
  {
    seq(|xs|, i requires 0 <= i < |xs| => Prose(xs[i]))
  }

  function PlainRun(ys: seq<string>): (r: seq<SpinLine>)
    ensures |r| == |ys| && forall i | 0 <= i < |ys| :: r[i] == Plain(ys[i])
  {
    seq(|ys|, i requires 0 <= i < |ys| => Plain(ys[i]))
  }

  /** Markdown lines read in markdown are collected, each newline-terminated. */
  lemma {:induction false} ProseRunReads(buf: seq<string>, opts: Option<string>, xs: seq<string>, rest: seq<SpinLine>, corrected: bool)
    ensures Run(State(InMarkdown, buf, opts), ProseRun(xs) + rest, corrected)
         == Run(State(InMarkdown, buf + Terminated(xs), opts), rest, corrected)
    decreases |xs|
  {
    if |xs| > 0 {
      assert (ProseRun(xs) + rest)[0] == Prose(xs[0]);
      assert (ProseRun(xs) + rest)[1..] == ProseRun(xs[1..]) + rest;
      ProseRunReads(buf + [xs[0] + "\n"], opts, xs[1..], rest, corrected);
      assert buf + [xs[0] + "\n"] + Terminated(xs[1..]) == buf + Terminated(xs);
    } else {
      assert ProseRun(xs) + rest == rest;
      assert buf + Terminated(xs) == buf;
    }
  }

  /** Other lines read in code are collected, each newline-terminated. */
  lemma {:induction false} PlainRunReads(buf: seq<string>, opts: Option<string>, ys: seq<string>, rest: seq<SpinLine>, corrected: bool)
    ensures Run(State(InCode, buf, opts), PlainRun(ys) + rest, corrected)
         == Run(State(InCode, buf + Terminated(ys), opts), rest, corrected)
    decreases |ys|
  {
    if |ys| > 0 {
      assert (PlainRun(ys) + rest)[0] == Plain(ys[0]);
      assert (PlainRun(ys) + rest)[1..] == PlainRun(ys[1..]) + rest;
      PlainRunReads(buf + [ys[0] + "\n"], opts, ys[1..], rest, corrected);
      assert buf + [ys[0] + "\n"] + Terminated(ys[1..]) == buf + Terminated(ys);
    } else {
      assert PlainRun(ys) + rest == rest;
      assert buf + Terminated(ys) == buf;
    }
  }

  // ---------------------------------------------------------------------
  // The first markdown line after code

  /** As written, the reader stores the first `#' ` line after code without
      its newline: a directive, code lines and then markdown lines read as a
      code cell and a markdown cell whose first line runs into the second.
      The corrected reading newline-terminates every markdown line. */
  lemma MarkdownAfterCode(g: string, ys: seq<string>, xs: seq<string>, corrected: bool)
    requires AnyContent(Terminated(ys)) && |xs| > 0 && exists i | 0 <= i < |xs| :: HasContent(xs[i])
    ensures Run(Start, [Directive(g)] + PlainRun(ys) + ProseRun(xs), corrected)
      == [Code(Lines(Terminated(ys)), Some(Trim(g, OptionTrim))),
          Markdown(Lines([xs[0] + (if corrected then "\n" else "")] + Terminated(xs[1..])), None)]
  {
    var o := Some(Trim(g, OptionTrim));
    var first := xs[0] + (if corrected then "\n" else "");
    var code := State(InCode, Terminated(ys), o);
    assert Flush(Start) == [];
    var md := State(InMarkdown, [first] + Terminated(xs[1..]), None);
    assert ProseRun(xs) == [Prose(xs[0])] + ProseRun(xs[1..]);
    calc {
      Run(Start, [Directive(g)] + PlainRun(ys) + ProseRun(xs), corrected);
      { SeqAssoc([Directive(g)], PlainRun(ys), ProseRun(xs)); }
      Run(Start, [Directive(g)] + (PlainRun(ys) + ProseRun(xs)), corrected);
      == { RunDirective(Start, g, PlainRun(ys) + ProseRun(xs), corrected); }
      Run(State(InCode, [], o), PlainRun(ys) + ProseRun(xs), corrected);
      == { PlainRunReads([], o, ys, ProseRun(xs), corrected); SeqUnit(Terminated(ys)); }
      Run(code, [Prose(xs[0])] + ProseRun(xs[1..]), corrected);
      == { RunProseAfterCode(code, xs[0], ProseRun(xs[1..]), corrected); }
      Flush(code) + Run(State(InMarkdown, [first], None), ProseRun(xs[1..]), corrected);
      == { ProseRunReads([first], None, xs[1..], [], corrected); SeqUnit(ProseRun(xs[1..])); }
      Flush(code) + Flush(md);
    }
    MarkdownVisible(xs, first);
  }

  /** The stored markdown run has visible text when any of its lines has. */
  lemma MarkdownVisible(xs: seq<string>, first: string)
    requires |xs| > 0 && xs[0] <= first && exists i | 0 <= i < |xs| :: HasContent(xs[i])
    ensures AnyContent([first] + Terminated(xs[1..]))
  {
    var i :| 0 <= i < |xs| && HasContent(xs[i]);
    var k :| 0 <= k < |xs[i]| && xs[i][k] !in Whitespace;
    var line := ([first] + Terminated(xs[1..]))[i];
    if i == 0 {
      assert line == first && line[k] == xs[0][k];
    } else {
      assert line == Terminated(xs[1..])[i - 1] == xs[i] + "\n";
      assert line[k] == xs[i][k];
    }
  }

  /** A directive flushes the open run and starts a code cell with its options. */
  lemma RunDirective(st: State, g: string, rest: seq<SpinLine>, corrected: bool)
    ensures Run(st, [Directive(g)] + rest, corrected)
      == Flush(st) + Run(State(InCode, [], Some(Trim(g, OptionTrim))), rest, corrected)
  {
    ConsSplit([Directive(g)], rest);
  }

  /** A markdown line after code flushes the code and starts a markdown cell. */
  lemma RunProseAfterCode(st: State, x: string, rest: seq<SpinLine>, corrected: bool)
    requires st.mode == InCode
    ensures Run(st, [Prose(x)] + rest, corrected)
      == Flush(st) + Run(State(InMarkdown, [x + (if corrected then "\n" else "")], None), rest, corrected)
  {
    ConsSplit([Prose(x)], rest);
    SeqUnit(x);
  }

  /** An empty line after markdown flushes the markdown and starts code with that line. */
  lemma RunGapAfterProse(st: State, rest: seq<SpinLine>, corrected: bool)
    requires st.mode == InMarkdown
    ensures Run(st, [Plain("")] + rest, corrected) == Flush(st) + Run(State(InCode, ["\n"], None), rest, corrected)
  {
    ConsSplit([Plain("")], rest);
    SeqUnit("\n");
  }

  /** An empty line in code is added to the code. */
  lemma RunGapInCode(st: State, rest: seq<SpinLine>, corrected: bool)
    requires st.mode == InCode
    ensures Run(st, [Plain("")] + rest, corrected) == Run(State(InCode, st.buf + ["\n"], st.opts), rest, corrected)
  {
    ConsSplit([Plain("")], rest);
    SeqUnit("\n");
    SeqUnit(Run(State(InCode, st.buf + ["\n"], st.opts), rest, corrected));
  }

  /** The line break between the first two markdown lines after code is
      lost as written (`#+ `, `x`, `#' a`, `#' b` gives the markdown text
      `ab\n`) and kept by the corrected reading (`a\nb\n`). A blank first
      line is lost altogether: `#' `, `#' b` gives `b\n`, not `\nb\n`. */
  lemma MarkdownAfterCodeMerges(g: string, ys: seq<string>, a: string, b: string)
    requires AnyContent(Terminated(ys)) && (HasContent(a) || HasContent(b))
    ensures var lines := [Directive(g)] + PlainRun(ys) + ProseRun([a, b]);
      && |Run(Start, lines, false)| == 2 && |Run(Start, lines, true)| == 2
      && Run(Start, lines, false)[1].Markdown? && Run(Start, lines, true)[1].Markdown?
      && MaybeJoin(Run(Start, lines, false)[1].source) == a + b + "\n"
      && MaybeJoin(Run(Start, lines, true)[1].source) == a + "\n" + b + "\n"
  {
    MarkdownAfterCodeText(g, ys, a, b, false);
    MarkdownAfterCodeText(g, ys, a, b, true);
    SeqUnit(a);
  }

  /** The markdown cell after code, for two markdown lines. */
  lemma MarkdownAfterCodeText(g: string, ys: seq<string>, a: string, b: string, corrected: bool)
    requires AnyContent(Terminated(ys)) && (HasContent(a) || HasContent(b))
    ensures var r := Run(Start, [Directive(g)] + PlainRun(ys) + ProseRun([a, b]), corrected);
      && |r| == 2 && r[1].Markdown?
      && MaybeJoin(r[1].source) == a + (if corrected then "\n" else "") + b + "\n"
  {
    var x := a + (if corrected then "\n" else "");
    Pair(a, b);
    assert HasContent([a, b][0]) || HasContent([a, b][1]);
    MarkdownAfterCode(g, ys, [a, b], corrected);
    assert Terminated([b]) == [b + "\n"] by {
      Single(b);
    }
    calc {
      Join([x] + Terminated([b]), "");
      { JoinCons(x, [b + "\n"], ""); Single(b + "\n"); }
      x + "" + (b + "\n");
      { SeqUnit(x); SeqAssoc(x, b, "\n"); }
      x + b + "\n";
    }
  }

  /** A marker line as the writer produces it, newline-terminated. */
  lemma ClassifyWritten(marker: string, x: string)
    requires marker == "#' " || marker == "#+ "
    requires '\n' !in x && Bare(x)
    ensures Classify(marker + x + "\n") == if marker == "#' " then Prose(x) else Directive(x)
  {
    LineGroupComplete(marker + x + "\n", marker, x);
    if marker == "#+ " {
      assert (marker + x + "\n")[..3] != "#' ";
    }
  }

  lemma ClassifyPlain(y: string)
    requires |y| > 0 && y[0] != '#' && '\n' !in y && Bare(y)
    ensures Classify(y + "\n") == Plain(y)
  {
    RStripNewline(y);
  }
}
