/** What the readers (R Markdown, ipyrmd/ipyrmd.py:204-240, spin,
    ipyrmd/ipyrmd.py:272-325, and the older script's R Markdown reader,
    ipyrmd.py:158-206) have in common: a two-state machine that collects lines
    into a buffer and emits a cell when the state changes, and for the fenced
    readers the outcome of the fence patterns on each line. */
module Segment {
  import opened PyStr
  import opened Notebook
  import opened Patterns

  /** The reader's state variable: `MD` or `CODE`. */
  datatype Mode = InMarkdown | InCode

  /** The reader's three loop variables: `state`, `celldata` and the
      `Rmd_chunk_options` entry of `meta` (`None` when `meta` is empty). */
  datatype State = State(mode: Mode, buf: seq<string>, opts: Option<string>)

  const Start := State(InMarkdown, [], None)

  /** `add_cell(celltype, celldata, **meta)`. */
  function Emit(mode: Mode, buf: seq<string>, opts: Option<string>): (c: Cell)
    ensures !c.Raw? && c.source == Lines(buf) && c.options == opts
    ensures c.Markdown? <==> mode == InMarkdown
  {
    match mode
    case InMarkdown => Markdown(Lines(buf), opts)
    case InCode => Code(Lines(buf), opts)
  }

  /** After the loop of the fenced readers: an open chunk is emitted
      whatever it holds, prose whenever any line was collected. */
  function Finish(st: State): (cs: seq<Cell>)
    ensures |cs| <= 1
    ensures |cs| == 1 <==> st.mode == InCode || |st.buf| > 0
  {
    if st.mode == InCode || |st.buf| > 0 then [Emit(st.mode, st.buf, st.opts)] else []
  }

  /** `any([c.strip() for c in celldata])`. */
  predicate AnyContent(buf: seq<string>) {
    exists i | 0 <= i < |buf| :: HasContent(buf[i])
  }

  /** A buffer holding one empty line has no visible text. */
  lemma NewlineBlank()
    ensures !AnyContent(["\n"])
  {
    assert !HasContent(["\n"][0]);
  }

  /** The characters `.strip(" ,")` removes from chunk options. */
  const OptionTrim: set<char> := {' ', ','}

  /** `line.rstrip() + "\n"` for every line: how prose lines are stored. */
  function ProseLines(ls: seq<string>): (r: seq<string>)
    ensures |r| == |ls|
    ensures forall i | 0 <= i < |r| :: r[i] == RStrip(ls[i]) + "\n"
  {
    seq(|ls|, i requires 0 <= i < |ls| => RStrip(ls[i]) + "\n")
  }

  /** Code lines as stored: each right-stripped, and each but the last
      followed by a newline, so the cell holds no final newline. */
  function CodeLines(ls: seq<string>): (r: seq<string>)
    ensures |r| == |ls|
    ensures forall i | 0 <= i < |r| - 1 :: r[i] == RStrip(ls[i]) + "\n"
    ensures |r| > 0 ==> r[|r| - 1] == RStrip(ls[|ls| - 1])
  {
    seq(|ls|, i requires 0 <= i < |ls| => RStrip(ls[i]) + (if i < |ls| - 1 then "\n" else ""))
  }

  /** `if len(celldata) > 0: celldata[-1] += "\n"` then `celldata.append(l.rstrip())`. */
  function CodeAppend(buf: seq<string>, l: string): (r: seq<string>)
    ensures |r| == |buf| + 1 && r[|buf|] == RStrip(l)
    ensures forall i | 0 <= i < |buf| - 1 :: r[i] == buf[i]
    ensures |buf| > 0 ==> r[|buf| - 1] == buf[|buf| - 1] + "\n"
  {
    if |buf| > 0 then buf[..|buf| - 1] + [buf[|buf| - 1] + "\n"] + [RStrip(l)]
    else [RStrip(l)]
  }

  // ---------------------------------------------------------------------
  // Fenced documents: each line matched once against both fence patterns

  /** A line together with the outcome of the two fence patterns on it:
      `re_code_start.match(l)` (its group) and `re_code_end.match(l)`. */
  datatype Scanned = Scanned(text: string, open: Option<string>, close: bool)

  /** Every line matched against both fence patterns. */
  function Scan(lines: seq<string>): (r: seq<Scanned>)
    ensures |r| == |lines|
    ensures forall i | 0 <= i < |r| ::
      r[i].text == lines[i] && r[i].open == FenceOpen(lines[i]) && r[i].close == FenceClose(lines[i])
  {
    seq(|lines|, i requires 0 <= i < |lines| => Scanned(lines[i], FenceOpen(lines[i]), FenceClose(lines[i])))
  }

  /** Index of the first opening fence, or `|lines|`. */
  function FirstOpen(lines: seq<Scanned>): (k: nat)
    ensures k <= |lines|
    ensures forall j | 0 <= j < k :: lines[j].open.None?
    ensures k < |lines| ==> lines[k].open.Some?
  {
    if |lines| == 0 || lines[0].open.Some? then 0 else 1 + FirstOpen(lines[1..])
  }

  /** Index of the first closing fence, or `|lines|`. */
  function FirstClose(lines: seq<Scanned>): (k: nat)
    ensures k <= |lines|
    ensures forall j | 0 <= j < k :: !lines[j].close
    ensures k < |lines| ==> lines[k].close
  {
    if |lines| == 0 || lines[0].close then 0 else 1 + FirstClose(lines[1..])
  }

  /** Two scanned lines no fenced reader can tell apart: the same pattern
      outcomes and the same text once right-stripped. */
  predicate SameScan(a: Scanned, b: Scanned) {
    a.open == b.open && a.close == b.close && RStrip(a.text) == RStrip(b.text)
  }

  /** Each line of `ys` is the line of `xs` or that line with a newline added. */
  predicate LinesAlike(xs: seq<string>, ys: seq<string>) {
    |xs| == |ys| && forall i | 0 <= i < |xs| :: ys[i] == xs[i] || ys[i] == xs[i] + "\n"
  }

  /** Lines that differ at most by an added final newline scan alike. */
  lemma ScanAlike(xs: seq<string>, ys: seq<string>)
    requires LinesAlike(xs, ys)
    ensures forall i | 0 <= i < |xs| :: SameScan(Scan(xs)[i], Scan(ys)[i])
  {
    forall i | 0 <= i < |xs| ensures SameScan(Scan(xs)[i], Scan(ys)[i]) {
      if ys[i] != xs[i] {
        FenceOpenNewline(xs[i]);
        FenceCloseNewline(xs[i]);
        RStripNewline(xs[i]);
      }
    }
  }

  /** Scanning is line by line. */
  lemma ScanAppend(a: seq<string>, b: seq<string>)
    ensures Scan(a + b) == Scan(a) + Scan(b)
  {
  }

  /** The text of scanned lines. */
  function Texts(lines: seq<Scanned>): (r: seq<string>)
    ensures |r| == |lines|
    ensures forall i | 0 <= i < |r| :: r[i] == lines[i].text
  {
    seq(|lines|, i requires 0 <= i < |lines| => lines[i].text)
  }

  // ---------------------------------------------------------------------

  /** The texts of lines, the first taken off. */
  lemma TextsCons(pre: seq<string>, lines: seq<Scanned>)
    requires |lines| > 0
    ensures pre + [lines[0].text] + Texts(lines[1..]) == pre + Texts(lines)
  {
    assert Texts(lines) == [lines[0].text] + Texts(lines[1..]);
    SeqAssoc(pre, [lines[0].text], Texts(lines[1..]));
  }

  /** Appending a prose line is storing the longer prose. */
  lemma ProseSnoc(ls: seq<string>, l: string)
    ensures ProseLines(ls) + [RStrip(l) + "\n"] == ProseLines(ls + [l])
  {
    var a := ProseLines(ls) + [RStrip(l) + "\n"];
    var b := ProseLines(ls + [l]);
    forall i | 0 <= i < |a| ensures a[i] == b[i] {
      if i < |ls| {
        assert (ls + [l])[i] == ls[i];
      }
    }
  }

  /** Appending a line to a stored code block is storing the longer block. */
  lemma CodeAppendLines(ls: seq<string>, l: string)
    ensures CodeAppend(CodeLines(ls), l) == CodeLines(ls + [l])
  {
    var a := CodeAppend(CodeLines(ls), l);
    var b := CodeLines(ls + [l]);
    forall i | 0 <= i < |a| ensures a[i] == b[i] {
      if i < |ls| - 1 {
        assert (ls + [l])[i] == ls[i];
      } else if i == |ls| - 1 {
        assert (ls + [l])[i] == ls[i];
      }
    }
  }

  /** A prose line has content exactly when the source line had. */
  lemma ProseLineContent(l: string)
    ensures HasContent(RStrip(l) + "\n") <==> HasContent(l)
  {
    var r := RStrip(l);
    if HasContent(l) {
      var i :| 0 <= i < |l| && l[i] !in Whitespace;
      assert i < |r|;
      assert (r + "\n")[i] == l[i];
    }
    if HasContent(r + "\n") {
      var i :| 0 <= i < |r + "\n"| && (r + "\n")[i] !in Whitespace;
      assert i < |r| && l[i] == r[i];
    }
  }

  /** Prose lines have content exactly when the source lines have. */
  lemma ProseContent(ls: seq<string>)
    ensures AnyContent(ProseLines(ls)) <==> AnyContent(ls)
  {
    var ps := ProseLines(ls);
    forall i | 0 <= i < |ls| ensures HasContent(ps[i]) <==> HasContent(ls[i]) {
      ProseLineContent(ls[i]);
    }
  }

  /** The text of a stored code block is its lines, right-stripped, joined by newlines. */
  lemma {:induction false} CodeLinesText(ls: seq<string>)
    ensures Join(CodeLines(ls), "") == Join(Stripped(ls), "\n")
    decreases |ls|
  {
    if |ls| > 1 {
      var c := CodeLines(ls);
      CodeLinesText(ls[1..]);
      assert c[1..] == CodeLines(ls[1..]);
      assert Stripped(ls)[1..] == Stripped(ls[1..]);
    }
  }

  /** Every line right-stripped. */
  function Stripped(ls: seq<string>): (r: seq<string>)
    ensures |r| == |ls|
    ensures forall i | 0 <= i < |r| :: r[i] == RStrip(ls[i])
  {
    seq(|ls|, i requires 0 <= i < |ls| => RStrip(ls[i]))
  }

  /** Scanning keeps the text. */
  lemma TextsScan(ls: seq<string>)
    ensures Texts(Scan(ls)) == ls
  {
  }

  // ---------------------------------------------------------------------
  // Blocks of fenced lines, as the writers lay them out

  /** The empty line between blocks, matched against the fences. */
  const Blank := Scanned("", None, false)

  /** The empty line before a block, or nothing. */
  function Lead(first: bool): seq<string> {
    if first then [] else [""]
  }

  /** The scanned empty line before a block, or nothing. */
  function LeadScan(first: bool): seq<Scanned> {
    if first then [] else [Blank]
  }

  /** A block of lines that reads as a chunk: an opening fence, lines that do
      not close it, and a closing fence. */
  predicate ChunkPart(p: seq<Scanned>) {
    && |p| >= 2
    && p[0].open.Some?
    && p[|p| - 1].close
    && forall j | 0 < j < |p| - 1 :: !p[j].close
  }

  /** A chunk block between other lines, taken apart into its opening
      fence, its inner lines and its closing fence. */
  lemma ChunkPartSplit(md: seq<Scanned>, p: seq<Scanned>, tail: seq<Scanned>)
    requires ChunkPart(p)
    ensures var body := p[1..|p| - 1];
      && md + p + tail == md + [p[0]] + body + [p[|p| - 1]] + tail
      && forall j | 0 <= j < |body| :: !body[j].close
  {
    var body := p[1..|p| - 1];
    assert p == [p[0]] + body + [p[|p| - 1]];
    SeqAssoc(md, [p[0]] + body, [p[|p| - 1]]);
    SeqAssoc(md, [p[0]], body);
    forall j | 0 <= j < |body| ensures !body[j].close {
      assert body[j] == p[j + 1];
    }
  }

  /** A block of lines that reads as prose: visible text and no opening fence. */
  predicate ProsePart(p: seq<Scanned>) {
    AnyContent(Texts(p)) && forall j | 0 <= j < |p| :: p[j].open.None?
  }

  /** Blocks the reader separates: each a chunk or prose, and no two prose
      blocks in a row. */
  predicate Separable(parts: seq<seq<Scanned>>) {
    && (forall i | 0 <= i < |parts| :: ChunkPart(parts[i]) || ProsePart(parts[i]))
    && forall i | 0 <= i < |parts| - 1 :: ChunkPart(parts[i]) || ChunkPart(parts[i + 1])
  }

  lemma SeparableTail(parts: seq<seq<Scanned>>, k: nat)
    requires Separable(parts) && k <= |parts|
    ensures Separable(parts[k..])
  {
    var t := parts[k..];
    assert forall i | 0 <= i < |t| :: t[i] == parts[i + k];
  }

  /** Every block scanned. */
  function ScanParts(parts: seq<seq<string>>): (r: seq<seq<Scanned>>)
    ensures |r| == |parts|
    ensures forall i | 0 <= i < |parts| :: r[i] == Scan(parts[i])
  {
    seq(|parts|, i requires 0 <= i < |parts| => Scan(parts[i]))
  }

  lemma BlankScan()
    ensures Scan([""]) == [Blank]
  {
    ShortLine("");
  }

  /** A line shorter than three characters is no fence. */
  lemma ShortLine(l: string)
    requires |l| < 3
    ensures FenceOpen(l).None? && !FenceClose(l)
  {
    ShortNoOpen(l);
    ShortNoClose(l);
  }

  lemma ShortNoOpen(l: string)
    requires |l| < 3
    ensures FenceOpen(l).None?
  {
    var t := RStrip(l);
    assert |t| - |LTrim(t, Backtick)| < 3;
  }

  lemma ShortNoClose(l: string)
    requires |l| < 3
    ensures !FenceClose(l)
  {
    assert |l| - |LTrim(l, Backtick)| < 3;
  }

  /** Scanning the file's lines is scanning each block, with the empty line between. */
  lemma {:induction false} ScanSections(parts: seq<seq<string>>)
    ensures Scan(Sections(parts, "")) == Sections(ScanParts(parts), Blank)
    decreases |parts|
  {
    if |parts| > 1 {
      ScanSections(parts[1..]);
      assert ScanParts(parts)[1..] == ScanParts(parts[1..]);
      BlankScan();
      ScanAppend(parts[0] + [""], Sections(parts[1..], ""));
      ScanAppend(parts[0], [""]);
    }
  }

  /** An opening fence, lines that do not close, and a closing fence scan as a
      chunk whose inner text is the lines. */
  lemma CodeBlockScan(start: string, body: seq<string>, end: string)
    requires FenceOpen(start).Some? && FenceClose(end)
    requires forall j | 0 <= j < |body| :: !FenceClose(body[j])
    ensures var ps := Scan([start] + body + [end]);
      ChunkPart(ps) && Texts(ps[1..|ps| - 1]) == body && ps[0].open == FenceOpen(start)
  {
    var ls := [start] + body + [end];
    FencedLines(start, body, end);
    var ps := Scan(ls);
    forall j | 0 < j < |ps| - 1 ensures !ps[j].close {
      assert ps[j].close == FenceClose(body[j - 1]);
    }
    assert ChunkPart(ps);
    TextsScan(ls);
    TextsSlice(ps, 1, |ps| - 1);
  }

  /** The lines of a fenced block, taken apart. */
  lemma FencedLines(start: string, body: seq<string>, end: string)
    ensures var ls := [start] + body + [end];
      && |ls| == |body| + 2 && ls[0] == start && ls[|ls| - 1] == end
      && ls[1..|ls| - 1] == body
      && forall j | 0 < j < |ls| - 1 :: ls[j] == body[j - 1]
  {
    var ls := [start] + body + [end];
    assert ls[1..|ls| - 1] == body;
  }

  /** The text of a slice is the slice of the text. */
  lemma TextsSlice(ps: seq<Scanned>, a: nat, b: nat)
    requires a <= b <= |ps|
    ensures Texts(ps[a..b]) == Texts(ps)[a..b]
  {
  }

  lemma EndFence()
    ensures FenceClose("```")
  {
    LTrimAt("```", 3, Backtick);
  }

  /** The lines of code text between the fences. */
  function BodyLines(s: string): seq<string> {
    if s == "" then [] else Split(s, '\n')
  }

  /** A fenced block, `maybe_newline` twice, is its lines joined by newlines
      when the text has no newline at either end. */
  lemma FencedJoin(start: string, s: string)
    requires |start| > 0 && start[|start| - 1] != '\n'
    requires s == "" || (s[0] != '\n' && s[|s| - 1] != '\n')
    ensures Join([start] + BodyLines(s) + ["```"], "\n") == MaybeNewline(MaybeNewline(start, s), "```")
  {
    if s == "" {
      assert [start] + BodyLines(s) + ["```"] == [start, "```"];
      assert MaybeNewline(start, s) == start + "\n";
    } else {
      JoinSplit(s, '\n');
      JoinAppend([start], Split(s, '\n'), "\n");
      JoinAppend([start] + Split(s, '\n'), ["```"], "\n");
      assert MaybeNewline(start, s) == start + "\n" + s;
      assert MaybeNewline(start + "\n" + s, "```") == start + "\n" + s + "\n" + "```";
    }
  }

  // ---------------------------------------------------------------------
  // Reading back joined lines

  /** Reading lines from the joined text gives the lines back, the last
      without a newline, the others with one. */
  lemma ReadLinesAlike(d: seq<string>, t: string)
    requires |d| > 0 && forall j | 0 <= j < |d| :: '\n' !in d[j]
    requires t == Join(d, "\n") && |t| > 0 && t[|t| - 1] != '\n'
    ensures LinesAlike(d, ReadLines(t))
  {
    ReadLinesFinal(t);
    ReadLinesSplit(t);
    SplitJoin(d, '\n');
    AlikeFromTerminated(d, ReadLines(t));
  }

  lemma AlikeFromTerminated(d: seq<string>, r: seq<string>)
    requires |r| > 0 && Terminated(d) == r[..|r| - 1] + [r[|r| - 1] + "\n"]
    ensures LinesAlike(d, r)
  {
    var n := |r|;
    assert |d| == n;
    forall j | 0 <= j < n ensures r[j] == d[j] || r[j] == d[j] + "\n" {
      if j < n - 1 {
        assert Terminated(d)[j] == r[j];
      } else {
        assert r[j] + "\n" == d[j] + "\n";
        assert r[j] == (r[j] + "\n")[..|r[j]|];
      }
    }
  }

  // ---------------------------------------------------------------------
  // Prose blocks between the empty lines

  /** The scanned lead is blank prose. */
  lemma LeadBlank(first: bool)
    ensures forall j | 0 <= j < |LeadScan(first)| :: LeadScan(first)[j].open.None?
    ensures !AnyContent(Texts(LeadScan(first)))
    ensures Texts(LeadScan(first)) == Lead(first)
  {
    if !first {
      assert Texts(LeadScan(first)) == [""];
    }
  }

  /** Prose with the empty lines around it: no opening fence, visible text. */
  lemma ProseAround(first: bool, p: seq<Scanned>, last: bool)
    requires ProsePart(p)
    ensures var md := LeadScan(first) + p + LeadScan(last);
      && (forall j | 0 <= j < |md| :: md[j].open.None?)
      && AnyContent(Texts(md))
      && Texts(md) == Lead(first) + Texts(p) + Lead(last)
  {
    var lead := LeadScan(first);
    var md := lead + p + LeadScan(last);
    LeadBlank(first);
    LeadBlank(last);
    forall j | 0 <= j < |md| ensures md[j].open.None? {
      if |lead| <= j < |lead| + |p| {
        assert md[j] == p[j - |lead|];
      }
    }
    var k :| 0 <= k < |p| && HasContent(Texts(p)[k]);
    assert Texts(md)[k + |lead|] == Texts(p)[k];
  }

  /** The lines of the blocks after a lead: the first block, then the rest
      after an empty line. */
  lemma SectionsAfterLead(parts: seq<seq<Scanned>>, lead: seq<Scanned>)
    requires |parts| > 0
    ensures var tail := if |parts| == 1 then [] else [Blank] + Sections(parts[1..], Blank);
      lead + Sections(parts, Blank) == lead + parts[0] + tail
  {
    var tail := if |parts| == 1 then [] else [Blank] + Sections(parts[1..], Blank);
    SectionsFront(parts, Blank);
    SeqAssoc(lead, parts[0], tail);
  }

  lemma ProseThenChunkLines(parts: seq<seq<Scanned>>, lead: seq<Scanned>)
    requires |parts| > 1
    ensures var tail := if |parts| == 2 then [] else [Blank] + Sections(parts[2..], Blank);
      lead + Sections(parts, Blank) == lead + parts[0] + [Blank] + parts[1] + tail
  {
    var tail := if |parts| == 2 then [] else [Blank] + Sections(parts[2..], Blank);
    var p0 := parts[0];
    var p1 := parts[1];
    assert Sections(parts[1..], Blank) == p1 + tail by {
      SectionsFront(parts[1..], Blank);
      assert parts[1..][1..] == parts[2..];
    }
    calc {
      lead + Sections(parts, Blank);
      == { SectionsFront(parts, Blank); }
      lead + (p0 + ([Blank] + (p1 + tail)));
      == { SeqAssoc(p0, [Blank], p1 + tail); SeqAssoc(lead, p0 + [Blank], p1 + tail); }
      (lead + (p0 + [Blank])) + (p1 + tail);
      == { SeqAssoc(lead, p0, [Blank]); SeqAssoc(lead + p0 + [Blank], p1, tail); }
      lead + p0 + [Blank] + p1 + tail;
    }
  }
}
