/** Writing a notebook as R Markdown (`ipynb_to_rmd` with `read_ipynb`,
    ipyrmd/ipyrmd.py:64-120): the YAML header block first when there is one,
    then one block per markdown or code cell, joined with
    `join_with_emptylines`. */
module RmdWrite {
  import opened PyStr
  import opened Notebook
  import opened Helpers

  /** The opening fence written for a code cell's options. */
  function CodeStart(opts: Option<string>): string {
    match opts
    case None => "```{r}"
    case Some(o) => "```{r, " + o + "}"
  }

  /** A code cell: opening fence, source, closing fence, each on its own line. */
  function CodeBlock(src: string, opts: Option<string>): (b: string)
    ensures CodeStart(opts) <= b && |CodeStart(opts)| < |b| && b[|CodeStart(opts)|] == '\n'
    ensures |b| >= |CodeStart(opts)| + 4 && b[|b| - 4..] == "\n```"
  {
    var start := CodeStart(opts);
    var text := MaybeNewline(start, src);
    assert start[|start| - 1] == '}';
    FirstBreak(start, src);
    LastFence(text);
    MaybeNewline(text, "```")
  }

  /** A first line without a final newline is followed by one. */
  lemma FirstBreak(start: string, src: string)
    requires |start| > 0 && start[|start| - 1] != '\n'
    ensures var text := MaybeNewline(start, src);
      start <= text && |start| < |text| && text[|start|] == '\n'
  {
    var text := MaybeNewline(start, src);
    assert text[|start| - 1] == start[|start| - 1];
  }

  /** The closing fence comes on a line of its own. */
  lemma LastFence(text: string)
    requires |text| > 0
    ensures var b := MaybeNewline(text, "```");
      text <= b && |b| >= |text| + 3 && b[|b| - 4..] == "\n```"
  {
    var b := MaybeNewline(text, "```");
    assert b[|b| - 4] == '\n' by {
      if |b| == |text| + 3 {
        assert b[|b| - 4] == b[..|text|][|text| - 1];
      }
    }
    assert b[|b| - 4..] == [b[|b| - 4]] + b[|b| - 3..];
  }

  /** The block a markdown or code cell contributes. */
  function Block(c: Cell): string
    requires !c.Raw?
  {
    match c
    case Markdown(src, _) => MaybeJoin(src)
    case Code(src, opts) => CodeBlock(MaybeJoin(src), opts)
  }

  /** The blocks of the cells in order; cells of other types contribute none. */
  function CellBlocks(cells: seq<Cell>): (bs: seq<string>)
    ensures |bs| <= |cells|
    ensures |bs| == 0 <==> forall i | 0 <= i < |cells| :: cells[i].Raw?
    ensures (forall i | 0 <= i < |cells| :: !cells[i].Raw?) ==>
      |bs| == |cells| && forall i | 0 <= i < |cells| :: bs[i] == Block(cells[i])
    decreases |cells|
  {
    if |cells| == 0 then []
    else
      var rest := CellBlocks(cells[1..]);
      assert forall i | 1 <= i < |cells| :: cells[i] == cells[1..][i - 1];
      if cells[0].Raw? then rest else [Block(cells[0])] + rest
  }

  /** All blocks of the document: the header block, if any, then the cells'. */
  function RmdBlocks<V>(nb: Notebook<V>, explicit: Yaml<V>, dump: V -> string): seq<string> {
    match ChosenHeader(explicit, nb.header)
    case Value(v) => [HeaderBlock(dump(v))] + CellBlocks(nb.cells)
    case Null => CellBlocks(nb.cells)
  }

  /** `ipynb_to_rmd`: the text written, or `None` where `join_with_emptylines`
      raises on an empty block list. `dump` is `yaml.dump(·, explicit_start=True)`. */
  function IpynbToRmd<V>(nb: Notebook<V>, explicit: Yaml<V>, dump: V -> string): (out: Option<string>)
    ensures out.None? <==>
      ChosenHeader(explicit, nb.header).Null? && forall i | 0 <= i < |nb.cells| :: nb.cells[i].Raw?
    ensures ChosenHeader(explicit, nb.header).Value? ==>
      out.Some? && HeaderBlock(dump(ChosenHeader(explicit, nb.header).v)) <= out.value
  {
    var blocks := RmdBlocks(nb, explicit, dump);
    var h := ChosenHeader(explicit, nb.header);
    if h.Value? then
      HeaderFirst(HeaderBlock(dump(h.v)), CellBlocks(nb.cells));
      JoinWithEmptylines(blocks)
    else
      JoinWithEmptylines(blocks)
  }

  // ---------------------------------------------------------------------

  /** A header block ends with `---`, so `join_with_emptylines` keeps it whole
      at the front of the output. */
  lemma HeaderFirst(hb: string, rest: seq<string>)
    requires |hb| >= 3 && hb[|hb| - 3..] == "---"
    ensures JoinWithEmptylines([hb] + rest).Some?
    ensures hb <= JoinWithEmptylines([hb] + rest).value
  {
    RTrimAt(hb, |hb|, Newline);
    ConsSplit([hb], rest);
    JoinFromKeepsFront(hb, rest);
  }

  /** The loop of `join_with_emptylines` never changes what it accumulated
      except for newlines at its end. */
  lemma {:induction false} JoinFromKeepsFront(result: string, rest: seq<string>)
    ensures RTrim(result, Newline) <= JoinFrom(result, rest)
    decreases |rest|
  {
    if |rest| > 0 {
      var j := Junction(result, rest[0]);
      JoinFromKeepsFront(j, rest[1..]);
      RTrimKeepsFront(RTrim(result, Newline), "\n\n" + LTrim(rest[0], Newline));
      assert j == RTrim(result, Newline) + ("\n\n" + LTrim(rest[0], Newline));
    }
  }

  /** Right-stripping newlines from `a + b`, where `a` does not end in one,
      keeps all of `a`. */
  lemma RTrimKeepsFront(a: string, b: string)
    requires |a| == 0 || a[|a| - 1] != '\n'
    ensures a <= RTrim(a + b, Newline)
  {
    var r := RTrim(a + b, Newline);
    if |a| > 0 {
      assert (a + b)[|a| - 1] == a[|a| - 1];
      assert (a + b)[|a| - 1] !in Newline;
    }
    assert |a| <= |r|;
    assert r == (a + b)[..|r|];
  }

  /** An explicit header replaces whatever the notebook stores. */
  lemma ExplicitHeaderWins<V>(nb: Notebook<V>, v: V, dump: V -> string)
    ensures IpynbToRmd(nb, Value(v), dump) == IpynbToRmd(Notebook(nb.cells, Some(Value(v))), Null, dump)
    ensures forall stored: Option<Yaml<V>> ::
      IpynbToRmd(nb, Value(v), dump) == IpynbToRmd(Notebook(nb.cells, stored), Value(v), dump)
  {
  }

  /** A stored header that loaded as YAML null is not written. */
  lemma NullHeaderNotWritten<V>(cells: seq<Cell>, dump: V -> string)
    ensures IpynbToRmd(Notebook(cells, Some(Null)), Null, dump) == IpynbToRmd(Notebook(cells, None), Null, dump)
  {
  }

  /** Dropping a cell of another type leaves the blocks unchanged. */
  lemma {:induction false} RawCellsIgnored(cells: seq<Cell>, i: nat)
    requires i < |cells| && cells[i].Raw?
    ensures CellBlocks(cells[..i] + cells[i + 1..]) == CellBlocks(cells)
    decreases i
  {
    if i == 0 {
      assert cells[..0] + cells[1..] == cells[1..];
    } else {
      var rest := cells[1..];
      assert rest[..i - 1] + rest[i..] == (cells[..i] + cells[i + 1..])[1..];
      RawCellsIgnored(rest, i - 1);
    }
  }
}
