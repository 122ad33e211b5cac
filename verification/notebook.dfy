/** The notebook side of the converter: cells with their source text and the
    two metadata entries the converter reads and writes (`Rmd_chunk_options`
    on a cell, `Rmd_header` on the notebook), plus what both versions of the
    program define identically: the one-line text helpers `maybe_join` and
    `maybe_newline`, and the writers' choice of header and its block. */
module Notebook {
  import opened PyStr

  datatype Option<T> = None | Some(value: T)

  /** What a YAML loader returns: a document can load as a value or as null. */
  datatype Yaml<V> = Null | Value(v: V)

  /** `cell.source` is either one string or a list of strings. */
  datatype Source = Text(text: string) | Lines(lines: seq<string>)

  /** A notebook cell. `options` is the cell's `Rmd_chunk_options` metadata
      entry when present. Cells of any other type (raw cells) are `Raw`. */
  datatype Cell =
    | Markdown(source: Source, options: Option<string>)
    | Code(source: Source, options: Option<string>)
    | Raw

  /** A notebook: its cells in order and its `Rmd_header` metadata entry
      (`None` when the key is absent). */
  datatype Notebook<V> = Notebook(cells: seq<Cell>, header: Option<Yaml<V>>)

  /** `maybe_join`: a list source is concatenated with no separator. */
  function MaybeJoin(src: Source): string {
    match src
    case Text(s) => s
    case Lines(ls) => Join(ls, "")
  }

  /** `maybe_newline`: put `y` after `x` on a new line, inserting a newline
      only when neither `x` ends with one nor `y` starts with one. */
  function MaybeNewline(x: string, y: string): (r: string)
    ensures |x| + |y| <= |r| <= |x| + |y| + 1
    ensures r[..|x|] == x && r[|r| - |y|..] == y
    ensures |r| == |x| + |y| <==> (|x| > 0 && x[|x| - 1] == '\n') || (|y| > 0 && y[0] == '\n')
    ensures |r| == |x| + |y| + 1 ==> r[|x|] == '\n'
    ensures (|x| > 0 && r[|x| - 1] == '\n') || (|x| < |r| && r[|x|] == '\n')
  {
    if (|x| > 0 && x[|x| - 1] == '\n') || (|y| > 0 && y[0] == '\n') then x + y
    else x + "\n" + y
  }

  /** `read_ipynb`'s header: the explicit argument unless it is `None`, else
      the notebook's `Rmd_header` entry if present, else `None`. */
  function ChosenHeader<V>(explicit: Yaml<V>, stored: Option<Yaml<V>>): Yaml<V> {
    if explicit.Value? then explicit
    else if stored.Some? then stored.value
    else Null
  }

  /** The header block: the dumped YAML (which opens with `---`) and a closing
      `---` on a line of its own. */
  function HeaderBlock(yaml: string): string {
    MaybeNewline(yaml, "---")
  }

  /** A list source adds nothing between its elements. */
  lemma {:induction false} MaybeJoinNoSeparator(ls: seq<string>, x: string)
    ensures MaybeJoin(Lines(ls + [x])) == MaybeJoin(Lines(ls)) + x
  {
    JoinSnoc(ls, x, "");
  }
}
