/** YAML front matter: finding the delimiter lines and cutting the header block
    out of the line list (ipyrmd/ipyrmd.py:170-181 for R Markdown,
    ipyrmd/ipyrmd.py:257-270 for spin). Only the first two delimiter lines of
    the whole file count, and only when they are not adjacent. */
module FrontMatter {
  import opened PyStr
  import opened Notebook
  import opened Patterns
  import opened Helpers

  const RmdDelim := "---"
  const SpinDelim := "#' ---"

  /** A header block the YAML loader was given, and the lines left to segment.
      `header` is `None` when no `Rmd_header` entry is set. */
  datatype Parted<V> = Parted(header: Option<Yaml<V>>, body: seq<string>)

  /** `[i for i, l in enumerate(lines) if re_yaml_delim.match(l)]`, from `i` on. */
  function DelimIndices(lines: seq<string>, marker: string, i: nat := 0): (ds: seq<nat>)
    requires i <= |lines|
    ensures forall k | 0 <= k < |ds| :: i <= ds[k] < |lines| && DelimLine(lines[ds[k]], marker)
    ensures forall k, k' | 0 <= k < k' < |ds| :: ds[k] < ds[k']
    ensures forall j | i <= j < |lines| && DelimLine(lines[j], marker) :: j in ds
    decreases |lines| - i
  {
    if i == |lines| then []
    else (if DelimLine(lines[i], marker) then [i] else []) + DelimIndices(lines, marker, i + 1)
  }

  /** `a` and `b` are the first two delimiter lines of the file. */
  ghost predicate FirstTwo(lines: seq<string>, marker: string, a: nat, b: nat) {
    && a < b < |lines|
    && DelimLine(lines[a], marker)
    && DelimLine(lines[b], marker)
    && forall i | 0 <= i < b && i != a :: !DelimLine(lines[i], marker)
  }

  /** The line numbers of the header block's delimiters, when the file has one:
      at least two delimiter lines and the first two not adjacent. */
  function HeaderBounds(lines: seq<string>, marker: string): (r: Option<(nat, nat)>)
    ensures r.Some? ==> FirstTwo(lines, marker, r.value.0, r.value.1) && r.value.0 + 1 < r.value.1
    ensures forall a: nat, b: nat | FirstTwo(lines, marker, a, b) ::
      (r.Some? <==> a + 1 < b) && (r.Some? ==> r.value == (a, b))
  {
    var ds := DelimIndices(lines, marker);
    FirstTwoAreFirst(lines, marker, ds);
    if |ds| >= 2 && ds[1] - ds[0] > 1 then Some((ds[0], ds[1])) else None
  }

  lemma FirstTwoAreFirst(lines: seq<string>, marker: string, ds: seq<nat>)
    requires ds == DelimIndices(lines, marker)
    ensures |ds| >= 2 ==> FirstTwo(lines, marker, ds[0], ds[1])
    ensures forall a: nat, b: nat | FirstTwo(lines, marker, a, b) :: |ds| >= 2 && a == ds[0] && b == ds[1]
  {
    if |ds| >= 2 {
      FirstTwoOfIndices(lines, marker, ds);
    }
    forall a: nat, b: nat | FirstTwo(lines, marker, a, b) ensures |ds| >= 2 && a == ds[0] && b == ds[1] {
      FirstTwoUnique(lines, marker, ds, a, b);
    }
  }

  /** The first two collected indices are the first two delimiters. */
  lemma FirstTwoOfIndices(lines: seq<string>, marker: string, ds: seq<nat>)
    requires ds == DelimIndices(lines, marker) && |ds| >= 2
    ensures FirstTwo(lines, marker, ds[0], ds[1])
  {
    forall i | 0 <= i < ds[1] && i != ds[0] ensures !DelimLine(lines[i], marker) {
      forall k | 0 <= k < |ds| ensures ds[k] != i {
        if k >= 1 {
          assert ds[1] <= ds[k];
        }
      }
      assert i !in ds;
    }
  }

  /** Any pair satisfying `FirstTwo` is the first two collected indices. */
  lemma FirstTwoUnique(lines: seq<string>, marker: string, ds: seq<nat>, a: nat, b: nat)
    requires ds == DelimIndices(lines, marker) && FirstTwo(lines, marker, a, b)
    ensures |ds| >= 2 && a == ds[0] && b == ds[1]
  {
    assert a in ds && b in ds;
    var ka :| 0 <= ka < |ds| && ds[ka] == a;
    var kb :| 0 <= kb < |ds| && ds[kb] == b;
    assert ds[0] <= ds[ka];
    assert DelimLine(lines[ds[0]], marker);
    assert ds[0] == a;
    assert kb >= 1;
    assert ds[1] <= ds[kb];
    assert DelimLine(lines[ds[1]], marker) && a < ds[1];
  }

  /** The R Markdown header split: the header text handed to the loader is the
      lines strictly between the delimiters joined by `\n`; the lines from the
      first delimiter through the second are removed whether or not loading
      succeeds, and a loading failure sets no header. */
  function RmdFrontMatter<V>(lines: seq<string>, load: string -> Option<Yaml<V>>): (r: Parted<V>)
    ensures forall a: nat, b: nat | FirstTwo(lines, RmdDelim, a, b) && a + 1 < b ::
      && r.body == lines[..a] + lines[b + 1..]
      && r.header == load(Join(lines[a + 1..b], "\n"))
    ensures (forall a: nat, b: nat | FirstTwo(lines, RmdDelim, a, b) :: b == a + 1) ==> r == Parted(None, lines)
  {
    var hb := HeaderBounds(lines, RmdDelim);
    if hb.None? then Parted(None, lines)
    else
      var a, b := hb.value.0, hb.value.1;
      Parted(load(Join(lines[a + 1..b], "\n")), lines[..a] + lines[b + 1..])
  }

  /** The text of a spin header block as the loader sees it. */
  function SpinYaml(block: seq<string>): string {
    UnprependLines(Join(block, "\n"), "#' ")
  }

  /** The spin header split: as for R Markdown, with `#' ---` delimiters and
      the `#' ` prefix taken off the header lines before loading. */
  function SpinFrontMatter<V>(lines: seq<string>, load: string -> Option<Yaml<V>>): (r: Parted<V>)
    ensures forall a: nat, b: nat | FirstTwo(lines, SpinDelim, a, b) && a + 1 < b ::
      && r.body == lines[..a] + lines[b + 1..]
      && r.header == load(SpinYaml(lines[a + 1..b]))
    ensures (forall a: nat, b: nat | FirstTwo(lines, SpinDelim, a, b) :: b == a + 1) ==> r == Parted(None, lines)
  {
    var hb := HeaderBounds(lines, SpinDelim);
    if hb.None? then Parted(None, lines)
    else
      var a, b := hb.value.0, hb.value.1;
      Parted(load(SpinYaml(lines[a + 1..b])), lines[..a] + lines[b + 1..])
  }

  /** Only which lines are delimiters decides where the header block is. */
  lemma {:induction false} DelimIndicesAgree(xs: seq<string>, ys: seq<string>, marker: string, i: nat)
    requires |xs| == |ys| && i <= |xs|
    requires forall j | 0 <= j < |xs| :: DelimLine(xs[j], marker) == DelimLine(ys[j], marker)
    ensures DelimIndices(xs, marker, i) == DelimIndices(ys, marker, i)
    decreases |xs| - i
  {
    if i < |xs| {
      var d := DelimLine(xs[i], marker);
      assert d == DelimLine(ys[i], marker);
      DelimIndicesAgree(xs, ys, marker, i + 1);
    }
  }

  lemma HeaderBoundsAgree(xs: seq<string>, ys: seq<string>, marker: string)
    requires |xs| == |ys|
    requires forall j | 0 <= j < |xs| :: DelimLine(xs[j], marker) == DelimLine(ys[j], marker)
    ensures HeaderBounds(xs, marker) == HeaderBounds(ys, marker)
  {
    DelimIndicesAgree(xs, ys, marker, 0);
  }

  // ---------------------------------------------------------------------
  // Lines without delimiters

  /** Lines that hold no newline and no header delimiter. */
  predicate LinesPlain(ls: seq<string>) {
    forall j | 0 <= j < |ls| :: '\n' !in ls[j] && !DelimLine(ls[j], RmdDelim)
  }

  /** Lines free of newlines and delimiters stay so when sectioned. */
  lemma {:induction false} SectionsPlain(parts: seq<seq<string>>)
    requires forall i | 0 <= i < |parts| :: LinesPlain(parts[i])
    ensures LinesPlain(Sections(parts, ""))
    decreases |parts|
  {
    if |parts| > 1 {
      var b := parts[0];
      var rest := Sections(parts[1..], "");
      assert forall i | 0 <= i < |parts| - 1 :: parts[1..][i] == parts[i + 1];
      SectionsPlain(parts[1..]);
      assert LinesPlain(b) && LinesPlain([""]) && LinesPlain(rest);
      PlainAppend(b, [""]);
      PlainAppend(b + [""], rest);
    }
  }

  /** The closing fence of a code chunk is no delimiter. */
  lemma FenceEndPlain()
    ensures LinesPlain(["```"])
  {
    Single("```");
    NotDelim("```", RmdDelim);
  }

  /** A line whose first character differs from the marker's is no delimiter. */
  lemma NotDelim(l: string, marker: string)
    requires 0 < |marker| <= |l| && l[0] != marker[0]
    ensures !DelimLine(l, marker)
  {
    assert l[..|marker|][0] == l[0];
  }

  /** A fenced block is plain when its opening line and its body are. */
  lemma FencedPlain(start: string, ls: seq<string>)
    requires '\n' !in start && !DelimLine(start, RmdDelim)
    requires LinesPlain(ls)
    ensures LinesPlain([start] + ls + ["```"])
  {
    assert [start][0] == start;
    FenceEndPlain();
    PlainAppend([start], ls);
    PlainAppend([start] + ls, ["```"]);
  }

  lemma PlainAppend(a: seq<string>, b: seq<string>)
    requires LinesPlain(a) && LinesPlain(b)
    ensures LinesPlain(a + b)
  {
    forall j | 0 <= j < |a + b| ensures '\n' !in (a + b)[j] && !DelimLine((a + b)[j], RmdDelim) {
      if j < |a| { assert (a + b)[j] == a[j]; } else { assert (a + b)[j] == b[j - |a|]; }
    }
  }
}
