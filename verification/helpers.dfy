/** The text helpers of the package (ipyrmd/ipyrmd.py:30-53): joining
    rendered blocks with one empty line between them, and adding or removing
    a line prefix such as the spin marker `#' `. */
module Helpers {
  import opened PyStr
  import opened Notebook

  const Newline: set<char> := {'\n'}

  /** `join_with_emptylines`: `None` stands for the `IndexError` an empty
      list raises at `text[0]`. */
  function JoinWithEmptylines(text: seq<string>): (r: Option<string>)
    ensures r.Some? <==> |text| > 0
    ensures |text| == 1 ==> r == Some(text[0])
  {
    if |text| == 0 then None
    else if |text| == 1 then Some(text[0])
    else Some(JoinFrom(text[0], text[1..]))
  }

  /** The loop of `join_with_emptylines`, from accumulated `result` on. */
  function JoinFrom(result: string, rest: seq<string>): string
    decreases |rest|
  {
    if |rest| == 0 then result
    else JoinFrom(Junction(result, rest[0]), rest[1..])
  }

  /** One loop step: `left.rstrip("\n") + "\n\n" + right.lstrip("\n")`. */
  function Junction(left: string, right: string): string {
    RTrim(left, Newline) + "\n\n" + LTrim(right, Newline)
  }

  /** `prepend_lines`: `prefix` in front of every `\n`-separated line. */
  function PrependLines(text: string, prefix: string): string {
    Join(Prefixed(Split(text, '\n'), prefix), "\n")
  }

  function Prefixed(lines: seq<string>, prefix: string): (r: seq<string>)
    ensures |r| == |lines|
    ensures forall i | 0 <= i < |r| :: r[i] == prefix + lines[i]
  {
    seq(|lines|, i requires 0 <= i < |lines| => prefix + lines[i])
  }

  /** `unprepend_line`: drop `prefix` where the line starts with it. */
  function UnprependLine(x: string, prefix: string): (r: string)
    ensures |prefix| <= |x| && x[..|prefix|] == prefix ==> prefix + r == x
    ensures !(|prefix| <= |x| && x[..|prefix|] == prefix) ==> r == x
  {
    if |prefix| <= |x| && x[..|prefix|] == prefix then x[|prefix|..] else x
  }

  /** `unprepend_lines`: `unprepend_line` on every `\n`-separated line. */
  function UnprependLines(text: string, prefix: string): string {
    Join(Unprefixed(Split(text, '\n'), prefix), "\n")
  }

  function Unprefixed(lines: seq<string>, prefix: string): (r: seq<string>)
    ensures |r| == |lines|
    ensures forall i | 0 <= i < |r| :: r[i] == UnprependLine(lines[i], prefix)
  {
    seq(|lines|, i requires 0 <= i < |lines| => UnprependLine(lines[i], prefix))
  }

  // ---------------------------------------------------------------------
  // join_with_emptylines

  /** The loop taken one more step: appending a block adds exactly one junction. */
  lemma {:induction false} JoinFromSnoc(result: string, rest: seq<string>, x: string)
    ensures JoinFrom(result, rest + [x]) == Junction(JoinFrom(result, rest), x)
    decreases |rest|
  {
    if |rest| == 0 {
      assert rest + [x] == [x];
      Single(x);
    } else {
      assert (rest + [x])[0] == rest[0];
      assert (rest + [x])[1..] == rest[1..] + [x];
      JoinFromSnoc(Junction(result, rest[0]), rest[1..], x);
    }
  }

  /** Each adjacent pair is joined as `left.rstrip("\n") + "\n\n" + right.lstrip("\n")`:
      the result for `n + 1` blocks is the result for the first `n` joined to the last. */
  lemma JoinWithEmptylinesPairs(text: seq<string>)
    requires |text| >= 2
    ensures JoinWithEmptylines(text).Some? && JoinWithEmptylines(text[..|text| - 1]).Some?
    ensures JoinWithEmptylines(text).value
         == RTrim(JoinWithEmptylines(text[..|text| - 1]).value, Newline) + "\n\n" + LTrim(text[|text| - 1], Newline)
  {
    var init := text[..|text| - 1];
    var x := text[|text| - 1];
    assert text[1..] == init[1..] + [x];
    JoinFromSnoc(text[0], init[1..], x);
  }

  /** A block with no newline at either end, and not empty. */
  predicate Clean(b: string) {
    |b| > 0 && b[0] != '\n' && b[|b| - 1] != '\n'
  }

  /** Blocks without leading or trailing newlines come out separated by exactly
      one empty line: the result is `"\n\n".join(text)`. */
  lemma {:induction false} JoinWithEmptylinesClean(text: seq<string>)
    requires |text| >= 1
    requires forall i | 0 <= i < |text| :: Clean(text[i])
    ensures JoinWithEmptylines(text) == Some(Join(text, "\n\n"))
    decreases |text|
  {
    if |text| >= 2 {
      CleanInit(text, text[..|text| - 1]);
      JoinWithEmptylinesClean(text[..|text| - 1]);
      CleanStep(text);
    } else {
      assert Join(text, "\n\n") == text[0];
    }
  }

  lemma CleanInit(text: seq<string>, init: seq<string>)
    requires |text| >= 2 && init == text[..|text| - 1]
    requires forall i | 0 <= i < |text| :: Clean(text[i])
    ensures forall i | 0 <= i < |init| :: Clean(init[i])
  {
    assert forall i | 0 <= i < |init| :: init[i] == text[i];
  }

  /** One more clean block adds one `"\n\n"` and the block. */
  lemma CleanStep(text: seq<string>)
    requires |text| >= 2
    requires forall i | 0 <= i < |text| :: Clean(text[i])
    requires JoinWithEmptylines(text[..|text| - 1]) == Some(Join(text[..|text| - 1], "\n\n"))
    ensures JoinWithEmptylines(text) == Some(Join(text, "\n\n"))
  {
    var init := text[..|text| - 1];
    var x := text[|text| - 1];
    CleanInit(text, init);
    JoinWithEmptylinesPairs(text);
    var j := Join(init, "\n\n");
    JoinEndsLike(init, "\n\n");
    assert Clean(init[|init| - 1]) && Clean(x);
    calc {
      JoinWithEmptylines(text).value;
      RTrim(j, Newline) + "\n\n" + LTrim(x, Newline);
      Junction(j, x);
      { JunctionClean(j, x); }
      j + "\n\n" + x;
      { JoinSnoc(init, x, "\n\n"); }
      Join(init + [x], "\n\n");
      { ButLast(text); }
      Join(text, "\n\n");
    }
  }

  /** Joining a block that ends without a newline to a clean block trims nothing. */
  lemma JunctionClean(j: string, x: string)
    requires |j| > 0 && j[|j| - 1] != '\n' && Clean(x)
    ensures Junction(j, x) == j + "\n\n" + x
  {
    RTrimAt(j, |j|, Newline);
    assert j[..|j|] == j;
    LTrimAt(x, 0, Newline);
    assert x[0..] == x;
    assert Junction(j, x) == RTrim(j, Newline) + "\n\n" + LTrim(x, Newline);
  }

  /** Clean blocks, each its lines joined by newlines, are joined with one
      empty line between them: the text of all the lines, which does not end
      in a newline. */
  lemma BlocksJoined(parts: seq<seq<string>>, bs: seq<string>)
    requires |parts| == |bs| > 0
    requires forall i | 0 <= i < |bs| :: Clean(bs[i]) && |parts[i]| > 0 && Join(parts[i], "\n") == bs[i]
    ensures JoinWithEmptylines(bs) == Some(Join(Sections(parts, ""), "\n"))
    ensures var j := Join(Sections(parts, ""), "\n"); |j| > 0 && j[|j| - 1] != '\n'
  {
    JoinWithEmptylinesClean(bs);
    SectionsJoin(parts, bs);
    JoinCleanEnd(bs, "\n\n");
  }

  /** A join of clean blocks is not empty and does not end in a newline. */
  lemma JoinCleanEnd(parts: seq<string>, sep: string)
    requires |parts| >= 1
    requires forall i | 0 <= i < |parts| :: Clean(parts[i])
    ensures var j := Join(parts, sep); |j| > 0 && j[|j| - 1] != '\n'
  {
    JoinEndsLike(parts, sep);
    assert Clean(parts[|parts| - 1]);
  }

  /** A join of clean blocks ends with the last block's last character. */
  lemma {:induction false} JoinEndsLike(parts: seq<string>, sep: string)
    requires |parts| >= 1
    requires forall i | 0 <= i < |parts| :: Clean(parts[i])
    ensures var j := Join(parts, sep); var last := parts[|parts| - 1];
      |last| > 0 && |j| > 0 && j[|j| - 1] == last[|last| - 1]
    decreases |parts|
  {
    assert Clean(parts[|parts| - 1]);
    if |parts| > 1 {
      JoinEndsLike(parts[1..], sep);
    }
  }

  // ---------------------------------------------------------------------
  // prepend_lines / unprepend_lines

  /** `prepend_lines` keeps the number of lines and puts `prefix` in front of each. */
  lemma PrependLinesLines(text: string, prefix: string)
    requires '\n' !in prefix
    ensures var out := Split(PrependLines(text, prefix), '\n');
      var lines := Split(text, '\n');
      |out| == |lines| && forall i | 0 <= i < |out| :: out[i] == prefix + lines[i]
  {
    var lines := Split(text, '\n');
    var ps := Prefixed(lines, prefix);
    forall i | 0 <= i < |ps| ensures '\n' !in ps[i] {
      assert ps[i] == prefix + lines[i];
    }
    SplitJoin(ps, '\n');
  }

  /** `unprepend_lines` undoes `prepend_lines` for a prefix without newlines. */
  lemma PrependRoundTrip(text: string, prefix: string)
    requires '\n' !in prefix
    ensures UnprependLines(PrependLines(text, prefix), prefix) == text
  {
    var lines := Split(text, '\n');
    PrependLinesLines(text, prefix);
    var back := Unprefixed(Split(PrependLines(text, prefix), '\n'), prefix);
    forall i | 0 <= i < |lines| ensures back[i] == lines[i] {
      var x := prefix + lines[i];
      assert x[..|prefix|] == prefix;
      assert back[i] == UnprependLine(x, prefix);
    }
    assert back == lines;
    JoinSplit(text, '\n');
  }
}
