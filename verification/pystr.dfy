/** Python `str` behaviour the converter relies on: `strip`/`rstrip`/`lstrip`
    (with and without a character argument), `split("\n")`, `sep.join(...)`
    and the line splitting of `file.readlines()`. Whitespace is the ASCII part
    of what Python's `str.isspace` and the regex class `\s` accept: space,
    tab, the four line breaks `\n`, `\r`, `\v`, `\f`, and the four
    separators U+001C to U+001F. */
module PyStr {

  /** Characters Python treats as whitespace (ASCII part only). */
  const Whitespace: set<char> :=
    {' ', '\t', '\n', '\r', '\U{000B}', '\U{000C}', '\U{001C}', '\U{001D}', '\U{001E}', '\U{001F}'}

  /** Every character of `s` belongs to `cs`. */
  predicate AllIn(s: string, cs: set<char>) {
    forall i | 0 <= i < |s| :: s[i] in cs
  }

  /** `s` has a character that is not whitespace, i.e. `s.strip()` is truthy. */
  predicate HasContent(s: string) {
    exists i | 0 <= i < |s| :: s[i] !in Whitespace
  }

  /** Index of the first character at or after `i` that is not in `cs`. */
  function SkipForward(s: string, cs: set<char>, i: nat): (k: nat)
    requires i <= |s|
    ensures i <= k <= |s|
    ensures forall j | i <= j < k :: s[j] in cs
    ensures k == |s| || s[k] !in cs
    decreases |s| - i
  {
    if i < |s| && s[i] in cs then SkipForward(s, cs, i + 1) else i
  }

  /** Index just past the last character before `e` that is not in `cs`. */
  function SkipBackward(s: string, cs: set<char>, e: nat): (k: nat)
    requires e <= |s|
    ensures k <= e
    ensures forall j | k <= j < e :: s[j] in cs
    ensures k == 0 || s[k - 1] !in cs
  {
    if e > 0 && s[e - 1] in cs then SkipBackward(s, cs, e - 1) else e
  }

  /** `s.rstrip(cs)`: the longest prefix of `s` after which only `cs` follows. */
  function RTrim(s: string, cs: set<char>): (r: string)
    ensures |r| <= |s| && r == s[..|r|]
    ensures forall i | |r| <= i < |s| :: s[i] in cs
    ensures |r| == 0 || s[|r| - 1] !in cs
  {
    s[..SkipBackward(s, cs, |s|)]
  }

  /** `s.lstrip(cs)`: the longest suffix of `s` before which only `cs` stands. */
  function LTrim(s: string, cs: set<char>): (r: string)
    ensures |r| <= |s| && r == s[|s| - |r|..]
    ensures forall i | 0 <= i < |s| - |r| :: s[i] in cs
    ensures |r| == 0 || s[|s| - |r|] !in cs
  {
    s[SkipForward(s, cs, 0)..]
  }

  /** `s.strip(cs)`. */
  function Trim(s: string, cs: set<char>): string {
    LTrim(RTrim(s, cs), cs)
  }

  /** `s.rstrip()` with no argument. */
  function RStrip(s: string): string {
    RTrim(s, Whitespace)
  }

  /** `s.strip()` with no argument. */
  function Strip(s: string): string {
    Trim(s, Whitespace)
  }

  /** `"".join(...)`-style concatenation with a separator: `sep.join(parts)`. */
  function Join(parts: seq<string>, sep: string): string {
    if |parts| == 0 then ""
    else if |parts| == 1 then parts[0]
    else parts[0] + sep + Join(parts[1..], sep)
  }

  /** Position of the first `c` in `s`, or `|s|` when there is none. */
  function Find(s: string, c: char): (i: nat)
    ensures i <= |s| && (i < |s| ==> s[i] == c)
    ensures forall j | 0 <= j < i :: s[j] != c
  {
    if |s| == 0 || s[0] == c then 0 else 1 + Find(s[1..], c)
  }

  /** `s.split(c)` for a one-character separator. */
  function Split(s: string, c: char): (r: seq<string>)
    ensures |r| >= 1
    ensures forall i | 0 <= i < |r| :: c !in r[i]
    decreases |s|
  {
    var i := Find(s, c);
    if i == |s| then [s]
    else [s[..i]] + Split(s[i + 1..], c)
  }

  /** `file.readlines()` on text `s`: the text cut after every newline. */
  function ReadLines(s: string): seq<string>
    decreases |s|
  {
    var i := Find(s, '\n');
    if i == |s| then (if s == "" then [] else [s])
    else [s[..i + 1]] + ReadLines(s[i + 1..])
  }

  /** Each line `readlines()` gives is non-empty with a newline at most at
      its end, and every line but the last ends with one. */
  lemma {:induction false} ReadLinesShape(s: string)
    ensures LinesShaped(ReadLines(s))
    decreases |s|
  {
    var i := Find(s, '\n');
    if i < |s| {
      ReadLinesCut(s, i);
      ReadLinesShape(s[i + 1..]);
      FirstLineShape(s, i);
      ShapedCons(s[..i + 1], ReadLines(s[i + 1..]));
    } else if s != "" {
      assert forall j | 0 <= j < |s| - 1 :: s[..|s| - 1][j] == s[j];
    }
  }

  /** Lines as `readlines()` gives them. */
  predicate LinesShaped(r: seq<string>) {
    && (forall i | 0 <= i < |r| :: |r[i]| > 0 && '\n' !in r[i][..|r[i]| - 1])
    && (forall i | 0 <= i < |r| - 1 :: r[i][|r[i]| - 1] == '\n')
  }

  lemma FirstLineShape(s: string, i: nat)
    requires i < |s| && s[i] == '\n' && forall j | 0 <= j < i :: s[j] != '\n'
    ensures var x := s[..i + 1]; |x| > 0 && x[|x| - 1] == '\n' && '\n' !in x[..|x| - 1]
  {
    var x := s[..i + 1];
    assert x[..|x| - 1] == s[..i];
    assert forall j | 0 <= j < i :: s[..i][j] == s[j];
  }

  lemma ShapedCons(x: string, r: seq<string>)
    requires |x| > 0 && x[|x| - 1] == '\n' && '\n' !in x[..|x| - 1]
    requires LinesShaped(r)
    ensures LinesShaped([x] + r)
  {
    var t := [x] + r;
    assert forall k | 1 <= k < |t| :: t[k] == r[k - 1];
  }

  // ---------------------------------------------------------------------
  // Characterisations of the trimming functions

  /** `rstrip` cuts exactly at `e` when only `cs` follows and `s[e-1]` is outside `cs`. */
  lemma RTrimAt(s: string, e: nat, cs: set<char>)
    requires e <= |s| && (e == 0 || s[e - 1] !in cs)
    requires forall i | e <= i < |s| :: s[i] in cs
    ensures RTrim(s, cs) == s[..e]
  {
  }

  /** `lstrip` cuts exactly at `k` when only `cs` precedes and `s[k]` is outside `cs`. */
  lemma LTrimAt(s: string, k: nat, cs: set<char>)
    requires k <= |s| && (k == |s| || s[k] !in cs)
    requires forall i | 0 <= i < k :: s[i] in cs
    ensures LTrim(s, cs) == s[k..]
  {
  }

  /** `s.strip(cs)` is a slice of `s` with only `cs` cut off on either side,
      and it neither starts nor ends with a character of `cs`. */
  lemma TrimShape(s: string, cs: set<char>)
    ensures var t := Trim(s, cs);
      exists i: nat, j: nat | i <= j <= |s| :: t == s[i..j] && AllIn(s[..i], cs) && AllIn(s[j..], cs)
    ensures var t := Trim(s, cs); |t| > 0 ==> t[0] !in cs && t[|t| - 1] !in cs
  {
    var r := RTrim(s, cs);
    var t := LTrim(r, cs);
    var i, j := |r| - |t|, |r|;
    assert t == s[i..j];
    assert AllIn(s[..i], cs) by {
      forall k | 0 <= k < i ensures s[..i][k] in cs {
        assert s[..i][k] == r[k];
      }
    }
    assert AllIn(s[j..], cs) by {
      forall k | 0 <= k < |s| - j ensures s[j..][k] in cs {
        assert s[j..][k] == s[j + k];
      }
    }
    if |t| > 0 {
      assert t[|t| - 1] == s[j - 1];
    }
  }

  /** `s.strip()` is empty exactly when `s` holds only whitespace. */
  lemma StripEmptyIffBlank(s: string)
    ensures Strip(s) == "" <==> !HasContent(s)
  {
    var t := RTrim(s, Whitespace);
    var u := LTrim(t, Whitespace);
    if u == "" {
      forall i | 0 <= i < |s| ensures s[i] in Whitespace {
        if i >= |t| {
          assert s[|t|..][i - |t|] == s[i];
        } else {
          assert t[..|t| - |u|][i] == t[i] == s[i];
        }
      }
    } else {
      assert u[0] == t[|t| - |u|] == s[|t| - |u|];
    }
  }

  /** `s.strip()` neither starts nor ends with whitespace. */
  lemma StripEnds(s: string)
    ensures var u := Strip(s); |u| > 0 ==> u[0] !in Whitespace && u[|u| - 1] !in Whitespace
  {
    var t := RTrim(s, Whitespace);
    var u := LTrim(t, Whitespace);
    if |u| > 0 {
      assert u[|u| - 1] == t[|t| - 1] == s[|t| - 1];
    }
  }

  // ---------------------------------------------------------------------
  // split / join

  lemma {:induction false} JoinSplit(s: string, c: char)
    ensures Join(Split(s, c), [c]) == s
    decreases |s|
  {
    var i := Find(s, c);
    if i < |s| {
      SplitCut(s, c, i);
      JoinSplit(s[i + 1..], c);
      JoinCons(s[..i], Split(s[i + 1..], c), [c]);
      assert s == s[..i] + [c] + s[i + 1..];
    } else {
      assert Split(s, c) == [s];
    }
  }

  /** `split` undoes `join` when no part holds the separator. */
  lemma {:induction false} SplitJoin(parts: seq<string>, c: char)
    requires |parts| >= 1
    requires forall i | 0 <= i < |parts| :: c !in parts[i]
    ensures Split(Join(parts, [c]), c) == parts
    decreases |parts|
  {
    var p := parts[0];
    assert forall j | 0 <= j < |p| :: p[j] != c;
    if |parts| > 1 {
      var s := Join(parts, [c]);
      var rest := Join(parts[1..], [c]);
      assert s == p + [c] + rest;
      var i := |p|;
      FindAt(s, c, i);
      assert s[..i] == p;
      assert s[i + 1..] == rest;
      SplitJoin(parts[1..], c);
    } else {
      assert Join(parts, [c]) == p;
      FindAt(p, c, |p|);
    }
  }

  /** Joining the lines of `readlines()` gives back the text. */
  lemma {:induction false} JoinReadLines(s: string)
    ensures Join(ReadLines(s), "") == s
    decreases |s|
  {
    var i := Find(s, '\n');
    if i < |s| {
      JoinReadLines(s[i + 1..]);
      JoinCons(s[..i + 1], ReadLines(s[i + 1..]), "");
      assert s == s[..i + 1] + s[i + 1..];
    }
  }

  /** `sep.join([x] + xs)` for a possibly empty `xs`. */
  lemma JoinCons(x: string, xs: seq<string>, sep: string)
    ensures Join([x] + xs, sep) == if |xs| == 0 then x else x + sep + Join(xs, sep)
  {
    ConsSplit([x], xs);
  }

  /** `sep.join(xs + [x])`, the step a left-to-right loop takes. */
  lemma {:induction false} JoinSnoc(xs: seq<string>, x: string, sep: string)
    ensures Join(xs + [x], sep) == if |xs| == 0 then x else Join(xs, sep) + sep + x
    decreases |xs|
  {
    if |xs| > 1 {
      assert (xs + [x])[1..] == xs[1..] + [x];
      JoinSnoc(xs[1..], x, sep);
    } else if |xs| == 1 {
      assert (xs + [x])[1..] == [x];
    }
  }

  /** `readlines()` distributes over a text cut right after a newline. */
  lemma {:induction false} ReadLinesAppend(a: string, b: string)
    requires |a| == 0 || a[|a| - 1] == '\n'
    ensures ReadLines(a + b) == ReadLines(a) + ReadLines(b)
    decreases |a|
  {
    if |a| == 0 {
      assert a + b == b;
      assert ReadLines(a) == [];
    } else {
      var i := Find(a, '\n');
      var rest := a[i + 1..];
      var x := [a[..i + 1]];
      ReadLinesCut(a, i);
      ReadLinesAppend(rest, b);
      ReadLinesCutAppend(a, b, i);
      SeqAssoc(x, ReadLines(rest), ReadLines(b));
    }
  }

  /** The first line of `a` is the first line of `a + b`. */
  lemma ReadLinesCutAppend(a: string, b: string, i: nat)
    requires i < |a| && a[i] == '\n' && forall j | 0 <= j < i :: a[j] != '\n'
    ensures ReadLines(a + b) == [a[..i + 1]] + ReadLines(a[i + 1..] + b)
  {
    AppendCut(a, b, i + 1);
    ReadLinesCut(a + b, i);
  }

  /** A single line without interior newlines is read back as itself. */
  lemma ReadLinesOne(x: string)
    requires |x| > 0 && '\n' !in x[..|x| - 1]
    ensures ReadLines(x) == [x]
  {
    var n := |x| - 1;
    assert forall j | 0 <= j < n :: x[j] == x[..n][j];
    if x[n] == '\n' {
      ReadLinesCut(x, n);
      assert x[n + 1..] == "";
      assert x[..n + 1] == x;
    } else {
      FindAt(x, '\n', |x|);
    }
  }

  /** The first occurrence is determined by position and absence before it. */
  lemma FindAt(s: string, c: char, k: nat)
    requires k <= |s| && (k < |s| ==> s[k] == c)
    requires forall j | 0 <= j < k :: s[j] != c
    ensures Find(s, c) == k
  {
  }

  // ---------------------------------------------------------------------
  // readlines and split

  /** Every part followed by a newline. */
  function Terminated(parts: seq<string>): (r: seq<string>)
    ensures |r| == |parts|
    ensures forall i | 0 <= i < |r| :: r[i] == parts[i] + "\n"
  {
    seq(|parts|, i requires 0 <= i < |parts| => parts[i] + "\n")
  }

  /** Reading a text that ends in a newline gives its `split("\n")` parts,
      each with its newline back. */
  lemma {:induction false} ReadLinesSplit(s: string)
    ensures ReadLines(s + "\n") == Terminated(Split(s, '\n'))
    decreases |s|
  {
    var i := Find(s, '\n');
    if i == |s| {
      ReadLinesTerminal(s);
      assert Split(s, '\n') == [s];
    } else {
      var t := s + "\n";
      AppendCut(s, "\n", i + 1);
      ReadLinesCut(t, i);
      SplitCut(s, '\n', i);
      ReadLinesSplit(s[i + 1..]);
      assert s[..i + 1] == s[..i] + "\n";
      TerminatedCons(s[..i], Split(s[i + 1..], '\n'));
    }
  }

  /** `split` cuts at the first separator. */
  lemma SplitCut(s: string, c: char, i: nat)
    requires i < |s| && s[i] == c
    requires forall j | 0 <= j < i :: s[j] != c
    ensures Split(s, c) == [s[..i]] + Split(s[i + 1..], c)
  {
    FindAt(s, c, i);
  }

  lemma TerminatedCons(x: string, xs: seq<string>)
    ensures Terminated([x] + xs) == [x + "\n"] + Terminated(xs)
  {
  }

  /** With no separator, joining distributes over concatenation. */
  lemma {:induction false} JoinConcat(a: seq<string>, b: seq<string>)
    ensures Join(a + b, "") == Join(a, "") + Join(b, "")
    decreases |a|
  {
    if |a| == 0 {
      SeqUnit(b);
      SeqUnit(Join(b, ""));
    } else {
      var x := a[0];
      var r := a[1..];
      calc {
        Join(a + b, "");
        { HeadTail(a); SeqAssoc([x], r, b); }
        Join([x] + (r + b), "");
        { JoinGlued(x, r + b); }
        x + Join(r + b, "");
        { JoinConcat(r, b); }
        x + (Join(r, "") + Join(b, ""));
        { SeqAssoc(x, Join(r, ""), Join(b, "")); }
        (x + Join(r, "")) + Join(b, "");
        { JoinGlued(x, r); HeadTail(a); }
        Join(a, "") + Join(b, "");
      }
    }
  }

  /** Without a separator, joining is concatenation from the front. */
  lemma JoinGlued(x: string, xs: seq<string>)
    ensures Join([x] + xs, "") == x + Join(xs, "")
  {
    JoinCons(x, xs, "");
    SeqUnit(x);
  }

  /** Adding the missing final newline to a text changes only its last line. */
  lemma {:induction false} ReadLinesFinal(t: string)
    requires |t| > 0 && t[|t| - 1] != '\n'
    ensures |ReadLines(t)| > 0
    ensures var r := ReadLines(t); ReadLines(t + "\n") == r[..|r| - 1] + [r[|r| - 1] + "\n"]
    decreases |t|
  {
    var i := Find(t, '\n');
    if i == |t| {
      ReadLinesNoNewline(t);
    } else {
      var rest := t[i + 1..];
      ReadLinesFirst(t, i);
      assert rest[|rest| - 1] == t[|t| - 1];
      ReadLinesFinal(rest);
      ConsLast(t[..i + 1], ReadLines(rest));
    }
  }

  /** Changing the last element of a list after a first one. */
  lemma ConsLast(x: string, r: seq<string>)
    requires |r| > 0
    ensures var xr := [x] + r;
      xr[..|xr| - 1] + [xr[|xr| - 1] + "\n"] == [x] + (r[..|r| - 1] + [r[|r| - 1] + "\n"])
  {
    var xr := [x] + r;
    assert xr[..|xr| - 1] == [x] + r[..|r| - 1];
  }

  lemma ReadLinesNoNewline(t: string)
    requires |t| > 0 && Find(t, '\n') == |t|
    ensures ReadLines(t) == [t] && ReadLines(t + "\n") == [t + "\n"]
  {
    ReadLinesTerminal(t);
  }

  /** A text with its only newline at the end is one line. */
  lemma ReadLinesTerminal(t: string)
    requires Find(t, '\n') == |t|
    ensures ReadLines(t + "\n") == [t + "\n"]
  {
    var u := t + "\n";
    AppendCut(t, "\n", |t|);
    ReadLinesCut(u, |t|);
    assert u[..|t| + 1] == u && u[|t| + 1..] == "";
  }

  /** The first line of `t` is unchanged by a newline added at the end. */
  lemma ReadLinesFirst(t: string, i: nat)
    requires i < |t| && i == Find(t, '\n')
    ensures ReadLines(t) == [t[..i + 1]] + ReadLines(t[i + 1..])
    ensures ReadLines(t + "\n") == [t[..i + 1]] + ReadLines(t[i + 1..] + "\n")
  {
    ReadLinesCut(t, i);
    AppendCut(t, "\n", i + 1);
    ReadLinesCut(t + "\n", i);
  }

  lemma SeqUnit<T>(s: seq<T>)
    ensures [] + s == s && s + [] == s
  {
  }

  /** The head and tail of a concatenation whose first part is not empty. */
  lemma ConsSplit<T>(a: seq<T>, b: seq<T>)
    requires |a| > 0
    ensures (a + b)[0] == a[0] && (a + b)[1..] == a[1..] + b
  {
  }

  /** The parts of a list around one element. */
  lemma Around<T>(a: seq<T>, x: T, b: seq<T>)
    ensures var s := a + [x] + b;
      && s[..|a|] == a && s[|a|] == x && s[|a| + 1..] == b && s[|a|..] == [x] + b
      && forall j | 0 <= j < |a| :: s[j] == a[j]
  {
  }

  /** A non-empty list is its head followed by its tail. */
  lemma HeadTail<T>(s: seq<T>)
    requires |s| > 0
    ensures s == [s[0]] + s[1..]
  {
  }

  /** A list taken apart at position `k`. */
  lemma Pivot<T>(s: seq<T>, k: nat)
    requires k < |s|
    ensures s == s[..k] + [s[k]] + s[k + 1..]
  {
  }

  /** A line ended by the separator is the first piece of the split. */
  lemma SplitCons(d: string, s: string, c: char)
    requires c !in d
    ensures Split(d + [c] + s, c) == [d] + Split(s, c)
  {
    var x := d + [c] + s;
    Around(d, c, s);
    var i := Find(x, c);
    assert x[|d|] == c;
  }

  /** A one-element list has nothing after its head. */
  lemma Single<T>(x: T)
    ensures [x][0] == x && [x][1..] == []
  {
  }

  /** A list from position `k` on is its element there and what follows. */
  lemma ConsAt<T>(s: seq<T>, k: nat)
    requires k < |s|
    ensures s[k..] == [s[k]] + s[k + 1..]
  {
  }

  /** A non-empty list is its first elements followed by its last. */
  lemma ButLast<T>(s: seq<T>)
    requires |s| > 0
    ensures s[..|s| - 1] + [s[|s| - 1]] == s
  {
  }

  /** A list is its first `k` elements followed by the rest. */
  lemma TakeDrop<T>(s: seq<T>, k: nat)
    requires k <= |s|
    ensures s[..k] + s[k..] == s
  {
  }

  /** A two-element list taken apart. */
  lemma Pair<T>(a: T, b: T)
    ensures [a, b][0] == a && [a, b][1..] == [b]
  {
  }

  lemma PairCons<T>(a: T, b: T, r: seq<T>)
    ensures [a] + [b] + r == [a, b] + r
  {
  }

  lemma SeqAssoc<T>(x: seq<T>, y: seq<T>, z: seq<T>)
    ensures x + (y + z) == (x + y) + z
  {
  }

  /** Cutting a concatenation inside its first part. */
  lemma AppendCut(a: string, b: string, k: nat)
    requires k <= |a|
    ensures (a + b)[..k] == a[..k] && (a + b)[k..] == a[k..] + b
    ensures forall j | 0 <= j < k :: (a + b)[j] == a[j]
  {
  }

  /** `readlines()` cuts after the first newline. */
  lemma ReadLinesCut(t: string, i: nat)
    requires i < |t| && t[i] == '\n'
    requires forall j | 0 <= j < i :: t[j] != '\n'
    ensures ReadLines(t) == [t[..i + 1]] + ReadLines(t[i + 1..])
  {
    FindAt(t, '\n', i);
  }

  /** `rstrip` ignores a newline added at the end. */
  lemma RStripNewline(l: string)
    ensures RStrip(l + "\n") == RStrip(l)
  {
    var r := RStrip(l);
    var s := l + "\n";
    assert r == s[..|r|];
    forall i | |r| <= i < |s| ensures s[i] in Whitespace {
      if i < |l| { assert s[i] == l[i]; }
    }
    if |r| > 0 { assert s[|r| - 1] == l[|r| - 1]; }
    RTrimAt(s, |r|, Whitespace);
  }

  /** Joining two non-empty lists puts one separator between their joins. */
  lemma {:induction false} JoinAppend(a: seq<string>, b: seq<string>, sep: string)
    requires |a| > 0 && |b| > 0
    ensures Join(a + b, sep) == Join(a, sep) + sep + Join(b, sep)
    decreases |a|
  {
    if |a| > 1 {
      JoinAppend(a[1..], b, sep);
      assert (a + b)[1..] == a[1..] + b;
    } else {
      assert (a + b)[1..] == b;
    }
  }

  // ---------------------------------------------------------------------
  // Blocks of lines

  /** A line `rstrip` leaves alone. */
  predicate Bare(l: string) {
    RStrip(l) == l
  }

  /** Blocks of lines with a separator line between consecutive blocks. */
  function Sections<T>(parts: seq<seq<T>>, sep: T): (d: seq<T>)
    ensures |parts| > 0 ==> |d| >= |parts[0]|
    decreases |parts|
  {
    if |parts| == 0 then []
    else if |parts| == 1 then parts[0]
    else parts[0] + [sep] + Sections(parts[1..], sep)
  }

  /** The first block, then the separator and the rest. */
  lemma SectionsFront<T>(parts: seq<seq<T>>, sep: T)
    requires |parts| > 0
    ensures Sections(parts, sep) == parts[0] + (if |parts| == 1 then [] else [sep] + Sections(parts[1..], sep))
  {
  }

  /** Sections joined by newlines are their texts joined by empty lines. */
  lemma {:induction false} SectionsJoin(parts: seq<seq<string>>, texts: seq<string>)
    requires |parts| == |texts| > 0
    requires forall i | 0 <= i < |parts| :: |parts[i]| > 0 && Join(parts[i], "\n") == texts[i]
    ensures Join(Sections(parts, ""), "\n") == Join(texts, "\n\n")
    decreases |parts|
  {
    if |parts| > 1 {
      var b := parts[0];
      var d := Sections(parts[1..], "");
      SectionsJoin(parts[1..], texts[1..]);
      JoinCons(texts[0], texts[1..], "\n\n");
      assert [texts[0]] + texts[1..] == texts;
      assert Sections(parts, "") == b + [""] + d;
      JoinAppend(b + [""], d, "\n");
      JoinAppend(b, [""], "\n");
      EmptyLineJoin(texts[0], Join(d, "\n"));
    }
  }

  lemma EmptyLineJoin(x: string, y: string)
    ensures x + "\n" + "" + "\n" + y == x + "\n\n" + y
  {
  }
}
