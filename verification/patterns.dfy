/** The regular expressions of the converter, written out as string
    predicates and matchers. Python's `re.match` anchors at the start; `$`
    matches at the end of the text or just before a final newline; `.` never
    matches a newline; `\s` is the whitespace set of `PyStr`. */
module Patterns {
  import opened PyStr
  import opened Notebook

  const Backtick: set<char> := {'`'}

  /** Code-fence opening `^````*\s*{r(.*)}\s*$`; the result is the captured
      group, the text between `{r` and the last `}`. */
  function FenceOpen(l: string): (g: Option<string>)
    ensures g.Some? ==> '\n' !in g.value
  {
    FenceGroup(RStrip(l))
  }

  /** The opening-fence match on a line with its trailing whitespace removed. */
  function FenceGroup(t: string): (g: Option<string>)
    ensures g.Some? ==> '\n' !in g.value
  {
    var afterTicks := LTrim(t, Backtick);
    var u := LTrim(afterTicks, Whitespace);
    if |t| - |afterTicks| >= 3 && |u| >= 3 && u[..2] == "{r" && u[|u| - 1] == '}'
       && '\n' !in u[2..|u| - 1]
    then Some(u[2..|u| - 1])
    else None
  }

  /** The opening-fence regex read literally: three or more backticks,
      whitespace, `{r`, the group `g` (no newline), `}`, whitespace. */
  ghost predicate OpenFenceShape(l: string, g: string) {
    exists n, m | 3 <= n <= m && m + |g| + 3 <= |l| ::
      && AllIn(l[..n], Backtick)
      && AllIn(l[n..m], Whitespace)
      && l[m..m + |g| + 3] == "{r" + g + "}"
      && AllIn(l[m + |g| + 3..], Whitespace)
      && '\n' !in g
  }

  /** Code-fence closing `^````*\s*$`. */
  predicate FenceClose(l: string) {
    var rest := LTrim(l, Backtick);
    |l| - |rest| >= 3 && AllIn(rest, Whitespace)
  }

  /** A YAML front-matter delimiter: `marker` followed only by whitespace
      (`^---\s*$` with marker `---`, `^#' ---\s*$` with marker `#' ---`). */
  predicate DelimLine(l: string, marker: string) {
    |marker| <= |l| && l[..|marker|] == marker && AllIn(l[|marker|..], Whitespace)
  }

  /** `^<marker>(.*)$`: the text after `marker`, without a final newline;
      no match when that text holds any other newline. */
  function LineGroup(l: string, marker: string): (g: Option<string>)
    ensures g.Some? ==> '\n' !in g.value && (l == marker + g.value || l == marker + g.value + "\n")
  {
    if |marker| <= |l| && l[..|marker|] == marker then
      var rest := l[|marker|..];
      if '\n' !in rest then
        assert l == marker + rest;
        Some(rest)
      else if rest[|rest| - 1] == '\n' && '\n' !in rest[..|rest| - 1] then
        assert l == marker + rest[..|rest| - 1] + "\n";
        Some(rest[..|rest| - 1])
      else None
    else None
  }

  /** A line with no newline before its last character, as `readlines()`
      gives them. */
  predicate SingleLine(l: string) {
    forall i | 0 <= i < |l| - 1 :: l[i] != '\n'
  }

  /** On a single line, `^<marker>(.*)$` matches exactly when the line
      starts with the marker. */
  lemma LineGroupMarked(l: string, marker: string)
    requires '\n' !in marker && SingleLine(l)
    ensures LineGroup(l, marker).Some? <==> |marker| <= |l| && l[..|marker|] == marker
  {
    if |marker| <= |l| && l[..|marker|] == marker {
      var rest := l[|marker|..];
      if '\n' in rest {
        var k :| 0 <= k < |rest| && rest[k] == '\n';
        assert l[|marker| + k] == '\n';
        assert k == |rest| - 1;
        var front := rest[..|rest| - 1];
        forall j | 0 <= j < |front| ensures front[j] != '\n' {
          assert front[j] == l[|marker| + j];
        }
      }
    }
  }

  /** Spin markdown line `^#' (.*)$`. */
  function SpinText(l: string): Option<string> {
    LineGroup(l, "#' ")
  }

  /** Spin chunk-option directive `^#\+ (.*)$`. */
  function SpinDirective(l: string): Option<string> {
    LineGroup(l, "#+ ")
  }

  // ---------------------------------------------------------------------

  /** The fence-opening matcher agrees with the regex in both directions,
      and the group is unique: it runs to the last `}` of the line. */
  lemma FenceOpenIsRegex(l: string, g: string)
    ensures OpenFenceShape(l, g) <==> FenceOpen(l) == Some(g)
  {
    if OpenFenceShape(l, g) {
      var n, m :| 3 <= n <= m && m + |g| + 3 <= |l|
        && AllIn(l[..n], Backtick)
        && AllIn(l[n..m], Whitespace)
        && l[m..m + |g| + 3] == "{r" + g + "}"
        && AllIn(l[m + |g| + 3..], Whitespace)
        && '\n' !in g;
      ShapeMatches(l, g, n, m);
    }
    if FenceOpen(l) == Some(g) {
      MatchHasShape(l, g);
    }
  }

  lemma ShapeMatches(l: string, g: string, n: nat, m: nat)
    requires 3 <= n <= m && m + |g| + 3 <= |l|
    requires AllIn(l[..n], Backtick) && AllIn(l[n..m], Whitespace)
    requires l[m..m + |g| + 3] == "{r" + g + "}"
    requires AllIn(l[m + |g| + 3..], Whitespace) && '\n' !in g
    ensures FenceOpen(l) == Some(g)
  {
    var e := m + |g| + 3;
    ShapeStrip(l, g, m);
    var t := l[..e];
    assert t[..n] == l[..n] && t[n..m] == l[n..m] && t[m..] == l[m..e];
    ShapeTicks(t, g, n, m);
    FenceOpenFrom(l, t, t[n..], t[m..], g);
  }

  lemma ShapeStrip(l: string, g: string, m: nat)
    requires m + |g| + 3 <= |l|
    requires l[m..m + |g| + 3] == "{r" + g + "}"
    requires AllIn(l[m + |g| + 3..], Whitespace)
    ensures RStrip(l) == l[..m + |g| + 3]
  {
    var e := m + |g| + 3;
    Braced(l[m..e], g);
    assert l[e - 1] == l[m..e][|g| + 2];
    TrimmedBefore(l, e, Whitespace);
  }

  lemma ShapeTicks(t: string, g: string, n: nat, m: nat)
    requires 3 <= n <= m < |t|
    requires AllIn(t[..n], Backtick) && AllIn(t[n..m], Whitespace)
    requires t[m..] == "{r" + g + "}"
    ensures LTrim(t, Backtick) == t[n..] && LTrim(t[n..], Whitespace) == t[m..]
  {
    assert t[m] == t[m..][0];
    var a := t[n..];
    assert a[..m - n] == t[n..m];
    assert a[m - n] == t[m];
    TrimmedAfter(t, n, Backtick);
    TrimmedAfter(a, m - n, Whitespace);
    assert a[m - n..] == t[m..];
  }

  /** `rstrip` cuts at `e` when `s[e..]` lies in `cs` and `s[e-1]` does not. */
  lemma TrimmedBefore(s: string, e: nat, cs: set<char>)
    requires 0 < e <= |s| && s[e - 1] !in cs && AllIn(s[e..], cs)
    ensures RTrim(s, cs) == s[..e]
  {
    assert forall i | e <= i < |s| :: s[i] == s[e..][i - e];
    RTrimAt(s, e, cs);
  }

  /** `lstrip` cuts at `k` when `s[..k]` lies in `cs` and `s[k]` does not. */
  lemma TrimmedAfter(s: string, k: nat, cs: set<char>)
    requires k < |s| && s[k] !in cs && AllIn(s[..k], cs)
    ensures LTrim(s, cs) == s[k..]
  {
    assert forall i | 0 <= i < k :: s[i] == s[..k][i];
    LTrimAt(s, k, cs);
  }

  lemma FenceOpenFrom(l: string, t: string, a: string, u: string, g: string)
    requires RStrip(l) == t && LTrim(t, Backtick) == a && LTrim(a, Whitespace) == u
    requires |t| - |a| >= 3 && u == "{r" + g + "}" && '\n' !in g
    ensures FenceOpen(l) == Some(g)
  {
    Braced(u, g);
  }

  /** Taking `{r G}` apart. */
  lemma Braced(u: string, g: string)
    requires u == "{r" + g + "}"
    ensures |u| >= 3 && u[..2] == "{r" && u[|u| - 1] == '}' && u[2..|u| - 1] == g
  {
  }

  lemma MatchHasShape(l: string, g: string)
    requires FenceOpen(l) == Some(g)
    ensures OpenFenceShape(l, g)
  {
    FenceOpenParts(l, g);
    ShapeOfParts(l, g);
  }

  lemma ShapeOfParts(l: string, g: string)
    requires var a := LTrim(RStrip(l), Backtick);
      |RStrip(l)| - |a| >= 3 && LTrim(a, Whitespace) == "{r" + g + "}" && '\n' !in g
    ensures OpenFenceShape(l, g)
  {
    var t := RStrip(l);
    var a := LTrim(t, Backtick);
    var u := LTrim(a, Whitespace);
    PartsShape(l, t, a, u, g);
  }

  /** What the opening-fence match found: at least three backticks, then
      `{r`, the group and `}`. */
  lemma FenceOpenParts(l: string, g: string)
    requires FenceOpen(l) == Some(g)
    ensures var a := LTrim(RStrip(l), Backtick);
      |RStrip(l)| - |a| >= 3 && LTrim(a, Whitespace) == "{r" + g + "}" && '\n' !in g
  {
    var t := RStrip(l);
    var a := LTrim(t, Backtick);
    var u := LTrim(a, Whitespace);
    assert |t| - |a| >= 3 && |u| >= 3 && u[..2] == "{r" && u[|u| - 1] == '}' && g == u[2..|u| - 1];
    Unbraced(u, g);
  }

  /** Putting `{r G}` together. */
  lemma Unbraced(u: string, g: string)
    requires |u| >= 3 && u[..2] == "{r" && u[|u| - 1] == '}' && g == u[2..|u| - 1]
    ensures u == "{r" + g + "}"
  {
    assert u == u[..2] + u[2..|u| - 1] + [u[|u| - 1]];
  }

  lemma PartsShape(l: string, t: string, a: string, u: string, g: string)
    requires |t| <= |l| && t == l[..|t|] && forall i | |t| <= i < |l| :: l[i] in Whitespace
    requires |a| <= |t| && a == t[|t| - |a|..] && forall i | 0 <= i < |t| - |a| :: t[i] in Backtick
    requires |u| <= |a| && u == a[|a| - |u|..] && forall i | 0 <= i < |a| - |u| :: a[i] in Whitespace
    requires |t| - |a| >= 3 && u == "{r" + g + "}" && '\n' !in g
    ensures OpenFenceShape(l, g)
  {
    var n := |t| - |a|;
    var m := |t| - |u|;
    assert AllIn(l[..n], Backtick) by {
      forall i | 0 <= i < n ensures l[..n][i] in Backtick {
        assert l[..n][i] == t[i];
      }
    }
    assert AllIn(l[n..m], Whitespace) by {
      forall i | 0 <= i < m - n ensures l[n..m][i] in Whitespace {
        assert l[n..m][i] == t[n + i] == a[i];
      }
    }
    assert l[m..m + |g| + 3] == u by {
      assert l[m..|t|] == t[m..];
      assert t[m..] == a[|a| - |u|..];
    }
    assert AllIn(l[m + |g| + 3..], Whitespace) by {
      forall i | 0 <= i < |l| - |t| ensures l[|t|..][i] in Whitespace {
        assert l[|t|..][i] == l[|t| + i];
      }
    }
  }

  /** The fence-closing predicate is the regex read literally. */
  lemma FenceCloseIsRegex(l: string)
    ensures FenceClose(l) <==> exists n | 3 <= n <= |l| :: AllIn(l[..n], Backtick) && AllIn(l[n..], Whitespace)
  {
    if exists n | 3 <= n <= |l| :: AllIn(l[..n], Backtick) && AllIn(l[n..], Whitespace) {
      var n :| 3 <= n <= |l| && AllIn(l[..n], Backtick) && AllIn(l[n..], Whitespace);
      assert forall i | 0 <= i < n :: l[i] == l[..n][i];
      assert forall i | n <= i < |l| :: l[i] == l[n..][i - n];
      LTrimAt(l, n, Backtick);
    }
  }

  /** The line matcher finds the group whenever the line has the regex's shape. */
  lemma LineGroupComplete(l: string, marker: string, g: string)
    requires '\n' !in g
    requires l == marker + g || l == marker + g + "\n"
    ensures LineGroup(l, marker) == Some(g)
  {
    assert l[..|marker|] == marker;
    var rest := l[|marker|..];
    if l == marker + g {
      assert rest == g;
    } else {
      assert rest == g + "\n";
      assert rest[..|rest| - 1] == g;
    }
  }

  // ---------------------------------------------------------------------
  // A newline at the end of a line changes no match

  lemma FenceOpenNewline(l: string)
    ensures FenceOpen(l + "\n") == FenceOpen(l)
  {
    RStripNewline(l);
  }

  lemma FenceCloseNewline(l: string)
    ensures FenceClose(l + "\n") <==> FenceClose(l)
  {
    var rest := LTrim(l, Backtick);
    var k := |l| - |rest|;
    var s := l + "\n";
    forall i | 0 <= i < k ensures s[i] in Backtick {
      assert s[i] == l[i];
    }
    if k < |l| {
      assert s[k] == l[k];
    }
    LTrimAt(s, k, Backtick);
    assert s[k..] == rest + "\n";
    if AllIn(rest + "\n", Whitespace) {
      forall i | 0 <= i < |rest| ensures rest[i] in Whitespace {
        assert (rest + "\n")[i] == rest[i];
      }
    }
  }

  lemma DelimNewline(l: string, marker: string)
    requires '\n' !in marker
    ensures DelimLine(l + "\n", marker) <==> DelimLine(l, marker)
  {
    var s := l + "\n";
    if |marker| <= |l| {
      assert s[..|marker|] == l[..|marker|];
      assert s[|marker|..] == l[|marker|..] + "\n";
      if AllIn(s[|marker|..], Whitespace) {
        forall i | 0 <= i < |l| - |marker| ensures l[|marker|..][i] in Whitespace {
          assert s[|marker|..][i] == l[|marker|..][i];
        }
      }
    } else if |marker| == |s| {
      assert s[|s| - 1] == '\n' && marker[|marker| - 1] != '\n';
    }
  }

  /** A final newline changes no line-group match of a line without newlines. */
  lemma LineGroupNewline(l: string, marker: string)
    requires '\n' !in l && '\n' !in marker
    ensures LineGroup(l + "\n", marker) == LineGroup(l, marker)
  {
    var s := l + "\n";
    if |marker| <= |l| && l[..|marker|] == marker {
      LineGroupComplete(l, marker, l[|marker|..]);
      LineGroupComplete(s, marker, l[|marker|..]);
    } else if |marker| <= |l| {
      assert s[..|marker|] == l[..|marker|];
    } else if |marker| == |s| {
      assert s[..|marker|][|marker| - 1] == '\n' != marker[|marker| - 1];
    }
  }

  // ---------------------------------------------------------------------
  // Opening fences as the writers produce them

  /** A line of three backticks, `{r`, a group and `}` opens a chunk with that group. */
  lemma FenceLineOpens(l: string, g: string)
    requires l == "```" + ("{r" + g + "}") && '\n' !in g
    ensures FenceOpen(l) == Some(g)
  {
    assert l[..3] == "```";
    assert l[3..3] == "";
    assert l[3..3 + |g| + 3] == "{r" + g + "}";
    assert l[3 + |g| + 3..] == "";
    ShapeMatches(l, g, 3, 3);
  }

  /** Such a line neither closes a chunk nor delimits a header, and holds no newline. */
  lemma FenceLinePlain(l: string, g: string)
    requires l == "```" + ("{r" + g + "}") && '\n' !in g
    ensures !FenceClose(l) && !DelimLine(l, "---") && '\n' !in l
  {
    LTrimAt(l, 3, Backtick);
    assert l[3..][0] == '{';
    assert l[..3] != "---";
    forall i | 0 <= i < |l| ensures l[i] != '\n' {
      if 5 <= i < 5 + |g| { assert l[i] == g[i - 5]; }
    }
  }
}
