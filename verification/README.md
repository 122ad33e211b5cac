# ipyrmd in Dafny

A model of the text logic of ipyrmd, the converter between Jupyter notebooks
and R Markdown. It covers both the fenced R Markdown format (```` ```{r} ````
chunks) and the knitr spin format (`#'` markdown lines, `#+` chunk-option
lines). Two programs are modelled:

- the package module `ipyrmd/ipyrmd.py`: the text helpers, the two writers
  (`ipynb_to_rmd`, `ipynb_to_spin`) and the two readers (`rmd_to_ipynb`,
  `spin_to_ipynb`), with the YAML front-matter split;
- the older standalone script `ipyrmd.py` (version 0.1): its own writer and
  reader, which strip every line, keep chunk options verbatim, drop every line
  up to the end of the header block, and join blocks with a plain `"\n\n".join`.

A notebook is `Notebook(cells, header)`. Each cell is `Markdown`, `Code` or
`Raw`, and carries a source (one string or a list of strings) and the
`Rmd_chunk_options` entry. `header` is the `Rmd_header` entry. A reader takes
the text of a file and produces a notebook. A writer takes a notebook and
produces the text it would write; `None` stands for the `IndexError` that
`join_with_emptylines` raises on an empty list. YAML loading and dumping are
parameters (`load: string -> Option<Yaml<V>>`, where `None` is a
`YAMLError`, and `dump: V -> string`).

Each reader is a fold over the scanned lines. The fold threads the state
(`MD`/`CODE`), the buffer and the options, and emits cells in order. Each
fenced reader is also given a chunk-by-chunk reference reading, and a lemma
shows that the fold and the reference agree on every input.

Modules follow the program's structure:

| module | file | what |
|---|---|---|
| `PyStr` | pystr.dfy | `strip`/`rstrip`/`lstrip`, `split("\n")`, `join`, `readlines` |
| `Notebook` | notebook.dfy | cells, notebooks, `maybe_join`, `maybe_newline`, the writers' header choice |
| `Patterns` | patterns.dfy | the fence, delimiter and spin regexes as predicates |
| `Helpers` | helpers.dfy | `join_with_emptylines`, `prepend_lines`, `unprepend_line(s)` |
| `FrontMatter` | frontmatter.dfy | `delim_lines` and the header split |
| `Segment` | segment.dfy | what the readers share: states, emitting cells, the final flush, the scanned lines |
| `RmdWrite`, `RmdRead` | rmd_write.dfy, rmd_read.dfy | `ipynb_to_rmd`, `rmd_to_ipynb` |
| `SpinWrite`, `SpinRead` | spin_write.dfy, spin_read.dfy | `ipynb_to_spin`, `spin_to_ipynb` |
| `Legacy` | legacy.dfy | the version 0.1 script |
| `RmdRoundTrip`, `SpinRoundTrip`, `LegacyRoundTrip` | *_roundtrip.dfy | writing then reading back |

Both programs define `maybe_join`, `maybe_newline`, the three regexes,
the header-choice logic and the final flush of the reader in exactly the
same text (ipyrmd.py:52-56, ipyrmd.py:86-96, ipyrmd.py:137, ipyrmd.py:154-155
and ipyrmd.py:205-206 against ipyrmd/ipyrmd.py:23-27, ipyrmd/ipyrmd.py:79-87,
ipyrmd/ipyrmd.py:171, ipyrmd/ipyrmd.py:188-189 and
ipyrmd/ipyrmd.py:239-240). Those definitions are written once, in
`Notebook`, `Patterns` and `Segment`, and the `Legacy` module uses them,
together with `Segment`'s reader state and `add_cell`. Everything else in
the older script has its own definitions in `Legacy`:

- the header cut;
- the stripped line storage;
- the verbatim options;
- the fold;
- the writer and its plain join.

`Legacy` does not use the package readers or writers; the lemma comparing
the two joins lives in `LegacyRoundTrip`.

## Model

| member | source | states |
|---|---|---|
| Notebook.MaybeNewline | ipyrmd/ipyrmd.py:27 | `x` is a prefix and `y` a suffix of the result, and at most one character is inserted. Nothing is inserted exactly when `x` ends or `y` starts with a newline; otherwise the inserted character is `\n`. The result always has a newline at the junction. |
| Notebook.MaybeJoinNoSeparator | ipyrmd/ipyrmd.py:23 | A list source is concatenated with no separator, so appending a string to the list appends it to the text. |
| PyStr.RTrim | ipyrmd/ipyrmd.py:39 | `rstrip(cs)`: the result is a prefix, everything cut off is in `cs`, and the result does not end in a character of `cs`. |
| PyStr.LTrim | ipyrmd/ipyrmd.py:39 | `lstrip(cs)`: the result is a suffix, everything cut off is in `cs`, and the result does not start with a character of `cs`. |
| PyStr.StripEmptyIffBlank | ipyrmd/ipyrmd.py:214 | `l.strip()` is empty exactly when the line has no non-whitespace character. This is the test `any([c.strip() for c in celldata])` relies on. |
| PyStr.Split | ipyrmd/ipyrmd.py:47 | `split("\n")` gives at least one piece, and no piece holds the separator. |
| PyStr.JoinSplit | ipyrmd/ipyrmd.py:47 | Joining the pieces of a split with the separator gives back the text. |
| PyStr.SplitJoin | ipyrmd/ipyrmd.py:53 | Splitting a join of separator-free pieces gives back the pieces. |
| PyStr.ReadLinesShape | ipyrmd/ipyrmd.py:168 | `readlines()` gives non-empty lines. Only the last line may lack its final newline, and no line holds a newline elsewhere. |
| PyStr.ReadLinesSplit | ipyrmd/ipyrmd.py:168 | `readlines` of a text ending in a newline is the `split("\n")` pieces, each newline-terminated. |
| Helpers.JoinWithEmptylines | ipyrmd/ipyrmd.py:30-40 | `join_with_emptylines` gives a result exactly when the list is non-empty (it raises on `[]`), and returns a single block unchanged. |
| Helpers.JoinWithEmptylinesPairs | ipyrmd/ipyrmd.py:37-40 | Adding a block to the list joins it to the previous result as `rstrip("\n") + "\n\n" + lstrip("\n")`. |
| Helpers.JoinWithEmptylinesClean | ipyrmd/ipyrmd.py:30-40 | For blocks that neither start nor end with a newline, the function is a plain `"\n\n".join`. |
| Helpers.UnprependLine | ipyrmd/ipyrmd.py:49 | A line that starts with the prefix loses exactly the prefix; any other line is returned unchanged. |
| Helpers.PrependLinesLines | ipyrmd/ipyrmd.py:43-47 | For a prefix without newline, `prepend_lines` keeps the number of lines and puts the prefix in front of each. |
| Helpers.PrependRoundTrip | ipyrmd/ipyrmd.py:43-53 | For a prefix without newline, `unprepend_lines(prepend_lines(t, p), p) == t`. |
| Patterns.FenceOpenIsRegex | ipyrmd/ipyrmd.py:188 | The opening-fence matcher finds group `g` exactly when the line reads: three or more backticks, whitespace, `{r`, `g`, `}`, whitespace. The group is unique and runs to the last `}`. |
| Patterns.FenceCloseIsRegex | ipyrmd/ipyrmd.py:189 | The closing-fence predicate holds exactly when the line is three or more backticks followed only by whitespace. |
| Patterns.LineGroup | ipyrmd/ipyrmd.py:255-256 | A `^<marker>(.*)$` match captures newline-free text, and the line is the marker, the group and at most a final newline. |
| Patterns.LineGroupComplete | ipyrmd/ipyrmd.py:255-256 | Every line of that shape is matched, with that group. |
| Patterns.LineGroupMarked | ipyrmd/ipyrmd.py:255-256 | On a line as `readlines` gives it, the pattern matches exactly when the line starts with the marker. |
| Patterns.FenceOpenNewline | ipyrmd/ipyrmd.py:188 | A final newline changes no opening-fence match (`$` matches before a final newline). |
| Patterns.FenceCloseNewline | ipyrmd/ipyrmd.py:189 | A final newline changes no closing-fence match. |
| Patterns.DelimNewline | ipyrmd/ipyrmd.py:171 | A final newline changes no front-matter delimiter match. |
| FrontMatter.DelimIndices | ipyrmd/ipyrmd.py:172 | `delim_lines` lists exactly the delimiter lines, in increasing order. |
| FrontMatter.HeaderBounds | ipyrmd/ipyrmd.py:172-173 | A header block is found exactly when the first two delimiter lines of the whole file exist and are not adjacent, and it is delimited by those two lines. |
| FrontMatter.FirstTwoAreFirst | ipyrmd/ipyrmd.py:172-173 | The first two entries of `delim_lines` are the only pair of first-two delimiters. |
| FrontMatter.RmdFrontMatter | ipyrmd/ipyrmd.py:173-181 | When a header block is found, the loader gets the lines strictly between the delimiters joined by `\n`. The lines from the first delimiter through the second are removed whether or not loading succeeds, and the others keep their order. Otherwise nothing changes and no header is set. |
| FrontMatter.SpinFrontMatter | ipyrmd/ipyrmd.py:259-270 | The same split for `#' ---` delimiters. The header text has `#' ` taken off each line before loading. |
| FrontMatter.HeaderBoundsAgree | ipyrmd/ipyrmd.py:172-173 | Only which lines are delimiters decides where the header block is. |
| Segment.CodeAppendLines | ipyrmd/ipyrmd.py:235-237 | One step of code buffering extends the stored lines by the new line. |
| Segment.CodeLinesText | ipyrmd/ipyrmd.py:235-237 | A code cell's text is its right-stripped lines joined by `\n`, with no final newline. |
| Segment.ProseContent | ipyrmd/ipyrmd.py:214 | Storing markdown lines keeps whether any has visible text. |
| Segment.FencedJoin | ipyrmd/ipyrmd.py:112-113 | A fenced code block is its start line, the source lines and the closing fence, joined by `\n`. |
| RmdRead.ChunkOptions | ipyrmd/ipyrmd.py:220-221 | The options entry is set exactly when the group is non-empty. Its value is a slice of the group with only spaces and commas cut off on either side, and it neither starts nor ends with a space or a comma. |
| RmdRead.RmdToIpynb | ipyrmd/ipyrmd.py:163-240 | The header is what the front-matter split loaded. The cells are the chunk-by-chunk reading of the remaining lines as `readlines` gives them: prose up to an opening fence as a markdown cell when it has visible text, each chunk up to its closing fence (or the end of the file) as a code cell. |
| RmdRead.CellsAreReference | ipyrmd/ipyrmd.py:208-240 | The line-by-line fold equals the chunk-by-chunk reading on every input. The reading gives: prose up to the first opening fence, as a markdown cell if it has visible text; then the chunk up to the first closing fence, as a code cell even when empty and even when unclosed; then the rest. |
| RmdRead.ProseUnit | ipyrmd/ipyrmd.py:239-240 | Text with no opening fence is one markdown cell, even when it is only whitespace. |
| RmdRead.OpenStep | ipyrmd/ipyrmd.py:211-221 | An opening fence flushes the markdown buffer only if it has visible text, and starts a chunk with its options. |
| RmdRead.CloseStep | ipyrmd/ipyrmd.py:228-233 | A closing fence always emits a code cell, whatever the buffer holds, and returns to `MD` with no options. |
| RmdRead.ChunkUnclosed | ipyrmd/ipyrmd.py:239-240 | A chunk never closed is emitted at the end with all its lines. |
| RmdRead.ChunkUnit | ipyrmd/ipyrmd.py:208-240 | Prose, a chunk and the rest read as: the prose cell if any, the code cell, then the rest on its own. |
| RmdRead.CellsShaped | ipyrmd/ipyrmd.py:204-240 | Every cell read has a list source, and markdown cells never carry options. A markdown cell has visible text when another cell follows, and the cell after it is code. |
| RmdRead.FinalNewlineIgnored | ipyrmd/ipyrmd.py:168-189 | Adding a final newline to a file that lacks one reads to the same notebook. |
| RmdRead.CellsAlike | ipyrmd/ipyrmd.py:208-237 | Lines that differ only in a final newline read to the same cells. |
| RmdWrite.CodeBlock | ipyrmd/ipyrmd.py:105-113 | A code block starts with its start line and a newline, and ends with a newline and the closing fence. |
| RmdWrite.IpynbToRmd | ipyrmd/ipyrmd.py:90-120 | The writer fails (empty list) exactly when there is no header and no markdown or code cell. A header block, when there is one, begins the text. |
| RmdWrite.ExplicitHeaderWins | ipyrmd/ipyrmd.py:79-87 | An explicit header is written whatever header the notebook stores, as if it were the stored one. |
| RmdWrite.NullHeaderNotWritten | ipyrmd/ipyrmd.py:95 | A stored header that loaded as null is not written. |
| RmdWrite.RawCellsIgnored | ipyrmd/ipyrmd.py:101-115 | Removing a cell that is neither markdown nor code changes no block. |
| RmdRoundTrip.StartReadsBack | ipyrmd/ipyrmd.py:105-108 | The start line written for clean options is matched as an opening fence, and its options read back exactly. It is not a closing fence, not a delimiter, and has no newline. |
| RmdRoundTrip.WrittenText | ipyrmd/ipyrmd.py:90-120 | For writable cells, the text written is the blocks' lines with an empty line between blocks, joined by `\n`, and it does not end in a newline. |
| RmdRoundTrip.CellComesBack | ipyrmd/ipyrmd.py:101-115 | A writable cell's block reads back as a chunk exactly when the cell is code, and the cell read back agrees with it. |
| RmdRoundTrip.RoundTrip | ipyrmd/ipyrmd.py:90-245 | Writing writable cells with no header and reading the text back gives no header and the same number of cells. Each cell agrees with its original: code has the same text and options; markdown has the same text, with the blank lines that surround it in the file. |
| SpinRead.Classify | ipyrmd/ipyrmd.py:289-290 | A line as `readlines` gives it is markdown exactly when it starts with `#' `, a directive exactly when it starts with `#+ `, and plain otherwise. Markdown keeps the text after the marker right-stripped, a directive the text after the marker without its newline, and a plain line the line right-stripped. |
| SpinRead.MarkerNeedsSpace | ipyrmd/ipyrmd.py:255-256 | `#'` or `#+` without the following space is an ordinary code line. |
| SpinRead.CellsVisible | ipyrmd/ipyrmd.py:296-325 | Every cell the spin reader emits has a line with visible text. |
| SpinRead.MarkdownWithoutOptions | ipyrmd/ipyrmd.py:300-313 | Markdown cells never carry options. |
| SpinRead.DirectiveHeadsCell | ipyrmd/ipyrmd.py:303-320 | A `#+ ` line flushes the buffer if it has visible text and starts a code cell. The cell's options are always set, to the group stripped of spaces and commas, even when that is empty. |
| SpinRead.ProseRunReads | ipyrmd/ipyrmd.py:292-293 | Consecutive `#' ` lines in markdown are stored as the text after the marker, right-stripped and newline-terminated. |
| SpinRead.PlainRunReads | ipyrmd/ipyrmd.py:321-322 | Consecutive plain lines in code are stored right-stripped and newline-terminated. |
| SpinRead.MarkdownAfterCode | ipyrmd/ipyrmd.py:308-314 | The first markdown line after a code run is stored without its newline, unlike the other lines, whichever of the markdown lines carries the visible text. |
| SpinRead.MarkdownAfterCodeMerges | ipyrmd/ipyrmd.py:314 | With the code as written, two markdown lines `a`, `b` after code read as `a + b + "\n"`, so a blank `a` is lost. With the corrected reader they read as `a\nb\n`. |
| SpinWrite.IpynbToSpin | ipyrmd/ipyrmd.py:125-152 | The writer fails exactly when there is no header and no markdown or code cell. The marked header block, when there is one, begins the text. |
| SpinWrite.SpinHeaderEnds | ipyrmd/ipyrmd.py:133-134 | The marked header block ends with `#' ---`. |
| SpinWrite.MarkdownBlockLines | ipyrmd/ipyrmd.py:139 | A markdown block's lines are the source lines, each marked `#' `. |
| SpinWrite.CodeBlockLines | ipyrmd/ipyrmd.py:141-143 | A code block with options is the `#+ ` option line followed by the source lines. |
| SpinWrite.SpinExplicitHeaderWins | ipyrmd/ipyrmd.py:79-87 | An explicit header is written whatever header the notebook stores. |
| SpinWrite.SpinRawCellsIgnored | ipyrmd/ipyrmd.py:137-146 | Removing a cell that is neither markdown nor code changes no block. |
| SpinRoundTrip.SpinWrittenText | ipyrmd/ipyrmd.py:125-152 | For writable cells, the spin text written is the blocks' lines with an empty line between blocks, joined by `\n`. |
| SpinRoundTrip.BlockPiece | ipyrmd/ipyrmd.py:137-146 | A writable cell's block lines are classified back as that cell's run: marked lines for markdown, and a directive then plain lines for code. |
| SpinRoundTrip.RoundTrip | ipyrmd/ipyrmd.py:125-330 | Writing writable cells with no header and reading the text back with the corrected reader gives no header and the same number of cells. Markdown comes back newline-terminated; code comes back with its options, newline-terminated, followed by the empty separator line unless it is last. |
| Legacy.LegacyFrontMatter | ipyrmd.py:137-147 | When a header block is found, the loader gets the lines between the delimiters, and only the lines after the second delimiter remain. Otherwise nothing changes. |
| Legacy.HeaderCutDropsLead | ipyrmd.py:147 | The older script reads the same header as the package, but drops the lines before the first delimiter that the package keeps. |
| Legacy.StoredLine | ipyrmd.py:193-203 | Every stored line is `strip(l) + "\n"`: newline-terminated, with no whitespace at either end of its text. It has visible text exactly when the source line had. |
| Legacy.LegacyRmdToIpynb | ipyrmd.py:129-206 | The header is what the older split loaded. The cells are the older chunk-by-chunk reading of the remaining lines: stripped prose as a markdown cell when it has visible text, each chunk with verbatim options as a code cell. |
| Legacy.LegacyCellsAreReference | ipyrmd.py:174-206 | The older fold equals its chunk-by-chunk reading on every input. Prose becomes a markdown cell only if it has visible text, a closing fence always emits a code cell, and an unclosed chunk is emitted at the end. |
| Legacy.ProseOnly | ipyrmd.py:205-206 | Text with no opening fence is one markdown cell, even when blank. |
| Legacy.CellsShaped | ipyrmd.py:174-206 | Every cell read has stripped, newline-terminated lines. Markdown never carries options, and options are never empty. |
| Legacy.LegacyIpynbToRmd | ipyrmd.py:82-118 | With no header and no markdown or code cell, the output is empty. A header block, when there is one, begins the output. |
| Legacy.LegacyOptionsRoundTrip | ipyrmd.py:186-187 | Options written as `{r<opts>}` read back verbatim. |
| LegacyRoundTrip.LegacyJoinsPlainly | ipyrmd.py:118 | The older writer joins blocks with a plain `"\n\n".join`, where the package trims the newlines around each junction. |
| Legacy.LegacyExplicitHeaderWins | ipyrmd.py:86-96 | An explicit header is written whatever header the notebook stores. |
| Legacy.LegacyRawCellsIgnored | ipyrmd.py:98-112 | Removing a cell that is neither markdown nor code changes no block. |
| LegacyRoundTrip.LegacyCodeText | ipyrmd.py:203 | Code lines without surrounding whitespace come back with a final newline added. |
| LegacyRoundTrip.LegacyRoundTrip | ipyrmd.py:67-211 | Writing writable cells with the older script and reading the text back gives no header and the same number of cells. Code has the same options and its text with a final newline added; markdown has its text with the surrounding blank lines. |

## Left out

- File and notebook I/O: `open`, `readlines` and `write`, nbformat reading, writing, version conversion and checks. A reader takes the file's text after `open()`'s universal-newline translation, and `readlines` is modelled as `PyStr.ReadLines`, which splits only at `\n`; a file with `\r` or `\r\n` line ends must be given in translated form. A writer returns the text it would write.
- YAML: `yaml.load`, `yaml.dump` and `NN_representer` are foreign libraries. They are the parameters `load` (with `None` for `YAMLError`) and `dump`.
- Diagnostic prints have no effect on the output: the language warning, the inline-R notice and the YAML error text.
- The notebook metadata constants (`METADATA`) and the code-cell fields `collapsed`, `autoscroll`, `outputs` and `execution_count` are constants with no logic. Cell metadata is modelled only through `Rmd_chunk_options`.
- The older script's command line (argparse, pathlib, `sys.exit`) is an I/O wrapper.
- Unicode whitespace: Python's `\s` and `str.strip()` also accept non-ASCII spaces such as U+0085 and U+00A0. The model uses the ASCII whitespace: space, `\t`, `\n`, `\r`, `\v`, `\f` and the separators U+001C to U+001F.
- RmdRoundTrip.RoundTrip: proved only for cells the writer expresses unambiguously:
  - markdown with visible text, without opening-fence, delimiter or trailing-whitespace lines, and never directly followed by another markdown cell (a final markdown cell is allowed);
  - code without closing-fence, delimiter or trailing-whitespace lines, and with options free of newlines and of leading or trailing spaces or commas;
  - no header, since the YAML text round trip belongs to the loader and dumper.
- SpinRoundTrip.RoundTrip: proved only for the corrected reader (see Findings), and with no header. Markdown lines must have no trailing whitespace and not be `---`. Code cells need options, visible text, no trailing-whitespace lines and no line starting `#' ` or `#+ `.
- LegacyRoundTrip.LegacyRoundTrip: proved only for cells whose lines carry no surrounding whitespace, since the older reader strips every line. Options must be non-empty, because `{r}` is written for an empty string and reads back as no options. There is no header.

## Findings

| source | as written | input that shows it | evidently intended | confidence | as-written member | corrected member |
|---|---|---|---|---|---|---|
| ipyrmd/ipyrmd.py:314 | the first `#' ` line after a code run is stored as `spinmatch.group(1).rstrip()` with no `"\n"`, although every other markdown line gets one (ipyrmd/ipyrmd.py:293) | the spin lines `#+ `, `x`, `#' a`, `#' b` read as a code cell `x\n` and a markdown cell `ab\n` | the markdown cell `a\nb\n`, so that a script written by `ipynb_to_spin` reads back to the notebook | not executed | SpinRead.MarkdownAfterCodeMerges | SpinRoundTrip.RoundTrip |
