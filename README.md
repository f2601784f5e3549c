# apply-offsets, modelled in Dafny

`apply-offsets.py` reads a table-of-contents file. Each line of that file is a
label, a space and a page number. The program writes a copy whose page numbers
are moved by an offset. Blank lines are dropped. The first `start` bookmarks,
counted among the non-blank lines, keep their page. Any line that cannot be
parsed aborts the run before anything is written. The output goes next to the
input, as `<stem>_out<suffix>`.

This project models that program as pure functions and proves properties of
them. It has five modules:

- `Text` (`text.dfy`): the three `str` operations the parser relies on.
  - `rstrip()`, with Python's `isspace` set written out.
  - `split(' ')` and `' '.join`.

  It also holds `find` and `rfind` of one character. The program does not
  call them. They are helpers that define `split` and name the last space.
- `Decimal` (`decimal.dfy`): `int(...)` on a page token and `str(...)` of an
  integer.
- `Bookmarks` (`bookmark.dfy`): the `Bookmark` record and the four outcomes of
  `Bookmark.from_line`. The outcomes are:
  - `Blank`, for the `None` result;
  - `Entry`;
  - `MissingPage` and `BadPage`, the two `ParsingError`s.

  The module also holds `Bookmark.format`.
- `Pipeline` (`pipeline.dfy`): the body of `main`. It parses every line and
  stops at the first error. It then drops the blank lines and formats
  bookmark `i` with the offset when `i >= start`. A run gives an `Outcome`:
  - `Written(outLines, bookmarkCount, lineCount)`, where the two counts are
    the numbers `main` prints;
  - or `Failed(error)`.
- `OutputName` (`outname.dfy`): the output name `stem + '_out' + suffix` of
  the final path component.

Integers are unbounded, and a page plus an offset is never clamped, so zero
and negative pages are written as they come. Python itself bounds how many
digits `int()` and `str()` convert; the model does not (see "## Left out").

Three things the code does are easy to get wrong, and the model follows the
code in each:

- The label may be empty. The line `" 5"` splits into `['', '5']` and gives
  `Bookmark('', 5)`, so no non-empty-label invariant is imposed.
- The label is kept exactly as written. Only single spaces are split on, so
  repeated spaces give empty pieces, and `' '.join(words[:-1])` puts them
  back: the label is exactly the text before the last space. Nothing is
  collapsed, and tabs stay inside the label. `Text.JoinSplit` and
  `Bookmarks.FromLineCases` state this.
- Parsing and then formatting reproduces the line only when the page number is
  already written the way `str` writes it. A leading zero, a `+` sign or `-0`
  is read and then normalised. `Bookmarks.LineRoundTrip` states the law with
  that condition, `Bookmarks.CanonicalPage`. `Bookmarks.LeadingZeroDropped`
  shows that the condition cannot be dropped.

## Model

| member | source | states |
|---|---|---|
| Text.Rstrip | apply-offsets.py:23 | `a.rstrip()`; its contract is `Text.RstripSpec` and `Text.RstripIs` |
| Text.IndexOf | apply-offsets.py:23 | the index of a first occurrence, or -1; an occurrence when not -1, and `Text.IndexOfSpec` gives the rest |
| Text.LastIndexOf | apply-offsets.py:34 | the index of a last occurrence, or -1; an occurrence when not -1, and `Text.LastIndexOfSpec` gives the rest |
| Text.Split | apply-offsets.py:23 | `split(' ')` has at least one piece; `Text.JoinSplit`, `Text.SplitJoin` and `Text.SplitLast` give the rest |
| Text.Join | apply-offsets.py:34 | `' '.join(words[:-1])`; its contract is `Text.JoinSplit` and `Text.SplitJoin` |
| Text.RstripSpec | apply-offsets.py:23 | `rstrip()` gives a prefix of the line that does not end in whitespace, and everything it drops is whitespace |
| Text.RstripIs | apply-offsets.py:23 | those three properties determine the result of `rstrip()` |
| Text.IndexOfSpec | apply-offsets.py:23 | the first occurrence: -1 exactly when the character is absent, and no occurrence before the index found |
| Text.LastIndexOfSpec | apply-offsets.py:34 | the last occurrence: -1 exactly when the character is absent, and no occurrence after the index found |
| Text.JoinSplit | apply-offsets.py:23-34 | `' '.join(s.split(' ')) == s`, and no piece of the split holds a space |
| Text.SplitJoin | apply-offsets.py:23-34 | splitting the join of at least one space-free piece gives back the pieces |
| Text.SplitLast | apply-offsets.py:23-34 | the last piece of `split(' ')` is the text after the last space; the other pieces are the split of the text before it |
| Decimal.ParseInt | apply-offsets.py:30 | `int(words[-1])`, None for a token Python refuses; its contract is `Decimal.ParseIntToDecimal` and `Decimal.ParseLeadingZero` |
| Decimal.NatToDecimal | apply-offsets.py:37 | `str` of a natural number is a run of digits with that value and no leading zero, except for 0 itself |
| Decimal.IntToDecimal | apply-offsets.py:37 | `str(n)` is non-empty, ends in a digit, holds no space, and starts with `-` exactly when `n` is negative |
| Decimal.ParseIntToDecimal | apply-offsets.py:30-37 | `int(str(n)) == n` for every integer |
| Decimal.IntToDecimalInjective | apply-offsets.py:37 | different page numbers are written differently |
| Decimal.ParseLeadingZero | apply-offsets.py:30 | `int` accepts a leading zero: `int('0' + str(n)) == n` for `n >= 0` |
| Bookmarks.FromLine | apply-offsets.py:21-34 | `Bookmark.from_line(a)`; its contract is `Bookmarks.FromLineCases` |
| Bookmarks.Bookmark.Format | apply-offsets.py:36-37 | `format(offset)`; its contract is `Bookmarks.FormatParses`, `Bookmarks.FormatShift` and `Bookmarks.LineRoundTrip` |
| Bookmarks.FromLineCases | apply-offsets.py:21-34 | the four outcomes, each as an if-and-only-if on the stripped line: blank exactly when nothing is left; a missing page exactly when something is left but it has no space; a bad page exactly when the text after the last space is not an integer; otherwise the label is the text before the last space, repeated spaces included, and the page is the value of the text after it. Both errors carry the raw line |
| Bookmarks.FormatParses | apply-offsets.py:21-37 | parsing `format(offset)` gives the same label and the page moved by exactly `offset`, whatever the label holds |
| Bookmarks.FormatShift | apply-offsets.py:36-37 | offsets add: formatting a bookmark already moved by `e` with `d` is formatting the original with `e + d` |
| Bookmarks.LineRoundTrip | apply-offsets.py:23-37 | when the page token is written as `str` writes it, `from_line(line).format()` is `line.rstrip() + '\n'` |
| Bookmarks.FromLineParts | apply-offsets.py:23-34 | a label, a space and a space-free integer token parse to that label and value |
| Bookmarks.LeadingZeroDropped | apply-offsets.py:30-37 | a page written with a leading zero is read, and its leading zero is not written back |
| Pipeline.FromLines | apply-offsets.py:74 | one result per line; `Pipeline.ParseLinesSpec` ties each to its line |
| Pipeline.Collect | apply-offsets.py:74 | an error it returns is a ParsingError; `Pipeline.CollectSpec` gives the rest |
| Pipeline.ParseLines | apply-offsets.py:74 | the comprehension `[Bookmark.from_line(l) for l in lines]`; an error it returns is a ParsingError, and `Pipeline.ParseLinesSpec` gives the rest |
| Pipeline.Present | apply-offsets.py:75 | the filter keeps at most as many entries as it is given; `Pipeline.PresentFollowsPositions` and `Pipeline.PresentAllEntries` give the rest |
| Pipeline.FormatAll | apply-offsets.py:76-77 | one output line per bookmark; `Pipeline.OutputFollowsNonBlankLines` gives what each line is |
| Pipeline.CollectSpec | apply-offsets.py:74 | collecting the results is all or nothing: it succeeds exactly when no result is an error and then returns all of them; otherwise it returns the first error |
| Pipeline.ParseLinesSpec | apply-offsets.py:74 | the comprehension succeeds exactly when no line fails, then holds every line's result in order; otherwise it fails with the first failing line's error |
| Pipeline.ApplyOffsets | apply-offsets.py:74-78 | a run fails only with a ParsingError; when it writes, there is one output line per bookmark, and the bookmark count is at most the line count, which is the number of input lines |
| Pipeline.FailsIffSomeLineFails | apply-offsets.py:74 | a run fails exactly when some line fails to parse, and it fails with the error of the first such line |
| Pipeline.PositionsSpec | apply-offsets.py:75-77 | the flagged positions are listed in increasing order, and all of them are listed |
| Pipeline.NonBlankPositionsSpec | apply-offsets.py:75 | the non-blank positions are exactly the lines that are not empty after `rstrip()`, in increasing order |
| Pipeline.PresentFollowsPositions | apply-offsets.py:75 | with no error among the results, `[l for l in lines if l is not None]` holds the bookmarks of the flagged lines, position for position |
| Pipeline.OutputFollowsNonBlankLines | apply-offsets.py:74-77 | output line `k` is the bookmark of the `k`-th non-blank input line, formatted with the offset exactly when `k >= start`; the offset rule counts bookmarks, not raw lines, and the order is kept |
| Pipeline.OutputAt | apply-offsets.py:76-77 | the same, for one position `k` |
| Pipeline.BeforeStartUnchanged | apply-offsets.py:76-77 | a bookmark before `start` whose page is written as `str` writes it comes out as its input line without trailing whitespace |
| Pipeline.StartOutOfRange | apply-offsets.py:76-77 | `start <= 0` offsets every bookmark; a `start` at or past the bookmark count gives exactly the run with offset 0 |
| Pipeline.CollectAppend | apply-offsets.py:74 | collecting `p + q` gives the first error of `p`, or else the first error of `q`, or else both results joined |
| Pipeline.ParseLinesAppend | apply-offsets.py:74 | parsing `x + y` fails on the first failing line of `x`, or else of `y`, and otherwise joins the two parses |
| Pipeline.PresentAppend | apply-offsets.py:75 | dropping blanks distributes over concatenation |
| Pipeline.ParseWithBlank | apply-offsets.py:74-75 | inserting a blank line keeps the error, or keeps the bookmarks and adds one parsed line |
| Pipeline.BlankLineIgnored | apply-offsets.py:74-78 | a blank line anywhere changes nothing but the line count: the same error, or the same output lines and bookmark count, with one more line |
| Pipeline.ParseFormatted | apply-offsets.py:21-37 | every output line parses back to its bookmark with the page it was given |
| Pipeline.PresentAllEntries | apply-offsets.py:75 | when every result is a bookmark, dropping blanks keeps all of them in order |
| Pipeline.RereadFormatted | apply-offsets.py:74-77 | reading the output back gives the bookmarks with their shifted pages, in order, and nothing else |
| Pipeline.RunOnFormatted | apply-offsets.py:74-77 | a run with a second offset over formatted bookmarks writes them formatted with the sum of the two offsets |
| Pipeline.FormatShifted | apply-offsets.py:76-77 | formatting bookmarks already shifted by one offset with a second offset formats the originals with the sum |
| Pipeline.ReapplyAddsOffsets | apply-offsets.py:74-78 | running again on the output with a second offset equals one run with the sum of the offsets, and every output line is a bookmark |
| Pipeline.ReapplyNegatedUndoes | apply-offsets.py:74-78 | running again with the negated offset gives what a run with offset 0 writes |
| Pipeline.ThreeBookmarksRun | apply-offsets.py:74-78 | three bookmarks with a blank line, run with `start` 1: the first keeps its page, the other two move, and the counts are 3 bookmarks out of 4 lines |
| Pipeline.Example | apply-offsets.py:74-78 | the concrete run of `Intro 1`, `Chapter 1 5`, a blank line and `Chapter 2 12` with offset 10 and `start` 1 |
| OutputName.Suffix | apply-offsets.py:80 | `filename.suffix`; its contract is `OutputName.StemSuffixSplit`, `OutputName.SuffixAtLastDot` and `OutputName.SuffixEmpty` |
| OutputName.Stem | apply-offsets.py:80 | `filename.stem`; its contract is the same three lemmas |
| OutputName.OutName | apply-offsets.py:80 | `stem + '_out' + suffix`; its contract is `OutputName.OutNameDiffers` and `OutputName.OutNameKeepsSuffix` |
| OutputName.SuffixAtLastDot | apply-offsets.py:80 | a dot with text on both sides and no later dot starts the suffix: stem `a` and suffix `'.' + b` for `a + '.' + b` |
| OutputName.SuffixEmpty | apply-offsets.py:80 | the suffix is empty exactly when the name is empty, ends in a dot, or has no dot after its first character; the stem is then the whole name |
| OutputName.StemSuffixSplit | apply-offsets.py:80 | stem and suffix split the name; the suffix is empty or a dot, at least one more character and no further dot; a non-empty name has a non-empty stem |
| OutputName.OutNameDiffers | apply-offsets.py:80 | the output name is four characters longer than the input name, so it never overwrites the input |
| OutputName.OutNameKeepsSuffix | apply-offsets.py:80 | for a name that does not end in a dot, the output name has the same suffix, and its stem is the old stem followed by `_out` |
| OutputName.OutNameExamples | apply-offsets.py:80 | two sample names: `notes.toc` gives `notes_out.toc`, and `toc.txt` gives `toc_out.txt` |

## Left out

- The `click` command line: the decorators, option parsing, defaults and the
  `exists=True` check (apply-offsets.py:56-72, 88-89). `offset` and `start`
  are parameters of `ApplyOffsets`.
- File reading and writing and both `print` calls (apply-offsets.py:73,
  78, 81-83) are I/O. The lines read are a `seq<string>` parameter. The
  written lines and the two printed counts are fields of `Written`. The
  success message is not modelled.
- `readlines()` splitting and universal-newline translation. Each input line
  is taken as given, with its newline if it has one.
- `int()` is modelled on an optional `+` or `-` followed by ASCII digits.
  Python also accepts surrounding whitespace, underscores between digits and
  non-ASCII digits. The model reads those tokens as `BadPage`, where Python
  would read a number.
- Decimal.ParseInt: does not model the limit of 4300 digits that Python 3.11
  and later put on `int()` of a string (the default of
  `sys.set_int_max_str_digits`, settable from the environment). Python then
  raises `ValueError`, which apply-offsets.py:31 turns into a ParsingError.
  The model reads a page token of more than 4300 digits as a number where
  Python gives `BadPage`.
- Decimal.IntToDecimal: does not model the same limit on `str()` of an
  integer. With a shifted page of more than 4300 digits, `format`
  (apply-offsets.py:37) raises an uncaught `ValueError` and nothing is
  written. There `Pipeline.ApplyOffsets` gives `Written`, so the lemmas built
  on `Bookmarks.FormatParses` describe Python only for pages within the limit.
- Exception messages and the `from e` chaining (apply-offsets.py:28,
  32-33). Only the error kind and the raw line it carries are modelled.
- The commented-out `num_tabs` and `format_tabs` (apply-offsets.py:11-13,
  40-53). This is dead code.
- `pathlib` beyond the final path component: directories, `with_name`, and
  the empty name. `Suffix` and `Stem` follow the rule used by Python 3.13
  and earlier: the suffix starts at the last dot, provided that dot is
  neither the first nor the last character.
- OutputName.OutNameKeepsSuffix: requires that the name does not end in a
  dot. For `a.` the output `a._out` has suffix `._out`, so the suffix is not
  kept there.
- Python's `isspace` set is written out from the Unicode database as a fixed
  set of 29 characters. Other Unicode properties are not modelled.
