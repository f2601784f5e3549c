/** The body of `main`: parse every line, drop the blank ones, and format each
    remaining bookmark with the offset when its position among the bookmarks
    is at least `start`. */
module Pipeline {
  import opened Text
  import opened Decimal
  import opened Bookmarks

  /** The parsed lines, or the first ParsingError raised. */
  datatype Result<T> = Ok(value: T) | Err(error: Parsed)

  /** What one run produces: the output lines and the two counts it reports
      (bookmarks found, lines read), or the error that stopped it before
      anything was written. */
  datatype Outcome =
    | Written(outLines: seq<string>, bookmarkCount: nat, lineCount: nat)
    | Failed(error: Parsed)

  /** `Bookmark.from_line` applied to every line, in order. */
  function FromLines(lines: seq<string>): (r: seq<Parsed>)
    ensures |r| == |lines|
  {
    seq(|lines|, i requires 0 <= i < |lines| => FromLine(lines[i]))
  }

  /** The results in order, or the first error among them. */
  function Collect(ps: seq<Parsed>): (r: Result<seq<Parsed>>)
    ensures r.Err? ==> r.error.IsError()
  {
    if ps == [] then Ok([])
    else if ps[0].IsError() then Err(ps[0])
    else
      match Collect(ps[1..])
      case Err(e) => Err(e)
      case Ok(rest) => Ok([ps[0]] + rest)
  }

  /** Collecting is all or nothing: it succeeds exactly when no result is an
      error, and then gives back every result; otherwise it gives the first
      error. */
  lemma {:induction false} CollectSpec(ps: seq<Parsed>)
    ensures Collect(ps).Ok? <==> forall i :: 0 <= i < |ps| ==> !ps[i].IsError()
    ensures Collect(ps).Ok? ==> Collect(ps).value == ps
    ensures Collect(ps).Err? ==> exists k :: FirstErrorAt(ps, k) && Collect(ps).error == ps[k]
    decreases |ps|
  {
    if ps != [] {
      if ps[0].IsError() {
        assert FirstErrorAt(ps, 0);
      } else {
        var tail := ps[1..];
        CollectSpec(tail);
        assert forall i :: 0 <= i < |tail| ==> tail[i] == ps[i + 1];
        if Collect(tail).Err? {
          var k :| FirstErrorAt(tail, k) && Collect(tail).error == tail[k];
          assert FirstErrorAt(ps, k + 1);
        } else {
          assert ps == [ps[0]] + tail;
        }
      }
    }
  }

  /** Result `k` is the first error. */
  ghost predicate FirstErrorAt(ps: seq<Parsed>, k: int) {
    && 0 <= k < |ps|
    && ps[k].IsError()
    && forall j :: 0 <= j < k ==> !ps[j].IsError()
  }

  /** `[Bookmark.from_line(l) for l in lines]`: the comprehension calls
      `from_line` on each line in turn, and the first line that raises
      aborts it, so the outcome is the first error among the results. */
  function ParseLines(lines: seq<string>): (r: Result<seq<Parsed>>)
    ensures r.Err? ==> r.error.IsError()
  {
    Collect(FromLines(lines))
  }

  /** Parsing is all or nothing: it succeeds exactly when no line fails, and
      then holds every line's result in order; otherwise it fails with the
      error of the first line that fails. */
  lemma ParseLinesSpec(lines: seq<string>)
    ensures ParseLines(lines).Ok? <==> forall i :: 0 <= i < |lines| ==> !FromLine(lines[i]).IsError()
    ensures ParseLines(lines).Ok? ==>
      && |ParseLines(lines).value| == |lines|
      && forall i :: 0 <= i < |lines| ==> ParseLines(lines).value[i] == FromLine(lines[i])
    ensures ParseLines(lines).Err? ==>
      exists k :: FirstError(lines, k) && ParseLines(lines).error == FromLine(lines[k])
  {
    var ps := FromLines(lines);
    CollectSpec(ps);
    assert forall i :: 0 <= i < |lines| ==> ps[i] == FromLine(lines[i]);
    if Collect(ps).Err? {
      var k :| FirstErrorAt(ps, k) && Collect(ps).error == ps[k];
      assert FirstError(lines, k);
    }
  }

  /** Line `k` is the first line that fails to parse. */
  ghost predicate FirstError(lines: seq<string>, k: int) {
    && 0 <= k < |lines|
    && FromLine(lines[k]).IsError()
    && forall j :: 0 <= j < k ==> !FromLine(lines[j]).IsError()
  }

  /** `[l for l in lines if l is not None]`: the bookmarks, in line order. */
  function Present(parsed: seq<Parsed>): (r: seq<Bookmark>)
    ensures |r| <= |parsed|
  {
    if parsed == [] then []
    else
      var last := parsed[|parsed| - 1];
      Present(parsed[..|parsed| - 1]) + (if last.Entry? then [last.bookmark] else [])
  }

  /** The offset the bookmark at position `i` receives. */
  function Shift(i: int, offset: int, start: int): int {
    if i >= start then offset else 0
  }

  /** `[b.format(offset) if i >= start else b.format() for i, b in enumerate(bookmarks)]`. */
  function FormatAll(bookmarks: seq<Bookmark>, offset: int, start: int): (r: seq<string>)
    ensures |r| == |bookmarks|
  {
    seq(|bookmarks|, i requires 0 <= i < |bookmarks| =>
      if i >= start then bookmarks[i].Format(offset) else bookmarks[i].Format(0))
  }

  /** One run over the lines of the input file: it stops with a ParsingError,
      or it writes one line per bookmark, and there are never more bookmarks
      than lines. */
  function ApplyOffsets(lines: seq<string>, offset: int, start: int): (r: Outcome)
    ensures r.Failed? ==> r.error.IsError()
    ensures r.Written? ==> r.bookmarkCount == |r.outLines| <= r.lineCount == |lines|
  {
    match ParseLines(lines)
    case Err(e) => Failed(e)
    case Ok(parsed) =>
      ParseLinesSpec(lines);
      var bookmarks := Present(parsed);
      Written(FormatAll(bookmarks, offset, start), |bookmarks|, |parsed|)
  }

  /** A run is all or nothing: it fails exactly when some line fails to parse,
      with the error of the first such line, and writes nothing then. */
  lemma FailsIffSomeLineFails(lines: seq<string>, offset: int, start: int)
    ensures ApplyOffsets(lines, offset, start).Failed? <==>
      exists i :: 0 <= i < |lines| && FromLine(lines[i]).IsError()
    ensures ApplyOffsets(lines, offset, start).Failed? ==>
      exists k :: FirstError(lines, k) && ApplyOffsets(lines, offset, start).error == FromLine(lines[k])
  {
    ParseLinesSpec(lines);
  }

  /** The positions of `flags` that hold `true`, in order. */
  function Positions(flags: seq<bool>): (r: seq<nat>)
    ensures forall k :: 0 <= k < |r| ==> r[k] < |flags|
  {
    if flags == [] then []
    else
      var n := |flags| - 1;
      Positions(flags[..n]) + (if flags[n] then [n] else [])
  }

  /** Positions lists, in increasing order, exactly the positions that hold
      `true`. */
  lemma PositionsSpec(flags: seq<bool>)
    ensures forall k :: 0 <= k < |Positions(flags)| ==> flags[Positions(flags)[k]]
    ensures forall j, k :: 0 <= j < k < |Positions(flags)| ==> Positions(flags)[j] < Positions(flags)[k]
    ensures forall i :: 0 <= i < |flags| && flags[i] ==> i in Positions(flags)
  {
    PositionsFlagged(flags);
    PositionsIncreasing(flags);
    PositionsComplete(flags);
  }

  /** Positions of `flags` are those of `flags` without its last element,
      then the last position when it holds `true`. */
  lemma PositionsSnoc(flags: seq<bool>)
    requires flags != []
    ensures var n := |flags| - 1;
      Positions(flags) == Positions(flags[..n]) + (if flags[n] then [n] else [])
  {
  }

  lemma {:induction false} PositionsFlagged(flags: seq<bool>)
    ensures forall k :: 0 <= k < |Positions(flags)| ==> flags[Positions(flags)[k]]
    decreases |flags|
  {
    if flags != [] {
      var n := |flags| - 1;
      var fs := flags[..n];
      PositionsFlagged(fs);
      PositionsSnoc(flags);
      var r, r' := Positions(flags), Positions(fs);
      forall k | 0 <= k < |r| ensures flags[r[k]] {
        if k < |r'| {
          assert r[k] == r'[k];
          assert fs[r'[k]] == flags[r'[k]];
        }
      }
    }
  }

  lemma {:induction false} PositionsIncreasing(flags: seq<bool>)
    ensures forall j, k :: 0 <= j < k < |Positions(flags)| ==> Positions(flags)[j] < Positions(flags)[k]
    decreases |flags|
  {
    if flags != [] {
      var n := |flags| - 1;
      var fs := flags[..n];
      PositionsIncreasing(fs);
      PositionsSnoc(flags);
      var r, r' := Positions(flags), Positions(fs);
      forall j, k | 0 <= j < k < |r| ensures r[j] < r[k] {
        assert r[j] == r'[j] < n;
        if k < |r'| { assert r[k] == r'[k]; }
      }
    }
  }

  lemma {:induction false} PositionsComplete(flags: seq<bool>)
    ensures forall i :: 0 <= i < |flags| && flags[i] ==> i in Positions(flags)
    decreases |flags|
  {
    if flags != [] {
      var n := |flags| - 1;
      var fs := flags[..n];
      PositionsComplete(fs);
      PositionsSnoc(flags);
      var r, r' := Positions(flags), Positions(fs);
      forall i | 0 <= i < |flags| && flags[i] ensures i in r {
        if i < n {
          assert fs[i];
          var k :| 0 <= k < |r'| && r'[k] == i;
          assert r[k] == i;
        } else {
          assert r[|r| - 1] == n;
        }
      }
    }
  }

  /** For each line, whether it is not blank once trailing whitespace is
      stripped. */
  function NonBlankFlags(lines: seq<string>): (r: seq<bool>)
    ensures |r| == |lines|
  {
    seq(|lines|, i requires 0 <= i < |lines| => Rstrip(lines[i]) != "")
  }

  /** The indices of the lines that are not blank, in order. */
  function NonBlankPositions(lines: seq<string>): (r: seq<nat>)
    ensures forall k :: 0 <= k < |r| ==> r[k] < |lines|
  {
    Positions(NonBlankFlags(lines))
  }

  /** NonBlankPositions lists, in increasing order, exactly the lines that
      are not empty once trailing whitespace is stripped. */
  lemma NonBlankPositionsSpec(lines: seq<string>)
    ensures var r := NonBlankPositions(lines);
      && (forall k :: 0 <= k < |r| ==> Rstrip(lines[r[k]]) != "")
      && (forall j, k :: 0 <= j < k < |r| ==> r[j] < r[k])
      && (forall i :: 0 <= i < |lines| && Rstrip(lines[i]) != "" ==> i in r)
  {
    var flags, r := NonBlankFlags(lines), NonBlankPositions(lines);
    PositionsSpec(flags);
    assert r == Positions(flags);
    forall k | 0 <= k < |r| ensures Rstrip(lines[r[k]]) != "" {
      assert flags[r[k]];
    }
    forall i | 0 <= i < |lines| && Rstrip(lines[i]) != "" ensures i in r {
      assert flags[i];
    }
  }

  /** When the parsed lines hold no error and a line is a bookmark exactly
      when its flag is set, the bookmarks are those at the flagged
      positions, position for position. */
  lemma {:induction false} PresentFollowsPositions(parsed: seq<Parsed>, flags: seq<bool>)
    requires |parsed| == |flags|
    requires forall i :: 0 <= i < |flags| ==>
      !parsed[i].IsError() && (parsed[i].Entry? <==> flags[i])
    ensures var pos := Positions(flags);
      && |Present(parsed)| == |pos|
      && forall k :: 0 <= k < |pos| ==>
           parsed[pos[k]].Entry? && Present(parsed)[k] == parsed[pos[k]].bookmark
    decreases |flags|
  {
    if flags != [] {
      var n := |flags| - 1;
      var ps, fs := parsed[..n], flags[..n];
      assert forall i :: 0 <= i < n ==> fs[i] == flags[i] && ps[i] == parsed[i];
      PresentFollowsPositions(ps, fs);
      var pos, pos' := Positions(flags), Positions(fs);
      var present, present' := Present(parsed), Present(ps);
      if flags[n] {
        assert pos == pos' + [n];
        assert present == present' + [parsed[n].bookmark];
      } else {
        assert pos == pos';
        assert present == present';
      }
      forall k | 0 <= k < |pos'|
        ensures parsed[pos[k]].Entry? && present[k] == parsed[pos[k]].bookmark
      {
        assert pos[k] == pos'[k] && present[k] == present'[k];
        assert ps[pos'[k]] == parsed[pos'[k]];
      }
    }
  }

  /** Output line `k` is the bookmark of the `k`-th non-blank input line,
      formatted with the offset exactly when `k >= start`: the offset rule
      counts bookmarks, not raw lines, and the input order is kept. */
  lemma OutputFollowsNonBlankLines(lines: seq<string>, offset: int, start: int)
    requires ApplyOffsets(lines, offset, start).Written?
    ensures var out := ApplyOffsets(lines, offset, start).outLines;
      var pos := NonBlankPositions(lines);
      && |out| == |pos|
      && forall k :: 0 <= k < |pos| ==>
           && FromLine(lines[pos[k]]).Entry?
           && out[k] == FromLine(lines[pos[k]]).bookmark.Format(Shift(k, offset, start))
  {
    ParseLinesSpec(lines);
    var parsed := ParseLines(lines).value;
    var flags := NonBlankFlags(lines);
    forall i | 0 <= i < |lines|
      ensures !parsed[i].IsError() && (parsed[i].Entry? <==> flags[i])
    {
      FromLineCases(lines[i]);
    }
    PresentFollowsPositions(parsed, flags);
  }

  /** Output line `k` is the bookmark of the `k`-th non-blank input line,
      formatted with the offset that position `k` receives. */
  lemma OutputAt(lines: seq<string>, offset: int, start: int, k: nat)
    requires ApplyOffsets(lines, offset, start).Written?
    requires k < |NonBlankPositions(lines)|
    ensures k < |ApplyOffsets(lines, offset, start).outLines|
    ensures var line := lines[NonBlankPositions(lines)[k]];
      && FromLine(line).Entry?
      && ApplyOffsets(lines, offset, start).outLines[k] ==
           FromLine(line).bookmark.Format(Shift(k, offset, start))
  {
    OutputFollowsNonBlankLines(lines, offset, start);
  }

  /** Before position `start` a bookmark is written as `format()` writes it,
      so a line whose page number is already in the form `str` writes comes
      out as the line itself without its trailing whitespace. */
  lemma BeforeStartUnchanged(lines: seq<string>, offset: int, start: int, k: nat)
    requires ApplyOffsets(lines, offset, start).Written?
    requires k < start && k < |NonBlankPositions(lines)|
    requires CanonicalPage(lines[NonBlankPositions(lines)[k]])
    ensures k < |ApplyOffsets(lines, offset, start).outLines|
    ensures ApplyOffsets(lines, offset, start).outLines[k] ==
      Rstrip(lines[NonBlankPositions(lines)[k]]) + "\n"
  {
    OutputAt(lines, offset, start, k);
    LineRoundTrip(lines[NonBlankPositions(lines)[k]]);
  }

  /** A `start` at or below zero offsets every bookmark; a `start` at or past
      the bookmark count offsets none, exactly as an offset of 0 would. */
  lemma StartOutOfRange(lines: seq<string>, offset: int, start: int)
    ensures start <= 0 ==> ApplyOffsets(lines, offset, start) == ApplyOffsets(lines, offset, 0)
    ensures var r := ApplyOffsets(lines, offset, start);
      r.Written? && start >= r.bookmarkCount ==> r == ApplyOffsets(lines, 0, 0)
  {
  }

  /** Collecting `p + q` gives the first error of `p`, else the first of
      `q`, and otherwise the results of both. */
  lemma {:induction false} CollectAppend(p: seq<Parsed>, q: seq<Parsed>)
    ensures Collect(p + q) ==
      match Collect(p)
      case Err(e) => Err(e)
      case Ok(a) =>
        match Collect(q)
        case Err(e) => Err(e)
        case Ok(b) => Ok(a + b)
    decreases |p|
  {
    if p != [] {
      assert (p + q)[0] == p[0];
      assert (p + q)[1..] == p[1..] + q;
      CollectAppend(p[1..], q);
      if Collect(p).Ok? && Collect(q).Ok? {
        var a, b := Collect(p).value, Collect(q).value;
        assert a == [a[0]] + a[1..];
        assert a + b == [a[0]] + (a[1..] + b);
      }
    } else {
      assert p + q == q;
      if Collect(q).Ok? {
        assert [] + Collect(q).value == Collect(q).value;
      }
    }
  }

  /** Parsing `x + y` parses `x`, then `y`. */
  lemma FromLinesAppend(x: seq<string>, y: seq<string>)
    ensures FromLines(x + y) == FromLines(x) + FromLines(y)
  {
    var l, r := FromLines(x + y), FromLines(x) + FromLines(y);
    forall i | 0 <= i < |l| ensures l[i] == r[i] {
      if i < |x| { assert (x + y)[i] == x[i]; } else { assert (x + y)[i] == y[i - |x|]; }
    }
  }

  /** Running on `x + y` fails on the first failing line of `x`, else on the
      first of `y`, and otherwise parses `x` and `y` separately. */
  lemma ParseLinesAppend(x: seq<string>, y: seq<string>)
    ensures ParseLines(x + y) ==
      match ParseLines(x)
      case Err(e) => Err(e)
      case Ok(p) =>
        match ParseLines(y)
        case Err(e) => Err(e)
        case Ok(q) => Ok(p + q)
  {
    FromLinesAppend(x, y);
    CollectAppend(FromLines(x), FromLines(y));
  }

  /** Filtering distributes over concatenation. */
  lemma {:induction false} PresentAppend(p: seq<Parsed>, q: seq<Parsed>)
    ensures Present(p + q) == Present(p) + Present(q)
    decreases |q|
  {
    if q == [] {
      assert p + q == p;
    } else {
      var n := |q| - 1;
      assert (p + q)[..|p + q| - 1] == p + q[..n];
      assert (p + q)[|p + q| - 1] == q[n];
      PresentAppend(p, q[..n]);
    }
  }

  /** A blank line parses on its own to Blank. */
  lemma ParseBlank(blank: string)
    requires Rstrip(blank) == ""
    ensures ParseLines([blank]) == Ok([Blank])
  {
    FromLineCases(blank);
    assert FromLines([blank]) == [Blank];
    assert [Blank][1..] == [];
    assert [Blank] + [] == [Blank];
  }

  /** A Blank in the parsed lines contributes no bookmark. */
  lemma PresentSkipsBlank(p: seq<Parsed>, q: seq<Parsed>)
    ensures Present(p + [Blank] + q) == Present(p + q)
  {
    assert Present([Blank]) == [] by {
      assert [Blank][..0] == [];
    }
    PresentAppend(p, [Blank]);
    PresentAppend(p + [Blank], q);
    PresentAppend(p, q);
  }

  /** Parsing with a blank line inserted fails the same way, or yields the
      same bookmarks with one more parsed line. */
  lemma ParseWithBlank(a: seq<string>, blank: string, b: seq<string>)
    requires Rstrip(blank) == ""
    ensures var with, without := ParseLines(a + [blank] + b), ParseLines(a + b);
      && (with.Err? <==> without.Err?)
      && (with.Err? ==> with.error == without.error)
      && (with.Ok? ==>
            && Present(with.value) == Present(without.value)
            && |with.value| == |without.value| + 1)
  {
    ParseBlank(blank);
    ParseLinesAppend(a, [blank]);
    ParseLinesAppend(a + [blank], b);
    ParseLinesAppend(a, b);
    var pa, pb := ParseLines(a), ParseLines(b);
    if pa.Ok? && pb.Ok? {
      PresentSkipsBlank(pa.value, pb.value);
    }
  }

  /** A blank line anywhere in the input changes nothing but the line count:
      the same error, or the same output lines and the same bookmark count. */
  lemma BlankLineIgnored(a: seq<string>, blank: string, b: seq<string>, offset: int, start: int)
    requires Rstrip(blank) == ""
    ensures var with := ApplyOffsets(a + [blank] + b, offset, start);
      var without := ApplyOffsets(a + b, offset, start);
      && (with.Failed? <==> without.Failed?)
      && (with.Failed? ==> with.error == without.error)
      && (with.Written? ==>
            && with.outLines == without.outLines
            && with.bookmarkCount == without.bookmarkCount
            && with.lineCount == without.lineCount + 1)
  {
    ParseWithBlank(a, blank, b);
  }

  /** Every output line parses back to its bookmark with the shifted page. */
  lemma ParseFormatted(bookmarks: seq<Bookmark>, offset: int, start: int)
    ensures var out := FormatAll(bookmarks, offset, start);
      && ParseLines(out).Ok?
      && |ParseLines(out).value| == |out|
      && forall k :: 0 <= k < |out| ==>
           ParseLines(out).value[k] ==
             Entry(Bookmark(bookmarks[k].name, bookmarks[k].pageNo + Shift(k, offset, start)))
  {
    var out := FormatAll(bookmarks, offset, start);
    forall k | 0 <= k < |out|
      ensures FromLine(out[k]) ==
        Entry(Bookmark(bookmarks[k].name, bookmarks[k].pageNo + Shift(k, offset, start)))
    {
      var shift := Shift(k, offset, start);
      assert out[k] == bookmarks[k].Format(shift);
      FormatParses(bookmarks[k], shift);
    }
    ParseLinesSpec(out);
  }

  /** When every line is a bookmark, filtering keeps them all. */
  lemma {:induction false} PresentAllEntries(parsed: seq<Parsed>)
    requires forall i :: 0 <= i < |parsed| ==> parsed[i].Entry?
    ensures |Present(parsed)| == |parsed|
    ensures forall i :: 0 <= i < |parsed| ==> Present(parsed)[i] == parsed[i].bookmark
    decreases |parsed|
  {
    if parsed != [] {
      var n := |parsed| - 1;
      assert forall i :: 0 <= i < n ==> parsed[..n][i] == parsed[i];
      PresentAllEntries(parsed[..n]);
    }
  }

  /** Reading the output back gives the bookmarks with their shifted pages,
      in order, and nothing else. */
  lemma RereadFormatted(bookmarks: seq<Bookmark>, offset: int, start: int)
    ensures var out := FormatAll(bookmarks, offset, start);
      && ParseLines(out).Ok?
      && var again := Present(ParseLines(out).value);
      && |again| == |bookmarks|
      && forall k :: 0 <= k < |bookmarks| ==>
           again[k] == Bookmark(bookmarks[k].name, bookmarks[k].pageNo + Shift(k, offset, start))
  {
    var out := FormatAll(bookmarks, offset, start);
    ParseFormatted(bookmarks, offset, start);
    PresentAllEntries(ParseLines(out).value);
  }

  /** A run over formatted bookmarks with a second offset formats the same
      bookmarks with the sum of the offsets. */
  lemma RunOnFormatted(bookmarks: seq<Bookmark>, first: int, second: int, total: int, start: int)
    requires first + second == total
    ensures ApplyOffsets(FormatAll(bookmarks, first, start), second, start) ==
      Written(FormatAll(bookmarks, total, start), |bookmarks|, |bookmarks|)
  {
    var out := FormatAll(bookmarks, first, start);
    RereadFormatted(bookmarks, first, start);
    var parsed := ParseLines(out).value;
    var again := Present(parsed);
    assert |parsed| == |out| by {
      ParseFormatted(bookmarks, first, start);
    }
    FormatShifted(bookmarks, again, first, second, total, start);
  }

  /** Formatting bookmarks already shifted by a first offset with a second
      one formats the originals with the sum. */
  lemma FormatShifted(bookmarks: seq<Bookmark>, shifted: seq<Bookmark>,
                      first: int, second: int, total: int, start: int)
    requires first + second == total
    requires |shifted| == |bookmarks|
    requires forall k :: 0 <= k < |bookmarks| ==>
      shifted[k] == Bookmark(bookmarks[k].name, bookmarks[k].pageNo + Shift(k, first, start))
    ensures FormatAll(shifted, second, start) == FormatAll(bookmarks, total, start)
  {
    forall k | 0 <= k < |bookmarks|
      ensures FormatAll(shifted, second, start)[k] == FormatAll(bookmarks, total, start)[k]
    {
      FormatShift(bookmarks[k], Shift(k, first, start), Shift(k, second, start));
    }
  }

  /** A run that writes formats the bookmarks of the lines, whatever the
      offset. */
  lemma RunIsFormatAll(lines: seq<string>, offset: int, start: int) returns (bookmarks: seq<Bookmark>)
    requires ParseLines(lines).Ok?
    ensures bookmarks == Present(ParseLines(lines).value)
    ensures ApplyOffsets(lines, offset, start) ==
      Written(FormatAll(bookmarks, offset, start), |bookmarks|, |lines|)
  {
    ParseLinesSpec(lines);
    bookmarks := Present(ParseLines(lines).value);
  }

  /** A second run over what a first run wrote, given what both runs over
      the input wrote. */
  lemma RunAgain(once: Outcome, both: Outcome, bookmarks: seq<Bookmark>,
                 first: int, second: int, total: int, start: int)
    requires first + second == total
    requires once.Written? && once.outLines == FormatAll(bookmarks, first, start)
    requires once.bookmarkCount == |bookmarks|
    requires both.Written? && both.outLines == FormatAll(bookmarks, total, start)
    ensures ApplyOffsets(once.outLines, second, start) ==
      Written(both.outLines, once.bookmarkCount, once.bookmarkCount)
  {
    RunOnFormatted(bookmarks, first, second, total, start);
  }

  /** Running again on the output with a second offset is the same as one run
      with the sum of the two offsets: every output line parses, and the
      positions, hence the offset rule, are unchanged. */
  lemma ReapplyAddsOffsets(lines: seq<string>, first: int, second: int, start: int)
    requires ApplyOffsets(lines, first, start).Written?
    ensures var once := ApplyOffsets(lines, first, start);
      ApplyOffsets(once.outLines, second, start) ==
        Written(ApplyOffsets(lines, first + second, start).outLines, once.bookmarkCount, once.bookmarkCount)
  {
    assert ParseLines(lines).Ok?;
    var bookmarks := RunIsFormatAll(lines, first, start);
    var _ := RunIsFormatAll(lines, first + second, start);
    RunAgain(ApplyOffsets(lines, first, start), ApplyOffsets(lines, first + second, start),
      bookmarks, first, second, first + second, start);
  }

  /** Running again with the negated offset (`back == -offset`) undoes a
      run, up to writing every page number the way `str` writes it. */
  lemma ReapplyNegatedUndoes(lines: seq<string>, offset: int, back: int, start: int)
    requires offset + back == 0
    requires ApplyOffsets(lines, offset, start).Written?
    ensures var once := ApplyOffsets(lines, offset, start);
      ApplyOffsets(once.outLines, back, start) ==
        Written(ApplyOffsets(lines, 0, start).outLines, once.bookmarkCount, once.bookmarkCount)
  {
    assert ParseLines(lines).Ok?;
    var bookmarks := RunIsFormatAll(lines, offset, start);
    var _ := RunIsFormatAll(lines, 0, start);
    RunAgain(ApplyOffsets(lines, offset, start), ApplyOffsets(lines, 0, start),
      bookmarks, offset, back, 0, start);
  }

  /** One more line in front: parsed as itself, then the rest as before. */
  lemma ParseLinesCons(line: string, rest: seq<string>, p: Parsed, ps: seq<Parsed>)
    requires FromLine(line) == p && !p.IsError()
    requires ParseLines(rest) == Ok(ps)
    ensures ParseLines([line] + rest) == Ok([p] + ps)
  {
    FromLinesAppend([line], rest);
    assert FromLines([line]) == [p];
    var rs := FromLines(rest);
    assert ([p] + rs)[0] == p;
    assert ([p] + rs)[1..] == rs;
  }

  /** A formatted line in front parses to its bookmark. */
  lemma ParseFormattedCons(b: Bookmark, rest: seq<string>, ps: seq<Parsed>)
    requires ParseLines(rest) == Ok(ps)
    ensures ParseLines([b.Format(0)] + rest) == Ok([Entry(b)] + ps)
  {
    FormatParses(b, 0);
    assert b.pageNo + 0 == b.pageNo;
    ParseLinesCons(b.Format(0), rest, Entry(b), ps);
  }

  /** A blank line in front parses to Blank. */
  lemma ParseBlankCons(blank: string, rest: seq<string>, ps: seq<Parsed>)
    requires Rstrip(blank) == ""
    requires ParseLines(rest) == Ok(ps)
    ensures ParseLines([blank] + rest) == Ok([Blank] + ps)
  {
    FromLineCases(blank);
    ParseLinesCons(blank, rest, Blank, ps);
  }

  /** A blank line and then a formatted bookmark. */
  lemma BlankThenBookmarkParse(blank: string, c: Bookmark)
    requires Rstrip(blank) == ""
    ensures ParseLines([blank, c.Format(0)]) == Ok([Blank, Entry(c)])
  {
    var lc := c.Format(0);
    assert ParseLines([]) == Ok([]);
    ParseFormattedCons(c, [], []);
    assert [lc] + [] == [lc] && [Entry(c)] + [] == [Entry(c)];
    ParseBlankCons(blank, [lc], [Entry(c)]);
    assert [blank] + [lc] == [blank, lc] && [Blank] + [Entry(c)] == [Blank, Entry(c)];
  }

  /** Three formatted bookmarks with a blank line between the second and the
      third parse back to those bookmarks and that blank. */
  lemma ThreeBookmarksParse(a: Bookmark, b: Bookmark, c: Bookmark, blank: string)
    requires Rstrip(blank) == ""
    ensures ParseLines([a.Format(0), b.Format(0), blank, c.Format(0)]) ==
      Ok([Entry(a), Entry(b), Blank, Entry(c)])
  {
    var la, lb, lc := a.Format(0), b.Format(0), c.Format(0);
    BlankThenBookmarkParse(blank, c);
    ParseFormattedCons(b, [blank, lc], [Blank, Entry(c)]);
    assert [lb] + [blank, lc] == [lb, blank, lc];
    assert [Entry(b)] + [Blank, Entry(c)] == [Entry(b), Blank, Entry(c)];
    ParseFormattedCons(a, [lb, blank, lc], [Entry(b), Blank, Entry(c)]);
    assert [la] + [lb, blank, lc] == [la, lb, blank, lc];
    assert [Entry(a)] + [Entry(b), Blank, Entry(c)] == [Entry(a), Entry(b), Blank, Entry(c)];
  }

  /** Filtering two bookmarks, a blank and a third bookmark keeps the three. */
  lemma ThreeBookmarksPresent(a: Bookmark, b: Bookmark, c: Bookmark)
    ensures Present([Entry(a), Entry(b), Blank, Entry(c)]) == [a, b, c]
  {
    var p := [Entry(a), Entry(b), Blank, Entry(c)];
    assert p[..1][..0] == [];
    assert Present(p[..1]) == [a];
    assert p[..2][..1] == p[..1];
    assert Present(p[..2]) == [a, b];
    assert p[..3][..2] == p[..2];
    assert Present(p[..3]) == [a, b];
    assert p[..4][..3] == p[..3];
    assert p[..4] == p;
  }

  /** The run over three formatted bookmarks and a blank line with start 1:
      the first bookmark is written as it was, the other two move by the
      offset, the blank line is dropped, three bookmarks in four lines. */
  lemma ThreeBookmarksRun(a: Bookmark, b: Bookmark, c: Bookmark, blank: string, offset: int)
    requires Rstrip(blank) == ""
    ensures ApplyOffsets([a.Format(0), b.Format(0), blank, c.Format(0)], offset, 1) ==
      Written([a.Format(0), b.Format(offset), c.Format(offset)], 3, 4)
  {
    var lines := [a.Format(0), b.Format(0), blank, c.Format(0)];
    ThreeBookmarksParse(a, b, c, blank);
    ThreeBookmarksPresent(a, b, c);
    var bookmarks := RunIsFormatAll(lines, offset, 1);
    assert bookmarks == [a, b, c];
    ThreeBookmarksFormat(a, b, c, offset);
  }

  /** With start 1 the first of three bookmarks keeps its page. */
  lemma ThreeBookmarksFormat(a: Bookmark, b: Bookmark, c: Bookmark, offset: int)
    ensures FormatAll([a, b, c], offset, 1) == [a.Format(0), b.Format(offset), c.Format(offset)]
  {
  }

  /** A four-line table of contents with one blank line, run with start 1 and
      offset 10: the first bookmark is kept, the other two move by ten, the
      blank line is dropped, and three bookmarks are found in four lines. */
  lemma Example()
    ensures ApplyOffsets(["Intro 1\n", "Chapter 1 5\n", "\n", "Chapter 2 12\n"], 10, 1) ==
      Written(["Intro 1\n", "Chapter 1 15\n", "Chapter 2 22\n"], 3, 4)
  {
    var intro, ch1, ch2 := Bookmark("Intro", 1), Bookmark("Chapter 1", 5), Bookmark("Chapter 2", 12);
    assert Rstrip("\n") == "";
    ThreeBookmarksRun(intro, ch1, ch2, "\n", 10);
    ExampleFormats();
  }

  /** The lines the example bookmarks are written as. */
  lemma ExampleFormats()
    ensures Bookmark("Intro", 1).Format(0) == "Intro 1\n"
    ensures Bookmark("Chapter 1", 5).Format(0) == "Chapter 1 5\n"
    ensures Bookmark("Chapter 2", 12).Format(0) == "Chapter 2 12\n"
    ensures Bookmark("Chapter 1", 5).Format(10) == "Chapter 1 15\n"
    ensures Bookmark("Chapter 2", 12).Format(10) == "Chapter 2 22\n"
  {
    assert IntToDecimal(12) == "12" && IntToDecimal(15) == "15" && IntToDecimal(22) == "22";
  }
}
