/** One table-of-contents line: the `Bookmark` record, its parser
    (`Bookmark.from_line`) and its formatter (`Bookmark.format`). */
module Bookmarks {
  import opened Text
  import opened Decimal

  /** A label and a page number. The label may be empty (the line " 5" gives
      the label "") and may contain spaces, tabs and repeated spaces. */
  datatype Bookmark = Bookmark(name: string, pageNo: int) {

    /** `format(offset)`: the label, one space, the shifted page number in
        decimal and a newline. `format()` with no argument is `Format(0)`. */
    function Format(offset: int): string {
      name + " " + IntToDecimal(pageNo + offset) + "\n"
    }
  }

  /** What `from_line` makes of one raw line: None (a blank line), a Bookmark,
      or one of its two ParsingErrors, which carry the offending raw line. */
  datatype Parsed =
    | Blank
    | Entry(bookmark: Bookmark)
    | MissingPage(line: string)
    | BadPage(line: string)
  {
    predicate IsError() {
      MissingPage? || BadPage?
    }
  }

  /** `Bookmark.from_line(a)`: strip trailing whitespace, split on single
      spaces, and read the last piece as the page number. */
  function FromLine(a: string): Parsed
  {
    var words := Split(Rstrip(a));
    if |words| == 1 then
      if words[0] == "" then Blank else MissingPage(a)
    else
      match ParseInt(words[|words| - 1])
      case None => BadPage(a)
      case Some(p) => Entry(Bookmark(Join(words[..|words| - 1]), p))
  }

  /** The four outcomes of `from_line`. Blank exactly when nothing is left
      after stripping trailing whitespace, so whitespace-only lines are not
      errors; MissingPage when something is left but it holds no space;
      BadPage when the text after the last space is not an integer; otherwise
      the label is everything before the last space, repeated spaces and all,
      and the page is the value of the text after it. Both errors carry the
      raw line. */
  lemma FromLineCases(a: string)
    ensures FromLine(a).Blank? <==> Rstrip(a) == ""
    ensures FromLine(a).MissingPage? <==> Rstrip(a) != "" && ' ' !in Rstrip(a)
    ensures FromLine(a).BadPage? <==>
      var s := Rstrip(a);
      ' ' in s && ParseInt(s[LastIndexOf(s, ' ') + 1..]).None?
    ensures FromLine(a).IsError() ==> FromLine(a).line == a
    ensures FromLine(a).Entry? ==>
      var s := Rstrip(a); var i := LastIndexOf(s, ' ');
      && 0 <= i
      && FromLine(a).bookmark.name == s[..i]
      && ParseInt(s[i + 1..]) == Some(FromLine(a).bookmark.pageNo)
  {
    var s := Rstrip(a);
    var words := Split(s);
    SplitShape(s);
    if |words| != 1 {
      var i := LastIndexOf(s, ' ');
      var tok := words[|words| - 1];
      assert tok == s[i + 1..];
      assert Join(words[..|words| - 1]) == s[..i];
      assert FromLine(a) == match ParseInt(tok)
        case None => BadPage(a)
        case Some(p) => Entry(Bookmark(s[..i], p));
    }
  }

  /** What FromLine needs to know about the pieces of a stripped line. */
  lemma SplitShape(s: string)
    ensures |Split(s)| == 1 <==> ' ' !in s
    ensures |Split(s)| == 1 ==> Split(s)[0] == s
    ensures |Split(s)| != 1 ==>
      var words := Split(s); var i := LastIndexOf(s, ' ');
      && 0 <= i
      && words[|words| - 1] == s[i + 1..]
      && Join(words[..|words| - 1]) == s[..i]
  {
    JoinSplit(s);
    IndexOfSpec(s, ' ');
    if ' ' in s {
      SplitLast(s);
      var i := LastIndexOf(s, ' ');
      DropLast(Split(s[..i]), s[i + 1..]);
      JoinSplit(s[..i]);
    } else {
      assert IndexOf(s, ' ') == -1;
    }
  }

  /** Stripping a formatted line removes exactly its newline. */
  lemma RstripFormat(b: Bookmark, offset: int)
    ensures Rstrip(b.Format(offset)) == b.name + " " + IntToDecimal(b.pageNo + offset)
  {
    var digits := IntToDecimal(b.pageNo + offset);
    var t := b.name + " " + digits;
    assert b.Format(offset) == t + "\n";
    assert t[|t| - 1] == digits[|digits| - 1];
    assert !IsSpace(t[|t| - 1]);
    assert IsSpace('\n');
    RstripIs(b.Format(offset), t);
  }

  /** Parsing what `format(offset)` wrote gives back the same label with the
      page moved by exactly `offset`: no clamping, whatever the label holds. */
  lemma FormatParses(b: Bookmark, offset: int)
    ensures FromLine(b.Format(offset)) == Entry(Bookmark(b.name, b.pageNo + offset))
  {
    var digits := IntToDecimal(b.pageNo + offset);
    RstripFormat(b, offset);
    FromLineCases(b.Format(offset));
    var s := b.name + [' '] + digits;
    LastIndexOfBefore(b.name, ' ', digits);
    assert s[..|b.name|] == b.name;
    assert s[|b.name| + 1..] == digits;
    ParseIntToDecimal(b.pageNo + offset);
  }

  /** Formatting shifts the page additively: `format(d)` of a bookmark whose
      page was already moved by `e` is `format(e + d)` of the original. */
  lemma FormatShift(b: Bookmark, e: int, d: int)
    ensures Bookmark(b.name, b.pageNo + e).Format(d) == b.Format(e + d)
  {
  }

  /** The stripped line holds a space, and the text after its last space is
      an integer written the way `str` writes it (no sign `+`, no leading
      zeros, no `-0`). */
  predicate CanonicalPage(line: string) {
    var s := Rstrip(line);
    var tok := s[LastIndexOf(s, ' ') + 1..];
    ' ' in s && ParseInt(tok).Some? && IntToDecimal(ParseInt(tok).value) == tok
  }

  /** Round trip: when the page number is written the way `str` writes it,
      `from_line(line).format()` is the stripped line with a newline. */
  lemma {:induction false} LineRoundTrip(line: string)
    requires CanonicalPage(line)
    ensures FromLine(line).Entry?
    ensures FromLine(line).bookmark.Format(0) == Rstrip(line) + "\n"
  {
    FromLineCases(line);
    var s := Rstrip(line);
    LastIndexOfSpec(s, ' ');
    SplitAround(s, LastIndexOf(s, ' '));
  }

  /** A label, one space and a page token with no space and no trailing
      whitespace parse to that label and the token's value. */
  lemma FromLineParts(name: string, tok: string, p: int)
    requires tok != [] && ' ' !in tok && !IsSpace(tok[|tok| - 1])
    requires ParseInt(tok) == Some(p)
    ensures FromLine(name + [' '] + tok) == Entry(Bookmark(name, p))
  {
    var line := name + [' '] + tok;
    assert line[|line| - 1] == tok[|tok| - 1];
    RstripIs(line, line);
    FromLineCases(line);
    LastIndexOfBefore(name, ' ', tok);
    assert line[..|name|] == name;
    assert line[|name| + 1..] == tok;
  }

  /** Without a page number written the way `str` writes it the round trip
      does not hold: a leading zero is read and then not written back. */
  lemma LeadingZeroDropped(b: Bookmark)
    requires b.pageNo >= 0
    ensures var line := b.name + " 0" + IntToDecimal(b.pageNo);
      && FromLine(line) == Entry(b)
      && FromLine(line).bookmark.Format(0) != Rstrip(line) + "\n"
  {
    var digits := "0" + IntToDecimal(b.pageNo);
    var line := b.name + " 0" + IntToDecimal(b.pageNo);
    assert line == b.name + [' '] + digits;
    assert !IsSpace(digits[|digits| - 1]);
    ParseLeadingZero(b.pageNo);
    FromLineParts(b.name, digits, b.pageNo);
    assert |b.Format(0)| < |line| + 1;
  }
}