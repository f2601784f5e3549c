/** The three string operations of Python's `str` that the line parser relies on:
    `rstrip()` with no argument, `split(' ')` and `' '.join(...)`. */
module Text {

  /** The characters Python's `str.isspace` accepts; `rstrip()` with no
      argument removes exactly these from the end of a string. */
  const Whitespace: set<char> := {
    '\t', '\n', '\U{B}', '\U{C}', '\r', '\U{1C}', '\U{1D}', '\U{1E}', '\U{1F}', ' ',
    '\U{85}', '\U{A0}', '\U{1680}',
    '\U{2000}', '\U{2001}', '\U{2002}', '\U{2003}', '\U{2004}', '\U{2005}',
    '\U{2006}', '\U{2007}', '\U{2008}', '\U{2009}', '\U{200A}',
    '\U{2028}', '\U{2029}', '\U{202F}', '\U{205F}', '\U{3000}'
  }

  predicate IsSpace(c: char) {
    c in Whitespace
  }

  /** `s.rstrip()`: drop whitespace from the end of `s`. */
  function Rstrip(s: string): string
  {
    if s != [] && IsSpace(s[|s| - 1]) then Rstrip(s[..|s| - 1]) else s
  }

  /** `s.rstrip()` is a prefix of `s` that does not end in whitespace, and
      everything it drops is whitespace. */
  lemma {:induction false} RstripSpec(s: string)
    ensures Rstrip(s) <= s
    ensures Rstrip(s) == [] || !IsSpace(Rstrip(s)[|Rstrip(s)| - 1])
    ensures forall i :: |Rstrip(s)| <= i < |s| ==> IsSpace(s[i])
    decreases |s|
  {
    if s != [] && IsSpace(s[|s| - 1]) {
      RstripSpec(s[..|s| - 1]);
    }
  }

  /** The three properties of RstripSpec determine `s.rstrip()`: it is the
      longest prefix of `s` that does not end in whitespace. */
  lemma RstripIs(s: string, t: string)
    requires t <= s
    requires t == [] || !IsSpace(t[|t| - 1])
    requires forall i :: |t| <= i < |s| ==> IsSpace(s[i])
    ensures Rstrip(s) == t
  {
    RstripSpec(s);
  }

  /** `s.find(c)`: the index of the first `c` in `s`, or -1 (see IndexOfSpec). */
  function IndexOf(s: string, c: char): (r: int)
    ensures -1 <= r < |s|
    ensures 0 <= r ==> s[r] == c
  {
    if s == [] then -1
    else if s[0] == c then 0
    else
      var k := IndexOf(s[1..], c);
      if k < 0 then -1 else k + 1
  }

  /** `s.find(c)` is -1 exactly when `c` does not occur, and no `c` comes
      before the index it returns. */
  lemma {:induction false} IndexOfSpec(s: string, c: char)
    ensures IndexOf(s, c) == -1 ==> forall k :: 0 <= k < |s| ==> s[k] != c
    ensures forall k :: 0 <= k < IndexOf(s, c) ==> s[k] != c
    decreases |s|
  {
    if s != [] && s[0] != c {
      IndexOfSpec(s[1..], c);
      forall k | 1 <= k < |s| ensures s[k] == s[1..][k - 1] {}
    }
  }

  /** `s.rfind(c)`: the index of the last `c` in `s`, or -1 (see LastIndexOfSpec). */
  function LastIndexOf(s: string, c: char): (r: int)
    ensures -1 <= r < |s|
    ensures 0 <= r ==> s[r] == c
  {
    if s == [] then -1
    else if s[|s| - 1] == c then |s| - 1
    else LastIndexOf(s[..|s| - 1], c)
  }

  /** `s.rfind(c)` is -1 exactly when `c` does not occur, and no `c` comes
      after the index it returns. */
  lemma {:induction false} LastIndexOfSpec(s: string, c: char)
    ensures LastIndexOf(s, c) == -1 ==> forall k :: 0 <= k < |s| ==> s[k] != c
    ensures forall k :: LastIndexOf(s, c) < k < |s| ==> s[k] != c
    decreases |s|
  {
    if s != [] && s[|s| - 1] != c {
      var n := |s| - 1;
      LastIndexOfSpec(s[..n], c);
      forall k | 0 <= k < n ensures s[k] == s[..n][k] {}
    }
  }

  /** The first occurrence of `c` in `a + [c] + b` is at `|a|` when `a` has none. */
  lemma IndexOfAfter(a: string, c: char, b: string)
    requires c !in a
    ensures IndexOf(a + [c] + b, c) == |a|
  {
    var s := a + [c] + b;
    assert s[|a|] == c;
    IndexOfSpec(s, c);
  }

  /** The last occurrence of `c` in `a + [c] + b` is at `|a|` when `b` has none. */
  lemma LastIndexOfBefore(a: string, c: char, b: string)
    requires c !in b
    ensures LastIndexOf(a + [c] + b, c) == |a|
  {
    var s := a + [c] + b;
    assert s[|a|] == c;
    LastIndexOfSpec(s, c);
  }

  /** `' '.join(ws)`. */
  function Join(ws: seq<string>): string
  {
    if |ws| == 0 then ""
    else if |ws| == 1 then ws[0]
    else ws[0] + " " + Join(ws[1..])
  }

  /** `s.split(' ')`: the pieces between single spaces, scanned left to right. */
  function Split(s: string): (r: seq<string>)
    ensures |r| >= 1
    decreases |s|
  {
    var i := IndexOf(s, ' ');
    if i < 0 then [s] else [s[..i]] + Split(s[i + 1..])
  }

  /** Splitting never loses text: `' '.join(s.split(' ')) == s`, and every
      piece is free of spaces. */
  lemma JoinSplit(s: string)
    ensures Join(Split(s)) == s
    ensures forall k :: 0 <= k < |Split(s)| ==> ' ' !in Split(s)[k]
  {
    JoinSplitInverse(s);
    SplitPiecesHaveNoSpace(s);
  }

  /** A string is the text before index `i`, the character at `i` and the text after it. */
  lemma SplitAround(s: string, i: int)
    requires 0 <= i < |s|
    ensures s == s[..i] + [s[i]] + s[i + 1..]
  {
  }

  /** Joining a piece in front of at least one more puts a single space after it. */
  lemma JoinCons(w: string, rest: seq<string>)
    requires |rest| >= 1
    ensures Join([w] + rest) == w + " " + Join(rest)
  {
    assert ([w] + rest)[1..] == rest;
  }

  lemma {:induction false} JoinSplitInverse(s: string)
    ensures Join(Split(s)) == s
    decreases |s|
  {
    var i := IndexOf(s, ' ');
    if i >= 0 {
      var rest := Split(s[i + 1..]);
      JoinSplitInverse(s[i + 1..]);
      JoinCons(s[..i], rest);
      SplitAround(s, i);
    }
  }

  /** A piece without spaces in front of pieces without spaces. */
  lemma SpaceFreeCons(w: string, rest: seq<string>)
    requires ' ' !in w
    requires forall k :: 0 <= k < |rest| ==> ' ' !in rest[k]
    ensures forall k :: 0 <= k < |[w] + rest| ==> ' ' !in ([w] + rest)[k]
  {
    forall k | 0 <= k < |[w] + rest| ensures ' ' !in ([w] + rest)[k] {
      if k > 0 { assert ([w] + rest)[k] == rest[k - 1]; }
    }
  }

  /** The text before the first occurrence of `c` holds no `c`. */
  lemma BeforeIndexOf(s: string, c: char)
    requires 0 <= IndexOf(s, c)
    ensures c !in s[..IndexOf(s, c)]
  {
    IndexOfSpec(s, c);
    var w := s[..IndexOf(s, c)];
    forall j | 0 <= j < |w| ensures w[j] != c {
      assert w[j] == s[j];
    }
  }

  /** Pieces without spaces followed by one more piece without spaces. */
  lemma SpaceFreeSnoc(ws: seq<string>, t: string)
    requires forall k :: 0 <= k < |ws| ==> ' ' !in ws[k]
    requires ' ' !in t
    ensures forall k :: 0 <= k < |ws + [t]| ==> ' ' !in (ws + [t])[k]
  {
    forall k | 0 <= k < |ws + [t]| ensures ' ' !in (ws + [t])[k] {
      if k < |ws| { assert (ws + [t])[k] == ws[k]; }
    }
  }

  /** The text after the last occurrence of `c` holds no `c`. */
  lemma AfterLastIndexOf(s: string, c: char)
    requires 0 <= LastIndexOf(s, c)
    ensures c !in s[LastIndexOf(s, c) + 1..]
  {
    LastIndexOfSpec(s, c);
    var i := LastIndexOf(s, c);
    var t := s[i + 1..];
    forall j | 0 <= j < |t| ensures t[j] != c {
      assert t[j] == s[i + 1 + j];
    }
  }

  lemma {:induction false} SplitPiecesHaveNoSpace(s: string)
    ensures forall k :: 0 <= k < |Split(s)| ==> ' ' !in Split(s)[k]
    decreases |s|
  {
    var i := IndexOf(s, ' ');
    if i >= 0 {
      SplitPiecesHaveNoSpace(s[i + 1..]);
      BeforeIndexOf(s, ' ');
      SpaceFreeCons(s[..i], Split(s[i + 1..]));
    } else {
      IndexOfSpec(s, ' ');
    }
  }

  /** Joining one more piece puts a single space before it. */
  lemma {:induction false} JoinSnoc(ws: seq<string>, t: string)
    requires |ws| >= 1
    ensures Join(ws + [t]) == Join(ws) + " " + t
    decreases |ws|
  {
    if |ws| > 1 {
      assert (ws + [t])[1..] == ws[1..] + [t];
      JoinSnoc(ws[1..], t);
    }
  }

  /** Split undoes Join on space-free pieces: together with Split's contract,
      `split(' ')` and `' '.join` are inverse bijections. */
  lemma {:induction false} SplitJoin(ws: seq<string>)
    requires |ws| >= 1
    requires forall k :: 0 <= k < |ws| ==> ' ' !in ws[k]
    ensures Split(Join(ws)) == ws
    decreases |ws|
  {
    if |ws| > 1 {
      var tail := Join(ws[1..]);
      var s := ws[0] + [' '] + tail;
      assert Join(ws) == s;
      IndexOfAfter(ws[0], ' ', tail);
      assert s[..|ws[0]|] == ws[0];
      assert s[|ws[0]| + 1..] == tail;
      SplitJoin(ws[1..]);
      assert ws == [ws[0]] + ws[1..];
    }
  }

  /** Dropping the last element of `a + [x]` leaves `a`. */
  lemma DropLast<T>(a: seq<T>, x: T)
    ensures (a + [x])[..|a|] == a
  {
  }

  /** The last piece of `s.split(' ')` is the text after the last space, and the
      pieces before it are those of the text before that space. */
  lemma SplitLast(s: string)
    requires ' ' in s
    ensures var i := LastIndexOf(s, ' ');
      0 <= i && Split(s) == Split(s[..i]) + [s[i + 1..]]
  {
    var i := LastIndexOf(s, ' ');
    var ws := Split(s[..i]);
    var t := s[i + 1..];
    LastIndexOfSpec(s, ' ');
    JoinSplit(s[..i]);
    JoinSnoc(ws, t);
    SplitAround(s, i);
    AfterLastIndexOf(s, ' ');
    SpaceFreeSnoc(ws, t);
    SplitJoin(ws + [t]);
  }
}
