/** The name of the output file: `filename.with_name(filename.stem + '_out' +
    filename.suffix)`, on the final component of the path. `suffix` is the
    text from the last dot on, provided that dot is neither the first nor the
    last character of the name; `stem` is the rest. */
module OutputName {
  import opened Text

  /** Whether the last dot of `name` starts a suffix. */
  predicate HasSuffix(name: string) {
    var i := LastIndexOf(name, '.');
    0 < i < |name| - 1
  }

  /** `Path(name).suffix`. */
  function Suffix(name: string): string {
    if HasSuffix(name) then name[LastIndexOf(name, '.')..] else ""
  }

  /** `Path(name).stem`. */
  function Stem(name: string): string {
    if HasSuffix(name) then name[..LastIndexOf(name, '.')] else name
  }

  /** The stem followed by `_out` and the suffix. */
  function OutName(name: string): string {
    Stem(name) + "_out" + Suffix(name)
  }

  /** The stem and the suffix split the name: the suffix is empty or is a dot
      followed by at least one character and no further dot, and the stem of
      a non-empty name is not empty. */
  lemma StemSuffixSplit(name: string)
    ensures Stem(name) + Suffix(name) == name
    ensures Suffix(name) == "" ||
      (|Suffix(name)| >= 2 && Suffix(name)[0] == '.' && '.' !in Suffix(name)[1..])
    ensures name != "" ==> Stem(name) != ""
  {
    if HasSuffix(name) {
      var i := LastIndexOf(name, '.');
      assert name == name[..i] + name[i..];
      AfterLastIndexOf(name, '.');
      assert Suffix(name)[1..] == name[i + 1..];
    }
  }

  /** A dot with text on both sides and no later dot starts the suffix:
      `Path(a + '.' + b)` has stem `a` and suffix `'.' + b`. */
  lemma SuffixAtLastDot(a: string, b: string)
    requires a != [] && b != [] && '.' !in b
    ensures Stem(a + "." + b) == a
    ensures Suffix(a + "." + b) == "." + b
  {
    var name := a + "." + b;
    assert name == a + ['.'] + b;
    LastIndexOfBefore(a, '.', b);
    assert name[..|a|] == a;
    assert name[|a|..] == "." + b;
  }

  /** There is no suffix exactly when the name is empty, ends in a dot, or
      has no dot after its first character; the stem is then the whole name. */
  lemma SuffixEmpty(name: string)
    ensures Suffix(name) == "" <==>
      (name == [] || name[|name| - 1] == '.' || forall j :: 0 < j < |name| ==> name[j] != '.')
    ensures Suffix(name) == "" ==> Stem(name) == name
  {
    LastIndexOfSpec(name, '.');
    var i := LastIndexOf(name, '.');
    if HasSuffix(name) {
      assert |Suffix(name)| >= 2;
      assert name[i] == '.';
      assert name[|name| - 1] != '.';
    } else if name != [] && name[|name| - 1] != '.' {
      assert i < |name| - 1;
      assert i <= 0;
    }
  }

  /** The output name is four characters longer than the input name, so it is
      never the input name and the input file is never overwritten. */
  lemma OutNameDiffers(name: string)
    ensures |OutName(name)| == |name| + 4
    ensures OutName(name) != name
  {
    StemSuffixSplit(name);
  }

  /** When the name does not end in a dot, the output name keeps its suffix
      and its stem gains `_out`. */
  lemma {:induction false} OutNameKeepsSuffix(name: string)
    requires name == "" || name[|name| - 1] != '.'
    ensures Suffix(OutName(name)) == Suffix(name)
    ensures Stem(OutName(name)) == Stem(name) + "_out"
  {
    var stem, suffix := Stem(name), Suffix(name);
    StemSuffixSplit(name);
    if HasSuffix(name) {
      var i := LastIndexOf(name, '.');
      var out := stem + "_out" + suffix;
      assert out == (stem + "_out") + [suffix[0]] + suffix[1..];
      LastIndexOfBefore(stem + "_out", '.', suffix[1..]);
      assert out[|stem| + 4..] == suffix;
      assert out[..|stem| + 4] == stem + "_out";
    } else {
      var i := LastIndexOf(name, '.');
      assert stem == name;
      var out := name + "_out";
      LastIndexOfSpec(name, '.');
      if i < 0 {
        assert '.' !in out by {
          forall j | 0 <= j < |out| ensures out[j] != '.' {
            if j < |name| { assert out[j] == name[j]; }
          }
        }
        assert LastIndexOf(out, '.') < 0;
      } else {
        assert i == 0;
        assert out == name[..i] + ['.'] + (name[i + 1..] + "_out");
        assert '.' !in name[i + 1..] + "_out" by {
          AfterLastIndexOf(name, '.');
          var t := name[i + 1..] + "_out";
          forall j | 0 <= j < |t| ensures t[j] != '.' {
            if j < |name| - i - 1 { assert t[j] == name[i + 1..][j]; }
          }
        }
        LastIndexOfBefore(name[..i], '.', name[i + 1..] + "_out");
      }
    }
  }

  /** Two sample names: `notes.toc` and `toc.txt`. */
  lemma OutNameExamples()
    ensures OutName("notes.toc") == "notes_out.toc"
    ensures OutName("toc.txt") == "toc_out.txt"
  {
    assert "notes.toc" == "notes" + ['.'] + "toc";
    LastIndexOfBefore("notes", '.', "toc");
    assert "toc.txt" == "toc" + ['.'] + "txt";
    LastIndexOfBefore("toc", '.', "txt");
  }
}
