/** What trimming and splitting into lines come to, for any text. */
module TextLaws {
  import opened Text

  /** Unicode White_Space. */
  predicate White(c: char) {
    var n := c as int;
    || 0x09 <= n <= 0x0D || n == 0x20 || n == 0x85 || n == 0xA0 || n == 0x1680
    || 0x2000 <= n <= 0x200A || n == 0x2028 || n == 0x2029 || n == 0x202F || n == 0x205F || n == 0x3000
  }

  predicate AllWhite(s: string) {
    forall i | 0 <= i < |s| :: White(s[i])
  }

  /** core is s without white space around it. */
  predicate Core(left: string, core: string, right: string) {
    AllWhite(left) && AllWhite(right) && (core != "" ==> !White(core[0]) && !White(core[|core| - 1]))
  }

  lemma {:induction false} SkipsLeft(left: string, s: string)
    requires AllWhite(left) && (s != "" ==> !White(s[0]))
    ensures TrimLeft(left + s) == s
  {
    if left == "" {
      assert left + s == s;
    } else {
      assert (left + s)[1..] == left[1..] + s;
      SkipsLeft(left[1..], s);
    }
  }

  lemma {:induction false} SkipsRight(s: string, right: string)
    requires AllWhite(right) && (s != "" ==> !White(s[|s| - 1]))
    ensures TrimRight(s + right) == s
  {
    if right == "" {
      assert s + right == s;
    } else {
      var r := right[..|right| - 1];
      assert (s + right)[..|s + right| - 1] == s + r;
      assert (s + right)[|s + right| - 1] == right[|right| - 1];
      SkipsRight(s, r);
    }
  }

  /** However a text is put together from a core and white space around it, trimming gives the core. */
  lemma TrimGivesTheCore(left: string, core: string, right: string)
    requires Core(left, core, right)
    ensures TrimSpace(left + core + right) == core
  {
    if core == "" {
      assert left + core + right == (left + right) + "";
      SkipsLeft(left + right, "");
    } else {
      assert left + core + right == left + (core + right);
      SkipsLeft(left, core + right);
      SkipsRight(core, right);
    }
  }

  /** Every text is put together like that. */
  lemma HasACore(s: string) returns (left: string, right: string)
    ensures Core(left, TrimSpace(s), right) && s == left + TrimSpace(s) + right
  {
    if AllWhite(s) {
      left, right := s, "";
      assert s == s + "" + "";
      TrimGivesTheCore(s, "", "");
    } else {
      var i := 0;
      while White(s[i])
        invariant 0 <= i < |s| && AllWhite(s[..i]) && !AllWhite(s[i..])
        decreases |s| - i
      {
        assert s[i..] == [s[i]] + s[i + 1..];
        i := i + 1;
      }
      var j := |s|;
      while White(s[j - 1])
        invariant i < j <= |s| && AllWhite(s[j..])
        decreases j
      {
        j := j - 1;
      }
      left, right := s[..i], s[j..];
      assert s == left + s[i..j] + right;
      TrimGivesTheCore(left, s[i..j], right);
    }
  }

  /** A line with anything but white space counts, without the white space around it ... */
  lemma PaddedLine(left: string, core: string, right: string, rest: string)
    requires Core(left, core, right) && core != "" && '\n' !in left + core + right
    ensures Lines(left + core + right + "\n" + rest) == [core] + Lines(rest)
  {
    SplitAtNewline(left + core + right, rest);
    TrimGivesTheCore(left, core, right);
  }

  /** ... and one without does not. */
  lemma BlankLine(blank: string, rest: string)
    requires AllWhite(blank) && '\n' !in blank
    ensures Lines(blank + "\n" + rest) == Lines(rest)
  {
    SplitAtNewline(blank, rest);
    assert blank + "" + "" == blank;
    TrimGivesTheCore(blank, "", "");
  }

  lemma {:induction false} OnePiece(line: string)
    requires '\n' !in line
    ensures Split(line) == [line]
  {
    if line == "" {
    } else {
      OnePiece(line[1..]);
      assert [line[0]] + line[1..] == line;
    }
  }

  /** A last line counts without a newline as well. */
  lemma LastLine(left: string, core: string, right: string)
    requires Core(left, core, right) && '\n' !in left + core + right
    ensures Lines(left + core + right) == if core == "" then [] else [core]
  {
    OnePiece(left + core + right);
    TrimGivesTheCore(left, core, right);
    assert KeepNonEmpty([left + core + right]) == (if core == "" then [] else [core]) + KeepNonEmpty([]);
  }

  /** Written lines are the lines themselves, one after the other, each with one newline. */
  lemma {:induction false} LinesAreWritten(a: seq<string>, b: seq<string>, line: string)
    ensures Unlines([line]) == line + "\n"
    ensures Unlines(a + b) == Unlines(a) + Unlines(b)
  {
    assert [line][1..] == [] && line + "\n" + "" == line + "\n";
    if a == [] {
      assert a + b == b;
    } else {
      assert (a + b)[1..] == a[1..] + b;
      LinesAreWritten(a[1..], b, line);
      assert a[0] + "\n" + (Unlines(a[1..]) + Unlines(b)) == a[0] + "\n" + Unlines(a[1..]) + Unlines(b);
    }
  }
}
