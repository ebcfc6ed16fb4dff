/** Text helpers shared by the state file, the trusted-key file and the sudoers check. */
module Text {

  /** The code points Go's strings.TrimSpace removes (Unicode White_Space). */
  predicate IsSpace(c: char) {
    || c in "\t\n\r "
    || c as int in {0x0B, 0x0C, 0x85, 0xA0, 0x1680, 0x2028, 0x2029, 0x202F, 0x205F, 0x3000}
    || 0x2000 <= c as int <= 0x200A
  }

  function TrimLeft(s: string): string {
    if s != "" && IsSpace(s[0]) then TrimLeft(s[1..]) else s
  }

  function TrimRight(s: string): string {
    if s != "" && IsSpace(s[|s| - 1]) then TrimRight(s[..|s| - 1]) else s
  }

  function TrimSpace(s: string): string {
    TrimRight(TrimLeft(s))
  }

  predicate HasPrefix(s: string, prefix: string) {
    prefix <= s
  }

  /** strings.Split(s, "\n"): the pieces between newlines, at least one. */
  function Split(s: string): (pieces: seq<string>)
    ensures |pieces| >= 1
  {
    if s == "" then [""]
    else if s[0] == '\n' then [""] + Split(s[1..])
    else
      var rest := Split(s[1..]);
      [[s[0]] + rest[0]] + rest[1..]
  }

  /** Trim every piece and drop the empty ones, keeping the order. */
  function KeepNonEmpty(pieces: seq<string>): seq<string> {
    if pieces == [] then []
    else
      var line := TrimSpace(pieces[0]);
      (if line == "" then [] else [line]) + KeepNonEmpty(pieces[1..])
  }

  /** The trimmed non-empty lines of s, in order. */
  function Lines(s: string): seq<string> {
    KeepNonEmpty(Split(s))
  }

  /** Each line followed by a newline. */
  function Unlines(lines: seq<string>): string {
    if lines == [] then "" else lines[0] + "\n" + Unlines(lines[1..])
  }

  /** A line that survives writing and re-reading: not empty, no newline, no surrounding space. */
  predicate PlainLine(line: string) {
    line != "" && '\n' !in line && TrimSpace(line) == line
  }

  lemma {:induction false} SplitAtNewline(line: string, rest: string)
    requires '\n' !in line
    ensures Split(line + "\n" + rest) == [line] + Split(rest)
  {
    var s := line + "\n" + rest;
    if line == "" {
      assert s[1..] == rest;
    } else {
      SplitAtNewline(line[1..], rest);
      assert s[1..] == line[1..] + "\n" + rest;
      assert [line[0]] + line[1..] == line;
    }
  }

  /** Reading back what was written gives exactly the lines written. */
  lemma {:induction false} LinesInvertUnlines(lines: seq<string>)
    requires forall l | l in lines :: PlainLine(l)
    ensures Lines(Unlines(lines)) == lines
  {
    if lines == [] {
      assert KeepNonEmpty([""]) == [] + KeepNonEmpty([]);
    } else {
      var rest := Unlines(lines[1..]);
      assert PlainLine(lines[0]);
      LinesInvertUnlines(lines[1..]);
      SplitAtNewline(lines[0], rest);
      var pieces := Split(Unlines(lines));
      assert pieces == [lines[0]] + Split(rest);
      assert pieces[1..] == Split(rest);
      assert KeepNonEmpty(pieces) == [lines[0]] + KeepNonEmpty(Split(rest));
    }
  }
}
