/** Python's `str.splitlines` and the line-wise writing it undoes. */
module PyLines {
  import opened Text

  /** The characters at which `splitlines` breaks a line. */
  predicate IsLineBreak(c: char) {
    '\n' <= c <= '\r' || '\U{1C}' <= c <= '\U{1E}' || c == '\U{85}' || c == '\U{2028}' || c == '\U{2029}'
  }

  /** The ten of them by name: line feed, vertical tab, form feed, carriage return, the file,
      group and record separators, the next line, and the line and paragraph separators. */
  lemma LineBreaks(c: char)
    ensures IsLineBreak(c) <==>
              c as int in {0x0A, 0x0B, 0x0C, 0x0D, 0x1C, 0x1D, 0x1E, 0x85, 0x2028, 0x2029}
  {
  }

  predicate OneLine(s: string) {
    forall i :: 0 <= i < |s| ==> !IsLineBreak(s[i])
  }

  /** Lines without their terminators; a final terminator opens no further line. */
  function SplitLines(s: string): seq<string> {
    if s == "" then []
    else if IsLineBreak(s[0]) then
      [""] + SplitLines(if s[0] == '\r' && |s| > 1 && s[1] == '\n' then s[2..] else s[1..])
    else
      var r := SplitLines(s[1..]);
      if r == [] then [[s[0]]] else [[s[0]] + r[0]] + r[1..]
  }

  /** `"\n".join(lines)` with a final newline when there are lines. */
  function JoinLines(lines: seq<string>): string {
    if lines == [] then "" else lines[0] + "\n" + JoinLines(lines[1..])
  }

  lemma {:induction false} FirstLine(line: string, newline: string, rest: string)
    requires OneLine(line) && (newline == "\n" || newline == "\r\n")
    ensures SplitLines(line + newline + rest) == [line] + SplitLines(rest)
  {
    var s := line + newline + rest;
    if line == "" {
      assert s == newline + rest && s[|newline|..] == rest;
    } else {
      assert s[0] == line[0] && s[1..] == line[1..] + newline + rest;
      FirstLine(line[1..], newline, rest);
      assert line == [line[0]] + line[1..];
    }
  }

  /** Reading back what was written line by line. */
  lemma {:induction false} SplitJoined(lines: seq<string>)
    requires forall i :: 0 <= i < |lines| ==> OneLine(lines[i])
    ensures SplitLines(JoinLines(lines)) == lines
  {
    if lines != [] {
      SplitJoined(lines[1..]);
      FirstLine(lines[0], "\n", JoinLines(lines[1..]));
    }
  }

  lemma {:induction false} SplitIsClean(s: string)
    ensures forall i :: 0 <= i < |SplitLines(s)| ==> OneLine(SplitLines(s)[i])
  {
    if s != "" {
      SplitIsClean(s[1..]);
      if |s| > 1 {
        SplitIsClean(s[2..]);
      }
    }
  }
}
