/** The text of an environment file: lines with the separators between them, and
    the last-wins map from keys to the lines that define them. */
module EnvText {
  import opened Text

  const CRLF: string := "\r\n"

  /** A text cut at its line terminators; the terminators are kept. */
  datatype Doc = Last(text: string) | Line(text: string, sep: string, rest: Doc)

  predicate IsBreak(c: char) {
    c == '\r' || c == '\n'
  }

  predicate NoBreak(s: string) {
    forall i :: 0 <= i < |s| ==> !IsBreak(s[i])
  }

  /** Length of the terminator at the front of `s`: CR LF counts as one. */
  function TerminatorLen(s: string): (n: nat)
    requires s != "" && IsBreak(s[0])
    ensures 1 <= n <= 2 && n <= |s|
  {
    if s[0] == '\r' && |s| > 1 && s[1] == '\n' then 2 else 1
  }

  function Prepend(c: char, d: Doc): Doc {
    match d
    case Last(t) => Last([c] + t)
    case Line(t, sep, rest) => Line([c] + t, sep, rest)
  }

  function Split(s: string): Doc {
    if s == "" then Last("")
    else if IsBreak(s[0]) then
      var k := TerminatorLen(s);
      Line("", s[..k], Split(s[k..]))
    else Prepend(s[0], Split(s[1..]))
  }

  function Join(d: Doc): string {
    match d
    case Last(t) => t
    case Line(t, sep, rest) => t + sep + Join(rest)
  }

  predicate IsTerminator(sep: string) {
    sep == CRLF || sep == "\r" || sep == "\n"
  }

  predicate StartsWithLf(s: string) {
    s != "" && s[0] == '\n'
  }

  /** The documents that Split produces: no terminator hides in a line, and no
      two separators would fuse into one CR LF. */
  predicate Canonical(d: Doc) {
    match d
    case Last(t) => NoBreak(t)
    case Line(t, sep, rest) =>
      && NoBreak(t) && IsTerminator(sep) && Canonical(rest)
      && (sep == "\r" ==> !StartsWithLf(Join(rest)))
  }

  lemma JoinPrepend(c: char, d: Doc)
    ensures Join(Prepend(c, d)) == [c] + Join(d)
  {
    match d
    case Last(_) =>
    case Line(t, sep, rest) => assert [c] + t + sep + Join(rest) == [c] + (t + sep + Join(rest));
  }

  lemma {:induction false} SplitThenJoin(s: string)
    ensures Canonical(Split(s))
    ensures Join(Split(s)) == s
  {
    if s != "" {
      if IsBreak(s[0]) {
        var k := TerminatorLen(s);
        SplitThenJoin(s[k..]);
        assert s == s[..k] + s[k..];
        assert k == 1 ==> s[..k] == [s[0]];
        assert k == 2 ==> s[..k] == [s[0], s[1]];
      } else {
        SplitThenJoin(s[1..]);
        JoinPrepend(s[0], Split(s[1..]));
        assert s == [s[0]] + s[1..];
      }
    }
  }

  lemma {:induction false} JoinThenSplit(d: Doc)
    requires Canonical(d)
    ensures Split(Join(d)) == d
    decreases |Join(d)|
  {
    if d.text != "" {
      var c := d.text[0];
      var e := d.(text := d.text[1..]);
      assert d.text == [c] + e.text;
      assert Prepend(c, e) == d;
      JoinPrepend(c, e);
      JoinThenSplit(e);
      assert Join(d)[1..] == Join(e);
    } else if d.Line? {
      var s := Join(d);
      assert s == d.sep + Join(d.rest);
      assert s[|d.sep|..] == Join(d.rest) && s[..|d.sep|] == d.sep;
      JoinThenSplit(d.rest);
    }
  }

  function Texts(d: Doc): (r: seq<string>)
    ensures r != []
  {
    match d
    case Last(t) => [t]
    case Line(t, _, rest) => [t] + Texts(rest)
  }

  function LinesOf(s: string): seq<string> {
    Texts(Split(s))
  }

  lemma {:induction false} LinesHaveNoBreak(d: Doc)
    requires Canonical(d)
    ensures forall i :: 0 <= i < |Texts(d)| ==> NoBreak(Texts(d)[i])
  {
    if d.Line? {
      LinesHaveNoBreak(d.rest);
    }
  }

  // ---- Keys ----

  predicate IsComment(line: string) {
    StartsWith(TrimStart(DotNet, line), "#")
  }

  /** The key a line defines, case folded, as the map reader sees it. */
  function LineKey(line: string): Option<string> {
    var i := IndexOf(line, '=');
    if IsComment(line) || i == |line| then None
    else
      var key := Trim(DotNet, line[..i]);
      if key == "" then None else Some(Fold(key))
  }

  /** The value part of a line: what follows the first `=`, trimmed. */
  function ValueOf(line: string): string {
    var i := IndexOf(line, '=');
    if i == |line| then "" else Trim(DotNet, line[i + 1..])
  }

  predicate IsIdentStart(c: char) {
    'A' <= c <= 'Z' || 'a' <= c <= 'z' || c == '_'
  }

  predicate IsIdentChar(c: char) {
    IsIdentStart(c) || '0' <= c <= '9'
  }

  predicate IsIdent(s: string) {
    s != "" && IsIdentStart(s[0]) && forall i :: 0 <= i < |s| ==> IsIdentChar(s[i])
  }

  /** Where the identifier characters that start at `i` end. */
  function IdentEnd(s: string, i: nat): (n: nat)
    requires i <= |s|
    ensures i <= n <= |s| && (forall j :: i <= j < n ==> IsIdentChar(s[j]))
    ensures n < |s| ==> !IsIdentChar(s[n])
    decreases |s| - i
  {
    if i == |s| || !IsIdentChar(s[i]) then i else IdentEnd(s, i + 1)
  }

  /** The key a line defines as the line rewriter sees it: an identifier, with
      optional white space around it, before an equals sign. */
  function RewriterKey(line: string): Option<string> {
    var a := SpaceEnd(DotNet, line, 0);
    var b := IdentEnd(line, a);
    var c := SpaceEnd(DotNet, line, b);
    if a < b && IsIdentStart(line[a]) && c < |line| && line[c] == '=' then Some(line[a..b]) else None
  }

  lemma IdentFacts()
    ensures forall c :: IsIdentChar(c) ==> c != '=' && c != '#' && !IsSpace(DotNet, c)
    ensures !IsSpace(DotNet, '=') && !IsIdentChar('=')
  {
  }

  /** The characters of an identifier, and those it may begin with. */
  lemma IdentCharacters(c: char)
    ensures IsIdentStart(c) <==> 0x41 <= c as int <= 0x5A || c as int == 0x5F || 0x61 <= c as int <= 0x7A
    ensures IsIdentChar(c) <==> IsIdentStart(c) || 0x30 <= c as int <= 0x39
  {
  }

  lemma FoldKeepsIdent(a: string, b: string)
    requires Fold(a) == Fold(b) && IsIdent(b)
    ensures IsIdent(a)
  {
    forall i | 0 <= i < |a|
      ensures IsIdentChar(a[i]) && (i == 0 ==> IsIdentStart(a[i]))
    {
      assert Fold(a)[i] == FoldChar(a[i]) && Fold(b)[i] == FoldChar(b[i]);
      assert IsIdentChar(b[i]);
    }
  }

  /** A line that defines the identifier `line[a..b]`: white space, the key,
      white space, and an equals sign at `c`. */
  ghost predicate KeyShape(line: string, a: nat, b: nat, c: nat) {
    && a < b <= c < |line| && line[c] == '='
    && (forall i :: 0 <= i < a ==> IsSpace(DotNet, line[i]))
    && (forall i :: a <= i < b ==> IsIdentChar(line[i])) && IsIdentStart(line[a])
    && (forall i :: b <= i < c ==> IsSpace(DotNet, line[i]))
  }

  lemma ShapeHasLineKey(line: string, a: nat, b: nat, c: nat)
    requires KeyShape(line, a, b, c)
    ensures LineKey(line) == Some(Fold(line[a..b]))
  {
    IdentFacts();
    hide IsSpace, IsIdentChar;
    assert IsIdentChar(line[a]);
    assert IndexOf(line, '=') == c;
    assert SpaceEnd(DotNet, line, 0) == a;
    TrimUnique(DotNet, line[..c], a, b);
    assert line[..c][a..b] == line[a..b];
  }

  lemma ShapeHasRewriterKey(line: string, a: nat, b: nat, c: nat)
    requires KeyShape(line, a, b, c)
    ensures RewriterKey(line) == Some(line[a..b])
  {
    IdentFacts();
    hide IsSpace, IsIdentChar;
    assert IsIdentChar(line[a]);
    assert SpaceEnd(DotNet, line, 0) == a;
    assert !IsIdentChar(line[b]) by {
      assert b < c ==> IsSpace(DotNet, line[b]);
    }
    assert IdentEnd(line, a) == b;
    assert SpaceEnd(DotNet, line, b) == c;
  }

  lemma RewriterKeyHasShape(line: string) returns (a: nat, b: nat, c: nat)
    requires RewriterKey(line).Some?
    ensures KeyShape(line, a, b, c)
  {
    hide IsSpace, IsIdentChar;
    a := SpaceEnd(DotNet, line, 0);
    b := IdentEnd(line, a);
    c := SpaceEnd(DotNet, line, b);
  }

  lemma LineKeyHasShape(line: string, key: string) returns (a: nat, b: nat, c: nat)
    requires IsIdent(key) && LineKey(line) == Some(Fold(key))
    ensures KeyShape(line, a, b, c) && Fold(line[a..b]) == Fold(key)
  {
    hide IsSpace, IsIdentChar, IsIdentStart;
    c := IndexOf(line, '=');
    var p := line[..c];
    a, b := TrimBounds(DotNet, p);
    FoldKeepsIdent(p[a..b], key);
    assert p[a..b] == line[a..b];
    forall i | a <= i < b
      ensures IsIdentChar(line[i])
    {
      assert line[i] == line[a..b][i - a];
    }
    assert line[a] == line[a..b][0];
  }

  // ---- What a line defines, in its characters ----

  /** `a` is the first character of the line that is no white space, before an equals
      sign at `c`, the first one; the key ends at `b`. */
  ghost predicate KeyAt(line: string, a: nat, b: nat, c: nat) {
    && a < b <= c < |line| && line[c] == '='
    && (forall i :: 0 <= i < c ==> line[i] != '=')
    && (forall i :: 0 <= i < a ==> IsSpace(DotNet, line[i])) && !IsSpace(DotNet, line[a])
    && (forall i :: b <= i < c ==> IsSpace(DotNet, line[i])) && !IsSpace(DotNet, line[b - 1])
  }

  lemma KeyAtHasLineKey(line: string, a: nat, b: nat, c: nat)
    requires KeyAt(line, a, b, c)
    ensures LineKey(line) == if line[a] == '#' then None else Some(Fold(line[a..b]))
  {
    hide IsSpace, Fold;
    assert IndexOf(line, '=') == c;
    assert SpaceEnd(DotNet, line, 0) == a;
    TrimUnique(DotNet, line[..c], a, b);
    SliceOfSlice(line, 0, c, a, b);
  }

  lemma LineKeyIsAt(line: string) returns (a: nat, b: nat, c: nat)
    requires LineKey(line).Some?
    ensures KeyAt(line, a, b, c)
  {
    hide IsSpace, Fold;
    c := IndexOf(line, '=');
    a, b := TrimBounds(DotNet, line[..c]);
  }

  /** A line defines a key exactly when it has one in front of its first equals sign
      and does not begin with `#`; the key is that text without its case. */
  lemma LineKeyMeans(line: string, key: string)
    ensures LineKey(line) == Some(key) <==>
              exists a: nat, b: nat, c: nat :: KeyAt(line, a, b, c) && line[a] != '#' && Fold(line[a..b]) == key
  {
    hide IsSpace, Fold;
    if LineKey(line) == Some(key) {
      var a, b, c := LineKeyIsAt(line);
      KeyAtHasLineKey(line, a, b, c);
    }
    if a: nat, b: nat, c: nat :| KeyAt(line, a, b, c) && line[a] != '#' && Fold(line[a..b]) == key {
      KeyAtHasLineKey(line, a, b, c);
    }
  }

  lemma EqualsIsNoSpace()
    ensures !IsSpace(DotNet, '=') && !IsSpace(DotNet, '#')
  {
  }

  /** A comment defines no key, whatever equals signs it has, and neither does a line
      with nothing in front of its equals sign, or without one. */
  lemma NoKey(line: string, a: nat)
    requires a <= |line| && forall i :: 0 <= i < a ==> IsSpace(DotNet, line[i])
    requires a == |line| || line[a] == '#' || line[a] == '=' || '=' !in line
    ensures LineKey(line) == None
  {
    EqualsIsNoSpace();
    hide IsSpace, Fold;
    if LineKey(line).Some? {
      var x, y, z := LineKeyIsAt(line);
      KeyAtHasLineKey(line, x, y, z);
      assert false;
    }
  }

  /** The value of a line: what stands behind the first equals sign, trimmed. */
  lemma ValueMeans(line: string, c: nat, a: nat, b: nat)
    requires c < |line| && line[c] == '=' && forall i :: 0 <= i < c ==> line[i] != '='
    requires TrimmedAt(DotNet, line[c + 1..], a, b)
    ensures ValueOf(line) == line[c + 1..][a..b]
  {
    hide Trim;
    assert IndexOf(line, '=') == c;
    TrimUnique(DotNet, line[c + 1..], a, b);
  }

  lemma ValueWithoutEquals(line: string)
    requires '=' !in line
    ensures ValueOf(line) == ""
  {
    var i := IndexOf(line, '=');
  }

  predicate Defines(line: string, key: string) {
    LineKey(line) == Some(Fold(key))
  }

  predicate RewriterMatches(line: string, key: string) {
    RewriterKey(line).Some? && Fold(RewriterKey(line).value) == Fold(key)
  }

  /** Two readers of one format: the line rewriter finds a line for an identifier
      exactly when the map reader files that line under the same key. */
  lemma ReadersAgree(line: string, key: string)
    requires IsIdent(key)
    ensures RewriterMatches(line, key) <==> Defines(line, key)
  {
    hide LineKey, RewriterKey, IsIdent;
    if RewriterKey(line).Some? {
      var a, b, c := RewriterKeyHasShape(line);
      ShapeHasLineKey(line, a, b, c);
      ShapeHasRewriterKey(line, a, b, c);
    }
    if Defines(line, key) {
      var a, b, c := LineKeyHasShape(line, key);
      ShapeHasRewriterKey(line, a, b, c);
    }
  }

  // ---- Key maps ----

  function LineMap(line: string): map<string, string> {
    match LineKey(line)
    case None => map[]
    case Some(key) => map[key := line]
  }

  /** Each folded key with the last line that defines it. */
  function KeyMap(lines: seq<string>): map<string, string> {
    if lines == [] then map[] else LineMap(lines[0]) + KeyMap(lines[1..])
  }

  function Lookup(m: map<string, string>, k: string): Option<string> {
    if k in m then Some(m[k]) else None
  }

  /** The value a map gives a folded key; blank when the key is absent. */
  function ValueIn(m: map<string, string>, k: string): string {
    if k in m then ValueOf(m[k]) else ""
  }

  /** How many lines define the folded key `k`. */
  function Count(lines: seq<string>, k: string): nat {
    if lines == [] then 0 else (if LineKey(lines[0]) == Some(k) then 1 else 0) + Count(lines[1..], k)
  }

  /** The map of a key: some line defines it, and the last such line wins. */
  ghost predicate LastDefinition(lines: seq<string>, k: string, i: nat) {
    && i < |lines| && LineKey(lines[i]) == Some(k)
    && forall j :: i < j < |lines| ==> LineKey(lines[j]) != Some(k)
  }

  lemma {:induction false} KeyMapIsLastWins(lines: seq<string>, k: string) returns (i: nat)
    ensures k in KeyMap(lines) ==> LastDefinition(lines, k, i) && KeyMap(lines)[k] == lines[i]
    ensures k !in KeyMap(lines) ==> forall j :: 0 <= j < |lines| ==> LineKey(lines[j]) != Some(k)
  {
    hide LineKey;
    i := 0;
    if lines != [] {
      var tail := lines[1..];
      i := KeyMapIsLastWins(tail, k);
      assert forall j :: 1 <= j < |lines| ==> lines[j] == tail[j - 1];
      i := if k in KeyMap(tail) then i + 1 else 0;
    }
  }

  lemma {:induction false} KeyMapOfConcat(a: seq<string>, b: seq<string>)
    ensures KeyMap(a + b) == KeyMap(a) + KeyMap(b)
  {
    hide LineMap;
    if a == [] {
      assert a + b == b;
    } else {
      assert (a + b)[0] == a[0] && (a + b)[1..] == a[1..] + b;
      KeyMapOfConcat(a[1..], b);
      var m, x, y := LineMap(a[0]), KeyMap(a[1..]), KeyMap(b);
      assert (m + x) + y == m + (x + y);
    }
  }

  lemma {:induction false} KeyMapEntries(lines: seq<string>)
    ensures forall k :: k in KeyMap(lines) ==> KeyMap(lines)[k] in lines && LineKey(KeyMap(lines)[k]) == Some(k)
  {
    if lines != [] {
      KeyMapEntries(lines[1..]);
    }
  }

  lemma {:induction false} CountIsPresence(lines: seq<string>, k: string)
    ensures Count(lines, k) > 0 <==> k in KeyMap(lines)
  {
    if lines != [] {
      CountIsPresence(lines[1..], k);
    }
  }

  /** The first line that defines `k` is replaced by `line`. */
  function ReplaceFirst(lines: seq<string>, k: string, line: string): (r: seq<string>)
    ensures |r| == |lines|
  {
    if lines == [] then []
    else if LineKey(lines[0]) == Some(k) then [line] + lines[1..]
    else [lines[0]] + ReplaceFirst(lines[1..], k, line)
  }

  function FirstDefinition(lines: seq<string>, k: string): string
    requires Count(lines, k) > 0
  {
    if LineKey(lines[0]) == Some(k) then lines[0] else FirstDefinition(lines[1..], k)
  }

  lemma KeyMapOfCons(head: string, tail: seq<string>)
    ensures KeyMap([head] + tail) == LineMap(head) + KeyMap(tail)
  {
    assert ([head] + tail)[1..] == tail;
  }

  lemma CountOfCons(head: string, tail: seq<string>, k: string)
    ensures Count([head] + tail, k) == (if LineKey(head) == Some(k) then 1 else 0) + Count(tail, k)
  {
    assert ([head] + tail)[1..] == tail;
  }

  lemma FirstReplacedInMap(head: string, tail: seq<string>, k: string, line: string)
    requires LineKey(head) == Some(k) && LineKey(line) == Some(k)
    ensures KeyMap([line] + tail)
         == if Count([head] + tail, k) == 1 then KeyMap([head] + tail)[k := line] else KeyMap([head] + tail)
  {
    hide LineKey;
    KeyMapOfCons(head, tail);
    KeyMapOfCons(line, tail);
    CountOfCons(head, tail, k);
    CountIsPresence(tail, k);
    hide KeyMap, Count;
  }

  lemma UpdateBehind(m: map<string, string>, n: map<string, string>, k: string, line: string)
    ensures m + n[k := line] == (m + n)[k := line]
  {
  }

  /** First-match rewriting against last-wins reading: the map follows the rewrite
      only when a single line defines the key. */
  lemma {:induction false} ReplaceFirstInMap(lines: seq<string>, k: string, line: string)
    requires LineKey(line) == Some(k)
    ensures KeyMap(ReplaceFirst(lines, k, line))
         == if Count(lines, k) == 1 then KeyMap(lines)[k := line] else KeyMap(lines)
  {
    hide LineKey, LineMap;
    if lines != [] {
      hide KeyMap, Count;
      var head, tail := lines[0], lines[1..];
      assert lines == [head] + tail;
      if LineKey(head) == Some(k) {
        FirstReplacedInMap(head, tail, k, line);
      } else {
        ReplaceFirstInMap(tail, k, line);
        KeyMapOfCons(head, tail);
        CountOfCons(head, tail, k);
        KeyMapOfCons(head, ReplaceFirst(tail, k, line));
        UpdateBehind(LineMap(head), KeyMap(tail), k, line);
      }
    }
  }

  lemma {:induction false} ReplaceFirstInCount(lines: seq<string>, k: string, line: string, j: string)
    requires LineKey(line) == Some(k)
    ensures Count(ReplaceFirst(lines, k, line), j) == Count(lines, j)
    ensures Count(lines, j) > 0 ==>
              FirstDefinition(ReplaceFirst(lines, k, line), j) == if j == k then line else FirstDefinition(lines, j)
  {
    hide LineKey;
    if lines != [] {
      var tail := lines[1..];
      if LineKey(lines[0]) == Some(k) {
        assert ([line] + tail)[1..] == tail;
      } else {
        ReplaceFirstInCount(tail, k, line, j);
        assert ReplaceFirst(lines, k, line)[1..] == ReplaceFirst(tail, k, line);
      }
    }
  }

  lemma {:induction false} ReplaceFirstBySame(lines: seq<string>, k: string)
    requires Count(lines, k) > 0
    ensures ReplaceFirst(lines, k, FirstDefinition(lines, k)) == lines
  {
    hide LineKey;
    if LineKey(lines[0]) != Some(k) {
      ReplaceFirstBySame(lines[1..], k);
    }
  }

  lemma {:induction false} FirstInConcat(a: seq<string>, b: seq<string>, k: string)
    ensures Count(a + b, k) == Count(a, k) + Count(b, k)
    ensures Count(a, k) > 0 ==> FirstDefinition(a + b, k) == FirstDefinition(a, k)
  {
    hide LineKey;
    if a == [] {
      assert a + b == b;
    } else {
      assert (a + b)[0] == a[0] && (a + b)[1..] == a[1..] + b;
      FirstInConcat(a[1..], b, k);
    }
  }

  // ---- Texts put together ----

  function TextMap(s: string): map<string, string> {
    KeyMap(LinesOf(s))
  }

  lemma TextsPrepend(c: char, d: Doc)
    ensures Texts(Prepend(c, d)) == [[c] + Texts(d)[0]] + Texts(d)[1..]
  {
  }

  lemma {:induction false} LinesOfConcat(a: string, b: string)
    ensures LinesOf(a + CRLF + b) == LinesOf(a) + LinesOf(b)
    decreases |a|
  {
    var s := a + CRLF + b;
    if a == "" {
      assert s == CRLF + b && s[2..] == b;
    } else if IsBreak(a[0]) {
      var k := TerminatorLen(a);
      assert TerminatorLen(s) == k && s[k..] == a[k..] + CRLF + b;
      LinesOfConcat(a[k..], b);
    } else {
      assert s[0] == a[0] && s[1..] == a[1..] + CRLF + b;
      LinesOfConcat(a[1..], b);
      TextsPrepend(a[0], Split(a[1..]));
      TextsPrepend(a[0], Split(s[1..]));
    }
  }

  /** What separates the end of a text from lines appended to it. */
  function Newline(text: string): string {
    if text == "" || EndsWith(text, CRLF) then "" else CRLF
  }

  /** Appending leaves the lines before it alone, but for the empty line that a
      final separator leaves open. */
  lemma AppendLines(text: string, more: string) returns (kept: seq<string>)
    ensures LinesOf(text + Newline(text) + more) == kept + LinesOf(more)
    ensures LinesOf(text) == kept || LinesOf(text) == kept + [""]
  {
    if text == "" {
      kept := [];
      assert text + Newline(text) + more == more;
    } else if EndsWith(text, CRLF) {
      var a := text[..|text| - 2];
      kept := LinesOf(a);
      assert text == a + CRLF + "";
      LinesOfConcat(a, "");
      assert text + Newline(text) + more == a + CRLF + more;
      LinesOfConcat(a, more);
    } else {
      kept := LinesOf(text);
      LinesOfConcat(text, more);
    }
  }

  /** Lines written one after the other, each with its terminator. */
  function Terminated(lines: seq<string>): string {
    if lines == [] then "" else lines[0] + CRLF + Terminated(lines[1..])
  }

  lemma {:induction false} LinesOfTerminated(lines: seq<string>)
    requires forall i :: 0 <= i < |lines| ==> NoBreak(lines[i])
    ensures LinesOf(Terminated(lines)) == lines + [""]
  {
    if lines != [] {
      LinesOfTerminated(lines[1..]);
      LinesOfConcat(lines[0], Terminated(lines[1..]));
      JoinThenSplit(Last(lines[0]));
    }
  }
}
