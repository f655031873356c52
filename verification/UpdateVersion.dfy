/** installer/update_version.py stamps a release's version into the example file;
    the merge then carries that version to the machine's file. */
module UpdateVersion {
  import opened Text
  import opened EnvText
  import opened MergeEnv
  import opened MergeTheorems

  const VersionKey: string := "APP_VERSION"

  function Terminators(d: Doc, sep: string): Doc {
    match d
    case Last(_) => d
    case Line(t, _, rest) => Line(t, sep, Terminators(rest, sep))
  }

  /** The substituted pattern: at the start of a line, in this case and without
      indentation, the key, white space, an equals sign. */
  predicate IsPlainDefinition(line: string) {
    && StartsWith(line, VersionKey)
    && var c := SpaceEnd(Python, line, |VersionKey|);
       c < |line| && line[c] == '='
  }

  /** The line is the key in capitals, white space or none, an equals sign and the rest. */
  ghost predicate IsStampableAt(line: string, c: nat) {
    && 11 <= c < |line| && line[..11] == "APP_VERSION" && line[c] == '='
    && forall i :: 11 <= i < c ==> IsSpace(Python, line[i])
  }

  lemma EqualsIsVisible()
    ensures !IsSpace(Python, '=')
  {
  }

  lemma PlainMeans(line: string)
    ensures IsPlainDefinition(line) <==> exists c: nat :: IsStampableAt(line, c)
  {
    EqualsIsVisible();
    hide IsSpace;
    if |line| >= 11 && line[..11] == "APP_VERSION" {
      var c := SpaceEnd(Python, line, 11);
      if c < |line| && line[c] == '=' {
        assert IsStampableAt(line, c);
      }
    }
  }

  function StampedLine(version: string): string {
    VersionKey + "=" + version
  }

  function Substituted(d: Doc, version: string): Doc {
    var t := if IsPlainDefinition(d.text) then StampedLine(version) else d.text;
    match d
    case Last(_) => Last(t)
    case Line(_, sep, rest) => Line(t, sep, Substituted(rest, version))
  }

  function Substitutions(d: Doc): nat {
    (if IsPlainDefinition(d.text) then 1 else 0) + (if d.Line? then Substitutions(d.rest) else 0)
  }

  /** One more line at the end, closed by a line feed. */
  function AppendLine(d: Doc, line: string): Doc {
    match d
    case Last(t) => if t == "" then Line(line, "\n", Last("")) else Line(t, "\n", Line(line, "\n", Last("")))
    case Line(t, sep, rest) => Line(t, sep, AppendLine(rest, line))
  }

  function Stamped(d: Doc, version: string): Doc {
    if Substitutions(d) > 0 then Substituted(d, version) else AppendLine(d, StampedLine(version))
  }

  /** The file after the stamp; `newline` is what text mode writes for a line feed. */
  function StampFile(content: string, version: string, newline: string): string {
    Join(Terminators(Stamped(Terminators(Split(content), "\n"), version), newline))
  }

  predicate TextNewline(newline: string) {
    newline == "\n" || newline == CRLF
  }

  /** A replacement that stands for itself: one line, and no escape of the template. */
  predicate Stampable(v: string) {
    NoBreak(v) && '\\' !in v
  }

  /** What every released version satisfies. It consists of dots and decimal digits, of
      any script, so it holds no letter, no white space and no backslash. */
  predicate IsVersion(v: string) {
    v != "" && '\\' !in v && forall i :: 0 <= i < |v| ==>
      !('a' <= v[i] <= 'z') && !('A' <= v[i] <= 'Z') && !IsSpace(DotNet, v[i])
  }

  /** A version of ASCII digits and dots is a version, and stamps as it is. */
  lemma DigitsAndDots(v: string)
    requires v != "" && forall i :: 0 <= i < |v| ==> '0' <= v[i] <= '9' || v[i] == '.'
    ensures IsVersion(v) && Stampable(v)
  {
  }

  /** Every terminator is a line feed. */
  predicate Feeds(d: Doc) {
    d.Line? ==> d.sep == "\n" && Feeds(d.rest)
  }

  lemma {:induction false} TerminatorsAreCanonical(d: Doc, sep: string)
    requires Canonical(d) && TextNewline(sep)
    ensures Canonical(Terminators(d, sep)) && Texts(Terminators(d, sep)) == Texts(d)
    ensures Feeds(Terminators(d, "\n"))
  {
    if d.Line? {
      TerminatorsAreCanonical(d.rest, sep);
    }
  }

  lemma {:induction false} NothingSubstituted(d: Doc, version: string)
    requires Substitutions(d) == 0
    ensures Substituted(d, version) == d
  {
    hide IsPlainDefinition;
    if d.Line? {
      NothingSubstituted(d.rest, version);
    }
  }

  lemma ClosedLine(line: string)
    ensures Join(Line(line, "\n", Last(""))) == line + "\n"
    ensures Texts(Line(line, "\n", Last(""))) == [line, ""]
  {
    assert line + "\n" + "" == line + "\n";
    assert Texts(Last("")) == [""];
  }

  function Opened(s: string): string {
    if s != "" && s[|s| - 1] != '\n' then s + "\n" else s
  }

  lemma AppendBehind(head: string, r: string, line: string)
    requires EndsWith(head, "\n")
    ensures head + (Opened(r) + (line + "\n")) == Opened(head + r) + (line + "\n")
  {
    var s := head + r;
    assert s[|s| - 1] == if r == "" then '\n' else r[|r| - 1];
    assert head + (Opened(r) + (line + "\n")) == (head + Opened(r)) + (line + "\n");
  }

  lemma {:induction false} AppendLineText(d: Doc, line: string)
    requires Canonical(d) && Feeds(d)
    ensures var s := Join(d);
            Join(AppendLine(d, line)) == Opened(s) + (line + "\n")
  {
    ClosedLine(line);
    match d
    case Last(t) =>
      assert t != "" ==> t[|t| - 1] != '\n';
    case Line(t, sep, rest) =>
      AppendLineText(rest, line);
      AppendBehind(t + sep, Join(rest), line);
  }

  lemma StampedLineFacts(version: string)
    requires NoBreak(version)
    ensures NoBreak(StampedLine(version)) && StampedLine(version) != ""
  {
  }

  lemma {:induction false} SubstitutedIsCanonical(d: Doc, version: string)
    requires Canonical(d) && Feeds(d) && NoBreak(StampedLine(version))
    ensures Canonical(Substituted(d, version))
  {
    hide IsPlainDefinition;
    if d.Line? {
      SubstitutedIsCanonical(d.rest, version);
    }
  }

  lemma {:induction false} AppendedIsCanonical(d: Doc, line: string)
    requires Canonical(d) && Feeds(d) && NoBreak(line)
    ensures Canonical(AppendLine(d, line))
  {
    if d.Line? {
      AppendedIsCanonical(d.rest, line);
    }
  }

  lemma StampIsCanonical(d: Doc, version: string)
    requires Canonical(d) && Feeds(d) && NoBreak(version)
    ensures Canonical(Stamped(d, version))
  {
    StampedLineFacts(version);
    SubstitutedIsCanonical(d, version);
    AppendedIsCanonical(d, StampedLine(version));
  }

  class EnvFile {
    var content: Option<string>

    constructor (content: Option<string>)
      ensures this.content == content
    {
      this.content := content;
    }

    method SyncAppVersion(version: string, newline: string)
      requires TextNewline(newline) && Stampable(version)
      modifies this
      ensures content == match old(content) case None => None case Some(s) => Some(StampFile(s, version, newline))
    {
      hide Canonical, IsPlainDefinition;
      if content.None? {
        return;
      }
      var env := Join(Terminators(Split(content.value), "\n"));
      ghost var d := Terminators(Split(content.value), "\n");
      SplitThenJoin(content.value);
      TerminatorsAreCanonical(Split(content.value), "\n");
      JoinThenSplit(d);
      var updated, changes := Join(Substituted(Split(env), version)), Substitutions(Split(env));
      if changes == 0 {
        NothingSubstituted(d, version);
        AppendLineText(d, StampedLine(version));
        if updated != "" && updated[|updated| - 1] != '\n' {
          updated := updated + "\n";
        }
        updated := updated + (StampedLine(version) + "\n");
      }
      StampIsCanonical(d, version);
      JoinThenSplit(Stamped(d, version));
      content := Some(Join(Terminators(Split(updated), newline)));
    }
  }

  // ---- From the release to the machine ----

  /** A definition that the stamp does not see (indented, or in another case)
      stands after every one it sees, so it hides the stamped line. */
  ghost predicate Shadowed(lines: seq<string>) {
    exists i, j :: 0 <= i < j < |lines| && IsPlainDefinition(lines[i])
                   && LineKey(lines[j]) == Some(Fold(VersionKey))
                   && forall k :: j <= k < |lines| ==> !IsPlainDefinition(lines[k])
  }

  function StampedLines(lines: seq<string>, version: string): (r: seq<string>)
    ensures |r| == |lines|
    ensures forall i :: 0 <= i < |lines| ==>
              r[i] == if IsPlainDefinition(lines[i]) then StampedLine(version) else lines[i]
  {
    seq(|lines|, i requires 0 <= i < |lines| => if IsPlainDefinition(lines[i]) then StampedLine(version) else lines[i])
  }

  lemma StampedCons(line: string, rest: seq<string>, version: string)
    ensures StampedLines([line] + rest, version)
         == [if IsPlainDefinition(line) then StampedLine(version) else line] + StampedLines(rest, version)
    ensures rest == [] ==>
              StampedLines([line] + rest, version) == [if IsPlainDefinition(line) then StampedLine(version) else line]
  {
    hide IsPlainDefinition, StampedLine;
    var all := [line] + rest;
    assert forall i :: 0 <= i < |rest| ==> all[i + 1] == rest[i];
  }

  lemma {:induction false} SubstitutedTexts(d: Doc, version: string)
    ensures Texts(Substituted(d, version)) == StampedLines(Texts(d), version)
  {
    hide IsPlainDefinition, StampedLine, StampedLines;
    match d
    case Last(t) =>
      StampedCons(t, [], version);
      assert [t] + [] == [t];
    case Line(t, _, rest) =>
      SubstitutedTexts(rest, version);
      StampedCons(t, Texts(rest), version);
  }

  ghost predicate AnyPlain(lines: seq<string>) {
    exists i :: 0 <= i < |lines| && IsPlainDefinition(lines[i])
  }

  lemma AnyPlainStep(line: string, lines: seq<string>)
    ensures AnyPlain([line] + lines) <==> IsPlainDefinition(line) || AnyPlain(lines)
  {
    hide IsPlainDefinition;
    var all := [line] + lines;
    assert all[0] == line;
    assert forall i :: 0 <= i < |lines| ==> all[i + 1] == lines[i];
    if i :| 0 <= i < |all| && IsPlainDefinition(all[i]) {
      assert i > 0 ==> all[i] == lines[i - 1];
    }
  }

  lemma NoPlain()
    ensures !AnyPlain([])
  {
  }

  lemma {:induction false} SubstitutionsFound(d: Doc)
    ensures Substitutions(d) > 0 <==> AnyPlain(Texts(d))
  {
    hide IsPlainDefinition, AnyPlain;
    if d.Line? {
      SubstitutionsFound(d.rest);
      AnyPlainStep(d.text, Texts(d.rest));
    } else {
      AnyPlainStep(d.text, []);
      NoPlain();
      assert [d.text] + [] == Texts(d);
    }
  }

  lemma {:induction false} AppendedTexts(d: Doc, line: string) returns (kept: seq<string>)
    ensures Texts(AppendLine(d, line)) == kept + [line, ""]
  {
    ClosedLine(line);
    match d
    case Last(t) =>
      kept := if t == "" then [] else [t];
    case Line(t, _, rest) =>
      var k := AppendedTexts(rest, line);
      kept := [t] + k;
  }

  lemma StampedLineIsPlain(version: string)
    requires NoBreak(version)
    ensures IsPlainDefinition(StampedLine(version)) && LineKey(StampedLine(version)) == Some(Fold(VersionKey))
    ensures NoBreak(StampedLine(version))
  {
    var line := StampedLine(version);
    assert line[..11] == VersionKey && line[11] == '=';
    assert IsIdent(VersionKey);
    KeyAtFront(line, VersionKey, version);
  }

  lemma NotShadowed(lines: seq<string>)
    requires !AnyPlain(lines)
    ensures !Shadowed(lines)
  {
  }

  /** The last definition in the stamped text decides whether one is shadowed. */
  lemma LastDecides(before: seq<string>, version: string, p: nat, i: nat)
    requires NoBreak(version) && p < |before| && IsPlainDefinition(before[p])
    requires LastDefinition(StampedLines(before, version), Fold(VersionKey), i)
    ensures Shadowed(before) <==> !IsPlainDefinition(before[i])
  {
    hide IsPlainDefinition, LineKey, Fold, StampedLine;
    StampedLineIsPlain(version);
    var after := StampedLines(before, version);
    assert after[p] == StampedLine(version) && p <= i;
    forall m | i < m < |before|
      ensures !IsPlainDefinition(before[m]) && LineKey(before[m]) != Some(Fold(VersionKey))
    {
      assert LineKey(after[m]) != Some(Fold(VersionKey));
    }
    assert after[i] == if IsPlainDefinition(before[i]) then StampedLine(version) else before[i];
  }

  lemma StampedOutcome(before: seq<string>, d: Doc, version: string, after: seq<string>, i: nat)
    requires Texts(d) == before && after == Texts(Stamped(d, version)) && NoBreak(version)
    requires Fold(VersionKey) in KeyMap(after) ==> LastDefinition(after, Fold(VersionKey), i)
                                                    && KeyMap(after)[Fold(VersionKey)] == after[i]
    requires Fold(VersionKey) !in KeyMap(after) ==>
               forall j :: 0 <= j < |after| ==> LineKey(after[j]) != Some(Fold(VersionKey))
    ensures Lookup(KeyMap(after), Fold(VersionKey)) == Some(StampedLine(version)) <==> !Shadowed(before)
  {
    hide IsPlainDefinition, LineKey, KeyMap, Fold, StampedLine, Substituted, Substitutions, AppendLine, Shadowed;
    StampedLineIsPlain(version);
    SubstitutionsFound(d);
    if Substitutions(d) == 0 {
      var kept := AppendedTexts(d, StampedLine(version));
      EmptyLineHasNoKey();
      assert after[|kept|] == StampedLine(version) && after[|kept| + 1] == "";
      NotShadowed(before);
    } else {
      SubstitutedTexts(d, version);
      var p :| 0 <= p < |before| && IsPlainDefinition(before[p]);
      assert after[p] == StampedLine(version);
      LastDecides(before, version, p, i);
    }
  }

  /** Stamping makes the version the example's value of the key unless the
      stamped line is shadowed. */
  lemma StampReachesExample(content: string, version: string, newline: string)
    requires (newline == "\n" || newline == "\r\n") && Stampable(version)
    ensures Lookup(TextMap(StampFile(content, version, newline)), Fold(VersionKey)) == Some(StampedLine(version))
            <==> !Shadowed(LinesOf(content))
  {
    hide IsPlainDefinition, LineKey, KeyMap, Fold, Canonical;
    var k := Fold(VersionKey);
    var d := Terminators(Split(content), "\n");
    SplitThenJoin(content);
    TerminatorsAreCanonical(Split(content), "\n");
    StampIsCanonical(d, version);
    TerminatorsAreCanonical(Stamped(d, version), newline);
    JoinThenSplit(Terminators(Stamped(d, version), newline));
    var after := LinesOf(StampFile(content, version, newline));
    assert after == Texts(Stamped(d, version));
    StampedLineIsPlain(version);
    var i := KeyMapIsLastWins(after, k);
    StampedOutcome(LinesOf(content), d, version, after, i);
  }

  /** Folding hides nothing behind the key: no letters stand there. */
  lemma FoldIsExact(line: string, whole: string, n: nat)
    requires Fold(line) == Fold(whole) && n <= |whole|
    requires forall i :: n <= i < |whole| ==> !('a' <= whole[i] <= 'z') && !('A' <= whole[i] <= 'Z')
    ensures |line| == |whole| && line[n..] == whole[n..]
    ensures forall i :: 0 <= i < n ==> FoldChar(line[i]) == FoldChar(whole[i])
  {
    assert |Fold(line)| == |Fold(whole)|;
    forall i | 0 <= i < |line|
      ensures FoldChar(line[i]) == FoldChar(whole[i])
    {
      assert Fold(line)[i] == Fold(whole)[i];
    }
  }

  lemma ValueBehind(line: string, n: nat, v: string)
    requires n < |line| && line[n] == '=' && (forall i :: 0 <= i < n ==> line[i] != '=')
    requires v == line[n + 1..] && v != "" && !IsSpace(DotNet, v[0]) && !IsSpace(DotNet, v[|v| - 1])
    ensures ValueOf(line) == v
  {
    hide IsSpace;
    assert IndexOf(line, '=') == n;
    TrimUnique(DotNet, v, 0, |v|);
    assert v[0..|v|] == v;
  }

  lemma KeyedValue(line: string, key: string, version: string)
    requires IsVersion(version) && Fold(line) == Fold(key + "=" + version)
    requires forall i :: 0 <= i < |key| ==> key[i] == '_' || 'A' <= key[i] <= 'Z'
    ensures ValueOf(line) == version
  {
    hide IsSpace, ValueOf, Fold;
    var n, whole := |key|, key + "=" + version;
    assert whole[n] == '=' && whole[n + 1..] == version;
    forall i | n <= i < |whole|
      ensures !('a' <= whole[i] <= 'z') && !('A' <= whole[i] <= 'Z')
    {
      assert i > n ==> whole[i] == whole[n + 1..][i - n - 1];
    }
    FoldIsExact(line, whole, n);
    assert forall i :: 0 <= i < n ==> whole[i] == key[i];
    assert line[n] == line[n..][0] && line[n + 1..] == line[n..][1..] && whole[n + 1..] == whole[n..][1..];
    ValueBehind(line, n, version);
  }

  lemma StampedValue(line: string, version: string)
    requires IsVersion(version) && Fold(line) == Fold(StampedLine(version))
    ensures ValueOf(line) == version
  {
    hide IsSpace, ValueOf, IsVersion, Fold;
    KeyedValue(line, VersionKey, version);
  }

  /** The version that reaches the machine. When the example is stamped without
      being shadowed, the merged file's value of the key is that version exactly
      when the machine's file defined the key once, or not at all and no entry of
      the example shadows the enumeration of its keys, or already held the version. */
  lemma VersionReachesMachine(content: string, version: string, newline: string, target: string, order: seq<string>)
    requires (newline == "\n" || newline == "\r\n") && IsVersion(version) && !Shadowed(LinesOf(content))
    requires Enumerates(order, TextMap(StampFile(content, version, newline)))
    ensures ValueIn(TextMap(MergeText(StampFile(content, version, newline), target, order)), Fold(VersionKey))
            == version
            <==> || Count(LinesOf(target), Fold(VersionKey)) == 1
                 || (Count(LinesOf(target), Fold(VersionKey)) == 0
                     && KeysName !in TextMap(StampFile(content, version, newline)))
                 || ValueIn(TextMap(target), Fold(VersionKey)) == version
  {
    var k, example := Fold(VersionKey), StampFile(content, version, newline);
    assert Stampable(version);
    assert SystemManagedKeys[0] == VersionKey && VersionKey in SystemManagedKeys;
    StampReachesExample(content, version, newline);
    StampedValue(StampedLine(version), version);
    CountIsPresence(LinesOf(target), k);
    hide *;
    MergedKeyMap(example, target, order);
    if k in TextMap(target) {
      var tg := TextMap(target)[k];
      ManagedKeyUpdated(example, target, order, VersionKey, StampedLine(version), tg);
      if Fold(tg) == Fold(StampedLine(version)) {
        StampedValue(tg, version);
      }
    }
  }

  lemma SpaceIsSpace()
    ensures IsSpace(DotNet, ' ')
  {
  }

  lemma FoldedVersionKey()
    ensures Fold("app_version") == Fold(VersionKey)
  {
  }

  lemma ShadowingLine(b: string)
    requires b == " app_version=0"
    ensures NoBreak(b) && LineKey(b) == Some(Fold(VersionKey))
  {
    hide LineKey, IsSpace;
    assert IsSpace(DotNet, ' ') by {
      SpaceIsSpace();
    }
    assert b[1..12] == "app_version";
    ShapeHasLineKey(b, 1, 12, 12);
    FoldedVersionKey();
  }

  lemma PlainLine(a: string)
    requires a == "APP_VERSION=1"
    ensures NoBreak(a) && IsPlainDefinition(a)
  {
    assert a[11] == '=' && a[..11] == VersionKey;
  }

  lemma ShadowFacts(a: string, b: string)
    requires a == "APP_VERSION=1" && b == " app_version=0"
    ensures NoBreak(a) && NoBreak(b) && IsPlainDefinition(a) && !IsPlainDefinition(b)
    ensures LineKey(b) == Some(Fold(VersionKey))
  {
    PlainLine(a);
    ShadowingLine(b);
    hide LineKey, Fold, NoBreak, IsSpace;
    assert b[..11][0] == ' ';
  }

  lemma ShadowedPair(a: string, b: string)
    requires IsPlainDefinition(a) && !IsPlainDefinition(b) && LineKey(b) == Some(Fold(VersionKey))
    ensures Shadowed([a, b])
  {
    hide IsPlainDefinition, LineKey, Fold;
    assert [a, b][0] == a && [a, b][1] == b;
  }

  /** A shadowed stamp: the indented definition in lower case behind the stamped one
      is what the merge reads. */
  lemma StampIsShadowed(a: string, b: string, newline: string, version: string)
    requires a == "APP_VERSION=1" && b == " app_version=0" && Stampable(version)
    requires newline == "\n" || newline == "\r\n"
    ensures Shadowed(LinesOf(a + CRLF + b))
    ensures Lookup(TextMap(StampFile(a + CRLF + b, version, newline)), Fold(VersionKey)) != Some(StampedLine(version))
  {
    hide *;
    ShadowFacts(a, b);
    ShadowedPair(a, b);
    LinesOfConcat(a, b);
    OneLine(a);
    OneLine(b);
    assert [a] + [b] == [a, b];
    StampReachesExample(a + CRLF + b, version, newline);
  }

  lemma DuplicateVersionFacts(content: string, version: string, first: string, last: string)
    requires content == "APP_VERSION=0" && version == "3"
    requires first == VersionKey + "=" + "1" && last == VersionKey + "=" + "2"
    ensures NoBreak(content) && NoBreak(first) && NoBreak(last) && IsIdent(VersionKey)
    ensures IsVersion(version) && IsVersion("2") && version != "2"
    ensures forall i :: 0 <= i < |VersionKey| ==> VersionKey[i] == '_' || 'A' <= VersionKey[i] <= 'Z'
  {
    assert version[0] == '3' && "2"[0] == '2';
  }

  lemma OneLineIsNotShadowed(line: string)
    ensures !Shadowed([line])
  {
  }

  lemma ValueOfOnly(m: map<string, string>, k: string, line: string)
    requires m == map[k := line]
    ensures ValueIn(m, k) == ValueOf(line)
  {
  }

  /** A stamp that does not reach the machine: its file defines the key twice. */
  lemma DuplicateHidesTheVersion(content: string, version: string, newline: string, first: string, last: string,
                                 order: seq<string>)
    requires content == "APP_VERSION=0" && version == "3"
    requires first == VersionKey + "=" + "1" && last == VersionKey + "=" + "2"
    requires (newline == "\n" || newline == "\r\n") && Enumerates(order, TextMap(StampFile(content, version, newline)))
    ensures !Shadowed(LinesOf(content))
    ensures ValueIn(TextMap(MergeText(StampFile(content, version, newline), first + CRLF + last, order)),
                    Fold(VersionKey))
            != version
  {
    hide *;
    DuplicateVersionFacts(content, version, first, last);
    OneLine(content);
    OneLineIsNotShadowed(content);
    KeyAtFront(first, VersionKey, "1");
    KeyAtFront(last, VersionKey, "2");
    TwoDefinitions(first, last, Fold(VersionKey));
    KeyedValue(last, VersionKey, "2");
    ValueOfOnly(TextMap(first + CRLF + last), Fold(VersionKey), last);
    VersionReachesMachine(content, version, newline, first + CRLF + last, order);
  }
}
