/** installer/merge_env.ps1: an in-place text rewriter that carries the machine's
    environment file from one release to the next. */
module MergeEnv {
  import opened Text
  import opened EnvText

  const MergeMarker: string := "# Added by installer merge"
  const SystemManagedKeys: seq<string> := ["APP_VERSION", "APP_NAME"]
  const CriticalKeys: seq<string> := ["AUTO_UPDATE_FEED_URL"]

  // ---- Rewriting one line of a text ----

  /** The first line the rewriter matches is replaced; separators stay. */
  function Rewrite(d: Doc, key: string, line: string): Doc {
    if RewriterMatches(d.text, key) then d.(text := line)
    else
      match d
      case Last(_) => d
      case Line(_, _, rest) => d.(rest := Rewrite(rest, key, line))
  }

  predicate HasMatch(d: Doc, key: string) {
    RewriterMatches(d.text, key) || (d.Line? && HasMatch(d.rest, key))
  }

  /** The text once `line` stands for `key`. */
  function SetKey(content: string, key: string, line: string): string {
    if HasMatch(Split(content), key) then Join(Rewrite(Split(content), key, line))
    else content + Newline(content) + line + CRLF
  }

  function Separators(d: Doc): seq<string> {
    match d
    case Last(_) => []
    case Line(_, sep, rest) => [sep] + Separators(rest)
  }

  function Interleave(texts: seq<string>, separators: seq<string>): string
    requires |texts| == |separators| + 1
  {
    if separators == [] then texts[0] else texts[0] + separators[0] + Interleave(texts[1..], separators[1..])
  }

  /** A text is its lines with its separators between them, and nothing else. */
  lemma {:induction false} JoinInterleaves(d: Doc)
    ensures |Texts(d)| == |Separators(d)| + 1 && Interleave(Texts(d), Separators(d)) == Join(d)
  {
    if d.Line? {
      JoinInterleaves(d.rest);
      assert Texts(d)[1..] == Texts(d.rest) && Separators(d)[1..] == Separators(d.rest);
    }
  }

  /** Framing: a rewrite replaces line `n`, the first that matches, and nothing
      else: what stands before and after it is untouched, separators included. */
  lemma {:induction false} RewriteIsFramed(d: Doc, key: string, line: string)
    returns (n: nat, pre: string, post: string)
    requires HasMatch(d, key)
    ensures n < |Texts(d)| && RewriterMatches(Texts(d)[n], key)
    ensures forall i :: 0 <= i < n ==> !RewriterMatches(Texts(d)[i], key)
    ensures Join(d) == pre + Texts(d)[n] + post
    ensures Join(Rewrite(d, key, line)) == pre + line + post
    ensures Texts(Rewrite(d, key, line)) == Texts(d)[n := line]
    ensures Separators(Rewrite(d, key, line)) == Separators(d)
  {
    hide RewriterMatches;
    if RewriterMatches(d.text, key) {
      n, pre, post := 0, "", if d.Line? then d.sep + Join(d.rest) else "";
    } else {
      var rest := Rewrite(d.rest, key, line);
      n, pre, post := RewriteIsFramed(d.rest, key, line);
      assert Texts(d) == [d.text] + Texts(d.rest);
      assert Texts(Rewrite(d, key, line)) == [d.text] + Texts(rest);
      var p := d.text + d.sep;
      Regroup(p, pre, Texts(d.rest)[n]);
      Regroup(p, pre + Texts(d.rest)[n], post);
      Regroup(p, pre, line);
      Regroup(p, pre + line, post);
      n, pre := n + 1, p + pre;
    }
  }

  lemma {:induction false} RewriteIsReplaceFirst(d: Doc, key: string, line: string)
    requires IsIdent(key)
    ensures HasMatch(d, key) <==> Count(Texts(d), Fold(key)) > 0
    ensures Texts(Rewrite(d, key, line)) == ReplaceFirst(Texts(d), Fold(key), line)
  {
    hide RewriterMatches, LineKey;
    ReadersAgree(d.text, key);
    if d.Line? {
      RewriteIsReplaceFirst(d.rest, key, line);
      assert Texts(d)[1..] == Texts(d.rest);
    }
  }

  lemma {:induction false} RewriteIsCanonical(d: Doc, key: string, line: string)
    requires Canonical(d) && NoBreak(line) && line != ""
    ensures Canonical(Rewrite(d, key, line))
    ensures StartsWithLf(Join(Rewrite(d, key, line))) ==> StartsWithLf(Join(d))
  {
    hide RewriterMatches;
    if !RewriterMatches(d.text, key) && d.Line? {
      RewriteIsCanonical(d.rest, key, line);
    }
  }

  lemma KeyedLineIsNotEmpty(line: string)
    requires LineKey(line).Some?
    ensures line != ""
  {
  }

  /** On lines, setting a key that is present is first-match replacement. */
  lemma SetKeyLines(content: string, key: string, line: string)
    requires IsIdent(key) && Count(LinesOf(content), Fold(key)) > 0
    requires LineKey(line) == Some(Fold(key)) && NoBreak(line)
    ensures LinesOf(SetKey(content, key, line)) == ReplaceFirst(LinesOf(content), Fold(key), line)
  {
    hide LineKey;
    var d := Split(content);
    SplitThenJoin(content);
    RewriteIsReplaceFirst(d, key, line);
    KeyedLineIsNotEmpty(line);
    RewriteIsCanonical(d, key, line);
    JoinThenSplit(Rewrite(d, key, line));
  }

  // ---- The pieces a splitting with captured separators yields ----

  function Pieces(d: Doc): seq<string> {
    match d
    case Last(t) => [t]
    case Line(t, sep, rest) => [t, sep] + Pieces(rest)
  }

  function RewritePieces(pieces: seq<string>, key: string, line: string): seq<string> {
    if pieces == [] then []
    else if RewriterMatches(pieces[0], key) then [line] + pieces[1..]
    else [pieces[0]] + RewritePieces(pieces[1..], key, line)
  }

  predicate PiecesMatch(pieces: seq<string>, key: string) {
    exists i :: 0 <= i < |pieces| && RewriterMatches(pieces[i], key)
  }

  lemma SeparatorHasNoKey(sep: string)
    requires IsTerminator(sep)
    ensures RewriterKey(sep) == None
  {
    assert forall i :: 0 <= i < |sep| ==> IsSpace(DotNet, sep[i]);
    assert SpaceEnd(DotNet, sep, 0) == |sep|;
  }

  lemma ConcatCons(head: string, tail: seq<string>)
    ensures Concat([head] + tail) == head + Concat(tail)
  {
    assert ([head] + tail)[1..] == tail;
  }

  lemma ConcatOfLine(t: string, sep: string, p: seq<string>)
    ensures Concat([t, sep] + p) == t + sep + Concat(p)
  {
    assert [t, sep] + p == [t] + ([sep] + p);
    ConcatCons(t, [sep] + p);
    ConcatCons(sep, p);
    assert t + (sep + Concat(p)) == t + sep + Concat(p);
  }

  lemma RewriteOfLine(t: string, sep: string, p: seq<string>, key: string, line: string)
    requires RewriterKey(sep) == None
    ensures Concat(RewritePieces([t, sep] + p, key, line))
         == if RewriterMatches(t, key) then line + sep + Concat(p)
            else t + sep + Concat(RewritePieces(p, key, line))
  {
    hide RewriterKey, Fold;
    assert ([t, sep] + p)[1..] == [sep] + p && ([sep] + p)[1..] == p;
    if RewriterMatches(t, key) {
      assert [line] + ([sep] + p) == [line, sep] + p;
      ConcatOfLine(line, sep, p);
    } else {
      var r := RewritePieces(p, key, line);
      assert [t] + ([sep] + r) == [t, sep] + r;
      ConcatOfLine(t, sep, r);
    }
  }

  lemma MatchOfLine(t: string, sep: string, p: seq<string>, key: string)
    requires RewriterKey(sep) == None
    ensures PiecesMatch([t, sep] + p, key) <==> RewriterMatches(t, key) || PiecesMatch(p, key)
  {
    hide RewriterKey, Fold;
    var all := [t, sep] + p;
    assert all[0] == t && all[1] == sep;
    if i :| 0 <= i < |p| && RewriterMatches(p[i], key) {
      assert all[i + 2] == p[i];
    }
    if i :| 0 <= i < |all| && RewriterMatches(all[i], key) {
      assert i >= 2 ==> all[i] == p[i - 2];
    }
  }

  lemma {:induction false} PiecesOfDoc(d: Doc, key: string, line: string)
    requires Canonical(d)
    ensures Concat(Pieces(d)) == Join(d)
    ensures Concat(RewritePieces(Pieces(d), key, line)) == Join(Rewrite(d, key, line))
    ensures PiecesMatch(Pieces(d), key) <==> HasMatch(d, key)
  {
    hide RewriterMatches, RewriterKey;
    match d
    case Last(t) =>
      assert Pieces(d)[0] == t && Concat([t]) == t && Concat([line]) == line;
    case Line(t, sep, rest) =>
      PiecesOfDoc(rest, key, line);
      SeparatorHasNoKey(sep);
      ConcatOfLine(t, sep, Pieces(rest));
      RewriteOfLine(t, sep, Pieces(rest), key, line);
      MatchOfLine(t, sep, Pieces(rest), key);
  }

  // ---- The whole merge ----

  /** What reading a file, present or not, gives. */
  function FileMap(content: Option<string>): map<string, string> {
    match content
    case None => map[]
    case Some(s) => TextMap(s)
  }

  /** A system-managed key is rewritten when both files define it and the lines
      differ by more than case. */
  function SystemStep(ex: map<string, string>, tg: map<string, string>, text: string, key: string): string {
    var k := Fold(key);
    if k in ex && k in tg && Fold(tg[k]) != Fold(ex[k]) then SetKey(text, key, ex[k]) else text
  }

  function SystemPass(ex: map<string, string>, tg: map<string, string>, text: string, keys: seq<string>): string
    decreases keys
  {
    if keys == [] then text else SystemPass(ex, tg, SystemStep(ex, tg, text, keys[0]), keys[1..])
  }

  /** The name of the property that lists a hashtable's keys, folded. */
  const KeysName: string := "keys"

  /** What the property yields: the keys, each once, in an order that is up to the
      runtime. An entry of the property's own name shadows it: then the property is
      the entry's value, here a line, and the loop runs over this one string. */
  ghost predicate Enumerates(order: seq<string>, m: map<string, string>) {
    if KeysName in m then order == [Fold(m[KeysName])]
    else
      && (forall k :: k in order <==> k in m)
      && (forall i, j :: 0 <= i < j < |order| ==> order[i] != order[j])
  }

  /** Indexing a hashtable; an absent key gives null, which a list of strings
      holds as the empty string. */
  function EntryOrEmpty(m: map<string, string>, k: string): string {
    if k in m then m[k] else ""
  }

  function MissingLines(ex: map<string, string>, tg: map<string, string>, order: seq<string>): seq<string> {
    if order == [] then []
    else (if order[0] in tg then [] else [EntryOrEmpty(ex, order[0])]) + MissingLines(ex, tg, order[1..])
  }

  /** The last piece of a text that is neither empty nor a separator. */
  function LastPiece(pieces: seq<string>): string {
    if pieces == [] then ""
    else
      var p := pieces[|pieces| - 1];
      if p != "" && !IsTerminator(p) then p else LastPiece(pieces[..|pieces| - 1])
  }

  function MarkerLine(text: string): string {
    var last := LastPiece(Pieces(Split(TrimEnd(DotNet, text))));
    if Fold(TrimEnd(DotNet, last)) == Fold(MergeMarker) then "" else MergeMarker + CRLF
  }

  function AppendMissing(text: string, missing: seq<string>): string {
    if missing == [] then text else text + Newline(text) + (MarkerLine(text) + Terminated(missing))
  }

  function MergeText(example: string, target: string, order: seq<string>): string {
    var ex, tg := TextMap(example), TextMap(target);
    var text := SystemPass(ex, tg, target, SystemManagedKeys);
    AppendMissing(text, MissingLines(ex, TextMap(text), order))
  }

  /** The target file after a run that starts from the text `base`. */
  ghost predicate IsMerged(result: Option<string>, base: string, example: Option<string>, order: seq<string>) {
    if example.Some?
    then Enumerates(order, TextMap(example.value)) && result == Some(MergeText(example.value, base, order))
    else result == Some(base)
  }

  predicate CriticalPresent(m: map<string, string>) {
    forall key :: key in CriticalKeys ==> ValueIn(m, Fold(key)) != ""
  }
}
