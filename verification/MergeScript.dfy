/** The body of installer/merge_env.ps1 over the files it reads and rewrites. */
module MergeScript {
  import opened Text
  import opened EnvText
  import opened MergeEnv
  import opened MergeTheorems

  class EnvFiles {
    // A file that does not exist is None. A blank LegacyPath parameter names no file.
    var example: Option<string>
    var target: Option<string>
    var legacy: Option<string>
    var backup: Option<string>
    const backupWanted: bool

    constructor (example: Option<string>, target: Option<string>, legacy: Option<string>,
                 backup: Option<string>, backupWanted: bool)
      ensures this.example == example && this.target == target && this.legacy == legacy
      ensures this.backup == backup && this.backupWanted == backupWanted
    {
      this.example, this.target, this.legacy := example, target, legacy;
      this.backup, this.backupWanted := backup, backupWanted;
    }

    static lemma KeyMapOfNone(m: map<string, string>, lines: seq<string>)
      requires lines == []
      ensures m + KeyMap(lines) == m
    {
    }

    static lemma KeyMapStep(m: map<string, string>, lines: seq<string>, i: nat)
      requires i < |lines|
      ensures m + KeyMap(lines[i..])
           == (match LineKey(lines[i]) case None => m case Some(k) => m[k := lines[i]]) + KeyMap(lines[i + 1..])
    {
      hide LineKey;
      assert lines[i..][1..] == lines[i + 1..];
      var x, rest := LineMap(lines[i]), KeyMap(lines[i + 1..]);
      assert m + (x + rest) == (m + x) + rest;
    }

    static method ConvertToKeyMap(content: Option<string>) returns (m: map<string, string>)
      ensures m == FileMap(content)
    {
      hide IsComment, Trim, KeyMap, LinesOf, Fold;
      m := map[];
      if content == None {
        return;
      }
      var lines := LinesOf(content.value);
      assert m + KeyMap(lines) == KeyMap(lines) && lines[0..] == lines;
      var i := 0;
      while i < |lines|
        invariant 0 <= i <= |lines|
        invariant m + KeyMap(lines[i..]) == KeyMap(lines)
      {
        var line := lines[i];
        KeyMapStep(m, lines, i);
        if !IsComment(line) && IndexOf(line, '=') < |line| {
          var key := Trim(DotNet, line[..IndexOf(line, '=')]);
          if key != "" {
            m := m[Fold(key) := line];
          }
        }
        i := i + 1;
      }
      KeyMapOfNone(m, lines[i..]);
    }

    static lemma NothingMatched(lines: seq<string>, key: string)
      requires lines == []
      ensures !PiecesMatch(lines, key)
    {
    }

    static lemma NothingLeft(text: string, lines: seq<string>, key: string, newLine: string)
      ensures text + Concat(lines[|lines|..]) == text
      ensures text + Concat(RewritePieces(lines[|lines|..], key, newLine)) == text
    {
      assert lines[|lines|..] == [];
    }

    /** One turn of the loop: the text built so far and the pieces still to come. */
    static lemma RewriteStep(text: string, lines: seq<string>, i: nat, key: string, newLine: string)
      requires i < |lines|
      ensures IsTerminator(lines[i]) ==> !RewriterMatches(lines[i], key)
      ensures text + Concat(lines[i..]) == text + lines[i] + Concat(lines[i + 1..])
      ensures text + Concat(RewritePieces(lines[i..], key, newLine))
           == if RewriterMatches(lines[i], key) then text + newLine + Concat(lines[i + 1..])
              else text + lines[i] + Concat(RewritePieces(lines[i + 1..], key, newLine))
    {
      hide RewriterKey, Fold;
      if IsTerminator(lines[i]) {
        SeparatorHasNoKey(lines[i]);
      }
      var rest := lines[i + 1..];
      assert lines[i..][0] == lines[i] && lines[i..][1..] == rest;
      ConcatCons(newLine, rest);
      ConcatCons(lines[i], RewritePieces(rest, key, newLine));
      Regroup(text, lines[i], Concat(rest));
      Regroup(text, newLine, Concat(rest));
      Regroup(text, lines[i], Concat(RewritePieces(rest, key, newLine)));
    }

    static lemma {:induction false} NoMatchNoRewrite(lines: seq<string>, key: string, line: string)
      requires !PiecesMatch(lines, key)
      ensures RewritePieces(lines, key, line) == lines
    {
      hide RewriterMatches;
      if lines != [] {
        assert lines[0] == lines[..][0];
        forall i | 0 <= i < |lines[1..]|
          ensures !RewriterMatches(lines[1..][i], key)
        {
          assert lines[1..][i] == lines[i + 1];
        }
        NoMatchNoRewrite(lines[1..], key, line);
      }
    }

    static lemma FinishRewrite(content: string, key: string, newLine: string)
      ensures var lines := Pieces(Split(content));
              && (PiecesMatch(lines, key) <==> HasMatch(Split(content), key))
              && Concat(RewritePieces(lines, key, newLine))
                 == if HasMatch(Split(content), key) then SetKey(content, key, newLine) else content
      ensures !HasMatch(Split(content), key) ==>
                SetKey(content, key, newLine) == content + Newline(content) + newLine + CRLF
    {
      hide RewritePieces, PiecesMatch, HasMatch, Rewrite;
      SplitThenJoin(content);
      PiecesOfDoc(Split(content), key, newLine);
      if !PiecesMatch(Pieces(Split(content)), key) {
        NoMatchNoRewrite(Pieces(Split(content)), key, newLine);
      }
    }

    static lemma PrefixMatch(lines: seq<string>, i: nat, key: string)
      requires i < |lines|
      ensures PiecesMatch(lines[..i + 1], key) <==> PiecesMatch(lines[..i], key) || RewriterMatches(lines[i], key)
    {
      hide RewriterMatches;
      var a, b := lines[..i], lines[..i + 1];
      assert b[i] == lines[i];
      if j :| 0 <= j < |a| && RewriterMatches(a[j], key) {
        assert b[j] == a[j];
      }
      if j :| 0 <= j < |b| && RewriterMatches(b[j], key) {
        assert j < i ==> a[j] == b[j];
      }
    }

    method SetKeyInTargetFile(key: string, newLine: string)
      requires target.Some?
      modifies this`target
      ensures target == Some(SetKey(old(target).value, key, newLine))
    {
      hide RewriterMatches, RewritePieces, PiecesMatch, Concat, Split, Pieces, SetKey, HasMatch;
      var content := target.value;
      var lines := Pieces(Split(content));
      var updated, found := "", false;
      ghost var all := Concat(RewritePieces(lines, key, newLine));
      var i := 0;
      assert lines[0..] == lines && "" + all == all;
      NothingMatched(lines[..0], key);
      while i < |lines|
        invariant 0 <= i <= |lines|
        invariant updated + Concat(if found then lines[i..] else RewritePieces(lines[i..], key, newLine)) == all
        invariant found <==> PiecesMatch(lines[..i], key)
      {
        var line := lines[i];
        RewriteStep(updated, lines, i, key, newLine);
        PrefixMatch(lines, i, key);
        if IsTerminator(line) {
          updated := updated + line;
        } else if !found && RewriterMatches(line, key) {
          updated := updated + newLine;
          found := true;
        } else {
          updated := updated + line;
        }
        i := i + 1;
      }
      NothingLeft(updated, lines, key, newLine);
      assert lines[..i] == lines && lines[i..] == lines[|lines|..];
      FinishRewrite(content, key, newLine);
      if !found {
        if |content| > 0 && !EndsWith(content, CRLF) {
          updated := updated + CRLF;
        }
        updated := updated + newLine + CRLF;
      }
      target := Some(updated);
    }

    static lemma GateOfFile(content: Option<string>)
      ensures CriticalPresent(FileMap(content)) <==> content.Some? && HasFeedUrl(content.value)
    {
      hide HasFeedUrl, TextMap;
      if content.Some? {
        GateMeans(content.value);
      } else {
        CriticalMeans(FileMap(content));
      }
    }

    /** Exit code 2 when a critical key is absent or blank in the target, else 0. */
    method Gate() returns (exit: int)
      ensures exit == if target.Some? && HasFeedUrl(target.value) then 0 else 2
    {
      hide HasFeedUrl, TextMap, ValueOf;
      GateOfFile(target);
      var finalMap := ConvertToKeyMap(target);
      var missingCritical: seq<string> := [];
      var i := 0;
      while i < |CriticalKeys|
        invariant 0 <= i <= |CriticalKeys|
        invariant missingCritical == [] <==>
                  forall j :: 0 <= j < i ==> ValueIn(finalMap, Fold(CriticalKeys[j])) != ""
      {
        var k := Fold(CriticalKeys[i]);
        var v := ValueIn(finalMap, k);
        if v == "" {
          missingCritical := missingCritical + [CriticalKeys[i]];
        }
        i := i + 1;
      }
      exit := if |missingCritical| > 0 then 2 else 0;
    }

    /** Step 1: the keys the installer owns take the example's line. */
    method OverwriteSystemKeys(exampleMap: map<string, string>)
      requires target.Some?
      modifies this`target
      ensures target == Some(SystemPass(exampleMap, TextMap(old(target).value), old(target).value, SystemManagedKeys))
    {
      hide SetKey, TextMap, Fold;
      var targetMap := ConvertToKeyMap(target);
      var i := 0;
      while i < |SystemManagedKeys|
        invariant 0 <= i <= |SystemManagedKeys|
        invariant target.Some?
        invariant SystemPass(exampleMap, targetMap, target.value, SystemManagedKeys[i..])
               == SystemPass(exampleMap, targetMap, old(target).value, SystemManagedKeys)
      {
        var key := SystemManagedKeys[i];
        ghost var text := target.value;
        assert SystemManagedKeys[i..][0] == key && SystemManagedKeys[i..][1..] == SystemManagedKeys[i + 1..];
        var k := Fold(key);
        if k in exampleMap && k in targetMap {
          if Fold(targetMap[k]) != Fold(exampleMap[k]) {
            SetKeyInTargetFile(key, exampleMap[k]);
          }
        }
        assert target.value == SystemStep(exampleMap, targetMap, text, key);
        i := i + 1;
      }
      assert SystemManagedKeys[i..] == [];
    }

    /** `$map.Keys` for a hashtable: an entry of that name shadows the property. */
    static method EnumerateKeys(m: map<string, string>) returns (keys: seq<string>)
      ensures Enumerates(keys, m)
    {
      if KeysName in m {
        return [Fold(m[KeysName])];
      }
      keys := [];
      var todo := m.Keys;
      while todo != {}
        invariant todo <= m.Keys
        invariant forall k :: k in keys <==> k in m && k !in todo
        invariant forall i, j :: 0 <= i < j < |keys| ==> keys[i] != keys[j]
      {
        var key :| key in todo;
        todo := todo - {key};
        keys := keys + [key];
      }
    }

    static lemma {:induction false} MissingSnoc(ex: map<string, string>, tg: map<string, string>,
                                                order: seq<string>, k: string)
      ensures MissingLines(ex, tg, order + [k])
           == MissingLines(ex, tg, order) + (if k in tg then [] else [EntryOrEmpty(ex, k)])
    {
      if order == [] {
        assert MissingLines(ex, tg, []) == [] && ([] + [k])[1..] == [];
      } else {
        assert (order + [k])[0] == order[0] && (order + [k])[1..] == order[1..] + [k];
        MissingSnoc(ex, tg, order[1..], k);
      }
    }

    /** The loop over the example's `Keys` property. */
    static method CollectMissing(exampleMap: map<string, string>, targetMap: map<string, string>)
      returns (missing: seq<string>, ghost order: seq<string>)
      ensures Enumerates(order, exampleMap)
      ensures missing == MissingLines(exampleMap, targetMap, order)
    {
      hide Fold;
      var keys := EnumerateKeys(exampleMap);
      missing, order := [], keys;
      var i := 0;
      while i < |keys|
        invariant 0 <= i <= |keys|
        invariant missing == MissingLines(exampleMap, targetMap, keys[..i])
      {
        if keys[i] !in targetMap {
          missing := missing + [EntryOrEmpty(exampleMap, keys[i])];
        }
        assert keys[..i + 1] == keys[..i] + [keys[i]];
        MissingSnoc(exampleMap, targetMap, keys[..i], keys[i]);
        i := i + 1;
      }
      assert keys[..i] == keys;
    }

    static method WriteLines(text: string, lines: seq<string>) returns (r: string)
      ensures r == text + Terminated(lines)
    {
      r := text;
      var i := 0;
      while i < |lines|
        invariant 0 <= i <= |lines|
        invariant r + Terminated(lines[i..]) == text + Terminated(lines)
      {
        assert lines[i..][1..] == lines[i + 1..];
        assert r + (lines[i] + CRLF + Terminated(lines[i + 1..])) == (r + lines[i] + CRLF) + Terminated(lines[i + 1..]);
        r := r + lines[i] + CRLF;
        i := i + 1;
      }
    }

    /** Steps 2 and 3: the target is read again and the keys it lacks are appended. */
    method AddMissingKeys(exampleMap: map<string, string>) returns (ghost order: seq<string>)
      requires target.Some?
      modifies this`target
      ensures Enumerates(order, exampleMap)
      ensures var text := old(target).value;
              target == Some(AppendMissing(text, MissingLines(exampleMap, TextMap(text), order)))
    {
      var content := target.value;
      var targetMap := ConvertToKeyMap(target);
      var missing;
      missing, order := CollectMissing(exampleMap, targetMap);
      if |missing| > 0 {
        var merged := content + Newline(content);
        var last := LastPiece(Pieces(Split(TrimEnd(DotNet, content))));
        var marker := "";
        if Fold(TrimEnd(DotNet, last)) != Fold(MergeMarker) {
          marker := MergeMarker + CRLF;
        }
        merged := WriteLines(merged + marker, missing);
        Regroup(content + Newline(content), marker, Terminated(missing));
        target := Some(merged);
      }
    }

    static lemma MergedFrom(result: Option<string>, base: string, example: Option<string>, order: seq<string>)
      requires if example.Some?
               then Enumerates(order, TextMap(example.value)) && result == Some(MergeText(example.value, base, order))
               else result == Some(base)
      ensures IsMerged(result, base, example, order) && Keeps(result, base)
    {
      hide Keeps, MergeText, Enumerates;
      MergedKeeps(result, base, example, order);
    }

    /** The script. `order` is the order in which the runtime enumerated the
        example's keys. */
    method Merge() returns (exit: int, ghost order: seq<string>)
      modifies this
      ensures example == old(example) && legacy == old(legacy)
      ensures backup == if old(target).None? && legacy.Some? && backupWanted && old(backup).None?
                        then legacy else old(backup)
      ensures IsMigrated(target, old(target), legacy, example, order)
      ensures exit == if target.Some? && HasFeedUrl(target.value) then 0 else 2
    {
      hide TextMap, AppendMissing, MissingLines, SystemPass, CriticalPresent, Enumerates, Keeps, HasFeedUrl, IsMerged;
      order := [];
      if target.None? && legacy.Some? {
        target := legacy;
        if backupWanted && backup.None? {
          backup := legacy;
        }
      }
      if target.None? && example.Some? {
        target := example;
      }
      ghost var base := target;
      if example.None? || target.None? {
        if target.Some? {
          MergedFrom(target, base.value, example, order);
        }
        exit := Gate();
        return;
      }

      var exampleMap := ConvertToKeyMap(example);
      OverwriteSystemKeys(exampleMap);
      order := AddMissingKeys(exampleMap);
      MergedFrom(target, base.value, example, order);
      exit := Gate();
    }
  }
}
