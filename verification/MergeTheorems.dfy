/** What the merge does to the key map, and that running it again changes nothing. */
module MergeTheorems {
  import opened Text
  import opened EnvText
  import opened MergeEnv

  /** Every entry of a key map is one line that defines its key. */
  ghost predicate WellKeyed(m: map<string, string>) {
    forall k :: k in m ==> LineKey(m[k]) == Some(k) && NoBreak(m[k])
  }

  lemma TextMapIsWellKeyed(s: string)
    ensures WellKeyed(TextMap(s))
  {
    hide LineKey;
    SplitThenJoin(s);
    LinesHaveNoBreak(Split(s));
    KeyMapEntries(LinesOf(s));
  }

  /** Distinct identifiers: what the list of system-managed keys is. */
  ghost predicate KeyList(keys: seq<string>) {
    && (forall i :: 0 <= i < |keys| ==> IsIdent(keys[i]))
    && (forall i, j :: 0 <= i < j < |keys| ==> Fold(keys[i]) != Fold(keys[j]))
  }

  lemma SystemKeysAreKeyList()
    ensures KeyList(SystemManagedKeys)
  {
    assert IsIdent("APP_VERSION");
    assert IsIdent("APP_NAME");
    assert |Fold("APP_VERSION")| != |Fold("APP_NAME")|;
  }

  ghost predicate Listed(keys: seq<string>, k: string) {
    exists i :: 0 <= i < |keys| && Fold(keys[i]) == k
  }

  ghost predicate Differs(ex: map<string, string>, tg: map<string, string>, k: string) {
    k in ex && k in tg && Fold(tg[k]) != Fold(ex[k])
  }

  /** The lines of a text after one step. */
  lemma StepLines(ex: map<string, string>, tg: map<string, string>, text: string, key: string)
    requires WellKeyed(ex) && IsIdent(key)
    requires Differs(ex, tg, Fold(key)) ==> Fold(key) in TextMap(text)
    ensures LinesOf(SystemStep(ex, tg, text, key))
         == if Differs(ex, tg, Fold(key)) then ReplaceFirst(LinesOf(text), Fold(key), ex[Fold(key)]) else LinesOf(text)
  {
    hide LineKey, LinesOf, SetKey, Fold;
    if Differs(ex, tg, Fold(key)) {
      CountIsPresence(LinesOf(text), Fold(key));
      SetKeyLines(text, key, ex[Fold(key)]);
    }
  }

  /** What a pass over the managed keys leaves of the lines `before`. */
  ghost predicate Passed(ex: map<string, string>, tg: map<string, string>, keys: seq<string>,
                         before: seq<string>, after: seq<string>) {
    && |after| == |before|
    && (forall k :: Count(after, k) == Count(before, k))
    && KeyMap(after).Keys == KeyMap(before).Keys
    && (forall k :: k in KeyMap(before) ==>
          KeyMap(after)[k] == if Listed(keys, k) && Differs(ex, tg, k) && Count(before, k) == 1 then ex[k]
                              else KeyMap(before)[k])
    && (forall k :: Count(before, k) > 0 ==>
          FirstDefinition(after, k) == if Listed(keys, k) && Differs(ex, tg, k) then ex[k]
                                       else FirstDefinition(before, k))
  }

  lemma ReplacePasses(ex: map<string, string>, tg: map<string, string>, key: string, before: seq<string>)
    requires WellKeyed(ex) && Differs(ex, tg, Fold(key)) && Fold(key) in KeyMap(before)
    ensures Passed(ex, tg, [key], before, ReplaceFirst(before, Fold(key), ex[Fold(key)]))
  {
    hide LineKey, Fold, Count, FirstDefinition, ReplaceFirst, KeyMap;
    var k := Fold(key);
    ReplaceFirstInMap(before, k, ex[k]);
    forall j
      ensures Listed([key], j) <==> j == k
      ensures Count(ReplaceFirst(before, k, ex[k]), j) == Count(before, j)
      ensures Count(before, j) > 0 ==> FirstDefinition(ReplaceFirst(before, k, ex[k]), j)
                                       == if j == k then ex[k] else FirstDefinition(before, j)
    {
      ReplaceFirstInCount(before, k, ex[k], j);
      assert Fold([key][0]) == k;
    }
  }

  lemma PassedCompose(ex: map<string, string>, tg: map<string, string>, keys: seq<string>,
                      a: seq<string>, b: seq<string>, c: seq<string>)
    requires KeyList(keys) && keys != []
    requires if Differs(ex, tg, Fold(keys[0])) then Passed(ex, tg, [keys[0]], a, b) else a == b
    requires Passed(ex, tg, keys[1..], b, c)
    ensures Passed(ex, tg, keys, a, c)
  {
    hide LineKey, Fold, Count, FirstDefinition, KeyMap, IsIdent;
    forall k
      ensures Listed(keys, k) <==> k == Fold(keys[0]) || Listed(keys[1..], k)
      ensures !(k == Fold(keys[0]) && Listed(keys[1..], k))
      ensures Listed([keys[0]], k) <==> k == Fold(keys[0])
    {
      assert [keys[0]][0] == keys[0];
      if i :| 0 <= i < |keys| && Fold(keys[i]) == k {
        assert i > 0 ==> keys[1..][i - 1] == keys[i];
      }
      if i :| 0 <= i < |keys[1..]| && Fold(keys[1..][i]) == k {
        assert keys[i + 1] == keys[1..][i];
      }
    }
  }

  lemma {:induction false} PassLines(ex: map<string, string>, tg: map<string, string>, text: string, keys: seq<string>)
    requires WellKeyed(ex) && KeyList(keys)
    requires tg.Keys <= TextMap(text).Keys
    ensures Passed(ex, tg, keys, LinesOf(text), LinesOf(SystemPass(ex, tg, text, keys)))
    decreases keys
  {
    hide LineKey, Fold, Count, FirstDefinition, KeyMap, ReplaceFirst, SystemStep, LinesOf;
    if keys != [] {
      var next := SystemStep(ex, tg, text, keys[0]);
      StepLines(ex, tg, text, keys[0]);
      if Differs(ex, tg, Fold(keys[0])) {
        ReplacePasses(ex, tg, keys[0], LinesOf(text));
      }
      assert KeyList(keys[1..]);
      PassLines(ex, tg, next, keys[1..]);
      PassedCompose(ex, tg, keys, LinesOf(text), LinesOf(next), LinesOf(SystemPass(ex, tg, next, keys[1..])));
    }
  }

  // ---- The appended block ----

  ghost function MissingMap(ex: map<string, string>, tg: map<string, string>, order: seq<string>): map<string, string> {
    map k | k in ex && k in order && k !in tg :: ex[k]
  }

  lemma EmptyLineHasNoKey()
    ensures LineKey("") == None && KeyMap([""]) == map[]
  {
  }

  lemma EntryLine(ex: map<string, string>, k: string)
    requires WellKeyed(ex)
    ensures NoBreak(EntryOrEmpty(ex, k))
    ensures LineMap(EntryOrEmpty(ex, k)) == if k in ex then map[k := ex[k]] else map[]
  {
    hide LineKey;
    EmptyLineHasNoKey();
  }

  lemma MissingMapOfNone(ex: map<string, string>, tg: map<string, string>)
    ensures MissingMap(ex, tg, []) == map[]
  {
  }

  lemma MissingMapStep(ex: map<string, string>, tg: map<string, string>, order: seq<string>)
    requires order != []
    ensures MissingMap(ex, tg, order)
         == (if order[0] in tg || order[0] !in ex then map[] else map[order[0] := ex[order[0]]])
            + MissingMap(ex, tg, order[1..])
  {
    assert forall j :: j in order <==> j == order[0] || j in order[1..];
  }

  lemma {:induction false} MissingInMap(ex: map<string, string>, tg: map<string, string>, order: seq<string>)
    requires WellKeyed(ex)
    ensures KeyMap(MissingLines(ex, tg, order)) == MissingMap(ex, tg, order)
    ensures forall i :: 0 <= i < |MissingLines(ex, tg, order)| ==> NoBreak(MissingLines(ex, tg, order)[i])
  {
    hide LineKey, NoBreak, MissingMap, EntryOrEmpty;
    if order == [] {
      MissingMapOfNone(ex, tg);
    } else {
      var line, rest := EntryOrEmpty(ex, order[0]), MissingLines(ex, tg, order[1..]);
      MissingInMap(ex, tg, order[1..]);
      MissingMapStep(ex, tg, order);
      EntryLine(ex, order[0]);
      if order[0] !in tg {
        assert ([line] + rest)[1..] == rest;
      } else {
        assert [] + rest == rest;
      }
    }
  }

  lemma MarkerHasNoKey()
    ensures KeyMap([MergeMarker]) == map[] && NoBreak(MergeMarker)
  {
    assert SpaceEnd(DotNet, MergeMarker, 0) == 0;
    assert TrimStart(DotNet, MergeMarker) == MergeMarker;
    assert MergeMarker[..1] == "#";
  }

  lemma MarkerLineForms(text: string)
    ensures MarkerLine(text) == "" || MarkerLine(text) == MergeMarker + CRLF
  {
  }

  lemma OneLine(line: string)
    requires NoBreak(line)
    ensures LinesOf(line) == [line]
  {
    JoinThenSplit(Last(line));
  }

  lemma CountOfMarker(k: string)
    ensures Count([MergeMarker], k) == 0
  {
    hide LineKey;
    MarkerHasNoKey();
    CountIsPresence([MergeMarker], k);
  }

  lemma CountOfEmptyLine(k: string)
    ensures Count([""], k) == 0
  {
    EmptyLineHasNoKey();
  }

  lemma AppendedLines(text: string, missing: seq<string>) returns (kept: seq<string>, block: seq<string>)
    requires missing != [] && forall i :: 0 <= i < |missing| ==> NoBreak(missing[i])
    ensures LinesOf(text) == kept || LinesOf(text) == kept + [""]
    ensures LinesOf(AppendMissing(text, missing)) == kept + block
    ensures KeyMap(block) == KeyMap(missing) && forall k :: Count(block, k) == Count(missing, k)
  {
    hide LinesOf, LineKey, NoBreak, Newline, KeyMap, MarkerLine, Count, FirstDefinition;
    MarkerLineForms(text);
    var marker := MarkerLine(text);
    var body := Terminated(missing);
    kept := AppendLines(text, marker + body);
    LinesOfTerminated(missing);
    KeyMapOfConcat(missing, [""]);
    EmptyLineHasNoKey();
    assert KeyMap(missing) + map[] == KeyMap(missing);
    block := LinesOf(marker + body);
    MarkerHasNoKey();
    forall k
      ensures Count(missing + [""], k) == Count(missing, k)
      ensures Count([MergeMarker] + (missing + [""]), k) == Count(missing, k)
    {
      FirstInConcat(missing, [""], k);
      FirstInConcat([MergeMarker], missing + [""], k);
      CountOfEmptyLine(k);
      CountOfMarker(k);
    }
    if marker == "" {
      assert marker + body == body;
    } else {
      assert MergeMarker + CRLF + body == marker + body;
      LinesOfConcat(MergeMarker, body);
      LinesOfTerminated([MergeMarker]);
      OneLine(MergeMarker);
      KeyMapOfConcat([MergeMarker], missing + [""]);
    }
  }

  lemma NothingAppended(text: string)
    ensures AppendMissing(text, []) == text
    ensures TextMap(text) + KeyMap([]) == TextMap(text)
  {
  }

  lemma AppendedMap(text: string, missing: seq<string>)
    requires forall i :: 0 <= i < |missing| ==> NoBreak(missing[i])
    ensures TextMap(AppendMissing(text, missing)) == TextMap(text) + KeyMap(missing)
  {
    hide LinesOf, NoBreak, KeyMap, AppendMissing, IsComment, LineKey;
    if missing != [] {
      var kept, block := AppendedLines(text, missing);
      KeyMapOfConcat(kept, block);
      KeyMapOfConcat(kept, [""]);
      EmptyLineHasNoKey();
      assert KeyMap(kept) + map[] == KeyMap(kept);
      assert KeyMap(LinesOf(text)) == KeyMap(kept);
    } else {
      NothingAppended(text);
    }
  }

  lemma AppendedFirst(text: string, missing: seq<string>, k: string)
    requires forall i :: 0 <= i < |missing| ==> NoBreak(missing[i])
    requires Count(LinesOf(text), k) > 0
    ensures Count(LinesOf(AppendMissing(text, missing)), k) > 0
    ensures FirstDefinition(LinesOf(AppendMissing(text, missing)), k) == FirstDefinition(LinesOf(text), k)
  {
    hide LinesOf, NoBreak, Count, FirstDefinition, KeyMap, AppendMissing;
    if missing != [] {
      var kept, block := AppendedLines(text, missing);
      CountOfEmptyLine(k);
      FirstInConcat(kept, [""], k);
      FirstInConcat(kept, block, k);
    } else {
      NothingAppended(text);
    }
  }

  // ---- The theorems ----

  /** The merge on key maps. A managed key that both files define takes the
      example's line when the lines differ by more than case and the target
      defines the key on one line only; every other key of the target keeps its
      line, and keys only the example has are added. */
  ghost function MapMerge(ex: map<string, string>, target: seq<string>): map<string, string> {
    var tg := KeyMap(target);
    map k | k in ex.Keys + tg.Keys ::
      if k !in tg || (Listed(SystemManagedKeys, k) && Differs(ex, tg, k) && Count(target, k) == 1) then ex[k] else tg[k]
  }

  /** What the merge does to the key map, for every order of enumeration and every
      mix of line terminators: the map merge, but without the keys only the example
      has when an entry shadows their enumeration. */
  ghost function MergedMap(ex: map<string, string>, target: seq<string>): map<string, string> {
    if KeysName in ex then map k | k in KeyMap(target) :: MapMerge(ex, target)[k] else MapMerge(ex, target)
  }

  lemma KeyHasNoEquals(line: string)
    requires LineKey(line).Some?
    ensures '=' !in LineKey(line).value && '=' in Fold(line)
  {
    var i := IndexOf(line, '=');
    var a, b := TrimBounds(DotNet, line[..i]);
    var key := line[..i][a..b];
    hide Trim, IsComment, IndexOf;
    assert Fold(line)[i] == '=';
    forall j | 0 <= j < |key|
      ensures Fold(key)[j] != '='
    {
      assert key[j] == line[a + j];
    }
  }

  /** A line that defines a key is itself no key of any map. */
  lemma LineIsNoKey(m: map<string, string>, line: string)
    requires WellKeyed(m) && LineKey(line).Some?
    ensures Fold(line) !in m
  {
    hide LineKey, Fold;
    KeyHasNoEquals(line);
    if Fold(line) in m {
      KeyHasNoEquals(m[Fold(line)]);
    }
  }

  lemma MissingOfEnumeration(ex: map<string, string>, tg: map<string, string>, order: seq<string>)
    requires WellKeyed(ex) && Enumerates(order, ex)
    ensures MissingMap(ex, tg, order) == if KeysName in ex then map[] else map k | k in ex && k !in tg :: ex[k]
  {
    hide LineKey, Fold;
    if KeysName in ex {
      LineIsNoKey(ex, ex[KeysName]);
    }
  }

  lemma MergedKeyMap(example: string, target: string, order: seq<string>)
    requires Enumerates(order, TextMap(example))
    ensures TextMap(MergeText(example, target, order)) == MergedMap(TextMap(example), LinesOf(target))
  {
    hide LinesOf, LineKey, NoBreak, Count, FirstDefinition, KeyMap, AppendMissing, SystemPass, Listed, Differs;
    hide MissingMap, Fold;
    var ex, tg := TextMap(example), TextMap(target);
    TextMapIsWellKeyed(example);
    SystemKeysAreKeyList();
    PassLines(ex, tg, target, SystemManagedKeys);
    var text := SystemPass(ex, tg, target, SystemManagedKeys);
    var missing := MissingLines(ex, TextMap(text), order);
    MissingInMap(ex, TextMap(text), order);
    AppendedMap(text, missing);
    MissingOfEnumeration(ex, TextMap(text), order);
    var merged, want := TextMap(text) + MissingMap(ex, TextMap(text), order), MergedMap(ex, LinesOf(target));
    assert merged.Keys == want.Keys;
    assert forall k :: k in want ==> merged[k] == want[k];
  }

  /** The text rewriter refines the map merge exactly when no entry of the example
      shadows the enumeration of its keys, or no key is missing. */
  lemma MergeRefinesMapMerge(example: string, target: string, order: seq<string>)
    requires Enumerates(order, TextMap(example))
    ensures TextMap(MergeText(example, target, order)) == MapMerge(TextMap(example), LinesOf(target))
            <==> KeysName !in TextMap(example) || TextMap(example).Keys <= TextMap(target).Keys
  {
    hide LinesOf, KeyMap, Listed, Differs, MergeText;
    MergedKeyMap(example, target, order);
    var ex, tg := TextMap(example), TextMap(target);
    var merged, want := MergedMap(ex, LinesOf(target)), MapMerge(ex, LinesOf(target));
    assert want.Keys == ex.Keys + tg.Keys;
    if KeysName in ex {
      assert merged.Keys == tg.Keys;
      if ex.Keys <= tg.Keys {
        assert want.Keys == tg.Keys;
        assert merged == want;
      }
    }
  }

  /** The order in which the runtime enumerates the example's keys does not show
      in the result. */
  lemma MergeIgnoresOrder(example: string, target: string, o1: seq<string>, o2: seq<string>)
    requires Enumerates(o1, TextMap(example)) && Enumerates(o2, TextMap(example))
    ensures TextMap(MergeText(example, target, o1)) == TextMap(MergeText(example, target, o2))
  {
    hide MergeText, MergedMap;
    MergedKeyMap(example, target, o1);
    MergedKeyMap(example, target, o2);
  }

  lemma {:induction false} RewriteBySame(d: Doc, key: string)
    requires IsIdent(key) && Count(Texts(d), Fold(key)) > 0
    ensures Rewrite(d, key, FirstDefinition(Texts(d), Fold(key))) == d && HasMatch(d, key)
  {
    hide RewriterMatches, LineKey, Fold;
    ReadersAgree(d.text, key);
    if !RewriterMatches(d.text, key) {
      assert d.Line? && Texts(d)[1..] == Texts(d.rest);
      RewriteBySame(d.rest, key);
    }
  }

  /** A managed key whose first definition is already the example's line. */
  ghost predicate Settled(ex: map<string, string>, text: string, key: string) {
    Differs(ex, TextMap(text), Fold(key)) ==>
      Count(LinesOf(text), Fold(key)) > 0 && FirstDefinition(LinesOf(text), Fold(key)) == ex[Fold(key)]
  }

  lemma {:induction false} SettledPass(ex: map<string, string>, text: string, keys: seq<string>)
    requires forall i :: 0 <= i < |keys| ==> IsIdent(keys[i]) && Settled(ex, text, keys[i])
    ensures SystemPass(ex, TextMap(text), text, keys) == text
  {
    hide LineKey, Fold, Count, FirstDefinition, TextMap, HasMatch, Rewrite, IsIdent;
    if keys != [] {
      var key := keys[0];
      if Differs(ex, TextMap(text), Fold(key)) {
        RewriteBySame(Split(text), key);
        SplitThenJoin(text);
      }
      assert SystemStep(ex, TextMap(text), text, key) == text;
      SettledPass(ex, text, keys[1..]);
    }
  }

  lemma MergedTextIsSettled(example: string, target: string, order: seq<string>, key: string)
    requires Enumerates(order, TextMap(example)) && key in SystemManagedKeys
    ensures Settled(TextMap(example), MergeText(example, target, order), key)
  {
    hide LinesOf, LineKey, Count, FirstDefinition, KeyMap, SystemPass, AppendMissing, Fold;
    var ex, tg, k := TextMap(example), TextMap(target), Fold(key);
    var merged := MergeText(example, target, order);
    MergedKeyMap(example, target, order);
    if Differs(ex, TextMap(merged), k) {
      assert Differs(ex, tg, k);
      var i :| 0 <= i < |SystemManagedKeys| && SystemManagedKeys[i] == key;
      assert Listed(SystemManagedKeys, k);
      TextMapIsWellKeyed(example);
      SystemKeysAreKeyList();
      PassLines(ex, tg, target, SystemManagedKeys);
      var text := SystemPass(ex, tg, target, SystemManagedKeys);
      CountIsPresence(LinesOf(target), k);
      MissingInMap(ex, TextMap(text), order);
      AppendedFirst(text, MissingLines(ex, TextMap(text), order), k);
    }
  }

  lemma {:induction false} NothingMissing(ex: map<string, string>, tg: map<string, string>, order: seq<string>)
    requires (forall k :: k in order ==> k in ex) && ex.Keys <= tg.Keys
    ensures MissingLines(ex, tg, order) == []
  {
    if order != [] {
      assert order[0] in ex.Keys;
      NothingMissing(ex, tg, order[1..]);
    }
  }

  /** Under a shadowed enumeration one empty line is missing from every target. */
  lemma ShadowedMissing(ex: map<string, string>, tg: map<string, string>, order: seq<string>)
    requires WellKeyed(ex) && WellKeyed(tg) && KeysName in ex && Enumerates(order, ex)
    ensures MissingLines(ex, tg, order) == [""]
  {
    hide LineKey, Fold;
    LineIsNoKey(ex, ex[KeysName]);
    LineIsNoKey(tg, ex[KeysName]);
    assert MissingLines(ex, tg, order[1..]) == [];
  }

  lemma AppendedIsLonger(text: string, missing: seq<string>)
    requires missing != []
    ensures |AppendMissing(text, missing)| > |text|
  {
    hide MarkerLine, Newline;
  }

  /** A second run with the same example leaves the file as it is, character by
      character, also when the target defines a managed key on several lines. It
      does so exactly when no entry of the example shadows the enumeration of its
      keys; otherwise every run makes the file longer. */
  lemma MergeIsIdempotent(example: string, target: string, o1: seq<string>, o2: seq<string>)
    requires Enumerates(o1, TextMap(example)) && Enumerates(o2, TextMap(example))
    ensures var merged := MergeText(example, target, o1);
            MergeText(example, merged, o2) == merged <==> KeysName !in TextMap(example)
  {
    hide LinesOf, LineKey, Count, FirstDefinition, KeyMap, SystemPass, Fold, Settled, AppendMissing, MissingLines;
    var ex, merged := TextMap(example), MergeText(example, target, o1);
    SystemKeysAreKeyList();
    forall i | 0 <= i < |SystemManagedKeys|
      ensures Settled(ex, merged, SystemManagedKeys[i])
    {
      MergedTextIsSettled(example, target, o1, SystemManagedKeys[i]);
    }
    SettledPass(ex, merged, SystemManagedKeys);
    if KeysName in ex {
      TextMapIsWellKeyed(example);
      TextMapIsWellKeyed(merged);
      ShadowedMissing(ex, TextMap(merged), o2);
      AppendedIsLonger(merged, [""]);
    } else {
      MergedKeyMap(example, target, o1);
      NothingMissing(ex, TextMap(merged), o2);
      NothingAppended(merged);
    }
  }

  /** When a managed key that both files define ends up with the example's line:
      exactly when the lines already agree, or differ by more than case while the
      target defines the key on one line. */
  lemma ManagedKeyUpdated(example: string, target: string, order: seq<string>, key: string, ex: string, tg: string)
    requires Enumerates(order, TextMap(example)) && key in SystemManagedKeys
    requires Lookup(TextMap(example), Fold(key)) == Some(ex) && Lookup(TextMap(target), Fold(key)) == Some(tg)
    ensures Lookup(TextMap(MergeText(example, target, order)), Fold(key)) == Some(ex)
            <==> tg == ex || (Fold(tg) != Fold(ex) && Count(LinesOf(target), Fold(key)) == 1)
    ensures Lookup(TextMap(MergeText(example, target, order)), Fold(key)) == Some(ex)
            || Lookup(TextMap(MergeText(example, target, order)), Fold(key)) == Some(tg)
  {
    hide LinesOf, LineKey, KeyMap, Count, Fold, MergeText;
    MergedKeyMap(example, target, order);
    var i :| 0 <= i < |SystemManagedKeys| && SystemManagedKeys[i] == key;
    assert Listed(SystemManagedKeys, Fold(key));
  }

  lemma OneLineMap(line: string, key: string)
    requires NoBreak(line) && LineKey(line) == Some(Fold(key))
    ensures LinesOf(line) == [line] && TextMap(line) == map[Fold(key) := line]
  {
    hide LineKey, Fold;
    OneLine(line);
    assert KeyMap([line]) == LineMap(line) + KeyMap([line][1..]);
  }

  lemma KeyAtFront(line: string, key: string, value: string)
    requires line == key + "=" + value && IsIdent(key)
    ensures LineKey(line) == Some(Fold(key))
  {
    assert forall i :: 0 <= i < |key| ==> line[i] == key[i];
    ShapeHasLineKey(line, 0, |key|, |key|);
    assert line[..|key|] == key;
  }

  lemma KeyedText(line: string, key: string, value: string)
    requires line == key + "=" + value && IsIdent(key) && NoBreak(line)
    ensures TextMap(line) == map[Fold(key) := line]
  {
    hide LineKey, NoBreak, IsIdent, Fold;
    KeyAtFront(line, key, value);
    OneLineMap(line, key);
  }

  lemma CaseOnlyFacts()
    ensures "APP_NAME" in SystemManagedKeys
    ensures Fold("APP_NAME=Backup") == Fold("APP_NAME=BACKUP")
    ensures "APP_NAME=Backup" != "APP_NAME=BACKUP"
  {
    assert SystemManagedKeys[1] == "APP_NAME";
    assert "APP_NAME=Backup"[10] == 'a' && "APP_NAME=BACKUP"[10] == 'A';
  }

  lemma CaseOnlyTexts()
    ensures TextMap("APP_NAME=Backup") == map[Fold("APP_NAME") := "APP_NAME=Backup"]
    ensures TextMap("APP_NAME=BACKUP") == map[Fold("APP_NAME") := "APP_NAME=BACKUP"]
    ensures Lookup(TextMap("APP_NAME=Backup"), Fold("APP_NAME")) == Some("APP_NAME=Backup")
    ensures Lookup(TextMap("APP_NAME=BACKUP"), Fold("APP_NAME")) == Some("APP_NAME=BACKUP")
  {
    hide TextMap;
    KeyedText("APP_NAME=Backup", "APP_NAME", "Backup");
    KeyedText("APP_NAME=BACKUP", "APP_NAME", "BACKUP");
  }

  /** "Always overwritten" fails for a managed value that differs in case only:
      the target's `BACKUP` stays although the example says `Backup`. */
  lemma CaseOnlyChangeIsNotApplied(order: seq<string>, example: string, target: string, key: string)
    requires key == "APP_NAME" && example == "APP_NAME=Backup" && target == "APP_NAME=BACKUP"
    requires Enumerates(order, TextMap(example))
    ensures Lookup(TextMap(example), Fold(key)) == Some(example)
    ensures Lookup(TextMap(MergeText(example, target, order)), Fold(key)) == Some(target) != Some(example)
  {
    CaseOnlyFacts();
    CaseOnlyTexts();
    hide *;
    ManagedKeyUpdated(example, target, order, key, example, target);
  }

  /** A text of two lines that define one key: the last one wins. */
  lemma TwoDefinitions(a: string, b: string, k: string)
    requires NoBreak(a) && NoBreak(b) && LineKey(a) == Some(k) && LineKey(b) == Some(k)
    ensures LinesOf(a + CRLF + b) == [a, b]
    ensures TextMap(a + CRLF + b) == map[k := b] && Count(LinesOf(a + CRLF + b), k) == 2
  {
    hide LineKey, NoBreak, LinesOf;
    LinesOfConcat(a, b);
    OneLine(a);
    OneLine(b);
    var lines := [a, b];
    assert [a] + [b] == lines && lines[1..] == [b] && [b][1..] == [];
    assert KeyMap([b]) == map[k := b] && Count([b], k) == 1;
  }

  lemma DuplicateFacts(key: string, example: string, first: string, last: string)
    requires key == "APP_NAME" && example == "APP_NAME=A" && first == "APP_NAME=B" && last == "APP_NAME=C"
    ensures key in SystemManagedKeys && IsIdent(key) && example != last && Fold(example) != Fold(last)
    ensures NoBreak(example) && NoBreak(first) && NoBreak(last)
    ensures example == key + "=" + "A" && first == key + "=" + "B" && last == key + "=" + "C"
  {
    assert SystemManagedKeys[1] == key;
    assert example[9] == 'A' && last[9] == 'C';
    assert Fold(example)[9] == 'a' && Fold(last)[9] == 'c';
  }

  lemma Found(m: map<string, string>, k: string, line: string)
    requires m == map[k := line]
    ensures Lookup(m, k) == Some(line)
  {
  }

  /** "Always overwritten" fails as well for a key that the target defines twice: the
      first line is rewritten, the last one is read. */
  lemma DuplicateHidesTheUpdate(order: seq<string>, example: string, first: string, last: string)
    requires example == "APP_NAME=A" && first == "APP_NAME=B" && last == "APP_NAME=C"
    requires Enumerates(order, TextMap(example))
    ensures Lookup(TextMap(example), Fold("APP_NAME")) == Some(example)
    ensures Lookup(TextMap(MergeText(example, first + CRLF + last, order)), Fold("APP_NAME"))
            == Some(last) != Some(example)
  {
    hide *;
    var key := "APP_NAME";
    DuplicateFacts(key, example, first, last);
    KeyedText(example, key, "A");
    KeyAtFront(first, key, "B");
    KeyAtFront(last, key, "C");
    TwoDefinitions(first, last, Fold(key));
    Found(TextMap(example), Fold(key), example);
    Found(TextMap(first + CRLF + last), Fold(key), last);
    ManagedKeyUpdated(example, first + CRLF + last, order, key, example, last);
  }

  lemma KeysEntryFacts(example: string, target: string)
    requires example == "KEYS=1" && target == "A=2"
    ensures example == "KEYS" + "=" + "1" && target == "A" + "=" + "2"
    ensures IsIdent("KEYS") && IsIdent("A") && NoBreak(example) && NoBreak(target)
    ensures Fold("KEYS") == KeysName && Fold("A") == "a" && "a" != KeysName
  {
    assert |Fold("A")| == 1 && |KeysName| == 4;
  }

  /** An entry named like the enumerated property: nothing is added to the target but
      an empty line, once more in every run. */
  lemma KeysEntryStopsTheMerge(order: seq<string>, example: string, target: string)
    requires example == "KEYS=1" && target == "A=2" && Enumerates(order, TextMap(example))
    ensures TextMap(example) == map[KeysName := example] && TextMap(target) == map["a" := target]
    ensures TextMap(MergeText(example, target, order)) != MapMerge(TextMap(example), LinesOf(target))
    ensures MergeText(example, MergeText(example, target, order), order) != MergeText(example, target, order)
  {
    hide *;
    KeysEntryFacts(example, target);
    KeyedText(example, "KEYS", "1");
    KeyedText(target, "A", "2");
    MergeRefinesMapMerge(example, target, order);
    MergeIsIdempotent(example, target, order, order);
    assert KeysName in TextMap(example).Keys && KeysName !in TextMap(target).Keys;
  }

  lemma NotManaged(k: string)
    requires |k| != 8 && |k| != 11
    ensures !Listed(SystemManagedKeys, k)
  {
    FoldLength("APP_VERSION");
    FoldLength("APP_NAME");
  }

  lemma TextMapOfLines(text: string)
    ensures TextMap(text) == KeyMap(LinesOf(text))
  {
  }

  lemma CriticalValues(m: map<string, string>)
    ensures CriticalPresent(m) <==> forall key :: key in CriticalKeys ==> ValueIn(m, Fold(key)) != ""
  {
  }

  lemma CriticalIsNotManaged(key: string)
    requires key in CriticalKeys
    ensures !Listed(SystemManagedKeys, Fold(key))
  {
    assert key == CriticalKeys[0];
    FoldLength(key);
    NotManaged(Fold(key));
  }

  lemma MergedValue(ex: map<string, string>, target: seq<string>, k: string)
    requires !Listed(SystemManagedKeys, k)
    ensures ValueIn(MergedMap(ex, target), k)
         == if k in KeyMap(target) then ValueIn(KeyMap(target), k)
            else if KeysName in ex then "" else ValueIn(ex, k)
  {
    hide Listed, KeyMap, Differs, ValueOf;
  }

  /** The gate behind a merge: the file's critical values are those the target had,
      or else the example's, unless the enumeration of the example's keys is shadowed. */
  lemma GateAfterMerge(example: string, target: string, order: seq<string>)
    requires Enumerates(order, TextMap(example))
    ensures var ex, tg := TextMap(example), TextMap(target);
            CriticalPresent(TextMap(MergeText(example, target, order)))
            <==> forall key :: key in CriticalKeys ==>
                   if Fold(key) in tg then ValueIn(tg, Fold(key)) != ""
                   else KeysName !in ex && ValueIn(ex, Fold(key)) != ""
  {
    hide *;
    MergedKeyMap(example, target, order);
    forall key | key in CriticalKeys
      ensures ValueIn(TextMap(MergeText(example, target, order)), Fold(key))
           == if Fold(key) in TextMap(target) then ValueIn(TextMap(target), Fold(key))
              else if KeysName in TextMap(example) then "" else ValueIn(TextMap(example), Fold(key))
    {
      CriticalIsNotManaged(key);
      MergedValue(TextMap(example), LinesOf(target), Fold(key));
      TextMapOfLines(target);
    }
    CriticalValues(TextMap(MergeText(example, target, order)));
  }

  // ---- Framing of the whole merge ----

  ghost predicate OwnedBy(keys: seq<string>, line: string) {
    LineKey(line).Some? && Listed(keys, LineKey(line).value)
  }

  /** Every line keeps its place and its key; lines that define no listed key are unchanged. */
  ghost predicate Framed(keys: seq<string>, before: seq<string>, after: seq<string>) {
    && |after| == |before|
    && forall i :: 0 <= i < |before| ==>
         LineKey(after[i]) == LineKey(before[i]) && (OwnedBy(keys, before[i]) || after[i] == before[i])
  }

  lemma {:induction false} ReplaceFirstIsFramed(lines: seq<string>, keys: seq<string>, k: string, line: string)
    requires LineKey(line) == Some(k) && Listed(keys, k)
    ensures Framed(keys, lines, ReplaceFirst(lines, k, line))
  {
    hide LineKey, Listed;
    if lines != [] && LineKey(lines[0]) != Some(k) {
      ReplaceFirstIsFramed(lines[1..], keys, k, line);
    }
  }

  lemma {:induction false} PassIsFramed(ex: map<string, string>, tg: map<string, string>, text: string,
                                        keys: seq<string>, all: seq<string>)
    requires WellKeyed(ex) && KeyList(keys) && tg.Keys <= TextMap(text).Keys
    requires forall i :: 0 <= i < |keys| ==> Listed(all, Fold(keys[i]))
    ensures Framed(all, LinesOf(text), LinesOf(SystemPass(ex, tg, text, keys)))
    decreases keys
  {
    hide LineKey, Fold, Count, FirstDefinition, KeyMap, ReplaceFirst, SystemStep, LinesOf, Listed, IsIdent;
    if keys != [] {
      var next := SystemStep(ex, tg, text, keys[0]);
      StepLines(ex, tg, text, keys[0]);
      if Differs(ex, tg, Fold(keys[0])) {
        ReplacePasses(ex, tg, keys[0], LinesOf(text));
        ReplaceFirstIsFramed(LinesOf(text), all, Fold(keys[0]), ex[Fold(keys[0])]);
      }
      PassIsFramed(ex, tg, next, keys[1..], all);
    }
  }

  lemma AllListed(keys: seq<string>)
    ensures forall i :: 0 <= i < |keys| ==> Listed(keys, Fold(keys[i]))
  {
  }

  /** User lines survive: every line of the target that does not define a key of the
      installer's is found at the same place, character for character, comments and
      blank lines included. Only an empty last line, the end of a closed file, gives
      way to what is appended. */
  lemma UserLinesKept(example: string, target: string, order: seq<string>, i: nat)
    requires Enumerates(order, TextMap(example))
    requires i < |LinesOf(target)| - 1 || (i < |LinesOf(target)| && LinesOf(target)[i] != "")
    requires !OwnedBy(SystemManagedKeys, LinesOf(target)[i])
    ensures var merged := LinesOf(MergeText(example, target, order));
            i < |merged| && merged[i] == LinesOf(target)[i]
  {
    hide LinesOf, LineKey, KeyMap, SystemPass, AppendMissing, Listed, Fold;
    var ex, tg := TextMap(example), TextMap(target);
    TextMapIsWellKeyed(example);
    SystemKeysAreKeyList();
    AllListed(SystemManagedKeys);
    PassIsFramed(ex, tg, target, SystemManagedKeys, SystemManagedKeys);
    var text := SystemPass(ex, tg, target, SystemManagedKeys);
    var missing := MissingLines(ex, TextMap(text), order);
    MissingInMap(ex, TextMap(text), order);
    if missing == [] {
      NothingAppended(text);
    } else {
      var kept, block := AppendedLines(text, missing);
      EmptyLineHasNoKey();
      assert i < |kept|;
    }
  }

  /** The separators of a text after a line of it was replaced. */
  lemma StepSeparators(ex: map<string, string>, tg: map<string, string>, text: string, key: string)
    requires WellKeyed(ex) && IsIdent(key) && tg.Keys <= TextMap(text).Keys
    ensures Separators(Split(SystemStep(ex, tg, text, key))) == Separators(Split(text))
  {
    hide LineKey, Fold, IsIdent, RewriterMatches;
    var k := Fold(key);
    if Differs(ex, tg, k) {
      var d := Split(text);
      SplitThenJoin(text);
      CountIsPresence(Texts(d), k);
      RewriteIsReplaceFirst(d, key, ex[k]);
      KeyedLineIsNotEmpty(ex[k]);
      RewriteIsCanonical(d, key, ex[k]);
      JoinThenSplit(Rewrite(d, key, ex[k]));
      var n, pre, post := RewriteIsFramed(d, key, ex[k]);
    }
  }

  lemma {:induction false} PassSeparators(ex: map<string, string>, tg: map<string, string>, text: string,
                                          keys: seq<string>)
    requires WellKeyed(ex) && KeyList(keys) && tg.Keys <= TextMap(text).Keys
    ensures Separators(Split(SystemPass(ex, tg, text, keys))) == Separators(Split(text))
    decreases keys
  {
    hide LineKey, Fold, KeyMap, ReplaceFirst, SystemStep, LinesOf, IsIdent, Split, Separators;
    if keys != [] {
      var next := SystemStep(ex, tg, text, keys[0]);
      StepLines(ex, tg, text, keys[0]);
      StepSeparators(ex, tg, text, keys[0]);
      if Differs(ex, tg, Fold(keys[0])) {
        ReplacePasses(ex, tg, keys[0], LinesOf(text));
      }
      PassSeparators(ex, tg, next, keys[1..]);
    }
  }

  /** Framing of the whole merge: the target is rewritten line by line, and the rest is
      appended. In the rewritten part every line keeps its place, its key and its
      terminator, and lines that define no managed key are unchanged. */
  lemma MergeIsFramed(example: string, target: string, order: seq<string>) returns (text: string, more: string)
    requires Enumerates(order, TextMap(example))
    ensures MergeText(example, target, order) == text + more
    ensures Framed(SystemManagedKeys, LinesOf(target), LinesOf(text))
    ensures Separators(Split(text)) == Separators(Split(target))
  {
    hide LinesOf, LineKey, KeyMap, SystemPass, Listed, Fold, MarkerLine, Newline, Split, Separators;
    var ex, tg := TextMap(example), TextMap(target);
    TextMapIsWellKeyed(example);
    SystemKeysAreKeyList();
    AllListed(SystemManagedKeys);
    PassIsFramed(ex, tg, target, SystemManagedKeys, SystemManagedKeys);
    PassSeparators(ex, tg, target, SystemManagedKeys);
    text := SystemPass(ex, tg, target, SystemManagedKeys);
    var missing := MissingLines(ex, TextMap(text), order);
    more := if missing == [] then "" else Newline(text) + (MarkerLine(text) + Terminated(missing));
    Regroup(text, Newline(text), MarkerLine(text) + Terminated(missing));
    assert text + "" == text;
  }

  // ---- How often a key is defined ----

  function Occurrences(order: seq<string>, k: string): nat {
    if order == [] then 0 else (if order[0] == k then 1 else 0) + Occurrences(order[1..], k)
  }

  lemma {:induction false} DistinctOccurs(order: seq<string>, k: string)
    requires forall i, j :: 0 <= i < j < |order| ==> order[i] != order[j]
    ensures Occurrences(order, k) == if k in order then 1 else 0
  {
    if order != [] {
      DistinctOccurs(order[1..], k);
      assert k in order <==> k == order[0] || k in order[1..];
      assert forall i :: 0 <= i < |order[1..]| ==> order[1..][i] == order[i + 1];
    }
  }

  lemma {:induction false} MissingCount(ex: map<string, string>, tg: map<string, string>, order: seq<string>, k: string)
    requires WellKeyed(ex)
    ensures Count(MissingLines(ex, tg, order), k) == if k in ex && k !in tg then Occurrences(order, k) else 0
  {
    hide LineKey;
    if order != [] {
      var j, rest := order[0], MissingLines(ex, tg, order[1..]);
      MissingCount(ex, tg, order[1..], k);
      EmptyLineHasNoKey();
      if j in tg {
        assert [] + rest == rest;
      } else {
        CountOfCons(EntryOrEmpty(ex, j), rest, k);
      }
    }
  }

  lemma CountOfNothing(k: string)
    ensures Count([], k) == 0
  {
  }

  /** The merge adds one line for each key that only the example has, if the enumeration of
      the example's keys is not shadowed, and changes the number of no other key's lines. */
  lemma MergeAddsOneLine(example: string, target: string, order: seq<string>, k: string)
    requires Enumerates(order, TextMap(example))
    ensures Count(LinesOf(MergeText(example, target, order)), k)
         == Count(LinesOf(target), k)
            + (if KeysName !in TextMap(example) && k in TextMap(example) && k !in TextMap(target) then 1 else 0)
  {
    hide LinesOf, LineKey, NoBreak, Count, FirstDefinition, KeyMap, AppendMissing, SystemPass, Listed, Differs, Fold;
    hide MissingLines;
    var ex, tg := TextMap(example), TextMap(target);
    TextMapIsWellKeyed(example);
    SystemKeysAreKeyList();
    PassLines(ex, tg, target, SystemManagedKeys);
    var text := SystemPass(ex, tg, target, SystemManagedKeys);
    var missing := MissingLines(ex, TextMap(text), order);
    MissingInMap(ex, TextMap(text), order);
    MissingCount(ex, TextMap(text), order, k);
    if KeysName in ex {
      LineIsNoKey(ex, ex[KeysName]);
      assert Occurrences(order, k) == (if order[0] == k then 1 else 0) + Occurrences(order[1..], k);
    } else {
      DistinctOccurs(order, k);
    }
    if missing == [] {
      NothingAppended(text);
      CountOfNothing(k);
    } else {
      var kept, block := AppendedLines(text, missing);
      FirstInConcat(kept, block, k);
      FirstInConcat(kept, [""], k);
      CountOfEmptyLine(k);
    }
  }

  // ---- What a run of the script keeps of the text it starts from ----

  /** The line defines neither of the two keys that the installer owns. */
  ghost predicate IsUserLine(line: string) {
    LineKey(line) != Some("app_version") && LineKey(line) != Some("app_name")
  }

  /** Line `i` is a line of the text, and not just the open end behind its last
      terminator. */
  ghost predicate IsLine(lines: seq<string>, i: nat) {
    i < |lines| - 1 || (i < |lines| && lines[i] != "")
  }

  /** Every user line of `base` is at its place, and every key of `base` is there. */
  ghost predicate Keeps(result: Option<string>, base: string) {
    && result.Some?
    && (forall i: nat :: IsLine(LinesOf(base), i) && IsUserLine(LinesOf(base)[i]) ==>
          i < |LinesOf(result.value)| && LinesOf(result.value)[i] == LinesOf(base)[i])
    && TextMap(base).Keys <= TextMap(result.value).Keys
  }

  /** The environment file after a merge: what was there, or else the legacy file, or else
      the example, kept and merged with the example. */
  ghost predicate IsMigrated(result: Option<string>, target: Option<string>, legacy: Option<string>,
                             example: Option<string>, order: seq<string>) {
    && (target.Some? ==> IsMerged(result, target.value, example, order) && Keeps(result, target.value))
    && (target.None? && legacy.Some? ==> IsMerged(result, legacy.value, example, order) && Keeps(result, legacy.value))
    && (target.None? && legacy.None? && example.Some? ==>
          IsMerged(result, example.value, example, order) && Keeps(result, example.value))
    && (result.None? <==> target.None? && legacy.None? && example.None?)
  }

  lemma ManagedNames()
    ensures Fold("APP_VERSION") == "app_version" && Fold("APP_NAME") == "app_name"
    ensures SystemManagedKeys == ["APP_VERSION", "APP_NAME"]
  {
  }

  lemma UserLineIsNotOwned(line: string)
    requires IsUserLine(line)
    ensures !OwnedBy(SystemManagedKeys, line)
  {
    hide LineKey;
    ManagedNames();
    if LineKey(line).Some? && Listed(SystemManagedKeys, LineKey(line).value) {
      assert false;
    }
  }

  lemma MergedMapKeys(ex: map<string, string>, target: seq<string>)
    ensures KeyMap(target).Keys <= MergedMap(ex, target).Keys
  {
    hide KeyMap, Listed, Differs;
  }

  /** A run that starts from a text keeps its user lines and its keys. */
  lemma MergedKeeps(result: Option<string>, base: string, example: Option<string>, order: seq<string>)
    requires IsMerged(result, base, example, order)
    ensures Keeps(result, base)
  {
    hide LinesOf, LineKey, KeyMap, MergeText, Listed, Enumerates, MergedMap;
    if example.Some? {
      MergedKeyMap(example.value, base, order);
      MergedMapKeys(TextMap(example.value), LinesOf(base));
      forall i: nat | IsLine(LinesOf(base), i) && IsUserLine(LinesOf(base)[i])
        ensures i < |LinesOf(result.value)| && LinesOf(result.value)[i] == LinesOf(base)[i]
      {
        UserLineIsNotOwned(LinesOf(base)[i]);
        UserLinesKept(example.value, base, order, i);
      }
    }
  }

  // ---- The gate in the characters of the file ----

  ghost predicate VisibleBehindEquals(line: string, j: nat) {
    j < |line| && !IsSpace(DotNet, line[j]) && '=' in line[..j]
  }

  /** The last line that defines the feed's address has a visible character behind its
      first equals sign. */
  ghost predicate HasFeedUrl(text: string) {
    exists i: nat, j: nat ::
      LastDefinition(LinesOf(text), "auto_update_feed_url", i) && VisibleBehindEquals(LinesOf(text)[i], j)
  }

  lemma ValueIsVisible(line: string, c: nat)
    requires c < |line| && line[c] == '=' && forall i :: 0 <= i < c ==> line[i] != '='
    ensures ValueOf(line) != "" <==> exists j: nat :: VisibleBehindEquals(line, j)
  {
    hide IsSpace, ValueOf;
    var rest := line[c + 1..];
    var a, b := TrimBounds(DotNet, rest);
    ValueMeans(line, c, a, b);
    assert forall i :: 0 <= i < |rest| ==> rest[i] == line[c + 1 + i];
    if a < b {
      assert line[..c + 1 + a][c] == '=';
      assert VisibleBehindEquals(line, c + 1 + a);
    }
    if j: nat :| VisibleBehindEquals(line, j) {
      var i :| 0 <= i < j && line[..j][i] == '=';
      assert c <= i;
      assert rest[j - c - 1] == line[j];
    }
  }

  lemma CriticalKey()
    ensures CriticalKeys == ["AUTO_UPDATE_FEED_URL"] && Fold("AUTO_UPDATE_FEED_URL") == "auto_update_feed_url"
  {
  }

  lemma CriticalMeans(m: map<string, string>)
    ensures CriticalPresent(m) <==>
              "auto_update_feed_url" in m && ValueOf(m["auto_update_feed_url"]) != ""
  {
    CriticalKey();
    hide ValueOf;
    assert CriticalKeys[0] in CriticalKeys;
  }

  /** The gate passes exactly when the file gives the feed's address. */
  lemma GateMeans(text: string)
    ensures CriticalPresent(TextMap(text)) <==> HasFeedUrl(text)
  {
    CriticalKey();
    hide LinesOf, LineKey, KeyMap, ValueOf, CriticalPresent, VisibleBehindEquals, IsSpace;
    var lines, k := LinesOf(text), "auto_update_feed_url";
    var i := KeyMapIsLastWins(lines, k);
    CriticalMeans(TextMap(text));
    if k in TextMap(text) {
      var a, b, c := LineKeyIsAt(lines[i]);
      ValueIsVisible(lines[i], c);
      forall m: nat | LastDefinition(lines, k, m)
        ensures m == i
      {
      }
    }
  }

  // ---- The marker ----

  function LastLine(text: string): string {
    LinesOf(text)[|LinesOf(text)| - 1]
  }

  lemma {:induction false} LastOfDoc(d: Doc) returns (pre: string, last: string)
    requires Canonical(d)
    ensures Pieces(d) != [] && Pieces(d)[|Pieces(d)| - 1] == last == Texts(d)[|Texts(d)| - 1]
    ensures NoBreak(last) && Join(d) == pre + last
    ensures pre != "" ==> IsBreak(pre[|pre| - 1])
  {
    match d
    case Last(t) => pre, last := "", t;
    case Line(t, sep, rest) =>
      pre, last := LastOfDoc(rest);
      var head := t + sep;
      assert head[|head| - 1] == sep[|sep| - 1];
      assert head + (pre + last) == (head + pre) + last;
      pre := head + pre;
  }

  lemma BreaksAreSpace()
    ensures forall c :: IsBreak(c) ==> IsSpace(DotNet, c)
    ensures IsBreak('\r') && IsBreak('\n')
  {
  }

  lemma TightEnd(last: string)
    requires last != "" && NoBreak(last) && !IsSpace(DotNet, last[|last| - 1])
    ensures TrimEnd(DotNet, last) == last && !IsTerminator(last)
  {
    hide IsSpace;
    assert !IsBreak(last[0]);
    assert last[..|last|] == last;
  }

  lemma LastPieceOfText(t: string)
    requires t != "" && !IsSpace(DotNet, t[|t| - 1])
    ensures LastPiece(Pieces(Split(t))) == LastLine(t) && TrimEnd(DotNet, LastLine(t)) == LastLine(t)
  {
    BreaksAreSpace();
    hide IsSpace, IsBreak, Split, Join, Texts, Pieces, Canonical;
    SplitThenJoin(t);
    var pre, last := LastOfDoc(Split(t));
    assert last == "" ==> t == pre;
    assert last[|last| - 1] == t[|t| - 1];
    TightEnd(last);
  }

  /** The marker is written unless the last line that is not blank is the marker
      already, whatever its case, so successive updates share one marker. */
  lemma MarkerWrittenOnce(text: string)
    ensures MarkerLine(text) == ""
            <==> TrimEnd(DotNet, text) != ""
                 && Fold(LastLine(TrimEnd(DotNet, text))) == Fold("# Added by installer merge")
    ensures MarkerLine(text) != "" ==> MarkerLine(text) == "# Added by installer merge" + "\r\n"
  {
    hide LastLine, IsSpace;
    var t := TrimEnd(DotNet, text);
    FoldLength(MergeMarker);
    if t == "" {
      assert Split(t) == Last("") && Pieces(Split(t)) == [""];
      assert LastPiece([""]) == LastPiece([""][..0]) == "";
      FoldLength("");
    } else {
      LastPieceOfText(t);
    }
  }
}
