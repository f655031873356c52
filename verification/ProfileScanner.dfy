/** windows/legacy_profile_scanner/main.cpp: the paths found in the user profiles,
    written as a JSON document (RFC 8259). */
module ProfileScanner {
  import opened Text
  import opened Order
  import opened JsonText

  /** A wide string: UTF-16 code units. */
  type Wide = seq<nat>

  // ---- Scanning ----

  /** A directory entry below the users' folder and what the probe of its legacy
      folder says. */
  datatype ProfileEntry = ProfileEntry(name: Wide, isDirectory: bool, hasDatabase: bool, legacyPath: Wide)

  function WideFold(w: Wide): Wide {
    seq(|w|, i requires 0 <= i < |w| => if 'A' as nat <= w[i] <= 'Z' as nat then w[i] + 32 else w[i])
  }

  const SkippedNames: seq<string> := ["Public", "Default", "Default User", "All Users"]

  predicate IsSkippedProfileDir(name: Wide) {
    exists i :: 0 <= i < |SkippedNames| && WideFold(name) == Codes(Fold(SkippedNames[i]))
  }

  predicate IsListed(e: ProfileEntry) {
    e.isDirectory && !IsSkippedProfileDir(e.name) && e.hasDatabase
  }

  function Found(entries: seq<ProfileEntry>): seq<Wide> {
    if entries == [] then []
    else if IsListed(entries[0]) then [entries[0].legacyPath] + Found(entries[1..])
    else Found(entries[1..])
  }

  function InsertPath(p: Wide, sorted: seq<Wide>): seq<Wide> {
    if sorted == [] || !LexLess(sorted[0], p) then [p] + sorted else [sorted[0]] + InsertPath(p, sorted[1..])
  }

  /** `std::sort` with the default order. */
  function Sort(paths: seq<Wide>): seq<Wide> {
    if paths == [] then [] else InsertPath(paths[0], Sort(paths[1..]))
  }

  /** `std::unique`: equal neighbours collapse into the first. */
  function Unique(paths: seq<Wide>): seq<Wide> {
    if |paths| <= 1 then paths
    else if paths[0] == paths[1] then Unique(paths[1..])
    else [paths[0]] + Unique(paths[1..])
  }

  method ScanProfiles(entries: seq<ProfileEntry>) returns (legacyPaths: seq<Wide>)
    ensures legacyPaths == Unique(Sort(Found(entries)))
  {
    hide IsSkippedProfileDir;
    legacyPaths := [];
    var i := 0;
    assert entries[0..] == entries && [] + Found(entries) == Found(entries);
    while i < |entries|
      invariant 0 <= i <= |entries|
      invariant legacyPaths + Found(entries[i..]) == Found(entries)
    {
      var entry, rest := entries[i], entries[i + 1..];
      assert entries[i..][0] == entry && entries[i..][1..] == rest;
      i := i + 1;
      if !entry.isDirectory {
        continue;
      }
      if IsSkippedProfileDir(entry.name) {
        continue;
      }
      if entry.hasDatabase {
        assert legacyPaths + ([entry.legacyPath] + Found(rest)) == (legacyPaths + [entry.legacyPath]) + Found(rest);
        legacyPaths := legacyPaths + [entry.legacyPath];
      }
    }
    assert entries[i..] == [] && legacyPaths + [] == legacyPaths;
    legacyPaths := Unique(Sort(legacyPaths));
  }

  ghost predicate Ascending(paths: seq<Wide>) {
    forall i, j :: 0 <= i < j < |paths| ==> !LexLess(paths[j], paths[i])
  }

  ghost predicate StrictlyAscending(paths: seq<Wide>) {
    forall i, j :: 0 <= i < j < |paths| ==> LexLess(paths[i], paths[j])
  }

  lemma {:induction false} InsertPathSorts(p: Wide, s: seq<Wide>)
    requires Ascending(s)
    ensures Ascending(InsertPath(p, s))
    ensures multiset(InsertPath(p, s)) == multiset{p} + multiset(s)
  {
    hide LexLess;
    if s == [] || !LexLess(s[0], p) {
      forall j | 0 <= j < |s|
        ensures !LexLess(s[j], p)
      {
        LexIsTotal(s[0], s[j]);
        LexIsTotal(s[0], p);
        LexIsTransitive(s[0], s[j], p);
        LexIsTransitive(s[j], p, s[0]);
        LexIsTotal(s[j], p);
      }
    } else {
      InsertPathSorts(p, s[1..]);
      var t := InsertPath(p, s[1..]);
      assert s == [s[0]] + s[1..];
      LexIsTotal(s[0], p);
      forall j | 0 <= j < |t|
        ensures !LexLess(t[j], s[0])
      {
        assert t[j] in multiset(t);
        assert t[j] == p || t[j] in s[1..];
      }
    }
  }

  lemma {:induction false} SortSorts(paths: seq<Wide>)
    ensures Ascending(Sort(paths)) && multiset(Sort(paths)) == multiset(paths)
  {
    hide InsertPath;
    if paths != [] {
      SortSorts(paths[1..]);
      InsertPathSorts(paths[0], Sort(paths[1..]));
      assert paths == [paths[0]] + paths[1..];
    }
  }

  lemma {:induction false} UniqueIsStrict(s: seq<Wide>)
    requires Ascending(s)
    ensures StrictlyAscending(Unique(s)) && forall x :: x in Unique(s) <==> x in s
  {
    hide LexLess;
    if |s| > 1 {
      UniqueIsStrict(s[1..]);
      var u := Unique(s[1..]);
      assert forall x :: x in s <==> x == s[0] || x in s[1..];
      if s[0] != s[1] {
        forall j | 0 <= j < |u|
          ensures LexLess(s[0], u[j])
        {
          assert u[j] in s[1..];
          var k :| 0 <= k < |s[1..]| && s[1..][k] == u[j];
          assert s[k + 1] == u[j];
          LexIsTotal(s[0], s[1]);
          LexIsTotal(s[1], s[k + 1]);
          LexIsTransitive(s[0], s[1], s[k + 1]);
        }
      } else {
        assert s[1] in s[1..];
      }
    }
  }

  lemma LeastIsFirst(a: seq<Wide>, b: seq<Wide>)
    requires Ascending(a) && Ascending(b) && multiset(a) == multiset(b) && a != [] && b != []
    ensures a[0] == b[0]
  {
    hide LexLess;
    assert a[0] in multiset(b) && b[0] in multiset(a);
    var i :| 0 <= i < |b| && b[i] == a[0];
    var j :| 0 <= j < |a| && a[j] == b[0];
    LexIsTotal(a[0], b[0]);
  }

  /** Sorting is determined by its result: whatever algorithm sorts the paths, the
      outcome is the same list. */
  lemma {:induction false} SortIsDetermined(a: seq<Wide>, b: seq<Wide>)
    requires Ascending(a) && Ascending(b) && multiset(a) == multiset(b)
    ensures a == b
  {
    hide LexLess;
    assert |multiset(a)| == |a| && |multiset(b)| == |b|;
    if a != [] {
      LeastIsFirst(a, b);
      assert a == [a[0]] + a[1..] && b == [b[0]] + b[1..];
      assert multiset(a[1..]) == multiset(a) - multiset{a[0]};
      assert multiset(b[1..]) == multiset(b) - multiset{b[0]};
      SortIsDetermined(a[1..], b[1..]);
    }
  }

  /** The wide string is the text, whatever the case of its letters. */
  ghost predicate SpelledAs(w: Wide, text: string) {
    |w| == |text| && forall i :: 0 <= i < |w| ==>
      w[i] == text[i] as nat || ('a' <= text[i] <= 'z' && w[i] + 32 == text[i] as nat)
  }

  lemma FoldedIsSpelled(w: Wide, text: string)
    requires forall i :: 0 <= i < |text| ==> text[i] == ' ' || 'a' <= text[i] <= 'z'
    ensures WideFold(w) == Codes(text) <==> SpelledAs(w, text)
  {
    if WideFold(w) == Codes(text) {
      forall i | 0 <= i < |w|
        ensures w[i] == text[i] as nat || ('a' <= text[i] <= 'z' && w[i] + 32 == text[i] as nat)
      {
        assert WideFold(w)[i] == Codes(text)[i];
      }
    }
    if SpelledAs(w, text) {
      forall i | 0 <= i < |w|
        ensures WideFold(w)[i] == Codes(text)[i]
      {
        assert text[i] == ' ' || 'a' <= text[i] <= 'z';
      }
    }
  }

  /** The profiles that belong to no user. */
  ghost predicate IsSystemProfile(name: Wide) {
    SpelledAs(name, "public") || SpelledAs(name, "default") || SpelledAs(name, "default user")
    || SpelledAs(name, "all users")
  }

  lemma SkippedFolds()
    ensures SkippedNames == ["Public", "Default", "Default User", "All Users"]
    ensures Fold("Public") == "public" && Fold("Default") == "default"
    ensures Fold("Default User") == "default user" && Fold("All Users") == "all users"
  {
  }

  lemma SkippedMeans(name: Wide)
    ensures IsSkippedProfileDir(name) <==> IsSystemProfile(name)
  {
    SkippedFolds();
    FoldedIsSpelled(name, "public");
    FoldedIsSpelled(name, "default");
    FoldedIsSpelled(name, "default user");
    FoldedIsSpelled(name, "all users");
    hide Fold, WideFold, SpelledAs;
    assert SkippedNames[0] == "Public" && SkippedNames[1] == "Default";
    assert SkippedNames[2] == "Default User" && SkippedNames[3] == "All Users";
  }

  /** The scan finds the legacy folders that hold a database, in the directories of
      users. */
  lemma {:induction false} FoundMeans(entries: seq<ProfileEntry>, path: Wide)
    ensures path in Found(entries) <==>
              exists e ::
                e in entries && e.isDirectory && e.hasDatabase && !IsSystemProfile(e.name) && e.legacyPath == path
  {
    hide IsSystemProfile, IsSkippedProfileDir;
    if entries != [] {
      SkippedMeans(entries[0].name);
      FoundMeans(entries[1..], path);
      assert forall e :: e in entries <==> e == entries[0] || e in entries[1..];
    }
  }

  /** The listed paths are those found, each once, in strictly increasing order. */
  lemma ListedPathsAreASet(entries: seq<ProfileEntry>)
    ensures StrictlyAscending(Unique(Sort(Found(entries))))
    ensures forall x :: x in Unique(Sort(Found(entries))) <==> x in Found(entries)
  {
    hide Sort, Unique;
    var found := Found(entries);
    SortSorts(found);
    UniqueIsStrict(Sort(found));
    assert forall x :: x in Sort(found) <==> x in multiset(Sort(found));
    assert forall x :: x in found <==> x in multiset(found);
  }

  // ---- The document ----

  function Ascii(s: string): seq<Byte>
    requires forall i :: 0 <= i < |s| ==> s[i] < 128 as char
  {
    seq(|s|, i requires 0 <= i < |s| => s[i] as int)
  }

  const Comma: Byte := 0x2C

  function Quoted(path: seq<Byte>): seq<Byte> {
    [Quote] + Escape(path) + [Quote]
  }

  function MorePaths(paths: seq<seq<Byte>>): seq<Byte> {
    if paths == [] then [] else [Comma] + Quoted(paths[0]) + MorePaths(paths[1..])
  }

  function PathList(paths: seq<seq<Byte>>): seq<Byte> {
    if paths == [] then [] else Quoted(paths[0]) + MorePaths(paths[1..])
  }

  lemma NoPaths()
    ensures PathList([]) == [] && MorePaths([]) == []
  {
  }

  function Head(): seq<Byte> {
    Ascii("{\"schemaVersion\":1,\"paths\":[")
  }

  function Middle(): seq<Byte> {
    Ascii("],\"scannedAtUtc\":\"")
  }

  function Document(paths: seq<seq<Byte>>, iso: seq<Byte>): seq<Byte> {
    Head() + PathList(paths) + Middle() + iso + Ascii("\"}")
  }

  /** What one turn of the loop appends. */
  lemma PathStep(json: seq<Byte>, all: seq<seq<Byte>>, i: nat)
    requires i < |all|
    ensures json + (if i == 0 then PathList(all) else MorePaths(all[i..]))
         == json + (if i > 0 then [Comma] else []) + [Quote] + Escape(all[i]) + [Quote] + MorePaths(all[i + 1..])
  {
    hide Escape;
    assert all[i..][0] == all[i] && all[i..][1..] == all[i + 1..];
    var q, more := Quoted(all[i]), MorePaths(all[i + 1..]);
    var before := json + (if i > 0 then [Comma] else []);
    assert before + (q + more) == before + [Quote] + Escape(all[i]) + [Quote] + more;
    if i > 0 {
      assert json + ([Comma] + q + more) == before + (q + more);
    }
  }

  function Encoded(paths: seq<Wide>, encode: Wide -> seq<Byte>): seq<seq<Byte>> {
    seq(|paths|, i requires 0 <= i < |paths| => encode(paths[i]))
  }

  /** The JSON document over the scanned paths; `encode` is the system's
      conversion from wide strings to UTF-8. */
  method WriteDocument(entries: seq<ProfileEntry>, encode: Wide -> seq<Byte>, iso: seq<Byte>) returns (json: seq<Byte>)
    ensures json == Document(Encoded(Unique(Sort(Found(entries))), encode), iso)
  {
    hide Found, Sort, Unique, Escape, Head, Middle, Ascii, MorePaths, PathList;
    var paths := ScanProfiles(entries);
    json := Head();
    ghost var all := Encoded(paths, encode);
    var i := 0;
    assert all[0..] == all;
    while i < |paths|
      invariant 0 <= i <= |paths|
      invariant json + (if i == 0 then PathList(all) else MorePaths(all[i..])) == Head() + PathList(all)
    {
      PathStep(json, all, i);
      if i > 0 {
        json := json + [Comma];
      }
      json := json + [Quote];
      json := AppendJsonEscapedUtf8(json, encode(paths[i]));
      json := json + [Quote];
      i := i + 1;
    }
    NoPaths();
    assert all[i..] == [] && json + [] == json;
    json := json + Middle();
    json := json + iso;
    json := json + Ascii("\"}");
  }

  // ---- Reading the document back ----

  function Strings(paths: seq<seq<Byte>>): seq<Value> {
    seq(|paths|, i requires 0 <= i < |paths| => Str(paths[i]))
  }

  lemma StringsOf(paths: seq<seq<Byte>>)
    requires paths != []
    ensures Strings(paths) == [Str(paths[0])] + Strings(paths[1..])
    ensures |paths| == 1 ==> Strings(paths) == [Str(paths[0])]
  {
  }

  lemma FirstPath(paths: seq<seq<Byte>>, end: seq<Byte>, rest: seq<Byte>)
    requires paths != [] && rest == MorePaths(paths[1..]) + end
    ensures PathList(paths) + end == [Quote] + Escape(paths[0]) + [Quote] + rest
  {
    hide Escape, MorePaths;
    var e, more := Escape(paths[0]), MorePaths(paths[1..]);
    assert ([Quote] + e + [Quote] + more) + end == [Quote] + e + [Quote] + (more + end);
  }

  lemma MoreIsCommaAndList(paths: seq<seq<Byte>>, tail: seq<Byte>)
    requires paths != []
    ensures var s := MorePaths(paths) + tail;
            s != [] && s[0] == ',' as int && s[1..] == PathList(paths) + tail
  {
    hide Quoted;
    var q, more := Quoted(paths[0]), MorePaths(paths[1..]);
    assert [Comma] + q + more == [Comma] + (q + more);
  }

  lemma {:induction false} ReadPaths(paths: seq<seq<Byte>>, tail: seq<Byte>)
    requires paths != []
    ensures ReadItems(PathList(paths) + [']' as int] + tail) == Got(Strings(paths), tail)
  {
    hide Escape, ReadValue, Strings;
    var end := [']' as int] + tail;
    var rest := MorePaths(paths[1..]) + end;
    var s := PathList(paths) + [']' as int] + tail;
    FirstPath(paths, end, rest);
    assert s == PathList(paths) + end;
    ReadQuoted(paths[0], rest);
    StringsOf(paths);
    if |paths| > 1 {
      MoreIsCommaAndList(paths[1..], end);
      assert PathList(paths[1..]) + end == PathList(paths[1..]) + [']' as int] + tail;
      ReadPaths(paths[1..], tail);
    } else {
      NoPaths();
      assert rest == end && end[1..] == tail;
    }
  }

  lemma NoStrings()
    ensures Strings([]) == []
  {
  }

  lemma ReadArray(paths: seq<seq<Byte>>, tail: seq<Byte>)
    ensures ReadValue(['[' as int] + PathList(paths) + [']' as int] + tail) == Got(Arr(Strings(paths)), tail)
  {
    hide Escape, Strings, MorePaths;
    var s := ['[' as int] + PathList(paths) + [']' as int] + tail;
    if paths == [] {
      NoPaths();
      NoStrings();
      assert s[2..] == tail;
    } else {
      ReadPaths(paths, tail);
      assert s[1..] == PathList(paths) + [']' as int] + tail;
      assert PathList(paths)[0] == Quote;
      hide ReadItems, PathList;
    }
  }

  /** What the time stamp is written with. */
  predicate IsStampByte(c: Byte) {
    '0' as int <= c <= '9' as int || c == '-' as int || c == ':' as int || c == '.' as int || c == 'T' as int
    || c == 'Z' as int
  }

  /** Bytes that JSON strings carry unescaped. */
  predicate Plain(s: seq<Byte>) {
    forall i :: 0 <= i < |s| ==> s[i] >= 0x20 && s[i] != Quote && s[i] != Backslash
  }

  lemma {:induction false} PlainIsUnescaped(s: seq<Byte>)
    requires Plain(s)
    ensures Escape(s) == s
  {
    if s != [] {
      PlainIsUnescaped(s[1..]);
      assert s == [s[0]] + s[1..];
    }
  }

  function SchemaName(): seq<Byte> {
    Ascii("schemaVersion")
  }

  function PathsName(): seq<Byte> {
    Ascii("paths")
  }

  function StampName(): seq<Byte> {
    Ascii("scannedAtUtc")
  }

  function Name(name: seq<Byte>): seq<Byte> {
    [Quote] + name + [Quote]
  }

  lemma HeadParts()
    ensures Head() == ['{' as int] + Name(SchemaName()) + [':' as int] + ['1' as int] + [',' as int]
                      + Name(PathsName()) + [':' as int] + ['[' as int]
  {
  }

  lemma MiddleParts()
    ensures Middle() == [']' as int] + [',' as int] + Name(StampName()) + [':' as int] + [Quote]
  {
  }

  lemma EndParts()
    ensures Ascii("\"}") == [Quote] + ['}' as int]
  {
  }

  /** The document in its parts. */
  lemma DocumentParts(paths: seq<seq<Byte>>, iso: seq<Byte>)
    ensures Document(paths, iso)
         == ['{' as int] + Name(SchemaName()) + [':' as int] + ['1' as int] + [',' as int]
            + Name(PathsName()) + [':' as int] + ['[' as int] + PathList(paths) + [']' as int] + [',' as int]
            + Name(StampName()) + [':' as int] + [Quote] + iso + [Quote] + ['}' as int]
  {
    hide PathList;
    HeadParts();
    MiddleParts();
    EndParts();
    hide Head, Middle, Name, Ascii, SchemaName, PathsName, StampName;
    var list := PathList(paths);
  }

  lemma NamesArePlain()
    ensures Plain(SchemaName()) && Plain(PathsName()) && Plain(StampName())
  {
  }

  lemma ReadNumber(tail: seq<Byte>)
    requires tail != [] && tail[0] == ',' as int
    ensures ReadValue(['1' as int] + tail) == Got(Num(['1' as int]), tail)
  {
    var s := ['1' as int] + tail;
    assert s[1..] == tail && DigitsEnd(tail) == 0 && DigitsEnd(s) == 1;
    assert s[..1] == ['1' as int];
  }

  /** The last member of the document, and the brace behind it. */
  function StampPart(iso: seq<Byte>): seq<Byte> {
    Name(StampName()) + [':' as int] + ([Quote] + iso + [Quote]) + ['}' as int]
  }

  function ListText(paths: seq<seq<Byte>>): seq<Byte> {
    ['[' as int] + PathList(paths) + [']' as int]
  }

  function PathsPart(paths: seq<seq<Byte>>, iso: seq<Byte>): seq<Byte> {
    Name(PathsName()) + [':' as int] + ListText(paths) + ([',' as int] + StampPart(iso))
  }

  function DocumentPart(paths: seq<seq<Byte>>, iso: seq<Byte>): seq<Byte> {
    Name(SchemaName()) + [':' as int] + ['1' as int] + ([',' as int] + PathsPart(paths, iso))
  }

  lemma DocumentIsParts(paths: seq<seq<Byte>>, iso: seq<Byte>)
    ensures Document(paths, iso) == ['{' as int] + DocumentPart(paths, iso)
  {
    DocumentParts(paths, iso);
    hide Document, Name, PathList;
  }

  lemma ReadNamed(name: seq<Byte>, text: seq<Byte>, value: Value, tail: seq<Byte>)
    requires Plain(name)
    requires tail != [] && (tail[0] == '}' as int || tail[0] == ',' as int)
    requires ReadValue(text + tail) == Got(value, tail)
    ensures ReadMembers(Name(name) + [':' as int] + text + tail)
         == if tail[0] == '}' as int then Got([Member(name, value)], tail[1..])
            else match ReadMembers(tail[1..])
                 case Bad => Bad
                 case Got(more, end) => Got([Member(name, value)] + more, end)
  {
    PlainIsUnescaped(name);
    hide Plain, SchemaName, PathsName, StampName, Escape, ReadMembers, ReadValue;
    ReadMember(name, text, value, tail);
  }

  lemma ReadStampPart(iso: seq<Byte>)
    requires Escape(iso) == iso
    ensures ReadMembers(StampPart(iso)) == Got([Member(StampName(), Str(iso))], [])
  {
    NamesArePlain();
    hide Plain, SchemaName, PathsName, StampName, Escape, ReadMembers, ReadValue;
    ReadQuoted(iso, ['}' as int]);
    hide Name;
    ReadNamed(StampName(), [Quote] + iso + [Quote], Str(iso), ['}' as int]);
  }

  lemma ReadPathsPart(paths: seq<seq<Byte>>, iso: seq<Byte>)
    requires Escape(iso) == iso
    ensures ReadMembers(PathsPart(paths, iso))
         == Got([Member(PathsName(), Arr(Strings(paths))), Member(StampName(), Str(iso))], [])
  {
    var tail := [',' as int] + StampPart(iso);
    NamesArePlain();
    ReadStampPart(iso);
    ReadArray(paths, tail);
    hide Plain, SchemaName, PathsName, StampName, Escape, ReadMembers, ReadValue, StampPart, Strings, PathList;
    assert tail[1..] == StampPart(iso);
    hide ListText, Name;
    var first, second := Member(PathsName(), Arr(Strings(paths))), Member(StampName(), Str(iso));
    assert [first] + [second] == [first, second];
    ReadNamed(PathsName(), ListText(paths), Arr(Strings(paths)), tail);
  }

  lemma ReadDocumentPart(paths: seq<seq<Byte>>, iso: seq<Byte>)
    requires Escape(iso) == iso
    ensures ReadMembers(DocumentPart(paths, iso))
         == Got([Member(SchemaName(), Num(['1' as int])), Member(PathsName(), Arr(Strings(paths))),
                 Member(StampName(), Str(iso))], [])
  {
    var tail := [',' as int] + PathsPart(paths, iso);
    NamesArePlain();
    ReadPathsPart(paths, iso);
    ReadNumber(tail);
    hide Plain, SchemaName, PathsName, StampName, Escape, ReadMembers, ReadValue, PathsPart, Strings;
    assert tail[1..] == PathsPart(paths, iso);
    hide Name;
    var first := Member(SchemaName(), Num(['1' as int]));
    var second, third := Member(PathsName(), Arr(Strings(paths))), Member(StampName(), Str(iso));
    assert [first] + [second, third] == [first, second, third];
    ReadNamed(SchemaName(), ['1' as int], Num(['1' as int]), tail);
  }

  lemma PartStarts(paths: seq<seq<Byte>>, iso: seq<Byte>)
    ensures DocumentPart(paths, iso) != [] && DocumentPart(paths, iso)[0] == Quote
  {
    hide PathsPart, SchemaName;
  }

  /** The document round trip: a reader of JSON values recovers the schema's version, exactly
      the paths that were written, for every list of byte strings, and the time stamp. */
  lemma ReadOfDocument(paths: seq<seq<Byte>>, iso: seq<Byte>)
    requires forall i :: 0 <= i < |iso| ==> IsStampByte(iso[i])
    ensures ReadValue(Document(paths, iso))
         == Got(Obj([Member(SchemaName(), Num(['1' as int])),
                     Member(PathsName(), Arr(Strings(paths))),
                     Member(StampName(), Str(iso))]), [])
  {
    PlainIsUnescaped(iso);
    DocumentIsParts(paths, iso);
    ReadDocumentPart(paths, iso);
    PartStarts(paths, iso);
    hide SchemaName, PathsName, StampName, Escape, Document, DocumentPart, ReadMembers, ReadItems, Strings, ReadChars;
    var s := ['{' as int] + DocumentPart(paths, iso);
    assert s[1..] == DocumentPart(paths, iso);
  }
}
