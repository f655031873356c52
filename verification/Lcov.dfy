/** scripts/coverage.py: coverage records of generated and test files are filtered
    out of an LCOV report, and the rest is counted. */
module Lcov {
  import opened Text
  import opened PyLines

  const IgnorePatterns: seq<string> :=
    ["/test/", ".g.dart", ".freezed.dart", ".mocks.dart", "/generated/", "/gen/"]
  const EndOfRecord: string := "end_of_record"

  function ForwardSlashes(path: string): string {
    seq(|path|, i requires 0 <= i < |path| => if path[i] == '\\' then '/' else path[i])
  }

  predicate IsIgnored(path: string) {
    exists i :: 0 <= i < |IgnorePatterns| && Contains(ForwardSlashes(path), IgnorePatterns[i])
  }

  predicate IsStart(line: string) {
    StartsWith(line, "SF:")
  }

  // ---- The report as records ----

  /** Length of the record that starts at the front: through its end line, or up to
      the next start, or to the end of the report. */
  function RecordLen(lines: seq<string>): (n: nat)
    requires lines != []
    ensures 1 <= n <= |lines|
  {
    if lines[0] == EndOfRecord || |lines| == 1 || IsStart(lines[1]) then 1 else 1 + RecordLen(lines[1..])
  }

  /** Whether a record is kept: its path is not empty and not ignored. */
  predicate Keeps(start: string) {
    |start| > 3 && !IsIgnored(start[3..])
  }

  /** A report cut into the lines of kept records, of dropped records, and outside
      of every record. */
  datatype Parts = Parts(kept: seq<string>, dropped: seq<string>, outside: seq<string>)

  function Partition(lines: seq<string>): Parts
    decreases |lines|
  {
    if lines == [] then Parts([], [], [])
    else if !IsStart(lines[0]) then
      var p := Partition(lines[1..]);
      p.(outside := [lines[0]] + p.outside)
    else
      var n := RecordLen(lines);
      var p := Partition(lines[n..]);
      if Keeps(lines[0]) then p.(kept := lines[..n] + p.kept) else p.(dropped := lines[..n] + p.dropped)
  }

  /** The filtered report: the kept records, in order. */
  function Filter(lines: seq<string>): seq<string> {
    Partition(lines).kept
  }

  // ---- The streaming filter ----

  /** A record under construction: it has begun and not ended. */
  ghost predicate Open(block: seq<string>) {
    && block != [] && IsStart(block[0])
    && forall i :: 0 <= i < |block| ==> block[i] != EndOfRecord && (i > 0 ==> !IsStart(block[i]))
  }

  lemma {:induction false} OpenRecordLen(block: seq<string>, rest: seq<string>)
    requires block != [] && forall i :: 0 <= i < |block| ==> block[i] != EndOfRecord && (i > 0 ==> !IsStart(block[i]))
    ensures rest == [] || IsStart(rest[0]) ==> RecordLen(block + rest) == |block|
    ensures rest != [] && rest[0] == EndOfRecord && !IsStart(rest[0]) ==> RecordLen(block + rest) == |block| + 1
  {
    hide IsStart;
    var s := block + rest;
    assert s[1..] == block[1..] + rest;
    if |block| > 1 {
      assert s[1] == block[1];
      OpenRecordLen(block[1..], rest);
    } else {
      assert s[1..] == rest;
    }
  }

  lemma EndIsNoStart()
    ensures !IsStart(EndOfRecord)
  {
    assert EndOfRecord[..3][0] == 'e';
  }

  /** The record in front is settled: kept or dropped as a whole. */
  lemma CloseRecord(block: seq<string>, rest: seq<string>)
    requires block != [] && IsStart(block[0]) && RecordLen(block + rest) == |block|
    ensures Filter(block + rest) == if Keeps(block[0]) then block + Filter(rest) else Filter(rest)
  {
    hide IsStart, Keeps;
    var s := block + rest;
    assert s[0] == block[0] && s[..|block|] == block && s[|block|..] == rest;
  }

  lemma StartLength(line: string)
    requires IsStart(line)
    ensures |line| >= 3 && (|line| > 3 <==> line[3..] != "")
  {
  }

  lemma OutsideLine(line: string, rest: seq<string>)
    requires !IsStart(line)
    ensures Filter([line] + rest) == Filter(rest)
  {
    assert ([line] + rest)[1..] == rest;
  }

  lemma FilterOfNothing()
    ensures Filter([]) == []
  {
  }

  method FilterLcov(input: string) returns (output: string)
    ensures output == JoinLines(Filter(SplitLines(input)))
  {
    hide IsStart, IsIgnored, Filter, RecordLen, JoinLines, SplitLines;
    EndIsNoStart();
    var lines := SplitLines(input);
    var result: seq<string>, currentFile: Option<string>, currentBlock: seq<string> := [], None, [];
    var i := 0;
    assert [] + lines[0..] == lines && [] + Filter(lines) == Filter(lines);
    while i < |lines|
      invariant 0 <= i <= |lines|
      invariant currentBlock == [] ==> currentFile == None
      invariant currentBlock != [] ==>
                  Open(currentBlock) && |currentBlock[0]| >= 3 && currentFile == Some(currentBlock[0][3..])
      invariant result + Filter(currentBlock + lines[i..]) == Filter(lines)
    {
      var line, rest := lines[i], lines[i + 1..];
      assert lines[i..] == [line] + rest;
      if IsStart(line) {
        StartLength(line);
        if currentBlock != [] {
          StartLength(currentBlock[0]);
          OpenRecordLen(currentBlock, lines[i..]);
          CloseRecord(currentBlock, lines[i..]);
          if currentFile.value != "" && !IsIgnored(currentFile.value) {
            assert result + (currentBlock + Filter(lines[i..])) == (result + currentBlock) + Filter(lines[i..]);
            result := result + currentBlock;
          }
        } else {
          assert currentBlock + lines[i..] == lines[i..];
        }
        currentFile := Some(line[3..]);
        currentBlock := [line];
      } else if currentBlock != [] {
        ghost var open := currentBlock;
        StartLength(currentBlock[0]);
        currentBlock := currentBlock + [line];
        assert open + lines[i..] == currentBlock + rest;
        if line == EndOfRecord {
          OpenRecordLen(open, lines[i..]);
          CloseRecord(currentBlock, rest);
          if currentFile.value != "" && !IsIgnored(currentFile.value) {
            assert result + (currentBlock + Filter(rest)) == (result + currentBlock) + Filter(rest);
            result := result + currentBlock;
          }
          currentBlock := [];
          currentFile := None;
          assert [] + rest == rest;
        }
      } else {
        assert [] + lines[i..] == lines[i..] && [] + rest == rest;
        OutsideLine(line, rest);
      }
      i := i + 1;
    }
    assert lines[i..] == [] && currentBlock + [] == currentBlock;
    FilterOfNothing();
    if currentBlock != [] {
      StartLength(currentBlock[0]);
      OpenRecordLen(currentBlock, []);
      CloseRecord(currentBlock, []);
      if currentFile.value != "" && !IsIgnored(currentFile.value) {
        assert currentBlock + [] == currentBlock;
        result := result + currentBlock;
      }
    }
    assert result + [] == result;
    output := JoinLines(result);
  }

  // ---- Theorems ----

  /** The filter's output begins with a record, if it is not empty. */
  lemma {:induction false} FilterStarts(lines: seq<string>)
    ensures Filter(lines) == [] || IsStart(Filter(lines)[0])
    decreases |lines|
  {
    hide IsStart, Keeps;
    if lines != [] {
      if IsStart(lines[0]) {
        FilterStarts(lines[RecordLen(lines)..]);
      } else {
        FilterStarts(lines[1..]);
      }
    }
  }

  /** A record cut out of a report keeps its length in front of another record. */
  lemma {:induction false} RecordLenAlone(lines: seq<string>, rest: seq<string>)
    requires lines != [] && (rest == [] || IsStart(rest[0]))
    ensures RecordLen(lines[..RecordLen(lines)] + rest) == RecordLen(lines)
  {
    hide IsStart;
    var n := RecordLen(lines);
    var s := lines[..n] + rest;
    if n > 1 {
      RecordLenAlone(lines[1..], rest);
      assert s[1..] == lines[1..][..n - 1] + rest && s[1] == lines[1];
    } else {
      assert s[0] == lines[0] && (rest != [] ==> s[1] == rest[0]);
    }
  }

  /** Filtering a filtered report changes nothing. */
  lemma {:induction false} FilterIsIdempotent(lines: seq<string>)
    ensures Filter(Filter(lines)) == Filter(lines)
    decreases |lines|
  {
    hide IsStart, Keeps, RecordLen;
    if lines == [] {
      FilterOfNothing();
    } else if !IsStart(lines[0]) {
      FilterIsIdempotent(lines[1..]);
    } else {
      var n := RecordLen(lines);
      FilterIsIdempotent(lines[n..]);
      if Keeps(lines[0]) {
        FilterStarts(lines[n..]);
        RecordLenAlone(lines, Filter(lines[n..]));
        CloseRecord(lines[..n], Filter(lines[n..]));
      }
    }
  }

  /** Every line is kept, dropped or outside of the records. */
  lemma {:induction false} PartitionConserves(lines: seq<string>)
    ensures var p := Partition(lines);
            multiset(lines) == multiset(p.kept) + multiset(p.dropped) + multiset(p.outside)
    decreases |lines|
  {
    hide IsStart, Keeps, RecordLen;
    if lines != [] {
      var n := if IsStart(lines[0]) then RecordLen(lines) else 1;
      PartitionConserves(lines[n..]);
      assert lines == lines[..n] + lines[n..];
      assert lines[..1] == [lines[0]];
    }
  }

  lemma KeptAreLines(lines: seq<string>)
    ensures forall i :: 0 <= i < |Filter(lines)| ==> Filter(lines)[i] in lines
  {
    PartitionConserves(lines);
    forall i | 0 <= i < |Filter(lines)|
      ensures Filter(lines)[i] in lines
    {
      assert Filter(lines)[i] in multiset(Filter(lines));
      assert Filter(lines)[i] in multiset(lines);
    }
  }

  /** The same for files: filtering the written report again writes the same text. */
  lemma FilterFileIsIdempotent(input: string)
    ensures var output := JoinLines(Filter(SplitLines(input)));
            JoinLines(Filter(SplitLines(output))) == output
  {
    hide Filter, SplitLines;
    var lines := SplitLines(input);
    SplitIsClean(input);
    KeptAreLines(lines);
    forall i | 0 <= i < |Filter(lines)|
      ensures OneLine(Filter(lines)[i])
    {
      assert Filter(lines)[i] in lines;
    }
    SplitJoined(Filter(lines));
    FilterIsIdempotent(lines);
  }

  // ---- Which records are kept ----

  /** The six patterns of generated and test files. */
  ghost predicate IsPattern(pat: string) {
    pat == "/test/" || pat == ".g.dart" || pat == ".freezed.dart" || pat == ".mocks.dart"
    || pat == "/generated/" || pat == "/gen/"
  }

  /** `s` is the pattern, with either kind of slash. */
  ghost predicate IsSpelling(s: string, pat: string) {
    |s| == |pat| && forall i :: 0 <= i < |pat| ==> s[i] == pat[i] || (pat[i] == '/' && s[i] == '\\')
  }

  /** The pattern stands somewhere in the path. */
  ghost predicate HoldsAt(path: string, pat: string, i: nat) {
    i + |pat| <= |path| && IsSpelling(path[i..i + |pat|], pat)
  }

  lemma PatternsAreListed(pat: string)
    ensures IsPattern(pat) <==> pat in IgnorePatterns
    ensures IsPattern(pat) ==> '\\' !in pat
  {
  }

  lemma SlashesOfSpelling(s: string, pat: string)
    requires '\\' !in pat
    ensures ForwardSlashes(s) == pat <==> IsSpelling(s, pat)
  {
    if ForwardSlashes(s) == pat {
      forall i | 0 <= i < |pat|
        ensures s[i] == pat[i] || (pat[i] == '/' && s[i] == '\\')
      {
        assert ForwardSlashes(s)[i] == pat[i];
      }
    }
    if IsSpelling(s, pat) {
      forall i | 0 <= i < |pat|
        ensures ForwardSlashes(s)[i] == pat[i]
      {
        assert pat[i] in pat;
      }
    }
  }

  lemma ContainsIsHolds(path: string, pat: string)
    requires '\\' !in pat
    ensures Contains(ForwardSlashes(path), pat) <==> exists i: nat :: HoldsAt(path, pat, i)
  {
    var s := ForwardSlashes(path);
    forall i: nat | i + |pat| <= |path|
      ensures StartsWith(s[i..], pat) <==> IsSpelling(path[i..i + |pat|], pat)
    {
      var t := path[i..i + |pat|];
      assert ForwardSlashes(t) == s[i..][..|pat|];
      SlashesOfSpelling(t, pat);
    }
    if i: nat :| HoldsAt(path, pat, i) {
      assert StartsWith(s[i..], pat);
    }
    if i :| 0 <= i <= |s| && StartsWith(s[i..], pat) {
      assert HoldsAt(path, pat, i);
    }
  }

  lemma IgnoredHolds(path: string)
    ensures IsIgnored(path) <==> exists pat, i: nat :: IsPattern(pat) && HoldsAt(path, pat, i)
  {
    hide Contains, ForwardSlashes, IsPattern, HoldsAt;
    forall pat
      ensures IsPattern(pat) <==> pat in IgnorePatterns
      ensures IsPattern(pat) ==> (Contains(ForwardSlashes(path), pat) <==> exists i: nat :: HoldsAt(path, pat, i))
    {
      PatternsAreListed(pat);
      if IsPattern(pat) {
        ContainsIsHolds(path, pat);
      }
    }
    hide IgnorePatterns;
  }

  lemma {:induction false} RecordLenInFront(lines: seq<string>, rest: seq<string>)
    requires lines != [] && (rest == [] || IsStart(rest[0]))
    ensures RecordLen(lines + rest) == RecordLen(lines)
  {
    hide IsStart;
    assert (lines + rest)[1..] == lines[1..] + rest;
    if |lines| > 1 {
      RecordLenInFront(lines[1..], rest);
    }
  }

  /** A start line begins a record whatever stands before it. */
  lemma {:induction false} FilterAtStart(before: seq<string>, rest: seq<string>)
    requires rest == [] || IsStart(rest[0])
    ensures Filter(before + rest) == Filter(before) + Filter(rest)
    decreases |before|
  {
    hide IsStart, Keeps;
    if before == [] {
      FilterOfNothing();
      assert before + rest == rest && [] + Filter(rest) == Filter(rest);
    } else if !IsStart(before[0]) {
      FilterAtStart(before[1..], rest);
      assert (before + rest)[1..] == before[1..] + rest;
    } else {
      var n := RecordLen(before);
      RecordLenInFront(before, rest);
      FilterAtStart(before[n..], rest);
      assert (before + rest)[n..] == before[n..] + rest && (before + rest)[..n] == before[..n];
      Regroup(before[..n], Filter(before[n..]), Filter(rest));
    }
  }

  /** The lines of a terminated record for `path`. */
  ghost predicate IsRecord(record: seq<string>, path: string) {
    && |record| >= 2 && record[0] == "SF:" + path && record[|record| - 1] == "end_of_record"
    && forall i :: 1 <= i < |record| - 1 ==>
         record[i] != "end_of_record" && !(|record[i]| >= 3 && record[i][..3] == "SF:")
  }

  lemma StartIsNoEnd(line: string)
    ensures IsStart(line) ==> line != EndOfRecord
  {
    EndIsNoStart();
  }

  lemma OtherLine(line: string)
    ensures IsStart(line) <==> |line| >= 3 && line[..3] == "SF:"
  {
  }

  lemma RecordLenOfRecord(record: seq<string>, path: string, rest: seq<string>)
    requires IsRecord(record, path)
    ensures IsStart(record[0]) && RecordLen(record + rest) == |record|
  {
    var n := |record| - 1;
    var open, s := record[..n], record[n..] + rest;
    assert record[0][..3] == "SF:";
    StartIsNoEnd(record[0]);
    EndIsNoStart();
    hide IsStart;
    assert open + s == record + rest;
    forall i | 0 <= i < |open|
      ensures open[i] != EndOfRecord && (i > 0 ==> !IsStart(open[i]))
    {
      OtherLine(record[i]);
    }
    OpenRecordLen(open, s);
  }

  lemma KeptPath(path: string)
    ensures Keeps("SF:" + path) <==> path != "" && !IsIgnored(path)
  {
    assert ("SF:" + path)[3..] == path;
  }

  /** What happens to a record, wherever it stands: it is in the output, whole and at its
      place, if its path is not empty and holds none of the six patterns, with either
      kind of slash; otherwise none of it is. */
  lemma RecordIsKeptOrDropped(before: seq<string>, record: seq<string>, path: string, after: seq<string>)
    requires IsRecord(record, path)
    ensures path != "" && !(exists pat, i: nat :: IsPattern(pat) && HoldsAt(path, pat, i)) ==>
              Filter(before + record + after) == Filter(before) + record + Filter(after)
    ensures path == "" || (exists pat, i: nat :: IsPattern(pat) && HoldsAt(path, pat, i)) ==>
              Filter(before + record + after) == Filter(before) + Filter(after)
  {
    RecordLenOfRecord(record, path, after);
    KeptPath(path);
    IgnoredHolds(path);
    hide IsStart, Keeps, IsIgnored, IsPattern, HoldsAt, Filter, RecordLen, IsRecord;
    assert (record + after)[0] == record[0];
    FilterAtStart(before, record + after);
    CloseRecord(record, after);
    Regroup(before, record, after);
    Regroup(Filter(before), record, Filter(after));
  }

  // ---- Counting ----

  /** Digits with single underscores between them, as `int` accepts them. */
  predicate IsDigits(s: string) {
    && s != "" && IsDigit(s[0]) && IsDigit(s[|s| - 1])
    && (forall i :: 0 <= i < |s| ==> IsDigit(s[i]) || s[i] == '_')
    && forall i :: 0 < i < |s| && s[i] == '_' ==> s[i - 1] != '_'
  }

  function DigitsValue(s: string): int {
    if s == "" then 0
    else
      var n, c := |s| - 1, s[|s| - 1];
      if c == '_' then DigitsValue(s[..n]) else DigitsValue(s[..n]) * 10 + (c as int - '0' as int)
  }

  /** `int` on text without white space around it. */
  function ParseSigned(s: string): Option<int> {
    var signed := s != "" && (s[0] == '-' || s[0] == '+');
    var digits := if signed then s[1..] else s;
    if !IsDigits(digits) then None
    else if signed && s[0] == '-' then Some(-DigitsValue(digits))
    else Some(DigitsValue(digits))
  }

  /** `int` on text. */
  function ParseInt(text: string): Option<int> {
    ParseSigned(Trim(Python, text))
  }

  /** The count field of a data line: what follows its first comma. */
  function CountField(line: string): Option<string> {
    if !StartsWith(line, "DA:") then None
    else
      var rest := line[3..];
      var i := IndexOf(rest, ',');
      if i == |rest| then None else Some(rest[i + 1..])
  }

  predicate IsHit(line: string) {
    && CountField(line).Some?
    && ParseInt(CountField(line).value).Some?
    && ParseInt(CountField(line).value).value > 0
  }

  function Total(lines: seq<string>): nat {
    if lines == [] then 0 else (if CountField(lines[0]).Some? then 1 else 0) + Total(lines[1..])
  }

  function Hits(lines: seq<string>): nat {
    if lines == [] then 0 else (if IsHit(lines[0]) then 1 else 0) + Hits(lines[1..])
  }

  method LcovCoverage(input: string) returns (total: nat, hit: nat)
    ensures total == Total(SplitLines(input)) && hit == Hits(SplitLines(input))
  {
    hide ParseInt;
    var lines := SplitLines(input);
    total, hit := 0, 0;
    var i := 0;
    assert lines[0..] == lines;
    while i < |lines|
      invariant 0 <= i <= |lines|
      invariant total + Total(lines[i..]) == Total(lines)
      invariant hit + Hits(lines[i..]) == Hits(lines)
    {
      var line := lines[i];
      assert lines[i..][0] == line && lines[i..][1..] == lines[i + 1..];
      i := i + 1;
      if !StartsWith(line, "DA:") {
        continue;
      }
      var rest := line[3..];
      var comma := IndexOf(rest, ',');
      if comma == |rest| {
        continue;
      }
      total := total + 1;
      var count := ParseInt(rest[comma + 1..]);
      if count.Some? && count.value > 0 {
        hit := hit + 1;
      }
    }
  }

  lemma {:induction false} CountsOfConcat(a: seq<string>, b: seq<string>)
    ensures Total(a + b) == Total(a) + Total(b)
    ensures Hits(a + b) == Hits(a) + Hits(b)
  {
    hide CountField, IsHit;
    if a == [] {
      assert a + b == b;
    } else {
      assert (a + b)[0] == a[0] && (a + b)[1..] == a[1..] + b;
      CountsOfConcat(a[1..], b);
    }
  }

  /** Data lines and hits split exactly into kept, dropped and out-of-record parts. */
  lemma {:induction false} CountsAddUp(lines: seq<string>)
    ensures var p := Partition(lines);
            && Total(lines) == Total(p.kept) + Total(p.dropped) + Total(p.outside)
            && Hits(lines) == Hits(p.kept) + Hits(p.dropped) + Hits(p.outside)
    decreases |lines|
  {
    hide IsStart, Keeps, RecordLen, CountField, IsHit;
    if lines != [] {
      var n := if IsStart(lines[0]) then RecordLen(lines) else 1;
      var p := Partition(lines[n..]);
      CountsAddUp(lines[n..]);
      assert lines == lines[..n] + lines[n..];
      CountsOfConcat(lines[..n], lines[n..]);
      CountsOfConcat(lines[..n], p.kept);
      CountsOfConcat(lines[..n], p.dropped);
      CountsOfConcat(lines[..n], p.outside);
      assert lines[..1] == [lines[0]];
    }
  }

  lemma {:induction false} HitsWithinTotal(lines: seq<string>)
    ensures Hits(lines) <= Total(lines)
  {
    hide ParseInt, CountField;
    if lines != [] {
      HitsWithinTotal(lines[1..]);
    }
  }

  /** Digits joined by single underscores. */
  function JoinGroups(groups: seq<string>): string
    requires groups != []
  {
    var n := |groups| - 1;
    if n == 0 then groups[0] else JoinGroups(groups[..n]) + "_" + groups[n]
  }

  ghost predicate AreGroups(groups: seq<string>) {
    groups != [] && forall i :: 0 <= i < |groups| ==> groups[i] != "" && AllDigits(groups[i])
  }

  lemma {:induction false} DigitsOfConcat(x: string, y: string, g: string)
    requires DigitsValue(x) == Number(y) && AllDigits(g)
    ensures DigitsValue(x + g) == Number(y + g)
  {
    if g == "" {
      assert x + g == x && y + g == y;
    } else {
      var n := |g| - 1;
      DigitsOfConcat(x, y, g[..n]);
      assert (x + g)[..|x| + n] == x + g[..n] && (y + g)[..|y| + n] == y + g[..n];
      assert IsDigit(g[n]);
    }
  }

  lemma {:induction false} ConcatSnoc(parts: seq<string>, last: string)
    ensures Concat(parts + [last]) == Concat(parts) + last
  {
    var all := parts + [last];
    if parts == [] {
      assert all[1..] == [] && last + [] == last;
    } else {
      assert all[1..] == parts[1..] + [last];
      ConcatSnoc(parts[1..], last);
      Regroup(parts[0], Concat(parts[1..]), last);
    }
  }

  lemma DigitsBehind(head: string, last: string)
    requires IsDigits(head) && last != "" && AllDigits(last)
    ensures IsDigits(head + "_" + last)
  {
    var s := head + "_" + last;
    forall i | 0 <= i < |s|
      ensures IsDigit(s[i]) || s[i] == '_'
      ensures i > 0 && s[i] == '_' ==> s[i - 1] != '_'
    {
      if i < |head| {
        assert s[i] == head[i] && (i > 0 ==> s[i - 1] == head[i - 1]);
      } else if i == |head| {
        assert s[i - 1] == head[i - 1] && IsDigit(head[|head| - 1]);
      } else {
        assert s[i] == last[i - |head| - 1];
      }
    }
    assert s[0] == head[0] && s[|s| - 1] == last[|last| - 1];
  }

  lemma {:induction false} GroupsAreDigits(groups: seq<string>)
    requires AreGroups(groups)
    ensures IsDigits(JoinGroups(groups)) && DigitsValue(JoinGroups(groups)) == Number(Concat(groups))
  {
    var n := |groups| - 1;
    var front, last := groups[..n], groups[n];
    assert groups == front + [last];
    ConcatSnoc(front, last);
    if n == 0 {
      DigitsOfConcat("", "", last);
      assert "" + last == last && Concat(front) + last == last;
    } else {
      var head := JoinGroups(front);
      GroupsAreDigits(front);
      assert (head + "_")[..|head|] == head;
      DigitsOfConcat(head + "_", Concat(front), last);
      DigitsBehind(head, last);
    }
  }

  lemma FrontIsDigits(s: string, n: nat)
    requires IsDigits(s) && 0 < n < |s| && s[n - 1] != '_'
    ensures IsDigits(s[..n])
  {
    assert IsDigit(s[n - 1]);
  }

  lemma LongerGroup(groups: seq<string>, c: char)
    requires AreGroups(groups) && IsDigit(c)
    ensures var k := |groups| - 1;
            var longer := groups[..k] + [groups[k] + [c]];
            AreGroups(longer) && JoinGroups(longer) == JoinGroups(groups) + [c]
  {
    var k := |groups| - 1;
    var longer := groups[..k] + [groups[k] + [c]];
    assert longer[..k] == groups[..k];
    if k > 0 {
      assert JoinGroups(groups[..k]) + "_" + (groups[k] + [c]) == JoinGroups(groups[..k]) + "_" + groups[k] + [c];
    }
  }

  lemma {:induction false} DigitsAreGroups(s: string) returns (groups: seq<string>)
    requires IsDigits(s)
    ensures AreGroups(groups) && JoinGroups(groups) == s
  {
    var n := |s| - 1;
    if n == 0 {
      groups := [s];
    } else if s[n - 1] == '_' {
      FrontIsDigits(s, n - 1);
      var front := DigitsAreGroups(s[..n - 1]);
      groups := front + [[s[n]]];
      assert groups[..|front|] == front;
      assert s == s[..n - 1] + "_" + [s[n]];
    } else {
      FrontIsDigits(s, n);
      var front := DigitsAreGroups(s[..n]);
      var k := |front| - 1;
      groups := front[..k] + [front[k] + [s[n]]];
      LongerGroup(front, s[n]);
      assert s == s[..n] + [s[n]];
    }
  }

  /** `text[a..b]` is an integer for `int`, between white space: a sign, or none, and
      groups of digits. */
  ghost predicate IsIntAt(text: string, a: nat, b: nat, sign: string, groups: seq<string>) {
    && TrimmedAt(Python, text, a, b) && (sign == "" || sign == "-" || sign == "+")
    && AreGroups(groups) && text[a..b] == sign + JoinGroups(groups)
  }

  lemma FirstIsDigit(d: string)
    requires IsDigits(d)
    ensures d != "" && d[0] != '-' && d[0] != '+'
  {
  }

  lemma UnsignedIsRead(d: string)
    requires IsDigits(d)
    ensures ParseSigned(d) == Some(DigitsValue(d))
  {
    FirstIsDigit(d);
    hide DigitsValue, IsDigits;
  }

  lemma SignedIsRead(c: char, d: string)
    requires IsDigits(d) && (c == '-' || c == '+')
    ensures ParseSigned([c] + d) == Some(if c == '-' then -DigitsValue(d) else DigitsValue(d))
  {
    hide DigitsValue, IsDigits;
    var s := [c] + d;
    assert s[0] == c && s[1..] == d;
  }

  lemma IntIsRead(text: string, a: nat, b: nat, sign: string, groups: seq<string>)
    requires IsIntAt(text, a, b, sign, groups)
    ensures ParseInt(text) == Some(if sign == "-" then -Number(Concat(groups)) else Number(Concat(groups)))
  {
    hide Trim, TrimmedAt, IsDigits, DigitsValue, Number, Concat, JoinGroups, ParseSigned;
    TrimUnique(Python, text, a, b);
    GroupsAreDigits(groups);
    if sign == "" {
      UnsignedIsRead(JoinGroups(groups));
      assert sign + JoinGroups(groups) == JoinGroups(groups);
    } else {
      SignedIsRead(sign[0], JoinGroups(groups));
      assert sign == [sign[0]];
    }
  }

  /** What `int` accepts, and nothing else. */
  lemma IntHasForm(text: string) returns (a: nat, b: nat, sign: string, groups: seq<string>)
    requires ParseInt(text).Some?
    ensures IsIntAt(text, a, b, sign, groups)
  {
    a, b := TrimBounds(Python, text);
    assert !IsDigits("");
    hide Trim, DigitsValue, IsDigits, IsSpace;
    var s := text[a..b];
    if s[0] == '-' || s[0] == '+' {
      sign := [s[0]];
      groups := DigitsAreGroups(s[1..]);
      assert s == sign + s[1..];
    } else {
      sign := "";
      groups := DigitsAreGroups(s);
      assert s == sign + s;
    }
  }

  lemma {:induction false} NumberIsNatural(s: string)
    requires AllDigits(s)
    ensures Number(s) >= 0
  {
    if s != "" {
      NumberIsNatural(s[..|s| - 1]);
      assert IsDigit(s[|s| - 1]);
    }
  }

  lemma {:induction false} ConcatOfDigits(groups: seq<string>)
    requires forall i :: 0 <= i < |groups| ==> AllDigits(groups[i])
    ensures AllDigits(Concat(groups))
  {
    if groups != [] {
      ConcatOfDigits(groups[1..]);
    }
  }

  lemma GroupsAreNatural(groups: seq<string>)
    requires AreGroups(groups)
    ensures Number(Concat(groups)) >= 0
  {
    ConcatOfDigits(groups);
    NumberIsNatural(Concat(groups));
  }

  lemma FieldOfData(line: string, number: string, count: string)
    requires line == "DA:" + number + "," + count && ',' !in number
    ensures CountField(line) == Some(count)
  {
    var rest := number + "," + count;
    assert line[..3] == "DA:" && line[3..] == rest;
    assert IndexOf(rest, ',') == |number| by {
      assert rest[|number|] == ',';
    }
    assert rest[|number| + 1..] == count;
  }

  lemma CountsOfOne(line: string)
    ensures Total([line]) == if CountField(line).Some? then 1 else 0
    ensures Hits([line]) == if IsHit(line) then 1 else 0
  {
    hide CountField, IsHit;
    assert Total([line]) == (if CountField(line).Some? then 1 else 0) + Total([line][1..]);
    assert Hits([line]) == (if IsHit(line) then 1 else 0) + Hits([line][1..]);
  }

  /** The text is a positive integer for `int`. */
  ghost predicate IsPositiveInt(text: string) {
    exists a: nat, b: nat, sign, groups ::
      IsIntAt(text, a, b, sign, groups) && sign != "-" && Number(Concat(groups)) > 0
  }

  lemma PositiveIsRead(text: string)
    ensures IsPositiveInt(text) <==> ParseInt(text).Some? && ParseInt(text).value > 0
  {
    hide ParseInt, TrimmedAt, JoinGroups, AreGroups, Number, Concat;
    if ParseInt(text).Some? && ParseInt(text).value > 0 {
      var a, b, sign, groups := IntHasForm(text);
      IntIsRead(text, a, b, sign, groups);
      GroupsAreNatural(groups);
    }
    if a: nat, b: nat, sign, groups :|
        IsIntAt(text, a, b, sign, groups) && sign != "-" && Number(Concat(groups)) > 0 {
      IntIsRead(text, a, b, sign, groups);
    }
  }

  /** A data line counts; it is a hit exactly when what stands behind its first comma is an
      integer for `int`, and a positive one. */
  lemma DataLine(line: string, number: string, count: string)
    requires line == "DA:" + number + "," + count && ',' !in number
    ensures Total([line]) == 1
    ensures Hits([line]) == if IsPositiveInt(count) then 1 else 0
  {
    FieldOfData(line, number, count);
    CountsOfOne(line);
    PositiveIsRead(count);
    hide ParseInt, IsPositiveInt, CountField;
  }

  lemma NoComma(line: string)
    requires |line| < 3 || line[..3] != "DA:" || ',' !in line
    ensures CountField(line) == None
  {
    if |line| >= 3 {
      assert forall i :: 0 <= i < |line[3..]| ==> line[3..][i] in line;
    }
  }

  /** Other lines do not count: those that do not begin with `DA:`, and those without a
      comma. */
  lemma OtherLineIsNoData(line: string)
    requires |line| < 3 || line[..3] != "DA:" || ',' !in line
    ensures Total([line]) == 0 && Hits([line]) == 0
  {
    NoComma(line);
    CountsOfOne(line);
    hide CountField;
  }
}
