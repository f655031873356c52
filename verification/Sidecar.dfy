/** The checksum sidecar of an installer: written by installer/build_installer.py,
    read by scripts/sync_appcast_from_releases.py. */
module Sidecar {
  import opened Text
  import opened PyLines

  predicate IsHexDigit(c: char) {
    '0' <= c <= '9' || 'a' <= c <= 'f'
  }

  /** 64 lower-case hexadecimal digits. */
  predicate IsDigest(s: string) {
    |s| == 64 && forall i :: 0 <= i < |s| ==> IsHexDigit(s[i])
  }

  ghost predicate IsSixteenth(c: char) {
    exists v :: 0 <= v < 16 && "0123456789abcdef"[v] == c
  }

  lemma SixteenDigits(c: char)
    ensures IsHexDigit(c) <==> IsSixteenth(c)
  {
    var digits := "0123456789abcdef";
    forall v | 0 <= v < 16
      ensures digits[v] as int == if v < 10 then '0' as int + v else 'a' as int + v - 10
    {
    }
    if IsHexDigit(c) {
      var v := if c <= '9' then c as int - '0' as int else c as int - 'a' as int + 10;
      assert digits[v] == c;
    }
  }

  /** A digest is 64 of the sixteen hexadecimal digits. */
  lemma DigestMeans(s: string)
    ensures IsDigest(s) <==> |s| == 64 && forall i :: 0 <= i < |s| ==> IsSixteenth(s[i])
  {
    forall c
      ensures IsHexDigit(c) <==> IsSixteenth(c)
    {
      SixteenDigits(c);
    }
  }

  function Print(digest: string, name: string, newline: string): string {
    digest + "  " + name + newline
  }

  function TokenEnd(s: string, i: nat): (n: nat)
    requires i <= |s|
    ensures i <= n <= |s| && forall j :: i <= j < n ==> !IsSpace(Python, s[j])
    ensures n < |s| ==> IsSpace(Python, s[n])
    decreases |s| - i
  {
    if i == |s| || IsSpace(Python, s[i]) then i else TokenEnd(s, i + 1)
  }

  function StarEnd(s: string, i: nat): (n: nat)
    requires i <= |s|
    ensures i <= n <= |s| && forall j :: i <= j < n ==> s[j] == '*'
    ensures n < |s| ==> s[n] != '*'
    decreases |s| - i
  {
    if i == |s| || s[i] != '*' then i else StarEnd(s, i + 1)
  }

  /** The name a checksum line gives: white space and binary-mode stars removed. */
  function NameOf(field: string): string {
    var f := Trim(Python, field);
    Trim(Python, f[StarEnd(f, 0)..])
  }

  /** The digest one line offers for an installer, if it does. */
  function LineDigest(raw: string, name: string): Option<string> {
    var line := Trim(Python, raw);
    var e := TokenEnd(line, 0);
    var digest := Fold(line[..e]);
    if line == "" || !IsDigest(digest) then None
    else if e == |line| || NameOf(line[SpaceEnd(Python, line, e)..]) == name then Some(digest)
    else None
  }

  /** The first line that offers a digest decides. */
  function FirstDigest(lines: seq<string>, name: string): Option<string> {
    if lines == [] then None
    else if LineDigest(lines[0], name).Some? then LineDigest(lines[0], name)
    else FirstDigest(lines[1..], name)
  }

  method Sha256FromSidecarContent(content: string, installerName: string) returns (r: Option<string>)
    ensures r == FirstDigest(SplitLines(content), installerName)
  {
    hide Trim, Fold, NameOf, IsDigest;
    var lines := SplitLines(content);
    var i := 0;
    while i < |lines|
      invariant 0 <= i <= |lines|
      invariant FirstDigest(lines[i..], installerName) == FirstDigest(lines, installerName)
    {
      var line := Trim(Python, lines[i]);
      assert lines[i..][0] == lines[i] && lines[i..][1..] == lines[i + 1..];
      i := i + 1;
      if line == "" {
        continue;
      }
      var e := TokenEnd(line, 0);
      var digest := Fold(line[..e]);
      if !IsDigest(digest) {
        continue;
      }
      if e == |line| {
        return Some(digest);
      }
      if NameOf(line[SpaceEnd(Python, line, e)..]) == installerName {
        return Some(digest);
      }
    }
    r := None;
  }

  // ---- What a line must look like ----

  ghost predicate Spaces(s: string, i: nat, j: nat) {
    i <= j <= |s| && forall k :: i <= k < j ==> IsSpace(Python, s[k])
  }

  ghost predicate DigestAt(s: string, i: nat, j: nat) {
    i <= j <= |s| && IsDigest(Fold(s[i..j]))
  }

  /** White space, a digest, white space. */
  ghost predicate BareLine(s: string, a: nat, e: nat) {
    Spaces(s, 0, a) && DigestAt(s, a, e) && Spaces(s, e, |s|)
  }

  /** White space, a digest, white space, then stars and white space in front of
      the name, and white space behind it. */
  ghost predicate NamedLine(s: string, a: nat, e: nat, f: nat, g: nat, h: nat, b: nat, name: string) {
    && Spaces(s, 0, a) && DigestAt(s, a, e) && Spaces(s, e, f) && e < f
    && f <= g <= |s| && (forall k :: f <= k < g ==> s[k] == '*')
    && Spaces(s, g, h) && (f == g ==> g == h) && (g == h ==> h < |s| && s[h] != '*')
    && h < b <= |s| && s[h..b] == name && !IsSpace(Python, s[h]) && !IsSpace(Python, s[b - 1])
    && Spaces(s, b, |s|)
  }

  lemma DigestHasNoSpace(s: string, i: nat, j: nat)
    requires DigestAt(s, i, j)
    ensures j == i + 64 && forall k :: i <= k < j ==> !IsSpace(Python, s[k])
  {
    var t := s[i..j];
    forall k | i <= k < j
      ensures !IsSpace(Python, s[k])
    {
      assert Fold(t)[k - i] == FoldChar(s[k]);
    }
  }

  lemma BareLineAccepted(s: string, a: nat, e: nat, name: string)
    requires BareLine(s, a, e)
    ensures LineDigest(s, name) == Some(Fold(s[a..e]))
  {
    DigestHasNoSpace(s, a, e);
    hide IsSpace, IsDigest, Fold;
    TrimUnique(Python, s, a, e);
    var line := s[a..e];
    assert forall k :: 0 <= k < |line| ==> line[k] == s[a + k];
    assert TokenEnd(line, 0) == |line|;
    assert line[..|line|] == line;
  }

  lemma StarIsNotSpace()
    ensures !IsSpace(Python, '*')
  {
  }

  lemma NameFound(s: string, f: nat, g: nat, h: nat)
    requires f <= g <= h < |s| && (forall k :: f <= k < g ==> s[k] == '*')
    requires Spaces(s, g, h) && (f == g ==> g == h) && (g == h ==> s[h] != '*')
    requires !IsSpace(Python, s[h]) && !IsSpace(Python, s[|s| - 1])
    ensures NameOf(s[f..]) == s[h..]
  {
    hide IsSpace, Trim;
    StarIsNotSpace();
    var n, field := |s|, s[f..];
    assert s[f..n] == field && !IsSpace(Python, s[f]) && s[h..n] == s[h..];
    TrimSlice(Python, s, f, f, n, n);
    assert s[g] != '*' by {
      assert g < h ==> IsSpace(Python, s[g]);
    }
    assert StarEnd(field, 0) == g - f by {
      assert forall k :: 0 <= k < |field| ==> field[k] == s[f + k];
    }
    assert field[g - f..] == s[g..n];
    TrimSlice(Python, s, g, h, n, n);
  }

  lemma TokenAt(s: string, e: nat)
    requires e < |s| && IsSpace(Python, s[e]) && forall k :: 0 <= k < e ==> !IsSpace(Python, s[k])
    ensures TokenEnd(s, 0) == e
  {
    hide IsSpace;
    var n := TokenEnd(s, 0);
  }

  lemma TightLineAccepted(raw: string, line: string, e: nat, f: nat, g: nat, h: nat, name: string)
    requires Trim(Python, raw) == line
    requires NamedLine(line, 0, e, f, g, h, |line|, name)
    ensures LineDigest(raw, name) == Some(Fold(line[..e]))
  {
    StarIsNotSpace();
    DigestHasNoSpace(line, 0, e);
    hide IsSpace, IsDigest, Fold, Trim, NameOf;
    assert IsSpace(Python, line[e]);
    TokenAt(line, e);
    assert !IsSpace(Python, line[f]) by {
      assert f < g ==> line[f] == '*';
    }
    assert SpaceEnd(Python, line, e) == f;
    NameFound(line, f, g, h);
    assert line[h..|line|] == line[h..] && line[0..e] == line[..e];
  }

  lemma NamedLineTrimmed(s: string, line: string, a: nat, e: nat, f: nat, g: nat, h: nat, b: nat, name: string)
    requires NamedLine(s, a, e, f, g, h, b, name) && line == s[a..b] && e == a + 64
    ensures NamedLine(line, 0, e - a, f - a, g - a, h - a, |line|, name)
  {
    hide IsSpace, IsDigest, Fold;
    assert forall k :: 0 <= k < |line| ==> line[k] == s[a + k];
    assert line[0..e - a] == s[a..e] && line[h - a..b - a] == s[h..b];
  }

  lemma NamedLineAccepted(s: string, a: nat, e: nat, f: nat, g: nat, h: nat, b: nat, name: string)
    requires NamedLine(s, a, e, f, g, h, b, name)
    ensures LineDigest(s, name) == Some(Fold(s[a..e]))
  {
    DigestHasNoSpace(s, a, e);
    hide IsSpace, IsDigest, Fold, Trim, LineDigest;
    var line := s[a..b];
    assert TrimmedAt(Python, s, a, b);
    TrimUnique(Python, s, a, b);
    NamedLineTrimmed(s, line, a, e, f, g, h, b, name);
    TightLineAccepted(s, line, e - a, f - a, g - a, h - a, name);
    assert line[..e - a] == s[a..e];
  }

  lemma NameHasForm(s: string, f: nat, b: nat, name: string) returns (g: nat, h: nat)
    requires f < b <= |s| && NameOf(s[f..b]) == name && name != ""
    requires !IsSpace(Python, s[f]) && !IsSpace(Python, s[b - 1])
    ensures f <= g <= h < b && (forall k :: f <= k < g ==> s[k] == '*') && Spaces(s, g, h)
    ensures (f == g ==> g == h) && (g == h ==> s[h] != '*')
    ensures s[h..b] == name && !IsSpace(Python, s[h])
  {
    hide IsSpace, Trim;
    TrimSlice(Python, s, f, f, b, b);
    var field := s[f..b];
    var i := StarEnd(field, 0);
    g := f + i;
    forall k | f <= k < b
      ensures s[k] == field[k - f]
    {
    }
    var u := field[i..];
    assert u == s[g..b] && NameOf(field) == Trim(Python, u);
    var x, y := TrimBounds(Python, u);
    assert forall k :: 0 <= k < |u| ==> u[k] == s[g + k];
    h := g + x;
    assert x < y && u[|u| - 1] == s[b - 1];
    assert y == |u|;
    assert u[x..y] == s[h..b];
  }

  /** The converse: a line that offers a digest has one of the two forms. */
  lemma AcceptedLineHasForm(s: string, name: string, d: string)
    returns (a: nat, e: nat, f: nat, g: nat, h: nat, b: nat)
    requires LineDigest(s, name) == Some(d) && name != ""
    ensures e <= |s| && a <= e && d == Fold(s[a..e]) && IsDigest(d)
    ensures BareLine(s, a, e) || NamedLine(s, a, e, f, g, h, b, name)
  {
    StarIsNotSpace();
    hide IsSpace, IsDigest, Fold, Trim, NameOf;
    a, b := TrimBounds(Python, s);
    var line := s[a..b];
    var n := TokenEnd(line, 0);
    e, f, g, h := a + n, 0, 0, 0;
    assert line[..n] == s[a..e];
    if n < |line| {
      assert forall k :: 0 <= k < |line| ==> line[k] == s[a + k];
      var m := SpaceEnd(Python, line, n);
      f := a + m;
      assert line[m..] == s[f..b];
      g, h := NameHasForm(s, f, b, name);
    } else {
      assert e == b;
    }
  }

  lemma OfferedIsDigest(raw: string, name: string)
    ensures LineDigest(raw, name).Some? ==> IsDigest(LineDigest(raw, name).value)
  {
  }

  /** On any text: the digest found is the folded 64-digit token of the first line
      that offers one, and no digest is found exactly when no line offers one. */
  lemma {:induction false} FirstDigestIsFirst(lines: seq<string>, name: string) returns (i: nat)
    ensures FirstDigest(lines, name).Some? ==>
              i < |lines| && LineDigest(lines[i], name) == FirstDigest(lines, name)
              && IsDigest(FirstDigest(lines, name).value)
              && forall j :: 0 <= j < i ==> LineDigest(lines[j], name) == None
    ensures FirstDigest(lines, name) == None <==> forall j :: 0 <= j < |lines| ==> LineDigest(lines[j], name) == None
  {
    i := 0;
    if lines != [] {
      OfferedIsDigest(lines[0], name);
      hide LineDigest, IsDigest;
      var tail := lines[1..];
      forall j | 0 < j < |lines|
        ensures lines[j] == tail[j - 1]
      {
      }
      if LineDigest(lines[0], name) == None {
        i := FirstDigestIsFirst(tail, name);
        assert forall j :: 0 <= j < |tail| ==> tail[j] == lines[j + 1];
        i := i + 1;
      }
    }
  }

  lemma OneLineFile(line: string, name: string, newline: string)
    requires OneLine(line) && LineDigest(line, name).Some? && (newline == "\n" || newline == "\r\n")
    ensures FirstDigest(SplitLines(line + newline), name) == LineDigest(line, name)
  {
    hide LineDigest, OneLine;
    assert line + newline == line + newline + "";
    FirstLine(line, newline, "");
  }

  lemma PrintedLine(line: string, digest: string, name: string)
    requires line == digest + "  " + name && IsDigest(Fold(digest))
    requires name != "" && OneLine(name) && name[0] != '*'
    requires !IsSpace(Python, name[0]) && !IsSpace(Python, name[|name| - 1])
    ensures OneLine(line) && |digest| == 64 && NamedLine(line, 0, 64, 66, 66, 66, |line|, name)
  {
    assert line[0..64] == digest && line[66..|line|] == name;
    DigestHasNoSpace(line, 0, 64);
    assert line[64] == ' ' && line[65] == ' ' && line[66] == name[0] && line[|line| - 1] == name[|name| - 1];
    forall i | 0 <= i < |line|
      ensures !IsLineBreak(line[i])
    {
      assert i < 64 ==> !IsSpace(Python, line[i]);
      assert i >= 66 ==> line[i] == name[i - 66];
    }
  }

  /** Parsing a written sidecar gives the digest back. */
  lemma ParseOfPrint(digest: string, name: string, newline: string)
    requires IsDigest(Fold(digest)) && (newline == "\n" || newline == "\r\n")
    requires name != "" && OneLine(name) && name[0] != '*'
    requires !IsSpace(Python, name[0]) && !IsSpace(Python, name[|name| - 1])
    ensures FirstDigest(SplitLines(Print(digest, name, newline)), name) == Some(Fold(digest))
  {
    var line := digest + "  " + name;
    PrintedLine(line, digest, name);
    assert line[0..64] == digest;
    hide IsSpace, IsDigest, Fold, LineDigest, NamedLine, SplitLines, FirstDigest;
    NamedLineAccepted(line, 0, 64, 66, 66, 66, |line|, name);
    OneLineFile(line, name, newline);
  }
}
