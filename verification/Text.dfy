/** Characters, trimming, case folding and substring search as the two script
    runtimes see them. */
module Text {

  datatype Option<+T> = None | Some(value: T)

  datatype Result<+T, +E> = Ok(value: T) | Err(error: E)

  type Byte = b: int | 0 <= b < 0x100

  /** Which runtime's notion of white space applies. */
  datatype Runtime = DotNet | Python

  /** `Char.IsWhiteSpace` (also regex `\s`) on .NET; `str.isspace` (also `\s`)
      in Python, which adds the four information separators. */
  predicate IsSpace(rt: Runtime, c: char) {
    || '\t' <= c <= '\r' || c == ' ' || c == '\U{85}' || c == '\U{A0}' || c == '\U{1680}'
    || '\U{2000}' <= c <= '\U{200A}' || c == '\U{2028}' || c == '\U{2029}' || c == '\U{202F}'
    || c == '\U{205F}' || c == '\U{3000}'
    || (rt == Python && '\U{1C}' <= c <= '\U{1F}')
  }

  /** The characters by number: tab to carriage return, space, next line, the no-break and
      the Ogham space, the eleven of the block of general punctuation, the line and
      paragraph separators, the narrow, the mathematical and the ideographic space. */
  lemma SpacesByNumber(rt: Runtime, c: char)
    ensures IsSpace(rt, c) <==>
              || c as int in {9, 10, 11, 12, 13, 0x20, 0x85, 0xA0, 0x1680, 0x2000, 0x2001, 0x2002, 0x2003, 0x2004,
                              0x2005, 0x2006, 0x2007, 0x2008, 0x2009, 0x200A, 0x2028, 0x2029, 0x202F, 0x205F, 0x3000}
              || (rt == Python && c as int in {0x1C, 0x1D, 0x1E, 0x1F})
  {
  }

  /** Where the white space that starts at `i` ends. */
  function SpaceEnd(rt: Runtime, s: string, i: nat): (n: nat)
    requires i <= |s|
    ensures i <= n <= |s| && forall j :: i <= j < n ==> IsSpace(rt, s[j])
    ensures n < |s| ==> !IsSpace(rt, s[n])
    decreases |s| - i
  {
    if i == |s| || !IsSpace(rt, s[i]) then i else SpaceEnd(rt, s, i + 1)
  }

  /** Length of a string without its trailing white space. */
  function KeptLen(rt: Runtime, s: string): (n: nat)
    ensures n <= |s| && forall i :: n <= i < |s| ==> IsSpace(rt, s[i])
    ensures n > 0 ==> !IsSpace(rt, s[n - 1])
  {
    if s == "" || !IsSpace(rt, s[|s| - 1]) then |s| else KeptLen(rt, s[..|s| - 1])
  }

  function TrimStart(rt: Runtime, s: string): string {
    s[SpaceEnd(rt, s, 0)..]
  }

  function TrimEnd(rt: Runtime, s: string): string {
    s[..KeptLen(rt, s)]
  }

  function Trim(rt: Runtime, s: string): string {
    TrimEnd(rt, TrimStart(rt, s))
  }

  /** `s[a..b]` is what is left of `s` between two runs of white space. */
  ghost predicate TrimmedAt(rt: Runtime, s: string, a: nat, b: nat) {
    && a <= b <= |s|
    && (forall i :: 0 <= i < a ==> IsSpace(rt, s[i]))
    && (forall i :: b <= i < |s| ==> IsSpace(rt, s[i]))
    && (a < b ==> !IsSpace(rt, s[a]) && !IsSpace(rt, s[b - 1]))
  }

  lemma TrimBounds(rt: Runtime, s: string) returns (a: nat, b: nat)
    ensures TrimmedAt(rt, s, a, b) && Trim(rt, s) == s[a..b]
  {
    hide IsSpace;
    a := SpaceEnd(rt, s, 0);
    b := a + KeptLen(rt, s[a..]);
    assert forall i :: b <= i < |s| ==> s[i] == s[a..][i - a];
  }

  /** The part between the runs of white space is unique. */
  lemma TrimUnique(rt: Runtime, s: string, a: nat, b: nat)
    requires TrimmedAt(rt, s, a, b)
    ensures Trim(rt, s) == s[a..b]
  {
    hide IsSpace;
    var x, y := TrimBounds(rt, s);
    if a < b {
      assert x == a && y == b;
    } else {
      assert forall i :: 0 <= i < |s| ==> IsSpace(rt, s[i]);
    }
  }

  /** The same for a stretch `s[i..n]` of a longer string. */
  lemma TrimSlice(rt: Runtime, s: string, i: nat, x: nat, y: nat, n: nat)
    requires i <= x < y <= n <= |s|
    requires forall k :: i <= k < x ==> IsSpace(rt, s[k])
    requires forall k :: y <= k < n ==> IsSpace(rt, s[k])
    requires !IsSpace(rt, s[x]) && !IsSpace(rt, s[y - 1])
    ensures Trim(rt, s[i..n]) == s[x..y]
  {
    hide IsSpace, Trim;
    var t := s[i..n];
    assert forall k :: 0 <= k < |t| ==> t[k] == s[i + k];
    assert TrimmedAt(rt, t, x - i, y - i);
    TrimUnique(rt, t, x - i, y - i);
    assert t[x - i..y - i] == s[x..y];
  }

  /** ASCII case folding: what a case-insensitive comparison ignores. */
  function FoldChar(c: char): char {
    if 'A' <= c <= 'Z' then c + 32 as char else c
  }

  /** Folding identifies a capital ASCII letter with its small one, and nothing else. */
  lemma SameUpToCase(a: char, b: char)
    ensures FoldChar(a) == FoldChar(b) <==>
              || a == b
              || (65 <= a as int <= 90 && b as int == a as int + 32)
              || (65 <= b as int <= 90 && a as int == b as int + 32)
  {
  }

  function Fold(s: string): (t: string)
    ensures |t| == |s|
    ensures forall i :: 0 <= i < |s| ==> t[i] == FoldChar(s[i])
  {
    seq(|s|, i requires 0 <= i < |s| => FoldChar(s[i]))
  }

  lemma FoldLength(s: string)
    ensures |Fold(s)| == |s|
  {
  }

  predicate StartsWith<T(==)>(s: seq<T>, prefix: seq<T>) {
    |prefix| <= |s| && s[..|prefix|] == prefix
  }

  predicate EndsWith<T(==)>(s: seq<T>, suffix: seq<T>) {
    |suffix| <= |s| && s[|s| - |suffix|..] == suffix
  }

  /** `needle in haystack`: some contiguous stretch equals the needle. */
  predicate Contains<T(==)>(haystack: seq<T>, needle: seq<T>) {
    exists i :: 0 <= i <= |haystack| && StartsWith(haystack[i..], needle)
  }

  /** Position of the first `c`, or the length when there is none. */
  function IndexOf(s: string, c: char): (i: nat)
    ensures i <= |s|
    ensures forall j :: 0 <= j < i ==> s[j] != c
    ensures i < |s| ==> s[i] == c
  {
    if s == "" || s[0] == c then 0 else 1 + IndexOf(s[1..], c)
  }

  predicate IsDigit(c: char) {
    '0' <= c <= '9'
  }

  predicate AllDigits(s: string) {
    forall i :: 0 <= i < |s| ==> IsDigit(s[i])
  }

  /** The number that decimal digits write. */
  function Number(s: string): int {
    if s == "" then 0 else Number(s[..|s| - 1]) * 10 + (s[|s| - 1] as int - '0' as int)
  }

  lemma Regroup<T>(a: seq<T>, b: seq<T>, c: seq<T>)
    ensures a + (b + c) == a + b + c
  {
  }

  lemma SliceOfSlice<T>(s: seq<T>, a: nat, b: nat, i: nat, j: nat)
    requires a <= b <= |s| && i <= j <= b - a
    ensures s[a..b][i..j] == s[a + i..a + j]
  {
    var t := s[a..b];
    assert forall k :: 0 <= k < |t| ==> t[k] == s[a + k];
  }

  function Concat<T>(parts: seq<seq<T>>): seq<T> {
    if parts == [] then [] else parts[0] + Concat(parts[1..])
  }
}
