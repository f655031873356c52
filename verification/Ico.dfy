/** The icon directory reader of scripts/windows_icon_utils.py, and the builder of
    its unit tests that it must invert. */
module Ico {
  import opened Text

  const PngSignature: seq<Byte> := [0x89, 0x50, 0x4E, 0x47, 0x0D, 0x0A, 0x1A, 0x0A]
  const HeaderTypeIcon: nat := 1

  // ---- Little-endian integers ----

  function Pack16(n: nat): (s: seq<Byte>)
    requires n < 0x1_0000
  {
    [n % 0x100, n / 0x100]
  }

  function Unpack16(s: seq<Byte>): (n: nat)
    requires |s| == 2
  {
    s[0] as int + s[1] as int * 0x100
  }

  function Pack32(n: nat): (s: seq<Byte>)
    requires n < 0x1_0000_0000
  {
    Pack16(n % 0x1_0000) + Pack16(n / 0x1_0000)
  }

  function Unpack32(s: seq<Byte>): (n: nat)
    requires |s| == 4
  {
    Unpack16(s[..2]) + Unpack16(s[2..]) * 0x1_0000
  }

  lemma PackThenUnpack(n: nat)
    ensures n < 0x1_0000 ==> Unpack16(Pack16(n)) == n
    ensures n < 0x1_0000_0000 ==> Unpack32(Pack32(n)) == n
  {
    if n < 0x1_0000_0000 {
      assert Pack32(n)[..2] == Pack16(n % 0x1_0000) && Pack32(n)[2..] == Pack16(n / 0x1_0000);
    }
  }

  // ---- Reading ----

  datatype Entry = Entry(size: nat, offset: nat)

  function EntryAt(ico: seq<Byte>, k: nat): Entry
    requires 6 + 16 * (k + 1) <= |ico|
  {
    var cursor := 6 + 16 * k;
    Entry(Unpack32(ico[cursor + 8..cursor + 12]), Unpack32(ico[cursor + 12..cursor + 16]))
  }

  predicate GoodHeader(ico: seq<Byte>) {
    && |ico| >= 6 && Unpack16(ico[0..2]) == 0 && Unpack16(ico[2..4]) == HeaderTypeIcon
    && Unpack16(ico[4..6]) != 0
  }

  /** The number of directory entries, when the whole directory is present. */
  function EntryCount(ico: seq<Byte>): Option<nat> {
    if !GoodHeader(ico) then None
    else
      var count := Unpack16(ico[4..6]);
      if 6 + 16 * count <= |ico| then Some(count) else None
  }

  predicate InRange(ico: seq<Byte>, e: Entry) {
    e.offset + e.size <= |ico|
  }

  function Payload(ico: seq<Byte>, e: Entry): seq<Byte>
    requires InRange(ico, e)
  {
    ico[e.offset..e.offset + e.size]
  }

  predicate IsPngEntry(ico: seq<Byte>, e: Entry) {
    InRange(ico, e) && StartsWith(Payload(ico, e), PngSignature)
  }

  /** The best payload among the entries: the first of the longest. */
  function BestOf(ico: seq<Byte>, entries: seq<Entry>): Option<seq<Byte>> {
    if entries == [] then None
    else
      var n := |entries| - 1;
      var best, e := BestOf(ico, entries[..n]), entries[n];
      if IsPngEntry(ico, e) && (best.None? || |Payload(ico, e)| > |best.value|) then Some(Payload(ico, e)) else best
  }

  function Entries(ico: seq<Byte>, count: nat): (r: seq<Entry>)
    requires 6 + 16 * count <= |ico|
    ensures |r| == count && forall k :: 0 <= k < count ==> r[k] == EntryAt(ico, k)
  {
    seq(count, k requires 0 <= k < count => EntryAt(ico, k))
  }

  function ExtractLargest(ico: seq<Byte>): Option<seq<Byte>> {
    match EntryCount(ico)
    case None => None
    case Some(count) => BestOf(ico, Entries(ico, count))
  }

  lemma NotInRange(ico: seq<Byte>, e: Entry)
    requires e.offset + e.size > |ico|
    ensures !IsPngEntry(ico, e)
  {
  }

  lemma PngByPayload(ico: seq<Byte>, e: Entry)
    requires InRange(ico, e)
    ensures IsPngEntry(ico, e) <==> StartsWith(ico[e.offset..e.offset + e.size], PngSignature)
  {
  }

  method ExtractLargestPngFromIco(ico: seq<Byte>) returns (best: Option<seq<Byte>>)
    ensures best == ExtractLargest(ico)
  {
    hide Unpack16, Unpack32, IsPngEntry;
    if |ico| < 6 {
      return None;
    }
    var reserved, imageType, count := Unpack16(ico[0..2]), Unpack16(ico[2..4]), Unpack16(ico[4..6]);
    if reserved != 0 || imageType != HeaderTypeIcon || count == 0 {
      return None;
    }
    var entries: seq<Entry> := [];
    var cursor := 6;
    for i := 0 to count
      invariant cursor == 6 + 16 * i && cursor <= |ico|
      invariant entries == Entries(ico, i)
    {
      if cursor + 16 > |ico| {
        return None;
      }
      var size, offset := Unpack32(ico[cursor + 8..cursor + 12]), Unpack32(ico[cursor + 12..cursor + 16]);
      entries := entries + [Entry(size, offset)];
      cursor := cursor + 16;
    }
    best := None;
    var k := 0;
    while k < |entries|
      invariant 0 <= k <= |entries|
      invariant best == BestOf(ico, entries[..k])
    {
      var e := entries[k];
      assert entries[..k + 1] == entries[..k] + [e];
      assert entries[..k + 1][..k] == entries[..k];
      k := k + 1;
      if e.offset + e.size > |ico| {
        NotInRange(ico, e);
        continue;
      }
      var payload := ico[e.offset..e.offset + e.size];
      PngByPayload(ico, e);
      if !StartsWith(payload, PngSignature) {
        continue;
      }
      if best == None || |payload| > |best.value| {
        best := Some(payload);
      }
    }
    assert entries[..k] == entries;
  }

  // ---- What the reader finds, on any bytes ----

  /** Entry `k` holds the longest PNG, and no earlier entry one as long. */
  ghost predicate IsFirstLongest(ico: seq<Byte>, entries: seq<Entry>, k: nat) {
    && k < |entries| && IsPngEntry(ico, entries[k])
    && (forall j :: 0 <= j < |entries| && IsPngEntry(ico, entries[j]) ==> entries[j].size <= entries[k].size)
    && (forall j :: 0 <= j < k && IsPngEntry(ico, entries[j]) ==> entries[j].size < entries[k].size)
  }

  lemma PngIsInRange(ico: seq<Byte>, e: Entry)
    ensures IsPngEntry(ico, e) ==> InRange(ico, e) && |Payload(ico, e)| == e.size
  {
  }

  lemma {:induction false} BestIsFirstLongest(ico: seq<Byte>, entries: seq<Entry>) returns (k: nat)
    ensures BestOf(ico, entries).Some? ==>
              IsFirstLongest(ico, entries, k) && BestOf(ico, entries).value == Payload(ico, entries[k])
    ensures BestOf(ico, entries) == None <==> forall j :: 0 <= j < |entries| ==> !IsPngEntry(ico, entries[j])
  {
    hide IsPngEntry;
    k := 0;
    if entries != [] {
      var n := |entries| - 1;
      var front := entries[..n];
      k := BestIsFirstLongest(ico, front);
      PngIsInRange(ico, entries[n]);
      if BestOf(ico, front).Some? {
        PngIsInRange(ico, front[k]);
      }
      assert forall j :: 0 <= j < n ==> entries[j] == front[j];
      var best := BestOf(ico, front);
      if IsPngEntry(ico, entries[n]) && (best.None? || |Payload(ico, entries[n])| > |best.value|) {
        k := n;
      }
    }
  }

  /** The directory in the file's bytes: two zero bytes, the type of an icon, the number of
      entries, and sixteen bytes for each. */
  lemma CountMeans(ico: seq<Byte>, n: nat)
    ensures EntryCount(ico) == Some(n) <==>
              && |ico| >= 6 && ico[0] == 0 && ico[1] == 0 && ico[2] == 1 && ico[3] == 0
              && n == ico[4] as int + 256 * ico[5] as int && n > 0 && 6 + 16 * n <= |ico|
  {
    if |ico| >= 6 {
      assert ico[0..2] == [ico[0], ico[1]] && ico[2..4] == [ico[2], ico[3]] && ico[4..6] == [ico[4], ico[5]];
    }
  }

  /** The size and the offset of an entry, least byte first. */
  lemma EntryMeans(ico: seq<Byte>, k: nat)
    requires 6 + 16 * (k + 1) <= |ico|
    ensures var e, at := EntryAt(ico, k), 6 + 16 * k;
            && e.size == ico[at + 8] as int + 0x100 * ico[at + 9] as int + 0x1_0000 * ico[at + 10] as int
                         + 0x100_0000 * ico[at + 11] as int
            && e.offset == ico[at + 12] as int + 0x100 * ico[at + 13] as int + 0x1_0000 * ico[at + 14] as int
                           + 0x100_0000 * ico[at + 15] as int
  {
    var at := 6 + 16 * k;
    var size, offset := ico[at + 8..at + 12], ico[at + 12..at + 16];
    assert size[..2] == [size[0], size[1]] && size[2..] == [size[2], size[3]];
    assert offset[..2] == [offset[0], offset[1]] && offset[2..] == [offset[2], offset[3]];
  }

  // ---- Building ----

  function Sum(blobs: seq<seq<Byte>>): nat {
    if blobs == [] then 0 else |blobs[0]| + Sum(blobs[1..])
  }

  /** Where the payloads start: behind the header and the directory. */
  function FirstOffset(count: nat): nat {
    6 + 16 * count
  }

  /** The sizes and offsets that the directory's fields can hold, from `offset` on. */
  predicate Fits(blobs: seq<seq<Byte>>, offset: nat) {
    blobs == [] || (|blobs[0]| < 0x1_0000_0000 && offset < 0x1_0000_0000 && Fits(blobs[1..], offset + |blobs[0]|))
  }

  function EntryBytes(size: nat, offset: nat): (s: seq<Byte>)
    requires size < 0x1_0000_0000 && offset < 0x1_0000_0000
    ensures |s| == 16 && Unpack32(s[8..12]) == size && Unpack32(s[12..16]) == offset
  {
    PackThenUnpack(size);
    PackThenUnpack(offset);
    var s := [0, 0, 0, 0] + Pack16(1) + Pack16(32) + Pack32(size) + Pack32(offset);
    assert s[8..12] == Pack32(size) && s[12..16] == Pack32(offset);
    s
  }

  function Directory(blobs: seq<seq<Byte>>, offset: nat): (s: seq<Byte>)
    requires Fits(blobs, offset)
    ensures |s| == 16 * |blobs|
  {
    if blobs == [] then []
    else EntryBytes(|blobs[0]|, offset) + Directory(blobs[1..], offset + |blobs[0]|)
  }

  function Header(count: nat): (s: seq<Byte>)
    requires count < 0x1_0000
    ensures |s| == 6
  {
    Pack16(0) + Pack16(HeaderTypeIcon) + Pack16(count)
  }

  /** The file for a list of blobs; packing fails when a field would overflow. */
  function Build(blobs: seq<seq<Byte>>): Option<seq<Byte>> {
    if |blobs| < 0x1_0000 && Fits(blobs, FirstOffset(|blobs|))
    then Some(Header(|blobs|) + Directory(blobs, FirstOffset(|blobs|)) + Concat(blobs))
    else None
  }

  /** The blob at `i` and the blobs behind it. */
  lemma NextBlob(blobs: seq<seq<Byte>>, i: nat, offset: nat)
    requires i < |blobs|
    ensures Fits(blobs[i..], offset) <==>
              |blobs[i]| < 0x1_0000_0000 && offset < 0x1_0000_0000 && Fits(blobs[i + 1..], offset + |blobs[i]|)
    ensures Fits(blobs[i..], offset) ==>
              Directory(blobs[i..], offset)
              == EntryBytes(|blobs[i]|, offset) + Directory(blobs[i + 1..], offset + |blobs[i]|)
    ensures Concat(blobs[i..]) == blobs[i] + Concat(blobs[i + 1..])
  {
    hide EntryBytes;
    assert blobs[i..][0] == blobs[i] && blobs[i..][1..] == blobs[i + 1..];
  }

  lemma NoBlobs(blobs: seq<seq<Byte>>, offset: nat)
    requires blobs == []
    ensures Fits(blobs, offset) && Directory(blobs, offset) == [] && Concat(blobs) == []
  {
  }

  method IcoWithPngs(pngs: seq<seq<Byte>>) returns (ico: Option<seq<Byte>>)
    ensures ico == Build(pngs)
  {
    hide Pack16, EntryBytes, Fits, Directory, Concat;
    if |pngs| >= 0x1_0000 {
      return None;
    }
    var directory: seq<Byte>, payload: seq<Byte> := [], [];
    var offset: nat := FirstOffset(|pngs|);
    var i := 0;
    assert pngs[0..] == pngs;
    while i < |pngs|
      invariant 0 <= i <= |pngs|
      invariant Fits(pngs, FirstOffset(|pngs|)) <==> Fits(pngs[i..], offset)
      invariant Fits(pngs[i..], offset) ==>
                  directory + Directory(pngs[i..], offset) == Directory(pngs, FirstOffset(|pngs|))
      invariant payload + Concat(pngs[i..]) == Concat(pngs)
    {
      var png, rest := pngs[i], pngs[i + 1..];
      NextBlob(pngs, i, offset);
      if |png| >= 0x1_0000_0000 || offset >= 0x1_0000_0000 {
        return None;
      }
      var entry := EntryBytes(|png|, offset);
      if Fits(rest, offset + |png|) {
        Regroup(directory, entry, Directory(rest, offset + |png|));
      }
      Regroup(payload, png, Concat(rest));
      directory := directory + entry;
      payload := payload + png;
      offset := offset + |png|;
      i := i + 1;
    }
    NoBlobs(pngs[i..], offset);
    assert directory + [] == directory && payload + [] == payload;
    ico := Some(Header(|pngs|) + directory + payload);
  }

  // ---- The reader inverts the builder ----

  lemma {:induction false} FitsAt(blobs: seq<seq<Byte>>, offset: nat, k: nat)
    requires Fits(blobs, offset) && k < |blobs|
    ensures |blobs[k]| < 0x1_0000_0000 && offset + Sum(blobs[..k]) < 0x1_0000_0000
  {
    if k > 0 {
      FitsAt(blobs[1..], offset + |blobs[0]|, k - 1);
      assert blobs[..k][1..] == blobs[1..][..k - 1];
    }
  }

  lemma {:induction false} DirectoryAt(blobs: seq<seq<Byte>>, offset: nat, k: nat)
    requires Fits(blobs, offset) && k < |blobs|
    ensures |blobs[k]| < 0x1_0000_0000 && offset + Sum(blobs[..k]) < 0x1_0000_0000
    ensures Directory(blobs, offset)[16 * k..16 * k + 16] == EntryBytes(|blobs[k]|, offset + Sum(blobs[..k]))
  {
    hide EntryBytes;
    FitsAt(blobs, offset, k);
    if k == 0 {
      assert blobs[..0] == [];
    } else {
      DirectoryAt(blobs[1..], offset + |blobs[0]|, k - 1);
      assert blobs[..k][1..] == blobs[1..][..k - 1];
      var d := Directory(blobs[1..], offset + |blobs[0]|);
      assert Directory(blobs, offset)[16 * k..16 * k + 16] == d[16 * (k - 1)..16 * (k - 1) + 16];
    }
  }

  lemma {:induction false} ConcatAt(blobs: seq<seq<Byte>>, k: nat)
    requires k < |blobs|
    ensures Sum(blobs[..k]) + |blobs[k]| <= |Concat(blobs)|
    ensures Concat(blobs)[Sum(blobs[..k])..Sum(blobs[..k]) + |blobs[k]|] == blobs[k]
  {
    if k == 0 {
      assert Sum(blobs[..0]) == 0;
    } else {
      ConcatAt(blobs[1..], k - 1);
      assert blobs[..k][1..] == blobs[1..][..k - 1];
      var a, c, n := Sum(blobs[1..][..k - 1]), Concat(blobs[1..]), |blobs[0]|;
      assert Concat(blobs)[n + a..n + a + |blobs[k]|] == c[a..a + |blobs[k]|];
    }
  }

  lemma EntryFromBytes(ico: seq<Byte>, k: nat, size: nat, offset: nat)
    requires 6 + 16 * (k + 1) <= |ico| && size < 0x1_0000_0000 && offset < 0x1_0000_0000
    requires ico[6 + 16 * k..6 + 16 * k + 16] == EntryBytes(size, offset)
    ensures EntryAt(ico, k) == Entry(size, offset)
  {
    hide Unpack16, Unpack32;
    var e, cursor := EntryBytes(size, offset), 6 + 16 * k;
    SliceOfSlice(ico, cursor, cursor + 16, 8, 12);
    SliceOfSlice(ico, cursor, cursor + 16, 12, 16);
    assert ico[cursor..cursor + 16] == e;
  }

  lemma NamedPayload(ico: seq<Byte>, h: seq<Byte>, d: seq<Byte>, c: seq<Byte>, k: nat, sum: nat, blob: seq<Byte>)
    requires ico == h + d + c && |h| == 6 && 16 * k + 16 <= |d| && sum + |blob| <= |c|
    requires |blob| < 0x1_0000_0000 && 6 + |d| + sum < 0x1_0000_0000
    requires ico[6 + 16 * k..6 + 16 * k + 16] == EntryBytes(|blob|, 6 + |d| + sum)
    requires ico[6 + |d| + sum..6 + |d| + sum + |blob|] == blob
    ensures EntryAt(ico, k) == Entry(|blob|, 6 + |d| + sum)
    ensures InRange(ico, EntryAt(ico, k)) && Payload(ico, EntryAt(ico, k)) == blob
  {
    hide EntryBytes, EntryAt;
    EntryFromBytes(ico, k, |blob|, 6 + |d| + sum);
  }

  lemma SliceOfThree(h: seq<Byte>, d: seq<Byte>, c: seq<Byte>, a: nat, b: nat, x: nat, y: nat)
    requires a <= b <= |d| && x <= y <= |c|
    ensures (h + d + c)[|h| + a..|h| + b] == d[a..b]
    ensures (h + d + c)[|h| + |d| + x..|h| + |d| + y] == c[x..y]
  {
  }

  lemma HeaderFields(count: nat)
    requires count < 0x1_0000
    ensures var h := Header(count);
            Unpack16(h[0..2]) == 0 && Unpack16(h[2..4]) == HeaderTypeIcon && Unpack16(h[4..6]) == count
  {
    PackThenUnpack(0);
    PackThenUnpack(HeaderTypeIcon);
    PackThenUnpack(count);
    hide Pack16, Unpack16;
    var h := Header(count);
    assert h[0..2] == Pack16(0) && h[2..4] == Pack16(HeaderTypeIcon) && h[4..6] == Pack16(count);
  }

  lemma BuiltHeader(blobs: seq<seq<Byte>>, ico: seq<Byte>)
    requires Build(blobs) == Some(ico) && blobs != []
    ensures EntryCount(ico) == Some(|blobs|) && |ico| == FirstOffset(|blobs|) + |Concat(blobs)|
  {
    var h := Header(|blobs|);
    HeaderFields(|blobs|);
    hide Unpack16, Directory, Concat, Fits, Header;
    assert ico[..6] == h;
    assert ico[0..2] == h[0..2] && ico[2..4] == h[2..4] && ico[4..6] == h[4..6];
  }

  /** Header, directory and payloads of a built file, and where blob `k` stands. */
  lemma BuiltParts(blobs: seq<seq<Byte>>, ico: seq<Byte>, k: nat)
    returns (h: seq<Byte>, d: seq<Byte>, c: seq<Byte>, sum: nat)
    requires Build(blobs) == Some(ico) && k < |blobs|
    ensures ico == h + d + c && |h| == 6 && |d| == 16 * |blobs|
    ensures |blobs[k]| < 0x1_0000_0000 && 6 + |d| + sum < 0x1_0000_0000 && sum + |blobs[k]| <= |c|
    ensures d[16 * k..16 * k + 16] == EntryBytes(|blobs[k]|, 6 + |d| + sum)
    ensures c[sum..sum + |blobs[k]|] == blobs[k]
  {
    hide Pack16, EntryBytes;
    var first := FirstOffset(|blobs|);
    DirectoryAt(blobs, first, k);
    ConcatAt(blobs, k);
    hide Directory, Concat, Sum, Fits;
    h, d, c, sum := Header(|blobs|), Directory(blobs, first), Concat(blobs), Sum(blobs[..k]);
  }

  /** Each directory entry of a built file names its blob. */
  lemma BuiltEntry(blobs: seq<seq<Byte>>, ico: seq<Byte>, k: nat)
    requires Build(blobs) == Some(ico) && k < |blobs|
    ensures EntryCount(ico) == Some(|blobs|)
    ensures InRange(ico, EntryAt(ico, k)) && Payload(ico, EntryAt(ico, k)) == blobs[k]
    ensures EntryAt(ico, k).size == |blobs[k]|
  {
    hide EntryBytes, EntryCount, EntryAt, Build, InRange;
    BuiltHeader(blobs, ico);
    var h, d, c, sum := BuiltParts(blobs, ico, k);
    SliceOfThree(h, d, c, 16 * k, 16 * k + 16, sum, sum + |blobs[k]|);
    NamedPayload(ico, h, d, c, k, sum, blobs[k]);
  }

  /** The first half of a built entry: no dimensions, one plane, 32 bits. */
  lemma BuiltEntryBytes(blobs: seq<seq<Byte>>, ico: seq<Byte>, k: nat)
    requires Build(blobs) == Some(ico) && k < |blobs|
    ensures 6 + 16 * k + 8 <= |ico| && ico[6 + 16 * k..6 + 16 * k + 8] == [0, 0, 0, 0, 1, 0, 32, 0]
  {
    hide Build;
    var h, d, c, sum := BuiltParts(blobs, ico, k);
    SliceOfThree(h, d, c, 16 * k, 16 * k + 16, sum, sum);
    var e := EntryBytes(|blobs[k]|, 6 + |d| + sum);
    assert e[0..8] == [0, 0, 0, 0, 1, 0, 32, 0];
    SliceOfSlice(ico, 6 + 16 * k, 6 + 16 * k + 16, 0, 8);
  }

  predicate IsPng(blob: seq<Byte>) {
    StartsWith(blob, PngSignature)
  }

  /** Reading a built file gives the first of the longest blobs that carry the
      signature, and nothing exactly when no blob does. */
  lemma ReadOfBuild(blobs: seq<seq<Byte>>, ico: seq<Byte>) returns (k: nat)
    requires Build(blobs) == Some(ico) && blobs != []
    ensures ExtractLargest(ico) == None <==> forall j :: 0 <= j < |blobs| ==> !IsPng(blobs[j])
    ensures ExtractLargest(ico).Some? ==>
              && k < |blobs| && ExtractLargest(ico) == Some(blobs[k]) && IsPng(blobs[k])
              && (forall j :: 0 <= j < |blobs| && IsPng(blobs[j]) ==> |blobs[j]| <= |blobs[k]|)
              && (forall j :: 0 <= j < k && IsPng(blobs[j]) ==> |blobs[j]| < |blobs[k]|)
  {
    hide Build, EntryAt, StartsWith, BestOf, Unpack16;
    BuiltEntry(blobs, ico, 0);
    var entries := Entries(ico, |blobs|);
    forall j | 0 <= j < |blobs|
      ensures IsPngEntry(ico, entries[j]) <==> IsPng(blobs[j])
      ensures entries[j].size == |blobs[j]|
      ensures InRange(ico, entries[j]) && Payload(ico, entries[j]) == blobs[j]
    {
      BuiltEntry(blobs, ico, j);
    }
    k := BestIsFirstLongest(ico, entries);
  }

  // ---- The probe ----

  function Probe(png: seq<Byte>, probeBytes: int): seq<Byte> {
    var n := if probeBytes < 1 then 1 else probeBytes;
    if n <= |png| then png[..n] else png
  }

  /** `exe_embeds_icon_png`; an executable that is no file is None. */
  predicate ExeEmbedsIconPng(exe: Option<seq<Byte>>, png: seq<Byte>, probeBytes: int) {
    exe.Some? && png != [] && Contains(exe.value, Probe(png, probeBytes))
  }

  /** What is extracted begins with the eight bytes of a PNG file. */
  lemma ExtractedIsPng(ico: seq<Byte>)
    requires ExtractLargest(ico).Some?
    ensures IsPng(ExtractLargest(ico).value) && |ExtractLargest(ico).value| >= 8
    ensures ExtractLargest(ico).value[..8] == [0x89, 'P' as int, 'N' as int, 'G' as int, 13, 10, 26, 10]
  {
    hide EntryAt, BestOf;
    var entries := Entries(ico, EntryCount(ico).value);
    var k := BestIsFirstLongest(ico, entries);
  }

  ghost predicate StandsAt(haystack: seq<Byte>, needle: seq<Byte>, i: nat) {
    i + |needle| <= |haystack| && haystack[i..i + |needle|] == needle
  }

  lemma ContainedStands(haystack: seq<Byte>, needle: seq<Byte>)
    ensures Contains(haystack, needle) <==> exists i: nat :: StandsAt(haystack, needle, i)
  {
    forall i: nat | i <= |haystack|
      ensures StartsWith(haystack[i..], needle) <==> StandsAt(haystack, needle, i)
    {
      assert i + |needle| <= |haystack| ==> haystack[i..][..|needle|] == haystack[i..i + |needle|];
    }
    if i: nat :| StandsAt(haystack, needle, i) {
      assert StartsWith(haystack[i..], needle);
    }
  }

  /** The probe is true exactly when the first bytes of the payload, as many as asked for
      and at least one, stand somewhere in the executable. */
  lemma ProbeMeans(exe: seq<Byte>, png: seq<Byte>, probeBytes: int, n: nat)
    requires png != []
    requires n == if probeBytes < 1 then 1 else if probeBytes < |png| then probeBytes else |png|
    ensures ExeEmbedsIconPng(Some(exe), png, probeBytes) <==> exists i: nat :: StandsAt(exe, png[..n], i)
    ensures !ExeEmbedsIconPng(None, png, probeBytes) && !ExeEmbedsIconPng(Some(exe), [], probeBytes)
  {
    assert Probe(png, probeBytes) == png[..n];
    ContainedStands(exe, png[..n]);
    hide Contains, StandsAt;
  }

  /** An executable that contains what the reader extracted passes the probe, for
      every probe length. */
  lemma EmbeddedPayloadIsFound(ico: seq<Byte>, exe: seq<Byte>, probeBytes: int)
    requires ExtractLargest(ico).Some? && Contains(exe, ExtractLargest(ico).value)
    ensures ExeEmbedsIconPng(Some(exe), ExtractLargest(ico).value, probeBytes)
  {
    hide ExtractLargest;
    var png := ExtractLargest(ico).value;
    assert png != [] by {
      ExtractedIsPng(ico);
    }
    var needle := Probe(png, probeBytes);
    var i :| 0 <= i <= |exe| && StartsWith(exe[i..], png);
    assert png[..|needle|] == needle;
    assert exe[i..][..|needle|] == exe[i..][..|png|][..|needle|];
    assert StartsWith(exe[i..], needle);
  }
}
