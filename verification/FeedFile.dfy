/** The feed file: rebuilt by scripts/sync_appcast_from_releases.py and edited by
    scripts/update_appcast_manual.py. */
module FeedFile {
  import opened Text
  import opened Order
  import opened Sidecar
  import opened Appcast
  import opened AppcastTheorems

  datatype PubDate = Published(at: string) | Stamped(micros: int)

  datatype Enclosure = Enclosure(nsVersion: Option<string>, plainVersion: Option<string>, url: string, length: string,
                                 sha256: Option<string>, minSupported: Option<string>, rollout: Option<int>)

  /** A child of the channel element. */
  datatype Node =
    | Meta(tag: string, text: string)
    | Item(title: string, pubDate: PubDate, description: string, enclosure: Option<Enclosure>)

  const ReleaseNotes: string := "Automatic update via GitHub Release."

  function Header(repo: string): seq<Node> {
    [Meta("title", "Backup Database Updates"),
     Meta("link", "https://github.com/" + repo + "/releases"),
     Meta("description", "Backup Database updates feed")]
  }

  function Decimal(n: nat): string {
    (if n < 10 then "" else Decimal(n / 10)) + [('0' as int + n % 10) as char]
  }

  /** `str` of an integer. */
  function IntToString(n: int): string {
    if n < 0 then "-" + Decimal(-n) else Decimal(n)
  }

  /** The version an item stands for: the namespaced attribute unless absent or
      empty, else the plain one. */
  function ItemVersion(n: Node): Option<string> {
    if n.Meta? || n.enclosure.None? then None
    else
      match n.enclosure.value.nsVersion
      case Some(v) => if v != "" then Some(v) else n.enclosure.value.plainVersion
      case None => n.enclosure.value.plainVersion
  }

  // ---- Rendering ----

  function Clamp(n: int): int {
    if n < 0 then 0 else if n > 100 then 100 else n
  }

  function RenderItem(r: PublishedRelease, policy: Policy): Node {
    Item("Version " + r.version, Published(r.publishedAt), if r.body == "" then ReleaseNotes else r.body,
         Some(Enclosure(Some(r.version), None, r.asset.url, IntToString(r.asset.size), Some(r.asset.sha256),
                        if policy.minSupported == Some("") then None else policy.minSupported,
                        if r.version in policy.rollout then Some(Clamp(policy.rollout[r.version])) else None)))
  }

  function RenderItems(releases: seq<PublishedRelease>, policy: Policy, world: World): Result<seq<Node>, Error> {
    if releases == [] then Ok([])
    else if world.reading(releases[0].publishedAt) == Unreadable then Err(BadPubDate)
    else
      match RenderItems(releases[1..], policy, world)
      case Err(e) => Err(e)
      case Ok(rest) => Ok([RenderItem(releases[0], policy)] + rest)
  }

  method RenderAppcast(repo: string, releases: seq<PublishedRelease>, policy: Policy, world: World)
    returns (channel: Result<seq<Node>, Error>)
    ensures channel == match RenderItems(releases, policy, world)
                       case Err(e) => Err(e)
                       case Ok(items) => Ok(Header(repo) + items)
  {
    hide RenderItem, Header;
    var nodes := Header(repo);
    var i := 0;
    while i < |releases|
      invariant 0 <= i <= |releases|
      invariant match RenderItems(releases[i..], policy, world)
                case Err(e) => RenderItems(releases, policy, world) == Err(e)
                case Ok(rest) => RenderItems(releases, policy, world).Ok?
                                 && nodes + rest == Header(repo) + RenderItems(releases, policy, world).value
    {
      var r := releases[i];
      assert releases[i..][0] == r && releases[i..][1..] == releases[i + 1..];
      if world.reading(r.publishedAt) == Unreadable {
        return Err(BadPubDate);
      }
      ghost var rest := RenderItems(releases[i + 1..], policy, world);
      if rest.Ok? {
        assert nodes + ([RenderItem(r, policy)] + rest.value) == (nodes + [RenderItem(r, policy)]) + rest.value;
      }
      nodes := nodes + [RenderItem(r, policy)];
      i := i + 1;
    }
    assert releases[i..] == [] && nodes + [] == nodes;
    channel := Ok(nodes);
  }

  // ---- Removing a version ----

  predicate Matches(n: Node, version: string) {
    n.Item? && ItemVersion(n) == Some(version)
  }

  function WithoutVersion(channel: seq<Node>, version: string): seq<Node> {
    if channel == [] then []
    else if Matches(channel[0], version) then WithoutVersion(channel[1..], version)
    else [channel[0]] + WithoutVersion(channel[1..], version)
  }

  function Items(channel: seq<Node>): seq<Node> {
    if channel == [] then []
    else if channel[0].Item? then [channel[0]] + Items(channel[1..])
    else Items(channel[1..])
  }

  function Matching(items: seq<Node>, version: string): nat {
    if items == [] then 0 else (if Matches(items[0], version) then 1 else 0) + Matching(items[1..], version)
  }

  lemma MatchIsItem(n: Node, version: string)
    requires Matches(n, version)
    ensures n.Item?
  {
  }

  /** Every item is kept or counted as removed. */
  lemma {:induction false} RemovalsAddUp(channel: seq<Node>, version: string)
    ensures |WithoutVersion(channel, version)| + Matching(Items(channel), version) == |channel|
  {
    hide Matches;
    if channel != [] {
      RemovalsAddUp(channel[1..], version);
      if channel[0].Item? {
        assert Items(channel)[1..] == Items(channel[1..]);
      } else if Matches(channel[0], version) {
        MatchIsItem(channel[0], version);
      }
    }
  }

  function RemoveFirst(channel: seq<Node>, n: Node): seq<Node> {
    if channel == [] then []
    else if channel[0] == n then channel[1..]
    else [channel[0]] + RemoveFirst(channel[1..], n)
  }

  function RemoveEach(channel: seq<Node>, items: seq<Node>, version: string): seq<Node>
    decreases items
  {
    if items == [] then channel
    else RemoveEach(if Matches(items[0], version) then RemoveFirst(channel, items[0]) else channel, items[1..], version)
  }

  lemma {:induction false} RemoveBehind(kept: seq<Node>, n: Node, rest: seq<Node>)
    requires n !in kept
    ensures RemoveFirst(kept + [n] + rest, n) == kept + rest
  {
    var s := kept + [n] + rest;
    if kept == [] {
      assert s[0] == n && s[1..] == rest;
    } else {
      assert s[0] == kept[0] && s[1..] == kept[1..] + [n] + rest;
      RemoveBehind(kept[1..], n, rest);
    }
  }

  /** Removing one by one, from a snapshot, leaves what a filter leaves. */
  lemma {:induction false} RemoveEachIsFilter(kept: seq<Node>, rest: seq<Node>, version: string)
    requires forall n :: n in kept ==> !Matches(n, version)
    ensures RemoveEach(kept + rest, Items(rest), version) == kept + WithoutVersion(rest, version)
    decreases rest
  {
    hide Matches;
    if rest != [] {
      var n, tail := rest[0], rest[1..];
      assert kept + rest == kept + [n] + tail;
      if Matches(n, version) {
        assert n.Item? by {
          MatchIsItem(n, version);
        }
        RemoveBehind(kept, n, tail);
        RemoveEachIsFilter(kept, tail, version);
        assert Items(rest)[1..] == Items(tail);
      } else {
        RemoveEachIsFilter(kept + [n], tail, version);
        assert n.Item? ==> Items(rest)[1..] == Items(tail);
        assert kept + [n] + WithoutVersion(tail, version) == kept + ([n] + WithoutVersion(tail, version));
      }
    } else {
      assert kept + rest == kept;
    }
  }

  // ---- The two writers ----

  function ManualItem(version: string, url: string, size: string, sha256: string, now: int): Node {
    Item("Version " + version, Stamped(now),
         "<![CDATA[<h2>New Version " + version + "</h2><p>" + ReleaseNotes + "</p>]]>",
         Some(Enclosure(Some(version), None, url, size, Some(sha256), None, None)))
  }

  const ManualRepo: string := "cesar-carlos/backup_database"

  datatype Edit =
    | Rebuild(repo: string, releases: seq<Release>, policy: Policy, world: World)
    | Manual(version: string, url: string, size: string, sha256: string, now: int)

  /** The file: missing, or XML with a channel. A root that carries the declaration of
      its name space as an attribute of its own is written with the declaration twice,
      and no reader parses that. */
  datatype File = Missing | Xml(channel: seq<Node>, parses: bool)

  /** What a manual update with this digest can work on. */
  predicate IsEditable(file: File, digest: string) {
    IsDigest(digest) && (file.Missing? || file.parses)
  }

  /** The feed file after one edit; an edit that fails leaves the file alone. The file
      that a manual update creates is the one that carries the declaration twice. */
  function Apply(file: File, edit: Edit): File {
    match edit
    case Rebuild(repo, releases, policy, world) =>
      (match Build(releases, policy, world)
       case Err(_) => file
       case Ok(listed) =>
         match RenderItems(listed, policy, world)
         case Err(_) => file
         case Ok(items) => Xml(Header(repo) + items, true))
    case Manual(version, url, size, sha256, now) =>
      var digest := Fold(Trim(Python, sha256));
      if !IsEditable(file, digest) then file
      else
        var channel := if file.Xml? then file.channel else Header(ManualRepo);
        Xml([ManualItem(version, url, size, digest, now)] + WithoutVersion(channel, version), file.Xml?)
  }

  function Run(file: File, edits: seq<Edit>): File
    decreases edits
  {
    if edits == [] then file else Run(Apply(file, edits[0]), edits[1..])
  }

  /** The channel element of a parsed feed. */
  class Channel {
    var nodes: seq<Node>

    constructor (nodes: seq<Node>)
      ensures this.nodes == nodes
    {
      this.nodes := nodes;
    }

    method RemoveExistingVersionItems(version: string) returns (removed: nat)
      modifies this
      ensures nodes == WithoutVersion(old(nodes), version)
      ensures removed == |old(nodes)| - |nodes|
    {
      hide Matches;
      removed := 0;
      var snapshot := Items(nodes);
      ghost var all := RemoveEach(nodes, snapshot, version);
      var i := 0;
      assert snapshot[0..] == snapshot;
      while i < |snapshot|
        invariant 0 <= i <= |snapshot|
        invariant removed + Matching(snapshot[i..], version) == Matching(snapshot, version)
        invariant RemoveEach(nodes, snapshot[i..], version) == all
      {
        var item := snapshot[i];
        assert snapshot[i..][0] == item && snapshot[i..][1..] == snapshot[i + 1..];
        if Matches(item, version) {
          nodes := RemoveFirst(nodes, item);
          removed := removed + 1;
        }
        i := i + 1;
      }
      assert snapshot[i..] == [];
      ghost var before := old(nodes);
      RemoveEachIsFilter([], before, version);
      RemovalsAddUp(before, version);
      assert [] + before == before && [] + WithoutVersion(before, version) == WithoutVersion(before, version);
    }

    method Insert(n: Node)
      modifies this
      ensures nodes == [n] + old(nodes)
    {
      nodes := [n] + nodes;
    }
  }

  class AppcastFile {
    var file: File

    constructor (file: File)
      ensures this.file == file
    {
      this.file := file;
    }

    method Sync(repo: string, releases: seq<Release>, policy: Policy, world: World) returns (exit: int)
      modifies this
      ensures file == Apply(old(file), Rebuild(repo, releases, policy, world))
      ensures exit == if Build(releases, policy, world).Ok?
                         && RenderItems(Build(releases, policy, world).value, policy, world).Ok? then 0 else 1
      ensures exit != 0 ==> file == old(file)
    {
      hide Build, RenderItems;
      var built := BuildPublishedReleases(releases, policy, world);
      if built.Err? {
        return 1;
      }
      var rendered := RenderAppcast(repo, built.value, policy, world);
      if rendered.Err? {
        return 1;
      }
      file := Xml(rendered.value, true);
      exit := 0;
    }

    method UpdateAppcast(version: string, url: string, size: string, sha256: string, now: int) returns (exit: int)
      modifies this
      ensures file == Apply(old(file), Manual(version, url, size, sha256, now))
      ensures exit == if IsEditable(old(file), Fold(Trim(Python, sha256))) then 0 else 1
    {
      hide IsDigest, Trim, Fold, ManualItem;
      var digest := Fold(Trim(Python, sha256));
      if !IsDigest(digest) {
        return 1;
      }
      if file.Xml? && !file.parses {
        return 1;
      }
      var channel := new Channel(if file.Xml? then file.channel else Header(ManualRepo));
      var removed := channel.RemoveExistingVersionItems(version);
      channel.Insert(ManualItem(version, url, size, digest, now));
      file := Xml(channel.nodes, file.Xml?);
      exit := 0;
    }
  }

  // ---- What every feed keeps ----

  ghost predicate HasDigest(n: Node) {
    n.Item? ==> n.enclosure.Some? && n.enclosure.value.sha256.Some? && IsDigest(n.enclosure.value.sha256.value)
  }

  /** At most one item per version, and a digest of 64 lower-case digits on each. */
  ghost predicate FeedOk(channel: seq<Node>) {
    && (forall i :: 0 <= i < |channel| ==> HasDigest(channel[i]))
    && (forall i, j :: 0 <= i < j < |channel| && ItemVersion(channel[i]).Some? ==>
          ItemVersion(channel[i]) != ItemVersion(channel[j]))
  }

  lemma {:induction false} WithoutVersionElements(channel: seq<Node>, version: string)
    ensures forall n :: n in WithoutVersion(channel, version) <==> n in channel && !Matches(n, version)
  {
    hide Matches;
    if channel != [] {
      WithoutVersionElements(channel[1..], version);
      assert forall n :: n in channel <==> n == channel[0] || n in channel[1..];
    }
  }

  lemma {:induction false} WithoutVersionIsOk(channel: seq<Node>, version: string)
    requires FeedOk(channel)
    ensures FeedOk(WithoutVersion(channel, version))
  {
    hide Matches, HasDigest, ItemVersion;
    if channel != [] {
      var tail := channel[1..];
      assert FeedOk(tail) by {
        assert forall i :: 0 <= i < |tail| ==> tail[i] == channel[i + 1];
      }
      WithoutVersionIsOk(tail, version);
      WithoutVersionElements(tail, version);
      var r := WithoutVersion(tail, version);
      if !Matches(channel[0], version) {
        forall j | 0 <= j < |r| && ItemVersion(channel[0]).Some?
          ensures ItemVersion(channel[0]) != ItemVersion(r[j])
        {
          assert r[j] in r;
          var k :| 0 <= k < |tail| && tail[k] == r[j];
          assert channel[k + 1] == r[j];
        }
      }
    }
  }

  lemma ManualKeepsFeed(channel: seq<Node>, version: string, url: string, size: string, digest: string, now: int)
    requires FeedOk(channel) && IsDigest(digest)
    ensures FeedOk([ManualItem(version, url, size, digest, now)] + WithoutVersion(channel, version))
  {
    var item, r := ManualItem(version, url, size, digest, now), WithoutVersion(channel, version);
    assert HasDigest(item) && (ItemVersion(item).Some? ==> ItemVersion(item) == Some(version));
    hide IsDigest, ManualItem, HasDigest;
    WithoutVersionIsOk(channel, version);
    WithoutVersionElements(channel, version);
    forall j | 0 <= j < |r| && ItemVersion(item).Some?
      ensures ItemVersion(item) != ItemVersion(r[j])
    {
      assert r[j] in r && !Matches(r[j], version);
    }
  }

  lemma {:induction false} CandidatesHaveDigests(rs: seq<Release>, policy: Policy, world: World)
    requires Candidates(rs, policy, world).Ok?
    ensures forall x :: x in Candidates(rs, policy, world).value ==> x.version != "" && IsDigest(x.asset.sha256)
  {
    hide SelectInstallerAsset, IsDigest, IsTooYoung;
    if rs != [] {
      CandidatesHaveDigests(rs[1..], policy, world);
      if Candidate(rs[0], policy, world).value != [] {
        SelectedAssetHasDigest(rs[0].assets, world.web);
      }
    }
  }

  lemma BuiltReleases(rs: seq<Release>, policy: Policy, world: World, i: nat)
    requires Build(rs, policy, world).Ok? && i < |Build(rs, policy, world).value|
    ensures var feed := Build(rs, policy, world).value;
            && feed[i].version != "" && IsDigest(feed[i].asset.sha256)
            && forall j :: i < j < |feed| ==> feed[i].version != feed[j].version
  {
    hide Candidates, Feed, IsDigest;
    var c := Candidates(rs, policy, world).value;
    CandidatesHaveDigests(rs, policy, world);
    FeedMeetsSpecification(c);
    var k: nat :| Chosen(c, k) && c[k] == Feed(c)[i];
    forall j | i < j < |Feed(c)|
      ensures Feed(c)[i].version != Feed(c)[j].version
    {
      FeedVersionsDiffer(c, Feed(c), i, j);
    }
  }

  lemma {:induction false} RenderedItems(feed: seq<PublishedRelease>, policy: Policy, world: World)
    requires RenderItems(feed, policy, world).Ok?
    ensures var items := RenderItems(feed, policy, world).value;
            |items| == |feed| && forall i :: 0 <= i < |feed| ==> items[i] == RenderItem(feed[i], policy)
  {
    hide RenderItem;
    if feed != [] {
      RenderedItems(feed[1..], policy, world);
    }
  }

  lemma RenderedItemFacts(r: PublishedRelease, policy: Policy)
    requires r.version != "" && IsDigest(r.asset.sha256)
    ensures HasDigest(RenderItem(r, policy)) && ItemVersion(RenderItem(r, policy)) == Some(r.version)
  {
  }

  lemma RebuiltFeedIsOk(repo: string, rs: seq<Release>, policy: Policy, world: World)
    requires Build(rs, policy, world).Ok? && RenderItems(Build(rs, policy, world).value, policy, world).Ok?
    ensures FeedOk(Header(repo) + RenderItems(Build(rs, policy, world).value, policy, world).value)
  {
    hide Build, RenderItem, IsDigest, RenderItems;
    var feed := Build(rs, policy, world).value;
    var items := RenderItems(feed, policy, world).value;
    RenderedItems(feed, policy, world);
    var channel := Header(repo) + items;
    forall i | 0 <= i < |feed|
      ensures HasDigest(items[i]) && ItemVersion(items[i]) == Some(feed[i].version)
    {
      BuiltReleases(rs, policy, world, i);
      RenderedItemFacts(feed[i], policy);
    }
    forall i, j | 0 <= i < j < |feed|
      ensures feed[i].version != feed[j].version
    {
      BuiltReleases(rs, policy, world, i);
    }
    assert forall i :: 3 <= i < |channel| ==> channel[i] == items[i - 3];
  }

  lemma HeaderIsOk(repo: string)
    ensures FeedOk(Header(repo))
  {
  }

  /** Feed evolution: every interleaving of rebuilds and manual updates keeps at
      most one item per version and only well-formed digests. */
  lemma {:induction false} EditsKeepFeed(file: File, edits: seq<Edit>)
    requires file.Xml? ==> FeedOk(file.channel)
    ensures Run(file, edits).Xml? ==> FeedOk(Run(file, edits).channel)
    decreases edits
  {
    hide FeedOk, Build, RenderItems, IsDigest, ManualItem, WithoutVersion;
    if edits != [] {
      match edits[0] {
        case Rebuild(repo, releases, policy, world) =>
          if Build(releases, policy, world).Ok?
             && RenderItems(Build(releases, policy, world).value, policy, world).Ok? {
            RebuiltFeedIsOk(repo, releases, policy, world);
          }
        case Manual(version, url, size, sha256, now) =>
          var digest := Fold(Trim(Python, sha256));
          HeaderIsOk(ManualRepo);
          if IsDigest(digest) {
            ManualKeepsFeed(if file.Xml? then file.channel else Header(ManualRepo), version, url, size, digest, now);
          }
      }
      EditsKeepFeed(Apply(file, edits[0]), edits[1..]);
    }
  }

  /** A rebuild that succeeds. */
  predicate Rebuilds(edit: Edit) {
    && edit.Rebuild? && Build(edit.releases, edit.policy, edit.world).Ok?
    && RenderItems(Build(edit.releases, edit.policy, edit.world).value, edit.policy, edit.world).Ok?
  }

  lemma ParsesAfter(file: File, edit: Edit)
    requires file.Xml?
    ensures Apply(file, edit).Xml?
    ensures Apply(file, edit).parses <==> file.parses || Rebuilds(edit)
    ensures !Apply(file, edit).parses ==> Apply(file, edit) == file
  {
    hide Build, RenderItems;
  }

  /** A file that does not parse stays as it is, whatever the edits, until a rebuild
      succeeds; from then on it parses. */
  lemma {:induction false} OnlyRebuildsRepair(file: File, edits: seq<Edit>)
    requires file.Xml?
    ensures Run(file, edits).Xml?
    ensures Run(file, edits).parses <==> file.parses || exists i :: 0 <= i < |edits| && Rebuilds(edits[i])
    ensures !Run(file, edits).parses ==> Run(file, edits) == file
    decreases edits
  {
    hide Build, RenderItems, Rebuilds, IsDigest, ManualItem, WithoutVersion;
    if edits != [] {
      ParsesAfter(file, edits[0]);
      OnlyRebuildsRepair(Apply(file, edits[0]), edits[1..]);
      assert forall i :: 1 <= i < |edits| ==> edits[i] == edits[1..][i - 1];
      if Run(file, edits).parses && !file.parses && !Rebuilds(edits[0]) {
        var i :| 0 <= i < |edits[1..]| && Rebuilds(edits[1..][i]);
        assert Rebuilds(edits[i + 1]);
      }
    }
  }

  /** A manual update of a missing file makes one that no later manual update can
      read. */
  lemma SecondManualUpdateFails(first: Edit, second: Edit)
    requires first.Manual? && second.Manual? && IsDigest(Fold(Trim(Python, first.sha256)))
    ensures Apply(Missing, first).Xml? && Apply(Apply(Missing, first), second) == Apply(Missing, first)
    ensures !IsEditable(Apply(Missing, first), Fold(Trim(Python, second.sha256)))
  {
  }

  // ---- What an edit leaves alone ----

  /** The node is an item whose enclosure carries this version: in the name space's
      attribute, or in the plain one when that is absent or empty. */
  ghost predicate CarriesVersion(n: Node, version: string) {
    && n.Item? && n.enclosure.Some?
    && var e := n.enclosure.value;
       if e.nsVersion.Some? && e.nsVersion.value != "" then e.nsVersion.value == version
       else e.plainVersion == Some(version)
  }

  lemma MatchMeans(n: Node, version: string)
    ensures Matches(n, version) <==> CarriesVersion(n, version)
  {
  }

  /** Filtering out a version drops each node that carries it and keeps every other one,
      between the same neighbours. */
  lemma {:induction false} WithoutVersionAt(before: seq<Node>, n: Node, after: seq<Node>, version: string)
    ensures WithoutVersion(before + [n] + after, version)
         == WithoutVersion(before, version) + (if CarriesVersion(n, version) then [] else [n])
            + WithoutVersion(after, version)
  {
    hide Matches, CarriesVersion;
    MatchMeans(n, version);
    var all, r := before + [n] + after, WithoutVersion(after, version);
    if before == [] {
      assert all[0] == n && all[1..] == after;
    } else {
      assert all[0] == before[0] && all[1..] == before[1..] + [n] + after;
      WithoutVersionAt(before[1..], n, after, version);
      var kept, middle := WithoutVersion(before[1..], version), if CarriesVersion(n, version) then [] else [n];
      assert [before[0]] + (kept + middle + r) == ([before[0]] + kept) + middle + r;
    }
  }

  /** A new file begins with the same header whichever script writes it. */
  lemma HeadersAgree(repo: string)
    requires repo == "cesar-carlos/backup_database"
    ensures Header(repo) == Header(ManualRepo)
    ensures Header(repo) == [Meta("title", "Backup Database Updates"),
                             Meta("link", "https://github.com/" + "cesar-carlos/backup_database" + "/releases"),
                             Meta("description", "Backup Database updates feed")]
  {
  }

  // ---- What the items say ----

  lemma {:induction false} DecimalIsRead(n: nat)
    ensures AllDigits(Decimal(n)) && Number(Decimal(n)) == n
    ensures Decimal(n) != "" && (n > 0 ==> Decimal(n)[0] != '0')
  {
    var s, d := Decimal(n), ('0' as int + n % 10) as char;
    if n >= 10 {
      DecimalIsRead(n / 10);
      assert s == Decimal(n / 10) + [d];
    } else {
      assert s == [d];
    }
    assert s[..|s| - 1] == if n >= 10 then Decimal(n / 10) else "";
  }

  /** `text` is the integer `n` in decimal digits, without leading zeros. */
  ghost predicate Writes(text: string, n: int) {
    if n < 0 then text != "" && text[0] == '-' && Writes(text[1..], -n)
    else
      && text != "" && AllDigits(text) && Number(text) == n
      && (n > 0 ==> text[0] != '0')
  }

  lemma NaturalIsWritten(n: nat)
    ensures Writes(Decimal(n), n)
  {
    DecimalIsRead(n);
    hide AllDigits, Number, Decimal;
  }

  lemma IntegerIsWritten(n: int)
    ensures Writes(IntToString(n), n)
  {
    if n < 0 {
      NaturalIsWritten(-n);
      hide AllDigits, Number, Decimal;
      assert IntToString(n)[1..] == Decimal(-n);
    } else {
      NaturalIsWritten(n);
    }
  }

  /** The item says of a release what the client needs: its version, where its installer
      is, how long and with which digest. */
  ghost predicate Offers(n: Node, version: string, url: string, size: string, sha256: string) {
    && n.Item? && n.title == "Version " + version && n.enclosure.Some?
    && var e := n.enclosure.value;
       e.nsVersion == Some(version) && e.plainVersion == None && e.url == url && e.length == size
       && e.sha256 == Some(sha256)
  }

  /** The policy's part of an item: the least version that may update, unless it is
      empty, and the share of the rollout, no less than none and no more than all. */
  ghost predicate FollowsPolicy(n: Node, version: string, policy: Policy) {
    && n.Item? && n.enclosure.Some?
    && var e := n.enclosure.value;
       && (e.minSupported.Some? <==> policy.minSupported.Some? && policy.minSupported.value != "")
       && (e.minSupported.Some? ==> e.minSupported == policy.minSupported)
       && (e.rollout.Some? <==> version in policy.rollout)
       && (e.rollout.Some? ==>
             && 0 <= e.rollout.value <= 100
             && (0 <= policy.rollout[version] <= 100 ==> e.rollout.value == policy.rollout[version])
             && (policy.rollout[version] < 0 ==> e.rollout.value == 0)
             && (policy.rollout[version] > 100 ==> e.rollout.value == 100))
  }

  function Described(body: string): string {
    if body == "" then "Automatic update via GitHub Release." else body
  }

  /** The item of an eligible release: its version is that of the tag, the address and
      the length are those of the installer, the digest is the one its sidecar gives. */
  ghost predicate IsFeedItem(n: Node, r: Release, a: Asset, version: string, size: string, policy: Policy,
                             world: World) {
    && Eligible(r, policy, world) && IsVersionOf(version, r.tag) && IsInstallerOf(a, r.assets)
    && SelectInstallerAsset(r.assets, world.web).Ok?
    && a.url.Some? && a.size.Some? && Writes(size, a.size.value)
    && Offers(n, version, a.url.value, size, SelectInstallerAsset(r.assets, world.web).value.sha256)
    && FollowsPolicy(n, version, policy)
    && n.pubDate == Published(r.publishedAt)
    && n.description == Described(Trim(Python, r.body))
  }

  lemma RenderedItemOffers(x: PublishedRelease, policy: Policy)
    ensures var n := RenderItem(x, policy);
            && Offers(n, x.version, x.asset.url, IntToString(x.asset.size), x.asset.sha256)
            && FollowsPolicy(n, x.version, policy)
            && n.pubDate == Published(x.publishedAt) && n.description == Described(x.body)
  {
    hide IntToString;
  }

  lemma ItemOfRelease(x: PublishedRelease, r: Release, policy: Policy, world: World) returns (a: Asset)
    requires Eligible(r, policy, world) && IsItemOf(x, r, world)
    ensures IsFeedItem(RenderItem(x, policy), r, a, x.version, IntToString(x.asset.size), policy, world)
  {
    hide Eligible, SelectInstallerAsset, Trim, Writes, Offers, FollowsPolicy, RenderItem, NormalizeVersion, IsVersionOf,
         IsInstallerOf, Described, IntToString;
    VersionOfTag(r.tag, x.version);
    var installer, sidecar := SelectedAssetIsReleased(r.assets, world.web);
    a := installer;
    IntegerIsWritten(x.asset.size);
    RenderedItemOffers(x, policy);
  }

  lemma HeaderLength(repo: string)
    ensures |Header(repo)| == 3 && forall i :: 0 <= i < 3 ==> Header(repo)[i].Meta?
  {
  }

  /** Each item of a rebuilt file is that of an eligible release. */
  lemma RebuiltItemOffers(repo: string, rs: seq<Release>, policy: Policy, world: World, i: nat)
    returns (r: Release, a: Asset, version: string, size: string)
    requires Build(rs, policy, world).Ok? && RenderItems(Build(rs, policy, world).value, policy, world).Ok?
    requires i < |Build(rs, policy, world).value|
    ensures var channel := Header(repo) + RenderItems(Build(rs, policy, world).value, policy, world).value;
            && |channel| == 3 + |Build(rs, policy, world).value|
            && r in rs && IsFeedItem(channel[3 + i], r, a, version, size, policy, world)
  {
    hide Build, RenderItems, RenderItem, Header, Eligible, IsItemOf, IsFeedItem;
    var feed := Build(rs, policy, world).value;
    FeedListsEligible(rs, policy, world);
    assert FromEligible(rs, policy, world, feed[i]);
    r :| r in rs && Eligible(r, policy, world) && IsItemOf(feed[i], r, world);
    a := ItemOfRelease(feed[i], r, policy, world);
    version, size := feed[i].version, IntToString(feed[i].asset.size);
    RenderedItems(feed, policy, world);
    HeaderLength(repo);
  }

  /** A manual update puts one item in front, which offers what was given. */
  lemma ManualItemOffers(file: File, version: string, url: string, size: string, sha256: string, now: int)
    requires IsEditable(file, Fold(Trim(Python, sha256)))
    ensures var after := Apply(file, Manual(version, url, size, sha256, now));
            && after.Xml? && after.channel != []
            && Offers(after.channel[0], version, url, size, Fold(Trim(Python, sha256)))
            && after.channel[0].description
               == "<![CDATA[<h2>New Version " + version + "</h2><p>"
                  + "Automatic update via GitHub Release." + "</p>]]>"
            && after.channel[0].pubDate == Stamped(now)
  {
    hide Trim, Fold, IsDigest;
  }
}
