/** scripts/sync_appcast_from_releases.py: the update feed is rebuilt from the
    published releases. */
module Appcast {
  import opened Text
  import opened PyLines
  import opened Order
  import opened Sidecar

  const InstallerPrefix: string := "BackupDatabase-Setup-"
  const ExeSuffix: string := ".exe"
  const ChecksumSuffix: string := ".sha256"

  datatype Asset = Asset(name: string, url: Option<string>, size: Option<int>)

  datatype Release = Release(draft: bool, prerelease: bool, tag: string, publishedAt: string, body: string,
                             assets: seq<Asset>)

  datatype ReleaseAsset = ReleaseAsset(name: string, url: string, size: int, sha256: string)

  datatype PublishedRelease = PublishedRelease(version: string, publishedAt: string, body: string, asset: ReleaseAsset)

  datatype Policy = Policy(blocked: set<string>, minSupported: Option<string>, rollout: map<string, int>,
                           minAge: map<string, int>)

  datatype Error =
    | AmbiguousInstaller | NoInstaller | BadMetadata | AmbiguousSidecar | NoSidecar
    | Download | BadSidecar | NaiveTimestamp | NoReleases | BadPubDate

  /** What `datetime.fromisoformat` makes of a timestamp: nothing, a moment without
      an offset, or an instant in microseconds. */
  datatype Reading = Unreadable | Naive | Instant(micros: int)

  /** The outside world during one build: downloadable texts by address, the
      reading of timestamps, and the current instant. */
  datatype World = World(web: map<string, string>, reading: string -> Reading, now: int)

  // ---- Policy ----

  function NormalizeVersion(tag: string): string {
    if StartsWith(tag, "v") then tag[1..] else tag
  }

  datatype Json = Text(text: string) | NotText

  /** `_parse_blocked` over the elements of the policy's array. */
  function ParseBlocked(raw: seq<Json>): set<string> {
    set j | j in raw && j.Text? && Trim(Python, j.text) != "" :: NormalizeVersion(Trim(Python, j.text))
  }

  // ---- One release ----

  predicate IsInstallerName(name: string) {
    && |name| >= |InstallerPrefix| + |ExeSuffix|
    && StartsWith(name, InstallerPrefix) && EndsWith(name, ExeSuffix)
  }

  function Select(assets: seq<Asset>, keep: Asset -> bool): (r: seq<Asset>)
    ensures forall a :: a in r <==> a in assets && keep(a)
  {
    if assets == [] then []
    else (if keep(assets[0]) then [assets[0]] else []) + Select(assets[1..], keep)
  }

  function ExeAssets(assets: seq<Asset>): seq<Asset> {
    Select(assets, (a: Asset) => EndsWith(a.name, ExeSuffix))
  }

  function PatternAssets(assets: seq<Asset>): seq<Asset> {
    Select(ExeAssets(assets), (a: Asset) => IsInstallerName(a.name))
  }

  function SidecarAssets(assets: seq<Asset>, name: string): seq<Asset> {
    Select(assets, (a: Asset) => a.name == name + ChecksumSuffix)
  }

  /** The installer among the assets: the only one that matches the pattern, or
      else the only executable. */
  function PickInstaller(assets: seq<Asset>): Result<Asset, Error> {
    var exe, matching := ExeAssets(assets), PatternAssets(assets);
    if |matching| == 1 then Ok(matching[0])
    else if |matching| > 1 then Err(AmbiguousInstaller)
    else if |exe| == 1 then Ok(exe[0])
    else Err(NoInstaller)
  }

  function ReadSidecar(sidecar: Asset, installerName: string, web: map<string, string>): Result<string, Error> {
    match sidecar.url
    case None => Err(BadSidecar)
    case Some(url) =>
      if url !in web then Err(Download)
      else
        match FirstDigest(SplitLines(web[url]), installerName)
        case None => Err(BadSidecar)
        case Some(digest) => Ok(digest)
  }

  function SelectInstallerAsset(assets: seq<Asset>, web: map<string, string>): Result<ReleaseAsset, Error> {
    match PickInstaller(assets)
    case Err(e) => Err(e)
    case Ok(selected) =>
      if selected.url.None? || selected.size.None? then Err(BadMetadata)
      else
        var sidecars := SidecarAssets(assets, selected.name);
        if |sidecars| > 1 then Err(AmbiguousSidecar)
        else if |sidecars| == 0 then Err(NoSidecar)
        else
          match ReadSidecar(sidecars[0], selected.name, web)
          case Err(e) => Err(e)
          case Ok(digest) => Ok(ReleaseAsset(selected.name, selected.url.value, selected.size.value, digest))
  }

  /** Whether a release is younger than its version's minimum age. A moment without
      an offset cannot be compared with the current instant. */
  function IsTooYoung(publishedAt: string, minAge: int, world: World): Result<bool, Error> {
    if minAge <= 0 || publishedAt == "" then Ok(false)
    else
      match world.reading(publishedAt)
      case Unreadable => Ok(false)
      case Naive => Err(NaiveTimestamp)
      case Instant(t) => Ok(world.now - t < minAge * 60 * 1_000_000)
  }

  function MinAge(policy: Policy, version: string): int {
    if version in policy.minAge then policy.minAge[version] else 0
  }

  /** What a release contributes to the feed: nothing, one candidate, or an error
      that ends the build. */
  function Candidate(r: Release, policy: Policy, world: World): Result<seq<PublishedRelease>, Error> {
    var version := NormalizeVersion(r.tag);
    if r.draft || r.prerelease || version == "" || version in policy.blocked then Ok([])
    else
      match IsTooYoung(r.publishedAt, MinAge(policy, version), world)
      case Err(e) => Err(e)
      case Ok(young) =>
        if young then Ok([])
        else
          match SelectInstallerAsset(r.assets, world.web)
          case Err(e) => Err(e)
          case Ok(asset) => Ok([PublishedRelease(version, r.publishedAt, Trim(Python, r.body), asset)])
  }

  function Candidates(releases: seq<Release>, policy: Policy, world: World): Result<seq<PublishedRelease>, Error> {
    if releases == [] then Ok([])
    else
      match Candidate(releases[0], policy, world)
      case Err(e) => Err(e)
      case Ok(first) =>
        match Candidates(releases[1..], policy, world)
        case Err(e) => Err(e)
        case Ok(rest) => Ok(first + rest)
  }

  // ---- Deduplication: an insertion-ordered dictionary by version ----

  function IndexOfVersion(d: seq<PublishedRelease>, version: string): (i: nat)
    ensures i <= |d| && (forall j :: 0 <= j < i ==> d[j].version != version)
    ensures i < |d| ==> d[i].version == version
  {
    if d == [] || d[0].version == version then 0 else 1 + IndexOfVersion(d[1..], version)
  }

  /** A newer release takes the place of the one first seen for its version. */
  function Upsert(d: seq<PublishedRelease>, r: PublishedRelease): seq<PublishedRelease> {
    var i := IndexOfVersion(d, r.version);
    if i == |d| then d + [r]
    else if Before(d[i].publishedAt, r.publishedAt) then d[i := r]
    else d
  }

  function Dedup(d: seq<PublishedRelease>, candidates: seq<PublishedRelease>): seq<PublishedRelease>
    decreases candidates
  {
    if candidates == [] then d else Dedup(Upsert(d, candidates[0]), candidates[1..])
  }

  // ---- Ordering: newest first, ties in dictionary order ----

  function Insert(r: PublishedRelease, sorted: seq<PublishedRelease>): seq<PublishedRelease> {
    if sorted == [] || !Before(r.publishedAt, sorted[0].publishedAt) then [r] + sorted
    else [sorted[0]] + Insert(r, sorted[1..])
  }

  function SortNewestFirst(s: seq<PublishedRelease>): seq<PublishedRelease> {
    if s == [] then [] else Insert(s[0], SortNewestFirst(s[1..]))
  }

  function Feed(candidates: seq<PublishedRelease>): seq<PublishedRelease> {
    SortNewestFirst(Dedup([], candidates))
  }

  function Build(releases: seq<Release>, policy: Policy, world: World): Result<seq<PublishedRelease>, Error> {
    match Candidates(releases, policy, world)
    case Err(e) => Err(e)
    case Ok(candidates) => if candidates == [] then Err(NoReleases) else Ok(Feed(candidates))
  }

  function Behind(seen: seq<PublishedRelease>, rest: Result<seq<PublishedRelease>, Error>)
    : Result<seq<PublishedRelease>, Error> {
    match rest
    case Err(e) => Err(e)
    case Ok(r) => Ok(seen + r)
  }

  lemma BehindNothing(seen: seq<PublishedRelease>, rest: Result<seq<PublishedRelease>, Error>)
    ensures Behind(seen, Behind([], rest)) == Behind(seen, rest) && Behind([], rest) == rest
    ensures rest.Ok? ==> [] + rest.value == rest.value
  {
    if rest.Ok? {
      assert [] + rest.value == rest.value;
    }
  }

  lemma BehindOne(seen: seq<PublishedRelease>, p: PublishedRelease, rest: Result<seq<PublishedRelease>, Error>)
    ensures rest.Ok? ==> seen + ([p] + rest.value) == (seen + [p]) + rest.value
  {
  }

  lemma BehindAll(seen: seq<PublishedRelease>, rest: Result<seq<PublishedRelease>, Error>)
    requires rest == Ok([])
    ensures Behind(seen, rest) == Ok(seen)
  {
    assert seen + [] == seen;
  }

  lemma {:induction false} DedupSnoc(d: seq<PublishedRelease>, a: seq<PublishedRelease>, r: PublishedRelease)
    ensures Dedup(d, a + [r]) == Upsert(Dedup(d, a), r)
    decreases a
  {
    hide Upsert;
    if a == [] {
      assert (a + [r])[1..] == [];
    } else {
      assert (a + [r])[0] == a[0] && (a + [r])[1..] == a[1..] + [r];
      DedupSnoc(Upsert(d, a[0]), a[1..], r);
    }
  }

  method BuildPublishedReleases(releases: seq<Release>, policy: Policy, world: World)
    returns (result: Result<seq<PublishedRelease>, Error>)
    ensures result == Build(releases, policy, world)
  {
    hide SelectInstallerAsset, IsTooYoung, NormalizeVersion, Trim, SortNewestFirst, Before;
    var byVersion: seq<PublishedRelease> := [];
    ghost var seen: seq<PublishedRelease> := [];
    var i := 0;
    assert releases[0..] == releases;
    BehindNothing(seen, Candidates(releases, policy, world));
    while i < |releases|
      invariant 0 <= i <= |releases|
      invariant byVersion == Dedup([], seen)
      invariant Candidates(releases, policy, world) == Behind(seen, Candidates(releases[i..], policy, world))
      invariant byVersion == [] <==> seen == []
    {
      var release := releases[i];
      assert releases[i..][0] == release && releases[i..][1..] == releases[i + 1..];
      BehindNothing(seen, Candidates(releases[i + 1..], policy, world));
      i := i + 1;
      if release.draft || release.prerelease {
        continue;
      }
      var version := NormalizeVersion(release.tag);
      if version == "" {
        continue;
      }
      if version in policy.blocked {
        continue;
      }
      var young := IsTooYoung(release.publishedAt, MinAge(policy, version), world);
      if young.Err? {
        return Err(young.error);
      }
      if young.value {
        continue;
      }
      var asset := SelectInstallerAsset(release.assets, world.web);
      if asset.Err? {
        return Err(asset.error);
      }
      var published := PublishedRelease(version, release.publishedAt, Trim(Python, release.body), asset.value);
      DedupSnoc([], seen, published);
      BehindOne(seen, published, Candidates(releases[i..], policy, world));
      seen := seen + [published];
      var existing := IndexOfVersion(byVersion, version);
      if existing == |byVersion| {
        byVersion := byVersion + [published];
      } else if Before(byVersion[existing].publishedAt, published.publishedAt) {
        byVersion := byVersion[existing := published];
      }
    }
    assert releases[i..] == [];
    BehindAll(seen, Candidates(releases[i..], policy, world));
    var ordered := SortNewestFirst(byVersion);
    if |byVersion| == 0 {
      return Err(NoReleases);
    }
    result := Ok(ordered);
  }
}
