/** What the feed lists, and how it reacts to policy edits, to the order of the
    release list and to time. */
module AppcastTheorems {
  import opened Text
  import opened Order
  import opened PyLines
  import opened Sidecar
  import opened Appcast
  import Timestamps

  // ---- The specification of a feed ----

  /** `c[i]` is the release listed for its version: no release of that version is
      newer, and none before it is as new. */
  ghost predicate Chosen(c: seq<PublishedRelease>, i: nat) {
    && i < |c|
    && (forall j :: 0 <= j < |c| && c[j].version == c[i].version ==> !Before(c[i].publishedAt, c[j].publishedAt))
    && (forall j :: 0 <= j < i && c[j].version == c[i].version ==> Before(c[j].publishedAt, c[i].publishedAt))
  }

  ghost predicate HasVersion(c: seq<PublishedRelease>, version: string) {
    exists i :: 0 <= i < |c| && c[i].version == version
  }

  ghost predicate IsChosen(c: seq<PublishedRelease>, r: PublishedRelease) {
    exists i: nat :: Chosen(c, i) && c[i] == r
  }

  /** `a` may stand before `b`: it is newer, or as new and its version was seen first. */
  ghost predicate MayPrecede(c: seq<PublishedRelease>, a: PublishedRelease, b: PublishedRelease) {
    || Before(b.publishedAt, a.publishedAt)
    || (a.publishedAt == b.publishedAt && IndexOfVersion(c, a.version) < IndexOfVersion(c, b.version))
  }

  ghost predicate IsFeedOf(c: seq<PublishedRelease>, feed: seq<PublishedRelease>) {
    && (forall v :: HasVersion(c, v) <==> HasVersion(feed, v))
    && (forall i :: 0 <= i < |feed| ==> IsChosen(c, feed[i]))
    && (forall i, j :: 0 <= i < j < |feed| ==> MayPrecede(c, feed[i], feed[j]))
  }

  // ---- The dictionary ----

  /** The dictionary after the candidates `c`: versions in the order in which they
      were first seen, each with its chosen release. */
  ghost predicate IsDictOf(c: seq<PublishedRelease>, d: seq<PublishedRelease>) {
    && (forall v :: HasVersion(c, v) <==> HasVersion(d, v))
    && (forall i :: 0 <= i < |d| ==> IsChosen(c, d[i]))
    && (forall i, j :: 0 <= i < j < |d| ==> IndexOfVersion(c, d[i].version) < IndexOfVersion(c, d[j].version))
  }

  lemma {:induction false} IndexOfSnoc(c: seq<PublishedRelease>, r: PublishedRelease, version: string)
    ensures IndexOfVersion(c + [r], version)
         == if IndexOfVersion(c, version) < |c| then IndexOfVersion(c, version)
            else if r.version == version then |c| else |c| + 1
  {
    var i := IndexOfVersion(c + [r], version);
    var k := IndexOfVersion(c, version);
    assert forall j :: 0 <= j < |c| ==> (c + [r])[j] == c[j];
    assert (c + [r])[|c|] == r;
  }

  lemma HasVersionSnoc(c: seq<PublishedRelease>, r: PublishedRelease, v: string)
    ensures HasVersion(c + [r], v) <==> HasVersion(c, v) || r.version == v
  {
    assert (c + [r])[|c|] == r;
    if i :| 0 <= i < |c| && c[i].version == v {
      assert (c + [r])[i] == c[i];
    }
  }

  /** Whether the release chosen for a version survives one more candidate. */
  lemma ChosenSnoc(c: seq<PublishedRelease>, r: PublishedRelease, i: nat)
    requires Chosen(c, i)
    ensures c[i].version != r.version || !Before(c[i].publishedAt, r.publishedAt) ==> Chosen(c + [r], i)
    ensures c[i].version == r.version && Before(c[i].publishedAt, r.publishedAt) ==> Chosen(c + [r], |c|)
  {
    var e := c + [r];
    assert forall j :: 0 <= j < |c| ==> e[j] == c[j];
    assert e[|c|] == r;
    if c[i].version == r.version && Before(c[i].publishedAt, r.publishedAt) {
      forall j | 0 <= j < |c| && c[j].version == r.version
        ensures Before(c[j].publishedAt, r.publishedAt) && !Before(r.publishedAt, c[j].publishedAt)
      {
        BeforeIsOrder(c[i].publishedAt, c[j].publishedAt, r.publishedAt);
        BeforeIsOrder(c[j].publishedAt, c[i].publishedAt, r.publishedAt);
        BeforeIsOrder(c[j].publishedAt, r.publishedAt, r.publishedAt);
      }
      BeforeIsOrder(r.publishedAt, r.publishedAt, r.publishedAt);
    }
  }

  lemma ChosenFirst(c: seq<PublishedRelease>, r: PublishedRelease)
    requires !HasVersion(c, r.version)
    ensures Chosen(c + [r], |c|)
  {
    var e := c + [r];
    assert e[|c|] == r;
    forall j | 0 <= j < |c|
      ensures e[j].version != r.version
    {
      assert e[j] == c[j];
    }
    BeforeIsOrder(r.publishedAt, r.publishedAt, r.publishedAt);
  }

  lemma UpsertVersions(c: seq<PublishedRelease>, d: seq<PublishedRelease>, r: PublishedRelease)
    requires IsDictOf(c, d)
    ensures forall v :: HasVersion(c + [r], v) <==> HasVersion(Upsert(d, r), v)
  {
    var i, u := IndexOfVersion(d, r.version), Upsert(d, r);
    forall v
      ensures HasVersion(c + [r], v) <==> HasVersion(u, v)
    {
      HasVersionSnoc(c, r, v);
      if i == |d| {
        HasVersionSnoc(d, r, v);
      } else {
        assert d[i].version == r.version && |u| == |d| && forall j :: 0 <= j < |d| ==> u[j].version == d[j].version;
        assert HasVersion(d, v) <==> HasVersion(u, v) by {
          if j :| 0 <= j < |d| && d[j].version == v {
            assert u[j].version == v;
          }
          if j :| 0 <= j < |u| && u[j].version == v {
            assert d[j].version == v;
          }
        }
      }
    }
  }

  lemma SameVersionSameSlot(c: seq<PublishedRelease>, d: seq<PublishedRelease>, i: nat, k: nat)
    requires IsDictOf(c, d) && i < |d| && k < |d| && d[i].version == d[k].version
    ensures i == k
  {
  }

  lemma UpsertChosen(c: seq<PublishedRelease>, d: seq<PublishedRelease>, r: PublishedRelease, k: nat)
    requires IsDictOf(c, d) && k < |Upsert(d, r)|
    ensures IsChosen(c + [r], Upsert(d, r)[k])
  {
    hide Before;
    var i, u := IndexOfVersion(d, r.version), Upsert(d, r);
    assert (c + [r])[|c|] == r;
    if k < |d| {
      var m: nat :| Chosen(c, m) && c[m] == d[k];
      ChosenSnoc(c, r, m);
      assert (c + [r])[m] == c[m];
      if d[k].version == r.version {
        SameVersionSameSlot(c, d, i, k);
      }
    } else {
      assert !HasVersion(d, r.version);
      ChosenFirst(c, r);
    }
  }

  lemma IndexIsPresence(c: seq<PublishedRelease>, v: string)
    ensures IndexOfVersion(c, v) < |c| <==> HasVersion(c, v)
  {
  }

  lemma UpsertSlots(d: seq<PublishedRelease>, r: PublishedRelease)
    ensures |d| <= |Upsert(d, r)| <= |d| + 1
    ensures forall j :: 0 <= j < |d| ==> Upsert(d, r)[j].version == d[j].version
    ensures |Upsert(d, r)| > |d| ==> Upsert(d, r)[|d|] == r && !HasVersion(d, r.version)
  {
  }

  lemma UpsertOrder(c: seq<PublishedRelease>, d: seq<PublishedRelease>, r: PublishedRelease)
    requires IsDictOf(c, d)
    ensures forall i, j :: 0 <= i < j < |Upsert(d, r)| ==>
              IndexOfVersion(c + [r], Upsert(d, r)[i].version) < IndexOfVersion(c + [r], Upsert(d, r)[j].version)
  {
    UpsertSlots(d, r);
    hide Before, Upsert, IndexOfVersion, IsChosen;
    var u := Upsert(d, r);
    forall i, j | 0 <= i < j < |u|
      ensures IndexOfVersion(c + [r], u[i].version) < IndexOfVersion(c + [r], u[j].version)
    {
      IndexOfSnoc(c, r, u[i].version);
      IndexOfSnoc(c, r, u[j].version);
      IndexIsPresence(c, u[i].version);
      IndexIsPresence(c, u[j].version);
      assert HasVersion(d, d[i].version);
      if j < |d| {
        assert HasVersion(d, d[j].version);
      }
    }
  }

  lemma {:induction false} DedupIsDict(c: seq<PublishedRelease>)
    ensures IsDictOf(c, Dedup([], c))
  {
    hide Upsert, IsChosen, IndexOfVersion;
    if c == [] {
      assert forall v :: !HasVersion(c, v);
    } else {
      var n := |c| - 1;
      var r, d := c[n], Dedup([], c[..n]);
      DedupIsDict(c[..n]);
      assert c == c[..n] + [r];
      DedupSnoc([], c[..n], r);
      UpsertVersions(c[..n], d, r);
      UpsertOrder(c[..n], d, r);
      forall k | 0 <= k < |Upsert(d, r)|
        ensures IsChosen(c, Upsert(d, r)[k])
      {
        UpsertChosen(c[..n], d, r, k);
      }
    }
  }

  // ---- The stable sort ----

  ghost predicate Ordered(c: seq<PublishedRelease>, s: seq<PublishedRelease>) {
    forall i, j :: 0 <= i < j < |s| ==> MayPrecede(c, s[i], s[j])
  }

  lemma MayPrecedeIsTransitive(c: seq<PublishedRelease>, x: PublishedRelease, y: PublishedRelease, z: PublishedRelease)
    requires MayPrecede(c, x, y) && MayPrecede(c, y, z)
    ensures MayPrecede(c, x, z)
  {
    hide Before;
    BeforeIsOrder(z.publishedAt, y.publishedAt, x.publishedAt);
  }

  lemma {:induction false} InsertKeepsElements(r: PublishedRelease, s: seq<PublishedRelease>)
    ensures forall x :: x in Insert(r, s) <==> x == r || x in s
    ensures |Insert(r, s)| == |s| + 1
  {
    hide Before;
    if s != [] && Before(r.publishedAt, s[0].publishedAt) {
      InsertKeepsElements(r, s[1..]);
      assert forall x :: x in s <==> x == s[0] || x in s[1..];
    }
  }

  lemma {:induction false} InsertOrdered(c: seq<PublishedRelease>, r: PublishedRelease, s: seq<PublishedRelease>)
    requires Ordered(c, s)
    requires forall x :: x in s ==> IndexOfVersion(c, r.version) < IndexOfVersion(c, x.version)
    ensures Ordered(c, Insert(r, s))
  {
    hide Before, IndexOfVersion;
    if s != [] {
      BeforeIsOrder(r.publishedAt, s[0].publishedAt, r.publishedAt);
      if Before(r.publishedAt, s[0].publishedAt) {
        InsertOrdered(c, r, s[1..]);
        InsertKeepsElements(r, s[1..]);
        var t := Insert(r, s[1..]);
        forall j | 0 <= j < |t|
          ensures MayPrecede(c, s[0], t[j])
        {
          assert t[j] in t;
          if t[j] != r {
            var k :| 0 <= k < |s[1..]| && s[1..][k] == t[j];
            assert s[k + 1] == t[j];
          }
        }
      } else {
        assert s[0] in s && MayPrecede(c, r, s[0]);
        forall j | 0 <= j < |s|
          ensures MayPrecede(c, r, s[j])
        {
          if j > 0 {
            MayPrecedeIsTransitive(c, r, s[0], s[j]);
          }
        }
      }
    }
  }

  lemma {:induction false} SortIsOrdered(c: seq<PublishedRelease>, d: seq<PublishedRelease>)
    requires forall i, j :: 0 <= i < j < |d| ==> IndexOfVersion(c, d[i].version) < IndexOfVersion(c, d[j].version)
    ensures Ordered(c, SortNewestFirst(d))
    ensures forall x :: x in SortNewestFirst(d) <==> x in d
  {
    hide Insert, IndexOfVersion;
    if d != [] {
      SortIsOrdered(c, d[1..]);
      InsertKeepsElements(d[0], SortNewestFirst(d[1..]));
      assert forall x :: x in d <==> x == d[0] || x in d[1..];
      forall x | x in d[1..]
        ensures IndexOfVersion(c, d[0].version) < IndexOfVersion(c, x.version)
      {
        var k :| 0 <= k < |d[1..]| && d[1..][k] == x;
        assert d[k + 1] == x;
      }
      InsertOrdered(c, d[0], SortNewestFirst(d[1..]));
    }
  }

  lemma SameElementsSameVersions(a: seq<PublishedRelease>, b: seq<PublishedRelease>)
    requires forall x :: x in a <==> x in b
    ensures forall v :: HasVersion(a, v) <==> HasVersion(b, v)
  {
    forall v
      ensures HasVersion(a, v) <==> HasVersion(b, v)
    {
      if i :| 0 <= i < |a| && a[i].version == v {
        assert a[i] in b;
      }
      if i :| 0 <= i < |b| && b[i].version == v {
        assert b[i] in a;
      }
    }
  }

  /** The feed meets its specification: every version of an eligible release, once,
      with its newest release, newest first, ties in the order of first sight. */
  lemma FeedMeetsSpecification(c: seq<PublishedRelease>)
    ensures IsFeedOf(c, Feed(c))
  {
    hide IsChosen, MayPrecede, IndexOfVersion, SortNewestFirst, HasVersion;
    var d := Dedup([], c);
    DedupIsDict(c);
    SortIsOrdered(c, d);
    SameElementsSameVersions(d, Feed(c));
    forall i | 0 <= i < |Feed(c)|
      ensures IsChosen(c, Feed(c)[i])
    {
      assert Feed(c)[i] in d;
    }
  }

  lemma ChosenIsUnique(c: seq<PublishedRelease>, a: PublishedRelease, b: PublishedRelease)
    requires IsChosen(c, a) && IsChosen(c, b) && a.version == b.version
    ensures a == b
  {
    hide Before;
    var i: nat :| Chosen(c, i) && c[i] == a;
    var j: nat :| Chosen(c, j) && c[j] == b;
    BeforeIsOrder(a.publishedAt, b.publishedAt, a.publishedAt);
  }

  /** A version is listed at most once. */
  lemma FeedVersionsDiffer(c: seq<PublishedRelease>, feed: seq<PublishedRelease>, i: nat, j: nat)
    requires IsFeedOf(c, feed) && i < j < |feed|
    ensures feed[i].version != feed[j].version
  {
    hide Before;
    assert MayPrecede(c, feed[i], feed[j]);
    if feed[i].version == feed[j].version {
      ChosenIsUnique(c, feed[i], feed[j]);
      BeforeIsOrder(feed[i].publishedAt, feed[j].publishedAt, feed[i].publishedAt);
    }
  }

  // ---- One feed per list of candidates ----

  lemma NotBeforeItself(c: seq<PublishedRelease>, x: PublishedRelease)
    ensures !MayPrecede(c, x, x)
  {
    BeforeIsOrder(x.publishedAt, x.publishedAt, x.publishedAt);
  }

  lemma FirstsAgree(c: seq<PublishedRelease>, f: seq<PublishedRelease>, g: seq<PublishedRelease>, k: nat, m: nat)
    requires Ordered(c, f) && Ordered(c, g) && k < |g| && m < |f| && g[k] == f[0] && f[m] == g[0]
    ensures f[0] == g[0]
  {
    hide MayPrecede;
    if k > 0 && m > 0 {
      MayPrecedeIsTransitive(c, f[0], g[0], f[0]);
      NotBeforeItself(c, f[0]);
    }
  }

  lemma TailElements(c: seq<PublishedRelease>, f: seq<PublishedRelease>, x: PublishedRelease)
    requires Ordered(c, f) && f != []
    ensures x in f[1..] <==> x in f && x != f[0]
  {
    hide MayPrecede;
    NotBeforeItself(c, f[0]);
    if i :| 0 <= i < |f[1..]| && f[1..][i] == x {
      assert f[i + 1] == x;
    }
  }

  lemma {:induction false} OrderedIsUnique(c: seq<PublishedRelease>, f: seq<PublishedRelease>, g: seq<PublishedRelease>)
    requires Ordered(c, f) && Ordered(c, g) && forall x :: x in f <==> x in g
    ensures f == g
  {
    hide MayPrecede;
    if f == [] {
      assert forall i :: 0 <= i < |g| ==> g[i] in g;
    } else {
      assert f[0] in g;
      var k :| 0 <= k < |g| && g[k] == f[0];
      assert g[0] in f;
      var m :| 0 <= m < |f| && f[m] == g[0];
      FirstsAgree(c, f, g, k, m);
      forall x
        ensures x in f[1..] <==> x in g[1..]
      {
        TailElements(c, f, x);
        TailElements(c, g, x);
      }
      OrderedIsUnique(c, f[1..], g[1..]);
      assert f == [f[0]] + f[1..] && g == [g[0]] + g[1..];
    }
  }

  lemma FeedElements(c: seq<PublishedRelease>, f: seq<PublishedRelease>, g: seq<PublishedRelease>, x: PublishedRelease)
    requires IsFeedOf(c, f) && IsFeedOf(c, g) && x in f
    ensures x in g
  {
    hide IsChosen, MayPrecede;
    var i :| 0 <= i < |f| && f[i] == x;
    assert HasVersion(f, x.version);
    var j :| 0 <= j < |g| && g[j].version == x.version;
    ChosenIsUnique(c, x, g[j]);
  }

  /** The specification leaves no choice: it determines the feed. */
  lemma FeedIsDetermined(c: seq<PublishedRelease>, f: seq<PublishedRelease>)
    requires IsFeedOf(c, f)
    ensures f == Feed(c)
  {
    hide IsChosen, MayPrecede, HasVersion, Feed;
    FeedMeetsSpecification(c);
    forall x
      ensures x in f <==> x in Feed(c)
    {
      if x in f {
        FeedElements(c, f, Feed(c), x);
      }
      if x in Feed(c) {
        FeedElements(c, Feed(c), f, x);
      }
    }
    OrderedIsUnique(c, f, Feed(c));
  }

  // ---- Independence from the order of the release list ----

  ghost predicate DistinctTimes(c: seq<PublishedRelease>) {
    forall i, j :: 0 <= i < j < |c| ==> c[i].publishedAt != c[j].publishedAt
  }

  lemma {:induction false} DistinctTimesCount(c: seq<PublishedRelease>, x: PublishedRelease)
    requires DistinctTimes(c)
    ensures multiset(c)[x] <= 1
  {
    if c != [] {
      assert c == [c[0]] + c[1..];
      DistinctTimesCount(c[1..], x);
      assert forall k :: 0 <= k < |c[1..]| ==> c[1..][k] == c[k + 1];
    }
  }

  lemma DistinctTimesPermute(c: seq<PublishedRelease>, e: seq<PublishedRelease>)
    requires multiset(c) == multiset(e) && DistinctTimes(c)
    ensures DistinctTimes(e)
  {
    forall i, j | 0 <= i < j < |e|
      ensures e[i].publishedAt != e[j].publishedAt
    {
      if e[i].publishedAt == e[j].publishedAt {
        assert e[i] in multiset(c) && e[j] in multiset(c);
        assert e[i] == e[j];
        assert e == e[..j] + e[j..] && e[i] in e[..j] && e[j] in e[j..];
        DistinctTimesCount(c, e[i]);
      }
    }
  }

  lemma PermutedChosen(c: seq<PublishedRelease>, e: seq<PublishedRelease>, x: PublishedRelease)
    requires (forall y :: y in c <==> y in e) && DistinctTimes(e) && IsChosen(c, x)
    ensures x in c && IsChosen(e, x)
  {
    hide Before;
    var i: nat :| Chosen(c, i) && c[i] == x;
    assert x in e;
    var m :| 0 <= m < |e| && e[m] == x;
    forall j | 0 <= j < |e| && e[j].version == x.version
      ensures !Before(x.publishedAt, e[j].publishedAt)
      ensures j < m ==> Before(e[j].publishedAt, x.publishedAt)
    {
      assert e[j] in c;
      BeforeIsOrder(x.publishedAt, e[j].publishedAt, x.publishedAt);
    }
    assert Chosen(e, m);
  }

  lemma PermutedFeed(c: seq<PublishedRelease>, e: seq<PublishedRelease>, f: seq<PublishedRelease>)
    requires multiset(c) == multiset(e) && DistinctTimes(c) && IsFeedOf(c, f)
    ensures IsFeedOf(e, f)
  {
    hide Before, IndexOfVersion;
    DistinctTimesPermute(c, e);
    assert forall x :: x in c <==> x in multiset(c);
    assert forall x :: x in e <==> x in multiset(e);
    SameElementsSameVersions(c, e);
    forall i | 0 <= i < |f|
      ensures f[i] in c && IsChosen(e, f[i])
    {
      PermutedChosen(c, e, f[i]);
    }
    forall i, j | 0 <= i < j < |f|
      ensures MayPrecede(e, f[i], f[j])
    {
      assert MayPrecede(c, f[i], f[j]);
      FeedVersionsDiffer(c, f, i, j);
      var a :| 0 <= a < |c| && c[a] == f[i];
      var b :| 0 <= b < |c| && c[b] == f[j];
    }
  }

  lemma {:induction false} CandidatesOfConcat(a: seq<Release>, b: seq<Release>, policy: Policy, world: World)
    requires || Candidates(a + b, policy, world).Ok?
             || (Candidates(a, policy, world).Ok? && Candidates(b, policy, world).Ok?)
    ensures Candidates(a, policy, world).Ok? && Candidates(b, policy, world).Ok?
    ensures Candidates(a + b, policy, world)
         == Ok(Candidates(a, policy, world).value + Candidates(b, policy, world).value)
  {
    hide Candidate;
    if a == [] {
      assert a + b == b;
      if Candidates(b, policy, world).Ok? {
        assert [] + Candidates(b, policy, world).value == Candidates(b, policy, world).value;
      }
    } else {
      assert (a + b)[0] == a[0] && (a + b)[1..] == a[1..] + b;
      CandidatesOfConcat(a[1..], b, policy, world);
      var x, y, z := Candidate(a[0], policy, world).value, Candidates(a[1..], policy, world).value,
                     Candidates(b, policy, world).value;
      assert x + (y + z) == (x + y) + z;
    }
  }

  lemma OneRemoved(a: seq<Release>, b: seq<Release>, k: nat)
    requires a != [] && k < |b| && b[k] == a[0] && multiset(a) == multiset(b)
    ensures a == [a[0]] + a[1..] && b == b[..k] + ([a[0]] + b[k + 1..])
    ensures multiset(a[1..]) == multiset(b[..k] + b[k + 1..])
  {
    assert a == [a[0]] + a[1..];
    assert b == b[..k] + ([a[0]] + b[k + 1..]);
    assert multiset(a) == multiset{a[0]} + multiset(a[1..]);
    assert multiset(b) == multiset(b[..k]) + (multiset{a[0]} + multiset(b[k + 1..]));
    assert multiset(b) - multiset{a[0]} == multiset(b[..k]) + multiset(b[k + 1..]);
    assert multiset(a) - multiset{a[0]} == multiset(a[1..]);
  }

  lemma {:induction false} CandidatesPermute(a: seq<Release>, b: seq<Release>, policy: Policy, world: World)
    requires multiset(a) == multiset(b) && Candidates(a, policy, world).Ok?
    ensures Candidates(b, policy, world).Ok?
    ensures multiset(Candidates(a, policy, world).value) == multiset(Candidates(b, policy, world).value)
  {
    hide Candidate;
    if a == [] {
      assert b == [] by {
        assert |multiset(b)| == |b|;
      }
    } else {
      assert a[0] in multiset(b);
      var k :| 0 <= k < |b| && b[k] == a[0];
      var x, l, r := [a[0]], b[..k], b[k + 1..];
      OneRemoved(a, b, k);
      CandidatesOfConcat(x, a[1..], policy, world);
      CandidatesPermute(a[1..], l + r, policy, world);
      CandidatesOfConcat(l, r, policy, world);
      CandidatesOfConcat(x, r, policy, world);
      CandidatesOfConcat(l, x + r, policy, world);
    }
  }

  /** The order of the API's release list does not matter when no two eligible
      releases carry the same timestamp. */
  lemma BuildIgnoresApiOrder(a: seq<Release>, b: seq<Release>, policy: Policy, world: World)
    requires multiset(a) == multiset(b) && Build(a, policy, world).Ok?
    requires DistinctTimes(Candidates(a, policy, world).value)
    ensures Build(b, policy, world) == Build(a, policy, world)
  {
    hide Candidates, DistinctTimes, Feed;
    CandidatesPermute(a, b, policy, world);
    var c, e := Candidates(a, policy, world).value, Candidates(b, policy, world).value;
    FeedMeetsSpecification(c);
    PermutedFeed(c, e, Feed(c));
    FeedIsDetermined(e, Feed(c));
    assert |multiset(c)| == |c| && |multiset(e)| == |e|;
  }

  // ---- Rolling a version back ----

  function Without(s: seq<PublishedRelease>, version: string): seq<PublishedRelease> {
    if s == [] then []
    else if s[0].version == version then Without(s[1..], version)
    else [s[0]] + Without(s[1..], version)
  }

  function Block(policy: Policy, version: string): Policy {
    policy.(blocked := policy.blocked + {version})
  }

  lemma WithoutCons(x: PublishedRelease, s: seq<PublishedRelease>, v: string)
    ensures Without([x] + s, v) == if x.version == v then Without(s, v) else [x] + Without(s, v)
  {
    assert ([x] + s)[1..] == s;
  }

  lemma {:induction false} WithoutOfConcat(a: seq<PublishedRelease>, b: seq<PublishedRelease>, v: string)
    ensures Without(a + b, v) == Without(a, v) + Without(b, v)
  {
    if a == [] {
      assert a + b == b;
    } else {
      assert (a + b)[0] == a[0] && (a + b)[1..] == a[1..] + b;
      WithoutOfConcat(a[1..], b, v);
    }
  }

  lemma CandidateBlocked(r: Release, policy: Policy, world: World, v: string)
    requires Candidate(r, policy, world).Ok?
    ensures Candidate(r, Block(policy, v), world) == Ok(Without(Candidate(r, policy, world).value, v))
  {
    hide SelectInstallerAsset, IsTooYoung, NormalizeVersion, Trim;
    var c := Candidate(r, policy, world).value;
    if c != [] {
      assert c == [c[0]] + [] && Without([], v) == [];
      WithoutCons(c[0], [], v);
      assert [c[0]] + [] == c;
    }
  }

  lemma {:induction false} CandidatesBlocked(rs: seq<Release>, policy: Policy, world: World, v: string)
    requires Candidates(rs, policy, world).Ok?
    ensures Candidates(rs, Block(policy, v), world) == Ok(Without(Candidates(rs, policy, world).value, v))
  {
    hide Candidate;
    if rs != [] {
      CandidateBlocked(rs[0], policy, world, v);
      CandidatesBlocked(rs[1..], policy, world, v);
      WithoutOfConcat(Candidate(rs[0], policy, world).value, Candidates(rs[1..], policy, world).value, v);
    }
  }

  lemma UpsertStep(d: seq<PublishedRelease>, r: PublishedRelease)
    requires d != [] && d[0].version != r.version
    ensures Upsert(d, r) == [d[0]] + Upsert(d[1..], r)
  {
    hide Before;
    var i := IndexOfVersion(d[1..], r.version);
    assert IndexOfVersion(d, r.version) == i + 1;
    assert i < |d[1..]| ==> d[i + 1] == d[1..][i];
  }

  lemma UpsertAtFront(d: seq<PublishedRelease>, r: PublishedRelease)
    requires d != [] && d[0].version == r.version
    ensures Upsert(d, r) == [if Before(d[0].publishedAt, r.publishedAt) then r else d[0]] + d[1..]
  {
    hide Before;
    assert IndexOfVersion(d, r.version) == 0;
  }

  lemma {:induction false} UpsertWithout(d: seq<PublishedRelease>, r: PublishedRelease, v: string)
    ensures Without(Upsert(d, r), v) == if r.version == v then Without(d, v) else Upsert(Without(d, v), r)
  {
    hide Before;
    if d == [] {
      assert Upsert([], r) == [r] + [];
      WithoutCons(r, [], v);
    } else if d[0].version == r.version {
      UpsertAtFront(d, r);
      WithoutCons(Upsert(d, r)[0], d[1..], v);
      if r.version != v {
        UpsertAtFront(Without(d, v), r);
      }
    } else {
      UpsertStep(d, r);
      UpsertWithout(d[1..], r, v);
      WithoutCons(d[0], Upsert(d[1..], r), v);
      if d[0].version != v && r.version != v {
        UpsertStep(Without(d, v), r);
      }
    }
  }

  lemma {:induction false} DedupWithout(d: seq<PublishedRelease>, c: seq<PublishedRelease>, v: string)
    ensures Without(Dedup(d, c), v) == Dedup(Without(d, v), Without(c, v))
    decreases c
  {
    hide Upsert;
    if c != [] {
      UpsertWithout(d, c[0], v);
      DedupWithout(Upsert(d, c[0]), c[1..], v);
    }
  }

  ghost predicate NewestFirst(s: seq<PublishedRelease>) {
    forall i, j :: 0 <= i < j < |s| ==> !Before(s[i].publishedAt, s[j].publishedAt)
  }

  lemma {:induction false} WithoutElements(s: seq<PublishedRelease>, v: string)
    ensures forall x :: x in Without(s, v) <==> x in s && x.version != v
  {
    if s != [] {
      WithoutElements(s[1..], v);
      assert forall x :: x in s <==> x == s[0] || x in s[1..];
    }
  }

  lemma InsertInFront(r: PublishedRelease, s: seq<PublishedRelease>)
    requires forall x :: x in s ==> !Before(r.publishedAt, x.publishedAt)
    ensures Insert(r, s) == [r] + s
  {
    if s != [] {
      assert s[0] in s;
    }
  }

  lemma {:induction false} InsertWithout(r: PublishedRelease, s: seq<PublishedRelease>, v: string)
    requires NewestFirst(s)
    ensures Without(Insert(r, s), v) == if r.version == v then Without(s, v) else Insert(r, Without(s, v))
  {
    hide Before;
    if s == [] || !Before(r.publishedAt, s[0].publishedAt) {
      WithoutCons(r, s, v);
      if s != [] && r.version != v {
        forall x | x in Without(s, v)
          ensures !Before(r.publishedAt, x.publishedAt)
        {
          WithoutElements(s, v);
          var k :| 0 <= k < |s| && s[k] == x;
          BeforeIsOrder(x.publishedAt, s[0].publishedAt, r.publishedAt);
          BeforeIsOrder(r.publishedAt, x.publishedAt, s[0].publishedAt);
          BeforeIsOrder(s[0].publishedAt, x.publishedAt, r.publishedAt);
        }
        InsertInFront(r, Without(s, v));
      }
    } else {
      InsertWithout(r, s[1..], v);
      WithoutCons(s[0], Insert(r, s[1..]), v);
    }
  }

  lemma {:induction false} InsertNewestFirst(r: PublishedRelease, s: seq<PublishedRelease>)
    requires NewestFirst(s)
    ensures NewestFirst(Insert(r, s))
  {
    hide Before;
    if s != [] {
      BeforeIsOrder(r.publishedAt, s[0].publishedAt, r.publishedAt);
      if Before(r.publishedAt, s[0].publishedAt) {
        InsertNewestFirst(r, s[1..]);
        InsertKeepsElements(r, s[1..]);
        var t := Insert(r, s[1..]);
        forall j | 0 <= j < |t|
          ensures !Before(s[0].publishedAt, t[j].publishedAt)
        {
          assert t[j] in t;
          if t[j] != r {
            var k :| 0 <= k < |s[1..]| && s[1..][k] == t[j];
            assert s[k + 1] == t[j];
          }
        }
      } else {
        forall j | 0 <= j < |s|
          ensures !Before(r.publishedAt, s[j].publishedAt)
        {
          BeforeIsOrder(s[0].publishedAt, s[j].publishedAt, r.publishedAt);
          BeforeIsOrder(r.publishedAt, s[j].publishedAt, s[0].publishedAt);
          BeforeIsOrder(s[j].publishedAt, s[0].publishedAt, r.publishedAt);
        }
      }
    }
  }

  lemma {:induction false} SortWithout(d: seq<PublishedRelease>, v: string)
    ensures NewestFirst(SortNewestFirst(d))
    ensures Without(SortNewestFirst(d), v) == SortNewestFirst(Without(d, v))
  {
    hide Insert;
    if d != [] {
      SortWithout(d[1..], v);
      InsertNewestFirst(d[0], SortNewestFirst(d[1..]));
      InsertWithout(d[0], SortNewestFirst(d[1..]), v);
    }
  }

  lemma FeedIsEmptyTogether(c: seq<PublishedRelease>)
    ensures Feed(c) == [] <==> c == []
  {
    hide Feed, IsChosen, MayPrecede;
    FeedMeetsSpecification(c);
    if c != [] {
      assert HasVersion(c, c[0].version);
    } else {
      assert Feed(c) != [] ==> HasVersion(Feed(c), Feed(c)[0].version);
    }
  }

  lemma WithoutNothing(v: string)
    ensures Without([], v) == []
  {
  }

  /** Rolling back a version hides its item and changes nothing else: the other
      items keep their contents and their order. */
  lemma RollbackHidesOneVersion(rs: seq<Release>, policy: Policy, world: World, v: string)
    requires Build(rs, policy, world).Ok?
    ensures var listed := Build(rs, policy, world).value;
            Build(rs, Block(policy, v), world)
            == if Without(listed, v) == [] then Err(NoReleases) else Ok(Without(listed, v))
  {
    hide Candidates, Dedup, SortNewestFirst, Without;
    var c := Candidates(rs, policy, world).value;
    CandidatesBlocked(rs, policy, world, v);
    DedupWithout([], c, v);
    assert Without([], v) == [] by {
      WithoutNothing(v);
    }
    SortWithout(Dedup([], c), v);
    FeedIsEmptyTogether(Without(c, v));
  }

  /** Adding an entry to the policy file's array blocks its version, written with or
      without the `v` of the tag. */
  lemma PolicyEntryBlocks(raw: seq<Json>, entry: string)
    requires Trim(Python, entry) != ""
    ensures ParseBlocked(raw + [Json.Text(entry)]) == ParseBlocked(raw) + {NormalizeVersion(Trim(Python, entry))}
  {
    hide NormalizeVersion, Trim;
    var all := raw + [Json.Text(entry)];
    assert all[|raw|] == Json.Text(entry);
    assert forall j :: j in all <==> j in raw || j == Json.Text(entry);
  }

  // ---- Time ----

  lemma CandidateStays(r: Release, policy: Policy, world: World, later: World)
    requires later == world.(now := later.now) && world.now <= later.now
    requires Candidate(r, policy, world).Ok? && Candidate(r, policy, later).Ok?
    ensures Candidate(r, policy, world).value == [] || Candidate(r, policy, later) == Candidate(r, policy, world)
  {
    hide SelectInstallerAsset, NormalizeVersion, Trim;
  }

  lemma {:induction false} CandidatesStay(rs: seq<Release>, policy: Policy, world: World, later: World,
                                          x: PublishedRelease)
    requires later == world.(now := later.now) && world.now <= later.now
    requires Candidates(rs, policy, world).Ok? && Candidates(rs, policy, later).Ok?
    requires x in Candidates(rs, policy, world).value
    ensures x in Candidates(rs, policy, later).value
  {
    hide Candidate;
    CandidateStays(rs[0], policy, world, later);
    if x !in Candidate(rs[0], policy, world).value {
      CandidatesStay(rs[1..], policy, world, later, x);
    }
  }

  /** Under one policy and one release list, a later build lists every version an
      earlier one listed, with the same release or a newer one. */
  lemma FeedGrowsWithTime(rs: seq<Release>, policy: Policy, world: World, later: World, i: nat) returns (j: nat)
    requires later == world.(now := later.now) && world.now <= later.now
    requires Build(rs, policy, world).Ok? && Build(rs, policy, later).Ok?
    requires i < |Build(rs, policy, world).value|
    ensures j < |Build(rs, policy, later).value|
    ensures var a, b := Build(rs, policy, world).value[i], Build(rs, policy, later).value[j];
            b.version == a.version && (b == a || !Before(b.publishedAt, a.publishedAt))
  {
    hide Candidates, Feed, MayPrecede, Before;
    var c, e := Candidates(rs, policy, world).value, Candidates(rs, policy, later).value;
    FeedMeetsSpecification(c);
    FeedMeetsSpecification(e);
    var a := Feed(c)[i];
    assert IsChosen(c, a);
    CandidatesStay(rs, policy, world, later, a);
    var k :| 0 <= k < |e| && e[k] == a;
    assert HasVersion(e, a.version);
    j :| 0 <= j < |Feed(e)| && Feed(e)[j].version == a.version;
    assert IsChosen(e, Feed(e)[j]);
  }

  ghost predicate AllTimestamps(c: seq<PublishedRelease>) {
    forall i :: 0 <= i < |c| ==> Timestamps.Parse(c[i].publishedAt).Some?
  }

  function InstantOf(r: PublishedRelease): int
    requires Timestamps.Parse(r.publishedAt).Some?
  {
    Timestamps.Seconds(Timestamps.Parse(r.publishedAt).value)
  }

  /** With well-formed timestamps the string comparisons mean instants: each item is
      the latest release of its version, and the feed runs from new to old. */
  lemma FeedIsChronological(c: seq<PublishedRelease>, i: nat, j: nat, k: nat)
    requires AllTimestamps(c) && i <= j < |Feed(c)| && k < |c|
    ensures Feed(c)[i] in c && Feed(c)[j] in c
    ensures InstantOf(Feed(c)[i]) >= InstantOf(Feed(c)[j])
    ensures c[k].version == Feed(c)[i].version ==> InstantOf(Feed(c)[i]) >= InstantOf(c[k])
  {
    hide Feed, IndexOfVersion, Before, Timestamps.Parse;
    FeedMeetsSpecification(c);
    var a, b := Feed(c)[i], Feed(c)[j];
    assert IsChosen(c, a) && IsChosen(c, b) && (i < j ==> MayPrecede(c, a, b));
    Timestamps.StringOrderIsChronological(b.publishedAt, a.publishedAt);
    Timestamps.StringOrderIsChronological(a.publishedAt, c[k].publishedAt);
  }

  // ---- Which releases are listed ----

  /** Younger than its version's minimum age. */
  ghost predicate HeldBack(publishedAt: string, minAge: int, world: World) {
    && minAge > 0 && publishedAt != "" && world.reading(publishedAt).Instant?
    && world.now - world.reading(publishedAt).micros < minAge * 60_000_000
  }

  ghost predicate Eligible(r: Release, policy: Policy, world: World) {
    var version := NormalizeVersion(r.tag);
    && !r.draft && !r.prerelease && version != "" && version !in policy.blocked
    && !HeldBack(r.publishedAt, MinAge(policy, version), world)
  }

  /** An eligible release that ends the build: its age cannot be told, or it has no
      installer with a digest. */
  ghost predicate Broken(r: Release, policy: Policy, world: World) {
    && Eligible(r, policy, world)
    && (SelectInstallerAsset(r.assets, world.web).Err?
        || (MinAge(policy, NormalizeVersion(r.tag)) > 0 && r.publishedAt != "" && world.reading(r.publishedAt).Naive?))
  }

  ghost predicate IsItemOf(x: PublishedRelease, r: Release, world: World) {
    && x.version == NormalizeVersion(r.tag) && x.publishedAt == r.publishedAt && x.body == Trim(Python, r.body)
    && SelectInstallerAsset(r.assets, world.web) == Ok(x.asset)
  }

  lemma CandidateIsEligible(r: Release, policy: Policy, world: World)
    ensures Candidate(r, policy, world).Err? <==> Broken(r, policy, world)
    ensures Candidate(r, policy, world).Ok? ==>
              var c := Candidate(r, policy, world).value;
              if Eligible(r, policy, world) then |c| == 1 && IsItemOf(c[0], r, world) else c == []
  {
    hide SelectInstallerAsset, Trim, NormalizeVersion;
  }

  /** `x` is the item of some eligible release. */
  ghost predicate FromEligible(rs: seq<Release>, policy: Policy, world: World, x: PublishedRelease) {
    exists r :: r in rs && Eligible(r, policy, world) && IsItemOf(x, r, world)
  }

  /** Some item of `r` is among the candidates. */
  ghost predicate HasItem(c: seq<PublishedRelease>, r: Release, world: World) {
    exists i :: 0 <= i < |c| && IsItemOf(c[i], r, world)
  }

  lemma FromFront(rs: seq<Release>, policy: Policy, world: World, x: PublishedRelease)
    requires rs != []
    ensures Eligible(rs[0], policy, world) && IsItemOf(x, rs[0], world) ==> FromEligible(rs, policy, world, x)
    ensures FromEligible(rs[1..], policy, world, x) ==> FromEligible(rs, policy, world, x)
  {
    hide Eligible, IsItemOf;
    assert forall q :: q in rs[1..] ==> q in rs;
  }

  lemma ItemInConcat(a: seq<PublishedRelease>, b: seq<PublishedRelease>, r: Release, world: World)
    ensures a != [] && IsItemOf(a[0], r, world) ==> HasItem(a + b, r, world)
    ensures HasItem(b, r, world) ==> HasItem(a + b, r, world)
  {
    hide IsItemOf;
    assert a != [] ==> (a + b)[0] == a[0];
    if i :| 0 <= i < |b| && IsItemOf(b[i], r, world) {
      assert (a + b)[|a| + i] == b[i];
    }
  }

  lemma {:induction false} CandidatesAreEligible(rs: seq<Release>, policy: Policy, world: World)
    requires Candidates(rs, policy, world).Ok?
    ensures var c := Candidates(rs, policy, world).value;
            && (forall i :: 0 <= i < |c| ==> FromEligible(rs, policy, world, c[i]))
            && (forall r :: r in rs && Eligible(r, policy, world) ==> HasItem(c, r, world))
  {
    hide Candidate, Eligible, IsItemOf, HasItem, FromEligible;
    if rs != [] {
      var r, tail := rs[0], rs[1..];
      CandidateIsEligible(r, policy, world);
      CandidatesAreEligible(tail, policy, world);
      var first, rest := Candidate(r, policy, world).value, Candidates(tail, policy, world).value;
      forall i | 0 <= i < |first + rest|
        ensures FromEligible(rs, policy, world, (first + rest)[i])
      {
        FromFront(rs, policy, world, (first + rest)[i]);
        assert (first + rest)[i] == if i < |first| then first[i] else rest[i - |first|];
      }
      forall q | q in rs && Eligible(q, policy, world)
        ensures HasItem(first + rest, q, world)
      {
        ItemInConcat(first, rest, q, world);
        assert q == r || q in tail;
      }
    }
  }

  ghost predicate SomeBroken(rs: seq<Release>, policy: Policy, world: World) {
    exists r :: r in rs && Broken(r, policy, world)
  }

  lemma {:induction false} CandidatesFail(rs: seq<Release>, policy: Policy, world: World)
    ensures Candidates(rs, policy, world).Err? <==> SomeBroken(rs, policy, world)
  {
    hide Candidate, Eligible, Broken, IsItemOf;
    if rs != [] {
      CandidateIsEligible(rs[0], policy, world);
      CandidatesFail(rs[1..], policy, world);
      assert forall q :: q in rs <==> q == rs[0] || q in rs[1..];
    }
  }

  /** The build succeeds exactly when some release is eligible and none of the
      eligible ones is broken. */
  lemma BuildSucceeds(rs: seq<Release>, policy: Policy, world: World)
    ensures Build(rs, policy, world).Ok?
            <==> (exists r :: r in rs && Eligible(r, policy, world)) && !SomeBroken(rs, policy, world)
  {
    hide Candidates, Feed, Eligible, IsItemOf, SomeBroken;
    CandidatesFail(rs, policy, world);
    if Candidates(rs, policy, world).Ok? {
      CandidatesAreEligible(rs, policy, world);
      var c := Candidates(rs, policy, world).value;
      assert c != [] ==> FromEligible(rs, policy, world, c[0]);
    }
  }

  /** Some item of the version is not older than the stamp. */
  ghost predicate Covers(feed: seq<PublishedRelease>, version: string, publishedAt: string) {
    exists i :: 0 <= i < |feed| && feed[i].version == version && !Before(feed[i].publishedAt, publishedAt)
  }

  lemma ItemFields(c: seq<PublishedRelease>, r: Release, world: World)
    requires HasItem(c, r, world)
    ensures exists k :: 0 <= k < |c| && c[k].version == NormalizeVersion(r.tag) && c[k].publishedAt == r.publishedAt
  {
  }

  lemma FeedCoversCandidates(c: seq<PublishedRelease>)
    ensures forall i :: 0 <= i < |Feed(c)| ==> Feed(c)[i] in c
    ensures forall k :: 0 <= k < |c| ==> Covers(Feed(c), c[k].version, c[k].publishedAt)
  {
    hide Feed, Before;
    FeedMeetsSpecification(c);
    var feed := Feed(c);
    forall i | 0 <= i < |feed|
      ensures feed[i] in c
    {
      assert IsChosen(c, feed[i]);
    }
    forall k | 0 <= k < |c|
      ensures Covers(feed, c[k].version, c[k].publishedAt)
    {
      assert HasVersion(c, c[k].version) && HasVersion(feed, c[k].version);
      var i :| 0 <= i < |feed| && feed[i].version == c[k].version;
      assert IsChosen(c, feed[i]);
    }
  }

  /** The feed in terms of the releases: each item is that of an eligible release, and
      every eligible release is covered by an item of its version that is not older. */
  lemma FeedListsEligible(rs: seq<Release>, policy: Policy, world: World)
    requires Build(rs, policy, world).Ok?
    ensures var feed := Build(rs, policy, world).value;
            && (forall i :: 0 <= i < |feed| ==> FromEligible(rs, policy, world, feed[i]))
            && (forall r :: r in rs && Eligible(r, policy, world) ==>
                  Covers(feed, NormalizeVersion(r.tag), r.publishedAt))
  {
    hide Candidates, Feed, Eligible, FromEligible, IsItemOf, HasItem, Covers, NormalizeVersion;
    var c := Candidates(rs, policy, world).value;
    CandidatesAreEligible(rs, policy, world);
    FeedCoversCandidates(c);
    forall r | r in rs && Eligible(r, policy, world)
      ensures Covers(Feed(c), NormalizeVersion(r.tag), r.publishedAt)
    {
      ItemFields(c, r, world);
    }
  }

  // ---- Versions and tags ----

  /** `x` is the version of a tag: the tag without a leading `v`. */
  ghost predicate IsVersionOf(x: string, tag: string) {
    tag == "v" + x || (tag == x && (x == "" || x[0] != 'v'))
  }

  lemma VersionOfTag(tag: string, x: string)
    ensures NormalizeVersion(tag) == x <==> IsVersionOf(x, tag)
  {
    if tag != "" && tag[0] == 'v' {
      assert tag == "v" + tag[1..];
      if tag == "v" + x {
        assert x == tag[1..];
      }
    }
  }

  /** Each item carries the version of an eligible release's tag. */
  lemma ItemsCarryTags(rs: seq<Release>, policy: Policy, world: World, i: nat) returns (r: Release)
    requires Build(rs, policy, world).Ok? && i < |Build(rs, policy, world).value|
    ensures var item := Build(rs, policy, world).value[i];
            && r in rs && IsVersionOf(item.version, r.tag) && item.publishedAt == r.publishedAt
            && !r.draft && !r.prerelease && item.version != "" && item.version !in policy.blocked
  {
    hide Build, NormalizeVersion, SelectInstallerAsset, HeldBack, MinAge, IsVersionOf;
    FeedListsEligible(rs, policy, world);
    var item := Build(rs, policy, world).value[i];
    assert FromEligible(rs, policy, world, item);
    r :| r in rs && Eligible(r, policy, world) && IsItemOf(item, r, world);
    VersionOfTag(r.tag, item.version);
  }

  /** An entry of the policy's array, between white space and with or without the `v`,
      keeps the releases out of the feed whose tags say that version, with the `v` or
      without. */
  lemma EntryBlocksTags(raw: seq<Json>, entry: string, a: nat, b: nat, x: string, rs: seq<Release>, policy: Policy,
                        world: World, i: nat)
    requires Json.Text(entry) in raw && policy.blocked == ParseBlocked(raw)
    requires x != "" && x[0] != 'v' && TrimmedAt(Python, entry, a, b) && (entry[a..b] == x || entry[a..b] == "v" + x)
    requires Build(rs, policy, world).Ok? && i < |Build(rs, policy, world).value|
    ensures Build(rs, policy, world).value[i].version != x
    ensures forall tag :: tag == x || tag == "v" + x ==>
              !IsVersionOf(Build(rs, policy, world).value[i].version, tag)
  {
    TrimUnique(Python, entry, a, b);
    VersionOfTag(entry[a..b], x);
    hide Trim, TrimmedAt, NormalizeVersion;
    assert x in policy.blocked;
    hide Build, ParseBlocked;
    var r := ItemsCarryTags(rs, policy, world, i);
    forall tag, y | (tag == x || tag == "v" + x) && IsVersionOf(y, tag)
      ensures y == x
    {
      if tag == "v" + x && tag == "v" + y {
        assert y == tag[1..] == x;
      }
    }
  }

  /** The blocked versions are those of the array's entries, and no others. */
  lemma BlockedComesFromEntry(raw: seq<Json>, x: string)
    ensures x in ParseBlocked(raw) <==>
              exists entry ::
                Json.Text(entry) in raw && Trim(Python, entry) != "" && IsVersionOf(x, Trim(Python, entry))
  {
    hide Trim, NormalizeVersion, IsVersionOf;
    forall tag
      ensures NormalizeVersion(tag) == x <==> IsVersionOf(x, tag)
    {
      VersionOfTag(tag, x);
    }
    if x in ParseBlocked(raw) {
      var j :| j in raw && j.Text? && Trim(Python, j.text) != "" && NormalizeVersion(Trim(Python, j.text)) == x;
      assert Json.Text(j.text) in raw;
    }
    if entry :| Json.Text(entry) in raw && Trim(Python, entry) != "" && IsVersionOf(x, Trim(Python, entry)) {
      assert NormalizeVersion(Trim(Python, Json.Text(entry).text)) == x;
    }
  }

  /** Which releases are eligible, in their fields and the policy's: published, with a
      version, not blocked, and not younger than the minimum age of that version. */
  lemma EligibleMeans(r: Release, policy: Policy, world: World, x: string)
    requires IsVersionOf(x, r.tag)
    ensures Eligible(r, policy, world) <==>
              && !r.draft && !r.prerelease && x != "" && x !in policy.blocked
              && !(x in policy.minAge && policy.minAge[x] > 0 && r.publishedAt != ""
                   && world.reading(r.publishedAt).Instant?
                   && world.now < world.reading(r.publishedAt).micros + policy.minAge[x] * 60_000_000)
  {
    VersionOfTag(r.tag, x);
    hide NormalizeVersion;
  }

  // ---- The installer of a release ----

  /** `BackupDatabase-Setup-*.exe`. */
  ghost predicate NamedLikeInstaller(name: string) {
    exists v :: name == "BackupDatabase-Setup-" + v + ".exe"
  }

  /** The one asset that is named like an installer, or the one executable when none
      is. */
  ghost predicate IsInstallerOf(a: Asset, assets: seq<Asset>) {
    && a in assets && EndsWith(a.name, ".exe")
    && forall b :: b in assets && b != a && EndsWith(b.name, ".exe") ==>
         !NamedLikeInstaller(b.name) && NamedLikeInstaller(a.name)
  }

  lemma InstallerName(name: string)
    ensures IsInstallerName(name) <==> NamedLikeInstaller(name)
  {
    if IsInstallerName(name) {
      assert name == "BackupDatabase-Setup-" + name[21..|name| - 4] + ".exe";
    }
    if v :| name == "BackupDatabase-Setup-" + v + ".exe" {
      assert name[..21] == "BackupDatabase-Setup-" && name[|name| - 4..] == ".exe";
    }
  }

  // ---- The selection, case by case ----

  /** Two assets at different places have the property. */
  ghost predicate TwoOf(assets: seq<Asset>, keep: Asset -> bool) {
    exists i, j :: 0 <= i < j < |assets| && keep(assets[i]) && keep(assets[j])
  }

  ghost predicate NoneOf(assets: seq<Asset>, keep: Asset -> bool) {
    forall i :: 0 <= i < |assets| ==> !keep(assets[i])
  }

  /** Asset `i` is the only one with the property. */
  ghost predicate OnlyOne(assets: seq<Asset>, keep: Asset -> bool, i: nat) {
    i < |assets| && keep(assets[i]) && forall j :: 0 <= j < |assets| && j != i ==> !keep(assets[j])
  }

  lemma NoneOfTail(assets: seq<Asset>, keep: Asset -> bool)
    requires assets != []
    ensures NoneOf(assets, keep) <==> !keep(assets[0]) && NoneOf(assets[1..], keep)
  {
    if NoneOf(assets, keep) {
      assert forall j :: 0 <= j < |assets[1..]| ==> assets[1..][j] == assets[j + 1];
    } else if !keep(assets[0]) {
      var j :| 0 <= j < |assets| && keep(assets[j]);
      assert assets[1..][j - 1] == assets[j];
    }
  }

  lemma TwoOfTail(assets: seq<Asset>, keep: Asset -> bool)
    requires assets != []
    ensures TwoOf(assets, keep) <==> TwoOf(assets[1..], keep) || (keep(assets[0]) && !NoneOf(assets[1..], keep))
  {
    var tail := assets[1..];
    assert forall j :: 0 <= j < |tail| ==> tail[j] == assets[j + 1];
    if TwoOf(assets, keep) {
      var i, j :| 0 <= i < j < |assets| && keep(assets[i]) && keep(assets[j]);
      assert keep(tail[j - 1]);
      assert i > 0 ==> keep(tail[i - 1]);
    }
    if TwoOf(tail, keep) {
      var i, j :| 0 <= i < j < |tail| && keep(tail[i]) && keep(tail[j]);
      assert keep(assets[i + 1]) && keep(assets[j + 1]);
    } else if keep(assets[0]) && !NoneOf(tail, keep) {
      var j :| 0 <= j < |tail| && keep(tail[j]);
      assert keep(assets[j + 1]);
    }
  }

  /** How many assets a selection keeps: none, one, or more. */
  lemma {:induction false} SelectCounts(assets: seq<Asset>, keep: Asset -> bool)
    ensures Select(assets, keep) == [] <==> NoneOf(assets, keep)
    ensures |Select(assets, keep)| > 1 <==> TwoOf(assets, keep)
  {
    if assets != [] {
      SelectCounts(assets[1..], keep);
      NoneOfTail(assets, keep);
      TwoOfTail(assets, keep);
      hide NoneOf, TwoOf;
      assert Select(assets, keep) == (if keep(assets[0]) then [assets[0]] else []) + Select(assets[1..], keep);
    }
  }

  lemma SelectOne(assets: seq<Asset>, keep: Asset -> bool, i: nat)
    requires OnlyOne(assets, keep, i)
    ensures Select(assets, keep) == [assets[i]]
  {
    SelectCounts(assets, keep);
    hide Select;
    var r := Select(assets, keep);
    assert !NoneOf(assets, keep) && !TwoOf(assets, keep);
    assert r[0] in r;
  }

  lemma {:induction false} SelectAgrees(assets: seq<Asset>, f: Asset -> bool, g: Asset -> bool)
    requires forall a :: f(a) <==> g(a)
    ensures Select(assets, f) == Select(assets, g)
  {
    if assets != [] {
      SelectAgrees(assets[1..], f, g);
    }
  }

  lemma {:induction false} SelectTwice(assets: seq<Asset>, f: Asset -> bool, g: Asset -> bool, both: Asset -> bool)
    requires forall a :: both(a) <==> f(a) && g(a)
    ensures Select(Select(assets, f), g) == Select(assets, both)
  {
    if assets != [] {
      var rest := Select(assets[1..], f);
      SelectTwice(assets[1..], f, g, both);
      if f(assets[0]) {
        assert ([assets[0]] + rest)[1..] == rest;
      } else {
        assert [] + rest == rest;
      }
    }
  }

  ghost function Executable(): Asset -> bool {
    (a: Asset) => EndsWith(a.name, ".exe")
  }

  ghost function NamedInstaller(): Asset -> bool {
    (a: Asset) => NamedLikeInstaller(a.name)
  }

  ghost function SidecarOf(name: string): Asset -> bool {
    (a: Asset) => a.name == name + ".sha256"
  }

  /** Asset `i` is the installer: the only one named like one, or the only executable
      when none is. */
  ghost predicate IsPicked(assets: seq<Asset>, i: nat) {
    && i < |assets|
    && (OnlyOne(assets, NamedInstaller(), i) || (NoneOf(assets, NamedInstaller()) && OnlyOne(assets, Executable(), i)))
  }

  lemma PatternIsNamed(assets: seq<Asset>)
    ensures PatternAssets(assets) == Select(assets, NamedInstaller())
    ensures ExeAssets(assets) == Select(assets, Executable())
  {
    hide Select, NamedLikeInstaller;
    SelectAgrees(assets, (a: Asset) => EndsWith(a.name, ExeSuffix), Executable());
    forall name
      ensures IsInstallerName(name) <==> NamedLikeInstaller(name)
      ensures NamedLikeInstaller(name) ==> EndsWith(name, ".exe")
    {
      InstallerName(name);
    }
    SelectTwice(assets, (a: Asset) => EndsWith(a.name, ExeSuffix), (a: Asset) => IsInstallerName(a.name),
                NamedInstaller());
  }

  /** The installer of a release, in every case. */
  lemma PickMeans(assets: seq<Asset>)
    ensures TwoOf(assets, NamedInstaller()) ==> PickInstaller(assets) == Err(AmbiguousInstaller)
    ensures NoneOf(assets, NamedInstaller()) && (NoneOf(assets, Executable()) || TwoOf(assets, Executable())) ==>
              PickInstaller(assets) == Err(NoInstaller)
    ensures forall i: nat :: IsPicked(assets, i) ==> PickInstaller(assets) == Ok(assets[i])
  {
    hide Select, NoneOf, TwoOf, OnlyOne, ExeAssets, PatternAssets, NamedInstaller, Executable;
    PatternIsNamed(assets);
    SelectCounts(assets, NamedInstaller());
    SelectCounts(assets, Executable());
    forall i: nat | IsPicked(assets, i)
      ensures PickInstaller(assets) == Ok(assets[i])
    {
      if OnlyOne(assets, NamedInstaller(), i) {
        SelectOne(assets, NamedInstaller(), i);
      } else {
        SelectOne(assets, Executable(), i);
      }
    }
  }

  /** The selection for a picked installer, in every case: what it lacks, or what it is. */
  lemma SelectionMeans(assets: seq<Asset>, web: map<string, string>, i: nat)
    requires IsPicked(assets, i)
    ensures var a, r := assets[i], SelectInstallerAsset(assets, web);
            if a.url.None? || a.size.None? then r == Err(BadMetadata)
            else
              && (TwoOf(assets, SidecarOf(a.name)) ==> r == Err(AmbiguousSidecar))
              && (NoneOf(assets, SidecarOf(a.name)) ==> r == Err(NoSidecar))
              && forall k: nat :: OnlyOne(assets, SidecarOf(a.name), k) ==>
                   r == (if assets[k].url.None? then Err(BadSidecar)
                         else if assets[k].url.value !in web then Err(Download)
                         else
                           var digest := FirstDigest(SplitLines(web[assets[k].url.value]), a.name);
                           if digest.None? then Err(BadSidecar)
                           else Ok(ReleaseAsset(a.name, a.url.value, a.size.value, digest.value)))
  {
    PickMeans(assets);
    var keep := SidecarOf(assets[i].name);
    SelectAgrees(assets, (a: Asset) => a.name == assets[i].name + ChecksumSuffix, keep);
    assert SidecarAssets(assets, assets[i].name) == Select(assets, keep);
    SelectCounts(assets, keep);
    hide Select, NoneOf, TwoOf, OnlyOne, SidecarOf, SidecarAssets, IsPicked, FirstDigest, PickInstaller;
    forall k: nat | OnlyOne(assets, keep, k)
      ensures Select(assets, keep) == [assets[k]]
    {
      SelectOne(assets, keep, k);
    }
  }

  lemma PickedIsExecutable(assets: seq<Asset>)
    requires PickInstaller(assets).Ok?
    ensures PickInstaller(assets).value in assets && EndsWith(PickInstaller(assets).value.name, ".exe")
  {
    hide IsInstallerName, EndsWith, Select;
    var a := PickInstaller(assets).value;
    assert a in ExeAssets(assets);
  }

  /** The picked asset is the one matching installer, or the one executable when
      none matches: whatever else qualifies is the same asset. */
  lemma PickedIsTheInstaller(assets: seq<Asset>, b: Asset)
    requires PickInstaller(assets).Ok? && b in assets && EndsWith(b.name, ExeSuffix)
    ensures var a := PickInstaller(assets).value;
            && a in assets && EndsWith(a.name, ExeSuffix)
            && (IsInstallerName(b.name) || !IsInstallerName(a.name) ==> b == a)
  {
    hide IsInstallerName, EndsWith, Select;
    assert b in ExeAssets(assets);
    assert IsInstallerName(b.name) ==> b in PatternAssets(assets);
    var a := PickInstaller(assets).value;
    assert a in ExeAssets(assets);
    if |PatternAssets(assets)| == 1 {
      assert a in PatternAssets(assets);
    }
  }

  /** A selected asset is the picked one, with a digest of 64 lower-case digits. */
  lemma SelectedAssetHasDigest(assets: seq<Asset>, web: map<string, string>)
    requires SelectInstallerAsset(assets, web).Ok?
    ensures IsDigest(SelectInstallerAsset(assets, web).value.sha256)
    ensures PickInstaller(assets).Ok?
    ensures var a, r := PickInstaller(assets).value, SelectInstallerAsset(assets, web).value;
            r.name == a.name && Some(r.url) == a.url && Some(r.size) == a.size
  {
    hide FirstDigest, IsDigest, PickInstaller, PyLines.SplitLines, SidecarAssets;
    var a := PickInstaller(assets).value;
    var sidecar := SidecarAssets(assets, a.name)[0];
    var i := FirstDigestIsFirst(PyLines.SplitLines(web[sidecar.url.value]), a.name);
  }

  /** What an item says of its installer is what the release says: address and size are
      the picked asset's, and the digest is the one that the one sidecar of that name
      offers for it. */
  lemma SelectedAssetIsReleased(assets: seq<Asset>, web: map<string, string>) returns (a: Asset, sidecar: Asset)
    requires SelectInstallerAsset(assets, web).Ok?
    ensures var r := SelectInstallerAsset(assets, web).value;
            && IsInstallerOf(a, assets) && r.name == a.name && a.url == Some(r.url) && a.size == Some(r.size)
            && sidecar in assets && sidecar.name == a.name + ".sha256"
            && (forall b :: b in assets && b.name == a.name + ".sha256" ==> b == sidecar)
            && sidecar.url.Some? && sidecar.url.value in web
            && FirstDigest(SplitLines(web[sidecar.url.value]), a.name) == Some(r.sha256)
  {
    hide IsInstallerName, FirstDigest, EndsWith, NamedLikeInstaller, Select;
    SelectedAssetHasDigest(assets, web);
    a := PickInstaller(assets).value;
    PickedIsExecutable(assets);
    forall name
      ensures IsInstallerName(name) <==> NamedLikeInstaller(name)
    {
      InstallerName(name);
    }
    forall b | b in assets && EndsWith(b.name, ".exe")
      ensures b == a || (!NamedLikeInstaller(b.name) && NamedLikeInstaller(a.name))
    {
      PickedIsTheInstaller(assets, b);
    }
    assert IsInstallerOf(a, assets);
    var sidecars := SidecarAssets(assets, a.name);
    sidecar := sidecars[0];
    assert sidecar in sidecars;
    forall b | b in assets && b.name == a.name + ".sha256"
      ensures b == sidecar
    {
      assert b in sidecars;
    }
  }
}
