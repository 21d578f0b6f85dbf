/**
  What renutil offers and shows: the releases read from the link texts of
  the download page, with the URL of each SDK archive; the versions sorted
  highest first; and the first `count` of them, as `list` prints them. The
  page itself is fetched over the network, which is not modelled: its link
  texts are an input.
 */
module Catalog {
  import opened Wrappers
  import opened Text
  import opened Versions
  import opened Instances
  import opened Precedence
  import opened Cache

  /** The download site that holds one directory per version. */
  const DownloadBase: string := "https://www.renpy.org/dl/"

  /** `renpy-{version}-{kind}.zip`, the name of an archive of a version. */
  function ArchiveName(version: string, kind: string): string
  {
    "renpy-" + version + "-" + kind + ".zip"
  }

  /** `https://www.renpy.org/dl/{version}/renpy-{version}-{kind}.zip` */
  function ArchiveUrl(version: string, kind: string): string
  {
    DownloadBase + version + "/" + ArchiveName(version, kind)
  }

  /** An archive name is never taken for an SDK directory, and has no `/` when its parts have none. */
  lemma ArchiveNameNotScanned(version: string, kind: string)
    ensures Match(ArchiveName(version, kind)) == None
    ensures '/' !in version && '/' !in kind ==> '/' !in ArchiveName(version, kind)
  {
    var n := ArchiveName(version, kind);
    assert n[0] == 'r';
    if Match(n).Some? {
      MatchStartsWithDigit(n);
    }
  }

  /** Different versions have different archive URLs. */
  lemma ArchiveUrlInjective(a: string, b: string, kind: string)
    requires ArchiveUrl(a, kind) == ArchiveUrl(b, kind)
    ensures a == b
  {
    var ua := ArchiveUrl(a, kind);
    var ub := ArchiveUrl(b, kind);
    assert |ua| == 2 * |a| + |DownloadBase| + 12 + |kind|;
    assert |ub| == 2 * |b| + |DownloadBase| + 12 + |kind|;
    assert |a| == |b|;
    var n := |DownloadBase|;
    assert a == ua[n..n + |a|];
    assert b == ub[n..n + |b|];
  }

  /** The release one link text stands for, if the pattern accepts it. */
  function ReleaseOf(link: string): (r: seq<Release>)
    ensures |r| <= 1
    ensures r != [] <==> Match(link).Some?
    ensures r != [] ==> Some(r[0].version) == MatchedVersion(link)
    ensures r != [] ==> r[0].url == ArchiveUrl(Match(link).value, "sdk")
  {
    match Match(link)
    case None => []
    case Some(t) => [Release(MatchedVersion(link).value, ArchiveUrl(t, "sdk"))]
  }

  /** The release of a scanned instance: its version and the SDK archive URL of its text. */
  function ReleaseFor(x: Instance): Release
  {
    Release(x.version, ArchiveUrl(Render(x.version), "sdk"))
  }

  function ToReleases(s: seq<Instance>): (r: seq<Release>)
    ensures |r| == |s| && forall i :: 0 <= i < |s| ==> r[i] == ReleaseFor(s[i])
  {
    seq(|s|, i requires 0 <= i < |s| => ReleaseFor(s[i]))
  }

  lemma ToReleasesAppend(a: seq<Instance>, b: seq<Instance>)
    ensures ToReleases(a + b) == ToReleases(a) + ToReleases(b)
  {
  }

  /** One link read on its own is the scan of that one name turned into a release. */
  lemma ReleaseOfIsScan(link: string)
    ensures ReleaseOf(link) == ToReleases(ScanOne(link))
  {
  }

  /**
    The releases a page offers, in the order of its links: the scan of its
    link texts, each scanned instance turned into a release, since the text
    the pattern accepts is the canonical text of its version.
   */
  function Releases(links: seq<string>): seq<Release>
  {
    ToReleases(Scanned(links))
  }

  /** Some release has version `v`. */
  predicate Offers(rs: seq<Release>, v: Version)
  {
    exists i :: 0 <= i < |rs| && rs[i].version == v
  }

  /** A version is offered exactly when some link text carries it. */
  lemma ReleasesOffer(links: seq<string>, v: Version)
    ensures Offers(Releases(links), v) <==> Lists(links, MatchedVersion, v)
  {
    CollectVersions(links, MatchedVersion, v);
    ToReleasesOffer(Scanned(links), v);
  }

  /** The releases of scanned instances offer exactly the versions scanned. */
  lemma ToReleasesOffer(s: seq<Instance>, v: Version)
    ensures Offers(ToReleases(s), v) <==> HasVersion(s, v)
  {
    var rs := ToReleases(s);
    if Offers(rs, v) {
      var i :| 0 <= i < |rs| && rs[i].version == v;
      assert s[i].version == v;
    }
    if HasVersion(s, v) {
      var i :| 0 <= i < |s| && s[i].version == v;
      assert rs[i].version == v;
    }
  }

  /**
    The link loop of `get_available_versions`: each link text the pattern
    accepts becomes a release of its version with the SDK URL of the text.
   */
  method ReadReleases(links: seq<string>) returns (r: seq<Release>)
    ensures r == Releases(links)
  {
    r := [];
    var i := 0;
    ghost var seen: seq<string> := [];
    while i < |links|
      invariant i <= |links| && seen == links[..i]
      invariant r == Releases(seen)
    {
      var m := Match(links[i]);
      var found: seq<Release> := [];
      if m.Some? {
        var version := Parse(m.value);
        if version.Some? {
          found := [Release(version.value, ArchiveUrl(m.value, "sdk"))];
        }
      }
      ReleasesStep(seen, links[i]);
      TakeOneMore(links, i);
      seen := seen + [links[i]];
      r := r + found;
      i := i + 1;
    }
    assert links[..|links|] == links;
  }

  /** One more link adds the release it stands for, at the end. */
  lemma ReleasesStep(a: seq<string>, x: string)
    ensures Releases(a + [x]) == Releases(a) + ReleaseOf(x)
  {
    ScanStep(a, x);
    ToReleasesAppend(Scanned(a), ScanOne(x));
    ReleaseOfIsScan(x);
  }

  function ReleaseKey(r: Release): Version { r.version }

  function InstanceKey(x: Instance): Version { x.version }

  /** The list `get_available_versions` answers for a page: its releases, highest first. */
  function Available(links: seq<string>): seq<Release>
  {
    SortDescending(Releases(links), ReleaseKey)
  }

  /** The available list is sorted highest first and holds exactly the page's releases. */
  lemma AvailableSorted(links: seq<string>, v: Version)
    ensures Descending(Available(links), ReleaseKey)
    ensures multiset(Available(links)) == multiset(Releases(links))
    ensures Offers(Available(links), v) <==> Lists(links, MatchedVersion, v)
  {
    SortedOffers(Releases(links), v);
    ReleasesOffer(links, v);
  }

  /** Sorting releases keeps them, and with them every version they offer. */
  lemma SortedOffers(rs: seq<Release>, v: Version)
    ensures Descending(SortDescending(rs, ReleaseKey), ReleaseKey)
    ensures multiset(SortDescending(rs, ReleaseKey)) == multiset(rs)
    ensures Offers(SortDescending(rs, ReleaseKey), v) <==> Offers(rs, v)
  {
    SortDescendingCorrect(rs, ReleaseKey);
    var a := SortDescending(rs, ReleaseKey);
    if Offers(a, v) {
      var i :| 0 <= i < |a| && a[i].version == v;
      assert a[i] in multiset(rs);
      var j :| 0 <= j < |rs| && rs[j] == a[i];
    }
    if Offers(rs, v) {
      var i :| 0 <= i < |rs| && rs[i].version == v;
      assert rs[i] in multiset(a);
      var j :| 0 <= j < |a| && a[j] == rs[i];
    }
  }

  /** `get_installed_versions`: the registered instances, highest first. */
  function InstalledSorted(s: seq<Instance>): seq<Instance>
  {
    SortDescending(s, InstanceKey)
  }

  lemma InstalledSortedCorrect(s: seq<Instance>)
    ensures Descending(InstalledSorted(s), InstanceKey)
    ensures multiset(InstalledSorted(s)) == multiset(s)
  {
    SortDescendingCorrect(s, InstanceKey);
  }

  /**
    `items[:count]`, Python's slice: the first `count` items, all of them
    when there are fewer, and for a negative `count` all but the last
    `-count`.
   */
  function Take<T>(s: seq<T>, count: int): (r: seq<T>)
    ensures |r| <= |s| && r == s[..|r|]
    ensures 0 <= count <= |s| ==> |r| == count
    ensures count >= |s| ==> r == s
    ensures count < 0 ==> |r| == if |s| + count < 0 then 0 else |s| + count
  {
    if count >= |s| then s
    else if count >= 0 then s[..count]
    else if |s| + count < 0 then []
    else s[..|s| + count]
  }

  /** The lines `list` prints: the version string of each element, in order. */
  function Lines<T>(s: seq<T>, key: T -> Version): seq<string>
  {
    seq(|s|, i requires 0 <= i < |s| => Render(key(s[i])))
  }

  /** Each printed line is a version string that reads back as its version. */
  lemma LinesReadBack<T>(s: seq<T>, key: T -> Version, i: nat)
    requires i < |s| && WellFormed(key(s[i]))
    ensures |Lines(s, key)| == |s| && Parse(Lines(s, key)[i]) == Some(key(s[i]))
  {
    ParseRender(key(s[i]));
  }
}
