/**
  The cache directory (`~/.renutil` or the `--registry` path) and the way
  renutil rebuilds its registry from it. The directory is a class whose
  `entries` field is its listing, in the order `os.listdir` answers it; it
  holds the SDK directories, the downloaded archives and `index.bin`.
  `scan_instances` keeps the entries the version pattern accepts, and
  `assure_state` empties the registry and adds every scanned instance
  again, so afterwards the registry is the scan with every later entry of an
  already seen version left out.
 */
module Cache {
  import opened Wrappers
  import opened Text
  import opened Versions
  import opened Instances
  import opened RegistryStore

  /** Directory names: no name twice, none with a `/` in it. */
  predicate NamesValid(names: seq<string>)
  {
    && (forall i, j :: 0 <= i < j < |names| ==> names[i] != names[j])
    && (forall i :: 0 <= i < |names| ==> '/' !in names[i])
  }

  /** The listing once the entry `name` is gone. */
  function Erase(names: seq<string>, name: string): (r: seq<string>)
    ensures name !in r
    ensures forall x :: x in r <==> x in names && x != name
  {
    if names == [] then []
    else if names[0] == name then Erase(names[1..], name)
    else [names[0]] + Erase(names[1..], name)
  }

  /** The listing once `name` has been created: appended unless it is already there. */
  function Created(names: seq<string>, name: string): (r: seq<string>)
    ensures name in r
    ensures forall x :: x in r <==> x in names || x == name
  {
    if name in names then names else names + [name]
  }

  class CacheDir {
    var present: bool
    var accessible: bool
    var entries: seq<string>

    ghost predicate Valid()
      reads this
    {
      (!present ==> entries == []) && NamesValid(entries)
    }

    constructor (present: bool, accessible: bool, entries: seq<string>)
      requires !present ==> entries == []
      requires NamesValid(entries)
      ensures Valid()
      ensures this.present == present && this.accessible == accessible && this.entries == entries
    {
      this.present := present;
      this.accessible := accessible;
      this.entries := entries;
    }

    /** `os.mkdir(CACHE)`: a new, empty directory. */
    method MakeDir()
      modifies this
      requires !present
      ensures present && entries == [] && accessible == old(accessible)
    {
      present := true;
      entries := [];
    }

    /** `shutil.rmtree(CACHE/name)` */
    method RemoveTree(name: string)
      modifies this
      requires Valid()
      ensures Valid()
      ensures entries == Erase(old(entries), name)
      ensures present == old(present) && accessible == old(accessible)
    {
      EraseKeepsValid(entries, name);
      entries := Erase(entries, name);
    }

    /** A file or directory `name` written into the cache directory. */
    method Create(name: string)
      modifies this
      requires Valid() && present && '/' !in name
      ensures Valid()
      ensures entries == Created(old(entries), name)
      ensures present == old(present) && accessible == old(accessible)
    {
      CreatedKeepsValid(entries, name);
      entries := Created(entries, name);
    }
  }

  lemma {:induction false} EraseKeepsValid(names: seq<string>, name: string)
    requires NamesValid(names)
    ensures NamesValid(Erase(names, name))
  {
    if names != [] {
      assert NamesValid(names[1..]) by {
        assert forall i :: 0 <= i < |names[1..]| ==> names[1..][i] == names[i + 1];
      }
      EraseKeepsValid(names[1..], name);
      if names[0] != name {
        var rest := Erase(names[1..], name);
        assert names[0] !in names[1..];
        var r := [names[0]] + rest;
        forall i, j | 0 <= i < j < |r| ensures r[i] != r[j] {
          assert r[j] == rest[j - 1] && r[j] in rest;
          if i > 0 { assert r[i] == rest[i - 1]; }
        }
        forall i | 0 <= i < |r| ensures '/' !in r[i] {
          if i > 0 { assert r[i] == rest[i - 1]; }
        }
      }
    }
  }

  lemma CreatedKeepsValid(names: seq<string>, name: string)
    requires NamesValid(names) && '/' !in name
    ensures NamesValid(Created(names, name))
  {
    if name !in names {
      var r := names + [name];
      assert r[|names|] == name;
      forall i, j | 0 <= i < j < |r| ensures r[i] != r[j] {
        if j == |names| { assert r[i] == names[i]; }
      }
    }
  }

  // ----- scan_instances -----

  /**
    The instances a listing holds under a name matcher `m`: each name `m`
    gives a version for becomes an instance of that version, in listing
    order. The scan is this with the version pattern as `m`; the facts below
    hold for any matcher.
   */
  function Collect(listing: seq<string>, m: string -> Option<Version>): (r: seq<Instance>)
    ensures |r| <= |listing|
  {
    if listing == [] then []
    else
      (match m(listing[0])
       case None => []
       case Some(v) => [Instance(v, listing[0])])
      + Collect(listing[1..], m)
  }

  /** Collecting a listing collects its parts, in listing order. */
  lemma {:induction false} CollectAppend(a: seq<string>, b: seq<string>, m: string -> Option<Version>)
    ensures Collect(a + b, m) == Collect(a, m) + Collect(b, m)
  {
    if a == [] {
      assert a + b == b;
    } else {
      assert (a + b)[1..] == a[1..] + b;
      CollectAppend(a[1..], b, m);
    }
  }

  lemma CollectOne(x: string, m: string -> Option<Version>)
    ensures m(x).None? ==> Collect([x], m) == []
    ensures m(x).Some? ==> Collect([x], m) == [Instance(m(x).value, x)]
  {
    assert [x][1..] == [];
  }

  /** An instance is collected exactly when its path is listed and `m` gives its version. */
  lemma {:induction false} CollectMember(listing: seq<string>, x: Instance, m: string -> Option<Version>)
    ensures x in Collect(listing, m) <==> x.path in listing && m(x.path) == Some(x.version)
  {
    if listing != [] {
      CollectMember(listing[1..], x, m);
      assert x.path in listing <==> x.path == listing[0] || x.path in listing[1..];
    }
  }

  /** Two positions of a collection from distinct names carry different paths. */
  lemma {:induction false} CollectPathsDistinct(listing: seq<string>, m: string -> Option<Version>, i: nat, j: nat)
    requires forall p, q :: 0 <= p < q < |listing| ==> listing[p] != listing[q]
    requires i < j < |Collect(listing, m)|
    ensures Collect(listing, m)[i].path != Collect(listing, m)[j].path
  {
    var rest := Collect(listing[1..], m);
    var s := Collect(listing, m);
    assert forall p, q :: 0 <= p < q < |listing[1..]| ==> listing[1..][p] != listing[1..][q] by {
      assert forall p :: 0 <= p < |listing[1..]| ==> listing[1..][p] == listing[p + 1];
    }
    if m(listing[0]).None? {
      assert s == rest;
      CollectPathsDistinct(listing[1..], m, i, j);
    } else {
      assert s == [Instance(m(listing[0]).value, listing[0])] + rest;
      if i == 0 {
        assert s[j] == rest[j - 1] && rest[j - 1] in rest;
        CollectMember(listing[1..], rest[j - 1], m);
        assert listing[0] !in listing[1..];
      } else {
        assert s[i] == rest[i - 1] && s[j] == rest[j - 1];
        CollectPathsDistinct(listing[1..], m, i - 1, j - 1);
      }
    }
  }

  /** Some listed name is given version `v` by `m`. */
  predicate Lists(listing: seq<string>, m: string -> Option<Version>, v: Version)
  {
    exists k :: 0 <= k < |listing| && m(listing[k]) == Some(v)
  }

  /** A version is collected exactly when some listed name is given it. */
  lemma CollectVersions(listing: seq<string>, m: string -> Option<Version>, v: Version)
    ensures HasVersion(Collect(listing, m), v) <==> Lists(listing, m, v)
  {
    var s := Collect(listing, m);
    if Lists(listing, m, v) {
      var k :| 0 <= k < |listing| && m(listing[k]) == Some(v);
      CollectMember(listing, Instance(v, listing[k]), m);
      var i :| 0 <= i < |s| && s[i] == Instance(v, listing[k]);
    }
    if HasVersion(s, v) {
      var i :| 0 <= i < |s| && s[i].version == v;
      CollectMember(listing, s[i], m);
      var k :| 0 <= k < |listing| && listing[k] == s[i].path;
    }
  }

  /** The instance one listed name stands for, if the pattern accepts it. */
  function ScanOne(name: string): (r: seq<Instance>)
    ensures |r| <= 1
    ensures r != [] <==> Match(name).Some?
    ensures r != [] ==> r[0].path == name && MatchedVersion(name) == Some(r[0].version)
  {
    match MatchedVersion(name)
    case None => []
    case Some(v) => [Instance(v, name)]
  }

  /** The instances a listing holds: the names the pattern accepts, each with its version. */
  function Scanned(listing: seq<string>): (r: seq<Instance>)
    ensures |r| <= |listing|
  {
    Collect(listing, MatchedVersion)
  }

  /** One step of the loop of `scan_instances`. */
  lemma ScanStep(a: seq<string>, x: string)
    ensures Scanned(a + [x]) == Scanned(a) + ScanOne(x)
  {
    CollectAppend(a, [x], MatchedVersion);
    CollectOne(x, MatchedVersion);
  }

  /** An instance is scanned exactly when its path is listed and the pattern gives its version. */
  lemma ScannedMember(listing: seq<string>, x: Instance)
    ensures x in Scanned(listing) <==> x.path in listing && MatchedVersion(x.path) == Some(x.version)
  {
    CollectMember(listing, x, MatchedVersion);
  }

  /**
    `scan_instances(path)` over the listing of `path`: each entry the
    pattern accepts becomes an instance of that version whose path is the
    entry's name. The `ValueError` branch is never taken, since a string
    the pattern accepts always parses.
   */
  method ScanInstances(listing: seq<string>) returns (r: seq<Instance>)
    ensures r == Scanned(listing)
  {
    r := [];
    var i := 0;
    ghost var seen: seq<string> := [];
    while i < |listing|
      invariant i <= |listing| && seen == listing[..i]
      invariant r == Scanned(seen)
    {
      var found := ScanEntry(listing[i]);
      ScanStep(seen, listing[i]);
      TakeOneMore(listing, i);
      seen := seen + [listing[i]];
      r := r + found;
      i := i + 1;
    }
    assert listing[..|listing|] == listing;
  }

  /** The body of the loop of `scan_instances` for one folder. */
  method ScanEntry(folder: string) returns (r: seq<Instance>)
    ensures r == ScanOne(folder)
  {
    r := [];
    var m := Match(folder);
    if m.Some? {
      var version := Parse(m.value);
      if version.Some? {
        r := [Instance(version.value, folder)];
      }
    }
  }

  /** Different slash-free names never scan to the same version. */
  lemma ScannedDistinct(listing: seq<string>)
    requires NamesValid(listing)
    ensures DistinctVersions(Scanned(listing))
  {
    var r := Scanned(listing);
    forall i, j | 0 <= i < j < |r| ensures r[i].version != r[j].version {
      CollectPathsDistinct(listing, MatchedVersion, i, j);
      ScannedMember(listing, r[i]);
      ScannedMember(listing, r[j]);
      SlashFreeListed(listing, r[i].path);
      SlashFreeListed(listing, r[j].path);
      if r[i].version == r[j].version {
        MatchedVersionInjective(r[i].path, r[j].path);
      }
    }
  }

  lemma SlashFreeListed(listing: seq<string>, name: string)
    requires NamesValid(listing) && name in listing
    ensures '/' !in name
  {
    var k :| 0 <= k < |listing| && listing[k] == name;
  }

  // ----- the registry part of assure_state -----

  /**
    The scan with every entry dropped whose version an earlier entry
    already has: what adding the entries one by one to an empty registry
    leaves.
   */
  function FirstOccurrences(s: seq<Instance>): (r: seq<Instance>)
    ensures forall x :: x in r ==> x in s
  {
    if s == [] then []
    else
      var init := s[..|s| - 1];
      var rest := FirstOccurrences(init);
      assert forall x :: x in rest ==> x in s;
      if HasVersion(init, s[|s| - 1].version) then rest else rest + [s[|s| - 1]]
  }

  lemma {:induction false} FirstOccurrencesVersions(s: seq<Instance>, v: Version)
    ensures HasVersion(FirstOccurrences(s), v) <==> HasVersion(s, v)
  {
    if s != [] {
      var init := s[..|s| - 1];
      var last := s[|s| - 1];
      FirstOccurrencesVersions(init, v);
      FirstOccurrencesVersions(init, last.version);
      AddedVersions(FirstOccurrences(init), last, v);
      assert Added(FirstOccurrences(init), last) == FirstOccurrences(s);
      assert s == init + [last];
      if HasVersion(s, v) {
        var i :| 0 <= i < |s| && s[i].version == v;
        if i < |init| { assert init[i] == s[i]; }
      }
      if HasVersion(init, v) {
        var i :| 0 <= i < |init| && init[i].version == v;
        assert s[i] == init[i];
      }
    }
  }

  /** Adding one more scanned instance to the first occurrences of a scan. */
  lemma FirstOccurrencesSnoc(s: seq<Instance>, x: Instance)
    ensures FirstOccurrences(s + [x]) == Added(FirstOccurrences(s), x)
  {
    assert (s + [x])[..|s|] == s;
    FirstOccurrencesVersions(s, x.version);
  }

  /** No version twice, whatever the scan held. */
  lemma {:induction false} FirstOccurrencesDistinct(s: seq<Instance>)
    ensures DistinctVersions(FirstOccurrences(s))
  {
    if s != [] {
      var init := s[..|s| - 1];
      FirstOccurrencesDistinct(init);
      FirstOccurrencesSnoc(init, s[|s| - 1]);
      assert s == init + [s[|s| - 1]];
      AddedKeepsDistinct(FirstOccurrences(init), s[|s| - 1]);
    }
  }

  /** A scan with no version twice is kept whole. */
  lemma {:induction false} FirstOccurrencesOfDistinct(s: seq<Instance>)
    requires DistinctVersions(s)
    ensures FirstOccurrences(s) == s
  {
    if s != [] {
      var init := s[..|s| - 1];
      assert DistinctVersions(init);
      FirstOccurrencesOfDistinct(init);
      assert !HasVersion(init, s[|s| - 1].version);
      assert init + [s[|s| - 1]] == s;
    }
  }

  /** An entry is kept exactly when no earlier entry has its version. */
  lemma {:induction false} FirstOccurrencesKeeps(s: seq<Instance>, k: nat)
    requires k < |s|
    ensures s[k] in FirstOccurrences(s) <== !HasVersion(s[..k], s[k].version)
  {
    var init := s[..|s| - 1];
    if k < |s| - 1 {
      assert init[k] == s[k] && init[..k] == s[..k];
      FirstOccurrencesKeeps(init, k);
    } else {
      assert init == s[..k];
    }
  }

  /** Adding instances that are all registered already changes nothing. */
  lemma {:induction false} AddingPresentChangesNothing(r: seq<Instance>, items: seq<Instance>)
    requires forall k :: 0 <= k < |items| ==> HasVersion(r, items[k].version)
    ensures AddedAll(r, items) == r
  {
    if items != [] {
      assert Added(r, items[0]) == r;
      AddingPresentChangesNothing(r, items[1..]);
    }
  }

  /** Adding instances one after another, as the loop of `assure_state` does. */
  function AddedAll(r: seq<Instance>, items: seq<Instance>): seq<Instance>
    decreases |items|
  {
    if items == [] then r else AddedAll(Added(r, items[0]), items[1..])
  }

  /** What `assure_state` leaves in the registry for a listing. */
  function Reconciled(listing: seq<string>): seq<Instance>
  {
    FirstOccurrences(Scanned(listing))
  }

  /**
    Reconciliation prunes and adds: afterwards a version is registered
    exactly when some listed name carries it, no version is registered
    twice, and every registered instance is one the scan found.
   */
  lemma ReconciledCharacterised(listing: seq<string>, v: Version)
    ensures DistinctVersions(Reconciled(listing))
    ensures HasVersion(Reconciled(listing), v) <==> Lists(listing, MatchedVersion, v)
    ensures forall x :: x in Reconciled(listing) ==> x in Scanned(listing)
  {
    FirstOccurrencesDistinct(Scanned(listing));
    FirstOccurrencesVersions(Scanned(listing), v);
    CollectVersions(listing, MatchedVersion, v);
  }

  /** A second pass over the same scan finds everything registered already. */
  lemma ReconcileIdempotent(listing: seq<string>)
    ensures AddedAll(Reconciled(listing), Scanned(listing)) == Reconciled(listing)
  {
    var s := Scanned(listing);
    forall k | 0 <= k < |s| ensures HasVersion(Reconciled(listing), s[k].version) {
      FirstOccurrencesVersions(s, s[k].version);
    }
    AddingPresentChangesNothing(Reconciled(listing), s);
  }

  /** On a real directory, where names are distinct, the registry is the scan itself. */
  lemma ReconciledIsScan(listing: seq<string>)
    requires NamesValid(listing)
    ensures Reconciled(listing) == Scanned(listing)
  {
    ScannedDistinct(listing);
    FirstOccurrencesOfDistinct(Scanned(listing));
  }

  // ----- how the scan follows changes to the directory -----

  /** The entries of `s` whose path is not `p`, in their order. */
  function DropPath(s: seq<Instance>, p: string): (r: seq<Instance>)
    ensures forall x :: x in r <==> x in s && x.path != p
  {
    if s == [] then []
    else if s[0].path == p then DropPath(s[1..], p)
    else [s[0]] + DropPath(s[1..], p)
  }

  /** Removing a name from the listing removes what it was collected as. */
  lemma {:induction false} CollectErase(l: seq<string>, p: string, m: string -> Option<Version>)
    ensures Collect(Erase(l, p), m) == DropPath(Collect(l, m), p)
  {
    if l != [] {
      CollectErase(l[1..], p, m);
      CollectOne(l[0], m);
      CollectAppend([l[0]], l[1..], m);
      assert [l[0]] + l[1..] == l;
      var one: seq<Instance> := Collect([l[0]], m);
      var rest: seq<Instance> := Collect(l[1..], m);
      if l[0] == p {
        if one != [] {
          assert (one + rest)[0].path == p && (one + rest)[1..] == rest;
        } else {
          assert one + rest == rest;
        }
      } else {
        CollectAppend([l[0]], Erase(l[1..], p), m);
        assert [l[0]] + Erase(l[1..], p) == Erase(l, p);
        if one != [] {
          assert (one + rest)[0] == one[0] && (one + rest)[1..] == rest;
        } else {
          assert one + rest == rest;
        }
      }
    }
  }

  /** When exactly the entries with path `p` have version `v`, dropping either is the same. */
  lemma {:induction false} DropPathIsWithout(s: seq<Instance>, p: string, v: Version)
    requires forall i :: 0 <= i < |s| ==> (s[i].path == p <==> s[i].version == v)
    ensures DropPath(s, p) == Without(s, v)
  {
    if s != [] {
      assert forall i :: 0 <= i < |s[1..]| ==> s[1..][i] == s[i + 1];
      DropPathIsWithout(s[1..], p, v);
    }
  }

  /** Deleting the directory of a scanned instance unregisters exactly its version. */
  lemma ScannedErase(l: seq<string>, x: Instance)
    requires NamesValid(l) && x in Scanned(l)
    ensures Scanned(Erase(l, x.path)) == Without(Scanned(l), x.version)
  {
    var s := Scanned(l);
    CollectErase(l, x.path, MatchedVersion);
    ScannedMember(l, x);
    SlashFreeListed(l, x.path);
    forall i | 0 <= i < |s| ensures s[i].path == x.path <==> s[i].version == x.version {
      ScannedMember(l, s[i]);
      SlashFreeListed(l, s[i].path);
      if s[i].version == x.version {
        MatchedVersionInjective(s[i].path, x.path);
      }
    }
    DropPathIsWithout(s, x.path, x.version);
  }

  /** Creating a name the pattern does not accept leaves the scan as it was. */
  lemma ScannedCreatedOther(l: seq<string>, n: string)
    requires Match(n) == None
    ensures Scanned(Created(l, n)) == Scanned(l)
  {
    if n !in l {
      ScanStep(l, n);
    }
  }

  /** Creating a new name adds what it stands for at the end of the scan. */
  lemma ScannedCreatedNew(l: seq<string>, n: string)
    requires n !in l
    ensures Scanned(Created(l, n)) == Scanned(l) + ScanOne(n)
  {
    ScanStep(l, n);
  }

  /**
    The registry and the cache directory agree: the registry is synced with
    its file, keeps its invariant, and holds exactly the scan of the
    directory, which is what `assure_state` leaves and what every command
    keeps.
   */
  ghost predicate Consistent(reg: Registry, cache: CacheDir)
    reads reg, cache
  {
    cache.Valid() && reg.Synced() && reg.Valid() && reg.instances == Scanned(cache.entries)
  }

  /** A scanned instance's path is a listed name: non-empty and without `/`. */
  lemma ScannedPath(l: seq<string>, x: Instance)
    requires NamesValid(l) && x in Scanned(l)
    ensures x.path != [] && '/' !in x.path && x.path in l
  {
    ScannedMember(l, x);
    SlashFreeListed(l, x.path);
    MatchStartsWithDigit(x.path);
  }

  /** A listed name that carries version `v` makes `v` scanned. */
  lemma ListedNameScanned(l: seq<string>, n: string, v: Version)
    requires n in l && MatchedVersion(n) == Some(v)
    ensures HasVersion(Scanned(l), v)
  {
    var k :| 0 <= k < |l| && l[k] == n;
    CollectVersions(l, MatchedVersion, v);
  }

  /**
    The registry part of `assure_state`, after the cache directory has been
    created if missing: fails (exit status 1) when the directory is not
    readable and writable, otherwise clears the registry and adds back
    every scanned instance. The result depends only on the listing, so
    running it twice leaves the same registry.
   */
  method AssureState(reg: Registry, cache: CacheDir) returns (ok: bool)
    modifies reg, cache
    requires cache.Valid()
    ensures cache.Valid() && cache.present
    ensures cache.entries == old(cache.entries) && cache.accessible == old(cache.accessible)
    ensures ok == cache.accessible
    ensures ok ==> reg.Synced() && reg.Valid() && reg.instances == Reconciled(cache.entries)
    ensures ok ==> Consistent(reg, cache)
    ensures !ok ==> unchanged(reg)
  {
    if !cache.present {
      cache.MakeDir();
    }
    if !cache.accessible {
      return false;
    }
    var found := ScanInstances(cache.entries);
    Reregister(reg, found);
    ReconciledIsScan(cache.entries);
    return true;
  }

  /** `REGISTRY.clear()` followed by `add_instance` for every scanned instance. */
  method Reregister(reg: Registry, found: seq<Instance>)
    modifies reg
    ensures reg.Synced() && reg.Valid()
    ensures reg.instances == FirstOccurrences(found)
  {
    reg.Clear();
    var i := 0;
    ghost var added: seq<Instance> := [];
    while i < |found|
      invariant i <= |found| && added == found[..i]
      invariant reg.Synced()
      invariant reg.instances == FirstOccurrences(added)
    {
      ghost var before := reg.instances;
      reg.AddInstance(found[i]);
      assert reg.instances == Added(before, found[i]);
      FirstOccurrencesSnoc(added, found[i]);
      added := added + [found[i]];
      i := i + 1;
    }
    assert added == found;
    FirstOccurrencesDistinct(found);
  }
}
