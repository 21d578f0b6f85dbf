/**
  The commands of renutil as steps over the registry and the cache
  directory: `install`, `uninstall`, `cleanup`, `launch` and `list`, with
  `valid_version` and `get_available_versions` which they use. A command
  that logs an error and exits with status 1 answers `Failed` with the
  reason; the state it leaves is what the steps before the exit did. The
  download page is an input (`None` when it cannot be fetched), the cache
  root is the string `root`, and downloading, extracting and patching the
  files inside a version's directory are not part of the listing, so they
  appear only as the names the commands create.
 */
module Commands {
  import opened Wrappers
  import opened Text
  import opened Versions
  import opened Instances
  import opened RegistryStore
  import opened Cache
  import opened Catalog
  import opened Precedence

  /** Why a command stops with exit status 1. */
  datatype Failure =
    | NotWritable       // the cache directory is not readable and writable
    | AlreadyInstalled  // `install` without `--force` of a registered version
    | InvalidVersion    // `install` of a version that is neither registered nor offered
    | NotInstalled      // `uninstall`, `cleanup` or `launch` of an unregistered version
    | NoConnection      // the download page could not be fetched

  datatype Outcome = Done | Failed(reason: Failure)

  /**
    `get_available_versions`: `assure_state`, then the releases of the
    page, highest first.
   */
  method GetAvailableVersions(reg: Registry, cache: CacheDir, page: Option<seq<string>>)
    returns (r: Result<seq<Release>, Failure>)
    modifies reg, cache
    requires cache.Valid()
    ensures cache.Valid() && cache.entries == old(cache.entries) && cache.accessible == old(cache.accessible)
    ensures old(cache.present) ==> cache.present
    ensures !cache.accessible ==> r == Err(NotWritable) && unchanged(reg)
    ensures cache.accessible ==> Consistent(reg, cache)
    ensures cache.accessible && page.None? ==> r == Err(NoConnection)
    ensures cache.accessible && page.Some? ==> r == Ok(Available(page.value))
  {
    var ok := AssureState(reg, cache);
    if !ok {
      return Err(NotWritable);
    }
    if page.None? {
      return Err(NoConnection);
    }
    var releases := ReadReleases(page.value);
    return Ok(SortDescending(releases, ReleaseKey));
  }

  /**
    `valid_version(version)`: false for a string that does not parse;
    true when the registry in memory holds the version (it is not loaded
    first); otherwise whether the download page offers it, which runs
    `assure_state` again and may exit.
   */
  method ValidVersion(reg: Registry, cache: CacheDir, version: string, page: Option<seq<string>>)
    returns (r: Result<bool, Failure>)
    modifies reg, cache
    requires cache.Valid()
    ensures cache.Valid() && cache.entries == old(cache.entries) && cache.accessible == old(cache.accessible)
    ensures old(cache.present) ==> cache.present
    ensures Parse(version).None? ==> r == Ok(false) && unchanged(reg)
    ensures Parse(version).Some? && HasVersion(old(reg.instances), Parse(version).value) ==>
              r == Ok(true) && unchanged(reg)
    ensures Parse(version).Some? && !HasVersion(old(reg.instances), Parse(version).value) ==>
              Checked(reg, cache, page, Parse(version).value, r)
  {
    var v := Parse(version);
    if v.None? {
      return Ok(false);
    }
    var known := Registered(reg.instances, v.value);
    if known {
      return Ok(true);
    }
    r := CheckOnline(reg, cache, page, v.value);
  }

  /** What `valid_version` answers for a version it did not find in memory. */
  ghost predicate Checked(reg: Registry, cache: CacheDir, page: Option<seq<string>>, v: Version,
                          r: Result<bool, Failure>)
    reads reg, cache
  {
    && (!cache.accessible ==> r == Err(NotWritable))
    && (cache.accessible ==> Consistent(reg, cache))
    && (cache.accessible && page.None? ==> r == Err(NoConnection))
    && (cache.accessible && page.Some? ==> r == Ok(Lists(page.value, MatchedVersion, v)))
  }

  /** The second half of `valid_version`: fetch the releases and look for the version. */
  method CheckOnline(reg: Registry, cache: CacheDir, page: Option<seq<string>>, v: Version)
    returns (r: Result<bool, Failure>)
    modifies reg, cache
    requires cache.Valid()
    ensures cache.Valid() && cache.entries == old(cache.entries) && cache.accessible == old(cache.accessible)
    ensures old(cache.present) ==> cache.present
    ensures !cache.accessible ==> unchanged(reg)
    ensures Checked(reg, cache, page, v, r)
  {
    var releases := GetAvailableVersions(reg, cache, page);
    if releases.Err? {
      return Err(releases.error);
    }
    AvailableSorted(page.value, v);
    var offered := Offered(releases.value, v);
    return Ok(offered);
  }

  /** `for instance in REGISTRY: if instance.version == version: return True` */
  method Registered(s: seq<Instance>, v: Version) returns (b: bool)
    ensures b == HasVersion(s, v)
  {
    var i := 0;
    while i < |s|
      invariant i <= |s|
      invariant forall j :: 0 <= j < i ==> s[j].version != v
    {
      if s[i].version == v {
        return true;
      }
      i := i + 1;
    }
    return false;
  }

  /** `for release in releases: if release.version == version: return True` */
  method Offered(rs: seq<Release>, v: Version) returns (b: bool)
    ensures b == Offers(rs, v)
  {
    var i := 0;
    while i < |rs|
      invariant i <= |rs|
      invariant forall j :: 0 <= j < i ==> rs[j].version != v
    {
      if rs[i].version == v {
        return true;
      }
      i := i + 1;
    }
    return false;
  }

  /**
    The listing once `install --force` has deleted the directory of the
    registered instance of `version`, if there was one to delete.
   */
  function Cleared(e: seq<string>, version: string, force: bool): seq<string>
  {
    if force && IsInstalled(Scanned(e), Text(version))
    then Erase(e, Find(Scanned(e), Text(version)).value.path)
    else e
  }

  /** The listing once the SDK and RAPT archives are downloaded and the SDK extracted. */
  function Fetched(e: seq<string>, version: string): seq<string>
  {
    Created(Created(Created(e, ArchiveName(version, "sdk")), ArchiveName(version, "rapt")), version)
  }

  /**
    `get_instance`, `remove_instance`, then `shutil.rmtree` of the
    instance's directory: the steps `uninstall` and `install --force` share.
   */
  method RemoveInstalled(reg: Registry, cache: CacheDir, version: string) returns (x: Instance)
    modifies reg, cache
    requires Consistent(reg, cache) && IsInstalled(reg.instances, Text(version))
    ensures Consistent(reg, cache)
    ensures Find(old(reg.instances), Text(version)) == Some(x)
    ensures cache.entries == Erase(old(cache.entries), x.path)
    ensures reg.instances == Without(old(reg.instances), x.version)
    ensures cache.accessible == old(cache.accessible) && cache.present == old(cache.present)
  {
    LookupsAgree(reg.instances, Text(version));
    var found := reg.GetInstance(Text(version));
    x := found.value;
    reg.RemoveInstance(x);
    ScannedErase(cache.entries, x);
    cache.RemoveTree(x.path);
  }

  /**
    Downloading `renpy-{version}-sdk.zip` and `renpy-{version}-rapt.zip`
    into the cache, extracting the SDK into the directory `version`, and
    `add_instance(RenpyInstance(version, version))`, for a version that
    parses and is not registered.
   */
  method Fetch(reg: Registry, cache: CacheDir, version: string)
    modifies reg, cache
    requires Consistent(reg, cache) && cache.present
    requires Parse(version).Some? && !HasVersion(reg.instances, Parse(version).value)
    ensures Consistent(reg, cache)
    ensures cache.entries == Fetched(old(cache.entries), version)
    ensures reg.instances == old(reg.instances) + [Instance(Parse(version).value, version)]
    ensures cache.accessible == old(cache.accessible) && cache.present
  {
    var v := Parse(version).value;
    ParsedHasNoSlash(version);
    ArchiveNameNotScanned(version, "sdk");
    ArchiveNameNotScanned(version, "rapt");
    ghost var e0 := cache.entries;
    FetchedScan(e0, version);
    cache.Create(ArchiveName(version, "sdk"));
    cache.Create(ArchiveName(version, "rapt"));
    cache.Create(version);
    reg.AddInstance(Instance(v, version));
  }

  /**
    `install(version, force)`. After `assure_state`, a registered version
    is an error unless `force` is set, in which case its entry and
    directory go first, before the version is checked. A version that is
    neither registered nor offered is an error. Otherwise the archives and
    the version's directory are created and the instance is registered, so
    the registry still holds exactly the scan of the directory.
   */
  method Install(reg: Registry, cache: CacheDir, version: string, force: bool, page: Option<seq<string>>)
    returns (out: Outcome)
    modifies reg, cache
    requires cache.Valid()
    ensures cache.Valid() && cache.accessible == old(cache.accessible)
    ensures !cache.accessible ==>
              out == Failed(NotWritable) && unchanged(reg) && cache.entries == old(cache.entries)
    ensures cache.accessible ==> Consistent(reg, cache)
    ensures cache.accessible && IsInstalled(Scanned(old(cache.entries)), Text(version)) && !force ==>
              out == Failed(AlreadyInstalled) && cache.entries == old(cache.entries)
    ensures cache.accessible && !(IsInstalled(Scanned(old(cache.entries)), Text(version)) && !force) ==>
              InstallOutcome(old(cache.entries), version, force, page, out, cache.entries)
  {
    var ok := AssureState(reg, cache);
    if !ok {
      return Failed(NotWritable);
    }
    var installed := reg.Installed(Text(version));
    if installed && !force {
      return Failed(AlreadyInstalled);
    }
    out := InstallChecked(reg, cache, version, force, installed, page);
  }

  /** The rest of `install`, once the version is known not to be registered or `force` is set. */
  method InstallChecked(reg: Registry, cache: CacheDir, version: string, force: bool, installed: bool,
                        page: Option<seq<string>>)
    returns (out: Outcome)
    modifies reg, cache
    requires Consistent(reg, cache) && cache.present && cache.accessible
    requires installed == IsInstalled(reg.instances, Text(version)) && (installed ==> force)
    ensures Consistent(reg, cache) && cache.accessible
    ensures InstallOutcome(old(cache.entries), version, force, page, out, cache.entries)
  {
    ghost var e0 := cache.entries;
    if installed {
      var x := RemoveInstalled(reg, cache, version);
    }
    assert cache.entries == Cleared(e0, version, force);
    assert Parse(version).Some? ==> !HasVersion(reg.instances, Parse(version).value);
    var valid := ValidVersion(reg, cache, version, page);
    if valid.Err? {
      return Failed(valid.error);
    }
    if !valid.value {
      return Failed(InvalidVersion);
    }
    Fetch(reg, cache, version);
    return Done;
  }

  /**
    What `install` does once it gets past the "already installed" guard, on
    the listing `e` it started from: every exit leaves the listing as the
    forced removal left it, and success adds the two archives and the
    version's directory.
   */
  ghost predicate InstallOutcome(e: seq<string>, version: string, force: bool,
                                 page: Option<seq<string>>, out: Outcome, after: seq<string>)
  {
    var e1 := Cleared(e, version, force);
    if Parse(version).None? then
      out == Failed(InvalidVersion) && after == e1
    else if page.None? then
      out == Failed(NoConnection) && after == e1
    else if !Lists(page.value, MatchedVersion, Parse(version).value) then
      out == Failed(InvalidVersion) && after == e1
    else
      out == Done && after == Fetched(e1, version)
  }

  // ----- what install and uninstall leave in the scan -----

  /** The forced removal unregisters the version and keeps the rest of the scan. */
  lemma ClearedScan(e: seq<string>, version: string, force: bool)
    requires NamesValid(e)
    ensures NamesValid(Cleared(e, version, force))
    ensures Parse(version).Some? && force ==>
              Scanned(Cleared(e, version, force)) == Without(Scanned(e), Parse(version).value)
    ensures !force ==> Cleared(e, version, force) == e
    ensures Parse(version).Some? && (force || !IsInstalled(Scanned(e), Text(version))) ==>
              !HasVersion(Scanned(Cleared(e, version, force)), Parse(version).value)
  {
    var q := Text(version);
    if force && IsInstalled(Scanned(e), q) {
      var x := Find(Scanned(e), q).value;
      ScannedErase(e, x);
      EraseKeepsValid(e, x.path);
    } else if Parse(version).Some? && !IsInstalled(Scanned(e), q) {
      AbsentUnchanged(Scanned(e), Parse(version).value);
    }
  }

  /** Fetching a version that is not registered adds exactly its instance to the scan. */
  lemma FetchedScan(e: seq<string>, version: string)
    requires NamesValid(e) && Parse(version).Some? && !HasVersion(Scanned(e), Parse(version).value)
    ensures NamesValid(Fetched(e, version))
    ensures Scanned(Fetched(e, version)) == Scanned(e) + [Instance(Parse(version).value, version)]
  {
    var v := Parse(version).value;
    ParsedHasNoSlash(version);
    var sdk := ArchiveName(version, "sdk");
    var rapt := ArchiveName(version, "rapt");
    ArchiveNameNotScanned(version, "sdk");
    ArchiveNameNotScanned(version, "rapt");
    CreatedKeepsValid(e, sdk);
    var e1 := Created(e, sdk);
    ScannedCreatedOther(e, sdk);
    CreatedKeepsValid(e1, rapt);
    var e2 := Created(e1, rapt);
    ScannedCreatedOther(e1, rapt);
    MatchIff(version);
    if version in e2 {
      ListedNameScanned(e2, version, v);
      assert false;
    }
    CreatedKeepsValid(e2, version);
    ScannedCreatedNew(e2, version);
  }

  /**
    A successful `install` leaves the version registered once, under its
    own name, after every other instance the directory held.
   */
  lemma InstallRegisters(e: seq<string>, version: string, force: bool, page: Option<seq<string>>,
                         after: seq<string>)
    requires NamesValid(e) && InstallOutcome(e, version, force, page, Done, after)
    requires force || !IsInstalled(Scanned(e), Text(version))
    ensures Parse(version).Some? && page.Some?
    ensures Lists(page.value, MatchedVersion, Parse(version).value)
    ensures Scanned(after) == Scanned(Cleared(e, version, force)) + [Instance(Parse(version).value, version)]
    ensures DistinctVersions(Scanned(after))
  {
    ClearedScan(e, version, force);
    FetchedScan(Cleared(e, version, force), version);
    ScannedDistinct(after);
  }

  /**
    `install --force` of a registered version that then fails has already
    deleted the old directory and left the version unregistered.
   */
  lemma ForcedRemovalComesFirst(e: seq<string>, version: string, page: Option<seq<string>>,
                                out: Outcome, after: seq<string>)
    requires NamesValid(e) && IsInstalled(Scanned(e), Text(version))
    requires InstallOutcome(e, version, true, page, out, after) && out != Done
    ensures Find(Scanned(e), Text(version)).value.path !in after
    ensures !HasVersion(Scanned(after), Parse(version).value)
  {
    ClearedScan(e, version, true);
  }

  /** A string that does not parse is rejected, and nothing is changed. */
  lemma InstallRejectsBadText(e: seq<string>, version: string, force: bool, page: Option<seq<string>>,
                              out: Outcome, after: seq<string>)
    requires Parse(version).None? && InstallOutcome(e, version, force, page, out, after)
    ensures out == Failed(InvalidVersion) && after == e
  {
  }

  /**
    `uninstall(version)`: after `assure_state`, an unregistered version is
    an error that changes nothing; otherwise the entry goes from the
    registry and then its directory from the cache.
   */
  method Uninstall(reg: Registry, cache: CacheDir, version: string) returns (out: Outcome)
    modifies reg, cache
    requires cache.Valid()
    ensures cache.Valid() && cache.accessible == old(cache.accessible)
    ensures !cache.accessible ==>
              out == Failed(NotWritable) && unchanged(reg) && cache.entries == old(cache.entries)
    ensures cache.accessible ==> Consistent(reg, cache)
    ensures cache.accessible && !IsInstalled(Scanned(old(cache.entries)), Text(version)) ==>
              out == Failed(NotInstalled) && cache.entries == old(cache.entries)
    ensures cache.accessible && IsInstalled(Scanned(old(cache.entries)), Text(version)) ==>
              out == Done &&
              cache.entries == Erase(old(cache.entries), Find(Scanned(old(cache.entries)), Text(version)).value.path) &&
              reg.instances == Without(Scanned(old(cache.entries)), Parse(version).value)
  {
    var ok := AssureState(reg, cache);
    if !ok {
      return Failed(NotWritable);
    }
    var installed := reg.Installed(Text(version));
    if !installed {
      return Failed(NotInstalled);
    }
    var x := RemoveInstalled(reg, cache, version);
    return Done;
  }

  /** After `uninstall` the version is gone and every other instance stays, in its order. */
  lemma UninstallKeepsOthers(e: seq<string>, version: string)
    requires NamesValid(e) && IsInstalled(Scanned(e), Text(version))
    ensures !HasVersion(Without(Scanned(e), Parse(version).value), Parse(version).value)
    ensures exists k :: 0 <= k < |Scanned(e)| && Scanned(e)[k].version == Parse(version).value &&
                        Without(Scanned(e), Parse(version).value) == Scanned(e)[..k] + Scanned(e)[k + 1..]
  {
    var s := Scanned(e);
    var v := Parse(version).value;
    ScannedDistinct(e);
    var k :| 0 <= k < |s| && s[k].version == v;
    WithoutAt(s, v, k);
  }

  /** The directories `cleanup` deletes when they exist, relative to the cache. */
  function CleanupDirs(x: Instance): seq<string>
  {
    [JoinPath(x.path, "tmp"),
     JoinPath(RaptPath(x), "assets"),
     JoinPath(RaptPath(x), "bin"),
     JoinPath(JoinPath(RaptPath(x), "project"), "app")]
  }

  /** The same directories under the cache root, as `cleanup` tests and deletes them. */
  function CleanupPaths(root: string, x: Instance): seq<string>
  {
    var dirs := CleanupDirs(x);
    seq(|dirs|, i requires 0 <= i < |dirs| => JoinPath(root, dirs[i]))
  }

  /** Each directory `cleanup` deletes is inside the instance's directory. */
  lemma CleanupDirsInside(x: Instance)
    requires x.path != [] && !EndsWith(x.path, '/')
    ensures |CleanupDirs(x)| == 4
    ensures forall i :: 0 <= i < 4 ==> StartsWith(CleanupDirs(x)[i], x.path + "/")
  {
    var d := x.path + "/";
    var r := RaptPath(x);
    var pr := JoinPath(r, "project");
    JoinedUnder(x.path, "tmp");
    JoinedUnder(x.path, "rapt");
    JoinedUnder(r, "assets");
    StartsWithTrans(JoinPath(r, "assets"), r, d);
    JoinedUnder(r, "bin");
    StartsWithTrans(JoinPath(r, "bin"), r, d);
    JoinedUnder(r, "project");
    StartsWithTrans(pr, r, d);
    JoinedUnder(pr, "app");
    StartsWithTrans(JoinPath(pr, "app"), pr, d);
  }

  /**
    Every directory `cleanup` deletes lies inside the instance's own
    directory, so no other instance and nothing else in the cache is touched.
   */
  lemma CleanupStaysInside(root: string, x: Instance)
    requires root != [] && !EndsWith(root, '/')
    requires x.path != [] && !EndsWith(x.path, '/')
    ensures |CleanupPaths(root, x)| == 4
    ensures forall i :: 0 <= i < 4 ==> StartsWith(CleanupPaths(root, x)[i], root + "/" + x.path + "/")
  {
    CleanupDirsInside(x);
    var d := x.path + "/";
    assert root + "/" + x.path + "/" == root + "/" + d;
    forall i | 0 <= i < 4 ensures StartsWith(CleanupPaths(root, x)[i], root + "/" + d) {
      WithinRoot(root, CleanupDirs(x)[i], d);
    }
  }

  /** `os.path.join(a, b)` with a plain `a` starts with `a/`. */
  lemma JoinedUnder(a: string, b: string)
    requires a != [] && !EndsWith(a, '/')
    ensures StartsWith(JoinPath(a, b), a + "/")
    ensures b != [] && !EndsWith(b, '/') ==> JoinPath(a, b) != [] && !EndsWith(JoinPath(a, b), '/')
  {
    assert JoinPath(a, b) == (a + "/") + b;
    assert ((a + "/") + b)[..|a + "/"|] == a + "/";
  }

  lemma StartsWithTrans(s: string, t: string, p: string)
    requires StartsWith(s, t) && StartsWith(t, p)
    ensures StartsWith(s, p)
  {
    assert s[..|p|] == s[..|t|][..|p|];
  }

  /** A path under `d`, joined under the root, is under `root/d`. */
  lemma WithinRoot(root: string, rel: string, d: string)
    requires root != [] && !EndsWith(root, '/') && StartsWith(rel, d)
    ensures StartsWith(JoinPath(root, rel), root + "/" + d)
  {
    var pre := root + "/";
    assert JoinPath(root, rel) == pre + rel;
    assert (pre + rel)[..|pre + d|] == pre + rel[..|d|];
  }

  /**
    The guard that `cleanup` and `launch` share: `assure_state`, then the
    registered instance of the version, or an error when there is none.
   */
  method InstalledInstance(reg: Registry, cache: CacheDir, version: string)
    returns (r: Result<Instance, Failure>)
    modifies reg, cache
    requires cache.Valid()
    ensures cache.Valid() && cache.entries == old(cache.entries) && cache.accessible == old(cache.accessible)
    ensures !cache.accessible ==> r == Err(NotWritable) && unchanged(reg)
    ensures cache.accessible ==> Consistent(reg, cache)
    ensures cache.accessible && !IsInstalled(Scanned(old(cache.entries)), Text(version)) ==>
              r == Err(NotInstalled)
    ensures cache.accessible && IsInstalled(Scanned(old(cache.entries)), Text(version)) ==>
              r.Ok? && Find(Scanned(old(cache.entries)), Text(version)) == Some(r.value)
  {
    var ok := AssureState(reg, cache);
    if !ok {
      return Err(NotWritable);
    }
    var installed := reg.Installed(Text(version));
    if !installed {
      return Err(NotInstalled);
    }
    LookupsAgree(reg.instances, Text(version));
    var found := reg.GetInstance(Text(version));
    return Ok(found.value);
  }

  /**
    `cleanup(version)`: the temporary directories of a registered instance,
    to be deleted where they exist; the cache listing itself is unchanged.
   */
  method Cleanup(reg: Registry, cache: CacheDir, root: string, version: string)
    returns (out: Outcome, paths: seq<string>)
    modifies reg, cache
    requires cache.Valid()
    ensures cache.Valid() && cache.entries == old(cache.entries) && cache.accessible == old(cache.accessible)
    ensures cache.accessible ==> Consistent(reg, cache)
    ensures out.Failed? ==> paths == []
    ensures !cache.accessible ==> out == Failed(NotWritable) && unchanged(reg)
    ensures cache.accessible && !IsInstalled(Scanned(old(cache.entries)), Text(version)) ==>
              out == Failed(NotInstalled)
    ensures cache.accessible && IsInstalled(Scanned(old(cache.entries)), Text(version)) ==>
              out == Done && paths == CleanupPaths(root, Find(Scanned(old(cache.entries)), Text(version)).value)
  {
    var found := InstalledInstance(reg, cache, version);
    if found.Err? {
      return Failed(found.error), [];
    }
    return Done, CleanupPaths(root, found.value);
  }

  /** A registered instance's directory is a plain name, so `CleanupStaysInside` applies to it. */
  lemma RegisteredPathIsName(e: seq<string>, version: string)
    requires NamesValid(e) && IsInstalled(Scanned(e), Text(version))
    ensures Find(Scanned(e), Text(version)).value.path != []
    ensures !EndsWith(Find(Scanned(e), Text(version)).value.path, '/')
  {
    var x := Find(Scanned(e), Text(version)).value;
    ScannedPath(e, x);
  }

  /**
    `launch(version, direct, args)`: for a registered instance, the
    arguments that follow the Ren'Py executable and `-EO renpy.py`: the
    launcher project unless `direct` is set, then the user's arguments.
   */
  method Launch(reg: Registry, cache: CacheDir, root: string, version: string, direct: bool,
                args: seq<string>)
    returns (out: Outcome, tail: seq<string>)
    modifies reg, cache
    requires cache.Valid()
    ensures cache.Valid() && cache.entries == old(cache.entries) && cache.accessible == old(cache.accessible)
    ensures cache.accessible ==> Consistent(reg, cache)
    ensures out.Failed? ==> tail == []
    ensures !cache.accessible ==> out == Failed(NotWritable) && unchanged(reg)
    ensures cache.accessible && !IsInstalled(Scanned(old(cache.entries)), Text(version)) ==>
              out == Failed(NotInstalled)
    ensures cache.accessible && IsInstalled(Scanned(old(cache.entries)), Text(version)) ==>
              var x := Find(Scanned(old(cache.entries)), Text(version)).value;
              out == Done && tail == (if direct then [] else [JoinPath(root, LauncherPath(x))]) + args
  {
    var found := InstalledInstance(reg, cache, version);
    if found.Err? {
      return Failed(found.error), [];
    }
    var launcher := if direct then [] else [JoinPath(root, LauncherPath(found.value))];
    return Done, launcher + args;
  }

  /** The lines `list --local -n count` prints for a registry. */
  function LocalLines(s: seq<Instance>, count: int): seq<string>
  {
    Lines(Take(InstalledSorted(s), count), InstanceKey)
  }

  /** The lines `list --all -n count` prints for a download page. */
  function OnlineLines(links: seq<string>, count: int): seq<string>
  {
    Lines(Take(Available(links), count), ReleaseKey)
  }

  /**
    `list(show_all, count)`: after `assure_state`, the first `count`
    versions, highest first, of the registry or of the download page.
    An empty list prints only a warning.
   */
  method List(reg: Registry, cache: CacheDir, showAll: bool, count: int, page: Option<seq<string>>)
    returns (out: Outcome, lines: seq<string>)
    modifies reg, cache
    requires cache.Valid()
    ensures cache.Valid() && cache.entries == old(cache.entries) && cache.accessible == old(cache.accessible)
    ensures cache.accessible ==> Consistent(reg, cache)
    ensures out.Failed? ==> lines == []
    ensures !cache.accessible ==> out == Failed(NotWritable) && unchanged(reg)
    ensures cache.accessible && !showAll ==>
              out == Done && lines == LocalLines(Scanned(old(cache.entries)), count)
    ensures cache.accessible && showAll && page.None? ==> out == Failed(NoConnection)
    ensures cache.accessible && showAll && page.Some? ==>
              out == Done && lines == OnlineLines(page.value, count)
  {
    var ok := AssureState(reg, cache);
    if !ok {
      return Failed(NotWritable), [];
    }
    if showAll {
      var releases := GetAvailableVersions(reg, cache, page);
      if releases.Err? {
        return Failed(releases.error), [];
      }
      lines := Lines(Take(releases.value, count), ReleaseKey);
    } else {
      var instances := SortDescending(reg.instances, InstanceKey);
      lines := Lines(Take(instances, count), InstanceKey);
    }
    return Done, lines;
  }

  /**
    What `list --local` prints: at most `count` lines (for a count that is
    not negative), each the version string of a registered instance, in
    descending order.
   */
  lemma LocalLinesListed(e: seq<string>, count: int, i: nat)
    requires i < |LocalLines(Scanned(e), count)|
    ensures 0 <= count ==> |LocalLines(Scanned(e), count)| <= count
    ensures exists x :: x in Scanned(e) && LocalLines(Scanned(e), count)[i] == Render(x.version)
    ensures forall j :: i < j < |LocalLines(Scanned(e), count)| ==>
              Compare(InstalledSorted(Scanned(e))[j].version, InstalledSorted(Scanned(e))[i].version) <= 0
  {
    var s := Scanned(e);
    var sorted := InstalledSorted(s);
    InstalledSortedCorrect(s);
    TakeLines(sorted, count, i);
    assert sorted[i] in multiset(s);
  }

  /** The first `count` lines of a list are the lines of its first elements. */
  lemma TakeLines(s: seq<Instance>, count: int, i: nat)
    requires i < |Lines(Take(s, count), InstanceKey)|
    ensures 0 <= count ==> |Take(s, count)| <= count
    ensures i < |s| && Lines(Take(s, count), InstanceKey)[i] == Render(s[i].version)
  {
    var t := Take(s, count);
    assert |Lines(t, InstanceKey)| == |t| <= |s|;
    assert Lines(t, InstanceKey)[i] == Render(InstanceKey(t[i]));
    assert t[i] == s[i];
  }

  /**
    Installing 7.3.5 into an empty cache, with a download page that links
    `7.3.5/`, succeeds and creates the two archives and the directory `7.3.5`.
   */
  lemma InstallSevenThreeFive()
    ensures InstallOutcome([], "7.3.5", false, Some(["7.3.5/"]), Done, Fetched([], "7.3.5"))
    ensures Scanned(Fetched([], "7.3.5")) == [Instance(Version(7, 3, 5, [], []), "7.3.5")]
  {
    var v := Version(7, 3, 5, [], []);
    AcceptsPlainAndSlash();
    var page := ["7.3.5/"];
    assert MatchedVersion(page[0]) == Some(v);
    assert Lists(page, MatchedVersion, v);
    assert Scanned([]) == [];
    FetchedScan([], "7.3.5");
  }

  /** After that install, `list` (local, five entries) prints exactly `7.3.5`. */
  lemma ListAfterInstall()
    ensures LocalLines(Scanned(Fetched([], "7.3.5")), 5) == ["7.3.5"]
  {
    InstallSevenThreeFive();
    RenderSevenThreeFive();
    LocalLinesOne(Instance(Version(7, 3, 5, [], []), "7.3.5"), 5);
  }

  /** A registry of one instance lists that instance's version. */
  lemma LocalLinesOne(x: Instance, count: int)
    requires count >= 1
    ensures LocalLines([x], count) == [Render(x.version)]
  {
    assert InstalledSorted([x]) == [x];
    assert Take([x], count) == [x];
    assert Lines([x], InstanceKey)[0] == Render(x.version);
  }
}
