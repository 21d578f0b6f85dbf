/**
  `Registry`: the list of installed instances, held in memory and in the
  index file `index.bin` of the cache. The index file is modelled by
  `fileExists` and `stored` (its unpickled contents); `writes` counts the
  times the file is written, so that the contracts can say when a method
  leaves it alone. Every method that reads the registry first loads it, as
  renutil does, and so sees `Loaded()`: the file's contents, or the list in
  memory when there is no file yet (loading then writes that list first).
 */
module RegistryStore {
  import opened Wrappers
  import opened Versions
  import opened Instances

  class Registry {
    const filename: string
    var instances: seq<Instance>
    var fileExists: bool
    var stored: seq<Instance>
    ghost var writes: nat

    /** What `load()` will read. */
    ghost function Loaded(): seq<Instance>
      reads this
    {
      if fileExists then stored else instances
    }

    /** The invariant: no version appears twice, in memory or on disk. */
    ghost predicate Valid()
      reads this
    {
      DistinctVersions(instances) && DistinctVersions(Loaded())
    }

    /** In memory and on disk agree. */
    ghost predicate Synced()
      reads this
    {
      fileExists && stored == instances
    }

    /** `Registry(filename)`, over an index file that holds `onDisk` or is missing. */
    constructor (filename: string, onDisk: Option<seq<Instance>>)
      ensures this.filename == filename && instances == []
      ensures fileExists == onDisk.Some? && (onDisk.Some? ==> stored == onDisk.value)
      ensures writes == 0
      ensures onDisk.Some? ==> Loaded() == onDisk.value
      ensures onDisk.None? ==> Loaded() == []
    {
      this.filename := filename;
      instances := [];
      fileExists := onDisk.Some?;
      stored := if onDisk.Some? then onDisk.value else [];
      writes := 0;
    }

    /** `persist()`: write the list to the index file. */
    method Persist()
      modifies this
      ensures Synced() && instances == old(instances)
      ensures writes == old(writes) + 1
    {
      stored := instances;
      fileExists := true;
      writes := writes + 1;
    }

    /** `load()`: create the index file from memory if it is missing, then read it. */
    method Load()
      modifies this
      ensures Synced() && instances == old(Loaded())
      ensures writes == old(writes) + (if old(fileExists) then 0 else 1)
      ensures old(Valid()) ==> Valid()
    {
      if !fileExists {
        Persist();
      }
      instances := stored;
    }

    /** `clear()`: empty the list and the file. */
    method Clear()
      modifies this
      ensures Synced() && instances == [] && Valid()
      ensures writes == old(writes) + 1
    {
      instances := [];
      Persist();
    }

    /**
      `add_instance(instance)`: when an instance of the same version is
      registered nothing changes (and nothing is written beyond what loading
      does); otherwise the instance goes to the end and the file is written.
     */
    method AddInstance(x: Instance)
      modifies this
      ensures Synced() && instances == Added(old(Loaded()), x)
      ensures HasVersion(old(Loaded()), x.version) ==>
                instances == old(Loaded()) &&
                writes == old(writes) + (if old(fileExists) then 0 else 1)
      ensures !HasVersion(old(Loaded()), x.version) ==>
                instances == old(Loaded()) + [x] && writes > old(writes)
      ensures old(Valid()) ==> Valid()
    {
      Load();
      if HasVersion(instances, x.version) {
        return;
      }
      instances := instances + [x];
      Persist();
      if DistinctVersions(old(Loaded())) {
        AddedKeepsDistinct(old(Loaded()), x);
      }
    }

    /**
      `remove_instance(instance)`: when no entry has the version nothing is
      written beyond what loading does; otherwise the enumerate-and-delete
      loop runs over the list and the result is written. On a valid registry
      exactly the entry with that version goes and the others keep their order.
     */
    method RemoveInstance(x: Instance)
      modifies this
      ensures Synced() && instances == RemoveSkipping(old(Loaded()), x.version)
      ensures !HasVersion(old(Loaded()), x.version) ==>
                instances == old(Loaded()) &&
                writes == old(writes) + (if old(fileExists) then 0 else 1)
      ensures old(Valid()) ==> Valid() && instances == Without(old(Loaded()), x.version)
      ensures old(Valid()) ==> !HasVersion(instances, x.version)
    {
      Load();
      ghost var orig := instances;
      if !HasVersion(instances, x.version) {
        AbsentUnchanged(orig, x.version);
        return;
      }
      ghost var goal := RemoveSkipping(orig, x.version);
      var i := 0;
      assert instances[..0] + RemoveSkipping(instances[0..], x.version) == goal by {
        assert instances[..0] == [] && instances[0..] == instances;
      }
      while i < |instances|
        invariant i <= |instances| + 1
        invariant Progress(instances, i, x.version, goal)
        invariant stored == orig && fileExists
        decreases |instances| + 1 - i
      {
        if instances[i].version == x.version {
          RemoveStep(instances, i, x.version, goal);
          instances := instances[..i] + instances[i + 1..];
        } else {
          KeepStep(instances, i, x.version, goal);
        }
        i := i + 1;
      }
      Finished(instances, i, x.version, goal);
      Persist();
      if DistinctVersions(orig) {
        RemoveSkippingIsWithout(orig, x.version);
        WithoutKeepsDistinct(orig, x.version);
      }
    }

    /** `get_instance(version)`: load, then the first entry with the version asked for. */
    method GetInstance(q: Query) returns (r: Option<Instance>)
      modifies this
      ensures Synced() && instances == old(Loaded())
      ensures r == Find(instances, q)
      ensures old(Valid()) ==> Valid()
    {
      Load();
      var v := Resolve(q);
      if v.None? {
        return None;
      }
      var i := 0;
      while i < |instances|
        invariant i <= |instances|
        invariant forall j :: 0 <= j < i ==> instances[j].version != v.value
      {
        if instances[i].version == v.value {
          FindAt(instances, q, i);
          return Some(instances[i]);
        }
        i := i + 1;
      }
      FindNone(instances, q);
      return None;
    }

    /** `installed(version)`: load, then whether some entry has the version asked for. */
    method Installed(q: Query) returns (b: bool)
      modifies this
      ensures Synced() && instances == old(Loaded())
      ensures b == IsInstalled(instances, q)
      ensures old(Valid()) ==> Valid()
    {
      Load();
      var v := Resolve(q);
      if v.None? {
        return false;
      }
      var i := 0;
      while i < |instances|
        invariant i <= |instances|
        invariant forall j :: 0 <= j < i ==> instances[j].version != v.value
      {
        if instances[i].version == v.value {
          FindAt(instances, q, i);
          LookupsAgree(instances, q);
          return true;
        }
        i := i + 1;
      }
      FindNone(instances, q);
      return false;
    }
  }

  /**
    The loop's invariant at position `i` of the list `s`: the entries before
    `i` are final and the rest is still to be filtered; position
    `|s| + 1` is reached when the last entry was deleted.
   */
  ghost predicate Progress(s: seq<Instance>, i: nat, v: Version, goal: seq<Instance>)
  {
    (i <= |s| ==> s[..i] + RemoveSkipping(s[i..], v) == goal)
    && (i == |s| + 1 ==> s == goal)
  }

  /** One deletion step of the enumerate-and-delete loop. */
  lemma RemoveStep(s: seq<Instance>, i: nat, v: Version, goal: seq<Instance>)
    requires i < |s| && s[i].version == v && Progress(s, i, v, goal)
    ensures Progress(s[..i] + s[i + 1..], i + 1, v, goal)
  {
    var t := s[..i] + s[i + 1..];
    if i + 1 < |s| {
      assert s[i..][1] == s[i + 1] && s[i..][2..] == s[i + 2..];
      assert t[..i + 1] == s[..i] + [s[i + 1]];
      assert t[i + 1..] == s[i + 2..];
    } else {
      assert s[i..] == [s[i]];
      assert t == s[..i];
    }
  }

  /** One step of the loop past an entry that stays. */
  lemma KeepStep(s: seq<Instance>, i: nat, v: Version, goal: seq<Instance>)
    requires i < |s| && s[i].version != v && Progress(s, i, v, goal)
    ensures Progress(s, i + 1, v, goal)
  {
    assert s[i..] == [s[i]] + s[i + 1..];
    assert s[..i + 1] == s[..i] + [s[i]];
  }

  /** When the loop stops the list is the goal. */
  lemma Finished(s: seq<Instance>, i: nat, v: Version, goal: seq<Instance>)
    requires i >= |s| && i <= |s| + 1 && Progress(s, i, v, goal)
    ensures s == goal
  {
    if i == |s| {
      assert s[i..] == [] && s[..i] == s;
    }
  }
}
