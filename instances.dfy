/**
  The records renutil keeps about SDKs: an installed instance (a version and
  the name of its directory in the cache), a release offered for download,
  and the way a version is asked for, either as text that may fail to parse
  or as an already parsed version. Two instances are equal for the registry
  when their versions are, whatever their paths, as with the equality of
  `ComparableVersion`. The functions below are the specifications of the
  registry's list operations.
 */
module Instances {
  import opened Wrappers
  import opened Text
  import opened Versions

  /** `RenpyInstance`: a version and its directory, relative to the cache. */
  datatype Instance = Instance(version: Version, path: string)

  /** `RenpyRelease`: a version offered by renpy.org and the URL of its SDK archive. */
  datatype Release = Release(version: Version, url: string)

  /** A version argument: a string still to be parsed, or a parsed version. */
  datatype Query = Text(text: string) | Exact(version: Version)

  /** `os.path.join(a, b)` for a relative `b`. */
  function JoinPath(a: string, b: string): (r: string)
    ensures a == [] ==> r == b
    ensures a != [] ==> StartsWith(r, a) && EndsWithPart(r, b)
    ensures a != [] && !EndsWith(a, '/') ==> r == a + "/" + b
  {
    if a == [] || EndsWith(a, '/') then a + b else a + "/" + b
  }

  /** `r` ends with `b`, and the character before it is a `/`. */
  predicate EndsWithPart(r: string, b: string)
  {
    |b| < |r| && r[|r| - |b|..] == b && r[|r| - |b| - 1] == '/'
  }

  /** `instance.rapt_path` */
  function RaptPath(i: Instance): string
  {
    JoinPath(i.path, "rapt")
  }

  /** `instance.launcher_path` */
  function LauncherPath(i: Instance): string
  {
    JoinPath(i.path, "launcher")
  }

  /** The version a query asks for, or `None` where `Version(text)` raises `ValueError`. */
  function Resolve(q: Query): (r: Option<Version>)
    ensures q.Text? ==> (r.Some? <==> Parse(q.text).Some?)
    ensures q.Text? && r.Some? ==> WellFormed(r.value) && Render(r.value) == q.text
    ensures q.Exact? ==> r == Some(q.version)
  {
    match q
    case Text(t) =>
      if Parse(t).Some? then RenderParse(t); Parse(t) else None
    case Exact(v) => Some(v)
  }

  /** Some entry has version `v` (membership with version equality). */
  predicate HasVersion(s: seq<Instance>, v: Version)
  {
    exists i :: 0 <= i < |s| && s[i].version == v
  }

  /** No two entries share a version: the registry's invariant. */
  predicate DistinctVersions(s: seq<Instance>)
  {
    forall i, j :: 0 <= i < j < |s| ==> s[i].version != s[j].version
  }

  /** The position of the first entry with version `v`. */
  function FirstIndex(s: seq<Instance>, v: Version): (r: Option<nat>)
    ensures r.None? <==> !HasVersion(s, v)
    ensures r.Some? ==> r.value < |s| && s[r.value].version == v
    ensures r.Some? ==> forall j :: 0 <= j < r.value ==> s[j].version != v
  {
    if s == [] then None
    else if s[0].version == v then Some(0)
    else
      match FirstIndex(s[1..], v)
      case None =>
        assert !HasVersion(s, v) by {
          forall i | 0 <= i < |s| ensures s[i].version != v {
            if i > 0 { assert s[i] == s[1..][i - 1]; }
          }
        }
        None
      case Some(k) => Some(k + 1)
  }

  /** `get_instance(version)` on a list: the first entry whose version is asked for. */
  function Find(s: seq<Instance>, q: Query): (r: Option<Instance>)
    ensures Resolve(q).None? ==> r.None?
    ensures r.Some? ==> r.value in s && Some(r.value.version) == Resolve(q)
    ensures r.Some? ==> exists k :: 0 <= k < |s| && s[k] == r.value &&
                                    forall j :: 0 <= j < k ==> s[j].version != r.value.version
  {
    match Resolve(q)
    case None => None
    case Some(v) =>
      match FirstIndex(s, v)
      case None => None
      case Some(k) => Some(s[k])
  }

  /** The lookup answers the first entry with the version asked for. */
  lemma FindAt(s: seq<Instance>, q: Query, k: nat)
    requires Resolve(q).Some? && k < |s| && s[k].version == Resolve(q).value
    requires forall j :: 0 <= j < k ==> s[j].version != Resolve(q).value
    ensures Find(s, q) == Some(s[k])
  {
    var r := FirstIndex(s, Resolve(q).value);
    assert r.Some? by {
      assert HasVersion(s, Resolve(q).value);
    }
  }

  /** No entry with the version asked for: nothing is found. */
  lemma FindNone(s: seq<Instance>, q: Query)
    requires Resolve(q).Some?
    requires forall j :: 0 <= j < |s| ==> s[j].version != Resolve(q).value
    ensures Find(s, q) == None && !IsInstalled(s, q)
  {
  }

  /** `installed(version)` on a list. */
  function IsInstalled(s: seq<Instance>, q: Query): (b: bool)
    ensures b <==> Resolve(q).Some? && HasVersion(s, Resolve(q).value)
  {
    match Resolve(q)
    case None => false
    case Some(v) => FirstIndex(s, v).Some?
  }

  /** The two lookups agree: a version is installed exactly when it can be fetched. */
  lemma LookupsAgree(s: seq<Instance>, q: Query)
    ensures IsInstalled(s, q) <==> Find(s, q).Some?
    ensures Find(s, q).Some? ==> Find(s, q).value.version == Resolve(q).value
  {
  }

  /** A string that does not parse is neither found nor installed. */
  lemma BadTextRejected(s: seq<Instance>, t: string)
    requires Parse(t).None?
    ensures Find(s, Text(t)) == None && !IsInstalled(s, Text(t))
  {
  }

  /** `add_instance` on a list: nothing happens when the version is present, else append. */
  function Added(s: seq<Instance>, x: Instance): seq<Instance>
  {
    if HasVersion(s, x.version) then s else s + [x]
  }

  /** Adding keeps versions distinct, and after it the version is present. */
  lemma AddedKeepsDistinct(s: seq<Instance>, x: Instance)
    requires DistinctVersions(s)
    ensures DistinctVersions(Added(s, x))
    ensures HasVersion(Added(s, x), x.version)
  {
    if !HasVersion(s, x.version) {
      assert Added(s, x)[|s|] == x;
    }
  }

  /** Adding the same instance twice is adding it once. */
  lemma AddedIdempotent(s: seq<Instance>, x: Instance)
    ensures Added(Added(s, x), x) == Added(s, x)
  {
    if !HasVersion(s, x.version) {
      assert (s + [x])[|s|] == x;
    }
  }

  /** What is present after adding: what was there, plus the new version. */
  lemma AddedVersions(s: seq<Instance>, x: Instance, v: Version)
    ensures HasVersion(Added(s, x), v) <==> HasVersion(s, v) || v == x.version
  {
    var r := Added(s, x);
    if !HasVersion(s, x.version) {
      assert r[|s|] == x;
      if HasVersion(r, v) && v != x.version {
        var i :| 0 <= i < |r| && r[i].version == v;
        assert r[i] == s[i];
      }
      if HasVersion(s, v) {
        var i :| 0 <= i < |s| && s[i].version == v;
        assert r[i] == s[i];
      }
    }
  }

  /** The entries whose version is not `v`, in their order. */
  function Without(s: seq<Instance>, v: Version): (r: seq<Instance>)
    ensures !HasVersion(r, v)
    ensures |r| <= |s|
  {
    if s == [] then []
    else if s[0].version == v then Without(s[1..], v)
    else
      var rest := Without(s[1..], v);
      assert !HasVersion([s[0]] + rest, v) by {
        forall i | 0 <= i < |[s[0]] + rest| ensures ([s[0]] + rest)[i].version != v {
          if i > 0 { assert ([s[0]] + rest)[i] == rest[i - 1]; }
        }
      }
      [s[0]] + rest
  }

  /**
    The loop of `remove_instance` as written: it deletes a matching entry
    while enumerating the list, so the entry after a deleted one is never
    examined.
   */
  function RemoveSkipping(s: seq<Instance>, v: Version): seq<Instance>
  {
    if s == [] then []
    else if s[0].version == v then
      (if |s| == 1 then [] else [s[1]] + RemoveSkipping(s[2..], v))
    else [s[0]] + RemoveSkipping(s[1..], v)
  }

  /** A list without version `v` passes through both removals unchanged. */
  lemma {:induction false} AbsentUnchanged(s: seq<Instance>, v: Version)
    requires !HasVersion(s, v)
    ensures RemoveSkipping(s, v) == s && Without(s, v) == s
  {
    if s != [] {
      assert s[0] == s[0] && s[0].version != v;
      assert !HasVersion(s[1..], v) by {
        forall i | 0 <= i < |s[1..]| ensures s[1..][i].version != v {
          assert s[1..][i] == s[i + 1];
        }
      }
      AbsentUnchanged(s[1..], v);
      assert [s[0]] + s[1..] == s;
    }
  }

  lemma DistinctTail(s: seq<Instance>)
    requires DistinctVersions(s) && s != []
    ensures DistinctVersions(s[1..]) && !HasVersion(s[1..], s[0].version)
  {
    assert forall i :: 0 <= i < |s[1..]| ==> s[1..][i] == s[i + 1];
  }

  /**
    Under the registry's invariant the loop as written removes exactly the
    one entry with version `v` and keeps the others in their order.
   */
  lemma {:induction false} RemoveSkippingIsWithout(s: seq<Instance>, v: Version)
    requires DistinctVersions(s)
    ensures RemoveSkipping(s, v) == Without(s, v)
  {
    if s != [] {
      DistinctTail(s);
      if s[0].version == v {
        AbsentUnchanged(s[1..], v);
        if |s| > 1 {
          assert [s[1]] + s[2..] == s[1..];
          DistinctTail(s[1..]);
          assert s[1..][1..] == s[2..];
          assert !HasVersion(s[2..], v) by {
            forall i | 0 <= i < |s[2..]| ensures s[2..][i].version != v {
              assert s[2..][i] == s[1..][i + 1];
            }
          }
          AbsentUnchanged(s[2..], v);
        }
      } else {
        RemoveSkippingIsWithout(s[1..], v);
      }
    }
  }

  /** With distinct versions, removing `v` cuts out exactly the entry at its index. */
  lemma {:induction false} WithoutAt(s: seq<Instance>, v: Version, k: nat)
    requires DistinctVersions(s)
    requires k < |s| && s[k].version == v
    ensures Without(s, v) == s[..k] + s[k + 1..]
  {
    DistinctTail(s);
    if k == 0 {
      AbsentUnchanged(s[1..], v);
    } else {
      assert s[0].version != v;
      assert s[1..][k - 1] == s[k];
      WithoutAt(s[1..], v, k - 1);
      assert s[1..][..k - 1] == s[1..k] && s[1..][k..] == s[k + 1..];
      assert [s[0]] + s[1..k] == s[..k];
    }
  }

  /** The loop as written leaves the second of two adjacent entries with the same version. */
  lemma RemoveSkippingLeavesNeighbour(a: Instance, b: Instance)
    requires a.version == b.version
    ensures RemoveSkipping([a, b], a.version) == [b]
  {
    assert [a, b][2..] == [];
  }

  /** Removal keeps the invariant. */
  lemma {:induction false} WithoutKeepsDistinct(s: seq<Instance>, v: Version)
    requires DistinctVersions(s)
    ensures DistinctVersions(Without(s, v))
    ensures forall x :: x in Without(s, v) ==> x in s
  {
    if s != [] {
      DistinctTail(s);
      WithoutKeepsDistinct(s[1..], v);
      if s[0].version != v {
        var rest := Without(s[1..], v);
        var r := [s[0]] + rest;
        forall i, j | 0 <= i < j < |r| ensures r[i].version != r[j].version {
          assert r[j] == rest[j - 1] && r[j] in s[1..];
          if i > 0 {
            assert r[i] == rest[i - 1];
          }
        }
      }
    }
  }
}
