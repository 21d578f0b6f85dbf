/**
  The order on versions. renutil sorts instances and releases with the
  comparison operators of the `semantic_version` library, which this model
  does not contain; the order used here is the precedence of SemVer 2.0.0,
  section 11, as a stand-in: major, minor and patch compare numerically, a
  version with a pre-release ranks below the same version without one,
  pre-release identifiers compare one by one (numeric ones by value, below
  alphanumeric ones, which compare as text), a shorter list of identifiers
  ranks below a longer one it begins, and build metadata is ignored.
  `Compare` answers -1, 0 or 1; the lemmas show that it is a total preorder
  whose ties are exactly the versions that differ at most in build metadata.
 */
module Precedence {
  import opened Text
  import opened Versions

  function CompareNat(a: nat, b: nat): int
  {
    if a < b then -1 else if a > b then 1 else 0
  }

  function CompareIdentifier(a: Identifier, b: Identifier): int
  {
    match (a, b)
    case (Numeric(x), Numeric(y)) => CompareNat(x, y)
    case (Numeric(_), Alphanumeric(_)) => -1
    case (Alphanumeric(_), Numeric(_)) => 1
    case (Alphanumeric(x), Alphanumeric(y)) => CompareText(x, y)
  }

  /** Identifier by identifier; a list that runs out first ranks lower. */
  function CompareIdentifiers(a: seq<Identifier>, b: seq<Identifier>): int
  {
    if a == [] && b == [] then 0
    else if a == [] then -1
    else if b == [] then 1
    else if CompareIdentifier(a[0], b[0]) != 0 then CompareIdentifier(a[0], b[0])
    else CompareIdentifiers(a[1..], b[1..])
  }

  /** A release ranks above every pre-release of the same core. */
  function ComparePrerelease(a: seq<Identifier>, b: seq<Identifier>): int
  {
    if a == [] && b == [] then 0
    else if a == [] then 1
    else if b == [] then -1
    else CompareIdentifiers(a, b)
  }

  function Compare(a: Version, b: Version): int
  {
    if CompareNat(a.major, b.major) != 0 then CompareNat(a.major, b.major)
    else if CompareNat(a.minor, b.minor) != 0 then CompareNat(a.minor, b.minor)
    else if CompareNat(a.patch, b.patch) != 0 then CompareNat(a.patch, b.patch)
    else ComparePrerelease(a.prerelease, b.prerelease)
  }

  /** Two versions tie when they differ at most in build metadata. */
  predicate SamePrecedence(a: Version, b: Version)
  {
    a.major == b.major && a.minor == b.minor && a.patch == b.patch && a.prerelease == b.prerelease
  }

  // ----- identifiers -----

  lemma IdentifierFlip(a: Identifier, b: Identifier)
    ensures CompareIdentifier(a, b) == -CompareIdentifier(b, a)
    ensures CompareIdentifier(a, b) == 0 <==> a == b
  {
    if a.Alphanumeric? && b.Alphanumeric? {
      TextFlip(a.text, b.text);
    }
  }

  lemma IdentifierTrans(a: Identifier, b: Identifier, c: Identifier)
    requires CompareIdentifier(a, b) <= 0 && CompareIdentifier(b, c) <= 0
    ensures CompareIdentifier(a, c) <= 0
  {
    if a.Alphanumeric? && b.Alphanumeric? && c.Alphanumeric? {
      TextTrans(a.text, b.text, c.text);
    }
  }

  lemma {:induction false} IdentifiersFlip(a: seq<Identifier>, b: seq<Identifier>)
    ensures CompareIdentifiers(a, b) == -CompareIdentifiers(b, a)
    ensures CompareIdentifiers(a, b) == 0 <==> a == b
  {
    if a != [] && b != [] {
      IdentifierFlip(a[0], b[0]);
      if CompareIdentifier(a[0], b[0]) == 0 {
        IdentifiersFlip(a[1..], b[1..]);
        assert a == [a[0]] + a[1..] && b == [b[0]] + b[1..];
      }
    }
  }

  lemma {:induction false} IdentifiersTrans(a: seq<Identifier>, b: seq<Identifier>, c: seq<Identifier>)
    requires CompareIdentifiers(a, b) <= 0 && CompareIdentifiers(b, c) <= 0
    ensures CompareIdentifiers(a, c) <= 0
  {
    if a != [] && b != [] && c != [] {
      IdentifierFlip(a[0], b[0]);
      IdentifierFlip(b[0], c[0]);
      IdentifierFlip(a[0], c[0]);
      IdentifierTrans(a[0], b[0], c[0]);
      if CompareIdentifier(a[0], b[0]) == 0 && CompareIdentifier(b[0], c[0]) == 0 {
        IdentifiersTrans(a[1..], b[1..], c[1..]);
      }
    }
  }

  lemma PrereleaseFlip(a: seq<Identifier>, b: seq<Identifier>)
    ensures ComparePrerelease(a, b) == -ComparePrerelease(b, a)
    ensures ComparePrerelease(a, b) == 0 <==> a == b
  {
    IdentifiersFlip(a, b);
  }

  lemma PrereleaseTrans(a: seq<Identifier>, b: seq<Identifier>, c: seq<Identifier>)
    requires ComparePrerelease(a, b) <= 0 && ComparePrerelease(b, c) <= 0
    ensures ComparePrerelease(a, c) <= 0
  {
    if a != [] && b != [] && c != [] {
      IdentifiersTrans(a, b, c);
    }
  }

  // ----- versions -----

  /** Swapping the operands flips the answer; a tie means equal but for build metadata. */
  lemma CompareFlip(a: Version, b: Version)
    ensures Compare(a, b) == -Compare(b, a)
    ensures Compare(a, b) == 0 <==> SamePrecedence(a, b)
  {
    PrereleaseFlip(a.prerelease, b.prerelease);
  }

  /** The order is transitive. */
  lemma CompareTrans(a: Version, b: Version, c: Version)
    requires Compare(a, b) <= 0 && Compare(b, c) <= 0
    ensures Compare(a, c) <= 0
  {
    CompareFlip(a, b);
    CompareFlip(b, c);
    CompareFlip(a, c);
    if a.major == b.major == c.major && a.minor == b.minor == c.minor && a.patch == b.patch == c.patch {
      PrereleaseTrans(a.prerelease, b.prerelease, c.prerelease);
    }
  }

  /** Of any two versions one is at most the other. */
  lemma CompareTotal(a: Version, b: Version)
    ensures Compare(a, b) <= 0 || Compare(b, a) <= 0
  {
    CompareFlip(a, b);
  }

  /** The example chain of section 11 of SemVer 2.0.0, first part. */
  lemma ExampleChain()
    ensures Compare(Version(1, 0, 0, [Alphanumeric("alpha")], []),
                    Version(1, 0, 0, [Alphanumeric("alpha"), Numeric(1)], [])) < 0
    ensures Compare(Version(1, 0, 0, [Alphanumeric("alpha"), Numeric(1)], []),
                    Version(1, 0, 0, [Alphanumeric("alpha"), Alphanumeric("beta")], [])) < 0
    ensures Compare(Version(1, 0, 0, [Alphanumeric("beta"), Numeric(2)], []),
                    Version(1, 0, 0, [Alphanumeric("beta"), Numeric(11)], [])) < 0
    ensures Compare(Version(1, 0, 0, [Alphanumeric("rc"), Numeric(1)], []),
                    Version(1, 0, 0, [], [])) < 0
    ensures Compare(Version(1, 9, 0, [], []), Version(1, 10, 0, [], [])) < 0
    ensures Compare(Version(7, 3, 5, [], ["a"]), Version(7, 3, 5, [], ["b"])) == 0
  {
    assert CompareText("alpha", "beta") < 0 by {
      assert "alpha"[0] < "beta"[0];
    }
  }

  // ----- sorting, highest first -----

  /** Every element ranks at least as high as every later one. */
  predicate Descending<T>(s: seq<T>, key: T -> Version)
  {
    forall i, j :: 0 <= i < j < |s| ==> Compare(key(s[j]), key(s[i])) <= 0
  }

  /** Put `x` in front of the first element that does not outrank it. */
  function Insert<T>(x: T, s: seq<T>, key: T -> Version): (r: seq<T>)
    ensures multiset(r) == multiset(s) + multiset{x}
  {
    if s == [] then [x]
    else if Compare(key(s[0]), key(x)) <= 0 then [x] + s
    else
      assert s == [s[0]] + s[1..];
      [s[0]] + Insert(x, s[1..], key)
  }

  /**
    `sorted(items, reverse=True)`: an insertion sort that keeps tied
    elements in their original order, as Python's sort does
    (SortDescendingStable).
   */
  function SortDescending<T>(s: seq<T>, key: T -> Version): (r: seq<T>)
    ensures multiset(r) == multiset(s)
  {
    if s == [] then []
    else
      assert s == [s[0]] + s[1..];
      Insert(s[0], SortDescending(s[1..], key), key)
  }

  /** No element outranks `top`. */
  predicate Bounded<T>(s: seq<T>, key: T -> Version, top: Version)
  {
    forall k :: 0 <= k < |s| ==> Compare(key(s[k]), top) <= 0
  }

  /** Inserting an element that a bound outranks keeps every element under the bound. */
  lemma {:induction false} InsertBounded<T>(x: T, s: seq<T>, key: T -> Version, top: Version)
    requires Bounded(s, key, top) && Compare(key(x), top) <= 0
    ensures Bounded(Insert(x, s, key), key, top)
  {
    if s != [] && Compare(key(s[0]), key(x)) > 0 {
      InsertBounded(x, s[1..], key, top);
      var r := Insert(x, s, key);
      assert r == [s[0]] + Insert(x, s[1..], key);
      assert forall k :: 1 <= k < |r| ==> r[k] == Insert(x, s[1..], key)[k - 1];
    }
  }

  lemma {:induction false} InsertDescending<T>(x: T, s: seq<T>, key: T -> Version)
    requires Descending(s, key)
    ensures Descending(Insert(x, s, key), key)
  {
    if s != [] {
      if Compare(key(s[0]), key(x)) <= 0 {
        var r := [x] + s;
        forall i, j | 0 <= i < j < |r| ensures Compare(key(r[j]), key(r[i])) <= 0 {
          if i == 0 && j > 1 {
            CompareTrans(key(s[j - 1]), key(s[0]), key(x));
          }
        }
      } else {
        var tail := Insert(x, s[1..], key);
        InsertDescending(x, s[1..], key);
        CompareTotal(key(s[0]), key(x));
        assert Bounded(s[1..], key, key(s[0])) by {
          forall k | 0 <= k < |s[1..]| ensures Compare(key(s[1..][k]), key(s[0])) <= 0 {
            assert s[1..][k] == s[k + 1];
          }
        }
        InsertBounded(x, s[1..], key, key(s[0]));
        var r := [s[0]] + tail;
        forall i, j | 0 <= i < j < |r| ensures Compare(key(r[j]), key(r[i])) <= 0 {
          assert r[j] == tail[j - 1];
          if i > 0 {
            assert r[i] == tail[i - 1];
          }
        }
      }
    }
  }

  /** The result is ordered from the highest version down and is a permutation of the input. */
  lemma {:induction false} SortDescendingCorrect<T>(s: seq<T>, key: T -> Version)
    ensures Descending(SortDescending(s, key), key)
    ensures multiset(SortDescending(s, key)) == multiset(s)
  {
    if s != [] {
      SortDescendingCorrect(s[1..], key);
      InsertDescending(s[0], SortDescending(s[1..], key), key);
    }
  }

  /** The elements of `s` whose keys tie with `w`, in their order in `s`. */
  function Ties<T>(s: seq<T>, key: T -> Version, w: Version): seq<T>
  {
    if s == [] then []
    else (if Compare(key(s[0]), w) == 0 then [s[0]] else []) + Ties(s[1..], key, w)
  }

  /** Two versions that tie with a third tie with each other. */
  lemma TiedTogether(a: Version, b: Version, w: Version)
    requires Compare(a, w) == 0 && Compare(b, w) == 0
    ensures Compare(a, b) == 0
  {
    CompareFlip(a, w);
    CompareFlip(b, w);
    CompareFlip(a, b);
  }

  /**
    Inserting `x` puts it ahead of every element it ties with: among the
    elements tied with any `w`, `x` comes first and the others keep their order.
   */
  lemma {:induction false} InsertTies<T>(x: T, s: seq<T>, key: T -> Version, w: Version)
    ensures Ties(Insert(x, s, key), key, w) == Ties([x], key, w) + Ties(s, key, w)
  {
    if s == [] {
      assert Insert(x, s, key) == [x];
    } else if Compare(key(s[0]), key(x)) <= 0 {
      assert Insert(x, s, key) == [x] + s;
      TiesCons(x, s, key, w);
    } else {
      var rest := Insert(x, s[1..], key);
      var a, b, t := Ties([s[0]], key, w), Ties([x], key, w), Ties(s[1..], key, w);
      assert Insert(x, s, key) == [s[0]] + rest;
      TiesCons(s[0], rest, key, w);
      InsertTies(x, s[1..], key, w);
      assert s == [s[0]] + s[1..];
      TiesCons(s[0], s[1..], key, w);
      SingleTies(x, s[0], key, w);
      Swap(a, b, t);
    }
  }

  /** The ties of a list with one more element in front. */
  lemma TiesCons<T>(x: T, s: seq<T>, key: T -> Version, w: Version)
    ensures Ties([x] + s, key, w) == Ties([x], key, w) + Ties(s, key, w)
  {
    assert ([x] + s)[1..] == s;
    assert [x][1..] == [];
  }

  lemma Swap<T>(a: seq<T>, b: seq<T>, t: seq<T>)
    requires a + b == b + a
    ensures a + (b + t) == b + (a + t)
  {
    assert a + (b + t) == (a + b) + t;
    assert b + (a + t) == (b + a) + t;
  }

  /** Two elements that do not tie with each other give the same ties in either order. */
  lemma SingleTies<T>(x: T, y: T, key: T -> Version, w: Version)
    requires Compare(key(y), key(x)) != 0
    ensures Ties([y], key, w) + Ties([x], key, w) == Ties([x], key, w) + Ties([y], key, w)
  {
    if Compare(key(x), w) == 0 && Compare(key(y), w) == 0 {
      TiedTogether(key(y), key(x), w);
      assert false;
    }
    assert [x][1..] == [] && [y][1..] == [];
  }

  /**
    The sort is stable: the elements that tie with any version `w` (those
    that differ from it at most in build metadata) appear in the result in
    the same order as in the input, as Python's sort keeps them.
   */
  lemma {:induction false} SortDescendingStable<T>(s: seq<T>, key: T -> Version, w: Version)
    ensures Ties(SortDescending(s, key), key, w) == Ties(s, key, w)
  {
    if s != [] {
      SortDescendingStable(s[1..], key, w);
      InsertTies(s[0], SortDescending(s[1..], key), key, w);
    }
  }
}
