/**
  The version grammar. `Parse` reads `MAJOR.MINOR.PATCH[-PRERELEASE][+BUILD]`
  into a `Version` record (the grammar of SemVer 2.0.0, sections 2, 9 and
  10) and `Render` writes a record back in canonical form; the two are
  inverse on well-formed records, which pins down the accepted language.
  `Match` is the module-level `semver` pattern of renutil: the same grammar
  with an optional trailing `/`, answering its first group.
 */
module Versions {
  import opened Wrappers
  import opened Text

  /** A pre-release identifier: numeric ones compare by value, the others as text. */
  datatype Identifier = Numeric(value: nat) | Alphanumeric(text: string)

  /** A parsed version. Equality of two versions is equality of all five fields. */
  datatype Version = Version(major: nat, minor: nat, patch: nat,
                             prerelease: seq<Identifier>, build: seq<string>)

  function DigitValue(c: char): nat
    requires IsDigit(c)
  {
    c as int - '0' as int
  }

  function DigitChar(d: nat): (c: char)
    requires d < 10
    ensures IsDigit(c) && DigitValue(c) == d
  {
    ('0' as int + d) as char
  }

  /** A numeric field, `0|[1-9]\d*`: digits without a leading zero. */
  predicate IsNumeric(s: string)
  {
    |s| >= 1 && AllDigits(s) && (s[0] == '0' ==> |s| == 1)
  }

  /**
    A pre-release identifier, `0|[1-9]\d*|\d*[a-zA-Z-][0-9a-zA-Z-]*`:
    non-empty, made of `[0-9a-zA-Z-]`, and numeric without a leading zero
    when it is all digits.
   */
  predicate IsPrereleaseIdent(s: string)
  {
    |s| >= 1 && AllIdentChars(s) && (AllDigits(s) ==> IsNumeric(s))
  }

  /** A build identifier, `[0-9a-zA-Z-]+`. */
  predicate IsBuildIdent(s: string)
  {
    |s| >= 1 && AllIdentChars(s)
  }

  /** The value of a string of decimal digits. */
  function ValueOf(s: string): nat
    requires AllDigits(s)
    decreases |s|
  {
    if s == [] then 0 else ValueOf(s[..|s| - 1]) * 10 + DigitValue(s[|s| - 1])
  }

  /** The canonical decimal rendering of a number. */
  function Decimal(n: nat): (r: string)
    ensures IsNumeric(r)
    ensures r[0] == '0' <==> n == 0
  {
    if n < 10 then [DigitChar(n)] else Decimal(n / 10) + [DigitChar(n % 10)]
  }

  lemma {:induction false} ValueOfDecimal(n: nat)
    ensures ValueOf(Decimal(n)) == n
  {
    if n >= 10 {
      var d := Decimal(n / 10);
      ValueOfDecimal(n / 10);
      assert (d + [DigitChar(n % 10)])[..|d|] == d;
    }
  }

  lemma {:induction false} DecimalValueOf(s: string)
    requires IsNumeric(s)
    ensures Decimal(ValueOf(s)) == s
  {
    if |s| >= 2 {
      var init := s[..|s| - 1];
      var last := s[|s| - 1];
      assert IsNumeric(init) by {
        assert init[0] == s[0];
      }
      DecimalValueOf(init);
      var a := ValueOf(init);
      assert a != 0 by {
        assert Decimal(a)[0] == init[0] == s[0] != '0';
      }
      var n := a * 10 + DigitValue(last);
      assert n / 10 == a && n % 10 == DigitValue(last);
      assert DigitChar(DigitValue(last)) == last;
      assert s == init + [last];
    } else {
      assert DigitChar(DigitValue(s[0])) == s[0];
      assert s[..|s| - 1] == [];
    }
  }

  function IdentifierText(id: Identifier): string
  {
    match id
    case Numeric(n) => Decimal(n)
    case Alphanumeric(t) => t
  }

  function ToIdentifier(s: string): Identifier
    requires IsPrereleaseIdent(s)
  {
    if AllDigits(s) then Numeric(ValueOf(s)) else Alphanumeric(s)
  }

  /** An alphanumeric identifier must not be all digits (those are numeric). */
  predicate WellFormedIdentifier(id: Identifier)
  {
    id.Alphanumeric? ==> |id.text| >= 1 && AllIdentChars(id.text) && !AllDigits(id.text)
  }

  /** The records that some version string denotes. */
  predicate WellFormed(v: Version)
  {
    && (forall i :: 0 <= i < |v.prerelease| ==> WellFormedIdentifier(v.prerelease[i]))
    && (forall i :: 0 <= i < |v.build| ==> IsBuildIdent(v.build[i]))
  }

  function PrereleaseTexts(ids: seq<Identifier>): (r: seq<string>)
    ensures |r| == |ids|
    ensures forall i :: 0 <= i < |ids| ==> r[i] == IdentifierText(ids[i])
  {
    seq(|ids|, i requires 0 <= i < |ids| => IdentifierText(ids[i]))
  }

  function CoreText(v: Version): string
  {
    Decimal(v.major) + "." + Decimal(v.minor) + "." + Decimal(v.patch)
  }

  function PrereleaseSuffix(ids: seq<Identifier>): string
  {
    if ids == [] then "" else "-" + Join(PrereleaseTexts(ids), '.')
  }

  function BuildSuffix(build: seq<string>): string
  {
    if build == [] then "" else "+" + Join(build, '.')
  }

  /** The canonical string form, `str(Version)`, also used as a directory name. */
  function Render(v: Version): string
  {
    CoreText(v) + PrereleaseSuffix(v.prerelease) + BuildSuffix(v.build)
  }

  function PrereleaseParts(pre: Option<string>): seq<string>
  {
    if pre.Some? then Split(pre.value, '.') else []
  }

  function Identifiers(parts: seq<string>): seq<Identifier>
    requires forall i :: 0 <= i < |parts| ==> IsPrereleaseIdent(parts[i])
  {
    seq(|parts|, i requires 0 <= i < |parts| => ToIdentifier(parts[i]))
  }

  /**
    `Version(text)` of the `semantic_version` library, read as the SemVer
    2.0.0 grammar: `None` where that constructor raises `ValueError`.
   */
  function Parse(s: string): Option<Version>
  {
    var main := Cut(s, '+').0;
    var core := Cut(main, '-').0;
    var nums := Split(core, '.');
    var preParts := PrereleaseParts(Cut(main, '-').1);
    var buildParts := PrereleaseParts(Cut(s, '+').1);
    if && |nums| == 3
       && IsNumeric(nums[0]) && IsNumeric(nums[1]) && IsNumeric(nums[2])
       && (forall i :: 0 <= i < |preParts| ==> IsPrereleaseIdent(preParts[i]))
       && (forall i :: 0 <= i < |buildParts| ==> IsBuildIdent(buildParts[i]))
    then
      Some(Version(ValueOf(nums[0]), ValueOf(nums[1]), ValueOf(nums[2]),
                   Identifiers(preParts), buildParts))
    else
      None
  }

  // ----- the round trips -----

  lemma IdentifierRoundTrip(id: Identifier)
    requires WellFormedIdentifier(id)
    ensures IsPrereleaseIdent(IdentifierText(id))
    ensures ToIdentifier(IdentifierText(id)) == id
  {
    if id.Numeric? {
      ValueOfDecimal(id.value);
    }
  }

  lemma TextRoundTrip(s: string)
    requires IsPrereleaseIdent(s)
    ensures WellFormedIdentifier(ToIdentifier(s))
    ensures IdentifierText(ToIdentifier(s)) == s
  {
    if AllDigits(s) {
      DecimalValueOf(s);
    }
  }

  lemma DecimalChars(n: nat, c: char)
    requires !IsDigit(c)
    ensures c !in Decimal(n)
  {
    Absent(Decimal(n), c);
  }

  /** The core `N.N.N` is the join of its three numerals. */
  lemma CoreIsJoin(v: Version)
    ensures CoreText(v) == Join([Decimal(v.major), Decimal(v.minor), Decimal(v.patch)], '.')
  {
    var a, b, c := Decimal(v.major), Decimal(v.minor), Decimal(v.patch);
    var parts := [a, b, c];
    assert parts[1..] == [b, c];
    assert parts[1..][1..] == [c];
    assert Join([c], '.') == c;
    assert Join([b, c], '.') == b + ['.'] + c;
    assert Join(parts, '.') == a + ['.'] + (b + ['.'] + c);
    assert CoreText(v) == a + "." + b + "." + c;
  }

  lemma CoreChars(v: Version, c: char)
    requires !IsDigit(c) && c != '.'
    ensures c !in CoreText(v)
  {
    DecimalChars(v.major, c);
    DecimalChars(v.minor, c);
    DecimalChars(v.patch, c);
  }

  lemma IdentChars(s: string, c: char)
    requires AllIdentChars(s) && !IsIdentChar(c)
    ensures c !in s
  {
    Absent(s, c);
  }

  lemma PrereleaseChars(v: Version, c: char)
    requires WellFormed(v)
    requires !IsIdentChar(c) && c != '.'
    ensures c !in PrereleaseSuffix(v.prerelease)
  {
    if v.prerelease != [] {
      var texts := PrereleaseTexts(v.prerelease);
      forall i | 0 <= i < |texts| ensures c !in texts[i] {
        IdentifierRoundTrip(v.prerelease[i]);
        IdentChars(texts[i], c);
      }
      JoinChars(texts, '.', c);
    }
  }

  lemma BuildChars(v: Version, c: char)
    requires WellFormed(v)
    requires !IsIdentChar(c) && c != '.' && c != '+'
    ensures c !in BuildSuffix(v.build)
  {
    if v.build != [] {
      forall i | 0 <= i < |v.build| ensures c !in v.build[i] {
        IdentChars(v.build[i], c);
      }
      JoinChars(v.build, '.', c);
    }
  }

  /** A canonical string never holds a `/`, so it can name a directory. */
  lemma RenderHasNoSlash(v: Version)
    requires WellFormed(v)
    ensures '/' !in Render(v)
  {
    CoreChars(v, '/');
    PrereleaseChars(v, '/');
    BuildChars(v, '/');
  }

  /** Every well-formed record survives being written and read back. */
  lemma {:induction false} ParseRender(v: Version)
    requires WellFormed(v)
    ensures Parse(Render(v)) == Some(v)
  {
    var core := CoreText(v);
    var pre := PrereleaseSuffix(v.prerelease);
    var main := core + pre;
    var s := Render(v);
    CoreChars(v, '+');
    CoreChars(v, '-');
    PrereleaseChars(v, '+');
    assert '+' !in main;
    // the first '+' opens the build metadata
    var build: Option<string> := if v.build == [] then None else Some(Join(v.build, '.'));
    if v.build == [] {
      assert s == main;
      CutNone(main, '+');
    } else {
      assert s == main + ['+'] + Join(v.build, '.');
      CutAt(main, Join(v.build, '.'), '+');
    }
    assert Cut(s, '+') == (main, build);
    // the first '-' opens the pre-release
    var preText: Option<string> :=
      if v.prerelease == [] then None else Some(Join(PrereleaseTexts(v.prerelease), '.'));
    if v.prerelease == [] {
      assert main == core;
      CutNone(core, '-');
    } else {
      assert main == core + ['-'] + Join(PrereleaseTexts(v.prerelease), '.');
      CutAt(core, Join(PrereleaseTexts(v.prerelease), '.'), '-');
    }
    assert Cut(main, '-') == (core, preText);
    // the three numerals
    var nums := [Decimal(v.major), Decimal(v.minor), Decimal(v.patch)];
    CoreIsJoin(v);
    DecimalChars(v.major, '.');
    DecimalChars(v.minor, '.');
    DecimalChars(v.patch, '.');
    SplitJoin(nums, '.');
    assert Split(core, '.') == nums;
    ValueOfDecimal(v.major);
    ValueOfDecimal(v.minor);
    ValueOfDecimal(v.patch);
    // the pre-release identifiers
    var preParts := PrereleaseParts(preText);
    if v.prerelease != [] {
      var texts := PrereleaseTexts(v.prerelease);
      forall i | 0 <= i < |texts| ensures '.' !in texts[i] {
        IdentifierRoundTrip(v.prerelease[i]);
        IdentChars(texts[i], '.');
      }
      SplitJoin(texts, '.');
      assert preParts == texts;
    }
    forall i | 0 <= i < |preParts|
      ensures IsPrereleaseIdent(preParts[i]) && ToIdentifier(preParts[i]) == v.prerelease[i]
    {
      IdentifierRoundTrip(v.prerelease[i]);
    }
    assert Identifiers(preParts) == v.prerelease;
    // the build identifiers
    var buildParts := PrereleaseParts(build);
    if v.build != [] {
      forall i | 0 <= i < |v.build| ensures '.' !in v.build[i] {
        IdentChars(v.build[i], '.');
      }
      SplitJoin(v.build, '.');
    }
    assert buildParts == v.build;
  }

  /** Three numerals read and written back give the core they came from. */
  lemma CoreRoundTrip(core: string)
    requires |Split(core, '.')| == 3
    requires var nums := Split(core, '.');
             IsNumeric(nums[0]) && IsNumeric(nums[1]) && IsNumeric(nums[2])
    ensures var nums := Split(core, '.');
            CoreText(Version(ValueOf(nums[0]), ValueOf(nums[1]), ValueOf(nums[2]), [], [])) == core
  {
    var nums := Split(core, '.');
    var v := Version(ValueOf(nums[0]), ValueOf(nums[1]), ValueOf(nums[2]), [], []);
    JoinSplit(core, '.');
    DecimalValueOf(nums[0]);
    DecimalValueOf(nums[1]);
    DecimalValueOf(nums[2]);
    assert nums == [nums[0], nums[1], nums[2]];
    CoreIsJoin(v);
  }

  /** The identifiers read from a pre-release are well formed and write it back. */
  lemma PrereleaseRoundTrip(pre: Option<string>)
    requires forall i :: 0 <= i < |PrereleaseParts(pre)| ==> IsPrereleaseIdent(PrereleaseParts(pre)[i])
    ensures var ids := Identifiers(PrereleaseParts(pre));
            forall i :: 0 <= i < |ids| ==> WellFormedIdentifier(ids[i])
    ensures PrereleaseSuffix(Identifiers(PrereleaseParts(pre))) ==
            if pre.Some? then "-" + pre.value else ""
  {
    var parts := PrereleaseParts(pre);
    var ids := Identifiers(parts);
    forall i | 0 <= i < |parts|
      ensures WellFormedIdentifier(ids[i]) && IdentifierText(ids[i]) == parts[i]
    {
      TextRoundTrip(parts[i]);
    }
    if pre.Some? {
      JoinSplit(pre.value, '.');
      assert PrereleaseTexts(ids) == parts;
    }
  }

  /** The build identifiers read from a build suffix write it back. */
  lemma BuildRoundTrip(build: Option<string>)
    ensures BuildSuffix(PrereleaseParts(build)) == if build.Some? then "+" + build.value else ""
  {
    if build.Some? {
      JoinSplit(build.value, '.');
    }
  }

  /** A text cut at a separator is its part before, then the separator and the rest when there is one. */
  lemma CutRejoins(s: string, sep: char)
    ensures s == Cut(s, sep).0 + (if Cut(s, sep).1.Some? then [sep] + Cut(s, sep).1.value else [])
  {
  }

  /** The three pieces of a rendered version. */
  lemma RenderPieces(v: Version, core: string, pre: string, build: string)
    requires CoreText(v) == core && PrereleaseSuffix(v.prerelease) == pre && BuildSuffix(v.build) == build
    ensures Render(v) == (core + pre) + build
  {
  }

  /** Whatever parses is well formed and is already in canonical form. */
  lemma RenderParse(s: string)
    requires Parse(s).Some?
    ensures WellFormed(Parse(s).value)
    ensures Render(Parse(s).value) == s
  {
    var v := Parse(s).value;
    var main, build := Cut(s, '+').0, Cut(s, '+').1;
    var core, pre := Cut(main, '-').0, Cut(main, '-').1;
    var nums := Split(core, '.');
    assert v == Version(ValueOf(nums[0]), ValueOf(nums[1]), ValueOf(nums[2]),
                        Identifiers(PrereleaseParts(pre)), PrereleaseParts(build));
    CoreRoundTrip(core);
    PrereleaseRoundTrip(pre);
    BuildRoundTrip(build);
    CutRejoins(s, '+');
    CutRejoins(main, '-');
    assert CoreText(v) == CoreText(Version(v.major, v.minor, v.patch, [], []));
    RenderPieces(v, core, PrereleaseSuffix(v.prerelease), BuildSuffix(v.build));
  }

  /** `Parse` succeeds exactly on the canonical forms of well-formed records. */
  lemma ParseIff(s: string)
    ensures Parse(s).Some? <==> exists v :: WellFormed(v) && Render(v) == s
  {
    if Parse(s).Some? {
      RenderParse(s);
    }
    if exists v :: WellFormed(v) && Render(v) == s {
      var v :| WellFormed(v) && Render(v) == s;
      ParseRender(v);
    }
  }

  lemma ParsedHasNoSlash(s: string)
    ensures Parse(s).Some? ==> '/' !in s
  {
    if Parse(s).Some? {
      RenderParse(s);
      RenderHasNoSlash(Parse(s).value);
    }
  }

  // ----- the `semver` pattern -----

  /**
    `semver.match(s)`: the grammar followed by an optional `/`, matched
    against the whole string; the answer is group 1, the text without the
    `/`.
   */
  function Match(s: string): (r: Option<string>)
    ensures r.Some? ==> Parse(r.value).Some? && '/' !in r.value
    ensures r.Some? ==> s == r.value || s == r.value + "/"
    ensures r.None? ==> Parse(s).None?
  {
    if Parse(s).Some? then
      ParsedHasNoSlash(s);
      Some(s)
    else if EndsWith(s, '/') && Parse(s[..|s| - 1]).Some? then
      ParsedHasNoSlash(s[..|s| - 1]);
      assert s == s[..|s| - 1] + "/";
      Some(s[..|s| - 1])
    else
      None
  }

  /** The pattern accepts exactly a canonical string, with or without one trailing `/`. */
  lemma MatchIff(s: string)
    ensures Match(s).Some? <==>
            exists v :: WellFormed(v) && (s == Render(v) || s == Render(v) + "/")
  {
    if Match(s).Some? {
      RenderParse(Match(s).value);
    }
    if exists v :: WellFormed(v) && (s == Render(v) || s == Render(v) + "/") {
      var v :| WellFormed(v) && (s == Render(v) || s == Render(v) + "/");
      ParseRender(v);
      if s == Render(v) + "/" {
        assert s[..|s| - 1] == Render(v);
      }
    }
  }

  /** Group 1 of a canonical string followed by `/` leaves out the `/`. */
  lemma MatchDropsSlash(v: Version)
    requires WellFormed(v)
    ensures Match(Render(v)) == Some(Render(v))
    ensures Match(Render(v) + "/") == Some(Render(v))
  {
    ParseRender(v);
    RenderHasNoSlash(v);
    var s := Render(v) + "/";
    assert s[..|s| - 1] == Render(v);
    assert s[|s| - 1] == '/';
    ParsedHasNoSlash(s);
  }

  /**
    The version of a name the pattern accepts: `Version(m.group(1))`. The
    `ValueError` branch beside it in renutil can never be taken.
   */
  function MatchedVersion(name: string): (r: Option<Version>)
    ensures r.Some? <==> Match(name).Some?
    ensures r.Some? ==> WellFormed(r.value) && Render(r.value) == Match(name).value
  {
    match Match(name)
    case None => None
    case Some(core) =>
      RenderParse(core);
      Parse(core)
  }

  /** Two slash-free names that match denote the same version only if they are the same name. */
  lemma MatchedVersionInjective(a: string, b: string)
    requires '/' !in a && '/' !in b
    requires MatchedVersion(a).Some? && MatchedVersion(a) == MatchedVersion(b)
    ensures a == b
  {
    var ca := Match(a).value;
    var cb := Match(b).value;
    assert (ca + "/")[|ca|] == '/' && (cb + "/")[|cb|] == '/';
    assert a == ca && b == cb;
  }

  /** Every accepted name starts with a digit, so no archive `renpy-…` or `index.bin` is scanned. */
  lemma MatchStartsWithDigit(s: string)
    requires Match(s).Some?
    ensures |s| > 0 && IsDigit(s[0])
  {
    var v := MatchedVersion(s).value;
    var t := Match(s).value;
    assert Render(v) == t;
    assert Render(v)[0] == Decimal(v.major)[0];
    assert s[0] == t[0];
  }

  // ----- what the grammar accepts and rejects -----

  lemma RenderSevenThreeFive()
    ensures Render(Version(7, 3, 5, [], [])) == "7.3.5"
  {
    assert DigitChar(7) == '7' && DigitChar(3) == '3' && DigitChar(5) == '5';
    assert CoreText(Version(7, 3, 5, [], [])) == "7.3.5";
  }

  /** The directory `7.3.5`, with or without its `/`, is version 7.3.5. */
  lemma AcceptsPlainAndSlash()
    ensures Match("7.3.5") == Some("7.3.5")
    ensures Match("7.3.5/") == Some("7.3.5")
    ensures MatchedVersion("7.3.5") == Some(Version(7, 3, 5, [], []))
  {
    var v := Version(7, 3, 5, [], []);
    RenderSevenThreeFive();
    assert Render(v) + "/" == "7.3.5/";
    MatchDropsSlash(v);
    ParseRender(v);
  }

  function AlphaOneBuildFive(): Version
  {
    Version(1, 0, 0, [Alphanumeric("alpha"), Numeric(1)], ["build", "5"])
  }

  lemma AlphaOneBuildFiveParts()
    ensures WellFormed(AlphaOneBuildFive())
    ensures CoreText(AlphaOneBuildFive()) == "1.0.0"
    ensures BuildSuffix(AlphaOneBuildFive().build) == "+build.5"
  {
    assert !AllDigits("alpha") by { assert !IsDigit("alpha"[0]); }
    assert DigitChar(1) == '1' && DigitChar(0) == '0';
    assert Join(["build", "5"], '.') == "build.5";
  }

  lemma AlphaOneSuffix()
    ensures PrereleaseSuffix(AlphaOneBuildFive().prerelease) == "-alpha.1"
  {
    assert DigitChar(1) == '1';
    var texts := PrereleaseTexts(AlphaOneBuildFive().prerelease);
    assert texts[0] == "alpha" && texts[1] == "1";
    assert texts == ["alpha", "1"];
    assert Join(texts, '.') == "alpha.1";
  }

  lemma RenderAlphaOneBuildFive()
    ensures WellFormed(AlphaOneBuildFive())
    ensures Render(AlphaOneBuildFive()) == "1.0.0-alpha.1+build.5"
  {
    AlphaOneBuildFiveParts();
    AlphaOneSuffix();
  }

  /** Pre-release and build metadata are both part of group 1. */
  lemma AcceptsPrereleaseAndBuild()
    ensures Match("1.0.0-alpha.1+build.5") == Some("1.0.0-alpha.1+build.5")
    ensures MatchedVersion("1.0.0-alpha.1+build.5") == Some(AlphaOneBuildFive())
  {
    RenderAlphaOneBuildFive();
    MatchDropsSlash(AlphaOneBuildFive());
    ParseRender(AlphaOneBuildFive());
  }

  /** A name that neither parses nor parses without a final `/` does not match. */
  lemma NoMatch(s: string)
    requires Parse(s).None?
    requires EndsWith(s, '/') ==> Parse(s[..|s| - 1]).None?
    ensures Match(s) == None
  {
  }

  lemma RejectsTwoFields()
    ensures Match("1.2") == None
  {
    CutNone("1.2", '+');
    CutNone("1.2", '-');
    assert Join(["1", "2"], '.') == "1.2";
    SplitJoin(["1", "2"], '.');
  }

  lemma RejectsLeadingZero()
    ensures Match("01.2.3") == None
  {
    CutNone("01.2.3", '+');
    CutNone("01.2.3", '-');
    assert Join(["01", "2", "3"], '.') == "01.2.3";
    SplitJoin(["01", "2", "3"], '.');
  }

  lemma RejectsEmptyPrerelease()
    ensures Match("1.2.3-") == None
  {
    CutNone("1.2.3-", '+');
    assert "1.2.3-" == "1.2.3" + ['-'] + "";
    CutAt("1.2.3", "", '-');
    assert !IsPrereleaseIdent(PrereleaseParts(Some(""))[0]);
    assert !EndsWith("1.2.3-", '/');
  }

  lemma RejectsNumericPrereleaseWithLeadingZero()
    ensures Match("1.0.0-01") == None
  {
    CutNone("1.0.0-01", '+');
    assert "1.0.0-01" == "1.0.0" + ['-'] + "01";
    CutAt("1.0.0", "01", '-');
    ZeroOneIsNoIdentifier();
    assert !IsPrereleaseIdent(PrereleaseParts(Some("01"))[0]);
    assert !EndsWith("1.0.0-01", '/');
  }

  lemma ZeroOneIsNoIdentifier()
    ensures PrereleaseParts(Some("01")) == ["01"] && !IsPrereleaseIdent("01")
  {
    assert Join(["01"], '.') == "01";
    SplitJoin(["01"], '.');
    assert AllDigits("01") && !IsNumeric("01");
  }
}
