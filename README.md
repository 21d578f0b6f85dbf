# renutil, modelled in Dafny

renutil is a command-line manager for installs of the Ren'Py SDK. It keeps a
cache directory (`~/.renutil`, or the directory given with `--registry`). The
cache holds one directory per installed version, named after the version,
plus the downloaded archives. An index file (`index.bin`) records the
registered installs.

Its commands are:

- `install`: download, extract and patch a version, then register it;
- `uninstall`: remove a registered version;
- `cleanup`: delete a version's temporary directories;
- `launch`: start a version;
- `list`: print the installed versions, or those offered by renpy.org.

Before every command, the registry is rebuilt from the cache directory's
listing.

This project models that logic and proves what it does:

- `Versions`: the version grammar.
  - `Parse` is the `Version(text)` constructor, read as the SemVer 2.0.0 grammar.
  - `Render` is the canonical string.
  - `Match` is the module-level `semver` pattern, which allows one trailing `/` and answers group 1.
  - `Parse` and `Render` are proved inverse. That pins down the accepted language.
- `Precedence`: the order used for sorting (a stand-in, see "Left out"), and `sorted(..., reverse=True)`.
- `Instances`: `RenpyInstance`, `RenpyRelease`, and the lookups and list edits of the registry, as functions.
- `RegistryStore`: the class `Registry`. Its in-memory list and its pickle file are fields, with "no version twice" as its invariant.
- `Cache`: the cache directory as a class, `scan_instances`, and the registry part of `assure_state`.
- `Catalog`: the releases read from the download page's link texts, the sorted lists, and the slice `list` prints.
- `Commands`: `install`, `uninstall`, `cleanup`, `launch`, `list` and `valid_version`, as methods over the registry and the cache directory. When the cache directory is accessible, every command is proved to leave the registry equal to the scan of the directory; when it is not, the command fails and the registry is unchanged.
- `Members`: `get_members_zip` / `get_members_tar`, over the list of member names.
- `Patches`: `patch_file` and the `gradle.properties` rewrite, over lists of lines.
- `Download`: the skip/resume/range decision of `download`.
- `Aliases`: command lookup by unique prefix (`AliasedGroup.get_command`).
- `Platform`: `get_platform`, with the system and machine names as inputs.
- `Text` and `Wrappers`: string helpers (`split`, `join`, `startswith`, `in`, and the order Python compares strings in) and `Option`/`Result`.

All source paths below are in the renutil repository.

## Model

| member | source | states |
|---|---|---|
| Versions.ParseRender | renutil/renutil.py:32 | every well-formed version record written in canonical form parses back to itself |
| Versions.RenderParse | renutil/renutil.py:32 | whatever parses is well formed, and rendering it gives back the same text |
| Versions.ParseIff | renutil/renutil.py:32 | a text parses exactly when it is the canonical form of some well-formed record |
| Versions.ParsedHasNoSlash | renutil/renutil.py:32 | a text that parses holds no `/` |
| Versions.RenderHasNoSlash | renutil/renutil.py:471 | a version string has no `/`, so it can name a directory |
| Versions.ValueOfDecimal | renutil/renutil.py:32 | reading back the rendering of a number gives the number |
| Versions.DecimalValueOf | renutil/renutil.py:32 | a numeral without a leading zero is the rendering of its value |
| Versions.Decimal | renutil/renutil.py:32 | a rendered number never has a leading zero, and starts with `0` only for 0 |
| Versions.IdentifierRoundTrip | renutil/renutil.py:32 | a well-formed pre-release identifier renders to a valid identifier text that reads back as itself |
| Versions.TextRoundTrip | renutil/renutil.py:32 | a valid pre-release identifier text reads as a well-formed identifier that renders back to the text |
| Versions.Match | renutil/renutil.py:32 | when the pattern matches, group 1 parses, holds no `/`, and is the whole text with at most a trailing `/` removed; a text that does not match does not parse either |
| Versions.MatchIff | renutil/renutil.py:32 | the pattern matches exactly a canonical version string, with or without one trailing `/` |
| Versions.MatchDropsSlash | renutil/renutil.py:32 | group 1 of a canonical string, with or without a trailing `/`, is the string itself |
| Versions.NoMatch | renutil/renutil.py:32 | a text is not matched when neither it nor it without its final `/` parses |
| Versions.MatchedVersion | renutil/renutil.py:197-201 | `Version(m.group(1))` exists exactly when the pattern matches, and its canonical form is group 1, so the `ValueError` branch cannot be taken |
| Versions.MatchedVersionInjective | renutil/renutil.py:197-201 | two slash-free names that match denote the same version only when they are the same name |
| Versions.MatchStartsWithDigit | renutil/renutil.py:197 | every accepted name starts with a digit |
| Versions.AcceptsPlainAndSlash | renutil/renutil.py:32 | `7.3.5` and `7.3.5/` both match with group 1 `7.3.5`, which is version 7.3.5 |
| Versions.AcceptsPrereleaseAndBuild | renutil/renutil.py:32 | `1.0.0-alpha.1+build.5` matches whole and parses to its record |
| Versions.RejectsTwoFields | renutil/renutil.py:32 | `1.2` is rejected |
| Versions.RejectsLeadingZero | renutil/renutil.py:32 | `01.2.3` is rejected |
| Versions.RejectsEmptyPrerelease | renutil/renutil.py:32 | `1.2.3-` is rejected |
| Versions.RejectsNumericPrereleaseWithLeadingZero | renutil/renutil.py:32 | `1.0.0-01` is rejected |
| Versions.ZeroOneIsNoIdentifier | renutil/renutil.py:32 | `01` is not a valid pre-release identifier |
| Versions.RenderSevenThreeFive | renutil/renutil.py:309 | version 7.3.5 prints as `7.3.5` |
| Precedence.CompareFlip | renutil/renutil.py:59-75 | swapping the operands flips the answer; a tie means the versions differ at most in build metadata |
| Precedence.CompareTrans | renutil/renutil.py:65-75 | the order is transitive |
| Precedence.CompareTotal | renutil/renutil.py:65-75 | of any two versions, one ranks at most the other |
| Precedence.ExampleChain | renutil/renutil.py:65-75 | the precedence examples of section 11 of SemVer 2.0.0, and build metadata ignored |
| Precedence.Insert | renutil/renutil.py:259 | inserting adds exactly the element (as a multiset) |
| Precedence.SortDescending | renutil/renutil.py:259 | sorting keeps exactly the elements (as a multiset) |
| Precedence.InsertDescending | renutil/renutil.py:259 | inserting into a descending list keeps it descending |
| Precedence.SortDescendingCorrect | renutil/renutil.py:259 | the result is ordered highest first and is a permutation of the input |
| Precedence.TiedTogether | renutil/renutil.py:259 | two versions that tie with a third tie with each other |
| Precedence.InsertTies | renutil/renutil.py:259 | an inserted element comes ahead of the elements it ties with, which keep their order |
| Precedence.SortDescendingStable | renutil/renutil.py:259 | the sort is stable: for every version, the elements tied with it (differing at most in build metadata) keep their input order |
| Instances.JoinPath | renutil/renutil.py:83-84 | `os.path.join(a, b)`: `b` when `a` is empty, `a/b` when `a` does not end in `/` |
| Instances.Resolve | renutil/renutil.py:142-146 | a version argument given as text resolves exactly when it parses, to a record whose canonical form is that text; a parsed version resolves to itself |
| Instances.FirstIndex | renutil/renutil.py:148-150 | the first position whose version is the one asked for, or none exactly when no entry has it |
| Instances.Find | renutil/renutil.py:140-152 | `get_instance`: none for a text that does not parse; otherwise an entry of the list with that version, and no earlier entry has it |
| Instances.FindAt | renutil/renutil.py:148-150 | the first entry with the version is the one returned |
| Instances.FindNone | renutil/renutil.py:152 | without an entry of that version, the lookup answers none and `installed` answers false |
| Instances.IsInstalled | renutil/renutil.py:154-166 | `installed`: true exactly when the argument resolves and some entry has that version |
| Instances.LookupsAgree | renutil/renutil.py:140-166 | `installed(v)` holds exactly when `get_instance(v)` is not none, and the instance returned has the version asked for |
| Instances.BadTextRejected | renutil/renutil.py:143-146 | a string that does not parse gives none from `get_instance` and false from `installed` |
| Instances.AddedKeepsDistinct | renutil/renutil.py:122-125 | adding keeps "no version twice", and the version is present afterwards |
| Instances.AddedIdempotent | renutil/renutil.py:122-123 | adding the same instance twice is adding it once |
| Instances.AddedVersions | renutil/renutil.py:122-125 | after adding, the versions present are the old ones plus the added one |
| Instances.Without | renutil/renutil.py:134-136 | after removing a version, no entry has it, and the list is no longer |
| Instances.AbsentUnchanged | renutil/renutil.py:131-132 | removing a version no entry has changes nothing |
| Instances.RemoveSkippingIsWithout | renutil/renutil.py:134-136 | the `del` inside `enumerate` skips the entry after each deletion; with no version twice this is plain removal |
| Instances.WithoutAt | renutil/renutil.py:134-136 | removing the version at position k leaves the entries before and after k, in order |
| Instances.RemoveSkippingLeavesNeighbour | renutil/renutil.py:134-136 | as written, of two adjacent entries with the version, the second survives |
| Instances.WithoutKeepsDistinct | renutil/renutil.py:134-136 | removal keeps "no version twice" and adds nothing |
| RegistryStore.Registry.constructor | renutil/renutil.py:102-104 | an empty list in memory; the file already holds what is on disk |
| RegistryStore.Registry.Persist | renutil/renutil.py:112-114 | the file now holds the list in memory, which is unchanged |
| RegistryStore.Registry.Load | renutil/renutil.py:106-110 | the list is what the file holds, written first (as an empty list) when missing; the invariant is kept |
| RegistryStore.Registry.Clear | renutil/renutil.py:116-118 | the list and the file are both empty |
| RegistryStore.Registry.AddInstance | renutil/renutil.py:120-127 | after loading: unchanged and not written again when the version is present, otherwise appended and written; the invariant is kept |
| RegistryStore.Registry.RemoveInstance | renutil/renutil.py:129-138 | after loading: unchanged when the version is absent; otherwise, under the invariant, exactly that version's entry is gone and the others keep their order |
| RegistryStore.Registry.GetInstance | renutil/renutil.py:140-152 | loads, then answers `Find` on the loaded list |
| RegistryStore.Registry.Installed | renutil/renutil.py:154-166 | loads, then answers `IsInstalled` on the loaded list |
| RegistryStore.RemoveStep | renutil/renutil.py:134-136 | one deletion of the `enumerate` loop keeps the loop's progress relation |
| RegistryStore.KeepStep | renutil/renutil.py:134-135 | one kept entry keeps the loop's progress relation |
| RegistryStore.Finished | renutil/renutil.py:134-138 | at the end of the loop the list is the goal |
| Cache.Erase | renutil/renutil.py:412 | after `rmtree` of an entry, the names are the old ones without it |
| Cache.Created | renutil/renutil.py:434 | after creating an entry, the names are the old ones plus it |
| Cache.CacheDir.constructor | renutil/renutil.py:208 | a cache directory with the given state |
| Cache.CacheDir.MakeDir | renutil/renutil.py:208-210 | `os.mkdir(CACHE)` gives an empty, present directory |
| Cache.CacheDir.RemoveTree | renutil/renutil.py:412 | the listing loses exactly that entry |
| Cache.CacheDir.Create | renutil/renutil.py:428-434 | the listing gains exactly that entry |
| Cache.EraseKeepsValid | renutil/renutil.py:412 | removing a name keeps the names distinct and slash-free |
| Cache.CreatedKeepsValid | renutil/renutil.py:428-434 | creating a slash-free name keeps the names distinct and slash-free |
| Cache.CollectAppend | renutil/renutil.py:196-201 | scanning a listing in two parts gives the two scans, in listing order |
| Cache.CollectMember | renutil/renutil.py:196-201 | an instance is found exactly when its path is listed and that name gives its version |
| Cache.CollectVersions | renutil/renutil.py:196-201 | a version is found exactly when some listed name gives it |
| Cache.ScanOne | renutil/renutil.py:197-201 | one folder gives an instance exactly when the pattern matches it; its path is the folder name and its version is group 1 |
| Cache.ScanStep | renutil/renutil.py:196-201 | one more folder adds what it stands for at the end |
| Cache.ScannedMember | renutil/renutil.py:194-204 | an instance is scanned exactly when its path is listed and the pattern gives its version |
| Cache.ScanInstances | renutil/renutil.py:194-204 | the loop of `scan_instances` is the scan of the listing |
| Cache.ScanEntry | renutil/renutil.py:197-203 | the loop body for one folder |
| Cache.ScannedDistinct | renutil/renutil.py:194-204 | a real listing (distinct, slash-free names) never scans one version twice |
| Cache.FirstOccurrencesVersions | renutil/renutil.py:215-217 | keeping the first entry of each version keeps every version |
| Cache.FirstOccurrencesSnoc | renutil/renutil.py:216-217 | one more `add_instance` is one more step of the first-occurrence filter |
| Cache.FirstOccurrencesDistinct | renutil/renutil.py:215-217 | what is left never holds a version twice |
| Cache.FirstOccurrencesOfDistinct | renutil/renutil.py:215-217 | a scan with no version twice is kept whole |
| Cache.FirstOccurrencesKeeps | renutil/renutil.py:215-217 | an entry is kept when no earlier entry has its version |
| Cache.AddingPresentChangesNothing | renutil/renutil.py:122-123 | adding only registered versions changes nothing |
| Cache.ReconciledCharacterised | renutil/renutil.py:214-217 | after `assure_state`, a version is registered exactly when some listed name carries it, none twice, and every entry is a scanned one |
| Cache.ReconcileIdempotent | renutil/renutil.py:214-217 | a second pass over the same listing changes nothing |
| Cache.ReconciledIsScan | renutil/renutil.py:214-217 | on a real listing, the registry is the scan itself |
| Cache.CollectErase | renutil/renutil.py:412 | removing a name removes what it was scanned as |
| Cache.ScannedErase | renutil/renutil.py:507 | deleting the directory of a scanned instance unregisters exactly its version |
| Cache.ScannedCreatedOther | renutil/renutil.py:428-429 | creating a name the pattern does not accept (an archive) leaves the scan as it was |
| Cache.ScannedCreatedNew | renutil/renutil.py:434 | creating a new name adds what it stands for at the end of the scan |
| Cache.ScannedPath | renutil/renutil.py:201 | a scanned instance's path is a listed, non-empty, slash-free name |
| Cache.ListedNameScanned | renutil/renutil.py:196-201 | a listed name that carries a version makes that version scanned |
| Cache.AssureState | renutil/renutil.py:207-217 | creates a missing directory; exits when it is not readable and writable (registry untouched); otherwise the registry is the reconciled scan and agrees with the directory |
| Cache.Reregister | renutil/renutil.py:215-217 | clearing and adding every scanned instance leaves their first occurrences |
| Catalog.ArchiveNameNotScanned | renutil/renutil.py:422-423 | a downloaded archive's name is never taken for a version directory |
| Catalog.ArchiveUrlInjective | renutil/renutil.py:254 | different versions have different archive URLs |
| Catalog.ReleaseOf | renutil/renutil.py:249-256 | one link text gives a release exactly when the pattern matches; its version is group 1's, and its URL is `https://www.renpy.org/dl/{v}/renpy-{v}-sdk.zip` |
| Catalog.ToReleasesAppend | renutil/renutil.py:248-256 | releases of two parts are the two lists of releases |
| Catalog.ReleaseOfIsScan | renutil/renutil.py:248-256 | reading a link is scanning it as a name and turning it into a release |
| Catalog.ReleasesOffer | renutil/renutil.py:248-256 | a version is offered exactly when some link text carries it |
| Catalog.ToReleasesOffer | renutil/renutil.py:255 | the releases of scanned instances offer exactly the versions scanned |
| Catalog.ReadReleases | renutil/renutil.py:248-258 | the link loop builds the releases of the page, in link order |
| Catalog.ReleasesStep | renutil/renutil.py:248-256 | one more link adds its release at the end |
| Catalog.AvailableSorted | renutil/renutil.py:259 | the available list is highest first, is a permutation of the page's releases, and offers exactly the versions the links carry |
| Catalog.SortedOffers | renutil/renutil.py:259 | sorting keeps the versions offered |
| Catalog.InstalledSortedCorrect | renutil/renutil.py:262-263 | `get_installed_versions` is highest first and a permutation of the registry |
| Catalog.Take | renutil/renutil.py:308 | `items[:count]`: a prefix of the items, of length `count` when that fits, all of them when `count` is larger, and for a negative `count` all but the last `-count` |
| Catalog.LinesReadBack | renutil/renutil.py:308-316 | one printed line per element, and each reads back as that element's version |
| Commands.GetAvailableVersions | renutil/renutil.py:237-259 | after `assure_state`: an error when the page cannot be fetched, otherwise the page's releases highest first |
| Commands.ValidVersion | renutil/renutil.py:220-234 | false for a string that does not parse; true, with nothing changed, when the in-memory registry has the version; otherwise whether the page offers it |
| Commands.CheckOnline | renutil/renutil.py:230-234 | the online half of `valid_version` |
| Commands.Registered | renutil/renutil.py:227-229 | the loop answers whether some registered instance has the version |
| Commands.Offered | renutil/renutil.py:231-233 | the loop answers whether some release has the version |
| Commands.RemoveInstalled | renutil/renutil.py:410-412 | removes the registered instance found for the version, then its directory; the registry still agrees with the directory |
| Commands.Fetch | renutil/renutil.py:421-472 | creates the two archives and the version's directory, and appends `RenpyInstance(version, version)` to the registry |
| Commands.Install | renutil/renutil.py:403-472 | exits when the cache is unwritable; a registered version without `--force` fails and leaves the directory as it was; otherwise ends as `InstallOutcome` says; the registry always agrees with the directory afterwards |
| Commands.InstallChecked | renutil/renutil.py:407-472 | the rest of `install` past the "already installed" guard |
| Commands.ClearedScan | renutil/renutil.py:407-413 | the forced removal unregisters the version and keeps the rest of the scan |
| Commands.FetchedScan | renutil/renutil.py:428-472 | fetching an unregistered version adds exactly its instance, at the end of the scan |
| Commands.InstallRegisters | renutil/renutil.py:417-472 | a successful install means the version parses and the page offers it; it is registered once, under its own name, after the other instances |
| Commands.ForcedRemovalComesFirst | renutil/renutil.py:408-419 | `install --force` that then fails has already deleted the old directory and unregistered the version |
| Commands.InstallRejectsBadText | renutil/renutil.py:417-419 | an unparseable version is rejected, and the directory is unchanged |
| Commands.Uninstall | renutil/renutil.py:496-507 | an unregistered version is an error that changes nothing; otherwise the entry goes, then its directory |
| Commands.UninstallKeepsOthers | renutil/renutil.py:505-507 | after `uninstall` the version is gone, and the other instances stay in their order |
| Commands.CleanupDirsInside | renutil/renutil.py:632-635 | each of the four directories lies inside the instance's directory |
| Commands.CleanupStaysInside | renutil/renutil.py:632-638 | everything `cleanup` deletes lies under `CACHE/<instance path>/` |
| Commands.JoinedUnder | renutil/renutil.py:632-635 | `os.path.join(a, b)` for a plain `a` lies under `a/` |
| Commands.WithinRoot | renutil/renutil.py:637 | a path under `d`, joined under the root, lies under `root/d` |
| Commands.InstalledInstance | renutil/renutil.py:604-608 | the shared guard: an error for an unregistered version, otherwise its registered instance |
| Commands.Cleanup | renutil/renutil.py:622-638 | an error for an unregistered version; otherwise the four paths of its instance; the listing is unchanged |
| Commands.RegisteredPathIsName | renutil/renutil.py:631 | a registered instance's path is a plain name |
| Commands.Launch | renutil/renutil.py:575-613 | an error for an unregistered version; otherwise the launcher project (unless `--direct`) followed by the user's arguments |
| Commands.List | renutil/renutil.py:294-316 | after `assure_state`, the first `count` versions, highest first, of the registry or of the page |
| Commands.TakeLines | renutil/renutil.py:315-316 | `[:count]` keeps at most `count` elements, and the i-th line printed is the version of the i-th element |
| Commands.LocalLinesListed | renutil/renutil.py:311-316 | at most `count` lines, each the version of a registered instance, in descending order |
| Commands.InstallSevenThreeFive | tests/test_cli.py:15-18 | installing 7.3.5 into an empty cache, with a page that links `7.3.5/`, succeeds and registers 7.3.5 |
| Commands.ListAfterInstall | tests/test_cli.py:29-33 | after that install, `list` prints exactly `7.3.5` |
| Commands.LocalLinesOne | renutil/renutil.py:315-316 | a registry of one instance lists that instance's version |
| Members.PartsOfHas | renutil/renutil.py:345-349 | the parts of every file entry inside a directory are collected |
| Members.PartsOfNone | renutil/renutil.py:345-349 | without such an entry nothing is collected |
| Members.Lcp | renutil/renutil.py:350 | a prefix of both lists that cannot be extended |
| Members.LcpGreatest | renutil/renutil.py:350 | every common prefix of two lists begins their longest common prefix |
| Members.CommonPrefix | renutil/renutil.py:350 | `os.path.commonprefix` on component lists: a prefix of every element, empty for no elements |
| Members.CommonPrefixGreatest | renutil/renutil.py:350 | every prefix shared by all elements begins the common prefix |
| Members.PrefixText | renutil/renutil.py:351-352 | the prefix as text is empty exactly for an empty prefix, and otherwise ends in `/` |
| Members.Stripped | renutil/renutil.py:354-358 | no more names come out than went in |
| Members.StrippedAppend | renutil/renutil.py:354-358 | the output keeps input order |
| Members.StrippedMember | renutil/renutil.py:354-358 | a name comes out exactly when some entry longer than the offset ends in it after the cut |
| Members.StrippedZero | renutil/renutil.py:356-357 | with offset 0 every non-empty name comes out unchanged, in order |
| Members.GetMembers | renutil/renutil.py:343-358 | the two loops compute `Members` |
| Members.UnderPrefix | renutil/renutil.py:350-353 | a name whose parts begin with the prefix begins with its text, and a file entry is longer than it |
| Members.ContributorStripped | renutil/renutil.py:343-358 | every file entry inside a directory is yielded, and it loses exactly the shared directory |
| Members.NoDirectories | renutil/renutil.py:343-358 | when no file entry lies in a directory, the offset is 0 and every non-empty name comes out unchanged |
| Members.NoSharedTop | renutil/renutil.py:343-358 | when two file entries lie in different top directories, the offset is 0 and every non-empty name comes out unchanged |
| Members.StripsTopDirectory | renutil/renutil.py:343-358 | `proj-1.0/`, `proj-1.0/a.txt`, `proj-1.0/sub/b.txt` give `a.txt`, `sub/b.txt` |
| Members.RootFileCut | renutil/renutil.py:343-358 | as written, a top-level file beside a file in a directory is cut too, and what it loses is not the prefix |
| Members.ReadmeCut | renutil/renutil.py:343-358 | as written, `proj/a.txt` beside `readme.md` gives `a.txt` and `e.md` |
| Members.CorrectedStripsSharedPrefix | renutil/renutil.py:343-358 | corrected: every entry begins with the shared prefix, each yielded name is its entry with exactly that prefix removed, and only the shared directory itself (or an empty name) is dropped |
| Members.CorrectedKeepsTopLevel | renutil/renutil.py:343-358 | corrected: one top-level entry means nothing is cut |
| Members.ReadmeKept | renutil/renutil.py:343-358 | corrected: `readme.md` keeps its name |
| Patches.PatchFile | renutil/renutil.py:379-397 | the loop writes exactly `Patched` |
| Patches.PatchStep | renutil/renutil.py:385-397 | one pass of the loop: its piece, then the rest with the flag this line sets |
| Patches.PatchedSplit | renutil/renutil.py:385-397 | writing in two runs, the second starting with the flag the first left |
| Patches.NoTargetUnchanged | renutil/renutil.py:396-397 | with no line containing the target, the file is written back unchanged |
| Patches.PatchPlacement | renutil/renutil.py:386-397 | a target line that is not last gets the patch right after it, or after the following line when `reverse` is set |
| Patches.EndsWithLastLine | renutil/renutil.py:385-395 | without `reverse`, what is written ends with the last line |
| Patches.WithoutPatch | renutil/renutil.py:389-391 | removing the patch texts leaves none of them |
| Patches.RemovingPatchesRestores | renutil/renutil.py:379-397 | when no line is the patch itself, removing the patch texts gives back the original lines, in order |
| Patches.PatchCount | renutil/renutil.py:379-397 | exactly one patch per target line that is not the last |
| Patches.RewriteGradle | renutil/renutil.py:486-491 | the loop writes exactly `Rewritten` |
| Patches.RewriteSetsHeap | renutil/renutil.py:488-491 | a line sets the JVM arguments after the rewrite exactly when it did before, and then it sets the 8 GB heap; other lines are unchanged |
| Patches.RewriteIdempotent | renutil/renutil.py:487-491 | rewriting twice is rewriting once |
| Download.DownloadPlan | renutil/renutil.py:319-331 | stops exactly on a 404; a fetch starts at the existing size and ends at a known size, which is larger |
| Download.FreshDownload | renutil/renutil.py:325-331 | with no file yet, the whole archive is requested |
| Download.ResumeOrSkip | renutil/renutil.py:325-331 | a partial file is resumed at its end; a complete one is skipped |
| Download.MissingLengthSkips | renutil/renutil.py:324-330 | as written, a missing `Content-Length` always skips the download |
| Download.CorrectedPlan | renutil/renutil.py:324-331 | corrected: a 404 stops; a fetch starts at the existing size and has the answer's size as its end |
| Download.CorrectedPlanFetches | renutil/renutil.py:324-331 | corrected: an unknown size fetches from the first missing byte; a known size behaves as before; a skip happens exactly when the file is complete |
| Download.RangeHeaderInjective | renutil/renutil.py:331 | the `Range` header determines the first byte and the end |
| Aliases.Matches | renutil/renutil.py:41 | the matches are no more than the commands |
| Aliases.MatchesMember | renutil/renutil.py:41 | the matches are exactly the commands that start with the text |
| Aliases.MatchesDistinct | renutil/renutil.py:41 | distinct commands give distinct matches |
| Aliases.OnlyMatch | renutil/renutil.py:41-45 | when only one command starts with the text, it is the only match |
| Aliases.FoundIff | renutil/renutil.py:37-45 | a command is found exactly when the text is its name, or a prefix of its name and of no other |
| Aliases.AmbiguousIff | renutil/renutil.py:41-46 | a usage error exactly when the text is no command and two commands start with it |
| Aliases.MissingIff | renutil/renutil.py:41-43 | nothing is found exactly when no command starts with the text |
| Aliases.MatchesOfFive | renutil/renutil.py:41 | the matches among five commands, one by one |
| Aliases.LIsAmbiguous | renutil/renutil.py:41-46 | `l` stops with `Too many matches: launch, list` |
| Aliases.TwoLetters | renutil/renutil.py:276-277 | `la` finds `launch` and `li` finds `list` |
| Aliases.SecondLetterMatches | renutil/renutil.py:276-277 | `la` matches only `launch` and `li` only `list`, and neither is a command's full name |
| Aliases.ExactAndUnknown | renutil/renutil.py:37-43 | `list` is found as it is; `x` finds nothing |
| Aliases.InsertName | renutil/renutil.py:46 | inserting adds exactly the name (as a multiset) |
| Aliases.SortNames | renutil/renutil.py:46 | `sorted` keeps exactly the names (as a multiset) |
| Aliases.InsertOrdered | renutil/renutil.py:46 | inserting into names in order keeps them in order |
| Aliases.SortNamesCorrect | renutil/renutil.py:46 | `sorted` gives the names in Python's string order, a permutation of its input |
| Aliases.SortOrdered | renutil/renutil.py:46 | `sorted` leaves names already in order as they are |
| Aliases.MatchesOrdered | renutil/renutil.py:41 | the matches among commands in order are in order |
| Aliases.AmbiguousMessage | renutil/renutil.py:41-46 | the usage error lists, after `Too many matches: `, at least two names, sorted, a permutation of the matches, exactly the commands that start with the text; for commands in order the list is the matches as collected |
| Aliases.AmbiguousTwo | renutil/renutil.py:41-46 | two matches in order, for a text that is no command, give `Too many matches: a, b` |
| Aliases.CommandsOrdered | renutil/renutil.py:41 | renutil's five commands come in Python's string order, as `list_commands` answers them |
| Aliases.CIsCleanup | renutil/renutil.py:273-275 | `c` finds `cleanup`, as the cli docstring says |
| Platform.DotsThen86Iff | renutil/renutil.py:520 | `.*86` matches at the start exactly when `86` occurs with no newline before it |
| Platform.PlatformCases | renutil/renutil.py:514-523 | the tests decide in order; `linux-i686` exactly for an `i…86` machine past the first three tests; `linux-<machine>` for a Linux system past the first four; no platform exactly when every test fails |
| Platform.LinuxI686 | renutil/renutil.py:520-521 | Linux on `i686` gives `linux-i686` |
| Platform.LinuxOther | renutil/renutil.py:522-523 | Linux on `armv7l` gives `linux-armv7l` |
| Platform.AnyAmd64 | renutil/renutil.py:518-519 | any system with an `amd64` machine, even FreeBSD, gives `linux-x86_64` |

## Left out

- Network I/O is not modelled. This covers `requests`, `is_online`, the streaming body of `download` and its progress bar, and the HTML parsing of the download page. The page's link texts are an input (`None` when the page cannot be fetched), and so are the status and `Content-Length` of the `HEAD` answer.
- Zip and tar extraction is not modelled. `get_members_*` works on the list of member names, and yields new names instead of renaming the member objects in place.
- Filesystem calls are not modelled: `chmod`, `cd`, `os.access`, and the setting up of the download directory in `cli`. The cache directory is a class: its listing, whether it exists, and whether it is accessible. A version's directory is one entry of that listing. Files inside it are not modelled.
- `get_libraries` is not modelled: the executable and `renpy.py` it finds by probing directories. `launch` answers only the arguments that follow them.
- pickle is not modelled: the index file is the list it holds.
- Subprocesses and environment variables are not modelled: `Popen`/`run`, `RAPT_NO_TERMS`, `SDL_AUDIODRIVER`, `LD_LIBRARY_PATH`, the RAPT `installsdk` step, and the `KeyboardInterrupt` handler.
- Precedence.Compare: the comparison operators of the `semantic_version` library are not part of this model. The order used here is the precedence of section 11 of SemVer 2.0.0, as a stand-in. Equality of versions is equality of the parsed records, as `__eq__` compares the `version` fields.
- Versions.Parse: `Version(text)` is read as the plain SemVer 2.0.0 grammar. Other leniencies the library may have are not modelled.
- Versions.Match: `\d` is read as the digits 0-9, whereas Python 3 also matches other Unicode digits. `$`, which also matches before a final newline, is read as the end of the text.
- Commands.Install: the three `patch_file` calls and the `gradle.properties` rewrite act on files inside the version's directory, which are not modelled. They are modelled on their own in `Patches`.
- Commands.Install: the `chmod` calls and the platform choice of `python` or `python.exe` are not modelled.
- Commands.Install: each download is modelled as creating its archive in the cache. The range decision is modelled on its own in `Download`.
- Commands.Install: `InstallOutcome` has no case for the `sys.exit(1)` in `download` when the SDK or RAPT archive answers 404 (renutil/renutil.py:321-323), and none for the failure to open an archive that a skipped download never created (renutil/renutil.py:432-433). A version the page offers is always modelled as fetched.
- Download.DownloadPlan: a `Content-Length` that is not a number (a `ValueError` in `int(...)`) is not modelled.
- Platform.PlatformCases: `get_platform` answering `None` is modelled as `None`. What its callers then do with it is not: `install` fails with a `TypeError` in `os.path.join` (renutil/renutil.py:444-446), and `get_libraries` fails with an `AttributeError` on `None.startswith` (renutil/renutil.py:545).
- `click` and logging are not modelled: the decorators, the option parsing, and the log messages. The globals `CACHE` and `REGISTRY` are passed as parameters.
- `list` returns the lines it would print, rather than echoing them.
- setup.py, the packaging metadata, is not part of this model.

## Findings

| source | as written | input that shows it | evidently intended | confidence | as-written member | corrected member |
|---|---|---|---|---|---|---|
| renutil/renutil.py:343-376 | the offset is the length of the common directory of the file entries inside a directory only, and is cut from every name longer than it, including top-level files that do not begin with it | an archive with `proj/a.txt` and `readme.md`: the members come out as `a.txt` and `e.md` | cut only the directory that every entry shares, so that `readme.md` keeps its name | not executed | Members.ReadmeCut | Members.CorrectedStripsSharedPrefix |
| renutil/renutil.py:324-330 | a `HEAD` answer without `Content-Length` makes the size -1, and every file size is at least -1, so the download is always skipped | status 200 with no `Content-Length` and no file in the cache: nothing is downloaded, and extraction finds no archive | an unknown size fetches everything from the first missing byte | not executed | Download.MissingLengthSkips | Download.CorrectedPlanFetches |
