/**
  `get_members_zip` and `get_members_tar`: the member names of an SDK
  archive with the directory they all share cut off, so that the archive
  unpacks straight into the version's directory. The two functions are the
  same code over the two archive kinds; the model works on the list of
  member names, in archive order, and answers the new names of the members
  that are extracted.

  The shared directory is the component-wise common prefix of the directory
  parts of the file entries (`os.path.commonprefix` over lists of
  components), written back as text with a trailing `/`; every name longer
  than that text loses as many characters as the text has.
 */
module Members {
  import opened Text

  /** `p` is a prefix of `s`, element by element. */
  predicate IsPrefix(p: seq<string>, s: seq<string>)
  {
    |p| <= |s| && s[..|p|] == p
  }

  lemma PrefixTrans(r: seq<string>, c: seq<string>, s: seq<string>)
    requires IsPrefix(r, c) && IsPrefix(c, s)
    ensures IsPrefix(r, s)
  {
    assert s[..|r|] == s[..|c|][..|r|];
  }

  /** `name.split("/")[:-1]`: the directory components of a member name. */
  function DirParts(name: string): seq<string>
  {
    var p := Split(name, '/');
    p[..|p| - 1]
  }

  /** A file entry (no trailing `/`) inside some directory: its parts count for the prefix. */
  predicate Contributes(name: string)
  {
    !EndsWith(name, '/') && DirParts(name) != []
  }

  /** The `parts` list the first loop builds: the directory parts of the contributing entries. */
  function PartsOf(names: seq<string>): seq<seq<string>>
  {
    if names == [] then []
    else
      var last := names[|names| - 1];
      PartsOf(names[..|names| - 1]) + (if Contributes(last) then [DirParts(last)] else [])
  }

  /** The parts of every contributing entry are in the list. */
  lemma {:induction false} PartsOfHas(names: seq<string>, i: nat)
    requires i < |names| && Contributes(names[i])
    ensures DirParts(names[i]) in PartsOf(names)
  {
    var n := |names| - 1;
    if i < n {
      assert names[..n][i] == names[i];
      PartsOfHas(names[..n], i);
    }
  }

  /** Without a contributing entry the list stays empty. */
  lemma {:induction false} PartsOfNone(names: seq<string>)
    requires forall i :: 0 <= i < |names| ==> !Contributes(names[i])
    ensures PartsOf(names) == []
  {
    if names != [] {
      var n := |names| - 1;
      assert forall i :: 0 <= i < n ==> names[..n][i] == names[i];
      PartsOfNone(names[..n]);
    }
  }

  /** The longest common prefix of two component lists. */
  function Lcp(a: seq<string>, b: seq<string>): (r: seq<string>)
    ensures IsPrefix(r, a) && IsPrefix(r, b)
    ensures |r| == |a| || |r| == |b| || a[|r|] != b[|r|]
  {
    if a == [] || b == [] || a[0] != b[0] then []
    else
      var rest := Lcp(a[1..], b[1..]);
      assert a[1..][..|rest|] == a[1..|rest| + 1] && b[1..][..|rest|] == b[1..|rest| + 1];
      [a[0]] + rest
  }

  /** Whatever is a prefix of both lists is a prefix of their longest common prefix. */
  lemma LcpGreatest(a: seq<string>, b: seq<string>, q: seq<string>)
    requires IsPrefix(q, a) && IsPrefix(q, b)
    ensures IsPrefix(q, Lcp(a, b))
  {
    var r := Lcp(a, b);
    if |q| <= |r| {
      assert a[..|q|] == a[..|r|][..|q|];
    }
  }

  /**
    `os.path.commonprefix(parts)` on lists of components: the longest list
    that begins every element, and empty when there is no element.
   */
  function CommonPrefix(parts: seq<seq<string>>): (r: seq<string>)
    ensures forall i :: 0 <= i < |parts| ==> IsPrefix(r, parts[i])
    ensures parts == [] ==> r == []
  {
    if parts == [] then []
    else if |parts| == 1 then parts[0]
    else
      var n := |parts| - 1;
      var init := CommonPrefix(parts[..n]);
      var r := Lcp(init, parts[n]);
      assert forall i :: 0 <= i < n ==> parts[..n][i] == parts[i];
      forall i | 0 <= i < n ensures IsPrefix(r, parts[i]) {
        PrefixTrans(r, init, parts[i]);
      }
      r
  }

  /** The common prefix is the longest one: every prefix shared by all elements begins it. */
  lemma {:induction false} CommonPrefixGreatest(parts: seq<seq<string>>, q: seq<string>)
    requires parts != []
    requires forall i :: 0 <= i < |parts| ==> IsPrefix(q, parts[i])
    ensures IsPrefix(q, CommonPrefix(parts))
  {
    if |parts| > 1 {
      var n := |parts| - 1;
      assert forall i :: 0 <= i < n ==> parts[..n][i] == parts[i];
      CommonPrefixGreatest(parts[..n], q);
      LcpGreatest(CommonPrefix(parts[..n]), parts[n], q);
    }
  }

  /** `"/".join(prefix) + "/"` when the prefix is not empty, else the empty string. */
  function PrefixText(prefix: seq<string>): (r: string)
    ensures prefix == [] <==> r == []
    ensures prefix != [] ==> EndsWith(r, '/')
  {
    if prefix == [] then [] else Join(prefix, '/') + "/"
  }

  /** The number of characters cut from each name. */
  function Offset(names: seq<string>): nat
  {
    |PrefixText(CommonPrefix(PartsOf(names)))|
  }

  /** The second loop: each name longer than `offset` with its first `offset` characters cut. */
  function Stripped(names: seq<string>, offset: nat): (r: seq<string>)
    ensures |r| <= |names|
  {
    if names == [] then []
    else
      var last := names[|names| - 1];
      Stripped(names[..|names| - 1], offset) + (if |last| > offset then [last[offset..]] else [])
  }

  /** The members renutil extracts, with their new names. */
  function Members(names: seq<string>): seq<string>
  {
    Stripped(names, Offset(names))
  }

  /** The stripping of a concatenation is the concatenation of the strippings: input order is kept. */
  lemma {:induction false} StrippedAppend(a: seq<string>, b: seq<string>, offset: nat)
    ensures Stripped(a + b, offset) == Stripped(a, offset) + Stripped(b, offset)
  {
    if b != [] {
      var n := |b| - 1;
      assert (a + b)[..|a + b| - 1] == a + b[..n];
      assert (a + b)[|a + b| - 1] == b[n];
      StrippedAppend(a, b[..n], offset);
    } else {
      assert a + b == a;
    }
  }

  /** A name comes out exactly when some entry longer than the offset ends in it after the cut. */
  lemma {:induction false} StrippedMember(names: seq<string>, offset: nat, o: string)
    ensures o in Stripped(names, offset) <==>
            exists i :: 0 <= i < |names| && |names[i]| > offset && names[i][offset..] == o
  {
    if names != [] {
      var n := |names| - 1;
      StrippedMember(names[..n], offset, o);
      assert forall i :: 0 <= i < n ==> names[..n][i] == names[i];
      if exists i :: 0 <= i < |names| && |names[i]| > offset && names[i][offset..] == o {
        var i :| 0 <= i < |names| && |names[i]| > offset && names[i][offset..] == o;
        if i < n {
          assert names[..n][i] == names[i];
        }
      }
    }
  }

  /** With no shared prefix every non-empty name comes out unchanged, in order. */
  lemma {:induction false} StrippedZero(names: seq<string>)
    ensures Stripped(names, 0) == NonEmpty(names)
  {
    if names != [] {
      StrippedZero(names[..|names| - 1]);
      assert names[|names| - 1][0..] == names[|names| - 1];
    }
  }

  /** The non-empty names, in order. */
  function NonEmpty(names: seq<string>): seq<string>
  {
    if names == [] then []
    else
      var last := names[|names| - 1];
      NonEmpty(names[..|names| - 1]) + (if last != [] then [last] else [])
  }

  /**
    The loops of `get_members_zip` and `get_members_tar`: collect the
    directory parts of the file entries, take their common prefix as text,
    then yield each name longer than it with that many characters cut.
   */
  method GetMembers(names: seq<string>) returns (out: seq<string>)
    ensures out == Members(names)
  {
    var parts: seq<seq<string>> := [];
    var i := 0;
    while i < |names|
      invariant i <= |names| && parts == PartsOf(names[..i])
    {
      var name := names[i];
      if !EndsWith(name, '/') {
        var data := DirParts(name);
        if data != [] {
          parts := parts + [data];
        }
      }
      assert names[..i + 1][..i] == names[..i];
      i := i + 1;
    }
    assert names[..|names|] == names;
    var common := CommonPrefix(parts);
    var prefix: string := [];
    if common != [] {
      prefix := Join(common, '/') + "/";
    }
    var offset := |prefix|;
    out := [];
    i := 0;
    while i < |names|
      invariant i <= |names| && out == Stripped(names[..i], offset)
    {
      var name := names[i];
      if |name| > offset {
        out := out + [name[offset..]];
      }
      assert names[..i + 1][..i] == names[..i];
      i := i + 1;
    }
    assert names[..|names|] == names;
  }

  /** Joining two non-empty lists joins their joins with one separator. */
  lemma {:induction false} JoinAppend(a: seq<string>, b: seq<string>, sep: char)
    requires |a| >= 1 && |b| >= 1
    ensures Join(a + b, sep) == Join(a, sep) + [sep] + Join(b, sep)
  {
    if |a| > 1 {
      assert (a + b)[1..] == a[1..] + b;
      JoinAppend(a[1..], b, sep);
    } else {
      assert (a + b)[1..] == b;
    }
  }

  /** The last piece of a split of a text that does not end with the separator is not empty. */
  lemma {:induction false} LastPieceNotEmpty(s: string, sep: char)
    requires s != [] && !EndsWith(s, sep)
    ensures Split(s, sep)[|Split(s, sep)| - 1] != []
  {
    if |s| > 1 {
      assert s[1..][|s[1..]| - 1] == s[|s| - 1];
      LastPieceNotEmpty(s[1..], sep);
    }
  }

  /**
    A name whose directory parts begin with a non-empty list `p` begins with
    the text of `p`; when the name is a file entry it is longer than that text.
   */
  lemma UnderPrefix(name: string, p: seq<string>)
    requires p != [] && IsPrefix(p, DirParts(name))
    ensures StartsWith(name, PrefixText(p))
    ensures !EndsWith(name, '/') ==> |name| > |PrefixText(p)|
  {
    var pieces := Split(name, '/');
    var rest := pieces[|p|..];
    assert pieces == p + rest;
    JoinSplit(name, '/');
    JoinAppend(p, rest, '/');
    assert name == (Join(p, '/') + "/") + Join(rest, '/');
    if !EndsWith(name, '/') {
      LastPieceNotEmpty(name, '/');
      if |rest| == 1 {
        assert Join(rest, '/') == pieces[|pieces| - 1];
      } else {
        assert Join(rest, '/') == rest[0] + ['/'] + Join(rest[1..], '/');
      }
    }
  }

  /**
    Every file entry inside a directory is yielded, and what it loses is
    exactly the shared directory: the prefix text followed by the new name
    is the old name.
   */
  lemma ContributorStripped(names: seq<string>, i: nat)
    requires i < |names| && Contributes(names[i])
    ensures |names[i]| > Offset(names)
    ensures PrefixText(CommonPrefix(PartsOf(names))) + names[i][Offset(names)..] == names[i]
  {
    var parts := PartsOf(names);
    var p := CommonPrefix(parts);
    PartsOfHas(names, i);
    var k :| 0 <= k < |parts| && parts[k] == DirParts(names[i]);
    if p != [] {
      UnderPrefix(names[i], p);
    } else {
      assert names[i] != [];
    }
  }

  /** When no file entry lies in a directory nothing is cut and every non-empty name is yielded. */
  lemma NoDirectories(names: seq<string>)
    requires forall i :: 0 <= i < |names| ==> !Contributes(names[i])
    ensures Offset(names) == 0 && Members(names) == NonEmpty(names)
  {
    PartsOfNone(names);
    StrippedZero(names);
  }

  /** When two file entries lie in different top directories nothing is cut. */
  lemma NoSharedTop(names: seq<string>, i: nat, j: nat)
    requires i < |names| && j < |names| && Contributes(names[i]) && Contributes(names[j])
    requires DirParts(names[i])[0] != DirParts(names[j])[0]
    ensures Offset(names) == 0 && Members(names) == NonEmpty(names)
  {
    var parts := PartsOf(names);
    PartsOfHas(names, i);
    PartsOfHas(names, j);
    var a :| 0 <= a < |parts| && parts[a] == DirParts(names[i]);
    var b :| 0 <= b < |parts| && parts[b] == DirParts(names[j]);
    StrippedZero(names);
  }

  /** The directory parts of a name written as separator-free pieces joined by `/`. */
  lemma DirPartsOfJoin(pieces: seq<string>, name: string)
    requires |pieces| >= 1 && forall i :: 0 <= i < |pieces| ==> '/' !in pieces[i]
    requires name == Join(pieces, '/')
    ensures DirParts(name) == pieces[..|pieces| - 1]
  {
    SplitJoin(pieces, '/');
  }

  lemma TopEntryParts()
    ensures DirParts("proj-1.0/") == ["proj-1.0"]
  {
    var pieces := ["proj-1.0", ""];
    assert Join(pieces, '/') == "proj-1.0/";
    DirPartsOfJoin(pieces, "proj-1.0/");
  }

  lemma FileEntryParts()
    ensures DirParts("proj-1.0/a.txt") == ["proj-1.0"]
  {
    var pieces := ["proj-1.0", "a.txt"];
    assert Join(pieces, '/') == "proj-1.0/a.txt";
    DirPartsOfJoin(pieces, "proj-1.0/a.txt");
  }

  lemma NestedEntryParts()
    ensures DirParts("proj-1.0/sub/b.txt") == ["proj-1.0", "sub"]
  {
    var pieces := ["proj-1.0", "sub", "b.txt"];
    assert Join(pieces[1..], '/') == "sub/b.txt";
    assert Join(pieces, '/') == "proj-1.0/sub/b.txt";
    DirPartsOfJoin(pieces, "proj-1.0/sub/b.txt");
  }

  /** The example archive: a top directory entry, a file in it and a file in a subdirectory. */
  const Example: seq<string> := ["proj-1.0/", "proj-1.0/a.txt", "proj-1.0/sub/b.txt"]

  /** One more entry adds its directory parts when it contributes. */
  lemma PartsOfSnoc(names: seq<string>, x: string)
    ensures PartsOf(names + [x]) == PartsOf(names) + (if Contributes(x) then [DirParts(x)] else [])
  {
    assert (names + [x])[..|names|] == names;
  }

  /** The parts of a three-entry archive, entry by entry. */
  lemma PartsOfThree(a: string, b: string, c: string)
    requires !Contributes(a) && Contributes(b) && Contributes(c)
    ensures PartsOf([a, b, c]) == [DirParts(b), DirParts(c)]
  {
    PartsOfSnoc([], a);
    assert [] + [a] == [a];
    PartsOfSnoc([a], b);
    assert [a] + [b] == [a, b];
    PartsOfSnoc([a, b], c);
    assert [a, b] + [c] == [a, b, c];
  }

  lemma ExamplePartsOf()
    ensures PartsOf(Example) == [["proj-1.0"], ["proj-1.0", "sub"]]
  {
    TopEntryParts();
    FileEntryParts();
    NestedEntryParts();
    PartsOfThree(Example[0], Example[1], Example[2]);
  }

  lemma ExampleStripped()
    ensures Stripped(Example, 9) == ["a.txt", "sub/b.txt"]
  {
    assert Example[..2][..1] == [Example[0]] && Example[..2] == [Example[0], Example[1]];
    assert Stripped(Example[..1], 9) == [];
    assert Stripped(Example[..2], 9) == ["a.txt"];
  }

  /** The layout of an SDK archive: its top directory is cut off and its own entry dropped. */
  lemma StripsTopDirectory()
    ensures Members(Example) == ["a.txt", "sub/b.txt"]
  {
    ExamplePartsOf();
    var parts := [["proj-1.0"], ["proj-1.0", "sub"]];
    assert CommonPrefix(parts) == ["proj-1.0"] by {
      assert parts[..1] == [["proj-1.0"]];
    }
    assert Offset(Example) == 9;
    ExampleStripped();
  }

  /** A name without a `/` has no directory parts. */
  lemma PlainName(b: string)
    requires '/' !in b
    ensures DirParts(b) == [] && !Contributes(b)
  {
    DirPartsOfJoin([b], b);
  }

  /**
    As written, a top-level file `b` next to a file `a` inside a directory is
    cut too: the offset is the length of `a`'s directory text, and `b` loses
    that many characters although it does not begin with that text.
   */
  lemma RootFileCut(a: string, b: string)
    requires Contributes(a) && '/' !in b
    requires |b| > |PrefixText(DirParts(a))|
    ensures Offset([a, b]) == |PrefixText(DirParts(a))| > 0
    ensures |a| > Offset([a, b])
    ensures Members([a, b]) == [a[Offset([a, b])..], b[Offset([a, b])..]]
    ensures PrefixText(DirParts(a)) + b[Offset([a, b])..] != b
  {
    PlainName(b);
    PartsOfTwo(a, b);
    var t := PrefixText(DirParts(a));
    UnderPrefix(a, DirParts(a));
    assert CommonPrefix([DirParts(a)]) == DirParts(a);
    assert [a, b][..1] == [a];
    assert [a][..0] == [];
    assert Stripped([a], |t|) == [a[|t|..]];
  }

  lemma PartsOfTwo(a: string, b: string)
    requires Contributes(a) && !Contributes(b)
    ensures PartsOf([a, b]) == [DirParts(a)]
  {
    PartsOfSnoc([], a);
    assert [] + [a] == [a];
    PartsOfSnoc([a], b);
    assert [a] + [b] == [a, b];
  }

  lemma ProjFileParts(a: string)
    requires a == "proj/a.txt"
    ensures DirParts(a) == ["proj"]
  {
    assert Join(["proj", "a.txt"], '/') == a;
    DirPartsOfJoin(["proj", "a.txt"], a);
  }

  /** `proj/a.txt` next to `readme.md`: the top-level file comes out as `e.md`. */
  lemma ReadmeCut(a: string, b: string)
    requires a == "proj/a.txt" && b == "readme.md"
    ensures Members([a, b]) == ["a.txt", "e.md"]
  {
    ProjFileParts(a);
    assert PrefixText(["proj"]) == "proj/";
    assert '/' !in b && |b| > 5;
    RootFileCut(a, b);
    assert a[5..] == "a.txt" && b[5..] == "e.md";
  }

  /**
    The evidently intended prefix: the one every entry shares, so the
    directory parts of every entry count, its own directory entries and the
    files at the top level included.
   */
  function AllParts(names: seq<string>): seq<seq<string>>
  {
    seq(|names|, i requires 0 <= i < |names| => DirParts(names[i]))
  }

  /** The shared directory of every entry, as text. */
  function SharedPrefix(names: seq<string>): string
  {
    PrefixText(CommonPrefix(AllParts(names)))
  }

  /** The members with the directory every entry shares cut off. */
  function CorrectedMembers(names: seq<string>): seq<string>
  {
    Stripped(names, |SharedPrefix(names)|)
  }

  /**
    With the corrected prefix every entry begins with it, so each yielded
    name is its entry with exactly the shared directory taken off, and the
    only entry dropped besides an empty name is the shared directory itself.
   */
  lemma CorrectedStripsSharedPrefix(names: seq<string>, i: nat)
    requires i < |names|
    ensures StartsWith(names[i], SharedPrefix(names))
    ensures |names[i]| > |SharedPrefix(names)| ==>
              SharedPrefix(names) + names[i][|SharedPrefix(names)|..] == names[i]
    ensures |names[i]| <= |SharedPrefix(names)| ==> names[i] == SharedPrefix(names)
    ensures !EndsWith(names[i], '/') && names[i] != [] ==> |names[i]| > |SharedPrefix(names)|
  {
    var p := CommonPrefix(AllParts(names));
    if p != [] {
      assert IsPrefix(p, AllParts(names)[i]);
      UnderPrefix(names[i], p);
    }
  }

  /** Corrected, one top-level entry means nothing is shared: every non-empty name is kept whole. */
  lemma CorrectedKeepsTopLevel(names: seq<string>, i: nat)
    requires i < |names| && DirParts(names[i]) == []
    ensures SharedPrefix(names) == [] && CorrectedMembers(names) == NonEmpty(names)
  {
    assert IsPrefix(CommonPrefix(AllParts(names)), AllParts(names)[i]);
    StrippedZero(names);
  }

  /** Corrected, `readme.md` keeps its name beside `proj/a.txt`. */
  lemma ReadmeKept(a: string, b: string)
    requires a == "proj/a.txt" && b == "readme.md"
    ensures CorrectedMembers([a, b]) == [a, b]
  {
    PlainName(b);
    CorrectedKeepsTopLevel([a, b], 1);
    assert [a, b][..1] == [a] && [a][..0] == [];
  }
}
