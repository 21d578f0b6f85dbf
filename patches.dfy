/**
  The line edits renutil makes to RAPT's files during `install`:
  `patch_file`, which writes a patch text next to every line that follows a
  line containing a target, and the rewrite of `gradle.properties`, which
  gives the Gradle JVM a larger heap. A file is its list of lines (each line
  keeps its newline, as `readlines` gives it); what a patch writes is the
  list of texts handed to `write`, in order, which the file then holds one
  after the other.
 */
module Patches {
  import opened Text

  /** What is written for one line: the patch before or after it when the line before held the target. */
  function Piece(line: string, patch: string, reverse: bool, found: bool): seq<string>
  {
    if !found then [line]
    else if reverse then [line, patch]
    else [patch, line]
  }

  /**
    What `patch_file` writes for `lines` when `found` says whether the line
    before them held the target.
   */
  function PatchedFrom(lines: seq<string>, target: string, patch: string, reverse: bool, found: bool): seq<string>
  {
    if lines == [] then []
    else Piece(lines[0], patch, reverse, found) + PatchedFrom(lines[1..], target, patch, reverse, Contains(lines[0], target))
  }

  /** What `patch_file(file, target, patch, reverse)` writes over a file with these lines. */
  function Patched(lines: seq<string>, target: string, patch: string, reverse: bool): seq<string>
  {
    PatchedFrom(lines, target, patch, reverse, false)
  }

  /**
    The loop of `patch_file`: each line is written, preceded or followed by
    the patch when the `found` flag is up, and the flag is raised for the
    next line exactly when this one contains the target.
   */
  method PatchFile(lines: seq<string>, target: string, patch: string, reverse: bool) returns (out: seq<string>)
    ensures out == Patched(lines, target, patch, reverse)
  {
    out := [];
    var found := false;
    var i := 0;
    while i < |lines|
      invariant i <= |lines|
      invariant out + PatchedFrom(lines[i..], target, patch, reverse, found) == Patched(lines, target, patch, reverse)
    {
      var line := lines[i];
      ghost var before, wasFound := out, found;
      PatchStep(lines, i, target, patch, reverse, found);
      if found {
        if reverse {
          out := out + [line, patch];
        } else {
          out := out + [patch, line];
        }
        found := false;
      } else {
        out := out + [line];
      }
      if Contains(line, target) {
        found := true;
      }
      assert out == before + Piece(line, patch, reverse, wasFound);
      Regroup(before, Piece(line, patch, reverse, wasFound), PatchedFrom(lines[i + 1..], target, patch, reverse, found));
      i := i + 1;
    }
    assert lines[|lines|..] == [];
  }

  /** One line of the loop: its piece, then the rest with the flag it leaves. */
  lemma PatchStep(lines: seq<string>, i: nat, target: string, patch: string, reverse: bool, found: bool)
    requires i < |lines|
    ensures PatchedFrom(lines[i..], target, patch, reverse, found) ==
            Piece(lines[i], patch, reverse, found) + PatchedFrom(lines[i + 1..], target, patch, reverse, Contains(lines[i], target))
  {
    assert lines[i..][0] == lines[i] && lines[i..][1..] == lines[i + 1..];
  }

  lemma Regroup(a: seq<string>, b: seq<string>, c: seq<string>)
    ensures a + (b + c) == (a + b) + c
  {
  }

  /** Writing in two runs: the second run starts with the flag the first one left. */
  lemma {:induction false} PatchedSplit(lines: seq<string>, target: string, patch: string, reverse: bool, found: bool, k: nat)
    requires k <= |lines|
    ensures PatchedFrom(lines, target, patch, reverse, found) ==
            PatchedFrom(lines[..k], target, patch, reverse, found) +
            PatchedFrom(lines[k..], target, patch, reverse, if k == 0 then found else Contains(lines[k - 1], target))
  {
    if k > 0 {
      var tail := lines[1..];
      var c := Contains(lines[0], target);
      var p := Piece(lines[0], patch, reverse, found);
      var flag := if k == 1 then c else Contains(tail[k - 2], target);
      PatchedSplit(tail, target, patch, reverse, c, k - 1);
      PatchStep(lines[..k], 0, target, patch, reverse, found);
      PatchStep(lines, 0, target, patch, reverse, found);
      assert lines[..k][0] == lines[0] && lines[..k][1..] == tail[..k - 1] && lines[0..] == lines && lines[..k][0..] == lines[..k];
      assert lines[k..] == tail[k - 1..];
      assert k > 1 ==> tail[k - 2] == lines[k - 1];
      Regroup(p, PatchedFrom(tail[..k - 1], target, patch, reverse, c), PatchedFrom(tail[k - 1..], target, patch, reverse, flag));
    } else {
      assert lines[..0] == [] && lines[0..] == lines;
    }
  }

  /** Without a line that contains the target the file is written back unchanged. */
  lemma {:induction false} NoTargetUnchanged(lines: seq<string>, target: string, patch: string, reverse: bool)
    requires forall i :: 0 <= i < |lines| ==> !Contains(lines[i], target)
    ensures Patched(lines, target, patch, reverse) == lines
  {
    if lines != [] {
      assert forall i :: 0 <= i < |lines[1..]| ==> lines[1..][i] == lines[i + 1];
      NoTargetUnchanged(lines[1..], target, patch, reverse);
      assert [lines[0]] + lines[1..] == lines;
    }
  }

  /**
    A line that contains the target and is not the last gets the patch next
    to the line after it: right after it, or after the following line when
    `reverse` is set; the lines before it are written as if the file ended
    there, and the rest continues from the following line.
   */
  lemma PatchPlacement(lines: seq<string>, target: string, patch: string, reverse: bool, i: nat)
    requires i + 1 < |lines| && Contains(lines[i], target)
    ensures Patched(lines, target, patch, reverse) ==
            Patched(lines[..i + 1], target, patch, reverse) +
            (if reverse then [lines[i + 1], patch] else [patch, lines[i + 1]]) +
            PatchedFrom(lines[i + 2..], target, patch, reverse, Contains(lines[i + 1], target))
    ensures !reverse ==> var w := Patched(lines[..i + 1], target, patch, reverse);
                         w != [] && w[|w| - 1] == lines[i]
  {
    PatchedSplit(lines, target, patch, reverse, false, i + 1);
    if !reverse {
      EndsWithLastLine(lines[..i + 1], target, patch, false);
    }
    assert lines[i + 1..][1..] == lines[i + 2..];
  }

  /** When the patch is not written in reverse, the text before it ends with the target line itself. */
  lemma {:induction false} EndsWithLastLine(lines: seq<string>, target: string, patch: string, found: bool)
    requires lines != []
    ensures var r := PatchedFrom(lines, target, patch, false, found); r != [] && r[|r| - 1] == lines[|lines| - 1]
  {
    if |lines| > 1 {
      EndsWithLastLine(lines[1..], target, patch, Contains(lines[0], target));
    } else {
      assert lines[1..] == [];
    }
  }

  /** The texts of `w` that are not the patch, in order. */
  function WithoutPatch(w: seq<string>, patch: string): (r: seq<string>)
    ensures patch !in r
  {
    if w == [] then []
    else (if w[0] == patch then [] else [w[0]]) + WithoutPatch(w[1..], patch)
  }

  lemma {:induction false} WithoutPatchAppend(a: seq<string>, b: seq<string>, patch: string)
    ensures WithoutPatch(a + b, patch) == WithoutPatch(a, patch) + WithoutPatch(b, patch)
  {
    if a != [] {
      assert (a + b)[1..] == a[1..] + b;
      WithoutPatchAppend(a[1..], b, patch);
    } else {
      assert a + b == b;
    }
  }

  /**
    Only the patch is added: when no line of the file is the patch text
    itself, taking the patch texts out of what was written gives the
    original lines back, in order.
   */
  lemma {:induction false} RemovingPatchesRestores(lines: seq<string>, target: string, patch: string, reverse: bool, found: bool)
    requires patch !in lines
    ensures WithoutPatch(PatchedFrom(lines, target, patch, reverse, found), patch) == lines
  {
    if lines != [] {
      var piece := Piece(lines[0], patch, reverse, found);
      var rest := PatchedFrom(lines[1..], target, patch, reverse, Contains(lines[0], target));
      assert lines[0] in lines;
      WithoutPatchAppend(piece, rest, patch);
      assert patch !in lines[1..] by {
        assert forall x :: x in lines[1..] ==> x in lines;
      }
      RemovingPatchesRestores(lines[1..], target, patch, reverse, Contains(lines[0], target));
      if found {
        if reverse {
          assert [lines[0], patch][1..] == [patch];
        } else {
          assert [patch, lines[0]][1..] == [lines[0]];
        }
      }
      assert [lines[0]] + lines[1..] == lines;
    }
  }

  /** The number of lines that contain the target and are not the last one. */
  function Targets(lines: seq<string>, target: string): nat
  {
    if |lines| <= 1 then 0
    else (if Contains(lines[0], target) then 1 else 0) + Targets(lines[1..], target)
  }

  /** Exactly one patch is written for every line that contains the target and is not the last. */
  lemma {:induction false} PatchCount(lines: seq<string>, target: string, patch: string, reverse: bool, found: bool)
    ensures |PatchedFrom(lines, target, patch, reverse, found)| ==
            |lines| + (if found && lines != [] then 1 else 0) + Targets(lines, target)
  {
    if lines != [] {
      PatchCount(lines[1..], target, patch, reverse, Contains(lines[0], target));
    }
  }

  /** The Gradle setting renutil writes: an eight-gigabyte heap for the JVM. */
  const JvmArgsKey: string := "org.gradle.jvmargs"
  const JvmArgsLine: string := "org.gradle.jvmargs=-Xmx8g\n"

  /** One line of `gradle.properties` after the rewrite. */
  function RewriteLine(line: string): string
  {
    if StartsWith(line, JvmArgsKey) then JvmArgsLine else line
  }

  /** The lines of `gradle.properties` after the rewrite. */
  function Rewritten(lines: seq<string>): seq<string>
  {
    seq(|lines|, i requires 0 <= i < |lines| => RewriteLine(lines[i]))
  }

  /** The rewrite loop: every line that starts with the key is replaced by the setting, the others are copied. */
  method RewriteGradle(lines: seq<string>) returns (out: seq<string>)
    ensures out == Rewritten(lines)
  {
    out := [];
    var i := 0;
    while i < |lines|
      invariant i <= |lines| && out == Rewritten(lines[..i])
    {
      if StartsWith(lines[i], JvmArgsKey) {
        out := out + [JvmArgsLine];
      } else {
        out := out + [lines[i]];
      }
      i := i + 1;
    }
    assert lines[..|lines|] == lines;
  }

  /**
    After the rewrite every line that sets the JVM arguments sets the
    eight-gigabyte heap, every other line is as it was, and the line count
    is kept.
   */
  lemma RewriteSetsHeap(lines: seq<string>, i: nat)
    requires i < |lines|
    ensures StartsWith(Rewritten(lines)[i], JvmArgsKey) <==> StartsWith(lines[i], JvmArgsKey)
    ensures StartsWith(lines[i], JvmArgsKey) ==> Rewritten(lines)[i] == JvmArgsLine
    ensures !StartsWith(lines[i], JvmArgsKey) ==> Rewritten(lines)[i] == lines[i]
  {
    assert JvmArgsLine[..|JvmArgsKey|] == JvmArgsKey;
  }

  /** Rewriting a second time changes nothing. */
  lemma RewriteIdempotent(lines: seq<string>)
    ensures Rewritten(Rewritten(lines)) == Rewritten(lines)
  {
    assert JvmArgsLine[..|JvmArgsKey|] == JvmArgsKey;
  }
}
