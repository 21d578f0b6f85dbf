/**
  `AliasedGroup.get_command`: a command may be named by any prefix that
  only one command has. The exact name wins; otherwise the commands whose
  names start with the text are collected, in the order `list_commands`
  gives them (sorted by name); none gives no command, one gives that
  command, and more stop the program with a message that names them all,
  sorted.
 */
module Aliases {
  import opened Text

  /** What the lookup answers. */
  datatype Lookup =
    | Found(name: string)         // the command to run
    | Missing                     // `None`: click reports that there is no such command
    | Ambiguous(message: string)  // `ctx.fail(...)`: a usage error naming the matches

  /** The commands renutil defines, as `list_commands` answers them. */
  const Commands: seq<string> := ["cleanup", "install", "launch", "list", "uninstall"]

  /** The commands whose names start with `text`, in order. */
  function Matches(names: seq<string>, text: string): (r: seq<string>)
    ensures |r| <= |names|
  {
    if names == [] then []
    else (if StartsWith(names[0], text) then [names[0]] else []) + Matches(names[1..], text)
  }

  /** The matches are the commands whose names start with the text. */
  lemma {:induction false} MatchesMember(names: seq<string>, text: string)
    ensures forall x :: x in Matches(names, text) <==> x in names && StartsWith(x, text)
  {
    if names != [] {
      MatchesMember(names[1..], text);
      assert forall x :: x in names <==> x == names[0] || x in names[1..];
    }
  }

  /** `", ".join(items)` */
  function CommaList(items: seq<string>): string
  {
    if items == [] then ""
    else if |items| == 1 then items[0]
    else items[0] + ", " + CommaList(items[1..])
  }

  /** `get_command(ctx, text)` over the commands `names`, which `list_commands` answers sorted. */
  function GetCommand(names: seq<string>, text: string): (r: Lookup)
  {
    if text in names then Found(text)
    else
      var m := Matches(names, text);
      if m == [] then Missing
      else if |m| == 1 then Found(m[0])
      else Ambiguous("Too many matches: " + CommaList(SortNames(m)))
  }

  // ----- `sorted` on names -----

  /** Each name comes no later than the next in Python's string order. */
  predicate Ordered(s: seq<string>)
  {
    forall i, j :: 0 <= i < j < |s| ==> CompareText(s[i], s[j]) <= 0
  }

  /** Put `x` in front of the first name it does not come after. */
  function InsertName(x: string, s: seq<string>): (r: seq<string>)
    ensures multiset(r) == multiset(s) + multiset{x}
  {
    if s == [] || CompareText(x, s[0]) <= 0 then [x] + s
    else
      assert s == [s[0]] + s[1..];
      [s[0]] + InsertName(x, s[1..])
  }

  /** `sorted(names)`: an insertion sort in Python's string order. */
  function SortNames(s: seq<string>): (r: seq<string>)
    ensures multiset(r) == multiset(s)
  {
    if s == [] then []
    else
      assert s == [s[0]] + s[1..];
      InsertName(s[0], SortNames(s[1..]))
  }

  /** No name in `s` comes before `low`. */
  predicate Above(s: seq<string>, low: string)
  {
    forall k :: 0 <= k < |s| ==> CompareText(low, s[k]) <= 0
  }

  lemma {:induction false} InsertAbove(x: string, s: seq<string>, low: string)
    requires Above(s, low) && CompareText(low, x) <= 0
    ensures Above(InsertName(x, s), low)
  {
    if s != [] && CompareText(x, s[0]) > 0 {
      InsertAbove(x, s[1..], low);
      var r := InsertName(x, s);
      assert r == [s[0]] + InsertName(x, s[1..]);
      assert forall k :: 1 <= k < |r| ==> r[k] == InsertName(x, s[1..])[k - 1];
    }
  }

  lemma OrderedTail(s: seq<string>)
    requires Ordered(s) && s != []
    ensures Ordered(s[1..]) && Above(s[1..], s[0])
  {
    forall i, j | 0 <= i < j < |s[1..]| ensures CompareText(s[1..][i], s[1..][j]) <= 0 {
      assert s[1..][i] == s[i + 1] && s[1..][j] == s[j + 1];
    }
    forall k | 0 <= k < |s[1..]| ensures CompareText(s[0], s[1..][k]) <= 0 {
      assert s[1..][k] == s[k + 1];
    }
  }

  lemma {:induction false} InsertOrdered(x: string, s: seq<string>)
    requires Ordered(s)
    ensures Ordered(InsertName(x, s))
  {
    if s != [] {
      if CompareText(x, s[0]) <= 0 {
        var r := [x] + s;
        forall i, j | 0 <= i < j < |r| ensures CompareText(r[i], r[j]) <= 0 {
          if i == 0 && j > 1 {
            TextTrans(x, s[0], s[j - 1]);
          }
        }
      } else {
        var tail := InsertName(x, s[1..]);
        OrderedTail(s);
        InsertOrdered(x, s[1..]);
        TextFlip(x, s[0]);
        InsertAbove(x, s[1..], s[0]);
        var r := [s[0]] + tail;
        forall i, j | 0 <= i < j < |r| ensures CompareText(r[i], r[j]) <= 0 {
          assert r[j] == tail[j - 1];
          if i > 0 {
            assert r[i] == tail[i - 1];
          }
        }
      }
    }
  }

  /** `sorted` puts the names in order and keeps exactly them. */
  lemma {:induction false} SortNamesCorrect(s: seq<string>)
    ensures Ordered(SortNames(s)) && multiset(SortNames(s)) == multiset(s)
  {
    if s != [] {
      SortNamesCorrect(s[1..]);
      InsertOrdered(s[0], SortNames(s[1..]));
    }
  }

  /** Sorting names that are already in order leaves them as they are. */
  lemma {:induction false} SortOrdered(s: seq<string>)
    requires Ordered(s)
    ensures SortNames(s) == s
  {
    if s != [] {
      OrderedTail(s);
      SortOrdered(s[1..]);
      assert [s[0]] + s[1..] == s;
    }
  }

  /** The matches among names in order are in order. */
  lemma {:induction false} MatchesOrdered(names: seq<string>, text: string)
    requires Ordered(names)
    ensures Ordered(Matches(names, text))
  {
    if names != [] {
      var tail := names[1..];
      OrderedTail(names);
      MatchesOrdered(tail, text);
      MatchesMember(tail, text);
      var rest := Matches(tail, text);
      if StartsWith(names[0], text) {
        var r := [names[0]] + rest;
        forall i, j | 0 <= i < j < |r| ensures CompareText(r[i], r[j]) <= 0 {
          assert r[j] == rest[j - 1] && r[j] in tail;
          if i > 0 {
            assert r[i] == rest[i - 1];
          } else {
            var k :| 0 <= k < |tail| && tail[k] == r[j];
          }
        }
      }
    }
  }

  /**
    The usage error names the commands that start with the text, each as
    often as it is listed, in Python's string order. When the commands come
    in that order, as `list_commands` gives them, `sorted` changes nothing
    and the message lists the matches in the commands' own order.
   */
  lemma AmbiguousMessage(names: seq<string>, text: string)
    ensures GetCommand(names, text).Ambiguous? ==>
              var m := SortNames(Matches(names, text));
              GetCommand(names, text).message == "Too many matches: " + CommaList(m) &&
              |m| >= 2 && Ordered(m) && multiset(m) == multiset(Matches(names, text)) &&
              forall x :: x in m <==> x in names && StartsWith(x, text)
    ensures Ordered(names) ==> SortNames(Matches(names, text)) == Matches(names, text)
  {
    var m := Matches(names, text);
    MatchesMember(names, text);
    SortNamesCorrect(m);
    assert |SortNames(m)| == |multiset(SortNames(m))| == |multiset(m)| == |m|;
    assert forall x :: x in SortNames(m) <==> x in multiset(SortNames(m));
    if Ordered(names) {
      MatchesOrdered(names, text);
      SortOrdered(m);
    }
  }

  /** Some command other than `x` starts with the text too. */
  predicate Rival(names: seq<string>, text: string, x: string)
  {
    exists y :: y in names && y != x && StartsWith(y, text)
  }

  /** No command name is given twice (they are the keys of a dictionary). */
  predicate Distinct(names: seq<string>)
  {
    forall i, j :: 0 <= i < j < |names| ==> names[i] != names[j]
  }

  /** When only `x` starts with the text, the matches are `x` alone. */
  lemma {:induction false} OnlyMatch(names: seq<string>, text: string, x: string)
    requires Distinct(names) && x in names && StartsWith(x, text) && !Rival(names, text, x)
    ensures Matches(names, text) == [x]
  {
    var tail := names[1..];
    MatchesMember(tail, text);
    assert forall y :: y in tail ==> y in names;
    if names[0] == x {
      assert forall y :: y in tail ==> y != x by {
        forall y | y in tail ensures y != x {
          var k :| 0 <= k < |tail| && tail[k] == y;
          assert names[k + 1] == y;
        }
      }
      MatchesNone(tail, text);
    } else {
      assert Distinct(tail) by {
        forall i, j | 0 <= i < j < |tail| ensures tail[i] != tail[j] {
          assert tail[i] == names[i + 1] && tail[j] == names[j + 1];
        }
      }
      assert x in tail;
      OnlyMatch(tail, text, x);
    }
  }

  /**
    A command is found exactly when the text is its name, or a prefix of
    its name and of no other command's.
   */
  lemma FoundIff(names: seq<string>, text: string, x: string)
    requires Distinct(names)
    ensures GetCommand(names, text) == Found(x) <==>
            x in names && (x == text || (text !in names && StartsWith(x, text) && !Rival(names, text, x)))
  {
    var m := Matches(names, text);
    MatchesMember(names, text);
    if text !in names && x in names && StartsWith(x, text) && !Rival(names, text, x) {
      OnlyMatch(names, text, x);
    }
    if GetCommand(names, text) == Found(x) && x != text {
      assert |m| == 1 && m[0] in m;
    }
  }

  /** The lookup stops with a usage error exactly when two commands start with the text and neither is it. */
  lemma AmbiguousIff(names: seq<string>, text: string)
    requires Distinct(names)
    ensures GetCommand(names, text).Ambiguous? <==>
            text !in names && exists x :: x in names && StartsWith(x, text) && Rival(names, text, x)
  {
    var m := Matches(names, text);
    MatchesMember(names, text);
    if GetCommand(names, text).Ambiguous? {
      MatchesDistinct(names, text);
      assert m[0] in m && m[1] in m && m[0] != m[1];
      assert Rival(names, text, m[0]);
    }
    if text !in names && exists x :: x in names && StartsWith(x, text) && Rival(names, text, x) {
      var x :| x in names && StartsWith(x, text) && Rival(names, text, x);
      var y :| y in names && y != x && StartsWith(y, text);
      TwoMembers(m, x, y);
    }
  }

  /** A list holding two different values has at least two elements. */
  lemma TwoMembers(m: seq<string>, x: string, y: string)
    requires x in m && y in m && x != y
    ensures |m| >= 2
  {
    var i :| 0 <= i < |m| && m[i] == x;
    var j :| 0 <= j < |m| && m[j] == y;
    assert i != j;
  }

  /** No command starts with the text: no match. */
  lemma {:induction false} MatchesNone(names: seq<string>, text: string)
    requires forall y :: y in names ==> !StartsWith(y, text)
    ensures Matches(names, text) == []
  {
    if names != [] {
      assert names[0] in names;
      assert forall y :: y in names[1..] ==> y in names;
      MatchesNone(names[1..], text);
    }
  }

  /** The matches of distinct names are distinct. */
  lemma {:induction false} MatchesDistinct(names: seq<string>, text: string)
    requires Distinct(names)
    ensures Distinct(Matches(names, text))
  {
    if names != [] {
      var tail := names[1..];
      assert Distinct(tail) by {
        forall i, j | 0 <= i < j < |tail| ensures tail[i] != tail[j] {
          assert tail[i] == names[i + 1] && tail[j] == names[j + 1];
        }
      }
      MatchesDistinct(tail, text);
      MatchesMember(tail, text);
      var rest := Matches(tail, text);
      if StartsWith(names[0], text) {
        assert names[0] !in tail by {
          forall k | 0 <= k < |tail| ensures tail[k] != names[0] {
            assert tail[k] == names[k + 1];
          }
        }
        var r := [names[0]] + rest;
        forall i, j | 0 <= i < j < |r| ensures r[i] != r[j] {
          assert r[j] == rest[j - 1] && r[j] in tail;
          if i > 0 {
            assert r[i] == rest[i - 1];
          }
        }
      }
    }
  }

  /** Nothing is found exactly when no command starts with the text. */
  lemma MissingIff(names: seq<string>, text: string)
    ensures GetCommand(names, text) == Missing <==> forall x :: x in names ==> !StartsWith(x, text)
  {
    MatchesMember(names, text);
    if forall x :: x in names ==> !StartsWith(x, text) {
      MatchesNone(names, text);
    }
    if text in names {
      assert StartsWith(text, text);
    }
  }

  lemma MatchesCons(x: string, rest: seq<string>, text: string)
    ensures Matches([x] + rest, text) == Keep(x, text) + Matches(rest, text)
  {
    assert ([x] + rest)[0] == x && ([x] + rest)[1..] == rest;
  }

  /** The matches among five commands, command by command. */
  lemma MatchesOfFive(a: string, b: string, c: string, d: string, e: string, text: string)
    ensures Matches([a, b, c, d, e], text) ==
            Keep(a, text) + (Keep(b, text) + (Keep(c, text) + (Keep(d, text) + Keep(e, text))))
  {
    var m1 := Matches([e], text);
    MatchesCons(e, [], text);
    assert [e] + [] == [e];
    assert m1 == Keep(e, text) + [];
    var m2 := Matches([d, e], text);
    MatchesCons(d, [e], text);
    assert [d] + [e] == [d, e];
    var m3 := Matches([c, d, e], text);
    MatchesCons(c, [d, e], text);
    assert [c] + [d, e] == [c, d, e];
    var m4 := Matches([b, c, d, e], text);
    MatchesCons(b, [c, d, e], text);
    assert [b] + [c, d, e] == [b, c, d, e];
    MatchesCons(a, [b, c, d, e], text);
    assert [a] + [b, c, d, e] == [a, b, c, d, e];
  }

  /** The command kept in the matches when its name starts with the text. */
  function Keep(x: string, text: string): seq<string>
  {
    if StartsWith(x, text) then [x] else []
  }

  /** renutil's commands, one by one. */
  lemma CommandsAre(names: seq<string>)
    requires names == Commands
    ensures names == [names[0], names[1], names[2], names[3], names[4]]
    ensures names[0] == "cleanup" && names[1] == "install" && names[2] == "launch"
    ensures names[3] == "list" && names[4] == "uninstall"
  {
  }

  /** renutil's commands come in Python's string order, as `list_commands` answers them. */
  lemma CommandsOrdered(names: seq<string>)
    requires names == Commands
    ensures Ordered(names)
  {
    CommandsAre(names);
    assert names[0][0] == 'c' && names[1][0] == 'i' && names[2][0] == 'l';
    assert names[3][0] == 'l' && names[4][0] == 'u';
    LaunchBeforeList(names[2], names[3]);
  }

  /** `launch` comes before `list`: they differ first in their second letter. */
  lemma LaunchBeforeList(a: string, b: string)
    requires a == "launch" && b == "list"
    ensures CompareText(a, b) < 0
  {
    assert a[0] == b[0] && a[1..][0] < b[1..][0];
  }

  /** The commands that start with `l`. */
  lemma LMatches(names: seq<string>, text: string)
    requires names == Commands && text == "l"
    ensures Matches(names, text) == [names[2], names[3]]
    ensures names[2] == "launch" && names[3] == "list" && text !in names
  {
    CommandsAre(names);
    MatchesOfFive(names[0], names[1], names[2], names[3], names[4], text);
    assert names[0][..1] == "c" && names[1][..1] == "i" && names[2][..1] == "l";
    assert names[3][..1] == "l" && names[4][..1] == "u";
    assert Keep(names[0], text) == [] && Keep(names[1], text) == [] && Keep(names[4], text) == [];
    assert Keep(names[2], text) == [names[2]] && Keep(names[3], text) == [names[3]];
  }

  /** Two matches in order, for a text that is no command, make the message. */
  lemma AmbiguousTwo(names: seq<string>, text: string, a: string, b: string)
    requires text !in names && Matches(names, text) == [a, b] && CompareText(a, b) <= 0
    ensures GetCommand(names, text) == Ambiguous("Too many matches: " + (a + ", " + b))
  {
    var m := [a, b];
    assert Ordered(m);
    SortOrdered(m);
    assert m[1..] == [b];
    assert CommaList(m) == a + ", " + b;
  }

  /** `l` is a prefix of two commands, so renutil stops and names both. */
  lemma LIsAmbiguous(names: seq<string>, text: string)
    requires names == Commands && text == "l"
    ensures GetCommand(names, text) == Ambiguous("Too many matches: launch, list")
  {
    LMatches(names, text);
    var a, b := names[2], names[3];
    LaunchBeforeList(a, b);
    AmbiguousTwo(names, text, a, b);
    MessageOfTwo(a, b);
  }

  lemma MessageOfTwo(a: string, b: string)
    requires a == "launch" && b == "list"
    ensures "Too many matches: " + (a + ", " + b) == "Too many matches: launch, list"
  {
  }

  /** `c` abbreviates `cleanup`, the one command that starts with it, as the cli docstring says. */
  lemma CIsCleanup(names: seq<string>, c: string)
    requires names == Commands && c == "c"
    ensures GetCommand(names, c) == Found("cleanup")
  {
    CommandsAre(names);
    MatchesOfFive(names[0], names[1], names[2], names[3], names[4], c);
    assert names[0][..1] == "c" && names[1][..1] == "i" && names[2][..1] == "l";
    assert names[3][..1] == "l" && names[4][..1] == "u";
    assert Keep(names[0], c) == [names[0]] && Keep(names[1], c) == [] && Keep(names[2], c) == [];
    assert Keep(names[3], c) == [] && Keep(names[4], c) == [];
  }

  /** One more letter tells `launch` and `list` apart. */
  lemma TwoLetters(names: seq<string>, la: string, li: string)
    requires names == Commands && la == "la" && li == "li"
    ensures GetCommand(names, la) == Found("launch") && GetCommand(names, li) == Found("list")
  {
    SecondLetterMatches(names, la, li);
  }

  /** The commands that start with `la`, and those that start with `li`. */
  lemma SecondLetterMatches(names: seq<string>, la: string, li: string)
    requires names == Commands && la == "la" && li == "li"
    ensures Matches(names, la) == ["launch"] && la !in names
    ensures Matches(names, li) == ["list"] && li !in names
  {
    CommandsAre(names);
    MatchesOfFive(names[0], names[1], names[2], names[3], names[4], la);
    MatchesOfFive(names[0], names[1], names[2], names[3], names[4], li);
  }

  /** A full name is taken as it is, and a text no command starts with finds nothing. */
  lemma ExactAndUnknown(names: seq<string>, list: string, x: string)
    requires names == Commands && list == "list" && x == "x"
    ensures GetCommand(names, list) == Found("list") && GetCommand(names, x) == Missing
  {
    CommandsAre(names);
    MatchesOfFive(names[0], names[1], names[2], names[3], names[4], x);
    assert names[0][..1] == "c" && names[1][..1] == "i" && names[2][..1] == "l";
    assert names[3][..1] == "l" && names[4][..1] == "u";
    assert Keep(names[0], x) == [] && Keep(names[1], x) == [] && Keep(names[2], x) == [];
    assert Keep(names[3], x) == [] && Keep(names[4], x) == [];
  }
}
