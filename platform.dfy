/**
  `get_platform`: the name of the SDK's library directory for the machine
  renutil runs on, from `platform.system()` and `platform.machine()`, which
  are inputs here. The tests are tried in order and the first that holds
  decides: a Darwin system, a Windows system, a 64-bit x86 machine, a
  machine named like `i386`..`i686`, and finally any other Linux system,
  named after its machine. Anything else has no platform (`None`).
 */
module Platform {
  import opened Wrappers
  import opened Text

  /** `.*86` matches at the start of `s`: up to the first newline, `86` occurs. */
  function DotsThen86(s: string): bool
  {
    StartsWith(s, "86") || (s != [] && s[0] != '\n' && DotsThen86(s[1..]))
  }

  /** Where some `86` comes before any newline. */
  predicate Has86At(s: string, j: nat)
  {
    j + 2 <= |s| && s[j..j + 2] == "86" && '\n' !in s[..j]
  }

  /** The pattern `.*86` stated directly: `86` at some position with no newline before it. */
  lemma {:induction false} DotsThen86Iff(s: string)
    ensures DotsThen86(s) <==> exists j: nat :: Has86At(s, j)
  {
    if StartsWith(s, "86") {
      assert Has86At(s, 0);
    } else if s != [] {
      DotsThen86Iff(s[1..]);
      if s[0] != '\n' && DotsThen86(s[1..]) {
        var j: nat :| Has86At(s[1..], j);
        assert s[1..][j..j + 2] == s[j + 1..j + 3];
        assert s[..j + 1] == [s[0]] + s[1..][..j];
        assert Has86At(s, j + 1);
      }
      if exists j: nat :: Has86At(s, j) {
        var j: nat :| Has86At(s, j);
        if j > 0 {
          assert s[0] in s[..j];
          assert s[1..][j - 1..j + 1] == s[j..j + 2];
          assert s[1..][..j - 1] == s[1..j];
          assert forall c :: c in s[1..j] ==> c in s[..j];
          assert Has86At(s[1..], j - 1);
        }
      }
    }
  }

  /** `re.match(r"i.*86", machine)`: an `i` first, then `.*86`. */
  predicate MatchesI86(machine: string)
  {
    machine != [] && machine[0] == 'i' && DotsThen86(machine[1..])
  }

  /** `get_platform()` for the given system and machine names. */
  function GetPlatform(system: string, machine: string): Option<string>
  {
    if Contains(system, "Darwin") then Some("darwin-x86_64")
    else if Contains(system, "Windows") then Some("windows-i686")
    else if Contains(machine, "x86_64") || Contains(machine, "amd64") then Some("linux-x86_64")
    else if MatchesI86(machine) then Some("linux-i686")
    else if Contains(system, "Linux") then Some("linux-" + machine)
    else None
  }

  /**
    The five answers and when each is given: the system decides first, then
    the machine, and a Linux system that matches no machine test is named
    after its machine.
   */
  lemma PlatformCases(system: string, machine: string)
    ensures Occurs("Darwin", system) ==> GetPlatform(system, machine) == Some("darwin-x86_64")
    ensures !Occurs("Darwin", system) && Occurs("Windows", system) ==>
              GetPlatform(system, machine) == Some("windows-i686")
    ensures !Occurs("Darwin", system) && !Occurs("Windows", system) &&
            (Occurs("x86_64", machine) || Occurs("amd64", machine)) ==>
              GetPlatform(system, machine) == Some("linux-x86_64")
    ensures GetPlatform(system, machine) == Some("linux-i686") <==>
              !Occurs("Darwin", system) && !Occurs("Windows", system) &&
              !Occurs("x86_64", machine) && !Occurs("amd64", machine) &&
              machine != [] && machine[0] == 'i' && exists j: nat :: Has86At(machine[1..], j)
    ensures !Occurs("Darwin", system) && !Occurs("Windows", system) &&
            !Occurs("x86_64", machine) && !Occurs("amd64", machine) && !MatchesI86(machine) &&
            Occurs("Linux", system) ==>
              GetPlatform(system, machine) == Some("linux-" + machine)
    ensures GetPlatform(system, machine).None? <==>
              !Occurs("Darwin", system) && !Occurs("Windows", system) && !Occurs("Linux", system) &&
              !Occurs("x86_64", machine) && !Occurs("amd64", machine) && !MatchesI86(machine)
  {
    if machine != [] {
      DotsThen86Iff(machine[1..]);
    }
    if ("linux-" + machine) == "linux-i686" {
      assert ("linux-" + machine)[6..] == machine;
      assert machine[1..][1..][..2] == "86";
      assert DotsThen86(machine[1..]);
    }
  }

  /** A 32-bit Linux machine. */
  lemma LinuxI686(system: string, machine: string)
    requires system == "Linux" && machine == "i686"
    ensures GetPlatform(system, machine) == Some("linux-i686")
  {
    assert machine[1..][1..][..2] == "86";
    assert DotsThen86(machine[1..]);
  }

  /** A Linux machine of another kind is named after itself. */
  lemma LinuxOther(system: string, machine: string)
    requires system == "Linux" && machine == "armv7l"
    ensures GetPlatform(system, machine) == Some("linux-armv7l")
  {
    assert StartsWith(system, "Linux");
    assert machine[0] == 'a' && machine[1] == 'r' && machine[1..][0] == 'r';
    NotAt("x86_64", machine);
    assert !Occurs("amd64", machine[1..]) by {
      NotAt("amd64", machine[1..]);
    }
    OccursStep("amd64", machine);
    NotAt("Darwin", system);
    NotAt("Windows", system);
    assert !MatchesI86(machine);
    assert "linux-" + machine == "linux-armv7l";
  }

  /** A text that is not at the start of `s` and does not fit after it. */
  lemma NotAt(t: string, s: string)
    requires |s| < |t| + 1 && !StartsWith(s, t)
    ensures !Occurs(t, s)
  {
    forall i | 0 <= i <= |s| ensures !StartsWith(s[i..], t) {
      if i == 0 {
        assert s[0..] == s;
      }
    }
  }

  /** Any system with a 64-bit x86 machine gets the Linux 64-bit libraries, even one that is not Linux. */
  lemma AnyAmd64(system: string, machine: string)
    requires system == "FreeBSD" && machine == "amd64"
    ensures GetPlatform(system, machine) == Some("linux-x86_64")
  {
    assert StartsWith(machine, "amd64");
    assert system[0] == 'F' && system[1..][0] == 'r';
    NotAt("Windows", system);
    assert !Occurs("Darwin", system[1..]) by {
      NotAt("Darwin", system[1..]);
    }
    OccursStep("Darwin", system);
  }
}
