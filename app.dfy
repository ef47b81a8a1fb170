/**
 * The driver of src/app_wave_to_mp3_multithread.cpp: the command-line scan,
 * the `.wav` filter with the `.mp3` output name, and the batch counter that
 * picks the argument slot of each submitted job. `atoi` is a parameter;
 * the directory listing, the temporary file and the calls into the pool are
 * replaced by a list of names in and a list of submitted jobs out.
 */
module App {
  import opened Common

  type String = seq<char>

  /** Maximum number of wave files in flight in one batch. */
  const QueueLength: nat := 50

  // ---------------------------------------------------------------------
  // Command line
  // ---------------------------------------------------------------------

  datatype Options = Options(waveFile: String, waveDir: String, quality: int, threads: int, useDir: bool)

  /** The settings before any flag is read (the file and directory buffers start out empty here). */
  const Defaults := Options("", "", 0, 4, false)

  /** The four flags that take the following token as their value. */
  const ValueFlags: set<String> := {"-f", "-d", "-q", "-t"}

  /**
   * How the scan ends: with the settings, with the usage text (too few
   * arguments, `-h` or an unknown token), or with a value flag in the last
   * position, whose value would be the null pointer past the end of argv.
   */
  datatype ParseResult = Run(opts: Options) | Usage | NullArgument(flag: String)

  /** The effect of one value flag and its value on the settings. */
  function Apply(o: Options, flag: String, value: String, atoi: String -> int): Options
  {
    if flag == "-f" then o.(waveFile := value)
    else if flag == "-d" then o.(useDir := true, waveDir := value)
    else if flag == "-q" then o.(quality := atoi(value))
    else if flag == "-t" then o.(threads := atoi(value))
    else o
  }

  /** The scan from token `i` on, with settings `o` so far. */
  function Scan(argv: seq<String>, i: nat, o: Options, atoi: String -> int): ParseResult
    decreases |argv| - i
  {
    if i >= |argv| then Run(o)
    else if argv[i] in ValueFlags then
      if i + 1 < |argv| then Scan(argv, i + 2, Apply(o, argv[i], argv[i + 1], atoi), atoi)
      else NullArgument(argv[i])
    else Usage
  }

  /** The whole command line; `argv[0]` is the program name. */
  function Parse(argv: seq<String>, atoi: String -> int): ParseResult
  {
    if |argv| < 3 then Usage else Scan(argv, 1, Defaults, atoi)
  }

  /** The argv loop of `main`, whose index also steps over each flag's value. */
  method ParseCommandLine(argv: seq<String>, atoi: String -> int) returns (r: ParseResult)
    ensures r == Parse(argv, atoi)
    ensures |argv| < 3 ==> r == Usage
  {
    if |argv| < 3 {
      return Usage;
    }
    var o := Defaults;
    var i := 1;
    while i < |argv|
      invariant 1 <= i <= |argv|
      invariant Scan(argv, i, o, atoi) == Parse(argv, atoi)
    {
      var a := argv[i];
      if a == "-f" {
        if i + 1 == |argv| {
          return NullArgument(a);
        }
        i := i + 1;
        o := o.(waveFile := argv[i]);
      } else if a == "-d" {
        if i + 1 == |argv| {
          return NullArgument(a);
        }
        i := i + 1;
        o := o.(useDir := true, waveDir := argv[i]);
      } else if a == "-q" {
        if i + 1 == |argv| {
          return NullArgument(a);
        }
        i := i + 1;
        o := o.(quality := atoi(argv[i]));
      } else if a == "-t" {
        if i + 1 == |argv| {
          return NullArgument(a);
        }
        i := i + 1;
        o := o.(threads := atoi(argv[i]));
      } else if a == "-h" {
        return Usage;
      } else {
        return Usage;
      }
      i := i + 1;
    }
    return Run(o);
  }

  /** Every token at an even distance from `i` is a value flag. */
  ghost predicate FlagsFrom(argv: seq<String>, i: nat)
  {
    forall k :: i <= k < |argv| && (k - i) % 2 == 0 ==> argv[k] in ValueFlags
  }

  /**
   * From token `i`, the scan runs to completion exactly when the remaining
   * tokens pair up as flag and value, and it meets a null value exactly
   * when they pair up but the last flag has none; otherwise it shows usage.
   */
  lemma {:induction false} ScanOutcome(argv: seq<String>, i: nat, o: Options, atoi: String -> int)
    requires i <= |argv|
    ensures Scan(argv, i, o, atoi).Run? <==> (|argv| - i) % 2 == 0 && FlagsFrom(argv, i)
    ensures Scan(argv, i, o, atoi).NullArgument? <==> (|argv| - i) % 2 == 1 && FlagsFrom(argv, i)
    decreases |argv| - i
  {
    if i < |argv| {
      if argv[i] in ValueFlags && i + 1 < |argv| {
        ScanOutcome(argv, i + 2, Apply(o, argv[i], argv[i + 1], atoi), atoi);
        assert FlagsFrom(argv, i) <==> FlagsFrom(argv, i + 2) by {
          if FlagsFrom(argv, i + 2) {
            forall k | i <= k < |argv| && (k - i) % 2 == 0
              ensures argv[k] in ValueFlags
            {
              if k != i {
                assert (k - (i + 2)) % 2 == 0;
              }
            }
          }
          if FlagsFrom(argv, i) {
            forall k | i + 2 <= k < |argv| && (k - (i + 2)) % 2 == 0
              ensures argv[k] in ValueFlags
            {
              assert (k - i) % 2 == 0;
            }
          }
        }
      } else if argv[i] !in ValueFlags {
        assert !FlagsFrom(argv, i) by {
          assert (i - i) % 2 == 0;
        }
      }
    }
  }

  /**
   * The command line is accepted exactly when it has at least two tokens
   * after the program name, an even number of them, and every odd position
   * holds a value flag; with an odd number of such tokens the last flag's
   * value is missing; anything else (including `-h`) shows usage.
   */
  lemma ParseOutcome(argv: seq<String>, atoi: String -> int)
    ensures Parse(argv, atoi).Run? <==> |argv| >= 3 && |argv| % 2 == 1 && FlagsFrom(argv, 1)
    ensures Parse(argv, atoi).NullArgument? <==> |argv| >= 3 && |argv| % 2 == 0 && FlagsFrom(argv, 1)
    ensures Parse(argv, atoi).Usage? <==> |argv| < 3 || !FlagsFrom(argv, 1)
  {
    if |argv| >= 3 {
      ScanOutcome(argv, 1, Defaults, atoi);
    }
  }

  /** A setting as one value flag sees it. */
  datatype Setting = Text(s: String) | Number(n: int)

  function Projection(o: Options, flag: String): Setting
  {
    if flag == "-f" then Text(o.waveFile)
    else if flag == "-d" then Text(o.waveDir)
    else if flag == "-q" then Number(o.quality)
    else Number(o.threads)
  }

  /** What a flag records for its value: the text itself, or `atoi` of it. */
  function ValueOf(flag: String, value: String, atoi: String -> int): Setting
  {
    if flag == "-f" || flag == "-d" then Text(value) else Number(atoi(value))
  }

  /** Position `k` holds the last occurrence of `flag` among the flag positions from `i`. */
  ghost predicate LastOccurrence(argv: seq<String>, i: nat, k: int, flag: String)
  {
    && i <= k < |argv| && (k - i) % 2 == 0 && argv[k] == flag
    && forall l :: k < l < |argv| && (l - i) % 2 == 0 ==> argv[l] != flag
  }

  ghost predicate Absent(argv: seq<String>, i: nat, flag: String)
  {
    forall l :: i <= l < |argv| && (l - i) % 2 == 0 ==> argv[l] != flag
  }

  /** A flag sets its own setting and leaves the other three alone. */
  lemma ApplyProjection(o: Options, g: String, value: String, atoi: String -> int, flag: String)
    requires g in ValueFlags && flag in ValueFlags
    ensures Projection(Apply(o, g, value, atoi), flag) ==
      if g == flag then ValueOf(flag, value, atoi) else Projection(o, flag)
  {
  }

  /** From token `i`: when a flag is repeated, its last value wins; an absent flag keeps its setting. */
  lemma {:induction false} ScanLastValueWins(argv: seq<String>, i: nat, o: Options, atoi: String -> int, flag: String)
    requires i <= |argv| && flag in ValueFlags && Scan(argv, i, o, atoi).Run?
    ensures forall k :: LastOccurrence(argv, i, k, flag) ==>
      k + 1 < |argv| && Projection(Scan(argv, i, o, atoi).opts, flag) == ValueOf(flag, argv[k + 1], atoi)
    ensures Absent(argv, i, flag) ==> Projection(Scan(argv, i, o, atoi).opts, flag) == Projection(o, flag)
    decreases |argv| - i
  {
    if i < |argv| {
      var o' := Apply(o, argv[i], argv[i + 1], atoi);
      assert Scan(argv, i, o, atoi) == Scan(argv, i + 2, o', atoi);
      ScanLastValueWins(argv, i + 2, o', atoi, flag);
      ApplyProjection(o, argv[i], argv[i + 1], atoi, flag);
      forall k | LastOccurrence(argv, i, k, flag)
        ensures k + 1 < |argv| && Projection(Scan(argv, i, o, atoi).opts, flag) == ValueOf(flag, argv[k + 1], atoi)
      {
        if k == i {
          assert Absent(argv, i + 2, flag) by {
            forall l | i + 2 <= l < |argv| && (l - (i + 2)) % 2 == 0
              ensures argv[l] != flag
            {
              assert (l - i) % 2 == 0;
            }
          }
        } else {
          assert LastOccurrence(argv, i + 2, k, flag) by {
            forall l | k < l < |argv| && (l - (i + 2)) % 2 == 0
              ensures argv[l] != flag
            {
              assert (l - i) % 2 == 0;
            }
          }
        }
      }
      if Absent(argv, i, flag) {
        assert argv[i] != flag by {
          assert (i - i) % 2 == 0;
        }
        assert Absent(argv, i + 2, flag) by {
          forall l | i + 2 <= l < |argv| && (l - (i + 2)) % 2 == 0
            ensures argv[l] != flag
          {
            assert (l - i) % 2 == 0;
          }
        }
      }
    }
  }

  /**
   * For an accepted command line, each of `-f`, `-d`, `-q`, `-t` holds the
   * value after its last occurrence, or its default when it never occurs.
   */
  lemma ParseLastValueWins(argv: seq<String>, atoi: String -> int, flag: String)
    requires flag in ValueFlags && Parse(argv, atoi).Run?
    ensures forall k :: LastOccurrence(argv, 1, k, flag) ==>
      k + 1 < |argv| && Projection(Parse(argv, atoi).opts, flag) == ValueOf(flag, argv[k + 1], atoi)
    ensures Absent(argv, 1, flag) ==> Projection(Parse(argv, atoi).opts, flag) == Projection(Defaults, flag)
  {
    ScanLastValueWins(argv, 1, Defaults, atoi, flag);
  }

  /** From token `i`: directory mode is on afterwards exactly when it was on or `-d` occurs. */
  lemma {:induction false} ScanDirectoryMode(argv: seq<String>, i: nat, o: Options, atoi: String -> int)
    requires i <= |argv| && Scan(argv, i, o, atoi).Run?
    ensures Scan(argv, i, o, atoi).opts.useDir <==> o.useDir || !Absent(argv, i, "-d")
    decreases |argv| - i
  {
    if i < |argv| {
      var o' := Apply(o, argv[i], argv[i + 1], atoi);
      ScanDirectoryMode(argv, i + 2, o', atoi);
      assert o'.useDir <==> o.useDir || argv[i] == "-d";
      assert Absent(argv, i, "-d") <==> argv[i] != "-d" && Absent(argv, i + 2, "-d") by {
        if argv[i] != "-d" && Absent(argv, i + 2, "-d") {
          forall l | i <= l < |argv| && (l - i) % 2 == 0
            ensures argv[l] != "-d"
          {
            if l != i {
              assert (l - (i + 2)) % 2 == 0;
            }
          }
        }
        if Absent(argv, i, "-d") {
          assert (i - i) % 2 == 0;
          forall l | i + 2 <= l < |argv| && (l - (i + 2)) % 2 == 0
            ensures argv[l] != "-d"
          {
            assert (l - i) % 2 == 0;
          }
        }
      }
    }
  }

  /** Directory mode is on exactly when `-d` occurs among the flags. */
  lemma ParseDirectoryMode(argv: seq<String>, atoi: String -> int)
    requires Parse(argv, atoi).Run?
    ensures Parse(argv, atoi).opts.useDir <==> !Absent(argv, 1, "-d")
  {
    ScanDirectoryMode(argv, 1, Defaults, atoi);
  }

  // ---------------------------------------------------------------------
  // Wave names and mp3 names
  // ---------------------------------------------------------------------

  const WavSuffix: String := ".wav"
  const Mp3Suffix: String := ".mp3"

  /**
   * The filter as written: `strncmp` of the four characters starting at
   * `length - 4`. For a name shorter than four characters that start lies
   * before the name, an out-of-bounds read (None).
   */
  function WaveFilterAsWritten(name: String): (r: Option<bool>)
    ensures r.None? <==> |name| - 4 < 0
  {
    var start := |name| - 4;
    if start < 0 then None else Some(name[start..] == WavSuffix)
  }

  /** A three-character name such as "wav" makes the filter read one character before the name. */
  lemma ShortNameReadsBeforeStart()
    ensures |"wav"| - 4 == -1 && WaveFilterAsWritten("wav").None?
  {
  }

  /** The filter with the length guard: the name is at least four characters and ends in ".wav". */
  predicate IsWaveName(name: String)
  {
    |name| >= 4 && name[|name| - 4..] == WavSuffix
  }

  /** Where the unguarded filter reads inside the name, it agrees with the guarded one. */
  lemma GuardedFilterAgrees(name: String)
    requires |name| >= 4
    ensures WaveFilterAsWritten(name) == Some(IsWaveName(name))
  {
  }

  /** The output name: the wave name without its last four characters, then ".mp3". */
  function Mp3Name(wave: String): (mp3: String)
    requires IsWaveName(wave)
  {
    wave[..|wave| - 4] + Mp3Suffix
  }

  /**
   * The name built in the job's C buffer: `strcpy` of the empty string, then
   * `strncat` of all but the last four characters, then `strcat` of ".mp3".
   * The wave name came out of a buffer of the same size, so it fits with its NUL.
   */
  method BuildMp3Name(buf: array<char>, wave: String)
    requires IsWaveName(wave) && '\0' !in wave && |wave| < buf.Length
    modifies buf
    ensures buf[..|wave|] == Mp3Name(wave) && buf[|wave|] == '\0'
    ensures buf[|wave| + 1..] == old(buf[|wave| + 1..])
  {
    buf[0] := '\0';
    var stem := |wave| - 4;
    var k := 0;
    while k < stem
      invariant 0 <= k <= stem
      invariant buf[..k] == wave[..k]
      invariant buf[|wave| + 1..] == old(buf[|wave| + 1..])
    {
      buf[k] := wave[k];
      k := k + 1;
    }
    buf[stem] := '\0';
    var m := 0;
    while m < 4
      invariant 0 <= m <= 4
      invariant buf[..stem] == wave[..stem]
      invariant buf[stem..stem + m] == Mp3Suffix[..m]
      invariant buf[|wave| + 1..] == old(buf[|wave| + 1..])
    {
      buf[stem + m] := Mp3Suffix[m];
      m := m + 1;
    }
    buf[|wave|] := '\0';
    assert buf[..|wave|] == buf[..stem] + buf[stem..stem + 4];
  }

  /** The mp3 name keeps the length and the stem of the wave name and ends in ".mp3". */
  lemma Mp3NameShape(wave: String)
    requires IsWaveName(wave)
    ensures |Mp3Name(wave)| == |wave|
    ensures Mp3Name(wave)[..|wave| - 4] == wave[..|wave| - 4]
    ensures Mp3Name(wave)[|wave| - 4..] == Mp3Suffix
  {
  }

  /** Replacing ".mp3" by ".wav" gives the wave name back. */
  lemma {:induction false} Mp3NameRoundTrip(wave: String)
    requires IsWaveName(wave)
    ensures var mp3 := Mp3Name(wave); mp3[..|mp3| - 4] + WavSuffix == wave
  {
    assert wave == wave[..|wave| - 4] + wave[|wave| - 4..];
  }

  /** Two different wave files never share an mp3 file. */
  lemma Mp3NameInjective(a: String, b: String)
    requires IsWaveName(a) && IsWaveName(b) && Mp3Name(a) == Mp3Name(b)
    ensures a == b
  {
    Mp3NameRoundTrip(a);
    Mp3NameRoundTrip(b);
  }

  // ---------------------------------------------------------------------
  // Batches
  // ---------------------------------------------------------------------

  /** The names the filter lets through, in order. */
  function Accepted(names: seq<String>): (a: seq<String>)
  {
    if names == [] then []
    else Accepted(names[..|names| - 1]) + if IsWaveName(names[|names| - 1]) then [names[|names| - 1]] else []
  }

  /** A name is accepted exactly when it is listed and is a wave name; none is invented. */
  lemma {:induction false} AcceptedMembers(names: seq<String>)
    ensures |Accepted(names)| <= |names|
    ensures forall x :: x in Accepted(names) <==> x in names && IsWaveName(x)
  {
    if names != [] {
      var init := names[..|names| - 1];
      AcceptedMembers(init);
      assert names == init + [names[|names| - 1]];
    }
  }

  /** One submission: the argument slot used, the wave file and the mp3 file. */
  datatype Job = Job(slot: nat, wave: String, mp3: String)

  /** The jobs for the accepted names: job k uses slot k mod 50. */
  function JobsFor(accepted: seq<String>): seq<Job>
    requires forall k :: 0 <= k < |accepted| ==> IsWaveName(accepted[k])
  {
    seq(|accepted|, k requires 0 <= k < |accepted| => Job(k % QueueLength, accepted[k], Mp3Name(accepted[k])))
  }

  lemma {:induction false} AcceptedAreWaveNames(names: seq<String>)
    ensures forall k :: 0 <= k < |Accepted(names)| ==> IsWaveName(Accepted(names)[k])
  {
    AcceptedMembers(names);
  }

  /**
   * The submission loop of `main`: skip names that are not wave names,
   * submit each other one with the argument slot `encodeJob`, and when the
   * counter reaches 50 wait for the batch and restart it at 0; after the
   * list, wait once more. Returns the jobs in order and the number of waits.
   */
  method SubmitAll(names: seq<String>) returns (jobs: seq<Job>, waits: nat)
    ensures AcceptedAreWaveNamesHolds(names) && jobs == JobsFor(Accepted(names))
    ensures forall k :: 0 <= k < |jobs| ==> jobs[k].slot < QueueLength
    ensures waits == |Accepted(names)| / QueueLength + 1
  {
    jobs, waits := [], 0;
    var encodeJob := 0;
    var k := 0;
    while k < |names|
      invariant 0 <= k <= |names|
      invariant AcceptedAreWaveNamesHolds(names[..k]) && jobs == JobsFor(Accepted(names[..k]))
      invariant 0 <= encodeJob < QueueLength
      invariant encodeJob == |jobs| % QueueLength && waits == |jobs| / QueueLength
    {
      var name := names[k];
      k := k + 1;
      assert names[..k][..k - 1] == names[..k - 1];
      AcceptedAreWaveNames(names[..k]);
      if !IsWaveName(name) {
        continue;
      }
      jobs := jobs + [Job(encodeJob, name, Mp3Name(name))];
      encodeJob := encodeJob + 1;
      if encodeJob == QueueLength {
        waits := waits + 1;
        encodeJob := 0;
      }
    }
    assert names[..k] == names;
    waits := waits + 1;
  }

  predicate AcceptedAreWaveNamesHolds(names: seq<String>)
  {
    forall k :: 0 <= k < |Accepted(names)| ==> IsWaveName(Accepted(names)[k])
  }

  /** Within one batch of 50 jobs no two use the same argument slot. */
  lemma BatchSlotsDistinct(accepted: seq<String>)
    requires forall k :: 0 <= k < |accepted| ==> IsWaveName(accepted[k])
    ensures forall j, l :: 0 <= j < l < |accepted| && j / QueueLength == l / QueueLength ==>
      JobsFor(accepted)[j].slot != JobsFor(accepted)[l].slot
  {
    forall j, l | 0 <= j < l < |accepted| && j / QueueLength == l / QueueLength
      ensures JobsFor(accepted)[j].slot != JobsFor(accepted)[l].slot
    {
      assert j == QueueLength * (j / QueueLength) + j % QueueLength;
      assert l == QueueLength * (l / QueueLength) + l % QueueLength;
    }
  }
}
