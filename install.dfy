/** `install_to_disk`: a chain of checks on the RAID level, the squashFS
    storage size (GiB) and the number of disks, followed by one run of the
    bundled install script. */
module Install {
  import opened Text
  import opened Host

  const STRIPE := "stripe"
  const MIRROR := "mirror"

  /** Why the installer refuses to start; each refusal ends in `sys.exit(1)`. */
  datatype Refusal =
    | UnsupportedRaid
    | StorageBelowMinimum
    | StripeNeedsTwoDisks
    | NoDisks

  /** The verdict of the checks: a refusal, or go-ahead with a flag telling
      whether the small-storage warning was logged. */
  datatype Verdict = Refuse(reason: Refusal) | Proceed(warned: bool)

  /** The RAID levels the installer knows. */
  predicate SupportedRaid(raid: string) {
    raid == STRIPE || raid == MIRROR
  }

  /** The fewest disks each supported level can start with. */
  function MinDisks(raid: string): (r: nat)
    ensures r >= 1
  {
    if raid == STRIPE then 2 else 1
  }

  /** The checks of `install_to_disk`, in the order the source makes them:
      level, then storage size (below 2 refuses, below 5 warns), then disks
      (a stripe below 2, otherwise below 1). The verdict does not depend on
      that order: the install goes ahead exactly when every requirement
      holds, and it warns exactly when the storage is under 5 GiB. */
  function Checked(numDisks: int, size: int, raid: string): (v: Verdict)
    ensures v.Proceed? <==> SupportedRaid(raid) && size >= 2 && numDisks >= MinDisks(raid)
    ensures v.Proceed? ==> (v.warned <==> size < 5)
  {
    if !SupportedRaid(raid) then Refuse(UnsupportedRaid)
    else if size < 2 then Refuse(StorageBelowMinimum)
    else if numDisks < 2 && raid == STRIPE then Refuse(StripeNeedsTwoDisks)
    else if numDisks < 1 then Refuse(NoDisks)
    else Proceed(size < 5)
  }

  /** Each refusal names the first requirement that fails: a bad level is
      reported before a bad size, and a bad size before a bad disk count. */
  lemma RefusalIsFirstFailure(numDisks: int, size: int, raid: string)
    ensures Checked(numDisks, size, raid) == Refuse(UnsupportedRaid) <==> !SupportedRaid(raid)
    ensures Checked(numDisks, size, raid) == Refuse(StorageBelowMinimum) <==> SupportedRaid(raid) && size < 2
    ensures Checked(numDisks, size, raid) == Refuse(StripeNeedsTwoDisks) <==>
      raid == STRIPE && size >= 2 && numDisks < 2
    ensures Checked(numDisks, size, raid) == Refuse(NoDisks) <==>
      raid == MIRROR && size >= 2 && numDisks < 1
  {
  }

  /** No disks is refused whatever the level and size. */
  lemma NoDisksRefused(size: int, raid: string)
    ensures Checked(0, size, raid).Refuse?
  {
  }

  /** A level other than stripe or mirror is refused whatever the sizes. */
  lemma UnknownRaidRefused(numDisks: int, size: int)
    ensures Checked(numDisks, size, "foo") == Refuse(UnsupportedRaid)
  {
  }

  /** One disk is too few for a stripe but enough for a mirror. */
  lemma OneDiskOnlyMirrors(size: int)
    requires size >= 2
    ensures Checked(1, size, STRIPE) == Refuse(StripeNeedsTwoDisks)
    ensures Checked(1, size, MIRROR) == Proceed(size < 5)
  {
  }

  /** Storage under 2 GiB is refused, storage from 2 up to but excluding
      5 GiB goes ahead with a warning. */
  lemma StorageThresholds(numDisks: int, raid: string)
    requires SupportedRaid(raid) && numDisks >= 2
    ensures Checked(numDisks, 0, raid) == Refuse(StorageBelowMinimum)
    ensures Checked(numDisks, 1, raid) == Refuse(StorageBelowMinimum)
    ensures Checked(numDisks, 3, raid) == Proceed(true)
    ensures Checked(numDisks, 5, raid) == Proceed(false)
  {
  }

  /** The install script: `scripts/install.sh` beside the package. */
  function ScriptPath(directory: string): (r: string)
    ensures EndsWith(r, "install.sh")
  {
    PathJoin(PathJoin(directory, "scripts"), "install.sh")
  }

  /** Below a package directory with no trailing slash the script sits at
      `<directory>/scripts/install.sh`. */
  lemma ScriptPathUnderDirectory(directory: string)
    requires directory != "" && !EndsWith(directory, "/")
    ensures ScriptPath(directory) == directory + "/scripts/install.sh"
  {
    assert !StartsWith("scripts", "/");
    assert !StartsWith("install.sh", "/");
    var scripts := directory + "/" + "scripts";
    assert PathJoin(directory, "scripts") == scripts;
    assert scripts != "" && !EndsWith(scripts, "/") by {
      assert scripts[|scripts| - 1] == 's';
    }
  }

  /** The argument list of the script run: disks, size and level behind
      their flags, integers written in decimal. */
  function InstallArgv(directory: string, numDisks: int, size: int, raid: string): seq<string> {
    [ScriptPath(directory), "-d", IntToStr(numDisks), "-s", IntToStr(size), "-l", raid]
  }

  /** Integers print apart: a sign never looks like a digit. */
  lemma IntToStrInjective(a: int, b: int)
    requires IntToStr(a) == IntToStr(b)
    ensures a == b
  {
    assert a < 0 ==> IntToStr(a)[0] == '-';
    assert b < 0 ==> IntToStr(b)[0] == '-';
    assert a >= 0 ==> IsDigit(IntToStr(a)[0]);
    assert b >= 0 ==> IsDigit(IntToStr(b)[0]);
    if a < 0 && b < 0 {
      assert NatToStr(-a) == IntToStr(a)[1..] == IntToStr(b)[1..] == NatToStr(-b);
      NatToStrInjective(-a, -b);
    } else if a >= 0 && b >= 0 {
      NatToStrInjective(a, b);
    }
  }

  /** The script is told exactly what was asked for: two requests give the
      same argument list only when disks, size and level all agree. */
  lemma InstallArgvInjective(directory: string, n1: int, s1: int, r1: string, n2: int, s2: int, r2: string)
    requires InstallArgv(directory, n1, s1, r1) == InstallArgv(directory, n2, s2, r2)
    ensures n1 == n2 && s1 == s2 && r1 == r2
  {
    var a, b := InstallArgv(directory, n1, s1, r1), InstallArgv(directory, n2, s2, r2);
    assert a[2] == b[2] && a[4] == b[4] && a[6] == b[6];
    IntToStrInjective(n1, n2);
    IntToStrInjective(s1, s2);
  }

  /** `install_to_disk`. `directory` is the package directory the script is
      shipped in. `warned` tells whether the storage warning was logged:
      that happens once the level is accepted and the storage is at least 2
      but under 5, before the disk counts are checked, so also on the way to
      a refusal for too few disks. A refusal exits with 1 before anything
      runs; otherwise the script runs once and `succeeded` tells whether it
      exited with 0. Either way the function returns normally after the
      script. */
  method InstallToDisk(numDisks: int, size: int, raid: string, directory: string, runner: Runner)
    returns (outcome: Outcome, warned: bool, succeeded: bool)
    modifies runner
    ensures warned <==> SupportedRaid(raid) && 2 <= size < 5
    ensures var v := Checked(numDisks, size, raid);
      v.Refuse? ==> outcome == Exit(1) && runner.trace == old(runner.trace) && !succeeded
    ensures var v := Checked(numDisks, size, raid);
      var argv := InstallArgv(directory, numDisks, size, raid);
      v.Proceed? ==>
        && outcome == Done
        && warned == v.warned
        && runner.trace == old(runner.trace) + [argv]
        && succeeded == (runner.reply(|old(runner.trace)|, argv).returnCode == 0)
  {
    warned, succeeded := SupportedRaid(raid) && 2 <= size < 5, false;
    var verdict := Checked(numDisks, size, raid);
    if verdict.Refuse? {
      return Exit(1), warned, succeeded;
    }
    var result := runner.Run(InstallArgv(directory, numDisks, size, raid));
    succeeded := result.returnCode == 0;
    outcome := Done;
  }
}
