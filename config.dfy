/** `crucible/network/config.py`: detect the running network manager, then
    configure one interface (`interface`) or the system's DNS settings
    (`system`) through it. */
module Config {
  import opened Wrappers
  import opened Text
  import opened Host
  import opened Manager
  import Sysconfig
  import NetworkManager

  /** The two network managers `resolve_network_manager` knows. */
  datatype Backend = NetworkManagerBackend | WickedBackend

  const SHOW_ARGV: seq<string> := ["systemctl", "show", "-p", "FragmentPath", "network"]
  const UNKNOWN_MANAGER := NetworkError("Unknown network manager")

  /** The backend named by the unit path `systemctl show` prints:
      NetworkManager wins over wicked; neither is an error. */
  function ResolvedBackend(stdout: string): Result<Backend, Error> {
    if Contains(stdout, "NetworkManager") then Ok(NetworkManagerBackend)
    else if Contains(stdout, "wicked") then Ok(WickedBackend)
    else Err(UNKNOWN_MANAGER)
  }

  /** The `name` each backend logs: wicked inherits `sysconfig`. */
  function BackendName(b: Backend): string {
    match b
    case NetworkManagerBackend => NetworkManager.NM_NAME
    case WickedBackend => Sysconfig.SYSCONFIG_NAME
  }

  /** A unit path naming wicked resolves to wicked when it holds no
      capital `N` (so it cannot name NetworkManager), as
      `FragmentPath=/usr/lib/systemd/system/wicked.service` does. */
  lemma WickedUnitResolves(before: string, after: string)
    requires 'N' !in before && 'N' !in after
    ensures ResolvedBackend(before + "wicked" + after) == Ok(WickedBackend)
  {
    var out := before + "wicked" + after;
    assert "NetworkManager"[0] == 'N';
    assert 'N' !in "wicked";
    assert 'N' !in out by {
      forall i | 0 <= i < |out| ensures out[i] != 'N' {
        if i < |before| { assert out[i] == before[i]; }
        else if i < |before| + 6 { assert out[i] == "wicked"[i - |before|]; }
        else { assert out[i] == after[i - |before| - 6]; }
      }
    }
    NotContainsWithoutChar(out, "NetworkManager", 0);
    assert out == before + ("wicked" + after);
    assert StartsWith("wicked" + after, "wicked") by {
      assert ("wicked" + after)[..6] == "wicked";
    }
    StartsWithContains("wicked" + after, "wicked");
    ContainsInSuffix(before, "wicked" + after, "wicked");
  }

  /** Output naming both managers resolves to NetworkManager, and output
      naming neither is an error; the names themselves resolve to their
      own backends. */
  lemma ResolutionOrder(stdout: string)
    ensures Contains(stdout, "NetworkManager") ==> ResolvedBackend(stdout) == Ok(NetworkManagerBackend)
    ensures !Contains(stdout, "NetworkManager") && !Contains(stdout, "wicked") ==>
      ResolvedBackend(stdout) == Err(UNKNOWN_MANAGER)
    ensures ResolvedBackend(NetworkManager.NM_NAME) == Ok(NetworkManagerBackend)
    ensures ResolvedBackend("wicked") == Ok(WickedBackend)
  {
    StartsWithContains(NetworkManager.NM_NAME, "NetworkManager");
    StartsWithContains("wicked", "wicked");
    assert "NetworkManager"[0] == 'N' && 'N' !in "wicked";
    NotContainsWithoutChar("wicked", "NetworkManager", 0);
  }

  /** `resolve_network_manager`: run `systemctl show -p FragmentPath
      network`, pick the backend from its output, then build that manager
      from the arguments (which may raise in turn). */
  method ResolveNetworkManager(a: NetworkArgs, runner: Runner) returns (r: Result<(Backend, SystemNetwork), Error>)
    modifies runner
    ensures runner.trace == old(runner.trace) + [SHOW_ARGV]
    ensures var backend := ResolvedBackend(runner.reply(|old(runner.trace)|, SHOW_ARGV).stdout);
      && (backend.Err? ==> r == Err(backend.error))
      && (backend.Ok? && Built(a).Err? ==> r == Err(Built(a).error))
      && (backend.Ok? && Built(a).Ok? ==>
            && r.Ok? && r.value.0 == backend.value
            && fresh(r.value.1) && fresh(r.value.1.interface)
            && r.value.1.interface.State() == Built(a).value
            && r.value.1.dns == Applied([], a.dns) && r.value.1.search == Applied([], a.search))
  {
    var result := runner.Run(SHOW_ARGV);
    var backend := ResolvedBackend(result.stdout);
    if backend.Err? {
      return Err(backend.error);
    }
    var net := NewSystemNetwork(a);
    if net.Err? {
      return Err(net.error);
    }
    r := Ok((backend.value, net.value));
  }

  // ---------------------------------------------------------------------
  // interface

  /** The members check of `interface` as written: `not members`, true only
      of an empty list. */
  predicate NoMembersAsWritten(members: seq<string>) {
    |members| == 0
  }

  /** The members check as intended: no member names were given, which the
      split of the empty `members` string shows as `['']`. */
  predicate NoMembers(members: seq<string>) {
    |members| == 0 || members == [""]
  }

  /** As written the check never fires: the members of a built interface
      come from a split, which always has a piece. */
  lemma MembersCheckAsWrittenNeverFires(a: NetworkArgs)
    requires Built(a).Ok?
    ensures !NoMembersAsWritten(Built(a).value.members)
  {
    BuiltInterface(a);
  }

  /** The intended check fires exactly when no members were given. */
  lemma MembersCheckFiresWithoutMembers(a: NetworkArgs)
    requires Built(a).Ok?
    ensures NoMembers(Built(a).value.members) <==> a.members == ""
  {
    BuiltInterface(a);
    if a.members == "" {
      assert Split("", ',') == [""];
    }
  }

  /** What `interface` does once the manager is built. */
  datatype Step = Refuse | DeferReload | RemoveConnection | WriteAndReload

  /** The steps of `interface` as written: a bond or bridge whose member
      list is empty is refused before anything else; then deferring skips
      both the write and the reload, and removing takes precedence over
      writing. */
  function InterfaceStep(st: InterfaceState, defer: bool, remove: bool): Step {
    if (IsBondName(st.name) || IsBridgeName(st.name)) && NoMembersAsWritten(st.members) then Refuse
    else if defer then DeferReload
    else if remove then RemoveConnection
    else WriteAndReload
  }

  /** As written, no interface built from arguments is refused, bond and
      bridge included: `defer` wins over `remove`, and `remove` over the
      write. */
  lemma NeverRefused(a: NetworkArgs, defer: bool, remove: bool)
    requires Built(a).Ok?
    ensures InterfaceStep(Built(a).value, defer, remove) ==
      (if defer then DeferReload else if remove then RemoveConnection else WriteAndReload)
  {
    MembersCheckAsWrittenNeverFires(a);
  }

  /** The steps as intended: the members check is `NoMembers`. */
  function IntendedStep(st: InterfaceState, defer: bool, remove: bool): Step {
    if (IsBondName(st.name) || IsBridgeName(st.name)) && NoMembers(st.members) then Refuse
    else InterfaceStep(st, defer, remove)
  }

  /** As intended, a bond or bridge asked for without `--members` is
      refused whatever else was asked; any other interface is never
      refused, and takes the steps it takes as written. */
  lemma RefusedIffMemberless(a: NetworkArgs, defer: bool, remove: bool)
    requires Built(a).Ok?
    ensures IntendedStep(Built(a).value, defer, remove) == Refuse <==>
      (IsBondName(a.interface) || IsBridgeName(a.interface)) && a.members == ""
    ensures IntendedStep(Built(a).value, defer, remove) != Refuse ==>
      IntendedStep(Built(a).value, defer, remove) == InterfaceStep(Built(a).value, defer, remove)
  {
    BuiltInterface(a);
    MembersCheckFiresWithoutMembers(a);
    MembersCheckAsWrittenNeverFires(a);
  }

  /** `config.interface` on arguments `a` with the `defer` and `remove`
      flags. `render` gives each wicked template's text and `answer` the
      reply to the overwrite prompt. */
  method ConfigureInterface(a: NetworkArgs, defer: bool, remove: bool, render: string -> string,
                            answer: string -> Sysconfig.Answer, runner: Runner, fs: FileSystem)
    returns (outcome: Outcome)
    modifies runner, fs
    ensures var backend := ResolvedBackend(runner.reply(|old(runner.trace)|, SHOW_ARGV).stdout);
      (backend.Err? || Built(a).Err?) ==>
        && outcome == Raise(if backend.Err? then backend.error else Built(a).error)
        && runner.trace == old(runner.trace) + [SHOW_ARGV]
        && fs.files == old(fs.files) && fs.log == old(fs.log)
    ensures var backend := ResolvedBackend(runner.reply(|old(runner.trace)|, SHOW_ARGV).stdout);
      backend.Ok? && Built(a).Ok? ==>
        (NetworkManager.BuiltWellFormed(a);
         StepTaken(backend.value, Built(a).value, InterfaceStep(Built(a).value, defer, remove), Applied([], a.dns),
                   render, answer, runner.reply, |old(runner.trace)| + 1, outcome,
                   old(runner.trace) + [SHOW_ARGV], runner.trace, old(fs.files), fs.files, old(fs.log), fs.log))
  {
    var resolved := ResolveNetworkManager(a, runner);
    if resolved.Err? {
      return Raise(resolved.error);
    }
    var (backend, net) := resolved.value;
    NetworkManager.BuiltWellFormed(a);
    assert net.interface.State() == Built(a).value && net.dns == Applied([], a.dns);
    ghost var t0 := runner.trace;
    assert t0 == old(runner.trace) + [SHOW_ARGV] && |t0| == |old(runner.trace)| + 1;
    outcome := InterfaceOn(backend, net, defer, remove, render, answer, runner, fs);
  }

  /** What taking `step` on the built interface `st` does on `backend`,
      starting from trace `t0` (of length `start`), files `f0` and log `l0`:
      refusing exits 1 and deferring is done, both touching nothing;
      removing deletes the connection (NetworkManager) or the two files
      (wicked), then reloads, forced on wicked for a named interface, and
      exits 0; writing writes the configuration and reloads, unless the
      NetworkManager commands cannot be formed (raise) or a wicked
      overwrite prompt is quit (exit 0 without the reload; quitting at
      `ifroute` leaves `ifcfg` written). */
  predicate StepTaken(backend: Backend, st: InterfaceState, step: Step, dns: seq<string>,
                       render: string -> string, answer: string -> Sysconfig.Answer,
                       reply: (nat, seq<string>) -> CmdResult, start: nat, outcome: Outcome,
                       t0: seq<seq<string>>, t: seq<seq<string>>,
                       f0: map<string, string>, f: map<string, string>, l0: seq<FsOp>, l: seq<FsOp>)
    requires NetworkManager.WellFormed(st)
  {
    var name := st.name;
    var ifcfg, ifroute := Sysconfig.InterfaceFile("ifcfg", name), Sysconfig.InterfaceFile("ifroute", name);
    var showCode := reply(start + 1, ["ip", "l", "show", name]).returnCode;
    match step
    case Refuse => outcome == Exit(1) && t == t0 && f == f0 && l == l0
    case DeferReload => outcome == Done && t == t0 && f == f0 && l == l0
    case RemoveConnection =>
      && outcome == Exit(0)
      && (backend == NetworkManagerBackend ==>
            t == t0 + [["nmcli", "connection", "delete", name]] + NetworkManager.ReloadCalls(name) && f == f0 && l == l0)
      && (backend == WickedBackend ==>
            && f == f0 - {ifcfg, ifroute}
            && l == l0 + [Unlinked(ifcfg), Unlinked(ifroute)]
            && t == t0 + Sysconfig.ReloadCalls(name, name != "", showCode))
    case WriteAndReload =>
      && (backend == NetworkManagerBackend ==>
            var calls := NetworkManager.WriteCalls(st, dns);
            && (calls.Err? ==> outcome == Raise(calls.error) && t == t0)
            && (calls.Ok? ==> outcome == Done && t == t0 + calls.value + NetworkManager.ReloadCalls(name))
            && f == f0 && l == l0)
      && (backend == WickedBackend ==>
            if ifcfg in f0 && answer("ifcfg") == Sysconfig.QuitWriting then
              outcome == Exit(0) && t == t0 && f == f0 && l == l0
            else if ifroute in f0 && answer("ifroute") == Sysconfig.QuitWriting then
              outcome == Exit(0) && t == t0 && f == f0[ifcfg := render("ifcfg")] && l == l0 + [Wrote(ifcfg)]
            else
              && outcome == Done
              && f == f0[ifcfg := render("ifcfg")][ifroute := render("ifroute")]
              && l == l0 + [Wrote(ifcfg), Wrote(ifroute)]
              && t == t0 + Sysconfig.ReloadCalls(name, false, showCode))
  }

  /** The steps of `interface` once the manager is built. */
  method InterfaceOn(backend: Backend, net: SystemNetwork, defer: bool, remove: bool, render: string -> string,
                     answer: string -> Sysconfig.Answer, runner: Runner, fs: FileSystem)
    returns (outcome: Outcome)
    requires NetworkManager.WellFormed(net.interface.State())
    modifies runner, fs
    ensures StepTaken(backend, net.interface.State(), InterfaceStep(net.interface.State(), defer, remove), net.dns,
                      render, answer, runner.reply, |old(runner.trace)|, outcome,
                      old(runner.trace), runner.trace, old(fs.files), fs.files, old(fs.log), fs.log)
  {
    var st := net.interface.State();
    var step := InterfaceStep(st, defer, remove);
    match step {
      case Refuse => outcome := Exit(1);
      case DeferReload => outcome := Done;
      case RemoveConnection =>
        if backend == NetworkManagerBackend {
          NetworkManager.Remove(st.name, runner);
        } else {
          Sysconfig.WickedRemove(st.name, runner, fs);
        }
        outcome := Exit(0);
      case WriteAndReload =>
        if backend == NetworkManagerBackend {
          outcome := WriteOnNetworkManager(net, runner);
        } else {
          outcome := WriteOnWicked(st.name, render, answer, runner, fs);
        }
    }
  }

  /** `write_config` then `reload_interface` on NetworkManager. */
  method WriteOnNetworkManager(net: SystemNetwork, runner: Runner) returns (outcome: Outcome)
    requires NetworkManager.WellFormed(net.interface.State())
    modifies runner
    ensures var calls := NetworkManager.WriteCalls(net.interface.State(), net.dns);
      && (calls.Err? ==> outcome == Raise(calls.error) && runner.trace == old(runner.trace))
      && (calls.Ok? ==>
            && outcome == Done
            && runner.trace == old(runner.trace) + calls.value + NetworkManager.ReloadCalls(net.interface.name))
  {
    var written := NetworkManager.WriteConfig(net, runner);
    if written.Err? {
      return Raise(written.error);
    }
    var _ := NetworkManager.Reload(net.interface.name, runner);
    outcome := Done;
  }

  /** `write_config` then `reload_interface` (not forced) on wicked.
      Quitting at the `ifcfg` prompt writes nothing; quitting at the
      `ifroute` prompt leaves `ifcfg` written; either exits before the
      reload. */
  method WriteOnWicked(name: string, render: string -> string, answer: string -> Sysconfig.Answer,
                       runner: Runner, fs: FileSystem) returns (outcome: Outcome)
    modifies runner, fs
    ensures var ifcfg, ifroute := Sysconfig.InterfaceFile("ifcfg", name), Sysconfig.InterfaceFile("ifroute", name);
      if ifcfg in old(fs.files) && answer("ifcfg") == Sysconfig.QuitWriting then
        outcome == Exit(0) && runner.trace == old(runner.trace) && fs.files == old(fs.files) && fs.log == old(fs.log)
      else if ifroute in old(fs.files) && answer("ifroute") == Sysconfig.QuitWriting then
        && outcome == Exit(0) && runner.trace == old(runner.trace)
        && fs.files == old(fs.files)[ifcfg := render("ifcfg")]
        && fs.log == old(fs.log) + [Wrote(ifcfg)]
      else
        && outcome == Done
        && fs.files == old(fs.files)[ifcfg := render("ifcfg")][ifroute := render("ifroute")]
        && fs.log == old(fs.log) + [Wrote(ifcfg), Wrote(ifroute)]
        && var showCode := runner.reply(|old(runner.trace)| + 1, ["ip", "l", "show", name]).returnCode;
           runner.trace == old(runner.trace) + Sysconfig.ReloadCalls(name, false, showCode)
  {
    outcome := Sysconfig.WickedWrite(name, render, answer, fs);
    if outcome == Exit(0) {
      return;
    }
    Sysconfig.WickedReload(name, false, runner);
  }

  // ---------------------------------------------------------------------
  // system

  /** A DNS or search list is acted on when it is not empty; a setting
      given as the empty string still yields one (empty) entry. */
  lemma EmptyTextSettingIsActedOn(current: seq<string>)
    ensures |Applied(current, Some(TextSetting("")))| > 0
  {
    TextSettingPieces(current, "");
  }

  /** `system` on NetworkManager: either update raises at once. */
  function SystemOnNetworkManager(dns: seq<string>, search: seq<string>): (o: Outcome)
    ensures o == Done <==> |dns| == 0 && |search| == 0
    ensures o != Done ==> o.Raise? && o.error.NotImplementedError?
  {
    if |dns| > 0 then Raise(NetworkManager.DNS_NOT_IMPLEMENTED)
    else if |search| > 0 then Raise(NetworkManager.SEARCH_NOT_IMPLEMENTED)
    else Done
  }

  /** The config file after one `update_dns`/`update_search` rewrite. */
  function Rewrite(content: string, key: string, items: seq<string>, escapes: string -> Option<string>): string {
    Concat(Sysconfig.UpdatedLines(ReadLines(ReadText(content)), key, Sysconfig.Template(Join(" ", items), escapes)))
  }

  /** The config file after `system`: the servers line, then the search
      line, each rewritten when its list is not empty. */
  function SystemContent(content: string, dns: seq<string>, search: seq<string>,
                         escapes: string -> Option<string>): string {
    var afterDns := if |dns| > 0 then Rewrite(content, Sysconfig.DNS_KEY, dns, escapes) else content;
    if |search| > 0 then Rewrite(afterDns, Sysconfig.SEARCH_KEY, search, escapes) else afterDns
  }

  /** `config.system`: resolve the manager, then update the DNS servers
      and the search list when each is not empty. */
  method ConfigureSystem(a: NetworkArgs, escapes: string -> Option<string>, runner: Runner, fs: FileSystem)
    returns (outcome: Outcome)
    modifies runner, fs
    ensures var backend := ResolvedBackend(runner.reply(|old(runner.trace)|, SHOW_ARGV).stdout);
      (backend.Err? || Built(a).Err?) ==>
        && outcome == Raise(if backend.Err? then backend.error else Built(a).error)
        && runner.trace == old(runner.trace) + [SHOW_ARGV]
        && fs.files == old(fs.files) && fs.log == old(fs.log)
    ensures var backend := ResolvedBackend(runner.reply(|old(runner.trace)|, SHOW_ARGV).stdout);
      backend == Ok(NetworkManagerBackend) && Built(a).Ok? ==>
        && outcome == SystemOnNetworkManager(Applied([], a.dns), Applied([], a.search))
        && runner.trace == old(runner.trace) + [SHOW_ARGV]
        && fs.files == old(fs.files) && fs.log == old(fs.log)
    ensures var backend := ResolvedBackend(runner.reply(|old(runner.trace)|, SHOW_ARGV).stdout);
      var dns, search := Applied([], a.dns), Applied([], a.search);
      backend == Ok(WickedBackend) && Built(a).Ok? && Sysconfig.ConfigPath() !in old(fs.files) ==>
        && outcome == (if |dns| > 0 || |search| > 0 then Raise(FileNotFoundError(Sysconfig.ConfigPath())) else Done)
        && fs.files == old(fs.files) && fs.log == old(fs.log)
        && runner.trace == old(runner.trace) + [SHOW_ARGV]
    ensures var backend := ResolvedBackend(runner.reply(|old(runner.trace)|, SHOW_ARGV).stdout);
      var dns, search := Applied([], a.dns), Applied([], a.search);
      backend == Ok(WickedBackend) && Built(a).Ok? && Sysconfig.ConfigPath() in old(fs.files) ==>
        && outcome == Done
        && fs.files == old(fs.files)[Sysconfig.ConfigPath() :=
             SystemContent(old(fs.files)[Sysconfig.ConfigPath()], dns, search, escapes)]
        && fs.log == old(fs.log)
             + (if |dns| > 0 then [Wrote(Sysconfig.ConfigPath())] else [])
             + (if |search| > 0 then [Wrote(Sysconfig.ConfigPath())] else [])
        && runner.trace == old(runner.trace) + [SHOW_ARGV]
             + (if |dns| > 0 then [Sysconfig.NETCONFIG_ARGV] else [])
             + (if |search| > 0 then [Sysconfig.NETCONFIG_ARGV] else [])
  {
    var resolved := ResolveNetworkManager(a, runner);
    if resolved.Err? {
      return Raise(resolved.error);
    }
    var (backend, net) := resolved.value;
    if backend == NetworkManagerBackend {
      return SystemOnNetworkManager(net.dns, net.search);
    }
    outcome := SystemOnWicked(net.dns, net.search, escapes, runner, fs);
  }

  /** `system` on wicked: each update rewrites the config file and runs
      `netconfig update -f`; a missing file raises before anything changes. */
  method SystemOnWicked(dns: seq<string>, search: seq<string>, escapes: string -> Option<string>,
                        runner: Runner, fs: FileSystem) returns (outcome: Outcome)
    modifies runner, fs
    ensures Sysconfig.ConfigPath() !in old(fs.files) ==>
      && outcome == (if |dns| > 0 || |search| > 0 then Raise(FileNotFoundError(Sysconfig.ConfigPath())) else Done)
      && fs.files == old(fs.files) && fs.log == old(fs.log) && runner.trace == old(runner.trace)
    ensures Sysconfig.ConfigPath() in old(fs.files) ==>
      && outcome == Done
      && fs.files == old(fs.files)[Sysconfig.ConfigPath() :=
           SystemContent(old(fs.files)[Sysconfig.ConfigPath()], dns, search, escapes)]
      && fs.log == old(fs.log)
           + (if |dns| > 0 then [Wrote(Sysconfig.ConfigPath())] else [])
           + (if |search| > 0 then [Wrote(Sysconfig.ConfigPath())] else [])
      && runner.trace == old(runner.trace)
           + (if |dns| > 0 then [Sysconfig.NETCONFIG_ARGV] else [])
           + (if |search| > 0 then [Sysconfig.NETCONFIG_ARGV] else [])
  {
    ghost var path := Sysconfig.ConfigPath();
    ghost var content := if path in fs.files then fs.files[path] else "";
    ghost var afterDns := if |dns| > 0 then Rewrite(content, Sysconfig.DNS_KEY, dns, escapes) else content;
    outcome := UpdateWhenGiven(Sysconfig.DNS_KEY, dns, escapes, runner, fs);
    if outcome != Done {
      return;
    }
    assert path in old(fs.files) ==> fs.files == old(fs.files)[path := afterDns];
    outcome := UpdateWhenGiven(Sysconfig.SEARCH_KEY, search, escapes, runner, fs);
    assert path in old(fs.files) ==> fs.files == old(fs.files)[path := SystemContent(content, dns, search, escapes)];
  }

  /** One of the two updates of `system` on wicked: `update_config` when
      its list is not empty, nothing otherwise. */
  method UpdateWhenGiven(key: string, items: seq<string>, escapes: string -> Option<string>,
                         runner: Runner, fs: FileSystem) returns (outcome: Outcome)
    modifies runner, fs
    ensures |items| == 0 ==>
      outcome == Done && fs.files == old(fs.files) && fs.log == old(fs.log) && runner.trace == old(runner.trace)
    ensures |items| > 0 && Sysconfig.ConfigPath() !in old(fs.files) ==>
      && outcome == Raise(FileNotFoundError(Sysconfig.ConfigPath()))
      && fs.files == old(fs.files) && fs.log == old(fs.log) && runner.trace == old(runner.trace)
    ensures |items| > 0 && Sysconfig.ConfigPath() in old(fs.files) ==>
      && outcome == Done
      && fs.files == old(fs.files)[Sysconfig.ConfigPath() := Rewrite(old(fs.files)[Sysconfig.ConfigPath()], key, items, escapes)]
      && fs.log == old(fs.log) + [Wrote(Sysconfig.ConfigPath())]
      && runner.trace == old(runner.trace) + [Sysconfig.NETCONFIG_ARGV]
  {
    outcome := Done;
    if |items| > 0 {
      outcome := Sysconfig.UpdateConfig(key, items, escapes, runner, fs);
    }
  }
}
