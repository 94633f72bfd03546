/** The parts of `crucible/network/ifname.py` that talk to the host: reading
    each NIC's MAC and PCI ids (`map_nics`), renaming links with `ip`
    (`_rename`), the udev rules file (`_rendor_udev_rules`,
    `write_udev_rules`) and the command as a whole (`run`). */
module IfnameHost {
  import opened Wrappers
  import opened Text
  import opened Host
  import opened Ifname

  // ---------------------------------------------------------------------
  // map_nics: what is read for each device

  /** `stdout.rsplit(' ', maxsplit=1)[-1]`: the MAC is the last
      space-separated token of what `ethtool -P` prints. */
  function ParseMac(stdout: string): string {
    AfterLast(stdout, ' ')
  }

  /** `ethtool -P <nic>` prints `Permanent address: <mac>` and a newline;
      the MAC comes back out with that newline, which the NIC constructor
      strips. */
  lemma ParseMacOfEthtool(mac: string)
    requires ' ' !in mac
    ensures ParseMac("Permanent address: " + mac + "\n") == mac + "\n"
  {
    var s, field := "Permanent address: " + mac + "\n", mac + "\n";
    var r := ParseMac(s);
    assert ' ' !in field by {
      assert forall i :: 0 <= i < |field| ==> field[i] == if i < |mac| then mac[i] else '\n';
    }
    assert IsFinalField(s, ' ', field) by {
      assert s == "Permanent address: " + field;
      assert s[|s| - |field|..] == field;
      assert s[|s| - |field| - 1] == ' ';
    }
    FinalFieldUnique(s, ' ', r, field);
  }

  /** The PCI id of a device: the value after the last '=' of the first
      `uevent` line that starts with `PCI_ID`, newline included, or '' when
      no line does. */
  function PciIdValue(lines: seq<string>): string {
    if |lines| == 0 then ""
    else if StartsWith(lines[0], "PCI_ID") then LastPiece(lines[0], '=')
    else PciIdValue(lines[1..])
  }

  /** The search stops at the first `PCI_ID` line. */
  lemma {:induction false} PciIdValueFirst(lines: seq<string>, i: nat)
    requires i < |lines| && StartsWith(lines[i], "PCI_ID")
    requires forall j :: 0 <= j < i ==> !StartsWith(lines[j], "PCI_ID")
    ensures PciIdValue(lines) == LastPiece(lines[i], '=')
    decreases i
  {
    if i > 0 {
      assert !StartsWith(lines[0], "PCI_ID");
      PciIdValueFirst(lines[1..], i - 1);
    }
  }

  /** Without a `PCI_ID` line the value is empty. */
  lemma {:induction false} PciIdValueMissing(lines: seq<string>)
    requires forall j :: 0 <= j < |lines| ==> !StartsWith(lines[j], "PCI_ID")
    ensures PciIdValue(lines) == ""
    decreases |lines|
  {
    if |lines| > 0 {
      assert !StartsWith(lines[0], "PCI_ID");
      PciIdValueMissing(lines[1..]);
    }
  }

  /** `vendor_id, device_id = pci_id.split(':')`: exactly two pieces, or
      the unpacking raises `ValueError`. */
  function ParsePciId(pciId: string): (r: Result<(string, string), Error>)
    ensures r.Ok? <==> |Split(pciId, ':')| == 2
    ensures r.Ok? ==> ':' !in r.value.0 && ':' !in r.value.1 && r.value.0 + ":" + r.value.1 == pciId
    ensures r.Err? ==> r.error.ValueError?
  {
    var parts := Split(pciId, ':');
    if |parts| == 2 then
      JoinSplit(pciId, ':');
      assert Join([':'], parts) == parts[0] + [':'] + parts[1];
      Ok((parts[0], parts[1]))
    else
      Err(ValueError("expected vendor:device"))
  }

  /** A device without a `PCI_ID` line stops `map_nics` with `ValueError`. */
  lemma ParsePciIdEmpty()
    ensures ParsePciId("").Err?
  {
    assert Split("", ':') == [""];
  }

  /** Writing vendor and device with a colon and parsing gives them back. */
  lemma ParsePciIdRoundTrip(vendor: string, device: string)
    requires ':' !in vendor && ':' !in device
    ensures ParsePciId(vendor + ":" + device) == Ok((vendor, device))
  {
    SplitJoin([vendor, device], ':');
    assert Join([':'], [vendor, device]) == vendor + ":" + device;
  }

  /** A device as found under `/sys/bus/pci/drivers/*/0000:*/net/`: its
      kernel name and the text of its `uevent` file. */
  datatype SysfsNic = SysfsNic(name: string, uevent: string)

  /** What `map_nics` reads for one device before building the NIC. */
  datatype NicRecord = NicRecord(name: string, mac: string, deviceId: string, vendorId: string)

  function EthtoolArgv(name: string): seq<string> {
    ["ethtool", "-P", name]
  }

  /** The record read for device `d`, given the output of `ethtool -P`. */
  function ReadNic(d: SysfsNic, ethtool: string): (r: Result<NicRecord, Error>)
    ensures r.Ok? <==> ParsePciId(PciIdValue(ReadLines(ReadText(d.uevent)))).Ok?
    ensures r.Ok? ==> r.value.name == d.name && r.value.mac == ParseMac(ethtool)
    ensures r.Err? ==> r.error.ValueError?
  {
    match ParsePciId(PciIdValue(ReadLines(ReadText(d.uevent))))
    case Err(e) => Err(e)
    case Ok((vendor, device)) => Ok(NicRecord(d.name, ParseMac(ethtool), device, vendor))
  }

  /** `NIC(name=…, mac=…, device_id=…, vendor_id=…)` built from `rec`. */
  predicate BuiltFrom(n: Nic, rec: NicRecord)
    reads n
  {
    Fields(n) == Stripped(rec) && n.oldName == ""
  }

  /** The fields a NIC keeps of what was read: each one stripped. */
  function Stripped(rec: NicRecord): NicRecord {
    NicRecord(Strip(rec.name), Strip(rec.mac), Strip(rec.deviceId), Strip(rec.vendorId))
  }

  /** A NIC's name, MAC as stored, device id and vendor id. */
  function Fields(n: Nic): NicRecord
    reads n
  {
    NicRecord(n.name, n.rawMac, n.deviceId, n.vendorId)
  }

  /** The `ethtool` reply device `j` of `devices` sees when the run starts
      with `k` commands already issued. */
  function EthtoolOut(devices: seq<SysfsNic>, j: nat, reply: (nat, seq<string>) -> CmdResult, k: nat): string
    requires j < |devices|
  {
    reply(k + j, EthtoolArgv(devices[j].name)).stdout
  }

  /** The `ethtool` commands for `devices`, in order. */
  function EthtoolCalls(devices: seq<SysfsNic>): (r: seq<seq<string>>)
    ensures |r| == |devices|
    ensures forall j :: 0 <= j < |devices| ==> r[j] == EthtoolArgv(devices[j].name)
  {
    seq(|devices|, j requires 0 <= j < |devices| => EthtoolArgv(devices[j].name))
  }

  /** How one device is read from its sysfs entry and its `ethtool -P`
      output: `ReadNic` for `map_nics`, the legacy reader for `_map_nics`. */
  type Reader = (SysfsNic, string) -> Result<NicRecord, Error>

  /** Every error a reader gives is a `ValueError`. */
  ghost predicate RaisesValueError(read: Reader) {
    forall d, ethtool :: read(d, ethtool).Err? ==> read(d, ethtool).error.ValueError?
  }

  lemma ReadNicRaisesValueError()
    ensures RaisesValueError(ReadNic)
  {
  }

  /** The records of the first `n` devices, each read with the `ethtool`
      output it received, or the error of the first one that fails. */
  function ReadAll(devices: seq<SysfsNic>, reply: (nat, seq<string>) -> CmdResult, k: nat, n: nat, read: Reader)
    : (r: Result<seq<NicRecord>, Error>)
    requires n <= |devices|
    ensures r.Ok? ==> |r.value| == n
    ensures r.Err? && RaisesValueError(read) ==> r.error.ValueError?
  {
    if n == 0 then Ok([])
    else
      match ReadAll(devices, reply, k, n - 1, read)
      case Err(e) => Err(e)
      case Ok(recs) =>
        match read(devices[n - 1], EthtoolOut(devices, n - 1, reply, k))
        case Err(e) => Err(e)
        case Ok(rec) => Ok(recs + [rec])
  }

  /** `map_nics` from the device list on: one `ethtool -P` per device, in
      order; the first device whose PCI id does not split in two stops the
      scan with `ValueError` right after its `ethtool`. On success every
      device gives one new NIC, built from what was read. Unsupported
      platforms give an empty list and run nothing. */
  method MapNics(supported: bool, devices: seq<SysfsNic>, runner: Runner) returns (r: Result<seq<Nic>, Error>)
    modifies runner
    ensures !supported ==> r == Ok([]) && runner.trace == old(runner.trace)
    ensures r.Err? ==> r.error.ValueError?
    ensures supported && r.Err? ==> exists i :: StoppedAt(devices, runner.reply, ReadNic, old(runner.trace), runner.trace, i)
    ensures supported && r.Ok? ==> ScannedAll(devices, runner.reply, old(runner.trace), runner.trace, r.value)
    ensures r.Ok? ==> forall j :: 0 <= j < |r.value| ==> fresh(r.value[j])
  {
    if !supported {
      return Ok([]);
    }
    var recs;
    ghost var failed;
    recs, failed := ScanDevices(devices, runner, ReadNic);
    if recs.Err? {
      ReadNicRaisesValueError();
      return Err(recs.error);
    }
    var nics := BuildNics(recs.value);
    r := Ok(nics);
  }

  /** The scan, started on trace `start`, stopped at device `i`: every
      device before it was read, its own record could not be, and `ethtool`
      ran for it and for each device before it and for no other. */
  predicate StoppedAt(devices: seq<SysfsNic>, reply: (nat, seq<string>) -> CmdResult, read: Reader,
                      start: seq<seq<string>>, trace: seq<seq<string>>, i: nat)
  {
    && i < |devices|
    && ReadAll(devices, reply, |start|, i, read).Ok?
    && ReadAll(devices, reply, |start|, i + 1, read).Err?
    && trace == start + EthtoolCalls(devices[..i + 1])
  }

  /** The scan, started on trace `start`, read every device: one `ethtool`
      per device, and one distinct NIC per device built from its record. */
  predicate ScannedAll(devices: seq<SysfsNic>, reply: (nat, seq<string>) -> CmdResult, start: seq<seq<string>>,
                       trace: seq<seq<string>>, nics: seq<Nic>)
    reads nics
  {
    && trace == start + EthtoolCalls(devices)
    && ReadAll(devices, reply, |start|, |devices|, ReadNic).Ok?
    && |nics| == |devices| && Distinct(nics)
    && AllBuilt(nics, ReadAll(devices, reply, |start|, |devices|, ReadNic).value)
  }

  /** The reading part of the loop of `map_nics`: the records of all
      devices with one `ethtool` each, or the error of the device `failed`
      that stopped it. */
  method ScanDevices(devices: seq<SysfsNic>, runner: Runner, read: Reader)
    returns (r: Result<seq<NicRecord>, Error>, ghost failed: nat)
    modifies runner
    ensures r.Err? ==>
      && StoppedAt(devices, runner.reply, read, old(runner.trace), runner.trace, failed)
      && r == ReadAll(devices, runner.reply, |old(runner.trace)|, failed + 1, read)
    ensures r.Ok? ==>
      && runner.trace == old(runner.trace) + EthtoolCalls(devices)
      && r == ReadAll(devices, runner.reply, |old(runner.trace)|, |devices|, read)
  {
    ghost var k := |runner.trace|;
    var recs: seq<NicRecord> := [];
    var i := 0;
    while i < |devices|
      invariant i <= |devices|
      invariant runner.trace == old(runner.trace) + EthtoolCalls(devices[..i])
      invariant ReadAll(devices, runner.reply, k, i, read) == Ok(recs)
    {
      var rec := MapStep(devices, i, runner, k, old(runner.trace), recs, read);
      if rec.Err? {
        return Err(rec.error), i;
      }
      recs := recs + [rec.value];
      i := i + 1;
    }
    assert devices[..|devices|] == devices;
    r, failed := Ok(recs), 0;
  }

  /** The NICs `map_nics` builds: one new, distinct object per record. */
  method BuildNics(recs: seq<NicRecord>) returns (nics: seq<Nic>)
    ensures |nics| == |recs| && Distinct(nics) && AllBuilt(nics, recs)
    ensures forall j :: 0 <= j < |nics| ==> fresh(nics[j])
  {
    nics := [];
    var i := 0;
    while i < |recs|
      invariant i <= |recs| && |nics| == i && Distinct(nics) && AllBuilt(nics, recs[..i])
      invariant forall j :: 0 <= j < |nics| ==> fresh(nics[j])
    {
      assert recs[..i + 1] == recs[..i] + [recs[i]];
      var nic := NewNic(recs[i]);
      AppendDistinct(nics, nic);
      AppendBuilt(nics, recs[..i], nic, recs[i]);
      nics := nics + [nic];
      i := i + 1;
    }
    assert recs[..i] == recs;
  }

  /** `NIC(name=…, mac=…, device_id=…, vendor_id=…)` for one record. */
  method NewNic(rec: NicRecord) returns (n: Nic)
    ensures fresh(n) && BuiltFrom(n, rec)
  {
    n := new Nic(rec.name, rec.mac, rec.deviceId, rec.vendorId);
  }

  /** Every NIC of `nics` was built from the record at its position. */
  predicate AllBuilt(nics: seq<Nic>, recs: seq<NicRecord>)
    requires |nics| == |recs|
    reads nics
  {
    forall j :: 0 <= j < |nics| ==> BuiltFrom(nics[j], recs[j])
  }

  lemma AppendBuilt(nics: seq<Nic>, recs: seq<NicRecord>, n: Nic, rec: NicRecord)
    requires |nics| == |recs| && AllBuilt(nics, recs) && BuiltFrom(n, rec)
    ensures AllBuilt(nics + [n], recs + [rec])
  {
    forall j | 0 <= j < |nics| + 1 ensures BuiltFrom((nics + [n])[j], (recs + [rec])[j]) {
      if j < |nics| {
        assert (nics + [n])[j] == nics[j] && (recs + [rec])[j] == recs[j];
      }
    }
  }

  /** Once a device fails, reading further devices fails too. */
  lemma {:induction false} ReadAllErrPersists(devices: seq<SysfsNic>, reply: (nat, seq<string>) -> CmdResult, k: nat,
                                              i: nat, n: nat, read: Reader)
    requires i <= n <= |devices| && ReadAll(devices, reply, k, i, read).Err?
    ensures ReadAll(devices, reply, k, n, read).Err?
    decreases n
  {
    if i < n {
      ReadAllErrPersists(devices, reply, k, i, n - 1, read);
    }
  }

  /** Reading one more device extends the records or stops with its error. */
  lemma ReadAllNext(devices: seq<SysfsNic>, reply: (nat, seq<string>) -> CmdResult, k: nat, i: nat,
                    recs: seq<NicRecord>, read: Reader)
    requires i < |devices| && ReadAll(devices, reply, k, i, read) == Ok(recs)
    ensures var next := read(devices[i], EthtoolOut(devices, i, reply, k));
      && (next.Ok? ==> ReadAll(devices, reply, k, i + 1, read) == Ok(recs + [next.value]))
      && (next.Err? ==> ReadAll(devices, reply, k, i + 1, read) == Err(next.error))
  {
  }

  /** The i-th turn of `map_nics`'s loop: the next record, or the error
      that stops the scan. */
  method MapStep(devices: seq<SysfsNic>, i: nat, runner: Runner, ghost k: nat, ghost start: seq<seq<string>>,
                 ghost recs: seq<NicRecord>, read: Reader)
    returns (rec: Result<NicRecord, Error>)
    requires i < |devices| && |start| == k
    requires runner.trace == start + EthtoolCalls(devices[..i])
    requires ReadAll(devices, runner.reply, k, i, read) == Ok(recs)
    modifies runner
    ensures runner.trace == start + EthtoolCalls(devices[..i + 1])
    ensures rec.Err? ==> ReadAll(devices, runner.reply, k, i + 1, read) == Err(rec.error)
    ensures rec.Ok? ==> ReadAll(devices, runner.reply, k, i + 1, read) == Ok(recs + [rec.value])
  {
    ghost var before := runner.trace;
    rec := ReadDevice(devices[i], runner, read);
    EthtoolCallsNext(devices, i);
    assert EthtoolOut(devices, i, runner.reply, k) == runner.reply(|before|, EthtoolArgv(devices[i].name)).stdout;
    ReadAllNext(devices, runner.reply, k, i, recs, read);
  }

  lemma EthtoolCallsNext(devices: seq<SysfsNic>, i: nat)
    requires i < |devices|
    ensures EthtoolCalls(devices[..i + 1]) == EthtoolCalls(devices[..i]) + [EthtoolArgv(devices[i].name)]
  {
    assert devices[..i + 1] == devices[..i] + [devices[i]];
  }

  /** One turn of `map_nics`: `ethtool -P` for the device, then its PCI id;
      the record of the NIC to build, or the error that stops the scan. */
  method ReadDevice(d: SysfsNic, runner: Runner, read: Reader) returns (r: Result<NicRecord, Error>)
    modifies runner
    ensures runner.trace == old(runner.trace) + [EthtoolArgv(d.name)]
    ensures r == read(d, runner.reply(|old(runner.trace)|, EthtoolArgv(d.name)).stdout)
  {
    var macCmd := runner.Run(EthtoolArgv(d.name));
    r := read(d, macCmd.stdout);
  }

  /** A list stays without repeats when an object not in it is added. */
  lemma AppendDistinct(nics: seq<Nic>, n: Nic)
    requires Distinct(nics) && n !in nics
    ensures Distinct(nics + [n])
  {
    var all := nics + [n];
    forall i, j | 0 <= i < j < |all| ensures At(all, i) != At(all, j) {
      if j < |nics| {
        assert At(all, i) == At(nics, i) && At(all, j) == At(nics, j);
      } else {
        assert At(all, i) == nics[i] && At(all, j) == n;
      }
    }
  }

  // ---------------------------------------------------------------------
  // _rename: the per-NIC state machine over command results

  function ShowArgv(name: string): seq<string> {
    ["ip", "link", "show", name]
  }

  function DownArgv(name: string): seq<string> {
    ["ip", "link", "set", name, "down"]
  }

  function RenameArgv(oldName: string, newName: string): seq<string> {
    ["ip", "link", "set", oldName, "name", newName]
  }

  function UpArgv(name: string): seq<string> {
    ["ip", "link", "set", name, "up"]
  }

  /** The commands issued for one NIC renamed from `oldName` to `newName`,
      whose first command gets reply number `k`: show the link; if that
      succeeded and says UP, bring it down, and give up on this NIC when
      that fails; rename; and after a successful rename of a link this
      routine brought down, bring it up as `upName`. */
  function RenameOneWith(oldName: string, newName: string, upName: string,
                         reply: (nat, seq<string>) -> CmdResult, k: nat): seq<seq<string>>
  {
    var show := reply(k, ShowArgv(oldName));
    if show.returnCode == 0 && Contains(show.stdout, "UP") then
      if reply(k + 1, DownArgv(oldName)).returnCode != 0 then
        [ShowArgv(oldName), DownArgv(oldName)]
      else if reply(k + 2, RenameArgv(oldName, newName)).returnCode == 0 then
        [ShowArgv(oldName), DownArgv(oldName), RenameArgv(oldName, newName), UpArgv(upName)]
      else
        [ShowArgv(oldName), DownArgv(oldName), RenameArgv(oldName, newName)]
    else
      [ShowArgv(oldName), RenameArgv(oldName, newName)]
  }

  /** One NIC as `_rename` is written: the link is brought up again under
      its old name. */
  function RenameOneAsWritten(oldName: string, newName: string,
                              reply: (nat, seq<string>) -> CmdResult, k: nat): seq<seq<string>>
  {
    RenameOneWith(oldName, newName, oldName, reply, k)
  }

  /** One NIC as `_rename` evidently intends: the link is brought up under
      the name it now has. */
  function RenameOne(oldName: string, newName: string,
                     reply: (nat, seq<string>) -> CmdResult, k: nat): seq<seq<string>>
  {
    RenameOneWith(oldName, newName, newName, reply, k)
  }

  /** The commands of `n` steps run one after the other, the first step's
      first command getting reply number `k`: `step(i, at)` is what step
      `i` issues when its first command gets reply number `at`. */
  function Chain<T>(step: (nat, nat) -> seq<T>, k: nat, n: nat): seq<T> {
    if n == 0 then []
    else
      var front := Chain(step, k, n - 1);
      front + step(n - 1, k + |front|)
  }

  /** Running one more step extends the chain. */
  lemma ChainNext<T>(start: seq<T>, trace: seq<T>, step: (nat, nat) -> seq<T>, n: nat)
    requires var front := start + Chain(step, |start|, n);
      trace == front + step(n, |front|)
    ensures trace == start + Chain(step, |start|, n + 1)
  {
    var front := Chain(step, |start|, n);
    var one := step(n, |start| + |front|);
    assert (start + front) + one == start + (front + one);
  }

  /** Step `i` of `_rename`: the commands for the i-th NIC, renamed from
      `olds[i]` to `news[i]` and brought up as `ups[i]`. */
  function RenameSteps(olds: seq<string>, news: seq<string>, ups: seq<string>,
                       reply: (nat, seq<string>) -> CmdResult): (nat, nat) -> seq<seq<string>> {
    (i: nat, at: nat) =>
      if i < |olds| && i < |news| && i < |ups| then RenameOneWith(olds[i], news[i], ups[i], reply, at) else []
  }

  /** The commands for the first `n` NICs, in order. */
  function RenameAll(olds: seq<string>, news: seq<string>, ups: seq<string>,
                     reply: (nat, seq<string>) -> CmdResult, k: nat, n: nat): seq<seq<string>> {
    Chain(RenameSteps(olds, news, ups, reply), k, n)
  }

  /** The name each link is brought up under: its `old_name`, as `_rename`
      is written, or its new name, as intended. */
  function UpNames(olds: seq<string>, news: seq<string>, upUnderNewName: bool): seq<string> {
    if upUnderNewName then news else olds
  }

  /** A link is set down only when `ip link show` succeeded and said UP. */
  lemma DownOnlyWhenUp(oldName: string, newName: string, upName: string, reply: (nat, seq<string>) -> CmdResult, k: nat)
    ensures DownArgv(oldName) in RenameOneWith(oldName, newName, upName, reply, k) ==>
      reply(k, ShowArgv(oldName)).returnCode == 0 && Contains(reply(k, ShowArgv(oldName)).stdout, "UP")
  {
  }

  /** A failed down skips the rename; otherwise the rename is always tried,
      also when the link could not be shown or already has the new name. */
  lemma RenameTriedUnlessDownFailed(oldName: string, newName: string, upName: string, reply: (nat, seq<string>) -> CmdResult, k: nat)
    ensures var show := reply(k, ShowArgv(oldName));
      var downFailed := show.returnCode == 0 && Contains(show.stdout, "UP") && reply(k + 1, DownArgv(oldName)).returnCode != 0;
      RenameArgv(oldName, newName) in RenameOneWith(oldName, newName, upName, reply, k) <==> !downFailed
  {
    var show := reply(k, ShowArgv(oldName));
    if show.returnCode == 0 && Contains(show.stdout, "UP") && reply(k + 1, DownArgv(oldName)).returnCode != 0 {
      assert RenameArgv(oldName, newName) != ShowArgv(oldName);
      assert RenameArgv(oldName, newName) != DownArgv(oldName);
    }
  }

  /** The link is brought up only after this routine set it down and the
      rename succeeded; the up command is then the last one. */
  lemma UpOnlyAfterDownAndRename(oldName: string, newName: string, upName: string, reply: (nat, seq<string>) -> CmdResult, k: nat)
    ensures var cmds := RenameOneWith(oldName, newName, upName, reply, k);
      UpArgv(upName) in cmds <==>
        && reply(k, ShowArgv(oldName)).returnCode == 0 && Contains(reply(k, ShowArgv(oldName)).stdout, "UP")
        && reply(k + 1, DownArgv(oldName)).returnCode == 0
        && reply(k + 2, RenameArgv(oldName, newName)).returnCode == 0
  {
    assert UpArgv(upName) != ShowArgv(oldName) && UpArgv(upName) != DownArgv(oldName);
    assert UpArgv(upName) != RenameArgv(oldName, newName);
  }

  /** A command every run of step `i` issues is in the chain of any longer run. */
  lemma {:induction false} ChainIssues<T>(step: (nat, nat) -> seq<T>, k: nat, n: nat, i: nat, x: T)
    requires i < n
    requires forall at: nat :: x in step(i, at)
    ensures x in Chain(step, k, n)
    decreases n
  {
    var front := Chain(step, k, n - 1);
    if i < n - 1 {
      ChainIssues(step, k, n - 1, i, x);
    } else {
      assert x in step(n - 1, k + |front|);
    }
  }

  /** Every NIC gets its turn whatever happened to the ones before: each
      NIC's commands start with showing its link. */
  lemma EveryNicShown(olds: seq<string>, news: seq<string>, ups: seq<string>,
                      reply: (nat, seq<string>) -> CmdResult, k: nat, n: nat, i: nat)
    requires n <= |olds| == |news| == |ups| && i < n
    ensures ShowArgv(olds[i]) in RenameAll(olds, news, ups, reply, k, n)
  {
    var step := RenameSteps(olds, news, ups, reply);
    forall at: nat ensures ShowArgv(olds[i]) in step(i, at) {
      assert step(i, at)[0] == ShowArgv(olds[i]);
    }
    ChainIssues(step, k, n, i, ShowArgv(olds[i]));
  }

  /** `_rename`: for each NIC in order, the state machine above, driven by
      the replies the runner gets. As written, `upUnderNewName` is false: a
      link is brought up again by its `old_name`. */
  method Rename(nics: seq<Nic>, runner: Runner, upUnderNewName: bool)
    modifies runner
    ensures var olds, news := OldNamesOf(nics), NamesOf(nics);
      runner.trace == old(runner.trace)
        + RenameAll(olds, news, UpNames(olds, news, upUnderNewName), runner.reply, |old(runner.trace)|, |nics|)
  {
    ghost var olds, news := OldNamesOf(nics), NamesOf(nics);
    ghost var ups := UpNames(olds, news, upUnderNewName);
    ghost var k := |runner.trace|;
    for i := 0 to |nics|
      invariant olds == OldNamesOf(nics) && news == NamesOf(nics)
      invariant runner.trace == old(runner.trace) + RenameAll(olds, news, ups, runner.reply, k, i)
    {
      RenameStep(nics, i, runner, upUnderNewName, olds, news, ups, old(runner.trace));
    }
  }

  /** One turn of `_rename`'s loop, seen from the commands issued so far. */
  method RenameStep(nics: seq<Nic>, i: nat, runner: Runner, upUnderNewName: bool,
                    ghost olds: seq<string>, ghost news: seq<string>, ghost ups: seq<string>,
                    ghost start: seq<seq<string>>)
    requires i < |nics| && olds == OldNamesOf(nics) && news == NamesOf(nics)
    requires ups == UpNames(olds, news, upUnderNewName)
    requires runner.trace == start + RenameAll(olds, news, ups, runner.reply, |start|, i)
    modifies runner
    ensures runner.trace == start + RenameAll(olds, news, ups, runner.reply, |start|, i + 1)
  {
    var oldName, newName := nics[i].oldName, nics[i].name;
    assert oldName == olds[i] && newName == news[i];
    var upName := if upUnderNewName then newName else oldName;
    RenameNic(oldName, newName, upName, runner);
    ChainNext(start, runner.trace, RenameSteps(olds, news, ups, runner.reply), i);
  }

  /** The body of `_rename`'s loop for one NIC, with its `was_up` flag; the
      link is brought up again as `upName`. */
  method RenameNic(oldName: string, newName: string, upName: string, runner: Runner)
    modifies runner
    ensures runner.trace == old(runner.trace) + RenameOneWith(oldName, newName, upName, runner.reply, |old(runner.trace)|)
  {
    ghost var k := |runner.trace|;
    var wasUp := false;
    var currentState := runner.Run(ShowArgv(oldName));
    if currentState.returnCode == 0 {
      if Contains(currentState.stdout, "UP") {
        var downResult := runner.Run(DownArgv(oldName));
        if downResult.returnCode == 0 {
          wasUp := true;
        } else {
          return;
        }
      }
    }
    var renameResult := runner.Run(RenameArgv(oldName, newName));
    if renameResult.returnCode == 0 {
      if wasUp {
        var upResult := runner.Run(UpArgv(upName));
      }
    }
  }

  // ---------------------------------------------------------------------
  // What the commands do to the links (for the finding about `_rename`)

  /** The links of a host by name, each up or down. */
  type Links = map<string, bool>

  /** The effect of one `ip link` command on the links. */
  function IpLink(argv: seq<string>, links: Links): Links {
    if |argv| == 5 && argv[..3] == ["ip", "link", "set"] && argv[4] == "down" && argv[3] in links then
      links[argv[3] := false]
    else if |argv| == 5 && argv[..3] == ["ip", "link", "set"] && argv[4] == "up" && argv[3] in links then
      links[argv[3] := true]
    else if |argv| == 6 && argv[..3] == ["ip", "link", "set"] && argv[4] == "name"
            && argv[3] in links && argv[5] !in links then
      (links - {argv[3]})[argv[5] := links[argv[3]]]
    else
      links
  }

  function IpLinkAll(cmds: seq<seq<string>>, links: Links): Links
    decreases |cmds|
  {
    if |cmds| == 0 then links else IpLinkAll(cmds[1..], IpLink(cmds[0], links))
  }

  /** The replies of a host on which `oldName` is up and renaming works. */
  predicate RenameSucceeds(oldName: string, newName: string, reply: (nat, seq<string>) -> CmdResult, k: nat) {
    && reply(k, ShowArgv(oldName)).returnCode == 0 && Contains(reply(k, ShowArgv(oldName)).stdout, "UP")
    && reply(k + 1, DownArgv(oldName)).returnCode == 0
    && reply(k + 2, RenameArgv(oldName, newName)).returnCode == 0
  }

  /** As written, a link that was up ends up down: the up command names the
      link by its old name, which no longer exists after the rename. */
  lemma RenameAsWrittenLeavesLinkDown(oldName: string, newName: string, reply: (nat, seq<string>) -> CmdResult, k: nat)
    requires oldName != newName && RenameSucceeds(oldName, newName, reply, k)
    ensures var after := IpLinkAll(RenameOneAsWritten(oldName, newName, reply, k), map[oldName := true]);
      newName in after && !after[newName] && oldName !in after
  {
    var cmds := RenameOneAsWritten(oldName, newName, reply, k);
    assert cmds == [ShowArgv(oldName), DownArgv(oldName), RenameArgv(oldName, newName), UpArgv(oldName)];
    var l0 := map[oldName := true];
    var l1 := IpLink(ShowArgv(oldName), l0);
    assert l1 == l0;
    var l2 := IpLink(DownArgv(oldName), l1);
    assert l2 == map[oldName := false];
    var l3 := IpLink(RenameArgv(oldName, newName), l2);
    assert l3 == map[newName := false];
    var l4 := IpLink(UpArgv(oldName), l3);
    assert l4 == l3;
    assert IpLinkAll(cmds, l0) == IpLinkAll(cmds[1..], l1);
    assert IpLinkAll(cmds[1..], l1) == IpLinkAll(cmds[2..], l2);
    assert IpLinkAll(cmds[2..], l2) == IpLinkAll(cmds[3..], l3);
    assert IpLinkAll(cmds[3..], l3) == IpLinkAll([], l4);
  }

  /** Bringing the link up under its new name restores it: the renamed link
      is up, as it was before. */
  lemma RenameKeepsLinkUp(oldName: string, newName: string, reply: (nat, seq<string>) -> CmdResult, k: nat)
    requires oldName != newName && RenameSucceeds(oldName, newName, reply, k)
    ensures var after := IpLinkAll(RenameOne(oldName, newName, reply, k), map[oldName := true]);
      after == map[newName := true]
  {
    var cmds := RenameOne(oldName, newName, reply, k);
    assert cmds == [ShowArgv(oldName), DownArgv(oldName), RenameArgv(oldName, newName), UpArgv(newName)];
    var l0 := map[oldName := true];
    var l1 := IpLink(ShowArgv(oldName), l0);
    assert l1 == l0;
    var l2 := IpLink(DownArgv(oldName), l1);
    assert l2 == map[oldName := false];
    var l3 := IpLink(RenameArgv(oldName, newName), l2);
    assert l3 == map[newName := false];
    var l4 := IpLink(UpArgv(newName), l3);
    assert l4 == map[newName := true];
    assert IpLinkAll(cmds, l0) == IpLinkAll(cmds[1..], l1);
    assert IpLinkAll(cmds[1..], l1) == IpLinkAll(cmds[2..], l2);
    assert IpLinkAll(cmds[2..], l2) == IpLinkAll(cmds[3..], l3);
    assert IpLinkAll(cmds[3..], l3) == IpLinkAll([], l4);
  }

  // ---------------------------------------------------------------------
  // udev rules

  /** `_rendor_udev_rules` once the template has produced `render`: its
      lines sorted and joined with newlines. */
  function SortRules(render: string): string {
    Join("\n", SortStrings(Split(render, '\n')))
  }

  /** The lines of the sorted text are the rendered lines, in order. */
  lemma SortRulesLines(render: string)
    ensures var lines := Split(SortRules(render), '\n');
      Sorted(lines) && multiset(lines) == multiset(Split(render, '\n'))
  {
    var parts := Split(render, '\n');
    var sorted := SortStrings(parts);
    forall i | 0 <= i < |sorted| ensures '\n' !in sorted[i] {
      assert sorted[i] in multiset(parts);
    }
    assert |sorted| == |multiset(sorted)| == |multiset(parts)| == |parts|;
    SplitJoin(sorted, '\n');
  }

  /** Sorting rules that are already sorted changes nothing. */
  lemma SortRulesIdempotent(render: string)
    ensures SortRules(SortRules(render)) == SortRules(render)
  {
    var lines := Split(SortRules(render), '\n');
    SortRulesLines(render);
    SortedUnique(SortStrings(lines), lines);
    JoinSplit(SortRules(render), '\n');
  }

  /** A merge: the sorted, duplicate-free union of the lines of the existing
      file and of the new rules. */
  function MergeRules(existing: string, rules: string): string {
    var union := (set l | l in Split(existing, '\n')) + (set l | l in Split(rules, '\n'));
    Join("\n", SortedSet(union))
  }

  /** A merged file holds every old and every new line once, in order, and
      nothing else. */
  lemma MergeRulesLines(existing: string, rules: string)
    ensures var lines := Split(MergeRules(existing, rules), '\n');
      && StrictlySorted(lines)
      && forall l :: l in lines <==> l in Split(existing, '\n') || l in Split(rules, '\n')
  {
    var union := (set l | l in Split(existing, '\n')) + (set l | l in Split(rules, '\n'));
    var lines := SortedSet(union);
    assert Split(rules, '\n')[0] in union;
    forall i | 0 <= i < |lines| ensures '\n' !in lines[i] {
      assert lines[i] in union;
    }
    SplitJoin(lines, '\n');
  }

  /** Merging the same rules a second time changes nothing. */
  lemma MergeRulesIdempotent(existing: string, rules: string)
    ensures MergeRules(MergeRules(existing, rules), rules) == MergeRules(existing, rules)
  {
    var merged := MergeRules(existing, rules);
    MergeRulesLines(existing, rules);
    var u1 := (set l | l in Split(existing, '\n')) + (set l | l in Split(rules, '\n'));
    var u2 := (set l | l in Split(merged, '\n')) + (set l | l in Split(rules, '\n'));
    assert u1 == u2;
  }

  /** The prompt's answers, as `click.Choice(['o', 'm', 'q'])` returns them. */
  datatype Choice = Overwrite | Merge | Quit

  function UdevRulesPath(installLocation: string): string {
    PathJoin(installLocation, "80-ifname.rules")
  }

  /** What ends up in the rules file: the merge when the file exists, no
      overwrite was asked for and a merge was either asked for or chosen at
      the prompt; the new rules otherwise. */
  function UdevContent(files: map<string, string>, rules: string, installLocation: string,
                       merge: bool, overwrite: bool, choice: Choice): string
  {
    var path := UdevRulesPath(installLocation);
    if path in files && !overwrite && (merge || choice == Merge) then MergeRules(ReadText(files[path]), rules)
    else rules
  }

  /** What `write_udev_rules` leaves behind, from file map `before` and log
      `logBefore`: an existing file without `overwrite` prompts, and `q`
      exits with 0 before anything is written; otherwise the file is written
      once, with `UdevContent`. */
  predicate RulesWritten(before: map<string, string>, after: map<string, string>,
                         logBefore: seq<FsOp>, logAfter: seq<FsOp>, outcome: Outcome, rules: string,
                         installLocation: string, merge: bool, overwrite: bool, choice: Choice)
  {
    var path := UdevRulesPath(installLocation);
    if path in before && !overwrite && choice == Quit then
      outcome == Exit(0) && after == before && logAfter == logBefore
    else
      && outcome == Done
      && after == before[path := UdevContent(before, rules, installLocation, merge, overwrite, choice)]
      && logAfter == logBefore + [Wrote(path)]
  }

  /** `write_udev_rules`. */
  method WriteUdevRules(fs: FileSystem, rules: string, installLocation: string,
                        merge: bool, overwrite: bool, choice: Choice) returns (outcome: Outcome)
    modifies fs
    ensures RulesWritten(old(fs.files), fs.files, old(fs.log), fs.log, outcome, rules,
                         installLocation, merge, overwrite, choice)
  {
    var content := rules;
    var doMerge := merge;
    var udevRules := UdevRulesPath(installLocation);
    if udevRules in fs.files && !overwrite {
      if choice == Merge {
        doMerge := true;
      } else if choice == Quit {
        return Exit(0);
      }
      if doMerge {
        content := MergeRules(ReadText(fs.files[udevRules]), rules);
      }
    }
    fs.Write(udevRules, content);
    outcome := Done;
  }

  // ---------------------------------------------------------------------
  // run

  /** The view of the NIC `map_nics` builds from `rec`: every field
      stripped, the MAC read back in upper case. */
  function RecordView(rec: NicRecord): NicView {
    NicView(NicId(Upper(Strip(rec.mac)), Strip(rec.deviceId), Strip(rec.vendorId)), Strip(rec.name))
  }

  /** The NICs built from records are seen as the records' views. */
  lemma BuiltViews(nics: seq<Nic>, recs: seq<NicRecord>)
    requires |nics| == |recs| && AllBuilt(nics, recs)
    ensures ViewsOf(nics) == MapSeq(recs, RecordView)
  {
    forall j | 0 <= j < |nics| ensures ViewOf(nics[j]) == RecordView(recs[j]) {
      assert BuiltFrom(nics[j], recs[j]);
    }
  }

  /** The names `get_new_names` gives NICs seen as `views`, already in MAC
      order. */
  function NewNames(views: seq<NicView>, hsnTable: seq<PciPair>, mgmtTable: seq<string>): seq<string> {
    FinalNames(MapSeq(views, ViewId), HsnKeys(hsnTable), MgmtKeys(mgmtTable))
  }

  /** The `old_name` `get_new_names` leaves on each of them: the kernel
      name, or the counted name when the NIC was re-indexed. */
  function LeftOldNames(views: seq<NicView>, hsnTable: seq<PciPair>, mgmtTable: seq<string>): seq<string> {
    SavedNames(IndexedNames(Classify(MapSeq(views, ViewId), HsnKeys(hsnTable), MgmtKeys(mgmtTable))),
               MapSeq(views, ViewName))
  }

  /** The NICs `map_nics` reads from `devices` with trace position `start`,
      seen as views and taken in the order of their MACs; none when a
      device cannot be read. */
  function ReadViews(devices: seq<SysfsNic>, reply: (nat, seq<string>) -> CmdResult, start: nat): seq<NicView> {
    var read := ReadAll(devices, reply, start, |devices|, ReadNic);
    if read.Ok? then SortBy(MapSeq(read.value, RecordView), ViewMac) else []
  }

  /** The trace `run` leaves once `map_nics` read every device from trace
      `start` on: one `ethtool` per device, then the renames of the NICs
      read, counted from the position after those calls. */
  predicate RenamedAfterScan(devices: seq<SysfsNic>, reply: (nat, seq<string>) -> CmdResult, start: seq<seq<string>>,
                            trace: seq<seq<string>>, hsnTable: seq<PciPair>, mgmtTable: seq<string>, skipRename: bool)
  {
    var scanned := start + EthtoolCalls(devices);
    trace == scanned + RenamesFor(ReadViews(devices, reply, |start|), hsnTable, mgmtTable, reply, |scanned|, skipRename)
  }

  /** The commands `_rename` issues for them as `run` calls it, from trace
      position `start`: each NIC renamed from the `old_name` left to it to
      its new name, and brought up again by that `old_name`; none when the
      rename is skipped. */
  function RenamesFor(views: seq<NicView>, hsnTable: seq<PciPair>, mgmtTable: seq<string>,
                      reply: (nat, seq<string>) -> CmdResult, start: nat, skipRename: bool): seq<seq<string>> {
    var olds := LeftOldNames(views, hsnTable, mgmtTable);
    if skipRename then [] else RenameAll(olds, NewNames(views, hsnTable, mgmtTable), olds, reply, start, |views|)
  }

  /** `_rendor_udev_rules` for them: the template over their new names and
      MACs, its lines sorted. */
  function RulesFor(views: seq<NicView>, hsnTable: seq<PciPair>, mgmtTable: seq<string>,
                    render: (seq<string>, seq<string>) -> string): string {
    SortRules(render(NewNames(views, hsnTable, mgmtTable), Macs(MapSeq(views, ViewId))))
  }

  /** `run`: map the NICs, name them, give up with `UdevError` when there is
      nothing to name, rename the links unless `skipRename`, and write the
      rules unless `skipUdev`. The udev template is the `render` function of
      the names and MACs. When every device is read, the NICs are taken in
      the order of their MACs (equal MACs keep the device order); they are
      renamed to their final names from the `old_name` `get_new_names` left
      them, each link brought up again by that `old_name`; and the rules
      are those of the final names and MACs. */
  method Run(supported: bool, devices: seq<SysfsNic>, hsnTable: seq<PciPair>, mgmtTable: seq<string>,
             skipRename: bool, skipUdev: bool, merge: bool, overwrite: bool, installLocation: string,
             choice: Choice, render: (seq<string>, seq<string>) -> string,
             runner: Runner, fs: FileSystem) returns (outcome: Outcome)
    modifies runner, fs
    ensures |devices| == 0 || !supported ==>
      outcome == Raise(UdevError("Nothing to do")) && runner.trace == old(runner.trace)
    ensures outcome.Raise? ==> outcome.error.ValueError? || outcome.error == UdevError("Nothing to do")
    ensures outcome.Raise? || skipUdev ==> fs.files == old(fs.files) && fs.log == old(fs.log)
    ensures skipRename && !outcome.Raise? ==> runner.trace == old(runner.trace) + EthtoolCalls(devices)
    ensures var read := ReadAll(devices, runner.reply, |old(runner.trace)|, |devices|, ReadNic);
      supported && |devices| > 0 ==> (outcome.Raise? <==> read.Err?)
    ensures var views := ReadViews(devices, runner.reply, |old(runner.trace)|);
      supported && |devices| > 0 && ReadAll(devices, runner.reply, |old(runner.trace)|, |devices|, ReadNic).Ok? ==>
        && RenamedAfterScan(devices, runner.reply, old(runner.trace), runner.trace, hsnTable, mgmtTable, skipRename)
        && (skipUdev ==> outcome == Done)
        && (!skipUdev ==> RulesWritten(old(fs.files), fs.files, old(fs.log), fs.log, outcome,
                                       RulesFor(views, hsnTable, mgmtTable, render),
                                       installLocation, merge, overwrite, choice))
  {
    var mapped := MapNics(supported, devices, runner);
    if mapped.Err? {
      ghost var i: nat :| StoppedAt(devices, runner.reply, ReadNic, old(runner.trace), runner.trace, i);
      ReadAllErrPersists(devices, runner.reply, |old(runner.trace)|, i + 1, |devices|, ReadNic);
      assert ReadAll(devices, runner.reply, |old(runner.trace)|, |devices|, ReadNic).Err?;
      return Raise(mapped.error);
    }
    outcome := NameScanned(supported, devices, mapped.value, old(runner.trace), hsnTable, mgmtTable,
                           skipRename, skipUdev, merge, overwrite, installLocation, choice, render, runner, fs);
  }

  /** `run` once `map_nics` has read the devices from trace `start` on and
      returned `mapped`. */
  method NameScanned(supported: bool, devices: seq<SysfsNic>, mapped: seq<Nic>, ghost start: seq<seq<string>>,
                     hsnTable: seq<PciPair>, mgmtTable: seq<string>,
                     skipRename: bool, skipUdev: bool, merge: bool, overwrite: bool, installLocation: string,
                     choice: Choice, render: (seq<string>, seq<string>) -> string,
                     runner: Runner, fs: FileSystem) returns (outcome: Outcome)
    requires supported ==> ScannedAll(devices, runner.reply, start, runner.trace, mapped)
    requires !supported ==> mapped == [] && runner.trace == start
    modifies runner, fs, mapped
    ensures |devices| == 0 || !supported ==>
      outcome == Raise(UdevError("Nothing to do")) && runner.trace == start
    ensures outcome.Raise? ==> outcome == Raise(UdevError("Nothing to do"))
    ensures outcome.Raise? || skipUdev ==> fs.files == old(fs.files) && fs.log == old(fs.log)
    ensures skipRename && !outcome.Raise? ==> runner.trace == start + EthtoolCalls(devices)
    ensures var read := ReadAll(devices, runner.reply, |start|, |devices|, ReadNic);
      supported && |devices| > 0 ==> !outcome.Raise? && read.Ok?
    ensures var views := ReadViews(devices, runner.reply, |start|);
      supported && |devices| > 0 && ReadAll(devices, runner.reply, |start|, |devices|, ReadNic).Ok? ==>
        && RenamedAfterScan(devices, runner.reply, start, runner.trace, hsnTable, mgmtTable, skipRename)
        && (skipUdev ==> outcome == Done)
        && (!skipUdev ==> RulesWritten(old(fs.files), fs.files, old(fs.log), fs.log, outcome,
                                       RulesFor(views, hsnTable, mgmtTable, render),
                                       installLocation, merge, overwrite, choice))
  {
    ghost var mid := runner.trace;
    ghost var read := ReadAll(devices, runner.reply, |start|, |devices|, ReadNic);
    if supported {
      BuiltViews(mapped, read.value);
    }
    outcome := NameAndWrite(mapped, hsnTable, mgmtTable, skipRename, skipUdev, merge, overwrite,
                            installLocation, choice, render, runner, fs);
  }

  /** `run` once the NICs are mapped, as written: `get_new_names`, then
      `_rename` bringing links up by their `old_name`. */
  method NameAndWrite(mapped: seq<Nic>, hsnTable: seq<PciPair>, mgmtTable: seq<string>,
                      skipRename: bool, skipUdev: bool, merge: bool, overwrite: bool, installLocation: string,
                      choice: Choice, render: (seq<string>, seq<string>) -> string,
                      runner: Runner, fs: FileSystem) returns (outcome: Outcome)
    requires Distinct(mapped)
    modifies runner, fs, mapped
    ensures outcome.Raise? <==> |mapped| == 0
    ensures outcome.Raise? ==> outcome == Raise(UdevError("Nothing to do")) && runner.trace == old(runner.trace)
    ensures outcome.Raise? || skipUdev ==> fs.files == old(fs.files) && fs.log == old(fs.log)
    ensures var views := SortBy(old(ViewsOf(mapped)), ViewMac);
      |mapped| > 0 ==>
        && runner.trace == old(runner.trace)
             + RenamesFor(views, hsnTable, mgmtTable, runner.reply, |old(runner.trace)|, skipRename)
        && (skipUdev ==> outcome == Done)
        && (!skipUdev ==> RulesWritten(old(fs.files), fs.files, old(fs.log), fs.log, outcome,
                                       RulesFor(views, hsnTable, mgmtTable, render),
                                       installLocation, merge, overwrite, choice))
  {
    ghost var views := SortBy(ViewsOf(mapped), ViewMac);
    var nics := NameMapped(mapped, hsnTable, mgmtTable);
    if |nics| == 0 {
      return Raise(UdevError("Nothing to do"));
    }
    assert SortRules(render(NamesOf(nics), Macs(IdsOf(nics)))) == RulesFor(views, hsnTable, mgmtTable, render);
    outcome := RenameAndWrite(nics, false, skipRename, skipUdev, merge, overwrite, installLocation, choice, render,
                              runner, fs);
  }

  /** `get_new_names` as written, seen from the views of the mapped NICs. */
  method NameMapped(mapped: seq<Nic>, hsnTable: seq<PciPair>, mgmtTable: seq<string>) returns (nics: seq<Nic>)
    requires Distinct(mapped)
    modifies mapped
    ensures var views := SortBy(old(ViewsOf(mapped)), ViewMac);
      && |nics| == |mapped|
      && NamesOf(nics) == NewNames(views, hsnTable, mgmtTable)
      && OldNamesOf(nics) == LeftOldNames(views, hsnTable, mgmtTable)
      && Macs(IdsOf(nics)) == Macs(MapSeq(views, ViewId))
  {
    ghost var sorted := SortedByMac(mapped);
    ghost var views := SortBy(ViewsOf(mapped), ViewMac);
    SortedByMacViews(mapped);
    ViewsOfParts(sorted);
    ghost var ids, kernel := IdsOf(sorted), NamesOf(sorted);
    nics := GetNewNames(mapped, hsnTable, mgmtTable);
    assert nics == sorted && IdsOf(nics) == ids;
    assert NamesOf(nics) == NewNames(views, hsnTable, mgmtTable);
    assert OldNamesOf(nics) == LeftOldNames(views, hsnTable, mgmtTable);
  }

  /** `run` once the NICs are mapped, as evidently intended: every NIC
      keeps its kernel name as `old_name`, and `_rename` brings each link
      up again under its new name. */
  method NameAndWriteFixed(mapped: seq<Nic>, hsnTable: seq<PciPair>, mgmtTable: seq<string>,
                           skipRename: bool, skipUdev: bool, merge: bool, overwrite: bool, installLocation: string,
                           choice: Choice, render: (seq<string>, seq<string>) -> string,
                           runner: Runner, fs: FileSystem) returns (outcome: Outcome)
    requires Distinct(mapped)
    modifies runner, fs, mapped
    ensures outcome.Raise? <==> |mapped| == 0
    ensures outcome.Raise? ==> outcome == Raise(UdevError("Nothing to do")) && runner.trace == old(runner.trace)
    ensures outcome.Raise? || skipUdev ==> fs.files == old(fs.files) && fs.log == old(fs.log)
    ensures var views := SortBy(old(ViewsOf(mapped)), ViewMac);
      var olds, news := MapSeq(views, ViewName), NewNames(views, hsnTable, mgmtTable);
      |mapped| > 0 ==>
        && runner.trace == old(runner.trace)
             + (if skipRename then [] else RenameAll(olds, news, news, runner.reply, |old(runner.trace)|, |mapped|))
        && (skipUdev ==> outcome == Done)
        && (!skipUdev ==> RulesWritten(old(fs.files), fs.files, old(fs.log), fs.log, outcome,
                                       RulesFor(views, hsnTable, mgmtTable, render),
                                       installLocation, merge, overwrite, choice))
  {
    ghost var views := SortBy(ViewsOf(mapped), ViewMac);
    var nics := NameMappedFixed(mapped, hsnTable, mgmtTable);
    if |nics| == 0 {
      return Raise(UdevError("Nothing to do"));
    }
    assert SortRules(render(NamesOf(nics), Macs(IdsOf(nics)))) == RulesFor(views, hsnTable, mgmtTable, render);
    outcome := RenameAndWrite(nics, true, skipRename, skipUdev, merge, overwrite, installLocation, choice, render,
                              runner, fs);
  }

  /** `get_new_names` as intended, seen from the views of the mapped NICs. */
  method NameMappedFixed(mapped: seq<Nic>, hsnTable: seq<PciPair>, mgmtTable: seq<string>) returns (nics: seq<Nic>)
    requires Distinct(mapped)
    modifies mapped
    ensures var views := SortBy(old(ViewsOf(mapped)), ViewMac);
      && |nics| == |mapped|
      && NamesOf(nics) == NewNames(views, hsnTable, mgmtTable)
      && OldNamesOf(nics) == MapSeq(views, ViewName)
      && Macs(IdsOf(nics)) == Macs(MapSeq(views, ViewId))
  {
    ghost var sorted := SortedByMac(mapped);
    ghost var views := SortBy(ViewsOf(mapped), ViewMac);
    SortedByMacViews(mapped);
    ViewsOfParts(sorted);
    ghost var ids, kernel := IdsOf(sorted), NamesOf(sorted);
    nics := GetNewNamesKeepingKernelNames(mapped, hsnTable, mgmtTable);
    assert nics == sorted && IdsOf(nics) == ids;
    assert NamesOf(nics) == NewNames(views, hsnTable, mgmtTable);
    assert OldNamesOf(nics) == kernel;
  }

  /** The rest of `run` once the NICs are named: `_rename` unless
      `skipRename`, then the rules. */
  method RenameAndWrite(nics: seq<Nic>, upUnderNewName: bool, skipRename: bool, skipUdev: bool, merge: bool,
                        overwrite: bool, installLocation: string, choice: Choice,
                        render: (seq<string>, seq<string>) -> string, runner: Runner, fs: FileSystem)
    returns (outcome: Outcome)
    modifies runner, fs
    ensures var olds, news := old(OldNamesOf(nics)), old(NamesOf(nics));
      runner.trace == old(runner.trace)
        + (if skipRename then []
           else RenameAll(olds, news, UpNames(olds, news, upUnderNewName), runner.reply, |old(runner.trace)|, |nics|))
    ensures skipUdev ==> outcome == Done && fs.files == old(fs.files) && fs.log == old(fs.log)
    ensures !skipUdev ==> RulesWritten(old(fs.files), fs.files, old(fs.log), fs.log, outcome,
                                       SortRules(render(old(NamesOf(nics)), old(Macs(IdsOf(nics))))),
                                       installLocation, merge, overwrite, choice)
  {
    var names, macs := NamesOf(nics), Macs(IdsOf(nics));
    ghost var olds := OldNamesOf(nics);
    ghost var commands := RenameAll(olds, names, UpNames(olds, names, upUnderNewName), runner.reply,
                                    |runner.trace|, |nics|);
    ghost var after := old(runner.trace) + (if skipRename then [] else commands);
    if !skipRename {
      Rename(nics, runner, upUnderNewName);
    }
    assert runner.trace == after;
    outcome := WriteRules(names, macs, skipUdev, merge, overwrite, installLocation, choice, render, fs);
  }

  /** The end of `run`: the rules rendered for the names and MACs, written
      unless `skipUdev`. */
  method WriteRules(names: seq<string>, macs: seq<string>, skipUdev: bool, merge: bool, overwrite: bool,
                    installLocation: string, choice: Choice, render: (seq<string>, seq<string>) -> string,
                    fs: FileSystem) returns (outcome: Outcome)
    modifies fs
    ensures skipUdev ==> outcome == Done && fs.files == old(fs.files) && fs.log == old(fs.log)
    ensures !skipUdev ==> RulesWritten(old(fs.files), fs.files, old(fs.log), fs.log, outcome,
                                       SortRules(render(names, macs)), installLocation, merge, overwrite, choice)
  {
    var rules := SortRules(render(names, macs));
    if !skipUdev {
      outcome := WriteUdevRules(fs, rules, installLocation, merge, overwrite, choice);
    } else {
      outcome := Done;
    }
  }
}
