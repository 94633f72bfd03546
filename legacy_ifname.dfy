/** The older NIC naming of `crucible/ifname.py`: NICs keep their fields as
    read, are named in the order found (no sorting, no redundancy
    re-indexing), and the per-class counters live in a dictionary keyed by
    the prefixes of the naming table. */
module LegacyIfname {
  import opened Wrappers
  import opened Text
  import opened Host
  import opened Ifname
  import opened IfnameHost
  import opened IfnameFixture

  // ---------------------------------------------------------------------
  // NIC

  /** Any Python object a NIC may be compared with: another NIC, or an
      object of an unrelated class. */
  datatype PyObject = NicObject(nic: LegacyNic) | OtherObject

  /** The legacy `NIC`: the fields are stored as given, and renaming
      remembers the previous name. */
  class LegacyNic {
    var name: string
    var oldName: string
    var mac: string
    var deviceId: string
    var vendorId: string

    constructor (name: string, mac: string, deviceId: string, vendorId: string)
      ensures this.name == name && this.mac == mac
      ensures this.deviceId == deviceId && this.vendorId == vendorId
      ensures oldName == ""
    {
      this.name := name;
      this.mac := mac;
      this.deviceId := deviceId;
      this.vendorId := vendorId;
      oldName := "";
    }

    /** `str(nic)`. */
    function ToString(): string
      reads this
    {
      name + ":" + mac
    }

    /** The `name` setter. */
    method SetName(newName: string)
      modifies this
      ensures name == newName && oldName == old(name)
      ensures mac == old(mac) && deviceId == old(deviceId) && vendorId == old(vendorId)
    {
      oldName := name;
      name := newName;
    }

    /** `__eq__`: name, MAC, device and vendor agree; never equal to an
        object of an unrelated class. */
    predicate Equals(other: PyObject)
      reads this, if other.NicObject? then {other.nic} else {}
    {
      match other
      case OtherObject => false
      case NicObject(o) =>
        name == o.name && mac == o.mac && deviceId == o.deviceId && vendorId == o.vendorId
    }
  }

  /** `str(nic)` is the name, a colon and the MAC exactly as read. */
  lemma LegacyToStringFields(n: LegacyNic)
    ensures StartsWith(n.ToString(), n.name + ":")
    ensures n.ToString()[|n.name| + 1..] == n.mac
  {
    assert n.ToString()[..|n.name| + 1] == n.name + ":";
  }

  // ---------------------------------------------------------------------
  // Views of a list of legacy NICs

  function LegacyAt(nics: seq<LegacyNic>, i: nat): LegacyNic
    requires i < |nics|
  {
    nics[i]
  }

  /** No NIC object occurs twice in the list. */
  predicate LegacyDistinct(nics: seq<LegacyNic>) {
    forall i, j {:trigger LegacyAt(nics, i), LegacyAt(nics, j)} ::
      0 <= i < j < |nics| ==> LegacyAt(nics, i) != LegacyAt(nics, j)
  }

  function LegacyNames(nics: seq<LegacyNic>): (names: seq<string>)
    reads nics
    ensures |names| == |nics|
  {
    seq(|nics|, i requires 0 <= i < |nics| reads nics => nics[i].name)
  }

  function LegacyOldNames(nics: seq<LegacyNic>): (names: seq<string>)
    reads nics
    ensures |names| == |nics|
  {
    seq(|nics|, i requires 0 <= i < |nics| reads nics => nics[i].oldName)
  }

  /** MAC, device and vendor of each NIC. */
  function LegacyIds(nics: seq<LegacyNic>): (ids: seq<NicId>)
    reads nics
    ensures |ids| == |nics|
  {
    seq(|nics|, i requires 0 <= i < |nics| reads nics => NicId(nics[i].mac, nics[i].deviceId, nics[i].vendorId))
  }

  /** `nics[k].name = new_name`, seen from the whole list. */
  method LegacySetNameAt(nics: seq<LegacyNic>, k: nat, newName: string)
    requires LegacyDistinct(nics) && k < |nics|
    modifies nics[k]
    ensures LegacyNames(nics) == old(LegacyNames(nics))[k := newName]
    ensures LegacyOldNames(nics) == old(LegacyOldNames(nics))[k := old(nics[k].name)]
    ensures LegacyIds(nics) == old(LegacyIds(nics))
  {
    forall j | 0 <= j < |nics| && j != k ensures nics[j] != nics[k] {
      assert LegacyAt(nics, j) == nics[j] && LegacyAt(nics, k) == nics[k];
    }
    nics[k].SetName(newName);
  }

  // ---------------------------------------------------------------------
  // _get_new_names

  /** The class of a NIC: hsn when its lower-case `vendor:device` is in the
      hsn table, otherwise mgmt when its lower-case vendor is in the mgmt
      table, otherwise lan. Nothing is stripped. */
  function LegacyClassOf(id: NicId, hsnKeys: seq<string>, mgmtKeys: seq<string>): NicClass {
    if Lower(id.vendorId + ":" + id.deviceId) in hsnKeys then Hsn
    else if Lower(id.vendorId) in mgmtKeys then Mgmt
    else Lan
  }

  function LegacyClassify(ids: seq<NicId>, hsnKeys: seq<string>, mgmtKeys: seq<string>): (cs: seq<NicClass>)
    ensures |cs| == |ids|
  {
    seq(|ids|, i requires 0 <= i < |ids| => LegacyClassOf(ids[i], hsnKeys, mgmtKeys))
  }

  /** Once the classes are set aside, the two generations agree exactly
      on NICs whose identity carries no surrounding whitespace. */
  lemma LegacyClassAgrees(id: NicId, hsnKeys: seq<string>, mgmtKeys: seq<string>)
    requires Strip(Lower(id.vendorId + ":" + id.deviceId)) == Lower(id.vendorId + ":" + id.deviceId)
    ensures LegacyClassOf(id, hsnKeys, mgmtKeys) == ClassOf(id, hsnKeys, mgmtKeys)
  {
  }

  /** The position of the first class whose prefix has no counter, or the
      length when every class has one. */
  function FirstMissing(cs: seq<NicClass>, prefixes: seq<string>): (m: nat)
    ensures m <= |cs|
    ensures forall j :: 0 <= j < m ==> Prefix(cs[j]) in prefixes
    ensures m < |cs| ==> Prefix(cs[m]) !in prefixes
    decreases |cs|
  {
    if |cs| == 0 then 0
    else if Prefix(cs[0]) !in prefixes then 0
    else 1 + FirstMissing(cs[1..], prefixes)
  }

  /** The counter names of a prefix of the classes are a prefix of the
      counter names. */
  lemma IndexedNamesPrefix(cs: seq<NicClass>, m: nat)
    requires m <= |cs|
    ensures IndexedNames(cs[..m]) == IndexedNames(cs)[..m]
  {
    forall j | 0 <= j < m ensures IndexedNames(cs[..m])[j] == IndexedNames(cs)[j] {
      assert cs[..m][..j] == cs[..j];
    }
  }

  /** `_get_new_names`: in list order each NIC takes the next name of its
      class from a counter started at 0 for every prefix of the table. When
      a class has no counter the lookup raises `KeyError` before that NIC is
      renamed, leaving the NICs before it renamed and the rest untouched. */
  method LegacyGetNewNames(nics: seq<LegacyNic>, prefixes: seq<string>, hsnTable: seq<PciPair>,
                           mgmtTable: seq<string>) returns (r: Result<seq<LegacyNic>, Error>)
    requires LegacyDistinct(nics)
    modifies nics
    ensures LegacyIds(nics) == old(LegacyIds(nics))
    ensures var cs := LegacyClassify(LegacyIds(nics), HsnKeys(hsnTable), MgmtKeys(mgmtTable));
      var m := FirstMissing(cs, prefixes);
      && LegacyNames(nics) == IndexedNames(cs)[..m] + old(LegacyNames(nics))[m..]
      && LegacyOldNames(nics) == old(LegacyNames(nics))[..m] + old(LegacyOldNames(nics))[m..]
      && r == (if m == |nics| then Ok(nics) else Err(KeyError(Prefix(cs[m]))))
  {
    var hsnIds, mgmtIds := HsnKeys(hsnTable), MgmtKeys(mgmtTable);
    var indexes: map<string, nat> := map p | p in prefixes :: 0;
    ghost var ids := LegacyIds(nics);
    ghost var pre := LegacyNames(nics);
    ghost var olds := LegacyOldNames(nics);
    ghost var cs := LegacyClassify(ids, hsnIds, mgmtIds);
    ghost var m := FirstMissing(cs, prefixes);
    for i := 0 to |nics|
      invariant i <= m
      invariant LegacyIds(nics) == ids
      invariant LegacyNames(nics) == IndexedNames(cs[..i]) + pre[i..]
      invariant LegacyOldNames(nics) == pre[..i] + olds[i..]
      invariant forall p :: p in indexes <==> p in prefixes
      invariant forall c :: Prefix(c) in indexes ==> indexes[Prefix(c)] == Count(cs[..i], c)
    {
      var c := LegacyClassOf(NicId(nics[i].mac, nics[i].deviceId, nics[i].vendorId), hsnIds, mgmtIds);
      assert c == cs[i] by {
        assert LegacyIds(nics)[i] == NicId(nics[i].mac, nics[i].deviceId, nics[i].vendorId);
      }
      if Prefix(c) !in indexes {
        IndexedNamesPrefix(cs, i);
        return Err(KeyError(Prefix(c)));
      }
      indexes := LegacyNameStep(nics, i, c, indexes, cs, pre, olds);
    }
    assert cs[..|nics|] == cs && pre[|nics|..] == [] && olds[|nics|..] == [] && pre[..|nics|] == pre;
    IndexedNamesPrefix(cs, |nics|);
    r := Ok(nics);
  }

  /** One turn of the loop of `_get_new_names`, for a NIC whose class has a
      counter. */
  method LegacyNameStep(nics: seq<LegacyNic>, i: nat, c: NicClass, indexes: map<string, nat>, ghost cs: seq<NicClass>,
                        ghost pre: seq<string>, ghost olds: seq<string>)
    returns (next: map<string, nat>)
    requires LegacyDistinct(nics) && i < |nics| == |cs| == |pre| == |olds|
    requires c == cs[i] && Prefix(c) in indexes
    requires LegacyNames(nics) == IndexedNames(cs[..i]) + pre[i..]
    requires LegacyOldNames(nics) == pre[..i] + olds[i..]
    requires forall c :: Prefix(c) in indexes ==> indexes[Prefix(c)] == Count(cs[..i], c)
    modifies nics[i]
    ensures LegacyIds(nics) == old(LegacyIds(nics))
    ensures LegacyNames(nics) == IndexedNames(cs[..i + 1]) + pre[i + 1..]
    ensures LegacyOldNames(nics) == pre[..i + 1] + olds[i + 1..]
    ensures forall p :: p in next <==> p in indexes
    ensures forall c :: Prefix(c) in next ==> next[Prefix(c)] == Count(cs[..i + 1], c)
  {
    var key := Prefix(c);
    ghost var names := IndexedNames(cs[..i]);
    assert nics[i].name == LegacyNames(nics)[i] == pre[i];
    LegacySetNameAt(nics, i, IndexedName(c, indexes[key]));
    next := indexes[key := indexes[key] + 1];
    forall d | Prefix(d) in next ensures next[Prefix(d)] == Count(cs[..i + 1], d) {
      CountStep(cs, i, d);
      PrefixInjective(d, c);
    }
    UpdateAtBoundary(names, pre, IndexedName(cs[i], Count(cs[..i], cs[i])));
    IndexedNamesSnoc(cs, i);
    assert (pre[..i] + olds[i..])[i := pre[i]] == pre[..i + 1] + olds[i + 1..];
  }

  /** Different classes have different prefixes. */
  lemma PrefixInjective(c: NicClass, d: NicClass)
    ensures Prefix(c) == Prefix(d) <==> c == d
  {
    if c != d {
      assert Prefix(c)[0] != Prefix(d)[0];
    }
  }

  // ---------------------------------------------------------------------
  // _map_nics

  /** `stdout.split(' ')[-1]`: the same token as the newer parser takes. */
  function LegacyParseMac(stdout: string): (mac: string)
    ensures mac == ParseMac(stdout)
  {
    LastPieceIsAfterLast(stdout, ' ');
    LastPiece(stdout, ' ')
  }

  /** The NIC the legacy scan makes of a record: its fields verbatim. */
  predicate LegacyBuiltFrom(n: LegacyNic, rec: NicRecord)
    reads n
  {
    n.name == rec.name && n.mac == rec.mac && n.deviceId == rec.deviceId && n.vendorId == rec.vendorId
    && n.oldName == ""
  }

  predicate AllLegacyBuilt(nics: seq<LegacyNic>, recs: seq<NicRecord>)
    requires |nics| == |recs|
    reads nics
  {
    forall j :: 0 <= j < |nics| ==> LegacyBuiltFrom(nics[j], recs[j])
  }

  /** One device as `_map_nics` reads it: the last space-separated token
      of the `ethtool -P` output as MAC, then the PCI id. It reads exactly
      what `map_nics` reads. */
  function LegacyReadNic(d: SysfsNic, ethtool: string): (r: Result<NicRecord, Error>)
    ensures r == ReadNic(d, ethtool)
  {
    var mac := LegacyParseMac(ethtool);
    match ParsePciId(PciIdValue(ReadLines(ReadText(d.uevent))))
    case Err(e) => Err(e)
    case Ok((vendor, device)) => Ok(NicRecord(d.name, mac, device, vendor))
  }

  lemma LegacyReadNicRaisesValueError()
    ensures RaisesValueError(LegacyReadNic)
  {
    ReadNicRaisesValueError();
  }

  /** `_map_nics`: one `ethtool -P` per device, in order, then the PCI id;
      the first device whose PCI id does not split in
      two stops the scan with `ValueError` (`failed` is that device). On
      success every device gives one new NIC holding what was read,
      unstripped. */
  method LegacyMapNics(devices: seq<SysfsNic>, runner: Runner) returns (r: Result<seq<LegacyNic>, Error>, ghost failed: nat)
    modifies runner
    ensures r.Err? ==> r.error.ValueError? && StoppedAt(devices, runner.reply, LegacyReadNic, old(runner.trace), runner.trace, failed)
    ensures r.Ok? ==>
      && runner.trace == old(runner.trace) + EthtoolCalls(devices)
      && ReadAll(devices, runner.reply, |old(runner.trace)|, |devices|, LegacyReadNic).Ok?
      && |r.value| == |devices| && LegacyDistinct(r.value)
      && AllLegacyBuilt(r.value, ReadAll(devices, runner.reply, |old(runner.trace)|, |devices|, LegacyReadNic).value)
    ensures r.Ok? ==> forall j :: 0 <= j < |r.value| ==> fresh(r.value[j])
  {
    var recs;
    recs, failed := ScanDevices(devices, runner, LegacyReadNic);
    if recs.Err? {
      LegacyReadNicRaisesValueError();
      return Err(recs.error), failed;
    }
    var nics := LegacyBuildNics(recs.value);
    r := Ok(nics);
  }

  /** The NICs `_map_nics` builds: one new, distinct object per record. */
  method LegacyBuildNics(recs: seq<NicRecord>) returns (nics: seq<LegacyNic>)
    ensures |nics| == |recs| && LegacyDistinct(nics) && AllLegacyBuilt(nics, recs)
    ensures forall j :: 0 <= j < |nics| ==> fresh(nics[j])
  {
    nics := [];
    var i := 0;
    while i < |recs|
      invariant i <= |recs| && |nics| == i && LegacyDistinct(nics) && AllLegacyBuilt(nics, recs[..i])
      invariant forall j :: 0 <= j < |nics| ==> fresh(nics[j])
    {
      assert recs[..i + 1] == recs[..i] + [recs[i]];
      var nic := new LegacyNic(recs[i].name, recs[i].mac, recs[i].deviceId, recs[i].vendorId);
      LegacyAppend(nics, recs[..i], nic, recs[i]);
      nics := nics + [nic];
      i := i + 1;
    }
    assert recs[..i] == recs;
  }

  /** Appending a NIC not yet in the list, built from the next record. */
  lemma LegacyAppend(nics: seq<LegacyNic>, recs: seq<NicRecord>, n: LegacyNic, rec: NicRecord)
    requires |nics| == |recs| && LegacyDistinct(nics) && n !in nics
    requires AllLegacyBuilt(nics, recs) && LegacyBuiltFrom(n, rec)
    ensures LegacyDistinct(nics + [n]) && AllLegacyBuilt(nics + [n], recs + [rec])
  {
    var all := nics + [n];
    forall i, j | 0 <= i < j < |all| ensures LegacyAt(all, i) != LegacyAt(all, j) {
      if j < |nics| {
        assert LegacyAt(all, i) == LegacyAt(nics, i) && LegacyAt(all, j) == LegacyAt(nics, j);
      } else {
        assert LegacyAt(all, i) == nics[i] && LegacyAt(all, j) == n;
      }
    }
    forall j | 0 <= j < |all| ensures LegacyBuiltFrom(all[j], (recs + [rec])[j]) {
      if j < |nics| {
        assert all[j] == nics[j] && (recs + [rec])[j] == recs[j];
      }
    }
  }

  // ---------------------------------------------------------------------
  // The legacy test fixture

  /** The six NICs of the legacy test, in the order they are found: em1,
      p801p1, em2, p801p2, p1p1, p1p2. */
  function LegacyFixtureIds(): seq<NicId> {
    [ NicId("a4:bf:01:38:f1:40", "37D2", "8086"),
      NicId("b8:59:9f:fe:49:d5", "1013", "15B3"),
      NicId("a4:bf:01:38:f1:41", "37D2", "8086"),
      NicId("b8:59:9f:fe:49:d7", "1013", "15B3"),
      NicId("00:40:a6:86:d7:66", "0501", "17DB"),
      NicId("00:40:a6:86:d7:b0", "0501", "17DB") ]
  }

  /** Intel ports are lan, without stripping. */
  lemma LegacyIntelIsLan(mac: string)
    ensures LegacyClassOf(NicId(mac, "37D2", "8086"), FixtureHsnKeys(), FixtureMgmtKeys()) == Lan
  {
    FixtureKeys();
    assert Lower("8086" + ":" + "37D2")[0] == '8';
    LowerKeeps("8086");
  }

  /** Mellanox ports are mgmt, without stripping. */
  lemma LegacyMellanoxIsMgmt(mac: string)
    ensures LegacyClassOf(NicId(mac, "1013", "15B3"), FixtureHsnKeys(), FixtureMgmtKeys()) == Mgmt
  {
    FixtureKeys();
    assert Lower("15B3" + ":" + "1013")[1] == '5';
    assert Lower("15B3") == "15b3";
  }

  /** Slingshot ports are hsn, without stripping. */
  lemma LegacySlingshotIsHsn(mac: string)
    ensures LegacyClassOf(NicId(mac, "0501", "17DB"), FixtureHsnKeys(), FixtureMgmtKeys()) == Hsn
  {
    FixtureKeys();
    var pair := "17DB" + ":" + "0501";
    assert pair == "17DB:0501";
    assert Lower(pair) == "17db:0501";
  }

  /** The legacy fixture falls into lan, mgmt, lan, mgmt, hsn, hsn. */
  lemma LegacyFixtureClasses()
    ensures LegacyClassify(LegacyFixtureIds(), FixtureHsnKeys(), FixtureMgmtKeys())
      == [Lan, Mgmt, Lan, Mgmt, Hsn, Hsn]
  {
    var ids := LegacyFixtureIds();
    LegacyIntelIsLan(ids[0].mac);
    LegacyMellanoxIsMgmt(ids[1].mac);
    LegacyIntelIsLan(ids[2].mac);
    LegacyMellanoxIsMgmt(ids[3].mac);
    LegacySlingshotIsHsn(ids[4].mac);
    LegacySlingshotIsHsn(ids[5].mac);
  }

  /** Every class of the fixture has a counter in a table naming lan, mgmt
      and hsn, and the NICs are named lan0, mgmt0, lan1, mgmt1, hsn0, hsn1:
      the names the legacy test expects. */
  lemma LegacyFixtureNames(prefixes: seq<string>)
    requires "lan" in prefixes && "mgmt" in prefixes && "hsn" in prefixes
    ensures var cs := LegacyClassify(LegacyFixtureIds(), FixtureHsnKeys(), FixtureMgmtKeys());
      && FirstMissing(cs, prefixes) == 6
      && IndexedNames(cs) == ["lan0", "mgmt0", "lan1", "mgmt1", "hsn0", "hsn1"]
  {
    LegacyFixtureClasses();
    var cs: seq<NicClass> := [Lan, Mgmt, Lan, Mgmt, Hsn, Hsn];
    LegacyFixtureCounts(cs);
    var ks: seq<nat> := [0, 0, 1, 1, 0, 1];
    var want := ["lan0", "mgmt0", "lan1", "mgmt1", "hsn0", "hsn1"];
    forall i | 0 <= i < 6 ensures IndexedNames(cs)[i] == want[i] {
      assert Count(cs[..i], cs[i]) == ks[i];
      assert NatToStr(ks[i]) == [DigitChar(ks[i])];
    }
    assert cs[1..][1..][1..][1..][1..][1..] == [];
  }

  lemma LegacyFixtureCounts(cs: seq<NicClass>)
    requires cs == [Lan, Mgmt, Lan, Mgmt, Hsn, Hsn]
    ensures Count(cs[..0], Lan) == 0 && Count(cs[..2], Lan) == 1
    ensures Count(cs[..1], Mgmt) == 0 && Count(cs[..3], Mgmt) == 1
    ensures Count(cs[..4], Hsn) == 0 && Count(cs[..5], Hsn) == 1
  {
    assert cs[..0] == [];
    CountStep(cs, 0, Lan);
    CountStep(cs, 1, Lan);
    CountStep(cs, 0, Mgmt);
    CountStep(cs, 1, Mgmt);
    CountStep(cs, 2, Mgmt);
    CountStep(cs, 0, Hsn);
    CountStep(cs, 1, Hsn);
    CountStep(cs, 2, Hsn);
    CountStep(cs, 3, Hsn);
    CountStep(cs, 4, Hsn);
  }
}
