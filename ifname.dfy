/** Persistent NIC naming (crucible/network/ifname.py): NICs are sorted by
    MAC, classified through the hsn/mgmt tables, numbered per class, the
    management NICs are re-indexed across PCIe cards, the kernel links are
    renamed through `ip`, and udev rules are written, merged or previewed. */
module Ifname {
  import opened Wrappers
  import opened Text
  import opened Host

  // ---------------------------------------------------------------------
  // Name prefixes and per-class counters

  /** The four network classes a NIC can be named for. */
  datatype NicClass = Lan | Mgmt | Hsn | Sun

  function Prefix(c: NicClass): string {
    match c
    case Lan => "lan"
    case Mgmt => "mgmt"
    case Hsn => "hsn"
    case Sun => "sun"
  }

  /** The name the counter of class `c` hands out when it stands at `k`. */
  function IndexedName(c: NicClass, k: nat): string {
    Prefix(c) + NatToStr(k)
  }

  /** A handed-out name determines both its class and its number. */
  lemma IndexedNameInjective(c1: NicClass, k1: nat, c2: NicClass, k2: nat)
    requires IndexedName(c1, k1) == IndexedName(c2, k2)
    ensures c1 == c2 && k1 == k2
  {
    assert IndexedName(c1, k1)[0] == Prefix(c1)[0];
    assert IndexedName(c2, k2)[0] == Prefix(c2)[0];
    NumberedNamesInjective(Prefix(c1), k1, k2);
  }

  /** Only names handed out for `Mgmt` contain "mgmt", and only names for
      `Sun` contain "sun". */
  lemma IndexedNameSubstrings(c: NicClass, k: nat)
    ensures Contains(IndexedName(c, k), "mgmt") <==> c == Mgmt
    ensures Contains(IndexedName(c, k), "sun") <==> c == Sun
  {
    var n := IndexedName(c, k);
    assert forall ch :: ch in n ==> ch in Prefix(c) || IsDigit(ch);
    if c == Mgmt {
      StartsWithContains(n, "mgmt");
      NotContainsWithoutChar(n, "sun", 0);
    } else if c == Sun {
      StartsWithContains(n, "sun");
      NotContainsWithoutChar(n, "mgmt", 0);
    } else {
      NotContainsWithoutChar(n, "mgmt", 0);
      NotContainsWithoutChar(n, "sun", 1);
    }
  }

  /** `PrefixIndexes`: one counter per class; reading a class's name hands out
      the next number of that class and advances only that counter. */
  class PrefixIndexes {
    var lanIdx: nat
    var mgmtIdx: nat
    var hsnIdx: nat
    var sunIdx: nat

    constructor ()
      ensures forall c :: Index(c) == 0
    {
      lanIdx, mgmtIdx, hsnIdx, sunIdx := 0, 0, 0, 0;
    }

    /** Where the counter of class `c` stands. */
    function Index(c: NicClass): nat
      reads this
    {
      match c
      case Lan => lanIdx
      case Mgmt => mgmtIdx
      case Hsn => hsnIdx
      case Sun => sunIdx
    }

    /** The `lan`/`mgmt`/`hsn`/`sun` properties. */
    method Next(c: NicClass) returns (name: string)
      modifies this
      ensures name == IndexedName(c, old(Index(c)))
      ensures forall d :: Index(d) == old(Index(d)) + (if d == c then 1 else 0)
    {
      name := IndexedName(c, Index(c));
      match c
      case Lan => lanIdx := lanIdx + 1;
      case Mgmt => mgmtIdx := mgmtIdx + 1;
      case Hsn => hsnIdx := hsnIdx + 1;
      case Sun => sunIdx := sunIdx + 1;
    }
  }

  // ---------------------------------------------------------------------
  // The NIC record

  /** What identifies a NIC apart from its name: the MAC as read back
      (upper case), the PCI device id and the PCI vendor id. */
  datatype NicId = NicId(mac: string, deviceId: string, vendorId: string)

  /** `NIC`: the fields are stripped on construction, the MAC reads back in
      upper case, and renaming remembers the previous name. */
  class Nic {
    var name: string
    var oldName: string
    var rawMac: string
    var deviceId: string
    var vendorId: string

    constructor (name: string, mac: string, deviceId: string, vendorId: string)
      ensures this.name == Strip(name) && rawMac == Strip(mac)
      ensures this.deviceId == Strip(deviceId) && this.vendorId == Strip(vendorId)
      ensures oldName == ""
    {
      this.name := Strip(name);
      rawMac := Strip(mac);
      this.deviceId := Strip(deviceId);
      this.vendorId := Strip(vendorId);
      oldName := "";
    }

    /** The `mac` property. */
    function Mac(): string
      reads this
    {
      Upper(rawMac)
    }

    function Id(): NicId
      reads this
    {
      NicId(Mac(), deviceId, vendorId)
    }

    /** `str(nic)`. */
    function ToString(): string
      reads this
    {
      name + ":" + Mac()
    }

    /** The `name` setter. */
    method SetName(newName: string)
      modifies this
      ensures name == newName && oldName == old(name)
      ensures rawMac == old(rawMac) && deviceId == old(deviceId) && vendorId == old(vendorId)
    {
      oldName := name;
      name := newName;
    }

    /** Sets the remembered name alone, leaving the current one. */
    method SetOldName(kernelName: string)
      modifies this
      ensures oldName == kernelName && name == old(name)
      ensures rawMac == old(rawMac) && deviceId == old(deviceId) && vendorId == old(vendorId)
    {
      oldName := kernelName;
    }

    /** `__eq__` against another NIC: name, MAC, device and vendor agree. */
    predicate Equals(other: Nic)
      reads this, other
    {
      name == other.name && Mac() == other.Mac()
      && deviceId == other.deviceId && vendorId == other.vendorId
    }
  }

  /** `str(nic)` starts with the name and a colon, and what follows is the
      MAC in upper case; a name without a colon is recovered as the first
      colon-separated field. */
  lemma ToStringFields(n: Nic)
    ensures StartsWith(n.ToString(), n.name + ":")
    ensures n.ToString()[|n.name| + 1..] == n.Mac()
    ensures ':' !in n.name ==> Split(n.ToString(), ':')[0] == n.name
  {
    var s := n.ToString();
    var k := |n.name|;
    assert s == n.name + (":" + n.Mac());
    assert s[..k + 1] == n.name + ":";
    assert s[k + 1..] == n.Mac();
    if ':' !in n.name {
      IndexOfPrefix(n.name, ":" + n.Mac(), ':');
      assert Split(s, ':')[0] == s[..IndexOf(s, ':')] == s[..k];
      assert s[..k] == n.name;
    }
  }

  /** Two NICs compare equal exactly when their names and PCI ids agree and
      their MACs agree up to letter case; `old_name` plays no part. Since
      the right-hand side is a conjunction of equalities, `__eq__` is
      reflexive, symmetric and transitive. */
  lemma EqualsIgnoresMacCase(a: Nic, b: Nic)
    ensures a.Equals(b) <==>
      && a.name == b.name && a.deviceId == b.deviceId && a.vendorId == b.vendorId
      && Lower(a.rawMac) == Lower(b.rawMac)
  {
    var x, y := a.rawMac, b.rawMac;
    if |x| == |y| {
      forall i | 0 <= i < |x| ensures Upper(x)[i] == Upper(y)[i] <==> Lower(x)[i] == Lower(y)[i] {
        SameLetterUpToCase(x[i], y[i]);
      }
      if Lower(x) == Lower(y) {
        assert Upper(x) == Upper(y);
      } else {
        var i :| 0 <= i < |x| && Lower(x)[i] != Lower(y)[i];
        assert Upper(x)[i] != Upper(y)[i];
      }
    }
  }

  /** Two characters have the same upper case exactly when they have the
      same lower case. */
  lemma SameLetterUpToCase(c: char, d: char)
    ensures UpperChar(c) == UpperChar(d) <==> LowerChar(c) == LowerChar(d)
  {
  }

  /** A trailing newline, as read from sysfs files, does not survive the
      stripping done when a NIC is built. */
  lemma StripDropsTrailingNewline(s: string)
    ensures Strip(s + "\n") == Strip(s)
  {
    StripLeftOfExtension(s, "\n");
    var l := StripLeft(s);
    if l != [] {
      var t := l + "\n";
      assert StripLeft(s + "\n") == t;
      assert |t| > 0 && IsSpace(t[|t| - 1]) && t[..|t| - 1] == l;
      assert StripRight(t) == StripRight(l);
    } else {
      assert StripLeft(s + "\n") == StripLeft("\n");
      assert IsSpace("\n"[0]) && "\n"[1..] == [];
      assert StripLeft("\n") == [];
    }
  }

  /** Left stripping only looks at the prefix while it finds something else. */
  lemma {:induction false} StripLeftOfExtension(s: string, t: string)
    ensures StripLeft(s) != [] ==> StripLeft(s + t) == StripLeft(s) + t
    ensures StripLeft(s) == [] ==> StripLeft(s + t) == StripLeft(t)
    decreases |s|
  {
    if |s| > 0 {
      assert (s + t)[0] == s[0];
      if IsSpace(s[0]) {
        assert (s + t)[1..] == s[1..] + t;
        StripLeftOfExtension(s[1..], t);
      }
    } else {
      assert s + t == t;
    }
  }

  // ---------------------------------------------------------------------
  // Classification and numbering, as functions of the NIC identities

  /** One row of the `hsn_ids` table. */
  datatype PciPair = PciPair(vendorId: string, deviceId: string)

  /** `hsn_ids`: each row as lower-case `vendor:device`. */
  function HsnKeys(rows: seq<PciPair>): (keys: seq<string>)
    ensures |keys| == |rows|
  {
    seq(|rows|, i requires 0 <= i < |rows| => Lower(rows[i].vendorId + ":" + rows[i].deviceId))
  }

  /** `mgmt_ids`: each vendor id in lower case. */
  function MgmtKeys(vendors: seq<string>): (keys: seq<string>)
    ensures |keys| == |vendors|
  {
    seq(|vendors|, i requires 0 <= i < |vendors| => Lower(vendors[i]))
  }

  /** The class a NIC is named for: hsn when its lower-case, stripped
      `vendor:device` is in the hsn table, otherwise mgmt when its lower-case
      vendor is in the mgmt table, otherwise lan. */
  function ClassOf(id: NicId, hsnKeys: seq<string>, mgmtKeys: seq<string>): NicClass
  {
    if Strip(Lower(id.vendorId + ":" + id.deviceId)) in hsnKeys then Hsn
    else if Lower(id.vendorId) in mgmtKeys then Mgmt
    else Lan
  }

  function Classify(ids: seq<NicId>, hsnKeys: seq<string>, mgmtKeys: seq<string>): (cs: seq<NicClass>)
    ensures |cs| == |ids|
    ensures forall i :: 0 <= i < |cs| ==> cs[i] != Sun
  {
    seq(|ids|, i requires 0 <= i < |ids| => ClassOf(ids[i], hsnKeys, mgmtKeys))
  }

  /** How many entries of `cs` are of class `c`. */
  function Count(cs: seq<NicClass>, c: NicClass): nat
  {
    if |cs| == 0 then 0
    else Count(cs[..|cs| - 1], c) + (if cs[|cs| - 1] == c then 1 else 0)
  }

  /** The names the counters hand out walking `cs` in order: each NIC gets its
      class prefix and the number of earlier NICs of the same class. */
  function IndexedNames(cs: seq<NicClass>): (names: seq<string>)
    ensures |names| == |cs|
  {
    seq(|cs|, i requires 0 <= i < |cs| => IndexedName(cs[i], Count(cs[..i], cs[i])))
  }

  lemma {:induction false} CountPrefixGrows(cs: seq<NicClass>, c: NicClass, i: nat, j: nat)
    requires i < j <= |cs| && cs[i] == c
    ensures Count(cs[..i], c) < Count(cs[..j], c)
    decreases j
  {
    assert cs[..j][..j - 1] == cs[..j - 1];
    if j > i + 1 {
      CountPrefixGrows(cs, c, i, j - 1);
    }
  }

  /** No two NICs receive the same counter name. */
  lemma IndexedNamesDistinct(cs: seq<NicClass>)
    ensures forall i, j :: 0 <= i < j < |cs| ==> IndexedNames(cs)[i] != IndexedNames(cs)[j]
  {
    forall i, j | 0 <= i < j < |cs| ensures IndexedNames(cs)[i] != IndexedNames(cs)[j] {
      if IndexedNames(cs)[i] == IndexedNames(cs)[j] {
        IndexedNameInjective(cs[i], Count(cs[..i], cs[i]), cs[j], Count(cs[..j], cs[j]));
        CountPrefixGrows(cs, cs[i], i, j);
      }
    }
  }

  /** Numbering per class starts at 0 and leaves no gaps: for every class
      with n members, the names prefix0 … prefix(n-1) are all handed out. */
  lemma {:induction false} IndexedNamesGapless(cs: seq<NicClass>, c: NicClass, k: nat)
    requires k < Count(cs, c)
    ensures exists i :: 0 <= i < |cs| && cs[i] == c && IndexedNames(cs)[i] == IndexedName(c, k)
    decreases |cs|
  {
    var n := |cs| - 1;
    var p := cs[..n];
    if k < Count(p, c) {
      IndexedNamesGapless(p, c, k);
      var i :| 0 <= i < |p| && p[i] == c && IndexedNames(p)[i] == IndexedName(c, k);
      assert p[..i] == cs[..i];
      assert IndexedNames(cs)[i] == IndexedName(c, k);
    } else {
      assert cs[n] == c && cs[..n] == p;
      assert IndexedNames(cs)[n] == IndexedName(c, k);
    }
  }

  // ---------------------------------------------------------------------
  // PCIe redundancy re-indexing, as a function of the names

  predicate IsMgmtName(name: string) {
    Contains(name, "mgmt")
  }

  /** How many names of `names` contain `sub`. */
  function CountContaining(names: seq<string>, sub: string): nat
  {
    if |names| == 0 then 0
    else CountContaining(names[..|names| - 1], sub) + (if Contains(names[|names| - 1], sub) then 1 else 0)
  }

  /** The class whose prefix the p-th management NIC receives on re-indexing:
      mgmt at even positions, sun at odd ones. */
  function RedundancyClass(p: nat): NicClass {
    if p % 2 == 0 then Mgmt else Sun
  }

  /** The name the p-th management NIC (counting from 0) receives once the
      management NICs are spread over two cards: even positions become
      mgmt0, mgmt1, …, odd positions sun0, sun1, …. */
  function RedundancyName(p: nat): string {
    IndexedName(RedundancyClass(p), p / 2)
  }

  /** The names after `pcie_redundancy_indexing`: unchanged when at most two
      names contain "mgmt"; otherwise each of those takes the redundancy name
      of its position among them, and the others stay. */
  function RedundancyNames(names: seq<string>): (r: seq<string>)
    ensures |r| == |names|
  {
    if CountContaining(names, "mgmt") <= 2 then names
    else
      seq(|names|, i requires 0 <= i < |names| =>
        if IsMgmtName(names[i]) then RedundancyName(CountContaining(names[..i], "mgmt")) else names[i])
  }

  /** The names `get_new_names` gives NICs with identities `ids`, in that order. */
  function FinalNames(ids: seq<NicId>, hsnKeys: seq<string>, mgmtKeys: seq<string>): seq<string> {
    RedundancyNames(IndexedNames(Classify(ids, hsnKeys, mgmtKeys)))
  }

  lemma RedundancyNameShape(p: nat)
    ensures IsMgmtName(RedundancyName(p)) <==> p % 2 == 0
    ensures Contains(RedundancyName(p), "sun") <==> p % 2 == 1
  {
    IndexedNameSubstrings(RedundancyClass(p), p / 2);
  }

  /** Names of different classes differ already in their first letter. */
  lemma DifferentClassesDifferentNames(c1: NicClass, k1: nat, c2: NicClass, k2: nat)
    requires c1 != c2
    ensures IndexedName(c1, k1) != IndexedName(c2, k2)
  {
    assert IndexedName(c1, k1)[0] == Prefix(c1)[0];
    assert IndexedName(c2, k2)[0] == Prefix(c2)[0];
  }

  /** Different positions among the management NICs get different names. */
  lemma RedundancyNamesDiffer(p: nat, q: nat)
    requires p != q
    ensures RedundancyName(p) != RedundancyName(q)
  {
    if RedundancyClass(p) != RedundancyClass(q) {
      DifferentClassesDifferentNames(RedundancyClass(p), p / 2, RedundancyClass(q), q / 2);
    } else if RedundancyName(p) == RedundancyName(q) {
      IndexedNameInjective(RedundancyClass(p), p / 2, RedundancyClass(q), q / 2);
    }
  }

  /** With more than two management NICs, the first (m+1)/2 of them in list
      order keep a mgmt name and the other m/2 become sun, so the two counts
      differ by at most one; with no sun name before, the sun names are
      exactly the re-indexed ones. */
  lemma RedundancyBalance(names: seq<string>)
    requires CountContaining(names, "mgmt") > 2
    requires forall i :: 0 <= i < |names| ==> !Contains(names[i], "sun")
    ensures var m := CountContaining(names, "mgmt");
      var r := RedundancyNames(names);
      CountContaining(r, "mgmt") == (m + 1) / 2 && CountContaining(r, "sun") == m / 2
  {
    var r := RedundancyNames(names);
    RedundancyBalancePrefix(names, |names|);
    assert names[..|names|] == names;
    assert r[..|names|] == r;
  }

  lemma {:induction false} RedundancyBalancePrefix(names: seq<string>, k: nat)
    requires CountContaining(names, "mgmt") > 2 && k <= |names|
    requires forall i :: 0 <= i < |names| ==> !Contains(names[i], "sun")
    ensures var m := CountContaining(names[..k], "mgmt");
      var r := RedundancyNames(names)[..k];
      CountContaining(r, "mgmt") == (m + 1) / 2 && CountContaining(r, "sun") == m / 2
  {
    if k > 0 {
      RedundancyBalancePrefix(names, k - 1);
      if IsMgmtName(names[k - 1]) {
        RedundancyBalanceMgmtStep(names, k);
      } else {
        RedundancyBalanceOtherStep(names, k);
      }
    }
  }

  /** A management name extends the prefix by one re-indexed name. */
  lemma RedundancyBalanceMgmtStep(names: seq<string>, k: nat)
    requires CountContaining(names, "mgmt") > 2 && 0 < k <= |names| && IsMgmtName(names[k - 1])
    requires var m := CountContaining(names[..k - 1], "mgmt");
      var r := RedundancyNames(names)[..k - 1];
      CountContaining(r, "mgmt") == (m + 1) / 2 && CountContaining(r, "sun") == m / 2
    ensures var m := CountContaining(names[..k], "mgmt");
      var r := RedundancyNames(names)[..k];
      CountContaining(r, "mgmt") == (m + 1) / 2 && CountContaining(r, "sun") == m / 2
  {
    var r := RedundancyNames(names);
    var p := CountContaining(names[..k - 1], "mgmt");
    CountContainingStep(names, k, "mgmt");
    CountContainingStep(r, k, "mgmt");
    CountContainingStep(r, k, "sun");
    assert r[k - 1] == RedundancyName(p);
    RedundancyNameShape(p);
    HalvesStep(p);
  }

  /** Any other name is kept, and it contains neither "mgmt" nor "sun". */
  lemma RedundancyBalanceOtherStep(names: seq<string>, k: nat)
    requires CountContaining(names, "mgmt") > 2 && 0 < k <= |names| && !IsMgmtName(names[k - 1])
    requires !Contains(names[k - 1], "sun")
    requires var m := CountContaining(names[..k - 1], "mgmt");
      var r := RedundancyNames(names)[..k - 1];
      CountContaining(r, "mgmt") == (m + 1) / 2 && CountContaining(r, "sun") == m / 2
    ensures var m := CountContaining(names[..k], "mgmt");
      var r := RedundancyNames(names)[..k];
      CountContaining(r, "mgmt") == (m + 1) / 2 && CountContaining(r, "sun") == m / 2
  {
    var r := RedundancyNames(names);
    CountContainingStep(names, k, "mgmt");
    CountContainingStep(r, k, "mgmt");
    CountContainingStep(r, k, "sun");
    assert r[k - 1] == names[k - 1];
  }

  /** How the halves of a count move when it grows by one. */
  lemma HalvesStep(p: nat)
    ensures p % 2 == 0 ==> (p + 2) / 2 == (p + 1) / 2 + 1 && (p + 1) / 2 == p / 2
    ensures p % 2 == 1 ==> (p + 2) / 2 == (p + 1) / 2 && (p + 1) / 2 == p / 2 + 1
  {
  }

  /** Counting over one more element. */
  lemma CountContainingStep(names: seq<string>, k: nat, sub: string)
    requires 0 < k <= |names|
    ensures CountContaining(names[..k], sub)
      == CountContaining(names[..k - 1], sub) + (if Contains(names[k - 1], sub) then 1 else 0)
  {
    assert names[..k][..k - 1] == names[..k - 1];
  }

  /** The final names are pairwise different. */
  lemma FinalNamesDistinct(ids: seq<NicId>, hsnKeys: seq<string>, mgmtKeys: seq<string>)
    ensures var r := FinalNames(ids, hsnKeys, mgmtKeys);
      forall i, j :: 0 <= i < j < |r| ==> r[i] != r[j]
  {
    var cs := Classify(ids, hsnKeys, mgmtKeys);
    var names := IndexedNames(cs);
    var r := FinalNames(ids, hsnKeys, mgmtKeys);
    IndexedNamesDistinct(cs);
    if CountContaining(names, "mgmt") > 2 {
      forall i, j | 0 <= i < j < |r| ensures r[i] != r[j] {
        var pi := CountContaining(names[..i], "mgmt");
        var pj := CountContaining(names[..j], "mgmt");
        IndexedNameSubstrings(cs[i], Count(cs[..i], cs[i]));
        IndexedNameSubstrings(cs[j], Count(cs[..j], cs[j]));
        if IsMgmtName(names[i]) && IsMgmtName(names[j]) {
          MgmtPositionsGrow(names, i, j);
          RedundancyNamesDiffer(pi, pj);
        } else if IsMgmtName(names[i]) {
          DifferentClassesDifferentNames(RedundancyClass(pi), pi / 2, cs[j], Count(cs[..j], cs[j]));
        } else if IsMgmtName(names[j]) {
          DifferentClassesDifferentNames(RedundancyClass(pj), pj / 2, cs[i], Count(cs[..i], cs[i]));
        }
      }
    }
  }

  /** Later management names have later positions among the management names. */
  lemma {:induction false} MgmtPositionsGrow(names: seq<string>, i: nat, j: nat)
    requires i < j <= |names| && IsMgmtName(names[i])
    ensures CountContaining(names[..i], "mgmt") < CountContaining(names[..j], "mgmt")
    decreases j
  {
    CountContainingStep(names, j, "mgmt");
    if j > i + 1 {
      MgmtPositionsGrow(names, i, j - 1);
    }
  }

  // ---------------------------------------------------------------------
  // Views of a list of NIC objects

  function At(nics: seq<Nic>, i: nat): Nic
    requires i < |nics|
  {
    nics[i]
  }

  /** No NIC object occurs twice in the list (`map_nics` makes one object per
      device). The pairwise facts are available only at positions a proof
      names through `At`, which keeps the loops over the NICs cheap. */
  predicate Distinct(nics: seq<Nic>) {
    forall i, j {:trigger At(nics, i), At(nics, j)} :: 0 <= i < j < |nics| ==> At(nics, i) != At(nics, j)
  }

  lemma DistinctPairs(nics: seq<Nic>)
    requires Distinct(nics)
    ensures forall i, j :: 0 <= i < j < |nics| ==> nics[i] != nics[j]
  {
    forall i, j | 0 <= i < j < |nics| ensures nics[i] != nics[j] {
      assert At(nics, i) == nics[i] && At(nics, j) == nics[j];
    }
  }

  lemma PairsDistinct(nics: seq<Nic>)
    requires forall i, j :: 0 <= i < j < |nics| ==> nics[i] != nics[j]
    ensures Distinct(nics)
  {
    forall i, j | 0 <= i < j < |nics| ensures At(nics, i) != At(nics, j) {
      assert At(nics, i) == nics[i] && At(nics, j) == nics[j];
    }
  }

  function NamesOf(nics: seq<Nic>): (names: seq<string>)
    reads nics
    ensures |names| == |nics|
  {
    seq(|nics|, i requires 0 <= i < |nics| reads nics => nics[i].name)
  }

  function OldNamesOf(nics: seq<Nic>): (names: seq<string>)
    reads nics
    ensures |names| == |nics|
  {
    seq(|nics|, i requires 0 <= i < |nics| reads nics => nics[i].oldName)
  }

  function IdsOf(nics: seq<Nic>): (ids: seq<NicId>)
    reads nics
    ensures |ids| == |nics|
  {
    seq(|nics|, i requires 0 <= i < |nics| reads nics => nics[i].Id())
  }

  function Macs(ids: seq<NicId>): (macs: seq<string>)
    ensures |macs| == |ids|
  {
    seq(|ids|, i requires 0 <= i < |ids| => ids[i].mac)
  }

  /** What `get_new_names` sorts and names a NIC by: its identity and the
      name it has when the call begins. */
  datatype NicView = NicView(id: NicId, name: string)

  function ViewOf(n: Nic): NicView
    reads n
  {
    NicView(n.Id(), n.name)
  }

  function ViewsOf(nics: seq<Nic>): (views: seq<NicView>)
    reads nics
    ensures |views| == |nics|
  {
    seq(|nics|, i requires 0 <= i < |nics| reads nics => ViewOf(nics[i]))
  }

  /** The key `sorted(nics, key=lambda x: x.mac)` compares. */
  function ViewMac(v: NicView): string {
    v.id.mac
  }

  function ViewId(v: NicView): NicId {
    v.id
  }

  function ViewName(v: NicView): string {
    v.name
  }

  /** The identities and the names of a list of NICs, read off their views. */
  lemma ViewsOfParts(nics: seq<Nic>)
    ensures MapSeq(ViewsOf(nics), ViewId) == IdsOf(nics)
    ensures MapSeq(ViewsOf(nics), ViewName) == NamesOf(nics)
  {
  }

  /** `nics[k].name = new_name`, seen from the whole list: only position k
      changes, and it remembers its previous name. */
  method SetNameAt(nics: seq<Nic>, k: nat, newName: string)
    requires Distinct(nics) && k < |nics|
    modifies nics[k]
    ensures NamesOf(nics) == old(NamesOf(nics))[k := newName]
    ensures OldNamesOf(nics) == old(OldNamesOf(nics))[k := old(nics[k].name)]
    ensures IdsOf(nics) == old(IdsOf(nics))
  {
    forall j | 0 <= j < |nics| && j != k ensures nics[j] != nics[k] {
      assert At(nics, j) == nics[j] && At(nics, k) == nics[k];
    }
    nics[k].SetName(newName);
  }

  // ---------------------------------------------------------------------
  // pcie_redundancy_indexing

  /** Whether the NIC at position `i` of a list named `names` is renamed again
      by the redundancy re-indexing. */
  predicate Reindexed(names: seq<string>, i: nat)
    requires i < |names|
  {
    CountContaining(names, "mgmt") > 2 && IsMgmtName(names[i])
  }

  /** The `old_name`s after the re-indexing of a list named `names` whose
      `old_name`s were `olds`: a re-indexed NIC remembers the name it had,
      the others keep theirs. */
  function SavedNames(names: seq<string>, olds: seq<string>): (r: seq<string>)
    requires |olds| == |names|
    ensures |r| == |names|
  {
    seq(|names|, i requires 0 <= i < |names| => if Reindexed(names, i) then names[i] else olds[i])
  }

  /** The positions, in order, of the names that contain "mgmt". */
  function MgmtPositions(names: seq<string>): (ps: seq<nat>)
    ensures |ps| == CountContaining(names, "mgmt")
    ensures forall k :: 0 <= k < |ps| ==> ps[k] < |names| && IsMgmtName(names[ps[k]])
    ensures forall k, l :: 0 <= k < l < |ps| ==> ps[k] < ps[l]
  {
    if |names| == 0 then []
    else
      var n := |names| - 1;
      MgmtPositions(names[..n]) + (if IsMgmtName(names[n]) then [n] else [])
  }

  /** The k-th management position is the NIC with k management names before it. */
  lemma {:induction false} MgmtPositionsRank(names: seq<string>, i: nat)
    requires i < |names| && IsMgmtName(names[i])
    ensures var ps := MgmtPositions(names);
      CountContaining(names[..i], "mgmt") < |ps| && ps[CountContaining(names[..i], "mgmt")] == i
    decreases |names|
  {
    var n := |names| - 1;
    var front := MgmtPositions(names[..n]);
    var k := CountContaining(names[..i], "mgmt");
    if i < n {
      MgmtPositionsRank(names[..n], i);
      assert names[..n][..i] == names[..i];
      assert front[k] == i;
    } else {
      assert |front| == CountContaining(names[..n], "mgmt");
      assert MgmtPositions(names) == front + [n];
    }
  }

  /** `[nic for nic in nics if 'mgmt' in nic.name]`. */
  function MgmtNics(nics: seq<Nic>): (main: seq<Nic>)
    reads nics
    ensures |main| == CountContaining(NamesOf(nics), "mgmt")
  {
    var ps := MgmtPositions(NamesOf(nics));
    seq(|ps|, k requires 0 <= k < |ps| => nics[ps[k]])
  }

  /** Picking objects of a list at increasing positions keeps them distinct. */
  lemma MgmtNicsDistinct(nics: seq<Nic>)
    requires Distinct(nics)
    ensures Distinct(MgmtNics(nics))
  {
    var ps := MgmtPositions(NamesOf(nics));
    var main := MgmtNics(nics);
    forall k, l | 0 <= k < l < |main| ensures At(main, k) != At(main, l) {
      assert At(main, k) == At(nics, ps[k]) && At(main, l) == At(nics, ps[l]);
    }
  }

  /** A NIC whose name contains "mgmt" is picked at its rank among them;
      one whose name does not is not picked at all. */
  lemma MgmtNicsPick(nics: seq<Nic>, i: nat)
    requires Distinct(nics) && i < |nics|
    ensures var names, main := NamesOf(nics), MgmtNics(nics);
      if IsMgmtName(names[i]) then
        CountContaining(names[..i], "mgmt") < |main| && main[CountContaining(names[..i], "mgmt")] == nics[i]
      else
        nics[i] !in main
  {
    var names, main := NamesOf(nics), MgmtNics(nics);
    var ps := MgmtPositions(names);
    if IsMgmtName(names[i]) {
      MgmtPositionsRank(names, i);
    } else {
      forall k | 0 <= k < |main| ensures main[k] != nics[i] {
        assert IsMgmtName(names[ps[k]]);
        assert At(nics, ps[k]) == main[k] && At(nics, i) == nics[i];
      }
    }
  }

  /** The names of `names` after every other one, from position `start` and
      below `upto`, took the next names of class `c`, counting from `base`. */
  function EveryOther(names: seq<string>, start: nat, upto: nat, c: NicClass, base: nat): (r: seq<string>)
    ensures |r| == |names|
  {
    seq(|names|, p requires 0 <= p < |names| =>
      if p % 2 == start && p < upto then IndexedName(c, base + p / 2) else names[p])
  }

  /** The `old_name`s after that renaming: a renamed NIC remembers its name. */
  function SavedEveryOther(names: seq<string>, olds: seq<string>, start: nat, upto: nat): (r: seq<string>)
    requires |olds| == |names|
    ensures |r| == |names|
  {
    seq(|names|, p requires 0 <= p < |names| =>
      if p % 2 == start && p < upto then names[p] else olds[p])
  }

  /** Renaming position k moves the renamed range two places on. */
  lemma EveryOtherStep(names: seq<string>, olds: seq<string>, start: nat, k: nat, c: NicClass, base: nat)
    requires |olds| == |names| && k < |names| && k % 2 == start
    ensures EveryOther(names, start, k, c, base)[k] == names[k]
    ensures EveryOther(names, start, k, c, base)[k := IndexedName(c, base + k / 2)]
      == EveryOther(names, start, k + 2, c, base)
    ensures SavedEveryOther(names, olds, start, k)[k := names[k]] == SavedEveryOther(names, olds, start, k + 2)
  {
    assert (k + 1) % 2 != start;
  }

  /** Past the end, the bound no longer matters. */
  lemma EveryOtherDone(names: seq<string>, olds: seq<string>, start: nat, k: nat, c: NicClass, base: nat)
    requires |olds| == |names| && k >= |names|
    ensures EveryOther(names, start, k, c, base) == EveryOther(names, start, |names|, c, base)
    ensures SavedEveryOther(names, olds, start, k) == SavedEveryOther(names, olds, start, |names|)
  {
  }

  /** One turn of `for nic in main[start::2]`: the NIC at position k takes
      the next name of class `c`. */
  method RenameStep(main: seq<Nic>, start: nat, k: nat, c: NicClass, prefixes: PrefixIndexes,
                    ghost names: seq<string>, ghost olds: seq<string>, ghost base: nat)
    requires Distinct(main) && |names| == |olds| == |main| && k < |main| && k % 2 == start
    requires prefixes.Index(c) == base + k / 2
    requires NamesOf(main) == EveryOther(names, start, k, c, base)
    requires OldNamesOf(main) == SavedEveryOther(names, olds, start, k)
    modifies main[k], prefixes
    ensures prefixes.Index(c) == base + (k + 2) / 2
    ensures forall d :: d != c ==> prefixes.Index(d) == old(prefixes.Index(d))
    ensures NamesOf(main) == EveryOther(names, start, k + 2, c, base)
    ensures OldNamesOf(main) == SavedEveryOther(names, olds, start, k + 2)
    ensures IdsOf(main) == old(IdsOf(main))
  {
    var name := prefixes.Next(c);
    EveryOtherStep(names, olds, start, k, c, base);
    SetNameAt(main, k, name);
  }

  /** `for nic in main[start::2]: nic.name = <next name of class c>`. */
  method RenameEveryOther(main: seq<Nic>, start: nat, c: NicClass, prefixes: PrefixIndexes)
    requires start < 2 && Distinct(main)
    modifies main, prefixes
    ensures NamesOf(main) == EveryOther(old(NamesOf(main)), start, |main|, c, old(prefixes.Index(c)))
    ensures OldNamesOf(main) == SavedEveryOther(old(NamesOf(main)), old(OldNamesOf(main)), start, |main|)
    ensures IdsOf(main) == old(IdsOf(main))
    ensures forall d :: d != c ==> prefixes.Index(d) == old(prefixes.Index(d))
  {
    ghost var names, olds, ids := NamesOf(main), OldNamesOf(main), IdsOf(main);
    ghost var base := prefixes.Index(c);
    var k := start;
    while k < |main|
      invariant start <= k <= |main| + 1 && k % 2 == start
      invariant prefixes.Index(c) == base + k / 2
      invariant forall d :: d != c ==> prefixes.Index(d) == old(prefixes.Index(d))
      invariant NamesOf(main) == EveryOther(names, start, k, c, base)
      invariant OldNamesOf(main) == SavedEveryOther(names, olds, start, k)
      invariant IdsOf(main) == ids
    {
      RenameStep(main, start, k, c, prefixes, names, olds, base);
      k := k + 2;
    }
    EveryOtherDone(names, olds, start, k, c, base);
  }

  /** `RedundancyName` for the first m management NICs. */
  function RedundancySeries(m: nat): (r: seq<string>)
    ensures |r| == m
  {
    seq(m, p requires 0 <= p < m => RedundancyName(p))
  }

  /** Both loops of the re-indexing over the management NICs: the p-th of
      them ends up with `RedundancyName(p)`, its old name saved. */
  method ReindexMain(main: seq<Nic>, prefixes: PrefixIndexes)
    requires Distinct(main)
    requires forall c :: prefixes.Index(c) == 0
    modifies main, prefixes
    ensures NamesOf(main) == RedundancySeries(|main|)
    ensures OldNamesOf(main) == old(NamesOf(main))
    ensures IdsOf(main) == old(IdsOf(main))
  {
    ghost var names, olds := NamesOf(main), OldNamesOf(main);
    RenameEveryOther(main, 0, Mgmt, prefixes);
    ghost var mid := NamesOf(main);
    RenameEveryOther(main, 1, Sun, prefixes);
    forall p | 0 <= p < |main|
      ensures NamesOf(main)[p] == RedundancySeries(|main|)[p]
      ensures OldNamesOf(main)[p] == names[p]
    {
      assert mid[p] == EveryOther(names, 0, |main|, Mgmt, 0)[p];
    }
  }

  /** With at most two management names nothing is re-indexed. */
  lemma NothingReindexed(names: seq<string>, olds: seq<string>)
    requires |olds| == |names| && CountContaining(names, "mgmt") <= 2
    ensures RedundancyNames(names) == names
    ensures SavedNames(names, olds) == olds
  {
  }

  /** NICs that each hold the name the re-indexing gives their position
      hold the names `RedundancyNames` describes. */
  lemma RedundancyNamesHeld(nics: seq<Nic>, names: seq<string>)
    requires |names| == |nics| && CountContaining(names, "mgmt") > 2
    requires forall i :: 0 <= i < |nics| ==>
      nics[i].name == if IsMgmtName(names[i]) then RedundancyName(CountContaining(names[..i], "mgmt")) else names[i]
    ensures NamesOf(nics) == RedundancyNames(names)
  {
    forall i | 0 <= i < |nics| ensures NamesOf(nics)[i] == RedundancyNames(names)[i] {
    }
  }

  /** NICs whose old name is their former name exactly where it contains
      "mgmt", and whose ids are kept, hold the old names `SavedNames`
      describes. */
  lemma SavedNamesHeld(nics: seq<Nic>, names: seq<string>, olds: seq<string>, ids: seq<NicId>)
    requires |names| == |nics| && |olds| == |nics| && |ids| == |nics|
    requires CountContaining(names, "mgmt") > 2
    requires forall i :: 0 <= i < |nics| ==>
      nics[i].oldName == (if IsMgmtName(names[i]) then names[i] else olds[i]) && nics[i].Id() == ids[i]
    ensures OldNamesOf(nics) == SavedNames(names, olds)
    ensures IdsOf(nics) == ids
  {
    forall i | 0 <= i < |nics| ensures OldNamesOf(nics)[i] == SavedNames(names, olds)[i] {
      assert Reindexed(names, i) == IsMgmtName(names[i]);
    }
  }

  /** `pcie_redundancy_indexing`: renames, in place and through the name
      setter, the NICs whose name contains "mgmt" when there are more than
      two of them; returns the same list. */
  method PcieRedundancyIndexing(nics: seq<Nic>) returns (r: seq<Nic>)
    requires Distinct(nics)
    modifies nics
    ensures r == nics
    ensures NamesOf(nics) == RedundancyNames(old(NamesOf(nics)))
    ensures OldNamesOf(nics) == SavedNames(old(NamesOf(nics)), old(OldNamesOf(nics)))
    ensures IdsOf(nics) == old(IdsOf(nics))
  {
    ghost var names, olds, ids := NamesOf(nics), OldNamesOf(nics), IdsOf(nics);
    var prefixes := new PrefixIndexes();
    var main := MgmtNics(nics);
    if |main| <= 0 {
      NothingReindexed(names, olds);
      return nics;
    }
    if |main| <= 2 {
      NothingReindexed(names, olds);
      return nics;
    }
    ghost var mainNames, mainIds := NamesOf(main), IdsOf(main);
    MgmtNicsDistinct(nics);
    forall i | 0 <= i < |nics|
      ensures IsMgmtName(names[i]) ==>
        var p := CountContaining(names[..i], "mgmt");
        p < |main| && main[p] == nics[i] && mainNames[p] == names[i] && mainIds[p] == ids[i]
      ensures !IsMgmtName(names[i]) ==> nics[i] !in main
    {
      MgmtNicsPick(nics, i);
    }
    ReindexMain(main, prefixes);
    forall i | 0 <= i < |nics|
      ensures nics[i].name == if IsMgmtName(names[i]) then RedundancyName(CountContaining(names[..i], "mgmt")) else names[i]
      ensures nics[i].oldName == if IsMgmtName(names[i]) then names[i] else olds[i]
      ensures nics[i].Id() == ids[i]
    {
      if IsMgmtName(names[i]) {
        var p := CountContaining(names[..i], "mgmt");
        assert NamesOf(main)[p] == RedundancySeries(|main|)[p];
        assert OldNamesOf(main)[p] == mainNames[p] && IdsOf(main)[p] == mainIds[p];
      }
    }
    RedundancyNamesHeld(nics, names);
    SavedNamesHeld(nics, names, olds, ids);
    r := nics;
  }

  // ---------------------------------------------------------------------
  // get_new_names

  /** The key of `sorted(nics, key=lambda x: x.mac)`, on (view, NIC) pairs. */
  function MacKey(e: (NicView, Nic)): string {
    ViewMac(e.0)
  }

  function EntryView(e: (NicView, Nic)): NicView {
    e.0
  }

  /** The NICs of (view, NIC) pairs, in order. */
  function Seconds(entries: seq<(NicView, Nic)>): (nics: seq<Nic>)
    ensures |nics| == |entries|
  {
    seq(|entries|, i requires 0 <= i < |entries| => entries[i].1)
  }

  /** The pairs `sorted` orders: each NIC with its view. */
  function MacEntries(nics: seq<Nic>): (entries: seq<(NicView, Nic)>)
    reads nics
    ensures |entries| == |nics|
  {
    seq(|nics|, i requires 0 <= i < |nics| reads nics => (ViewOf(nics[i]), nics[i]))
  }

  /** `sorted(nics, key=lambda x: x.mac)`: the same NICs, ascending by their
      upper-case MAC. */
  function SortedByMac(nics: seq<Nic>): (sorted: seq<Nic>)
    requires Distinct(nics)
    reads nics
    ensures multiset(sorted) == multiset(nics) && Distinct(sorted) && |sorted| == |nics|
    ensures Sorted(Macs(IdsOf(sorted)))
  {
    var ordered := SortBy(MacEntries(nics), MacKey);
    assert |ordered| == |multiset(ordered)| == |multiset(MacEntries(nics))| == |nics|;
    SortedByMacMembers(nics, ordered);
    SortedByMacOrder(nics, ordered);
    Seconds(ordered)
  }

  /** The order depends on the MACs alone: the views of the sorted NICs are
      their views sorted by MAC. */
  lemma SortedByMacViews(nics: seq<Nic>)
    requires Distinct(nics)
    ensures ViewsOf(SortedByMac(nics)) == SortBy(ViewsOf(nics), ViewMac)
  {
    var entries := MacEntries(nics);
    var ordered := SortBy(entries, MacKey);
    SortByMap(entries, EntryView, MacKey, ViewMac);
    assert MapSeq(entries, EntryView) == ViewsOf(nics);
    var sorted := Seconds(ordered);
    forall k | 0 <= k < |ordered| ensures MapSeq(ordered, EntryView)[k] == ViewsOf(sorted)[k] {
      EntryOfNics(nics, ordered[k]);
    }
  }

  /** Each entry of the NICs pairs a NIC with its own view. */
  lemma EntryOfNics(nics: seq<Nic>, e: (NicView, Nic))
    requires e in multiset(MacEntries(nics))
    ensures e.0 == ViewOf(e.1)
  {
    var entries := MacEntries(nics);
    var j :| 0 <= j < |entries| && entries[j] == e;
  }

  /** `sorted` is stable: NICs with the same MAC keep the order they had. */
  lemma SortedByMacStable(nics: seq<Nic>, mac: string)
    requires Distinct(nics)
    ensures WithKey(ViewsOf(SortedByMac(nics)), ViewMac, mac) == WithKey(ViewsOf(nics), ViewMac, mac)
  {
    SortedByMacViews(nics);
    SortByStable(ViewsOf(nics), ViewMac, mac);
  }

  /** A reordering of the entries holds the same, distinct NICs. */
  lemma SortedByMacMembers(nics: seq<Nic>, ordered: seq<(NicView, Nic)>)
    requires Distinct(nics) && multiset(ordered) == multiset(MacEntries(nics))
    ensures multiset(Seconds(ordered)) == multiset(nics) && Distinct(Seconds(ordered))
  {
    var entries, sorted := MacEntries(nics), Seconds(ordered);
    assert |ordered| == |multiset(ordered)| == |multiset(entries)| == |entries|;
    DistinctPairs(nics);
    assert forall i, j :: 0 <= i < j < |entries| ==> entries[i].1 != entries[j].1;
    PermutationKeepsDistinct(entries, ordered);
    forall n | n in nics ensures n in sorted {
      var j :| 0 <= j < |nics| && nics[j] == n;
      assert entries[j] in multiset(ordered);
      var k :| 0 <= k < |ordered| && ordered[k] == entries[j];
      assert sorted[k] == n;
    }
    forall n | n in sorted ensures n in nics {
      var k :| 0 <= k < |sorted| && sorted[k] == n;
      assert ordered[k] in multiset(entries);
    }
    forall k | 0 <= k < |ordered| ensures ordered[k] == (ViewOf(sorted[k]), sorted[k]) {
      assert ordered[k] in multiset(entries);
    }
    PairsDistinct(sorted);
    forall n ensures multiset(sorted)[n] == multiset(nics)[n] {
      DistinctCount(sorted, n);
      DistinctCount(nics, n);
    }
    assert multiset(sorted) == multiset(nics);
  }

  /** Entries sorted by MAC give NICs sorted by MAC. */
  lemma SortedByMacOrder(nics: seq<Nic>, ordered: seq<(NicView, Nic)>)
    requires SortedBy(ordered, MacKey) && multiset(ordered) == multiset(MacEntries(nics))
    ensures Sorted(Macs(IdsOf(Seconds(ordered))))
  {
    var macs := Macs(IdsOf(Seconds(ordered)));
    forall k | 0 <= k < |ordered| ensures macs[k] == MacKey(ordered[k]) {
      assert ordered[k] in multiset(MacEntries(nics));
    }
  }

  /** `get_new_names`: sorts the NICs by MAC, names each, in that order, by
      its class, and applies the redundancy re-indexing. Every NIC keeps its
      identity; the names are `FinalNames` of the sorted identities; a
      re-indexed NIC's `old_name` is the counted name it had in between. */
  method GetNewNames(nics: seq<Nic>, hsnTable: seq<PciPair>, mgmtTable: seq<string>) returns (sorted: seq<Nic>)
    requires Distinct(nics)
    modifies nics
    ensures sorted == old(SortedByMac(nics))
    ensures multiset(sorted) == multiset(nics) && Distinct(sorted)
    ensures forall j :: 0 <= j < |sorted| ==> sorted[j] in nics
    ensures Sorted(Macs(IdsOf(sorted)))
    ensures IdsOf(sorted) == old(IdsOf(sorted))
    ensures NamesOf(sorted) == FinalNames(IdsOf(sorted), HsnKeys(hsnTable), MgmtKeys(mgmtTable))
    ensures OldNamesOf(sorted)
      == SavedNames(IndexedNames(Classify(IdsOf(sorted), HsnKeys(hsnTable), MgmtKeys(mgmtTable))), old(NamesOf(sorted)))
  {
    sorted := SortedByMac(nics);
    assert forall j :: 0 <= j < |sorted| ==> sorted[j] in multiset(nics);
    NameSorted(sorted, hsnTable, mgmtTable);
  }

  /** The naming half of `get_new_names`, on NICs already in MAC order:
      the class names, then the redundancy re-indexing. */
  method NameSorted(sorted: seq<Nic>, hsnTable: seq<PciPair>, mgmtTable: seq<string>)
    requires Distinct(sorted)
    modifies sorted
    ensures IdsOf(sorted) == old(IdsOf(sorted))
    ensures NamesOf(sorted) == FinalNames(IdsOf(sorted), HsnKeys(hsnTable), MgmtKeys(mgmtTable))
    ensures OldNamesOf(sorted)
      == SavedNames(IndexedNames(Classify(IdsOf(sorted), HsnKeys(hsnTable), MgmtKeys(mgmtTable))), old(NamesOf(sorted)))
  {
    NameByClass(sorted, HsnKeys(hsnTable), MgmtKeys(mgmtTable));
    var same := PcieRedundancyIndexing(sorted);
  }

  /** `get_new_names` as evidently intended: the same names, but every NIC
      remembers the kernel name it had when the call began, which is the
      name `_rename` must address. */
  method GetNewNamesKeepingKernelNames(nics: seq<Nic>, hsnTable: seq<PciPair>, mgmtTable: seq<string>)
    returns (sorted: seq<Nic>)
    requires Distinct(nics)
    modifies nics
    ensures sorted == old(SortedByMac(nics))
    ensures multiset(sorted) == multiset(nics) && Distinct(sorted)
    ensures forall j :: 0 <= j < |sorted| ==> sorted[j] in nics
    ensures Sorted(Macs(IdsOf(sorted)))
    ensures IdsOf(sorted) == old(IdsOf(sorted))
    ensures NamesOf(sorted) == FinalNames(IdsOf(sorted), HsnKeys(hsnTable), MgmtKeys(mgmtTable))
    ensures OldNamesOf(sorted) == old(NamesOf(sorted))
  {
    sorted := SortedByMac(nics);
    assert forall j :: 0 <= j < |sorted| ==> sorted[j] in multiset(nics);
    NameSortedKeepingKernelNames(sorted, hsnTable, mgmtTable);
  }

  /** `NameSorted`, then each NIC gets back as `old_name` the name it had
      before. */
  method NameSortedKeepingKernelNames(sorted: seq<Nic>, hsnTable: seq<PciPair>, mgmtTable: seq<string>)
    requires Distinct(sorted)
    modifies sorted
    ensures IdsOf(sorted) == old(IdsOf(sorted))
    ensures NamesOf(sorted) == FinalNames(IdsOf(sorted), HsnKeys(hsnTable), MgmtKeys(mgmtTable))
    ensures OldNamesOf(sorted) == old(NamesOf(sorted))
  {
    var kernel := KernelNames(sorted);
    NameSorted(sorted, hsnTable, mgmtTable);
    RestoreOldNames(sorted, kernel);
  }

  /** The names of the NICs, read before anything is renamed. */
  method KernelNames(nics: seq<Nic>) returns (names: seq<string>)
    ensures names == NamesOf(nics)
  {
    names := [];
    for i := 0 to |nics|
      invariant names == NamesOf(nics)[..i]
    {
      names := names + [nics[i].name];
    }
  }

  /** Gives each NIC of the list the remembered name at its position. */
  method RestoreOldNames(nics: seq<Nic>, kernel: seq<string>)
    requires Distinct(nics) && |kernel| == |nics|
    modifies nics
    ensures OldNamesOf(nics) == kernel
    ensures NamesOf(nics) == old(NamesOf(nics)) && IdsOf(nics) == old(IdsOf(nics))
  {
    for i := 0 to |nics|
      invariant OldNamesOf(nics)[..i] == kernel[..i]
      invariant NamesOf(nics) == old(NamesOf(nics)) && IdsOf(nics) == old(IdsOf(nics))
    {
      SetOldNameAt(nics, i, kernel[i]);
    }
    assert OldNamesOf(nics)[..|nics|] == OldNamesOf(nics);
  }

  /** `SetOldName` on the k-th NIC, seen from the whole list. */
  method SetOldNameAt(nics: seq<Nic>, k: nat, kernelName: string)
    requires Distinct(nics) && k < |nics|
    modifies nics[k]
    ensures OldNamesOf(nics) == old(OldNamesOf(nics))[k := kernelName]
    ensures NamesOf(nics) == old(NamesOf(nics)) && IdsOf(nics) == old(IdsOf(nics))
  {
    forall j | 0 <= j < |nics| && j != k ensures nics[j] != nics[k] {
      assert At(nics, j) == nics[j] && At(nics, k) == nics[k];
    }
    nics[k].SetOldName(kernelName);
  }

  /** The body of the classification loop of `get_new_names`: the NIC takes
      the next name of its class from `prefixes`. */
  method NameOne(nic: Nic, hsnIds: seq<string>, mgmtIds: seq<string>, prefixes: PrefixIndexes)
    modifies nic, prefixes
    ensures var c := ClassOf(old(nic.Id()), hsnIds, mgmtIds);
      && nic.name == IndexedName(c, old(prefixes.Index(c)))
      && forall d :: prefixes.Index(d) == old(prefixes.Index(d)) + (if d == c then 1 else 0)
    ensures nic.oldName == old(nic.name)
    ensures nic.rawMac == old(nic.rawMac) && nic.deviceId == old(nic.deviceId) && nic.vendorId == old(nic.vendorId)
  {
    var pciId := Strip(Lower(nic.vendorId + ":" + nic.deviceId));
    var name;
    if pciId in hsnIds {
      name := prefixes.Next(Hsn);
    } else if Lower(nic.vendorId) in mgmtIds {
      name := prefixes.Next(Mgmt);
    } else {
      name := prefixes.Next(Lan);
    }
    nic.SetName(name);
  }

  /** Counting over one more element of a prefix. */
  lemma CountStep(cs: seq<NicClass>, i: nat, c: NicClass)
    requires i < |cs|
    ensures Count(cs[..i + 1], c) == Count(cs[..i], c) + (if cs[i] == c then 1 else 0)
  {
    assert cs[..i + 1][..i] == cs[..i];
  }

  /** `NameOne` on the i-th NIC of a list, seen from the whole list. */
  method NameOneAt(sorted: seq<Nic>, i: nat, hsnIds: seq<string>, mgmtIds: seq<string>, prefixes: PrefixIndexes)
    requires Distinct(sorted) && i < |sorted|
    modifies sorted[i], prefixes
    ensures var c := ClassOf(old(sorted[i].Id()), hsnIds, mgmtIds);
      && sorted[i].name == IndexedName(c, old(prefixes.Index(c)))
      && forall d :: prefixes.Index(d) == old(prefixes.Index(d)) + (if d == c then 1 else 0)
    ensures NamesOf(sorted) == old(NamesOf(sorted))[i := sorted[i].name]
    ensures OldNamesOf(sorted) == old(OldNamesOf(sorted))[i := old(sorted[i].name)]
    ensures IdsOf(sorted) == old(IdsOf(sorted))
  {
    forall j | 0 <= j < |sorted| && j != i ensures sorted[j] != sorted[i] {
      assert At(sorted, i) == sorted[i] && At(sorted, j) == sorted[j];
    }
    NameOne(sorted[i], hsnIds, mgmtIds, prefixes);
  }

  /** One turn of the classification loop: the first `i` NICs carry their
      counted names and remember their earlier ones; afterwards `i + 1` do. */
  method NameStep(sorted: seq<Nic>, i: nat, hsnIds: seq<string>, mgmtIds: seq<string>, prefixes: PrefixIndexes,
                  ghost classes: seq<NicClass>, ghost pre: seq<string>)
    requires Distinct(sorted) && i < |sorted| == |pre|
    requires classes == Classify(IdsOf(sorted), hsnIds, mgmtIds)
    requires NamesOf(sorted) == IndexedNames(classes[..i]) + pre[i..]
    requires OldNamesOf(sorted)[..i] == pre[..i]
    requires forall c :: prefixes.Index(c) == Count(classes[..i], c)
    modifies sorted[i], prefixes
    ensures IdsOf(sorted) == old(IdsOf(sorted))
    ensures NamesOf(sorted) == IndexedNames(classes[..i + 1]) + pre[i + 1..]
    ensures OldNamesOf(sorted)[..i + 1] == pre[..i + 1]
    ensures forall c :: prefixes.Index(c) == Count(classes[..i + 1], c)
  {
    ghost var names := IndexedNames(classes[..i]);
    ghost var olds := OldNamesOf(sorted);
    assert sorted[i].name == NamesOf(sorted)[i] == (names + pre[i..])[i] == pre[i];
    assert classes[i] == ClassOf(IdsOf(sorted)[i], hsnIds, mgmtIds);
    NameOneAt(sorted, i, hsnIds, mgmtIds, prefixes);
    forall c ensures prefixes.Index(c) == Count(classes[..i + 1], c) {
      CountStep(classes, i, c);
    }
    UpdateAtBoundary(names, pre, sorted[i].name);
    IndexedNamesSnoc(classes, i);
    UpdateOnPrefix(olds, pre, i);
  }

  /** The classification loop of `get_new_names`: each NIC, in list order,
      takes the next name of its class. */
  method NameByClass(sorted: seq<Nic>, hsnIds: seq<string>, mgmtIds: seq<string>)
    requires Distinct(sorted)
    modifies sorted
    ensures IdsOf(sorted) == old(IdsOf(sorted))
    ensures NamesOf(sorted) == IndexedNames(Classify(IdsOf(sorted), hsnIds, mgmtIds))
    ensures OldNamesOf(sorted) == old(NamesOf(sorted))
  {
    var prefixes := new PrefixIndexes();
    ghost var ids := IdsOf(sorted);
    ghost var pre := NamesOf(sorted);
    ghost var classes := Classify(ids, hsnIds, mgmtIds);
    for i := 0 to |sorted|
      invariant IdsOf(sorted) == ids
      invariant NamesOf(sorted) == IndexedNames(classes[..i]) + pre[i..]
      invariant OldNamesOf(sorted)[..i] == pre[..i]
      invariant forall c :: prefixes.Index(c) == Count(classes[..i], c)
    {
      NameStep(sorted, i, hsnIds, mgmtIds, prefixes, classes, pre);
    }
    assert classes[..|sorted|] == classes;
    assert pre[|sorted|..] == [];
    assert OldNamesOf(sorted)[..|sorted|] == OldNamesOf(sorted);
  }

  /** Overwriting the element just past an agreed prefix extends it. */
  lemma UpdateOnPrefix<T>(xs: seq<T>, pre: seq<T>, i: nat)
    requires i < |xs| == |pre| && xs[..i] == pre[..i]
    ensures xs[i := pre[i]][..i + 1] == pre[..i + 1]
  {
    assert forall j :: 0 <= j < i ==> xs[..i][j] == pre[..i][j];
  }

  lemma UpdateAtBoundary<T>(done: seq<T>, rest: seq<T>, x: T)
    requires |done| < |rest|
    ensures (done + rest[|done|..])[|done| := x] == (done + [x]) + rest[|done| + 1..]
  {
  }

  /** The counter names of one more element. */
  lemma IndexedNamesSnoc(cs: seq<NicClass>, i: nat)
    requires i < |cs|
    ensures IndexedNames(cs[..i + 1]) == IndexedNames(cs[..i]) + [IndexedName(cs[i], Count(cs[..i], cs[i]))]
  {
    var a, b := IndexedNames(cs[..i + 1]), IndexedNames(cs[..i]) + [IndexedName(cs[i], Count(cs[..i], cs[i]))];
    forall j | 0 <= j < i + 1 ensures a[j] == b[j] {
      assert cs[..i + 1][..j] == cs[..j];
      if j < i {
        assert cs[..i][..j] == cs[..j];
      }
    }
  }
}
