/** The eight NICs of the `ifname` test fixture (a Cray Slingshot pair, two
    on-board Intel ports and two dual-port Mellanox cards), in MAC order,
    with the hsn table holding `17db:0501` and the mgmt table `15b3`. */
module IfnameFixture {
  import opened Text
  import opened Ifname

  /** The hsn table of the fixture: the Slingshot `17db:0501`. */
  function FixtureHsnKeys(): seq<string> {
    HsnKeys([PciPair("17db", "0501")])
  }

  /** The mgmt table of the fixture: Mellanox, vendor `15b3`. */
  function FixtureMgmtKeys(): seq<string> {
    MgmtKeys(["15b3"])
  }

  /** The identity of each fixture NIC, named after its kernel name: the
      MAC upper-cased and the PCI id split, as the NIC constructor and the
      uevent reader leave them. */
  const EM1 := NicId("A4:BF:01:38:F1:40", "37D2", "8086")
  const EM2 := NicId("A4:BF:01:38:F1:41", "37D2", "8086")
  const P801P1 := NicId("B8:59:9F:FE:49:D5", "1013", "15B3")
  const P801P2 := NicId("B8:59:9F:FE:49:D7", "1013", "15B3")
  const P795P1 := NicId("B8:59:9F:FE:50:00", "1013", "15B3")
  const P795P2 := NicId("B8:59:9F:FE:50:01", "1013", "15B3")
  const P1P1 := NicId("00:40:A6:86:D7:66", "0501", "17DB")
  const P1P2 := NicId("00:40:A6:86:D7:B0", "0501", "17DB")

  /** The fixture's identities in the order the test lists its NICs. */
  function TestOrderIds(): seq<NicId> {
    [EM1, P801P1, EM2, P801P2, P795P1, P795P2, P1P1, P1P2]
  }

  /** The MAC an identity is sorted by. */
  function IdMac(id: NicId): string {
    id.mac
  }

  /** The fixture's identities sorted by MAC: p1p1, p1p2, em1, em2, p801p1,
      p801p2, p795p1, p795p2 (`FixtureSortedFromTestOrder` derives this
      order from the test's). */
  function FixtureIds(): seq<NicId> {
    [P1P1, P1P2, EM1, EM2, P801P1, P801P2, P795P1, P795P2]
  }

  /** Two neighbouring fixture MACs that agree up to a character where the
      first is smaller are in order and different. */
  lemma NeighboursInOrder(k: nat, p: string, x: string, y: string)
    requires k < |FixtureIds()| - 1
    requires FixtureIds()[k].mac == p + x && FixtureIds()[k + 1].mac == p + y
    requires |x| > 0 && |y| > 0 && x[0] < y[0]
    ensures LexLe(IdMac(FixtureIds()[k]), IdMac(FixtureIds()[k + 1]))
    ensures IdMac(FixtureIds()[k]) != IdMac(FixtureIds()[k + 1])
  {
    LexLeCommonPrefix(p, x, y);
    assert (p + x)[|p|] != (p + y)[|p|];
  }

  /** The fixture's MACs are strictly increasing. */
  lemma FixtureMacsIncrease()
    ensures SortedBy(FixtureIds(), IdMac)
    ensures forall i, j :: 0 <= i < j < |FixtureIds()| ==> IdMac(FixtureIds()[i]) != IdMac(FixtureIds()[j])
  {
    forall k | 0 <= k < |FixtureIds()| - 1
      ensures LexLe(IdMac(FixtureIds()[k]), IdMac(FixtureIds()[k + 1]))
      ensures IdMac(FixtureIds()[k]) != IdMac(FixtureIds()[k + 1])
    {
      if k == 0 {
        NeighboursInOrder(k, "00:40:A6:86:D7:", "66", "B0");
      } else if k == 1 {
        NeighboursInOrder(k, "", "00:40:A6:86:D7:B0", "A4:BF:01:38:F1:40");
      } else if k == 2 {
        NeighboursInOrder(k, "A4:BF:01:38:F1:4", "0", "1");
      } else if k == 3 {
        NeighboursInOrder(k, "", "A4:BF:01:38:F1:41", "B8:59:9F:FE:49:D5");
      } else if k == 4 {
        NeighboursInOrder(k, "B8:59:9F:FE:49:D", "5", "7");
      } else if k == 5 {
        NeighboursInOrder(k, "B8:59:9F:FE:", "49:D7", "50:00");
      } else {
        assert k == 6;
        NeighboursInOrder(k, "B8:59:9F:FE:50:0", "0", "1");
      }
    }
    SortedByOfNeighbours(FixtureIds(), IdMac);
  }

  /** Sorting the test's NICs by MAC, as `get_new_names` does, gives the
      fixture order. */
  lemma FixtureSortedFromTestOrder()
    ensures SortBy(TestOrderIds(), IdMac) == FixtureIds()
  {
    FixturePermutation();
    FixtureMacsIncrease();
    SortByIsTheSorted(TestOrderIds(), FixtureIds(), IdMac);
  }

  /** The test's order and the MAC order list the same identities. */
  lemma FixturePermutation()
    ensures multiset(TestOrderIds()) == multiset(FixtureIds())
  {
    ReorderedPairs(P1P1, P1P2, EM1, EM2, P801P1, P801P2, P795P1, P795P2);
  }

  /** Moving the first pair to the back and interleaving the next two pairs
      keeps the same elements. */
  lemma ReorderedPairs<T>(a: T, b: T, c: T, d: T, e: T, f: T, g: T, h: T)
    ensures multiset([c, e, d, f, g, h, a, b]) == multiset([a, b, c, d, e, f, g, h])
  {
    Regrouped(a, b, c, d, e, f, g, h);
    RotatedSameElements([a, b], [c, d, e, f, g, h]);
    SwappedSameElements([c], d, e, [f, g, h, a, b]);
  }

  /** The regroupings `ReorderedPairs` steps through. */
  lemma Regrouped<T>(a: T, b: T, c: T, d: T, e: T, f: T, g: T, h: T)
    ensures [a, b, c, d, e, f, g, h] == [a, b] + [c, d, e, f, g, h]
    ensures [c, d, e, f, g, h] + [a, b] == [c] + [d, e] + [f, g, h, a, b]
    ensures [c, e, d, f, g, h, a, b] == [c] + [e, d] + [f, g, h, a, b]
  {
  }

  /** Rotating a sequence keeps its elements. */
  lemma RotatedSameElements<T>(x: seq<T>, y: seq<T>)
    ensures multiset(x + y) == multiset(y + x)
  {
    assert multiset(x + y) == multiset(x) + multiset(y);
  }

  /** Swapping two neighbours keeps the elements. */
  lemma SwappedSameElements<T>(p: seq<T>, d: T, e: T, q: seq<T>)
    ensures multiset(p + [d, e] + q) == multiset(p + [e, d] + q)
  {
    assert multiset([d, e]) == multiset([e, d]);
  }

  /** Lower-casing leaves a string without capitals as it is. */
  lemma LowerKeeps(s: string)
    requires forall i :: 0 <= i < |s| ==> !('A' <= s[i] <= 'Z')
    ensures Lower(s) == s
  {
  }

  /** Stripping leaves a string that neither starts nor ends with
      whitespace as it is. */
  lemma StripKeeps(s: string)
    requires |s| > 0 && !IsSpace(s[0]) && !IsSpace(s[|s| - 1])
    ensures Strip(s) == s
  {
  }

  lemma FixtureKeys()
    ensures FixtureHsnKeys() == ["17db:0501"] && FixtureMgmtKeys() == ["15b3"]
  {
    var pair := "17db" + ":" + "0501";
    assert pair == "17db:0501";
    LowerKeeps(pair);
    LowerKeeps("15b3");
    assert HsnKeys([PciPair("17db", "0501")])[0] == Lower(pair);
    assert MgmtKeys(["15b3"])[0] == Lower("15b3");
  }

  /** The Slingshot NICs match the hsn table. */
  lemma SlingshotIsHsn(mac: string)
    ensures ClassOf(NicId(mac, "0501", "17DB"), FixtureHsnKeys(), FixtureMgmtKeys()) == Hsn
  {
    FixtureKeys();
    var pair := "17DB" + ":" + "0501";
    assert pair == "17DB:0501";
    assert Lower(pair) == "17db:0501";
    StripKeeps("17db:0501");
  }

  /** The Intel NICs are in neither table. */
  lemma IntelIsLan(mac: string)
    ensures ClassOf(NicId(mac, "37D2", "8086"), FixtureHsnKeys(), FixtureMgmtKeys()) == Lan
  {
    FixtureKeys();
    assert Lower("8086:37D2")[0] == '8';
    LowerKeeps("8086");
  }

  /** The Mellanox NICs are not hsn, and their vendor is in the mgmt table. */
  lemma MellanoxIsMgmt(mac: string)
    ensures ClassOf(NicId(mac, "1013", "15B3"), FixtureHsnKeys(), FixtureMgmtKeys()) == Mgmt
  {
    FixtureKeys();
    assert Lower("15B3:1013") == "15b3:1013";
    StripKeeps("15b3:1013");
    assert Lower("15B3") == "15b3";
  }

  /** The fixture's three kinds of card fall into hsn, lan and mgmt. */
  lemma FixtureClasses()
    ensures Classify(FixtureIds(), FixtureHsnKeys(), FixtureMgmtKeys())
      == FixtureClassList()
  {
    var ids, cs := FixtureIds(), FixtureClassList();
    forall i | 0 <= i < |ids| ensures ClassOf(ids[i], FixtureHsnKeys(), FixtureMgmtKeys()) == cs[i] {
      if i < 2 {
        SlingshotIsHsn(ids[i].mac);
      } else if i < 4 {
        IntelIsLan(ids[i].mac);
      } else {
        MellanoxIsMgmt(ids[i].mac);
      }
    }
    ClassifyPointwise(ids, FixtureHsnKeys(), FixtureMgmtKeys(), cs);
  }

  lemma ClassifyPointwise(ids: seq<NicId>, hsnKeys: seq<string>, mgmtKeys: seq<string>, cs: seq<NicClass>)
    requires |ids| == |cs|
    requires forall i :: 0 <= i < |ids| ==> ClassOf(ids[i], hsnKeys, mgmtKeys) == cs[i]
    ensures Classify(ids, hsnKeys, mgmtKeys) == cs
  {
  }

  function FixtureClassList(): seq<NicClass> {
    [Hsn, Hsn, Lan, Lan, Mgmt, Mgmt, Mgmt, Mgmt]
  }

  function FixtureCountedNames(): seq<string> {
    ["hsn0", "hsn1", "lan0", "lan1", "mgmt0", "mgmt1", "mgmt2", "mgmt3"]
  }

  /** How many NICs of its own class come before each fixture NIC. */
  lemma FixtureCounts()
    ensures var cs := FixtureClassList();
      && Count(cs[..0], Hsn) == 0 && Count(cs[..1], Hsn) == 1
      && Count(cs[..2], Lan) == 0 && Count(cs[..3], Lan) == 1
      && Count(cs[..4], Mgmt) == 0 && Count(cs[..5], Mgmt) == 1
      && Count(cs[..6], Mgmt) == 2 && Count(cs[..7], Mgmt) == 3
  {
    var cs := FixtureClassList();
    assert cs[..0] == [];
    CountStep(cs, 0, Hsn);
    CountStep(cs, 0, Lan);
    CountStep(cs, 1, Lan);
    CountStep(cs, 2, Lan);
    CountStep(cs, 0, Mgmt);
    CountStep(cs, 1, Mgmt);
    CountStep(cs, 2, Mgmt);
    CountStep(cs, 3, Mgmt);
    CountStep(cs, 4, Mgmt);
    CountStep(cs, 5, Mgmt);
    CountStep(cs, 6, Mgmt);
  }

  /** The per-class counters give hsn0, hsn1, lan0, lan1 and mgmt0 … mgmt3. */
  lemma FixtureCounted()
    ensures IndexedNames(FixtureClassList()) == FixtureCountedNames()
  {
    var cs, names := FixtureClassList(), FixtureCountedNames();
    var ks: seq<nat> := [0, 1, 0, 1, 0, 1, 2, 3];
    FixtureCounts();
    forall i | 0 <= i < 8 ensures IndexedNames(cs)[i] == names[i] {
      assert Count(cs[..i], cs[i]) == ks[i];
      assert NatToStr(ks[i]) == [DigitChar(ks[i])];
    }
  }

  /** Of the counted fixture names exactly the last four contain "mgmt". */
  lemma FixtureMgmtNames()
    ensures forall i :: 0 <= i < 8 ==> (IsMgmtName(FixtureCountedNames()[i]) <==> i >= 4)
  {
    var names, cs := FixtureCountedNames(), FixtureClassList();
    var ks: seq<nat> := [0, 1, 0, 1, 0, 1, 2, 3];
    forall i | 0 <= i < 8 ensures IsMgmtName(names[i]) <==> i >= 4 {
      assert NatToStr(ks[i]) == [DigitChar(ks[i])];
      assert names[i] == IndexedName(cs[i], ks[i]);
      IndexedNameSubstrings(cs[i], ks[i]);
    }
  }

  /** How many management names come before each position. */
  lemma FixtureMgmtCounts()
    ensures var names := FixtureCountedNames();
      forall k :: 4 <= k <= 8 ==> CountContaining(names[..k], "mgmt") == k - 4
  {
    var names := FixtureCountedNames();
    FixtureMgmtNames();
    assert names[..0] == [];
    CountContainingStep(names, 1, "mgmt");
    CountContainingStep(names, 2, "mgmt");
    CountContainingStep(names, 3, "mgmt");
    CountContainingStep(names, 4, "mgmt");
    CountContainingStep(names, 5, "mgmt");
    CountContainingStep(names, 6, "mgmt");
    CountContainingStep(names, 7, "mgmt");
    CountContainingStep(names, 8, "mgmt");
  }

  /** With four management NICs the re-indexing spreads them over the two
      cards: mgmt0, sun0, mgmt1, sun1. */
  lemma FixtureReindexed()
    ensures RedundancyNames(FixtureCountedNames())
      == ["hsn0", "hsn1", "lan0", "lan1", "mgmt0", "sun0", "mgmt1", "sun1"]
  {
    var names := FixtureCountedNames();
    var want := ["hsn0", "hsn1", "lan0", "lan1", "mgmt0", "sun0", "mgmt1", "sun1"];
    FixtureMgmtNames();
    FixtureMgmtCounts();
    assert names[..8] == names;
    assert NatToStr(0) == "0" && NatToStr(1) == "1";
    assert RedundancyName(0) == "mgmt0" && RedundancyName(1) == "sun0";
    assert RedundancyName(2) == "mgmt1" && RedundancyName(3) == "sun1";
    forall i | 0 <= i < 8 ensures RedundancyNames(names)[i] == want[i] {
      if i >= 4 {
        assert IsMgmtName(names[i]) && CountContaining(names[..i], "mgmt") == i - 4;
        assert RedundancyName(i - 4) == want[i];
      } else {
        assert !IsMgmtName(names[i]);
      }
    }
  }

  /** `get_new_names` on the fixture: the names the test expects of it. */
  lemma FixtureNames()
    ensures FinalNames(FixtureIds(), FixtureHsnKeys(), FixtureMgmtKeys())
      == ["hsn0", "hsn1", "lan0", "lan1", "mgmt0", "sun0", "mgmt1", "sun1"]
  {
    FixtureClasses();
    FixtureCounted();
    FixtureReindexed();
  }

  /** The fixture's kernel names, in MAC order. */
  function FixtureKernelNames(): seq<string> {
    ["p1p1", "p1p2", "em1", "em2", "p801p1", "p801p2", "p795p1", "p795p2"]
  }

  /** `get_new_names` as written on the fixture: the four Mellanox NICs are
      named twice, so each remembers its counted name (mgmt0 … mgmt3) and
      not its kernel name, which `_rename` then never addresses. */
  lemma FixtureSavedNamesAsWritten()
    ensures SavedNames(IndexedNames(Classify(FixtureIds(), FixtureHsnKeys(), FixtureMgmtKeys())), FixtureKernelNames())
      == ["p1p1", "p1p2", "em1", "em2", "mgmt0", "mgmt1", "mgmt2", "mgmt3"]
  {
    var names := FixtureCountedNames();
    FixtureClasses();
    FixtureCounted();
    FixtureMgmtNames();
    FixtureMgmtCounts();
    assert names[..8] == names;
    var saved := SavedNames(names, FixtureKernelNames());
    forall i | 0 <= i < 8 ensures saved[i] == ["p1p1", "p1p2", "em1", "em2", "mgmt0", "mgmt1", "mgmt2", "mgmt3"][i] {
      assert Reindexed(names, i) <==> i >= 4;
    }
  }
}
