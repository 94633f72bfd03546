# crucible network core, in Dafny

This project models the part of crucible that names and configures network
interfaces on a host. crucible is a Python command-line tool.

- **Interface naming** (`crucible/network/ifname.py`):
  - every NIC the kernel knows is read from `ethtool` and its `uevent` file (`map_nics`);
  - NICs are sorted by MAC and classified as high-speed (`hsn`), management (`mgmt`) or LAN (`lan`) from the vendor and device tables;
  - each class is numbered with its own counter (`PrefixIndexes`);
  - with more than two management NICs, those NICs are re-indexed so that they alternate `mgmt`/`sun` across PCIe cards (`pcie_redundancy_indexing`);
  - the links are renamed with `ip link` (`_rename`);
  - the udev rules are written, sorted or merged (`write_udev_rules`).
- **Legacy interface naming**: the earlier `crucible/ifname.py`, which counts prefixes in a dictionary and raises `KeyError` for a prefix the table does not list.
- **Network managers**:
  - the interface and system records (`manager.py`): CIDR parsing with its `0.0.0.0/0` fallback, the gateway as the network's second address, the VLAN range check, bond and bridge names, and DNS/search lists;
  - the wicked back end (`sysconfig.py`): regex rewriting of the `NETCONFIG_DNS_STATIC_*` lines, `ifcfg`/`ifroute` files and reloads;
  - the NetworkManager back end (`networkmanager.py`): the `nmcli connection add` argument lists for plain, VLAN and bond interfaces and their members;
  - the command flow of `config.py`: choosing a back end from `systemctl show`, the bond/bridge members check, and the defer/remove/write/reload decisions.
- **Disk install** (`crucible/install.py`): the RAID level, storage size and disk-count checks in front of the install script.

The system's surroundings are modelled as follows:

- **Commands**: a `Host.Runner` records every argument list it is given (`trace`). It answers each one through a `reply` function of the command's position and arguments, so any deterministic host can be described.
- **Files**: a `Host.FileSystem` holds a map from path to content and a log of writes and unlinks.
- **Inputs**: prompts, YAML tables, template renderings and the device list are parameters.
- **Results**: Python exceptions and `sys.exit` are results (`Outcome`, `Result`).

The NIC objects, the prefix counters, the interface and the system network are classes whose methods update their fields in place. Parsing, naming and classification are functions, with lemmas stating their properties.

The model follows the code where the documented behaviour and the code differ. In particular, `_rename` logs when a NIC already has its target name, but it still issues every command (`crucible/network/ifname.py:228-229`). `IfnameHost.Run` and `Config.ConfigureInterface` do what the code does, including the defects listed under Findings; the corrected behaviour is modelled beside them under its own names.

Files are read as Python reads them in text mode: `\r\n` and a lone `\r` end a line and are read as `\n` (`Text.ReadText`).

## Model

| member | source | states |
|---|---|---|
| Ifname.IndexedNameInjective | crucible/network/ifname.py:61-101 | a counter-issued name determines its class and its number: two equal names come from the same class at the same count |
| Ifname.IndexedNameSubstrings | crucible/network/ifname.py:457 | a counter-issued name contains "mgmt" exactly when it is a management name and "sun" exactly when it is a storage-utility name, which is what the `in nic.name` filter relies on |
| Ifname.DifferentClassesDifferentNames | crucible/network/ifname.py:61-64 | names from two different prefixes never collide, whatever their numbers |
| Ifname.PrefixIndexes.constructor | crucible/network/ifname.py:66-73 | a fresh set of counters starts every class at 0 |
| Ifname.PrefixIndexes.Next | crucible/network/ifname.py:75-101 | reading a class's property yields its prefix followed by that class's current count, advances that class by one and leaves the other three counters alone |
| Ifname.Nic.constructor | crucible/network/ifname.py:114-132 | name, MAC, device id and vendor id are stored stripped of surrounding whitespace, and the old name starts empty |
| Ifname.Nic.SetName | crucible/network/ifname.py:155-162 | assigning a name remembers the previous name as old_name and changes nothing else |
| Ifname.StripDropsTrailingNewline | crucible/network/ifname.py:129-132 | the trailing newline that ethtool and uevent values carry is gone after the constructor's strip |
| Ifname.ToStringFields | crucible/network/ifname.py:164-175 | the string form is the name, a colon and the upper-case MAC, so splitting at ':' gives the name back when it has no colon |
| Ifname.EqualsIgnoresMacCase | crucible/network/ifname.py:134-146 | two NICs are equal exactly when their names and ids agree and their MACs agree up to letter case (equality compares the upper-cased MAC, and old_name plays no part), so equality is an equivalence |
| Ifname.Classify | crucible/network/ifname.py:393-400 | classification gives one class per NIC and never hands out the storage-utility class |
| Ifname.IndexedNamesDistinct | crucible/network/ifname.py:393-400 | naming a list in order through one set of counters never gives two NICs the same name |
| Ifname.IndexedNamesGapless | crucible/network/ifname.py:393-400 | each class is numbered without gaps: every number below the count of a class is the name of some NIC of that class |
| Ifname.RedundancyNameShape | crucible/network/ifname.py:472-475 | the p-th management NIC is named mgmt exactly when p is even and sun exactly when p is odd |
| Ifname.RedundancyNamesDiffer | crucible/network/ifname.py:472-475 | two management NICs at different positions never receive the same re-indexed name |
| Ifname.RedundancyBalance | crucible/network/ifname.py:456-476 | with m > 2 management names and no sun names, re-indexing leaves (m+1)/2 mgmt names and m/2 sun names, so the two networks differ in size by at most one |
| Ifname.NothingReindexed | crucible/network/ifname.py:458-466 | with two or fewer management names, neither the names nor the old names change |
| Ifname.MgmtPositions | crucible/network/ifname.py:457 | `main_nics` are the positions, in list order, of exactly the names containing "mgmt" |
| Ifname.MgmtPositionsRank | crucible/network/ifname.py:457 | a management NIC's place in `main_nics` is the number of management names before it |
| Ifname.RenameEveryOther | crucible/network/ifname.py:472-475 | one slice loop: from the start index, every other management NIC takes the next name of the class, its previous name becomes its old name, and the other counters and the NIC ids are unchanged |
| Ifname.ReindexMain | crucible/network/ifname.py:472-475 | both slice loops together: the p-th management NIC ends up with the p-th name of the mgmt/sun alternation and remembers the name it had |
| Ifname.PcieRedundancyIndexing | crucible/network/ifname.py:404-476 | the same list comes back; names become the redundancy names of the old names; re-indexed NICs remember the name they had and the others keep their old name; MACs and ids are untouched |
| Ifname.FinalNamesDistinct | crucible/network/ifname.py:378-401 | after classification, counting and re-indexing, all NIC names are pairwise distinct |
| Ifname.SortedByMac | crucible/network/ifname.py:387 | the sorted list is a permutation of the NICs, without repeats, in ascending order of MAC |
| Ifname.SortedByMacViews | crucible/network/ifname.py:387 | the order depends only on the NICs' MACs: the sorted NICs, seen as values, are the NICs' values sorted by MAC |
| Ifname.SortedByMacStable | crucible/network/ifname.py:387 | `sorted` is stable: NICs with the same MAC come out in the order they went in |
| Text.SortBy | crucible/network/ifname.py:387 | the sort gives a list ordered by the key and a permutation of its input |
| Text.InsertBySorted | crucible/network/ifname.py:387 | one insertion step keeps a sorted list sorted and adds exactly the inserted element |
| Text.InsertByAt | crucible/network/ifname.py:387 | an insertion puts the element at one position and leaves the order of the others alone |
| Text.SortByStable | crucible/network/ifname.py:387 | for every key, the elements with that key come out of the sort in their input order |
| Text.SortByMap | crucible/network/ifname.py:387 | sorting commutes with a map that keeps the key, so the result depends only on the keys and the input order |
| Text.SortedByUnique | crucible/network/ifname.py:387 | when the keys are distinct, there is only one ordering of a collection by that key |
| Text.SortByIsTheSorted | crucible/network/ifname.py:387 | when the keys are distinct, sorting gives the one ordered permutation of its input |
| Ifname.NameOne | crucible/network/ifname.py:393-400 | a NIC takes the next name of its class (hsn when its lower-cased stripped vendor:device is in the hsn table, else mgmt when its lower-cased vendor is in the mgmt table, else lan); only that counter advances; the previous name is kept as old_name |
| Ifname.NameByClass | crucible/network/ifname.py:389-400 | the naming loop gives every NIC the counted name of its class in list order, and each NIC's old name is the name it had before |
| Ifname.GetNewNames | crucible/network/ifname.py:378-401 | as written: the result is the stable MAC sort of the NICs; their names are the final names of their ids; re-indexed NICs keep the counted name (for example mgmt2) as their old name instead of the kernel name |
| Ifname.GetNewNamesKeepingKernelNames | crucible/network/ifname.py:378-401 | as intended: the same NICs in the same order with the same names as get_new_names, but every NIC's old name is its kernel name |
| IfnameFixture.FixtureKeys | crucible/network/ifname.py:390-392 | for the test tables the hsn key list is ["17db:0501"] and the mgmt key list is ["15b3"] |
| IfnameFixture.FixtureMacsIncrease | crucible/tests/network/test_ifname.py:129-178 | the fixture identities are in strictly increasing MAC order |
| IfnameFixture.FixturePermutation | crucible/tests/network/test_ifname.py:129-178 | the test's order and the sorted order hold the same NIC identities |
| IfnameFixture.FixtureSortedFromTestOrder | crucible/network/ifname.py:387 | sorting the test's NICs by MAC gives p1p1, p1p2, em1, em2, p801p1, p801p2, p795p1, p795p2, the order the other fixture lemmas start from |
| IfnameFixture.SlingshotIsHsn | crucible/tests/network/test_ifname.py:129-178 | a Slingshot NIC (17DB:0501) is high-speed, whatever its MAC |
| IfnameFixture.IntelIsLan | crucible/tests/network/test_ifname.py:129-178 | an Intel NIC (8086:37D2) is LAN, whatever its MAC |
| IfnameFixture.MellanoxIsMgmt | crucible/tests/network/test_ifname.py:129-178 | a Mellanox NIC (15B3:1013) is management, whatever its MAC |
| IfnameFixture.FixtureClasses | crucible/tests/network/test_ifname.py:129-178 | the eight sorted fixture NICs classify as hsn, hsn, lan, lan, then mgmt four times |
| IfnameFixture.FixtureCounted | crucible/tests/network/test_ifname.py:257-272 | counting gives hsn0, hsn1, lan0, lan1, mgmt0, mgmt1, mgmt2, mgmt3 |
| IfnameFixture.FixtureReindexed | crucible/tests/network/test_ifname.py:257-272 | re-indexing those names gives hsn0, hsn1, lan0, lan1, mgmt0, sun0, mgmt1, sun1 |
| IfnameFixture.FixtureNames | crucible/tests/network/test_ifname.py:257-272 | get_new_names names the fixture hsn0, hsn1, lan0, lan1, mgmt0, sun0, mgmt1, sun1, the expected new names of the test |
| IfnameFixture.FixtureSavedNamesAsWritten | crucible/network/ifname.py:472-475 | as written, the four Mellanox NICs end up with old names mgmt0 to mgmt3 instead of their kernel names |
| IfnameHost.ParseMacOfEthtool | crucible/network/ifname.py:190-191 | the MAC is read back from ethtool's "Permanent address: <mac>" line, together with the line's final newline |
| IfnameHost.PciIdValueFirst | crucible/network/ifname.py:193-201 | the PCI id is the text after the last '=' of the first uevent line that starts with PCI_ID |
| IfnameHost.PciIdValueMissing | crucible/network/ifname.py:193 | a uevent without a PCI_ID line leaves the PCI id empty |
| IfnameHost.ParsePciId | crucible/network/ifname.py:202 | unpacking succeeds exactly when the id splits at ':' into two pieces, and then the pieces joined by ':' give the id back; otherwise it raises ValueError |
| IfnameHost.ParsePciIdEmpty | crucible/network/ifname.py:193-202 | an empty PCI id, as left by a uevent without PCI_ID, raises ValueError |
| IfnameHost.ParsePciIdRoundTrip | crucible/network/ifname.py:202 | an id written as vendor:device without further colons unpacks to that vendor and device |
| IfnameHost.ReadNic | crucible/network/ifname.py:189-209 | reading one device succeeds exactly when its PCI id unpacks, and then it gives the device name and ethtool's MAC; a failure is a ValueError |
| IfnameHost.MapNics | crucible/network/ifname.py:178-218 | an unsupported platform gives no NICs and runs nothing; otherwise ethtool runs once per device in order; a failure is a ValueError after the commands up to the failing device; success gives one new, distinct NIC per device built from its record |
| IfnameHost.ScanDevices | crucible/network/ifname.py:188-209 | the reading loop issues one ethtool call per device read and stops at the first device that cannot be read |
| IfnameHost.BuildNics | crucible/network/ifname.py:210-217 | one new NIC per record, all distinct, each built from its record's stripped fields |
| IfnameHost.ReadDevice | crucible/network/ifname.py:190 | one ethtool -P call per device, whose output is what the record is read from |
| IfnameHost.DownOnlyWhenUp | crucible/network/ifname.py:232-247 | a link is taken down only when `ip link show` succeeded and reported UP |
| IfnameHost.RenameTriedUnlessDownFailed | crucible/network/ifname.py:232-268 | the rename is attempted exactly unless the link was up and taking it down failed, so it is attempted even when show failed |
| IfnameHost.UpOnlyAfterDownAndRename | crucible/network/ifname.py:232-284 | the link is brought up again exactly when it was up and both the down and the rename succeeded |
| IfnameHost.EveryNicShown | crucible/network/ifname.py:226-232 | every NIC's link is shown, whatever happened to the NICs before it |
| IfnameHost.RenameNic | crucible/network/ifname.py:226-293 | the commands for one NIC are the show/down/rename/up chain that the replies lead to, with the link brought up under the name it is given: its old name as written, its new name as intended (see Findings) |
| IfnameHost.Rename | crucible/network/ifname.py:221-295 | the commands are the chains of all NICs in list order, from each NIC's old name to its new name, each link brought up under its old name (as written) or its new name (as intended) |
| IfnameHost.SortRulesLines | crucible/network/ifname.py:308-309 | the rendered rules come out as a sorted permutation of the rendered lines |
| IfnameHost.SortRulesIdempotent | crucible/network/ifname.py:308-309 | sorting already sorted rules changes nothing |
| IfnameHost.MergeRulesLines | crucible/network/ifname.py:345-355 | merged rules are strictly sorted and hold exactly the lines of the old file and of the new rules |
| IfnameHost.MergeRulesIdempotent | crucible/network/ifname.py:345-355 | merging the same rules a second time changes nothing |
| IfnameHost.WriteUdevRules | crucible/network/ifname.py:312-359 | an existing file without overwrite and the answer quit exits with 0 and writes nothing; otherwise the rules file is written once, merged only when it existed and merging was asked or chosen |
| IfnameHost.Run | crucible/network/ifname.py:479-520 | `run` as written: no devices or an unsupported platform raises UdevError("Nothing to do") without renaming; only ValueError or that error is raised, and a ValueError exactly when a device cannot be read; a raise or skip-udev writes no file; skip-rename runs only the ethtool calls; otherwise the NICs are taken in stable MAC order and renamed from the old names get_new_names leaves them to their final names, each link brought up by its old name; with udev the rules file is written once with the sorted rules of the final names and MACs, merged or overwritten as chosen |
| IfnameHost.NameAndWrite | crucible/network/ifname.py:500-520 | after mapping, as written: no NICs raises UdevError; skip-rename issues no commands and otherwise the rename commands go from the old names get_new_names leaves to the final names, with links brought up by their old names; skip-udev writes nothing; otherwise the rules of the final names and MACs are written once |
| IfnameHost.NameScanned | crucible/network/ifname.py:500-520 | once the devices are scanned, the same as `run`: the renames follow the ethtool calls, and the rules are those of the final names of the NICs read |
| IfnameHost.NameAndWriteFixed | crucible/network/ifname.py:500-520 | after mapping, as intended: every rename starts from the kernel name and brings the link up under its new name; everything else as in NameAndWrite |
| IfnameHost.NameMapped | crucible/network/ifname.py:378-401 | get_new_names as written, seen on values: the final names and the old names it leaves, in stable MAC order, with the ids of the sorted NICs |
| IfnameHost.NameMappedFixed | crucible/network/ifname.py:378-401 | get_new_names as intended, seen on values: the same final names, and the kernel names as old names |
| IfnameHost.RenameAndWrite | crucible/network/ifname.py:504-520 | `_rename` unless skipped, bringing links up by old or new name, then the rules of the NICs' names and MACs written unless skip-udev |
| IfnameHost.WriteRules | crucible/network/ifname.py:508-520 | skip-udev writes nothing; otherwise the sorted rendering of the names and MACs is written as write_udev_rules writes it |
| IfnameHost.BuiltViews | crucible/network/ifname.py:210-217 | NICs built from records are, as values, the records with their fields stripped and the MAC upper-cased |
| IfnameHost.ReadAllErrPersists | crucible/network/ifname.py:188-209 | once a device cannot be read, the read of any longer prefix of the device list fails too |
| LegacyIfname.LegacyNic.constructor | crucible/ifname.py:43-47 | fields are stored exactly as given, without stripping, and the old name starts empty |
| LegacyIfname.LegacyNic.SetName | crucible/ifname.py:61-64 | assigning a name remembers the previous one as old_name and changes nothing else |
| LegacyIfname.LegacyToStringFields | crucible/ifname.py:66-67 | the string form is the name, a colon and the MAC as stored |
| LegacyIfname.LegacyClassAgrees | crucible/ifname.py:146-155 | for ids without surrounding whitespace, legacy classification agrees with the current one |
| LegacyIfname.FirstMissing | crucible/ifname.py:141-155 | the first NIC whose class has no entry in the prefix table, or the list length when every class has one |
| LegacyIfname.LegacyGetNewNames | crucible/ifname.py:133-156 | NICs before the first missing prefix get their counted names and remember the old ones, and later NICs are untouched; the result is the list when no prefix is missing, else a KeyError naming that prefix |
| LegacyIfname.LegacyParseMac | crucible/ifname.py:79 | splitting at every space and taking the last piece gives the same MAC as the current rsplit |
| LegacyIfname.LegacyReadNic | crucible/ifname.py:76-90 | the legacy reader gets the same record, or the same ValueError, as the current one |
| LegacyIfname.LegacyMapNics | crucible/ifname.py:70-99 | ethtool runs once per device in order; failure is a ValueError at the first unreadable device; success gives one new, distinct legacy NIC per device built from its record |
| LegacyIfname.LegacyBuildNics | crucible/ifname.py:91-98 | one new legacy NIC per record, all distinct, fields as read |
| LegacyIfname.LegacyIntelIsLan | crucible/tests/test_ifname.py:32-69 | an Intel NIC is LAN under the legacy classification |
| LegacyIfname.LegacyMellanoxIsMgmt | crucible/tests/test_ifname.py:32-69 | a Mellanox NIC is management under the legacy classification |
| LegacyIfname.LegacySlingshotIsHsn | crucible/tests/test_ifname.py:32-69 | a Slingshot NIC is high-speed under the legacy classification |
| LegacyIfname.LegacyFixtureClasses | crucible/tests/test_ifname.py:32-69 | the six legacy fixture NICs classify as lan, mgmt, lan, mgmt, hsn, hsn |
| LegacyIfname.LegacyFixtureNames | crucible/tests/test_ifname.py:120-142 | with lan, mgmt and hsn prefixes, no prefix is missing and the fixture is named lan0, mgmt0, lan1, mgmt1, hsn0, hsn1 |
| Manager.ParseDecimal | crucible/network/manager.py:97 | a decimal field parses exactly when it is a non-empty run of digits |
| Manager.Stored | crucible/network/manager.py:94-100 | the stored network is the parsed CIDR, or 0.0.0.0/0 when the text does not parse |
| Manager.FirstIsBase | crucible/network/manager.py:102 | a network's first address has the host bits cleared, and the network's address range contains its address and lies inside the IPv4 space |
| Manager.GatewayIsBasePlusOne | crucible/network/manager.py:102 | a gateway exists exactly when the prefix is shorter than 32, otherwise IndexError; it is the first address plus one, odd, and inside the network |
| Manager.EmptyCidrFallsBack | crucible/network/manager.py:79-102 | the default empty CIDR does not parse, so the address is 0.0.0.0/0 with gateway 0.0.0.1 |
| Manager.ParseFormatAddress | crucible/network/networkmanager.py:107-108 | an address written as a dotted quad parses back to itself |
| Manager.ParseFormatCidr | crucible/network/manager.py:97 | a network written as a.b.c.d/p parses back to itself |
| Manager.EndsBrDigitsIff | crucible/network/manager.py:108 | a name ends in "br" followed by at least one digit exactly when some position starts "br" followed only by digits to the end |
| Manager.BridgeNames | crucible/network/manager.py:104-110 | virbr0, br12 and br0 followed by a newline are bridges; br and bond0 are not |
| Manager.BondNames | crucible/network/manager.py:112-118 | names starting with "bond" are bonds; mgmt0 and virbr0 are not |
| Manager.DefaultInterface | crucible/network/manager.py:55-60 | an interface built from no arguments has address 0.0.0.0/0, gateway 0.0.0.1, one empty member, the default bond options, VLAN 0 and MTU 9000 |
| Manager.BuiltFailsIff | crucible/network/manager.py:94-156 | building an interface fails exactly when the CIDR has prefix 32 (IndexError) or the VLAN id is outside 0..4094 (InterfaceError) |
| Manager.BuiltInterface | crucible/network/manager.py:128-137 | a built interface has an accepted VLAN id, the stored network and its gateway when a CIDR was given and none otherwise, and at least one member; the members joined by commas give the argument back |
| Manager.Interface.Bare | crucible/network/manager.py:76-78 | the base constructor sets name, dhcp and noip before anything else |
| Manager.Interface.SetIpaddr | crucible/network/manager.py:88-102 | None changes nothing; otherwise the stored network is set, and the gateway is set when it exists and otherwise left unchanged with IndexError reported; no other field changes |
| Manager.Interface.SetVlanId | crucible/network/manager.py:146-156 | an id in 0..4094 is stored and nothing else changes; any other id raises InterfaceError and changes nothing |
| Manager.Interface.DeleteVlanId | crucible/network/manager.py:158-163 | deleting the VLAN id sets it to 0 and changes nothing else |
| Manager.NewAddressed | crucible/network/manager.py:69-79 | the address part of construction fails only when the stored network has no gateway; otherwise the interface has the given name and flags, the stored network and its gateway |
| Manager.NewInterface | crucible/network/manager.py:128-137 | construction fails exactly when the built record fails, with the same error, and otherwise gives a new interface holding the built record |
| Manager.TextSettingPieces | crucible/network/manager.py:199-203 | a text setting becomes at least one piece, the pieces joined by commas give the text back, and the empty text becomes one empty piece |
| Manager.SystemNetwork.constructor | crucible/network/manager.py:172-175 | a network manager starts with the given interface and empty DNS and search lists |
| Manager.SystemNetwork.SetDns | crucible/network/manager.py:193-203 | setting DNS applies the setting (None keeps the list, a list replaces it, text is split at commas) and leaves search alone |
| Manager.SystemNetwork.SetSearch | crucible/network/manager.py:212-222 | setting search applies the setting the same way and leaves DNS alone |
| Manager.NewSystemNetwork | crucible/network/manager.py:177-184 | construction fails exactly when the interface fails, and otherwise holds the built interface and the DNS and search settings applied to empty lists |
| Sysconfig.RewriteQuoted | crucible/network/sysconfig.py:68-75 | a line of the key, a quoted value and a rest without quotes becomes the key, the new value in double quotes, and the same rest |
| Sysconfig.RewriteReadLine | crucible/network/sysconfig.py:68-75 | a line as readlines gives it (KEY"old" and a newline) becomes KEY"new" and a newline |
| Sysconfig.RewriteIdempotent | crucible/network/sysconfig.py:73-77 | rewriting a line a second time with the same value changes nothing |
| Sysconfig.OtherLinesKept | crucible/network/sysconfig.py:73-77 | a line that does not start with the key is kept as it is |
| Sysconfig.KeysSeparate | crucible/network/sysconfig.py:68 | a servers line is never a search-list line, so each update touches only its own line |
| Sysconfig.ServersLineUpdated | crucible/tests/network/test_sysconfig.py:59-66 | in a config holding a servers line and a search line, updating DNS changes the servers line and keeps the search line |
| Sysconfig.FixtureDnsValue | crucible/network/sysconfig.py:72 | the servers 8.8.8.8 and 8.8.4.4 are written as "8.8.8.8 8.8.4.4" |
| Sysconfig.InvalidTemplateKeepsFile | crucible/network/sysconfig.py:69-79 | when the replacement template is invalid, every line is kept and the file is written back as text mode read it: unchanged except that \r\n and lone \r line ends become \n, and unchanged altogether when it holds no \r |
| Sysconfig.RewriteLines | crucible/network/sysconfig.py:73-77 | the loop gives the rewritten lines of the file, one per line read |
| Sysconfig.UpdateConfig | crucible/network/sysconfig.py:63-103 | a missing config raises FileNotFoundError and does nothing; otherwise the file, read in text mode (universal newlines), is replaced once by its rewritten lines and netconfig update runs once |
| Text.ReadText | crucible/network/sysconfig.py:69-70 | what text mode reads never holds a \r |
| Text.ReadTextWithoutCarriageReturn | crucible/network/sysconfig.py:69-70 | a text without \r is read as it is |
| Text.ReadTextCrLf | crucible/network/sysconfig.py:69-70 | a \r\n line end is read as one \n |
| Text.ReadTextCr | crucible/network/sysconfig.py:69-70 | a lone \r line end is read as \n |
| Text.ConcatReadLines | crucible/network/sysconfig.py:70-79 | the lines readlines gives, written back with writelines, are the text read |
| Sysconfig.WickedReload | crucible/network/sysconfig.py:122-130 | ifreload, then show, then a nanny restart when show failed or the reload is forced |
| Sysconfig.ReloadRestartsNanny | crucible/network/sysconfig.py:122-130 | the nanny is restarted exactly when show failed or the reload is forced |
| Sysconfig.InterfaceFilesDiffer | crucible/network/sysconfig.py:136-139 | the ifcfg and ifroute files of an interface are different paths |
| Sysconfig.WickedRemove | crucible/network/sysconfig.py:132-148 | both files are unlinked, whether they exist or not, and the reload is forced exactly when the interface name is non-empty |
| Sysconfig.RemoveFiles | crucible/network/sysconfig.py:140-147 | both files are gone afterwards and both unlinks are logged in order |
| Sysconfig.WriteInterfaceFile | crucible/network/sysconfig.py:150-176 | an existing file whose prompt is answered with quit is left alone; otherwise it is written once with its rendered template |
| Sysconfig.WickedWrite | crucible/network/sysconfig.py:150-176 | quitting at ifcfg writes nothing and exits with 0; quitting at ifroute keeps the written ifcfg and exits with 0; otherwise both files are written, ifcfg first |
| NetworkManager.BuiltWellFormed | crucible/network/manager.py:128-156 | every built interface is what the ipaddr setter leaves behind: a valid stored network, a gateway set exactly when a network is, and a gateway inside the IPv4 space |
| NetworkManager.IpArgsFail | crucible/network/networkmanager.py:93-113 | the IP arguments fail exactly for a static interface without an address, with the AttributeError of reading `.ip` from None |
| NetworkManager.IpArgsSettings | crucible/network/networkmanager.py:93-113 | the IP arguments come in pairs; the ipv4 method is auto, disabled or manual by the flags; IPv6 is disabled; the MTU is given; a static interface also gets address, gateway and the space-joined DNS, and the others do not |
| NetworkManager.BondOptionsRoundTrip | crucible/network/networkmanager.py:125-131 | the bond.options value splits back into the same key/value pairs, in order |
| NetworkManager.DefaultBondOptionsRoundTrip | crucible/network/manager.py:55-60 | the default bond options survive being written as bond.options |
| NetworkManager.MemberCommands | crucible/network/networkmanager.py:135-144 | one command per bond member, in member order |
| NetworkManager.AddHead | crucible/network/networkmanager.py:92 | every add command sets con-name, type and ifname as given and passes every other setting through |
| NetworkManager.MemberSettings | crucible/network/networkmanager.py:136-142 | a member's command names it as an ethernet connection enslaved to the bond, with the bond's MTU |
| NetworkManager.WriteCallsShape | crucible/network/networkmanager.py:92-152 | writing fails exactly when the IP arguments fail or a VLAN has no member; otherwise it is one add command (plus one per member for a bond) naming the interface and its type, followed by the member commands |
| NetworkManager.OwnCommandSettings | crucible/network/networkmanager.py:114-132 | the interface's own command carries dev and id for a VLAN, bond.options for a bond, and otherwise exactly the IP arguments |
| NetworkManager.WriteConfig | crucible/network/networkmanager.py:87-159 | the commands run are exactly the write commands, and success means that the last one returned 0; a failure to build them runs nothing |
| NetworkManager.RunMembers | crucible/network/networkmanager.py:135-144 | the member commands run in order, and the result is the reply to the last command run |
| NetworkManager.Reload | crucible/network/networkmanager.py:64-77 | reload, up and show run in that order, and the reload is reported as shown when show returned 0 |
| NetworkManager.Remove | crucible/network/networkmanager.py:79-85 | the connection is deleted and then reloaded |
| Config.WickedUnitResolves | crucible/network/config.py:112-117 | a unit path naming wicked and not NetworkManager resolves to wicked |
| Config.ResolutionOrder | crucible/network/config.py:108-118 | NetworkManager wins when both names appear; neither name is a NetworkError |
| Config.ResolveNetworkManager | crucible/network/config.py:108-118 | one systemctl show runs; an unknown manager or a failed interface is raised; otherwise the chosen back end holds the built interface and the DNS and search settings |
| Config.MembersCheckAsWrittenNeverFires | crucible/network/config.py:67-74 | as written, the members check never fires for a built interface |
| Config.MembersCheckFiresWithoutMembers | crucible/network/config.py:67-74 | the intended check fires exactly when no members were given |
| Config.NeverRefused | crucible/network/config.py:67-88 | the step `interface` takes as written (InterfaceStep): no built interface is refused, bond and bridge included; defer wins over remove and remove over the write |
| Config.RefusedIffMemberless | crucible/network/config.py:67-88 | with the members check as intended (IntendedStep), a bond or bridge without members is refused and nothing else is; an interface that is not refused takes the step it takes as written |
| Config.ConfigureInterface | crucible/network/config.py:52-88 | errors come after the one show command, with no file change; otherwise the step as written is taken on the chosen back end. Defer does nothing more. Remove deletes the connection (NetworkManager), or unlinks both files and reloads, forced for a named interface (wicked); then it exits with 0. Write on NetworkManager runs the write commands and the reload, or raises before any of them when they cannot be formed. Write on wicked: a quit at the ifcfg prompt exits with 0 and writes nothing; a quit at the ifroute prompt exits with 0 with ifcfg written and logged; otherwise ifcfg then ifroute are written and logged, and the interface is reloaded without forcing. Every command and file change is stated in order |
| Config.InterfaceOn | crucible/network/config.py:67-88 | the steps once the manager is built: refusal exits with 1, defer does nothing, remove and write issue the commands and file changes of their back end in order; on wicked, a quit at the ifroute prompt leaves ifcfg written |
| Config.WriteOnNetworkManager | crucible/network/config.py:83-88 | a failure to build the commands is raised before any command runs; otherwise the write commands run and then the reload |
| Config.WriteOnWicked | crucible/network/config.py:83-88 | a quit at the ifcfg prompt exits with 0 and changes nothing; a quit at the ifroute prompt exits with 0 with ifcfg already written and logged and nothing run; otherwise ifcfg then ifroute are written and logged, and the interface is reloaded without forcing |
| Config.EmptyTextSettingIsActedOn | crucible/network/config.py:100-105 | the default empty DNS or search text becomes a non-empty list, so `system` acts on it |
| Config.SystemOnNetworkManager | crucible/network/networkmanager.py:52-62 | on NetworkManager, system finishes only when both lists are empty and otherwise raises NotImplementedError |
| Config.SystemOnWicked | crucible/network/config.py:100-105 | on wicked, each non-empty list rewrites the config (read in text mode), logs one write of it and runs netconfig once, DNS first; a missing config raises FileNotFoundError when there is something to write, and otherwise nothing happens; either way a missing config writes nothing |
| Config.UpdateWhenGiven | crucible/network/config.py:100-105 | an empty list changes nothing; a non-empty one raises FileNotFoundError on a missing config and writes nothing, or rewrites the config, logs that one write and runs netconfig once |
| Config.ConfigureSystem | crucible/network/config.py:91-105 | errors come after the one show command; NetworkManager finishes or raises as above without touching files; wicked without a config writes nothing and raises FileNotFoundError when a list is non-empty; with a config it rewrites it for DNS then search, logging one write of it and running netconfig once per non-empty list after the show command |
| Install.Checked | crucible/install.py:49-69 | the install goes ahead exactly when the level is stripe or mirror, the storage is at least 2 and the disks reach the level's minimum; it warns exactly when the storage is under 5 |
| Install.RefusalIsFirstFailure | crucible/install.py:49-69 | each refusal names the first failing check: level, then storage, then stripe disks, then any disks |
| Install.NoDisksRefused | crucible/tests/test_cli.py:75-86 | no disks is refused at any level and size |
| Install.UnknownRaidRefused | crucible/tests/test_cli.py:88-100 | an unknown level is refused at any size |
| Install.OneDiskOnlyMirrors | crucible/tests/test_cli.py:102-131 | one disk is refused for a stripe and accepted for a mirror |
| Install.StorageThresholds | crucible/tests/test_cli.py:135-162 | storage of 0 or 1 is refused, 3 goes ahead with a warning and 5 goes ahead without one |
| Install.ScriptPathUnderDirectory | crucible/install.py:70-72 | the script is scripts/install.sh under the package directory |
| Install.InstallArgvInjective | crucible/install.py:73-80 | the script's arguments determine the disks, size and level asked for |
| Install.InstallToDisk | crucible/install.py:37-90 | the SquashFS storage warning is logged exactly when the RAID level is supported and the storage size is 2 to 4 GiB, including on the way to a disk-count refusal; a refusal exits with 1 and runs nothing; otherwise the script runs once with the requested disks, size and level, and success means that it returned 0 |

## Left out

- The YAML NIC table (`_ifname_meta`, in both ifname files) is not read. Its hsn and mgmt rows and the legacy prefix list are parameters.
- The sysfs glob is not modelled. The device list is a parameter, and so are each device's uevent text and the platform check of `supported_platforms`.
- Jinja template rendering (`_rendor_udev_rules`, `_render_template`) is a `render` parameter. Only the sorting and merging of its lines is modelled.
- click prompts are parameters (`Choice`, `Answer`). Messages printed with `click.echo` and all logging are not modelled.
- `sys.exit` and exceptions are result values (`Outcome.Exit`, `Outcome.Raise`, `Result.Err`). Exception messages are kept only where the code reads them.
- The legacy stubs `_rename_nic` and `_udev_rule` do nothing and are not modelled. The legacy `rename` only chains `_map_nics` and `_get_new_names` and prints the result.
- `run_command`: the core imports it from crucible.os, which is not part of this model. Its results come from the `Runner` reply function, and `result.decode` is left out. The model writes the integers in an argument list in decimal. That is an assumption about crucible.os. The `run_command` in crucible/cli.py:115-130 would instead log `' '.join(args)` unless silenced, and that join fails with a `TypeError` on an integer argument.
- netaddr is modelled only for IPv4 dotted quads with an optional prefix. IPv6, abbreviated forms and netaddr's other input spellings are left out.
- The regex classes of the source are ASCII here. `\d` in `is_bridge` matches only ASCII digits, and `upper`/`lower` change only ASCII letters.
- The validity of a `re` replacement template depends on Python's escape rules. It is an `escapes` parameter, and an invalid template keeps every line.
- In `map_nics` and `_map_nics`, the NIC objects are created after every device was read, not one by one inside the loop. The commands issued and the resulting list are the same.
- The `itertools.count` counters of `PrefixIndexes` are natural numbers kept per class.
- `ifcfg.py`, `cli.py`, `vms.py`, the storage modules and the Go sources are not part of this model.

## Findings

| source | as written | input that shows it | evidently intended | confidence | as-written member | corrected member |
|---|---|---|---|---|---|---|
| crucible/network/ifname.py:269-279 | after a successful rename, the link is brought up under its old name, which no longer exists | a NIC that is up, where show, down and rename all return 0 | bring the link up under its new name, so it ends up as it was | not executed | IfnameHost.RenameAsWrittenLeavesLinkDown | IfnameHost.RenameKeepsLinkUp |
| crucible/network/config.py:69 | `not members` never fires, because the split at crucible/network/manager.py:133 always gives at least one piece | a bond0 interface with no `--members` | refuse a bond or bridge when no member names were given | not executed | Config.NeverRefused | Config.RefusedIffMemberless |
| crucible/network/ifname.py:472-475 | re-indexing goes through the name setter a second time, so a re-indexed NIC's old name becomes its counted name (mgmtK), not its kernel name, and renaming it targets a device that does not exist | the eight-NIC fixture of crucible/tests/network/test_ifname.py:129-178, whose four Mellanox NICs end with old names mgmt0 to mgmt3 | keep the kernel name as the old name so that `_rename` finds the device | not executed | IfnameFixture.FixtureSavedNamesAsWritten | Ifname.GetNewNamesKeepingKernelNames |
