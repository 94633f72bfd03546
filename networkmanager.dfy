/** `crucible/network/networkmanager.py`: the NetworkManager backend, which
    configures an interface through `nmcli connection` commands. A command
    line is a list of words; integers are written in decimal. */
module NetworkManager {
  import opened Wrappers
  import opened Text
  import opened Host
  import opened Manager

  const NM_NAME := "NetworkManager"
  const NM_INSTALL_LOCATION := "/etc/" + NM_NAME + "/system-connections"
  const DNS_NOT_IMPLEMENTED := NotImplementedError("DNS updates for nmcli are not yet implemented.")
  const SEARCH_NOT_IMPLEMENTED := NotImplementedError("Search updates for nmcli are not yet implemented.")
  const NO_IP := AttributeError("'NoneType' object has no attribute 'ip'")
  const NO_MEMBER := IndexError("list index out of range")
  const ADD_ARGV: seq<string> := ["nmcli", "connection", "add", "con-name"]

  /** What the `ipaddr` setter guarantees of an interface: a stored network
      is a valid one, a gateway is set exactly when a network is, and it is
      an address. */
  predicate WellFormed(s: InterfaceState) {
    && (s.ipaddr.Some? ==> ValidNetwork(s.ipaddr.value))
    && s.gateway.Some? == s.ipaddr.Some?
    && (s.gateway.Some? ==> s.gateway.value < IPV4_SIZE)
  }

  /** Every interface the constructor builds is well formed. */
  lemma BuiltWellFormed(a: NetworkArgs)
    requires Built(a).Ok?
    ensures WellFormed(Built(a).value)
  {
    BuiltInterface(a);
    if a.cidr.Some? {
      GatewayIsBasePlusOne(Stored(a.cidr.value));
    }
  }

  // ---------------------------------------------------------------------
  // Property/value lists, as nmcli reads them

  /** The value nmcli takes for `key` from a list of property/value pairs:
      the word after the first pair whose property is `key`. */
  function Lookup(pairs: seq<string>, key: string): Option<string>
    decreases |pairs|
  {
    if |pairs| < 2 then None
    else if pairs[0] == key then Some(pairs[1])
    else Lookup(pairs[2..], key)
  }

  /** A property missing from the first list is looked up in the second. */
  lemma {:induction false} LookupAppend(a: seq<string>, b: seq<string>, key: string)
    requires |a| % 2 == 0
    ensures Lookup(a + b, key) == if Lookup(a, key).Some? then Lookup(a, key) else Lookup(b, key)
    decreases |a|
  {
    if |a| >= 2 {
      assert (a + b)[2..] == a[2..] + b;
      LookupAppend(a[2..], b, key);
    } else {
      assert a + b == b;
    }
  }

  /** The look-up in a list that starts with a pair. */
  lemma LookupAt(k: string, v: string, rest: seq<string>, key: string)
    ensures Lookup([k, v] + rest, key) == if k == key then Some(v) else Lookup(rest, key)
  {
    assert ([k, v] + rest)[2..] == rest;
  }

  /** The look-up in a list that starts with two pairs. */
  lemma LookupAt2(k1: string, v1: string, k2: string, v2: string, rest: seq<string>, key: string)
    ensures Lookup([k1, v1, k2, v2] + rest, key)
      == if k1 == key then Some(v1) else if k2 == key then Some(v2) else Lookup(rest, key)
  {
    assert [k1, v1, k2, v2] + rest == [k1, v1] + ([k2, v2] + rest);
    LookupAt(k2, v2, rest, key);
    LookupAt(k1, v1, [k2, v2] + rest, key);
  }

  /** The property names of the IP settings differ from each other. */
  lemma IpKeysDistinct()
    ensures "ipv4.address" != "ipv4.gateway" && "ipv4.address" != "ipv4.dns" && "ipv4.address" != "ipv4.method"
    ensures "ipv4.gateway" != "ipv4.dns" && "ipv4.gateway" != "ipv4.method" && "ipv4.dns" != "ipv4.method"
    ensures "ipv4.address" != "ipv6.method" && "ipv4.gateway" != "ipv6.method"
    ensures "ipv4.dns" != "ipv6.method" && "ipv4.method" != "ipv6.method"
    ensures "ipv4.address" != "ethernet.mtu" && "ipv4.gateway" != "ethernet.mtu"
    ensures "ipv4.dns" != "ethernet.mtu" && "ipv4.method" != "ethernet.mtu" && "ipv6.method" != "ethernet.mtu"
  {
    assert "ipv4.address"[5] != "ipv4.gateway"[5] && "ipv4.address"[5] != "ipv4.dns"[5];
    assert "ipv4.address"[5] != "ipv4.method"[5] && "ipv4.gateway"[5] != "ipv4.dns"[5];
    assert "ipv4.gateway"[5] != "ipv4.method"[5] && "ipv4.dns"[5] != "ipv4.method"[5];
    assert "ipv4.address"[3] != "ipv6.method"[3] && "ipv4.gateway"[3] != "ipv6.method"[3];
    assert "ipv4.dns"[3] != "ipv6.method"[3] && "ipv4.method"[3] != "ipv6.method"[3];
    assert "ipv4.address"[0] != "ethernet.mtu"[0] && "ipv4.gateway"[0] != "ethernet.mtu"[0];
    assert "ipv4.dns"[0] != "ethernet.mtu"[0] && "ipv4.method"[0] != "ethernet.mtu"[0];
    assert "ipv6.method"[0] != "ethernet.mtu"[0];
  }

  /** The property names of a connection's head, its parent, its bond and
      its master differ from each other and from the MTU. */
  lemma HeadKeysDistinct()
    ensures "con-name" != "type" && "con-name" != "ifname" && "type" != "ifname"
    ensures "dev" != "con-name" && "dev" != "type" && "dev" != "ifname" && "dev" != "id"
    ensures "id" != "con-name" && "id" != "type" && "id" != "ifname"
    ensures "bond.options" != "con-name" && "bond.options" != "type" && "bond.options" != "ifname"
    ensures "master" != "con-name" && "master" != "type" && "master" != "ifname" && "master" != "ethernet.mtu"
    ensures "ethernet.mtu" != "con-name" && "ethernet.mtu" != "type" && "ethernet.mtu" != "ifname"
  {
    assert "con-name"[0] != "type"[0] && "con-name"[0] != "ifname"[0] && "type"[0] != "ifname"[0];
    assert "dev"[0] != "con-name"[0] && "dev"[0] != "type"[0] && "dev"[0] != "ifname"[0] && "dev"[0] != "id"[0];
    assert "id"[0] != "con-name"[0] && "id"[0] != "type"[0] && "id"[1] != "ifname"[1];
    assert "bond.options"[0] != "con-name"[0] && "bond.options"[0] != "type"[0] && "bond.options"[0] != "ifname"[0];
    assert "master"[0] != "con-name"[0] && "master"[0] != "type"[0] && "master"[0] != "ifname"[0];
    assert "master"[0] != "ethernet.mtu"[0];
    assert "ethernet.mtu"[0] != "con-name"[0] && "ethernet.mtu"[0] != "type"[0] && "ethernet.mtu"[0] != "ifname"[0];
  }

  // ---------------------------------------------------------------------
  // The IP settings of `write_config`

  /** `ip_args`: DHCP, no address, or a static address with its gateway and
      the DNS servers; IPv6 is always disabled and the MTU always given. A
      static address on an interface without one raises, as reading
      `ipaddr.ip` from `None` does. */
  function IpArgs(s: InterfaceState, dns: seq<string>): Result<seq<string>, Error>
    requires WellFormed(s)
  {
    var tail := ["ipv6.method", "disabled", "ethernet.mtu", IntToStr(s.mtu)];
    if s.dhcp then Ok(["ipv4.method", "auto"] + tail)
    else if s.noip then Ok(["ipv4.method", "disabled"] + tail)
    else if s.ipaddr.None? then Err(NO_IP)
    else Ok(["ipv4.address", FormatAddress(s.ipaddr.value.ip), "ipv4.gateway", FormatAddress(s.gateway.value),
             "ipv4.dns", Join(" ", dns), "ipv4.method", "manual"] + tail)
  }

  /** The IPv4 method nmcli is given. */
  function Ipv4Method(s: InterfaceState): string {
    if s.dhcp then "auto" else if s.noip then "disabled" else "manual"
  }

  /** The settings hold only when a static address is needed and missing. */
  lemma IpArgsFail(s: InterfaceState, dns: seq<string>)
    requires WellFormed(s)
    ensures IpArgs(s, dns).Err? <==> !s.dhcp && !s.noip && s.ipaddr.None?
    ensures IpArgs(s, dns).Err? ==> IpArgs(s, dns).error == NO_IP
  {
  }

  /** What nmcli reads from the IP settings: the method, IPv6 disabled and
      the MTU always; the address, gateway and DNS list for a static address
      and never otherwise. */
  lemma IpArgsSettings(s: InterfaceState, dns: seq<string>)
    requires WellFormed(s) && IpArgs(s, dns).Ok?
    ensures var r := IpArgs(s, dns).value;
      && |r| % 2 == 0
      && Lookup(r, "ipv4.method") == Some(Ipv4Method(s))
      && Lookup(r, "ipv6.method") == Some("disabled")
      && Lookup(r, "ethernet.mtu") == Some(IntToStr(s.mtu))
      && (!s.dhcp && !s.noip ==>
            && Lookup(r, "ipv4.address") == Some(FormatAddress(s.ipaddr.value.ip))
            && Lookup(r, "ipv4.gateway") == Some(FormatAddress(s.gateway.value))
            && Lookup(r, "ipv4.dns") == Some(Join(" ", dns)))
      && (s.dhcp || s.noip ==>
            Lookup(r, "ipv4.address").None? && Lookup(r, "ipv4.gateway").None? && Lookup(r, "ipv4.dns").None?)
  {
    var r := IpArgs(s, dns).value;
    var tail := ["ipv6.method", "disabled", "ethernet.mtu", IntToStr(s.mtu)];
    TailSettings(IntToStr(s.mtu));
    if s.dhcp || s.noip {
      var m := if s.dhcp then "auto" else "disabled";
      assert r == ["ipv4.method", m] + tail;
      MethodSettings(m, tail);
    } else {
      var head := ["ipv4.address", FormatAddress(s.ipaddr.value.ip), "ipv4.gateway", FormatAddress(s.gateway.value),
                   "ipv4.dns", Join(" ", dns), "ipv4.method", "manual"];
      assert r == head + tail;
      StaticSettings(FormatAddress(s.ipaddr.value.ip), FormatAddress(s.gateway.value), Join(" ", dns));
      LookupAppend(head, tail, "ipv4.method");
      LookupAppend(head, tail, "ipv6.method");
      LookupAppend(head, tail, "ethernet.mtu");
      LookupAppend(head, tail, "ipv4.address");
      LookupAppend(head, tail, "ipv4.gateway");
      LookupAppend(head, tail, "ipv4.dns");
    }
  }

  /** The IPv6 and MTU settings that close every list. */
  lemma TailSettings(mtu: string)
    ensures var tail := ["ipv6.method", "disabled", "ethernet.mtu", mtu];
      && Lookup(tail, "ipv6.method") == Some("disabled")
      && Lookup(tail, "ethernet.mtu") == Some(mtu)
      && Lookup(tail, "ipv4.method").None?
      && Lookup(tail, "ipv4.address").None? && Lookup(tail, "ipv4.gateway").None? && Lookup(tail, "ipv4.dns").None?
  {
    IpKeysDistinct();
    var tail := ["ipv6.method", "disabled", "ethernet.mtu", mtu];
    assert tail == ["ipv6.method", "disabled", "ethernet.mtu", mtu] + [];
    LookupAt2("ipv6.method", "disabled", "ethernet.mtu", mtu, [], "ipv6.method");
    LookupAt2("ipv6.method", "disabled", "ethernet.mtu", mtu, [], "ethernet.mtu");
    LookupAt2("ipv6.method", "disabled", "ethernet.mtu", mtu, [], "ipv4.method");
    LookupAt2("ipv6.method", "disabled", "ethernet.mtu", mtu, [], "ipv4.address");
    LookupAt2("ipv6.method", "disabled", "ethernet.mtu", mtu, [], "ipv4.gateway");
    LookupAt2("ipv6.method", "disabled", "ethernet.mtu", mtu, [], "ipv4.dns");
  }

  /** A list that starts with the IPv4 method. */
  lemma MethodSettings(m: string, tail: seq<string>)
    requires |tail| % 2 == 0
    requires Lookup(tail, "ipv4.address").None? && Lookup(tail, "ipv4.gateway").None? && Lookup(tail, "ipv4.dns").None?
    ensures var r := ["ipv4.method", m] + tail;
      && Lookup(r, "ipv4.method") == Some(m)
      && Lookup(r, "ipv6.method") == Lookup(tail, "ipv6.method")
      && Lookup(r, "ethernet.mtu") == Lookup(tail, "ethernet.mtu")
      && Lookup(r, "ipv4.address").None? && Lookup(r, "ipv4.gateway").None? && Lookup(r, "ipv4.dns").None?
  {
    IpKeysDistinct();
    LookupAt("ipv4.method", m, tail, "ipv4.method");
    LookupAt("ipv4.method", m, tail, "ipv6.method");
    LookupAt("ipv4.method", m, tail, "ethernet.mtu");
    LookupAt("ipv4.method", m, tail, "ipv4.address");
    LookupAt("ipv4.method", m, tail, "ipv4.gateway");
    LookupAt("ipv4.method", m, tail, "ipv4.dns");
  }

  /** One look-up in the static part of the list. */
  lemma StaticKey(address: string, gateway: string, servers: string, key: string)
    ensures Lookup(["ipv4.address", address, "ipv4.gateway", gateway] + ["ipv4.dns", servers, "ipv4.method", "manual"], key)
      == if key == "ipv4.address" then Some(address) else if key == "ipv4.gateway" then Some(gateway)
         else if key == "ipv4.dns" then Some(servers) else if key == "ipv4.method" then Some("manual") else None
  {
    var back := ["ipv4.dns", servers, "ipv4.method", "manual"];
    LookupAt2("ipv4.address", address, "ipv4.gateway", gateway, back, key);
    assert back == back + [];
    LookupAt2("ipv4.dns", servers, "ipv4.method", "manual", [], key);
  }

  /** The static part of the list: address, gateway, DNS, then the method. */
  lemma StaticSettings(address: string, gateway: string, servers: string)
    ensures var head := ["ipv4.address", address, "ipv4.gateway", gateway, "ipv4.dns", servers, "ipv4.method", "manual"];
      && Lookup(head, "ipv4.address") == Some(address)
      && Lookup(head, "ipv4.gateway") == Some(gateway)
      && Lookup(head, "ipv4.dns") == Some(servers)
      && Lookup(head, "ipv4.method") == Some("manual")
      && Lookup(head, "ipv6.method").None? && Lookup(head, "ethernet.mtu").None?
  {
    IpKeysDistinct();
    var back := ["ipv4.dns", servers, "ipv4.method", "manual"];
    assert ["ipv4.address", address, "ipv4.gateway", gateway, "ipv4.dns", servers, "ipv4.method", "manual"]
      == ["ipv4.address", address, "ipv4.gateway", gateway] + back;
    assert back == back + [];
    StaticKey(address, gateway, servers, "ipv4.address");
    StaticKey(address, gateway, servers, "ipv4.gateway");
    StaticKey(address, gateway, servers, "ipv4.dns");
    StaticKey(address, gateway, servers, "ipv4.method");
    StaticKey(address, gateway, servers, "ipv6.method");
    StaticKey(address, gateway, servers, "ethernet.mtu");
  }

  // ---------------------------------------------------------------------
  // Bond options

  /** `key=value` for each bond option, in the dictionary's order. */
  function OptionStrings(opts: seq<(string, string)>): seq<string>
    decreases |opts|
  {
    if |opts| == 0 then [] else [opts[0].0 + "=" + opts[0].1] + OptionStrings(opts[1..])
  }

  /** The `bond.options` value: the option strings joined with commas. */
  function BondOptions(opts: seq<(string, string)>): string {
    Join(",", OptionStrings(opts))
  }

  /** How the options read back: split at the commas, then each at its first
      `=`. */
  function ParseOption(s: string): (string, string) {
    if '=' in s then (s[..IndexOf(s, '=')], s[IndexOf(s, '=') + 1..]) else (s, "")
  }

  function ParseOptions(pieces: seq<string>): seq<(string, string)>
    decreases |pieces|
  {
    if |pieces| == 0 then [] else [ParseOption(pieces[0])] + ParseOptions(pieces[1..])
  }

  /** Options whose names hold no `=` and which hold no `,` survive the
      round trip through `bond.options`. */
  predicate PlainOptions(opts: seq<(string, string)>) {
    forall i :: 0 <= i < |opts| ==> '=' !in opts[i].0 && ',' !in opts[i].0 && ',' !in opts[i].1
  }

  lemma {:induction false} ParseOptionStrings(opts: seq<(string, string)>)
    requires PlainOptions(opts)
    ensures |OptionStrings(opts)| == |opts|
    ensures forall i :: 0 <= i < |opts| ==> ',' !in OptionStrings(opts)[i]
    ensures ParseOptions(OptionStrings(opts)) == opts
    decreases |opts|
  {
    if |opts| > 0 {
      var k, v := opts[0].0, opts[0].1;
      var s := k + "=" + v;
      ParseOptionStrings(opts[1..]);
      IndexOfPrefix(k, "=" + v, '=');
      assert s == k + ("=" + v);
      assert s[..|k|] == k && s[|k| + 1..] == v;
      assert ',' !in s by {
        forall m | 0 <= m < |s| ensures s[m] != ',' {
          if m < |k| { assert s[m] == k[m]; }
          else if m > |k| { assert s[m] == v[m - |k| - 1]; }
        }
      }
      var rest := OptionStrings(opts[1..]);
      assert OptionStrings(opts) == [s] + rest;
      assert ([s] + rest)[1..] == rest;
      assert opts == [opts[0]] + opts[1..];
    }
  }

  /** The bond options nmcli is given read back as the interface's options. */
  lemma BondOptionsRoundTrip(opts: seq<(string, string)>)
    requires |opts| >= 1 && PlainOptions(opts)
    ensures ParseOptions(Split(BondOptions(opts), ',')) == opts
  {
    ParseOptionStrings(opts);
    SplitJoin(OptionStrings(opts), ',');
  }

  /** The default options are plain, so they reach nmcli intact. */
  lemma DefaultBondOptionsRoundTrip()
    ensures ParseOptions(Split(BondOptions(DefaultBondOpts()), ',')) == DefaultBondOpts()
  {
    var d := DefaultBondOpts();
    assert '=' !in d[0].0 && ',' !in d[0].0 && ',' !in d[0].1;
    assert '=' !in d[1].0 && ',' !in d[1].0 && ',' !in d[1].1;
    assert '=' !in d[2].0 && ',' !in d[2].0 && ',' !in d[2].1;
    assert '=' !in d[3].0 && ',' !in d[3].0 && ',' !in d[3].1;
    BondOptionsRoundTrip(d);
  }

  // ---------------------------------------------------------------------
  // The commands of `write_config`

  /** `nmcli connection add con-name <name> type <kind> ifname <ifname>`
      followed by further settings. */
  function AddCommand(conName: string, kind: string, ifname: string, settings: seq<string>): seq<string> {
    ADD_ARGV + [conName, "type", kind, "ifname", ifname] + settings
  }

  /** The connection of one bond member, enslaved to `master`. */
  function MemberCommand(member: string, master: string, mtu: int): seq<string> {
    AddCommand(member, "ethernet", member, ["master", master, "ethernet.mtu", IntToStr(mtu)])
  }

  function MemberCommands(members: seq<string>, master: string, mtu: int): (r: seq<seq<string>>)
    ensures |r| == |members|
    ensures forall i :: 0 <= i < |members| ==> r[i] == MemberCommand(members[i], master, mtu)
    decreases |members|
  {
    if |members| == 0 then [] else [MemberCommand(members[0], master, mtu)] + MemberCommands(members[1..], master, mtu)
  }

  /** The connection type: a VLAN id wins over a bond name. */
  datatype ConnectionType = Vlan | Bond | Ethernet

  function TypeOf(s: InterfaceState): ConnectionType {
    if s.vlanId != 0 then Vlan else if IsBondName(s.name) then Bond else Ethernet
  }

  /** The word nmcli is given for a connection type. */
  function TypeWord(t: ConnectionType): string {
    match t
    case Vlan => "vlan"
    case Bond => "bond"
    case Ethernet => "ethernet"
  }

  function Kind(s: InterfaceState): string {
    TypeWord(TypeOf(s))
  }

  /** The settings after `ifname` of the interface's own connection. */
  function OwnSettings(s: InterfaceState, ip: seq<string>): seq<string>
    requires s.vlanId != 0 ==> |s.members| > 0
  {
    if s.vlanId != 0 then ["dev", s.members[0], "id", IntToStr(s.vlanId)] + ip
    else if IsBondName(s.name) then ["bond.options", BondOptions(s.bondOpts)] + ip
    else ip
  }

  /** The commands of a connection once its IP settings are known: its own
      `add`, then for a bond one `add` per member. */
  function Commands(s: InterfaceState, ip: seq<string>): (r: seq<seq<string>>)
    requires s.vlanId != 0 ==> |s.members| > 0
    ensures |r| >= 1
  {
    var own := AddCommand(s.name, Kind(s), s.name, OwnSettings(s, ip));
    if TypeOf(s) == Bond then [own] + MemberCommands(s.members, s.name, s.mtu) else [own]
  }

  /** The commands `write_config` runs, in order, or what it raises first:
      the missing address, then the missing first member of a VLAN. */
  function WriteCalls(s: InterfaceState, dns: seq<string>): (r: Result<seq<seq<string>>, Error>)
    requires WellFormed(s)
  {
    match IpArgs(s, dns)
    case Err(e) => Err(e)
    case Ok(ip) =>
      if s.vlanId != 0 && |s.members| == 0 then Err(NO_MEMBER) else Ok(Commands(s, ip))
  }

  /** The settings nmcli reads from an `add` command: everything after
      `connection add`. */
  function AddSettings(cmd: seq<string>): seq<string> {
    if |cmd| >= 3 then cmd[3..] else []
  }

  /** The head of every `add` command. */
  lemma AddHead(conName: string, kind: string, ifname: string, settings: seq<string>, key: string)
    requires key != "con-name" && key != "type" && key != "ifname"
    ensures var a := AddSettings(AddCommand(conName, kind, ifname, settings));
      && Lookup(a, "con-name") == Some(conName)
      && Lookup(a, "type") == Some(kind)
      && Lookup(a, "ifname") == Some(ifname)
      && Lookup(a, key) == Lookup(settings, key)
  {
    HeadKeysDistinct();
    var a := AddSettings(AddCommand(conName, kind, ifname, settings));
    var rest := ["ifname", ifname] + settings;
    assert a == ["con-name", conName, "type", kind] + rest;
    LookupAt("ifname", ifname, settings, key);
    LookupAt("ifname", ifname, settings, "ifname");
    LookupAt2("con-name", conName, "type", kind, rest, "con-name");
    LookupAt2("con-name", conName, "type", kind, rest, "type");
    LookupAt2("con-name", conName, "type", kind, rest, "ifname");
    LookupAt2("con-name", conName, "type", kind, rest, key);
  }

  /** `write_config` fails only on a missing address or a VLAN without
      members; otherwise it runs one command for the interface and, for a
      bond, one per member, each naming the member and its master. */
  lemma WriteCallsShape(s: InterfaceState, dns: seq<string>)
    requires WellFormed(s)
    ensures WriteCalls(s, dns).Err? <==> IpArgs(s, dns).Err? || (s.vlanId != 0 && |s.members| == 0)
    ensures WriteCalls(s, dns).Ok? ==>
      var calls := WriteCalls(s, dns).value;
      && |calls| == (if TypeOf(s) == Bond then 1 + |s.members| else 1)
      && Lookup(AddSettings(calls[0]), "con-name") == Some(s.name)
      && Lookup(AddSettings(calls[0]), "type") == Some(Kind(s))
      && Lookup(AddSettings(calls[0]), "ifname") == Some(s.name)
      && forall i :: 0 <= i < |calls| - 1 ==> MemberRead(calls[i + 1], s.members[i], s.name, s.mtu)
  {
    if WriteCalls(s, dns).Ok? {
      CommandsShape(s, IpArgs(s, dns).value);
    }
  }

  /** What nmcli reads from the command of a bond member. */
  predicate MemberRead(cmd: seq<string>, member: string, master: string, mtu: int) {
    && Lookup(AddSettings(cmd), "con-name") == Some(member)
    && Lookup(AddSettings(cmd), "type") == Some("ethernet")
    && Lookup(AddSettings(cmd), "master") == Some(master)
    && Lookup(AddSettings(cmd), "ethernet.mtu") == Some(IntToStr(mtu))
  }

  lemma CommandsShape(s: InterfaceState, ip: seq<string>)
    requires s.vlanId != 0 ==> |s.members| > 0
    ensures var calls := Commands(s, ip);
      && |calls| == (if TypeOf(s) == Bond then 1 + |s.members| else 1)
      && Lookup(AddSettings(calls[0]), "con-name") == Some(s.name)
      && Lookup(AddSettings(calls[0]), "type") == Some(Kind(s))
      && Lookup(AddSettings(calls[0]), "ifname") == Some(s.name)
      && forall i :: 0 <= i < |calls| - 1 ==> MemberRead(calls[i + 1], s.members[i], s.name, s.mtu)
  {
    var calls := Commands(s, ip);
    HeadKeysDistinct();
    AddHead(s.name, Kind(s), s.name, OwnSettings(s, ip), "master");
    if TypeOf(s) == Bond {
      var members := MemberCommands(s.members, s.name, s.mtu);
      assert calls == [calls[0]] + members;
      forall i | 0 <= i < |calls| - 1
        ensures MemberRead(calls[i + 1], s.members[i], s.name, s.mtu)
      {
        assert calls[i + 1] == members[i];
        MemberSettings(s.members[i], s.name, s.mtu);
      }
    }
  }

  /** What nmcli reads from a member's command. */
  lemma MemberSettings(member: string, master: string, mtu: int)
    ensures var a := AddSettings(MemberCommand(member, master, mtu));
      && Lookup(a, "con-name") == Some(member)
      && Lookup(a, "type") == Some("ethernet")
      && Lookup(a, "ifname") == Some(member)
      && Lookup(a, "master") == Some(master)
      && Lookup(a, "ethernet.mtu") == Some(IntToStr(mtu))
  {
    HeadKeysDistinct();
    var settings := ["master", master, "ethernet.mtu", IntToStr(mtu)];
    assert settings == ["master", master, "ethernet.mtu", IntToStr(mtu)] + [];
    LookupAt2("master", master, "ethernet.mtu", IntToStr(mtu), [], "master");
    LookupAt2("master", master, "ethernet.mtu", IntToStr(mtu), [], "ethernet.mtu");
    AddHead(member, "ethernet", member, settings, "master");
    AddHead(member, "ethernet", member, settings, "ethernet.mtu");
  }

  /** The settings of the interface's own connection, before the IP
      settings: the parent device and id of a VLAN, the options of a bond. */
  lemma OwnSettingsRead(s: InterfaceState, ip: seq<string>, key: string)
    requires s.vlanId != 0 ==> |s.members| > 0
    requires key != "dev" && key != "id" && key != "bond.options"
    ensures var own := OwnSettings(s, ip);
      && (s.vlanId != 0 ==> Lookup(own, "dev") == Some(s.members[0]) && Lookup(own, "id") == Some(IntToStr(s.vlanId)))
      && (TypeOf(s) == Bond ==> Lookup(own, "bond.options") == Some(BondOptions(s.bondOpts)))
      && Lookup(own, key) == Lookup(ip, key)
  {
    HeadKeysDistinct();
    if s.vlanId != 0 {
      assert OwnSettings(s, ip) == ["dev", s.members[0], "id", IntToStr(s.vlanId)] + ip;
      LookupAt2("dev", s.members[0], "id", IntToStr(s.vlanId), ip, "dev");
      LookupAt2("dev", s.members[0], "id", IntToStr(s.vlanId), ip, "id");
      LookupAt2("dev", s.members[0], "id", IntToStr(s.vlanId), ip, key);
    } else if TypeOf(s) == Bond {
      LookupAt("bond.options", BondOptions(s.bondOpts), ip, "bond.options");
      LookupAt("bond.options", BondOptions(s.bondOpts), ip, key);
    }
  }

  /** A VLAN connection names its parent device and its id; a bond carries
      its options; either way the IP settings follow. */
  lemma OwnCommandSettings(s: InterfaceState, dns: seq<string>, key: string)
    requires WellFormed(s) && WriteCalls(s, dns).Ok?
    requires key != "con-name" && key != "type" && key != "ifname"
    requires key != "dev" && key != "id" && key != "bond.options"
    ensures var a := AddSettings(WriteCalls(s, dns).value[0]);
      && (s.vlanId != 0 ==> Lookup(a, "dev") == Some(s.members[0]) && Lookup(a, "id") == Some(IntToStr(s.vlanId)))
      && (TypeOf(s) == Bond ==> Lookup(a, "bond.options") == Some(BondOptions(s.bondOpts)))
      && Lookup(a, key) == Lookup(IpArgs(s, dns).value, key)
  {
    var ip := IpArgs(s, dns).value;
    var own := OwnSettings(s, ip);
    assert WriteCalls(s, dns).value[0] == AddCommand(s.name, Kind(s), s.name, own);
    HeadKeysDistinct();
    AddHead(s.name, Kind(s), s.name, own, key);
    AddHead(s.name, Kind(s), s.name, own, "dev");
    AddHead(s.name, Kind(s), s.name, own, "id");
    AddHead(s.name, Kind(s), s.name, own, "bond.options");
    OwnSettingsRead(s, ip, key);
  }

  // ---------------------------------------------------------------------
  // The backend's commands

  /** `NetworkManager.write_config`: every command of `WriteCalls`, then the
      outcome of the last one decides between "Created connection" and
      "Failed to configure". */
  method WriteConfig(net: SystemNetwork, runner: Runner) returns (r: Result<bool, Error>)
    requires WellFormed(net.interface.State())
    modifies runner
    ensures var calls := WriteCalls(net.interface.State(), net.dns);
      && (calls.Err? ==> r == Err(calls.error) && runner.trace == old(runner.trace))
      && (calls.Ok? ==>
            && runner.trace == old(runner.trace) + calls.value
            && r.Ok? && |calls.value| >= 1
            && r.value == (runner.reply(|runner.trace| - 1, runner.trace[|runner.trace| - 1]).returnCode == 0))
  {
    r := RunWriteCalls(net.interface.State(), net.dns, runner);
  }

  /** The body of `write_config` on the interface's fields and DNS list. */
  method RunWriteCalls(s: InterfaceState, dns: seq<string>, runner: Runner) returns (r: Result<bool, Error>)
    requires WellFormed(s)
    modifies runner
    ensures var calls := WriteCalls(s, dns);
      && (calls.Err? ==> r == Err(calls.error) && runner.trace == old(runner.trace))
      && (calls.Ok? ==>
            && runner.trace == old(runner.trace) + calls.value
            && r.Ok? && |calls.value| >= 1
            && r.value == (runner.reply(|runner.trace| - 1, runner.trace[|runner.trace| - 1]).returnCode == 0))
  {
    var ip := IpArgs(s, dns);
    if ip.Err? {
      return Err(ip.error);
    }
    if s.vlanId != 0 && |s.members| == 0 {
      return Err(NO_MEMBER);
    }
    r := RunCommands(s, ip.value, runner);
  }

  /** Run the commands of a connection; the result is whether the last one
      succeeded. */
  method RunCommands(s: InterfaceState, ip: seq<string>, runner: Runner) returns (r: Result<bool, Error>)
    requires s.vlanId != 0 ==> |s.members| > 0
    modifies runner
    ensures runner.trace == old(runner.trace) + Commands(s, ip)
    ensures r.Ok? && r.value == (runner.reply(|runner.trace| - 1, runner.trace[|runner.trace| - 1]).returnCode == 0)
  {
    var own := AddCommand(s.name, Kind(s), s.name, OwnSettings(s, ip));
    var result := runner.Run(own);
    if TypeOf(s) == Bond {
      result := RunMembers(MemberCommands(s.members, s.name, s.mtu), result, runner);
    }
    r := Ok(result.returnCode == 0);
  }

  /** The loop over the bond members, each member's command given by
      `MemberCommands`: one `add` each; the last result is the one of the
      last command run. */
  method RunMembers(cmds: seq<seq<string>>, previous: CmdResult, runner: Runner) returns (result: CmdResult)
    requires |runner.trace| >= 1
    requires previous == runner.reply(|runner.trace| - 1, runner.trace[|runner.trace| - 1])
    modifies runner
    ensures runner.trace == old(runner.trace) + cmds
    ensures result == runner.reply(|runner.trace| - 1, runner.trace[|runner.trace| - 1])
  {
    result := previous;
    for i := 0 to |cmds|
      invariant runner.trace == old(runner.trace) + cmds[..i]
      invariant result == runner.reply(|runner.trace| - 1, runner.trace[|runner.trace| - 1])
    {
      result := runner.Run(cmds[i]);
      assert cmds[..i + 1] == cmds[..i] + [cmds[i]];
    }
    assert cmds[..|cmds|] == cmds;
  }

  /** The commands of `reload_interface`. */
  function ReloadCalls(name: string): seq<seq<string>> {
    [["nmcli", "connection", "reload", name], ["nmcli", "connection", "up", name], ["ip", "l", "show", name]]
  }

  /** `NetworkManager.reload_interface`: reload, bring up, then show the
      link; `shown` says whether the show succeeded (otherwise the failure
      is logged). */
  method Reload(name: string, runner: Runner) returns (shown: bool)
    modifies runner
    ensures runner.trace == old(runner.trace) + ReloadCalls(name)
    ensures shown == (runner.reply(|old(runner.trace)| + 2, ["ip", "l", "show", name]).returnCode == 0)
  {
    var _ := runner.Run(["nmcli", "connection", "reload", name]);
    var _ := runner.Run(["nmcli", "connection", "up", name]);
    var result := runner.Run(["ip", "l", "show", name]);
    shown := result.returnCode == 0;
  }

  /** `NetworkManager.remove_config`: delete the connection, then reload. */
  method Remove(name: string, runner: Runner)
    modifies runner
    ensures runner.trace == old(runner.trace) + [["nmcli", "connection", "delete", name]] + ReloadCalls(name)
  {
    var _ := runner.Run(["nmcli", "connection", "delete", name]);
    var _ := Reload(name, runner);
  }
}
