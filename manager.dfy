/** `crucible/network/manager.py`: the interface being configured (address,
    gateway, kind, members, bond options, VLAN id) and the DNS and search
    lists shared by every network manager. */
module Manager {
  import opened Wrappers
  import opened Text
  import opened Host

  /** `default_bond_opts`, in dictionary order; `miimon` holds the integer
      100, kept here as the text it formats to. */
  function DefaultBondOpts(): seq<(string, string)> {
    [("mode", "802.3ad"), ("miimon", "100"), ("lacp_rate", "fast"), ("xmit_hash_policy", "layer2+3")]
  }

  // ---------------------------------------------------------------------
  // Decimal numbers

  function DigitValue(c: char): nat
    requires IsDigit(c)
  {
    c as int - '0' as int
  }

  predicate AllDigits(s: string) {
    forall i :: 0 <= i < |s| ==> IsDigit(s[i])
  }

  /** The value of a string of decimal digits. */
  function DecimalValue(s: string): nat
    requires AllDigits(s)
    decreases |s|
  {
    if |s| == 0 then 0 else DecimalValue(s[..|s| - 1]) * 10 + DigitValue(s[|s| - 1])
  }

  /** A non-empty run of decimal digits, or nothing. */
  function ParseDecimal(s: string): (r: Option<nat>)
    ensures r.Some? <==> |s| > 0 && AllDigits(s)
  {
    if |s| > 0 && AllDigits(s) then Some(DecimalValue(s)) else None
  }

  /** Reading back a printed number gives the number. */
  lemma {:induction false} DecimalValueOfNatToStr(n: nat)
    ensures AllDigits(NatToStr(n)) && DecimalValue(NatToStr(n)) == n
  {
    var s := NatToStr(n);
    if n >= 10 {
      DecimalValueOfNatToStr(n / 10);
      assert s[..|s| - 1] == NatToStr(n / 10);
    }
  }

  // ---------------------------------------------------------------------
  // IPv4 networks

  const IPV4_SIZE: nat := 0x1_0000_0000

  /** An address with its prefix length, as `netaddr.IPNetwork` keeps them:
      `ip` is the address as given, not the network base. */
  datatype IPv4Network = IPv4Network(ip: nat, prefixLen: nat)

  predicate ValidNetwork(n: IPv4Network) {
    n.ip < IPV4_SIZE && n.prefixLen <= 32
  }

  function Pow2(k: nat): (r: nat)
    ensures r >= 1
  {
    if k == 0 then 1 else 2 * Pow2(k - 1)
  }

  /** How many addresses the network holds. */
  function Size(n: IPv4Network): nat
    requires ValidNetwork(n)
  {
    Pow2(32 - n.prefixLen)
  }

  /** `ip` with its low `k` bits cleared. */
  function Base(ip: nat, k: nat): nat {
    if k == 0 then ip else 2 * Base(ip / 2, k - 1)
  }

  /** The network base: the address with its host bits cleared. */
  function First(n: IPv4Network): nat
    requires ValidNetwork(n)
  {
    Base(n.ip, 32 - n.prefixLen)
  }

  /** `network[k]` for a non-negative index: counted from the network base,
      `IndexError` past the last address. */
  function AddressAt(n: IPv4Network, k: nat): (r: Result<nat, Error>)
    requires ValidNetwork(n)
  {
    if k < Size(n) then Ok(First(n) + k) else Err(IndexError("index out range for address range size!"))
  }

  /** `0.0.0.0/0`, what an unparsable address becomes. */
  const FALLBACK: IPv4Network := IPv4Network(0, 0)

  /** The four octets, most significant first. */
  function Octets(ip: nat): (r: seq<nat>)
    requires ip < IPV4_SIZE
    ensures |r| == 4 && forall i :: 0 <= i < 4 ==> r[i] < 256
  {
    [ip / 256 / 256 / 256, ip / 256 / 256 % 256, ip / 256 % 256, ip % 256]
  }

  function FromOctets(a: nat, b: nat, c: nat, d: nat): nat {
    ((a * 256 + b) * 256 + c) * 256 + d
  }

  /** An octet: decimal, at most 255. */
  function ParseOctet(s: string): (r: Option<nat>)
    ensures r.Some? ==> r.value < 256
  {
    match ParseDecimal(s)
    case Some(v) => if v < 256 then Some(v) else None
    case None => None
  }

  /** A dotted quad `a.b.c.d`. */
  function ParseAddress(s: string): (r: Option<nat>)
    ensures r.Some? ==> r.value < IPV4_SIZE
  {
    var parts := Split(s, '.');
    if |parts| != 4 then None
    else
      var a, b, c, d := ParseOctet(parts[0]), ParseOctet(parts[1]), ParseOctet(parts[2]), ParseOctet(parts[3]);
      if a.Some? && b.Some? && c.Some? && d.Some? then Some(FromOctets(a.value, b.value, c.value, d.value))
      else None
  }

  /** `netaddr.IPNetwork(s)` for the dotted-quad forms `a.b.c.d` (a host,
      prefix 32) and `a.b.c.d/p`; anything else does not parse. */
  function ParseCidr(s: string): (r: Option<IPv4Network>)
    ensures r.Some? ==> ValidNetwork(r.value)
  {
    var parts := Split(s, '/');
    if |parts| == 1 then
      match ParseAddress(s)
      case Some(ip) => Some(IPv4Network(ip, 32))
      case None => None
    else if |parts| == 2 then
      match (ParseAddress(parts[0]), ParseDecimal(parts[1]))
      case (Some(ip), Some(p)) => if p <= 32 then Some(IPv4Network(ip, p)) else None
      case _ => None
    else None
  }

  /** `str(address)`: the dotted quad. */
  function FormatAddress(ip: nat): string
    requires ip < IPV4_SIZE
  {
    var o := Octets(ip);
    NatToStr(o[0]) + "." + NatToStr(o[1]) + "." + NatToStr(o[2]) + "." + NatToStr(o[3])
  }

  /** `str(network)`: address, slash, prefix length. */
  function FormatCidr(n: IPv4Network): string
    requires ValidNetwork(n)
  {
    FormatAddress(n.ip) + "/" + NatToStr(n.prefixLen)
  }

  /** What the `ipaddr` setter stores for a string: the parsed network, or
      `0.0.0.0/0` when it does not parse. */
  function Stored(s: string): (n: IPv4Network)
    ensures ValidNetwork(n)
    ensures ParseCidr(s).Some? ==> n == ParseCidr(s).value
    ensures ParseCidr(s).None? ==> n == FALLBACK
  {
    match ParseCidr(s)
    case Some(n) => n
    case None => FALLBACK
  }

  /** The gateway derived from a stored network: `network[1]`. */
  function GatewayOf(n: IPv4Network): Result<nat, Error>
    requires ValidNetwork(n)
  {
    AddressAt(n, 1)
  }

  /** Clearing the low `k` bits lands at most one block of `2^k` below. */
  lemma {:induction false} BaseBounds(ip: nat, k: nat)
    ensures Base(ip, k) <= ip < Base(ip, k) + Pow2(k)
  {
    if k > 0 {
      BaseBounds(ip / 2, k - 1);
    }
  }

  /** Clearing bits already clear changes nothing. */
  lemma {:induction false} BaseIdempotent(ip: nat, k: nat)
    ensures Base(Base(ip, k), k) == Base(ip, k)
  {
    if k > 0 {
      BaseIdempotent(ip / 2, k - 1);
      assert Base(ip, k) / 2 == Base(ip / 2, k - 1);
    }
  }

  /** The block of an address below `2^m` ends at or below `2^m`. */
  lemma {:induction false} BaseFits(ip: nat, k: nat, m: nat)
    requires k <= m && ip < Pow2(m)
    ensures Base(ip, k) + Pow2(k) <= Pow2(m)
  {
    if k > 0 {
      BaseFits(ip / 2, k - 1, m - 1);
    }
  }

  lemma Pow2Of32()
    ensures Pow2(32) == IPV4_SIZE
  {
    assert Pow2(4) == 16;
    assert Pow2(8) == 256;
    assert Pow2(12) == 4096;
    assert Pow2(16) == 65536;
    assert Pow2(20) == 1048576;
    assert Pow2(24) == 16777216;
    assert Pow2(28) == 268435456;
  }

  lemma {:induction false} BaseOfZero(k: nat)
    ensures Base(0, k) == 0
  {
    if k > 0 {
      BaseOfZero(k - 1);
    }
  }

  /** The network base has the host bits cleared, the address lies in the
      block that starts there, and the block lies within the address space. */
  lemma FirstIsBase(n: IPv4Network)
    requires ValidNetwork(n)
    ensures Base(First(n), 32 - n.prefixLen) == First(n)
    ensures First(n) <= n.ip < First(n) + Size(n) <= IPV4_SIZE
  {
    BaseBounds(n.ip, 32 - n.prefixLen);
    BaseIdempotent(n.ip, 32 - n.prefixLen);
    Pow2Of32();
    BaseFits(n.ip, 32 - n.prefixLen, 32);
  }

  lemma Pow2Even(k: nat)
    requires k > 0
    ensures Pow2(k) >= 2
  {
  }

  /** The gateway exists exactly when the network has more than one address
      (prefix below 32); it is then the base plus one, an odd address inside
      the network. A host address (`/32`) raises `IndexError`. */
  lemma GatewayIsBasePlusOne(n: IPv4Network)
    requires ValidNetwork(n)
    ensures GatewayOf(n).Ok? <==> n.prefixLen < 32
    ensures GatewayOf(n).Err? ==> GatewayOf(n).error.IndexError?
    ensures GatewayOf(n).Ok? ==>
      var g := GatewayOf(n).value;
      && g == First(n) + 1 && g % 2 == 1
      && First(n) < g < First(n) + Size(n) <= IPV4_SIZE
  {
    FirstIsBase(n);
    if n.prefixLen < 32 {
      Pow2Even(32 - n.prefixLen);
      assert First(n) == 2 * Base(n.ip / 2, 31 - n.prefixLen);
    }
  }

  /** The empty default and anything else unparsable fall back to
      `0.0.0.0/0`, whose gateway is `0.0.0.1`. */
  lemma EmptyCidrFallsBack()
    ensures ParseCidr("") == None
    ensures Stored("") == FALLBACK && GatewayOf(FALLBACK) == Ok(1)
  {
    assert Split("", '/') == [""];
    assert Split("", '.') == [""];
    BaseOfZero(32);
    Pow2Even(32);
  }

  lemma OctetsRoundTrip(ip: nat)
    requires ip < IPV4_SIZE
    ensures var o := Octets(ip); FromOctets(o[0], o[1], o[2], o[3]) == ip
  {
  }

  lemma ParseOctetOfNatToStr(v: nat)
    requires v < 256
    ensures ParseOctet(NatToStr(v)) == Some(v)
  {
    DecimalValueOfNatToStr(v);
  }

  /** A printed address parses back to itself. */
  lemma ParseFormatAddress(ip: nat)
    requires ip < IPV4_SIZE
    ensures ParseAddress(FormatAddress(ip)) == Some(ip)
  {
    var o := Octets(ip);
    var parts := [NatToStr(o[0]), NatToStr(o[1]), NatToStr(o[2]), NatToStr(o[3])];
    assert Join(['.'], parts) == FormatAddress(ip) by {
      assert parts[1..][1..] == parts[2..] && parts[2..][1..] == parts[3..];
      assert Join(['.'], parts[3..]) == parts[3];
      assert Join(['.'], parts[2..]) == parts[2] + "." + parts[3];
      assert Join(['.'], parts[1..]) == parts[1] + "." + (parts[2] + "." + parts[3]);
      assert Join(['.'], parts) == parts[0] + "." + (parts[1] + "." + (parts[2] + "." + parts[3]));
    }
    forall i | 0 <= i < 4 ensures '.' !in parts[i] {
      DigitsHaveNo(parts[i], '.');
    }
    SplitJoin(parts, '.');
    ParseOctetOfNatToStr(o[0]);
    ParseOctetOfNatToStr(o[1]);
    ParseOctetOfNatToStr(o[2]);
    ParseOctetOfNatToStr(o[3]);
    OctetsRoundTrip(ip);
  }

  lemma DigitsHaveNo(s: string, c: char)
    requires AllDigits(s) && !IsDigit(c)
    ensures c !in s
  {
  }

  /** A printed network parses back to itself, so the address and prefix
      the setter stores are the ones printed. */
  lemma ParseFormatCidr(n: IPv4Network)
    requires ValidNetwork(n)
    ensures ParseCidr(FormatCidr(n)) == Some(n)
  {
    var a, p := FormatAddress(n.ip), NatToStr(n.prefixLen);
    var o := Octets(n.ip);
    DigitsHaveNo(NatToStr(o[0]), '/');
    DigitsHaveNo(NatToStr(o[1]), '/');
    DigitsHaveNo(NatToStr(o[2]), '/');
    DigitsHaveNo(NatToStr(o[3]), '/');
    DigitsHaveNo(p, '/');
    assert '/' !in a;
    assert Join(['/'], [a, p]) == FormatCidr(n) by {
      assert [a, p][1..] == [p];
    }
    SplitJoin([a, p], '/');
    ParseFormatAddress(n.ip);
    DecimalValueOfNatToStr(n.prefixLen);
  }

  // ---------------------------------------------------------------------
  // Interface names

  /** Every character of `s` from position `j` on is a decimal digit. */
  predicate DigitsFrom(s: string, j: nat) {
    forall m :: j <= m < |s| ==> IsDigit(s[m])
  }

  /** The number of decimal digits that end `s`. */
  function TrailingDigits(s: string): (k: nat)
    ensures k <= |s| && DigitsFrom(s, |s| - k)
    ensures k < |s| ==> !IsDigit(s[|s| - k - 1])
    decreases |s|
  {
    if |s| > 0 && IsDigit(s[|s| - 1]) then
      var k := TrailingDigits(s[..|s| - 1]);
      assert forall m :: |s| - 1 - k <= m < |s| - 1 ==> s[..|s| - 1][m] == s[m];
      k + 1
    else 0
  }

  /** `br` followed by one or more digits ends `t`. */
  predicate EndsBrDigits(t: string) {
    var k := TrailingDigits(t);
    k > 0 && k + 2 <= |t| && t[|t| - k - 2] == 'b' && t[|t| - k - 1] == 'r'
  }

  /** `re.search(r'br\d+$', name)`: `$` also matches before a final newline. */
  predicate IsBridgeName(name: string) {
    EndsBrDigits(name) || (|name| > 0 && name[|name| - 1] == '\n' && EndsBrDigits(name[..|name| - 1]))
  }

  /** `re.match(r'^bond', name)`. */
  predicate IsBondName(name: string) {
    StartsWith(name, "bond")
  }

  /** `t` is `br`, then digits to the end, from position `i`. */
  predicate BrDigitsAt(t: string, i: nat) {
    i + 2 < |t| && t[i] == 'b' && t[i + 1] == 'r' && DigitsFrom(t, i + 2)
  }

  /** A name ends in `br` and digits exactly when the pattern matches at some
      position: the digit run of a match is the whole trailing run, since
      `r` is not a digit. */
  lemma EndsBrDigitsIff(t: string)
    ensures EndsBrDigits(t) <==> exists i :: BrDigitsAt(t, i)
  {
    var k := TrailingDigits(t);
    if EndsBrDigits(t) {
      assert BrDigitsAt(t, |t| - k - 2);
    }
    if i: nat :| BrDigitsAt(t, i) {
      assert !IsDigit(t[i + 1]);
      assert forall m :: i + 2 <= m < |t| ==> IsDigit(t[m]);
      assert k == |t| - i - 2;
    }
  }

  /** `br` and digits at the end of `t`, counted from the `k` digits. */
  lemma EndsBrDigitsOf(t: string, k: nat)
    requires 0 < k && k + 2 <= |t| && t[|t| - k - 2] == 'b' && t[|t| - k - 1] == 'r'
    requires DigitsFrom(t, |t| - k)
    ensures EndsBrDigits(t)
  {
    EndsBrDigitsIff(t);
    assert BrDigitsAt(t, |t| - k - 2);
  }

  /** Bridges among the names the tests use, and names that are not. */
  lemma BridgeNames()
    ensures IsBridgeName("virbr0") && IsBridgeName("br12") && IsBridgeName("br0\n")
    ensures !IsBridgeName("br") && !IsBridgeName("bond0")
  {
    EndsBrDigitsOf("virbr0", 1);
    EndsBrDigitsOf("br12", 2);
    assert "br0\n"[..3] == "br0";
    EndsBrDigitsOf("br0", 1);
    assert !IsDigit("br"[1]);
    assert TrailingDigits("bond0") == 1 by {
      assert "bond0"[..4] == "bond";
      assert !IsDigit("bond"[3]);
    }
    assert !IsDigit("bond0"[4 - 1]);
  }

  /** Bonds among the names the tests use: a VLAN on a bond is also a bond. */
  lemma BondNames()
    ensures IsBondName("bond0") && IsBondName("bond0.nmn0") && !IsBondName("mgmt0") && !IsBondName("virbr0")
  {
    assert "bond0.nmn0"[..4] == "bond";
    assert "bond0"[..4] == "bond";
    assert "mgmt0"[..4][0] != "bond"[0];
    assert "virbr0"[..4][0] != "bond"[0];
  }

  // ---------------------------------------------------------------------
  // The interface

  /** Keyword arguments of `Interface` and `SystemNetwork`, with the
      defaults of `DefaultArgs` standing for omitted ones. `cidr`, `dns` and
      `search` are `None` when explicitly passed as `None`. */
  datatype NetworkArgs = NetworkArgs(
    interface: string, cidr: Option<string>, dhcp: bool, noip: bool, members: string,
    bondOpts: seq<(string, string)>, vlanId: int, mtu: int, isDefaultRoute: bool,
    dns: Option<Setting>, search: Option<Setting>)

  /** A value for the `dns` or `search` setter: a list, or a comma-separated
      string. */
  datatype Setting = ListSetting(items: seq<string>) | TextSetting(text: string)

  /** Every keyword omitted. */
  function DefaultArgs(): NetworkArgs {
    NetworkArgs("", Some(""), false, false, "", DefaultBondOpts(), 0, 9000, false, Some(TextSetting("")), Some(TextSetting("")))
  }

  /** The fields of an interface, as a value. */
  datatype InterfaceState = InterfaceState(
    name: string, dhcp: bool, noip: bool, ipaddr: Option<IPv4Network>, gateway: Option<nat>,
    members: seq<string>, bondOpts: seq<(string, string)>, vlanId: int, mtu: int, isDefaultRoute: bool)

  const VLAN_ERROR := InterfaceError("Invalid VLAN ID! Must be between 0 and 4094.")

  /** The VLAN ids the setter accepts. */
  predicate VlanIdAccepted(v: int) {
    0 <= v <= 4094
  }

  /** The interface `Interface(**args)` builds, or the exception it raises:
      `IndexError` from the gateway of a one-address network first, then
      `InterfaceError` from the VLAN id. */
  function Built(a: NetworkArgs): Result<InterfaceState, Error> {
    var ipaddr := if a.cidr.Some? then Some(Stored(a.cidr.value)) else None;
    if ipaddr.Some? && GatewayOf(ipaddr.value).Err? then Err(GatewayOf(ipaddr.value).error)
    else if !VlanIdAccepted(a.vlanId) then Err(VLAN_ERROR)
    else
      var gateway := if ipaddr.Some? then Some(GatewayOf(ipaddr.value).value) else None;
      Ok(InterfaceState(a.interface, a.dhcp, a.noip, ipaddr, gateway, Split(a.members, ','),
                        a.bondOpts, a.vlanId, a.mtu, a.isDefaultRoute))
  }

  /** The defaults: no VLAN, MTU 9000, the default bond options, not the
      default route, neither DHCP nor unaddressed, `0.0.0.0/0` with gateway
      `0.0.0.1`, and one empty member. */
  lemma DefaultInterface()
    ensures Built(DefaultArgs()) == Ok(InterfaceState("", false, false, Some(FALLBACK), Some(1), [""],
                                                     DefaultBondOpts(), 0, 9000, false))
  {
    EmptyCidrFallsBack();
    assert Split("", ',') == [""];
  }

  /** Construction fails exactly for a one-address network or a VLAN id
      outside 0..4094, and the address error comes first. */
  lemma BuiltFailsIff(a: NetworkArgs)
    ensures Built(a).Err? <==>
      (a.cidr.Some? && Stored(a.cidr.value).prefixLen == 32) || !VlanIdAccepted(a.vlanId)
    ensures a.cidr.Some? && Stored(a.cidr.value).prefixLen == 32 ==> Built(a).Err? && Built(a).error.IndexError?
    ensures (a.cidr.None? || Stored(a.cidr.value).prefixLen < 32) && !VlanIdAccepted(a.vlanId) ==>
      Built(a).Err? && Built(a).error.InterfaceError?
  {
    if a.cidr.Some? {
      GatewayIsBasePlusOne(Stored(a.cidr.value));
    }
  }

  /** A built interface holds the parsed network (or the fallback), its
      gateway is the base plus one, and its members are the pieces of the
      members string, which joined with commas give the string back. */
  lemma BuiltInterface(a: NetworkArgs)
    requires Built(a).Ok?
    ensures var st := Built(a).value;
      && VlanIdAccepted(st.vlanId)
      && (a.cidr.Some? ==> st.ipaddr == Some(Stored(a.cidr.value)) && st.gateway == Some(First(Stored(a.cidr.value)) + 1))
      && (a.cidr.None? ==> st.ipaddr.None? && st.gateway.None?)
      && |st.members| >= 1 && Join(",", st.members) == a.members
  {
    if a.cidr.Some? {
      GatewayIsBasePlusOne(Stored(a.cidr.value));
    }
    JoinSplit(a.members, ',');
  }

  /** `Interface`; fields the constructor has not set yet are left empty. */
  class Interface {
    var name: string
    var dhcp: bool
    var noip: bool
    var ipaddr: Option<IPv4Network>
    var gateway: Option<nat>
    var members: seq<string>
    var bondOpts: seq<(string, string)>
    var vlanId: int
    var mtu: int
    var isDefaultRoute: bool

    function State(): InterfaceState
      reads this
    {
      InterfaceState(name, dhcp, noip, ipaddr, gateway, members, bondOpts, vlanId, mtu, isDefaultRoute)
    }

    /** The first three assignments of `IPAddr.__init__`. */
    constructor Bare(name: string, dhcp: bool, noip: bool)
      ensures State() == InterfaceState(name, dhcp, noip, None, None, [], [], 0, 0, false)
    {
      this.name := name;
      this.dhcp := dhcp;
      this.noip := noip;
      ipaddr := None;
      gateway := None;
      members := [];
      bondOpts := [];
      vlanId := 0;
      mtu := 0;
      isDefaultRoute := false;
    }

    /** `is_bridge`. */
    predicate IsBridge()
      reads this
    {
      IsBridgeName(name)
    }

    /** `is_bond`. */
    predicate IsBond()
      reads this
    {
      IsBondName(name)
    }

    /** The `ipaddr` setter: `None` changes nothing; otherwise the parsed
        network (or `0.0.0.0/0`) is stored, and then the gateway is set to
        its address at index 1, which raises `IndexError`, leaving the old
        gateway, when the network has a single address. */
    method SetIpaddr(newIpaddr: Option<string>) returns (err: Option<Error>)
      modifies this
      ensures newIpaddr.None? ==> err.None? && State() == old(State())
      ensures newIpaddr.Some? ==>
        var n := Stored(newIpaddr.value);
        && ipaddr == Some(n)
        && (err.None? <==> GatewayOf(n).Ok?)
        && (err.None? ==> gateway == Some(GatewayOf(n).value))
        && (err.Some? ==> err.value == GatewayOf(n).error && gateway == old(gateway))
      ensures name == old(name) && dhcp == old(dhcp) && noip == old(noip) && members == old(members)
      ensures bondOpts == old(bondOpts) && vlanId == old(vlanId) && mtu == old(mtu) && isDefaultRoute == old(isDefaultRoute)
    {
      if newIpaddr.None? {
        return None;
      }
      var n := Stored(newIpaddr.value);
      ipaddr := Some(n);
      var g := GatewayOf(n);
      if g.Err? {
        return Some(g.error);
      }
      gateway := Some(g.value);
      err := None;
    }

    /** The `vlan_id` setter: ids outside 0..4094 raise `InterfaceError` and
        keep the old id. */
    method SetVlanId(newVlanId: int) returns (err: Option<Error>)
      modifies this
      ensures err.None? <==> VlanIdAccepted(newVlanId)
      ensures err.Some? ==> err.value == VLAN_ERROR && State() == old(State())
      ensures err.None? ==> State() == old(State()).(vlanId := newVlanId)
    {
      if newVlanId < 0 || newVlanId > 4094 {
        return Some(VLAN_ERROR);
      }
      vlanId := newVlanId;
      err := None;
    }

    /** The `vlan_id` deleter. */
    method DeleteVlanId()
      modifies this
      ensures State() == old(State()).(vlanId := 0)
    {
      vlanId := 0;
    }
  }

  /** `Interface(**args)`. */
  method NewInterface(a: NetworkArgs) returns (r: Result<Interface, Error>)
    ensures r.Ok? <==> Built(a).Ok?
    ensures r.Err? ==> r.error == Built(a).error
    ensures r.Ok? ==> fresh(r.value) && r.value.State() == Built(a).value
  {
    var i := NewAddressed(a);
    if i.Err? {
      return Err(i.error);
    }
    var iface := i.value;
    iface.members := Split(a.members, ',');
    iface.bondOpts := a.bondOpts;
    var err := iface.SetVlanId(a.vlanId);
    if err.Some? {
      return Err(err.value);
    }
    iface.mtu := a.mtu;
    iface.isDefaultRoute := a.isDefaultRoute;
    r := Ok(iface);
  }

  /** The first four assignments of `Interface(**args)`: name, flags and
      address, which fails for a one-address network. */
  method NewAddressed(a: NetworkArgs) returns (r: Result<Interface, Error>)
    ensures var ipaddr := if a.cidr.Some? then Some(Stored(a.cidr.value)) else None;
      && (r.Err? <==> ipaddr.Some? && GatewayOf(ipaddr.value).Err?)
      && (r.Err? ==> r.error == GatewayOf(ipaddr.value).error)
      && (r.Ok? ==>
            && fresh(r.value)
            && r.value.State() == InterfaceState(a.interface, a.dhcp, a.noip, ipaddr,
                 if ipaddr.Some? then Some(GatewayOf(ipaddr.value).value) else None, [], [], 0, 0, false))
  {
    var i := new Interface.Bare(a.interface, a.dhcp, a.noip);
    var err := i.SetIpaddr(a.cidr);
    if err.Some? {
      return Err(err.value);
    }
    r := Ok(i);
  }

  // ---------------------------------------------------------------------
  // The network manager base

  /** The value the `dns` or `search` setter leaves: `None` keeps the
      current list, a list is stored as it is, a string is split on commas. */
  function Applied(current: seq<string>, v: Option<Setting>): seq<string> {
    match v
    case None => current
    case Some(ListSetting(items)) => items
    case Some(TextSetting(text)) => Split(text, ',')
  }

  /** A string setting is never empty (the default `''` gives `['']`), and
      its pieces joined with commas give the string back. */
  lemma TextSettingPieces(current: seq<string>, text: string)
    ensures var r := Applied(current, Some(TextSetting(text)));
      |r| >= 1 && Join(",", r) == text && (text == "" ==> r == [""])
  {
    JoinSplit(text, ',');
  }

  /** `SystemNetwork`: the interface and the DNS servers and search domains. */
  class SystemNetwork {
    const interface: Interface
    var dns: seq<string>
    var search: seq<string>

    constructor (interface: Interface)
      ensures this.interface == interface && dns == [] && search == []
    {
      this.interface := interface;
      dns := [];
      search := [];
    }

    /** The `dns` setter. */
    method SetDns(v: Option<Setting>)
      modifies this
      ensures dns == Applied(old(dns), v) && search == old(search)
    {
      match v {
        case None =>
        case Some(ListSetting(items)) => dns := items;
        case Some(TextSetting(text)) => dns := Split(text, ',');
      }
    }

    /** The `search` setter. */
    method SetSearch(v: Option<Setting>)
      modifies this
      ensures search == Applied(old(search), v) && dns == old(dns)
    {
      match v {
        case None =>
        case Some(ListSetting(items)) => search := items;
        case Some(TextSetting(text)) => search := Split(text, ',');
      }
    }
  }

  /** `SystemNetwork(**args)`: the interface, then the DNS and search
      setters, both starting from the class-level empty lists. */
  method NewSystemNetwork(a: NetworkArgs) returns (r: Result<SystemNetwork, Error>)
    ensures r.Ok? <==> Built(a).Ok?
    ensures r.Err? ==> r.error == Built(a).error
    ensures r.Ok? ==> fresh(r.value) && fresh(r.value.interface) && r.value.interface.State() == Built(a).value
    ensures r.Ok? ==> r.value.dns == Applied([], a.dns) && r.value.search == Applied([], a.search)
  {
    var i := NewInterface(a);
    if i.Err? {
      return Err(i.error);
    }
    var net := new SystemNetwork(i.value);
    net.SetDns(a.dns);
    net.SetSearch(a.search);
    r := Ok(net);
  }
}
