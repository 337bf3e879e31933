/**
 * The rule GetIPAndInterfaceName in wireguard_go_ubuntu.go uses to pick the
 * server's outward interface and endpoint address, over a given list of
 * interfaces (the list net.Interfaces() would return), together with the
 * name heuristics isWiredInterface and isWirelessInterface.
 */
module Netif {
  import opened Wrappers
  import opened GoStrings

  type Byte = x: int | 0 <= x < 256

  /** The address kinds Interface.Addrs() yields: only *net.IPNet and *net.IPAddr carry an IP the loop looks at. */
  datatype Addr = IPNet(ip: seq<Byte>) | IPAddr(ip: seq<Byte>) | OtherAddr

  /** An interface as net.Interfaces() reports it; `addrs` is None when Addrs() fails. */
  datatype Interface = Interface(name: string, up: bool, loopback: bool, addrs: Option<seq<Addr>>)

  predicate AllZero(s: seq<Byte>) {
    forall i :: 0 <= i < |s| ==> s[i] == 0
  }

  /** A 16-byte IPv6 address of the form ::ffff:a.b.c.d. */
  predicate IsMapped(ip: seq<Byte>) {
    |ip| == 16 && AllZero(ip[..10]) && ip[10] == 255 && ip[11] == 255
  }

  /** net.IP.To4: a 4-byte address as is, a 16-byte IPv4-mapped address as its last four bytes, nil otherwise. */
  function To4(ip: seq<Byte>): (r: Option<seq<Byte>>)
    ensures r.Some? ==> |r.value| == 4
    ensures r.Some? <==> |ip| == 4 || IsMapped(ip)
  {
    if |ip| == 4 then Some(ip)
    else if IsMapped(ip) then Some(ip[12..])
    else None
  }

  /** The IP the loop takes from an address; None stands for the nil IP of any other address kind. */
  function AddrIP(a: Addr): Option<seq<Byte>> {
    match a
    case IPNet(ip) => Some(ip)
    case IPAddr(ip) => Some(ip)
    case OtherAddr => None
  }

  /** The loop keeps an address when its IP is not nil and To4 of it is not nil. */
  predicate IsIPv4(a: Addr) {
    AddrIP(a).Some? && To4(AddrIP(a).value).Some?
  }

  predicate NoIPv4(addrs: seq<Addr>) {
    forall j :: 0 <= j < |addrs| ==> !IsIPv4(addrs[j])
  }

  /** The interface is up and is not the loopback interface. */
  predicate Eligible(f: Interface) {
    f.up && !f.loopback
  }

  /** The loop moves past this interface without a result and without an error. */
  predicate Passed(f: Interface) {
    !Eligible(f) || (f.addrs.Some? && NoIPv4(f.addrs.value))
  }

  /** The loop stops at this interface with its address j: the first IPv4 address of an eligible interface. */
  predicate ChosenAt(f: Interface, j: nat) {
    && Eligible(f)
    && f.addrs.Some?
    && j < |f.addrs.value|
    && IsIPv4(f.addrs.value[j])
    && forall i :: 0 <= i < j ==> !IsIPv4(f.addrs.value[i])
  }

  /** The outcome of the selection loop: interface k and its address j, the failing Addrs() of interface k, or nothing found. */
  datatype Selection = Found(iface: nat, addr: nat) | AddrsFailed(iface: nat) | NotFound

  /** The index of the first IPv4 address at or after j. */
  function FirstIPv4From(addrs: seq<Addr>, j: nat): (r: Option<nat>)
    requires j <= |addrs|
    ensures r.Some? ==> j <= r.value < |addrs| && IsIPv4(addrs[r.value])
    ensures forall i :: j <= i < |addrs| && (r.None? || i < r.value) ==> !IsIPv4(addrs[i])
    decreases |addrs| - j
  {
    if j == |addrs| then None
    else if IsIPv4(addrs[j]) then Some(j)
    else FirstIPv4From(addrs, j + 1)
  }

  /** The selection loop started at interface k. */
  function SelectFrom(ifaces: seq<Interface>, k: nat): (r: Selection)
    requires k <= |ifaces|
    ensures r.Found? ==> k <= r.iface < |ifaces| && ChosenAt(ifaces[r.iface], r.addr)
    ensures r.AddrsFailed? ==> k <= r.iface < |ifaces| && Eligible(ifaces[r.iface]) && ifaces[r.iface].addrs.None?
    ensures forall i :: k <= i < |ifaces| && (r.NotFound? || i < r.iface) ==> Passed(ifaces[i])
    decreases |ifaces| - k
  {
    if k == |ifaces| then NotFound
    else
      var f := ifaces[k];
      if !Eligible(f) then SelectFrom(ifaces, k + 1)
      else if f.addrs.None? then AddrsFailed(k)
      else
        match FirstIPv4From(f.addrs.value, 0)
        case Some(j) => Found(k, j)
        case None => SelectFrom(ifaces, k + 1)
  }

  /**
   * GetIPAndInterfaceName's rule: the first interface that is up and not
   * loopback decides; the first IPv4 address among its addresses is chosen,
   * and an interface without one is passed over.
   */
  function Select(ifaces: seq<Interface>): Selection {
    SelectFrom(ifaces, 0)
  }

  /** Interfaces listed after the one that decides do not change the outcome. */
  lemma {:induction false} SelectFromAppend(ifaces: seq<Interface>, more: seq<Interface>, k: nat)
    requires k <= |ifaces|
    requires !SelectFrom(ifaces, k).NotFound?
    ensures SelectFrom(ifaces + more, k) == SelectFrom(ifaces, k)
    decreases |ifaces| - k
  {
    assert (ifaces + more)[k] == ifaces[k];
    var f := ifaces[k];
    if !Eligible(f) || (f.addrs.Some? && FirstIPv4From(f.addrs.value, 0).None?) {
      SelectFromAppend(ifaces, more, k + 1);
    }
  }

  /** When nothing is found, the outcome is decided by the interfaces listed after. */
  lemma {:induction false} SelectFromAfterNotFound(ifaces: seq<Interface>, more: seq<Interface>, k: nat)
    requires k <= |ifaces|
    requires SelectFrom(ifaces, k).NotFound?
    ensures SelectFrom(ifaces + more, k) == Shift(SelectFrom(more, 0), |ifaces|)
    decreases |ifaces| - k
  {
    if k == |ifaces| {
      SelectFromShift(ifaces, more, 0);
    } else {
      assert (ifaces + more)[k] == ifaces[k];
      SelectFromAfterNotFound(ifaces, more, k + 1);
    }
  }

  /** A selection with its interface index moved by n. */
  function Shift(s: Selection, n: nat): Selection {
    match s
    case Found(k, j) => Found(k + n, j)
    case AddrsFailed(k) => AddrsFailed(k + n)
    case NotFound => NotFound
  }

  lemma {:induction false} SelectFromShift(ifaces: seq<Interface>, more: seq<Interface>, k: nat)
    requires k <= |more|
    ensures SelectFrom(ifaces + more, |ifaces| + k) == Shift(SelectFrom(more, k), |ifaces|)
    decreases |more| - k
  {
    if k < |more| {
      assert (ifaces + more)[|ifaces| + k] == more[k];
      SelectFromShift(ifaces, more, k + 1);
    }
  }

  /** Selection over a concatenation: the first list decides unless it finds nothing. */
  lemma SelectAppend(ifaces: seq<Interface>, more: seq<Interface>)
    ensures Select(ifaces + more) ==
              if Select(ifaces).NotFound? then Shift(Select(more), |ifaces|) else Select(ifaces)
  {
    if Select(ifaces).NotFound? {
      SelectFromAfterNotFound(ifaces, more, 0);
    } else {
      SelectFromAppend(ifaces, more, 0);
    }
  }

  // ------------------------------------------------------------------
  // net.IP.String for IPv4 addresses
  // ------------------------------------------------------------------

  /** net.IP.String of an address whose To4 is not nil: dotted decimal. */
  function IPv4String(ip4: seq<Byte>): (r: string)
    requires |ip4| == 4
  {
    Join([NatToString(ip4[0]), NatToString(ip4[1]), NatToString(ip4[2]), NatToString(ip4[3])], ".")
  }

  /** Reads dotted decimal back into its four numbers. */
  function ParseIPv4(s: string): Option<seq<int>> {
    var parts := Split(s, '.');
    if |parts| != 4 then None
    else Some([ParseNat(parts[0]), ParseNat(parts[1]), ParseNat(parts[2]), ParseNat(parts[3])])
  }

  lemma DigitsHaveNoDot(n: nat)
    ensures '.' !in NatToString(n)
  {
    var s := NatToString(n);
    forall i | 0 <= i < |s|
      ensures s[i] != '.'
    {
      assert IsDigit(s[i]);
    }
  }

  /** The dotted text of an IPv4 address determines the address. */
  lemma IPv4StringRoundTrip(ip4: seq<Byte>)
    requires |ip4| == 4
    ensures ParseIPv4(IPv4String(ip4)) == Some(ip4)
  {
    var ds := [NatToString(ip4[0]), NatToString(ip4[1]), NatToString(ip4[2]), NatToString(ip4[3])];
    DigitsHaveNoDot(ip4[0]);
    DigitsHaveNoDot(ip4[1]);
    DigitsHaveNoDot(ip4[2]);
    DigitsHaveNoDot(ip4[3]);
    assert forall i :: 0 <= i < |ds| ==> '.' !in ds[i];
    SplitJoin(ds, '.');
    assert Split(IPv4String(ip4), '.') == ds;
    assert ip4 == [ip4[0], ip4[1], ip4[2], ip4[3]];
    ParseNatToString(ip4[0]);
    ParseNatToString(ip4[1]);
    ParseNatToString(ip4[2]);
    ParseNatToString(ip4[3]);
  }

  lemma IPv4StringInjective(a: seq<Byte>, b: seq<Byte>)
    requires |a| == 4 && |b| == 4
    requires IPv4String(a) == IPv4String(b)
    ensures a == b
  {
    IPv4StringRoundTrip(a);
    IPv4StringRoundTrip(b);
  }

  /** The endpoint text for the chosen address: "<ip>:<port>". */
  function Endpoint(a: Addr, port: string): string
    requires IsIPv4(a)
  {
    IPv4String(To4(AddrIP(a).value).value) + ":" + port
  }

  // ------------------------------------------------------------------
  // Interface-name heuristics
  // ------------------------------------------------------------------

  /** isWiredInterface */
  predicate IsWired(name: string) {
    HasPrefix(name, "e") || Contains(name, "eth") || Contains(name, "en")
  }

  /** isWirelessInterface */
  predicate IsWireless(name: string) {
    HasPrefix(name, "w") || Contains(name, "wl") || Contains(name, "wlan")
  }

  /** The "wlan" test of isWirelessInterface never decides anything: "wlan" contains "wl". */
  lemma WirelessWlanRedundant(name: string)
    ensures IsWireless(name) <==> HasPrefix(name, "w") || Contains(name, "wl")
  {
    if Contains(name, "wlan") {
      assert OccursAt("wlan", "wl", 0);
      ContainsAt("wlan", "wl", 0);
      ContainsTransitive(name, "wlan", "wl");
    }
  }

  /** A name without a 'w' is never taken for a wireless interface. */
  lemma NoWNotWireless(name: string)
    requires 'w' !in name
    ensures !IsWireless(name)
  {
    assert !HasPrefix(name, "w") by {
      if |name| >= 1 {
        assert name[..1][0] == name[0];
      }
    }
    forall i ensures !OccursAt(name, "wl", i) && !OccursAt(name, "wlan", i) {
      if 0 <= i && i + 2 <= |name| {
        assert name[i..i + 2][0] == name[i];
      }
      if 0 <= i && i + 4 <= |name| {
        assert name[i..i + 4][0] == name[i];
      }
    }
  }

  /** A name without an 'e' is never taken for a wired interface. */
  lemma NoENotWired(name: string)
    requires 'e' !in name
    ensures !IsWired(name)
  {
    assert !HasPrefix(name, "e") by {
      if |name| >= 1 {
        assert name[..1][0] == name[0];
      }
    }
    forall i ensures !OccursAt(name, "eth", i) && !OccursAt(name, "en", i) {
      if 0 <= i && i + 2 <= |name| {
        assert name[i..i + 2][0] == name[i];
      }
      if 0 <= i && i + 3 <= |name| {
        assert name[i..i + 3][0] == name[i];
      }
    }
  }
}
