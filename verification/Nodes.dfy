/** The fixed topology: interfaces and the nodes they belong to, graph.h:18-37, net.c:78-89 and ip.c:196-203. */
module Nodes {
  import opened Bytes
  import opened Wire

  /**
   An interface; `configured` says that it was given an address, net.h:64.  A `Config` maps the number
   that stands for a `struct intf *` to it.
   */
  datatype Interface = Interface(node: nat, mac: Mac, ip: u32, configured: bool)
  type Config = nat -> Interface

  /** `slots(n)` are the interfaces in the slots of node `n`, in slot order. */
  datatype Topology = Topology(cfg: Config, slots: nat -> seq<nat>)

  predicate Matches(i: Interface, ip: u32) {
    i.configured && i.ip == ip
  }

  /** _get_matching_interface, net.c:78-89: the first configured interface with the address. */
  function MatchingInterface(cfg: Config, slots: seq<nat>, ip: u32): (r: Option<nat>)
    ensures r != None ==> exists k :: 0 <= k < |slots| && slots[k] == r.value && Matches(cfg(slots[k]), ip)
                                      && forall j :: 0 <= j < k ==> !Matches(cfg(slots[j]), ip)
    ensures r == None ==> forall j :: 0 <= j < |slots| ==> !Matches(cfg(slots[j]), ip)
  {
    if slots == [] then None
    else if Matches(cfg(slots[0]), ip) then
      assert slots[0] == slots[0];
      Some(slots[0])
    else
      var r := MatchingInterface(cfg, slots[1..], ip);
      assert forall j :: 0 < j < |slots| ==> slots[j] == slots[1..][j - 1];
      r
  }

  /** is_ip_local, ip.c:196-203: any interface with the address, configured or not. */
  predicate IsIpLocal(topo: Topology, node: nat, ip: u32) {
    var slots := topo.slots(node);
    exists k :: 0 <= k < |slots| && topo.cfg(slots[k]).ip == ip
  }

  /** The slot walk of net.c:78-89. */
  method FindInterface(cfg: Config, slots: seq<nat>, ip: u32) returns (r: Option<nat>)
    ensures r == MatchingInterface(cfg, slots, ip)
  {
    for i := 0 to |slots|
      invariant MatchingInterface(cfg, slots, ip) == MatchingInterface(cfg, slots[i..], ip)
    {
      if cfg(slots[i]).configured && cfg(slots[i]).ip == ip {
        return Some(slots[i]);
      }
    }
    r := None;
  }

  /** The slot walk of ip.c:196-203. */
  method CheckIpLocal(topo: Topology, node: nat, ip: u32) returns (found: bool)
    ensures found == IsIpLocal(topo, node, ip)
  {
    var slots := topo.slots(node);
    for i := 0 to |slots|
      invariant forall k :: 0 <= k < i ==> topo.cfg(slots[k]).ip != ip
    {
      if topo.cfg(slots[i]).ip == ip {
        return true;
      }
    }
    found := false;
  }
}
