/**
 * The naming convention every engine-made OS resource follows, and the two
 * prefix filters `Net::clean` (src/net.rs) sweeps with. The convention is the
 * only thing that lets the sweep tell engine-made devices from the rest.
 */
module Naming {
  import opened Strings

  /** `format!("rs-host-{}", name)`: the namespace of host `name`. */
  function HostNamespace(name: string): (ns: string)
    ensures IsPrefix("rs-host-", ns) && ns[8..] == name
  {
    "rs-host-" + name
  }

  /** `format!("rs-veth-{}-1", name)`: the first end of link `name`. */
  function VethOne(name: string): (dev: string)
    ensures |dev| == |name| + 10 && IsPrefix("rs-veth-", dev)
    ensures dev[8..|dev| - 2] == name && dev[|dev| - 2..] == "-1"
  {
    "rs-veth-" + name + "-1"
  }

  /** `format!("rs-veth-{}-2", name)`: the second end of link `name`. */
  function VethTwo(name: string): (dev: string)
    ensures |dev| == |name| + 10 && IsPrefix("rs-veth-", dev)
    ensures dev[8..|dev| - 2] == name && dev[|dev| - 2..] == "-2"
  {
    "rs-veth-" + name + "-2"
  }

  /** `format!("rs-{}", name)`: the bridge device of switch `name`. */
  function Bridge(name: string): (br: string)
    ensures IsPrefix("rs-", br) && br[3..] == name
  {
    "rs-" + name
  }

  /** The link filter of the sweep: `s.starts_with("rs")`. */
  predicate LinkSwept(dev: string) {
    IsPrefix("rs", dev)
  }

  /** The bridge filter of the sweep: `br.starts_with("rs-")`. */
  predicate BridgeSwept(br: string) {
    IsPrefix("rs-", br)
  }

  /**
   * Every name the engine creates is caught by the sweep: both link ends by
   * the link filter, every bridge by the bridge filter (and by the link
   * filter, which also catches the internal port a bridge brings with it),
   * and host namespaces carry the same `rs-` prefix.
   */
  lemma {:induction false} CreatedNamesAreSwept(name: string)
    ensures LinkSwept(VethOne(name)) && LinkSwept(VethTwo(name))
    ensures BridgeSwept(Bridge(name)) && LinkSwept(Bridge(name))
    ensures BridgeSwept(HostNamespace(name))
  {
    assert VethOne(name)[..2] == VethOne(name)[..8][..2];
    assert VethTwo(name)[..2] == VethTwo(name)[..8][..2];
    assert Bridge(name)[..2] == Bridge(name)[..3][..2];
    assert HostNamespace(name)[..3] == HostNamespace(name)[..8][..3];
  }

  /** Different logical names give different device names, within each kind. */
  lemma {:induction false} NamesAreInjective(a: string, b: string)
    ensures HostNamespace(a) == HostNamespace(b) ==> a == b
    ensures VethOne(a) == VethOne(b) ==> a == b
    ensures VethTwo(a) == VethTwo(b) ==> a == b
    ensures Bridge(a) == Bridge(b) ==> a == b
  {
  }

  /** The two ends of any two links never share a name, so a link's ends are always distinct devices. */
  lemma {:induction false} VethEndsDiffer(a: string, b: string)
    ensures VethOne(a) != VethTwo(b)
  {
    var one, two := VethOne(a), VethTwo(b);
    assert one[|one| - 1] == '1';
    assert two[|two| - 1] == '2';
  }

  /**
   * The convention is not collision-free across kinds: the bridge of a
   * switch called "veth-x-1" has the device name of the first end of link "x".
   */
  lemma BridgeCanShadowVeth()
    ensures Bridge("veth-x-1") == VethOne("x")
  {
  }

  /**
   * The link filter is broader than the bridge filter: every name starting
   * with "rs-" starts with "rs", but "rsync0", which the engine never makes,
   * is caught by the link filter alone.
   */
  lemma {:induction false} LinkFilterIsBroad()
    ensures forall n :: BridgeSwept(n) ==> LinkSwept(n)
    ensures LinkSwept("rsync0") && !BridgeSwept("rsync0")
  {
    forall n | BridgeSwept(n) ensures LinkSwept(n) {
      assert n[..2] == n[..3][..2];
    }
    assert "rsync0"[..3][2] == 'y';
  }
}
