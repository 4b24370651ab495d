/**
 * The topology manager of src/net.rs: hosts, interfaces, veth links, traffic
 * shaping, the session registries and the cleanup sweep.
 *
 * What the engine decides is stated as functions from its inputs to the
 * commands it issues (`MoveCommands`, `TcCommands`, `CleanCommands`, ...);
 * the methods that do the work are proved to issue exactly those commands,
 * and the lemmas state what those command sequences guarantee.
 */
module Net {
  import opened Wrappers
  import opened Strings
  import opened Os
  import opened Naming
  import Ipv4
  import opened NetNs
  import opened Switch

  /** `IntfType`: one end of a veth pair, or a loopback device. */
  datatype IntfType = Paired | Loopback

  /** An address together with its mask, as `Intf::ip` records it. */
  type Addressing = (Ipv4.Addr, Ipv4.Addr)

  /** `Host`: a name and the namespace it lives in, if any. Hosts are never changed once made. */
  datatype Host = Host(name: string, netns: Option<NetNamespace>)

  type u64 = x: nat | x < 0x1_0000_0000_0000_0000

  /** `TrafficControl`: `bandwidth` is the text the f64 formats to; `delay` is 0 for "no extra delay". */
  datatype TrafficControl = TrafficControl(bandwidth: string, delay: u64)

  // ---------------------------------------------------------------------------
  // The commands an interface issues

  /** A command run inside `ns` when there is one, in the root namespace otherwise. */
  function Within(ns: Option<NetNamespace>, c: Command): (r: Command)
    ensures Neutral(r) <==> Neutral(c)
    ensures IsText(r) <==> IsText(c)
  {
    if ns.Some? then ExecShell(ns.value, c) else c
  }

  /** `Intf::up`: `ip link set dev up`, inside the interface's namespace when it has one. */
  function UpCommand(dev: string, ns: Option<NetNamespace>): (r: Command)
    ensures Neutral(r) && IsText(r)
    ensures r.InNs? <==> ns.Some?
  {
    Within(ns, LinkUp(dev))
  }

  /**
   * `Intf::set_ip`: nothing without an address; otherwise one `ip address add`
   * of the address alone (the mask is not part of it), inside the
   * interface's namespace when it has one.
   */
  function SetIpCommands(dev: string, ns: Option<NetNamespace>, ip: Option<Addressing>): (cs: seq<Command>)
    ensures ip.None? <==> cs == []
    ensures ip.Some? ==> cs == [Within(ns, AddressAdd(ip.value.0, dev))]
  {
    if ip.Some? then [Within(ns, AddressAdd(ip.value.0, dev))] else []
  }

  /**
   * `Intf::set_route_table`: nothing without an address or without a
   * namespace; otherwise one route to the address's network, inside the
   * namespace.
   */
  function RouteCommands(dev: string, ns: Option<NetNamespace>, ip: Option<Addressing>): (cs: seq<Command>)
    ensures ip.None? || ns.None? <==> cs == []
  {
    if ip.Some? && ns.Some? then
      [ExecShell(ns.value, RouteAdd(Ipv4.Network(ip.value.0, ip.value.1), ip.value.1, dev))]
    else []
  }

  /**
   * `Intf::move_to_netns`: the move run inside the old namespace (only when
   * there was one), the move from the root namespace, then the address, the
   * link-up and the route, all three inside the target.
   */
  function MoveCommands(dev: string, from: Option<NetNamespace>, to: NetNamespace, ip: Option<Addressing>): seq<Command> {
    (if from.Some? then [ExecShell(from.value, LinkSetNetns(dev, to.name))] else [])
    + [LinkSetNetns(dev, to.name)]
    + SetIpCommands(dev, Some(to), ip)
    + [UpCommand(dev, Some(to))]
    + RouteCommands(dev, Some(to), ip)
  }

  /** `MoveCommands` as the move itself followed by the configuration inside the target. */
  lemma MoveGrouping(dev: string, from: Option<NetNamespace>, to: NetNamespace, ip: Option<Addressing>)
    ensures MoveCommands(dev, from, to, ip) ==
            (if from.Some? then [ExecShell(from.value, LinkSetNetns(dev, to.name))] else []) + [LinkSetNetns(dev, to.name)]
            + (SetIpCommands(dev, Some(to), ip) + [UpCommand(dev, Some(to))] + RouteCommands(dev, Some(to), ip))
  {
  }

  /**
   * `Intf::add_tc`: nothing when the interface has no namespace; otherwise
   * the htb root qdisc, the rate class, and the netem delay qdisc when the
   * delay is not zero, all inside the namespace.
   */
  function TcCommands(dev: string, ns: Option<NetNamespace>, tc: TrafficControl): seq<Command> {
    if ns.None? then []
    else
      [ExecShell(ns.value, QdiscRoot(dev)), ExecShell(ns.value, ClassRate(dev, tc.bandwidth))]
      + (if tc.delay != 0 then [ExecShell(ns.value, QdiscDelay(dev, tc.delay))] else [])
  }

  /** A command that configures an address or a route, wherever it runs. */
  predicate Configures(c: Command) {
    match c
    case AddressAdd(_, _) => true
    case RouteAdd(_, _, _) => true
    case InNs(_, inner) => Configures(inner)
    case _ => false
  }

  /**
   * The steps of `move_to_netns`, in order. With `k` the number of moves
   * run inside the old namespace (one if there was one, else none): the root
   * move is at `k`; without an address only the link-up follows; with one,
   * the address, the link-up and the route to the address's network follow,
   * each inside the target.
   */
  lemma {:induction false} MoveSequence(dev: string, from: Option<NetNamespace>, to: NetNamespace, ip: Option<Addressing>)
    ensures var cs, k := MoveCommands(dev, from, to, ip), if from.Some? then 1 else 0;
      && |cs| == k + (if ip.Some? then 4 else 2)
      && (from.Some? ==> cs[0] == InNs(from.value.name, LinkSetNetns(dev, to.name)))
      && cs[k] == LinkSetNetns(dev, to.name)
      && (ip.None? ==> cs[k + 1] == InNs(to.name, LinkUp(dev)))
      && (ip.Some? ==>
            && cs[k + 1] == InNs(to.name, AddressAdd(ip.value.0, dev))
            && cs[k + 2] == InNs(to.name, LinkUp(dev))
            && cs[k + 3] == InNs(to.name, RouteAdd(Ipv4.Network(ip.value.0, ip.value.1), ip.value.1, dev)))
  {
  }

  /**
   * An interface with no address never attempts address or route
   * configuration when moved; one with an address configures exactly its
   * address and the route to its network.
   */
  lemma {:induction false} MoveConfiguresIffAddressed(dev: string, from: Option<NetNamespace>, to: NetNamespace, ip: Option<Addressing>)
    ensures ip.None? <==> forall c :: c in MoveCommands(dev, from, to, ip) ==> !Configures(c)
    ensures ip.Some? ==> forall c :: c in MoveCommands(dev, from, to, ip) && Configures(c) <==>
      c == InNs(to.name, AddressAdd(ip.value.0, dev)) ||
      c == InNs(to.name, RouteAdd(Ipv4.Network(ip.value.0, ip.value.1), ip.value.1, dev))
  {
    if ip.None? {
      MoveUnaddressed(dev, from, to);
    } else {
      MoveAddressed(dev, from, to, ip.value);
    }
  }

  /** The steps of a move that are not address or route configuration: the moves themselves and the link-up. */
  function MoveFrame(dev: string, from: Option<NetNamespace>, to: NetNamespace): seq<Command> {
    (if from.Some? then [InNs(from.value.name, LinkSetNetns(dev, to.name))] else []) + [LinkSetNetns(dev, to.name)]
  }

  /** Without an address a move configures nothing. */
  lemma MoveUnaddressed(dev: string, from: Option<NetNamespace>, to: NetNamespace)
    ensures forall c :: c in MoveCommands(dev, from, to, None) ==> !Configures(c)
  {
    var cs := MoveCommands(dev, from, to, None);
    MoveGrouping(dev, from, to, None);
    assert cs == MoveFrame(dev, from, to) + [InNs(to.name, LinkUp(dev))];
  }

  /** With an address a move configures exactly the address and the route to its network. */
  lemma MoveAddressed(dev: string, from: Option<NetNamespace>, to: NetNamespace, ip: Addressing)
    ensures var addr, route := InNs(to.name, AddressAdd(ip.0, dev)), InNs(to.name, RouteAdd(Ipv4.Network(ip.0, ip.1), ip.1, dev));
      && Configures(addr) && addr in MoveCommands(dev, from, to, Some(ip))
      && forall c :: c in MoveCommands(dev, from, to, Some(ip)) && Configures(c) <==> c == addr || c == route
  {
    var cs := MoveCommands(dev, from, to, Some(ip));
    var addr := InNs(to.name, AddressAdd(ip.0, dev));
    var route := InNs(to.name, RouteAdd(Ipv4.Network(ip.0, ip.1), ip.1, dev));
    var pre := MoveFrame(dev, from, to);
    var post := [addr, InNs(to.name, LinkUp(dev)), route];
    MoveGrouping(dev, from, to, Some(ip));
    assert cs == pre + post;
    forall c ensures c in cs && Configures(c) <==> c == addr || c == route {
      assert c in cs <==> c in pre || c in post;
    }
  }

  /** After the move, every step of `move_to_netns` runs inside the target namespace; only the first one or two run elsewhere. */
  lemma {:induction false} MoveRestRunsInTarget(dev: string, from: Option<NetNamespace>, to: NetNamespace, ip: Option<Addressing>)
    ensures var cs, k := MoveCommands(dev, from, to, ip), if from.Some? then 1 else 0;
      forall i :: k < i < |cs| ==> cs[i].InNs? && cs[i].ns == to.name
  {
    MoveSequence(dev, from, to, ip);
    var cs, k := MoveCommands(dev, from, to, ip), if from.Some? then 1 else 0;
    forall i | k < i < |cs| ensures cs[i].InNs? && cs[i].ns == to.name {
      assert i == k + 1 || i == k + 2 || i == k + 3;
    }
  }

  /**
   * `add_tc` issues nothing without a namespace. Otherwise it issues two or
   * three commands inside it: the htb root, then the rate class, then the
   * netem delay exactly when the delay is not zero.
   */
  lemma {:induction false} TcChoice(dev: string, ns: Option<NetNamespace>, tc: TrafficControl)
    ensures var cs := TcCommands(dev, ns, tc);
      && |cs| == (if ns.None? then 0 else if tc.delay == 0 then 2 else 3)
      && (ns.Some? ==> cs[0] == InNs(ns.value.name, QdiscRoot(dev)) && cs[1] == InNs(ns.value.name, ClassRate(dev, tc.bandwidth)))
      && (ns.Some? && tc.delay != 0 ==> cs[2] == InNs(ns.value.name, QdiscDelay(dev, tc.delay)))
      && ((exists c :: c in cs && c.InNs? && c.cmd.QdiscDelay?) <==> ns.Some? && tc.delay != 0)
  {
    var cs := TcCommands(dev, ns, tc);
    if ns.Some? && tc.delay != 0 {
      assert cs[2] in cs;
    }
  }

  // ---------------------------------------------------------------------------
  // Interfaces

  /** `Intf`: one network endpoint. Only its namespace ever changes. */
  class Intf {
    const name: string
    const kind: IntfType
    var netns: Option<NetNamespace>
    const ip: Option<Addressing>

    constructor (name: string, kind: IntfType, netns: Option<NetNamespace>, ip: Option<Addressing>)
      ensures this.name == name && this.kind == kind && this.netns == netns && this.ip == ip
    {
      this.name := name;
      this.kind := kind;
      this.netns := netns;
      this.ip := ip;
    }

    /** `Intf::up`. Its outcome is only logged. */
    method Up(os: Machine)
      modifies os
      ensures os.env.world == old(os.env.world)
      ensures os.env.log == old(os.env.log) + [UpCommand(name, netns)]
    {
      os.Issue(UpCommand(name, netns));
    }

    /** `Intf::set_ip`. Its outcome is only logged. */
    method SetIp(os: Machine)
      modifies os
      ensures os.env.world == old(os.env.world)
      ensures os.env.log == old(os.env.log) + SetIpCommands(name, netns, ip)
    {
      if ip.Some? {
        os.Issue(Within(netns, AddressAdd(ip.value.0, name)));
      }
    }

    /** `Intf::set_route_table`. Its outcome is only logged. */
    method SetRouteTable(os: Machine)
      modifies os
      ensures os.env.world == old(os.env.world)
      ensures os.env.log == old(os.env.log) + RouteCommands(name, netns, ip)
    {
      if ip.Some? && netns.Some? {
        var mask := ip.value.1;
        os.Issue(ExecShell(netns.value, RouteAdd(Ipv4.Network(ip.value.0, mask), mask, name)));
      }
    }

    /**
     * `Intf::move_to_netns`: the interface now belongs to `target`, and the
     * steps of `MoveCommands` were issued in order. A failing step does not
     * stop the later ones.
     */
    method MoveToNetns(target: NetNamespace, os: Machine)
      modifies this, os
      ensures netns == Some(target)
      ensures os.env.world == old(os.env.world)
      ensures os.env.log == old(os.env.log) + MoveCommands(name, old(netns), target, ip)
    {
      ghost var start := os.env.log;
      var previous := netns;
      netns := Some(target);
      ghost var leave: seq<Command> := if previous.Some? then [ExecShell(previous.value, LinkSetNetns(name, target.name))] else [];
      if previous.Some? {
        os.Issue(ExecShell(previous.value, LinkSetNetns(name, target.name)));
      }
      os.Issue(LinkSetNetns(name, target.name));
      ghost var moved := os.env.log;
      assert moved == start + leave + [LinkSetNetns(name, target.name)];
      SetIp(os);
      Up(os);
      SetRouteTable(os);
      MoveGrouping(name, previous, target, ip);
    }

    /** `Intf::add_tc`: the shaping commands of `TcCommands`; their outcomes are not looked at. */
    method AddTc(tc: TrafficControl, os: Machine)
      modifies os
      ensures os.env.world == old(os.env.world)
      ensures os.env.log == old(os.env.log) + TcCommands(name, netns, tc)
    {
      if netns.Some? {
        os.Issue(ExecShell(netns.value, QdiscRoot(name)));
        os.Issue(ExecShell(netns.value, ClassRate(name, tc.bandwidth)));
        if tc.delay != 0 {
          os.Issue(ExecShell(netns.value, QdiscDelay(name, tc.delay)));
        }
      }
    }
  }

  /** `VethPair`: the two ends of one link. */
  datatype VethPair = VethPair(one: Intf, two: Intf)

  /** A link end as `add_veth_link` makes it: a veth device named `dev`, in no namespace, recording `ip`. */
  ghost predicate NewEnd(i: Intf, dev: string, ip: Option<Addressing>)
    reads i
  {
    i.name == dev && i.kind == Paired && i.netns == None && i.ip == ip
  }

  /**
   * `Host::new`: brings the loopback device of the host's namespace up. The
   * loopback address and mask are recorded on the device but not applied.
   */
  method NewHost(name: string, netns: Option<NetNamespace>, os: Machine) returns (h: Host)
    modifies os
    ensures h == Host(name, netns)
    ensures os.env.world == old(os.env.world)
    ensures os.env.log == old(os.env.log) + [UpCommand("lo", netns)]
  {
    var loopback := new Intf("lo", Loopback, netns, Some((Ipv4.Addr(127, 0, 0, 1), Ipv4.Addr(255, 255, 255, 255))));
    loopback.Up(os);
    h := Host(name, netns);
  }

  // ---------------------------------------------------------------------------
  // The cleanup sweep

  /** The deletion one attribute of a dumped link calls for: its name, when it starts with "rs". */
  function NlaDeletion(index: nat, nla: LinkNla): seq<Command> {
    if nla.IfName? && LinkSwept(nla.name) then [LinkDel(index, nla.name)] else []
  }

  /** The deletions for one dumped link, attribute by attribute. */
  function NlaDeletions(index: nat, nlas: seq<LinkNla>): seq<Command>
    decreases |nlas|
  {
    if nlas == [] then []
    else NlaDeletions(index, nlas[..|nlas| - 1]) + NlaDeletion(index, nlas[|nlas| - 1])
  }

  /** The link deletions of the sweep, link by link in dump order. */
  function LinkDeletions(dump: seq<LinkMsg>): seq<Command>
    decreases |dump|
  {
    if dump == [] then []
    else
      var last := dump[|dump| - 1];
      LinkDeletions(dump[..|dump| - 1]) + NlaDeletions(last.index, last.nlas)
  }

  /** The bridge deletions of the sweep, in listing order: every line that starts with "rs-". */
  function BridgeDeletions(lines: seq<string>): seq<Command>
    decreases |lines|
  {
    if lines == [] then []
    else
      var last := lines[|lines| - 1];
      BridgeDeletions(lines[..|lines| - 1]) + (if BridgeSwept(last) then [DelBr(last)] else [])
  }

  /** The namespace deletions of the sweep: every registered namespace, in registration order. */
  function NsDeletions(nss: seq<NetNamespace>): (cs: seq<Command>)
    ensures |cs| == |nss|
    decreases |nss|
  {
    if nss == [] then []
    else NsDeletions(nss[..|nss| - 1]) + [NetnsDel(nss[|nss| - 1].name)]
  }

  /**
   * `Net::clean`: dump the links and delete the swept ones, list the bridges
   * and delete the swept ones, then delete every registered namespace.
   */
  function CleanCommands(dump: seq<LinkMsg>, brOut: string, nss: seq<NetNamespace>): (cs: seq<Command>)
    ensures |cs| == 2 + |LinkDeletions(dump)| + |BridgeDeletions(Lines(brOut))| + |nss|
    ensures cs[0] == LinkDump && cs[1 + |LinkDeletions(dump)|] == ListBr
  {
    [LinkDump] + LinkDeletions(dump) + [ListBr] + BridgeDeletions(Lines(brOut)) + NsDeletions(nss)
  }

  /** The deletions of one dumped link are exactly its names that start with "rs". */
  lemma {:induction false} NlaDeletionsExact(index: nat, nlas: seq<LinkNla>, c: Command)
    ensures c in NlaDeletions(index, nlas) <==>
            c.LinkDel? && c.index == index && LinkSwept(c.ifname) && IfName(c.ifname) in nlas
    decreases |nlas|
  {
    if nlas != [] {
      var init, last := nlas[..|nlas| - 1], nlas[|nlas| - 1];
      NlaDeletionsExact(index, init, c);
      assert nlas == init + [last];
    }
  }

  /**
   * The sweep deletes exactly the dumped links that have a name starting
   * with "rs", by the index the dump gave them.
   */
  lemma {:induction false} LinkDeletionsExact(dump: seq<LinkMsg>, c: Command)
    ensures c in LinkDeletions(dump) <==>
            c.LinkDel? && LinkSwept(c.ifname) && exists m :: m in dump && m.index == c.index && IfName(c.ifname) in m.nlas
    decreases |dump|
  {
    if dump != [] {
      var init, last := dump[..|dump| - 1], dump[|dump| - 1];
      LinkDeletionsExact(init, c);
      NlaDeletionsExact(last.index, last.nlas, c);
      assert dump == init + [last];
      if c.LinkDel? && LinkSwept(c.ifname) && exists m :: m in dump && m.index == c.index && IfName(c.ifname) in m.nlas {
        var m :| m in dump && m.index == c.index && IfName(c.ifname) in m.nlas;
        if m != last {
          assert m in init;
        }
      }
    }
  }

  /** The sweep deletes exactly the listed bridges whose name starts with "rs-". */
  lemma {:induction false} BridgeDeletionsExact(lines: seq<string>, c: Command)
    ensures c in BridgeDeletions(lines) <==> c.DelBr? && c.bridge in lines && BridgeSwept(c.bridge)
    decreases |lines|
  {
    if lines != [] {
      var init, last := lines[..|lines| - 1], lines[|lines| - 1];
      BridgeDeletionsExact(init, c);
      assert lines == init + [last];
    }
  }

  /** The sweep deletes every registered namespace, one command each, in registration order. */
  lemma {:induction false} NsDeletionsExact(nss: seq<NetNamespace>)
    ensures |NsDeletions(nss)| == |nss|
    ensures forall k :: 0 <= k < |nss| ==> NsDeletions(nss)[k] == NetnsDel(nss[k].name)
    decreases |nss|
  {
    if nss != [] {
      NsDeletionsExact(nss[..|nss| - 1]);
    }
  }

  /** The commands of the sweep: listings and deletions only. */
  predicate IsSweep(c: Command) {
    c.LinkDump? || c.ListBr? || c.LinkDel? || c.DelBr? || c.NetnsDel?
  }

  /** Every command of the sweep is a listing or comes from the deletions of its own kind. */
  lemma {:induction false} CleanMember(dump: seq<LinkMsg>, brOut: string, nss: seq<NetNamespace>, c: Command)
    requires c in CleanCommands(dump, brOut, nss)
    ensures IsSweep(c)
    ensures c.LinkDel? ==> c in LinkDeletions(dump)
    ensures c.DelBr? ==> c in BridgeDeletions(Lines(brOut))
    ensures c.NetnsDel? ==> c in NsDeletions(nss)
  {
    assert c == LinkDump || c in LinkDeletions(dump) || c == ListBr || c in BridgeDeletions(Lines(brOut)) || c in NsDeletions(nss);
    LinkDeletionsExact(dump, c);
    BridgeDeletionsExact(Lines(brOut), c);
    NsDeletionsExact(nss);
    if c in NsDeletions(nss) {
      var k :| 0 <= k < |NsDeletions(nss)| && NsDeletions(nss)[k] == c;
    }
  }

  /** The names a run of sweep commands removes: the targets of its deletions that succeed. */
  ghost function DeletedLinks(cs: seq<Command>, outcome: Command -> bool): set<string> {
    set c | c in cs && c.LinkDel? && outcome(c) :: c.ifname
  }

  ghost function DeletedBridges(cs: seq<Command>, outcome: Command -> bool): set<string> {
    set c | c in cs && c.DelBr? && outcome(c) :: c.bridge
  }

  ghost function DeletedNamespaces(cs: seq<Command>, outcome: Command -> bool): set<string> {
    set c | c in cs && c.NetnsDel? && outcome(c) :: c.ns
  }

  lemma DeletedSnoc(cs: seq<Command>, c: Command, outcome: Command -> bool)
    ensures DeletedLinks(cs + [c], outcome) == DeletedLinks(cs, outcome) + (if c.LinkDel? && outcome(c) then {c.ifname} else {})
    ensures DeletedBridges(cs + [c], outcome) == DeletedBridges(cs, outcome) + (if c.DelBr? && outcome(c) then {c.bridge} else {})
    ensures DeletedNamespaces(cs + [c], outcome) == DeletedNamespaces(cs, outcome) + (if c.NetnsDel? && outcome(c) then {c.ns} else {})
  {
    assert forall x :: x in cs + [c] <==> x in cs || x == c;
  }

  /** The veth peers of the devices `ds`. */
  ghost function PeersOf(w: World, ds: set<string>): set<string> {
    set d | d in ds && d in w.peers :: w.peers[d]
  }

  /** The devices that deleting every device of `ds` takes away: each one and its veth peer. */
  ghost function Removed(w: World, ds: set<string>): set<string> {
    ds + PeersOf(w, ds)
  }

  /** One sweep command removes its own target when it succeeds (a link with its veth peer), and nothing else. */
  lemma ApplySweep(w: World, c: Command, ok: bool)
    requires IsSweep(c)
    ensures var gone := if c.LinkDel? && ok then LinkGone(w, c.ifname) else {};
      Apply(w, c, ok) ==
      World(w.namespaces - (if c.NetnsDel? && ok then {c.ns} else {}),
            w.links - gone,
            w.bridges - (if c.DelBr? && ok then {c.bridge} else {}),
            w.peers - gone)
  {
  }

  /** The peer of a removed device is removed too: `Removed` is closed under the pairing. */
  lemma RemovedClosed(w: World, ds: set<string>, p: string)
    requires PeersMatch(w)
    requires p in Removed(w, ds) && p in w.peers
    ensures w.peers[p] in Removed(w, ds)
  {
    if p !in ds {
      var d :| d in ds && d in w.peers && w.peers[d] == p;
    }
  }

  /**
   * Deleting one more device of a pairing where `ds` were deleted removes
   * what the kernel would remove at that point: the device, and its peer
   * unless that one is gone already.
   */
  lemma RemovedGrows(w: World, w': World, ds: set<string>, dev: string)
    requires PeersMatch(w)
    requires w'.peers == w.peers - Removed(w, ds)
    ensures Removed(w, ds + {dev}) == Removed(w, ds) + LinkGone(w', dev)
  {
    var r := Removed(w, ds);
    assert PeersOf(w, ds + {dev}) == PeersOf(w, ds) + (if dev in w.peers then {w.peers[dev]} else {});
    if dev in w.peers && dev in r {
      RemovedClosed(w, ds, dev);
    }
  }

  /**
   * The World part way through a sweep from `w`: the namespaces `dn`, the
   * links `dl` with their peers and the bridges `db` are gone.
   */
  ghost function Swept(w: World, dn: set<string>, dl: set<string>, db: set<string>): World {
    var gone := Removed(w, dl);
    World(w.namespaces - dn, w.links - gone, w.bridges - db, w.peers - gone)
  }

  /** One more sweep command moves the sweep on by its own target when it succeeds. */
  lemma SweptStep(w: World, dn: set<string>, dl: set<string>, db: set<string>, c: Command, ok: bool)
    requires PeersMatch(w) && IsSweep(c)
    ensures Apply(Swept(w, dn, dl, db), c, ok) ==
            Swept(w, dn + (if c.NetnsDel? && ok then {c.ns} else {}),
                     dl + (if c.LinkDel? && ok then {c.ifname} else {}),
                     db + (if c.DelBr? && ok then {c.bridge} else {}))
  {
    var s := Swept(w, dn, dl, db);
    ApplySweep(s, c, ok);
    if c.LinkDel? && ok {
      var r := Removed(w, dl);
      var g := LinkGone(s, c.ifname);
      RemovedGrows(w, s, dl, c.ifname);
      assert (w.peers - r) - g == w.peers - (r + g);
      assert (w.links - r) - g == w.links - (r + g);
    } else {
      assert dl + {} == dl;
    }
  }

  /**
   * A run of sweep commands removes exactly the targets of its successful
   * deletions, each link with its veth peer, and adds nothing.
   */
  lemma {:induction false} SweepRemoves(e: Env, cs: seq<Command>, outcome: Command -> bool)
    requires PeersMatch(e.world)
    requires forall c :: c in cs ==> IsSweep(c)
    ensures RunAll(e, cs, outcome).world ==
            Swept(e.world, DeletedNamespaces(cs, outcome), DeletedLinks(cs, outcome), DeletedBridges(cs, outcome))
    decreases |cs|
  {
    if cs == [] {
      assert Removed(e.world, {}) == {};
      assert e.world.peers - {} == e.world.peers;
    } else {
      var init, last := cs[..|cs| - 1], cs[|cs| - 1];
      assert cs == init + [last];
      SweepRemoves(e, init, outcome);
      DeletedSnoc(init, last, outcome);
      SweptStep(e.world, DeletedNamespaces(init, outcome), DeletedLinks(init, outcome), DeletedBridges(init, outcome),
                last, outcome(last));
    }
  }

  /** Every interface name the link dump reports. */
  ghost function Dumped(dump: seq<LinkMsg>): set<string> {
    set m, nla | m in dump && nla in m.nlas && nla.IfName? :: nla.name
  }

  /**
   * The sweep removes exactly the dumped names that start with "rs" whose
   * deletion, by the index the dump gave them, succeeds.
   */
  lemma {:induction false} CleanLinkTargets(dump: seq<LinkMsg>, brOut: string, nss: seq<NetNamespace>, outcome: Command -> bool, n: string)
    ensures n in DeletedLinks(CleanCommands(dump, brOut, nss), outcome) <==>
            LinkSwept(n) && exists m :: m in dump && IfName(n) in m.nlas && outcome(LinkDel(m.index, n))
  {
    var cs := CleanCommands(dump, brOut, nss);
    if n in DeletedLinks(cs, outcome) {
      var c :| c in cs && c.LinkDel? && outcome(c) && c.ifname == n;
      CleanMember(dump, brOut, nss, c);
      LinkDeletionsExact(dump, c);
      var m :| m in dump && m.index == c.index && IfName(n) in m.nlas;
      assert c == LinkDel(m.index, n);
    }
    if LinkSwept(n) && exists m :: m in dump && IfName(n) in m.nlas && outcome(LinkDel(m.index, n)) {
      var m :| m in dump && IfName(n) in m.nlas && outcome(LinkDel(m.index, n));
      var c := LinkDel(m.index, n);
      LinkDeletionsExact(dump, c);
      assert c in cs;
    }
  }

  /** The sweep removes exactly the listed bridges that start with "rs-" whose deletion succeeds. */
  lemma {:induction false} CleanBridgeTargets(dump: seq<LinkMsg>, brOut: string, nss: seq<NetNamespace>, outcome: Command -> bool)
    ensures DeletedBridges(CleanCommands(dump, brOut, nss), outcome) ==
            set b | b in Lines(brOut) && BridgeSwept(b) && outcome(DelBr(b))
  {
    var cs := CleanCommands(dump, brOut, nss);
    forall b | b in DeletedBridges(cs, outcome) ensures b in Lines(brOut) && BridgeSwept(b) && outcome(DelBr(b)) {
      var c :| c in cs && c.DelBr? && outcome(c) && c.bridge == b;
      CleanMember(dump, brOut, nss, c);
      BridgeDeletionsExact(Lines(brOut), c);
    }
    forall b | b in Lines(brOut) && BridgeSwept(b) && outcome(DelBr(b)) ensures b in DeletedBridges(cs, outcome) {
      BridgeDeletionsExact(Lines(brOut), DelBr(b));
      assert DelBr(b) in cs;
    }
  }

  /** The sweep removes exactly the registered namespaces whose deletion succeeds. */
  lemma {:induction false} CleanNsTargets(dump: seq<LinkMsg>, brOut: string, nss: seq<NetNamespace>, outcome: Command -> bool)
    ensures DeletedNamespaces(CleanCommands(dump, brOut, nss), outcome) ==
            set ns | ns in nss && outcome(NetnsDel(ns.name)) :: ns.name
  {
    var cs := CleanCommands(dump, brOut, nss);
    NsDeletionsExact(nss);
    forall n | n in DeletedNamespaces(cs, outcome) ensures exists ns :: ns in nss && outcome(NetnsDel(ns.name)) && ns.name == n {
      var c :| c in cs && c.NetnsDel? && outcome(c) && c.ns == n;
      CleanMember(dump, brOut, nss, c);
      var k :| 0 <= k < |NsDeletions(nss)| && NsDeletions(nss)[k] == c;
      assert nss[k] in nss;
    }
    forall ns | ns in nss && outcome(NetnsDel(ns.name)) ensures ns.name in DeletedNamespaces(cs, outcome) {
      var k :| 0 <= k < |nss| && nss[k] == ns;
      assert NsDeletions(nss)[k] in cs;
    }
  }

  /**
   * The link dump reaches every swept link that exists: it names the link,
   * or, when the link sits where the root-namespace dump cannot see it (end
   * two of a pair moved into a host's namespace), it names the link's veth
   * peer, which the sweep also catches.
   */
  ghost predicate DumpReaches(dump: seq<LinkMsg>, w: World) {
    forall n :: n in w.links && LinkSwept(n) ==>
      || n in Dumped(dump)
      || (n in w.peers && w.peers[n] in Dumped(dump) && LinkSwept(w.peers[n]))
  }

  /** The bridge listing has a line for every bridge that exists. */
  predicate ListingShows(brOut: string, w: World) {
    forall b :: b in w.bridges ==> b in Lines(brOut)
  }

  /**
   * The kernel's answers to the link deletions of the sweep: a deletion
   * fails only when its link is not there to delete, because it never
   * existed or because the successful deletion of its veth peer took it away.
   */
  ghost predicate LinkOutcomes(dump: seq<LinkMsg>, w: World, outcome: Command -> bool) {
    forall c :: c in LinkDeletions(dump) && c.LinkDel? && !outcome(c) ==>
      || c.ifname !in w.links
      || (c.ifname in w.peers && exists c' :: c' in LinkDeletions(dump) && c'.LinkDel? && outcome(c') && c'.ifname == w.peers[c.ifname])
  }

  /** The kernel's answers to the other deletions: deleting a bridge or a namespace that exists succeeds. */
  predicate DeletionsSucceed(w: World, outcome: Command -> bool) {
    && (forall b :: b in w.bridges ==> outcome(DelBr(b)))
    && (forall ns :: ns in w.namespaces ==> outcome(NetnsDel(ns)))
  }

  /** A swept link that exists and that the dump names is taken away by the sweep: by its own deletion or by its peer's. */
  lemma DumpedLinkRemoved(e: Env, dump: seq<LinkMsg>, brOut: string, nss: seq<NetNamespace>, outcome: Command -> bool, n: string)
    requires PeersMatch(e.world) && LinkOutcomes(dump, e.world, outcome)
    requires n in e.world.links && LinkSwept(n) && n in Dumped(dump)
    ensures n in Removed(e.world, DeletedLinks(CleanCommands(dump, brOut, nss), outcome))
  {
    var cs := CleanCommands(dump, brOut, nss);
    var m, nla :| m in dump && nla in m.nlas && nla.IfName? && nla.name == n;
    var c := LinkDel(m.index, n);
    LinkDeletionsExact(dump, c);
    if outcome(c) {
      assert c in cs;
    } else {
      var c' :| c' in LinkDeletions(dump) && c'.LinkDel? && outcome(c') && c'.ifname == e.world.peers[n];
      assert c' in cs;
      assert e.world.peers[n] in DeletedLinks(cs, outcome);
    }
  }

  /** A swept link that exists is taken away by the sweep, whether the dump names it or only its peer. */
  lemma SweptLinkRemoved(e: Env, dump: seq<LinkMsg>, brOut: string, nss: seq<NetNamespace>, outcome: Command -> bool, n: string)
    requires PeersMatch(e.world) && DumpReaches(dump, e.world) && LinkOutcomes(dump, e.world, outcome)
    requires n in e.world.links && LinkSwept(n)
    ensures n in Removed(e.world, DeletedLinks(CleanCommands(dump, brOut, nss), outcome))
  {
    if n in Dumped(dump) {
      DumpedLinkRemoved(e, dump, brOut, nss, outcome, n);
    } else {
      var p := e.world.peers[n];
      DumpedLinkRemoved(e, dump, brOut, nss, outcome, p);
      RemovedClosed(e.world, DeletedLinks(CleanCommands(dump, brOut, nss), outcome), p);
    }
  }

  /**
   * When the kernel answers the deletions as it does, the bridge listing
   * shows every bridge and the dump reaches every swept link (itself or
   * through its veth peer), the sweep leaves no link starting with "rs" and
   * no veth end whose peer starts with "rs", no bridge starting with "rs-"
   * and no registered namespace, and it leaves every other link, bridge and
   * namespace in place.
   */
  lemma {:induction false} CleanLeavesNothing(e: Env, dump: seq<LinkMsg>, brOut: string, nss: seq<NetNamespace>, outcome: Command -> bool)
    requires PeersMatch(e.world)
    requires DumpReaches(dump, e.world) && ListingShows(brOut, e.world)
    requires LinkOutcomes(dump, e.world, outcome) && DeletionsSucceed(e.world, outcome)
    ensures var w := RunAll(e, CleanCommands(dump, brOut, nss), outcome).world;
      && w.links == (set n | n in e.world.links && !LinkSwept(n) && !(n in e.world.peers && LinkSwept(e.world.peers[n])))
      && w.bridges == (set b | b in e.world.bridges && !BridgeSwept(b))
      && w.namespaces == e.world.namespaces - (set ns | ns in nss :: ns.name)
  {
    var cs := CleanCommands(dump, brOut, nss);
    forall c | c in cs ensures IsSweep(c) {
      CleanMember(dump, brOut, nss, c);
    }
    SweepRemoves(e, cs, outcome);
    CleanBridgeTargets(dump, brOut, nss, outcome);
    CleanNsTargets(dump, brOut, nss, outcome);
    var w := RunAll(e, cs, outcome).world;
    var dl := DeletedLinks(cs, outcome);
    forall n | n in e.world.links
      ensures n in Removed(e.world, dl) <==> LinkSwept(n) || (n in e.world.peers && LinkSwept(e.world.peers[n]))
    {
      if LinkSwept(n) {
        SweptLinkRemoved(e, dump, brOut, nss, outcome, n);
      } else if n in e.world.peers && LinkSwept(e.world.peers[n]) {
        SweptLinkRemoved(e, dump, brOut, nss, outcome, e.world.peers[n]);
        RemovedClosed(e.world, dl, e.world.peers[n]);
      }
      if n in Removed(e.world, dl) {
        if n in dl {
          CleanLinkTargets(dump, brOut, nss, outcome, n);
        } else {
          var d :| d in dl && d in e.world.peers && e.world.peers[d] == n;
          CleanLinkTargets(dump, brOut, nss, outcome, d);
        }
      }
    }
  }

  /** Listings and deletions of namespaces that do not exist leave the World as it is. */
  lemma ListingsOnly(e: Env, cs: seq<Command>, outcome: Command -> bool)
    requires PeersMatch(e.world)
    requires forall c :: c in cs ==> c.LinkDump? || c.ListBr? || (c.NetnsDel? && c.ns !in e.world.namespaces)
    ensures RunAll(e, cs, outcome).world == e.world
  {
    SweepRemoves(e, cs, outcome);
    assert DeletedLinks(cs, outcome) == {};
    assert Removed(e.world, {}) == {};
    assert e.world.peers - {} == e.world.peers;
  }

  /**
   * On a system the sweep already cleared, with listings that show only what
   * exists, a second sweep deletes no link and no bridge: it lists, and
   * deletes the registered namespaces again; they no longer exist, so the
   * World stays as it is whatever the outcomes.
   */
  lemma {:induction false} CleanAgainDeletesNothing(e: Env, dump: seq<LinkMsg>, brOut: string, nss: seq<NetNamespace>, outcome: Command -> bool)
    requires PeersMatch(e.world)
    requires forall n :: n in e.world.links ==> !LinkSwept(n)
    requires forall b :: b in e.world.bridges ==> !BridgeSwept(b)
    requires forall ns :: ns in nss ==> ns.name !in e.world.namespaces
    requires forall m, nla :: m in dump && nla in m.nlas && nla.IfName? ==> nla.name in e.world.links
    requires forall l :: l in Lines(brOut) ==> l == "" || l in e.world.bridges
    ensures CleanCommands(dump, brOut, nss) == [LinkDump, ListBr] + NsDeletions(nss)
    ensures RunAll(e, CleanCommands(dump, brOut, nss), outcome).world == e.world
  {
    if LinkDeletions(dump) != [] {
      var c := LinkDeletions(dump)[0];
      assert c in LinkDeletions(dump);
      LinkDeletionsExact(dump, c);
      assert false;
    }
    if BridgeDeletions(Lines(brOut)) != [] {
      var c := BridgeDeletions(Lines(brOut))[0];
      assert c in BridgeDeletions(Lines(brOut));
      BridgeDeletionsExact(Lines(brOut), c);
      assert false;
    }
    var cs := CleanCommands(dump, brOut, nss);
    assert cs == [LinkDump, ListBr] + NsDeletions(nss);
    NsDeletionsExact(nss);
    forall c | c in cs ensures c.LinkDump? || c.ListBr? || (c.NetnsDel? && c.ns !in e.world.namespaces) {
      if c in NsDeletions(nss) {
        var k :| 0 <= k < |NsDeletions(nss)| && NsDeletions(nss)[k] == c;
        assert nss[k] in nss;
      }
    }
    ListingsOnly(e, cs, outcome);
  }

  /**
   * The sweep is idempotent: after a sweep the kernel answered as it does,
   * with a complete bridge listing and a dump that reached every swept link,
   * a second sweep whose listings show
   * exactly what is left deletes no link and no bridge and changes nothing.
   */
  lemma {:induction false} CleanTwice(e: Env, dump1: seq<LinkMsg>, brOut1: string, dump2: seq<LinkMsg>, brOut2: string,
                                      nss: seq<NetNamespace>, outcome: Command -> bool)
    requires PeersMatch(e.world)
    requires DumpReaches(dump1, e.world) && ListingShows(brOut1, e.world)
    requires LinkOutcomes(dump1, e.world, outcome) && DeletionsSucceed(e.world, outcome)
    requires var w := RunAll(e, CleanCommands(dump1, brOut1, nss), outcome).world;
      && (forall m, nla :: m in dump2 && nla in m.nlas && nla.IfName? ==> nla.name in w.links)
      && (forall l :: l in Lines(brOut2) ==> l == "" || l in w.bridges)
    ensures var e1 := RunAll(e, CleanCommands(dump1, brOut1, nss), outcome);
      && CleanCommands(dump2, brOut2, nss) == [LinkDump, ListBr] + NsDeletions(nss)
      && RunAll(e1, CleanCommands(dump2, brOut2, nss), outcome).world == e1.world
  {
    var e1 := RunAll(e, CleanCommands(dump1, brOut1, nss), outcome);
    CleanLeavesNothing(e, dump1, brOut1, nss, outcome);
    RunAllPeersMatch(e, CleanCommands(dump1, brOut1, nss), outcome);
    forall b | b in e1.world.bridges ensures !BridgeSwept(b) {
      assert b in set b' | b' in e.world.bridges && !BridgeSwept(b');
    }
    forall ns | ns in nss ensures ns.name !in e1.world.namespaces {
      assert ns.name in set ns' | ns' in nss :: ns'.name;
    }
    CleanAgainDeletesNothing(e1, dump2, brOut2, nss, outcome);
  }

  /**
   * The registries as `add_host` fills them: one namespace per host, in the
   * same order, the k-th namespace being the k-th host's and named after it.
   */
  predicate Registered(nss: seq<NetNamespace>, hosts: seq<Host>) {
    && |nss| == |hosts|
    && forall k :: 0 <= k < |nss| ==> hosts[k].netns == Some(nss[k]) && nss[k].name == HostNamespace(hosts[k].name)
  }

  /** One more host registered as `add_host` does it keeps the registries paired. */
  lemma {:induction false} RegisteredSnoc(nss: seq<NetNamespace>, hosts: seq<Host>, name: string)
    requires Registered(nss, hosts)
    ensures var ns := NetNamespace(HostNamespace(name));
      Registered(nss + [ns], hosts + [Host(name, Some(ns))])
  {
  }

  /** The sweep deletes the namespace of every registered host. */
  lemma RegisteredDeleted(nss: seq<NetNamespace>, hosts: seq<Host>)
    requires Registered(nss, hosts)
    ensures forall h :: h in hosts ==> NetnsDel(HostNamespace(h.name)) in NsDeletions(nss)
  {
    NsDeletionsExact(nss);
    forall h | h in hosts ensures NetnsDel(HostNamespace(h.name)) in NsDeletions(nss) {
      var k :| 0 <= k < |hosts| && hosts[k] == h;
      assert NsDeletions(nss)[k] == NetnsDel(HostNamespace(h.name));
    }
  }

  /**
   * What the engine creates, the sweep removes: when the kernel answers the
   * deletions as it does, the bridge listing is complete and the dump
   * reaches every swept link, no veth end and
   * no switch bridge of any name is left, and no registered host's namespace.
   */
  lemma {:induction false} CleanRemovesCreated(e: Env, dump: seq<LinkMsg>, brOut: string, nss: seq<NetNamespace>, hosts: seq<Host>,
                                               outcome: Command -> bool)
    requires PeersMatch(e.world)
    requires DumpReaches(dump, e.world) && ListingShows(brOut, e.world)
    requires LinkOutcomes(dump, e.world, outcome) && DeletionsSucceed(e.world, outcome)
    requires Registered(nss, hosts)
    ensures var w := RunAll(e, CleanCommands(dump, brOut, nss), outcome).world;
      && (forall n :: VethOne(n) !in w.links && VethTwo(n) !in w.links && Bridge(n) !in w.bridges)
      && (forall h :: h in hosts ==> HostNamespace(h.name) !in w.namespaces)
  {
    var w := RunAll(e, CleanCommands(dump, brOut, nss), outcome).world;
    CleanLeavesNothing(e, dump, brOut, nss, outcome);
    forall n ensures VethOne(n) !in w.links && VethTwo(n) !in w.links && Bridge(n) !in w.bridges {
      CreatedNamesAreSwept(n);
    }
    forall h | h in hosts ensures HostNamespace(h.name) !in w.namespaces {
      var k :| 0 <= k < |hosts| && hosts[k] == h;
      assert nss[k].name in set ns | ns in nss :: ns.name;
    }
  }

  /** The link dump of `VethPairSwept`: end one at index 1, end two at index 2. */
  function PairDump(name: string): seq<LinkMsg> {
    [LinkMsg(1, [IfName(VethOne(name))]), LinkMsg(2, [IfName(VethTwo(name))])]
  }

  /** The kernel's answers of `VethPairSwept`: only the deletion of end two fails, end two being gone by then. */
  function PairOutcome(name: string): Command -> bool {
    c => c != LinkDel(2, VethTwo(name))
  }

  /** The World of `VethPairSwept`: one veth pair and nothing else. */
  function PairWorld(name: string): World {
    World({}, {VethOne(name), VethTwo(name)}, {}, map[VethOne(name) := VethTwo(name), VethTwo(name) := VethOne(name)])
  }

  /** Those answers are what the kernel gives: the one failing deletion is of an end whose peer's deletion succeeds. */
  lemma PairOutcomesHold(name: string)
    ensures PeersMatch(PairWorld(name)) && DumpReaches(PairDump(name), PairWorld(name))
    ensures LinkOutcomes(PairDump(name), PairWorld(name), PairOutcome(name))
  {
    var one, two := VethOne(name), VethTwo(name);
    var dump := PairDump(name);
    VethEndsDiffer(name, name);
    CreatedNamesAreSwept(name);
    assert dump[0] in dump && IfName(one) in dump[0].nlas;
    assert dump[1] in dump && IfName(two) in dump[1].nlas;
    LinkDeletionsExact(dump, LinkDel(1, one));
  }

  /**
   * A veth pair both of whose ends the dump reports: deleting the first end
   * takes the second with it, so the second deletion fails, and the sweep
   * still leaves no link behind.
   */
  lemma VethPairSwept(name: string)
    ensures RunAll(Env(PairWorld(name), []), CleanCommands(PairDump(name), "", []), PairOutcome(name)).world.links == {}
  {
    PairOutcomesHold(name);
    CreatedNamesAreSwept(name);
    CleanLeavesNothing(Env(PairWorld(name), []), PairDump(name), "", [], PairOutcome(name));
  }

  /** The link dump of `HostPairSwept`: the root namespace shows end one only, end two having moved into the host's namespace. */
  function HostDump(name: string): seq<LinkMsg> {
    [LinkMsg(1, [IfName(VethOne(name))])]
  }

  /** The World of `HostPairSwept`: the host's namespace and one veth pair connecting it. */
  function HostWorld(name: string, host: string): World {
    World({HostNamespace(host)}, {VethOne(name), VethTwo(name)}, {}, map[VethOne(name) := VethTwo(name), VethTwo(name) := VethOne(name)])
  }

  /** That dump does not name end two, yet it reaches every swept link of that World. */
  lemma HostDumpReaches(name: string, host: string)
    ensures VethTwo(name) !in Dumped(HostDump(name))
    ensures PeersMatch(HostWorld(name, host)) && DumpReaches(HostDump(name), HostWorld(name, host))
  {
    var dump := HostDump(name);
    VethEndsDiffer(name, name);
    CreatedNamesAreSwept(name);
    assert dump[0] in dump && IfName(VethOne(name)) in dump[0].nlas;
  }

  /**
   * The session after `connect_switch_host`: end two lives in the host's
   * namespace, so the dump shows end one only. When every deletion
   * succeeds, the sweep still leaves no link, end two going with end one,
   * and no namespace.
   */
  lemma HostPairSwept(name: string, host: string)
    ensures var w := RunAll(Env(HostWorld(name, host), []), CleanCommands(HostDump(name), "", [NetNamespace(HostNamespace(host))]), c => true).world;
      w.links == {} && w.namespaces == {}
  {
    HostDumpReaches(name, host);
    CreatedNamesAreSwept(name);
    CleanLeavesNothing(Env(HostWorld(name, host), []), HostDump(name), "", [NetNamespace(HostNamespace(host))], c => true);
  }

  lemma NlaDeletionsSnoc(index: nat, nlas: seq<LinkNla>, j: nat)
    requires j < |nlas|
    ensures NlaDeletions(index, nlas[..j + 1]) == NlaDeletions(index, nlas[..j]) + NlaDeletion(index, nlas[j])
  {
    assert nlas[..j + 1][..j] == nlas[..j];
  }

  lemma LinkDeletionsSnoc(dump: seq<LinkMsg>, i: nat)
    requires i < |dump|
    ensures LinkDeletions(dump[..i + 1]) == LinkDeletions(dump[..i]) + NlaDeletions(dump[i].index, dump[i].nlas)
  {
    assert dump[..i + 1][..i] == dump[..i];
  }

  lemma BridgeDeletionsSnoc(lines: seq<string>, k: nat)
    requires k < |lines|
    ensures BridgeDeletions(lines[..k + 1]) == BridgeDeletions(lines[..k]) + (if BridgeSwept(lines[k]) then [DelBr(lines[k])] else [])
  {
    assert lines[..k + 1][..k] == lines[..k];
  }

  lemma NsDeletionsSnoc(nss: seq<NetNamespace>, n: nat)
    requires n < |nss|
    ensures NsDeletions(nss[..n + 1]) == NsDeletions(nss[..n]) + [NetnsDel(nss[n].name)]
  {
    assert nss[..n + 1][..n] == nss[..n];
  }

  /** The inner loop of `Net::clean`: the deletions for one dumped link, attribute by attribute. */
  method SweepLinkNames(index: nat, nlas: seq<LinkNla>, outcome: Command -> bool, os: Machine)
    modifies os
    ensures os.env == RunAll(old(os.env), NlaDeletions(index, nlas), outcome)
  {
    ghost var start := os.env;
    var j := 0;
    while j < |nlas|
      invariant 0 <= j <= |nlas|
      invariant os.env == RunAll(start, NlaDeletions(index, nlas[..j]), outcome)
    {
      var nla := nlas[j];
      NlaDeletionsSnoc(index, nlas, j);
      if nla.IfName? && LinkSwept(nla.name) {
        var c := LinkDel(index, nla.name);
        RunAllSnoc(start, NlaDeletions(index, nlas[..j]), c, outcome);
        os.Run(c, outcome(c));
      } else {
        assert NlaDeletions(index, nlas[..j + 1]) == NlaDeletions(index, nlas[..j]);
      }
      j := j + 1;
    }
    assert nlas[..j] == nlas;
  }

  /** The link loop of `Net::clean`: every dumped link in dump order. */
  method SweepLinks(dump: seq<LinkMsg>, outcome: Command -> bool, os: Machine)
    modifies os
    ensures os.env == RunAll(old(os.env), LinkDeletions(dump), outcome)
  {
    ghost var start := os.env;
    var i := 0;
    while i < |dump|
      invariant 0 <= i <= |dump|
      invariant os.env == RunAll(start, LinkDeletions(dump[..i]), outcome)
    {
      SweepLinkNames(dump[i].index, dump[i].nlas, outcome, os);
      LinkDeletionsSnoc(dump, i);
      RunAllAppend(start, LinkDeletions(dump[..i]), NlaDeletions(dump[i].index, dump[i].nlas), outcome);
      i := i + 1;
    }
    assert dump[..i] == dump;
  }

  /** The bridge loop of `Net::clean`: every listed line that starts with "rs-" is deleted. */
  method SweepBridges(lines: seq<string>, outcome: Command -> bool, os: Machine)
    modifies os
    ensures os.env == RunAll(old(os.env), BridgeDeletions(lines), outcome)
  {
    ghost var start := os.env;
    var k := 0;
    while k < |lines|
      invariant 0 <= k <= |lines|
      invariant os.env == RunAll(start, BridgeDeletions(lines[..k]), outcome)
    {
      var br := lines[k];
      BridgeDeletionsSnoc(lines, k);
      if BridgeSwept(br) {
        RunAllSnoc(start, BridgeDeletions(lines[..k]), DelBr(br), outcome);
        os.Run(DelBr(br), outcome(DelBr(br)));
      } else {
        assert BridgeDeletions(lines[..k + 1]) == BridgeDeletions(lines[..k]);
      }
      k := k + 1;
    }
    assert lines[..k] == lines;
  }

  /** The namespace loop of `Net::clean`: every registered namespace is deleted, in order. */
  method SweepNamespaces(nss: seq<NetNamespace>, outcome: Command -> bool, os: Machine)
    modifies os
    ensures os.env == RunAll(old(os.env), NsDeletions(nss), outcome)
  {
    ghost var start := os.env;
    var n := 0;
    while n < |nss|
      invariant 0 <= n <= |nss|
      invariant os.env == RunAll(start, NsDeletions(nss[..n]), outcome)
    {
      var ns := nss[n];
      NsDeletionsSnoc(nss, n);
      RunAllSnoc(start, NsDeletions(nss[..n]), NetnsDel(ns.name), outcome);
      os.Run(NetnsDel(ns.name), outcome(NetnsDel(ns.name)));
      n := n + 1;
    }
    assert nss[..n] == nss;
  }

  // ---------------------------------------------------------------------------
  // The session

  /** `Net`: the registries of one session. The netlink handle is the `Machine` every method is given. */
  class Net {
    var nss: seq<NetNamespace>
    var host: seq<Host>
    var ovsswitch: seq<OVSSwitch>

    /** The host and namespace registries stay paired. */
    ghost predicate Valid()
      reads this
    {
      Registered(nss, host)
    }

    constructor ()
      ensures nss == [] && host == [] && ovsswitch == []
      ensures Valid()
    {
      nss, host, ovsswitch := [], [], [];
    }

    /**
     * `Net::add_host`: gets or creates the namespace "rs-host-" + name (the
     * listing `ip netns show` printed is `out`, the outcome of `ip netns add`
     * is `ok`). When that yields a namespace, builds the host in it and
     * registers the namespace and the host, one entry each; otherwise returns
     * nothing and neither registry changes. The lookup and the creation are
     * both issued, as `get_or_add` does, and the registries stay paired.
     */
    method AddHost(name: string, out: Option<string>, ok: bool, os: Machine) returns (r: Option<Host>)
      requires Valid()
      modifies this, os
      ensures var ns := NetNamespace(HostNamespace(name));
        && (r.Some? <==> Listed(out, ns.name) || ok)
        && (r.Some? ==> r.value == Host(name, Some(ns)) && nss == old(nss) + [ns] && host == old(host) + [r.value])
        && (r.None? ==> nss == old(nss) && host == old(host))
        && os.env.world == Apply(old(os.env.world), NetnsAdd(ns.name), ok)
        && os.env.log == old(os.env.log) + [NetnsShow, NetnsAdd(ns.name)] + (if r.Some? then [UpCommand("lo", Some(ns))] else [])
      ensures ovsswitch == old(ovsswitch)
      ensures Valid()
    {
      ghost var start := os.env;
      var nsName := HostNamespace(name);
      var found := Get(os.env, nsName, out).0;
      os.Issue(NetnsShow);
      var added := Add(os.env, nsName, ok).0;
      os.Run(NetnsAdd(nsName), ok);
      var got := if found.Some? then found else added;
      assert got == GetOrAdd(start, nsName, out, ok).0;
      if got.None? {
        return None;
      }
      var netns := got.value;
      nss := nss + [netns];
      var h := NewHost(name, Some(netns), os);
      RegisteredSnoc(old(nss), old(host), name);
      host := host + [h];
      r := Some(h);
    }

    /**
     * `Net::add_switch`: creates the switch and, when that succeeds,
     * registers a copy of it (the registry entry and the returned switch are
     * distinct objects, so ports added later through the returned switch do
     * not show in the registry). On failure returns nothing and the registry
     * is unchanged.
     */
    method AddSwitch(name: string, ok: bool, os: Machine) returns (r: Option<OVSSwitch>)
      modifies this, os
      ensures os.env == Step(old(os.env), AddBr(Bridge(name)), ok)
      ensures r.Some? <==> ok
      ensures r.Some? ==>
        && fresh(r.value) && r.value.name == name && r.value.ports == []
        && |ovsswitch| == |old(ovsswitch)| + 1 && ovsswitch[..|old(ovsswitch)|] == old(ovsswitch)
        && fresh(ovsswitch[|old(ovsswitch)|]) && ovsswitch[|old(ovsswitch)|] != r.value
        && ovsswitch[|old(ovsswitch)|].name == name && ovsswitch[|old(ovsswitch)|].ports == []
      ensures r.None? ==> ovsswitch == old(ovsswitch)
      ensures nss == old(nss) && host == old(host)
    {
      r := OVSSwitch.Create(name, ok, os);
      if r.Some? {
        var entry := r.value.Clone();
        ovsswitch := ovsswitch + [entry];
      }
    }

    /**
     * `Net::add_veth_link`: one rtnetlink request for the pair
     * "rs-veth-name-1" / "rs-veth-name-2". On success both ends come back,
     * in no namespace, recording `one` and `two`; on error nothing does.
     */
    method AddVethLink(name: string, one: Option<Addressing>, two: Option<Addressing>, ok: bool, os: Machine) returns (r: Option<VethPair>)
      modifies os
      ensures os.env == Step(old(os.env), VethAdd(VethOne(name), VethTwo(name)), ok)
      ensures r.Some? <==> ok
      ensures r.Some? ==> fresh(r.value.one) && fresh(r.value.two) && r.value.one != r.value.two
      ensures r.Some? ==> NewEnd(r.value.one, VethOne(name), one) && NewEnd(r.value.two, VethTwo(name), two)
    {
      os.Run(VethAdd(VethOne(name), VethTwo(name)), ok);
      if ok {
        var endOne := new Intf(VethOne(name), Paired, None, one);
        var endTwo := new Intf(VethTwo(name), Paired, None, two);
        r := Some(VethPair(endOne, endTwo));
      } else {
        r := None;
      }
    }

    /**
     * `Net::connect_switch_host`: creates link `name` with no address on end
     * one and `ip` on end two (the link request must succeed: the source
     * unwraps it), attaches end one to the switch as a port (outcome
     * `portOk`), moves end two into the host's namespace when the host has
     * one, and brings end one up.
     */
    method ConnectSwitchHost(s: OVSSwitch, h: Host, name: string, ip: Option<Addressing>, linkOk: bool, portOk: bool, os: Machine)
      returns (link: VethPair)
      requires linkOk
      modifies s, os
      ensures fresh(link.one) && fresh(link.two) && link.one != link.two
      ensures link.one.name == VethOne(name) && link.one.ip == None && link.one.netns == None
      ensures link.two.name == VethTwo(name) && link.two.ip == ip && link.two.netns == h.netns
      ensures s.ports == if portOk then old(s.ports) + [VethOne(name)] else old(s.ports)
      ensures os.env.world == Apply(old(os.env.world), VethAdd(VethOne(name), VethTwo(name)), true)
      ensures os.env.log == old(os.env.log)
        + [VethAdd(VethOne(name), VethTwo(name)), Command.AddPort(Bridge(s.name), VethOne(name))]
        + (if h.netns.Some? then MoveCommands(VethTwo(name), None, h.netns.value, ip) else [])
        + [LinkUp(VethOne(name))]
    {
      ghost var before := os.env.log;
      var made := AddVethLink(name, None, ip, linkOk, os);
      ghost var created := os.env.world;
      link := made.value;
      s.AddPort(link.one.name, portOk, os);
      ghost var attached := os.env.log;
      assert attached == before + [VethAdd(VethOne(name), VethTwo(name)), Command.AddPort(Bridge(s.name), VethOne(name))];
      ghost var moves := if h.netns.Some? then MoveCommands(VethTwo(name), None, h.netns.value, ip) else [];
      if h.netns.Some? {
        link.two.MoveToNetns(h.netns.value, os);
      }
      assert os.env.log == attached + moves;
      assert UpCommand(VethOne(name), None) == LinkUp(VethOne(name));
      link.one.Up(os);
      assert os.env.log == attached + moves + [LinkUp(VethOne(name))];
      assert os.env.world == created;
    }

    /**
     * `Net::clean`: issues the commands of `CleanCommands` in order, each
     * completing as `outcome` says; `dump` is what the rtnetlink link dump
     * returned and `brOut` what `ovs-vsctl list-br` printed.
     */
    method Clean(dump: seq<LinkMsg>, brOut: string, outcome: Command -> bool, os: Machine)
      modifies os
      ensures os.env == RunAll(old(os.env), CleanCommands(dump, brOut, nss), outcome)
      ensures Valid() ==> forall h :: h in host ==> NetnsDel(HostNamespace(h.name)) in os.env.log[|old(os.env.log)|..]
      ensures var w := old(os.env.world);
        Valid() && PeersMatch(w) && DumpReaches(dump, w) && ListingShows(brOut, w) && LinkOutcomes(dump, w, outcome) && DeletionsSucceed(w, outcome) ==>
        && (forall n :: VethOne(n) !in os.env.world.links && VethTwo(n) !in os.env.world.links && Bridge(n) !in os.env.world.bridges)
        && (forall h :: h in host ==> HostNamespace(h.name) !in os.env.world.namespaces)
    {
      ghost var start := os.env;
      RunAllSnoc(start, [], LinkDump, outcome);
      os.Run(LinkDump, outcome(LinkDump));
      ghost var e1 := os.env;
      SweepLinks(dump, outcome, os);
      RunAllAppend(start, [LinkDump], LinkDeletions(dump), outcome);
      ghost var done := [LinkDump] + LinkDeletions(dump);
      RunAllSnoc(start, done, ListBr, outcome);
      os.Run(ListBr, outcome(ListBr));
      done := done + [ListBr];
      ghost var e2 := os.env;
      var lines := Lines(brOut);
      SweepBridges(lines, outcome, os);
      RunAllAppend(start, done, BridgeDeletions(lines), outcome);
      done := done + BridgeDeletions(lines);
      SweepNamespaces(nss, outcome, os);
      RunAllAppend(start, done, NsDeletions(nss), outcome);
      if Valid() {
        RegisteredDeleted(nss, host);
        assert os.env.log[|start.log|..] == CleanCommands(dump, brOut, nss);
        var w := start.world;
        if PeersMatch(w) && DumpReaches(dump, w) && ListingShows(brOut, w) && LinkOutcomes(dump, w, outcome) && DeletionsSucceed(w, outcome) {
          CleanRemovesCreated(start, dump, brOut, nss, host, outcome);
        }
      }
    }
  }
}
