/**
 * The operating system as the engine sees it: the commands it issues (shell
 * lines for `ip`, `route`, `tc` and `ovs-vsctl`, and rtnetlink requests), the
 * names of the namespaces, links and bridges that exist, and the log of
 * everything issued so far. Every operation receives the outcome of its
 * commands as a parameter. The one answer built in is the kernel's refusal
 * of a veth pair whose name is taken: such a request changes nothing even
 * when its outcome says it succeeded.
 */
module Os {
  import opened Strings
  import Ipv4

  datatype Command =
    // the `ip netns` tool (src/netns.rs)
    | NetnsAdd(ns: string)
    | NetnsShow
    | NetnsDel(ns: string)
    | InNs(ns: string, cmd: Command)
    // device configuration (src/net.rs)
    | LinkSetNetns(dev: string, target: string)
    | AddressAdd(addr: Ipv4.Addr, dev: string)
    | LinkUp(dev: string)
    | RouteAdd(net: Ipv4.Addr, mask: Ipv4.Addr, dev: string)
    // traffic shaping with `tc` (src/net.rs); `bandwidth` is the text the f64 formats to
    | QdiscRoot(dev: string)
    | ClassRate(dev: string, bandwidth: string)
    | QdiscDelay(dev: string, delay: nat)
    // the `ovs-vsctl` tool (src/switch.rs, src/net.rs)
    | AddBr(bridge: string)
    | DelBr(bridge: string)
    | AddPort(bridge: string, port: string)
    | ListBr
    | SetController(bridge: string, target: string)
    // rtnetlink requests (src/net.rs)
    | VethAdd(one: string, two: string)
    | LinkDump
    | LinkDel(index: nat, ifname: string)

  /**
   * One link message of the rtnetlink dump: the link's index and its
   * attributes, of which only the interface name matters here.
   */
  datatype LinkNla = IfName(name: string) | OtherNla
  datatype LinkMsg = LinkMsg(index: nat, nlas: seq<LinkNla>)

  /** Commands that have a textual form (everything but the rtnetlink requests). */
  predicate IsText(c: Command) {
    match c
    case VethAdd(_, _) => false
    case LinkDump => false
    case LinkDel(_, _) => false
    case InNs(_, inner) => IsText(inner)
    case _ => true
  }

  /**
   * The text of a command, as the source formats it. `SetController` is
   * spawned with an argument vector; its text is the arguments joined by
   * spaces. The `LinkDel` request names its link by `index` only; `ifname`
   * is the name the dump reported for that index.
   */
  function Render(c: Command): string
    requires IsText(c)
  {
    match c
    case NetnsAdd(ns) => "ip netns add " + ns
    case NetnsShow => "ip netns show"
    case NetnsDel(ns) => "ip netns del " + ns
    case InNs(ns, inner) => "ip netns exec " + ns + " " + Render(inner)
    case LinkSetNetns(dev, target) => "ip link set " + dev + " netns " + target
    case AddressAdd(addr, dev) => "ip address add " + Ipv4.Text(addr) + " dev " + dev
    case LinkUp(dev) => "ip link set " + dev + " up"
    case RouteAdd(net, mask, dev) => "route add -net " + Ipv4.Text(net) + " netmask " + Ipv4.Text(mask) + " dev " + dev
    case QdiscRoot(dev) => "tc qdisc add dev " + dev + " root handle 5:0 htb default 1"
    case ClassRate(dev, bandwidth) => "tc class add dev " + dev + " parent 5:0 classid 5:1 htb rate " + bandwidth + "Mbit burst 15k"
    case QdiscDelay(dev, delay) => "tc qdisc add dev " + dev + " parent 5:1  handle 10: netem delay " + Decimal(delay)
    case AddBr(bridge) => "ovs-vsctl add-br " + bridge
    case DelBr(bridge) => "ovs-vsctl del-br " + bridge
    case AddPort(bridge, port) => "ovs-vsctl add-port " + bridge + " " + port
    case ListBr => "ovs-vsctl list-br"
    case SetController(bridge, target) => "ovs-vsctl set-controller " + bridge + " " + target
  }

  /**
   * The names of the OS resources the engine creates and destroys, and the
   * veth pairing: `peers` maps each end of a veth pair to the other end.
   */
  datatype World = World(namespaces: set<string>, links: set<string>, bridges: set<string>, peers: map<string, string>)

  /** Veth pairs as the kernel keeps them: each paired end exists, and its peer is another device that has it as its peer. */
  predicate PeersMatch(w: World) {
    forall a :: a in w.peers ==> a in w.links && w.peers[a] in w.peers && w.peers[w.peers[a]] == a && w.peers[a] != a
  }

  /** Commands that never change the World, whatever their outcome. */
  predicate Neutral(c: Command) {
    match c
    case NetnsAdd(_) => false
    case NetnsDel(_) => false
    case VethAdd(_, _) => false
    case LinkDel(_, _) => false
    case AddBr(_) => false
    case DelBr(_) => false
    case InNs(_, inner) => Neutral(inner)
    case _ => true
  }

  /** The devices deleting `dev` removes: `dev` and, when it is one end of a veth pair, the other end. */
  function LinkGone(w: World, dev: string): (gone: set<string>)
    ensures dev in gone
    ensures PeersMatch(w) && dev in w.peers ==> |gone| == 2
  {
    if dev in w.peers then {dev, w.peers[dev]} else {dev}
  }

  /** A veth request the kernel can carry out: two distinct names, neither taken. */
  predicate VethFree(w: World, one: string, two: string) {
    one != two && one !in w.links && two !in w.links
  }

  /**
   * The World after `c` completes with outcome `ok`. A failed command changes
   * nothing. A veth request creates both ends, paired, or neither (the
   * kernel refuses a name that is taken). Deleting one end of a veth pair
   * deletes the other end with it.
   */
  function Apply(w: World, c: Command, ok: bool): (w': World)
    ensures !ok || Neutral(c) ==> w' == w
    ensures PeersMatch(w) ==> PeersMatch(w')
    ensures c.VethAdd? && ok && VethFree(w, c.one, c.two) ==>
      && w'.links == w.links + {c.one, c.two}
      && c.one in w'.peers && w'.peers[c.one] == c.two && c.two in w'.peers && w'.peers[c.two] == c.one
    ensures c.VethAdd? && !(ok && VethFree(w, c.one, c.two)) ==> w' == w
    ensures c.LinkDel? && ok ==> forall n :: n in w'.links <==> n in w.links && n != c.ifname && !(c.ifname in w.peers && n == w.peers[c.ifname])
  {
    if !ok then w
    else
      match c
      case NetnsAdd(ns) => w.(namespaces := w.namespaces + {ns})
      case NetnsDel(ns) => w.(namespaces := w.namespaces - {ns})
      case VethAdd(one, two) =>
        if VethFree(w, one, two) then w.(links := w.links + {one, two}, peers := w.peers[one := two][two := one]) else w
      case LinkDel(_, dev) =>
        var gone := LinkGone(w, dev);
        w.(links := w.links - gone, peers := w.peers - gone)
      case AddBr(bridge) => w.(bridges := w.bridges + {bridge})
      case DelBr(bridge) => w.(bridges := w.bridges - {bridge})
      case InNs(_, inner) => Apply(w, inner, ok)
      case _ => w
  }

  /** The OS state together with the log of every command issued, oldest first. */
  datatype Env = Env(world: World, log: seq<Command>)

  /** Issue one command: it is logged, and the World moves as its outcome says. */
  function Step(e: Env, c: Command, ok: bool): Env {
    Env(Apply(e.world, c, ok), e.log + [c])
  }

  /**
   * Issue a whole sequence of commands, each completing as `outcome` says.
   * The log grows by exactly those commands, in order.
   */
  function RunAll(e: Env, cs: seq<Command>, outcome: Command -> bool): (e': Env)
    ensures e'.log == e.log + cs
    decreases |cs|
  {
    if cs == [] then e
    else
      var last := cs[|cs| - 1];
      Step(RunAll(e, cs[..|cs| - 1], outcome), last, outcome(last))
  }

  /** Running one more command: the last step of the run. */
  lemma RunAllSnoc(e: Env, cs: seq<Command>, c: Command, outcome: Command -> bool)
    ensures RunAll(e, cs + [c], outcome) == Step(RunAll(e, cs, outcome), c, outcome(c))
  {
    assert (cs + [c])[..|cs|] == cs;
  }

  /** A run of `a` then `b` is the run of `a + b`: runs compose. */
  lemma {:induction false} RunAllAppend(e: Env, a: seq<Command>, b: seq<Command>, outcome: Command -> bool)
    ensures RunAll(e, a + b, outcome) == RunAll(RunAll(e, a, outcome), b, outcome)
    decreases |b|
  {
    if b == [] {
      assert a + b == a;
    } else {
      var init, last := b[..|b| - 1], b[|b| - 1];
      assert b == init + [last];
      assert a + b == (a + init) + [last];
      RunAllAppend(e, a, init, outcome);
      RunAllSnoc(e, a + init, last, outcome);
      RunAllSnoc(RunAll(e, a, outcome), init, last, outcome);
    }
  }

  /** Any run keeps the veth pairing consistent. */
  lemma {:induction false} RunAllPeersMatch(e: Env, cs: seq<Command>, outcome: Command -> bool)
    requires PeersMatch(e.world)
    ensures PeersMatch(RunAll(e, cs, outcome).world)
    decreases |cs|
  {
    if cs != [] {
      RunAllPeersMatch(e, cs[..|cs| - 1], outcome);
    }
  }

  /** The shell and the netlink socket: the one place commands go to. */
  class Machine {
    var env: Env

    constructor (w: World)
      ensures env == Env(w, [])
    {
      env := Env(w, []);
    }

    /** Issue `c` and let it complete with outcome `ok`. */
    method Run(c: Command, ok: bool)
      modifies this
      ensures env == Step(old(env), c, ok)
    {
      env := Step(env, c, ok);
    }

    /** Issue a command whose outcome the engine ignores and which leaves the World alone. */
    method Issue(c: Command)
      requires Neutral(c)
      modifies this
      ensures env.world == old(env.world) && env.log == old(env.log) + [c]
    {
      env := Step(env, c, true);
    }
  }
}
