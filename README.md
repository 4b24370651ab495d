# NetSDDNN topology engine in Dafny

NetSDDNN builds virtual network topologies on one Linux machine. Hosts are
network namespaces, switches are Open vSwitch bridges and links are veth
pairs. This project models the engine's bookkeeping: the names it gives
resources, the commands it issues to `ip`, `tc`, `ovs-vsctl` and rtnetlink,
and in what order. It also models the registries it keeps for a session and
the sweep that tears a session down.

The operating system is an abstract value, `Os.Env`. It holds a `World`
(the sets of namespace, link and bridge names that exist, and which link
ends are veth peers) and the log of
every command issued so far. Each operation takes the outcome of its
commands as a parameter: a `bool` where the engine branches on it, the text
a listing printed, or the messages of the rtnetlink link dump. The one
answer the model builds in is the kernel's refusal of a veth pair whose
name is taken: `Os.Apply` leaves the `World` unchanged for such a request
even when its outcome is success (and `AddVethLink` then still returns
both ends, as the engine would on that answer). Commands whose outcome the engine only reports are
issued through `Os.Machine.Issue`, which leaves the `World` unchanged.

Files:

- `wrappers.dfy`: `Option`.
- `strings.dfy`: `starts_with`, `contains` and `split`, with `split`'s round trip.
- `ipv4.dfy`: addresses as four octets, and the route's network address.
- `naming.dfy`: the `rs-` naming convention and the two sweep filters.
- `os.dfy`: commands, their text, the `World` and the `Machine` that issues commands.
- `netns.dfy`: `src/netns.rs`. It is pure, so the namespace operations are
  functions from the state before a call to the handle and the state after.
- `switch.dfy`: `src/switch.rs`. `OVSSwitch` is a class whose port list
  `add_port` extends in place.
- `net.dfy`: `src/net.rs`.
  - `Intf` and `Net` are classes. `MoveToNetns` replaces an interface's
    namespace, and `AddHost` and `AddSwitch` push onto the registries.
  - `Clean` loops over the dump, the bridge listing and the namespaces.
  - The commands each operation issues are stated as functions
    (`MoveCommands`, `TcCommands`, `CleanCommands`). Lemmas prove what those
    sequences guarantee.

## Model

| member | source | states |
|---|---|---|
| Strings.IsPrefix | src/net.rs:71 | `starts_with`: the name begins with the prefix |
| Strings.Contains | src/netns.rs:26 | `contains`: the name occurs at some offset of the line |
| Strings.Split | src/netns.rs:25 | splitting a listing at '\n' yields at least one piece, and no piece contains the separator |
| Strings.JoinSplit | src/netns.rs:25 | the pieces of a listing, joined back with the separator, are the listing: the split loses no text |
| Strings.SplitJoin | src/net.rs:78 | lines free of '\n' joined with '\n' split back into exactly those lines |
| Strings.ContainsAt | src/netns.rs:26 | an occurrence of the name at any offset of a line counts as `contains` |
| Strings.ContainsWitness | src/netns.rs:26 | a line that `contains` the name has the name at some offset |
| Strings.Decimal | src/net.rs:185 | the delay printed in decimal: at least one character, digits only, at most three of them below 1000 |
| Strings.DecimalRoundTrip | src/net.rs:185 | the decimal text of a number denotes that number: reading its digits back gives it again |
| Ipv4.MaskOctet | src/net.rs:155-158 | one octet of the network is bounded by the address octet and the mask octet, and sets no bit the address octet lacks |
| Ipv4.Network | src/net.rs:152-159 | every octet of the route's network is at most the address octet and at most the mask octet |
| Ipv4.NetworkIdempotent | src/net.rs:154-159 | masking the network again with the same mask changes nothing |
| Ipv4.NetworkExample | src/net.rs:154-159 | 10.0.1.2 under 255.255.255.0 gives network 10.0.1.0 |
| Ipv4.Text | src/net.rs:141-160 | an address printed as `Ipv4Addr` displays it: 7 to 15 characters |
| Ipv4.TextFields | src/net.rs:141-160 | split at '.', the printed address gives back its four octets in decimal, in order |
| Ipv4.TextRoundTrip | src/net.rs:141-160 | the printed address has four fields of digits, and reading each back gives its octet |
| Naming.HostNamespace | src/net.rs:19 | a host's namespace name starts with "rs-host-", and the host name is what follows |
| Naming.VethOne | src/net.rs:56 | end one of link n is "rs-veth-" then n then "-1"; n is recoverable from it |
| Naming.VethTwo | src/net.rs:61 | end two of link n is "rs-veth-" then n then "-2"; n is recoverable from it |
| Naming.Bridge | src/switch.rs:12 | switch n's bridge device starts with "rs-", and n is what follows |
| Naming.LinkSwept | src/net.rs:71 | the sweep's link filter: the interface name starts with "rs" |
| Naming.BridgeSwept | src/net.rs:80 | the sweep's bridge filter: the listed bridge starts with "rs-" |
| Naming.CreatedNamesAreSwept | src/net.rs:19-83 | both veth ends pass the link filter, every bridge passes the bridge filter, and host namespaces carry the "rs-" prefix too |
| Naming.NamesAreInjective | src/net.rs:47 | different logical names give different namespace, link-end and bridge names |
| Naming.VethEndsDiffer | src/net.rs:47 | an end one never has the name of an end two, so a pair's ends are distinct devices |
| Naming.BridgeCanShadowVeth | src/switch.rs:12 | the convention collides across kinds: switch "veth-x-1" gets the device name of end one of link "x" |
| Naming.LinkFilterIsBroad | src/net.rs:71-80 | every name the bridge filter catches, the link filter catches too, and the link filter also catches names the engine never makes ("rsync0"), which the bridge filter does not |
| Os.Render | src/net.rs:128-185 | the text of each shell command, formatted as the source formats it, with the inner command after "ip netns exec ns" |
| Os.Apply | src/net.rs:44-49 | a failed command changes nothing, nor does one that only configures or lists; a veth request creates both ends, paired, or neither; deleting one end of a pair removes both and nothing else; veth pairs stay consistent |
| Os.RunAll | src/net.rs:66-87 | running a sequence of commands logs exactly that sequence, in order |
| Os.RunAllAppend | src/net.rs:66-87 | running one sequence after another is running their concatenation |
| Os.RunAllPeersMatch | src/net.rs:66-87 | any run of commands keeps every veth end paired with a distinct end that has it as its peer |
| Os.Machine.Run | src/switch.rs:12-13 | a command whose outcome the engine looks at is logged, and the World moves as its outcome says |
| Os.Machine.Issue | src/net.rs:196-200 | a command whose outcome is only reported is logged and leaves the World as it was |
| NetNs.Find | src/netns.rs:25-26 | the lookup returns the first line of the listing that contains the name, and none exactly when no line does |
| NetNs.Lines | src/netns.rs:25 | a listing (also the bridge listing, src/net.rs:78) cut at each '\n' into its lines, the pieces stated by `Strings.Split`, `Strings.JoinSplit` and `Strings.SplitJoin` |
| NetNs.Add | src/netns.rs:10-21 | `ip netns add` is logged; a handle with exactly the requested name comes back iff it succeeds, and the namespace then exists; on failure the World is unchanged |
| NetNs.Get | src/netns.rs:23-34 | `ip netns show` is logged and changes nothing; a handle comes back iff some line of the listing contains the name, and it carries the requested name |
| NetNs.GetOrAdd | src/netns.rs:36-38 | both `show` and `add` are issued, in that order, even when the lookup hits; a handle comes back iff the lookup hit or the add succeeded, always with the requested name |
| NetNs.Del | src/netns.rs:40-42 | `ip netns del` is logged; on success exactly that namespace is gone; links and bridges are untouched |
| NetNs.ExecShell | src/netns.rs:44-46 | the command's text is "ip netns exec " + namespace + " " + the inner command, and it changes the World iff the inner command does |
| NetNs.GetMatchesSubstring | src/netns.rs:26 | looking up "a" when only "cat" is listed returns a handle named "a" |
| NetNs.PrefixListed | src/netns.rs:26 | a listing line that starts with the name is a match |
| NetNs.GetOrAddTwice | src/netns.rs:23-38 | after a successful `get_or_add(n)`, a second call returns the same handle, named n, if the second listing still shows what the first showed and shows every namespace that exists |
| Switch.OVSSwitch.constructor | src/switch.rs:14-17 | a switch starts with its name and no ports |
| Switch.OVSSwitch.Create | src/switch.rs:11-23 | "add-br rs-name" is issued; a fresh switch with that name and no ports comes back iff it succeeds, and the bridge then exists |
| Switch.OVSSwitch.Del | src/switch.rs:29-31 | "del-br rs-name" is issued; on success the bridge is gone |
| Switch.OVSSwitch.AddPort | src/switch.rs:33-41 | "add-port rs-name port" is issued; the port is appended at the end iff it succeeds, otherwise the list is unchanged; the list never shrinks, earlier ports keep their places, and the name is constant |
| Switch.OVSSwitch.SetController | src/switch.rs:43-50 | "set-controller rs-name tcp:addr" is issued, and the switch and the World are left as they were |
| Switch.OVSSwitch.Clone | src/switch.rs:4 | a copy is a distinct switch with the same name and ports |
| Net.Within | src/net.rs:167-171 | a command run inside the namespace when there is one: it changes the World iff the command does, and has a text iff the command does |
| Net.UpCommand | src/net.rs:166-171 | "ip link set dev up" changes nothing, has a text, and runs inside a namespace iff the interface has one |
| Net.SetIpCommands | src/net.rs:138-147 | nothing without an address; otherwise one address-add of the address (not the mask), inside the namespace when there is one |
| Net.RouteCommands | src/net.rs:149-164 | no route exactly when there is no address or no namespace |
| Net.MoveCommands | src/net.rs:126-136 | the commands a move issues; their order and content are stated by `MoveSequence`, `MoveConfiguresIffAddressed` and `MoveRestRunsInTarget` |
| Net.MoveSequence | src/net.rs:126-136 | the move inside the old namespace (only if there was one), then the root move, then address, link-up and route inside the target; without an address only the link-up follows the root move |
| Net.MoveConfiguresIffAddressed | src/net.rs:126-164 | a move configures an address or a route iff the interface has an address, and then it configures exactly its address and the route to its network |
| Net.MoveRestRunsInTarget | src/net.rs:126-136 | every step after the root move runs inside the target namespace |
| Net.TcCommands | src/net.rs:180-188 | the commands `add_tc` issues; their order and choice are stated by `TcChoice` |
| Net.TcChoice | src/net.rs:180-188 | nothing without a namespace; otherwise the htb root, then the rate class, then the netem delay, present exactly when the delay is not zero |
| Net.Intf.constructor | src/net.rs:118-123 | an interface holds the name, kind, namespace and addressing it was built with |
| Net.Intf.Up | src/net.rs:166-173 | "ip link set <name> up" is issued, inside the interface's namespace when it has one |
| Net.Intf.SetIp | src/net.rs:138-147 | issues exactly the commands of `SetIpCommands` and changes nothing in the World |
| Net.Intf.SetRouteTable | src/net.rs:149-164 | issues exactly the commands of `RouteCommands` and changes nothing in the World |
| Net.Intf.MoveToNetns | src/net.rs:126-136 | afterwards the interface belongs to the target, and exactly the commands of `MoveCommands` were issued from the old namespace, in order |
| Net.Intf.AddTc | src/net.rs:180-188 | issues exactly the commands of `TcCommands` and changes nothing in the World |
| Net.NewHost | src/net.rs:97-110 | the host keeps its name and namespace, and the only command is "lo up" inside that namespace |
| Net.NlaDeletions | src/net.rs:69-75 | the deletions one dumped link calls for, attribute by attribute; their content is stated by `NlaDeletionsExact` |
| Net.LinkDeletions | src/net.rs:67-76 | the link deletions of the sweep, link by link in dump order; their content is stated by `LinkDeletionsExact` |
| Net.BridgeDeletions | src/net.rs:78-83 | the bridge deletions of the sweep, in listing order; their content is stated by `BridgeDeletionsExact` |
| Net.NsDeletions | src/net.rs:84-86 | one deletion per registered namespace |
| Net.CleanCommands | src/net.rs:66-87 | the sweep: first the link dump, then the link deletions, then the bridge listing, then the bridge deletions and one deletion per registered namespace |
| Net.NlaDeletionsExact | src/net.rs:69-74 | one dumped link yields a deletion, by its index, for exactly each of its names that start with "rs" |
| Net.LinkDeletionsExact | src/net.rs:67-76 | the sweep deletes a link by index iff the dump reported that index with a name that starts with "rs" |
| Net.BridgeDeletionsExact | src/net.rs:77-83 | the sweep deletes a bridge iff it is a line of the listing that starts with "rs-" |
| Net.NsDeletionsExact | src/net.rs:84-86 | the sweep deletes every registered namespace, one command each, in registration order |
| Net.CleanMember | src/net.rs:66-87 | every command of the sweep is a listing or a deletion, and each deletion comes from the loop of its own kind |
| Net.SweepRemoves | src/net.rs:66-87 | a run of sweep commands removes exactly the targets of its successful deletions, each link together with its veth peer, and creates nothing |
| Net.CleanLinkTargets | src/net.rs:67-76 | a link is a target of a successful deletion iff the dump reported it, its name starts with "rs", and its deletion by the dumped index succeeded |
| Net.CleanBridgeTargets | src/net.rs:77-83 | the bridges deleted are exactly the listed names starting with "rs-" whose deletion succeeded |
| Net.CleanNsTargets | src/net.rs:84-86 | the namespaces deleted are exactly the registered ones whose deletion succeeded |
| Net.CleanLeavesNothing | src/net.rs:66-87 | when the bridge listing shows every bridge, the root-namespace dump reaches every swept link (it names the link or its swept veth peer) and the kernel answers as it does (a link deletion fails only for a link that is gone, by itself or with its peer; deleting an existing bridge or namespace succeeds), no "rs" link or peer of one, no "rs-" bridge and no registered namespace remains, and every other link, bridge and namespace does |
| Net.CleanAgainDeletesNothing | src/net.rs:66-87 | on a system already swept, with listings of what exists, the sweep lists and re-deletes the registered namespaces only, and the World does not change, whatever the outcomes |
| Net.CleanTwice | src/net.rs:66-87 | the sweep is idempotent: after a sweep the kernel answered as it does, with a complete bridge listing and a dump that reached every swept link, a second sweep deletes no link or bridge and changes nothing |
| Net.RegisteredSnoc | src/net.rs:21-23 | registering a host as `add_host` does keeps the namespace and host registries paired, entry by entry |
| Net.RegisteredDeleted | src/net.rs:84-86 | with the registries paired, the sweep deletes the namespace of every registered host |
| Net.CleanRemovesCreated | src/net.rs:18-87 | after a sweep the kernel answered as it does, with a complete bridge listing and a dump that reached every swept link, no veth end or switch bridge of any name remains, and no registered host's namespace |
| Net.PairOutcomesHold | src/net.rs:67-76 | for one veth pair both of whose ends the dump reports, the deletion of end two failing is what the kernel answers once end one is gone |
| Net.VethPairSwept | src/net.rs:67-76 | such a pair is swept completely: deleting end one takes end two with it, and no link remains |
| Net.HostDumpReaches | src/net.rs:33-41 | after end two of a pair has moved into a host's namespace, a dump of end one alone does not name end two yet reaches every swept link |
| Net.HostPairSwept | src/net.rs:33-87 | a host connected by one pair, the dump showing end one only: the sweep leaves no link, end two going with end one, and no namespace |
| Net.SweepLinkNames | src/net.rs:69-75 | the inner loop over one link's attributes issues exactly `NlaDeletions` |
| Net.SweepLinks | src/net.rs:67-76 | the loop over the dump issues exactly `LinkDeletions`, in dump order |
| Net.SweepBridges | src/net.rs:79-83 | the loop over the listing issues exactly `BridgeDeletions`, in listing order |
| Net.SweepNamespaces | src/net.rs:84-86 | the loop over the registry issues exactly `NsDeletions` |
| Net.Net.constructor | src/net.rs:10-15 | a session starts with empty registries, which are paired |
| Net.Net.AddHost | src/net.rs:18-25 | uses namespace "rs-host-"+name; issues the lookup and the creation; a host in it comes back iff the lookup hit or the add succeeded; then exactly one namespace and one host are appended and "lo up" runs inside it, otherwise neither registry changes; the registries stay paired |
| Net.Net.AddSwitch | src/net.rs:27-31 | a switch comes back iff `create` succeeds; then one distinct copy of it is appended to the registry, otherwise the registry is unchanged |
| Net.Net.AddVethLink | src/net.rs:43-64 | one request for "rs-veth-name-1"/"-2"; on success two fresh, distinct ends in no namespace carrying `one` and `two`, on error nothing |
| Net.Net.ConnectSwitchHost | src/net.rs:33-41 | the link has no address on end one and `ip` on end two; end one becomes a port of the switch iff add-port succeeds; end two ends up in the host's namespace; the commands are the link, the port, the move (only if the host has a namespace) and end one's link-up, in that order |
| Net.Net.Clean | src/net.rs:66-87 | issues exactly the commands of `CleanCommands`, in order, each completing as its outcome says; every registered host's namespace is deleted; when the kernel answers as it does, the bridge listing is complete and the dump reaches every swept link, no veth end, switch bridge or host namespace is left |

## Left out

- Execution of commands: nothing is run. Every outcome, every listing and the link dump are parameters, so the model states what the engine does for each possible answer.
- The tokio runtime and `async`/`await`: the engine is sequential and the model runs each operation to completion.
- `handle_output` and the `print!`/`println!`/`dbg!` calls only report errors; the model logs the command and, like the source, lets its outcome change nothing the engine looks at.
- Panics from `unwrap()` on a command that cannot be spawned (src/net.rs:77, 131, 143, 170; src/netns.rs:41, 45; src/switch.rs:30, 34, 48): the model takes spawning to succeed there. Where the source uses `?` on a spawn failure, the model's failed outcome covers it.
- Net.Net.ConnectSwitchHost: requires the link request to succeed, because the source unwraps its result and panics otherwise.
- Net.Net.Clean: `dump` is the messages the link stream delivered before it ended or failed; the stream being read while deletions are issued is not modelled.
- The `World` records names and veth pairing only. It does not record which namespace a device is in, so a device moved into a namespace stays in the same set, and deleting a namespace does not take the devices inside it away with it. The rtnetlink dump is taken in the root namespace and does not see a device moved out of it, so the sweep's theorems ask only that the dump reach every swept link, itself or through its veth peer (`DumpReaches`); a device that sits in a namespace without a peer in the root namespace is outside them.
- Outcomes are given per command, not per moment: two identical commands in one run (for example a link whose dump message carries the same name twice) complete alike. The sweep's theorems take the kernel's answers as hypotheses (`LinkOutcomes`, `DeletionsSucceed`) rather than deriving them from the `World`.
- `TrafficControl.bandwidth` is an f64. The model keeps the text it formats to and does not model float formatting.
- `SocketAddr` formatting: `SetController` takes the address as text.
- Net.NewHost: the loopback interface records the address 127.0.0.1/255.255.255.255 (src/net.rs:103), but only `up` is run on it (src/net.rs:105), so that address is never applied; the model follows the code.
- src/main.rs (option parsing, the interactive shell and its history, the `xterm` command that spawns a terminal, the demo topology) is not part of this model.
