/**
 * The switch manager of src/switch.rs. An `OVSSwitch` is a value the source
 * updates in place: its port list grows when `add_port` succeeds. The bridge
 * device behind switch `name` is always `Bridge(name)`, "rs-" + name.
 */
module Switch {
  import opened Wrappers
  import opened Os
  import opened Naming

  class OVSSwitch {
    /** The logical name; the source never reassigns it. */
    const name: string
    /** The ports attached so far, in the order they were attached. */
    var ports: seq<string>

    constructor (name: string)
      ensures this.name == name && ports == []
    {
      this.name := name;
      ports := [];
    }

    /**
     * `OVSSwitch::create`: runs `ovs-vsctl add-br rs-name`. A new switch with
     * the given logical name and no ports comes back exactly when the
     * command succeeds (a command that cannot even be spawned counts as a
     * failure); the bridge then exists.
     */
    static method Create(name: string, ok: bool, os: Machine) returns (r: Option<OVSSwitch>)
      modifies os
      ensures os.env == Step(old(os.env), AddBr(Bridge(name)), ok)
      ensures r.Some? <==> ok
      ensures r.Some? ==> fresh(r.value) && r.value.name == name && r.value.ports == []
    {
      os.Run(AddBr(Bridge(name)), ok);
      if ok {
        var s := new OVSSwitch(name);
        r := Some(s);
      } else {
        r := None;
      }
    }

    /** `OVSSwitch::del`: runs `ovs-vsctl del-br rs-name`; its exit status is not looked at. */
    static method Del(name: string, ok: bool, os: Machine)
      modifies os
      ensures os.env == Step(old(os.env), DelBr(Bridge(name)), ok)
      ensures ok ==> Bridge(name) !in os.env.world.bridges
    {
      os.Run(DelBr(Bridge(name)), ok);
    }

    /**
     * `OVSSwitch::add_port`: runs `ovs-vsctl add-port rs-name port` and
     * appends `port` to the port list exactly when it succeeds. The list
     * never shrinks and earlier ports keep their places.
     */
    method AddPort(port: string, ok: bool, os: Machine)
      modifies this, os
      ensures os.env.log == old(os.env.log) + [Command.AddPort(Bridge(name), port)]
      ensures os.env.world == old(os.env.world)
      ensures ports == if ok then old(ports) + [port] else old(ports)
      ensures |ports| >= |old(ports)| && ports[..|old(ports)|] == old(ports)
    {
      os.Run(Command.AddPort(Bridge(name), port), ok);
      if ok {
        ports := ports + [port];
      }
    }

    /**
     * `OVSSwitch::set_controller`: spawns `ovs-vsctl set-controller rs-name
     * tcp:addr`, where `addr` is the text of the socket address. The switch
     * itself is left as it is.
     */
    method SetController(addr: string, os: Machine)
      modifies os
      ensures os.env.log == old(os.env.log) + [Command.SetController(Bridge(name), "tcp:" + addr)]
      ensures os.env.world == old(os.env.world)
    {
      os.Issue(Command.SetController(Bridge(name), "tcp:" + addr));
    }

    /** `#[derive(Clone)]`: a distinct switch with the same name and ports. */
    method Clone() returns (c: OVSSwitch)
      ensures fresh(c) && c.name == name && c.ports == ports
    {
      c := new OVSSwitch(name);
      c.ports := ports;
    }
  }
}
