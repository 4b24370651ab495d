/**
 * The namespace manager of src/netns.rs. A `NetNamespace` is an immutable
 * handle that carries a name; the operations are functions from the OS state
 * before the call to the handle they return and the OS state after it.
 */
module NetNs {
  import opened Wrappers
  import opened Strings
  import opened Os

  datatype NetNamespace = NetNamespace(name: string)

  /** The lines of a listing: `output.split('\n')`. */
  function Lines(out: string): seq<string> {
    Split(out, '\n')
  }

  /** `nss.iter().find(|x| x.contains(name))`: the first line that contains `name`. */
  function Find(lines: seq<string>, name: string): (r: Option<string>)
    ensures r.Some? ==> r.value in lines && Contains(r.value, name)
    ensures r.Some? ==> exists k :: 0 <= k < |lines| && lines[k] == r.value && forall j :: 0 <= j < k ==> !Contains(lines[j], name)
    ensures r.None? <==> forall l :: l in lines ==> !Contains(l, name)
    decreases |lines|
  {
    if lines == [] then None
    else if Contains(lines[0], name) then Some(lines[0])
    else
      var rest := Find(lines[1..], name);
      assert rest.Some? ==> exists k :: 0 <= k < |lines| && lines[k] == rest.value && forall j :: 0 <= j < k ==> !Contains(lines[j], name) by {
        if rest.Some? {
          var k :| 0 <= k < |lines[1..]| && lines[1..][k] == rest.value && forall j :: 0 <= j < k ==> !Contains(lines[1..][j], name);
          assert forall j :: 0 <= j < k + 1 ==> !Contains(lines[j], name) by {
            forall j | 0 <= j < k + 1 ensures !Contains(lines[j], name) {
              if j > 0 {
                assert lines[j] == lines[1..][j - 1];
              }
            }
          }
        }
      }
      rest
  }

  /** The listing `ip netns show` printed (`None` when it could not be run) has a line containing `name`. */
  predicate Listed(out: Option<string>, name: string) {
    out.Some? && exists l :: l in Lines(out.value) && Contains(l, name)
  }

  /**
   * `NetNamespace::add`: runs `ip netns add name`. A handle with exactly the
   * requested name comes back when the command succeeds, and the namespace
   * then exists; otherwise nothing comes back and the World is as it was.
   * Pre-existence is not checked.
   */
  function Add(e: Env, name: string, ok: bool): (r: (Option<NetNamespace>, Env))
    ensures r.1.log == e.log + [NetnsAdd(name)]
    ensures r.0.Some? <==> ok
    ensures r.0.Some? ==> r.0.value.name == name && r.1.world.namespaces == e.world.namespaces + {name}
    ensures r.0.None? ==> r.1.world == e.world
    ensures r.1.world.links == e.world.links && r.1.world.bridges == e.world.bridges
  {
    var e' := Step(e, NetnsAdd(name), ok);
    (if ok then Some(NetNamespace(name)) else None, e')
  }

  /**
   * `NetNamespace::get`: runs `ip netns show` (whose output is `out`) and
   * answers with a handle exactly when some line of the output contains
   * `name`. The handle carries the requested name, not the line that matched.
   */
  function Get(e: Env, name: string, out: Option<string>): (r: (Option<NetNamespace>, Env))
    ensures r.1 == Env(e.world, e.log + [NetnsShow])
    ensures r.0.Some? <==> Listed(out, name)
    ensures r.0.Some? ==> r.0.value.name == name
  {
    var e' := Step(e, NetnsShow, true);
    if out.None? then (None, e')
    else if Find(Lines(out.value), name).Some? then (Some(NetNamespace(name)), e')
    else (None, e')
  }

  /**
   * `NetNamespace::get_or_add`: `get(name).or(add(name))`. `Option::or`
   * evaluates its argument first, so `ip netns add` is issued even when the
   * lookup already found the name. The handle is the lookup's when it found
   * one, and the creation's otherwise.
   */
  function GetOrAdd(e: Env, name: string, out: Option<string>, ok: bool): (r: (Option<NetNamespace>, Env))
    ensures r.1.log == e.log + [NetnsShow, NetnsAdd(name)]
    ensures r.1.world == Apply(e.world, NetnsAdd(name), ok)
    ensures r.0.Some? <==> Listed(out, name) || ok
    ensures r.0.Some? ==> r.0.value.name == name
  {
    var got := Get(e, name, out);
    var added := Add(got.1, name, ok);
    (if got.0.Some? then got.0 else added.0, added.1)
  }

  /**
   * `NetNamespace::del`: runs `ip netns del name`; its exit status is not
   * looked at. On success exactly that namespace is gone.
   */
  function Del(e: Env, ns: NetNamespace, ok: bool): (e': Env)
    ensures e'.log == e.log + [NetnsDel(ns.name)]
    ensures ok ==> e'.world.namespaces == e.world.namespaces - {ns.name}
    ensures !ok ==> e'.world == e.world
    ensures e'.world.links == e.world.links && e'.world.bridges == e.world.bridges
  {
    Step(e, NetnsDel(ns.name), ok)
  }

  /** `NetNamespace::exec_shell`: the command that runs `cmd` inside the namespace. */
  function ExecShell(ns: NetNamespace, cmd: Command): (c: Command)
    ensures IsText(cmd) ==> IsText(c) && Render(c) == "ip netns exec " + ns.name + " " + Render(cmd)
    ensures Neutral(c) <==> Neutral(cmd)
  {
    InNs(ns.name, cmd)
  }

  /**
   * The lookup matches by substring: asking for "a" while the only namespace
   * listed is "cat" answers with a handle named "a", for a namespace that
   * does not exist.
   */
  lemma {:induction false} GetMatchesSubstring(e: Env)
    ensures Get(e, "a", Some("cat")).0 == Some(NetNamespace("a"))
  {
    SplitNone("cat", '\n');
    assert Lines("cat") == ["cat"];
    ContainsAt("cat", "a", 1);
    assert "cat" in Lines("cat");
  }

  /** A line that starts with the name is a match. */
  lemma {:induction false} PrefixListed(out: string, l: string, name: string)
    requires l in Lines(out) && IsPrefix(name, l)
    ensures Listed(Some(out), name)
  {
    assert Contains(l, name);
  }

  /** The listing `out` shows every namespace of `w` at the start of some line. */
  predicate Shows(out: Option<string>, w: World) {
    out.Some? && forall n :: n in w.namespaces ==> exists l :: l in Lines(out.value) && IsPrefix(n, l)
  }

  /** Every line of `before` is still a line of `after`: no namespace went away in between. */
  predicate Retains(before: Option<string>, after: Option<string>) {
    before.Some? ==> after.Some? && forall l :: l in Lines(before.value) ==> l in Lines(after.value)
  }

  /**
   * Calling `get_or_add(name)` twice, the first call succeeding, yields two
   * handles with the same name, provided the second listing still shows what
   * the first showed and shows every namespace that exists by then.
   */
  lemma {:induction false} GetOrAddTwice(e: Env, name: string, out1: Option<string>, ok1: bool, out2: Option<string>, ok2: bool)
    requires GetOrAdd(e, name, out1, ok1).0.Some?
    requires Retains(out1, out2)
    requires Shows(out2, GetOrAdd(e, name, out1, ok1).1.world)
    ensures GetOrAdd(GetOrAdd(e, name, out1, ok1).1, name, out2, ok2).0 == GetOrAdd(e, name, out1, ok1).0
    ensures GetOrAdd(e, name, out1, ok1).0 == Some(NetNamespace(name))
  {
    var first := GetOrAdd(e, name, out1, ok1);
    if Listed(out1, name) {
      var l :| l in Lines(out1.value) && Contains(l, name);
      assert l in Lines(out2.value);
    } else {
      assert name in first.1.world.namespaces;
      var l :| l in Lines(out2.value) && IsPrefix(name, l);
      PrefixListed(out2.value, l, name);
    }
  }
}
