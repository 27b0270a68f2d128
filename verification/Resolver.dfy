/** The resolver service: node addresses and service registrations, with the monitor that unbinds nodes that
    stop answering, compared with the history of requests and pings. */
module ResolverService {
  datatype Reply = Done | Failed | Address(address: string) | Addresses(addresses: seq<string>)

  /** One request handled, or one ping made by the monitor and whether it was answered. */
  datatype Event =
    | Bind(node: string, address: string)
    | Resolve(node: string)
    | Unbind(node: string)
    | BindService(service: string, node: string)
    | ResolveService(service: string)
    | UnbindService(service: string, node: string)
    | Ping(node: string, replied: bool)
    | PingService(service: string, node: string, replied: bool)

  /** The handlers' maps, and the failure counts the monitor keeps between its passes. */
  datatype State = State(
    nodes: map<string, string>,
    services: map<string, set<string>>,
    failsNodes: map<string, nat>,
    failsServices: map<(string, string), nat>)

  const INITIAL := State(map[], map[], map[], map[])

  /** std::map::operator[]: a missing value is created empty. */
  function AddressOf(nodes: map<string, string>, node: string): string {
    if node in nodes then nodes[node] else ""
  }

  function NodesOf(services: map<string, set<string>>, service: string): set<string> {
    if service in services then services[service] else {}
  }

  function Fails<K>(m: map<K, nat>, k: K): nat {
    if k in m then m[k] else 0
  }

  function UnbindNode(s: State, node: string): State {
    s.(nodes := s.nodes - {node}, services := map v | v in s.services :: s.services[v] - {node})
  }

  // ----- std::set<std::string>: its elements in ascending order -----

  /** a comes before b. */
  predicate Less(a: string, b: string) {
    b != [] && (a == [] || a[0] < b[0] || (a[0] == b[0] && Less(a[1..], b[1..])))
  }

  lemma {:induction false} LessTrans(a: string, b: string, c: string)
    requires Less(a, b) && Less(b, c)
    ensures Less(a, c)
  {
    if a != [] && a[0] == b[0] == c[0] { LessTrans(a[1..], b[1..], c[1..]); }
  }

  lemma {:induction false} LessTotal(a: string, b: string)
    ensures a == b || Less(a, b) || Less(b, a)
    ensures !(Less(a, b) && Less(b, a)) && !Less(a, a)
  {
    if a != [] && b != [] && a[0] == b[0] {
      LessTotal(a[1..], b[1..]);
      assert a == [a[0]] + a[1..] && b == [b[0]] + b[1..];
    }
    if a != [] { LessTotal(a[1..], a[1..]); }
  }

  /** A proper prefix comes first, and otherwise the first difference decides. */
  lemma {:induction false} LessIff(a: string, b: string)
    ensures Less(a, b) <==> a < b || exists i :: DiffersAt(a, b, i) && a[i] < b[i]
  {
    if a != [] && b != [] {
      if a[0] == b[0] {
        LessIff(a[1..], b[1..]);
        assert a == [a[0]] + a[1..] && b == [b[0]] + b[1..];
        forall i | DiffersAt(a[1..], b[1..], i) ensures DiffersAt(a, b, i + 1) {
          assert a[..i + 1] == [a[0]] + a[1..][..i] && b[..i + 1] == [b[0]] + b[1..][..i];
        }
        forall i | DiffersAt(a, b, i) ensures i > 0 && DiffersAt(a[1..], b[1..], i - 1) {
          assert a[1..][..i - 1] == a[..i][1..] && b[1..][..i - 1] == b[..i][1..];
        }
        if Less(a[1..], b[1..]) && !(a[1..] < b[1..]) {
          var i :| DiffersAt(a[1..], b[1..], i) && a[1..][i] < b[1..][i];
          assert DiffersAt(a, b, i + 1) && a[i + 1] < b[i + 1];
        }
        if i :| DiffersAt(a, b, i) && a[i] < b[i] {
          assert DiffersAt(a[1..], b[1..], i - 1) && a[1..][i - 1] < b[1..][i - 1];
        }
      } else {
        assert DiffersAt(a, b, 0);
        forall i | DiffersAt(a, b, i) ensures i == 0 {
          if i > 0 { SameHead(a, b, i); }
        }
      }
    }
  }

  lemma SameHead(a: string, b: string, i: int)
    requires DiffersAt(a, b, i) && i > 0
    ensures a[0] == b[0]
  {
    assert a[..i][0] == b[..i][0];
  }

  predicate DiffersAt(a: string, b: string, i: int) {
    0 <= i < |a| && i < |b| && a[..i] == b[..i] && a[i] != b[i]
  }

  predicate Least(m: string, s: set<string>) {
    m in s && forall x | x in s :: x == m || Less(m, x)
  }

  lemma {:induction false} HasLeast(s: set<string>) returns (m: string)
    requires s != {}
    ensures Least(m, s)
  {
    var a :| a in s;
    if s == {a} { return a; }
    m := HasLeast(s - {a});
    LessTotal(a, m);
    if Less(a, m) {
      forall x | x in s ensures x == a || Less(a, x) {
        if x != a && x != m { LessTrans(a, m, x); }
      }
      m := a;
    }
  }

  ghost function InOrder(s: set<string>): (r: seq<string>)
    ensures forall x :: x in r <==> x in s
  {
    if s == {} then []
    else
      assert exists m :: Least(m, s) by { var _ := HasLeast(s); }
      var m :| Least(m, s);
      [m] + InOrder(s - {m})
  }

  lemma InOrderStep(s: set<string>, m: string)
    requires Least(m, s)
    ensures InOrder(s) == [m] + InOrder(s - {m})
  {
    forall n | Least(n, s) ensures n == m { LessTotal(n, m); }
  }

  lemma {:induction false} InOrderAscends(s: set<string>)
    ensures forall i, j | 0 <= i < j < |InOrder(s)| :: Less(InOrder(s)[i], InOrder(s)[j])
    decreases s
  {
    if s != {} {
      var m := HasLeast(s);
      InOrderStep(s, m);
      InOrderAscends(s - {m});
    }
  }

  /** The loop of resolve_service() over the resolved addresses, leaving out the empty one. */
  method AddressesInOrder(resolved: set<string>) returns (addresses: seq<string>)
    ensures addresses == InOrder(resolved - {""})
  {
    hide InOrder, Less;
    NoneInOrder();
    addresses := [];
    var todo := resolved;
    assert addresses + InOrder(todo - {""}) == InOrder(resolved - {""});
    while todo != {}
      invariant addresses + InOrder(todo - {""}) == InOrder(resolved - {""})
      decreases todo
    {
      ghost var least := HasLeast(todo);
      assert Least(least, todo);
      var a :| a in todo && Least(a, todo);
      RemoveEither(todo, a, "");
      if a != "" {
        LeastOfFewer(a, todo, "");
        InOrderStep(todo - {""}, a);
        addresses := addresses + [a];
      }
      todo := todo - {a};
    }
    assert todo - {""} == {};
    assert addresses + [] == addresses;
  }

  lemma LeastOfFewer(m: string, s: set<string>, other: string)
    requires Least(m, s) && m != other
    ensures Least(m, s - {other})
  {
    forall x | x in s - {other} ensures x == m || Less(m, x) {
      assert x in s;
    }
  }

  lemma RemoveEither<T>(s: set<T>, a: T, b: T)
    ensures s - {a} - {b} == s - {b} - {a}
    ensures a == b ==> s - {a} - {b} == s - {b}
  {
  }

  lemma NoneInOrder()
    ensures InOrder({}) == []
  {
  }

  /** What a handler answers and leaves behind; maxFailures is resolver_monitor_max_failures. */
  ghost function Step(s: State, ev: Event, maxFailures: int): (State, Reply) {
    match ev
    case Bind(node, address) =>
      if node == "" || address == "" then (s, Failed) else (s.(nodes := s.nodes[node := address]), Done)
    case Resolve(node) =>
      var address := AddressOf(s.nodes, node);
      (s.(nodes := s.nodes[node := address]), if address == "" then Failed else Address(address))
    case Unbind(node) => (UnbindNode(s, node), Done)
    case BindService(service, node) =>
      if service == "" || node == "" || node !in s.nodes then (s, Failed)
      else (s.(services := s.services[service := NodesOf(s.services, service) + {node}]), Done)
    case ResolveService(service) =>
      var bound := NodesOf(s.services, service);
      var resolved := set n | n in bound :: AddressOf(s.nodes, n);
      var nodes := s.nodes + (map n | n in bound && n !in s.nodes :: "");
      (s.(services := s.services[service := bound], nodes := nodes),
       if resolved == {} then Failed else Addresses(InOrder(resolved - {""})))
    case UnbindService(service, node) =>
      if service == "" || node == "" then (s, Failed)
      else (s.(services := s.services[service := NodesOf(s.services, service) - {node}]), Done)
    case Ping(node, replied) =>
      if replied then (s.(failsNodes := s.failsNodes[node := 0]), Done)
      else
        var total := Fails(s.failsNodes, node) + 1;
        var s' := s.(failsNodes := s.failsNodes[node := total]);
        (if total >= maxFailures then UnbindNode(s', node) else s', Done)
    case PingService(service, node, replied) =>
      var k := (service, node);
      if replied then (s.(failsServices := s.failsServices[k := 0]), Done)
      else
        var total := Fails(s.failsServices, k) + 1;
        var s' := s.(failsServices := s.failsServices[k := total]);
        (if total >= maxFailures
         then s'.(services := s.services[service := NodesOf(s.services, service) - {node}]) else s', Done)
  }

  class Resolver {
    var nodes: map<string, string>
    var services: map<string, set<string>>
    var failsNodes: map<string, nat>
    var failsServices: map<(string, string), nat>
    const maxFailures: int

    function View(): State
      reads this
    {
      State(nodes, services, failsNodes, failsServices)
    }

    constructor (maxFailures: int)
      ensures View() == INITIAL && this.maxFailures == maxFailures
    {
      this.maxFailures := maxFailures;
      nodes, services, failsNodes, failsServices := map[], map[], map[], map[];
    }

    method BindNode(node: string, address: string) returns (r: Reply)
      modifies this
      ensures (View(), r) == Step(old(View()), Bind(node, address), maxFailures)
    {
      if node == "" || address == "" { return Failed; }
      nodes := nodes[node := address];
      return Done;
    }

    method ResolveNode(node: string) returns (r: Reply)
      modifies this
      ensures (View(), r) == Step(old(View()), Resolve(node), maxFailures)
    {
      if node !in nodes { nodes := nodes[node := ""]; }
      var address := nodes[node];
      assert nodes == old(nodes)[node := address];
      if address == "" { return Failed; }
      return Address(address);
    }

    /** unbind_node(): the node goes, and leaves every service's set. */
    method RemoveNode(node: string)
      modifies this`nodes, this`services
      ensures View() == UnbindNode(old(View()), node)
    {
      nodes := nodes - {node};
      var todo := services.Keys;
      while todo != {}
        invariant nodes == old(nodes) - {node} && todo <= services.Keys == old(services).Keys
        invariant forall v | v in services ::
                    services[v] == if v in todo then old(services)[v] else old(services)[v] - {node}
        decreases todo
      {
        var v :| v in todo;
        services := services[v := services[v] - {node}];
        todo := todo - {v};
      }
      assert services == map v | v in old(services) :: old(services)[v] - {node};
    }

    method Unbind(node: string) returns (r: Reply)
      modifies this
      ensures (View(), r) == Step(old(View()), Event.Unbind(node), maxFailures)
    {
      RemoveNode(node);
      return Done;
    }

    method BindService(service: string, node: string) returns (r: Reply)
      modifies this
      ensures (View(), r) == Step(old(View()), Event.BindService(service, node), maxFailures)
    {
      if service == "" || node == "" || node !in nodes { return Failed; }
      if service !in services { services := services[service := {}]; }
      services := services[service := services[service] + {node}];
      assert services == old(services)[service := NodesOf(old(services), service) + {node}];
      return Done;
    }

    method ResolveService(service: string) returns (r: Reply)
      modifies this
      ensures (View(), r) == Step(old(View()), Event.ResolveService(service), maxFailures)
    {
      if service !in services { services := services[service := {}]; }
      var bound := services[service];
      assert services == old(services)[service := bound];
      var resolved: set<string> := {};
      var todo := bound;
      while todo != {}
        invariant todo <= bound
        invariant resolved == set n | n in bound - todo :: AddressOf(old(nodes), n)
        invariant nodes == old(nodes) + map n | n in bound - todo && n !in old(nodes) :: ""
        invariant services == old(services)[service := bound]
        invariant failsNodes == old(failsNodes) && failsServices == old(failsServices)
        decreases todo
      {
        var n :| n in todo;
        if n !in nodes { nodes := nodes[n := ""]; }
        resolved := resolved + {nodes[n]};
        todo := todo - {n};
        assert bound - todo == (bound - (todo + {n})) + {n};
      }
      assert bound - todo == bound;
      if resolved == {} { return Failed; }
      var addresses := AddressesInOrder(resolved);
      return Addresses(addresses);
    }

    method UnbindService(service: string, node: string) returns (r: Reply)
      modifies this
      ensures (View(), r) == Step(old(View()), Event.UnbindService(service, node), maxFailures)
    {
      if service == "" || node == "" { return Failed; }
      services := services[service := NodesOf(services, service) - {node}];
      return Done;
    }

    /** The monitor's reaction to the outcome of one ping of a node. */
    method Pinged(node: string, replied: bool)
      modifies this
      ensures View() == Step(old(View()), Ping(node, replied), maxFailures).0
    {
      if replied {
        failsNodes := failsNodes[node := 0];
      } else {
        var total := Fails(failsNodes, node) + 1;
        failsNodes := failsNodes[node := total];
        if total >= maxFailures { RemoveNode(node); }
      }
    }

    method ServicePinged(service: string, node: string, replied: bool)
      modifies this
      ensures View() == Step(old(View()), PingService(service, node, replied), maxFailures).0
    {
      var k := (service, node);
      if replied {
        failsServices := failsServices[k := 0];
      } else {
        var total := Fails(failsServices, k) + 1;
        failsServices := failsServices[k := total];
        if total >= maxFailures { services := services[service := NodesOf(services, service) - {node}]; }
      }
    }

    /** The monitor's loop over a copy of the node map, in any order; `answering` are the nodes that reply in time. */
    method PingNodes(answering: set<string>)
      modifies this
      ensures View() == NodesPinged(old(View()), old(nodes).Keys, answering, maxFailures)
    {
      hide Step, NodesPinged;
      var copy := nodes.Keys;
      var todo := copy;
      NoNodePinged(View(), answering, maxFailures);
      assert copy - todo == {};
      while todo != {}
        invariant todo <= copy && View() == NodesPinged(old(View()), copy - todo, answering, maxFailures)
        decreases todo
      {
        var n :| n in todo;
        OneMorePinged(old(View()), copy - todo, answering, n, maxFailures);
        Pinged(n, n in answering);
        assert copy - (todo - {n}) == copy - todo + {n};
        todo := todo - {n};
      }
      assert copy - todo == copy;
    }

    /** Its loop over a copy of the services, and over the nodes listed under each. */
    method PingServices(answering: set<(string, string)>)
      modifies this
      ensures View() == ServicesPinged(old(View()), Pairs(old(services)), answering, maxFailures)
    {
      hide Step, ServicesPinged, Pairs;
      var copy := services;
      var todo := copy.Keys;
      ghost var done: set<(string, string)> := {};
      NoServicePinged(View(), answering, maxFailures);
      while todo != {}
        invariant todo <= copy.Keys && View() == ServicesPinged(old(View()), done, answering, maxFailures)
        invariant forall v, n :: (v, n) in done <==> v in copy && v !in todo && n in copy[v]
        decreases todo
      {
        var v :| v in todo;
        var rest := copy[v];
        while rest != {}
          invariant rest <= copy[v] && View() == ServicesPinged(old(View()), done, answering, maxFailures)
          invariant forall w, n :: (w, n) in done <==>
                      w in copy && n in copy[w] && (w !in todo || (w == v && n !in rest))
          decreases rest
        {
          var n :| n in rest;
          OneMoreServicePinged(old(View()), done, answering, v, n, maxFailures);
          ServicePinged(v, n, (v, n) in answering);
          done, rest := done + {(v, n)}, rest - {n};
        }
        todo := todo - {v};
      }
      AllPairs(copy, done);
    }

    /** One pass of the monitor: the nodes, then the services as they are after that. */
    method MonitorPass(answeringNodes: set<string>, answeringServices: set<(string, string)>)
      modifies this
      ensures var s := NodesPinged(old(View()), old(nodes).Keys, answeringNodes, maxFailures);
              View() == ServicesPinged(s, Pairs(s.services), answeringServices, maxFailures)
    {
      PingNodes(answeringNodes);
      PingServices(answeringServices);
    }
  }

  // ----- a pass of the monitor, whatever its order -----

  /** The failure counts after pinging each of these once. */
  function Counted<K(==)>(fails: map<K, nat>, done: set<K>, answering: set<K>): map<K, nat> {
    fails + map k | k in done :: if k in answering then 0 else Fails(fails, k) + 1
  }

  lemma CountOneMore<K>(fails: map<K, nat>, done: set<K>, answering: set<K>, k: K)
    ensures Counted(fails, {}, answering) == fails
    ensures k !in done ==> Fails(Counted(fails, done, answering), k) == Fails(fails, k)
    ensures Counted(fails, done, answering)[k := if k in answering then 0 else Fails(fails, k) + 1]
         == Counted(fails, done + {k}, answering)
  {
  }

  function LostNodes(s: State, done: set<string>, answering: set<string>, max: int): set<string> {
    set n | n in done && n !in answering && Fails(s.failsNodes, n) + 1 >= max
  }

  function Without(services: map<string, set<string>>, lost: set<string>): map<string, set<string>> {
    map v | v in services :: services[v] - lost
  }

  lemma WithoutMore(services: map<string, set<string>>, a: set<string>, b: set<string>)
    ensures Without(services, {}) == services
    ensures Without(Without(services, a), b) == Without(services, a + b)
  {
    assert forall v | v in services :: services[v] - {} == services[v];
    assert forall v | v in services :: services[v] - a - b == services[v] - (a + b);
  }

  /** The effect of pinging each of these nodes once. */
  function NodesPinged(s: State, done: set<string>, answering: set<string>, max: int): State {
    var lost := LostNodes(s, done, answering, max);
    State(s.nodes - lost, Without(s.services, lost), Counted(s.failsNodes, done, answering), s.failsServices)
  }

  lemma NoNodePinged(s: State, answering: set<string>, max: int)
    ensures NodesPinged(s, {}, answering, max) == s
  {
    CountOneMore(s.failsNodes, {}, answering, "");
    WithoutMore(s.services, {}, {});
    assert LostNodes(s, {}, answering, max) == {};
  }

  lemma OneMorePinged(s: State, done: set<string>, answering: set<string>, n: string, max: int)
    requires n !in done
    ensures Step(NodesPinged(s, done, answering, max), Ping(n, n in answering), max).0
         == NodesPinged(s, done + {n}, answering, max)
  {
    hide Counted, Without, LostNodes;
    var lost := LostNodes(s, done, answering, max);
    CountOneMore(s.failsNodes, done, answering, n);
    WithoutMore(s.services, lost, {n});
    LostOneMore(s, done, answering, n, max);
    assert lost + {} == lost && s.nodes - lost - {n} == s.nodes - (lost + {n});
    var counted := Counted(s.failsNodes, done + {n}, answering);
    UnbindIsWithout(State(s.nodes - lost, Without(s.services, lost), counted, s.failsServices), n);
  }

  lemma UnbindIsWithout(s: State, n: string)
    ensures UnbindNode(s, n) == s.(nodes := s.nodes - {n}, services := Without(s.services, {n}))
  {
  }

  lemma LostOneMore(s: State, done: set<string>, answering: set<string>, n: string, max: int)
    ensures LostNodes(s, done + {n}, answering, max)
         == LostNodes(s, done, answering, max)
            + if n !in answering && Fails(s.failsNodes, n) + 1 >= max then {n} else {}
  {
    var lost := LostNodes(s, done, answering, max);
    var all := lost + if n !in answering && Fails(s.failsNodes, n) + 1 >= max then {n} else {};
    forall m ensures m in LostNodes(s, done + {n}, answering, max) <==> m in all {}
  }

  /** A node bound before a pass is bound after it exactly when it answers or has not reached the limit of
      unanswered pings in a row. */
  lemma PassKeepsIff(h: seq<Event>, answering: set<string>, node: string, max: int)
    requires node in Run(h, max).nodes
    ensures var s := Run(h, max);
            node in NodesPinged(s, s.nodes.Keys, answering, max).nodes
            <==> node in answering || !Unresponsive(PingsOf(h, node) + [false], max)
  {
    CountsAreTrailing(h, max, node);
    TrailingSnoc(PingsOf(h, node), false);
    TrailingIffUnresponsive(PingsOf(h, node) + [false], max);
  }

  function Pairs(services: map<string, set<string>>): (r: set<(string, string)>)
    ensures forall v, n :: (v, n) in r <==> v in services && n in services[v]
  {
    set v, n | v in services && n in services[v] :: (v, n)
  }

  lemma AllPairs(services: map<string, set<string>>, done: set<(string, string)>)
    requires forall v, n :: (v, n) in done <==> v in services && n in services[v]
    ensures done == Pairs(services)
  {
    forall p ensures p in done <==> p in Pairs(services) {
      assert p == (p.0, p.1);
    }
  }

  /** The nodes left under each service after pinging each of these once for its service. */
  function Serving(s: State, done: set<(string, string)>, answering: set<(string, string)>, max: int)
    : map<string, set<string>>
  {
    map v | v in s.services :: (set n | n in s.services[v] && !LostService(s, done, answering, (v, n), max))
  }

  predicate LostService(s: State, done: set<(string, string)>, answering: set<(string, string)>,
                        k: (string, string), max: int)
  {
    k in done && k !in answering && Fails(s.failsServices, k) + 1 >= max
  }

  function ServicesPinged(s: State, done: set<(string, string)>, answering: set<(string, string)>, max: int): State {
    s.(services := Serving(s, done, answering, max), failsServices := Counted(s.failsServices, done, answering))
  }

  lemma NoServicePinged(s: State, answering: set<(string, string)>, max: int)
    ensures ServicesPinged(s, {}, answering, max) == s
  {
    CountOneMore(s.failsServices, {}, answering, ("", ""));
    forall v | v in s.services ensures Serving(s, {}, answering, max)[v] == s.services[v] {}
    assert Serving(s, {}, answering, max) == s.services;
  }

  lemma ServingOneMore(s: State, done: set<(string, string)>, answering: set<(string, string)>,
                       v: string, n: string, max: int)
    requires v in s.services
    ensures var k := (v, n);
            var now, next := Serving(s, done, answering, max), Serving(s, done + {k}, answering, max);
            next == if k !in answering && Fails(s.failsServices, k) + 1 >= max then now[v := now[v] - {n}] else now
  {
    hide Fails;
    var k := (v, n);
    var now, next := Serving(s, done, answering, max), Serving(s, done + {k}, answering, max);
    forall w | w in s.services
      ensures next[w]
           == if w == v && k !in answering && Fails(s.failsServices, k) + 1 >= max then now[w] - {n} else now[w]
    {
      forall m | m in s.services[w] && (w, m) != k
        ensures LostService(s, done + {k}, answering, (w, m), max) == LostService(s, done, answering, (w, m), max) {}
    }
    assert next.Keys == now.Keys == s.services.Keys;
  }

  lemma OneMoreServicePinged(s: State, done: set<(string, string)>, answering: set<(string, string)>,
                             v: string, n: string, max: int)
    requires v in s.services && (v, n) !in done
    ensures Step(ServicesPinged(s, done, answering, max), PingService(v, n, (v, n) in answering), max).0
         == ServicesPinged(s, done + {(v, n)}, answering, max)
  {
    hide Counted;
    CountOneMore(s.failsServices, done, answering, (v, n));
    ServingOneMore(s, done, answering, v, n, max);
    hide Serving;
  }

  // ----- the reference: what the history alone says -----

  function Last(h: seq<Event>): Event
    requires h != []
  {
    h[|h| - 1]
  }

  function Before(h: seq<Event>): (r: seq<Event>)
    requires h != []
    ensures |r| < |h|
  {
    h[..|h| - 1]
  }

  /** The outcomes of the monitor's pings of a node, in order. */
  function PingsOf(h: seq<Event>, node: string): seq<bool> {
    if h == [] then []
    else PingsOf(Before(h), node) + if Last(h).Ping? && Last(h).node == node then [Last(h).replied] else []
  }

  function ServicePingsOf(h: seq<Event>, service: string, node: string): seq<bool> {
    if h == [] then []
    else
      ServicePingsOf(Before(h), service, node)
      + if Last(h).PingService? && Last(h).service == service && Last(h).node == node then [Last(h).replied] else []
  }

  /** The last `max` pings, and at least the last one, all went unanswered. */
  predicate Unresponsive(pings: seq<bool>, max: int) {
    var w := if max < 1 then 1 else max;
    w <= |pings| && forall i | |pings| - w <= i < |pings| :: !pings[i]
  }

  /** The last event unbinds the node. */
  predicate Unbinds(h: seq<Event>, node: string, max: int)
    requires h != []
  {
    Last(h) == Unbind(node) || (Last(h).Ping? && Last(h).node == node && Unresponsive(PingsOf(h, node), max))
  }

  /** The node has been bound, or merely asked for, since it was last unbound. */
  predicate Known(h: seq<Event>, node: string, max: int) {
    h != [] && !Unbinds(h, node, max)
    && match Last(h)
       case Bind(n, a) => (n == node && n != "" && a != "") || Known(Before(h), node, max)
       case Resolve(n) => n == node || Known(Before(h), node, max)
       case _ => Known(Before(h), node, max)
  }

  /** The address bound last since the node was last unbound, or empty. */
  function CurrentAddress(h: seq<Event>, node: string, max: int): string {
    if h == [] || Unbinds(h, node, max) then ""
    else
      match Last(h)
      case Bind(n, a) => if n == node && n != "" && a != "" then a else CurrentAddress(Before(h), node, max)
      case _ => CurrentAddress(Before(h), node, max)
  }

  /** The last event relevant to the pair is a successful bind_service. */
  predicate Bound(h: seq<Event>, service: string, node: string, max: int) {
    h != [] && !Unbinds(h, node, max)
    && match Last(h)
       case BindService(v, n) =>
         || (v == service && n == node && v != "" && n != "" && Known(Before(h), n, max))
         || Bound(Before(h), service, node, max)
       case UnbindService(v, n) =>
         !(v == service && n == node && v != "" && n != "") && Bound(Before(h), service, node, max)
       case PingService(v, n, _) =>
         && !(v == service && n == node && Unresponsive(ServicePingsOf(h, v, n), max))
         && Bound(Before(h), service, node, max)
       case _ => Bound(Before(h), service, node, max)
  }

  // ----- runs -----

  ghost function Run(h: seq<Event>, max: int): State {
    if h == [] then INITIAL else Step(Run(Before(h), max), Last(h), max).0
  }

  /** The number of unanswered pings at the end. */
  function Trailing(pings: seq<bool>): nat {
    if pings == [] || pings[|pings| - 1] then 0 else 1 + Trailing(pings[..|pings| - 1])
  }

  lemma {:induction false} TrailingIffUnresponsive(pings: seq<bool>, max: int)
    requires pings != [] && !pings[|pings| - 1]
    ensures Trailing(pings) >= max <==> Unresponsive(pings, max)
  {
    TrailingRun(pings);
  }

  lemma {:induction false} TrailingRun(pings: seq<bool>)
    ensures Trailing(pings) <= |pings|
    ensures forall i | |pings| - Trailing(pings) <= i < |pings| :: !pings[i]
    ensures Trailing(pings) < |pings| ==> pings[|pings| - 1 - Trailing(pings)]
  {
    if pings != [] && !pings[|pings| - 1] { TrailingRun(pings[..|pings| - 1]); }
  }

  /** The monitor's counts are the trailing failures of the pings. */
  lemma {:induction false} CountsAreTrailing(h: seq<Event>, max: int, node: string)
    ensures Fails(Run(h, max).failsNodes, node) == Trailing(PingsOf(h, node))
  {
    hide Trailing;
    if h == [] {
      NothingAppended([]);
    } else {
      CountsAreTrailing(Before(h), max, node);
      TrailingSnoc(PingsOf(Before(h), node), Last(h).Ping? && Last(h).replied);
      NothingAppended(PingsOf(Before(h), node));
    }
  }

  lemma {:induction false} ServiceCountsAreTrailing(h: seq<Event>, max: int, service: string, node: string)
    ensures Fails(Run(h, max).failsServices, (service, node)) == Trailing(ServicePingsOf(h, service, node))
  {
    hide Trailing;
    if h == [] {
      NothingAppended([]);
    } else {
      ServiceCountsAreTrailing(Before(h), max, service, node);
      TrailingSnoc(ServicePingsOf(Before(h), service, node), Last(h).PingService? && Last(h).replied);
      NothingAppended(ServicePingsOf(Before(h), service, node));
    }
  }

  lemma TrailingSnoc(pings: seq<bool>, replied: bool)
    ensures Trailing(pings + [replied]) == if replied then 0 else Trailing(pings) + 1
  {
    assert (pings + [replied])[..|pings|] == pings;
  }

  lemma NothingAppended(pings: seq<bool>)
    ensures pings + [] == pings
    ensures Trailing([]) == 0
  {
  }

  /** Over every run the maps are what the history says: which nodes are known and where, and which are bound to
      a service; every node listed under a service is a key of the node map. */
  ghost predicate Refines(h: seq<Event>, max: int, s: State) {
    && (forall n :: n in s.nodes <==> Known(h, n, max))
    && (forall n :: AddressOf(s.nodes, n) == CurrentAddress(h, n, max))
    && (forall v, n :: n in NodesOf(s.services, v) <==> Bound(h, v, n, max))
    && (forall v, n :: n in NodesOf(s.services, v) ==> n in s.nodes)
  }

  lemma {:induction false} RunRefines(h: seq<Event>, max: int)
    ensures Refines(h, max, Run(h, max))
  {
    if h != [] {
      RunRefines(Before(h), max);
      StepRefines(h, max, Run(Before(h), max), Run(h, max));
    }
  }

  /** What the counts make of an event: it unbinds the node. */
  predicate Removes(s: State, ev: Event, node: string, max: int) {
    ev == Unbind(node) || (ev.Ping? && ev.node == node && !ev.replied && Fails(s.failsNodes, node) + 1 >= max)
  }

  lemma RemovesIffUnbinds(h: seq<Event>, max: int, node: string)
    requires h != []
    ensures Removes(Run(Before(h), max), Last(h), node, max) <==> Unbinds(h, node, max)
  {
    hide Run, Trailing, Unresponsive;
    if Last(h).Ping? && Last(h).node == node {
      var pings := PingsOf(Before(h), node);
      CountsAreTrailing(Before(h), max, node);
      TrailingSnoc(pings, Last(h).replied);
      if Last(h).replied { AnsweredLast(pings, max); } else { TrailingIffUnresponsive(pings + [false], max); }
    }
  }

  lemma AnsweredLast(pings: seq<bool>, max: int)
    ensures !Unresponsive(pings + [true], max)
  {
    assert (pings + [true])[|pings|];
  }

  lemma ServiceRemovedIff(h: seq<Event>, max: int)
    requires h != [] && Last(h).PingService?
    ensures var ev := Last(h);
            !ev.replied && Fails(Run(Before(h), max).failsServices, (ev.service, ev.node)) + 1 >= max
            <==> Unresponsive(ServicePingsOf(h, ev.service, ev.node), max)
  {
    hide Run, Trailing, Unresponsive;
    var ev := Last(h);
    var pings := ServicePingsOf(Before(h), ev.service, ev.node);
    ServiceCountsAreTrailing(Before(h), max, ev.service, ev.node);
    TrailingSnoc(pings, ev.replied);
    if ev.replied { AnsweredLast(pings, max); } else { TrailingIffUnresponsive(pings + [false], max); }
  }

  lemma StepRefines(h: seq<Event>, max: int, s: State, s': State)
    requires h != [] && Refines(Before(h), max, s) && s == Run(Before(h), max) && s' == Step(s, Last(h), max).0
    ensures Refines(h, max, s')
  {
    hide Refines, Step, Run, Unbinds, Known, CurrentAddress, Bound;
    RefinesAll(Before(h), max, s);
    forall n ensures Removes(s, Last(h), n, max) <==> Unbinds(h, n, max) { RemovesIffUnbinds(h, max, n); }
    forall n
      ensures n in s'.nodes <==> Known(h, n, max)
      ensures AddressOf(s'.nodes, n) == CurrentAddress(h, n, max)
    {
      StepKnown(h, max, s, s', n);
      StepAddress(h, max, s, s', n);
    }
    forall v, n ensures n in NodesOf(s'.services, v) <==> Bound(h, v, n, max) {
      if Last(h).PingService? { ServiceRemovedIff(h, max); }
      StepBound(h, max, s, s', v, n);
    }
    forall v, n ensures n in NodesOf(s'.services, v) ==> n in s'.nodes {
      StepListed(s, Last(h), s', max, v, n);
    }
    RefinesFrom(h, max, s');
  }

  lemma RefinesAll(h: seq<Event>, max: int, s: State)
    requires Refines(h, max, s)
    ensures forall n :: n in s.nodes <==> Known(h, n, max)
    ensures forall n :: AddressOf(s.nodes, n) == CurrentAddress(h, n, max)
    ensures forall v, n :: n in NodesOf(s.services, v) <==> Bound(h, v, n, max)
    ensures forall v, n :: n in NodesOf(s.services, v) ==> n in s.nodes
  {
  }

  lemma RefinesFrom(h: seq<Event>, max: int, s: State)
    requires forall n :: n in s.nodes <==> Known(h, n, max)
    requires forall n :: AddressOf(s.nodes, n) == CurrentAddress(h, n, max)
    requires forall v, n :: n in NodesOf(s.services, v) <==> Bound(h, v, n, max)
    requires forall v, n :: n in NodesOf(s.services, v) ==> n in s.nodes
    ensures Refines(h, max, s)
  {
  }

  /** The effect of any event on one node's address. */
  lemma NodeAfter(s: State, ev: Event, max: int, n: string)
    requires forall v, m :: m in NodesOf(s.services, v) ==> m in s.nodes
    ensures var s' := Step(s, ev, max).0;
            var binds := ev.Bind? && ev.node == n && n != "" && ev.address != "";
            && (n in s'.nodes <==> !Removes(s, ev, n, max) && (binds || ev == Resolve(n) || n in s.nodes))
            && AddressOf(s'.nodes, n)
               == if Removes(s, ev, n, max) then "" else if binds then ev.address else AddressOf(s.nodes, n)
  {
    if ev.ResolveService? { assert forall m | m in NodesOf(s.services, ev.service) :: m in s.nodes; }
  }

  lemma StepKnown(h: seq<Event>, max: int, s: State, s': State, n: string)
    requires h != [] && s' == Step(s, Last(h), max).0
    requires Removes(s, Last(h), n, max) <==> Unbinds(h, n, max)
    requires n in s.nodes <==> Known(Before(h), n, max)
    requires forall v, m :: m in NodesOf(s.services, v) ==> m in s.nodes
    ensures n in s'.nodes <==> Known(h, n, max)
  {
    hide Unbinds, Step, Removes, AddressOf;
    NodeAfter(s, Last(h), max, n);
  }

  lemma StepAddress(h: seq<Event>, max: int, s: State, s': State, n: string)
    requires h != [] && s' == Step(s, Last(h), max).0
    requires Removes(s, Last(h), n, max) <==> Unbinds(h, n, max)
    requires AddressOf(s.nodes, n) == CurrentAddress(Before(h), n, max)
    requires forall v, m :: m in NodesOf(s.services, v) ==> m in s.nodes
    ensures AddressOf(s'.nodes, n) == CurrentAddress(h, n, max)
  {
    hide Unbinds, Step, Removes, AddressOf;
    NodeAfter(s, Last(h), max, n);
  }

  lemma StepBound(h: seq<Event>, max: int, s: State, s': State, v: string, n: string)
    requires h != [] && s' == Step(s, Last(h), max).0
    requires Removes(s, Last(h), n, max) <==> Unbinds(h, n, max)
    requires forall m :: m in s.nodes <==> Known(Before(h), m, max)
    requires n in NodesOf(s.services, v) <==> Bound(Before(h), v, n, max)
    requires Last(h).PingService? ==>
               var ev := Last(h);
               (!ev.replied && Fails(s.failsServices, (ev.service, ev.node)) + 1 >= max
                <==> Unresponsive(ServicePingsOf(h, ev.service, ev.node), max))
    ensures n in NodesOf(s'.services, v) <==> Bound(h, v, n, max)
  {
    hide Unbinds, Known, Unresponsive, ServicePingsOf, Step, Removes, NodesOf, Fails;
    ServiceAfter(s, Last(h), max, v, n);
  }

  /** The effect of any event on one (service, node) pair. */
  lemma ServiceAfter(s: State, ev: Event, max: int, v: string, n: string)
    ensures var s' := Step(s, ev, max).0;
            var binds := ev == BindService(v, n) && v != "" && n != "" && n in s.nodes;
            var drops := ev == UnbindService(v, n) && v != "" && n != "";
            var fails := ev == PingService(v, n, false) && Fails(s.failsServices, (v, n)) + 1 >= max;
            n in NodesOf(s'.services, v)
            <==> !Removes(s, ev, n, max) && !drops && !fails && (binds || n in NodesOf(s.services, v))
  {
  }

  lemma StepListed(s: State, ev: Event, s': State, max: int, v: string, n: string)
    requires s' == Step(s, ev, max).0
    requires forall v, n :: n in NodesOf(s.services, v) ==> n in s.nodes
    ensures n in NodesOf(s'.services, v) ==> n in s'.nodes
  {
    assert n in NodesOf(s.services, v) ==> n in s.nodes;
  }

  /** Some node bound to the service has this current address. */
  ghost predicate ServedAt(h: seq<Event>, service: string, a: string, max: int) {
    exists n :: Bound(h, service, n, max) && CurrentAddress(h, n, max) == a
  }

  /** resolve_service fails exactly when no node is bound, and otherwise lists exactly the non-empty current
      addresses of the nodes whose last relevant event is a successful bind_service. */
  lemma ResolveServiceIsReference(h: seq<Event>, service: string, max: int)
    ensures var r := Step(Run(h, max), ResolveService(service), max).1;
            if !exists n :: Bound(h, service, n, max) then r == Failed
            else
              && r.Addresses?
              && (forall a :: a in r.addresses <==> a != "" && ServedAt(h, service, a, max))
              && (forall i, j | 0 <= i < j < |r.addresses| :: Less(r.addresses[i], r.addresses[j]))
  {
    hide Run, Bound, CurrentAddress, Known;
    RunRefines(h, max);
    var s := Run(h, max);
    var bound := NodesOf(s.services, service);
    var resolved := set n | n in bound :: AddressOf(s.nodes, n);
    forall n | Bound(h, service, n, max) ensures CurrentAddress(h, n, max) in resolved {
      assert n in bound && AddressOf(s.nodes, n) == CurrentAddress(h, n, max);
    }
    forall a ensures a in resolved <==> ServedAt(h, service, a, max) {
      if a in resolved {
        var n :| n in bound && AddressOf(s.nodes, n) == a;
        assert Bound(h, service, n, max) && CurrentAddress(h, n, max) == a;
      }
    }
    var r := Step(s, ResolveService(service), max).1;
    InOrderAscends(resolved - {""});
    assert r == if resolved == {} then Failed else Addresses(InOrder(resolved - {""}));
  }

  /** resolve answers the current address. */
  lemma ResolveIsReference(h: seq<Event>, node: string, max: int)
    ensures Step(Run(h, max), Resolve(node), max).1
         == if CurrentAddress(h, node, max) == "" then Failed else Address(CurrentAddress(h, node, max))
  {
    RunRefines(h, max);
  }

  /** bind_service succeeds exactly for a node that was bound or merely asked for since its last unbinding. */
  lemma BindServiceIffKnown(h: seq<Event>, service: string, node: string, max: int)
    ensures Step(Run(h, max), BindService(service, node), max).1 == Done
       <==> service != "" && node != "" && Known(h, node, max)
  {
    RunRefines(h, max);
  }

  /** bind succeeds exactly for a name and an address that are not empty, and resolve then answers the address. */
  lemma BindThenResolve(h: seq<Event>, node: string, address: string, max: int)
    ensures Step(Run(h, max), Bind(node, address), max).1 == if node == "" || address == "" then Failed else Done
    ensures node != "" && address != "" ==>
              Step(Run(h + [Bind(node, address)], max), Resolve(node), max).1 == Address(address)
  {
    var h' := h + [Bind(node, address)];
    assert Before(h') == h && Last(h') == Bind(node, address);
    ResolveIsReference(h', node, max);
  }

  /** unbind always succeeds, and the node is then unknown until it is bound or asked for again. unbind_service succeeds
      exactly for names that are not empty, and the node then does not serve. */
  lemma UnbindThenGone(h: seq<Event>, service: string, node: string, max: int)
    ensures Step(Run(h, max), Unbind(node), max).1 == Done
    ensures node !in Run(h + [Unbind(node)], max).nodes
    ensures Step(Run(h, max), UnbindService(service, node), max).1
         == if service == "" || node == "" then Failed else Done
    ensures service != "" && node != "" ==>
              node !in NodesOf(Run(h + [UnbindService(service, node)], max).services, service)
  {
    var h', h'' := h + [Unbind(node)], h + [UnbindService(service, node)];
    assert Before(h') == h && Last(h') == Unbind(node);
    assert Before(h'') == h && Last(h'') == UnbindService(service, node);
    RunRefines(h', max);
    RunRefines(h'', max);
  }

  /** The service has been asked for, or a node was bound to it or taken off it. */
  predicate Entered(h: seq<Event>, service: string, max: int) {
    h != []
    && (Entered(Before(h), service, max)
        || match Last(h)
           case ResolveService(v) => v == service
           case BindService(v, n) => v == service && v != "" && n != "" && Known(Before(h), n, max)
           case UnbindService(v, n) => v == service && v != "" && n != ""
           case PingService(v, n, _) => v == service && Unresponsive(ServicePingsOf(h, v, n), max)
           case _ => false)
  }

  /** Over every run the service map has exactly those services as keys: none is ever taken out. */
  lemma {:induction false} EnteredIff(h: seq<Event>, service: string, max: int)
    ensures service in Run(h, max).services <==> Entered(h, service, max)
  {
    hide Known, Unresponsive, ServicePingsOf, Refines;
    if h != [] {
      EnteredIff(Before(h), service, max);
      RunRefines(Before(h), max);
      RefinesAll(Before(h), max, Run(Before(h), max));
      if Last(h).PingService? { ServiceRemovedIff(h, max); }
    }
  }

  /** Asking for an unknown node is enough to register it for a service; the service then resolves to no address. */
  lemma AskedForIsBindable(service: string, node: string, max: int)
    requires service != "" && node != ""
    ensures Step(Run([Resolve(node)], max), BindService(service, node), max).1 == Done
    ensures Step(Run([Resolve(node), BindService(service, node)], max), ResolveService(service), max).1 == Addresses([])
  {
    var h := [Resolve(node), BindService(service, node)];
    assert Before(h) == [Resolve(node)] && Before([Resolve(node)]) == [];
    assert Known([Resolve(node)], node, max);
    BindServiceIffKnown([Resolve(node)], service, node, max);
    ResolveServiceIsReference(h, service, max);
    assert Bound(h, service, node, max);
    var r := Step(Run(h, max), ResolveService(service), max).1;
    forall a ensures a !in r.addresses {
      forall n | Bound(h, service, n, max) ensures CurrentAddress(h, n, max) == "" {
        assert CurrentAddress(Before(h), n, max) == "";
      }
    }
  }

  // ----- the monitor -----

  /** One of every max consecutive pings is answered. */
  ghost predicate AnswersOften(pings: seq<bool>, max: int) {
    forall i | 0 <= i <= |pings| - max :: AnswersWithin(pings, i, max)
  }

  /** Some ping of the window of `max` pings from position i is answered. */
  predicate AnswersWithin(pings: seq<bool>, i: int, max: int) {
    exists j | 0 <= j < |pings| :: i <= j < i + max && pings[j]
  }

  /** The monitor unbinds a node exactly at a ping that completes max unanswered ones in a row, counting across
      unbinding and rebinding. */
  lemma MonitorUnbindsIff(h: seq<Event>, node: string, max: int)
    requires node in Run(h, max).nodes
    ensures node !in Step(Run(h, max), Ping(node, false), max).0.nodes
       <==> Unresponsive(PingsOf(h, node) + [false], max)
    ensures node in Step(Run(h, max), Ping(node, true), max).0.nodes
  {
    CountsAreTrailing(h, max, node);
    TrailingSnoc(PingsOf(h, node), false);
    TrailingIffUnresponsive(PingsOf(h, node) + [false], max);
  }

  lemma {:induction false} PingsPrefix(h: seq<Event>, k: nat, node: string)
    requires k <= |h|
    ensures PingsOf(h[..k], node) <= PingsOf(h, node)
  {
    if k == |h| {
      assert h[..k] == h;
    } else {
      assert Before(h)[..k] == h[..k];
      PingsPrefix(Before(h), k, node);
    }
  }

  lemma OftenInPrefix(pings: seq<bool>, all: seq<bool>, max: int)
    requires pings <= all && AnswersOften(all, max) && 1 <= max
    ensures !Unresponsive(pings, max)
  {
    if |pings| >= max {
      assert AnswersWithin(all, |pings| - max, max);
      var j :| 0 <= j < |all| && |pings| - max <= j < |pings| - max + max && all[j];
      assert pings[j];
    }
  }

  /** Over any run: a node known at some point, not unbound by a request since, and answering at least one of every
      max consecutive pings, is still known at the end, whatever the other requests and pings. */
  lemma {:induction false} OftenAnsweringStays(h: seq<Event>, k: nat, node: string, max: int)
    requires 1 <= max && k <= |h| && node in Run(h[..k], max).nodes
    requires forall i | k <= i < |h| :: h[i] != Unbind(node)
    requires AnswersOften(PingsOf(h, node), max)
    ensures node in Run(h, max).nodes
  {
    hide AnswersOften, Unresponsive;
    if k == |h| {
      assert h[..k] == h;
    } else {
      var before := Before(h);
      assert before[..k] == h[..k];
      PingsPrefix(h, |h| - 1, node);
      OftenIsInherited(PingsOf(before, node), PingsOf(h, node), max);
      OftenAnsweringStays(before, k, node, max);
      OftenInPrefix(PingsOf(h, node), PingsOf(h, node), max);
      StillKnown(h, node, max);
    }
  }

  lemma OftenIsInherited(pings: seq<bool>, all: seq<bool>, max: int)
    requires pings <= all && AnswersOften(all, max)
    ensures AnswersOften(pings, max)
  {
    forall i | 0 <= i <= |pings| - max ensures AnswersWithin(pings, i, max) {
      assert AnswersWithin(all, i, max);
      var j :| 0 <= j < |all| && i <= j < i + max && all[j];
      assert pings[j];
    }
  }

  /** One event leaves a known node known unless it unbinds it. */
  lemma StillKnown(h: seq<Event>, node: string, max: int)
    requires h != [] && node in Run(Before(h), max).nodes && !Unbinds(h, node, max)
    ensures node in Run(h, max).nodes
  {
    hide Run;
    RunRefines(Before(h), max);
    RunRefines(h, max);
    assert Known(Before(h), node, max);
    assert Known(h, node, max);
  }
}
