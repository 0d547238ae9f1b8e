/** The walk outward from an exported port: which connections of the enclosing groups carry it. */
module CanvasWalk {
  import opened Common

  datatype Connection = Connection(from: string, to: string)

  /** An export names a port of the group under an alias of its own: (alias, "child.port"). */
  type Exports = seq<(string, string)>

  datatype Group = Group(connections: seq<Connection>, exposeInputs: Exports, exposeOutputs: Exports)

  /** The document, by group path; the root group has the empty path. */
  type Doc = map<string, Group>

  /** A port exported by the group at `path` under the alias `name`. */
  datatype Port = Port(path: string, name: string)

  type Hit = (string, nat)

  // ----- Paths -----

  /** Position of the last dot. */
  function LastDot(path: string): (r: Option<nat>)
    ensures r.Some? ==> r.value < |path| && path[r.value] == '.'
  {
    if path == "" then None
    else if path[|path| - 1] == '.' then Some(|path| - 1)
    else LastDot(path[..|path| - 1])
  }

  function Parent(path: string): (r: string)
    ensures path != "" ==> |r| < |path|
  {
    var dot := LastDot(path);
    if dot.None? then "" else path[..dot.value]
  }

  /** The port as the enclosing group's connections and exports name it. */
  function Endpoint(port: Port): string {
    var dot := LastDot(port.path);
    (if dot.None? then port.path else port.path[dot.value + 1..]) + "." + port.name
  }

  function EndOf(c: Connection, isOutput: bool): string {
    if isOutput then c.from else c.to
  }

  function ExportsOf(g: Group, isOutput: bool): Exports {
    if isOutput then g.exposeOutputs else g.exposeInputs
  }

  // ----- The relation -----

  /** The port has an enclosing group in the document. */
  predicate Enclosed(doc: Doc, port: Port) {
    port.path != "" && Parent(port.path) in doc
  }

  /** The connection, named by its group and position, ends at the port. */
  predicate Connected(doc: Doc, isOutput: bool, port: Port, hit: Hit) {
    && Enclosed(doc, port) && hit.0 == Parent(port.path)
    && hit.1 < |doc[hit.0].connections|
    && EndOf(doc[hit.0].connections[hit.1], isOutput) == Endpoint(port)
  }

  /** The enclosing group exports the port again, as `outer`. */
  predicate Reexported(doc: Doc, isOutput: bool, port: Port, outer: Port) {
    && Enclosed(doc, port) && outer.path == Parent(port.path)
    && (outer.name, Endpoint(port)) in ExportsOf(doc[outer.path], isOutput)
  }

  /** The path names the child of that name in the group at `parent`; only the root group has none. */
  ghost predicate Within(path: string, parent: string, child: string) {
    && path != "" && '.' !in child
    && ((path == child && parent == "") || path == parent + "." + child)
  }

  /** An output's connection starts at "child.port" in the enclosing group, an input's ends there. */
  ghost predicate EndsAt(doc: Doc, isOutput: bool, port: Port, hit: Hit) {
    exists child ::
      && Within(port.path, hit.0, child) && hit.0 in doc && hit.1 < |doc[hit.0].connections|
      && child + "." + port.name ==
         if isOutput then doc[hit.0].connections[hit.1].from else doc[hit.0].connections[hit.1].to
  }

  /** The enclosing group lists "child.port" under the alias `outer.name`, among its outputs or its inputs. */
  ghost predicate ExportedAs(doc: Doc, isOutput: bool, port: Port, outer: Port) {
    exists child ::
      && Within(port.path, outer.path, child) && outer.path in doc
      && (outer.name, child + "." + port.name) in
         if isOutput then doc[outer.path].exposeOutputs else doc[outer.path].exposeInputs
  }

  ghost predicate Chain(doc: Doc, isOutput: bool, ports: seq<Port>) {
    ports != [] && forall k | 0 <= k < |ports| - 1 :: ExportedAs(doc, isOutput, ports[k], ports[k + 1])
  }

  /** Some chain of exports leads from the port to one the connection ends at. */
  ghost predicate Carries(doc: Doc, isOutput: bool, port: Port, hit: Hit) {
    exists ports :: Chain(doc, isOutput, ports) && ports[0] == port && EndsAt(doc, isOutput, ports[|ports| - 1], hit)
  }

  // ----- What the walk finds, port by port -----

  function HitsUpTo(doc: Doc, isOutput: bool, port: Port, n: nat): seq<Hit>
    requires Enclosed(doc, port) && n <= |doc[Parent(port.path)].connections|
  {
    if n == 0 then []
    else
      HitsUpTo(doc, isOutput, port, n - 1)
      + (if EndOf(doc[Parent(port.path)].connections[n - 1], isOutput) == Endpoint(port)
         then [(Parent(port.path), n - 1)] else [])
  }

  function Hits(doc: Doc, isOutput: bool, port: Port): seq<Hit> {
    if Enclosed(doc, port) then HitsUpTo(doc, isOutput, port, |doc[Parent(port.path)].connections|) else []
  }

  function OutersUpTo(exports: Exports, port: Port, n: nat): (r: seq<Port>)
    requires n <= |exports|
    ensures forall k | 0 <= k < |r| :: r[k].path == Parent(port.path)
  {
    if n == 0 then []
    else
      OutersUpTo(exports, port, n - 1)
      + (if exports[n - 1].1 == Endpoint(port) then [Port(Parent(port.path), exports[n - 1].0)] else [])
  }

  function Outers(doc: Doc, isOutput: bool, port: Port): (r: seq<Port>)
    ensures forall k | 0 <= k < |r| :: Enclosed(doc, port) && r[k].path == Parent(port.path)
  {
    if Enclosed(doc, port) then
      var exports := ExportsOf(doc[Parent(port.path)], isOutput);
      OutersUpTo(exports, port, |exports|)
    else []
  }

  /** The port's own connections, then everything behind its outer ports, the last one first. */
  function Walk(doc: Doc, isOutput: bool, port: Port): seq<Hit>
    decreases |port.path|, 1, 0
  {
    Hits(doc, isOutput, port) + WalkOuters(doc, isOutput, port, |Outers(doc, isOutput, port)|)
  }

  function WalkOuters(doc: Doc, isOutput: bool, port: Port, n: nat): seq<Hit>
    requires n <= |Outers(doc, isOutput, port)|
    decreases |port.path|, 0, n
  {
    if n == 0 then []
    else Walk(doc, isOutput, Outers(doc, isOutput, port)[n - 1]) + WalkOuters(doc, isOutput, port, n - 1)
  }

  /** What a stack of ports still leads to, from its top down. */
  function WalkStack(doc: Doc, isOutput: bool, ports: seq<Port>): seq<Hit> {
    if ports == [] then []
    else Walk(doc, isOutput, ports[|ports| - 1]) + WalkStack(doc, isOutput, ports[..|ports| - 1])
  }

  /** How many ports a port leads to, itself included. */
  ghost function Weight(doc: Doc, isOutput: bool, port: Port): nat
    decreases |port.path|, 1, 0
  {
    1 + WeightOuters(doc, isOutput, port, |Outers(doc, isOutput, port)|)
  }

  ghost function WeightOuters(doc: Doc, isOutput: bool, port: Port, n: nat): nat
    requires n <= |Outers(doc, isOutput, port)|
    decreases |port.path|, 0, n
  {
    if n == 0 then 0
    else Weight(doc, isOutput, Outers(doc, isOutput, port)[n - 1]) + WeightOuters(doc, isOutput, port, n - 1)
  }

  /** The work a stack stands for. */
  ghost function StackWeight(doc: Doc, isOutput: bool, ports: seq<Port>): nat {
    if ports == [] then 0
    else Weight(doc, isOutput, ports[|ports| - 1]) + StackWeight(doc, isOutput, ports[..|ports| - 1])
  }

  /** Stacking `above` on `below`. */
  lemma {:induction false} StackOn(doc: Doc, isOutput: bool, below: seq<Port>, above: seq<Port>)
    ensures WalkStack(doc, isOutput, below + above) == WalkStack(doc, isOutput, above) + WalkStack(doc, isOutput, below)
    ensures StackWeight(doc, isOutput, below + above) ==
            StackWeight(doc, isOutput, above) + StackWeight(doc, isOutput, below)
  {
    hide Walk, Weight;
    if above == [] {
      assert below + above == below;
    } else {
      var n := |above| - 1;
      StackOn(doc, isOutput, below, above[..n]);
      assert (below + above)[..|below + above| - 1] == below + above[..n];
    }
  }

  lemma {:induction false} OutersStack(doc: Doc, isOutput: bool, port: Port, n: nat)
    requires n <= |Outers(doc, isOutput, port)|
    ensures WalkOuters(doc, isOutput, port, n) == WalkStack(doc, isOutput, Outers(doc, isOutput, port)[..n])
    ensures WeightOuters(doc, isOutput, port, n) == StackWeight(doc, isOutput, Outers(doc, isOutput, port)[..n])
  {
    hide Walk, Weight, Outers;
    var outers := Outers(doc, isOutput, port);
    if n > 0 {
      OutersStack(doc, isOutput, port, n - 1);
      assert outers[..n][..n - 1] == outers[..n - 1];
    }
  }

  lemma WalkUnfolds(doc: Doc, isOutput: bool, port: Port)
    ensures Walk(doc, isOutput, port) ==
            Hits(doc, isOutput, port) + WalkStack(doc, isOutput, Outers(doc, isOutput, port))
    ensures Weight(doc, isOutput, port) == 1 + StackWeight(doc, isOutput, Outers(doc, isOutput, port))
  {
    hide Outers, Hits;
    var outers := Outers(doc, isOutput, port);
    OutersStack(doc, isOutput, port, |outers|);
    assert outers[..|outers|] == outers;
  }

  lemma StackOfOne(doc: Doc, isOutput: bool, port: Port)
    ensures WalkStack(doc, isOutput, [port]) == Walk(doc, isOutput, port)
    ensures StackWeight(doc, isOutput, [port]) == Weight(doc, isOutput, port)
  {
    hide Walk, Weight;
    var one := [port];
    assert one[..0] == [] && one[|one| - 1] == port;
    assert WalkStack(doc, isOutput, one) == Walk(doc, isOutput, port) + WalkStack(doc, isOutput, one[..0]);
  }

  /** One turn of the loop: the top of the stack gives way to its outer ports. */
  lemma Turn(doc: Doc, isOutput: bool, below: seq<Port>, port: Port)
    ensures WalkStack(doc, isOutput, below + [port]) ==
            Hits(doc, isOutput, port) + WalkStack(doc, isOutput, below + Outers(doc, isOutput, port))
    ensures StackWeight(doc, isOutput, below + [port]) ==
            1 + StackWeight(doc, isOutput, below + Outers(doc, isOutput, port))
  {
    hide Walk, Weight, WalkStack, StackWeight, Outers, Hits;
    StackOn(doc, isOutput, below, [port]);
    StackOfOne(doc, isOutput, port);
    WalkUnfolds(doc, isOutput, port);
    StackOn(doc, isOutput, below, Outers(doc, isOutput, port));
  }

  // ----- The worklist -----

  /** The last-in first-out walk as the canvas runs it. It ends, although each step may push more ports
      than it pops: the weight of the stack goes down by one. */
  method OuterConnections(doc: Doc, current: string, alias: string, isOutput: bool) returns (found: seq<Hit>)
    ensures found == Walk(doc, isOutput, Port(current, alias))
  {
    hide Walk, WalkStack, Weight, StackWeight, Endpoint, Parent;
    var start := Port(current, alias);
    found := [];
    var ports := [start];
    StackOfOne(doc, isOutput, start);
    while ports != []
      invariant found + WalkStack(doc, isOutput, ports) == Walk(doc, isOutput, start)
      decreases StackWeight(doc, isOutput, ports)
    {
      var port := ports[|ports| - 1];
      ghost var below := ports[..|ports| - 1];
      assert ports == below + [port];
      Turn(doc, isOutput, below, port);
      ports := ports[..|ports| - 1];
      if port.path == "" || Parent(port.path) !in doc {
        assert below + Outers(doc, isOutput, port) == below;
        continue;
      }
      var hits := CollectHits(doc, isOutput, port);
      found := found + hits;
      var outers := CollectOuters(doc, isOutput, port);
      ports := ports + outers;
    }
    EmptyStack(doc, isOutput);
  }

  lemma EmptyStack(doc: Doc, isOutput: bool)
    ensures WalkStack(doc, isOutput, []) == []
  {}

  /** The loop over the enclosing group's connections. */
  method CollectHits(doc: Doc, isOutput: bool, port: Port) returns (hits: seq<Hit>)
    requires Enclosed(doc, port)
    ensures hits == Hits(doc, isOutput, port)
  {
    var parent := Parent(port.path);
    var g := doc[parent];
    hits := [];
    for i := 0 to |g.connections|
      invariant hits == HitsUpTo(doc, isOutput, port, i)
    {
      if EndOf(g.connections[i], isOutput) == Endpoint(port) {
        hits := hits + [(parent, i)];
      }
    }
  }

  /** The loop over its exports. */
  method CollectOuters(doc: Doc, isOutput: bool, port: Port) returns (outers: seq<Port>)
    requires Enclosed(doc, port)
    ensures outers == Outers(doc, isOutput, port)
  {
    var parent := Parent(port.path);
    var exports := ExportsOf(doc[parent], isOutput);
    outers := [];
    for i := 0 to |exports|
      invariant outers == OutersUpTo(exports, port, i)
    {
      if exports[i].1 == Endpoint(port) {
        outers := outers + [Port(parent, exports[i].0)];
      }
    }
  }

  // ----- It finds exactly what carries the port -----

  lemma {:induction false} HitsExact(doc: Doc, isOutput: bool, port: Port, n: nat, hit: Hit)
    requires Enclosed(doc, port) && n <= |doc[Parent(port.path)].connections|
    ensures hit in HitsUpTo(doc, isOutput, port, n) <==> Connected(doc, isOutput, port, hit) && hit.1 < n
    ensures Distinct(HitsUpTo(doc, isOutput, port, n))
  {
    hide EndOf, Endpoint, Parent;
    if n > 0 {
      HitsExact(doc, isOutput, port, n - 1, hit);
      HitsExact(doc, isOutput, port, n - 1, (Parent(port.path), n - 1));
    }
  }

  lemma {:induction false} OutersExact(exports: Exports, port: Port, n: nat, outer: Port)
    requires n <= |exports|
    ensures outer in OutersUpTo(exports, port, n) <==>
            outer.path == Parent(port.path) && (outer.name, Endpoint(port)) in exports[..n]
  {
    if n > 0 {
      OutersExact(exports, port, n - 1, outer);
      assert exports[..n] == exports[..n - 1] + [exports[n - 1]];
    }
  }

  lemma OutersAre(doc: Doc, isOutput: bool, port: Port, outer: Port)
    ensures outer in Outers(doc, isOutput, port) <==> Reexported(doc, isOutput, port, outer)
  {
    if Enclosed(doc, port) {
      var exports := ExportsOf(doc[Parent(port.path)], isOutput);
      OutersExact(exports, port, |exports|, outer);
      assert exports[..|exports|] == exports;
    }
  }

  lemma {:induction false} InWalkStack(doc: Doc, isOutput: bool, ports: seq<Port>, hit: Hit)
    ensures hit in WalkStack(doc, isOutput, ports) <==>
            exists k :: 0 <= k < |ports| && hit in Walk(doc, isOutput, ports[k])
  {
    hide Walk;
    if ports != [] {
      var n := |ports| - 1;
      InWalkStack(doc, isOutput, ports[..n], hit);
      assert forall k | 0 <= k < n :: ports[..n][k] == ports[k];
    }
  }

  lemma InHits(doc: Doc, isOutput: bool, port: Port, hit: Hit)
    ensures hit in Hits(doc, isOutput, port) <==> Connected(doc, isOutput, port, hit)
    ensures Distinct(Hits(doc, isOutput, port))
  {
    if Enclosed(doc, port) {
      HitsExact(doc, isOutput, port, |doc[Parent(port.path)].connections|, hit);
    }
  }

  lemma InWalk(doc: Doc, isOutput: bool, port: Port, hit: Hit)
    ensures hit in Walk(doc, isOutput, port) <==>
            Connected(doc, isOutput, port, hit)
            || exists outer :: Reexported(doc, isOutput, port, outer) && hit in Walk(doc, isOutput, outer)
  {
    hide Walk;
    WalkUnfolds(doc, isOutput, port);
    InHits(doc, isOutput, port, hit);
    var outers := Outers(doc, isOutput, port);
    InWalkStack(doc, isOutput, outers, hit);
    forall outer ensures outer in outers <==> Reexported(doc, isOutput, port, outer) {
      OutersAre(doc, isOutput, port, outer);
    }
    if k :| 0 <= k < |outers| && hit in Walk(doc, isOutput, outers[k]) {
      assert outers[k] in outers;
    }
  }

  /** Cutting at the last dot is naming the child and its group. */
  lemma WithinIs(path: string, parent: string, child: string)
    ensures Within(path, parent, child) <==>
            && path != "" && parent == Parent(path)
            && child == (if LastDot(path).None? then path else path[LastDot(path).value + 1..])
  {
    LastDotIs(path);
    var dot := LastDot(path);
    if dot.Some? {
      var last := path[dot.value + 1..];
      assert path == path[..dot.value] + "." + last;
      if path == parent + "." + child {
        assert path[|parent|] == '.';
        assert child == path[|parent| + 1..];
        if |parent| < dot.value {
          assert child[dot.value - |parent| - 1] == '.';
        } else {
          assert path[|parent|] == '.' && |parent| == dot.value;
          assert parent == path[..|parent|];
        }
      }
    }
  }

  lemma {:induction false} LastDotIs(path: string)
    ensures LastDot(path).None? ==> '.' !in path
    ensures LastDot(path).Some? ==> '.' !in path[LastDot(path).value + 1..]
    ensures forall k | 0 <= k < |path| && path[k] == '.' :: LastDot(path).Some? && k <= LastDot(path).value
  {
    if path != "" && path[|path| - 1] != '.' {
      var front := path[..|path| - 1];
      LastDotIs(front);
      assert path == front + [path[|path| - 1]];
      assert forall k | 0 <= k < |front| :: path[k] == front[k];
    }
  }

  lemma EndsAtIs(doc: Doc, isOutput: bool, port: Port, hit: Hit)
    ensures EndsAt(doc, isOutput, port, hit) <==> Connected(doc, isOutput, port, hit)
  {
    hide Within, LastDot;
    var dot := LastDot(port.path);
    var child := if dot.None? then port.path else port.path[dot.value + 1..];
    WithinIs(port.path, hit.0, child);
    forall x: string ensures Within(port.path, hit.0, x) ==> x == child {
      WithinIs(port.path, hit.0, x);
    }
  }

  lemma ExportedAsIs(doc: Doc, isOutput: bool, port: Port, outer: Port)
    ensures ExportedAs(doc, isOutput, port, outer) <==> Reexported(doc, isOutput, port, outer)
  {
    hide Within, LastDot;
    var dot := LastDot(port.path);
    var child := if dot.None? then port.path else port.path[dot.value + 1..];
    WithinIs(port.path, outer.path, child);
    forall x: string ensures Within(port.path, outer.path, x) ==> x == child {
      WithinIs(port.path, outer.path, x);
    }
  }

  lemma ChainLonger(doc: Doc, isOutput: bool, port: Port, outer: Port, hit: Hit)
    requires ExportedAs(doc, isOutput, port, outer) && Carries(doc, isOutput, outer, hit)
    ensures Carries(doc, isOutput, port, hit)
  {
    hide EndsAt, ExportedAs;
    var rest :| Chain(doc, isOutput, rest) && rest[0] == outer && EndsAt(doc, isOutput, rest[|rest| - 1], hit);
    var ports := [port] + rest;
    assert forall k | 0 < k < |ports| :: ports[k] == rest[k - 1];
    assert Chain(doc, isOutput, ports) && ports[|ports| - 1] == rest[|rest| - 1];
  }

  lemma ChainShorter(doc: Doc, isOutput: bool, port: Port, hit: Hit)
    requires Carries(doc, isOutput, port, hit) && !EndsAt(doc, isOutput, port, hit)
    ensures exists outer :: ExportedAs(doc, isOutput, port, outer) && Carries(doc, isOutput, outer, hit)
  {
    hide EndsAt, ExportedAs;
    var ports :| Chain(doc, isOutput, ports) && ports[0] == port && EndsAt(doc, isOutput, ports[|ports| - 1], hit);
    var rest := ports[1..];
    assert forall k | 0 <= k < |rest| :: rest[k] == ports[k + 1];
    assert ExportedAs(doc, isOutput, ports[0], ports[1]);
    assert Chain(doc, isOutput, rest) && rest[|rest| - 1] == ports[|ports| - 1];
    assert Carries(doc, isOutput, rest[0], hit);
  }

  /** A connection is carried by what ends at the port itself or what an outer port carries. */
  lemma CarriesStep(doc: Doc, isOutput: bool, port: Port, hit: Hit)
    ensures Carries(doc, isOutput, port, hit) <==>
            EndsAt(doc, isOutput, port, hit)
            || exists outer :: ExportedAs(doc, isOutput, port, outer) && Carries(doc, isOutput, outer, hit)
  {
    hide EndsAt, ExportedAs, Carries;
    if EndsAt(doc, isOutput, port, hit) {
      ChainOfOne(doc, isOutput, port, hit);
    } else if Carries(doc, isOutput, port, hit) {
      ChainShorter(doc, isOutput, port, hit);
    }
    forall outer | ExportedAs(doc, isOutput, port, outer) && Carries(doc, isOutput, outer, hit)
      ensures Carries(doc, isOutput, port, hit)
    {
      ChainLonger(doc, isOutput, port, outer, hit);
    }
  }

  lemma ChainOfOne(doc: Doc, isOutput: bool, port: Port, hit: Hit)
    requires EndsAt(doc, isOutput, port, hit)
    ensures Carries(doc, isOutput, port, hit)
  {
    hide EndsAt;
    assert Chain(doc, isOutput, [port]) && [port][0] == port;
  }

  /** The walk from an exported port finds a connection if and only if some chain of exports leads from
      the port to one the connection ends at. */
  lemma {:induction false} WalkFindsCarriers(doc: Doc, isOutput: bool, port: Port, hit: Hit)
    ensures hit in Walk(doc, isOutput, port) <==> Carries(doc, isOutput, port, hit)
    decreases |port.path|
  {
    hide Walk, Carries, Connected, EndsAt, ExportedAs;
    InWalk(doc, isOutput, port, hit);
    CarriesStep(doc, isOutput, port, hit);
    EndsAtIs(doc, isOutput, port, hit);
    forall outer
      ensures ExportedAs(doc, isOutput, port, outer) <==> Reexported(doc, isOutput, port, outer)
      ensures Reexported(doc, isOutput, port, outer) ==>
                (hit in Walk(doc, isOutput, outer) <==> Carries(doc, isOutput, outer, hit))
    {
      ExportedAsIs(doc, isOutput, port, outer);
      if Reexported(doc, isOutput, port, outer) {
        WalkFindsCarriers(doc, isOutput, outer, hit);
      }
    }
  }

  // ----- None of them twice -----

  ghost predicate UniqueAliases(doc: Doc, isOutput: bool) {
    forall path | path in doc ::
      OwnAliases(if isOutput then doc[path].exposeOutputs else doc[path].exposeInputs)
  }

  predicate OwnAliases(exports: Exports) {
    forall i, j | 0 <= i < j < |exports| :: exports[i].0 != exports[j].0
  }

  lemma EndpointInjective(path: string, a: string, b: string)
    requires Endpoint(Port(path, a)) == Endpoint(Port(path, b))
    ensures a == b
  {
    var dot := LastDot(path);
    var base := (if dot.None? then path else path[dot.value + 1..]) + ".";
    assert Endpoint(Port(path, a)) == base + a && Endpoint(Port(path, b)) == base + b;
    assert a == (base + a)[|base|..] && b == (base + b)[|base|..];
  }

  lemma {:induction false} HitsAbove(doc: Doc, isOutput: bool, port: Port, hit: Hit)
    requires hit in Walk(doc, isOutput, port)
    ensures |hit.0| < |port.path|
    decreases |port.path|
  {
    hide Walk;
    InWalk(doc, isOutput, port, hit);
    if !Connected(doc, isOutput, port, hit) {
      var outer :| Reexported(doc, isOutput, port, outer) && hit in Walk(doc, isOutput, outer);
      HitsAbove(doc, isOutput, outer, hit);
    }
  }

  /** What ends at a port is not found from another port of the group: not there, and not further out. */
  lemma ConnectedApart(doc: Doc, isOutput: bool, path: string, a: string, b: string, hit: Hit)
    requires a != b && Connected(doc, isOutput, Port(path, a), hit)
    ensures hit !in Walk(doc, isOutput, Port(path, b))
  {
    hide Walk, Endpoint;
    if hit in Walk(doc, isOutput, Port(path, b)) {
      InWalk(doc, isOutput, Port(path, b), hit);
      if Connected(doc, isOutput, Port(path, b), hit) {
        EndpointInjective(path, a, b);
      } else {
        var y :| Reexported(doc, isOutput, Port(path, b), y) && hit in Walk(doc, isOutput, y);
        HitsAbove(doc, isOutput, y, hit);
      }
    }
  }

  /** Two ports exported again get two aliases. */
  lemma ReexportedApart(doc: Doc, isOutput: bool, path: string, a: string, b: string, x: Port, y: Port)
    requires UniqueAliases(doc, isOutput) && a != b
    requires Reexported(doc, isOutput, Port(path, a), x) && Reexported(doc, isOutput, Port(path, b), y)
    ensures x.path == y.path == Parent(path) && |Parent(path)| < |path| && x.name != y.name
  {
    hide Endpoint;
    if Endpoint(Port(path, a)) == Endpoint(Port(path, b)) {
      EndpointInjective(path, a, b);
    }
    var exports := ExportsOf(doc[Parent(path)], isOutput);
    assert OwnAliases(exports);
    var i :| 0 <= i < |exports| && exports[i] == (x.name, Endpoint(Port(path, a)));
    var j :| 0 <= j < |exports| && exports[j] == (y.name, Endpoint(Port(path, b)));
  }

  /** Two ports of one group never lead to the same connection. */
  lemma {:induction false} WalksApart(doc: Doc, isOutput: bool, path: string, a: string, b: string, hit: Hit)
    requires UniqueAliases(doc, isOutput) && a != b
    ensures !(hit in Walk(doc, isOutput, Port(path, a)) && hit in Walk(doc, isOutput, Port(path, b)))
    decreases |path|
  {
    hide Walk, Connected, Reexported, UniqueAliases;
    var p, q := Port(path, a), Port(path, b);
    if hit in Walk(doc, isOutput, p) && hit in Walk(doc, isOutput, q) {
      InWalk(doc, isOutput, p, hit);
      InWalk(doc, isOutput, q, hit);
      if Connected(doc, isOutput, p, hit) {
        ConnectedApart(doc, isOutput, path, a, b, hit);
      } else if Connected(doc, isOutput, q, hit) {
        ConnectedApart(doc, isOutput, path, b, a, hit);
      } else {
        var x :| Reexported(doc, isOutput, p, x) && hit in Walk(doc, isOutput, x);
        var y :| Reexported(doc, isOutput, q, y) && hit in Walk(doc, isOutput, y);
        ReexportedApart(doc, isOutput, path, a, b, x, y);
        WalksApart(doc, isOutput, Parent(path), x.name, y.name, hit);
      }
    }
  }

  lemma {:induction false} OutersDistinct(exports: Exports, port: Port, n: nat)
    requires n <= |exports| && OwnAliases(exports)
    ensures Distinct(OutersUpTo(exports, port, n))
  {
    if n > 0 {
      OutersDistinct(exports, port, n - 1);
      OutersExact(exports, port, n - 1, Port(Parent(port.path), exports[n - 1].0));
    }
  }

  lemma {:induction false} WalkStackDistinct(doc: Doc, isOutput: bool, path: string, ports: seq<Port>)
    requires UniqueAliases(doc, isOutput) && Distinct(ports)
    requires forall k | 0 <= k < |ports| :: ports[k].path == path && Distinct(Walk(doc, isOutput, ports[k]))
    ensures Distinct(WalkStack(doc, isOutput, ports))
  {
    hide Walk;
    if ports != [] {
      var n := |ports| - 1;
      WalkStackDistinct(doc, isOutput, path, ports[..n]);
      var top, rest := Walk(doc, isOutput, ports[n]), WalkStack(doc, isOutput, ports[..n]);
      forall i, j | 0 <= i < |top| && 0 <= j < |rest| ensures top[i] != rest[j] {
        InWalkStack(doc, isOutput, ports[..n], rest[j]);
        var k :| 0 <= k < n && rest[j] in Walk(doc, isOutput, ports[..n][k]);
        WalksApart(doc, isOutput, path, ports[n].name, ports[k].name, rest[j]);
        assert ports[n] == Port(path, ports[n].name) && ports[k] == Port(path, ports[k].name);
      }
    }
  }

  /** With aliases unique in every group, no connection is found twice. */
  lemma {:induction false} WalkDistinct(doc: Doc, isOutput: bool, port: Port)
    requires UniqueAliases(doc, isOutput)
    ensures Distinct(Walk(doc, isOutput, port))
    decreases |port.path|
  {
    hide Walk;
    var outers := Outers(doc, isOutput, port);
    WalkUnfolds(doc, isOutput, port);
    InHits(doc, isOutput, port, ("", 0));
    if Enclosed(doc, port) {
      forall k | 0 <= k < |outers| ensures Distinct(Walk(doc, isOutput, outers[k])) {
        WalkDistinct(doc, isOutput, outers[k]);
      }
      var exports := ExportsOf(doc[Parent(port.path)], isOutput);
      assert OwnAliases(exports);
      OutersDistinct(exports, port, |exports|);
      WalkStackDistinct(doc, isOutput, Parent(port.path), outers);
      var hits, rest := Hits(doc, isOutput, port), WalkStack(doc, isOutput, outers);
      forall i, j | 0 <= i < |hits| && 0 <= j < |rest| ensures hits[i] != rest[j] {
        InHits(doc, isOutput, port, hits[i]);
        InWalkStack(doc, isOutput, outers, rest[j]);
        var k :| 0 <= k < |outers| && rest[j] in Walk(doc, isOutput, outers[k]);
        HitsAbove(doc, isOutput, outers[k], rest[j]);
        assert hits[i] in hits;
      }
    }
  }
}
