/** The serial scheduler of the dataflow engine: it asks a graph analyzer for a
    topological vertex order of the network under the execute-all policy and
    translates that order, vertex by vertex, into the list of module ids the
    execution engine runs.

    The analyzer itself is not part of this model. `Schedule` takes it as a
    function and relies only on its contract (`IsTopologicalOrder`);
    `TopologicalSort` is a Kahn sort showing that the contract can be met
    exactly when the network admits such an order. */
module Scheduler {
  import opened Wrappers

  type ModuleId = string

  /** Dense vertex index 0..N-1 of a module in the network snapshot. */
  type Vertex = nat

  /** A connection from an output port of `src` to an input port of `dst`;
      port numbers do not matter for ordering. */
  datatype Connection = Connection(src: Vertex, dst: Vertex)

  /** A network snapshot: vertex `v` is the module `modules[v]`. */
  datatype Network = Network(modules: seq<ModuleId>, connections: seq<Connection>)
  {
    /** Every connection joins two modules of the snapshot. */
    predicate WellFormed()
    {
      forall k :: 0 <= k < |connections| ==>
        connections[k].src < |modules| && connections[k].dst < |modules|
    }

    /** The vertex-to-module lookup is injective. */
    predicate DistinctIds()
    {
      Distinct(modules)
    }
  }

  /** The policy handed to the analyzer; the serial scheduler always passes
      `ExecuteAllModules`. */
  datatype ExecutionPolicy = ExecuteAllModules | ExecuteAffectedModules

  predicate Distinct<T(==)>(s: seq<T>)
  {
    forall i, j :: 0 <= i < j < |s| ==> s[i] != s[j]
  }

  /** `a` occurs at an earlier position of `s` than `b`. */
  predicate Before<T(==)>(s: seq<T>, a: T, b: T)
  {
    exists i, j :: 0 <= i < j < |s| && s[i] == a && s[j] == b
  }

  /** `topo` lists every vertex of `net` exactly once. */
  predicate IsVertexOrder(net: Network, topo: seq<Vertex>)
  {
    && Distinct(topo)
    && (forall i :: 0 <= i < |topo| ==> topo[i] < |net.modules|)
    && (forall v: Vertex :: v < |net.modules| ==> v in topo)
  }

  /** The analyzer's contract: every vertex once, and the source of every
      connection before its destination. */
  predicate IsTopologicalOrder(net: Network, topo: seq<Vertex>)
  {
    && IsVertexOrder(net, topo)
    && forall k :: 0 <= k < |net.connections| ==>
         Before(topo, net.connections[k].src, net.connections[k].dst)
  }

  /** For every connection, the upstream module id occurs before the
      downstream one in `order`. */
  predicate RespectsDependencies(net: Network, order: seq<ModuleId>)
  {
    forall k :: 0 <= k < |net.connections| ==>
      var c := net.connections[k];
      c.src < |net.modules| && c.dst < |net.modules| &&
      Before(order, net.modules[c.src], net.modules[c.dst])
  }

  /** `order` is `topo` with each vertex replaced by its module id. */
  predicate Translates(net: Network, topo: seq<Vertex>, order: seq<ModuleId>)
  {
    && |order| == |topo|
    && forall i :: 0 <= i < |topo| ==>
         topo[i] < |net.modules| && order[i] == net.modules[topo[i]]
  }

  /** `BoostGraphSerialScheduler::schedule`: one module id per vertex of the
      analyzer's topological range, in the same order. */
  method Schedule(net: Network, analyze: (Network, ExecutionPolicy) -> seq<Vertex>)
    returns (order: seq<ModuleId>)
    requires forall i :: 0 <= i < |analyze(net, ExecuteAllModules)| ==>
      analyze(net, ExecuteAllModules)[i] < |net.modules|
    ensures var topo := analyze(net, ExecuteAllModules);
      |order| == |topo| &&
      forall i :: 0 <= i < |topo| ==> order[i] == net.modules[topo[i]]
    ensures IsTopologicalOrder(net, analyze(net, ExecuteAllModules)) ==>
      RespectsDependencies(net, order) &&
      (forall id :: id in order <==> id in net.modules)
    ensures Distinct(analyze(net, ExecuteAllModules)) && net.DistinctIds() ==>
      Distinct(order)
  {
    var topo := analyze(net, ExecuteAllModules);
    order := [];
    var i := 0;
    while i < |topo|
      invariant 0 <= i <= |topo|
      invariant Translates(net, topo[..i], order)
    {
      order := order + [net.modules[topo[i]]];
      i := i + 1;
    }
    assert topo[..i] == topo;
    if IsTopologicalOrder(net, topo) {
      TranslationRespectsDependencies(net, topo, order);
      TranslationIsComplete(net, topo, order);
    }
    if Distinct(topo) && net.DistinctIds() {
      TranslationIsDistinct(net, topo, order);
    }
  }

  lemma TranslationRespectsDependencies(net: Network, topo: seq<Vertex>, order: seq<ModuleId>)
    requires IsTopologicalOrder(net, topo)
    requires Translates(net, topo, order)
    ensures RespectsDependencies(net, order)
  {
    forall k | 0 <= k < |net.connections|
      ensures var c := net.connections[k];
        c.src < |net.modules| && c.dst < |net.modules| &&
        Before(order, net.modules[c.src], net.modules[c.dst])
    {
      var c := net.connections[k];
      assert Before(topo, c.src, c.dst);
      var i, j :| 0 <= i < j < |topo| && topo[i] == c.src && topo[j] == c.dst;
      assert order[i] == net.modules[c.src] && order[j] == net.modules[c.dst];
    }
  }

  lemma TranslationIsComplete(net: Network, topo: seq<Vertex>, order: seq<ModuleId>)
    requires IsVertexOrder(net, topo)
    requires Translates(net, topo, order)
    ensures forall id :: id in order <==> id in net.modules
  {
    forall id
      ensures id in order <==> id in net.modules
    {
      if id in order {
        var i :| 0 <= i < |order| && order[i] == id;
        assert net.modules[topo[i]] == id;
      }
      if id in net.modules {
        var v: Vertex :| v < |net.modules| && net.modules[v] == id;
        assert v in topo;
        var i :| 0 <= i < |topo| && topo[i] == v;
        assert order[i] == id;
      }
    }
  }

  lemma TranslationIsDistinct(net: Network, topo: seq<Vertex>, order: seq<ModuleId>)
    requires Distinct(topo) && net.DistinctIds()
    requires Translates(net, topo, order)
    ensures Distinct(order)
  {
    forall i, j | 0 <= i < j < |order|
      ensures order[i] != order[j]
    {
      if topo[i] < topo[j] {
        assert net.modules[topo[i]] != net.modules[topo[j]];
      } else {
        assert topo[j] < topo[i];
        assert net.modules[topo[j]] != net.modules[topo[i]];
      }
    }
  }

  /** The translation is a function of the analyzer's range: one network,
      one order. */
  lemma TranslationIsDeterministic(net: Network, topo: seq<Vertex>, o1: seq<ModuleId>, o2: seq<ModuleId>)
    requires Translates(net, topo, o1) && Translates(net, topo, o2)
    ensures o1 == o2
  {
  }


  // ---------------------------------------------------------------------
  // A Kahn sort meeting the analyzer contract.

  datatype SortError =
    | DanglingConnection(index: nat)
    | Cycle(stuck: set<Vertex>)

  /** Some connection into `v` comes from a vertex of `s`. */
  predicate HasPredecessorIn(net: Network, s: set<Vertex>, v: Vertex)
  {
    exists k :: 0 <= k < |net.connections| &&
      net.connections[k].dst == v && net.connections[k].src in s
  }

  /** Every vertex of `s` is a vertex of `net` with an incoming connection from
      a vertex of `s`. */
  predicate ClosedUnderPredecessors(net: Network, s: set<Vertex>)
  {
    && (forall v :: v in s ==> v < |net.modules|)
    && (forall v {:trigger HasPredecessorIn(net, s, v)} :: v in s ==> HasPredecessorIn(net, s, v))
  }

  /** `v` is still to be emitted and none of its predecessors is. */
  predicate Ready(net: Network, remaining: set<Vertex>, v: Vertex)
  {
    v in remaining &&
    forall k :: 0 <= k < |net.connections| && net.connections[k].dst == v ==>
      net.connections[k].src !in remaining
  }

  /** The smallest ready vertex at or above `from`: the deterministic
      tie-break by ascending vertex index. */
  function NextReady(net: Network, remaining: set<Vertex>, from: Vertex): (r: Option<Vertex>)
    ensures r.Some? ==>
      from <= r.value < |net.modules| && Ready(net, remaining, r.value) &&
      forall u: Vertex :: from <= u < r.value ==> !Ready(net, remaining, u)
    ensures r.None? ==>
      forall u: Vertex :: from <= u < |net.modules| ==> !Ready(net, remaining, u)
    decreases |net.modules| - from
  {
    if from >= |net.modules| then None
    else if Ready(net, remaining, from) then Some(from)
    else NextReady(net, remaining, from + 1)
  }

  /** The index of the first connection at or above `from` that leaves the
      snapshot, if any. */
  function FindDangling(net: Network, from: nat): (r: Option<nat>)
    ensures r.Some? ==>
      from <= r.value < |net.connections| &&
      (net.connections[r.value].src >= |net.modules| ||
       net.connections[r.value].dst >= |net.modules|)
    ensures r.None? ==>
      forall k :: from <= k < |net.connections| ==>
        net.connections[k].src < |net.modules| && net.connections[k].dst < |net.modules|
    decreases |net.connections| - from
  {
    if from >= |net.connections| then None
    else
      var c := net.connections[from];
      if c.src >= |net.modules| || c.dst >= |net.modules| then Some(from)
      else FindDangling(net, from + 1)
  }

  /** Invariant of the sort: `emitted` and `remaining` split the vertices, and
      every connection into an emitted vertex has its source emitted earlier. */
  predicate KahnState(net: Network, remaining: set<Vertex>, emitted: seq<Vertex>)
  {
    && Distinct(emitted)
    && (forall v :: v in remaining ==> v < |net.modules|)
    && (forall i :: 0 <= i < |emitted| ==>
          emitted[i] < |net.modules| && emitted[i] !in remaining)
    && (forall v: Vertex :: v < |net.modules| ==> v in remaining || v in emitted)
    && (forall k :: 0 <= k < |net.connections| && net.connections[k].dst in emitted ==>
          Before(emitted, net.connections[k].src, net.connections[k].dst))
  }

  function KahnFrom(net: Network, remaining: set<Vertex>, emitted: seq<Vertex>)
    : (r: Result<seq<Vertex>, set<Vertex>>)
    requires net.WellFormed()
    requires KahnState(net, remaining, emitted)
    ensures r.Success? ==> IsTopologicalOrder(net, r.value)
    ensures r.Failure? ==> r.error != {} && ClosedUnderPredecessors(net, r.error)
    decreases |remaining|
  {
    if remaining == {} then
      Success(emitted)
    else
      match NextReady(net, remaining, 0)
      case None =>
        assert ClosedUnderPredecessors(net, remaining) by {
          forall u | u in remaining
            ensures HasPredecessorIn(net, remaining, u)
          {
            assert !Ready(net, remaining, u);
          }
        }
        Failure(remaining)
      case Some(v) =>
        var emitted' := emitted + [v];
        assert forall k :: 0 <= k < |net.connections| && net.connections[k].dst in emitted' ==>
          Before(emitted', net.connections[k].src, net.connections[k].dst) by {
          forall k | 0 <= k < |net.connections| && net.connections[k].dst in emitted'
            ensures Before(emitted', net.connections[k].src, net.connections[k].dst)
          {
            var c := net.connections[k];
            if c.dst in emitted {
              var i, j :| 0 <= i < j < |emitted| && emitted[i] == c.src && emitted[j] == c.dst;
              assert emitted'[i] == c.src && emitted'[j] == c.dst;
            } else {
              assert c.dst == v;
              assert c.src in emitted;
              var i :| 0 <= i < |emitted| && emitted[i] == c.src;
              assert emitted'[i] == c.src && emitted'[|emitted|] == c.dst;
            }
          }
        }
        assert forall u: Vertex :: u < |net.modules| ==> u in remaining - {v} || u in emitted' by {
          forall u: Vertex | u < |net.modules|
            ensures u in remaining - {v} || u in emitted'
          {
            if u == v {
              assert emitted'[|emitted|] == u;
            } else if u in emitted {
              var i :| 0 <= i < |emitted| && emitted[i] == u;
              assert emitted'[i] == u;
            }
          }
        }
        KahnFrom(net, remaining - {v}, emitted')
  }

  /** A Kahn topological sort that always picks the smallest ready vertex.
      It succeeds exactly when the network has a topological order; otherwise
      it names a dangling connection or a set of vertices that lie on or
      behind a cycle. */
  function TopologicalSort(net: Network): (r: Result<seq<Vertex>, SortError>)
    ensures r.Success? ==> IsTopologicalOrder(net, r.value)
    ensures r.Failure? && r.error.DanglingConnection? ==>
      r.error.index < |net.connections| &&
      var c := net.connections[r.error.index];
      (c.src >= |net.modules| || c.dst >= |net.modules|)
    ensures r.Failure? && r.error.Cycle? ==>
      r.error.stuck != {} && ClosedUnderPredecessors(net, r.error.stuck)
    ensures r.Success? <==> exists t :: IsTopologicalOrder(net, t)
  {
    match FindDangling(net, 0)
    case Some(k) =>
      DanglingHasNoOrder(net, k);
      Failure(DanglingConnection(k))
    case None =>
      var all := Vertices(|net.modules|);
      match KahnFrom(net, all, [])
      case Success(t) => Success(t)
      case Failure(stuck) =>
        ClosedSetHasNoOrder(net, stuck);
        Failure(Cycle(stuck))
  }

  /** The vertex set 0..n-1. */
  function Vertices(n: nat): (r: set<Vertex>)
    ensures forall v: Vertex :: v in r <==> v < n
  {
    if n == 0 then {} else Vertices(n - 1) + {n - 1}
  }

  lemma DanglingHasNoOrder(net: Network, k: nat)
    requires k < |net.connections|
    requires net.connections[k].src >= |net.modules| || net.connections[k].dst >= |net.modules|
    ensures forall t :: !IsTopologicalOrder(net, t)
  {
    forall t | IsTopologicalOrder(net, t)
      ensures false
    {
    }
  }

  /** If a non-empty vertex set is closed under predecessors, no topological
      order exists: its earliest member would need a predecessor even earlier. */
  lemma ClosedSetHasNoOrder(net: Network, stuck: set<Vertex>)
    requires stuck != {}
    requires ClosedUnderPredecessors(net, stuck)
    ensures forall t :: !IsTopologicalOrder(net, t)
  {
    forall t | IsTopologicalOrder(net, t)
      ensures false
    {
      var v :| v in stuck;
      assert v < |net.modules|;
      assert v in t;
      var i :| 0 <= i < |t| && t[i] == v;
      NoEarliestStuckVertex(net, t, stuck, i);
    }
  }

  lemma SamePosition<T>(s: seq<T>, a: nat, b: nat)
    requires Distinct(s)
    requires a < |s| && b < |s| && s[a] == s[b]
    ensures a == b
  {
  }

  lemma {:induction false} NoEarliestStuckVertex(net: Network, t: seq<Vertex>, stuck: set<Vertex>, i: nat)
    requires IsTopologicalOrder(net, t)
    requires ClosedUnderPredecessors(net, stuck)
    requires i < |t| && t[i] in stuck
    ensures false
    decreases i
  {
    assert HasPredecessorIn(net, stuck, t[i]);
    var k :| 0 <= k < |net.connections| && net.connections[k].dst == t[i] && net.connections[k].src in stuck;
    var c := net.connections[k];
    assert Before(t, c.src, c.dst);
    var a, b :| 0 <= a < b < |t| && t[a] == c.src && t[b] == c.dst;
    SamePosition(t, b, i);
    NoEarliestStuckVertex(net, t, stuck, a);
  }

  /** An empty network sorts to the empty order, not to an error. */
  lemma EmptyNetworkSortsToEmptyOrder()
    ensures TopologicalSort(Network([], [])) == Success([])
  {
  }
}
