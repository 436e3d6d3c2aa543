/**
 * `load_graph_from_config` and the `__main__` loop of getdata1014.py: one
 * graph is built from each pipeline's configuration and then run, directly
 * when it has a single node and through `bfs` otherwise.
 */
module Pipeline {
  import opened Wrappers
  import opened Propagation
  import opened Digraph
  import opened Kahn
  import opened TaskGraph

  /**
   * The distinct ids of `cs`, in first-occurrence order: the key order of
   * the `nodes` dict comprehension (a repeated key keeps its first place).
   */
  function Ids<R>(cs: seq<NodeConfig<R>>): (ids: seq<string>)
    ensures NoDup(ids)
    ensures forall id :: id in ids <==> exists i :: 0 <= i < |cs| && cs[i].id == id
  {
    if cs == [] then []
    else
      var p, c := Ids(cs[..|cs| - 1]), cs[|cs| - 1];
      assert forall i :: 0 <= i < |cs| - 1 ==> cs[..|cs| - 1][i] == cs[i];
      if c.id in p then p else p + [c.id]
  }

  /** The entry each id ends up with in the `nodes` dict: a later entry with the same id replaces the earlier one. */
  function Latest<R>(cs: seq<NodeConfig<R>>): (m: map<string, NodeConfig<R>>)
    ensures forall id :: id in m <==> id in Ids(cs)
    ensures forall id :: id in m ==> m[id].id == id
  {
    if cs == [] then map[] else Latest(cs[..|cs| - 1])[cs[|cs| - 1].id := cs[|cs| - 1]]
  }

  /** The entry an id ends up with is its last one in the list. */
  lemma {:induction false} LatestIsLast<R>(cs: seq<NodeConfig<R>>, i: nat)
    requires i < |cs| && forall j :: i < j < |cs| ==> cs[j].id != cs[i].id
    ensures cs[i].id in Latest(cs) && Latest(cs)[cs[i].id] == cs[i]
  {
    if i < |cs| - 1 {
      var p := cs[..|cs| - 1];
      assert forall j :: i < j < |p| ==> p[j] == cs[j];
      LatestIsLast(p, i);
    }
  }

  /** Both lookups `nodes[link['from']]` and `nodes[link['to']]` succeed. */
  predicate Resolves(keys: set<string>, l: LinkConfig)
  {
    l.from in keys && l.to in keys
  }

  /** How many links are added before a lookup fails: all of them when none does. */
  function Resolved(keys: set<string>, ls: seq<LinkConfig>): (k: nat)
    ensures k <= |ls|
    ensures forall j :: 0 <= j < k ==> Resolves(keys, ls[j])
    ensures k < |ls| ==> !Resolves(keys, ls[k])
  {
    if ls == [] || !Resolves(keys, ls[0]) then 0
    else
      var k := Resolved(keys, ls[1..]);
      assert forall j :: 1 <= j < |ls| ==> ls[j] == ls[1..][j - 1];
      1 + k
  }

  /** The id whose lookup fails for a link that does not resolve: `from` is looked up first. */
  function Missing(keys: set<string>, l: LinkConfig): string
  {
    if l.from !in keys then l.from else l.to
  }

  /** The `KeyError` that `load_graph_from_config(config)` raises, if any. */
  function LoadError<R>(config: PipelineConfig<R>): (e: Option<ConfigError>)
    ensures var keys := Latest(config.nodes).Keys;
            e.None? <==> forall k :: 0 <= k < |config.links| ==> Resolves(keys, config.links[k])
    ensures var keys := Latest(config.nodes).Keys;
            e.Some? ==> exists k :: && 0 <= k < |config.links|
                                    && (forall j :: 0 <= j < k ==> Resolves(keys, config.links[j]))
                                    && e.value.key !in keys
                                    && e.value.key == (if config.links[k].from !in keys then config.links[k].from
                                                       else config.links[k].to)
  {
    var keys := Latest(config.nodes).Keys;
    var k := Resolved(keys, config.links);
    if k < |config.links| then Some(KeyError(Missing(keys, config.links[k]))) else None
  }

  /** n is a node just built by `SNode(**c)`. */
  ghost predicate Built<R>(n: SNode<R>, c: NodeConfig<R>)
    reads n
  {
    && n.id == c.id && n.url == c.url && n.func == c.func
    && n.path == PathOf(c) && n.colname == ColnameOf(c)
    && n.input == [] && n.output == c.outputVal && n.runs == 0
  }

  /** Every node of `nodes` is just built from the entry its id ends up with in `cs`. */
  ghost predicate AllBuilt<R>(nodes: map<string, SNode<R>>, cs: seq<NodeConfig<R>>)
    reads nodes.Values
  {
    && (forall id :: id in nodes <==> id in Ids(cs))
    && (forall id :: id in nodes ==> Built(nodes[id], Latest(cs)[id]))
  }

  /**
   * g is the graph `load_graph_from_config(config)` returns: one node per
   * id, in key order, built from the id's last entry, and the links in the
   * order of the list, between the nodes their ids name.
   */
  ghost predicate Loaded<R>(g: Graph<R>, config: PipelineConfig<R>)
    reads g, set n | n in g.order
  {
    var ids, latest := Ids(config.nodes), Latest(config.nodes);
    && |g.order| == |ids|
    && (forall i :: 0 <= i < |ids| ==> g.order[i].id == ids[i] && Built(g.order[i], latest[ids[i]]))
    && |g.links| == |config.links|
    && (forall k :: 0 <= k < |g.links| ==> g.links[k].0.id == config.links[k].from && g.links[k].1.id == config.links[k].to)
  }

  /** The `nodes` dict comprehension: a new node per entry; the last entry of an id wins. */
  method BuildNodes<R(==)>(cs: seq<NodeConfig<R>>) returns (nodes: map<string, SNode<R>>)
    ensures AllBuilt(nodes, cs)
    ensures forall id :: id in nodes ==> fresh(nodes[id])
  {
    nodes := map[];
    var i := 0;
    while i < |cs|
      invariant 0 <= i <= |cs|
      invariant forall id :: id in nodes <==> id in Ids(cs[..i])
      invariant forall id :: id in nodes ==> fresh(nodes[id]) && Built(nodes[id], Latest(cs[..i])[id])
    {
      var n := new SNode(cs[i]);
      assert cs[..i + 1][..i] == cs[..i];
      nodes := nodes[cs[i].id := n];
      i := i + 1;
    }
    assert cs[..|cs|] == cs;
  }

  /** `for node in nodes.values(): g.indegree[node]`: register every node, in key order. */
  method RegisterAll<R(==)>(g: Graph<R>, nodes: map<string, SNode<R>>, ids: seq<string>)
    requires g.Consistent() && g.graph == map[] && g.indegree == map[] && g.order == [] && g.links == []
    requires NoDup(ids) && forall i :: 0 <= i < |ids| ==> ids[i] in nodes && nodes[ids[i]].id == ids[i]
    modifies g
    ensures g.Consistent() && g.graph == map[] && g.links == []
    ensures |g.order| == |ids| && forall i :: 0 <= i < |ids| ==> g.order[i] == nodes[ids[i]]
    ensures (forall id :: id in nodes ==> id in ids) ==> forall id :: id in nodes ==> nodes[id] in g.indegree
  {
    var i := 0;
    while i < |ids|
      invariant 0 <= i <= |ids|
      invariant g.Consistent() && g.graph == map[] && g.links == []
      invariant |g.order| == i && forall j :: 0 <= j < i ==> g.order[j] == nodes[ids[j]]
    {
      var n := nodes[ids[i]];
      assert n !in g.indegree;
      g.Register(n);
      i := i + 1;
    }
    forall id | id in nodes && id in ids ensures nodes[id] in g.indegree {
      var i :| 0 <= i < |ids| && ids[i] == id;
      assert g.order[i] == nodes[id];
    }
  }

  /** `add_link(u, v)` between nodes that are already registered: no node is added and right counts stay right. */
  method AddRegisteredLink<R(==)>(g: Graph<R>, u: SNode<R>, v: SNode<R>)
    requires g.Consistent() && u in g.indegree && v in g.indegree
    modifies g
    ensures g.Consistent() && g.order == old(g.order) && g.indegree.Keys == old(g.indegree).Keys
    ensures g.links == old(g.links) + [(u, v)]
  {
    g.AddLink(u, v);
  }

  /** The first `k` links of `ls` resolve in `nodes`, and `links` holds their node pairs in order. */
  ghost predicate Linked<R>(links: seq<(SNode<R>, SNode<R>)>, nodes: map<string, SNode<R>>, ls: seq<LinkConfig>, k: nat)
  {
    && |links| == k <= |ls|
    && forall j :: 0 <= j < k ==> Resolves(nodes.Keys, ls[j]) && links[j] == (nodes[ls[j].from], nodes[ls[j].to])
  }

  lemma LinkedSnoc<R>(links: seq<(SNode<R>, SNode<R>)>, nodes: map<string, SNode<R>>, ls: seq<LinkConfig>, k: nat)
    requires Linked(links, nodes, ls, k) && k < |ls| && Resolves(nodes.Keys, ls[k])
    ensures Linked(links + [(nodes[ls[k].from], nodes[ls[k].to])], nodes, ls, k + 1)
  {
  }

  /** `for link in config['links']: g.add_link(nodes[link['from']], nodes[link['to']])` */
  method AddAll<R(==)>(g: Graph<R>, nodes: map<string, SNode<R>>, ls: seq<LinkConfig>) returns (e: Option<ConfigError>)
    requires g.Consistent() && g.links == [] && forall id :: id in nodes ==> nodes[id] in g.indegree
    modifies g
    ensures e == (var k := Resolved(nodes.Keys, ls); if k < |ls| then Some(KeyError(Missing(nodes.Keys, ls[k]))) else None)
    ensures e.None? ==> g.Consistent() && g.order == old(g.order) && g.indegree.Keys == old(g.indegree).Keys
    ensures e.None? ==> Linked(g.links, nodes, ls, |ls|)
  {
    var k := 0;
    while k < |ls|
      invariant k <= |ls|
      invariant g.Consistent() && g.order == old(g.order) && g.indegree.Keys == old(g.indegree).Keys
      invariant Linked(g.links, nodes, ls, k)
    {
      var l := ls[k];
      if l.from !in nodes {
        return Some(KeyError(l.from));
      }
      if l.to !in nodes {
        return Some(KeyError(l.to));
      }
      LinkedSnoc(g.links, nodes, ls, k);
      AddRegisteredLink(g, nodes[l.from], nodes[l.to]);
      k := k + 1;
    }
    return None;
  }

  /** A new graph with the nodes registered in the order of `ids`, then the links added in order. */
  method Wire<R(==)>(nodes: map<string, SNode<R>>, ids: seq<string>, ls: seq<LinkConfig>) returns (g: Graph<R>, e: Option<ConfigError>)
    requires NoDup(ids) && forall i :: 0 <= i < |ids| ==> ids[i] in nodes && nodes[ids[i]].id == ids[i]
    requires forall id :: id in nodes ==> id in ids
    ensures fresh(g)
    ensures e == (var k := Resolved(nodes.Keys, ls); if k < |ls| then Some(KeyError(Missing(nodes.Keys, ls[k]))) else None)
    ensures e.None? ==> g.Consistent() && |g.order| == |ids| && forall i :: 0 <= i < |ids| ==> g.order[i] == nodes[ids[i]]
    ensures e.None? ==> Linked(g.links, nodes, ls, |ls|)
  {
    g := new Graph();
    RegisterAll(g, nodes, ids);
    e := AddAll(g, nodes, ls);
  }

  /**
   * `load_graph_from_config`: the graph of one pipeline, or the `KeyError`
   * of the first link that names an unknown id.
   */
  method LoadGraphFromConfig<R(==)>(config: PipelineConfig<R>) returns (r: Result<Graph<R>, ConfigError>)
    ensures r.Err? <==> LoadError(config).Some?
    ensures r.Err? ==> LoadError(config) == Some(r.error)
    ensures r.Ok? ==> fresh(r.value) && r.value.Consistent() && Loaded(r.value, config)
    ensures r.Ok? ==> forall n :: n in r.value.indegree ==> fresh(n)
  {
    var nodes := BuildNodes(config.nodes);
    var ids := Ids(config.nodes);
    assert nodes.Keys == Latest(config.nodes).Keys;
    var g, e := Wire(nodes, ids, config.links);
    if e.Some? {
      return Err(e.value);
    }
    LoadedFrom(g, nodes, config);
    return Ok(g);
  }

  /** A graph whose nodes and links are those the ids of `config` name in `nodes`, built as the entries say, is what loading returns. */
  lemma LoadedFrom<R>(g: Graph<R>, nodes: map<string, SNode<R>>, config: PipelineConfig<R>)
    requires AllBuilt(nodes, config.nodes)
    requires var ids := Ids(config.nodes); |g.order| == |ids| && forall i :: 0 <= i < |ids| ==> g.order[i] == nodes[ids[i]]
    requires Linked(g.links, nodes, config.links, |config.links|)
    ensures Loaded(g, config)
  {
  }

  /**
   * A freshly loaded graph registers one node per configured id, each
   * counting the links into it, and the counts add up to the number of
   * configured links.
   */
  lemma LoadedCounts<R>(g: Graph<R>, config: PipelineConfig<R>)
    requires g.Consistent() && Loaded(g, config)
    ensures var ids := Ids(config.nodes);
            |g.order| == |ids| && forall i :: 0 <= i < |ids| ==> g.order[i] in g.indegree && g.order[i].id == ids[i]
    ensures forall n :: n in g.indegree ==> g.indegree[n] == InDegree(g.links, n)
    ensures forall i :: 0 <= i < |g.order| ==> g.order[i] in g.indegree
    ensures SumCounts<SNode<R>>(g.order, g.indegree) == |config.links|
  {
    g.CountsSumToLinks();
  }

  /** The ids of the given nodes, in order: what `__main__` logs. */
  function IdsOf<R>(ns: seq<SNode<R>>): seq<string>
  {
    seq(|ns|, i requires 0 <= i < |ns| => ns[i].id)
  }

  /** The fast path of `__main__`: the graph's only node runs once, on its own. */
  method RunSingle<R(==)>(g: Graph<R>, step: Step<R>) returns (ran: seq<SNode<R>>)
    requires g.Consistent() && |g.order| == 1
    modifies g.indegree.Keys`output, g.indegree.Keys`runs
    ensures ran == g.order && g.order[0] in g.indegree
    ensures forall v :: v in g.indegree ==> v.runs == old(v.runs) + (if v in ran then 1 else 0)
    ensures forall v :: v in ran ==> v.output == step(Invocation(v.id, v.url, v.func, v.input, old(v.output)))
    ensures forall v :: v in g.indegree ==> v.input == old(v.input)
  {
    var single := g.order[0];
    single.Execute(step);
    ran := [single];
    assert forall v :: v in g.indegree && v != single ==> v !in ran;
  }

  /** The other path of `__main__`: `bfs`, which on a graph without links runs every node in insertion order. */
  method RunBfs<R(==)>(g: Graph<R>, step: Step<R>) returns (ran: seq<SNode<R>>)
    requires g.Consistent()
    modifies g`indegree, g.indegree.Keys`input, g.indegree.Keys`output, g.indegree.Keys`runs
    ensures NoDup(ran) && forall i :: 0 <= i < |ran| ==> ran[i] in old(g.indegree)
    ensures forall v :: v in old(g.indegree) ==> v.runs == old(v.runs) + (if v in ran then 1 else 0)
    ensures forall v :: v in ran ==> v.output == step(Invocation(v.id, v.url, v.func, v.input, old(v.output)))
    ensures TopoOrdered(g.links, ran) && Stuck(g.links, old(g.indegree).Keys, ran)
    ensures g.links == [] ==> ran == old(g.order)
    ensures Acyclic(g.links) ==> forall v :: v in old(g.indegree) ==> v in ran
    ensures forall v :: v in old(g.indegree) ==> v.input == Gather<SNode<R>, R>(old(v.input), ran, OutputsOf(ran), g.links, v)
    ensures forall v :: v in old(g.indegree) && v !in ran ==> v.output == old(v.output)
  {
    ghost var order, d0 := g.order, g.indegree;
    if g.links == [] {
      ZeroIndegreeAll(order, d0);
    }
    ran := g.Bfs(step);
    if g.links == [] {
      NoDupFill(order, ran);
    }
    if Acyclic(g.links) {
      AcyclicAllScheduled(g.links, d0.Keys, ran);
    }
  }

  /**
   * The body of the `__main__` loop once the graph is loaded: a graph with
   * one node (counted in `indegree`, whatever its links) runs that node
   * directly; any other graph runs through `bfs`. Returns the nodes that ran.
   */
  method Dispatch<R(==)>(g: Graph<R>, step: Step<R>) returns (ran: seq<SNode<R>>)
    requires g.Consistent()
    modifies g`indegree, g.indegree.Keys`input, g.indegree.Keys`output, g.indegree.Keys`runs
    ensures NoDup(ran) && forall i :: 0 <= i < |ran| ==> ran[i] in old(g.indegree)
    ensures forall v :: v in old(g.indegree) ==> v.runs == old(v.runs) + (if v in ran then 1 else 0)
    ensures forall v :: v in ran ==> v.output == step(Invocation(v.id, v.url, v.func, v.input, old(v.output)))
    ensures |old(g.order)| == 1 ==> ran == old(g.order)
    ensures |old(g.order)| != 1 ==> TopoOrdered(g.links, ran) && Stuck(g.links, old(g.indegree).Keys, ran)
    ensures g.links == [] ==> ran == old(g.order)
    ensures Acyclic(g.links) ==> forall v :: v in old(g.indegree) ==> v in ran
    ensures |old(g.order)| != 1 ==>
              forall v :: v in old(g.indegree) ==> v.input == Gather<SNode<R>, R>(old(v.input), ran, OutputsOf(ran), g.links, v)
    ensures |old(g.order)| == 1 ==> g.indegree == old(g.indegree) && forall v :: v in old(g.indegree) ==> v.input == old(v.input)
    ensures forall v :: v in old(g.indegree) && v !in ran ==> v.output == old(v.output)
  {
    NoDupCard(g.order);
    if |g.indegree| == 1 {
      ran := RunSingle(g, step);
    } else {
      ran := RunBfs(g, step);
    }
  }

  /** The node ids of nodes that are all listed in `order`, whose ids are distinct, are distinct. */
  lemma IdsDistinct<R>(order: seq<SNode<R>>, ids: seq<string>, ran: seq<SNode<R>>)
    requires |order| == |ids| && NoDup(ids) && forall i :: 0 <= i < |ids| ==> order[i].id == ids[i]
    requires NoDup(ran) && forall i :: 0 <= i < |ran| ==> ran[i] in order
    ensures NoDup(IdsOf(ran)) && forall i :: 0 <= i < |ran| ==> ran[i].id in ids
  {
    forall i, j | 0 <= i < j < |ran| ensures ran[i].id != ran[j].id {
      var a :| 0 <= a < |order| && order[a] == ran[i];
      var b :| 0 <= b < |order| && order[b] == ran[j];
    }
  }

  /** The configured links, as pairs of ids. */
  ghost function IdLinks(ls: seq<LinkConfig>): seq<(string, string)>
  {
    seq(|ls|, k requires 0 <= k < |ls| => (ls[k].from, ls[k].to))
  }

  /**
   * Logging a run of loaded nodes by id: when the run is topologically
   * ordered over the graph's links and leaves out only blocked nodes, the
   * logged ids are topologically ordered over the configured links, and an
   * id is logged exactly when no cycle of configured links reaches it.
   */
  lemma LoggedOrder<R>(order: seq<SNode<R>>, links: seq<(SNode<R>, SNode<R>)>, ids: seq<string>,
                       ls: seq<LinkConfig>, ran: seq<SNode<R>>)
    requires |order| == |ids| && NoDup(ids) && forall i :: 0 <= i < |ids| ==> order[i].id == ids[i]
    requires |links| == |ls| && forall k :: 0 <= k < |ls| ==> links[k].0.id == ls[k].from && links[k].1.id == ls[k].to
    requires forall k :: 0 <= k < |links| ==> links[k].0 in order && links[k].1 in order
    requires NoDup(ran) && forall i :: 0 <= i < |ran| ==> ran[i] in order
    requires TopoOrdered(links, ran) && Stuck(links, Elems(order), ran)
    ensures TopoOrdered(IdLinks(ls), IdsOf(ran))
    ensures forall id :: id in ids ==> (id in IdsOf(ran) <==> !FedByCycle(IdLinks(ls), id))
  {
    var logged, il := IdsOf(ran), IdLinks(ls);
    assert forall j :: 0 <= j < |ran| ==> logged[j] == ran[j].id;
    // Distinct ids: a node of `order` is determined by its id.
    forall a, b | a in order && b in order && a.id == b.id ensures a == b {
      var i :| 0 <= i < |order| && order[i] == a;
      var j :| 0 <= j < |order| && order[j] == b;
    }
    forall i, k | 0 <= i < |logged| && 0 <= k < |il| && il[k].1 == logged[i] ensures il[k].0 in logged[..i] {
      assert links[k].1 == ran[i];
      var j :| 0 <= j < i && ran[..i][j] == links[k].0;
      assert logged[..i][j] == il[k].0;
    }
    IdsDistinct(order, ids, ran);
    forall id | id in Elems(ids) && id !in logged ensures Blocked(il, logged, id) {
      var i :| 0 <= i < |ids| && ids[i] == id;
      var n := order[i];
      assert Blocked(links, ran, n);
      var k :| 0 <= k < |links| && links[k].1 == n && links[k].0 !in ran;
      assert il[k].1 == id;
    }
    forall k | 0 <= k < |il| ensures il[k].0 in Elems(ids) {
      var i :| 0 <= i < |order| && order[i] == links[k].0;
    }
    forall id | id in ids ensures id in logged <==> !FedByCycle(il, id) {
      ScheduledIffNotFedByCycle(il, Elems(ids), logged, id);
    }
  }

  /** The ids of a run that `Dispatch` may return on a loaded graph are what `Logged` describes. */
  lemma LoggedRun<R>(config: PipelineConfig<R>, order: seq<SNode<R>>, links: seq<(SNode<R>, SNode<R>)>, ran: seq<SNode<R>>)
    requires var ids := Ids(config.nodes);
             |order| == |ids| && forall i :: 0 <= i < |ids| ==> order[i].id == ids[i]
    requires |links| == |config.links|
    requires forall k :: 0 <= k < |links| ==> links[k].0.id == config.links[k].from && links[k].1.id == config.links[k].to
    requires forall k :: 0 <= k < |links| ==> links[k].0 in order && links[k].1 in order
    requires NoDup(ran) && forall i :: 0 <= i < |ran| ==> ran[i] in order
    requires |order| == 1 ==> ran == order
    requires |order| != 1 ==> TopoOrdered(links, ran) && Stuck(links, Elems(order), ran)
    requires links == [] ==> ran == order
    ensures Logged(config, IdsOf(ran))
  {
    var ids, il, logged := Ids(config.nodes), IdLinks(config.links), IdsOf(ran);
    IdsDistinct(order, ids, ran);
    if |ids| == 1 || config.links == [] {
      assert logged == ids;
    } else {
      LoggedOrder(order, links, ids, config.links, ran);
    }
  }

  /**
   * What one pipeline logs: distinct ids of its nodes. Outside the fast path
   * they follow the configured links, and an id is logged exactly when no
   * cycle of links reaches it. All ids are logged when there is one node, no
   * link, or no cycle.
   */
  ghost predicate Logged<R>(config: PipelineConfig<R>, logged: seq<string>)
  {
    var ids, il := Ids(config.nodes), IdLinks(config.links);
    && NoDup(logged)
    && (forall i :: 0 <= i < |logged| ==> logged[i] in ids)
    && (|ids| == 1 ==> logged == ids)
    && (|ids| != 1 ==> TopoOrdered(il, logged))
    && (|ids| != 1 ==> forall id :: id in ids ==> (id in logged <==> !FedByCycle(il, id)))
    && (Acyclic(il) ==> forall id :: id in ids ==> id in logged)
    && (config.links == [] ==> logged == ids)
  }

  /** One pass of the `__main__` loop: load one pipeline and run it; the ids of the nodes that ran, or the `KeyError`. */
  method RunPipeline<R(==)>(config: PipelineConfig<R>, step: Step<R>) returns (r: Result<seq<string>, ConfigError>)
    ensures r.Err? <==> LoadError(config).Some?
    ensures r.Err? ==> LoadError(config) == Some(r.error)
    ensures r.Ok? ==> Logged(config, r.value)
  {
    var loaded := LoadGraphFromConfig(config);
    if loaded.Err? {
      return Err(loaded.error);
    }
    var g := loaded.value;
    ghost var order, links := g.order, g.links;
    assert g.indegree.Keys == Elems(order);
    var ran := Dispatch(g, step);
    var logged := IdsOf(ran);
    LoggedRun(config, order, links, ran);
    return Ok(logged);
  }

  /** The first `|logs|` pipelines all loaded, and each logged its entry of `logs`. */
  ghost predicate AllLogged<R>(pipelines: seq<PipelineConfig<R>>, logs: seq<seq<string>>)
    decreases |logs|
  {
    && |logs| <= |pipelines|
    && (logs != [] ==>
          var n := |logs| - 1;
          AllLogged(pipelines, logs[..n]) && LoadError(pipelines[n]).None? && Logged(pipelines[n], logs[n]))
  }

  lemma AllLoggedSnoc<R>(pipelines: seq<PipelineConfig<R>>, logs: seq<seq<string>>, logged: seq<string>)
    requires AllLogged(pipelines, logs) && |logs| < |pipelines|
    requires LoadError(pipelines[|logs|]).None? && Logged(pipelines[|logs|], logged)
    ensures AllLogged(pipelines, logs + [logged])
  {
    var logs' := logs + [logged];
    assert logs'[..|logs|] == logs;
    assert logs'[|logs|] == logged;
  }

  /**
   * `for key, value in pipeline.items()`: run the pipelines in order. A
   * `KeyError` escapes `__main__`, so the first pipeline that fails to load
   * ends the run.
   */
  method RunPipelines<R(==)>(pipelines: seq<PipelineConfig<R>>, step: Step<R>)
      returns (logs: seq<seq<string>>, failure: Option<ConfigError>)
    ensures failure.None? ==> |logs| == |pipelines|
    ensures failure.Some? ==> |logs| < |pipelines| && LoadError(pipelines[|logs|]) == failure
    ensures AllLogged(pipelines, logs)
  {
    logs := [];
    var i := 0;
    while i < |pipelines|
      invariant 0 <= i <= |pipelines| && |logs| == i
      invariant AllLogged(pipelines, logs)
    {
      var r := RunPipeline(pipelines[i], step);
      if r.Err? {
        return logs, Some(r.error);
      }
      AllLoggedSnoc(pipelines, logs, r.value);
      logs := logs + [r.value];
      i := i + 1;
    }
    return logs, None;
  }

  /** A single node linked to itself: `bfs` would never run it (its count never reaches zero), the fast path does. */
  lemma SelfLinkNeverScheduled<N>(links: seq<(N, N)>, order: seq<N>, u: N)
    requires TopoOrdered(links, order) && NoDup(order)
    requires exists k :: 0 <= k < |links| && links[k] == (u, u)
    ensures u !in order
  {
    if u in order {
      var i :| 0 <= i < |order| && order[i] == u;
      var k :| 0 <= k < |links| && links[k] == (u, u);
    }
  }
}
