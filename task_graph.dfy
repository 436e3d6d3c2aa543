/**
 * The task-graph engine of getdata1014.py: nodes (`SNode`), the graph that
 * wires them (`Graph`), Kahn's scheduler (`Graph.bfs`), loading a pipeline
 * from its configuration and the dispatch in `__main__`.
 *
 * Records are any type with equality. A step (`SNode.fetch_parse_*`, chosen
 * by name) is an oracle: given what the step can see of its node, it yields
 * the node's output once the step has run.
 */
module TaskGraph {
  import opened Wrappers
  import opened Propagation
  import opened Digraph
  import opened Kahn

  /** `save_conf`: where a node persists its output; either key may be absent. */
  datatype SaveConf = SaveConf(path: Option<string>, colname: Option<seq<string>>)

  /** One entry of a pipeline's `nodes` list: the keyword arguments of `SNode`. */
  datatype NodeConfig<R> = NodeConfig(id: string, url: string, func: string, outputVal: seq<R>, saveConf: Option<SaveConf>)

  /** One entry of a pipeline's `links` list. */
  datatype LinkConfig = LinkConfig(from: string, to: string)

  /** One value of the `pipeline` dict. */
  datatype PipelineConfig<R> = PipelineConfig(nodes: seq<NodeConfig<R>>, links: seq<LinkConfig>)

  /** What a step sees of its node when `execute` calls it. */
  datatype Invocation<R> = Invocation(id: string, url: string, func: string, input: seq<R>, output: seq<R>)

  /** A step: the node's output after the step named by `func` has run. */
  type Step<!R> = Invocation<R> -> seq<R>

  /** The only error the engine raises: a link names an id no node has. */
  datatype ConfigError = KeyError(key: string)

  /** `save_conf.get('path') if save_conf else None` */
  function PathOf<R>(c: NodeConfig<R>): Option<string>
  {
    if c.saveConf.Some? then c.saveConf.value.path else None
  }

  /** `save_conf.get('colname') if save_conf else None` */
  function ColnameOf<R>(c: NodeConfig<R>): Option<seq<string>>
  {
    if c.saveConf.Some? then c.saveConf.value.colname else None
  }

  class SNode<R(==)> {
    const id: string
    const url: string
    const func: string
    const path: Option<string>
    const colname: Option<seq<string>>
    var input: seq<R>
    var output: seq<R>
    /** How many times the node's step has run. */
    ghost var runs: nat

    /** `SNode(**node_config)` */
    constructor (c: NodeConfig<R>)
      ensures id == c.id && url == c.url && func == c.func
      ensures path == PathOf(c) && colname == ColnameOf(c)
      ensures input == [] && output == c.outputVal && runs == 0
    {
      id, url, func := c.id, c.url, c.func;
      path, colname := PathOf(c), ColnameOf(c);
      input, output := [], c.outputVal;
      runs := 0;
    }

    /** `execute`: run the node's step once on its input; only the output changes. */
    method Execute(step: Step<R>)
      modifies `output, `runs
      ensures output == step(Invocation(id, url, func, input, old(output)))
      ensures input == old(input) && runs == old(runs) + 1
    {
      output := step(Invocation(id, url, func, input, output));
      runs := runs + 1;
    }

    /** `self.input.extend(r for r in recs if r not in self.input)` */
    method Absorb(recs: seq<R>)
      modifies this`input
      ensures input == Extend(old(input), recs)
    {
      var i := 0;
      while i < |recs|
        invariant 0 <= i <= |recs|
        invariant Extend(input, recs[i..]) == Extend(old(input), recs)
      {
        assert recs[i..][0] == recs[i] && recs[i..][1..] == recs[i + 1..];
        if recs[i] !in input {
          input := input + [recs[i]];
        }
        i := i + 1;
      }
    }
  }

  /** The outputs of the given nodes, in the same order. */
  ghost function OutputsOf<R>(ns: seq<SNode<R>>): (outs: seq<seq<R>>)
    reads set n | n in ns
    ensures |outs| == |ns|
    ensures forall i :: 0 <= i < |ns| ==> outs[i] == ns[i].output
  {
    if ns == [] then [] else OutputsOf(ns[..|ns| - 1]) + [ns[|ns| - 1].output]
  }

  /** The inputs of the given nodes, now. */
  ghost function InputsOf<R>(keys: set<SNode<R>>): (m: map<SNode<R>, seq<R>>)
    reads keys
    ensures m.Keys == keys
    ensures forall v {:trigger m[v]} :: v in keys ==> m[v] == v.input
  {
    map v | v in keys :: v.input
  }

  /** The outputs of the given nodes, now. */
  ghost function OutputsAt<R>(keys: set<SNode<R>>): (m: map<SNode<R>, seq<R>>)
    reads keys
    ensures m.Keys == keys
    ensures forall v {:trigger m[v]} :: v in keys ==> m[v] == v.output
  {
    map v | v in keys :: v.output
  }

  /** The run counts of the given nodes, now. */
  ghost function RunsOf<R>(keys: set<SNode<R>>): (m: map<SNode<R>, nat>)
    reads keys
    ensures m.Keys == keys
    ensures forall v {:trigger m[v]} :: v in keys ==> m[v] == v.runs
  {
    map v | v in keys :: v.runs
  }

  /**
   * What the nodes of `keys` hold once the nodes of `ran` have run, in that
   * order, with outputs `outs`, starting from inputs `in0`, outputs `out0`
   * and run counts `runs0`: each input has gathered the outputs of the
   * predecessors that ran, each node that ran has run once on its current
   * input, and no other node has run.
   */
  ghost predicate Progress<R>(links: seq<(SNode<R>, SNode<R>)>, step: Step<R>, keys: set<SNode<R>>,
                                  in0: map<SNode<R>, seq<R>>, out0: map<SNode<R>, seq<R>>, runs0: map<SNode<R>, nat>,
                                  ran: seq<SNode<R>>, outs: seq<seq<R>>)
    reads keys
  {
    && keys <= in0.Keys && keys <= out0.Keys && keys <= runs0.Keys
    && (forall i :: 0 <= i < |ran| ==> ran[i] in keys)
    && |outs| == |ran|
    && (forall i :: 0 <= i < |ran| ==> ran[i].output == outs[i])
    && (forall v {:trigger v.input} :: v in keys ==> v.input == Gather(in0[v], ran, outs, links, v))
    && (forall v {:trigger v.runs} :: v in keys ==> v.runs == runs0[v] + (if v in ran then 1 else 0))
    && (forall v {:trigger v.output} :: v in keys && v !in ran ==> v.output == out0[v])
    && (forall v {:trigger v.output} :: v in ran ==> v.output == step(Invocation(v.id, v.url, v.func, v.input, out0[v])))
  }

  /** `Progress` with the recorded outputs read back from the nodes that ran. */
  lemma Ran<R>(links: seq<(SNode<R>, SNode<R>)>, step: Step<R>, keys: set<SNode<R>>,
               in0: map<SNode<R>, seq<R>>, out0: map<SNode<R>, seq<R>>, runs0: map<SNode<R>, nat>,
               ran: seq<SNode<R>>, outs: seq<seq<R>>)
    requires Progress(links, step, keys, in0, out0, runs0, ran, outs)
    ensures forall v :: v in keys ==> v.input == Gather(in0[v], ran, OutputsOf(ran), links, v)
    ensures forall v :: v in keys ==> v.runs == runs0[v] + (if v in ran then 1 else 0)
    ensures forall v :: v in keys && v !in ran ==> v.output == out0[v]
    ensures forall v :: v in ran ==> v in keys && v.output == step(Invocation(v.id, v.url, v.func, v.input, out0[v]))
  {
    assert OutputsOf(ran) == outs;
  }

  /**
   * The shape `Graph` keeps: `graph` lists the links by source, `order` lists
   * the keys of `indegree` without repetition, and every linked node is a key.
   */
  ghost predicate WellFormed<N>(graph: map<N, seq<N>>, indegree: map<N, int>, order: seq<N>, links: seq<(N, N)>)
  {
    && NoDup(order)
    && indegree.Keys == Elems(order)
    && LinksListed(graph, links)
    && (forall k :: 0 <= k < |links| ==> links[k].0 in indegree && links[k].1 in indegree)
  }

  /** `graph` lists the links by source, and every source has an entry. */
  ghost predicate LinksListed<N>(graph: map<N, seq<N>>, links: seq<(N, N)>)
  {
    && (forall u {:trigger graph[u]} :: u in graph ==> graph[u] == Targets(links, u))
    && (forall k :: 0 <= k < |links| ==> links[k].0 in graph)
  }

  /** Every count equals the number of links into the node. */
  ghost predicate CountsMatch<N>(indegree: map<N, int>, links: seq<(N, N)>)
  {
    forall n {:trigger indegree[n]} :: n in indegree ==> indegree[n] == InDegree(links, n)
  }

  /** The sum of the counts of `ns`, as `sum(indegree.values())` over the listed keys. */
  function SumCounts<N>(ns: seq<N>, indegree: map<N, int>): int
    requires forall i :: 0 <= i < |ns| ==> ns[i] in indegree
  {
    if ns == [] then 0 else indegree[ns[0]] + SumCounts(ns[1..], indegree)
  }

  /** Counts that match the links sum to the sum of the nodes' indegrees. */
  lemma {:induction false} SumCountsIsSumInDegree<N>(ns: seq<N>, indegree: map<N, int>, links: seq<(N, N)>)
    requires forall i :: 0 <= i < |ns| ==> ns[i] in indegree
    requires CountsMatch(indegree, links)
    ensures SumCounts(ns, indegree) == SumInDegree(ns, links)
  {
    if ns != [] {
      SumCountsIsSumInDegree(ns[1..], indegree, links);
    }
  }

  /** After `add_link(u, v)`, `graph` still lists the links by source. */
  lemma AddLinkGraph<N>(graph: map<N, seq<N>>, links: seq<(N, N)>, u: N, v: N)
    requires forall w :: w in graph ==> graph[w] == Targets(links, w)
    requires forall k :: 0 <= k < |links| ==> links[k].0 in graph
    ensures var graph' := graph[u := (if u in graph then graph[u] else []) + [v]];
            forall w :: w in graph' ==> graph'[w] == Targets(links + [(u, v)], w)
  {
    var graph' := graph[u := (if u in graph then graph[u] else []) + [v]];
    forall w | w in graph' ensures graph'[w] == Targets(links + [(u, v)], w) {
      TargetsSnoc(links, (u, v), w);
      if w == u && u !in graph && Targets(links, u) != [] {
        TargetsAreLinks(links, u, Targets(links, u)[0]);
      }
    }
  }

  /** After `add_link(u, v)`, `order` still lists the keys of `indegree` once each. */
  lemma AddLinkOrder<N>(keys: set<N>, order: seq<N>, u: N, v: N)
    requires NoDup(order) && keys == Elems(order)
    ensures var keys' := keys + {v, u};
            var order' := order + (if v in keys then [] else [v]) + (if u in keys || u == v then [] else [u]);
            NoDup(order') && keys' == Elems(order')
  {
    var order' := order + (if v in keys then [] else [v]) + (if u in keys || u == v then [] else [u]);
    forall i, j | 0 <= i < j < |order'| ensures order'[i] != order'[j] {
      if j >= |order| {
        assert order'[j] !in Elems(order);
      }
    }
    assert Elems(order') == keys + {v, u};
  }

  /** After `add_link(u, v)`, both ends of every link are keys and every source has an entry. */
  lemma AddLinkEnds<N>(graphKeys: set<N>, keys: set<N>, links: seq<(N, N)>, u: N, v: N)
    requires forall k :: 0 <= k < |links| ==> links[k].0 in graphKeys
    requires forall k :: 0 <= k < |links| ==> links[k].0 in keys && links[k].1 in keys
    ensures var links' := links + [(u, v)];
            && (forall k :: 0 <= k < |links'| ==> links'[k].0 in graphKeys + {u})
            && (forall k :: 0 <= k < |links'| ==> links'[k].0 in keys + {v, u} && links'[k].1 in keys + {v, u})
  {
  }

  /** After `add_link(u, v)`, right counts stay right. */
  lemma AddLinkCounts<N>(indegree: map<N, int>, links: seq<(N, N)>, u: N, v: N)
    requires CountsMatch(indegree, links)
    requires forall k :: 0 <= k < |links| ==> links[k].0 in indegree && links[k].1 in indegree
    ensures var bumped := indegree[v := (if v in indegree then indegree[v] else 0) + 1];
            CountsMatch(if u in bumped then bumped else bumped[u := 0], links + [(u, v)])
  {
    var bumped := indegree[v := (if v in indegree then indegree[v] else 0) + 1];
    var indegree' := if u in bumped then bumped else bumped[u := 0];
    forall n | n in indegree' ensures indegree'[n] == InDegree(links + [(u, v)], n) {
      PendingSnoc(links, (u, v), {}, n);
      if n !in indegree {
        PendingNotTarget(links, {}, n);
      }
    }
  }

  /** `add_link(u, v)` keeps the shape, and keeps right counts right. */
  lemma AddLinkWellFormed<N>(graph: map<N, seq<N>>, indegree: map<N, int>, order: seq<N>, links: seq<(N, N)>, u: N, v: N,
                             graph': map<N, seq<N>>, indegree': map<N, int>, order': seq<N>, links': seq<(N, N)>)
    requires WellFormed(graph, indegree, order, links)
    requires graph' == graph[u := (if u in graph then graph[u] else []) + [v]]
    requires var bumped := indegree[v := (if v in indegree then indegree[v] else 0) + 1];
             indegree' == if u in bumped then bumped else bumped[u := 0]
    requires order' == order + (if v in indegree then [] else [v]) + (if u in indegree || u == v then [] else [u])
    requires links' == links + [(u, v)]
    ensures WellFormed(graph', indegree', order', links')
    ensures CountsMatch(indegree, links) ==> CountsMatch(indegree', links')
  {
    AddLinkGraph(graph, links, u, v);
    AddLinkOrder(indegree.Keys, order, u, v);
    AddLinkEnds(graph.Keys, indegree.Keys, links, u, v);
    assert indegree'.Keys == indegree.Keys + {v, u};
    assert graph'.Keys == graph.Keys + {u};
    if CountsMatch(indegree, links) {
      AddLinkCounts(indegree, links, u, v);
    }
  }

  /** Changing counts, but not which nodes have one, keeps the shape. */
  lemma WellFormedSameKeys<N>(graph: map<N, seq<N>>, indegree: map<N, int>, indegree': map<N, int>, order: seq<N>, links: seq<(N, N)>)
    requires WellFormed(graph, indegree, order, links) && indegree'.Keys == indegree.Keys
    ensures WellFormed(graph, indegree', order, links)
  {
  }

  class Graph<R(==)> {
    /** `graph`: the successors of each node, one entry per link. */
    var graph: map<SNode<R>, seq<SNode<R>>>
    /** `indegree`: each registered node's count of unprocessed incoming links. */
    var indegree: map<SNode<R>, int>
    /** The order in which the keys of `indegree` were inserted (dicts iterate in that order). */
    var order: seq<SNode<R>>
    /** Every link added so far, in order. */
    ghost var links: seq<(SNode<R>, SNode<R>)>

    /** `self.graph[u]` (a defaultdict: no entry reads as an empty list). */
    function Succ(u: SNode<R>): seq<SNode<R>>
      reads this
    {
      if u in graph then graph[u] else []
    }

    /** `graph` lists the links, and `order` the keys of `indegree`, which hold every linked node. */
    ghost predicate Valid()
      reads this
    {
      WellFormed<SNode<R>>(graph, indegree, order, links)
    }

    /** Every count equals the number of links into the node, as right after construction. */
    ghost predicate Consistent()
      reads this
    {
      Valid() && CountsMatch<SNode<R>>(indegree, links)
    }

    lemma SuccIsTargets(u: SNode<R>)
      requires LinksListed<SNode<R>>(graph, links)
      ensures Succ(u) == Targets(links, u)
    {
      if u !in graph && Targets(links, u) != [] {
        TargetsAreLinks(links, u, Targets(links, u)[0]);
      }
    }

    /** In a consistent graph the counts add up to the number of links. */
    lemma CountsSumToLinks()
      requires Consistent()
      ensures forall i :: 0 <= i < |order| ==> order[i] in indegree
      ensures SumCounts<SNode<R>>(order, indegree) == |links|
    {
      SumCountsIsSumInDegree<SNode<R>>(order, indegree, links);
      SumInDegreeIsLinkCount<SNode<R>>(order, links);
    }

    constructor ()
      ensures Consistent()
      ensures graph == map[] && indegree == map[] && order == [] && links == []
    {
      graph, indegree, order, links := map[], map[], [], [];
    }

    /** `g.indegree[node]` on the defaultdict: registers the node with count 0 if absent. */
    method Register(n: SNode<R>)
      requires Consistent()
      modifies this
      ensures Consistent()
      ensures graph == old(graph) && links == old(links)
      ensures n in old(indegree) ==> indegree == old(indegree) && order == old(order)
      ensures n !in old(indegree) ==> indegree == old(indegree)[n := 0] && order == old(order) + [n]
    {
      if n !in indegree {
        PendingNotTarget(links, {}, n);
        indegree := indegree[n := 0];
        order := order + [n];
      }
    }

    /** `add_link(u, v)`: append v to u's successors, count one more link into v, register u. */
    method AddLink(u: SNode<R>, v: SNode<R>)
      requires Valid()
      modifies this
      ensures Valid()
      ensures links == old(links) + [(u, v)]
      ensures var succ: seq<SNode<R>> := old(Succ(u)) + [v];
              graph == old(graph)[u := succ]
      ensures var bumped: map<SNode<R>, int> := old(indegree)[v := (if v in old(indegree) then old(indegree)[v] else 0) + 1];
              indegree == if u in bumped then bumped else bumped[u := 0]
      ensures var newV: seq<SNode<R>> := if v in old(indegree) then [] else [v];
              var newU: seq<SNode<R>> := if u in old(indegree) || u == v then [] else [u];
              order == old(order) + newV + newU
      ensures old(Consistent()) ==> Consistent()
    {
      ghost var g0, d0, o0, l0 := graph, indegree, order, links;
      var succ: seq<SNode<R>> := Succ(u) + [v];
      var bumped: map<SNode<R>, int> := indegree[v := (if v in indegree then indegree[v] else 0) + 1];
      var newV: seq<SNode<R>> := if v in indegree then [] else [v];
      var newU: seq<SNode<R>> := if u in indegree || u == v then [] else [u];
      graph := graph[u := succ];
      indegree := if u in bumped then bumped else bumped[u := 0];
      order := order + newV + newU;
      links := links + [(u, v)];
      AddLinkWellFormed<SNode<R>>(g0, d0, o0, l0, u, v, graph, indegree, order, links);
    }

    /**
     * `bfs`: Kahn's algorithm. Returns the nodes in the order they ran;
     * decrements counts and fills successors' inputs along the way.
     */
    method Bfs(step: Step<R>) returns (result: seq<SNode<R>>)
      requires Consistent()
      modifies `indegree, indegree.Keys`input, indegree.Keys`output, indegree.Keys`runs
      ensures Valid() && indegree.Keys == old(indegree).Keys
      ensures NoDup(result) && forall i :: 0 <= i < |result| ==> result[i] in indegree
      ensures TopoOrdered<SNode<R>>(links, result)
      ensures Stuck<SNode<R>>(links, indegree.Keys, result)
      ensures ZeroIndegree<SNode<R>>(order, old(indegree)) <= result
      ensures forall v :: v in indegree ==> indegree[v] == Pending<SNode<R>>(links, Elems(result), v)
      ensures forall v :: v in indegree ==> v.input == Gather<SNode<R>, R>(old(v.input), result, OutputsOf(result), links, v)
      ensures forall v :: v in indegree ==> v.runs == old(v.runs) + (if v in result then 1 else 0)
      ensures forall v :: v in indegree && v !in result ==> v.output == old(v.output)
      ensures forall v :: v in result ==> v.output == step(Invocation(v.id, v.url, v.func, v.input, old(v.output)))
    {
      ghost var d0 := indegree;
      assert WellFormed<SNode<R>>(graph, d0, order, links);
      KahnStart<SNode<R>>(links, d0, order);
      var queue: seq<SNode<R>> := ZeroIndegree<SNode<R>>(order, indegree);
      result := Drain(step, queue);
      KahnEnd<SNode<R>>(links, indegree, result);
      WellFormedSameKeys<SNode<R>>(graph, d0, indegree, order, links);
    }

    /** The `while queue` loop of `bfs`. */
    method Drain(step: Step<R>, queue0: seq<SNode<R>>) returns (result: seq<SNode<R>>)
      requires LinksListed<SNode<R>>(graph, links)
      requires Scheduling<SNode<R>>(links, indegree, [], queue0)
      modifies `indegree, indegree.Keys`input, indegree.Keys`output, indegree.Keys`runs
      ensures indegree.Keys == old(indegree).Keys
      ensures Scheduling<SNode<R>>(links, indegree, result, []) && queue0 <= result
      ensures forall v :: v in indegree ==> v.input == Gather<SNode<R>, R>(old(v.input), result, OutputsOf(result), links, v)
      ensures forall v :: v in indegree ==> v.runs == old(v.runs) + (if v in result then 1 else 0)
      ensures forall v :: v in indegree && v !in result ==> v.output == old(v.output)
      ensures forall v :: v in result ==> v.output == step(Invocation(v.id, v.url, v.func, v.input, old(v.output)))
    {
      ghost var keys := indegree.Keys;
      ghost var in0: map<SNode<R>, seq<R>> := InputsOf(keys);
      ghost var out0: map<SNode<R>, seq<R>> := OutputsAt(keys);
      ghost var runs0: map<SNode<R>, nat> := RunsOf(keys);
      var queue := queue0;
      ghost var outs: seq<seq<R>> := [];
      result := [];
      while queue != []
        invariant indegree.Keys == keys
        invariant Scheduling<SNode<R>>(links, indegree, result, queue)
        invariant queue0 <= result + queue
        invariant Progress<R>(links, step, keys, in0, out0, runs0, result, outs)
        decreases keys - Elems(result)
      {
        result, queue, outs := Turn(step, result, queue, keys, in0, out0, runs0, outs, queue0);
      }
      assert result + queue == result;
      Ran<R>(links, step, keys, in0, out0, runs0, result, outs);
    }

    /**
     * One turn of `bfs`'s `while queue` loop: pop the head, run it and
     * propagate its output. Kahn's invariant and what the nodes hold are
     * kept, and one more node has run.
     */
    method Turn(step: Step<R>, result: seq<SNode<R>>, queue: seq<SNode<R>>, ghost keys: set<SNode<R>>,
                ghost in0: map<SNode<R>, seq<R>>, ghost out0: map<SNode<R>, seq<R>>, ghost runs0: map<SNode<R>, nat>,
                ghost outs: seq<seq<R>>, ghost ready: seq<SNode<R>>)
        returns (result': seq<SNode<R>>, queue': seq<SNode<R>>, ghost outs': seq<seq<R>>)
      requires queue != [] && indegree.Keys == keys && LinksListed<SNode<R>>(graph, links)
      requires Scheduling<SNode<R>>(links, indegree, result, queue) && ready <= result + queue
      requires Progress<R>(links, step, keys, in0, out0, runs0, result, outs)
      modifies `indegree, keys`input, keys`output, keys`runs
      ensures indegree.Keys == keys
      ensures Scheduling<SNode<R>>(links, indegree, result', queue') && ready <= result' + queue'
      ensures Progress<R>(links, step, keys, in0, out0, runs0, result', outs')
      ensures result' == result + [queue[0]] && queue[0] in keys && queue[0] !in result
      ensures Elems(result') == Elems(result) + {queue[0]}
    {
      var x := queue[0];
      var succ: seq<SNode<R>> := Succ(x);
      KahnStep<SNode<R>>(links, indegree, result, queue);
      SuccIsTargets(x);
      QueuePrefix(ready, result, queue, Released<SNode<R>>(indegree, succ));
      ElemsSnoc(result, x);
      queue' := Visit(step, x, succ, queue[1..], keys, in0, out0, runs0, result, outs);
      outs' := outs + [x.output];
      result' := result + [x];
    }

    /**
     * One turn of `bfs`'s loop, for the popped node x with successors `succ`:
     * run x, then propagate its output. The nodes then hold what they should
     * once x has also run.
     */
    method Visit(step: Step<R>, x: SNode<R>, succ: seq<SNode<R>>, queue: seq<SNode<R>>,
                 ghost keys: set<SNode<R>>, ghost in0: map<SNode<R>, seq<R>>, ghost out0: map<SNode<R>, seq<R>>,
                 ghost runs0: map<SNode<R>, nat>, ghost ran: seq<SNode<R>>, ghost outs: seq<seq<R>>)
        returns (queue': seq<SNode<R>>)
      requires Progress<R>(links, step, keys, in0, out0, runs0, ran, outs)
      requires x in keys && x !in ran && succ == Targets<SNode<R>>(links, x)
      requires forall i :: 0 <= i < |succ| ==> succ[i] in keys && succ[i] !in ran && succ[i] != x
      modifies x`output, x`runs, `indegree, succ`input
      ensures indegree == Decremented<SNode<R>>(old(indegree), succ)
      ensures queue' == queue + Released<SNode<R>>(old(indegree), succ)
      ensures Progress<R>(links, step, keys, in0, out0, runs0, ran + [x], outs + [x.output])
    {
      x.Execute(step);
      queue' := Propagate(succ, x.output, queue);
      assert x.input == old(x.input);
      forall v {:trigger v.input} | v in keys ensures v.input == Gather<SNode<R>, R>(in0[v], ran + [x], outs + [x.output], links, v) {
        GatherSnoc<SNode<R>, R>(in0[v], ran, outs, links, v, x, x.output);
        TargetsAreLinks<SNode<R>>(links, x, v);
      }
    }

    /**
     * The `for neighbor in self.graph[node]` loop of `bfs`: merge the finished
     * node's output into each successor's input, decrement its count and
     * enqueue it when the count reaches zero.
     */
    method Propagate(succ: seq<SNode<R>>, out: seq<R>, queue: seq<SNode<R>>) returns (queue': seq<SNode<R>>)
      modifies `indegree, succ`input
      ensures indegree == Decremented<SNode<R>>(old(indegree), succ)
      ensures queue' == queue + Released<SNode<R>>(old(indegree), succ)
      ensures forall v {:trigger v.input} :: v in succ ==> v.input == Extend(old(v.input), out)
    {
      var d0: map<SNode<R>, int> := indegree;
      var d := d0;
      queue' := queue;
      ghost var seen: set<SNode<R>> := {};
      var j := 0;
      while j < |succ|
        invariant 0 <= j <= |succ|
        invariant d == DecrementedTo<SNode<R>>(d0, succ, j)
        invariant queue' == queue + ReleasedTo<SNode<R>>(d0, succ, j)
        invariant forall i :: 0 <= i < j ==> succ[i] in seen
        invariant forall v {:trigger v.input} :: v in succ ==> v.input == if v in seen then Extend(old(v.input), out) else old(v.input)
      {
        var v := succ[j];
        v.Absorb(out);
        ExtendIdempotent(old(v.input), out);
        seen := seen + {v};
        d, queue' := Decrement<SNode<R>>(d0, succ, j, d, queue, queue');
        j := j + 1;
      }
      indegree := d;
    }
  }
}
