/**
 * Facts about a directed multigraph given by its list of links, in the order
 * they were added. `Graph` in getdata1014.py keeps the same information as
 * an adjacency dict and an indegree dict; these definitions say what those
 * dicts mean and what a run of Kahn's algorithm guarantees about its result.
 */
module Digraph {
  import opened Propagation

  /** There is at least one link u -> v. */
  ghost predicate IsLink<N>(links: seq<(N, N)>, u: N, v: N)
  {
    (u, v) in links
  }

  /** The targets of u's links, in the order the links were added (`graph[u]`). */
  ghost function Targets<N>(links: seq<(N, N)>, u: N): seq<N>
  {
    if links == [] then []
    else
      var e := links[|links| - 1];
      Targets(links[..|links| - 1], u) + (if e.0 == u then [e.1] else [])
  }

  /** The number of links into v whose source is not in `done`. */
  ghost function Pending<N>(links: seq<(N, N)>, done: set<N>, v: N): nat
  {
    if links == [] then 0
    else
      var e := links[|links| - 1];
      Pending(links[..|links| - 1], done, v) + (if e.1 == v && e.0 !in done then 1 else 0)
  }

  /** The number of links into v. */
  ghost function InDegree<N>(links: seq<(N, N)>, v: N): nat
  {
    Pending(links, {}, v)
  }

  /** The sum of the indegrees of the nodes of `ns`. */
  ghost function SumInDegree<N>(ns: seq<N>, links: seq<(N, N)>): nat
  {
    if ns == [] then 0 else InDegree(links, ns[0]) + SumInDegree(ns[1..], links)
  }

  /** Adding a link extends its source's targets by its target. */
  lemma TargetsSnoc<N>(links: seq<(N, N)>, e: (N, N), u: N)
    ensures Targets(links + [e], u) == Targets(links, u) + (if e.0 == u then [e.1] else [])
  {
    assert (links + [e])[..|links|] == links;
  }

  /** Adding a link adds one pending link into its target, unless its source is done. */
  lemma PendingSnoc<N>(links: seq<(N, N)>, e: (N, N), done: set<N>, v: N)
    ensures Pending(links + [e], done, v) == Pending(links, done, v) + (if e.1 == v && e.0 !in done then 1 else 0)
  {
    assert (links + [e])[..|links|] == links;
  }

  /** v is a target of u exactly when there is a link u -> v. */
  lemma {:induction false} TargetsAreLinks<N>(links: seq<(N, N)>, u: N, v: N)
    ensures v in Targets(links, u) <==> IsLink(links, u, v)
  {
    if links != [] {
      var init, e := links[..|links| - 1], links[|links| - 1];
      TargetsAreLinks(init, u, v);
      assert links == init + [e];
    }
  }

  /** No link into v is left pending exactly when every source of a link into v is done. */
  lemma {:induction false} PendingZero<N>(links: seq<(N, N)>, done: set<N>, v: N)
    ensures Pending(links, done, v) == 0 <==>
            forall k :: 0 <= k < |links| && links[k].1 == v ==> links[k].0 in done
  {
    if links != [] {
      var init := links[..|links| - 1];
      PendingZero(init, done, v);
      assert forall k :: 0 <= k < |init| ==> init[k] == links[k];
    }
  }

  /** Finishing node x releases one pending link per occurrence of v among x's targets. */
  lemma {:induction false} PendingStep<N>(links: seq<(N, N)>, done: set<N>, x: N, v: N)
    requires x !in done
    ensures Pending(links, done, v) == Pending(links, done + {x}, v) + multiset(Targets(links, x))[v]
  {
    if links != [] {
      PendingStep(links[..|links| - 1], done, x, v);
    }
  }

  /** Pending counts only links, so a node that is no link's target has none. */
  lemma {:induction false} PendingNotTarget<N>(links: seq<(N, N)>, done: set<N>, v: N)
    requires forall k :: 0 <= k < |links| ==> links[k].1 != v
    ensures Pending(links, done, v) == 0
  {
    PendingZero(links, done, v);
  }

  /** One more link adds one to the sum over a duplicate-free list holding its target. */
  lemma {:induction false} SumInDegreeSnoc<N>(ns: seq<N>, links: seq<(N, N)>, e: (N, N))
    requires NoDup(ns)
    ensures SumInDegree(ns, links + [e]) == SumInDegree(ns, links) + (if e.1 in ns then 1 else 0)
  {
    if ns != [] {
      assert (links + [e])[..|links|] == links;
      assert ns == [ns[0]] + ns[1..];
      assert NoDup(ns[1..]) by {
        forall i, j | 0 <= i < j < |ns| - 1 ensures ns[1..][i] != ns[1..][j] {
          assert ns[1..][i] == ns[i + 1] && ns[1..][j] == ns[j + 1];
        }
      }
      if e.1 == ns[0] {
        assert e.1 !in ns[1..] by {
          forall i | 0 <= i < |ns| - 1 ensures ns[1..][i] != ns[0] {
            assert ns[1..][i] == ns[i + 1];
          }
        }
      }
      SumInDegreeSnoc(ns[1..], links, e);
    }
  }

  /** Over duplicate-free nodes holding every link target, the indegrees add up to the number of links. */
  lemma {:induction false} SumInDegreeIsLinkCount<N>(ns: seq<N>, links: seq<(N, N)>)
    requires NoDup(ns)
    requires forall k :: 0 <= k < |links| ==> links[k].1 in ns
    ensures SumInDegree(ns, links) == |links|
  {
    if links == [] {
      SumInDegreeEmpty(ns);
    } else {
      var init, e := links[..|links| - 1], links[|links| - 1];
      assert links == init + [e];
      SumInDegreeIsLinkCount(ns, init);
      SumInDegreeSnoc(ns, init, e);
    }
  }

  /** With no links every indegree is zero. */
  lemma {:induction false} SumInDegreeEmpty<N>(ns: seq<N>)
    ensures SumInDegree(ns, []) == 0
  {
    if ns != [] {
      SumInDegreeEmpty(ns[1..]);
    }
  }

  /** Every node of `order` comes after all of its direct predecessors. */
  ghost predicate TopoOrdered<N>(links: seq<(N, N)>, order: seq<N>)
  {
    forall i, k :: 0 <= i < |order| && 0 <= k < |links| && links[k].1 == order[i] ==>
      links[k].0 in order[..i]
  }

  /** Every node of `nodes` missing from `order` has a link into it from a node missing from `order`. */
  ghost predicate Stuck<N>(links: seq<(N, N)>, nodes: set<N>, order: seq<N>)
  {
    forall v {:trigger Blocked(links, order, v)} :: v in nodes && v !in order ==> Blocked(links, order, v)
  }

  /** Some link into v comes from a node missing from `order`. */
  ghost predicate Blocked<N>(links: seq<(N, N)>, order: seq<N>, v: N)
  {
    exists k :: 0 <= k < |links| && links[k].1 == v && links[k].0 !in order
  }

  /** `ks` names, by position, the links of a walk of at least one link. */
  ghost predicate IsWalk<N>(links: seq<(N, N)>, ks: seq<int>)
  {
    && |ks| >= 1
    && (forall i :: 0 <= i < |ks| ==> 0 <= ks[i] < |links|)
    && (forall i, j :: 0 <= i < j < |ks| && j == i + 1 ==> links[ks[i]].1 == links[ks[j]].0)
  }

  /** The node a walk starts from. */
  ghost function Start<N>(links: seq<(N, N)>, ks: seq<int>): N
    requires IsWalk(links, ks)
  {
    links[ks[0]].0
  }

  /** The node a walk ends at. */
  ghost function End<N>(links: seq<(N, N)>, ks: seq<int>): N
    requires IsWalk(links, ks)
  {
    links[ks[|ks| - 1]].1
  }

  /** There is a walk from c back to c. */
  ghost predicate OnCycle<N>(links: seq<(N, N)>, c: N)
  {
    exists ks :: IsWalk(links, ks) && Start(links, ks) == c && End(links, ks) == c
  }

  /** u is v, or there is a walk from u to v. */
  ghost predicate Reaches<N>(links: seq<(N, N)>, u: N, v: N)
  {
    u == v || exists ks :: IsWalk(links, ks) && Start(links, ks) == u && End(links, ks) == v
  }

  /** Some node on a cycle reaches v (v may itself be on the cycle). */
  ghost predicate FedByCycle<N>(links: seq<(N, N)>, v: N)
  {
    exists k :: 0 <= k < |links| && OnCycle(links, links[k].0) && Reaches(links, links[k].0, v)
  }

  /** No node lies on a cycle. */
  ghost predicate Acyclic<N>(links: seq<(N, N)>)
  {
    forall c :: c in Sources(links) ==> !OnCycle(links, c)
  }

  /** The sources of the links. */
  ghost function Sources<N>(links: seq<(N, N)>): set<N>
  {
    set k | 0 <= k < |links| :: links[k].0
  }

  /** In a topological order, the start of a walk ending at order[j] sits strictly before j. */
  lemma {:induction false} AncestorScheduledEarlier<N>(links: seq<(N, N)>, order: seq<N>, ks: seq<int>, j: nat)
    requires TopoOrdered(links, order) && IsWalk(links, ks)
    requires j < |order| && order[j] == End(links, ks)
    ensures exists i :: 0 <= i < j && order[i] == Start(links, ks)
    decreases |ks|
  {
    var k := ks[|ks| - 1];
    assert links[k].0 in order[..j];
    var j' :| 0 <= j' < j && order[j'] == links[k].0;
    if |ks| >= 2 {
      var ks' := ks[..|ks| - 1];
      assert IsWalk(links, ks') by {
        forall i, j | 0 <= i < j < |ks'| && j == i + 1 ensures links[ks'[i]].1 == links[ks'[j]].0 {
          assert ks'[i] == ks[i] && ks'[j] == ks[j];
        }
      }
      assert End(links, ks') == links[k].0;
      AncestorScheduledEarlier(links, order, ks', j');
    }
  }

  /** A node that a cycle reaches is never placed in a duplicate-free topological order. */
  lemma CycleFedNeverScheduled<N>(links: seq<(N, N)>, order: seq<N>, v: N)
    requires TopoOrdered(links, order) && NoDup(order) && FedByCycle(links, v)
    ensures v !in order
  {
    if v in order {
      var j :| 0 <= j < |order| && order[j] == v;
      var k :| 0 <= k < |links| && OnCycle(links, links[k].0) && Reaches(links, links[k].0, v);
      var c := links[k].0;
      var i: nat := j;
      if c != v {
        var ks :| IsWalk(links, ks) && Start(links, ks) == c && End(links, ks) == v;
        AncestorScheduledEarlier(links, order, ks, j);
        i :| 0 <= i < j && order[i] == c;
      }
      var cyc :| IsWalk(links, cyc) && Start(links, cyc) == c && End(links, cyc) == c;
      AncestorScheduledEarlier(links, order, cyc, i);
      assert false;
    }
  }

  /** A walk of n links ending at v whose nodes are all missing from `order`, with its sources listed. */
  lemma {:induction false} BackwardWalk<N>(links: seq<(N, N)>, nodes: set<N>, order: seq<N>, v: N, n: nat)
    returns (ks: seq<int>, srcs: seq<N>)
    requires Stuck(links, nodes, order)
    requires forall k :: 0 <= k < |links| ==> links[k].0 in nodes
    requires v in nodes && v !in order && n >= 1
    ensures |ks| == n == |srcs| && IsWalk(links, ks) && End(links, ks) == v
    ensures forall i :: 0 <= i < n ==> srcs[i] == links[ks[i]].0 && srcs[i] in nodes && srcs[i] !in order
    decreases n
  {
    var w := v;
    var rest, restSrcs := [], [];
    if n > 1 {
      rest, restSrcs := BackwardWalk(links, nodes, order, v, n - 1);
      w := restSrcs[0];
    }
    assert Blocked(links, order, w);
    var k :| 0 <= k < |links| && links[k].1 == w && links[k].0 !in order;
    ks, srcs := [k] + rest, [links[k].0] + restSrcs;
    forall i, j | 0 <= i < j < |ks| && j == i + 1 ensures links[ks[i]].1 == links[ks[j]].0 {
      if i > 0 {
        assert ks[i] == rest[i - 1] && ks[j] == rest[j - 1];
      }
    }
    forall i | 0 <= i < n ensures srcs[i] == links[ks[i]].0 && srcs[i] in nodes && srcs[i] !in order {
      if i > 0 {
        assert ks[i] == rest[i - 1] && srcs[i] == restSrcs[i - 1];
      }
    }
  }

  /** A sequence longer than the set holding its elements repeats an element. */
  lemma {:induction false} Pigeonhole<N>(s: seq<N>, S: set<N>) returns (i: nat, j: nat)
    requires forall x :: x in s ==> x in S
    requires |s| > |S|
    ensures i < j < |s| && s[i] == s[j]
    decreases |s|
  {
    if s[0] in s[1..] {
      var j' :| 0 <= j' < |s| - 1 && s[1..][j'] == s[0];
      i, j := 0, j' + 1;
    } else {
      var i', j' := Pigeonhole(s[1..], S - {s[0]});
      i, j := i' + 1, j' + 1;
    }
  }

  /** A node left out of a stuck run is reached from a cycle. */
  lemma UnscheduledFedByCycle<N>(links: seq<(N, N)>, nodes: set<N>, order: seq<N>, v: N)
    requires Stuck(links, nodes, order)
    requires forall k :: 0 <= k < |links| ==> links[k].0 in nodes
    requires v in nodes && v !in order
    ensures FedByCycle(links, v)
  {
    var ks, srcs := BackwardWalk(links, nodes, order, v, |nodes| + 1);
    var i, j := Pigeonhole(srcs, nodes);
    var cyc, tail := ks[i..j], ks[j..];
    assert IsWalk(links, cyc) by {
      forall m, m' | 0 <= m < m' < |cyc| && m' == m + 1 ensures links[cyc[m]].1 == links[cyc[m']].0 {
        assert cyc[m] == ks[i + m] && cyc[m'] == ks[i + m'];
      }
    }
    assert IsWalk(links, tail) by {
      forall m, m' | 0 <= m < m' < |tail| && m' == m + 1 ensures links[tail[m]].1 == links[tail[m']].0 {
        assert tail[m] == ks[j + m] && tail[m'] == ks[j + m'];
      }
    }
    var c := links[ks[j]].0;
    assert Start(links, cyc) == c && End(links, cyc) == links[ks[j - 1]].1 == c;
    assert Start(links, tail) == c && End(links, tail) == v;
    assert OnCycle(links, c) && Reaches(links, c, v);
  }

  /**
   * For a duplicate-free topological order that leaves only stuck nodes out,
   * a node is in the order exactly when no cycle reaches it.
   */
  lemma ScheduledIffNotFedByCycle<N>(links: seq<(N, N)>, nodes: set<N>, order: seq<N>, v: N)
    requires TopoOrdered(links, order) && NoDup(order) && Stuck(links, nodes, order)
    requires forall k :: 0 <= k < |links| ==> links[k].0 in nodes
    requires v in nodes
    ensures v in order <==> !FedByCycle(links, v)
  {
    if v in order {
      if FedByCycle(links, v) {
        CycleFedNeverScheduled(links, order, v);
      }
    } else {
      UnscheduledFedByCycle(links, nodes, order, v);
    }
  }

  /** Without cycles, such an order holds every node. */
  lemma AcyclicAllScheduled<N>(links: seq<(N, N)>, nodes: set<N>, order: seq<N>)
    requires TopoOrdered(links, order) && Stuck(links, nodes, order)
    requires forall k :: 0 <= k < |links| ==> links[k].0 in nodes
    requires Acyclic(links)
    ensures forall v :: v in nodes ==> v in order
  {
    forall v | v in nodes ensures v in order {
      if v !in order {
        UnscheduledFedByCycle(links, nodes, order, v);
      }
    }
  }

  /**
   * The input v has accumulated when the nodes `ran` have run, in that order,
   * with outputs `outs`, starting from `acc`: each predecessor's output is
   * merged once, however many links it has into v.
   */
  ghost function Gather<N, R>(acc: seq<R>, ran: seq<N>, outs: seq<seq<R>>, links: seq<(N, N)>, v: N): seq<R>
    requires |outs| == |ran|
  {
    if ran == [] then acc
    else
      var prev := Gather(acc, ran[..|ran| - 1], outs[..|outs| - 1], links, v);
      if IsLink(links, ran[|ran| - 1], v) then Extend(prev, outs[|outs| - 1]) else prev
  }

  /** One more node running: its output is merged exactly when it links into v. */
  lemma GatherSnoc<N, R>(acc: seq<R>, ran: seq<N>, outs: seq<seq<R>>, links: seq<(N, N)>, v: N, x: N, out: seq<R>)
    requires |outs| == |ran|
    ensures Gather(acc, ran + [x], outs + [out], links, v) ==
            if IsLink(links, x, v) then Extend(Gather(acc, ran, outs, links, v), out) else Gather(acc, ran, outs, links, v)
  {
    assert (ran + [x])[..|ran|] == ran;
    assert (outs + [out])[..|outs|] == outs;
  }

  /** The starting input stays an unchanged prefix. */
  lemma {:induction false} GatherKeepsPrefix<N, R>(acc: seq<R>, ran: seq<N>, outs: seq<seq<R>>, links: seq<(N, N)>, v: N)
    requires |outs| == |ran|
    ensures |acc| <= |Gather(acc, ran, outs, links, v)|
    ensures Gather(acc, ran, outs, links, v)[..|acc|] == acc
  {
    if ran != [] {
      var prev := Gather(acc, ran[..|ran| - 1], outs[..|outs| - 1], links, v);
      GatherKeepsPrefix(acc, ran[..|ran| - 1], outs[..|outs| - 1], links, v);
      ExtendKeepsPrefix(prev, outs[|outs| - 1]);
    }
  }

  /** A duplicate-free starting input stays duplicate-free. */
  lemma {:induction false} GatherNoDup<N, R>(acc: seq<R>, ran: seq<N>, outs: seq<seq<R>>, links: seq<(N, N)>, v: N)
    requires |outs| == |ran| && NoDup(acc)
    ensures NoDup(Gather(acc, ran, outs, links, v))
  {
    if ran != [] {
      var prev := Gather(acc, ran[..|ran| - 1], outs[..|outs| - 1], links, v);
      GatherNoDup(acc, ran[..|ran| - 1], outs[..|outs| - 1], links, v);
      ExtendNoDup(prev, outs[|outs| - 1]);
    }
  }

  /** The accumulated input holds exactly the starting records and the outputs of the direct predecessors that ran. */
  lemma {:induction false} GatherElements<N, R>(acc: seq<R>, ran: seq<N>, outs: seq<seq<R>>, links: seq<(N, N)>, v: N, x: R)
    requires |outs| == |ran|
    ensures x in Gather(acc, ran, outs, links, v) <==>
            x in acc || exists i :: 0 <= i < |ran| && IsLink(links, ran[i], v) && x in outs[i]
  {
    if ran != [] {
      var n := |ran| - 1;
      var ran', outs' := ran[..n], outs[..n];
      var prev := Gather(acc, ran', outs', links, v);
      GatherElements(acc, ran', outs', links, v, x);
      if IsLink(links, ran[n], v) {
        ExtendElements(prev, outs[n], x);
      }
      assert forall i :: 0 <= i < n ==> ran'[i] == ran[i] && outs'[i] == outs[i];
    }
  }
}
