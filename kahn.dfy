/**
 * Kahn's algorithm as `Graph.bfs` runs it (getdata1014.py:225-237), on
 * values: the counts after a node's successors are decremented, the
 * successors that reach zero (and so join the queue), and the invariant the
 * scheduling loop keeps.
 */
module Kahn {
  import opened Propagation
  import opened Digraph

  /** The nodes of `ns` whose count is zero, in order: the initial queue of `bfs`. */
  function ZeroIndegree<N(==)>(ns: seq<N>, indegree: map<N, int>): (r: seq<N>)
    requires forall i :: 0 <= i < |ns| ==> ns[i] in indegree
    ensures forall i :: 0 <= i < |r| ==> r[i] in ns && indegree[r[i]] == 0
    ensures forall i :: 0 <= i < |ns| && indegree[ns[i]] == 0 ==> ns[i] in r
    ensures NoDup(ns) ==> NoDup(r)
  {
    if ns == [] then []
    else
      var rest := ZeroIndegree(ns[1..], indegree);
      assert forall i :: 1 <= i < |ns| ==> ns[i] == ns[1..][i - 1];
      assert NoDup(ns) ==> NoDup(ns[1..]) && ns[0] !in ns[1..];
      if indegree[ns[0]] == 0 then [ns[0]] + rest else rest
  }

  /** With every count zero, the initial queue is all the nodes, in order. */
  lemma {:induction false} ZeroIndegreeAll<N>(ns: seq<N>, indegree: map<N, int>)
    requires forall i :: 0 <= i < |ns| ==> ns[i] in indegree && indegree[ns[i]] == 0
    ensures ZeroIndegree(ns, indegree) == ns
  {
    if ns != [] {
      assert forall i :: 1 <= i < |ns| ==> ns[i] == ns[1..][i - 1];
      ZeroIndegreeAll(ns[1..], indegree);
    }
  }

  /**
   * The counts after `self.indegree[neighbor] -= 1` for the first j entries
   * of `vs`, in turn; `indegree` is a defaultdict, so an absent node would
   * count from 0.
   */
  ghost function DecrementedTo<N>(indegree: map<N, int>, vs: seq<N>, j: nat): map<N, int>
    requires j <= |vs|
  {
    if j == 0 then indegree
    else
      var d, y := DecrementedTo(indegree, vs, j - 1), vs[j - 1];
      d[y := (if y in d then d[y] else 0) - 1]
  }

  /** The first j entries of `vs` whose count reaches zero at their decrement, in that order. */
  ghost function ReleasedTo<N>(indegree: map<N, int>, vs: seq<N>, j: nat): seq<N>
    requires j <= |vs|
  {
    if j == 0 then []
    else ReleasedTo(indegree, vs, j - 1) + (if DecrementedTo(indegree, vs, j)[vs[j - 1]] == 0 then [vs[j - 1]] else [])
  }

  /** The counts after every entry of `vs` is decremented. */
  ghost function Decremented<N>(indegree: map<N, int>, vs: seq<N>): map<N, int>
  {
    DecrementedTo(indegree, vs, |vs|)
  }

  /** The entries of `vs` released to the queue, in order. */
  ghost function Released<N>(indegree: map<N, int>, vs: seq<N>): seq<N>
  {
    ReleasedTo(indegree, vs, |vs|)
  }

  /** Decrementing registered nodes registers no new node. */
  lemma {:induction false} DecrementedKeys<N>(indegree: map<N, int>, vs: seq<N>, j: nat)
    requires j <= |vs|
    requires forall i :: 0 <= i < |vs| ==> vs[i] in indegree
    ensures DecrementedTo(indegree, vs, j).Keys == indegree.Keys
  {
    if j > 0 {
      DecrementedKeys(indegree, vs, j - 1);
    }
  }

  /** Each node loses one count per occurrence among the first j entries of `vs`. */
  lemma {:induction false} DecrementedCount<N>(indegree: map<N, int>, vs: seq<N>, j: nat, v: N)
    requires j <= |vs|
    requires forall i :: 0 <= i < |vs| ==> vs[i] in indegree
    requires v in indegree
    ensures v in DecrementedTo(indegree, vs, j)
    ensures DecrementedTo(indegree, vs, j)[v] == indegree[v] - multiset(vs[..j])[v]
  {
    if j > 0 {
      assert vs[..j] == vs[..j - 1] + [vs[j - 1]];
      DecrementedCount(indegree, vs, j - 1, v);
    }
  }

  /**
   * When no count goes below zero, each node is released at most once, and
   * among the first j entries exactly those whose count has reached zero are
   * released.
   */
  lemma {:induction false} ReleasedSpec<N>(indegree: map<N, int>, vs: seq<N>, j: nat)
    requires j <= |vs|
    requires forall i :: 0 <= i < |vs| ==> vs[i] in indegree
    requires forall i :: 0 <= i < |vs| ==> indegree[vs[i]] >= multiset(vs)[vs[i]]
    ensures NoDup(ReleasedTo(indegree, vs, j))
    ensures forall w :: w in ReleasedTo(indegree, vs, j) <==> w in vs[..j] && indegree[w] == multiset(vs[..j])[w]
  {
    if j > 0 {
      var y := vs[j - 1];
      assert vs[..j] == vs[..j - 1] + [y];
      assert vs == vs[..j] + vs[j..];
      assert multiset(vs) == multiset(vs[..j]) + multiset(vs[j..]);
      ReleasedSpec(indegree, vs, j - 1);
      DecrementedCount(indegree, vs, j, y);
      var earlier := ReleasedTo(indegree, vs, j - 1);
      assert y !in earlier;
      var now: seq<N> := if DecrementedTo(indegree, vs, j)[y] == 0 then [y] else [];
      NoDupAppend(earlier, now);
    }
  }

  /**
   * What holds each time the `while queue` loop of `bfs` is entered: `result`
   * is a topological order, each count is the number of links into the node
   * from nodes that have not run, and a node is done or queued exactly when
   * its count is zero.
   */
  ghost predicate Scheduling<N>(links: seq<(N, N)>, indegree: map<N, int>, result: seq<N>, queue: seq<N>)
  {
    Counted(links, indegree, result) && Queued(indegree, result, queue)
  }

  /** Every link is between registered nodes, and each count is the number of links from nodes that have not run. */
  ghost predicate Counted<N>(links: seq<(N, N)>, indegree: map<N, int>, result: seq<N>)
  {
    && (forall k :: 0 <= k < |links| ==> links[k].0 in indegree && links[k].1 in indegree)
    && (forall i :: 0 <= i < |result| ==> result[i] in indegree)
    && TopoOrdered(links, result)
    && (forall v :: v in indegree ==> indegree[v] == Pending(links, Elems(result), v))
  }

  /** No node is both done and queued or queued twice, and exactly the nodes with count zero are done or queued. */
  ghost predicate Queued<N>(indegree: map<N, int>, result: seq<N>, queue: seq<N>)
  {
    && (forall i :: 0 <= i < |queue| ==> queue[i] in indegree)
    && NoDup(result + queue)
    && (forall v :: v in indegree ==> (v in result || v in queue <==> indegree[v] == 0))
  }

  /** The loop is entered with nothing run and the zero-count nodes queued in dict order. */
  lemma KahnStart<N>(links: seq<(N, N)>, indegree: map<N, int>, order: seq<N>)
    requires NoDup(order) && indegree.Keys == Elems(order)
    requires forall k :: 0 <= k < |links| ==> links[k].0 in indegree && links[k].1 in indegree
    requires forall v :: v in indegree ==> indegree[v] == InDegree(links, v)
    ensures Scheduling(links, indegree, [], ZeroIndegree(order, indegree))
  {
    assert Elems<N>([]) == {};
    var queue := ZeroIndegree(order, indegree);
    forall v | v in indegree ensures v in queue <==> indegree[v] == 0 {
      var i :| 0 <= i < |order| && order[i] == v;
    }
  }

  /** A node added at the end keeps the order topological when all its predecessors come before it. */
  lemma TopoSnoc<N>(links: seq<(N, N)>, result: seq<N>, x: N)
    requires TopoOrdered(links, result)
    requires forall k :: 0 <= k < |links| && links[k].1 == x ==> links[k].0 in result
    ensures TopoOrdered(links, result + [x])
  {
    var r := result + [x];
    forall i, k | 0 <= i < |r| && 0 <= k < |links| && links[k].1 == r[i] ensures links[k].0 in r[..i] {
      if i < |result| {
        assert r[..i] == result[..i];
      } else {
        assert r[..i] == result;
      }
    }
  }

  /** What popping the head of the queue does to the counts, for each node. */
  lemma KahnCounts<N>(links: seq<(N, N)>, indegree: map<N, int>, result: seq<N>, x: N)
    requires forall k :: 0 <= k < |links| ==> links[k].0 in indegree && links[k].1 in indegree
    requires forall v :: v in indegree ==> indegree[v] == Pending(links, Elems(result), v)
    requires x !in result
    ensures forall i :: 0 <= i < |Targets(links, x)| ==> Targets(links, x)[i] in indegree
    ensures Decremented(indegree, Targets(links, x)).Keys == indegree.Keys
    ensures forall v :: v in indegree ==> indegree[v] >= multiset(Targets(links, x))[v]
    ensures forall v :: v in indegree ==>
              Decremented(indegree, Targets(links, x))[v] == Pending(links, Elems(result + [x]), v)
  {
    var succ := Targets(links, x);
    forall i | 0 <= i < |succ| ensures succ[i] in indegree {
      TargetsAreLinks(links, x, succ[i]);
    }
    DecrementedKeys(indegree, succ, |succ|);
    assert Elems(result + [x]) == Elems(result) + {x};
    assert succ[..|succ|] == succ;
    forall v | v in indegree
      ensures indegree[v] >= multiset(succ)[v]
      ensures Decremented(indegree, succ)[v] == Pending(links, Elems(result + [x]), v)
    {
      PendingStep(links, Elems(result), x, v);
      DecrementedCount(indegree, succ, |succ|, v);
    }
  }

  /**
   * The queue side of one turn: with the head popped and the released
   * successors appended, done-or-queued still means count zero.
   */
  lemma KahnQueue<N>(indegree: map<N, int>, indegree': map<N, int>, result: seq<N>, queue: seq<N>,
                     succ: seq<N>, released: seq<N>)
    requires queue != [] && NoDup(result + queue)
    requires forall i :: 0 <= i < |queue| ==> queue[i] in indegree
    requires forall v :: v in indegree ==> (v in result || v in queue <==> indegree[v] == 0)
    requires indegree'.Keys == indegree.Keys
    requires forall v :: v in indegree ==> indegree'[v] == indegree[v] - multiset(succ)[v] && indegree'[v] >= 0
    requires forall i :: 0 <= i < |succ| ==> succ[i] in indegree
    requires NoDup(released)
    requires forall w :: w in released <==> w in succ && indegree[w] == multiset(succ)[w]
    ensures forall i :: 0 <= i < |succ| ==> succ[i] !in result && succ[i] !in queue
    ensures Queued(indegree', result + [queue[0]], queue[1..] + released)
  {
    var x := queue[0];
    var result', queue' := result + [x], queue[1..] + released;
    forall i | 0 <= i < |succ| ensures succ[i] !in result && succ[i] !in queue {
      assert multiset(succ)[succ[i]] >= 1;
    }
    assert x !in succ;
    assert NoDup(result' + queue') by {
      assert result' + queue' == (result + queue) + released;
      forall i | 0 <= i < |released| ensures released[i] !in result + queue {
        assert released[i] in released;
        var j :| 0 <= j < |succ| && succ[j] == released[i];
      }
      NoDupAppend(result + queue, released);
    }
    forall i | 0 <= i < |queue'| ensures queue'[i] in indegree' {
      if i >= |queue| - 1 {
        var w := released[i - |queue| + 1];
        assert queue'[i] == w && w in released;
        var j :| 0 <= j < |succ| && succ[j] == w;
      } else {
        assert queue'[i] == queue[i + 1];
      }
    }
    assert queue == [x] + queue[1..];
    forall v | v in indegree' ensures (v in result' || v in queue' <==> indegree'[v] == 0) {
      if v in succ {
        var j :| 0 <= j < |succ| && succ[j] == v;
        assert v != x && v !in result && v !in queue;
      } else {
        assert multiset(succ)[v] == 0 && v !in released;
      }
    }
  }

  /**
   * One turn of the loop: pop the head, run it, decrement its successors'
   * counts and queue those that reach zero. The successors are neither done
   * nor queued, and the invariant holds again.
   */
  lemma KahnStep<N>(links: seq<(N, N)>, indegree: map<N, int>, result: seq<N>, queue: seq<N>)
    requires Scheduling(links, indegree, result, queue) && queue != []
    ensures queue[0] in indegree && queue[0] !in result
    ensures var succ := Targets(links, queue[0]);
            && (forall i :: 0 <= i < |succ| ==> succ[i] in indegree && succ[i] !in result && succ[i] !in queue)
            && Decremented(indegree, succ).Keys == indegree.Keys
            && Scheduling(links, Decremented(indegree, succ), result + [queue[0]], queue[1..] + Released(indegree, succ))
  {
    var x, succ := queue[0], Targets(links, queue[0]);
    assert x !in result by {
      forall i | 0 <= i < |result| ensures result[i] != x {
        assert (result + queue)[i] == result[i] && (result + queue)[|result|] == x;
      }
    }
    KahnStepCounted(links, indegree, result, x);
    var indegree' := Decremented(indegree, succ);
    DecrementedKeys(indegree, succ, |succ|);
    assert succ[..|succ|] == succ;
    forall v | v in indegree ensures indegree'[v] == indegree[v] - multiset(succ)[v] && indegree'[v] >= 0 {
      DecrementedCount(indegree, succ, |succ|, v);
    }
    ReleasedSpec(indegree, succ, |succ|);
    KahnQueue(indegree, indegree', result, queue, succ, Released(indegree, succ));
  }

  /** The count side of one turn, for the popped node x. */
  lemma KahnStepCounted<N>(links: seq<(N, N)>, indegree: map<N, int>, result: seq<N>, x: N)
    requires Counted(links, indegree, result) && x in indegree && x !in result && indegree[x] == 0
    ensures forall i :: 0 <= i < |Targets(links, x)| ==> Targets(links, x)[i] in indegree
    ensures Counted(links, Decremented(indegree, Targets(links, x)), result + [x])
  {
    KahnCounts(links, indegree, result, x);
    PendingZero(links, Elems(result), x);
    TopoSnoc(links, result, x);
  }

  /** One turn of the successor loop on the counts: decrement `vs[j]` and release it when its count reaches zero. */
  method Decrement<N(==)>(ghost d0: map<N, int>, vs: seq<N>, j: nat, d: map<N, int>, ghost base: seq<N>, queue: seq<N>)
    returns (d': map<N, int>, queue': seq<N>)
    requires j < |vs| && d == DecrementedTo(d0, vs, j) && queue == base + ReleasedTo(d0, vs, j)
    ensures d' == DecrementedTo(d0, vs, j + 1) && queue' == base + ReleasedTo(d0, vs, j + 1)
  {
    var v := vs[j];
    d' := d[v := (if v in d then d[v] else 0) - 1];
    queue' := queue;
    if d'[v] == 0 {
      queue' := queue' + [v];
    }
  }

  /** Popping the head onto the results and appending to the queue keeps what was scheduled a prefix. */
  lemma QueuePrefix<N>(ready: seq<N>, result: seq<N>, queue: seq<N>, released: seq<N>)
    requires queue != [] && ready <= result + queue
    ensures ready <= (result + [queue[0]]) + (queue[1..] + released)
  {
    assert queue == [queue[0]] + queue[1..];
    assert (result + [queue[0]]) + (queue[1..] + released) == (result + queue) + released;
  }

  /** When the queue runs dry, every node left out has a link from a node left out. */
  lemma KahnEnd<N>(links: seq<(N, N)>, indegree: map<N, int>, result: seq<N>)
    requires Scheduling(links, indegree, result, [])
    ensures NoDup(result) && Stuck(links, indegree.Keys, result)
  {
    assert result + [] == result;
    forall v | v in indegree.Keys && v !in result ensures Blocked(links, result, v) {
      PendingZero(links, Elems(result), v);
      var k :| 0 <= k < |links| && links[k].1 == v && links[k].0 !in Elems(result);
    }
  }
}
