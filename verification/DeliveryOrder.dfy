/** Kahn's algorithm over a priority frontier, and the order it promises
    (tools/governance/roadmap-governance.ts, the frontier loop of sequence). */
module DeliveryOrder {
  import opened Text
  import opened Sorting
  import opened Digraph

  type Comparator = (Node, Node) -> int

  /** The nodes that may be delivered next: not yet delivered, not held back from outside,
      and with every predecessor delivered. */
  ghost function Ready(nodes: set<Node>, edges: Edges, held: set<Node>, done: set<Node>): set<Node> {
    set k | k in nodes && k !in done && k !in held && Predecessors(nodes, edges, k) <= done
  }

  ghost predicate Least(cmp: Comparator, k: Node, candidates: set<Node>) {
    k in candidates && forall o | o in candidates :: cmp(k, o) <= 0
  }

  /** Each position holds the least node that is ready once the positions before it are delivered. */
  ghost predicate GreedyPrefix(nodes: set<Node>, edges: Edges, held: set<Node>, cmp: Comparator, order: seq<Node>) {
    forall i | 0 <= i < |order| :: Least(cmp, order[i], Ready(nodes, edges, held, Elements(order[..i])))
  }

  /** A greedy prefix that cannot be continued. */
  ghost predicate GreedyOrder(nodes: set<Node>, edges: Edges, held: set<Node>, cmp: Comparator, order: seq<Node>) {
    GreedyPrefix(nodes, edges, held, cmp, order) && Ready(nodes, edges, held, Elements(order)) == {}
  }

  // ---- What a greedy order is ----

  lemma GreedyDistinct(nodes: set<Node>, edges: Edges, held: set<Node>, cmp: Comparator, order: seq<Node>)
    requires GreedyPrefix(nodes, edges, held, cmp, order)
    ensures NoDuplicates(order) && Elements(order) <= nodes && Elements(order) !! held
    ensures forall i | 0 <= i < |order| :: Predecessors(nodes, edges, order[i]) <= Elements(order[..i])
  {
    forall i, j | 0 <= i < j < |order| ensures order[i] != order[j] {
      assert order[i] in order[..j];
    }
  }

  /** Nothing is left over on an acyclic graph with nothing held back: the order is topological. */
  lemma GreedyComplete(nodes: set<Node>, edges: Edges, cmp: Comparator, order: seq<Node>)
    requires Acyclic(nodes, edges) && GreedyOrder(nodes, edges, {}, cmp, order)
    ensures Topological(nodes, edges, order)
  {
    GreedyDistinct(nodes, edges, {}, cmp, order);
    if Elements(order) != nodes {
      var next := SomethingReady(nodes, edges, Elements(order));
    }
  }

  lemma SomethingReady(nodes: set<Node>, edges: Edges, done: set<Node>) returns (next: Node)
    requires Acyclic(nodes, edges) && done < nodes
    ensures next in Ready(nodes, edges, {}, done)
  {
    var missing :| missing in nodes && missing !in done;
    assert missing in nodes - done;
    next := AcyclicHasSource(nodes, edges, nodes - done);
    forall p | p in Predecessors(nodes, edges, next) ensures p in done {
      assert p !in Predecessors(nodes, edges, next) * (nodes - done);
    }
  }

  /** There is only one greedy order: it depends on the graph and the comparator alone. */
  lemma GreedyUnique(nodes: set<Node>, edges: Edges, held: set<Node>, cmp: Comparator, a: seq<Node>, b: seq<Node>)
    requires StrictOrder(cmp, nodes)
    requires GreedyOrder(nodes, edges, held, cmp, a) && GreedyOrder(nodes, edges, held, cmp, b)
    ensures a == b
  {
    if |a| <= |b| {
      GreedyAgree(nodes, edges, held, cmp, a, b, |a|);
    } else {
      GreedyAgree(nodes, edges, held, cmp, b, a, |b|);
    }
  }

  lemma NextIsReady(nodes: set<Node>, edges: Edges, held: set<Node>, cmp: Comparator, order: seq<Node>, n: nat)
    requires GreedyPrefix(nodes, edges, held, cmp, order) && n < |order|
    ensures order[n] in Ready(nodes, edges, held, Elements(order[..n]))
  {
  }

  lemma {:induction false} GreedyAgree(nodes: set<Node>, edges: Edges, held: set<Node>, cmp: Comparator, a: seq<Node>, b: seq<Node>, n: nat)
    requires StrictOrder(cmp, nodes) && n <= |a| <= |b|
    requires GreedyOrder(nodes, edges, held, cmp, a) && GreedyPrefix(nodes, edges, held, cmp, b)
    ensures a[..n] == b[..n]
    ensures n == |a| ==> a == b
  {
    if n > 0 {
      GreedyAgree(nodes, edges, held, cmp, a, b, n - 1);
      var ready := Ready(nodes, edges, held, Elements(a[..n - 1]));
      assert Least(cmp, a[n - 1], ready) && Least(cmp, b[n - 1], ready);
      assert a[..n] == a[..n - 1] + [a[n - 1]] && b[..n] == b[..n - 1] + [b[n - 1]];
    }
    if n == |a| {
      assert a[..n] == a;
      if n < |b| { NextIsReady(nodes, edges, held, cmp, b, n); }
      assert b[..n] == b;
    }
  }

  /** The greedy order is the lexicographically least topological order: any other one first
      differs from it in a position where the greedy order holds the smaller node. */
  lemma GreedyIsLexicographicallyLeast(nodes: set<Node>, edges: Edges, cmp: Comparator, greedy: seq<Node>, other: seq<Node>)
    requires StrictOrder(cmp, nodes) && Acyclic(nodes, edges)
    requires GreedyOrder(nodes, edges, {}, cmp, greedy) && Topological(nodes, edges, other)
    ensures greedy == other || exists i ::
      0 <= i < |greedy| && i < |other| && greedy[..i] == other[..i] && cmp(greedy[i], other[i]) < 0
  {
    GreedyComplete(nodes, edges, cmp, greedy);
    DistinctByCount(greedy);
    DistinctByCount(other);
    var i := 0;
    while i < |greedy| && greedy[i] == other[i]
      invariant i <= |greedy| && greedy[..i] == other[..i]
    {
      assert greedy[..i + 1] == greedy[..i] + [greedy[i]] && other[..i + 1] == other[..i] + [other[i]];
      i := i + 1;
    }
    if i == |greedy| {
      assert greedy[..i] == greedy && other[..i] == other;
    } else {
      assert other[i] in Elements(other) && greedy[i] in Elements(greedy);
      assert other[i] !in other[..i];
      assert other[i] in Ready(nodes, edges, {}, Elements(greedy[..i]));
      assert cmp(greedy[i], other[i]) <= 0 && cmp(greedy[i], other[i]) != 0;
    }
  }

  /** Nodes without predecessors that sort before all others are delivered before all others. */
  lemma PreferredSourcesFirst(nodes: set<Node>, edges: Edges, held: set<Node>, cmp: Comparator, order: seq<Node>,
                              preferred: set<Node>, i: nat, j: nat)
    requires StrictOrder(cmp, nodes) && GreedyPrefix(nodes, edges, held, cmp, order)
    requires preferred <= nodes && preferred !! held
    requires forall a | a in preferred :: Predecessors(nodes, edges, a) == {}
    requires forall a, b | a in preferred && b in nodes && b !in preferred :: cmp(a, b) < 0
    requires i < |order| && j < |order| && order[i] in preferred && order[j] !in preferred
    ensures i < j
  {
    GreedyDistinct(nodes, edges, held, cmp, order);
    assert order[j] in Elements(order) && cmp(order[i], order[j]) < 0;
    if j < i { SourceStillReady(nodes, edges, held, order, i, j); }
  }

  lemma SourceStillReady(nodes: set<Node>, edges: Edges, held: set<Node>, order: seq<Node>, i: nat, j: nat)
    requires NoDuplicates(order) && j < i < |order| && order[i] in nodes && order[i] !in held
    requires Predecessors(nodes, edges, order[i]) == {}
    ensures order[i] in Ready(nodes, edges, held, Elements(order[..j]))
  {
  }

  /** Of two nodes that were ready at the same time, the smaller one is delivered first. */
  lemma ReadyTogether(nodes: set<Node>, edges: Edges, held: set<Node>, cmp: Comparator, order: seq<Node>, p: nat, a: nat, b: nat)
    requires StrictOrder(cmp, nodes) && GreedyPrefix(nodes, edges, held, cmp, order)
    requires p <= |order| && a < |order| && b < |order| && a != b
    requires order[a] in Ready(nodes, edges, held, Elements(order[..p]))
    requires order[b] in Ready(nodes, edges, held, Elements(order[..p]))
    ensures a < b <==> cmp(order[a], order[b]) < 0
  {
    GreedyDistinct(nodes, edges, held, cmp, order);
    if a < b {
      FirstOfReady(nodes, edges, held, cmp, order, p, a, b);
    } else {
      FirstOfReady(nodes, edges, held, cmp, order, p, b, a);
    }
  }

  lemma FirstOfReady(nodes: set<Node>, edges: Edges, held: set<Node>, cmp: Comparator, order: seq<Node>, p: nat, a: nat, b: nat)
    requires StrictOrder(cmp, nodes) && GreedyPrefix(nodes, edges, held, cmp, order) && NoDuplicates(order)
    requires p <= |order| && a < b < |order|
    requires order[a] in Ready(nodes, edges, held, Elements(order[..p]))
    requires order[b] in Ready(nodes, edges, held, Elements(order[..p]))
    ensures cmp(order[a], order[b]) < 0 && cmp(order[b], order[a]) > 0
  {
    assert forall k | 0 <= k < p :: order[k] in order[..p];
    assert Elements(order[..p]) <= Elements(order[..a]);
    assert order[b] !in order[..a];
    assert order[b] in Ready(nodes, edges, held, Elements(order[..a]));
    assert Least(cmp, order[a], Ready(nodes, edges, held, Elements(order[..a])));
    assert order[a] in nodes && order[b] in nodes;
  }

  // ---- The loop ----

  /** Open indegrees: undelivered predecessors, plus blockers that no delivery will ever clear. */
  ghost predicate Counts(nodes: set<Node>, edges: Edges, outside: map<Node, nat>, done: set<Node>, indegree: map<Node, int>) {
    && nodes <= indegree.Keys && nodes <= outside.Keys
    && (forall k | k in nodes :: indegree[k] == OpenCount(nodes, edges, done, k) + outside[k])
  }

  ghost function OpenCount(nodes: set<Node>, edges: Edges, done: set<Node>, k: Node): nat {
    |Predecessors(nodes, edges, k) - done|
  }

  ghost function Held(outside: map<Node, nat>): set<Node> {
    set k | k in outside && outside[k] > 0
  }

  /** While `key`'s successors are being updated, those in `updated` already count it as delivered. */
  ghost function DoneFor(done: set<Node>, key: Node, counted: bool): set<Node> {
    if counted then done + {key} else done
  }

  ghost predicate PartialCounts(nodes: set<Node>, edges: Edges, outside: map<Node, nat>, done: set<Node>, key: Node,
                                updated: set<Node>, indegree: map<Node, int>)
  {
    && nodes <= indegree.Keys && nodes <= outside.Keys
    && (forall k | k in nodes ::
          indegree[k] == OpenCount(nodes, edges, DoneFor(done, key, k in updated), k) + outside[k])
  }

  ghost function PartialReady(nodes: set<Node>, edges: Edges, held: set<Node>, done: set<Node>, key: Node, updated: set<Node>): set<Node> {
    set k | k in nodes && k != key && k !in done && k !in held &&
            Predecessors(nodes, edges, k) <= DoneFor(done, key, k in updated)
  }

  lemma NothingLeft(preds: set<Node>, done: set<Node>)
    ensures |preds - done| == 0 <==> preds <= done
  {
    if preds - done == {} {
      forall p | p in preds ensures p in done { assert p !in preds - done; }
    }
  }

  lemma InitialFrontier(nodes: set<Node>, edges: Edges, outside: map<Node, nat>, indegree: map<Node, int>)
    requires Counts(nodes, edges, outside, {}, indegree)
    ensures (set k | k in nodes && indegree[k] == 0) == Ready(nodes, edges, Held(outside), {})
  {
    forall k | k in nodes ensures indegree[k] == 0 <==> k in Ready(nodes, edges, Held(outside), {}) {
      NothingLeft(Predecessors(nodes, edges, k), {});
    }
  }

  /** Delivering a predecessor takes exactly one off the count. */
  lemma OneFewer(nodes: set<Node>, edges: Edges, done: set<Node>, key: Node, target: Node)
    requires key in nodes && key !in done && target in Successors(edges, key)
    ensures OpenCount(nodes, edges, done + {key}, target) == OpenCount(nodes, edges, done, target) - 1
  {
    var left := Predecessors(nodes, edges, target) - done;
    assert key in left;
    assert Predecessors(nodes, edges, target) - (done + {key}) == left - {key};
  }

  /** One successor's decrement keeps the counts. */
  lemma Decrement(nodes: set<Node>, edges: Edges, outside: map<Node, nat>, done: set<Node>, key: Node,
                  updated: set<Node>, indegree: map<Node, int>, target: Node)
    requires key in nodes && key !in done
    requires PartialCounts(nodes, edges, outside, done, key, updated, indegree)
    requires target in nodes && target in Successors(edges, key) && target !in updated
    ensures PartialCounts(nodes, edges, outside, done, key, updated + {target}, indegree[target := indegree[target] - 1])
  {
    OneFewer(nodes, edges, done, key, target);
    var next := indegree[target := indegree[target] - 1];
    forall k | k in nodes
      ensures next[k] == OpenCount(nodes, edges, DoneFor(done, key, k in updated + {target}), k) + outside[k]
    {
      SameDoneFor(done, key, updated, target, k);
    }
  }

  lemma SameDoneFor(done: set<Node>, key: Node, updated: set<Node>, target: Node, k: Node)
    ensures k != target ==> DoneFor(done, key, k in updated + {target}) == DoneFor(done, key, k in updated)
    ensures k == target ==> DoneFor(done, key, k in updated + {target}) == done + {key}
    ensures k == target && k !in updated ==> DoneFor(done, key, k in updated) == done
  {
  }

  /** The count of an updated successor is zero exactly when it has become ready. */
  lemma ZeroIsReady(nodes: set<Node>, edges: Edges, outside: map<Node, nat>, done: set<Node>, key: Node,
                    updated: set<Node>, indegree: map<Node, int>, target: Node)
    requires PartialCounts(nodes, edges, outside, done, key, updated, indegree) && target in nodes && target in updated
    ensures indegree[target] == 0 <==> Predecessors(nodes, edges, target) <= done + {key} && target !in Held(outside)
  {
    NothingLeft(Predecessors(nodes, edges, target), done + {key});
  }

  lemma FrontierGrows(nodes: set<Node>, edges: Edges, held: set<Node>, done: set<Node>, key: Node, updated: set<Node>, target: Node)
    requires key in nodes && key !in done
    requires target in nodes && target in Successors(edges, key) && target !in updated && target !in done && target != key
    ensures target !in PartialReady(nodes, edges, held, done, key, updated)
    ensures PartialReady(nodes, edges, held, done, key, updated + {target})
      == PartialReady(nodes, edges, held, done, key, updated)
         + (if Predecessors(nodes, edges, target) <= done + {key} && target !in held then {target} else {})
  {
    assert key in Predecessors(nodes, edges, target);
  }

  lemma UntouchedCount(nodes: set<Node>, edges: Edges, done: set<Node>, key: Node, k: Node)
    requires k !in Successors(edges, key)
    ensures Predecessors(nodes, edges, k) - done == Predecessors(nodes, edges, k) - (done + {key})
  {
    assert key !in Predecessors(nodes, edges, k);
  }

  /** Once all of `key`'s successors are updated, `key` counts as delivered everywhere. */
  lemma AfterUpdates(nodes: set<Node>, edges: Edges, outside: map<Node, nat>, done: set<Node>, key: Node, indegree: map<Node, int>)
    requires key in nodes && PartialCounts(nodes, edges, outside, done, key, Successors(edges, key), indegree)
    ensures Counts(nodes, edges, outside, done + {key}, indegree)
  {
    forall k | k in nodes ensures indegree[k] == OpenCount(nodes, edges, done + {key}, k) + outside[k] {
      if k !in Successors(edges, key) { UntouchedCount(nodes, edges, done, key, k); }
    }
  }

  lemma FrontierAfterUpdates(nodes: set<Node>, edges: Edges, held: set<Node>, done: set<Node>, key: Node)
    ensures PartialReady(nodes, edges, held, done, key, Successors(edges, key)) == Ready(nodes, edges, held, done + {key})
  {
    forall k | k in nodes && k !in Successors(edges, key)
      ensures Predecessors(nodes, edges, k) <= done <==> Predecessors(nodes, edges, k) <= done + {key}
    {
      assert key !in Predecessors(nodes, edges, k);
    }
  }

  lemma BeforeUpdates(nodes: set<Node>, edges: Edges, held: set<Node>, done: set<Node>, key: Node)
    ensures PartialReady(nodes, edges, held, done, key, {}) == Ready(nodes, edges, held, done) - {key}
  {
  }

  /** A ready node points neither to itself nor to anything delivered. */
  lemma NoBackEdge(nodes: set<Node>, edges: Edges, held: set<Node>, cmp: Comparator, order: seq<Node>, key: Node, target: Node)
    requires GreedyPrefix(nodes, edges, held, cmp, order) && key in Ready(nodes, edges, held, Elements(order))
    requires target in Successors(edges, key)
    ensures target !in Elements(order) && target != key
  {
    GreedyDistinct(nodes, edges, held, cmp, order);
    forall i | 0 <= i < |order| ensures order[i] != target {
      assert key !in order[..i];
      assert order[i] == target ==> key in Predecessors(nodes, edges, order[i]);
    }
    assert target == key ==> key in Predecessors(nodes, edges, key);
  }

  /** The frontier lists the ready nodes in comparator order. */
  ghost predicate Lists(cmp: Comparator, ready: set<Node>, frontier: seq<Node>) {
    Elements(frontier) == ready && NoDuplicates(frontier) && Sorted(cmp, frontier)
  }

  lemma HeadIsLeast(nodes: set<Node>, cmp: Comparator, ready: set<Node>, frontier: seq<Node>)
    requires StrictOrder(cmp, nodes) && ready <= nodes && Lists(cmp, ready, frontier) && frontier != []
    ensures Least(cmp, frontier[0], ready) && Lists(cmp, ready - {frontier[0]}, frontier[1..])
  {
    var head := frontier[0];
    assert frontier == [head] + frontier[1..];
    assert head in Elements(frontier);
    forall o | o in ready ensures cmp(head, o) <= 0 {
      assert o in Elements(frontier);
      assert o == head || o in frontier[1..];
    }
    assert Elements(frontier[1..]) == ready - {head};
  }

  lemma PushKeepsOrder(nodes: set<Node>, cmp: Comparator, ready: set<Node>, frontier: seq<Node>, target: Node)
    requires StrictOrder(cmp, nodes) && ready <= nodes && target in nodes && target !in ready
    requires Lists(cmp, ready, frontier)
    ensures Lists(cmp, ready + {target}, Sort(cmp, frontier + [target]))
  {
    ElementsConcat(frontier, [target]);
    StillDistinct(frontier, target);
    SortSorts(cmp, frontier + [target], nodes);
  }

  lemma StillDistinct(frontier: seq<Node>, target: Node)
    requires NoDuplicates(frontier) && target !in Elements(frontier)
    ensures NoDuplicates(frontier + [target])
  {
    assert forall i | 0 <= i < |frontier| :: frontier[i] in Elements(frontier);
  }

  /** The state between two decrements, with the successors in `updated` already done. */
  ghost predicate Updating(nodes: set<Node>, edges: Edges, outside: map<Node, nat>, cmp: Comparator, done: set<Node>,
                           key: Node, updated: set<Node>, indegree: map<Node, int>, frontier: seq<Node>)
  {
    && PartialCounts(nodes, edges, outside, done, key, updated, indegree)
    && Lists(cmp, PartialReady(nodes, edges, Held(outside), done, key, updated), frontier)
  }

  lemma UpdateOne(nodes: set<Node>, edges: Edges, outside: map<Node, nat>, cmp: Comparator, done: set<Node>,
                  key: Node, updated: set<Node>, indegree: map<Node, int>, frontier: seq<Node>, target: Node)
    requires StrictOrder(cmp, nodes) && key in nodes && key !in done
    requires Updating(nodes, edges, outside, cmp, done, key, updated, indegree, frontier)
    requires target in Successors(edges, key) && target in nodes && target !in updated && target !in done && target != key
    ensures target in indegree
    ensures var next := indegree[target := indegree[target] - 1];
      Updating(nodes, edges, outside, cmp, done, key, updated + {target}, next,
               if next[target] == 0 then Sort(cmp, frontier + [target]) else frontier)
  {
    var held := Held(outside);
    Decrement(nodes, edges, outside, done, key, updated, indegree, target);
    var next := indegree[target := indegree[target] - 1];
    FrontierGrows(nodes, edges, held, done, key, updated, target);
    ZeroIsReady(nodes, edges, outside, done, key, updated + {target}, next, target);
    if next[target] == 0 {
      PushKeepsOrder(nodes, cmp, PartialReady(nodes, edges, held, done, key, updated), frontier, target);
    }
  }

  lemma UpdateStart(nodes: set<Node>, edges: Edges, outside: map<Node, nat>, cmp: Comparator, done: set<Node>,
                    key: Node, indegree: map<Node, int>, frontier: seq<Node>)
    requires Counts(nodes, edges, outside, done, indegree)
    requires Lists(cmp, Ready(nodes, edges, Held(outside), done) - {key}, frontier)
    ensures Updating(nodes, edges, outside, cmp, done, key, {}, indegree, frontier)
  {
    BeforeUpdates(nodes, edges, Held(outside), done, key);
  }

  /** Delivers `key`: decrements every successor, in text order, and sorts those that reach zero
      into the frontier. */
  method Unlock(nodes: set<Node>, edges: Edges, ghost outside: map<Node, nat>, cmp: Comparator, ghost done: set<Node>,
                key: Node, indegree0: map<Node, int>, frontier0: seq<Node>)
    returns (indegree: map<Node, int>, frontier: seq<Node>)
    requires StrictOrder(cmp, nodes) && key in nodes && key !in done
    requires forall t | t in Successors(edges, key) :: t in nodes && t !in done && t != key
    requires Counts(nodes, edges, outside, done, indegree0)
    requires Lists(cmp, Ready(nodes, edges, Held(outside), done) - {key}, frontier0)
    ensures Updating(nodes, edges, outside, cmp, done, key, Successors(edges, key), indegree, frontier)
  {
    indegree, frontier := indegree0, frontier0;
    var targets := SortedText(Successors(edges, key));
    UpdateStart(nodes, edges, outside, cmp, done, key, indegree, frontier);
    assert Elements(targets[..0]) == {};
    for i := 0 to |targets|
      invariant Updating(nodes, edges, outside, cmp, done, key, Elements(targets[..i]), indegree, frontier)
    {
      var target := targets[i];
      ElementsTake(targets, i);
      UpdateOne(nodes, edges, outside, cmp, done, key, Elements(targets[..i]), indegree, frontier, target);
      indegree := indegree[target := indegree[target] - 1];
      if indegree[target] == 0 {
        frontier := Sort(cmp, frontier + [target]);
      }
    }
    assert targets[..|targets|] == targets;
  }

  /** The loop state: a greedy prefix, exact open counts and the sorted ready nodes. */
  ghost predicate Delivering(nodes: set<Node>, edges: Edges, outside: map<Node, nat>, cmp: Comparator,
                             ordered: seq<Node>, indegree: map<Node, int>, frontier: seq<Node>)
  {
    && GreedyPrefix(nodes, edges, Held(outside), cmp, ordered)
    && Counts(nodes, edges, outside, Elements(ordered), indegree)
    && Lists(cmp, Ready(nodes, edges, Held(outside), Elements(ordered)), frontier)
  }

  lemma Starts(nodes: set<Node>, edges: Edges, outside: map<Node, nat>, cmp: Comparator, indegree: map<Node, int>, sources: seq<Node>)
    requires StrictOrder(cmp, nodes) && Counts(nodes, edges, outside, {}, indegree)
    requires NoDuplicates(sources) && Elements(sources) == set k | k in nodes && indegree[k] == 0
    ensures Delivering(nodes, edges, outside, cmp, [], indegree, Sort(cmp, sources))
  {
    InitialFrontier(nodes, edges, outside, indegree);
    SortSorts(cmp, sources, nodes);
    var none: seq<Node> := [];
    assert Elements(none) == {};
  }

  /** What the head of the frontier may rely on before it is delivered. */
  lemma HeadFacts(nodes: set<Node>, edges: Edges, outside: map<Node, nat>, cmp: Comparator,
                  ordered: seq<Node>, indegree: map<Node, int>, frontier: seq<Node>)
    requires StrictOrder(cmp, nodes) && (forall k | k in edges :: edges[k] <= nodes)
    requires Delivering(nodes, edges, outside, cmp, ordered, indegree, frontier) && frontier != []
    ensures Least(cmp, frontier[0], Ready(nodes, edges, Held(outside), Elements(ordered)))
    ensures Lists(cmp, Ready(nodes, edges, Held(outside), Elements(ordered)) - {frontier[0]}, frontier[1..])
    ensures forall t | t in Successors(edges, frontier[0]) :: t in nodes && t !in Elements(ordered) && t != frontier[0]
  {
    HeadIsLeast(nodes, cmp, Ready(nodes, edges, Held(outside), Elements(ordered)), frontier);
    forall t | t in Successors(edges, frontier[0]) ensures t !in Elements(ordered) && t != frontier[0] {
      NoBackEdge(nodes, edges, Held(outside), cmp, ordered, frontier[0], t);
    }
  }

  lemma Delivered(nodes: set<Node>, edges: Edges, outside: map<Node, nat>, cmp: Comparator,
                  ordered: seq<Node>, key: Node, indegree: map<Node, int>, frontier: seq<Node>)
    requires GreedyPrefix(nodes, edges, Held(outside), cmp, ordered)
    requires Least(cmp, key, Ready(nodes, edges, Held(outside), Elements(ordered)))
    requires Updating(nodes, edges, outside, cmp, Elements(ordered), key, Successors(edges, key), indegree, frontier)
    ensures Delivering(nodes, edges, outside, cmp, ordered + [key], indegree, frontier)
    ensures nodes - Elements(ordered + [key]) < nodes - Elements(ordered)
  {
    Append(nodes, edges, Held(outside), cmp, ordered, key);
    AfterUpdates(nodes, edges, outside, Elements(ordered), key, indegree);
    FrontierAfterUpdates(nodes, edges, Held(outside), Elements(ordered), key);
    assert key in nodes - Elements(ordered);
  }

  /** The delivery loop computes the greedy order of the graph, whatever the graph. */
  method Deliver(nodes: set<Node>, edges: Edges, ghost outside: map<Node, nat>, cmp: Comparator, indegree0: map<Node, int>)
    returns (ordered: seq<Node>)
    requires StrictOrder(cmp, nodes)
    requires forall k | k in edges :: edges[k] <= nodes
    requires Counts(nodes, edges, outside, {}, indegree0)
    ensures GreedyOrder(nodes, edges, Held(outside), cmp, ordered)
  {
    var indegree := indegree0;
    var sources := Enumerate(set k | k in nodes && indegree[k] == 0);
    Starts(nodes, edges, outside, cmp, indegree, sources);
    var frontier := Sort(cmp, sources);
    ordered := [];
    while frontier != []
      invariant Delivering(nodes, edges, outside, cmp, ordered, indegree, frontier)
      decreases nodes - Elements(ordered)
    {
      HeadFacts(nodes, edges, outside, cmp, ordered, indegree, frontier);
      var key := frontier[0];
      indegree, frontier := Unlock(nodes, edges, outside, cmp, Elements(ordered), key, indegree, frontier[1..]);
      Delivered(nodes, edges, outside, cmp, ordered, key, indegree, frontier);
      ordered := ordered + [key];
    }
  }

  lemma Append(nodes: set<Node>, edges: Edges, held: set<Node>, cmp: Comparator, order: seq<Node>, key: Node)
    requires GreedyPrefix(nodes, edges, held, cmp, order)
    requires Least(cmp, key, Ready(nodes, edges, held, Elements(order)))
    ensures GreedyPrefix(nodes, edges, held, cmp, order + [key])
    ensures Elements(order + [key]) == Elements(order) + {key}
  {
    var longer := order + [key];
    assert longer[..|order|] == order;
    assert forall i | 0 <= i < |order| :: longer[..i] == order[..i];
  }
}
