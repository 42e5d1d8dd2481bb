/**
 The traversal utility itself: a breadth-first walk driven by a FIFO queue, and
 the fold and collect operations built on it.

 The per-node action of the walk is a callback whose only effect is on the
 caller's state; it is modelled as a transformer `(W, node) -> W` of a caller
 world `W`. The walk also reports the log of the callbacks it invoked, in
 invocation order, so that the order of child lookups and node actions can be
 stated.
 */
module TreeWalk {
  import opened Trees
  import opened Folds
  import opened BreadthFirst

  /** One invocation of a caller-supplied callback during a walk. */
  datatype Call<A> = GetChildren(node: Tree<A>) | NodeAction(node: Tree<A>)

  /**
   The callbacks a walk invokes when it visits `order`: for each node in turn,
   the child lookup on it, immediately followed by the node action on it.
   */
  function Protocol<A>(order: seq<Tree<A>>): (calls: seq<Call<A>>)
    ensures |calls| == 2 * |order|
    ensures forall i :: 0 <= i < |order| ==>
              calls[2 * i] == GetChildren(order[i]) && calls[2 * i + 1] == NodeAction(order[i])
    decreases |order|
  {
    if |order| == 0 then []
    else
      var rest := Protocol(order[1..]);
      assert forall i :: 1 <= i < |order| ==>
               rest[2 * (i - 1)] == GetChildren(order[i]) && rest[2 * (i - 1) + 1] == NodeAction(order[i]);
      [GetChildren(order[0]), NodeAction(order[0])] + rest
  }

  lemma {:induction false} ProtocolSnoc<A>(order: seq<Tree<A>>, node: Tree<A>)
    ensures Protocol(order + [node]) == Protocol(order) + [GetChildren(node), NodeAction(node)]
    decreases |order|
  {
    if |order| == 0 {
      assert order + [node] == [node];
    } else {
      assert (order + [node])[0] == order[0];
      assert (order + [node])[1..] == order[1..] + [node];
      ProtocolSnoc(order[1..], node);
    }
  }

  /**
   Appends every element of `range` to the back of the queue, in the order the
   range yields them, leaving the queued elements and their order untouched.
   */
  method EnqueueRange<T>(queue: seq<T>, range: seq<T>) returns (queue': seq<T>)
    ensures queue' == queue + range
  {
    queue' := queue;
    for i := 0 to |range|
      invariant queue' == queue + range[..i]
    {
      queue' := queue' + [range[i]];
      assert range[..i + 1] == range[..i] + [range[i]];
    }
    assert range[..|range|] == range;
  }

  /**
   Breadth-first walk from `root`: while the queue is non-empty, dequeue its
   front node, enqueue that node's children, then run the node action on it.
   Returns the callback log and the caller world after the last node action.
   */
  method Walk<A, W>(root: Tree<A>, nodeAction: (W, Tree<A>) -> W, world: W)
    returns (calls: seq<Call<A>>, world': W)
    ensures calls == Protocol(LevelOrder(root))
    ensures world' == FoldLeft(nodeAction, world, LevelOrder(root))
    ensures |calls| == 2 * Size(root)
    ensures calls[0] == GetChildren(root) && calls[1] == NodeAction(root)
    ensures root.children == [] ==> calls == [GetChildren(root), NodeAction(root)]
  {
    var unwalked := [root];
    calls := [];
    world' := world;
    ghost var walked: seq<Tree<A>> := [];
    while |unwalked| > 0
      invariant walked + BfsOrder(unwalked) == LevelOrder(root)
      invariant calls == Protocol(walked)
      invariant world' == FoldLeft(nodeAction, world, walked)
      decreases ForestSize(unwalked)
    {
      var node := unwalked[0];
      VisitFront(walked, unwalked);
      calls := calls + [GetChildren(node)];
      unwalked := EnqueueRange(unwalked[1..], node.children);
      world' := nodeAction(world', node);
      calls := calls + [NodeAction(node)];
      ProtocolSnoc(walked, node);
      FoldLeftSnoc(nodeAction, world, walked, node);
      walked := walked + [node];
    }
    assert walked == LevelOrder(root);
    WalkStartsAtRoot(root);
  }

  /**
   Moving the front of the queue to the visited prefix, and its children to the
   back of the queue, keeps "visited, then the drain of the queue" unchanged and
   shrinks the queued node count.
   */
  lemma VisitFront<A>(walked: seq<Tree<A>>, unwalked: seq<Tree<A>>)
    requires |unwalked| > 0
    ensures ForestSize(unwalked[1..] + unwalked[0].children) < ForestSize(unwalked)
    ensures (walked + [unwalked[0]]) + BfsOrder(unwalked[1..] + unwalked[0].children) == walked + BfsOrder(unwalked)
  {
    var node := unwalked[0];
    var rest := BfsOrder(unwalked[1..] + node.children);
    assert ForestSize(unwalked[1..] + node.children) < ForestSize(unwalked) by {
      BfsOrderStep(unwalked);
    }
    assert BfsOrder(unwalked) == [node] + rest by {
      BfsOrderStep(unwalked);
    }
    assert (walked + [node]) + rest == walked + ([node] + rest);
  }

  /**
   A walk begins with the child lookup and the action on the root, and a root
   without children is all it visits. This is the unfolding of the callback log
   that `Walk` needs after its loop to establish its last three postconditions.
   */
  lemma WalkStartsAtRoot<A>(root: Tree<A>)
    ensures |Protocol(LevelOrder(root))| == 2 * Size(root)
    ensures Protocol(LevelOrder(root))[0] == GetChildren(root)
    ensures Protocol(LevelOrder(root))[1] == NodeAction(root)
    ensures root.children == [] ==> Protocol(LevelOrder(root)) == [GetChildren(root), NodeAction(root)]
  {
  }

  /**
   Threads an aggregate through a walk: starting from `initial`, each visited
   node replaces the aggregate by `accumulate(aggregate, node)`.
   */
  method Fold<N, Agg>(root: Tree<N>, accumulate: (Agg, Tree<N>) -> Agg, initial: Agg)
    returns (aggregate: Agg)
    ensures aggregate == FoldLeft(accumulate, initial, LevelOrder(root))
  {
    var calls, folded := Walk(root, accumulate, initial);
    aggregate := folded;
  }

  /** The node action `Collect` hands to the walk: keep the node when it passes `test`. */
  function CollectStep<A>(test: Tree<A> -> bool): (seq<Tree<A>>, Tree<A>) -> seq<Tree<A>>
  {
    (collected: seq<Tree<A>>, node: Tree<A>) => if test(node) then collected + [node] else collected
  }

  /** Folding the collecting action over `order` adds exactly the passing nodes of `order`. */
  lemma {:induction false} FoldCollectStep<A>(test: Tree<A> -> bool, collected: seq<Tree<A>>, order: seq<Tree<A>>)
    ensures FoldLeft(CollectStep(test), collected, order) == collected + Filter(test, order)
    decreases |order|
  {
    if |order| != 0 {
      var node := order[0];
      var next := if test(node) then collected + [node] else collected;
      var kept := Filter(test, order[1..]);
      assert FoldLeft(CollectStep(test), collected, order) == FoldLeft(CollectStep(test), next, order[1..]);
      FoldCollectStep(test, next, order[1..]);
      if test(node) {
        assert Filter(test, order) == [node] + kept;
        assert (collected + [node]) + kept == collected + ([node] + kept);
      } else {
        assert Filter(test, order) == kept;
      }
    } else {
      assert collected + [] == collected;
    }
  }

  /** The visited nodes that pass `test`, in visitation order. */
  method Collect<A>(root: Tree<A>, test: Tree<A> -> bool) returns (collected: seq<Tree<A>>)
    ensures collected == Filter(test, LevelOrder(root))
  {
    var calls, kept := Walk(root, CollectStep(test), []);
    FoldCollectStep(test, [], LevelOrder(root));
    assert [] + Filter(test, LevelOrder(root)) == Filter(test, LevelOrder(root));
    collected := kept;
  }

  /** Folding with an accumulator that ignores the node returns the seed, whatever the tree. */
  lemma FoldIgnoringNodesReturnsInitial<N, Agg>(root: Tree<N>, accumulate: (Agg, Tree<N>) -> Agg, initial: Agg)
    requires forall aggregate, node :: accumulate(aggregate, node) == aggregate
    ensures FoldLeft(accumulate, initial, LevelOrder(root)) == initial
  {
    FoldLeftIgnoring(accumulate, initial, LevelOrder(root));
  }

  /** Folding with a counter that adds one per node, from zero, returns the number of nodes. */
  lemma FoldCountingNodesReturnsSize<N>(root: Tree<N>, accumulate: (int, Tree<N>) -> int)
    requires forall count, node :: accumulate(count, node) == count + 1
    ensures FoldLeft(accumulate, 0, LevelOrder(root)) == Size(root)
  {
    FoldLeftCounting(accumulate, 0, LevelOrder(root));
  }

  /** Collecting with a test that nothing passes gives no nodes. */
  lemma CollectNothing<A>(root: Tree<A>, test: Tree<A> -> bool)
    requires forall node :: !test(node)
    ensures Filter(test, LevelOrder(root)) == []
  {
    FilterNone(test, LevelOrder(root));
  }

  /** Collecting with a test that every node passes gives the whole visitation order. */
  lemma CollectEverything<A>(root: Tree<A>, test: Tree<A> -> bool)
    requires forall node :: test(node)
    ensures Filter(test, LevelOrder(root)) == LevelOrder(root)
  {
    FilterAll(test, LevelOrder(root));
  }

  /**
   Collecting keeps each node of the tree that passes `test` exactly as often as
   it occurs in the tree, and no other node.
   */
  lemma CollectKeepsEachPassingNodeOnce<A>(root: Tree<A>, test: Tree<A> -> bool, node: Tree<A>)
    ensures multiset(Filter(test, LevelOrder(root)))[node] ==
            if test(node) then multiset(Preorder(root))[node] else 0
  {
    FilterMultiplicity(test, LevelOrder(root), node);
    LevelOrderVisitsEachNodeOnce(root);
  }

  /** A root A with children B and C, where B has the single child D. */
  const ExampleD: Tree<string> := Node("D", [])
  const ExampleC: Tree<string> := Node("C", [])
  const ExampleB: Tree<string> := Node("B", [ExampleD])
  const ExampleA: Tree<string> := Node("A", [ExampleB, ExampleC])

  /** The walk of the example tree visits A, B, C, D. */
  lemma ExampleVisitOrder()
    ensures LevelOrder(ExampleA) == [ExampleA, ExampleB, ExampleC, ExampleD]
  {
    var a, b, c, d := ExampleA, ExampleB, ExampleC, ExampleD;
    assert BfsOrder([d]) == [d] by {
      BfsOrderStep([d]);
      assert [d][1..] + d.children == [];
    }
    assert BfsOrder([c, d]) == [c, d] by {
      BfsOrderStep([c, d]);
      assert [c, d][1..] + c.children == [d];
    }
    assert BfsOrder([b, c]) == [b, c, d] by {
      BfsOrderStep([b, c]);
      assert [b, c][1..] + b.children == [c, d];
    }
    assert BfsOrder([a]) == [a, b, c, d] by {
      BfsOrderStep([a]);
      assert [a][1..] + a.children == [b, c];
    }
  }

  /** Counting the nodes of the example tree with a fold gives 4. */
  lemma ExampleCount()
    ensures FoldLeft((count: int, n: Tree<string>) => count + 1, 0, LevelOrder(ExampleA)) == 4
  {
    ExampleVisitOrder();
    FoldLeftCounting((count: int, n: Tree<string>) => count + 1, 0, LevelOrder(ExampleA));
  }

  /** Collecting the leaves of the example tree gives C, D. */
  lemma ExampleLeaves()
    ensures Filter((n: Tree<string>) => n.children == [], LevelOrder(ExampleA)) == [ExampleC, ExampleD]
  {
    ExampleVisitOrder();
    var leaf := (n: Tree<string>) => n.children == [];
    var a, b, c, d := ExampleA, ExampleB, ExampleC, ExampleD;
    assert Filter(leaf, [d]) == [d];
    assert Filter(leaf, [c, d]) == [c] + Filter(leaf, [d]);
    assert Filter(leaf, [b, c, d]) == Filter(leaf, [c, d]);
    assert Filter(leaf, [a, b, c, d]) == Filter(leaf, [b, c, d]);
  }
}
