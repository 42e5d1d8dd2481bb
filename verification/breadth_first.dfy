/**
 The order in which the queue-driven walk visits nodes, as a pure function of
 the queue, and the two facts that make it "breadth-first over the whole tree":
 it lists the depth-0 nodes, then the depth-1 nodes, and so on, and it lists
 every node of the tree exactly once.
 */
module BreadthFirst {
  import opened Trees

  /**
   The nodes a walk visits when its queue holds `queue`: take the front node,
   append its children at the back, continue until the queue is empty.
   */
  function BfsOrder<A>(queue: seq<Tree<A>>): (order: seq<Tree<A>>)
    decreases ForestSize(queue)
  {
    if |queue| == 0 then []
    else
      ForestSizeFront(queue);
      ForestSizeAppend(queue[1..], queue[0].children);
      [queue[0]] + BfsOrder(queue[1..] + queue[0].children)
  }

  /** One turn of the walk: the front node is visited and its children join the back. */
  lemma BfsOrderStep<A>(queue: seq<Tree<A>>)
    requires |queue| > 0
    ensures ForestSize(queue[1..] + queue[0].children) < ForestSize(queue)
    ensures BfsOrder(queue) == [queue[0]] + BfsOrder(queue[1..] + queue[0].children)
  {
    ForestSizeFront(queue);
    ForestSizeAppend(queue[1..], queue[0].children);
  }

  /** Draining a queue visits as many nodes as the queued trees hold. */
  lemma {:induction false} BfsOrderLength<A>(queue: seq<Tree<A>>)
    ensures |BfsOrder(queue)| == ForestSize(queue)
    decreases ForestSize(queue)
  {
    if |queue| != 0 {
      BfsOrderStep(queue);
      BfsOrderLength(queue[1..] + queue[0].children);
      ForestSizeFront(queue);
      ForestSizeAppend(queue[1..], queue[0].children);
    }
  }

  /** The visitation order of a walk started at `root`. */
  function LevelOrder<A>(root: Tree<A>): (order: seq<Tree<A>>)
    ensures |order| == Size(root)
    ensures order[0] == root
  {
    ForestSizeSingleton(root);
    BfsOrderLength([root]);
    BfsOrder([root])
  }

  /**
   Draining a queue whose front part is `front`: the front nodes come out first,
   unchanged, and their children land behind whatever was queued after them.
   */
  lemma {:induction false} BfsOrderDrainsFront<A>(front: seq<Tree<A>>, back: seq<Tree<A>>)
    ensures BfsOrder(front + back) == front + BfsOrder(back + NextLevel(front))
    decreases |front|
  {
    if |front| == 0 {
      assert front + back == back;
      assert back + NextLevel(front) == back;
    } else {
      var head := front[0];
      var back' := back + head.children;
      assert BfsOrder(front + back) == [head] + BfsOrder(front[1..] + back') by {
        BfsOrderStep(front + back);
        assert (front + back)[1..] + (front + back)[0].children == front[1..] + back';
      }
      assert BfsOrder(front[1..] + back') == front[1..] + BfsOrder(back' + NextLevel(front[1..])) by {
        BfsOrderDrainsFront(front[1..], back');
      }
      assert back' + NextLevel(front[1..]) == back + NextLevel(front);
      assert [head] + (front[1..] + BfsOrder(back + NextLevel(front))) == front + BfsOrder(back + NextLevel(front));
    }
  }

  /** A queue drains one whole generation before any node of the next one. */
  lemma BfsOrderByGeneration<A>(queue: seq<Tree<A>>)
    ensures BfsOrder(queue) == queue + BfsOrder(NextLevel(queue))
  {
    BfsOrderDrainsFront(queue, []);
    assert queue + [] == queue;
    assert [] + NextLevel(queue) == NextLevel(queue);
  }

  /** The depth-0 through depth-(n-1) nodes of a forest, shallowest first. */
  function ForestUpToDepth<A>(fs: seq<Tree<A>>, n: nat): seq<Tree<A>>
  {
    if n == 0 then [] else ForestUpToDepth(fs, n - 1) + ForestAtDepth(fs, n - 1)
  }

  /**
   Extending a depth prefix by one: if the walk of a forest is its nodes above
   depth n-1 followed by the drain of generation n-1, it is also its nodes above
   depth n followed by the drain of generation n.
   */
  lemma DepthPrefixStep<A>(fs: seq<Tree<A>>, n: nat)
    requires n > 0
    requires BfsOrder(fs) == ForestUpToDepth(fs, n - 1) + BfsOrder(ForestAtDepth(fs, n - 1))
    ensures BfsOrder(fs) == ForestUpToDepth(fs, n) + BfsOrder(ForestAtDepth(fs, n))
  {
    var above := ForestUpToDepth(fs, n - 1);
    var level := ForestAtDepth(fs, n - 1);
    var below := BfsOrder(ForestAtDepth(fs, n));
    assert BfsOrder(level) == level + below by {
      BfsOrderByGeneration(level);
      NextLevelOfForestAtDepth(fs, n - 1);
    }
    assert above + (level + below) == (above + level) + below;
  }

  /**
   For every n, a walk from a forest first visits all its nodes at depths below n,
   depth by depth, and only then the walk of the depth-n generation.
   */
  lemma {:induction false} BfsOrderDepthPrefix<A>(fs: seq<Tree<A>>, n: nat)
    ensures BfsOrder(fs) == ForestUpToDepth(fs, n) + BfsOrder(ForestAtDepth(fs, n))
  {
    if n == 0 {
      ForestAtDepthZero(fs);
      assert ForestUpToDepth(fs, 0) == [];
    } else {
      BfsOrderDepthPrefix(fs, n - 1);
      DepthPrefixStep(fs, n);
    }
  }

  /** A non-empty generation holds fewer nodes than the one before it; an empty one is followed by nothing. */
  lemma GenerationShrinkStep<A>(fs: seq<Tree<A>>, n: nat)
    ensures |ForestAtDepth(fs, n)| == 0 ==> |ForestAtDepth(fs, n + 1)| == 0
    ensures |ForestAtDepth(fs, n)| != 0 ==> ForestSize(ForestAtDepth(fs, n + 1)) < ForestSize(ForestAtDepth(fs, n))
  {
    var level := ForestAtDepth(fs, n);
    NextLevelOfForestAtDepth(fs, n);
    NextLevelSize(level);
    if |level| == 0 {
      assert NextLevel(level) == [];
    }
  }

  /** Once a generation is empty, every later generation is empty too. */
  lemma {:induction false} EmptyGenerationStaysEmpty<A>(fs: seq<Tree<A>>, n: nat, m: nat)
    requires n <= m
    requires |ForestAtDepth(fs, n)| == 0
    ensures |ForestAtDepth(fs, m)| == 0
    decreases m - n
  {
    if n < m {
      GenerationShrinkStep(fs, n);
      EmptyGenerationStaysEmpty(fs, n + 1, m);
    }
  }

  /** Either the depth-n generation is empty or at least n nodes lie above it. */
  lemma {:induction false} GenerationsShrink<A>(fs: seq<Tree<A>>, n: nat)
    ensures |ForestAtDepth(fs, n)| == 0 || ForestSize(ForestAtDepth(fs, n)) + n <= ForestSize(fs)
  {
    if n == 0 {
      ForestAtDepthZero(fs);
    } else {
      GenerationsShrink(fs, n - 1);
      GenerationShrinkStep(fs, n - 1);
    }
  }

  /** A forest has no nodes at a depth equal to its node count. */
  lemma NoNodesAtDepthSize<A>(fs: seq<Tree<A>>)
    ensures ForestAtDepth(fs, ForestSize(fs)) == []
  {
    GenerationsShrink(fs, ForestSize(fs));
  }

  /**
   Breadth-first order: for every depth n, the walk visits exactly the nodes at
   depths 0, 1, ..., n-1 (each depth left to right) before any node at depth n or
   deeper, which come last as the drain of the depth-n generation.
   */
  lemma LevelOrderIsBreadthFirst<A>(root: Tree<A>, n: nat)
    ensures LevelOrder(root) == ForestUpToDepth([root], n) + BfsOrder(AtDepth(root, n))
  {
    BfsOrderDepthPrefix([root], n);
    ForestAtDepthSingleton(root, n);
  }

  /**
   The whole visit order is the depth-0 nodes, then the depth-1 nodes, and so
   on down to the deepest level: there is nothing else.
   */
  lemma LevelOrderIsAllLevels<A>(root: Tree<A>)
    ensures LevelOrder(root) == ForestUpToDepth([root], Size(root))
  {
    BfsOrderDepthPrefix([root], Size(root));
    ForestSizeSingleton(root);
    NoNodesAtDepthSize([root]);
    assert BfsOrder<A>([]) == [];
  }

  /** A queue drains to every node of every queued tree, each occurrence once. */
  lemma {:induction false} BfsOrderIsPermutationOfPreorder<A>(queue: seq<Tree<A>>)
    ensures multiset(BfsOrder(queue)) == multiset(ForestPreorder(queue))
    decreases ForestSize(queue)
  {
    if |queue| != 0 {
      var node := queue[0];
      ForestSizeFront(queue);
      ForestSizeAppend(queue[1..], node.children);
      BfsOrderIsPermutationOfPreorder(queue[1..] + node.children);
      ForestPreorderAppend(queue[1..], node.children);
    }
  }

  /**
   Completeness: the walk visits every node of the tree, each occurrence exactly
   once, and nothing that is not a node of the tree.
   */
  lemma LevelOrderVisitsEachNodeOnce<A>(root: Tree<A>)
    ensures multiset(LevelOrder(root)) == multiset(Preorder(root))
    ensures forall n :: n in LevelOrder(root) <==> n in Preorder(root)
  {
    BfsOrderIsPermutationOfPreorder([root]);
    assert [root][1..] == [];
    assert ForestPreorder([root]) == Preorder(root) + ForestPreorder<A>([]);
    assert forall n :: n in LevelOrder(root) <==> n in multiset(LevelOrder(root));
  }

  /** A root without children is the only node visited. */
  lemma LeafLevelOrder<A>(root: Tree<A>)
    requires root.children == []
    ensures LevelOrder(root) == [root]
  {
    BfsOrderStep([root]);
    assert [root][1..] + root.children == [];
  }
}
