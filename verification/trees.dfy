/**
 The shape the traversal works over: a finite tree whose every node carries a
 value and the ordered list of its children. The child-lookup function that the
 caller hands to the traversal is `.children` here; finiteness of the datatype is
 what makes the queue-driven walk terminate.
 */
module Trees {

  /** A node of the caller's tree together with everything below it. */
  datatype Tree<A> = Node(val: A, children: seq<Tree<A>>)

  /** Number of nodes in `t`: the node itself and all of its descendants. */
  function Size<A>(t: Tree<A>): (n: nat)
    ensures n >= 1
    decreases t
  {
    1 + ForestSize(t.children)
  }

  /** Number of nodes in an ordered forest of trees. */
  function ForestSize<A>(fs: seq<Tree<A>>): (n: nat)
    ensures n >= |fs|
    decreases fs
  {
    if |fs| == 0 then 0 else Size(fs[0]) + ForestSize(fs[1..])
  }

  /** A one-tree forest has as many nodes as its tree. */
  lemma ForestSizeSingleton<A>(t: Tree<A>)
    ensures ForestSize([t]) == Size(t)
  {
  }

  /** Removing the front tree of a forest removes its root and its children's nodes. */
  lemma ForestSizeFront<A>(fs: seq<Tree<A>>)
    requires |fs| > 0
    ensures ForestSize(fs) == 1 + ForestSize(fs[0].children) + ForestSize(fs[1..])
  {
  }

  lemma {:induction false} ForestSizeAppend<A>(a: seq<Tree<A>>, b: seq<Tree<A>>)
    ensures ForestSize(a + b) == ForestSize(a) + ForestSize(b)
    decreases |a|
  {
    if |a| == 0 {
      assert a + b == b;
    } else {
      assert (a + b)[0] == a[0];
      assert (a + b)[1..] == a[1..] + b;
      ForestSizeAppend(a[1..], b);
    }
  }

  /**
   The next generation of a forest: the children of its trees, tree by tree and,
   within a tree, in the order the child-lookup produced them.
   */
  function NextLevel<A>(fs: seq<Tree<A>>): seq<Tree<A>>
    decreases |fs|
  {
    if |fs| == 0 then [] else fs[0].children + NextLevel(fs[1..])
  }

  /** The next generation holds every node of the forest except the forest's roots. */
  lemma {:induction false} NextLevelSize<A>(fs: seq<Tree<A>>)
    ensures ForestSize(NextLevel(fs)) + |fs| == ForestSize(fs)
    decreases |fs|
  {
    if |fs| != 0 {
      NextLevelSize(fs[1..]);
      ForestSizeAppend(fs[0].children, NextLevel(fs[1..]));
    }
  }

  lemma {:induction false} NextLevelAppend<A>(a: seq<Tree<A>>, b: seq<Tree<A>>)
    ensures NextLevel(a + b) == NextLevel(a) + NextLevel(b)
    decreases |a|
  {
    if |a| == 0 {
      assert a + b == b;
    } else {
      assert (a + b)[0] == a[0];
      assert (a + b)[1..] == a[1..] + b;
      NextLevelAppend(a[1..], b);
    }
  }

  /**
   Every node of `t`, each occurrence once, listed depth-first: the node, then the
   nodes of each child in turn. This is the reference for "the nodes of the tree".
   */
  function Preorder<A>(t: Tree<A>): (ns: seq<Tree<A>>)
    ensures |ns| == Size(t)
    ensures ns[0] == t
    decreases t
  {
    [t] + ForestPreorder(t.children)
  }

  function ForestPreorder<A>(fs: seq<Tree<A>>): (ns: seq<Tree<A>>)
    ensures |ns| == ForestSize(fs)
    decreases fs
  {
    if |fs| == 0 then [] else Preorder(fs[0]) + ForestPreorder(fs[1..])
  }

  lemma {:induction false} ForestPreorderAppend<A>(a: seq<Tree<A>>, b: seq<Tree<A>>)
    ensures ForestPreorder(a + b) == ForestPreorder(a) + ForestPreorder(b)
    decreases |a|
  {
    if |a| == 0 {
      assert a + b == b;
    } else {
      assert (a + b)[0] == a[0];
      assert (a + b)[1..] == a[1..] + b;
      ForestPreorderAppend(a[1..], b);
    }
  }

  /**
   The nodes of `t` at distance `d` from `t`, left to right: siblings in the order
   they were produced, cousins in the order of their parents.
   */
  function AtDepth<A>(t: Tree<A>, d: nat): seq<Tree<A>>
    decreases t
  {
    if d == 0 then [t] else ForestAtDepth(t.children, d - 1)
  }

  /** The nodes at distance `d` from the roots of a forest, tree by tree. */
  function ForestAtDepth<A>(fs: seq<Tree<A>>, d: nat): seq<Tree<A>>
    decreases fs
  {
    if |fs| == 0 then [] else AtDepth(fs[0], d) + ForestAtDepth(fs[1..], d)
  }

  lemma {:induction false} ForestAtDepthZero<A>(fs: seq<Tree<A>>)
    ensures ForestAtDepth(fs, 0) == fs
    decreases |fs|
  {
    if |fs| != 0 {
      ForestAtDepthZero(fs[1..]);
      assert fs == [fs[0]] + fs[1..];
    }
  }

  /** Taking the children of the depth-`d` nodes gives the depth-`d + 1` nodes. */
  lemma {:induction false} NextLevelOfForestAtDepth<A>(fs: seq<Tree<A>>, d: nat)
    ensures NextLevel(ForestAtDepth(fs, d)) == ForestAtDepth(fs, d + 1)
    decreases fs, 1
  {
    if |fs| != 0 {
      NextLevelAppend(AtDepth(fs[0], d), ForestAtDepth(fs[1..], d));
      NextLevelOfAtDepth(fs[0], d);
      NextLevelOfForestAtDepth(fs[1..], d);
    }
  }

  lemma {:induction false} NextLevelOfAtDepth<A>(t: Tree<A>, d: nat)
    ensures NextLevel(AtDepth(t, d)) == AtDepth(t, d + 1)
    decreases t, 0
  {
    if d == 0 {
      assert NextLevel([t]) == t.children + NextLevel([t][1..]);
      assert [t][1..] == [];
      ForestAtDepthZero(t.children);
    } else {
      NextLevelOfForestAtDepth(t.children, d - 1);
    }
  }

  /** A single tree seen as a one-tree forest has the same depth-`d` nodes. */
  lemma ForestAtDepthSingleton<A>(t: Tree<A>, d: nat)
    ensures ForestAtDepth([t], d) == AtDepth(t, d)
  {
  }
}
