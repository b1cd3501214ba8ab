/**
 * Leaf sets and the bipartitions they induce. A node v splits the leaves into those
 * below v and the rest; re-rooting keeps the set of these splits, and the
 * interchange keeps the leaf set of every node other than the two root children.
 * Leaves are identified by their index; both operations keep every name, so the same
 * statements hold of the leaf names.
 */
module Splits {
  import opened Wrappers
  import opened Arena
  import opened Reroot
  import opened Interchange

  /** u lies in the subtree of v: v is on the chain of parents from u to the root. */
  predicate InSubtree(nodes: seq<Node>, u: nat, v: nat)
    requires Acyclic(nodes) && u < |nodes|
  {
    v in PathToRoot(nodes, u)
  }

  /** The leaves of the arena. */
  function Leaves(nodes: seq<Node>): set<nat> {
    set l: nat | l < |nodes| && |nodes[l].children| == 0
  }

  /** The leaves in the subtree of v. */
  function Clade(nodes: seq<Node>, v: nat): (c: set<nat>)
    requires Acyclic(nodes)
    ensures c <= Leaves(nodes)
  {
    set l: nat | l < |nodes| && |nodes[l].children| == 0 && InSubtree(nodes, l, v)
  }

  /** The unordered bipartition of the leaves the edge above v induces. */
  function Split(nodes: seq<Node>, v: nat): set<set<nat>>
    requires Acyclic(nodes)
  {
    {Clade(nodes, v), Leaves(nodes) - Clade(nodes, v)}
  }

  /** The leaf bipartitions of the tree rooted at root: one per edge, below each non-root node. */
  function Bipartitions(nodes: seq<Node>, root: nat): set<set<set<nat>>>
    requires Acyclic(nodes)
  {
    set v: nat | v < |nodes| && v != root :: Split(nodes, v)
  }

  /** Any chain of parent links from u to a parentless node is the path from u to the root. */
  lemma ChainIsPath(nodes: seq<Node>, ps: seq<nat>)
    requires Acyclic(nodes) && ParentChain(nodes, ps)
    ensures PathToRoot(nodes, ps[0]) == ps
  {
    ChainBounded(nodes, ps);
    ChainIsPathUp(nodes, ps, |nodes|);
  }

  /** A node is in the subtree of v when it is v or its parent is there. */
  lemma SubtreeStep(nodes: seq<Node>, u: nat, v: nat)
    requires Acyclic(nodes) && u < |nodes|
    ensures nodes[u].parent.None? ==> (InSubtree(nodes, u, v) <==> v == u)
    ensures nodes[u].parent.Some? ==>
      var p := nodes[u].parent.value;
      && p < |nodes| && |PathToRoot(nodes, p)| < |PathToRoot(nodes, u)|
      && (InSubtree(nodes, u, v) <==> v == u || InSubtree(nodes, p, v))
  {
    var ps := PathToRoot(nodes, u);
    ChainLink(nodes, ps, 0);
    if nodes[u].parent.Some? {
      assert ParentChain(nodes, ps[1..]);
      ChainIsPath(nodes, ps[1..]);
      assert ps == [u] + ps[1..];
    } else {
      assert ps == [u];
    }
  }

  /** Two arenas over the same nodes with the same number of children everywhere. */
  predicate SameLeafShape(ns: seq<Node>, nodes: seq<Node>) {
    |ns| == |nodes| && forall i :: 0 <= i < |nodes| ==> |ns[i].children| == |nodes[i].children|
  }

  lemma SameLeaves(ns: seq<Node>, nodes: seq<Node>)
    requires SameLeafShape(ns, nodes)
    ensures Leaves(ns) == Leaves(nodes)
  {
  }

  /** Clades of two arenas agree when their leaves agree on membership. */
  lemma CladesAgree(ns: seq<Node>, nodes: seq<Node>, v: nat, w: nat)
    requires Acyclic(ns) && Acyclic(nodes) && SameLeafShape(ns, nodes)
    requires forall l: nat :: l < |nodes| && |nodes[l].children| == 0 ==>
      (InSubtree(ns, l, v) <==> InSubtree(nodes, l, w))
    ensures Clade(ns, v) == Clade(nodes, w)
  {
  }

  /** A clade of ns is the complement of a clade of nodes when leaves disagree on membership. */
  lemma CladesComplement(ns: seq<Node>, nodes: seq<Node>, v: nat, w: nat)
    requires Acyclic(ns) && Acyclic(nodes) && SameLeafShape(ns, nodes)
    requires forall l: nat :: l < |nodes| && |nodes[l].children| == 0 ==>
      (InSubtree(ns, l, v) <==> !InSubtree(nodes, l, w))
    ensures Clade(ns, v) == Leaves(nodes) - Clade(nodes, w)
  {
  }

  /** Complementary clades induce the same split. */
  lemma ComplementSplit(ns: seq<Node>, nodes: seq<Node>, v: nat, w: nat)
    requires Acyclic(ns) && Acyclic(nodes) && SameLeafShape(ns, nodes)
    requires Clade(ns, v) == Leaves(nodes) - Clade(nodes, w)
    ensures Split(ns, v) == Split(nodes, w)
  {
    SameLeaves(ns, nodes);
    var C := Clade(nodes, w);
    assert Leaves(nodes) - (Leaves(nodes) - C) == C;
  }

  // ---------------------------------------------------------------------------
  // Re-rooting

  /** The parent links of ns are those of nodes re-rooted along P with B. */
  predicate RerootedParents(nodes: seq<Node>, root: nat, P: seq<nat>, B: nat, ns: seq<Node>) {
    var k := |P| - 2;
    && Acyclic(nodes) && Acyclic(ns) && |ns| == |nodes| && OnlyRootParentless(nodes, root)
    && ParentChain(nodes, P) && |P| >= 4 && Distinct(P) && P[k + 1] == root
    && B < |nodes| && B !in P && nodes[B].parent == Some(root)
    && (forall i :: 0 <= i < |nodes| && nodes[i].parent == Some(root) ==> i == P[k] || i == B)
    && ns[root].parent.None? && ns[P[0]].parent == Some(root) && ns[P[1]].parent == Some(root)
    && (forall m :: 2 <= m <= k ==> ns[P[m]].parent == Some(P[m - 1]))
    && ns[B].parent == Some(P[k])
    && (forall i :: 0 <= i < |nodes| && i !in P && i != B ==> ns[i].parent == nodes[i].parent)
  }

  /** In ns, the path node Pj lies below exactly Pj, the root and, from P1 on, P1..P(j-1). */
  lemma {:induction false} NewPathUp(nodes: seq<Node>, root: nat, P: seq<nat>, B: nat, ns: seq<Node>, j: nat, m: nat)
    requires RerootedParents(nodes, root, P, B, ns) && j < |P| && m < |P|
    ensures P[j] < |ns|
    ensures InSubtree(ns, P[j], P[m]) <==> m == j || m == |P| - 1 || 1 <= m <= j < |P| - 1
    decreases j
  {
    var k := |P| - 2;
    assert P[m] == P[j] <==> m == j;
    assert P[m] == root <==> m == k + 1;
    if j == k + 1 {
      SubtreeStep(ns, root, P[m]);
    } else if j <= 1 {
      SubtreeStep(ns, P[j], P[m]);
      SubtreeStep(ns, root, P[m]);
    } else {
      SubtreeStep(ns, P[j], P[m]);
      NewPathUp(nodes, root, P, B, ns, j - 1, m);
    }
  }

  /** In ns, no path node lies below a node off the path. */
  lemma {:induction false} NewPathOff(nodes: seq<Node>, root: nat, P: seq<nat>, B: nat, ns: seq<Node>, j: nat, v: nat)
    requires RerootedParents(nodes, root, P, B, ns) && j < |P| && v !in P
    ensures P[j] < |ns| && !InSubtree(ns, P[j], v)
    decreases j
  {
    var k := |P| - 2;
    if j == k + 1 {
      SubtreeStep(ns, root, v);
    } else if j <= 1 {
      SubtreeStep(ns, P[j], v);
      SubtreeStep(ns, root, v);
    } else {
      SubtreeStep(ns, P[j], v);
      NewPathOff(nodes, root, P, B, ns, j - 1, v);
    }
  }

  /** In nodes, the path node Pj lies below exactly P(j+1), ..., the root. */
  lemma OldPathUp(nodes: seq<Node>, root: nat, P: seq<nat>, B: nat, ns: seq<Node>, j: nat, v: nat)
    requires RerootedParents(nodes, root, P, B, ns) && j < |P|
    ensures P[j] < |nodes|
    ensures InSubtree(nodes, P[j], v) <==> exists m :: j <= m < |P| && P[m] == v
  {
    assert ParentChain(nodes, P[j..]);
    ChainIsPath(nodes, P[j..]);
    if v in P[j..] {
      var t :| 0 <= t < |P| - j && P[j..][t] == v;
      assert P[j + t] == v;
    }
  }

  /** OldPathUp for a path node or a node off the path. */
  lemma OldPathAt(nodes: seq<Node>, root: nat, P: seq<nat>, B: nat, ns: seq<Node>, j: nat, m: nat)
    requires RerootedParents(nodes, root, P, B, ns) && j < |P| && m < |P|
    ensures P[j] < |nodes| && (InSubtree(nodes, P[j], P[m]) <==> j <= m)
  {
    OldPathUp(nodes, root, P, B, ns, j, P[m]);
    if InSubtree(nodes, P[j], P[m]) {
      var t :| j <= t < |P| && P[t] == P[m];
      assert t == m;
    }
  }

  lemma OldPathOff(nodes: seq<Node>, root: nat, P: seq<nat>, B: nat, ns: seq<Node>, j: nat, v: nat)
    requires RerootedParents(nodes, root, P, B, ns) && j < |P| && v !in P
    ensures P[j] < |nodes| && !InSubtree(nodes, P[j], v)
  {
    OldPathUp(nodes, root, P, B, ns, j, v);
  }

  /** The position of a path node. */
  lemma OnPath(P: seq<nat>, u: nat) returns (j: nat)
    requires u in P
    ensures j < |P| && P[j] == u
  {
    j := PosOf(P, u);
  }

  /** Off the path, and for x itself, re-rooting keeps who descends from whom. */
  lemma {:induction false} KeptSubtree(nodes: seq<Node>, root: nat, P: seq<nat>, B: nat, ns: seq<Node>, u: nat, v: nat)
    requires RerootedParents(nodes, root, P, B, ns) && u < |nodes|
    requires v == P[0] || v !in P
    ensures InSubtree(ns, u, v) == InSubtree(nodes, u, v)
    decreases |PathToRoot(nodes, u)|
  {
    var k := |P| - 2;
    if u in P {
      var j := OnPath(P, u);
      if v !in P {
        NewPathOff(nodes, root, P, B, ns, j, v);
        OldPathOff(nodes, root, P, B, ns, j, v);
      } else {
        NewPathUp(nodes, root, P, B, ns, j, 0);
        OldPathAt(nodes, root, P, B, ns, j, 0);
      }
    } else if u == B {
      SubtreeStep(ns, B, v);
      SubtreeStep(nodes, B, v);
      if v !in P {
        NewPathOff(nodes, root, P, B, ns, k, v);
        OldPathOff(nodes, root, P, B, ns, k + 1, v);
      } else {
        NewPathUp(nodes, root, P, B, ns, k, 0);
        OldPathAt(nodes, root, P, B, ns, k + 1, 0);
      }
    } else {
      SubtreeStep(ns, u, v);
      SubtreeStep(nodes, u, v);
      if nodes[u].parent.Some? {
        KeptSubtree(nodes, root, P, B, ns, nodes[u].parent.value, v);
      }
    }
  }

  /** Below any path node Pm other than x now lies exactly what did not lie below P(m-1). */
  lemma {:induction false} FlippedSubtree(nodes: seq<Node>, root: nat, P: seq<nat>, B: nat, ns: seq<Node>, u: nat, m: nat)
    requires RerootedParents(nodes, root, P, B, ns) && u < |nodes| && u != root
    requires 1 <= m <= |P| - 2
    ensures InSubtree(ns, u, P[m]) == !InSubtree(nodes, u, P[m - 1])
    decreases |PathToRoot(nodes, u)|
  {
    var k := |P| - 2;
    if u in P {
      var j := OnPath(P, u);
      NewPathUp(nodes, root, P, B, ns, j, m);
      OldPathAt(nodes, root, P, B, ns, j, m - 1);
    } else if u == B {
      SubtreeStep(ns, B, P[m]);
      SubtreeStep(nodes, B, P[m - 1]);
      NewPathUp(nodes, root, P, B, ns, k, m);
      OldPathAt(nodes, root, P, B, ns, k + 1, m - 1);
    } else {
      var p := nodes[u].parent.value;
      assert p != root;
      SubtreeStep(ns, u, P[m]);
      SubtreeStep(nodes, u, P[m - 1]);
      FlippedSubtree(nodes, root, P, B, ns, p, m);
    }
  }

  /** In nodes, every node other than the root lies below exactly one of the root's children Pk and B. */
  lemma {:induction false} TopSubtree(nodes: seq<Node>, root: nat, P: seq<nat>, B: nat, ns: seq<Node>, u: nat)
    requires RerootedParents(nodes, root, P, B, ns) && u < |nodes| && u != root
    ensures InSubtree(nodes, u, P[|P| - 2]) == !InSubtree(nodes, u, B)
    decreases |PathToRoot(nodes, u)|
  {
    var k := |P| - 2;
    if u in P {
      var j := OnPath(P, u);
      OldPathAt(nodes, root, P, B, ns, j, k);
      OldPathOff(nodes, root, P, B, ns, j, B);
    } else if u == B {
      SubtreeStep(nodes, B, P[k]);
      SubtreeStep(nodes, B, B);
      OldPathAt(nodes, root, P, B, ns, k + 1, k);
    } else {
      var p := nodes[u].parent.value;
      assert p != root;
      SubtreeStep(nodes, u, P[k]);
      SubtreeStep(nodes, u, B);
      TopSubtree(nodes, root, P, B, ns, p);
    }
  }

  /** The root of nodes is internal; leaves are never the root. */
  predicate InternalRoot(nodes: seq<Node>, root: nat) {
    root < |nodes| && |nodes[root].children| != 0
  }

  lemma KeptClade(nodes: seq<Node>, root: nat, P: seq<nat>, B: nat, ns: seq<Node>, v: nat)
    requires RerootedParents(nodes, root, P, B, ns) && SameLeafShape(ns, nodes)
    requires v == P[0] || v !in P
    ensures Clade(ns, v) == Clade(nodes, v)
  {
    forall l: nat | l < |nodes| && |nodes[l].children| == 0
      ensures InSubtree(ns, l, v) <==> InSubtree(nodes, l, v)
    {
      KeptSubtree(nodes, root, P, B, ns, l, v);
    }
    CladesAgree(ns, nodes, v, v);
  }

  lemma FlippedClade(nodes: seq<Node>, root: nat, P: seq<nat>, B: nat, ns: seq<Node>, m: nat)
    requires RerootedParents(nodes, root, P, B, ns) && SameLeafShape(ns, nodes) && InternalRoot(nodes, root)
    requires 1 <= m <= |P| - 2
    ensures Clade(ns, P[m]) == Leaves(nodes) - Clade(nodes, P[m - 1])
  {
    forall l: nat | l < |nodes| && |nodes[l].children| == 0
      ensures InSubtree(ns, l, P[m]) <==> !InSubtree(nodes, l, P[m - 1])
    {
      FlippedSubtree(nodes, root, P, B, ns, l, m);
    }
    CladesComplement(ns, nodes, P[m], P[m - 1]);
  }

  lemma TopClade(nodes: seq<Node>, root: nat, P: seq<nat>, B: nat, ns: seq<Node>)
    requires RerootedParents(nodes, root, P, B, ns) && InternalRoot(nodes, root)
    ensures Clade(nodes, P[|P| - 2]) == Leaves(nodes) - Clade(nodes, B)
  {
    forall l: nat | l < |nodes| && |nodes[l].children| == 0
      ensures InSubtree(nodes, l, P[|P| - 2]) <==> !InSubtree(nodes, l, B)
    {
      TopSubtree(nodes, root, P, B, ns, l);
    }
    SameLeafShapeRefl(nodes);
    CladesComplement(nodes, nodes, P[|P| - 2], B);
  }

  lemma SameLeafShapeRefl(nodes: seq<Node>)
    ensures SameLeafShape(nodes, nodes)
  {
  }

  /** The split below any non-root node of ns is the split below one of nodes, and conversely. */
  lemma SplitsMatch(nodes: seq<Node>, root: nat, P: seq<nat>, B: nat, ns: seq<Node>)
    requires RerootedParents(nodes, root, P, B, ns) && SameLeafShape(ns, nodes) && InternalRoot(nodes, root)
    ensures Bipartitions(ns, root) == Bipartitions(nodes, root)
  {
    var k := |P| - 2;
    SameLeaves(ns, nodes);
    assert P[k + 1] == root;
    forall v: nat | v < |ns| && v != root
      ensures Split(ns, v) in Bipartitions(nodes, root)
    {
      var w := v;
      if v in P && v != P[0] {
        var m := OnPath(P, v);
        assert 1 <= m <= k;
        FlippedClade(nodes, root, P, B, ns, m);
        ComplementSplit(ns, nodes, v, P[m - 1]);
        w := P[m - 1];
      } else {
        KeptClade(nodes, root, P, B, ns, v);
      }
      assert w < |nodes| && w != root && Split(ns, v) == Split(nodes, w);
    }
    forall w: nat | w < |nodes| && w != root
      ensures Split(nodes, w) in Bipartitions(ns, root)
    {
      var v := w;
      if w == P[k] {
        TopClade(nodes, root, P, B, ns);
        KeptClade(nodes, root, P, B, ns, B);
        SameLeafShapeRefl(nodes);
        ComplementSplit(nodes, nodes, w, B);
        v := B;
      } else if w in P && w != P[0] {
        var m := OnPath(P, w);
        assert 1 <= m < k;
        FlippedClade(nodes, root, P, B, ns, m + 1);
        ComplementSplit(ns, nodes, P[m + 1], w);
        v := P[m + 1];
      } else {
        KeptClade(nodes, root, P, B, ns, w);
      }
      assert v < |ns| && v != root && Split(ns, v) == Split(nodes, w);
    }
  }

  /** Re-rooting fixes the parent links RerootedParents names. */
  lemma RerootedLinks(nodes: seq<Node>, root: nat, P: seq<nat>, B: nat)
    requires RerootSetup(nodes, root, P, B) && Acyclic(nodes)
    ensures InArena(nodes, P)
    ensures RerootedParents(nodes, root, P, B, Rerooted(nodes, P, B))
  {
    var k := |P| - 2;
    SetupFacts(nodes, root, P, B);
    RerootedAcyclic(nodes, root, P, B);
    RerootedRootLinks(nodes, root, P, B);
    RerootedPathReversed(nodes, root, P, B);
    RerootedPartB(nodes, root, P, B);
    RerootedFrame(nodes, root, P, B);
    RootChildrenOnly(nodes, root, P, B);
  }

  /** In the setup, the nodes hanging from the root are Pk and B. */
  lemma RootChildrenOnly(nodes: seq<Node>, root: nat, P: seq<nat>, B: nat)
    requires RerootSetup(nodes, root, P, B)
    ensures forall i :: 0 <= i < |nodes| && nodes[i].parent == Some(root) ==> i == P[|P| - 2] || i == B
  {
    forall i | 0 <= i < |nodes| && nodes[i].parent == Some(root)
      ensures i == P[|P| - 2] || i == B
    {
      assert i in nodes[root].children;
      RootChildren(nodes, root, P, B, i);
    }
  }

  /** Re-rooting keeps every node's number of children, and the root is internal. */
  lemma RerootedCounts(nodes: seq<Node>, root: nat, P: seq<nat>, B: nat)
    requires RerootSetup(nodes, root, P, B)
    ensures InArena(nodes, P)
    ensures SameLeafShape(Rerooted(nodes, P, B), nodes) && InternalRoot(nodes, root)
  {
    SetupFacts(nodes, root, P, B);
    RerootedShape(nodes, root, P, B);
    ShapeCounts(nodes, root, P, B, Rerooted(nodes, P, B));
  }

  lemma ShapeCounts(nodes: seq<Node>, root: nat, P: seq<nat>, B: nat, ns: seq<Node>)
    requires ShapeOf(nodes, root, P, B, ns) && |nodes[root].children| == 2 && P[|P| - 1] == root
    ensures SameLeafShape(ns, nodes)
  {
    forall i | 0 <= i < |nodes|
      ensures |ns[i].children| == |nodes[i].children|
    {
      if i in P && i != root && i != P[0] {
        var m := OnPath(P, i);
        if 1 <= m <= |P| - 2 {
          assert ns[P[m]] == Flipped(nodes, P, B, m);
        }
      }
    }
  }

  /**
   * `root_at` keeps the tree's leaf bipartitions: on its main path, the re-rooted
   * tree has exactly the splits of the leaves the input has.
   */
  lemma RootAtSplits(nodes: seq<Node>, root: nat, name: string)
    requires WellFormed(nodes, root) && Acyclic(nodes)
    requires RootAtOutcome(nodes, root, name).Ok? && RootAtOutcome(nodes, root, name).value.Moved?
    ensures var ns := RootAtOutcome(nodes, root, name).value.nodes;
      Acyclic(ns) && Bipartitions(ns, root) == Bipartitions(nodes, root)
  {
    var order := Walk(nodes, root);
    var x := order[FindAt(nodes, order, name).value];
    var P := PathToRoot(nodes, x);
    ParentChainEndsAtRoot(nodes, root, P);
    assert nodes[P[|P| - 2]].parent == Some(root);
    assert P[|P| - 2] in nodes[root].children;
    var B := OtherChild(nodes, root, P[|P| - 2]);
    assert RerootSetup(nodes, root, P, B);
    RerootedLinks(nodes, root, P, B);
    RerootedCounts(nodes, root, P, B);
    SplitsMatch(nodes, root, P, B, Rerooted(nodes, P, B));
  }

  // ---------------------------------------------------------------------------
  // Interchange

  /** The parent links of ns are those of nodes with a moved from x to y and c from y to x. */
  predicate SwappedParents(nodes: seq<Node>, root: nat, x: nat, y: nat, a: nat, c: nat, ns: seq<Node>) {
    && Acyclic(nodes) && Acyclic(ns) && |ns| == |nodes|
    && root < |nodes| && x < |nodes| && y < |nodes| && a < |nodes| && c < |nodes| && x != y
    && nodes[root].parent.None? && ns[root].parent.None?
    && nodes[x].parent == Some(root) && nodes[y].parent == Some(root)
    && ns[x].parent == Some(root) && ns[y].parent == Some(root)
    && nodes[a].parent == Some(x) && nodes[c].parent == Some(y)
    && ns[a].parent == Some(y) && ns[c].parent == Some(x)
    && forall i :: 0 <= i < |nodes| && i != a && i != c ==> ns[i].parent == nodes[i].parent
  }

  /** Below a child of the root, a node's subtree membership as the two-step chain to the root gives it. */
  lemma TwoUp(nodes: seq<Node>, root: nat, x: nat, a: nat, v: nat)
    requires Acyclic(nodes) && root < |nodes| && x < |nodes| && a < |nodes|
    requires nodes[root].parent.None? && nodes[x].parent == Some(root) && nodes[a].parent == Some(x)
    ensures InSubtree(nodes, a, v) <==> v == a || v == x || v == root
  {
    SubtreeStep(nodes, a, v);
    SubtreeStep(nodes, x, v);
    SubtreeStep(nodes, root, v);
  }

  /** Exchanging a and c between the root children x and y keeps every subtree but those of x and y. */
  lemma {:induction false} SwappedSubtree(nodes: seq<Node>, root: nat, x: nat, y: nat, a: nat, c: nat, ns: seq<Node>, u: nat, v: nat)
    requires SwappedParents(nodes, root, x, y, a, c, ns) && u < |nodes| && v != x && v != y
    ensures InSubtree(ns, u, v) == InSubtree(nodes, u, v)
    decreases |PathToRoot(nodes, u)|
  {
    if u == a {
      TwoUp(nodes, root, x, a, v);
      TwoUp(ns, root, y, a, v);
    } else if u == c {
      TwoUp(nodes, root, y, c, v);
      TwoUp(ns, root, x, c, v);
    } else {
      SubtreeStep(ns, u, v);
      SubtreeStep(nodes, u, v);
      if nodes[u].parent.Some? {
        SwappedSubtree(nodes, root, x, y, a, c, ns, nodes[u].parent.value, v);
      }
    }
  }

  lemma SwappedClade(nodes: seq<Node>, root: nat, x: nat, y: nat, a: nat, c: nat, ns: seq<Node>, v: nat)
    requires SwappedParents(nodes, root, x, y, a, c, ns) && SameLeafShape(ns, nodes) && v != x && v != y
    ensures Clade(ns, v) == Clade(nodes, v)
  {
    forall l: nat | l < |nodes| && |nodes[l].children| == 0
      ensures InSubtree(ns, l, v) <==> InSubtree(nodes, l, v)
    {
      SwappedSubtree(nodes, root, x, y, a, c, ns, l, v);
    }
    CladesAgree(ns, nodes, v, v);
  }

  /** After the exchange, x has lost the leaves below a and gained those below c. */
  lemma {:induction false} SwappedTopSubtree(nodes: seq<Node>, root: nat, x: nat, y: nat, a: nat, c: nat, ns: seq<Node>, u: nat)
    requires SwappedParents(nodes, root, x, y, a, c, ns) && u < |nodes|
    ensures InSubtree(ns, u, x) ==
      ((InSubtree(nodes, u, x) && !InSubtree(nodes, u, a)) || InSubtree(nodes, u, c))
    decreases |PathToRoot(nodes, u)|
  {
    TwoUp(nodes, root, x, a, c);
    TwoUp(nodes, root, y, c, c);
    if u == a {
      TwoUp(nodes, root, x, a, x);
      TwoUp(nodes, root, x, a, a);
      TwoUp(ns, root, y, a, x);
    } else if u == c {
      TwoUp(ns, root, x, c, x);
    } else {
      SubtreeStep(ns, u, x);
      SubtreeStep(nodes, u, x);
      SubtreeStep(nodes, u, a);
      SubtreeStep(nodes, u, c);
      if nodes[u].parent.Some? {
        var p := nodes[u].parent.value;
        SwappedTopSubtree(nodes, root, x, y, a, c, ns, p);
        if u == x {
          SubtreeStep(nodes, root, a);
        }
      } else {
        SubtreeStep(nodes, root, x);
      }
    }
  }

  /** The exchange moves the leaves below a from x to y and those below c from y to x. */
  lemma SwappedMovedClades(nodes: seq<Node>, root: nat, x: nat, y: nat, a: nat, c: nat, ns: seq<Node>)
    requires SwappedParents(nodes, root, x, y, a, c, ns) && SameLeafShape(ns, nodes)
    ensures Clade(ns, x) == (Clade(nodes, x) - Clade(nodes, a)) + Clade(nodes, c)
    ensures Clade(ns, y) == (Clade(nodes, y) - Clade(nodes, c)) + Clade(nodes, a)
  {
    assert SwappedParents(nodes, root, y, x, c, a, ns);
    forall l: nat | l < |nodes| && |nodes[l].children| == 0
      ensures InSubtree(ns, l, x) == ((InSubtree(nodes, l, x) && !InSubtree(nodes, l, a)) || InSubtree(nodes, l, c))
      ensures InSubtree(ns, l, y) == ((InSubtree(nodes, l, y) && !InSubtree(nodes, l, c)) || InSubtree(nodes, l, a))
    {
      SwappedTopSubtree(nodes, root, x, y, a, c, ns, l);
      SwappedTopSubtree(nodes, root, y, x, c, a, ns, l);
    }
  }

  /** An exchange between the root children x and y moves only the parent links of a and c. */
  lemma SwappedLinks(nodes: seq<Node>, root: nat, x: nat, y: nat, a: nat, c: nat, ns: seq<Node>)
    requires WellFormed(nodes, root) && Acyclic(nodes) && UniquelyNamed(nodes)
    requires WellFormed(ns, root) && Acyclic(ns)
    requires x < |nodes| && y < |nodes| && x != y && nodes[x].parent == Some(root) && nodes[y].parent == Some(root)
    requires a in nodes[x].children && c in nodes[y].children
    requires Swapped(nodes, ns, a, c, x, y)
    ensures SwappedParents(nodes, root, x, y, a, c, ns)
  {
    AcyclicSiblings(nodes, root, x, y);
    SiblingsExchangeable(nodes, root, x, y, a, c);
    ExchangeableFacts(nodes, root, a, c, x, y);
    SwappedFrame(nodes, ns, a, c, x, y);
  }

  /**
   * The interchange keeps the leaf set of every node other than the two children of
   * the root, between which it exchanges two subtrees.
   */
  lemma NniClades(nodes: seq<Node>, root: nat, name: string, direction: int)
    requires WellFormed(nodes, root) && Acyclic(nodes) && UniquelyNamed(nodes)
    requires NniOutcome(nodes, root, name, direction).Ok? && NniOutcome(nodes, root, name, direction).value.Some?
    ensures var ns := NniOutcome(nodes, root, name, direction).value.value;
      && Acyclic(ns)
      && forall v: nat :: v < |nodes| && v !in nodes[root].children ==> Clade(ns, v) == Clade(nodes, v)
  {
    var order := Walk(nodes, root);
    var x := order[FindAt(nodes, order, name).value];
    NniProducesShape(nodes, root, x, direction);
    assert x in nodes[root].children;
    var y := OtherChild(nodes, root, x);
    NniRootBranch(nodes, root, x, y, direction);
    SiblingSwap(nodes, root, x, y, direction);
    SwapKeepsSiblings(nodes, root, x, y, direction);
    NniPreserves(nodes, root, name, direction);
    var cx, cy := nodes[x].children, nodes[y].children;
    var ns := NniOutcome(nodes, root, name, direction).value.value;
    assert SameLeafShape(ns, nodes);
    assert nodes[y].parent == Some(root);
    if direction == 1 {
      SwapFirstFirst(nodes, root, x, y);
      SwappedLinks(nodes, root, x, y, cx[0], cy[0], ns);
    } else if direction == 2 {
      SwapSecondFirst(nodes, root, x, y);
      SwappedLinks(nodes, root, x, y, cx[1], cy[0], ns);
    } else if direction == 3 {
      SwapFirstSecond(nodes, root, x, y);
      SwappedLinks(nodes, root, x, y, cx[0], cy[1], ns);
    }
    forall v: nat | v < |nodes| && v !in nodes[root].children
      ensures Clade(ns, v) == Clade(nodes, v)
    {
      assert v != x && v != y;
      if direction == 1 {
        SwappedClade(nodes, root, x, y, cx[0], cy[0], ns, v);
      } else if direction == 2 {
        SwappedClade(nodes, root, x, y, cx[1], cy[0], ns, v);
      } else if direction == 3 {
        SwappedClade(nodes, root, x, y, cx[0], cy[1], ns, v);
      }
    }
  }

  /**
   * At the root, for directions 1, 2 and 3, the interchange moves the leaves below
   * the selected child a of the node x to its sibling y, and those below the selected
   * child c of y to x; any other direction leaves every leaf set as it was.
   */
  lemma NniMovedClades(nodes: seq<Node>, root: nat, x: nat, direction: int)
    requires WellFormed(nodes, root) && Acyclic(nodes) && UniquelyNamed(nodes) && x < |nodes|
    requires NniOutcome(nodes, root, nodes[x].name, direction).Ok? && NniOutcome(nodes, root, nodes[x].name, direction).value.Some?
    requires x in nodes[root].children && |nodes[x].children| == 2
    ensures |nodes[root].children| == 2
    ensures var ns := NniOutcome(nodes, root, nodes[x].name, direction).value.value;
      var y := OtherChild(nodes, root, x);
      && Acyclic(ns) && y < |nodes| && |nodes[y].children| == 2
      && match Selected(nodes[x].children[0], nodes[x].children[1], nodes[y].children[0], nodes[y].children[1], direction)
         case None => ns == nodes
         case Some((a, c)) =>
           && Clade(ns, x) == (Clade(nodes, x) - Clade(nodes, a)) + Clade(nodes, c)
           && Clade(ns, y) == (Clade(nodes, y) - Clade(nodes, c)) + Clade(nodes, a)
  {
    FindInWalk(nodes, root, x);
    NniProducesShape(nodes, root, x, direction);
    var y := OtherChild(nodes, root, x);
    NniRootBranch(nodes, root, x, y, direction);
    SiblingSwap(nodes, root, x, y, direction);
    SwapKeepsSiblings(nodes, root, x, y, direction);
    NniPreserves(nodes, root, nodes[x].name, direction);
    var cx, cy := nodes[x].children, nodes[y].children;
    var ns := NniOutcome(nodes, root, nodes[x].name, direction).value.value;
    assert SameLeafShape(ns, nodes);
    assert nodes[y].parent == Some(root);
    if direction == 1 {
      SwapFirstFirst(nodes, root, x, y);
      SwappedLinks(nodes, root, x, y, cx[0], cy[0], ns);
      SwappedMovedClades(nodes, root, x, y, cx[0], cy[0], ns);
    } else if direction == 2 {
      SwapSecondFirst(nodes, root, x, y);
      SwappedLinks(nodes, root, x, y, cx[1], cy[0], ns);
      SwappedMovedClades(nodes, root, x, y, cx[1], cy[0], ns);
    } else if direction == 3 {
      SwapFirstSecond(nodes, root, x, y);
      SwappedLinks(nodes, root, x, y, cx[0], cy[1], ns);
      SwappedMovedClades(nodes, root, x, y, cx[0], cy[1], ns);
    }
  }
}
