// The `pylotree` module: the node labeller, the Tree wrapper with its lookups, and the
// tree rearrangements `root_at`, `swap_nodes` and `nearest_neighbor_interchange`,
// run on a tree held as an arena of nodes.
module PyloTree {
  import opened Wrappers
  import opened Decimal
  import opened Arena
  import opened Labelling
  import opened Reroot
  import opened Interchange

  // ---------------------------------------------------------------------------
  // Specification functions
  // ---------------------------------------------------------------------------

  /** The prefix and the root name `Tree` labels with: `NodeLabels()` with its defaults. */
  const DefaultPrefix: string := "Edge"
  const DefaultRootName: string := "Root"

  /**
   * The arena `Tree(tree, name)` holds: the default labelling pass in pre-order,
   * then the root renamed when a non-empty name is given.
   */
  function Initialized(arena: seq<Node>, root: nat, name: string): (r: seq<Node>)
    requires root < |arena|
    ensures |r| == |arena|
  {
    var l := LabelPass(arena, Walk(arena, root), DefaultPrefix, DefaultRootName, 0).nodes;
    if name != "" then l[root := l[root].(name := name)] else l
  }

  /** `tree[name]`: the first node of the pre-order walk with that name, else KeyError. */
  function Lookup(nodes: seq<Node>, root: nat, name: string): (r: Result<nat, Error>)
    requires WellFormed(nodes, root) && Acyclic(nodes)
    ensures r.Ok? ==> r.value < |nodes| && nodes[r.value].name == name
    ensures r.Ok? ==> (
      exists k :: 0 <= k < |Walk(nodes, root)| && Walk(nodes, root)[k] == r.value &&
        forall t :: 0 <= t < k ==> nodes[Walk(nodes, root)[t]].name != name)
    ensures r.Err? <==> forall i :: 0 <= i < |nodes| ==> nodes[i].name != name
    ensures r.Err? ==> r.error == KeyError
  {
    var order := Walk(nodes, root);
    WalkMisses(nodes, root, name);
    match FindAt(nodes, order, name)
    case None => Err(KeyError)
    case Some(k) => Ok(order[k])
  }

  // ---------------------------------------------------------------------------
  // Lemmas about the specification functions
  // ---------------------------------------------------------------------------

  /** The labelling pass and the renaming touch names only, and leave every node named. */
  lemma InitializedValid(arena: seq<Node>, root: nat, name: string)
    requires WellFormed(arena, root) && Acyclic(arena)
    ensures var r := Initialized(arena, root, name);
      SameShape(arena, r) && WellFormed(r, root) && Acyclic(r) && Labelled(r)
  {
    var order := Walk(arena, root);
    var l := LabelPass(arena, order, DefaultPrefix, DefaultRootName, 0).nodes;
    LabelPassFrame(arena, order, DefaultPrefix, DefaultRootName, 0);
    LabelPassNamesVisited(arena, order, DefaultPrefix, DefaultRootName, 0);
    forall i | 0 <= i < |arena|
      ensures l[i].name != ""
    {
      WalkCoversArena(arena, root, i);
      var k :| 0 <= k < |order| && order[k] == i;
    }
    var r := Initialized(arena, root, name);
    assert SameShape(arena, r);
    SameShapeTree(arena, r, root);
  }

  /** `Tree(t, name).name`: the given name, else the root's own name, else "Root". */
  lemma InitializedRootName(arena: seq<Node>, root: nat, name: string)
    requires WellFormed(arena, root)
    ensures Initialized(arena, root, name)[root].name ==
      if name != "" then name else if arena[root].name != "" then arena[root].name else DefaultRootName
  {
    var order := Walk(arena, root);
    assert order[0] == root;
    LabelPassFrame(arena, order, DefaultPrefix, DefaultRootName, 0);
    if arena[root].name == "" {
      FirstVisitedLabel(arena, order, DefaultPrefix, DefaultRootName, 0);
    }
  }

  /** Every node other than the root keeps a name it already has. */
  lemma InitializedKeepsNames(arena: seq<Node>, root: nat, name: string, i: nat)
    requires root < |arena| && i < |arena| && i != root && arena[i].name != ""
    ensures Initialized(arena, root, name)[i].name == arena[i].name
  {
    LabelPassFrame(arena, Walk(arena, root), DefaultPrefix, DefaultRootName, 0);
  }

  /** The position of node i in the pre-order walk of a well-formed arena. */
  lemma WalkPosition(arena: seq<Node>, root: nat, i: nat) returns (k: nat)
    requires WellFormed(arena, root) && Acyclic(arena) && i < |arena|
    ensures k < |Walk(arena, root)| && Walk(arena, root)[k] == i
  {
    WalkCoversArena(arena, root, i);
    k :| 0 <= k < |Walk(arena, root)| && Walk(arena, root)[k] == i;
  }

  /**
   * An anonymous node below the root takes `"Edge" + str(c)`, where c is one more than
   * the number of nodes drawing a counter value that the walk visits before it (its
   * position k).
   */
  lemma InitializedCounterName(arena: seq<Node>, root: nat, name: string, i: nat) returns (k: nat, c: nat)
    requires WellFormed(arena, root) && Acyclic(arena) && i < |arena| && i != root && arena[i].name == ""
    ensures k < |Walk(arena, root)| && Walk(arena, root)[k] == i
    ensures c == CountersIn(arena, Walk(arena, root)[..k], DefaultRootName) + 1
    ensures Initialized(arena, root, name)[i].name == DefaultPrefix + NatToString(c)
  {
    var order := Walk(arena, root);
    WalkDistinct(arena, root);
    LabelPassClosedForm(arena, order, DefaultPrefix, DefaultRootName, 0);
    k := WalkPosition(arena, root, i);
    assert arena[i].parent.Some?;
    c := CountersIn(arena, order[..k], DefaultRootName) + 1;
    assert AssignedName(arena, order, k, DefaultPrefix, DefaultRootName, 0) == DefaultPrefix + NatToString(c);
  }

  /** Two anonymous nodes below the root end up with different names. */
  lemma InitializedCountersDistinct(arena: seq<Node>, root: nat, name: string, i: nat, j: nat)
    requires WellFormed(arena, root) && Acyclic(arena) && i < |arena| && j < |arena|
    requires i != root && j != root && i != j && arena[i].name == "" && arena[j].name == ""
    ensures Initialized(arena, root, name)[i].name != Initialized(arena, root, name)[j].name
  {
    var order := Walk(arena, root);
    WalkDistinct(arena, root);
    var ki := WalkPosition(arena, root, i);
    var kj := WalkPosition(arena, root, j);
    assert arena[i].parent.Some? && arena[j].parent.Some?;
    if ki < kj {
      CounterNamesDistinct(arena, order, DefaultPrefix, DefaultRootName, 0, ki, kj);
    } else {
      CounterNamesDistinct(arena, order, DefaultPrefix, DefaultRootName, 0, kj, ki);
    }
  }

  /** Wrapping an arena that is already labelled, without a name, changes nothing (the copy `Tree(otree.newick)`). */
  lemma InitializedOfLabelled(arena: seq<Node>, root: nat)
    requires WellFormed(arena, root) && Labelled(arena)
    ensures Initialized(arena, root, "") == arena
  {
    LabelPassOfNamed(arena, Walk(arena, root), DefaultPrefix, DefaultRootName, 0);
  }

  /** Wrapping a labelled arena under its own root name changes nothing (`Tree.copy`). */
  lemma InitializedUnderOwnName(arena: seq<Node>, root: nat)
    requires WellFormed(arena, root) && Labelled(arena)
    ensures Initialized(arena, root, arena[root].name) == arena
  {
    InitializedOfLabelled(arena, root);
  }

  /** With pairwise-distinct names, looking up a node's name finds that node. */
  lemma LookupUnique(nodes: seq<Node>, root: nat, x: nat)
    requires WellFormed(nodes, root) && Acyclic(nodes) && UniquelyNamed(nodes) && x < |nodes|
    ensures Lookup(nodes, root, nodes[x].name) == Ok(x)
  {
    FindInWalk(nodes, root, x);
  }

  /** After node x is renamed to an unused name, the new name finds x and the old one nothing. */
  lemma LookupAfterRename(nodes: seq<Node>, root: nat, x: nat, name: string)
    requires WellFormed(nodes, root) && Acyclic(nodes) && UniquelyNamed(nodes) && x < |nodes|
    requires forall i :: 0 <= i < |nodes| ==> nodes[i].name != name
    ensures var ns := nodes[x := nodes[x].(name := name)];
      && WellFormed(ns, root) && Acyclic(ns)
      && Lookup(ns, root, name) == Ok(x)
      && Lookup(ns, root, nodes[x].name) == Err(KeyError)
  {
    var ns := nodes[x := nodes[x].(name := name)];
    assert SameShape(nodes, ns);
    SameShapeTree(nodes, ns, root);
    assert UniquelyNamed(ns);
    LookupUnique(ns, root, x);
  }

  // ---------------------------------------------------------------------------
  // NodeLabels
  // ---------------------------------------------------------------------------

  /** The visitor that names anonymous nodes: the root name for a parentless node, else prefix + counter. */
  class NodeLabels {
    const prefix: string
    const rootName: string
    var count: nat

    constructor (prefix: string, rootName: string)
      ensures this.prefix == prefix && this.rootName == rootName && count == 0
    {
      this.prefix := prefix;
      this.rootName := rootName;
      count := 0;
    }

    /** `labels(node)` on node i of tree t. */
    method Call(t: Tree, i: nat)
      requires i < |t.nodes|
      modifies this, t
      ensures var s := LabelStep(old(t.nodes), i, prefix, rootName, old(count));
        t.nodes == s.nodes && count == s.count && t.root == old(t.root)
    {
      var n := t.nodes[i];
      if n.name == "" {
        if n.parent.None? && rootName != "" {
          t.nodes := t.nodes[i := n.(name := rootName)];
        } else {
          count := count + 1;
          t.nodes := t.nodes[i := n.(name := prefix + NatToString(count))];
        }
      }
    }
  }

  // ---------------------------------------------------------------------------
  // Tree
  // ---------------------------------------------------------------------------

  /** A rooted tree over an arena of nodes, every node named. */
  class Tree {
    var nodes: seq<Node>
    var root: nat

    predicate Valid()
      reads this
    {
      WellFormed(nodes, root) && Acyclic(nodes) && Labelled(nodes)
    }

    /** `Tree(tree, name)`: label the anonymous nodes in pre-order, then rename the root if a name is given. */
    constructor (arena: seq<Node>, root: nat, name: string)
      requires WellFormed(arena, root) && Acyclic(arena)
      ensures Valid() && this.root == root && nodes == Initialized(arena, root, name)
    {
      this.nodes := arena;
      this.root := root;
      new;
      var labels := new NodeLabels(DefaultPrefix, DefaultRootName);
      var order := Walk(arena, root);
      var k := 0;
      while k < |order|
        invariant 0 <= k <= |order| && |nodes| == |arena| && this.root == root
        invariant InArena(nodes, order[k..])
        invariant LabelPass(nodes, order[k..], DefaultPrefix, DefaultRootName, labels.count) ==
          LabelPass(arena, order, DefaultPrefix, DefaultRootName, 0)
        modifies this, labels
      {
        assert order[k..][1..] == order[k + 1..];
        labels.Call(this, order[k]);
        k := k + 1;
      }
      if name != "" {
        nodes := nodes[root := nodes[root].(name := name)];
      }
      InitializedValid(arena, root, name);
    }

    /** `Tree.copy(tree)`: a new tree with the same arena under the same root name. */
    static method Copy(tree: Tree) returns (t: Tree)
      requires tree.Valid()
      ensures fresh(t) && t.Valid() && t.nodes == tree.nodes && t.root == tree.root
    {
      var name := tree.Name();
      t := new Tree(tree.nodes, tree.root, name);
      InitializedUnderOwnName(tree.nodes, tree.root);
    }

    /** `tree.name`: the root's name, never empty. */
    function Name(): (r: string)
      requires Valid()
      reads this
      ensures r != "" && r == nodes[root].name
    {
      nodes[root].name
    }

    /** `item in tree`: true exactly when some node carries the name. */
    method Contains(item: string) returns (b: bool)
      requires Valid()
      ensures b <==> exists i :: 0 <= i < |nodes| && nodes[i].name == item
      ensures b <==> Lookup(nodes, root, item).Ok?
    {
      var found := Scan(nodes, Walk(nodes, root), item);
      ghost var l := Lookup(nodes, root, item);
      assert l.Ok? <==> found.Some?;
      if l.Ok? {
        assert l.value < |nodes| && nodes[l.value].name == item;
      }
      b := found.Some?;
    }

    /** `tree[item]`: the first node of the pre-order walk with the name, else KeyError. */
    method GetItem(item: string) returns (r: Result<nat, Error>)
      requires Valid()
      ensures r == Lookup(nodes, root, item)
    {
      var order := Walk(nodes, root);
      var found := Scan(nodes, order, item);
      if found.None? {
        return Err(KeyError);
      }
      return Ok(order[found.value]);
    }
  }

  /**
   * The loop `for n in self.root.walk(): if n.name == item` shared by `__contains__`
   * and `__getitem__`: the position of the first node of the order with the name.
   */
  method Scan(nodes: seq<Node>, order: seq<nat>, item: string) returns (r: Option<nat>)
    requires InArena(nodes, order)
    ensures r == FindAt(nodes, order, item)
  {
    var k := 0;
    while k < |order|
      invariant 0 <= k <= |order|
      invariant forall t :: 0 <= t < k ==> nodes[order[t]].name != item
    {
      if nodes[order[k]].name == item {
        FindAtFirst(nodes, order, item, k);
        return Some(k);
      }
      k := k + 1;
    }
    return None;
  }

  // ---------------------------------------------------------------------------
  // root_at
  // ---------------------------------------------------------------------------

  /**
   * The re-rooting plan for a node x below a root child: its path P to the root has
   * three nodes or more, P1 is its parent, partA = P(|P|-2) hangs from the root, and
   * partA is the parent exactly at depth 2. Deeper, the setup for the stages holds
   * and the outcome is the re-rooted arena.
   */
  lemma RerootPlan(nodes: seq<Node>, root: nat, x: nat)
    requires WellFormed(nodes, root) && Acyclic(nodes) && UniquelyNamed(nodes) && x < |nodes|
    requires nodes[x].parent.Some? && nodes[x].parent.value != root
    ensures var P := PathToRoot(nodes, x); var k := |P| - 2;
      && |P| >= 3 && P[1] == nodes[x].parent.value && P[k + 1] == root
      && P[k] in nodes[root].children && |nodes[root].children| == 2
      && (nodes[P[k]].name == nodes[P[1]].name <==> |P| == 3)
      && (|P| >= 4 ==> RerootSetup(nodes, root, P, OtherChild(nodes, root, P[k])))
  {
    var P := PathToRoot(nodes, x);
    var k := |P| - 2;
    ParentChainEndsAtRoot(nodes, root, P);
    ChainLink(nodes, P, 0);
    ChainLink(nodes, P, k);
    if |P| >= 4 {
      ParentChainDistinct(nodes, P, 1, k);
    }
    assert nodes[P[k]].parent == Some(root);
  }

  /** At depth 2 and below, `root_at` reports the outcome the plan leads to. */
  lemma RootAtPlanned(nodes: seq<Node>, root: nat, x: nat)
    requires WellFormed(nodes, root) && Acyclic(nodes) && UniquelyNamed(nodes) && x < |nodes|
    requires nodes[x].parent.Some? && nodes[x].parent.value != root
    ensures var P := PathToRoot(nodes, x); var k := |P| - 2;
      RootAtOutcome(nodes, root, nodes[x].name) ==
        if |P| < 4 then Err(Unsupported)
        else Ok(Moved(Rerooted(nodes, P, OtherChild(nodes, root, P[k]))))
  {
    RerootPlan(nodes, root, x);
    FindInWalk(nodes, root, x);
  }

  /**
   * One pass of the `while queue` loop at stage j, popping (Pj, P(j+1)): P(j+1) still
   * has its old two children, the slot s of Pj among them is found, and P(j+1) has a
   * parent exactly when it is below partA, and then its old one.
   */
  lemma RerootPass(nodes: seq<Node>, root: nat, P: seq<nat>, B: nat, j: nat) returns (s: nat)
    requires RerootSetup(nodes, root, P, B) && UniquelyNamed(nodes) && 1 <= j < |P| - 2
    ensures PathApart(nodes, P, B)
    ensures var st := Stage(nodes, P, B, j); var a := P[j + 1]; var k := |P| - 2;
      && |nodes[a].children| == 2 && nodes[a].children[0] != nodes[a].children[1]
      && s < 2 && nodes[a].children[s] == P[j]
      && ChildrenInArena(st, a) && P[j] < |st| && GetI(st, a, P[j]) == Ok(s)
      && (st[a].parent.Some? <==> j + 1 < k)
      && (j + 1 < k ==> st[a].parent == Some(P[j + 2]))
  {
    SetupApart(nodes, root, P, B);
    SetupFacts(nodes, root, P, B);
    var st := Stage(nodes, P, B, j);
    var a := P[j + 1];
    StageAhead(nodes, P, B, j, j + 1);
    StageNames(nodes, P, B, j);
    assert P[j] in nodes[a].children;
    GetISlot(nodes, a, P[j]);
    GetIAgrees(nodes, st, a, P[j]);
    s := GetI(nodes, a, P[j]).value;
    if j + 1 < |P| - 2 {
      ChainLink(nodes, P, j + 1);
    }
  }

  /** The writes of the last pass, at partA = Pk, complete the re-rooted arena. */
  lemma RerootLastPass(nodes: seq<Node>, P: seq<nat>, B: nat, s: nat)
    requires PathApart(nodes, P, B) && |nodes[P[|P| - 2]].children| == 2
    requires nodes[P[|P| - 2]].children[0] != nodes[P[|P| - 2]].children[1]
    requires s < 2 && nodes[P[|P| - 2]].children[s] == P[|P| - 3]
    ensures var k := |P| - 2; var st := Stage(nodes, P, B, k - 1);
      && P[k] < |st| && s < |st[P[k]].children|
      && SetParent(SetParent(SetSlot(st, P[k], s, B), B, Some(P[k])), P[k], Some(P[k - 1]))
           == Stage(nodes, P, B, k)
  {
    var k := |P| - 2;
    StageAhead(nodes, P, B, k - 1, k);
    LastPassIsRerooted(nodes, P, B, s);
  }

  /** The updates before the loop leave the arena at stage 1. */
  lemma RerootStart(nodes: seq<Node>, root: nat, P: seq<nat>, B: nat)
    requires RerootSetup(nodes, root, P, B) && UniquelyNamed(nodes)
    ensures InArena(nodes, P) && B < |nodes| && P[|P| - 1] == root
    ensures nodes[P[1]].parent == Some(P[2])
    ensures SetChildren(SetParent(SetParent(nodes, P[|P| - 2], None), B, None), root, [P[0], P[1]])[P[1]] == nodes[P[1]]
    ensures var n3 := SetChildren(SetParent(SetParent(nodes, P[|P| - 2], None), B, None), root, [P[0], P[1]]);
      && ChildrenInArena(n3, P[1]) && GetI(n3, P[1], P[0]).Ok?
      && GetI(n3, P[1], P[0]).value < |n3[P[1]].children|
      && SetParent(SetParent(SetSlot(n3, P[1], GetI(n3, P[1], P[0]).value, P[2]), P[0], Some(root)), P[1], Some(root))
           == Stage(nodes, P, B, 1)
  {
    SetupApart(nodes, root, P, B);
    SetupFacts(nodes, root, P, B);
    var n3 := SetChildren(SetParent(SetParent(nodes, P[|P| - 2], None), B, None), root, [P[0], P[1]]);
    assert n3[P[1]] == nodes[P[1]];
    assert P[0] in nodes[P[1]].children;
    GetISlot(nodes, P[1], P[0]);
    GetIAgrees(nodes, n3, P[1], P[0]);
    BeforeLoopIsStageOne(nodes, P, B, GetI(nodes, P[1], P[0]).value);
  }

  /** The early exits of `root_at`, read off the lookup of the name. */
  lemma RootAtByLookup(nodes: seq<Node>, root: nat, name: string)
    requires WellFormed(nodes, root) && Acyclic(nodes)
    ensures var l := Lookup(nodes, root, name); var o := RootAtOutcome(nodes, root, name);
      && (l.Err? ==> o == Err(l.error))
      && (l.Ok? && nodes[l.value].parent.None? ==> o == Err(AttributeError))
      && (l.Ok? && nodes[l.value].parent.Some? && nodes[nodes[l.value].parent.value].name == nodes[root].name ==>
            o == Ok(Unchanged))
  {
  }

  /** Re-rooting renames nothing, so a labelled arena stays labelled. */
  lemma RerootedLabelled(nodes: seq<Node>, P: seq<nat>, B: nat)
    requires InArena(nodes, P) && |P| >= 4 && Labelled(nodes)
    ensures Labelled(Rerooted(nodes, P, B))
  {
    StageNames(nodes, P, B, |P| - 2);
  }

  /** Deeper than depth 2, the outcome is the re-rooted arena, a tree over the same names. */
  lemma RootAtDeep(nodes: seq<Node>, root: nat, x: nat)
    requires WellFormed(nodes, root) && Acyclic(nodes) && UniquelyNamed(nodes) && x < |nodes|
    requires nodes[x].parent.Some? && nodes[x].parent.value != root
    requires |PathToRoot(nodes, x)| >= 4
    ensures var P := PathToRoot(nodes, x); var k := |P| - 2;
      var ns := Rerooted(nodes, P, OtherChild(nodes, root, P[k]));
      && RootAtOutcome(nodes, root, nodes[x].name) == Ok(Moved(ns))
      && WellFormed(ns, root) && Acyclic(ns) && SameNames(ns, nodes)
  {
    RootAtPlanned(nodes, root, x);
    RootAtMoved(nodes, root, nodes[x].name);
  }


  /** `Tree(otree.newick)`: a new tree over the same arena, as nothing is left to label. */
  method Reparse(otree: Tree) returns (tree: Tree)
    requires otree.Valid()
    ensures fresh(tree) && tree.Valid() && tree.nodes == otree.nodes && tree.root == otree.root
  {
    tree := new Tree(otree.nodes, otree.root, "");
    InitializedOfLabelled(otree.nodes, otree.root);
  }

  /**
   * The `while queue` loop of `root_at`: popping (nn, aa), it writes aa's parent, or
   * partB once aa is partA, into the slot of nn, and makes nn the parent of aa.
   */
  method DrainQueue(tree: Tree, queue0: seq<(nat, nat)>, partB: nat, ghost nodes0: seq<Node>, ghost P: seq<nat>)
    requires RerootSetup(nodes0, tree.root, P, partB) && UniquelyNamed(nodes0)
    requires tree.nodes == Stage(nodes0, P, partB, 1) && queue0 == [(P[1], P[2])]
    modifies tree
    ensures tree.root == old(tree.root) && tree.nodes == Rerooted(nodes0, P, partB)
  {
    ghost var k := |P| - 2;
    var queue := queue0;
    ghost var j := 1;
    while queue != []
      invariant 1 <= j <= k && tree.root == old(tree.root)
      invariant tree.nodes == Stage(nodes0, P, partB, j)
      invariant |queue| == (if j < k then 1 else 0)
      invariant j < k ==> queue[0] == (P[j], P[j + 1])
      decreases k - j
    {
      var nn := queue[0].0;
      var aa := queue[0].1;
      queue := queue[1..];
      var pushed := Turn(tree, nn, aa, partB, nodes0, P, j);
      queue := queue + pushed;
      j := j + 1;
    }
  }

  /**
   * One pass of the `while queue` loop on the popped pair (nn, aa) = (Pj, P(j+1)):
   * below partA, aa's parent takes nn's slot and (aa, parent) is queued; at partA,
   * partB takes the slot and hangs from aa. Either way nn becomes aa's parent.
   */
  method Turn(tree: Tree, nn: nat, aa: nat, partB: nat, ghost nodes0: seq<Node>, ghost P: seq<nat>, ghost j: nat)
      returns (pushed: seq<(nat, nat)>)
    requires RerootSetup(nodes0, tree.root, P, partB) && UniquelyNamed(nodes0) && 1 <= j < |P| - 2
    requires tree.nodes == Stage(nodes0, P, partB, j) && nn == P[j] && aa == P[j + 1]
    modifies tree
    ensures tree.root == old(tree.root) && tree.nodes == Stage(nodes0, P, partB, j + 1)
    ensures pushed == if j + 1 < |P| - 2 then [(P[j + 1], P[j + 2])] else []
  {
    ghost var s := RerootPass(nodes0, tree.root, P, partB, j);
    if tree.nodes[aa].parent.Some? {
      var up := tree.nodes[aa].parent.value;
      var i := GetI(tree.nodes, aa, nn);
      StageStep(nodes0, P, partB, j, s);
      tree.nodes := SetSlot(tree.nodes, aa, i.value, up);
      pushed := [(aa, up)];
      tree.nodes := SetParent(tree.nodes, aa, Some(nn));
    } else {
      var i := GetI(tree.nodes, aa, nn);
      RerootLastPass(nodes0, P, partB, s);
      tree.nodes := SetSlot(tree.nodes, aa, i.value, partB);
      tree.nodes := SetParent(tree.nodes, partB, Some(aa));
      tree.nodes := SetParent(tree.nodes, aa, Some(nn));
      pushed := [];
    }
  }

  /**
   * The rewiring on the main path of `root_at`, on the arena of tree: partA and partB
   * are detached, the root takes [node, ancestor], and the loop walks up the path,
   * turning each link around and finally hanging partB below partA.
   */
  method Rewire(tree: Tree, P: seq<nat>, partB: nat)
    requires RerootSetup(tree.nodes, tree.root, P, partB) && UniquelyNamed(tree.nodes)
    modifies tree
    ensures InArena(old(tree.nodes), P)
    ensures tree.root == old(tree.root) && tree.nodes == Rerooted(old(tree.nodes), P, partB)
  {
    ghost var nodes0 := tree.nodes;
    var root := tree.root;
    var k := |P| - 2;
    var node, anc, partA := P[0], P[1], P[k];
    RerootStart(nodes0, root, P, partB);
    tree.nodes := SetParent(tree.nodes, partA, None);
    tree.nodes := SetParent(tree.nodes, partB, None);
    tree.nodes := SetChildren(tree.nodes, root, [node, anc]);
    var queue := [(anc, tree.nodes[anc].parent.value)];
    var up := tree.nodes[anc].parent.value;
    var i := GetI(tree.nodes, anc, node);
    tree.nodes := SetSlot(tree.nodes, anc, i.value, up);
    tree.nodes := SetParent(tree.nodes, node, Some(root));
    tree.nodes := SetParent(tree.nodes, anc, Some(root));
    DrainQueue(tree, queue, partB, nodes0, P);
  }

  /**
   * The second half of `root_at`, for a node whose parent is not the root: split the
   * tree at the root into partA, the side of the node, and partB; at depth 2 stop,
   * deeper rewire the tree in place.
   */
  method RerootBelow(tree: Tree, node: nat) returns (r: Result<Tree, Error>)
    requires tree.Valid() && UniquelyNamed(tree.nodes) && node < |tree.nodes|
    requires tree.nodes[node].parent.Some? && tree.nodes[node].parent.value != tree.root
    modifies tree
    ensures var o := RootAtOutcome(old(tree.nodes), old(tree.root), old(tree.nodes)[node].name);
      && tree.root == old(tree.root)
      && (o.Err? ==> r == Err(o.error))
      && (o.Ok? ==> o.value.Moved? && r == Ok(tree) && tree.Valid() && tree.nodes == o.value.nodes)
  {
    ghost var nodes0 := tree.nodes;
    var root := tree.root;
    var anc := tree.nodes[node].parent.value;
    RerootPlan(nodes0, root, node);
    var P := PathToRoot(tree.nodes, node);
    var partA := P[|P| - 2];
    var partB := OtherChild(tree.nodes, root, partA);
    if tree.nodes[partA].name == tree.nodes[anc].name {
      // depth 2: partA is the parent, and the source's rewiring links it and the root to each other
      RootAtPlanned(nodes0, root, node);
      return Err(Unsupported);
    }
    RootAtDeep(nodes0, root, node);
    RerootedLabelled(nodes0, P, partB);
    Rewire(tree, P, partB);
    return Ok(tree);
  }

  /**
   * `root_at(otree, node_name)`: on a copy of the tree, make the named node and its
   * parent the two children of the root, reversing the path between them and the root
   * and hanging the root's other child partB below partA. Returns the input itself when
   * the parent is the root; the input is never modified.
   */
  method RootAt(otree: Tree, nodeName: string) returns (r: Result<Tree, Error>)
    requires otree.Valid() && UniquelyNamed(otree.nodes)
    ensures unchanged(otree)
    ensures match RootAtOutcome(otree.nodes, otree.root, nodeName)
      case Err(e) => r == Err(e)
      case Ok(Unchanged) => r == Ok(otree)
      case Ok(Moved(ns)) => r.Ok? && fresh(r.value) && r.value.Valid() && r.value.root == otree.root && r.value.nodes == ns
  {
    var tree := Reparse(otree);
    ghost var nodes0 := tree.nodes;
    RootAtByLookup(nodes0, tree.root, nodeName);
    var found := tree.GetItem(nodeName);
    if found.Err? {
      return Err(found.error);
    }
    var node := found.value;
    var root := tree.root;
    var ancestor := tree.nodes[node].parent;
    if ancestor.None? {
      // `ancestor.name` on None
      return Err(AttributeError);
    }
    var anc := ancestor.value;
    if tree.nodes[anc].name == tree.nodes[root].name {
      return Ok(otree);
    }
    r := RerootBelow(tree, node);
  }

  // ---------------------------------------------------------------------------
  // swap_nodes and nearest_neighbor_interchange
  // ---------------------------------------------------------------------------

  /**
   * `swap_nodes(a, b, c, d, ab, cd, direction)` on the arena of tree. Direction 1
   * relinks a below cd and c below ab, then writes c into the slot of ab named like a
   * and a into the slot of cd named like c; directions 2 and 3 do the same for (b, c)
   * and (a, d); any other direction does nothing. When a slot lookup raises IndexError
   * the relinked parents stay.
   */
  method SwapNodes(tree: Tree, a: nat, b: nat, c: nat, d: nat, ab: nat, cd: nat, direction: int)
      returns (err: Option<Error>)
    requires a < |tree.nodes| && b < |tree.nodes| && c < |tree.nodes| && d < |tree.nodes|
    requires ab < |tree.nodes| && cd < |tree.nodes|
    requires ChildrenInArena(tree.nodes, ab) && ChildrenInArena(tree.nodes, cd)
    modifies tree
    ensures tree.root == old(tree.root)
    ensures match SwapOutcome(old(tree.nodes), a, b, c, d, ab, cd, direction)
      case Ok(ns) => err.None? && tree.nodes == ns
      case Err(e) =>
        && err == Some(e) && Selected(a, b, c, d, direction).Some?
        && tree.nodes == Relinked(old(tree.nodes), Selected(a, b, c, d, direction).value.0,
                                  Selected(a, b, c, d, direction).value.1, ab, cd)
    decreases if direction == 1 then 0 else 1
  {
    if direction == 1 {
      tree.nodes := SetParent(tree.nodes, a, Some(cd));
      tree.nodes := SetParent(tree.nodes, c, Some(ab));
      var idxA := GetI(tree.nodes, ab, a);
      if idxA.Err? {
        return Some(idxA.error);
      }
      var idxB := GetI(tree.nodes, cd, c);
      if idxB.Err? {
        return Some(idxB.error);
      }
      tree.nodes := SetSlot(tree.nodes, ab, idxA.value, c);
      tree.nodes := SetSlot(tree.nodes, cd, idxB.value, a);
      return None;
    } else if direction == 2 {
      err := SwapNodes(tree, b, a, c, d, ab, cd, 1);
    } else if direction == 3 {
      err := SwapNodes(tree, a, b, d, c, ab, cd, 1);
    } else {
      err := None;
    }
  }

  /** The early exits of the interchange, read off the lookup of the name. */
  lemma NniByLookup(nodes: seq<Node>, root: nat, name: string, direction: int)
    requires WellFormed(nodes, root) && Acyclic(nodes)
    ensures var l := Lookup(nodes, root, name); var o := NniOutcome(nodes, root, name, direction);
      && (l.Err? ==> o == Err(l.error))
      && (l.Ok? && (|nodes[l.value].children| == 0 || nodes[l.value].parent.None?) ==> o == Err(AssertionError))
  {
  }

  /** Next to the root, a leaf sibling makes the interchange return nothing. */
  lemma NniRootSideLeaf(nodes: seq<Node>, root: nat, x: nat, y: nat, direction: int)
    requires WellFormed(nodes, root) && Acyclic(nodes) && UniquelyNamed(nodes)
    requires x < |nodes| && |nodes[x].children| > 0 && nodes[x].parent == Some(root)
    requires y in nodes[root].children && y != x && |nodes[y].children| == 0
    ensures |nodes[x].children| == 2 && ChildrenInArena(nodes, x) && y < |nodes| && ChildrenInArena(nodes, y)
    ensures NniOutcome(nodes, root, nodes[x].name, direction) == Ok(None)
  {
    NniLeafSibling(nodes, root, x, y, direction);
  }

  /** Next to the root, an internal sibling makes the interchange return the swapped tree, well-formed over the same names. */
  lemma NniRootSideSwap(nodes: seq<Node>, root: nat, x: nat, y: nat, direction: int)
    requires WellFormed(nodes, root) && Acyclic(nodes) && UniquelyNamed(nodes)
    requires x < |nodes| && |nodes[x].children| > 0 && nodes[x].parent == Some(root)
    requires y in nodes[root].children && y != x && |nodes[y].children| > 0
    ensures |nodes[x].children| == 2 && |nodes[y].children| == 2
    ensures ChildrenInArena(nodes, x) && ChildrenInArena(nodes, y)
    ensures var cx, cy := nodes[x].children, nodes[y].children;
      var s := SwapOutcome(nodes, cx[0], cx[1], cy[0], cy[1], x, y, direction);
      && s.Ok? && NniOutcome(nodes, root, nodes[x].name, direction) == Ok(Some(s.value))
      && WellFormed(s.value, root) && Acyclic(s.value) && SameNames(s.value, nodes)
  {
    NniRootBranch(nodes, root, x, y, direction);
    SiblingSwap(nodes, root, x, y, direction);
  }

  /** The swap renames nothing, so it leaves every node named. */
  lemma SwapLabelled(nodes: seq<Node>, a: nat, b: nat, c: nat, d: nat, ab: nat, cd: nat, direction: int)
    requires a < |nodes| && b < |nodes| && c < |nodes| && d < |nodes| && ab < |nodes| && cd < |nodes|
    requires ChildrenInArena(nodes, ab) && ChildrenInArena(nodes, cd) && Labelled(nodes)
    ensures var s := SwapOutcome(nodes, a, b, c, d, ab, cd, direction);
      s.Ok? ==> Labelled(s.value)
  {
  }

  /**
   * The interchange next to the root: with qC, qD the children of the sibling nodeC,
   * `swap_nodes(qA, qB, qC, qD, node, nodeC, direction)`, or nothing for a leaf sibling.
   */
  method InterchangeAtRoot(tree: Tree, node: nat, nodeC: nat, direction: int) returns (r: Result<Option<Tree>, Error>)
    requires node < |tree.nodes| && nodeC < |tree.nodes| && |tree.nodes[node].children| == 2
    requires |tree.nodes[nodeC].children| == 0 || |tree.nodes[nodeC].children| == 2
    requires ChildrenInArena(tree.nodes, node) && ChildrenInArena(tree.nodes, nodeC)
    modifies tree
    ensures tree.root == old(tree.root)
    ensures |old(tree.nodes)[nodeC].children| == 0 ==> r == Ok(None) && tree.nodes == old(tree.nodes)
    ensures var cx, cy := old(tree.nodes)[node].children, old(tree.nodes)[nodeC].children;
      |cy| > 0 ==>
        match SwapOutcome(old(tree.nodes), cx[0], cx[1], cy[0], cy[1], node, nodeC, direction)
        case Ok(ns) => r == Ok(Some(tree)) && tree.nodes == ns
        case Err(e) => r == Err(e)
  {
    var qA, qB := tree.nodes[node].children[0], tree.nodes[node].children[1];
    if |tree.nodes[nodeC].children| == 0 {
      return Ok(None);
    }
    var qC, qD := tree.nodes[nodeC].children[0], tree.nodes[nodeC].children[1];
    var err := SwapNodes(tree, qA, qB, qC, qD, node, nodeC, direction);
    if err.Some? {
      return Err(err.value);
    }
    return Ok(Some(tree));
  }

  /**
   * The interchange further down, as the source writes it: with qC the sibling and qD
   * the grandparent, `swap_nodes(qA, qB, qC, qD, nodeB, node)` looks for qA among the
   * children of nodeB, finds no such slot and raises IndexError.
   */
  method InterchangeBelow(tree: Tree, node: nat) returns (r: Result<Option<Tree>, Error>)
    requires tree.Valid() && UniquelyNamed(tree.nodes) && node < |tree.nodes|
    requires |tree.nodes[node].children| > 0 && tree.nodes[node].parent.Some?
    requires tree.nodes[node].parent != Some(tree.root)
    modifies tree
    ensures tree.root == old(tree.root) && tree.nodes == old(tree.nodes) && r == Err(IndexError)
  {
    var nodeB := tree.nodes[node].parent.value;
    var qA, qB := tree.nodes[node].children[0], tree.nodes[node].children[1];
    NniInnerParent(tree.nodes, tree.root, node, 1);
    var qC := OtherChild(tree.nodes, nodeB, node);
    var qD := tree.nodes[nodeB].parent.value;
    assert tree.nodes[qA].parent == Some(node) && tree.nodes[qC].parent == Some(nodeB);
    RelinkedInPlace(tree.nodes, qA, qC, nodeB, node);
    var err := SwapNodes(tree, qA, qB, qC, qD, nodeB, node, 1);
    return Err(err.value);
  }

  /**
   * The part of the interchange after the lookup, for an internal node below the root:
   * pick the sibling nodeC, the child of nodeB named unlike the node, and branch on
   * whether nodeB is the root.
   */
  method InterchangeAt(tree: Tree, node: nat, direction: int) returns (r: Result<Option<Tree>, Error>)
    requires tree.Valid() && UniquelyNamed(tree.nodes) && node < |tree.nodes|
    requires |tree.nodes[node].children| > 0 && tree.nodes[node].parent.Some?
    modifies tree
    ensures var o := NniOutcome(old(tree.nodes), old(tree.root), old(tree.nodes)[node].name, direction);
      && tree.root == old(tree.root)
      && (o.Err? ==> r == Err(o.error))
      && (o == Ok(None) ==> r == Ok(None))
      && (o.Ok? && o.value.Some? ==> r == Ok(Some(tree)) && tree.Valid() && tree.nodes == o.value.value)
  {
    var nodeB := tree.nodes[node].parent.value;
    var cs := tree.nodes[nodeB].children;
    assert node in cs;
    SiblingFound(tree.nodes, nodeB, node, OtherChild(tree.nodes, nodeB, node));
    var j := FirstOtherIndex(tree.nodes, cs, tree.nodes[node].name).value;
    if tree.nodes[nodeB].name == tree.nodes[tree.root].name {
      var nodeC := cs[j];
      if |tree.nodes[nodeC].children| == 0 {
        NniRootSideLeaf(tree.nodes, tree.root, node, nodeC, direction);
      } else {
        NniRootSideSwap(tree.nodes, tree.root, node, nodeC, direction);
        var cx, cy := tree.nodes[node].children, tree.nodes[nodeC].children;
        SwapLabelled(tree.nodes, cx[0], cx[1], cy[0], cy[1], node, nodeC, direction);
      }
      r := InterchangeAtRoot(tree, node, nodeC, direction);
    } else {
      NniInnerParent(tree.nodes, tree.root, node, direction);
      r := InterchangeBelow(tree, node);
    }
  }

  /**
   * `nearest_neighbor_interchange(old_tree, node_name, direction)`: on a copy of the
   * tree, exchange children of the named internal node with children of its sibling as
   * `direction` selects. The input is never modified.
   */
  method NearestNeighborInterchange(oldTree: Tree, nodeName: string, direction: int)
      returns (r: Result<Option<Tree>, Error>)
    requires oldTree.Valid() && UniquelyNamed(oldTree.nodes)
    ensures unchanged(oldTree)
    ensures match NniOutcome(oldTree.nodes, oldTree.root, nodeName, direction)
      case Err(e) => r == Err(e)
      case Ok(None) => r == Ok(None)
      case Ok(Some(ns)) =>
        && r.Ok? && r.value.Some? && fresh(r.value.value) && r.value.value.Valid()
        && r.value.value.root == oldTree.root && r.value.value.nodes == ns
  {
    var tree := Reparse(oldTree);
    NniByLookup(tree.nodes, tree.root, nodeName, direction);
    var found := tree.GetItem(nodeName);
    if found.Err? {
      return Err(found.error);
    }
    var node := found.value;
    if |tree.nodes[node].children| == 0 || tree.nodes[node].parent.None? {
      return Err(AssertionError);
    }
    r := InterchangeAt(tree, node, direction);
  }
}
