/**
 * The node graph a `newick.Node` tree forms, as an arena: nodes are addressed by
 * their index, each one records its name, its `ancestor` (parent) and its ordered
 * `descendants` (children).
 */
module Arena {
  import opened Wrappers

  /** One node: `name`, `ancestor` (None for the root) and `descendants`. */
  datatype Node = Node(name: string, parent: Option<nat>, children: seq<nat>)

  /** The Python exceptions the operations can raise; Unsupported marks the broken re-rooting case. */
  datatype Error = KeyError | AttributeError | IndexError | AssertionError | Unsupported

  /** Every child index names a node, and that node records the parent that lists it. */
  predicate ChildrenPointBack(nodes: seq<Node>) {
    forall i, k :: 0 <= i < |nodes| && 0 <= k < |nodes[i].children| ==>
      nodes[i].children[k] < |nodes| && nodes[nodes[i].children[k]].parent == Some(i)
  }

  /** Every parent index names a node, and that node lists the child among its children. */
  predicate ParentsAdopt(nodes: seq<Node>) {
    forall i :: 0 <= i < |nodes| && nodes[i].parent.Some? ==>
      nodes[i].parent.value < |nodes| && i in nodes[nodes[i].parent.value].children
  }

  /** Exactly the root has no parent. */
  predicate OnlyRootParentless(nodes: seq<Node>, root: nat) {
    forall i :: 0 <= i < |nodes| ==> (nodes[i].parent.None? <==> i == root)
  }

  /** Every node is a leaf or has exactly two distinct children. */
  predicate Bifurcating(nodes: seq<Node>) {
    forall i :: 0 <= i < |nodes| ==>
      |nodes[i].children| == 0 || (|nodes[i].children| == 2 && nodes[i].children[0] != nodes[i].children[1])
  }

  /** The consistency invariant of a binary tree held in the arena. */
  predicate WellFormed(nodes: seq<Node>, root: nat) {
    && root < |nodes|
    && ChildrenPointBack(nodes)
    && ParentsAdopt(nodes)
    && OnlyRootParentless(nodes, root)
    && Bifurcating(nodes)
  }

  /** Names act as addresses: no two nodes share one. */
  predicate UniquelyNamed(nodes: seq<Node>) {
    forall i, j :: 0 <= i < |nodes| && 0 <= j < |nodes| && nodes[i].name == nodes[j].name ==> i == j
  }

  /** Every node has a non-empty name, as after a labelling pass. */
  predicate Labelled(nodes: seq<Node>) {
    forall i :: 0 <= i < |nodes| ==> nodes[i].name != ""
  }

  /** The child indices of node a are all in the arena. */
  predicate ChildrenInArena(nodes: seq<Node>, a: nat)
    requires a < |nodes|
  {
    forall k :: 0 <= k < |nodes[a].children| ==> nodes[a].children[k] < |nodes|
  }

  /** Every entry of order is a node of the arena. */
  predicate InArena(nodes: seq<Node>, order: seq<nat>) {
    forall k :: 0 <= k < |order| ==> order[k] < |nodes|
  }

  /** No entry of order occurs twice. */
  predicate Distinct(order: seq<nat>) {
    forall a, b :: 0 <= a < b < |order| ==> order[a] != order[b]
  }

  /** Consecutive entries of ps are child and parent, and the last one has no parent. */
  predicate ParentChain(nodes: seq<Node>, ps: seq<nat>) {
    && |ps| >= 1
    && (forall m :: 0 <= m < |ps| ==> ps[m] < |nodes|)
    && (forall m :: 0 <= m < |ps| - 1 ==> nodes[ps[m]].parent == Some(ps[m + 1]))
    && nodes[ps[|ps| - 1]].parent.None?
  }

  /**
   * The chain of `ancestor` links from node i up to a parentless node, following at
   * most `fuel` links; None when the chain is longer (or cyclic) or leaves the arena.
   */
  function PathUp(nodes: seq<Node>, i: nat, fuel: nat): (r: Option<seq<nat>>)
    ensures r.Some? ==> ParentChain(nodes, r.value) && r.value[0] == i && |r.value| <= fuel + 1
    decreases fuel
  {
    if i >= |nodes| then None
    else match nodes[i].parent
      case None => Some([i])
      case Some(p) =>
        if fuel == 0 then None
        else match PathUp(nodes, p, fuel - 1)
          case None => None
          case Some(ps) => Some([i] + ps)
  }

  /** Following parents from any node reaches a parentless node: there is no cycle. */
  predicate Acyclic(nodes: seq<Node>) {
    forall i :: 0 <= i < |nodes| ==> PathUp(nodes, i, |nodes|).Some?
  }

  /** Each entry of a parent chain is the last one or hangs from the next. */
  lemma ChainLink(nodes: seq<Node>, ps: seq<nat>, t: nat)
    requires ParentChain(nodes, ps) && t < |ps|
    ensures t + 1 == |ps| || nodes[ps[t]].parent == Some(ps[t + 1])
  {
  }

  /** A chain of parent links never visits a node twice. */
  lemma {:induction false} ParentChainDistinct(nodes: seq<Node>, ps: seq<nat>, a: nat, b: nat)
    requires ParentChain(nodes, ps)
    requires a < b < |ps|
    ensures ps[a] != ps[b]
    decreases |ps| - b
  {
    if b < |ps| - 1 {
      ParentChainDistinct(nodes, ps, a + 1, b + 1);
    } else {
      assert nodes[ps[a]].parent == Some(ps[a + 1]);
    }
  }

  /** In a well-formed arena every parent chain ends at the root. */
  lemma ParentChainEndsAtRoot(nodes: seq<Node>, root: nat, ps: seq<nat>)
    requires OnlyRootParentless(nodes, root) && ParentChain(nodes, ps)
    ensures ps[|ps| - 1] == root
  {
  }

  /**
   * Pre-order traversal (`Node.walk()`): the node, then each child's traversal in
   * order. Fuel bounds the depth; with fuel |nodes| an acyclic arena is walked whole.
   */
  function Preorder(nodes: seq<Node>, i: nat, fuel: nat): (order: seq<nat>)
    ensures InArena(nodes, order)
    ensures |order| > 0 ==> order[0] == i
    ensures fuel > 0 && i < |nodes| ==> |order| > 0
    decreases fuel, 0
  {
    if fuel == 0 || i >= |nodes| then [] else [i] + PreorderAll(nodes, nodes[i].children, fuel - 1)
  }

  /** The traversals of the children cs, one after another. */
  function PreorderAll(nodes: seq<Node>, cs: seq<nat>, fuel: nat): (order: seq<nat>)
    ensures InArena(nodes, order)
    decreases fuel, 1, |cs|
  {
    if cs == [] then [] else Preorder(nodes, cs[0], fuel) + PreorderAll(nodes, cs[1..], fuel)
  }

  /** The visiting order of `tree.root.walk()`. */
  function Walk(nodes: seq<Node>, root: nat): seq<nat> {
    Preorder(nodes, root, |nodes|)
  }

  /** The arena with the same shape: equal length, parents and children. */
  predicate SameShape(nodes: seq<Node>, nodes': seq<Node>) {
    && |nodes| == |nodes'|
    && forall i :: 0 <= i < |nodes| ==> nodes[i].parent == nodes'[i].parent && nodes[i].children == nodes'[i].children
  }

  /** The traversal reads only the children: renaming nodes leaves it as it was. */
  lemma {:induction false} PreorderIgnoresNames(nodes: seq<Node>, nodes': seq<Node>, i: nat, fuel: nat)
    requires SameShape(nodes, nodes')
    ensures Preorder(nodes, i, fuel) == Preorder(nodes', i, fuel)
    decreases fuel, 0
  {
    if fuel > 0 && i < |nodes| {
      PreorderAllIgnoresNames(nodes, nodes', nodes[i].children, fuel - 1);
    }
  }

  lemma {:induction false} PreorderAllIgnoresNames(nodes: seq<Node>, nodes': seq<Node>, cs: seq<nat>, fuel: nat)
    requires SameShape(nodes, nodes')
    ensures PreorderAll(nodes, cs, fuel) == PreorderAll(nodes', cs, fuel)
    decreases fuel, 1, |cs|
  {
    if cs != [] {
      PreorderIgnoresNames(nodes, nodes', cs[0], fuel);
      PreorderAllIgnoresNames(nodes, nodes', cs[1..], fuel);
    }
  }

  /** A node the traversal of cs reaches is reached from one child in cs. */
  lemma {:induction false} PreorderAllMember(nodes: seq<Node>, cs: seq<nat>, fuel: nat, x: nat) returns (j: nat)
    requires x in PreorderAll(nodes, cs, fuel)
    ensures j < |cs| && x in Preorder(nodes, cs[j], fuel)
    decreases |cs|
  {
    if x in Preorder(nodes, cs[0], fuel) {
      j := 0;
    } else {
      var j' := PreorderAllMember(nodes, cs[1..], fuel, x);
      j := j' + 1;
    }
  }

  /** The traversal from c reaches only nodes whose parent chain passes through c. */
  lemma {:induction false} PreorderReachesDescendants(nodes: seq<Node>, c: nat, fuel: nat, x: nat, ps: seq<nat>)
    requires ChildrenPointBack(nodes) && ParentChain(nodes, ps) && ps[0] == x
    requires x in Preorder(nodes, c, fuel)
    ensures c in ps
    decreases fuel
  {
    if x != c {
      var cs := nodes[c].children;
      var j := PreorderAllMember(nodes, cs, fuel - 1, x);
      PreorderReachesDescendants(nodes, cs[j], fuel - 1, x, ps);
      var a :| 0 <= a < |ps| && ps[a] == cs[j];
      assert nodes[cs[j]].parent == Some(c);
      assert ps[a + 1] == c;
    }
  }

  /** Joining two repetition-free sequences with no common entry is repetition-free. */
  lemma DistinctConcat(a: seq<nat>, b: seq<nat>)
    requires Distinct(a) && Distinct(b)
    requires forall x :: x in a ==> x !in b
    ensures Distinct(a + b)
  {
    forall m, n | 0 <= m < n < |a + b|
      ensures (a + b)[m] != (a + b)[n]
    {
      if n >= |a| && m < |a| {
        assert (a + b)[m] in a && (a + b)[n] in b;
      } else if m >= |a| {
        assert (a + b)[m] == b[m - |a|] && (a + b)[n] == b[n - |a|];
      }
    }
  }

  /** Without cycles a node is not reached again from its own children. */
  lemma NotBelowItself(nodes: seq<Node>, i: nat, fuel: nat)
    requires ChildrenPointBack(nodes) && Acyclic(nodes) && i < |nodes|
    ensures i !in PreorderAll(nodes, nodes[i].children, fuel)
  {
    var cs := nodes[i].children;
    if i in PreorderAll(nodes, cs, fuel) {
      var j := PreorderAllMember(nodes, cs, fuel, i);
      var ps := PathUp(nodes, i, |nodes|).value;
      PreorderReachesDescendants(nodes, cs[j], fuel, i, ps);
      var a :| 0 <= a < |ps| && ps[a] == cs[j];
      assert nodes[cs[j]].parent == Some(i);
      ParentChainDistinct(nodes, ps, 0, a + 1);
    }
  }

  /** In a binary arena without cycles the traversal visits no node twice. */
  lemma {:induction false} PreorderDistinct(nodes: seq<Node>, i: nat, fuel: nat)
    requires ChildrenPointBack(nodes) && Bifurcating(nodes) && Acyclic(nodes)
    ensures Distinct(Preorder(nodes, i, fuel))
    decreases fuel, 0
  {
    if fuel > 0 && i < |nodes| {
      var cs := nodes[i].children;
      PreorderAllDistinct(nodes, cs, fuel - 1, i);
      var below := PreorderAll(nodes, cs, fuel - 1);
      NotBelowItself(nodes, i, fuel - 1);
      assert Distinct([i]);
      DistinctConcat([i], below);
    }
  }

  /** The traversals of distinct siblings neither repeat nodes nor overlap. */
  lemma {:induction false} PreorderAllDistinct(nodes: seq<Node>, cs: seq<nat>, fuel: nat, p: nat)
    requires ChildrenPointBack(nodes) && Bifurcating(nodes) && Acyclic(nodes)
    requires Distinct(cs) && forall k :: 0 <= k < |cs| ==> cs[k] < |nodes| && nodes[cs[k]].parent == Some(p)
    ensures Distinct(PreorderAll(nodes, cs, fuel))
    decreases fuel, 1, |cs|
  {
    if cs != [] {
      PreorderDistinct(nodes, cs[0], fuel);
      var rest := cs[1..];
      assert Distinct(rest) by {
        forall a, b | 0 <= a < b < |rest|
          ensures rest[a] != rest[b]
        {
          assert rest[a] == cs[a + 1] && rest[b] == cs[b + 1];
        }
      }
      PreorderAllDistinct(nodes, rest, fuel, p);
      var first := Preorder(nodes, cs[0], fuel);
      var later := PreorderAll(nodes, rest, fuel);
      forall x | x in first
        ensures x !in later
      {
        if x in later {
          var j := PreorderAllMember(nodes, rest, fuel, x);
          var ps := PathUp(nodes, x, |nodes|).value;
          PreorderReachesDescendants(nodes, cs[0], fuel, x, ps);
          PreorderReachesDescendants(nodes, rest[j], fuel, x, ps);
          var a :| 0 <= a < |ps| && ps[a] == cs[0];
          var b :| 0 <= b < |ps| && ps[b] == rest[j];
          assert rest[j] == cs[j + 1];
          assert ps[a + 1] == p && ps[b + 1] == p;
          if a < b {
            ParentChainDistinct(nodes, ps, a + 1, b + 1);
          } else if b < a {
            ParentChainDistinct(nodes, ps, b + 1, a + 1);
          }
        }
      }
      DistinctConcat(first, later);
    }
  }

  /** The walk of a well-formed acyclic tree visits no node twice. */
  lemma WalkDistinct(nodes: seq<Node>, root: nat)
    requires WellFormed(nodes, root) && Acyclic(nodes)
    ensures Distinct(Walk(nodes, root))
  {
    PreorderDistinct(nodes, root, |nodes|);
  }

  /**
   * The first position in order whose node carries the name, or None: the scan of
   * `__contains__` / `__getitem__`.
   */
  function FindAt(nodes: seq<Node>, order: seq<nat>, name: string): (r: Option<nat>)
    requires InArena(nodes, order)
    ensures r.Some? ==> r.value < |order| && nodes[order[r.value]].name == name
    ensures r.Some? ==> forall k :: 0 <= k < r.value ==> nodes[order[k]].name != name
    ensures r.None? ==> forall k :: 0 <= k < |order| ==> nodes[order[k]].name != name
  {
    if order == [] then None
    else if nodes[order[0]].name == name then Some(0)
    else match FindAt(nodes, order[1..], name)
      case None => None
      case Some(k) => Some(k + 1)
  }

  /** The scan stops at the first position carrying the name. */
  lemma {:induction false} FindAtFirst(nodes: seq<Node>, order: seq<nat>, name: string, k: nat)
    requires InArena(nodes, order) && k < |order| && nodes[order[k]].name == name
    requires forall t :: 0 <= t < k ==> nodes[order[t]].name != name
    ensures FindAt(nodes, order, name) == Some(k)
    decreases k
  {
    if k > 0 {
      FindAtFirst(nodes, order[1..], name, k - 1);
    }
  }

  /** With unique names, the scan finds exactly the node carrying the name. */
  lemma FindUnique(nodes: seq<Node>, order: seq<nat>, k: nat)
    requires UniquelyNamed(nodes)
    requires InArena(nodes, order) && k < |order|
    ensures FindAt(nodes, order, nodes[order[k]].name).Some?
    ensures order[FindAt(nodes, order, nodes[order[k]].name).value] == order[k]
  {
  }

  /** The child list with every occurrence of `from` replaced by `to` (a slot overwrite). */
  function Replace(cs: seq<nat>, from: nat, to: nat): seq<nat> {
    seq(|cs|, k requires 0 <= k < |cs| => if cs[k] == from then to else cs[k])
  }

  /**
   * `get_i(nodeA, nodeB)`: the slot among the first two children of node a whose
   * name is b's. Both slots are read, so fewer than two children raise IndexError,
   * and so does a name present in neither slot.
   */
  function GetI(nodes: seq<Node>, a: nat, b: nat): (r: Result<nat, Error>)
    requires a < |nodes| && b < |nodes| && ChildrenInArena(nodes, a)
    ensures r.Ok? <==> (|nodes[a].children| >= 2 &&
      (nodes[nodes[a].children[0]].name == nodes[b].name || nodes[nodes[a].children[1]].name == nodes[b].name))
    ensures r.Ok? ==> r.value < 2 && nodes[nodes[a].children[r.value]].name == nodes[b].name
    ensures r.Ok? && r.value == 1 ==> nodes[nodes[a].children[0]].name != nodes[b].name
    ensures r.Err? ==> r.error == IndexError
  {
    var cs := nodes[a].children;
    if |cs| < 2 then Err(IndexError)
    else if nodes[cs[0]].name == nodes[b].name then Ok(0)
    else if nodes[cs[1]].name == nodes[b].name then Ok(1)
    else Err(IndexError)
  }

  /** With unique names and two children, get_i returns the slot that holds b. */
  lemma GetISlot(nodes: seq<Node>, a: nat, b: nat)
    requires a < |nodes| && b < |nodes| && ChildrenInArena(nodes, a)
    requires UniquelyNamed(nodes) && |nodes[a].children| == 2 && b in nodes[a].children
    ensures GetI(nodes, a, b).Ok? && nodes[a].children[GetI(nodes, a, b).value] == b
  {
  }

  /** Overwriting the slot of a child that occurs once is replacing that child. */
  lemma SlotWriteIsReplace(cs: seq<nat>, s: nat, to: nat)
    requires s < |cs| == 2 && cs[0] != cs[1]
    ensures cs[s := to] == Replace(cs, cs[s], to)
  {
    assert forall k :: 0 <= k < 2 ==> cs[s := to][k] == Replace(cs, cs[s], to)[k];
  }

  /** After replacing `from` by `to`, `to` is present if `from` was, and every other child stays. */
  lemma ReplaceMembers(cs: seq<nat>, from: nat, to: nat, x: nat)
    requires x in cs
    ensures x == from ==> to in Replace(cs, from, to)
    ensures x != from ==> x in Replace(cs, from, to)
  {
    var k :| 0 <= k < |cs| && cs[k] == x;
    assert Replace(cs, from, to)[k] == if x == from then to else x;
  }

  /** `node.ancestor = p` on node i. */
  function SetParent(nodes: seq<Node>, i: nat, p: Option<nat>): seq<Node>
    requires i < |nodes|
  {
    nodes[i := nodes[i].(parent := p)]
  }

  /** `node.descendants = cs` on node i. */
  function SetChildren(nodes: seq<Node>, i: nat, cs: seq<nat>): seq<Node>
    requires i < |nodes|
  {
    nodes[i := nodes[i].(children := cs)]
  }

  /** `node.descendants[s] = c` on node i. */
  function SetSlot(nodes: seq<Node>, i: nat, s: nat, c: nat): seq<Node>
    requires i < |nodes| && s < |nodes[i].children|
  {
    nodes[i := nodes[i].(children := nodes[i].children[s := c])]
  }

  /** Node by node, the two arenas carry the same names. */
  predicate SameNames(a: seq<Node>, b: seq<Node>) {
    |a| == |b| && forall i :: 0 <= i < |a| ==> a[i].name == b[i].name
  }

  /** Renaming nothing keeps names unique. */
  lemma SameNamesUnique(a: seq<Node>, b: seq<Node>)
    requires SameNames(a, b) && UniquelyNamed(b)
    ensures UniquelyNamed(a)
  {
    forall i, j | 0 <= i < |a| && 0 <= j < |a| && a[i].name == a[j].name
      ensures i == j
    {
      assert b[i].name == b[j].name;
    }
  }

  /** get_i reads only names and the child list of its first argument. */
  lemma GetIAgrees(nodes: seq<Node>, nodes': seq<Node>, a: nat, b: nat)
    requires SameNames(nodes, nodes') && a < |nodes| && b < |nodes| && ChildrenInArena(nodes, a)
    requires nodes'[a].children == nodes[a].children
    ensures ChildrenInArena(nodes', a) && GetI(nodes', a, b) == GetI(nodes, a, b)
  {
  }

  /** A repetition-free sequence of values below n has at most n entries. */
  lemma {:induction false} DistinctBounded(s: seq<nat>, n: nat)
    requires Distinct(s) && forall k :: 0 <= k < |s| ==> s[k] < n
    ensures |s| <= n
    decreases n
  {
    if |s| > 0 {
      assert s[0] < n;
      var last := s[|s| - 1];
      var init := s[..|s| - 1];
      if last == n - 1 {
        assert forall k :: 0 <= k < |init| ==> init[k] < n - 1 by {
          forall k | 0 <= k < |init| ensures init[k] < n - 1 {
            assert init[k] == s[k] && s[k] != s[|s| - 1];
          }
        }
        DistinctBounded(init, n - 1);
      } else if exists i :: 0 <= i < |init| && init[i] == n - 1 {
        var i :| 0 <= i < |init| && init[i] == n - 1;
        var s' := init[i := last];
        forall a, b | 0 <= a < b < |s'|
          ensures s'[a] != s'[b]
        {
          assert s[a] != s[b] && s[a] != s[|s| - 1] && s[b] != s[|s| - 1];
        }
        forall k | 0 <= k < |s'|
          ensures s'[k] < n - 1
        {
          if k != i {
            assert s[k] != s[i];
          }
        }
        DistinctBounded(s', n - 1);
      } else {
        forall k | 0 <= k < |s|
          ensures s[k] < n - 1
        {
          if k < |init| {
            assert init[k] == s[k];
          }
        }
        DistinctBounded(s, n - 1);
      }
    }
  }

  /** A node the traversal of cs[j] reaches is reached by the traversal of cs. */
  lemma {:induction false} PreorderAllHas(nodes: seq<Node>, cs: seq<nat>, fuel: nat, j: nat, x: nat)
    requires j < |cs| && x in Preorder(nodes, cs[j], fuel)
    ensures x in PreorderAll(nodes, cs, fuel)
    decreases |cs|
  {
    if j > 0 {
      PreorderAllHas(nodes, cs[1..], fuel, j - 1, x);
    }
  }

  /** With enough fuel, the traversal from ps[t] reaches ps[0] along the parent links of ps. */
  lemma {:induction false} PreorderReachesChain(nodes: seq<Node>, ps: seq<nat>, t: nat, fuel: nat)
    requires ParentsAdopt(nodes) && t < |ps| && t < fuel
    requires forall m :: 0 <= m < |ps| ==> ps[m] < |nodes|
    requires forall m :: 0 <= m < t ==> nodes[ps[m]].parent == Some(ps[m + 1])
    ensures ps[0] in Preorder(nodes, ps[t], fuel)
    decreases t
  {
    if t > 0 {
      PreorderReachesChain(nodes, ps, t - 1, fuel - 1);
      var cs := nodes[ps[t]].children;
      assert nodes[ps[t - 1]].parent == Some(ps[t]);
      assert ps[t - 1] in cs;
      var j :| 0 <= j < |cs| && cs[j] == ps[t - 1];
      PreorderAllHas(nodes, cs, fuel - 1, j, ps[0]);
    }
  }

  /** In a well-formed acyclic arena the walk from the root visits every node. */
  lemma WalkCoversArena(nodes: seq<Node>, root: nat, x: nat)
    requires WellFormed(nodes, root) && Acyclic(nodes) && x < |nodes|
    ensures x in Walk(nodes, root)
  {
    var ps := PathUp(nodes, x, |nodes|).value;
    ParentChainEndsAtRoot(nodes, root, ps);
    forall a, b | 0 <= a < b < |ps|
      ensures ps[a] != ps[b]
    {
      ParentChainDistinct(nodes, ps, a, b);
    }
    DistinctBounded(ps, |nodes|);
    PreorderReachesChain(nodes, ps, |ps| - 1, |nodes|);
  }

  /** The number of nodes on the chain from i up to the root, 0 outside an acyclic arena. */
  function Depth(nodes: seq<Node>, i: nat): nat {
    if i < |nodes| && PathUp(nodes, i, |nodes|).Some? then |PathUp(nodes, i, |nodes|).value| else 0
  }

  /** Following parents from i yields a parent chain when some rank drops along every link. */
  lemma {:induction false} RankedChain(nodes: seq<Node>, rank: nat -> nat, i: nat) returns (ps: seq<nat>)
    requires i < |nodes|
    requires forall j :: 0 <= j < |nodes| && nodes[j].parent.Some? ==>
      nodes[j].parent.value < |nodes| && rank(nodes[j].parent.value) < rank(j)
    ensures ParentChain(nodes, ps) && ps[0] == i
    decreases rank(i)
  {
    match nodes[i].parent
    case None =>
      ps := [i];
    case Some(p) =>
      var qs := RankedChain(nodes, rank, p);
      ps := [i] + qs;
  }

  /** A parent chain no longer than fuel + 1 is what PathUp returns. */
  lemma {:induction false} ChainIsPathUp(nodes: seq<Node>, ps: seq<nat>, fuel: nat)
    requires ParentChain(nodes, ps) && |ps| <= fuel + 1
    ensures PathUp(nodes, ps[0], fuel) == Some(ps)
    decreases |ps|
  {
    if |ps| > 1 {
      assert nodes[ps[0]].parent == Some(ps[1]);
      assert ParentChain(nodes, ps[1..]);
      ChainIsPathUp(nodes, ps[1..], fuel - 1);
      assert [ps[0]] + ps[1..] == ps;
    } else {
      assert nodes[ps[0]].parent.None? && ps == [ps[0]];
    }
  }

  /** A parent chain is at most as long as the arena. */
  lemma ChainBounded(nodes: seq<Node>, ps: seq<nat>)
    requires ParentChain(nodes, ps)
    ensures |ps| <= |nodes|
  {
    forall a, b | 0 <= a < b < |ps|
      ensures ps[a] != ps[b]
    {
      ParentChainDistinct(nodes, ps, a, b);
    }
    DistinctBounded(ps, |nodes|);
  }

  /** An arena in which some rank drops along every parent link has no cycle. */
  lemma RankedAcyclic(nodes: seq<Node>, rank: nat -> nat)
    requires forall j :: 0 <= j < |nodes| && nodes[j].parent.Some? ==>
      nodes[j].parent.value < |nodes| && rank(nodes[j].parent.value) < rank(j)
    ensures Acyclic(nodes)
  {
    forall i | 0 <= i < |nodes|
      ensures PathUp(nodes, i, |nodes|).Some?
    {
      var ps := RankedChain(nodes, rank, i);
      ChainBounded(nodes, ps);
      ChainIsPathUp(nodes, ps, |nodes|);
    }
  }

  /** In an acyclic arena a node lies one level below its parent. */
  lemma DepthStep(nodes: seq<Node>, i: nat, p: nat)
    requires Acyclic(nodes) && i < |nodes| && nodes[i].parent == Some(p)
    ensures p < |nodes| && Depth(nodes, i) == Depth(nodes, p) + 1
  {
    var ps := PathUp(nodes, i, |nodes|).value;
    assert ps[1] == p;
    var qs := PathUp(nodes, p, |nodes|).value;
    ChainBounded(nodes, qs);
    ChainIsPathUp(nodes, qs, |nodes| - 1);
  }

  /** Depth is a rank that drops along every parent link of an acyclic arena. */
  lemma DepthRanks(nodes: seq<Node>)
    requires Acyclic(nodes)
    ensures forall j :: 0 <= j < |nodes| && nodes[j].parent.Some? ==>
      nodes[j].parent.value < |nodes| && Depth(nodes, nodes[j].parent.value) < Depth(nodes, j)
  {
    forall j | 0 <= j < |nodes| && nodes[j].parent.Some?
      ensures nodes[j].parent.value < |nodes| && Depth(nodes, nodes[j].parent.value) < Depth(nodes, j)
    {
      DepthStep(nodes, j, nodes[j].parent.value);
    }
  }

  /** With unique names, looking a node's name up in the walk finds that node. */
  lemma FindInWalk(nodes: seq<Node>, root: nat, x: nat)
    requires WellFormed(nodes, root) && Acyclic(nodes) && UniquelyNamed(nodes) && x < |nodes|
    ensures var order := Walk(nodes, root); var f := FindAt(nodes, order, nodes[x].name);
      f.Some? && order[f.value] == x
  {
    var order := Walk(nodes, root);
    WalkCoversArena(nodes, root, x);
    var k :| 0 <= k < |order| && order[k] == x;
    FindUnique(nodes, order, k);
  }

  /** In a well-formed acyclic arena the walk misses a name exactly when no node carries it. */
  lemma WalkMisses(nodes: seq<Node>, root: nat, name: string)
    requires WellFormed(nodes, root) && Acyclic(nodes)
    ensures FindAt(nodes, Walk(nodes, root), name).None? <==> forall i :: 0 <= i < |nodes| ==> nodes[i].name != name
  {
    var order := Walk(nodes, root);
    if FindAt(nodes, order, name).None? {
      forall i | 0 <= i < |nodes|
        ensures nodes[i].name != name
      {
        WalkCoversArena(nodes, root, i);
        var k :| 0 <= k < |order| && order[k] == i;
      }
    }
  }

  /** The first child of a two-child node p that is not a: the sibling of a child a. */
  function OtherChild(nodes: seq<Node>, p: nat, a: nat): (b: nat)
    requires p < |nodes| && |nodes[p].children| == 2
    ensures b in nodes[p].children
    ensures nodes[p].children[0] != nodes[p].children[1] ==> b != a
    ensures a in nodes[p].children && b != a ==> nodes[p].children == [a, b] || nodes[p].children == [b, a]
  {
    if nodes[p].children[0] != a then nodes[p].children[0] else nodes[p].children[1]
  }

  /** The chain of parents reads only parent links. */
  lemma {:induction false} PathUpIgnoresNames(nodes: seq<Node>, nodes': seq<Node>, i: nat, fuel: nat)
    requires SameShape(nodes, nodes')
    ensures PathUp(nodes, i, fuel) == PathUp(nodes', i, fuel)
    decreases fuel
  {
    if i < |nodes| && nodes[i].parent.Some? && fuel > 0 {
      PathUpIgnoresNames(nodes, nodes', nodes[i].parent.value, fuel - 1);
    }
  }

  /** Well-formedness and acyclicity depend on the shape alone, not on the names. */
  lemma SameShapeTree(nodes: seq<Node>, nodes': seq<Node>, root: nat)
    requires SameShape(nodes, nodes')
    ensures WellFormed(nodes, root) <==> WellFormed(nodes', root)
    ensures Acyclic(nodes) <==> Acyclic(nodes')
  {
    forall i | 0 <= i < |nodes|
      ensures PathUp(nodes, i, |nodes|) == PathUp(nodes', i, |nodes'|)
    {
      PathUpIgnoresNames(nodes, nodes', i, |nodes|);
    }
  }
}
