/**
 * `swap_nodes` and `nearest_neighbor_interchange` (src/pylotree.py): two subtrees
 * change places across an edge by overwriting one child slot in each anchor and
 * the two parent links.
 */
module Interchange {
  import opened Wrappers
  import opened Arena

  /** The first line of `swap_nodes`: `a.ancestor, c.ancestor = cd, ab`, before any slot is looked up. */
  function Relinked(nodes: seq<Node>, a: nat, c: nat, ab: nat, cd: nat): (r: seq<Node>)
    requires a < |nodes| && c < |nodes|
    ensures SameNames(r, nodes)
    ensures forall i :: 0 <= i < |nodes| ==> r[i].children == nodes[i].children
    ensures r[c].parent == Some(ab) && (a != c ==> r[a].parent == Some(cd))
    ensures forall i :: 0 <= i < |nodes| && i != a && i != c ==> r[i] == nodes[i]
  {
    SetParent(SetParent(nodes, a, Some(cd)), c, Some(ab))
  }

  /** Relinking nodes that already hang from the anchors they are sent to changes nothing. */
  lemma RelinkedInPlace(nodes: seq<Node>, a: nat, c: nat, ab: nat, cd: nat)
    requires a < |nodes| && c < |nodes|
    requires nodes[a].parent == Some(cd) && nodes[c].parent == Some(ab)
    ensures Relinked(nodes, a, c, ab, cd) == nodes
  {
    var r := Relinked(nodes, a, c, ab, cd);
    assert r[a] == nodes[a] && r[c] == nodes[c];
  }

  /**
   * `swap_nodes(a, b, c, d, ab, cd)` with direction 1: after the parent links are
   * relinked, the slot of ab whose child is named like a receives c, and the slot of
   * cd whose child is named like c receives a. A lookup that finds no such slot
   * raises IndexError.
   */
  function Exchange(nodes: seq<Node>, a: nat, c: nat, ab: nat, cd: nat): (r: Result<seq<Node>, Error>)
    requires a < |nodes| && c < |nodes| && ab < |nodes| && cd < |nodes|
    requires ChildrenInArena(nodes, ab) && ChildrenInArena(nodes, cd)
    ensures r.Err? <==> GetI(nodes, ab, a).Err? || GetI(nodes, cd, c).Err?
    ensures r.Err? ==> r.error == IndexError
    ensures r.Ok? ==> SameNames(r.value, nodes)
  {
    var n := Relinked(nodes, a, c, ab, cd);
    GetIAgrees(nodes, n, ab, a);
    GetIAgrees(nodes, n, cd, c);
    match GetI(n, ab, a)
    case Err(e) => Err(e)
    case Ok(ia) =>
      match GetI(n, cd, c)
      case Err(e) => Err(e)
      case Ok(ic) => Ok(SetSlot(SetSlot(n, ab, ia, c), cd, ic, a))
  }

  /** The pair `swap_nodes` exchanges: direction 2 puts b first, direction 3 puts d third. */
  function Selected(a: nat, b: nat, c: nat, d: nat, direction: int): Option<(nat, nat)> {
    if direction == 1 then Some((a, c))
    else if direction == 2 then Some((b, c))
    else if direction == 3 then Some((a, d))
    else None
  }

  /** `swap_nodes` for any direction; a direction other than 1, 2 and 3 changes nothing. */
  function SwapOutcome(nodes: seq<Node>, a: nat, b: nat, c: nat, d: nat, ab: nat, cd: nat, direction: int): (r: Result<seq<Node>, Error>)
    requires a < |nodes| && b < |nodes| && c < |nodes| && d < |nodes| && ab < |nodes| && cd < |nodes|
    requires ChildrenInArena(nodes, ab) && ChildrenInArena(nodes, cd)
    ensures direction !in {1, 2, 3} ==> r == Ok(nodes)
    ensures r.Err? ==> r.error == IndexError
    ensures r.Ok? ==> SameNames(r.value, nodes)
  {
    match Selected(a, b, c, d, direction)
    case None => Ok(nodes)
    case Some((x, y)) => Exchange(nodes, x, y, ab, cd)
  }

  /**
   * The setting in which an exchange is meaningful: a is a child of ab, c a child of
   * cd, and the four nodes are pairwise distinct.
   */
  predicate Exchangeable(nodes: seq<Node>, root: nat, a: nat, c: nat, ab: nat, cd: nat) {
    && WellFormed(nodes, root) && UniquelyNamed(nodes)
    && a < |nodes| && c < |nodes| && ab < |nodes| && cd < |nodes|
    && a in nodes[ab].children && c in nodes[cd].children
    && a != ab && a != cd && c != ab && c != cd && ab != cd
  }

  /** The arena ns is nodes with a and c exchanged between the anchors ab and cd. */
  predicate Swapped(nodes: seq<Node>, ns: seq<Node>, a: nat, c: nat, ab: nat, cd: nat)
    requires a < |nodes| && c < |nodes| && ab < |nodes| && cd < |nodes|
  {
    && |ns| == |nodes|
    && ns[ab] == nodes[ab].(children := Replace(nodes[ab].children, a, c))
    && ns[cd] == nodes[cd].(children := Replace(nodes[cd].children, c, a))
    && ns[a] == nodes[a].(parent := Some(cd))
    && ns[c] == nodes[c].(parent := Some(ab))
    && forall i :: 0 <= i < |nodes| && i != a && i != c && i != ab && i != cd ==> ns[i] == nodes[i]
  }

  /** The facts about an exchangeable setting the lemmas below rely on. */
  lemma ExchangeableFacts(nodes: seq<Node>, root: nat, a: nat, c: nat, ab: nat, cd: nat)
    requires Exchangeable(nodes, root, a, c, ab, cd)
    ensures |nodes[ab].children| == 2 && nodes[ab].children[0] != nodes[ab].children[1]
    ensures |nodes[cd].children| == 2 && nodes[cd].children[0] != nodes[cd].children[1]
    ensures nodes[a].parent == Some(ab) && nodes[c].parent == Some(cd) && a != c
    ensures c !in nodes[ab].children && a !in nodes[cd].children
    ensures ChildrenInArena(nodes, ab) && ChildrenInArena(nodes, cd)
  {
  }

  /**
   * direction 1 succeeds: c takes a's slot in ab, a takes c's slot in cd, the two
   * parent links follow, and every other slot, link and name stays.
   */
  lemma ExchangeLinks(nodes: seq<Node>, root: nat, a: nat, c: nat, ab: nat, cd: nat)
    requires Exchangeable(nodes, root, a, c, ab, cd)
    ensures ChildrenInArena(nodes, ab) && ChildrenInArena(nodes, cd)
    ensures Exchange(nodes, a, c, ab, cd).Ok?
    ensures Swapped(nodes, Exchange(nodes, a, c, ab, cd).value, a, c, ab, cd)
  {
    ExchangeableFacts(nodes, root, a, c, ab, cd);
    var n := Relinked(nodes, a, c, ab, cd);
    GetIAgrees(nodes, n, ab, a);
    GetIAgrees(nodes, n, cd, c);
    GetISlot(nodes, ab, a);
    GetISlot(nodes, cd, c);
    var ia := GetI(nodes, ab, a).value;
    var ic := GetI(nodes, cd, c).value;
    SlotWriteIsReplace(nodes[ab].children, ia, c);
    SlotWriteIsReplace(nodes[cd].children, ic, a);
  }

  /** After an exchange, only a and c have new parents and only ab and cd new children. */
  lemma SwappedFrame(nodes: seq<Node>, ns: seq<Node>, a: nat, c: nat, ab: nat, cd: nat)
    requires a < |nodes| && c < |nodes| && ab < |nodes| && cd < |nodes|
    requires a != ab && a != cd && c != ab && c != cd && ab != cd && a != c
    requires Swapped(nodes, ns, a, c, ab, cd)
    ensures SameNames(ns, nodes)
    ensures forall i :: 0 <= i < |nodes| && i != a && i != c ==> ns[i].parent == nodes[i].parent
    ensures forall i :: 0 <= i < |nodes| && i != ab && i != cd ==> ns[i].children == nodes[i].children
    ensures forall i :: 0 <= i < |nodes| ==> |ns[i].children| == |nodes[i].children|
  {
  }

  lemma SwappedPointsBack(nodes: seq<Node>, root: nat, ns: seq<Node>, a: nat, c: nat, ab: nat, cd: nat)
    requires Exchangeable(nodes, root, a, c, ab, cd) && Swapped(nodes, ns, a, c, ab, cd)
    ensures ChildrenPointBack(ns)
  {
    ExchangeableFacts(nodes, root, a, c, ab, cd);
    SwappedFrame(nodes, ns, a, c, ab, cd);
    forall i, k | 0 <= i < |ns| && 0 <= k < |ns[i].children|
      ensures ns[i].children[k] < |ns| && ns[ns[i].children[k]].parent == Some(i)
    {
      var ch := nodes[i].children[k];
      assert nodes[ch].parent == Some(i);
      if i == ab {
        assert ch != c;
      } else if i == cd {
        assert ch != a;
      } else {
        assert ch != a && ch != c;
      }
    }
  }

  lemma SwappedAdopted(nodes: seq<Node>, root: nat, ns: seq<Node>, a: nat, c: nat, ab: nat, cd: nat)
    requires Exchangeable(nodes, root, a, c, ab, cd) && Swapped(nodes, ns, a, c, ab, cd)
    ensures ParentsAdopt(ns)
  {
    ExchangeableFacts(nodes, root, a, c, ab, cd);
    SwappedFrame(nodes, ns, a, c, ab, cd);
    forall i | 0 <= i < |ns| && ns[i].parent.Some?
      ensures ns[i].parent.value < |ns| && i in ns[ns[i].parent.value].children
    {
      if i == a {
        ReplaceMembers(nodes[cd].children, c, a, c);
      } else if i == c {
        ReplaceMembers(nodes[ab].children, a, c, a);
      } else {
        var q := nodes[i].parent.value;
        if q == ab {
          ReplaceMembers(nodes[ab].children, a, c, i);
        } else if q == cd {
          ReplaceMembers(nodes[cd].children, c, a, i);
        }
      }
    }
  }

  lemma SwappedBifurcating(nodes: seq<Node>, root: nat, ns: seq<Node>, a: nat, c: nat, ab: nat, cd: nat)
    requires Exchangeable(nodes, root, a, c, ab, cd) && Swapped(nodes, ns, a, c, ab, cd)
    ensures Bifurcating(ns)
  {
    ExchangeableFacts(nodes, root, a, c, ab, cd);
    SwappedFrame(nodes, ns, a, c, ab, cd);
    var rab := Replace(nodes[ab].children, a, c);
    var rcd := Replace(nodes[cd].children, c, a);
    assert rab[0] != rab[1] && rcd[0] != rcd[1];
  }

  lemma SwappedRootless(nodes: seq<Node>, root: nat, ns: seq<Node>, a: nat, c: nat, ab: nat, cd: nat)
    requires Exchangeable(nodes, root, a, c, ab, cd) && Swapped(nodes, ns, a, c, ab, cd)
    ensures OnlyRootParentless(ns, root)
  {
    ExchangeableFacts(nodes, root, a, c, ab, cd);
    SwappedFrame(nodes, ns, a, c, ab, cd);
  }

  /**
   * An exchange keeps the tree well-formed, leaves every name in place and every
   * node with as many children as before.
   */
  lemma SwappedWellFormed(nodes: seq<Node>, root: nat, ns: seq<Node>, a: nat, c: nat, ab: nat, cd: nat)
    requires Exchangeable(nodes, root, a, c, ab, cd) && Swapped(nodes, ns, a, c, ab, cd)
    ensures WellFormed(ns, root) && UniquelyNamed(ns) && SameNames(ns, nodes)
    ensures forall i :: 0 <= i < |nodes| ==> |ns[i].children| == |nodes[i].children|
  {
    ExchangeableFacts(nodes, root, a, c, ab, cd);
    SwappedFrame(nodes, ns, a, c, ab, cd);
    SwappedPointsBack(nodes, root, ns, a, c, ab, cd);
    SwappedAdopted(nodes, root, ns, a, c, ab, cd);
    SwappedBifurcating(nodes, root, ns, a, c, ab, cd);
    SwappedRootless(nodes, root, ns, a, c, ab, cd);
    SameNamesUnique(ns, nodes);
  }

  /** Exchanging between two anchors at the same depth keeps the tree free of cycles. */
  lemma SwappedAcyclic(nodes: seq<Node>, ns: seq<Node>, a: nat, c: nat, ab: nat, cd: nat)
    requires a < |nodes| && c < |nodes| && ab < |nodes| && cd < |nodes|
    requires a != ab && a != cd && c != ab && c != cd && ab != cd && a != c
    requires Swapped(nodes, ns, a, c, ab, cd)
    requires nodes[a].parent == Some(ab) && nodes[c].parent == Some(cd)
    requires Acyclic(nodes) && Depth(nodes, ab) == Depth(nodes, cd)
    ensures Acyclic(ns)
  {
    SwappedFrame(nodes, ns, a, c, ab, cd);
    DepthRanks(nodes);
    DepthStep(nodes, a, ab);
    DepthStep(nodes, c, cd);
    var rank := (i: nat) => Depth(nodes, i);
    forall j | 0 <= j < |ns| && ns[j].parent.Some?
      ensures ns[j].parent.value < |ns| && rank(ns[j].parent.value) < rank(j)
    {
      if j != a && j != c {
        assert ns[j].parent == nodes[j].parent;
      }
    }
    RankedAcyclic(ns, rank);
  }

  /** Two exchanges of the same pair, the second in the opposite direction, cancel out. */
  lemma SwappedBack(nodes: seq<Node>, ns: seq<Node>, back: seq<Node>, a: nat, c: nat, ab: nat, cd: nat)
    requires a < |nodes| && c < |nodes| && ab < |nodes| && cd < |nodes|
    requires a != ab && a != cd && c != ab && c != cd && ab != cd && a != c
    requires nodes[a].parent == Some(ab) && nodes[c].parent == Some(cd)
    requires c !in nodes[ab].children && a !in nodes[cd].children
    requires Swapped(nodes, ns, a, c, ab, cd) && Swapped(ns, back, c, a, ab, cd)
    ensures back == nodes
  {
    assert Replace(Replace(nodes[ab].children, a, c), c, a) == nodes[ab].children;
    assert Replace(Replace(nodes[cd].children, c, a), a, c) == nodes[cd].children;
    forall i | 0 <= i < |nodes|
      ensures back[i] == nodes[i]
    {
    }
  }

  /** Exchanging a second time, now c out of ab and a out of cd, restores the arena. */
  lemma ExchangeUndone(nodes: seq<Node>, root: nat, a: nat, c: nat, ab: nat, cd: nat)
    requires Exchangeable(nodes, root, a, c, ab, cd)
    ensures ChildrenInArena(nodes, ab) && ChildrenInArena(nodes, cd) && Exchange(nodes, a, c, ab, cd).Ok?
    ensures var ns := Exchange(nodes, a, c, ab, cd).value;
      Exchangeable(ns, root, c, a, ab, cd) && Exchange(ns, c, a, ab, cd) == Ok(nodes)
  {
    ExchangeableFacts(nodes, root, a, c, ab, cd);
    ExchangeLinks(nodes, root, a, c, ab, cd);
    var ns := Exchange(nodes, a, c, ab, cd).value;
    SwappedWellFormed(nodes, root, ns, a, c, ab, cd);
    ReplaceMembers(nodes[ab].children, a, c, a);
    ReplaceMembers(nodes[cd].children, c, a, c);
    assert Exchangeable(ns, root, c, a, ab, cd);
    ExchangeLinks(ns, root, c, a, ab, cd);
    SwappedBack(nodes, ns, Exchange(ns, c, a, ab, cd).value, a, c, ab, cd);
  }

  /** `[d for d in cs if d.name != name][0]` as a position in cs; None when that list is empty. */
  function FirstOtherIndex(nodes: seq<Node>, cs: seq<nat>, name: string): (r: Option<nat>)
    requires forall k :: 0 <= k < |cs| ==> cs[k] < |nodes|
    ensures r.Some? ==> r.value < |cs| && nodes[cs[r.value]].name != name
    ensures r.Some? ==> forall k :: 0 <= k < r.value ==> nodes[cs[k]].name == name
    ensures r.None? ==> forall k :: 0 <= k < |cs| ==> nodes[cs[k]].name == name
  {
    if cs == [] then None
    else if nodes[cs[0]].name != name then Some(0)
    else match FirstOtherIndex(nodes, cs[1..], name)
      case None => None
      case Some(k) => Some(k + 1)
  }

  /**
   * `nearest_neighbor_interchange(old_tree, node_name, direction)` on the arena of the
   * copy. KeyError when no node has the name; AssertionError for a leaf or the root.
   * When the parent is the root, the sibling's children are exchanged with the node's
   * as `direction` selects, or nothing (None) is returned for a leaf sibling. Otherwise
   * `swap_nodes(qA, qB, qC, qD, nodeB, node)` runs with the parent as first anchor.
   */
  function NniOutcome(nodes: seq<Node>, root: nat, name: string, direction: int): (r: Result<Option<seq<Node>>, Error>)
    requires WellFormed(nodes, root) && Acyclic(nodes)
  {
    var order := Walk(nodes, root);
    match FindAt(nodes, order, name)
    case None => Err(KeyError)
    case Some(k) =>
      var x := order[k];
      if |nodes[x].children| == 0 || nodes[x].parent.None? then Err(AssertionError)
      else
        var p := nodes[x].parent.value;
        var qA := nodes[x].children[0];
        var qB := nodes[x].children[1];
        var cs := nodes[p].children;
        match FirstOtherIndex(nodes, cs, nodes[x].name)
        case None => Err(IndexError)
        case Some(j) =>
          if nodes[p].name == nodes[root].name then
            var y := cs[j];
            if |nodes[y].children| == 0 then Ok(None)
            else
              match SwapOutcome(nodes, qA, qB, nodes[y].children[0], nodes[y].children[1], x, y, direction)
              case Err(e) => Err(e)
              case Ok(ns) => Ok(Some(ns))
          else
            match Exchange(nodes, qA, cs[j], p, x)
            case Err(e) => Err(e)
            case Ok(ns) => Ok(Some(ns))
  }

  /** The interchange raises KeyError exactly when no node of the tree carries the name. */
  lemma NniKeyError(nodes: seq<Node>, root: nat, name: string, direction: int)
    requires WellFormed(nodes, root) && Acyclic(nodes)
    ensures NniOutcome(nodes, root, name, direction) == Err(KeyError) <==>
      forall i :: 0 <= i < |nodes| ==> nodes[i].name != name
  {
    WalkMisses(nodes, root, name);
  }

  /** The assertion of the interchange fails exactly for a leaf and for the root. */
  lemma NniRefuses(nodes: seq<Node>, root: nat, x: nat, direction: int)
    requires WellFormed(nodes, root) && Acyclic(nodes) && UniquelyNamed(nodes) && x < |nodes|
    ensures NniOutcome(nodes, root, nodes[x].name, direction) == Err(AssertionError) <==>
      |nodes[x].children| == 0 || x == root
  {
    FindInWalk(nodes, root, x);
  }

  /** A member of a two-element list is one of its two entries. */
  lemma InPair(cs: seq<nat>, v: nat)
    requires |cs| == 2 && v in cs
    ensures v == cs[0] || v == cs[1]
  {
  }

  /** With unique names, two distinct nodes are named differently. */
  lemma NamesDiffer(nodes: seq<Node>, a: nat, b: nat)
    requires UniquelyNamed(nodes) && a < |nodes| && b < |nodes| && a != b
    ensures nodes[a].name != nodes[b].name
  {
  }

  /** Among the two distinct children of p, the one named unlike x is y. */
  lemma SiblingFound(nodes: seq<Node>, p: nat, x: nat, y: nat)
    requires ChildrenPointBack(nodes) && Bifurcating(nodes) && UniquelyNamed(nodes) && p < |nodes|
    requires x in nodes[p].children && y in nodes[p].children && x != y
    ensures ChildrenInArena(nodes, p)
    ensures var j := FirstOtherIndex(nodes, nodes[p].children, nodes[x].name);
      j.Some? && nodes[p].children[j.value] == y
  {
    var cs := nodes[p].children;
    assert |cs| == 2 && cs[0] != cs[1];
    assert x < |nodes| && y < |nodes|;
    NamesDiffer(nodes, x, y);
    InPair(cs, x);
    InPair(cs, y);
    if cs[0] == x {
      assert cs[1] == y;
      assert FirstOtherIndex(nodes, cs[1..], nodes[x].name) == Some(0);
      assert FirstOtherIndex(nodes, cs, nodes[x].name) == Some(1);
    } else {
      assert cs[0] == y;
      assert FirstOtherIndex(nodes, cs, nodes[x].name) == Some(0);
    }
  }

  /** x and y are two distinct children of one parent, which is neither of them. */
  predicate Siblings(nodes: seq<Node>, root: nat, x: nat, y: nat) {
    && WellFormed(nodes, root) && UniquelyNamed(nodes)
    && x < |nodes| && y < |nodes| && x != y
    && nodes[x].parent.Some? && nodes[y].parent == nodes[x].parent
    && nodes[x].parent.value != x && nodes[x].parent.value != y
  }

  /** In an acyclic tree two children of one parent are siblings at the same depth. */
  lemma AcyclicSiblings(nodes: seq<Node>, root: nat, x: nat, y: nat)
    requires WellFormed(nodes, root) && Acyclic(nodes) && UniquelyNamed(nodes)
    requires x < |nodes| && y < |nodes| && x != y && nodes[x].parent.Some? && nodes[y].parent == nodes[x].parent
    ensures Siblings(nodes, root, x, y) && Depth(nodes, x) == Depth(nodes, y)
  {
    var p := nodes[x].parent.value;
    DepthStep(nodes, x, p);
    DepthStep(nodes, y, p);
  }

  /** A child of x and a child of its sibling y can be exchanged between them. */
  lemma SiblingsExchangeable(nodes: seq<Node>, root: nat, x: nat, y: nat, u: nat, v: nat)
    requires Siblings(nodes, root, x, y)
    requires u in nodes[x].children && v in nodes[y].children
    ensures Exchangeable(nodes, root, u, v, x, y)
  {
  }

  /**
   * With its parent not the root, the interchange fails with IndexError: qA is a
   * child of the node, so no slot of the parent is named like it.
   */
  lemma NniInnerParent(nodes: seq<Node>, root: nat, x: nat, direction: int)
    requires WellFormed(nodes, root) && Acyclic(nodes) && UniquelyNamed(nodes) && x < |nodes|
    requires |nodes[x].children| > 0 && nodes[x].parent.Some? && nodes[x].parent != Some(root)
    ensures NniOutcome(nodes, root, nodes[x].name, direction) == Err(IndexError)
    ensures var p := nodes[x].parent.value;
      && p < |nodes| && ChildrenInArena(nodes, p) && ChildrenInArena(nodes, x) && x in nodes[p].children
      && Exchange(nodes, nodes[x].children[0], OtherChild(nodes, p, x), p, x) == Err(IndexError)
  {
    FindInWalk(nodes, root, x);
    var p := nodes[x].parent.value;
    var qA := nodes[x].children[0];
    DepthStep(nodes, x, p);
    assert qA !in nodes[p].children;
    assert nodes[nodes[p].children[0]].name != nodes[qA].name;
    assert nodes[nodes[p].children[1]].name != nodes[qA].name;
  }

  /** Below the root, next to a leaf sibling, the interchange returns nothing. */
  lemma NniLeafSibling(nodes: seq<Node>, root: nat, x: nat, y: nat, direction: int)
    requires WellFormed(nodes, root) && Acyclic(nodes) && UniquelyNamed(nodes) && x < |nodes|
    requires |nodes[x].children| > 0 && nodes[x].parent == Some(root)
    requires y in nodes[root].children && y != x && |nodes[y].children| == 0
    ensures NniOutcome(nodes, root, nodes[x].name, direction) == Ok(None)
  {
    FindInWalk(nodes, root, x);
    SiblingFound(nodes, root, x, y);
  }

  /** Exchanging a child of x with a child of its sibling y at the same depth is sound. */
  lemma SiblingExchangeSound(nodes: seq<Node>, root: nat, x: nat, y: nat, u: nat, v: nat)
    requires Siblings(nodes, root, x, y) && Acyclic(nodes) && Depth(nodes, x) == Depth(nodes, y)
    requires u in nodes[x].children && v in nodes[y].children
    ensures ChildrenInArena(nodes, x) && ChildrenInArena(nodes, y) && u < |nodes| && v < |nodes|
    ensures var s := Exchange(nodes, u, v, x, y);
      && s.Ok?
      && WellFormed(s.value, root) && Acyclic(s.value) && SameNames(s.value, nodes)
      && forall i :: 0 <= i < |nodes| ==> |s.value[i].children| == |nodes[i].children|
  {
    SiblingsExchangeable(nodes, root, x, y, u, v);
    ExchangeLinks(nodes, root, u, v, x, y);
    var ns := Exchange(nodes, u, v, x, y).value;
    SwappedWellFormed(nodes, root, ns, u, v, x, y);
    ExchangeableFacts(nodes, root, u, v, x, y);
    SwappedAcyclic(nodes, ns, u, v, x, y);
  }

  /**
   * `swap_nodes` between the children of two internal siblings x and y succeeds in
   * every direction and yields a well-formed tree without cycles in which every node
   * keeps its name and its number of children.
   */
  lemma SiblingSwap(nodes: seq<Node>, root: nat, x: nat, y: nat, direction: int)
    requires WellFormed(nodes, root) && Acyclic(nodes) && UniquelyNamed(nodes)
    requires x < |nodes| && y < |nodes| && x != y && nodes[x].parent.Some? && nodes[y].parent == nodes[x].parent
    requires |nodes[x].children| > 0 && |nodes[y].children| > 0
    ensures |nodes[x].children| == 2 && |nodes[y].children| == 2
    ensures ChildrenInArena(nodes, x) && ChildrenInArena(nodes, y)
    ensures var cx := nodes[x].children; var cy := nodes[y].children;
      var s := SwapOutcome(nodes, cx[0], cx[1], cy[0], cy[1], x, y, direction);
      && s.Ok?
      && WellFormed(s.value, root) && Acyclic(s.value) && SameNames(s.value, nodes)
      && forall i :: 0 <= i < |nodes| ==> |s.value[i].children| == |nodes[i].children|
  {
    var cx := nodes[x].children;
    var cy := nodes[y].children;
    AcyclicSiblings(nodes, root, x, y);
    if direction == 1 {
      SiblingExchangeSound(nodes, root, x, y, cx[0], cy[0]);
    } else if direction == 2 {
      SiblingExchangeSound(nodes, root, x, y, cx[1], cy[0]);
    } else if direction == 3 {
      SiblingExchangeSound(nodes, root, x, y, cx[0], cy[1]);
    }
  }

  /** Exchanging slot su of x with slot sv of its sibling y overwrites exactly those two slots. */
  lemma SiblingSlots(nodes: seq<Node>, root: nat, x: nat, y: nat, su: nat, sv: nat)
    requires Siblings(nodes, root, x, y)
    requires su < |nodes[x].children| && sv < |nodes[y].children|
    ensures ChildrenInArena(nodes, x) && ChildrenInArena(nodes, y)
    ensures var u, v := nodes[x].children[su], nodes[y].children[sv];
      var s := Exchange(nodes, u, v, x, y);
      && s.Ok? && Swapped(nodes, s.value, u, v, x, y)
      && s.value[x].children == nodes[x].children[su := v]
      && s.value[y].children == nodes[y].children[sv := u]
  {
    var cx := nodes[x].children;
    var cy := nodes[y].children;
    var u, v := cx[su], cy[sv];
    SiblingsExchangeable(nodes, root, x, y, u, v);
    ExchangeableFacts(nodes, root, u, v, x, y);
    ExchangeLinks(nodes, root, u, v, x, y);
    SlotWriteIsReplace(cx, su, v);
    SlotWriteIsReplace(cy, sv, u);
  }

  /** Direction 1 swaps qA, the first child of x, with qC, the first child of its sibling y. */
  lemma SwapFirstFirst(nodes: seq<Node>, root: nat, x: nat, y: nat)
    requires Siblings(nodes, root, x, y)
    requires |nodes[x].children| > 0 && |nodes[y].children| > 0
    ensures |nodes[x].children| == 2 && |nodes[y].children| == 2
    ensures ChildrenInArena(nodes, x) && ChildrenInArena(nodes, y)
    ensures var qA, qB := nodes[x].children[0], nodes[x].children[1];
      var qC, qD := nodes[y].children[0], nodes[y].children[1];
      var s := SwapOutcome(nodes, qA, qB, qC, qD, x, y, 1);
      && s.Ok? && Swapped(nodes, s.value, qA, qC, x, y)
      && s.value[x].children == [qC, qB] && s.value[y].children == [qA, qD]
  {
    SiblingSlots(nodes, root, x, y, 0, 0);
  }

  /** Direction 2 swaps qB, the second child of x, with qC, the first child of its sibling y. */
  lemma SwapSecondFirst(nodes: seq<Node>, root: nat, x: nat, y: nat)
    requires Siblings(nodes, root, x, y)
    requires |nodes[x].children| > 0 && |nodes[y].children| > 0
    ensures |nodes[x].children| == 2 && |nodes[y].children| == 2
    ensures ChildrenInArena(nodes, x) && ChildrenInArena(nodes, y)
    ensures var qA, qB := nodes[x].children[0], nodes[x].children[1];
      var qC, qD := nodes[y].children[0], nodes[y].children[1];
      var s := SwapOutcome(nodes, qA, qB, qC, qD, x, y, 2);
      && s.Ok? && Swapped(nodes, s.value, qB, qC, x, y)
      && s.value[x].children == [qA, qC] && s.value[y].children == [qB, qD]
  {
    SiblingSlots(nodes, root, x, y, 1, 0);
  }

  /** Direction 3 swaps qA, the first child of x, with qD, the second child of its sibling y. */
  lemma SwapFirstSecond(nodes: seq<Node>, root: nat, x: nat, y: nat)
    requires Siblings(nodes, root, x, y)
    requires |nodes[x].children| > 0 && |nodes[y].children| > 0
    ensures |nodes[x].children| == 2 && |nodes[y].children| == 2
    ensures ChildrenInArena(nodes, x) && ChildrenInArena(nodes, y)
    ensures var qA, qB := nodes[x].children[0], nodes[x].children[1];
      var qC, qD := nodes[y].children[0], nodes[y].children[1];
      var s := SwapOutcome(nodes, qA, qB, qC, qD, x, y, 3);
      && s.Ok? && Swapped(nodes, s.value, qA, qD, x, y)
      && s.value[x].children == [qD, qB] && s.value[y].children == [qC, qA]
  {
    SiblingSlots(nodes, root, x, y, 0, 1);
  }

  /**
   * Below the root, next to an internal sibling y, the interchange returns the arena
   * `swap_nodes` produces from the children of the node and those of y.
   */
  lemma NniRootBranch(nodes: seq<Node>, root: nat, x: nat, y: nat, direction: int)
    requires WellFormed(nodes, root) && Acyclic(nodes) && UniquelyNamed(nodes) && x < |nodes|
    requires |nodes[x].children| > 0 && nodes[x].parent == Some(root)
    requires y in nodes[root].children && y != x && |nodes[y].children| > 0
    ensures |nodes[x].children| == 2 && |nodes[y].children| == 2
    ensures ChildrenInArena(nodes, x) && ChildrenInArena(nodes, y)
    ensures var cx := nodes[x].children; var cy := nodes[y].children;
      var s := SwapOutcome(nodes, cx[0], cx[1], cy[0], cy[1], x, y, direction);
      s.Ok? && NniOutcome(nodes, root, nodes[x].name, direction) == Ok(Some(s.value))
  {
    FindInWalk(nodes, root, x);
    SiblingFound(nodes, root, x, y);
    SiblingSwap(nodes, root, x, y, direction);
  }

  /** Direction 1 undone: swapping the first children back restores the arena. */
  lemma UndoFirstFirst(nodes: seq<Node>, root: nat, x: nat, y: nat)
    requires Siblings(nodes, root, x, y)
    requires |nodes[x].children| > 0 && |nodes[y].children| > 0
    ensures |nodes[x].children| == 2 && |nodes[y].children| == 2
    ensures ChildrenInArena(nodes, x) && ChildrenInArena(nodes, y)
    ensures var cx, cy := nodes[x].children, nodes[y].children;
      var s := SwapOutcome(nodes, cx[0], cx[1], cy[0], cy[1], x, y, 1);
      && s.Ok? && ChildrenInArena(s.value, x) && ChildrenInArena(s.value, y)
      && Exchange(s.value, cy[0], cx[0], x, y) == Ok(nodes)
  {
    var cx, cy := nodes[x].children, nodes[y].children;
    SiblingsExchangeable(nodes, root, x, y, cx[0], cy[0]);
    SiblingExchangeInArena(nodes, root, x, y, cx[0], cy[0]);
    ExchangeUndone(nodes, root, cx[0], cy[0], x, y);
  }

  /** Direction 2 undone. */
  lemma UndoSecondFirst(nodes: seq<Node>, root: nat, x: nat, y: nat)
    requires Siblings(nodes, root, x, y)
    requires |nodes[x].children| > 0 && |nodes[y].children| > 0
    ensures |nodes[x].children| == 2 && |nodes[y].children| == 2
    ensures ChildrenInArena(nodes, x) && ChildrenInArena(nodes, y)
    ensures var cx, cy := nodes[x].children, nodes[y].children;
      var s := SwapOutcome(nodes, cx[0], cx[1], cy[0], cy[1], x, y, 2);
      && s.Ok? && ChildrenInArena(s.value, x) && ChildrenInArena(s.value, y)
      && Exchange(s.value, cy[0], cx[1], x, y) == Ok(nodes)
  {
    var cx, cy := nodes[x].children, nodes[y].children;
    SiblingsExchangeable(nodes, root, x, y, cx[1], cy[0]);
    SiblingExchangeInArena(nodes, root, x, y, cx[1], cy[0]);
    ExchangeUndone(nodes, root, cx[1], cy[0], x, y);
  }

  /** Direction 3 undone. */
  lemma UndoFirstSecond(nodes: seq<Node>, root: nat, x: nat, y: nat)
    requires Siblings(nodes, root, x, y)
    requires |nodes[x].children| > 0 && |nodes[y].children| > 0
    ensures |nodes[x].children| == 2 && |nodes[y].children| == 2
    ensures ChildrenInArena(nodes, x) && ChildrenInArena(nodes, y)
    ensures var cx, cy := nodes[x].children, nodes[y].children;
      var s := SwapOutcome(nodes, cx[0], cx[1], cy[0], cy[1], x, y, 3);
      && s.Ok? && ChildrenInArena(s.value, x) && ChildrenInArena(s.value, y)
      && Exchange(s.value, cy[1], cx[0], x, y) == Ok(nodes)
  {
    var cx, cy := nodes[x].children, nodes[y].children;
    SiblingsExchangeable(nodes, root, x, y, cx[0], cy[1]);
    SiblingExchangeInArena(nodes, root, x, y, cx[0], cy[1]);
    ExchangeUndone(nodes, root, cx[0], cy[1], x, y);
  }

  /**
   * `swap_nodes` in a fixed direction between the children of two siblings, applied
   * again to the children the first call left, gives back the original arena.
   */
  lemma SwapUndone(nodes: seq<Node>, root: nat, x: nat, y: nat, direction: int)
    requires Siblings(nodes, root, x, y)
    requires |nodes[x].children| > 0 && |nodes[y].children| > 0
    ensures |nodes[x].children| == 2 && |nodes[y].children| == 2
    ensures ChildrenInArena(nodes, x) && ChildrenInArena(nodes, y)
    ensures var cx, cy := nodes[x].children, nodes[y].children;
      var s := SwapOutcome(nodes, cx[0], cx[1], cy[0], cy[1], x, y, direction);
      && s.Ok? && |s.value[x].children| == 2 && |s.value[y].children| == 2
      && ChildrenInArena(s.value, x) && ChildrenInArena(s.value, y)
      && var cx', cy' := s.value[x].children, s.value[y].children;
        SwapOutcome(s.value, cx'[0], cx'[1], cy'[0], cy'[1], x, y, direction) == Ok(nodes)
  {
    if direction == 1 {
      SwapFirstFirst(nodes, root, x, y);
      UndoFirstFirst(nodes, root, x, y);
    } else if direction == 2 {
      SwapSecondFirst(nodes, root, x, y);
      UndoSecondFirst(nodes, root, x, y);
    } else if direction == 3 {
      SwapFirstSecond(nodes, root, x, y);
      UndoFirstSecond(nodes, root, x, y);
    }
  }

  /** After an exchange between siblings, the children of both stay in the arena. */
  lemma SiblingExchangeInArena(nodes: seq<Node>, root: nat, x: nat, y: nat, u: nat, v: nat)
    requires Siblings(nodes, root, x, y)
    requires u in nodes[x].children && v in nodes[y].children
    ensures ChildrenInArena(nodes, x) && ChildrenInArena(nodes, y) && u < |nodes| && v < |nodes|
    ensures var s := Exchange(nodes, u, v, x, y);
      s.Ok? && ChildrenInArena(s.value, x) && ChildrenInArena(s.value, y)
  {
    SiblingsExchangeable(nodes, root, x, y, u, v);
    ExchangeLinks(nodes, root, u, v, x, y);
    var ns := Exchange(nodes, u, v, x, y).value;
    SwappedWellFormed(nodes, root, ns, u, v, x, y);
  }

  /**
   * `swap_nodes` between the children of two siblings keeps both siblings where they
   * are: same parent, and the parent keeps its children.
   */
  lemma SwapKeepsSiblings(nodes: seq<Node>, root: nat, x: nat, y: nat, direction: int)
    requires WellFormed(nodes, root) && Acyclic(nodes) && UniquelyNamed(nodes)
    requires x < |nodes| && y < |nodes| && x != y && nodes[x].parent.Some? && nodes[y].parent == nodes[x].parent
    requires |nodes[x].children| > 0 && |nodes[y].children| > 0
    ensures |nodes[x].children| == 2 && |nodes[y].children| == 2
    ensures ChildrenInArena(nodes, x) && ChildrenInArena(nodes, y)
    ensures var cx, cy := nodes[x].children, nodes[y].children;
      var s := SwapOutcome(nodes, cx[0], cx[1], cy[0], cy[1], x, y, direction);
      var p := nodes[x].parent.value;
      && s.Ok? && p < |nodes|
      && s.value[x].parent == nodes[x].parent && s.value[y].parent == nodes[y].parent
      && s.value[p].children == nodes[p].children
  {
    var cx, cy := nodes[x].children, nodes[y].children;
    var p := nodes[x].parent.value;
    AcyclicSiblings(nodes, root, x, y);
    DepthStep(nodes, x, p);
    forall k | 0 <= k < 2
      ensures cx[k] != p && cy[k] != p
    {
      DepthStep(nodes, cx[k], x);
      DepthStep(nodes, cy[k], y);
    }
    if direction == 1 {
      SwapFirstFirst(nodes, root, x, y);
    } else if direction == 2 {
      SwapSecondFirst(nodes, root, x, y);
    } else if direction == 3 {
      SwapFirstSecond(nodes, root, x, y);
    }
  }

  /** When the interchange produces a tree, the node sits below the root next to an internal sibling. */
  lemma NniProducesShape(nodes: seq<Node>, root: nat, x: nat, direction: int)
    requires WellFormed(nodes, root) && Acyclic(nodes) && UniquelyNamed(nodes) && x < |nodes|
    ensures var r := NniOutcome(nodes, root, nodes[x].name, direction);
      r.Ok? && r.value.Some? ==>
        && |nodes[x].children| > 0 && nodes[x].parent == Some(root) && |nodes[root].children| == 2
        && |nodes[OtherChild(nodes, root, x)].children| > 0
  {
    NniRefuses(nodes, root, x, direction);
    if |nodes[x].children| > 0 && x != root {
      if nodes[x].parent != Some(root) {
        NniInnerParent(nodes, root, x, direction);
      } else {
        assert x in nodes[root].children;
        var y := OtherChild(nodes, root, x);
        if |nodes[y].children| == 0 {
          NniLeafSibling(nodes, root, x, y, direction);
        }
      }
    }
  }

  /**
   * The interchange is its own inverse: applied with the same name and direction to
   * the tree it produced, it gives back the original tree.
   */
  lemma NniInvolution(nodes: seq<Node>, root: nat, name: string, direction: int)
    requires WellFormed(nodes, root) && Acyclic(nodes) && UniquelyNamed(nodes)
    requires NniOutcome(nodes, root, name, direction).Ok? && NniOutcome(nodes, root, name, direction).value.Some?
    ensures var ns := NniOutcome(nodes, root, name, direction).value.value;
      WellFormed(ns, root) && Acyclic(ns) && UniquelyNamed(ns) &&
      NniOutcome(ns, root, name, direction) == Ok(Some(nodes))
  {
    var order := Walk(nodes, root);
    var x := order[FindAt(nodes, order, name).value];
    NniProducesShape(nodes, root, x, direction);
    assert x in nodes[root].children;
    var y := OtherChild(nodes, root, x);
    NniRootBranch(nodes, root, x, y, direction);
    SiblingSwap(nodes, root, x, y, direction);
    SwapKeepsSiblings(nodes, root, x, y, direction);
    AcyclicSiblings(nodes, root, x, y);
    SwapUndone(nodes, root, x, y, direction);
    var ns := NniOutcome(nodes, root, name, direction).value.value;
    SameNamesUnique(ns, nodes);
    NniRootBranch(ns, root, x, y, direction);
  }

  /**
   * A tree the interchange produces is well-formed and acyclic over the same names,
   * and every node keeps its number of children.
   */
  lemma NniPreserves(nodes: seq<Node>, root: nat, name: string, direction: int)
    requires WellFormed(nodes, root) && Acyclic(nodes) && UniquelyNamed(nodes)
    requires NniOutcome(nodes, root, name, direction).Ok? && NniOutcome(nodes, root, name, direction).value.Some?
    ensures var ns := NniOutcome(nodes, root, name, direction).value.value;
      && WellFormed(ns, root) && Acyclic(ns) && SameNames(ns, nodes)
      && forall i :: 0 <= i < |nodes| ==> |ns[i].children| == |nodes[i].children|
  {
    var order := Walk(nodes, root);
    var x := order[FindAt(nodes, order, name).value];
    NniProducesShape(nodes, root, x, direction);
    assert x in nodes[root].children;
    var y := OtherChild(nodes, root, x);
    NniRootBranch(nodes, root, x, y, direction);
    SiblingSwap(nodes, root, x, y, direction);
  }
}
