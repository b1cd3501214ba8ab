/**
 * The naming rule of `NodeLabels.__call__` and the pass `tree.visit(NodeLabels(...))`
 * makes with it: a left fold over the visiting order, threading the counter.
 */
module Labelling {
  import opened Wrappers
  import opened Decimal
  import opened Arena

  /** The arena after some visits, with the visitor's `count`. */
  datatype Labels = Labels(nodes: seq<Node>, count: nat)

  /** An anonymous parentless node takes the root name when that name is non-empty. */
  predicate TakesRootName(n: Node, rootName: string) {
    n.name == "" && n.parent.None? && rootName != ""
  }

  /** Every other anonymous node draws the next counter value. */
  predicate TakesCounter(n: Node, rootName: string) {
    n.name == "" && !(n.parent.None? && rootName != "")
  }

  /** One call of the visitor on node i, with the counter at `count` before the call. */
  function LabelStep(nodes: seq<Node>, i: nat, prefix: string, rootName: string, count: nat): Labels
    requires i < |nodes|
  {
    var n := nodes[i];
    if n.name != "" then Labels(nodes, count)
    else if n.parent.None? && rootName != "" then Labels(nodes[i := n.(name := rootName)], count)
    else Labels(nodes[i := n.(name := prefix + NatToString(count + 1))], count + 1)
  }

  /** The visitor called on every node of order, first to last. */
  function LabelPass(nodes: seq<Node>, order: seq<nat>, prefix: string, rootName: string, count: nat): (r: Labels)
    requires InArena(nodes, order)
    ensures |r.nodes| == |nodes|
    decreases |order|
  {
    if order == [] then Labels(nodes, count)
    else
      var s := LabelStep(nodes, order[0], prefix, rootName, count);
      LabelPass(s.nodes, order[1..], prefix, rootName, s.count)
  }

  /** How many nodes of order draw a counter value, judged on the arena as given. */
  function CountersIn(nodes: seq<Node>, order: seq<nat>, rootName: string): nat
    requires InArena(nodes, order)
    decreases |order|
  {
    if order == [] then 0
    else (if TakesCounter(nodes[order[0]], rootName) then 1 else 0) + CountersIn(nodes, order[1..], rootName)
  }

  /** The name the k-th visited node ends up with, in closed form. */
  function AssignedName(nodes: seq<Node>, order: seq<nat>, k: nat, prefix: string, rootName: string, count: nat): string
    requires InArena(nodes, order) && k < |order|
  {
    var n := nodes[order[k]];
    if n.name != "" then n.name
    else if TakesRootName(n, rootName) then rootName
    else prefix + NatToString(count + CountersIn(nodes, order[..k], rootName) + 1)
  }

  /**
   * The pass changes names only: parents and children stay, nodes outside order
   * stay whole, and a node that already has a name keeps it.
   */
  lemma {:induction false} LabelPassFrame(nodes: seq<Node>, order: seq<nat>, prefix: string, rootName: string, count: nat)
    requires InArena(nodes, order)
    ensures var r := LabelPass(nodes, order, prefix, rootName, count);
      && SameShape(nodes, r.nodes)
      && (forall i :: 0 <= i < |nodes| && i !in order ==> r.nodes[i] == nodes[i])
      && (forall i :: 0 <= i < |nodes| && nodes[i].name != "" ==> r.nodes[i].name == nodes[i].name)
      && r.count >= count
    decreases |order|
  {
    if order != [] {
      var s := LabelStep(nodes, order[0], prefix, rootName, count);
      LabelPassFrame(s.nodes, order[1..], prefix, rootName, s.count);
    }
  }

  /** After the pass every visited node has a non-empty name. */
  lemma {:induction false} LabelPassNamesVisited(nodes: seq<Node>, order: seq<nat>, prefix: string, rootName: string, count: nat)
    requires InArena(nodes, order)
    ensures var r := LabelPass(nodes, order, prefix, rootName, count);
      forall k :: 0 <= k < |order| ==> r.nodes[order[k]].name != ""
    decreases |order|
  {
    if order != [] {
      var s := LabelStep(nodes, order[0], prefix, rootName, count);
      assert s.nodes[order[0]].name != "";
      LabelPassNamesVisited(s.nodes, order[1..], prefix, rootName, s.count);
      LabelPassFrame(s.nodes, order[1..], prefix, rootName, s.count);
      var r := LabelPass(nodes, order, prefix, rootName, count);
      forall k | 0 <= k < |order|
        ensures r.nodes[order[k]].name != ""
      {
        if k > 0 {
          assert order[k] == order[1..][k - 1];
        }
      }
    }
  }

  /** A pass over nodes that all have names changes nothing, not even the counter. */
  lemma {:induction false} LabelPassOfNamed(nodes: seq<Node>, order: seq<nat>, prefix: string, rootName: string, count: nat)
    requires InArena(nodes, order)
    requires forall k :: 0 <= k < |order| ==> nodes[order[k]].name != ""
    ensures LabelPass(nodes, order, prefix, rootName, count) == Labels(nodes, count)
    decreases |order|
  {
    if order != [] {
      assert nodes[order[0]].name != "";
      LabelPassOfNamed(nodes, order[1..], prefix, rootName, count);
    }
  }

  /** Labelling is idempotent: a second pass over the same order changes nothing. */
  lemma LabelPassIdempotent(nodes: seq<Node>, order: seq<nat>, prefix: string, rootName: string, count: nat, count': nat)
    requires InArena(nodes, order)
    ensures var r := LabelPass(nodes, order, prefix, rootName, count);
      LabelPass(r.nodes, order, prefix, rootName, count') == Labels(r.nodes, count')
  {
    LabelPassNamesVisited(nodes, order, prefix, rootName, count);
    LabelPassOfNamed(LabelPass(nodes, order, prefix, rootName, count).nodes, order, prefix, rootName, count');
  }

  /** Counting over order depends only on the nodes order visits. */
  lemma {:induction false} CountersInFrame(nodes: seq<Node>, nodes': seq<Node>, order: seq<nat>, rootName: string)
    requires InArena(nodes, order) && InArena(nodes', order)
    requires forall k :: 0 <= k < |order| ==> nodes[order[k]] == nodes'[order[k]]
    ensures CountersIn(nodes, order, rootName) == CountersIn(nodes', order, rootName)
    decreases |order|
  {
    if order != [] {
      CountersInFrame(nodes, nodes', order[1..], rootName);
    }
  }

  /** Counting over a concatenation adds up. */
  lemma {:induction false} CountersInAppend(nodes: seq<Node>, a: seq<nat>, b: seq<nat>, rootName: string)
    requires InArena(nodes, a) && InArena(nodes, b)
    ensures InArena(nodes, a + b)
    ensures CountersIn(nodes, a + b, rootName) == CountersIn(nodes, a, rootName) + CountersIn(nodes, b, rootName)
    decreases |a|
  {
    if a != [] {
      assert (a + b)[1..] == a[1..] + b;
      CountersInAppend(nodes, a[1..], b, rootName);
    } else {
      assert a + b == b;
    }
  }

  /** The tail of a repetition-free order is repetition-free and lacks the head. */
  lemma DistinctTail(order: seq<nat>)
    requires Distinct(order) && order != []
    ensures Distinct(order[1..]) && order[0] !in order[1..]
  {
    var rest := order[1..];
    forall a, b | 0 <= a < b < |rest|
      ensures rest[a] != rest[b]
    {
      assert rest[a] == order[a + 1] && rest[b] == order[b + 1];
    }
    forall m | 0 <= m < |rest|
      ensures rest[m] != order[0]
    {
      assert rest[m] == order[m + 1];
    }
  }

  /**
   * The closed-form name of a later node, judged after the first visit on the rest
   * of the order, is the one judged on the whole order.
   */
  lemma AssignedNameShift(nodes: seq<Node>, order: seq<nat>, prefix: string, rootName: string, count: nat, k: nat)
    requires InArena(nodes, order) && Distinct(order) && 0 < k < |order|
    ensures var s := LabelStep(nodes, order[0], prefix, rootName, count);
      AssignedName(s.nodes, order[1..], k - 1, prefix, rootName, s.count) == AssignedName(nodes, order, k, prefix, rootName, count)
  {
    var s := LabelStep(nodes, order[0], prefix, rootName, count);
    var rest := order[1..];
    DistinctTail(order);
    var pre := rest[..k - 1];
    assert order[..k][1..] == pre;
    assert forall m :: 0 <= m < |pre| ==> pre[m] in rest;
    CountersInFrame(s.nodes, nodes, pre, rootName);
    assert order[k] == rest[k - 1];
    assert s.nodes[order[k]] == nodes[order[k]];
  }

  /**
   * Closed form of the pass over a repetition-free order: named nodes keep their
   * names, an anonymous parentless node takes a non-empty root name, and the other
   * anonymous nodes take `prefix + str(count)` with count = 1, 2, ... in visiting order.
   */
  lemma {:induction false} LabelPassClosedForm(nodes: seq<Node>, order: seq<nat>, prefix: string, rootName: string, count: nat)
    requires InArena(nodes, order) && Distinct(order)
    ensures var r := LabelPass(nodes, order, prefix, rootName, count);
      && (forall k :: 0 <= k < |order| ==> r.nodes[order[k]].name == AssignedName(nodes, order, k, prefix, rootName, count))
      && r.count == count + CountersIn(nodes, order, rootName)
    decreases |order|
  {
    if order != [] {
      var s := LabelStep(nodes, order[0], prefix, rootName, count);
      var rest := order[1..];
      var r := LabelPass(nodes, order, prefix, rootName, count);
      assert r == LabelPass(s.nodes, rest, prefix, rootName, s.count);
      DistinctTail(order);
      LabelPassClosedForm(s.nodes, rest, prefix, rootName, s.count);
      LabelPassFrame(s.nodes, rest, prefix, rootName, s.count);
      assert forall m :: 0 <= m < |rest| ==> rest[m] != order[0];
      CountersInFrame(s.nodes, nodes, rest, rootName);
      forall k | 0 <= k < |order|
        ensures r.nodes[order[k]].name == AssignedName(nodes, order, k, prefix, rootName, count)
      {
        if k > 0 {
          assert order[k] == rest[k - 1];
          AssignedNameShift(nodes, order, prefix, rootName, count, k);
        }
      }
    }
  }

  /** A counter-named node visited later got a strictly larger counter value. */
  lemma CountersInGrow(nodes: seq<Node>, order: seq<nat>, rootName: string, k1: nat, k2: nat)
    requires InArena(nodes, order) && k1 < k2 <= |order|
    requires TakesCounter(nodes[order[k1]], rootName)
    ensures CountersIn(nodes, order[..k2], rootName) >= CountersIn(nodes, order[..k1], rootName) + 1
  {
    assert order[..k2] == order[..k1] + order[k1..k2];
    CountersInAppend(nodes, order[..k1], order[k1..k2], rootName);
    assert order[k1..k2][0] == order[k1];
  }

  /** Counter-generated names are pairwise distinct, as the counter only grows. */
  lemma CounterNamesDistinct(nodes: seq<Node>, order: seq<nat>, prefix: string, rootName: string, count: nat, k1: nat, k2: nat)
    requires InArena(nodes, order) && Distinct(order)
    requires k1 < k2 < |order|
    requires TakesCounter(nodes[order[k1]], rootName) && TakesCounter(nodes[order[k2]], rootName)
    ensures var r := LabelPass(nodes, order, prefix, rootName, count);
      r.nodes[order[k1]].name != r.nodes[order[k2]].name
  {
    LabelPassClosedForm(nodes, order, prefix, rootName, count);
    CountersInGrow(nodes, order, rootName, k1, k2);
    PrefixedNumeralsDistinct(prefix,
      count + CountersIn(nodes, order[..k1], rootName) + 1,
      count + CountersIn(nodes, order[..k2], rootName) + 1);
  }

  /**
   * The first visited node, when anonymous, takes the root name if it is parentless
   * and the name is non-empty, and otherwise the first counter value.
   */
  lemma FirstVisitedLabel(nodes: seq<Node>, order: seq<nat>, prefix: string, rootName: string, count: nat)
    requires InArena(nodes, order) && order != [] && nodes[order[0]].name == ""
    ensures var r := LabelPass(nodes, order, prefix, rootName, count);
      r.nodes[order[0]].name ==
        if nodes[order[0]].parent.None? && rootName != "" then rootName else prefix + NatToString(count + 1)
  {
    var s := LabelStep(nodes, order[0], prefix, rootName, count);
    LabelPassFrame(s.nodes, order[1..], prefix, rootName, s.count);
  }

  /** The arena of `((a,b),c)`: the root 0, the inner node 1 and the leaves a, b, c. */
  function SmallTree(): seq<Node> {
    [ Node("", None, [1, 4]),
      Node("", Some(0), [2, 3]),
      Node("a", Some(1), []),
      Node("b", Some(1), []),
      Node("c", Some(0), []) ]
  }

  /** The pre-order walk of `((a,b),c)`. */
  lemma SmallTreeWalk()
    ensures Walk(SmallTree(), 0) == [0, 1, 2, 3, 4]
  {
    var t := SmallTree();
    assert Preorder(t, 2, 3) == [2] + PreorderAll(t, [], 2) == [2];
    assert Preorder(t, 3, 3) == [3];
    assert Preorder(t, 4, 4) == [4];
    assert PreorderAll(t, [3], 3) == [3];
    assert PreorderAll(t, [2, 3], 3) == [2, 3];
    assert Preorder(t, 1, 4) == [1, 2, 3];
    assert PreorderAll(t, [4], 4) == [4];
    assert PreorderAll(t, [1, 4], 4) == [1, 2, 3, 4];
  }

  /** Default labels: `((a,b)Edge1,c)Root`. */
  lemma DefaultLabelsExample()
    ensures var r := LabelPass(SmallTree(), Walk(SmallTree(), 0), "Edge", "Root", 0).nodes;
      r[0].name == "Root" && r[1].name == "Edge1" && r[2].name == "a" && r[3].name == "b" && r[4].name == "c"
  {
    SmallTreeWalk();
  }

  /** Without a root name the root is counted first: `((a,b)Edge2,c)Edge1`. */
  lemma NoRootNameExample()
    ensures var r := LabelPass(SmallTree(), Walk(SmallTree(), 0), "Edge", "", 0).nodes;
      r[0].name == "Edge1" && r[1].name == "Edge2" && r[2].name == "a" && r[3].name == "b" && r[4].name == "c"
  {
    SmallTreeWalk();
  }

  /** Custom prefix and root name: `((a,b)e1,c)root`. */
  lemma CustomLabelsExample()
    ensures var r := LabelPass(SmallTree(), Walk(SmallTree(), 0), "e", "root", 0).nodes;
      r[0].name == "root" && r[1].name == "e1" && r[2].name == "a" && r[3].name == "b" && r[4].name == "c"
  {
    SmallTreeWalk();
  }
}
