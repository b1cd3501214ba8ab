/**
 * `root_at` on its main path, in closed form. With P = [x, P1, ..., Pk, R] the chain
 * of parents from the node x up to the root R (k >= 2, so x lies at depth 3 or more)
 * and B the root child that is not Pk: the old root R is reused as the new root,
 * with children [x, P1]; every Pm (1 <= m <= k) has its parent and child links
 * along the path reversed; and B hangs from Pk in the slot that held P(k-1).
 */
module Reroot {
  import opened Wrappers
  import opened Arena

  /** What the main path relies on: a well-formed tree, the chain P from x to the root, B the other root child. */
  predicate RerootSetup(nodes: seq<Node>, root: nat, P: seq<nat>, B: nat) {
    && WellFormed(nodes, root)
    && ParentChain(nodes, P)
    && |P| >= 4
    && B in nodes[root].children && B != P[|P| - 2]
  }

  /** The first position of i in P. */
  function PosOf(P: seq<nat>, i: nat): (m: nat)
    requires i in P
    ensures m < |P| && P[m] == i
    ensures forall t :: 0 <= t < m ==> P[t] != i
  {
    if P[0] == i then 0 else 1 + PosOf(P[1..], i)
  }

  /** Path node Pm with its links reversed: parent P(m-1) (R for P1), and P(m+1) (B for Pk) in P(m-1)'s slot. */
  function Flipped(nodes: seq<Node>, P: seq<nat>, B: nat, m: nat): Node
    requires InArena(nodes, P) && |P| >= 4 && 1 <= m <= |P| - 2
  {
    var k := |P| - 2;
    var n := nodes[P[m]];
    n.(parent := Some(if m == 1 then P[k + 1] else P[m - 1]),
       children := Replace(n.children, P[m - 1], if m < k then P[m + 1] else B))
  }

  /**
   * Node i once P1..Pj are reversed: the state at the head of the loop while
   * (Pj, P(j+1)) is queued (j < k), and the final state for j = k.
   */
  function StageNode(nodes: seq<Node>, P: seq<nat>, B: nat, j: nat, i: nat): Node
    requires InArena(nodes, P) && |P| >= 4 && 1 <= j <= |P| - 2 && i < |nodes|
  {
    var k := |P| - 2;
    var R := P[k + 1];
    if i == R then nodes[i].(children := [P[0], P[1]])
    else if i == P[0] then nodes[i].(parent := Some(R))
    else if i == B then nodes[i].(parent := if j == k then Some(P[k]) else None)
    else if i in P[1..j + 1] then
      var m := PosOf(P, i);
      assert 1 <= m <= j by {
        var t :| 1 <= t <= j && P[t] == i;
      }
      Flipped(nodes, P, B, m)
    else if i == P[k] then nodes[i].(parent := None)
    else nodes[i]
  }

  function Stage(nodes: seq<Node>, P: seq<nat>, B: nat, j: nat): (r: seq<Node>)
    requires InArena(nodes, P) && |P| >= 4 && 1 <= j <= |P| - 2
    ensures |r| == |nodes|
  {
    seq(|nodes|, i requires 0 <= i < |nodes| => StageNode(nodes, P, B, j, i))
  }

  /** The arena `root_at` returns on its main path. */
  function Rerooted(nodes: seq<Node>, P: seq<nat>, B: nat): (r: seq<Node>)
    requires InArena(nodes, P) && |P| >= 4
    ensures |r| == |nodes|
  {
    Stage(nodes, P, B, |P| - 2)
  }

  /** Consequences of the setup: P is repetition-free and ends at the root; B is off the path and hangs from the root. */
  lemma SetupFacts(nodes: seq<Node>, root: nat, P: seq<nat>, B: nat)
    requires RerootSetup(nodes, root, P, B)
    ensures InArena(nodes, P) && Distinct(P) && P[|P| - 1] == root
    ensures B < |nodes| && B !in P && nodes[B].parent == Some(root)
    ensures forall t :: 0 <= t < |P| - 1 ==> P[t] in nodes[P[t + 1]].children
    ensures |nodes[root].children| == 2 && P[|P| - 2] in nodes[root].children
  {
    ParentChainEndsAtRoot(nodes, root, P);
    forall a, b | 0 <= a < b < |P|
      ensures P[a] != P[b]
    {
      ParentChainDistinct(nodes, P, a, b);
    }
    var kb :| 0 <= kb < |nodes[root].children| && nodes[root].children[kb] == B;
    assert nodes[B].parent == Some(root);
    forall t | 0 <= t < |P|
      ensures P[t] != B
    {
      if t == |P| - 1 {
        assert nodes[root].parent.None?;
      } else if t < |P| - 2 {
        assert nodes[P[t]].parent == Some(P[t + 1]);
        assert P[t + 1] != root;
      }
    }
    forall t | 0 <= t < |P| - 1
      ensures P[t] in nodes[P[t + 1]].children
    {
      assert nodes[P[t]].parent == Some(P[t + 1]);
    }
    assert nodes[P[|P| - 2]].parent == Some(root);
  }

  /** What the stage lemmas need: P repetition-free and B off it. */
  predicate PathApart(nodes: seq<Node>, P: seq<nat>, B: nat) {
    |P| >= 4 && InArena(nodes, P) && B < |nodes| && Distinct(P) && B !in P
  }

  lemma SetupApart(nodes: seq<Node>, root: nat, P: seq<nat>, B: nat)
    requires RerootSetup(nodes, root, P, B)
    ensures PathApart(nodes, P, B) && P[|P| - 1] == root
  {
    SetupFacts(nodes, root, P, B);
  }

  /** At every stage the old root has children [x, P1], x hangs from it, and B is detached until the last stage. */
  lemma StageEnds(nodes: seq<Node>, P: seq<nat>, B: nat, j: nat)
    requires PathApart(nodes, P, B) && 1 <= j <= |P| - 2
    ensures var st := Stage(nodes, P, B, j); var k := |P| - 2;
      && st[P[k + 1]] == nodes[P[k + 1]].(children := [P[0], P[1]])
      && st[P[0]] == nodes[P[0]].(parent := Some(P[k + 1]))
      && st[B] == nodes[B].(parent := if j == k then Some(P[k]) else None)
  {
    var k := |P| - 2;
    assert P[0] != P[k + 1];
  }

  /** At stage j, P1..Pj are reversed. */
  lemma StageFlipped(nodes: seq<Node>, P: seq<nat>, B: nat, j: nat, m: nat)
    requires PathApart(nodes, P, B) && 1 <= m <= j <= |P| - 2
    ensures Stage(nodes, P, B, j)[P[m]] == Flipped(nodes, P, B, m)
  {
    var k := |P| - 2;
    assert P[m] != P[k + 1] && P[m] != P[0];
    assert P[m] in P[1..j + 1] by {
      assert P[1..j + 1][m - 1] == P[m];
    }
    assert PosOf(P, P[m]) == m;
    assert Stage(nodes, P, B, j)[P[m]] == StageNode(nodes, P, B, j, P[m]);
  }

  /** At stage j, P(j+1)..Pk are as they were, except that Pk is detached from the root. */
  lemma StageAhead(nodes: seq<Node>, P: seq<nat>, B: nat, j: nat, m: nat)
    requires PathApart(nodes, P, B) && 1 <= j < m <= |P| - 2
    ensures Stage(nodes, P, B, j)[P[m]] ==
      if m == |P| - 2 then nodes[P[m]].(parent := None) else nodes[P[m]]
  {
    var k := |P| - 2;
    assert P[m] != P[k + 1] && P[m] != P[0];
    assert P[m] !in P[1..j + 1];
    assert Stage(nodes, P, B, j)[P[m]] == StageNode(nodes, P, B, j, P[m]);
  }

  /** Nodes off the path other than B are untouched at every stage. */
  lemma StageOff(nodes: seq<Node>, P: seq<nat>, B: nat, j: nat, i: nat)
    requires PathApart(nodes, P, B) && 1 <= j <= |P| - 2
    requires i < |nodes| && i !in P && i != B
    ensures Stage(nodes, P, B, j)[i] == nodes[i]
  {
    var k := |P| - 2;
    assert i != P[k + 1] && i != P[0] && i != P[k];
    assert i !in P[1..j + 1];
  }

  /** Node by node, what re-rooting along P with B makes of nodes. */
  predicate ShapeOf(nodes: seq<Node>, root: nat, P: seq<nat>, B: nat, r: seq<Node>) {
    var k := |P| - 2;
    && |P| >= 4 && InArena(nodes, P) && root < |nodes| && B < |nodes| && |r| == |nodes|
    && r[root] == nodes[root].(children := [P[0], P[1]])
    && r[P[0]] == nodes[P[0]].(parent := Some(root))
    && r[B] == nodes[B].(parent := Some(P[k]))
    && (forall m {:trigger r[P[m]]} :: 1 <= m <= k ==> r[P[m]] == Flipped(nodes, P, B, m))
    && (forall i :: 0 <= i < |nodes| && i !in P && i != B ==> r[i] == nodes[i])
  }

  lemma RerootedShape(nodes: seq<Node>, root: nat, P: seq<nat>, B: nat)
    requires RerootSetup(nodes, root, P, B)
    ensures InArena(nodes, P)
    ensures ShapeOf(nodes, root, P, B, Rerooted(nodes, P, B))
  {
    SetupApart(nodes, root, P, B);
    var k := |P| - 2;
    StageEnds(nodes, P, B, k);
    forall m | 1 <= m <= k {
      StageFlipped(nodes, P, B, k, m);
    }
    forall i | 0 <= i < |nodes| && i !in P && i != B {
      StageOff(nodes, P, B, k, i);
    }
  }

  /** In the setup, the root's two children are Pk and B. */
  lemma RootChildren(nodes: seq<Node>, root: nat, P: seq<nat>, B: nat, c: nat)
    requires RerootSetup(nodes, root, P, B) && c in nodes[root].children
    ensures c == P[|P| - 2] || c == B
  {
    ParentChainEndsAtRoot(nodes, root, P);
    var cs := nodes[root].children;
    var a := P[|P| - 2];
    assert nodes[a].parent == Some(root);
    assert a in cs;
    assert |cs| == 2;
    OneOfTwo(cs, a, B, c);
  }

  lemma OneOfTwo(cs: seq<nat>, a: nat, b: nat, c: nat)
    requires |cs| == 2 && a in cs && b in cs && a != b && c in cs
    ensures c == a || c == b
  {
  }

  /**
   * A child ch of a node q other than the root that is not the path node below q
   * is off the path, is not B, and is left as it was.
   */
  lemma ChildStays(nodes: seq<Node>, root: nat, P: seq<nat>, B: nat, r: seq<Node>, q: nat, ch: nat)
    requires RerootSetup(nodes, root, P, B) && ShapeOf(nodes, root, P, B, r)
    requires q < |nodes| && q != root && ch in nodes[q].children
    requires forall m :: 1 <= m < |P| && q == P[m] ==> ch != P[m - 1]
    ensures ch < |nodes| && ch !in P && ch != B
    ensures nodes[ch].parent == Some(q) && r[ch] == nodes[ch]
  {
    SetupFacts(nodes, root, P, B);
    var c :| 0 <= c < |nodes[q].children| && nodes[q].children[c] == ch;
    assert nodes[ch].parent == Some(q);
    forall t | 0 <= t < |P|
      ensures P[t] != ch
    {
      if t == |P| - 1 {
        assert nodes[root].parent.None?;
      } else {
        assert nodes[P[t]].parent == Some(P[t + 1]);
      }
    }
  }

  /** Every child link of node i in r points back to i. */
  predicate PointsBackAt(r: seq<Node>, i: nat)
    requires i < |r|
  {
    forall c :: 0 <= c < |r[i].children| ==> r[i].children[c] < |r| && r[r[i].children[c]].parent == Some(i)
  }

  lemma PointBackAtRoot(nodes: seq<Node>, root: nat, P: seq<nat>, B: nat, r: seq<Node>)
    requires ShapeOf(nodes, root, P, B, r) && P[|P| - 1] == root
    ensures PointsBackAt(r, root)
  {
    assert r[P[1]] == Flipped(nodes, P, B, 1);
  }

  /** The node that takes P(m-1)'s slot under Pm has Pm as its new parent. */
  lemma NewChildPointsBack(nodes: seq<Node>, root: nat, P: seq<nat>, B: nat, r: seq<Node>, m: nat)
    requires ShapeOf(nodes, root, P, B, r) && 1 <= m <= |P| - 2
    ensures var next := if m < |P| - 2 then P[m + 1] else B;
      next < |r| && r[next].parent == Some(P[m])
  {
    if m < |P| - 2 {
      assert r[P[m + 1]] == Flipped(nodes, P, B, m + 1);
    }
  }

  lemma PointBackOnPath(nodes: seq<Node>, root: nat, P: seq<nat>, B: nat, r: seq<Node>, m: nat)
    requires RerootSetup(nodes, root, P, B) && ShapeOf(nodes, root, P, B, r)
    requires 1 <= m <= |P| - 2
    ensures PointsBackAt(r, P[m])
  {
    var cs := nodes[P[m]].children;
    assert r[P[m]] == Flipped(nodes, P, B, m);
    forall c | 0 <= c < |r[P[m]].children|
      ensures r[P[m]].children[c] < |r| && r[r[P[m]].children[c]].parent == Some(P[m])
    {
      if cs[c] == P[m - 1] {
        NewChildPointsBack(nodes, root, P, B, r, m);
      } else {
        assert cs[c] in cs;
        assert forall t :: 1 <= t < |P| && P[m] == P[t] ==> cs[c] != P[t - 1] by {
          SetupFacts(nodes, root, P, B);
        }
        ChildStays(nodes, root, P, B, r, P[m], cs[c]);
      }
    }
  }

  lemma PointBackOffPath(nodes: seq<Node>, root: nat, P: seq<nat>, B: nat, r: seq<Node>, i: nat)
    requires RerootSetup(nodes, root, P, B) && ShapeOf(nodes, root, P, B, r)
    requires i < |nodes| && i != root
    requires forall m :: 1 <= m < |P| ==> P[m] != i
    ensures PointsBackAt(r, i)
  {
    SetupFacts(nodes, root, P, B);
    assert r[i].children == nodes[i].children by {
      if i !in P && i != B {
        assert r[i] == nodes[i];
      }
    }
    forall c | 0 <= c < |r[i].children|
      ensures r[i].children[c] < |r| && r[r[i].children[c]].parent == Some(i)
    {
      assert nodes[i].children[c] in nodes[i].children;
      ChildStays(nodes, root, P, B, r, i, nodes[i].children[c]);
    }
  }

  lemma ShapeChildrenPointBack(nodes: seq<Node>, root: nat, P: seq<nat>, B: nat, r: seq<Node>)
    requires RerootSetup(nodes, root, P, B) && ShapeOf(nodes, root, P, B, r)
    ensures ChildrenPointBack(r)
  {
    forall i | 0 <= i < |r|
      ensures PointsBackAt(r, i)
    {
      if i == root {
        SetupFacts(nodes, root, P, B);
        PointBackAtRoot(nodes, root, P, B, r);
      } else if exists m :: 1 <= m < |P| && P[m] == i {
        var m :| 1 <= m < |P| && P[m] == i;
        SetupFacts(nodes, root, P, B);
        PointBackOnPath(nodes, root, P, B, r, m);
      } else {
        PointBackOffPath(nodes, root, P, B, r, i);
      }
    }
    forall i, c | 0 <= i < |r| && 0 <= c < |r[i].children|
      ensures r[i].children[c] < |r| && r[r[i].children[c]].parent == Some(i)
    {
      assert PointsBackAt(r, i);
    }
  }

  /** The parent r records for node i, if any, lists i among its children. */
  predicate AdoptedAt(r: seq<Node>, i: nat)
    requires i < |r|
  {
    r[i].parent.Some? ==> r[i].parent.value < |r| && i in r[r[i].parent.value].children
  }

  lemma AdoptedOnPath(nodes: seq<Node>, root: nat, P: seq<nat>, B: nat, r: seq<Node>, m: nat)
    requires RerootSetup(nodes, root, P, B) && ShapeOf(nodes, root, P, B, r)
    requires 1 <= m <= |P| - 2
    ensures AdoptedAt(r, P[m])
  {
    SetupFacts(nodes, root, P, B);
    assert r[P[m]] == Flipped(nodes, P, B, m);
    if m >= 2 {
      assert r[P[m - 1]] == Flipped(nodes, P, B, m - 1);
      ReplaceMembers(nodes[P[m - 1]].children, P[m - 2], P[m], P[m - 2]);
    }
  }

  lemma AdoptedPartB(nodes: seq<Node>, root: nat, P: seq<nat>, B: nat, r: seq<Node>)
    requires RerootSetup(nodes, root, P, B) && ShapeOf(nodes, root, P, B, r)
    ensures AdoptedAt(r, B)
  {
    SetupFacts(nodes, root, P, B);
    var k := |P| - 2;
    assert r[P[k]] == Flipped(nodes, P, B, k);
    ReplaceMembers(nodes[P[k]].children, P[k - 1], B, P[k - 1]);
  }

  lemma AdoptedOffPath(nodes: seq<Node>, root: nat, P: seq<nat>, B: nat, r: seq<Node>, i: nat)
    requires RerootSetup(nodes, root, P, B) && ShapeOf(nodes, root, P, B, r)
    requires i < |nodes| && i !in P && i != B
    ensures AdoptedAt(r, i)
  {
    SetupFacts(nodes, root, P, B);
    assert r[i] == nodes[i];
    if nodes[i].parent.Some? {
      var p := nodes[i].parent.value;
      assert i in nodes[p].children;
      if p == root {
        RootChildren(nodes, root, P, B, i);
      } else if exists m :: 1 <= m <= |P| - 2 && P[m] == p {
        var m :| 1 <= m <= |P| - 2 && P[m] == p;
        assert r[P[m]] == Flipped(nodes, P, B, m);
        assert i != P[m - 1];
        ReplaceMembers(nodes[p].children, P[m - 1], if m < |P| - 2 then P[m + 1] else B, i);
      } else {
        assert r[p].children == nodes[p].children by {
          if p != P[0] && p != B {
            assert forall t :: 0 <= t < |P| ==> P[t] != p;
          }
        }
      }
    }
  }

  lemma ShapeParentsAdopt(nodes: seq<Node>, root: nat, P: seq<nat>, B: nat, r: seq<Node>)
    requires RerootSetup(nodes, root, P, B) && ShapeOf(nodes, root, P, B, r)
    ensures ParentsAdopt(r)
  {
    forall i | 0 <= i < |r|
      ensures AdoptedAt(r, i)
    {
      if i == root {
        SetupFacts(nodes, root, P, B);
      } else if i == P[0] {
        SetupFacts(nodes, root, P, B);
      } else if exists m :: 1 <= m < |P| && P[m] == i {
        var m :| 1 <= m < |P| && P[m] == i;
        SetupFacts(nodes, root, P, B);
        AdoptedOnPath(nodes, root, P, B, r, m);
      } else if i == B {
        AdoptedPartB(nodes, root, P, B, r);
      } else {
        AdoptedOffPath(nodes, root, P, B, r, i);
      }
    }
    forall i | 0 <= i < |r| && r[i].parent.Some?
      ensures r[i].parent.value < |r| && i in r[r[i].parent.value].children
    {
      assert AdoptedAt(r, i);
    }
  }

  lemma ShapeOnlyRootParentless(nodes: seq<Node>, root: nat, P: seq<nat>, B: nat, r: seq<Node>)
    requires RerootSetup(nodes, root, P, B) && ShapeOf(nodes, root, P, B, r)
    ensures OnlyRootParentless(r, root)
  {
    SetupFacts(nodes, root, P, B);
    forall i | 0 <= i < |r|
      ensures r[i].parent.None? <==> i == root
    {
      if exists m :: 1 <= m <= |P| - 2 && P[m] == i {
        var m :| 1 <= m <= |P| - 2 && P[m] == i;
        assert r[P[m]] == Flipped(nodes, P, B, m);
      } else if i != root && i != P[0] && i != B {
        assert forall t :: 0 <= t < |P| ==> P[t] != i;
        assert r[i] == nodes[i];
      }
    }
  }

  /** Pm keeps two distinct children: the node moved into P(m-1)'s slot did not hang from Pm. */
  lemma BifurcatingOnPath(nodes: seq<Node>, root: nat, P: seq<nat>, B: nat, r: seq<Node>, m: nat)
    requires RerootSetup(nodes, root, P, B) && ShapeOf(nodes, root, P, B, r)
    requires 1 <= m <= |P| - 2
    ensures |r[P[m]].children| == 2 && r[P[m]].children[0] != r[P[m]].children[1]
  {
    SetupFacts(nodes, root, P, B);
    var k := |P| - 2;
    var cs := nodes[P[m]].children;
    var next := if m < k then P[m + 1] else B;
    assert r[P[m]] == Flipped(nodes, P, B, m);
    assert |cs| == 2 && cs[0] != cs[1];
    var rc := Replace(cs, P[m - 1], next);
    assert r[P[m]].children == rc;
    assert rc[0] == (if cs[0] == P[m - 1] then next else cs[0]);
    assert rc[1] == (if cs[1] == P[m - 1] then next else cs[1]);
    assert nodes[next].parent != Some(P[m]) by {
      if m < k {
        assert nodes[P[m + 1]].parent == Some(P[m + 2]);
        assert P[m + 2] != P[m];
      } else {
        assert P[m] != root;
      }
    }
    assert nodes[cs[0]].parent == Some(P[m]) && nodes[cs[1]].parent == Some(P[m]);
  }

  lemma ShapeBifurcating(nodes: seq<Node>, root: nat, P: seq<nat>, B: nat, r: seq<Node>)
    requires RerootSetup(nodes, root, P, B) && ShapeOf(nodes, root, P, B, r)
    ensures Bifurcating(r)
  {
    forall i | 0 <= i < |r|
      ensures |r[i].children| == 0 || (|r[i].children| == 2 && r[i].children[0] != r[i].children[1])
    {
      if i == root {
        SetupFacts(nodes, root, P, B);
      } else if exists m :: 1 <= m < |P| && P[m] == i {
        var m :| 1 <= m < |P| && P[m] == i;
        SetupFacts(nodes, root, P, B);
        BifurcatingOnPath(nodes, root, P, B, r, m);
      } else {
        assert r[i].children == nodes[i].children by {
          if i !in P && i != B {
            assert r[i] == nodes[i];
          }
        }
      }
    }
  }

  /** Re-rooting along a path of length four or more yields a well-formed tree rooted at the old root. */
  lemma RerootedWellFormed(nodes: seq<Node>, root: nat, P: seq<nat>, B: nat)
    requires RerootSetup(nodes, root, P, B)
    ensures InArena(nodes, P)
    ensures WellFormed(Rerooted(nodes, P, B), root)
  {
    RerootedShape(nodes, root, P, B);
    var r := Rerooted(nodes, P, B);
    ShapeChildrenPointBack(nodes, root, P, B, r);
    ShapeParentsAdopt(nodes, root, P, B, r);
    ShapeOnlyRootParentless(nodes, root, P, B, r);
    ShapeBifurcating(nodes, root, P, B, r);
  }

  /**
   * A rank of the re-rooted arena: the new depth for the root, x, the path and B, and
   * the old depth lifted above all of those for every other node.
   */
  function RerootRank(nodes: seq<Node>, P: seq<nat>, B: nat, i: nat): nat {
    if |P| < 4 then 0
    else if i == P[|P| - 1] then 0
    else if i == P[0] then 1
    else if i == B then |P| - 1
    else if i in P then PosOf(P, i)
    else Depth(nodes, i) + |P|
  }

  /** Along the reversed path the rank drops from each Pm to its new parent. */
  lemma RankDropsOnPath(nodes: seq<Node>, root: nat, P: seq<nat>, B: nat, r: seq<Node>, m: nat)
    requires PathApart(nodes, P, B) && P[|P| - 1] == root && ShapeOf(nodes, root, P, B, r)
    requires 1 <= m <= |P| - 2
    ensures r[P[m]].parent.Some? && r[P[m]].parent.value < |r|
    ensures RerootRank(nodes, P, B, r[P[m]].parent.value) < RerootRank(nodes, P, B, P[m])
  {
    assert r[P[m]] == Flipped(nodes, P, B, m);
    assert P[m] != P[|P| - 1] && P[m] != P[0];
    assert PosOf(P, P[m]) == m;
    if m > 1 {
      assert P[m - 1] != P[|P| - 1] && P[m - 1] != P[0];
      assert PosOf(P, P[m - 1]) == m - 1;
    }
  }

  /** Off the path the parent link is the old one, and the rank drops along it. */
  lemma RankDropsOffPath(nodes: seq<Node>, root: nat, P: seq<nat>, B: nat, r: seq<Node>, i: nat)
    requires WellFormed(nodes, root) && Acyclic(nodes)
    requires PathApart(nodes, P, B) && P[|P| - 1] == root && ShapeOf(nodes, root, P, B, r)
    requires i < |nodes| && i !in P && i != B && r[i].parent.Some?
    ensures r[i].parent.value < |r|
    ensures RerootRank(nodes, P, B, r[i].parent.value) < RerootRank(nodes, P, B, i)
  {
    var q := nodes[i].parent.value;
    DepthStep(nodes, i, q);
    if q in P {
      var t := PosOf(P, q);
    }
  }

  /** Re-rooting an acyclic tree yields an acyclic tree. */
  lemma RerootedAcyclic(nodes: seq<Node>, root: nat, P: seq<nat>, B: nat)
    requires RerootSetup(nodes, root, P, B) && Acyclic(nodes)
    ensures InArena(nodes, P)
    ensures Acyclic(Rerooted(nodes, P, B))
  {
    SetupApart(nodes, root, P, B);
    RerootedShape(nodes, root, P, B);
    var r := Rerooted(nodes, P, B);
    var rank := (i: nat) => RerootRank(nodes, P, B, i);
    forall j | 0 <= j < |r| && r[j].parent.Some?
      ensures r[j].parent.value < |r| && rank(r[j].parent.value) < rank(j)
    {
      if exists m :: 0 <= m < |P| && P[m] == j {
        var m :| 0 <= m < |P| && P[m] == j;
        if 1 <= m <= |P| - 2 {
          RankDropsOnPath(nodes, root, P, B, r, m);
        }
      } else if j != B {
        RankDropsOffPath(nodes, root, P, B, r, j);
      }
    }
    RankedAcyclic(r, rank);
  }

  /** No stage renames a node. */
  lemma StageNames(nodes: seq<Node>, P: seq<nat>, B: nat, j: nat)
    requires InArena(nodes, P) && |P| >= 4 && 1 <= j <= |P| - 2
    ensures SameNames(Stage(nodes, P, B, j), nodes)
  {
    var st := Stage(nodes, P, B, j);
    forall i | 0 <= i < |nodes|
      ensures st[i].name == nodes[i].name
    {
      assert st[i] == StageNode(nodes, P, B, j, i);
    }
  }

  /** The loop pass that reaches P(j+1), at P(j+1) itself. */
  lemma StageStepHere(nodes: seq<Node>, P: seq<nat>, B: nat, j: nat, s: nat)
    requires PathApart(nodes, P, B) && 1 <= j <= |P| - 4
    requires |nodes[P[j + 1]].children| == 2 && nodes[P[j + 1]].children[0] != nodes[P[j + 1]].children[1]
    requires s < 2 && nodes[P[j + 1]].children[s] == P[j]
    ensures var st := Stage(nodes, P, B, j); var a := P[j + 1];
      && st[a] == nodes[a]
      && SetParent(SetSlot(st, a, s, P[j + 2]), a, Some(P[j]))[a] == Stage(nodes, P, B, j + 1)[a]
  {
    var a := P[j + 1];
    var st := Stage(nodes, P, B, j);
    var cs := nodes[a].children;
    StageAhead(nodes, P, B, j, j + 1);
    StageFlipped(nodes, P, B, j + 1, j + 1);
    SlotWriteIsReplace(cs, s, P[j + 2]);
    assert SetSlot(st, a, s, P[j + 2])[a] == nodes[a].(children := cs[s := P[j + 2]]);
    assert Flipped(nodes, P, B, j + 1) == nodes[a].(parent := Some(P[j]), children := Replace(cs, P[j], P[j + 2]));
  }

  /** The loop pass that reaches P(j+1), at x and at the root. */
  lemma StageStepEnds(nodes: seq<Node>, P: seq<nat>, B: nat, j: nat, s: nat, m: nat)
    requires PathApart(nodes, P, B) && 1 <= j <= |P| - 4
    requires |nodes[P[j + 1]].children| == 2
    requires s < 2 && (m == 0 || m == |P| - 1)
    ensures var st := Stage(nodes, P, B, j); var a := P[j + 1];
      && st[a] == nodes[a]
      && SetParent(SetSlot(st, a, s, P[j + 2]), a, Some(P[j]))[P[m]] == Stage(nodes, P, B, j + 1)[P[m]]
  {
    StageAhead(nodes, P, B, j, j + 1);
    assert P[m] != P[j + 1];
    StageEnds(nodes, P, B, j);
    StageEnds(nodes, P, B, j + 1);
  }

  /** The loop pass that reaches P(j+1), at the path nodes already reversed. */
  lemma StageStepBehind(nodes: seq<Node>, P: seq<nat>, B: nat, j: nat, s: nat, m: nat)
    requires PathApart(nodes, P, B) && 1 <= j <= |P| - 4
    requires |nodes[P[j + 1]].children| == 2
    requires s < 2 && 1 <= m <= j
    ensures var st := Stage(nodes, P, B, j); var a := P[j + 1];
      && st[a] == nodes[a]
      && SetParent(SetSlot(st, a, s, P[j + 2]), a, Some(P[j]))[P[m]] == Stage(nodes, P, B, j + 1)[P[m]]
  {
    StageAhead(nodes, P, B, j, j + 1);
    assert P[m] != P[j + 1];
    StageFlipped(nodes, P, B, j, m);
    StageFlipped(nodes, P, B, j + 1, m);
  }

  /** The loop pass that reaches P(j+1), at the path nodes above it. */
  lemma StageStepAbove(nodes: seq<Node>, P: seq<nat>, B: nat, j: nat, s: nat, m: nat)
    requires PathApart(nodes, P, B) && 1 <= j <= |P| - 4
    requires |nodes[P[j + 1]].children| == 2
    requires s < 2 && j + 1 < m <= |P| - 2
    ensures var st := Stage(nodes, P, B, j); var a := P[j + 1];
      && st[a] == nodes[a]
      && SetParent(SetSlot(st, a, s, P[j + 2]), a, Some(P[j]))[P[m]] == Stage(nodes, P, B, j + 1)[P[m]]
  {
    StageAhead(nodes, P, B, j, j + 1);
    assert P[m] != P[j + 1];
    StageAhead(nodes, P, B, j, m);
    StageAhead(nodes, P, B, j + 1, m);
  }

  /** The loop pass that reaches P(j+1), off the path. */
  lemma StageStepOffPath(nodes: seq<Node>, P: seq<nat>, B: nat, j: nat, s: nat, i: nat)
    requires PathApart(nodes, P, B) && 1 <= j <= |P| - 4
    requires |nodes[P[j + 1]].children| == 2
    requires s < 2 && i < |nodes| && i !in P
    ensures var st := Stage(nodes, P, B, j); var a := P[j + 1];
      && st[a] == nodes[a]
      && SetParent(SetSlot(st, a, s, P[j + 2]), a, Some(P[j]))[i] == Stage(nodes, P, B, j + 1)[i]
  {
    StageAhead(nodes, P, B, j, j + 1);
    if i == B {
      StageEnds(nodes, P, B, j);
      StageEnds(nodes, P, B, j + 1);
    } else {
      StageOff(nodes, P, B, j, i);
      StageOff(nodes, P, B, j + 1, i);
    }
  }

  /**
   * One pass of the loop while P(j+1) still has a parent: P(j+2) takes Pj's slot
   * under P(j+1), and P(j+1) hangs from Pj.
   */
  lemma StageStep(nodes: seq<Node>, P: seq<nat>, B: nat, j: nat, s: nat)
    requires PathApart(nodes, P, B) && 1 <= j <= |P| - 4
    requires |nodes[P[j + 1]].children| == 2 && nodes[P[j + 1]].children[0] != nodes[P[j + 1]].children[1]
    requires s < 2 && nodes[P[j + 1]].children[s] == P[j]
    ensures var st := Stage(nodes, P, B, j); var a := P[j + 1];
      && st[a] == nodes[a]
      && SetParent(SetSlot(st, a, s, P[j + 2]), a, Some(P[j])) == Stage(nodes, P, B, j + 1)
  {
    var st := Stage(nodes, P, B, j);
    var a := P[j + 1];
    StageAhead(nodes, P, B, j, j + 1);
    var lhs := SetParent(SetSlot(st, a, s, P[j + 2]), a, Some(P[j]));
    forall i | 0 <= i < |nodes|
      ensures lhs[i] == Stage(nodes, P, B, j + 1)[i]
    {
      if i == a {
        StageStepHere(nodes, P, B, j, s);
      } else if exists m :: 0 <= m < |P| && P[m] == i {
        var m :| 0 <= m < |P| && P[m] == i;
        if m == 0 || m == |P| - 1 {
          StageStepEnds(nodes, P, B, j, s, m);
        } else if m <= j {
          StageStepBehind(nodes, P, B, j, s, m);
        } else if j + 1 < m {
          StageStepAbove(nodes, P, B, j, s, m);
        }
      } else {
        StageStepOffPath(nodes, P, B, j, s, i);
      }
    }
  }

  /** The updates `root_at` makes before its loop (the partA, partB, root and P1 links), as one arena. */
  function BeforeLoop(nodes: seq<Node>, P: seq<nat>, B: nat, s: nat): seq<Node>
    requires PathApart(nodes, P, B) && s < |nodes[P[1]].children|
  {
    var k := |P| - 2;
    var R := P[k + 1];
    var n1 := SetParent(nodes, P[k], None);
    var n2 := SetParent(n1, B, None);
    var n3 := SetChildren(n2, R, [P[0], P[1]]);
    assert n3[P[1]] == nodes[P[1]] by {
      assert P[1] != P[k] && P[1] != R;
    }
    var n4 := SetSlot(n3, P[1], s, P[2]);
    var n5 := SetParent(n4, P[0], Some(R));
    SetParent(n5, P[1], Some(R))
  }

  lemma BeforeLoopOnPath(nodes: seq<Node>, P: seq<nat>, B: nat, s: nat, m: nat)
    requires PathApart(nodes, P, B) && |nodes[P[1]].children| == 2
    requires nodes[P[1]].children[0] != nodes[P[1]].children[1]
    requires s < 2 && nodes[P[1]].children[s] == P[0]
    requires m < |P|
    ensures BeforeLoop(nodes, P, B, s)[P[m]] == Stage(nodes, P, B, 1)[P[m]]
  {
    var k := |P| - 2;
    StageEnds(nodes, P, B, 1);
    if m == 1 {
      var cs := nodes[P[1]].children;
      StageFlipped(nodes, P, B, 1, 1);
      SlotWriteIsReplace(cs, s, P[2]);
      assert Flipped(nodes, P, B, 1) == nodes[P[1]].(parent := Some(P[k + 1]), children := Replace(cs, P[0], P[2]));
    } else if 1 < m <= k {
      StageAhead(nodes, P, B, 1, m);
    }
  }

  lemma BeforeLoopOffPath(nodes: seq<Node>, P: seq<nat>, B: nat, s: nat, i: nat)
    requires PathApart(nodes, P, B) && |nodes[P[1]].children| == 2 && s < 2
    requires i < |nodes| && i !in P
    ensures BeforeLoop(nodes, P, B, s)[i] == Stage(nodes, P, B, 1)[i]
  {
    if i == B {
      StageEnds(nodes, P, B, 1);
    } else {
      StageOff(nodes, P, B, 1, i);
    }
  }

  /** Before the loop the arena is at stage 1: P1 is reversed and (x, P1)'s successor is queued. */
  lemma BeforeLoopIsStageOne(nodes: seq<Node>, P: seq<nat>, B: nat, s: nat)
    requires PathApart(nodes, P, B) && |nodes[P[1]].children| == 2
    requires nodes[P[1]].children[0] != nodes[P[1]].children[1]
    requires s < 2 && nodes[P[1]].children[s] == P[0]
    ensures BeforeLoop(nodes, P, B, s) == Stage(nodes, P, B, 1)
  {
    var lhs := BeforeLoop(nodes, P, B, s);
    forall i | 0 <= i < |nodes|
      ensures lhs[i] == Stage(nodes, P, B, 1)[i]
    {
      if exists m :: 0 <= m < |P| && P[m] == i {
        var m :| 0 <= m < |P| && P[m] == i;
        BeforeLoopOnPath(nodes, P, B, s, m);
      } else {
        BeforeLoopOffPath(nodes, P, B, s, i);
      }
    }
  }

  /** The last loop pass, at Pk: B takes P(k-1)'s slot and hangs from Pk, and Pk hangs from P(k-1). */
  function LastPass(nodes: seq<Node>, P: seq<nat>, B: nat, s: nat): seq<Node>
    requires PathApart(nodes, P, B) && s < |nodes[P[|P| - 2]].children|
  {
    var k := |P| - 2;
    var st := Stage(nodes, P, B, k - 1);
    StageAhead(nodes, P, B, k - 1, k);
    var n1 := SetSlot(st, P[k], s, B);
    var n2 := SetParent(n1, B, Some(P[k]));
    SetParent(n2, P[k], Some(P[k - 1]))
  }

  lemma LastPassHere(nodes: seq<Node>, P: seq<nat>, B: nat, s: nat)
    requires PathApart(nodes, P, B) && |nodes[P[|P| - 2]].children| == 2
    requires nodes[P[|P| - 2]].children[0] != nodes[P[|P| - 2]].children[1]
    requires s < 2 && nodes[P[|P| - 2]].children[s] == P[|P| - 3]
    ensures LastPass(nodes, P, B, s)[P[|P| - 2]] == Stage(nodes, P, B, |P| - 2)[P[|P| - 2]]
  {
    var k := |P| - 2;
    var cs := nodes[P[k]].children;
    StageAhead(nodes, P, B, k - 1, k);
    StageFlipped(nodes, P, B, k, k);
    SlotWriteIsReplace(cs, s, B);
    assert Flipped(nodes, P, B, k) == nodes[P[k]].(parent := Some(P[k - 1]), children := Replace(cs, P[k - 1], B));
  }

  lemma LastPassAt(nodes: seq<Node>, P: seq<nat>, B: nat, s: nat, i: nat)
    requires PathApart(nodes, P, B) && |nodes[P[|P| - 2]].children| == 2
    requires s < 2 && i < |nodes| && i != P[|P| - 2]
    ensures LastPass(nodes, P, B, s)[i] == Stage(nodes, P, B, |P| - 2)[i]
  {
    var k := |P| - 2;
    StageAhead(nodes, P, B, k - 1, k);
    if exists m :: 0 <= m < |P| && P[m] == i {
      var m :| 0 <= m < |P| && P[m] == i;
      if m == 0 || m == k + 1 {
        StageEnds(nodes, P, B, k - 1);
        StageEnds(nodes, P, B, k);
      } else if 1 <= m < k {
        StageFlipped(nodes, P, B, k - 1, m);
        StageFlipped(nodes, P, B, k, m);
      }
    } else if i == B {
      StageEnds(nodes, P, B, k - 1);
      StageEnds(nodes, P, B, k);
    } else {
      StageOff(nodes, P, B, k - 1, i);
      StageOff(nodes, P, B, k, i);
    }
  }

  /** After the last pass the arena is the re-rooted one. */
  lemma LastPassIsRerooted(nodes: seq<Node>, P: seq<nat>, B: nat, s: nat)
    requires PathApart(nodes, P, B) && |nodes[P[|P| - 2]].children| == 2
    requires nodes[P[|P| - 2]].children[0] != nodes[P[|P| - 2]].children[1]
    requires s < 2 && nodes[P[|P| - 2]].children[s] == P[|P| - 3]
    ensures LastPass(nodes, P, B, s) == Rerooted(nodes, P, B)
  {
    var lhs := LastPass(nodes, P, B, s);
    forall i | 0 <= i < |nodes|
      ensures lhs[i] == Rerooted(nodes, P, B)[i]
    {
      if i == P[|P| - 2] {
        LastPassHere(nodes, P, B, s);
      } else {
        LastPassAt(nodes, P, B, s, i);
      }
    }
  }

  /** The old root is the new root, with children exactly [x, P1], and both point back to it. */
  lemma RerootedRootLinks(nodes: seq<Node>, root: nat, P: seq<nat>, B: nat)
    requires RerootSetup(nodes, root, P, B)
    ensures InArena(nodes, P)
    ensures var r := Rerooted(nodes, P, B);
      && r[root].name == nodes[root].name && r[root].parent.None?
      && r[root].children == [P[0], P[1]]
      && r[P[0]].parent == Some(root) && r[P[1]].parent == Some(root)
  {
    RerootedShape(nodes, root, P, B);
    var r := Rerooted(nodes, P, B);
    assert r[P[1]] == Flipped(nodes, P, B, 1);
  }

  /**
   * Along the old path, every Pm (2 <= m <= k) now hangs from its former path child
   * P(m-1), and below P1..P(k-1) the former parent P(m+1) sits in P(m-1)'s slot.
   */
  lemma RerootedPathReversed(nodes: seq<Node>, root: nat, P: seq<nat>, B: nat)
    requires RerootSetup(nodes, root, P, B)
    ensures InArena(nodes, P)
    ensures var r := Rerooted(nodes, P, B); var k := |P| - 2;
      && (forall m :: 2 <= m <= k ==> r[P[m]].parent == Some(P[m - 1]))
      && (forall m :: 1 <= m < k ==> r[P[m]].children == Replace(nodes[P[m]].children, P[m - 1], P[m + 1]))
  {
    RerootedShape(nodes, root, P, B);
    ShapePathReversed(nodes, root, P, B, Rerooted(nodes, P, B));
  }

  lemma ShapePathReversed(nodes: seq<Node>, root: nat, P: seq<nat>, B: nat, r: seq<Node>)
    requires ShapeOf(nodes, root, P, B, r)
    ensures var k := |P| - 2;
      && (forall m :: 2 <= m <= k ==> r[P[m]].parent == Some(P[m - 1]))
      && (forall m :: 1 <= m < k ==> r[P[m]].children == Replace(nodes[P[m]].children, P[m - 1], P[m + 1]))
  {
    var k := |P| - 2;
    forall m | 2 <= m <= k
      ensures r[P[m]].parent == Some(P[m - 1])
    {
      assert r[P[m]] == Flipped(nodes, P, B, m);
    }
    forall m | 1 <= m < k
      ensures r[P[m]].children == Replace(nodes[P[m]].children, P[m - 1], P[m + 1])
    {
      assert r[P[m]] == Flipped(nodes, P, B, m);
    }
  }

  /** B takes P(k-1)'s slot under the top path node Pk, hangs from Pk, and keeps its children. */
  lemma RerootedPartB(nodes: seq<Node>, root: nat, P: seq<nat>, B: nat)
    requires RerootSetup(nodes, root, P, B)
    ensures InArena(nodes, P) && B < |nodes|
    ensures var r := Rerooted(nodes, P, B); var k := |P| - 2;
      && r[P[k]].children == Replace(nodes[P[k]].children, P[k - 1], B)
      && r[B].parent == Some(P[k]) && r[B].children == nodes[B].children
  {
    RerootedShape(nodes, root, P, B);
    var r := Rerooted(nodes, P, B);
    assert r[P[|P| - 2]] == Flipped(nodes, P, B, |P| - 2);
  }

  /** The node set and every name stay; nodes off the path other than B keep parent and children, x its children. */
  lemma RerootedFrame(nodes: seq<Node>, root: nat, P: seq<nat>, B: nat)
    requires RerootSetup(nodes, root, P, B)
    ensures InArena(nodes, P)
    ensures var r := Rerooted(nodes, P, B);
      && SameNames(r, nodes)
      && (forall i :: 0 <= i < |nodes| && i !in P && i != B ==> r[i] == nodes[i])
      && r[P[0]].children == nodes[P[0]].children
  {
    RerootedShape(nodes, root, P, B);
    StageNames(nodes, P, B, |P| - 2);
  }

  /** The chain of parents from x to the root. */
  function PathToRoot(nodes: seq<Node>, x: nat): (P: seq<nat>)
    requires Acyclic(nodes) && x < |nodes|
    ensures ParentChain(nodes, P) && P[0] == x
  {
    PathUp(nodes, x, |nodes|).value
  }

  /** What `root_at` returns: the input tree itself, or a re-rooted arena. */
  datatype Rooting = Unchanged | Moved(nodes: seq<Node>)

  /**
   * `root_at(otree, node_name)` on the arena of the copy: KeyError when no node has
   * the name, AttributeError for the root (it has no ancestor), the input itself when
   * the parent is the root, Unsupported at depth 2, and otherwise the arena re-rooted
   * along the path from the node with partA the root child above it.
   */
  function RootAtOutcome(nodes: seq<Node>, root: nat, name: string): (r: Result<Rooting, Error>)
    requires WellFormed(nodes, root) && Acyclic(nodes)
  {
    var order := Walk(nodes, root);
    match FindAt(nodes, order, name)
    case None => Err(KeyError)
    case Some(k) =>
      var x := order[k];
      match nodes[x].parent
      case None => Err(AttributeError)
      case Some(p) =>
        if nodes[p].name == nodes[root].name then Ok(Unchanged)
        else
          var P := PathToRoot(nodes, x);
          if |P| < 4 then Err(Unsupported)
          else
            ParentChainEndsAtRoot(nodes, root, P);
            assert nodes[P[|P| - 2]].parent == Some(root);
            assert P[|P| - 2] in nodes[root].children;
            Ok(Moved(Rerooted(nodes, P, OtherChild(nodes, root, P[|P| - 2]))))
  }

  /** `root_at` raises KeyError exactly when no node of the tree carries the name. */
  lemma RootAtKeyError(nodes: seq<Node>, root: nat, name: string)
    requires WellFormed(nodes, root) && Acyclic(nodes)
    ensures RootAtOutcome(nodes, root, name) == Err(KeyError) <==>
      forall i :: 0 <= i < |nodes| ==> nodes[i].name != name
  {
    WalkMisses(nodes, root, name);
  }

  /**
   * Which branch `root_at` takes for node x: AttributeError exactly for the root, the
   * input itself exactly when x hangs from the root, Unsupported exactly at depth 2,
   * and a re-rooted arena exactly when the path from x to the root has four nodes or more.
   */
  lemma RootAtCases(nodes: seq<Node>, root: nat, x: nat)
    requires WellFormed(nodes, root) && Acyclic(nodes) && UniquelyNamed(nodes) && x < |nodes|
    ensures var r := RootAtOutcome(nodes, root, nodes[x].name);
      && (r == Err(AttributeError) <==> x == root)
      && (r == Ok(Unchanged) <==> nodes[x].parent == Some(root))
      && (r == Err(Unsupported) <==>
            nodes[x].parent.Some? && nodes[x].parent != Some(root) &&
            nodes[nodes[x].parent.value].parent == Some(root))
      && (r.Ok? && r.value.Moved? <==> |PathToRoot(nodes, x)| >= 4)
  {
    var P := PathToRoot(nodes, x);
    ParentChainEndsAtRoot(nodes, root, P);
    if x == root {
      FindInWalk(nodes, root, x);
      ChainLink(nodes, P, 0);
    } else {
      var p := nodes[x].parent.value;
      assert P[1] == p;
      if p == root {
        FindInWalk(nodes, root, x);
        ChainLink(nodes, P, 1);
      } else if nodes[p].parent == Some(root) {
        RootAtDepthTwo(nodes, root, x);
      } else {
        RootAtDeeper(nodes, root, x);
      }
    }
  }

  lemma RootAtDepthTwo(nodes: seq<Node>, root: nat, x: nat)
    requires WellFormed(nodes, root) && Acyclic(nodes) && UniquelyNamed(nodes) && x < |nodes|
    requires nodes[x].parent.Some? && nodes[x].parent != Some(root)
    requires nodes[nodes[x].parent.value].parent == Some(root)
    ensures |PathToRoot(nodes, x)| == 3
    ensures RootAtOutcome(nodes, root, nodes[x].name) == Err(Unsupported)
  {
    FindInWalk(nodes, root, x);
    var P := PathToRoot(nodes, x);
    ParentChainEndsAtRoot(nodes, root, P);
    assert P[2] == root;
    if |P| > 3 {
      ParentChainDistinct(nodes, P, 2, |P| - 1);
    }
  }

  lemma RootAtDeeper(nodes: seq<Node>, root: nat, x: nat)
    requires WellFormed(nodes, root) && Acyclic(nodes) && UniquelyNamed(nodes) && x < |nodes|
    requires nodes[x].parent.Some? && nodes[x].parent != Some(root)
    requires nodes[nodes[x].parent.value].parent != Some(root)
    ensures |PathToRoot(nodes, x)| >= 4
    ensures RootAtOutcome(nodes, root, nodes[x].name).Ok?
    ensures RootAtOutcome(nodes, root, nodes[x].name).value.Moved?
  {
    FindInWalk(nodes, root, x);
    var P := PathToRoot(nodes, x);
    ParentChainEndsAtRoot(nodes, root, P);
    assert nodes[P[1]].parent.Some?;
    assert P[2] != root;
  }

  /**
   * On its main path `root_at` yields a well-formed tree over the same nodes and
   * names, still rooted at the old root, whose first root child is the named node.
   */
  lemma RootAtMoved(nodes: seq<Node>, root: nat, name: string)
    requires WellFormed(nodes, root) && Acyclic(nodes)
    requires RootAtOutcome(nodes, root, name).Ok? && RootAtOutcome(nodes, root, name).value.Moved?
    ensures var ns := RootAtOutcome(nodes, root, name).value.nodes;
      && WellFormed(ns, root) && Acyclic(ns) && SameNames(ns, nodes)
      && |ns[root].children| == 2 && nodes[ns[root].children[0]].name == name
  {
    var order := Walk(nodes, root);
    var k := FindAt(nodes, order, name).value;
    var x := order[k];
    var P := PathToRoot(nodes, x);
    ParentChainEndsAtRoot(nodes, root, P);
    assert nodes[P[|P| - 2]].parent == Some(root);
    assert P[|P| - 2] in nodes[root].children;
    var B := OtherChild(nodes, root, P[|P| - 2]);
    assert RerootSetup(nodes, root, P, B);
    RerootedWellFormed(nodes, root, P, B);
    RerootedAcyclic(nodes, root, P, B);
    RerootedFrame(nodes, root, P, B);
    RerootedRootLinks(nodes, root, P, B);
  }
}
