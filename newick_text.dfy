/**
 * Labelling of anonymous internal nodes directly in Newick text (`add_edges` in
 * src/pylotree/tree.py), and the root label chosen by that file's `Tree`.
 */
module NewickText {
  import opened Decimal

  /** True when the `)` at position k is directly followed by `)` or `,`: an edge label goes there. */
  predicate EdgeCloser(s: string, k: nat) {
    k + 1 < |s| && s[k] == ')' && (s[k + 1] == ')' || s[k + 1] == ',')
  }

  /**
   * What `add_edges` still appends once its loop has reached position i with `count` as the
   * number of the next edge label: the source's loop read as a recursion on i.
   */
  function Rewritten(s: string, i: nat, edge: string, root: string, count: nat): string
    decreases |s| - i
  {
    if i + 1 >= |s| then ""
    else if s[i + 1] == ';' then LastPiece(s, i, root)
    else Piece(s, i, edge, count) + Rewritten(s, i + 1, edge, root, NextCount(s, i, count))
  }

  /** What one step appends before the first `;`: the character, or `)` and a fresh edge label. */
  function Piece(s: string, i: nat, edge: string, count: nat): string
    requires i < |s|
  {
    if EdgeCloser(s, i) then ")" + edge + NatToString(count) else [s[i]]
  }

  /** The number the next edge label will carry after the step at position i. */
  function NextCount(s: string, i: nat, count: nat): nat {
    if EdgeCloser(s, i) then count + 1 else count
  }

  /** What the step that meets the first `;` appends before returning. */
  function LastPiece(s: string, i: nat, root: string): string
    requires i + 1 < |s|
  {
    if s[i] == ')' then [s[i]] + root + [s[i + 1]] else [s[i], s[i + 1]]
  }

  /** `add_edges(newick, edge, root)`: one pass over adjacent character pairs. */
  method AddEdges(newick: string, edge: string, root: string) returns (out: string)
    ensures out == Rewritten(newick, 0, edge, root, 1)
  {
    var count := 1;
    out := "";
    var i := 0;
    while i + 1 < |newick|
      invariant i <= |newick|
      invariant out + Rewritten(newick, i, edge, root, count) == Rewritten(newick, 0, edge, root, 1)
    {
      var charA, charB := newick[i], newick[i + 1];
      ghost var before, c0 := out, count;
      if charB == ';' {
        assert Rewritten(newick, i, edge, root, count) == LastPiece(newick, i, root);
        if charA == ')' {
          out := out + ([charA] + root + [charB]);
          return;
        } else {
          assert [charA] + [charB] == LastPiece(newick, i, root);
          out := out + [charA] + [charB];
          return;
        }
      } else {
        assert Rewritten(newick, i, edge, root, count)
          == Piece(newick, i, edge, count) + Rewritten(newick, i + 1, edge, root, NextCount(newick, i, count));
        if charA == ')' && (charB == ')' || charB == ',') {
          out := out + (")" + edge + NatToString(count));
          count := count + 1;
        } else {
          out := out + [charA];
        }
        assert out == before + Piece(newick, i, edge, c0) && count == NextCount(newick, i, c0);
        AppendStep(before, Piece(newick, i, edge, c0), Rewritten(newick, i + 1, edge, root, count));
      }
      i := i + 1;
    }
    assert Rewritten(newick, i, edge, root, count) == "";
  }

  lemma AppendStep(before: string, piece: string, rest: string)
    ensures (before + piece) + rest == before + (piece + rest)
  {
  }

  /** The root label `Tree.__attrs_post_init__` passes: `self.name or "Root"` ("" stands for None too). */
  function RootLabel(name: string): (chosen: string)
    ensures chosen != ""
    ensures name != "" ==> chosen == name
    ensures name == "" ==> chosen == "Root"
  {
    if name != "" then name else "Root"
  }

  /** The rewrite `Tree.__attrs_post_init__` applies to its text before parsing it. */
  method PostInitText(newick: string, name: string) returns (text: string)
    ensures text == Rewritten(newick, 0, "Edge", RootLabel(name), 1)
    ensures EndsUnlabelled(newick) ==>
      |text| >= |RootLabel(name)| + 2 &&
      text[|text| - |RootLabel(name)| - 2..] == ")" + RootLabel(name) + ";"
  {
    text := AddEdges(newick, "Edge", RootLabel(name));
    if EndsUnlabelled(newick) {
      RootLabelAtEnd(newick, "Edge", RootLabel(name));
    }
  }

  // ---------------------------------------------------------------------------
  // A closed form of the rewrite, independent of the loop

  /** No `;` at positions 1 .. m-1: the loop has not stopped before looking at position m. */
  predicate NoStopBefore(s: string, m: nat) {
    forall j :: 1 <= j < m && j < |s| ==> s[j] != ';'
  }

  /** The first position at or after `from` holding `;`, or |s| when there is none. */
  function FirstSemicolon(s: string, from: nat): (m: nat)
    requires from <= |s|
    ensures from <= m <= |s|
    ensures m < |s| ==> s[m] == ';'
    ensures forall j :: from <= j < m ==> s[j] != ';'
    decreases |s| - from
  {
    if from == |s| || s[from] == ';' then from else FirstSemicolon(s, from + 1)
  }

  /**
   * How many input characters reach the output: everything up to and including the first
   * `;` (looked for from position 1), or all but the last character when there is none.
   */
  function Kept(s: string): (n: nat)
    ensures n <= |s|
  {
    if |s| == 0 then 0
    else
      var m := FirstSemicolon(s, 1);
      if m < |s| then m + 1 else |s| - 1
  }

  /** The number of edge-label positions strictly before position k. */
  function Closers(s: string, k: nat): nat {
    if k == 0 then 0 else Closers(s, k - 1) + (if EdgeCloser(s, k - 1) then 1 else 0)
  }

  /** The label the rewrite inserts right after the character at position k. */
  function Label(s: string, edge: string, root: string, count: nat, k: nat): string {
    if k + 1 < |s| && s[k] == ')' && s[k + 1] == ';' then root
    else if EdgeCloser(s, k) then edge + NatToString(count + Closers(s, k))
    else ""
  }

  function Join(parts: seq<string>): string {
    if parts == [] then "" else parts[0] + Join(parts[1..])
  }

  /** Each kept character followed by its label. */
  function Pieces(s: string, edge: string, root: string, count: nat): (ps: seq<string>)
    ensures |ps| == Kept(s)
  {
    seq(Kept(s), k requires 0 <= k < Kept(s) => [s[k]] + Label(s, edge, root, count, k))
  }

  lemma JoinTwo(p: string, q: string)
    ensures Join([p, q]) == p + q
  {
    assert [p, q][1..] == [q];
    assert [q][1..] == [];
    assert Join([q]) == q + Join([]);
  }

  /**
   * The rewrite, in closed form: the output is the kept part of the input with, after each
   * kept character, its label — the root label after a `)` that directly precedes `;`, the
   * label `edge + str(count + j)` after the j-th `)` (from 0) directly followed by `)` or
   * `,`, and nothing anywhere else. Stated for every position the loop can reach.
   */
  lemma {:induction false} RewrittenClosedForm(s: string, i: nat, edge: string, root: string, count: nat)
    requires (i == 0 || i < |s|) && NoStopBefore(s, i + 1)
    ensures i <= Kept(s)
    ensures Rewritten(s, i, edge, root, count + Closers(s, i)) == Join(Pieces(s, edge, root, count)[i..])
    decreases |s| - i
  {
    var ps := Pieces(s, edge, root, count);
    if i + 1 >= |s| {
      if |s| > 0 {
        assert FirstSemicolon(s, 1) == |s| by {
          assert NoStopBefore(s, |s|);
        }
      }
      assert ps[i..] == [];
    } else if s[i + 1] == ';' {
      ClosedFormAtStop(s, i, edge, root, count);
    } else {
      RewrittenClosedForm(s, i + 1, edge, root, count);
      ClosedFormStep(s, i, edge, root, count);
    }
  }

  lemma ClosedFormAtStop(s: string, i: nat, edge: string, root: string, count: nat)
    requires i + 1 < |s| && s[i + 1] == ';' && NoStopBefore(s, i + 1)
    ensures i <= Kept(s)
    ensures Rewritten(s, i, edge, root, count + Closers(s, i)) == Join(Pieces(s, edge, root, count)[i..])
  {
    var ps := Pieces(s, edge, root, count);
    assert FirstSemicolon(s, 1) == i + 1;
    assert Kept(s) == i + 2;
    assert Label(s, edge, root, count, i + 1) == "";
    assert ps[i + 1] == [s[i + 1]];
    assert ps[i..] == [[s[i]] + Label(s, edge, root, count, i), [s[i + 1]]];
    JoinTwo([s[i]] + Label(s, edge, root, count, i), [s[i + 1]]);
  }

  lemma ClosedFormStep(s: string, i: nat, edge: string, root: string, count: nat)
    requires i + 1 < |s| && s[i + 1] != ';' && NoStopBefore(s, i + 1)
    requires i + 1 <= Kept(s)
    requires Rewritten(s, i + 1, edge, root, count + Closers(s, i + 1)) == Join(Pieces(s, edge, root, count)[i + 1..])
    ensures i <= Kept(s)
    ensures Rewritten(s, i, edge, root, count + Closers(s, i)) == Join(Pieces(s, edge, root, count)[i..])
  {
    var ps := Pieces(s, edge, root, count);
    var c := count + Closers(s, i);
    var lab := Label(s, edge, root, count, i);
    assert ps[i] == [s[i]] + lab;
    if EdgeCloser(s, i) {
      assert lab == edge + NatToString(c);
      assert [s[i]] == ")";
      AppendStep(")", edge, NatToString(c));
      assert ps[i] == Piece(s, i, edge, c);
      assert Closers(s, i + 1) == Closers(s, i) + 1;
    } else {
      assert lab == "";
      assert ps[i] == [s[i]];
      assert ps[i] == Piece(s, i, edge, c);
      assert Closers(s, i + 1) == Closers(s, i);
    }
    assert NextCount(s, i, c) == count + Closers(s, i + 1);
    assert ps[i..][1..] == ps[i + 1..];
    assert Join(ps[i..]) == ps[i] + Join(ps[i + 1..]);
  }

  /** Each piece starts with the input character at its position; only a `)` is followed by a label. */
  lemma PiecesStartWithKeptInput(s: string, edge: string, root: string, count: nat, k: nat)
    requires k < Kept(s)
    ensures Pieces(s, edge, root, count)[k][0] == s[k]
    ensures |Pieces(s, edge, root, count)[k]| > 1 ==> s[k] == ')'
  {
  }

  /** The first character of every piece: the output with its labels erased. */
  function Erased(ps: seq<string>): (e: string)
    requires forall k :: 0 <= k < |ps| ==> |ps[k]| > 0
    ensures |e| == |ps|
  {
    if ps == [] then "" else [ps[0][0]] + Erased(ps[1..])
  }

  lemma {:induction false} ErasedAt(ps: seq<string>, k: nat)
    requires forall j :: 0 <= j < |ps| ==> |ps[j]| > 0
    requires k < |ps|
    ensures Erased(ps)[k] == ps[k][0]
    decreases k
  {
    if k > 0 {
      ErasedAt(ps[1..], k - 1);
    }
  }

  /** Erasing the labels from the pieces gives back the kept part of the input. */
  lemma ErasedPieces(s: string, edge: string, root: string, count: nat)
    ensures Erased(Pieces(s, edge, root, count)) == s[..Kept(s)]
  {
    var ps := Pieces(s, edge, root, count);
    forall k | 0 <= k < |ps|
      ensures Erased(ps)[k] == s[k]
    {
      ErasedAt(ps, k);
      PiecesStartWithKeptInput(s, edge, root, count, k);
    }
  }

  /**
   * With a `;` at position m >= 1 and none at 1 .. m-1, the kept part is the input up
   * to and including that `;`; erasing the labels from the output gives it back.
   */
  lemma ErasedUpToStop(s: string, edge: string, root: string, count: nat, m: nat)
    requires 1 <= m < |s| && s[m] == ';' && NoStopBefore(s, m)
    ensures Kept(s) == m + 1
    ensures Erased(Pieces(s, edge, root, count)) == s[..m + 1]
  {
    assert FirstSemicolon(s, 1) == m;
    ErasedPieces(s, edge, root, count);
  }

  /** Without a `;` after position 0, every character but the last is kept. */
  lemma ErasedWithoutStop(s: string, edge: string, root: string, count: nat)
    requires |s| > 0 && NoStopBefore(s, |s|)
    ensures Kept(s) == |s| - 1
    ensures Erased(Pieces(s, edge, root, count)) == s[..|s| - 1]
  {
    assert FirstSemicolon(s, 1) == |s|;
    ErasedPieces(s, edge, root, count);
  }

  // ---------------------------------------------------------------------------
  // Consequences named by the source's behaviour and its tests

  /** Text already labelled everywhere and ending at its first `;`. */
  predicate FullyLabelled(s: string) {
    && |s| >= 2
    && s[|s| - 1] == ';'
    && NoStopBefore(s, |s| - 1)
    && forall k :: 0 <= k < |s| - 1 && s[k] == ')' ==> s[k + 1] != ')' && s[k + 1] != ',' && s[k + 1] != ';'
  }

  /** Such text is returned unchanged. */
  lemma {:induction false} RewrittenLabelledIsIdentity(s: string, i: nat, edge: string, root: string, count: nat)
    requires FullyLabelled(s) && i + 2 <= |s|
    ensures Rewritten(s, i, edge, root, count) == s[i..]
    decreases |s| - i
  {
    if s[i + 1] != ';' {
      RewrittenLabelledIsIdentity(s, i + 1, edge, root, count);
      assert s[i..] == [s[i]] + s[i + 1..];
    } else {
      assert i + 2 == |s|;
    }
  }

  /** The rewrite from position i reads only the characters up to the first `;`. */
  lemma {:induction false} RewrittenReadsUpToStop(s: string, t: string, i: nat, edge: string, root: string, count: nat, m: nat)
    requires i < m < |s| && m < |t| && s[m] == ';' && NoStopBefore(s, m)
    requires forall j :: i <= j <= m ==> s[j] == t[j]
    ensures Rewritten(s, i, edge, root, count) == Rewritten(t, i, edge, root, count)
    decreases m - i
  {
    assert s[i] == t[i] && s[i + 1] == t[i + 1];
    if i + 1 < m {
      assert EdgeCloser(s, i) == EdgeCloser(t, i);
      assert Piece(s, i, edge, count) == Piece(t, i, edge, count);
      assert NextCount(s, i, count) == NextCount(t, i, count);
      RewrittenReadsUpToStop(s, t, i + 1, edge, root, NextCount(s, i, count), m);
      assert Rewritten(s, i, edge, root, count) == Piece(s, i, edge, count) + Rewritten(s, i + 1, edge, root, NextCount(s, i, count));
      assert Rewritten(t, i, edge, root, count) == Piece(t, i, edge, count) + Rewritten(t, i + 1, edge, root, NextCount(t, i, count));
    } else {
      assert LastPiece(s, i, root) == LastPiece(t, i, root);
    }
  }

  /** Processing stops at the first `;` (looked for from position 1): what follows is never read. */
  lemma RewrittenStopsAtSemicolon(s: string, i: nat, edge: string, root: string, count: nat, m: nat)
    requires i < m < |s| && s[m] == ';' && NoStopBefore(s, m)
    ensures Rewritten(s, i, edge, root, count) == Rewritten(s[..m + 1], i, edge, root, count)
  {
    RewrittenReadsUpToStop(s, s[..m + 1], i, edge, root, count, m);
  }

  /**
   * The output ends with what the step at the first `;` appends: the `;` itself,
   * preceded by the root label exactly when the character before it is `)`.
   */
  lemma {:induction false} RewrittenEndsWithLastPiece(s: string, i: nat, edge: string, root: string, count: nat, m: nat)
    requires i < m < |s| && s[m] == ';' && NoStopBefore(s, m)
    ensures var out := Rewritten(s, i, edge, root, count); var tail := LastPiece(s, m - 1, root);
      |out| >= |tail| && out[|out| - |tail|..] == tail
    decreases m - i
  {
    var tail := LastPiece(s, m - 1, root);
    if i + 1 < m {
      var rest := Rewritten(s, i + 1, edge, root, NextCount(s, i, count));
      RewrittenEndsWithLastPiece(s, i + 1, edge, root, NextCount(s, i, count), m);
      assert Rewritten(s, i, edge, root, count) == Piece(s, i, edge, count) + rest;
      SuffixOfAppend(Piece(s, i, edge, count), rest, |tail|);
    } else {
      assert Rewritten(s, i, edge, root, count) == tail;
    }
  }

  /** In particular the output is non-empty and its last character is that `;`. */
  lemma RewrittenEndsWithSemicolon(s: string, i: nat, edge: string, root: string, count: nat, m: nat)
    requires i < m < |s| && s[m] == ';' && NoStopBefore(s, m)
    ensures var out := Rewritten(s, i, edge, root, count);
      |out| > 0 && out[|out| - 1] == ';'
  {
    RewrittenEndsWithLastPiece(s, i, edge, root, count, m);
    var out := Rewritten(s, i, edge, root, count);
    var tail := LastPiece(s, m - 1, root);
    assert tail[|tail| - 1] == ';';
    assert out[|out| - 1] == out[|out| - |tail|..][|tail| - 1];
  }

  lemma SuffixOfAppend(p: string, rest: string, n: nat)
    requires n <= |rest|
    ensures |p + rest| >= n && (p + rest)[|p + rest| - n..] == rest[|rest| - n..]
  {
  }

  /** `…);` with no earlier stop: the text the source expects from an unlabelled root. */
  predicate EndsUnlabelled(s: string) {
    |s| >= 2 && s[|s| - 2] == ')' && s[|s| - 1] == ';' && NoStopBefore(s, |s| - 1)
  }

  /** An unlabelled root gets the root label between its `)` and the final `;`. */
  lemma RootLabelAtEnd(s: string, edge: string, root: string)
    requires EndsUnlabelled(s)
    ensures var out := Rewritten(s, 0, edge, root, 1);
      |out| >= |root| + 2 && out[|out| - |root| - 2..] == ")" + root + ";"
  {
    RewrittenEndsWithLastPiece(s, 0, edge, root, 1, |s| - 1);
    assert LastPiece(s, |s| - 2, root) == ")" + root + ";";
  }

  /** An unlabelled root gets the root label. */
  lemma AddEdgesRootExample()
    ensures Rewritten("(A,B);", 0, "Edge", "Root", 1) == "(A,B)Root;"
  {
  }

  /** The second example of tests/test_tree.py: labelled text passes through. */
  lemma AddEdgesLabelledExample()
    ensures Rewritten("(((A,B)e1,(C,D)e2)e3,E)root;", 0, "Edge", "Root", 1) == "(((A,B)e1,(C,D)e2)e3,E)root;"
  {
    assert FullyLabelled("(((A,B)e1,(C,D)e2)e3,E)root;");
    RewrittenLabelledIsIdentity("(((A,B)e1,(C,D)e2)e3,E)root;", 0, "Edge", "Root", 1);
  }

  /** The third example of tests/test_tree.py: a one-character text yields "" without error. */
  lemma AddEdgesOneCharacterExample()
    ensures Rewritten("A", 0, "Edge", "Root", 1) == ""
  {
  }
}
