/**
 * One snapshot's structural tree and its breadth-first iterator
 * (refDiffTS/packages/refdiffts-core/src/CST/CST.ts and CST/TokenizedFile.ts).
 *
 * The tree owns an arena of nodes; a node is named by its index. While the
 * front end builds a tree it is a `CST` object; afterwards it is read-only and
 * its consumers read it as a `Forest` value.
 */
module Cst {
  import opened Wrappers
  import opened CstNode
  import opened Sequences

  datatype TokenPosition = TokenPosition(start: int, end: int)

  /** A file's lexical tokens, in offset order. */
  datatype TokenizedFile = TokenizedFile(file: string, tokens: seq<TokenPosition>)

  /** A tree as its consumers see it: the arena, the ordered roots and the token index per file. */
  datatype Forest = Forest(nodes: seq<Node>, roots: seq<nat>, tokenizedFiles: map<string, TokenizedFile>)

  function ChildrenOf(nodes: seq<Node>, i: nat): seq<nat>
  {
    if i < |nodes| then nodes[i].children else []
  }

  /** `getNextRow`: the children of the row's nodes, concatenated in row order. */
  function NextRow(nodes: seq<Node>, row: seq<nat>): (next: seq<nat>)
    ensures forall x :: x in next <==> exists i | 0 <= i < |row| :: x in ChildrenOf(nodes, row[i])
  {
    if row == [] then [] else ChildrenOf(nodes, row[0]) + NextRow(nodes, row[1..])
  }

  /** Row k of the iteration: the roots, then each row's children. */
  function Row(tree: Forest, k: nat): seq<nat>
  {
    if k == 0 then tree.roots else NextRow(tree.nodes, Row(tree, k - 1))
  }

  /** Rows 0 .. k-1, concatenated. */
  function Levels(tree: Forest, k: nat): seq<nat>
  {
    if k == 0 then [] else Levels(tree, k - 1) + Row(tree, k - 1)
  }

  /** Everything the iterator yields for a well-formed tree (no row past |nodes| is non-empty). */
  function Traversal(tree: Forest): seq<nat>
  {
    Levels(tree, |tree.nodes|)
  }

  function ParentOf(tree: Forest, x: nat): Option<nat>
  {
    if x < |tree.nodes| then tree.nodes[x].parent else None
  }

  function CallsOf(tree: Forest, x: nat): set<nat>
  {
    if x < |tree.nodes| then tree.nodes[x].calls else {}
  }

  /**
   * The shape every tree built by a front end has: indices in range, roots
   * exactly the parentless nodes, child lists without repeats and in
   * agreement with the parent links, and a parent created before its child.
   */
  ghost predicate WellFormed(tree: Forest)
  {
    var n := |tree.nodes|;
    && (forall r | r in tree.roots :: r < n && ParentOf(tree, r) == None)
    && NoDup(tree.roots)
    && (forall x: nat | x < n && ParentOf(tree, x) == None :: x in tree.roots)
    && (forall p: nat | p < n :: NoDup(ChildrenOf(tree.nodes, p)))
    && (forall p: nat, c | p < n && c in ChildrenOf(tree.nodes, p) :: c < n && ParentOf(tree, c) == Some(p))
    && ParentsPrecede(tree)
    && (forall c: nat | ParentOf(tree, c).Some? :: c in ChildrenOf(tree.nodes, ParentOf(tree, c).value))
    && (forall p: nat, c | c in CallsOf(tree, p) :: c < n)
  }

  /** Every parent was created before its child, so walking up the parent links ends. */
  ghost predicate ParentsPrecede(tree: Forest)
  {
    forall c: nat | ParentOf(tree, c).Some? :: ParentOf(tree, c).value < c
  }

  /**
   * The number of ancestors of a node. Walking up stops at a parent link that
   * does not point to a smaller index, which never happens in a well-formed tree.
   */
  function Depth(tree: Forest, x: nat): nat
    decreases x
  {
    match ParentOf(tree, x)
    case None => 0
    case Some(p) => if p < x then 1 + Depth(tree, p) else 0
  }

  /** One step up the parent link lowers the depth by one; a parentless node has depth 0. */
  lemma DepthStep(tree: Forest, c: nat)
    requires ParentsPrecede(tree) && c < |tree.nodes|
    ensures tree.nodes[c].parent.Some? ==>
      tree.nodes[c].parent.value < c && Depth(tree, c) == 1 + Depth(tree, tree.nodes[c].parent.value)
    ensures tree.nodes[c].parent.None? ==> Depth(tree, c) == 0
  {
    assert ParentOf(tree, c) == tree.nodes[c].parent;
  }

  lemma {:induction false} DepthBelowIndex(tree: Forest, x: nat)
    requires WellFormed(tree)
    ensures Depth(tree, x) <= x
  {
    if ParentOf(tree, x).Some? {
      DepthBelowIndex(tree, ParentOf(tree, x).value);
    }
  }

  /** A node is in the next row exactly when its parent is in the current row. */
  lemma {:induction false} NextRowMembers(tree: Forest, row: seq<nat>)
    requires WellFormed(tree)
    requires forall r | r in row :: r < |tree.nodes|
    ensures forall x: nat :: x in NextRow(tree.nodes, row) <==>
              x < |tree.nodes| && ParentOf(tree, x).Some? && ParentOf(tree, x).value in row
  {
    if row != [] {
      var rest := row[1..];
      assert forall r | r in rest :: r in row;
      NextRowMembers(tree, rest);
      assert NextRow(tree.nodes, row) == ChildrenOf(tree.nodes, row[0]) + NextRow(tree.nodes, rest);
      assert forall x :: x in row <==> x == row[0] || x in rest;
    }
  }

  /** The next row of a row without repeats has no repeats either. */
  lemma {:induction false} NextRowNoDup(tree: Forest, row: seq<nat>)
    requires WellFormed(tree)
    requires forall r | r in row :: r < |tree.nodes|
    requires NoDup(row)
    ensures NoDup(NextRow(tree.nodes, row))
  {
    if row != [] {
      var rest := row[1..];
      assert NoDup(rest) by {
        forall i, j | 0 <= i < j < |rest| ensures rest[i] != rest[j] {
          assert rest[i] == row[i + 1] && rest[j] == row[j + 1];
        }
      }
      assert forall r | r in rest :: r in row;
      NextRowNoDup(tree, rest);
      NextRowMembers(tree, rest);
      assert row[0] !in rest by {
        forall i | 0 <= i < |rest| ensures rest[i] != row[0] {
          assert rest[i] == row[i + 1];
        }
      }
      NoDupConcat(ChildrenOf(tree.nodes, row[0]), NextRow(tree.nodes, rest));
    }
  }

  /** Row k holds exactly the nodes of depth k, each once. */
  lemma {:induction false} RowIsDepth(tree: Forest, k: nat)
    requires WellFormed(tree)
    ensures forall x: nat :: x in Row(tree, k) <==> x < |tree.nodes| && Depth(tree, x) == k
    ensures NoDup(Row(tree, k))
  {
    if k > 0 {
      RowIsDepth(tree, k - 1);
      NextRowMembers(tree, Row(tree, k - 1));
      NextRowNoDup(tree, Row(tree, k - 1));
    }
  }

  /** Rows 0 .. k-1 hold exactly the nodes of depth below k, each once. */
  lemma {:induction false} LevelsAreShallowNodes(tree: Forest, k: nat)
    requires WellFormed(tree)
    ensures forall x: nat :: x in Levels(tree, k) <==> x < |tree.nodes| && Depth(tree, x) < k
    ensures NoDup(Levels(tree, k))
  {
    if k > 0 {
      LevelsAreShallowNodes(tree, k - 1);
      RowIsDepth(tree, k - 1);
      NoDupConcat(Levels(tree, k - 1), Row(tree, k - 1));
    }
  }

  /** In a well-formed tree the traversal visits every node of the arena exactly once. */
  lemma TraversalVisitsEachNodeOnce(tree: Forest)
    requires WellFormed(tree)
    ensures NoDup(Traversal(tree))
    ensures forall x: nat :: x in Traversal(tree) <==> x < |tree.nodes|
  {
    LevelsAreShallowNodes(tree, |tree.nodes|);
    forall x: nat | x < |tree.nodes| ensures Depth(tree, x) < |tree.nodes| {
      DepthBelowIndex(tree, x);
    }
  }

  /** No row past the number of nodes is populated. */
  lemma RowsEndBeforeArenaSize(tree: Forest, k: nat)
    requires WellFormed(tree) && k >= |tree.nodes|
    ensures Row(tree, k) == []
  {
    RowIsDepth(tree, k);
    if Row(tree, k) != [] {
      var x := Row(tree, k)[0];
      assert x in Row(tree, k);
      DepthBelowIndex(tree, x);
    }
  }

  lemma {:induction false} LevelsGrow(tree: Forest, j: nat, k: nat)
    requires j <= k
    ensures Levels(tree, j) <= Levels(tree, k)
  {
    if j < k {
      LevelsGrow(tree, j, k - 1);
    }
  }

  /** Once a row is empty every later row is empty and nothing more is yielded. */
  lemma {:induction false} EmptyRowsStayEmpty(tree: Forest, k: nat, j: nat)
    requires Row(tree, k) == [] && k <= j
    ensures Row(tree, j) == [] && Levels(tree, j) == Levels(tree, k)
  {
    if k < j {
      EmptyRowsStayEmpty(tree, k, j - 1);
      assert Row(tree, j) == NextRow(tree.nodes, Row(tree, j - 1)) == [];
      assert Levels(tree, j) == Levels(tree, j - 1) + Row(tree, j - 1) == Levels(tree, j - 1);
    }
  }

  /** What the iterator has yielded in row k is a prefix of the traversal. */
  lemma YieldedIsPrefix(tree: Forest, k: nat, i: nat)
    requires WellFormed(tree) && i <= |Row(tree, k)|
    ensures Levels(tree, k) + Row(tree, k)[..i] <= Traversal(tree)
  {
    RowsEndBeforeArenaSize(tree, |tree.nodes|);
    PrefixBeforeEmptyRow(tree, k, i, |tree.nodes|);
  }

  /** Rows 0 .. k-1 and part of row k come before any empty row n. */
  lemma PrefixBeforeEmptyRow(tree: Forest, k: nat, i: nat, n: nat)
    requires Row(tree, n) == [] && i <= |Row(tree, k)|
    ensures Levels(tree, k) + Row(tree, k)[..i] <= Levels(tree, n)
  {
    if k < n {
      LevelsGrow(tree, k + 1, n);
      assert Levels(tree, k) + Row(tree, k)[..i] <= Levels(tree, k + 1);
    } else {
      EmptyRowsStayEmpty(tree, n, k);
      assert Row(tree, k)[..i] == [];
    }
  }

  /** Two empty rows close the same prefix of rows. */
  lemma EmptyRowsCloseLevels(tree: Forest, k: nat, n: nat)
    requires Row(tree, k) == [] && Row(tree, n) == []
    ensures Levels(tree, k) == Levels(tree, n)
  {
    if k <= n {
      EmptyRowsStayEmpty(tree, k, n);
    } else {
      EmptyRowsStayEmpty(tree, n, k);
    }
  }

  /** When the iterator meets an empty row, it has yielded the whole traversal. */
  lemma EmptyRowEndsTraversal(tree: Forest, k: nat)
    requires WellFormed(tree) && Row(tree, k) == []
    ensures Levels(tree, k) == Traversal(tree)
  {
    RowsEndBeforeArenaSize(tree, |tree.nodes|);
    EmptyRowsCloseLevels(tree, k, |tree.nodes|);
  }

  /** The tree while it is being built. */
  class CST {
    var nodes: seq<Node>
    var rootNodes: seq<nat>
    var tokenizedFiles: map<string, TokenizedFile>

    /** A new tree has no nodes, no roots and no token index. */
    constructor()
      ensures nodes == [] && rootNodes == [] && tokenizedFiles == map[]
    {
      nodes, rootNodes, tokenizedFiles := [], [], map[];
    }

    /** The finished tree, as its consumers read it. */
    function Value(): Forest
      reads this
    {
      Forest(nodes, rootNodes, tokenizedFiles)
    }

    /**
     * `new CSTNode(id, type)` followed by the front end's assignments of the
     * name, namespace, parameters and location: a node with no links.
     */
    method CreateNode(id: int, kind: string, localName: string, namespace: Option<string>,
                      parameters: Option<seq<string>>, location: Location) returns (n: nat)
      modifies this
      ensures n == old(|nodes|) && |nodes| == n + 1 && nodes[..n] == old(nodes)
      ensures nodes[n].children == [] && nodes[n].calls == {} && nodes[n].parent == None
      ensures nodes[n].id == id && nodes[n].kind == kind && nodes[n].localName == localName
      ensures nodes[n].namespace == namespace && nodes[n].parameters == parameters
      ensures nodes[n].location == location
      ensures rootNodes == old(rootNodes) && tokenizedFiles == old(tokenizedFiles)
    {
      n := |nodes|;
      nodes := nodes + [Node(id, kind, localName, namespace, parameters, location, [], {}, None)];
    }

    /** `addRootNode`: appends to the roots. */
    method AddRootNode(node: nat)
      modifies this
      ensures rootNodes == old(rootNodes) + [node]
      ensures nodes == old(nodes) && tokenizedFiles == old(tokenizedFiles)
    {
      rootNodes := rootNodes + [node];
    }

    /** `addTokensForFile`: the file now maps to its tokens, replacing any earlier entry. */
    method AddTokensForFile(tokens: seq<TokenPosition>, file: string)
      modifies this
      ensures tokenizedFiles == old(tokenizedFiles)[file := TokenizedFile(file, tokens)]
      ensures nodes == old(nodes) && rootNodes == old(rootNodes)
    {
      tokenizedFiles := tokenizedFiles[file := TokenizedFile(file, tokens)];
    }

    /**
     * `addChild`: appends `child` to the children of `parent` and makes
     * `parent` its parent; calls and attributes stay as they were.
     */
    method AddChild(parent: nat, child: nat)
      requires parent < |nodes| && child < |nodes|
      modifies this
      ensures |nodes| == old(|nodes|)
      ensures nodes[parent].children == old(nodes[parent].children) + [child]
      ensures nodes[child].parent == Some(parent)
      ensures forall i | 0 <= i < |nodes| :: nodes[i].SameAttributes(old(nodes[i])) && nodes[i].calls == old(nodes[i].calls)
      ensures forall i | 0 <= i < |nodes| && i != parent :: nodes[i].children == old(nodes[i].children)
      ensures forall i | 0 <= i < |nodes| && i != child :: nodes[i].parent == old(nodes[i].parent)
      ensures rootNodes == old(rootNodes) && tokenizedFiles == old(tokenizedFiles)
    {
      nodes := nodes[parent := nodes[parent].(children := nodes[parent].children + [child])];
      nodes := nodes[child := nodes[child].(parent := Some(parent))];
    }

    /**
     * `addCall`: records a call edge with set semantics. A second call with
     * the same target changes nothing.
     */
    method AddCall(node: nat, func: nat)
      requires node < |nodes|
      modifies this
      ensures |nodes| == old(|nodes|)
      ensures nodes[node].calls == old(nodes[node].calls) + {func}
      ensures func in old(nodes[node].calls) ==> nodes == old(nodes)
      ensures forall i | 0 <= i < |nodes| ::
                nodes[i].SameAttributes(old(nodes[i])) && nodes[i].children == old(nodes[i].children)
                && nodes[i].parent == old(nodes[i].parent)
      ensures forall i | 0 <= i < |nodes| && i != node :: nodes[i].calls == old(nodes[i].calls)
      ensures rootNodes == old(rootNodes) && tokenizedFiles == old(tokenizedFiles)
    {
      var updated := nodes[node].(calls := nodes[node].calls + {func});
      if func in nodes[node].calls {
        assert updated == nodes[node];
      }
      nodes := nodes[node := updated];
    }
  }

  /** `CSTIterator`: yields the tree row by row, each row left to right. */
  class CSTIterator {
    const tree: Forest
    var done: bool
    var row: seq<nat>
    var rowIndex: nat
    /** The number of the current row. */
    ghost var level: nat
    /** Everything yielded so far. */
    ghost var yielded: seq<nat>

    ghost predicate Valid()
      reads this
    {
      && row == Row(tree, level)
      && rowIndex <= |row|
      && yielded == Levels(tree, level) + row[..rowIndex]
      && (done ==> row == [])
    }

    constructor(tree: Forest)
      ensures Valid() && this.tree == tree
      ensures !done && row == tree.roots && rowIndex == 0 && yielded == []
    {
      this.tree := tree;
      done, row, rowIndex := false, tree.roots, 0;
      level, yielded := 0, [];
    }

    /**
     * `next`: the next node of the current row; at the end of a row, moves to
     * the next row and ends the iteration for good when that row is empty.
     */
    method Next() returns (r: Option<nat>)
      requires Valid()
      modifies this
      ensures Valid()
      ensures old(done) ==> r == None && done && row == old(row) && rowIndex == old(rowIndex) && yielded == old(yielded)
      ensures !old(done) && old(rowIndex) < |old(row)| ==>
                r == Some(old(row)[old(rowIndex)]) && row == old(row) && rowIndex == old(rowIndex) + 1
      ensures !old(done) && old(rowIndex) == |old(row)| ==>
                row == NextRow(tree.nodes, old(row)) && level == old(level) + 1
                && (if row == [] then r == None && done else r == Some(row[0]) && rowIndex == 1)
      ensures r.Some? ==> yielded == old(yielded) + [r.value] && !done
      ensures r == None ==> yielded == old(yielded) && done
      ensures WellFormed(tree) ==> yielded <= Traversal(tree)
      ensures WellFormed(tree) && r == None ==> yielded == Traversal(tree)
    {
      if done {
        r := None;
        EndOfIteration();
        return;
      }
      if rowIndex == |row| {
        Advance();
        if row == [] {
          done := true;
          r := None;
          EndOfIteration();
          return;
        }
      }
      r := Yield();
    }

    /** Yields the node at `rowIndex` of the current row. */
    method Yield() returns (r: Option<nat>)
      requires Valid() && !done && rowIndex < |row|
      modifies this
      ensures Valid() && !done && row == old(row) && level == old(level)
      ensures r == Some(old(row)[old(rowIndex)]) && rowIndex == old(rowIndex) + 1
      ensures yielded == old(yielded) + [r.value]
      ensures WellFormed(tree) ==> yielded <= Traversal(tree)
    {
      r := Some(row[rowIndex]);
      assert row[..rowIndex + 1] == row[..rowIndex] + [row[rowIndex]];
      yielded := yielded + [row[rowIndex]];
      rowIndex := rowIndex + 1;
      YieldedSoFar();
    }

    /** `getNextRow` at the end of a row: the next row, from its start. */
    method Advance()
      requires Valid() && !done && rowIndex == |row|
      modifies this
      ensures Valid() && !done && yielded == old(yielded)
      ensures row == NextRow(tree.nodes, old(row)) && rowIndex == 0 && level == old(level) + 1
    {
      assert row[..rowIndex] == row;
      row := NextRow(tree.nodes, row);
      rowIndex := 0;
      level := level + 1;
      assert yielded == Levels(tree, level) + row[..rowIndex];
    }

    lemma YieldedSoFar()
      requires Valid()
      ensures WellFormed(tree) ==> yielded <= Traversal(tree)
    {
      if WellFormed(tree) {
        YieldedIsPrefix(tree, level, rowIndex);
      }
    }

    lemma EndOfIteration()
      requires Valid() && done
      ensures WellFormed(tree) ==> yielded == Traversal(tree)
    {
      if WellFormed(tree) {
        EmptyRowEndsTraversal(tree, level);
      }
    }
  }
}
