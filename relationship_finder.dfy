/**
 * The matching and classification passes of refDiffTS
 * (refDiffTS/packages/refdiffts-core/src/Diff/RelationshipFinder.ts).
 *
 * Nodes are arena indices: a before-node indexes the before-tree, an
 * after-node the after-tree. The two pools of unmatched nodes are JavaScript
 * sets, whose iteration visits the elements in insertion order and skips the
 * ones deleted before they are reached; the model keeps each pool as a set
 * together with its insertion order (the breadth-first traversal of its tree)
 * and tests membership when an element is reached. The two match maps receive
 * their keys in the order of the match list, so iterating a map is iterating
 * that list.
 */
module Finder {
  import opened Wrappers
  import opened Sequences
  import opened CstNode
  import opened Cst
  import opened Relationships
  import opened WeightedJaccard
  import opened TokenScan
  import opened CodeSimilarity

  /** `simThreshold`: a score must exceed it for a similarity-based decision. */
  const SimThreshold: real := 0.5

  /** `Match`: a confirmed pair of a before-node and an after-node. */
  datatype Match = Match(before: nat, after: nat)

  /** The identity test of `findMatchingsByID`: same namespace and same local name. */
  predicate SameId(b: Node, a: Node)
  {
    b.namespace == a.namespace && b.localName == a.localName
  }

  /**
   * `sameSignature`: equal local names and equal parameter lists, where two
   * undefined lists are equal and an undefined list differs from any list.
   */
  function SameSignature(b: Node, a: Node): (r: bool)
    ensures r <==> b.localName == a.localName && b.parameters == a.parameters
  {
    if b.localName != a.localName then false
    else if b.parameters.None? && a.parameters.None? then true
    else if b.parameters.None? || a.parameters.None? then false
    else if |b.parameters.value| != |a.parameters.value| then false
    else
      var same := forall k | 0 <= k < |b.parameters.value| :: b.parameters.value[k] == a.parameters.value[k];
      assert same ==> b.parameters.value == a.parameters.value;
      same
  }

  /**
   * `sameParent`: two nodes with parents have the same parent when the
   * before-parent is matched to the after-parent; two root nodes when their
   * namespaces agree; a root and a non-root never.
   */
  function SameParent(b: Node, a: Node, beforeToAfter: map<nat, nat>): (same: bool)
    ensures same ==> (b.parent.None? <==> a.parent.None?)
    ensures b.parent.Some? && a.parent.Some? ==>
              (same <==> b.parent.value in beforeToAfter && beforeToAfter[b.parent.value] == a.parent.value)
    ensures b.parent.None? && a.parent.None? ==> (same <==> b.namespace == a.namespace)
  {
    if b.parent.Some? && a.parent.Some? then
      b.parent.value in beforeToAfter && beforeToAfter[b.parent.value] == a.parent.value
    else if b.parent.None? && a.parent.None? then
      b.namespace == a.namespace
    else
      false
  }

  /** `m2` keeps every entry of `m1`: the match maps only ever grow. */
  predicate Extends(m1: map<nat, nat>, m2: map<nat, nat>)
  {
    forall k | k in m1 :: k in m2 && m2[k] == m1[k]
  }

  /** Once two nodes have the same parent, further matches do not change that. */
  lemma SameParentGrows(b: Node, a: Node, m1: map<nat, nat>, m2: map<nat, nat>)
    requires Extends(m1, m2) && SameParent(b, a, m1)
    ensures SameParent(b, a, m2)
  {
    if b.parent.Some? && a.parent.Some? {
      assert b.parent.value in m1;
    }
  }

  /**
   * The decision table of `findMatchingRelationship`, on the five facts it
   * computes for a pair: same type, same signature, same name, same parent
   * and the code similarity.
   */
  function Classify(sameType: bool, sameSignature: bool, sameName: bool, sameParent: bool, codeSim: Score)
    : (r: Option<RelationshipType>)
    requires sameSignature ==> sameName
    ensures r.Some? <==> sameType && ((sameSignature && sameParent) || codeSim.Exceeds(SimThreshold))
    ensures r.Some? ==> (r.value == Same <==> sameSignature && sameParent)
    ensures r.Some? && r.value != Same ==>
              && r.value in {ChangeSignature, Move, Rename, MoveAndRename}
              && (r.value in {Move, MoveAndRename} <==> !sameParent)
              && (r.value in {ChangeSignature, Move} <==> sameName)
  {
    if sameType && sameSignature && sameParent then Some(Same)
    else if sameType && !sameSignature && sameName && sameParent && codeSim.Exceeds(SimThreshold) then Some(ChangeSignature)
    else if sameType && sameName && !sameParent && codeSim.Exceeds(SimThreshold) then Some(Move)
    else if sameType && !sameName && sameParent && codeSim.Exceeds(SimThreshold) then Some(Rename)
    else if sameType && !sameName && !sameParent && codeSim.Exceeds(SimThreshold) then Some(MoveAndRename)
    else None
  }

  /** `findMatchingRelationship` for two nodes, given the match map and their code similarity. */
  function MatchingRelationship(b: Node, a: Node, beforeToAfter: map<nat, nat>, codeSim: Score): Option<RelationshipType>
  {
    Classify(b.kind == a.kind, SameSignature(b, a), b.localName == a.localName, SameParent(b, a, beforeToAfter), codeSim)
  }

  /**
   * A pair the decision table accepts stays accepted as the match map grows:
   * only the same-parent fact depends on the map, and it never turns false.
   */
  lemma ClassificationStays(b: Node, a: Node, m1: map<nat, nat>, m2: map<nat, nat>, codeSim: Score)
    requires Extends(m1, m2) && MatchingRelationship(b, a, m1, codeSim).Some?
    ensures MatchingRelationship(b, a, m2, codeSim).Some?
  {
    if SameParent(b, a, m1) {
      SameParentGrows(b, a, m1, m2);
    }
  }

  /** The number of entries of `acs` that `beforeToAfter` maps `bc` to. */
  function Hits(bc: nat, acs: seq<nat>, beforeToAfter: map<nat, nat>): nat
  {
    if acs == [] then 0
    else Hits(bc, acs[..|acs| - 1], beforeToAfter) + (if bc in beforeToAfter && beforeToAfter[bc] == acs[|acs| - 1] then 1 else 0)
  }

  /** `matchingsChildren`: the number of (before-child, after-child) pairs the match map links. */
  function ChildPairs(bcs: seq<nat>, acs: seq<nat>, beforeToAfter: map<nat, nat>): nat
  {
    if bcs == [] then 0 else ChildPairs(bcs[..|bcs| - 1], acs, beforeToAfter) + Hits(bcs[|bcs| - 1], acs, beforeToAfter)
  }

  lemma {:induction false} HitsGrow(bc: nat, acs: seq<nat>, m1: map<nat, nat>, m2: map<nat, nat>)
    requires Extends(m1, m2)
    ensures Hits(bc, acs, m1) <= Hits(bc, acs, m2)
  {
    if acs != [] {
      HitsGrow(bc, acs[..|acs| - 1], m1, m2);
    }
  }

  /** The count of linked child pairs never drops as the match map grows. */
  lemma {:induction false} ChildPairsGrow(bcs: seq<nat>, acs: seq<nat>, m1: map<nat, nat>, m2: map<nat, nat>)
    requires Extends(m1, m2)
    ensures ChildPairs(bcs, acs, m1) <= ChildPairs(bcs, acs, m2)
  {
    if bcs != [] {
      ChildPairsGrow(bcs[..|bcs| - 1], acs, m1, m2);
      HitsGrow(bcs[|bcs| - 1], acs, m1, m2);
    }
  }

  /** A child has no hits when it is not matched; at most |acs| otherwise. */
  lemma {:induction false} HitsBounds(bc: nat, acs: seq<nat>, beforeToAfter: map<nat, nat>)
    ensures bc !in beforeToAfter ==> Hits(bc, acs, beforeToAfter) == 0
    ensures Hits(bc, acs, beforeToAfter) <= |acs|
  {
    if acs != [] {
      HitsBounds(bc, acs[..|acs| - 1], beforeToAfter);
    }
  }

  /** Why the similarity pass matches a pair: the decision table accepts it. */
  predicate BySimilarity(b: Node, a: Node, beforeToAfter: map<nat, nat>, codeSim: Score)
  {
    MatchingRelationship(b, a, beforeToAfter, codeSim).Some?
  }

  /** Why the children pass matches a pair: more than one child pair is matched, and the names are similar. */
  predicate ByChildren(b: Node, a: Node, beforeToAfter: map<nat, nat>, nameSim: Score)
  {
    ChildPairs(b.children, a.children, beforeToAfter) > 1 && nameSim.Exceeds(SimThreshold)
  }

  /** A pair matched by the children pass still meets its test as the match map grows. */
  lemma ByChildrenStays(b: Node, a: Node, m1: map<nat, nat>, m2: map<nat, nat>, nameSim: Score)
    requires Extends(m1, m2) && ByChildren(b, a, m1, nameSim)
    ensures ByChildren(b, a, m2, nameSim)
  {
    ChildPairsGrow(b.children, a.children, m1, m2);
  }

  /** The before-nodes and the after-nodes of a match list. */
  function Befores(ms: seq<Match>): set<nat>
  {
    if ms == [] then {} else Befores(ms[..|ms| - 1]) + {ms[|ms| - 1].before}
  }

  function Afters(ms: seq<Match>): set<nat>
  {
    if ms == [] then {} else Afters(ms[..|ms| - 1]) + {ms[|ms| - 1].after}
  }

  /** A node among the before-nodes of a match list is the before-node of one of its matches. */
  lemma {:induction false} InBefores(ms: seq<Match>, x: nat) returns (k: nat)
    requires x in Befores(ms)
    ensures k < |ms| && ms[k].before == x
  {
    var init := ms[..|ms| - 1];
    if x in Befores(init) {
      k := InBefores(init, x);
      assert ms[k] == init[k];
    } else {
      k := |ms| - 1;
    }
  }

  lemma {:induction false} InAfters(ms: seq<Match>, y: nat) returns (k: nat)
    requires y in Afters(ms)
    ensures k < |ms| && ms[k].after == y
  {
    var init := ms[..|ms| - 1];
    if y in Afters(init) {
      k := InAfters(init, y);
      assert ms[k] == init[k];
    } else {
      k := |ms| - 1;
    }
  }

  /**
   * The match list and the two maps describe the same pairing: every match is
   * in both maps, and every map key comes from a match.
   */
  predicate Paired(ms: seq<Match>, beforeToAfter: map<nat, nat>, afterToBefore: map<nat, nat>, nb: nat, na: nat)
  {
    && Recorded(ms, beforeToAfter, afterToBefore, nb, na)
    && beforeToAfter.Keys == Befores(ms) && afterToBefore.Keys == Afters(ms)
  }

  /** Every match is a pair of nodes of the trees, recorded in both maps. */
  predicate Recorded(ms: seq<Match>, beforeToAfter: map<nat, nat>, afterToBefore: map<nat, nat>, nb: nat, na: nat)
  {
    forall k | 0 <= k < |ms| ::
      && ms[k].before < nb && ms[k].after < na
      && ms[k].before in beforeToAfter && beforeToAfter[ms[k].before] == ms[k].after
      && ms[k].after in afterToBefore && afterToBefore[ms[k].after] == ms[k].before
  }

  /** `beforeToAfter` and `afterToBefore` are inverse maps. */
  lemma PairedInverse(ms: seq<Match>, beforeToAfter: map<nat, nat>, afterToBefore: map<nat, nat>, nb: nat, na: nat)
    requires Paired(ms, beforeToAfter, afterToBefore, nb, na)
    ensures forall x | x in beforeToAfter :: beforeToAfter[x] in afterToBefore && afterToBefore[beforeToAfter[x]] == x
    ensures forall y | y in afterToBefore :: afterToBefore[y] in beforeToAfter && beforeToAfter[afterToBefore[y]] == y
  {
    forall x | x in beforeToAfter ensures beforeToAfter[x] in afterToBefore && afterToBefore[beforeToAfter[x]] == x {
      var k := InBefores(ms, x);
    }
    forall y | y in afterToBefore ensures afterToBefore[y] in beforeToAfter && beforeToAfter[afterToBefore[y]] == y {
      var k := InAfters(ms, y);
    }
  }

  /** A new pair of unmatched nodes keeps every recorded match and records itself. */
  lemma RecordedSnoc(ms: seq<Match>, beforeToAfter: map<nat, nat>, afterToBefore: map<nat, nat>, nb: nat, na: nat, b: nat, a: nat)
    requires Recorded(ms, beforeToAfter, afterToBefore, nb, na)
    requires b < nb && a < na && b !in beforeToAfter && a !in afterToBefore
    ensures Recorded(ms + [Match(b, a)], beforeToAfter[b := a], afterToBefore[a := b], nb, na)
  {
    var ms', f', g' := ms + [Match(b, a)], beforeToAfter[b := a], afterToBefore[a := b];
    forall k | 0 <= k < |ms'|
      ensures && ms'[k].before < nb && ms'[k].after < na
              && ms'[k].before in f' && f'[ms'[k].before] == ms'[k].after
              && ms'[k].after in g' && g'[ms'[k].after] == ms'[k].before
    {
      if k < |ms| {
        var m := ms[k];
        assert ms'[k] == m;
        assert m.before in beforeToAfter && m.before != b;
        assert m.after in afterToBefore && m.after != a;
      }
    }
  }

  /** `addMatch`'s bookkeeping: a pair of unmatched nodes joins the list and both maps. */
  lemma PairedSnoc(ms: seq<Match>, beforeToAfter: map<nat, nat>, afterToBefore: map<nat, nat>, nb: nat, na: nat, b: nat, a: nat)
    requires Paired(ms, beforeToAfter, afterToBefore, nb, na)
    requires b < nb && a < na && b !in beforeToAfter && a !in afterToBefore
    ensures Paired(ms + [Match(b, a)], beforeToAfter[b := a], afterToBefore[a := b], nb, na)
    ensures Extends(beforeToAfter, beforeToAfter[b := a]) && Extends(afterToBefore, afterToBefore[a := b])
  {
    var ms' := ms + [Match(b, a)];
    RecordedSnoc(ms, beforeToAfter, afterToBefore, nb, na, b, a);
    assert ms'[..|ms'| - 1] == ms;
    assert Befores(ms') == Befores(ms) + {b};
    assert Afters(ms') == Afters(ms) + {a};
    assert beforeToAfter[b := a].Keys == beforeToAfter.Keys + {b};
    assert afterToBefore[a := b].Keys == afterToBefore.Keys + {a};
  }

  /** Every node in a pool is a node of its tree that is not matched. */
  predicate Pool(pool: set<nat>, n: nat, matched: map<nat, nat>)
  {
    (forall x | x in pool :: x < n) && pool !! matched.Keys
  }

  /** The insertion order of a pool: every node of the tree, once. */
  ghost predicate Order(order: seq<nat>, n: nat)
  {
    NoDup(order) && forall x: nat :: x in order <==> x < n
  }

  /** Roots and children are nodes of the tree. */
  predicate Linked(tree: Forest)
  {
    && (forall r | r in tree.roots :: r < |tree.nodes|)
    && (forall p: nat, c: nat | p < |tree.nodes| && c in tree.nodes[p].children :: c < |tree.nodes|)
  }

  lemma WellFormedLinked(tree: Forest)
    requires WellFormed(tree)
    ensures Linked(tree)
  {
    forall p: nat, c: nat | p < |tree.nodes| && c in tree.nodes[p].children ensures c < |tree.nodes| {
      assert ChildrenOf(tree.nodes, p) == tree.nodes[p].children;
      assert c in ChildrenOf(tree.nodes, p);
      assert ParentOf(tree, c) == Some(p);
    }
  }

  /** The before-nodes and the after-nodes a list of relationships mentions. */
  function BeforeNodes(rels: seq<Relationship>): set<nat>
  {
    set r | r in rels && r.before.Some? :: r.before.value
  }

  function AfterNodes(rels: seq<Relationship>): set<nat>
  {
    set r | r in rels && r.after.Some? :: r.after.value
  }

  /** The nodes a list reports as removed, and as added. */
  function RemovedNodes(rels: seq<Relationship>): set<nat>
  {
    set r | r in rels && r.kind == Some(Removed) && r.before.Some? :: r.before.value
  }

  function AddedNodes(rels: seq<Relationship>): set<nat>
  {
    set r | r in rels && r.kind == Some(Added) && r.after.Some? :: r.after.value
  }

  lemma LeftoverNodesConcat(r1: seq<Relationship>, r2: seq<Relationship>)
    ensures RemovedNodes(r1 + r2) == RemovedNodes(r1) + RemovedNodes(r2)
    ensures AddedNodes(r1 + r2) == AddedNodes(r1) + AddedNodes(r2)
  {
    assert forall r :: r in r1 + r2 <==> r in r1 || r in r2;
  }

  /**
   * The resolved matches come first and carry matching kinds only, so the
   * removed, added, extract and inline relationships all lie in what follows.
   */
  lemma ResolvedThenRest(resolved: seq<Relationship>, rest: seq<Relationship>)
    requires forall r | r in resolved :: r.kind.None? || r.kind.value in {Same, ChangeSignature, Move, Rename, MoveAndRename}
    ensures RemovedNodes(resolved + rest) == RemovedNodes(rest) && AddedNodes(resolved + rest) == AddedNodes(rest)
    ensures forall r | r in resolved + rest && r.kind in {Some(Extract), Some(ExtractAndMove), Some(Inline)} :: r in rest
  {
    LeftoverNodesConcat(resolved, rest);
    assert RemovedNodes(resolved) == {} && AddedNodes(resolved) == {};
  }

  /** A score strictly above `simThreshold` (a failed computation is not). */
  predicate Above(r: Result<Score, Fault>)
  {
    r.Success? && r.value.Exceeds(SimThreshold)
  }

  /** Appending one relationship adds its nodes. */
  lemma ReportOne(rels: seq<Relationship>, r: Relationship)
    ensures BeforeNodes(rels + [r]) == BeforeNodes(rels) + (if r.before.Some? then {r.before.value} else {})
    ensures AfterNodes(rels + [r]) == AfterNodes(rels) + (if r.after.Some? then {r.after.value} else {})
  {
    NodesConcat(rels, [r]);
    assert forall q :: q in [r] <==> q == r;
  }

  /** No two relationships of the list share an after-node. */
  predicate DistinctAfters(rels: seq<Relationship>)
  {
    forall i, j | 0 <= i < j < |rels| :: rels[i].after != rels[j].after
  }

  /** Two lists, the first with after-nodes outside `pool` and the second inside it, share none. */
  lemma DistinctConcat(r1: seq<Relationship>, r2: seq<Relationship>, pool: set<nat>)
    requires DistinctAfters(r1) && DistinctAfters(r2)
    requires AfterNodes(r1) !! pool && AfterNodes(r2) <= pool
    requires forall r | r in r1 + r2 :: r.after.Some?
    ensures DistinctAfters(r1 + r2)
  {
    var rs := r1 + r2;
    forall i, j | 0 <= i < j < |rs| ensures rs[i].after != rs[j].after {
      if j < |r1| {
        assert rs[i] == r1[i] && rs[j] == r1[j];
      } else if i >= |r1| {
        assert rs[i] == r2[i - |r1|] && rs[j] == r2[j - |r1|];
      } else {
        assert rs[i] == r1[i] && rs[j] == r2[j - |r1|];
        assert rs[i] in rs && rs[j] in rs;
        assert rs[i].after.value in AfterNodes(r1) && rs[j].after.value in AfterNodes(r2);
      }
    }
  }

  lemma NodesConcat(r1: seq<Relationship>, r2: seq<Relationship>)
    ensures BeforeNodes(r1 + r2) == BeforeNodes(r1) + BeforeNodes(r2)
    ensures AfterNodes(r1 + r2) == AfterNodes(r1) + AfterNodes(r2)
  {
    assert forall r :: r in r1 + r2 <==> r in r1 || r in r2;
  }

  /**
   * The nodes a run reports: a node of the tree is either matched, and so in
   * the resolved relationships, or in the pool after matching, and so among
   * the relationships reported after them.
   */
  lemma AllReported(n: nat, pool: set<nat>, matched: map<nat, nat>, resolved: set<nat>, rest: set<nat>, all: set<nat>)
    requires Covered(pool, n, matched)
    requires matched.Keys <= resolved && pool <= rest && all == resolved + rest
    ensures forall x: nat | x < n :: x in all
  {
  }

  /** The kind the extract pass reports, or the extract-and-move pass when `moveRelationship` holds. */
  function ExtractKind(moveRelationship: bool): RelationshipType
  {
    if moveRelationship then ExtractAndMove else Extract
  }

  /** The kinds of the list never go down in the enumeration's order. */
  predicate KindSorted(rels: seq<Relationship>)
  {
    forall i, j | 0 <= i < j < |rels| && rels[i].kind.Some? && rels[j].kind.Some? ::
      Ordinal(rels[i].kind.value) <= Ordinal(rels[j].kind.value)
  }

  /** A sorted list followed by a run of one kind no lower than any kind before it. */
  lemma KindSortedConcat(r1: seq<Relationship>, r2: seq<Relationship>, kinds: set<RelationshipType>, t: RelationshipType)
    requires KindSorted(r1) && Kinded(r1, kinds) && (forall k | k in kinds :: Ordinal(k) <= Ordinal(t))
    requires Kinded(r2, {t})
    ensures KindSorted(r1 + r2) && Kinded(r1 + r2, kinds + {t})
  {
    var rs := r1 + r2;
    forall i, j | 0 <= i < j < |rs| && rs[i].kind.Some? && rs[j].kind.Some?
      ensures Ordinal(rs[i].kind.value) <= Ordinal(rs[j].kind.value)
    {
      if j < |r1| {
        assert rs[i] == r1[i] && rs[j] == r1[j];
      } else if i < |r1| {
        assert rs[i] == r1[i] && rs[i] in r1;
        assert rs[j] == r2[j - |r1|] && rs[j] in r2;
      } else {
        assert rs[i] == r2[i - |r1|] && rs[i] in r2;
        assert rs[j] == r2[j - |r1|] && rs[j] in r2;
      }
    }
  }

  /** Every relationship other than an inline one has an after-node no later relationship shares. */
  predicate ExtractedOnce(rels: seq<Relationship>)
  {
    forall i, j | 0 <= i < j < |rels| && rels[i].kind != Some(Inline) :: rels[i].after != rels[j].after
  }

  /** Relationships with distinct after-nodes, then inline relationships whose after-nodes are all different from theirs. */
  lemma ExtractedOnceConcat(r1: seq<Relationship>, r2: seq<Relationship>)
    requires DistinctAfters(r1) && AfterNodes(r1) !! AfterNodes(r2)
    requires forall r | r in r1 + r2 :: r.after.Some?
    requires forall r | r in r2 :: r.kind == Some(Inline)
    ensures ExtractedOnce(r1 + r2)
  {
    var rs := r1 + r2;
    forall i, j | 0 <= i < j < |rs| && rs[i].kind != Some(Inline) ensures rs[i].after != rs[j].after {
      if j < |r1| {
        assert rs[i] == r1[i] && rs[j] == r1[j];
      } else if i < |r1| {
        assert rs[i] == r1[i] && rs[i] in r1 && rs[i] in rs;
        assert rs[j] == r2[j - |r1|] && rs[j] in r2 && rs[j] in rs;
        assert rs[i].after.value in AfterNodes(r1) && rs[j].after.value in AfterNodes(r2);
      } else {
        assert false;
      }
    }
  }

  /** Extract relationships followed by extract-and-move ones are sorted by kind. */
  lemma ExtractsThenMoves(plain: seq<Relationship>, moved: seq<Relationship>)
    requires Kinded(plain, {Extract}) && Kinded(moved, {ExtractAndMove})
    ensures Kinded(plain + moved, {Extract, ExtractAndMove}) && KindSorted(plain + moved)
  {
    KindSortedConcat([], plain, {}, Extract);
    assert [] + plain == plain && {} + {Extract} == {Extract};
    assert Ordinal(Extract) <= Ordinal(ExtractAndMove);
    KindSortedConcat(plain, moved, {Extract}, ExtractAndMove);
  }

  /** Sorted extract and extract-and-move relationships, each after-node once, followed by inline ones on other after-nodes. */
  lemma ExtractsThenInlines(extracted: seq<Relationship>, inlined: seq<Relationship>)
    requires Kinded(extracted, {Extract, ExtractAndMove}) && KindSorted(extracted) && DistinctAfters(extracted)
    requires Kinded(inlined, {Inline}) && AfterNodes(extracted) !! AfterNodes(inlined)
    ensures Kinded(extracted + inlined, {Extract, ExtractAndMove, Inline})
    ensures KindSorted(extracted + inlined) && ExtractedOnce(extracted + inlined)
  {
    assert Ordinal(Extract) <= Ordinal(Inline) && Ordinal(ExtractAndMove) <= Ordinal(Inline);
    KindSortedConcat(extracted, inlined, {Extract, ExtractAndMove}, Inline);
    ExtractedOnceConcat(extracted, inlined);
  }

  /** Relationships with both nodes and a kind among `kinds`. */
  predicate Kinded(rels: seq<Relationship>, kinds: set<RelationshipType>)
  {
    forall r | r in rels :: r.before.Some? && r.after.Some? && r.kind.Some? && r.kind.value in kinds
  }

  /**
   * After the non-matching relationships come one removed relationship per
   * node of the before-pool and one added relationship per node of the
   * after-pool; pools hold no matched node, so every removed (added) node is
   * unmatched.
   */
  lemma LeftoversUnmatched(nonMatching: seq<Relationship>, removed: seq<Relationship>, added: seq<Relationship>,
                           ub: set<nat>, ua: set<nat>, beforeToAfter: map<nat, nat>, afterToBefore: map<nat, nat>)
    requires Kinded(nonMatching, {Extract, ExtractAndMove, Inline})
    requires BeforeNodes(removed) == ub && forall r | r in removed :: r.before.Some? && r.after.None? && r.kind == Some(Removed)
    requires AfterNodes(added) == ua && forall r | r in added :: r.before.None? && r.after.Some? && r.kind == Some(Added)
    requires ub !! beforeToAfter.Keys && ua !! afterToBefore.Keys
    requires BeforeNodes(nonMatching) !! ub && AfterNodes(nonMatching) !! ua
    ensures RemovedNodes(nonMatching + removed + added) == ub && AddedNodes(nonMatching + removed + added) == ua
    ensures forall r | r in nonMatching + removed + added && r.kind in {Some(Extract), Some(ExtractAndMove), Some(Inline)} ::
      && r.before.Some? && r.after.Some?
      && r.before.value !in RemovedNodes(nonMatching + removed + added)
      && r.after.value !in AddedNodes(nonMatching + removed + added)
    ensures forall r | r in nonMatching + removed + added :: r.HasSide()
    ensures forall r | r in nonMatching + removed + added && r.kind == Some(Removed) ::
      r.before.Some? && r.before.value !in beforeToAfter
    ensures forall r | r in nonMatching + removed + added && r.kind == Some(Added) ::
      r.after.Some? && r.after.value !in afterToBefore
  {
    forall r | r in nonMatching + removed + added
      ensures r.HasSide()
      ensures r.kind == Some(Removed) ==> r.before.Some? && r.before.value !in beforeToAfter
      ensures r.kind == Some(Added) ==> r.after.Some? && r.after.value !in afterToBefore
    {
      if r in removed {
        assert r.before.value in BeforeNodes(removed);
      } else if r in added {
        assert r.after.value in AfterNodes(added);
      }
    }
    LeftoverNodesConcat(nonMatching, removed);
    LeftoverNodesConcat(nonMatching + removed, added);
    assert RemovedNodes(nonMatching) == {} && AddedNodes(nonMatching) == {};
    assert RemovedNodes(added) == {} && AddedNodes(removed) == {};
    assert RemovedNodes(removed) == BeforeNodes(removed) && AddedNodes(added) == AfterNodes(added);
    NodesConcat(nonMatching, removed);
    NodesConcat(nonMatching + removed, added);
    forall r | r in nonMatching + removed + added && r.kind in {Some(Extract), Some(ExtractAndMove), Some(Inline)}
      ensures r.before.value !in ub && r.after.value !in ua
    {
      assert r in nonMatching;
      assert r.before.value in BeforeNodes(nonMatching) && r.after.value in AfterNodes(nonMatching);
    }
  }

  /** Relationships whose before-nodes (after-nodes) all lie in `keys`. */
  lemma BeforesWithin(rels: seq<Relationship>, keys: set<nat>)
    requires forall r | r in rels :: r.before.Some? && r.before.value in keys
    ensures BeforeNodes(rels) <= keys
  {
  }

  lemma AftersWithin(rels: seq<Relationship>, keys: set<nat>)
    requires forall r | r in rels :: r.after.Some? && r.after.value in keys
    ensures AfterNodes(rels) <= keys
  {
  }

  /**
   * Resolved matches (two sides, never Removed or Added) followed by leftover
   * relationships whose Removed and Added sides are unmatched: the whole
   * list has a side everywhere and no Removed or Added node is matched.
   */
  lemma ReportSides(resolved: seq<Relationship>, rest: seq<Relationship>, f: map<nat, nat>, g: map<nat, nat>)
    requires forall r | r in resolved :: r.before.Some? && r.after.Some? && r.kind != Some(Removed) && r.kind != Some(Added)
    requires forall r | r in rest :: r.HasSide()
    requires forall r | r in rest && r.kind == Some(Removed) :: r.before.Some? && r.before.value !in f
    requires forall r | r in rest && r.kind == Some(Added) :: r.after.Some? && r.after.value !in g
    ensures forall r | r in resolved + rest :: r.HasSide()
    ensures forall r | r in resolved + rest && r.kind == Some(Removed) :: r.before.Some? && r.before.value !in f
    ensures forall r | r in resolved + rest && r.kind == Some(Added) :: r.after.Some? && r.after.value !in g
  {
    forall r | r in resolved + rest
      ensures r.HasSide()
      ensures r.kind == Some(Removed) ==> r.before.Some? && r.before.value !in f
      ensures r.kind == Some(Added) ==> r.after.Some? && r.after.value !in g
    {
      if r !in rest {
        assert r in resolved;
      }
    }
  }

  /** One relationship per match, carrying the match's two nodes, covers the nodes of the match list. */
  lemma {:induction false} ResolvedCovers(ms: seq<Match>, rels: seq<Relationship>)
    requires |rels| == |ms|
    requires forall k | 0 <= k < |ms| :: rels[k].before == Some(ms[k].before) && rels[k].after == Some(ms[k].after)
    ensures Befores(ms) <= BeforeNodes(rels) && Afters(ms) <= AfterNodes(rels)
    decreases |ms|
  {
    if ms != [] {
      var n := |ms| - 1;
      ResolvedCovers(ms[..n], rels[..n]);
      NodesConcat(rels[..n], [rels[n]]);
      assert rels[..n] + [rels[n]] == rels;
      assert rels[n] in [rels[n]];
    }
  }

  /** The nodes of `order` that are in `pool`, in the order of `order`: the visiting order of a `forEach` over the pool. */
  function InPool(order: seq<nat>, pool: set<nat>): seq<nat>
  {
    if order == [] then []
    else InPool(order[..|order| - 1], pool) + if order[|order| - 1] in pool then [order[|order| - 1]] else []
  }

  /** Visiting one more node of `order` extends the visiting order by it exactly when it is in the pool. */
  lemma InPoolNext(order: seq<nat>, pool: set<nat>, i: nat)
    requires i < |order|
    ensures InPool(order[..i + 1], pool) == InPool(order[..i], pool) + if order[i] in pool then [order[i]] else []
  {
    assert order[..i + 1][..i] == order[..i];
  }

  /** One removed relationship per node of `xs`, in order. */
  function RemovedOf(xs: seq<nat>): seq<Relationship>
  {
    if xs == [] then [] else RemovedOf(xs[..|xs| - 1]) + [Relationship(Some(xs[|xs| - 1]), None, Some(Removed))]
  }

  /** One added relationship per node of `ys`, in order. */
  function AddedOf(ys: seq<nat>): seq<Relationship>
  {
    if ys == [] then [] else AddedOf(ys[..|ys| - 1]) + [Relationship(None, Some(ys[|ys| - 1]), Some(Added))]
  }

  /** The visiting order holds each pooled node of a duplicate-free order once, and nothing else. */
  lemma {:induction false} InPoolMembers(order: seq<nat>, pool: set<nat>)
    requires NoDup(order)
    ensures NoDup(InPool(order, pool))
    ensures forall x :: x in InPool(order, pool) <==> x in order && x in pool
    decreases |order|
  {
    if order != [] {
      var init, last := order[..|order| - 1], order[|order| - 1];
      assert order == init + [last];
      assert NoDup(init) by {
        forall i, j | 0 <= i < j < |init| ensures init[i] != init[j] {
          assert init[i] == order[i] && init[j] == order[j];
        }
      }
      InPoolMembers(init, pool);
      if last in pool {
        assert last !in init by {
          forall j | 0 <= j < |init| ensures init[j] != last {
            assert init[j] == order[j];
          }
        }
        NoDupConcat(InPool(init, pool), [last]);
      } else {
        assert InPool(order, pool) == InPool(init, pool) + [];
      }
    }
  }

  /** The nodes of a sequence, as a set. */
  function Elements(s: seq<nat>): set<nat>
  {
    set x | x in s
  }

  /** A duplicate-free sequence has as many elements as its set of elements. */
  lemma {:induction false} NoDupCard(s: seq<nat>)
    requires NoDup(s)
    ensures |Elements(s)| == |s|
    decreases |s|
  {
    if s != [] {
      var init, last := s[..|s| - 1], s[|s| - 1];
      assert s == init + [last];
      assert NoDup(init) by {
        forall i, j | 0 <= i < j < |init| ensures init[i] != init[j] {
          assert init[i] == s[i] && init[j] == s[j];
        }
      }
      assert last !in init by {
        forall j | 0 <= j < |init| ensures init[j] != last {
          assert init[j] == s[j];
        }
      }
      NoDupCard(init);
      assert Elements(s) == Elements(init) + {last};
    } else {
      assert Elements(s) == {};
    }
  }

  /** The removed relationships of a sequence of nodes mention exactly those nodes, one each. */
  lemma {:induction false} RemovedOfNodes(xs: seq<nat>)
    ensures |RemovedOf(xs)| == |xs| && BeforeNodes(RemovedOf(xs)) == Elements(xs)
    ensures forall r | r in RemovedOf(xs) :: r.before.Some? && r.after.None? && r.kind == Some(Removed)
    decreases |xs|
  {
    if xs != [] {
      var init, last := xs[..|xs| - 1], xs[|xs| - 1];
      assert xs == init + [last];
      RemovedOfNodes(init);
      ReportOne(RemovedOf(init), Relationship(Some(last), None, Some(Removed)));
    }
  }

  /** The added relationships of a sequence of nodes mention exactly those nodes, one each. */
  lemma {:induction false} AddedOfNodes(ys: seq<nat>)
    ensures |AddedOf(ys)| == |ys| && AfterNodes(AddedOf(ys)) == Elements(ys)
    ensures forall r | r in AddedOf(ys) :: r.before.None? && r.after.Some? && r.kind == Some(Added)
    decreases |ys|
  {
    if ys != [] {
      var init, last := ys[..|ys| - 1], ys[|ys| - 1];
      assert ys == init + [last];
      AddedOfNodes(init);
      ReportOne(AddedOf(init), Relationship(None, Some(last), Some(Added)));
    }
  }

  /**
   * The `forEach` over `unmatchedBefore` at the end of `findRelationships`:
   * one removed relationship per node left in the pool, in pool order.
   */
  method ReportRemoved(order: seq<nat>, pool: set<nat>) returns (rels: seq<Relationship>)
    requires NoDup(order) && forall x | x in pool :: x in order
    ensures rels == RemovedOf(InPool(order, pool))
    ensures BeforeNodes(rels) == pool && |rels| == |pool|
    ensures forall r | r in rels :: r.before.Some? && r.after.None? && r.kind == Some(Removed)
  {
    rels := [];
    ghost var visits: seq<nat> := [];
    var i := 0;
    while i < |order|
      invariant 0 <= i <= |order|
      invariant visits == InPool(order[..i], pool) && rels == RemovedOf(visits)
    {
      var x := order[i];
      InPoolNext(order, pool, i);
      if x in pool {
        assert (visits + [x])[..|visits|] == visits;
        rels, visits := rels + [Relationship(Some(x), None, Some(Removed))], visits + [x];
      }
      i := i + 1;
    }
    assert order[..i] == order;
    InPoolMembers(order, pool);
    NoDupCard(visits);
    RemovedOfNodes(visits);
    assert Elements(visits) == pool;
  }

  /** The `forEach` over `unmatchedAfter`: one added relationship per node left in the pool, in pool order. */
  method ReportAdded(order: seq<nat>, pool: set<nat>) returns (rels: seq<Relationship>)
    requires NoDup(order) && forall y | y in pool :: y in order
    ensures rels == AddedOf(InPool(order, pool))
    ensures AfterNodes(rels) == pool && |rels| == |pool|
    ensures forall r | r in rels :: r.before.None? && r.after.Some? && r.kind == Some(Added)
  {
    rels := [];
    ghost var visits: seq<nat> := [];
    var i := 0;
    while i < |order|
      invariant 0 <= i <= |order|
      invariant visits == InPool(order[..i], pool) && rels == AddedOf(visits)
    {
      var y := order[i];
      InPoolNext(order, pool, i);
      if y in pool {
        assert (visits + [y])[..|visits|] == visits;
        rels, visits := rels + [Relationship(None, Some(y), Some(Added))], visits + [y];
      }
      i := i + 1;
    }
    assert order[..i] == order;
    InPoolMembers(order, pool);
    NoDupCard(visits);
    AddedOfNodes(visits);
    assert Elements(visits) == pool;
  }

  /** Every node of the tree is in its pool or matched. */
  ghost predicate Covered(pool: set<nat>, n: nat, matched: map<nat, nat>)
  {
    forall x: nat | x < n :: x in pool || x in matched
  }

  /** The nodes of a tree of `n` nodes that `matched` does not map. */
  function Unmatched(n: nat, matched: map<nat, nat>): set<nat>
  {
    set x: nat | x < n && x !in matched
  }

  /** A pool that covers its tree holds exactly the unmatched nodes. */
  lemma PoolIsUnmatched(pool: set<nat>, n: nat, matched: map<nat, nat>)
    requires Pool(pool, n, matched) && Covered(pool, n, matched)
    ensures pool == Unmatched(n, matched)
  {
  }

  /** A pool that lost only newly matched nodes still covers the tree. */
  lemma CoveredKept(pool0: set<nat>, pool1: set<nat>, n: nat, m0: map<nat, nat>, m1: map<nat, nat>)
    requires Covered(pool0, n, m0) && Extends(m0, m1) && pool1 == pool0 - m1.Keys
    ensures Covered(pool1, n, m1)
  {
  }

  /** The two matching passes that compare every pooled pair: by similarity and by children. */
  datatype Pass = SimilarityPass | ChildrenPass

  /** A match of two nodes of the trees with the same namespace and local name. */
  predicate IdentityPair(m: Match, before: Forest, after: Forest)
  {
    m.before < |before.nodes| && m.after < |after.nodes| && SameId(before.nodes[m.before], after.nodes[m.after])
  }

  /** The matches from `start` on pair nodes with the same namespace and local name. */
  predicate IdentityFrom(ms: seq<Match>, start: nat, before: Forest, after: Forest)
  {
    forall k | start <= k < |ms| :: IdentityPair(ms[k], before, after)
  }

  /** No node of `bs` still in `ub` has a node of `afters` still in `ua` with the same identity. */
  predicate Settled(bs: seq<nat>, afters: seq<nat>, ub: set<nat>, ua: set<nat>, before: Forest, after: Forest)
  {
    forall x, y | x in bs && y in afters && IdentityPair(Match(x, y), before, after) :: x !in ub || y !in ua
  }

  /** The children of every match from `start` on are settled against each other. */
  predicate Cascaded(ms: seq<Match>, start: nat, ub: set<nat>, ua: set<nat>, before: Forest, after: Forest)
  {
    forall k | start <= k < |ms| ::
      Settled(ChildrenOf(before.nodes, ms[k].before), ChildrenOf(after.nodes, ms[k].after), ub, ua, before, after)
  }

  /** A settled pair of lists stays settled when the pools shrink. */
  lemma SettledShrinks(bs: seq<nat>, afters: seq<nat>, ub: set<nat>, ua: set<nat>, ub1: set<nat>, ua1: set<nat>,
                       before: Forest, after: Forest)
    requires Settled(bs, afters, ub, ua, before, after) && ub1 <= ub && ua1 <= ua
    ensures Settled(bs, afters, ub1, ua1, before, after)
  {
  }

  /** One more after-node settled against every node of `bs`. */
  lemma SettledColumn(bs: seq<nat>, afters: seq<nat>, j: nat, ub: set<nat>, ua: set<nat>, before: Forest, after: Forest)
    requires j < |afters| && Settled(bs, afters[..j], ub, ua, before, after)
    requires forall x | x in bs && IdentityPair(Match(x, afters[j]), before, after) :: x !in ub || afters[j] !in ua
    ensures Settled(bs, afters[..j + 1], ub, ua, before, after)
  {
    assert afters[..j + 1] == afters[..j] + [afters[j]];
  }

  /** One more before-node settled against every node of `afters`. */
  lemma SettledRow(bs: seq<nat>, afters: seq<nat>, i: nat, ub: set<nat>, ua: set<nat>, before: Forest, after: Forest)
    requires i < |bs| && Settled(bs[..i], afters, ub, ua, before, after) && Settled([bs[i]], afters, ub, ua, before, after)
    ensures Settled(bs[..i + 1], afters, ub, ua, before, after)
  {
    assert bs[..i + 1] == bs[..i] + [bs[i]];
  }

  /** Cascaded matches stay cascaded when the pools shrink. */
  lemma CascadedShrinks(ms: seq<Match>, start: nat, ub: set<nat>, ua: set<nat>, ub1: set<nat>, ua1: set<nat>,
                        before: Forest, after: Forest)
    requires Cascaded(ms, start, ub, ua, before, after) && ub1 <= ub && ua1 <= ua
    ensures Cascaded(ms, start, ub1, ua1, before, after)
  {
  }

  /** Cascaded matches from `start`, then a further run cascaded under the smaller final pools. */
  lemma CascadedJoin(ms1: seq<Match>, ms2: seq<Match>, start: nat, ub1: set<nat>, ua1: set<nat>,
                     ub2: set<nat>, ua2: set<nat>, before: Forest, after: Forest)
    requires start <= |ms1| && ms1 <= ms2 && ub2 <= ub1 && ua2 <= ua1
    requires Cascaded(ms1, start, ub1, ua1, before, after) && Cascaded(ms2, |ms1|, ub2, ua2, before, after)
    ensures Cascaded(ms2, start, ub2, ua2, before, after)
  {
    forall k | start <= k < |ms2|
      ensures Settled(ChildrenOf(before.nodes, ms2[k].before), ChildrenOf(after.nodes, ms2[k].after), ub2, ua2, before, after)
    {
      if k < |ms1| {
        assert ms2[k] == ms1[k];
      }
    }
  }

  /** Matching `b` and then more nodes removes from the pool exactly the matched nodes. */
  lemma PoolAfterMatch(ub0: set<nat>, ub2: set<nat>, f0: map<nat, nat>, f2: map<nat, nat>, b: nat, a: nat)
    requires b !in f0 && Extends(f0[b := a], f2) && ub2 == (ub0 - {b}) - f2.Keys
    ensures Extends(f0, f2) && ub2 == ub0 - f2.Keys
  {
  }

  /** A pool without one node, in a map that gained that node. */
  lemma PoolRemove(pool: set<nat>, n: nat, m: map<nat, nat>, b: nat, a: nat)
    requires Pool(pool, n, m)
    ensures Pool(pool - {b}, n, m[b := a])
  {
  }

  /**
   * What a matching pass may do: extend the match list and both maps, and
   * remove from each pool exactly the nodes that became matched.
   */
  ghost predicate Grown(ms0: seq<Match>, ub0: set<nat>, ua0: set<nat>, f0: map<nat, nat>, g0: map<nat, nat>,
                        ms1: seq<Match>, ub1: set<nat>, ua1: set<nat>, f1: map<nat, nat>, g1: map<nat, nat>)
  {
    && ms0 <= ms1 && Extends(f0, f1) && Extends(g0, g1)
    && ub1 == ub0 - f1.Keys && ua1 == ua0 - g1.Keys
  }

  lemma GrownTrans(ms0: seq<Match>, ub0: set<nat>, ua0: set<nat>, f0: map<nat, nat>, g0: map<nat, nat>,
                   ms1: seq<Match>, ub1: set<nat>, ua1: set<nat>, f1: map<nat, nat>, g1: map<nat, nat>,
                   ms2: seq<Match>, ub2: set<nat>, ua2: set<nat>, f2: map<nat, nat>, g2: map<nat, nat>)
    requires Grown(ms0, ub0, ua0, f0, g0, ms1, ub1, ua1, f1, g1)
    requires Grown(ms1, ub1, ua1, f1, g1, ms2, ub2, ua2, f2, g2)
    ensures Grown(ms0, ub0, ua0, f0, g0, ms2, ub2, ua2, f2, g2)
  {
  }

  /** Identity matches from `start` on, followed by a further run of identity matches. */
  lemma IdentityJoin(ms1: seq<Match>, ms2: seq<Match>, start: nat, before: Forest, after: Forest)
    requires start <= |ms1| && ms1 <= ms2
    requires IdentityFrom(ms1, start, before, after) && IdentityFrom(ms2, |ms1|, before, after)
    ensures IdentityFrom(ms2, start, before, after)
  {
    forall k | start <= k < |ms2| ensures IdentityPair(ms2[k], before, after) {
      if k < |ms1| {
        assert ms2[k] == ms1[k];
      }
    }
  }

  /** A new identity match followed by identity matches. */
  lemma IdentityHead(ms: seq<Match>, start: nat, before: Forest, after: Forest)
    requires start < |ms| && IdentityPair(ms[start], before, after)
    requires IdentityFrom(ms, start + 1, before, after)
    ensures IdentityFrom(ms, start, before, after)
  {
  }

  lemma SubsetCard(a: set<nat>, b: set<nat>)
    requires a <= b
    ensures |a| <= |b|
  {
    assert b == a + (b - a);
  }

  /** The constructor's walks: every node the iterator yields joins the pool, in order. */
  method CollectNodes(tree: Forest) returns (order: seq<nat>, pool: set<nat>)
    requires WellFormed(tree)
    ensures order == Traversal(tree) && Order(order, |tree.nodes|)
    ensures forall x :: x in pool <==> x in order
  {
    order, pool := [], {};
    var walk := new CSTIterator(tree);
    var next := walk.Next();
    while next.Some?
      invariant walk.Valid() && walk.tree == tree
      invariant next.Some? ==> walk.yielded == order + [next.value] && walk.yielded <= Traversal(tree)
      invariant next.None? ==> walk.yielded == order && order == Traversal(tree)
      invariant forall x :: x in pool <==> x in order
      decreases |Traversal(tree)| - |order|
    {
      order := order + [next.value];
      pool := pool + {next.value};
      next := walk.Next();
    }
    TraversalVisitsEachNodeOnce(tree);
  }

  /** `sim` and `nameSim` yield a score for every before-node and after-node. */
  ghost predicate ScoresDefined(engine: CodeSimilarity, nb: nat, na: nat)
    reads engine
  {
    forall b: nat, a: nat | b < nb && a < na ::
      && engine.SimScore(NodeRef(BeforeSide, b), NodeRef(AfterSide, a)).Success?
      && engine.NameSimScore(NodeRef(BeforeSide, b), NodeRef(AfterSide, a)).Success?
  }

  /** `new CodeSimiliarity(before, after, beforeFiles, afterFiles)`, with what the finder relies on. */
  method NewEngine(before: Forest, after: Forest, beforeFiles: Files, afterFiles: Files, weigh: (nat, nat) -> real)
    returns (engine: CodeSimilarity)
    requires WellFormed(before) && WellFormed(after)
    requires Scannable(before, beforeFiles) && Scannable(after, afterFiles)
    requires forall n: nat, c: nat | 1 <= c <= n :: weigh(n, c) >= 0.0
    ensures fresh(engine) && engine.Valid() && engine.before == before && engine.after == after
    ensures engine.beforeFiles == beforeFiles && engine.afterFiles == afterFiles && engine.weigh == weigh
    ensures ScoresDefined(engine, |before.nodes|, |after.nodes|)
  {
    engine := new CodeSimilarity(before, after, beforeFiles, afterFiles, weigh);
    SimDefined(engine);
    NameSimDefined(engine);
  }

  lemma SimDefined(engine: CodeSimilarity)
    requires engine.Valid()
    ensures forall b: nat, a: nat | b < |engine.before.nodes| && a < |engine.after.nodes| ::
              engine.SimScore(NodeRef(BeforeSide, b), NodeRef(AfterSide, a)).Success?
  {
    forall b: nat, a: nat | b < |engine.before.nodes| && a < |engine.after.nodes|
      ensures engine.SimScore(NodeRef(BeforeSide, b), NodeRef(AfterSide, a)).Success?
    {
      engine.SimOfNodes(NodeRef(BeforeSide, b), NodeRef(AfterSide, a));
    }
  }

  lemma NameSimDefined(engine: CodeSimilarity)
    requires engine.Valid()
    ensures forall b: nat, a: nat | b < |engine.before.nodes| && a < |engine.after.nodes| ::
              engine.NameSimScore(NodeRef(BeforeSide, b), NodeRef(AfterSide, a)).Success?
  {
    forall b: nat, a: nat | b < |engine.before.nodes| && a < |engine.after.nodes|
      ensures engine.NameSimScore(NodeRef(BeforeSide, b), NodeRef(AfterSide, a)).Success?
    {
      engine.NameSimOfNodes(NodeRef(BeforeSide, b), NodeRef(AfterSide, a));
    }
  }

  /** `RelationshipFinder`: the similarity engine, the two pools, the match list and the two match maps. */
  class RelationshipFinder {
    const before: Forest
    const after: Forest
    const engine: CodeSimilarity
    /** The insertion order of the two pools: the breadth-first walk of each tree. */
    const beforeOrder: seq<nat>
    const afterOrder: seq<nat>
    var matches: seq<Match>
    var unmatchedBefore: set<nat>
    var unmatchedAfter: set<nat>
    var beforeToAfter: map<nat, nat>
    var afterToBefore: map<nat, nat>

    /**
     * The constructor: builds the similarity engine over both trees and puts
     * every node of each tree into its pool.
     */
    constructor(before: Forest, after: Forest, beforeFiles: Files, afterFiles: Files, weigh: (nat, nat) -> real)
      requires WellFormed(before) && WellFormed(after)
      requires Scannable(before, beforeFiles) && Scannable(after, afterFiles)
      requires forall n: nat, c: nat | 1 <= c <= n :: weigh(n, c) >= 0.0
      ensures Static() && Scored() && Valid() && Fresh()
      ensures this.before == before && this.after == after
      ensures beforeOrder == Traversal(before) && afterOrder == Traversal(after)
      ensures engine.Valid() && engine.beforeFiles == beforeFiles && engine.afterFiles == afterFiles && engine.weigh == weigh
    {
      this.before, this.after := before, after;
      matches := [];
      beforeToAfter, afterToBefore := map[], map[];
      var sim := NewEngine(before, after, beforeFiles, afterFiles, weigh);
      engine := sim;
      var order, pool := CollectNodes(before);
      beforeOrder, unmatchedBefore := order, pool;
      order, pool := CollectNodes(after);
      afterOrder, unmatchedAfter := order, pool;
      new;
      WellFormedLinked(before);
      WellFormedLinked(after);
    }

    /** The state right after construction: nothing matched, every node in its pool. */
    ghost predicate Fresh()
      reads this
    {
      && matches == [] && beforeToAfter == map[] && afterToBefore == map[]
      && (forall x: nat :: x in unmatchedBefore <==> x < |before.nodes|)
      && (forall y: nat :: y in unmatchedAfter <==> y < |after.nodes|)
    }

    /** Facts about the constant fields: the engine's trees, linked trees and the pool orders. */
    ghost predicate Static()
    {
      && engine.before == before && engine.after == after
      && Linked(before) && Linked(after)
      && Order(beforeOrder, |before.nodes|) && Order(afterOrder, |after.nodes|)
    }

    /** The match list and maps agree, and the pools hold unmatched nodes of the trees. */
    ghost predicate Valid()
      reads this
    {
      && Paired(matches, beforeToAfter, afterToBefore, |before.nodes|, |after.nodes|)
      && Pool(unmatchedBefore, |before.nodes|, beforeToAfter)
      && Pool(unmatchedAfter, |after.nodes|, afterToBefore)
    }

    ghost predicate Scored()
      reads engine
    {
      ScoresDefined(engine, |before.nodes|, |after.nodes|)
    }

    /** Before the extract and inline passes, every node is in its pool or matched. */
    ghost predicate Partitioned()
      reads this
    {
      Covered(unmatchedBefore, |before.nodes|, beforeToAfter) && Covered(unmatchedAfter, |after.nodes|, afterToBefore)
    }

    ghost predicate Grew(ms0: seq<Match>, ub0: set<nat>, ua0: set<nat>, f0: map<nat, nat>, g0: map<nat, nat>)
      reads this
    {
      Grown(ms0, ub0, ua0, f0, g0, matches, unmatchedBefore, unmatchedAfter, beforeToAfter, afterToBefore)
    }

    /**
     * `addMatch`: when both nodes are still unmatched, matches them, records the
     * pair, and matches their children by identity; otherwise does nothing.
     */
    method AddMatch(b: nat, a: nat)
      requires Static() && Valid() && b < |before.nodes| && a < |after.nodes|
      modifies this
      decreases |unmatchedBefore|, 0
      ensures Valid()
      ensures Grew(old(matches), old(unmatchedBefore), old(unmatchedAfter), old(beforeToAfter), old(afterToBefore))
      ensures if b in old(unmatchedBefore) && a in old(unmatchedAfter) then
                && |old(matches)| < |matches| && matches[|old(matches)|] == Match(b, a)
                && IdentityFrom(matches, |old(matches)| + 1, before, after)
              else
                && matches == old(matches) && beforeToAfter == old(beforeToAfter) && afterToBefore == old(afterToBefore)
                && unmatchedBefore == old(unmatchedBefore) && unmatchedAfter == old(unmatchedAfter)
      ensures b !in unmatchedBefore || a !in unmatchedAfter
      ensures Cascaded(matches, |old(matches)|, unmatchedBefore, unmatchedAfter, before, after)
    {
      if b in unmatchedBefore && a in unmatchedAfter {
        PairedSnoc(matches, beforeToAfter, afterToBefore, |before.nodes|, |after.nodes|, b, a);
        PoolRemove(unmatchedBefore, |before.nodes|, beforeToAfter, b, a);
        PoolRemove(unmatchedAfter, |after.nodes|, afterToBefore, a, b);
        unmatchedBefore := unmatchedBefore - {b};
        unmatchedAfter := unmatchedAfter - {a};
        beforeToAfter := beforeToAfter[b := a];
        afterToBefore := afterToBefore[a := b];
        matches := matches + [Match(b, a)];
        assert Valid();
        ghost var ms1 := matches;
        FindMatchingsById(before.nodes[b].children, after.nodes[a].children);
        assert matches[|ms1| - 1] == Match(b, a);
        PoolAfterMatch(old(unmatchedBefore), unmatchedBefore, old(beforeToAfter), beforeToAfter, b, a);
        PoolAfterMatch(old(unmatchedAfter), unmatchedAfter, old(afterToBefore), afterToBefore, a, b);
      }
    }

    /** `findMatchingsByID`: `addMatch` on every pair with the same namespace and local name. */
    method FindMatchingsById(beforeNodes: seq<nat>, afterNodes: seq<nat>)
      requires Static() && Valid() && (forall x | x in beforeNodes :: x < |before.nodes|) && (forall y | y in afterNodes :: y < |after.nodes|)
      modifies this
      decreases |unmatchedBefore|, 2
      ensures Valid()
      ensures Grew(old(matches), old(unmatchedBefore), old(unmatchedAfter), old(beforeToAfter), old(afterToBefore))
      ensures IdentityFrom(matches, |old(matches)|, before, after)
      ensures Settled(beforeNodes, afterNodes, unmatchedBefore, unmatchedAfter, before, after)
      ensures Cascaded(matches, |old(matches)|, unmatchedBefore, unmatchedAfter, before, after)
    {
      var i := 0;
      while i < |beforeNodes|
        invariant 0 <= i <= |beforeNodes|
        invariant Valid()
        invariant Grew(old(matches), old(unmatchedBefore), old(unmatchedAfter), old(beforeToAfter), old(afterToBefore))
        invariant IdentityFrom(matches, |old(matches)|, before, after)
        invariant Settled(beforeNodes[..i], afterNodes, unmatchedBefore, unmatchedAfter, before, after)
        invariant Cascaded(matches, |old(matches)|, unmatchedBefore, unmatchedAfter, before, after)
      {
        assert beforeNodes[i] in beforeNodes;
        SubsetCard(unmatchedBefore, old(unmatchedBefore));
        ghost var ms1, ub1, ua1, f1, g1 := matches, unmatchedBefore, unmatchedAfter, beforeToAfter, afterToBefore;
        FindMatchingsInRow(beforeNodes[i], afterNodes);
        GrownTrans(old(matches), old(unmatchedBefore), old(unmatchedAfter), old(beforeToAfter), old(afterToBefore),
                   ms1, ub1, ua1, f1, g1, matches, unmatchedBefore, unmatchedAfter, beforeToAfter, afterToBefore);
        IdentityJoin(ms1, matches, |old(matches)|, before, after);
        SettledShrinks(beforeNodes[..i], afterNodes, ub1, ua1, unmatchedBefore, unmatchedAfter, before, after);
        CascadedJoin(ms1, matches, |old(matches)|, ub1, ua1, unmatchedBefore, unmatchedAfter, before, after);
        SettledRow(beforeNodes, afterNodes, i, unmatchedBefore, unmatchedAfter, before, after);
        i := i + 1;
      }
      assert beforeNodes[..i] == beforeNodes;
    }

    /** The inner loop of `findMatchingsByID`: `addMatch` of `x` with every after-node of the same identity. */
    method FindMatchingsInRow(x: nat, afterNodes: seq<nat>)
      requires Static() && Valid() && x < |before.nodes| && (forall y | y in afterNodes :: y < |after.nodes|)
      modifies this
      decreases |unmatchedBefore|, 1
      ensures Valid()
      ensures Grew(old(matches), old(unmatchedBefore), old(unmatchedAfter), old(beforeToAfter), old(afterToBefore))
      ensures IdentityFrom(matches, |old(matches)|, before, after)
      ensures Settled([x], afterNodes, unmatchedBefore, unmatchedAfter, before, after)
      ensures Cascaded(matches, |old(matches)|, unmatchedBefore, unmatchedAfter, before, after)
    {
      var j := 0;
      while j < |afterNodes|
        invariant 0 <= j <= |afterNodes|
        invariant Valid()
        invariant Grew(old(matches), old(unmatchedBefore), old(unmatchedAfter), old(beforeToAfter), old(afterToBefore))
        invariant IdentityFrom(matches, |old(matches)|, before, after)
        invariant Settled([x], afterNodes[..j], unmatchedBefore, unmatchedAfter, before, after)
        invariant Cascaded(matches, |old(matches)|, unmatchedBefore, unmatchedAfter, before, after)
      {
        assert afterNodes[j] in afterNodes;
        var bn, an := before.nodes[x], after.nodes[afterNodes[j]];
        if bn.namespace == an.namespace && bn.localName == an.localName {
          SubsetCard(unmatchedBefore, old(unmatchedBefore));
          ghost var ms1, ub1, ua1, f1, g1 := matches, unmatchedBefore, unmatchedAfter, beforeToAfter, afterToBefore;
          AddMatch(x, afterNodes[j]);
          GrownTrans(old(matches), old(unmatchedBefore), old(unmatchedAfter), old(beforeToAfter), old(afterToBefore),
                     ms1, ub1, ua1, f1, g1, matches, unmatchedBefore, unmatchedAfter, beforeToAfter, afterToBefore);
          if |ms1| < |matches| {
            IdentityHead(matches, |ms1|, before, after);
          }
          IdentityJoin(ms1, matches, |old(matches)|, before, after);
          SettledShrinks([x], afterNodes[..j], ub1, ua1, unmatchedBefore, unmatchedAfter, before, after);
          CascadedJoin(ms1, matches, |old(matches)|, ub1, ua1, unmatchedBefore, unmatchedAfter, before, after);
        }
        SettledColumn([x], afterNodes, j, unmatchedBefore, unmatchedAfter, before, after);
        j := j + 1;
      }
      assert afterNodes[..j] == afterNodes;
    }

    /** `sim` of a before-node and an after-node (defined for every pair of nodes of the trees). */
    function CodeSim(b: nat, a: nat): Score
      reads engine
    {
      var s := engine.SimScore(NodeRef(BeforeSide, b), NodeRef(AfterSide, a));
      if s.Success? then s.value else NoScore
    }

    /** `nameSim` of a before-node and an after-node (defined for every pair of nodes of the trees). */
    function NameSim(b: nat, a: nat): Score
      reads engine
    {
      var s := engine.NameSimScore(NodeRef(BeforeSide, b), NodeRef(AfterSide, a));
      if s.Success? then s.value else NoScore
    }

    /** `findMatchingRelationship` of a pair in the current state. */
    function KindOf(m: Match): (r: Option<RelationshipType>)
      reads this`beforeToAfter, engine
      ensures r.Some? ==> r.value in {Same, ChangeSignature, Move, Rename, MoveAndRename}
    {
      if m.before < |before.nodes| && m.after < |after.nodes| then
        MatchingRelationship(before.nodes[m.before], after.nodes[m.after], beforeToAfter, CodeSim(m.before, m.after))
      else
        None
    }

    /** The pair passes the test of the similarity pass under the match map `f`. */
    ghost predicate SimilarUnder(m: Match, f: map<nat, nat>)
      reads engine
    {
      m.before < |before.nodes| && m.after < |after.nodes|
      && BySimilarity(before.nodes[m.before], after.nodes[m.after], f, CodeSim(m.before, m.after))
    }

    /** The pair passes the test of the children pass under the match map `f`. */
    ghost predicate ChildrenUnder(m: Match, f: map<nat, nat>)
      reads engine
    {
      m.before < |before.nodes| && m.after < |after.nodes|
      && ByChildren(before.nodes[m.before], after.nodes[m.after], f, NameSim(m.before, m.after))
    }

    /** The pair passes the test of one of the three matching passes under `f`. */
    ghost predicate Justified(m: Match, f: map<nat, nat>)
      reads engine
    {
      IdentityPair(m, before, after) || SimilarUnder(m, f) || ChildrenUnder(m, f)
    }

    /** Every justification survives a growing match map. */
    lemma JustifiedKept(ms: seq<Match>, f1: map<nat, nat>, f2: map<nat, nat>)
      requires Extends(f1, f2) && forall k | 0 <= k < |ms| :: Justified(ms[k], f1)
      ensures forall k | 0 <= k < |ms| :: Justified(ms[k], f2)
    {
      forall k | 0 <= k < |ms| ensures Justified(ms[k], f2) {
        var mk := ms[k];
        if SimilarUnder(mk, f1) {
          ClassificationStays(before.nodes[mk.before], after.nodes[mk.after], f1, f2, CodeSim(mk.before, mk.after));
        } else if ChildrenUnder(mk, f1) {
          ByChildrenStays(before.nodes[mk.before], after.nodes[mk.after], f1, f2, NameSim(mk.before, mk.after));
        }
      }
    }

    /** `findMatchingRelationship`: the decision table on the pair's facts and its `sim` score. */
    method FindMatchingRelationship(b: nat, a: nat) returns (r: Option<RelationshipType>)
      requires Static() && Scored() && b < |before.nodes| && a < |after.nodes|
      ensures r == KindOf(Match(b, a))
      ensures r.Some? ==> before.nodes[b].kind == after.nodes[a].kind
    {
      var codeSim := engine.Sim(NodeRef(BeforeSide, b), NodeRef(AfterSide, a));
      var bn, an := before.nodes[b], after.nodes[a];
      var sameParent := SameParent(bn, an, beforeToAfter);
      var sameSignature := SameSignature(bn, an);
      var sameName := bn.localName == an.localName;
      var sameType := bn.kind == an.kind;
      r := Classify(sameType, sameSignature, sameName, sameParent, codeSim.value);
    }

    /** A pair passes the test of `pass` under the match map `f`. */
    ghost predicate Passes(pass: Pass, m: Match, f: map<nat, nat>)
      reads engine
    {
      match pass
      case SimilarityPass => SimilarUnder(m, f)
      case ChildrenPass => ChildrenUnder(m, f)
    }

    /** A pair that passes a test under a map still passes it under any extension of the map. */
    lemma PassStays(pass: Pass, m: Match, f1: map<nat, nat>, f2: map<nat, nat>)
      requires Extends(f1, f2)
      ensures Passes(pass, m, f1) ==> Passes(pass, m, f2)
    {
      if Passes(pass, m, f1) {
        match pass
        case SimilarityPass =>
          ClassificationStays(before.nodes[m.before], after.nodes[m.after], f1, f2, CodeSim(m.before, m.after));
        case ChildrenPass =>
          ByChildrenStays(before.nodes[m.before], after.nodes[m.after], f1, f2, NameSim(m.before, m.after));
      }
    }

    /** Every match from `start` on is an identity pair or passes the test of `pass` under `f`. */
    ghost predicate SoundFrom(pass: Pass, ms: seq<Match>, start: nat, f: map<nat, nat>)
      reads engine
    {
      forall k | start <= k < |ms| :: IdentityPair(ms[k], before, after) || Passes(pass, ms[k], f)
    }

    /** Sound matches followed by a further sound run stay sound as the map grows. */
    lemma SoundJoin(pass: Pass, ms1: seq<Match>, ms2: seq<Match>, start: nat, f1: map<nat, nat>, f2: map<nat, nat>)
      requires start <= |ms1| && ms1 <= ms2 && Extends(f1, f2)
      requires SoundFrom(pass, ms1, start, f1) && SoundFrom(pass, ms2, |ms1|, f2)
      ensures SoundFrom(pass, ms2, start, f2)
    {
      forall k | start <= k < |ms2| ensures IdentityPair(ms2[k], before, after) || Passes(pass, ms2[k], f2) {
        if k < |ms1| {
          assert ms2[k] == ms1[k];
          PassStays(pass, ms1[k], f1, f2);
        }
      }
    }

    /** A match that passed under `f1`, followed by the identity matches of its cascade. */
    lemma SoundHead(pass: Pass, ms: seq<Match>, start: nat, f1: map<nat, nat>, f2: map<nat, nat>)
      requires start < |ms| && Extends(f1, f2)
      requires Passes(pass, ms[start], f1) && IdentityFrom(ms, start + 1, before, after)
      ensures SoundFrom(pass, ms, start, f2)
    {
      PassStays(pass, ms[start], f1, f2);
    }

    /** No node of `xs` still in `ub` passes the test of `pass` with a node of `ys` still in `ua`, under `f`. */
    ghost predicate Rejected(pass: Pass, xs: seq<nat>, ys: seq<nat>, ub: set<nat>, ua: set<nat>, f: map<nat, nat>)
      reads engine
    {
      forall x, y | x in xs && y in ys && x in ub && y in ua :: !Passes(pass, Match(x, y), f)
    }

    lemma RejectedShrinks(pass: Pass, xs: seq<nat>, ys: seq<nat>, ub: set<nat>, ua: set<nat>, ub1: set<nat>, ua1: set<nat>, f: map<nat, nat>)
      requires Rejected(pass, xs, ys, ub, ua, f) && ub1 <= ub && ua1 <= ua
      ensures Rejected(pass, xs, ys, ub1, ua1, f)
    {
    }

    /** Pairs rejected under a map were rejected under every map it extends. */
    lemma RejectedEarlier(pass: Pass, xs: seq<nat>, ys: seq<nat>, ub: set<nat>, ua: set<nat>, f1: map<nat, nat>, f2: map<nat, nat>)
      requires Extends(f1, f2) && Rejected(pass, xs, ys, ub, ua, f2)
      ensures Rejected(pass, xs, ys, ub, ua, f1)
    {
      forall x, y | x in xs && y in ys && x in ub && y in ua ensures !Passes(pass, Match(x, y), f1) {
        PassStays(pass, Match(x, y), f1, f2);
      }
    }

    /** One more after-node rejected with the before-node `b`. */
    lemma RejectedColumn(pass: Pass, b: nat, ys: seq<nat>, j: nat, ub: set<nat>, ua: set<nat>, f: map<nat, nat>)
      requires j < |ys| && Rejected(pass, [b], ys[..j], ub, ua, f)
      requires b in ub && ys[j] in ua ==> !Passes(pass, Match(b, ys[j]), f)
      ensures Rejected(pass, [b], ys[..j + 1], ub, ua, f)
    {
      assert ys[..j + 1] == ys[..j] + [ys[j]];
    }

    /** One more before-node rejected with every node of `ys`. */
    lemma RejectedRow(pass: Pass, xs: seq<nat>, ys: seq<nat>, i: nat, ub: set<nat>, ua: set<nat>, f: map<nat, nat>)
      requires i < |xs| && Rejected(pass, xs[..i], ys, ub, ua, f) && Rejected(pass, [xs[i]], ys, ub, ua, f)
      ensures Rejected(pass, xs[..i + 1], ys, ub, ua, f)
    {
      assert xs[..i + 1] == xs[..i] + [xs[i]];
    }

    /** Rejection over the whole traversal orders covers every pooled pair. */
    lemma RejectedEverywhere(pass: Pass, ub: set<nat>, ua: set<nat>, f: map<nat, nat>)
      requires Order(beforeOrder, |before.nodes|) && Order(afterOrder, |after.nodes|)
      requires (forall x | x in ub :: x < |before.nodes|) && (forall y | y in ua :: y < |after.nodes|)
      requires Rejected(pass, beforeOrder, afterOrder, ub, ua, f)
      ensures forall x, y | x in ub && y in ua :: !Passes(pass, Match(x, y), f)
    {
      forall x, y | x in ub && y in ua ensures !Passes(pass, Match(x, y), f) {
        assert x in beforeOrder && y in afterOrder;
      }
    }

    /** The test of the children pass: more than one linked child pair and a name similarity above the threshold. */
    method ChildrenTest(b: nat, a: nat) returns (accept: bool)
      requires Static() && Scored() && b < |before.nodes| && a < |after.nodes|
      ensures accept <==> ChildrenUnder(Match(b, a), beforeToAfter)
    {
      var count := MatchingsChildren(b, a);
      accept := false;
      if count > 1 {
        var nameSim := engine.NameSim(NodeRef(BeforeSide, b), NodeRef(AfterSide, a));
        accept := nameSim.value.Exceeds(SimThreshold);
      }
    }

    /** The test of `pass` on one pair in the current state: the decision table, or the children test. */
    method PassTest(pass: Pass, b: nat, a: nat) returns (accept: bool)
      requires Static() && Scored() && b < |before.nodes| && a < |after.nodes|
      ensures accept <==> Passes(pass, Match(b, a), beforeToAfter)
    {
      match pass
      case SimilarityPass =>
        var kind := FindMatchingRelationship(b, a);
        accept := kind.Some?;
      case ChildrenPass =>
        accept := ChildrenTest(b, a);
    }

    /**
     * `findMatchingsBySimiliarity`: every unmatched before-node against every
     * unmatched after-node; a pair the decision table accepts is matched. No
     * pair left in the pools passes the test under the map the pass started from.
     */
    method FindMatchingsBySimilarity()
      requires Static() && Scored() && Valid()
      modifies this
      ensures Valid()
      ensures Grew(old(matches), old(unmatchedBefore), old(unmatchedAfter), old(beforeToAfter), old(afterToBefore))
      ensures forall k | |old(matches)| <= k < |matches| :: IdentityPair(matches[k], before, after) || SimilarUnder(matches[k], beforeToAfter)
      ensures forall x, y | x in unmatchedBefore && y in unmatchedAfter :: !SimilarUnder(Match(x, y), old(beforeToAfter))
      ensures Cascaded(matches, |old(matches)|, unmatchedBefore, unmatchedAfter, before, after)
    {
      MatchPass(SimilarityPass);
    }

    /** `matchingsChildren`: counts the (before-child, after-child) pairs the match map links. */
    method MatchingsChildren(b: nat, a: nat) returns (count: nat)
      requires b < |before.nodes| && a < |after.nodes|
      ensures count == ChildPairs(before.nodes[b].children, after.nodes[a].children, beforeToAfter)
    {
      var beforeChildren, afterChildren := before.nodes[b].children, after.nodes[a].children;
      count := 0;
      var i := 0;
      while i < |beforeChildren|
        invariant 0 <= i <= |beforeChildren|
        invariant count == ChildPairs(beforeChildren[..i], afterChildren, beforeToAfter)
      {
        var beforeChild := beforeChildren[i];
        var j := 0;
        while j < |afterChildren|
          invariant 0 <= j <= |afterChildren|
          invariant count == ChildPairs(beforeChildren[..i], afterChildren, beforeToAfter) + Hits(beforeChild, afterChildren[..j], beforeToAfter)
        {
          assert afterChildren[..j + 1][..j] == afterChildren[..j];
          if beforeChild in beforeToAfter && beforeToAfter[beforeChild] == afterChildren[j] {
            count := count + 1;
          }
          j := j + 1;
        }
        assert afterChildren[..j] == afterChildren;
        assert beforeChildren[..i + 1][..i] == beforeChildren[..i];
        i := i + 1;
      }
      assert beforeChildren[..i] == beforeChildren;
    }

    /**
     * `findMatchingsByChildren`: every unmatched before-node against every
     * unmatched after-node; a pair with more than one linked child pair and a
     * name similarity above the threshold is matched. No pair left in the
     * pools passes the test under the map the pass started from.
     */
    method FindMatchingsByChildren()
      requires Static() && Scored() && Valid()
      modifies this
      ensures Valid()
      ensures Grew(old(matches), old(unmatchedBefore), old(unmatchedAfter), old(beforeToAfter), old(afterToBefore))
      ensures forall k | |old(matches)| <= k < |matches| :: IdentityPair(matches[k], before, after) || ChildrenUnder(matches[k], beforeToAfter)
      ensures forall x, y | x in unmatchedBefore && y in unmatchedAfter :: !ChildrenUnder(Match(x, y), old(beforeToAfter))
      ensures Cascaded(matches, |old(matches)|, unmatchedBefore, unmatchedAfter, before, after)
    {
      MatchPass(ChildrenPass);
    }

    /**
     * The loops `findMatchingsBySimiliarity` and `findMatchingsByChildren`
     * share: every unmatched before-node, in pool order, against every
     * unmatched after-node, in pool order; a pair that passes the test of
     * `pass` is matched (with its cascade). No pair left in the pools passes
     * the test under the map the pass started from.
     */
    method MatchPass(pass: Pass)
      requires Static() && Scored() && Valid()
      modifies this
      ensures Valid()
      ensures Grew(old(matches), old(unmatchedBefore), old(unmatchedAfter), old(beforeToAfter), old(afterToBefore))
      ensures SoundFrom(pass, matches, |old(matches)|, beforeToAfter)
      ensures forall x, y | x in unmatchedBefore && y in unmatchedAfter :: !Passes(pass, Match(x, y), old(beforeToAfter))
      ensures Cascaded(matches, |old(matches)|, unmatchedBefore, unmatchedAfter, before, after)
    {
      var i := 0;
      while i < |beforeOrder|
        invariant 0 <= i <= |beforeOrder|
        invariant Valid()
        invariant Grew(old(matches), old(unmatchedBefore), old(unmatchedAfter), old(beforeToAfter), old(afterToBefore))
        invariant SoundFrom(pass, matches, |old(matches)|, beforeToAfter)
        invariant Rejected(pass, beforeOrder[..i], afterOrder, unmatchedBefore, unmatchedAfter, old(beforeToAfter))
        invariant Cascaded(matches, |old(matches)|, unmatchedBefore, unmatchedAfter, before, after)
      {
        var b := beforeOrder[i];
        assert b in beforeOrder;
        ghost var ms1, ub1, ua1, f1, g1 := matches, unmatchedBefore, unmatchedAfter, beforeToAfter, afterToBefore;
        if b in unmatchedBefore {
          MatchInRow(pass, b);
          GrownTrans(old(matches), old(unmatchedBefore), old(unmatchedAfter), old(beforeToAfter), old(afterToBefore),
                     ms1, ub1, ua1, f1, g1, matches, unmatchedBefore, unmatchedAfter, beforeToAfter, afterToBefore);
          SoundJoin(pass, ms1, matches, |old(matches)|, f1, beforeToAfter);
          CascadedJoin(ms1, matches, |old(matches)|, ub1, ua1, unmatchedBefore, unmatchedAfter, before, after);
          RejectedEarlier(pass, [b], afterOrder, unmatchedBefore, unmatchedAfter, old(beforeToAfter), f1);
          RejectedShrinks(pass, beforeOrder[..i], afterOrder, ub1, ua1, unmatchedBefore, unmatchedAfter, old(beforeToAfter));
        }
        RejectedRow(pass, beforeOrder, afterOrder, i, unmatchedBefore, unmatchedAfter, old(beforeToAfter));
        i := i + 1;
      }
      assert beforeOrder[..i] == beforeOrder;
      RejectedEverywhere(pass, unmatchedBefore, unmatchedAfter, old(beforeToAfter));
    }

    /**
     * The inner loop of `MatchPass` for the before-node `b`: unless `b` gets
     * matched, no after-node left in the pool passes the test with `b` under
     * the map the row started from.
     */
    method MatchInRow(pass: Pass, b: nat)
      requires Static() && Scored() && Valid() && b < |before.nodes|
      modifies this
      ensures Valid()
      ensures Grew(old(matches), old(unmatchedBefore), old(unmatchedAfter), old(beforeToAfter), old(afterToBefore))
      ensures SoundFrom(pass, matches, |old(matches)|, beforeToAfter)
      ensures Rejected(pass, [b], afterOrder, unmatchedBefore, unmatchedAfter, old(beforeToAfter))
      ensures Cascaded(matches, |old(matches)|, unmatchedBefore, unmatchedAfter, before, after)
    {
      var j := 0;
      while j < |afterOrder|
        invariant 0 <= j <= |afterOrder|
        invariant Valid()
        invariant Grew(old(matches), old(unmatchedBefore), old(unmatchedAfter), old(beforeToAfter), old(afterToBefore))
        invariant SoundFrom(pass, matches, |old(matches)|, beforeToAfter)
        invariant Rejected(pass, [b], afterOrder[..j], unmatchedBefore, unmatchedAfter, old(beforeToAfter))
        invariant Cascaded(matches, |old(matches)|, unmatchedBefore, unmatchedAfter, before, after)
      {
        var a := afterOrder[j];
        assert a in afterOrder;
        if a in unmatchedAfter {
          var accept := PassTest(pass, b, a);
          if accept {
            ghost var ms1, ub1, ua1, f1, g1 := matches, unmatchedBefore, unmatchedAfter, beforeToAfter, afterToBefore;
            AddMatch(b, a);
            GrownTrans(old(matches), old(unmatchedBefore), old(unmatchedAfter), old(beforeToAfter), old(afterToBefore),
                       ms1, ub1, ua1, f1, g1, matches, unmatchedBefore, unmatchedAfter, beforeToAfter, afterToBefore);
            if |ms1| < |matches| {
              SoundHead(pass, matches, |ms1|, f1, beforeToAfter);
            }
            SoundJoin(pass, ms1, matches, |old(matches)|, f1, beforeToAfter);
            CascadedJoin(ms1, matches, |old(matches)|, ub1, ua1, unmatchedBefore, unmatchedAfter, before, after);
            RejectedShrinks(pass, [b], afterOrder[..j], ub1, ua1, unmatchedBefore, unmatchedAfter, old(beforeToAfter));
          } else {
            PassStays(pass, Match(b, a), old(beforeToAfter), beforeToAfter);
          }
        }
        RejectedColumn(pass, b, afterOrder, j, unmatchedBefore, unmatchedAfter, old(beforeToAfter));
        j := j + 1;
      }
      assert afterOrder[..j] == afterOrder;
    }

    /** `resolveMatching`: one relationship per match, in match order, of the match's (possibly undefined) kind. */
    method ResolveMatching() returns (rels: seq<Relationship>)
      requires Static() && Scored()
      requires Recorded(matches, beforeToAfter, afterToBefore, |before.nodes|, |after.nodes|)
      ensures |rels| == |matches|
      ensures forall k | 0 <= k < |matches| ::
                rels[k] == Relationship(Some(matches[k].before), Some(matches[k].after), KindOf(matches[k]))
      ensures forall r | r in rels :: r.before.Some? && r.after.Some? && r.kind != Some(Removed) && r.kind != Some(Added)
      ensures forall r | r in rels :: r.kind.None? || r.kind.value in {Same, ChangeSignature, Move, Rename, MoveAndRename}
    {
      rels := [];
      var k := 0;
      while k < |matches|
        invariant 0 <= k <= |matches| && |rels| == k
        invariant forall i | 0 <= i < k :: rels[i] == Relationship(Some(matches[i].before), Some(matches[i].after), KindOf(matches[i]))
      {
        var m := matches[k];
        var kind := FindMatchingRelationship(m.before, m.after);
        rels := rels + [Relationship(Some(m.before), Some(m.after), kind)];
        k := k + 1;
      }
      forall r | r in rels
        ensures r.before.Some? && r.after.Some? && r.kind != Some(Removed) && r.kind != Some(Added)
        ensures r.kind.None? || r.kind.value in {Same, ChangeSignature, Move, Rename, MoveAndRename}
      {
        var i :| 0 <= i < |rels| && rels[i] == r;
        assert r.kind == KindOf(matches[i]);
      }
    }

    /**
     * A relationship `findExtractedRelationships` may emit: `after` (the
     * extracted node) is called by the after-node matched to `before`, has the
     * same parent as `before` exactly when the pass is not the move pass, and
     * `extractedSim` scores it above the threshold.
     */
    ghost predicate ExtractedBy(r: Relationship, moveRelationship: bool, f: map<nat, nat>)
      reads engine
    {
      && r.before.Some? && r.after.Some? && r.before.value in f
      && var b, a, x := r.before.value, f[r.before.value], r.after.value;
      && b < |before.nodes| && a < |after.nodes| && x < |after.nodes|
      && x in after.nodes[a].calls
      && SameParent(before.nodes[b], after.nodes[x], f) == !moveRelationship
      && r.kind == Some(ExtractKind(moveRelationship))
      && engine.IsNode(NodeRef(BeforeSide, b)) && engine.IsNode(NodeRef(AfterSide, a))
      && Above(engine.ExtractedScore(NodeRef(BeforeSide, b), NodeRef(AfterSide, a), NodeRef(AfterSide, x)))
    }

    /** The relationship the extract pass (or the extract-and-move pass) would report for `b` and `x` passes its test. */
    ghost predicate Extractable(b: nat, x: nat, moveRelationship: bool, f: map<nat, nat>)
      reads engine
    {
      ExtractedBy(Relationship(Some(b), Some(x), Some(ExtractKind(moveRelationship))), moveRelationship, f)
    }

    /**
     * The error `findExtractedRelationships` throws on the after-node `x` for
     * the match of `b`: `x` is called by the matched after-node and passes the
     * parent test of the pass, and its `extractedSim` fails. `None` when the
     * score is not computed or does not fail.
     */
    ghost function ExtractError(b: nat, x: nat, moveRelationship: bool, f: map<nat, nat>): Option<Fault>
      reads engine
    {
      if && b in f && b < |before.nodes| && f[b] < |after.nodes| && x < |after.nodes|
         && x in after.nodes[f[b]].calls
         && SameParent(before.nodes[b], after.nodes[x], f) == !moveRelationship
         && engine.IsNode(NodeRef(BeforeSide, b)) && engine.IsNode(NodeRef(AfterSide, f[b]))
         && engine.ExtractedScore(NodeRef(BeforeSide, b), NodeRef(AfterSide, f[b]), NodeRef(AfterSide, x)).Failure?
      then Some(engine.ExtractedScore(NodeRef(BeforeSide, b), NodeRef(AfterSide, f[b]), NodeRef(AfterSide, x)).error)
      else None
    }

    /**
     * After a sweep of `findExtractedRelationships` that threw nothing: no
     * after-node of `pool` passes the sweep's test for any match, and no
     * `extractedSim` of one fails.
     */
    ghost predicate ExtractDone(pool: set<nat>, moveRelationship: bool)
      reads this`matches, this`beforeToAfter, engine
    {
      forall k, y | 0 <= k < |matches| && y in pool ::
        && !Extractable(matches[k].before, y, moveRelationship, beforeToAfter)
        && ExtractError(matches[k].before, y, moveRelationship, beforeToAfter).None?
    }

    /** The error `e` is that of the `extractedSim` of some match and some after-node of `pool`. */
    ghost predicate ExtractFailed(pool: set<nat>, moveRelationship: bool, e: Fault)
      reads this`matches, this`beforeToAfter, engine
    {
      exists k, y | 0 <= k < |matches| && y in pool :: ExtractError(matches[k].before, y, moveRelationship, beforeToAfter) == Some(e)
    }

    /** No `extractedSim` of a match and an after-node of `pool` that the sweep computes fails. */
    ghost predicate ExtractClean(pool: set<nat>, moveRelationship: bool)
      reads this`matches, this`beforeToAfter, engine
    {
      forall k, y | 0 <= k < |matches| && y in pool :: ExtractError(matches[k].before, y, moveRelationship, beforeToAfter).None?
    }

    lemma ExtractDoneShrinks(pool1: set<nat>, pool2: set<nat>, moveRelationship: bool)
      requires pool2 <= pool1 && ExtractDone(pool1, moveRelationship)
      ensures ExtractDone(pool2, moveRelationship)
    {
    }

    lemma ExtractFailedGrows(pool1: set<nat>, pool2: set<nat>, moveRelationship: bool, e: Fault)
      requires pool1 <= pool2 && ExtractFailed(pool1, moveRelationship, e)
      ensures ExtractFailed(pool2, moveRelationship, e)
    {
      var k, y :| 0 <= k < |matches| && y in pool1 && ExtractError(matches[k].before, y, moveRelationship, beforeToAfter) == Some(e);
      assert y in pool2;
    }

    /** The pool after one more round of the extract loops holds no candidate of the rounds so far. */
    lemma ExtractRound(ms: seq<Match>, k: nat, pool1: set<nat>, pool2: set<nat>, moveRelationship: bool, f: map<nat, nat>)
      requires k < |ms| && pool2 <= pool1
      requires forall i, x | 0 <= i < k && x in pool1 :: !Extractable(ms[i].before, x, moveRelationship, f)
      requires forall i, x | 0 <= i < k && x in pool1 :: ExtractError(ms[i].before, x, moveRelationship, f).None?
      requires forall x | x in pool2 :: !Extractable(ms[k].before, x, moveRelationship, f)
      requires forall x | x in pool1 :: ExtractError(ms[k].before, x, moveRelationship, f).None?
      ensures forall i, x | 0 <= i < k + 1 && x in pool2 :: !Extractable(ms[i].before, x, moveRelationship, f)
      ensures forall i, x | 0 <= i < k + 1 && x in pool2 :: ExtractError(ms[i].before, x, moveRelationship, f).None?
    {
    }

    /**
     * `findExtractedRelationships`: for each match, in match order, each
     * unmatched after-node the matched after-node calls; a candidate that
     * passes is reported and leaves the pool. A failing `extractedSim` aborts.
     */
    method FindExtractedRelationships(moveRelationship: bool) returns (rels: seq<Relationship>, fault: Option<Fault>)
      requires Static() && Valid()
      modifies this
      ensures Valid() && unmatchedAfter <= old(unmatchedAfter)
      ensures matches == old(matches) && beforeToAfter == old(beforeToAfter) && afterToBefore == old(afterToBefore)
      ensures unmatchedBefore == old(unmatchedBefore)
      ensures ExtractSound(rels, moveRelationship, old(unmatchedAfter), unmatchedAfter)
      ensures fault.None? ==> ExtractDone(unmatchedAfter, moveRelationship)
      ensures fault.Some? ==> ExtractFailed(old(unmatchedAfter), moveRelationship, fault.value)
    {
      var pool;
      rels, pool, fault := ExtractAll(moveRelationship, unmatchedAfter);
      unmatchedAfter := pool;
    }

    /**
     * The loops of `findExtractedRelationships` on a copy of the after-pool:
     * the pool that results, and the relationships reported.
     */
    method ExtractAll(moveRelationship: bool, pool0: set<nat>) returns (rels: seq<Relationship>, pool: set<nat>, fault: Option<Fault>)
      requires Static() && Recorded(matches, beforeToAfter, afterToBefore, |before.nodes|, |after.nodes|)
      requires Pool(pool0, |after.nodes|, afterToBefore)
      ensures AfterNodes(rels) <= pool0 && pool == pool0 - AfterNodes(rels)
      ensures forall r | r in rels :: ExtractedBy(r, moveRelationship, beforeToAfter)
      ensures DistinctAfters(rels)
      ensures Kinded(rels, {ExtractKind(moveRelationship)})
      ensures fault.None? ==> ExtractDone(pool, moveRelationship)
      ensures fault.Some? ==> ExtractFailed(pool0, moveRelationship, fault.value)
    {
      pool := pool0;
      rels, fault := [], None;
      var k := 0;
      while k < |matches| && fault.None?
        invariant 0 <= k <= |matches|
        invariant AfterNodes(rels) <= pool0 && pool == pool0 - AfterNodes(rels)
        invariant forall r | r in rels :: ExtractedBy(r, moveRelationship, beforeToAfter)
        invariant DistinctAfters(rels) && Kinded(rels, {ExtractKind(moveRelationship)})
        invariant fault.None? ==>
          forall i, x | 0 <= i < k && x in pool :: !Extractable(matches[i].before, x, moveRelationship, beforeToAfter)
        invariant fault.None? ==>
          forall i, x | 0 <= i < k && x in pool :: ExtractError(matches[i].before, x, moveRelationship, beforeToAfter).None?
        invariant fault.Some? ==> ExtractFailed(pool0, moveRelationship, fault.value)
      {
        var added, rest;
        added, rest, fault := ExtractFrom(matches[k].before, matches[k].after, moveRelationship, pool);
        if fault.None? {
          ExtractRound(matches, k, pool, rest, moveRelationship, beforeToAfter);
        } else {
          ghost var x :| x in pool && ExtractError(matches[k].before, x, moveRelationship, beforeToAfter) == fault;
          assert x in pool0;
          assert ExtractFailed(pool0, moveRelationship, fault.value);
        }
        NodesConcat(rels, added);
        DistinctConcat(rels, added, pool);
        rels, pool := rels + added, rest;
        k := k + 1;
      }
    }

    /**
     * The test `findExtractedRelationships` applies to an after-node `x` for
     * the match (b, a): `a` calls `x`, the parents agree exactly when the
     * pass is not the move pass, and `extractedSim` is above the threshold.
     * A failing `extractedSim` is reported as the fault.
     */
    method ExtractCandidate(b: nat, a: nat, x: nat, moveRelationship: bool) returns (accept: bool, fault: Option<Fault>)
      requires Static()
      requires b < |before.nodes| && a < |after.nodes| && x < |after.nodes|
      requires b in beforeToAfter && beforeToAfter[b] == a
      ensures fault.Some? ==> !accept
      ensures fault == ExtractError(b, x, moveRelationship, beforeToAfter)
      ensures fault.None? ==>
        (accept <==> Extractable(b, x, moveRelationship, beforeToAfter))
    {
      accept, fault := false, None;
      if x in after.nodes[a].calls {
        var matchingParents := SameParent(before.nodes[b], after.nodes[x], beforeToAfter);
        if matchingParents != moveRelationship {
          var extractedSim := engine.ExtractedSim(NodeRef(BeforeSide, b), NodeRef(AfterSide, a), NodeRef(AfterSide, x));
          if extractedSim.Failure? {
            fault := Some(extractedSim.error);
            return;
          }
          accept := extractedSim.value.Exceeds(SimThreshold);
        }
      }
    }

    /**
     * One round of `findExtractedRelationships`: the candidates of the match
     * (b, a), taken from `pool0` in traversal order.
     */
    method ExtractFrom(b: nat, a: nat, moveRelationship: bool, pool0: set<nat>)
      returns (added: seq<Relationship>, pool: set<nat>, fault: Option<Fault>)
      requires Static() && b < |before.nodes| && a < |after.nodes|
      requires b in beforeToAfter && beforeToAfter[b] == a
      requires forall x | x in pool0 :: x < |after.nodes|
      ensures AfterNodes(added) <= pool0 && pool == pool0 - AfterNodes(added)
      ensures forall r | r in added :: ExtractedBy(r, moveRelationship, beforeToAfter)
      ensures DistinctAfters(added)
      ensures Kinded(added, {ExtractKind(moveRelationship)})
      ensures fault.None? ==> forall x | x in pool :: !Extractable(b, x, moveRelationship, beforeToAfter)
      ensures fault.None? <==> forall x | x in pool0 :: ExtractError(b, x, moveRelationship, beforeToAfter).None?
      ensures fault.Some? ==> exists x | x in pool0 :: ExtractError(b, x, moveRelationship, beforeToAfter) == fault
    {
      pool := pool0;
      added, fault := [], None;
      var j := 0;
      while j < |afterOrder| && fault.None?
        invariant 0 <= j <= |afterOrder|
        invariant ExtractSound(added, moveRelationship, pool0, pool)
        invariant fault.None? ==> ScanClean(b, moveRelationship, afterOrder[..j], pool0, pool)
        invariant fault.Some? ==> exists x | x in pool0 :: ExtractError(b, x, moveRelationship, beforeToAfter) == fault
        invariant forall x | x in pool0 && x !in pool :: x in afterOrder[..j]
      {
        var extracted := afterOrder[j];
        assert afterOrder[..j + 1] == afterOrder[..j] + [extracted];
        assert extracted !in afterOrder[..j] by {
          forall i | 0 <= i < j ensures afterOrder[i] != extracted {
            assert afterOrder[..j][i] == afterOrder[i];
          }
        }
        ghost var pool1 := pool;
        if extracted in pool {
          var accept;
          accept, fault := ExtractCandidate(b, a, extracted, moveRelationship);
          if accept {
            ExtractStep(b, extracted, moveRelationship, added, pool0, pool);
            added, pool := added + [Relationship(Some(b), Some(extracted), Some(ExtractKind(moveRelationship)))], pool - {extracted};
          }
        }
        if fault.None? {
          ScanStep(b, moveRelationship, afterOrder[..j], extracted, pool0, pool1, pool);
        }
        j := j + 1;
      }
      if fault.None? {
        assert afterOrder[..j] == afterOrder;
        assert forall x | x in pool0 :: x in afterOrder;
      }
    }

    /** The after-nodes of `seen` scanned for the match of `b` without a fault: none still pooled is extractable. */
    ghost predicate ScanClean(b: nat, moveRelationship: bool, seen: seq<nat>, pool0: set<nat>, pool: set<nat>)
      reads this`beforeToAfter, engine
    {
      && (forall x | x in pool && x in seen :: !Extractable(b, x, moveRelationship, beforeToAfter))
      && (forall x | x in pool0 && x in seen :: ExtractError(b, x, moveRelationship, beforeToAfter).None?)
    }

    /** Scanning one more after-node: skipped when not pooled, otherwise tested and taken when extractable. */
    lemma ScanStep(b: nat, moveRelationship: bool, seen: seq<nat>, x: nat, pool0: set<nat>, pool1: set<nat>, pool2: set<nat>)
      requires ScanClean(b, moveRelationship, seen, pool0, pool1)
      requires pool1 <= pool0 && pool2 <= pool1 && pool1 - pool2 <= {x}
      requires x in pool1 ==> ExtractError(b, x, moveRelationship, beforeToAfter).None?
      requires x in pool1 ==> (x !in pool2 <==> Extractable(b, x, moveRelationship, beforeToAfter))
      requires x in pool0 && x !in pool1 ==> x in seen
      ensures ScanClean(b, moveRelationship, seen + [x], pool0, pool2)
    {
    }

    /** Extract relationships reported so far: each justified, each after-node once, all taken from the pool. */
    ghost predicate ExtractSound(rels: seq<Relationship>, moveRelationship: bool, pool0: set<nat>, pool: set<nat>)
      reads this`beforeToAfter, engine
    {
      && AfterNodes(rels) <= pool0 && pool == pool0 - AfterNodes(rels)
      && (forall r | r in rels :: ExtractedBy(r, moveRelationship, beforeToAfter))
      && DistinctAfters(rels) && Kinded(rels, {ExtractKind(moveRelationship)})
    }

    /** Reporting one more pooled, extractable after-node keeps the report sound. */
    lemma ExtractStep(b: nat, x: nat, moveRelationship: bool, rels: seq<Relationship>, pool0: set<nat>, pool: set<nat>)
      requires ExtractSound(rels, moveRelationship, pool0, pool)
      requires x in pool && Extractable(b, x, moveRelationship, beforeToAfter)
      ensures ExtractSound(rels + [Relationship(Some(b), Some(x), Some(ExtractKind(moveRelationship)))], moveRelationship, pool0, pool - {x})
    {
      var r := Relationship(Some(b), Some(x), Some(ExtractKind(moveRelationship)));
      ReportOne(rels, r);
      DistinctConcat(rels, [r], pool);
    }

    /**
     * Why `findInlinedRelationships` reports `x` against the match `m`: the
     * matched before-node calls `x` and `inlineSim` scores it above the
     * threshold.
     */
    ghost predicate Inlines(x: nat, m: Match)
      reads engine
    {
      && m.before < |before.nodes| && x in before.nodes[m.before].calls
      && Above(engine.InlineScore(NodeRef(BeforeSide, m.before), NodeRef(AfterSide, m.after), NodeRef(BeforeSide, x)))
    }

    /**
     * The error `findInlinedRelationships` throws on the before-node `x` for
     * the match `m`: the matched before-node calls `x`, and its `inlineSim`
     * fails. `None` when the score is not computed or does not fail.
     */
    ghost function InlineError(x: nat, m: Match): Option<Fault>
      reads engine
    {
      if && m.before < |before.nodes| && x in before.nodes[m.before].calls
         && engine.InlineScore(NodeRef(BeforeSide, m.before), NodeRef(AfterSide, m.after), NodeRef(BeforeSide, x)).Failure?
      then Some(engine.InlineScore(NodeRef(BeforeSide, m.before), NodeRef(AfterSide, m.after), NodeRef(BeforeSide, x)).error)
      else None
    }

    /** No `inlineSim` of a match and a before-node of `pool` fails. */
    ghost predicate InlineClean(pool: set<nat>)
      reads this`matches, engine
    {
      forall x, k | x in pool && 0 <= k < |matches| :: InlineError(x, matches[k]).None?
    }

    /** The error `e` is that of the `inlineSim` of some match and some before-node of `pool`. */
    ghost predicate InlineFailed(pool: set<nat>, e: Fault)
      reads this`matches, engine
    {
      exists x, k | x in pool && 0 <= k < |matches| :: InlineError(x, matches[k]) == Some(e)
    }

    /** An inline relationship: its after-node is matched, and the match inlines its before-node. */
    ghost predicate InlinedBy(r: Relationship, g: map<nat, nat>)
      reads engine
    {
      && r.before.Some? && r.after.Some? && r.after.value in g
      && r.kind == Some(Inline)
      && Inlines(r.before.value, Match(g[r.after.value], r.after.value))
    }

    /**
     * The relationships the inner loop of `findInlinedRelationships` reports
     * for one unmatched before-node `x` over the matches `ms`, in match order.
     */
    ghost function InlinedOf(x: nat, ms: seq<Match>): seq<Relationship>
      reads engine
      decreases |ms|
    {
      if ms == [] then []
      else
        var m := ms[|ms| - 1];
        InlinedOf(x, ms[..|ms| - 1]) + if Inlines(x, m) then [Relationship(Some(x), Some(m.after), Some(Inline))] else []
    }

    /** Everything reported for `x` is an inline relationship of `x` justified by a match. */
    lemma {:induction false} InlinedOfSound(x: nat, ms: seq<Match>, g: map<nat, nat>)
      requires forall k | 0 <= k < |ms| :: ms[k].after in g && g[ms[k].after] == ms[k].before
      ensures forall r | r in InlinedOf(x, ms) :: r.before == Some(x) && InlinedBy(r, g)
      decreases |ms|
    {
      if ms != [] {
        var init := ms[..|ms| - 1];
        assert forall k | 0 <= k < |init| :: init[k] == ms[k];
        InlinedOfSound(x, init, g);
        assert ms[|ms| - 1] == ms[|ms| - 1];
      }
    }

    /** Every match whose before-node calls and inlines `x` reports `x`. */
    lemma {:induction false} InlinedOfComplete(x: nat, ms: seq<Match>)
      ensures forall k | 0 <= k < |ms| ::
        Inlines(x, ms[k]) ==> Relationship(Some(x), Some(ms[k].after), Some(Inline)) in InlinedOf(x, ms)
      decreases |ms|
    {
      if ms != [] {
        var init := ms[..|ms| - 1];
        InlinedOfComplete(x, init);
        forall k | 0 <= k < |ms| && Inlines(x, ms[k])
          ensures Relationship(Some(x), Some(ms[k].after), Some(Inline)) in InlinedOf(x, ms)
        {
          if k < |init| {
            assert init[k] == ms[k];
          }
        }
      }
    }

    /** The before-nodes reported for `x` are `x` alone, or none. */
    lemma {:induction false} InlinedOfNodes(x: nat, ms: seq<Match>)
      ensures BeforeNodes(InlinedOf(x, ms)) == if InlinedOf(x, ms) == [] then {} else {x}
      decreases |ms|
    {
      if ms != [] {
        var init := ms[..|ms| - 1];
        InlinedOfNodes(x, init);
        var m := ms[|ms| - 1];
        NodesConcat(InlinedOf(x, init), if Inlines(x, m) then [Relationship(Some(x), Some(m.after), Some(Inline))] else []);
        ReportOne([], Relationship(Some(x), Some(m.after), Some(Inline)));
      }
    }

    /**
     * The inner loop of `findInlinedRelationships` for one unmatched
     * before-node `x`: every match, in match order, is tried, and the loop
     * does not stop at the first hit, so `x` is reported once per match that
     * inlines it.
     */
    method InlineInto(x: nat) returns (added: seq<Relationship>, fault: Option<Fault>)
      requires forall k | 0 <= k < |matches| :: matches[k].before < |before.nodes|
      ensures fault.None? ==> added == InlinedOf(x, matches)
      ensures fault.None? <==> forall k | 0 <= k < |matches| :: InlineError(x, matches[k]).None?
      ensures fault.Some? ==> exists k | 0 <= k < |matches| :: InlineError(x, matches[k]) == fault
    {
      added, fault := [], None;
      var k := 0;
      while k < |matches|
        invariant 0 <= k <= |matches|
        invariant added == InlinedOf(x, matches[..k])
        invariant forall i | 0 <= i < k :: InlineError(x, matches[i]).None?
      {
        var b, a := matches[k].before, matches[k].after;
        assert matches[..k + 1][..k] == matches[..k];
        if x in before.nodes[b].calls {
          var inlinedSim := engine.InlineSim(NodeRef(BeforeSide, b), NodeRef(AfterSide, a), NodeRef(BeforeSide, x));
          if inlinedSim.Failure? {
            fault := Some(inlinedSim.error);
            return;
          }
          if inlinedSim.value.Exceeds(SimThreshold) {
            added := added + [Relationship(Some(x), Some(a), Some(Inline))];
          }
        }
        k := k + 1;
      }
      assert matches[..k] == matches;
    }

    /**
     * `findInlinedRelationships`: each unmatched before-node, in pool order,
     * against every match; a node reported at least once leaves the pool.
     * A failing `inlineSim` aborts.
     */
    method FindInlinedRelationships() returns (rels: seq<Relationship>, fault: Option<Fault>)
      requires Static() && Valid()
      modifies this
      ensures Valid() && unmatchedBefore <= old(unmatchedBefore)
      ensures matches == old(matches) && beforeToAfter == old(beforeToAfter) && afterToBefore == old(afterToBefore)
      ensures unmatchedAfter == old(unmatchedAfter)
      ensures BeforeNodes(rels) <= old(unmatchedBefore) && unmatchedBefore == old(unmatchedBefore) - BeforeNodes(rels)
      ensures forall r | r in rels :: InlinedBy(r, afterToBefore)
      ensures fault.None? ==>
        forall x, k | x in old(unmatchedBefore) && 0 <= k < |matches| ::
          Inlines(x, matches[k]) ==> Relationship(Some(x), Some(matches[k].after), Some(Inline)) in rels
      ensures Kinded(rels, {Inline})
      ensures fault.None? ==> forall x, k | x in unmatchedBefore && 0 <= k < |matches| :: !Inlines(x, matches[k])
      ensures fault.None? <==> InlineClean(old(unmatchedBefore))
      ensures fault.Some? ==> InlineFailed(old(unmatchedBefore), fault.value)
    {
      var pool;
      rels, pool, fault := InlineAll(unmatchedBefore);
      unmatchedBefore := pool;
    }

    /**
     * The loops of `findInlinedRelationships` on a copy of the before-pool:
     * the pool that results, and the relationships reported.
     */
    method InlineAll(pool0: set<nat>) returns (rels: seq<Relationship>, pool: set<nat>, fault: Option<Fault>)
      requires Recorded(matches, beforeToAfter, afterToBefore, |before.nodes|, |after.nodes|)
      requires Order(beforeOrder, |before.nodes|) && Pool(pool0, |before.nodes|, beforeToAfter)
      ensures BeforeNodes(rels) <= pool0 && pool == pool0 - BeforeNodes(rels)
      ensures forall r | r in rels :: InlinedBy(r, afterToBefore)
      ensures fault.None? ==>
        forall x, k | x in pool0 && 0 <= k < |matches| ::
          Inlines(x, matches[k]) ==> Relationship(Some(x), Some(matches[k].after), Some(Inline)) in rels
      ensures Kinded(rels, {Inline})
      ensures fault.None? ==> forall x, k | x in pool && 0 <= k < |matches| :: !Inlines(x, matches[k])
      ensures fault.None? <==> InlineClean(pool0)
      ensures fault.Some? ==> InlineFailed(pool0, fault.value)
    {
      pool := pool0;
      rels, fault := [], None;
      var i := 0;
      while i < |beforeOrder| && fault.None?
        invariant 0 <= i <= |beforeOrder|
        invariant InlineSound(rels, pool0, pool)
        invariant fault.None? ==> InlineComplete(rels, pool0, beforeOrder[..i])
        invariant fault.None? ==> forall x, k | x in pool0 && x in beforeOrder[..i] && 0 <= k < |matches| :: InlineError(x, matches[k]).None?
        invariant fault.Some? ==> InlineFailed(pool0, fault.value)
      {
        var inlined := beforeOrder[i];
        assert beforeOrder[..i + 1] == beforeOrder[..i] + [inlined];
        assert inlined !in beforeOrder[..i] by {
          forall j | 0 <= j < i ensures beforeOrder[j] != inlined {
            assert beforeOrder[..i][j] == beforeOrder[j];
          }
        }
        if inlined in pool {
          var added;
          added, fault := InlineInto(inlined);
          if fault.None? {
            var pool1 := if added != [] then pool - {inlined} else pool;
            InlineRound(rels, pool0, pool, beforeOrder[..i], inlined, added, pool1);
            rels, pool := rels + added, pool1;
          } else {
            ghost var k :| 0 <= k < |matches| && InlineError(inlined, matches[k]) == fault;
            assert inlined in pool0;
          }
        } else {
          InlineRound(rels, pool0, pool, beforeOrder[..i], inlined, [], pool);
          assert rels + [] == rels;
        }
        i := i + 1;
      }
      if fault.None? {
        assert beforeOrder[..i] == beforeOrder;
        assert forall x | x in pool0 :: x in beforeOrder;
        InlineDone(rels, pool0, pool);
      }
    }

    /** The sweep of `findInlinedRelationships` so far: sound relationships, and the pool lost exactly their before-nodes. */
    ghost predicate InlineSound(rels: seq<Relationship>, pool0: set<nat>, pool: set<nat>)
      reads this, engine
    {
      && BeforeNodes(rels) <= pool0 && pool == pool0 - BeforeNodes(rels)
      && (forall r | r in rels :: InlinedBy(r, afterToBefore))
      && Kinded(rels, {Inline})
    }

    /** Every pooled before-node of `seen` is reported against every match that inlines it, and no other node is. */
    ghost predicate InlineComplete(rels: seq<Relationship>, pool0: set<nat>, seen: seq<nat>)
      reads this, engine
    {
      && (forall x | x in BeforeNodes(rels) :: x in seen)
      && forall x, k | x in seen && x in pool0 && 0 <= k < |matches| ::
           Inlines(x, matches[k]) ==> Relationship(Some(x), Some(matches[k].after), Some(Inline)) in rels
    }

    /** One round of the sweep: the before-node `x`, if still pooled, reports its inline relationships. */
    lemma InlineRound(rels: seq<Relationship>, pool0: set<nat>, pool: set<nat>, seen: seq<nat>, x: nat,
                      added: seq<Relationship>, pool1: set<nat>)
      requires Recorded(matches, beforeToAfter, afterToBefore, |before.nodes|, |after.nodes|)
      requires InlineSound(rels, pool0, pool) && InlineComplete(rels, pool0, seen) && x !in seen
      requires x in pool ==> added == InlinedOf(x, matches) && pool1 == if added != [] then pool - {x} else pool
      requires x !in pool ==> added == [] && pool1 == pool
      ensures InlineSound(rels + added, pool0, pool1) && InlineComplete(rels + added, pool0, seen + [x])
    {
      NodesConcat(rels, added);
      if x in pool {
        InlinedOfSound(x, matches, afterToBefore);
        InlinedOfNodes(x, matches);
        InlinedOfComplete(x, matches);
      } else {
        assert rels + added == rels;
      }
    }

    /** After the whole traversal order, no node left in the pool is inlined by any match. */
    lemma InlineDone(rels: seq<Relationship>, pool0: set<nat>, pool: set<nat>)
      requires Order(beforeOrder, |before.nodes|) && Pool(pool0, |before.nodes|, beforeToAfter)
      requires InlineSound(rels, pool0, pool) && InlineComplete(rels, pool0, beforeOrder)
      ensures forall x, k | x in pool0 && 0 <= k < |matches| ::
                Inlines(x, matches[k]) ==> Relationship(Some(x), Some(matches[k].after), Some(Inline)) in rels
      ensures forall x, k | x in pool && 0 <= k < |matches| :: !Inlines(x, matches[k])
    {
      assert forall x | x in pool0 :: x in beforeOrder;
      forall x, k | x in pool0 && 0 <= k < |matches| && Inlines(x, matches[k]) ensures x !in pool {
        var r := Relationship(Some(x), Some(matches[k].after), Some(Inline));
        assert r in rels;
        assert x in BeforeNodes(rels);
      }
    }

    /**
     * What `findNonMatchingRelationships` reports: extract, extract-and-move
     * and inline relationships that pass their tests, in that kind order,
     * with no extracted node reported twice.
     */
    ghost predicate NonMatchingSound(rels: seq<Relationship>)
      reads this`beforeToAfter, this`afterToBefore, engine
    {
      && (forall r | r in rels ::
            ExtractedBy(r, false, beforeToAfter) || ExtractedBy(r, true, beforeToAfter) || InlinedBy(r, afterToBefore))
      && Kinded(rels, {Extract, ExtractAndMove, Inline})
      && KindSorted(rels) && ExtractedOnce(rels)
    }

    /**
     * No score the extract, extract-and-move and inline sweeps compute fails
     * when they start from the pools `ub` and `ua`.
     */
    ghost predicate SweepsClean(ub: set<nat>, ua: set<nat>)
      reads this`matches, this`beforeToAfter, engine
    {
      ExtractClean(ua, false) && ExtractClean(ua, true) && InlineClean(ub)
    }

    /** The error `e` is that of a score one of the three sweeps computes when they start from `ub` and `ua`. */
    ghost predicate SweepsFailed(ub: set<nat>, ua: set<nat>, e: Fault)
      reads this`matches, this`beforeToAfter, engine
    {
      ExtractFailed(ua, false, e) || ExtractFailed(ua, true, e) || InlineFailed(ub, e)
    }

    /** A failing score rules out a clean run. */
    lemma FailedNotClean(ub: set<nat>, ua: set<nat>, e: Fault)
      requires SweepsFailed(ub, ua, e)
      ensures !SweepsClean(ub, ua)
    {
      if ExtractFailed(ua, false, e) {
        var k, y :| 0 <= k < |matches| && y in ua && ExtractError(matches[k].before, y, false, beforeToAfter) == Some(e);
      } else if ExtractFailed(ua, true, e) {
        var k, y :| 0 <= k < |matches| && y in ua && ExtractError(matches[k].before, y, true, beforeToAfter) == Some(e);
      } else {
        var x, k :| x in ub && 0 <= k < |matches| && InlineError(x, matches[k]) == Some(e);
      }
    }

    /**
     * `findNonMatchingRelationships`: the extract pass, the extract-and-move
     * pass and the inline pass, in that order; a fault aborts the rest. The
     * kinds come in that order, no extracted node is reported twice or also
     * as the target of an inline, and once all three passes ran no node left
     * in a pool passes the test of any of them.
     */
    method FindNonMatchingRelationships() returns (rels: seq<Relationship>, fault: Option<Fault>)
      requires Static() && Valid()
      modifies this
      ensures Valid()
      ensures matches == old(matches) && beforeToAfter == old(beforeToAfter) && afterToBefore == old(afterToBefore)
      ensures unmatchedBefore == old(unmatchedBefore) - BeforeNodes(rels)
      ensures unmatchedAfter == old(unmatchedAfter) - AfterNodes(rels)
      ensures NonMatchingSound(rels)
      ensures fault.None? ==> ExtractDone(unmatchedAfter, false) && ExtractDone(unmatchedAfter, true)
      ensures fault.None? ==> forall x, k | x in unmatchedBefore && 0 <= k < |matches| :: !Inlines(x, matches[k])
      ensures fault.None? ==>
        forall x, k | x in old(unmatchedBefore) && 0 <= k < |matches| ::
          Inlines(x, matches[k]) ==> Relationship(Some(x), Some(matches[k].after), Some(Inline)) in rels
      ensures fault.None? ==> InlineClean(old(unmatchedBefore))
      ensures fault.Some? ==> SweepsFailed(old(unmatchedBefore), old(unmatchedAfter), fault.value)
    {
      var inlined := [];
      ghost var ub0, ua0 := unmatchedBefore, unmatchedAfter;
      rels, fault := FindExtractions();
      BeforesWithin(rels, beforeToAfter.Keys);
      if fault.None? {
        inlined, fault := FindInlinedRelationships();
        AftersWithin(inlined, afterToBefore.Keys);
      }
      NonMatchingJoin(rels, inlined);
      rels := rels + inlined;
    }

    /** The extract and extract-and-move relationships followed by the inline ones are sound. */
    lemma NonMatchingJoin(extracted: seq<Relationship>, inlined: seq<Relationship>)
      requires forall r | r in extracted :: ExtractedBy(r, false, beforeToAfter) || ExtractedBy(r, true, beforeToAfter)
      requires Kinded(extracted, {Extract, ExtractAndMove}) && KindSorted(extracted) && DistinctAfters(extracted)
      requires forall r | r in inlined :: InlinedBy(r, afterToBefore)
      requires Kinded(inlined, {Inline}) && AfterNodes(extracted) !! AfterNodes(inlined)
      ensures NonMatchingSound(extracted + inlined)
      ensures BeforeNodes(extracted + inlined) == BeforeNodes(extracted) + BeforeNodes(inlined)
      ensures AfterNodes(extracted + inlined) == AfterNodes(extracted) + AfterNodes(inlined)
    {
      NodesConcat(extracted, inlined);
      ExtractsThenInlines(extracted, inlined);
    }

    /** The first two passes of `findNonMatchingRelationships`: extract, then extract-and-move. */
    method FindExtractions() returns (rels: seq<Relationship>, fault: Option<Fault>)
      requires Static() && Valid()
      modifies this
      ensures Valid()
      ensures matches == old(matches) && beforeToAfter == old(beforeToAfter) && afterToBefore == old(afterToBefore)
      ensures unmatchedBefore == old(unmatchedBefore)
      ensures AfterNodes(rels) <= old(unmatchedAfter) && unmatchedAfter == old(unmatchedAfter) - AfterNodes(rels)
      ensures forall r | r in rels :: ExtractedBy(r, false, beforeToAfter) || ExtractedBy(r, true, beforeToAfter)
      ensures Kinded(rels, {Extract, ExtractAndMove}) && KindSorted(rels) && DistinctAfters(rels)
      ensures fault.None? ==> ExtractDone(unmatchedAfter, false) && ExtractDone(unmatchedAfter, true)
      ensures fault.Some? ==> ExtractFailed(old(unmatchedAfter), false, fault.value) || ExtractFailed(old(unmatchedAfter), true, fault.value)
    {
      var moved := [];
      ghost var ua0 := unmatchedAfter;
      rels, fault := FindExtractedRelationships(false);
      ghost var ua1 := unmatchedAfter;
      if fault.None? {
        moved, fault := FindExtractedRelationships(true);
        if fault.None? {
          ExtractDoneShrinks(ua1, unmatchedAfter, false);
        } else {
          ExtractFailedGrows(ua1, ua0, true, fault.value);
        }
      }
      ExtractionsJoin(rels, moved, ua0, ua1, unmatchedAfter);
      rels := rels + moved;
    }

    /** The extract sweep's relationships followed by those of the extract-and-move sweep. */
    lemma ExtractionsJoin(plain: seq<Relationship>, moved: seq<Relationship>, ua0: set<nat>, ua1: set<nat>, ua2: set<nat>)
      requires ExtractSound(plain, false, ua0, ua1) && ExtractSound(moved, true, ua1, ua2)
      ensures AfterNodes(plain + moved) <= ua0 && ua2 == ua0 - AfterNodes(plain + moved)
      ensures forall r | r in plain + moved :: ExtractedBy(r, false, beforeToAfter) || ExtractedBy(r, true, beforeToAfter)
      ensures Kinded(plain + moved, {Extract, ExtractAndMove}) && KindSorted(plain + moved) && DistinctAfters(plain + moved)
    {
      NodesConcat(plain, moved);
      assert AfterNodes(plain) !! ua1 && AfterNodes(moved) <= ua1;
      forall r | r in plain + moved ensures r.after.Some? {
        assert r in plain || r in moved;
      }
      DistinctConcat(plain, moved, ua1);
      forall r | r in plain + moved ensures ExtractedBy(r, false, beforeToAfter) || ExtractedBy(r, true, beforeToAfter) {
        assert r in plain || r in moved;
      }
      assert Kinded(plain, {Extract}) && Kinded(moved, {ExtractAndMove});
      ExtractsThenMoves(plain, moved);
    }

    /**
     * Nothing more for the three matching passes to do: no pair of pooled
     * roots, and no pair of pooled children of a match, has the same identity;
     * no pooled pair passes the similarity test under `idMap`, the map after
     * the identity pass, nor the children test under `simMap`, the map after
     * the similarity pass.
     */
    ghost predicate Exhausted(ub: set<nat>, ua: set<nat>, idMap: map<nat, nat>, simMap: map<nat, nat>)
      reads this`matches, engine
    {
      && Settled(before.roots, after.roots, ub, ua, before, after)
      && Cascaded(matches, 0, ub, ua, before, after)
      && forall x, y | x in ub && y in ua :: !SimilarUnder(Match(x, y), idMap) && !ChildrenUnder(Match(x, y), simMap)
    }

    /** What is exhausted for two pools stays so for smaller ones. */
    lemma ExhaustedShrinks(ub: set<nat>, ua: set<nat>, ub1: set<nat>, ua1: set<nat>, idMap: map<nat, nat>, simMap: map<nat, nat>)
      requires Exhausted(ub, ua, idMap, simMap) && ub1 <= ub && ua1 <= ua
      ensures Exhausted(ub1, ua1, idMap, simMap)
    {
      SettledShrinks(before.roots, after.roots, ub, ua, ub1, ua1, before, after);
      CascadedShrinks(matches, 0, ub, ua, ub1, ua1, before, after);
    }

    /**
     * The three matching passes of `findRelationships` on a freshly built
     * finder: identity from the roots down, similarity, children. Afterwards
     * every node is matched or still in its pool, and every match passed the
     * test of the pass that made it.
     */
    method FindMatchings() returns (ghost idMap: map<nat, nat>, ghost simMap: map<nat, nat>)
      requires Static() && Scored() && Valid() && Fresh()
      modifies this
      ensures Valid() && Partitioned()
      ensures forall k | 0 <= k < |matches| :: Justified(matches[k], beforeToAfter)
      ensures Extends(idMap, simMap) && Extends(simMap, beforeToAfter)
      ensures Exhausted(unmatchedBefore, unmatchedAfter, idMap, simMap)
    {
      ghost var ub0, ua0, f0, g0 := unmatchedBefore, unmatchedAfter, beforeToAfter, afterToBefore;
      FindMatchingsById(before.roots, after.roots);
      ghost var ms1, ub1, ua1, f1, g1 := matches, unmatchedBefore, unmatchedAfter, beforeToAfter, afterToBefore;
      CoveredKept(ub0, ub1, |before.nodes|, f0, f1);
      CoveredKept(ua0, ua1, |after.nodes|, g0, g1);
      assert forall k | 0 <= k < |ms1| :: Justified(ms1[k], f1);

      FindMatchingsBySimilarity();
      ghost var ms2, ub2, ua2, f2, g2 := matches, unmatchedBefore, unmatchedAfter, beforeToAfter, afterToBefore;
      CascadedJoin(ms1, ms2, 0, ub1, ua1, ub2, ua2, before, after);
      CoveredKept(ub1, ub2, |before.nodes|, f1, f2);
      CoveredKept(ua1, ua2, |after.nodes|, g1, g2);
      JustifiedKept(ms1, f1, f2);
      forall k | 0 <= k < |ms2| ensures Justified(ms2[k], f2) {
        if k < |ms1| {
          assert ms2[k] == ms1[k];
        }
      }

      FindMatchingsByChildren();
      CoveredKept(ub2, unmatchedBefore, |before.nodes|, f2, beforeToAfter);
      CoveredKept(ua2, unmatchedAfter, |after.nodes|, g2, afterToBefore);
      JustifiedKept(ms2, f2, beforeToAfter);
      forall k | 0 <= k < |matches| ensures Justified(matches[k], beforeToAfter) {
        if k < |ms2| {
          assert matches[k] == ms2[k];
        }
      }
      CascadedJoin(ms2, matches, 0, ub2, ua2, unmatchedBefore, unmatchedAfter, before, after);
      SettledShrinks(before.roots, after.roots, ub1, ua1, unmatchedBefore, unmatchedAfter, before, after);
      idMap, simMap := f1, f2;
    }

    /**
     * What the end of `findRelationships` leaves: the list reports exactly
     * the nodes left in the pools as removed and added; no extract or inline
     * relationship shares a node with them; and no leftover after-node passes
     * the extract or extract-and-move test for any match, nor any leftover
     * before-node the inline test.
     */
    ghost predicate Leftovers(rels: seq<Relationship>)
      reads this, engine
    {
      && RemovedNodes(rels) == unmatchedBefore && AddedNodes(rels) == unmatchedAfter
      && (forall r | r in rels && r.kind in {Some(Extract), Some(ExtractAndMove), Some(Inline)} ::
            && r.before.Some? && r.after.Some?
            && r.before.value !in RemovedNodes(rels) && r.after.value !in AddedNodes(rels))
      && (forall k, y | 0 <= k < |matches| && y in AddedNodes(rels) ::
            !Extractable(matches[k].before, y, false, beforeToAfter) && !Extractable(matches[k].before, y, true, beforeToAfter))
      && (forall x, k | x in RemovedNodes(rels) && 0 <= k < |matches| :: !Inlines(x, matches[k]))
    }

    /** The non-matching relationships, then the removed and the added ones, leave what `Leftovers` describes. */
    lemma LeftoversReported(nonMatching: seq<Relationship>, removed: seq<Relationship>, added: seq<Relationship>)
      requires Kinded(nonMatching, {Extract, ExtractAndMove, Inline})
      requires BeforeNodes(removed) == unmatchedBefore && forall r | r in removed :: r.before.Some? && r.after.None? && r.kind == Some(Removed)
      requires AfterNodes(added) == unmatchedAfter && forall r | r in added :: r.before.None? && r.after.Some? && r.kind == Some(Added)
      requires unmatchedBefore !! beforeToAfter.Keys && unmatchedAfter !! afterToBefore.Keys
      requires BeforeNodes(nonMatching) !! unmatchedBefore && AfterNodes(nonMatching) !! unmatchedAfter
      requires forall k, y | 0 <= k < |matches| && y in unmatchedAfter ::
        !Extractable(matches[k].before, y, false, beforeToAfter) && !Extractable(matches[k].before, y, true, beforeToAfter)
      requires forall x, k | x in unmatchedBefore && 0 <= k < |matches| :: !Inlines(x, matches[k])
      ensures Leftovers(nonMatching + removed + added)
    {
      LeftoversUnmatched(nonMatching, removed, added, unmatchedBefore, unmatchedAfter, beforeToAfter, afterToBefore);
    }

    /** The resolved matches in front of the rest change none of it. */
    lemma LeftoversAfterResolved(resolved: seq<Relationship>, rest: seq<Relationship>)
      requires forall r | r in resolved :: r.kind.None? || r.kind.value in {Same, ChangeSignature, Move, Rename, MoveAndRename}
      requires Leftovers(rest)
      ensures Leftovers(resolved + rest)
    {
      ResolvedThenRest(resolved, rest);
    }

    /**
     * The rest of `findRelationships` once the matches are resolved: the
     * non-matching relationships, then a removed relationship per before-node
     * and an added relationship per after-node still in its pool. Every node
     * in either pool on entry is reported.
     */
    method ReportUnmatched() returns (rels: seq<Relationship>, fault: Option<Fault>, ghost nonMatching: seq<Relationship>)
      requires Static() && Valid()
      modifies this
      ensures Valid()
      ensures matches == old(matches) && beforeToAfter == old(beforeToAfter) && afterToBefore == old(afterToBefore)
      ensures NonMatchingSound(nonMatching)
      ensures fault.None? ==> RestReported(rels, nonMatching, old(unmatchedBefore), old(unmatchedAfter))
      ensures fault.Some? ==> SweepsFailed(old(unmatchedBefore), old(unmatchedAfter), fault.value)
      ensures SweepsClean(old(unmatchedBefore), old(unmatchedAfter)) ==> fault.None?
      ensures forall r | r in rels :: r.HasSide()
      ensures unmatchedBefore <= old(unmatchedBefore) && unmatchedAfter <= old(unmatchedAfter)
    {
      ghost var ub0, ua0 := unmatchedBefore, unmatchedAfter;
      var found;
      found, fault := FindNonMatchingRelationships();
      nonMatching := found;
      if fault.Some? {
        FailedNotClean(ub0, ua0, fault.value);
        rels := found;
        return;
      }
      var removed := ReportRemoved(beforeOrder, unmatchedBefore);
      var added := ReportAdded(afterOrder, unmatchedAfter);
      rels := found + removed + added;
      NodesConcat(nonMatching, removed);
      NodesConcat(nonMatching + removed, added);
      LeftoversUnmatched(nonMatching, removed, added, unmatchedBefore, unmatchedAfter, beforeToAfter, afterToBefore);
      LeftoversReported(nonMatching, removed, added);
    }

    /**
     * What a successful `ReportUnmatched` returns, from the pools `ub` and
     * `ua` it started with: `nonMatching`, holding every inlining of a node
     * of `ub`, then a removed relationship per before-node and an added
     * relationship per after-node left in the pools, in traversal order. It
     * mentions every node of `ub` and `ua`, every relationship has a side, no
     * removed or added node is matched, and what `Leftovers` states holds.
     */
    ghost predicate RestReported(rels: seq<Relationship>, nonMatching: seq<Relationship>, ub: set<nat>, ua: set<nat>)
      reads this, engine
    {
      && rels == nonMatching + RemovedOf(InPool(beforeOrder, unmatchedBefore)) + AddedOf(InPool(afterOrder, unmatchedAfter))
      && NonMatchingSound(nonMatching)
      && (forall x, k | x in ub && 0 <= k < |matches| ::
            Inlines(x, matches[k]) ==> Relationship(Some(x), Some(matches[k].after), Some(Inline)) in nonMatching)
      && ub <= BeforeNodes(rels) && ua <= AfterNodes(rels)
      && (forall r | r in rels :: r.HasSide())
      && (forall r | r in rels && r.kind == Some(Removed) :: r.before.Some? && r.before.value !in beforeToAfter)
      && (forall r | r in rels && r.kind == Some(Added) :: r.after.Some? && r.after.value !in afterToBefore)
      && Leftovers(rels)
    }

    /**
     * What a successful `findRelationships` returns, in the state it ends in:
     * one relationship per match, in match order, of the match's (possibly
     * undefined) kind; then `nonMatching`, the sound extract, extract-and-move
     * and inline relationships, holding every inlining of an unmatched node;
     * then a removed relationship per before-node and an added relationship
     * per after-node left in the pools, in traversal order. Every node of
     * either tree is mentioned, every relationship has a side, and what
     * `Leftovers` states holds.
     */
    ghost predicate Reported(rels: seq<Relationship>, nonMatching: seq<Relationship>)
      reads this, engine
    {
      && (forall x: nat | x < |before.nodes| :: x in BeforeNodes(rels))
      && (forall y: nat | y < |after.nodes| :: y in AfterNodes(rels))
      && (forall rel | rel in rels :: rel.HasSide())
      && |matches| <= |rels|
      && (forall k | 0 <= k < |matches| ::
            rels[k] == Relationship(Some(matches[k].before), Some(matches[k].after), KindOf(matches[k])))
      && rels[|matches|..] == nonMatching + RemovedOf(InPool(beforeOrder, unmatchedBefore)) + AddedOf(InPool(afterOrder, unmatchedAfter))
      && NonMatchingSound(nonMatching)
      && (forall x, k | x in Unmatched(|before.nodes|, beforeToAfter) && 0 <= k < |matches| ::
            Inlines(x, matches[k]) ==> Relationship(Some(x), Some(matches[k].after), Some(Inline)) in nonMatching)
      && (forall rel | rel in rels && rel.kind == Some(Removed) :: rel.before.Some? && rel.before.value !in beforeToAfter)
      && (forall rel | rel in rels && rel.kind == Some(Added) :: rel.after.Some? && rel.after.value !in afterToBefore)
      && Leftovers(rels)
    }

    /**
     * `findRelationships` on a freshly built finder: the matching passes, one
     * relationship per match, the extract and inline relationships, then a
     * removed relationship per before-node and an added relationship per
     * after-node still unmatched. Every node of either tree appears in the
     * result, the result starts with the matches in match order, and every
     * match passed the test of the pass that made it.
     */
    method FindRelationships()
      returns (r: Result<seq<Relationship>, Fault>, ghost idMap: map<nat, nat>, ghost simMap: map<nat, nat>,
               ghost nonMatching: seq<Relationship>)
      requires Static() && Scored() && Valid() && Fresh()
      modifies this
      ensures Valid()
      ensures forall k | 0 <= k < |matches| :: Justified(matches[k], beforeToAfter)
      ensures Extends(idMap, simMap) && Extends(simMap, beforeToAfter)
      ensures r.Success? ==> Reported(r.value, nonMatching) && Exhausted(RemovedNodes(r.value), AddedNodes(r.value), idMap, simMap)
      ensures r.Failure? ==>
        SweepsFailed(Unmatched(|before.nodes|, beforeToAfter), Unmatched(|after.nodes|, afterToBefore), r.error)
      ensures SweepsClean(Unmatched(|before.nodes|, beforeToAfter), Unmatched(|after.nodes|, afterToBefore)) ==> r.Success?
    {
      idMap, simMap := FindMatchings();
      r, nonMatching := ReportAll(idMap, simMap);
    }

    /**
     * `findRelationships` once the matching passes are done: the resolved
     * matches followed by the rest of the relationships. The matches and the
     * maps stay as they are.
     */
    method ReportAll(ghost idMap: map<nat, nat>, ghost simMap: map<nat, nat>)
      returns (r: Result<seq<Relationship>, Fault>, ghost nonMatching: seq<Relationship>)
      requires Static() && Scored() && Valid() && Partitioned()
      requires Exhausted(unmatchedBefore, unmatchedAfter, idMap, simMap)
      modifies this
      ensures Valid()
      ensures matches == old(matches) && beforeToAfter == old(beforeToAfter) && afterToBefore == old(afterToBefore)
      ensures r.Success? ==> Reported(r.value, nonMatching) && Exhausted(RemovedNodes(r.value), AddedNodes(r.value), idMap, simMap)
      ensures r.Failure? ==>
        SweepsFailed(Unmatched(|before.nodes|, beforeToAfter), Unmatched(|after.nodes|, afterToBefore), r.error)
      ensures SweepsClean(Unmatched(|before.nodes|, beforeToAfter), Unmatched(|after.nodes|, afterToBefore)) ==> r.Success?
    {
      var resolved := ResolveMatching();
      ghost var ub, ua := unmatchedBefore, unmatchedAfter;
      PoolIsUnmatched(ub, |before.nodes|, beforeToAfter);
      PoolIsUnmatched(ua, |after.nodes|, afterToBefore);
      var rest, fault;
      rest, fault, nonMatching := ReportUnmatched();
      if fault.Some? {
        return Failure(fault.value), nonMatching;
      }
      ReportedJoin(resolved, rest, nonMatching, ub, ua, idMap, simMap);
      r := Success(resolved + rest);
    }

    /** The resolved matches in front of what `ReportUnmatched` returns make what `Reported` describes. */
    lemma ReportedJoin(resolved: seq<Relationship>, rest: seq<Relationship>, nonMatching: seq<Relationship>, ub: set<nat>, ua: set<nat>,
                       idMap: map<nat, nat>, simMap: map<nat, nat>)
      requires Valid() && Covered(ub, |before.nodes|, beforeToAfter) && Covered(ua, |after.nodes|, afterToBefore)
      requires ub == Unmatched(|before.nodes|, beforeToAfter)
      requires |resolved| == |matches|
      requires forall k | 0 <= k < |matches| ::
                 resolved[k] == Relationship(Some(matches[k].before), Some(matches[k].after), KindOf(matches[k]))
      requires forall r | r in resolved :: r.kind.None? || r.kind.value in {Same, ChangeSignature, Move, Rename, MoveAndRename}
      requires RestReported(rest, nonMatching, ub, ua)
      requires Exhausted(ub, ua, idMap, simMap)
      ensures Reported(resolved + rest, nonMatching)
      ensures Exhausted(RemovedNodes(resolved + rest), AddedNodes(resolved + rest), idMap, simMap)
    {
      var rels := resolved + rest;
      assert rels[|matches|..] == rest;
      ReportCovers(resolved, rest, ub, ua);
      ReportSides(resolved, rest, beforeToAfter, afterToBefore);
      assert forall k | 0 <= k < |matches| :: rels[k] == resolved[k];
      LeftoversAfterResolved(resolved, rest);
      ExhaustedShrinks(ub, ua, RemovedNodes(rels), AddedNodes(rels), idMap, simMap);
    }

    /** The relationships of the matches and the leftover ones together mention every node of both trees. */
    lemma ReportCovers(resolved: seq<Relationship>, rest: seq<Relationship>, ub: set<nat>, ua: set<nat>)
      requires Valid() && Covered(ub, |before.nodes|, beforeToAfter) && Covered(ua, |after.nodes|, afterToBefore)
      requires |resolved| == |matches|
      requires forall k | 0 <= k < |matches| ::
                 resolved[k].before == Some(matches[k].before) && resolved[k].after == Some(matches[k].after)
      requires ub <= BeforeNodes(rest) && ua <= AfterNodes(rest)
      ensures forall x: nat | x < |before.nodes| :: x in BeforeNodes(resolved + rest)
      ensures forall y: nat | y < |after.nodes| :: y in AfterNodes(resolved + rest)
    {
      var rels := resolved + rest;
      ResolvedCovers(matches, resolved);
      NodesConcat(resolved, rest);
      AllReported(|before.nodes|, ub, beforeToAfter, BeforeNodes(resolved), BeforeNodes(rest), BeforeNodes(rels));
      AllReported(|after.nodes|, ua, afterToBefore, AfterNodes(resolved), AfterNodes(rest), AfterNodes(rels));
    }
  }

  /**
   * The static `findRelationships`: builds a finder over the two trees and
   * their files and runs it.
   */
  method FindRelationships(before: Forest, after: Forest, beforeFiles: Files, afterFiles: Files, weigh: (nat, nat) -> real)
    returns (r: Result<seq<Relationship>, Fault>, ghost finder: RelationshipFinder, ghost nonMatching: seq<Relationship>)
    requires WellFormed(before) && WellFormed(after)
    requires Scannable(before, beforeFiles) && Scannable(after, afterFiles)
    requires forall n: nat, c: nat | 1 <= c <= n :: weigh(n, c) >= 0.0
    ensures finder.before == before && finder.after == after
    ensures finder.beforeOrder == Traversal(before) && finder.afterOrder == Traversal(after)
    ensures finder.engine.beforeFiles == beforeFiles && finder.engine.afterFiles == afterFiles && finder.engine.weigh == weigh
    ensures r.Success? ==> forall x: nat | x < |before.nodes| :: x in BeforeNodes(r.value)
    ensures r.Success? ==> forall y: nat | y < |after.nodes| :: y in AfterNodes(r.value)
    ensures r.Success? ==> forall rel | rel in r.value :: rel.HasSide()
    ensures r.Success? ==> finder.Reported(r.value, nonMatching)
    ensures r.Failure? ==>
      finder.SweepsFailed(Unmatched(|before.nodes|, finder.beforeToAfter), Unmatched(|after.nodes|, finder.afterToBefore), r.error)
    ensures finder.SweepsClean(Unmatched(|before.nodes|, finder.beforeToAfter), Unmatched(|after.nodes|, finder.afterToBefore)) ==>
      r.Success?
  {
    var built := new RelationshipFinder(before, after, beforeFiles, afterFiles, weigh);
    finder := built;
    ghost var idMap, simMap;
    r, idMap, simMap, nonMatching := built.FindRelationships();
  }
}
