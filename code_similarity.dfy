/**
 * The similarity engine of refDiffTS
 * (refDiffTS/packages/refdiffts-core/src/Diff/CodeSimiliarity.ts).
 *
 * For every node of both trees it keeps three token multisets (full span,
 * body, name) and, per snapshot pair, two IDF tables (code tokens and name
 * tokens). A node is named by its side and its arena index. The IDF formula
 * `log(1 + n / count)` is a caller-supplied function `weigh(n, count)`,
 * non-negative whenever 1 <= count <= n.
 */
module CodeSimilarity {
  import opened Wrappers
  import opened Multisets
  import opened CstNode
  import opened Cst
  import opened NameSplit
  import opened TokenScan
  import opened WeightedJaccard
  import opened Sequences

  datatype Side = BeforeSide | AfterSide

  /** A node of one of the two trees. */
  datatype NodeRef = NodeRef(side: Side, index: nat)

  /** `s` repeated `k` times. */
  function Repeat(s: seq<string>, k: nat): seq<string>
  {
    if k == 0 then [] else Repeat(s, k - 1) + s
  }

  /**
   * A node's name multiset: the ancestor loop of `addNodeName` runs once for
   * the node and once per ancestor, and every round adds the segments of the
   * node's own name.
   */
  function NameTokenCounts(tree: Forest, x: nat): Counts<string>
  {
    NameMultiset(if x < |tree.nodes| then tree.nodes[x].localName else "", Depth(tree, x) + 1)
  }

  /** The segments of `name`, added `levels` times. */
  function NameMultiset(name: string, levels: nat): Counts<string>
  {
    Tally(Repeat(Split(name), levels))
  }

  lemma NameTokenCountsOf(tree: Forest, x: nat, levels: nat)
    requires x < |tree.nodes| && levels == Depth(tree, x) + 1
    ensures NameTokenCounts(tree, x) == NameMultiset(tree.nodes[x].localName, levels)
  {
  }

  lemma {:induction false} RepeatCounts(s: seq<string>, k: nat, w: string)
    ensures multiset(Repeat(s, k))[w] == k * multiset(s)[w]
  {
    if k > 0 {
      var m := multiset(s)[w];
      RepeatCounts(s, k - 1, w);
      assert multiset(Repeat(s, k)) == multiset(Repeat(s, k - 1)) + multiset(s);
      assert multiset(Repeat(s, k))[w] == (k - 1) * m + m;
      assert (k - 1) * m + m == k * m;
    }
  }

  /**
   * A segment counts once per level: `levels` times its count in the split
   * name. For a node, `levels` is its depth plus one.
   */
  lemma {:induction false} NameMultisetCounts(name: string, levels: nat, w: string)
    ensures Count(NameMultiset(name, levels), w) == levels * multiset(Split(name))[w]
  {
    TallyIsMultiset(Repeat(Split(name), levels), w);
    RepeatCounts(Split(name), levels, w);
  }

  /** Two nodes with the same local name at the same depth have the same name multiset. */
  lemma {:induction false} NameCountsOfSameName(t1: Forest, x1: nat, t2: Forest, x2: nat)
    requires x1 < |t1.nodes| && x2 < |t2.nodes|
    requires t1.nodes[x1].localName == t2.nodes[x2].localName && Depth(t1, x1) == Depth(t2, x2)
    ensures NameTokenCounts(t1, x1) == NameTokenCounts(t2, x2)
  {
  }

  /** One more document: every key of it counts once more. */
  function AddKeys(m: Counts<string>, keys: set<string>): (r: Counts<string>)
    ensures r.Keys == m.Keys + keys
    ensures forall k :: Count(r, k) == Count(m, k) + (if k in keys then 1 else 0)
  {
    map k | k in m.Keys + keys :: Count(m, k) + (if k in keys then 1 else 0)
  }

  lemma {:induction false} AddKeysStep(m: Counts<string>, keys: set<string>, key: string)
    requires key !in keys
    ensures AddKeys(m, keys + {key}) == AddOne(AddKeys(m, keys), key)
  {
    var l, r := AddKeys(m, keys + {key}), AddOne(AddKeys(m, keys), key);
    assert l.Keys == r.Keys;
    forall k | k in l.Keys ensures l[k] == r[k] {
      assert l[k] == Count(l, k) && r[k] == Count(r, k);
    }
  }

  /** The tree multiset of `addTree`: for each token, the number of node multisets holding it. */
  function DocFreq(docs: seq<Counts<string>>): Counts<string>
  {
    if docs == [] then map[] else AddKeys(DocFreq(docs[..|docs| - 1]), docs[|docs| - 1].Keys)
  }

  /**
   * Each node adds at most one to a token's count, so a token's count lies
   * between 1 and the number of nodes, and it is counted exactly when some
   * node holds it.
   */
  lemma {:induction false} DocFreqBounds(docs: seq<Counts<string>>, t: string)
    ensures Count(DocFreq(docs), t) <= |docs|
    ensures t in DocFreq(docs) <==> exists i | 0 <= i < |docs| :: t in docs[i]
    ensures t in DocFreq(docs) ==> 1 <= DocFreq(docs)[t]
  {
    if docs != [] {
      var init := docs[..|docs| - 1];
      DocFreqBounds(init, t);
      if t in DocFreq(init) {
        var i :| 0 <= i < |init| && t in init[i];
        assert t in docs[i];
      }
      if exists i | 0 <= i < |docs| :: t in docs[i] {
        var i :| 0 <= i < |docs| && t in docs[i];
        if i < |init| {
          assert t in init[i];
        }
      }
    }
  }

  /** The multisets `counts` gives the nodes of `order`, in that order. */
  function Along(order: seq<nat>, counts: nat -> Counts<string>): seq<Counts<string>>
  {
    seq(|order|, k requires 0 <= k < |order| => counts(order[k]))
  }

  /** The k-th document is the multiset of the k-th node of the walk. */
  lemma AlongMembers(order: seq<nat>, counts: nat -> Counts<string>)
    ensures |Along(order, counts)| == |order|
    ensures forall k | 0 <= k < |order| :: Along(order, counts)[k] == counts(order[k])
  {
  }

  /** The multisets `counts` gives the nodes of `order` that `keep` selects, keyed by side and index. */
  function Index(side: Side, order: seq<nat>, keep: nat -> bool, counts: nat -> Counts<string>): map<NodeRef, Counts<string>>
  {
    map x | x in order && keep(x) :: NodeRef(side, x) := counts(x)
  }

  /** Exactly the selected nodes of the walk are keys, each mapped to its multiset. */
  lemma IndexMembers(side: Side, order: seq<nat>, keep: nat -> bool, counts: nat -> Counts<string>)
    ensures forall x | x in order && keep(x) :: NodeRef(side, x) in Index(side, order, keep, counts)
                                               && Index(side, order, keep, counts)[NodeRef(side, x)] == counts(x)
    ensures forall n | n in Index(side, order, keep, counts) :: n.side == side && n.index in order && keep(n.index)
  {
  }

  /** Which nodes have a stored multiset: all of them, or only those with a body. */
  function AnyNode(): nat -> bool
  {
    _ => true
  }

  function WithBody(tree: Forest): nat -> bool
  {
    (x: nat) => x < |tree.nodes| && tree.nodes[x].location.HasBody()
  }

  /** The three multisets of a node, as functions of its index. */
  function SpanCounts(tree: Forest, files: Files): nat -> Counts<string>
  {
    x => NodeTokenCounts(tree, files, x)
  }

  function BodyCounts(tree: Forest, files: Files): nat -> Counts<string>
  {
    x => BodyTokenCounts(tree, files, x)
  }

  function NameCounts(tree: Forest): nat -> Counts<string>
  {
    x => NameTokenCounts(tree, x)
  }

  /** `m1` holds no token more often than `m2`. */
  ghost predicate Contained(m1: Counts<string>, m2: Counts<string>)
  {
    forall t :: Count(m1, t) <= Count(m2, t)
  }

  /** `nodeTokens.forEach((_, key) => treeTokens.add(key))`: one more document holding `keys`. */
  method AddEachKey(treeTokens: Multiset<string>, keys: set<string>)
    modifies treeTokens
    ensures treeTokens.values == AddKeys(old(treeTokens.values), keys)
  {
    ghost var start := treeTokens.values;
    var rest := keys;
    ghost var added: set<string> := {};
    while rest != {}
      invariant added + rest == keys && added !! rest
      invariant treeTokens.values == AddKeys(start, added)
      decreases rest
    {
      var key :| key in rest;
      AddKeysStep(start, added, key);
      treeTokens.Add(key);
      rest := rest - {key};
      added := added + {key};
    }
  }

  /** Adds the segments one by one to a multiset that holds the tally of `before`. */
  method AddSegments(m: Multiset<string>, segments: seq<string>, ghost before: seq<string>)
    requires m.values == Tally(before)
    modifies m
    ensures m.values == Tally(before + segments)
  {
    var j := 0;
    ghost var added := before;
    while j < |segments|
      invariant 0 <= j <= |segments|
      invariant added == before + segments[..j]
      invariant m.values == Tally(added)
    {
      TallySnoc(added, segments[j]);
      m.Add(segments[j]);
      TakeOneMore(before, segments, j);
      added := added + [segments[j]];
      j := j + 1;
    }
    assert segments[..j] == segments;
  }

  /**
   * The token scan of `addNode` over the tokens of the node's file: tokens
   * starting before the node are skipped, the first token ending after it
   * stops the scan, every other token's text goes into the node multiset and,
   * for a node with a body, into the body multiset when it lies inside the body.
   */
  method ScanTokens(files: Files, file: string, tokens: seq<TokenPosition>, location: Location,
                    nodeTokens: Multiset<string>, nodeBodyTokens: Multiset<string>)
    requires SpanTokens(tokens, location) != [] ==> file in files
    requires nodeTokens != nodeBodyTokens && nodeTokens.values == map[] && nodeBodyTokens.values == map[]
    modifies nodeTokens, nodeBodyTokens
    ensures nodeTokens.values == Tally(Words(Content(files, file), SpanTokens(tokens, location)))
    ensures location.HasBody() ==> nodeBodyTokens.values == Tally(Words(Content(files, file), BodyTokens(tokens, location)))
  {
    ghost var content := Content(files, file);
    var hasBody := location.bodyBegin != location.begin;
    ghost var kept: seq<TokenPosition> := [];
    var i := 0;
    assert tokens[i..] == tokens;
    while i < |tokens|
      invariant 0 <= i <= |tokens|
      invariant SpanTokens(tokens, location) == kept + SpanTokens(tokens[i..], location)
      invariant nodeTokens.values == Tally(Words(content, kept))
      invariant hasBody ==> nodeBodyTokens.values == Tally(Words(content, Within(kept, location.bodyBegin, location.bodyEnd)))
    {
      var token := tokens[i];
      SpanTokensStep(tokens, i, location, kept);
      if token.start < location.begin {
        i := i + 1;
        continue;
      }
      if token.end > location.end {
        break;
      }
      assert SpanTokens(tokens, location) != [];
      var tokenStr := AsciiSlice(files[file], token.start, token.end);
      ScanKeepStep(content, kept, token, location.bodyBegin, location.bodyEnd);
      nodeTokens.Add(tokenStr);
      if hasBody && token.start >= location.bodyBegin && token.end <= location.bodyEnd {
        nodeBodyTokens.Add(tokenStr);
      }
      kept := kept + [token];
      i := i + 1;
    }
    assert kept == SpanTokens(tokens, location);
  }

  /**
   * The ancestor walk of `addNodeName`: once for the node and once per
   * ancestor, the segments of the node's own name go into a fresh multiset.
   */
  method CollectNameTokens(tree: Forest, node: nat) returns (nodeTokens: Multiset<string>)
    requires ParentsPrecede(tree) && node < |tree.nodes|
    ensures fresh(nodeTokens) && nodeTokens.values == NameTokenCounts(tree, node)
  {
    nodeTokens := new Multiset<string>();
    var name := tree.nodes[node].localName;
    var current: Option<nat> := Some(node);
    ghost var rounds: nat := 0;
    while current.Some?
      invariant current.Some? ==> current.value < |tree.nodes| && Depth(tree, current.value) + rounds == Depth(tree, node)
      invariant current.None? ==> rounds == Depth(tree, node) + 1
      invariant nodeTokens.values == NameMultiset(name, rounds)
      modifies nodeTokens
      decreases if current.Some? then current.value + 1 else 0
    {
      var segments := SplitName(name);
      AddSegments(nodeTokens, segments, Repeat(segments, rounds));
      DepthStep(tree, current.value);
      current := tree.nodes[current.value].parent;
      rounds := rounds + 1;
    }
    NameTokenCountsOf(tree, node, rounds);
  }

  /** A kept token adds its text to the node multiset and, inside the body span, to the body multiset. */
  lemma ScanKeepStep(content: seq<byte>, kept: seq<TokenPosition>, token: TokenPosition, lo: int, hi: int)
    ensures Tally(Words(content, kept + [token])) == AddOne(Tally(Words(content, kept)), AsciiSlice(content, token.start, token.end))
    ensures Tally(Words(content, Within(kept + [token], lo, hi))) ==
      if lo <= token.start && token.end <= hi then AddOne(Tally(Words(content, Within(kept, lo, hi))), AsciiSlice(content, token.start, token.end))
      else Tally(Words(content, Within(kept, lo, hi)))
  {
    var text := AsciiSlice(content, token.start, token.end);
    WordsSnoc(content, kept, token);
    TallySnoc(Words(content, kept), text);
    var inBody := Within(kept, lo, hi);
    WithinSnoc(kept, token, lo, hi);
    if lo <= token.start && token.end <= hi {
      WordsSnoc(content, inBody, token);
      TallySnoc(Words(content, inBody), text);
    } else {
      assert Within(kept + [token], lo, hi) == inBody;
    }
  }

  lemma EmptyUnion(m: map<NodeRef, Counts<string>>)
    ensures map[] + m == m
  {
  }

  /** One more node in the walk: its multiset is stored, over what `base` held, when it is selected. */
  lemma IndexStep(side: Side, base: map<NodeRef, Counts<string>>, order: seq<nat>, keep: nat -> bool,
                  counts: nat -> Counts<string>, x: nat)
    ensures base + Index(side, order + [x], keep, counts) ==
      if keep(x) then (base + Index(side, order, keep, counts))[NodeRef(side, x) := counts(x)]
      else base + Index(side, order, keep, counts)
  {
    IndexSnoc(side, order, keep, counts, x);
    if keep(x) {
      UnionUpdate(base, Index(side, order, keep, counts), NodeRef(side, x), counts(x));
    }
  }

  lemma IndexSnoc(side: Side, order: seq<nat>, keep: nat -> bool, counts: nat -> Counts<string>, x: nat)
    ensures Index(side, order + [x], keep, counts) ==
      if keep(x) then Index(side, order, keep, counts)[NodeRef(side, x) := counts(x)] else Index(side, order, keep, counts)
  {
  }

  /** Updating a union at a key of its right operand updates that operand. */
  lemma UnionUpdate(a: map<NodeRef, Counts<string>>, b: map<NodeRef, Counts<string>>, k: NodeRef, v: Counts<string>)
    ensures (a + b)[k := v] == a + b[k := v]
  {
  }

  /** One more node in the walk: one more document for the tree multiset. */
  lemma AlongStep(order: seq<nat>, counts: nat -> Counts<string>, x: nat)
    ensures DocFreq(Along(order + [x], counts)) == AddKeys(DocFreq(Along(order, counts)), counts(x).Keys)
  {
    var docs := Along(order + [x], counts);
    assert docs[..|docs| - 1] == Along(order, counts);
  }

  /** Both trees' document frequencies lie between 1 and the larger tree's node count. */
  lemma {:induction false} MaxDocFreqBounded(d1: seq<Counts<string>>, d2: seq<Counts<string>>, n: nat)
    requires |d1| <= n && |d2| <= n
    ensures forall t | t in Max(DocFreq(d1), DocFreq(d2)) :: 1 <= Max(DocFreq(d1), DocFreq(d2))[t] <= n
  {
    var m := Max(DocFreq(d1), DocFreq(d2));
    forall t | t in m ensures 1 <= m[t] <= n {
      DocFreqBounds(d1, t);
      DocFreqBounds(d2, t);
      assert m[t] == Count(m, t);
    }
  }

  /** `idf` holds one weight per token of `df`, computed from a count between 1 and `elementsCount`. */
  ghost predicate IdfOf(idf: IdfTable, df: Counts<string>, elementsCount: nat, weigh: (nat, nat) -> real)
  {
    && idf.Valid() && idf.weight.Keys == df.Keys
    && forall t | t in df :: 1 <= df[t] <= elementsCount && idf.weight[t] == weigh(elementsCount, df[t])
  }

  /**
   * The IDF map of the constructor, one entry per token of the combined tree
   * multiset, weighted `weigh(elementsCount, count)`.
   */
  method BuildIdf(treeTokens: Counts<string>, elementsCount: nat, weigh: (nat, nat) -> real,
                  ghost docsBefore: seq<Counts<string>>, ghost docsAfter: seq<Counts<string>>) returns (idf: IdfTable)
    requires treeTokens == Max(DocFreq(docsBefore), DocFreq(docsAfter))
    requires |docsBefore| <= elementsCount && |docsAfter| <= elementsCount
    requires forall n: nat, c: nat | 1 <= c <= n :: weigh(n, c) >= 0.0
    ensures IdfOf(idf, treeTokens, elementsCount, weigh)
  {
    MaxDocFreqBounded(docsBefore, docsAfter, elementsCount);
    idf := WeighTokens(treeTokens, elementsCount, weigh);
  }

  /** One weight per token of `df`, visiting the tokens in some order. */
  method WeighTokens(df: Counts<string>, elementsCount: nat, weigh: (nat, nat) -> real) returns (idf: IdfTable)
    requires forall t | t in df :: 1 <= df[t] <= elementsCount
    requires forall n: nat, c: nat | 1 <= c <= n :: weigh(n, c) >= 0.0
    ensures IdfOf(idf, df, elementsCount, weigh)
  {
    var order: seq<string> := [];
    var weight: map<string, real> := map[];
    var rest := df.Keys;
    while rest != {}
      invariant rest <= df.Keys
      invariant NoDup(order)
      invariant forall t :: t in order <==> t in weight
      invariant weight.Keys == df.Keys - rest
      invariant forall t | t in weight :: weight[t] == weigh(elementsCount, df[t]) && weight[t] >= 0.0
      decreases rest
    {
      var token :| token in rest;
      NoDupConcat(order, [token]);
      order := order + [token];
      weight := weight[token := weigh(elementsCount, df[token])];
      rest := rest - {token};
    }
    idf := IdfTable(order, weight);
  }

  /** `map.get(node)`: the stored multiset, or `undefined`. */
  function Lookup(m: map<NodeRef, Counts<string>>, r: NodeRef): Option<Counts<string>>
  {
    if r in m then Some(m[r]) else None
  }

  /**
   * `m1.sub(m2)` where either may be undefined: calling it on an undefined
   * multiset throws, and so does reading a count of an undefined argument,
   * which happens only when `m1` has a key.
   */
  function SubOf(m1: Option<Counts<string>>, m2: Option<Counts<string>>): (r: Result<Counts<string>, Fault>)
    ensures r.Success? <==> m1.Some? && (m2.None? ==> m1.value == map[])
    ensures r.Success? ==> r.value.Keys == m1.value.Keys && forall t :: Count(r.value, t) <= Count(m1.value, t)
  {
    if m1.None? || (m2.None? && m1.value != map[]) then Failure(UndefinedMultiset)
    else Success(Sub(m1.value, OrEmpty(m2)))
  }

  /** The stop-list of `extractedSim`: `return` and both nodes' parameter names. */
  function Omitted(beforeParameters: seq<string>, afterParameters: seq<string>): (r: set<string>)
    ensures forall w :: w in r <==> w == "return" || w in beforeParameters || w in afterParameters
  {
    {"return"} + (set p | p in beforeParameters) + (set p | p in afterParameters)
  }

  /**
   * A node of the walked trees, looked up in the union of the two sides'
   * tables: it is found in its own side's table.
   */
  lemma IndexedAt(s1: Side, t1: Forest, f1: Files, s2: Side, t2: Forest, f2: Files, r: NodeRef)
    requires s1 == BeforeSide && s2 == AfterSide
    requires r.side == s1 ==> r.index in Traversal(t1) && r.index < |t1.nodes|
    requires r.side == s2 ==> r.index in Traversal(t2) && r.index < |t2.nodes|
    ensures var t, f := if r.side == s1 then t1 else t2, if r.side == s1 then f1 else f2;
      && Lookup(Index(s1, Traversal(t1), AnyNode(), SpanCounts(t1, f1)) + Index(s2, Traversal(t2), AnyNode(), SpanCounts(t2, f2)), r)
         == Some(NodeTokenCounts(t, f, r.index))
      && Lookup(Index(s1, Traversal(t1), AnyNode(), NameCounts(t1)) + Index(s2, Traversal(t2), AnyNode(), NameCounts(t2)), r)
         == Some(NameTokenCounts(t, r.index))
      && Lookup(Index(s1, Traversal(t1), WithBody(t1), BodyCounts(t1, f1)) + Index(s2, Traversal(t2), WithBody(t2), BodyCounts(t2, f2)), r)
         == if t.nodes[r.index].location.HasBody() then Some(BodyTokenCounts(t, f, r.index)) else None
  {
    IndexMembers(s1, Traversal(t1), AnyNode(), SpanCounts(t1, f1));
    IndexMembers(s2, Traversal(t2), AnyNode(), SpanCounts(t2, f2));
    IndexMembers(s1, Traversal(t1), AnyNode(), NameCounts(t1));
    IndexMembers(s2, Traversal(t2), AnyNode(), NameCounts(t2));
    IndexMembers(s1, Traversal(t1), WithBody(t1), BodyCounts(t1, f1));
    IndexMembers(s2, Traversal(t2), WithBody(t2), BodyCounts(t2, f2));
  }

  /**
   * `extractedSim` on the two nodes' parameter lists and the three body
   * multisets, any of which may be undefined.
   */
  function ExtractedSimOf(idf: IdfTable, beforeParameters: Option<seq<string>>, afterParameters: Option<seq<string>>,
                          extractedBody: Option<Counts<string>>, beforeBody: Option<Counts<string>>,
                          afterBody: Option<Counts<string>>): Result<Score, Fault>
  {
    if beforeParameters.None? || afterParameters.None? then Failure(UndefinedParameters)
    else
      var omitted := Omitted(beforeParameters.value, afterParameters.value);
      var lost := SubOf(beforeBody, afterBody);
      if extractedBody.None? || lost.Failure? then Failure(UndefinedMultiset)
      else ContainedWjcOf(idf, Some(RemoveKeys(extractedBody.value, omitted)), RemoveKeys(lost.value, omitted))
  }

  lemma ExtractedSimOfProperties(idf: IdfTable, beforeParameters: Option<seq<string>>, afterParameters: Option<seq<string>>,
                                 extractedBody: Option<Counts<string>>, beforeBody: Option<Counts<string>>,
                                 afterBody: Option<Counts<string>>)
    requires idf.Valid()
    ensures var r := ExtractedSimOf(idf, beforeParameters, afterParameters, extractedBody, beforeBody, afterBody);
      && (r.Failure? <==>
            || beforeParameters.None? || afterParameters.None? || extractedBody.None? || beforeBody.None?
            || (afterBody.None? && beforeBody.value != map[]))
      && (beforeParameters.None? || afterParameters.None? ==> r == Failure(UndefinedParameters))
      && (r.Success? && r.value.Value? ==> 0.0 <= r.value.ratio <= 1.0)
  {
    if beforeParameters.Some? && afterParameters.Some? && extractedBody.Some? && SubOf(beforeBody, afterBody).Success? {
      var omitted := Omitted(beforeParameters.value, afterParameters.value);
      ContainedWjcOfProperties(idf, Some(RemoveKeys(extractedBody.value, omitted)), RemoveKeys(SubOf(beforeBody, afterBody).value, omitted));
    }
  }

  /** `inlineSim` on the three body multisets, any of which may be undefined. */
  function InlineSimOf(idf: IdfTable, inlinedBody: Option<Counts<string>>, beforeBody: Option<Counts<string>>,
                       afterBody: Option<Counts<string>>): Result<Score, Fault>
  {
    var gained := SubOf(afterBody, beforeBody);
    if gained.Failure? then Failure(UndefinedMultiset)
    else ContainedWjcOf(idf, inlinedBody, gained.value)
  }

  lemma InlineSimOfProperties(idf: IdfTable, inlinedBody: Option<Counts<string>>, beforeBody: Option<Counts<string>>,
                              afterBody: Option<Counts<string>>)
    requires idf.Valid()
    ensures var r := InlineSimOf(idf, inlinedBody, beforeBody, afterBody);
      && (r.Failure? <==>
            || afterBody.None? || (beforeBody.None? && afterBody.value != map[]) || (inlinedBody.None? && idf.order != []))
      && (r.Success? && r.value.Value? ==> 0.0 <= r.value.ratio <= 1.0)
  {
    if SubOf(afterBody, beforeBody).Success? {
      ContainedWjcOfProperties(idf, inlinedBody, SubOf(afterBody, beforeBody).value);
    }
  }

  /** `CodeSimiliarity`: the token multisets of every node of both trees and the two IDF tables. */
  class CodeSimilarity {
    const before: Forest
    const after: Forest
    ghost const beforeFiles: Files
    ghost const afterFiles: Files
    /** Stands for `log(1 + n / count)`. */
    const weigh: (nat, nat) -> real
    var nodesTokens: map<NodeRef, Counts<string>>
    var nodesNamesTokens: map<NodeRef, Counts<string>>
    var nodesBodyTokens: map<NodeRef, Counts<string>>
    var idfPerToken: IdfTable
    var idfPerNameToken: IdfTable

    function Tree(side: Side): Forest
    {
      if side == BeforeSide then before else after
    }

    ghost function FilesOf(side: Side): Files
    {
      if side == BeforeSide then beforeFiles else afterFiles
    }

    predicate IsNode(r: NodeRef)
    {
      r.index < |Tree(r.side).nodes|
    }

    function NodeOf(r: NodeRef): Node
      requires IsNode(r)
    {
      Tree(r.side).nodes[r.index]
    }

    /** `elemntsCount`: the larger of the two trees' node counts. */
    function ElementsCount(): nat
    {
      MaxNat(|Traversal(before)|, |Traversal(after)|)
    }

    /** The combined tree multiset of code tokens. */
    ghost function TreeTokens(): Counts<string>
    {
      Max(DocFreq(Along(Traversal(before), SpanCounts(before, beforeFiles))),
          DocFreq(Along(Traversal(after), SpanCounts(after, afterFiles))))
    }

    /** The combined tree multiset of name tokens. */
    function TreeNameTokens(): Counts<string>
    {
      Max(DocFreq(Along(Traversal(before), NameCounts(before))), DocFreq(Along(Traversal(after), NameCounts(after))))
    }

    ghost predicate Valid()
      reads this
    {
      && WellFormed(before) && WellFormed(after)
      && Scannable(before, beforeFiles) && Scannable(after, afterFiles)
      && Indexed() && Weighted()
    }

    /** The three node maps hold the multisets of every node of both trees (bodies only for nodes with one). */
    ghost predicate Indexed()
      reads this
    {
      && nodesTokens == Index(BeforeSide, Traversal(before), AnyNode(), SpanCounts(before, beforeFiles))
                        + Index(AfterSide, Traversal(after), AnyNode(), SpanCounts(after, afterFiles))
      && nodesBodyTokens == Index(BeforeSide, Traversal(before), WithBody(before), BodyCounts(before, beforeFiles))
                            + Index(AfterSide, Traversal(after), WithBody(after), BodyCounts(after, afterFiles))
      && nodesNamesTokens == Index(BeforeSide, Traversal(before), AnyNode(), NameCounts(before))
                             + Index(AfterSide, Traversal(after), AnyNode(), NameCounts(after))
    }

    /** The IDF tables are those of the combined tree multisets. */
    ghost predicate Weighted()
      reads this
    {
      IdfOf(idfPerToken, TreeTokens(), ElementsCount(), weigh) && IdfOf(idfPerNameToken, TreeNameTokens(), ElementsCount(), weigh)
    }

    /** The constructor: indexes both trees, then derives the IDF tables from their combined multisets. */
    constructor(before: Forest, after: Forest, beforeFiles: Files, afterFiles: Files, weigh: (nat, nat) -> real)
      requires WellFormed(before) && WellFormed(after)
      requires Scannable(before, beforeFiles) && Scannable(after, afterFiles)
      requires forall n: nat, c: nat | 1 <= c <= n :: weigh(n, c) >= 0.0
      ensures Valid()
      ensures this.before == before && this.after == after && this.weigh == weigh
      ensures this.beforeFiles == beforeFiles && this.afterFiles == afterFiles
    {
      this.before, this.after := before, after;
      this.beforeFiles, this.afterFiles := beforeFiles, afterFiles;
      this.weigh := weigh;
      nodesTokens, nodesNamesTokens, nodesBodyTokens := map[], map[], map[];
      idfPerToken, idfPerNameToken := IdfTable([], map[]), IdfTable([], map[]);
      new;
      var treeTokensBefore, treeTokensAfter, treeNameTokensBefore, treeNameTokensAfter, elementsCountBefore, elementsCountAfter
        := IndexTrees(beforeFiles, afterFiles);
      ComputeIdf(treeTokensBefore, treeTokensAfter, treeNameTokensBefore, treeNameTokensAfter, elementsCountBefore, elementsCountAfter);
    }

    /** The first part of the constructor: `addTree` on both trees, each with fresh tree multisets. */
    method IndexTrees(beforeContents: Files, afterContents: Files) returns (treeTokensBefore: Counts<string>, treeTokensAfter: Counts<string>,
                                 treeNameTokensBefore: Counts<string>, treeNameTokensAfter: Counts<string>,
                                 elementsCountBefore: nat, elementsCountAfter: nat)
      requires WellFormed(before) && WellFormed(after)
      requires Scannable(before, beforeFiles) && Scannable(after, afterFiles)
      requires beforeContents == beforeFiles && afterContents == afterFiles
      requires nodesTokens == map[] && nodesBodyTokens == map[] && nodesNamesTokens == map[]
      modifies this
      ensures Indexed()
      ensures treeTokensBefore == DocFreq(Along(Traversal(before), SpanCounts(before, beforeFiles)))
      ensures treeTokensAfter == DocFreq(Along(Traversal(after), SpanCounts(after, afterFiles)))
      ensures treeNameTokensBefore == DocFreq(Along(Traversal(before), NameCounts(before)))
      ensures treeNameTokensAfter == DocFreq(Along(Traversal(after), NameCounts(after)))
      ensures elementsCountBefore == |Traversal(before)| && elementsCountAfter == |Traversal(after)|
    {
      var beforeTokens := new Multiset<string>();
      var afterTokens := new Multiset<string>();
      var beforeNameTokens := new Multiset<string>();
      var afterNameTokens := new Multiset<string>();
      elementsCountBefore := AddTree(BeforeSide, before, beforeContents, beforeTokens, beforeNameTokens);
      EmptyUnion(Index(BeforeSide, Traversal(before), AnyNode(), SpanCounts(before, beforeFiles)));
      EmptyUnion(Index(BeforeSide, Traversal(before), WithBody(before), BodyCounts(before, beforeFiles)));
      EmptyUnion(Index(BeforeSide, Traversal(before), AnyNode(), NameCounts(before)));
      treeTokensBefore, treeNameTokensBefore := beforeTokens.values, beforeNameTokens.values;
      elementsCountAfter := AddTree(AfterSide, after, afterContents, afterTokens, afterNameTokens);
      treeTokensAfter, treeNameTokensAfter := afterTokens.values, afterNameTokens.values;
    }

    /**
     * The end of the constructor: the combined tree multisets are the larger
     * counts of the two trees, and each gets an IDF table.
     */
    method ComputeIdf(treeTokensBefore: Counts<string>, treeTokensAfter: Counts<string>,
                      treeNameTokensBefore: Counts<string>, treeNameTokensAfter: Counts<string>,
                      elementsCountBefore: nat, elementsCountAfter: nat)
      requires treeTokensBefore == DocFreq(Along(Traversal(before), SpanCounts(before, beforeFiles)))
      requires treeTokensAfter == DocFreq(Along(Traversal(after), SpanCounts(after, afterFiles)))
      requires treeNameTokensBefore == DocFreq(Along(Traversal(before), NameCounts(before)))
      requires treeNameTokensAfter == DocFreq(Along(Traversal(after), NameCounts(after)))
      requires elementsCountBefore == |Traversal(before)| && elementsCountAfter == |Traversal(after)|
      requires forall n: nat, c: nat | 1 <= c <= n :: weigh(n, c) >= 0.0
      modifies this
      ensures Weighted()
      ensures nodesTokens == old(nodesTokens) && nodesBodyTokens == old(nodesBodyTokens) && nodesNamesTokens == old(nodesNamesTokens)
    {
      var treeTokens := Max(treeTokensBefore, treeTokensAfter);
      var treeNameTokens := Max(treeNameTokensBefore, treeNameTokensAfter);
      var elementsCount := MaxNat(elementsCountBefore, elementsCountAfter);
      idfPerToken := BuildIdf(treeTokens, elementsCount, weigh, Along(Traversal(before), SpanCounts(before, beforeFiles)),
                              Along(Traversal(after), SpanCounts(after, afterFiles)));
      idfPerNameToken := BuildIdf(treeNameTokens, elementsCount, weigh, Along(Traversal(before), NameCounts(before)),
                                  Along(Traversal(after), NameCounts(after)));
    }

    /**
     * The state after `addTree` has indexed the nodes of `visited` on top of
     * the maps `spans`, `bodies` and `names`, with the tree multisets `df`
     * (code tokens) and `nameDf` (name tokens).
     */
    ghost predicate Walked(side: Side, tree: Forest, files: Files, visited: seq<nat>,
                           spans: map<NodeRef, Counts<string>>, bodies: map<NodeRef, Counts<string>>,
                           names: map<NodeRef, Counts<string>>, df: Counts<string>, nameDf: Counts<string>)
      reads this
    {
      && df == DocFreq(Along(visited, SpanCounts(tree, files)))
      && nameDf == DocFreq(Along(visited, NameCounts(tree)))
      && nodesTokens == spans + Index(side, visited, AnyNode(), SpanCounts(tree, files))
      && nodesBodyTokens == bodies + Index(side, visited, WithBody(tree), BodyCounts(tree, files))
      && nodesNamesTokens == names + Index(side, visited, AnyNode(), NameCounts(tree))
    }

    /** `addTree`: indexes every node the breadth-first walk yields and counts them. */
    method AddTree(side: Side, tree: Forest, files: Files, treeTokens: Multiset<string>, treeNameTokens: Multiset<string>)
      returns (elementsCount: nat)
      requires WellFormed(tree) && Scannable(tree, files)
      requires treeTokens != treeNameTokens
      requires treeTokens.values == map[] && treeNameTokens.values == map[]
      modifies this, treeTokens, treeNameTokens
      ensures elementsCount == |Traversal(tree)|
      ensures Walked(side, tree, files, Traversal(tree), old(nodesTokens), old(nodesBodyTokens), old(nodesNamesTokens),
                     treeTokens.values, treeNameTokens.values)
      ensures idfPerToken == old(idfPerToken) && idfPerNameToken == old(idfPerNameToken)
    {
      elementsCount := 0;
      var walk := new CSTIterator(tree);
      ghost var visited: seq<nat> := [];
      TraversalVisitsEachNodeOnce(tree);
      var next := walk.Next();
      while next.Some?
        invariant walk.Valid() && walk.tree == tree
        invariant next.Some? ==> walk.yielded == visited + [next.value] && walk.yielded <= Traversal(tree)
        invariant next.None? ==> walk.yielded == visited && walk.yielded == Traversal(tree)
        invariant elementsCount == |visited|
        invariant Walked(side, tree, files, visited, old(nodesTokens), old(nodesBodyTokens), old(nodesNamesTokens),
                         treeTokens.values, treeNameTokens.values)
        invariant idfPerToken == old(idfPerToken) && idfPerNameToken == old(idfPerNameToken)
        decreases |Traversal(tree)| - |visited|
      {
        var node := next.value;
        PrefixNext(visited, node, Traversal(tree));
        IndexNode(side, tree, files, node, treeTokens, treeNameTokens, visited, old(nodesTokens), old(nodesBodyTokens), old(nodesNamesTokens));
        elementsCount := elementsCount + 1;
        visited := visited + [node];
        assert walk.Valid() && walk.yielded == visited;
        next := walk.Next();
      }
    }

    /** One round of the walk in `addTree`: `addNode` and `addNodeName` for one node. */
    method IndexNode(side: Side, tree: Forest, files: Files, node: nat, treeTokens: Multiset<string>, treeNameTokens: Multiset<string>,
                     ghost visited: seq<nat>, ghost spans: map<NodeRef, Counts<string>>,
                     ghost bodies: map<NodeRef, Counts<string>>, ghost names: map<NodeRef, Counts<string>>)
      requires node < |tree.nodes| && NodeScannable(tree, files, node) && ParentsPrecede(tree)
      requires treeTokens != treeNameTokens
      requires Walked(side, tree, files, visited, spans, bodies, names, treeTokens.values, treeNameTokens.values)
      modifies this, treeTokens, treeNameTokens
      ensures Walked(side, tree, files, visited + [node], spans, bodies, names, treeTokens.values, treeNameTokens.values)
      ensures idfPerToken == old(idfPerToken) && idfPerNameToken == old(idfPerNameToken)
    {
      AddNode(side, tree, files, node, treeTokens);
      AddNodeName(side, tree, node, treeNameTokens);
      AlongStep(visited, SpanCounts(tree, files), node);
      AlongStep(visited, NameCounts(tree), node);
      IndexStep(side, spans, visited, AnyNode(), SpanCounts(tree, files), node);
      IndexStep(side, bodies, visited, WithBody(tree), BodyCounts(tree, files), node);
      IndexStep(side, names, visited, AnyNode(), NameCounts(tree), node);
    }

    /**
     * `addNode`: scans the tokens of the node's file in list order, skipping
     * those that start before the node and stopping at the first one that
     * ends after it; the body multiset takes the scanned tokens inside the
     * body span and is stored only for nodes with a body.
     */
    method AddNode(side: Side, tree: Forest, files: Files, node: nat, treeTokens: Multiset<string>)
      requires node < |tree.nodes| && NodeScannable(tree, files, node)
      modifies this, treeTokens
      ensures nodesTokens == old(nodesTokens)[NodeRef(side, node) := NodeTokenCounts(tree, files, node)]
      ensures nodesBodyTokens ==
        if tree.nodes[node].location.HasBody() then old(nodesBodyTokens)[NodeRef(side, node) := BodyTokenCounts(tree, files, node)]
        else old(nodesBodyTokens)
      ensures nodesNamesTokens == old(nodesNamesTokens)
      ensures idfPerToken == old(idfPerToken) && idfPerNameToken == old(idfPerNameToken)
      ensures treeTokens.values == AddKeys(old(treeTokens.values), NodeTokenCounts(tree, files, node).Keys)
    {
      var location := tree.nodes[node].location;
      var tokenizedFile := tree.tokenizedFiles[location.file];
      var nodeTokens := new Multiset<string>();
      var nodeBodyTokens := new Multiset<string>();
      var hasBody := location.bodyBegin != location.begin;
      ScanTokens(files, tokenizedFile.file, tokenizedFile.tokens, location, nodeTokens, nodeBodyTokens);
      AddEachKey(treeTokens, nodeTokens.values.Keys);
      nodesTokens := nodesTokens[NodeRef(side, node) := nodeTokens.values];
      if hasBody {
        nodesBodyTokens := nodesBodyTokens[NodeRef(side, node) := nodeBodyTokens.values];
      }
    }

    /**
     * `addNodeName`: walks from the node up through its ancestors and, on
     * every step, adds the segments of the node's own name.
     */
    method AddNodeName(side: Side, tree: Forest, node: nat, treeNameTokens: Multiset<string>)
      requires ParentsPrecede(tree) && node < |tree.nodes|
      modifies this, treeNameTokens
      ensures nodesNamesTokens == old(nodesNamesTokens)[NodeRef(side, node) := NameTokenCounts(tree, node)]
      ensures nodesTokens == old(nodesTokens) && nodesBodyTokens == old(nodesBodyTokens)
      ensures idfPerToken == old(idfPerToken) && idfPerNameToken == old(idfPerNameToken)
      ensures treeNameTokens.values == AddKeys(old(treeNameTokens.values), NameTokenCounts(tree, node).Keys)
    {
      var nodeTokens := CollectNameTokens(tree, node);
      nodesNamesTokens := nodesNamesTokens[NodeRef(side, node) := nodeTokens.values];
      AddEachKey(treeNameTokens, nodeTokens.values.Keys);
    }

    /** `sim`: the coefficient of the full-span multisets. */
    function SimScore(a: NodeRef, b: NodeRef): Result<Score, Fault>
      reads this
    {
      WjcOf(idfPerToken, Lookup(nodesTokens, a), Lookup(nodesTokens, b))
    }

    /** `bodySim`: the coefficient of the body multisets. */
    function BodySimScore(a: NodeRef, b: NodeRef): Result<Score, Fault>
      reads this
    {
      WjcOf(idfPerToken, Lookup(nodesBodyTokens, a), Lookup(nodesBodyTokens, b))
    }

    /** `nameSim`: the coefficient of the name multisets, weighted by the name-token table. */
    function NameSimScore(a: NodeRef, b: NodeRef): Result<Score, Fault>
      reads this
    {
      WjcOf(idfPerNameToken, Lookup(nodesNamesTokens, a), Lookup(nodesNamesTokens, b))
    }

    /**
     * `extractedSim(before, after, extracted)`: how much of what the body of
     * `before` lost (its body minus that of `after`) the body of `extracted`
     * covers, leaving out `return` and both nodes' parameter names.
     */
    function ExtractedScore(before: NodeRef, after: NodeRef, extracted: NodeRef): Result<Score, Fault>
      requires IsNode(before) && IsNode(after)
      reads this
    {
      ExtractedSimOf(idfPerToken, NodeOf(before).parameters, NodeOf(after).parameters, Lookup(nodesBodyTokens, extracted),
                     Lookup(nodesBodyTokens, before), Lookup(nodesBodyTokens, after))
    }

    /**
     * `inlineSim(before, after, inlined)`: how much of the body of `inlined`
     * the body of `after` gained over that of `before`.
     */
    function InlineScore(before: NodeRef, after: NodeRef, inlined: NodeRef): Result<Score, Fault>
      reads this
    {
      InlineSimOf(idfPerToken, Lookup(nodesBodyTokens, inlined), Lookup(nodesBodyTokens, before), Lookup(nodesBodyTokens, after))
    }

    method Sim(a: NodeRef, b: NodeRef) returns (r: Result<Score, Fault>)
      ensures r == SimScore(a, b)
    {
      r := CalculateWjc(idfPerToken, Lookup(nodesTokens, a), Lookup(nodesTokens, b));
    }

    method BodySim(a: NodeRef, b: NodeRef) returns (r: Result<Score, Fault>)
      ensures r == BodySimScore(a, b)
    {
      r := CalculateWjc(idfPerToken, Lookup(nodesBodyTokens, a), Lookup(nodesBodyTokens, b));
    }

    method NameSim(a: NodeRef, b: NodeRef) returns (r: Result<Score, Fault>)
      ensures r == NameSimScore(a, b)
    {
      r := CalculateWjc(idfPerNameToken, Lookup(nodesNamesTokens, a), Lookup(nodesNamesTokens, b));
    }

    method ExtractedSim(before: NodeRef, after: NodeRef, extracted: NodeRef) returns (r: Result<Score, Fault>)
      requires IsNode(before) && IsNode(after)
      ensures r == ExtractedScore(before, after, extracted)
    {
      var beforeParameters := Tree(before.side).nodes[before.index].parameters;
      var afterParameters := Tree(after.side).nodes[after.index].parameters;
      if beforeParameters.None? || afterParameters.None? {
        return Failure(UndefinedParameters);
      }
      var omitted := Omitted(beforeParameters.value, afterParameters.value);
      var extractedBody := Lookup(nodesBodyTokens, extracted);
      var lost := SubOf(Lookup(nodesBodyTokens, before), Lookup(nodesBodyTokens, after));
      if extractedBody.None? || lost.Failure? {
        return Failure(UndefinedMultiset);
      }
      r := CalculateContainedWjc(idfPerToken, Some(RemoveKeys(extractedBody.value, omitted)), RemoveKeys(lost.value, omitted));
    }

    method InlineSim(before: NodeRef, after: NodeRef, inlined: NodeRef) returns (r: Result<Score, Fault>)
      ensures r == InlineScore(before, after, inlined)
    {
      var gained := SubOf(Lookup(nodesBodyTokens, after), Lookup(nodesBodyTokens, before));
      if gained.Failure? {
        return Failure(UndefinedMultiset);
      }
      r := CalculateContainedWjc(idfPerToken, Lookup(nodesBodyTokens, inlined), gained.value);
    }

    /** Every node of both trees has its span and name multisets stored, and its body multiset exactly when it has a body. */
    lemma NodeIndexed(r: NodeRef)
      requires Valid() && IsNode(r)
      ensures Lookup(nodesTokens, r) == Some(NodeTokenCounts(Tree(r.side), FilesOf(r.side), r.index))
      ensures Lookup(nodesNamesTokens, r) == Some(NameTokenCounts(Tree(r.side), r.index))
      ensures Lookup(nodesBodyTokens, r) ==
        if NodeOf(r).location.HasBody() then Some(BodyTokenCounts(Tree(r.side), FilesOf(r.side), r.index)) else None
    {
      TraversalVisitsEachNodeOnce(Tree(r.side));
      IndexedAt(BeforeSide, before, beforeFiles, AfterSide, after, afterFiles, r);
    }


    /** The body multiset `addNode` computes for a node (stored only when the node has a body). */
    ghost function BodyOf(r: NodeRef): Counts<string>
    {
      BodyTokenCounts(Tree(r.side), FilesOf(r.side), r.index)
    }

    predicate HasBodyAt(r: NodeRef)
      requires IsNode(r)
    {
      NodeOf(r).location.HasBody()
    }

    lemma IdfTablesValid()
      requires Valid()
      ensures idfPerToken.Valid() && idfPerNameToken.Valid()
    {
    }

    /** For two nodes of the trees `sim` always yields a score; it is symmetric and lies in [0, 1]. */
    lemma SimOfNodes(a: NodeRef, b: NodeRef)
      requires Valid() && IsNode(a) && IsNode(b)
      ensures SimScore(a, b).Success? && SimScore(a, b) == SimScore(b, a)
      ensures SimScore(a, b).value.Value? ==> 0.0 <= SimScore(a, b).value.ratio <= 1.0
    {
      NodeIndexed(a);
      NodeIndexed(b);
      IdfTablesValid();
      WjcOfDefined(idfPerToken, nodesTokens[a], nodesTokens[b]);
    }

    /** For two nodes of the trees `nameSim` always yields a score; it is symmetric and lies in [0, 1]. */
    lemma NameSimOfNodes(a: NodeRef, b: NodeRef)
      requires Valid() && IsNode(a) && IsNode(b)
      ensures NameSimScore(a, b).Success? && NameSimScore(a, b) == NameSimScore(b, a)
      ensures NameSimScore(a, b).value.Value? ==> 0.0 <= NameSimScore(a, b).value.ratio <= 1.0
    {
      NodeIndexed(a);
      NodeIndexed(b);
      IdfTablesValid();
      WjcOfDefined(idfPerNameToken, nodesNamesTokens[a], nodesNamesTokens[b]);
    }

    /**
     * Two nodes with the same local name at the same depth have equal name
     * multisets, so `nameSim` scores them 1 unless their names weigh nothing.
     */
    lemma NameSimOfSameName(a: NodeRef, b: NodeRef)
      requires Valid() && IsNode(a) && IsNode(b)
      requires NodeOf(a).localName == NodeOf(b).localName && Depth(Tree(a.side), a.index) == Depth(Tree(b.side), b.index)
      ensures NameSimScore(a, b) == Success(NoScore) || NameSimScore(a, b) == Success(Value(1.0))
    {
      NodeIndexed(a);
      NodeIndexed(b);
      NameCountsOfSameName(Tree(a.side), a.index, Tree(b.side), b.index);
      WjcOfSame(idfPerNameToken, nodesNamesTokens[a]);
    }

    /**
     * `bodySim` of two nodes of the trees fails exactly when one of them has
     * no body and the table has a token; otherwise it is symmetric and in [0, 1].
     */
    lemma BodySimOfNodes(a: NodeRef, b: NodeRef)
      requires Valid() && IsNode(a) && IsNode(b)
      ensures BodySimScore(a, b).Failure? <==> (!HasBodyAt(a) || !HasBodyAt(b)) && idfPerToken.order != []
      ensures BodySimScore(a, b) == BodySimScore(b, a)
      ensures BodySimScore(a, b).Success? && BodySimScore(a, b).value.Value? ==> 0.0 <= BodySimScore(a, b).value.ratio <= 1.0
    {
      NodeIndexed(a);
      NodeIndexed(b);
      IdfTablesValid();
      WjcOfProperties(idfPerToken, Lookup(nodesBodyTokens, a), Lookup(nodesBodyTokens, b));
    }

    /**
     * `extractedSim` fails exactly when a parameter list is undefined, the
     * extracted node or the original node has no body, or the original's
     * non-empty body is compared with a bodiless node; otherwise it lies in [0, 1].
     */
    lemma ExtractedOfNodes(before: NodeRef, after: NodeRef, extracted: NodeRef)
      requires Valid() && IsNode(before) && IsNode(after) && IsNode(extracted)
      ensures ExtractedScore(before, after, extracted).Failure? <==>
        || NodeOf(before).parameters.None? || NodeOf(after).parameters.None?
        || !HasBodyAt(extracted) || !HasBodyAt(before)
        || (!HasBodyAt(after) && BodyOf(before) != map[])
      ensures NodeOf(before).parameters.None? || NodeOf(after).parameters.None? ==>
        ExtractedScore(before, after, extracted) == Failure(UndefinedParameters)
      ensures ExtractedScore(before, after, extracted).Success? && ExtractedScore(before, after, extracted).value.Value? ==>
        0.0 <= ExtractedScore(before, after, extracted).value.ratio <= 1.0
    {
      NodeIndexed(before);
      NodeIndexed(after);
      NodeIndexed(extracted);
      IdfTablesValid();
      ExtractedSimOfProperties(idfPerToken, NodeOf(before).parameters, NodeOf(after).parameters, Lookup(nodesBodyTokens, extracted),
                               Lookup(nodesBodyTokens, before), Lookup(nodesBodyTokens, after));
    }

    /**
     * `inlineSim` fails exactly when the caller after the change has no body,
     * its body is compared with a bodiless caller before, or the inlined node
     * has no body while the table has a token; otherwise it lies in [0, 1].
     */
    lemma InlineOfNodes(before: NodeRef, after: NodeRef, inlined: NodeRef)
      requires Valid() && IsNode(before) && IsNode(after) && IsNode(inlined)
      ensures InlineScore(before, after, inlined).Failure? <==>
        || !HasBodyAt(after)
        || (!HasBodyAt(before) && BodyOf(after) != map[])
        || (!HasBodyAt(inlined) && idfPerToken.order != [])
      ensures InlineScore(before, after, inlined).Success? && InlineScore(before, after, inlined).value.Value? ==>
        0.0 <= InlineScore(before, after, inlined).value.ratio <= 1.0
    {
      NodeIndexed(before);
      NodeIndexed(after);
      NodeIndexed(inlined);
      IdfTablesValid();
      InlineSimOfProperties(idfPerToken, Lookup(nodesBodyTokens, inlined), Lookup(nodesBodyTokens, before), Lookup(nodesBodyTokens, after));
    }
  }
}
