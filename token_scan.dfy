/**
 * The token scan of `addNode` in
 * refDiffTS/packages/refdiffts-core/src/Diff/CodeSimiliarity.ts: which of a
 * file's tokens make up a node's full-span multiset and its body multiset.
 */
module TokenScan {
  import opened Multisets
  import opened CstNode
  import opened Cst

  newtype byte = x: int | 0 <= x < 256

  /** File contents by file name. */
  type Files = map<string, seq<byte>>

  function Content(files: Files, name: string): seq<byte>
  {
    if name in files then files[name] else []
  }

  /**
   * `Buffer.toString('ascii', start, end)`: the offsets are clamped to the
   * buffer, an empty or inverted range gives "", and each byte keeps its low
   * seven bits.
   */
  function AsciiSlice(content: seq<byte>, start: int, end: int): (text: string)
    ensures |text| <= |content|
    ensures 0 <= start <= end <= |content| ==>
      |text| == end - start && forall i | 0 <= i < |text| :: text[i] as int == content[start + i] as int % 128
  {
    var lo := if start < 0 then 0 else start;
    var hi := if end > |content| then |content| else end;
    if hi <= lo then ""
    else seq(hi - lo, i requires 0 <= i < hi - lo => ((content[lo + i] as int) % 128) as char)
  }

  /**
   * The tokens the scan keeps, in list order: tokens starting before `begin`
   * are skipped, and the scan stops at the first remaining token that ends
   * after `end`.
   */
  function SpanTokens(tokens: seq<TokenPosition>, loc: Location): seq<TokenPosition>
  {
    if tokens == [] then []
    else if tokens[0].start < loc.begin then SpanTokens(tokens[1..], loc)
    else if tokens[0].end > loc.end then []
    else [tokens[0]] + SpanTokens(tokens[1..], loc)
  }

  /** The tokens lying inside [lo, hi], in list order. */
  function Within(tokens: seq<TokenPosition>, lo: int, hi: int): seq<TokenPosition>
  {
    if tokens == [] then []
    else
      var last := tokens[|tokens| - 1];
      Within(tokens[..|tokens| - 1], lo, hi) + (if lo <= last.start && last.end <= hi then [last] else [])
  }

  /**
   * One step of the scan at position `i`, given the tokens `kept` so far:
   * a skipped token keeps them, a token ending past the node ends the scan,
   * any other token is kept.
   */
  lemma SpanTokensStep(tokens: seq<TokenPosition>, i: nat, loc: Location, kept: seq<TokenPosition>)
    requires i < |tokens| && SpanTokens(tokens, loc) == kept + SpanTokens(tokens[i..], loc)
    ensures tokens[i].start < loc.begin ==> SpanTokens(tokens, loc) == kept + SpanTokens(tokens[i + 1..], loc)
    ensures loc.begin <= tokens[i].start && tokens[i].end > loc.end ==> SpanTokens(tokens, loc) == kept
    ensures loc.begin <= tokens[i].start && tokens[i].end <= loc.end ==>
      SpanTokens(tokens, loc) == (kept + [tokens[i]]) + SpanTokens(tokens[i + 1..], loc)
  {
    assert tokens[i..][1..] == tokens[i + 1..];
    assert kept + [] == kept;
    assert kept + ([tokens[i]] + SpanTokens(tokens[i + 1..], loc)) == (kept + [tokens[i]]) + SpanTokens(tokens[i + 1..], loc);
  }

  /** One more token at the end of the list. */
  lemma WithinSnoc(tokens: seq<TokenPosition>, t: TokenPosition, lo: int, hi: int)
    ensures Within(tokens + [t], lo, hi) == Within(tokens, lo, hi) + (if lo <= t.start && t.end <= hi then [t] else [])
  {
    assert (tokens + [t])[..|tokens|] == tokens;
  }

  /** A token list in offset order: token ends never decrease. */
  predicate EndsOrdered(tokens: seq<TokenPosition>)
  {
    forall i, j | 0 <= i < j < |tokens| :: tokens[i].end <= tokens[j].end
  }

  /** The text of each token. */
  function Words(content: seq<byte>, tokens: seq<TokenPosition>): (r: seq<string>)
    ensures |r| == |tokens|
  {
    seq(|tokens|, k requires 0 <= k < |tokens| => AsciiSlice(content, tokens[k].start, tokens[k].end))
  }

  lemma WordsSnoc(content: seq<byte>, tokens: seq<TokenPosition>, t: TokenPosition)
    ensures Words(content, tokens + [t]) == Words(content, tokens) + [AsciiSlice(content, t.start, t.end)]
  {
  }

  /** The body tokens: the kept tokens lying inside the body span. */
  function BodyTokens(tokens: seq<TokenPosition>, loc: Location): seq<TokenPosition>
  {
    Within(SpanTokens(tokens, loc), loc.bodyBegin, loc.bodyEnd)
  }

  /**
   * What `addNode` needs of a tree and its files: every node's file has a
   * token index, and its contents are present whenever a token of the node
   * is read (the source throws a TypeError otherwise).
   */
  predicate Scannable(tree: Forest, files: Files)
  {
    forall x | 0 <= x < |tree.nodes| :: NodeScannable(tree, files, x)
  }

  predicate NodeScannable(tree: Forest, files: Files, x: nat)
    requires x < |tree.nodes|
  {
    var loc := tree.nodes[x].location;
    && loc.file in tree.tokenizedFiles
    && (SpanTokens(tree.tokenizedFiles[loc.file].tokens, loc) != [] ==> tree.tokenizedFiles[loc.file].file in files)
  }

  /** A node's full-span multiset (empty for an index outside the tree or a file without tokens). */
  function NodeTokenCounts(tree: Forest, files: Files, x: nat): Counts<string>
  {
    if x < |tree.nodes| && tree.nodes[x].location.file in tree.tokenizedFiles then
      var loc := tree.nodes[x].location;
      var tokenized := tree.tokenizedFiles[loc.file];
      Tally(Words(Content(files, tokenized.file), SpanTokens(tokenized.tokens, loc)))
    else map[]
  }

  /** A node's body multiset (stored only for nodes with a body). */
  function BodyTokenCounts(tree: Forest, files: Files, x: nat): Counts<string>
  {
    if x < |tree.nodes| && tree.nodes[x].location.file in tree.tokenizedFiles then
      var loc := tree.nodes[x].location;
      var tokenized := tree.tokenizedFiles[loc.file];
      Tally(Words(Content(files, tokenized.file), BodyTokens(tokenized.tokens, loc)))
    else map[]
  }

  lemma {:induction false} WithinConcat(a: seq<TokenPosition>, b: seq<TokenPosition>, lo: int, hi: int)
    ensures Within(a + b, lo, hi) == Within(a, lo, hi) + Within(b, lo, hi)
  {
    if b == [] {
      assert a + b == a;
    } else {
      var init, last := b[..|b| - 1], b[|b| - 1];
      var kept := if lo <= last.start && last.end <= hi then [last] else [];
      WithinConcat(a, init, lo, hi);
      assert (a + b)[..|a + b| - 1] == a + init;
      assert (a + b)[|a + b| - 1] == last;
      assert Within(a + b, lo, hi) == Within(a + init, lo, hi) + kept;
      assert Within(b, lo, hi) == Within(init, lo, hi) + kept;
    }
  }

  /** The scan keeps tokens of the list, each lying inside the node's span. */
  lemma {:induction false} SpanTokensMembers(tokens: seq<TokenPosition>, loc: Location)
    ensures forall t | t in SpanTokens(tokens, loc) :: t in tokens && loc.begin <= t.start && t.end <= loc.end
  {
    if tokens != [] {
      SpanTokensMembers(tokens[1..], loc);
      assert forall t | t in tokens[1..] :: t in tokens;
    }
  }

  /** `Within` keeps tokens of the list, each lying inside [lo, hi]. */
  lemma {:induction false} WithinMembers(tokens: seq<TokenPosition>, lo: int, hi: int)
    ensures forall t | t in Within(tokens, lo, hi) :: t in tokens && lo <= t.start && t.end <= hi
  {
    if tokens != [] {
      var init := tokens[..|tokens| - 1];
      WithinMembers(init, lo, hi);
      assert forall t | t in init :: t in tokens;
    }
  }

  /** No token ending after `hi` lies inside [lo, hi]. */
  lemma {:induction false} WithinOfLate(tokens: seq<TokenPosition>, lo: int, hi: int)
    requires forall t | t in tokens :: t.end > hi
    ensures Within(tokens, lo, hi) == []
  {
    if tokens != [] {
      var init := tokens[..|tokens| - 1];
      assert forall t | t in init :: t in tokens;
      WithinOfLate(init, lo, hi);
      assert tokens[|tokens| - 1] in tokens;
    }
  }

  /**
   * For a token list in offset order the scan keeps exactly the tokens
   * lying inside the node's span [begin, end].
   */
  lemma {:induction false} SpanTokensOfOrdered(tokens: seq<TokenPosition>, loc: Location)
    requires EndsOrdered(tokens)
    ensures SpanTokens(tokens, loc) == Within(tokens, loc.begin, loc.end)
  {
    if tokens != [] {
      var first, rest := tokens[0], tokens[1..];
      assert tokens == [first] + rest;
      WithinCons(first, rest, loc.begin, loc.end);
      assert EndsOrdered(rest) by {
        forall i, j | 0 <= i < j < |rest| ensures rest[i].end <= rest[j].end {
          assert rest[i] == tokens[i + 1] && rest[j] == tokens[j + 1];
        }
      }
      SpanTokensOfOrdered(rest, loc);
      if first.start >= loc.begin && first.end > loc.end {
        LaterEndsAfter(tokens, loc.end);
        WithinOfLate(rest, loc.begin, loc.end);
      }
    }
  }

  /** The first token is kept when it lies inside [lo, hi], then the rest are filtered. */
  lemma WithinCons(first: TokenPosition, rest: seq<TokenPosition>, lo: int, hi: int)
    ensures Within([first] + rest, lo, hi) == (if lo <= first.start && first.end <= hi then [first] else []) + Within(rest, lo, hi)
  {
    WithinConcat([first], rest, lo, hi);
    assert [first][..0] == [];
  }

  /** In a list in end order, every token after one ending past `hi` ends past `hi` too. */
  lemma LaterEndsAfter(tokens: seq<TokenPosition>, hi: int)
    requires tokens != [] && EndsOrdered(tokens) && tokens[0].end > hi
    ensures forall t | t in tokens[1..] :: t.end > hi
  {
    forall t | t in tokens[1..] ensures t.end > hi {
      var j :| 0 <= j < |tokens| - 1 && tokens[1..][j] == t;
      assert tokens[j + 1] == t;
    }
  }

  lemma {:induction false} WordsOfWithin(content: seq<byte>, tokens: seq<TokenPosition>, lo: int, hi: int)
    ensures multiset(Words(content, Within(tokens, lo, hi))) <= multiset(Words(content, tokens))
  {
    if tokens != [] {
      var init, last := tokens[..|tokens| - 1], tokens[|tokens| - 1];
      assert tokens == init + [last];
      WordsOfWithin(content, init, lo, hi);
      WordsSnoc(content, init, last);
      WithinSnoc(init, last, lo, hi);
      if lo <= last.start && last.end <= hi {
        WordsSnoc(content, Within(init, lo, hi), last);
      } else {
        assert Within(tokens, lo, hi) == Within(init, lo, hi);
      }
    }
  }

  /** Every body multiset is pointwise below the node's full-span multiset. */
  lemma BodyBelowSpan(tree: Forest, files: Files, x: nat, w: string)
    requires x < |tree.nodes| && tree.nodes[x].location.file in tree.tokenizedFiles
    ensures Count(BodyTokenCounts(tree, files, x), w) <= Count(NodeTokenCounts(tree, files, x), w)
  {
    var loc := tree.nodes[x].location;
    var tokenized := tree.tokenizedFiles[loc.file];
    var content := Content(files, tokenized.file);
    var span := SpanTokens(tokenized.tokens, loc);
    WordsOfWithin(content, span, loc.bodyBegin, loc.bodyEnd);
    TallyIsMultiset(Words(content, span), w);
    TallyIsMultiset(Words(content, Within(span, loc.bodyBegin, loc.bodyEnd)), w);
  }
}
