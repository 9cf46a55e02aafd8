/**
 * Camel-case name splitting (`splitName` in
 * refDiffTS/packages/refdiffts-core/src/Diff/CodeSimiliarity.ts).
 *
 * A new segment starts at every character that equals its own upper-case
 * form: upper-case letters, but also digits, `_`, `.`, `$` and every other
 * character without a lower-case form.
 */
module NameSplit {

  /** `c.toUpperCase() === c`, for names written in ASCII. */
  predicate IsOwnUpperCase(c: char)
  {
    !('a' <= c <= 'z')
  }

  /** The number of characters of `s` that start a new segment. */
  function BoundaryCount(s: string): nat
  {
    if s == [] then 0 else BoundaryCount(s[..|s| - 1]) + (if IsOwnUpperCase(s[|s| - 1]) then 1 else 0)
  }

  /** The concatenation of a list of segments. */
  function Concat(segments: seq<string>): string
  {
    if segments == [] then [] else Concat(segments[..|segments| - 1]) + segments[|segments| - 1]
  }

  predicate NoBoundary(s: string)
  {
    forall i | 0 <= i < |s| :: !IsOwnUpperCase(s[i])
  }

  /**
   * The segments of a name: the first holds no boundary character, every
   * later one is a boundary character followed by none.
   */
  predicate WellSegmented(segments: seq<string>)
  {
    && |segments| >= 1
    && NoBoundary(segments[0])
    && forall k | 1 <= k < |segments| ::
         |segments[k]| >= 1 && IsOwnUpperCase(segments[k][0]) && NoBoundary(segments[k][1..])
  }

  /** The split, character by character: a boundary opens a new segment, any other character extends the last one. */
  function Split(name: string): (segments: seq<string>)
    ensures |segments| >= 1
  {
    if name == [] then [""]
    else
      var prefix := Split(name[..|name| - 1]);
      var c := name[|name| - 1];
      if IsOwnUpperCase(c) then prefix + [[c]]
      else prefix[..|prefix| - 1] + [prefix[|prefix| - 1] + [c]]
  }

  lemma ConcatAppend(segments: seq<string>, last: string)
    ensures Concat(segments + [last]) == Concat(segments) + last
  {
    assert (segments + [last])[..|segments|] == segments;
  }

  /** Joining the segments gives the name back. */
  lemma {:induction false} SplitRoundTrip(name: string)
    ensures Concat(Split(name)) == name
  {
    if name != [] {
      var init := name[..|name| - 1];
      var c := name[|name| - 1];
      var prefix := Split(init);
      SplitRoundTrip(init);
      assert name == init + [c];
      if IsOwnUpperCase(c) {
        ConcatAppend(prefix, [c]);
      } else {
        var front := prefix[..|prefix| - 1];
        var last := prefix[|prefix| - 1];
        assert prefix == front + [last];
        ConcatAppend(front, last);
        ConcatAppend(front, last + [c]);
      }
    }
  }

  /** There is one segment more than there are boundary characters. */
  lemma {:induction false} SplitCount(name: string)
    ensures |Split(name)| == 1 + BoundaryCount(name)
  {
    if name != [] {
      SplitCount(name[..|name| - 1]);
    }
  }

  /** Every segment after the first starts at a boundary and holds no other. */
  lemma {:induction false} SplitSegments(name: string)
    ensures WellSegmented(Split(name))
  {
    if name != [] {
      var init := name[..|name| - 1];
      SplitSegments(init);
      if IsOwnUpperCase(name[|name| - 1]) {
        OpenSegment(Split(init), name[|name| - 1]);
      } else {
        ExtendSegment(Split(init), name[|name| - 1]);
      }
    }
  }

  /** A boundary character opens a well-formed segment of its own. */
  lemma OpenSegment(segments: seq<string>, c: char)
    requires WellSegmented(segments) && IsOwnUpperCase(c)
    ensures WellSegmented(segments + [[c]])
  {
    var longer := segments + [[c]];
    forall j | 1 <= j < |longer|
      ensures |longer[j]| >= 1 && IsOwnUpperCase(longer[j][0]) && NoBoundary(longer[j][1..])
    {
      if j < |segments| {
        assert longer[j] == segments[j];
      }
    }
  }

  /** Any other character extends the last segment, which stays well-formed. */
  lemma ExtendSegment(segments: seq<string>, c: char)
    requires WellSegmented(segments) && !IsOwnUpperCase(c)
    ensures WellSegmented(segments[..|segments| - 1] + [segments[|segments| - 1] + [c]])
  {
    var k := |segments| - 1;
    var last := segments[k];
    var longer := segments[..k] + [last + [c]];
    forall j | 1 <= j < |longer|
      ensures |longer[j]| >= 1 && IsOwnUpperCase(longer[j][0]) && NoBoundary(longer[j][1..])
    {
      if j < k {
        assert longer[j] == segments[j];
      } else {
        assert longer[j][1..] == last[1..] + [c];
      }
    }
    if k == 0 {
      assert longer[0] == last + [c];
    } else {
      assert longer[0] == segments[0];
    }
  }

  /** A name that starts with a boundary character has an empty first segment. */
  lemma LeadingBoundary(name: string)
    requires |name| >= 1 && IsOwnUpperCase(name[0])
    ensures Split(name)[0] == ""
  {
    SplitRoundTrip(name);
    SplitSegments(name);
    ConcatPrefix(Split(name));
  }

  /** The first segment is where the concatenation starts. */
  lemma {:induction false} ConcatPrefix(segments: seq<string>)
    requires |segments| >= 1
    ensures segments[0] <= Concat(segments)
  {
    if |segments| > 1 {
      var init := segments[..|segments| - 1];
      ConcatPrefix(init);
    }
  }

  /**
   * `splitName`: walks the name once, closing the current word before every
   * boundary character.
   */
  method SplitName(name: string) returns (tokens: seq<string>)
    ensures tokens == Split(name)
  {
    tokens := [];
    var word := "";
    var i := 0;
    while i < |name|
      invariant 0 <= i <= |name|
      invariant Split(name[..i]) == tokens + [word]
    {
      var c := name[i];
      SplitSnoc(name, i);
      if IsOwnUpperCase(c) {
        tokens := tokens + [word];
        word := [c];
      } else {
        LastSegmentGrows(tokens, word, c);
        word := word + [c];
      }
      i := i + 1;
    }
    assert name[..i] == name;
    tokens := tokens + [word];
  }

  /** The split of one more character of the name, in terms of the split so far. */
  lemma SplitSnoc(name: string, i: nat)
    requires i < |name|
    ensures Split(name[..i + 1]) ==
      var prefix := Split(name[..i]);
      if IsOwnUpperCase(name[i]) then prefix + [[name[i]]]
      else prefix[..|prefix| - 1] + [prefix[|prefix| - 1] + [name[i]]]
  {
    assert name[..i + 1][..i] == name[..i];
  }

  lemma LastSegmentGrows(tokens: seq<string>, word: string, c: char)
    ensures var prefix := tokens + [word];
      prefix[..|prefix| - 1] + [prefix[|prefix| - 1] + [c]] == tokens + [word + [c]]
  {
    assert (tokens + [word])[..|tokens|] == tokens;
  }
}
