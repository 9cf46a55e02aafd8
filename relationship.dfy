/**
 * The typed outcome of comparing an optional before-node with an optional
 * after-node (refDiffTS/packages/refdiffts-core/src/Diff/Relationship.ts).
 */
module Relationships {
  import opened Wrappers

  /** The enumeration, in declaration order. */
  datatype RelationshipType =
    | Same | ConvertType | PullUp | PushDown | ChangeSignature | Move | Rename | MoveAndRename
    | ExtractSuperType | Extract | ExtractAndMove | Inline
    | Added | Removed

  /** The numeric value the enumeration gives each member: its declaration position. */
  function Ordinal(t: RelationshipType): (n: nat)
    ensures n < 14
  {
    match t
    case Same => 0
    case ConvertType => 1
    case PullUp => 2
    case PushDown => 3
    case ChangeSignature => 4
    case Move => 5
    case Rename => 6
    case MoveAndRename => 7
    case ExtractSuperType => 8
    case Extract => 9
    case ExtractAndMove => 10
    case Inline => 11
    case Added => 12
    case Removed => 13
  }

  /**
   * The inclusive range check the consumers use to flag relationships with no
   * one-to-one structural correspondence.
   */
  predicate IsNonMatching(t: RelationshipType)
  {
    Ordinal(ExtractSuperType) <= Ordinal(t) <= Ordinal(Inline)
  }

  /** Distinct members have distinct ordinals, so the ordinals are a total order on the members. */
  lemma OrdinalInjective(s: RelationshipType, t: RelationshipType)
    ensures Ordinal(s) == Ordinal(t) <==> s == t
  {
  }

  /** The range check selects exactly the four non-matching kinds. */
  lemma NonMatchingRange(t: RelationshipType)
    ensures IsNonMatching(t) <==> t in {ExtractSuperType, Extract, ExtractAndMove, Inline}
  {
  }

  /** `added` and `removed` lie above the non-matching range, the matching kinds below it. */
  lemma RangeNeighbours(t: RelationshipType)
    ensures t in {Added, Removed} ==> Ordinal(t) > Ordinal(Inline)
    ensures Ordinal(t) < Ordinal(ExtractSuperType) <==>
              t in {Same, ConvertType, PullUp, PushDown, ChangeSignature, Move, Rename, MoveAndRename}
  {
  }

  /**
   * An immutable relationship record. Nodes are arena indices: `before` into
   * the before-tree, `after` into the after-tree. `kind` is optional because the
   * classification of a confirmed match may be undefined and is stored unchecked.
   */
  datatype Relationship = Relationship(before: Option<nat>, after: Option<nat>, kind: Option<RelationshipType>)
  {
    /** At least one side is present. */
    predicate HasSide()
    {
      before.Some? || after.Some?
    }
  }
}
