/**
 * One structural element and its location
 * (refDiffTS/packages/refdiffts-core/src/CST/CSTNode.ts and CST/Location.ts).
 *
 * Nodes live in an arena owned by their tree (module Cst): `children`,
 * `calls` and `parent` hold arena indices instead of object references.
 */
module CstNode {
  import opened Wrappers

  /** The extent of a node: full span [begin, end) and body span [bodyBegin, bodyEnd). */
  datatype Location = Location(file: string, line: int, begin: int, end: int, bodyBegin: int, bodyEnd: int)
  {
    /** A body multiset is kept only for nodes whose body starts after the node itself. */
    predicate HasBody()
    {
      bodyBegin != begin
    }
  }

  /**
   * A node. `id` and `kind` (the source's `type`) are fixed at construction;
   * `localName`, `namespace`, `parameters` and `location` are set by the
   * front end; `children`, `calls` and `parent` change through the tree's
   * `AddChild` and `AddCall`.
   */
  datatype Node = Node(
    id: int,
    kind: string,
    localName: string,
    namespace: Option<string>,
    parameters: Option<seq<string>>,
    location: Location,
    children: seq<nat>,
    calls: set<nat>,
    parent: Option<nat>)
  {
    /** Everything but the links, which `AddChild` and `AddCall` never alter. */
    predicate SameAttributes(other: Node)
    {
      && id == other.id && kind == other.kind && localName == other.localName
      && namespace == other.namespace && parameters == other.parameters && location == other.location
    }
  }
}
