/**
 * Tree nodes and pages as values. A paged node refers to other nodes only by
 * page id; the in-memory tree reuses the same shape with object handles in
 * place of page ids (see MemTree).
 */
module Nodes {
  import opened Wrappers
  import opened Bytes

  /** PagedLeafNode / PagedInternalNode without their PageId, which is the page they live in. */
  datatype Node =
    | Leaf(keys: seq<int>, values: seq<Value>, next: Option<int>)
    | Internal(keys: seq<int>, children: seq<int>)

  /** The page-type byte of a page header. */
  const LeafType: byte := 0
  const InternalType: byte := 1

  /** Page.PageSize and the payload bound WritePage enforces. */
  const PageSize: int := 4096
  const MaxPayload: int := PageSize - 5

  /** A page: id, type byte, payload. */
  datatype Page = Page(pageId: int, kind: byte, data: seq<byte>)

  function TypeOf(n: Node): byte {
    if n.Leaf? then LeafType else InternalType
  }

  /** The shape every operation keeps: one value per leaf key, one more child than keys. */
  predicate ShapeOk(n: Node) {
    match n
    case Leaf(keys, values, _) => |values| == |keys|
    case Internal(keys, children) => |children| == |keys| + 1
  }

  predicate StrictlyAscending(keys: seq<int>) {
    forall i, j :: 0 <= i < j < |keys| ==> keys[i] < keys[j]
  }

  /** The empty leaf a tree starts with. */
  const EmptyLeaf: Node := Leaf([], [], None)
}
