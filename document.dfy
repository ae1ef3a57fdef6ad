/** A possibly missing value, as Kotlin's nullable types and a map lookup give it. */
module Wrappers {
  datatype Option<+T> = None | Some(value: T)
}

/**
 * The document object graph that the template filler works on, reduced to what it
 * observes: the concrete class of each node, the ordered content of the nodes that
 * implement ContentAccessor, one layer of JAXBElement wrapping, and the mutable string
 * of org.docx4j.wml.Text.
 *
 * Node objects are identified by a NodeId, and the heap of node objects is a map from
 * ids to nodes. Two references to the same object are two occurrences of one id, so
 * updating a Text through one reference is seen through every other.
 */
module Document {
  import opened Wrappers

  type NodeId = nat

  /** The main document part's body is node 0. */
  const BodyId: NodeId := 0

  /** Concrete classes of ContentAccessor nodes: w:body, w:tbl, w:tr and any other (w:tc, w:p, w:r, ...). */
  datatype ContainerKind = Body | Tbl | Tr | OtherContainer(name: string)

  /** The runtime class of a node, as `javaClass` reports it. */
  datatype Class =
    | TextClass
    | WrapperClass
    | ContainerClass(kind: ContainerKind)
    | OpaqueClass(name: string)

  datatype Node =
    | Text(value: Option<string>)                      // org.docx4j.wml.Text; its value may be null
    | Container(kind: ContainerKind, content: seq<NodeId>)  // a ContentAccessor and its content list
    | Wrapper(inner: NodeId)                           // a JAXBElement and the object it holds
    | Opaque(name: string)                             // any other object: no content, no text

  type Store = map<NodeId, Node>

  function ClassOf(n: Node): Class {
    match n
    case Text(_) => TextClass
    case Container(k, _) => ContainerClass(k)
    case Wrapper(_) => WrapperClass
    case Opaque(name) => OpaqueClass(name)
  }

  /** The objects a node refers to: the content of a container, the value of a wrapper. */
  function Refs(n: Node): seq<NodeId> {
    match n
    case Container(_, content) => content
    case Wrapper(inner) => [inner]
    case _ => []
  }

  const EmptyTbl: Node := Container(Tbl, [])

  /**
   * The heap is closed (every reference is to a node of the heap), node 0 is a w:body,
   * and every reference goes to a larger id. The last condition says that the graph
   * is acyclic: any finite acyclic graph rooted at the body can be numbered so.
   */
  ghost predicate WellFormed(nodes: Store) {
    && BodyId in nodes
    && nodes[BodyId].Container? && nodes[BodyId].kind == Body
    && forall id, c {:trigger c in Refs(nodes[id])} :: id in nodes && c in Refs(nodes[id]) ==> c in nodes && id < c
  }

  /** The ids above `id`: the measure that recursion down the graph decreases. */
  ghost function Above(nodes: Store, id: NodeId): set<NodeId> {
    set k | k in nodes && id < k
  }

  lemma AboveShrinks(nodes: Store, a: NodeId, b: NodeId)
    requires b in nodes && a < b
    ensures Above(nodes, b) < Above(nodes, a)
  {
    assert b in Above(nodes, a) && b !in Above(nodes, b);
  }

  /** Child `j` of container `v`; it lies above `v`, which is what recursion down the graph needs. */
  function Child(nodes: Store, v: NodeId, j: nat): (c: NodeId)
    requires WellFormed(nodes) && v in nodes && nodes[v].Container? && j < |nodes[v].content|
    ensures c == nodes[v].content[j]
    ensures c in nodes && v < c && Above(nodes, c) < Above(nodes, v)
  {
    var c := nodes[v].content[j];
    assert c in Refs(nodes[v]);
    AboveShrinks(nodes, v, c);
    c
  }

  /** Lines 32-36 of UpdateWordTemplate.kt: a JAXBElement is looked through, once. */
  function Unwrap(nodes: Store, id: NodeId): (v: NodeId)
    requires WellFormed(nodes) && id in nodes
    ensures v in nodes && id <= v
    ensures nodes[id].Wrapper? ==> v == nodes[id].inner
    ensures !nodes[id].Wrapper? ==> v == id
  {
    if nodes[id].Wrapper? then
      assert nodes[id].inner in Refs(nodes[id]);
      nodes[id].inner
    else id
  }

  ghost predicate IsTable(nodes: Store, t: NodeId) {
    t in nodes && nodes[t].Container? && nodes[t].kind == Tbl
  }

  /** Two heaps agree on the classes and references of every node of the first from `lo` up. */
  ghost predicate AgreeFrom(n1: Store, n2: Store, lo: NodeId) {
    forall k {:trigger n1[k]} :: k in n1 && lo <= k ==> k in n2 && ClassOf(n1[k]) == ClassOf(n2[k]) && Refs(n1[k]) == Refs(n2[k])
  }

  lemma AgreeFromAbove(n1: Store, n2: Store, lo: NodeId, hi: NodeId)
    requires AgreeFrom(n1, n2, lo) && lo <= hi
    ensures AgreeFrom(n1, n2, hi)
  {
  }

  /** Same nodes with the same classes and references: only Text values may differ. */
  ghost predicate SameShape(n1: Store, n2: Store) {
    n1.Keys == n2.Keys && AgreeFrom(n1, n2, 0)
  }

  lemma SameShapeWellFormed(n1: Store, n2: Store)
    requires WellFormed(n1) && SameShape(n1, n2)
    ensures WellFormed(n2)
  {
    assert ClassOf(n2[BodyId]) == ContainerClass(Body);
    forall id, c | id in n2 && c in Refs(n2[id]) ensures c in n2 && id < c {
      assert c in Refs(n1[id]);
    }
  }

  lemma SameShapeTrans(a: Store, b: Store, c: Store)
    requires SameShape(a, b) && SameShape(b, c)
    ensures SameShape(a, c)
  {
  }

  /** Writing the value of a Text changes no class and no reference. */
  lemma TextWriteSameShape(nodes: Store, id: NodeId, v: Option<string>)
    requires id in nodes && nodes[id].Text?
    ensures SameShape(nodes, nodes[id := Text(v)])
  {
    assert ClassOf(nodes[id]) == ClassOf(Text(v));
  }

  /** The heap after `Tbl()` has allocated node `k`: the new table refers to nothing. */
  function Alloc(nodes: Store, k: NodeId): (r: Store)
    requires WellFormed(nodes) && k !in nodes
    ensures WellFormed(r) && r.Keys == nodes.Keys + {k} && r[k] == EmptyTbl
    ensures forall id {:trigger r[id]} :: id in nodes ==> r[id] == nodes[id]
    ensures AgreeFrom(nodes, r, 0)
  {
    var r := nodes[k := EmptyTbl];
    assert forall id, c :: id in r && c in Refs(r[id]) ==> id in nodes && c in Refs(nodes[id]);
    r
  }

  /** The heap after `addObject(t)`: the body's content list gains `t` at its end. */
  function Append(nodes: Store, t: NodeId): (r: Store)
    requires WellFormed(nodes) && t in nodes && t != BodyId
    ensures WellFormed(r) && r.Keys == nodes.Keys
    ensures r[BodyId] == Container(Body, nodes[BodyId].content + [t])
    ensures forall id {:trigger r[id]} :: id in nodes && id != BodyId ==> r[id] == nodes[id]
    ensures AgreeFrom(nodes, r, 1)
  {
    var r := nodes[BodyId := Container(Body, nodes[BodyId].content + [t])];
    assert forall id, c :: id in r && c in Refs(r[id]) && id != BodyId ==> c in Refs(nodes[id]);
    assert forall c :: c in Refs(r[BodyId]) ==> c == t || c in Refs(nodes[BodyId]);
    r
  }

  /**
   * The WordprocessingMLPackage: the heap of document nodes, the body at node 0, and
   * the next unused id, where `new Tbl()` allocates.
   */
  class Package {
    var nodes: Store
    var next: NodeId

    ghost predicate Valid()
      reads this
    {
      WellFormed(nodes) && forall k :: k in nodes ==> k < next
    }

    constructor (nodes: Store, next: NodeId)
      requires WellFormed(nodes) && forall k :: k in nodes ==> k < next
      ensures Valid() && this.nodes == nodes && this.next == next
    {
      this.nodes := nodes;
      this.next := next;
    }

    /** `Tbl()`: a fresh table object with an empty content list. */
    method NewTbl() returns (t: NodeId)
      requires Valid()
      modifies this
      ensures Valid()
      ensures t == old(next) && t !in old(nodes)
      ensures nodes == Alloc(old(nodes), t) && next == old(next) + 1
    {
      t := next;
      nodes := Alloc(nodes, t);
      next := next + 1;
    }

    /** `mainDocumentPart.addObject(o)`: append `o` to the content of the body. */
    method AddObject(o: NodeId)
      requires Valid() && o in nodes && o != BodyId
      modifies this
      ensures Valid() && next == old(next)
      ensures nodes == Append(old(nodes), o)
    {
      nodes := Append(nodes, o);
    }

    /** `textElement.value = v` */
    method SetText(id: NodeId, v: Option<string>)
      requires Valid() && id in nodes && nodes[id].Text?
      modifies this
      ensures Valid() && next == old(next)
      ensures nodes == old(nodes)[id := Text(v)]
    {
      TextWriteSameShape(nodes, id, v);
      nodes := nodes[id := Text(v)];
      SameShapeWellFormed(old(nodes), nodes);
    }
  }
}
