/**
 * Tree search (getAllElementsFromObject) as ghost functions: the sequence of
 * nodes the search appends to the shared accumulator, and what is proved about it.
 */
module TreeSearch {
  import opened Document

  /**
   * The nodes that a search from `id` for class `target` appends, in order: the node
   * itself (after unwrapping one JAXBElement) when its class is the target, otherwise
   * the results of its children in content order when it is a container, otherwise
   * nothing.
   */
  ghost function Collect(nodes: Store, id: NodeId, target: Class): (r: seq<NodeId>)
    requires WellFormed(nodes) && id in nodes
    ensures forall j :: 0 <= j < |r| ==> r[j] in nodes && ClassOf(nodes[r[j]]) == target && id <= r[j]
    decreases Above(nodes, id), 1
  {
    var v := Unwrap(nodes, id);
    if ClassOf(nodes[v]) == target then [v]
    else if nodes[v].Container? then CollectChildren(nodes, v, |nodes[v].content|, target)
    else []
  }

  /** What the search appends for the first `n` children of container `v`. */
  ghost function CollectChildren(nodes: Store, v: NodeId, n: nat, target: Class): (r: seq<NodeId>)
    requires WellFormed(nodes) && v in nodes && nodes[v].Container? && n <= |nodes[v].content|
    ensures forall j :: 0 <= j < |r| ==> r[j] in nodes && ClassOf(nodes[r[j]]) == target && v < r[j]
    decreases Above(nodes, v), 0, n
  {
    if n == 0 then []
    else
      CollectChildren(nodes, v, n - 1, target) + Collect(nodes, Child(nodes, v, n - 1), target)
  }

  /** Concatenation is associative; stated once so that accumulating loops do not re-derive it. */
  lemma AppendAssoc(a: seq<NodeId>, b: seq<NodeId>, c: seq<NodeId>)
    ensures (a + b) + c == a + (b + c)
  {
  }

  /** Extending a prefix by one element. */
  lemma TakeSnoc(s: seq<NodeId>, i: nat)
    requires i < |s|
    ensures s[..i + 1] == s[..i] + [s[i]]
  {
  }

  /**
   * Reference definition of membership: `m` is found from `id` when `m` is `id`
   * (unwrapped) and has the target class, or `id` (unwrapped) does not have the
   * target class, is a container, and `m` is found from one of its children. A node
   * is never found through a node of the target class.
   */
  ghost predicate Reaches(nodes: Store, id: NodeId, m: NodeId, target: Class)
    requires WellFormed(nodes) && id in nodes
    decreases Above(nodes, id)
  {
    var v := Unwrap(nodes, id);
    if ClassOf(nodes[v]) == target then m == v
    else
      nodes[v].Container? &&
      exists j :: 0 <= j < |nodes[v].content| && Reaches(nodes, Child(nodes, v, j), m, target)
  }

  /** The search collects exactly the nodes that are found from its start. */
  lemma {:induction false} CollectIffReaches(nodes: Store, id: NodeId, m: NodeId, target: Class)
    requires WellFormed(nodes) && id in nodes
    ensures m in Collect(nodes, id, target) <==> Reaches(nodes, id, m, target)
    decreases Above(nodes, id), 1
  {
    var v := Unwrap(nodes, id);
    if ClassOf(nodes[v]) != target && nodes[v].Container? {
      CollectChildrenIffReaches(nodes, v, |nodes[v].content|, m, target);
    }
  }

  lemma {:induction false} CollectChildrenIffReaches(nodes: Store, v: NodeId, n: nat, m: NodeId, target: Class)
    requires WellFormed(nodes) && v in nodes && nodes[v].Container? && n <= |nodes[v].content|
    ensures m in CollectChildren(nodes, v, n, target) <==>
            exists j :: 0 <= j < n && Reaches(nodes, Child(nodes, v, j), m, target)
    decreases Above(nodes, v), 0, n
  {
    if n > 0 {
      var c := Child(nodes, v, n - 1);
      CollectChildrenIffReaches(nodes, v, n - 1, m, target);
      CollectIffReaches(nodes, c, m, target);
      assert CollectChildren(nodes, v, n, target) == CollectChildren(nodes, v, n - 1, target) + Collect(nodes, c, target);
      if m in CollectChildren(nodes, v, n, target) {
        if m in CollectChildren(nodes, v, n - 1, target) {
          var j :| 0 <= j < n - 1 && Reaches(nodes, Child(nodes, v, j), m, target);
          assert 0 <= j < n;
        } else {
          assert Reaches(nodes, Child(nodes, v, n - 1), m, target);
        }
      } else {
        forall j | 0 <= j < n ensures !Reaches(nodes, Child(nodes, v, j), m, target) {
          if j == n - 1 {
            assert m !in Collect(nodes, c, target);
          }
        }
      }
    }
  }

  /**
   * A node of the target class is a leaf of the search: searching from it yields it
   * alone, so nothing nested inside it is collected through it.
   */
  lemma NoDescentBelowMatch(nodes: Store, id: NodeId, target: Class)
    requires WellFormed(nodes) && id in nodes
    requires ClassOf(nodes[Unwrap(nodes, id)]) == target
    ensures Collect(nodes, id, target) == [Unwrap(nodes, id)]
    ensures forall m :: Reaches(nodes, id, m, target) <==> m == Unwrap(nodes, id)
  {
  }

  /**
   * Children are searched in content order: the results for the children before
   * child `i` come first, then those of child `i`, and those are a prefix of what
   * the whole container yields.
   */
  lemma {:induction false} ChildrenInOrder(nodes: Store, v: NodeId, i: nat, n: nat, target: Class)
    requires WellFormed(nodes) && v in nodes && nodes[v].Container?
    requires i < n <= |nodes[v].content|
    ensures CollectChildren(nodes, v, i, target) + Collect(nodes, Child(nodes, v, i), target)
            <= CollectChildren(nodes, v, n, target)
    decreases n
  {
    if i < n - 1 {
      ChildrenInOrder(nodes, v, i, n - 1, target);
    }
  }

  /** A search from a non-matching container is the concatenation of its children's searches. */
  lemma ContainerSearch(nodes: Store, id: NodeId, target: Class)
    requires WellFormed(nodes) && id in nodes
    requires !nodes[id].Wrapper? && nodes[id].Container? && ClassOf(nodes[id]) != target
    ensures Collect(nodes, id, target) == CollectChildren(nodes, id, |nodes[id].content|, target)
  {
  }

  /** A node that neither has the target class nor is a container adds nothing. */
  lemma NothingFromOtherLeaves(nodes: Store, id: NodeId, target: Class)
    requires WellFormed(nodes) && id in nodes
    requires ClassOf(nodes[Unwrap(nodes, id)]) != target && !nodes[Unwrap(nodes, id)].Container?
    ensures Collect(nodes, id, target) == []
  {
  }

  /**
   * The search only depends on the classes and references of the nodes at and above
   * its start: changing Text values, adding nodes, or changing nodes below the start
   * (the body, when searching a table) leave it unchanged.
   */
  lemma {:induction false} CollectFrame(n1: Store, n2: Store, id: NodeId, target: Class)
    requires WellFormed(n1) && WellFormed(n2) && id in n1 && AgreeFrom(n1, n2, id)
    ensures Collect(n1, id, target) == Collect(n2, id, target)
    decreases Above(n1, id), 1
  {
    var v := Unwrap(n1, id);
    assert v == Unwrap(n2, id) by {
      assert ClassOf(n1[id]) == ClassOf(n2[id]) && Refs(n1[id]) == Refs(n2[id]);
    }
    assert ClassOf(n1[v]) == ClassOf(n2[v]) && Refs(n1[v]) == Refs(n2[v]);
    if ClassOf(n1[v]) != target && n1[v].Container? {
      CollectChildrenFrame(n1, n2, id, v, |n1[v].content|, target);
    }
  }

  lemma {:induction false} CollectChildrenFrame(n1: Store, n2: Store, id: NodeId, v: NodeId, n: nat, target: Class)
    requires WellFormed(n1) && WellFormed(n2) && id in n1 && AgreeFrom(n1, n2, id)
    requires v in n1 && id <= v && n1[v].Container? && n2[v].Container?
    requires n1[v].content == n2[v].content && n <= |n1[v].content|
    ensures CollectChildren(n1, v, n, target) == CollectChildren(n2, v, n, target)
    decreases Above(n1, v), 0, n
  {
    if n > 0 {
      var c := Child(n1, v, n - 1);
      assert c == Child(n2, v, n - 1);
      CollectChildrenFrame(n1, n2, id, v, n - 1, target);
      AgreeFromAbove(n1, n2, id, c);
      CollectFrame(n1, n2, c, target);
      assert CollectChildren(n1, v, n, target) == CollectChildren(n1, v, n - 1, target) + Collect(n1, c, target);
      assert CollectChildren(n2, v, n, target) == CollectChildren(n2, v, n - 1, target) + Collect(n2, c, target);
    }
  }
}
