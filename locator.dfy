/**
 * The table locator (getTemplateTable) as ghost functions: whether a table
 * holds the reference token, and which table of a list is the first that does.
 */
module TableLocator {
  import opened Wrappers
  import opened Document
  import opened TreeSearch

  /** Line 134: some Text found under `t` has a non-null value equal to `token`. */
  ghost predicate HasToken(nodes: Store, t: NodeId, token: string)
    requires WellFormed(nodes) && t in nodes
  {
    var texts := Collect(nodes, t, TextClass);
    exists j :: 0 <= j < |texts| && nodes[texts[j]].value == Some(token)
  }

  ghost predicate AllTables(nodes: Store, tables: seq<NodeId>) {
    forall j :: 0 <= j < |tables| ==> IsTable(nodes, tables[j])
  }

  /**
   * The index of the table that getTemplateTable returns, or None when it returns the
   * fresh empty table: the first table holding the token, in list order.
   */
  ghost function Locate(nodes: Store, tables: seq<NodeId>, token: string): (r: Option<nat>)
    requires WellFormed(nodes) && AllTables(nodes, tables)
    ensures r.Some? ==> r.value < |tables| && HasToken(nodes, tables[r.value], token)
    ensures r.Some? ==> forall j :: 0 <= j < r.value ==> !HasToken(nodes, tables[j], token)
    ensures r.None? <==> forall j :: 0 <= j < |tables| ==> !HasToken(nodes, tables[j], token)
    decreases |tables|
  {
    if tables == [] then None
    else if HasToken(nodes, tables[0], token) then Some(0)
    else
      match Locate(nodes, tables[1..], token)
      case None => None
      case Some(k) => Some(k + 1)
  }

  /**
   * The table whose Text nodes `result` holds when getTemplateTable returns: the one
   * located, or the last one searched when none holds the token.
   */
  ghost function LocatedOrLast(nodes: Store, tables: seq<NodeId>, token: string): (i: nat)
    requires WellFormed(nodes) && AllTables(nodes, tables) && tables != []
    ensures i < |tables|
  {
    match Locate(nodes, tables, token)
    case Some(i) => i
    case None => |tables| - 1
  }

  /** The table getTemplateTable returns: the one located, or else `fallback`. */
  ghost function LocatedOr(nodes: Store, tables: seq<NodeId>, token: string, fallback: NodeId): (t: NodeId)
    requires WellFormed(nodes) && AllTables(nodes, tables)
    ensures Locate(nodes, tables, token).Some? ==> t == tables[Locate(nodes, tables, token).value]
    ensures Locate(nodes, tables, token).None? ==> t == fallback
  {
    match Locate(nodes, tables, token)
    case Some(i) => tables[i]
    case None => fallback
  }

  /** A scan of the Text nodes under `t` that meets no `token` shows that `t` does not hold it. */
  lemma ScannedWithoutToken(nodes: Store, t: NodeId, token: string, texts: seq<NodeId>)
    requires WellFormed(nodes) && t in nodes && texts == Collect(nodes, t, TextClass)
    requires !exists j :: 0 <= j < |texts| && nodes[texts[j]].value == Some(token)
    ensures !HasToken(nodes, t, token)
  {
  }

  /** The first table holding the token is the one located. */
  lemma LocateFirst(nodes: Store, tables: seq<NodeId>, token: string, i: nat)
    requires WellFormed(nodes) && AllTables(nodes, tables)
    requires i < |tables| && HasToken(nodes, tables[i], token)
    requires forall j :: 0 <= j < i ==> !HasToken(nodes, tables[j], token)
    ensures Locate(nodes, tables, token) == Some(i)
  {
  }

  /**
   * A table that holds the token has a non-empty content list, so the test
   * `tempTable.content.isEmpty()` at line 100 holds exactly when no table was located.
   */
  lemma TokenTableNotEmpty(nodes: Store, t: NodeId, token: string)
    requires WellFormed(nodes) && IsTable(nodes, t) && HasToken(nodes, t, token)
    ensures nodes[t].content != []
  {
    assert Collect(nodes, t, TextClass) != [];
    assert CollectChildren(nodes, t, |nodes[t].content|, TextClass) != [];
  }

  /** Allocating a node leaves every search and every Text value of the old nodes as it was. */
  lemma AllocFrame(nodes: Store, k: NodeId, x: Node, id: NodeId, target: Class)
    requires WellFormed(nodes) && k !in nodes && WellFormed(nodes[k := x]) && id in nodes
    ensures Collect(nodes[k := x], id, target) == Collect(nodes, id, target)
  {
    CollectFrame(nodes, nodes[k := x], id, target);
  }

  /** Allocating a node changes no answer of the locator. */
  lemma {:induction false} LocateAfterAlloc(nodes: Store, k: NodeId, x: Node, tables: seq<NodeId>, token: string)
    requires WellFormed(nodes) && k !in nodes && WellFormed(nodes[k := x]) && AllTables(nodes, tables)
    ensures AllTables(nodes[k := x], tables)
    ensures Locate(nodes[k := x], tables, token) == Locate(nodes, tables, token)
    decreases |tables|
  {
    if tables != [] {
      AllocFrame(nodes, k, x, tables[0], TextClass);
      assert HasToken(nodes[k := x], tables[0], token) == HasToken(nodes, tables[0], token);
      LocateAfterAlloc(nodes, k, x, tables[1..], token);
    }
  }
}
