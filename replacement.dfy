/**
 * The orchestrator (replaceTable with createTable) as ghost functions: the
 * state the loop over the records carries, what one record does to it, and what is
 * proved about a step and about a whole run.
 */
module TableReplacement {
  import opened Wrappers
  import opened Document
  import opened TreeSearch
  import opened Substitution
  import opened TableLocator

  const TblClass: Class := ContainerClass(Tbl)
  const TrClass: Class := ContainerClass(Tr)

  /**
   * What the loop of lines 96-115 carries from one record to the next: the document
   * heap, the allocator, the local `tableToAdd` and the shared field `result`.
   */
  datatype LoopState = LoopState(nodes: Store, next: NodeId, tableToAdd: NodeId, result: seq<NodeId>)

  ghost predicate Inv(s: LoopState, tables: seq<NodeId>) {
    && WellFormed(s.nodes)
    && (forall k :: k in s.nodes ==> k < s.next)
    && IsTable(s.nodes, s.tableToAdd)
    && AllTables(s.nodes, tables)
  }

  /** The Text nodes found under each row in turn, as the calls of lines 111-113 collect them. */
  ghost function RowTexts(nodes: Store, rows: seq<NodeId>): (r: seq<NodeId>)
    requires WellFormed(nodes) && forall j :: 0 <= j < |rows| ==> rows[j] in nodes
    decreases |rows|
  {
    if rows == [] then []
    else RowTexts(nodes, rows[..|rows| - 1]) + Collect(nodes, rows[|rows| - 1], TextClass)
  }

  lemma {:induction false} RowTextsText(nodes: Store, rows: seq<NodeId>, k: NodeId)
    requires WellFormed(nodes) && forall j :: 0 <= j < |rows| ==> rows[j] in nodes
    requires k in RowTexts(nodes, rows)
    ensures k in nodes && nodes[k].Text?
    decreases |rows|
  {
    var row := rows[|rows| - 1];
    if k in Collect(nodes, row, TextClass) {
      var texts := Collect(nodes, row, TextClass);
      var i :| 0 <= i < |texts| && texts[i] == k;
      assert ClassOf(nodes[texts[i]]) == TextClass;
    } else {
      RowTextsText(nodes, rows[..|rows| - 1], k);
    }
  }

  /** A node among the row texts is found under one of the rows. */
  lemma {:induction false} RowTextsReach(nodes: Store, rows: seq<NodeId>, k: NodeId)
    requires WellFormed(nodes) && forall j :: 0 <= j < |rows| ==> rows[j] in nodes
    requires k in RowTexts(nodes, rows)
    ensures exists j :: 0 <= j < |rows| && Reaches(nodes, rows[j], k, TextClass)
    decreases |rows|
  {
    var row := rows[|rows| - 1];
    if k in Collect(nodes, row, TextClass) {
      CollectIffReaches(nodes, row, k, TextClass);
      assert Reaches(nodes, rows[|rows| - 1], k, TextClass);
    } else {
      var pre := rows[..|rows| - 1];
      RowTextsReach(nodes, pre, k);
      var j :| 0 <= j < |pre| && Reaches(nodes, pre[j], k, TextClass);
      assert pre[j] == rows[j];
    }
  }

  lemma {:induction false} RowTextsFrame(n1: Store, n2: Store, rows: seq<NodeId>)
    requires WellFormed(n1) && WellFormed(n2) && AgreeFrom(n1, n2, 1)
    requires forall j :: 0 <= j < |rows| ==> rows[j] in n1 && rows[j] > 0
    ensures RowTexts(n2, rows) == RowTexts(n1, rows)
    decreases |rows|
  {
    if rows != [] {
      RowTextsFrame(n1, n2, rows[..|rows| - 1]);
      CollectFrame(n1, n2, rows[|rows| - 1], TextClass);
    }
  }

  /**
   * Lines 111-113: replacePlaceholder on each row in turn with the same record list.
   * The document keeps its nodes, classes and references.
   */
  ghost function ReplaceRows(nodes: Store, rows: seq<NodeId>, records: seq<Record>, placeholders: seq<string>): (r: Store)
    requires WellFormed(nodes) && forall j :: 0 <= j < |rows| ==> rows[j] in nodes
    ensures SameShape(nodes, r) && WellFormed(r)
    decreases |rows|
  {
    if rows == [] then nodes
    else
      var n := ReplaceRows(nodes, rows[..|rows| - 1], records, placeholders);
      ReplaceRowsStep(nodes, rows, n, records, placeholders);
      ReplaceIn(n, rows[|rows| - 1], records, placeholders)
  }

  lemma ReplaceRowsStep(nodes: Store, rows: seq<NodeId>, n: Store, records: seq<Record>, placeholders: seq<string>)
    requires WellFormed(nodes) && |rows| > 0 && forall j :: 0 <= j < |rows| ==> rows[j] in nodes
    requires SameShape(nodes, n) && WellFormed(n)
    ensures rows[|rows| - 1] in n
    ensures var r := ReplaceIn(n, rows[|rows| - 1], records, placeholders);
            SameShape(nodes, r) && WellFormed(r)
  {
    var r := ReplaceIn(n, rows[|rows| - 1], records, placeholders);
    assert SameShape(n, r);
    SameShapeTrans(nodes, n, r);
    SameShapeWellFormed(nodes, r);
  }

  /** Filling the rows changes only Text nodes found under one of them. */
  lemma {:induction false} ReplaceRowsFrame(nodes: Store, rows: seq<NodeId>, records: seq<Record>, placeholders: seq<string>)
    requires WellFormed(nodes) && forall j :: 0 <= j < |rows| ==> rows[j] in nodes
    ensures var r := ReplaceRows(nodes, rows, records, placeholders);
            forall k :: k in nodes && k !in RowTexts(nodes, rows) ==> r[k] == nodes[k]
    decreases |rows|
  {
    if rows != [] {
      var pre := rows[..|rows| - 1];
      var row := rows[|rows| - 1];
      ReplaceRowsFrame(nodes, pre, records, placeholders);
      var n := ReplaceRows(nodes, pre, records, placeholders);
      CollectFrame(nodes, n, row, TextClass);
      assert RowTexts(nodes, rows) == RowTexts(nodes, pre) + Collect(nodes, row, TextClass);
    }
  }

  /**
   * After the rows are filled, a Text found `c` times among the rows' Text searches
   * has had `c` passes of substitution of its value.
   */
  lemma {:induction false} ReplaceRowsValue(nodes: Store, rows: seq<NodeId>, records: seq<Record>, placeholders: seq<string>, k: NodeId)
    requires WellFormed(nodes) && forall j :: 0 <= j < |rows| ==> rows[j] in nodes
    requires k in nodes && nodes[k].Text?
    ensures ReplaceRows(nodes, rows, records, placeholders)[k] ==
            Text(SubstIter(nodes[k].value, records, placeholders, multiset(RowTexts(nodes, rows))[k]))
    decreases |rows|
  {
    if rows != [] {
      ReplaceRowsValue(nodes, rows[..|rows| - 1], records, placeholders, k);
      ReplaceRowsValueStep(nodes, rows, ReplaceRows(nodes, rows[..|rows| - 1], records, placeholders), records, placeholders, k);
    }
  }

  lemma ReplaceRowsValueStep(nodes: Store, rows: seq<NodeId>, n: Store, records: seq<Record>, placeholders: seq<string>, k: NodeId)
    requires WellFormed(nodes) && rows != [] && forall j :: 0 <= j < |rows| ==> rows[j] in nodes
    requires k in nodes && nodes[k].Text?
    requires n == ReplaceRows(nodes, rows[..|rows| - 1], records, placeholders)
    requires n[k] == Text(SubstIter(nodes[k].value, records, placeholders, multiset(RowTexts(nodes, rows[..|rows| - 1]))[k]))
    ensures ReplaceRows(nodes, rows, records, placeholders)[k] ==
            Text(SubstIter(nodes[k].value, records, placeholders, multiset(RowTexts(nodes, rows))[k]))
  {
    ReplaceRowsLast(nodes, rows, records, placeholders);
    ReplaceInValue(n, rows[|rows| - 1], records, placeholders, k);
    RowTextsIter(nodes, rows, k, nodes[k].value, records, placeholders);
  }

  /** The last row is filled on the heap the earlier rows left, which still shows its Text nodes as before. */
  lemma ReplaceRowsLast(nodes: Store, rows: seq<NodeId>, records: seq<Record>, placeholders: seq<string>)
    requires WellFormed(nodes) && rows != [] && forall j :: 0 <= j < |rows| ==> rows[j] in nodes
    ensures var n := ReplaceRows(nodes, rows[..|rows| - 1], records, placeholders);
            && rows[|rows| - 1] in n
            && ReplaceRows(nodes, rows, records, placeholders) == ReplaceIn(n, rows[|rows| - 1], records, placeholders)
            && Collect(n, rows[|rows| - 1], TextClass) == Collect(nodes, rows[|rows| - 1], TextClass)
  {
    var n := ReplaceRows(nodes, rows[..|rows| - 1], records, placeholders);
    AgreeFromAbove(nodes, n, 0, rows[|rows| - 1]);
    CollectFrame(nodes, n, rows[|rows| - 1], TextClass);
  }

  /** The passes for the earlier rows followed by those for the last row are the passes for all rows. */
  lemma RowTextsIter(nodes: Store, rows: seq<NodeId>, k: NodeId, v: Option<string>, records: seq<Record>, placeholders: seq<string>)
    requires WellFormed(nodes) && rows != [] && forall j :: 0 <= j < |rows| ==> rows[j] in nodes
    ensures SubstIter(SubstIter(v, records, placeholders, multiset(RowTexts(nodes, rows[..|rows| - 1]))[k]),
                      records, placeholders, multiset(Collect(nodes, rows[|rows| - 1], TextClass))[k]) ==
            SubstIter(v, records, placeholders, multiset(RowTexts(nodes, rows))[k])
  {
    var c1, c2 := RowTextsCount(nodes, rows, k);
    IterAdd(v, records, placeholders, c1, c2, multiset(RowTexts(nodes, rows))[k]);
  }

  /** The count of `k` among the row texts is its count before the last row plus its count under that row. */
  lemma RowTextsCount(nodes: Store, rows: seq<NodeId>, k: NodeId) returns (c1: nat, c2: nat)
    requires WellFormed(nodes) && rows != [] && forall j :: 0 <= j < |rows| ==> rows[j] in nodes
    ensures c1 == multiset(RowTexts(nodes, rows[..|rows| - 1]))[k]
    ensures c2 == multiset(Collect(nodes, rows[|rows| - 1], TextClass))[k]
    ensures multiset(RowTexts(nodes, rows))[k] == c1 + c2
  {
    var pre: seq<NodeId> := RowTexts(nodes, rows[..|rows| - 1]);
    var texts: seq<NodeId> := Collect(nodes, rows[|rows| - 1], TextClass);
    assert RowTexts(nodes, rows) == pre + texts;
    assert multiset(pre + texts) == multiset(pre) + multiset(texts);
    c1, c2 := multiset(pre)[k], multiset(texts)[k];
  }

  /**
   * Filling one more row is one replacePlaceholder on the heap the earlier rows left,
   * and that heap still shows the row's Text nodes as before.
   */
  lemma ReplaceRowsSnoc(nodes: Store, rows: seq<NodeId>, i: nat, records: seq<Record>, placeholders: seq<string>)
    requires WellFormed(nodes) && i < |rows| && forall j :: 0 <= j < |rows| ==> rows[j] in nodes
    ensures var n := ReplaceRows(nodes, rows[..i], records, placeholders);
            && rows[i] in n
            && ReplaceRows(nodes, rows[..i + 1], records, placeholders) == ReplaceIn(n, rows[i], records, placeholders)
            && Collect(n, rows[i], TextClass) == Collect(nodes, rows[i], TextClass)
  {
    var n := ReplaceRows(nodes, rows[..i], records, placeholders);
    assert rows[..i + 1][..i] == rows[..i];
    CollectFrame(nodes, n, rows[i], TextClass);
  }

  /** The table a record works on: the located table, or else `tableToAdd` (lines 99-104). */
  ghost function Chosen(s: LoopState, tables: seq<NodeId>, token: string): (t: NodeId)
    requires Inv(s, tables)
    ensures IsTable(s.nodes, t)
  {
    match Locate(s.nodes, tables, token)
    case Some(k) => tables[k]
    case None => s.tableToAdd
  }

  /** A table keeps its class when only nodes other than the body may change shape. */
  lemma TableKept(n1: Store, n2: Store, t: NodeId)
    requires WellFormed(n1) && IsTable(n1, t) && AgreeFrom(n1, n2, 1)
    ensures IsTable(n2, t)
  {
    assert ClassOf(n2[t]) == ContainerClass(Tbl);
  }

  lemma TablesKept(n1: Store, n2: Store, tables: seq<NodeId>)
    requires WellFormed(n1) && AllTables(n1, tables) && AgreeFrom(n1, n2, 1)
    ensures AllTables(n2, tables)
  {
    forall j | 0 <= j < |tables| ensures IsTable(n2, tables[j]) {
      TableKept(n1, n2, tables[j]);
    }
  }

  /**
   * The heap once the table for a record is in place (lines 99-104): getTemplateTable
   * has allocated a table, and createTable has appended `tableToAdd` to the body when
   * no table holds the token.
   */
  ghost function Placed(s: LoopState, tables: seq<NodeId>, token: string): (n: Store)
    requires Inv(s, tables)
    ensures WellFormed(n) && n.Keys == s.nodes.Keys + {s.next}
    ensures AgreeFrom(s.nodes, n, 1)
    ensures forall k {:trigger n[k]} :: k in s.nodes && k != BodyId ==> n[k] == s.nodes[k]
    ensures AllTables(n, tables) && IsTable(n, Chosen(s, tables, token))
  {
    var grown := Alloc(s.nodes, s.next);
    var n := if Locate(s.nodes, tables, token).None? then Append(grown, s.tableToAdd) else grown;
    TablesKept(s.nodes, n, tables);
    TableKept(s.nodes, n, Chosen(s, tables, token));
    n
  }

  lemma RowsInPlaced(s: LoopState, tables: seq<NodeId>, token: string, n: Store, rows: seq<NodeId>)
    requires Inv(s, tables) && n == Placed(s, tables, token)
    requires rows == Collect(s.nodes, Chosen(s, tables, token), TrClass)
    ensures forall j :: 0 <= j < |rows| ==> rows[j] in n && rows[j] > 0
  {
    forall j | 0 <= j < |rows| ensures rows[j] in n && rows[j] > 0 {
      assert ClassOf(s.nodes[rows[j]]) == TrClass;
    }
  }

  /**
   * Lines 99-104 as the method sees them: after the allocation, the table
   * getTemplateTable returned has empty content exactly when createTable runs, and the
   * two branches give the heap and the table of Placed and Chosen.
   */
  lemma PlacedByBranch(s: LoopState, tables: seq<NodeId>, token: string)
    requires Inv(s, tables)
    ensures var grown := Alloc(s.nodes, s.next);
            var t := match Locate(s.nodes, tables, token)
                     case Some(i) => tables[i]
                     case None => s.next;
            && t in grown
            && (grown[t].content == [] ==>
                  Placed(s, tables, token) == Append(grown, s.tableToAdd) && Chosen(s, tables, token) == s.tableToAdd)
            && (grown[t].content != [] ==>
                  Placed(s, tables, token) == grown && Chosen(s, tables, token) == t)
  {
    LocatedEmptyIffNotFound(s, tables, token);
  }

  /**
   * One pass of the loop body (lines 97-114) for `record`: the table is placed, then
   * every row of the chosen table gets replacePlaceholder with the one-record list, and
   * `result` is what the last of those calls collected (empty without rows).
   */
  ghost function Step(s: LoopState, tables: seq<NodeId>, record: Record, placeholders: seq<string>): (s': LoopState)
    requires Inv(s, tables) && |placeholders| > 0
    ensures Inv(s', tables)
  {
    var chosen := Chosen(s, tables, placeholders[0]);
    var n := Placed(s, tables, placeholders[0]);
    var rows := Collect(s.nodes, chosen, TrClass);
    RowsInPlaced(s, tables, placeholders[0], n, rows);
    var n' := ReplaceRows(n, rows, [record], placeholders);
    assert AgreeFrom(n, n', 1);
    TablesKept(n, n', tables);
    TableKept(n, n', chosen);
    LoopState(n', s.next + 1, chosen,
              if rows == [] then [] else Collect(s.nodes, rows[|rows| - 1], TextClass))
  }

  /**
   * What one record writes into a Text: one substitution pass with `[record]` per time
   * the Text is found among the Text searches of the chosen table's rows, and so
   * exactly the substitution of its value when it is found once.
   */
  lemma StepFillsRowTexts(s: LoopState, tables: seq<NodeId>, record: Record, placeholders: seq<string>, k: NodeId)
    requires Inv(s, tables) && |placeholders| > 0
    requires k in s.nodes && s.nodes[k].Text?
    ensures var rows := Collect(s.nodes, Chosen(s, tables, placeholders[0]), TrClass);
            var c := multiset(RowTexts(s.nodes, rows))[k];
            && Step(s, tables, record, placeholders).nodes[k] == Text(SubstIter(s.nodes[k].value, [record], placeholders, c))
            && (c == 1 ==> Step(s, tables, record, placeholders).nodes[k] == Text(SubstValue(s.nodes[k].value, [record], placeholders)))
  {
    var n := Placed(s, tables, placeholders[0]);
    var rows := Collect(s.nodes, Chosen(s, tables, placeholders[0]), TrClass);
    RowsInPlaced(s, tables, placeholders[0], n, rows);
    RowTextsFrame(s.nodes, n, rows);
    assert n[k] == s.nodes[k];
    ReplaceRowsValue(n, rows, [record], placeholders, k);
    assert SubstIter(s.nodes[k].value, [record], placeholders, 1) == SubstValue(s.nodes[k].value, [record], placeholders);
  }

  /** A heap that agrees with `n1` on every node but the body shows the same Text nodes under `id`. */
  lemma TextsAgree(n1: Store, n2: Store, id: NodeId)
    requires WellFormed(n1) && WellFormed(n2) && AgreeFrom(n1, n2, 1) && id in n1 && id > 0
    ensures Collect(n2, id, TextClass) == Collect(n1, id, TextClass)
  {
    CollectFrame(n1, n2, id, TextClass);
  }

  /**
   * Such a heap also shows the same rows under a table, and the same Text nodes under
   * the last of them.
   */
  lemma RowsFrame(n1: Store, n2: Store, t: NodeId)
    requires WellFormed(n1) && WellFormed(n2) && AgreeFrom(n1, n2, 1) && t in n1 && t > 0
    ensures var rows := Collect(n1, t, TrClass);
            && Collect(n2, t, TrClass) == rows
            && (forall j :: 0 <= j < |rows| ==> rows[j] in n2)
            && (rows != [] ==> Collect(n2, rows[|rows| - 1], TextClass) == Collect(n1, rows[|rows| - 1], TextClass))
  {
    CollectFrame(n1, n2, t, TrClass);
    var rows := Collect(n1, t, TrClass);
    forall j | 0 <= j < |rows| ensures rows[j] in n2 {
      assert rows[j] in n1 && t <= rows[j];
    }
    if rows != [] {
      TextsAgree(n1, n2, rows[|rows| - 1]);
    }
  }

  /**
   * Step as the method computes it: the rows and the collected Text nodes read from
   * the heap once the table is placed, which gives the same rows and Text nodes.
   */
  lemma StepOnPlaced(s: LoopState, tables: seq<NodeId>, record: Record, placeholders: seq<string>)
    requires Inv(s, tables) && |placeholders| > 0
    ensures var n := Placed(s, tables, placeholders[0]);
            var chosen := Chosen(s, tables, placeholders[0]);
            var rows := Collect(n, chosen, TrClass);
            && (forall j :: 0 <= j < |rows| ==> rows[j] in n)
            && Step(s, tables, record, placeholders) ==
               LoopState(ReplaceRows(n, rows, [record], placeholders), s.next + 1, chosen,
                         if rows == [] then [] else Collect(n, rows[|rows| - 1], TextClass))
  {
    var chosen := Chosen(s, tables, placeholders[0]);
    assert chosen > 0;
    RowsFrame(s.nodes, Placed(s, tables, placeholders[0]), chosen);
  }

  /** The loop of lines 96-115 over `records`, each record a Step. */
  ghost function RunAll(s: LoopState, tables: seq<NodeId>, records: seq<Record>, placeholders: seq<string>): (r: LoopState)
    requires Inv(s, tables) && (|records| > 0 ==> |placeholders| > 0)
    ensures Inv(r, tables)
    decreases |records|
  {
    if records == [] then s
    else Step(RunAll(s, tables, records[..|records| - 1], placeholders), tables, records[|records| - 1], placeholders)
  }

  /** One more record is one more Step. */
  lemma RunAllSnoc(s: LoopState, tables: seq<NodeId>, records: seq<Record>, i: nat, placeholders: seq<string>)
    requires Inv(s, tables) && i < |records| && |placeholders| > 0
    ensures RunAll(s, tables, records[..i + 1], placeholders) ==
            Step(RunAll(s, tables, records[..i], placeholders), tables, records[i], placeholders)
  {
    assert records[..i + 1][..i] == records[..i];
  }

  /** Line 94: `tables` is the list `result` held, followed by the tables the body search appends. */
  ghost function Tables(nodes: Store, result: seq<NodeId>): (tables: seq<NodeId>)
    requires WellFormed(nodes)
    ensures result <= tables
    ensures forall j :: |result| <= j < |tables| ==> IsTable(nodes, tables[j])
  {
    var c := Collect(nodes, BodyId, TblClass);
    var tables := result + c;
    assert forall j :: |result| <= j < |tables| ==> tables[j] == c[j - |result|] && ClassOf(nodes[c[j - |result|]]) == TblClass;
    tables
  }

  /**
   * The state before the first record: line 94 has run, and line 95 has allocated
   * `tableToAdd`. When the entries `result` held were tables, the loop invariant holds.
   */
  ghost function Start(nodes: Store, next: NodeId, result: seq<NodeId>): (s: LoopState)
    requires WellFormed(nodes) && (forall k :: k in nodes ==> k < next)
    ensures AllTables(nodes, result) ==> Inv(s, Tables(nodes, result))
  {
    var tables := Tables(nodes, result);
    var n := Alloc(nodes, next);
    LoopState(n, next + 1, next, tables)
  }

  /**
   * What replaceTable (lines 89-117) leaves: document heap, allocator and `result`.
   * Without records the loop never runs, so the entries `result` held are never cast
   * to tables (line 99) and need not be tables.
   */
  ghost function ReplaceTableResult(nodes: Store, next: NodeId, result: seq<NodeId>,
                                    placeholders: seq<string>, records: seq<Record>): (r: LoopState)
    requires WellFormed(nodes) && (forall k :: k in nodes ==> k < next)
    requires |records| > 0 ==> |placeholders| > 0 && AllTables(nodes, result)
    ensures AllTables(nodes, result) ==> Inv(r, Tables(nodes, result))
    ensures records == [] ==>
              r.nodes == Alloc(nodes, next) && r.next == next + 1 &&
              r.result == result + Collect(nodes, BodyId, TblClass)
  {
    if records == [] then Start(nodes, next, result)
    else RunAll(Start(nodes, next, result), Tables(nodes, result), records, placeholders)
  }

  // ---------------------------------------------------------------------------
  // Properties

  /**
   * On a fresh instance (`result` empty) `tables` holds exactly the tables found from
   * the body without passing through another table, in document order.
   */
  lemma FreshInstanceTables(nodes: Store)
    requires WellFormed(nodes)
    ensures Tables(nodes, []) == Collect(nodes, BodyId, TblClass)
    ensures forall t :: t in Tables(nodes, []) <==> Reaches(nodes, BodyId, t, TblClass)
  {
    assert [] + Collect(nodes, BodyId, TblClass) == Collect(nodes, BodyId, TblClass);
    forall t ensures t in Tables(nodes, []) <==> Reaches(nodes, BodyId, t, TblClass) {
      CollectIffReaches(nodes, BodyId, t, TblClass);
    }
  }

  /**
   * The content test of line 100 is a not-found test: the table getTemplateTable
   * returns has empty content exactly when no table of `tables` holds the token.
   */
  lemma LocatedEmptyIffNotFound(s: LoopState, tables: seq<NodeId>, token: string)
    requires Inv(s, tables)
    ensures var grown := Alloc(s.nodes, s.next);
            var located := Locate(s.nodes, tables, token);
            var t := if located.Some? then tables[located.value] else s.next;
            grown[t].content == [] <==> located.None?
  {
    var located := Locate(s.nodes, tables, token);
    if located.Some? {
      TokenTableNotEmpty(s.nodes, tables[located.value], token);
    }
  }

  /**
   * One record changes the body's content list only when no table holds
   * placeholders[0], and then appends exactly `tableToAdd`; `tableToAdd` becomes the
   * located table when there is one.
   */
  lemma StepBody(s: LoopState, tables: seq<NodeId>, record: Record, placeholders: seq<string>)
    requires Inv(s, tables) && |placeholders| > 0
    ensures var s' := Step(s, tables, record, placeholders);
            var located := Locate(s.nodes, tables, placeholders[0]);
            && s'.nodes[BodyId].content ==
               s.nodes[BodyId].content + (if located.None? then [s.tableToAdd] else [])
            && s'.tableToAdd == (if located.None? then s.tableToAdd else tables[located.value])
  {
    var s' := Step(s, tables, record, placeholders);
    var n := Placed(s, tables, placeholders[0]);
    assert Refs(s'.nodes[BodyId]) == Refs(n[BodyId]);
  }

  /**
   * One record allocates one node and otherwise changes only Text nodes found under
   * the rows of the chosen table; the body changes only by the append of StepBody.
   */
  lemma StepTouchesOnlyRowTexts(s: LoopState, tables: seq<NodeId>, record: Record, placeholders: seq<string>)
    requires Inv(s, tables) && |placeholders| > 0
    ensures var s' := Step(s, tables, record, placeholders);
            var rows := Collect(s.nodes, Chosen(s, tables, placeholders[0]), TrClass);
            && s'.nodes.Keys == s.nodes.Keys + {s.next}
            && s'.next == s.next + 1
            && forall k :: k in s.nodes && k != BodyId && s'.nodes[k] != s.nodes[k] ==>
                 s.nodes[k].Text? && exists j :: 0 <= j < |rows| && Reaches(s.nodes, rows[j], k, TextClass)
  {
    var s' := Step(s, tables, record, placeholders);
    var n := Placed(s, tables, placeholders[0]);
    var rows := Collect(s.nodes, Chosen(s, tables, placeholders[0]), TrClass);
    RowsInPlaced(s, tables, placeholders[0], n, rows);
    RowTextsFrame(s.nodes, n, rows);
    ReplaceRowsFrame(n, rows, [record], placeholders);
    forall k | k in s.nodes && k != BodyId && s'.nodes[k] != s.nodes[k]
      ensures s.nodes[k].Text? && exists j :: 0 <= j < |rows| && Reaches(s.nodes, rows[j], k, TextClass)
    {
      assert n[k] == s.nodes[k];
      assert k in RowTexts(s.nodes, rows);
      RowTextsText(s.nodes, rows, k);
      RowTextsReach(s.nodes, rows, k);
    }
  }

  /**
   * When no table holds the token and `tableToAdd` is empty (the table of line 95,
   * before any table was located), the record adds that empty table to the body and
   * changes nothing else: no row, so no substitution.
   */
  lemma MissingTableRecord(s: LoopState, tables: seq<NodeId>, record: Record, placeholders: seq<string>)
    requires Inv(s, tables) && |placeholders| > 0
    requires Locate(s.nodes, tables, placeholders[0]).None? && s.nodes[s.tableToAdd].content == []
    ensures Step(s, tables, record, placeholders).nodes == Append(Alloc(s.nodes, s.next), s.tableToAdd)
    ensures Step(s, tables, record, placeholders).result == []
  {
    assert Collect(s.nodes, s.tableToAdd, TrClass) == [];
  }

  /** `tableToAdd` is always the table of line 95 or one of `tables`. */
  lemma {:induction false} TableToAddProvenance(s: LoopState, tables: seq<NodeId>, records: seq<Record>, placeholders: seq<string>)
    requires Inv(s, tables) && (|records| > 0 ==> |placeholders| > 0)
    ensures var r := RunAll(s, tables, records, placeholders);
            r.tableToAdd == s.tableToAdd || r.tableToAdd in tables
    decreases |records|
  {
    if records != [] {
      var records' := records[..|records| - 1];
      TableToAddProvenance(s, tables, records', placeholders);
      StepBody(RunAll(s, tables, records', placeholders), tables, records[|records| - 1], placeholders);
    }
  }

  /**
   * Once a record has used a located table, if no table holds the token for the next
   * record, that record appends the same, already filled, table to the body again.
   */
  lemma ReappendAfterMatch(s: LoopState, tables: seq<NodeId>, r1: Record, r2: Record, placeholders: seq<string>)
    requires Inv(s, tables) && |placeholders| > 0
    requires Locate(s.nodes, tables, placeholders[0]).Some?
    requires Locate(Step(s, tables, r1, placeholders).nodes, tables, placeholders[0]).None?
    ensures var s1 := Step(s, tables, r1, placeholders);
            var t := tables[Locate(s.nodes, tables, placeholders[0]).value];
            Step(s1, tables, r2, placeholders).nodes[BodyId].content == s.nodes[BodyId].content + [t]
  {
    var s1 := Step(s, tables, r1, placeholders);
    StepBody(s, tables, r1, placeholders);
    StepBody(s1, tables, r2, placeholders);
  }
}
