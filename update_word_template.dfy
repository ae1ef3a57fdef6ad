/**
 * The class UpdateWordTemplate itself: the shared list `result` as a field, and every
 * operation as a method that walks and updates the package the way the Kotlin code
 * does, each proved equal to the ghost functions of the other modules.
 */
module WordTemplate {
  import opened Wrappers
  import opened Document
  import opened TreeSearch
  import opened Substitution
  import opened TableLocator
  import opened TableReplacement

  /** A second write to the same Text replaces the first. */
  lemma Overwrite(m: Store, k: NodeId, a: Node, b: Node)
    ensures m[k := a][k := b] == m[k := b]
  {
  }

  class UpdateWordTemplate {
    /** The list every search appends to; searches return it, and several callers reset it. */
    var result: seq<NodeId>

    constructor ()
      ensures result == []
    {
      result := [];
    }

    /**
     * getAllElementsFromObject: appends to `result` every node of class `toSearch`
     * found from `obj`, looking through one JAXBElement and descending through
     * ContentAccessor content, and returns the whole list. The search only reads the
     * package's nodes, so it takes them as a value.
     */
    method GetAllElementsFromObject(nodes: Store, obj: NodeId, toSearch: Class) returns (found: seq<NodeId>)
      requires WellFormed(nodes) && obj in nodes
      modifies this
      ensures result == old(result) + Collect(nodes, obj, toSearch)
      ensures found == result
      decreases Above(nodes, obj)
    {
      var objValue := obj;
      if nodes[obj].Wrapper? {
        objValue := nodes[obj].inner;
        assert objValue in Refs(nodes[obj]);
        AboveShrinks(nodes, obj, objValue);
      }
      assert objValue == Unwrap(nodes, obj);
      if ClassOf(nodes[objValue]) == toSearch {
        result := result + [objValue];
        return result;
      } else if nodes[objValue].Container? {
        ghost var r0 := result;
        assert r0 + [] == r0;
        var children := nodes[objValue].content;
        for i := 0 to |children|
          invariant result == r0 + CollectChildren(nodes, objValue, i, toSearch)
        {
          var child := Child(nodes, objValue, i);
          assert Above(nodes, child) < Above(nodes, obj);
          AppendAssoc(r0, CollectChildren(nodes, objValue, i, toSearch), Collect(nodes, child, toSearch));
          var _ := GetAllElementsFromObject(nodes, child, toSearch);
        }
      } else {
        assert old(result) + [] == old(result);
      }
      return result;
    }

    /**
     * replacePlaceholder: resets `result`, collects the Text nodes under `obj`, and
     * substitutes each of them in turn.
     */
    method ReplacePlaceholder(pkg: Package, obj: NodeId, valuesToAdd: seq<Record>, placeholders: seq<string>)
      requires pkg.Valid() && obj in pkg.nodes
      modifies this, pkg
      ensures pkg.Valid() && pkg.next == old(pkg.next)
      ensures result == Collect(old(pkg.nodes), obj, TextClass)
      ensures pkg.nodes == ReplaceIn(old(pkg.nodes), obj, valuesToAdd, placeholders)
    {
      result := [];
      var columns := GetAllElementsFromObject(pkg.nodes, obj, TextClass);
      CollectedTexts(pkg.nodes, obj);
      SubstituteAll(pkg, columns, valuesToAdd, placeholders);
    }

    /** Lines 60-69: every collected Text in turn is substituted. */
    method SubstituteAll(pkg: Package, columns: seq<NodeId>, valuesToAdd: seq<Record>, placeholders: seq<string>)
      requires pkg.Valid() && AllText(pkg.nodes, columns)
      modifies pkg
      ensures pkg.Valid() && pkg.next == old(pkg.next)
      ensures pkg.nodes == SetTexts(old(pkg.nodes), columns, valuesToAdd, placeholders)
    {
      ghost var n0 := pkg.nodes;
      for i := 0 to |columns|
        invariant pkg.Valid() && pkg.next == old(pkg.next)
        invariant AllText(n0, columns[..i])
        invariant pkg.nodes == SetTexts(n0, columns[..i], valuesToAdd, placeholders)
      {
        var textElement := columns[i];
        TakeSnoc(columns, i);
        AllTextPrefix(n0, columns, i + 1);
        SetTextsSnoc(n0, columns[..i], textElement, valuesToAdd, placeholders);
        SubstituteText(pkg, textElement, valuesToAdd, placeholders);
      }
      assert columns[..|columns|] == columns;
    }

    /**
     * Lines 62-67 for one Text: each placeholder in turn is compared with the current
     * value and, when equal, the records are written.
     */
    method SubstituteText(pkg: Package, textElement: NodeId, valuesToAdd: seq<Record>, placeholders: seq<string>)
      requires pkg.Valid() && textElement in pkg.nodes && pkg.nodes[textElement].Text?
      modifies pkg
      ensures pkg.Valid() && pkg.next == old(pkg.next)
      ensures pkg.nodes == old(pkg.nodes)[textElement :=
                Text(SubstValue(old(pkg.nodes)[textElement].value, valuesToAdd, placeholders))]
    {
      ghost var m := pkg.nodes;
      assert placeholders[..0] == [];
      assert m == m[textElement := Text(m[textElement].value)];
      for k := 0 to |placeholders|
        invariant pkg.Valid() && pkg.next == old(pkg.next)
        invariant pkg.nodes == m[textElement := Text(SubstValue(m[textElement].value, valuesToAdd, placeholders[..k]))]
      {
        var placeholder := placeholders[k];
        ghost var w := SubstValue(m[textElement].value, valuesToAdd, placeholders[..k]);
        assert placeholders[..k + 1][..k] == placeholders[..k];
        if pkg.nodes[textElement].value == Some(placeholder) {
          WriteValues(pkg, textElement, valuesToAdd, placeholder);
          Overwrite(m, textElement, Text(w), Text(WriteRecords(w, valuesToAdd, placeholder)));
        }
      }
      assert placeholders[..|placeholders|] == placeholders;
    }

    /** Lines 64-66: every record in turn writes its entry for `placeholder`, so the last one stays. */
    method WriteValues(pkg: Package, textElement: NodeId, valuesToAdd: seq<Record>, placeholder: string)
      requires pkg.Valid() && textElement in pkg.nodes && pkg.nodes[textElement].Text?
      modifies pkg
      ensures pkg.Valid() && pkg.next == old(pkg.next)
      ensures pkg.nodes == old(pkg.nodes)[textElement :=
                Text(WriteRecords(old(pkg.nodes)[textElement].value, valuesToAdd, placeholder))]
    {
      ghost var m := pkg.nodes;
      ghost var w := m[textElement].value;
      assert valuesToAdd[..0] == [];
      assert m == m[textElement := Text(w)];
      for r := 0 to |valuesToAdd|
        invariant pkg.Valid() && pkg.next == old(pkg.next)
        invariant pkg.nodes == m[textElement := Text(WriteRecords(w, valuesToAdd[..r], placeholder))]
      {
        var value := Lookup(valuesToAdd[r], placeholder);
        Overwrite(m, textElement, Text(WriteRecords(w, valuesToAdd[..r], placeholder)), Text(value));
        assert WriteRecords(w, valuesToAdd[..r + 1], placeholder) == value;
        pkg.SetText(textElement, value);
      }
      assert valuesToAdd[..|valuesToAdd|] == valuesToAdd;
    }

    /**
     * getTemplateTable: allocates an empty table, then returns the first of `tables`
     * with a Text whose value is `token`, or the empty table when there is none.
     * Each table searched resets `result` first.
     */
    method GetTemplateTable(pkg: Package, tables: seq<NodeId>, token: string) returns (templateTable: NodeId)
      requires pkg.Valid() && AllTables(pkg.nodes, tables)
      modifies this, pkg
      ensures pkg.Valid()
      ensures pkg.nodes == Alloc(old(pkg.nodes), old(pkg.next)) && pkg.next == old(pkg.next) + 1
      ensures templateTable == LocatedOr(old(pkg.nodes), tables, token, old(pkg.next))
      ensures tables == [] ==> result == old(result)
      ensures tables != [] ==> result == Collect(old(pkg.nodes), tables[LocatedOrLast(old(pkg.nodes), tables, token)], TextClass)
    {
      ghost var n0 := pkg.nodes;
      templateTable := pkg.NewTbl();
      LocateAfterAlloc(n0, templateTable, EmptyTbl, tables, token);
      templateTable := FindTemplateTable(pkg.nodes, tables, token, templateTable);
      if tables != [] {
        AllocFrame(n0, old(pkg.next), EmptyTbl, tables[LocatedOrLast(n0, tables, token)], TextClass);
      }
    }

    /**
     * Lines 127-141: the loop of getTemplateTable over `tables`, which returns the first
     * table holding `token`, or `fallback` (the table allocated at line 126) after the
     * last one.
     */
    method FindTemplateTable(nodes: Store, tables: seq<NodeId>, token: string, fallback: NodeId)
      returns (templateTable: NodeId)
      requires WellFormed(nodes) && AllTables(nodes, tables)
      modifies this
      ensures templateTable == LocatedOr(nodes, tables, token, fallback)
      ensures tables == [] ==> result == old(result)
      ensures tables != [] ==> result == Collect(nodes, tables[LocatedOrLast(nodes, tables, token)], TextClass)
    {
      templateTable := fallback;
      for i := 0 to |tables|
        invariant templateTable == fallback
        invariant forall j :: 0 <= j < i ==> !HasToken(nodes, tables[j], token)
        invariant i == 0 ==> result == old(result)
        invariant i > 0 ==> result == Collect(nodes, tables[i - 1], TextClass)
      {
        var table := tables[i];
        var found := ScanTable(nodes, table, token);
        if found {
          LocateFirst(nodes, tables, token, i);
          return table;
        }
      }
    }

    /**
     * Lines 129-139, one turn of the loop of getTemplateTable: reset `result`, collect
     * the Text nodes of `table` into it, and test them for `token`.
     */
    method ScanTable(nodes: Store, table: NodeId, token: string) returns (found: bool)
      requires WellFormed(nodes) && table in nodes
      modifies this
      ensures found == HasToken(nodes, table, token)
      ensures result == Collect(nodes, table, TextClass)
    {
      result := [];
      var textElements := GetAllElementsFromObject(nodes, table, TextClass);
      assert textElements == Collect(nodes, table, TextClass);
      CollectedTexts(nodes, table);
      found := HoldsToken(nodes, textElements, token);
      if !found {
        ScannedWithoutToken(nodes, table, token, textElements);
      }
    }

    /**
     * Lines 132-139: whether one of the Text nodes has a non-null value equal to
     * `token`; the loop stops at the first one.
     */
    method HoldsToken(nodes: Store, textElements: seq<NodeId>, token: string) returns (found: bool)
      requires AllText(nodes, textElements)
      ensures found <==> exists j :: 0 <= j < |textElements| && nodes[textElements[j]].value == Some(token)
    {
      for k := 0 to |textElements|
        invariant forall q :: 0 <= q < k ==> nodes[textElements[q]].value != Some(token)
      {
        var textElement := textElements[k];
        if nodes[textElement].value.Some? && nodes[textElement].value.value == token {
          return true;
        }
      }
      return false;
    }

    /** createTable: appends `tbl` to the body of the main document part and returns it. */
    method CreateTable(pkg: Package, tbl: NodeId) returns (t: NodeId)
      requires pkg.Valid() && tbl in pkg.nodes && tbl != BodyId
      modifies pkg
      ensures pkg.Valid() && pkg.next == old(pkg.next)
      ensures t == tbl && pkg.nodes == Append(old(pkg.nodes), tbl)
    {
      pkg.AddObject(tbl);
      return tbl;
    }

    /**
     * replaceTable: collects the tables of the body into `tables` (after what `result`
     * already held), allocates `tableToAdd`, and for each record places the table as
     * getTemplateTable and createTable decide and fills every row of it.
     */
    method ReplaceTable(pkg: Package, placeholders: seq<string>, replacementText: seq<Record>)
      requires pkg.Valid()
      requires |replacementText| > 0 ==> |placeholders| > 0 && AllTables(pkg.nodes, result)
      modifies this, pkg
      ensures pkg.Valid()
      ensures var r := ReplaceTableResult(old(pkg.nodes), old(pkg.next), old(result), placeholders, replacementText);
              pkg.nodes == r.nodes && pkg.next == r.next && result == r.result
    {
      var tables := GetAllElementsFromObject(pkg.nodes, BodyId, TblClass);
      var tableToAdd := pkg.NewTbl();
      ghost var s0 := LoopState(pkg.nodes, pkg.next, tableToAdd, result);
      assert s0 == Start(old(pkg.nodes), old(pkg.next), old(result));
      for i := 0 to |replacementText|
        invariant pkg.Valid()
        invariant |replacementText| > 0 ==> Inv(LoopState(pkg.nodes, pkg.next, tableToAdd, result), tables)
        invariant |replacementText| > 0 ==>
                    LoopState(pkg.nodes, pkg.next, tableToAdd, result) ==
                    RunAll(s0, tables, replacementText[..i], placeholders)
        invariant |replacementText| == 0 ==> LoopState(pkg.nodes, pkg.next, tableToAdd, result) == s0
      {
        var values := replacementText[i];
        RunAllSnoc(s0, tables, replacementText, i, placeholders);
        tableToAdd := ReplaceRecord(pkg, tables, values, placeholders, tableToAdd);
      }
      assert replacementText[..|replacementText|] == replacementText;
    }

    /**
     * Lines 97-114, one record: place the table, then fill its rows. The new state is
     * Step of the old one.
     */
    method ReplaceRecord(pkg: Package, tables: seq<NodeId>, values: Record, placeholders: seq<string>, tableToAdd: NodeId)
      returns (newTableToAdd: NodeId)
      requires pkg.Valid() && |placeholders| > 0
      requires Inv(LoopState(pkg.nodes, pkg.next, tableToAdd, result), tables)
      modifies this, pkg
      ensures pkg.Valid()
      ensures LoopState(pkg.nodes, pkg.next, newTableToAdd, result) ==
              Step(LoopState(old(pkg.nodes), old(pkg.next), tableToAdd, old(result)), tables, values, placeholders)
    {
      ghost var s := LoopState(pkg.nodes, pkg.next, tableToAdd, result);
      var tempTable;
      tempTable, newTableToAdd := PlaceTable(pkg, tables, placeholders[0], tableToAdd);
      FillTable(pkg, tempTable, values, placeholders);
      StepOnPlaced(s, tables, values, placeholders);
    }

    /**
     * Lines 99-104: getTemplateTable for `token`; when the table it returns is empty,
     * createTable appends `tableToAdd` to the body and that is the table to fill,
     * otherwise the returned table is, and it becomes the new `tableToAdd`.
     */
    method PlaceTable(pkg: Package, tables: seq<NodeId>, token: string, tableToAdd: NodeId)
      returns (tempTable: NodeId, newTableToAdd: NodeId)
      requires pkg.Valid() && Inv(LoopState(pkg.nodes, pkg.next, tableToAdd, result), tables)
      modifies this, pkg
      ensures pkg.Valid()
      ensures var s := LoopState(old(pkg.nodes), old(pkg.next), tableToAdd, old(result));
              && pkg.nodes == Placed(s, tables, token) && pkg.next == old(pkg.next) + 1
              && tempTable == Chosen(s, tables, token) && newTableToAdd == tempTable
      ensures tables == [] ==> result == old(result)
      ensures tables != [] ==> result == Collect(old(pkg.nodes), tables[LocatedOrLast(old(pkg.nodes), tables, token)], TextClass)
    {
      ghost var s := LoopState(pkg.nodes, pkg.next, tableToAdd, result);
      PlacedByBranch(s, tables, token);
      tempTable := GetTemplateTable(pkg, tables, token);
      newTableToAdd := tableToAdd;
      if pkg.nodes[tempTable].content == [] {
        tempTable := CreateTable(pkg, tableToAdd);
      } else {
        newTableToAdd := tempTable;
      }
    }

    /**
     * Lines 105-113: reset `result`, collect the rows of `tempTable`, and when there
     * are any, fill each of them with the one record.
     */
    method FillTable(pkg: Package, tempTable: NodeId, values: Record, placeholders: seq<string>)
      requires pkg.Valid() && tempTable in pkg.nodes
      modifies this, pkg
      ensures pkg.Valid() && pkg.next == old(pkg.next)
      ensures var rows := Collect(old(pkg.nodes), tempTable, TrClass);
              && pkg.nodes == ReplaceRows(old(pkg.nodes), rows, [values], placeholders)
              && result == if rows == [] then [] else Collect(old(pkg.nodes), rows[|rows| - 1], TextClass)
    {
      result := [];
      var rows := GetAllElementsFromObject(pkg.nodes, tempTable, TrClass);
      assert rows == Collect(pkg.nodes, tempTable, TrClass);
      if rows != [] {
        FillRows(pkg, rows, values, placeholders);
      }
    }

    /**
     * Lines 111-113, inside the test of line 109 that there are rows:
     * replacePlaceholder on each row in turn with the one-record list.
     */
    method FillRows(pkg: Package, rows: seq<NodeId>, values: Record, placeholders: seq<string>)
      requires pkg.Valid() && rows != [] && forall j :: 0 <= j < |rows| ==> rows[j] in pkg.nodes
      modifies this, pkg
      ensures pkg.Valid() && pkg.next == old(pkg.next)
      ensures pkg.nodes == ReplaceRows(old(pkg.nodes), rows, [values], placeholders)
      ensures result == Collect(old(pkg.nodes), rows[|rows| - 1], TextClass)
    {
      ghost var n := pkg.nodes;
      for r := 0 to |rows|
        invariant pkg.Valid() && pkg.next == old(pkg.next)
        invariant pkg.nodes == ReplaceRows(n, rows[..r], [values], placeholders)
        invariant r > 0 ==> result == Collect(n, rows[r - 1], TextClass)
      {
        FillRow(pkg, n, rows, r, values, placeholders);
      }
      assert rows[..|rows|] == rows;
    }

    /**
     * Line 112 for row `r`, on the heap that filling the rows before it has left: the
     * Text nodes it collects into `result` are those the row had at the start.
     */
    method FillRow(pkg: Package, ghost n: Store, rows: seq<NodeId>, r: nat, values: Record, placeholders: seq<string>)
      requires WellFormed(n) && r < |rows| && forall j :: 0 <= j < |rows| ==> rows[j] in n
      requires pkg.Valid() && pkg.nodes == ReplaceRows(n, rows[..r], [values], placeholders)
      modifies this, pkg
      ensures pkg.Valid() && pkg.next == old(pkg.next)
      ensures pkg.nodes == ReplaceRows(n, rows[..r + 1], [values], placeholders)
      ensures result == Collect(n, rows[r], TextClass)
    {
      ReplaceRowsSnoc(n, rows, r, [values], placeholders);
      ReplacePlaceholder(pkg, rows[r], [values], placeholders);
    }

    /**
     * updateWordDocument: replaceTable on the package; writing the file afterwards is
     * not part of this model.
     */
    method UpdateWordDocument(pkg: Package, placeholders: seq<string>, replacementText: seq<Record>)
      requires pkg.Valid()
      requires |replacementText| > 0 ==> |placeholders| > 0 && AllTables(pkg.nodes, result)
      modifies this, pkg
      ensures pkg.Valid()
      ensures var r := ReplaceTableResult(old(pkg.nodes), old(pkg.next), old(result), placeholders, replacementText);
              pkg.nodes == r.nodes && pkg.next == r.next && result == r.result
    {
      ReplaceTable(pkg, placeholders, replacementText);
    }
  }
}
