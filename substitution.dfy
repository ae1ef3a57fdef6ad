/**
 * Placeholder substitution (replacePlaceholder) as ghost functions: what one
 * Text value becomes, what a whole list of Text nodes becomes, and what is proved
 * about both.
 */
module Substitution {
  import opened Wrappers
  import opened Document
  import opened TreeSearch

  /** One data record: placeholder token to replacement string. */
  type Record = map<string, string>

  /** Kotlin's `values[placeholder]`, which is null when the key is missing. */
  function Lookup(record: Record, key: string): Option<string> {
    if key in record then Some(record[key]) else None
  }

  /** The loop of lines 64-66: each record writes its entry in turn, so the last one stays. */
  function WriteRecords(v: Option<string>, records: seq<Record>, p: string): Option<string> {
    if records == [] then v else Lookup(records[|records| - 1], p)
  }

  /**
   * The value of one Text after the loop of lines 62-67: each placeholder in turn is
   * compared with the CURRENT value, so a replacement that equals a later placeholder
   * is replaced again.
   */
  function SubstValue(v: Option<string>, records: seq<Record>, placeholders: seq<string>): Option<string>
    decreases |placeholders|
  {
    if placeholders == [] then v
    else
      var w := SubstValue(v, records, placeholders[..|placeholders| - 1]);
      var p := placeholders[|placeholders| - 1];
      if w == Some(p) then WriteRecords(w, records, p) else w
  }

  /**
   * Wherever it starts, a value ends either as it was or as the last record's entry
   * for one of the placeholders: nothing else is ever written into a Text.
   */
  lemma {:induction false} SubstValueOrigin(v: Option<string>, records: seq<Record>, placeholders: seq<string>)
    ensures var r := SubstValue(v, records, placeholders);
            r == v || (records != [] && exists i :: 0 <= i < |placeholders| && r == Lookup(records[|records| - 1], placeholders[i]))
    decreases |placeholders|
  {
    if placeholders != [] {
      var n := |placeholders| - 1;
      var w := SubstValue(v, records, placeholders[..n]);
      SubstValueOrigin(v, records, placeholders[..n]);
      if w == Some(placeholders[n]) && records != [] {
        assert SubstValue(v, records, placeholders) == Lookup(records[|records| - 1], placeholders[n]);
      } else if w != v {
        var i :| 0 <= i < n && w == Lookup(records[|records| - 1], placeholders[..n][i]);
        assert placeholders[..n][i] == placeholders[i];
      }
    }
  }

  /** Substituting with `a + b` is substituting with `a`, then with `b`. */
  lemma {:induction false} SubstSplit(v: Option<string>, records: seq<Record>, a: seq<string>, b: seq<string>)
    ensures SubstValue(v, records, a + b) == SubstValue(SubstValue(v, records, a), records, b)
    decreases |b|
  {
    if b == [] {
      assert a + b == a;
    } else {
      var b' := b[..|b| - 1];
      assert (a + b)[..|a + b| - 1] == a + b';
      SubstSplit(v, records, a, b');
    }
  }

  /** A value equal to no placeholder is left as it is. */
  lemma {:induction false} SubstUnmatched(v: Option<string>, records: seq<Record>, placeholders: seq<string>)
    requires forall i :: 0 <= i < |placeholders| ==> v != Some(placeholders[i])
    ensures SubstValue(v, records, placeholders) == v
    decreases |placeholders|
  {
    if placeholders != [] {
      SubstUnmatched(v, records, placeholders[..|placeholders| - 1]);
    }
  }

  /** With no records nothing is written. */
  lemma {:induction false} SubstNoRecords(v: Option<string>, placeholders: seq<string>)
    ensures SubstValue(v, [], placeholders) == v
    decreases |placeholders|
  {
    if placeholders != [] {
      SubstNoRecords(v, placeholders[..|placeholders| - 1]);
    }
  }

  /**
   * At the first placeholder the value equals, the value becomes the last record's
   * entry for it, and the remaining placeholders are then compared with that entry.
   */
  lemma SubstFirstMatch(v: Option<string>, records: seq<Record>, placeholders: seq<string>, i: nat)
    requires i < |placeholders| && v == Some(placeholders[i])
    requires forall j :: 0 <= j < i ==> placeholders[j] != placeholders[i]
    requires records != []
    ensures SubstValue(v, records, placeholders) ==
            SubstValue(Lookup(records[|records| - 1], placeholders[i]), records, placeholders[i + 1..])
  {
    var before, at, after := placeholders[..i], placeholders[..i + 1], placeholders[i + 1..];
    assert placeholders == at + after;
    SubstSplit(v, records, at, after);
    SubstUnmatched(v, records, before);
    assert at[..|at| - 1] == before;
  }

  /**
   * A matching value is overwritten by the last record's entry (None, Kotlin's null,
   * when that record lacks the key) as long as that entry equals no later placeholder.
   */
  lemma SubstLastRecordWins(v: Option<string>, records: seq<Record>, placeholders: seq<string>, i: nat)
    requires i < |placeholders| && v == Some(placeholders[i])
    requires forall j :: 0 <= j < i ==> placeholders[j] != placeholders[i]
    requires records != []
    requires forall j :: i < j < |placeholders| ==>
               Lookup(records[|records| - 1], placeholders[i]) != Some(placeholders[j])
    ensures SubstValue(v, records, placeholders) == Lookup(records[|records| - 1], placeholders[i])
    ensures placeholders[i] !in records[|records| - 1] ==> SubstValue(v, records, placeholders) == None
  {
    SubstFirstMatch(v, records, placeholders, i);
    var w := Lookup(records[|records| - 1], placeholders[i]);
    var rest := placeholders[i + 1..];
    forall j | 0 <= j < |rest| ensures w != Some(rest[j]) {
      assert rest[j] == placeholders[i + 1 + j];
    }
    SubstUnmatched(w, records, rest);
  }

  /** A replacement equal to a later placeholder is replaced again in the same pass. */
  lemma ChainedReplacement()
    ensures SubstValue(Some("{{A}}"), [map["{{A}}" := "{{B}}", "{{B}}" := "x"]], ["{{A}}", "{{B}}"]) == Some("x")
    ensures SubstValue(Some("{{A}}"), [map["{{A}}" := "{{B}}", "{{B}}" := "x"]], ["{{B}}", "{{A}}"]) == Some("{{B}}")
  {
    var rs := [map["{{A}}" := "{{B}}", "{{B}}" := "x"]];
    assert ["{{A}}", "{{B}}"][..1] == ["{{A}}"];
    assert ["{{B}}", "{{A}}"][..1] == ["{{B}}"];
    assert ["{{A}}"][..0] == [];
    assert ["{{B}}"][..0] == [];
  }

  /** With two records in one call the second one's value is the one left. */
  lemma LastWriteWins()
    ensures SubstValue(Some("{{X}}"), [map["{{X}}" := "A"], map["{{X}}" := "B"]], ["{{X}}"]) == Some("B")
  {
    assert ["{{X}}"][..0] == [];
  }

  /** `n` passes of substitution over one value: what a Text listed `n` times receives. */
  function SubstIter(v: Option<string>, records: seq<Record>, placeholders: seq<string>, n: nat): Option<string>
    decreases n
  {
    if n == 0 then v else SubstValue(SubstIter(v, records, placeholders, n - 1), records, placeholders)
  }

  /** `a` passes followed by `b` passes are `a + b` passes. */
  lemma {:induction false} IterAdd(v: Option<string>, records: seq<Record>, placeholders: seq<string>, a: nat, b: nat, c: nat)
    requires c == a + b
    ensures SubstIter(SubstIter(v, records, placeholders, a), records, placeholders, b) ==
            SubstIter(v, records, placeholders, c)
    decreases b
  {
    if b > 0 {
      IterAdd(v, records, placeholders, a, b - 1, c - 1);
    }
  }

  ghost predicate AllText(nodes: Store, ts: seq<NodeId>) {
    forall j :: 0 <= j < |ts| ==> ts[j] in nodes && nodes[ts[j]].Text?
  }

  /** Every node the search for Text collects is a Text node. */
  lemma CollectedTexts(nodes: Store, obj: NodeId)
    requires WellFormed(nodes) && obj in nodes
    ensures AllText(nodes, Collect(nodes, obj, TextClass))
  {
    var ts := Collect(nodes, obj, TextClass);
    forall j | 0 <= j < |ts| ensures ts[j] in nodes && nodes[ts[j]].Text? {
      assert ClassOf(nodes[ts[j]]) == TextClass;
    }
  }

  lemma AllTextPrefix(nodes: Store, ts: seq<NodeId>, i: nat)
    requires AllText(nodes, ts) && i <= |ts|
    ensures AllText(nodes, ts[..i])
  {
    forall j | 0 <= j < i ensures ts[..i][j] in nodes && nodes[ts[..i][j]].Text? {
      assert ts[..i][j] == ts[j];
    }
  }

  /**
   * The loop of lines 60-69 over a list of Text nodes: each in turn gets the
   * substitution of its current value. Only the listed Text nodes change, and no node
   * changes its class or references.
   */
  ghost function SetTexts(nodes: Store, ts: seq<NodeId>, records: seq<Record>, placeholders: seq<string>): (r: Store)
    requires AllText(nodes, ts)
    ensures SameShape(nodes, r)
    ensures forall k {:trigger r[k]} :: k in nodes && k !in ts ==> r[k] == nodes[k]
    decreases |ts|
  {
    if ts == [] then nodes
    else
      var n := SetTexts(nodes, ts[..|ts| - 1], records, placeholders);
      var t := ts[|ts| - 1];
      assert ClassOf(n[t]) == ClassOf(nodes[t]);
      TextWriteSameShape(n, t, SubstValue(n[t].value, records, placeholders));
      SameShapeTrans(nodes, n, n[t := Text(SubstValue(n[t].value, records, placeholders))]);
      n[t := Text(SubstValue(n[t].value, records, placeholders))]
  }

  /** One more Text at the end of the list: the loop of lines 60-69 takes one more step. */
  lemma SetTextsSnoc(nodes: Store, ts: seq<NodeId>, t: NodeId, records: seq<Record>, placeholders: seq<string>)
    requires AllText(nodes, ts + [t])
    ensures AllText(nodes, ts)
    ensures var n := SetTexts(nodes, ts, records, placeholders);
            t in n && n[t].Text? &&
            SetTexts(nodes, ts + [t], records, placeholders) ==
            n[t := Text(SubstValue(n[t].value, records, placeholders))]
  {
    var ts' := ts + [t];
    assert ts'[..|ts|] == ts && ts'[|ts|] == t;
    forall j | 0 <= j < |ts| ensures ts[j] in nodes && nodes[ts[j]].Text? {
      assert ts[j] == ts'[j];
    }
    var n := SetTexts(nodes, ts, records, placeholders);
    assert ClassOf(n[t]) == ClassOf(nodes[t]);
  }

  /** A Text listed `n` times receives `n` passes of substitution. */
  lemma {:induction false} SetTextsValue(nodes: Store, ts: seq<NodeId>, records: seq<Record>, placeholders: seq<string>, k: NodeId)
    requires AllText(nodes, ts) && k in nodes && nodes[k].Text?
    ensures SetTexts(nodes, ts, records, placeholders)[k] ==
            Text(SubstIter(nodes[k].value, records, placeholders, multiset(ts)[k]))
    decreases |ts|
  {
    if ts != [] {
      var ts': seq<NodeId>, t: NodeId := ts[..|ts| - 1], ts[|ts| - 1];
      assert ts == ts' + [t];
      SetTextsSnoc(nodes, ts', t, records, placeholders);
      SetTextsValue(nodes, ts', records, placeholders, k);
      SetTextsValueStep(nodes, ts', t, records, placeholders, k);
    }
  }

  lemma SetTextsValueStep(nodes: Store, ts: seq<NodeId>, t: NodeId, records: seq<Record>, placeholders: seq<string>, k: NodeId)
    requires AllText(nodes, ts + [t]) && AllText(nodes, ts) && k in nodes && nodes[k].Text?
    requires var n := SetTexts(nodes, ts, records, placeholders);
             t in n && n[t].Text? &&
             SetTexts(nodes, ts + [t], records, placeholders) == n[t := Text(SubstValue(n[t].value, records, placeholders))]
    requires SetTexts(nodes, ts, records, placeholders)[k] ==
             Text(SubstIter(nodes[k].value, records, placeholders, multiset(ts)[k]))
    ensures SetTexts(nodes, ts + [t], records, placeholders)[k] ==
            Text(SubstIter(nodes[k].value, records, placeholders, multiset(ts + [t])[k]))
  {
    var c := multiset(ts)[k];
    assert multiset(ts + [t]) == multiset(ts) + multiset{t};
    if k == t {
      assert multiset(ts + [t])[k] == c + 1;
      assert SubstIter(nodes[k].value, records, placeholders, c + 1) ==
             SubstValue(SubstIter(nodes[k].value, records, placeholders, c), records, placeholders);
    } else {
      assert multiset(ts + [t])[k] == c;
    }
  }

  /** replacePlaceholder(obj, records, placeholders): substitution over every Text found under `obj`. */
  ghost function ReplaceIn(nodes: Store, obj: NodeId, records: seq<Record>, placeholders: seq<string>): Store
    requires WellFormed(nodes) && obj in nodes
  {
    SetTexts(nodes, Collect(nodes, obj, TextClass), records, placeholders)
  }

  /**
   * After replacePlaceholder the document has the same nodes, classes and references,
   * and every node that is not a Text found under `obj` is unchanged.
   */
  lemma ReplaceInFrame(nodes: Store, obj: NodeId, records: seq<Record>, placeholders: seq<string>)
    requires WellFormed(nodes) && obj in nodes
    ensures SameShape(nodes, ReplaceIn(nodes, obj, records, placeholders))
    ensures WellFormed(ReplaceIn(nodes, obj, records, placeholders))
    ensures forall k :: k in nodes && !Reaches(nodes, obj, k, TextClass) ==>
              ReplaceIn(nodes, obj, records, placeholders)[k] == nodes[k]
  {
    var r := ReplaceIn(nodes, obj, records, placeholders);
    SameShapeWellFormed(nodes, r);
    forall k | k in nodes && !Reaches(nodes, obj, k, TextClass) ensures r[k] == nodes[k] {
      CollectIffReaches(nodes, obj, k, TextClass);
    }
  }

  /**
   * After replacePlaceholder a Text found `n` times under `obj` has had `n` passes of
   * substitution; in a tree, where it is found once, it has the substitution of its value.
   */
  lemma ReplaceInValue(nodes: Store, obj: NodeId, records: seq<Record>, placeholders: seq<string>, k: NodeId)
    requires WellFormed(nodes) && obj in nodes && k in nodes && nodes[k].Text?
    ensures ReplaceIn(nodes, obj, records, placeholders)[k] ==
            Text(SubstIter(nodes[k].value, records, placeholders, multiset(Collect(nodes, obj, TextClass))[k]))
    ensures multiset(Collect(nodes, obj, TextClass))[k] == 1 ==>
            ReplaceIn(nodes, obj, records, placeholders)[k] == Text(SubstValue(nodes[k].value, records, placeholders))
  {
    SetTextsValue(nodes, Collect(nodes, obj, TextClass), records, placeholders, k);
    assert SubstIter(nodes[k].value, records, placeholders, 1) == SubstValue(nodes[k].value, records, placeholders);
  }
}
