/** The journal store and the state-changing operations of the entry
    service. The three tables live in one object whose methods update them
    in place, as the database rows are updated by `save()`, `add()`,
    `remove()`, `bulk_create()` and `delete()`. */
module Services {
  import opened Dates
  import opened Models
  import opened Reconciliation
  import EntryOps

  class Journal {
    var entries: seq<Entry>
    var paragraphs: seq<Paragraph>
    var labels: seq<Label>
    var nextEntryId: nat
    var nextParagraphId: nat
    var nextLabelId: nat

    ghost predicate Valid()
      reads this
    {
      StoreValid(entries, paragraphs, labels, nextEntryId, nextParagraphId, nextLabelId)
    }

    /** An empty store; the database hands out ids from 1. */
    constructor ()
      ensures Valid()
      ensures entries == [] && paragraphs == [] && labels == []
      ensures nextEntryId == 1 && nextParagraphId == 1 && nextLabelId == 1
    {
      entries := [];
      paragraphs := [];
      labels := [];
      nextEntryId := 1;
      nextParagraphId := 1;
      nextLabelId := 1;
    }

    /** `create_entry`: one new entry owned by `user`, then a bulk insert of
        one paragraph per request paragraph. */
    method CreateEntry(user: nat, d: EntryData, specs: seq<ParagraphSpec>, today: Date) returns (id: nat)
      requires Valid() && ValidEntryData(d) && ValidDate(today)
      modifies this
      ensures Valid()
      ensures id == old(nextEntryId) && nextEntryId == id + 1
      ensures entries == old(entries) + [NewEntry(id, user, d, today)]
      ensures paragraphs == old(paragraphs) + NewRows(id, specs, old(nextParagraphId))
      ensures nextParagraphId == old(nextParagraphId) + |specs|
      ensures labels == old(labels) && nextLabelId == old(nextLabelId)
    {
      id := nextEntryId;
      var entry := NewEntry(id, user, d, today);
      NewEntryDefaults(id, user, d, today);
      entries := entries + [entry];
      nextEntryId := nextEntryId + 1;
      assert id in EntryIds(entries) by {
        assert entries[|entries| - 1] == entry;
      }
      assert EntryIds(old(entries)) <= EntryIds(entries);
      var rows := NewRows(id, specs, nextParagraphId);
      paragraphs := paragraphs + rows;
      nextParagraphId := nextParagraphId + |specs|;
    }

    /** `update_entry` on the entry at position `i`: the attributes that
        arrive with a value are assigned; then, when a paragraph list
        arrives, the entry's paragraphs are reconciled with it. */
    method UpdateEntry(i: nat, d: EntryData, specs: Option<seq<ParagraphSpec>>)
      requires Valid() && i < |entries| && ValidEntryData(d)
      modifies this
      ensures Valid()
      ensures entries == old(entries)[i := EntryOps.UpdateFields(old(entries)[i], d)]
      ensures specs.None? ==> paragraphs == old(paragraphs) && nextParagraphId == old(nextParagraphId)
      ensures specs.Some? ==>
        && paragraphs == Reconcile(old(paragraphs), old(entries)[i].id, specs.value, old(nextParagraphId))
        && nextParagraphId
             == old(nextParagraphId) + |Unmatched(ByOrder(old(paragraphs), old(entries)[i].id), specs.value)|
      ensures labels == old(labels)
      ensures nextEntryId == old(nextEntryId) && nextLabelId == old(nextLabelId)
    {
      var e := entries[i].id;
      EntryOps.UpdateFieldsPreservesValid(entries, nextEntryId, i, d);
      entries := entries[i := EntryOps.UpdateFields(entries[i], d)];
      assert e in EntryIds(entries) by {
        assert entries[i].id == e;
      }
      if specs.Some? {
        UpdateParagraphs(e, specs.value);
      }
    }

    /** The paragraph part of `update_entry` for entry `e`: the existing
        paragraphs are indexed by order, each request paragraph updates its
        match in place or is collected, and the collected ones are bulk
        inserted. */
    method UpdateParagraphs(e: nat, incoming: seq<ParagraphSpec>)
      requires Valid() && e in EntryIds(entries)
      modifies this
      ensures Valid()
      ensures paragraphs == Reconcile(old(paragraphs), e, incoming, old(nextParagraphId))
      ensures nextParagraphId == old(nextParagraphId) + |Unmatched(ByOrder(old(paragraphs), e), incoming)|
      ensures entries == old(entries) && labels == old(labels)
      ensures nextEntryId == old(nextEntryId) && nextLabelId == old(nextLabelId)
    {
      var byOrder := ByOrder(paragraphs, e);
      var wipe := |incoming| != |OfEntry(paragraphs, e)|;
      ReconcilePreservesValid(paragraphs, e, incoming, nextParagraphId, entries, labels);
      var toCreate := UpdateMatched(byOrder, wipe, incoming);
      paragraphs := paragraphs + NewRows(e, toCreate, nextParagraphId);
      nextParagraphId := nextParagraphId + |toCreate|;
    }

    /** The loop of `update_entry` over the request paragraphs: a paragraph
        whose order is a key of `byOrder` rewrites that row (clearing its
        labels when `wipe`), any other is collected for insertion. */
    method UpdateMatched(byOrder: map<int, nat>, wipe: bool, incoming: seq<ParagraphSpec>)
      returns (toCreate: seq<ParagraphSpec>)
      requires forall o :: o in byOrder ==> byOrder[o] < |paragraphs|
      modifies this
      ensures paragraphs == ApplyUpdates(old(paragraphs), byOrder, wipe, incoming)
      ensures toCreate == Unmatched(byOrder, incoming)
      ensures entries == old(entries) && labels == old(labels)
      ensures nextEntryId == old(nextEntryId) && nextParagraphId == old(nextParagraphId)
      ensures nextLabelId == old(nextLabelId)
    {
      var ps0 := paragraphs;
      toCreate := [];
      var k := 0;
      while k < |incoming|
        invariant 0 <= k <= |incoming|
        invariant paragraphs == ApplyUpdates(ps0, byOrder, wipe, incoming[..k])
        invariant toCreate == Unmatched(byOrder, incoming[..k])
        invariant entries == old(entries) && labels == old(labels)
        invariant nextEntryId == old(nextEntryId) && nextParagraphId == old(nextParagraphId)
        invariant nextLabelId == old(nextLabelId)
      {
        var s := incoming[k];
        ApplyUpdatesStep(ps0, byOrder, wipe, incoming, k);
        UnmatchedStep(byOrder, incoming, k);
        if s.order in byOrder {
          var j := byOrder[s.order];
          var q := paragraphs[j];
          paragraphs := paragraphs[j := q.(content := s.content, labels := if wipe then {} else q.labels)];
        } else {
          toCreate := toCreate + [s];
        }
        k := k + 1;
      }
      assert incoming[..k] == incoming;
    }

    /** `assign_label_to_paragraphs`: the label is added to the link set of
        each paragraph at a position in `sel`. */
    method AssignLabelToParagraphs(sel: seq<int>, l: nat)
      requires Valid() && l in LabelIds(labels)
      requires forall k :: 0 <= k < |sel| ==> 0 <= sel[k] < |paragraphs|
      modifies this
      ensures Valid()
      ensures paragraphs == EntryOps.AddLabel(old(paragraphs), EntryOps.Positions(sel), l)
      ensures entries == old(entries) && labels == old(labels)
      ensures nextEntryId == old(nextEntryId) && nextParagraphId == old(nextParagraphId)
      ensures nextLabelId == old(nextLabelId)
    {
      var ps := EntryOps.AddLabelLoop(paragraphs, sel, l);
      EntryOps.AddLabelPreservesValid(paragraphs, nextParagraphId, entries, labels, EntryOps.Positions(sel), l);
      paragraphs := ps;
    }

    /** `remove_label_from_paragraph` on the paragraph at position `i`. */
    method RemoveLabelFromParagraph(i: nat, l: nat)
      requires Valid() && i < |paragraphs|
      modifies this
      ensures Valid()
      ensures paragraphs == EntryOps.RemoveLabel(old(paragraphs), i, l)
      ensures entries == old(entries) && labels == old(labels)
      ensures nextEntryId == old(nextEntryId) && nextParagraphId == old(nextParagraphId)
      ensures nextLabelId == old(nextLabelId)
    {
      EntryOps.RemoveLabelPreservesValid(paragraphs, nextParagraphId, entries, labels, i, l);
      paragraphs := paragraphs[i := paragraphs[i].(labels := paragraphs[i].labels - {l})];
    }

    /** `toggle_bookmark` on the entry at position `i`. */
    method ToggleBookmark(i: nat)
      requires Valid() && i < |entries|
      modifies this
      ensures Valid()
      ensures entries == EntryOps.ToggleBookmark(old(entries), i)
      ensures paragraphs == old(paragraphs) && labels == old(labels)
      ensures nextEntryId == old(nextEntryId) && nextParagraphId == old(nextParagraphId)
      ensures nextLabelId == old(nextLabelId)
    {
      var x := entries[i];
      entries := entries[i := x.(bookmarked := !x.bookmarked)];
      EntryOps.EntryIdsUpdate(old(entries), i, entries[i]);
    }

    /** `delete_entry` on the entry at position `i`; the cascade removes its
        paragraphs and their label links. */
    method DeleteEntry(i: nat)
      requires Valid() && i < |entries|
      modifies this
      ensures Valid()
      ensures entries == EntryOps.RemoveAt(old(entries), i)
      ensures paragraphs == EntryOps.WithoutEntry(old(paragraphs), old(entries)[i].id)
      ensures labels == old(labels)
      ensures nextEntryId == old(nextEntryId) && nextParagraphId == old(nextParagraphId)
      ensures nextLabelId == old(nextLabelId)
    {
      var id := entries[i].id;
      EntryOps.DeleteEntryCascades(entries, paragraphs, labels, nextEntryId, nextParagraphId, nextLabelId, i);
      entries := entries[..i] + entries[i + 1..];
      paragraphs := EntryOps.WithoutEntry(paragraphs, id);
    }

    /** `Label.objects.create(user=..., **payload)`. */
    method CreateLabel(user: nat, name: string, description: Option<string>) returns (id: nat)
      requires Valid() && |name| <= MaxLabelNameLength
      modifies this
      ensures Valid()
      ensures id == old(nextLabelId) && nextLabelId == id + 1
      ensures labels == old(labels) + [Label(id, user, name, description)]
      ensures entries == old(entries) && paragraphs == old(paragraphs)
      ensures nextEntryId == old(nextEntryId) && nextParagraphId == old(nextParagraphId)
    {
      id := nextLabelId;
      labels := labels + [Label(id, user, name, description)];
      nextLabelId := nextLabelId + 1;
      assert LabelIds(old(labels)) <= LabelIds(labels);
    }

    /** `update_label`'s assignments and `save()` on the label at position
        `i`. */
    method UpdateLabel(i: nat, name: string, description: Option<string>)
      requires Valid() && i < |labels| && |name| <= MaxLabelNameLength
      modifies this
      ensures Valid()
      ensures labels == old(labels)[i := EntryOps.Overwrite(old(labels)[i], name, description)]
      ensures entries == old(entries) && paragraphs == old(paragraphs)
      ensures nextEntryId == old(nextEntryId) && nextParagraphId == old(nextParagraphId)
      ensures nextLabelId == old(nextLabelId)
    {
      var l := labels[i];
      labels := labels[i := l.(name := name, description := description)];
      assert LabelIds(labels) == LabelIds(old(labels)) by {
        LabelIdsUpdate(old(labels), i, labels[i]);
      }
    }
  }

  /** Replacing a label by one with the same id leaves the label ids. */
  lemma LabelIdsUpdate(ls: seq<Label>, i: int, x: Label)
    requires 0 <= i < |ls| && x.id == ls[i].id
    ensures LabelIds(ls[i := x]) == LabelIds(ls)
  {
    forall n | n in LabelIds(ls) ensures n in LabelIds(ls[i := x]) {
      var y :| y in ls && y.id == n;
      var k :| 0 <= k < |ls| && ls[k] == y;
      assert ls[i := x][k].id == n;
    }
    forall n | n in LabelIds(ls[i := x]) ensures n in LabelIds(ls) {
      var y :| y in ls[i := x] && y.id == n;
      var k :| 0 <= k < |ls| && ls[i := x][k] == y;
      assert ls[k].id == n;
    }
  }
}
