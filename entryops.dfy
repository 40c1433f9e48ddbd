/** The single-row and link updates of the entry service, as functions on
    the tables: the attribute update of `update_entry`, label assignment
    and removal on the paragraph-label links, the bookmark toggle, the
    cascading delete of an entry, and the overwrite of a label. */
module EntryOps {
  import opened Collections
  import opened Models

  /** `update_entry`'s attribute loop: an attribute that arrives with a
      value replaces the stored one, an absent (None) one is skipped. */
  function UpdateFields(x: Entry, d: EntryData): Entry {
    Entry(
      x.id, x.owner,
      if d.title.Some? then d.title else x.title,
      if d.date.Some? then d.date.value else x.date,
      if d.rating.Some? then d.rating else x.rating,
      if d.bookmarked.Some? then d.bookmarked.value else x.bookmarked)
  }

  /** Only attributes carried by the request change; the others, and the
      row's identity and owner, stay. A request with nothing set changes
      nothing, repeating a request changes nothing more, and a valid
      request keeps the row well formed. */
  lemma UpdateFieldsOnlyGivenAttributes(x: Entry, d: EntryData)
    ensures UpdateFields(x, d).id == x.id && UpdateFields(x, d).owner == x.owner
    ensures d.title.None? ==> UpdateFields(x, d).title == x.title
    ensures d.title.Some? ==> UpdateFields(x, d).title == d.title
    ensures d.date.None? ==> UpdateFields(x, d).date == x.date
    ensures d.date.Some? ==> UpdateFields(x, d).date == d.date.value
    ensures d.rating.None? ==> UpdateFields(x, d).rating == x.rating
    ensures d.rating.Some? ==> UpdateFields(x, d).rating == d.rating
    ensures d.bookmarked.None? ==> UpdateFields(x, d).bookmarked == x.bookmarked
    ensures d.bookmarked.Some? ==> UpdateFields(x, d).bookmarked == d.bookmarked.value
    ensures d == EntryData(None, None, None, None) ==> UpdateFields(x, d) == x
    ensures UpdateFields(UpdateFields(x, d), d) == UpdateFields(x, d)
    ensures WellFormedEntry(x) && ValidEntryData(d) ==> WellFormedEntry(UpdateFields(x, d))
  {
  }

  /** Replacing a row by one with the same id leaves the table's ids as
      they were. */
  lemma EntryIdsUpdate(es: seq<Entry>, i: int, x: Entry)
    requires 0 <= i < |es| && x.id == es[i].id
    ensures EntryIds(es[i := x]) == EntryIds(es)
  {
    forall n | n in EntryIds(es) ensures n in EntryIds(es[i := x]) {
      var y :| y in es && y.id == n;
      var k :| 0 <= k < |es| && es[k] == y;
      assert es[i := x][k].id == n;
    }
    forall n | n in EntryIds(es[i := x]) ensures n in EntryIds(es) {
      var y :| y in es[i := x] && y.id == n;
      var k :| 0 <= k < |es| && es[i := x][k] == y;
      assert es[k].id == n;
    }
  }

  /** The entry at `i` after `update_entry`'s attribute loop. */
  lemma UpdateFieldsPreservesValid(es: seq<Entry>, next: nat, i: int, d: EntryData)
    requires EntriesValid(es, next) && 0 <= i < |es| && ValidEntryData(d)
    ensures EntriesValid(es[i := UpdateFields(es[i], d)], next)
    ensures EntryIds(es[i := UpdateFields(es[i], d)]) == EntryIds(es)
  {
    UpdateFieldsOnlyGivenAttributes(es[i], d);
    EntryIdsUpdate(es, i, UpdateFields(es[i], d));
  }

  /** `paragraph.labels.add(label)` for every paragraph at a position in
      `sel`. */
  function AddLabel(ps: seq<Paragraph>, sel: set<int>, l: nat): (r: seq<Paragraph>)
    ensures |r| == |ps|
  {
    seq(|ps|, j requires 0 <= j < |ps| =>
      if j in sel then ps[j].(labels := ps[j].labels + {l}) else ps[j])
  }

  /** The positions a sequence of paragraphs names. */
  function Positions(sel: seq<int>): set<int> {
    set x | x in sel
  }

  /** One more paragraph handled by the assignment loop. */
  lemma AddLabelStep(ps: seq<Paragraph>, sel: seq<int>, j: int, l: nat)
    requires 0 <= j < |ps|
    ensures Positions(sel + [j]) == Positions(sel) + {j}
    ensures var a := AddLabel(ps, Positions(sel), l);
      AddLabel(ps, Positions(sel + [j]), l) == a[j := a[j].(labels := a[j].labels + {l})]
  {
    assert Positions(sel + [j]) == Positions(sel) + {j};
  }

  /** The loop of `assign_label_to_paragraphs`: `paragraph.labels.add(label)`
      for each selected position in turn. */
  method AddLabelLoop(ps0: seq<Paragraph>, sel: seq<int>, l: nat) returns (ps: seq<Paragraph>)
    requires forall k :: 0 <= k < |sel| ==> 0 <= sel[k] < |ps0|
    ensures ps == AddLabel(ps0, Positions(sel), l)
  {
    ps := ps0;
    var k := 0;
    while k < |sel|
      invariant 0 <= k <= |sel|
      invariant ps == AddLabel(ps0, Positions(sel[..k]), l)
    {
      var j := sel[k];
      AddLabelStep(ps0, sel[..k], j, l);
      assert sel[..k + 1] == sel[..k] + [j];
      ps := ps[j := ps[j].(labels := ps[j].labels + {l})];
      k := k + 1;
    }
    assert sel[..k] == sel;
  }

  /** After the assignment, a paragraph carries the label exactly when it
      was selected or already carried it; its other links and fields are
      untouched. Assigning again changes nothing. */
  lemma AddLabelLinks(ps: seq<Paragraph>, sel: set<int>, l: nat)
    ensures forall j :: 0 <= j < |ps| ==>
      && (l in AddLabel(ps, sel, l)[j].labels <==> j in sel || l in ps[j].labels)
      && AddLabel(ps, sel, l)[j].labels - {l} == ps[j].labels - {l}
      && AddLabel(ps, sel, l)[j].(labels := ps[j].labels) == ps[j]
    ensures AddLabel(AddLabel(ps, sel, l), sel, l) == AddLabel(ps, sel, l)
  {
  }

  /** `paragraph.labels.remove(label)` on the paragraph at `i`. */
  function RemoveLabel(ps: seq<Paragraph>, i: int, l: nat): (r: seq<Paragraph>)
    requires 0 <= i < |ps|
    ensures |r| == |ps|
  {
    ps[i := ps[i].(labels := ps[i].labels - {l})]
  }

  /** Removal takes exactly that link away; removing a link that is not
      there changes nothing, and removing a link just added to a paragraph
      that lacked it restores the table. */
  lemma RemoveLabelLinks(ps: seq<Paragraph>, i: int, l: nat)
    requires 0 <= i < |ps|
    ensures l !in RemoveLabel(ps, i, l)[i].labels
    ensures RemoveLabel(ps, i, l)[i].labels + {l} >= ps[i].labels
    ensures forall j :: 0 <= j < |ps| && j != i ==> RemoveLabel(ps, i, l)[j] == ps[j]
    ensures l !in ps[i].labels ==> RemoveLabel(ps, i, l) == ps
    ensures l !in ps[i].labels ==> RemoveLabel(AddLabel(ps, {i}, l), i, l) == ps
  {
    if l !in ps[i].labels {
      assert ps[i].labels - {l} == ps[i].labels;
      var a := AddLabel(ps, {i}, l);
      assert a[i].labels - {l} == ps[i].labels;
      assert RemoveLabel(a, i, l) == ps by {
        forall j | 0 <= j < |ps| ensures RemoveLabel(a, i, l)[j] == ps[j] {
        }
      }
    }
  }

  /** Both link updates keep every link pointing at an existing label, so
      the paragraph table stays valid. */
  lemma AddLabelPreservesValid(ps: seq<Paragraph>, next: nat, es: seq<Entry>, ls: seq<Label>, sel: set<int>, l: nat)
    requires ParagraphsValid(ps, next, es, ls) && l in LabelIds(ls)
    ensures ParagraphsValid(AddLabel(ps, sel, l), next, es, ls)
  {
  }

  lemma RemoveLabelPreservesValid(ps: seq<Paragraph>, next: nat, es: seq<Entry>, ls: seq<Label>, i: int, l: nat)
    requires ParagraphsValid(ps, next, es, ls) && 0 <= i < |ps|
    ensures ParagraphsValid(RemoveLabel(ps, i, l), next, es, ls)
  {
  }

  /** `toggle_bookmark` on the entry at `i`. */
  function ToggleBookmark(es: seq<Entry>, i: int): (r: seq<Entry>)
    requires 0 <= i < |es|
    ensures |r| == |es|
  {
    es[i := es[i].(bookmarked := !es[i].bookmarked)]
  }

  /** Toggling flips the flag of that entry only, and toggling twice
      restores the table. */
  lemma ToggleTwiceRestores(es: seq<Entry>, i: int)
    requires 0 <= i < |es|
    ensures ToggleBookmark(es, i)[i].bookmarked == !es[i].bookmarked
    ensures ToggleBookmark(es, i)[i].(bookmarked := es[i].bookmarked) == es[i]
    ensures forall j :: 0 <= j < |es| && j != i ==> ToggleBookmark(es, i)[j] == es[j]
    ensures ToggleBookmark(ToggleBookmark(es, i), i) == es
  {
  }

  /** The entry table without the row at `i` (`entry.delete()`). */
  function RemoveAt<T>(s: seq<T>, i: int): (r: seq<T>)
    requires 0 <= i < |s|
    ensures |r| == |s| - 1
  {
    s[..i] + s[i + 1..]
  }

  /** The paragraphs the cascade leaves: those of other entries. */
  function WithoutEntry(ps: seq<Paragraph>, id: nat): seq<Paragraph> {
    Filter(ps, (p: Paragraph) => p.entry != id)
  }

  /** Deleting the entry at `i` takes its paragraphs, and with them their
      label links, and leaves every other paragraph, every other entry and
      every label as they were. The store stays valid. */
  lemma DeleteEntryCascades(
    es: seq<Entry>, ps: seq<Paragraph>, ls: seq<Label>,
    nextEntry: nat, nextParagraph: nat, nextLabel: nat, i: int)
    requires StoreValid(es, ps, ls, nextEntry, nextParagraph, nextLabel)
    requires 0 <= i < |es|
    ensures forall p :: p in WithoutEntry(ps, es[i].id) <==> p in ps && p.entry != es[i].id
    ensures EntryIds(RemoveAt(es, i)) == EntryIds(es) - {es[i].id}
    ensures forall x :: x in RemoveAt(es, i) <==> x in es && x != es[i]
    ensures StoreValid(RemoveAt(es, i), WithoutEntry(ps, es[i].id), ls, nextEntry, nextParagraph, nextLabel)
  {
    RemoveEntryRow(es, nextEntry, i);
    WithoutEntryValid(ps, nextParagraph, es, RemoveAt(es, i), ls, es[i].id);
  }

  lemma RemoveEntryRow(es: seq<Entry>, next: nat, i: int)
    requires EntriesValid(es, next) && 0 <= i < |es|
    ensures EntryIds(RemoveAt(es, i)) == EntryIds(es) - {es[i].id}
    ensures forall x :: x in RemoveAt(es, i) <==> x in es && x != es[i]
    ensures EntriesValid(RemoveAt(es, i), next)
  {
    RemoveEntryMembers(es, next, i);
    RemoveEntryIds(es, next, i);
    RemoveEntryValid(es, next, i);
  }

  lemma RemoveEntryIds(es: seq<Entry>, next: nat, i: int)
    requires EntriesValid(es, next) && 0 <= i < |es|
    requires forall x :: x in RemoveAt(es, i) <==> x in es && x != es[i]
    ensures EntryIds(RemoveAt(es, i)) == EntryIds(es) - {es[i].id}
  {
    var es' := RemoveAt(es, i);
    forall n | n in EntryIds(es) - {es[i].id} ensures n in EntryIds(es') {
      var x :| x in es && x.id == n;
      assert x in es';
    }
    forall n | n in EntryIds(es') ensures n in EntryIds(es) - {es[i].id} {
      var x :| x in es' && x.id == n;
      var k :| 0 <= k < |es| && es[k] == x;
      assert k != i;
    }
  }

  lemma RemoveEntryValid(es: seq<Entry>, next: nat, i: int)
    requires EntriesValid(es, next) && 0 <= i < |es|
    ensures EntriesValid(RemoveAt(es, i), next)
  {
    var es' := RemoveAt(es, i);
    RemoveAtIndex(es, i);
    forall a, b | 0 <= a < b < |es'| ensures es'[a].id < es'[b].id {
      var a' := if a < i then a else a + 1;
      var b' := if b < i then b else b + 1;
      assert es'[a] == es[a'] && es'[b] == es[b'];
    }
    forall k | 0 <= k < |es'| ensures es'[k].id < next && WellFormedEntry(es'[k]) {
      assert es'[k] == es[if k < i then k else k + 1];
    }
  }

  lemma RemoveAtIndex<T>(s: seq<T>, i: int)
    requires 0 <= i < |s|
    ensures forall k :: 0 <= k < |s| - 1 ==> RemoveAt(s, i)[k] == if k < i then s[k] else s[k + 1]
  {
    var r := RemoveAt(s, i);
    assert r == s[..i] + s[i + 1..];
    forall k | 0 <= k < |s| - 1 ensures r[k] == if k < i then s[k] else s[k + 1] {
      if k >= i {
        assert r[k] == s[i + 1..][k - i];
      }
    }
  }

  lemma RemoveEntryMembers(es: seq<Entry>, next: nat, i: int)
    requires EntriesValid(es, next) && 0 <= i < |es|
    ensures forall x :: x in RemoveAt(es, i) <==> x in es && x != es[i]
  {
    var es' := RemoveAt(es, i);
    RemoveAtIndex(es, i);
    forall x ensures x in es' <==> x in es && x != es[i] {
      if x in es' {
        var k :| 0 <= k < |es'| && es'[k] == x;
        if k < i { assert es[k].id < es[i].id; } else { assert es[i].id < es[k + 1].id; }
      }
      if x in es && x != es[i] {
        var k :| 0 <= k < |es| && es[k] == x;
        if k < i { assert es'[k] == x; } else { assert es'[k - 1] == x; }
      }
    }
  }

  lemma WithoutEntryValid(ps: seq<Paragraph>, next: nat, es: seq<Entry>, es': seq<Entry>, ls: seq<Label>, id: nat)
    requires ParagraphsValid(ps, next, es, ls)
    requires EntryIds(es') == EntryIds(es) - {id}
    ensures ParagraphsValid(WithoutEntry(ps, id), next, es', ls)
  {
    var ps' := WithoutEntry(ps, id);
    assert SortedBy(ps, (p: Paragraph, q: Paragraph) => p.id < q.id);
    FilterKeepsSorted(ps, (p: Paragraph) => p.entry != id, (p: Paragraph, q: Paragraph) => p.id < q.id);
    forall k | 0 <= k < |ps'|
      ensures ps'[k].id < next && ps'[k].entry in EntryIds(es') && ps'[k].labels <= LabelIds(ls)
    {
      assert ps'[k] in ps;
    }
  }

  /** `update_label`: every attribute of the request overwrites the stored
      one, a missing description included. */
  function Overwrite(l: Label, name: string, description: Option<string>): Label {
    l.(name := name, description := description)
  }

  /** The label's result does not depend on its previous name or
      description: a description left out of the request clears it,
      unlike the None-skipping of `UpdateFields`. */
  lemma OverwriteIsFullReplacement(l: Label, l': Label, name: string, description: Option<string>)
    requires l.id == l'.id && l.owner == l'.owner
    ensures Overwrite(l, name, description) == Overwrite(l', name, description)
    ensures Overwrite(l, name, description).description == description
    ensures Overwrite(l, name, description).id == l.id && Overwrite(l, name, description).owner == l.owner
    ensures |name| <= MaxLabelNameLength ==> WellFormedLabel(Overwrite(l, name, description))
  {
  }
}
