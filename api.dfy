/** The endpoints of the entries and labels controllers that hold logic of
    their own: lookups scoped to the requesting user, the label assignment
    and removal checks, label replacement, and the two listings. The
    requesting user is the parameter `user`. */
module Api {
  import opened Dates
  import opened Collections
  import opened Models
  import opened Reconciliation
  import opened Services
  import EntryOps

  /** Why a request fails. All of them are 404 responses except
      `MultipleParagraphs`, the `MultipleObjectsReturned` that `.get()`
      raises when two paragraphs of the entry share the requested order. */
  datatype Error =
    | EntryNotFound
    | ParagraphsMissing
    | LabelNotFound
    | ParagraphNotFound
    | MultipleParagraphs

  datatype Outcome<T> = Ok(value: T) | Fail(error: Error)

  /** `get_object_or_404` over the rows a user owns: the position of a
      row with id `id` owned by `user`; rows of other users are not found. */
  function FindOwned<T>(rows: seq<T>, idOf: T -> int, ownerOf: T -> nat, user: nat, id: int): (r: Option<nat>)
    ensures r.Some? ==> r.value < |rows| && idOf(rows[r.value]) == id && ownerOf(rows[r.value]) == user
    ensures r.None? ==> forall i :: 0 <= i < |rows| ==> idOf(rows[i]) != id || ownerOf(rows[i]) != user
    decreases |rows|
  {
    if rows == [] then None
    else if idOf(rows[|rows| - 1]) == id && ownerOf(rows[|rows| - 1]) == user then Some(|rows| - 1)
    else FindOwned(rows[..|rows| - 1], idOf, ownerOf, user, id)
  }

  /** With ids increasing along the table, the lookup finds the row
      carrying the id when the user owns it, and nothing otherwise. */
  lemma OwnedLookupIsScoped<T>(rows: seq<T>, idOf: T -> int, ownerOf: T -> nat, user: nat, id: int)
    requires forall i, j :: 0 <= i < j < |rows| ==> idOf(rows[i]) < idOf(rows[j])
    ensures forall i :: 0 <= i < |rows| && idOf(rows[i]) == id ==>
      FindOwned(rows, idOf, ownerOf, user, id) == if ownerOf(rows[i]) == user then Some(i) else None
  {
    forall i | 0 <= i < |rows| && idOf(rows[i]) == id
      ensures FindOwned(rows, idOf, ownerOf, user, id) == if ownerOf(rows[i]) == user then Some(i) else None
    {
      var r := FindOwned(rows, idOf, ownerOf, user, id);
      if r.Some? && r.value != i {
        assert false;
      }
    }
  }

  /** `_get_entry`: the position of the user's entry with id `id`. */
  function FindEntry(es: seq<Entry>, user: nat, id: int): (r: Option<nat>)
    ensures r.Some? ==> r.value < |es| && es[r.value].id == id && es[r.value].owner == user
    ensures r.None? ==> forall i :: 0 <= i < |es| ==> es[i].id != id || es[i].owner != user
  {
    FindOwned(es, (x: Entry) => x.id, (x: Entry) => x.owner, user, id)
  }

  /** `_get_label`: the position of the user's label with id `id`. */
  function FindLabel(ls: seq<Label>, user: nat, id: int): (r: Option<nat>)
    ensures r.Some? ==> r.value < |ls| && ls[r.value].id == id && ls[r.value].owner == user
    ensures r.None? ==> forall i :: 0 <= i < |ls| ==> ls[i].id != id || ls[i].owner != user
  {
    FindOwned(ls, (x: Label) => x.id, (x: Label) => x.owner, user, id)
  }

  /** With unique ids the lookup finds the user's own row, and an id that
      belongs to another user's entry or label is not found. */
  lemma LookupsAreScoped(es: seq<Entry>, ls: seq<Label>, user: nat, id: int)
    requires forall i, j :: 0 <= i < j < |es| ==> es[i].id < es[j].id
    requires forall i, j :: 0 <= i < j < |ls| ==> ls[i].id < ls[j].id
    ensures forall i :: 0 <= i < |es| && es[i].id == id ==>
      FindEntry(es, user, id) == if es[i].owner == user then Some(i) else None
    ensures forall i :: 0 <= i < |ls| && ls[i].id == id ==>
      FindLabel(ls, user, id) == if ls[i].owner == user then Some(i) else None
  {
    OwnedLookupIsScoped(es, (x: Entry) => x.id, (x: Entry) => x.owner, user, id);
    OwnedLookupIsScoped(ls, (x: Label) => x.id, (x: Label) => x.owner, user, id);
  }

  /** `entry.paragraphs.filter(order__in=orders)`: the positions, in table
      order, of the paragraphs of entry `e` whose order is listed. */
  function Selected(ps: seq<Paragraph>, e: int, orders: seq<int>): (r: seq<int>)
    ensures forall i :: i in r <==> 0 <= i < |ps| && ps[i].entry == e && ps[i].order in orders
    ensures forall a, b :: 0 <= a < b < |r| ==> r[a] < r[b]
    decreases |ps|
  {
    if ps == [] then []
    else
      var n := |ps| - 1;
      var rest := Selected(ps[..n], e, orders);
      assert forall i :: 0 <= i < n ==> ps[..n][i] == ps[i];
      assert forall a :: 0 <= a < |rest| ==> rest[a] in rest;
      if ps[n].entry == e && ps[n].order in orders then rest + [n] else rest
  }

  /** The check of `assign_label`: as many paragraphs selected as orders
      requested. */
  predicate AllSelected(ps: seq<Paragraph>, e: int, orders: seq<int>) {
    |Selected(ps, e, orders)| == |orders|
  }

  /** `order` is the order of some paragraph of entry `e`. */
  ghost predicate HasOrder(ps: seq<Paragraph>, e: int, order: int) {
    exists i :: 0 <= i < |ps| && ps[i].entry == e && ps[i].order == order
  }

  /** When the entry's orders are unique and the request names each order
      once, the count check passes exactly when every requested order is
      the order of a paragraph of the entry. */
  lemma AllSelectedMeansAllExist(ps: seq<Paragraph>, e: nat, orders: seq<int>)
    requires UniqueOrders(ps, e) && NoDuplicates(orders)
    ensures AllSelected(ps, e, orders) <==> forall o :: o in orders ==> HasOrder(ps, e, o)
  {
    var sel := Selected(ps, e, orders);
    var found := set i | i in sel :: OrderAt(ps, i);
    var requested := set o | o in orders;
    assert |requested| == |orders| by {
      DistinctCount(orders);
    }
    assert |found| == |sel| by {
      forall a, b | a in sel && b in sel && OrderAt(ps, a) == OrderAt(ps, b) ensures a == b {
      }
      OrdersOfPositions(ps, sel);
    }
    FoundIsRequested(ps, e, orders);
    if |found| == |requested| {
      SubsetOfSameSize(found, requested);
    }
  }

  function OrderAt(ps: seq<Paragraph>, i: int): int {
    if 0 <= i < |ps| then ps[i].order else 0
  }

  /** Distinct positions with pairwise different orders have as many
      orders as positions. */
  lemma {:induction false} OrdersOfPositions(ps: seq<Paragraph>, sel: seq<int>)
    requires NoDuplicates(sel)
    requires forall a, b :: a in sel && b in sel && OrderAt(ps, a) == OrderAt(ps, b) ==> a == b
    ensures |set i | i in sel :: OrderAt(ps, i)| == |sel|
    decreases |sel|
  {
    if sel != [] {
      var init, x := sel[..|sel| - 1], sel[|sel| - 1];
      assert sel == init + [x];
      OrdersOfPositions(ps, init);
      assert (set i | i in sel :: OrderAt(ps, i)) == (set i | i in init :: OrderAt(ps, i)) + {OrderAt(ps, x)};
      assert x !in init;
    }
  }

  /** The orders of the selected paragraphs are all the requested orders
      exactly when every requested order exists. */
  lemma FoundIsRequested(ps: seq<Paragraph>, e: int, orders: seq<int>)
    ensures (set i | i in Selected(ps, e, orders) :: OrderAt(ps, i)) <= (set o | o in orders)
    ensures (set i | i in Selected(ps, e, orders) :: OrderAt(ps, i)) == (set o | o in orders)
      <==> forall o :: o in orders ==> HasOrder(ps, e, o)
  {
    var sel := Selected(ps, e, orders);
    var found := set i | i in sel :: OrderAt(ps, i);
    var requested := set o | o in orders;
    if forall o :: o in orders ==> HasOrder(ps, e, o) {
      forall o | o in requested ensures o in found {
        var i :| 0 <= i < |ps| && ps[i].entry == e && ps[i].order == o;
        assert i in sel;
      }
    }
    if found == requested {
      forall o | o in orders ensures HasOrder(ps, e, o) {
        assert o in found;
        var i :| i in sel && o == OrderAt(ps, i);
      }
    }
  }

  /** When the entry's orders are unique, a request that names some order
      twice always fails the check: each order selects at most one
      paragraph, so fewer paragraphs than requested orders are found. */
  lemma RepeatedOrderFails(ps: seq<Paragraph>, e: nat, orders: seq<int>)
    requires UniqueOrders(ps, e) && !NoDuplicates(orders)
    ensures !AllSelected(ps, e, orders)
  {
    var sel := Selected(ps, e, orders);
    var found := set i | i in sel :: OrderAt(ps, i);
    var requested := set o | o in orders;
    assert |requested| < |orders| by {
      DistinctCount(orders);
    }
    assert |found| == |sel| by {
      forall a, b | a in sel && b in sel && OrderAt(ps, a) == OrderAt(ps, b) ensures a == b {
      }
      OrdersOfPositions(ps, sel);
    }
    FoundIsRequested(ps, e, orders);
    SubsetSize(found, requested);
  }

  /** Since orders are not unique, two paragraphs sharing an order can
      stand in for a missing one: the check passes although order 2 does
      not exist. */
  lemma SharedOrderHidesMissingOne(e: nat, a: string, b: string)
    ensures var ps := [Paragraph(1, e, 1, a, {}), Paragraph(2, e, 1, b, {})];
      !HasOrder(ps, e, 2) && AllSelected(ps, e, [1, 2])
  {
    var ps := [Paragraph(1, e, 1, a, {}), Paragraph(2, e, 1, b, {})];
    assert ps[..1] == [Paragraph(1, e, 1, a, {})];
    assert Selected(ps[..1], e, [1, 2]) == Selected([], e, [1, 2]) + [0];
  }

  /** What `assign_label` answers: the entry lookup, then the paragraph
      check, then the label lookup; on success the entry's position. */
  function AssignLabelOutcome(
    es: seq<Entry>, ps: seq<Paragraph>, ls: seq<Label>,
    user: nat, entryId: int, orders: seq<int>, labelId: int): (r: Outcome<nat>)
    ensures r.Ok? <==>
      FindEntry(es, user, entryId).Some?
      && AllSelected(ps, entryId, orders)
      && FindLabel(ls, user, labelId).Some?
    ensures r.Ok? ==> r.value < |es| && es[r.value].id == entryId && es[r.value].owner == user
    ensures r == Fail(LabelNotFound) ==> AllSelected(ps, entryId, orders)
    ensures r == Fail(EntryNotFound) <==> FindEntry(es, user, entryId).None?
    ensures r == Fail(ParagraphsMissing) <==>
      FindEntry(es, user, entryId).Some? && !AllSelected(ps, entryId, orders)
    ensures r == Fail(LabelNotFound) <==>
      FindEntry(es, user, entryId).Some? && AllSelected(ps, entryId, orders)
      && FindLabel(ls, user, labelId).None?
  {
    match FindEntry(es, user, entryId)
    case None => Fail(EntryNotFound)
    case Some(i) =>
      if !AllSelected(ps, es[i].id, orders) then Fail(ParagraphsMissing)
      else if FindLabel(ls, user, labelId).None? then Fail(LabelNotFound)
      else Ok(i)
  }

  /** `assign_label`: on success the label is linked to every selected
      paragraph; on failure nothing changes. */
  method AssignLabel(j: Journal, user: nat, entryId: int, orders: seq<int>, labelId: int)
    returns (r: Outcome<nat>)
    requires j.Valid()
    modifies j
    ensures j.Valid()
    ensures r == AssignLabelOutcome(old(j.entries), old(j.paragraphs), old(j.labels), user, entryId, orders, labelId)
    ensures r.Ok? ==> (j.paragraphs ==
      EntryOps.AddLabel(old(j.paragraphs), EntryOps.Positions(Selected(old(j.paragraphs), entryId, orders)), labelId))
    ensures r.Fail? ==> j.paragraphs == old(j.paragraphs)
    ensures j.entries == old(j.entries) && j.labels == old(j.labels)
    ensures j.nextEntryId == old(j.nextEntryId) && j.nextParagraphId == old(j.nextParagraphId)
    ensures j.nextLabelId == old(j.nextLabelId)
  {
    var found := FindEntry(j.entries, user, entryId);
    if found.None? {
      return Fail(EntryNotFound);
    }
    var sel := Selected(j.paragraphs, entryId, orders);
    if |sel| != |orders| {
      return Fail(ParagraphsMissing);
    }
    var labelAt := FindLabel(j.labels, user, labelId);
    if labelAt.None? {
      return Fail(LabelNotFound);
    }
    assert labelId in LabelIds(j.labels) by {
      assert j.labels[labelAt.value] in j.labels;
    }
    assert forall k :: 0 <= k < |sel| ==> sel[k] in sel;
    j.AssignLabelToParagraphs(sel, labelId);
    r := Ok(found.value);
  }

  /** What `remove_label` answers: the entry lookup, then the paragraph
      with the given order (none, or more than one, is an error), then the
      label lookup; on success the paragraph's position. */
  function RemoveLabelOutcome(
    es: seq<Entry>, ps: seq<Paragraph>, ls: seq<Label>,
    user: nat, entryId: int, order: int, labelId: int): (r: Outcome<nat>)
    ensures r == Fail(EntryNotFound) <==> FindEntry(es, user, entryId).None?
    ensures r == Fail(ParagraphNotFound) <==>
      FindEntry(es, user, entryId).Some? && !HasOrder(ps, entryId, order)
    ensures r == Fail(MultipleParagraphs) <==>
      FindEntry(es, user, entryId).Some? && |Selected(ps, entryId, [order])| > 1
    ensures r == Fail(LabelNotFound) <==>
      FindEntry(es, user, entryId).Some? && |Selected(ps, entryId, [order])| == 1
      && FindLabel(ls, user, labelId).None?
    ensures r.Ok? <==>
      FindEntry(es, user, entryId).Some? && |Selected(ps, entryId, [order])| == 1
      && FindLabel(ls, user, labelId).Some?
    ensures r.Ok? ==>
      r.value == Selected(ps, entryId, [order])[0]
      && r.value < |ps| && ps[r.value].entry == entryId && ps[r.value].order == order
  {
    match FindEntry(es, user, entryId)
    case None => Fail(EntryNotFound)
    case Some(i) =>
      var matching := Selected(ps, es[i].id, [order]);
      if |matching| == 0 then
        assert !HasOrder(ps, entryId, order) by {
          forall k | 0 <= k < |ps| && ps[k].entry == entryId ensures ps[k].order != order {
            assert k !in matching;
          }
        }
        Fail(ParagraphNotFound)
      else if |matching| > 1 then
        assert HasOrder(ps, entryId, order) by {
          assert matching[0] in matching;
        }
        Fail(MultipleParagraphs)
      else if FindLabel(ls, user, labelId).None? then
        assert HasOrder(ps, entryId, order) by {
          assert matching[0] in matching;
        }
        Fail(LabelNotFound)
      else
        assert matching[0] in matching;
        Ok(matching[0])
  }

  /** `remove_label`: on success the link is removed from that paragraph
      only; on failure nothing changes. */
  method RemoveLabel(j: Journal, user: nat, entryId: int, order: int, labelId: int)
    returns (r: Outcome<nat>)
    requires j.Valid()
    modifies j
    ensures j.Valid()
    ensures r == RemoveLabelOutcome(old(j.entries), old(j.paragraphs), old(j.labels), user, entryId, order, labelId)
    ensures r.Ok? ==> r.value < |old(j.paragraphs)| && j.paragraphs == EntryOps.RemoveLabel(old(j.paragraphs), r.value, labelId)
    ensures r.Fail? ==> j.paragraphs == old(j.paragraphs)
    ensures j.entries == old(j.entries) && j.labels == old(j.labels)
    ensures j.nextEntryId == old(j.nextEntryId) && j.nextParagraphId == old(j.nextParagraphId)
    ensures j.nextLabelId == old(j.nextLabelId)
  {
    r := RemoveLabelOutcome(j.entries, j.paragraphs, j.labels, user, entryId, order, labelId);
    if r.Ok? {
      j.RemoveLabelFromParagraph(r.value, labelId);
    }
  }

  /** `update_label`: the user's label takes the payload's name and
      description, a missing description included. */
  method UpdateLabel(j: Journal, user: nat, labelId: int, name: string, description: Option<string>)
    returns (r: Outcome<nat>)
    requires j.Valid() && |name| <= MaxLabelNameLength
    modifies j
    ensures j.Valid()
    ensures r.Ok? <==> FindLabel(old(j.labels), user, labelId).Some?
    ensures r.Fail? ==> r.error == LabelNotFound && j.labels == old(j.labels)
    ensures r.Ok? ==> (r.value < |old(j.labels)| && r.value == FindLabel(old(j.labels), user, labelId).value
      && j.labels == old(j.labels)[r.value := Label(labelId, user, name, description)])
    ensures j.entries == old(j.entries) && j.paragraphs == old(j.paragraphs)
    ensures j.nextEntryId == old(j.nextEntryId) && j.nextParagraphId == old(j.nextParagraphId)
    ensures j.nextLabelId == old(j.nextLabelId)
  {
    var found := FindLabel(j.labels, user, labelId);
    if found.None? {
      return Fail(LabelNotFound);
    }
    j.UpdateLabel(found.value, name, description);
    r := Ok(found.value);
  }

  /** Entry listing order: later dates first, then higher ids. */
  predicate NewerFirst(a: Entry, b: Entry) {
    Before(b.date, a.date) || (a.date == b.date && a.id >= b.id)
  }

  lemma NewerFirstIsPreorder()
    ensures TotalPreorder(NewerFirst)
  {
    forall a: Entry, b: Entry ensures NewerFirst(a, b) || NewerFirst(b, a) {
      BeforeIsStrictTotalOrder(a.date, b.date, b.date);
    }
    forall a: Entry, b: Entry, c: Entry | NewerFirst(a, b) && NewerFirst(b, c) ensures NewerFirst(a, c) {
      BeforeIsStrictTotalOrder(c.date, b.date, a.date);
    }
  }

  /** The bookmark filter: no filter when it is not given. */
  predicate PassesFilter(x: Entry, bookmarked: Option<bool>) {
    bookmarked.None? || x.bookmarked == bookmarked.value
  }

  /** `get_journal_entries`: the user's entries, newest first, filtered by
      bookmark only when the filter is given. */
  method GetJournalEntries(es: seq<Entry>, user: nat, bookmarked: Option<bool>) returns (r: seq<Entry>)
    ensures SortedBy(r, NewerFirst)
    ensures forall x :: x in r <==> x in es && x.owner == user && PassesFilter(x, bookmarked)
    ensures multiset(r) == multiset(Filter(OfUser(es, user), (x: Entry) => PassesFilter(x, bookmarked)))
  {
    NewerFirstIsPreorder();
    var own := OfUser(es, user);
    r := Sort(own, NewerFirst);
    if bookmarked.Some? {
      FilterSortedListing(own, r, bookmarked.value);
      r := Filter(r, (x: Entry) => x.bookmarked == bookmarked.value);
    } else {
      SortKeepsMembers(own, NewerFirst);
    }
  }

  /** Filtering the sorted listing by bookmark keeps it sorted and keeps the
      bookmarked entries of the user's. */
  lemma FilterSortedListing(own: seq<Entry>, sorted: seq<Entry>, b: bool)
    requires SortedBy(sorted, NewerFirst) && multiset(sorted) == multiset(own)
    ensures SortedBy(Filter(sorted, (x: Entry) => x.bookmarked == b), NewerFirst)
    ensures multiset(Filter(sorted, (x: Entry) => x.bookmarked == b))
      == multiset(Filter(own, (x: Entry) => PassesFilter(x, Some(b))))
    ensures forall x :: x in Filter(sorted, (x: Entry) => x.bookmarked == b) <==> x in own && x.bookmarked == b
  {
    FilterKeepsSorted(sorted, (x: Entry) => x.bookmarked == b, NewerFirst);
    SameElementsFiltered(own, sorted, b);
    forall x ensures x in sorted <==> x in own {
      assert x in sorted <==> x in multiset(sorted);
      assert x in own <==> x in multiset(own);
    }
  }

  lemma SameElementsFiltered(own: seq<Entry>, sorted: seq<Entry>, b: bool)
    requires multiset(sorted) == multiset(own)
    ensures multiset(Filter(sorted, (x: Entry) => x.bookmarked == b))
      == multiset(Filter(own, (x: Entry) => PassesFilter(x, Some(b))))
  {
    var l, r := multiset(Filter(sorted, (x: Entry) => x.bookmarked == b)),
      multiset(Filter(own, (x: Entry) => PassesFilter(x, Some(b))));
    forall x ensures l[x] == r[x] {
    }
  }

  /** A paragraph carrying a label, with its entry (`select_related`). */
  datatype LabelParagraph = LabelParagraph(paragraph: Paragraph, entry: Entry)

  /** The entry with id `id`, if any. */
  function EntryById(es: seq<Entry>, id: nat): (r: Option<Entry>)
    ensures r.Some? ==> r.value in es && r.value.id == id
    ensures r.None? ==> id !in EntryIds(es)
    decreases |es|
  {
    if es == [] then None
    else if es[|es| - 1].id == id then Some(es[|es| - 1])
    else
      var r := EntryById(es[..|es| - 1], id);
      assert r.None? ==> id !in EntryIds(es) by {
        assert es == es[..|es| - 1] + [es[|es| - 1]];
      }
      r
  }

  /** The paragraphs carrying label `l`, each joined with its entry. */
  function Tagged(es: seq<Entry>, ps: seq<Paragraph>, l: nat): (r: seq<LabelParagraph>)
    ensures forall x :: x in r ==>
      x.paragraph in ps && l in x.paragraph.labels && x.entry in es && x.entry.id == x.paragraph.entry
    ensures forall p :: p in ps && l in p.labels && p.entry in EntryIds(es) ==>
      exists x :: x in r && x.paragraph == p
    decreases |ps|
  {
    if ps == [] then []
    else
      var n := |ps| - 1;
      var rest := Tagged(es, ps[..n], l);
      var p := ps[n];
      assert ps == ps[..n] + [p];
      var joined := EntryById(es, p.entry);
      if l in p.labels && joined.Some? then
        var r := rest + [LabelParagraph(p, joined.value)];
        assert LabelParagraph(p, joined.value) in r;
        r
      else rest
  }

  /** The rows `filter(labels=l)` keeps, in table order: the paragraphs
      carrying `l` whose entry exists. */
  function TaggedRows(es: seq<Entry>, ps: seq<Paragraph>, l: nat): seq<Paragraph> {
    Filter(ps, (p: Paragraph) => l in p.labels && p.entry in EntryIds(es))
  }

  lemma TaggedRowsSnoc(es: seq<Entry>, ps: seq<Paragraph>, q: Paragraph, l: nat)
    ensures TaggedRows(es, ps + [q], l) ==
      TaggedRows(es, ps, l) + if l in q.labels && q.entry in EntryIds(es) then [q] else []
  {
    assert (ps + [q])[..|ps + [q]| - 1] == ps;
  }

  /** The paragraphs of a label listing, without their entries. */
  function ParagraphsOf(r: seq<LabelParagraph>): seq<Paragraph> {
    seq(|r|, i requires 0 <= i < |r| => r[i].paragraph)
  }

  /** The joined listing holds exactly the tagged rows, each as often as the
      table holds it and in table order. */
  lemma {:induction false} TaggedIsFilter(es: seq<Entry>, ps: seq<Paragraph>, l: nat)
    ensures ParagraphsOf(Tagged(es, ps, l)) == TaggedRows(es, ps, l)
    decreases |ps|
  {
    if ps != [] {
      var n := |ps| - 1;
      var p := ps[n];
      assert ps == ps[..n] + [p];
      TaggedIsFilter(es, ps[..n], l);
      TaggedRowsSnoc(es, ps[..n], p, l);
      var joined := EntryById(es, p.entry);
      var rest := Tagged(es, ps[..n], l);
      if l in p.labels && joined.Some? {
        assert Tagged(es, ps, l) == rest + [LabelParagraph(p, joined.value)];
        ParagraphsOfSnoc(rest, LabelParagraph(p, joined.value));
      } else {
        assert Tagged(es, ps, l) == rest;
      }
    }
  }

  lemma ParagraphsOfSnoc(r: seq<LabelParagraph>, x: LabelParagraph)
    ensures ParagraphsOf(r + [x]) == ParagraphsOf(r) + [x.paragraph]
  {
  }

  /** Label paragraph listing order: later entry dates first, then lower
      paragraph ids. */
  predicate LaterEntryFirst(a: LabelParagraph, b: LabelParagraph) {
    Before(b.entry.date, a.entry.date) || (a.entry.date == b.entry.date && a.paragraph.id <= b.paragraph.id)
  }

  lemma LaterEntryFirstIsPreorder()
    ensures TotalPreorder(LaterEntryFirst)
  {
    forall a: LabelParagraph, b: LabelParagraph ensures LaterEntryFirst(a, b) || LaterEntryFirst(b, a) {
      BeforeIsStrictTotalOrder(a.entry.date, b.entry.date, b.entry.date);
    }
    forall a: LabelParagraph, b: LabelParagraph, c: LabelParagraph | LaterEntryFirst(a, b) && LaterEntryFirst(b, c)
      ensures LaterEntryFirst(a, c)
    {
      BeforeIsStrictTotalOrder(c.entry.date, b.entry.date, a.entry.date);
    }
  }

  /** `get_label_paragraphs`: for the user's label, every paragraph that
      carries it, with its entry, by entry date descending and then by
      paragraph id. */
  function GetLabelParagraphs(es: seq<Entry>, ps: seq<Paragraph>, ls: seq<Label>, user: nat, labelId: int)
    : (r: Outcome<seq<LabelParagraph>>)
    ensures r.Fail? <==> FindLabel(ls, user, labelId).None?
    ensures r.Fail? ==> r.error == LabelNotFound
    ensures r.Ok? ==> SortedBy(r.value, LaterEntryFirst)
    ensures r.Ok? ==> forall x :: x in r.value ==>
      x.paragraph in ps && labelId in x.paragraph.labels && x.entry in es && x.entry.id == x.paragraph.entry
    ensures r.Ok? ==> forall p :: p in ps && labelId in p.labels && p.entry in EntryIds(es) ==>
      exists x :: x in r.value && x.paragraph == p
    ensures r.Ok? ==> multiset(r.value) == multiset(Tagged(es, ps, labelId))
  {
    match FindLabel(ls, user, labelId)
    case None => Fail(LabelNotFound)
    case Some(i) =>
      var l := ls[i].id;
      var tagged := Tagged(es, ps, l);
      LaterEntryFirstIsPreorder();
      SortKeepsMembers(tagged, LaterEntryFirst);
      Ok(Sort(tagged, LaterEntryFirst))
  }
}
