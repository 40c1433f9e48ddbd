/** The paragraph reconciliation `update_entry` runs when a request carries
    a paragraph list: request paragraphs are matched to the entry's existing
    paragraphs by `order`; a match gets the new content in place (and loses
    its labels when the paragraph count changed), the rest are inserted as
    new rows. Nothing is deleted. */
module Reconciliation {
  import opened Collections
  import opened Models

  /** The dictionary `update_entry` builds from the entry's paragraphs,
      keyed by order, as a map from order to table position. When several
      paragraphs share an order the dictionary keeps one of them; the
      listing fixes only the ascending `order`, so which one is left open.
      This model chooses the later row (the higher id). */
  function ByOrder(ps: seq<Paragraph>, e: nat): (m: map<int, nat>)
    ensures forall o :: o in m ==> m[o] < |ps| && ps[m[o]].entry == e && ps[m[o]].order == o
    ensures forall j :: 0 <= j < |ps| && ps[j].entry == e ==> ps[j].order in m && j <= m[ps[j].order]
    decreases |ps|
  {
    if ps == [] then map[]
    else
      var n := |ps| - 1;
      var prev := ByOrder(ps[..n], e);
      if ps[n].entry == e then prev[ps[n].order := n] else prev
  }

  /** The orders present among the paragraphs of entry `e`. */
  function OrdersOf(ps: seq<Paragraph>, e: nat): set<int> {
    set p | p in ps && p.entry == e :: p.order
  }

  /** The paragraph at `j` is the one the dictionary keeps for its order:
      it belongs to `e` and no later paragraph of `e` has the same order. */
  ghost predicate Kept(ps: seq<Paragraph>, e: nat, j: int) {
    && 0 <= j < |ps|
    && ps[j].entry == e
    && forall k :: j < k < |ps| && ps[k].entry == e ==> ps[k].order != ps[j].order
  }

  /** The dictionary's keys are the entry's orders, and the paragraph it
      keeps for an order is the last one with that order. */
  lemma ByOrderIsLastPerOrder(ps: seq<Paragraph>, e: nat)
    ensures ByOrder(ps, e).Keys == OrdersOf(ps, e)
    ensures forall j :: 0 <= j < |ps| ==>
      (ps[j].order in ByOrder(ps, e) && ByOrder(ps, e)[ps[j].order] == j <==> Kept(ps, e, j))
  {
    var m := ByOrder(ps, e);
    forall o | o in OrdersOf(ps, e) ensures o in m {
      var p :| p in ps && p.entry == e && p.order == o;
      var j :| 0 <= j < |ps| && ps[j] == p;
    }
    forall j | 0 <= j < |ps| && Kept(ps, e, j)
      ensures ps[j].order in m && m[ps[j].order] == j
    {
      var k := m[ps[j].order];
      assert ps[k].entry == e && ps[k].order == ps[j].order;
    }
  }

  /** The paragraph at `i` takes the request's content and, when `wipe`,
      loses its labels (`entry_paragraph.labels.clear()`). */
  function UpdateAt(ps: seq<Paragraph>, i: nat, content: string, wipe: bool): seq<Paragraph>
    requires i < |ps|
  {
    ps[i := ps[i].(content := content, labels := if wipe then {} else ps[i].labels)]
  }

  /** The table after the loop over the request's paragraphs has handled
      `specs`: each one whose order is a key of `byOrder` updates that row. */
  function ApplyUpdates(ps: seq<Paragraph>, byOrder: map<int, nat>, wipe: bool, specs: seq<ParagraphSpec>): (r: seq<Paragraph>)
    requires forall o :: o in byOrder ==> byOrder[o] < |ps|
    ensures |r| == |ps|
    decreases |specs|
  {
    if specs == [] then ps
    else
      var prev := ApplyUpdates(ps, byOrder, wipe, specs[..|specs| - 1]);
      var s := specs[|specs| - 1];
      if s.order in byOrder then UpdateAt(prev, byOrder[s.order], s.content, wipe) else prev
  }

  /** One more turn of the loop over the request paragraphs. */
  lemma ApplyUpdatesStep(ps: seq<Paragraph>, byOrder: map<int, nat>, wipe: bool, specs: seq<ParagraphSpec>, k: int)
    requires forall o :: o in byOrder ==> byOrder[o] < |ps|
    requires 0 <= k < |specs|
    ensures var prev := ApplyUpdates(ps, byOrder, wipe, specs[..k]);
      ApplyUpdates(ps, byOrder, wipe, specs[..k + 1])
        == if specs[k].order in byOrder then UpdateAt(prev, byOrder[specs[k].order], specs[k].content, wipe) else prev
  {
    assert specs[..k + 1][..k] == specs[..k];
  }

  /** `paragraphs_to_create`: the request paragraphs whose order matches no
      key, in request order. */
  function Unmatched(byOrder: map<int, nat>, specs: seq<ParagraphSpec>): seq<ParagraphSpec>
    decreases |specs|
  {
    if specs == [] then []
    else
      var n := |specs| - 1;
      Unmatched(byOrder, specs[..n]) + if specs[n].order in byOrder then [] else [specs[n]]
  }

  /** `paragraphs_to_create` holds each request paragraph whose order is
      not a key as often as the request does, and no other. */
  lemma {:induction false} UnmatchedCount(byOrder: map<int, nat>, specs: seq<ParagraphSpec>)
    ensures |Unmatched(byOrder, specs)| <= |specs|
    ensures forall s :: multiset(Unmatched(byOrder, specs))[s] == if s.order in byOrder then 0 else multiset(specs)[s]
    decreases |specs|
  {
    if specs != [] {
      var n := |specs| - 1;
      var init, last := specs[..n], specs[n];
      UnmatchedCount(byOrder, init);
      assert specs == init + [last];
      var u := Unmatched(byOrder, init) + if last.order in byOrder then [] else [last];
      assert Unmatched(byOrder, specs) == u;
      forall s: ParagraphSpec ensures multiset(u)[s] == if s.order in byOrder then 0 else multiset(specs)[s] {
        assert multiset(specs)[s] == multiset(init)[s] + multiset([last])[s];
        assert multiset(u)[s] == multiset(Unmatched(byOrder, init))[s]
          + multiset(if last.order in byOrder then [] else [last])[s];
      }
    }
  }

  /** One more request paragraph extends `paragraphs_to_create` by itself
      exactly when its order is not a key. */
  lemma UnmatchedSnoc(byOrder: map<int, nat>, specs: seq<ParagraphSpec>, s: ParagraphSpec)
    ensures Unmatched(byOrder, specs + [s]) == Unmatched(byOrder, specs) + if s.order in byOrder then [] else [s]
  {
    assert (specs + [s])[..|specs + [s]| - 1] == specs;
  }

  /** One more turn of the loop, for `paragraphs_to_create`. */
  lemma UnmatchedStep(byOrder: map<int, nat>, specs: seq<ParagraphSpec>, k: int)
    requires 0 <= k < |specs|
    ensures Unmatched(byOrder, specs[..k + 1])
      == Unmatched(byOrder, specs[..k]) + if specs[k].order in byOrder then [] else [specs[k]]
  {
    assert specs[..k + 1] == specs[..k] + [specs[k]];
    UnmatchedSnoc(byOrder, specs[..k], specs[k]);
  }

  /** The rows a bulk insert of `specs` adds to entry `e`, with ids handed
      out from `next` on and no labels. */
  function NewRows(e: nat, specs: seq<ParagraphSpec>, next: nat): seq<Paragraph> {
    seq(|specs|, k requires 0 <= k < |specs| => Paragraph(next + k, e, specs[k].order, specs[k].content, {}))
  }

  /** The paragraph table after `update_entry` ran on entry `e` with the
      paragraph list `specs`; the inserted rows get ids from `next` on. */
  function Reconcile(ps: seq<Paragraph>, e: nat, specs: seq<ParagraphSpec>, next: nat): seq<Paragraph> {
    var byOrder := ByOrder(ps, e);
    var wipe := |specs| != |OfEntry(ps, e)|;
    ApplyUpdates(ps, byOrder, wipe, specs) + NewRows(e, Unmatched(byOrder, specs), next)
  }

  /** The content of the last request paragraph with order `o`, if any. */
  function LastContent(specs: seq<ParagraphSpec>, o: int): (r: Option<string>)
    ensures r.Some? <==> exists k :: 0 <= k < |specs| && specs[k].order == o
    decreases |specs|
  {
    if specs == [] then None
    else if specs[|specs| - 1].order == o then Some(specs[|specs| - 1].content)
    else LastContent(specs[..|specs| - 1], o)
  }

  /** After the loop, a row has changed only if the map sends some request
      paragraph's order to it; it then carries the last such content, and
      its labels are gone exactly when `wipe`. */
  lemma {:induction false} ApplyUpdatesAt(
    ps: seq<Paragraph>, byOrder: map<int, nat>, wipe: bool, specs: seq<ParagraphSpec>, j: int)
    requires forall o :: o in byOrder ==> byOrder[o] < |ps| && ps[byOrder[o]].order == o
    requires 0 <= j < |ps|
    ensures
      var r := ApplyUpdates(ps, byOrder, wipe, specs);
      var o := ps[j].order;
      r[j] == if o in byOrder && byOrder[o] == j && LastContent(specs, o).Some?
              then ps[j].(content := LastContent(specs, o).value, labels := if wipe then {} else ps[j].labels)
              else ps[j]
    decreases |specs|
  {
    if specs != [] {
      ApplyUpdatesAt(ps, byOrder, wipe, specs[..|specs| - 1], j);
    }
  }

  /** The whole effect of reconciliation on an existing row: it is changed
      only when it is the row kept for its order and the request carries
      that order; it then holds the request's (last) content for the order
      and, exactly when the paragraph count changed, no labels. Every
      existing row survives with its id, entry and order. */
  lemma ReconcileExisting(ps: seq<Paragraph>, e: nat, specs: seq<ParagraphSpec>, next: nat, j: int)
    requires 0 <= j < |ps|
    ensures |Reconcile(ps, e, specs, next)| >= |ps|
    ensures
      var r := Reconcile(ps, e, specs, next);
      var o := ps[j].order;
      r[j] == if Kept(ps, e, j) && LastContent(specs, o).Some?
              then ps[j].(content := LastContent(specs, o).value,
                          labels := if |specs| != |OfEntry(ps, e)| then {} else ps[j].labels)
              else ps[j]
  {
    var byOrder := ByOrder(ps, e);
    var wipe := |specs| != |OfEntry(ps, e)|;
    ByOrderIsLastPerOrder(ps, e);
    ApplyUpdatesAt(ps, byOrder, wipe, specs, j);
  }

  /** The rows reconciliation appends: one per request paragraph left
      unmatched (see `UnmatchedOrders`), in request order, each with that
      order and content, no labels, and the next free ids. */
  lemma ReconcileInserted(ps: seq<Paragraph>, e: nat, specs: seq<ParagraphSpec>, next: nat)
    ensures |Reconcile(ps, e, specs, next)| == |ps| + |Unmatched(ByOrder(ps, e), specs)|
    ensures Reconcile(ps, e, specs, next)[|ps|..] == NewRows(e, Unmatched(ByOrder(ps, e), specs), next)
  {
    var a := ReconcileSplit(ps, e, specs, next);
    assert (a + NewRows(e, Unmatched(ByOrder(ps, e), specs), next))[|a|..] == NewRows(e, Unmatched(ByOrder(ps, e), specs), next);
  }

  /** Reconciliation keeps as many rows as the table had, then appends the
      new rows. */
  lemma ReconcileSplit(ps: seq<Paragraph>, e: nat, specs: seq<ParagraphSpec>, next: nat)
    returns (a: seq<Paragraph>)
    ensures |a| == |ps|
    ensures Reconcile(ps, e, specs, next) == a + NewRows(e, Unmatched(ByOrder(ps, e), specs), next)
  {
    a := ApplyUpdates(ps, ByOrder(ps, e), |specs| != |OfEntry(ps, e)|, specs);
  }

  /** The request paragraphs left for insertion are those whose order the
      entry does not have yet. */
  lemma UnmatchedOrders(ps: seq<Paragraph>, e: nat, specs: seq<ParagraphSpec>)
    ensures forall s ::
              multiset(Unmatched(ByOrder(ps, e), specs))[s]
                == if s.order in OrdersOf(ps, e) then 0 else multiset(specs)[s]
  {
    var byOrder := ByOrder(ps, e);
    ByOrderIsLastPerOrder(ps, e);
    UnmatchedCount(byOrder, specs);
  }

  /** With as many request paragraphs as the entry has, every label link
      survives; otherwise every matched row loses its labels while the
      unmatched rows keep theirs. */
  lemma ReconcileLabels(ps: seq<Paragraph>, e: nat, specs: seq<ParagraphSpec>, next: nat, j: int)
    requires 0 <= j < |ps|
    ensures |Reconcile(ps, e, specs, next)| >= |ps|
    ensures |specs| == |OfEntry(ps, e)| ==> Reconcile(ps, e, specs, next)[j].labels == ps[j].labels
    ensures |specs| != |OfEntry(ps, e)| ==>
      Reconcile(ps, e, specs, next)[j].labels
        == if Kept(ps, e, j) && ps[j].order in OrdersIn(specs) then {} else ps[j].labels
  {
    ReconcileExisting(ps, e, specs, next, j);
  }

  /** The orders a request names. */
  function OrdersIn(specs: seq<ParagraphSpec>): set<int> {
    set s | s in specs :: s.order
  }

  /** A request paragraph list as the schema carries it. */
  function AsSpecs(qs: seq<Paragraph>): seq<ParagraphSpec> {
    seq(|qs|, i requires 0 <= i < |qs| => ParagraphSpec(qs[i].order, qs[i].content))
  }

  /** No two paragraphs of entry `e` share an order. */
  ghost predicate UniqueOrders(ps: seq<Paragraph>, e: nat) {
    forall i, j :: 0 <= i < j < |ps| && ps[i].entry == e && ps[j].entry == e ==> ps[i].order != ps[j].order
  }

  /** Listing an entry's own paragraphs back as a request finds, for each of
      them, its own content as the last one with its order. */
  lemma {:induction false} LastContentOfOwn(ps: seq<Paragraph>, e: nat, j: int)
    requires UniqueOrders(ps, e)
    requires 0 <= j < |ps| && ps[j].entry == e
    ensures LastContent(AsSpecs(OfEntry(ps, e)), ps[j].order) == Some(ps[j].content)
    decreases |ps|
  {
    var n := |ps| - 1;
    var init := ps[..n];
    assert ps == init + [ps[n]];
    if ps[n].entry == e {
      var specs := AsSpecs(OfEntry(ps, e));
      assert specs == AsSpecs(OfEntry(init, e)) + [ParagraphSpec(ps[n].order, ps[n].content)] by {
        OfEntrySnoc(init, ps[n], e);
        AsSpecsSnoc(OfEntry(init, e), ps[n]);
      }
      if j < n {
        assert ps[n].order != ps[j].order;
        UniqueOrdersPrefix(ps, e, n);
        LastContentOfOwn(init, e, j);
        assert specs[..|specs| - 1] == AsSpecs(OfEntry(init, e));
      }
    } else {
      assert OfEntry(ps, e) == OfEntry(init, e) by {
        OfEntrySnoc(init, ps[n], e);
      }
      UniqueOrdersPrefix(ps, e, n);
      LastContentOfOwn(init, e, j);
    }
  }

  lemma UniqueOrdersPrefix(ps: seq<Paragraph>, e: nat, n: nat)
    requires UniqueOrders(ps, e) && n <= |ps|
    ensures UniqueOrders(ps[..n], e)
  {
  }

  lemma AsSpecsSnoc(qs: seq<Paragraph>, q: Paragraph)
    ensures AsSpecs(qs + [q]) == AsSpecs(qs) + [ParagraphSpec(q.order, q.content)]
  {
  }

  /** Every paragraph of an entry's own list finds its order among the
      entry's orders, so nothing is left for insertion. */
  lemma OwnOrdersAllMatch(ps: seq<Paragraph>, e: nat)
    ensures Unmatched(ByOrder(ps, e), AsSpecs(OfEntry(ps, e))) == []
  {
    var specs := AsSpecs(OfEntry(ps, e));
    var m := ByOrder(ps, e);
    forall k | 0 <= k < |specs| ensures specs[k].order in m {
      var q := OfEntry(ps, e)[k];
      assert q in OfEntry(ps, e);
      var j :| 0 <= j < |ps| && ps[j] == q;
    }
    AllMatched(m, specs);
  }

  lemma {:induction false} AllMatched(m: map<int, nat>, specs: seq<ParagraphSpec>)
    requires forall k :: 0 <= k < |specs| ==> specs[k].order in m
    ensures Unmatched(m, specs) == []
    decreases |specs|
  {
    if specs != [] {
      AllMatched(m, specs[..|specs| - 1]);
    }
  }

  /** Sending an entry's own paragraphs back unchanged changes nothing when
      their orders are unique: no row is inserted and every row keeps its
      content and labels. */
  lemma ReconcileSameListIsNoOp(ps: seq<Paragraph>, e: nat, next: nat)
    requires UniqueOrders(ps, e)
    ensures Reconcile(ps, e, AsSpecs(OfEntry(ps, e)), next) == ps
  {
    var specs := AsSpecs(OfEntry(ps, e));
    OwnOrdersAllMatch(ps, e);
    var r := Reconcile(ps, e, specs, next);
    forall j | 0 <= j < |ps| ensures r[j] == ps[j] {
      ReconcileExisting(ps, e, specs, next, j);
      if ps[j].entry == e {
        LastContentOfOwn(ps, e, j);
      }
    }
  }

  /** Sending back the entry's own paragraphs in any arrangement (orders
      unique) changes nothing: every request paragraph finds its own row,
      the count is unchanged so no label is cleared, and nothing is
      inserted. */
  lemma ReconcileOwnParagraphsIsNoOp(ps: seq<Paragraph>, e: nat, qs: seq<Paragraph>, next: nat)
    requires UniqueOrders(ps, e)
    requires multiset(qs) == multiset(OfEntry(ps, e))
    ensures Reconcile(ps, e, AsSpecs(qs), next) == ps
  {
    var specs := AsSpecs(qs);
    assert |qs| == |OfEntry(ps, e)| by {
      assert |multiset(qs)| == |multiset(OfEntry(ps, e))|;
    }
    OwnSpecsAllMatch(ps, e, qs);
    ReconcileInserted(ps, e, specs, next);
    var r := Reconcile(ps, e, specs, next);
    forall j | 0 <= j < |ps| ensures r[j] == ps[j] {
      ReconcileExisting(ps, e, specs, next, j);
      if ps[j].entry == e {
        LastContentOfRearranged(ps, e, qs, j);
      }
    }
  }

  /** Every order of the entry's own paragraphs is a key of the dictionary. */
  lemma OwnSpecsAllMatch(ps: seq<Paragraph>, e: nat, qs: seq<Paragraph>)
    requires multiset(qs) == multiset(OfEntry(ps, e))
    ensures Unmatched(ByOrder(ps, e), AsSpecs(qs)) == []
  {
    var specs := AsSpecs(qs);
    var m := ByOrder(ps, e);
    forall k | 0 <= k < |specs| ensures specs[k].order in m {
      assert qs[k] in multiset(qs);
      assert qs[k] in OfEntry(ps, e);
      var i :| 0 <= i < |ps| && ps[i] == qs[k];
    }
    AllMatched(m, specs);
  }

  /** With unique orders, the last request paragraph carrying a row's order,
      in any arrangement of the entry's own paragraphs, is that row. */
  lemma LastContentOfRearranged(ps: seq<Paragraph>, e: nat, qs: seq<Paragraph>, j: int)
    requires UniqueOrders(ps, e)
    requires multiset(qs) == multiset(OfEntry(ps, e))
    requires 0 <= j < |ps| && ps[j].entry == e
    ensures LastContent(AsSpecs(qs), ps[j].order) == Some(ps[j].content)
  {
    var specs := AsSpecs(qs);
    var o := ps[j].order;
    assert ps[j] in multiset(OfEntry(ps, e));
    var k :| 0 <= k < |qs| && qs[k] == ps[j];
    assert specs[k].order == o;
    LastContentFound(specs, o);
    var k' :| 0 <= k' < |specs| && specs[k'].order == o && specs[k'].content == LastContent(specs, o).value;
    assert qs[k'] in multiset(qs);
    assert qs[k'] in OfEntry(ps, e);
    var i :| 0 <= i < |ps| && ps[i] == qs[k'];
    assert i == j;
  }

  /** The content `LastContent` finds is the content of a request paragraph
      with that order. */
  lemma {:induction false} LastContentFound(specs: seq<ParagraphSpec>, o: int)
    ensures LastContent(specs, o).Some? ==>
      exists k :: 0 <= k < |specs| && specs[k].order == o && specs[k].content == LastContent(specs, o).value
    decreases |specs|
  {
    if specs != [] {
      var n := |specs| - 1;
      if specs[n].order == o {
        assert specs[n].content == LastContent(specs, o).value;
      } else {
        var init := specs[..n];
        LastContentFound(init, o);
        if LastContent(init, o).Some? {
          var k :| 0 <= k < |init| && init[k].order == o && init[k].content == LastContent(init, o).value;
          assert specs[k] == init[k];
        }
      }
    }
  }

  /** A client that fetches an entry and sends its paragraphs back as
      listed (ascending order) leaves the table unchanged, when the entry's
      orders are unique. */
  lemma ReconcileListingIsNoOp(ps: seq<Paragraph>, e: nat, next: nat)
    requires UniqueOrders(ps, e)
    ensures Reconcile(ps, e, AsSpecs(ParagraphListing(ps, e)), next) == ps
  {
    ReconcileOwnParagraphsIsNoOp(ps, e, ParagraphListing(ps, e), next);
  }

  /** A row whose order the request does not mention comes out unchanged:
      reconciliation never deletes or rewrites it. */
  lemma ReconcileKeepsUnrequested(ps: seq<Paragraph>, e: nat, specs: seq<ParagraphSpec>, next: nat, j: int)
    requires 0 <= j < |ps|
    requires forall k :: 0 <= k < |specs| ==> specs[k].order != ps[j].order
    ensures |Reconcile(ps, e, specs, next)| >= |ps|
    ensures Reconcile(ps, e, specs, next)[j] == ps[j]
  {
    ReconcileExisting(ps, e, specs, next, j);
  }

  lemma ExampleOwn(ps: seq<Paragraph>, e: nat)
    requires |ps| == 2 && ps[0].entry == e && ps[1].entry == e
    ensures OfEntry(ps, e) == ps
  {
    OfEntrySnoc([], ps[0], e);
    OfEntrySnoc([ps[0]], ps[1], e);
    assert [ps[0]] + [ps[1]] == ps;
  }

  lemma ExampleUnmatched(m: map<int, nat>, specs: seq<ParagraphSpec>)
    requires |specs| == 2 && specs[0].order in m && specs[1].order !in m
    ensures Unmatched(m, specs) == [specs[1]]
  {
    UnmatchedStep(m, specs, 0);
    UnmatchedStep(m, specs, 1);
    assert specs[..0] == [] && specs[..2] == specs;
  }

  lemma ExampleFirst(ps: seq<Paragraph>, specs: seq<ParagraphSpec>, e: nat)
    requires |ps| == 2 && ps[0].entry == e && ps[0].order == 1 && ps[1].entry == e && ps[1].order == 2
    requires |specs| == 2 && specs[0].order == 1 && specs[1].order == 3
    ensures |Reconcile(ps, e, specs, 12)| >= 2
    ensures Reconcile(ps, e, specs, 12)[0] == ps[0].(content := specs[0].content)
  {
    ExampleOwn(ps, e);
    assert specs[..1] == [specs[0]];
    assert LastContent(specs, 1) == Some(specs[0].content);
    ReconcileExisting(ps, e, specs, 12, 0);
  }

  lemma ExampleLast(ps: seq<Paragraph>, specs: seq<ParagraphSpec>, e: nat)
    requires |ps| == 2 && ps[0].entry == e && ps[0].order == 1 && ps[1].entry == e && ps[1].order == 2
    requires |specs| == 2 && specs[0].order == 1 && specs[1].order == 3
    ensures |Reconcile(ps, e, specs, 12)| == 3
    ensures Reconcile(ps, e, specs, 12)[2] == Paragraph(12, e, 3, specs[1].content, {})
  {
    var m := ByOrder(ps, e);
    assert specs[0].order in m && specs[1].order !in m;
    ExampleUnmatched(m, specs);
    ReconcileInserted(ps, e, specs, 12);
  }

  /** The worked example: an entry with paragraphs at orders 1 and 2
      updated with paragraphs at orders 1 and 3. The count is unchanged, so
      labels stay; paragraph 1 is rewritten in place, paragraph 2 is kept as
      it was (there is no deletion) and order 3 is inserted without labels. */
  lemma ReconcileExample(
    ps: seq<Paragraph>, specs: seq<ParagraphSpec>,
    e: nat, la: set<nat>, lb: set<nat>, a: string, b: string, a': string, c: string)
    requires |ps| == 2 && ps[0] == Paragraph(10, e, 1, a, la) && ps[1] == Paragraph(11, e, 2, b, lb)
    requires |specs| == 2 && specs[0] == ParagraphSpec(1, a') && specs[1] == ParagraphSpec(3, c)
    ensures Reconcile(ps, e, specs, 12)
        == [Paragraph(10, e, 1, a', la), Paragraph(11, e, 2, b, lb), Paragraph(12, e, 3, c, {})]
  {
    ExampleFirst(ps, specs, e);
    ReconcileKeepsUnrequested(ps, e, specs, 12, 1);
    ExampleLast(ps, specs, e);
    SeqOfThree(Reconcile(ps, e, specs, 12), Paragraph(10, e, 1, a', la), ps[1], Paragraph(12, e, 3, c, {}));
  }

  lemma SeqOfThree(r: seq<Paragraph>, x: Paragraph, y: Paragraph, z: Paragraph)
    requires |r| == 3 && r[0] == x && r[1] == y && r[2] == z
    ensures r == [x, y, z]
  {
  }

  /** Reconciliation keeps the table's invariants: every existing row keeps
      its id, entry and order and at most loses label links, and the
      inserted rows take fresh ascending ids and point at `e`. */
  lemma ReconcilePreservesValid(
    ps: seq<Paragraph>, e: nat, specs: seq<ParagraphSpec>, next: nat, es: seq<Entry>, ls: seq<Label>)
    requires ParagraphsValid(ps, next, es, ls)
    requires e in EntryIds(es)
    ensures ParagraphsValid(Reconcile(ps, e, specs, next), next + |Unmatched(ByOrder(ps, e), specs)|, es, ls)
    ensures forall j :: 0 <= j < |ps| ==>
      && Reconcile(ps, e, specs, next)[j].id == ps[j].id
      && Reconcile(ps, e, specs, next)[j].entry == ps[j].entry
      && Reconcile(ps, e, specs, next)[j].order == ps[j].order
      && Reconcile(ps, e, specs, next)[j].labels <= ps[j].labels
  {
    var r := Reconcile(ps, e, specs, next);
    var u := Unmatched(ByOrder(ps, e), specs);
    ReconcileInserted(ps, e, specs, next);
    forall j | 0 <= j < |ps|
      ensures r[j].id == ps[j].id && r[j].entry == ps[j].entry && r[j].order == ps[j].order
      ensures r[j].labels <= ps[j].labels
    {
      ReconcileExisting(ps, e, specs, next, j);
    }
    forall i, j | 0 <= i < j < |r| ensures r[i].id < r[j].id {
      if j >= |ps| && i < |ps| {
        assert r[j].id == next + (j - |ps|);
      }
    }
  }

  /** What `create_entry` inserts for a new entry `e` that has no
      paragraphs yet: the entry's paragraphs are then exactly the new rows,
      one per request paragraph in request order, each with its order and
      content and no labels. */
  lemma CreatedParagraphs(ps: seq<Paragraph>, e: nat, specs: seq<ParagraphSpec>, next: nat)
    requires forall p :: p in ps ==> p.entry != e
    ensures |NewRows(e, specs, next)| == |specs|
    ensures OfEntry(ps + NewRows(e, specs, next), e) == NewRows(e, specs, next)
    ensures AsSpecs(NewRows(e, specs, next)) == specs
    ensures forall p :: p in NewRows(e, specs, next) ==> p.entry == e && p.labels == {}
  {
    OfEntryAppendOwn(ps, NewRows(e, specs, next), e);
  }

  /** Rows of `e` appended to a table without rows of `e` are exactly the
      paragraphs of `e`, in their order. */
  lemma {:induction false} OfEntryAppendOwn(ps: seq<Paragraph>, rows: seq<Paragraph>, e: nat)
    requires forall p :: p in ps ==> p.entry != e
    requires forall p :: p in rows ==> p.entry == e
    ensures OfEntry(ps + rows, e) == rows
    decreases |rows|
  {
    if rows == [] {
      assert ps + rows == ps;
      assert multiset(OfEntry(ps, e)) == multiset{};
    } else {
      var init, q := rows[..|rows| - 1], rows[|rows| - 1];
      assert rows == init + [q];
      assert ps + rows == (ps + init) + [q];
      OfEntryAppendOwn(ps, init, e);
      OfEntrySnoc(ps + init, q, e);
    }
  }

  /** No two request paragraphs share an order. */
  ghost predicate UniqueSpecOrders(specs: seq<ParagraphSpec>) {
    forall i, j :: 0 <= i < j < |specs| ==> specs[i].order != specs[j].order
  }

  /** Creating an entry and then updating it with the same paragraph list
      (orders unique) changes nothing: every row is matched to itself, the
      count is equal so no label is cleared, and nothing is inserted. */
  lemma CreateThenResendIsNoOp(ps: seq<Paragraph>, e: nat, specs: seq<ParagraphSpec>, next: nat, next': nat)
    requires forall p :: p in ps ==> p.entry != e
    requires UniqueSpecOrders(specs)
    ensures Reconcile(ps + NewRows(e, specs, next), e, specs, next') == ps + NewRows(e, specs, next)
  {
    var rows := NewRows(e, specs, next);
    var t := ps + rows;
    CreatedParagraphs(ps, e, specs, next);
    forall i, j | 0 <= i < j < |t| && t[i].entry == e && t[j].entry == e
      ensures t[i].order != t[j].order
    {
      assert t[i] !in ps;
      assert |ps| <= i;
      assert t[i] == rows[i - |ps|] && t[j] == rows[j - |ps|];
    }
    assert UniqueOrders(t, e);
    ReconcileSameListIsNoOp(t, e, next');
  }
}
