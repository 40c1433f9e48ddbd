/** `get_stats`: a user's entry counts for the current month and year, the
    bookmarked and total counts, the latest entry, and how often each of the
    user's labels is used. `date.today()` is the parameter `today`. */
module Stats {
  import opened Dates
  import opened Collections
  import opened Models

  /** A label together with the number of paragraphs linked to it (the
      `paragraphs_count` annotation). */
  datatype LabelCount = LabelCount(lbl: Label, count: nat)

  /** `Count("paragraphs")`: the paragraphs that carry label `l`. It is zero
      exactly when no paragraph carries the label. */
  function UsageCount(ps: seq<Paragraph>, l: nat): (n: nat)
    ensures n <= |ps|
    ensures n == 0 <==> forall p :: p in ps ==> l !in p.labels
  {
    var r := Filter(ps, (p: Paragraph) => l in p.labels);
    assert |r| > 0 ==> r[0] in r;
    |r|
  }

  /** The user's labels annotated with their usage, in table order. */
  function Counted(ls: seq<Label>, ps: seq<Paragraph>): seq<LabelCount> {
    seq(|ls|, i requires 0 <= i < |ls| => LabelCount(ls[i], UsageCount(ps, ls[i].id)))
  }

  lemma CountedSnoc(ls: seq<Label>, l: Label, ps: seq<Paragraph>)
    ensures Counted(ls + [l], ps) == Counted(ls, ps) + [LabelCount(l, UsageCount(ps, l.id))]
  {
  }

  predicate Used(c: LabelCount) {
    c.count > 0
  }

  /** `order_by("-paragraphs_count")`: higher counts first. */
  predicate MoreUsedFirst(a: LabelCount, b: LabelCount) {
    a.count >= b.count
  }

  lemma MoreUsedFirstIsPreorder()
    ensures TotalPreorder(MoreUsedFirst)
  {
  }

  /** The annotated labels are the labels of `ls`, each with its count. */
  lemma CountedMembers(ls: seq<Label>, ps: seq<Paragraph>)
    ensures forall c :: c in Counted(ls, ps) <==> c.lbl in ls && c.count == UsageCount(ps, c.lbl.id)
  {
    var cs := Counted(ls, ps);
    forall c ensures c in cs <==> c.lbl in ls && c.count == UsageCount(ps, c.lbl.id) {
      if c.lbl in ls && c.count == UsageCount(ps, c.lbl.id) {
        var i :| 0 <= i < |ls| && ls[i] == c.lbl;
        assert cs[i] == c;
      }
    }
  }

  /** `labels_paragraphs_count`: the labels of the user that some paragraph
      carries, each with its usage count, by descending count; labels that
      no paragraph carries are excluded. */
  function LabelUsage(ls: seq<Label>, ps: seq<Paragraph>, user: nat): (r: seq<LabelCount>)
    ensures SortedBy(r, MoreUsedFirst)
    ensures forall c :: c in r <==>
      c.lbl in ls && c.lbl.owner == user && c.count == UsageCount(ps, c.lbl.id) > 0
  {
    MoreUsedFirstIsPreorder();
    var used := Filter(Counted(LabelsOfUser(ls, user), ps), Used);
    CountedMembers(LabelsOfUser(ls, user), ps);
    SortKeepsMembers(used, MoreUsedFirst);
    Sort(used, MoreUsedFirst)
  }

  /** With label ids ascending along the table, each row of
      `labels_paragraphs_count` occurs once; since a row's count is fixed
      by its label, no label is listed twice. */
  lemma LabelUsageOnce(ls: seq<Label>, ps: seq<Paragraph>, user: nat, c: LabelCount)
    requires forall i, j :: 0 <= i < j < |ls| ==> ls[i].id < ls[j].id
    requires c in LabelUsage(ls, ps, user)
    ensures multiset(LabelUsage(ls, ps, user))[c] == 1
  {
    var own := LabelsOfUser(ls, user);
    MoreUsedFirstIsPreorder();
    CountedAtMost(own, ps, c);
    AscendingKeysOnce(ls, (l: Label) => l.id, c.lbl);
  }

  /** An annotated row occurs at most as often as its label. */
  lemma {:induction false} CountedAtMost(ls: seq<Label>, ps: seq<Paragraph>, c: LabelCount)
    ensures multiset(Counted(ls, ps))[c] <= multiset(ls)[c.lbl]
    decreases |ls|
  {
    if ls != [] {
      var init, l := ls[..|ls| - 1], ls[|ls| - 1];
      assert ls == init + [l];
      CountedAtMost(init, ps, c);
      CountedSnoc(init, l, ps);
    }
  }

  /** `total_labels_used`: how many of the user's labels at least one
      paragraph carries (`exclude(paragraphs=None)`). */
  function TotalLabelsUsed(ls: seq<Label>, ps: seq<Paragraph>, user: nat): nat {
    |Filter(LabelsOfUser(ls, user), (l: Label) => UsageCount(ps, l.id) > 0)|
  }

  /** Keeping the used rows of the annotated labels keeps as many rows as
      there are used labels. */
  lemma {:induction false} UsedCountedLength(ls: seq<Label>, ps: seq<Paragraph>)
    ensures |Filter(Counted(ls, ps), Used)| == |Filter(ls, (l: Label) => UsageCount(ps, l.id) > 0)|
    decreases |ls|
  {
    if ls != [] {
      var init, l := ls[..|ls| - 1], ls[|ls| - 1];
      assert ls == init + [l];
      UsedCountedLength(init, ps);
      CountedSnoc(init, l, ps);
      FilterSnoc(Counted(init, ps), LabelCount(l, UsageCount(ps, l.id)), Used);
      FilterSnoc(init, l, (l: Label) => UsageCount(ps, l.id) > 0);
    }
  }

  /** `total_labels_used` equals the length of `labels_paragraphs_count`. */
  lemma TotalLabelsUsedIsUsageLength(ls: seq<Label>, ps: seq<Paragraph>, user: nat)
    ensures TotalLabelsUsed(ls, ps, user) == |LabelUsage(ls, ps, user)|
  {
    MoreUsedFirstIsPreorder();
    var used := Filter(Counted(LabelsOfUser(ls, user), ps), Used);
    UsedCountedLength(LabelsOfUser(ls, user), ps);
    assert |multiset(Sort(used, MoreUsedFirst))| == |multiset(used)|;
  }

  /** `most_used_label`: the first row of `labels_paragraphs_count`. */
  function MostUsedLabel(ls: seq<Label>, ps: seq<Paragraph>, user: nat): Option<LabelCount> {
    var r := LabelUsage(ls, ps, user);
    if r == [] then None else Some(r[0])
  }

  /** There is a most used label exactly when some label of the user is
      used, and no label of the user is used more often. */
  lemma MostUsedLabelIsMaximal(ls: seq<Label>, ps: seq<Paragraph>, user: nat)
    ensures MostUsedLabel(ls, ps, user).None? <==>
      forall l :: l in ls && l.owner == user ==> UsageCount(ps, l.id) == 0
    ensures MostUsedLabel(ls, ps, user).Some? ==>
      var c := MostUsedLabel(ls, ps, user).value;
      c.lbl in ls && c.lbl.owner == user && c.count == UsageCount(ps, c.lbl.id) > 0
      && forall l :: l in ls && l.owner == user ==> UsageCount(ps, l.id) <= c.count
  {
    var r := LabelUsage(ls, ps, user);
    if r != [] {
      assert r[0] in r;
      HeadIsMostUsed(r);
      forall l | l in ls && l.owner == user ensures UsageCount(ps, l.id) <= r[0].count {
        if UsageCount(ps, l.id) > 0 {
          assert LabelCount(l, UsageCount(ps, l.id)) in r;
        }
      }
    } else {
      forall l | l in ls && l.owner == user ensures UsageCount(ps, l.id) == 0 {
        assert LabelCount(l, UsageCount(ps, l.id)) !in r;
      }
    }
  }

  /** The head of a list by descending count has the highest count. */
  lemma HeadIsMostUsed(r: seq<LabelCount>)
    requires SortedBy(r, MoreUsedFirst) && r != []
    ensures forall c :: c in r ==> c.count <= r[0].count
  {
    forall c | c in r ensures c.count <= r[0].count {
      var k :| 0 <= k < |r| && r[k] == c;
      assert k == 0 || MoreUsedFirst(r[0], r[k]);
    }
  }

  /** `entries_this_month`: the user's entries dated on or after the first
      of `today`'s month, later months and years included. */
  function EntriesThisMonth(es: seq<Entry>, user: nat, today: Date): nat {
    |Filter(OfUser(es, user), (x: Entry) => OnOrAfter(x.date, FirstOfMonth(today)))|
  }

  /** `entries_this_year`: the user's entries dated in `today`'s year. */
  function EntriesThisYear(es: seq<Entry>, user: nat, today: Date): nat {
    |Filter(OfUser(es, user), (x: Entry) => x.date.year == today.year)|
  }

  function BookmarkedEntries(es: seq<Entry>, user: nat): nat {
    |Filter(OfUser(es, user), (x: Entry) => x.bookmarked)|
  }

  function TotalEntries(es: seq<Entry>, user: nat): nat {
    |OfUser(es, user)|
  }

  /** Entries of the user dated in a year after `today`'s. */
  function EntriesAfterThisYear(es: seq<Entry>, user: nat, today: Date): nat {
    |Filter(OfUser(es, user), (x: Entry) => x.date.year > today.year)|
  }

  /** A filter that keeps more keeps at least as many rows. */
  lemma {:induction false} FilterMonotone<T(!new)>(s: seq<T>, p: T -> bool, q: T -> bool)
    requires forall x :: p(x) ==> q(x)
    ensures |Filter(s, p)| <= |Filter(s, q)|
    decreases |s|
  {
    if s != [] {
      var init, x := s[..|s| - 1], s[|s| - 1];
      assert s == init + [x];
      FilterMonotone(init, p, q);
      FilterSnoc(init, x, p);
      FilterSnoc(init, x, q);
    }
  }

  /** Every count is at most the total, and the month count is at most the
      year count plus the entries dated in later years, since dates on or
      after the first of the month lie in this year or a later one. */
  lemma EntryCountBounds(es: seq<Entry>, user: nat, today: Date)
    ensures EntriesThisMonth(es, user, today) <= TotalEntries(es, user)
    ensures EntriesThisYear(es, user, today) <= TotalEntries(es, user)
    ensures BookmarkedEntries(es, user) <= TotalEntries(es, user)
    ensures EntriesThisMonth(es, user, today)
      <= EntriesThisYear(es, user, today) + EntriesAfterThisYear(es, user, today)
  {
    var month := (x: Entry) => OnOrAfter(x.date, FirstOfMonth(today));
    forall x: Entry ensures month(x) ==> x.date.year == today.year || x.date.year > today.year {
      if month(x) {
        OnOrAfterFirstOfMonth(x.date, today);
      }
    }
    FilterSubadditive(OfUser(es, user), month,
      (x: Entry) => x.date.year == today.year, (x: Entry) => x.date.year > today.year);
  }

  /** Entries dated today or later, future ones included, are all counted
      in the month. */
  lemma FutureEntriesCountThisMonth(es: seq<Entry>, user: nat, today: Date)
    requires ValidDate(today)
    ensures |Filter(OfUser(es, user), (x: Entry) => OnOrAfter(x.date, today))|
      <= EntriesThisMonth(es, user, today)
  {
    var month := (x: Entry) => OnOrAfter(x.date, FirstOfMonth(today));
    var later := (x: Entry) => OnOrAfter(x.date, today);
    forall x: Entry ensures later(x) ==> month(x) {
    }
    FilterMonotone(OfUser(es, user), later, month);
  }

  /** `latest_entry` (`.last()` on the user's entries, which are unordered,
      so by primary key): the user's entry with the highest id. */
  function LatestEntry(es: seq<Entry>, user: nat): Option<Entry> {
    var own := OfUser(es, user);
    if own == [] then None else Some(own[|own| - 1])
  }

  predicate LowerIdFirst(a: Entry, b: Entry) {
    a.id <= b.id
  }

  /** With ids ascending in the table, the latest entry exists exactly when
      the user has an entry, is one of the user's entries, and has the
      highest id among them. */
  lemma LatestIsNewest(es: seq<Entry>, user: nat)
    requires forall i, j :: 0 <= i < j < |es| ==> es[i].id < es[j].id
    ensures LatestEntry(es, user).Some? <==> exists x :: x in es && x.owner == user
    ensures LatestEntry(es, user).Some? ==>
      var latest := LatestEntry(es, user).value;
      latest in es && latest.owner == user
      && forall x :: x in es && x.owner == user ==> x.id <= latest.id
  {
    var own := OfUser(es, user);
    OwnInIdOrder(es, user);
    if own != [] {
      var latest := own[|own| - 1];
      assert LatestEntry(es, user) == Some(latest);
      assert latest in own;
      LastHasHighestId(own);
    } else {
      assert LatestEntry(es, user) == None;
      forall x | x in es ensures x.owner != user {
        assert x !in own;
      }
    }
  }

  /** A user's entries keep the table's ascending id order. */
  lemma OwnInIdOrder(es: seq<Entry>, user: nat)
    requires forall i, j :: 0 <= i < j < |es| ==> es[i].id < es[j].id
    ensures SortedBy(OfUser(es, user), LowerIdFirst)
  {
    assert SortedBy(es, LowerIdFirst);
    FilterKeepsSorted(es, (x: Entry) => x.owner == user, LowerIdFirst);
  }

  /** The last of entries in ascending id order has the highest id. */
  lemma LastHasHighestId(own: seq<Entry>)
    requires own != [] && SortedBy(own, LowerIdFirst)
    ensures forall x :: x in own ==> x.id <= own[|own| - 1].id
  {
    forall x | x in own ensures x.id <= own[|own| - 1].id {
      var k :| 0 <= k < |own| && own[k] == x;
      assert k == |own| - 1 || LowerIdFirst(own[k], own[|own| - 1]);
    }
  }

  /** The statistics as the endpoint returns them. */
  datatype Stats = Stats(
    entriesThisMonth: nat,
    entriesThisYear: nat,
    totalEntries: nat,
    latestEntry: Option<Entry>,
    totalLabelsUsed: nat,
    mostUsedLabel: Option<LabelCount>,
    labelsParagraphsCount: seq<LabelCount>,
    bookmarkedEntries: nat)

  /** `get_stats`: its counts are bounded by the total, `total_labels_used`
      is the length of the usage list and the most used label is its head. */
  function GetStats(es: seq<Entry>, ps: seq<Paragraph>, ls: seq<Label>, user: nat, today: Date): (s: Stats)
    ensures s.entriesThisMonth <= s.totalEntries && s.entriesThisYear <= s.totalEntries
    ensures s.bookmarkedEntries <= s.totalEntries
    ensures s.totalLabelsUsed == |s.labelsParagraphsCount|
    ensures s.mostUsedLabel.Some? <==> s.totalLabelsUsed > 0
    ensures s.latestEntry.Some? <==> s.totalEntries > 0
  {
    EntryCountBounds(es, user, today);
    TotalLabelsUsedIsUsageLength(ls, ps, user);
    Stats(
      EntriesThisMonth(es, user, today),
      EntriesThisYear(es, user, today),
      TotalEntries(es, user),
      LatestEntry(es, user),
      TotalLabelsUsed(ls, ps, user),
      MostUsedLabel(ls, ps, user),
      LabelUsage(ls, ps, user),
      BookmarkedEntries(es, user))
  }
}
