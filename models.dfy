/** The journal's three tables and their declared constraints: entries,
    paragraphs (with their label links, the many-to-many relation) and
    labels. Each table is a sequence of rows in primary-key order. */
module Models {
  import opened Dates
  import opened Collections

  datatype Option<T> = None | Some(value: T)

  const MaxTitleLength: nat := 200
  const MaxLabelNameLength: nat := 50
  const MinRating: int := 1
  const MaxRating: int := 5

  /** A journal entry owned by the user `owner`. */
  datatype Entry = Entry(
    id: nat,
    owner: nat,
    title: Option<string>,
    date: Date,
    rating: Option<int>,
    bookmarked: bool)

  /** A paragraph of the entry whose id is `entry`; `labels` holds the ids of
      the labels linked to it. */
  datatype Paragraph = Paragraph(
    id: nat,
    entry: nat,
    order: int,
    content: string,
    labels: set<nat>)

  /** A label owned by the user `owner`. */
  datatype Label = Label(
    id: nat,
    owner: nat,
    name: string,
    description: Option<string>)

  /** One paragraph of a request: its position and its text. */
  datatype ParagraphSpec = ParagraphSpec(order: int, content: string)

  /** The scalar attributes of an entry request; `None` is an attribute that
      is absent or null. */
  datatype EntryData = EntryData(
    title: Option<string>,
    date: Option<Date>,
    rating: Option<int>,
    bookmarked: Option<bool>)

  predicate ValidTitle(t: Option<string>) {
    t.Some? ==> |t.value| <= MaxTitleLength
  }

  predicate ValidRating(r: Option<int>) {
    r.Some? ==> MinRating <= r.value <= MaxRating
  }

  predicate WellFormedEntry(e: Entry) {
    ValidTitle(e.title) && ValidRating(e.rating) && ValidDate(e.date)
  }

  predicate WellFormedLabel(l: Label) {
    |l.name| <= MaxLabelNameLength
  }

  /** What the request schema admits for an entry's attributes. */
  predicate ValidEntryData(d: EntryData) {
    ValidTitle(d.title) && ValidRating(d.rating) && (d.date.Some? ==> ValidDate(d.date.value))
  }

  /** The row `create` inserts: attributes missing from the request take the
      field defaults, today's date and not bookmarked. */
  function NewEntry(id: nat, owner: nat, d: EntryData, today: Date): Entry {
    Entry(
      id, owner, d.title,
      if d.date.Some? then d.date.value else today,
      d.rating,
      if d.bookmarked.Some? then d.bookmarked.value else false)
  }

  /** A new entry is well formed when the request and `today` are, and an
      attribute left out of the request takes its default. */
  lemma NewEntryDefaults(id: nat, owner: nat, d: EntryData, today: Date)
    requires ValidEntryData(d) && ValidDate(today)
    ensures WellFormedEntry(NewEntry(id, owner, d, today))
    ensures NewEntry(id, owner, d, today).owner == owner
    ensures d.date.None? ==> NewEntry(id, owner, d, today).date == today
    ensures d.bookmarked.None? ==> !NewEntry(id, owner, d, today).bookmarked
    ensures d.title.None? ==> NewEntry(id, owner, d, today).title.None?
    ensures d.rating.None? ==> NewEntry(id, owner, d, today).rating.None?
  {
  }

  function EntryIds(es: seq<Entry>): set<nat> {
    set e | e in es :: e.id
  }

  function LabelIds(ls: seq<Label>): set<nat> {
    set l | l in ls :: l.id
  }

  /** Entries: ids ascending (so unique) and below the next id to hand out;
      every row satisfies the field constraints. */
  ghost predicate EntriesValid(es: seq<Entry>, next: nat) {
    && (forall i, j :: 0 <= i < j < |es| ==> es[i].id < es[j].id)
    && (forall i :: 0 <= i < |es| ==> es[i].id < next && WellFormedEntry(es[i]))
  }

  ghost predicate LabelsValid(ls: seq<Label>, next: nat) {
    && (forall i, j :: 0 <= i < j < |ls| ==> ls[i].id < ls[j].id)
    && (forall i :: 0 <= i < |ls| ==> ls[i].id < next && WellFormedLabel(ls[i]))
  }

  /** Paragraphs: ids ascending and below the next id; the entry foreign key
      and every label link point at existing rows. Nothing makes `order`
      unique within an entry. */
  ghost predicate ParagraphsValid(ps: seq<Paragraph>, next: nat, es: seq<Entry>, ls: seq<Label>) {
    && (forall i, j :: 0 <= i < j < |ps| ==> ps[i].id < ps[j].id)
    && (forall i :: 0 <= i < |ps| ==>
          ps[i].id < next && ps[i].entry in EntryIds(es) && ps[i].labels <= LabelIds(ls))
  }

  ghost predicate StoreValid(
    es: seq<Entry>, ps: seq<Paragraph>, ls: seq<Label>,
    nextEntry: nat, nextParagraph: nat, nextLabel: nat)
  {
    EntriesValid(es, nextEntry) && LabelsValid(ls, nextLabel) && ParagraphsValid(ps, nextParagraph, es, ls)
  }

  /** The paragraphs of entry `e` (`entry.paragraphs`), in table order. */
  function OfEntry(ps: seq<Paragraph>, e: nat): (r: seq<Paragraph>)
    ensures forall p :: p in r <==> p in ps && p.entry == e
  {
    Filter(ps, (p: Paragraph) => p.entry == e)
  }

  /** Appending a row to the table extends the entry's paragraphs by it
      exactly when it belongs to the entry. */
  lemma OfEntrySnoc(ps: seq<Paragraph>, q: Paragraph, e: nat)
    ensures OfEntry(ps + [q], e) == OfEntry(ps, e) + if q.entry == e then [q] else []
  {
    assert (ps + [q])[..|ps + [q]| - 1] == ps;
  }

  /** The entries of `user` (`user.journal_entries`), in table order. */
  function OfUser(es: seq<Entry>, user: nat): (r: seq<Entry>)
    ensures forall x :: x in r <==> x in es && x.owner == user
  {
    Filter(es, (x: Entry) => x.owner == user)
  }

  /** The labels of `user` (`user.labels`), in table order. */
  function LabelsOfUser(ls: seq<Label>, user: nat): (r: seq<Label>)
    ensures forall l :: l in r <==> l in ls && l.owner == user
  {
    Filter(ls, (l: Label) => l.owner == user)
  }

  /** Paragraph ordering: ascending `order`. */
  predicate LowerOrderFirst(a: Paragraph, b: Paragraph) {
    a.order <= b.order
  }

  /** Label ordering: descending id. */
  predicate HigherIdFirst(a: Label, b: Label) {
    a.id >= b.id
  }

  lemma ListingOrdersArePreorders()
    ensures TotalPreorder(LowerOrderFirst)
    ensures TotalPreorder(HigherIdFirst)
  {
  }

  /** The paragraphs of an entry as they are listed: all of them, each as
      often as in the table, in ascending `order`. */
  function ParagraphListing(ps: seq<Paragraph>, e: nat): (r: seq<Paragraph>)
    ensures SortedBy(r, LowerOrderFirst)
    ensures multiset(r) == multiset(OfEntry(ps, e))
    ensures forall p :: p in r <==> p in ps && p.entry == e
  {
    ListingOrdersArePreorders();
    Sort(OfEntry(ps, e), LowerOrderFirst)
  }

  /** A user's labels as they are listed: all of them, by descending id. */
  function LabelListing(ls: seq<Label>, user: nat): (r: seq<Label>)
    ensures SortedBy(r, HigherIdFirst)
    ensures multiset(r) == multiset(LabelsOfUser(ls, user))
    ensures forall l :: l in r <==> l in ls && l.owner == user
  {
    ListingOrdersArePreorders();
    Sort(LabelsOfUser(ls, user), HigherIdFirst)
  }

  /** In a table with ascending ids no row occurs twice. */
  lemma AscendingIdsOnce(ps: seq<Paragraph>, p: Paragraph)
    requires forall i, j :: 0 <= i < j < |ps| ==> ps[i].id < ps[j].id
    ensures multiset(ps)[p] <= 1
  {
    AscendingKeysOnce(ps, (q: Paragraph) => q.id, p);
  }
}
