# LaJournal core, modelled in Dafny

LaJournal is a personal-journaling backend. A user writes dated journal
entries made of ordered text paragraphs. The user tags paragraphs with
labels they own, searches their entries, and reads statistics and timelines.
This project models the bookkeeping behind those features, as the entry
service and the entries and labels controllers implement it. The database
becomes an in-memory store of three tables.

- `Dates` (dates.dfy): calendar days, their order, and month and year
  truncation.
- `Collections` (collections.dfy): filtering, and the comparison sort that
  stands for `ORDER BY`.
- `Models` (models.dfy): the three row types (entry, paragraph with its label
  links, label), their field constraints, the store invariant, and the
  default orderings.
- `EntryOps` (entryops.dfy): the single-row updates as functions on the
  tables: the attribute update, label assignment and removal, the bookmark
  toggle, the cascading delete, and the label overwrite.
- `Reconciliation` (reconciliation.dfy): the paragraph diff that
  `update_entry` runs.
- `Services` (services.dfy): the class `Journal`. It holds the tables and the
  next-id counters, and its methods change them in place as the service
  does. Each method is proved against the functions above.
- `Search`, `Stats`, `Timeline` (search.dfy, stats.dfy, timeline.dfy):
  `search_entries`, `get_stats`, and `_get_timeline_for_period` with
  `get_timeline`.
- `Api` (api.dfy): the user-scoped lookups, the checks of `assign_label` and
  `remove_label`, `update_label`, and the two listings.

The store model:

- Each table is a sequence of rows in primary-key order.
- A paragraph holds the set of ids of the labels linked to it, which is the
  many-to-many relation.
- Inside one operation, a row is addressed by its position in its table.
  Requests carry ids; `FindEntry` and `FindLabel` turn an id into a
  position.
- `date.today()` is the parameter `today`.
- The requesting user is the parameter `user`.
- Week truncation is the parameter `weekStart`.

Two behaviours of the code are easy to misread; the model keeps them as
written:

- `update_entry` has no deletion step. An existing paragraph whose order the
  request leaves out survives unchanged (`ReconcileKeepsUnrequested`). It is
  not replaced.
- `search_entries` matches paragraph content across all users. Only the
  title matches are limited to the requesting user (`SearchResultKeys`).

## Model

| member | source | states |
|---|---|---|
| Models.NewEntryDefaults | project/models.py:11-15 | A new entry belongs to the user and is well formed: title at most 200 characters, rating absent or in 1..5, a real calendar day. A date left out is today, the bookmark flag left out is false, and a title or rating left out is null. |
| Models.OfEntry | project/models.py:31 | `entry.paragraphs` holds exactly the paragraphs whose foreign key is the entry. |
| Models.OfUser | project/models.py:11 | `user.journal_entries` holds exactly the entries the user owns. |
| Models.LabelsOfUser | project/models.py:22 | `user.labels` holds exactly the labels the user owns. |
| Models.ListingOrdersArePreorders | project/models.py:26-37 | Ascending `order` and descending id are total preorders, so both default orderings are well defined. |
| Models.ParagraphListing | project/models.py:36-37 | An entry's paragraphs are listed in ascending `order`. The listing holds every one of them, as often as the table does. Two paragraphs may share an order. |
| Models.LabelListing | project/models.py:26-27 | A user's labels are listed by descending id. The listing holds all of them and no others. |
| Models.AscendingIdsOnce | project/models.py:17-18 | A table with unique ids holds each row at most once, so identity by id is identity by row. |
| Dates.BeforeIsStrictTotalOrder | project/models.py:13 | The order of `DateField` values is irreflexive, transitive, total and asymmetric. |
| Dates.FirstOfMonthProperties | project/services.py:97 | `replace(day=1)` gives a valid day no later than the date. It is idempotent, and two dates share it exactly when they fall in the same month of the same year. |
| Dates.FirstOfYearProperties | project/services.py:128 | Year truncation gives a valid day no later than the date, and two dates share it exactly when their years are equal. It also coarsens month truncation. |
| Dates.OnOrAfterFirstOfMonth | project/services.py:100 | A date on or after the first of this month lies in this year or a later one. |
| Services.Journal.CreateEntry | project/services.py:20-32 | One entry is appended with the next id, owned by the user and with the request's attributes. Then one label-less paragraph per request paragraph is bulk inserted with the next paragraph ids. The labels are unchanged and the store stays valid. |
| Reconciliation.CreatedParagraphs | project/services.py:25-30 | The paragraphs of a newly created entry are exactly the inserted rows, one per request paragraph in request order, each carrying that paragraph's order and content and no labels. |
| Services.Journal.UpdateEntry | project/services.py:35-68 | The attributes are updated as `UpdateFields` says. With no paragraph list the paragraphs are untouched; with one, the paragraph table becomes `Reconcile` of the old table. The labels are unchanged and the store stays valid. |
| EntryOps.UpdateFieldsOnlyGivenAttributes | project/services.py:38-41 | An attribute with a value replaces the stored one and an absent one keeps it. Id and owner never change. An empty request changes nothing, a repeated request changes nothing more, and a valid request keeps the row well formed. |
| EntryOps.UpdateFieldsPreservesValid | project/services.py:38-41 | The attribute update keeps the entry table valid and its set of ids unchanged. |
| Services.Journal.UpdateParagraphs | project/services.py:43-66 | The order dictionary is built, the request loop runs, and the unmatched paragraphs are bulk inserted. The result is exactly `Reconcile` of the old table, and the id counter advances by the number inserted. |
| Services.Journal.UpdateMatched | project/services.py:52-62 | The request loop updates exactly as `ApplyUpdates` does, and collects exactly `Unmatched` for insertion. |
| Reconciliation.ByOrder | project/services.py:44 | Each key of the order dictionary maps to a paragraph of the entry with that order. Every paragraph of the entry has its order as a key, mapped to it or to a later row. |
| Reconciliation.ByOrderIsLastPerOrder | project/services.py:44 | The keys are exactly the entry's orders. A row is the one kept for its order exactly when no later row of the entry shares that order. |
| Reconciliation.ApplyUpdatesStep | project/services.py:52-62 | One turn of the loop updates the matched row, or leaves the table alone when the order does not match. |
| Reconciliation.LastContent | project/services.py:52-59 | A content is found for an order exactly when some request paragraph has that order. `ApplyUpdatesAt` shows the found content is the one the loop leaves in place. |
| Reconciliation.ApplyUpdatesAt | project/services.py:52-62 | After the loop, a row changed only if the dictionary maps a requested order to it. Such a row then carries the last requested content for its order, and it has no labels exactly when the count changed. |
| Reconciliation.UnmatchedCount | project/services.py:53-57 | `paragraphs_to_create` holds each request paragraph whose order is not a key, as often as the request does, and nothing else. |
| Reconciliation.UnmatchedSnoc | project/services.py:53-57 | One more request paragraph extends `paragraphs_to_create` by itself exactly when its order has no match. |
| Reconciliation.UnmatchedStep | project/services.py:53-57 | The same, stated for one turn of the loop. |
| Reconciliation.UnmatchedOrders | project/services.py:53-57 | The request paragraphs left for insertion are exactly those whose order the entry does not have yet, with their multiplicities. |
| Reconciliation.ReconcileExisting | project/services.py:43-66 | An existing row changes only if it is the row kept for its order and the request names that order. It then takes the last content given for that order, and it loses its labels exactly when the paragraph count changed. Nothing is deleted. |
| Reconciliation.ReconcileInserted | project/services.py:54-66 | The rows appended are `NewRows` of the unmatched request paragraphs: in request order, each with its order and content, no labels and the next free ids. |
| Reconciliation.ReconcileSplit | project/services.py:43-66 | The updated table has the old length, followed by the inserted rows. |
| Reconciliation.ReconcileLabels | project/services.py:50-62 | With as many request paragraphs as the entry has, every label link survives. Otherwise matched rows lose their labels and unmatched rows keep theirs. |
| Reconciliation.ReconcileKeepsUnrequested | project/services.py:52-66 | A row whose order the request does not mention comes out unchanged. |
| Reconciliation.OwnOrdersAllMatch | project/services.py:53-57 | Sending back an entry's own paragraph list matches every paragraph, so nothing is inserted. |
| Reconciliation.AllMatched | project/services.py:53-57 | A request whose orders are all keys inserts nothing. |
| Reconciliation.LastContentOfOwn | project/services.py:52-59 | With unique orders, an entry's own list gives each paragraph its own content back. |
| Reconciliation.ReconcileSameListIsNoOp | project/services.py:43-66 | With unique orders, sending back an entry's own paragraphs changes nothing. |
| Reconciliation.ReconcileOwnParagraphsIsNoOp | project/services.py:43-66 | With unique orders, sending back an entry's own paragraphs in any arrangement changes nothing. |
| Reconciliation.ReconcileListingIsNoOp | project/services.py:43-66 | With unique orders, sending back an entry's paragraphs as the listing returns them, in ascending order, changes nothing. |
| Reconciliation.CreateThenResendIsNoOp | project/services.py:20-66 | Creating an entry from a paragraph list with unique orders and then updating it with the same list leaves the table as the creation left it. |
| Reconciliation.ExampleFirst | project/services.py:52-62 | In the worked example, the paragraph at order 1 takes the new content in place. |
| Reconciliation.ExampleLast | project/services.py:54-66 | In the worked example, order 3 is inserted as a third row with id 12 and no labels. |
| Reconciliation.ReconcileExample | project/services.py:43-66 | An entry at orders 1 and 2 is updated with orders 1 and 3. Row 1 is rewritten, row 2 is kept as it was, and order 3 is appended without labels. The count is equal, so labels stay. |
| Reconciliation.ReconcilePreservesValid | project/services.py:43-66 | Reconciliation keeps the paragraph table valid with the advanced id counter. Every existing row keeps its id, entry and order, and at most loses label links. |
| Services.Journal.AssignLabelToParagraphs | project/services.py:71-73 | The paragraph table becomes `AddLabel` at the selected positions, the rest of the store is unchanged, and the store stays valid. |
| EntryOps.AddLabelLoop | project/services.py:71-73 | The loop that adds the label to one paragraph after another gives exactly `AddLabel` over the set of selected positions. |
| EntryOps.AddLabel | project/services.py:71-73 | The table keeps its length. |
| EntryOps.AddLabelStep | project/services.py:72-73 | Adding one more selected paragraph links the label to that row only. |
| EntryOps.AddLabelLinks | project/services.py:71-73 | A paragraph carries the label exactly when it was selected or already carried it, and its other links and fields are untouched. Assigning again changes nothing. |
| EntryOps.AddLabelPreservesValid | project/models.py:34 | Adding a link to an existing label keeps every link pointing at a label row. |
| Services.Journal.RemoveLabelFromParagraph | project/services.py:76-77 | The paragraph table becomes `RemoveLabel` at the position, the rest is unchanged, and the store stays valid. |
| EntryOps.RemoveLabel | project/services.py:77 | The table keeps its length. |
| EntryOps.RemoveLabelLinks | project/services.py:76-77 | The link is gone and no other link of that paragraph is lost, and every other paragraph is unchanged. Removing an absent link changes nothing, and removing a link just added restores the table. |
| EntryOps.RemoveLabelPreservesValid | project/models.py:34 | Removing a link keeps the paragraph table valid. |
| Services.Journal.ToggleBookmark | project/services.py:84-86 | The entry table becomes `ToggleBookmark` at the position, the rest is unchanged, and the store stays valid. |
| EntryOps.ToggleBookmark | project/services.py:84-86 | The table keeps its length. |
| EntryOps.ToggleTwiceRestores | project/services.py:84-86 | The flag of that entry flips and nothing else changes; toggling twice restores the table. |
| Services.Journal.DeleteEntry | project/services.py:80-81 | The entry row is removed and its paragraphs go with it. Labels are unchanged and the store stays valid. |
| EntryOps.RemoveAt | project/services.py:81 | Removing a row shortens the table by one. |
| EntryOps.DeleteEntryCascades | project/models.py:31-34 | The cascade keeps exactly the paragraphs of other entries. The entry ids lose exactly the deleted id, every other entry stays, and the store stays valid with the labels untouched. |
| EntryOps.RemoveEntryRow | project/services.py:81 | Removing the entry row keeps the other rows and the table's validity, and drops exactly its id. |
| EntryOps.WithoutEntryValid | project/models.py:31 | After the cascade, every remaining paragraph points at an entry that still exists. |
| Services.Journal.CreateLabel | project/api.py:172-174 | One label is appended with the next id, owned by the user. The rest is unchanged and the store stays valid. |
| Services.Journal.UpdateLabel | project/api.py:177-182 | The label at the position is overwritten with the new name and description. The rest is unchanged and the store stays valid. |
| EntryOps.OverwriteIsFullReplacement | project/api.py:179-181 | The result does not depend on the old name or description, and a description left out becomes null. This is unlike the None-skipping of `update_entry`. Id and owner stay. |
| Services.LabelIdsUpdate | project/api.py:181 | Saving a label under its own id keeps the set of label ids. |
| Search.ContainsAt | project/services.py:134 | `Contains` holds exactly when the query starts at some position of the text. |
| Search.ContainsIgnoringCaseProperties | project/services.py:134 | `icontains` ignores case on both sides. The empty query is contained in every text, and a text contains itself. |
| Search.MatchingParagraphs | project/services.py:134 | The content matches are exactly the matching paragraphs of every user, each as often as stored, in ascending `order`. |
| Search.SearchEntries | project/services.py:132-144 | The two loops build exactly `SearchResult`. |
| Search.GroupByEntry | project/services.py:133-137 | The first loop builds exactly `Grouped` of the matching paragraphs. |
| Search.AddTitleMatches | project/services.py:139-142 | The second loop adds exactly the missing title keys, each with an empty list. |
| Search.GroupedSnoc | project/services.py:136-137 | One more paragraph is appended to its entry's list, and the list is opened when the entry is not a key yet. |
| Search.GroupedByEntry | project/services.py:133-137 | The grouping is keyed by exactly the entries of the paragraphs, and each list holds that entry's paragraphs in order. |
| Search.GroupedKeysStep | project/services.py:136-137 | One loop turn keeps the keys equal to the entries seen so far. |
| Search.GroupedValuesStep | project/services.py:136-137 | One loop turn keeps each list equal to that entry's paragraphs seen so far. |
| Search.WithTitlesSnoc | project/services.py:140-142 | One more title match adds its key with an empty list only when the key is missing. |
| Search.WithTitlesKeys | project/services.py:139-142 | Title matches add their ids as keys, existing lists are not reset, and new keys map to an empty list. |
| Search.GroupedIsSearchResult | project/services.py:132-144 | Grouping the content matches and adding the title matches gives `SearchResult`. |
| Search.MatchingKeys | project/services.py:134-137 | The entries of the matching paragraphs are exactly the content keys. |
| Search.SearchResultKeys | project/services.py:132-144 | The keys are the entries with a content match, of any owner, plus the user's entries whose title matches. A title-only key maps to an empty list, and a content key to a non-empty one. |
| Search.SearchResultLists | project/services.py:132-144 | Each matching paragraph is listed under its own entry, as often as stored. Nothing else is listed, and each list is in ascending `order`. |
| Search.SearchListsOnce | project/services.py:136-137 | With unique paragraph ids, each matching paragraph appears exactly once. |
| Stats.UsageCount | project/services.py:92 | `Count("paragraphs")` is at most the number of paragraphs. It is zero exactly when no paragraph carries the label. |
| Stats.CountedMembers | project/services.py:90-92 | The annotated rows are exactly the labels, each with its usage count. |
| Stats.MoreUsedFirstIsPreorder | project/services.py:93 | Descending count is a total preorder. |
| Stats.LabelUsage | project/services.py:90-95 | `labels_paragraphs_count` holds exactly the user's labels with a non-zero count, each with its count, by descending count. |
| Stats.LabelUsageOnce | project/services.py:90-95 | With unique label ids, each row of `labels_paragraphs_count` occurs once, so no label is listed twice. |
| Stats.UsedCountedLength | project/services.py:94 | Excluding zero counts from the annotated rows leaves as many rows as there are used labels. |
| Stats.TotalLabelsUsedIsUsageLength | project/services.py:109 | `total_labels_used` equals the length of `labels_paragraphs_count`. |
| Stats.MostUsedLabelIsMaximal | project/services.py:110 | There is a most used label exactly when one of the user's labels is used. It is one of the user's labels with its count, and no label of the user is used more. |
| Stats.HeadIsMostUsed | project/services.py:93 | The head of a list sorted by descending count has the highest count. |
| Stats.EntryCountBounds | project/services.py:99-107 | The month, year and bookmarked counts are at most the total. The month count is at most the year count plus the entries of later years. |
| Stats.FutureEntriesCountThisMonth | project/services.py:97-100 | Every entry dated today or later, future ones included, is counted in `entries_this_month`. |
| Stats.LatestIsNewest | project/services.py:108 | The latest entry exists exactly when the user has an entry. It is the user's entry with the highest id. |
| Stats.OwnInIdOrder | project/services.py:99 | The user's entries keep the table's ascending id order. |
| Stats.LastHasHighestId | project/services.py:108 | The last of a list in ascending id order has the highest id. |
| Stats.GetStats | project/services.py:89-113 | Every count is at most the total. `total_labels_used` is the length of the usage list. There is a most used label exactly when that list is non-empty, and a latest entry exactly when the user has entries. |
| Timeline.AddKeepsOrder | project/services.py:118 | Counting one more date keeps the rows in strictly ascending period order with positive counts, and adds no period other than the date's own. |
| Timeline.AddCounts | project/services.py:118 | Counting one more date adds one to the total and to that period's count only. |
| Timeline.TimelineCounts | project/services.py:116-119 | A timeline is strictly ascending, so each period has one row. Its counts are positive and add up to the number of dates, and each period's count is how often it occurs. |
| Timeline.TimelineRows | project/services.py:116-119 | Each row is a period that occurs, with the number of dates in it, and every occurring period has a row. |
| Timeline.GetTimeline | project/services.py:122-129 | The week, month and year timelines are ascending with positive counts, and each adds up to the user's number of entries. |
| Timeline.MonthRowCounts | project/services.py:127 | A month row is the first of a month, and its count is the user's entries dated in that month of that year. |
| Api.FindOwned | project/api.py:27-32 | A lookup of a user's row by id finds a position whose row has that id and that owner. It fails only when the user owns no row with that id. |
| Api.OwnedLookupIsScoped | project/api.py:27-32 | With ids increasing along the table, the lookup finds the row with the id when the user owns it, and nothing when another user owns it. |
| Api.FindEntry | project/api.py:27-28 | `_get_entry` finds a position holding the user's entry with that id. It fails only when the user has no such entry. |
| Api.FindLabel | project/api.py:31-32 | `_get_label` finds a position holding the user's label with that id. It fails only when the user has no such label. |
| Api.LookupsAreScoped | project/api.py:27-32 | With unique ids, the lookup finds the user's own row, and another user's id is not found. |
| Api.Selected | project/api.py:124 | The filter selects exactly the paragraphs of the entry whose order is requested, in table order. |
| Api.AllSelectedMeansAllExist | project/api.py:124-126 | With unique orders and no repeated request order, the count check passes exactly when every requested order exists. |
| Api.FoundIsRequested | project/api.py:124-126 | The selected orders are among the requested ones, and they are all of them exactly when every requested order exists. |
| Api.RepeatedOrderFails | project/api.py:124-126 | When the entry's orders are unique, any request that names some order twice fails the count check. |
| Api.SharedOrderHidesMissingOne | project/api.py:124-126 | Orders are not unique, so two paragraphs sharing order 1 let a request for orders 1 and 2 pass the check although order 2 does not exist. |
| Api.AssignLabelOutcome | project/api.py:120-128 | Each answer occurs exactly in its case, checked in order: entry not found when the user has no such entry; paragraphs missing when the entry is found and the count check fails; label not found when the check passes and the user has no such label. Success is the remaining case and names the entry. |
| Api.AssignLabel | project/api.py:120-134 | The answer is `AssignLabelOutcome`. On success the label is linked to every selected paragraph; on failure nothing changes. The store stays valid. |
| Api.RemoveLabelOutcome | project/api.py:137-142 | Each answer occurs exactly in its case, checked in order: entry not found when the user has no such entry; paragraph not found when the entry has no paragraph with that order; multiple paragraphs when more than one has it; label not found when exactly one has it but the user has no such label. Success is the remaining case and names that one paragraph. |
| Api.RemoveLabel | project/api.py:137-148 | The answer is `RemoveLabelOutcome`. On success the link is removed from that paragraph only; on failure nothing changes. |
| Api.UpdateLabel | project/api.py:177-182 | The call succeeds exactly when the label is the user's. The label then holds the payload's name and description, a missing description included; otherwise nothing changes. |
| Api.NewerFirstIsPreorder | project/api.py:95 | Date descending, then id descending, is a total preorder. |
| Api.GetJournalEntries | project/api.py:94-99 | Exactly the user's entries that pass the bookmark filter, each as often as stored, by date descending and then id descending. With no filter value, none is applied. |
| Api.FilterSortedListing | project/api.py:96-98 | Filtering the sorted listing keeps it sorted, and keeps exactly the user's entries with that bookmark value. |
| Api.EntryById | project/api.py:170 | The joined entry has the paragraph's entry id, and the join fails only for a missing id. |
| Api.Tagged | project/api.py:170 | Every listed paragraph carries the label and is joined with its own entry. Every paragraph carrying the label is listed. |
| Api.TaggedIsFilter | project/api.py:170 | Without their entries, the joined rows are exactly the table's paragraphs that carry the label and have an entry, each as often as the table holds it, in table order. |
| Api.LaterEntryFirstIsPreorder | project/api.py:170 | Entry date descending, then paragraph id ascending, is a total preorder. |
| Api.GetLabelParagraphs | project/api.py:168-170 | The call fails exactly when the label is not the user's. Otherwise the listing is a permutation of `Tagged` (each tagged paragraph as often as there), sorted by entry date descending and then paragraph id. |

## Left out

- `UserService` and the authentication and token routes: these delegate to
  password hashing, password validators and a token blacklist library.
- The `search_query` filter of `get_journal_entries`: it names no model
  field, so what it does is decided by the framework. The filter loop is
  modelled for its one meaningful key, the bookmark flag, with no loop.
- SQL execution, `Count` and `Trunc*`: these are modelled as functions over
  the tables. Week truncation is the parameter `weekStart`, because it needs
  weekday arithmetic.
- `icontains`: case folding is ASCII lower-casing, with no Unicode folding.
- `JournalEntry.rating` is a `FloatField`. It is modelled as an optional
  integer in 1..5, as the request schema admits.
- `LatestEntry`: `.last()` on an unordered query set is taken as the highest
  primary key, because the base model's ordering is not part of this model.
- `get_labels`, `get_label`, `get_journal_entry`,
  `create_journal_entry`, `delete_entry` (the endpoint) and
  `update_entry` (the endpoint): these are a lookup (`FindEntry`,
  `FindLabel`, `LabelListing`) followed by a service call that is modelled.
- `delete_label` is not modelled: after the label lookup (`FindLabel`) it
  deletes the label row and its links to paragraphs through the ORM, and
  no service operation of this model covers that deletion.
- Equal counts in `labels_paragraphs_count`: the database leaves their order
  open. `LabelUsage` fixes one order and states only what every order
  shares.
- Concurrency, transactions, timestamps (`created_at`, `updated_at`),
  serialisation schemas, settings, URL routing and the admin site.
- Reconciliation.ByOrder: when paragraphs of an entry share an order, the
  row kept for that order is the one with the highest id. The listing is
  ordered by `order` only, so the database leaves the choice among equal
  orders open; the model fixes one choice.
- Reconciliation.ReconcileInserted: it names the appended rows through
  `Unmatched`. That list's relation to the entry's orders is a separate
  lemma, `UnmatchedOrders`.
