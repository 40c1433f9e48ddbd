/** `search_entries`: a map from entry id (an entry hashes as its id) to the
    entry's paragraphs whose content contains the query, case-insensitively.
    Content matches come from every user's paragraphs; the user's own
    entries whose title matches are added with no paragraphs. */
module Search {
  import opened Collections
  import opened Models

  /** ASCII lower-casing, standing in for the database's case folding. */
  function LowerChar(c: char): char {
    if 'A' <= c <= 'Z' then (c as int + 32) as char else c
  }

  function Lower(s: string): string {
    seq(|s|, i requires 0 <= i < |s| => LowerChar(s[i]))
  }

  /** `q` occurs in `s` as a contiguous piece: at the front, or further
      on. */
  predicate Contains(s: string, q: string)
    decreases |s|
  {
    |q| <= |s| && (s[..|q|] == q || (s != [] && Contains(s[1..], q)))
  }

  /** `q` starts at position `i` of `s`. */
  ghost predicate OccursAt(s: string, q: string, i: int) {
    0 <= i <= |s| - |q| && s[i..i + |q|] == q
  }

  /** `Contains` holds exactly when `q` starts at some position of `s`. */
  lemma {:induction false} ContainsAt(s: string, q: string)
    ensures Contains(s, q) <==> exists i :: OccursAt(s, q, i)
    decreases |s|
  {
    if |q| <= |s| && s != [] {
      ContainsAt(s[1..], q);
      if Contains(s[1..], q) {
        var i :| OccursAt(s[1..], q, i);
        assert OccursAt(s, q, i + 1);
      }
      if s[..|q|] == q {
        assert OccursAt(s, q, 0);
      } else if exists i :: OccursAt(s, q, i) {
        var i :| OccursAt(s, q, i);
        assert i != 0;
        assert OccursAt(s[1..], q, i - 1);
      }
    } else if |q| <= |s| {
      assert OccursAt(s, q, 0);
    }
  }

  /** The `icontains` lookup. */
  predicate ContainsIgnoringCase(s: string, q: string) {
    Contains(Lower(s), Lower(q))
  }

  /** Case is ignored on both sides, and an empty query is contained in
      every text. */
  lemma ContainsIgnoringCaseProperties(s: string, q: string)
    ensures ContainsIgnoringCase(Lower(s), q) == ContainsIgnoringCase(s, q)
    ensures ContainsIgnoringCase(s, Lower(q)) == ContainsIgnoringCase(s, q)
    ensures ContainsIgnoringCase(s, "")
    ensures ContainsIgnoringCase(s, s)
  {
    assert Lower(Lower(s)) == Lower(s);
    assert Lower(Lower(q)) == Lower(q);
    assert Lower(s)[..|Lower(s)|] == Lower(s);
  }

  /** A title matches when it is set and contains the query; a null title
      matches nothing. */
  predicate TitleMatches(x: Entry, q: string) {
    x.title.Some? && ContainsIgnoringCase(x.title.value, q)
  }

  predicate ContentMatches(p: Paragraph, q: string) {
    ContainsIgnoringCase(p.content, q)
  }

  /** `paragraphs_matching_content`: every paragraph whose content matches,
      whoever owns it, in the paragraphs' default order (by `order`). */
  function MatchingParagraphs(ps: seq<Paragraph>, q: string): (r: seq<Paragraph>)
    ensures SortedBy(r, LowerOrderFirst)
    ensures forall p :: multiset(r)[p] == if ContentMatches(p, q) then multiset(ps)[p] else 0
  {
    ListingOrdersArePreorders();
    Sort(Filter(ps, (p: Paragraph) => ContentMatches(p, q)), LowerOrderFirst)
  }

  /** `entries_matching_title`: the user's entries whose title matches. */
  function MatchingTitles(es: seq<Entry>, user: nat, q: string): seq<Entry> {
    Filter(OfUser(es, user), (x: Entry) => TitleMatches(x, q))
  }

  function ContentKeys(ps: seq<Paragraph>, q: string): set<nat> {
    set p | p in ps && ContentMatches(p, q) :: p.entry
  }

  function TitleKeys(es: seq<Entry>, user: nat, q: string): set<nat> {
    set x | x in es && x.owner == user && TitleMatches(x, q) :: x.id
  }

  /** The search result: one key per entry with a matching paragraph or a
      matching title of the user's, each mapped to its matching paragraphs
      in listing order. */
  function SearchResult(es: seq<Entry>, ps: seq<Paragraph>, user: nat, q: string): map<nat, seq<Paragraph>> {
    map id | id in ContentKeys(ps, q) + TitleKeys(es, user, q) :: OfEntry(MatchingParagraphs(ps, q), id)
  }

  /** The paragraphs of `s` grouped under their entries, as the first loop
      of `search_entries` builds them: each paragraph is appended to its
      entry's list, which is opened when the entry is not a key yet. */
  ghost function Grouped(s: seq<Paragraph>): map<nat, seq<Paragraph>>
    decreases |s|
  {
    if s == [] then map[]
    else
      var g, p := Grouped(s[..|s| - 1]), s[|s| - 1];
      if p.entry in g then g[p.entry := g[p.entry] + [p]] else g[p.entry := [p]]
  }

  lemma GroupedSnoc(s: seq<Paragraph>, p: Paragraph)
    ensures Grouped(s + [p]) == if p.entry in Grouped(s)
      then Grouped(s)[p.entry := Grouped(s)[p.entry] + [p]]
      else Grouped(s)[p.entry := [p]]
  {
    assert (s + [p])[..|s + [p]| - 1] == s;
  }

  /** The groups are keyed by the entries of `s`, and each group lists that
      entry's paragraphs in the order of `s`. */
  lemma {:induction false} GroupedByEntry(s: seq<Paragraph>)
    ensures forall id :: id in Grouped(s) <==> exists p :: p in s && p.entry == id
    ensures forall id :: id in Grouped(s) ==> Grouped(s)[id] == OfEntry(s, id)
    decreases |s|
  {
    if s != [] {
      var init, p := s[..|s| - 1], s[|s| - 1];
      GroupedByEntry(init);
      GroupedKeysStep(init, p);
      GroupedValuesStep(init, p);
      assert s == init + [p];
    }
  }

  lemma GroupedKeysStep(s: seq<Paragraph>, p: Paragraph)
    requires forall id :: id in Grouped(s) <==> exists x :: x in s && x.entry == id
    ensures forall id :: id in Grouped(s + [p]) <==> exists x :: x in s + [p] && x.entry == id
  {
    GroupedSnoc(s, p);
  }

  lemma GroupedValuesStep(s: seq<Paragraph>, p: Paragraph)
    requires forall id :: id in Grouped(s) <==> exists x :: x in s && x.entry == id
    requires forall id :: id in Grouped(s) ==> Grouped(s)[id] == OfEntry(s, id)
    ensures forall id :: id in Grouped(s + [p]) ==> Grouped(s + [p])[id] == OfEntry(s + [p], id)
  {
    var g, h := Grouped(s), Grouped(s + [p]);
    GroupedSnoc(s, p);
    forall id | id in h ensures h[id] == OfEntry(s + [p], id) {
      OfEntrySnoc(s, p, id);
      if id != p.entry {
        assert h[id] == g[id];
      } else if p.entry in g {
        assert h[id] == g[id] + [p];
      } else {
        assert h[id] == [p];
        NoneOfEntry(s, p.entry);
      }
    }
  }

  /** `g` with a key added, mapped to no paragraphs, for every entry of
      `xs` that is not a key yet, as the second loop does. */
  ghost function WithTitles(g: map<nat, seq<Paragraph>>, xs: seq<Entry>): map<nat, seq<Paragraph>>
    decreases |xs|
  {
    if xs == [] then g
    else
      var h, x := WithTitles(g, xs[..|xs| - 1]), xs[|xs| - 1];
      if x.id in h then h else h[x.id := []]
  }

  lemma WithTitlesSnoc(g: map<nat, seq<Paragraph>>, xs: seq<Entry>, x: Entry)
    ensures WithTitles(g, xs + [x]) == if x.id in WithTitles(g, xs)
      then WithTitles(g, xs)
      else WithTitles(g, xs)[x.id := []]
  {
    assert (xs + [x])[..|xs + [x]| - 1] == xs;
  }

  /** The title matches add their ids as keys; existing keys keep their
      lists and new ones map to no paragraphs. */
  lemma {:induction false} WithTitlesKeys(g: map<nat, seq<Paragraph>>, xs: seq<Entry>)
    ensures forall id :: id in WithTitles(g, xs) <==> id in g || exists x :: x in xs && x.id == id
    ensures forall id :: id in WithTitles(g, xs) ==> WithTitles(g, xs)[id] == if id in g then g[id] else []
    decreases |xs|
  {
    if xs != [] {
      var init, x := xs[..|xs| - 1], xs[|xs| - 1];
      assert xs == init + [x];
      WithTitlesKeys(g, init);
      WithTitlesSnoc(g, init, x);
    }
  }

  /** Grouping the matching paragraphs and adding the title matches gives
      the search result. */
  lemma GroupedIsSearchResult(es: seq<Entry>, ps: seq<Paragraph>, user: nat, q: string)
    ensures WithTitles(Grouped(MatchingParagraphs(ps, q)), MatchingTitles(es, user, q))
      == SearchResult(es, ps, user, q)
  {
    var m := MatchingParagraphs(ps, q);
    var titled := MatchingTitles(es, user, q);
    var g := Grouped(m);
    var w := WithTitles(g, titled);
    var keys := ContentKeys(ps, q) + TitleKeys(es, user, q);
    assert w.Keys == keys by {
      MatchingKeys(ps, q);
      GroupedByEntry(m);
      WithTitlesKeys(g, titled);
    }
    assert forall id :: id in w ==> w[id] == OfEntry(m, id) by {
      forall id | id in w ensures w[id] == OfEntry(m, id) {
        GroupedByEntry(m);
        WithTitlesKeys(g, titled);
        if id !in g {
          NoneOfEntry(m, id);
        }
      }
    }
    SameMap(w, keys, m);
  }

  /** A map keyed by `keys` that lists each key's paragraphs of `m` is the
      comprehension over `keys`. */
  lemma SameMap(w: map<nat, seq<Paragraph>>, keys: set<nat>, m: seq<Paragraph>)
    requires w.Keys == keys
    requires forall id :: id in w ==> w[id] == OfEntry(m, id)
    ensures w == map id | id in keys :: OfEntry(m, id)
  {
  }

  /** `search_entries`: the first loop groups the matching paragraphs under
      their entries, the second adds the title matches that are not keys
      yet, with no paragraphs. */
  method SearchEntries(es: seq<Entry>, ps: seq<Paragraph>, user: nat, q: string)
    returns (r: map<nat, seq<Paragraph>>)
    ensures r == SearchResult(es, ps, user, q)
  {
    var matching := MatchingParagraphs(ps, q);
    var grouped := GroupByEntry(matching);
    r := AddTitleMatches(grouped, MatchingTitles(es, user, q));
    GroupedIsSearchResult(es, ps, user, q);
  }

  /** The first loop of `search_entries`. */
  method GroupByEntry(matching: seq<Paragraph>) returns (r: map<nat, seq<Paragraph>>)
    ensures r == Grouped(matching)
  {
    r := map[];
    var k := 0;
    while k < |matching|
      invariant 0 <= k <= |matching|
      invariant r == Grouped(matching[..k])
    {
      var p := matching[k];
      assert matching[..k + 1] == matching[..k] + [p];
      GroupedSnoc(matching[..k], p);
      if p.entry in r {
        r := r[p.entry := r[p.entry] + [p]];
      } else {
        r := r[p.entry := [p]];
      }
      k := k + 1;
    }
    assert matching[..k] == matching;
  }

  /** The second loop of `search_entries`. */
  method AddTitleMatches(g: map<nat, seq<Paragraph>>, titled: seq<Entry>) returns (r: map<nat, seq<Paragraph>>)
    ensures r == WithTitles(g, titled)
  {
    r := g;
    var k := 0;
    while k < |titled|
      invariant 0 <= k <= |titled|
      invariant r == WithTitles(g, titled[..k])
    {
      var x := titled[k];
      assert titled[..k + 1] == titled[..k] + [x];
      WithTitlesSnoc(g, titled[..k], x);
      if x.id !in r {
        r := r[x.id := []];
      }
      k := k + 1;
    }
    assert titled[..k] == titled;
  }

  /** An entry none of whose paragraphs is in `ps` has an empty list. */
  lemma NoneOfEntry(ps: seq<Paragraph>, id: nat)
    requires forall p :: p in ps ==> p.entry != id
    ensures OfEntry(ps, id) == []
  {
  }

  /** The entries of the matching paragraphs are the content keys. */
  lemma MatchingKeys(ps: seq<Paragraph>, q: string)
    ensures (set p | p in MatchingParagraphs(ps, q) :: p.entry) == ContentKeys(ps, q)
    ensures forall p :: p in MatchingParagraphs(ps, q) <==> p in ps && ContentMatches(p, q)
  {
    var m := MatchingParagraphs(ps, q);
    forall p ensures p in m <==> p in ps && ContentMatches(p, q) {
      assert p in m <==> multiset(m)[p] > 0;
      assert p in ps <==> multiset(ps)[p] > 0;
    }
  }

  /** Every matching paragraph is listed under its own entry, exactly as
      often as it is stored (once, since ids are unique); nothing else is
      listed; each list is in ascending `order`. */
  lemma SearchResultLists(es: seq<Entry>, ps: seq<Paragraph>, user: nat, q: string)
    ensures forall p :: p in ps && ContentMatches(p, q) ==>
      p.entry in SearchResult(es, ps, user, q)
      && multiset(SearchResult(es, ps, user, q)[p.entry])[p] == multiset(ps)[p]
    ensures forall id, p :: id in SearchResult(es, ps, user, q) && p in SearchResult(es, ps, user, q)[id] ==>
      p in ps && p.entry == id && ContentMatches(p, q)
    ensures forall id :: id in SearchResult(es, ps, user, q) ==>
      SortedBy(SearchResult(es, ps, user, q)[id], LowerOrderFirst)
  {
    var r := SearchResult(es, ps, user, q);
    var m := MatchingParagraphs(ps, q);
    MatchingKeys(ps, q);
    forall id | id in r ensures SortedBy(r[id], LowerOrderFirst) {
      FilterKeepsSorted(m, (p: Paragraph) => p.entry == id, LowerOrderFirst);
    }
  }

  /** With ascending ids each matching paragraph is listed once. */
  lemma SearchListsOnce(es: seq<Entry>, ps: seq<Paragraph>, user: nat, q: string, p: Paragraph)
    requires forall i, j :: 0 <= i < j < |ps| ==> ps[i].id < ps[j].id
    requires p in ps && ContentMatches(p, q)
    ensures p.entry in SearchResult(es, ps, user, q)
    ensures multiset(SearchResult(es, ps, user, q)[p.entry])[p] == 1
  {
    SearchResultLists(es, ps, user, q);
    AscendingIdsOnce(ps, p);
  }

  /** The keys are the entries with a matching paragraph, of any owner,
      together with the user's entries whose title matches; a key that is
      only a title match maps to no paragraphs. */
  lemma SearchResultKeys(es: seq<Entry>, ps: seq<Paragraph>, user: nat, q: string)
    ensures SearchResult(es, ps, user, q).Keys == ContentKeys(ps, q) + TitleKeys(es, user, q)
    ensures forall id :: id in TitleKeys(es, user, q) && id !in ContentKeys(ps, q) ==>
      SearchResult(es, ps, user, q)[id] == []
    ensures forall id :: id in ContentKeys(ps, q) ==> SearchResult(es, ps, user, q)[id] != []
  {
    var m := MatchingParagraphs(ps, q);
    MatchingKeys(ps, q);
    forall id | id in TitleKeys(es, user, q) && id !in ContentKeys(ps, q)
      ensures SearchResult(es, ps, user, q)[id] == []
    {
      NoneOfEntry(m, id);
    }
    forall id | id in ContentKeys(ps, q) ensures SearchResult(es, ps, user, q)[id] != [] {
      var p :| p in ps && ContentMatches(p, q) && p.entry == id;
      assert p in OfEntry(m, id);
    }
  }
}
