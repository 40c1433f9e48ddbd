/** `_get_timeline_for_period` and `get_timeline`: a user's entries grouped
    by the week, month and year their date falls in, one row per period
    with its number of entries, in ascending period order. Week truncation
    is the parameter `weekStart`. */
module Timeline {
  import opened Dates
  import opened Collections
  import opened Models

  /** One row of a timeline: a truncated date and how many entries fall in
      its period. */
  datatype Row = Row(period: Date, count: nat)

  /** Periods strictly ascending, so no period has two rows. */
  ghost predicate Ascending(rows: seq<Row>) {
    forall i, j :: 0 <= i < j < |rows| ==> Before(rows[i].period, rows[j].period)
  }

  /** A group exists only when it has an entry. */
  ghost predicate Positive(rows: seq<Row>) {
    forall i :: 0 <= i < |rows| ==> rows[i].count > 0
  }

  /** The sum of the counts. */
  function Total(rows: seq<Row>): nat
    decreases |rows|
  {
    if rows == [] then 0 else rows[0].count + Total(rows[1..])
  }

  /** The count of period `q`, zero when it has no row. */
  function CountOf(rows: seq<Row>, q: Date): nat
    decreases |rows|
  {
    if rows == [] then 0
    else (if rows[0].period == q then rows[0].count else 0) + CountOf(rows[1..], q)
  }

  /** Counts one more entry in period `p`: the row of `p` goes up by one,
      or a row for `p` is inserted where the ascending order puts it. */
  function Add(rows: seq<Row>, p: Date): seq<Row>
    decreases |rows|
  {
    if rows == [] then [Row(p, 1)]
    else if rows[0].period == p then [Row(p, rows[0].count + 1)] + rows[1..]
    else if Before(p, rows[0].period) then [Row(p, 1)] + rows
    else [rows[0]] + Add(rows[1..], p)
  }

  /** Adding keeps the rows ascending and positive and brings in no
      period other than `p`. */
  lemma {:induction false} AddKeepsOrder(rows: seq<Row>, p: Date)
    requires Ascending(rows) && Positive(rows)
    ensures Ascending(Add(rows, p)) && Positive(Add(rows, p))
    ensures forall x :: x in Add(rows, p) ==> x.period == p || exists y :: y in rows && y.period == x.period
    decreases |rows|
  {
    if rows != [] && rows[0].period != p && !Before(p, rows[0].period) {
      var r0, rest := rows[0], rows[1..];
      AddKeepsOrder(rest, p);
      var a := Add(rest, p);
      assert Add(rows, p) == [r0] + a;
      BeforeIsStrictTotalOrder(r0.period, p, p);
      forall j | 0 <= j < |a| ensures Before(r0.period, a[j].period) {
        assert a[j] in a;
        if a[j].period != p {
          var y :| y in rest && y.period == a[j].period;
          var k :| 0 <= k < |rest| && rest[k] == y;
          assert rows[k + 1] == y;
        }
      }
      forall x | x in Add(rows, p) && x.period != p ensures exists y :: y in rows && y.period == x.period {
        if x != r0 {
          assert x in a;
          var y :| y in rest && y.period == x.period;
          assert y in rows;
        }
      }
    } else if rows != [] && rows[0].period != p {
      forall j | 0 <= j < |rows| ensures Before(p, rows[j].period) {
        assert j == 0 || Before(rows[0].period, rows[j].period);
        BeforeIsStrictTotalOrder(p, rows[0].period, rows[j].period);
      }
    }
  }

  /** Adding adds one to the total and to the count of `p` only. */
  lemma {:induction false} AddCounts(rows: seq<Row>, p: Date)
    ensures Total(Add(rows, p)) == Total(rows) + 1
    ensures forall q :: CountOf(Add(rows, p), q) == CountOf(rows, q) + if q == p then 1 else 0
    decreases |rows|
  {
    if rows == [] {
      assert Add(rows, p)[1..] == [];
    } else if rows[0].period == p {
      assert Add(rows, p)[1..] == rows[1..];
    } else if Before(p, rows[0].period) {
      assert Add(rows, p)[1..] == rows;
    } else {
      AddCounts(rows[1..], p);
      assert Add(rows, p)[1..] == Add(rows[1..], p);
    }
  }

  /** `_get_timeline_for_period` on a list of truncated dates: each period
      is counted into its row in turn. */
  function TimelineOf(periods: seq<Date>): seq<Row>
    decreases |periods|
  {
    if periods == [] then []
    else Add(TimelineOf(periods[..|periods| - 1]), periods[|periods| - 1])
  }

  /** The timeline is ascending with positive counts, its counts add up to
      the number of dates, and each period's count is how often it
      occurs. */
  lemma {:induction false} TimelineCounts(periods: seq<Date>)
    ensures Ascending(TimelineOf(periods)) && Positive(TimelineOf(periods))
    ensures Total(TimelineOf(periods)) == |periods|
    ensures forall q :: CountOf(TimelineOf(periods), q) == multiset(periods)[q]
    decreases |periods|
  {
    if periods != [] {
      var init, p := periods[..|periods| - 1], periods[|periods| - 1];
      assert periods == init + [p];
      TimelineCounts(init);
      AddKeepsOrder(TimelineOf(init), p);
      AddCounts(TimelineOf(init), p);
    }
  }

  /** In ascending rows the count of a period is that of its own row; with
      positive counts a period has a row exactly when its count is
      positive. */
  lemma {:induction false} CountOfRow(rows: seq<Row>, q: Date)
    requires Ascending(rows) && Positive(rows)
    ensures forall i :: 0 <= i < |rows| && rows[i].period == q ==> CountOf(rows, q) == rows[i].count
    ensures CountOf(rows, q) > 0 <==> exists i :: 0 <= i < |rows| && rows[i].period == q
    decreases |rows|
  {
    if rows != [] {
      var rest := rows[1..];
      CountOfRow(rest, q);
      forall i | 1 <= i < |rows| ensures rows[i].period != rows[0].period {
        BeforeIsStrictTotalOrder(rows[0].period, rows[i].period, rows[i].period);
      }
      forall i | 1 <= i < |rows| && rows[i].period == q ensures CountOf(rest, q) == rows[i].count {
        assert rest[i - 1] == rows[i];
      }
      if CountOf(rest, q) > 0 {
        var i :| 0 <= i < |rest| && rest[i].period == q;
        assert rows[i + 1].period == q;
      }
      if rows[0].period != q && exists i :: 0 <= i < |rows| && rows[i].period == q {
        var i :| 0 <= i < |rows| && rows[i].period == q;
        assert rest[i - 1].period == q;
      }
    }
  }

  /** Each row of a timeline holds a period that occurs, with the number
      of times it occurs; every occurring period has a row. */
  lemma TimelineRows(periods: seq<Date>)
    ensures forall i :: 0 <= i < |TimelineOf(periods)| ==>
      TimelineOf(periods)[i].count == multiset(periods)[TimelineOf(periods)[i].period]
    ensures forall q :: q in periods <==>
      exists i :: 0 <= i < |TimelineOf(periods)| && TimelineOf(periods)[i].period == q
  {
    var rows := TimelineOf(periods);
    TimelineCounts(periods);
    forall i | 0 <= i < |rows| ensures rows[i].count == multiset(periods)[rows[i].period] {
      CountOfRow(rows, rows[i].period);
    }
    forall q ensures q in periods <==> exists i :: 0 <= i < |rows| && rows[i].period == q {
      CountOfRow(rows, q);
      assert q in periods <==> multiset(periods)[q] > 0;
    }
  }

  /** The truncated dates of `es`, in table order. */
  function Periods(es: seq<Entry>, trunc: Date -> Date): (r: seq<Date>)
    ensures |r| == |es|
  {
    seq(|es|, i requires 0 <= i < |es| => trunc(es[i].date))
  }

  /** The three timelines `get_timeline` returns. */
  datatype Timelines = Timelines(week: seq<Row>, month: seq<Row>, year: seq<Row>)

  /** `get_timeline`: each timeline lists its periods in ascending order
      with positive counts that add up to the user's number of entries. */
  function GetTimeline(es: seq<Entry>, user: nat, weekStart: Date -> Date): (t: Timelines)
    ensures Ascending(t.week) && Ascending(t.month) && Ascending(t.year)
    ensures Positive(t.week) && Positive(t.month) && Positive(t.year)
    ensures Total(t.week) == Total(t.month) == Total(t.year) == |OfUser(es, user)|
  {
    var own := OfUser(es, user);
    var week, month, year := Periods(own, weekStart), Periods(own, FirstOfMonth), Periods(own, FirstOfYear);
    TimelineCounts(week);
    TimelineCounts(month);
    TimelineCounts(year);
    Timelines(TimelineOf(week), TimelineOf(month), TimelineOf(year))
  }

  /** A month row counts the user's entries dated in that month of that
      year. */
  lemma MonthRowCounts(es: seq<Entry>, user: nat, weekStart: Date -> Date, i: nat)
    requires i < |GetTimeline(es, user, weekStart).month|
    ensures var row := GetTimeline(es, user, weekStart).month[i];
      row.period.day == 1
      && row.count == |Filter(OfUser(es, user), (x: Entry) =>
           x.date.year == row.period.year && x.date.month == row.period.month)|
  {
    var own := OfUser(es, user);
    var periods := Periods(own, FirstOfMonth);
    var row := TimelineOf(periods)[i];
    TimelineRows(periods);
    var inMonth := (x: Entry) => x.date.year == row.period.year && x.date.month == row.period.month;
    assert row.period in periods;
    CountMatching(own, FirstOfMonth, row.period, inMonth);
  }

  /** How often `q` occurs among the truncated dates is how many rows
      truncate to it, given a predicate that says exactly that. */
  lemma {:induction false} CountMatching(s: seq<Entry>, trunc: Date -> Date, q: Date, p: Entry -> bool)
    requires forall x :: x in s ==> (p(x) <==> trunc(x.date) == q)
    ensures multiset(Periods(s, trunc))[q] == |Filter(s, p)|
    decreases |s|
  {
    if s != [] {
      var init, x := s[..|s| - 1], s[|s| - 1];
      assert s == init + [x];
      assert Periods(s, trunc) == Periods(init, trunc) + [trunc(x.date)];
      CountMatching(init, trunc, q, p);
      FilterSnoc(init, x, p);
    }
  }
}
