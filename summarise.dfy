/** The summary stage: grouped aggregates over the categorised bus and subway
    tables. Rows are grouped by (date, day) for delay totals and counts, the
    per-date counts are averaged per day of the week, and rows are counted per
    incident category and per line. Groups are listed in the order their keys
    first appear in the table. */
module SummariseData {
  import opened Tables

  /** The columns of a delay row that the date and day summaries read. */
  datatype Obs = Obs(date: string, day: string, minDelay: nat)

  function BusObs(b: BusDelay): Obs { Obs(b.date, b.day, b.minDelay) }

  function SubwayObs(s: SubwayIncident): Obs { Obs(s.date, s.day, s.minDelay) }

  /** The group key of the per-date summaries. */
  datatype DateDay = DateDay(date: string, day: string)

  function ObsKey(o: Obs): DateDay { DateDay(o.date, o.day) }

  function ObsDay(o: Obs): string { o.day }

  function MinDelayOf(o: Obs): nat { o.minDelay }

  /** Every value of a column comes from a row, and every row contributes its value. */
  lemma ColumnValues<R, K>(field: R -> K, rows: seq<R>)
    ensures forall k :: k in Column(field, rows) <==> exists row :: row in rows && field(row) == k
  {
    forall k | exists row :: row in rows && field(row) == k
      ensures k in Column(field, rows)
    {
      var row :| row in rows && field(row) == k;
      var i :| 0 <= i < |rows| && rows[i] == row;
      assert Column(field, rows)[i] == k;
    }
  }

  // ---------------------------------------------------------------------------
  // Group sizes

  /** A row of a `groupby(key).size()` table. */
  datatype Group<K> = Group(key: K, n: nat)

  function EqualTo<K(==)>(k: K): K -> bool {
    x => x == k
  }

  function KeyOf<K>(g: Group<K>): K { g.key }

  function SizeOf<K>(g: Group<K>): nat { g.n }

  /** One group per key of `ks`, sized by the number of entries of `keys` equal to it. */
  function SizesOver<K(==,!new)>(ks: seq<K>, keys: seq<K>): (r: seq<Group<K>>)
    ensures |r| == |ks|
    ensures forall i :: 0 <= i < |ks| ==> r[i] == Group(ks[i], |Filter(EqualTo(ks[i]), keys)|)
  {
    seq(|ks|, i requires 0 <= i < |ks| => Group(ks[i], |Filter(EqualTo(ks[i]), keys)|))
  }

  /** `groupby(key).size()`: one row per distinct key with the number of rows having it. */
  function GroupSizes<K(==,!new)>(keys: seq<K>): (r: seq<Group<K>>)
    ensures Column(KeyOf, r) == Distinct(keys)
    ensures forall i :: 0 <= i < |r| ==> r[i].n == multiset(keys)[r[i].key] && r[i].n >= 1
  {
    FilterEqualCounts(Distinct(keys), keys);
    SizesOver(Distinct(keys), keys)
  }

  lemma FilterEqualCounts<K(!new)>(ks: seq<K>, keys: seq<K>)
    ensures forall i :: 0 <= i < |ks| ==> |Filter(EqualTo(ks[i]), keys)| == multiset(keys)[ks[i]]
  {
    forall i | 0 <= i < |ks| ensures |Filter(EqualTo(ks[i]), keys)| == multiset(keys)[ks[i]] {
      FilterEqualCount(ks[i], keys);
    }
  }

  /** The rows equal to `k` are as many as the occurrences of `k`. */
  lemma {:induction false} FilterEqualCount<K(!new)>(k: K, xs: seq<K>)
    ensures |Filter(EqualTo(k), xs)| == multiset(xs)[k]
  {
    if xs != [] {
      var init, last := xs[..|xs| - 1], xs[|xs| - 1];
      assert xs == init + [last];
      FilterEqualCount(k, init);
    }
  }

  /** The keys of the size table are the distinct keys of the rows, each once; every
      group is the number of rows with its key, and none is empty. */
  lemma GroupSizesFacts<K(!new)>(keys: seq<K>)
    ensures forall k :: k in Column(KeyOf, GroupSizes(keys)) <==> k in keys
    ensures NoDuplicates(Column(KeyOf, GroupSizes(keys)))
    ensures forall g :: g in GroupSizes(keys) ==> g.n == multiset(keys)[g.key] && g.n >= 1
  {
    var gs := GroupSizes(keys);
    assert Column(KeyOf, gs) == Distinct(keys);
    forall g | g in gs ensures g.n == multiset(keys)[g.key] && g.n >= 1 {
      FilterEqualCount(g.key, keys);
    }
  }

  /** The sizes over `ks` add up to the occurrences of the keys `ks` in `keys`. */
  lemma {:induction false} SumSizesOver<K(!new)>(ks: seq<K>, keys: seq<K>)
    ensures Sum(Column(SizeOf, SizesOver(ks, keys))) == Occurrences(ks, keys)
  {
    if ks != [] {
      var init, last := ks[..|ks| - 1], ks[|ks| - 1];
      assert ks == init + [last];
      SumSizesOver(init, keys);
      assert Column(SizeOf, SizesOver(ks, keys))[..|init|] == Column(SizeOf, SizesOver(init, keys));
      FilterEqualCount(last, keys);
      OccurrencesSnocKey(init, last, keys);
    }
  }

  /** Conservation: the group sizes add up to the number of rows. */
  lemma GroupSizesTotal<K(!new)>(keys: seq<K>)
    ensures Sum(Column(SizeOf, GroupSizes(keys))) == |keys|
  {
    SumSizesOver(Distinct(keys), keys);
    DistinctOccurrences(keys);
  }

  // ---------------------------------------------------------------------------
  // Totals per date

  /** A row of the per-date table: date, day, total_delay_time, n, mean_delay_time. */
  datatype DateTotal = DateTotal(date: string, day: string, totalDelayTime: nat, n: nat, meanDelayTime: real)

  /** The min_delay values of the rows with date and day `k`, in table order. */
  function DelaysOf(obs: seq<Obs>, k: DateDay): (r: seq<nat>)
    ensures |r| == multiset(Column(ObsKey, obs))[k]
  {
    if obs == [] then []
    else
      var init, last := obs[..|obs| - 1], obs[|obs| - 1];
      assert Column(ObsKey, obs) == Column(ObsKey, init) + [ObsKey(last)];
      var r := DelaysOf(init, k);
      if ObsKey(last) == k then r + [last.minDelay] else r
  }

  /** The delays of a group are the min_delay column of the rows selected by the mask
      "date and day equal `k`". */
  lemma {:induction false} DelaysOfRows(obs: seq<Obs>, k: DateDay)
    ensures DelaysOf(obs, k) == Column(MinDelayOf, Filter(FieldIs(ObsKey, k), obs))
  {
    if obs != [] {
      var init, last := obs[..|obs| - 1], obs[|obs| - 1];
      assert obs == init + [last];
      DelaysOfRows(init, k);
      var f := Filter(FieldIs(ObsKey, k), init);
      assert Column(MinDelayOf, f + [last]) == Column(MinDelayOf, f) + [last.minDelay];
    }
  }

  function Mean(s: seq<nat>): real
    requires |s| > 0
  {
    Sum(s) as real / |s| as real
  }

  /** The per-date row of the rows with date and day `k`: the group is never empty, so
      the mean is defined. */
  function TotalOf(obs: seq<Obs>, k: DateDay): (t: DateTotal)
    requires k in Column(ObsKey, obs)
    ensures t.n == multiset(Column(ObsKey, obs))[k] && t.n >= 1
  {
    var delays := DelaysOf(obs, k);
    assert k in multiset(Column(ObsKey, obs));
    DateTotal(k.date, k.day, Sum(delays), |delays|, Mean(delays))
  }

  function TotalsOver(ks: seq<DateDay>, obs: seq<Obs>): (r: seq<DateTotal>)
    requires forall k :: k in ks ==> k in Column(ObsKey, obs)
    ensures |r| == |ks|
    ensures forall i :: 0 <= i < |ks| ==> r[i] == TotalOf(obs, ks[i])
  {
    seq(|ks|, i requires 0 <= i < |ks| => TotalOf(obs, ks[i]))
  }

  /** `groupby(["date", "day"]).agg(total_delay_time=sum, n=count)` followed by
      `mean_delay_time = total_delay_time / n`. */
  function TotalsByDate(obs: seq<Obs>): (r: seq<DateTotal>)
    ensures |r| == |Distinct(Column(ObsKey, obs))|
    ensures forall i :: 0 <= i < |r| ==>
      TotalKey(r[i]) == Distinct(Column(ObsKey, obs))[i] &&
      r[i].n == multiset(Column(ObsKey, obs))[TotalKey(r[i])] && r[i].n >= 1
  {
    TotalsOver(Distinct(Column(ObsKey, obs)), obs)
  }

  function TotalKey(t: DateTotal): DateDay { DateDay(t.date, t.day) }

  function TotalN(t: DateTotal): nat { t.n }

  /** Each row of the per-date table sums the delays of the rows with its date and day,
      counts them, and averages them; the dates and days listed are exactly those of the
      rows, each pair once. */
  lemma TotalsByDateFacts(obs: seq<Obs>)
    ensures forall t :: t in TotalsByDate(obs) ==>
      var delays := DelaysOf(obs, DateDay(t.date, t.day));
      |delays| > 0 &&
      t.totalDelayTime == Sum(delays) && t.n == |delays| && t.meanDelayTime == Mean(delays)
    ensures Column(TotalKey, TotalsByDate(obs)) == Distinct(Column(ObsKey, obs))
  {
    var ks := Distinct(Column(ObsKey, obs));
    var r := TotalsByDate(obs);
    forall t | t in r
      ensures var delays := DelaysOf(obs, DateDay(t.date, t.day));
        |delays| > 0 &&
        t.totalDelayTime == Sum(delays) && t.n == |delays| && t.meanDelayTime == Mean(delays)
    {
      var i :| 0 <= i < |r| && r[i] == t;
      assert t == TotalOf(obs, ks[i]);
    }
  }

  /** Conservation: the n column adds up to the number of rows. */
  lemma TotalsByDateCount(obs: seq<Obs>)
    ensures Sum(Column(TotalN, TotalsByDate(obs))) == |obs|
  {
    var keys := Column(ObsKey, obs);
    var r := TotalsByDate(obs);
    var ns := Column(TotalN, r);
    forall i | 0 <= i < |r| ensures ns[i] == Column(SizeOf, GroupSizes(keys))[i] {
      FilterEqualCount(Distinct(keys)[i], keys);
    }
    assert ns == Column(SizeOf, GroupSizes(keys));
    GroupSizesTotal(keys);
  }

  /** The sum of values that are all at least `m` is at least `m` times their number,
      and symmetrically for an upper bound. */
  lemma {:induction false} SumBounds(s: seq<nat>, lo: nat, hi: nat)
    requires forall i :: 0 <= i < |s| ==> lo <= s[i] <= hi
    ensures |s| * lo <= Sum(s) <= |s| * hi
  {
    if s != [] {
      var init := s[..|s| - 1];
      assert forall i :: 0 <= i < |init| ==> init[i] == s[i];
      SumBounds(init, lo, hi);
      assert |s| * lo == |init| * lo + lo && |s| * hi == |init| * hi + hi;
    }
  }

  /** A quotient by a positive count of a total between `n * lo` and `n * hi` lies
      between `lo` and `hi`. */
  lemma DivisionBounds(total: real, n: real, lo: real, hi: real)
    requires n > 0.0 && n * lo <= total <= n * hi
    ensures lo <= total / n <= hi
  {
    var q := total / n;
    assert q * n == total;
    assert (q - lo) * n == total - lo * n;
    assert (hi - q) * n == hi * n - total;
  }

  /** mean_delay_time lies between any lower and any upper bound of the delays of its
      group, in particular between their minimum and their maximum. */
  lemma MeanWithinGroup(s: seq<nat>, lo: nat, hi: nat)
    requires |s| > 0
    requires forall i :: 0 <= i < |s| ==> lo <= s[i] <= hi
    ensures lo as real <= Mean(s) <= hi as real
  {
    SumBounds(s, lo, hi);
    DivisionBounds(Sum(s) as real, |s| as real, lo as real, hi as real);
  }

  lemma ExampleDelays(obs: seq<Obs>, k: DateDay)
    requires obs == [Obs("2024-01-01", "Monday", 10), Obs("2024-01-01", "Monday", 20)]
    requires k == DateDay("2024-01-01", "Monday")
    ensures Column(ObsKey, obs) == [k, k]
    ensures DelaysOf(obs, k) == [10, 20]
  {
    assert Column(ObsKey, obs) == [k, k];
    assert obs[..1] == [obs[0]] && obs[..1][..0] == [];
    assert DelaysOf(obs[..1], k) == [10];
  }

  /** A date with delays of 10 and 20 minutes has total 30, n 2 and mean 15. */
  lemma TotalsByDateExample()
    ensures TotalsByDate([Obs("2024-01-01", "Monday", 10), Obs("2024-01-01", "Monday", 20)]) ==
      [DateTotal("2024-01-01", "Monday", 30, 2, 15.0)]
  {
    var obs := [Obs("2024-01-01", "Monday", 10), Obs("2024-01-01", "Monday", 20)];
    var k := DateDay("2024-01-01", "Monday");
    ExampleDelays(obs, k);
    assert [k, k][..1] == [k] && [k][..0] == [];
    assert Distinct([k]) == [k];
    assert Distinct(Column(ObsKey, obs)) == [k];
    assert Sum([10, 20]) == 30 by {
      assert [10, 20][..1] == [10] && [10][..0] == [];
    }
    assert TotalOf(obs, k) == DateTotal("2024-01-01", "Monday", 30, 2, 15.0);
  }

  // ---------------------------------------------------------------------------
  // Mean number of delays per day of the week

  /** A row of the per-day table: day, mean_num_delays. */
  datatype DayMean = DayMean(day: string, meanNumDelays: real)

  function DayIs(d: string): DateDay -> bool {
    (k: DateDay) => k.day == d
  }

  function SizeDay(g: Group<DateDay>): string { g.key.day }

  function KeyDay(k: DateDay): string { k.day }

  function MeanDay(m: DayMean): string { m.day }

  /** The sizes of the rows of a size table with day `d`, in table order. */
  function NsOfDay(sizes: seq<Group<DateDay>>, d: string): (r: seq<nat>)
    ensures d in Column(SizeDay, sizes) ==> |r| > 0
  {
    if sizes == [] then []
    else
      var init, last := sizes[..|sizes| - 1], sizes[|sizes| - 1];
      assert Column(SizeDay, sizes) == Column(SizeDay, init) + [SizeDay(last)];
      var r := NsOfDay(init, d);
      if SizeDay(last) == d then r + [last.n] else r
  }

  /** The sizes of a day are the n column of the size rows selected by the mask
      "day equals `d`". */
  lemma {:induction false} NsOfDayRows(sizes: seq<Group<DateDay>>, d: string)
    ensures NsOfDay(sizes, d) == Column(SizeOf, Filter(FieldIs(SizeDay, d), sizes))
  {
    if sizes != [] {
      var init, last := sizes[..|sizes| - 1], sizes[|sizes| - 1];
      assert sizes == init + [last];
      NsOfDayRows(init, d);
      var f := Filter(FieldIs(SizeDay, d), init);
      assert Column(SizeOf, f + [last]) == Column(SizeOf, f) + [last.n];
    }
  }

  /** `groupby("day")["n"].mean()` over a size table: one row per distinct day, in order
      of first appearance, holding the mean of that day's sizes. */
  function DayMeans(sizes: seq<Group<DateDay>>): (r: seq<DayMean>)
    ensures Column(MeanDay, r) == Distinct(Column(SizeDay, sizes))
    ensures forall i :: 0 <= i < |r| ==>
      |NsOfDay(sizes, r[i].day)| > 0 && r[i].meanNumDelays == Mean(NsOfDay(sizes, r[i].day))
  {
    var days := Distinct(Column(SizeDay, sizes));
    seq(|days|, i requires 0 <= i < |days| => DayMean(days[i], Mean(NsOfDay(sizes, days[i]))))
  }

  /** `groupby(["date", "day"]).size()` followed by the mean per day. */
  function AvgNumDelaysByDay(obs: seq<Obs>): (r: seq<DayMean>)
    ensures forall i :: 0 <= i < |r| ==> r[i].meanNumDelays >= 1.0
  {
    DayMeansAtLeastOne(GroupSizes(Column(ObsKey, obs)));
    DayMeans(GroupSizes(Column(ObsKey, obs)))
  }

  lemma {:induction false} SumAtLeastLength(s: seq<nat>)
    requires forall i :: 0 <= i < |s| ==> s[i] >= 1
    ensures Sum(s) >= |s|
  {
    if s != [] {
      SumAtLeastLength(s[..|s| - 1]);
    }
  }

  lemma {:induction false} NsOfDayAtLeastOne(sizes: seq<Group<DateDay>>, d: string)
    requires forall i :: 0 <= i < |sizes| ==> sizes[i].n >= 1
    ensures forall i :: 0 <= i < |NsOfDay(sizes, d)| ==> NsOfDay(sizes, d)[i] >= 1
  {
    if sizes != [] {
      NsOfDayAtLeastOne(sizes[..|sizes| - 1], d);
    }
  }

  /** A day that occurs has at least one delay on each of its dates, so its mean number of
      delays is at least one. */
  lemma DayMeansAtLeastOne(sizes: seq<Group<DateDay>>)
    requires forall i :: 0 <= i < |sizes| ==> sizes[i].n >= 1
    ensures forall i :: 0 <= i < |DayMeans(sizes)| ==> DayMeans(sizes)[i].meanNumDelays >= 1.0
  {
    var r := DayMeans(sizes);
    forall i | 0 <= i < |r| ensures r[i].meanNumDelays >= 1.0 {
      var s := NsOfDay(sizes, r[i].day);
      NsOfDayAtLeastOne(sizes, r[i].day);
      SumAtLeastLength(s);
      var total, n := Sum(s) as real, |s| as real;
      assert n * 1.0 <= total <= n * total;
      DivisionBounds(total, n, 1.0, total);
    }
  }

  lemma SizesOverSnoc<K(!new)>(ks: seq<K>, k: K, keys: seq<K>)
    ensures SizesOver(ks + [k], keys) == SizesOver(ks, keys) + [Group(k, |Filter(EqualTo(k), keys)|)]
  {
  }

  lemma NsOfDaySnoc(sizes: seq<Group<DateDay>>, g: Group<DateDay>, d: string)
    ensures NsOfDay(sizes + [g], d) == NsOfDay(sizes, d) + if SizeDay(g) == d then [g.n] else []
  {
    assert (sizes + [g])[..|sizes|] == sizes;
  }

  /** Keeping the sizes of one day is sizing over the keys of that day. */
  lemma {:induction false} NsOfDaySizes(ks: seq<DateDay>, keys: seq<DateDay>, d: string)
    ensures NsOfDay(SizesOver(ks, keys), d) == Column(SizeOf, SizesOver(Filter(DayIs(d), ks), keys))
  {
    if ks != [] {
      var init, last := ks[..|ks| - 1], ks[|ks| - 1];
      assert ks == init + [last];
      NsOfDaySizes(init, keys, d);
      var g := Group(last, |Filter(EqualTo(last), keys)|);
      SizesOverSnoc(init, last, keys);
      NsOfDaySnoc(SizesOver(init, keys), g, d);
      FilterSnoc(DayIs(d), init, last);
      var f := Filter(DayIs(d), init);
      if DayIs(d)(last) {
        SizesOverSnoc(f, last, keys);
        ColumnSnoc(SizeOf, SizesOver(f, keys), g);
      }
    }
  }

  /** mean_num_delays of a day is the number of rows with that day divided by the number
      of distinct dates those rows carry. */
  lemma DayMeanMeaning(obs: seq<Obs>, i: nat)
    requires i < |AvgNumDelaysByDay(obs)|
    ensures var m := AvgNumDelaysByDay(obs)[i];
      var rowsOfDay := Filter(DayIs(m.day), Column(ObsKey, obs));
      |Distinct(rowsOfDay)| > 0 &&
      m.meanNumDelays == |rowsOfDay| as real / |Distinct(rowsOfDay)| as real
  {
    var keys := Column(ObsKey, obs);
    var sizes := GroupSizes(keys);
    var d := AvgNumDelaysByDay(obs)[i].day;
    var rowsOfDay := Filter(DayIs(d), keys);
    var ns := NsOfDay(sizes, d);
    NsOfDaySizes(Distinct(keys), keys, d);
    FilterDistinct(DayIs(d), keys);
    assert ns == Column(SizeOf, SizesOver(Distinct(rowsOfDay), keys));
    SumSizesOver(Distinct(rowsOfDay), keys);
    OccurrencesCongruent(Distinct(rowsOfDay), keys, rowsOfDay);
    DistinctOccurrences(rowsOfDay);
    assert Sum(ns) == |rowsOfDay|;
    assert |ns| == |Distinct(rowsOfDay)|;
  }

  /** A size table has the days of its keys. */
  lemma SizeDaysOfKeys(keys: seq<DateDay>)
    ensures forall d :: d in Column(SizeDay, GroupSizes(keys)) <==> d in Column(KeyDay, keys)
  {
    var sizes := GroupSizes(keys);
    GroupSizesFacts(keys);
    ColumnValues(SizeDay, sizes);
    ColumnValues(KeyDay, keys);
    ColumnValues(KeyOf, sizes);
    forall d | d in Column(SizeDay, sizes) ensures d in Column(KeyDay, keys) {
      var g :| g in sizes && SizeDay(g) == d;
      assert g.key in Column(KeyOf, sizes);
      assert KeyDay(g.key) == d;
    }
    forall d | d in Column(KeyDay, keys) ensures d in Column(SizeDay, sizes) {
      var k :| k in keys && KeyDay(k) == d;
      assert k in Column(KeyOf, sizes);
      var g :| g in sizes && KeyOf(g) == k;
      assert SizeDay(g) == d;
    }
  }

  /** The per-day table lists exactly the days that occur in the rows, each once. */
  lemma AvgNumDelaysDays(obs: seq<Obs>)
    ensures forall d :: d in Column(MeanDay, AvgNumDelaysByDay(obs)) <==> d in Column(ObsDay, obs)
    ensures NoDuplicates(Column(MeanDay, AvgNumDelaysByDay(obs)))
  {
    var sizes := GroupSizes(Column(ObsKey, obs));
    assert Column(MeanDay, AvgNumDelaysByDay(obs)) == Distinct(Column(SizeDay, sizes));
    SizeDaysOfKeys(Column(ObsKey, obs));
    assert Column(KeyDay, Column(ObsKey, obs)) == Column(ObsDay, obs);
  }

  // ---------------------------------------------------------------------------
  // Counts per incident and per line

  function BusIncidentOf(b: BusDelay): Option<string> { b.incident }

  function IncidentOf(s: SubwayIncident): string { s.incident }

  function LineOf(s: SubwayIncident): string { s.line }

  /** The non-missing incidents of the bus table, in row order (`groupby` drops missing keys). */
  function PresentIncidents(rows: seq<BusDelay>): (r: seq<string>)
    ensures |r| == |Filter((b: BusDelay) => b.incident.Some?, rows)|
    ensures forall t :: t in r <==> exists b :: b in rows && b.incident == Some(t)
  {
    if rows == [] then []
    else
      var init, last := rows[..|rows| - 1], rows[|rows| - 1];
      assert rows == init + [last];
      var r := PresentIncidents(init);
      if last.incident.Some? then r + [last.incident.value] else r
  }

  /** An incident occurs among the present incidents once per row carrying it. */
  lemma {:induction false} PresentIncidentsCount(rows: seq<BusDelay>, t: string)
    ensures multiset(PresentIncidents(rows))[t] == |Filter(FieldIs(BusIncidentOf, Some(t)), rows)|
  {
    if rows != [] {
      var init, last := rows[..|rows| - 1], rows[|rows| - 1];
      assert rows == init + [last];
      PresentIncidentsCount(init, t);
      var p := PresentIncidents(init);
      assert PresentIncidents(rows) == if last.incident.Some? then p + [last.incident.value] else p;
      var f := Filter(FieldIs(BusIncidentOf, Some(t)), init);
      assert Filter(FieldIs(BusIncidentOf, Some(t)), rows) == if last.incident == Some(t) then f + [last] else f;
    }
  }

  /** `groupby("incident").size()` of the bus table. */
  function BusIncidentCounts(rows: seq<BusDelay>): (r: seq<Group<string>>)
    ensures forall i :: 0 <= i < |r| ==> r[i].n == multiset(PresentIncidents(rows))[r[i].key] && r[i].n >= 1
  {
    GroupSizes(PresentIncidents(rows))
  }

  /** Each present bus incident is counted once, as many times as rows carry it; the
      counts add up to the number of rows whose incident is not missing. */
  lemma BusIncidentCountsFacts(rows: seq<BusDelay>)
    ensures forall t :: t in Column(KeyOf, BusIncidentCounts(rows)) <==>
      exists b :: b in rows && b.incident == Some(t)
    ensures NoDuplicates(Column(KeyOf, BusIncidentCounts(rows)))
    ensures forall g :: g in BusIncidentCounts(rows) ==>
      g.n == |Filter(FieldIs(BusIncidentOf, Some(g.key)), rows)|
    ensures Sum(Column(SizeOf, BusIncidentCounts(rows))) == |Filter((b: BusDelay) => b.incident.Some?, rows)|
  {
    GroupSizesFacts(PresentIncidents(rows));
    GroupSizesTotal(PresentIncidents(rows));
    forall g | g in BusIncidentCounts(rows)
      ensures g.n == |Filter(FieldIs(BusIncidentOf, Some(g.key)), rows)|
    {
      PresentIncidentsCount(rows, g.key);
    }
  }

  /** `groupby("incident").size()` of the subway table. */
  function SubwayIncidentCounts(rows: seq<SubwayIncident>): (r: seq<Group<string>>)
    ensures forall i :: 0 <= i < |r| ==> r[i].n == multiset(Column(IncidentOf, rows))[r[i].key] && r[i].n >= 1
  {
    GroupSizes(Column(IncidentOf, rows))
  }

  /** `groupby("line").size()` of the subway table. */
  function LineCounts(rows: seq<SubwayIncident>): (r: seq<Group<string>>)
    ensures forall i :: 0 <= i < |r| ==> r[i].n == multiset(Column(LineOf, rows))[r[i].key] && r[i].n >= 1
  {
    GroupSizes(Column(LineOf, rows))
  }

  /** Grouping a column of rows by value: each value of the column is listed once, with
      the number of rows carrying it, and the counts add up to the number of rows. */
  lemma ColumnCountsFacts<R(!new)>(field: R -> string, rows: seq<R>)
    ensures forall k :: k in Column(KeyOf, GroupSizes(Column(field, rows))) <==>
      exists row :: row in rows && field(row) == k
    ensures NoDuplicates(Column(KeyOf, GroupSizes(Column(field, rows))))
    ensures forall g :: g in GroupSizes(Column(field, rows)) ==>
      g.n == |Filter(FieldIs(field, g.key), rows)|
    ensures Sum(Column(SizeOf, GroupSizes(Column(field, rows)))) == |rows|
  {
    var column := Column(field, rows);
    ColumnValues(field, rows);
    GroupSizesFacts(column);
    GroupSizesTotal(column);
    forall k ensures k in Column(KeyOf, GroupSizes(column)) <==> exists row :: row in rows && field(row) == k {
      assert k in Column(KeyOf, GroupSizes(column)) <==> k in column;
    }
    forall g | g in GroupSizes(column) ensures g.n == |Filter(FieldIs(field, g.key), rows)| {
      ColumnCount(field, rows, g.key);
    }
  }

  /** Each subway incident is counted once, as many times as rows carry it, and since
      the column has no missing values the counts add up to the number of rows. */
  lemma SubwayIncidentCountsFacts(rows: seq<SubwayIncident>)
    ensures forall t :: t in Column(KeyOf, SubwayIncidentCounts(rows)) <==>
      exists s :: s in rows && s.incident == t
    ensures NoDuplicates(Column(KeyOf, SubwayIncidentCounts(rows)))
    ensures forall g :: g in SubwayIncidentCounts(rows) ==>
      g.n == |Filter(FieldIs(IncidentOf, g.key), rows)|
    ensures Sum(Column(SizeOf, SubwayIncidentCounts(rows))) == |rows|
  {
    ColumnCountsFacts(IncidentOf, rows);
  }

  /** Each line is counted once, as many times as rows carry it, and since normalised
      lines are never missing the counts add up to the number of rows. */
  lemma LineCountsFacts(rows: seq<SubwayIncident>)
    ensures forall l :: l in Column(KeyOf, LineCounts(rows)) <==>
      exists s :: s in rows && s.line == l
    ensures NoDuplicates(Column(KeyOf, LineCounts(rows)))
    ensures forall g :: g in LineCounts(rows) ==>
      g.n == |Filter(FieldIs(LineOf, g.key), rows)|
    ensures Sum(Column(SizeOf, LineCounts(rows))) == |rows|
  {
    ColumnCountsFacts(LineOf, rows);
  }

  // ---------------------------------------------------------------------------
  // The stage

  /** The seven summary tables. */
  datatype Summaries = Summaries(
    avgNumBusDelaysByDay: seq<DayMean>,
    totalBusDelayTimeByDate: seq<DateTotal>,
    totalNumBusDelaysByIncident: seq<Group<string>>,
    avgNumSubwayDelaysByDay: seq<DayMean>,
    totalSubwayDelayTimeByDate: seq<DateTotal>,
    totalNumSubwayDelaysByIncident: seq<Group<string>>,
    totalNumSubwayDelaysByLine: seq<Group<string>>)

  /** The seven tables of the stage.  None describes an empty group: every count is at
      least one and every mean number of delays per day is at least one. */
  function Summarise(bus: seq<BusDelay>, subway: seq<SubwayIncident>): (r: Summaries)
    ensures forall i :: 0 <= i < |r.avgNumBusDelaysByDay| ==> r.avgNumBusDelaysByDay[i].meanNumDelays >= 1.0
    ensures forall i :: 0 <= i < |r.avgNumSubwayDelaysByDay| ==> r.avgNumSubwayDelaysByDay[i].meanNumDelays >= 1.0
    ensures forall i :: 0 <= i < |r.totalBusDelayTimeByDate| ==> r.totalBusDelayTimeByDate[i].n >= 1
    ensures forall i :: 0 <= i < |r.totalSubwayDelayTimeByDate| ==> r.totalSubwayDelayTimeByDate[i].n >= 1
    ensures forall i :: 0 <= i < |r.totalNumBusDelaysByIncident| ==> r.totalNumBusDelaysByIncident[i].n >= 1
    ensures forall i :: 0 <= i < |r.totalNumSubwayDelaysByIncident| ==> r.totalNumSubwayDelaysByIncident[i].n >= 1
    ensures forall i :: 0 <= i < |r.totalNumSubwayDelaysByLine| ==> r.totalNumSubwayDelaysByLine[i].n >= 1
  {
    Summaries(
      AvgNumDelaysByDay(Column(BusObs, bus)),
      TotalsByDate(Column(BusObs, bus)),
      BusIncidentCounts(bus),
      AvgNumDelaysByDay(Column(SubwayObs, subway)),
      TotalsByDate(Column(SubwayObs, subway)),
      SubwayIncidentCounts(subway),
      LineCounts(subway))
  }

  /** Every count table of the stage adds up to the rows it counts: all bus rows by date,
      the bus rows with an incident by incident, and all subway rows by date, by incident
      and by line. */
  lemma SummariseConservation(bus: seq<BusDelay>, subway: seq<SubwayIncident>)
    ensures var s := Summarise(bus, subway);
      Sum(Column(TotalN, s.totalBusDelayTimeByDate)) == |bus| &&
      Sum(Column(SizeOf, s.totalNumBusDelaysByIncident)) == |Filter((b: BusDelay) => b.incident.Some?, bus)| &&
      Sum(Column(TotalN, s.totalSubwayDelayTimeByDate)) == |subway| &&
      Sum(Column(SizeOf, s.totalNumSubwayDelaysByIncident)) == |subway| &&
      Sum(Column(SizeOf, s.totalNumSubwayDelaysByLine)) == |subway|
  {
    TotalsByDateCount(Column(BusObs, bus));
    TotalsByDateCount(Column(SubwayObs, subway));
    BusIncidentCountsFacts(bus);
    SubwayIncidentCountsFacts(subway);
    LineCountsFacts(subway);
  }
}
