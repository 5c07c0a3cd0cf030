/** Shared vocabulary of the delay pipeline: optional values and results,
    the typed rows that the classifier and the summariser exchange, and
    generic sequence helpers (filtering, de-duplication in first-appearance
    order, subsequences, and sums of occurrence counts). */
module Tables {

  /** A value that may be missing (a NaN cell of a data frame). */
  datatype Option<+T> = None | Some(value: T)

  /** The outcome of a stage that can stop with an error. */
  datatype Result<+R, +E> = Success(value: R) | Failure(error: E)

  /** A row of the cleaned bus table: date, time, day, incident, min_delay, min_gap.
      Before classification `incident` holds the raw incident text, after it the
      incident category (missing when the text is not in the lookup). */
  datatype BusDelay = BusDelay(
    date: string, time: string, day: string,
    incident: Option<string>, minDelay: nat, minGap: int)

  /** A row of the cleaned subway table: date, time, day, code, min_delay, min_gap, line. */
  datatype SubwayDelay = SubwayDelay(
    date: string, time: string, day: string,
    code: Option<string>, minDelay: nat, minGap: int, line: Option<string>)

  /** A row of the merged subway code table: code, code_description. */
  datatype CodeEntry = CodeEntry(code: Option<string>, description: Option<string>)

  /** A row of the categorised subway table: date, time, day, incident, min_delay,
      min_gap, line, where the line is already normalised. */
  datatype SubwayIncident = SubwayIncident(
    date: string, time: string, day: string,
    incident: string, minDelay: nat, minGap: int, line: string)

  /** No value occurs twice in `s`. */
  predicate NoDuplicates<T(==)>(s: seq<T>) {
    forall i, j :: 0 <= i < j < |s| ==> s[i] != s[j]
  }

  /** `a` is obtained from `b` by deleting elements (order kept). Matched from the back. */
  predicate IsSubsequence<T(==)>(a: seq<T>, b: seq<T>)
    decreases |b|
  {
    if a == [] then true
    else if b == [] then false
    else if a[|a| - 1] == b[|b| - 1] then IsSubsequence(a[..|a| - 1], b[..|b| - 1])
    else IsSubsequence(a, b[..|b| - 1])
  }

  /** The elements of `xs` satisfying `p`, in their original order (a boolean mask). */
  function Filter<T(==,!new)>(p: T -> bool, xs: seq<T>): (r: seq<T>)
    ensures IsSubsequence(r, xs)
    ensures forall x :: x in r <==> x in xs && p(x)
    ensures forall x :: multiset(r)[x] == if p(x) then multiset(xs)[x] else 0
    ensures |r| <= |xs|
  {
    if xs == [] then []
    else
      var init, last := xs[..|xs| - 1], xs[|xs| - 1];
      assert xs == init + [last];
      var r := Filter(p, init);
      if p(last) then
        assert (r + [last])[..|r|] == r;
        r + [last]
      else
        SubsequenceExtend(r, init, last);
        r
  }

  /** The values of one field over the rows, in row order: a column of a table. */
  function Column<R, K>(field: R -> K, rows: seq<R>): (r: seq<K>)
    ensures |r| == |rows|
    ensures forall i :: 0 <= i < |rows| ==> r[i] == field(rows[i])
  {
    seq(|rows|, i requires 0 <= i < |rows| => field(rows[i]))
  }

  lemma ColumnSnoc<R, K>(field: R -> K, rows: seq<R>, x: R)
    ensures Column(field, rows + [x]) == Column(field, rows) + [field(x)]
  {
  }

  lemma FilterSnoc<T(!new)>(p: T -> bool, xs: seq<T>, x: T)
    ensures Filter(p, xs + [x]) == Filter(p, xs) + if p(x) then [x] else []
  {
    assert (xs + [x])[..|xs|] == xs;
  }

  /** The mask "the field of the row equals `k`". */
  function FieldIs<R, K(==)>(field: R -> K, k: K): R -> bool {
    row => field(row) == k
  }

  /** A value occurs in a column as often as there are rows whose field has that value. */
  lemma {:induction false} ColumnCount<R(!new), K(!new)>(field: R -> K, rows: seq<R>, k: K)
    ensures multiset(Column(field, rows))[k] == |Filter(FieldIs(field, k), rows)|
  {
    if rows != [] {
      var init, last := rows[..|rows| - 1], rows[|rows| - 1];
      assert rows == init + [last];
      assert Column(field, rows) == Column(field, init) + [field(last)];
      ColumnCount(field, init, k);
    }
  }

  /** Appending an element to the longer sequence keeps a subsequence one. */
  lemma {:induction false} SubsequenceExtend<T>(a: seq<T>, b: seq<T>, x: T)
    requires IsSubsequence(a, b)
    requires x !in a
    ensures IsSubsequence(a, b + [x])
  {
    if a != [] {
      assert (b + [x])[..|b|] == b;
    }
  }

  /** The values of `xs` without repetitions, each at the place of its first appearance
      (the keys of a group-by). */
  function Distinct<T(==,!new)>(xs: seq<T>): (d: seq<T>)
    ensures forall x :: x in d <==> x in xs
    ensures NoDuplicates(d)
  {
    if xs == [] then []
    else
      var init, last := xs[..|xs| - 1], xs[|xs| - 1];
      assert xs == init + [last];
      var d := Distinct(init);
      if last in d then d else d + [last]
  }

  /** Sum, over the keys `ks`, of the number of times each key occurs in `xs`. */
  function Occurrences<T(==)>(ks: seq<T>, xs: seq<T>): nat {
    if ks == [] then 0 else multiset(xs)[ks[0]] + Occurrences(ks[1..], xs)
  }

  /** Sum of a sequence of naturals. */
  function Sum(s: seq<nat>): nat {
    if s == [] then 0 else Sum(s[..|s| - 1]) + s[|s| - 1]
  }

  lemma {:induction false} OccurrencesSnocKey<T>(ks: seq<T>, k: T, xs: seq<T>)
    ensures Occurrences(ks + [k], xs) == Occurrences(ks, xs) + multiset(xs)[k]
  {
    if ks != [] {
      assert (ks + [k])[1..] == ks[1..] + [k];
      OccurrencesSnocKey(ks[1..], k, xs);
    }
  }

  lemma {:induction false} OccurrencesSnocRow<T>(ks: seq<T>, xs: seq<T>, x: T)
    ensures Occurrences(ks, xs + [x]) == Occurrences(ks, xs) + multiset(ks)[x]
  {
    if ks != [] {
      assert ks == [ks[0]] + ks[1..];
      OccurrencesSnocRow(ks[1..], xs, x);
    }
  }

  lemma {:induction false} NoDuplicatesCount<T>(s: seq<T>, x: T)
    requires NoDuplicates(s)
    ensures multiset(s)[x] == if x in s then 1 else 0
  {
    if s != [] {
      assert s == [s[0]] + s[1..];
      NoDuplicatesCount(s[1..], x);
    }
  }

  /** Conservation: the group sizes of a group-by add up to the number of rows. */
  lemma {:induction false} DistinctOccurrences<T(!new)>(xs: seq<T>)
    ensures Occurrences(Distinct(xs), xs) == |xs|
  {
    if xs != [] {
      var init, last := xs[..|xs| - 1], xs[|xs| - 1];
      assert xs == init + [last];
      var d := Distinct(init);
      DistinctOccurrences(init);
      OccurrencesSnocRow(d, init, last);
      NoDuplicatesCount(d, last);
      if last !in d {
        OccurrencesSnocKey(d, last, xs);
      }
    }
  }

  /** Occurrence sums depend only on the counts of the keys in `xs`. */
  lemma {:induction false} OccurrencesCongruent<T>(ks: seq<T>, xs: seq<T>, ys: seq<T>)
    requires forall k :: k in ks ==> multiset(xs)[k] == multiset(ys)[k]
    ensures Occurrences(ks, xs) == Occurrences(ks, ys)
  {
    if ks != [] {
      OccurrencesCongruent(ks[1..], xs, ys);
    }
  }

  /** Keeping the keys with a property commutes with de-duplication. */
  lemma {:induction false} FilterDistinct<T(!new)>(p: T -> bool, xs: seq<T>)
    ensures Filter(p, Distinct(xs)) == Distinct(Filter(p, xs))
  {
    if xs != [] {
      var init, last := xs[..|xs| - 1], xs[|xs| - 1];
      assert xs == init + [last];
      FilterDistinct(p, init);
      var d, f := Distinct(init), Filter(p, init);
      FilterSnoc(p, init, last);
      if last !in d {
        FilterSnoc(p, d, last);
      }
      if p(last) {
        assert (f + [last])[..|f|] == f;
      }
    }
  }
}
