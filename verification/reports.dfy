/**
 * The diagnosis reports of `ReportController`: the date-range check the
 * weekly, disaggregated and referral reports share, the weekly report's
 * per-week counts, totals and ranking, and the disaggregated report's
 * reordering of diagnoses by frequency.
 *
 * The two database queries are inputs: the diagnoses query gives one
 * `Diagnosis` per concept name, and the observations are filtered here
 * the way the patients query filters them.
 */
module Reports {
  import opened Values
  import opened Calendar
  import opened Hashes
  import opened Weeks

  /** An observation joined to its person: the coded answer (nil when
      uncoded), the day number of `obs_datetime`, and the voided flag. */
  datatype Obs = Obs(valueCoded: Option<int>, day: int, voided: bool)

  /** A row of the diagnoses query: a concept name and the coded answer
      it was recorded under. */
  datatype Diagnosis = Diagnosis(name: string, valueCoded: Option<int>)

  /** The six request parameters of a report's date range. */
  datatype RangeParams = RangeParams(
    startYear: Field, startMonth: Field, startDay: Field,
    endYear: Field, endMonth: Field, endDay: Field)

  datatype RangeError =
    | StartAfterEnd   // redirected to `select` with `Notice`
    | NoDate          // a date did not parse; comparing with nil raises

  const Notice: string := "Start date is greater that end date"

  // ---------------------------------------------------------------------
  // The date range
  // ---------------------------------------------------------------------

  /** `Date.new(y.to_i, m.to_i, d.to_i) rescue nil`. */
  function ParseDate(y: Field, m: Field, d: Field): (r: Option<Date>)
    ensures r.Some? ==> Valid(r.value) && r.value.year == ToI(y)
    ensures Valid(Date(ToI(y), ToI(m), ToI(d))) ==> r == Some(Date(ToI(y), ToI(m), ToI(d)))
    ensures ToI(m) == 0 || ToI(d) == 0 ==> r.None?
  {
    Civil(ToI(y), ToI(m), ToI(d))
  }

  /** The check that opens `weekly_report`, `disaggregated_diagnosis` and
      `referral`: both dates must parse and the start must not come after
      the end. */
  function CheckRange(p: RangeParams): (r: Result<(Date, Date), RangeError>)
    ensures r.Ok? ==> Valid(r.value.0) && Valid(r.value.1) && DayNumber(r.value.0) <= DayNumber(r.value.1)
    ensures r.Ok? ==> (Some(r.value.0) == ParseDate(p.startYear, p.startMonth, p.startDay)
      && Some(r.value.1) == ParseDate(p.endYear, p.endMonth, p.endDay))
    ensures r == Err(NoDate) <==>
      ParseDate(p.startYear, p.startMonth, p.startDay).None? || ParseDate(p.endYear, p.endMonth, p.endDay).None?
    ensures var s := ParseDate(p.startYear, p.startMonth, p.startDay);
      var e := ParseDate(p.endYear, p.endMonth, p.endDay);
      r == Err(StartAfterEnd) <==> s.Some? && e.Some? && DayNumber(e.value) < DayNumber(s.value)
  {
    var s := ParseDate(p.startYear, p.startMonth, p.startDay);
    var e := ParseDate(p.endYear, p.endMonth, p.endDay);
    if s.None? || e.None? then Err(NoDate)
    else
      DayNumberOrder(e.value, s.value);
      if Before(e.value, s.value) then Err(StartAfterEnd) else Ok((s.value, e.value))
  }

  /** The notice shown when the range is refused because it is reversed. */
  function RangeNotice(e: RangeError): (r: Option<string>)
    ensures r.Some? <==> e == StartAfterEnd
    ensures r.Some? ==> r.value == Notice
  {
    if e == StartAfterEnd then Some(Notice) else None
  }

  // ---------------------------------------------------------------------
  // Counting observations
  // ---------------------------------------------------------------------

  predicate InRange(o: Obs, lo: int, hi: int) {
    lo <= o.day <= hi
  }

  /** The observations dated within `lo..hi`, in their order. */
  function RowsIn(rows: seq<Obs>, lo: int, hi: int): (r: seq<Obs>)
    ensures |r| <= |rows|
    ensures forall o :: o in r <==> o in rows && InRange(o, lo, hi)
  {
    if |rows| == 0 then []
    else (if InRange(rows[0], lo, hi) then [rows[0]] else []) + RowsIn(rows[1..], lo, hi)
  }

  /** What the patients query returns for a range: the observations that
      are not voided and are dated within it. */
  function Recorded(obs: seq<Obs>, lo: int, hi: int): (r: seq<Obs>)
    ensures forall o :: o in r <==> o in obs && !o.voided && InRange(o, lo, hi)
  {
    if |obs| == 0 then []
    else (if !obs[0].voided && InRange(obs[0], lo, hi) then [obs[0]] else []) + Recorded(obs[1..], lo, hi)
  }

  /** How many rows carry `code` (Ruby `==`, so nil matches nil). */
  function Matches(rows: seq<Obs>, code: Option<int>): (n: nat)
    ensures n <= |rows|
  {
    if |rows| == 0 then 0
    else (if rows[0].valueCoded == code then 1 else 0) + Matches(rows[1..], code)
  }

  /** No row is counted exactly when none carries the code. */
  lemma {:induction false} MatchesNone(rows: seq<Obs>, code: Option<int>)
    ensures Matches(rows, code) == 0 <==> forall i :: 0 <= i < |rows| ==> rows[i].valueCoded != code
  {
    if |rows| > 0 {
      MatchesNone(rows[1..], code);
      assert forall i :: 1 <= i < |rows| ==> rows[i] == rows[1..][i - 1];
    }
  }

  /** `RowsIn` keeps every row dated within the range as often as it occurs,
      and drops every other row. */
  lemma {:induction false} RowsInCounts(rows: seq<Obs>, lo: int, hi: int, o: Obs)
    ensures multiset(RowsIn(rows, lo, hi))[o] == if InRange(o, lo, hi) then multiset(rows)[o] else 0
  {
    if |rows| > 0 {
      assert rows == [rows[0]] + rows[1..];
      RowsInCounts(rows[1..], lo, hi, o);
    }
  }

  /** `Recorded` keeps every non-voided observation dated within the range
      as often as it occurs, and drops every other one. */
  lemma {:induction false} RecordedCounts(obs: seq<Obs>, lo: int, hi: int, o: Obs)
    ensures multiset(Recorded(obs, lo, hi))[o] == if !o.voided && InRange(o, lo, hi) then multiset(obs)[o] else 0
  {
    if |obs| > 0 {
      assert obs == [obs[0]] + obs[1..];
      RecordedCounts(obs[1..], lo, hi, o);
    }
  }

  /** The codes the rows carry, row by row. */
  function Codes(rows: seq<Obs>): (cs: seq<Option<int>>)
    ensures |cs| == |rows|
  {
    seq(|rows|, i requires 0 <= i < |rows| => rows[i].valueCoded)
  }

  /** `Matches` counts each row carrying the code once: as many as the code
      occurs among the rows' codes. */
  lemma {:induction false} MatchesCounts(rows: seq<Obs>, code: Option<int>)
    ensures Matches(rows, code) == multiset(Codes(rows))[code]
  {
    if |rows| > 0 {
      MatchesCounts(rows[1..], code);
      assert Codes(rows) == [rows[0].valueCoded] + Codes(rows[1..]);
    }
  }

  /** The rows carrying `code` and dated within `lo..hi`. */
  function CountIn(rows: seq<Obs>, code: Option<int>, lo: int, hi: int): nat {
    Matches(RowsIn(rows, lo, hi), code)
  }

  /** Splitting a range at `mid` splits the count. */
  lemma {:induction false} CountSplit(rows: seq<Obs>, code: Option<int>, lo: int, mid: int, hi: int)
    requires lo <= mid + 1 && mid <= hi
    ensures CountIn(rows, code, lo, hi) == CountIn(rows, code, lo, mid) + CountIn(rows, code, mid + 1, hi)
  {
    if |rows| > 0 {
      CountSplit(rows[1..], code, lo, mid, hi);
      var o := rows[0];
      var tail := rows[1..];
      assert RowsIn(rows, lo, hi) == (if InRange(o, lo, hi) then [o] else []) + RowsIn(tail, lo, hi);
      assert RowsIn(rows, lo, mid) == (if InRange(o, lo, mid) then [o] else []) + RowsIn(tail, lo, mid);
      assert RowsIn(rows, mid + 1, hi) == (if InRange(o, mid + 1, hi) then [o] else []) + RowsIn(tail, mid + 1, hi);
      MatchesCons(o, RowsIn(tail, lo, hi), InRange(o, lo, hi), code);
      MatchesCons(o, RowsIn(tail, lo, mid), InRange(o, lo, mid), code);
      MatchesCons(o, RowsIn(tail, mid + 1, hi), InRange(o, mid + 1, hi), code);
    }
  }

  lemma MatchesCons(o: Obs, rest: seq<Obs>, keep: bool, code: Option<int>)
    ensures Matches((if keep then [o] else []) + rest, code)
      == (if keep && o.valueCoded == code then 1 else 0) + Matches(rest, code)
  {
    if keep {
      assert ([o] + rest)[1..] == rest;
    } else {
      assert [] + rest == rest;
    }
  }

  /** Rows already confined to a range are all kept by it. */
  lemma {:induction false} RowsInAll(rows: seq<Obs>, lo: int, hi: int)
    requires forall o :: o in rows ==> InRange(o, lo, hi)
    ensures RowsIn(rows, lo, hi) == rows
  {
    if |rows| > 0 {
      assert rows[0] in rows;
      assert forall o :: o in rows[1..] ==> o in rows;
      RowsInAll(rows[1..], lo, hi);
      assert rows == [rows[0]] + rows[1..];
    }
  }

  // ---------------------------------------------------------------------
  // Hashes keyed by diagnosis name
  // ---------------------------------------------------------------------

  /** The last diagnosis in `ds` named `n`: the one whose value a hash
      filled by walking `ds` keeps under `n`. */
  function LastNamed(ds: seq<Diagnosis>, n: string): (r: Option<Diagnosis>)
    ensures r.Some? <==> exists i :: 0 <= i < |ds| && ds[i].name == n
    ensures r.Some? ==> r.value in ds && r.value.name == n
    ensures r.Some? ==> exists i :: 0 <= i < |ds| && ds[i] == r.value && forall j :: i < j < |ds| ==> ds[j].name != n
  {
    if |ds| == 0 then None
    else if ds[|ds| - 1].name == n then Some(ds[|ds| - 1])
    else
      assert forall i :: 0 <= i < |ds| - 1 ==> ds[..|ds| - 1][i] == ds[i];
      LastNamed(ds[..|ds| - 1], n)
  }

  /** `ds.each { |d| hash[d.name] = f(d) }` on a fresh hash. */
  function Tabulate(ds: seq<Diagnosis>, f: Diagnosis -> int): (h: Hash)
    ensures NoDup(Keys(h))
    ensures forall n :: Get(h, n) == (if LastNamed(ds, n).Some? then Some(f(LastNamed(ds, n).value)) else None)
  {
    if |ds| == 0 then []
    else
      var prefix := Tabulate(ds[..|ds| - 1], f);
      var d := ds[|ds| - 1];
      PutKeepsNoDup(prefix, d.name, f(d));
      Put(prefix, d.name, f(d))
  }

  /** The keys of a tabulation are the diagnoses' names. */
  lemma TabulatedName(ds: seq<Diagnosis>, f: Diagnosis -> int, n: string)
    ensures n in Keys(Tabulate(ds, f)) <==> LastNamed(ds, n).Some?
  {
    var h := Tabulate(ds, f);
    assert Get(h, n).Some? <==> LastNamed(ds, n).Some?;
  }

  /** A reordering of a tabulation's keys names each diagnosis once. */
  lemma RankedNames(ds: seq<Diagnosis>, f: Diagnosis -> int, ranking: seq<string>)
    requires multiset(ranking) == multiset(Keys(Tabulate(ds, f)))
    ensures forall n :: n in ranking <==> LastNamed(ds, n).Some?
  {
    var ks := Keys(Tabulate(ds, f));
    forall n ensures n in ranking <==> LastNamed(ds, n).Some? {
      assert n in ranking <==> n in multiset(ranking);
      assert n in ks <==> n in multiset(ks);
      TabulatedName(ds, f, n);
    }
  }

  /** With one row per name, as the grouped diagnoses query returns them,
      the diagnosis a hash keeps under a name is the one with that name. */
  lemma {:induction false} LastNamedUnique(ds: seq<Diagnosis>, i: int)
    requires forall j, k :: 0 <= j < k < |ds| ==> ds[j].name != ds[k].name
    requires 0 <= i < |ds|
    ensures LastNamed(ds, ds[i].name) == Some(ds[i])
  {
    if i < |ds| - 1 {
      LastNamedUnique(ds[..|ds| - 1], i);
    }
  }

  // ---------------------------------------------------------------------
  // The weekly report
  // ---------------------------------------------------------------------

  /** One entry of `@data_hash`: a week's first day and the count of each
      diagnosis within the week. */
  datatype Week = Week(start: int, table: Hash)

  datatype Weekly = Weekly(times: seq<int>, weeks: seq<Week>, totals: Hash, ranking: seq<string>)

  /** `@diagnoses_hash` of one week: each diagnosis with the number of the
      week's rows that carry its code. */
  function WeekTable(ds: seq<Diagnosis>, patients: seq<Obs>): (h: Hash)
    ensures NoDup(Keys(h))
  {
    Tabulate(ds, (d: Diagnosis) => Matches(patients, d.valueCoded))
  }

  /** A week's table holds each diagnosis name once, with the number of the
      week's rows carrying the code of the last diagnosis so named. */
  lemma WeekTableAt(ds: seq<Diagnosis>, patients: seq<Obs>, n: string)
    ensures n in Keys(WeekTable(ds, patients)) <==> LastNamed(ds, n).Some?
    ensures LastNamed(ds, n).Some? ==>
      Get(WeekTable(ds, patients), n) == Some(Matches(patients, CodeOf(ds, n)))
  {
    TabulatedName(ds, (d: Diagnosis) => Matches(patients, d.valueCoded), n);
  }

  /** `@data_hash`: the table of every week, in the order of `times`. */
  function WeekData(times: seq<int>, ds: seq<Diagnosis>, rows: seq<Obs>, end: int): (weeks: seq<Week>)
    ensures |weeks| == |times|
    ensures forall i :: 0 <= i < |times| ==> weeks[i].start == times[i]
  {
    if |times| == 0 then []
    else
      var first := Week(times[0], WeekTable(ds, RowsIn(rows, times[0], WeekEnd(times[0], end))));
      [first] + WeekData(times[1..], ds, rows, end)
  }

  /** The entry of week `i` holds the table of the rows dated within it. */
  lemma {:induction false} WeekDataTable(times: seq<int>, ds: seq<Diagnosis>, rows: seq<Obs>, end: int, i: int)
    requires 0 <= i < |times|
    ensures WeekData(times, ds, rows, end)[i].table == WeekTable(ds, RowsIn(rows, times[i], WeekEnd(times[i], end)))
  {
    if i > 0 {
      WeekDataTable(times[1..], ds, rows, end, i - 1);
      assert times[1..][i - 1] == times[i];
    }
  }

  /** `@data_hash.each { |time, data| ... }` for one week `t`: what the
      entries for `t` hold under `name`. */
  function WeekSum(weeks: seq<Week>, t: int, name: string): int {
    if |weeks| == 0 then 0
    else (if weeks[0].start == t then SumKey(weeks[0].table, name) else 0) + WeekSum(weeks[1..], t, name)
  }

  /** The total the weekly report ranks a name by: its counts over all weeks. */
  function TotalOver(times: seq<int>, weeks: seq<Week>, name: string): int {
    if |times| == 0 then 0 else WeekSum(weeks, times[0], name) + TotalOver(times[1..], weeks, name)
  }

  /** `weekly_report` on a checked range `start..end` (day numbers), given
      the diagnoses and the rows of the patients query. */
  function WeeklyOver(start: int, end: int, ds: seq<Diagnosis>, rows: seq<Obs>): (w: Weekly)
    ensures w.times == WeekStarts(start, end)
    ensures multiset(w.ranking) == multiset(Keys(w.totals))
    ensures forall i, j :: 0 <= i < j < |w.ranking| ==> Score(w.totals, w.ranking[i]) >= Score(w.totals, w.ranking[j])
    ensures forall n :: n in w.ranking <==> LastNamed(ds, n).Some?
  {
    var times := WeekStarts(start, end);
    var weeks := WeekData(times, ds, rows, end);
    var totals := Tabulate(ds, (d: Diagnosis) => TotalOver(times, weeks, d.name));
    var ranking := RankByCount(totals);
    RankedNames(ds, (d: Diagnosis) => TotalOver(times, weeks, d.name), ranking);
    Weekly(times, weeks, totals, ranking)
  }

  /** `weekly_report`: the range check, then the report over the
      observations the patients query returns for the range. */
  function WeeklyReport(p: RangeParams, ds: seq<Diagnosis>, obs: seq<Obs>): (r: Result<Weekly, RangeError>)
    ensures r.Err? <==> CheckRange(p).Err?
    ensures r.Err? ==> r.error == CheckRange(p).error
  {
    match CheckRange(p)
    case Err(e) => Err(e)
    case Ok((s, e)) =>
      var lo := DayNumber(s);
      var hi := DayNumber(e);
      Ok(WeeklyOver(lo, hi, ds, Recorded(obs, lo, hi)))
  }

  /** The code a name is counted by: that of the last diagnosis so named. */
  function CodeOf(ds: seq<Diagnosis>, n: string): Option<int>
    requires LastNamed(ds, n).Some?
  {
    LastNamed(ds, n).value.valueCoded
  }

  /** Each week's table counts, for every diagnosis, the week's rows that
      carry its code. */
  lemma WeekCounts(start: int, end: int, ds: seq<Diagnosis>, rows: seq<Obs>, i: int, n: string)
    requires 0 <= i < |WeekStarts(start, end)|
    requires LastNamed(ds, n).Some?
    ensures var w := WeeklyOver(start, end, ds, rows);
      Score(w.weeks[i].table, n) == CountIn(rows, CodeOf(ds, n), w.times[i], WeekEnd(w.times[i], end))
  {
    var times := WeekStarts(start, end);
    var weeks := WeekData(times, ds, rows, end);
    var table := weeks[i].table;
    WeekDataTable(times, ds, rows, end, i);
    assert table == WeekTable(ds, RowsIn(rows, times[i], WeekEnd(times[i], end)));
    assert Get(table, n) == Some(Matches(RowsIn(rows, times[i], WeekEnd(times[i], end)), CodeOf(ds, n)));
  }

  /** Walking `@data_hash` for week `weeks[k].start` finds exactly that
      week's table when no other week starts on the same day. */
  lemma {:induction false} WeekSumAt(weeks: seq<Week>, k: int, n: string)
    requires 0 <= k < |weeks|
    requires forall j :: 0 <= j < |weeks| && j != k ==> weeks[j].start != weeks[k].start
    ensures WeekSum(weeks, weeks[k].start, n) == SumKey(weeks[k].table, n)
  {
    if k > 0 {
      WeekSumAt(weeks[1..], k - 1, n);
    } else {
      WeekSumAbsent(weeks[1..], weeks[0].start, n);
    }
  }

  lemma {:induction false} WeekSumAbsent(weeks: seq<Week>, t: int, n: string)
    requires forall j :: 0 <= j < |weeks| ==> weeks[j].start != t
    ensures WeekSum(weeks, t, n) == 0
  {
    if |weeks| > 0 {
      WeekSumAbsent(weeks[1..], t, n);
    }
  }

  /** What the walk over `@data_hash` adds up for week `k`. */
  lemma WeekSumCount(start: int, end: int, ds: seq<Diagnosis>, rows: seq<Obs>, k: int, n: string)
    requires 0 <= k < |WeekStarts(start, end)|
    requires LastNamed(ds, n).Some?
    ensures var times := WeekStarts(start, end);
      WeekSum(WeekData(times, ds, rows, end), times[k], n) == CountIn(rows, CodeOf(ds, n), times[k], WeekEnd(times[k], end))
  {
    var times := WeekStarts(start, end);
    var weeks := WeekData(times, ds, rows, end);
    forall j | 0 <= j < |weeks| && j != k ensures weeks[j].start != weeks[k].start {
      if j < k {
        WeekStartsIncreasing(start, end, j, k);
      } else {
        WeekStartsIncreasing(start, end, k, j);
      }
    }
    WeekSumAt(weeks, k, n);
    WeekDataTable(times, ds, rows, end, k);
    SumKeyIsScore(weeks[k].table, n);
    WeekCounts(start, end, ds, rows, k, n);
  }

  /** The week ends matching `times`: week `j` runs from `times[j]` to `ends[j]`. */
  function Ends(times: seq<int>, end: int): (ends: seq<int>)
    ensures |ends| == |times|
    ensures forall j :: 0 <= j < |times| ==> ends[j] == WeekEnd(times[j], end)
  {
    seq(|times|, j requires 0 <= j < |times| => WeekEnd(times[j], end))
  }

  lemma TotalStep(times: seq<int>, weeks: seq<Week>, n: string, k: int)
    requires 0 <= k < |times|
    ensures TotalOver(times[k..], weeks, n) == WeekSum(weeks, times[k], n) + TotalOver(times[k + 1..], weeks, n)
  {
    assert times[k..][1..] == times[k + 1..];
  }

  /** The weekly report ranks each diagnosis by the number of rows within
      the range that carry its code: the weeks neither miss nor repeat a day. */
  lemma WeeklyTotals(start: int, end: int, ds: seq<Diagnosis>, rows: seq<Obs>, n: string)
    requires start <= end
    requires LastNamed(ds, n).Some?
    ensures Score(WeeklyOver(start, end, ds, rows).totals, n) == CountIn(rows, CodeOf(ds, n), start, end)
  {
    var times := WeekStarts(start, end);
    var weeks := WeekData(times, ds, rows, end);
    var totals := Tabulate(ds, (d: Diagnosis) => TotalOver(times, weeks, d.name));
    assert Get(totals, n) == Some(TotalOver(times, weeks, n));
    WeeksAddUp(start, end, ds, rows, n);
  }

  /** The `j`-th week runs from `times[j]` to `ends[j]`, within the range. */
  lemma WeekBounds(start: int, end: int, times: seq<int>, ends: seq<int>, j: int)
    requires times == WeekStarts(start, end) && ends == Ends(times, end)
    requires 0 <= j < |times|
    ensures times[j] <= ends[j] + 1 && ends[j] <= end
  {
    assert times[j] <= end;
  }

  /** The walk over `@data_hash` for the `j`-th week counts its own days. */
  lemma WeekCountAt(start: int, end: int, ds: seq<Diagnosis>, rows: seq<Obs>, n: string,
                    times: seq<int>, weeks: seq<Week>, ends: seq<int>, c: Option<int>, j: int)
    requires LastNamed(ds, n).Some? && c == CodeOf(ds, n)
    requires times == WeekStarts(start, end) && weeks == WeekData(times, ds, rows, end) && ends == Ends(times, end)
    requires 0 <= j < |times|
    ensures WeekSum(weeks, times[j], n) == CountIn(rows, c, times[j], ends[j])
  {
    WeekSumCount(start, end, ds, rows, j, n);
  }

  /** Each week but the last is followed by one that starts the day after it ends. */
  lemma NextWeek(start: int, end: int, times: seq<int>, ends: seq<int>, k: int)
    requires times == WeekStarts(start, end) && ends == Ends(times, end)
    requires 0 <= k && k + 1 < |times|
    ensures times[k + 1] == ends[k] + 1
  {
    Tiling(start, end, k);
  }

  /** The last week ends on the end date. */
  lemma LastWeek(start: int, end: int, times: seq<int>, ends: seq<int>)
    requires times == WeekStarts(start, end) && ends == Ends(times, end)
    requires |times| > 0
    ensures ends[|times| - 1] == end
  {
    Tiling(start, end, |times| - 1);
  }

  /** What week `j` contributes: it lies within the range, the walk over
      `@data_hash` for it counts its own days, and either the next week
      starts the day after it ends, its end splitting the rest of the
      range, or it is the last week and ends on the end date. */
  ghost predicate WeekAdds(times: seq<int>, weeks: seq<Week>, ends: seq<int>, rows: seq<Obs>,
                           c: Option<int>, n: string, end: int, j: int) {
    && 0 <= j < |times| && j < |ends|
    && times[j] <= ends[j] + 1 && ends[j] <= end
    && WeekSum(weeks, times[j], n) == CountIn(rows, c, times[j], ends[j])
    && (j + 1 < |times| ==>
          && times[j + 1] == ends[j] + 1
          && CountIn(rows, c, times[j], end) == CountIn(rows, c, times[j], ends[j]) + CountIn(rows, c, ends[j] + 1, end))
    && (j + 1 == |times| ==> ends[j] == end)
  }

  lemma WeekAddsOf(times: seq<int>, weeks: seq<Week>, ends: seq<int>, rows: seq<Obs>,
                   c: Option<int>, n: string, end: int, j: int)
    requires 0 <= j < |times| && j < |ends|
    requires times[j] <= ends[j] + 1 && ends[j] <= end
    requires WeekSum(weeks, times[j], n) == CountIn(rows, c, times[j], ends[j])
    requires j + 1 < |times| ==> times[j + 1] == ends[j] + 1
    requires j + 1 == |times| ==> ends[j] == end
    ensures WeekAdds(times, weeks, ends, rows, c, n, end, j)
  {
    if j + 1 < |times| {
      CountSplit(rows, c, times[j], ends[j], end);
    }
  }

  lemma WeekAddsAt(start: int, end: int, ds: seq<Diagnosis>, rows: seq<Obs>, n: string,
                   times: seq<int>, weeks: seq<Week>, ends: seq<int>, c: Option<int>, j: int)
    requires LastNamed(ds, n).Some? && c == CodeOf(ds, n)
    requires times == WeekStarts(start, end) && weeks == WeekData(times, ds, rows, end) && ends == Ends(times, end)
    requires 0 <= j < |times|
    ensures WeekAdds(times, weeks, ends, rows, c, n, end, j)
  {
    WeekBounds(start, end, times, ends, j);
    WeekCountAt(start, end, ds, rows, n, times, weeks, ends, c, j);
    if j + 1 < |times| {
      NextWeek(start, end, times, ends, j);
    } else {
      LastWeek(start, end, times, ends);
    }
    WeekAddsOf(times, weeks, ends, rows, c, n, end, j);
  }

  /** Summing the walks over `@data_hash` from week `k` on counts the rows
      from that week's first day to the end date. */
  lemma {:induction false} AddUpFrom(times: seq<int>, weeks: seq<Week>, ends: seq<int>, rows: seq<Obs>,
                                     c: Option<int>, n: string, end: int, k: int)
    requires 0 <= k < |times|
    requires forall j :: k <= j < |times| ==> WeekAdds(times, weeks, ends, rows, c, n, end, j)
    ensures TotalOver(times[k..], weeks, n) == CountIn(rows, c, times[k], end)
    decreases |times| - k
  {
    assert WeekAdds(times, weeks, ends, rows, c, n, end, k);
    TotalStep(times, weeks, n, k);
    if k + 1 < |times| {
      AddUpFrom(times, weeks, ends, rows, c, n, end, k + 1);
    } else {
      assert times[k + 1..] == [];
    }
  }

  /** The counts of all weeks add up to the count over the range. */
  lemma WeeksAddUp(start: int, end: int, ds: seq<Diagnosis>, rows: seq<Obs>, n: string)
    requires start <= end
    requires LastNamed(ds, n).Some?
    ensures var times := WeekStarts(start, end);
      TotalOver(times, WeekData(times, ds, rows, end), n) == CountIn(rows, CodeOf(ds, n), start, end)
  {
    var times := WeekStarts(start, end);
    var weeks := WeekData(times, ds, rows, end);
    var ends := Ends(times, end);
    var c := CodeOf(ds, n);
    forall j | 0 <= j < |times| ensures WeekAdds(times, weeks, ends, rows, c, n, end, j) {
      WeekAddsAt(start, end, ds, rows, n, times, weeks, ends, c, j);
    }
    AddUpFrom(times, weeks, ends, rows, c, n, end, 0);
    assert times[0..] == times;
  }

  /** On a valid range, the weekly report ranks every diagnosis by the
      number of observations, not voided and dated within the range, that
      carry its code; diagnoses not recorded are not ranked. */
  lemma WeeklyReportCounts(p: RangeParams, ds: seq<Diagnosis>, obs: seq<Obs>, n: string)
    requires WeeklyReport(p, ds, obs).Ok?
    ensures var w := WeeklyReport(p, ds, obs).value;
      var (s, e) := CheckRange(p).value;
      && (n in w.ranking <==> LastNamed(ds, n).Some?)
      && (LastNamed(ds, n).Some? ==>
            Score(w.totals, n) == Matches(Recorded(obs, DayNumber(s), DayNumber(e)), CodeOf(ds, n)))
  {
    var (s, e) := CheckRange(p).value;
    var lo := DayNumber(s);
    var hi := DayNumber(e);
    var rows := Recorded(obs, lo, hi);
    if LastNamed(ds, n).Some? {
      WeeklyTotals(lo, hi, ds, rows, n);
      RowsInAll(rows, lo, hi);
    }
  }

  // ---------------------------------------------------------------------
  // The disaggregated report
  // ---------------------------------------------------------------------

  /** `sort_hash` before sorting, and `@diagnoses` after the reordering. */
  datatype Disaggregated = Disaggregated(counts: Hash, order: seq<Diagnosis>)

  /** The diagnoses named `n`, in their order. */
  function Named(ds: seq<Diagnosis>, n: string): (r: seq<Diagnosis>)
    ensures forall d :: d in r <==> d in ds && d.name == n
  {
    if |ds| == 0 then []
    else (if ds[0].name == n then [ds[0]] else []) + Named(ds[1..], n)
  }

  /** `diagnosis_names.each { |d| diagnoses.each { |diag| ... if d == diag.name } }`. */
  function Grouped(names: seq<string>, ds: seq<Diagnosis>): (r: seq<Diagnosis>)
    ensures forall d :: d in r ==> d in ds && d.name in names
  {
    if |names| == 0 then []
    else Named(ds, names[0]) + Grouped(names[1..], ds)
  }

  /** `disaggregated_diagnosis` on the rows of a checked range. */
  function DisaggregatedOver(ds: seq<Diagnosis>, rows: seq<Obs>): (r: Disaggregated)
    ensures NoDup(Keys(r.counts))
  {
    var counts := Tabulate(ds, (d: Diagnosis) => Matches(rows, d.valueCoded));
    Disaggregated(counts, Grouped(RankByCount(counts), ds))
  }

  /** `disaggregated_diagnosis`: the range check, then the reordering over
      the observations the patients query returns for the range. */
  function DisaggregatedReport(p: RangeParams, ds: seq<Diagnosis>, obs: seq<Obs>): (r: Result<Disaggregated, RangeError>)
    ensures r.Err? <==> CheckRange(p).Err?
    ensures r.Err? ==> r.error == CheckRange(p).error
  {
    match CheckRange(p)
    case Err(e) => Err(e)
    case Ok((s, e)) => Ok(DisaggregatedOver(ds, Recorded(obs, DayNumber(s), DayNumber(e))))
  }

  /** The diagnoses whose names are among `names`, in their order. */
  function Within(ds: seq<Diagnosis>, names: seq<string>): (r: seq<Diagnosis>)
    ensures forall d :: d in r <==> d in ds && d.name in names
  {
    if |ds| == 0 then []
    else (if ds[0].name in names then [ds[0]] else []) + Within(ds[1..], names)
  }

  lemma {:induction false} WithinSplit(ds: seq<Diagnosis>, n: string, rest: seq<string>)
    requires n !in rest
    ensures multiset(Within(ds, [n] + rest)) == multiset(Named(ds, n)) + multiset(Within(ds, rest))
  {
    if |ds| > 0 {
      WithinSplit(ds[1..], n, rest);
    }
  }

  lemma {:induction false} WithinNone(ds: seq<Diagnosis>, names: seq<string>)
    requires names == []
    ensures Within(ds, names) == []
  {
    if |ds| > 0 {
      WithinNone(ds[1..], names);
    }
  }

  lemma {:induction false} WithinAll(ds: seq<Diagnosis>, names: seq<string>)
    requires forall d :: d in ds ==> d.name in names
    ensures Within(ds, names) == ds
  {
    if |ds| > 0 {
      assert ds[0] in ds;
      assert forall d :: d in ds[1..] ==> d in ds;
      WithinAll(ds[1..], names);
      assert ds == [ds[0]] + ds[1..];
    }
  }

  lemma {:induction false} GroupedMultiset(names: seq<string>, ds: seq<Diagnosis>)
    requires NoDup(names)
    ensures multiset(Grouped(names, ds)) == multiset(Within(ds, names))
  {
    if |names| > 0 {
      var n := names[0];
      var rest := names[1..];
      assert names == [n] + rest;
      assert multiset(names) == multiset{n} + multiset(rest);
      assert n !in rest by {
        assert multiset(names)[n] <= 1;
      }
      assert NoDup(rest) by {
        forall k ensures multiset(rest)[k] <= 1 {
          assert multiset(names)[k] <= 1;
        }
      }
      GroupedMultiset(rest, ds);
      WithinSplit(ds, n, rest);
      assert Grouped(names, ds) == Named(ds, n) + Grouped(rest, ds);
      assert multiset(Named(ds, n) + Grouped(rest, ds)) == multiset(Named(ds, n)) + multiset(Grouped(rest, ds));
    } else {
      WithinNone(ds, names);
    }
  }

  /** The counts of the diagnoses' names never increase along `r`. */
  predicate ByCount(h: Hash, r: seq<Diagnosis>) {
    forall i, j :: 0 <= i < j < |r| ==> Score(h, r[i].name) >= Score(h, r[j].name)
  }

  lemma ConcatByCount(h: Hash, n: string, a: seq<Diagnosis>, b: seq<Diagnosis>)
    requires forall x :: x in a ==> x.name == n
    requires forall x :: x in b ==> Score(h, x.name) <= Score(h, n)
    requires ByCount(h, b)
    ensures ByCount(h, a + b)
  {
    var r := a + b;
    forall i, j | 0 <= i < j < |r| ensures Score(h, r[i].name) >= Score(h, r[j].name) {
      if j < |a| {
        assert a[i] in a && a[j] in a;
      } else if i < |a| {
        assert a[i] in a && b[j - |a|] in b;
      } else {
        assert r[i] == b[i - |a|] && r[j] == b[j - |a|];
      }
    }
  }

  /** Grouping by names in non-increasing order of their counts keeps the
      diagnoses in non-increasing order of their names' counts. */
  lemma {:induction false} GroupedSorted(names: seq<string>, ds: seq<Diagnosis>, h: Hash)
    requires forall i, j :: 0 <= i < j < |names| ==> Score(h, names[i]) >= Score(h, names[j])
    ensures ByCount(h, Grouped(names, ds))
  {
    if |names| > 0 {
      var n := names[0];
      var rest := names[1..];
      GroupedSorted(rest, ds, h);
      var b := Grouped(rest, ds);
      forall x | x in b ensures Score(h, x.name) <= Score(h, n) {
        var k :| 0 <= k < |rest| && rest[k] == x.name;
        assert names[k + 1] == x.name;
      }
      ConcatByCount(h, n, Named(ds, n), b);
    }
  }

  /** The disaggregated report lists every diagnosis once, reordered so
      that the counts of their names never increase, each name counting
      the rows that carry its code. */
  lemma DisaggregatedOrder(ds: seq<Diagnosis>, rows: seq<Obs>)
    ensures var r := DisaggregatedOver(ds, rows);
      && multiset(r.order) == multiset(ds)
      && ByCount(r.counts, r.order)
  {
    var f := (d: Diagnosis) => Matches(rows, d.valueCoded);
    var counts := Tabulate(ds, f);
    var names := RankByCount(counts);
    RankedNames(ds, f, names);
    GroupedMultiset(names, ds);
    forall d | d in ds ensures d.name in names {
      assert LastNamed(ds, d.name).Some?;
    }
    WithinAll(ds, names);
    GroupedSorted(names, ds, counts);
  }

  /** The count the disaggregated report ranks a name by is the number of
      rows carrying the name's code. */
  lemma DisaggregatedCounts(ds: seq<Diagnosis>, rows: seq<Obs>, n: string)
    ensures var r := DisaggregatedOver(ds, rows);
      Get(r.counts, n) == if LastNamed(ds, n).Some? then Some(Matches(rows, CodeOf(ds, n))) else None
  {
  }

  /** On a valid range, the disaggregated report lists every diagnosis
      once, most frequent names first, each name counting the observations,
      not voided and dated within the range, that carry its code. */
  lemma DisaggregatedReportOrder(p: RangeParams, ds: seq<Diagnosis>, obs: seq<Obs>, n: string)
    requires DisaggregatedReport(p, ds, obs).Ok?
    ensures var r := DisaggregatedReport(p, ds, obs).value;
      var (s, e) := CheckRange(p).value;
      && multiset(r.order) == multiset(ds)
      && ByCount(r.counts, r.order)
      && (LastNamed(ds, n).Some? ==>
            Score(r.counts, n) == Matches(Recorded(obs, DayNumber(s), DayNumber(e)), CodeOf(ds, n)))
  {
    var (s, e) := CheckRange(p).value;
    var rows := Recorded(obs, DayNumber(s), DayNumber(e));
    DisaggregatedOrder(ds, rows);
    DisaggregatedCounts(ds, rows, n);
  }
}
