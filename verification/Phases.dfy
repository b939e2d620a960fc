/** The two parsers of one raw response log: the experiment's own, which keeps only successful
    latencies, and the post-processor, which gives every error the deadline as latency. */
module Phases {
  import opened Options
  import opened Orders
  import opened Percentiles
  import opened Tallies
  import Reuse

  /** The three fields used of a raw line; None where the field is missing or not a number. */
  datatype RawRow = RawRow(responseTime: Option<real>, code: Option<real>, offset: Option<real>)

  datatype Status = Unknown | Code(code: int)

  /** The bookkeeping per time bin; a dictionary of counts is a multiset. */
  datatype Bin = Bin(lats: seq<real>, total: nat, ok: nat, err: nat, dist: multiset<Status>)

  datatype Report = Report(
    p50: Option<real>, p90: Option<real>, p99: Option<real>, p999: Option<real>, avg: Option<real>,
    total: nat, ok: nat, err: nat, dist: multiset<Status>)

  const EMPTY_BIN := Bin([], 0, 0, 0, multiset{})

  // ---- Reading one row -----------------------------------------------------------------------

  predicate Kept(row: RawRow) { row.responseTime.Some? }

  function StatusCode(row: RawRow): int {
    if row.code.None? then 0 else Reuse.Truncate(row.code.value)
  }

  function StatusOf(row: RawRow): Status {
    if StatusCode(row) == 0 then Unknown else Code(StatusCode(row))
  }

  predicate IsOk(row: RawRow) { 200 <= StatusCode(row) < 300 }

  /** Latency in microseconds; asked for kept rows only. */
  function LatencyUs(row: RawRow): real {
    if Kept(row) then row.responseTime.value * 1000000.0 else 0.0
  }

  function BinIndex(row: RawRow, binSeconds: nat): nat
    requires binSeconds > 0
  {
    var offset := if row.offset.None? then 0.0 else row.offset.value;
    var idx := (offset / binSeconds as real).Floor;
    if idx < 0 then 0 else idx
  }

  /** A success is a status from 200 up to, but not including, 300. */
  lemma SuccessMeans(row: RawRow)
    ensures IsOk(row) <==> row.code.Some? && 200.0 <= row.code.value < 300.0
  {}

  /** A status k other than 0 is counted under k for values truncated to it, everything else under
      "unknown". */
  lemma StatusMeans(row: RawRow, k: int)
    ensures StatusOf(row) == Unknown <==> row.code.None? || -1.0 < row.code.value < 1.0
    ensures k > 0 ==> (StatusOf(row) == Code(k)
              <==> row.code.Some? && k as real <= row.code.value < k as real + 1.0)
    ensures k < 0 ==> (StatusOf(row) == Code(k)
              <==> row.code.Some? && k as real - 1.0 < row.code.value <= k as real)
  {}

  /** A latency in microseconds is below a bound in seconds exactly when the response time is. */
  lemma LatencyMeans(row: RawRow, seconds: real)
    requires Kept(row)
    ensures LatencyUs(row) < seconds * 1000000.0 <==> row.responseTime.value < seconds
  {}

  /** A row is in bin k > 0 exactly for offsets from k bin lengths up to k + 1; bin 0 takes all
      before, negative and missing ones included. */
  lemma BinMeans(row: RawRow, binSeconds: nat, k: nat)
    requires binSeconds > 0
    ensures BinIndex(row, binSeconds) == 0 <==> row.offset.None? || row.offset.value < binSeconds as real
    ensures k > 0 ==> (BinIndex(row, binSeconds) == k
              <==> row.offset.Some? && k as real * binSeconds as real <= row.offset.value
                   && row.offset.value < (k + 1) as real * binSeconds as real)
  {
    var offset := if row.offset.None? then 0.0 else row.offset.value;
    var b := binSeconds as real;
    QuotientBounds(offset, b, 1.0);
    QuotientBounds(offset, b, k as real);
    QuotientBounds(offset, b, (k + 1) as real);
  }

  lemma QuotientBounds(x: real, b: real, k: real)
    requires b > 0.0
    ensures x / b < k <==> x < k * b
  {
    Reuse.QuotientTimes(x, b);
    if x / b < k {
      Reuse.StrictProductOrder(x / b, k, b);
    } else {
      Reuse.ProductOrder(k, x / b, b);
    }
  }

  // ---- What a set of rows amounts to -----------------------------------------------------------

  function Select(rows: seq<RawRow>, p: RawRow -> bool): (r: seq<RawRow>)
    ensures forall x | x in r :: x in rows && p(x)
  {
    if rows == [] then []
    else
      var front := Select(rows[..|rows| - 1], p);
      if p(rows[|rows| - 1]) then front + [rows[|rows| - 1]] else front
  }

  function KeptRow(): RawRow -> bool { row => Kept(row) }

  function InBin(binSeconds: nat, idx: int): RawRow -> bool
    requires binSeconds > 0
  {
    row => Kept(row) && BinIndex(row, binSeconds) == idx
  }

  function PastBins(binSeconds: nat, n: int): RawRow -> bool
    requires binSeconds > 0
  {
    row => Kept(row) && BinIndex(row, binSeconds) >= n
  }

  function OkRow(): RawRow -> bool { row => IsOk(row) }

  function ErrorRow(): RawRow -> bool { row => !IsOk(row) }

  function Latencies(rows: seq<RawRow>): (r: seq<real>)
    ensures |r| == |rows| && forall i | 0 <= i < |r| :: r[i] == LatencyUs(rows[i])
  {
    seq(|rows|, i requires 0 <= i < |rows| => LatencyUs(rows[i]))
  }

  function DeadlineLatency(row: RawRow, deadline: real): real {
    if IsOk(row) then LatencyUs(row) else deadline
  }

  function DeadlineLatencies(rows: seq<RawRow>, deadline: real): (r: seq<real>)
    ensures |r| == |rows| && forall i | 0 <= i < |r| :: r[i] == DeadlineLatency(rows[i], deadline)
  {
    seq(|rows|, i requires 0 <= i < |rows| => DeadlineLatency(rows[i], deadline))
  }

  function Statuses(rows: seq<RawRow>): (r: seq<Status>)
    ensures |r| == |rows| && forall i | 0 <= i < |r| :: r[i] == StatusOf(rows[i])
  {
    seq(|rows|, i requires 0 <= i < |rows| => StatusOf(rows[i]))
  }

  /** The bin that some kept rows deserve, with the given latencies. */
  function BinOf(rows: seq<RawRow>, lats: seq<real>): Bin {
    Bin(lats, |rows|, |Select(rows, OkRow())|, |Select(rows, ErrorRow())|, multiset(Statuses(rows)))
  }

  function SuccessBin(rows: seq<RawRow>): Bin {
    BinOf(rows, Latencies(Select(rows, OkRow())))
  }

  function DeadlineBin(rows: seq<RawRow>, deadline: real): Bin {
    BinOf(rows, DeadlineLatencies(rows, deadline))
  }

  // ---- Reports -------------------------------------------------------------------------------

  function Sum(s: seq<real>): real {
    if s == [] then 0.0 else s[0] + Sum(s[1..])
  }

  function Average(lats: seq<real>): Option<real> {
    if lats == [] then None else Some(Sum(lats) / |lats| as real)
  }

  function ReportOf(bin: Bin): Report {
    var lats := Sort(bin.lats, RealLeq);
    Report(
      Percentile(lats, 50.0), Percentile(lats, 90.0), Percentile(lats, 99.0), Percentile(lats, 99.9),
      Average(lats),
      bin.total, bin.ok, bin.err, bin.dist)
  }

  function BinCount(duration: int, binSeconds: nat): (n: int)
    requires binSeconds > 0
  {
    Ceiling(duration as real / binSeconds as real)
  }

  /** There are just enough bins to cover the duration. */
  lemma BinCountMeans(duration: int, binSeconds: nat)
    requires binSeconds > 0
    ensures var n := BinCount(duration, binSeconds);
      if duration <= 0 then n <= 0 else (n - 1) * binSeconds < duration <= n * binSeconds
  {
    var n, x := BinCount(duration, binSeconds), duration as real / binSeconds as real;
    CeilingAbove(x, n - 1);
    CeilingAbove(x, n);
    CeilingAbove(x, 0);
    QuotientAbove(duration, binSeconds, n - 1);
    QuotientAbove(duration, binSeconds, n);
    QuotientAbove(duration, binSeconds, 0);
  }

  lemma QuotientAbove(x: int, b: nat, m: int)
    requires b > 0
    ensures m as real < x as real / b as real <==> m * b < x
  {
    QuotientBounds(x as real, b as real, m as real);
    Reuse.ProductAsReal(m, b);
    assert x as real / b as real == m as real ==> x as real == m as real * b as real by {
      Reuse.QuotientTimes(x as real, b as real);
    }
  }

  /** All four percentiles are missing, or none is and they increase with their rank. */
  ghost predicate Ordered(r: Report) {
    || (r.p50 == r.p90 == r.p99 == r.p999 == None)
    || (r.p50.Some? && r.p90.Some? && r.p99.Some? && r.p999.Some?
        && r.p50.value <= r.p90.value <= r.p99.value <= r.p999.value)
  }

  lemma ReportFields(bin: Bin)
    ensures var r := ReportOf(bin);
      && r.p50 == PercentileOf(bin.lats, 50.0) && r.p90 == PercentileOf(bin.lats, 90.0)
      && r.p99 == PercentileOf(bin.lats, 99.0) && r.p999 == PercentileOf(bin.lats, 99.9)
      && r.total == bin.total && r.ok == bin.ok && r.err == bin.err && r.dist == bin.dist
  {}

  /** Each reported percentile is the least latency that so many percent of the bin's latencies do
      not exceed. */
  lemma ReportMeans(bin: Bin, t: real)
    requires bin.lats != []
    ensures var r, n, c := ReportOf(bin), |bin.lats| as real, CountAtMost(bin.lats, t, RealLeq) as real;
      && r.p50.Some? && r.p90.Some? && r.p99.Some? && r.p999.Some?
      && (r.p50.value <= t <==> c * 100.0 >= 50.0 * n)
      && (r.p90.value <= t <==> c * 100.0 >= 90.0 * n)
      && (r.p99.value <= t <==> c * 100.0 >= 99.0 * n)
      && (r.p999.value <= t <==> c * 100.0 >= 99.9 * n)
  {
    hide ReportOf, PercentileOf, CountAtMost;
    ReportFields(bin);
    NearestRank(bin.lats, 50.0, t);
    NearestRank(bin.lats, 90.0, t);
    NearestRank(bin.lats, 99.0, t);
    NearestRank(bin.lats, 99.9, t);
  }

  lemma AverageExists(bin: Bin)
    ensures ReportOf(bin).avg.None? <==> bin.lats == []
  {}

  /** The percentiles are ordered; they and the average are missing exactly for a bin without
      latencies. */
  lemma ReportOrdered(bin: Bin)
    ensures Ordered(ReportOf(bin))
    ensures ReportOf(bin).p50.None? <==> bin.lats == []
    ensures ReportOf(bin).avg.None? <==> bin.lats == []
  {
    AverageExists(bin);
    hide ReportOf, PercentileOf, CountAtMost;
    ReportFields(bin);
    if bin.lats == [] {
      NearestRank([0.0], 50.0, 0.0);
      NearestRank([0.0], 90.0, 0.0);
      NearestRank([0.0], 99.0, 0.0);
      NearestRank([0.0], 99.9, 0.0);
    } else {
      ReportMeans(bin, 0.0);
      ReportMeans(bin, ReportOf(bin).p90.value);
      ReportMeans(bin, ReportOf(bin).p99.value);
      ReportMeans(bin, ReportOf(bin).p999.value);
    }
  }

  function Lookup(bins: map<int, Bin>, idx: int): Bin {
    if idx in bins then bins[idx] else EMPTY_BIN
  }

  // ---- One row more --------------------------------------------------------------------------

  function WithRow(bin: Bin, row: RawRow, lats: seq<real>): Bin {
    Bin(lats, bin.total + 1,
      if IsOk(row) then bin.ok + 1 else bin.ok, if IsOk(row) then bin.err else bin.err + 1,
      bin.dist + multiset{StatusOf(row)})
  }

  function WithSuccess(bin: Bin, row: RawRow): Bin {
    WithRow(bin, row, if IsOk(row) then bin.lats + [LatencyUs(row)] else bin.lats)
  }

  function WithDeadline(bin: Bin, row: RawRow, deadline: real): Bin {
    WithRow(bin, row, bin.lats + [DeadlineLatency(row, deadline)])
  }

  lemma SelectStep(rows: seq<RawRow>, row: RawRow, p: RawRow -> bool)
    ensures Select(rows + [row], p) == if p(row) then Select(rows, p) + [row] else Select(rows, p)
  {
    assert (rows + [row])[..|rows|] == rows;
  }

  lemma BinStep(rows: seq<RawRow>, row: RawRow, before: seq<real>, after: seq<real>)
    ensures BinOf(rows + [row], after) == WithRow(BinOf(rows, before), row, after)
  {
    hide Select;
    SelectStep(rows, row, OkRow());
    SelectStep(rows, row, ErrorRow());
    assert Statuses(rows + [row]) == Statuses(rows) + [StatusOf(row)];
  }

  lemma LatenciesStep(rows: seq<RawRow>, row: RawRow)
    ensures Latencies(rows + [row]) == Latencies(rows) + [LatencyUs(row)]
  {}

  lemma SuccessStep(rows: seq<RawRow>, row: RawRow)
    ensures SuccessBin(rows + [row]) == WithSuccess(SuccessBin(rows), row)
  {
    hide BinOf, Latencies;
    SelectStep(rows, row, OkRow());
    LatenciesStep(Select(rows, OkRow()), row);
    BinStep(rows, row, Latencies(Select(rows, OkRow())), Latencies(Select(rows + [row], OkRow())));
    BinLatencies(rows, Latencies(Select(rows, OkRow())));
  }

  lemma BinLatencies(rows: seq<RawRow>, lats: seq<real>)
    ensures BinOf(rows, lats).lats == lats
  {}

  lemma DeadlineStep(rows: seq<RawRow>, row: RawRow, deadline: real)
    ensures DeadlineBin(rows + [row], deadline) == WithDeadline(DeadlineBin(rows, deadline), row, deadline)
  {
    BinStep(rows, row, DeadlineBin(rows, deadline).lats, DeadlineBin(rows + [row], deadline).lats);
    assert DeadlineLatencies(rows + [row], deadline)
        == DeadlineLatencies(rows, deadline) + [DeadlineLatency(row, deadline)];
  }

  lemma SuccessSelectStep(rows: seq<RawRow>, i: nat, p: RawRow -> bool)
    requires i < |rows|
    ensures SuccessBin(Select(rows[..i + 1], p))
         == var b := SuccessBin(Select(rows[..i], p)); if p(rows[i]) then WithSuccess(b, rows[i]) else b
  {
    assert rows[..i + 1] == rows[..i] + [rows[i]];
    SelectStep(rows[..i], rows[i], p);
    SuccessStep(Select(rows[..i], p), rows[i]);
  }

  lemma DeadlineSelectStep(rows: seq<RawRow>, i: nat, p: RawRow -> bool, deadline: real)
    requires i < |rows|
    ensures DeadlineBin(Select(rows[..i + 1], p), deadline)
         == var b := DeadlineBin(Select(rows[..i], p), deadline);
            if p(rows[i]) then WithDeadline(b, rows[i], deadline) else b
  {
    assert rows[..i + 1] == rows[..i] + [rows[i]];
    SelectStep(rows[..i], rows[i], p);
    DeadlineStep(Select(rows[..i], p), rows[i], deadline);
  }

  // ---- The two parsers -----------------------------------------------------------------------

  /** The part of either loop body that counts a kept row, in a bin or in the phase totals. */
  method Tallied(bin: Bin, code: int) returns (counted: Bin, key: Status)
    ensures counted == bin.(total := bin.total + 1, dist := bin.dist + multiset{key})
    ensures key == if code == 0 then Unknown else Code(code)
  {
    key := if code != 0 then Code(code) else Unknown;
    counted := bin.(total := bin.total + 1, dist := bin.dist + multiset{key});
  }

  /** experiment1's treatment of a kept row. */
  method CountSuccess(bin: Bin, row: RawRow) returns (counted: Bin)
    requires Kept(row)
    ensures counted == WithSuccess(bin, row)
  {
    var code := if row.code.None? then 0 else Reuse.Truncate(row.code.value);
    var key;
    counted, key := Tallied(bin, code);
    if 200 <= code < 300 {
      var latUs := row.responseTime.value * 1000000.0;
      counted := counted.(ok := counted.ok + 1, lats := counted.lats + [latUs]);
    } else {
      counted := counted.(err := counted.err + 1);
    }
  }

  /** The post-processor's treatment of a kept row. */
  method CountWithDeadline(bin: Bin, row: RawRow, deadline: real) returns (counted: Bin)
    requires Kept(row)
    ensures counted == WithDeadline(bin, row, deadline)
  {
    var code := if row.code.None? then 0 else Reuse.Truncate(row.code.value);
    var key, latUs;
    counted, key := Tallied(bin, code);
    if 200 <= code < 300 {
      counted := counted.(ok := counted.ok + 1);
      latUs := row.responseTime.value * 1000000.0;
    } else {
      counted := counted.(err := counted.err + 1);
      latUs := deadline;
    }
    counted := counted.(lats := counted.lats + [latUs]);
  }

  method BinReports(bins: map<int, Bin>, duration: int, binSeconds: nat) returns (reports: seq<Report>)
    requires binSeconds > 0
    ensures if duration <= 0 then reports == []
      else (|reports| - 1) * binSeconds < duration <= |reports| * binSeconds
    ensures forall idx | 0 <= idx < |reports| :: reports[idx] == ReportOf(Lookup(bins, idx))
  {
    hide BinCount, ReportOf;
    BinCountMeans(duration, binSeconds);
    reports := [];
    var nBins := BinCount(duration, binSeconds);
    var idx := 0;
    while idx < nBins
      invariant 0 <= idx && |reports| == idx && (idx <= nBins || idx == 0)
      invariant forall k | 0 <= k < idx :: reports[k] == ReportOf(Lookup(bins, k))
    {
      reports := reports + [ReportOf(Lookup(bins, idx))];
      idx := idx + 1;
    }
  }

  /** After n rows every bin of the dictionary is what its rows deserve. */
  ghost predicate SuccessBins(bins: map<int, Bin>, rows: seq<RawRow>, n: nat, binSeconds: nat)
    requires n <= |rows| && binSeconds > 0
  {
    forall idx :: Lookup(bins, idx) == SuccessBin(Select(rows[..n], InBin(binSeconds, idx)))
  }

  ghost predicate DeadlineBins(bins: map<int, Bin>, rows: seq<RawRow>, n: nat, binSeconds: nat, deadline: real)
    requires n <= |rows| && binSeconds > 0
  {
    forall idx :: Lookup(bins, idx) == DeadlineBin(Select(rows[..n], InBin(binSeconds, idx)), deadline)
  }

  lemma SuccessBinsStep(bins: map<int, Bin>, rows: seq<RawRow>, n: nat, binSeconds: nat)
    requires n < |rows| && binSeconds > 0 && SuccessBins(bins, rows, n, binSeconds)
    ensures var row := rows[n]; var at := BinIndex(row, binSeconds);
      SuccessBins(if Kept(row) then bins[at := WithSuccess(Lookup(bins, at), row)] else bins, rows, n + 1, binSeconds)
  {
    hide SuccessBin, Select, WithSuccess, BinIndex;
    var row := rows[n];
    var at := BinIndex(row, binSeconds);
    var t := if Kept(row) then bins[at := WithSuccess(Lookup(bins, at), row)] else bins;
    forall idx ensures Lookup(t, idx) == SuccessBin(Select(rows[..n + 1], InBin(binSeconds, idx))) {
      SuccessSelectStep(rows, n, InBin(binSeconds, idx));
      assert Lookup(bins, idx) == SuccessBin(Select(rows[..n], InBin(binSeconds, idx)));
    }
  }

  lemma DeadlineBinsStep(bins: map<int, Bin>, rows: seq<RawRow>, n: nat, binSeconds: nat, deadline: real)
    requires n < |rows| && binSeconds > 0 && DeadlineBins(bins, rows, n, binSeconds, deadline)
    ensures var row := rows[n]; var at := BinIndex(row, binSeconds);
      DeadlineBins(if Kept(row) then bins[at := WithDeadline(Lookup(bins, at), row, deadline)] else bins,
        rows, n + 1, binSeconds, deadline)
  {
    hide DeadlineBin, Select, WithDeadline, BinIndex;
    var row := rows[n];
    var at := BinIndex(row, binSeconds);
    var t := if Kept(row) then bins[at := WithDeadline(Lookup(bins, at), row, deadline)] else bins;
    forall idx ensures Lookup(t, idx) == DeadlineBin(Select(rows[..n + 1], InBin(binSeconds, idx)), deadline) {
      DeadlineSelectStep(rows, n, InBin(binSeconds, idx), deadline);
      assert Lookup(bins, idx) == DeadlineBin(Select(rows[..n], InBin(binSeconds, idx)), deadline);
    }
  }

  /** The row loop of the experiment's parser. */
  method CollectSuccesses(rows: seq<RawRow>, binSeconds: nat) returns (bins: map<int, Bin>, all: Bin)
    requires binSeconds > 0
    ensures forall idx :: Lookup(bins, idx) == SuccessBin(Select(rows, InBin(binSeconds, idx)))
    ensures all == SuccessBin(Select(rows, KeptRow()))
  {
    bins := map[];
    all := EMPTY_BIN;
    assert rows[..0] == [];
    for i := 0 to |rows|
      invariant SuccessBins(bins, rows, i, binSeconds)
      invariant all == SuccessBin(Select(rows[..i], KeptRow()))
    {
      hide SuccessBin, SuccessBins, Select, WithSuccess, BinIndex;
      var row := rows[i];
      SuccessSelectStep(rows, i, KeptRow());
      SuccessBinsStep(bins, rows, i, binSeconds);
      if row.responseTime.Some? {
        var at := BinIndex(row, binSeconds);
        var b := CountSuccess(Lookup(bins, at), row);
        bins := bins[at := b];
        all := CountSuccess(all, row);
      }
    }
    assert rows[..|rows|] == rows;
  }

  /** The row loop of the post-processor. */
  method CollectWithDeadline(rows: seq<RawRow>, binSeconds: nat, deadline: real)
    returns (bins: map<int, Bin>, all: Bin)
    requires binSeconds > 0
    ensures forall idx :: Lookup(bins, idx) == DeadlineBin(Select(rows, InBin(binSeconds, idx)), deadline)
    ensures all == DeadlineBin(Select(rows, KeptRow()), deadline)
  {
    bins := map[];
    all := EMPTY_BIN;
    assert rows[..0] == [];
    for i := 0 to |rows|
      invariant DeadlineBins(bins, rows, i, binSeconds, deadline)
      invariant all == DeadlineBin(Select(rows[..i], KeptRow()), deadline)
    {
      hide DeadlineBin, DeadlineBins, Select, WithDeadline, BinIndex;
      var row := rows[i];
      DeadlineSelectStep(rows, i, KeptRow(), deadline);
      DeadlineBinsStep(bins, rows, i, binSeconds, deadline);
      if row.responseTime.Some? {
        var at := BinIndex(row, binSeconds);
        var b := CountWithDeadline(Lookup(bins, at), row, deadline);
        bins := bins[at := b];
        all := CountWithDeadline(all, row, deadline);
      }
    }
    assert rows[..|rows|] == rows;
  }

  method ParsePhase2xxLatency(rows: seq<RawRow>, binSeconds: nat, duration: int)
    returns (reports: seq<Report>, summary: Report)
    requires binSeconds > 0
    ensures if duration <= 0 then reports == []
      else (|reports| - 1) * binSeconds < duration <= |reports| * binSeconds
    ensures forall idx | 0 <= idx < |reports| ::
      reports[idx] == ReportOf(SuccessBin(Select(rows, InBin(binSeconds, idx)))) && Ordered(reports[idx])
    ensures summary == ReportOf(SuccessBin(Select(rows, KeptRow()))) && Ordered(summary)
  {
    hide SuccessBin, ReportOf, Select, BinIndex, Lookup;
    var bins, all := CollectSuccesses(rows, binSeconds);
    reports := BinReports(bins, duration, binSeconds);
    summary := ReportOf(all);
    ReportOrdered(all);
    forall idx | 0 <= idx < |reports| ensures Ordered(reports[idx]) {
      ReportOrdered(Lookup(bins, idx));
    }
  }

  method BuildDeadlinePhase(rows: seq<RawRow>, binSeconds: nat, duration: int, deadline: real)
    returns (reports: seq<Report>, summary: Report)
    requires binSeconds > 0
    ensures if duration <= 0 then reports == []
      else (|reports| - 1) * binSeconds < duration <= |reports| * binSeconds
    ensures forall idx | 0 <= idx < |reports| ::
      && reports[idx] == ReportOf(DeadlineBin(Select(rows, InBin(binSeconds, idx)), deadline))
      && Ordered(reports[idx])
      && (Timely(rows, deadline) && reports[idx].total > 0 ==> HitByErrors(reports[idx], deadline))
    ensures summary == ReportOf(DeadlineBin(Select(rows, KeptRow()), deadline)) && Ordered(summary)
    ensures Timely(rows, deadline) && summary.total > 0 ==> HitByErrors(summary, deadline)
  {
    hide DeadlineBin, ReportOf, Select, BinIndex, Lookup, Timely;
    var bins, all := CollectWithDeadline(rows, binSeconds, deadline);
    reports := BinReports(bins, duration, binSeconds);
    summary := ReportOf(all);
    PickedReport(rows, KeptRow(), deadline);
    forall idx | 0 <= idx < |reports|
      ensures Ordered(reports[idx])
      ensures Timely(rows, deadline) && reports[idx].total > 0 ==> HitByErrors(reports[idx], deadline)
    {
      assert reports[idx] == ReportOf(Lookup(bins, idx));
      PickedReport(rows, InBin(binSeconds, idx), deadline);
    }
  }

  // ---- What the reports mean -----------------------------------------------------------------

  lemma {:induction false} OkAndErrors(rows: seq<RawRow>)
    ensures |Select(rows, OkRow())| + |Select(rows, ErrorRow())| == |rows|
  {
    if rows != [] {
      OkAndErrors(rows[..|rows| - 1]);
    }
  }

  /** On any rows, so in every bin and over the whole phase, the two parsers report the same
      totals, successes, errors and status counts, and these add up. */
  lemma ParsersAgree(rows: seq<RawRow>, deadline: real)
    ensures var a, b := ReportOf(SuccessBin(rows)), ReportOf(DeadlineBin(rows, deadline));
      && a.total == b.total && a.ok == b.ok && a.err == b.err && a.dist == b.dist
      && a.total == a.ok + a.err == |a.dist|
  {
    OkAndErrors(rows);
  }

  function ReportedTotal(): Report -> int { (r: Report) => r.total }

  /** Every kept row is reported in one bin or falls beyond the last one: the totals of all bin
      reports and the rows past them add up to the phase total, for either parser. */
  lemma {:induction false} BinTotalsAddUp(rows: seq<RawRow>, binSeconds: nat, reports: seq<Report>)
    requires binSeconds > 0
    requires forall idx | 0 <= idx < |reports| :: reports[idx].total == |Select(rows, InBin(binSeconds, idx))|
    ensures Tally(reports, ReportedTotal()) + |Select(rows, PastBins(binSeconds, |reports|))|
         == |Select(rows, KeptRow())|
  {
    if reports == [] {
      SamePick(rows, PastBins(binSeconds, 0), KeptRow());
    } else {
      var last := |reports| - 1;
      BinTotalsAddUp(rows, binSeconds, reports[..last]);
      PastSplit(rows, binSeconds, last);
      assert reports == reports[..last] + [reports[last]];
      TallyAppend(reports[..last], [reports[last]], ReportedTotal());
    }
  }

  lemma {:induction false} SamePick(rows: seq<RawRow>, p: RawRow -> bool, q: RawRow -> bool)
    requires forall x | x in rows :: p(x) == q(x)
    ensures Select(rows, p) == Select(rows, q)
  {
    if rows != [] {
      SamePick(rows[..|rows| - 1], p, q);
    }
  }

  lemma {:induction false} PastSplit(rows: seq<RawRow>, binSeconds: nat, n: nat)
    requires binSeconds > 0
    ensures |Select(rows, PastBins(binSeconds, n))|
         == |Select(rows, InBin(binSeconds, n))| + |Select(rows, PastBins(binSeconds, n + 1))|
  {
    if rows != [] {
      PastSplit(rows[..|rows| - 1], binSeconds, n);
    }
  }

  /** The deadline sample is the 2xx sample plus one deadline per error. */
  lemma {:induction false} DeadlineSample(rows: seq<RawRow>, deadline: real)
    ensures multiset(DeadlineBin(rows, deadline).lats)
         == multiset(Mapped(SuccessBin(rows).lats, SuccessBin(rows).err, deadline))
  {
    if rows != [] {
      var front, row := rows[..|rows| - 1], rows[|rows| - 1];
      assert rows == front + [row];
      DeadlineSample(front, deadline);
      DeadlineStep(front, row, deadline);
      SuccessStep(front, row);
      var ok, e := SuccessBin(front).lats, SuccessBin(front).err;
      if IsOk(row) {
        MappedSuccess(ok, LatencyUs(row), e, deadline);
      } else {
        MappedError(ok, e, deadline);
      }
    }
  }

  lemma MappedSuccess(ok: seq<real>, x: real, errors: nat, deadline: real)
    ensures multiset(Mapped(ok + [x], errors, deadline)) == multiset(Mapped(ok, errors, deadline)) + multiset{x}
  {}

  lemma MappedError(ok: seq<real>, errors: nat, deadline: real)
    ensures multiset(Mapped(ok, errors + 1, deadline)) == multiset(Mapped(ok, errors, deadline)) + multiset{deadline}
  {
    assert Mapped(ok, errors + 1, deadline) == Mapped(ok, errors, deadline) + [deadline];
  }

  /** The q-th percentile the post-processor reports is that of the mapped 2xx sample. */
  lemma DeadlinePercentile(rows: seq<RawRow>, deadline: real, q: real)
    ensures PercentileOf(DeadlineBin(rows, deadline).lats, q)
         == PercentileOf(Mapped(SuccessBin(rows).lats, SuccessBin(rows).err, deadline), q)
  {
    var a, b := DeadlineBin(rows, deadline).lats, Mapped(SuccessBin(rows).lats, SuccessBin(rows).err, deadline);
    DeadlineSample(rows, deadline);
    SortedUnique(Sort(a, RealLeq), Sort(b, RealLeq), RealLeq);
  }

  /** All successes of these rows are faster than the deadline. */
  ghost predicate Timely(rows: seq<RawRow>, deadline: real) {
    forall row | row in rows && IsOk(row) :: LatencyUs(row) < deadline
  }

  lemma TimelyLatencies(rows: seq<RawRow>, deadline: real)
    requires Timely(rows, deadline)
    ensures forall x | x in SuccessBin(rows).lats :: x < deadline
    ensures |SuccessBin(rows).lats| + SuccessBin(rows).err == |rows|
  {
    var picked := Select(rows, OkRow());
    OkAndErrors(rows);
    forall i | 0 <= i < |picked| ensures Latencies(picked)[i] < deadline {
      assert picked[i] in picked;
    }
  }

  lemma HitTransfers(lats: seq<real>, ok: seq<real>, errors: nat, total: nat, deadline: real, q: real)
    requires PercentileOf(lats, q) == PercentileOf(Mapped(ok, errors, deadline), q)
    requires |ok| + errors == total > 0 && forall x | x in ok :: x < deadline
    ensures PercentileOf(lats, q) == Some(deadline) <==> ErrorsReach(errors, total, q)
  {
    hide PercentileOf, ErrorsReach;
    DeadlineHitIff(ok, errors, deadline, q);
  }

  lemma SampleDeadlineIff(rows: seq<RawRow>, deadline: real, q: real)
    requires rows != [] && Timely(rows, deadline)
    ensures var b := DeadlineBin(rows, deadline);
      b.err <= b.total && (PercentileOf(b.lats, q) == Some(deadline) <==> ErrorsReach(b.err, b.total, q))
  {
    TimelyLatencies(rows, deadline);
    DeadlinePercentile(rows, deadline, q);
    HitTransfers(DeadlineBin(rows, deadline).lats, SuccessBin(rows).lats, SuccessBin(rows).err, |rows|, deadline, q);
  }

  /** Each reported percentile is the deadline exactly when the reported errors reach its rank
      among the reported responses. */
  ghost predicate HitByErrors(r: Report, deadline: real) {
    && r.err <= r.total
    && (r.p50 == Some(deadline) <==> ErrorsReach(r.err, r.total, 50.0))
    && (r.p90 == Some(deadline) <==> ErrorsReach(r.err, r.total, 90.0))
    && (r.p99 == Some(deadline) <==> ErrorsReach(r.err, r.total, 99.0))
    && (r.p999 == Some(deadline) <==> ErrorsReach(r.err, r.total, 99.9))
  }

  /** End to end, for a bin or a phase with any rows, all successes faster than the deadline. */
  lemma ReportedDeadlineIff(rows: seq<RawRow>, deadline: real)
    requires rows != [] && Timely(rows, deadline)
    ensures HitByErrors(ReportOf(DeadlineBin(rows, deadline)), deadline)
  {
    hide ReportOf, PercentileOf, DeadlineBin, ErrorsReach;
    ReportFields(DeadlineBin(rows, deadline));
    SampleDeadlineIff(rows, deadline, 50.0);
    SampleDeadlineIff(rows, deadline, 90.0);
    SampleDeadlineIff(rows, deadline, 99.0);
    SampleDeadlineIff(rows, deadline, 99.9);
  }

  lemma SampleNeverLower(rows: seq<RawRow>, deadline: real, q: real)
    ensures var a, d := SuccessBin(rows).lats, DeadlineBin(rows, deadline).lats;
      NotLower(PercentileOf(a, q), PercentileOf(d, q), deadline)
  {
    var ok := SuccessBin(rows).lats;
    DeadlinePercentile(rows, deadline, q);
    if ok != [] && PercentileOf(ok, q).value <= deadline {
      MappingNeverLowers(ok, SuccessBin(rows).err, deadline, q);
    }
  }

  ghost predicate NotLower(a: Option<real>, d: Option<real>, deadline: real) {
    a.Some? && a.value <= deadline ==> d.Some? && a.value <= d.value
  }

  /** And each is at least the 2xx-only percentile reported for the same rows, if that meets the
      deadline. */
  lemma ReportedNeverLower(rows: seq<RawRow>, deadline: real)
    ensures var a, d := ReportOf(SuccessBin(rows)), ReportOf(DeadlineBin(rows, deadline));
      && NotLower(a.p50, d.p50, deadline) && NotLower(a.p90, d.p90, deadline)
      && NotLower(a.p99, d.p99, deadline) && NotLower(a.p999, d.p999, deadline)
  {
    hide ReportOf, PercentileOf, DeadlineBin, SuccessBin, NotLower;
    ReportFields(SuccessBin(rows));
    ReportFields(DeadlineBin(rows, deadline));
    SampleNeverLower(rows, deadline, 50.0);
    SampleNeverLower(rows, deadline, 90.0);
    SampleNeverLower(rows, deadline, 99.0);
    SampleNeverLower(rows, deadline, 99.9);
  }

  /** Both for the report of some of the rows of a log. */
  lemma PickedReport(rows: seq<RawRow>, p: RawRow -> bool, deadline: real)
    ensures var r := ReportOf(DeadlineBin(Select(rows, p), deadline));
      Ordered(r) && (Timely(rows, deadline) && r.total > 0 ==> HitByErrors(r, deadline))
  {
    hide Ordered, HitByErrors;
    var picked := Select(rows, p);
    ReportOrdered(DeadlineBin(picked, deadline));
    if Timely(rows, deadline) && picked != [] {
      ReportedDeadlineIff(picked, deadline);
    }
  }

  // ---- Averages ------------------------------------------------------------------------------

  lemma {:induction false} SumAppend(a: seq<real>, b: seq<real>)
    ensures Sum(a + b) == Sum(a) + Sum(b)
  {
    if a == [] {
      assert a + b == b;
    } else {
      assert (a + b)[1..] == a[1..] + b;
      SumAppend(a[1..], b);
    }
  }

  lemma {:induction false} SumInsert(x: real, s: seq<real>)
    ensures Sum(Insert(x, s, RealLeq)) == x + Sum(s)
  {
    if s != [] {
      if RealLeq(x, s[0]) {
        assert ([x] + s)[1..] == s;
      } else {
        SumInsert(x, s[1..]);
        assert ([s[0]] + Insert(x, s[1..], RealLeq))[1..] == Insert(x, s[1..], RealLeq);
      }
    }
  }

  lemma {:induction false} SumSort(s: seq<real>)
    ensures Sum(Sort(s, RealLeq)) == Sum(s)
  {
    if s != [] {
      SumSort(s[1..]);
      SumInsert(s[0], Sort(s[1..], RealLeq));
    }
  }

  lemma SumByMultiset(a: seq<real>, b: seq<real>)
    requires multiset(a) == multiset(b)
    ensures Sum(a) == Sum(b)
  {
    SumSort(a);
    SumSort(b);
    SortedUnique(Sort(a, RealLeq), Sort(b, RealLeq), RealLeq);
  }

  lemma {:induction false} SumCopies(x: real, n: nat)
    ensures Sum(Copies(x, n)) == x * n as real
  {
    if n > 0 {
      assert Copies(x, n)[1..] == Copies(x, n - 1);
      SumCopies(x, n - 1);
      assert x * n as real == x * (n - 1) as real + x;
    }
  }

  /** The total latency a report's average stands for. */
  function Mass(avg: Option<real>, n: nat): real {
    if avg.None? then 0.0 else avg.value * n as real
  }

  lemma MassOfAverage(lats: seq<real>)
    ensures Mass(Average(lats), |lats|) == Sum(lats)
  {
    if lats != [] {
      Reuse.QuotientTimes(Sum(lats), |lats| as real);
    }
  }

  lemma MassOfReport(bin: Bin)
    ensures Mass(ReportOf(bin).avg, |bin.lats|) == Sum(bin.lats)
  {
    hide Average, Mass, Sum;
    SumSort(bin.lats);
    MassOfAverage(Sort(bin.lats, RealLeq));
  }

  lemma ReportSizes(rows: seq<RawRow>, deadline: real)
    ensures |SuccessBin(rows).lats| == ReportOf(SuccessBin(rows)).ok
    ensures |DeadlineBin(rows, deadline).lats| == ReportOf(DeadlineBin(rows, deadline)).total
    ensures SuccessBin(rows).err == ReportOf(DeadlineBin(rows, deadline)).err
  {}

  lemma MappedSum(ok: seq<real>, errors: nat, deadline: real)
    ensures Sum(Mapped(ok, errors, deadline)) == Sum(ok) + deadline * errors as real
  {
    SumAppend(ok, Copies(deadline, errors));
    SumCopies(deadline, errors);
  }

  /** The deadline average weighs the 2xx average by the successes and the deadline by the
      errors: no latency is lost or counted twice. */
  lemma DeadlineAverage(rows: seq<RawRow>, deadline: real)
    ensures var a, d := ReportOf(SuccessBin(rows)), ReportOf(DeadlineBin(rows, deadline));
      Mass(d.avg, d.total) == Mass(a.avg, a.ok) + deadline * d.err as real
  {
    hide ReportOf, SuccessBin, DeadlineBin, Mapped, Sum, Mass;
    var ok, e := SuccessBin(rows).lats, SuccessBin(rows).err;
    ReportSizes(rows, deadline);
    MassOfReport(SuccessBin(rows));
    MassOfReport(DeadlineBin(rows, deadline));
    DeadlineSample(rows, deadline);
    SumByMultiset(DeadlineBin(rows, deadline).lats, Mapped(ok, e, deadline));
    MappedSum(ok, e, deadline);
  }
}
