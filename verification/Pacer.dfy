/** Replay pacing against one absolute schedule. Clock readings are ticks, `res` of them to the millisecond. */
module Pacer {
  import opened Machine

  const HALF: int := 0x8000_0000_0000_0000

  // static_cast<std::int64_t> of an unsigned 64-bit stamp.
  function Int64(x: uint64): int {
    if x < HALF then x else x - 2 * HALF
  }

  function Max(a: int, b: int): int {
    if a >= b then a else b
  }

  class Clock {
    const res: int
    var now: int

    constructor (res: int, start: int)
      requires res > 0
      ensures this.res == res && now == start
    {
      this.res, now := res, start;
    }

    // A sleep ends no earlier than asked; `over` is how much later the system wakes the caller.
    method SleepFor(ms: int, over: nat)
      requires ms > 0
      modifies this
      ensures now == old(now) + ms * res + over
    {
      now := now + ms * res + over;
    }

    // What the caller does between two rows.
    method Work(ticks: nat)
      modifies this
      ensures now == old(now) + ticks
    {
      now := now + ticks;
    }
  }

  // Whole milliseconds since the origin; a clock behind the origin counts as zero.
  function ElapsedMs(res: int, start: int, now: int): nat
    requires res > 0
  {
    if now < start then 0 else (now - start) / res
  }

  // When a row that arrives at `now` and is due `offset` ms after the origin is emitted.
  function Release(res: int, start: int, now: int, offset: int, over: nat): int
    requires res > 0
  {
    var waitMs := offset - ElapsedMs(res, start, now);
    if waitMs > 0 then now + waitMs * res + over else now
  }

  class CsvReplayPacer {
    const intervalMs: int
    const clock: Clock
    var replayStart: int
    var baselineTsMs: uint64
    var rowsPaced: nat
    var anchored: bool

    constructor (intervalMs: int, clock: Clock)
      requires clock.res > 0
      ensures this.intervalMs == intervalMs && this.clock == clock && !anchored
    {
      this.intervalMs, this.clock := intervalMs, clock;
      replayStart, baselineTsMs, rowsPaced, anchored := 0, 0, 0, false;
    }

    function ScheduledOffsetMs(rowTsMs: uint64): int
      reads this
    {
      if intervalMs > 0 then rowsPaced * intervalMs else Int64(rowTsMs) - Int64(baselineTsMs)
    }

    method PaceRow(rowTsMs: uint64, over: nat)
      requires clock.res > 0
      modifies this, clock
      ensures anchored && rowsPaced == if old(anchored) then old(rowsPaced) + 1 else 1
      ensures !old(anchored) ==>
        replayStart == clock.now == old(clock.now) && baselineTsMs == rowTsMs
      ensures old(anchored) ==>
        && replayStart == old(replayStart) && baselineTsMs == old(baselineTsMs)
        && clock.now == Release(clock.res, replayStart, old(clock.now), old(ScheduledOffsetMs(rowTsMs)), over)
    {
      if !anchored {
        baselineTsMs := rowTsMs;
        replayStart := clock.now;
        anchored := true;
        rowsPaced := 1;
        return;
      }
      var waitMs := ScheduledOffsetMs(rowTsMs) - ElapsedMs(clock.res, replayStart, clock.now);
      if waitMs > 0 {
        clock.SleepFor(waitMs, over);
      }
      rowsPaced := rowsPaced + 1;
    }
  }

  // ======== whole replays ========

  // One row: its stamp, the ticks spent before handing it to the pacer, and the overshoot of its sleep.
  datatype Row = Row(ts: uint64, overhead: nat, over: nat)

  // A replay: the schedule's parameters and the rows in file order; the origin is the clock at the first row.
  datatype Replay = Replay(res: int, intervalMs: int, start: int, rows: seq<Row>) {
    predicate Valid() {
      res > 0 && rows != []
    }

    // The schedule, in ms after the origin.
    function Offset(k: nat): int
      requires Valid() && k < |rows|
    {
      if intervalMs > 0 then k * intervalMs else Int64(rows[k].ts) - Int64(rows[0].ts)
    }

    function Due(k: nat): int
      requires Valid() && k < |rows|
    {
      start + Offset(k) * res
    }

    function Arrival(k: nat): int
      requires Valid() && k < |rows|
      decreases k, 0
    {
      if k == 0 then start else Emit(k - 1) + rows[k].overhead
    }

    function Emit(k: nat): int
      requires Valid() && k < |rows|
      decreases k, 1
    {
      if k == 0 then start else Release(res, start, Arrival(k), Offset(k), rows[k].over)
    }

    // The overheads of the rows after j, up to k.
    function Overheads(j: nat, k: nat): nat
      requires j <= k < |rows|
    {
      if j == k then 0 else Overheads(j, k - 1) + rows[k].overhead
    }
  }

  /** The pacer's own loop over a file: the k-th row leaves at Emit(k). */
  method Run(r: Replay) returns (emitted: seq<int>)
    requires r.Valid()
    ensures |emitted| == |r.rows|
    ensures forall k :: 0 <= k < |r.rows| ==> emitted[k] == r.Emit(k)
  {
    var clock := new Clock(r.res, r.start);
    var pacer := new CsvReplayPacer(r.intervalMs, clock);
    emitted := [];
    while |emitted| < |r.rows|
      invariant |emitted| <= |r.rows|
      invariant pacer.clock == clock && clock.res == r.res && pacer.intervalMs == r.intervalMs
      invariant pacer.anchored <==> emitted != []
      invariant emitted == [] ==> clock.now == r.start
      invariant emitted != [] ==>
        && pacer.replayStart == r.start && pacer.baselineTsMs == r.rows[0].ts && pacer.rowsPaced == |emitted|
        && clock.now == r.Emit(|emitted| - 1)
      invariant forall k :: 0 <= k < |emitted| ==> emitted[k] == r.Emit(k)
    {
      var k := |emitted|;
      if k > 0 {
        clock.Work(r.rows[k].overhead);
      }
      pacer.PaceRow(r.rows[k].ts, r.rows[k].over);
      emitted := emitted + [clock.now];
    }
  }

  lemma FloorBounds(x: nat, d: int)
    requires d > 0
    ensures (x / d) * d <= x < (x / d) * d + d
  {
  }

  // The one step everything rests on.
  lemma ReleaseWindow(res: int, start: int, now: int, offset: int, over: nat)
    requires res > 0 && start <= now
    ensures var due := Max(now, start + offset * res);
      due <= Release(res, start, now, offset, over) < due + res + over
    ensures Release(res, start, now, offset, over) == now || now < start + offset * res
  {
    var e := ElapsedMs(res, start, now);
    FloorBounds(now - start, res);
    var w := offset - e;
    assert w * res == offset * res - e * res;
    if w > 0 {
      assert w * res >= res;
    } else {
      assert w * res <= 0;
    }
  }

  /** The schedule: a fixed step per row, or the difference of the stamps, which must fit 63 bits each. */
  lemma OffsetExactly(r: Replay, k: nat)
    requires r.Valid() && k < |r.rows|
    ensures r.intervalMs > 0 ==> r.Offset(k) == k * r.intervalMs
    ensures r.intervalMs <= 0 && r.rows[0].ts < 0x8000_0000_0000_0000 && r.rows[k].ts < 0x8000_0000_0000_0000 ==>
      r.Offset(k) == r.rows[k].ts - r.rows[0].ts
  {
  }

  /** A row that has to wait sleeps once, for the least whole number of milliseconds that reaches its due time; one
      that is due already leaves at once. */
  lemma SleepExactly(res: int, start: int, now: int, offset: int, over: nat) returns (ms: int)
    requires res > 0 && start <= now
    ensures var due := start + offset * res;
      && (now < due <==> ms > 0)
      && Release(res, start, now, offset, over) == (if now < due then now + ms * res + over else now)
      && (now < due ==> now + (ms - 1) * res < due <= now + ms * res)
  {
    var e := ElapsedMs(res, start, now);
    FloorBounds(now - start, res);
    ms := offset - e;
    assert ms * res == offset * res - e * res;
    assert (ms - 1) * res == ms * res - res;
    if ms > 0 {
      assert ms * res >= res;
    } else {
      assert ms * res <= 0;
    }
  }

  lemma {:induction false} NeverBeforeStart(r: Replay, k: nat)
    requires r.Valid() && k < |r.rows|
    ensures r.start <= r.Arrival(k) <= r.Emit(k)
  {
    if k > 0 {
      NeverBeforeStart(r, k - 1);
      ReleaseWindow(r.res, r.start, r.Arrival(k), r.Offset(k), r.rows[k].over);
    }
  }

  /** Every row leaves at its arrival or its due time, whichever is later, or within one millisecond and its
      own sleep's overshoot after that. */
  lemma EmissionWindow(r: Replay, k: nat)
    requires r.Valid() && 0 < k < |r.rows|
    ensures var due := Max(r.Arrival(k), r.Due(k));
      due <= r.Emit(k) < due + r.res + r.rows[k].over
  {
    NeverBeforeStart(r, k);
    ReleaseWindow(r.res, r.start, r.Arrival(k), r.Offset(k), r.rows[k].over);
  }

  /** Lower half of the closed form: no row leaves before any earlier row's due time plus the work since. */
  lemma {:induction false} NotBefore(r: Replay, j: nat, k: nat)
    requires r.Valid() && j <= k < |r.rows|
    ensures r.Due(j) + r.Overheads(j, k) <= r.Emit(k)
  {
    if k > 0 {
      EmissionWindow(r, k);
      if j < k {
        NotBefore(r, j, k - 1);
      }
    }
  }

  /** Upper half: some row j up to k accounts for the whole delay, to within one millisecond and one
      overshoot. However many sleeps overshoot, they never add up. */
  lemma {:induction false} NoDrift(r: Replay, over: nat, k: nat) returns (j: nat)
    requires r.Valid() && k < |r.rows|
    requires forall i :: 0 <= i < |r.rows| ==> r.rows[i].over <= over
    ensures j <= k && r.Emit(k) < r.Due(j) + r.Overheads(j, k) + r.res + over
  {
    if k == 0 {
      j := 0;
    } else {
      j := NoDrift(r, over, k - 1);
      NeverBeforeStart(r, k);
      ReleaseWindow(r.res, r.start, r.Arrival(k), r.Offset(k), r.rows[k].over);
      if r.Emit(k) != r.Arrival(k) {
        j := k;
      }
    }
  }

  /** On a millisecond clock with exact sleeps the closed form is exact. */
  lemma ExactOnMillisecondClock(r: Replay, k: nat) returns (j: nat)
    requires r.Valid() && r.res == 1 && k < |r.rows|
    requires forall i :: 0 <= i < |r.rows| ==> r.rows[i].over == 0
    ensures j <= k && r.Emit(k) == r.Due(j) + r.Overheads(j, k)
    ensures forall i :: 0 <= i <= k ==> r.Due(i) + r.Overheads(i, k) <= r.Emit(k)
  {
    j := NoDrift(r, 0, k);
    forall i | 0 <= i <= k
      ensures r.Due(i) + r.Overheads(i, k) <= r.Emit(k)
    {
      NotBefore(r, i, k);
    }
  }

  lemma {:induction false} OverheadsFit(r: Replay, j: nat, k: nat)
    requires r.Valid() && j <= k < |r.rows|
    requires forall i :: 0 < i < |r.rows| ==> r.rows[i].overhead <= r.Due(i) - r.Due(i - 1)
    ensures r.Due(j) + r.Overheads(j, k) <= r.Due(k)
  {
    if j < k {
      OverheadsFit(r, j, k - 1);
    }
  }

  /** If each row's overhead fits its gap in the schedule, every row of a file of any length is on time to
      within one millisecond and one sleep overshoot. */
  lemma OnTimeForever(r: Replay, over: nat, k: nat)
    requires r.Valid() && k < |r.rows|
    requires forall i :: 0 <= i < |r.rows| ==> r.rows[i].over <= over
    requires forall i :: 0 < i < |r.rows| ==> r.rows[i].overhead <= r.Due(i) - r.Due(i - 1)
    ensures r.Due(k) <= r.Emit(k) < r.Due(k) + r.res + over
  {
    var j := NoDrift(r, over, k);
    OverheadsFit(r, j, k);
    NotBefore(r, k, k);
  }

  /** A stamp earlier than its predecessor's never makes the replay wait. */
  lemma OutOfOrderNeverWaits(r: Replay, k: nat)
    requires r.Valid() && 0 < k < |r.rows| && r.Due(k) <= r.Due(k - 1)
    ensures r.Emit(k) == r.Arrival(k)
  {
    NotBefore(r, k - 1, k - 1);
    NeverBeforeStart(r, k);
    ReleaseWindow(r.res, r.start, r.Arrival(k), r.Offset(k), r.rows[k].over);
  }
}
