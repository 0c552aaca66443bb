/**
 * live_ingest.js: every `INTERVAL_MS` the feed builds one reading per simulated
 * signal, all stamped with the tick's clock reading, inserts them as one batch
 * into `measurements`, and, on ticks whose clock shows fewer than 2 seconds past
 * the minute, calls the store's `cleanup_measurements` procedure. Store errors
 * are logged and ignored.
 *
 * The store is seen through the calls the feed makes to it, recorded in a
 * ghost log; whether an insert succeeds is an input of the tick.
 */
module LiveIngest {
  import opened Measurements

  /** `INTERVAL_MS`: the time between two firings. */
  const IntervalMs: nat := 2000
  const MinuteMs: nat := 60 * 1000

  /** A call the feed makes to the store. */
  datatype StoreCall =
    | InsertMeasurements(rows: seq<Reading>, succeeded: bool)
    | CleanupMeasurements

  /** The cleanup gate `now.getSeconds() < 2`. */
  predicate CleanupDue(seconds: nat)
  {
    seconds < 2
  }

  /**
   * The store calls of one tick: first the insert of the tick's readings, then
   * the cleanup call when it is due, whatever the insert's outcome.
   */
  function TickCalls(now: int, seconds: nat, values: seq<real>, insertOk: bool): (calls: seq<StoreCall>)
    requires |values| == |Signals|
    ensures 1 <= |calls| <= 2
    ensures calls[0] == InsertMeasurements(ReadingsAt(now, values), insertOk)
    ensures |calls| == 2 <==> seconds < 2
    ensures |calls| == 2 ==> calls[1] == CleanupMeasurements
  {
    [InsertMeasurements(ReadingsAt(now, values), insertOk)] +
    (if CleanupDue(seconds) then [CleanupMeasurements] else [])
  }

  /** The seconds field of the clock reading `ms` (milliseconds since the epoch). */
  function SecondsOf(ms: int): (s: nat)
    ensures s < 60
    ensures s < 2 <==> ms % MinuteMs < 2 * 1000
  {
    (ms % MinuteMs) / 1000
  }

  /** Whether the `k`-th firing after one at instant `t` finds the cleanup gate open. */
  ghost predicate DueAt(t: int, k: nat)
  {
    CleanupDue(SecondsOf(t + k * IntervalMs))
  }

  /** `x % MinuteMs` is the offset of `x` within its minute. */
  lemma ModMinute(x: int, w: int, v: int)
    requires x == MinuteMs * w + v && 0 <= v < MinuteMs
    ensures x % MinuteMs == v
  {
  }

  /** The `k`-th firing of a minute opens the gate exactly when it is the one that crosses into the next minute. */
  lemma DueAtIff(t: int, k: nat)
    requires k < MinuteMs / IntervalMs
    ensures var q := (t % MinuteMs) / IntervalMs;
            DueAt(t, k) <==> q + k == 0 || q + k == MinuteMs / IntervalMs
  {
    var w, r := t / MinuteMs, t % MinuteMs;
    var q, rest := r / IntervalMs, r % IntervalMs;
    var x := t + k * IntervalMs;
    assert x == MinuteMs * w + (2000 * (q + k) + rest);
    if q + k < 30 {
      ModMinute(x, w, 2000 * (q + k) + rest);
    } else {
      ModMinute(x, w + 1, 2000 * (q + k - 30) + rest);
    }
  }

  /**
   * Firing every `INTERVAL_MS`, cleanup runs once a minute: of the 30 firings
   * that follow any instant `t`, exactly one finds the gate open.
   */
  lemma CleanupOncePerMinute(t: int)
    ensures exists k :: 0 <= k < MinuteMs / IntervalMs && DueAt(t, k)
    ensures forall k1, k2 :: 0 <= k1 < k2 < MinuteMs / IntervalMs && DueAt(t, k1) ==> !DueAt(t, k2)
  {
    var q := (t % MinuteMs) / IntervalMs;
    var k0 := if q == 0 then 0 else 30 - q;
    DueAtIff(t, k0);
    forall k1, k2 | 0 <= k1 < k2 < MinuteMs / IntervalMs && DueAt(t, k1) ensures !DueAt(t, k2) {
      DueAtIff(t, k1);
      DueAtIff(t, k2);
    }
  }

  /** The cleanup gate does not look at the insert's outcome. */
  lemma CleanupIndependentOfInsert(now: int, seconds: nat, values: seq<real>)
    requires |values| == |Signals|
    ensures |TickCalls(now, seconds, values, true)| == |TickCalls(now, seconds, values, false)|
  {
  }

  /** The inputs of one tick: the clock, its seconds field, the drawn values and the insert outcome. */
  datatype TickInput = TickInput(now: int, seconds: nat, values: seq<real>, insertOk: bool)

  ghost predicate WellFormed(t: TickInput)
  {
    |t.values| == |Signals| && t.seconds < 60
  }

  /** The store calls of a run of ticks, in order. */
  ghost function RunCalls(ticks: seq<TickInput>): seq<StoreCall>
    requires forall k :: 0 <= k < |ticks| ==> WellFormed(ticks[k])
  {
    if ticks == [] then []
    else
      var t := ticks[|ticks| - 1];
      assert WellFormed(t);
      RunCalls(ticks[..|ticks| - 1]) + TickCalls(t.now, t.seconds, t.values, t.insertOk)
  }

  /** The rows the store accepted: those of the inserts that succeeded. */
  ghost function RowsStored(calls: seq<StoreCall>): nat
  {
    if calls == [] then 0
    else
      var c := calls[|calls| - 1];
      RowsStored(calls[..|calls| - 1]) +
      (if c.InsertMeasurements? && c.succeeded then |c.rows| else 0)
  }

  lemma RowsStoredAppend(a: seq<StoreCall>, b: seq<StoreCall>)
    ensures RowsStored(a + b) == RowsStored(a) + RowsStored(b)
    decreases |b|
  {
    if b == [] {
      assert a + b == a;
    } else {
      assert (a + b)[..|a + b| - 1] == a + b[..|b| - 1];
      assert (a + b)[|a + b| - 1] == b[|b| - 1];
      RowsStoredAppend(a, b[..|b| - 1]);
    }
  }

  /** How many cleanup calls a list of store calls holds. */
  ghost function CleanupCount(calls: seq<StoreCall>): nat
  {
    if calls == [] then 0
    else CleanupCount(calls[..|calls| - 1]) + (if calls[|calls| - 1].CleanupMeasurements? then 1 else 0)
  }

  lemma CleanupCountAppend(a: seq<StoreCall>, b: seq<StoreCall>)
    ensures CleanupCount(a + b) == CleanupCount(a) + CleanupCount(b)
    decreases |b|
  {
    if b == [] {
      assert a + b == a;
    } else {
      assert (a + b)[..|a + b| - 1] == a + b[..|b| - 1];
      assert (a + b)[|a + b| - 1] == b[|b| - 1];
      CleanupCountAppend(a, b[..|b| - 1]);
    }
  }

  /** How many ticks of a run fall in the first two seconds of a minute. */
  ghost function DueTicks(ticks: seq<TickInput>): nat
  {
    if ticks == [] then 0
    else DueTicks(ticks[..|ticks| - 1]) + (if ticks[|ticks| - 1].seconds < 2 then 1 else 0)
  }

  /** One tick stores |SIGNALS| rows when its insert succeeds, and calls cleanup at most once. */
  lemma TickTotals(now: int, seconds: nat, values: seq<real>, insertOk: bool)
    requires |values| == |Signals|
    ensures RowsStored(TickCalls(now, seconds, values, insertOk)) == if insertOk then |Signals| else 0
    ensures CleanupCount(TickCalls(now, seconds, values, insertOk)) == if seconds < 2 then 1 else 0
  {
    var calls := TickCalls(now, seconds, values, insertOk);
    if seconds < 2 {
      assert calls == [calls[0]] + [calls[1]];
      RowsStoredAppend([calls[0]], [calls[1]]);
      CleanupCountAppend([calls[0]], [calls[1]]);
    }
  }

  /**
   * Over N ticks whose inserts all succeed, the store receives N times
   * |SIGNALS| rows; there is one cleanup call per tick that fell in the first
   * two seconds of a minute.
   */
  lemma {:induction false} RunTotals(ticks: seq<TickInput>)
    requires forall k :: 0 <= k < |ticks| ==> WellFormed(ticks[k])
    requires forall k :: 0 <= k < |ticks| ==> ticks[k].insertOk
    ensures RowsStored(RunCalls(ticks)) == |ticks| * |Signals|
    ensures CleanupCount(RunCalls(ticks)) == DueTicks(ticks)
    decreases |ticks|
  {
    if ticks != [] {
      var init, t := ticks[..|ticks| - 1], ticks[|ticks| - 1];
      assert WellFormed(t) && t.insertOk;
      RunTotals(init);
      var calls := TickCalls(t.now, t.seconds, t.values, t.insertOk);
      assert RunCalls(ticks) == RunCalls(init) + calls;
      RowsStoredAppend(RunCalls(init), calls);
      CleanupCountAppend(RunCalls(init), calls);
      TickTotals(t.now, t.seconds, t.values, t.insertOk);
    }
  }

  class Feed {
    /** Every call the feed has made to the store, oldest first. */
    ghost var calls: seq<StoreCall>

    constructor ()
      ensures calls == []
    {
      calls := [];
    }

    /**
     * One firing of the interval callback. `now` is the clock in milliseconds,
     * `seconds` its seconds field, `values[i]` the value drawn for the `i`-th
     * signal and `insertOk` whether the store accepted the insert.
     */
    method Tick(now: int, seconds: nat, values: seq<real>, insertOk: bool)
      returns (readings: seq<Reading>, cleanupCalled: bool)
      requires |values| == |Signals| && seconds < 60
      modifies this
      ensures readings == ReadingsAt(now, values)
      ensures cleanupCalled <==> seconds < 2
      ensures calls == old(calls) + TickCalls(now, seconds, values, insertOk)
    {
      // the rows of this instant, one per signal
      readings := ReadingsAt(now, values);
      // handed to the store whatever comes back; a failure is only logged
      calls := calls + [InsertMeasurements(readings, insertOk)];
      // the once-a-minute gate; its outcome is only logged too
      cleanupCalled := CleanupDue(seconds);
      if cleanupCalled {
        calls := calls + [CleanupMeasurements];
      }
    }
  }
}
