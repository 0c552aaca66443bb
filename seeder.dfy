/**
 * seed_measurements.js: generates one reading per simulated signal for every
 * hour of the last `DAYS_HISTORY` days (both ends included), buffers them, and
 * inserts the buffer into `measurements` each time it reaches `BATCH_SIZE`
 * rows, with a last insert for what remains. An error from an insert inside
 * the loop ends the run at once; the error of the last insert is not looked at.
 *
 * The store is seen through the batches handed to it: `accept(k)` says whether
 * the `k`-th insert call succeeds, and `draw(t, i)` is the value drawn for the
 * `i`-th signal at instant `t` (milliseconds).
 */
module Seeder {
  import opened Base
  import opened Measurements

  const DaysHistory: nat := 365
  const BatchSize: nat := 1000
  const HourMs: nat := 60 * 60 * 1000
  /** `DAYS_HISTORY * 24 * 60 * 60 * 1000`: how far before `now` the first hour lies. */
  const HistoryMs: nat := DaysHistory * 24 * HourMs
  /** The instants the loop visits: every hour from the start up to and including `now`. */
  const Hours: nat := DaysHistory * 24 + 1
  /** How many hours of readings fill one batch: `BATCH_SIZE / |SIGNALS|`. */
  const HoursPerBatch: nat := BatchSize / |Signals|
  /** How many full batches the loop flushes when no insert fails. */
  const FullBatches: nat := Hours * |Signals| / BatchSize

  /** The sizes the batching works with: four signals, 250 hours a batch, 35 full batches and 44 readings left over. */
  lemma Sizes()
    ensures |Signals| == 4 && HoursPerBatch == 250 && FullBatches == 35
    ensures Hours * |Signals| == FullBatches * BatchSize + 44
  {
  }

  /** The values drawn at instant `t`, one per signal. */
  function HourValues(draw: (int, nat) -> real, t: int): (vs: seq<real>)
    ensures |vs| == |Signals|
    ensures forall i :: 0 <= i < |Signals| ==> vs[i] == draw(t, i)
  {
    seq(|Signals|, i requires 0 <= i < |Signals| => draw(t, i))
  }

  /** The readings the inner loop pushes at instant `t`, one per signal. */
  function HourRows(t: int, draw: (int, nat) -> real): (r: seq<Reading>)
    ensures |r| == |Signals|
  {
    ReadingsAt(t, HourValues(draw, t))
  }

  /** Every reading of the first `n` hours from `start`, hour after hour, in `SIGNALS` order within an hour. */
  function Generated(start: int, n: nat, draw: (int, nat) -> real): (r: seq<Reading>)
    ensures |r| == |Signals| * n
  {
    if n == 0 then [] else Generated(start, n - 1, draw) + HourRows(start + (n - 1) * HourMs, draw)
  }

  /**
   * Reading `|SIGNALS| * h + i` is the `i`-th signal's reading of hour `h`: stamped
   * with the hour's instant, carrying the value drawn for it and that value's
   * status.
   */
  lemma {:induction false} GeneratedAt(start: int, n: nat, draw: (int, nat) -> real, h: nat, i: nat)
    requires h < n && i < |Signals|
    ensures var t := start + h * HourMs;
            Generated(start, n, draw)[|Signals| * h + i] ==
              Reading(Signals[i].id, t, draw(t, i), GetStatus(draw(t, i)))
    decreases n
  {
    var prev := Generated(start, n - 1, draw);
    var at := |Signals| * h + i;
    if h < n - 1 {
      MulMono(|Signals|, h, n - 1);
      GeneratedAt(start, n - 1, draw, h, i);
      assert Generated(start, n, draw)[at] == prev[at];
    } else {
      assert |prev| == |Signals| * h;
      assert Generated(start, n, draw)[at] == HourRows(start + h * HourMs, draw)[i];
    }
  }

  lemma {:induction false} MulMono(a: nat, b: nat, c: nat)
    requires b < c
    ensures a * b + a <= a * c
    decreases c
  {
    MulSucc(a, c - 1);
    if b < c - 1 {
      MulMono(a, b, c - 1);
    }
  }

  /** The readings of fewer hours are a prefix of those of more hours. */
  lemma {:induction false} GeneratedPrefix(start: int, m: nat, n: nat, draw: (int, nat) -> real)
    requires m <= n
    ensures Generated(start, m, draw) <= Generated(start, n, draw)
    decreases n
  {
    if m < n {
      GeneratedPrefix(start, m, n - 1, draw);
    }
  }

  /** The first `n` batches were accepted by the store and hold `BATCH_SIZE` readings each. */
  ghost predicate Flushed(batches: seq<seq<Reading>>, accept: nat -> bool, n: nat)
    requires n <= |batches|
  {
    forall k :: 0 <= k < n ==> accept(k) && |batches[k]| == BatchSize
  }

  /**
   * The state at the top of the hourly loop after `h` hours: what was flushed
   * followed by the buffer is everything generated so far, the buffer is below
   * `BATCH_SIZE`, every flushed batch was full and accepted, and
   * `totalInserted` counts the flushed readings.
   */
  ghost predicate Pending(start: int, h: nat, draw: (int, nat) -> real, accept: nat -> bool,
                          batches: seq<seq<Reading>>, buffer: seq<Reading>, total: nat)
  {
    && h <= Hours
    && Flatten(batches) + buffer == Generated(start, h, draw)
    && 0 <= h - HoursPerBatch * |batches| < HoursPerBatch
    && |buffer| == |Signals| * (h - HoursPerBatch * |batches|)
    && Flushed(batches, accept, |batches|)
    && total == BatchSize * |batches|
  }

  /** The readings of hour `h` follow those of the hours before it. */
  lemma HourAppended(start: int, h: nat, t: int, draw: (int, nat) -> real, flushed: seq<Reading>, buffer: seq<Reading>)
    requires flushed + buffer == Generated(start, h, draw) && t == start + h * HourMs
    ensures flushed + (buffer + HourRows(t, draw)) == Generated(start, h + 1, draw)
  {
    assert start + (h + 1 - 1) * HourMs == t;
    assert flushed + (buffer + HourRows(t, draw)) == (flushed + buffer) + HourRows(t, draw);
  }

  /**
   * One more hour: pushing its readings either leaves the buffer below
   * `BATCH_SIZE` and the loop state intact, or fills it to exactly
   * `BATCH_SIZE`, which happens for at most `FullBatches` batches.
   */
  lemma HourAdded(start: int, h: nat, t: int, draw: (int, nat) -> real, accept: nat -> bool,
                  batches: seq<seq<Reading>>, buffer: seq<Reading>, total: nat)
    requires Pending(start, h, draw, accept, batches, buffer, total) && h < Hours
    requires t == start + h * HourMs
    ensures var full := buffer + HourRows(t, draw);
            && Flatten(batches) + full == Generated(start, h + 1, draw)
            && |full| == |Signals| * (h + 1 - HoursPerBatch * |batches|)
            && (|full| < BatchSize ==> Pending(start, h + 1, draw, accept, batches, full, total))
            && (|full| >= BatchSize ==> |full| == BatchSize && |batches| < FullBatches)
  {
    HourAppended(start, h, t, draw, Flatten(batches), buffer);
  }

  lemma MulSucc(a: nat, b: nat)
    ensures a * (b + 1) == a * b + a
  {
  }

  /** Flushing a full buffer hands it over as the next batch; when accepted, the loop state holds again. */
  lemma BatchFlushed(start: int, h: nat, draw: (int, nat) -> real, accept: nat -> bool,
                     batches: seq<seq<Reading>>, full: seq<Reading>, total: nat)
    requires h <= Hours && Flatten(batches) + full == Generated(start, h, draw)
    requires |full| == BatchSize && |full| == |Signals| * (h - HoursPerBatch * |batches|)
    requires Flushed(batches, accept, |batches|) && total == BatchSize * |batches|
    ensures Flatten(batches + [full]) == Generated(start, h, draw)
    ensures accept(|batches|) ==> Pending(start, h, draw, accept, batches + [full], [], total + |full|)
  {
    Sizes();
    assert h - HoursPerBatch * |batches| == HoursPerBatch;
    MulSucc(HoursPerBatch, |batches|);
    FlattenAppend(batches, full);
    assert Flatten(batches + [full]) + [] == Generated(start, h, draw);
  }

  /** Stepping the clock by an hour moves to the next hour's instant. */
  lemma NextHour(start: int, h: nat, t: int)
    requires t == start + h * HourMs
    ensures t + HourMs == start + (h + 1) * HourMs
  {
  }

  /**
   * The loop condition `t <= now` holds for the first `Hours` instants and
   * fails at the next one: `now` itself is the last instant visited.
   */
  lemma LoopBound(now: int, h: nat)
    ensures now - HistoryMs + h * HourMs <= now <==> h < Hours
  {
  }

  /**
   * What the run has produced when an insert inside the loop fails: a prefix
   * of the generated readings, in nonempty batches of which all but the last
   * were accepted, the last one full, rejected and not counted.
   */
  ghost predicate Stopped(start: int, draw: (int, nat) -> real, accept: nat -> bool,
                          batches: seq<seq<Reading>>, total: nat)
  {
    && Flatten(batches) <= Generated(start, Hours, draw)
    && (forall k :: 0 <= k < |batches| ==> |batches[k]| > 0)
    && (forall k :: 0 <= k < |batches| - 1 ==> accept(k) && |batches[k]| == BatchSize)
    && (exists k :: 0 <= k < FullBatches && !accept(k))
    && |batches| >= 1 && !accept(|batches| - 1) && |batches[|batches| - 1]| == BatchSize
    && total == BatchSize * (|batches| - 1)
  }

  /** A failed in-loop insert leaves the run `Stopped`. */
  lemma Aborted(start: int, h: nat, draw: (int, nat) -> real, accept: nat -> bool,
                batches: seq<seq<Reading>>, total: nat)
    requires h <= Hours && |batches| >= 1 && Flatten(batches) == Generated(start, h, draw)
    requires Flushed(batches, accept, |batches| - 1) && total == BatchSize * (|batches| - 1)
    requires |batches| <= FullBatches && !accept(|batches| - 1) && |batches[|batches| - 1]| == BatchSize
    ensures Stopped(start, draw, accept, batches, total)
  {
    GeneratedPrefix(start, h, Hours, draw);
  }

  /** What the run has produced when the loop ends and the remainder is flushed. */
  lemma Finished(start: int, draw: (int, nat) -> real, accept: nat -> bool,
                 batches: seq<seq<Reading>>, buffer: seq<Reading>, total: nat)
    requires Pending(start, Hours, draw, accept, batches, buffer, total)
    ensures |buffer| == 44 && |batches| == FullBatches
    ensures Flatten(batches + [buffer]) == Generated(start, Hours, draw)
    ensures forall k :: 0 <= k < |batches + [buffer]| ==> |(batches + [buffer])[k]| > 0
    ensures forall k :: 0 <= k < |batches| ==> accept(k) && |(batches + [buffer])[k]| == BatchSize
    ensures forall k :: 0 <= k < FullBatches ==> accept(k)
    ensures total + |buffer| == Hours * |Signals|
  {
    Sizes();
    FlattenAppend(batches, buffer);
  }

  /** The inner loop: one reading per signal at instant `t`, in `SIGNALS` order. */
  method HourReadings(t: int, draw: (int, nat) -> real) returns (rows: seq<Reading>)
    ensures rows == HourRows(t, draw)
  {
    rows := [];
    var i := 0;
    while i < |Signals|
      invariant 0 <= i <= |Signals|
      invariant rows == HourRows(t, draw)[..i]
    {
      var value := draw(t, i);
      rows := rows + [Reading(Signals[i].id, t, value, GetStatus(value))];
      i := i + 1;
    }
  }

  /**
   * The hourly loop of `seedMeasurements`, up to the final flush: the batches
   * handed to the store, the buffer left over and the running
   * `totalInserted`, or, when an insert fails, the batches up to and
   * including the failed one.
   */
  method SeedHours(now: int, draw: (int, nat) -> real, accept: nat -> bool)
    returns (batches: seq<seq<Reading>>, currentBatch: seq<Reading>, totalInserted: nat, aborted: bool)
    ensures !aborted ==> Pending(now - HistoryMs, Hours, draw, accept, batches, currentBatch, totalInserted)
    ensures aborted ==> Stopped(now - HistoryMs, draw, accept, batches, totalInserted)
  {
    var startTime := now - HistoryMs;
    currentBatch := [];
    batches, totalInserted, aborted := [], 0, false;
    ghost var h: nat := 0;
    var t := startTime;
    LoopBound(now, h);
    while t <= now
      invariant t == startTime + h * HourMs
      invariant t <= now <==> h < Hours
      invariant Pending(startTime, h, draw, accept, batches, currentBatch, totalInserted)
      decreases now - t
    {
      var rows := HourReadings(t, draw);
      HourAdded(startTime, h, t, draw, accept, batches, currentBatch, totalInserted);
      NextHour(startTime, h, t);
      LoopBound(now, h + 1);
      currentBatch := currentBatch + rows;
      h := h + 1;
      if |currentBatch| >= BatchSize {
        BatchFlushed(startTime, h, draw, accept, batches, currentBatch, totalInserted);
        var ok := accept(|batches|);
        batches := batches + [currentBatch];
        if !ok {
          aborted := true;
          Aborted(startTime, h, draw, accept, batches, totalInserted);
          return;
        }
        totalInserted := totalInserted + |currentBatch|;
        currentBatch := [];
      }
      t := t + HourMs;
    }
  }

  /**
   * `seedMeasurements`. Returns the batches handed to the store's insert, in
   * order, the final `totalInserted`, and whether an insert inside the loop
   * failed and ended the run.
   */
  method SeedMeasurements(now: int, draw: (int, nat) -> real, accept: nat -> bool)
    returns (batches: seq<seq<Reading>>, totalInserted: nat, aborted: bool)
    // What was handed to the store is the generated sequence, or a prefix of it.
    ensures Flatten(batches) <= Generated(now - HistoryMs, Hours, draw)
    // No insert is ever called with an empty batch.
    ensures forall k :: 0 <= k < |batches| ==> |batches[k]| > 0
    // Every batch but the last was flushed inside the loop, full, and accepted.
    ensures forall k :: 0 <= k < |batches| - 1 ==> accept(k) && |batches[k]| == BatchSize
    // The run ends early exactly when one of the in-loop inserts fails ...
    ensures aborted <==> exists k :: 0 <= k < FullBatches && !accept(k)
    // ... and then the failed batch was full, is the last one, and is not counted.
    ensures aborted ==> |batches| >= 1 && !accept(|batches| - 1) && |batches[|batches| - 1]| == BatchSize
    ensures aborted ==> totalInserted == BatchSize * (|batches| - 1)
    // Otherwise everything generated was handed over, in order, and counted.
    ensures !aborted ==> Flatten(batches) == Generated(now - HistoryMs, Hours, draw)
    ensures !aborted ==> |batches| == FullBatches + 1 && totalInserted == Hours * |Signals|
  {
    var currentBatch;
    batches, currentBatch, totalInserted, aborted := SeedHours(now, draw, accept);
    if aborted {
      return;
    }
    // The loop has visited all `Hours` instants; the remainder (44 readings) is never empty here.
    Finished(now - HistoryMs, draw, accept, batches, currentBatch, totalInserted);
    batches := batches + [currentBatch];
    totalInserted := totalInserted + |currentBatch|;
  }
}
