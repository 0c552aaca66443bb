/**
 * What live_ingest.js and seed_measurements.js share (each script carries its
 * own identical copy): the simulated signals `SIGNALS`, the severity
 * classification `getStatus`, and the rows built for one instant, one per
 * signal.
 */
module Measurements {

  /** The `status` column: 'normal', 'high' or 'critical'. */
  datatype Status = Normal | High | Critical

  /** Orders the statuses normal < high < critical. */
  function Severity(s: Status): nat
  {
    match s
    case Normal => 0
    case High => 1
    case Critical => 2
  }

  /** `getStatus`: above 110 is critical, above 105 is high, anything else normal. */
  function GetStatus(value: real): (s: Status)
    ensures s == Critical <==> value > 110.0
    ensures s == High <==> 105.0 < value <= 110.0
    ensures s == Normal <==> value <= 105.0
  {
    if value > 110.0 then Critical
    else if value > 105.0 then High
    else Normal
  }

  /** A larger value never gets a lower severity. */
  lemma GetStatusMonotone(v: real, w: real)
    requires v <= w
    ensures Severity(GetStatus(v)) <= Severity(GetStatus(w))
  {
  }

  /** The boundary readings: 105 and 110 belong to the lower class. */
  lemma GetStatusBoundaries()
    ensures GetStatus(105.0) == Normal && GetStatus(105.01) == High
    ensures GetStatus(110.0) == High && GetStatus(110.01) == Critical
  {
  }

  /** One simulated signal: the reading is drawn around `base`, at most `variance` away. */
  datatype SignalSpec = SignalSpec(id: string, base: real, variance: real)

  /** `SIGNALS`, in declaration order. */
  const Signals: seq<SignalSpec> := [
    SignalSpec("sig-1", 45.0, 5.0),
    SignalSpec("sig-2", 42.0, 5.0),
    SignalSpec("sig-3", 100.0, 10.0),
    SignalSpec("sig-4", 98.0, 10.0)
  ]

  /**
   * A `measurements` row. `timestamp` is the instant in milliseconds since the
   * epoch; the scripts store its ISO-8601 rendering.
   */
  datatype Reading = Reading(signalId: string, timestamp: int, value: real, status: Status)

  /**
   * The rows of one instant (`SIGNALS.map(...)`): `values[i]` is the value drawn
   * for the `i`-th signal.
   */
  function ReadingsAt(timestamp: int, values: seq<real>): (r: seq<Reading>)
    requires |values| == |Signals|
    ensures |r| == |Signals|
    ensures forall i :: 0 <= i < |r| ==>
              && r[i].signalId == Signals[i].id
              && r[i].timestamp == timestamp
              && r[i].value == values[i]
              && r[i].status == GetStatus(r[i].value)
  {
    seq(|Signals|, i requires 0 <= i < |Signals| =>
      Reading(Signals[i].id, timestamp, values[i], GetStatus(values[i])))
  }
}
