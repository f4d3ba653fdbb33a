/** What the encoder counts, and when it calls back, for any levels reported on its pins: repeated levels,
    levels that are neither high nor low, and pins that did not rest at the start. */
module EncoderReports {
  import opened Encoder

  datatype Report = Report(pin: Pin, level: int)

  /** The decoder after the first `n` reports. */
  function Decoded(start: EncoderState, reports: seq<Report>, n: nat): EncoderState
    requires n <= |reports|
  {
    if n == 0 then start else OnLevel(Decoded(start, reports, n - 1), reports[n - 1].pin, reports[n - 1].level)
  }

  /** The level last reported for a pin, or the one at the start. */
  function LastReported(start: Levels, reports: seq<Report>, n: nat, pin: Pin): int
    requires n <= |reports|
  {
    if n == 0 then (if pin == A then start.a else start.b)
    else if reports[n - 1].pin == pin then reports[n - 1].level
    else LastReported(start, reports, n - 1, pin)
  }

  /** Report `k` leaves both pins high and does not follow a report on the same pin. */
  predicate IsStep(start: EncoderState, reports: seq<Report>, k: nat)
    requires k < |reports|
  {
    && LastReported(start.levels, reports, k + 1, A) == 1 && LastReported(start.levels, reports, k + 1, B) == 1
    && (if k == 0 then start.last != EdgeOn(reports[0].pin) else reports[k - 1].pin != reports[k].pin)
  }

  function Steps(start: EncoderState, reports: seq<Report>, n: nat, pin: Pin): set<nat>
    requires n <= |reports|
  {
    set k: nat | k < n && reports[k].pin == pin && IsStep(start, reports, k)
  }

  lemma StepsNext(start: EncoderState, reports: seq<Report>, n: nat, pin: Pin)
    requires 0 < n <= |reports|
    ensures |Steps(start, reports, n, pin)| == |Steps(start, reports, n - 1, pin)|
              + if reports[n - 1].pin == pin && IsStep(start, reports, n - 1) then 1 else 0
  {
    hide IsStep;
    var before := Steps(start, reports, n - 1, pin);
    if reports[n - 1].pin == pin && IsStep(start, reports, n - 1) {
      assert Steps(start, reports, n, pin) == before + {n - 1};
    } else {
      assert Steps(start, reports, n, pin) == before;
    }
  }

  lemma {:induction false} Remembers(start: EncoderState, reports: seq<Report>, n: nat)
    requires n <= |reports|
    ensures var e := Decoded(start, reports, n);
      && e.levels == Levels(LastReported(start.levels, reports, n, A), LastReported(start.levels, reports, n, B))
      && e.last == if n == 0 then start.last else EdgeOn(reports[n - 1].pin)
  {
    if n > 0 {
      Remembers(start, reports, n - 1);
    }
  }

  /** An edge counts, and calls back, exactly when it is a step. */
  lemma CountsSteps(start: EncoderState, reports: seq<Report>, k: nat)
    requires k < |reports|
    ensures Counts(Decoded(start, reports, k), reports[k].pin, reports[k].level) <==> IsStep(start, reports, k)
  {
    Remembers(start, reports, k);
    Remembers(start, reports, k + 1);
    assert Decoded(start, reports, k + 1) == OnLevel(Decoded(start, reports, k), reports[k].pin, reports[k].level);
  }

  /** The counter is the number of steps on pin a less the number of steps on pin b, whatever is reported. */
  lemma {:induction false} CounterOfReports(start: EncoderState, reports: seq<Report>, n: nat)
    requires n <= |reports|
    ensures Decoded(start, reports, n).counter
            == start.counter + |Steps(start, reports, n, A)| - |Steps(start, reports, n, B)|
  {
    if n == 0 {
      assert Steps(start, reports, 0, A) == {} && Steps(start, reports, 0, B) == {};
    } else {
      CounterOfReports(start, reports, n - 1);
      CountsSteps(start, reports, n - 1);
      StepsNext(start, reports, n, A);
      StepsNext(start, reports, n, B);
    }
  }

  /** A new encoder that is sent any reports: what it has counted, and which of them call back. */
  method Listen(a: nat, b: nat, reports: seq<Report>, callback: Callback) returns (counter: int, calls: set<nat>)
    requires a != b && callback != NoCallback
    ensures var start := EncoderState(NoEdge, 0, Levels(1, 1));
      && counter == |Steps(start, reports, |reports|, A)| - |Steps(start, reports, |reports|, B)|
      && calls == set k: nat | k < |reports| && IsStep(start, reports, k)
  {
    hide Counts, OnLevel, IsStep;
    ghost var start := EncoderState(NoEdge, 0, Levels(1, 1));
    var encoder := new Encoder(a, b);
    encoder.SetCallback(callback);
    calls := {};
    for n := 0 to |reports|
      invariant encoder.Valid() && encoder.gpioA == a && encoder.gpioB == b && encoder.callback == callback
      invariant encoder.State() == Decoded(start, reports, n)
      invariant calls == set k: nat | k < n && IsStep(start, reports, k)
      invariant fresh(encoder) && fresh(encoder.states)
    {
      var r := reports[n];
      CountsSteps(start, reports, n);
      var notified := encoder.Interrupt(if r.pin == A then a else b, r.level);
      if notified != NoCallback {
        calls := calls + {n};
      }
    }
    counter := encoder.counter;
    CounterOfReports(start, reports, |reports|);
  }
}
