/** Every run of interrupts after a goto. */
module GotoRuns {
  import opened Encoder
  import opened PanTiltMotors

  /** A level change, and whether the stop function of a monitor that it destroys would survive. */
  datatype Event = Event(axis: Axis, pin: Pin, level: int, survives: bool)

  datatype Motors = Motors(pan: AxisState, tilt: AxisState)

  function On(m: Motors, axis: Axis): AxisState {
    if axis == Pan then m.pan else m.tilt
  }

  function OnEvent(m: Motors, e: Event): Motors {
    if e.axis == Pan then m.(pan := OnAxisLevel(m.pan, e.pin, e.level, e.survives))
    else m.(tilt := OnAxisLevel(m.tilt, e.pin, e.level, e.survives))
  }

  /** Any interleaving of interrupts of the two axes, with any levels. */
  function After(m: Motors, events: seq<Event>): Motors {
    if events == [] then m else OnEvent(After(m, events[..|events| - 1]), events[|events| - 1])
  }

  /** The axis has been at its target after some of the events. */
  predicate Arrived(m: Motors, events: seq<Event>, axis: Axis, target: int) {
    exists n :: 0 <= n <= |events| && On(After(m, events[..n]), axis).encoder.counter == target
  }

  /** The `n`th event is the first that brings the axis to its target. */
  predicate Arrives(m: Motors, events: seq<Event>, axis: Axis, target: int, n: nat) {
    && 0 < n <= |events|
    && !Arrived(m, events[..n - 1], axis, target)
    && On(After(m, events[..n]), axis).encoder.counter == target
  }

  /** Disarmed, and stopped if the stop function survived; otherwise driven as before. */
  predicate IsDisarmed(ax: AxisState, backwards: bool, survives: bool) {
    ax.callback == NoCallback && (if survives then ax.duty == 0 else ax.duty == 20 && (ax.direction == CCW <==> backwards))
  }

  /** The position is strictly on the side of the target where the axis started. */
  predicate OnStartingSide(start: int, target: int, position: int) {
    if start < target then position < target else position > target
  }

  /** One edge moves an axis by at most one step. */
  lemma OneStep(ax: AxisState, e: Event)
    ensures var next := OnAxisLevel(ax, e.pin, e.level, e.survives).encoder;
      -1 <= next.counter - ax.encoder.counter <= 1 && (next.counter != ax.encoder.counter ==> Counts(ax.encoder, e.pin, e.level))
  {
  }

  /** An axis is disarmed exactly by an event that changes its position to the target it is armed with; no
      other event touches what drives it. */
  lemma OnlyArrivalDisarms(ax: AxisState, e: Event)
    ensures var next := OnAxisLevel(ax, e.pin, e.level, e.survives);
      if next.encoder.counter != ax.encoder.counter && ax.callback == Goto(next.encoder.counter) then
        && next.callback == NoCallback
        && (if e.survives then next.duty == 0 && next.direction == CW else next.duty == ax.duty && next.direction == ax.direction)
      else next.callback == ax.callback && next.duty == ax.duty && next.direction == ax.direction
  {
    OneStep(ax, e);
  }

  /** The `n`th event changes the position of the axis to the target. */
  predicate Reaches(m: Motors, events: seq<Event>, axis: Axis, target: int, n: nat) {
    && 0 < n <= |events|
    && On(After(m, events[..n]), axis).encoder.counter == target
    && On(After(m, events[..n - 1]), axis).encoder.counter != target
  }

  /** After any goto, also one to the position where the axis is: it stays armed and driven exactly until an
      event changes its position to the target. */
  lemma {:induction false} GotoDisarms(m: Motors, axis: Axis, start: AxisState, target: int, events: seq<Event>)
    requires On(m, axis) == Started(start, target)
    ensures var ax := On(After(m, events), axis);
      if exists n: nat :: Reaches(m, events, axis, target, n) then ax.callback == NoCallback
      else ax.callback == Goto(target) && ax.duty == 20 && (ax.direction == CCW <==> target < start.encoder.counter)
  {
    hide OnAxisLevel, Reaches;
    if events == [] {
      NeverReaches(m, axis, target);
    } else {
      var init, e := events[..|events| - 1], events[|events| - 1];
      GotoDisarms(m, axis, start, target, init);
      OnlyArrivalDisarms(On(After(m, init), axis), e);
      ReachesNext(m, events, axis, target);
    }
  }

  lemma NeverReaches(m: Motors, axis: Axis, target: int)
    ensures forall n: nat :: !Reaches(m, [], axis, target, n)
  {
  }

  lemma ReachesNext(m: Motors, events: seq<Event>, axis: Axis, target: int)
    requires events != []
    ensures var init := events[..|events| - 1];
      (exists n: nat :: Reaches(m, events, axis, target, n)) <==>
      (exists n: nat :: Reaches(m, init, axis, target, n))
      || (On(After(m, events), axis).encoder.counter == target && On(After(m, init), axis).encoder.counter != target)
  {
    hide After;
    var init := events[..|events| - 1];
    assert events[..|events|] == events;
    forall n: nat | 0 < n < |events|
      ensures Reaches(m, init, axis, target, n) <==> Reaches(m, events, axis, target, n)
    {
      assert init[..n] == events[..n] && init[..n - 1] == events[..n - 1];
    }
    if On(After(m, events), axis).encoder.counter == target && On(After(m, init), axis).encoder.counter != target {
      assert Reaches(m, events, axis, target, |events|);
    }
    forall n: nat | Reaches(m, events, axis, target, n)
      ensures Reaches(m, init, axis, target, n) || n == |events|
    {
    }
  }

  lemma ArrivedNext(m: Motors, events: seq<Event>, axis: Axis, target: int)
    requires events != []
    ensures Arrived(m, events, axis, target) <==>
            Arrived(m, events[..|events| - 1], axis, target) || On(After(m, events), axis).encoder.counter == target
  {
    var init := events[..|events| - 1];
    assert events[..|events|] == events;
    assert forall n :: 0 <= n <= |init| ==> init[..n] == events[..n];
    if Arrived(m, init, axis, target) {
      var n :| 0 <= n <= |init| && On(After(m, init[..n]), axis).encoder.counter == target;
      assert On(After(m, events[..n]), axis).encoder.counter == target;
    }
    if n :| 0 <= n <= |events| && On(After(m, events[..n]), axis).encoder.counter == target {
      assert n < |events| ==> On(After(m, init[..n]), axis).encoder.counter == target;
    }
  }

  /** Goto never skips its target: while an axis has not been at the target it stays armed, driven towards
      the target from where it is, and strictly on its starting side; from the event that brings it to the target on, it is disarmed, and its
      duty stays 0 if the stop function survived its monitor then, and otherwise the axis is driven on for
      ever. The other axis's events make no difference. */
  lemma {:induction false} GotoStops(m: Motors, axis: Axis, start: AxisState, target: int, events: seq<Event>)
    requires On(m, axis) == Started(start, target) && target != start.encoder.counter
    ensures var ax := On(After(m, events), axis);
      if Arrived(m, events, axis, target) then
        exists n: nat :: Arrives(m, events, axis, target, n) && IsDisarmed(ax, target < start.encoder.counter, events[n - 1].survives)
      else
        && ax.callback == Goto(target) && ax.duty == 20 && (ax.direction == CCW <==> target < ax.encoder.counter)
        && OnStartingSide(start.encoder.counter, target, ax.encoder.counter)
  {
    hide OnAxisLevel, IsDisarmed, Arrived;
    if events == [] {
      NotArrived(m, axis, start, target);
    } else {
      var init, e := events[..|events| - 1], events[|events| - 1];
      GotoStops(m, axis, start, target, init);
      ArrivedNext(m, events, axis, target);
      if Arrived(m, init, axis, target) {
        var n: nat :| Arrives(m, init, axis, target, n)
                      && IsDisarmed(On(After(m, init), axis), target < start.encoder.counter, init[n - 1].survives);
        DisarmedNext(On(After(m, init), axis), target < start.encoder.counter, init[n - 1].survives, e);
        assert init[..n] == events[..n] && init[..n - 1] == events[..n - 1];
        assert Arrives(m, events, axis, target, n);
      } else {
        ArmedNext(On(After(m, init), axis), start, target, e);
        assert events[..|events|] == events;
        assert Arrived(m, events, axis, target) ==> Arrives(m, events, axis, target, |events|);
      }
    }
  }

  lemma NotArrived(m: Motors, axis: Axis, start: AxisState, target: int)
    requires On(m, axis) == Started(start, target) && target != start.encoder.counter
    ensures !Arrived(m, [], axis, target) && OnStartingSide(start.encoder.counter, target, On(m, axis).encoder.counter)
  {
    var none: seq<Event> := [];
    assert forall n :: 0 <= n <= |none| ==> none[..n] == none;
  }

  /** One event of a disarmed axis. */
  lemma DisarmedNext(ax: AxisState, backwards: bool, survives: bool, e: Event)
    requires IsDisarmed(ax, backwards, survives)
    ensures IsDisarmed(OnAxisLevel(ax, e.pin, e.level, e.survives), backwards, survives)
  {
  }

  /** One event of an armed axis. */
  lemma ArmedNext(ax: AxisState, start: AxisState, target: int, e: Event)
    requires ax.callback == Goto(target) && ax.duty == 20 && (ax.direction == CCW <==> target < start.encoder.counter)
    requires OnStartingSide(start.encoder.counter, target, ax.encoder.counter)
    ensures var next := OnAxisLevel(ax, e.pin, e.level, e.survives);
      if next.encoder.counter == target then IsDisarmed(next, target < start.encoder.counter, e.survives)
      else next.(encoder := ax.encoder) == ax && OnStartingSide(start.encoder.counter, target, next.encoder.counter)
  {
    OneStep(ax, e);
  }

  ghost predicate AllSurvive(events: seq<Event>) {
    forall i :: 0 <= i < |events| ==> events[i].survives
  }

  /** An axis is never driven while it is at its target, in any run in which the stop functions survive,
      exactly when the goto does not start at the target. */
  lemma NeverDrivenAtTarget(m: Motors, axis: Axis, start: AxisState, target: int)
    requires On(m, axis) == Started(start, target)
    ensures (forall events :: AllSurvive(events) && On(After(m, events), axis).encoder.counter == target ==> On(After(m, events), axis).duty == 0)
            <==> target != start.encoder.counter
  {
    if target == start.encoder.counter {
      assert After(m, []) == m && AllSurvive([]);
    } else {
      forall events | AllSurvive(events) && On(After(m, events), axis).encoder.counter == target
        ensures On(After(m, events), axis).duty == 0
      {
        assert events[..|events|] == events;
        GotoStops(m, axis, start, target, events);
      }
    }
  }

  /** The events of one axis. */
  function Own(events: seq<Event>, axis: Axis): seq<Event> {
    if events == [] then []
    else
      var e := events[|events| - 1];
      Own(events[..|events| - 1], axis) + if e.axis == axis then [e] else []
  }

  /** The axes are independent: what happens to one is what its own events alone would do. */
  lemma {:induction false} Independent(m: Motors, events: seq<Event>, axis: Axis)
    ensures On(After(m, events), axis) == On(After(m, Own(events, axis)), axis)
  {
    if events != [] {
      var init, e := events[..|events| - 1], events[|events| - 1];
      Independent(m, init, axis);
      var own := Own(events, axis);
      if e.axis == axis {
        assert own == Own(init, axis) + [e] && own[..|own| - 1] == Own(init, axis);
      } else {
        assert own == Own(init, axis);
      }
    }
  }
}
