/** Pan and tilt: two motors, each with its encoder and its goto monitor. */
module PanTiltMotors {
  import opened Encoder

  datatype Axis = Pan | Tilt

  datatype Direction = CCW | CW

  /** One axis: its encoder, the goto it is armed with, and what drives its motor. */
  datatype AxisState = AxisState(encoder: EncoderState, callback: Callback, duty: nat, direction: Direction)

  const GOTO_DUTY := 20

  /** A goto points the motor at the target and arms the encoder. */
  function Started(ax: AxisState, target: int): AxisState {
    AxisState(ax.encoder, Goto(target), GOTO_DUTY, if target < ax.encoder.counter then CCW else CW)
  }

  /** Arrival clears the callback, which owns the monitor that is running; the motor is then stopped through
      that monitor. `survives` tells whether its stop function still works although it has been destroyed. */
  function Arrive(ax: AxisState, survives: bool): AxisState {
    if survives then AxisState(ax.encoder, NoCallback, 0, CW) else ax.(callback := NoCallback)
  }

  /** A level change on one of the axis's pins: when it counts, an armed axis compares its position with the
      target. */
  function OnAxisLevel(ax: AxisState, pin: Pin, level: int, survives: bool): AxisState {
    var next := ax.(encoder := OnLevel(ax.encoder, pin, level));
    if Counts(ax.encoder, pin, level) && ax.callback == Goto(next.encoder.counter) then Arrive(next, survives) else next
  }

  class PanTiltMotors {
    const encoders: seq<Encoder>
    var duties: array<nat>
    var directions: array<Direction>

    ghost predicate Valid()
      reads this, encoders, set e | e in encoders :: e.states
    {
      && |encoders| == 2 && encoders[0] != encoders[1]
      && encoders[0].Valid() && encoders[1].Valid() && encoders[0].states != encoders[1].states
      && duties.Length == 2 && directions.Length == 2
    }

    function Index(axis: Axis): nat {
      if axis == Pan then 0 else 1
    }

    function EncoderOf(axis: Axis): Encoder
      requires |encoders| == 2
    {
      encoders[Index(axis)]
    }

    ghost function State(axis: Axis): AxisState
      reads this, encoders, set e | e in encoders :: e.states, duties, directions
      requires Valid()
    {
      var i := Index(axis);
      AxisState(encoders[i].State(), encoders[i].callback, duties[i], directions[i])
    }

    constructor (panA: nat, panB: nat, tiltA: nat, tiltB: nat)
      requires panA != panB && tiltA != tiltB
      ensures Valid() && fresh(duties) && fresh(directions)
      ensures forall e :: e in encoders ==> fresh(e) && fresh(e.states)
      ensures State(Pan).encoder == State(Tilt).encoder == EncoderState(NoEdge, 0, REST)
      ensures State(Pan).callback == State(Tilt).callback == NoCallback
    {
      var pan := new Encoder(panA, panB);
      var tilt := new Encoder(tiltA, tiltB);
      encoders := [pan, tilt];
      duties := new nat[2](_ => 0);
      directions := new Direction[2](_ => CW);
    }

    method SetMotor(axis: Axis, direction: Direction, duty: nat)
      requires Valid() && duty <= 100
      modifies duties, directions
      ensures Valid() && State(axis) == old(State(axis)).(direction := direction, duty := duty)
      ensures forall other :: other != axis ==> State(other) == old(State(other))
    {
      directions[Index(axis)] := direction;
      duties[Index(axis)] := duty;
    }

    /** Drive one motor; a negative duty turns it counter-clockwise. */
    method Drive(axis: Axis, duty: int)
      requires Valid() && -100 <= duty <= 100
      modifies duties, directions
      ensures Valid()
      ensures State(axis) == old(State(axis)).(direction := if duty < 0 then CCW else CW, duty := if duty < 0 then -duty else duty)
      ensures forall other :: other != axis ==> State(other) == old(State(other))
    {
      SetMotor(axis, if duty < 0 then CCW else CW, if duty < 0 then -duty else duty);
    }

    method SetZero()
      requires Valid()
      modifies encoders
      ensures Valid()
      ensures forall axis :: State(axis) == old(State(axis)).(encoder := old(State(axis)).encoder.(counter := 0))
    {
      encoders[0].Reset();
      encoders[1].Reset();
    }

    /** Send both axes to absolute positions. */
    method GotoPosition(pan: int, tilt: int)
      requires Valid()
      modifies encoders, duties, directions
      ensures Valid()
      ensures State(Pan) == Started(old(State(Pan)), pan)
      ensures State(Tilt) == Started(old(State(Tilt)), tilt)
      ensures forall axis :: var target := if axis == Pan then pan else tilt;
        && State(axis).encoder == old(State(axis)).encoder && State(axis).callback == Goto(target)
        && State(axis).duty == 20 && (State(axis).direction == CCW <==> target < State(axis).encoder.counter)
    {
      var panDirection := if pan < encoders[0].counter then CCW else CW;
      var tiltDirection := if tilt < encoders[1].counter then CCW else CW;
      encoders[0].SetCallback(Goto(pan));
      encoders[1].SetCallback(Goto(tilt));
      SetMotor(Pan, panDirection, GOTO_DUTY);
      SetMotor(Tilt, tiltDirection, GOTO_DUTY);
    }

    /** The goto monitor's callback: on arrival, disarm the encoder and stop the motor. Disarming destroys
        the monitor, so stopping works only if its stop function survives. */
    method Callback(axis: Axis, finalPosition: int, survives: bool)
      requires Valid()
      modifies EncoderOf(axis)`callback, duties, directions
      ensures Valid()
      ensures State(axis) ==
        if old(State(axis)).encoder.counter == finalPosition
        then Arrive(old(State(axis)), survives) else old(State(axis))
      ensures forall other :: other != axis ==> State(other) == old(State(other))
    {
      var encoder := EncoderOf(axis);
      if encoder.counter == finalPosition {
        encoder.SetCallback(NoCallback);
        if survives {
          Drive(axis, 0);
        }
      }
    }

    /** An interrupt on one of the axis's pins, with the callback it triggers. */
    method Interrupt(axis: Axis, pin: Pin, level: int, survives: bool)
      requires Valid()
      modifies EncoderOf(axis), EncoderOf(axis).states, duties, directions
      ensures Valid()
      ensures State(axis) == OnAxisLevel(old(State(axis)), pin, level, survives)
      ensures forall other :: other != axis ==> State(other) == old(State(other))
    {
      var encoder := EncoderOf(axis);
      var notified := encoder.Interrupt(if pin == A then encoder.gpioA else encoder.gpioB, level);
      if notified.Goto? {
        Callback(axis, notified.finalPosition, survives);
      }
    }
  }
}
