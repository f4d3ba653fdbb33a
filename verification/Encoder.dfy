/** The rotary encoder: an edge decoder that counts steps and ignores contact bounce. */
module Encoder {

  datatype Pin = A | B

  /** The levels of the two pins; both are high when the shaft rests in a detent. */
  datatype Levels = Levels(a: int, b: int)

  const REST := Levels(1, 1)
  const BOTH_LOW := Levels(0, 0)

  datatype LastEdge = NoEdge | EdgeOn(pin: Pin)

  datatype EncoderState = EncoderState(last: LastEdge, counter: int, levels: Levels)

  function WithLevel(l: Levels, pin: Pin, level: int): Levels {
    if pin == A then l.(a := level) else l.(b := level)
  }

  /** An edge counts when it brings both pins high and the previous edge was on the other pin. */
  predicate Counts(e: EncoderState, pin: Pin, level: int) {
    e.last != EdgeOn(pin) && WithLevel(e.levels, pin, level) == REST
  }

  function Increment(pin: Pin): int {
    if pin == A then 1 else -1
  }

  function OnLevel(e: EncoderState, pin: Pin, level: int): EncoderState {
    EncoderState(EdgeOn(pin), e.counter + (if Counts(e, pin, level) then Increment(pin) else 0), WithLevel(e.levels, pin, level))
  }

  /** What a goto leaves in the encoder: the target it waits for. */
  datatype Callback = NoCallback | Goto(finalPosition: int)

  class Encoder {
    const gpioA: nat
    const gpioB: nat
    var lastGpio: int
    var counter: int
    var states: array<int>
    var callback: Callback

    ghost predicate Valid()
      reads this
    {
      states.Length == 2 && gpioA != gpioB && (lastGpio == -1 || lastGpio == gpioA || lastGpio == gpioB)
    }

    ghost function State(): EncoderState
      reads this, states
      requires Valid()
    {
      EncoderState(if lastGpio == -1 then NoEdge else EdgeOn(PinOf(lastGpio)), counter, Levels(states[0], states[1]))
    }

    ghost function PinOf(gpio: int): Pin {
      if gpio == gpioB then B else A
    }

    /** The two channels are wired to different pins. */
    constructor (a: nat, b: nat)
      requires a != b
      ensures Valid() && fresh(states) && gpioA == a && gpioB == b
      ensures State() == EncoderState(NoEdge, 0, REST) && callback == NoCallback
    {
      gpioA, gpioB := a, b;
      lastGpio := -1;
      counter := 0;
      states := new int[2](_ => 1);
      callback := NoCallback;
    }

    method SetCallback(callback: Callback)
      modifies this`callback
      ensures this.callback == callback
    {
      this.callback := callback;
    }

    method Reset()
      requires Valid()
      modifies this`counter
      ensures Valid() && State() == old(State()).(counter := 0)
    {
      counter := 0;
    }

    /** A level change on one of the pins. The result is the callback to run, if the edge counts. */
    method Interrupt(gpio: int, level: int) returns (notified: Callback)
      requires Valid() && (gpio == gpioA || gpio == gpioB)
      modifies this`lastGpio, this`counter, states
      ensures Valid() && State() == OnLevel(old(State()), PinOf(gpio), level)
      ensures notified == if Counts(old(State()), PinOf(gpio), level) then callback else NoCallback
    {
      notified := NoCallback;
      var gpioIndex := if gpio == gpioB then 1 else 0;
      states[gpioIndex] := level;
      if gpio != lastGpio && 1 == states[0] && 1 == states[1] {
        var increment := if gpioIndex == 0 then 1 else -1;
        counter := counter + increment;
        notified := callback;
      }
      lastGpio := gpio;
    }
  }
}
