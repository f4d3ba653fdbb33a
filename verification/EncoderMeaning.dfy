/** What the encoder's counter means, over any sequence of single edges that starts at rest. */
module EncoderMeaning {
  import opened Encoder

  /** The four positions of a quadrature cycle, by which pins are low. */
  datatype Phase = Rest | ALow | BLow | BothLow

  function Pins(phase: Phase): Levels {
    match phase
    case Rest => Levels(1, 1)
    case ALow => Levels(0, 1)
    case BLow => Levels(1, 0)
    case BothLow => Levels(0, 0)
  }

  function Toggled(phase: Phase, pin: Pin): Phase {
    match phase
    case Rest => if pin == A then ALow else BLow
    case ALow => if pin == A then Rest else BothLow
    case BLow => if pin == A then BothLow else Rest
    case BothLow => if pin == A then BLow else ALow
  }

  /** Toggling a pin changes its level and not the other's. */
  lemma TogglesOnePin(phase: Phase, pin: Pin)
    ensures Pins(Toggled(phase, pin)) == WithLevel(Pins(phase), pin, 1 - LevelOf(Pins(phase), pin))
  {
  }

  function LevelOf(l: Levels, pin: Pin): int {
    if pin == A then l.a else l.b
  }

  /** The phase after the first `n` edges, from rest. */
  function PhaseAt(edges: seq<Pin>, n: nat): Phase
    requires n <= |edges|
  {
    if n == 0 then Rest else Toggled(PhaseAt(edges, n - 1), edges[n - 1])
  }

  /** The decoder after the first `n` edges, from a state at rest. */
  function Decode(start: EncoderState, edges: seq<Pin>, n: nat): EncoderState
    requires n <= |edges|
  {
    if n == 0 then start
    else OnLevel(Decode(start, edges, n - 1), edges[n - 1], LevelOf(Pins(PhaseAt(edges, n)), edges[n - 1]))
  }

  /** Away from rest since the first edge. */
  predicate Away(x: seq<Pin>, n: nat)
    requires n <= |x| + 1
  {
    forall k :: 0 < k < n ==> PhaseAt(x, k) != Rest
  }

  /** An excursion leaves rest and ends with the first return to rest. */
  predicate Excursion(x: seq<Pin>) {
    x != [] && Away(x, |x|) && PhaseAt(x, |x|) == Rest
  }

  predicate VisitsBothLow(x: seq<Pin>) {
    exists k :: 0 < k < |x| && PhaseAt(x, k) == BothLow
  }

  /** An excursion that never has both pins low is bounce and counts nothing; otherwise the way it comes back
      decides: +1 from pin a low and pin b high, -1 from pin a high and pin b low. */
  function Value(x: seq<Pin>): int
    requires Excursion(x)
  {
    if !VisitsBothLow(x) then 0
    else if PhaseAt(x, |x| - 1) == ALow then 1
    else -1
  }

  /** The completed excursions, in order, and the one under way. */
  datatype History = History(completed: seq<seq<Pin>>, current: seq<Pin>)

  function Excursions(edges: seq<Pin>, n: nat): (h: History)
    requires n <= |edges|
  {
    if n == 0 then History([], [])
    else
      var h := Excursions(edges, n - 1);
      var x := h.current + [edges[n - 1]];
      if PhaseAt(edges, n) == Rest then History(h.completed + [x], []) else History(h.completed, x)
  }

  predicate AllExcursions(xs: seq<seq<Pin>>) {
    forall i :: 0 <= i < |xs| ==> Excursion(xs[i])
  }

  function Flatten(xs: seq<seq<Pin>>): seq<Pin> {
    if xs == [] then [] else Flatten(xs[..|xs| - 1]) + xs[|xs| - 1]
  }

  function Total(xs: seq<seq<Pin>>): int
    requires AllExcursions(xs)
  {
    if xs == [] then 0 else Total(xs[..|xs| - 1]) + Value(xs[|xs| - 1])
  }

  lemma {:induction false} PhaseOfPrefix(x: seq<Pin>, pin: Pin, n: nat)
    requires n <= |x|
    ensures PhaseAt(x + [pin], n) == PhaseAt(x, n)
  {
    if n > 0 {
      PhaseOfPrefix(x, pin, n - 1);
    }
  }

  lemma OneMore(x: seq<Pin>, pin: Pin)
    requires Away(x, |x|) && (x == [] || PhaseAt(x, |x|) != Rest)
    ensures PhaseAt(x + [pin], |x| + 1) == Toggled(PhaseAt(x, |x|), pin)
    ensures Away(x + [pin], |x| + 1)
  {
    PhaseOfPrefix(x, pin, |x|);
    forall k | 0 < k < |x| + 1
      ensures PhaseAt(x + [pin], k) != Rest
    {
      PhaseOfPrefix(x, pin, k);
    }
  }

  /** What is known of the excursion under way: it left rest and is where the shaft is. */
  predicate UnderWay(x: seq<Pin>, phase: Phase) {
    Away(x, |x|) && PhaseAt(x, |x|) == phase && (x != [] <==> phase != Rest)
  }

  /** The history cuts the edges at the returns to rest. */
  lemma {:induction false} ExcursionsSplit(edges: seq<Pin>, n: nat)
    requires n <= |edges|
    ensures AllExcursions(Excursions(edges, n).completed)
    ensures UnderWay(Excursions(edges, n).current, PhaseAt(edges, n))
  {
    if n > 0 {
      ExcursionsSplit(edges, n - 1);
      OneMore(Excursions(edges, n - 1).current, edges[n - 1]);
    }
  }

  lemma FlattenNone()
    ensures Flatten([]) == []
  {
  }

  lemma FlattenNext(xs: seq<seq<Pin>>, x: seq<Pin>)
    ensures Flatten(xs + [x]) == Flatten(xs) + x
  {
    assert (xs + [x])[..|xs|] == xs;
  }

  /** The history is all the edges, in order. */
  lemma {:induction false} HistoryIsComplete(edges: seq<Pin>, n: nat)
    requires n <= |edges|
    ensures var h := Excursions(edges, n); edges[..n] == Flatten(h.completed) + h.current
  {
    hide PhaseAt, Flatten;
    FlattenNone();
    if n > 0 {
      HistoryIsComplete(edges, n - 1);
      HistoryNext(edges, n);
      var h, e := Excursions(edges, n - 1), edges[n - 1];
      assert edges[..n] == edges[..n - 1] + [e];
      Associate(Flatten(h.completed), h.current, [e]);
    }
  }

  lemma HistoryNext(edges: seq<Pin>, n: nat)
    requires 0 < n <= |edges|
    ensures var h, h' := Excursions(edges, n - 1), Excursions(edges, n);
      Flatten(h'.completed) + h'.current == Flatten(h.completed) + (h.current + [edges[n - 1]])
  {
    hide PhaseAt, Flatten;
    var h := Excursions(edges, n - 1);
    var x := h.current + [edges[n - 1]];
    FlattenNext(h.completed, x);
    assert Flatten(h.completed + [x]) + [] == Flatten(h.completed) + x;
  }

  lemma Associate(a: seq<Pin>, b: seq<Pin>, c: seq<Pin>)
    ensures (a + b) + c == a + (b + c)
  {
  }

  /** The last two edges of an excursion tell whether it had both pins low. */
  lemma LastTwoEdges(x: seq<Pin>)
    requires Excursion(x)
    ensures |x| >= 2
    ensures VisitsBothLow(x) <==> x[|x| - 2] != x[|x| - 1]
    ensures PhaseAt(x, |x| - 1) == if x[|x| - 1] == A then ALow else BLow
  {
    var n := |x|;
    assert PhaseAt(x, n) == Toggled(PhaseAt(x, n - 1), x[n - 1]);
    assert n >= 2;
    assert PhaseAt(x, n - 1) == Toggled(PhaseAt(x, n - 2), x[n - 2]);
    if x[n - 2] != x[n - 1] {
      assert PhaseAt(x, n - 2) == BothLow;
    } else {
      assert PhaseAt(x, n - 2) == Rest;
    }
  }

  lemma ExcursionValue(x: seq<Pin>)
    requires Excursion(x)
    ensures |x| >= 2 && Value(x) == if x[|x| - 2] != x[|x| - 1] then Increment(x[|x| - 1]) else 0
  {
    LastTwoEdges(x);
  }

  /** The decoder's view of one edge. */
  lemma EdgeStep(e: EncoderState, phase: Phase, pin: Pin)
    requires e.levels == Pins(phase)
    ensures var next := Toggled(phase, pin);
            OnLevel(e, pin, LevelOf(Pins(next), pin))
            == EncoderState(EdgeOn(pin), e.counter + (if next == Rest && e.last != EdgeOn(pin) then Increment(pin) else 0), Pins(next))
  {
    TogglesOnePin(phase, pin);
  }

  /** The excursion under way consists of the latest edges. */
  lemma {:induction false} CurrentEndsWith(edges: seq<Pin>, n: nat)
    requires n <= |edges|
    ensures var x := Excursions(edges, n).current;
      |x| <= n && (x != [] ==> x[|x| - 1] == edges[n - 1])
  {
    if n > 0 {
      CurrentEndsWith(edges, n - 1);
    }
  }

  /** A return to rest completes an excursion. */
  lemma ReturnCompletes(edges: seq<Pin>, n: nat)
    requires 0 < n <= |edges| && PhaseAt(edges, n) == Rest
    ensures var h := Excursions(edges, n - 1);
            var x := h.current + [edges[n - 1]];
            var completed := Excursions(edges, n).completed;
            && AllExcursions(h.completed) && Excursion(x) && AllExcursions(completed)
            && completed != [] && completed[..|completed| - 1] == h.completed && completed[|completed| - 1] == x
  {
    ExcursionsSplit(edges, n - 1);
    ExcursionsSplit(edges, n);
    var completed := Excursions(edges, n).completed;
    assert Excursion(completed[|completed| - 1]);
  }

  /** A return to rest counts the value of the excursion it completes. */
  lemma ReturnCounts(edges: seq<Pin>, n: nat)
    requires 0 < n <= |edges| && PhaseAt(edges, n) == Rest
    ensures n > 1 && AllExcursions(Excursions(edges, n).completed) && AllExcursions(Excursions(edges, n - 1).completed)
    ensures Total(Excursions(edges, n).completed)
            == Total(Excursions(edges, n - 1).completed) + if edges[n - 2] != edges[n - 1] then Increment(edges[n - 1]) else 0
  {
    ReturnCompletes(edges, n);
    CurrentEndsWith(edges, n - 1);
    ExcursionValue(Excursions(edges, n - 1).current + [edges[n - 1]]);
  }

  /** The exact meaning of the counter: the sum over the completed excursions of their values. Contact bounce
      of any length counts nothing, and neither does the excursion under way. */
  lemma {:induction false} CounterMeaning(start: EncoderState, edges: seq<Pin>, n: nat)
    requires start.levels == REST && n <= |edges|
    ensures AllExcursions(Excursions(edges, n).completed)
    ensures Decode(start, edges, n).counter == start.counter + Total(Excursions(edges, n).completed)
    ensures Decode(start, edges, n).levels == Pins(PhaseAt(edges, n))
    ensures n > 0 ==> Decode(start, edges, n).last == EdgeOn(edges[n - 1])
  {
    ExcursionsSplit(edges, n);
    if n > 0 {
      CounterMeaning(start, edges, n - 1);
      EdgeStep(Decode(start, edges, n - 1), PhaseAt(edges, n - 1), edges[n - 1]);
      if PhaseAt(edges, n) == Rest {
        ReturnCounts(edges, n);
      }
    }
  }

  /** +1 for an edge that goes round the cycle with pin b falling first, -1 for the other way round. */
  function Direction(phase: Phase, pin: Pin): int {
    match phase
    case Rest => if pin == B then 1 else -1
    case BLow => if pin == A then 1 else -1
    case BothLow => if pin == B then 1 else -1
    case ALow => if pin == A then 1 else -1
  }

  /** The signed number of edges travelled. */
  function Travel(edges: seq<Pin>, n: nat): int
    requires n <= |edges|
  {
    if n == 0 then 0 else Travel(edges, n - 1) + Direction(PhaseAt(edges, n - 1), edges[n - 1])
  }

  /** An excursion that has both pins low and then comes back on the side where it started. */
  predicate BacksOut(x: seq<Pin>)
    requires Excursion(x)
  {
    VisitsBothLow(x) && x[0] == x[|x| - 1]
  }

  /** How often excursions back out with pin a rising last, less how often they do with pin b. */
  function BackOuts(xs: seq<seq<Pin>>): int
    requires AllExcursions(xs)
  {
    if xs == [] then 0
    else
      var x := xs[|xs| - 1];
      BackOuts(xs[..|xs| - 1]) + if BacksOut(x) then Increment(x[|x| - 1]) else 0
  }

  /** How far round the cycle the shaft is, once it has left rest with `first`. */
  function Position(first: Pin, phase: Phase): int {
    match phase
    case Rest => 0
    case BothLow => if first == B then 2 else -2
    case BLow => if first == B then 1 else -3
    case ALow => if first == B then 3 else -1
  }

  lemma {:induction false} AwayTravel(x: seq<Pin>, n: nat)
    requires 0 < n <= |x| && Away(x, n + 1)
    ensures PhaseAt(x, n) != Rest && Travel(x, n) == Position(x[0], PhaseAt(x, n))
  {
    assert PhaseAt(x, n) == Toggled(PhaseAt(x, n - 1), x[n - 1]);
    if n == 1 {
      assert PhaseAt(x, 0) == Rest && Travel(x, 0) == 0;
    } else {
      AwayTravel(x, n - 1);
    }
  }

  /** One excursion: four times its value is the way travelled, unless it backs out. */
  lemma ExcursionTravel(x: seq<Pin>)
    requires Excursion(x)
    ensures 4 * Value(x) == Travel(x, |x|) + 4 * if BacksOut(x) then Increment(x[|x| - 1]) else 0
  {
    LastTwoEdges(x);
    AwayTravel(x, |x| - 1);
    if |x| == 2 {
      assert PhaseAt(x, 1) == Toggled(PhaseAt(x, 0), x[0]);
    } else {
      FirstStaysAway(x);
    }
  }

  /** An excursion of more than two edges has both pins low. */
  lemma FirstStaysAway(x: seq<Pin>)
    requires Excursion(x) && |x| > 2
    ensures VisitsBothLow(x)
  {
    assert PhaseAt(x, 0) == Rest;
    assert PhaseAt(x, 1) == Toggled(Rest, x[0]);
    assert PhaseAt(x, 2) == Toggled(PhaseAt(x, 1), x[1]);
    assert PhaseAt(x, 2) == BothLow;
  }

  lemma {:induction false} TravelOfPrefix(x: seq<Pin>, pin: Pin, n: nat)
    requires n <= |x|
    ensures Travel(x + [pin], n) == Travel(x, n)
  {
    if n > 0 {
      TravelOfPrefix(x, pin, n - 1);
      PhaseOfPrefix(x, pin, n - 1);
    }
  }

  lemma TravelOneMore(x: seq<Pin>, pin: Pin)
    ensures Travel(x + [pin], |x| + 1) == Travel(x, |x|) + Direction(PhaseAt(x, |x|), pin)
  {
    TravelOfPrefix(x, pin, |x|);
    PhaseOfPrefix(x, pin, |x|);
  }

  /** Four times the sum of the values, corrected for the excursions that back out. */
  function Covered(xs: seq<seq<Pin>>): int
    requires AllExcursions(xs)
  {
    4 * Total(xs) - 4 * BackOuts(xs)
  }

  lemma CoveredNext(xs: seq<seq<Pin>>)
    requires AllExcursions(xs) && xs != []
    ensures AllExcursions(xs[..|xs| - 1])
    ensures Covered(xs) == Covered(xs[..|xs| - 1]) + Travel(xs[|xs| - 1], |xs[|xs| - 1]|)
  {
    ExcursionTravel(xs[|xs| - 1]);
  }

  lemma TravelReturns(edges: seq<Pin>, n: nat)
    requires 0 < n <= |edges| && PhaseAt(edges, n) == Rest
    ensures var h := Excursions(edges, n - 1);
      && AllExcursions(h.completed) && AllExcursions(Excursions(edges, n).completed)
      && Covered(Excursions(edges, n).completed)
         == Covered(h.completed) + Travel(h.current, |h.current|) + Direction(PhaseAt(edges, n - 1), edges[n - 1])
  {
    hide Covered, Excursion, Travel;
    ReturnCompletes(edges, n);
    ExcursionsSplit(edges, n - 1);
    var h := Excursions(edges, n - 1);
    var x := h.current + [edges[n - 1]];
    CoveredNext(Excursions(edges, n).completed);
    TravelOneMore(h.current, edges[n - 1]);
    assert Travel(x, |x|) == Travel(h.current, |h.current|) + Direction(PhaseAt(edges, n - 1), edges[n - 1]);
  }

  lemma TravelContinues(edges: seq<Pin>, n: nat)
    requires 0 < n <= |edges| && PhaseAt(edges, n) != Rest
    ensures var h, h' := Excursions(edges, n - 1), Excursions(edges, n);
      && h'.completed == h.completed
      && Travel(h'.current, |h'.current|)
         == Travel(h.current, |h.current|) + Direction(PhaseAt(edges, n - 1), edges[n - 1])
  {
    ExcursionsSplit(edges, n - 1);
    TravelOneMore(Excursions(edges, n - 1).current, edges[n - 1]);
  }

  lemma {:induction false} TravelMeaning(edges: seq<Pin>, n: nat)
    requires n <= |edges|
    ensures AllExcursions(Excursions(edges, n).completed)
    ensures var h := Excursions(edges, n);
      Travel(edges, n) == Covered(h.completed) + Travel(h.current, |h.current|)
  {
    if n > 0 {
      TravelMeaning(edges, n - 1);
      if PhaseAt(edges, n) == Rest {
        TravelReturns(edges, n);
      } else {
        TravelContinues(edges, n);
      }
    }
  }

  /** Displacement: whenever the shaft rests, four times the counter differs from the signed number of edges
      travelled exactly by the excursions that backed out; so it is the displacement if and only if the
      back-outs on the two sides balance, in particular if there are none. Wobble in between is allowed. */
  lemma {:induction false} Displacement(start: EncoderState, edges: seq<Pin>, n: nat)
    requires start.levels == REST && n <= |edges| && PhaseAt(edges, n) == Rest
    ensures AllExcursions(Excursions(edges, n).completed)
    ensures var counted := Decode(start, edges, n).counter - start.counter;
      && 4 * counted == Travel(edges, n) + 4 * BackOuts(Excursions(edges, n).completed)
      && (4 * counted == Travel(edges, n) <==> BackOuts(Excursions(edges, n).completed) == 0)
  {
    CounterMeaning(start, edges, n);
    TravelMeaning(edges, n);
    ExcursionsSplit(edges, n);
  }

  lemma {:induction false} NoBackOuts(xs: seq<seq<Pin>>)
    requires AllExcursions(xs) && forall i :: 0 <= i < |xs| ==> !BacksOut(xs[i])
    ensures BackOuts(xs) == 0
  {
    if xs != [] {
      NoBackOuts(xs[..|xs| - 1]);
    }
  }

  /** The displacement is off by a full cycle when the shaft turns half a cycle and comes back the same way. */
  lemma BackOutMiscounts(start: EncoderState)
    requires start.levels == REST
    ensures Travel([B, A, A, B], 4) == 0 && PhaseAt([B, A, A, B], 4) == Rest
    ensures Decode(start, [B, A, A, B], 4).counter == start.counter - 1
  {
    var x := [B, A, A, B];
    assert PhaseAt(x, 0) == Rest && PhaseAt(x, 1) == BLow;
    assert PhaseAt(x, 2) == BothLow && PhaseAt(x, 3) == BLow;
    assert Travel(x, 0) == 0 && Travel(x, 1) == 1;
    assert Travel(x, 2) == 2 && Travel(x, 3) == 1;
    assert Decode(start, x, 0) == start;
    assert Decode(start, x, 1) == EncoderState(EdgeOn(B), start.counter, Pins(BLow));
    assert Decode(start, x, 2) == EncoderState(EdgeOn(A), start.counter, Pins(BothLow));
    assert Decode(start, x, 3) == EncoderState(EdgeOn(A), start.counter, Pins(BLow));
  }
}
