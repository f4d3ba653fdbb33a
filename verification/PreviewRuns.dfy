/** Runs of the two threads: what every reachable state satisfies, why the threads neither deadlock nor
    spin, what has been displayed when they are done, and whom stop() reaches. */
module PreviewRuns {
  import opened Datagrams
  import opened FrameSpec
  import opened FrameRuns
  import opened Reassembly
  import opened PreviewBuffers

  /** The actions `run` lead from one state to another. */
  ghost predicate Leads(stream: seq<Datagram>, st: State, run: seq<Action>, st': State)
    decreases run
  {
    if run == [] then st' == st
    else
      && Shape(st) && st.callStart <= st.pos && Enabled(stream, st, run[0])
      && Leads(stream, Next(stream, st, run[0]), run[1..], st')
  }

  ghost predicate Reachable(stream: seq<Datagram>, st: State) {
    Acceptable(stream) && exists run :: Leads(stream, Init(), run, st)
  }

  lemma {:induction false} LeadsSnoc(stream: seq<Datagram>, st: State, run: seq<Action>, st': State, a: Action)
    requires Leads(stream, st, run, st') && Shape(st') && st'.callStart <= st'.pos && Enabled(stream, st', a)
    ensures Leads(stream, st, run + [a], Next(stream, st', a))
    decreases run
  {
    if run == [] {
      assert (run + [a])[1..] == [];
    } else {
      LeadsSnoc(stream, Next(stream, st, run[0]), run[1..], st', a);
      assert (run + [a])[1..] == run[1..] + [a];
    }
  }

  lemma ReachableNext(stream: seq<Datagram>, st: State, a: Action)
    requires Reachable(stream, st) && Shape(st) && st.callStart <= st.pos && Enabled(stream, st, a)
    ensures Reachable(stream, Next(stream, st, a))
  {
    var run :| Leads(stream, Init(), run, st);
    LeadsSnoc(stream, Init(), run, st, a);
  }

  lemma {:induction false} RunInv(stream: seq<Datagram>, st: State, run: seq<Action>, st': State)
    requires Inv(stream, st) && Leads(stream, st, run, st')
    ensures Inv(stream, st')
    decreases run
  {
    if run != [] {
      NextInv(stream, st, run[0]);
      RunInv(stream, Next(stream, st, run[0]), run[1..], st');
    }
  }

  lemma ReachableInv(stream: seq<Datagram>, st: State)
    requires Reachable(stream, st)
    ensures Inv(stream, st)
  {
    var run :| Leads(stream, Init(), run, st);
    InitInv(stream);
    RunInv(stream, Init(), run, st);
  }

  /** Two slots, every interleaving: the slots are used in turn, at most two images wait, a slot is full
      exactly when it holds an image numbered from `c` (displayed) to `p` (read), and it holds that image whole. */
  lemma TwoSlots(stream: seq<Datagram>, st: State)
    requires Reachable(stream, st)
    ensures Shape(st)
    ensures var p, c := Fills(st), Displays(st);
      && 0 <= c <= p <= c + 2
      && (HandedOver(st.reader) == 0 ==> st.reader.index == p % 2)
      && (HandedOver(st.setter) == 0 ==> st.setter.index == c % 2)
      && (forall i :: 0 <= i < 2 ==> (!st.empty[i] <==> exists n :: c <= n < p && Slot(n) == i))
      && (forall n :: c <= n < p ==> st.buffers[Slot(n)] == st.filled[n] && st.filled[n].Whole?)
  {
    ReachableInv(stream, st);
    FullSlots(st);
    FilledWhole(stream, st);
  }

  lemma FullSlot(st: State, i: nat)
    requires Shape(st) && Slots(st) && i < 2
    ensures !st.empty[i] <==> exists n :: Displays(st) <= n < Fills(st) && Slot(n) == i
  {
    var p, c := Fills(st), Displays(st);
    Parity(c);
    if c < p && i == Slot(c) {
      assert c <= c < p && Slot(c) == i;
    } else if c + 1 < p && i == Slot(c + 1) {
      assert c <= c + 1 < p && Slot(c + 1) == i;
    }
  }

  lemma FullSlots(st: State)
    requires Shape(st) && Slots(st)
    ensures forall i :: 0 <= i < 2 ==> (!st.empty[i] <==> exists n :: Displays(st) <= n < Fills(st) && Slot(n) == i)
    ensures forall n :: Displays(st) <= n < Fills(st) ==> st.buffers[Slot(n)] == st.filled[n]
  {
    FullSlot(st, 0);
    FullSlot(st, 1);
  }

  lemma FilledWhole(stream: seq<Datagram>, st: State)
    requires Inv(stream, st)
    ensures forall n :: 0 <= n < |st.filled| ==> st.filled[n].Whole?
  {
    if st.reader.pc == Publishing {
      var all := st.filled + [st.buffers[st.reader.index]];
      assert forall n :: 0 <= n < |st.filled| ==> st.filled[n] == all[n];
    }
  }

  lemma {:induction false} FramesPrefix(s: seq<Datagram>, n: nat)
    requires n <= |s|
    ensures Frames(s[..n]) <= Frames(s)
    decreases |s|
  {
    if n == |s| {
      assert s[..n] == s;
    } else {
      var t := s[..|s| - 1];
      FramesPrefix(t, n);
      assert t[..n] == s[..n];
    }
  }

  lemma WholesPrefix(a: seq<Image>, b: seq<Image>)
    requires a <= b
    ensures Wholes(a) <= Wholes(b)
  {
  }

  /** What is set in the GUI is always a prefix of the frames of the received stream: every image once,
      in order, none skipped and none half-written. */
  lemma DisplaysFrames(stream: seq<Datagram>, st: State)
    requires Reachable(stream, st)
    ensures st.displayed <= Wholes(Frames(stream))
  {
    ReachableInv(stream, st);
    var n := if st.reader.pc == Working then st.callStart else st.pos;
    FramesPrefix(stream, n);
    WholesPrefix(Frames(stream[..n]), Frames(stream));
    assert st.displayed <= st.filled;
    assert st.filled <= Wholes(Frames(stream[..n]));
  }

  /** notify_one is enough: the threads are never both asleep, and while a slot's mutex is free no thread
      sleeps on it although what it waits for holds. */
  lemma NotifyOneSuffices(stream: seq<Datagram>, st: State)
    requires Reachable(stream, st)
    ensures Shape(st)
    ensures !(st.reader.pc == Asleep && st.setter.pc == Asleep)
    ensures forall t: Thread :: At(st, t).pc == Asleep && st.locks[At(st, t).index] == Free ==> !Ready(st, t)
  {
    ReachableInv(stream, st);
    Parity(Fills(st));
    Parity(Displays(st));
    forall t: Thread | At(st, t).pc == Asleep && st.locks[At(st, t).index] == Free
      ensures !Ready(st, t)
    {
      if t == Reader {
        assert Sleeper(st, Reader);
      } else {
        assert Sleeper(st, Setter);
      }
    }
  }

  /** When no thread can take a step, the reader waits for datagrams and the setter has nothing to display. */
  lemma Quiescent(st: State, streamLength: nat)
    requires Core(st) && !st.stop && st.pos <= streamLength
    requires st.reader.pc == Asleep || (st.reader.pc == Working && st.pos == streamLength)
             || (st.reader.pc == Locking && st.locks[st.reader.index] != Free)
    requires st.setter.pc == Asleep || (st.setter.pc == Locking && st.locks[st.setter.index] != Free)
    ensures st.reader.pc == Working && st.pos == streamLength && st.displayed == st.filled
  {
    Parity(Fills(st));
    Parity(Displays(st));
  }

  /** Deadlock freedom: while not stopping, with datagrams to receive, some thread can take a step. */
  lemma DeadlockFree(stream: seq<Datagram>, st: State)
    requires Reachable(stream, st) && !st.stop && st.pos < |stream|
    ensures Shape(st) && (CanStep(stream, st, Reader) || CanStep(stream, st, Setter))
  {
    hide Reading, Locks, Slots, Sleeper;
    ReachableInv(stream, st);
    if !CanStep(stream, st, Reader) && !CanStep(stream, st, Setter) {
      Quiescent(st, |stream|);
    }
  }

  /** When no thread can take a step, the stream is exhausted and everything it contains has been displayed. */
  lemma {:induction false} QuiescentHasDisplayedAll(stream: seq<Datagram>, st: State)
    requires Reachable(stream, st) && !st.stop
    requires Shape(st) && !CanStep(stream, st, Reader) && !CanStep(stream, st, Setter)
    ensures st.pos == |stream| && st.displayed == Wholes(Frames(stream))
  {
    hide Locks, Slots, Sleeper;
    ReachableInv(stream, st);
    Quiescent(st, |stream|);
    var from := st.callStart;
    assert stream[from..st.pos] == stream[from..];
    NoFrameNoImage(stream[from..]);
    FramesSplit(stream, from);
  }

  function Rank(pc: Pc): nat {
    match pc
    case Publishing => 17
    case Notifying => 16
    case Unlocking => 8
    case Top => 7
    case Locking => 6
    case Testing => 5
    case Admitted => 4
    case Parking => 4
    case Working => 3
    case Asleep => 0
    case Exited => 0
  }

  /** A bound on the number of steps the threads can take. */
  function Work(stream: seq<Datagram>, st: State): int {
    30 * (|stream| - st.pos)
    + 15 * (|st.filled| + (if st.reader.pc == Publishing then 1 else 0) - |st.displayed|)
    + Rank(st.reader.pc) + Rank(st.setter.pc)
  }

  lemma WorkIsLeft(stream: seq<Datagram>, st: State)
    requires Inv(stream, st)
    ensures 0 <= Work(stream, st)
  {
  }

  lemma StepWorks(stream: seq<Datagram>, st: State, t: Thread)
    requires Shape(st) && st.callStart <= st.pos && CanStep(stream, st, t)
    ensures Work(stream, Do(stream, st, t)) < Work(stream, st)
  {
  }

  /** What an action other than a thread's own step can add: a spurious wake-up makes one thread test its
      predicate again, each notification by stop() at most two. */
  function Cost(a: Action): nat {
    match a
    case Step(_) => 0
    case Spurious(_) => 7
    case Stop => 1
    case Notify => 13
  }

  function Disturbance(run: seq<Action>): nat {
    if run == [] then 0 else Cost(run[0]) + Disturbance(run[1..])
  }

  lemma NextWorks(stream: seq<Datagram>, st: State, a: Action)
    requires Shape(st) && st.callStart <= st.pos && Enabled(stream, st, a)
    ensures Work(stream, Next(stream, st, a)) + 1 <= Work(stream, st) + Cost(a)
  {
    if a.Step? {
      StepWorks(stream, st, a.thread);
    }
  }

  /** No livelock: a run is no longer than the work there is plus what disturbs it. */
  lemma {:induction false} RunsEnd(stream: seq<Datagram>, st: State, run: seq<Action>, st': State)
    requires Inv(stream, st) && Leads(stream, st, run, st')
    ensures |run| <= Work(stream, st) + Disturbance(run)
    decreases run
  {
    if run == [] {
      WorkIsLeft(stream, st);
    } else {
      NextWorks(stream, st, run[0]);
      NextInv(stream, st, run[0]);
      RunsEnd(stream, Next(stream, st, run[0]), run[1..], st');
    }
  }

  ghost predicate OnlySteps(run: seq<Action>) {
    forall i :: 0 <= i < |run| ==> run[i].Step?
  }

  lemma StepDoesNotStop(stream: seq<Datagram>, st: State, t: Thread)
    requires Shape(st) && st.callStart <= st.pos && CanStep(stream, st, t)
    ensures Do(stream, st, t).stop == st.stop
  {
  }

  lemma {:induction false} StepsDoNotStop(stream: seq<Datagram>, st: State, run: seq<Action>, st': State)
    requires Inv(stream, st) && !st.stop && Leads(stream, st, run, st') && OnlySteps(run)
    ensures !st'.stop && Disturbance(run) == 0
    decreases run
  {
    hide Inv, Do;
    if run != [] {
      StepDoesNotStop(stream, st, run[0].thread);
      NextInv(stream, st, run[0]);
      StepsDoNotStop(stream, Next(stream, st, run[0]), run[1..], st');
    }
  }

  /** Whatever the interleaving, the two threads display every frame of the stream, and nothing else, in a
      bounded number of steps. */
  lemma {:induction false} FinishedRunDisplaysAll(stream: seq<Datagram>, run: seq<Action>, st: State)
    requires Acceptable(stream) && Leads(stream, Init(), run, st) && OnlySteps(run)
    requires Shape(st) && !CanStep(stream, st, Reader) && !CanStep(stream, st, Setter)
    ensures st.displayed == Wholes(Frames(stream))
    ensures |run| <= 30 * |stream| + 14
  {
    InitInv(stream);
    StepsDoNotStop(stream, Init(), run, st);
    RunsEnd(stream, Init(), run, st);
    QuiescentHasDisplayedAll(stream, st);
  }

  /** The thread has found its predicate false and has not been woken since. */
  predicate Sleeps(st: State, t: Thread) {
    At(st, t).pc == Parking || At(st, t).pc == Asleep
  }

  /** The thread sleeps, or is about to; stop() has notified its slot, and nobody else will. */
  predicate Unreached(st: State, t: Thread) {
    && Sleeps(st, t) && At(st, t).index < st.stopper
    && (var other := At(st, Other(t));
        other.pc == Working || other.pc == Publishing || other.pc == Notifying ==> other.index != At(st, t).index)
  }

  /** Neither spurious wake-ups nor another call of stop(). */
  ghost predicate Undisturbed(run: seq<Action>) {
    forall i :: 0 <= i < |run| ==> run[i].Step? || run[i].Notify?
  }

  lemma UnreachedStays(stream: seq<Datagram>, st: State, t: Thread, s: Thread)
    requires Core(st) && st.stop && Unreached(st, t) && CanStep(stream, st, s) && st.callStart <= st.pos
    ensures Unreached(Do(stream, st, s), t) && Do(stream, st, s).stop
  {
    hide Slots, Sleeper;
  }

  lemma AwakeStays(stream: seq<Datagram>, st: State, t: Thread, s: Thread)
    requires Shape(st) && st.stop && !Sleeps(st, t) && CanStep(stream, st, s) && st.callStart <= st.pos
    ensures !Sleeps(Do(stream, st, s), t) && Do(stream, st, s).stop
  {
  }

  lemma NotifyStays(st: State, t: Thread)
    requires Shape(st) && st.stop && st.stopper < 2
    ensures Unreached(st, t) ==> Unreached(NotifyAll(st), t)
    ensures !Sleeps(st, t) ==> !Sleeps(NotifyAll(st), t)
    ensures NotifyAll(st).stop
  {
  }

  lemma {:induction false} AfterStop(stream: seq<Datagram>, st: State, t: Thread, run: seq<Action>, st': State)
    requires Inv(stream, st) && st.stop && Leads(stream, st, run, st') && Undisturbed(run)
    ensures Unreached(st, t) ==> Sleeps(st', t)
    ensures !Sleeps(st, t) ==> !Sleeps(st', t)
    decreases run
  {
    hide Core, Do, Unreached, Sleeps, NotifyAll;
    if run == [] {
      UnreachedSleeps(st, t);
    } else {
      assert run[0].Step? || run[0].Notify?;
      NextInv(stream, st, run[0]);
      AfterStopStep(stream, st, t, run[0]);
      AfterStop(stream, Next(stream, st, run[0]), t, run[1..], st');
    }
  }

  lemma UnreachedSleeps(st: State, t: Thread)
    ensures Unreached(st, t) ==> Sleeps(st, t)
  {
  }

  lemma AfterStopStep(stream: seq<Datagram>, st: State, t: Thread, a: Action)
    requires Inv(stream, st) && st.stop && Enabled(stream, st, a) && (a.Step? || a.Notify?)
    ensures Unreached(st, t) ==> Unreached(Next(stream, st, a), t)
    ensures !Sleeps(st, t) ==> !Sleeps(Next(stream, st, a), t)
    ensures Next(stream, st, a).stop
  {
    hide Do, Unreached, Sleeps, NotifyAll, Locks, Slots, Sleeper;
    if a.Notify? {
      NotifyStays(st, t);
    } else {
      StepDoesNotStop(stream, st, a.thread);
      if Unreached(st, t) {
        UnreachedStays(stream, st, t, a.thread);
      }
      if !Sleeps(st, t) {
        AwakeStays(stream, st, t, a.thread);
      }
    }
  }

  /** What stop() guarantees: because it notifies without the slots' mutexes, it reaches exactly the threads
      that are not, when it notifies their slot, between finding their predicate false and falling asleep.
      However long the threads and the rest of the call go on, such a thread stays asleep; no other thread
      of that slot, and none that was awake, sleeps again. */
  lemma StopReaches(stream: seq<Datagram>, st: State, t: Thread, run: seq<Action>, st': State)
    requires Reachable(stream, st) && st.stopper < 2 && (Sleeps(st, t) ==> At(st, t).index == st.stopper)
    requires Leads(stream, NotifyAll(st), run, st') && Undisturbed(run)
    ensures Sleeps(st', t) <==> At(st, t).pc == Parking
  {
    ReachableInv(stream, st);
    NextInv(stream, st, Notify);
    NotifiedThread(st, t);
    AfterStop(stream, NotifyAll(st), t, run, st');
  }

  lemma NotifiedThread(st: State, t: Thread)
    requires Core(st) && st.stopper < 2 && (Sleeps(st, t) ==> At(st, t).index == st.stopper)
    ensures At(st, t).pc == Parking ==> Unreached(NotifyAll(st), t)
    ensures At(st, t).pc != Parking ==> !Sleeps(NotifyAll(st), t)
    ensures NotifyAll(st).stop
  {
    hide Slots, Sleeper, Gate;
  }

  /** When no thread can take a step after stop(): a thread that has not left and does not sleep is the
      reader waiting for a datagram, or the setter waiting for the mutex that the reader holds meanwhile. */
  lemma FinishedAfterStop(stream: seq<Datagram>, st: State)
    requires Inv(stream, st) && st.stop
    requires Shape(st) && !CanStep(stream, st, Reader) && !CanStep(stream, st, Setter)
    ensures st.reader.pc == Exited || st.reader.pc == Asleep || (st.reader.pc == Working && st.pos == |stream|)
    ensures st.setter.pc == Exited || st.setter.pc == Asleep
            || (st.setter.pc == Locking && st.reader.pc == Working && st.reader.index == st.setter.index)
  {
    hide Slots, Sleeper, Gate, FrameEnds, NoFrame, Frames;
  }

  /** How many slots stop() notifies in the run. */
  function Notifies(run: seq<Action>): nat {
    if run == [] then 0 else (if run[0].Notify? then 1 else 0) + Notifies(run[1..])
  }

  /** The call of stop() goes through the slots one after the other. */
  lemma {:induction false} StopperCounts(stream: seq<Datagram>, st: State, run: seq<Action>, st': State)
    requires Inv(stream, st) && Leads(stream, st, run, st') && Undisturbed(run)
    ensures st'.stopper == st.stopper + Notifies(run)
    decreases run
  {
    hide Core, Reading, Do, Acceptable;
    if run != [] {
      NextInv(stream, st, run[0]);
      StopperNext(stream, st, run[0]);
      StopperCounts(stream, Next(stream, st, run[0]), run[1..], st');
    }
  }

  lemma StopperNext(stream: seq<Datagram>, st: State, a: Action)
    requires Shape(st) && st.callStart <= st.pos && Enabled(stream, st, a) && (a.Step? || a.Notify?)
    ensures Next(stream, st, a).stopper == st.stopper + if a.Notify? then 1 else 0
  {
  }

  /** The thread is awake, or asleep on a slot that the call of stop() has still to notify. */
  predicate IsReached(st: State, t: Thread) {
    !Sleeps(st, t) || (At(st, t).pc == Asleep && st.stopper <= At(st, t).index)
  }

  lemma ReachedStays(stream: seq<Datagram>, st: State, t: Thread, s: Thread)
    requires Shape(st) && st.callStart <= st.pos && CanStep(stream, st, s) && st.stop && IsReached(st, t)
    ensures IsReached(Do(stream, st, s), t)
  {
  }

  lemma ReachedNotified(st: State, t: Thread)
    requires Shape(st) && st.stopper < 2 && IsReached(st, t)
    ensures IsReached(NotifyAll(st), t)
  {
  }

  lemma {:induction false} CallReaches(stream: seq<Datagram>, st: State, t: Thread, run: seq<Action>, st': State)
    requires Inv(stream, st) && st.stop && Leads(stream, st, run, st') && Undisturbed(run) && IsReached(st, t)
    ensures Inv(stream, st') && st'.stop && IsReached(st', t)
    decreases run
  {
    hide Locks, Slots, Gate, Sleeper, Do, NotifyAll, Acceptable, IsReached;
    if run != [] {
      assert run[0].Step? || run[0].Notify?;
      AfterStopStep(stream, st, t, run[0]);
      if run[0].Step? {
        ReachedStays(stream, st, t, run[0].thread);
      } else {
        ReachedNotified(st, t);
      }
      NextInv(stream, st, run[0]);
      CallReaches(stream, Next(stream, st, run[0]), t, run[1..], st');
    }
  }

  /** A whole call of stop(): once it has returned, whatever the threads did meanwhile and do next, a thread
      that was not between finding its predicate false and falling asleep when the call began is awake. */
  lemma StopCallReaches(stream: seq<Datagram>, st: State, t: Thread, run: seq<Action>, st': State)
    requires Reachable(stream, st) && Shape(st) && st.callStart <= st.pos && Enabled(stream, st, Stop) && At(st, t).pc != Parking
    requires Leads(stream, Next(stream, st, Stop), run, st') && Undisturbed(run) && st'.stopper == 2
    ensures Inv(stream, st') && st'.stop && Notifies(run) == 2 && !Sleeps(st', t)
  {
    hide Locks, Slots, Gate, Sleeper;
    ReachableInv(stream, st);
    NextInv(stream, st, Stop);
    CallReaches(stream, SetStop(st), t, run, st');
    StopperCounts(stream, SetStop(st), run, st');
  }

  /** So stop() ends both threads, if neither was at that point and datagrams keep coming. */
  lemma {:induction false} StopEndsBoth(stream: seq<Datagram>, st: State, run: seq<Action>, st': State)
    requires Reachable(stream, st) && Shape(st) && st.callStart <= st.pos && Enabled(stream, st, Stop)
    requires st.reader.pc != Parking && st.setter.pc != Parking
    requires Leads(stream, Next(stream, st, Stop), run, st') && Undisturbed(run) && st'.stopper == 2
    requires Shape(st') && !CanStep(stream, st', Reader) && !CanStep(stream, st', Setter) && st'.pos < |stream|
    ensures st'.reader.pc == Exited && st'.setter.pc == Exited
  {
    hide Inv, Core, Leads, Reachable;
    StopCallReaches(stream, st, Reader, run, st');
    StopCallReaches(stream, st, Setter, run, st');
    FinishedAfterStop(stream, st');
  }

  /** What a thread has begun counts as done. */
  function Begun(st: State): (nat, nat) {
    (|st.filled| + (if st.reader.pc == Working || st.reader.pc == Publishing then 1 else 0),
     |st.displayed| + (if st.setter.pc == Working then 1 else 0))
  }

  predicate IsOut(st: State, t: Thread) {
    At(st, t).pc == Top || At(st, t).pc == Exited
  }

  lemma StepBeginsNothing(stream: seq<Datagram>, st: State, t: Thread)
    requires Shape(st) && st.stop && st.callStart <= st.pos && CanStep(stream, st, t)
    ensures Begun(Do(stream, st, t)).0 <= Begun(st).0 && Begun(Do(stream, st, t)).1 <= Begun(st).1
  {
    hide Outcome;
  }

  lemma StepStaysOut(stream: seq<Datagram>, st: State, s: Thread, t: Thread)
    requires Shape(st) && st.stop && st.callStart <= st.pos && CanStep(stream, st, s) && IsOut(st, t)
    ensures IsOut(Do(stream, st, s), t)
  {
    hide Outcome;
  }

  lemma NothingBegins(stream: seq<Datagram>, st: State, a: Action)
    requires Shape(st) && st.stop && st.callStart <= st.pos && Enabled(stream, st, a)
    ensures var next := Next(stream, st, a);
      && next.stop && Begun(next).0 <= Begun(st).0 && Begun(next).1 <= Begun(st).1
  {
    if a.Step? {
      hide Do, Begun;
      StepBeginsNothing(stream, st, a.thread);
      StepDoesNotStop(stream, st, a.thread);
    }
  }

  lemma NextStaysOut(stream: seq<Datagram>, st: State, a: Action, t: Thread)
    requires Shape(st) && st.stop && st.callStart <= st.pos && Enabled(stream, st, a) && IsOut(st, t)
    ensures IsOut(Next(stream, st, a), t)
  {
    if a.Step? {
      hide Do, IsOut;
      StepStaysOut(stream, st, a.thread, t);
    }
  }

  /** Once the flag is set, whatever happens, each thread at most finishes the image it is working on, and a
      thread that starts a new iteration leaves without locking a slot. */
  lemma {:induction false} NothingNewAfterStop(stream: seq<Datagram>, st: State, run: seq<Action>, st': State)
    requires Inv(stream, st) && st.stop && Leads(stream, st, run, st')
    ensures |st'.filled| <= |st.filled| + if st.reader.pc == Working || st.reader.pc == Publishing then 1 else 0
    ensures |st'.displayed| <= |st.displayed| + if st.setter.pc == Working then 1 else 0
    ensures Begun(st').0 <= Begun(st).0 && Begun(st').1 <= Begun(st).1
    ensures forall t: Thread :: IsOut(st, t) ==> IsOut(st', t)
    decreases run
  {
    hide Core, Reading, Do, Acceptable, IsOut;
    if run != [] {
      NextInv(stream, st, run[0]);
      NothingBegins(stream, st, run[0]);
      forall t: Thread | IsOut(st, t)
        ensures IsOut(Next(stream, st, run[0]), t)
      {
        NextStaysOut(stream, st, run[0], t);
      }
      NothingNewAfterStop(stream, Next(stream, st, run[0]), run[1..], st');
    }
  }

  /** A run in which stop() is missed: the setter sleeps for ever, and the reader is gone. */
  lemma StopCanBeMissed(stream: seq<Datagram>) returns (st: State)
    requires Acceptable(stream)
    ensures Reachable(stream, st) && Shape(st) && st.stop && st.stopper == 2 && st.setter.pc == Asleep
    ensures !CanStep(stream, st, Reader) && !CanStep(stream, st, Setter)
  {
    st := Init();
    assert Leads(stream, Init(), [], st);
    var run := [Step(Setter), Step(Setter), Step(Setter), Stop, Notify, Notify, Step(Setter), Step(Reader)];
    for i := 0 to |run|
      invariant Reachable(stream, st) && Shape(st) && st.callStart <= st.pos
      invariant st.stop == (i > 3) && st.stopper == (if i == 4 then 0 else if i == 5 then 1 else 2)
      invariant i == 0 ==> st == Init()
      invariant i == 1 ==> st == Go(Init(), Setter, Locking)
      invariant i == 2 ==> st == Lock(Go(Init(), Setter, Locking), Setter)
      invariant 3 <= i <= 6 ==> st.reader == Local(Top, 0) && st.setter == Local(Parking, 0)
      invariant i == 7 ==> st.reader == Local(Top, 0) && st.setter == Local(Asleep, 0)
      invariant i == 8 ==> st.reader == Local(Exited, 0) && st.setter == Local(Asleep, 0)
    {
      ReachableNext(stream, st, run[i]);
      st := Next(stream, st, run[i]);
    }
  }
}
