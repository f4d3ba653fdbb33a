/** The two threads of the image loader and the two slots between them, as a transition system.
    One thread reads images from the socket into the slots, the other sets them in the GUI. A thread takes
    one step at a time, so every interleaving of the steps is a run of the system. */
module PreviewBuffers {
  import opened Datagrams
  import opened FrameSpec
  import opened FrameRuns
  import opened Reassembly

  datatype Thread = Reader | Setter

  /** Where a thread is in its loop. `Testing` evaluates the wait predicate and `Parking` has found it false,
      both with the slot's mutex held; `Asleep` is inside the condition variable, without the mutex. */
  datatype Pc = Top | Locking | Testing | Parking | Asleep | Admitted | Working | Publishing | Notifying | Unlocking | Exited

  datatype Local = Local(pc: Pc, index: nat)

  datatype Holder = Free | HeldBy(thread: Thread)

  /** What a slot holds: a partly written buffer or a complete image. */
  datatype Content = Scratch | Whole(image: Image)

  datatype State = State(
    reader: Local,
    setter: Local,
    locks: seq<Holder>,
    empty: seq<bool>,
    buffers: seq<Content>,
    stop: bool,
    /** The slot that a call of stop() is about to notify; 2 when no call is under way. */
    stopper: nat,
    /** Datagrams received, and how many had been received when the current call of readPreview began. */
    pos: nat,
    callStart: nat,
    /** What has been handed over by the reader, and what has been set in the GUI, in order. */
    filled: seq<Content>,
    displayed: seq<Content>)

  /** `Stop` begins a call of stop(), which holds the loader's own mutex until it has notified both slots. */
  datatype Action = Step(thread: Thread) | Spurious(thread: Thread) | Stop | Notify

  function Init(): State {
    State(Local(Top, 0), Local(Top, 0), [Free, Free], [true, true], [Scratch, Scratch], false, 2, 0, 0, [], [])
  }

  function At(st: State, t: Thread): Local {
    if t == Reader then st.reader else st.setter
  }

  function Other(t: Thread): Thread {
    if t == Reader then Setter else Reader
  }

  function Go(st: State, t: Thread, pc: Pc): State {
    if t == Reader then st.(reader := st.reader.(pc := pc)) else st.(setter := st.setter.(pc := pc))
  }

  predicate Shape(st: State) {
    |st.locks| == |st.empty| == |st.buffers| == 2 && st.reader.index < 2 && st.setter.index < 2
  }

  /** The predicate a thread waits for, apart from stop. */
  predicate Ready(st: State, t: Thread)
    requires Shape(st)
  {
    st.empty[At(st, t).index] == (t == Reader)
  }

  predicate CanStep(stream: seq<Datagram>, st: State, t: Thread)
    requires Shape(st)
  {
    match At(st, t).pc
    case Locking => st.locks[At(st, t).index] == Free
    case Asleep => false
    case Exited => false
    case Working => t == Reader ==> st.pos < |stream|
    case _ => true
  }

  function SetLock(st: State, t: Thread, holder: Holder): State
    requires Shape(st)
  {
    st.(locks := st.locks[At(st, t).index := holder])
  }

  function Lock(st: State, t: Thread): State
    requires Shape(st)
  {
    Go(SetLock(st, t, HeldBy(t)), t, Testing)
  }

  function Unlock(st: State, t: Thread, pc: Pc): State
    requires Shape(st)
  {
    Go(SetLock(st, t, Free), t, pc)
  }

  /** The reader begins a call of readPreview, which starts by resizing the buffer. */
  function BeginRead(st: State): State
    requires Shape(st)
  {
    Go(st.(callStart := st.pos, buffers := st.buffers[st.reader.index := Scratch]), Reader, Working)
  }

  /** A datagram is received into the reader's slot, which completes an image or not. */
  function Write(st: State, content: Content): State
    requires Shape(st)
  {
    Go(st.(pos := st.pos + 1, buffers := st.buffers[st.reader.index := content]), Reader,
       if content == Scratch then Working else Publishing)
  }

  /** What the buffer holds after a datagram: the call of readPreview ends with the first frame among the
      datagrams received since it began. */
  ghost function Outcome(stream: seq<Datagram>, st: State): Content
    requires st.callStart <= st.pos < |stream|
  {
    var seen := stream[st.callStart..st.pos + 1];
    if FrameEnds(seen) then var image :| EndsFrame(seen, image); Whole(image) else Scratch
  }

  function Display(st: State): State
    requires Shape(st)
  {
    Go(st.(displayed := st.displayed + [st.buffers[st.setter.index]]), Setter, Publishing)
  }

  /** The slot's flag is changed: the reader declares it full, the setter declares it empty. */
  function Publish(st: State, t: Thread): State
    requires Shape(st)
  {
    if t == Reader then
      Go(st.(empty := st.empty[st.reader.index := false], filled := st.filled + [st.buffers[st.reader.index]]), t, Notifying)
    else
      Go(st.(empty := st.empty[st.setter.index := true]), t, Notifying)
  }

  /** notify_one on slot `i`: a thread that is awake or sleeps elsewhere is not concerned. */
  function Wake(st: State, t: Thread, i: nat): State {
    if At(st, t) == Local(Asleep, i) then Go(st, t, Locking) else st
  }

  /** The slot index is flipped and the mutex released at the end of an iteration. */
  function Leave(st: State, t: Thread): State
    requires Shape(st)
  {
    var st' := SetLock(st, t, Free);
    var l := Local(Top, (At(st, t).index + 1) % 2);
    if t == Reader then st'.(reader := l) else st'.(setter := l)
  }

  /** One step of a thread. */
  ghost function Do(stream: seq<Datagram>, st: State, t: Thread): State
    requires Shape(st) && CanStep(stream, st, t) && st.callStart <= st.pos
  {
    match At(st, t).pc
    case Top => Go(st, t, if st.stop then Exited else Locking)
    case Locking => Lock(st, t)
    case Testing => Go(st, t, if Ready(st, t) || st.stop then Admitted else Parking)
    case Parking => Unlock(st, t, Asleep)
    case Admitted =>
      if st.stop then Unlock(st, t, Exited) else if t == Reader then BeginRead(st) else Go(st, t, Working)
    case Working => if t == Reader then Write(st, Outcome(stream, st)) else Display(st)
    case Publishing => Publish(st, t)
    case Notifying => Go(Wake(st, Other(t), At(st, t).index), t, Unlocking)
    case Unlocking => Leave(st, t)
    case _ => st
  }

  /** stop() sets the flag without the slots' mutexes. */
  function SetStop(st: State): State {
    st.(stop := true, stopper := 0)
  }

  /** stop() wakes everyone who sleeps on the next slot, without that slot's mutex. */
  function NotifyAll(st: State): State {
    Wake(Wake(st, Reader, st.stopper), Setter, st.stopper).(stopper := st.stopper + 1)
  }

  predicate Enabled(stream: seq<Datagram>, st: State, a: Action)
    requires Shape(st)
  {
    match a
    case Step(t) => CanStep(stream, st, t)
    case Spurious(t) => At(st, t).pc == Asleep
    case Stop => st.stopper == 2
    case Notify => st.stopper < 2
  }

  ghost function Next(stream: seq<Datagram>, st: State, a: Action): State
    requires Shape(st) && Enabled(stream, st, a) && st.callStart <= st.pos
  {
    match a
    case Step(t) => Do(stream, st, t)
    case Spurious(t) => Go(st, t, Locking)
    case Stop => SetStop(st)
    case Notify => NotifyAll(st)
  }

  predicate Holds(pc: Pc) {
    pc == Testing || pc == Parking || pc == Admitted || pc == Working || pc == Publishing || pc == Notifying || pc == Unlocking
  }

  predicate Owns(st: State, t: Thread, i: nat) {
    Holds(At(st, t).pc) && At(st, t).index == i
  }

  function Owner(st: State, i: nat): Holder {
    if Owns(st, Reader, i) then HeldBy(Reader) else if Owns(st, Setter, i) then HeldBy(Setter) else Free
  }

  /** A mutex is held by a thread exactly while that thread is between locking and unlocking it, and never by both. */
  predicate Locks(st: State)
    requires Shape(st)
  {
    && st.locks[0] == Owner(st, 0) && st.locks[1] == Owner(st, 1)
    && !(Owns(st, Reader, 0) && Owns(st, Setter, 0)) && !(Owns(st, Reader, 1) && Owns(st, Setter, 1))
  }

  /** Completed fills and completed displays. */
  function Fills(st: State): nat {
    |st.filled|
  }

  function Displays(st: State): int {
    |st.displayed| - if st.setter.pc == Publishing then 1 else 0
  }

  function Slot(n: int): nat {
    n % 2
  }

  /** 1 while a thread has flipped the slot's flag and still holds its mutex. */
  function HandedOver(l: Local): nat {
    if l.pc == Notifying || l.pc == Unlocking then 1 else 0
  }

  /** The slots are used in turn: a slot is full exactly when it holds an image that was read and not yet
      displayed, and what is displayed is what was read, in order. */
  predicate Slots(st: State)
    requires Shape(st)
  {
    var p, c := Fills(st), Displays(st);
    && 0 <= c <= p <= c + 2
    && st.reader.index == Slot(p - HandedOver(st.reader))
    && st.setter.index == Slot(c - HandedOver(st.setter))
    && st.empty[Slot(p)] == (p - c < 2)
    && st.empty[Slot(p + 1)] == (p == c)
    && (c < p ==> st.buffers[Slot(c)] == st.filled[c])
    && (c + 1 < p ==> st.buffers[Slot(c + 1)] == st.filled[c + 1])
    && |st.displayed| <= p && st.displayed == st.filled[..|st.displayed|]
  }

  /** What the slot's flag is at the points where a thread relies on it. */
  predicate Gate(st: State, t: Thread)
    requires Shape(st)
  {
    && (At(st, t).pc == Working || At(st, t).pc == Publishing ==> Ready(st, t))
    && (At(st, t).pc == Admitted ==> Ready(st, t) || st.stop)
    && (At(st, t).pc == Parking ==> !Ready(st, t))
    && (HandedOver(At(st, t)) == 1 ==> !Ready(st, t))
    && (At(st, t).pc == Exited ==> st.stop)
  }

  /** A thread does not sleep while what it waits for holds, except between the other thread's change of
      the flag and its notification, for which the other thread still holds the slot's mutex. */
  predicate Sleeper(st: State, t: Thread)
    requires Shape(st)
  {
    At(st, t).pc == Asleep && Ready(st, t) ==> At(st, Other(t)) == Local(Notifying, At(st, t).index)
  }

  function Wholes(images: seq<Image>): (contents: seq<Content>)
    ensures |contents| == |images| && forall i :: 0 <= i < |images| ==> contents[i] == Whole(images[i])
  {
    seq(|images|, i requires 0 <= i < |images| => Whole(images[i]))
  }

  /** What has been read so far is exactly the frames of the datagrams received so far. */
  ghost predicate Reading(stream: seq<Datagram>, st: State)
    requires Shape(st)
  {
    && st.callStart <= st.pos <= |stream|
    && match st.reader.pc
       case Working =>
         && Boundary(stream, st.callStart) && NoFrame(stream[st.callStart..st.pos])
         && st.filled == Wholes(Frames(stream[..st.callStart]))
       case Publishing =>
         && Boundary(stream, st.pos)
         && st.filled + [st.buffers[st.reader.index]] == Wholes(Frames(stream[..st.pos]))
       case _ =>
         && Boundary(stream, st.pos)
         && st.filled == Wholes(Frames(stream[..st.pos]))
  }

  /** Everything that does not depend on what the datagrams say. */
  predicate Core(st: State) {
    && Shape(st) && Locks(st) && Slots(st)
    && Gate(st, Reader) && Gate(st, Setter) && Sleeper(st, Reader) && Sleeper(st, Setter)
    && st.stopper <= 2 && (st.stopper < 2 ==> st.stop)
  }

  ghost predicate Inv(stream: seq<Datagram>, st: State) {
    Acceptable(stream) && Core(st) && Reading(stream, st)
  }

  lemma InitInv(stream: seq<Datagram>)
    requires Acceptable(stream)
    ensures Inv(stream, Init())
  {
    assert stream[..0] == [];
  }

  lemma Parity(n: int)
    ensures Slot(n + 1) == 1 - Slot(n) && Slot(n + 2) == Slot(n)
    ensures (Slot(n) + 1) % 2 == Slot(n + 1)
  {
  }

  /** Steps that neither change a slot nor pass one on. */
  lemma SlotsKept(st: State, st': State)
    requires Shape(st) && Shape(st') && Slots(st)
    requires st'.empty == st.empty && st'.buffers == st.buffers && st'.filled == st.filled && st'.displayed == st.displayed
    requires SamePhase(st.reader, st'.reader) && SamePhase(st.setter, st'.setter)
    ensures Slots(st')
  {
  }

  predicate SamePhase(l: Local, l': Local) {
    l'.index == l.index && HandedOver(l') == HandedOver(l) && (l'.pc == Publishing <==> l.pc == Publishing)
  }

  lemma BeginKeeps(st: State, t: Thread, pc: Pc)
    requires Core(st) && At(st, t).pc == Top && (pc == Locking || (pc == Exited && st.stop))
    ensures Core(Go(st, t, pc))
  {
    hide Slots;
    SlotsKept(st, Go(st, t, pc));
  }

  lemma LockKeeps(st: State, t: Thread)
    requires Core(st) && At(st, t).pc == Locking && st.locks[At(st, t).index] == Free
    ensures Core(Lock(st, t))
  {
    hide Slots;
    SlotsKept(st, Lock(st, t));
  }

  lemma TestKeeps(st: State, t: Thread, pc: Pc)
    requires Core(st) && At(st, t).pc == Testing
    requires if Ready(st, t) || st.stop then pc == Admitted else pc == Parking
    ensures Core(Go(st, t, pc))
  {
    hide Slots;
    SlotsKept(st, Go(st, t, pc));
  }

  lemma SleepKeeps(st: State, t: Thread)
    requires Core(st) && At(st, t).pc == Parking
    ensures Core(Unlock(st, t, Asleep))
  {
    hide Slots;
    SlotsKept(st, Unlock(st, t, Asleep));
  }

  lemma ExitKeeps(st: State, t: Thread)
    requires Core(st) && At(st, t).pc == Admitted && st.stop
    ensures Core(Unlock(st, t, Exited))
  {
    hide Slots;
    SlotsKept(st, Unlock(st, t, Exited));
  }

  /** While the reader writes, its slot is empty, so no image waiting to be displayed is overwritten. */
  lemma BeginReadKeeps(st: State)
    requires Core(st) && st.reader.pc == Admitted && !st.stop
    ensures Core(BeginRead(st))
  {
    Parity(Displays(st));
  }

  lemma WriteSlots(st: State, content: Content)
    requires Shape(st) && Slots(st) && st.reader.pc == Working && Ready(st, Reader)
    ensures Slots(Write(st, content))
  {
    Parity(Displays(st));
  }

  lemma WriteKeeps(st: State, content: Content)
    requires Core(st) && st.reader.pc == Working
    ensures Core(Write(st, content))
  {
    hide Slots;
    WriteSlots(st, content);
  }

  lemma BeginDisplayKeeps(st: State)
    requires Core(st) && st.setter.pc == Admitted && !st.stop
    ensures Core(Go(st, Setter, Working))
  {
    hide Slots;
    SlotsKept(st, Go(st, Setter, Working));
  }

  lemma DisplaySlots(st: State)
    requires Shape(st) && Slots(st) && st.setter.pc == Working && Ready(st, Setter)
    ensures Slots(Display(st))
  {
  }

  lemma DisplayKeeps(st: State)
    requires Core(st) && st.setter.pc == Working
    ensures Core(Display(st))
  {
    hide Slots;
    DisplaySlots(st);
  }

  lemma FillSlots(st: State)
    requires Shape(st) && Slots(st) && st.reader.pc == Publishing && Ready(st, Reader)
    ensures Slots(Publish(st, Reader))
  {
    Parity(Fills(st));
    Parity(Displays(st));
  }

  lemma FillKeeps(st: State)
    requires Core(st) && st.reader.pc == Publishing
    ensures Core(Publish(st, Reader))
  {
    hide Slots;
    FillSlots(st);
  }

  lemma EmptySlots(st: State)
    requires Shape(st) && Slots(st) && st.setter.pc == Publishing && Ready(st, Setter)
    ensures Slots(Publish(st, Setter))
  {
    Parity(Displays(st));
  }

  lemma EmptyKeeps(st: State)
    requires Core(st) && st.setter.pc == Publishing
    ensures Core(Publish(st, Setter))
  {
    hide Slots;
    EmptySlots(st);
  }

  lemma WakeUpKeeps(st: State, t: Thread)
    requires Core(st) && At(st, t).pc == Asleep
    ensures Core(Go(st, t, Locking))
  {
    hide Slots;
    SlotsKept(st, Go(st, t, Locking));
  }

  lemma NotifiedKeeps(st: State, t: Thread)
    requires Core(st) && At(st, t).pc == Notifying && At(st, Other(t)) != Local(Asleep, At(st, t).index)
    ensures Core(Go(st, t, Unlocking))
  {
    hide Slots;
    SlotsKept(st, Go(st, t, Unlocking));
  }

  lemma NotifyKeeps(st: State, t: Thread)
    requires Core(st) && At(st, t).pc == Notifying
    ensures Core(Go(Wake(st, Other(t), At(st, t).index), t, Unlocking))
  {
    if At(st, Other(t)) == Local(Asleep, At(st, t).index) {
      WakeUpKeeps(st, Other(t));
    }
    NotifiedKeeps(Wake(st, Other(t), At(st, t).index), t);
  }

  lemma ReaderLeaves(st: State)
    requires Shape(st) && Slots(st) && st.reader.pc == Unlocking
    ensures Slots(Leave(st, Reader))
  {
    Parity(Fills(st) - 1);
  }

  lemma SetterLeaves(st: State)
    requires Shape(st) && Slots(st) && st.setter.pc == Unlocking
    ensures Slots(Leave(st, Setter))
  {
    Parity(Displays(st) - 1);
  }

  lemma LeaveKeeps(st: State, t: Thread)
    requires Core(st) && At(st, t).pc == Unlocking
    ensures Core(Leave(st, t))
  {
    hide Slots;
    if t == Reader {
      ReaderLeaves(st);
    } else {
      SetterLeaves(st);
    }
  }

  lemma StopKeeps(st: State)
    requires Core(st)
    ensures Core(SetStop(st))
  {
    hide Slots;
    SlotsKept(st, SetStop(st));
  }

  lemma WakeKeeps(st: State, t: Thread, i: nat)
    requires Core(st)
    ensures Core(Wake(st, t, i))
  {
    hide Core;
    if At(st, t) == Local(Asleep, i) {
      WakeUpKeeps(st, t);
    }
  }

  lemma NotifyAllKeeps(st: State)
    requires Core(st) && st.stopper < 2
    ensures Core(NotifyAll(st))
  {
    WakeKeeps(st, Reader, st.stopper);
    WakeKeeps(Wake(st, Reader, st.stopper), Setter, st.stopper);
    var st' := Wake(Wake(st, Reader, st.stopper), Setter, st.stopper);
    NotifierKeeps(st');
  }

  lemma NotifierKeeps(st: State)
    requires Core(st) && st.stopper < 2
    ensures Core(st.(stopper := st.stopper + 1))
  {
    hide Slots;
    SlotsKept(st, st.(stopper := st.stopper + 1));
  }

  lemma CoreStep(stream: seq<Datagram>, st: State, t: Thread)
    requires Core(st) && CanStep(stream, st, t) && st.callStart <= st.pos
    ensures Core(Do(stream, st, t))
  {
    match At(st, t).pc
    case Top => BeginKeeps(st, t, if st.stop then Exited else Locking);
    case Locking => LockKeeps(st, t);
    case Testing => TestKeeps(st, t, if Ready(st, t) || st.stop then Admitted else Parking);
    case Parking => SleepKeeps(st, t);
    case Admitted =>
      if st.stop {
        ExitKeeps(st, t);
      } else if t == Reader {
        BeginReadKeeps(st);
      } else {
        BeginDisplayKeeps(st);
      }
    case Working =>
      if t == Reader {
        WriteKeeps(st, Outcome(stream, st));
      } else {
        DisplayKeeps(st);
      }
    case Publishing =>
      if t == Reader {
        FillKeeps(st);
      } else {
        EmptyKeeps(st);
      }
    case Notifying => NotifyKeeps(st, t);
    case Unlocking => LeaveKeeps(st, t);
  }

  /** The end of a call adds the one frame it has read. */
  lemma CallEnds(stream: seq<Datagram>, from: nat, n: nat, image: Image)
    requires from <= n < |stream| && Boundary(stream, from) && NoFrame(stream[from..n])
    requires EndsFrame(stream[from..n + 1], image)
    ensures Boundary(stream, n + 1) && Frames(stream[..n + 1]) == Frames(stream[..from]) + [image]
  {
    var t := stream[..n + 1];
    assert t[from..] == stream[from..n + 1] && t[..from] == stream[..from];
    assert t[from..][..n - from] == stream[from..n];
    FrameStays(t, from, image);
    NoFrameNoImage(stream[from..n]);
    FramesNext(t[from..], image);
    FramesSplit(t, from);
  }

  lemma WholesSnoc(images: seq<Image>, image: Image)
    ensures Wholes(images + [image]) == Wholes(images) + [Whole(image)]
  {
  }

  lemma ReadingCompletes(stream: seq<Datagram>, st: State, image: Image)
    requires Shape(st) && Reading(stream, st) && st.reader.pc == Working && st.pos < |stream|
    requires EndsFrame(stream[st.callStart..st.pos + 1], image)
    ensures Reading(stream, Write(st, Whole(image)))
  {
    CallEnds(stream, st.callStart, st.pos, image);
    WholesSnoc(Frames(stream[..st.callStart]), image);
    var st' := Write(st, Whole(image));
    assert st'.buffers[st'.reader.index] == Whole(image);
  }

  lemma ReadingContinues(stream: seq<Datagram>, st: State)
    requires Shape(st) && Reading(stream, st) && st.reader.pc == Working && st.pos < |stream|
    requires !FrameEnds(stream[st.callStart..st.pos + 1])
    ensures Reading(stream, Write(st, Scratch))
  {
    var seen := stream[st.callStart..st.pos + 1];
    assert seen[..|seen| - 1] == stream[st.callStart..st.pos];
    NoFrameGrows(seen);
  }

  lemma ReadingReceive(stream: seq<Datagram>, st: State)
    requires Shape(st) && Reading(stream, st) && st.reader.pc == Working && st.pos < |stream|
    ensures Reading(stream, Write(st, Outcome(stream, st)))
  {
    var seen := stream[st.callStart..st.pos + 1];
    if FrameEnds(seen) {
      ReadingCompletes(stream, st, Outcome(stream, st).image);
    } else {
      ReadingContinues(stream, st);
    }
  }

  /** Steps that leave the reader's work alone. */
  lemma ReadingUnaffected(stream: seq<Datagram>, st: State, st': State)
    requires Shape(st) && Shape(st') && Reading(stream, st)
    requires st'.pos == st.pos && st'.callStart == st.callStart && st'.filled == st.filled && st'.buffers == st.buffers
    requires st'.reader == st.reader || (Elsewhere(st.reader.pc) && Elsewhere(st'.reader.pc))
    ensures Reading(stream, st')
  {
  }

  predicate Elsewhere(pc: Pc) {
    pc != Working && pc != Publishing
  }

  lemma ReadingStep(stream: seq<Datagram>, st: State, t: Thread)
    requires Core(st) && Reading(stream, st) && st.callStart <= st.pos && CanStep(stream, st, t)
    requires Core(Do(stream, st, t))
    ensures Reading(stream, Do(stream, st, t))
  {
    hide Locks, Slots, Gate, Sleeper, Reading, Outcome;
    if t == Reader && st.reader.pc == Working {
      ReadingReceive(stream, st);
    } else if t == Reader && st.reader.pc == Publishing {
      ReadingPublish(stream, st);
    } else if t == Reader && st.reader.pc == Admitted && !st.stop {
      ReadingBegins(stream, st);
    } else {
      ReadingUnaffected(stream, st, Do(stream, st, t));
    }
  }

  lemma ReadingBegins(stream: seq<Datagram>, st: State)
    requires Shape(st) && Reading(stream, st) && st.reader.pc == Admitted
    ensures Reading(stream, BeginRead(st))
  {
    assert stream[st.pos..st.pos] == [];
  }

  lemma ReadingPublish(stream: seq<Datagram>, st: State)
    requires Shape(st) && Reading(stream, st) && st.reader.pc == Publishing
    ensures Reading(stream, Publish(st, Reader))
  {
  }

  /** Every action keeps the invariant. */
  lemma {:induction false} NextInv(stream: seq<Datagram>, st: State, a: Action)
    requires Inv(stream, st) && Enabled(stream, st, a)
    ensures Inv(stream, Next(stream, st, a))
  {
    hide Locks, Slots, Gate, Sleeper, Reading, Do, Acceptable;
    ReadingBounds(stream, st);
    match a
    case Step(t) =>
      CoreStep(stream, st, t);
      ReadingStep(stream, st, t);
    case Spurious(t) =>
      WakeUpKeeps(st, t);
      ReadingUnaffected(stream, st, Go(st, t, Locking));
    case Stop =>
      StopKeeps(st);
      ReadingUnaffected(stream, st, SetStop(st));
    case Notify =>
      NotifyAllKeeps(st);
      ReadingUnaffected(stream, st, NotifyAll(st));
  }

  lemma ReadingBounds(stream: seq<Datagram>, st: State)
    requires Shape(st) && Reading(stream, st)
    ensures st.callStart <= st.pos <= |stream|
  {
  }
}
