/** The receive steps of the reading thread are a call of ReadPreview, datagram by datagram. */
module PreviewCalls {
  import opened Bytes
  import opened Datagrams
  import opened FrameSpec
  import opened FrameRuns
  import opened Reassembly
  import opened PreviewBuffers
  import opened PreviewRuns
  import IL = ImageLoader

  function ReaderSteps(n: nat): (run: seq<Action>)
    ensures |run| == n && forall i :: 0 <= i < n ==> run[i] == Step(Reader)
  {
    seq(n, _ => Step(Reader))
  }

  /** The reader has just entered readPreview, which begins by emptying its buffer. */
  predicate Entered(stream: seq<Datagram>, st: State) {
    && Shape(st) && st.reader.pc == Working
    && st.callStart == st.pos <= |stream|
    && st.buffers[st.reader.index] == Scratch
  }

  /** After `n` datagrams that complete no image. */
  function StillReading(st: State, n: nat): State {
    st.(pos := st.pos + n)
  }

  /** After `n` datagrams, the last of which completes the image. */
  function HasRead(st: State, n: nat, image: Image): State
    requires Shape(st)
  {
    st.(pos := st.pos + n, buffers := st.buffers[st.reader.index := Whole(image)], reader := st.reader.(pc := Publishing))
  }

  /** The reader has been admitted to its slot and is about to enter readPreview. */
  predicate Admits(stream: seq<Datagram>, st: State) {
    Shape(st) && st.reader.pc == Admitted && !st.stop && st.callStart <= st.pos <= |stream|
  }

  lemma BeginsCall(stream: seq<Datagram>, st: State, n: nat, st': State)
    requires Admits(stream, st)
    ensures Entered(stream, BeginRead(st))
    ensures Leads(stream, BeginRead(st), ReaderSteps(n), st') ==> Leads(stream, st, ReaderSteps(n + 1), st')
  {
    assert ReaderSteps(n + 1)[1..] == ReaderSteps(n);
    assert Next(stream, st, Step(Reader)) == BeginRead(st);
  }

  lemma NextDatagram(stream: seq<Datagram>, st: State, n: nat)
    requires Entered(stream, st) && st.pos + n < |stream| && !FrameEnds(stream[st.pos..][..n + 1])
    ensures Do(stream, StillReading(st, n), Reader) == StillReading(st, n + 1)
  {
    assert stream[st.pos..][..n + 1] == stream[st.pos..st.pos + n + 1];
  }

  lemma LastDatagram(stream: seq<Datagram>, st: State, n: nat, image: Image)
    requires Entered(stream, st) && st.pos + n < |stream| && EndsFrame(stream[st.pos..][..n + 1], image)
    ensures Do(stream, StillReading(st, n), Reader) == HasRead(st, n + 1, image)
  {
    var seen := stream[st.pos..st.pos + n + 1];
    assert stream[st.pos..][..n + 1] == seen;
    var picked := Outcome(stream, StillReading(st, n)).image;
    FrameUnique(seen, image, picked);
  }

  lemma {:induction false} ReadsOn(stream: seq<Datagram>, st: State, n: nat)
    requires Entered(stream, st) && st.pos + n <= |stream| && NoFrame(stream[st.pos..][..n])
    ensures Leads(stream, st, ReaderSteps(n), StillReading(st, n))
  {
    hide Do;
    if n > 0 {
      var left := stream[st.pos..];
      assert left[..n][..n - 1] == left[..n - 1] && left[..n][..n] == left[..n];
      NoFramePrefix(left[..n], n - 1);
      ReadsOn(stream, st, n - 1);
      NextDatagram(stream, st, n - 1);
      LeadsSnoc(stream, st, ReaderSteps(n - 1), StillReading(st, n - 1), Step(Reader));
      assert ReaderSteps(n) == ReaderSteps(n - 1) + [Step(Reader)];
    }
  }

  lemma ReadsFrame(stream: seq<Datagram>, st: State, n: nat, image: Image)
    requires Entered(stream, st) && FirstFrame(stream[st.pos..], n, image)
    ensures Leads(stream, st, ReaderSteps(n), HasRead(st, n, image))
  {
    hide Do;
    ReadsOn(stream, st, n - 1);
    LastDatagram(stream, st, n - 1, image);
    LeadsSnoc(stream, st, ReaderSteps(n - 1), StillReading(st, n - 1), Step(Reader));
    assert ReaderSteps(n) == ReaderSteps(n - 1) + [Step(Reader)];
  }

  lemma AcceptableRest(stream: seq<Datagram>, n: nat)
    requires Acceptable(stream) && n <= |stream|
    ensures Received(stream[n..]) == stream[n..] && ValidToFirstFrame(stream[n..])
  {
    var rest := stream[n..];
    forall i | 0 <= i < |rest|
      ensures Received(rest)[i] == rest[i]
      ensures IsFirst(rest[i]) ==> ValidCount(CountOf(rest[i]))
    {
      assert rest[i] == stream[n + i] == Received(stream)[n + i];
    }
  }

  /** Reading into the reader's slot: a call of ReadPreview where the thread enters it takes the system, by
      steps of the reader alone, to the state where the image that it returned is in the slot and waits to be
      published, or to the end of the stream. */
  method ReadIntoSlot(loader: IL.ImageLoader, data: IL.Vector, ghost stream: seq<Datagram>, ghost st: State)
    returns (done: bool, ghost n: nat)
    requires Acceptable(stream) && Admits(stream, st)
    requires loader.inbox == stream[st.pos..] && loader.currentImageId < UINT16_LIMIT
    modifies loader, data
    ensures st.pos + n <= |stream| && loader.inbox == stream[st.pos + n..]
    ensures done ==> Leads(stream, st, ReaderSteps(n + 1), HasRead(BeginRead(st), n, data.content))
    ensures !done ==> loader.inbox == [] && Leads(stream, st, ReaderSteps(n + 1), StillReading(BeginRead(st), n))
  {
    hide Do, FirstFrame, NoFrame, Acceptable, Leads, Entered;
    ghost var left := stream[st.pos..];
    AcceptableRest(stream, st.pos);
    ghost var entered := BeginRead(st);
    assert entered.pos == st.pos && Shape(entered);
    done := loader.ReadPreview(data);
    n := |left| - |loader.inbox|;
    if done {
      BeginsCall(stream, st, n, HasRead(entered, n, data.content));
      ReadsFrame(stream, entered, n, data.content);
    } else {
      assert left[..|left|] == left;
      BeginsCall(stream, st, n, StillReading(entered, n));
      ReadsOn(stream, entered, n);
    }
  }
}
