/** From the captured images to the screen: the sender, the network, the receiver and the two threads. */
module Pipeline {
  import Bytes
  import opened Datagrams
  import opened FrameSpec
  import opened Reassembly
  import opened Channel
  import opened Splicing
  import opened Integrity
  import opened PreviewBuffers
  import opened PreviewRuns
  import CC = CameraController
  import IL = ImageLoader

  /** What is sent for images that the packet numbering can carry is never cut by the receiver, and never
      announces a count that it cannot handle. */
  lemma SentAcceptable(images: seq<Image>, s: seq<Datagram>, o: seq<Origin>)
    requires AllSendable(images) && Genuine(images, s, o)
    ensures Acceptable(s)
  {
    hide Packet;
    forall j | 0 <= j < |s|
      ensures Truncated(s[j]) == s[j] && (IsFirst(s[j]) ==> ValidCount(CountOf(s[j])))
    {
      SentDatagram(CC.WireId(o[j].image), images[o[j].image], o[j].packet);
    }
  }

  lemma SentDatagram(imageId: nat, image: Image, i: nat)
    requires imageId < Bytes.UINT16_LIMIT && Sendable(image) && i <= ChunkCount(|image|)
    ensures var d := Packet(imageId, image, i);
            Truncated(d) == d && (IsFirst(d) ==> ValidCount(CountOf(d)))
  {
    SendablePacket(imageId, image, i);
    PacketFields(imageId, image, i);
    SendableFirst(imageId, image);
  }

  /** From the captures to the previews, over a network that delivers only the datagrams at positions `f`.
      The receiver's calls return exactly the images none of whose datagrams was lost. */
  method Preview(images: seq<Image>, f: seq<nat>) returns (previews: seq<Image>)
    requires AllSendable(images)
    requires forall i, j :: 0 <= i < j < |f| ==> f[i] < f[j]
    requires forall j :: 0 <= j < |f| ==> f[j] < |Origins(images)|
    ensures |Origins(images)| == |CC.Sent(images)| && previews == Frames(Selected(CC.Sent(images), f))
    ensures Unmixed(images, OriginsAt(images, f)) ==> previews == IntactImages(images, OriginsAt(images, f), |images|)
  {
    hide Origins, CC.Sent, Frames, Packet, InOrder, Acceptable, Unmixed, IntactImages;
    SelectedInOrder(images, f);
    var controller := new CC.CameraController();
    controller.TransferData(images);
    assert controller.wire == CC.Sent(images);
    var inbox := Selected(controller.wire, f);
    InOrderAcceptable(images, inbox, OriginsAt(images, f));
    var loader := new IL.ImageLoader(inbox);
    previews := loader.ReadPreviews();
    if Unmixed(images, OriginsAt(images, f)) {
      UnmixedDelivery(images, inbox, OriginsAt(images, f));
    }
  }

  lemma InOrderAcceptable(images: seq<Image>, s: seq<Datagram>, o: seq<Origin>)
    requires AllSendable(images) && InOrder(images, s, o)
    ensures Acceptable(s) && Received(s) == s && ValidCounts(s)
  {
    SentAcceptable(images, s, o);
  }

  /** What arrives when the datagrams with these origins do, in whatever order and number. */
  function Arriving(images: seq<Image>, o: seq<Origin>): (s: seq<Datagram>)
    requires forall j :: 0 <= j < |o| ==> ValidOrigin(images, o[j])
    ensures |s| == |o| && forall j :: 0 <= j < |s| ==> s[j] == PacketAt(images, o[j])
  {
    seq(|o|, j requires 0 <= j < |o| => PacketAt(images, o[j]))
  }

  lemma AcceptableToFirstFrame(s: seq<Datagram>)
    requires Acceptable(s)
    ensures Received(s) == s && ValidToFirstFrame(s)
  {
  }

  /** One call over a network that may lose, duplicate and reorder: if the datagrams that it has received
      come from images distinct modulo 65536, it returns one of the images sent. */
  method PreviewOne(images: seq<Image>, o: seq<Origin>) returns (done: bool, preview: Image)
    requires AllSendable(images) && forall j :: 0 <= j < |o| ==> ValidOrigin(images, o[j])
    ensures done ==> exists n: nat :: FirstFrame(Arriving(images, o), n, preview)
                                 && (DistinctIds(o[..n]) ==> o[n - 1].image < |images| && preview == images[o[n - 1].image])
    ensures !done ==> NoFrame(Arriving(images, o))
  {
    hide Packet, FrameEnds, NoFrame, Truncated, IsFirst, Acceptable, DistinctIds, FirstFrame, PacketAt, ValidOrigin;
    var inbox := Arriving(images, o);
    SentAcceptable(images, inbox, o);
    AcceptableToFirstFrame(inbox);
    var loader := new IL.ImageLoader(inbox);
    done := loader.ReadPreview(loader.buffers[0]);
    preview := loader.buffers[0].content;
    if done {
      ghost var n := |inbox| - |loader.inbox|;
      ReturnedWasSent(images, o, n, preview);
    }
  }

  lemma ReturnedWasSent(images: seq<Image>, o: seq<Origin>, n: nat, image: Image)
    requires AllSendable(images) && forall j :: 0 <= j < |o| ==> ValidOrigin(images, o[j])
    requires FirstFrame(Arriving(images, o), n, image)
    ensures 0 < n <= |o|
    ensures DistinctIds(o[..n]) ==> o[n - 1].image < |images| && image == images[o[n - 1].image]
  {
    hide Packet, FrameEnds, DistinctIds, EndsFrame;
    var s := Arriving(images, o);
    if DistinctIds(o[..n]) {
      assert s[..n][..n - 1] == s[..n - 1] && s[..n][..n] == s[..n];
      NeverAMixture(images, s[..n], o[..n], image);
    }
  }

  /** In every reachable state, what has been set in the GUI is a prefix of the images none of whose
      datagrams was lost: in sending order, without duplicates, and never half-written. */
  lemma {:induction false} DisplaysWhatArrived(images: seq<Image>, s: seq<Datagram>, o: seq<Origin>, st: State)
    requires AllSendable(images) && InOrder(images, s, o) && Unmixed(images, o) && Reachable(s, st)
    ensures st.displayed <= Wholes(IntactImages(images, o, |images|))
  {
    UnmixedDelivery(images, s, o);
    DisplaysFrames(s, st);
  }

  /** When the threads can go no further, all of these images have been displayed. */
  lemma {:induction false} DisplaysAllThatArrived(images: seq<Image>, s: seq<Datagram>, o: seq<Origin>, run: seq<Action>, st: State)
    requires AllSendable(images) && InOrder(images, s, o) && Unmixed(images, o)
    requires Leads(s, Init(), run, st) && OnlySteps(run)
    requires Shape(st) && !CanStep(s, st, Reader) && !CanStep(s, st, Setter)
    ensures st.displayed == Wholes(IntactImages(images, o, |images|))
  {
    SentAcceptable(images, s, o);
    UnmixedDelivery(images, s, o);
    FinishedRunDisplaysAll(s, run, st);
  }

  /** Nothing lost: the GUI shows exactly the captured images. */
  lemma DisplaysWhatWasCaptured(images: seq<Image>, run: seq<Action>, st: State)
    requires AllSendable(images)
    requires Leads(CC.Sent(images), Init(), run, st) && OnlySteps(run)
    requires Shape(st) && !CanStep(CC.Sent(images), st, Reader) && !CanStep(CC.Sent(images), st, Setter)
    ensures st.displayed == Wholes(images)
  {
    SentInOrder(images);
    SentAcceptable(images, CC.Sent(images), Origins(images));
    LosslessDelivery(images);
    FinishedRunDisplaysAll(CC.Sent(images), run, st);
  }
}
