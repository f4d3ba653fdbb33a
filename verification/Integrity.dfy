/** What survives a network that also duplicates and reorders datagrams. */
module Integrity {
  import opened Bytes
  import opened Datagrams
  import opened FrameSpec
  import opened FrameRuns
  import opened Channel
  import CC = CameraController

  /** The images that the received datagrams come from have different ids on the wire. */
  ghost predicate DistinctIds(o: seq<Origin>) {
    forall i, j :: 0 <= i < |o| && 0 <= j < |o| && CC.WireId(o[i].image) == CC.WireId(o[j].image) ==> o[i].image == o[j].image
  }

  /** Integrity: under any loss, duplication and reordering, if the datagrams received during one call come
      from images distinct modulo 65536, what the call returns is an image that was sent, never a mixture. */
  lemma NeverAMixture(images: seq<Image>, s: seq<Datagram>, o: seq<Origin>, image: Image)
    requires AllSendable(images) && Genuine(images, s, o) && DistinctIds(o)
    requires FirstFrame(s, |s|, image)
    ensures o[|s| - 1].image < |images| && image == images[o[|s| - 1].image]
  {
    hide Packet;
    assert s[..|s|] == s;
    var imageId :| CompletesAs(s[..|s|], imageId, image);
    FrameOrigins(images, s, o, |s|, imageId, image);
    var k := o[|s| - 1].image;
    var from := |s| - 1 - ChunkCount(|image|);
    forall j | from <= j < |s|
      ensures o[j].image == k
    {
      assert CC.WireId(o[j].image) == imageId == CC.WireId(o[|s| - 1].image);
    }
    FrameOfOneImage(images, s, o, |s|, imageId, image, k);
  }
}
