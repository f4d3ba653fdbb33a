/** Frames: the complete images that occur in a stream of received datagrams. This is the reference
    meaning of the receiver, stated with the sender's own fragmentation and no receiver state. */
module FrameSpec {
  import opened Bytes
  import opened Datagrams

  /** The stream ends with the first `k` datagrams of an image. */
  ghost predicate Tail(s: seq<Datagram>, k: nat, imageId: nat, image: Image) {
    && imageId < UINT16_LIMIT && Sendable(image)
    && 1 <= k <= ChunkCount(|image|) + 1 && k <= |s|
    && s[|s| - k..] == Fragments(imageId, image)[..k]
  }

  ghost predicate CompletesAs(s: seq<Datagram>, imageId: nat, image: Image) {
    Tail(s, ChunkCount(|image|) + 1, imageId, image)
  }

  /** The last datagram of the stream completes this image. */
  ghost predicate EndsFrame(s: seq<Datagram>, image: Image) {
    exists imageId :: CompletesAs(s, imageId, image)
  }

  ghost predicate FrameEnds(s: seq<Datagram>) {
    exists image :: EndsFrame(s, image)
  }

  ghost predicate NoFrame(s: seq<Datagram>) {
    forall m :: 0 <= m <= |s| ==> !FrameEnds(s[..m])
  }

  /** The first frame of the stream is complete after `n` datagrams. */
  ghost predicate FirstFrame(s: seq<Datagram>, n: nat, image: Image) {
    && 0 < n <= |s|
    && NoFrame(s[..n - 1])
    && EndsFrame(s[..n], image)
  }

  /** All images completed anywhere in the stream, in the order of their last datagrams. */
  ghost function Frames(s: seq<Datagram>): seq<Image> {
    if s == [] then []
    else Frames(s[..|s| - 1]) + (if FrameEnds(s) then var image :| EndsFrame(s, image); [image] else [])
  }

  lemma TailPacket(s: seq<Datagram>, k: nat, imageId: nat, image: Image, j: nat)
    requires Tail(s, k, imageId, image) && |s| - k <= j < |s|
    ensures s[j] == Packet(imageId, image, j - (|s| - k))
  {
    hide Packet;
    var i := j - (|s| - k);
    assert s[j] == s[|s| - k..][i];
  }

  lemma TailAt(s: seq<Datagram>, k: nat, imageId: nat, image: Image, j: nat)
    requires Tail(s, k, imageId, image) && |s| - k <= j < |s|
    ensures |s[j]| >= HEADER_SIZE && ImageIdOf(s[j]) == imageId && PacketIdOf(s[j]) == j - (|s| - k)
  {
    hide Packet;
    TailPacket(s, k, imageId, image, j);
    SendablePacket(imageId, image, j - (|s| - k));
  }

  lemma TailFirst(s: seq<Datagram>, k: nat, imageId: nat, image: Image)
    requires Tail(s, k, imageId, image)
    ensures IsFirst(s[|s| - k]) && CountOf(s[|s| - k]) == |image|
  {
    hide Packet;
    TailPacket(s, k, imageId, image, |s| - k);
    SendableFirst(imageId, image);
  }

  /** A tail has grown by the next packet of its image. */
  lemma TailGrew(s: seq<Datagram>, d: Datagram, k: nat, imageId: nat, image: Image)
    requires Tail(s + [d], k, imageId, image)
    ensures d == Packet(imageId, image, k - 1)
    ensures k > 1 ==> Tail(s, k - 1, imageId, image)
  {
    hide Packet;
    var t: seq<Datagram> := s + [d];
    var all: seq<Datagram> := Fragments(imageId, image);
    TailPacket(t, k, imageId, image, |s|);
    if k > 1 {
      assert s[|s| - (k - 1)..] == t[|t| - k..][..k - 1];
      assert all[..k][..k - 1] == all[..k - 1];
    }
  }

  /** Two tails of one stream of the same length have the same image id and byte count. */
  lemma TailLength(s: seq<Datagram>, k: nat, idA: nat, a: Image, idB: nat, b: Image)
    requires Tail(s, k, idA, a) && Tail(s, k, idB, b)
    ensures idA == idB && |a| == |b|
  {
    hide Packet;
    TailAt(s, k, idA, a, |s| - k);
    TailAt(s, k, idB, b, |s| - k);
    TailFirst(s, k, idA, a);
    TailFirst(s, k, idB, b);
  }

  lemma LastPacketId(s: seq<Datagram>, k: nat, imageId: nat, image: Image)
    requires Tail(s, k, imageId, image)
    ensures |s[|s| - 1]| >= HEADER_SIZE && PacketIdOf(s[|s| - 1]) == k - 1
  {
    hide Packet;
    TailAt(s, k, imageId, image, |s| - 1);
  }

  /** The position of an image's start is determined by the last packet id. */
  lemma TailUnique(s: seq<Datagram>, j: nat, idA: nat, a: Image, k: nat, idB: nat, b: Image)
    requires Tail(s, j, idA, a) && Tail(s, k, idB, b)
    ensures j == k && idA == idB && |a| == |b|
  {
    hide Packet;
    LastPacketId(s, j, idA, a);
    LastPacketId(s, k, idB, b);
    TailLength(s, k, idA, a, idB, b);
  }

  /** A stream that ends with all the datagrams of an image. */
  lemma WholeTail(s: seq<Datagram>, imageId: nat, image: Image)
    requires CompletesAs(s, imageId, image)
    ensures var k := ChunkCount(|image|) + 1; k <= |s| && s[|s| - k..] == Fragments(imageId, image)
  {
    hide Packet;
    var k := ChunkCount(|image|) + 1;
    assert Fragments(imageId, image)[..k] == Fragments(imageId, image);
  }

  /** At most one image is completed by a datagram. */
  lemma FrameUnique(s: seq<Datagram>, a: Image, b: Image)
    requires EndsFrame(s, a) && EndsFrame(s, b)
    ensures a == b
  {
    hide Packet;
    var idA :| CompletesAs(s, idA, a);
    var idB :| CompletesAs(s, idB, b);
    TailUnique(s, ChunkCount(|a|) + 1, idA, a, ChunkCount(|b|) + 1, idB, b);
    WholeTail(s, idA, a);
    WholeTail(s, idB, b);
    FragmentsInjective(idA, a, idB, b);
  }

  lemma FramesNext(s: seq<Datagram>, image: Image)
    requires EndsFrame(s, image)
    ensures s != [] && Frames(s) == Frames(s[..|s| - 1]) + [image]
  {
    assert FrameEnds(s);
    var picked :| EndsFrame(s, picked) && Frames(s) == Frames(s[..|s| - 1]) + [picked];
    FrameUnique(s, image, picked);
  }

  lemma {:induction false} NoFrameNoImage(s: seq<Datagram>)
    requires NoFrame(s)
    ensures Frames(s) == []
  {
    if s != [] {
      assert s[..|s|] == s;
      NoFramePrefix(s, |s| - 1);
      NoFrameNoImage(s[..|s| - 1]);
    }
  }

  lemma NoFramePrefix(s: seq<Datagram>, n: nat)
    requires NoFrame(s) && n <= |s|
    ensures NoFrame(s[..n])
  {
    forall m | 0 <= m <= n
      ensures !FrameEnds(s[..n][..m])
    {
      assert s[..n][..m] == s[..m];
    }
  }

  lemma NoFrameGrows(s: seq<Datagram>)
    requires s != [] && NoFrame(s[..|s| - 1]) && !FrameEnds(s)
    ensures NoFrame(s)
  {
    forall m | 0 <= m <= |s|
      ensures !FrameEnds(s[..m])
    {
      if m == |s| {
        assert s[..m] == s;
      } else {
        assert s[..|s| - 1][..m] == s[..m];
      }
    }
  }
}
