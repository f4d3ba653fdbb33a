/** What the 16-bit image id cannot protect against, and exactly which sequences of images are safe. */
module Splicing {
  import opened Bytes
  import opened Datagrams
  import opened FrameSpec
  import opened FrameRuns
  import opened Channel
  import CC = CameraController

  /** The last packets of an image of `a` bytes can be taken from one of `b` bytes: all the packets have the
      sizes that the count announces. */
  predicate Spliceable(a: nat, b: nat) {
    a == b || (a % MAX_PAYLOAD == 0 && a < b)
  }

  /** Image `k` and a later one with the same id on the wire, whose packets can complete it. */
  predicate SplicePair(images: seq<Image>, k: nat, l: nat) {
    k < l < |images| && CC.WireId(k) == CC.WireId(l) && Spliceable(|images[k]|, |images[l]|)
  }

  ghost predicate Unspliceable(images: seq<Image>) {
    forall k: nat, l: nat :: !SplicePair(images, k, l)
  }

  /** The size of the last packet tells what sizes the image it comes from can have. */
  lemma SpliceSizes(c: Image, b: Image)
    requires 1 <= ChunkCount(|c|) <= ChunkCount(|b|)
    ensures |Chunk(c, ChunkCount(|c|))| == |Chunk(b, ChunkCount(|c|))| <==> Spliceable(|c|, |b|)
  {
    ChunkSize(c, ChunkCount(|c|));
    ChunkSize(b, ChunkCount(|c|));
  }

  lemma FrameCount(images: seq<Image>, s: seq<Datagram>, o: seq<Origin>, m: nat, imageId: nat, image: Image)
    requires AllSendable(images) && Genuine(images, s, o) && m <= |s| && CompletesAs(s[..m], imageId, image)
    ensures ChunkCount(|image|) < m
    ensures var first := o[m - 1 - ChunkCount(|image|)]; first.image < |images| && |images[first.image]| == |image|
  {
    hide Packet;
    var start := m - 1 - ChunkCount(|image|);
    StartOfPrefix(s, m, ChunkCount(|image|) + 1, imageId, image);
    FrameOrigin(images, s, o, m, ChunkCount(|image|) + 1, imageId, image, start);
    SendableFirst(CC.WireId(o[start].image), images[o[start].image]);
  }

  lemma FrameLast(images: seq<Image>, s: seq<Datagram>, o: seq<Origin>, m: nat, imageId: nat, image: Image)
    requires AllSendable(images) && Genuine(images, s, o) && m <= |s| && CompletesAs(s[..m], imageId, image)
    ensures 0 < m && 1 <= ChunkCount(|image|)
    ensures var last := o[m - 1];
      && last.image < |images| && last.packet == ChunkCount(|image|) <= ChunkCount(|images[last.image]|)
      && |Chunk(images[last.image], last.packet)| == |Chunk(image, last.packet)|
  {
    hide Packet, CC.WireId;
    var n := ChunkCount(|image|);
    var last := o[m - 1];
    SendableChunks(image);
    FrameOrigin(images, s, o, m, n + 1, imageId, image, m - 1);
    TailPacket(s[..m], n + 1, imageId, image, m - 1);
    SamePayload(imageId, image, CC.WireId(last.image), images[last.image], n);
  }

  lemma SamePayload(idA: nat, a: Image, idB: nat, b: Image, n: nat)
    requires 1 <= n <= ChunkCount(|a|) && n <= ChunkCount(|b|) && Packet(idA, a, n) == Packet(idB, b, n)
    ensures Chunk(a, n) == Chunk(b, n)
  {
    assert Chunk(a, n) == Packet(idA, a, n)[HEADER_SIZE..];
    assert Chunk(b, n) == Packet(idB, b, n)[HEADER_SIZE..];
  }

  /** A frame between whose first and last datagram the image changes needs a spliceable pair. */
  lemma {:induction false} FrameIsSplice(images: seq<Image>, s: seq<Datagram>, o: seq<Origin>, m: nat, imageId: nat, image: Image)
    requires AllSendable(images) && InOrder(images, s, o) && m <= |s| && CompletesAs(s[..m], imageId, image)
    ensures ChunkCount(|image|) < m
    ensures FromImage(o, m - 1 - ChunkCount(|image|), m, o[m - 1].image)
            || SplicePair(images, o[m - 1 - ChunkCount(|image|)].image, o[m - 1].image)
  {
    hide CompletesAs, Packet, CC.WireId;
    FrameCount(images, s, o, m, imageId, image);
    FrameLast(images, s, o, m, imageId, image);
    FrameOrigins(images, s, o, m, imageId, image);
    SpliceSizes(image, images[o[m - 1].image]);
    var start := m - 1 - ChunkCount(|image|);
    assert Before(o[start], o[m - 1]);
    if o[start].image == o[m - 1].image {
      forall j | start <= j < m
        ensures o[j].image == o[m - 1].image
      {
        assert j == start || Before(o[start], o[j]);
        assert j == m - 1 || Before(o[j], o[m - 1]);
      }
    }
  }

  lemma UnspliceableWhole(images: seq<Image>, s: seq<Datagram>, o: seq<Origin>)
    requires AllSendable(images) && InOrder(images, s, o) && Unspliceable(images)
    ensures WholeFrames(s, o)
  {
    hide CompletesAs, SplicePair;
    forall m: nat, imageId: nat, image | m <= |s| && CompletesAs(s[..m], imageId, image)
      ensures ChunkCount(|image|) < m && FromImage(o, m - 1 - ChunkCount(|image|), m, o[m - 1].image)
    {
      FrameIsSplice(images, s, o, m, imageId, image);
    }
  }

  /** The first `j` chunks of one image followed by the rest, up to the same size, of another. */
  function Spliced(a: Image, b: Image, j: nat): (c: Image)
    requires Spliceable(|a|, |b|) && j < ChunkCount(|a|)
    ensures |c| == |a|
  {
    a[..j * MAX_PAYLOAD] + b[j * MAX_PAYLOAD..|a|]
  }

  /** A splice is neither of the two images unless their contents agree. */
  lemma SplicedIsOther(a: Image, b: Image, j: nat)
    requires Spliceable(|a|, |b|) && j < ChunkCount(|a|)
    ensures Spliced(a, b, j) == a <==> a[j * MAX_PAYLOAD..] == b[j * MAX_PAYLOAD..|a|]
    ensures Spliced(a, b, j) == b <==> |a| == |b| && a[..j * MAX_PAYLOAD] == b[..j * MAX_PAYLOAD]
  {
    var n := j * MAX_PAYLOAD;
    var c := Spliced(a, b, j);
    assert c[..n] == a[..n] && c[n..] == b[n..|a|];
    assert a == a[..n] + a[n..] && b == b[..n] + b[n..];
  }

  /** Packets 0 to `j` of one image followed by the next packets of the other. */
  function SplicedStream(imageId: nat, a: Image, b: Image, j: nat): (s: seq<Datagram>)
    requires j < ChunkCount(|a|) <= ChunkCount(|b|)
    ensures |s| == ChunkCount(|a|) + 1
    ensures forall i :: 0 <= i < |s| ==> s[i] == Packet(imageId, if i <= j then a else b, i)
  {
    Fragments(imageId, a)[..j + 1] + Fragments(imageId, b)[j + 1..ChunkCount(|a|) + 1]
  }

  lemma SamePart(a: seq<byte>, b: seq<byte>, n: nat, m: nat, from: nat, to: nat)
    requires n <= from <= to <= m && m <= |a| && m <= |b| && a[n..m] == b[n..m]
    ensures a[from..to] == b[from..to]
  {
    var x, y := a[n..m], b[n..m];
    forall i | from <= i < to
      ensures a[i] == b[i]
    {
      assert a[i] == x[i - n] && b[i] == y[i - n];
    }
  }

  lemma SplicedPacket(imageId: nat, a: Image, b: Image, j: nat, i: nat)
    requires Spliceable(|a|, |b|) && j < ChunkCount(|a|) && i <= ChunkCount(|a|)
    ensures i <= ChunkCount(|b|) && Packet(imageId, Spliced(a, b, j), i) == Packet(imageId, if i <= j then a else b, i)
  {
    var c := Spliced(a, b, j);
    var n := j * MAX_PAYLOAD;
    if 0 < i <= j {
      assert c[..n] == a[..n];
      assert Chunk(c, i) == c[..n][(i - 1) * MAX_PAYLOAD..i * MAX_PAYLOAD];
      assert Chunk(c, i) == Chunk(a, i);
    } else if i > j {
      SameEnd(|a|, |b|, i);
      var from, to := (i - 1) * MAX_PAYLOAD, Min(i * MAX_PAYLOAD, |a|);
      SamePart(c, b, n, |a|, from, to);
      assert Chunk(c, i) == Chunk(b, i);
    }
  }

  lemma SameEnd(a: nat, b: nat, i: nat)
    requires Spliceable(a, b) && i <= ChunkCount(a)
    ensures i <= ChunkCount(b) && Min(i * MAX_PAYLOAD, a) == Min(i * MAX_PAYLOAD, b)
  {
  }

  lemma SplicedPackets(imageId: nat, a: Image, b: Image, j: nat)
    requires Spliceable(|a|, |b|) && j < ChunkCount(|a|) <= ChunkCount(|b|)
    ensures SplicedStream(imageId, a, b, j) == Fragments(imageId, Spliced(a, b, j))
  {
    hide Packet;
    forall i | 0 <= i <= ChunkCount(|a|)
      ensures Packet(imageId, Spliced(a, b, j), i) == Packet(imageId, if i <= j then a else b, i)
    {
      SplicedPacket(imageId, a, b, j, i);
    }
  }

  /** Where the datagrams of the spliced stream come from. */
  function SplicedOrigins(k: nat, l: nat, j: nat, n: nat): (o: seq<Origin>)
    ensures |o| == n && forall i :: 0 <= i < n ==> o[i] == Origin(if i <= j then k else l, i)
  {
    seq(n, i requires 0 <= i < n => Origin(if i <= j then k else l, i))
  }

  lemma SplicedInOrder(images: seq<Image>, k: nat, l: nat, j: nat)
    requires SplicePair(images, k, l) && j < ChunkCount(|images[k]|) <= ChunkCount(|images[l]|)
    ensures InOrder(images, SplicedStream(CC.WireId(k), images[k], images[l], j), SplicedOrigins(k, l, j, ChunkCount(|images[k]|) + 1))
  {
    hide Packet, CC.WireId;
    var s := SplicedStream(CC.WireId(k), images[k], images[l], j);
    var o := SplicedOrigins(k, l, j, ChunkCount(|images[k]|) + 1);
    forall i | 0 <= i < |o|
      ensures ValidOrigin(images, o[i]) && s[i] == PacketAt(images, o[i])
    {
    }
  }

  lemma SplicedLost(images: seq<Image>, k: nat, l: nat, j: nat, n: nat)
    requires SplicePair(images, k, l) && j < ChunkCount(|images[k]|) == n
    ensures IntactImages(images, SplicedOrigins(k, l, j, n + 1), |images|) == []
  {
    var o := SplicedOrigins(k, l, j, n + 1);
    forall i | 0 <= i < |images|
      ensures !Intact(images, o, i)
    {
      assert Origin(i, 0) !in o || Origin(i, n) !in o;
      assert Origin(i, 0) in o ==> i == k;
    }
    SkipLost(images, o, 0, |images|);
  }

  /** The id on the wire protects no spliceable pair: losing the end of one image, everything in between
      and the start of the other leaves, wherever the cut is, a stream that is read as an image mixed from
      the two, although both have lost datagrams. */
  lemma SpliceIsRead(images: seq<Image>, k: nat, l: nat, j: nat)
    requires AllSendable(images) && SplicePair(images, k, l) && j < ChunkCount(|images[k]|)
    ensures ChunkCount(|images[k]|) <= ChunkCount(|images[l]|)
    ensures var s := SplicedStream(CC.WireId(k), images[k], images[l], j);
            var o := SplicedOrigins(k, l, j, ChunkCount(|images[k]|) + 1);
            && InOrder(images, s, o)
            && Frames(s) == [Spliced(images[k], images[l], j)]
            && IntactImages(images, o, |images|) == []
  {
    hide Packet, Frames, InOrder, IntactImages, CC.WireId, Spliced;
    SameEnd(|images[k]|, |images[l]|, ChunkCount(|images[k]|));
    SplicedInOrder(images, k, l, j);
    SplicedPackets(CC.WireId(k), images[k], images[l], j);
    RoundTrip(CC.WireId(k), Spliced(images[k], images[l], j));
    SplicedLost(images, k, l, j, ChunkCount(|images[k]|));
  }

  /** The receiver finds exactly the images none of whose datagrams was lost. */
  ghost predicate DeliversIntact(images: seq<Image>, s: seq<Datagram>, o: seq<Origin>) {
    Frames(s) == IntactImages(images, o, |images|)
  }

  /** What makes a stream safe: the images that were sent, or what the network lost. */
  ghost predicate Unmixed(images: seq<Image>, o: seq<Origin>) {
    Unspliceable(images) || Seamless(o)
  }

  lemma UnmixedDelivery(images: seq<Image>, s: seq<Datagram>, o: seq<Origin>)
    requires AllSendable(images) && InOrder(images, s, o) && Unmixed(images, o)
    ensures DeliversIntact(images, s, o)
  {
    if Seamless(o) {
      LossyDelivery(images, s, o);
    } else {
      UnspliceableWhole(images, s, o);
      WholeDelivery(images, s, o);
    }
  }

  /** Exactly the sequences without a spliceable pair are delivered correctly whatever the network loses. */
  lemma DeliveryExactly(images: seq<Image>)
    requires AllSendable(images)
    ensures (forall s, o :: InOrder(images, s, o) ==> DeliversIntact(images, s, o)) <==> Unspliceable(images)
  {
    if Unspliceable(images) {
      forall s, o | InOrder(images, s, o)
        ensures DeliversIntact(images, s, o)
      {
        UnmixedDelivery(images, s, o);
      }
    } else {
      var k: nat, l: nat :| SplicePair(images, k, l);
      SendableChunks(images[k]);
      SpliceIsRead(images, k, l, 0);
      var s := SplicedStream(CC.WireId(k), images[k], images[l], 0);
      var o := SplicedOrigins(k, l, 0, ChunkCount(|images[k]|) + 1);
      assert InOrder(images, s, o) && !DeliversIntact(images, s, o);
    }
  }
}
