/** The stream seen through a network that may lose datagrams but keeps their order. */
module Channel {
  import opened Bytes
  import opened Datagrams
  import opened FrameSpec
  import opened FrameRuns
  import CC = CameraController

  /** Where a datagram comes from: packet `packet` of image number `image`. */
  datatype Origin = Origin(image: nat, packet: nat)

  ghost predicate AllSendable(images: seq<Image>) {
    forall k :: 0 <= k < |images| ==> Sendable(images[k])
  }

  predicate ValidOrigin(images: seq<Image>, o: Origin) {
    o.image < |images| && o.packet <= ChunkCount(|images[o.image]|)
  }

  function PacketAt(images: seq<Image>, o: Origin): Datagram
    requires ValidOrigin(images, o)
  {
    Packet(CC.WireId(o.image), images[o.image], o.packet)
  }

  predicate Before(a: Origin, b: Origin) {
    a.image < b.image || (a.image == b.image && a.packet < b.packet)
  }

  function LastOf(images: seq<Image>, k: nat): Origin
    requires k < |images|
  {
    Origin(k, ChunkCount(|images[k]|))
  }

  /** Every datagram of the stream was sent for one of the images; `o` says which. */
  ghost predicate Genuine(images: seq<Image>, s: seq<Datagram>, o: seq<Origin>) {
    && |o| == |s|
    && forall j :: 0 <= j < |o| ==> ValidOrigin(images, o[j]) && s[j] == PacketAt(images, o[j])
  }

  /** In sending order, none twice. */
  ghost predicate Ordered(o: seq<Origin>) {
    forall i, j :: 0 <= i < j < |o| ==> Before(o[i], o[j])
  }

  /** The received stream of a network that loses datagrams but keeps their order. */
  ghost predicate InOrder(images: seq<Image>, s: seq<Datagram>, o: seq<Origin>) {
    Genuine(images, s, o) && Ordered(o)
  }

  /** Adjacent received datagrams come from images less than 65536 apart. */
  ghost predicate NearGaps(o: seq<Origin>) {
    forall j :: 0 < j < |o| ==> o[j].image - o[j - 1].image < UINT16_LIMIT
  }

  /** The second datagram looks like the one after the first, but comes from another image. */
  predicate Seam(p: Origin, q: Origin) {
    p.image != q.image && CC.WireId(p.image) == CC.WireId(q.image) && q.packet == p.packet + 1
  }

  /** No two adjacent received datagrams only look consecutive. */
  ghost predicate Seamless(o: seq<Origin>) {
    forall j :: 0 < j < |o| ==> !Seam(o[j - 1], o[j])
  }

  /** All the datagrams of each frame come from one image. */
  ghost predicate WholeFrames(s: seq<Datagram>, o: seq<Origin>)
    requires |o| == |s|
  {
    forall m: nat, imageId: nat, image :: m <= |s| && CompletesAs(s[..m], imageId, image) ==>
      ChunkCount(|image|) < m && FromImage(o, m - 1 - ChunkCount(|image|), m, o[m - 1].image)
  }

  /** None of the datagrams of image `k` was lost. */
  ghost predicate Intact(images: seq<Image>, o: seq<Origin>, k: nat)
    requires k < |images|
  {
    forall i :: 0 <= i <= ChunkCount(|images[k]|) ==> Origin(k, i) in o
  }

  /** The images among the first `n` none of whose datagrams was lost, in sending order. */
  ghost function IntactImages(images: seq<Image>, o: seq<Origin>, n: nat): seq<Image>
    requires n <= |images|
  {
    if n == 0 then [] else
      IntactImages(images, o, n - 1) + if Intact(images, o, n - 1) then [images[n - 1]] else []
  }

  lemma ReceivedHeader(images: seq<Image>, s: seq<Datagram>, o: seq<Origin>, j: nat)
    requires AllSendable(images) && Genuine(images, s, o) && j < |s|
    ensures |s[j]| >= HEADER_SIZE && ImageIdOf(s[j]) == CC.WireId(o[j].image) && PacketIdOf(s[j]) == o[j].packet
  {
    SendablePacket(CC.WireId(o[j].image), images[o[j].image], o[j].packet);
  }

  lemma CloseAndCongruent(a: nat, b: nat)
    requires a <= b < a + UINT16_LIMIT && CC.WireId(a) == CC.WireId(b)
    ensures a == b
  {
  }

  lemma FrameOrigin(images: seq<Image>, s: seq<Datagram>, o: seq<Origin>, m: nat, k: nat, imageId: nat, image: Image, j: nat)
    requires AllSendable(images) && Genuine(images, s, o) && m <= |s| && Tail(s[..m], k, imageId, image) && m - k <= j < m
    ensures o[j].packet == j - (m - k) && CC.WireId(o[j].image) == imageId
  {
    TailInPrefix(s, m, k, imageId, image, j);
    ReceivedHeader(images, s, o, j);
  }

  /** The datagrams of a frame are packets 0, 1, 2, ... of images that share the frame's image id. */
  lemma FrameOrigins(images: seq<Image>, s: seq<Datagram>, o: seq<Origin>, m: nat, imageId: nat, image: Image)
    requires AllSendable(images) && Genuine(images, s, o) && m <= |s| && CompletesAs(s[..m], imageId, image)
    ensures ChunkCount(|image|) < m
    ensures SameIds(o, m - 1 - ChunkCount(|image|), m, imageId)
    ensures Counted(o, m - 1 - ChunkCount(|image|), m)
  {
    var k := ChunkCount(|image|) + 1;
    forall j | m - k <= j < m
      ensures o[j].packet == j - (m - k) && CC.WireId(o[j].image) == imageId
    {
      FrameOrigin(images, s, o, m, k, imageId, image, j);
    }
  }

  ghost predicate SameIds(o: seq<Origin>, from: nat, to: nat, imageId: nat)
    requires from <= to <= |o|
  {
    forall j :: from <= j < to ==> CC.WireId(o[j].image) == imageId
  }

  ghost predicate Counted(o: seq<Origin>, from: nat, to: nat)
    requires from <= to <= |o|
  {
    forall j :: from <= j < to ==> o[j].packet == j - from
  }

  ghost predicate FromImage(o: seq<Origin>, from: nat, to: nat, k: nat)
    requires from <= to <= |o|
  {
    forall j :: from <= j < to ==> o[j].image == k
  }

  /** When adjacent datagrams come from images less than 65536 apart, the wrapping image id cannot hide a
      change of image. */
  lemma NearGapsSeamless(o: seq<Origin>)
    requires Ordered(o) && NearGaps(o)
    ensures Seamless(o)
  {
    forall j | 0 < j < |o|
      ensures !Seam(o[j - 1], o[j])
    {
      if Seam(o[j - 1], o[j]) {
        assert Before(o[j - 1], o[j]);
        CloseAndCongruent(o[j - 1].image, o[j].image);
      }
    }
  }

  lemma {:induction false} SeamlessRun(o: seq<Origin>, start: nat, from: nat, to: nat, imageId: nat)
    requires Seamless(o) && start <= from < to <= |o| && SameIds(o, start, to, imageId) && Counted(o, start, to)
    ensures FromImage(o, from, to, o[to - 1].image)
    decreases |o| - from
  {
    hide CC.WireId;
    if from + 1 < to {
      SeamlessRun(o, start, from + 1, to, imageId);
      assert !Seam(o[from + 1 - 1], o[from + 1]);
    }
  }

  lemma SeamlessWhole(images: seq<Image>, s: seq<Datagram>, o: seq<Origin>)
    requires AllSendable(images) && Genuine(images, s, o) && Seamless(o)
    ensures WholeFrames(s, o)
  {
    hide CompletesAs;
    forall m: nat, imageId: nat, image | m <= |s| && CompletesAs(s[..m], imageId, image)
      ensures ChunkCount(|image|) < m && FromImage(o, m - 1 - ChunkCount(|image|), m, o[m - 1].image)
    {
      FrameOrigins(images, s, o, m, imageId, image);
      SeamlessRun(o, m - 1 - ChunkCount(|image|), m - 1 - ChunkCount(|image|), m, imageId);
    }
  }

  /** The origins of the first `n` datagrams of image `k`. */
  function Run(k: nat, n: nat): (run: seq<Origin>)
    ensures |run| == n && forall i :: 0 <= i < n ==> run[i] == Origin(k, i)
  {
    seq(n, i requires 0 <= i < n => Origin(k, i))
  }

  lemma IsRun(o: seq<Origin>, from: nat, to: nat, k: nat)
    requires from <= to <= |o| && Counted(o, from, to) && FromImage(o, from, to, k)
    ensures o[from..to] == Run(k, to - from)
  {
  }

  lemma RunIsTail(images: seq<Image>, s: seq<Datagram>, o: seq<Origin>, m: nat, k: nat, n: nat)
    requires Genuine(images, s, o) && k < |images| && Sendable(images[k])
    requires 1 <= n <= m <= |s| && n <= ChunkCount(|images[k]|) + 1 && o[m - n..m] == Run(k, n)
    ensures Tail(s[..m], n, CC.WireId(k), images[k])
  {
    var t := s[..m][m - n..];
    var all := Fragments(CC.WireId(k), images[k])[..n];
    forall i | 0 <= i < n
      ensures t[i] == all[i]
    {
      assert o[m - n..m][i] == Origin(k, i);
      var j := m - n + i;
      assert o[j] == Origin(k, i);
      assert t[i] == s[j];
    }
    assert t == all;
  }

  lemma RunFrame(images: seq<Image>, s: seq<Datagram>, o: seq<Origin>, m: nat, imageId: nat, image: Image, k: nat, n: nat)
    requires Genuine(images, s, o) && k < |images| && Sendable(images[k])
    requires m <= |s| && CompletesAs(s[..m], imageId, image) && n == ChunkCount(|image|) + 1
    requires 1 <= n <= m && n <= ChunkCount(|images[k]|) + 1 && o[m - n..m] == Run(k, n)
    ensures image == images[k]
  {
    RunIsTail(images, s, o, m, k, n);
    FrameOfTail(s[..m], imageId, image, CC.WireId(k), images[k]);
  }

  /** A frame whose datagrams all come from one image is that image. */
  lemma FrameOfOneImage(images: seq<Image>, s: seq<Datagram>, o: seq<Origin>, m: nat, imageId: nat, image: Image, k: nat)
    requires AllSendable(images) && Genuine(images, s, o) && m <= |s| && CompletesAs(s[..m], imageId, image)
    requires ChunkCount(|image|) < m && FromImage(o, m - 1 - ChunkCount(|image|), m, k)
    ensures k < |images| && image == images[k]
    ensures o[m - 1 - ChunkCount(|image|)..m] == Run(k, ChunkCount(|image|) + 1)
  {
    var n := ChunkCount(|image|) + 1;
    FrameOrigins(images, s, o, m, imageId, image);
    IsRun(o, m - n, m, k);
    var final := o[m - n..m][n - 1];
    assert final == o[m - 1] == Origin(k, n - 1);
    assert ValidOrigin(images, o[m - 1]);
    RunFrame(images, s, o, m, imageId, image, k, n);
  }

  /** A frame of the received stream is one of the images sent, and none of its datagrams was lost. */
  lemma FrameIsIntact(images: seq<Image>, s: seq<Datagram>, o: seq<Origin>, m: nat, image: Image)
    requires AllSendable(images) && Genuine(images, s, o) && WholeFrames(s, o)
    requires m <= |s| && EndsFrame(s[..m], image)
    ensures m > 0 && o[m - 1].image < |images| && o[m - 1] == LastOf(images, o[m - 1].image)
    ensures Intact(images, o, o[m - 1].image) && image == images[o[m - 1].image]
  {
    var imageId :| CompletesAs(s[..m], imageId, image);
    var k := o[m - 1].image;
    FrameOfOneImage(images, s, o, m, imageId, image, k);
    assert o[m - 1] == o[m - 1 - ChunkCount(|image|)..m][ChunkCount(|image|)];
    RunIsIntact(images, o, m, k, ChunkCount(|image|));
  }

  lemma RunIsIntact(images: seq<Image>, o: seq<Origin>, m: nat, k: nat, last: nat)
    requires k < |images| && last == ChunkCount(|images[k]|)
    requires last + 1 <= m <= |o| && o[m - 1 - last..m] == Run(k, last + 1)
    ensures Intact(images, o, k)
  {
    forall i | 0 <= i <= last
      ensures Origin(k, i) in o
    {
      assert o[m - 1 - last..m][i] == Origin(k, i);
    }
  }

  lemma NotAfter(o: seq<Origin>, p: nat, q: nat)
    requires Ordered(o)
    requires p < |o| && q < |o| && Before(o[p], o[q])
    ensures p < q
  {
    assert !Before(o[q], o[p]);
  }

  /** Nothing is sent between a packet and the next one of the same image. */
  lemma Adjacent(o: seq<Origin>, p: nat, q: nat)
    requires Ordered(o)
    requires p < |o| && q < |o| && o[q] == Origin(o[p].image, o[p].packet + 1)
    ensures p == q - 1
  {
    NotAfter(o, p, q);
    NothingBetween(o[p], o[q - 1], o[q]);
  }

  lemma NothingBetween(a: Origin, r: Origin, b: Origin)
    requires b == Origin(a.image, a.packet + 1)
    ensures !(Before(a, r) && Before(r, b))
  {
  }

  /** The datagrams of an image that were not lost are adjacent in the received stream. */
  lemma {:induction false} IntactIsContiguous(images: seq<Image>, o: seq<Origin>, m: nat, k: nat, i: nat)
    requires Ordered(o) && m < |o| && k < |images| && Intact(images, o, k)
    requires o[m] == LastOf(images, k) && i <= ChunkCount(|images[k]|)
    ensures 0 <= m - i
    ensures forall j :: m - i <= j <= m ==> o[j] == Origin(k, j - (m - ChunkCount(|images[k]|)))
  {
    if i > 0 {
      IntactIsContiguous(images, o, m, k, i - 1);
      var q := m - (i - 1);
      var earlier := Origin(k, o[q].packet - 1);
      assert earlier in o;
      var p :| 0 <= p < |o| && o[p] == earlier;
      Adjacent(o, p, q);
    }
  }

  lemma IntactIsRun(images: seq<Image>, o: seq<Origin>, m: nat, k: nat)
    requires Ordered(o) && m < |o| && k < |images| && Intact(images, o, k) && o[m] == LastOf(images, k)
    ensures var last := ChunkCount(|images[k]|);
            last <= m && o[m - last..m + 1] == Run(k, last + 1)
  {
    var last := ChunkCount(|images[k]|);
    IntactIsContiguous(images, o, m, k, last);
    IsRun(o, m - last, m + 1, k);
  }

  lemma IntactIsFrame(images: seq<Image>, s: seq<Datagram>, o: seq<Origin>, m: nat, k: nat)
    requires AllSendable(images) && InOrder(images, s, o) && m < |s|
    requires k < |images| && Intact(images, o, k) && o[m] == LastOf(images, k)
    ensures EndsFrame(s[..m + 1], images[k])
  {
    hide Packet, CC.WireId;
    IntactIsRun(images, o, m, k);
    RunIsTail(images, s, o, m + 1, k, ChunkCount(|images[k]|) + 1);
    assert CompletesAs(s[..m + 1], CC.WireId(k), images[k]);
  }

  /** How many images have their last packet at or before the `m`th received datagram. */
  ghost function Settled(images: seq<Image>, o: seq<Origin>, m: nat): (n: nat)
    requires m <= |o| && forall j :: 0 <= j < |o| ==> ValidOrigin(images, o[j])
    ensures n <= |images|
  {
    if m == 0 then 0
    else
      assert ValidOrigin(images, o[m - 1]);
      if o[m - 1] == LastOf(images, o[m - 1].image) then o[m - 1].image + 1 else o[m - 1].image
  }

  /** An image whose last packet falls between two adjacent received datagrams has lost it. */
  lemma LostBetween(images: seq<Image>, s: seq<Datagram>, o: seq<Origin>, m: nat, j: nat)
    requires InOrder(images, s, o) && m <= |o| && Settled(images, o, m) <= j < |images|
    requires m < |o| ==> j < o[m].image
    ensures !Intact(images, o, j)
  {
    hide PacketAt, Packet;
    var last := LastOf(images, j);
    forall p | 0 <= p < |o|
      ensures o[p] != last
    {
      if p < m {
        assert p == m - 1 || Before(o[p], o[m - 1]);
      } else {
        assert p == m || Before(o[m], o[p]);
      }
    }
    assert last !in o;
  }

  lemma {:induction false} SkipLost(images: seq<Image>, o: seq<Origin>, j: nat, k: nat)
    requires j <= k <= |images|
    requires forall i :: j <= i < k ==> !Intact(images, o, i)
    ensures IntactImages(images, o, k) == IntactImages(images, o, j)
    decreases k
  {
    if j < k {
      SkipLost(images, o, j, k - 1);
    }
  }

  lemma {:induction false} FramesOfPrefix(images: seq<Image>, s: seq<Datagram>, o: seq<Origin>, m: nat)
    requires AllSendable(images) && InOrder(images, s, o) && WholeFrames(s, o) && m <= |s|
    ensures Frames(s[..m]) == IntactImages(images, o, Settled(images, o, m))
  {
    hide CC.WireId, PacketAt, WholeFrames, Intact;
    if m > 0 {
      FramesOfPrefix(images, s, o, m - 1);
      var k := o[m - 1].image;
      var settled := Settled(images, o, m - 1);
      assert settled <= k by {
        assert m > 1 ==> Before(o[m - 2], o[m - 1]);
      }
      forall j | settled <= j < k
        ensures !Intact(images, o, j)
      {
        LostBetween(images, s, o, m - 1, j);
      }
      SkipLost(images, o, settled, k);
      LastOfPrefix(images, s, o, m);
    }
  }

  lemma LastOfPrefix(images: seq<Image>, s: seq<Datagram>, o: seq<Origin>, m: nat)
    requires AllSendable(images) && InOrder(images, s, o) && WholeFrames(s, o) && 0 < m <= |s|
    ensures var k := o[m - 1].image;
            Frames(s[..m]) == Frames(s[..m - 1])
              + if o[m - 1] == LastOf(images, k) && Intact(images, o, k) then [images[k]] else []
  {
    var k := o[m - 1].image;
    assert s[..m][..m - 1] == s[..m - 1];
    if o[m - 1] == LastOf(images, k) && Intact(images, o, k) {
      IntactIsFrame(images, s, o, m - 1, k);
      FramesNext(s[..m], images[k]);
    } else if image :| EndsFrame(s[..m], image) {
      FrameIsIntact(images, s, o, m, image);
    }
  }

  /** End to end: over a network that loses datagrams but keeps their order, the receiver finds exactly
      the images none of whose datagrams was lost, in sending order, if no adjacent datagrams only look
      consecutive. */
  lemma {:induction false} LossyDelivery(images: seq<Image>, s: seq<Datagram>, o: seq<Origin>)
    requires AllSendable(images) && InOrder(images, s, o) && Seamless(o)
    ensures Frames(s) == IntactImages(images, o, |images|)
  {
    SeamlessWhole(images, s, o);
    WholeDelivery(images, s, o);
  }

  /** In particular if adjacent datagrams come from images less than 65536 apart. */
  lemma NearDelivery(images: seq<Image>, s: seq<Datagram>, o: seq<Origin>)
    requires AllSendable(images) && InOrder(images, s, o) && NearGaps(o)
    ensures Frames(s) == IntactImages(images, o, |images|)
  {
    NearGapsSeamless(o);
    LossyDelivery(images, s, o);
  }

  lemma WholeDelivery(images: seq<Image>, s: seq<Datagram>, o: seq<Origin>)
    requires AllSendable(images) && InOrder(images, s, o) && WholeFrames(s, o)
    ensures Frames(s) == IntactImages(images, o, |images|)
  {
    FramesOfPrefix(images, s, o, |s|);
    assert s[..|s|] == s;
    var settled := Settled(images, o, |o|);
    forall j | settled <= j < |images|
      ensures !Intact(images, o, j)
    {
      LostBetween(images, s, o, |o|, j);
    }
    SkipLost(images, o, settled, |images|);
  }

  /** The positions in `images` of those among the first `n` none of whose datagrams was lost. */
  ghost function IntactNumbers(images: seq<Image>, o: seq<Origin>, n: nat): seq<nat>
    requires n <= |images|
  {
    if n == 0 then [] else
      IntactNumbers(images, o, n - 1) + if Intact(images, o, n - 1) then [n - 1] else []
  }

  /** What is delivered is a subsequence of what was sent: in order, without duplicates, complete. */
  lemma {:induction false} IntactSubsequence(images: seq<Image>, o: seq<Origin>, n: nat)
    requires n <= |images|
    ensures var g := IntactNumbers(images, o, n);
            && |g| == |IntactImages(images, o, n)|
            && (forall j :: 0 <= j < |g| ==> g[j] < n && Intact(images, o, g[j]) && IntactImages(images, o, n)[j] == images[g[j]])
            && (forall i, j :: 0 <= i < j < |g| ==> g[i] < g[j])
            && (forall k :: 0 <= k < n && Intact(images, o, k) ==> k in g)
  {
    if n > 0 {
      IntactSubsequence(images, o, n - 1);
      var g, h := IntactNumbers(images, o, n), IntactNumbers(images, o, n - 1);
      assert g == if Intact(images, o, n - 1) then h + [n - 1] else h;
    }
  }

  /** The origins of everything that is sent. */
  function Origins(images: seq<Image>): seq<Origin> {
    if images == [] then []
    else
      var last := |images| - 1;
      Origins(images[..last]) + Run(last, ChunkCount(|images[last]|) + 1)
  }

  lemma {:induction false} SentInOrder(images: seq<Image>)
    ensures InOrder(images, CC.Sent(images), Origins(images))
    ensures forall o :: ValidOrigin(images, o) ==> o in Origins(images)
  {
    if images != [] {
      var last := |images| - 1;
      var init := images[..last];
      SentInOrder(init);
      var o, run := Origins(init), Run(last, ChunkCount(|images[last]|) + 1);
      assert Origins(images) == o + run;
      forall j | 0 <= j < |o|
        ensures ValidOrigin(images, o[j]) && PacketAt(images, o[j]) == PacketAt(init, o[j]) && o[j].image < last
      {
        assert ValidOrigin(init, o[j]);
      }
      assert Genuine(images, CC.Sent(images), o + run);
      forall x | ValidOrigin(images, x)
        ensures x in o + run
      {
        if x.image == last {
          assert run[x.packet] == x;
        } else {
          assert ValidOrigin(init, x);
        }
      }
    }
  }

  /** The origins of the datagrams at positions `f` of what was sent. */
  function OriginsAt(images: seq<Image>, f: seq<nat>): (o: seq<Origin>)
    requires forall j :: 0 <= j < |f| ==> f[j] < |Origins(images)|
    ensures |o| == |f| && forall j :: 0 <= j < |o| ==> o[j] == Origins(images)[f[j]]
  {
    seq(|f|, j requires 0 <= j < |f| => Origins(images)[f[j]])
  }

  /** The datagrams that a network delivers which loses all but those at positions `f`. */
  function Selected(sent: seq<Datagram>, f: seq<nat>): (s: seq<Datagram>)
    requires forall j :: 0 <= j < |f| ==> f[j] < |sent|
    ensures |s| == |f| && forall j :: 0 <= j < |s| ==> s[j] == sent[f[j]]
  {
    seq(|f|, j requires 0 <= j < |f| => sent[f[j]])
  }

  /** Any subsequence of the datagrams sent is such a stream. */
  lemma {:induction false} SelectedInOrder(images: seq<Image>, f: seq<nat>)
    requires forall i, j :: 0 <= i < j < |f| ==> f[i] < f[j]
    requires forall j :: 0 <= j < |f| ==> f[j] < |Origins(images)|
    ensures |Origins(images)| == |CC.Sent(images)|
    ensures InOrder(images, Selected(CC.Sent(images), f), OriginsAt(images, f))
  {
    hide Origins, CC.Sent, PacketAt, ValidOrigin;
    SentInOrder(images);
  }

  /** When nothing is lost, everything is delivered, whatever the number of images. */
  lemma LosslessDelivery(images: seq<Image>)
    requires AllSendable(images)
    ensures Frames(CC.Sent(images)) == images
  {
    SentInOrder(images);
    var o := Origins(images);
    forall j | 0 < j < |o|
      ensures o[j].image - o[j - 1].image < UINT16_LIMIT
    {
      NoSkip(images, j);
    }
    NearDelivery(images, CC.Sent(images), o);
    AllIntact(images, o, |images|);
    assert images[..|images|] == images;
  }

  lemma NoSkip(images: seq<Image>, j: nat)
    requires 0 < j < |Origins(images)|
    ensures Origins(images)[j].image <= Origins(images)[j - 1].image + 1
  {
    SentInOrder(images);
    var o := Origins(images);
    if o[j].image > o[j - 1].image + 1 {
      var between := Origin(o[j].image - 1, 0);
      assert ValidOrigin(images, o[j]) && ValidOrigin(images, between);
      var p :| 0 <= p < |o| && o[p] == between;
      NotAfter(o, j - 1, p);
      NotAfter(o, p, j);
    }
  }

  lemma {:induction false} AllIntact(images: seq<Image>, o: seq<Origin>, n: nat)
    requires n <= |images| && forall x :: ValidOrigin(images, x) ==> x in o
    ensures IntactImages(images, o, n) == images[..n]
  {
    if n > 0 {
      AllIntact(images, o, n - 1);
      var k := n - 1;
      forall i | 0 <= i <= ChunkCount(|images[k]|)
        ensures Origin(k, i) in o
      {
        assert ValidOrigin(images, Origin(k, i));
      }
      assert Intact(images, o, k);
    }
  }
}
