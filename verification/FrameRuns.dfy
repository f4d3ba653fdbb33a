/** Properties of frames over whole streams: frames never overlap, so reading one image after another
    finds every frame; the fragmentation of an image is found whatever precedes it. */
module FrameRuns {
  import opened Bytes
  import opened Datagrams
  import opened FrameSpec

  /** A position where one call of the reader ends and the next begins. */
  ghost predicate Boundary(s: seq<Datagram>, n: nat) {
    n <= |s| && (n == 0 || FrameEnds(s[..n]))
  }

  lemma TailInPrefix(s: seq<Datagram>, m: nat, k: nat, imageId: nat, image: Image, j: nat)
    requires m <= |s| && Tail(s[..m], k, imageId, image) && m - k <= j < m
    ensures |s[j]| >= HEADER_SIZE && ImageIdOf(s[j]) == imageId && PacketIdOf(s[j]) == j - (m - k)
  {
    hide Packet;
    TailAt(s[..m], k, imageId, image, j);
    assert s[..m][j] == s[j];
  }

  /** A frame all of whose datagrams are the first packets of an image is that image. */
  lemma FrameOfTail(s: seq<Datagram>, imageId: nat, image: Image, sentId: nat, sent: Image)
    requires CompletesAs(s, imageId, image) && Tail(s, ChunkCount(|image|) + 1, sentId, sent)
    ensures image == sent && imageId == sentId
  {
    hide Packet;
    TailUnique(s, ChunkCount(|image|) + 1, imageId, image, ChunkCount(|image|) + 1, sentId, sent);
    assert CompletesAs(s, sentId, sent);
    FrameUnique(s, image, sent);
  }

  lemma TailOfTail(s: seq<Datagram>, k: nat, imageId: nat, image: Image, j: nat)
    requires Tail(s, k, imageId, image) && 1 <= j <= k
    ensures Tail(s[..|s| - k + j], j, imageId, image)
  {
    hide Packet;
    var t := s[..|s| - k + j];
    assert t[|t| - j..] == s[|s| - k..][..j];
    assert Fragments(imageId, image)[..k][..j] == Fragments(imageId, image)[..j];
  }

  /** A frame that ends later starts after the earlier frame has ended. */
  lemma NoOverlap(s: seq<Datagram>, n: nat, idA: nat, a: Image, m: nat, idB: nat, b: Image)
    requires n < m <= |s| && CompletesAs(s[..n], idA, a) && CompletesAs(s[..m], idB, b)
    ensures n <= m - (ChunkCount(|b|) + 1)
  {
    hide Packet;
    var k := ChunkCount(|b|) + 1;
    if m - k < n {
      var j := n - (m - k);
      TailOfTail(s[..m], k, idB, b, j);
      assert s[..m][..n] == s[..n];
      TailUnique(s[..n], ChunkCount(|a|) + 1, idA, a, j, idB, b);
    }
  }

  lemma FrameStays(s: seq<Datagram>, n: nat, image: Image)
    requires n <= |s| && EndsFrame(s[n..], image)
    ensures EndsFrame(s, image)
  {
    hide Packet;
    var imageId :| CompletesAs(s[n..], imageId, image);
    var k := ChunkCount(|image|) + 1;
    assert s[n..][|s| - n - k..] == s[|s| - k..];
    assert CompletesAs(s, imageId, image);
  }

  lemma FrameSurvives(s: seq<Datagram>, n: nat, imageId: nat, image: Image)
    requires Boundary(s, n) && n < |s| && CompletesAs(s, imageId, image)
    ensures n + ChunkCount(|image|) + 1 <= |s|
  {
    hide Packet;
    if n > 0 {
      var a :| EndsFrame(s[..n], a);
      var idA :| CompletesAs(s[..n], idA, a);
      assert s[..|s|] == s;
      NoOverlap(s, n, idA, a, |s|, imageId, image);
    }
  }

  lemma TailOfRest(s: seq<Datagram>, n: nat, k: nat, imageId: nat, image: Image)
    requires Tail(s, k, imageId, image) && n + k <= |s|
    ensures Tail(s[n..], k, imageId, image)
  {
    hide Packet;
    assert s[n..][|s| - n - k..] == s[|s| - k..];
  }

  /** Forgetting what precedes a boundary neither loses nor invents a frame. */
  lemma FrameAfterBoundary(s: seq<Datagram>, n: nat, image: Image)
    requires Boundary(s, n) && n < |s|
    ensures EndsFrame(s, image) <==> EndsFrame(s[n..], image)
  {
    hide Packet;
    if EndsFrame(s[n..], image) {
      FrameStays(s, n, image);
    }
    if EndsFrame(s, image) {
      var imageId :| CompletesAs(s, imageId, image);
      FrameSurvives(s, n, imageId, image);
      TailOfRest(s, n, ChunkCount(|image|) + 1, imageId, image);
      assert CompletesAs(s[n..], imageId, image);
    }
  }

  lemma {:induction false} FramesSplit(s: seq<Datagram>, n: nat)
    requires Boundary(s, n)
    ensures Frames(s) == Frames(s[..n]) + Frames(s[n..])
  {
    hide EndsFrame;
    if n == |s| {
      assert s[..n] == s && s[n..] == [];
    } else {
      var last := |s| - 1;
      var t := s[n..];
      assert s[..last][..n] == s[..n] && s[..last][n..] == t[..|t| - 1];
      FramesSplit(s[..last], n);
      if FrameEnds(s) {
        var image :| EndsFrame(s, image);
        FrameAfterBoundary(s, n, image);
        FramesNext(s, image);
        FramesNext(t, image);
      } else {
        forall image
          ensures !EndsFrame(t, image)
        {
          FrameAfterBoundary(s, n, image);
        }
        assert !FrameEnds(t);
      }
    }
  }

  /** An image is among the frames exactly when some datagram completes it. */
  lemma {:induction false} FramesMember(s: seq<Datagram>, image: Image)
    ensures image in Frames(s) <==> exists m :: 0 <= m <= |s| && EndsFrame(s[..m], image)
  {
    if s == [] {
      forall m | 0 <= m <= |s|
        ensures !EndsFrame(s[..m], image)
      {
        assert s[..m] == [];
      }
    } else {
      var t := s[..|s| - 1];
      FramesMember(t, image);
      assert s[..|s|] == s;
      assert forall m :: 0 <= m <= |t| ==> t[..m] == s[..m];
      if FrameEnds(s) {
        var last :| EndsFrame(s, last);
        FramesNext(s, last);
        if EndsFrame(s, image) {
          FrameUnique(s, image, last);
        }
      }
      if m :| 0 <= m <= |t| && EndsFrame(t[..m], image) {
        assert EndsFrame(s[..m], image);
      }
      if m :| 0 <= m <= |s| && EndsFrame(s[..m], image) {
        assert m == |s| || EndsFrame(t[..m], image);
      }
    }
  }

  lemma {:induction false} FirstFrameExists(s: seq<Datagram>, m: nat) returns (n: nat, image: Image)
    requires m <= |s| && FrameEnds(s[..m])
    ensures n <= m && FirstFrame(s, n, image)
  {
    if i :| 0 <= i < m && FrameEnds(s[..i]) {
      n, image := FirstFrameExists(s, i);
    } else {
      n := m;
      image :| EndsFrame(s[..m], image);
      assert m > 0;
      var t := s[..m - 1];
      forall i | 0 <= i <= |t|
        ensures !FrameEnds(t[..i])
      {
        assert t[..i] == s[..i];
      }
    }
  }

  lemma NoneBefore(s: seq<Datagram>, n: nat, image: Image, m: nat)
    requires FirstFrame(s, n, image) && m < n
    ensures !FrameEnds(s[..m])
  {
    assert s[..n - 1][..m] == s[..m];
  }

  lemma FirstFrameUnique(s: seq<Datagram>, n: nat, a: Image, m: nat, b: Image)
    requires FirstFrame(s, n, a) && FirstFrame(s, m, b)
    ensures n == m && a == b
  {
    if n < m {
      NoneBefore(s, m, b, n);
    } else if m < n {
      NoneBefore(s, n, a, m);
    } else {
      FrameUnique(s[..n], a, b);
    }
  }

  /** The images returned by successive calls, each of which reads up to the first frame of what is left. */
  ghost function CallResults(s: seq<Datagram>): seq<Image>
    decreases |s|
  {
    if n: nat, image :| FirstFrame(s, n, image) then [image] + CallResults(s[n..]) else []
  }

  /** One call's share of the frames. */
  lemma FirstFrameFrames(s: seq<Datagram>, n: nat, image: Image)
    requires FirstFrame(s, n, image)
    ensures Boundary(s, n) && Frames(s[..n]) == [image]
    ensures Frames(s) == [image] + Frames(s[n..])
  {
    assert FrameEnds(s[..n]);
    assert s[..n][..n - 1] == s[..n - 1];
    NoFrameNoImage(s[..n - 1]);
    FramesNext(s[..n], image);
    FramesSplit(s, n);
  }

  /** Successive calls return exactly the frames of the stream. */
  lemma {:induction false} CallsFindAllFrames(s: seq<Datagram>)
    ensures CallResults(s) == Frames(s)
    decreases |s|
  {
    if NoFrame(s) {
      forall n: nat, image
        ensures !FirstFrame(s, n, image)
      {
      }
      NoFrameNoImage(s);
    } else {
      var m :| 0 <= m <= |s| && FrameEnds(s[..m]);
      var first, firstImage := FirstFrameExists(s, m);
      var n: nat, image :| FirstFrame(s, n, image) && CallResults(s) == [image] + CallResults(s[n..]);
      FirstFrameFrames(s, n, image);
      CallsFindAllFrames(s[n..]);
    }
  }

  lemma IncompleteIsNoFrame(s: seq<Datagram>, j: nat, imageId: nat, image: Image)
    requires Tail(s, j, imageId, image) && j <= ChunkCount(|image|)
    ensures !FrameEnds(s)
  {
    hide Packet;
    forall other
      ensures !EndsFrame(s, other)
    {
      if otherId :| CompletesAs(s, otherId, other) {
        TailUnique(s, j, imageId, image, ChunkCount(|other|) + 1, otherId, other);
      }
    }
  }

  lemma ArrivingTail(before: seq<Datagram>, imageId: nat, image: Image, j: nat)
    requires imageId < UINT16_LIMIT && Sendable(image) && 1 <= j <= ChunkCount(|image|) + 1
    ensures Tail(before + Fragments(imageId, image)[..j], j, imageId, image)
  {
    hide Packet;
    var all := Fragments(imageId, image)[..j];
    var s: seq<Datagram> := before + all;
    assert s[|s| - j..] == all;
  }

  /** While an image arrives, nothing is completed before its last datagram. */
  lemma {:induction false} NoFrameInside(before: seq<Datagram>, imageId: nat, image: Image, j: nat)
    requires NoFrame(before) && imageId < UINT16_LIMIT && Sendable(image) && j <= ChunkCount(|image|)
    ensures NoFrame(before + Fragments(imageId, image)[..j])
  {
    hide Packet;
    var all := Fragments(imageId, image);
    if j == 0 {
      assert before + all[..0] == before;
    } else {
      NoFrameInside(before, imageId, image, j - 1);
      ArrivingTail(before, imageId, image, j);
      var s := before + all[..j];
      IncompleteIsNoFrame(s, j, imageId, image);
      assert s[..|s| - 1] == before + all[..j - 1];
      NoFrameGrows(s);
    }
  }

  /** Self-synchronisation: whatever was received without completing an image, the fragmentation of an
      image is then read completely, and the call ends on its last datagram. */
  lemma SelfSynchronisation(before: seq<Datagram>, imageId: nat, image: Image, after: seq<Datagram>)
    requires NoFrame(before) && imageId < UINT16_LIMIT && Sendable(image)
    ensures FirstFrame(before + Fragments(imageId, image) + after, |before| + ChunkCount(|image|) + 1, image)
  {
    hide Packet;
    var all := Fragments(imageId, image);
    var s := before + all + after;
    var last := ChunkCount(|image|);
    NoFrameInside(before, imageId, image, last);
    var n := |before| + last + 1;
    assert s[..n - 1] == before + all[..last];
    assert s[..n] == before + all;
    assert all == all[..last + 1];
    ArrivingTail(before, imageId, image, last + 1);
    assert CompletesAs(s[..n], imageId, image);
  }

  /** Only packet 0 can be taken for the start of an image, even when packet ids wrap: the other
      datagrams with packet id 0 are full, unless one is the very last. */
  lemma OnlyPacketZeroStarts(imageId: nat, image: Image, i: nat)
    requires imageId < UINT16_LIMIT && i < ChunkCount(|image|)
    ensures IsFirst(Packet(imageId, image, i)) ==> i == 0
  {
    if i > 0 {
      ChunkSize(image, i);
      assert |Packet(imageId, image, i)| == MAX_PACKET_SIZE;
    }
  }

  /** No frame can be pieced together from the fragments of an image that is empty or too large. */
  lemma UnsendableHasNoFrame(imageId: nat, image: Image, m: nat, otherId: nat, other: Image)
    requires imageId < UINT16_LIMIT && |image| < SIZE_T_LIMIT && m <= ChunkCount(|image|) + 1
    requires CompletesAs(Fragments(imageId, image)[..m], otherId, other)
    ensures Sendable(image)
  {
    hide Packet, CountOf, IsFirst;
    var all := Fragments(imageId, image);
    var k := ChunkCount(|other|) + 1;
    StartOfPrefix(all, m, k, otherId, other);
    CountedPacket(imageId, image, m - k, other);
  }

  lemma StartOfPrefix(s: seq<Datagram>, m: nat, k: nat, imageId: nat, image: Image)
    requires m <= |s| && Tail(s[..m], k, imageId, image)
    ensures k <= m && IsFirst(s[m - k]) && CountOf(s[m - k]) == |image|
  {
    hide Packet;
    TailFirst(s[..m], k, imageId, image);
  }

  lemma CountedPacket(imageId: nat, image: Image, i: nat, other: Image)
    requires imageId < UINT16_LIMIT && |image| < SIZE_T_LIMIT && i < ChunkCount(|image|)
    requires IsFirst(Packet(imageId, image, i)) && CountOf(Packet(imageId, image, i)) == |other|
    ensures |image| == |other|
  {
    hide Packet, CountOf;
    OnlyPacketZeroStarts(imageId, image, i);
    PacketFields(imageId, image, i);
  }

  /** Round trip: the stream of a single image yields exactly that image when the packet ids can carry
      it, and nothing otherwise. */
  lemma RoundTrip(imageId: nat, image: Image)
    requires imageId < UINT16_LIMIT && |image| < SIZE_T_LIMIT
    ensures Frames(Fragments(imageId, image)) == if Sendable(image) then [image] else []
  {
    var all := Fragments(imageId, image);
    assert all == [] + all + [];
    if Sendable(image) {
      NoFrameEmpty();
      SelfSynchronisation([], imageId, image, []);
      FirstFrameFrames(all, |all|, image);
      assert all[|all|..] == [];
    } else {
      forall m | 0 <= m <= |all|
        ensures !FrameEnds(all[..m])
      {
        if other, otherId :| CompletesAs(all[..m], otherId, other) {
          UnsendableHasNoFrame(imageId, image, m, otherId, other);
        }
      }
      NoFrameNoImage(all);
    }
  }

  lemma NoFrameEmpty()
    ensures NoFrame([])
  {
  }
}
