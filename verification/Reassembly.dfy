/** What the receiver knows between two datagrams, stated on the datagrams seen during the call. */
module Reassembly {
  import opened Bytes
  import opened Datagrams
  import opened FrameSpec

  /** The socket cuts a datagram that does not fit the receive buffers. */
  function Truncated(d: Datagram): Datagram {
    d[..Min(|d|, MAX_PACKET_SIZE)]
  }

  function Received(inbox: seq<Datagram>): (s: seq<Datagram>)
    ensures |s| == |inbox|
    ensures forall i :: 0 <= i < |s| ==> s[i] == Truncated(inbox[i])
  {
    seq(|inbox|, i requires 0 <= i < |inbox| => Truncated(inbox[i]))
  }

  /** The size given to the receive buffer for an image, in size_t arithmetic. */
  function ResizeTo(byteCount: nat): nat {
    ((byteCount + MAX_PAYLOAD - 1) % SIZE_T_LIMIT) / MAX_PAYLOAD * MAX_PAYLOAD
  }

  predicate ValidCount(byteCount: nat) {
    1 <= byteCount && byteCount + MAX_PAYLOAD - 1 < SIZE_T_LIMIT
  }

  ghost predicate ValidCounts(s: seq<Datagram>) {
    forall i :: 0 <= i < |s| && IsFirst(s[i]) ==> ValidCount(CountOf(s[i]))
  }

  /** The counts that are announced before the first frame is complete are valid. */
  ghost predicate ValidToFirstFrame(s: seq<Datagram>) {
    forall i :: 0 <= i < |s| && IsFirst(s[i]) && NoFrame(s[..i]) ==> ValidCount(CountOf(s[i]))
  }

  lemma ReceivedRest(inbox: seq<Datagram>, n: nat)
    requires n <= |inbox|
    ensures Received(inbox[n..]) == Received(inbox)[n..]
    ensures ValidCounts(Received(inbox)) ==> ValidCounts(Received(inbox[n..]))
  {
    hide Truncated, IsFirst;
    var rest := inbox[n..];
    assert forall i :: 0 <= i < |rest| ==> rest[i] == inbox[n + i];
  }

  lemma ValidThroughout(s: seq<Datagram>)
    requires ValidCounts(s)
    ensures ValidToFirstFrame(s)
  {
  }

  /** Datagrams that fit the receive buffers and announce valid counts. */
  ghost predicate Acceptable(s: seq<Datagram>) {
    Received(s) == s && ValidCounts(s)
  }

  /** The resized buffer has room for the next payload exactly when the announced count is valid;
      it then has room for every chunk of the image. */
  lemma ResizedWindow(byteCount: nat)
    requires byteCount < SIZE_T_LIMIT
    ensures MAX_PAYLOAD <= ResizeTo(byteCount) <==> ValidCount(byteCount)
    ensures ValidCount(byteCount) ==> ResizeTo(byteCount) == ChunkCount(byteCount) * MAX_PAYLOAD
  {
    var sum := byteCount + MAX_PAYLOAD - 1;
    if sum < SIZE_T_LIMIT {
      assert sum % SIZE_T_LIMIT == sum;
    } else {
      assert sum % SIZE_T_LIMIT == sum - SIZE_T_LIMIT;
    }
  }

  /** What the announcement of an image leaves in the receiver: a window for the next payload exactly for
      images that are not empty and whose size can be rounded up; for an empty one, an empty buffer. */
  lemma AnnouncedWindow(imageId: nat, image: Image)
    requires imageId < UINT16_LIMIT && |image| < SIZE_T_LIMIT
    ensures var d := Packet(imageId, image, 0);
      && IsFirst(d)
      && (MAX_PAYLOAD <= ResizeTo(CountOf(d)) <==> 1 <= |image| <= SIZE_T_LIMIT - MAX_PAYLOAD)
      && (image == [] ==> ResizeTo(CountOf(d)) == 0)
  {
    PacketFields(imageId, image, 0);
    ResizedWindow(|image|);
  }

  /** No image is under way at the end of the stream. */
  ghost predicate Quiet(s: seq<Datagram>) {
    forall k: nat, imageId: nat, image :: !Tail(s, k, imageId, image)
  }

  /** The stream ends with packets 0, 1, ..., n-1 of an image of `byteCount` bytes, whose content is in `data`. */
  ghost predicate Collected(s: seq<Datagram>, n: nat, imageId: nat, byteCount: nat, data: seq<byte>) {
    && 1 <= n <= |s| && n <= UINT16_LIMIT && imageId < UINT16_LIMIT
    && 1 <= byteCount < SIZE_T_LIMIT
    && (n - 1) * MAX_PAYLOAD <= |data|
    && s[|s| - n] == Header(imageId, 0) + Encode(byteCount, SIZE_T_BYTES)
    && forall i :: 1 <= i < n ==> s[|s| - n + i] == Header(imageId, i) + data[(i - 1) * MAX_PAYLOAD..i * MAX_PAYLOAD]
  }

  lemma QuietNoFrame(s: seq<Datagram>)
    requires Quiet(s)
    ensures !FrameEnds(s)
  {
  }

  lemma CollectedFirst(s: seq<Datagram>, n: nat, imageId: nat, byteCount: nat, data: seq<byte>)
    requires Collected(s, n, imageId, byteCount, data)
    ensures IsFirst(s[|s| - n]) && ImageIdOf(s[|s| - n]) == imageId && CountOf(s[|s| - n]) == byteCount
  {
    HeaderFields(imageId, 0, Encode(byteCount, SIZE_T_BYTES));
    SizeRoundTrip(byteCount);
  }

  lemma CollectedLast(s: seq<Datagram>, n: nat, imageId: nat, byteCount: nat, data: seq<byte>)
    requires Collected(s, n, imageId, byteCount, data)
    ensures |s[|s| - 1]| >= HEADER_SIZE && PacketIdOf(s[|s| - 1]) == n - 1
  {
    if n == 1 {
      CollectedFirst(s, n, imageId, byteCount, data);
    } else {
      HeaderFields(imageId, n - 1, data[(n - 2) * MAX_PAYLOAD..(n - 1) * MAX_PAYLOAD]);
      assert s[|s| - n + (n - 1)] == s[|s| - 1];
    }
  }

  /** While packets are being collected, they are the only image that can be under way. */
  lemma CollectedTail(s: seq<Datagram>, n: nat, imageId: nat, byteCount: nat, data: seq<byte>,
                      k: nat, otherId: nat, other: Image)
    requires Collected(s, n, imageId, byteCount, data) && Tail(s, k, otherId, other)
    ensures k == n && otherId == imageId && |other| == byteCount
  {
    hide Packet;
    CollectedFirst(s, n, imageId, byteCount, data);
    CollectedLast(s, n, imageId, byteCount, data);
    LastPacketId(s, k, otherId, other);
    TailAt(s, k, otherId, other, |s| - k);
    TailFirst(s, k, otherId, other);
  }

  lemma CollectedNoFrame(s: seq<Datagram>, n: nat, imageId: nat, byteCount: nat, data: seq<byte>)
    requires Collected(s, n, imageId, byteCount, data) && (n - 1) * MAX_PAYLOAD < byteCount
    ensures !FrameEnds(s)
  {
    hide Packet;
    forall image
      ensures !EndsFrame(s, image)
    {
      if otherId :| CompletesAs(s, otherId, image) {
        CollectedTail(s, n, imageId, byteCount, data, ChunkCount(|image|) + 1, otherId, image);
      }
    }
  }

  lemma OnFirst(seen: seq<Datagram>, d: Datagram, data: seq<byte>)
    requires IsFirst(d) && CountOf(d) >= 1
    ensures Collected(seen + [d], 1, ImageIdOf(d), CountOf(d), data)
  {
    ParsedHeader(d);
    ParsedFirst(d);
  }

  /** Only the start of an image makes a tail out of nothing. */
  lemma NewTail(seen: seq<Datagram>, d: Datagram, k: nat, imageId: nat, image: Image)
    requires Tail(seen + [d], k, imageId, image)
    ensures k == 1 ==> IsFirst(d)
    ensures k > 1 ==> Tail(seen, k - 1, imageId, image) && d == Packet(imageId, image, k - 1)
  {
    hide Packet;
    TailGrew(seen, d, k, imageId, image);
    if k == 1 {
      SendableFirst(imageId, image);
    }
  }

  lemma OnUnexpectedWhileQuiet(seen: seq<Datagram>, d: Datagram)
    requires Quiet(seen) && !IsFirst(d)
    ensures Quiet(seen + [d])
  {
    hide Packet;
    forall k: nat, imageId: nat, image
      ensures !Tail(seen + [d], k, imageId, image)
    {
      if Tail(seen + [d], k, imageId, image) {
        NewTail(seen, d, k, imageId, image);
      }
    }
  }

  /** The datagram continues the image being collected. */
  predicate Continues(d: Datagram, n: nat, imageId: nat, byteCount: nat)
    requires (n - 1) * MAX_PAYLOAD < byteCount
  {
    && |d| == HEADER_SIZE + Min(MAX_PAYLOAD, byteCount - (n - 1) * MAX_PAYLOAD)
    && ImageIdOf(d) == imageId && PacketIdOf(d) == n
  }

  lemma ChunkContinues(imageId: nat, image: Image, n: nat)
    requires imageId < UINT16_LIMIT && Sendable(image) && 1 <= n <= ChunkCount(|image|)
    ensures (n - 1) * MAX_PAYLOAD < |image|
    ensures Continues(Packet(imageId, image, n), n, imageId, |image|)
  {
    SendableChunks(image);
    PacketFields(imageId, image, n);
    ChunkSize(image, n);
  }

  lemma OnlyContinuation(seen: seq<Datagram>, d: Datagram, n: nat, imageId: nat, byteCount: nat, data: seq<byte>,
                         k: nat, otherId: nat, other: Image)
    requires Collected(seen, n, imageId, byteCount, data) && (n - 1) * MAX_PAYLOAD < byteCount
    requires Tail(seen + [d], k, otherId, other)
    ensures IsFirst(d) || Continues(d, n, imageId, byteCount)
  {
    hide Packet;
    NewTail(seen, d, k, otherId, other);
    if k > 1 {
      CollectedTail(seen, n, imageId, byteCount, data, k - 1, otherId, other);
      assert k - 1 == n && otherId == imageId && |other| == byteCount;
      ChunkContinues(imageId, other, n);
      assert d == Packet(imageId, other, n);
    }
  }

  lemma OnUnexpectedWhileCollecting(seen: seq<Datagram>, d: Datagram, n: nat, imageId: nat, byteCount: nat, data: seq<byte>)
    requires Collected(seen, n, imageId, byteCount, data) && (n - 1) * MAX_PAYLOAD < byteCount
    requires !IsFirst(d) && !Continues(d, n, imageId, byteCount)
    ensures Quiet(seen + [d])
  {
    hide Packet;
    forall k: nat, otherId: nat, other
      ensures !Tail(seen + [d], k, otherId, other)
    {
      if Tail(seen + [d], k, otherId, other) {
        OnlyContinuation(seen, d, n, imageId, byteCount, data, k, otherId, other);
      }
    }
  }

  lemma OnChunk(seen: seq<Datagram>, d: Datagram, n: nat, imageId: nat, byteCount: nat, data: seq<byte>, data': seq<byte>)
    requires Collected(seen, n, imageId, byteCount, data) && (n - 1) * MAX_PAYLOAD < byteCount && n < UINT16_LIMIT
    requires Continues(d, n, imageId, byteCount)
    requires |data'| >= n * MAX_PAYLOAD
    requires data'[..(n - 1) * MAX_PAYLOAD] == data[..(n - 1) * MAX_PAYLOAD]
    requires data'[(n - 1) * MAX_PAYLOAD..(n - 1) * MAX_PAYLOAD + |d| - HEADER_SIZE] == d[HEADER_SIZE..]
    ensures n * MAX_PAYLOAD < byteCount ==> Collected(seen + [d], n + 1, imageId, byteCount, data')
    ensures n * MAX_PAYLOAD >= byteCount ==> CompletesAs(seen + [d], imageId, data'[..byteCount])
  {
    hide ImageIdOf, PacketIdOf;
    ParsedHeader(d);
    assert d == d[..HEADER_SIZE] + d[HEADER_SIZE..];
    var s := seen + [d];
    var payload := data'[(n - 1) * MAX_PAYLOAD..(n - 1) * MAX_PAYLOAD + |d| - HEADER_SIZE];
    assert d == Header(imageId, n) + payload;
    assert s[|s| - (n + 1)] == seen[|seen| - n];
    forall i | 1 <= i < n
      ensures s[|s| - (n + 1) + i] == Header(imageId, i) + data'[(i - 1) * MAX_PAYLOAD..i * MAX_PAYLOAD]
    {
      assert s[|s| - (n + 1) + i] == seen[|seen| - n + i];
      SamePart(data, data', (i - 1) * MAX_PAYLOAD, i * MAX_PAYLOAD, (n - 1) * MAX_PAYLOAD);
    }
    if n * MAX_PAYLOAD >= byteCount {
      CompleteFrame(s, n, imageId, byteCount, data'[..byteCount]) by {
        forall i | 1 <= i < n
          ensures s[|s| - (n + 1) + i] == Header(imageId, i) + data'[..byteCount][(i - 1) * MAX_PAYLOAD..i * MAX_PAYLOAD]
        {
          SamePart(data', data'[..byteCount], (i - 1) * MAX_PAYLOAD, i * MAX_PAYLOAD, byteCount);
        }
      }
    }
  }

  lemma SamePart(a: seq<byte>, b: seq<byte>, from: nat, to: nat, n: nat)
    requires from <= to <= n <= |a| && n <= |b| && a[..n] == b[..n]
    ensures a[from..to] == b[from..to]
  {
    assert a[from..to] == a[..n][from..to];
    assert b[from..to] == b[..n][from..to];
  }

  lemma CompleteFrame(s: seq<Datagram>, n: nat, imageId: nat, byteCount: nat, image: Image)
    requires 1 <= n < UINT16_LIMIT && n < |s| && imageId < UINT16_LIMIT && |image| == byteCount
    requires (n - 1) * MAX_PAYLOAD < byteCount <= n * MAX_PAYLOAD
    requires s[|s| - (n + 1)] == Header(imageId, 0) + Encode(byteCount, SIZE_T_BYTES)
    requires forall i :: 1 <= i < n ==> s[|s| - (n + 1) + i] == Header(imageId, i) + image[(i - 1) * MAX_PAYLOAD..i * MAX_PAYLOAD]
    requires s[|s| - 1] == Header(imageId, n) + image[(n - 1) * MAX_PAYLOAD..byteCount]
    ensures CompletesAs(s, imageId, image)
  {
    hide Packet, Header, Encode;
    assert ChunkCount(byteCount) == n;
    var all := Fragments(imageId, image);
    var t := s[|s| - (n + 1)..];
    forall i | 0 <= i < n + 1
      ensures t[i] == all[i]
    {
      assert t[i] == s[|s| - (n + 1) + i];
      PacketParts(imageId, image, n, i);
    }
    assert t == all[..n + 1];
  }

  lemma PacketParts(imageId: nat, image: Image, n: nat, i: nat)
    requires 1 <= n && (n - 1) * MAX_PAYLOAD < |image| <= n * MAX_PAYLOAD && i <= n
    ensures n == ChunkCount(|image|)
    ensures Packet(imageId, image, i) == Header(imageId, i) +
      if i == 0 then Encode(|image|, SIZE_T_BYTES)
      else if i < n then image[(i - 1) * MAX_PAYLOAD..i * MAX_PAYLOAD]
      else image[(n - 1) * MAX_PAYLOAD..|image|]
  {
  }

  /** The receive invariant: what holds before every receive, on every path through the loop.
      The window at `offset` always fits the buffer. While an image is being collected, `offset` counts
      full chunks below the announced size, the buffer holds the payloads accepted so far, and the next
      packet id is their number plus one, which is exact for every image that can be sent. */
  ghost predicate BetweenDatagrams(seen: seq<Datagram>, discard: bool, currentImageId: nat, nextPacketId: nat,
                                   offset: nat, byteCount: nat, data: seq<byte>) {
    && offset + MAX_PAYLOAD <= |data|
    && NoFrame(seen)
    && (discard ==> Quiet(seen))
    && (!discard ==>
        && offset % MAX_PAYLOAD == 0 && offset < byteCount
        && |data| == ChunkCount(byteCount) * MAX_PAYLOAD
        && Collected(seen, offset / MAX_PAYLOAD + 1, currentImageId, byteCount, data)
        && nextPacketId == (offset / MAX_PAYLOAD + 1) % UINT16_LIMIT
        && (byteCount <= MAX_IMAGE_SIZE ==> nextPacketId == offset / MAX_PAYLOAD + 1))
  }

  lemma NothingReceived(currentImageId: nat, data: seq<byte>)
    requires |data| >= MAX_PAYLOAD
    ensures BetweenDatagrams([], true, currentImageId, 0, 0, 0, data)
  {
  }

  lemma NoFrameSnoc(seen: seq<Datagram>, d: Datagram)
    requires NoFrame(seen) && !FrameEnds(seen + [d])
    ensures NoFrame(seen + [d])
  {
    var s := seen + [d];
    assert s[..|s| - 1] == seen;
    NoFrameGrows(s);
  }

  lemma AfterFirst(seen: seq<Datagram>, d: Datagram, data: seq<byte>)
    requires NoFrame(seen) && IsFirst(d) && ValidCount(CountOf(d)) && |data| == ResizeTo(CountOf(d))
    ensures BetweenDatagrams(seen + [d], false, ImageIdOf(d), 1, 0, CountOf(d), data)
  {
    ParsedFirst(d);
    ResizedWindow(CountOf(d));
    OnFirst(seen, d, data);
    CollectedNoFrame(seen + [d], 1, ImageIdOf(d), CountOf(d), data);
    NoFrameSnoc(seen, d);
  }

  lemma AfterUnexpected(seen: seq<Datagram>, d: Datagram, discard: bool, currentImageId: nat, nextPacketId: nat,
                        offset: nat, byteCount: nat, data: seq<byte>)
    requires BetweenDatagrams(seen, discard, currentImageId, nextPacketId, offset, byteCount, data)
    requires !IsFirst(d)
    requires !discard ==> !Continues(d, offset / MAX_PAYLOAD + 1, currentImageId, byteCount)
    ensures Quiet(seen + [d]) && NoFrame(seen + [d])
  {
    if discard {
      OnUnexpectedWhileQuiet(seen, d);
    } else {
      OnUnexpectedWhileCollecting(seen, d, offset / MAX_PAYLOAD + 1, currentImageId, byteCount, data);
    }
    QuietNoFrame(seen + [d]);
    NoFrameSnoc(seen, d);
  }

  /** The payload is written at `offset`, before the datagram is examined. */
  ghost predicate Written(data: seq<byte>, data': seq<byte>, offset: nat, payload: seq<byte>) {
    && offset + |payload| <= |data| == |data'|
    && data'[..offset] == data[..offset]
    && data'[offset..offset + |payload|] == payload
  }

  lemma AfterChunk(seen: seq<Datagram>, d: Datagram, currentImageId: nat, nextPacketId: nat,
                   offset: nat, byteCount: nat, data: seq<byte>, data': seq<byte>)
    requires BetweenDatagrams(seen, false, currentImageId, nextPacketId, offset, byteCount, data)
    requires nextPacketId != 0 && Continues(d, nextPacketId, currentImageId, byteCount)
    requires (nextPacketId - 1) * MAX_PAYLOAD == offset && Written(data, data', offset, d[HEADER_SIZE..])
    ensures offset + |d| - HEADER_SIZE == byteCount ==> CompletesAs(seen + [d], currentImageId, data'[..byteCount])
    ensures offset + |d| - HEADER_SIZE != byteCount ==>
      BetweenDatagrams(seen + [d], false, currentImageId, (nextPacketId + 1) % UINT16_LIMIT, offset + MAX_PAYLOAD, byteCount, data')
  {
    hide Collected, CompletesAs, NoFrame, ImageIdOf, PacketIdOf;
    var n := nextPacketId;
    assert offset / MAX_PAYLOAD + 1 == n;
    OnChunk(seen, d, n, currentImageId, byteCount, data, data');
    if n * MAX_PAYLOAD < byteCount {
      CollectedNoFrame(seen + [d], n + 1, currentImageId, byteCount, data');
      NoFrameSnoc(seen, d);
    }
  }

  /** The expected packet id stays below the wrap whenever a packet other than packet 0 is expected. */
  lemma ExpectedPacket(seen: seq<Datagram>, currentImageId: nat, nextPacketId: nat, offset: nat, byteCount: nat, data: seq<byte>)
    requires BetweenDatagrams(seen, false, currentImageId, nextPacketId, offset, byteCount, data)
    ensures nextPacketId < UINT16_LIMIT
    ensures nextPacketId != 0 ==> nextPacketId == offset / MAX_PAYLOAD + 1 && offset == (nextPacketId - 1) * MAX_PAYLOAD
    ensures nextPacketId == 0 ==> offset / MAX_PAYLOAD + 1 == UINT16_LIMIT
  {
  }
}
