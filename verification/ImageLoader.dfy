/** The receiving end: one call of readPreview reassembles one image. */
module ImageLoader {
  import opened Bytes
  import opened Datagrams
  import opened FrameSpec
  import opened FrameRuns
  import opened Reassembly

  function Overwrite(buffer: seq<byte>, at: nat, bytes: seq<byte>): (r: seq<byte>)
    requires at + |bytes| <= |buffer|
    ensures |r| == |buffer| && r[at..at + |bytes|] == bytes
    ensures forall i :: 0 <= i < |r| && !(at <= i < at + |bytes|) ==> r[i] == buffer[i]
  {
    buffer[..at] + bytes + buffer[at + |bytes|..]
  }

  /** The growable receive buffer. */
  class Vector {
    var content: seq<byte>

    constructor ()
      ensures content == []
    {
      content := [];
    }

    method Resize(n: nat)
      modifies this
      ensures content == old(content)[..Min(n, |old(content)|)] + seq(n - Min(n, |old(content)|), _ => 0)
      ensures |content| == n
      ensures n <= |old(content)| ==> content == old(content)[..n]
    {
      content := content[..Min(n, |content|)] + seq(n - Min(n, |content|), _ => 0);
    }
  }

  class ImageLoader {
    /** The datagrams that have reached the socket and have not been received. */
    var inbox: seq<Datagram>
    var currentImageId: nat
    const buffers: seq<Vector>

    ghost predicate Valid()
      reads this
    {
      |buffers| == 2 && buffers[0] != buffers[1] && currentImageId < UINT16_LIMIT
    }

    constructor (arriving: seq<Datagram>)
      ensures Valid() && inbox == arriving && currentImageId == UINT16_LIMIT - 1
      ensures forall i :: 0 <= i < 2 ==> fresh(buffers[i])
    {
      var first := new Vector();
      var second := new Vector();
      buffers := [first, second];
      inbox := arriving;
      currentImageId := UINT16_LIMIT - 1;
    }

    /** Scatter the next datagram over the header and the window of the buffer that starts at `offset`.
        A datagram shorter than the header leaves the rest of the header as it was. */
    method ReceiveFrom(header: array<byte>, data: Vector, offset: nat) returns (count: nat)
      requires inbox != [] && header.Length == HEADER_SIZE
      requires offset + MAX_PAYLOAD <= |data.content|
      modifies this`inbox, header, data
      ensures inbox == old(inbox)[1..]
      ensures var d := Truncated(old(inbox)[0]);
              && count == |d|
              && header[..] == Overwrite(old(header[..]), 0, d[..Min(HEADER_SIZE, count)])
              && data.content == Overwrite(old(data.content), offset, d[Min(HEADER_SIZE, count)..])
              && Written(old(data.content), data.content, offset, d[Min(HEADER_SIZE, count)..])
              && (count >= HEADER_SIZE ==> header[..2] == d[..2] && header[2..4] == d[2..4])
    {
      var d := Truncated(inbox[0]);
      inbox := inbox[1..];
      count := |d|;
      var m := Min(HEADER_SIZE, count);
      forall i | 0 <= i < m {
        header[i] := d[i];
      }
      data.content := Overwrite(data.content, offset, d[m..]);
    }

    /** What readPreview does with a datagram once it is in the buffers: the payload is already written at
        `offset`. The receive invariant is kept, or the image is complete. */
    method Examine(header: array<byte>, data: Vector, count: nat, offset: nat, nextPacketId: nat, discard: bool, byteCount: nat,
                   ghost seen: seq<Datagram>, ghost d: Datagram, ghost before: seq<byte>)
      returns (offset': nat, nextPacketId': nat, discard': bool, byteCount': nat, done: bool)
      requires header.Length == HEADER_SIZE && currentImageId < UINT16_LIMIT
      requires BetweenDatagrams(seen, discard, currentImageId, nextPacketId, offset, byteCount, before)
      requires IsFirst(d) ==> ValidCount(CountOf(d))
      requires count == |d| && Written(before, data.content, offset, d[Min(HEADER_SIZE, count)..])
      requires count >= HEADER_SIZE ==> header[..2] == d[..2] && header[2..4] == d[2..4]
      modifies this`currentImageId, data
      ensures currentImageId < UINT16_LIMIT
      ensures !done ==> BetweenDatagrams(seen + [d], discard', currentImageId, nextPacketId', offset', byteCount', data.content)
      ensures done ==> byteCount' <= |data.content| && CompletesAs(seen + [d], currentImageId, data.content[..byteCount'])
    {
      hide Collected, NoFrame, Quiet, CompletesAs;
      offset', nextPacketId', discard', byteCount', done := offset, nextPacketId, discard, byteCount, false;
      var imageId := Decode(header[..2]);
      var packetId := Decode(header[2..4]);
      Uint16Limit();
      if packetId == 0 {
        ghost var previousImageId := currentImageId;
        currentImageId := imageId;
        if count != HEADER_SIZE + SIZE_T_BYTES {
          AfterUnexpected(seen, d, discard, previousImageId, nextPacketId, offset, byteCount, before);
          nextPacketId' := UINT16_LIMIT - 1;
          discard' := true;
          offset' := 0;
          return;
        }
        assert data.content[offset..offset + SIZE_T_BYTES] == d[HEADER_SIZE..];
        byteCount' := Decode(data.content[offset..offset + SIZE_T_BYTES]);
        offset' := 0;
        var resizeTo := ResizeTo(byteCount');
        data.Resize(resizeTo);
        AfterFirst(seen, d, data.content);
        nextPacketId' := 1;
        discard' := false;
        return;
      }
      if discard || imageId != currentImageId || packetId != nextPacketId {
        AfterUnexpected(seen, d, discard, currentImageId, nextPacketId, offset, byteCount, before);
        discard' := true;
        currentImageId := imageId;
        nextPacketId' := UINT16_LIMIT - 1;
        offset' := 0;
        return;
      }
      ExpectedPacket(seen, currentImageId, nextPacketId, offset, byteCount, before);
      var remaining := byteCount - offset;
      var payloadSize := Min(MAX_PAYLOAD, remaining);
      var expectedSize := payloadSize + HEADER_SIZE;
      if count != expectedSize {
        AfterUnexpected(seen, d, discard, currentImageId, nextPacketId, offset, byteCount, before);
        discard' := true;
        nextPacketId' := UINT16_LIMIT - 1;
        return;
      }
      AfterChunk(seen, d, currentImageId, nextPacketId, offset, byteCount, before, data.content);
      offset' := offset + payloadSize;
      done := byteCount == offset';
      nextPacketId' := (nextPacketId + 1) % UINT16_LIMIT;
    }

    /** Read one image. The result is false when the datagrams run out first, which leaves the
        call waiting for more. */
    method ReadPreview(data: Vector) returns (done: bool)
      requires ValidToFirstFrame(Received(inbox)) && currentImageId < UINT16_LIMIT
      modifies this, data
      ensures currentImageId < UINT16_LIMIT
      ensures done ==> var n := |old(inbox)| - |inbox|;
                       && 0 <= n && inbox == old(inbox)[n..]
                       && FirstFrame(Received(old(inbox)), n, data.content)
                       && CompletesAs(Received(old(inbox))[..n], currentImageId, data.content)
      ensures !done ==> inbox == [] && NoFrame(Received(old(inbox)))
    {
      hide Collected, CompletesAs, NoFrame, Quiet;
      ghost var stream := Received(inbox);
      ghost var n := 0;
      var header := new byte[4];
      done := false;
      var offset: nat := 0;
      data.Resize(MAX_PAYLOAD);
      var nextPacketId: nat := 0;
      var discard := true;
      var byteCount: nat := 0;
      NothingReceived(currentImageId, data.content);
      while !done && inbox != []
        invariant n <= |stream| && inbox == old(inbox)[n..] && currentImageId < UINT16_LIMIT
        invariant !done ==> BetweenDatagrams(stream[..n], discard, currentImageId, nextPacketId, offset, byteCount, data.content)
        invariant done ==> byteCount <= |data.content| && FirstFrame(stream, n, data.content[..byteCount])
        invariant done ==> CompletesAs(stream[..n], currentImageId, data.content[..byteCount])
        decreases !done, |inbox|
      {
        ghost var before := data.content;
        ghost var d := stream[n];
        assert inbox[0] == old(inbox)[n];
        var count := ReceiveFrom(header, data, offset);
        assert stream[..n + 1] == stream[..n] + [d];
        offset, nextPacketId, discard, byteCount, done :=
          Examine(header, data, count, offset, nextPacketId, discard, byteCount, stream[..n], d, before);
        n := n + 1;
      }
      assert stream[..|stream|] == stream;
      if done {
        data.Resize(byteCount);
      }
    }

    /** The reading loop over the two slots. Each wait returns when the slot the loop asks for has been
        emptied; `previews` collects what is left in the slots. The loop ends with the datagrams. */
    method ReadPreviews() returns (previews: seq<Image>)
      requires Valid() && ValidCounts(Received(inbox))
      modifies this, buffers
      ensures Valid() && inbox == []
      ensures previews == Frames(Received(old(inbox)))
      ensures previews != [] ==> buffers[(|previews| - 1) % 2].content == previews[|previews| - 1]
    {
      hide FirstFrame, NoFrame, Received, ValidCounts, ValidToFirstFrame, Frames, Boundary;
      previews := [];
      var index: nat := 0;
      ghost var stream := Received(inbox);
      while true
        invariant Valid() && index == |previews| % 2
        invariant previews != [] ==> buffers[1 - index].content == previews[|previews| - 1]
        invariant ValidCounts(Received(inbox))
        invariant Frames(stream) == previews + Frames(Received(inbox))
        decreases |inbox|
      {
        ghost var waiting := inbox;
        ghost var left := Received(inbox);
        ValidThroughout(left);
        var done := ReadPreview(buffers[index]);
        if !done {
          NoFrameNoImage(left);
          NoFrameNoImage([]) by {
            NoFrameEmpty();
          }
          assert Received(inbox) == [];
          break;
        }
        ghost var n := |left| - |inbox|;
        FirstFrameFrames(left, n, buffers[index].content);
        ReceivedRest(waiting, n);
        previews := previews + [buffers[index].content];
        index := (index + 1) % 2;
      }
    }
  }
}
