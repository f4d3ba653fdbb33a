/** The sending end: the transfer loop of the camera controller, which cuts every captured image
    into datagrams. */
module CameraController {
  import opened Bytes
  import opened Datagrams

  const UNSIGNED_LIMIT := 0x1_0000_0000

  /** Image counters are stored in 16 bits. */
  function WireId(imageId: nat): (wireId: nat)
    ensures wireId < UINT16_LIMIT
  {
    imageId % UINT16_LIMIT
  }

  /** Everything that is sent for a sequence of images; image `k` travels under the 16-bit id `WireId(k)`. */
  function Sent(images: seq<Image>): seq<Datagram> {
    if images == [] then []
    else
      var last := |images| - 1;
      Sent(images[..last]) + Fragments(WireId(last), images[last])
  }

  function NextImageId(currentImageId: nat): nat {
    (currentImageId + 1) % UNSIGNED_LIMIT
  }

  /** Storing a counter in a 16-bit field keeps it modulo 65536. */
  lemma StoredModulo(n: nat, m: nat)
    requires n % UINT16_LIMIT == m % UINT16_LIMIT
    ensures Encode(n, 2) == Encode(m, 2)
  {
    hide Encode, Decode;
    Uint16RoundTrip(n);
    Uint16RoundTrip(m);
    EncodeDecode(Encode(n, 2));
    EncodeDecode(Encode(m, 2));
  }

  /** The unsigned image counter still counts modulo 65536 when it wraps. */
  lemma ImageCounter(currentImageId: nat, k: nat)
    requires WireId(currentImageId) == WireId(k)
    ensures WireId(NextImageId(currentImageId)) == WireId(k + 1)
  {
    var n := currentImageId + 1;
    assert n == (n / UNSIGNED_LIMIT) * UNSIGNED_LIMIT + n % UNSIGNED_LIMIT;
  }

  lemma SentNext(images: seq<Image>, k: nat)
    requires k < |images|
    ensures Sent(images[..k + 1]) == Sent(images[..k]) + Fragments(WireId(k), images[k])
  {
    assert images[..k + 1][..k] == images[..k];
  }

  lemma NextModulo(i: nat)
    ensures (i + 1) % UINT16_LIMIT == ((i % UINT16_LIMIT + 1) % UINT16_LIMIT) % UINT16_LIMIT
  {
    assert i == (i / UINT16_LIMIT) * UINT16_LIMIT + i % UINT16_LIMIT;
  }

  /** A 16-bit counter that is incremented modulo 65536 stores the next number. */
  lemma NextStored(stored: seq<byte>, i: nat)
    requires stored == Encode(i, 2)
    ensures Encode((Decode(stored) + 1) % UINT16_LIMIT, 2) == Encode(i + 1, 2)
  {
    hide Encode, Decode;
    Uint16RoundTrip(i);
    NextModulo(i);
    StoredModulo(i + 1, (i % UINT16_LIMIT + 1) % UINT16_LIMIT);
  }

  lemma FirstFragment(imageId: nat, image: Image)
    ensures Fragments(imageId, image) == [Header(imageId, 0) + Encode(|image|, SIZE_T_BYTES)] + Fragments(imageId, image)[1..]
  {
    hide Packet, Header, Encode;
    PacketZero(imageId, image);
    assert Fragments(imageId, image)[0] == Packet(imageId, image, 0);
    FirstAndRest(Fragments(imageId, image));
  }

  lemma FirstAndRest(datagrams: seq<Datagram>)
    requires datagrams != []
    ensures datagrams == [datagrams[0]] + datagrams[1..]
  {
  }

  lemma PacketZero(imageId: nat, image: Image)
    ensures Packet(imageId, image, 0) == Header(imageId, 0) + Encode(|image|, SIZE_T_BYTES)
  {
    hide Header, Encode;
  }

  /** Packet `i` carries what remains of the image from its offset, up to a full payload. */
  lemma PacketAtOffset(imageId: nat, image: Image, i: nat)
    requires 1 <= i <= ChunkCount(|image|)
    ensures var offset := (i - 1) * MAX_PAYLOAD;
            var size := Min(MAX_PAYLOAD, |image| - offset);
            && size > 0 && offset + size == Min(i * MAX_PAYLOAD, |image|)
            && Packet(imageId, image, i) == Header(imageId, i) + image[offset..offset + size]
  {
    hide Header;
  }

  lemma NextFragment(imageId: nat, image: Image, i: nat)
    requires 1 <= i <= ChunkCount(|image|)
    ensures var offset := (i - 1) * MAX_PAYLOAD;
            var size := Min(MAX_PAYLOAD, |image| - offset);
            && size > 0 && offset + size == Min(i * MAX_PAYLOAD, |image|)
            && Fragments(imageId, image)[..i + 1]
               == Fragments(imageId, image)[..i] + [Header(imageId, i) + image[offset..offset + size]]
  {
    hide Packet, Header;
    PacketAtOffset(imageId, image, i);
    assert Fragments(imageId, image)[i] == Packet(imageId, image, i);
  }

  class CameraController {
    var cameraFiles: array<Image>
    var cameraFilesEmpty: array<bool>
    /** The datagrams handed to the socket so far. */
    var wire: seq<Datagram>

    ghost predicate Valid()
      reads this
    {
      cameraFiles.Length == 2 && cameraFilesEmpty.Length == 2
    }

    constructor ()
      ensures Valid() && fresh(cameraFiles) && fresh(cameraFilesEmpty)
      ensures wire == [] && cameraFilesEmpty[0] && cameraFilesEmpty[1]
    {
      cameraFiles := new Image[2](_ => []);
      cameraFilesEmpty := new bool[2](_ => true);
      wire := [];
    }

    method StoreUint16(header: array<byte>, at: nat, n: nat)
      requires at + 2 <= header.Length
      modifies header
      ensures header[..] == old(header[..at]) + Encode(n, 2) + old(header[at + 2..])
    {
      var bytes := Encode(n, 2);
      header[at], header[at + 1] := bytes[0], bytes[1];
    }

    method SendTo(header: array<byte>, payload: seq<byte>)
      modifies this`wire
      ensures wire == old(wire) + [header[..] + payload]
    {
      wire := wire + [header[..] + payload];
    }

    /** The image id is cut to 16 bits when it is stored in the header. */
    method FirstHeader(header: array<byte>, currentImageId: nat)
      requires header.Length == HEADER_SIZE
      modifies header
      ensures header[..] == Header(WireId(currentImageId), 0)
    {
      StoredModulo(WireId(currentImageId), currentImageId);
      StoreUint16(header, 0, currentImageId);
      ghost var imageId := header[..2];
      StoreUint16(header, 2, 0);
      assert header[..] == imageId + Encode(0, 2);
    }

    /** Send the image in slot `index`, which is full, and give the slot back. */
    method TransferImage(index: nat, currentImageId: nat)
      requires Valid() && index < 2 && !cameraFilesEmpty[index] && |cameraFiles[index]| < SIZE_T_LIMIT
      modifies this`wire, cameraFilesEmpty
      ensures wire == old(wire) + Fragments(WireId(currentImageId), cameraFiles[index])
      ensures cameraFilesEmpty[index] && cameraFilesEmpty[1 - index] == old(cameraFilesEmpty[1 - index])
    {
      hide WireId, Header, Encode, Packet, Fragments;
      var data := cameraFiles[index];
      var byteCount := |data|;
      ghost var imageId := WireId(currentImageId);
      var header := new byte[4];
      FirstHeader(header, currentImageId);
      SendTo(header, Encode(byteCount, SIZE_T_BYTES));
      FirstFragment(imageId, data);
      SendChunks(header, data, imageId);
      cameraFilesEmpty[index] := true;
    }

    /** The inner loop: packets 1, 2, ... with the packet id incremented in the header. */
    method SendChunks(header: array<byte>, data: Image, ghost imageId: nat)
      requires header[..] == Header(imageId, 0)
      modifies this`wire, header
      ensures wire == old(wire) + Fragments(imageId, data)[1..]
    {
      hide Header, Encode, Packet;
      var byteCount := |data|;
      var offset := 0;
      ghost var i := 0;
      ghost var all := Fragments(imageId, data);
      while byteCount > offset
        invariant i <= ChunkCount(byteCount) && offset == Min(i * MAX_PAYLOAD, byteCount)
        invariant header[..] == Header(imageId, i)
        invariant wire == old(wire) + all[1..i + 1]
        decreases byteCount - offset
      {
        i := i + 1;
        NextPacketId(header, imageId, i);
        var remaining := byteCount - offset;
        var size := Min(MAX_PAYLOAD, remaining);
        NextFragment(imageId, data, i);
        assert all[1..i + 1] == all[1..i] + [Header(imageId, i) + data[offset..offset + size]];
        SendTo(header, data[offset..offset + size]);
        offset := offset + size;
      }
      assert all[1..i + 1] == all[1..];
    }

    /** The packet id is incremented in place, in the header. */
    method NextPacketId(header: array<byte>, ghost imageId: nat, ghost i: nat)
      requires i > 0 && header[..] == Header(imageId, i - 1)
      modifies header
      ensures header[..] == Header(imageId, i)
    {
      ghost var before := header[..];
      assert before[..2] == Encode(imageId, 2);
      assert before[2..4] == Encode(i - 1, 2);
      assert header[2..4] == before[2..4];
      NextStored(header[2..4], i - 1);
      var packetId := Decode(header[2..4]);
      StoreUint16(header, 2, (packetId + 1) % UINT16_LIMIT);
    }

    /** One iteration of the transfer loop: the wait has returned with an image in slot `index`. */
    method TransferNext(image: Image, index: nat, currentImageId: nat, ghost k: nat)
      returns (nextIndex: nat, nextImageId: nat)
      requires Valid() && index < 2 && |image| < SIZE_T_LIMIT
      requires cameraFilesEmpty[0] && cameraFilesEmpty[1]
      requires WireId(currentImageId) == WireId(k)
      modifies this`wire, cameraFiles, cameraFilesEmpty
      ensures wire == old(wire) + Fragments(WireId(k), image)
      ensures cameraFilesEmpty[0] && cameraFilesEmpty[1]
      ensures cameraFiles[index] == image && cameraFiles[1 - index] == old(cameraFiles[1 - index])
      ensures nextIndex == 1 - index && WireId(nextImageId) == WireId(k + 1)
    {
      cameraFiles[index], cameraFilesEmpty[index] := image, false;
      TransferImage(index, currentImageId);
      nextIndex := (index + 1) % 2;
      ImageCounter(currentImageId, k);
      nextImageId := NextImageId(currentImageId);
    }

    /** The transfer loop. Each wait returns when the capture thread has put its next image in the slot
        the loop asks for; the loop ends with the captures. */
    method TransferData(captures: seq<Image>)
      requires Valid() && cameraFilesEmpty[0] && cameraFilesEmpty[1]
      requires forall k :: 0 <= k < |captures| ==> |captures[k]| < SIZE_T_LIMIT
      modifies this`wire, cameraFiles, cameraFilesEmpty
      ensures wire == old(wire) + Sent(captures)
      ensures cameraFilesEmpty[0] && cameraFilesEmpty[1]
      ensures forall k :: 0 <= k < |captures| && |captures| - 2 <= k ==> cameraFiles[k % 2] == captures[k]
    {
      hide WireId, Fragments, Packet, NextImageId, Encode;
      var index: nat := 0;
      var currentImageId: nat := 0;
      for k := 0 to |captures|
        invariant index == k % 2 && WireId(currentImageId) == WireId(k)
        invariant k > 0 ==> cameraFiles[1 - index] == captures[k - 1]
        invariant k > 1 ==> cameraFiles[index] == captures[k - 2]
        invariant cameraFilesEmpty[0] && cameraFilesEmpty[1]
        invariant wire == old(wire) + Sent(captures[..k])
      {
        SentNext(captures, k);
        index, currentImageId := TransferNext(captures[k], index, currentImageId, k);
      }
      assert captures[..|captures|] == captures;
    }
  }
}
