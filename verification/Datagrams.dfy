/** The wire format of the preview stream: every datagram starts with a 16-bit image id and a 16-bit
    packet id. Packet 0 carries the byte count of the image, packets 1, 2, ... its content. */
module Datagrams {
  import opened Bytes

  const HEADER_SIZE := 4
  const SIZE_T_BYTES := 8
  const MAX_PACKET_SIZE := 1472
  const MAX_PAYLOAD := 1468
  /** The largest image whose packets still have distinct 16-bit packet ids. */
  const MAX_IMAGE_SIZE := 65535 * MAX_PAYLOAD

  type Datagram = seq<byte>
  type Image = seq<byte>

  function Min(a: int, b: int): int {
    if a < b then a else b
  }

  function ChunkCount(byteCount: nat): nat {
    (byteCount + MAX_PAYLOAD - 1) / MAX_PAYLOAD
  }

  /** The bytes of the image that travel in packet `i`. */
  function Chunk(image: Image, i: nat): seq<byte>
    requires 1 <= i <= ChunkCount(|image|)
  {
    image[(i - 1) * MAX_PAYLOAD..Min(i * MAX_PAYLOAD, |image|)]
  }

  function Header(imageId: nat, packetId: nat): (header: seq<byte>)
    ensures |header| == HEADER_SIZE
  {
    Encode(imageId, 2) + Encode(packetId, 2)
  }

  function Packet(imageId: nat, image: Image, i: nat): Datagram
    requires i <= ChunkCount(|image|)
  {
    Header(imageId, i) + if i == 0 then Encode(|image|, SIZE_T_BYTES) else Chunk(image, i)
  }

  /** Everything that is sent for one image, in order. */
  function Fragments(imageId: nat, image: Image): (datagrams: seq<Datagram>)
    ensures |datagrams| == ChunkCount(|image|) + 1
    ensures forall i :: 0 <= i <= ChunkCount(|image|) ==> datagrams[i] == Packet(imageId, image, i)
  {
    seq(ChunkCount(|image|) + 1, i requires 0 <= i <= ChunkCount(|image|) => Packet(imageId, image, i))
  }

  /** The images that the packet numbering can carry. */
  predicate Sendable(image: Image) {
    1 <= |image| <= MAX_IMAGE_SIZE
  }

  function ImageIdOf(d: Datagram): nat
    requires |d| >= HEADER_SIZE
  {
    Decode(d[..2])
  }

  function PacketIdOf(d: Datagram): nat
    requires |d| >= HEADER_SIZE
  {
    Decode(d[2..4])
  }

  /** A datagram that starts an image: packet 0 with exactly a byte count as payload. */
  predicate IsFirst(d: Datagram) {
    |d| == HEADER_SIZE + SIZE_T_BYTES && PacketIdOf(d) == 0
  }

  function CountOf(d: Datagram): nat
    requires IsFirst(d)
  {
    Decode(d[HEADER_SIZE..])
  }

  lemma ParsedHeader(d: Datagram)
    requires |d| >= HEADER_SIZE
    ensures ImageIdOf(d) < UINT16_LIMIT && PacketIdOf(d) < UINT16_LIMIT
    ensures d[..HEADER_SIZE] == Header(ImageIdOf(d), PacketIdOf(d))
  {
    Uint16Limit();
    EncodeDecode(d[..2]);
    EncodeDecode(d[2..4]);
    assert d[..HEADER_SIZE] == d[..2] + d[2..4];
  }

  /** Parsing loses nothing: a first packet is determined by its image id and its count. */
  lemma ParsedFirst(d: Datagram)
    requires IsFirst(d)
    ensures CountOf(d) < SIZE_T_LIMIT
    ensures d == Header(ImageIdOf(d), 0) + Encode(CountOf(d), SIZE_T_BYTES)
  {
    ParsedHeader(d);
    SizeLimit();
    EncodeDecode(d[HEADER_SIZE..]);
    assert d == d[..HEADER_SIZE] + d[HEADER_SIZE..];
  }

  lemma HeaderFields(imageId: nat, packetId: nat, payload: seq<byte>)
    requires imageId < UINT16_LIMIT
    ensures var d := Header(imageId, packetId) + payload;
            ImageIdOf(d) == imageId && PacketIdOf(d) == packetId % UINT16_LIMIT && d[HEADER_SIZE..] == payload
  {
    var d := Header(imageId, packetId) + payload;
    assert d[..2] == Encode(imageId, 2);
    assert d[2..4] == Encode(packetId, 2);
    Uint16RoundTrip(imageId);
    Uint16RoundTrip(packetId);
  }

  lemma ChunkSize(image: Image, i: nat)
    requires 1 <= i <= ChunkCount(|image|)
    ensures |Chunk(image, i)| == Min(MAX_PAYLOAD, |image| - (i - 1) * MAX_PAYLOAD)
    ensures 1 <= |Chunk(image, i)| <= MAX_PAYLOAD
  {
  }

  /** What a reader of packet `i` sees. Packet ids wrap modulo 65536. */
  lemma PacketFields(imageId: nat, image: Image, i: nat)
    requires imageId < UINT16_LIMIT && i <= ChunkCount(|image|)
    ensures var d := Packet(imageId, image, i);
            && HEADER_SIZE < |d| <= MAX_PACKET_SIZE
            && ImageIdOf(d) == imageId
            && PacketIdOf(d) == i % UINT16_LIMIT
            && (i >= 1 ==> d[HEADER_SIZE..] == Chunk(image, i))
            && (i == 0 && |image| < SIZE_T_LIMIT ==> IsFirst(d) && CountOf(d) == |image|)
  {
    if i == 0 {
      HeaderFields(imageId, 0, Encode(|image|, SIZE_T_BYTES));
      if |image| < SIZE_T_LIMIT {
        SizeRoundTrip(|image|);
      }
    } else {
      ChunkSize(image, i);
      HeaderFields(imageId, i, Chunk(image, i));
    }
  }

  lemma SendableChunks(image: Image)
    requires Sendable(image)
    ensures 1 <= ChunkCount(|image|) < UINT16_LIMIT
    ensures |image| < SIZE_T_LIMIT
  {
  }

  lemma SendablePacket(imageId: nat, image: Image, i: nat)
    requires imageId < UINT16_LIMIT && Sendable(image) && i <= ChunkCount(|image|)
    ensures var d := Packet(imageId, image, i);
            |d| > HEADER_SIZE && ImageIdOf(d) == imageId && PacketIdOf(d) == i
  {
    SendableChunks(image);
    PacketFields(imageId, image, i);
  }

  lemma SendableFirst(imageId: nat, image: Image)
    requires imageId < UINT16_LIMIT && Sendable(image)
    ensures var d := Packet(imageId, image, 0); IsFirst(d) && CountOf(d) == |image|
  {
    SendableChunks(image);
    PacketFields(imageId, image, 0);
  }

  /** Every byte of an image is in a chunk. */
  lemma ByteInChunk(image: Image, j: nat) returns (i: nat)
    requires j < |image|
    ensures 1 <= i <= ChunkCount(|image|) && 0 <= j - (i - 1) * MAX_PAYLOAD < |Chunk(image, i)|
    ensures Chunk(image, i)[j - (i - 1) * MAX_PAYLOAD] == image[j]
  {
    i := j / MAX_PAYLOAD + 1;
    ChunkSize(image, i);
  }

  /** The image can be read off its chunks, whatever their number. */
  lemma SameChunks(a: Image, b: Image)
    requires |a| == |b|
    requires forall i :: 1 <= i <= ChunkCount(|a|) ==> Chunk(a, i) == Chunk(b, i)
    ensures a == b
  {
    forall j | 0 <= j < |a|
      ensures a[j] == b[j]
    {
      var i := ByteInChunk(a, j);
      assert b[j] == Chunk(b, i)[j - (i - 1) * MAX_PAYLOAD];
    }
  }

  /** A datagram sequence is the fragmentation of at most one image. */
  lemma FragmentsInjective(idA: nat, a: Image, idB: nat, b: Image)
    requires idA < UINT16_LIMIT && idB < UINT16_LIMIT && Sendable(a) && Sendable(b)
    requires Fragments(idA, a) == Fragments(idB, b)
    ensures idA == idB && a == b
  {
    SendableFirst(idA, a);
    SendableFirst(idB, b);
    SendablePacket(idA, a, 0);
    SendablePacket(idB, b, 0);
    assert Fragments(idA, a)[0] == Fragments(idB, b)[0];
    forall i | 1 <= i <= ChunkCount(|a|)
      ensures Chunk(a, i) == Chunk(b, i)
    {
      PacketFields(idA, a, i);
      PacketFields(idB, b, i);
      assert Fragments(idA, a)[i] == Fragments(idB, b)[i];
    }
    SameChunks(a, b);
  }

  /** The payloads of consecutive datagrams, joined. */
  function Contents(datagrams: seq<Datagram>): seq<byte> {
    if datagrams == [] then [] else
      var d := datagrams[|datagrams| - 1];
      Contents(datagrams[..|datagrams| - 1]) + d[Min(HEADER_SIZE, |d|)..]
  }

  lemma NextChunk(image: Image, n: nat)
    requires 1 <= n <= ChunkCount(|image|)
    ensures image[..Min((n - 1) * MAX_PAYLOAD, |image|)] + Chunk(image, n) == image[..Min(n * MAX_PAYLOAD, |image|)]
  {
    assert (n - 1) * MAX_PAYLOAD < |image|;
  }

  /** The payloads after packet 0 partition the image in order. */
  lemma {:induction false} PayloadsPartition(imageId: nat, image: Image, n: nat)
    requires imageId < UINT16_LIMIT && n <= ChunkCount(|image|)
    ensures Contents(Fragments(imageId, image)[1..n + 1]) == image[..Min(n * MAX_PAYLOAD, |image|)]
  {
    if n > 0 {
      var sent := Fragments(imageId, image)[1..n + 1];
      PayloadsPartition(imageId, image, n - 1);
      assert sent[..n - 1] == Fragments(imageId, image)[1..n];
      PacketFields(imageId, image, n);
      assert sent[n - 1] == Packet(imageId, image, n);
      NextChunk(image, n);
    }
  }

  predicate IsNumbered(d: Datagram, i: nat) {
    |d| >= HEADER_SIZE && PacketIdOf(d) == i
  }

  /** The packet ids count 0, 1, 2, ... without wrapping. */
  predicate Numbered(datagrams: seq<Datagram>) {
    forall i :: 0 <= i < |datagrams| ==> IsNumbered(datagrams[i], i)
  }

  lemma PacketIsNumbered(imageId: nat, image: Image, i: nat)
    requires imageId < UINT16_LIMIT && i <= ChunkCount(|image|)
    ensures IsNumbered(Packet(imageId, image, i), i) <==> i < UINT16_LIMIT
  {
    PacketFields(imageId, image, i);
  }

  /** The 16-bit packet ids are enough exactly for the images of at most 65535 chunks. */
  lemma PacketIdsCount(imageId: nat, image: Image)
    requires imageId < UINT16_LIMIT
    ensures Numbered(Fragments(imageId, image)) <==> |image| <= MAX_IMAGE_SIZE
  {
    var all := Fragments(imageId, image);
    var last := ChunkCount(|image|);
    assert last < UINT16_LIMIT <==> |image| <= MAX_IMAGE_SIZE;
    if last < UINT16_LIMIT {
      forall i | 0 <= i < |all|
        ensures IsNumbered(all[i], i)
      {
        PacketIsNumbered(imageId, image, i);
      }
    } else {
      PacketIsNumbered(imageId, image, last);
      assert !IsNumbered(all[last], last);
    }
  }

  /** What the sender promises the network and the receiver. */
  lemma Fragmentation(imageId: nat, image: Image)
    requires imageId < UINT16_LIMIT
    ensures forall i :: 0 <= i <= ChunkCount(|image|) ==>
      HEADER_SIZE < |Fragments(imageId, image)[i]| <= MAX_PACKET_SIZE && ImageIdOf(Fragments(imageId, image)[i]) == imageId
    ensures Contents(Fragments(imageId, image)[1..]) == image
  {
    var all := Fragments(imageId, image);
    forall i | 0 <= i <= ChunkCount(|image|)
      ensures HEADER_SIZE < |all[i]| <= MAX_PACKET_SIZE && ImageIdOf(all[i]) == imageId
    {
      PacketFields(imageId, image, i);
    }
    PayloadsPartition(imageId, image, ChunkCount(|image|));
    assert all[1..ChunkCount(|image|) + 1] == all[1..];
  }
}
