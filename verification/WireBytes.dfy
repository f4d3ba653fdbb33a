/** What the datagrams are, byte by byte. */
module WireBytes {
  import opened Bytes
  import opened Datagrams
  import opened Channel
  import CC = CameraController

  /** The bytes of a `size_t`, least significant first. */
  function SizeBytes(n: nat): seq<int> {
    [n % 256, n / 0x100 % 256, n / 0x1_0000 % 256, n / 0x100_0000 % 256,
     n / 0x1_0000_0000 % 256, n / 0x100_0000_0000 % 256, n / 0x1_0000_0000_0000 % 256, n / 0x100_0000_0000_0000 % 256]
  }

  lemma Shifts(n: nat)
    ensures n / 0x100 / 256 == n / 0x1_0000 && n / 0x1_0000 / 256 == n / 0x100_0000
    ensures n / 0x100_0000 / 256 == n / 0x1_0000_0000 && n / 0x1_0000_0000 / 256 == n / 0x100_0000_0000
    ensures n / 0x100_0000_0000 / 256 == n / 0x1_0000_0000_0000
    ensures n / 0x1_0000_0000_0000 / 256 == n / 0x100_0000_0000_0000
  {
  }

  lemma EncodeNext(n: nat, width: nat)
    requires width > 0
    ensures Encode(n, width) == [n % 256] + Encode(n / 256, width - 1)
  {
  }

  lemma EncodedSize(n: nat)
    ensures Encode(n, SIZE_T_BYTES) == SizeBytes(n)
  {
    hide Encode;
    Shifts(n);
    EncodeNext(n, 8);
    EncodeNext(n / 0x100, 7);
    EncodeNext(n / 0x1_0000, 6);
    EncodeNext(n / 0x100_0000, 5);
    EncodeNext(n / 0x1_0000_0000, 4);
    EncodeNext(n / 0x100_0000_0000, 3);
    EncodeNext(n / 0x1_0000_0000_0000, 2);
    EncodeNext(n / 0x100_0000_0000_0000, 1);
  }

  lemma HeaderBytes(imageId: nat, i: nat)
    ensures Header(imageId, i) == [imageId % 256, imageId / 256 % 256, i % 256, i / 256 % 256]
  {
    hide Encode;
    TwoBytes(imageId);
    TwoBytes(i);
  }

  /** Packet `i` of an image starts with the image id in bytes 0 and 1 and the packet id in bytes 2 and 3;
      then packet 0 has the size of the image in eight bytes, and packet `i` the image from byte
      1468 (i - 1) on, up to 1468 bytes. */
  lemma PacketBytes(imageId: nat, image: Image, i: nat)
    requires i <= ChunkCount(|image|)
    ensures var d := Packet(imageId, image, i);
      && |d| > 4 && d[..4] == [imageId % 256, imageId / 256 % 256, i % 256, i / 256 % 256]
      && (i == 0 ==> d[4..] == SizeBytes(|image|))
      && (i > 0 ==> 1468 * (i - 1) < |image| && d[4..] == image[1468 * (i - 1)..if 1468 * i < |image| then 1468 * i else |image|])
  {
    hide Encode, Header;
    HeaderBytes(imageId, i);
    EncodedSize(|image|);
  }

  lemma WireIdBytes(k: nat)
    ensures CC.WireId(k) % 256 == k % 256 && CC.WireId(k) / 256 % 256 == k / 256 % 256
  {
    LowBytes(k);
  }

  /** The bytes that are sent: packets 0, 1, ... of image 0, then of image 1, and so on, each as above, with
      the number of the image in two bytes. */
  lemma {:induction false} SentBytes(images: seq<Image>, j: nat)
    requires j < |CC.Sent(images)|
    ensures |Origins(images)| == |CC.Sent(images)| && ValidOrigin(images, Origins(images)[j])
    ensures var k, i := Origins(images)[j].image, Origins(images)[j].packet;
      var d, image := CC.Sent(images)[j], images[k];
      && |d| > 4 && d[..4] == [k % 256, k / 256 % 256, i % 256, i / 256 % 256]
      && (i == 0 ==> d[4..] == SizeBytes(|image|))
      && (i > 0 ==> 1468 * (i - 1) < |image| && d[4..] == image[1468 * (i - 1)..if 1468 * i < |image| then 1468 * i else |image|])
  {
    hide Packet, CC.WireId, CC.Sent, Origins, SizeBytes;
    SentInOrder(images);
    var o := Origins(images)[j];
    PacketBytes(CC.WireId(o.image), images[o.image], o.packet);
    WireIdBytes(o.image);
  }
}
