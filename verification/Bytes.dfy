/** Bytes and the fixed-width little-endian integers that both ends of the preview stream
    read and write through reinterpret_cast. */
module Bytes {

  type byte = b: int | 0 <= b < 256

  const UINT16_LIMIT := 0x1_0000
  const SIZE_T_LIMIT := 0x1_0000_0000_0000_0000

  /** 256 to the power of `width`. */
  function Limit(width: nat): (r: nat)
    ensures r > 0
  {
    if width == 0 then 1 else 256 * Limit(width - 1)
  }

  /** The low `width` bytes of `n`, least significant first: storing into a narrower integer truncates. */
  function Encode(n: nat, width: nat): (bytes: seq<byte>)
    ensures |bytes| == width
  {
    if width == 0 then [] else [n % 256] + Encode(n / 256, width - 1)
  }

  function Decode(bytes: seq<byte>): (n: nat)
    ensures n < Limit(|bytes|)
  {
    if bytes == [] then 0 else bytes[0] + 256 * Decode(bytes[1..])
  }

  lemma {:induction false} DecodeEncode(n: nat, width: nat)
    requires n < Limit(width)
    ensures Decode(Encode(n, width)) == n
  {
    if width > 0 {
      DecodeEncode(n / 256, width - 1);
      assert Encode(n, width)[1..] == Encode(n / 256, width - 1);
    }
  }

  lemma {:induction false} EncodeDecode(bytes: seq<byte>)
    ensures Encode(Decode(bytes), |bytes|) == bytes
  {
    if bytes != [] {
      EncodeDecode(bytes[1..]);
      assert Decode(bytes) / 256 == Decode(bytes[1..]);
    }
  }

  lemma Uint16Limit()
    ensures Limit(2) == UINT16_LIMIT
  {
    assert Limit(1) == 256 * Limit(0);
    assert Limit(2) == 256 * Limit(1);
  }

  lemma SizeLimit()
    ensures Limit(8) == SIZE_T_LIMIT
  {
    Uint16Limit();
    assert Limit(4) == 256 * Limit(3) && Limit(3) == 256 * Limit(2);
    assert Limit(6) == 256 * Limit(5) && Limit(5) == 256 * Limit(4);
    assert Limit(8) == 256 * Limit(7) && Limit(7) == 256 * Limit(6);
  }

  lemma LowBytes(n: nat)
    ensures var m := n % UINT16_LIMIT; n % 256 == m % 256 && (n / 256) % 256 == (m / 256) % 256
  {
    var q, m := n / UINT16_LIMIT, n % UINT16_LIMIT;
    assert n == 256 * (256 * q) + m;
    assert n / 256 == 256 * q + m / 256;
  }

  lemma TwoBytes(n: nat)
    ensures Encode(n, 2) == [n % 256, (n / 256) % 256]
  {
    assert Encode(n / 256, 1) == [(n / 256) % 256] + Encode(n / 256 / 256, 0);
  }

  /** A two-byte field holds a counter modulo 65536. */
  lemma Uint16RoundTrip(n: nat)
    ensures Decode(Encode(n, 2)) == n % UINT16_LIMIT
  {
    hide Encode, Decode, Limit;
    var m := n % UINT16_LIMIT;
    LowBytes(n);
    TwoBytes(n);
    TwoBytes(m);
    Uint16Limit();
    DecodeEncode(m, 2);
  }

  /** An eight-byte field holds a size_t exactly. */
  lemma SizeRoundTrip(n: nat)
    requires n < SIZE_T_LIMIT
    ensures Decode(Encode(n, 8)) == n
  {
    SizeLimit();
    DecodeEncode(n, 8);
  }
}
