/** Java's fixed-width integers as bytes: big-endian two's complement, as
    ByteBuffer writes and reads them. */
module Bytes {

  type byte = b: int | 0 <= b < 256

  /** The value of a Java int after overflow. */
  function Wrap32(v: int): (r: int)
    ensures -0x8000_0000 <= r < 0x8000_0000
  {
    (v + 0x8000_0000) % 0x1_0000_0000 - 0x8000_0000
  }

  /** The value of a Java long after overflow. */
  function Wrap64(v: int): (r: int)
    ensures -0x8000_0000_0000_0000 <= r < 0x8000_0000_0000_0000
  {
    (v + 0x8000_0000_0000_0000) % 0x1_0000_0000_0000_0000 - 0x8000_0000_0000_0000
  }

  /** The low `n` bytes of `v`, most significant first. */
  function Encode(v: int, n: nat): (bytes: seq<byte>)
    ensures |bytes| == n
    decreases n
  {
    if n == 0 then [] else Encode(v / 256, n - 1) + [v % 256]
  }

  function Unsigned(bytes: seq<byte>): nat {
    if bytes == [] then 0 else 256 * Unsigned(bytes[..|bytes| - 1]) + bytes[|bytes| - 1]
  }

  function Half(n: nat): nat {
    if n == 0 then 0 else if n == 1 then 128 else 256 * Half(n - 1)
  }

  /** The signed integer of as many bytes. */
  function Decode(bytes: seq<byte>): int {
    var v := Unsigned(bytes);
    if bytes != [] && bytes[0] >= 128 then v - 2 * Half(|bytes|) else v
  }

  function Power256(n: nat): nat {
    if n == 0 then 1 else 256 * Power256(n - 1)
  }

  /** The first bytes weigh most. */
  lemma {:induction false} BigEndian(a: seq<byte>, b: seq<byte>)
    ensures Unsigned(a + b) == Unsigned(a) * Power256(|b|) + Unsigned(b)
  {
    if b == [] {
      assert a + b == a;
    } else {
      assert (a + b)[..|a + b| - 1] == a + b[..|b| - 1];
      BigEndian(a, b[..|b| - 1]);
    }
  }

  lemma TwoBytes(a: byte, b: byte)
    ensures Decode([a, b]) == if a >= 128 then 256 * a + b - 65536 else 256 * a + b
  {
    assert [a, b][..1] == [a] && [a][..0] == [];
    assert Unsigned([a]) == a && Unsigned([a, b]) == 256 * a + b;
    assert Half(1) == 128 && Half(2) == 256 * Half(1);
    assert |[a, b]| == 2;
  }

  /** `v` fits into `n` bytes as a signed integer. */
  predicate Fits(v: int, n: nat) {
    0 <= v + Half(n) && v < Half(n)
  }

  lemma {:induction false} ZeroFits(n: nat)
    requires n > 0
    ensures Fits(0, n)
  {
    if n > 1 {
      ZeroFits(n - 1);
    }
  }

  /** Encoding loses exactly a multiple of 256^n, and a signed value that fits
      shows its sign in the first byte. */
  lemma {:induction false} EncodeIsModulo(v: int, n: nat)
    requires n > 0
    ensures Unsigned(Encode(v, n)) < 2 * Half(n)
    ensures Fits(v, n) ==> Unsigned(Encode(v, n)) == (if v < 0 then v + 2 * Half(n) else v)
    ensures Encode(v, n)[0] >= 128 <==> Unsigned(Encode(v, n)) >= Half(n)
    decreases n
  {
    assert v == 256 * (v / 256) + v % 256;
    var bytes := Encode(v, n);
    assert bytes[..n - 1] == Encode(v / 256, n - 1);
    if n == 1 {
      assert bytes == [v % 256];
    } else {
      EncodeIsModulo(v / 256, n - 1);
    }
  }

  /** Reading back what was written, for every value that fits. */
  lemma EncodeDecode(v: int, n: nat)
    requires n > 0 && Fits(v, n)
    ensures Decode(Encode(v, n)) == v
  {
    EncodeIsModulo(v, n);
  }

  lemma {:induction false} UnsignedBound(bytes: seq<byte>)
    requires bytes != []
    ensures Unsigned(bytes) < 2 * Half(|bytes|)
    ensures bytes[0] >= 128 <==> Unsigned(bytes) >= Half(|bytes|)
  {
    var init := bytes[..|bytes| - 1];
    if |bytes| > 1 {
      UnsignedBound(init);
      assert init[0] == bytes[0];
    }
  }

  /** What is read always fits. */
  lemma DecodeFits(bytes: seq<byte>)
    requires bytes != []
    ensures Fits(Decode(bytes), |bytes|)
  {
    UnsignedBound(bytes);
  }

  /** Writing back what was read gives the same bytes. */
  lemma {:induction false} DecodeEncode(bytes: seq<byte>)
    ensures Encode(Unsigned(bytes), |bytes|) == bytes
  {
    if bytes != [] {
      var init := bytes[..|bytes| - 1];
      DecodeEncode(init);
      assert bytes == init + [bytes[|bytes| - 1]];
    }
  }

  /** Different bytes are read differently. */
  lemma DecodesOnce(x: seq<byte>, y: seq<byte>)
    requires |x| == |y| > 0 && Decode(x) == Decode(y)
    ensures x == y
  {
    UnsignedBound(x);
    UnsignedBound(y);
    DecodeEncode(x);
    DecodeEncode(y);
    hide Unsigned, Encode, Half;
    assert Unsigned(x) == Unsigned(y);
  }

  /** Overwriting a stretch of a buffer. */
  function Put(buf: seq<byte>, off: nat, data: seq<byte>): (r: seq<byte>)
    requires off + |data| <= |buf|
    ensures |r| == |buf|
  {
    buf[..off] + data + buf[off + |data|..]
  }

  lemma PutReads(buf: seq<byte>, off: nat, data: seq<byte>, i: nat, j: nat)
    requires off + |data| <= |buf| && i <= j <= |buf|
    ensures i == off && j == off + |data| ==> Put(buf, off, data)[i..j] == data
    ensures j <= off || off + |data| <= i ==> Put(buf, off, data)[i..j] == buf[i..j]
  {
    var after := Put(buf, off, data);
    if i == off && j == off + |data| {
      assert after[i..j] == data;
    } else if j <= off || off + |data| <= i {
      forall k | i <= k < j ensures after[k] == buf[k] {
      }
    }
  }
}
