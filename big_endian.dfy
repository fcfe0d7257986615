/** Big-endian integers over bytes: the unsigned value of a byte string read most
    significant byte first, and two's-complement signed values of fixed width. */
module BigEndian {

  /** One byte of a Python `bytes` object. */
  type byte = b: int | 0 <= b < 256

  /** 256^k, the number of distinct k-byte strings. */
  function Pow256(k: nat): (p: nat)
    ensures p > 0
  {
    if k == 0 then 1 else 256 * Pow256(k - 1)
  }

  /** The unsigned integer whose big-endian encoding is `bs`. */
  function BeUint(bs: seq<byte>): (n: nat)
    ensures n < Pow256(|bs|)
  {
    if bs == [] then 0 else BeUint(bs[..|bs| - 1]) * 256 + bs[|bs| - 1]
  }

  /** The k-byte big-endian encoding of n. */
  function BeBytes(n: nat, k: nat): (bs: seq<byte>)
    requires n < Pow256(k)
    ensures |bs| == k
  {
    if k == 0 then [] else BeBytes(n / 256, k - 1) + [n % 256]
  }

  lemma {:induction false} BeUintOfBeBytes(n: nat, k: nat)
    requires n < Pow256(k)
    ensures BeUint(BeBytes(n, k)) == n
  {
    if k > 0 {
      var bs := BeBytes(n, k);
      assert bs[..k - 1] == BeBytes(n / 256, k - 1);
      BeUintOfBeBytes(n / 256, k - 1);
    }
  }

  lemma {:induction false} BeBytesOfBeUint(bs: seq<byte>)
    ensures BeBytes(BeUint(bs), |bs|) == bs
  {
    if bs != [] {
      var k := |bs|;
      var front := bs[..k - 1];
      var n := BeUint(bs);
      assert n == BeUint(front) * 256 + bs[k - 1];
      assert n / 256 == BeUint(front) && n % 256 == bs[k - 1];
      BeBytesOfBeUint(front);
      assert bs == front + [bs[k - 1]];
    }
  }

  /** Half of the k-byte range: the least value whose top bit is set. */
  function Half(k: nat): (h: int)
    requires k > 0
    ensures 2 * h == Pow256(k)
  {
    128 * Pow256(k - 1)
  }

  /** The signed value of `bs` read as big-endian two's complement. */
  function Signed(bs: seq<byte>): (v: int)
    requires |bs| > 0
    ensures -Half(|bs|) <= v < Half(|bs|)
  {
    var u := BeUint(bs);
    if u >= Half(|bs|) then u - Pow256(|bs|) else u
  }

  /** The k-byte big-endian two's-complement encoding of v. */
  function SignedBytes(v: int, k: nat): (bs: seq<byte>)
    requires k > 0 && -Half(k) <= v < Half(k)
    ensures |bs| == k
  {
    BeBytes(if v < 0 then v + Pow256(k) else v, k)
  }

  /** Decoding the two's-complement encoding of any in-range value gives it back. */
  lemma SignedOfSignedBytes(v: int, k: nat)
    requires k > 0 && -Half(k) <= v < Half(k)
    ensures Signed(SignedBytes(v, k)) == v
  {
    BeUintOfBeBytes(if v < 0 then v + Pow256(k) else v, k);
  }

  /** Every k-byte string is the encoding of exactly the value it decodes to. */
  lemma SignedBytesOfSigned(bs: seq<byte>)
    requires |bs| > 0
    ensures SignedBytes(Signed(bs), |bs|) == bs
  {
    BeBytesOfBeUint(bs);
  }
}
