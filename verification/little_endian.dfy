/** Little-endian unsigned integers of a fixed byte width, the layout SCALE
    uses for every fixed-width integer. */
module LittleEndian {
  import opened Base

  /** The `k` low-order bytes of `n`, least significant first. */
  function ToLE(n: nat, k: nat): (b: Bytes)
    ensures |b| == k
  {
    if k == 0 then [] else [n % 256] + ToLE(n / 256, k - 1)
  }

  /** The unsigned value of a little-endian byte string. */
  function FromLE(b: Bytes): (n: nat)
    ensures n < Pow256(|b|)
  {
    if |b| == 0 then 0 else b[0] + 256 * FromLE(b[1..])
  }

  /** Encoding a value that fits in `k` bytes and reading it back gives the value. */
  lemma {:induction false} FromToLE(n: nat, k: nat)
    requires n < Pow256(k)
    ensures FromLE(ToLE(n, k)) == n
  {
    if k > 0 {
      assert n / 256 < Pow256(k - 1);
      FromToLE(n / 256, k - 1);
      var b := ToLE(n, k);
      assert b[1..] == ToLE(n / 256, k - 1);
    }
  }

  /** Reading a byte string and re-encoding it at the same width gives the bytes back. */
  lemma {:induction false} ToFromLE(b: Bytes)
    ensures ToLE(FromLE(b), |b|) == b
  {
    if |b| > 0 {
      ToFromLE(b[1..]);
      var n := FromLE(b);
      assert n % 256 == b[0];
      assert n / 256 == FromLE(b[1..]);
    }
  }

  /** The two low bits of a little-endian value are those of its first byte. */
  lemma LowBits(b: Bytes)
    requires |b| > 0
    ensures FromLE(b) % 4 == b[0] % 4
  {
    var r := FromLE(b[1..]);
    assert FromLE(b) == b[0] + 4 * (64 * r);
  }

  /** The first byte of an encoding is the value modulo 256. */
  lemma FirstByte(n: nat, k: nat)
    requires k > 0
    ensures ToLE(n, k)[0] == n % 256
  {
  }
}
