/** Bytes and the little-endian integers that both ends of the link exchange. */
module Wire {

  type byte = x: int | 0 <= x < 256

  datatype Option<+T> = None | Some(value: T)

  function Pow256(k: nat): (p: nat)
    ensures p > 0
  {
    if k == 0 then 1 else 256 * Pow256(k - 1)
  }

  /** `x` in `k` bytes, least significant first; higher bytes are dropped. */
  function Le(x: nat, k: nat): (bytes: seq<byte>)
    ensures |bytes| == k
  {
    if k == 0 then [] else [x % 256] + Le(x / 256, k - 1)
  }

  function FromLe(bytes: seq<byte>): nat {
    if bytes == [] then 0 else bytes[0] + 256 * FromLe(bytes[1..])
  }

  /** A number that fits its field is read back unchanged, and any field is what its number packs to. */
  lemma {:induction false} LeRoundTrip(x: nat, k: nat)
    requires x < Pow256(k)
    ensures FromLe(Le(x, k)) == x
  {
    if k > 0 {
      LeRoundTrip(x / 256, k - 1);
      assert Le(x, k)[1..] == Le(x / 256, k - 1);
    }
  }

  lemma {:induction false} FromLeRoundTrip(bytes: seq<byte>)
    ensures FromLe(bytes) < Pow256(|bytes|) && Le(FromLe(bytes), |bytes|) == bytes
  {
    if bytes != [] {
      FromLeRoundTrip(bytes[1..]);
      assert bytes == [bytes[0]] + bytes[1..];
    }
  }
}
