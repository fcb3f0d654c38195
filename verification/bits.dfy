/** In-memory bit streams: the bit source and bit sink that the codec reads
    and writes, as sequences. Multi-bit fields are written and read
    most-significant bit first. */
module BitStream {

  type bit = b: int | 0 <= b <= 1
  type byte = b: int | 0 <= b < 256

  datatype Option<T> = None | Some(value: T)

  function Pow2(n: nat): (p: nat)
    ensures p >= 1
  {
    if n == 0 then 1 else 2 * Pow2(n - 1)
  }

  lemma {:induction false} Pow2Grows(m: nat, n: nat)
    requires m <= n
    ensures Pow2(m) <= Pow2(n)
    decreases n - m
  {
    if m < n {
      Pow2Grows(m + 1, n);
    }
  }

  /** A 9-bit field holds the values below 512. */
  lemma Pow2Nine()
    ensures Pow2(9) == 512
  {
    Pow2Grows(9, 9);
  }

  /** The `n` least-significant bits of `v`, most-significant first (what
      `writeBits(v, n)` emits). */
  function ToBits(v: nat, n: nat): (r: seq<bit>)
    ensures |r| == n
  {
    if n == 0 then [] else ToBits(v / 2, n - 1) + [v % 2]
  }

  /** The unsigned value of a bit string read most-significant bit first. */
  function FromBits(s: seq<bit>): (v: nat)
    ensures v < Pow2(|s|)
  {
    if s == [] then 0 else 2 * FromBits(s[..|s| - 1]) + s[|s| - 1]
  }

  /** Reading back an `n`-bit field gives the value written, when it fits. */
  lemma {:induction false} FromToBits(v: nat, n: nat)
    requires v < Pow2(n)
    ensures FromBits(ToBits(v, n)) == v
  {
    if n > 0 {
      var r := ToBits(v, n);
      assert r[..n - 1] == ToBits(v / 2, n - 1);
      assert FromBits(r) == 2 * FromBits(r[..n - 1]) + r[n - 1];
      FromToBits(v / 2, n - 1);
      assert v == 2 * (v / 2) + v % 2;
    }
  }

  /** `readBits(n)`: the value of the next `n` bits and what follows them, or
      failure when fewer than `n` bits remain. */
  function ReadBits(s: seq<bit>, n: nat): (r: Option<(nat, seq<bit>)>)
    ensures r.Some? <==> n <= |s|
    ensures r.Some? ==> r.value.0 < Pow2(n) && r.value.1 == s[n..]
  {
    if |s| < n then None else Some((FromBits(s[..n]), s[n..]))
  }

  /** A field written with `ToBits` is read back by `ReadBits`, and the bits
      after it are left unread. */
  lemma ReadWrittenBits(v: nat, n: nat, rest: seq<bit>)
    requires v < Pow2(n)
    ensures ReadBits(ToBits(v, n) + rest, n) == Some((v, rest))
  {
    var s := ToBits(v, n) + rest;
    assert s[..n] == ToBits(v, n);
    assert s[n..] == rest;
    FromToBits(v, n);
  }
}
