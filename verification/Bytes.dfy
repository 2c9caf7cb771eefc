/**
 * Octets and fixed-width unsigned big-endian integers, the way Go's
 * `encoding/binary` package lays out a `uint64` with `BigEndian.PutUint64`,
 * and the two's-complement reinterpretations between Go's `int64` and `uint64`.
 */
module Bytes {

  /** One element of a Go `[]byte`. */
  type byte = x: int | 0 <= x < 256

  const TwoTo63: int := 0x8000_0000_0000_0000
  const TwoTo64: int := 0x1_0000_0000_0000_0000

  function Pow256(n: nat): (r: nat)
    ensures r > 0
  {
    if n == 0 then 1 else 256 * Pow256(n - 1)
  }

  /** Go's `uint64(x)` applied to an `int64` (or to any integer): two's complement, i.e. `x` modulo 2^64. */
  function Uint64(x: int): (u: nat)
    ensures u < TwoTo64
  {
    x % TwoTo64
  }

  /** The `int64` value Go's wrapping arithmetic yields for the mathematical value `x`. */
  function Int64Wrap(x: int): (w: int)
    ensures -TwoTo63 <= w < TwoTo63
  {
    (x + TwoTo63) % TwoTo64 - TwoTo63
  }

  /** Both reinterpretations leave in-range values alone and agree with `x` modulo 2^64. */
  lemma Int64WrapCongruent(x: int)
    ensures (x - Int64Wrap(x)) % TwoTo64 == 0 && (x - Uint64(x)) % TwoTo64 == 0
    ensures -TwoTo63 <= x < TwoTo63 ==> Int64Wrap(x) == x
    ensures 0 <= x < TwoTo64 ==> Uint64(x) == x
  {
    var q := (x + TwoTo63) / TwoTo64;
    assert x - Int64Wrap(x) == q * TwoTo64;
    DivModUnique(x - Int64Wrap(x), TwoTo64, q, 0);
    assert x - Uint64(x) == (x / TwoTo64) * TwoTo64;
    DivModUnique(x - Uint64(x), TwoTo64, x / TwoTo64, 0);
  }

  /** Wrapping to `int64` first does not change the `uint64` reinterpretation. */
  lemma Uint64OfInt64Wrap(x: int)
    ensures Uint64(Int64Wrap(x)) == Uint64(x)
  {
    var w := Int64Wrap(x);
    var q := (x + TwoTo63) / TwoTo64;
    assert x + TwoTo63 == q * TwoTo64 + (w + TwoTo63);
    assert x == q * TwoTo64 + w;
    CongruentMod(x, w, q, TwoTo64);
  }

  /** Adding a multiple of `d` does not change the remainder modulo `d`. */
  lemma CongruentMod(x: int, w: int, q: int, d: int)
    requires d > 0
    requires x == q * d + w
    ensures x % d == w % d
  {
    var r := w % d;
    assert w == (w / d) * d + r;
    assert x == (q + w / d) * d + r;
    DivModUnique(x, d, q + w / d, r);
  }

  /** Euclidean division is determined by its defining equation. */
  lemma DivModUnique(x: int, d: int, q: int, r: int)
    requires d > 0 && 0 <= r < d
    requires x == q * d + r
    ensures x / d == q && x % d == r
  {
    var q', r' := x / d, x % d;
    assert (q' - q) * d == r - r';
    if q' > q {
      MulAtLeast(q' - q, d);
    } else if q' < q {
      MulAtLeast(q - q', d);
    }
  }

  lemma MulAtLeast(k: int, d: int)
    requires k >= 1 && d > 0
    ensures k * d >= d
  {
  }

  /** The `n` low-order bytes of `v`, most significant first. */
  function ToBigEndian(v: int, n: nat): (s: seq<byte>)
    ensures |s| == n
    decreases n
  {
    if n == 0 then [] else ToBigEndian(v / 256, n - 1) + [v % 256]
  }

  /** The unsigned value of `s` read most significant byte first. */
  function FromBigEndian(s: seq<byte>): (v: nat)
    ensures v < Pow256(|s|)
  {
    if s == [] then 0
    else
      var high := FromBigEndian(s[..|s| - 1]);
      assert high * 256 + s[|s| - 1] < Pow256(|s| - 1) * 256 by {
        assert high + 1 <= Pow256(|s| - 1);
        assert (high + 1) * 256 <= Pow256(|s| - 1) * 256;
      }
      high * 256 + s[|s| - 1]
  }

  /** Splitting a remainder by `256 * p` into its low byte and the rest. */
  lemma ModSplit(v: int, p: nat)
    requires p > 0
    ensures v % (256 * p) == (v / 256 % p) * 256 + v % 256
  {
    var q, r := v / 256, v % 256;
    var a, b := q / p, q % p;
    assert v == q * 256 + r;
    assert q == a * p + b;
    assert v == a * (256 * p) + (b * 256 + r);
    assert b * 256 + r < 256 * p by {
      assert (b + 1) * 256 <= p * 256;
    }
    DivModUnique(v, 256 * p, a, b * 256 + r);
  }

  /** Reading back the `n` bytes gives `v` modulo 256^n (two's complement for negative `v`). */
  lemma {:induction false} FromToBigEndian(v: int, n: nat)
    ensures FromBigEndian(ToBigEndian(v, n)) == v % Pow256(n)
    decreases n
  {
    if n > 0 {
      var s := ToBigEndian(v, n);
      assert s[..n - 1] == ToBigEndian(v / 256, n - 1);
      FromToBigEndian(v / 256, n - 1);
      ModSplit(v, Pow256(n - 1));
    }
  }

  /** Writing back the value of a byte string gives the same bytes. */
  lemma {:induction false} ToFromBigEndian(s: seq<byte>)
    ensures ToBigEndian(FromBigEndian(s), |s|) == s
  {
    if s != [] {
      var n := |s|;
      var high := FromBigEndian(s[..n - 1]);
      var v := high * 256 + s[n - 1];
      DivModUnique(v, 256, high, s[n - 1]);
      ToFromBigEndian(s[..n - 1]);
      assert s == s[..n - 1] + [s[n - 1]];
    }
  }

  /** Byte `k` of the `n`-byte encoding is `(v / 256^(n-1-k)) mod 256`. */
  lemma {:induction false} ToBigEndianAt(v: int, n: nat, k: nat)
    requires k < n
    ensures ToBigEndian(v, n)[k] == (v / Pow256(n - 1 - k)) % 256
    decreases n
  {
    if k < n - 1 {
      ToBigEndianAt(v / 256, n - 1, k);
      DivDiv(v, Pow256(n - 2 - k));
    }
  }

  /** Dividing by 256 and then by `p` is dividing by `256 * p`. */
  lemma DivDiv(v: int, p: nat)
    requires p > 0
    ensures v / 256 / p == v / (256 * p)
  {
    var q := v / 256;
    var a, b := q / p, q % p;
    assert v == a * (256 * p) + (b * 256 + v % 256);
    assert b * 256 + v % 256 < 256 * p by {
      assert (b + 1) * 256 <= p * 256;
    }
    DivModUnique(v, 256 * p, a, b * 256 + v % 256);
  }

  /** The eight place values of a `uint64`'s bytes. */
  lemma Pow256UpTo7()
    ensures Pow256(0) == 1 && Pow256(1) == 0x100 && Pow256(2) == 0x1_0000
    ensures Pow256(3) == 0x100_0000 && Pow256(4) == 0x1_0000_0000
    ensures Pow256(5) == 0x100_0000_0000 && Pow256(6) == 0x1_0000_0000_0000
    ensures Pow256(7) == 0x100_0000_0000_0000
  {
  }

  /**
   * `binary.BigEndian.PutUint64`: stores `v` in `b[0..8]`, most significant
   * byte first, as the eight assignments `b[k] = byte(v >> (56 - 8k))`.
   */
  method PutUint64(b: array<byte>, v: nat)
    requires b.Length >= 8
    requires v < TwoTo64
    modifies b
    ensures b[..8] == ToBigEndian(v, 8)
    ensures b[8..] == old(b[8..])
  {
    ghost var e := ToBigEndian(v, 8);
    Pow256UpTo7();
    forall k | 0 <= k < 8
      ensures e[k] == (v / Pow256(7 - k)) % 256
    {
      ToBigEndianAt(v, 8, k);
    }
    b[0] := (v / 0x100_0000_0000_0000) % 256;
    b[1] := (v / 0x1_0000_0000_0000) % 256;
    b[2] := (v / 0x100_0000_0000) % 256;
    b[3] := (v / 0x1_0000_0000) % 256;
    b[4] := (v / 0x100_0000) % 256;
    b[5] := (v / 0x1_0000) % 256;
    b[6] := (v / 0x100) % 256;
    b[7] := v % 256;
    assert b[..8] == [b[0], b[1], b[2], b[3], b[4], b[5], b[6], b[7]];
    assert e == [e[0], e[1], e[2], e[3], e[4], e[5], e[6], e[7]];
  }
}
