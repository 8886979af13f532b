/**
 * Bytes and Python's conversions between unsigned integers and
 * little-endian byte strings (`int.to_bytes(n, 'little', signed=False)`,
 * `int.from_bytes(b, 'little', signed=False)`), and byte-string slicing
 * `data[i:j]`, which clamps out-of-range bounds instead of failing.
 */
module Bytes {

  type Byte = b: int | 0 <= b < 256

  function Pow256(k: nat): (p: nat)
    ensures p >= 1
  {
    if k == 0 then 1 else 256 * Pow256(k - 1)
  }

  /** `n.to_bytes(k, 'little')` for `0 <= n < 256^k`. */
  function LeBytes(n: nat, k: nat): (bs: seq<Byte>)
    ensures |bs| == k
  {
    if k == 0 then [] else [n % 256] + LeBytes(n / 256, k - 1)
  }

  /** `int.from_bytes(bs, 'little')`: a short or empty input simply has fewer digits. */
  function LeUint(bs: seq<Byte>): nat
  {
    if bs == [] then 0 else bs[0] + 256 * LeUint(bs[1..])
  }

  lemma {:induction false} LeUintBound(bs: seq<Byte>)
    ensures LeUint(bs) < Pow256(|bs|)
  {
    if bs != [] {
      LeUintBound(bs[1..]);
    }
  }

  /** Writing then reading `k` little-endian bytes gives the number back. */
  lemma {:induction false} LeRoundTrip(n: nat, k: nat)
    requires n < Pow256(k)
    ensures LeUint(LeBytes(n, k)) == n
  {
    if k > 0 {
      var bs := LeBytes(n, k);
      assert bs[1..] == LeBytes(n / 256, k - 1);
      LeRoundTrip(n / 256, k - 1);
    }
  }

  /** Python's `data[i:j]` with non-negative bounds: out-of-range bounds are clamped to the length. */
  function Slice(data: seq<Byte>, i: nat, j: nat): (s: seq<Byte>)
    ensures |s| == if i < j && i < |data| then (if j < |data| then j else |data|) - i else 0
    decreases |data|
  {
    if j <= i || data == [] then []
    else if i > 0 then Slice(data[1..], i - 1, j - 1)
    else [data[0]] + Slice(data[1..], 0, j - 1)
  }

  lemma {:induction false} SliceIs(data: seq<Byte>, i: nat, j: nat)
    requires i <= j <= |data|
    ensures Slice(data, i, j) == data[i..j]
    decreases |data|
  {
    if j > i && data != [] {
      SliceIs(data[1..], if i > 0 then i - 1 else 0, j - 1);
      if i > 0 {
        assert data[1..][i - 1..j - 1] == data[i..j];
      } else {
        assert [data[0]] + data[1..][0..j - 1] == data[0..j];
      }
    }
  }

  /** Python's `data[i:]`: the bytes after the first `i`, or none when there are fewer. */
  function Drop(data: seq<Byte>, i: nat): (s: seq<Byte>)
    ensures |s| == if i < |data| then |data| - i else 0
  {
    if i == 0 || data == [] then data else Drop(data[1..], i - 1)
  }

  lemma {:induction false} DropIs(data: seq<Byte>, i: nat)
    ensures i <= |data| ==> Drop(data, i) == data[i..]
    ensures i >= |data| ==> Drop(data, i) == []
  {
    if i != 0 && data != [] {
      DropIs(data[1..], i - 1);
      if i <= |data| {
        assert data[1..][i - 1..] == data[i..];
      }
    }
  }

  /** Associativity of `+`, proved apart so that the loop in `ToBytes` only cites it. */
  lemma Concat3(a: seq<Byte>, b: seq<Byte>, c: seq<Byte>)
    ensures a + b + c == a + (b + c)
  {
  }

  /** Byte strings laid end to end. */
  function Flatten(parts: seq<seq<Byte>>): seq<Byte>
  {
    if parts == [] then [] else parts[0] + Flatten(parts[1..])
  }
}
