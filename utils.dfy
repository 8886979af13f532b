/**
 * The string search and the random number generator of src/utils.c. C
 * strings are modelled as `string` values without their terminating NUL (so
 * `strlen(s)` is `|s|`), a null pointer as `None`, and a pointer into the
 * haystack as the offset it points at.
 */
module CUtils {
  import opened Wrappers

  /** `needle` occurs in `haystack` starting at offset `k`. */
  predicate Occurs(haystack: string, needle: string, k: nat)
  {
    k + |needle| <= |haystack| && haystack[k..k + |needle|] == needle
  }

  /** The largest offset in `lo..k` (both included) where `needle` occurs, scanning down from `k`. */
  function LastFrom(haystack: string, needle: string, k: nat, lo: nat): Option<nat>
    decreases k
  {
    if k < lo then None
    else if Occurs(haystack, needle, k) then Some(k)
    else if k == 0 then None
    else LastFrom(haystack, needle, k - 1, lo)
  }

  /** The downward scan finds the last occurrence in its range, and reports none only when there is none. */
  lemma {:induction false} LastFromMeaning(haystack: string, needle: string, k: nat, lo: nat)
    ensures var r := LastFrom(haystack, needle, k, lo);
      (r.Some? ==>
        lo <= r.value <= k && Occurs(haystack, needle, r.value) &&
        forall j :: r.value < j <= k ==> !Occurs(haystack, needle, j)) &&
      (r.None? ==> forall j :: lo <= j <= k ==> !Occurs(haystack, needle, j))
    decreases k
  {
    if k >= lo && !Occurs(haystack, needle, k) && k > 0 {
      LastFromMeaning(haystack, needle, k - 1, lo);
    }
  }

  /**
   * `strrstr` as written: null for an absent or empty argument or a haystack
   * shorter than the needle; otherwise the scan runs from the last possible
   * offset down to 1, never trying offset 0.
   */
  function StrRStrAsWritten(haystack: Option<string>, needle: Option<string>): Option<nat>
  {
    if haystack.None? || needle.None? then None
    else if |needle.value| == 0 || |haystack.value| == 0 || |haystack.value| < |needle.value| then None
    else LastFrom(haystack.value, needle.value, |haystack.value| - |needle.value|, 1)
  }

  /** `strrstr` as its documentation in include/utils.h describes it: the last occurrence, wherever it is. */
  function StrRStrFixed(haystack: Option<string>, needle: Option<string>): Option<nat>
  {
    if haystack.None? || needle.None? then None
    else if |needle.value| == 0 || |haystack.value| == 0 || |haystack.value| < |needle.value| then None
    else LastFrom(haystack.value, needle.value, |haystack.value| - |needle.value|, 0)
  }

  /**
   * The corrected search finds a non-empty needle exactly when it occurs,
   * and then at its last occurrence.
   */
  lemma StrRStrFixedMeaning(haystack: string, needle: string)
    requires needle != []
    ensures var r := StrRStrFixed(Some(haystack), Some(needle));
      (r.Some? <==> exists k: nat :: Occurs(haystack, needle, k)) &&
      (r.Some? ==> Occurs(haystack, needle, r.value) && forall j: nat :: r.value < j ==> !Occurs(haystack, needle, j))
  {
    if |haystack| >= |needle| {
      LastFromMeaning(haystack, needle, |haystack| - |needle|, 0);
      var r := StrRStrFixed(Some(haystack), Some(needle));
      if r.None? {
        forall k: nat | Occurs(haystack, needle, k)
          ensures false
        {
        }
      }
    } else {
      forall k: nat | Occurs(haystack, needle, k)
        ensures false
      {
      }
    }
  }

  /** The search as written differs from the corrected one only by missing a match at offset 0. */
  lemma {:induction false} StrRStrMissesStart(haystack: Option<string>, needle: Option<string>)
    ensures StrRStrAsWritten(haystack, needle) ==
      (var r := StrRStrFixed(haystack, needle); if r == Some(0) then None else r)
  {
    if haystack.Some? && needle.Some? && |needle.value| > 0 && |haystack.value| >= |needle.value| {
      var h, n := haystack.value, needle.value;
      LastFromStart(h, n, |h| - |n|);
      assert StrRStrAsWritten(haystack, needle) == LastFrom(h, n, |h| - |n|, 1);
      assert StrRStrFixed(haystack, needle) == LastFrom(h, n, |h| - |n|, 0);
    }
  }

  lemma {:induction false} LastFromStart(haystack: string, needle: string, k: nat)
    ensures LastFrom(haystack, needle, k, 1) ==
      (var r := LastFrom(haystack, needle, k, 0); if r == Some(0) then None else r)
    decreases k
  {
    if k > 0 && !Occurs(haystack, needle, k) {
      LastFromStart(haystack, needle, k - 1);
    }
  }

  /** A haystack equal to the needle: the only match is at offset 0, and the search as written misses it. */
  lemma {:induction false} StrRStrWholeString()
    ensures StrRStrAsWritten(Some("a"), Some("a")) == None
    ensures StrRStrFixed(Some("a"), Some("a")) == Some(0) && Occurs("a", "a", 0)
  {
    assert "a"[0..1] == "a";
  }

  /** `strrstr`, src/utils.c: the downward pointer scan of the source. */
  method StrRStr(haystack: Option<string>, needle: Option<string>) returns (r: Option<nat>)
    ensures r == StrRStrAsWritten(haystack, needle)
  {
    if haystack.None? || needle.None? {
      return None;
    }
    var h, n := haystack.value, needle.value;
    if |n| == 0 || |h| == 0 || |h| < |n| {
      return None;
    }
    var s: nat := |h| - |n|;
    while s != 0
      invariant s <= |h| - |n|
      invariant LastFrom(h, n, |h| - |n|, 1) == LastFrom(h, n, s, 1)
    {
      if h[s..s + |n|] == n {
        return Some(s);
      }
      s := s - 1;
    }
    return None;
  }

  /** The scan with the bound corrected to include offset 0. */
  method StrRStrCorrected(haystack: Option<string>, needle: Option<string>) returns (r: Option<nat>)
    ensures r == StrRStrFixed(haystack, needle)
  {
    if haystack.None? || needle.None? {
      return None;
    }
    var h, n := haystack.value, needle.value;
    if |n| == 0 || |h| == 0 || |h| < |n| {
      return None;
    }
    var s: nat := |h| - |n| + 1;
    while s != 0
      invariant s <= |h| - |n| + 1
      invariant LastFrom(h, n, |h| - |n|, 0) == if s == 0 then None else LastFrom(h, n, s - 1, 0)
    {
      if h[s - 1..s - 1 + |n|] == n {
        return Some(s - 1);
      }
      s := s - 1;
    }
    return None;
  }

  const Word: int := 0x1_0000_0000_0000_0000
  /** An unsigned 64-bit word, with C's wrap-around written out as `% Word`. */
  type U64 = x: int | 0 <= x < 0x1_0000_0000_0000_0000

  /** `ROTL(d, 27)` on 64-bit words: the low 37 bits move up, the high 27 bits come round to the bottom. */
  function Rotl27(d: U64): U64
  {
    (d * 0x800_0000) % Word + d / 0x20_0000_0000
  }

  /** The rotation keeps every bit: the word splits into its high 27 and low 37 bits, which trade places. */
  lemma Rotl27Swaps(hi: nat, lo: nat)
    requires hi < 0x800_0000 && lo < 0x20_0000_0000
    ensures Rotl27(hi * 0x20_0000_0000 + lo) == lo * 0x800_0000 + hi
  {
    var d := hi * 0x20_0000_0000 + lo;
    assert d * 0x800_0000 == hi * Word + lo * 0x800_0000;
    assert lo * 0x800_0000 < Word;
    assert (d * 0x800_0000) % Word == lo * 0x800_0000;
    assert d / 0x20_0000_0000 == hi;
  }

  /** The rotation is one-to-one. */
  lemma Rotl27Injective(x: U64, y: U64)
    requires Rotl27(x) == Rotl27(y)
    ensures x == y
  {
    var xh, xl := x / 0x20_0000_0000, x % 0x20_0000_0000;
    var yh, yl := y / 0x20_0000_0000, y % 0x20_0000_0000;
    Rotl27Swaps(xh, xl);
    Rotl27Swaps(yh, yl);
    var v := xl * 0x800_0000 + xh;
    assert v == yl * 0x800_0000 + yh;
    assert v / 0x800_0000 == xl && v / 0x800_0000 == yl;
  }

  const Multiplier: U64 := 15241094284759029579

  /** One step of romuDuoJr on the state `(s0, s1)`. */
  function Step(s0: U64, s1: U64): (U64, U64)
  {
    ((Multiplier * s1) % Word, Rotl27((s1 - s0) % Word))
  }

  /** The generator state `random_seed` of the 64-bit build. */
  class Rng {
    var s0: U64
    var s1: U64

    /** A generator in the given state (`random_set_seed` derives it with XXH64, which is not part of this model). */
    constructor(a: U64, b: U64)
      ensures s0 == a && s1 == b
    {
      s0, s1 := a, b;
    }

    /** `random_next`: returns the old first word and advances the state by `Step`. */
    method Next() returns (x: U64)
      modifies this
      ensures x == old(s0) && (s0, s1) == Step(old(s0), old(s1))
    {
      var xp := s0;
      s0 := (15241094284759029579 * s1) % Word;
      s1 := (s1 - xp) % Word;
      s1 := Rotl27(s1);
      return xp;
    }

    /**
     * `random_below`: 0 for a limit of at most 1, without a draw; otherwise
     * draws until one falls below `Threshold(limit)` and returns it modulo
     * `limit`. `draws` are the words drawn, in order: each is what
     * `random_next` returns from the state the previous one left. The loop
     * here gives up after `budget` draws, with `None`.
     */
    method RandomBelow(limit: nat, budget: nat) returns (r: Option<nat>, accepted: U64, ghost draws: seq<U64>)
      requires limit < 0x1_0000_0000
      modifies this
      ensures draws == Draws(old(s0), old(s1), |draws|) && (s0, s1) == After(old(s0), old(s1), |draws|)
      ensures limit <= 1 ==> r == Some(0) && draws == []
      ensures limit > 1 ==> |draws| <= budget && forall i :: 0 <= i < |draws| - 1 ==> draws[i] >= Threshold(limit)
      ensures limit > 1 && r.Some? ==>
        |draws| > 0 && accepted == draws[|draws| - 1] && accepted < Threshold(limit) &&
        r.value == accepted % limit && r.value < limit
      ensures limit > 1 && r.None? ==> |draws| == budget && forall i :: 0 <= i < |draws| ==> draws[i] >= Threshold(limit)
    {
      draws := [];
      if limit <= 1 {
        return Some(0), 0, draws;
      }
      ghost var a, b := s0, s1;
      var tries := 0;
      while tries < budget
        invariant tries == |draws| <= budget
        invariant draws == Draws(a, b, |draws|) && (s0, s1) == After(a, b, |draws|)
        invariant forall i :: 0 <= i < |draws| ==> draws[i] >= Threshold(limit)
        decreases budget - tries
      {
        var u := Next();
        draws := draws + [u];
        if !(u >= Threshold(limit)) {
          r, accepted := Some(u % limit), u;
          return;
        }
        tries := tries + 1;
      }
      r, accepted := None, 0;
    }
  }

  /** The generator state after `k` calls of `random_next` from `(s0, s1)`. */
  function After(s0: U64, s1: U64, k: nat): (U64, U64)
  {
    if k == 0 then (s0, s1) else var p := After(s0, s1, k - 1); Step(p.0, p.1)
  }

  /** The words `k` successive calls of `random_next` return from `(s0, s1)`: each call returns the first word of the state it starts from. */
  function Draws(s0: U64, s1: U64, k: nat): (d: seq<U64>)
    ensures |d| == k && forall i :: 0 <= i < k ==> d[i] == After(s0, s1, i).0
  {
    if k == 0 then [] else Draws(s0, s1, k - 1) + [After(s0, s1, k - 1).0]
  }

  /** Drawing `j` words and then `k` more is drawing `j + k`: the draws depend only on the starting state. */
  lemma {:induction false} DrawsSplit(s0: U64, s1: U64, j: nat, k: nat)
    ensures var p := After(s0, s1, j);
      After(s0, s1, j + k) == After(p.0, p.1, k) && Draws(s0, s1, j + k) == Draws(s0, s1, j) + Draws(p.0, p.1, k)
    decreases k
  {
    if k > 0 {
      DrawsSplit(s0, s1, j, k - 1);
    }
  }

  /** `UINT64_MAX - (UINT64_MAX % limit)`: draws at or above it are rejected. */
  function Threshold(limit: nat): int
    requires limit > 0
  {
    0xFFFF_FFFF_FFFF_FFFF - 0xFFFF_FFFF_FFFF_FFFF % limit
  }

  /**
   * The accepted draws `0 .. Threshold(limit) - 1` are a whole number of
   * runs of `limit` values, so every result below `limit` is equally likely,
   * and at most `limit` values (`UINT64_MAX % limit + 1`) are rejected.
   */
  lemma ThresholdUnbiased(limit: nat)
    requires 1 < limit < 0x1_0000_0000
    ensures Threshold(limit) == (0xFFFF_FFFF_FFFF_FFFF / limit) * limit
    ensures Threshold(limit) > 0xFFFF_FFFF_FFFF_FFFF - limit
  {
  }
}
