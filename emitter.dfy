/**
 * The arithmetic the grammar compiler bakes into the generated C code
 * (`CFuzzer` in grammars/f1_c_gen.py): the chain of thresholds that counts
 * the rules fitting a budget, the `get_random_len` order statistic, the
 * left-to-right apportionment of a rule's budget among its keys, and the
 * pool branch taken when the budget is below a key's minimum cost.
 *
 * The generated code works on C `int`s; random draws come from
 * `random_below` (an oracle here) and the children's generation routines are
 * an oracle that reports how many characters each child produced and
 * whether it wrote the caller's `consumed` counter.
 */
module Emitter {
  import opened Wrappers
  import opened CostAnalysis

  // ---------------------------------------------------------------------
  // gen_num_candidate_rules: the emitted `rules_that_fit` chain.
  // ---------------------------------------------------------------------

  /** The costs of a key's cost list are ascending, as they are after `sorted`. */
  ghost predicate Ascending(es: seq<Entry>)
  {
    forall i, j :: 0 <= i < j < |es| ==> es[i].0 <= es[j].0
  }

  lemma SortedAscending(es: seq<Entry>)
    requires Sorted(es)
    ensures Ascending(es)
  {
    forall i, j | 0 <= i < j < |es| ensures es[i].0 <= es[j].0 {
      assert EntryLe(es[i], es[j]);
    }
  }

  /**
   * The emitted chain `if (max_len < t0) rules_that_fit = n0; else if ... else
   * rules_that_fit = all;`, as its list of `(threshold, count)` arms and the
   * final count.
   */
  datatype FitChain = FitChain(arms: seq<(nat, nat)>, all: nat)

  /** What the emitted chain assigns to `rules_that_fit` for a budget `maxLen`. */
  function RulesThatFit(arms: seq<(nat, nat)>, all: nat, maxLen: int): nat
  {
    if arms == [] then all
    else if maxLen < arms[0].0 then arms[0].1
    else RulesThatFit(arms[1..], all, maxLen)
  }

  /** The number of entries costing at most `m`. */
  function CountLe(es: seq<Entry>, m: int): (n: nat)
    ensures n <= |es|
    decreases |es|
  {
    if es == [] then 0
    else CountLe(es[..|es| - 1], m) + (if es[|es| - 1].0 <= m then 1 else 0)
  }

  /** The number of entries costing exactly `c`. */
  function CountEq(es: seq<Entry>, c: nat): nat
    decreases |es|
  {
    if es == [] then 0
    else CountEq(es[..|es| - 1], c) + (if es[|es| - 1].0 == c then 1 else 0)
  }

  /** `counts[0] + ... + counts[j - 1]`. */
  function Cum(counts: seq<nat>, j: nat): nat
    requires j <= |counts|
  {
    if j == 0 then 0 else Cum(counts, j - 1) + counts[j - 1]
  }

  /** The entries whose cost is one of `cs`, counted group by group. */
  function SumEq(es: seq<Entry>, cs: seq<nat>): nat
  {
    if cs == [] then 0 else SumEq(es, cs[..|cs| - 1]) + CountEq(es, cs[|cs| - 1])
  }

  ghost predicate Increasing(cs: seq<nat>)
  {
    forall a, b :: 0 <= a < b < |cs| ==> cs[a] < cs[b]
  }

  /**
   * What the first loop of `gen_num_candidate_rules` builds from the first
   * `i` entries: the distinct costs in order and how many entries have each.
   */
  ghost predicate Groups(es: seq<Entry>, i: nat, sizes: seq<nat>, counts: seq<nat>)
    requires i <= |es|
  {
    |sizes| == |counts| && Increasing(sizes) &&
    (forall p :: 0 <= p < i ==> es[p].0 in sizes) &&
    (forall a :: 0 <= a < |sizes| ==> counts[a] == CountEq(es[..i], sizes[a])) &&
    (i == 0 <==> sizes == []) &&
    (i > 0 ==> sizes[0] == es[0].0 && sizes[|sizes| - 1] == es[i - 1].0)
  }

  /**
   * `gen_num_candidate_rules(k)`: group the ascending costs, then emit one arm
   * per cost after the cheapest, each counting the rules below that cost,
   * and a final count of all rules. When the budget is at least the minimum
   * cost, the chain counts exactly the rules that cost at most the budget.
   */
  method GenNumCandidateRules(es: seq<Entry>) returns (chain: FitChain)
    requires es != [] && Ascending(es)
    ensures chain.all == |es|
    ensures forall m :: m >= es[0].0 ==> RulesThatFit(chain.arms, chain.all, m) == CountLe(es, m)
  {
    var sizes, counts := GroupCosts(es);
    chain := ChainOf(sizes, counts);
    TotalCount(es, sizes, counts);
    forall m | m >= es[0].0 ensures RulesThatFit(chain.arms, chain.all, m) == CountLe(es, m) {
      FitCorrect(es, sizes, counts, chain.arms, m);
    }
  }

  /** The first loop: the distinct costs in order, with how many rules have each. */
  method GroupCosts(es: seq<Entry>) returns (sizes: seq<nat>, counts: seq<nat>)
    requires Ascending(es)
    ensures Groups(es, |es|, sizes, counts)
  {
    sizes, counts := [], [];
    for i := 0 to |es|
      invariant Groups(es, i, sizes, counts)
    {
      var c := es[i].0;
      ghost var (sizes0, counts0) := (sizes, counts);
      if c !in sizes {
        sizes := sizes + [c];
        counts := counts + [0];
      }
      counts := counts[|counts| - 1 := counts[|counts| - 1] + 1];
      GroupsStep(es, i, sizes0, counts0);
    }
  }

  /**
   * The second loop: one arm per cost after the cheapest, whose count is
   * the number of rules in the cheaper groups, and the total as the last count.
   */
  method ChainOf(sizes: seq<nat>, counts: seq<nat>) returns (chain: FitChain)
    requires |sizes| == |counts| && sizes != []
    ensures chain.all == Cum(counts, |counts|) && |chain.arms| == |sizes| - 1
    ensures forall b :: 0 <= b < |chain.arms| ==> chain.arms[b] == (sizes[b + 1], Cum(counts, b + 1))
  {
    var arms: seq<(nat, nat)> := [];
    var candidates := 0;
    for i := 0 to |sizes| - 1
      invariant candidates == Cum(counts, i) && |arms| == i
      invariant forall a :: 0 <= a < i ==> arms[a] == (sizes[a + 1], Cum(counts, a + 1))
    {
      candidates := candidates + counts[i];
      arms := arms + [(sizes[i + 1], candidates)];
    }
    candidates := candidates + counts[|counts| - 1];
    chain := FitChain(arms, candidates);
  }

  /** The groups together hold every entry. */
  lemma TotalCount(es: seq<Entry>, sizes: seq<nat>, counts: seq<nat>)
    requires es != [] && Groups(es, |es|, sizes, counts)
    ensures Cum(counts, |counts|) == |es|
  {
    assert es[..|es|] == es;
    var m := sizes[|sizes| - 1];
    forall a | 0 <= a < |sizes| ensures sizes[a] <= m <==> a < |sizes| {
      if a < |sizes| - 1 {
        assert sizes[a] < m;
      }
    }
    CountLeGroups(es, sizes, |sizes|, m);
    CumIsSumEq(es, sizes, counts, |sizes|);
    assert sizes[..|sizes|] == sizes;
    forall p | 0 <= p < |es| ensures es[p].0 <= m {
      var a :| 0 <= a < |sizes| && sizes[a] == es[p].0;
    }
    CountLeAll(es, m);
  }

  lemma {:induction false} CountLeAll(es: seq<Entry>, m: int)
    requires forall p :: 0 <= p < |es| ==> es[p].0 <= m
    ensures CountLe(es, m) == |es|
    decreases |es|
  {
    if es != [] {
      CountLeAll(es[..|es| - 1], m);
    }
  }

  /** One step of the grouping loop keeps `Groups`. */
  lemma GroupsStep(es: seq<Entry>, i: nat, sizes: seq<nat>, counts: seq<nat>)
    requires Ascending(es) && i < |es| && Groups(es, i, sizes, counts)
    ensures var c := es[i].0;
      var (s1, c1) := if c !in sizes then (sizes + [c], counts + [0]) else (sizes, counts);
      Groups(es, i + 1, s1, c1[|c1| - 1 := c1[|c1| - 1] + 1])
  {
    var c := es[i].0;
    assert es[..i + 1][..i] == es[..i];
    if c !in sizes {
      CountEqAbsent(es[..i], c);
    } else {
      assert c == sizes[|sizes| - 1] by {
        var a :| 0 <= a < |sizes| && sizes[a] == c;
        assert es[i - 1].0 <= c;
      }
    }
  }

  lemma {:induction false} CountEqAbsent(es: seq<Entry>, c: nat)
    requires forall p :: 0 <= p < |es| ==> es[p].0 != c
    ensures CountEq(es, c) == 0
    decreases |es|
  {
    if es != [] {
      CountEqAbsent(es[..|es| - 1], c);
    }
  }

  /** Adding one entry adds one to the group of its cost when the costs are distinct. */
  lemma {:induction false} SumEqSnoc(es: seq<Entry>, e: Entry, cs: seq<nat>)
    requires forall a, b :: 0 <= a < b < |cs| ==> cs[a] != cs[b]
    ensures SumEq(es + [e], cs) == SumEq(es, cs) + (if e.0 in cs then 1 else 0)
    decreases |cs|
  {
    assert (es + [e])[..|es|] == es;
    if cs != [] {
      SumEqSnoc(es, e, cs[..|cs| - 1]);
      assert e.0 in cs <==> e.0 in cs[..|cs| - 1] || e.0 == cs[|cs| - 1];
    }
  }

  /** When every cost is one of the increasing `sizes`, the entries up to `m` are the groups up to `m`. */
  lemma {:induction false} CountLeGroups(es: seq<Entry>, sizes: seq<nat>, j: nat, m: int)
    requires Increasing(sizes) && j <= |sizes|
    requires forall a :: 0 <= a < |sizes| ==> (sizes[a] <= m <==> a < j)
    requires forall p :: 0 <= p < |es| ==> es[p].0 in sizes
    ensures CountLe(es, m) == SumEq(es, sizes[..j])
    decreases |es|
  {
    if es == [] {
      SumEqEmpty(sizes[..j]);
    } else {
      var init := es[..|es| - 1];
      var e := es[|es| - 1];
      CountLeGroups(init, sizes, j, m);
      assert init + [e] == es;
      SumEqSnoc(init, e, sizes[..j]);
      var a :| 0 <= a < |sizes| && sizes[a] == e.0;
      if a < j {
        assert sizes[..j][a] == e.0;
      } else {
        assert e.0 !in sizes[..j];
      }
    }
  }

  lemma {:induction false} SumEqEmpty(cs: seq<nat>)
    ensures SumEq([], cs) == 0
  {
    if cs != [] {
      SumEqEmpty(cs[..|cs| - 1]);
    }
  }

  lemma {:induction false} CumIsSumEq(es: seq<Entry>, sizes: seq<nat>, counts: seq<nat>, j: nat)
    requires |sizes| == |counts| && j <= |sizes|
    requires forall a :: 0 <= a < |sizes| ==> counts[a] == CountEq(es, sizes[a])
    ensures Cum(counts, j) == SumEq(es, sizes[..j])
  {
    if j > 0 {
      CumIsSumEq(es, sizes, counts, j - 1);
      assert sizes[..j][..j - 1] == sizes[..j - 1];
    }
  }

  /** The arms from `a` on pick the count of the groups up to the first size above `m`. */
  lemma {:induction false} ChainPicks(sizes: seq<nat>, counts: seq<nat>, arms: seq<(nat, nat)>, a: nat, j: nat, m: int)
    requires |sizes| == |counts| && |arms| == |sizes| - 1 && 1 <= j <= |sizes| && a < j
    requires forall b :: 0 <= b < |arms| ==> arms[b] == (sizes[b + 1], Cum(counts, b + 1))
    requires forall b :: 0 <= b < |sizes| ==> (sizes[b] <= m <==> b < j)
    ensures RulesThatFit(arms[a..], Cum(counts, |counts|), m) == Cum(counts, j)
    decreases |arms| - a
  {
    if a < |arms| {
      assert arms[a..][0] == arms[a] && arms[a..][1..] == arms[a + 1..];
      if a + 1 < j {
        ChainPicks(sizes, counts, arms, a + 1, j, m);
      }
    }
  }

  lemma FitCorrect(es: seq<Entry>, sizes: seq<nat>, counts: seq<nat>, arms: seq<(nat, nat)>, m: int)
    requires es != [] && Groups(es, |es|, sizes, counts) && m >= es[0].0
    requires |arms| == |sizes| - 1 && forall b :: 0 <= b < |arms| ==> arms[b] == (sizes[b + 1], Cum(counts, b + 1))
    ensures RulesThatFit(arms, Cum(counts, |counts|), m) == CountLe(es, m)
  {
    assert es[..|es|] == es;
    var j: nat := 0;
    while j < |sizes| && sizes[j] <= m
      invariant j <= |sizes| && forall b :: 0 <= b < j ==> sizes[b] <= m
    {
      j := j + 1;
    }
    forall b | 0 <= b < |sizes| ensures sizes[b] <= m <==> b < j {
      if j < |sizes| && b > j {
        assert sizes[j] < sizes[b];
      }
    }
    CountLeGroups(es, sizes, j, m);
    CumIsSumEq(es, sizes, counts, j);
    assert arms[0..] == arms;
    ChainPicks(sizes, counts, arms, 0, j, m);
  }

  /**
   * On ascending costs the rules counted are a prefix: rule `p` is among the
   * first `CountLe(es, m)` exactly when it costs at most `m`.
   */
  lemma {:induction false} CountLePrefix(es: seq<Entry>, m: int)
    requires Ascending(es)
    ensures forall p :: 0 <= p < |es| ==> (p < CountLe(es, m) <==> es[p].0 <= m)
    decreases |es|
  {
    if es != [] {
      var n := |es| - 1;
      var init := es[..n];
      assert Ascending(init);
      CountLePrefix(init, m);
      if es[n].0 <= m {
        assert forall p :: 0 <= p < n ==> es[p].0 <= es[n].0;
        if n > 0 {
          assert init[n - 1].0 <= m;
        }
      }
    }
  }

  /**
   * When the budget reaches the minimum cost, at least one rule fits, and the
   * rules the chain lets `map_rand` choose from all cost at most the budget.
   */
  lemma FitNonEmpty(es: seq<Entry>, m: int)
    requires es != [] && Ascending(es) && m >= es[0].0
    ensures 1 <= CountLe(es, m) <= |es|
    ensures forall p :: 0 <= p < CountLe(es, m) ==> es[p].0 <= m
  {
    CountLePrefix(es, m);
  }

  // ---------------------------------------------------------------------
  // map_rand and get_random_len, on C `int`s.
  // ---------------------------------------------------------------------

  const U32: nat := 0x1_0000_0000
  const INT_MAX: int := 0x7FFF_FFFF

  type u32 = x: int | 0 <= x < 0x1_0000_0000

  /** The conversion of a C `int` argument to `uint32_t`: modulo 2^32. */
  function ToU32(v: int): (u: u32)
    ensures 0 <= v < U32 ==> u == v
  {
    v % U32
  }

  /** The conversion of a `uint32_t` result back to a two's-complement `int`. */
  function ToI32(u: u32): (v: int)
    ensures -0x8000_0000 <= v <= INT_MAX
    ensures u <= INT_MAX ==> v == u
    ensures u > INT_MAX ==> v < 0
  {
    if u <= INT_MAX then u else u - U32
  }

  /**
   * `random_below` as an oracle: `rb(site, n, limit)` is the `n`-th draw made
   * at emitted call site `site` with that limit.
   */
  type RandomBelow = (nat, nat, u32) -> u32

  /** What `random_below` promises: 0 for a limit of at most 1, else below the limit. */
  predicate Below(u: u32, limit: u32)
  {
    if limit <= 1 then u == 0 else u < limit
  }

  ghost predicate ValidRb(rb: RandomBelow)
  {
    forall site, n, limit :: Below(rb(site, n, limit), limit)
  }

  /** The emitted `map_rand(v)`: `random_below` on `v` converted to `uint32_t`, the result read back as an `int`. */
  function MapRand(rb: RandomBelow, site: nat, n: nat, v: int): int
  {
    ToI32(rb(site, n, ToU32(v)))
  }

  /** For a limit that fits a C `int`, `map_rand` lies in `[0, v)`, and is 0 when `v <= 1`. */
  lemma MapRandBelow(rb: RandomBelow, site: nat, n: nat, v: int)
    requires ValidRb(rb) && 0 <= v <= INT_MAX
    ensures 0 <= MapRand(rb, site, n, v) && (v <= 1 ==> MapRand(rb, site, n, v) == 0)
    ensures v > 1 ==> MapRand(rb, site, n, v) < v
  {
    assert Below(rb(site, n, ToU32(v)), ToU32(v));
  }

  function Min(a: int, b: int): int
  {
    if b < a then b else a
  }

  /** The `j`-th draw of `get_random_len(_, total)`: `map_rand(total + 1)`. */
  function Draw(rb: RandomBelow, site: nat, total: int, j: nat): int
  {
    MapRand(rb, site, j, total + 1)
  }

  /** `total` lowered by each of the first `k` draws of `map_rand(total + 1)` at `site`. */
  function MinDraws(rb: RandomBelow, site: nat, total: int, k: nat): (r: int)
    ensures r <= total
  {
    if k == 0 then total else Min(MinDraws(rb, site, total, k - 1), Draw(rb, site, total, k - 1))
  }

  /** The value the emitted `get_random_len(n, total)` returns: `n - 1` draws, the least one kept. */
  function RandomLen(rb: RandomBelow, site: nat, n: int, total: int): (r: int)
    ensures r <= total && (n <= 1 ==> r == total)
  {
    MinDraws(rb, site, total, if n > 1 then n - 1 else 0)
  }

  /** The emitted `get_random_len` loop. */
  method GetRandomLen(rb: RandomBelow, site: nat, numSubnodes: int, total: int) returns (ret: int)
    ensures ret == RandomLen(rb, site, numSubnodes, total)
    ensures ret <= total && (numSubnodes <= 1 ==> ret == total)
  {
    ret := total;
    var i := 0;
    while i < numSubnodes - 1
      invariant 0 <= i && (numSubnodes > 1 ==> i <= numSubnodes - 1) && (numSubnodes <= 1 ==> i == 0)
      invariant ret == MinDraws(rb, site, total, i)
    {
      var temp := MapRand(rb, site, i, total + 1);
      assert temp == Draw(rb, site, total, i);
      if temp < ret {
        ret := temp;
      }
      i := i + 1;
    }
  }

  /** The result is the least of `total` and the draws: below each, and equal to one of them. */
  lemma {:induction false} MinDrawsIsMin(rb: RandomBelow, site: nat, total: int, k: nat)
    ensures forall j :: 0 <= j < k ==> MinDraws(rb, site, total, k) <= Draw(rb, site, total, j)
    ensures MinDraws(rb, site, total, k) == total ||
            exists j :: 0 <= j < k && MinDraws(rb, site, total, k) == Draw(rb, site, total, j)
  {
    if k > 0 {
      MinDrawsIsMin(rb, site, total, k - 1);
      var r := MinDraws(rb, site, total, k);
      if r != total && r != Draw(rb, site, total, k - 1) {
        var j :| 0 <= j < k - 1 && MinDraws(rb, site, total, k - 1) == Draw(rb, site, total, j);
        assert r == Draw(rb, site, total, j);
      }
    }
  }

  /** For a total in `[0, INT_MAX)` every draw lies in `[0, total]`, so the result does too. */
  lemma {:induction false} RandomLenRange(rb: RandomBelow, site: nat, n: int, total: int)
    requires ValidRb(rb) && 0 <= total < INT_MAX
    ensures 0 <= RandomLen(rb, site, n, total) <= total
  {
    MinDrawsNonNegative(rb, site, total, if n > 1 then n - 1 else 0);
  }

  lemma {:induction false} MinDrawsNonNegative(rb: RandomBelow, site: nat, total: int, k: nat)
    requires ValidRb(rb) && 0 <= total < INT_MAX
    ensures 0 <= MinDraws(rb, site, total, k)
  {
    if k > 0 {
      MinDrawsNonNegative(rb, site, total, k - 1);
      MapRandBelow(rb, site, k - 1, total + 1);
    }
  }

  /**
   * A negative total is not a bound: `map_rand(total + 1)` converts a negative
   * limit to a huge unsigned one, and a draw read back as an `int` can fall
   * below the total. With total -2 and a valid draw of 2^32 - 4 the result is -4.
   */
  lemma RandomLenNegative()
    ensures var rb: RandomBelow := (site, n, limit) => if limit > 3 then limit - 3 else 0;
      ValidRb(rb) && RandomLen(rb, 0, 2, -2) == -4
  {
    var rb: RandomBelow := (site, n, limit) => if limit > 3 then limit - 3 else 0;
    assert ToU32(-1) == U32 - 1;
    assert MapRand(rb, 0, 0, -1) == -4;
  }

  // ---------------------------------------------------------------------
  // gen_rule_src: the budget apportioned among a rule's keys.
  // ---------------------------------------------------------------------

  /** A token of a rule as the emitted code sees it: a key with its `key_cost`, or a literal of some length. */
  datatype Tok = KeyTok(cost: nat) | Lit(len: nat)

  function TokCostOf(t: Tok): nat
  {
    match t
    case KeyTok(c) => c
    case Lit(n) => n
  }

  /** The rule's cost: its keys' costs plus its literals' lengths. */
  function TokCost(toks: seq<Tok>): nat
  {
    if toks == [] then 0 else TokCostOf(toks[0]) + TokCost(toks[1..])
  }

  /** How many key tokens there are: the `nkeys` counted down as keys are emitted. */
  function KeyCount(toks: seq<Tok>): nat
  {
    if toks == [] then 0 else (if toks[0].KeyTok? then 1 else 0) + KeyCount(toks[1..])
  }

  /**
   * What a child's `gen_node_<key>(subnode_max_len, &subnode_consumed, -1)`
   * call leaves behind: the length of the text it generated and the value it
   * stored in `subnode_consumed`, if it stored one.
   */
  datatype Child = Child(len: nat, wrote: Option<int>)

  /** The child generators, by token position and offered `max_len`. */
  type Kids = (nat, int) -> Child

  /**
   * The locals of one emitted rule body: `remaining_len`, `*consumed`,
   * `subnode_consumed`, with the text length produced and the number of
   * children that left `subnode_consumed` unwritten.
   */
  datatype Frame = Frame(remaining: int, consumed: int, sub: int, produced: nat, unwritten: nat)

  /** The statements emitted for token `i` (site `i + 1` of the random draws). */
  function Step(toks: seq<Tok>, i: nat, rb: RandomBelow, kid: Kids, f: Frame): Frame
    requires i < |toks|
  {
    match toks[i]
    case Lit(n) => f.(consumed := f.consumed + n, produced := f.produced + n)
    case KeyTok(c) =>
      var ask := RandomLen(rb, i + 1, KeyCount(toks[i..]), f.remaining) + c;
      var r := kid(i, ask);
      var sub := if r.wrote.Some? then r.wrote.value else f.sub;
      Frame(f.remaining + c - sub, f.consumed + sub, sub, f.produced + r.len,
            f.unwritten + (if r.wrote.Some? then 0 else 1))
  }

  /** The tokens from `i` on, in order. */
  function Run(toks: seq<Tok>, i: nat, rb: RandomBelow, kid: Kids, f: Frame): Frame
    requires i <= |toks|
    decreases |toks| - i
  {
    if i == |toks| then f else Run(toks, i + 1, rb, kid, Step(toks, i, rb, kid, f))
  }

  /** A whole rule body: `remaining_len = max_len - min_rule_cost`, `*consumed = 0`, then every token. */
  function Body(toks: seq<Tok>, maxLen: int, minRuleCost: nat, rb: RandomBelow, kid: Kids): Frame
  {
    Run(toks, 0, rb, kid, Frame(maxLen - minRuleCost, 0, 0, 0, 0))
  }

  lemma TokCostStep(toks: seq<Tok>, i: nat)
    requires i < |toks|
    ensures TokCost(toks[i..]) == TokCostOf(toks[i]) + TokCost(toks[i + 1..])
  {
    assert toks[i..][1..] == toks[i + 1..];
  }

  /**
   * Each token keeps `remaining_len` + the cost of the tokens not yet emitted
   * + `*consumed` unchanged, whatever the children report.
   */
  lemma StepAccounting(toks: seq<Tok>, i: nat, rb: RandomBelow, kid: Kids, f: Frame)
    requires i < |toks|
    ensures var g := Step(toks, i, rb, kid, f);
      g.remaining + TokCost(toks[i + 1..]) + g.consumed == f.remaining + TokCost(toks[i..]) + f.consumed
  {
    TokCostStep(toks, i);
  }

  lemma {:induction false} RunAccounting(toks: seq<Tok>, i: nat, rb: RandomBelow, kid: Kids, f: Frame)
    requires i <= |toks|
    ensures var g := Run(toks, i, rb, kid, f);
      g.remaining + g.consumed == f.remaining + TokCost(toks[i..]) + f.consumed
    decreases |toks| - i
  {
    if i < |toks| {
      StepAccounting(toks, i, rb, kid, f);
      RunAccounting(toks, i + 1, rb, kid, Step(toks, i, rb, kid, f));
    }
  }

  /** With `min_rule_cost` the rule's cost, the body ends with `remaining_len + *consumed == max_len`. */
  lemma BodyAccounting(toks: seq<Tok>, maxLen: int, rb: RandomBelow, kid: Kids)
    ensures var g := Body(toks, maxLen, TokCost(toks), rb, kid); g.remaining + g.consumed == maxLen
  {
    RunAccounting(toks, 0, rb, kid, Frame(maxLen - TokCost(toks), 0, 0, 0, 0));
    assert toks[0..] == toks;
  }

  /** Children that store exactly the length they generated. */
  ghost predicate ExactKids(kid: Kids)
  {
    forall i, l :: kid(i, l).wrote == Some(kid(i, l).len)
  }

  /** With exact children, `*consumed` grows by exactly the text generated. */
  lemma {:induction false} RunExact(toks: seq<Tok>, i: nat, rb: RandomBelow, kid: Kids, f: Frame)
    requires i <= |toks| && ExactKids(kid)
    ensures var g := Run(toks, i, rb, kid, f);
      g.consumed - f.consumed == g.produced - f.produced && g.unwritten == f.unwritten
    decreases |toks| - i
  {
    if i < |toks| {
      RunExact(toks, i + 1, rb, kid, Step(toks, i, rb, kid, f));
    }
  }

  /**
   * Children that, offered at least their key's cost, store a count between
   * 0 and what they were offered: the generator's own promise, taken for the
   * callees.
   */
  ghost predicate KidsWithin(toks: seq<Tok>, kid: Kids)
  {
    forall i, l :: 0 <= i < |toks| && toks[i].KeyTok? && l >= toks[i].cost ==>
      kid(i, l).wrote.Some? && 0 <= kid(i, l).wrote.value <= l
  }

  /**
   * Starting from a budget that covers the remaining tokens, every child is
   * offered at least its cost (so none takes its pool branch), `remaining_len`
   * never goes negative, and `*consumed` stays within the budget.
   */
  lemma {:induction false} RunWithin(toks: seq<Tok>, i: nat, rb: RandomBelow, kid: Kids, f: Frame)
    requires i <= |toks| && ValidRb(rb) && KidsWithin(toks, kid)
    requires 0 <= f.remaining && f.remaining + TokCost(toks[i..]) < INT_MAX
    ensures var g := Run(toks, i, rb, kid, f);
      0 <= g.remaining && g.unwritten == f.unwritten &&
      f.consumed <= g.consumed <= f.consumed + f.remaining + TokCost(toks[i..])
    decreases |toks| - i
  {
    if i < |toks| {
      var g := Step(toks, i, rb, kid, f);
      TokCostStep(toks, i);
      StepAccounting(toks, i, rb, kid, f);
      if toks[i].KeyTok? {
        RandomLenRange(rb, i + 1, KeyCount(toks[i..]), f.remaining);
      }
      RunWithin(toks, i + 1, rb, kid, g);
    }
  }

  // ---------------------------------------------------------------------
  // gen_alt_src_ser_tree: the emitted gen_node_<key>.
  // ---------------------------------------------------------------------

  /**
   * What the emitter knows about one key: its cost list `cost[k]` (rules in
   * ascending-cost order, as `grammar[k]` is after the reorder), each rule's
   * tokens, the `rules_that_fit` chain, and the lengths of its pool trees.
   */
  datatype KeyGen = KeyGen(entries: seq<Entry>, toks: seq<seq<Tok>>, chain: FitChain, pool: seq<nat>)

  ghost predicate ValidKey(k: KeyGen)
  {
    k.entries != [] && Ascending(k.entries) && |k.entries| <= INT_MAX &&
    |k.toks| == |k.entries| &&
    (forall i :: 0 <= i < |k.toks| ==> TokCost(k.toks[i]) == k.entries[i].0) &&
    (forall m :: m >= k.entries[0].0 ==> RulesThatFit(k.chain.arms, k.chain.all, m) == CountLe(k.entries, m)) &&
    1 <= |k.pool| <= INT_MAX
  }

  /**
   * The rule `switch(val)` expands: a `rule_index` in range is taken as it
   * is, without checking that it fits; otherwise `map_rand(rules_that_fit)`
   * picks among the rules that cost at most `max_len`.
   */
  function ChosenRule(k: KeyGen, maxLen: int, ruleIndex: int, rb: RandomBelow): (val: nat)
    requires ValidKey(k) && ValidRb(rb) && maxLen >= k.entries[0].0
    ensures val < |k.toks|
    ensures 0 <= ruleIndex < |k.toks| ==> val == ruleIndex
    ensures !(0 <= ruleIndex < |k.toks|) ==> k.entries[val].0 <= maxLen
  {
    if ruleIndex < 0 || ruleIndex >= |k.toks| then
      FitNonEmpty(k.entries, maxLen);
      var fit := RulesThatFit(k.chain.arms, k.chain.all, maxLen);
      MapRandBelow(rb, 0, 0, fit);
      MapRand(rb, 0, 0, fit)
    else
      ruleIndex
  }

  /**
   * The emitted `gen_node_<key>(max_len, consumed, rule_index)` as its caller
   * sees it. Below the key's minimum cost it deserialises a random pool tree;
   * as emitted, that branch declares its own `consumed` and never stores into
   * the caller's (`poolWrites` false). Otherwise it sets `*consumed = 0` and
   * runs the chosen rule's body. `kids(r)` are the children of rule `r`.
   */
  function Generate(k: KeyGen, maxLen: int, ruleIndex: int, rb: RandomBelow, kids: nat -> Kids, poolWrites: bool): (c: Child)
    requires ValidKey(k) && ValidRb(rb)
  {
    if maxLen < k.entries[0].0 then
      MapRandBelow(rb, 0, 0, |k.pool|);
      var val := MapRand(rb, 0, 0, |k.pool|);
      Child(k.pool[val], if poolWrites then Some(k.pool[val]) else None)
    else
      var val := ChosenRule(k, maxLen, ruleIndex, rb);
      var f := Body(k.toks[val], maxLen, k.entries[val].0, rb, kids(val));
      Child(f.produced, Some(f.consumed))
  }

  /**
   * Offered at least its minimum cost and left to choose its rule, a key's
   * generator stores a count between 0 and `max_len`, provided its children
   * do the same: one step of the induction over the generated tree.
   */
  lemma GenerateWithin(k: KeyGen, maxLen: int, ruleIndex: int, rb: RandomBelow, kids: nat -> Kids, poolWrites: bool)
    requires ValidKey(k) && ValidRb(rb) && k.entries[0].0 <= maxLen < INT_MAX
    requires !(0 <= ruleIndex < |k.toks|)
    requires forall r :: 0 <= r < |k.toks| ==> KidsWithin(k.toks[r], kids(r))
    ensures var c := Generate(k, maxLen, ruleIndex, rb, kids, poolWrites);
      c.wrote.Some? && 0 <= c.wrote.value <= maxLen
  {
    var val := ChosenRule(k, maxLen, ruleIndex, rb);
    var toks := k.toks[val];
    assert toks[0..] == toks;
    RunWithin(toks, 0, rb, kids(val), Frame(maxLen - k.entries[val].0, 0, 0, 0, 0));
  }

  /**
   * With the pool branch storing the pool tree's length, and children that
   * store exactly what they generate, every call stores exactly the length
   * of the text it generated.
   */
  lemma GenerateExact(k: KeyGen, maxLen: int, ruleIndex: int, rb: RandomBelow, kids: nat -> Kids)
    requires ValidKey(k) && ValidRb(rb)
    requires forall r :: 0 <= r < |k.toks| ==> ExactKids(kids(r))
    ensures var c := Generate(k, maxLen, ruleIndex, rb, kids, true); c.wrote == Some(c.len)
  {
    if maxLen >= k.entries[0].0 {
      var val := ChosenRule(k, maxLen, ruleIndex, rb);
      RunExact(k.toks[val], 0, rb, kids(val), Frame(maxLen - k.entries[val].0, 0, 0, 0, 0));
    }
  }

  /** The key `<c>`: one rule of cost 2, one pool tree of length 2. */
  function LeafKey(): KeyGen
  {
    KeyGen([(2, ["<c>"])], [[Lit(2)]], FitChain([], 1), [2])
  }

  /** The key `<p>`: rules `"a"` (cost 1) and `<c>` (cost 2). */
  function PairKey(): KeyGen
  {
    KeyGen([(1, ["a"]), (2, ["<c>"])], [[Lit(1)], [KeyTok(2)]], FitChain([(2, 1)], 2), [1])
  }

  lemma ExampleKeysValid()
    ensures ValidKey(LeafKey()) && ValidKey(PairKey())
  {
    assert TokCost([KeyTok(2)]) == 2;
  }

  /**
   * As emitted, the count is lost. `<p>` called with `max_len` 1 and the
   * forced `rule_index` 1 starts with `remaining_len` -1 and offers `<c>` a
   * `max_len` of 1. `<c>` takes its pool branch and stores nothing, so `<p>`
   * reports 0 consumed for 2 characters generated.
   */
  lemma PoolBranchLosesCount()
    ensures var rb: RandomBelow := (site, n, limit) => 0;
      var kids: nat -> Kids := r => (i, l) => if l < 2 then Child(2, None) else Child(l, Some(l));
      ValidRb(rb) && ValidKey(LeafKey()) && ValidKey(PairKey()) &&
      Generate(LeafKey(), 1, -1, rb, r => (i, l) => Child(0, Some(0)), false) == Child(2, None) &&
      Generate(PairKey(), 1, 1, rb, kids, false) == Child(2, Some(0))
  {
    ExampleKeysValid();
    var rb: RandomBelow := (site, n, limit) => 0;
    var toks := PairKey().toks[1];
    assert KeyCount(toks[0..]) == 1;
  }
}
