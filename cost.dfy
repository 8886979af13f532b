/**
 * The minimum-cost analysis of the grammar compiler (grammars/f1_common.py).
 *
 * A literal costs its length, a key costs the fewest characters any of its
 * rules can produce, and a rule costs the sum of its tokens. The analysis is
 * a Gauss-Seidel iteration: each pass walks every rule of every key in order,
 * lowering `key_cost[k]` as soon as a cheaper finite rule is met, and records
 * the finite-cost rules of each key; passes repeat until the recorded table
 * stops changing. Afterwards each key's rule list is sorted by
 * `(cost, rule)` in Python's tuple order.
 */
module CostAnalysis {
  import opened Text
  import opened Grammars

  /** A cost in characters; `Inf` is Python's `float("inf")`. */
  datatype Cost = Fin(n: nat) | Inf

  function Add(a: Cost, b: Cost): Cost
  {
    if a.Fin? && b.Fin? then Fin(a.n + b.n) else Inf
  }

  /** The `key_cost` dictionary: keys with a known finite cost. */
  type KeyCost = map<string, nat>

  /** One element of `cost[k]`: the pair `(rule_cost, rule)`. */
  type Entry = (nat, Rule)

  /** The cost of one token under the current `key_cost`. */
  function SymbolCost(g: Grammar, kc: KeyCost, sym: Token): (c: Cost)
    ensures !g.IsKey(sym) ==> c == Fin(|sym|)
    ensures g.IsKey(sym) ==> (c.Fin? <==> sym in kc)
    ensures g.IsKey(sym) && sym in kc ==> c == Fin(kc[sym])
  {
    if sym !in g.rules then Fin(|sym|)
    else if sym in kc then Fin(kc[sym])
    else Inf
  }

  /** The cost of a rule, accumulated left to right as the loop in `expansion_cost` does. */
  function RuleCost(g: Grammar, kc: KeyCost, r: Rule): Cost
    decreases |r|
  {
    if r == [] then Fin(0)
    else Add(RuleCost(g, kc, r[..|r| - 1]), SymbolCost(g, kc, r[|r| - 1]))
  }

  /** A rule is infinite exactly when one of its tokens is. */
  lemma {:induction false} RuleCostInfIff(g: Grammar, kc: KeyCost, r: Rule)
    ensures RuleCost(g, kc, r).Inf? <==> exists i :: 0 <= i < |r| && SymbolCost(g, kc, r[i]).Inf?
    decreases |r|
  {
    if r != [] {
      var p := r[..|r| - 1];
      RuleCostInfIff(g, kc, p);
      if RuleCost(g, kc, p).Inf? {
        var i :| 0 <= i < |p| && SymbolCost(g, kc, p[i]).Inf?;
        assert r[i] == p[i];
      }
      if exists i :: 0 <= i < |r| && SymbolCost(g, kc, r[i]).Inf? {
        var i :| 0 <= i < |r| && SymbolCost(g, kc, r[i]).Inf?;
        if i < |p| {
          assert p[i] == r[i];
        }
      }
    }
  }

  /** Once a prefix is infinite the whole rule is, which justifies the early return. */
  lemma {:induction false} RuleCostInfPrefix(g: Grammar, kc: KeyCost, r: Rule, i: nat)
    requires i <= |r| && RuleCost(g, kc, r[..i]).Inf?
    ensures RuleCost(g, kc, r).Inf?
  {
    RuleCostInfIff(g, kc, r[..i]);
    var j :| 0 <= j < i && SymbolCost(g, kc, r[..i][j]).Inf?;
    assert r[..i][j] == r[j];
    RuleCostInfIff(g, kc, r);
  }

  // ---------------------------------------------------------------------
  // One pass of the iteration, as functions of the `key_cost` it starts with.
  // ---------------------------------------------------------------------

  /** The update one finite rule makes to `key_cost[k]`. */
  function StepRule(kc: KeyCost, k: string, c: Cost): KeyCost
  {
    if c.Inf? then kc
    else if k !in kc || kc[k] > c.n then kc[k := c.n]
    else kc
  }

  /** Processing rules `i..` of key `k`: the final `key_cost` and the recorded finite entries. */
  function PassRules(g: Grammar, kc: KeyCost, k: string, i: nat): (KeyCost, seq<Entry>)
    requires k in g.rules && i <= |g.rules[k]|
    decreases |g.rules[k]| - i
  {
    if i == |g.rules[k]| then (kc, [])
    else
      var r := g.rules[k][i];
      var c := RuleCost(g, kc, r);
      var rest := PassRules(g, StepRule(kc, k, c), k, i + 1);
      (rest.0, if c.Fin? then [(c.n, r)] + rest.1 else rest.1)
  }

  /** A whole pass over the keys `ks`, in order: the final `key_cost` and the table `_cost`. */
  function PassKeys(g: Grammar, kc: KeyCost, ks: seq<string>): (KeyCost, map<string, seq<Entry>>)
    requires forall k :: k in ks ==> k in g.rules
    decreases |ks|
  {
    if ks == [] then (kc, map[])
    else
      var prev := PassKeys(g, kc, ks[..|ks| - 1]);
      var k := ks[|ks| - 1];
      var step := PassRules(g, prev.0, k, 0);
      (step.0, prev.1[k := step.1])
  }

  // ---------------------------------------------------------------------
  // Invariants of the iteration.
  // ---------------------------------------------------------------------

  /** `a` is pointwise at most `b` and knows at least the keys `b` knows. */
  ghost predicate Le(a: KeyCost, b: KeyCost)
  {
    (forall k :: k in b ==> k in a) && forall k :: k in b ==> a[k] <= b[k]
  }

  /** Only grammar keys get a cost. */
  ghost predicate KeysOk(g: Grammar, kc: KeyCost)
  {
    forall k :: k in kc ==> k in g.rules
  }

  /** Every recorded cost is achieved: some derivation of the key spells at most that many characters. */
  ghost predicate Realized(g: Grammar, kc: KeyCost)
  {
    forall k :: k in kc ==> exists t :: Derives(g, k, t) && Size(t) <= kc[k]
  }

  /** Every entry of `es` is at least the cost of `k`. */
  ghost predicate Above(kc: KeyCost, k: string, es: seq<Entry>)
  {
    forall i :: 0 <= i < |es| ==> k in kc && kc[k] <= es[i].0
  }

  /** Every recorded entry of the table is at least its key's cost. */
  ghost predicate Absorbs(kc: KeyCost, tab: map<string, seq<Entry>>)
  {
    forall k :: k in tab ==> Above(kc, k, tab[k])
  }

  /** No rule is cheaper than its key's cost, and every finite rule makes its key known. */
  ghost predicate Fixpoint(g: Grammar, kc: KeyCost)
  {
    forall k, i :: k in g.rules && 0 <= i < |g.rules[k]| && RuleCost(g, kc, g.rules[k][i]).Fin? ==>
      k in kc && kc[k] <= RuleCost(g, kc, g.rules[k][i]).n
  }

  /** `key_cost[k]` is the minimum number of characters derivable from `k`, and missing exactly when nothing is. */
  ghost predicate MinimalCosts(g: Grammar, kc: KeyCost)
  {
    forall k :: k in g.rules ==>
      (k in kc ==> exists t :: Derives(g, k, t) && Size(t) == kc[k]) &&
      (forall t :: Derives(g, k, t) ==> k in kc && kc[k] <= Size(t))
  }

  /** The finite-cost rules of `rs`, in order, paired with their costs. */
  function Entries(g: Grammar, kc: KeyCost, rs: seq<Rule>): (es: seq<Entry>)
    ensures forall e :: e in es ==> e.1 in rs && RuleCost(g, kc, e.1) == Fin(e.0)
    ensures forall r :: r in rs && RuleCost(g, kc, r).Fin? ==> (RuleCost(g, kc, r).n, r) in es
  {
    if rs == [] then []
    else
      var c := RuleCost(g, kc, rs[0]);
      (if c.Fin? then [(c.n, rs[0])] else []) + Entries(g, kc, rs[1..])
  }

  // ---------------------------------------------------------------------
  // Facts about one key's rules.
  // ---------------------------------------------------------------------

  lemma {:induction false} StepRuleFacts(kc: KeyCost, k: string, c: Cost)
    ensures Le(StepRule(kc, k, c), kc)
    ensures forall j :: j != k ==> (j in StepRule(kc, k, c) <==> j in kc)
    ensures forall j :: j != k && j in kc ==> StepRule(kc, k, c)[j] == kc[j]
    ensures c.Fin? ==> k in StepRule(kc, k, c) && StepRule(kc, k, c)[k] <= c.n
    ensures k in StepRule(kc, k, c) ==> k in kc || c.Fin?
    ensures k in StepRule(kc, k, c) && (k !in kc || StepRule(kc, k, c)[k] != kc[k]) ==> c == Fin(StepRule(kc, k, c)[k])
  {
  }

  lemma LeTrans(a: KeyCost, b: KeyCost, c: KeyCost)
    requires Le(a, b) && Le(b, c)
    ensures Le(a, c)
  {
  }

  lemma AbsorbsMono(a: KeyCost, b: KeyCost, tab: map<string, seq<Entry>>)
    requires Le(a, b) && Absorbs(b, tab)
    ensures Absorbs(a, tab)
  {
    forall k | k in tab
      ensures Above(a, k, tab[k])
    {
      AboveMono(a, b, k, tab[k]);
    }
  }

  lemma AboveMono(a: KeyCost, b: KeyCost, k: string, es: seq<Entry>)
    requires Le(a, b) && Above(b, k, es)
    ensures Above(a, k, es)
  {
    if es != [] {
      assert k in b by {
        assert es[0].0 >= 0;
      }
    }
  }

  lemma AboveTail(kc: KeyCost, k: string, x: Entry, es: seq<Entry>)
    requires Above(kc, k, [x] + es)
    ensures Above(kc, k, es) && k in kc && kc[k] <= x.0
  {
    assert ([x] + es)[0] == x;
    forall i | 0 <= i < |es|
      ensures k in kc && kc[k] <= es[i].0
    {
      assert ([x] + es)[i + 1] == es[i];
    }
  }

  /** Lowering costs can only lower a rule's cost. */
  lemma {:induction false} RuleCostMono(g: Grammar, a: KeyCost, b: KeyCost, r: Rule)
    requires Le(a, b) && RuleCost(g, b, r).Fin?
    ensures RuleCost(g, a, r).Fin? && RuleCost(g, a, r).n <= RuleCost(g, b, r).n
    decreases |r|
  {
    if r != [] {
      RuleCostMono(g, a, b, r[..|r| - 1]);
    }
  }

  /** A finite rule cost under realized key costs is matched by derivations of its tokens. */
  lemma {:induction false} BuildKids(g: Grammar, kc: KeyCost, r: Rule)
    requires Realized(g, kc) && RuleCost(g, kc, r).Fin?
    ensures exists ts :: DerivesAll(g, r, ts) && SizeAll(ts) <= RuleCost(g, kc, r).n
    decreases |r|
  {
    if r == [] {
      assert DerivesAll(g, r, []);
    } else {
      var p := r[..|r| - 1];
      var tok := r[|r| - 1];
      BuildKids(g, kc, p);
      var ts :| DerivesAll(g, p, ts) && SizeAll(ts) <= RuleCost(g, kc, p).n;
      var t: Deriv;
      if tok in g.rules {
        t :| Derives(g, tok, t) && Size(t) <= kc[tok];
      } else {
        t := Leaf(tok);
      }
      assert Derives(g, tok, t) && Size(t) <= SymbolCost(g, kc, tok).n;
      SizeAllAppend(ts, t);
      var ts' := ts + [t];
      assert r == p + [tok];
      assert DerivesAll(g, r, ts');
    }
  }

  /** A rule whose tokens are all realized within per-token bounds costs at most the trees' size. */
  lemma {:induction false} RuleCostBelow(g: Grammar, kc: KeyCost, r: Rule, ts: seq<Deriv>)
    requires |ts| == |r|
    requires forall i :: 0 <= i < |r| ==> SymbolCost(g, kc, r[i]).Fin? && SymbolCost(g, kc, r[i]).n <= Size(ts[i])
    ensures RuleCost(g, kc, r).Fin? && RuleCost(g, kc, r).n <= SizeAll(ts)
    decreases |r|
  {
    if r != [] {
      var n := |r| - 1;
      RuleCostBelow(g, kc, r[..n], ts[..n]);
      assert ts == ts[..n] + [ts[n]];
      SizeAllAppend(ts[..n], ts[n]);
    }
  }

  /** At a fixed point no derivation is cheaper than the cost of what it derives. */
  lemma {:induction false} LowerBound(g: Grammar, kc: KeyCost, sym: Token, t: Deriv)
    requires Fixpoint(g, kc) && Derives(g, sym, t)
    ensures SymbolCost(g, kc, sym).Fin? && SymbolCost(g, kc, sym).n <= Size(t)
    decreases t
  {
    if sym in g.rules {
      var r := g.rules[sym][t.rule];
      forall i | 0 <= i < |r|
        ensures SymbolCost(g, kc, r[i]).Fin? && SymbolCost(g, kc, r[i]).n <= Size(t.kids[i])
      {
        LowerBound(g, kc, r[i], t.kids[i]);
      }
      RuleCostBelow(g, kc, r, t.kids);
    }
  }

  /** The realized costs of a fixed point are the minimum derivable lengths. */
  lemma FixpointMinimal(g: Grammar, kc: KeyCost)
    requires Fixpoint(g, kc) && Realized(g, kc)
    ensures MinimalCosts(g, kc)
  {
    forall k | k in g.rules
      ensures k in kc ==> exists t :: Derives(g, k, t) && Size(t) == kc[k]
      ensures forall t :: Derives(g, k, t) ==> k in kc && kc[k] <= Size(t)
    {
      forall t | Derives(g, k, t)
        ensures k in kc && kc[k] <= Size(t)
      {
        LowerBound(g, kc, k, t);
      }
      if k in kc {
        var t :| Derives(g, k, t) && Size(t) <= kc[k];
        LowerBound(g, kc, k, t);
      }
    }
  }

  /** What one key's pass does to `key_cost` and what it records. */
  lemma {:induction false} PassRulesFacts(g: Grammar, kc: KeyCost, k: string, i: nat)
    requires k in g.rules && i <= |g.rules[k]|
    ensures var (kc', es) := PassRules(g, kc, k, i);
      Le(kc', kc) &&
      (forall j :: j != k ==> (j in kc' <==> j in kc)) &&
      (forall j :: j != k && j in kc ==> kc'[j] == kc[j]) &&
      Above(kc', k, es) &&
      (k in kc' && k !in kc ==> es != []) &&
      (KeysOk(g, kc) ==> KeysOk(g, kc')) &&
      (Realized(g, kc) ==> Realized(g, kc'))
    decreases |g.rules[k]| - i
  {
    if i < |g.rules[k]| {
      var r := g.rules[k][i];
      var c := RuleCost(g, kc, r);
      var kc1 := StepRule(kc, k, c);
      StepRuleFacts(kc, k, c);
      PassRulesFacts(g, kc1, k, i + 1);
      var (kc', es) := PassRules(g, kc, k, i);
      LeTrans(kc', kc1, kc);
      if Realized(g, kc) {
        StepRuleRealized(g, kc, k, i);
      }
    }
  }

  /** Lowering `k`'s cost to the cost of its rule `i` keeps every recorded cost realized by a derivation. */
  lemma StepRuleRealized(g: Grammar, kc: KeyCost, k: string, i: nat)
    requires k in g.rules && i < |g.rules[k]| && Realized(g, kc)
    ensures Realized(g, StepRule(kc, k, RuleCost(g, kc, g.rules[k][i])))
  {
    var r := g.rules[k][i];
    var c := RuleCost(g, kc, r);
    var kc1 := StepRule(kc, k, c);
    forall j | j in kc1
      ensures exists t :: Derives(g, j, t) && Size(t) <= kc1[j]
    {
      if j == k && (k !in kc || kc1[k] != kc[k]) {
        BuildKids(g, kc, r);
        var ts :| DerivesAll(g, r, ts) && SizeAll(ts) <= c.n;
        var t := Node(k, i, ts);
        assert Derives(g, k, t);
      } else {
        var t :| Derives(g, j, t) && Size(t) <= kc[j];
        assert Size(t) <= kc1[j];
      }
    }
  }

  /** A key whose recorded entries are all at least its cost leaves `key_cost` as it was. */
  lemma {:induction false} PassRulesStable(g: Grammar, kc: KeyCost, k: string, i: nat)
    requires k in g.rules && i <= |g.rules[k]|
    requires Above(kc, k, PassRules(g, kc, k, i).1)
    ensures PassRules(g, kc, k, i).0 == kc
    decreases |g.rules[k]| - i
  {
    if i < |g.rules[k]| {
      var r := g.rules[k][i];
      var c := RuleCost(g, kc, r);
      if c.Fin? {
        AboveTail(kc, k, (c.n, r), PassRules(g, StepRule(kc, k, c), k, i + 1).1);
      }
      assert StepRule(kc, k, c) == kc;
      PassRulesStable(g, kc, k, i + 1);
    }
  }

  /** A pass that leaves `key_cost` as it was shows every rule of the key is no cheaper, and records exactly the finite rules. */
  lemma {:induction false} PassRulesUnchanged(g: Grammar, kc: KeyCost, k: string, i: nat)
    requires k in g.rules && i <= |g.rules[k]| && PassRules(g, kc, k, i).0 == kc
    ensures forall j :: i <= j < |g.rules[k]| && RuleCost(g, kc, g.rules[k][j]).Fin? ==>
      k in kc && kc[k] <= RuleCost(g, kc, g.rules[k][j]).n
    ensures PassRules(g, kc, k, i).1 == Entries(g, kc, g.rules[k][i..])
    decreases |g.rules[k]| - i
  {
    if i < |g.rules[k]| {
      var r := g.rules[k][i];
      var c := RuleCost(g, kc, r);
      var kc1 := StepRule(kc, k, c);
      StepRuleFacts(kc, k, c);
      PassRulesFacts(g, kc1, k, i + 1);
      assert kc1 == kc by {
        assert Le(kc, kc1);
      }
      PassRulesUnchanged(g, kc, k, i + 1);
      assert g.rules[k][i..][1..] == g.rules[k][i + 1..];
    } else {
      assert g.rules[k][i..] == [];
    }
  }

  // ---------------------------------------------------------------------
  // Facts about a whole pass.
  // ---------------------------------------------------------------------

  ghost predicate Distinct(ks: seq<string>)
  {
    forall i, j :: 0 <= i < j < |ks| ==> ks[i] != ks[j]
  }

  /** A pass only lowers costs, and gives costs only to the keys it walks. */
  lemma {:induction false} PassKeysLowers(g: Grammar, kc: KeyCost, ks: seq<string>)
    requires forall k :: k in ks ==> k in g.rules
    ensures Le(PassKeys(g, kc, ks).0, kc)
    ensures forall k :: k in PassKeys(g, kc, ks).0 ==> k in kc || k in ks
    ensures forall k :: k in PassKeys(g, kc, ks).1 <==> k in ks
    decreases |ks|
  {
    if ks != [] {
      var p := ks[..|ks| - 1];
      var k := ks[|ks| - 1];
      PassKeysLowers(g, kc, p);
      var prev := PassKeys(g, kc, p);
      PassRulesFacts(g, prev.0, k, 0);
      var step := PassRules(g, prev.0, k, 0);
      LeTrans(step.0, prev.0, kc);
      forall j | j in step.0
        ensures j in kc || j in ks
      {
        if j != k {
          assert j in prev.0;
          if j !in kc {
            assert j in p;
          }
        }
      }
    }
  }

  /** The costs after a pass are at most every entry the pass recorded. */
  lemma {:induction false} PassKeysAbsorbs(g: Grammar, kc: KeyCost, ks: seq<string>)
    requires forall k :: k in ks ==> k in g.rules
    ensures Absorbs(PassKeys(g, kc, ks).0, PassKeys(g, kc, ks).1)
    decreases |ks|
  {
    if ks != [] {
      var p := ks[..|ks| - 1];
      var k := ks[|ks| - 1];
      PassKeysAbsorbs(g, kc, p);
      var prev := PassKeys(g, kc, p);
      PassRulesFacts(g, prev.0, k, 0);
      AbsorbsMono(PassRules(g, prev.0, k, 0).0, prev.0, prev.1);
    }
  }

  /** A pass keeps costs on grammar keys only, and keeps every cost achievable. */
  lemma {:induction false} PassKeysRealized(g: Grammar, kc: KeyCost, ks: seq<string>)
    requires forall k :: k in ks ==> k in g.rules
    requires KeysOk(g, kc) && Realized(g, kc)
    ensures KeysOk(g, PassKeys(g, kc, ks).0) && Realized(g, PassKeys(g, kc, ks).0)
    decreases |ks|
  {
    if ks != [] {
      var p := ks[..|ks| - 1];
      PassKeysRealized(g, kc, p);
      PassRulesFacts(g, PassKeys(g, kc, p).0, ks[|ks| - 1], 0);
    }
  }

  /** The pass is a no-op on `key_cost` when the table it builds is absorbed by the costs it starts from. */
  lemma {:induction false} PassKeysStable(g: Grammar, kc: KeyCost, ks: seq<string>)
    requires forall k :: k in ks ==> k in g.rules
    requires Distinct(ks) && Absorbs(kc, PassKeys(g, kc, ks).1)
    ensures PassKeys(g, kc, ks).0 == kc
    decreases |ks|
  {
    if ks != [] {
      var p := ks[..|ks| - 1];
      var k := ks[|ks| - 1];
      var prev := PassKeys(g, kc, p);
      PassKeysLowers(g, kc, p);
      assert k !in p;
      var tab := PassKeys(g, kc, ks).1;
      assert Absorbs(kc, prev.1) by {
        forall j | j in prev.1
          ensures Above(kc, j, prev.1[j])
        {
          assert j != k && tab[j] == prev.1[j];
        }
      }
      PassKeysStable(g, kc, p);
      assert Above(kc, k, tab[k]);
      PassRulesStable(g, kc, k, 0);
    }
  }

  /** A pass that leaves `key_cost` as it was certifies a fixed point and records exactly the finite rules. */
  lemma {:induction false} PassKeysUnchanged(g: Grammar, kc: KeyCost, ks: seq<string>)
    requires forall k :: k in ks ==> k in g.rules
    requires PassKeys(g, kc, ks).0 == kc
    ensures forall k, i :: k in ks && 0 <= i < |g.rules[k]| && RuleCost(g, kc, g.rules[k][i]).Fin? ==>
      k in kc && kc[k] <= RuleCost(g, kc, g.rules[k][i]).n
    ensures forall k :: k in ks ==> k in PassKeys(g, kc, ks).1 && PassKeys(g, kc, ks).1[k] == Entries(g, kc, g.rules[k])
    decreases |ks|
  {
    if ks != [] {
      var p := ks[..|ks| - 1];
      var k := ks[|ks| - 1];
      var prev := PassKeys(g, kc, p);
      PassKeysLowers(g, kc, p);
      PassRulesFacts(g, prev.0, k, 0);
      assert prev.0 == kc by {
        LeTrans(kc, PassRules(g, prev.0, k, 0).0, prev.0);
      }
      PassKeysUnchanged(g, kc, p);
      PassRulesUnchanged(g, kc, k, 0);
      assert g.rules[k][0..] == g.rules[k];
      assert forall j :: j in ks ==> j in p || j == k;
    }
  }

  // ---------------------------------------------------------------------
  // Termination measure.
  // ---------------------------------------------------------------------

  /** Number of keys of `ks` still without a cost. */
  function Missing(ks: seq<string>, kc: KeyCost): nat
  {
    if ks == [] then 0 else (if ks[0] in kc then 0 else 1) + Missing(ks[1..], kc)
  }

  /** Sum of the known costs of the keys `ks`. */
  function Total(ks: seq<string>, kc: KeyCost): nat
  {
    if ks == [] then 0 else (if ks[0] in kc then kc[ks[0]] else 0) + Total(ks[1..], kc)
  }

  lemma {:induction false} TotalLe(ks: seq<string>, a: KeyCost, b: KeyCost)
    requires a.Keys == b.Keys && Le(a, b)
    ensures Total(ks, a) <= Total(ks, b)
    ensures (exists k :: k in ks && k in b && a[k] < b[k]) ==> Total(ks, a) < Total(ks, b)
  {
    if ks != [] {
      TotalLe(ks[1..], a, b);
      if exists k :: k in ks && k in b && a[k] < b[k] {
        var k :| k in ks && k in b && a[k] < b[k];
        if k != ks[0] {
          assert k in ks[1..];
        }
      }
    }
  }

  lemma {:induction false} MissingLe(ks: seq<string>, a: KeyCost, b: KeyCost)
    requires b.Keys <= a.Keys
    ensures Missing(ks, a) <= Missing(ks, b)
    ensures (exists k :: k in ks && k in a && k !in b) ==> Missing(ks, a) < Missing(ks, b)
  {
    if ks != [] {
      MissingLe(ks[1..], a, b);
      if exists k :: k in ks && k in a && k !in b {
        var k :| k in ks && k in a && k !in b;
        if k != ks[0] {
          assert k in ks[1..];
        }
      }
    }
  }

  /** Every pass that changes `key_cost` makes progress: a new key gets a cost, or a known cost drops. */
  lemma MeasureDecreases(g: Grammar, a: KeyCost, b: KeyCost)
    requires g.WellFormed() && KeysOk(g, a) && Le(a, b) && a != b
    ensures Missing(g.keys, a) < Missing(g.keys, b) ||
      (Missing(g.keys, a) == Missing(g.keys, b) && Total(g.keys, a) < Total(g.keys, b))
  {
    if a.Keys != b.Keys {
      var k :| k in a && k !in b;
      assert k in g.keys;
      MissingLe(g.keys, a, b);
    } else {
      var k :| k in a && a[k] != b[k];
      assert k in g.keys;
      TotalLe(g.keys, a, b);
      MissingLe(g.keys, a, b);
      MissingLe(g.keys, b, a);
    }
  }

  // ---------------------------------------------------------------------
  // Python's `sorted` on `(cost, rule)` pairs.
  // ---------------------------------------------------------------------

  /** Python's tuple order: cost first, then the rule lists compared element by element. */
  predicate EntryLe(x: Entry, y: Entry)
  {
    x.0 < y.0 || (x.0 == y.0 && SeqLe(x.1, y.1))
  }

  lemma EntryLeTotal(x: Entry, y: Entry)
    ensures EntryLe(x, y) || EntryLe(y, x)
  {
    SeqLeTotal(x.1, y.1);
  }

  lemma EntryLeTrans(x: Entry, y: Entry, z: Entry)
    requires EntryLe(x, y) && EntryLe(y, z)
    ensures EntryLe(x, z)
  {
    if x.0 == y.0 == z.0 {
      SeqLeTrans(x.1, y.1, z.1);
    }
  }

  lemma EntryLeAntisym(x: Entry, y: Entry)
    requires EntryLe(x, y) && EntryLe(y, x)
    ensures x == y
  {
    SeqLeAntisym(x.1, y.1);
  }

  ghost predicate Sorted(s: seq<Entry>)
  {
    forall i, j :: 0 <= i < j < |s| ==> EntryLe(s[i], s[j])
  }

  /** Inserts `e` before the first element it does not exceed. */
  function Insert(e: Entry, s: seq<Entry>): seq<Entry>
  {
    if s == [] then [e]
    else if EntryLe(e, s[0]) then [e] + s
    else [s[0]] + Insert(e, s[1..])
  }

  /** Python's `sorted(cost[k])`, computed by insertion; `SortedUnique` shows any sort agrees. */
  function SortEntries(s: seq<Entry>): seq<Entry>
  {
    if s == [] then [] else Insert(s[0], SortEntries(s[1..]))
  }

  lemma {:induction false} InsertPerm(e: Entry, s: seq<Entry>)
    ensures multiset(Insert(e, s)) == multiset(s) + multiset{e}
  {
    if s != [] && !EntryLe(e, s[0]) {
      InsertPerm(e, s[1..]);
      assert s == [s[0]] + s[1..];
    }
  }

  /** Every element of `Insert(e, s)` is `e` or an element of `s`. */
  lemma InsertElems(e: Entry, s: seq<Entry>, j: int)
    requires 0 <= j < |Insert(e, s)|
    ensures Insert(e, s)[j] == e || Insert(e, s)[j] in s
  {
    InsertPerm(e, s);
    assert Insert(e, s)[j] in multiset(Insert(e, s));
  }

  lemma {:induction false} InsertSorted(e: Entry, s: seq<Entry>)
    requires Sorted(s)
    ensures Sorted(Insert(e, s))
  {
    if s == [] {
    } else if EntryLe(e, s[0]) {
      var r := [e] + s;
      forall i, j | 0 <= i < j < |r| ensures EntryLe(r[i], r[j]) {
        if i == 0 {
          if j > 1 {
            assert EntryLe(s[0], s[j - 1]);
            EntryLeTrans(e, s[0], s[j - 1]);
          }
        } else {
          assert r[i] == s[i - 1] && r[j] == s[j - 1];
        }
      }
    } else {
      var t := Insert(e, s[1..]);
      InsertSorted(e, s[1..]);
      EntryLeTotal(e, s[0]);
      var r := [s[0]] + t;
      assert r == Insert(e, s);
      forall j | 0 <= j < |t| ensures EntryLe(s[0], t[j]) {
        InsertElems(e, s[1..], j);
        if t[j] != e {
          var m :| 0 <= m < |s[1..]| && s[1..][m] == t[j];
          assert EntryLe(s[0], s[m + 1]);
        }
      }
      forall i, j | 0 <= i < j < |r| ensures EntryLe(r[i], r[j]) {
        if i == 0 {
          assert r[j] == t[j - 1];
        } else {
          assert r[i] == t[i - 1] && r[j] == t[j - 1];
        }
      }
    }
  }

  /** `sorted` returns an ascending permutation of its input. */
  lemma {:induction false} SortEntriesCorrect(s: seq<Entry>)
    ensures Sorted(SortEntries(s)) && multiset(SortEntries(s)) == multiset(s)
  {
    if s != [] {
      SortEntriesCorrect(s[1..]);
      InsertPerm(s[0], SortEntries(s[1..]));
      InsertSorted(s[0], SortEntries(s[1..]));
      assert s == [s[0]] + s[1..];
    }
  }

  /** Two ascending arrangements of the same entries are equal, so any stable or unstable sort gives `SortEntries`. */
  lemma {:induction false} SortedUnique(a: seq<Entry>, b: seq<Entry>)
    requires Sorted(a) && Sorted(b) && multiset(a) == multiset(b)
    ensures a == b
    decreases |a|
  {
    if a != [] {
      assert a[0] in multiset(b);
      assert a[0] in b;
      assert b[0] in multiset(a);
      assert b[0] in a;
      EntryLeTotal(a[0], a[0]);
      assert EntryLe(b[0], a[0]) by {
        var i :| 0 <= i < |b| && b[i] == a[0];
        if i != 0 {
          assert EntryLe(b[0], b[i]);
        }
      }
      assert EntryLe(a[0], b[0]) by {
        var i :| 0 <= i < |a| && a[i] == b[0];
        if i != 0 {
          assert EntryLe(a[0], a[i]);
        }
      }
      EntryLeAntisym(a[0], b[0]);
      assert a == [a[0]] + a[1..] && b == [b[0]] + b[1..];
      assert multiset(a) == multiset{a[0]} + multiset(a[1..]);
      assert multiset(b) == multiset{b[0]} + multiset(b[1..]);
      assert multiset(a[1..]) == multiset(a) - multiset{a[0]};
      assert multiset(b[1..]) == multiset(b) - multiset{b[0]};
      SortedUnique(a[1..], b[1..]);
    } else {
      assert |multiset(b)| == 0;
    }
  }

  /** The table `compute_cost` returns. */
  ghost predicate CostTable(g: Grammar, kc: KeyCost, tab: map<string, seq<Entry>>)
  {
    (forall k :: k in tab <==> k in g.rules) &&
    forall k :: k in tab ==> tab[k] == SortEntries(Entries(g, kc, g.rules[k]))
  }

  /**
   * What one pass guarantees, for the termination and correctness of the
   * `while changed` loop: costs only drop and stay achievable; a change makes
   * progress; and a pass whose table equals the previous one is a no-op on
   * `key_cost`.
   */
  lemma PassProgress(g: Grammar, kc: KeyCost, tab: map<string, seq<Entry>>)
    requires g.WellFormed() && KeysOk(g, kc) && Realized(g, kc) && Absorbs(kc, tab)
    ensures forall k :: k in g.keys ==> k in g.rules
    ensures var (kc', tab') := PassKeys(g, kc, g.keys);
      Le(kc', kc) && KeysOk(g, kc') && Realized(g, kc') && Absorbs(kc', tab') && Absorbs(kc', tab) &&
      (kc' != kc ==> (Missing(g.keys, kc') < Missing(g.keys, kc) ||
        (Missing(g.keys, kc') == Missing(g.keys, kc) && Total(g.keys, kc') < Total(g.keys, kc)))) &&
      (tab' == tab ==> kc' == kc)
  {
    assert forall k :: k in g.keys ==> k in g.rules;
    var (kc', tab') := PassKeys(g, kc, g.keys);
    PassKeysLowers(g, kc, g.keys);
    PassKeysAbsorbs(g, kc, g.keys);
    PassKeysRealized(g, kc, g.keys);
    AbsorbsMono(kc', kc, tab);
    if kc' != kc {
      MeasureDecreases(g, kc', kc);
    }
    if tab' == tab {
      PassKeysStable(g, kc, g.keys);
    }
  }

  // ---------------------------------------------------------------------
  // What the finished table says.
  // ---------------------------------------------------------------------

  /** For a productive key the cheapest sorted entry carries exactly `key_cost[k]`. */
  lemma CostHeadIsKeyCost(g: Grammar, kc: KeyCost, k: string)
    requires Fixpoint(g, kc) && MinimalCosts(g, kc) && k in g.rules && k in kc
    ensures SortEntries(Entries(g, kc, g.rules[k])) != []
    ensures SortEntries(Entries(g, kc, g.rules[k]))[0].0 == kc[k]
  {
    var es := Entries(g, kc, g.rules[k]);
    var sorted := SortEntries(es);
    SortEntriesCorrect(es);
    var t :| Derives(g, k, t) && Size(t) == kc[k];
    var r := g.rules[k][t.rule];
    forall i | 0 <= i < |r|
      ensures SymbolCost(g, kc, r[i]).Fin? && SymbolCost(g, kc, r[i]).n <= Size(t.kids[i])
    {
      LowerBound(g, kc, r[i], t.kids[i]);
    }
    RuleCostBelow(g, kc, r, t.kids);
    assert kc[k] <= RuleCost(g, kc, g.rules[k][t.rule]).n;
    assert RuleCost(g, kc, r) == Fin(kc[k]);
    assert r in g.rules[k];
    var e := (kc[k], r);
    assert e in es;
    assert e in multiset(sorted);
    var m :| 0 <= m < |sorted| && sorted[m] == e;
    if m != 0 {
      assert EntryLe(sorted[0], sorted[m]);
    }
    assert sorted[0] in multiset(es);
    var i :| 0 <= i < |g.rules[k]| && g.rules[k][i] == sorted[0].1;
  }

  lemma {:induction false} EntriesOfInfinite(g: Grammar, kc: KeyCost, rs: seq<Rule>)
    requires forall i :: 0 <= i < |rs| ==> RuleCost(g, kc, rs[i]).Inf?
    ensures Entries(g, kc, rs) == []
  {
    if rs != [] {
      EntriesOfInfinite(g, kc, rs[1..]);
    }
  }

  /**
   * The table `compute_cost` returns: each list is sorted; a productive key's list
   * starts at `key_cost[k]`; a key without a finite rule has an empty list.
   */
  lemma CostTableShape(g: Grammar, kc: KeyCost, tab: map<string, seq<Entry>>)
    requires Fixpoint(g, kc) && MinimalCosts(g, kc) && CostTable(g, kc, tab)
    ensures forall k :: k in tab ==> Sorted(tab[k])
    ensures forall k :: k in tab && k in kc ==> tab[k] != [] && tab[k][0].0 == kc[k]
    ensures forall k :: k in tab && k !in kc ==> tab[k] == []
  {
    forall k | k in tab
      ensures Sorted(tab[k])
      ensures k in kc ==> tab[k] != [] && tab[k][0].0 == kc[k]
      ensures k !in kc ==> tab[k] == []
    {
      var es := Entries(g, kc, g.rules[k]);
      SortEntriesCorrect(es);
      if k in kc {
        CostHeadIsKeyCost(g, kc, k);
      } else {
        EntriesOfInfinite(g, kc, g.rules[k]);
      }
    }
  }

  /** Equal costs are ordered by comparing the rules themselves, not by their position in the grammar. */
  lemma TieBrokenByRule()
    ensures SortEntries([(1, ["b"]), (1, ["a"])]) == [(1, ["a"]), (1, ["b"])]
  {
    assert !StrLe("b", "a");
    assert !SeqLe(["b"], ["a"]);
    assert Insert((1, ["a"]), []) == [(1, ["a"])];
    assert Insert((1, ["b"]), [(1, ["a"])]) == [(1, ["a"])] + Insert((1, ["b"]), []);
  }

  // ---------------------------------------------------------------------
  // The analyser itself.
  // ---------------------------------------------------------------------

  class LimitFuzzer {
    var grammar: Grammar
    var grammarKeys: seq<string>
    var keyCost: KeyCost
    var cost: map<string, seq<Entry>>

    /** Builds the analyser and runs `compute_cost` on a fresh, empty `key_cost`. */
    constructor (g: Grammar)
      requires g.WellFormed()
      ensures grammar == g && grammarKeys == g.keys
      ensures MinimalCosts(g, keyCost) && Fixpoint(g, keyCost)
      ensures CostTable(g, keyCost, cost)
      ensures forall k :: k in cost ==> Sorted(cost[k]) && (k in keyCost ==> cost[k] != [] && cost[k][0].0 == keyCost[k])
      ensures forall k :: k in cost && k !in keyCost ==> cost[k] == []
    {
      grammar := g;
      grammarKeys := g.keys;
      keyCost := map[];
      new;
      cost := ComputeCost(g);
      CostTableShape(g, keyCost, cost);
    }

    /** `expansion_cost`: the token costs summed left to right, stopping at the first infinite one. */
    method ExpansionCost(g: Grammar, rule: Rule) returns (c: Cost)
      ensures c == RuleCost(g, keyCost, rule)
    {
      var ret := Fin(0);
      for i := 0 to |rule|
        invariant ret == RuleCost(g, keyCost, rule[..i]) && ret.Fin?
      {
        assert rule[..i + 1][..i] == rule[..i];
        ret := Add(ret, SymbolCost(g, keyCost, rule[i]));
        if ret.Inf? {
          RuleCostInfPrefix(g, keyCost, rule, i + 1);
          return ret;
        }
      }
      assert rule[..|rule|] == rule;
      return ret;
    }

    /** The body of `for rule in grammar[k]` in `compute_cost`: lowers `key_cost[k]` and returns `_cost[k]`. */
    method CostKeyRules(g: Grammar, k: string) returns (entries: seq<Entry>)
      requires k in g.rules
      modifies this
      ensures grammar == old(grammar) && grammarKeys == old(grammarKeys)
      ensures (keyCost, entries) == PassRules(g, old(keyCost), k, 0)
    {
      var rules := g.rules[k];
      entries := [];
      assert entries + PassRules(g, keyCost, k, 0).1 == PassRules(g, keyCost, k, 0).1;
      for j := 0 to |rules|
        invariant grammar == old(grammar) && grammarKeys == old(grammarKeys)
        invariant PassRules(g, old(keyCost), k, 0) ==
          (PassRules(g, keyCost, k, j).0, entries + PassRules(g, keyCost, k, j).1)
      {
        ghost var kcBefore := keyCost;
        ghost var entriesBefore := entries;
        var ruleCost := ExpansionCost(g, rules[j]);
        if ruleCost.Fin? {
          if k !in keyCost {
            keyCost := keyCost[k := ruleCost.n];
          }
          if keyCost[k] > ruleCost.n {
            keyCost := keyCost[k := ruleCost.n];
          }
          entries := entries + [(ruleCost.n, rules[j])];
        }
        assert keyCost == StepRule(kcBefore, k, ruleCost);
        ghost var rest := PassRules(g, keyCost, k, j + 1);
        assert PassRules(g, kcBefore, k, j) ==
          (rest.0, if ruleCost.Fin? then [(ruleCost.n, rules[j])] + rest.1 else rest.1);
        if ruleCost.Fin? {
          assert entriesBefore + ([(ruleCost.n, rules[j])] + rest.1) == entries + rest.1;
        }
      }
      assert PassRules(g, keyCost, k, |rules|) == (keyCost, []);
      assert entries + [] == entries;
    }

    /** One pass of the `while changed` loop of `compute_cost`: returns `_cost`. */
    method CostPass(g: Grammar) returns (newCost: map<string, seq<Entry>>)
      requires grammarKeys == g.keys && forall k :: k in g.keys ==> k in g.rules
      modifies this
      ensures grammar == old(grammar) && grammarKeys == old(grammarKeys)
      ensures (keyCost, newCost) == PassKeys(g, old(keyCost), g.keys)
    {
      newCost := map[];
      for i := 0 to |grammarKeys|
        invariant grammar == old(grammar) && grammarKeys == old(grammarKeys)
        invariant (keyCost, newCost) == PassKeys(g, old(keyCost), g.keys[..i])
      {
        var k := grammarKeys[i];
        var entries := CostKeyRules(g, k);
        newCost := newCost[k := entries];
        assert g.keys[..i + 1][..i] == g.keys[..i];
      }
      assert g.keys[..|g.keys|] == g.keys;
    }

    /**
     * `compute_cost`: repeat passes until the recorded table is unchanged, then sort
     * each key's entries. Starts from any `key_cost` whose costs are achievable.
     */
    method ComputeCost(g: Grammar) returns (cost: map<string, seq<Entry>>)
      requires g == grammar && grammarKeys == g.keys && g.WellFormed()
      requires KeysOk(g, keyCost) && Realized(g, keyCost)
      modifies this
      ensures grammar == old(grammar) && grammarKeys == old(grammarKeys)
      ensures Le(keyCost, old(keyCost))
      ensures MinimalCosts(g, keyCost) && Fixpoint(g, keyCost)
      ensures CostTable(g, keyCost, cost)
    {
      assert forall k :: k in g.keys ==> k in g.rules;
      cost := map[];
      var changed := true;
      while changed
        invariant grammar == g && grammarKeys == g.keys
        invariant KeysOk(g, keyCost) && Realized(g, keyCost) && Le(keyCost, old(keyCost))
        invariant Absorbs(keyCost, cost)
        invariant !changed ==> PassKeys(g, keyCost, g.keys) == (keyCost, cost)
        decreases Missing(g.keys, keyCost), Total(g.keys, keyCost),
          if !changed then 0 else if cost == PassKeys(g, keyCost, g.keys).1 then 1 else 2
      {
        changed := false;
        ghost var kcStart := keyCost;
        var newCost := CostPass(g);
        PassProgress(g, kcStart, cost);
        LeTrans(keyCost, kcStart, old(keyCost));
        if newCost != cost {
          cost := newCost;
          changed := true;
        }
      }
      PassKeysUnchanged(g, keyCost, g.keys);
      PassKeysLowers(g, keyCost, g.keys);
      FixpointMinimal(g, keyCost);
      assert Distinct(g.keys);
      assert forall k :: k in cost <==> k in g.keys;
      ghost var unsorted := cost;
      cost := SortCostTable(g, cost);
      assert forall k :: k in unsorted ==> unsorted[k] == Entries(g, keyCost, g.rules[k]);
    }

    /** The closing loop of `compute_cost`: `cost[k] = sorted(cost[k])` for every key. */
    method SortCostTable(g: Grammar, tab: map<string, seq<Entry>>) returns (cost: map<string, seq<Entry>>)
      requires grammarKeys == g.keys && Distinct(g.keys)
      requires forall k :: k in tab <==> k in g.keys
      ensures cost.Keys == tab.Keys
      ensures forall k :: k in cost ==> cost[k] == SortEntries(tab[k])
    {
      cost := tab;
      for i := 0 to |grammarKeys|
        invariant cost.Keys == tab.Keys
        invariant forall j :: 0 <= j < i ==> cost[g.keys[j]] == SortEntries(tab[g.keys[j]])
        invariant forall j :: i <= j < |g.keys| ==> cost[g.keys[j]] == tab[g.keys[j]]
      {
        var k := grammarKeys[i];
        ghost var prev := cost;
        cost := cost[k := SortEntries(cost[k])];
        forall j | 0 <= j < i + 1
          ensures cost[g.keys[j]] == SortEntries(tab[g.keys[j]])
        {
          if j < i {
            assert g.keys[j] != k && cost[g.keys[j]] == prev[g.keys[j]];
          }
        }
        forall j | i + 1 <= j < |g.keys|
          ensures cost[g.keys[j]] == tab[g.keys[j]]
        {
          assert g.keys[j] != k && cost[g.keys[j]] == prev[g.keys[j]];
        }
      }
      forall k | k in cost
        ensures cost[k] == SortEntries(tab[k])
      {
        var j :| 0 <= j < |g.keys| && g.keys[j] == k;
      }
    }
  }
}
