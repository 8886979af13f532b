/**
 * The older grammar compiler's cost metric (`LimitFuzzer` and
 * `PooledFuzzer` in examples/f1_c_gen.py): a rule costs one more than the
 * most expensive key it mentions (a derivation depth), a key costs its
 * cheapest rule, and both are computed by a recursive search that memoises
 * every key it finishes in `key_cost` and treats a key met again on the
 * current path as infinitely expensive. The cheap grammar keeps each key's
 * cheapest rules, and the string pool samples completions of it.
 */
module DepthCost {
  import opened Wrappers
  import opened Text
  import opened Grammars
  import opened CostAnalysis
  import opened Pool

  /** The larger of two costs; infinity is above every finite cost. */
  function CMax(a: Cost, b: Cost): Cost
  {
    if a.Inf? || b.Inf? then Inf else Fin(if a.n < b.n then b.n else a.n)
  }

  function CMin(a: Cost, b: Cost): Cost
  {
    if a.Inf? then b else if b.Inf? then a else Fin(if a.n < b.n then a.n else b.n)
  }

  /** `c + 1`, with `inf + 1 == inf`. */
  function Succ(c: Cost): Cost
  {
    if c.Inf? then Inf else Fin(c.n + 1)
  }

  /** Every key mentioned by `rule` has a memoised cost. */
  ghost predicate Covers(g: Grammar, kc: map<string, Cost>, rule: Rule)
  {
    forall t :: t in rule && t in g.rules ==> t in kc
  }

  /** `max(key_cost[t] for t in rule if t in grammar)`, with 0 for a rule without keys. */
  function MaxKeys(g: Grammar, kc: map<string, Cost>, rule: Rule): (c: Cost)
    requires Covers(g, kc, rule)
    ensures forall t :: t in rule && t in g.rules ==> CMax(kc[t], c) == c
  {
    if rule == [] then Fin(0)
    else
      var last := rule[|rule| - 1];
      assert Covers(g, kc, rule[..|rule| - 1]) by {
        forall t | t in rule[..|rule| - 1] && t in g.rules ensures t in kc {
          assert t in rule;
        }
      }
      var rest := MaxKeys(g, kc, rule[..|rule| - 1]);
      assert forall t :: t in rule ==> t in rule[..|rule| - 1] || t == last;
      CMax(rest, if last in g.rules then kc[last] else Fin(0))
  }

  /** `expansion_cost`: one more than the most expensive key of the rule. */
  function ExpValue(g: Grammar, kc: map<string, Cost>, rule: Rule): (c: Cost)
    requires Covers(g, kc, rule)
  {
    Succ(MaxKeys(g, kc, rule))
  }

  /** Every rule of `rules` is covered. */
  ghost predicate CoversAll(g: Grammar, kc: map<string, Cost>, rules: seq<Rule>)
  {
    forall i :: 0 <= i < |rules| ==> Covers(g, kc, rules[i])
  }

  /** `min(expansion_cost(rule) for rule in rules)`, with 0 for no rules. */
  function MinRules(g: Grammar, kc: map<string, Cost>, rules: seq<Rule>): Cost
    requires CoversAll(g, kc, rules)
  {
    if rules == [] then Fin(0)
    else if |rules| == 1 then ExpValue(g, kc, rules[0])
    else CMin(MinRules(g, kc, rules[..|rules| - 1]), ExpValue(g, kc, rules[|rules| - 1]))
  }

  /** `b` extends the memo `a` without changing any entry of it. */
  ghost predicate Keeps(a: map<string, Cost>, b: map<string, Cost>)
  {
    forall k :: k in a ==> k in b && b[k] == a[k]
  }

  lemma {:induction false} MaxKeysKeeps(g: Grammar, a: map<string, Cost>, b: map<string, Cost>, rule: Rule)
    requires Covers(g, a, rule) && Keeps(a, b)
    ensures Covers(g, b, rule) && MaxKeys(g, b, rule) == MaxKeys(g, a, rule)
  {
    if rule != [] {
      assert Covers(g, a, rule[..|rule| - 1]) by {
        forall t | t in rule[..|rule| - 1] && t in g.rules ensures t in a {
          assert t in rule;
        }
      }
      MaxKeysKeeps(g, a, b, rule[..|rule| - 1]);
    }
  }

  lemma {:induction false} MinRulesKeeps(g: Grammar, a: map<string, Cost>, b: map<string, Cost>, rules: seq<Rule>)
    requires CoversAll(g, a, rules) && Keeps(a, b)
    ensures CoversAll(g, b, rules) && MinRules(g, b, rules) == MinRules(g, a, rules)
  {
    forall i | 0 <= i < |rules| ensures Covers(g, b, rules[i]) && ExpValue(g, b, rules[i]) == ExpValue(g, a, rules[i]) {
      MaxKeysKeeps(g, a, b, rules[i]);
    }
    if |rules| > 1 {
      MinRulesKeeps(g, a, b, rules[..|rules| - 1]);
    }
  }

  /** Updating a key the rule does not mention leaves its cost alone. */
  lemma {:induction false} MaxKeysUpdate(g: Grammar, kc: map<string, Cost>, rule: Rule, s: string, v: Cost)
    requires Covers(g, kc, rule) && s !in rule
    ensures Covers(g, kc[s := v], rule) && MaxKeys(g, kc[s := v], rule) == MaxKeys(g, kc, rule)
  {
    if rule != [] {
      assert Covers(g, kc, rule[..|rule| - 1]) by {
        forall t | t in rule[..|rule| - 1] && t in g.rules ensures t in kc {
          assert t in rule;
        }
      }
      assert forall t :: t in rule[..|rule| - 1] ==> t in rule;
      MaxKeysUpdate(g, kc, rule[..|rule| - 1], s, v);
    }
  }

  /** The prefix of a covered rule list is covered. */
  lemma CoversAllPrefix(g: Grammar, kc: map<string, Cost>, rules: seq<Rule>, j: nat)
    requires j <= |rules| && CoversAll(g, kc, rules)
    ensures CoversAll(g, kc, rules[..j])
  {
    forall i | 0 <= i < j ensures Covers(g, kc, rules[..j][i]) {
      assert rules[..j][i] == rules[i];
    }
  }

  /**
   * One more rule folded into the minimum: its cost, computed with a memo
   * that extends the one the earlier rules were costed with, agrees with
   * that memo, since the symbol itself can only have been memoised as
   * infinite on the way.
   */
  lemma MinStep(g: Grammar, a: map<string, Cost>, b: map<string, Cost>, symbol: string, rules: seq<Rule>, j: nat,
                v: Cost, e: Cost)
    requires j < |rules| && symbol in g.rules && Keeps(a, b)
    requires Folded(g, a, symbol, rules, j, v)
    requires Covers(g, b, rules[j]) && e == ExpValue(g, b, rules[j])
    requires symbol in b ==> b[symbol] == Inf
    ensures Folded(g, b, symbol, rules, j + 1, if j == 0 then e else CMin(v, e))
  {
    assert Keeps(a[symbol := Inf], b[symbol := Inf]);
    MinRulesKeeps(g, a[symbol := Inf], b[symbol := Inf], rules[..j]);
    if symbol in rules[j] {
      assert b[symbol := Inf] == b;
    } else {
      MaxKeysUpdate(g, b, rules[j], symbol, Inf);
    }
    assert rules[..j + 1][..j] == rules[..j] && rules[..j + 1][j] == rules[j];
  }

  /**
   * `v` is the minimum cost of `rules[..j]`, the symbol they belong to
   * counted as infinite.
   */
  ghost predicate Folded(g: Grammar, kc: map<string, Cost>, symbol: string, rules: seq<Rule>, j: nat, v: Cost)
    requires j <= |rules|
  {
    CoversAll(g, kc[symbol := Inf], rules[..j]) && v == MinRules(g, kc[symbol := Inf], rules[..j])
  }

  /** Adding a key of the grammar to the path shrinks the set of keys not on it. */
  lemma PathGrows(keys: set<string>, seen: set<string>, symbol: string)
    requires symbol in keys && symbol !in seen
    ensures |keys - (seen + {symbol})| < |keys - seen|
  {
    assert keys - seen == (keys - (seen + {symbol})) + {symbol};
  }

  /**
   * Every list of the cost table is `sorted` applied to its key's rules
   * paired with their costs under the memo `kc`.
   */
  ghost predicate TableAgrees(g: Grammar, kc: map<string, Cost>, cost: map<string, seq<(Cost, Rule)>>)
  {
    forall k :: k in cost ==>
      k in g.rules && CoversAll(g, kc, g.rules[k]) && cost[k] == SortByCost(Expansions(g, kc, g.rules[k]))
  }

  /** Each rule paired with its expansion cost under `kc`, in rule order: the list inside `sorted()`. */
  function Expansions(g: Grammar, kc: map<string, Cost>, rules: seq<Rule>): (es: seq<(Cost, Rule)>)
    requires CoversAll(g, kc, rules)
    ensures |es| == |rules|
  {
    seq(|rules|, j requires 0 <= j < |rules| => (ExpValue(g, kc, rules[j]), rules[j]))
  }

  /** The entries a loop builds one rule at a time are the expansions. */
  lemma ExpansionsAgree(g: Grammar, kc: map<string, Cost>, rules: seq<Rule>, es: seq<(Cost, Rule)>)
    requires EntriesAgree(g, kc, rules, es)
    ensures CoversAll(g, kc, rules) && es == Expansions(g, kc, rules)
  {
  }

  ghost predicate EntriesAgree(g: Grammar, kc: map<string, Cost>, rules: seq<Rule>, es: seq<(Cost, Rule)>)
  {
    |es| == |rules| &&
    forall j :: 0 <= j < |es| ==> es[j].1 == rules[j] && Covers(g, kc, rules[j]) && es[j].0 == ExpValue(g, kc, rules[j])
  }

  lemma EntriesAgreeKeeps(g: Grammar, a: map<string, Cost>, b: map<string, Cost>, rules: seq<Rule>, es: seq<(Cost, Rule)>)
    requires EntriesAgree(g, a, rules, es) && Keeps(a, b)
    ensures EntriesAgree(g, b, rules, es)
  {
    forall j | 0 <= j < |es| ensures Covers(g, b, rules[j]) && es[j].0 == ExpValue(g, b, rules[j]) {
      MaxKeysKeeps(g, a, b, rules[j]);
    }
  }

  lemma TableAgreesKeeps(g: Grammar, a: map<string, Cost>, b: map<string, Cost>, cost: map<string, seq<(Cost, Rule)>>)
    requires TableAgrees(g, a, cost) && Keeps(a, b)
    ensures TableAgrees(g, b, cost)
  {
    forall k | k in cost
      ensures CoversAll(g, b, g.rules[k]) && cost[k] == SortByCost(Expansions(g, b, g.rules[k]))
    {
      var es := Expansions(g, a, g.rules[k]);
      EntriesAgreeKeeps(g, a, b, g.rules[k], es);
      ExpansionsAgree(g, b, g.rules[k], es);
    }
  }

  /** The entries `b` adds to `a` for keys of `seen` are infinite. */
  ghost predicate FreshInf(a: map<string, Cost>, b: map<string, Cost>, seen: set<string>)
  {
    forall s :: s in seen && s !in a && s in b ==> b[s] == Inf
  }

  lemma FreshInfTrans(a: map<string, Cost>, b: map<string, Cost>, c: map<string, Cost>, seen: set<string>)
    requires FreshInf(a, b, seen) && FreshInf(b, c, seen) && Keeps(b, c)
    ensures FreshInf(a, c, seen)
  {
  }

  /** `self.key_cost` and the grammar it is computed over. */
  class DepthCostFuzzer {
    const grammar: Grammar
    var keyCost: map<string, Cost>

    constructor(g: Grammar)
      ensures grammar == g && keyCost == map[]
    {
      grammar := g;
      keyCost := map[];
    }

    /**
     * `symbol_cost(grammar, symbol, seen)`: a memoised cost is returned as it
     * is; a symbol already on the current path is memoised as infinite;
     * otherwise the cheapest rule's cost, computed with the symbol added to
     * the path, is memoised and returned. No memoised entry ever changes.
     */
    method SymbolCost(symbol: string, seen: set<string>) returns (c: Cost)
      modifies this
      decreases |grammar.rules.Keys - seen|, 3
      ensures Keeps(old(keyCost), keyCost)
      ensures symbol in keyCost && keyCost[symbol] == c
      ensures FreshInf(old(keyCost), keyCost, seen)
      ensures symbol in old(keyCost) ==> c == old(keyCost)[symbol] && keyCost == old(keyCost)
      ensures symbol !in old(keyCost) && symbol in seen ==> c == Inf && keyCost == old(keyCost)[symbol := Inf]
      ensures symbol !in old(keyCost) && symbol !in seen ==>
        var rules := if symbol in grammar.rules then grammar.rules[symbol] else [];
        CoversAll(grammar, keyCost[symbol := Inf], rules) && c == MinRules(grammar, keyCost[symbol := Inf], rules)
    {
      if symbol in keyCost {
        return keyCost[symbol];
      }
      if symbol in seen {
        keyCost := keyCost[symbol := Inf];
        return Inf;
      }
      var v := Fin(0);
      if symbol in grammar.rules {
        v := CheapestRule(symbol, seen);
        assert grammar.rules[symbol][..|grammar.rules[symbol]|] == grammar.rules[symbol];
      }
      ghost var memo1 := keyCost;
      keyCost := keyCost[symbol := v];
      assert keyCost[symbol := Inf] == memo1[symbol := Inf];
      c := v;
    }

    /** The generator inside `symbol_cost`: the cheapest rule of `symbol`, costed with `symbol` on the path. */
    method CheapestRule(symbol: string, seen: set<string>) returns (v: Cost)
      requires symbol in grammar.rules && symbol !in seen && symbol !in keyCost
      modifies this
      decreases |grammar.rules.Keys - seen|, 2
      ensures Keeps(old(keyCost), keyCost)
      ensures FreshInf(old(keyCost), keyCost, seen + {symbol})
      ensures Folded(grammar, keyCost, symbol, grammar.rules[symbol], |grammar.rules[symbol]|, v)
    {
      var rules := grammar.rules[symbol];
      v := Fin(0);
      for j := 0 to |rules|
        invariant Keeps(old(keyCost), keyCost)
        invariant FreshInf(old(keyCost), keyCost, seen + {symbol})
        invariant Folded(grammar, keyCost, symbol, rules, j, v)
      {
        ghost var memo1 := keyCost;
        v := FoldRule(symbol, seen, j, v);
        FreshInfTrans(old(keyCost), memo1, keyCost, seen + {symbol});
      }
    }

    /** One step of the generator: rule `j` of `symbol` costed and folded into the minimum `v`. */
    method FoldRule(symbol: string, seen: set<string>, j: nat, v: Cost) returns (w: Cost)
      requires symbol in grammar.rules && symbol !in seen && j < |grammar.rules[symbol]|
      requires symbol in keyCost ==> keyCost[symbol] == Inf
      requires Folded(grammar, keyCost, symbol, grammar.rules[symbol], j, v)
      modifies this
      decreases |grammar.rules.Keys - seen|, 1
      ensures Keeps(old(keyCost), keyCost)
      ensures FreshInf(old(keyCost), keyCost, seen + {symbol})
      ensures Folded(grammar, keyCost, symbol, grammar.rules[symbol], j + 1, w)
    {
      PathGrows(grammar.rules.Keys, seen, symbol);
      var e := ExpansionCost(grammar.rules[symbol][j], seen + {symbol});
      MinStep(grammar, old(keyCost), keyCost, symbol, grammar.rules[symbol], j, v, e);
      w := if j == 0 then e else CMin(v, e);
    }

    /**
     * `expansion_cost(grammar, tokens, seen)`: the cost of every key the rule
     * mentions, each computed with the same `seen`, and one more than their
     * maximum, as the memo ends up recording them.
     */
    method ExpansionCost(rule: Rule, seen: set<string>) returns (c: Cost)
      modifies this
      decreases |grammar.rules.Keys - seen|, 4
      ensures Keeps(old(keyCost), keyCost)
      ensures FreshInf(old(keyCost), keyCost, seen)
      ensures Covers(grammar, keyCost, rule) && c == ExpValue(grammar, keyCost, rule)
    {
      var ret := Fin(0);
      for i := 0 to |rule|
        invariant Keeps(old(keyCost), keyCost)
        invariant FreshInf(old(keyCost), keyCost, seen)
        invariant Covers(grammar, keyCost, rule[..i]) && ret == MaxKeys(grammar, keyCost, rule[..i])
      {
        assert rule[..i + 1][..i] == rule[..i];
        if rule[i] in grammar.rules {
          ghost var memo1 := keyCost;
          var v := SymbolCost(rule[i], seen);
          FreshInfTrans(old(keyCost), memo1, keyCost, seen);
          MaxKeysKeeps(grammar, memo1, keyCost, rule[..i]);
          ret := CMax(ret, v);
        }
        assert forall t :: t in rule[..i + 1] ==> t in rule[..i] || t == rule[i];
      }
      assert rule[..|rule|] == rule;
      c := Succ(ret);
    }

    /**
     * `PooledFuzzer.compute_cost`: for every key, `sorted` applied to its
     * rules paired with their expansion costs, each computed from an empty
     * path; every cost agrees with the memo as it ends up.
     */
    method ComputeCost() returns (cost: map<string, seq<(Cost, Rule)>>)
      requires grammar.WellFormed()
      modifies this
      ensures Keeps(old(keyCost), keyCost)
      ensures cost.Keys == grammar.rules.Keys
      ensures TableAgrees(grammar, keyCost, cost)
    {
      cost := map[];
      for ki := 0 to |grammar.keys|
        invariant Keeps(old(keyCost), keyCost)
        invariant forall k :: k in cost <==> k in grammar.keys[..ki]
        invariant TableAgrees(grammar, keyCost, cost)
      {
        var k := grammar.keys[ki];
        ghost var memo1 := keyCost;
        var es := KeyEntries(grammar.rules[k]);
        TableAgreesKeeps(grammar, memo1, keyCost, cost);
        ExpansionsAgree(grammar, keyCost, grammar.rules[k], es);
        assert grammar.keys[..ki + 1] == grammar.keys[..ki] + [k];
        cost := cost[k := SortByCost(es)];
      }
      assert grammar.keys[..|grammar.keys|] == grammar.keys;
    }

    /** The entries of one key: each rule with its expansion cost. */
    method KeyEntries(rules: seq<Rule>) returns (es: seq<(Cost, Rule)>)
      modifies this
      ensures Keeps(old(keyCost), keyCost)
      ensures EntriesAgree(grammar, keyCost, rules, es)
    {
      es := [];
      for j := 0 to |rules|
        invariant Keeps(old(keyCost), keyCost)
        invariant EntriesAgree(grammar, keyCost, rules[..j], es)
      {
        ghost var memo1 := keyCost;
        var e := ExpansionCost(rules[j], {});
        EntriesAgreeKeeps(grammar, memo1, keyCost, rules[..j], es);
        es := es + [(e, rules[j])];
        assert rules[..j + 1] == rules[..j] + [rules[j]];
      }
      assert rules[..|rules|] == rules;
    }
  }

  // ---------------------------------------------------------------------
  // Python's `sorted` on `(cost, rule)` pairs, infinity above every cost.
  // ---------------------------------------------------------------------

  /** `a < b` on costs: `float('inf')` is above every finite cost and not below itself. */
  predicate CLt(a: Cost, b: Cost)
  {
    a.Fin? && (b.Inf? || a.n < b.n)
  }

  /** Python's tuple order: the costs decide unless equal, then the rule lists compared element by element. */
  predicate PairLe(x: (Cost, Rule), y: (Cost, Rule))
  {
    CLt(x.0, y.0) || (x.0 == y.0 && SeqLe(x.1, y.1))
  }

  lemma PairLeTotal(x: (Cost, Rule), y: (Cost, Rule))
    ensures PairLe(x, y) || PairLe(y, x)
  {
    SeqLeTotal(x.1, y.1);
  }

  lemma PairLeTrans(x: (Cost, Rule), y: (Cost, Rule), z: (Cost, Rule))
    requires PairLe(x, y) && PairLe(y, z)
    ensures PairLe(x, z)
  {
    if x.0 == y.0 == z.0 {
      SeqLeTrans(x.1, y.1, z.1);
    }
  }

  lemma PairLeAntisym(x: (Cost, Rule), y: (Cost, Rule))
    requires PairLe(x, y) && PairLe(y, x)
    ensures x == y
  {
    SeqLeAntisym(x.1, y.1);
  }

  ghost predicate PairsSorted(s: seq<(Cost, Rule)>)
  {
    forall i, j :: 0 <= i < j < |s| ==> PairLe(s[i], s[j])
  }

  /** Inserts `e` before the first pair it does not exceed. */
  function InsertPair(e: (Cost, Rule), s: seq<(Cost, Rule)>): seq<(Cost, Rule)>
  {
    if s == [] then [e]
    else if PairLe(e, s[0]) then [e] + s
    else [s[0]] + InsertPair(e, s[1..])
  }

  /** `sorted(...)` on a list of `(cost, rule)` pairs, computed by insertion; `SortByCostUnique` shows any sort agrees. */
  function SortByCost(s: seq<(Cost, Rule)>): seq<(Cost, Rule)>
  {
    if s == [] then [] else InsertPair(s[0], SortByCost(s[1..]))
  }

  lemma {:induction false} InsertPairPerm(e: (Cost, Rule), s: seq<(Cost, Rule)>)
    ensures multiset(InsertPair(e, s)) == multiset(s) + multiset{e}
  {
    if s != [] && !PairLe(e, s[0]) {
      InsertPairPerm(e, s[1..]);
      assert s == [s[0]] + s[1..];
    }
  }

  lemma {:induction false} InsertPairSorted(e: (Cost, Rule), s: seq<(Cost, Rule)>)
    requires PairsSorted(s)
    ensures PairsSorted(InsertPair(e, s))
  {
    if s == [] {
    } else if PairLe(e, s[0]) {
      var r := [e] + s;
      forall i, j | 0 <= i < j < |r| ensures PairLe(r[i], r[j]) {
        if i == 0 {
          if j > 1 {
            assert PairLe(s[0], s[j - 1]);
            PairLeTrans(e, s[0], s[j - 1]);
          }
        } else {
          assert r[i] == s[i - 1] && r[j] == s[j - 1];
        }
      }
    } else {
      var t := InsertPair(e, s[1..]);
      InsertPairSorted(e, s[1..]);
      InsertPairPerm(e, s[1..]);
      PairLeTotal(e, s[0]);
      var r := [s[0]] + t;
      forall j | 0 <= j < |t| ensures PairLe(s[0], t[j]) {
        assert t[j] in multiset(t);
        if t[j] != e {
          assert t[j] in multiset(s[1..]);
          var m :| 0 <= m < |s[1..]| && s[1..][m] == t[j];
          assert PairLe(s[0], s[m + 1]);
        }
      }
      forall i, j | 0 <= i < j < |r| ensures PairLe(r[i], r[j]) {
        if i == 0 {
          assert r[j] == t[j - 1];
        } else {
          assert r[i] == t[i - 1] && r[j] == t[j - 1];
        }
      }
    }
  }

  /** `sorted` returns an ascending permutation of its input. */
  lemma {:induction false} SortByCostCorrect(s: seq<(Cost, Rule)>)
    ensures PairsSorted(SortByCost(s)) && multiset(SortByCost(s)) == multiset(s)
  {
    if s != [] {
      SortByCostCorrect(s[1..]);
      InsertPairPerm(s[0], SortByCost(s[1..]));
      InsertPairSorted(s[0], SortByCost(s[1..]));
      assert s == [s[0]] + s[1..];
    }
  }

  /** Two ascending arrangements of the same pairs are equal, so `SortByCost` is what `sorted` returns. */
  lemma {:induction false} SortByCostUnique(a: seq<(Cost, Rule)>, b: seq<(Cost, Rule)>)
    requires PairsSorted(a) && PairsSorted(b) && multiset(a) == multiset(b)
    ensures a == b
    decreases |a|
  {
    if a != [] {
      assert a[0] in multiset(b);
      assert b[0] in multiset(a);
      assert PairLe(b[0], a[0]) by {
        var i :| 0 <= i < |b| && b[i] == a[0];
        if i == 0 {
          PairLeTotal(a[0], a[0]);
        } else {
          assert PairLe(b[0], b[i]);
        }
      }
      assert PairLe(a[0], b[0]) by {
        var i :| 0 <= i < |a| && a[i] == b[0];
        if i == 0 {
          PairLeTotal(a[0], a[0]);
        } else {
          assert PairLe(a[0], a[i]);
        }
      }
      PairLeAntisym(a[0], b[0]);
      assert a == [a[0]] + a[1..] && b == [b[0]] + b[1..];
      assert multiset(a[1..]) == multiset(a) - multiset{a[0]};
      assert multiset(b[1..]) == multiset(b) - multiset{b[0]};
      SortByCostUnique(a[1..], b[1..]);
    } else {
      assert |multiset(b)| == 0;
    }
  }

  // ---------------------------------------------------------------------
  // cheap_grammar over the sorted cost table.
  // ---------------------------------------------------------------------

  /** `a <= b` on costs, infinity last. */
  predicate CLe(a: Cost, b: Cost)
  {
    b.Inf? || (a.Fin? && a.n <= b.n)
  }

  /** The rules of the entries whose cost is `c`, in table order. */
  function RulesCosting(es: seq<(Cost, Rule)>, c: Cost): (rs: seq<Rule>)
    ensures |rs| <= |es|
  {
    if es == [] then []
    else (if es[0].0 == c then [es[0].1] else []) + RulesCosting(es[1..], c)
  }

  lemma {:induction false} RulesCostingSpec(es: seq<(Cost, Rule)>, c: Cost, rule: Rule)
    ensures rule in RulesCosting(es, c) <==> (c, rule) in es
  {
    if es != [] {
      RulesCostingSpec(es[1..], c, rule);
      assert es == [es[0]] + es[1..];
    }
  }

  /**
   * `PooledFuzzer.cheap_grammar` for one key: the rules costing as much as
   * the first entry; a key without rules has no first entry and fails.
   */
  function LegacyCheapRules(k: string, es: seq<(Cost, Rule)>): (r: Result<seq<Rule>, PoolError>)
    ensures r.Err? <==> es == []
    ensures r.Err? ==> r.error == EmptyCost(k)
    ensures r.Ok? ==> |r.value| > 0 && es[0].1 == r.value[0]
  {
    if es == [] then Err(EmptyCost(k)) else Ok(RulesCosting(es, es[0].0))
  }

  /** `cheap_grammar`: every key of the table in `keys` order; the first key without rules stops it. */
  function LegacyCheapGrammar(keys: seq<string>, cost: map<string, seq<(Cost, Rule)>>): (r: Result<map<string, seq<Rule>>, PoolError>)
    requires forall k :: k in keys ==> k in cost
    ensures r.Ok? ==> r.value.Keys == set k | k in keys
    ensures r.Err? ==> r.error.EmptyCost? && r.error.key in keys && cost[r.error.key] == []
  {
    if keys == [] then Ok(map[])
    else
      match LegacyCheapRules(keys[0], cost[keys[0]])
      case Err(e) => Err(e)
      case Ok(rs) =>
        match LegacyCheapGrammar(keys[1..], cost)
        case Err(e) => Err(e)
        case Ok(m) =>
          assert forall k :: k in keys <==> k == keys[0] || k in keys[1..] by {
            assert keys == [keys[0]] + keys[1..];
          }
          Ok(m[keys[0] := rs])
  }

  /** The list is in ascending cost, infinity last. */
  ghost predicate CostSorted(es: seq<(Cost, Rule)>)
  {
    forall i, j :: 0 <= i < j < |es| ==> CLe(es[i].0, es[j].0)
  }

  /**
   * On a sorted table, the cheap rules of a key are exactly the rules of
   * minimum cost: each of them costs no more than any rule of the key, and
   * a rule is kept exactly when its cost equals that of every kept rule.
   */
  lemma LegacyCheapMinimal(k: string, es: seq<(Cost, Rule)>, rule: Rule)
    requires CostSorted(es) && es != []
    ensures LegacyCheapRules(k, es).Ok?
    ensures rule in LegacyCheapRules(k, es).value <==> (es[0].0, rule) in es
    ensures forall e :: e in es ==> CLe(es[0].0, e.0)
  {
    RulesCostingSpec(es, es[0].0, rule);
    forall e | e in es ensures CLe(es[0].0, e.0) {
      var j :| 0 <= j < |es| && es[j] == e;
      if j == 0 {
        assert CLe(es[0].0, es[0].0);
      }
    }
  }

  /**
   * What `cheap_grammar` makes of one key of the table `compute_cost`
   * returns: the list's first cost is the smallest expansion cost of the
   * key's rules, and the kept rules are exactly the rules of that cost.
   */
  lemma LegacyCheapOfTable(g: Grammar, kc: map<string, Cost>, cost: map<string, seq<(Cost, Rule)>>, k: string, rule: Rule)
    requires TableAgrees(g, kc, cost) && k in cost && g.rules[k] != []
    ensures LegacyCheapRules(k, cost[k]).Ok?
    ensures var rules := g.rules[k]; var m := cost[k][0].0;
      (exists j :: 0 <= j < |rules| && ExpValue(g, kc, rules[j]) == m) &&
      (forall j :: 0 <= j < |rules| ==> CLe(m, ExpValue(g, kc, rules[j]))) &&
      (rule in LegacyCheapRules(k, cost[k]).value <==> exists j :: 0 <= j < |rules| && rules[j] == rule && ExpValue(g, kc, rules[j]) == m)
  {
    var rules := g.rules[k];
    var es := Expansions(g, kc, rules);
    SortByCostCorrect(es);
    var sorted := cost[k];
    assert |sorted| == |es| by {
      assert |multiset(sorted)| == |multiset(es)|;
    }
    assert CostSorted(sorted) by {
      forall i, j | 0 <= i < j < |sorted| ensures CLe(sorted[i].0, sorted[j].0) {
        assert PairLe(sorted[i], sorted[j]);
      }
    }
    LegacyCheapMinimal(k, sorted, rule);
    assert sorted[0] in multiset(es);
    var j0 :| 0 <= j0 < |es| && es[j0] == sorted[0];
    assert ExpValue(g, kc, rules[j0]) == sorted[0].0;
    forall j | 0 <= j < |rules| ensures CLe(sorted[0].0, ExpValue(g, kc, rules[j])) {
      assert es[j] in multiset(sorted);
      assert es[j] in sorted;
    }
    if rule in LegacyCheapRules(k, sorted).value {
      assert (sorted[0].0, rule) in multiset(es);
      var j :| 0 <= j < |es| && es[j] == (sorted[0].0, rule);
      assert rules[j] == rule && ExpValue(g, kc, rules[j]) == sorted[0].0;
    }
    if exists j :: 0 <= j < |rules| && rules[j] == rule && ExpValue(g, kc, rules[j]) == sorted[0].0 {
      var j :| 0 <= j < |rules| && rules[j] == rule && ExpValue(g, kc, rules[j]) == sorted[0].0;
      assert es[j] == (sorted[0].0, rule);
      assert es[j] in multiset(sorted);
    }
  }

  /** With every key having a rule, `cheap_grammar` succeeds and each key gets the cheap rules of its list. */
  lemma {:induction false} LegacyCheapGrammarOfTable(g: Grammar, kc: map<string, Cost>, cost: map<string, seq<(Cost, Rule)>>,
                                                     keys: seq<string>)
    requires TableAgrees(g, kc, cost) && forall k :: k in keys ==> k in cost && g.rules[k] != []
    ensures LegacyCheapGrammar(keys, cost).Ok?
    ensures forall k :: k in keys ==>
      LegacyCheapRules(k, cost[k]).Ok? && LegacyCheapGrammar(keys, cost).value[k] == LegacyCheapRules(k, cost[k]).value
  {
    if keys != [] {
      LegacyCheapOfTable(g, kc, cost, keys[0], []);
      assert forall k :: k in keys[1..] ==> k in keys;
      LegacyCheapGrammarOfTable(g, kc, cost, keys[1..]);
      assert forall k :: k in keys ==> k == keys[0] || k in keys[1..] by {
        assert keys == [keys[0]] + keys[1..];
      }
    }
  }
}
