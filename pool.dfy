/**
 * The pool of cheap trees the grammar compiler serialises into the
 * generated mutator (`PooledFuzzer` in grammars/f1_c_gen.py).
 *
 * The cheap grammar keeps, for each key, the rules of minimum cost. The
 * analyser's grammar is then reordered so that each key lists its finite
 * rules in ascending `(cost, rule)` order. Finally, for each key, a few
 * trees of the cheap grammar are drawn at random: up to `MAX_SAMPLE` of its
 * rules are sampled, and for each sampled rule up to `MAX_SAMPLE`
 * combinations of subtrees are picked.
 *
 * Random draws are an explicit parameter (`Draws`), indexed by the position
 * of the call that makes them, so every run of the source is one choice of
 * `Draws`. Python's recursion limit is a `fuel` parameter.
 */
module Pool {
  import opened Wrappers
  import opened Grammars
  import opened CostAnalysis
  import opened TreeCodec
  import Text

  const MAX_SAMPLE: nat := 255

  /** `IndexError` on an empty cost list, `ValueError` from `list.index`, `RecursionError`. */
  datatype PoolError = EmptyCost(key: string) | UnknownKey(key: string) | RecursionLimit

  function Min(a: nat, b: nat): nat
  {
    if a < b then a else b
  }

  // ---------------------------------------------------------------------
  // cheap_grammar and the reorder of the grammar.
  // ---------------------------------------------------------------------

  /** `[r for c, r in crules if c == cost]`. */
  function RulesAt(es: seq<Entry>, cost: nat): (rs: seq<Rule>)
    ensures |rs| <= |es|
    ensures forall r :: r in rs ==> (cost, r) in es
  {
    if es == [] then []
    else (if es[0].0 == cost then [es[0].1] else []) + RulesAt(es[1..], cost)
  }

  /** `[r for (i, r) in self.cost[k]]`: the rules of a cost list, in its order. */
  function RulesOf(es: seq<Entry>): (rs: seq<Rule>)
    ensures |rs| == |es|
    ensures forall i :: 0 <= i < |es| ==> rs[i] == es[i].1
  {
    if es == [] then [] else [es[0].1] + RulesOf(es[1..])
  }

  /** The rules `cheap_grammar` keeps for a key: those costing as much as the first entry. */
  function CheapRules(es: seq<Entry>): (rs: seq<Rule>)
    requires es != []
    ensures rs != [] && rs[0] == es[0].1
  {
    RulesAt(es, es[0].0)
  }

  /** `cheap_grammar`, key by key in order; a key with an empty cost list raises `IndexError`. */
  function CheapGrammar(keys: seq<string>, cost: map<string, seq<Entry>>): Result<map<string, seq<Rule>>, PoolError>
    requires forall k :: k in keys ==> k in cost
  {
    if keys == [] then Ok(map[])
    else if cost[keys[0]] == [] then Err(EmptyCost(keys[0]))
    else
      match CheapGrammar(keys[1..], cost)
      case Err(e) => Err(e)
      case Ok(m) => Ok(m[keys[0] := CheapRules(cost[keys[0]])])
  }

  /**
   * `cheap_grammar` succeeds exactly when every key has a finite rule; it then
   * maps every key to its cheap rules, and otherwise reports the first key
   * without one.
   */
  lemma {:induction false} CheapGrammarSpec(keys: seq<string>, cost: map<string, seq<Entry>>)
    requires forall k :: k in keys ==> k in cost
    ensures CheapGrammar(keys, cost).Ok? <==> forall k :: k in keys ==> cost[k] != []
    ensures CheapGrammar(keys, cost).Ok? ==>
      (forall k :: k in CheapGrammar(keys, cost).value <==> k in keys) &&
      (forall k :: k in keys ==> CheapGrammar(keys, cost).value[k] == CheapRules(cost[k]))
    ensures CheapGrammar(keys, cost).Err? ==>
      exists i :: 0 <= i < |keys| && CheapGrammar(keys, cost).error == EmptyCost(keys[i]) &&
        cost[keys[i]] == [] && forall j :: 0 <= j < i ==> cost[keys[j]] != []
  {
    if keys != [] && cost[keys[0]] != [] {
      CheapGrammarSpec(keys[1..], cost);
      var r := CheapGrammar(keys[1..], cost);
      if r.Ok? {
        forall k | k in keys ensures CheapGrammar(keys, cost).value[k] == CheapRules(cost[k]) {
          if k != keys[0] {
            assert k in keys[1..];
          }
        }
      } else {
        var i :| 0 <= i < |keys[1..]| && r.error == EmptyCost(keys[1..][i]) &&
          cost[keys[1..][i]] == [] && forall j :: 0 <= j < i ==> cost[keys[1..][j]] != [];
        assert keys[i + 1] == keys[1..][i];
        forall j | 0 <= j < i + 1 ensures cost[keys[j]] != [] {
          if j > 0 {
            assert keys[j] == keys[1..][j - 1];
          }
        }
      }
    }
  }

  lemma {:induction false} RulesAtNone(es: seq<Entry>, cost: nat)
    requires forall i :: 0 <= i < |es| ==> es[i].0 != cost
    ensures RulesAt(es, cost) == []
  {
    if es != [] {
      RulesAtNone(es[1..], cost);
    }
  }

  /** In a sorted list the entries of the lowest cost come first, so their rules are a prefix. */
  lemma {:induction false} RulesAtPrefix(es: seq<Entry>, cost: nat)
    requires Sorted(es) && forall i :: 0 <= i < |es| ==> cost <= es[i].0
    ensures var rs := RulesAt(es, cost);
      rs == RulesOf(es)[..|rs|] && forall i :: |rs| <= i < |es| ==> cost < es[i].0
  {
    if es != [] {
      if es[0].0 == cost {
        RulesAtPrefix(es[1..], cost);
        var rest := RulesAt(es[1..], cost);
        assert RulesOf(es) == [es[0].1] + RulesOf(es[1..]);
        assert [es[0].1] + RulesOf(es[1..])[..|rest|] == RulesOf(es)[..1 + |rest|];
        forall i | 1 + |rest| <= i < |es| ensures cost < es[i].0 {
          assert es[i] == es[1..][i - 1];
        }
      } else {
        forall i | 0 <= i < |es| ensures es[i].0 != cost {
          if i > 0 {
            assert EntryLe(es[0], es[i]);
          }
        }
        RulesAtNone(es, cost);
      }
    }
  }

  /**
   * After the reorder, a key's cheap rules are the first rules of its list,
   * so a pool tree's `rule_id` names the same rule in both grammars; every
   * later rule costs more.
   */
  lemma CheapIsPrefix(es: seq<Entry>)
    requires es != [] && Sorted(es)
    ensures CheapRules(es) == RulesOf(es)[..|CheapRules(es)|]
    ensures forall i :: |CheapRules(es)| <= i < |es| ==> es[0].0 < es[i].0
  {
    forall i | 0 <= i < |es| ensures es[0].0 <= es[i].0 {
      if i > 0 {
        assert EntryLe(es[0], es[i]);
      }
    }
    RulesAtPrefix(es, es[0].0);
  }

  /** The reorder `self.grammar[k] = [r for (i, r) in self.cost[k]]`, applied to the keys `ks` in order. */
  function Reorder(rules: map<string, seq<Rule>>, ks: seq<string>, cost: map<string, seq<Entry>>): map<string, seq<Rule>>
    requires forall k :: k in ks ==> k in cost
    decreases |ks|
  {
    if ks == [] then rules
    else Reorder(rules, ks[..|ks| - 1], cost)[ks[|ks| - 1] := RulesOf(cost[ks[|ks| - 1]])]
  }

  /** After the reorder, each walked key lists its cost list's rules and every other key is untouched. */
  lemma {:induction false} ReorderSpec(rules: map<string, seq<Rule>>, ks: seq<string>, cost: map<string, seq<Entry>>)
    requires forall k :: k in ks ==> k in cost
    ensures forall k :: k in Reorder(rules, ks, cost) <==> k in rules || k in ks
    ensures forall k :: k in ks ==> Reorder(rules, ks, cost)[k] == RulesOf(cost[k])
    ensures forall k :: k in rules && k !in ks ==> Reorder(rules, ks, cost)[k] == rules[k]
    decreases |ks|
  {
    if ks != [] {
      var p := ks[..|ks| - 1];
      ReorderSpec(rules, p, cost);
      forall k | k in ks ensures Reorder(rules, ks, cost)[k] == RulesOf(cost[k]) {
        if k != ks[|ks| - 1] {
          var i :| 0 <= i < |ks| && ks[i] == k;
          assert p[i] == k;
        }
      }
    }
  }

  lemma {:induction false} EntriesShorter(g: Grammar, kc: KeyCost, rs: seq<Rule>, i: nat)
    requires i < |rs| && RuleCost(g, kc, rs[i]).Inf?
    ensures |Entries(g, kc, rs)| < |rs|
  {
    if i > 0 {
      EntriesShorter(g, kc, rs[1..], i - 1);
    } else {
      assert |Entries(g, kc, rs[1..])| <= |rs[1..]| by {
        EntriesAtMost(g, kc, rs[1..]);
      }
    }
  }

  lemma {:induction false} EntriesAtMost(g: Grammar, kc: KeyCost, rs: seq<Rule>)
    ensures |Entries(g, kc, rs)| <= |rs|
  {
    if rs != [] {
      EntriesAtMost(g, kc, rs[1..]);
    }
  }

  /** The reorder loses a key's infinite-cost rules: its new list is shorter than the grammar's. */
  lemma ReorderDropsInfinite(g: Grammar, kc: KeyCost, tab: map<string, seq<Entry>>, k: string, i: nat)
    requires CostTable(g, kc, tab) && k in g.rules && i < |g.rules[k]| && RuleCost(g, kc, g.rules[k][i]).Inf?
    ensures k in tab && |RulesOf(tab[k])| < |g.rules[k]|
  {
    var es := Entries(g, kc, g.rules[k]);
    SortEntriesCorrect(es);
    assert |SortEntries(es)| == |multiset(SortEntries(es))| == |multiset(es)| == |es|;
    EntriesShorter(g, kc, g.rules[k], i);
  }

  // ---------------------------------------------------------------------
  // k_to_id.
  // ---------------------------------------------------------------------

  /** `self.grammar_keys.index(k) + 1`; `None` is the `ValueError` of a missing key. */
  function KeyId(keys: seq<string>, k: string): (r: Option<nat>)
    ensures r.Some? <==> k in keys
    ensures r.Some? ==> 1 <= r.value <= |keys| && keys[r.value - 1] == k && k !in keys[..r.value - 1]
  {
    if keys == [] then None
    else if keys[0] == k then Some(1)
    else
      match KeyId(keys[1..], k)
      case None => None
      case Some(i) =>
        assert keys[..i] == [keys[0]] + keys[1..][..i - 1];
        Some(i + 1)
  }

  // ---------------------------------------------------------------------
  // get_trees_for_key and get_trees_for_rule.
  // ---------------------------------------------------------------------

  /**
   * The random draws of one pool construction. The call at position `p`
   * samples its rules with `sample(p, n)`; tree `j` of the rule call at `p`
   * takes option `pick(p, j, i)` (modulo the number of options) for token `i`.
   */
  datatype Draws = Draws(sample: (seq<nat>, nat) -> seq<nat>, pick: (seq<nat>, nat, nat) -> nat)

  /** `random.sample(range(n), min(MAX_SAMPLE, n))`: that many distinct indices below `n`. */
  predicate IsSample(s: seq<nat>, n: nat)
  {
    |s| == Min(MAX_SAMPLE, n) && (forall i :: 0 <= i < |s| ==> s[i] < n) &&
    forall i, j :: 0 <= i < j < |s| ==> s[i] != s[j]
  }

  ghost predicate ValidDraws(d: Draws)
  {
    forall p, n :: IsSample(d.sample(p, n), n)
  }

  /** `max_possible_trees`: the product of the numbers of options. */
  function Product(poss: seq<seq<PyTree>>): nat
  {
    if poss == [] then 1 else |poss[0]| * Product(poss[1..])
  }

  lemma {:induction false} ProductPositive(poss: seq<seq<PyTree>>)
    requires Product(poss) > 0
    ensures forall i :: 0 <= i < |poss| ==> |poss[i]| > 0
  {
    if poss != [] {
      ProductPositive(poss[1..]);
      forall i | 0 <= i < |poss| ensures |poss[i]| > 0 {
        if i > 0 {
          assert poss[i] == poss[1..][i - 1];
        }
      }
    }
  }

  /** `random_product(*subnode_possibilities)` for tree `j`: one option per token. */
  function Choose(poss: seq<seq<PyTree>>, d: Draws, path: seq<nat>, j: nat): (kids: seq<PyTree>)
    requires forall i :: 0 <= i < |poss| ==> |poss[i]| > 0
    ensures |kids| == |poss| && forall i :: 0 <= i < |poss| ==> kids[i] in poss[i]
  {
    seq(|poss|, i requires 0 <= i < |poss| => poss[i][d.pick(path, j, i) % |poss[i]|])
  }

  /**
   * `get_trees_for_key(grammar, key)` for the call at position `path`: a leaf
   * for a non-key, otherwise the trees of the sampled rules, concatenated in
   * sample order.
   */
  function TreesForKey(g: map<string, seq<Rule>>, keys: seq<string>, key: string, d: Draws, path: seq<nat>,
                       fuel: nat): (r: Result<seq<PyTree>, PoolError>)
    requires ValidDraws(d)
    ensures key !in g ==> r == Ok([PyTree(0, 0, key, [])])
    ensures r.Ok? ==> |r.value| <= MAX_SAMPLE * MAX_SAMPLE
    ensures r.Err? ==> r.error == RecursionLimit || (r.error.UnknownKey? && r.error.key in g && r.error.key !in keys)
    decreases fuel, 3
  {
    if key !in g then Ok([PyTree(0, 0, key, [])])
    else if fuel == 0 then Err(RecursionLimit)
    else
      var sel := d.sample(path, |g[key]|);
      assert IsSample(sel, |g[key]|);
      TreesForRules(g, keys, key, sel, 0, d, path, fuel)
  }

  /** The trees of the sampled rules `sel[s..]`, concatenated. */
  function TreesForRules(g: map<string, seq<Rule>>, keys: seq<string>, key: string, sel: seq<nat>, s: nat,
                         d: Draws, path: seq<nat>, fuel: nat): (r: Result<seq<PyTree>, PoolError>)
    requires ValidDraws(d) && key in g && fuel > 0 && s <= |sel| <= MAX_SAMPLE
    requires forall i :: 0 <= i < |sel| ==> sel[i] < |g[key]|
    ensures r.Ok? ==> |r.value| <= MAX_SAMPLE * (|sel| - s)
    ensures r.Err? ==> r.error == RecursionLimit || (r.error.UnknownKey? && r.error.key in g && r.error.key !in keys)
    decreases fuel, 2, |sel| - s
  {
    if s == |sel| then Ok([])
    else
      match TreesForRule(g, keys, key, sel[s], d, path + [s], fuel)
      case Err(e) => Err(e)
      case Ok(ts) =>
        match TreesForRules(g, keys, key, sel, s + 1, d, path, fuel)
        case Err(e) => Err(e)
        case Ok(more) => Ok(ts + more)
  }

  /**
   * `get_trees_for_rule`: the options for each token, then
   * `min(max_possible_trees, MAX_SAMPLE)` trees, each picking one option per token.
   */
  function TreesForRule(g: map<string, seq<Rule>>, keys: seq<string>, key: string, ruleId: nat, d: Draws,
                        path: seq<nat>, fuel: nat): (r: Result<seq<PyTree>, PoolError>)
    requires ValidDraws(d) && key in g && ruleId < |g[key]| && fuel > 0
    ensures r.Ok? ==> |r.value| <= MAX_SAMPLE
    ensures r.Err? ==> r.error == RecursionLimit || (r.error.UnknownKey? && r.error.key in g && r.error.key !in keys)
    decreases fuel, 1
  {
    var rule := g[key][ruleId];
    match Options(g, keys, rule, 0, d, path, fuel)
    case Err(e) => Err(e)
    case Ok(poss) =>
      var chosen := Min(Product(poss), MAX_SAMPLE);
      if chosen == 0 then Ok([])
      else
        match KeyId(keys, key)
        case None => Err(UnknownKey(key))
        case Some(id) =>
          ProductPositive(poss);
          Ok(seq(chosen, j requires 0 <= j < chosen => PyTree(id, ruleId, [], Choose(poss, d, path, j))))
  }

  /** `subnode_possibilities` for the tokens `rule[i..]`. */
  function Options(g: map<string, seq<Rule>>, keys: seq<string>, rule: Rule, i: nat, d: Draws, path: seq<nat>,
                   fuel: nat): (r: Result<seq<seq<PyTree>>, PoolError>)
    requires ValidDraws(d) && fuel > 0 && i <= |rule|
    ensures r.Ok? ==> |r.value| == |rule| - i
    ensures r.Err? ==> r.error == RecursionLimit || (r.error.UnknownKey? && r.error.key in g && r.error.key !in keys)
    decreases fuel, 0, |rule| - i
  {
    if i == |rule| then Ok([])
    else
      match TreesForKey(g, keys, rule[i], d, path + [i], fuel - 1)
      case Err(e) => Err(e)
      case Ok(ts) =>
        match Options(g, keys, rule, i + 1, d, path, fuel)
        case Err(e) => Err(e)
        case Ok(more) => Ok([ts] + more)
  }

  /** `completion_trees` for the keys `ks[i..]`: the pool, key by key; the first error stops it. */
  function CompletionTrees(g: map<string, seq<Rule>>, keys: seq<string>, ks: seq<string>, i: nat, d: Draws,
                           fuel: nat): (r: Result<map<string, seq<PyTree>>, PoolError>)
    requires ValidDraws(d) && i <= |ks|
    ensures r.Ok? ==> forall k :: k in r.value <==> k in ks[i..]
    ensures r.Err? ==> r.error == RecursionLimit || (r.error.UnknownKey? && r.error.key in g && r.error.key !in keys)
    decreases |ks| - i
  {
    if i == |ks| then Ok(map[])
    else
      match TreesForKey(g, keys, ks[i], d, [i], fuel)
      case Err(e) => Err(e)
      case Ok(ts) =>
        match CompletionTrees(g, keys, ks, i + 1, d, fuel)
        case Err(e) => Err(e)
        case Ok(m) =>
          assert forall k :: k in ks[i..] <==> k == ks[i] || k in ks[i + 1..] by {
            assert ks[i..] == [ks[i]] + ks[i + 1..];
          }
          Ok(m[ks[i] := ts])
  }

  // ---------------------------------------------------------------------
  // What a pool tree is.
  // ---------------------------------------------------------------------

  /** The derivation a pool tree stands for: node type 0 is a literal, type `n` is key `keys[n - 1]`. */
  function ToDeriv(keys: seq<string>, t: PyTree): Deriv
    decreases t
  {
    if t.nodeType <= 0 || t.nodeType > |keys| then Leaf(t.val)
    else
      Node(keys[t.nodeType - 1], if t.ruleId < 0 then 0 else t.ruleId,
           seq(|t.subnodes|, i requires 0 <= i < |t.subnodes| => ToDeriv(keys, t.subnodes[i])))
  }

  /** `t` is a derivation of `sym` in `g`, and its text (`__str__`) is the derivation's yield. */
  ghost predicate PoolTree(g: Grammar, sym: Token, t: PyTree)
  {
    Derives(g, sym, ToDeriv(g.keys, t)) && Str(t) == Yield(ToDeriv(g.keys, t))
  }

  lemma {:induction false} StrAllYield(ts: seq<PyTree>, ds: seq<Deriv>)
    requires |ts| == |ds| && forall i :: 0 <= i < |ts| ==> Str(ts[i]) == Yield(ds[i])
    ensures StrAll(ts) == YieldAll(ds)
  {
    if ts != [] {
      StrAllYield(ts[1..], ds[1..]);
    }
  }

  /** Every tree `get_trees_for_key` returns derives the key and spells its yield. */
  lemma {:induction false} KeyTreesSound(g: Grammar, key: Token, d: Draws, path: seq<nat>, fuel: nat)
    requires ValidDraws(d)
    ensures var r := TreesForKey(g.rules, g.keys, key, d, path, fuel);
      r.Ok? ==> forall t :: t in r.value ==> PoolTree(g, key, t)
    decreases fuel, 3
  {
    if key !in g.rules {
      assert ToDeriv(g.keys, PyTree(0, 0, key, [])) == Leaf(key);
    } else if fuel > 0 {
      var sel := d.sample(path, |g.rules[key]|);
      assert IsSample(sel, |g.rules[key]|);
      RulesTreesSound(g, key, sel, 0, d, path, fuel);
    }
  }

  lemma {:induction false} RulesTreesSound(g: Grammar, key: Token, sel: seq<nat>, s: nat, d: Draws, path: seq<nat>,
                                           fuel: nat)
    requires ValidDraws(d) && key in g.rules && fuel > 0 && s <= |sel| <= MAX_SAMPLE
    requires forall i :: 0 <= i < |sel| ==> sel[i] < |g.rules[key]|
    ensures var r := TreesForRules(g.rules, g.keys, key, sel, s, d, path, fuel);
      r.Ok? ==> forall t :: t in r.value ==> PoolTree(g, key, t)
    decreases fuel, 2, |sel| - s
  {
    if s < |sel| {
      RuleTreesSound(g, key, sel[s], d, path + [s], fuel);
      RulesTreesSound(g, key, sel, s + 1, d, path, fuel);
    }
  }

  lemma {:induction false} RuleTreesSound(g: Grammar, key: Token, ruleId: nat, d: Draws, path: seq<nat>, fuel: nat)
    requires ValidDraws(d) && key in g.rules && ruleId < |g.rules[key]| && fuel > 0
    ensures var r := TreesForRule(g.rules, g.keys, key, ruleId, d, path, fuel);
      r.Ok? ==> forall t :: t in r.value ==> PoolTree(g, key, t)
    decreases fuel, 1
  {
    var rule := g.rules[key][ruleId];
    var opts := Options(g.rules, g.keys, rule, 0, d, path, fuel);
    var id := KeyId(g.keys, key);
    OptionsSound(g, rule, 0, d, path, fuel);
    if opts.Ok? && id.Some? && Product(opts.value) > 0 {
      var poss := opts.value;
      ProductPositive(poss);
      forall t | t in TreesForRule(g.rules, g.keys, key, ruleId, d, path, fuel).value
        ensures PoolTree(g, key, t)
      {
        var j :| 0 <= j < Min(Product(poss), MAX_SAMPLE) && t == PyTree(id.value, ruleId, [], Choose(poss, d, path, j));
        TreeSound(g, key, ruleId, poss, id.value, t);
      }
    }
  }

  /** One tree of a rule: its children come from the options of the rule's tokens. */
  lemma TreeSound(g: Grammar, key: Token, ruleId: nat, poss: seq<seq<PyTree>>, id: nat, t: PyTree)
    requires key in g.rules && ruleId < |g.rules[key]| && 1 <= id <= |g.keys| && g.keys[id - 1] == key
    requires |poss| == |g.rules[key][ruleId]|
    requires forall m :: 0 <= m < |poss| ==> forall u :: u in poss[m] ==> PoolTree(g, g.rules[key][ruleId][m], u)
    requires t.nodeType == id && t.ruleId == ruleId && t.val == [] && |t.subnodes| == |poss|
    requires forall m :: 0 <= m < |poss| ==> t.subnodes[m] in poss[m]
    ensures PoolTree(g, key, t)
  {
    var dt := ToDeriv(g.keys, t);
    forall m | 0 <= m < |t.subnodes|
      ensures Derives(g, g.rules[key][ruleId][m], dt.kids[m]) && Str(t.subnodes[m]) == Yield(dt.kids[m])
    {
      assert PoolTree(g, g.rules[key][ruleId][m], t.subnodes[m]);
    }
    StrAllYield(t.subnodes, dt.kids);
  }

  lemma {:induction false} OptionsSound(g: Grammar, rule: Rule, i: nat, d: Draws, path: seq<nat>, fuel: nat)
    requires ValidDraws(d) && fuel > 0 && i <= |rule|
    ensures var r := Options(g.rules, g.keys, rule, i, d, path, fuel);
      r.Ok? ==> forall m :: 0 <= m < |r.value| ==> forall u :: u in r.value[m] ==> PoolTree(g, rule[i + m], u)
    decreases fuel, 0, |rule| - i
  {
    if i < |rule| {
      KeyTreesSound(g, rule[i], d, path + [i], fuel - 1);
      OptionsSound(g, rule, i + 1, d, path, fuel);
      var r := Options(g.rules, g.keys, rule, i, d, path, fuel);
      if r.Ok? {
        var more := Options(g.rules, g.keys, rule, i + 1, d, path, fuel).value;
        var ts := TreesForKey(g.rules, g.keys, rule[i], d, path + [i], fuel - 1).value;
        assert r.value == [ts] + more;
        forall m, u | 0 <= m < |r.value| && u in r.value[m] ensures PoolTree(g, rule[i + m], u) {
          if m > 0 {
            var k := m - 1;
            assert r.value[m] == more[k] && rule[i + m] == rule[i + 1 + k];
            assert 0 <= k < |more| && u in more[k];
            assert PoolTree(g, rule[i + 1 + k], u);
          } else {
            assert u in ts && rule[i + m] == rule[i];
          }
        }
      }
    }
  }

  // ---------------------------------------------------------------------
  // The cheap grammar against the cost analysis.
  // ---------------------------------------------------------------------

  /** Every cheap rule of a key costs exactly the key's minimum, and the cheap grammar has the grammar's keys. */
  ghost predicate CheapCosts(g: Grammar, kc: KeyCost, cg: map<string, seq<Rule>>)
  {
    (forall k :: k in cg <==> k in g.rules) &&
    forall k :: k in cg ==> k in kc && forall r :: r in cg[k] ==> RuleCost(g, kc, r) == Fin(kc[k])
  }

  /** Each list of `small` is a prefix of the same key's list in `big`. */
  ghost predicate PrefixRules(small: map<string, seq<Rule>>, big: map<string, seq<Rule>>)
  {
    (forall k :: k in small <==> k in big) &&
    forall k :: k in small ==> |small[k]| <= |big[k]| && small[k] == big[k][..|small[k]|]
  }

  /**
   * On the analyser's finished table, `cheap_grammar` fails exactly when some
   * key is unproductive; otherwise every cheap rule costs the key's minimum
   * and, after the reorder, the cheap rules are the first rules of each key.
   */
  lemma CheapGrammarCorrect(g: Grammar, kc: KeyCost, tab: map<string, seq<Entry>>)
    requires g.WellFormed() && Fixpoint(g, kc) && MinimalCosts(g, kc) && CostTable(g, kc, tab)
    ensures forall k :: k in g.keys ==> k in tab
    ensures CheapGrammar(g.keys, tab).Ok? <==> forall k :: k in g.rules ==> k in kc
    ensures CheapGrammar(g.keys, tab).Ok? ==>
      CheapCosts(g, kc, CheapGrammar(g.keys, tab).value) &&
      PrefixRules(CheapGrammar(g.keys, tab).value, Reorder(g.rules, g.keys, tab))
  {
    CostTableShape(g, kc, tab);
    CheapGrammarSpec(g.keys, tab);
    ReorderSpec(g.rules, g.keys, tab);
    var r := CheapGrammar(g.keys, tab);
    if r.Ok? {
      var cg := r.value;
      forall k | k in cg
        ensures k in kc && forall rl :: rl in cg[k] ==> RuleCost(g, kc, rl) == Fin(kc[k])
        ensures |cg[k]| <= |Reorder(g.rules, g.keys, tab)[k]|
        ensures cg[k] == Reorder(g.rules, g.keys, tab)[k][..|cg[k]|]
      {
        var es := tab[k];
        SortEntriesCorrect(Entries(g, kc, g.rules[k]));
        forall rl | rl in cg[k] ensures RuleCost(g, kc, rl) == Fin(kc[k]) {
          assert (es[0].0, rl) in es;
          assert (es[0].0, rl) in multiset(Entries(g, kc, g.rules[k]));
        }
        CheapIsPrefix(es);
      }
    }
  }

  /** Trees built only from cheap rules spell exactly the minimum number of characters. */
  lemma {:induction false} CheapDerivSize(g: Grammar, kc: KeyCost, cg: map<string, seq<Rule>>, sym: Token, t: Deriv)
    requires CheapCosts(g, kc, cg) && Derives(Grammar(g.keys, cg), sym, t)
    ensures SymbolCost(g, kc, sym) == Fin(Size(t))
    decreases t
  {
    if sym in cg {
      var r := cg[sym][t.rule];
      forall i | 0 <= i < |r| ensures SymbolCost(g, kc, r[i]) == Fin(Size(t.kids[i])) {
        CheapDerivSize(g, kc, cg, r[i], t.kids[i]);
      }
      RuleCostExact(g, kc, r, t.kids);
    }
  }

  lemma {:induction false} RuleCostExact(g: Grammar, kc: KeyCost, r: Rule, ts: seq<Deriv>)
    requires |ts| == |r| && forall i :: 0 <= i < |r| ==> SymbolCost(g, kc, r[i]) == Fin(Size(ts[i]))
    ensures RuleCost(g, kc, r) == Fin(SizeAll(ts))
    decreases |r|
  {
    if r != [] {
      var n := |r| - 1;
      RuleCostExact(g, kc, r[..n], ts[..n]);
      assert ts == ts[..n] + [ts[n]];
      SizeAllAppend(ts[..n], ts[n]);
    }
  }

  /** A derivation that only uses the first rules of each key is a derivation of the larger grammar too. */
  lemma {:induction false} DerivesInPrefix(keys: seq<string>, small: map<string, seq<Rule>>, big: map<string, seq<Rule>>,
                                           sym: Token, t: Deriv)
    requires PrefixRules(small, big) && Derives(Grammar(keys, small), sym, t)
    ensures Derives(Grammar(keys, big), sym, t)
    decreases t
  {
    if sym in small {
      var r := small[sym][t.rule];
      assert r == big[sym][t.rule];
      forall i | 0 <= i < |t.kids| ensures Derives(Grammar(keys, big), r[i], t.kids[i]) {
        DerivesInPrefix(keys, small, big, r[i], t.kids[i]);
      }
    }
  }

  /**
   * The pool trees of a key, drawn from the cheap grammar of the finished cost
   * table, are derivations of the key in the reordered grammar the generated
   * code uses, and each spells exactly the key's minimum cost in characters.
   */
  lemma PoolTreesMinimal(g: Grammar, kc: KeyCost, tab: map<string, seq<Entry>>, k: string, d: Draws,
                         path: seq<nat>, fuel: nat)
    requires g.WellFormed() && Fixpoint(g, kc) && MinimalCosts(g, kc) && CostTable(g, kc, tab) && ValidDraws(d)
    requires CheapGrammar(g.keys, tab).Ok?
    ensures var r := TreesForKey(CheapGrammar(g.keys, tab).value, g.keys, k, d, path, fuel);
      r.Ok? ==> forall t :: t in r.value ==>
        PoolTree(Grammar(g.keys, Reorder(g.rules, g.keys, tab)), k, t) && SymbolCost(g, kc, k) == Fin(|Str(t)|)
  {
    CheapGrammarCorrect(g, kc, tab);
    var cg := CheapGrammar(g.keys, tab).value;
    var big := Grammar(g.keys, Reorder(g.rules, g.keys, tab));
    KeyTreesSound(Grammar(g.keys, cg), k, d, path, fuel);
    var r := TreesForKey(cg, g.keys, k, d, path, fuel);
    if r.Ok? {
      forall t | t in r.value ensures PoolTree(big, k, t) && SymbolCost(g, kc, k) == Fin(|Str(t)|) {
        assert PoolTree(Grammar(g.keys, cg), k, t);
        DerivesInPrefix(g.keys, cg, big.rules, k, ToDeriv(g.keys, t));
        CheapDerivSize(g, kc, cg, k, ToDeriv(g.keys, t));
      }
    }
  }

  /** With distinct keys, the pool of `ks[j]` is the result of the call at position `[j]`. */
  lemma {:induction false} CompletionTreesAt(g: map<string, seq<Rule>>, keys: seq<string>, ks: seq<string>, i: nat,
                                             j: nat, d: Draws, fuel: nat)
    requires ValidDraws(d) && i <= j < |ks| && forall a, b :: 0 <= a < b < |ks| ==> ks[a] != ks[b]
    ensures var r := CompletionTrees(g, keys, ks, i, d, fuel);
      r.Ok? ==> ks[j] in r.value && TreesForKey(g, keys, ks[j], d, [j], fuel) == Ok(r.value[ks[j]])
    decreases |ks| - i
  {
    if i < j {
      CompletionTreesAt(g, keys, ks, i + 1, j, d, fuel);
    }
  }

  /**
   * `PooledFuzzer.__init__` on the analyser's results: when every key is
   * productive the cheap grammar exists, and every pool tree of every key is
   * a minimum-size derivation of it in the reordered grammar. Pools hold at
   * most 255 trees per sampled rule, so up to 255 * 255 per key.
   */
  lemma PoolCorrect(g: Grammar, kc: KeyCost, tab: map<string, seq<Entry>>, d: Draws, fuel: nat)
    requires g.WellFormed() && Fixpoint(g, kc) && MinimalCosts(g, kc) && CostTable(g, kc, tab) && ValidDraws(d)
    ensures CheapGrammar(g.keys, tab).Ok? <==> forall k :: k in g.rules ==> k in kc
    ensures CheapGrammar(g.keys, tab).Ok? ==>
      var pr := CompletionTrees(CheapGrammar(g.keys, tab).value, g.keys, g.keys, 0, d, fuel);
      pr.Ok? ==> forall k :: k in g.keys ==> PoolOf(g, kc, tab, pr.value, k)
  {
    CheapGrammarCorrect(g, kc, tab);
    var cr := CheapGrammar(g.keys, tab);
    if cr.Ok? {
      var pr := CompletionTrees(cr.value, g.keys, g.keys, 0, d, fuel);
      if pr.Ok? {
        forall k | k in g.keys ensures PoolOf(g, kc, tab, pr.value, k) {
          PoolKey(g, kc, tab, d, fuel, k);
        }
      }
    }
  }

  /** `k` is a key of `g` from which no string can be derived. */
  ghost predicate Unproductive(g: Grammar, k: string)
  {
    k in g.rules && forall t :: !Derives(g, k, t)
  }

  /** `cheap_grammar` fails, naming a key with an empty cost list, exactly when some key derives nothing. */
  lemma CheapGrammarErrors(g: Grammar, kc: KeyCost, tab: map<string, seq<Entry>>)
    requires g.WellFormed() && Fixpoint(g, kc) && MinimalCosts(g, kc) && CostTable(g, kc, tab)
    ensures forall k :: k in g.keys ==> k in tab
    ensures CheapGrammar(g.keys, tab).Err? ==> CheapGrammar(g.keys, tab).error.EmptyCost?
    ensures CheapGrammar(g.keys, tab).Err? <==> exists k :: Unproductive(g, k)
    ensures CheapGrammar(g.keys, tab).Ok? ==> forall k :: k in CheapGrammar(g.keys, tab).value <==> k in g.keys
  {
    CheapGrammarCorrect(g, kc, tab);
    CheapGrammarSpec(g.keys, tab);
    if CheapGrammar(g.keys, tab).Err? {
      var k :| k in g.rules && k !in kc;
      assert Unproductive(g, k);
    } else {
      forall k ensures !Unproductive(g, k) {
        if k in g.rules {
          var t :| Derives(g, k, t) && Size(t) == kc[k];
        }
      }
    }
  }

  /** What the pool holds for key `k`: at most 255 * 255 minimum-size derivations of `k` in the reordered grammar. */
  ghost predicate PoolOf(g: Grammar, kc: KeyCost, tab: map<string, seq<Entry>>, pool: map<string, seq<PyTree>>, k: string)
    requires forall k :: k in g.keys ==> k in tab
  {
    k in pool && k in kc && |pool[k]| <= MAX_SAMPLE * MAX_SAMPLE &&
    forall t :: t in pool[k] ==> PoolTree(Grammar(g.keys, Reorder(g.rules, g.keys, tab)), k, t) && |Str(t)| == kc[k]
  }

  lemma PoolKey(g: Grammar, kc: KeyCost, tab: map<string, seq<Entry>>, d: Draws, fuel: nat, k: string)
    requires g.WellFormed() && Fixpoint(g, kc) && MinimalCosts(g, kc) && CostTable(g, kc, tab) && ValidDraws(d)
    requires CheapGrammar(g.keys, tab).Ok? && k in g.keys
    requires CompletionTrees(CheapGrammar(g.keys, tab).value, g.keys, g.keys, 0, d, fuel).Ok?
    ensures forall k :: k in g.keys ==> k in tab
    ensures PoolOf(g, kc, tab, CompletionTrees(CheapGrammar(g.keys, tab).value, g.keys, g.keys, 0, d, fuel).value, k)
  {
    CheapGrammarCorrect(g, kc, tab);
    var cg := CheapGrammar(g.keys, tab).value;
    var pool := CompletionTrees(cg, g.keys, g.keys, 0, d, fuel).value;
    var j: nat :| j < |g.keys| && g.keys[j] == k;
    CompletionTreesAt(cg, g.keys, g.keys, 0, j, d, fuel);
    PoolTreesMinimal(g, kc, tab, k, d, [j], fuel);
  }

  // ---------------------------------------------------------------------
  // The compiler object.
  // ---------------------------------------------------------------------

  /** `PooledFuzzer`: the analyser's state, the cheap grammar and the pool of trees. */
  class PooledFuzzer {
    var grammar: Grammar
    var grammarKeys: seq<string>
    var keyCost: KeyCost
    var cost: map<string, seq<Entry>>
    var cGrammar: map<string, seq<Rule>>
    var cGrammarKeys: seq<string>
    var pool: map<string, seq<PyTree>>

    /** The state `super().__init__(grammar)` leaves: a copy of the finished analyser. */
    constructor (f: LimitFuzzer)
      ensures grammar == f.grammar && grammarKeys == f.grammarKeys && keyCost == f.keyCost && cost == f.cost
      ensures cGrammar == map[] && cGrammarKeys == [] && pool == map[]
    {
      grammar := f.grammar;
      grammarKeys := f.grammarKeys;
      keyCost := f.keyCost;
      cost := f.cost;
      cGrammar := map[];
      cGrammarKeys := [];
      pool := map[];
    }

    /** The loop that replaces each key's rules by the rules of its sorted cost list. */
    method ReorderRules()
      requires forall k :: k in grammarKeys ==> k in cost
      modifies this
      ensures grammarKeys == old(grammarKeys) && keyCost == old(keyCost) && cost == old(cost)
      ensures grammar == old(grammar).(rules := Reorder(old(grammar).rules, grammarKeys, cost))
      ensures cGrammar == old(cGrammar) && cGrammarKeys == old(cGrammarKeys) && pool == old(pool)
    {
      for i := 0 to |grammarKeys|
        invariant grammarKeys == old(grammarKeys) && keyCost == old(keyCost) && cost == old(cost)
        invariant grammar == old(grammar).(rules := Reorder(old(grammar).rules, grammarKeys[..i], cost))
        invariant cGrammar == old(cGrammar) && cGrammarKeys == old(cGrammarKeys) && pool == old(pool)
      {
        var k := grammarKeys[i];
        grammar := grammar.(rules := grammar.rules[k := RulesOf(cost[k])]);
        assert grammarKeys[..i + 1][..i] == grammarKeys[..i];
      }
      assert grammarKeys[..|grammarKeys|] == grammarKeys;
    }

    /**
     * `PooledFuzzer(grammar)`: run the cost analysis, build the cheap grammar,
     * reorder the rules and draw the pool. Fails with `EmptyCost` exactly when
     * some key derives nothing; the only other failure is running out of
     * recursion depth.
     */
    static method Create(g: Grammar, d: Draws, fuel: nat) returns (r: Result<PooledFuzzer, PoolError>)
      requires g.WellFormed() && ValidDraws(d)
      ensures r.Err? ==> r.error == RecursionLimit || r.error.EmptyCost?
      ensures (r.Err? && r.error.EmptyCost?) <==> exists k :: Unproductive(g, k)
      ensures r.Ok? ==> fresh(r.value) && r.value.grammarKeys == g.keys && r.value.cGrammarKeys == g.keys
      ensures r.Ok? ==> MinimalCosts(g, r.value.keyCost) && Fixpoint(g, r.value.keyCost)
      ensures r.Ok? ==> CostTable(g, r.value.keyCost, r.value.cost)
      ensures r.Ok? ==> r.value.grammar == Grammar(g.keys, Reorder(g.rules, g.keys, r.value.cost))
      ensures r.Ok? ==> CheapGrammar(g.keys, r.value.cost) == Ok(r.value.cGrammar)
      ensures r.Ok? ==> CompletionTrees(r.value.cGrammar, g.keys, g.keys, 0, d, fuel) == Ok(r.value.pool)
    {
      var f := new LimitFuzzer(g);
      var kc, tab := f.keyCost, f.cost;
      var cg := CheapGrammar(f.grammarKeys, tab);
      if cg.Err? {
        CheapGrammarErrors(g, kc, tab);
        return Err(cg.error);
      }
      var p := new PooledFuzzer(f);
      p.cGrammar := cg.value;
      p.cGrammarKeys := f.grammarKeys;
      p.ReorderRules();
      var pr := CompletionTrees(p.cGrammar, p.grammarKeys, p.cGrammarKeys, 0, d, fuel);
      CheapGrammarErrors(g, kc, tab);
      if pr.Err? {
        return Err(pr.error);
      }
      p.pool := pr.value;
      return Ok(p);
    }
  }

  // ---------------------------------------------------------------------
  // A productive grammar whose pool runs out of fuel.
  // ---------------------------------------------------------------------

  /** `<a> ::= <b>` and `<b> ::= <a> | x`: every key derives `x`, and every rule spells one character. */
  function UnitCycle(): (g: Grammar)
    ensures g.WellFormed()
  {
    Grammar(["<a>", "<b>"], map["<a>" := [["<b>"]], "<b>" := [["<a>"], ["x"]]])
  }

  /** Every derivation of a key of `UnitCycle()` spells at least one character. */
  lemma {:induction false} UnitCycleNonEmpty(sym: Token, t: Deriv)
    requires sym in UnitCycle().rules && Derives(UnitCycle(), sym, t)
    ensures Size(t) >= 1
    decreases t
  {
    var r := UnitCycle().rules[sym][t.rule];
    assert |t.kids| == 1 && Derives(UnitCycle(), r[0], t.kids[0]);
    assert SizeAll(t.kids) == Size(t.kids[0]) + SizeAll(t.kids[1..]);
    if r[0] in UnitCycle().rules {
      assert t.kids[0] in t.kids;
      UnitCycleNonEmpty(r[0], t.kids[0]);
    }
  }

  lemma FixpointAt(g: Grammar, kc: KeyCost, k: string, i: nat)
    requires Fixpoint(g, kc) && k in g.rules && i < |g.rules[k]| && RuleCost(g, kc, g.rules[k][i]).Fin?
    ensures k in kc && kc[k] <= RuleCost(g, kc, g.rules[k][i]).n
  {
  }

  lemma MinimalAt(g: Grammar, kc: KeyCost, k: string, t: Deriv)
    requires MinimalCosts(g, kc) && k in g.rules && Derives(g, k, t)
    ensures k in kc && kc[k] <= Size(t)
  {
  }

  lemma MinimalAttained(g: Grammar, kc: KeyCost, k: string) returns (t: Deriv)
    requires MinimalCosts(g, kc) && k in g.rules && k in kc
    ensures Derives(g, k, t) && Size(t) == kc[k]
  {
    t :| Derives(g, k, t) && Size(t) == kc[k];
  }

  lemma RuleCostOne(g: Grammar, kc: KeyCost, sym: Token)
    ensures RuleCost(g, kc, [sym]) == SymbolCost(g, kc, sym)
  {
    assert [sym][..0] == [];
  }

  /** The analyser gives both keys of `UnitCycle()` cost 1. */
  lemma UnitCycleCosts(kc: KeyCost)
    requires Fixpoint(UnitCycle(), kc) && MinimalCosts(UnitCycle(), kc)
    ensures forall k :: k in UnitCycle().rules ==> k in kc && kc[k] == 1
  {
    var g := UnitCycle();
    var x := Node("<b>", 1, [Leaf("x")]);
    assert Derives(g, "<b>", x) by {
      assert g.rules["<b>"][1] == ["x"];
      assert Derives(g, "x", Leaf("x"));
    }
    assert Size(x) == 1 by {
      assert SizeAll([Leaf("x")]) == Size(Leaf("x")) + SizeAll([]);
    }
    MinimalAt(g, kc, "<b>", x);
    RuleCostOne(g, kc, "<b>");
    RuleCostOne(g, kc, "<a>");
    assert g.rules["<a>"][0] == ["<b>"] && g.rules["<b>"][0] == ["<a>"];
    FixpointAt(g, kc, "<a>", 0);
    FixpointAt(g, kc, "<b>", 0);
    var t := MinimalAttained(g, kc, "<a>");
    UnitCycleNonEmpty("<a>", t);
  }

  lemma CostTableAt(g: Grammar, kc: KeyCost, tab: map<string, seq<Entry>>, k: string)
    requires CostTable(g, kc, tab) && k in g.rules
    ensures k in tab && tab[k] == SortEntries(Entries(g, kc, g.rules[k]))
  {
  }

  /** With both keys at cost 1, the table lists every rule of `UnitCycle()` at cost 1, in rule order. */
  lemma UnitCycleTable(kc: KeyCost, tab: map<string, seq<Entry>>)
    requires CostTable(UnitCycle(), kc, tab)
    requires forall k :: k in UnitCycle().rules ==> k in kc && kc[k] == 1
    ensures forall k :: k in UnitCycle().keys ==> k in tab
    ensures tab["<a>"] == [(1, ["<b>"])] && tab["<b>"] == [(1, ["<a>"]), (1, ["x"])]
  {
    var g := UnitCycle();
    RuleCostOne(g, kc, "<a>");
    RuleCostOne(g, kc, "<b>");
    RuleCostOne(g, kc, "x");
    CostTableAt(g, kc, tab, "<a>");
    CostTableAt(g, kc, tab, "<b>");
    assert Entries(g, kc, [["<b>"]]) == [(1, ["<b>"])];
    assert Entries(g, kc, [["x"]]) == [(1, ["x"])];
    assert Entries(g, kc, [["<a>"], ["x"]]) == [(1, ["<a>"]), (1, ["x"])] by {
      assert [["<a>"], ["x"]][1..] == [["x"]];
    }
    assert EntryLe((1, ["<a>"]), (1, ["x"])) by {
      assert Text.StrLe("<a>", "x");
    }
    assert SortEntries([(1, ["x"])]) == [(1, ["x"])];
  }

  lemma CheapOfUnitTable(tab: map<string, seq<Entry>>)
    requires "<a>" in tab && "<b>" in tab
    requires tab["<a>"] == [(1, ["<b>"])] && tab["<b>"] == [(1, ["<a>"]), (1, ["x"])]
    ensures CheapGrammar(UnitCycle().keys, tab) == Ok(UnitCycle().rules)
  {
    var eb := tab["<b>"];
    var tl: seq<Entry> := [(1, ["x"])];
    assert eb[1..] == tl;
    assert RulesAt(tl, 1) == [["x"]] by {
      assert tl[1..] == [];
    }
    assert CheapRules(eb) == [["<a>"], ["x"]];
    assert CheapRules(tab["<a>"]) == [["<b>"]] by {
      assert tab["<a>"][1..] == [];
    }
    var keys := UnitCycle().keys;
    assert keys[1..] == ["<b>"] && keys[1..][1..] == [];
    assert CheapGrammar(keys[1..], tab) == Ok(map["<b>" := [["<a>"], ["x"]]]);
    assert CheapGrammar(keys, tab) == Ok(map["<b>" := [["<a>"], ["x"]], "<a>" := [["<b>"]]]);
    assert UnitCycle().rules == map["<b>" := [["<a>"], ["x"]], "<a>" := [["<b>"]]];
  }

  /**
   * With every rule of `UnitCycle()` costing 1, `cheap_grammar` keeps all
   * three, and with them the cycle `<a> -> <b> -> <a>`.
   */
  lemma UnitCycleCheap(kc: KeyCost, tab: map<string, seq<Entry>>)
    requires Fixpoint(UnitCycle(), kc) && MinimalCosts(UnitCycle(), kc) && CostTable(UnitCycle(), kc, tab)
    ensures forall k :: k in UnitCycle().keys ==> k in tab
    ensures CheapGrammar(UnitCycle().keys, tab) == Ok(UnitCycle().rules)
  {
    UnitCycleCosts(kc);
    UnitCycleTable(kc, tab);
    CheapOfUnitTable(tab);
  }

  /**
   * `get_trees_for_key` on the cheap grammar of `UnitCycle()` never returns,
   * however deep the recursion is allowed to go: both keys run out of fuel,
   * whatever rules `random.sample` draws and in whatever order.
   */
  lemma {:induction false} UnitCycleNeverEnds(d: Draws, path: seq<nat>, fuel: nat)
    requires ValidDraws(d)
    ensures TreesForKey(UnitCycle().rules, UnitCycle().keys, "<a>", d, path, fuel) == Err(RecursionLimit)
    ensures TreesForKey(UnitCycle().rules, UnitCycle().keys, "<b>", d, path, fuel) == Err(RecursionLimit)
    decreases fuel
  {
    var g := UnitCycle().rules;
    var keys := UnitCycle().keys;
    if fuel > 0 {
      UnitCycleNeverEnds(d, path + [0] + [0], fuel - 1);
      var selA := d.sample(path, 1);
      assert IsSample(selA, 1);
      assert selA == [0];
      assert Options(g, keys, ["<b>"], 0, d, path + [0], fuel) == Err(RecursionLimit);
      assert TreesForRule(g, keys, "<a>", 0, d, path + [0], fuel) == Err(RecursionLimit);
      var selB := d.sample(path, 2);
      assert IsSample(selB, 2);
      assert Options(g, keys, ["<a>"], 0, d, path + [0], fuel) == Err(RecursionLimit);
      UnitCycleNeverEnds(d, path + [1] + [0], fuel - 1);
      assert Options(g, keys, ["<a>"], 0, d, path + [1], fuel) == Err(RecursionLimit);
      assert TreesForRule(g, keys, "<b>", 0, d, path + [1], fuel) == Err(RecursionLimit);
      if selB[0] == 0 {
        assert TreesForRule(g, keys, "<b>", 0, d, path + [0], fuel) == Err(RecursionLimit);
      } else {
        assert selB == [1, 0];
        assert TreesForRule(g, keys, "<b>", 1, d, path + [0], fuel).Ok? by {
          assert Options(g, keys, ["x"], 1, d, path + [0], fuel) == Ok([]);
          assert KeyId(keys, "<b>").Some?;
        }
        assert TreesForRules(g, keys, "<b>", selB, 1, d, path, fuel) == Err(RecursionLimit);
      }
    }
  }

  /**
   * `PooledFuzzer.__init__` on `UnitCycle()`: every key is productive, yet
   * `completion_trees` stops with the recursion error for every fuel.
   */
  lemma UnitCyclePoolFails(kc: KeyCost, tab: map<string, seq<Entry>>, d: Draws, fuel: nat)
    requires Fixpoint(UnitCycle(), kc) && MinimalCosts(UnitCycle(), kc) && CostTable(UnitCycle(), kc, tab)
    requires ValidDraws(d)
    ensures forall k :: k in UnitCycle().rules ==> !Unproductive(UnitCycle(), k)
    ensures forall k :: k in UnitCycle().keys ==> k in tab
    ensures CheapGrammar(UnitCycle().keys, tab).Ok?
    ensures CompletionTrees(CheapGrammar(UnitCycle().keys, tab).value, UnitCycle().keys, UnitCycle().keys, 0, d, fuel)
      == Err(RecursionLimit)
  {
    UnitCycleCheap(kc, tab);
    CheapGrammarErrors(UnitCycle(), kc, tab);
    UnitCycleNeverEnds(d, [0], fuel);
    assert UnitCycle().keys[0] == "<a>";
  }
}
