/**
 * The older compiler's pool of completion strings
 * (`PooledFuzzer.get_strings_for_key` / `get_strings_for_rule` in
 * examples/f1_c_gen.py): every completion of a key in the cheap grammar,
 * built bottom-up as the cartesian product of its tokens' completions, and
 * thinned to at most `MAX_SAMPLE` strings by a random sample at every step.
 */
module StringPool {
  import opened Wrappers
  import opened Text
  import opened Grammars
  import opened Pool

  /** `[a + b for b in ys]`. */
  function Prefixed(a: string, ys: seq<string>): (r: seq<string>)
    ensures |r| == |ys| && forall k :: 0 <= k < |ys| ==> r[k] == a + ys[k]
  {
    seq(|ys|, k requires 0 <= k < |ys| => a + ys[k])
  }

  /** Every `a + b` with `a` from `xs` and `b` from `ys`, the first factor varying slowest. */
  function Pairs(xs: seq<string>, ys: seq<string>): (r: seq<string>)
    ensures |r| == |xs| * |ys|
  {
    if xs == [] then [] else Prefixed(xs[0], ys) + Pairs(xs[1..], ys)
  }

  /** `[''.join(l) for l in itertools.product(*lists)]`. */
  function Cartesian(lists: seq<seq<string>>): seq<string>
  {
    if lists == [] then [""] else Pairs(lists[0], Cartesian(lists[1..]))
  }

  /** `cs` takes one string from each list. */
  ghost predicate OnePerList(lists: seq<seq<string>>, cs: seq<string>)
  {
    |cs| == |lists| && forall j :: 0 <= j < |cs| ==> cs[j] in lists[j]
  }

  lemma {:induction false} PairsSpec(xs: seq<string>, ys: seq<string>, s: string)
    ensures s in Pairs(xs, ys) <==> exists a, b :: a in xs && b in ys && s == a + b
  {
    if xs != [] {
      PairsSpec(xs[1..], ys, s);
      assert forall a :: a in xs <==> a == xs[0] || a in xs[1..] by {
        assert xs == [xs[0]] + xs[1..];
      }
      if s in Prefixed(xs[0], ys) {
        var k :| 0 <= k < |ys| && Prefixed(xs[0], ys)[k] == s;
        assert xs[0] in xs && ys[k] in ys && s == xs[0] + ys[k];
      }
      if exists b :: b in ys && s == xs[0] + b {
        var b :| b in ys && s == xs[0] + b;
        var k :| 0 <= k < |ys| && ys[k] == b;
        assert Prefixed(xs[0], ys)[k] == s;
      }
    }
  }

  /** Every string of the product concatenates one string from each list. */
  lemma {:induction false} CartesianSound(lists: seq<seq<string>>, s: string) returns (cs: seq<string>)
    requires s in Cartesian(lists)
    ensures OnePerList(lists, cs) && s == Concat(cs)
  {
    if lists == [] {
      cs := [];
    } else {
      PairsSpec(lists[0], Cartesian(lists[1..]), s);
      var a, b :| a in lists[0] && b in Cartesian(lists[1..]) && s == a + b;
      var rest := CartesianSound(lists[1..], b);
      cs := [a] + rest;
      assert cs[1..] == rest;
      forall j | 0 <= j < |cs| ensures cs[j] in lists[j] {
        if j > 0 {
          assert cs[j] == rest[j - 1] && lists[j] == lists[1..][j - 1];
        }
      }
    }
  }

  /** Every choice of one string from each list is in the product. */
  lemma {:induction false} CartesianComplete(lists: seq<seq<string>>, cs: seq<string>)
    requires OnePerList(lists, cs)
    ensures Concat(cs) in Cartesian(lists)
  {
    if lists != [] {
      assert OnePerList(lists[1..], cs[1..]) by {
        forall j | 0 <= j < |cs| - 1 ensures cs[1..][j] in lists[1..][j] {
          assert cs[j + 1] in lists[j + 1];
        }
      }
      CartesianComplete(lists[1..], cs[1..]);
      PairsSpec(lists[0], Cartesian(lists[1..]), Concat(cs));
      assert cs[0] in lists[0];
    }
  }

  /** A string of the product is exactly the concatenation of one string from each list. */
  lemma CartesianSpec(lists: seq<seq<string>>, s: string)
    ensures s in Cartesian(lists) <==> exists cs :: OnePerList(lists, cs) && s == Concat(cs)
  {
    if s in Cartesian(lists) {
      var cs := CartesianSound(lists, s);
    }
    if exists cs :: OnePerList(lists, cs) && s == Concat(cs) {
      var cs :| OnePerList(lists, cs) && s == Concat(cs);
      CartesianComplete(lists, cs);
    }
  }

  /** `random.sample(v, len(idx))`, drawn at the indices `idx`. */
  function Sample(v: seq<string>, idx: seq<nat>): (r: seq<string>)
    requires IsSample(idx, |v|)
    ensures |r| == Min(MAX_SAMPLE, |v|) && forall i :: 0 <= i < |r| ==> r[i] in v
  {
    seq(|idx|, i requires 0 <= i < |idx| => v[idx[i]])
  }

  /**
   * `get_strings_for_key(grammar, key)` for the call at position `path`: the
   * token itself for a non-key, otherwise a sample of its rules' strings,
   * concatenated in rule order.
   */
  function StringsForKey(g: map<string, seq<Rule>>, key: string, d: Draws, path: seq<nat>, fuel: nat)
    : (r: Result<seq<string>, PoolError>)
    requires ValidDraws(d)
    ensures key !in g ==> r == Ok([key])
    ensures r.Ok? ==> |r.value| <= MAX_SAMPLE
    ensures r.Err? ==> r.error == RecursionLimit
    decreases fuel, 0
  {
    if key !in g then Ok([key])
    else if fuel == 0 then Err(RecursionLimit)
    else
      match StringsForRules(g, g[key], 0, d, path, fuel - 1)
      case Err(e) => Err(e)
      case Ok(v) =>
        assert IsSample(d.sample(path, |v|), |v|);
        Ok(Sample(v, d.sample(path, |v|)))
  }

  /** `sum([get_strings_for_rule(grammar, rule) for rule in rules[i..]], [])`. */
  function StringsForRules(g: map<string, seq<Rule>>, rules: seq<Rule>, i: nat, d: Draws, path: seq<nat>, fuel: nat)
    : (r: Result<seq<string>, PoolError>)
    requires ValidDraws(d) && i <= |rules|
    ensures r.Ok? ==> |r.value| <= MAX_SAMPLE * (|rules| - i)
    ensures r.Err? ==> r.error == RecursionLimit
    decreases fuel, 3, |rules| - i
  {
    if i == |rules| then Ok([])
    else
      match StringsForRule(g, rules[i], d, path + [i], fuel)
      case Err(e) => Err(e)
      case Ok(v) =>
        match StringsForRules(g, rules, i + 1, d, path, fuel)
        case Err(e) => Err(e)
        case Ok(more) => Ok(v + more)
  }

  /** `get_strings_for_rule`: a sample of the product of the tokens' strings. */
  function StringsForRule(g: map<string, seq<Rule>>, rule: Rule, d: Draws, path: seq<nat>, fuel: nat)
    : (r: Result<seq<string>, PoolError>)
    requires ValidDraws(d)
    ensures r.Ok? ==> |r.value| <= MAX_SAMPLE
    ensures r.Err? ==> r.error == RecursionLimit
    decreases fuel, 2
  {
    match TokenStrings(g, rule, 0, d, path, fuel)
    case Err(e) => Err(e)
    case Ok(lists) =>
      var v := Cartesian(lists);
      assert IsSample(d.sample(path, |v|), |v|);
      Ok(Sample(v, d.sample(path, |v|)))
  }

  /** `my_strings_list` for the tokens `rule[i..]`. */
  function TokenStrings(g: map<string, seq<Rule>>, rule: Rule, i: nat, d: Draws, path: seq<nat>, fuel: nat)
    : (r: Result<seq<seq<string>>, PoolError>)
    requires ValidDraws(d) && i <= |rule|
    ensures r.Ok? ==> |r.value| == |rule| - i
    ensures r.Err? ==> r.error == RecursionLimit
    decreases fuel, 1, |rule| - i
  {
    if i == |rule| then Ok([])
    else
      match StringsForKey(g, rule[i], d, path + [i], fuel)
      case Err(e) => Err(e)
      case Ok(ss) =>
        match TokenStrings(g, rule, i + 1, d, path, fuel)
        case Err(e) => Err(e)
        case Ok(more) => Ok([ss] + more)
  }

  // ---------------------------------------------------------------------
  // Every pooled string is a sentence of the grammar it was drawn from.
  // ---------------------------------------------------------------------

  /** `s` is the yield of some derivation of `sym` in `g`. */
  ghost predicate Spells(g: Grammar, sym: Token, s: string)
  {
    exists t :: Derives(g, sym, t) && Yield(t) == s
  }

  /** `s` is the yield of some derivation of the tokens of `rule`. */
  ghost predicate SpellsAll(g: Grammar, rule: Rule, s: string)
  {
    exists ts :: DerivesAll(g, rule, ts) && YieldAll(ts) == s
  }

  lemma {:induction false} KeyStringsSound(g: Grammar, key: Token, d: Draws, path: seq<nat>, fuel: nat)
    requires ValidDraws(d) && StringsForKey(g.rules, key, d, path, fuel).Ok?
    ensures forall s :: s in StringsForKey(g.rules, key, d, path, fuel).value ==> Spells(g, key, s)
    decreases fuel, 0
  {
    if key !in g.rules {
      assert Derives(g, key, Leaf(key)) && Yield(Leaf(key)) == key;
    } else {
      RulesStringsSound(g, key, 0, d, path, fuel - 1);
      forall s | s in StringsForKey(g.rules, key, d, path, fuel).value ensures Spells(g, key, s) {
        var v := StringsForRules(g.rules, g.rules[key], 0, d, path, fuel - 1).value;
        assert s in v;
        var ri, ts :| 0 <= ri < |g.rules[key]| && DerivesAll(g, g.rules[key][ri], ts) && YieldAll(ts) == s;
        assert Derives(g, key, Node(key, ri, ts)) && Yield(Node(key, ri, ts)) == s;
      }
    }
  }

  lemma {:induction false} RulesStringsSound(g: Grammar, key: Token, i: nat, d: Draws, path: seq<nat>, fuel: nat)
    requires ValidDraws(d) && key in g.rules && i <= |g.rules[key]|
    requires StringsForRules(g.rules, g.rules[key], i, d, path, fuel).Ok?
    ensures forall s :: s in StringsForRules(g.rules, g.rules[key], i, d, path, fuel).value ==>
      exists ri, ts :: i <= ri < |g.rules[key]| && DerivesAll(g, g.rules[key][ri], ts) && YieldAll(ts) == s
    decreases fuel, 3, |g.rules[key]| - i
  {
    var rules := g.rules[key];
    if i < |rules| {
      RuleStringsSound(g, rules[i], d, path + [i], fuel);
      RulesStringsSound(g, key, i + 1, d, path, fuel);
      var v := StringsForRule(g.rules, rules[i], d, path + [i], fuel).value;
      var more := StringsForRules(g.rules, rules, i + 1, d, path, fuel).value;
      forall s | s in StringsForRules(g.rules, rules, i, d, path, fuel).value
        ensures exists ri, ts :: i <= ri < |rules| && DerivesAll(g, rules[ri], ts) && YieldAll(ts) == s
      {
        assert s in v + more;
        if s in v {
          var ts :| DerivesAll(g, rules[i], ts) && YieldAll(ts) == s;
          assert i <= i < |rules| && DerivesAll(g, rules[i], ts) && YieldAll(ts) == s;
        } else {
          assert s in more;
          var ri, ts :| i + 1 <= ri < |rules| && DerivesAll(g, rules[ri], ts) && YieldAll(ts) == s;
          assert i <= ri < |rules| && DerivesAll(g, rules[ri], ts) && YieldAll(ts) == s;
        }
      }
      assert forall s :: s in StringsForRules(g.rules, g.rules[key], i, d, path, fuel).value ==>
        exists ri, ts :: i <= ri < |g.rules[key]| && DerivesAll(g, g.rules[key][ri], ts) && YieldAll(ts) == s;
    } else {
      assert StringsForRules(g.rules, rules, i, d, path, fuel).value == [];
    }
  }

  lemma {:induction false} RuleStringsSound(g: Grammar, rule: Rule, d: Draws, path: seq<nat>, fuel: nat)
    requires ValidDraws(d) && StringsForRule(g.rules, rule, d, path, fuel).Ok?
    ensures forall s :: s in StringsForRule(g.rules, rule, d, path, fuel).value ==> SpellsAll(g, rule, s)
    decreases fuel, 2
  {
    var lists := TokenStrings(g.rules, rule, 0, d, path, fuel).value;
    TokenStringsSound(g, rule, 0, d, path, fuel);
    forall s | s in StringsForRule(g.rules, rule, d, path, fuel).value ensures SpellsAll(g, rule, s) {
      var cs := CartesianSound(lists, s);
      SpellsConcat(g, rule, cs);
    }
  }

  /** Spelling each token of a rule spells the whole rule. */
  lemma SpellsConcat(g: Grammar, rule: Rule, cs: seq<string>)
    requires |cs| == |rule| && forall j :: 0 <= j < |rule| ==> Spells(g, rule[j], cs[j])
    ensures SpellsAll(g, rule, Concat(cs))
  {
    var ts := seq(|rule|, j requires 0 <= j < |rule| => var t :| Derives(g, rule[j], t) && Yield(t) == cs[j]; t);
    YieldsConcat(ts, cs);
  }

  lemma {:induction false} YieldsConcat(ts: seq<Deriv>, cs: seq<string>)
    requires |ts| == |cs| && forall j :: 0 <= j < |ts| ==> Yield(ts[j]) == cs[j]
    ensures YieldAll(ts) == Concat(cs)
  {
    if ts != [] {
      YieldsConcat(ts[1..], cs[1..]);
    }
  }

  lemma {:induction false} TokenStringsSound(g: Grammar, rule: Rule, i: nat, d: Draws, path: seq<nat>, fuel: nat)
    requires ValidDraws(d) && i <= |rule| && TokenStrings(g.rules, rule, i, d, path, fuel).Ok?
    ensures forall j, s :: 0 <= j < |rule| - i && s in TokenStrings(g.rules, rule, i, d, path, fuel).value[j] ==>
      Spells(g, rule[i + j], s)
    decreases fuel, 1, |rule| - i
  {
    if i < |rule| {
      KeyStringsSound(g, rule[i], d, path + [i], fuel);
      TokenStringsSound(g, rule, i + 1, d, path, fuel);
      var lists := TokenStrings(g.rules, rule, i, d, path, fuel).value;
      var more := TokenStrings(g.rules, rule, i + 1, d, path, fuel).value;
      assert forall j :: 1 <= j < |lists| ==> lists[j] == more[j - 1];
    }
  }

  /**
   * `completion_strings`: the pooled strings of each key, drawn at position
   * `[i]` for the `i`-th key of `ks`; the first failure stops it.
   */
  function CompletionStrings(g: map<string, seq<Rule>>, ks: seq<string>, i: nat, d: Draws, fuel: nat)
    : (r: Result<map<string, seq<string>>, PoolError>)
    requires ValidDraws(d) && i <= |ks|
    ensures r.Ok? ==> forall k :: k in r.value <==> k in ks[i..]
    ensures r.Err? ==> r.error == RecursionLimit
    decreases |ks| - i
  {
    if i == |ks| then Ok(map[])
    else
      match StringsForKey(g, ks[i], d, [i], fuel)
      case Err(e) => Err(e)
      case Ok(ss) =>
        match CompletionStrings(g, ks, i + 1, d, fuel)
        case Err(e) => Err(e)
        case Ok(m) =>
          assert forall k :: k in ks[i..] <==> k == ks[i] || k in ks[i + 1..] by {
            assert ks[i..] == [ks[i]] + ks[i + 1..];
          }
          Ok(m[ks[i] := ss])
  }

  /** Every string of the pool spells its key in the grammar it was drawn from. */
  lemma {:induction false} CompletionStringsSound(g: Grammar, ks: seq<string>, i: nat, d: Draws, fuel: nat)
    requires ValidDraws(d) && i <= |ks| && CompletionStrings(g.rules, ks, i, d, fuel).Ok?
    ensures var m := CompletionStrings(g.rules, ks, i, d, fuel).value;
      forall k, s :: k in m && s in m[k] ==> Spells(g, k, s)
    decreases |ks| - i
  {
    if i < |ks| {
      KeyStringsSound(g, ks[i], d, [i], fuel);
      CompletionStringsSound(g, ks, i + 1, d, fuel);
    }
  }
}
