/**
 * The recursion analysis of the older grammar compiler
 * (`PyRecCompiledFuzzer` in examples/f1_c_gen.py): whether a rule can reach
 * itself through the rules of the keys it mentions, whether a key can reach
 * itself, and the two tables `compute_rule_recursion` fills.
 *
 * A rule is named by its key and its index (`gen_<key>_<i>`); the searches
 * carry a set of names seen on the current path, which only grows along it.
 */
module Recursion {
  import opened Grammars

  /** The name `gen_<key>_<i>` of rule `i` of `key`, as the pair itself. */
  type RuleName = (string, nat)

  /** Every rule name of the grammar. */
  function Names(g: Grammar): set<RuleName>
  {
    set k, i | k in g.rules && 0 <= i < |g.rules[k]| :: (k, i)
  }

  predicate ValidName(g: Grammar, n: RuleName)
  {
    n.0 in g.rules && n.1 < |g.rules[n.0]|
  }

  /** The rule a name stands for (empty for a name that is not one). */
  function RuleOf(g: Grammar, n: RuleName): Rule
  {
    if ValidName(g, n) then g.rules[n.0][n.1] else []
  }

  // ---------------------------------------------------------------------
  // is_rule_recursive
  // ---------------------------------------------------------------------

  /** How the scan of one key's alternatives ends: `return True`, `return False`, or on to the next token. */
  datatype Scan = Found | Abandon | Continue

  /**
   * `is_rule_recursive(rname, rule, seen)`: false for an empty rule or a name
   * already seen; otherwise scan the rule's key tokens.
   */
  function IsRuleRecursive(g: Grammar, rname: RuleName, rule: Rule, seen: set<RuleName>): bool
    decreases |Names(g) - seen|, 2, 0
  {
    if rule == [] then false
    else if rname in seen then false
    else ScanTokens(g, rname, rule, 0, seen)
  }

  /** The loop over `rule`'s tokens from position `t`, skipping the non-keys. */
  function ScanTokens(g: Grammar, rname: RuleName, rule: Rule, t: nat, seen: set<RuleName>): bool
    requires t <= |rule|
    decreases |Names(g) - seen|, 1, |rule| - t
  {
    if t == |rule| then false
    else if rule[t] !in g.rules then ScanTokens(g, rname, rule, t + 1, seen)
    else
      match ScanAlts(g, rname, rule[t], 0, seen)
      case Found => true
      case Abandon => false
      case Continue => ScanTokens(g, rname, rule, t + 1, seen)
  }

  /**
   * The inner loop over the alternatives of `key` from index `i`: the target
   * name is found, a name already seen abandons the whole search, and any
   * other alternative is searched with its name added to `seen`.
   */
  function ScanAlts(g: Grammar, rname: RuleName, key: string, i: nat, seen: set<RuleName>): Scan
    requires key in g.rules && i <= |g.rules[key]|
    decreases |Names(g) - seen|, 0, |g.rules[key]| - i
  {
    if i == |g.rules[key]| then Continue
    else
      var rn := (key, i);
      if rn == rname then Found
      else if rn in seen then Abandon
      else
        assert rn in Names(g) - seen;
        assert Names(g) - seen == (Names(g) - (seen + {rn})) + {rn};
        if IsRuleRecursive(g, rname, g.rules[key][i], seen + {rn}) then Found
        else ScanAlts(g, rname, key, i + 1, seen)
  }

  /** `p` is a chain of rule names, each rule mentioning the key of the next. */
  ghost predicate Chain(g: Grammar, p: seq<RuleName>)
  {
    p != [] && (forall i :: 0 <= i < |p| ==> ValidName(g, p[i])) &&
    forall i :: 0 <= i < |p| - 1 ==> p[i + 1].0 in RuleOf(g, p[i])
  }

  /** `rule` leads to the rule named `rname` through a chain of rules. */
  ghost predicate ReachesRule(g: Grammar, rule: Rule, rname: RuleName)
  {
    exists p: seq<RuleName> :: Chain(g, p) && p[0].0 in rule && p[|p| - 1] == rname
  }

  lemma ChainCons(g: Grammar, rn: RuleName, p: seq<RuleName>)
    requires ValidName(g, rn) && Chain(g, p) && p[0].0 in RuleOf(g, rn)
    ensures Chain(g, [rn] + p)
  {
    var q := [rn] + p;
    forall i | 0 <= i < |q| - 1 ensures q[i + 1].0 in RuleOf(g, q[i]) {
      if i > 0 {
        assert q[i] == p[i - 1] && q[i + 1] == p[i];
      }
    }
  }

  /**
   * A positive answer is sound: the rule really reaches the named rule (and
   * the answer is negative for an empty rule or a name already seen).
   */
  lemma {:induction false} RuleRecursiveSound(g: Grammar, rname: RuleName, rule: Rule, seen: set<RuleName>)
    returns (p: seq<RuleName>)
    requires IsRuleRecursive(g, rname, rule, seen)
    ensures rule != [] && rname !in seen
    ensures Chain(g, p) && p[0].0 in rule && p[|p| - 1] == rname
    decreases |Names(g) - seen|, 2, 0
  {
    p := TokensSound(g, rname, rule, 0, seen);
  }

  lemma {:induction false} TokensSound(g: Grammar, rname: RuleName, rule: Rule, t: nat, seen: set<RuleName>)
    returns (p: seq<RuleName>)
    requires t <= |rule| && ScanTokens(g, rname, rule, t, seen)
    ensures Chain(g, p) && p[0].0 in rule[t..] && p[|p| - 1] == rname
    decreases |Names(g) - seen|, 1, |rule| - t
  {
    if rule[t] !in g.rules || ScanAlts(g, rname, rule[t], 0, seen) == Continue {
      p := TokensSound(g, rname, rule, t + 1, seen);
    } else {
      p := AltsSound(g, rname, rule[t], 0, seen);
    }
  }

  lemma {:induction false} AltsSound(g: Grammar, rname: RuleName, key: string, i: nat, seen: set<RuleName>)
    returns (p: seq<RuleName>)
    requires key in g.rules && i <= |g.rules[key]| && ScanAlts(g, rname, key, i, seen) == Found
    ensures Chain(g, p) && p[0].0 == key && p[|p| - 1] == rname
    decreases |Names(g) - seen|, 0, |g.rules[key]| - i
  {
    var rn := (key, i);
    if rn == rname {
      p := [rn];
    } else {
      assert rn in Names(g) - seen;
      assert Names(g) - seen == (Names(g) - (seen + {rn})) + {rn};
      if IsRuleRecursive(g, rname, g.rules[key][i], seen + {rn}) {
        var q := RuleRecursiveSound(g, rname, g.rules[key][i], seen + {rn});
        ChainCons(g, rn, q);
        p := [rn] + q;
      } else {
        p := AltsSound(g, rname, key, i + 1, seen);
      }
    }
  }

  /** The grammar `<a> ::= <b>`, `<b> ::= <b> <a>`. */
  function SelfLoopGrammar(): Grammar
  {
    Grammar(["<a>", "<b>"], map["<a>" := [["<b>"]], "<b>" := [["<b>", "<a>"]]])
  }

  /**
   * Meeting a name already seen ends the whole search with False, even when a
   * later token would lead back: rule 0 of `<a>` reaches itself through
   * `<b> ::= <b> <a>`, yet the search stops at the first `<b>` of that rule.
   */
  lemma RuleRecursionAbandons()
    ensures ReachesRule(SelfLoopGrammar(), ["<b>"], ("<a>", 0))
    ensures !IsRuleRecursive(SelfLoopGrammar(), ("<a>", 0), ["<b>"], {})
  {
    var g := SelfLoopGrammar();
    var p := [("<b>", 0), ("<a>", 0)];
    assert Chain(g, p) && p[0].0 in ["<b>"];
    assert ScanAlts(g, ("<a>", 0), "<b>", 0, {("<b>", 0)}) == Abandon;
    assert !ScanTokens(g, ("<a>", 0), ["<b>", "<a>"], 0, {("<b>", 0)});
    assert !IsRuleRecursive(g, ("<a>", 0), ["<b>", "<a>"], {("<b>", 0)});
    assert ScanAlts(g, ("<a>", 0), "<b>", 1, {}) == Continue;
    assert g.rules["<b>"][0] == ["<b>", "<a>"];
    var none: set<RuleName> := {};
    assert none + {("<b>", 0)} == {("<b>", 0)};
    assert ScanAlts(g, ("<a>", 0), "<b>", 0, {}) == Continue;
  }

  // ---------------------------------------------------------------------
  // is_key_recursive, as written and corrected.
  // ---------------------------------------------------------------------

  /** Some rule of key `a` mentions key `b`. */
  ghost predicate Ref(g: Grammar, a: string, b: string)
  {
    a in g.rules && b in g.rules &&
    exists r, t :: 0 <= r < |g.rules[a]| && 0 <= t < |g.rules[a][r]| && g.rules[a][r][t] == b
  }

  /** `p` is a path of one or more references between keys. */
  ghost predicate KeyPath(g: Grammar, p: seq<string>)
  {
    |p| >= 2 && forall i :: 0 <= i < |p| - 1 ==> Ref(g, p[i], p[i + 1])
  }

  /** `k` reaches itself through one or more references. */
  ghost predicate ReachesSelf(g: Grammar, k: string)
  {
    exists p :: KeyPath(g, p) && p[0] == k && p[|p| - 1] == k
  }

  /**
   * `is_key_recursive(check, key, seen)` as written: the recursive call gets
   * `seen | {token}` and the callee starts by returning False for a key in
   * `seen`, so no nested call can succeed.
   */
  function IsKeyRecursive(g: Grammar, check: string, key: string, seen: set<string>): bool
    decreases if key in g.rules && key !in seen then 1 else 0, 1, 0, 0
  {
    if key !in g.rules then false
    else if key in seen then false
    else KeyScan(g, check, key, seen, 0, 0)
  }

  /** The loops over the rules of `key` from `r` and the tokens of rule `r` from `t`. */
  function KeyScan(g: Grammar, check: string, key: string, seen: set<string>, r: nat, t: nat): bool
    requires key in g.rules && key !in seen && r <= |g.rules[key]|
    requires r < |g.rules[key]| ==> t <= |g.rules[key][r]|
    decreases 1, 0, |g.rules[key]| - r, if r < |g.rules[key]| then |g.rules[key][r]| - t else 0
  {
    if r == |g.rules[key]| then false
    else if t == |g.rules[key][r]| then KeyScan(g, check, key, seen, r + 1, 0)
    else
      var token := g.rules[key][r][t];
      if token !in g.rules then KeyScan(g, check, key, seen, r, t + 1)
      else if token == check then true
      else if IsKeyRecursive(g, check, token, seen + {token}) then true
      else KeyScan(g, check, key, seen, r, t + 1)
  }

  /** Rule `r` of `key`, from token `t` on, or a later rule, mentions `check`. */
  ghost predicate DirectFrom(g: Grammar, check: string, key: string, r: nat, t: nat)
    requires key in g.rules
  {
    check in g.rules &&
    exists r', t' :: r <= r' < |g.rules[key]| && 0 <= t' < |g.rules[key][r']| &&
      (r' > r || t' >= t) && g.rules[key][r'][t'] == check
  }

  lemma {:induction false} KeyScanDirect(g: Grammar, check: string, key: string, seen: set<string>, r: nat, t: nat)
    requires key in g.rules && key !in seen && r <= |g.rules[key]|
    requires r < |g.rules[key]| ==> t <= |g.rules[key][r]|
    ensures KeyScan(g, check, key, seen, r, t) <==> DirectFrom(g, check, key, r, t)
    decreases |g.rules[key]| - r, if r < |g.rules[key]| then |g.rules[key][r]| - t else 0
  {
    if r < |g.rules[key]| {
      if t == |g.rules[key][r]| {
        KeyScanDirect(g, check, key, seen, r + 1, 0);
        if DirectFrom(g, check, key, r, t) {
          var r', t' :| r <= r' < |g.rules[key]| && 0 <= t' < |g.rules[key][r']| &&
            (r' > r || t' >= t) && g.rules[key][r'][t'] == check;
          assert r' > r;
        }
      } else {
        KeyScanDirect(g, check, key, seen, r, t + 1);
        var token := g.rules[key][r][t];
        if token in g.rules {
          assert !IsKeyRecursive(g, check, token, seen + {token});
        }
        if DirectFrom(g, check, key, r, t) && !DirectFrom(g, check, key, r, t + 1) {
          var r', t' :| r <= r' < |g.rules[key]| && 0 <= t' < |g.rules[key][r']| &&
            (r' > r || t' >= t) && g.rules[key][r'][t'] == check;
          assert r' == r && t' == t;
        }
      }
    }
  }

  /**
   * As written, `is_key_recursive(k, k, set())` holds exactly when some rule
   * of `k` mentions `k` itself: only direct recursion is detected.
   */
  lemma KeyRecursionDirectOnly(g: Grammar, k: string)
    requires k in g.rules
    ensures IsKeyRecursive(g, k, k, {}) <==>
      exists r, t :: 0 <= r < |g.rules[k]| && 0 <= t < |g.rules[k][r]| && g.rules[k][r][t] == k
  {
    KeyScanDirect(g, k, k, {}, 0, 0);
  }

  /** The grammar `<a> ::= <b>`, `<b> ::= <a>`. */
  function MutualGrammar(): Grammar
  {
    Grammar(["<a>", "<b>"], map["<a>" := [["<b>"]], "<b>" := [["<a>"]]])
  }

  /** `<a>` reaches itself through `<b>`, but the search as written says it is not recursive. */
  lemma MutualRecursionMissed()
    ensures ReachesSelf(MutualGrammar(), "<a>")
    ensures !IsKeyRecursive(MutualGrammar(), "<a>", "<a>", {})
  {
    var g := MutualGrammar();
    assert g.rules["<a>"][0][0] == "<b>" && g.rules["<b>"][0][0] == "<a>";
    assert KeyPath(g, ["<a>", "<b>", "<a>"]);
    KeyRecursionDirectOnly(g, "<a>");
  }

  /**
   * The search as evidently intended: the path-local `seen` set grows by the
   * key being expanded, so the search follows references of any length and
   * stops only on a key already on the path.
   */
  function KeyRecursiveFixed(g: Grammar, check: string, key: string, seen: set<string>): bool
    decreases |g.rules.Keys - seen|, 1, 0, 0
  {
    if key !in g.rules then false
    else if key in seen then false
    else FixedScan(g, check, key, seen, 0, 0)
  }

  function FixedScan(g: Grammar, check: string, key: string, seen: set<string>, r: nat, t: nat): bool
    requires key in g.rules && key !in seen && r <= |g.rules[key]|
    requires r < |g.rules[key]| ==> t <= |g.rules[key][r]|
    decreases |g.rules.Keys - seen|, 0, |g.rules[key]| - r, if r < |g.rules[key]| then |g.rules[key][r]| - t else 0
  {
    if r == |g.rules[key]| then false
    else if t == |g.rules[key][r]| then FixedScan(g, check, key, seen, r + 1, 0)
    else
      var token := g.rules[key][r][t];
      if token !in g.rules then FixedScan(g, check, key, seen, r, t + 1)
      else if token == check then true
      else
        assert g.rules.Keys - seen == (g.rules.Keys - (seen + {key})) + {key};
        if KeyRecursiveFixed(g, check, token, seen + {key}) then true
        else FixedScan(g, check, key, seen, r, t + 1)
  }

  lemma KeyPathCons(g: Grammar, a: string, p: seq<string>)
    requires |p| >= 1 && Ref(g, a, p[0]) && (|p| >= 2 ==> KeyPath(g, p))
    ensures KeyPath(g, [a] + p)
  {
    var q := [a] + p;
    forall i | 0 <= i < |q| - 1 ensures Ref(g, q[i], q[i + 1]) {
      if i > 0 {
        assert q[i] == p[i - 1] && q[i + 1] == p[i];
      }
    }
  }

  /** A positive answer of the corrected search is a path from `key` to `check`. */
  lemma {:induction false} FixedSound(g: Grammar, check: string, key: string, seen: set<string>)
    returns (p: seq<string>)
    requires KeyRecursiveFixed(g, check, key, seen)
    ensures KeyPath(g, p) && p[0] == key && p[|p| - 1] == check
    decreases |g.rules.Keys - seen|, 1, 0, 0
  {
    p := FixedScanSound(g, check, key, seen, 0, 0);
  }

  lemma {:induction false} FixedScanSound(g: Grammar, check: string, key: string, seen: set<string>, r: nat, t: nat)
    returns (p: seq<string>)
    requires key in g.rules && key !in seen && r <= |g.rules[key]|
    requires r < |g.rules[key]| ==> t <= |g.rules[key][r]|
    requires FixedScan(g, check, key, seen, r, t)
    ensures KeyPath(g, p) && p[0] == key && p[|p| - 1] == check
    decreases |g.rules.Keys - seen|, 0, |g.rules[key]| - r, if r < |g.rules[key]| then |g.rules[key][r]| - t else 0
  {
    if t == |g.rules[key][r]| {
      p := FixedScanSound(g, check, key, seen, r + 1, 0);
    } else {
      var token := g.rules[key][r][t];
      if token !in g.rules {
        p := FixedScanSound(g, check, key, seen, r, t + 1);
      } else {
        assert Ref(g, key, token);
        if token == check {
          p := [key, check];
        } else {
          assert g.rules.Keys - seen == (g.rules.Keys - (seen + {key})) + {key};
          if KeyRecursiveFixed(g, check, token, seen + {key}) {
            var q := FixedSound(g, check, token, seen + {key});
            KeyPathCons(g, key, q);
            p := [key] + q;
          } else {
            p := FixedScanSound(g, check, key, seen, r, t + 1);
          }
        }
      }
    }
  }

  /** The scan succeeds once it reaches a position whose token succeeds. */
  lemma {:induction false} FixedScanReaches(g: Grammar, check: string, key: string, seen: set<string>,
                                            r: nat, t: nat, r': nat, t': nat)
    requires key in g.rules && key !in seen && r <= r' < |g.rules[key]| && t' < |g.rules[key][r']|
    requires r < |g.rules[key]| ==> t <= |g.rules[key][r]|
    requires r' > r || t' >= t
    requires var token := g.rules[key][r'][t'];
      token in g.rules && (token == check || KeyRecursiveFixed(g, check, token, seen + {key}))
    ensures FixedScan(g, check, key, seen, r, t)
    decreases |g.rules[key]| - r, |g.rules[key][r]| - t
  {
    if t == |g.rules[key][r]| {
      FixedScanReaches(g, check, key, seen, r + 1, 0, r', t');
    } else if r' > r || t' > t {
      FixedScanReaches(g, check, key, seen, r, t + 1, r', t');
    }
  }

  /**
   * Completeness: a path from `key` to `check` whose inner keys are distinct
   * and avoid `seen` and `key` is found.
   */
  lemma {:induction false} FixedComplete(g: Grammar, check: string, seen: set<string>, p: seq<string>)
    requires KeyPath(g, p) && p[0] !in seen && p[|p| - 1] == check
    requires forall i :: 1 <= i < |p| - 1 ==> p[i] !in seen && p[i] != p[0]
    requires forall i, j :: 1 <= i < j < |p| - 1 ==> p[i] != p[j]
    ensures KeyRecursiveFixed(g, check, p[0], seen)
    decreases |p|
  {
    var key := p[0];
    assert Ref(g, key, p[1]);
    var r, t :| 0 <= r < |g.rules[key]| && 0 <= t < |g.rules[key][r]| && g.rules[key][r][t] == p[1];
    if p[1] != check {
      var q := p[1..];
      assert q[|q| - 1] == check;
      forall i | 0 <= i < |q| - 1 ensures Ref(g, q[i], q[i + 1]) {
        assert q[i] == p[i + 1] && q[i + 1] == p[i + 2];
      }
      forall i | 1 <= i < |q| - 1 ensures q[i] !in seen + {key} && q[i] != q[0] {
        assert q[i] == p[i + 1];
      }
      forall i, j | 1 <= i < j < |q| - 1 ensures q[i] != q[j] {
        assert q[i] == p[i + 1] && q[j] == p[j + 1];
      }
      FixedComplete(g, check, seen + {key}, q);
    }
    FixedScanReaches(g, check, key, seen, 0, 0, r, t);
  }

  /** Any path can be shortened to one with the same ends whose inner keys are distinct and avoid its start. */
  lemma {:induction false} SimplePath(g: Grammar, p: seq<string>) returns (q: seq<string>)
    requires KeyPath(g, p)
    ensures KeyPath(g, q) && q[0] == p[0] && q[|q| - 1] == p[|p| - 1]
    ensures forall i :: 1 <= i < |q| - 1 ==> q[i] != q[0]
    ensures forall i, j :: 1 <= i < j < |q| - 1 ==> q[i] != q[j]
    decreases |p|
  {
    if i :| 1 <= i < |p| - 1 && p[i] == p[0] {
      var s := [p[0]] + p[i + 1..];
      forall k | 0 <= k < |s| - 1 ensures Ref(g, s[k], s[k + 1]) {
        assert s[k + 1] == p[i + 1 + k];
        if k > 0 {
          assert s[k] == p[i + k];
        }
      }
      q := SimplePath(g, s);
    } else if i, j :| 1 <= i < j < |p| - 1 && p[i] == p[j] {
      var s := p[..i + 1] + p[j + 1..];
      forall k | 0 <= k < |s| - 1 ensures Ref(g, s[k], s[k + 1]) {
        if k < i {
          assert s[k] == p[k] && s[k + 1] == p[k + 1];
        } else if k == i {
          assert s[k] == p[j] && s[k + 1] == p[j + 1];
        } else {
          assert s[k] == p[k + j - i] && s[k + 1] == p[k + 1 + j - i];
        }
      }
      q := SimplePath(g, s);
    } else {
      q := p;
    }
  }

  /** The corrected search answers exactly "does `k` reach itself through one or more references". */
  lemma KeyRecursionFixedCorrect(g: Grammar, k: string)
    ensures KeyRecursiveFixed(g, k, k, {}) <==> ReachesSelf(g, k)
  {
    if KeyRecursiveFixed(g, k, k, {}) {
      var p := FixedSound(g, k, k, {});
    }
    if ReachesSelf(g, k) {
      var p :| KeyPath(g, p) && p[0] == k && p[|p| - 1] == k;
      var q := SimplePath(g, p);
      FixedComplete(g, k, {}, q);
    }
  }

  // ---------------------------------------------------------------------
  // compute_rule_recursion
  // ---------------------------------------------------------------------

  /** The first loop of `compute_rule_recursion`: every rule name with the answer for its rule. */
  method RuleRecursionTable(g: Grammar) returns (rr: map<RuleName, bool>)
    requires g.WellFormed()
    ensures forall n :: n in rr <==> ValidName(g, n)
    ensures forall n :: n in rr ==> rr[n] == IsRuleRecursive(g, n, RuleOf(g, n), {})
  {
    rr := map[];
    for ki := 0 to |g.keys|
      invariant forall n :: n in rr <==> n.0 in g.keys[..ki] && ValidName(g, n)
      invariant forall n :: n in rr ==> rr[n] == IsRuleRecursive(g, n, RuleOf(g, n), {})
    {
      var k := g.keys[ki];
      for i := 0 to |g.rules[k]|
        invariant forall n :: n in rr <==>
          (n.0 in g.keys[..ki] && ValidName(g, n)) || (n.0 == k && n.1 < i)
        invariant forall n :: n in rr ==> rr[n] == IsRuleRecursive(g, n, RuleOf(g, n), {})
      {
        var n: RuleName := (k, i);
        rr := rr[n := IsRuleRecursive(g, n, g.rules[k][i], {})];
      }
      assert g.keys[..ki + 1] == g.keys[..ki] + [k];
    }
    assert g.keys[..|g.keys|] == g.keys;
    forall n ensures n in rr <==> ValidName(g, n) {
      if ValidName(g, n) {
        assert n.0 in g.keys;
      }
    }
  }

  /** The second loop: every key with the answer of `is_key_recursive(k, k, set())`. */
  method KeyRecursionTable(g: Grammar) returns (kr: map<string, bool>)
    requires g.WellFormed()
    ensures forall k :: k in kr <==> k in g.rules
    ensures forall k :: k in kr ==> kr[k] == IsKeyRecursive(g, k, k, {})
  {
    kr := map[];
    for ki := 0 to |g.keys|
      invariant forall k :: k in kr <==> k in g.keys[..ki]
      invariant forall k :: k in kr ==> kr[k] == IsKeyRecursive(g, k, k, {})
    {
      var k := g.keys[ki];
      kr := kr[k := IsKeyRecursive(g, k, k, {})];
      assert g.keys[..ki + 1] == g.keys[..ki] + [k];
    }
    assert g.keys[..|g.keys|] == g.keys;
  }

  /** The two tables `compute_rule_recursion` fills. */
  class RecursionTables {
    var ruleRecursion: map<RuleName, bool>
    var keyRecursion: map<string, bool>

    constructor()
      ensures ruleRecursion == map[] && keyRecursion == map[]
    {
      ruleRecursion := map[];
      keyRecursion := map[];
    }

    /**
     * Records, for every rule name, whether the rule reaches itself, and for
     * every key the answer of `is_key_recursive(k, k, set())`.
     */
    method ComputeRuleRecursion(g: Grammar)
      requires g.WellFormed()
      modifies this
      ensures forall n :: n in ruleRecursion <==> ValidName(g, n)
      ensures forall n :: n in ruleRecursion ==> ruleRecursion[n] == IsRuleRecursive(g, n, RuleOf(g, n), {})
      ensures forall k :: k in keyRecursion <==> k in g.rules
      ensures forall k :: k in keyRecursion ==> keyRecursion[k] == IsKeyRecursive(g, k, k, {})
    {
      ruleRecursion := RuleRecursionTable(g);
      keyRecursion := KeyRecursionTable(g);
    }
  }
}
