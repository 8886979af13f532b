/**
 * The ANTLR exporter (grammars/f1_g4_translate.py): the grammar's rules
 * reordered by cost, the keys no rule refers to chosen as entry points, and
 * every key written out as an ANTLR rule with `node_`-prefixed names and
 * single-quoted, backslash-escaped literals.
 */
module AntlrExport {
  import opened Wrappers
  import opened Text
  import opened Grammars
  import opened CostAnalysis
  import opened Pool
  import opened Sanitize

  // ---------------------------------------------------------------------
  // Sanitize.__init__: the grammar reordered by cost.
  // ---------------------------------------------------------------------

  /**
   * `self.grammar[k] = [r for (i, r) in self.cost[k]]` for every key: each
   * key lists the rules of its cost table, cheapest first, and the key order
   * stays as it was.
   */
  function SanitizedGrammar(g: Grammar, cost: map<string, seq<Entry>>): (r: Grammar)
    requires forall k :: k in g.keys ==> k in cost
    ensures r.keys == g.keys
    ensures forall k :: k in g.keys ==> k in r.rules && r.rules[k] == RulesOf(cost[k])
    ensures forall k :: k in r.rules <==> k in g.rules || k in g.keys
  {
    ReorderSpec(g.rules, g.keys, cost);
    Grammar(g.keys, Reorder(g.rules, g.keys, cost))
  }

  /** The reordered grammar is still a dictionary over the same keys. */
  lemma SanitizedWellFormed(g: Grammar, cost: map<string, seq<Entry>>)
    requires g.WellFormed() && forall k :: k in g.keys ==> k in cost
    ensures SanitizedGrammar(g, cost).WellFormed()
  {
  }

  /**
   * The alternatives of a reordered key come in ascending cost: with the
   * table sorted as `compute_cost` sorts it, alternative `i` is the rule of
   * entry `i` and costs no more than any later one.
   */
  lemma SanitizedAscending(g: Grammar, cost: map<string, seq<Entry>>, k: string, i: nat, j: nat)
    requires forall k :: k in g.keys ==> k in cost
    requires k in g.keys && Sorted(cost[k]) && i <= j < |cost[k]|
    ensures |SanitizedGrammar(g, cost).rules[k]| == |cost[k]|
    ensures SanitizedGrammar(g, cost).rules[k][i] == cost[k][i].1
    ensures cost[k][i].0 <= cost[k][j].0
  {
    if i < j {
      assert EntryLe(cost[k][i], cost[k][j]);
    }
  }

  // ---------------------------------------------------------------------
  // get_entry_key
  // ---------------------------------------------------------------------

  /** The keys a rule mentions. */
  function RefRule(g: Grammar, rule: Rule): set<string>
  {
    set t | t in rule && t in g.keys
  }

  /** The keys the rules mention. */
  function RefRules(g: Grammar, rules: seq<Rule>): set<string>
  {
    if rules == [] then {} else RefRules(g, rules[..|rules| - 1]) + RefRule(g, rules[|rules| - 1])
  }

  /** The keys the rules of the keys `ks` mention. */
  function RefKeys(g: Grammar, ks: seq<string>): set<string>
    requires forall k :: k in ks ==> k in g.rules
  {
    if ks == [] then {} else RefKeys(g, ks[..|ks| - 1]) + RefRules(g, g.rules[ks[|ks| - 1]])
  }

  /** The elements of `xs` outside `r`, in order. */
  function Without(xs: seq<string>, r: set<string>): (ys: seq<string>)
    ensures |ys| <= |xs|
  {
    if xs == [] then [] else Without(xs[..|xs| - 1], r) + (if xs[|xs| - 1] !in r then [xs[|xs| - 1]] else [])
  }

  lemma {:induction false} WithoutSpec(xs: seq<string>, r: set<string>, x: string)
    ensures x in Without(xs, r) <==> x in xs && x !in r
  {
    if xs != [] {
      WithoutSpec(xs[..|xs| - 1], r, x);
      assert xs == xs[..|xs| - 1] + [xs[|xs| - 1]];
    }
  }

  /** Every key no rule refers to, in grammar key order. */
  function EntryKeys(g: Grammar): seq<string>
    requires g.WellFormed()
  {
    Without(g.keys, RefKeys(g, g.keys))
  }

  /** `t` occurs in some rule of some key. */
  ghost predicate Referenced(g: Grammar, t: string)
  {
    exists k, r :: k in g.rules && 0 <= r < |g.rules[k]| && t in g.rules[k][r]
  }

  lemma {:induction false} RefRulesSpec(g: Grammar, rules: seq<Rule>, t: string)
    ensures t in RefRules(g, rules) <==> t in g.keys && exists r :: 0 <= r < |rules| && t in rules[r]
  {
    if rules != [] {
      var p := rules[..|rules| - 1];
      RefRulesSpec(g, p, t);
      if exists r :: 0 <= r < |rules| && t in rules[r] {
        var r :| 0 <= r < |rules| && t in rules[r];
        if r < |rules| - 1 {
          assert t in p[r];
        }
      }
      if exists r :: 0 <= r < |p| && t in p[r] {
        var r :| 0 <= r < |p| && t in p[r];
        assert t in rules[r];
      }
    }
  }

  lemma {:induction false} RefKeysSpec(g: Grammar, ks: seq<string>, t: string)
    requires forall k :: k in ks ==> k in g.rules
    ensures t in RefKeys(g, ks) <==>
      t in g.keys && exists i, r :: 0 <= i < |ks| && 0 <= r < |g.rules[ks[i]]| && t in g.rules[ks[i]][r]
  {
    if ks != [] {
      var p := ks[..|ks| - 1];
      var last := ks[|ks| - 1];
      RefKeysSpec(g, p, t);
      RefRulesSpec(g, g.rules[last], t);
      if exists i, r :: 0 <= i < |ks| && 0 <= r < |g.rules[ks[i]]| && t in g.rules[ks[i]][r] {
        var i, r :| 0 <= i < |ks| && 0 <= r < |g.rules[ks[i]]| && t in g.rules[ks[i]][r];
        if i < |ks| - 1 {
          assert p[i] == ks[i];
        }
      }
      if exists i, r :: 0 <= i < |p| && 0 <= r < |g.rules[p[i]]| && t in g.rules[p[i]][r] {
        var i, r :| 0 <= i < |p| && 0 <= r < |g.rules[p[i]]| && t in g.rules[p[i]][r];
        assert ks[i] == p[i];
      }
    }
  }

  /** The entry keys are exactly the grammar keys that no rule of any key mentions. */
  lemma EntryKeysSpec(g: Grammar, k: string)
    requires g.WellFormed()
    ensures k in EntryKeys(g) <==> k in g.keys && !Referenced(g, k)
  {
    WithoutSpec(g.keys, RefKeys(g, g.keys), k);
    RefKeysSpec(g, g.keys, k);
    if k in g.keys && Referenced(g, k) {
      var k2, r :| k2 in g.rules && 0 <= r < |g.rules[k2]| && k in g.rules[k2][r];
      var i :| 0 <= i < |g.keys| && g.keys[i] == k2;
      assert 0 <= i < |g.keys| && 0 <= r < |g.rules[g.keys[i]]| && k in g.rules[g.keys[i]][r];
    }
  }

  /**
   * The state of `key_seen` (a dictionary, so its insertion order `order`
   * matters) after the keys `ks` have been entered and the references
   * `refs` marked: every key entered or referenced has an entry, an entry
   * is `True` exactly when it has been referenced, and the unreferenced
   * entries come in the order of `ks`.
   */
  ghost predicate Tracks(g: Grammar, all: set<string>, order: seq<string>, seen: map<string, bool>,
                         ks: seq<string>, refs: set<string>)
  {
    (forall t :: t in seen <==> t in order) &&
    (forall t :: t in seen ==> (seen[t] <==> t in refs)) &&
    (forall t :: t in refs ==> t in seen) &&
    (forall t :: t in ks ==> t in seen) &&
    (forall t :: t in order ==> t in ks || t in refs) &&
    Without(order, all) == Without(ks, all)
  }

  /** The inner loop over one rule: every key token is marked as referenced. */
  method MarkRule(g: Grammar, ghost all: set<string>, rule: Rule, order: seq<string>, seen: map<string, bool>,
                  ghost ks: seq<string>, ghost refs: set<string>)
    returns (order': seq<string>, seen': map<string, bool>)
    requires Tracks(g, all, order, seen, ks, refs) && refs + RefRule(g, rule) <= all
    ensures Tracks(g, all, order', seen', ks, refs + RefRule(g, rule))
  {
    order', seen' := order, seen;
    ghost var done := refs;
    for j := 0 to |rule|
      invariant done == refs + RefRule(g, rule[..j]) && done <= all
      invariant Tracks(g, all, order', seen', ks, done)
    {
      var token := rule[j];
      assert RefRule(g, rule[..j + 1]) == RefRule(g, rule[..j]) + (if token in g.keys then {token} else {}) by {
        assert rule[..j + 1] == rule[..j] + [token];
      }
      if token !in g.keys {
        continue;
      }
      assert token in RefRule(g, rule);
      if token !in seen' {
        assert Without(order' + [token], all) == Without(order', all);
        order' := order' + [token];
      }
      seen' := seen'[token := true];
      done := done + {token};
    }
    assert rule[..|rule|] == rule;
  }

  /** The loop over the rules of one key. */
  method MarkRules(g: Grammar, ghost all: set<string>, rules: seq<Rule>, order: seq<string>, seen: map<string, bool>,
                   ghost ks: seq<string>, ghost refs: set<string>)
    returns (order': seq<string>, seen': map<string, bool>)
    requires Tracks(g, all, order, seen, ks, refs) && refs + RefRules(g, rules) <= all
    ensures Tracks(g, all, order', seen', ks, refs + RefRules(g, rules))
  {
    order', seen' := order, seen;
    for r := 0 to |rules|
      invariant RefRules(g, rules[..r]) <= RefRules(g, rules)
      invariant Tracks(g, all, order', seen', ks, refs + RefRules(g, rules[..r]))
    {
      assert rules[..r + 1][..r] == rules[..r];
      RefRulesPrefix(g, rules, r + 1);
      order', seen' := MarkRule(g, all, rules[r], order', seen', ks, refs + RefRules(g, rules[..r]));
      assert refs + RefRules(g, rules[..r]) + RefRule(g, rules[r]) == refs + RefRules(g, rules[..r + 1]);
    }
    assert rules[..|rules|] == rules;
  }

  lemma {:induction false} RefRulesPrefix(g: Grammar, rules: seq<Rule>, n: nat)
    requires n <= |rules|
    ensures RefRules(g, rules[..n]) <= RefRules(g, rules)
    decreases |rules| - n
  {
    if n < |rules| {
      RefRulesPrefix(g, rules, n + 1);
      assert rules[..n + 1][..n] == rules[..n];
    } else {
      assert rules[..n] == rules;
    }
  }

  lemma {:induction false} RefKeysPrefix(g: Grammar, ks: seq<string>, n: nat)
    requires n <= |ks| && forall k :: k in ks ==> k in g.rules
    ensures RefKeys(g, ks[..n]) <= RefKeys(g, ks)
    decreases |ks| - n
  {
    if n < |ks| {
      RefKeysPrefix(g, ks, n + 1);
      assert ks[..n + 1][..n] == ks[..n];
    } else {
      assert ks[..n] == ks;
    }
  }

  /** A key entered for the first time is unreferenced so far. */
  lemma EnterNew(g: Grammar, all: set<string>, order: seq<string>, seen: map<string, bool>,
                 ks: seq<string>, refs: set<string>, k: string)
    requires Tracks(g, all, order, seen, ks, refs) && k !in seen
    ensures Tracks(g, all, order + [k], seen[k := false], ks + [k], refs)
  {
    assert Without(order + [k], all) == Without(order, all) + (if k !in all then [k] else []) by {
      assert (order + [k])[..|order|] == order;
    }
    assert (ks + [k])[..|ks|] == ks;
  }

  /** A key already entered as some rule's reference changes nothing. */
  lemma EnterSeen(g: Grammar, all: set<string>, order: seq<string>, seen: map<string, bool>,
                  ks: seq<string>, refs: set<string>, k: string)
    requires Tracks(g, all, order, seen, ks, refs) && refs <= all && k in seen && k !in ks
    ensures Tracks(g, all, order, seen, ks + [k], refs)
  {
    assert k in order;
    assert (ks + [k])[..|ks|] == ks;
  }

  /** One key of the outer loop: entered as unreferenced if new, then its rules marked. */
  method EnterKey(g: Grammar, ghost all: set<string>, i: nat, order: seq<string>, seen: map<string, bool>)
    returns (order': seq<string>, seen': map<string, bool>)
    requires g.WellFormed() && i < |g.keys| && all == RefKeys(g, g.keys)
    requires Tracks(g, all, order, seen, g.keys[..i], RefKeys(g, g.keys[..i]))
    ensures Tracks(g, all, order', seen', g.keys[..i + 1], RefKeys(g, g.keys[..i + 1]))
  {
    var k := g.keys[i];
    ghost var ks := g.keys[..i + 1];
    ghost var refs := RefKeys(g, g.keys[..i]);
    assert ks == g.keys[..i] + [k] && ks[..i] == g.keys[..i];
    assert RefKeys(g, ks) == refs + RefRules(g, g.rules[k]);
    RefKeysPrefix(g, g.keys, i + 1);
    RefKeysPrefix(g, g.keys, i);
    order', seen' := order, seen;
    if k !in seen {
      EnterNew(g, all, order, seen, g.keys[..i], refs, k);
      order' := order + [k];
      seen' := seen[k := false];
    } else {
      assert k !in g.keys[..i] by {
        forall j | 0 <= j < i ensures g.keys[j] != k {
        }
      }
      EnterSeen(g, all, order, seen, g.keys[..i], refs, k);
    }
    order', seen' := MarkRules(g, all, g.rules[k], order', seen', ks, refs);
  }

  /** `[k for k in key_seen if not key_seen[k]]`. */
  function Unseen(order: seq<string>, seen: map<string, bool>): seq<string>
    requires forall t :: t in order ==> t in seen
  {
    if order == [] then []
    else Unseen(order[..|order| - 1], seen) + (if !seen[order[|order| - 1]] then [order[|order| - 1]] else [])
  }

  lemma {:induction false} UnseenWithout(order: seq<string>, seen: map<string, bool>, all: set<string>)
    requires forall t :: t in order ==> t in seen && (seen[t] <==> t in all)
    ensures Unseen(order, seen) == Without(order, all)
  {
    if order != [] {
      UnseenWithout(order[..|order| - 1], seen, all);
    }
  }

  /**
   * `get_entry_key`: walks the keys and their rules, entering each key as
   * unreferenced and marking every key a rule mentions; the result is the
   * grammar keys no rule mentions, in grammar key order.
   */
  method GetEntryKey(g: Grammar) returns (entries: seq<string>)
    requires g.WellFormed()
    ensures entries == EntryKeys(g)
  {
    ghost var all := RefKeys(g, g.keys);
    var order: seq<string> := [];
    var seen: map<string, bool> := map[];
    for i := 0 to |g.keys|
      invariant Tracks(g, all, order, seen, g.keys[..i], RefKeys(g, g.keys[..i]))
    {
      order, seen := EnterKey(g, all, i, order, seen);
    }
    assert g.keys[..|g.keys|] == g.keys;
    UnseenWithout(order, seen, all);
    entries := Unseen(order, seen);
  }

  // ---------------------------------------------------------------------
  // AntlrG: names, literals, rules.
  // ---------------------------------------------------------------------

  /** Python's `s[1:-1]`. */
  function Inner(s: string): (r: string)
    ensures |s| >= 2 ==> r == s[1..|s| - 1]
    ensures |s| < 2 ==> r == []
  {
    if |s| < 2 then [] else s[1..|s| - 1]
  }

  /** `AntlrG.to_key`: the sanitised key without its first and last character, prefixed with `node_`. */
  function AntlrKey(k: string): string
  {
    "node_" + Inner(ToKey(k))
  }

  /** An ANTLR rule name: `node_` followed by a sanitised name, with no character `to_key` removes. */
  lemma AntlrKeyShape(k: string, d: char)
    requires Special(d)
    ensures AntlrKey(k)[..5] == "node_" && d !in AntlrKey(k)
  {
    ToKeyClean(k, d);
    assert d !in "node_";
    assert forall c :: c in Inner(ToKey(k)) ==> c in ToKey(k);
  }

  /** `esc_token`: backslash first, then quote, newline, carriage return and tab. */
  function EscToken(t: string): string
  {
    var t1 := ReplaceAll(t, "\\", "\\\\");
    var t2 := ReplaceAll(t1, "'", "\\'");
    var t3 := ReplaceAll(t2, "\n", "\\n");
    var t4 := ReplaceAll(t3, "\r", "\\r");
    ReplaceAll(t4, "\t", "\\t")
  }

  /** The escape of one character: a backslash and a letter for the five special ones. */
  function EscChar(c: char): string
  {
    if c == '\\' then "\\\\"
    else if c == '\'' then "\\'"
    else if c == '\n' then "\\n"
    else if c == '\r' then "\\r"
    else if c == '\t' then "\\t"
    else [c]
  }

  /**
   * Because the backslash is escaped first, the five replacements never
   * touch each other's output: `esc_token` escapes character by character.
   */
  lemma EscTokenIsMap(t: string)
    ensures EscToken(t) == MapChars(t, EscChar)
  {
    var f0 := (x: char) => [x];
    var f1 := (x: char) => ReplaceAll(f0(x), "\\", "\\\\");
    var f2 := (x: char) => ReplaceAll(f1(x), "'", "\\'");
    var f3 := (x: char) => ReplaceAll(f2(x), "\n", "\\n");
    var f4 := (x: char) => ReplaceAll(f3(x), "\r", "\\r");
    var f5 := (x: char) => ReplaceAll(f4(x), "\t", "\\t");
    MapCharsUnit(t, f0);
    ReplaceCharAfterMap(t, f0, f1, '\\', "\\\\");
    ReplaceCharAfterMap(t, f1, f2, '\'', "\\'");
    ReplaceCharAfterMap(t, f2, f3, '\n', "\\n");
    ReplaceCharAfterMap(t, f3, f4, '\r', "\\r");
    ReplaceCharAfterMap(t, f4, f5, '\t', "\\t");
    forall x ensures f5(x) == EscChar(x) {
      EscSteps(x);
    }
    MapCharsExt(t, f5, EscChar);
  }

  /** The five replacements on a single character. */
  lemma EscSteps(x: char)
    ensures ReplaceAll(ReplaceAll(ReplaceAll(ReplaceAll(ReplaceAll([x], "\\", "\\\\"), "'", "\\'"), "\n", "\\n"), "\r", "\\r"), "\t", "\\t")
      == EscChar(x)
  {
    var e1 := ReplaceAll([x], "\\", "\\\\");
    assert e1 == if x == '\\' then "\\\\" else [x] by {
      assert [x][..1] == [x];
    }
    var e2 := ReplaceAll(e1, "'", "\\'");
    if x == '\'' {
      assert e1[..1] == "'";
      assert e2 == "\\'";
    } else {
      ReplaceCharAbsent(e1, '\'', "\\'");
    }
    var e3 := ReplaceAll(e2, "\n", "\\n");
    if x == '\n' {
      assert e2[..1] == "\n";
      assert e3 == "\\n";
    } else {
      ReplaceCharAbsent(e2, '\n', "\\n");
    }
    var e4 := ReplaceAll(e3, "\r", "\\r");
    if x == '\r' {
      assert e3[..1] == "\r";
      assert e4 == "\\r";
    } else {
      ReplaceCharAbsent(e3, '\r', "\\r");
    }
    if x == '\t' {
      assert e4[..1] == "\t";
    } else {
      ReplaceCharAbsent(e4, '\t', "\\t");
    }
  }

  /**
   * Reading a single-quoted ANTLR literal's body: a backslash escape stands
   * for the character it names, a bare quote would end the literal early.
   */
  function Unescape(s: string): Option<string>
    decreases |s|
  {
    if s == [] then Some([])
    else if s[0] == '\\' then
      if |s| < 2 then None
      else
        var c := if s[1] == 'n' then '\n' else if s[1] == 'r' then '\r' else if s[1] == 't' then '\t' else s[1];
        if s[1] in "\\'nrt" then
          match Unescape(s[2..])
          case None => None
          case Some(u) => Some([c] + u)
        else None
    else if s[0] == '\'' then None
    else
      match Unescape(s[1..])
      case None => None
      case Some(u) => Some([s[0]] + u)
  }

  /** Reading one escaped character in front of a readable rest. */
  lemma UnescapeStep(c: char, rest: string, u: string)
    requires Unescape(rest) == Some(u)
    ensures Unescape(EscChar(c) + rest) == Some([c] + u)
  {
    var e := EscChar(c);
    assert (e + rest)[0] == e[0];
    if |e| == 2 {
      assert (e + rest)[1] == e[1] && (e + rest)[2..] == rest;
    } else {
      assert (e + rest)[1..] == rest;
    }
  }

  lemma {:induction false} UnescapeMap(t: string)
    ensures Unescape(MapChars(t, EscChar)) == Some(t)
    decreases |t|
  {
    if t != [] {
      UnescapeMap(t[1..]);
      assert MapChars(t, EscChar) == EscChar(t[0]) + MapChars(t[1..], EscChar);
      UnescapeStep(t[0], MapChars(t[1..], EscChar), t[1..]);
      assert t == [t[0]] + t[1..];
    }
  }

  /** Round trip: the escaped token, read back as a literal body, is the token. */
  lemma EscTokenRoundTrip(t: string)
    ensures Unescape(EscToken(t)) == Some(t)
  {
    EscTokenIsMap(t);
    UnescapeMap(t);
  }

  /** How `rule_to_s` writes one token: a key as its rule name, anything else as a quoted literal. */
  function TokenText(t: string, g: Grammar): string
  {
    if t in g.rules then AntlrKey(t) else "'" + EscToken(t) + "'"
  }

  /** `rule_to_s`: the tokens' texts joined by single spaces. */
  function RuleToS(rule: Rule, g: Grammar): string
  {
    Join(" ", seq(|rule|, i requires 0 <= i < |rule| => TokenText(rule[i], g)))
  }

  /** A literal token is written as a quoted literal whose body reads back as the token. */
  lemma LiteralText(t: string, g: Grammar)
    requires t !in g.rules
    ensures var s := TokenText(t, g);
      |s| >= 2 && s[0] == '\'' && s[|s| - 1] == '\'' && Unescape(s[1..|s| - 1]) == Some(t)
  {
    EscTokenRoundTrip(t);
    var s := TokenText(t, g);
    assert s[1..|s| - 1] == EscToken(t);
  }

  // ---------------------------------------------------------------------
  // translate
  // ---------------------------------------------------------------------

  const Header: string := "grammar Grammar;"
  /** The separator between alternatives of one rule. */
  const Bar: string := "\n    | "

  /** The block of one rule: its name, `:`, the alternatives, `;`. */
  function Block(name: string, alts: seq<string>): string
  {
    name + "\n    : " + Join(Bar, alts) + "\n    ;"
  }

  /** The `entry` rule: one `<key> EOF` alternative per entry key. */
  function EntryBlock(entries: seq<string>): string
  {
    Block("entry", seq(|entries|, i requires 0 <= i < |entries| => AntlrKey(entries[i]) + " EOF"))
  }

  /** The block of key `k`: one alternative per rule, in the grammar's order. */
  function KeyBlock(g: Grammar, k: string): string
    requires k in g.rules
  {
    Block(AntlrKey(k), seq(|g.rules[k]|, i requires 0 <= i < |g.rules[k]| => RuleToS(g.rules[k][i], g)))
  }

  /** Every key of the grammar has a rule list (half of `WellFormed`, all that the key blocks need). */
  ghost predicate KeysHaveRules(g: Grammar)
  {
    forall k | k in g.keys :: k in g.rules
  }

  /** The blocks of the first `n` keys, in grammar key order. */
  function KeyBlocks(g: Grammar, n: nat): (bs: seq<string>)
    requires KeysHaveRules(g) && n <= |g.keys|
    ensures |bs| == n
  {
    if n == 0 then [] else KeyBlocks(g, n - 1) + [KeyBlock(g, g.keys[n - 1])]
  }

  /**
   * `translate`: the header, the entry rule, then one block per key in
   * grammar key order, joined by newlines.
   */
  method Translate(g: Grammar, entries: seq<string>) returns (text: string)
    requires KeysHaveRules(g)
    ensures text == Join("\n", [Header, EntryBlock(entries)] + KeyBlocks(g, |g.keys|))
  {
    var lines := [Header];
    lines := lines + [EntryBlock(entries)];
    for i := 0 to |g.keys|
      invariant lines == [Header, EntryBlock(entries)] + KeyBlocks(g, i)
    {
      lines := lines + [KeyBlock(g, g.keys[i])];
    }
    text := Join("\n", lines);
  }

  /** Block `i` of the output is the block of the `i`-th grammar key: one block per key, in key order. */
  lemma {:induction false} KeyBlocksSpec(g: Grammar, n: nat, i: nat)
    requires KeysHaveRules(g) && i < n <= |g.keys|
    ensures KeyBlocks(g, n)[i] == KeyBlock(g, g.keys[i])
  {
    var prev := KeyBlocks(g, n - 1);
    var last := KeyBlock(g, g.keys[n - 1]);
    assert KeyBlocks(g, n) == prev + [last];
    if i < n - 1 {
      KeyBlocksSpec(g, n - 1, i);
      assert KeyBlocks(g, n)[i] == prev[i];
    }
  }
}
