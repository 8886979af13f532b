/**
 * The grammar the compiler reads: an ordered map from keys to ordered
 * rules, where a rule is a list of tokens and a token is a key reference
 * exactly when it is one of the grammar's keys; every other token is a
 * literal. Derivation trees give the grammar its meaning: the strings a key
 * stands for are the yields of the trees that derive it.
 */
module Grammars {
  import opened Text

  type Token = string
  type Rule = seq<Token>

  /** `keys` is the dictionary's insertion order; `rules` maps each key to its alternatives. */
  datatype Grammar = Grammar(keys: seq<string>, rules: map<string, seq<Rule>>)
  {
    /** A dictionary read from JSON: keys distinct and exactly the domain of `rules`. */
    ghost predicate WellFormed()
    {
      (forall i, j :: 0 <= i < j < |keys| ==> keys[i] != keys[j]) &&
      (forall k :: k in rules <==> k in keys)
    }

    predicate IsKey(t: Token)
    {
      t in rules
    }
  }

  /** A derivation tree: a literal leaf, or a key expanded with its rule number `rule`. */
  datatype Deriv = Leaf(text: string) | Node(key: string, rule: nat, kids: seq<Deriv>)

  /** `t` derives `sym` in `g`. */
  ghost predicate Derives(g: Grammar, sym: Token, t: Deriv)
    decreases t
  {
    if sym !in g.rules then t == Leaf(sym)
    else
      t.Node? && t.key == sym && t.rule < |g.rules[sym]| &&
      |t.kids| == |g.rules[sym][t.rule]| &&
      forall i :: 0 <= i < |t.kids| ==> Derives(g, g.rules[sym][t.rule][i], t.kids[i])
  }

  /** `ts` derives the tokens of `r`, one tree per token. */
  ghost predicate DerivesAll(g: Grammar, r: Rule, ts: seq<Deriv>)
  {
    |ts| == |r| && forall i :: 0 <= i < |ts| ==> Derives(g, r[i], ts[i])
  }

  /** The string a derivation tree spells: its leaves, left to right. */
  function Yield(t: Deriv): string
    decreases t, 1
  {
    match t
    case Leaf(s) => s
    case Node(_, _, kids) => YieldAll(kids)
  }

  function YieldAll(ts: seq<Deriv>): string
    decreases ts, 0
  {
    if ts == [] then [] else Yield(ts[0]) + YieldAll(ts[1..])
  }

  /** The number of characters a derivation tree spells, computed without building the string. */
  function Size(t: Deriv): (n: nat)
    ensures n == |Yield(t)|
    decreases t, 1
  {
    match t
    case Leaf(s) => |s|
    case Node(_, _, kids) => SizeAll(kids)
  }

  function SizeAll(ts: seq<Deriv>): (n: nat)
    ensures n == |YieldAll(ts)|
    decreases ts, 0
  {
    if ts == [] then 0 else Size(ts[0]) + SizeAll(ts[1..])
  }

  lemma {:induction false} SizeAllAppend(ts: seq<Deriv>, t: Deriv)
    ensures SizeAll(ts + [t]) == SizeAll(ts) + Size(t)
  {
    if ts != [] {
      assert (ts + [t])[1..] == ts[1..] + [t];
      SizeAllAppend(ts[1..], t);
    }
  }

  lemma {:induction false} YieldAllAppend(ts: seq<Deriv>, t: Deriv)
    ensures YieldAll(ts + [t]) == YieldAll(ts) + Yield(t)
  {
    if ts != [] {
      assert (ts + [t])[1..] == ts[1..] + [t];
      YieldAllAppend(ts[1..], t);
    }
  }
}
