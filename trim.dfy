/**
 * Recursive trimming (src/tree_trimming.c). A recursion edge joins a node
 * (`parent`) to one of its children (`tail`) of the same kind; trimming it
 * yields a copy of the tree in which `parent`'s whole subtree is replaced by
 * `tail`'s, so one level of the recursion disappears. The C code gets there
 * by splicing `tail` into the grandparent's slot, cloning the tree and
 * putting everything back; here the result is stated on tree values.
 */
module TreeTrimming {
  import opened Wrappers
  import opened CTree

  /** `p` leads from the root through child positions to a node of `t`. */
  ghost predicate IsPath(t: T, p: seq<nat>)
    decreases |p|
  {
    p == [] || (p[0] < |t.kids| && IsPath(t.kids[p[0]], p[1..]))
  }

  /** The subtree at the end of a path. */
  function At(t: T, p: seq<nat>): T
    requires IsPath(t, p)
    decreases |p|
  {
    if p == [] then t else At(t.kids[p[0]], p[1..])
  }

  /** `t` with the subtree at the end of `p` replaced by `s`. */
  function ReplaceAt(t: T, p: seq<nat>, s: T): T
    requires IsPath(t, p)
    decreases |p|
  {
    if p == [] then s else t.(kids := t.kids[p[0] := ReplaceAt(t.kids[p[0]], p[1..], s)])
  }

  /**
   * An edge: the path from the root to `parent`, and the offset of `tail`
   * among `parent`'s children.
   */
  datatype Edge = Edge(parent: seq<nat>, offset: nat)

  ghost predicate IsEdge(t: T, e: Edge)
  {
    IsPath(t, e.parent) && e.offset < |At(t, e.parent).kids|
  }

  function Tail(t: T, e: Edge): T
    requires IsEdge(t, e)
  {
    At(t, e.parent).kids[e.offset]
  }

  /**
   * `recursive_trimming`: when `parent` is the root the result is a copy of
   * `tail`; otherwise it is the tree with `tail` standing where `parent`
   * stood under its own parent.
   */
  function RecursiveTrimming(t: T, e: Edge): (r: T)
    requires IsEdge(t, e)
    ensures e.parent == [] ==> r == Tail(t, e)
    ensures e.parent != [] ==> IsPath(r, e.parent) && At(r, e.parent) == Tail(t, e)
  {
    AtReplaced(t, e.parent, Tail(t, e));
    ReplaceAt(t, e.parent, Tail(t, e))
  }

  /** `subtree_trimming` is a stub: it produces no tree. */
  function SubtreeTrimming(t: T): (r: Option<T>)
    ensures r.None?
  {
    None
  }

  /** After a replacement the path still leads somewhere, and to the new subtree. */
  lemma {:induction false} AtReplaced(t: T, p: seq<nat>, s: T)
    requires IsPath(t, p)
    ensures IsPath(ReplaceAt(t, p, s), p) && At(ReplaceAt(t, p, s), p) == s
    decreases |p|
  {
    if p != [] {
      AtReplaced(t.kids[p[0]], p[1..], s);
    }
  }

  /** Replacing a subtree trades its nodes for the new subtree's. */
  lemma {:induction false} ReplaceAtCount(t: T, p: seq<nat>, s: T)
    requires IsPath(t, p)
    ensures Count(ReplaceAt(t, p, s)) + Count(At(t, p)) == Count(t) + Count(s)
    decreases |p|
  {
    if p != [] {
      var i := p[0];
      ReplaceAtCount(t.kids[i], p[1..], s);
      CountAllUpdate(t.kids, i, ReplaceAt(t.kids[i], p[1..], s));
    }
  }

  lemma {:induction false} CountAllUpdate(ks: seq<T>, i: nat, x: T)
    requires i < |ks|
    ensures CountAll(ks[i := x]) + Count(ks[i]) == CountAll(ks) + Count(x)
    decreases |ks|
  {
    var n := |ks| - 1;
    var ls := ks[i := x];
    assert ls[..n] == if i < n then ks[..n][i := x] else ks[..n];
    if i < n {
      CountAllUpdate(ks[..n], i, x);
    }
  }

  /** A child has fewer nodes than its parent. */
  lemma {:induction false} KidSmaller(t: T, j: nat)
    requires j < |t.kids|
    ensures Count(t.kids[j]) < Count(t)
  {
    CountAllPart(t.kids, j);
  }

  lemma {:induction false} CountAllPart(ks: seq<T>, j: nat)
    requires j < |ks|
    ensures Count(ks[j]) <= CountAll(ks)
    decreases |ks|
  {
    var n := |ks| - 1;
    if j < n {
      CountAllPart(ks[..n], j);
    }
  }

  /** Trimming always removes at least one node, so the result differs from the input. */
  lemma TrimmingShrinks(t: T, e: Edge)
    requires IsEdge(t, e)
    ensures Count(RecursiveTrimming(t, e)) < Count(t) && RecursiveTrimming(t, e) != t
  {
    KidSmaller(At(t, e.parent), e.offset);
    ReplaceAtCount(t, e.parent, Tail(t, e));
  }

  /**
   * The trimming example of `tests/test_tree_trimming.cpp`: the root holds
   * "{", a copy of itself and "}", and that copy holds "{", a node with
   * "123", and "}", so the tree dumps "{{123}}". Trimming the edge from the
   * root to its copy leaves "{123}", and the result is not the input.
   */
  function TrimExampleTree(): T
  {
    var open := T(0, [123], []);
    var close := T(0, [125], []);
    var inner := T(1, [], [open, T(1, [], [T(0, [49, 50, 51], [])]), close]);
    T(1, [], [open, inner, close])
  }

  lemma {:induction false} TrimExample()
    ensures IsEdge(TrimExampleTree(), Edge([], 1))
    ensures Leaves(TrimExampleTree()) == [123, 123, 49, 50, 51, 125, 125]
    ensures Leaves(RecursiveTrimming(TrimExampleTree(), Edge([], 1))) == [123, 49, 50, 51, 125]
    ensures RecursiveTrimming(TrimExampleTree(), Edge([], 1)) != TrimExampleTree()
  {
    var t := TrimExampleTree();
    var open, close := t.kids[0], t.kids[2];
    var inner := t.kids[1];
    var mid := inner.kids[1];
    LeavesOne(mid.kids[0]);
    LeavesThree(open, mid, close);
    LeavesThree(open, inner, close);
    TrimmingShrinks(t, Edge([], 1));
  }
}
