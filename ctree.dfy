/**
 * The runtime parse tree (src/tree.c, include/tree.h). A node has a type id,
 * an attached byte value, a parent pointer and its children. The C code keeps
 * the children as a singly linked sibling list (`subnodes`, `subnode_last`,
 * `next`, `subnode_count`); here they are the sequence `kids`, whose first and
 * last elements are the list's head and last node and whose length is the
 * count. The ghost field `Model` is the tree a node spans, without parent pointers.
 */
module CTree {
  import opened Bytes

  type U32 = x: int | 0 <= x < 0x1_0000_0000

  /** A subtree as a value: node type, attached bytes, children in order. */
  datatype T = T(id: U32, val: seq<Byte>, kids: seq<T>)

  /** The number of nodes of a subtree (`node_get_size`). */
  function Count(t: T): nat
    decreases t, 1
  {
    1 + CountAll(t.kids)
  }

  function CountAll(ts: seq<T>): nat
    decreases ts, 0
  {
    if ts == [] then 0 else CountAll(ts[..|ts| - 1]) + Count(ts[|ts| - 1])
  }

  /** The bytes `tree_to_buf` writes: the values of the childless nodes, left to right. */
  function Leaves(t: T): seq<Byte>
    decreases t, 1
  {
    if t.kids == [] then t.val else LeavesAll(t.kids)
  }

  function LeavesAll(ts: seq<T>): seq<Byte>
    decreases ts, 0
  {
    if ts == [] then [] else LeavesAll(ts[..|ts| - 1]) + Leaves(ts[|ts| - 1])
  }

  /** Every subtree, in pre-order: an independent account of what a tree contains. */
  function Subtrees(t: T): seq<T>
    decreases t, 1
  {
    [t] + SubtreesAll(t.kids)
  }

  function SubtreesAll(ts: seq<T>): seq<T>
    decreases ts, 0
  {
    if ts == [] then [] else SubtreesAll(ts[..|ts| - 1]) + Subtrees(ts[|ts| - 1])
  }

  /** The bytes of the childless subtrees of a list, in order. */
  function LeafBytes(ts: seq<T>): seq<Byte>
  {
    if ts == [] then [] else LeafBytes(ts[..|ts| - 1]) + (if ts[|ts| - 1].kids == [] then ts[|ts| - 1].val else [])
  }

  lemma {:induction false} LeafBytesAppend(xs: seq<T>, ys: seq<T>)
    ensures LeafBytes(xs + ys) == LeafBytes(xs) + LeafBytes(ys)
    decreases |ys|
  {
    if ys == [] {
      assert xs + ys == xs;
    } else {
      var p, y := ys[..|ys| - 1], ys[|ys| - 1];
      LeafBytesAppend(xs, p);
      var e := if y.kids == [] then y.val else [];
      assert (xs + ys)[..|xs + ys| - 1] == xs + p && (xs + ys)[|xs + ys| - 1] == y;
      calc {
        LeafBytes(xs + ys);
        LeafBytes(xs + p) + e;
        LeafBytes(xs) + LeafBytes(p) + e;
        LeafBytes(xs) + LeafBytes(ys);
      }
    }
  }

  /** The node count is the number of subtrees. */
  lemma {:induction false} CountSubtrees(t: T)
    ensures Count(t) == |Subtrees(t)|
    decreases t, 1
  {
    CountSubtreesAll(t.kids);
  }

  lemma {:induction false} CountSubtreesAll(ts: seq<T>)
    ensures CountAll(ts) == |SubtreesAll(ts)|
    decreases ts, 0
  {
    if ts != [] {
      CountSubtreesAll(ts[..|ts| - 1]);
      CountSubtrees(ts[|ts| - 1]);
    }
  }

  /** The dumped bytes are the values of the childless subtrees, in pre-order. */
  lemma {:induction false} LeavesPreorder(t: T)
    ensures Leaves(t) == LeafBytes(Subtrees(t))
    decreases t, 1
  {
    LeavesPreorderAll(t.kids);
    LeafBytesAppend([t], SubtreesAll(t.kids));
    assert LeafBytes([t]) == (if t.kids == [] then t.val else []) by {
      assert [t][..0] == [];
    }
    if t.kids == [] {
      assert SubtreesAll(t.kids) == [];
    }
  }

  lemma {:induction false} LeavesPreorderAll(ts: seq<T>)
    ensures LeavesAll(ts) == LeafBytes(SubtreesAll(ts))
    decreases ts, 0
  {
    if ts != [] {
      LeavesPreorderAll(ts[..|ts| - 1]);
      LeavesPreorder(ts[|ts| - 1]);
      LeafBytesAppend(SubtreesAll(ts[..|ts| - 1]), Subtrees(ts[|ts| - 1]));
    }
  }

  /** Appending a child adds its node count. */
  lemma AppendCount(t: T, s: T)
    ensures Count(t.(kids := t.kids + [s])) == Count(t) + Count(s)
  {
    assert (t.kids + [s])[..|t.kids|] == t.kids;
  }

  class Node {
    var id: U32
    var val: seq<Byte>
    var parent: Node?
    var kids: seq<Node>
    /** The subtree this node spans, without parent pointers. */
    ghost var Model: T
    ghost var Repr: set<Node>

    /**
     * The nodes below form a tree whose shape and contents `Model` records:
     * every child owns a footprint of its own, disjoint from its siblings'.
     */
    ghost predicate Valid()
      reads this`Repr, Repr`Repr, Repr`kids, Repr`id, Repr`val, Repr`Model
      decreases Repr
    {
      this in Repr && Model.id == id && Model.val == val && |Model.kids| == |kids| &&
      (forall i :: 0 <= i < |kids| ==>
        kids[i] in Repr && kids[i].Repr <= Repr && this !in kids[i].Repr &&
        kids[i].Valid() && kids[i].Model == Model.kids[i]) &&
      Disjoint(kids)
    }

    /** Every child's parent pointer names this node. */
    ghost predicate ParentsSet()
      reads this, kids
    {
      forall i :: 0 <= i < |kids| ==> kids[i].parent == this
    }

    /** `node_create`: a node of the given type with no value, parent or children. */
    constructor(id: U32)
      ensures Valid() && fresh(Repr) && Model == T(id, [], []) && parent == null && ParentsSet()
    {
      this.id := id;
      val := [];
      parent := null;
      kids := [];
      Model := T(id, [], []);
      Repr := {this};
    }

    /** `node_create_with_val`: `node_create` followed by `node_set_val`. */
    constructor WithVal(id: U32, v: seq<Byte>)
      ensures Valid() && fresh(Repr) && Model == T(id, v, []) && parent == null && ParentsSet()
    {
      this.id := id;
      val := v;
      parent := null;
      kids := [];
      Model := T(id, v, []);
      Repr := {this};
    }

    /** `node_set_val`: an empty value changes nothing; otherwise the node holds a copy of the bytes. */
    method SetVal(v: seq<Byte>)
      requires Valid()
      modifies this`val, this`Model
      ensures Valid() && Model == if v == [] then old(Model) else old(Model).(val := v)
    {
      if |v| == 0 {
        return;
      }
      val := v;
      Model := Model.(val := v);
    }

    /**
     * `node_append_subnode`: `sub` becomes the last child and its parent
     * pointer names this node.
     */
    method AppendSubnode(sub: Node)
      requires Valid() && sub.Valid() && Repr !! sub.Repr
      modifies this`kids, this`Repr, this`Model, sub`parent
      ensures Valid() && Repr == old(Repr) + sub.Repr && kids == old(kids) + [sub] && sub.parent == this
      ensures Model == old(Model).(kids := old(Model.kids) + [sub.Model])
      ensures old(ParentsSet()) ==> ParentsSet()
    {
      sub.parent := this;
      AddKid(sub);
    }

    /** The list part of `node_append_subnode`: `sub` joins the end of the children. */
    method AddKid(sub: Node)
      requires Valid() && sub.Valid() && Repr !! sub.Repr
      modifies this`kids, this`Repr, this`Model
      ensures Valid() && Repr == old(Repr) + sub.Repr && kids == old(kids) + [sub]
      ensures Model == old(Model).(kids := old(Model.kids) + [sub.Model])
    {
      kids := kids + [sub];
      Repr := Repr + sub.Repr;
      Model := Model.(kids := Model.kids + [sub.Model]);
      assert kids[..|kids| - 1] == old(kids);
      forall i | 0 <= i < |kids|
        ensures kids[i] in Repr && kids[i].Repr <= Repr && this !in kids[i].Repr
        ensures kids[i].Valid() && kids[i].Model == Model.kids[i]
      {
        if i < |kids| - 1 {
          assert kids[i] == old(kids)[i];
        }
      }
      DisjointAppend(old(kids), sub);
    }

    /** `node_clone`: a fresh deep copy with the same contents; its parent is not set. */
    method Clone() returns (c: Node)
      requires Valid()
      ensures fresh(c.Repr) && c.Valid() && c.Model == Model && c.parent == null && c.ParentsSet()
      decreases Repr, 1
    {
      c := new Node(id);
      c.SetVal(val);
      var i := 0;
      while i < |kids|
        invariant i <= |kids|
        invariant fresh(c.Repr) && c.Valid() && c.parent == null && c.ParentsSet()
        invariant c.Model == T(id, val, Model.kids[..i])
      {
        c.AppendCloneOf(this, i);
        i := i + 1;
      }
      TakeAll(Model.kids);
    }

    /** One step of `node_clone`'s loop: a copy of `n`'s child `i` becomes this node's last child. */
    method AppendCloneOf(n: Node, i: nat)
      requires n.Valid() && i < |n.kids| && Valid() && Repr !! n.Repr
      requires Model.kids == n.Model.kids[..i]
      modifies this`kids, this`Repr, this`Model
      ensures Valid() && fresh(Repr - old(Repr)) && Model == old(Model).(kids := n.Model.kids[..i + 1])
      ensures old(ParentsSet()) ==> ParentsSet()
      decreases n.Repr, 0
    {
      var k := n.kids[i].Clone();
      AppendSubnode(k);
      TakeNext(n.Model.kids, i);
    }
    /**
     * The list surgery of `node_replace_subnode`: `nw` takes the place of
     * child `i`. The result is again a tree when `nw` shares no node with
     * this one.
     */
    method Swap(i: nat, nw: Node)
      requires Valid() && nw.Valid() && i < |kids|
      modifies this`kids, this`Repr, this`Model
      ensures kids == old(kids)[i := nw] && Model == old(Model).(kids := old(Model.kids)[i := old(nw.Model)])
      ensures Repr == old(Repr) - old(kids[i].Repr) + nw.Repr
      ensures old(nw.Repr !! Repr) ==> Valid() && old(kids[i]) !in Repr
    {
      ghost var gone := kids[i];
      kids := kids[i := nw];
      Repr := Repr - gone.Repr + nw.Repr;
      Model := Model.(kids := Model.kids[i := nw.Model]);
      if old(nw.Repr !! Repr) {
        forall j | 0 <= j < |kids|
          ensures kids[j] in Repr && kids[j].Repr <= Repr && this !in kids[j].Repr
          ensures kids[j].Valid() && kids[j].Model == Model.kids[j]
        {
          if j != i {
            assert kids[j] == old(kids)[j];
            assert old(kids)[j].Repr !! gone.Repr;
          }
        }
        forall j, l | 0 <= j < l < |kids|
          ensures kids[j].Repr !! kids[l].Repr
        {
          if j != i && l != i {
            assert old(kids)[j].Repr !! old(kids)[l].Repr;
          }
        }
        assert gone in gone.Repr;
      }
    }
  }

  /**
   * `node_equal`: two absent nodes are equal, one absent node equals no
   * present one, and two present nodes are equal when their types, values
   * and children agree pairwise; parent pointers play no part. (The C code
   * first answers true for identical pointers, a shortcut the contract
   * covers, and its final check that both sibling walks ended together
   * cannot fail once the counts agree.)
   */
  method Equal(a: Node?, b: Node?) returns (r: bool)
    requires a != null ==> a.Valid()
    requires b != null ==> b.Valid()
    ensures r <==> (a == null && b == null) || (a != null && b != null && a.Model == b.Model)
    decreases if a == null then {} else a.Repr
  {
    if a == b {
      return true;
    }
    if a == null || b == null {
      return false;
    }
    if a.id != b.id || |a.val| != |b.val| || a.val != b.val || |a.kids| != |b.kids| {
      return false;
    }
    var i := 0;
    while i < |a.kids|
      invariant i <= |a.kids| == |b.kids|
      invariant a.Model.kids[..i] == b.Model.kids[..i]
    {
      var e := Equal(a.kids[i], b.kids[i]);
      if !e {
        assert a.Model.kids[i] != b.Model.kids[i];
        return false;
      }
      TakeNext(a.Model.kids, i);
      TakeNext(b.Model.kids, i);
      i := i + 1;
    }
    TakeAll(a.Model.kids);
    TakeAll(b.Model.kids);
    return true;
  }

  /** `node_get_size`: 0 for an absent node, otherwise the number of nodes of its subtree. */
  method GetSize(n: Node?) returns (s: nat)
    requires n != null ==> n.Valid()
    ensures s == if n == null then 0 else Count(n.Model)
    decreases if n == null then {} else n.Repr
  {
    if n == null {
      return 0;
    }
    s := 1;
    var i := 0;
    while i < |n.kids|
      invariant i <= |n.kids|
      invariant s == 1 + CountAll(n.Model.kids[..i])
    {
      var k := GetSize(n.kids[i]);
      CountAllNext(n.Model.kids, i);
      s := s + k;
      i := i + 1;
    }
    TakeAll(n.Model.kids);
  }

  /** The position of the first occurrence of `x` in `ks`, if any. */
  function IndexOf(ks: seq<Node>, x: Node): (k: nat)
    requires x in ks
    ensures k < |ks| && ks[k] == x && forall j :: 0 <= j < k ==> ks[j] != x
  {
    if ks[0] == x then 0 else 1 + IndexOf(ks[1..], x)
  }

  /**
   * `node_replace_subnode` as written: when `sub` has the type of `nw` and is
   * a child of `root`, `nw` takes its place in the sibling order and `sub`
   * is detached (its parent pointer cleared); `nw`'s own parent pointer is
   * left as it was.
   */
  method ReplaceSubnode(root: Node, sub: Node, nw: Node) returns (ok: bool)
    requires root.Valid() && nw.Valid() && nw !in root.kids
    modifies root`kids, root`Repr, root`Model, sub`parent
    ensures ok <==> sub.id == nw.id && sub in old(root.kids)
    ensures ok ==> Replaced(root, old(root.kids), old(root.Model), sub, nw, old(nw.Model)) && sub.parent == null
    ensures !ok ==> root.kids == old(root.kids) && root.Model == old(root.Model) && sub.parent == old(sub.parent)
    ensures nw.parent == old(nw.parent)
    ensures ok && old(nw.Repr !! root.Repr) ==> root.Valid() && root.Repr == old(root.Repr) - old(sub.Repr) + nw.Repr
    ensures ok && old(nw.parent) != root ==> !root.ParentsSet()
  {
    ok := Splice(root, sub, nw);
    if ok {
      assert root.kids[IndexOf(old(root.kids), sub)] == nw;
    }
  }

  /**
   * The same replacement with the new child's parent pointer set, as
   * `node_append_subnode` does for every other child.
   */
  method ReplaceSubnodeLinked(root: Node, sub: Node, nw: Node) returns (ok: bool)
    requires root.Valid() && nw.Valid() && nw !in root.kids
    modifies root`kids, root`Repr, root`Model, sub`parent, nw`parent
    ensures ok <==> sub.id == nw.id && sub in old(root.kids)
    ensures ok ==> Replaced(root, old(root.kids), old(root.Model), sub, nw, old(nw.Model)) && sub.parent == null
    ensures ok ==> nw.parent == root
    ensures !ok ==> root.kids == old(root.kids) && root.Model == old(root.Model) && sub.parent == old(sub.parent)
    ensures !ok ==> nw.parent == old(nw.parent)
    ensures ok && old(nw.Repr !! root.Repr) ==> root.Valid() && root.Repr == old(root.Repr) - old(sub.Repr) + nw.Repr
    ensures old(root.ParentsSet()) ==> root.ParentsSet()
  {
    ok := Splice(root, sub, nw);
    if ok {
      nw.parent := root;
    }
  }

  /** The children of `root` are `ks` with `sub`'s first occurrence replaced by `nw`, and its value likewise. */
  ghost predicate Replaced(root: Node, ks: seq<Node>, m: T, sub: Node, nw: Node, nm: T)
    reads root`kids, root`Model
  {
    sub in ks && |m.kids| == |ks| &&
    root.kids == ks[IndexOf(ks, sub) := nw] &&
    root.Model == m.(kids := m.kids[IndexOf(ks, sub) := nm])
  }

  /** The sibling-list walk shared by both replacements. */
  method Splice(root: Node, sub: Node, nw: Node) returns (ok: bool)
    requires root.Valid() && nw.Valid() && nw !in root.kids
    modifies root`kids, root`Repr, root`Model, sub`parent
    ensures ok <==> sub.id == nw.id && sub in old(root.kids)
    ensures ok ==> Replaced(root, old(root.kids), old(root.Model), sub, nw, old(nw.Model)) && sub.parent == null
    ensures !ok ==> root.kids == old(root.kids) && root.Model == old(root.Model) && sub.parent == old(sub.parent)
    ensures nw.parent == old(nw.parent)
    ensures ok && old(nw.Repr !! root.Repr) ==> root.Valid() && root.Repr == old(root.Repr) - old(sub.Repr) + nw.Repr
    ensures old(root.ParentsSet()) ==> forall j :: 0 <= j < |root.kids| && root.kids[j] != nw ==> root.kids[j].parent == root
  {
    if sub.id != nw.id {
      return false;
    }
    var i := 0;
    while i < |root.kids|
      invariant i <= |root.kids|
      invariant forall j :: 0 <= j < i ==> root.kids[j] != sub
    {
      if root.kids[i] == sub {
        assert IndexOf(root.kids, sub) == i;
        root.Swap(i, nw);
        sub.parent := null;
        return true;
      }
      i := i + 1;
    }
    return false;
  }

  /** `tree_t`: a root node, a depth and the output buffer `tree_to_buf` fills. */
  class Tree {
    var root: Node?
    var depth: nat
    var data: seq<Byte>

    /** `tree_create`: no root, depth 0, an empty buffer. */
    constructor()
      ensures root == null && depth == 0 && data == []
    {
      root := null;
      depth := 0;
      data := [];
    }

    /** `tree_to_buf`: the buffer becomes the values of the childless nodes, left to right. */
    method ToBuf()
      requires root != null && root.Valid()
      modifies this`data
      ensures data == Leaves(root.Model)
    {
      data := [];
      NodeToBuf(root);
    }

    /**
     * `_node_to_buf`: a childless node appends its value (nothing when it is
     * empty); any other node appends what its children append, in order.
     */
    method NodeToBuf(n: Node)
      requires n.Valid()
      modifies this`data
      ensures data == old(data) + Leaves(n.Model)
      decreases n.Repr
    {
      if |n.kids| == 0 {
        if |n.val| == 0 {
          return;
        }
        data := data + n.val;
        return;
      }
      var i := 0;
      while i < |n.kids|
        invariant i <= |n.kids|
        invariant data == old(data) + LeavesAll(n.Model.kids[..i])
      {
        NodeToBuf(n.kids[i]);
        LeavesAllNext(n.Model.kids, i);
        i := i + 1;
      }
      TakeAll(n.Model.kids);
    }
  }

  /**
   * `tree_clone`: a fresh tree whose root is a deep copy of the original's,
   * with the same depth and an empty buffer (the data is not copied).
   */
  method TreeClone(t: Tree) returns (c: Tree)
    requires t.root != null && t.root.Valid()
    ensures fresh(c) && c.root != null && fresh(c.root.Repr) && c.root.Valid()
    ensures c.root.Model == t.root.Model && c.depth == t.depth && c.data == []
  {
    c := new Tree();
    var r := t.root.Clone();
    c.root := r;
    c.depth := t.depth;
  }

  /** Two trees' roots are both absent, or both present with the same contents. */
  ghost predicate SameRoot(a: Tree, b: Tree)
    reads a, b, a.root, b.root
  {
    (a.root == null && b.root == null) || (a.root != null && b.root != null && a.root.Model == b.root.Model)
  }

  /** `tree_equal`: the same tree, or two present trees whose roots are `node_equal`. */
  method TreeEqual(a: Tree?, b: Tree?) returns (r: bool)
    requires a != null && a.root != null ==> a.root.Valid()
    requires b != null && b.root != null ==> b.root.Valid()
    ensures r <==> a == b || (a != null && b != null && SameRoot(a, b))
  {
    if a == b {
      return true;
    }
    if a == null || b == null {
      return false;
    }
    r := Equal(a.root, b.root);
  }

  /** A cloned tree is equal to its original (`test/test_tree.cpp`, "ClonedTreeShouldEqual"). */
  method CloneIsEqual(t: Tree) returns (r: bool)
    requires t.root != null && t.root.Valid()
    ensures r
  {
    var c := TreeClone(t);
    r := TreeEqual(t, c);
  }

  /**
   * The dump example of `test/test_tree.cpp`: start -> json -> element, whose
   * children are ws (holding " " and an empty ws), "true" and an empty ws.
   * Only the two non-empty leaves contribute, so `tree_to_buf` gives " true".
   */
  function ExampleElementModel(): T
  {
    T(2, [], [T(3, [], [T(5, [32], []), T(3, [], [])]), T(4, [116, 114, 117, 101], []), T(3, [], [])])
  }

  lemma {:induction false} ExampleLeaves()
    ensures Leaves(T(0, [], [T(1, [], [ExampleElementModel()])])) == [32, 116, 114, 117, 101]
  {
    var ws1 := T(3, [], [T(5, [32], []), T(3, [], [])]);
    assert LeavesAll(ws1.kids) == [32] by {
      assert ws1.kids[..1] == [T(5, [32], [])];
      assert LeavesAll(ws1.kids[..1]) == [32];
    }
    var e := ExampleElementModel();
    assert LeavesAll(e.kids) == [32, 116, 114, 117, 101] by {
      assert e.kids[..1] == [ws1];
      assert e.kids[..2] == [ws1, T(4, [116, 114, 117, 101], [])];
      assert e.kids[..2][..1] == e.kids[..1];
      assert LeavesAll(e.kids[..1]) == [32];
      assert LeavesAll(e.kids[..2]) == [32, 116, 114, 117, 101];
    }
    var json := T(1, [], [e]);
    assert LeavesAll(json.kids) == Leaves(e) by {
      assert json.kids[..0] == [];
    }
    var root := T(0, [], [json]);
    assert LeavesAll(root.kids) == Leaves(json) by {
      assert root.kids[..0] == [];
    }
  }

  /** The footprints of a list of siblings are pairwise disjoint. */
  ghost predicate Disjoint(ks: seq<Node>)
    reads (set i | 0 <= i < |ks| :: ks[i])`Repr
  {
    forall i, j :: 0 <= i < j < |ks| ==> ks[i].Repr !! ks[j].Repr
  }

  lemma DisjointAppend(ks: seq<Node>, sub: Node)
    requires Disjoint(ks) && forall i :: 0 <= i < |ks| ==> ks[i].Repr !! sub.Repr
    ensures Disjoint(ks + [sub])
  {
    var ls := ks + [sub];
    forall i, j | 0 <= i < j < |ls| ensures ls[i].Repr !! ls[j].Repr {
      assert ls[i] == ks[i];
    }
  }

  lemma TakeNext<X>(s: seq<X>, i: nat)
    requires i < |s|
    ensures s[..i + 1] == s[..i] + [s[i]]
  {
  }

  lemma TakeAll<X>(s: seq<X>)
    ensures s[..|s|] == s
  {
  }

  lemma CountAllNext(ts: seq<T>, i: nat)
    requires i < |ts|
    ensures CountAll(ts[..i + 1]) == CountAll(ts[..i]) + Count(ts[i])
  {
    assert ts[..i + 1][..i] == ts[..i];
  }

  lemma LeavesAllNext(ts: seq<T>, i: nat)
    requires i < |ts|
    ensures LeavesAll(ts[..i + 1]) == LeavesAll(ts[..i]) + Leaves(ts[i])
  {
    assert ts[..i + 1][..i] == ts[..i];
  }

  lemma LeavesOne(a: T)
    ensures LeavesAll([a]) == Leaves(a)
  {
    assert [a][..0] == [];
  }

  lemma LeavesThree(a: T, b: T, c: T)
    ensures LeavesAll([a, b, c]) == Leaves(a) + Leaves(b) + Leaves(c)
  {
    assert [a, b, c][..2] == [a, b] && [a, b][..1] == [a];
    LeavesOne(a);
  }
}
