/**
 * The chunk store of src/chunk_store.cpp: every distinct subtree met in a
 * tree is kept, as a clone, in a list per node type, and the set of keys of
 * the subtrees already kept prevents duplicates. A mutation later asks the
 * store for a stored subtree of a given type.
 *
 * The key the C++ code computes for a subtree (`buffer(node)`) compares two
 * subtrees equal exactly when they are equal as trees (a clone has the key of
 * its original); here the key is the subtree's value `T`, computed from the
 * heap by `Key`.
 */
module ChunkStore {
  import opened CTree

  /** The store's contents as values: the seen keys and, per type, the stored subtrees in order. */
  datatype Chunks = Chunks(seen: set<T>, store: map<U32, seq<T>>)

  /** The list for one type; a type without a list has none stored. */
  function Entries(store: map<U32, seq<T>>, id: U32): seq<T>
  {
    if id in store then store[id] else []
  }

  /** The number of stored subtrees, over all types. */
  ghost function Total(store: map<U32, seq<T>>): nat
    decreases |store.Keys|
  {
    if store.Keys == {} then 0
    else
      var k :| k in store.Keys;
      assert (store - {k}).Keys == store.Keys - {k};
      |store[k]| + Total(store - {k})
  }

  /**
   * The store's invariant: each list is non-empty, holds subtrees of its own
   * type whose keys are seen, and there are as many seen keys as stored
   * subtrees.
   */
  ghost predicate Wf(c: Chunks)
  {
    (forall id | id in c.store :: c.store[id] != []) &&
    (forall id, j | id in c.store && 0 <= j < |c.store[id]| :: c.store[id][j].id == id && c.store[id][j] in c.seen) &&
    |c.seen| == Total(c.store)
  }

  /** The first half of `chunk_store_add_node` for a subtree whose type is not 0: keep it unless its key was seen. */
  function AddOne(c: Chunks, t: T): Chunks
  {
    if t in c.seen then c else Chunks(c.seen + {t}, c.store[t.id := Entries(c.store, t.id) + [t]])
  }

  /**
   * `chunk_store_add_node` on values: nothing for a terminal (type 0);
   * otherwise the subtree itself, then each child in order, whether or not
   * the subtree was new.
   */
  function AddSubtree(c: Chunks, t: T): Chunks
    decreases t, 1
  {
    if t.id == 0 then c else AddChildren(AddOne(c, t), t.kids)
  }

  function AddChildren(c: Chunks, ts: seq<T>): Chunks
    decreases ts, 0
  {
    if ts == [] then c else AddChildren(AddSubtree(c, ts[0]), ts[1..])
  }

  /** Every subtree reachable without passing a terminal has its key seen. */
  ghost predicate Covered(seen: set<T>, t: T)
  {
    t.id == 0 || (t in seen && forall k | k in t.kids :: Covered(seen, k))
  }

  /** The empty store is well formed. */
  lemma EmptyWf()
    ensures Wf(Chunks({}, map[]))
  {
  }

  lemma {:induction false} TotalRemove(store: map<U32, seq<T>>, k: U32)
    requires k in store
    ensures Total(store) == |store[k]| + Total(store - {k})
    decreases |store.Keys|
  {
    var j :| j in store.Keys && Total(store) == |store[j]| + Total(store - {j});
    if j != k {
      assert (store - {j}).Keys == store.Keys - {j};
      assert (store - {k}).Keys == store.Keys - {k};
      TotalRemove(store - {j}, k);
      TotalRemove(store - {k}, j);
      assert store - {j} - {k} == store - {k} - {j};
    }
  }

  /** Replacing one list changes the total by the difference in length. */
  lemma {:induction false} TotalUpdate(store: map<U32, seq<T>>, k: U32, v: seq<T>)
    ensures Total(store[k := v]) == Total(store) - |Entries(store, k)| + |v|
  {
    TotalRemove(store[k := v], k);
    if k in store {
      TotalRemove(store, k);
      assert store[k := v] - {k} == store - {k};
    } else {
      assert store[k := v] - {k} == store;
    }
  }

  /** Keeping one subtree keeps the store well formed. */
  lemma {:induction false} AddOneWf(c: Chunks, t: T)
    requires Wf(c)
    ensures Wf(AddOne(c, t))
  {
    if t !in c.seen {
      var e := Entries(c.store, t.id) + [t];
      var r := AddOne(c, t);
      TotalUpdate(c.store, t.id, e);
      forall id, j | id in r.store && 0 <= j < |r.store[id]|
        ensures r.store[id][j].id == id && r.store[id][j] in r.seen
      {
        if id == t.id && j < |e| - 1 {
          assert r.store[id][j] == Entries(c.store, t.id)[j];
        }
      }
    }
  }

  /** `chunk_store_add_node` keeps the store well formed. */
  lemma {:induction false} AddSubtreeWf(c: Chunks, t: T)
    requires Wf(c)
    ensures Wf(AddSubtree(c, t))
    decreases t, 1
  {
    if t.id != 0 {
      AddOneWf(c, t);
      AddChildrenWf(AddOne(c, t), t.kids);
    }
  }

  lemma {:induction false} AddChildrenWf(c: Chunks, ts: seq<T>)
    requires Wf(c)
    ensures Wf(AddChildren(c, ts))
    decreases ts, 0
  {
    if ts != [] {
      AddSubtreeWf(c, ts[0]);
      AddChildrenWf(AddSubtree(c, ts[0]), ts[1..]);
    }
  }

  /** Adding only ever records more keys. */
  lemma {:induction false} AddSubtreeGrows(c: Chunks, t: T)
    ensures c.seen <= AddSubtree(c, t).seen
    decreases t, 1
  {
    if t.id != 0 {
      AddChildrenGrows(AddOne(c, t), t.kids);
    }
  }

  lemma {:induction false} AddChildrenGrows(c: Chunks, ts: seq<T>)
    ensures c.seen <= AddChildren(c, ts).seen
    decreases ts, 0
  {
    if ts != [] {
      AddSubtreeGrows(c, ts[0]);
      AddChildrenGrows(AddSubtree(c, ts[0]), ts[1..]);
    }
  }

  lemma {:induction false} CoveredMono(s: set<T>, u: set<T>, t: T)
    requires Covered(s, t) && s <= u
    ensures Covered(u, t)
  {
    if t.id != 0 {
      forall k | k in t.kids
        ensures Covered(u, k)
      {
        CoveredMono(s, u, k);
      }
    }
  }

  /** After adding a subtree, all of it that the walk reaches is seen. */
  lemma {:induction false} AddSubtreeCovers(c: Chunks, t: T)
    ensures Covered(AddSubtree(c, t).seen, t)
    decreases t, 1
  {
    if t.id != 0 {
      var c1 := AddOne(c, t);
      AddChildrenCovers(c1, t.kids);
      AddChildrenGrows(c1, t.kids);
    }
  }

  lemma {:induction false} AddChildrenCovers(c: Chunks, ts: seq<T>)
    ensures forall k | k in ts :: Covered(AddChildren(c, ts).seen, k)
    decreases ts, 0
  {
    if ts != [] {
      var c1 := AddSubtree(c, ts[0]);
      AddSubtreeCovers(c, ts[0]);
      AddChildrenCovers(c1, ts[1..]);
      AddChildrenGrows(c1, ts[1..]);
      CoveredMono(c1.seen, AddChildren(c1, ts[1..]).seen, ts[0]);
      assert forall k | k in ts :: k == ts[0] || k in ts[1..];
    }
  }

  /** Adding a subtree whose reachable parts are all seen changes nothing. */
  lemma {:induction false} AddCoveredFixed(c: Chunks, t: T)
    requires Covered(c.seen, t)
    ensures AddSubtree(c, t) == c
    decreases t, 1
  {
    if t.id != 0 {
      AddCoveredChildrenFixed(c, t.kids);
    }
  }

  lemma {:induction false} AddCoveredChildrenFixed(c: Chunks, ts: seq<T>)
    requires forall k | k in ts :: Covered(c.seen, k)
    ensures AddChildren(c, ts) == c
    decreases ts, 0
  {
    if ts != [] {
      AddCoveredFixed(c, ts[0]);
      assert forall k | k in ts[1..] :: k in ts;
      AddCoveredChildrenFixed(c, ts[1..]);
    }
  }

  /** Adding the same subtree twice is the same as adding it once. */
  lemma AddSubtreeIdempotent(c: Chunks, t: T)
    ensures AddSubtree(AddSubtree(c, t), t) == AddSubtree(c, t)
  {
    AddSubtreeCovers(c, t);
    AddCoveredFixed(AddSubtree(c, t), t);
  }

  /**
   * The store test of tests/test_chunk_store.cpp: a type-1 root over `{`
   * (type 0), `123` (type 1) and `}` (type 0), added to an empty store,
   * leaves two seen keys, both stored under type 1.
   */
  lemma {:induction false} AddTreeExample()
    ensures var r := AddSubtree(Chunks({}, map[]), T(1, [], [T(0, [123], []), T(1, [49, 50, 51], []), T(0, [125], [])]));
      |r.seen| == 2 && 1 in r.store && |r.store[1]| == 2
  {
    var a, b, d := T(0, [123], []), T(1, [49, 50, 51], []), T(0, [125], []);
    var t := T(1, [], [a, b, d]);
    var c1 := AddOne(Chunks({}, map[]), t);
    assert Entries(map[], 1) + [t] == [t];
    assert c1 == Chunks({t}, map[1 := [t]]);
    assert [a, b, d][1..] == [b, d] && [b, d][1..] == [d] && [d][1..] == [];
    assert AddSubtree(c1, a) == c1;
    var c2 := AddSubtree(c1, b);
    assert b != t;
    assert AddChildren(AddOne(c1, b), []) == AddOne(c1, b);
    assert Entries(c1.store, 1) + [b] == [t, b];
    assert c2 == Chunks({t, b}, map[1 := [t, b]]);
    assert |{t, b}| == 2;
    assert AddSubtree(c2, d) == c2;
    assert AddChildren(c2, [d]) == c2;
    assert AddChildren(c1, [b, d]) == c2;
    assert AddChildren(c1, [a, b, d]) == c2;
  }

  /** `buffer(node)`: the key of the subtree a node spans, read off the heap. */
  method Key(n: Node) returns (k: T)
    requires n.Valid()
    ensures k == n.Model
    decreases n.Repr
  {
    var ks: seq<T> := [];
    var i := 0;
    while i < |n.kids|
      invariant i <= |n.kids| && ks == n.Model.kids[..i]
    {
      var kk := Key(n.kids[i]);
      ks := ks + [kk];
      TakeNext(n.Model.kids, i);
      i := i + 1;
    }
    TakeAll(n.Model.kids);
    k := T(n.id, n.val, ks);
  }

  /**
   * `node_clone` of a stored subtree: a fresh tree of nodes spanning `t`.
   * The stored clones are kept here as the values they span, so the clone
   * handed out is built from the value.
   */
  method Build(t: T) returns (c: Node)
    ensures fresh(c.Repr) && c.Valid() && c.Model == t && c.parent == null && c.ParentsSet()
    decreases t, 1
  {
    c := new Node(t.id);
    c.SetVal(t.val);
    var i := 0;
    while i < |t.kids|
      invariant i <= |t.kids|
      invariant fresh(c.Repr) && c.Valid() && c.parent == null && c.ParentsSet()
      invariant c.Model == T(t.id, t.val, t.kids[..i])
    {
      AppendBuilt(c, t, i);
      i := i + 1;
    }
    TakeAll(t.kids);
  }

  /** One step of `Build`: a tree for child `i` of `t` becomes the last child of `c`. */
  method AppendBuilt(c: Node, t: T, i: nat)
    requires c.Valid() && i < |t.kids| && c.Model.kids == t.kids[..i]
    modifies c`kids, c`Repr, c`Model
    ensures c.Valid() && fresh(c.Repr - old(c.Repr)) && c.Model == old(c.Model).(kids := t.kids[..i + 1])
    ensures old(c.ParentsSet()) ==> c.ParentsSet()
    decreases t, 0
  {
    var k := Build(t.kids[i]);
    c.AppendSubnode(k);
    TakeNext(t.kids, i);
  }

  /**
   * The globals `chunk_store` (a list of clones per type) and `seen_chunks`
   * (the keys of the subtrees stored). Each clone is kept as the value of
   * the subtree it copies.
   */
  class Store {
    var seen: set<T>
    var store: map<U32, seq<T>>

    /** What the store holds. */
    function Contents(): Chunks
      reads this
    {
      Chunks(seen, store)
    }

    ghost predicate Valid()
      reads this
    {
      Wf(Contents())
    }

    /** The store at program start: no keys and no lists. */
    constructor()
      ensures Valid() && Contents() == Chunks({}, map[])
    {
      seen := {};
      store := map[];
      EmptyWf();
    }

    /**
     * `chunk_store_add_node`: nothing for an absent node or a terminal;
     * otherwise a clone of the node is kept when its key is new, and then
     * each child is added in turn.
     */
    method AddNode(n: Node?)
      requires Valid() && (n != null ==> n.Valid())
      modifies this
      ensures Valid()
      ensures Contents() == if n == null then old(Contents()) else AddSubtree(old(Contents()), n.Model)
      decreases if n == null then {} else n.Repr
    {
      if n == null {
        return;
      }
      if n.id == 0 {
        return;
      }
      var key := Key(n);
      Keep(key);
      var i := 0;
      while i < |n.kids|
        invariant n.Valid()
        invariant i <= |n.kids| && Valid()
        invariant AddChildren(Contents(), n.Model.kids[i..]) == AddSubtree(old(Contents()), n.Model)
      {
        assert n.Model.kids[i..][1..] == n.Model.kids[i + 1..];
        AddNode(n.kids[i]);
        i := i + 1;
      }
    }

    /** The first half of `chunk_store_add_node`: a subtree with a new key is recorded and stored under its type. */
    method Keep(key: T)
      requires Valid()
      modifies this
      ensures Valid() && Contents() == AddOne(old(Contents()), key)
    {
      if key !in seen {
        AddOneWf(Contents(), key);
        var list := if key.id in store then store[key.id] else [];
        seen := seen + {key};
        store := store[key.id := list + [key]];
      }
    }

    /** `chunk_store_add_tree`: nothing for an absent tree, otherwise its root is added. */
    method AddTree(t: Tree?)
      requires Valid() && (t != null && t.root != null ==> t.root.Valid())
      modifies this
      ensures Valid()
      ensures Contents() == if t == null || t.root == null then old(Contents()) else AddSubtree(old(Contents()), t.root.Model)
    {
      if t == null {
        return;
      }
      AddNode(t.root);
    }

    /**
     * `chunk_store_get_alternative_node`: nothing for an absent node or a
     * type without a list; otherwise a fresh clone of the stored subtree the
     * draw `draw` (what libc `random()` returned) selects, `draw` modulo the
     * list's length.
     */
    method GetAlternativeNode(n: Node?, draw: nat) returns (r: Node?)
      requires Valid()
      ensures n == null || n.id !in store ==> r == null
      ensures n != null && n.id in store ==>
        r != null && fresh(r.Repr) && r.Valid() && r.Model == store[n.id][draw % |store[n.id]|] &&
        r.Model.id == n.id && r.Model in seen
    {
      if n == null {
        return null;
      }
      if n.id !in store {
        return null;
      }
      var list := store[n.id];
      var size := |list|;
      var prob := draw % size;
      r := Build(list[prob]);
    }

    /** `chunk_store_clear`: the seen keys and the lists are all dropped. */
    method Clear()
      modifies this
      ensures Valid() && Contents() == Chunks({}, map[])
    {
      seen := {};
      store := map[];
      EmptyWf();
    }
  }
}
