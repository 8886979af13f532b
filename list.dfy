/**
 * The doubly linked list of src/list.c (include/list.h). A list has `head`,
 * `tail` and `size`; each node has `next`, `prev` and an opaque `data`
 * pointer, compared by identity. The ghost sequence `Nodes` is the chain
 * from `head` to `tail` and `Items` the data it carries.
 */
module DList {

  class LNode<D> {
    var next: LNode?<D>
    var prev: LNode?<D>
    var data: D

    constructor(d: D, nx: LNode?<D>, pv: LNode?<D>)
      ensures data == d && next == nx && prev == pv
    {
      data := d;
      next := nx;
      prev := pv;
    }
  }

  class List<D> {
    var head: LNode?<D>
    var tail: LNode?<D>
    var size: nat
    ghost var Nodes: seq<LNode<D>>
    ghost var Items: seq<D>
    ghost var Repr: set<object>

    /**
     * The list invariant: `head` and `tail` are the ends of the chain, each
     * node's `prev` and `next` are its neighbours in it (null at the ends),
     * no node occurs twice, and `size` is the chain's length.
     */
    ghost predicate Valid()
      reads this, Repr
    {
      this in Repr && size == |Nodes| == |Items| &&
      head == (if Nodes == [] then null else Nodes[0]) &&
      tail == (if Nodes == [] then null else Nodes[|Nodes| - 1]) &&
      (forall i :: 0 <= i < |Nodes| ==> Nodes[i] in Repr && Nodes[i].data == Items[i]) &&
      (Nodes != [] ==> Nodes[0].prev == null && Nodes[|Nodes| - 1].next == null) &&
      (forall i :: 0 <= i < |Nodes| - 1 ==> Nodes[i].next == Nodes[i + 1] && Nodes[i + 1].prev == Nodes[i]) &&
      (forall i, j :: 0 <= i < j < |Nodes| ==> Nodes[i] != Nodes[j])
    }

    /** `list_create`: an empty list. */
    constructor()
      ensures Valid() && fresh(Repr) && Items == [] && head == null && tail == null && size == 0
    {
      head, tail, size := null, null, 0;
      Nodes, Items := [], [];
      Repr := {this};
    }
  }

  /** The items after removing the first occurrence of `x`; unchanged when there is none. */
  function RemoveFirst<D(==)>(s: seq<D>, x: D): (r: seq<D>)
  {
    if s == [] then [] else if s[0] == x then s[1..] else [s[0]] + RemoveFirst(s[1..], x)
  }

  /** Removal takes out exactly one occurrence when there is one, and nothing otherwise. */
  lemma {:induction false} RemoveFirstSpec<D>(s: seq<D>, x: D)
    ensures x in s ==> multiset(RemoveFirst(s, x)) == multiset(s) - multiset{x} && |RemoveFirst(s, x)| == |s| - 1
    ensures x !in s ==> RemoveFirst(s, x) == s
  {
    if s != [] {
      RemoveFirstSpec(s[1..], x);
      assert s == [s[0]] + s[1..];
    }
  }

  /** Removing at the first occurrence's index is `RemoveFirst`. */
  lemma {:induction false} RemoveFirstAt<D>(s: seq<D>, x: D, i: nat)
    requires i < |s| && s[i] == x && forall j :: 0 <= j < i ==> s[j] != x
    ensures RemoveFirst(s, x) == s[..i] + s[i + 1..]
  {
    if i > 0 {
      RemoveFirstAt(s[1..], x, i - 1);
      assert s[1..][..i - 1] == s[1..i] && s[1..][i..] == s[i + 1..];
      assert [s[0]] + s[1..i] == s[..i];
    }
  }

  /**
   * `list_insert`: nothing for an absent list; otherwise a new node holding
   * `d` becomes the head (and the tail too when the list was empty).
   */
  method Insert<D>(l: List?<D>, d: D) returns (n: LNode?<D>)
    requires l != null ==> l.Valid()
    modifies if l == null then {} else l.Repr
    ensures l == null ==> n == null
    ensures l != null ==> l.Valid() && fresh(l.Repr - old(l.Repr)) && n != null && fresh(n)
    ensures l != null ==> l.Items == [d] + old(l.Items) && l.head == n && n.data == d
    ensures l != null && old(l.Items) == [] ==> l.tail == n
  {
    if l == null {
      return null;
    }
    ghost var ns := l.Nodes;
    n := new LNode(d, l.head, null);
    if l.tail == null {
      l.tail := n;
    } else {
      l.head.prev := n;
    }
    l.head := n;
    l.size := l.size + 1;
    l.Nodes := [n] + l.Nodes;
    l.Items := [d] + l.Items;
    l.Repr := l.Repr + {n};
    forall i | 0 <= i < |l.Nodes|
      ensures l.Nodes[i] in l.Repr && l.Nodes[i].data == l.Items[i]
    {
      if i > 0 {
        assert l.Nodes[i] == ns[i - 1];
      }
    }
    forall i | 0 <= i < |l.Nodes| - 1
      ensures l.Nodes[i].next == l.Nodes[i + 1] && l.Nodes[i + 1].prev == l.Nodes[i]
    {
      assert l.Nodes[i + 1] == ns[i];
      if i > 0 {
        assert l.Nodes[i] == ns[i - 1] && ns[i] != ns[0];
      }
    }
    forall i, j | 0 <= i < j < |l.Nodes|
      ensures l.Nodes[i] != l.Nodes[j]
    {
      assert l.Nodes[j] == ns[j - 1];
      if i > 0 {
        assert l.Nodes[i] == ns[i - 1];
      }
    }
  }

  /**
   * `list_append`: nothing for an absent list; otherwise a new node holding
   * `d` becomes the tail (and the head too when the list was empty).
   */
  method Append<D>(l: List?<D>, d: D) returns (n: LNode?<D>)
    requires l != null ==> l.Valid()
    modifies if l == null then {} else l.Repr
    ensures l == null ==> n == null
    ensures l != null ==> l.Valid() && fresh(l.Repr - old(l.Repr)) && n != null && fresh(n)
    ensures l != null ==> l.Items == old(l.Items) + [d] && l.tail == n && n.data == d
    ensures l != null && old(l.Items) == [] ==> l.head == n
  {
    if l == null {
      return null;
    }
    ghost var ns := l.Nodes;
    n := new LNode(d, null, l.tail);
    if l.head == null {
      l.head := n;
    } else {
      l.tail.next := n;
    }
    l.tail := n;
    l.size := l.size + 1;
    l.Nodes := l.Nodes + [n];
    l.Items := l.Items + [d];
    l.Repr := l.Repr + {n};
    forall i | 0 <= i < |l.Nodes|
      ensures l.Nodes[i] in l.Repr && l.Nodes[i].data == l.Items[i]
    {
      if i < |ns| {
        assert l.Nodes[i] == ns[i];
      }
    }
    forall i | 0 <= i < |l.Nodes| - 1
      ensures l.Nodes[i].next == l.Nodes[i + 1] && l.Nodes[i + 1].prev == l.Nodes[i]
    {
      assert l.Nodes[i] == ns[i];
      if i + 1 < |ns| {
        assert l.Nodes[i + 1] == ns[i + 1] && ns[i] != ns[|ns| - 1];
      }
    }
    forall i, j | 0 <= i < j < |l.Nodes|
      ensures l.Nodes[i] != l.Nodes[j]
    {
      assert l.Nodes[i] == ns[i];
      if j < |ns| {
        assert l.Nodes[j] == ns[j];
      }
    }
  }

  /**
   * `list_remove`: unlinks the first node carrying `d` and reports whether
   * there was one; an absent or empty list, or absent data, changes nothing.
   */
  method Remove<D(==)>(l: List?<D>, d: D) returns (r: bool)
    requires l != null ==> l.Valid()
    modifies if l == null then {} else l.Repr
    ensures l == null ==> !r
    ensures l != null ==> l.Valid() && l.Repr <= old(l.Repr)
    ensures l != null ==> (r <==> d in old(l.Items)) && l.Items == RemoveFirst(old(l.Items), d)
  {
    if l == null {
      return false;
    }
    RemoveFirstSpec(l.Items, d);
    if l.size == 0 || l.head == null {
      return false;
    }
    var cur := l.head;
    ghost var i := 0;
    while cur != null
      invariant i <= |l.Nodes| && cur == (if i == |l.Nodes| then null else l.Nodes[i])
      invariant forall j :: 0 <= j < i ==> l.Items[j] != d
      decreases |l.Nodes| - i
    {
      var next := cur.next;
      if cur.data == d {
        RemoveFirstAt(l.Items, d, i);
        Unlink(l, cur, i);
        return true;
      }
      cur := next;
      i := i + 1;
    }
    return false;
  }

  /** The unlinking step of `list_remove`, for the node at position `i`. */
  method Unlink<D>(l: List<D>, cur: LNode<D>, ghost i: nat)
    requires l.Valid() && i < |l.Nodes| && cur == l.Nodes[i]
    modifies l.Repr
    ensures l.Valid() && l.Repr == old(l.Repr) - {old(l.Nodes[i])}
    ensures l.Nodes == old(l.Nodes[..i] + l.Nodes[i + 1..]) && l.Items == old(l.Items[..i] + l.Items[i + 1..])
  {
    ghost var ns := l.Nodes;
    ghost var n := |ns|;
    ghost var before, after := cur.prev, cur.next;
    assert i > 0 ==> ns[i - 1].next == cur && before == ns[i - 1];
    assert i < n - 1 ==> ns[i + 1].prev == cur && after == ns[i + 1];
    assert forall j :: 0 <= j < n && j != i ==> ns[j] != cur;
    Relink(l, cur, if before == null then {} else {before}, if after == null then {} else {after});
    l.size := l.size - 1;
    l.Nodes := ns[..i] + ns[i + 1..];
    l.Items := l.Items[..i] + l.Items[i + 1..];
    l.Repr := l.Repr - {cur};
    forall j | 0 <= j < n - 1 && j + 1 != i && j != i
      ensures ns[j].next == ns[j + 1] && ns[j + 1].prev == ns[j]
    {
      assert i > 0 ==> ns[j] != ns[i - 1];
      assert i < n - 1 ==> ns[j + 1] != ns[i + 1];
    }
    ValidAfterRemoval(l, ns, old(l.Items), i);
  }

  /** The list whose chain is `ns` without position `i`, relinked around it, is valid. */
  lemma ValidAfterRemoval<D>(l: List<D>, ns: seq<LNode<D>>, items: seq<D>, i: nat)
    requires i < |ns| == |items| && l in l.Repr
    requires l.Nodes == ns[..i] + ns[i + 1..] && l.Items == items[..i] + items[i + 1..] && l.size == |ns| - 1
    requires forall j :: 0 <= j < |ns| && j != i ==> ns[j] in l.Repr && ns[j].data == items[j]
    requires forall j, k :: 0 <= j < k < |ns| ==> ns[j] != ns[k]
    requires forall j :: 0 <= j < |ns| - 1 && j + 1 != i && j != i ==> ns[j].next == ns[j + 1] && ns[j + 1].prev == ns[j]
    requires 0 < i < |ns| - 1 ==> ns[i - 1].next == ns[i + 1] && ns[i + 1].prev == ns[i - 1]
    requires l.head == (if i == 0 then (if |ns| == 1 then null else ns[1]) else ns[0])
    requires l.tail == (if i == |ns| - 1 then (if i == 0 then null else ns[i - 1]) else ns[|ns| - 1])
    requires |ns| > 1 ==> (if i == 0 then ns[1] else ns[0]).prev == null
    requires |ns| > 1 ==> (if i == |ns| - 1 then ns[i - 1] else ns[|ns| - 1]).next == null
    ensures l.Valid()
  {
    LinkedRemoval(ns, i);
    DistinctRemoval(ns, i);
    var ms := l.Nodes;
    forall j | 0 <= j < |ms|
      ensures ms[j] in l.Repr && ms[j].data == l.Items[j]
    {
      assert ms[j] == (if j < i then ns[j] else ns[j + 1]);
    }
  }

  /** Joining the two neighbours of position `i` keeps the rest of the chain linked. */
  lemma {:induction false} LinkedRemoval<D>(ns: seq<LNode<D>>, i: nat)
    requires i < |ns|
    requires forall j :: 0 <= j < |ns| - 1 && j + 1 != i && j != i ==> ns[j].next == ns[j + 1] && ns[j + 1].prev == ns[j]
    requires 0 < i < |ns| - 1 ==> ns[i - 1].next == ns[i + 1] && ns[i + 1].prev == ns[i - 1]
    ensures var ms := ns[..i] + ns[i + 1..];
      forall j :: 0 <= j < |ms| - 1 ==> ms[j].next == ms[j + 1] && ms[j + 1].prev == ms[j]
  {
    var ms := ns[..i] + ns[i + 1..];
    forall j | 0 <= j < |ms| - 1
      ensures ms[j].next == ms[j + 1] && ms[j + 1].prev == ms[j]
    {
      if j + 1 < i {
        assert ms[j] == ns[j] && ms[j + 1] == ns[j + 1];
      } else if j + 1 == i {
        assert ms[j] == ns[i - 1] && ms[j + 1] == ns[i + 1];
      } else {
        assert ms[j] == ns[j + 1] && ms[j + 1] == ns[j + 2];
      }
    }
  }

  /** Removing one position keeps a sequence of distinct nodes distinct. */
  lemma {:induction false} DistinctRemoval<D>(ns: seq<LNode<D>>, i: nat)
    requires i < |ns|
    requires forall j, k :: 0 <= j < k < |ns| ==> ns[j] != ns[k]
    ensures var ms := ns[..i] + ns[i + 1..];
      forall j, k :: 0 <= j < k < |ms| ==> ms[j] != ms[k]
  {
    var ms := ns[..i] + ns[i + 1..];
    forall j, k | 0 <= j < k < |ms|
      ensures ms[j] != ms[k]
    {
      assert ms[j] == (if j < i then ns[j] else ns[j + 1]);
      assert ms[k] == (if k < i then ns[k] else ns[k + 1]);
    }
  }

  /**
   * The pointer surgery of `list_remove`: the neighbours of `cur` are joined,
   * `head` and `tail` move off it, and its own links are cleared.
   */
  method Relink<D>(l: List<D>, cur: LNode<D>, ghost before: set<LNode<D>>, ghost after: set<LNode<D>>)
    requires cur.prev != cur && cur.next != cur && (cur.prev == null || cur.prev != cur.next)
    requires before == (if cur.prev == null then {} else {cur.prev})
    requires after == (if cur.next == null then {} else {cur.next})
    modifies l`head, l`tail, cur`next, cur`prev, before`next, after`prev
    ensures l.head == (if old(l.head) == cur then old(cur.next) else old(l.head))
    ensures l.tail == (if old(l.tail) == cur then old(cur.prev) else old(l.tail))
    ensures old(cur.prev) != null ==> old(cur.prev).next == old(cur.next)
    ensures old(cur.next) != null ==> old(cur.next).prev == old(cur.prev)
    ensures cur.next == null && cur.prev == null
  {
    if cur == l.head {
      l.head := cur.next;
    }
    if cur == l.tail {
      l.tail := cur.prev;
    }
    if cur.prev != null {
      cur.prev.next := cur.next;
    }
    if cur.next != null {
      cur.next.prev := cur.prev;
    }
    cur.next := null;
    cur.prev := null;
  }

  /**
   * `list_free`: every node is cut loose (`next` and `prev` cleared) and the
   * list is left with no head, no tail and size 0.
   */
  method Free<D>(l: List?<D>)
    requires l != null ==> l.Valid()
    modifies if l == null then {} else l.Repr
    ensures l != null ==> l.Valid() && l.head == null && l.tail == null && l.size == 0 && l.Items == []
    ensures l != null ==> forall j :: 0 <= j < |old(l.Nodes)| ==> old(l.Nodes)[j].next == null && old(l.Nodes)[j].prev == null
  {
    if l == null {
      return;
    }
    ghost var ns := l.Nodes;
    assert forall j, k :: 0 <= j < k < |ns| ==> ns[j] != ns[k];
    var cur := l.head;
    ghost var i := 0;
    while cur != null
      invariant i <= |ns| && cur == (if i == |ns| then null else ns[i])
      invariant l.Nodes == ns && l.Repr == old(l.Repr) && l in l.Repr
      invariant forall j :: 0 <= j < |ns| ==> ns[j] in l.Repr
      invariant forall j :: 0 <= j < i ==> ns[j].next == null && ns[j].prev == null
      invariant forall j :: i <= j < |ns| - 1 ==> ns[j].next == ns[j + 1]
      invariant i < |ns| ==> ns[|ns| - 1].next == null
      decreases |ns| - i
    {
      var next := cur.next;
      cur.next := null;
      cur.prev := null;
      cur := next;
      i := i + 1;
    }
    l.head := null;
    l.tail := null;
    l.size := 0;
    l.Nodes := [];
    l.Items := [];
  }
}
