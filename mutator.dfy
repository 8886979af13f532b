/**
 * The AFL++ custom-mutator entry points of src/grammar_mutator.c: the
 * trimming-stage machine (`afl_custom_init_trim`, `afl_custom_trim`,
 * `afl_custom_post_trim`), output sizing in `afl_custom_fuzz`, the
 * `/queue/` to `/trees/` file-name rewrite of `afl_custom_queue_get` and
 * `afl_custom_queue_new_entry`, and `afl_custom_deinit`.
 *
 * The mutator's trees are held as values (`T`). The lists a tree carries,
 * `non_terminal_node_list` and `recursion_edge_list`, are fields of the
 * mutator that belong to the current tree; the functions that fill them
 * (`tree_get_non_terminal_nodes`, `tree_get_recursion_edges`) are not part
 * of this model, so their results come in as parameters.
 */
module GrammarMutator {
  import opened Wrappers
  import opened Bytes
  import opened CTree
  import opened TreeTrimming
  import opened ChunkStore
  import opened CUtils

  /** `PATH_MAX` on Linux: the size of the two file-name buffers. */
  const PathMax: nat := 4096

  /** The conversion of a `size_t` to `int32_t` (the low 32 bits, read as two's complement). */
  function Int32(x: U64): (r: int)
    ensures -0x8000_0000 <= r < 0x8000_0000 && (r - x) % 0x1_0000_0000 == 0
  {
    var w := x % 0x1_0000_0000;
    if w >= 0x8000_0000 then w - 0x1_0000_0000 else w
  }

  /** The smaller of two counts. */
  function Min(a: nat, b: nat): (m: nat)
    ensures m <= a && m <= b && (m == a || m == b)
  {
    if a <= b then a else b
  }

  /** What `afl_custom_trim` hands back through `out_buf`. */
  datatype TrimOut =
    | Trimmed(data: seq<Byte>)   // the bytes of the trimmed tree
    | NoBuffer                   // `*out_buf` set to NULL, 0 returned
    | Fault                      // a NULL pointer is dereferenced

  /** The text of a C string held in a buffer: everything before the first NUL. */
  function CStr(b: seq<char>): (s: seq<char>)
    ensures |s| <= |b| && s == b[..|s|] && '\0' !in s && (|s| < |b| ==> b[|s|] == '\0')
  {
    if b == [] || b[0] == '\0' then [] else [b[0]] + CStr(b[1..])
  }

  /** `strstr`: the first offset at or after `i` where `pat` occurs in `s`. */
  function FindFrom(s: seq<char>, pat: seq<char>, i: nat): (r: Option<nat>)
    requires i <= |s|
    ensures r.Some? ==> i <= r.value && Occurs(s, pat, r.value) && forall j :: i <= j < r.value ==> !Occurs(s, pat, j)
    ensures r.None? ==> forall j :: i <= j <= |s| ==> !Occurs(s, pat, j)
    decreases |s| - i
  {
    if Occurs(s, pat, i) then Some(i)
    else if i == |s| then None
    else FindFrom(s, pat, i + 1)
  }

  /** The first occurrence of `pat` in `s`, as `strstr` finds it. */
  function Find(s: seq<char>, pat: seq<char>): Option<nat>
  {
    FindFrom(s, pat, 0)
  }

  const Queue: string := "/queue/"

  /** `s` with the five characters after offset `k` replaced by `trees`. */
  function PutTrees(s: seq<char>, k: nat): (r: seq<char>)
    requires k + 6 <= |s|
    ensures |r| == |s| && r[k + 1..k + 6] == "trees"
    ensures forall j :: 0 <= j < |s| && !(k + 1 <= j < k + 6) ==> r[j] == s[j]
  {
    s[..k + 1] + "trees" + s[k + 6..]
  }

  /** The intended file name: `name` with its first `/queue/` turned into `/trees/`. */
  function QueueToTrees(name: string): Option<string>
  {
    match Find(name, Queue)
    case None => None
    case Some(k) => Some(PutTrees(name, k))
  }

  /** What `strncpy(buf, fn, strlen(fn))` leaves: `fn` over the start of the old contents, with no terminator. */
  function CopyOver(buf: seq<char>, fn: string): (r: seq<char>)
    requires |fn| <= |buf|
    ensures |r| == |buf| && r[..|fn|] == fn && r[|fn|..] == buf[|fn|..]
  {
    fn + buf[|fn|..]
  }

  /**
   * The buffer after the rewrite of src/grammar_mutator.c:104-112: the
   * name copied over the old contents, then the first `/queue/` of the C
   * string found there turned into `/trees/`; `None` when there is none.
   */
  function RewriteAsWritten(buf: seq<char>, fn: string): Option<seq<char>>
    requires |fn| <= |buf|
  {
    var copied := CopyOver(buf, fn);
    match Find(CStr(copied), Queue)
    case None => None
    case Some(k) => Some(PutTrees(copied, k))
  }

  /**
   * When the old contents end where the new name does (a NUL right after
   * it, as in a fresh buffer or after a name of the same length), the
   * rewrite yields the intended name.
   */
  lemma {:induction false} RewriteAfterTerminator(buf: seq<char>, fn: string)
    requires |fn| < |buf| && buf[|fn|] == '\0' && '\0' !in fn
    ensures CStr(CopyOver(buf, fn)) == fn
    ensures RewriteAsWritten(buf, fn).None? <==> QueueToTrees(fn).None?
    ensures RewriteAsWritten(buf, fn).Some? ==> CStr(RewriteAsWritten(buf, fn).value) == QueueToTrees(fn).value
  {
    var copied := CopyOver(buf, fn);
    CStrPrefix(copied, |fn|);
    var r := RewriteAsWritten(buf, fn);
    if r.Some? {
      var k := Find(fn, Queue).value;
      CStrPrefix(r.value, |fn|);
      assert r.value[..|fn|] == PutTrees(fn, k);
    }
  }

  /** A buffer whose first NUL is at `n` holds the C string of its first `n` characters. */
  lemma {:induction false} CStrPrefix(b: seq<char>, n: nat)
    requires n < |b| && b[n] == '\0' && '\0' !in b[..n]
    ensures CStr(b) == b[..n]
    decreases n
  {
    if n > 0 {
      assert b[0] in b[..n];
      assert b[1..][..n - 1] == b[1..n];
      assert forall c | c in b[1..][..n - 1] :: c in b[..n];
      CStrPrefix(b[1..], n - 1);
      assert b[..n] == [b[0]] + b[1..n];
    } else {
      assert b[0] == '\0';
    }
  }

  /**
   * The stale tail: after `/queue/ab` the buffer holds `/trees/ab`; copying
   * the shorter `/queue/a` over it without a terminator leaves `/queue/ab`,
   * so the tree file looked up is `/trees/ab` and not `/trees/a`.
   */
  lemma {:induction false} StaleTail()
    ensures var first := RewriteAsWritten(seq(PathMax, _ => '\0'), "/queue/ab");
      first.Some? && |first.value| == PathMax &&
      var second := RewriteAsWritten(first.value, "/queue/a");
      second.Some? && CStr(second.value) == "/trees/ab" &&
      QueueToTrees("/queue/a") == Some("/trees/a")
  {
    var z: seq<char> := seq(PathMax, _ => '\0');
    assert Occurs("/queue/ab", Queue, 0);
    assert Occurs("/queue/a", Queue, 0);
    RewriteAfterTerminator(z, "/queue/ab");
    var first := RewriteAsWritten(z, "/queue/ab").value;
    assert first[..9] == "/trees/ab" && first[9] == '\0';
    assert first[8] == 'b';
    var copied := CopyOver(first, "/queue/a");
    assert copied[..9] == "/queue/ab" && copied[9] == '\0';
    CStrPrefix(copied, 9);
    assert Find(CStr(copied), Queue) == Some(0);
    var second := RewriteAsWritten(first, "/queue/a").value;
    assert second[..9] == "/trees/ab" && second[9] == '\0';
    CStrPrefix(second, 9);
    assert CStr(second) == "/trees/ab";
    assert PutTrees("/queue/a", 0) == "/trees/a";
    assert QueueToTrees("/queue/a") == Some("/trees/a");
    assert |first| == PathMax;
  }

  /** The rewrite with the terminator copied too: the result never depends on the old contents. */
  function RewriteTerminated(buf: seq<char>, fn: string): Option<seq<char>>
    requires |fn| < |buf|
  {
    var copied := CopyOver(buf, fn + "\0");
    match Find(CStr(copied), Queue)
    case None => None
    case Some(k) => Some(PutTrees(copied, k))
  }

  /** Copying the terminator makes the rewrite yield the intended name whatever the buffer held. */
  lemma RewriteTerminatedIntended(buf: seq<char>, fn: string)
    requires |fn| < |buf| && '\0' !in fn
    ensures RewriteTerminated(buf, fn).None? <==> QueueToTrees(fn).None?
    ensures RewriteTerminated(buf, fn).Some? ==> CStr(RewriteTerminated(buf, fn).value) == QueueToTrees(fn).value
  {
    var b2 := CopyOver(buf, fn + "\0");
    assert b2[|fn|] == '\0';
    assert fn + b2[|fn|..] == b2 by {
      assert b2[..|fn|] == fn;
    }
    assert CopyOver(b2, fn) == b2;
    RewriteAfterTerminator(b2, fn);
  }

  /** `strncpy(buf, src, |src|)`: the characters of `src` over the start of `buf`. */
  method CopyInto(buf: array<char>, src: seq<char>)
    requires |src| <= buf.Length
    modifies buf
    ensures buf[..] == CopyOver(old(buf[..]), src)
  {
    ghost var before := buf[..];
    var i := 0;
    while i < |src|
      invariant i <= |src|
      invariant forall j :: 0 <= j < i ==> buf[j] == src[j]
      invariant forall j :: i <= j < buf.Length ==> buf[j] == before[j]
    {
      buf[i] := src[i];
      i := i + 1;
    }
    assert buf[..] == CopyOver(before, src);
  }

  /** Overwrites the five characters after offset `k` with `trees`. */
  method WriteTrees(buf: array<char>, k: nat)
    requires k + 6 <= buf.Length
    modifies buf
    ensures buf[..] == PutTrees(old(buf[..]), k)
  {
    buf[k + 1], buf[k + 2], buf[k + 3], buf[k + 4], buf[k + 5] := 't', 'r', 'e', 'e', 's';
  }

  /**
   * src/grammar_mutator.c:104-112 (and :341-349 for `new_tree_fn`):
   * `strncpy(buf, fn, strlen(fn))`, then `strstr(buf, "/queue/")`, then
   * `queue` overwritten with `trees`. Reports whether `/queue/` was found.
   */
  method CopyAndRewrite(buf: array<char>, fn: string) returns (ok: bool)
    requires buf.Length == PathMax && |fn| < PathMax
    modifies buf
    ensures var r := RewriteAsWritten(old(buf[..]), fn);
      ok == r.Some? && buf[..] == if ok then r.value else CopyOver(old(buf[..]), fn)
  {
    CopyInto(buf, fn);
    var found := Find(CStr(buf[..]), Queue);
    if found.None? {
      return false;
    }
    WriteTrees(buf, found.value);
    return true;
  }

  /** The corrected copy: `strncpy(buf, fn, strlen(fn) + 1)`, so the terminator is written as well. */
  method CopyAndRewriteTerminated(buf: array<char>, fn: string) returns (ok: bool)
    requires buf.Length == PathMax && |fn| < PathMax && '\0' !in fn
    modifies buf
    ensures var r := RewriteTerminated(old(buf[..]), fn);
      ok == r.Some? && buf[..] == if ok then r.value else CopyOver(old(buf[..]), fn + "\0")
    ensures ok <==> QueueToTrees(fn).Some?
    ensures ok ==> Some(CStr(buf[..])) == QueueToTrees(fn)
  {
    RewriteTerminatedIntended(buf[..], fn);
    CopyInto(buf, fn + "\0");
    var found := Find(CStr(buf[..]), Queue);
    if found.None? {
      return false;
    }
    WriteTrees(buf, found.value);
    return true;
  }

  /** The directory of a queue entry: `fn` up to its last `/`, or `None` when it has none (`strrchr`). */
  function Dir(fn: string): (d: Option<string>)
    ensures d.Some? ==> (|d.value| < |fn| && d.value == fn[..|d.value|] && fn[|d.value|] == '/' &&
      '/' !in fn[|d.value| + 1..])
    ensures d.None? ==> '/' !in fn
  {
    if fn == [] then None
    else if fn[|fn| - 1] == '/' then Some(fn[..|fn| - 1])
    else match Dir(fn[..|fn| - 1])
      case None => None
      case Some(p) => assert fn[..|fn| - 1][..|p|] == fn[..|p|]; Some(p)
  }

  /** The stage `afl_custom_post_trim` moves to: 0 to 1 once the subtree steps are done, then 1 to 2 once the recursive steps are. */
  function NextStage(stage: nat, curSub: int, totalSub: int, curRec: int, totalRec: int): (s: nat)
    ensures stage <= s && (stage <= 2 ==> s <= 2)
    ensures stage >= 2 ==> s == stage
    ensures stage == 0 ==> (s >= 1 <==> curSub >= totalSub)
    ensures stage <= 1 ==> (s == 2 <==> (stage == 1 || curSub >= totalSub) && curRec >= totalRec)
  {
    var s1 := if stage == 0 && curSub >= totalSub then 1 else stage;
    if s1 == 1 && curRec >= totalRec then 2 else s1
  }

  /** The pop loop of `afl_custom_post_trim`: `list_pop_front` called `count` times, each on an empty list doing nothing. */
  method DropFront(nodes: seq<seq<nat>>, count: U64) returns (rest: seq<seq<nat>>)
    ensures rest == nodes[Min(count, |nodes|)..]
  {
    rest := nodes;
    var i := 0;
    while i < count
      invariant i <= count && rest == nodes[Min(i, |nodes|)..]
    {
      if rest != [] {
        rest := rest[1..];
      }
      i := i + 1;
    }
  }

  /**
   * A `tree_t` as the mutator uses its current tree: the tree with the
   * lists `non_terminal_node_list` (the non-terminal nodes, as paths from
   * the root) and `recursion_edge_list`.
   */
  datatype CurTree = CurTree(root: T, nodes: seq<seq<nat>>, edges: seq<Edge>)

  /** `chunk_store_add_tree` on a tree given as a value: its nodes are built, then added. */
  method StoreTree(store: Store, t: T)
    requires store.Valid()
    modifies store
    ensures store.Valid() && store.Contents() == AddSubtree(old(store.Contents()), t)
  {
    var root := Build(t);
    store.AddNode(root);
  }

  /** Every recursion edge in the list is an edge of the tree. */
  ghost predicate EdgesFit(c: CurTree)
  {
    forall e | e in c.edges :: IsEdge(c.root, e)
  }

  /** The trimming fields of `my_mutator_t`: the stage and the step counters of both stages. */
  datatype Steps = Steps(stage: nat, curSubtree: U64, totalSubtree: U64, curRecursive: U64, totalRecursive: U64)

  /**
   * `my_mutator_t`: the current tree with its lists, the trimming state,
   * the last mutated and trimmed trees, the output buffer, the two file-name
   * buffers, and the chunk store. `trees` stands for the tree output
   * directory: what each file name holds, `None` for a file that does not
   * deserialize.
   */
  class Mutator {
    var treeCur: Option<CurTree>
    var mutatedTree: Option<T>
    var trimmedTree: Option<T>
    var steps: Steps
    var fuzzBuf: seq<Byte>
    var treeOutDirExist: bool
    var trees: map<string, Option<T>>
    const treeFnCur: array<char>
    const newTreeFn: array<char>
    const store: Store

    /** The buffers' size, a stage the machine can reach, and lists that belong to the current tree. The chunk store keeps its own `Valid`. */
    ghost predicate Valid()
      reads this
    {
      treeFnCur.Length == PathMax && newTreeFn.Length == PathMax && treeFnCur != newTreeFn &&
      steps.stage <= 2 && (treeCur.Some? ==> EdgesFit(treeCur.value))
    }

    /** `afl_custom_init`: a zeroed mutator over an empty chunk store. */
    constructor(files: map<string, Option<T>>)
      ensures Valid() && store.Valid() && fresh(treeFnCur) && fresh(newTreeFn) && fresh(store)
      ensures treeCur.None? && mutatedTree.None? && trimmedTree.None? && steps == Steps(0, 0, 0, 0, 0)
      ensures !treeOutDirExist && trees == files && store.Contents() == Chunks({}, map[])
      ensures treeFnCur[..] == seq(PathMax, _ => '\0') && newTreeFn[..] == seq(PathMax, _ => '\0')
    {
      treeCur, mutatedTree, trimmedTree := None, None, None;
      steps := Steps(0, 0, 0, 0, 0);
      fuzzBuf, treeOutDirExist, trees := [], false, files;
      treeFnCur := new char[PathMax](_ => '\0');
      newTreeFn := new char[PathMax](_ => '\0');
      store := new Store();
    }

    /**
     * `afl_custom_init_trim`: 0 and no change without a current tree;
     * otherwise the lists of the current tree are computed (`nonTerms`,
     * `edges`), stage and steps are reset, the totals are the root's
     * counters `non_term_size` and `recursion_edge_size`, and their sum is
     * returned as an `int32_t`.
     */
    method InitTrim(nonTerms: seq<seq<nat>>, edges: seq<Edge>, nonTermSize: U64, edgeSize: U64) returns (r: int)
      requires Valid() && (treeCur.Some? ==> EdgesFit(CurTree(treeCur.value.root, nonTerms, edges)))
      modifies this
      ensures Valid()
      ensures old(treeCur).None? ==> r == 0 && unchanged(this)
      ensures old(treeCur).Some? ==>
        treeCur == Some(CurTree(old(treeCur).value.root, nonTerms, edges)) &&
        steps == Steps(0, 0, nonTermSize, 0, edgeSize) && r == Int32((nonTermSize + edgeSize) % Word)
      ensures mutatedTree == old(mutatedTree) && trimmedTree == old(trimmedTree) && trees == old(trees)
      ensures fuzzBuf == old(fuzzBuf) && treeOutDirExist == old(treeOutDirExist)
    {
      if treeCur.None? {
        return 0;
      }
      treeCur := Some(CurTree(treeCur.value.root, nonTerms, edges));
      steps := Steps(0, 0, nonTermSize, 0, edgeSize);
      return Int32((nonTermSize + edgeSize) % Word);
    }

    /**
     * `afl_custom_trim`. Stage 0 pops a node and counts a subtree step, but
     * `subtree_trimming` yields no tree, which is then dereferenced. Stage 1
     * pops an edge, counts a recursive step and hands back the bytes of the
     * current tree trimmed at that edge, which is strictly smaller. Any
     * other stage hands back nothing.
     */
    method Trim() returns (out: TrimOut, n: nat)
      requires Valid()
      modifies this
      ensures Valid()
      ensures old(steps.stage) == 0 ==> out == Fault
      ensures old(steps.stage) == 0 && old(treeCur).Some? ==>
        var c := old(treeCur).value;
        treeCur == Some(c.(nodes := if c.nodes == [] then [] else c.nodes[1..])) &&
        steps == old(steps).(curSubtree := (old(steps.curSubtree) + 1) % Word)
      ensures old(steps.stage) == 1 && (old(treeCur).None? || old(treeCur).value.edges == []) ==>
        out == Fault && unchanged(this)
      ensures old(steps.stage) == 1 && old(treeCur).Some? && old(treeCur).value.edges != [] ==>
        var c := old(treeCur).value;
        IsEdge(c.root, c.edges[0]) && trimmedTree == Some(RecursiveTrimming(c.root, c.edges[0])) &&
        Count(trimmedTree.value) < Count(c.root) &&
        treeCur == Some(c.(edges := c.edges[1..])) &&
        steps == old(steps).(curRecursive := (old(steps.curRecursive) + 1) % Word) &&
        out == Trimmed(Leaves(trimmedTree.value)) && n == |out.data| && fuzzBuf == out.data
      ensures old(steps.stage) == 0 ==> fuzzBuf == old(fuzzBuf) && trimmedTree == old(trimmedTree)
      ensures old(steps.stage) == 0 && old(treeCur).None? ==> unchanged(this)
      ensures old(steps.stage) >= 2 ==> out == NoBuffer && n == 0 && unchanged(this)
      ensures trees == old(trees) && mutatedTree == old(mutatedTree) && treeOutDirExist == old(treeOutDirExist)
    {
      if steps.stage == 0 {
        if treeCur.None? {
          return Fault, 0;
        }
        PopNode();
        return Fault, 0;
      } else if steps.stage == 1 {
        if treeCur.None? || treeCur.value.edges == [] {
          return Fault, 0;
        }
        out := TrimAtEdge();
        return out, |out.data|;
      } else {
        return NoBuffer, 0;
      }
    }

    /** Stage 0 of `afl_custom_trim` up to the trimming: a node popped and a subtree step counted. */
    method PopNode()
      requires Valid() && treeCur.Some?
      modifies this
      ensures Valid()
      ensures var c := old(treeCur).value;
        treeCur == Some(c.(nodes := if c.nodes == [] then [] else c.nodes[1..])) &&
        steps == old(steps).(curSubtree := (old(steps.curSubtree) + 1) % Word)
      ensures trees == old(trees) && mutatedTree == old(mutatedTree) && trimmedTree == old(trimmedTree)
      ensures fuzzBuf == old(fuzzBuf) && treeOutDirExist == old(treeOutDirExist)
    {
      var c := treeCur.value;
      treeCur := Some(c.(nodes := if c.nodes == [] then [] else c.nodes[1..]));
      steps := steps.(curSubtree := (steps.curSubtree + 1) % Word);
    }

    /** Stage 1 of `afl_custom_trim`: an edge popped, a recursive step counted, and the tree trimmed at it. */
    method TrimAtEdge() returns (out: TrimOut)
      requires Valid() && treeCur.Some? && treeCur.value.edges != []
      modifies this
      ensures Valid()
      ensures var c := old(treeCur).value;
        IsEdge(c.root, c.edges[0]) && trimmedTree == Some(RecursiveTrimming(c.root, c.edges[0])) &&
        Count(trimmedTree.value) < Count(c.root) &&
        treeCur == Some(c.(edges := c.edges[1..])) &&
        steps == old(steps).(curRecursive := (old(steps.curRecursive) + 1) % Word) &&
        out == Trimmed(Leaves(trimmedTree.value)) && fuzzBuf == out.data
      ensures trees == old(trees) && mutatedTree == old(mutatedTree) && treeOutDirExist == old(treeOutDirExist)
    {
      var c := treeCur.value;
      var e := c.edges[0];
      assert e in c.edges;
      treeCur := Some(c.(edges := c.edges[1..]));
      var t := RecursiveTrimming(c.root, e);
      TrimmingShrinks(c.root, e);
      steps := steps.(curRecursive := (steps.curRecursive + 1) % Word);
      trimmedTree := Some(t);
      fuzzBuf := Leaves(t);
      return Trimmed(fuzzBuf);
    }

    /**
     * `afl_custom_post_trim` dereferences `NULL`: on success when there is no
     * current or no trimmed tree, and on failure when there is no trimmed
     * tree, which `tree_free` reads unguarded.
     */
    predicate PostTrimFaults(success: bool)
      reads this
    {
      trimmedTree.None? || (success && treeCur.None?)
    }

    /**
     * `afl_custom_post_trim`. On success the trimmed tree is written under
     * the current tree file name and becomes the current tree; its lists are
     * recomputed (`nonTerms`, `edges`), the subtree steps already taken are
     * popped again, and each step counter grows by how much its list shrank.
     * On failure the trimmed tree is dropped and nothing else changes. The
     * stage then moves on as `NextStage` says, and the sum of the steps is
     * returned as an `int32_t`. `None` is the `NULL` dereference of
     * `PostTrimFaults`, before anything is changed.
     */
    method PostTrim(success: bool, nonTerms: seq<seq<nat>>, edges: seq<Edge>) returns (r: Option<int>)
      requires Valid()
      requires success && treeCur.Some? && trimmedTree.Some? ==> EdgesFit(CurTree(trimmedTree.value, nonTerms, edges))
      modifies this
      ensures Valid()
      ensures r.None? <==> old(PostTrimFaults(success))
      ensures r.None? ==> unchanged(this)
      ensures r.Some? ==> trimmedTree.None?
      ensures r.Some? && success ==>
        var was := old(treeCur).value;
        var kept := nonTerms[Min(old(steps.curSubtree), |nonTerms|)..];
        treeCur == Some(CurTree(old(trimmedTree).value, kept, edges)) &&
        trees == old(trees)[CStr(treeFnCur[..]) := old(trimmedTree)] &&
        steps.curSubtree == (old(steps.curSubtree) + |was.nodes| - |kept|) % Word &&
        steps.curRecursive == (old(steps.curRecursive) + |was.edges| - |edges|) % Word
      ensures r.Some? && !success ==>
        treeCur == old(treeCur) && trees == old(trees) &&
        steps.curSubtree == old(steps.curSubtree) && steps.curRecursive == old(steps.curRecursive)
      ensures steps.totalSubtree == old(steps.totalSubtree) && steps.totalRecursive == old(steps.totalRecursive)
      ensures r.Some? ==>
        steps.stage == NextStage(old(steps.stage), steps.curSubtree, steps.totalSubtree, steps.curRecursive, steps.totalRecursive)
      ensures mutatedTree == old(mutatedTree) && fuzzBuf == old(fuzzBuf) && treeOutDirExist == old(treeOutDirExist)
      ensures r.Some? ==> r.value == Int32((steps.curSubtree + steps.curRecursive) % Word)
    {
      if PostTrimFaults(success) {
        return None;
      }
      var curSub, curRec := steps.curSubtree, steps.curRecursive;
      if success {
        curSub, curRec := Adopt(nonTerms, edges);
      }
      trimmedTree := None;
      var stage := steps.stage;
      if stage == 0 && curSub >= steps.totalSubtree {
        stage := stage + 1;
      }
      if stage == 1 && curRec >= steps.totalRecursive {
        stage := stage + 1;
      }
      steps := Steps(stage, curSub, steps.totalSubtree, curRec, steps.totalRecursive);
      return Some(Int32((curSub + curRec) % Word));
    }

    /**
     * The success branch of `afl_custom_post_trim`: the trimmed tree is
     * written and adopted with its recomputed lists, the subtree steps
     * already taken popped again; the step counters grown by how much each
     * list shrank are returned.
     */
    method Adopt(nonTerms: seq<seq<nat>>, edges: seq<Edge>) returns (curSub: U64, curRec: U64)
      requires Valid() && treeCur.Some? && trimmedTree.Some? && EdgesFit(CurTree(trimmedTree.value, nonTerms, edges))
      modifies this
      ensures Valid()
      ensures steps == old(steps) && trimmedTree == old(trimmedTree) && mutatedTree == old(mutatedTree)
      ensures fuzzBuf == old(fuzzBuf) && treeOutDirExist == old(treeOutDirExist)
      ensures var was := old(treeCur).value;
        var kept := nonTerms[Min(steps.curSubtree, |nonTerms|)..];
        treeCur == Some(CurTree(trimmedTree.value, kept, edges)) &&
        trees == old(trees)[CStr(treeFnCur[..]) := trimmedTree] &&
        curSub == (steps.curSubtree + |was.nodes| - |kept|) % Word &&
        curRec == (steps.curRecursive + |was.edges| - |edges|) % Word
    {
      var c := treeCur.value;
      trees := trees[CStr(treeFnCur[..]) := trimmedTree];
      var kept := DropFront(nonTerms, steps.curSubtree);
      treeCur := Some(CurTree(trimmedTree.value, kept, edges));
      curSub := (steps.curSubtree + |c.nodes| - |kept|) % Word;
      curRec := (steps.curRecursive + |c.edges| - |edges|) % Word;
    }

    /**
     * `afl_custom_fuzz`: the last mutated tree is dropped; without a current
     * tree `generated` (what `gen_init__(1000)` built) is used, otherwise the
     * draw picks the mutation and `mutated` is what it returned, 0 bytes
     * coming back when it returned nothing. The chosen tree is kept and its
     * bytes, cut to `maxSize`, are handed back in `fuzzBuf`.
     */
    method Fuzz(draw: nat, generated: T, mutated: Option<T>, maxSize: nat) returns (n: nat, choice: int)
      requires Valid()
      modifies this
      ensures Valid()
      ensures old(treeCur).None? ==> choice == -1
      ensures old(treeCur).Some? ==> choice == draw % 3 && 0 <= choice < 3
      ensures old(treeCur).Some? && mutated.None? ==> n == 0 && mutatedTree.None? && fuzzBuf == old(fuzzBuf)
      ensures old(treeCur).None? || mutated.Some? ==>
        var t := if old(treeCur).None? then generated else mutated.value;
        mutatedTree == Some(t) && n == Min(|Leaves(t)|, maxSize) && fuzzBuf == Leaves(t)[..n] &&
        (|Leaves(t)| <= maxSize ==> fuzzBuf == Leaves(t))
      ensures treeCur == old(treeCur) && trimmedTree == old(trimmedTree) && trees == old(trees) && steps == old(steps)
      ensures treeOutDirExist == old(treeOutDirExist)
    {
      mutatedTree := None;
      var t := generated;
      choice := -1;
      if treeCur.Some? {
        choice := draw % 3;
        if mutated.None? {
          return 0, choice;
        }
        t := mutated.value;
      }
      mutatedTree := Some(t);
      var bytes := Leaves(t);
      n := if |bytes| <= maxSize then |bytes| else maxSize;
      fuzzBuf := bytes[..n];
    }

    /**
     * `afl_custom_queue_get`: the current tree is dropped. On the first call
     * the tree output directory is derived from the name (its directory,
     * which must contain `/queue`) and must exist or be created, `dirReady`
     * saying whether that worked. Then the tree file name is rewritten in
     * `treeFnCur` and the tree it holds becomes the current one, with empty
     * lists: 1 when loaded or when there is no such file, 0 on every failure.
     */
    method QueueGet(fn: string, dirReady: bool) returns (r: int)
      requires Valid() && |fn| < PathMax
      modifies this, treeFnCur
      ensures Valid()
      ensures var dirFails := !old(treeOutDirExist) &&
          (Dir(fn).None? || Find(Dir(fn).value, "/queue").None? || !dirReady);
        (dirFails ==> r == 0 && treeCur.None? && treeFnCur[..] == old(treeFnCur[..]) && !treeOutDirExist) &&
        (!dirFails ==> (treeOutDirExist &&
          var rw := RewriteAsWritten(old(treeFnCur[..]), fn);
          (rw.None? ==> r == 0 && treeCur.None? && treeFnCur[..] == CopyOver(old(treeFnCur[..]), fn)) &&
          (rw.Some? ==> (treeFnCur[..] == rw.value &&
            var name := CStr(rw.value);
            treeCur == (if name in trees && trees[name].Some? then Some(CurTree(trees[name].value, [], [])) else None) &&
            r == (if name in trees && trees[name].None? then 0 else 1)))))
      ensures trees == old(trees) && mutatedTree == old(mutatedTree) && trimmedTree == old(trimmedTree) && steps == old(steps)
      ensures fuzzBuf == old(fuzzBuf)
    {
      treeCur := None;
      if !treeOutDirExist {
        var dir := Dir(fn);
        if dir.None? || Find(dir.value, "/queue").None? || !dirReady {
          return 0;
        }
        treeOutDirExist := true;
      }
      var ok := CopyAndRewrite(treeFnCur, fn);
      if !ok {
        return 0;
      }
      var name := CStr(treeFnCur[..]);
      if name !in trees {
        return 1;
      }
      if trees[name].None? {
        return 0;
      }
      treeCur := Some(CurTree(trees[name].value, [], []));
      return 1;
    }

    /**
     * `afl_custom_queue_new_entry`: nothing for an entry that did not come
     * from the queue. Otherwise the tree file name is rewritten in
     * `newTreeFn`; when it has a `/queue/`, the mutated tree is written
     * under it, all its subtrees go into the chunk store, and it is dropped.
     */
    method QueueNewEntry(origPresent: bool, fn: string)
      requires Valid() && store.Valid() && |fn| < PathMax
      requires origPresent && RewriteAsWritten(newTreeFn[..], fn).Some? ==> mutatedTree.Some?
      modifies this, newTreeFn, store
      ensures Valid() && store.Valid()
      ensures !origPresent ==> unchanged(this) && unchanged(newTreeFn) && unchanged(store)
      ensures origPresent ==>
        var rw := RewriteAsWritten(old(newTreeFn[..]), fn);
        (rw.None? ==> newTreeFn[..] == CopyOver(old(newTreeFn[..]), fn) && unchanged(this) && unchanged(store)) &&
        (rw.Some? ==> (newTreeFn[..] == rw.value && mutatedTree.None? &&
          trees == old(trees)[CStr(rw.value) := old(mutatedTree)] &&
          store.Contents() == AddSubtree(old(store.Contents()), old(mutatedTree).value)))
      ensures treeCur == old(treeCur) && trimmedTree == old(trimmedTree) && steps == old(steps)
      ensures fuzzBuf == old(fuzzBuf) && treeOutDirExist == old(treeOutDirExist)
    {
      if !origPresent {
        return;
      }
      ghost var rw := RewriteAsWritten(newTreeFn[..], fn);
      var ok := CopyAndRewrite(newTreeFn, fn);
      if !ok {
        return;
      }
      var name := CStr(newTreeFn[..]);
      assert name == CStr(rw.value);
      trees := trees[name := mutatedTree];
      StoreTree(store, mutatedTree.value);
      mutatedTree := None;
    }

    /** `afl_custom_deinit`: the trees are dropped, stage and steps zeroed, and the chunk store cleared. */
    method Deinit()
      requires Valid()
      modifies this, store
      ensures Valid() && store.Valid()
      ensures treeCur.None? && mutatedTree.None? && trimmedTree.None? && steps == Steps(0, 0, 0, 0, 0)
      ensures store.Contents() == Chunks({}, map[]) && trees == old(trees)
    {
      store.Clear();
      treeCur, mutatedTree, trimmedTree := None, None, None;
      steps := Steps(0, 0, 0, 0, 0);
    }
  }
}
