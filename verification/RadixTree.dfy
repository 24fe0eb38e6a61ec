/**
  The radix tree (package go-radix) as nodes that are changed in place.

  Besides its root and size a tree keeps ghost maps: its shape, the node that
  stands at each path of the shape, and its contents, the leaf that is found
  under each key.  A leaf also holds the key it was stored under.  That is the
  key it is found under until Delete merges the root away.
 */
module RadixTree {
  import opened Common
  import opened RadixShape

  datatype Leaf<+V> = Leaf(key: Key, val: V)

  // A leaf for s with the value v: a leaf that is there keeps its own key.
  function Stored<V>(m: map<Key, Leaf<V>>, s: Key, v: V): map<Key, Leaf<V>> {
    m[s := Leaf(if s in m then m[s].key else s, v)]
  }

  // Every leaf is found under the key it was stored under.
  ghost predicate Named<V>(m: map<Key, Leaf<V>>) {
    forall k :: k in m ==> m[k].key == k
  }

  ghost function Values<V>(m: map<Key, Leaf<V>>): map<Key, V> {
    map k | k in m :: m[k].val
  }

  // Without a merge of the root the tree is a map, and both kinds of key agree.
  lemma StoredIsUpdate<V>(m: map<Key, Leaf<V>>, s: Key, v: V)
    ensures Values(Stored(m, s, v)) == Values(m)[s := v]
    ensures Named(m) ==> Named(Stored(m, s, v))
    ensures Values(m - {s}) == Values(m) - {s}
    ensures Named(m) ==> Named(m - {s})
  {
  }

  // Behind a merge of the root no leaf has its own key any more.
  lemma StrippedNames<V>(m: map<Key, Leaf<V>>, c: Key)
    requires Named(m) && c != []
    ensures forall k :: k in StrippedMap(m, c) ==> StrippedMap(m, c)[k].key == c + k != k
  {
    forall k | k in StrippedMap(m, c)
      ensures StrippedMap(m, c)[k].key == c + k != k
    {
      assert |c + k| > |k|;
    }
  }

  datatype Edge<V> = Edge(tag: byte, node: Node<V>)

  class Node<V> {
    var leaf: Option<Leaf<V>>
    var prefix: Key
    var edges: seq<Edge<V>>
    ghost var path: Key

    constructor (leaf: Option<Leaf<V>>, prefix: Key, edges: seq<Edge<V>>, ghost path: Key)
      ensures this.leaf == leaf && this.prefix == prefix && this.edges == edges && this.path == path
    {
      this.leaf, this.prefix, this.edges, this.path := leaf, prefix, edges, path;
    }
  }

  ghost predicate EdgesSorted<V>(edges: seq<Edge<V>>) {
    forall i, j :: 0 <= i < j < |edges| ==> edges[i].tag < edges[j].tag
  }

  // The binary search of sort.Search for the first edge not below the label.
  method Search<V>(edges: seq<Edge<V>>, tag: byte) returns (idx: nat)
    requires EdgesSorted(edges)
    ensures idx <= |edges|
    ensures forall i :: 0 <= i < idx ==> edges[i].tag < tag
    ensures forall i :: idx <= i < |edges| ==> edges[i].tag >= tag
  {
    var lo, hi := 0, |edges|;
    while lo < hi
      invariant 0 <= lo <= hi <= |edges|
      invariant forall i :: 0 <= i < lo ==> edges[i].tag < tag
      invariant forall i :: hi <= i < |edges| ==> edges[i].tag >= tag
    {
      var mid := (lo + hi) / 2;
      if edges[mid].tag >= tag {
        hi := mid;
      } else {
        lo := mid + 1;
      }
    }
    return lo;
  }

  // The index replaceEdge finds, which panics when there is none.
  method IndexOf<V>(edges: seq<Edge<V>>, tag: byte, ghost i: nat) returns (k: nat)
    requires EdgesSorted(edges) && i < |edges| && edges[i].tag == tag
    ensures k == i
  {
    k := Search(edges, tag);
    assert k <= i;
    assert k < |edges| && edges[k].tag >= tag;
  }

  // The length of the longest shared prefix of two keys.
  method LongestCommon(a: Key, b: Key) returns (n: nat)
    ensures n <= |a| && n <= |b| && a[..n] == b[..n]
    ensures n < |a| && n < |b| ==> a[n] != b[n]
  {
    n := 0;
    while n < |a| && n < |b| && a[n] == b[n]
      invariant n <= |a| && n <= |b| && a[..n] == b[..n]
    {
      n := n + 1;
    }
  }

  lemma Consume(p: Key, search: Key, prefix: Key)
    requires prefix <= search
    ensures p + search == (p + prefix) + search[|prefix|..]
  {
  }

  lemma OnlyKey<V>(m: map<Key, Leaf<V>>, s: Key)
    requires s in m
    ensures m - {s} == map[] <==> m.Keys == {s}
  {
    if m - {s} == map[] {
      assert forall k :: k in m && k != s ==> k in m - {s};
    }
  }

  lemma PrefixUnder(p: Key, a: Key, b: Key)
    ensures p + a <= p + b <==> a <= b
  {
    if p + a <= p + b {
      assert forall i :: 0 <= i < |a| ==> a[i] == (p + a)[|p| + i] == (p + b)[|p| + i] == b[i];
    }
  }

  lemma SplitPoint(p: Key, search: Key, prefix: Key, common: nat)
    requires common <= |search| && common <= |prefix| && search[..common] == prefix[..common]
    requires common < |search| && common < |prefix| ==> search[common] != prefix[common]
    requires search != [] && prefix != [] && search[0] == prefix[0] && !(prefix <= search)
    ensures 0 < common < |prefix| && search[..common] < prefix
    ensures p + search == (p + search[..common]) + search[common..]
    ensures (p + prefix)[|p + search[..common]|] == prefix[common]
  {
  }

  // The node n, standing at p, is what the cell c says.
  ghost predicate NodeIs<V>(n: Node<V>, p: Key, c: Cell<Leaf<V>>, at: map<Key, Node<V>>)
    reads n
  {
    Fits(n.path, n.leaf, n.prefix, n.edges, p, c, at)
  }

  ghost predicate Fits<V>(path: Key, leaf: Option<Leaf<V>>, prefix: Key, edges: seq<Edge<V>>,
                          p: Key, c: Cell<Leaf<V>>, at: map<Key, Node<V>>)
  {
    && path == p
    && leaf == c.leaf
    && (p != [] ==> c.up < p && prefix == p[|c.up|..])
    && EdgesAre(edges, p, c.kids, at)
  }

  ghost predicate EdgesAre<V>(edges: seq<Edge<V>>, p: Key, kids: seq<Key>, at: map<Key, Node<V>>) {
    && |edges| == |kids|
    && (forall i :: 0 <= i < |kids| ==>
          p < kids[i] && kids[i] in at && edges[i] == Edge(kids[i][|p|], at[kids[i]]))
  }

  ghost predicate Linked<V>(repr: set<Node<V>>, at: map<Key, Node<V>>, shape: Shape<Leaf<V>>)
    reads repr
  {
    && at.Keys == shape.Keys
    && (forall p :: p in at ==> at[p] in repr)
    && (forall p {:trigger NodeIs(at[p], p, shape[p], at)} :: p in at ==> NodeIs(at[p], p, shape[p], at))
  }

  // Lexicographic order on keys.
  ghost predicate LexLess(a: Key, b: Key) {
    exists n: nat :: LexLessAt(a, b, n)
  }

  ghost predicate LexLessAt(a: Key, b: Key, n: nat) {
    n <= |a| && n < |b| && (forall i :: 0 <= i < n ==> a[i] == b[i]) && (n == |a| || a[n] < b[n])
  }

  lemma LexAt(a: Key, b: Key, n: nat)
    requires LexLessAt(a, b, n)
    ensures LexLess(a, b)
  {
  }

  lemma LexAsymmetric(a: Key, b: Key)
    requires LexLess(a, b)
    ensures !LexLess(b, a)
  {
    var n :| LexLessAt(a, b, n);
    forall m: nat
      ensures !LexLessAt(b, a, m)
    {
    }
  }

  ghost predicate AllBelow(a: set<Key>, b: set<Key>) {
    forall x, y :: x in a && y in b ==> LexLess(x, y)
  }

  // The leaves of the keys in dom are visited in the order of the keys, up to
  // and including the first one at which fn says stop.
  ghost predicate Lists<V>(m: map<Key, Leaf<V>>, dom: set<Key>, fn: (Key, V) -> bool,
                           keys: seq<Key>, visited: seq<Leaf<V>>, stop: bool)
  {
    && (stop ==> |keys| > 0)
    && LeavesOf(m, dom, keys, visited)
    && Ascending(keys)
    && StopsAtLast(fn, visited, stop)
    && NoneMissed(dom, keys, stop)
  }

  ghost predicate LeavesOf<V>(m: map<Key, Leaf<V>>, dom: set<Key>, keys: seq<Key>, visited: seq<Leaf<V>>) {
    && |keys| == |visited|
    && (forall i :: 0 <= i < |keys| ==> keys[i] in dom && keys[i] in m && visited[i] == m[keys[i]])
  }

  ghost predicate Ascending(keys: seq<Key>) {
    forall i, j :: 0 <= i < j < |keys| ==> LexLess(keys[i], keys[j])
  }

  ghost predicate StopsAtLast<V>(fn: (Key, V) -> bool, visited: seq<Leaf<V>>, stop: bool) {
    forall i :: 0 <= i < |visited| ==> (fn(visited[i].key, visited[i].val) <==> stop && i == |visited| - 1)
  }

  ghost predicate NoneMissed(dom: set<Key>, keys: seq<Key>, stop: bool)
    requires stop ==> |keys| > 0
  {
    forall k :: k in dom && (stop ==> LexLess(k, keys[|keys| - 1])) ==> k in keys
  }

  // The same, without naming the keys.
  ghost predicate Visits<V>(m: map<Key, Leaf<V>>, dom: set<Key>, fn: (Key, V) -> bool, visited: seq<Leaf<V>>,
                            stop: bool)
  {
    exists keys :: Lists(m, dom, fn, keys, visited, stop)
  }

  lemma NothingVisited<V>(m: map<Key, Leaf<V>>, fn: (Key, V) -> bool)
    ensures Visits(m, {}, fn, [], false)
  {
    assert Lists(m, {}, fn, [], [], false);
  }

  lemma LeavesConcat<V>(m: map<Key, Leaf<V>>, a: set<Key>, b: set<Key>,
                        ka: seq<Key>, va: seq<Leaf<V>>, kb: seq<Key>, vb: seq<Leaf<V>>)
    requires LeavesOf(m, a, ka, va) && LeavesOf(m, b, kb, vb)
    ensures LeavesOf(m, a + b, ka + kb, va + vb)
  {
  }

  lemma AscendingConcat(a: set<Key>, b: set<Key>, ka: seq<Key>, kb: seq<Key>)
    requires AllBelow(a, b) && (forall k :: k in ka ==> k in a) && (forall k :: k in kb ==> k in b)
    requires Ascending(ka) && Ascending(kb)
    ensures Ascending(ka + kb)
  {
    hide LexLess;
  }

  lemma StopsConcat<V>(fn: (Key, V) -> bool, va: seq<Leaf<V>>, vb: seq<Leaf<V>>, stop: bool)
    requires StopsAtLast(fn, va, false) && StopsAtLast(fn, vb, stop) && (stop ==> |vb| > 0)
    ensures StopsAtLast(fn, va + vb, stop)
  {
  }

  lemma NoneMissedConcat(a: set<Key>, b: set<Key>, ka: seq<Key>, kb: seq<Key>, stop: bool)
    requires (stop ==> |kb| > 0) && NoneMissed(a, ka, false) && NoneMissed(b, kb, stop)
    ensures NoneMissed(a + b, ka + kb, stop)
  {
    hide LexLess;
    assert stop ==> (ka + kb)[|ka + kb| - 1] == kb[|kb| - 1];
    forall k | k in a + b && (stop ==> LexLess(k, kb[|kb| - 1]))
      ensures k in ka + kb
    {
      if k in a { assert k in ka; } else { assert k in kb; }
    }
  }

  lemma ListsConcat<V>(m: map<Key, Leaf<V>>, a: set<Key>, b: set<Key>, fn: (Key, V) -> bool,
                       ka: seq<Key>, va: seq<Leaf<V>>, kb: seq<Key>, vb: seq<Leaf<V>>, stop: bool)
    requires Lists(m, a, fn, ka, va, false) && Lists(m, b, fn, kb, vb, stop) && AllBelow(a, b)
    ensures Lists(m, a + b, fn, ka + kb, va + vb, stop)
  {
    AscendingConcat(a, b, ka, kb);
    hide AllBelow, Ascending, NoneMissed, StopsAtLast;
    LeavesConcat(m, a, b, ka, va, kb, vb);
    StopsConcat(fn, va, vb, stop);
    NoneMissedConcat(a, b, ka, kb, stop);
  }

  // Keys that come after the last one visited do not matter once the walk has stopped.
  lemma ListsMore<V>(m: map<Key, Leaf<V>>, a: set<Key>, b: set<Key>, fn: (Key, V) -> bool,
                     ka: seq<Key>, va: seq<Leaf<V>>)
    requires Lists(m, a, fn, ka, va, true) && AllBelow(a, b)
    ensures Lists(m, a + b, fn, ka, va, true)
  {
    var last := ka[|ka| - 1];
    forall k | k in b
      ensures !LexLess(k, last)
    {
      LexAsymmetric(last, k);
    }
  }

  ghost predicate Sound<V>(repr: set<Node<V>>, at: map<Key, Node<V>>, shape: Shape<Leaf<V>>)
    reads repr
  {
    ShapeOk(shape) && Linked(repr, at, shape)
  }

  // All keys but the empty one begin with c.
  ghost predicate CommonFront<V>(m: map<Key, V>, c: Key) {
    c != [] && forall k :: k in m && k != [] ==> c <= k
  }

  class Tree<V> {
    var root: Node<V>
    var size: nat
    ghost var shape: Shape<Leaf<V>>
    ghost var contents: map<Key, Leaf<V>>
    ghost var at: map<Key, Node<V>>
    ghost var repr: set<Node<V>>

    ghost predicate Valid()
      reads this, repr
    {
      && [] in at && at[[]] == root
      && Sound(repr, at, shape)
      && Stores(shape, contents) && size == |contents|
    }

    constructor ()
      ensures Valid() && contents == map[] && Heads(shape) == {} && fresh(repr)
    {
      root := new Node(None, [], [], []);
      size := 0;
      shape, contents := map[[] := Cell(None, [], [])], map[];
      new;
      at := map[[] := root];
      repr := {root};
      assert CellOk(shape, []);
    }

    lemma KidOf(p: Key, i: nat)
      requires Valid() && p in at && i < |shape[p].kids|
      ensures shape[p].kids[i] in at && p < shape[p].kids[i] && shape[p].kids[i] == p + at[shape[p].kids[i]].prefix
    {
      assert CellOk(shape, p) && NodeIs(at[p], p, shape[p], at);
      var k := shape[p].kids[i];
      assert NodeIs(at[k], k, shape[k], at);
    }

    // One step of every descent: the child behind the edge for search[0].
    method Child(n: Node<V>, search: Key, ghost p: Key) returns (child: Node?<V>, ghost i: nat)
      requires Valid() && p in at && at[p] == n && search != []
      ensures child == null ==> FitsAt(shape, p, i, p + search)
      ensures child != null ==>
        && i < |shape[p].kids| && shape[p].kids[i] in at && at[shape[p].kids[i]] == child
        && p < shape[p].kids[i] && shape[p].kids[i] == p + child.prefix && child.prefix[0] == search[0]
        && (child.prefix <= search <==> shape[p].kids[i] <= p + search)
    {
      EdgesFit(repr, at, shape, p);
      var idx := Search(n.edges, search[0]);
      i := idx;
      if idx < |n.edges| && n.edges[idx].tag == search[0] {
        KidOf(p, idx);
        PrefixUnder(p, n.edges[idx].node.prefix, search);
        return n.edges[idx].node, i;
      }
      return null, i;
    }

    // Where a descent for s ends: at the node for s, at a node without an edge
    // for the next byte, or at a child whose prefix does not match.
    ghost predicate Stuck(s: Key, p: Key, search: Key, child: Node?<V>, i: nat)
      reads this, child
    {
      && p in at && p in shape && s == p + search
      && (search == [] ==> child == null)
      && (search != [] && child == null ==> FitsAt(shape, p, i, s))
      && (child != null ==>
            && i < |shape[p].kids| && shape[p].kids[i] in at && at[shape[p].kids[i]] == child
            && p < shape[p].kids[i] && shape[p].kids[i] == p + child.prefix && child.prefix[0] == search[0]
            && !(child.prefix <= search))
    }

    lemma StuckMeansAbsent(s: Key, p: Key, search: Key, child: Node?<V>, i: nat)
      requires Valid() && Stuck(s, p, search, child, i) && search != []
      ensures s !in shape
    {
      if child == null {
        NewPath(shape, p, i, s);
      } else {
        PrefixUnder(p, child.prefix, search);
        KidMismatch(shape, p, i, s);
      }
    }

    // The descent that Get, Insert and Delete share.
    method Descend(s: Key) returns (n: Node<V>, search: Key, child: Node?<V>, ghost p: Key, ghost i: nat)
      requires Valid()
      ensures Stuck(s, p, search, child, i) && at[p] == n
    {
      n, search, child, p, i := root, s, null, [], 0;
      while search != []
        invariant p in at && at[p] == n && s == p + search && child == null
        decreases |search|
      {
        child, i := Child(n, search, p);
        if child == null || !(child.prefix <= search) {
          return;
        }
        Consume(p, search, child.prefix);
        p := p + child.prefix;
        n, search, child := child, search[|child.prefix|..], null;
      }
    }

    method Get(s: Key) returns (r: Option<V>)
      requires Valid()
      ensures r == if s in contents then Some(contents[s].val) else None
    {
      var n, search, child;
      ghost var p, i;
      n, search, child, p, i := Descend(s);
      if search != [] {
        StuckMeansAbsent(s, p, search, child, i);
        return None;
      }
      assert s == p;
      LeafIs(n, s);
      return if n.leaf.Some? then Some(n.leaf.value.val) else None;
    }

    // Of the stored keys that s starts with, path is the longest among those of length at most
    // len, and last its leaf.
    ghost predicate LongestUpTo(s: Key, len: int, last: Option<Leaf<V>>, path: Key)
      reads this
    {
      && (last.Some? ==>
            path in contents && contents[path] == last.value && path <= s)
      && (forall k :: k in contents && k <= s && |k| <= len ==> last.Some? && |k| <= |path|)
    }

    // A descent does not skip stored keys.
    lemma NoneSkipped(p: Key, i: nat, s: Key, last: Option<Leaf<V>>, path: Key)
      requires ShapeOk(shape) && Stores(shape, contents) && p in shape && p < s && LongestUpTo(s, |p|, last, path)
      requires i < |shape[p].kids| && p < shape[p].kids[i] && shape[p].kids[i][|p|] == s[|p|]
      ensures LongestUpTo(s, |shape[p].kids[i]| - 1, last, path)
      ensures !(shape[p].kids[i] <= s) ==> LongestUpTo(s, |s|, last, path)
    {
      forall k | k in contents && k <= s && |p| < |k|
        ensures shape[p].kids[i] <= k
      {
        assert p < k && k[|p|] == s[|p|];
        BehindKid(shape, p, i, k);
      }
    }

    lemma NoneBeyond(p: Key, i: nat, s: Key, last: Option<Leaf<V>>, path: Key)
      requires ShapeOk(shape) && Stores(shape, contents) && p in shape && FitsAt(shape, p, i, s)
               && LongestUpTo(s, |p|, last, path)
      ensures LongestUpTo(s, |s|, last, path)
    {
      forall k | k in contents && k <= s
        ensures |k| <= |p|
      {
        if |p| < |k| {
          Below(shape, p, k);
        }
      }
    }

    // The leaf of the longest stored key that s starts with, or none.
    ghost predicate Longest(s: Key, r: Option<Leaf<V>>)
      reads this
    {
      exists path :: LongestUpTo(s, |s|, r, path)
    }

    method LongestPrefix(s: Key) returns (r: Option<Leaf<V>>)
      requires Valid()
      ensures Longest(s, r)
    {
      r := None;
      var n, search := root, s;
      ghost var p: Key, path: Key := [], [];
      while true
        invariant p in at && at[p] == n && s == p + search
        invariant LongestUpTo(s, |p| - 1, r, path)
        decreases |search|
      {
        LeafIs(n, p);
        if n.leaf.Some? {
          r, path := n.leaf, p;
        }
        HereNow(p, s, r, path);
        if search == [] {
          return;
        }
        var child;
        ghost var i;
        child, i := Child(n, search, p);
        if child == null {
          NoneBeyond(p, i, s, r, path);
          return;
        }
        NoneSkipped(p, i, s, r, path);
        if !(child.prefix <= search) {
          return;
        }
        Consume(p, search, child.prefix);
        p := p + child.prefix;
        n, search := child, search[|child.prefix|..];
      }
    }

    lemma HereNow(p: Key, s: Key, last: Option<Leaf<V>>, path: Key)
      requires p <= s
      requires if p in contents then last == Some(contents[p]) && path == p else LongestUpTo(s, |p| - 1, last, path)
      ensures LongestUpTo(s, |p|, last, path)
    {
      assert forall k :: k <= s && |k| == |p| ==> k == p;
    }

    // ------------------------------------------------------------- changes

    // A node has a leaf exactly when its path is a stored key.
    lemma LeafIs(n: Node<V>, s: Key)
      requires Valid() && s in at && at[s] == n
      ensures n.leaf == if s in contents then Some(contents[s]) else None
    {
      assert NodeIs(n, s, shape[s], at);
    }

    // Stores v at the node that stands at s.
    method SetLeaf(n: Node<V>, s: Key, v: V)
      requires Valid() && s in at && at[s] == n
      modifies this`size, this`shape, this`contents, n`leaf
      ensures Valid() && contents == Stored(old(contents), s, v) && Heads(shape) == Heads(old(shape))
    {
      hide Sound, Stores;
      LeafIs(n, s);
      size := if n.leaf.None? then size + 1 else size;
      var leaf := Leaf(if n.leaf.Some? then n.leaf.value.key else s, v);
      shape := WriteLeaf(n, s, Some(leaf), repr, at, shape, contents);
      contents := contents[s := leaf];
    }

    // No edge of the node at p starts with the next byte of what is left.
    ghost predicate Free(p: Key, search: Key)
      reads this
    {
      && p in shape
      && (search != [] ==>
            forall j :: 0 <= j < |shape[p].kids| ==> p < shape[p].kids[j] && shape[p].kids[j][|p|] != search[0])
    }

    // Adds a leaf for s below the node at p, in the order of the labels.
    method AddLeaf(n: Node<V>, s: Key, search: Key, v: V, ghost p: Key)
      requires Valid() && p in at && at[p] == n
      requires search != [] && s == p + search && Free(p, search)
      modifies this`size, this`shape, this`contents, this`at, this`repr, n`edges
      ensures Valid() && contents == Stored(old(contents), s, v) && s !in old(contents)
      ensures Heads(shape) == Heads(old(shape)) + {s[0]}
      ensures fresh(repr - old(repr))
    {
      hide Sound, Stores;
      var node;
      node, at, shape := WriteKid(n, s, search, Leaf(s, v), p, repr, at, shape, contents);
      repr := repr + {node};
      contents := contents[s := Leaf(s, v)];
      size := size + 1;
    }

    // The end of the descent: store at the node, or below it.
    method StoreAt(n: Node<V>, s: Key, search: Key, v: V, ghost p: Key) returns (r: Option<V>)
      requires Valid() && p in at && at[p] == n && s == p + search && Free(p, search)
      modifies this, n
      ensures Valid() && fresh(repr - old(repr))
      ensures contents == Stored(old(contents), s, v) && Heads(shape) == Heads(old(shape)) + Head(s)
      ensures r == if s in old(contents) then Some(old(contents)[s].val) else None
    {
      hide Sound, Stores;
      if search == [] {
        assert s == p;
        LeafIs(n, s);
        r := if n.leaf.Some? then Some(n.leaf.value.val) else None;
        SetLeaf(n, s, v);
      } else {
        AddLeaf(n, s, search, v, p);
        r := None;
      }
    }

    // Puts a node between the node at p and its i-th child.
    method SplitEdge(n: Node<V>, child: Node<V>, head: Key, ghost p: Key, ghost i: nat) returns (mid: Node<V>)
      requires Valid() && p in at && at[p] == n && i < |shape[p].kids|
      requires shape[p].kids[i] in at && at[shape[p].kids[i]] == child && shape[p].kids[i] == p + child.prefix
      requires head != [] && head < child.prefix
      modifies this`shape, this`at, this`repr, n`edges, child`prefix
      ensures Valid() && Heads(shape) == Heads(old(shape))
      ensures fresh(mid) && repr == old(repr) + {mid}
      ensures p + head in at && at[p + head] == mid && shape[p + head] == Cell(None, p, [old(shape[p].kids[i])])
    {
      hide Sound, Stores;
      mid, at, shape := WriteSplit(n, child, head, p, i, repr, at, shape, contents);
      repr := repr + {mid};
    }

    // The common part of what is left and of the child's prefix becomes a node of its own.
    method SplitAt(n: Node<V>, child: Node<V>, s: Key, search: Key, ghost p: Key, ghost i: nat)
      returns (mid: Node<V>, rest: Key, ghost m: Key)
      requires Valid() && search != [] && Stuck(s, p, search, child, i) && at[p] == n
      modifies this`shape, this`at, this`repr, n`edges, child`prefix
      ensures Valid() && Heads(shape) == Heads(old(shape)) && fresh(mid) && repr == old(repr) + {mid}
      ensures m in at && at[m] == mid && s == m + rest && Free(m, rest)
    {
      var common := LongestCommon(search, child.prefix);
      var head := search[..common];
      SplitPoint(p, search, child.prefix, common);
      rest, m := search[common..], p + head;
      NewEdge(p, shape[p].kids[i], head, child.prefix);
      hide Valid;
      mid := SplitEdge(n, child, head, p, i);
      assert Free(m, rest);
    }

    method Insert(s: Key, v: V) returns (r: Option<V>)
      requires Valid()
      modifies this, repr
      ensures Valid() && fresh(repr - old(repr))
      ensures contents == Stored(old(contents), s, v) && Heads(shape) == Heads(old(shape)) + Head(s)
      ensures r == if s in old(contents) then Some(old(contents)[s].val) else None
    {
      var n, search, child;
      ghost var p, i;
      hide Valid;
      n, search, child, p, i := Descend(s);
      InRepr(p);
      if child != null {
        InRepr(shape[p].kids[i]);
        n, search, p := SplitAt(n, child, s, search, p, i);
      }
      r := StoreAt(n, s, search, v, p);
    }

    // The root is about to be merged with its only child: the empty key goes,
    // and all other keys so far began with the same byte.
    ghost predicate RootMerges(s: Key)
      reads this
    {
      s == [] && [] in contents && |Heads(shape)| == 1
    }

    // The path of the first child of the root.
    ghost function RootEdge(): Key
      reads this
    {
      if [] in shape && shape[[]].kids != [] then shape[[]].kids[0] else []
    }

    lemma RootEdges()
      requires Valid()
      ensures [] in shape && [] in at && |shape[[]].kids| == |Heads(shape)|
      ensures |Heads(shape)| == 1 ==> CommonFront(contents, RootEdge())
    {
      HeadsAreEdges(shape);
      if |Heads(shape)| == 1 {
        var c := RootEdge();
        assert shape[[]].kids == [c] && CellOk(shape, []);
        forall k | k in contents && k != []
          ensures c <= k
        {
          OnlyChild(shape, c, k);
        }
      }
    }

    // Removes s and returns its value.  Deleting the empty key while the root
    // has a single edge cuts that edge's prefix off every other key.
    method Delete(s: Key) returns (r: Option<V>)
      requires Valid()
      modifies this, repr
      ensures Valid() && repr == old(repr)
      ensures r == if s in old(contents) then Some(old(contents)[s].val) else None
      ensures !old(RootMerges(s)) ==> contents == old(contents) - {s} && Heads(shape) == old(Heads(shape))
      ensures old(RootMerges(s)) ==>
        && CommonFront(old(contents), old(RootEdge()))
        && contents == StrippedMap(old(contents) - {s}, old(RootEdge()))
        && Heads(shape) == HeadsBehind(old(shape), old(RootEdge()))
      ensures contents == old(contents) - {s} <==> !old(RootMerges(s)) || old(contents).Keys == {s}
    {
      hide Valid, Heads, HeadsBehind, CommonFront, StrippedMap;
      var n, search, child;
      ghost var p, i;
      n, search, child, p, i := Descend(s);
      if search != [] {
        StuckMeansAbsent(s, p, search, child, i);
        NotStored(s);
        return None;
      }
      assert s == p;
      LeafIs(n, s);
      if n.leaf.None? {
        return None;
      }
      r := Some(n.leaf.value.val);
      RemoveAt(n, s);
    }

    // Removes the leaf of the node at s, and the node with it if it may go.
    method RemoveAt(n: Node<V>, s: Key)
      requires Valid() && s in at && at[s] == n && s in contents
      modifies this, repr
      ensures Valid() && repr == old(repr)
      ensures !old(RootMerges(s)) ==> contents == old(contents) - {s} && Heads(shape) == old(Heads(shape))
      ensures old(RootMerges(s)) ==>
        && CommonFront(old(contents), old(RootEdge()))
        && contents == StrippedMap(old(contents) - {s}, old(RootEdge()))
        && Heads(shape) == HeadsBehind(old(shape), old(RootEdge()))
      ensures contents == old(contents) - {s} <==> !old(RootMerges(s)) || old(contents).Keys == {s}
    {
      hide Valid, Heads, HeadsBehind, CommonFront, StrippedMap;
      InRepr(s);
      OnlyKey(contents, s);
      RootEdges();
      ClearLeaf(n, s);
      MergeIfSingle(n, s);
    }

    lemma NotStored(s: Key)
      requires Valid() && s !in shape
      ensures s !in contents
    {
    }

    method ClearLeaf(n: Node<V>, s: Key)
      requires Valid() && s in at && at[s] == n && s in contents
      modifies this`size, this`shape, this`at, this`contents, n`leaf
      ensures at == old(at)
      ensures Valid() && contents == old(contents) - {s} && s in shape && s in old(shape)
      ensures shape[s] == old(shape)[s].(leaf := None) && Heads(shape) == old(Heads(shape))
      ensures forall c :: HeadsBehind(shape, c) == HeadsBehind(old(shape), c)
    {
      InRepr(s);
      hide Sound, Stores;
      ghost var shape' := WriteLeaf(n, s, None, repr, at, shape, contents);
      size := size - 1;
      Reassign(at, shape', contents - {s});
    }

    // A node without a value and with one child takes that child's place.
    method MergeIfSingle(n: Node<V>, p: Key)
      requires Valid() && p in at && at[p] == n && p in shape && shape[p].leaf.None?
      modifies this`shape, this`at, this`contents, repr
      ensures Valid()
      ensures p != [] || |old(shape[p]).kids| != 1 ==> contents == old(contents) && Heads(shape) == old(Heads(shape))
      ensures p == [] && |old(shape[p]).kids| == 1 ==>
        && contents == StrippedMap(old(contents), old(shape[p]).kids[0])
        && Heads(shape) == HeadsBehind(old(shape), old(shape[p]).kids[0])
        && (contents == old(contents) <==> old(contents) == map[])
    {
      EdgesMatch(p);
      hide Valid;
      if |n.edges| == 1 {
        if p != [] {
          MergeChild(n, n.edges[0].node, p);
        } else {
          MergeIntoRoot(n, n.edges[0].node);
        }
      }
    }

    lemma EdgesMatch(p: Key)
      requires Valid() && p in at
      ensures p in shape && |at[p].edges| == |shape[p].kids|
      ensures |at[p].edges| == 1 ==> shape[p].kids[0] in at && at[p].edges[0].node == at[shape[p].kids[0]]
      ensures at[p] in repr
    {
      EdgesFit(repr, at, shape, p);
    }

    method MergeChild(n: Node<V>, child: Node<V>, ghost p: Key)
      requires Valid() && p in at && at[p] == n && p != []
      requires p in shape && shape[p].leaf.None? && |shape[p].kids| == 1 && shape[p].kids[0] in at
               && at[shape[p].kids[0]] == child
      modifies this`shape, this`at, this`contents, n
      ensures Valid() && contents == old(contents) && Heads(shape) == old(Heads(shape))
    {
      ghost var i := AsKid(p);
      hide Sound, Stores, Mergeable;
      ghost var at', shape' := WriteMerge(n, child, p, i, repr, at, shape, contents);
      Reassign(at', shape', contents);
    }

    method MergeIntoRoot(n: Node<V>, child: Node<V>)
      requires Valid() && n == root
      requires [] in shape && shape[[]].leaf.None? && |shape[[]].kids| == 1 && shape[[]].kids[0] in at
               && at[shape[[]].kids[0]] == child
      modifies this`shape, this`at, this`contents, repr`path, n`prefix, n`leaf, n`edges
      ensures Valid() && contents == StrippedMap(old(contents), old(shape[[]]).kids[0])
      ensures Heads(shape) == HeadsBehind(old(shape), old(shape[[]]).kids[0])
      ensures contents == old(contents) <==> old(contents) == map[]
    {
      hide Sound, Stores, StrippedMap;
      ghost var c := shape[[]].kids[0];
      assert shape[[]].kids == [c];
      RootKeys(c);
      ghost var m := StrippedMap(contents, c);
      ghost var at', shape' := WriteStrip(n, child, c, repr, at, shape, contents);
      Reassign(at', shape', m);
    }

    // Takes over a new shape of the same nodes.
    ghost method Reassign(at': map<Key, Node<V>>, shape': Shape<Leaf<V>>, m: map<Key, Leaf<V>>)
      requires [] in at' && at'[[]] == root && Sound(repr, at', shape') && Stores(shape', m) && size == |m|
      modifies this`shape, this`at, this`contents
      ensures Valid() && at == at' && shape == shape' && contents == m
    {
      hide Sound, Stores;
      at, shape, contents := at', shape', m;
    }

    lemma RootKeys(c: Key)
      requires Valid() && [] in shape && shape[[]].kids == [c] && shape[[]].leaf.None?
      ensures |StrippedMap(contents, c)| == |contents|
      ensures StrippedMap(contents, c) == contents <==> contents == map[]
    {
      StrippedKeys(shape, contents, c);
      StrippedDiffers(contents, c);
    }

    lemma AsKid(p: Key) returns (i: nat)
      requires Valid() && p in at && p != []
      ensures p in shape && (|shape[p].kids| == 1 ==> Mergeable(shape, p, i))
    {
      assert CellOk(shape, p);
      i :| 0 <= i < |shape[shape[p].up].kids| && shape[shape[p].up].kids[i] == p;
    }

    // ------------------------------------------------------------- walking

    ghost function Under(p: Key): set<Key>
      reads this
    {
      set k | k in contents && p <= k
    }

    // The keys met by a walk of the node at p before it turns to the j-th child.
    ghost function UnderFirst(p: Key, j: nat): set<Key>
      requires p in shape && j <= |shape[p].kids|
      reads this
    {
      set k | k in contents && (k == p || exists i :: 0 <= i < j && shape[p].kids[i] <= k)
    }

    lemma UnderKids(p: Key)
      requires Valid() && p in shape
      ensures UnderFirst(p, |shape[p].kids|) == Under(p)
    {
      assert CellOk(shape, p);
      forall k | k in Under(p) && k != p
        ensures k in UnderFirst(p, |shape[p].kids|)
      {
        Below(shape, p, k);
      }
    }

    lemma UnderNext(p: Key, j: nat)
      requires Valid() && p in shape && j < |shape[p].kids|
      ensures UnderFirst(p, j + 1) == UnderFirst(p, j) + Under(shape[p].kids[j])
      ensures AllBelow(UnderFirst(p, j), Under(shape[p].kids[j]))
    {
      assert CellOk(shape, p);
      forall a, b | a in UnderFirst(p, j) && b in Under(shape[p].kids[j])
        ensures LexLess(a, b)
      {
        var c := shape[p].kids[j];
        assert b[|p|] == c[|p|];
        if a == p {
          LexAt(a, b, |p|);
        } else {
          var i :| 0 <= i < j && shape[p].kids[i] <= a;
          assert a[|p|] == shape[p].kids[i][|p|] < c[|p|];
          LexAt(a, b, |p|);
        }
      }
    }

    // Pre-order walk of a node; true when the callback asked to stop.
    method RecursiveWalk(n: Node<V>, fn: (Key, V) -> bool, ghost p: Key)
      returns (visited: seq<Leaf<V>>, stop: bool)
      requires Valid() && p in at && at[p] == n
      ensures Visits(contents, Under(p), fn, visited, stop)
      decreases set k | k in shape && p <= k
    {
      InRepr(p);
      LeafIs(n, p);
      visited, stop := [], false;
      ghost var keys: seq<Key> := [];
      if n.leaf.Some? {
        visited, keys := [n.leaf.value], [p];
        stop := fn(n.leaf.value.key, n.leaf.value.val);
      }
      FirstVisit(p, fn, keys, visited, stop);
      if stop {
        StoppedEarly(p, 0, fn, keys, visited);
        return;
      }
      EdgesFit(repr, at, shape, p);
      for j := 0 to |n.edges|
        invariant Lists(contents, UnderFirst(p, j), fn, keys, visited, false)
      {
        WalkShrinks(p, j);
        UnderNext(p, j);
        var more;
        more, stop := RecursiveWalk(n.edges[j].node, fn, shape[p].kids[j]);
        ghost var moreKeys :| Lists(contents, Under(shape[p].kids[j]), fn, moreKeys, more, stop);
        ListsConcat(contents, UnderFirst(p, j), Under(shape[p].kids[j]), fn, keys, visited, moreKeys, more, stop);
        visited, keys := visited + more, keys + moreKeys;
        if stop {
          StoppedEarly(p, j + 1, fn, keys, visited);
          return;
        }
      }
      UnderKids(p);
    }

    lemma FirstVisit(p: Key, fn: (Key, V) -> bool, keys: seq<Key>, visited: seq<Leaf<V>>, stop: bool)
      requires Valid() && p in shape
      requires if p in contents then
                 visited == [contents[p]] && keys == [p] && stop == fn(contents[p].key, contents[p].val)
               else visited == [] && keys == [] && !stop
      ensures Lists(contents, UnderFirst(p, 0), fn, keys, visited, stop)
    {
      assert p in contents ==> keys[0] == p;
    }

    lemma StoppedEarly(p: Key, j: nat, fn: (Key, V) -> bool, keys: seq<Key>, visited: seq<Leaf<V>>)
      requires Valid() && p in shape && j <= |shape[p].kids|
      requires Lists(contents, UnderFirst(p, j), fn, keys, visited, true)
      ensures Lists(contents, Under(p), fn, keys, visited, true)
      decreases |shape[p].kids| - j
    {
      if j == |shape[p].kids| {
        UnderKids(p);
      } else {
        UnderNext(p, j);
        ListsMore(contents, UnderFirst(p, j), Under(shape[p].kids[j]), fn, keys, visited);
        StoppedEarly(p, j + 1, fn, keys, visited);
      }
    }

    lemma WalkShrinks(p: Key, j: nat)
      requires Valid() && p in at && j < |shape[p].kids|
      ensures shape[p].kids[j] in at
      ensures (set k | k in shape && shape[p].kids[j] <= k) < (set k | k in shape && p <= k)
    {
      assert CellOk(shape, p);
      var small, big := (set k | k in shape && shape[p].kids[j] <= k), (set k | k in shape && p <= k);
      assert small <= big;
      assert p in big && p !in small;
    }

    // Visits the keys under a prefix in order until the callback asks to stop.
    method WalkPrefix(prefix: Key, fn: (Key, V) -> bool)
      returns (visited: seq<Leaf<V>>, stop: bool)
      requires Valid()
      ensures Visits(contents, Under(prefix), fn, visited, stop)
    {
      var n, search := root, prefix;
      ghost var p: Key := [];
      while true
        invariant p in at && at[p] == n && prefix == p + search
        decreases |search|
      {
        if search == [] {
          assert p == prefix;
          visited, stop := RecursiveWalk(n, fn, p);
          return;
        }
        var child;
        ghost var i;
        child, i := Child(n, search, p);
        visited, stop := [], false;
        if child == null {
          NothingUnder(p, i, prefix);
          NothingVisited(contents, fn);
          return;
        }
        if child.prefix <= search {
          Consume(p, search, child.prefix);
          p := p + child.prefix;
          n, search := child, search[|child.prefix|..];
        } else {
          PrefixUnder(p, search, child.prefix);
          ReachedByKid(p, i, prefix);
          NothingVisited(contents, fn);
          if search <= child.prefix {
            visited, stop := RecursiveWalk(child, fn, shape[p].kids[i]);
          }
          return;
        }
      }
    }

    lemma NothingUnder(p: Key, i: nat, prefix: Key)
      requires Valid() && p in shape && FitsAt(shape, p, i, prefix)
      ensures Under(prefix) == {}
    {
      forall k | k in Under(prefix)
        ensures false
      {
        Below(shape, p, k);
      }
    }

    lemma ReachedByKid(p: Key, i: nat, prefix: Key)
      requires Valid() && p in shape && p < prefix && i < |shape[p].kids| && p < shape[p].kids[i]
      requires shape[p].kids[i][|p|] == prefix[|p|] && !(shape[p].kids[i] <= prefix)
      ensures Under(prefix) == if prefix <= shape[p].kids[i] then Under(shape[p].kids[i]) else {}
    {
      forall k | k in Under(prefix)
        ensures shape[p].kids[i] <= k && prefix <= shape[p].kids[i]
      {
        BehindKid(shape, p, i, k);
      }
    }

    lemma InRepr(p: Key)
      requires Valid() && p in at
      ensures at[p] in repr && p in shape
    {
    }
  }

  // A tree with the keys "" and "a".
  method TwoKeys() returns (tree: Tree<nat>)
    ensures fresh(tree) && fresh(tree.repr) && tree.Valid() && Heads(tree.shape) == {97}
    ensures tree.contents == map[[] := Leaf([], 1), [97] := Leaf([97], 2)]
  {
    hide Tree.Valid, Heads;
    tree := new Tree<nat>();
    var r := tree.Insert([], 1);
    r := tree.Insert([97], 2);
  }

  lemma OnlyAStays(edge: Key)
    requires edge != [] && edge <= [97]
    ensures StrippedMap(map[[97] := Leaf([97], 2)], edge) == map[[] := Leaf([97], 2)]
  {
    assert edge == [97] && edge + [] == [97];
    forall q: Key | q != []
      ensures edge + q != [97]
    {
      assert |edge + q| > 1;
    }
  }

  // Of these the first is deleted: the value of the other is lost under its key
  // and found under the deleted one.
  method DeletingEmptyRenames() returns (whole: Option<nat>, empty: Option<nat>, nearest: Option<Leaf<nat>>)
    ensures whole == None && empty == Some(2) && nearest == Some(Leaf([97], 2))
  {
    hide Tree.Valid, Heads, StrippedMap;
    var tree := TwoKeys();
    ghost var was, edge := tree.contents, tree.RootEdge();
    assert tree.RootMerges([]) && was - {[]} == map[[97] := Leaf([97], 2)];
    var r := tree.Delete([]);
    assert [97] in was && edge <= [97];
    OnlyAStays(edge);
    whole := tree.Get([97]);
    empty := tree.Get([]);
    nearest := tree.LongestPrefix([]);
    assert [] in tree.contents;
  }

  // ---------------------------------------------------- writes to the nodes

  method WriteLeaf<V>(n: Node<V>, s: Key, leaf: Option<Leaf<V>>,
                      ghost repr: set<Node<V>>, ghost at: map<Key, Node<V>>,
                      ghost sh: Shape<Leaf<V>>, ghost m: map<Key, Leaf<V>>)
    returns (ghost sh': Shape<Leaf<V>>)
    requires Sound(repr, at, sh) && Stores(sh, m) && s in at && at[s] == n
    modifies n`leaf
    ensures Sound(repr, at, sh') && sh' == WithLeaf(sh, s, leaf) && Heads(sh') == Heads(sh)
    ensures forall c :: HeadsBehind(sh', c) == HeadsBehind(sh, c)
    ensures Stores(sh', if leaf.Some? then m[s := leaf.value] else m - {s})
  {
    WithLeafOk(sh, s, leaf);
    WithLeafStores(sh, m, s, leaf);
    assert WithLeaf(sh, s, leaf).Keys == sh.Keys;
    PutLeaf(n, s, leaf, repr, at, sh);
    sh' := WithLeaf(sh, s, leaf);
  }

  method PutLeaf<V>(n: Node<V>, s: Key, leaf: Option<Leaf<V>>,
                    ghost repr: set<Node<V>>, ghost at: map<Key, Node<V>>, ghost sh: Shape<Leaf<V>>)
    requires Linked(repr, at, sh) && s in at && at[s] == n
    modifies n`leaf
    ensures Linked(repr, at, WithLeaf(sh, s, leaf))
  {
    assert NodeIs(n, s, sh[s], at);
    n.leaf := leaf;
    ghost var sh' := WithLeaf(sh, s, leaf);
    forall q | q in at
      ensures NodeIs(at[q], q, sh'[q], at)
    {
      assert old(NodeIs(at[q], q, sh[q], at));
    }
  }

  lemma EdgesGrow<V>(edges: seq<Edge<V>>, p: Key, kids: seq<Key>, at: map<Key, Node<V>>, s: Key, node: Node<V>)
    requires EdgesAre(edges, p, kids, at) && s !in at
    ensures EdgesAre(edges, p, kids, at[s := node])
  {
  }

  lemma EdgesInsert<V>(edges: seq<Edge<V>>, p: Key, kids: seq<Key>, at: map<Key, Node<V>>, k: nat, s: Key,
                       node: Node<V>)
    requires EdgesAre(edges, p, kids, at) && s !in at && p < s && k <= |kids|
    ensures EdgesAre(edges[..k] + [Edge(s[|p|], node)] + edges[k..], p, kids[..k] + [s] + kids[k..], at[s := node])
  {
  }

  lemma EdgesReplace<V>(edges: seq<Edge<V>>, p: Key, kids: seq<Key>, at: map<Key, Node<V>>, i: nat, s: Key,
                        node: Node<V>)
    requires EdgesAre(edges, p, kids, at) && s !in at && p < s && i < |kids|
    ensures EdgesAre(edges[i := Edge(s[|p|], node)], p, kids[i := s], at[s := node])
  {
  }

  lemma EdgesFit<V>(repr: set<Node<V>>, at: map<Key, Node<V>>, sh: Shape<Leaf<V>>, p: Key)
    requires Sound(repr, at, sh) && p in at
    ensures p in sh && EdgesAre(at[p].edges, p, sh[p].kids, at) && EdgesSorted(at[p].edges)
  {
    assert CellOk(sh, p) && NodeIs(at[p], p, sh[p], at);
  }

  method WriteKid<V>(n: Node<V>, s: Key, search: Key, v: Leaf<V>, ghost p: Key,
                     ghost repr: set<Node<V>>, ghost at: map<Key, Node<V>>,
                     ghost sh: Shape<Leaf<V>>, ghost m: map<Key, Leaf<V>>)
    returns (node: Node<V>, ghost at': map<Key, Node<V>>, ghost sh': Shape<Leaf<V>>)
    requires Sound(repr, at, sh) && Stores(sh, m) && p in at && at[p] == n
    requires search != [] && s == p + search
    requires forall j :: 0 <= j < |sh[p].kids| ==> p < sh[p].kids[j] && sh[p].kids[j][|p|] != search[0]
    modifies n`edges
    ensures fresh(node) && s !in at && s !in m && at' == at[s := node]
    ensures Sound(repr + {node}, at', sh') && Stores(sh', m[s := v]) && Heads(sh') == Heads(sh) + {s[0]}
  {
    EdgesFit(repr, at, sh, p);
    var k := Search(n.edges, search[0]);
    assert FitsAt(sh, p, k, s);
    WithKidOk(sh, p, k, s, v);
    WithKidStores(sh, m, p, k, s, v);
    HeadsWithKid(sh, p, k, s, v);
    node := PutKid(n, s, search, v, k, p, repr, at, sh);
    at', sh' := at[s := node], WithKid(sh, p, k, s, v);
  }

  method PutKid<V>(n: Node<V>, s: Key, search: Key, v: Leaf<V>, k: nat, ghost p: Key,
                   ghost repr: set<Node<V>>, ghost at: map<Key, Node<V>>, ghost sh: Shape<Leaf<V>>)
    returns (node: Node<V>)
    requires Linked(repr, at, sh) && p in at && at[p] == n
    requires search != [] && s == p + search
    requires s !in at && k <= |sh[p].kids|
    modifies n`edges
    ensures fresh(node) && Linked(repr + {node}, at[s := node], WithKid(sh, p, k, s, v))
  {
    assert NodeIs(n, p, sh[p], at);
    node := new Node(Some(v), search, [], s);
    n.edges := n.edges[..k] + [Edge(search[0], node)] + n.edges[k..];
    ghost var at', sh' := at[s := node], WithKid(sh, p, k, s, v);
    forall q | q in at'
      ensures NodeIs(at'[q], q, sh'[q], at')
    {
      if q != s {
        assert old(NodeIs(at[q], q, sh[q], at));
        if q == p {
          EdgesInsert(old(n.edges), p, sh[p].kids, at, k, s, node);
        } else {
          EdgesGrow(old(at[q].edges), q, sh[q].kids, at, s, node);
        }
      }
    }
  }

  method WriteSplit<V>(n: Node<V>, child: Node<V>, head: Key, ghost p: Key, ghost i: nat,
                       ghost repr: set<Node<V>>, ghost at: map<Key, Node<V>>,
                       ghost sh: Shape<Leaf<V>>, ghost m: map<Key, Leaf<V>>)
    returns (mid: Node<V>, ghost at': map<Key, Node<V>>, ghost sh': Shape<Leaf<V>>)
    requires Sound(repr, at, sh) && Stores(sh, m) && p in at && at[p] == n && i < |sh[p].kids|
    requires sh[p].kids[i] in at && at[sh[p].kids[i]] == child && sh[p].kids[i] == p + child.prefix
    requires head != [] && head < child.prefix
    modifies n`edges, child`prefix
    ensures fresh(mid) && p + head !in at && at' == at[p + head := mid]
    ensures Sound(repr + {mid}, at', sh') && Stores(sh', m) && Heads(sh') == Heads(sh)
    ensures sh'[p + head] == Cell(None, p, [sh[p].kids[i]])
  {
    ghost var q := p + head;
    EdgesFit(repr, at, sh, p);
    SplitOk(sh, p, i, q);
    SplitStores(sh, m, p, i, q);
    HeadsSplit(sh, p, i, q);
    assert n.edges[i].tag == sh[p].kids[i][|p|] == head[0];
    var k := IndexOf(n.edges, head[0], i);
    mid := PutSplit(n, child, head, k, p, repr, at, sh);
    at', sh' := at[q := mid], Split(sh, p, i, q);
  }

  method PutSplit<V>(n: Node<V>, child: Node<V>, head: Key, i: nat, ghost p: Key,
                     ghost repr: set<Node<V>>, ghost at: map<Key, Node<V>>, ghost sh: Shape<Leaf<V>>)
    returns (mid: Node<V>)
    requires Linked(repr, at, sh) && ShapeOk(sh) && p in at && at[p] == n && i < |sh[p].kids|
    requires sh[p].kids[i] in at && at[sh[p].kids[i]] == child && sh[p].kids[i] == p + child.prefix
    requires head != [] && head < child.prefix && p + head !in at
    modifies n`edges, child`prefix
    ensures fresh(mid) && Linked(repr + {mid}, at[p + head := mid], Split(sh, p, i, p + head))
  {
    ghost var c, m := sh[p].kids[i], p + head;
    PathsAre(repr, at, sh);
    assert NodeIs(n, p, sh[p], at);
    assert |n.edges| == |sh[p].kids|;
    NewEdge(p, sh[p].kids[i], head, child.prefix);
    SplitKeys(sh, p, i, m);
    hide ShapeOk, Fits, EdgesAre, CellOk, Split;
    mid := PutBetween(n, child, head, i, m);
    ghost var at', sh' := at[m := mid], Split(sh, p, i, m);
    forall q | q in at'
      ensures NodeIs(at'[q], q, sh'[q], at')
    {
      if q == m {
        NewFitsAt(sh, at, p, i, m, mid, [Edge(c[|m|], child)]);
      } else {
        ghost var x := at[q];
        assert old(NodeIs(x, q, sh[q], at));
        SplitFits(sh, at, p, i, head, mid, q, old(x.leaf), old(x.prefix), old(x.edges));
      }
    }
  }

  // A node's own path tells where it stands.
  lemma PathsAre<V>(repr: set<Node<V>>, at: map<Key, Node<V>>, sh: Shape<Leaf<V>>)
    requires Linked(repr, at, sh)
    ensures forall q :: q in at ==> at[q].path == q
  {
    forall q | q in at ensures at[q].path == q { assert NodeIs(at[q], q, sh[q], at); }
  }

  lemma SplitKeys<V>(sh: Shape<Leaf<V>>, p: Key, i: nat, m: Key)
    requires p in sh && i < |sh[p].kids| && sh[p].kids[i] in sh
    ensures Split(sh, p, i, m).Keys == sh.Keys + {m}
  {
  }

  lemma NewEdge(p: Key, c: Key, head: Key, prefix: Key)
    requires c == p + prefix && head < prefix
    ensures c[|p + head|] == prefix[|head|] && p + head < c && (p + head)[|p|..] == head
  {
  }

  // The writes of a split: a new node with the head of the child's prefix.
  method PutBetween<V>(n: Node<V>, child: Node<V>, head: Key, i: nat, ghost m: Key) returns (mid: Node<V>)
    requires head != [] && head < child.prefix && i < |n.edges|
    modifies n`edges, child`prefix
    ensures fresh(mid) && mid.leaf == None && mid.prefix == head && mid.path == m
    ensures mid.edges == [Edge(old(child.prefix)[|head|], child)]
    ensures n.edges == old(n.edges)[i := Edge(head[0], mid)]
    ensures child.prefix == old(child.prefix)[|head|..]
  {
    mid := new Node(None, head, [Edge(child.prefix[|head|], child)], m);
    n.edges := n.edges[i := Edge(head[0], mid)];
    child.prefix := child.prefix[|head|..];
  }

  // The new node between p and its child.
  lemma NewFitsAt<V>(sh: Shape<Leaf<V>>, at: map<Key, Node<V>>, p: Key, i: nat, m: Key, mid: Node<V>,
                     edges: seq<Edge<V>>)
    requires p in sh && i < |sh[p].kids| && sh[p].kids[i] in sh && sh[p].kids[i] in at && p < m < sh[p].kids[i]
    requires m !in at && edges == [Edge(sh[p].kids[i][|m|], at[sh[p].kids[i]])]
    ensures Fits(m, None, m[|p|..], edges, m, Split(sh, p, i, m)[m], at[m := mid])
  {
  }

  // What a split makes of every other node.
  lemma SplitFits<V>(sh: Shape<Leaf<V>>, at: map<Key, Node<V>>, p: Key, i: nat, head: Key, mid: Node<V>, q: Key,
                     leaf: Option<Leaf<V>>, prefix: Key, edges: seq<Edge<V>>)
    requires ShapeOk(sh) && p in sh && i < |sh[p].kids| && sh[p].kids[i] in sh && q in sh
    requires head != [] && p + head < sh[p].kids[i] && p + head !in at && p + head !in sh
    requires Fits(q, leaf, prefix, edges, q, sh[q], at)
    ensures q == p ==> i < |edges|
    ensures q == sh[p].kids[i] ==> |head| <= |prefix|
    ensures Fits(q, leaf, if q == sh[p].kids[i] then prefix[|head|..] else prefix,
                 if q == p then edges[i := Edge(head[0], mid)] else edges,
                 q, Split(sh, p, i, p + head)[q], at[p + head := mid])
  {
    assert CellOk(sh, p);
    hide ShapeOk, CellOk;
    var m := p + head;
    assert m[|p|] == head[0];
    if q == p {
      EdgesReplace(edges, p, sh[p].kids, at, i, m, mid);
    } else {
      EdgesGrow(edges, q, sh[q].kids, at, m, mid);
    }
  }

  method WriteMerge<V>(n: Node<V>, child: Node<V>, ghost p: Key, ghost i: nat,
                       ghost repr: set<Node<V>>, ghost at: map<Key, Node<V>>,
                       ghost sh: Shape<Leaf<V>>, ghost m: map<Key, Leaf<V>>)
    returns (ghost at': map<Key, Node<V>>, ghost sh': Shape<Leaf<V>>)
    requires Sound(repr, at, sh) && Stores(sh, m) && p in at && at[p] == n
    requires Mergeable(sh, p, i) && sh[p].leaf.None? && sh[p].kids[0] in at && at[sh[p].kids[0]] == child
    modifies n
    ensures Sound(repr, at', sh') && Stores(sh', m) && Heads(sh') == Heads(sh)
    ensures [] in at ==> [] in at' && at'[[]] == at[[]]
  {
    MergedOk(sh, p, i);
    MergedStores(sh, m, p, i);
    HeadsMerged(sh, p, i);
    PutMerge(n, child, p, i, repr, at, sh);
    assert CellOk(sh, p);
    at', sh' := MergedAt(at, p, sh[p].kids[0], n), Merged(sh, p, i);
  }

  lemma JoinedPrefix(u: Key, p: Key, c: Key)
    requires u < p < c
    ensures p[|u|..] + c[|p|..] == c[|u|..]
  {
    assert c == p + c[|p|..];
  }

  method PutMerge<V>(n: Node<V>, child: Node<V>, ghost p: Key, ghost i: nat,
                     ghost repr: set<Node<V>>, ghost at: map<Key, Node<V>>, ghost sh: Shape<Leaf<V>>)
    requires Linked(repr, at, sh) && ShapeOk(sh) && p in at && at[p] == n
    requires Mergeable(sh, p, i) && sh[p].kids[0] in at && at[sh[p].kids[0]] == child
    modifies n
    ensures Linked(repr, MergedAt(at, p, sh[p].kids[0], n), Merged(sh, p, i))
  {
    ghost var c := sh[p].kids[0];
    assert NodeIs(n, p, sh[p], at) && NodeIs(child, c, sh[c], at);
    assert CellOk(sh, p);
    JoinedPrefix(sh[p].up, p, c);
    ghost var at', sh' := MergedAt(at, p, c, n), Merged(sh, p, i);
    assert at'.Keys == sh'.Keys;
    PathsAre(repr, at, sh);
    hide Merged, MergedAt, Mergeable, EdgesAre, CellOk, ShapeOk;
    TakeOver(n, child, c);
    forall q | q in at'
      ensures NodeIs(at'[q], q, sh'[q], at')
    {
      MergedNode(sh, at, n, p, i, q);
      assert old(NodeIs(at[q], q, sh[q], at));
      MergedEdges(sh, at, n, p, i, q, old(at[q].edges));
    }
  }

  // The writes of a merge: the node takes over its child.
  method TakeOver<V>(n: Node<V>, child: Node<V>, ghost c: Key)
    requires n != child
    modifies n
    ensures n.prefix == old(n.prefix) + child.prefix && n.leaf == child.leaf && n.edges == child.edges && n.path == c
  {
    n.prefix := n.prefix + child.prefix;
    n.leaf := child.leaf;
    n.edges := child.edges;
    n.path := c;
  }

  ghost function MergedAt<V>(at: map<Key, Node<V>>, p: Key, c: Key, n: Node<V>): map<Key, Node<V>> {
    (at - {p})[c := n]
  }

  lemma MergedNode<V>(sh: Shape<Leaf<V>>, at: map<Key, Node<V>>, n: Node<V>, p: Key, i: nat, q: Key)
    requires Mergeable(sh, p, i) && p != sh[p].kids[0] && at.Keys == sh.Keys && q in MergedAt(at, p, sh[p].kids[0], n)
    ensures q in sh && q in at && q != p && q in Merged(sh, p, i)
    ensures MergedAt(at, p, sh[p].kids[0], n)[q] == if q == sh[p].kids[0] then n else at[q]
    ensures Merged(sh, p, i)[q].leaf == sh[q].leaf
    ensures Merged(sh, p, i)[q].up == if q == sh[p].kids[0] then sh[p].up else sh[q].up
  {
  }

  // The edges of every other node still lead where they led, and those to n now lead to c.
  lemma MergedEdges<V>(sh: Shape<Leaf<V>>, at: map<Key, Node<V>>, n: Node<V>, p: Key, i: nat, q: Key,
                       edges: seq<Edge<V>>)
    requires ShapeOk(sh) && Mergeable(sh, p, i) && p in at && at[p] == n
    requires q in sh && q != p && EdgesAre(edges, q, sh[q].kids, at)
    ensures EdgesAre(edges, q, Merged(sh, p, i)[q].kids, MergedAt(at, p, sh[p].kids[0], n))
  {
    var c := sh[p].kids[0];
    assert CellOk(sh, p) && CellOk(sh, q);
    forall j | 0 <= j < |sh[q].kids|
      ensures sh[q].kids[j] != c && (sh[q].kids[j] == p ==> q == sh[p].up && j == i)
    {
      assert sh[sh[q].kids[j]].up == q;
    }
  }

  method WriteStrip<V>(root: Node<V>, child: Node<V>, ghost c: Key,
                       ghost repr: set<Node<V>>, ghost at: map<Key, Node<V>>,
                       ghost sh: Shape<Leaf<V>>, ghost m: map<Key, Leaf<V>>)
    returns (ghost at': map<Key, Node<V>>, ghost sh': Shape<Leaf<V>>)
    requires Sound(repr, at, sh) && Stores(sh, m) && [] in at && at[[]] == root
    requires [] in sh && sh[[]].kids == [c] && c in at && at[c] == child
    modifies repr`path, root`prefix, root`leaf, root`edges
    ensures Sound(repr, at', sh') && Stores(sh', StrippedMap(m, c)) && [] in at' && at'[[]] == root
    ensures Heads(sh') == HeadsBehind(sh, c)
  {
    StrippedOk(sh, c);
    StrippedStores(sh, m, c);
    HeadsStripped(sh, c);
    at' := PutStrip(root, child, c, repr, at, sh);
    sh' := Stripped(sh, c);
  }

  method PutStrip<V>(root: Node<V>, child: Node<V>, ghost c: Key,
                     ghost repr: set<Node<V>>, ghost at: map<Key, Node<V>>, ghost sh: Shape<Leaf<V>>)
    returns (ghost at': map<Key, Node<V>>)
    requires Linked(repr, at, sh) && ShapeOk(sh) && [] in at && at[[]] == root
    requires sh[[]].kids == [c] && c in at && at[c] == child
    modifies repr`path, root`prefix, root`leaf, root`edges
    ensures Linked(repr, at', Stripped(sh, c)) && [] in at' && at'[[]] == root
  {
    ghost var sh' := Stripped(sh, c);
    PathsAre(repr, at, sh);
    StrippedAtIs(at, root, c, sh, repr);
    at' := StrippedAt(at, root, c, sh');
    hide Stripped, StrippedCell, StrippedAt, StripReady, Fits, EdgesAre, ShapeOk;
    AbsorbChild(root, child, c, repr);
    forall q | q in at'
      ensures NodeIs(at'[q], q, sh'[q], at')
    {
      ghost var n := at[c + q];
      assert n.path == Drop(old(n.path), |c|) && old(n.path) == c + q;
      assert old(NodeIs(n, c + q, sh[c + q], at));
      StrippedFits(sh, at, at', c, q, old(n.path), old(n.leaf), old(n.prefix), old(n.edges), at'[q].prefix);
    }
  }

  lemma StrippedFits<V>(sh: Shape<Leaf<V>>, at: map<Key, Node<V>>, at': map<Key, Node<V>>, c: Key, q: Key,
                        path: Key, leaf: Option<Leaf<V>>, prefix: Key, edges: seq<Edge<V>>, prefix': Key)
    requires StripReady(sh, at, at', c) && c + q in sh
    requires Fits(path, leaf, prefix, edges, c + q, sh[c + q], at) && (q != [] ==> prefix' == prefix)
    ensures q == [] ==> c + q == c
    ensures Fits(Drop(path, |c|), leaf, prefix', edges, q, Stripped(sh, c)[q], at')
  {
    StrippedPath(sh, c, q);
    StrippedEdges(sh, at, at', c, q, edges);
  }

  // What Delete does to the root, and what that does to the paths of all nodes.
  method AbsorbChild<V>(root: Node<V>, child: Node<V>, ghost c: Key, ghost repr: set<Node<V>>)
    requires root in repr
    modifies repr`path, root`prefix, root`leaf, root`edges
    ensures root.leaf == old(child.leaf) && root.edges == old(child.edges)
    ensures forall n :: n in repr ==> n.path == Drop(old(n.path), |c|)
    ensures forall n :: n in repr && n != root ==>
              n.leaf == old(n.leaf) && n.prefix == old(n.prefix) && n.edges == old(n.edges)
  {
    root.prefix := root.prefix + child.prefix;
    root.leaf := child.leaf;
    root.edges := child.edges;
    forall n | n in repr {
      n.path := Drop(n.path, |c|);
    }
  }

  ghost function StrippedAt<V>(at: map<Key, Node<V>>, root: Node<V>, c: Key, sh': Shape<Leaf<V>>): map<Key, Node<V>>
    requires forall q :: q in sh' ==> c + q in at
  {
    map q | q in sh' :: if q == [] then root else at[c + q]
  }

  ghost predicate StripReady<V>(sh: Shape<Leaf<V>>, at: map<Key, Node<V>>, at': map<Key, Node<V>>, c: Key) {
    && ShapeOk(sh) && sh[[]].kids == [c] && at.Keys == sh.Keys && at'.Keys == Stripped(sh, c).Keys
    && (forall k :: k in at' && k != [] ==> c + k in at && at'[k] == at[c + k])
  }

  lemma StrippedAtIs<V>(at: map<Key, Node<V>>, root: Node<V>, c: Key, sh: Shape<Leaf<V>>, repr: set<Node<V>>)
    requires ShapeOk(sh) && sh[[]].kids == [c] && at.Keys == sh.Keys && c in sh
    requires root in repr && forall k :: k in at ==> at[k] in repr
    ensures
      var at' := StrippedAt(at, root, c, Stripped(sh, c));
      && StripReady(sh, at, at', c) && [] in at' && at'[[]] == root
      && (forall k :: k in at' ==> at'[k] in repr && c + k in at && c + k in sh && k in Stripped(sh, c))
      && (forall k :: k in at' && k != [] ==> at'[k] == at[c + k])
  {
    assert c + [] == c;
  }

  lemma StrippedPath<V>(sh: Shape<Leaf<V>>, c: Key, q: Key)
    requires ShapeOk(sh) && sh[[]].kids == [c] && c + q in sh
    ensures [] + (c + q) == c + q && Drop(c + q, |c|) == q
    ensures q == [] ==> c + q == c
    ensures q != [] ==> Stripped(sh, c)[q].up < q && (c + q)[|sh[c + q].up|..] == q[|Stripped(sh, c)[q].up|..]
  {
    assert (c + q)[|c|..] == q;
    if q != [] {
      assert CellOk(sh, c + q);
      OnlyChild(sh, c, c + q);
      var u, u' := sh[c + q].up, Stripped(sh, c)[q].up;
      hide *;
      CutFront(c, q, u, u');
    }
  }

  lemma CutFront(c: Key, q: Key, u: Key, u': Key)
    requires c <= u < c + q && u' == Drop(u, |c|)
    ensures u' < q && (c + q)[|u|..] == q[|u'|..]
  {
    assert u == c + u';
    assert (c + q)[..|u|] == c + u';
    assert (c + q)[..|u|][|c|..] == q[..|u'|];
  }

  lemma StrippedEdges<V>(sh: Shape<Leaf<V>>, at: map<Key, Node<V>>, at': map<Key, Node<V>>, c: Key, q: Key,
                         edges: seq<Edge<V>>)
    requires ShapeOk(sh) && c + q in sh && at.Keys == sh.Keys && at'.Keys == Stripped(sh, c).Keys
    requires forall k :: k in at' && k != [] ==> c + k in at && at'[k] == at[c + k]
    requires EdgesAre(edges, c + q, sh[c + q].kids, at)
    ensures EdgesAre(edges, q, Stripped(sh, c)[q].kids, at')
  {
    var kids' := Stripped(sh, c)[q].kids;
    assert CellOk(sh, c + q);
    forall j | 0 <= j < |kids'|
      ensures q < kids'[j] && kids'[j] in at' && edges[j] == Edge(kids'[j][|q|], at'[kids'[j]])
    {
      StrippedKids(sh, c, q, j);
    }
  }
}
