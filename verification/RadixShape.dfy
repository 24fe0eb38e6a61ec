/**
  The shape of a radix tree, as a value.

  A shape maps the path of every node to its cell: the value stored there, the
  path of its parent and the paths of its children.  All conditions are local
  to a cell and its neighbours, and nodes without a value and without children
  are allowed anywhere, as Delete leaves them behind.  RadixTree ties mutable
  nodes to a shape.
 */
module RadixShape {
  import opened Common

  type Key = seq<byte>

  datatype Cell<V> = Cell(leaf: Option<V>, up: Key, kids: seq<Key>)

  type Shape<V> = map<Key, Cell<V>>

  ghost predicate KidsSorted(p: Key, kids: seq<Key>) {
    && (forall i :: 0 <= i < |kids| ==> p < kids[i])
    && (forall i, j :: 0 <= i < j < |kids| ==> kids[i][|p|] < kids[j][|p|])
  }

  ghost predicate CellOk<V>(sh: Shape<V>, p: Key)
    requires p in sh
  {
    && KidsSorted(p, sh[p].kids)
    && (forall i :: 0 <= i < |sh[p].kids| ==> sh[p].kids[i] in sh && sh[sh[p].kids[i]].up == p)
    && (p != [] ==> sh[p].up in sh && sh[p].up < p && p in sh[sh[p].up].kids)
  }

  ghost predicate ShapeOk<V>(sh: Shape<V>) {
    [] in sh && forall p {:trigger CellOk(sh, p)} :: p in sh ==> CellOk(sh, p)
  }

  // The shape stands for the map.
  ghost predicate Stores<V>(sh: Shape<V>, m: map<Key, V>) {
    && (forall p :: p in m ==> p in sh && sh[p].leaf == Some(m[p]))
    && (forall p :: p in sh && sh[p].leaf.Some? ==> p in m)
  }

  // A node below another lies behind one of its children.
  lemma {:induction false} Below<V>(sh: Shape<V>, p: Key, k: Key)
    requires ShapeOk(sh) && p in sh && k in sh && p < k
    ensures exists i :: 0 <= i < |sh[p].kids| && sh[p].kids[i] <= k
    decreases |k|, 1
  {
    assert CellOk(sh, k);
    var q := sh[k].up;
    if q == p {
    } else if |p| < |q| {
      Below(sh, p, q);
      var i :| 0 <= i < |sh[p].kids| && sh[p].kids[i] <= q;
      assert sh[p].kids[i] <= k;
    } else {
      assert q < p;
      Between(sh, q, p, k);
    }
  }

  // No node lies strictly between a node and its child.
  lemma Between<V>(sh: Shape<V>, q: Key, p: Key, k: Key)
    requires ShapeOk(sh) && q in sh && p in sh && q < p && k in sh[q].kids
    ensures !(p < k)
    decreases |p|, 2
  {
    Below(sh, q, p);
    assert CellOk(sh, q);
    var i :| 0 <= i < |sh[q].kids| && sh[q].kids[i] <= p;
    var j :| 0 <= j < |sh[q].kids| && sh[q].kids[j] == k;
    if p[|q|] == k[|q|] {
      assert sh[q].kids[i][|q|] == p[|q|];
      assert i == j;
    }
  }

  // Behind the child that starts with the next byte of k lies every node on the way to k.
  lemma BehindKid<V>(sh: Shape<V>, p: Key, i: nat, k: Key)
    requires ShapeOk(sh) && p in sh && k in sh && p < k
    requires i < |sh[p].kids| && p < sh[p].kids[i] && sh[p].kids[i][|p|] == k[|p|]
    ensures sh[p].kids[i] <= k
  {
    Below(sh, p, k);
    var j :| 0 <= j < |sh[p].kids| && sh[p].kids[j] <= k;
    assert CellOk(sh, p);
    assert sh[p].kids[j][|p|] == k[|p|];
    assert i == j;
  }

  // ------------------------------------------------------------ the changes

  function WithLeaf<V>(sh: Shape<V>, p: Key, leaf: Option<V>): Shape<V>
    requires p in sh
  {
    sh[p := sh[p].(leaf := leaf)]
  }

  // A new node for s below p, as the i-th child.
  function WithKid<V>(sh: Shape<V>, p: Key, i: nat, s: Key, v: V): Shape<V>
    requires p in sh && i <= |sh[p].kids|
  {
    sh[p := sh[p].(kids := sh[p].kids[..i] + [s] + sh[p].kids[i..])][s := Cell(Some(v), p, [])]
  }

  // A new node at m between p and its i-th child.
  function Split<V>(sh: Shape<V>, p: Key, i: nat, m: Key): Shape<V>
    requires p in sh && i < |sh[p].kids| && sh[p].kids[i] in sh
  {
    var c := sh[p].kids[i];
    sh[p := sh[p].(kids := sh[p].kids[i := m])][c := sh[c].(up := m)][m := Cell(None, p, [c])]
  }

  // The only child of p, the i-th child of its parent, takes p's place.
  predicate Mergeable<V>(sh: Shape<V>, p: Key, i: nat) {
    && p in sh && p != [] && |sh[p].kids| == 1 && sh[p].kids[0] in sh
    && sh[p].up in sh && i < |sh[sh[p].up].kids| && sh[sh[p].up].kids[i] == p
  }

  function Merged<V>(sh: Shape<V>, p: Key, i: nat): Shape<V>
    requires Mergeable(sh, p, i)
  {
    var u, c := sh[p].up, sh[p].kids[0];
    (sh[u := sh[u].(kids := sh[u].kids[i := c])][c := sh[c].(up := u)]) - {p}
  }

  // What each change does to the contents.
  lemma WithLeafStores<V>(sh: Shape<V>, m: map<Key, V>, p: Key, leaf: Option<V>)
    requires Stores(sh, m) && p in sh
    ensures Stores(WithLeaf(sh, p, leaf), if leaf.Some? then m[p := leaf.value] else m - {p})
  {
  }

  lemma WithKidStores<V>(sh: Shape<V>, m: map<Key, V>, p: Key, i: nat, s: Key, v: V)
    requires Stores(sh, m) && p in sh && i <= |sh[p].kids| && p != s
    ensures Stores(WithKid(sh, p, i, s, v), m[s := v])
  {
  }

  lemma SplitStores<V>(sh: Shape<V>, m: map<Key, V>, p: Key, i: nat, mid: Key)
    requires Stores(sh, m) && p in sh && i < |sh[p].kids| && sh[p].kids[i] in sh && mid !in sh
    ensures Stores(Split(sh, p, i, mid), m)
  {
  }

  lemma MergedStores<V>(sh: Shape<V>, m: map<Key, V>, p: Key, i: nat)
    requires Stores(sh, m) && Mergeable(sh, p, i) && sh[p].leaf.None?
    ensures Stores(Merged(sh, p, i), m)
  {
  }

  // The first bytes of the paths, one for each edge of the root.
  ghost function Heads<V>(sh: Shape<V>): set<byte> {
    set k | k in sh && k != [] :: k[0]
  }

  ghost function Head(s: Key): set<byte> {
    if s == [] then {} else {s[0]}
  }

  // The bytes that come behind c.
  ghost function HeadsBehind<V>(sh: Shape<V>, c: Key): set<byte> {
    set k | k in sh && c < k :: k[|c|]
  }

  lemma HeadsAreEdges<V>(sh: Shape<V>)
    requires ShapeOk(sh)
    ensures |Heads(sh)| == |sh[[]].kids|
  {
    assert CellOk(sh, []);
    var kids := sh[[]].kids;
    forall k | k in sh && k != []
      ensures exists i :: 0 <= i < |kids| && kids[i] != [] && kids[i][0] == k[0]
    {
      Below(sh, [], k);
    }
    assert Heads(sh) == FirstBytes(kids);
    CountHeads(kids);
  }

  ghost function FirstBytes(kids: seq<Key>): set<byte> {
    set i | 0 <= i < |kids| && kids[i] != [] :: kids[i][0]
  }

  lemma {:induction false} CountHeads(kids: seq<Key>)
    requires KidsSorted([], kids)
    ensures |FirstBytes(kids)| == |kids|
  {
    if kids != [] {
      var front, last := kids[..|kids| - 1], kids[|kids| - 1];
      CountHeads(front);
      assert last[0] !in FirstBytes(front);
      assert FirstBytes(kids) == FirstBytes(front) + {last[0]};
    }
  }

  lemma HeadsWithKid<V>(sh: Shape<V>, p: Key, i: nat, s: Key, v: V)
    requires p in sh && i <= |sh[p].kids| && s != []
    ensures Heads(WithKid(sh, p, i, s, v)) == Heads(sh) + {s[0]}
  {
    assert WithKid(sh, p, i, s, v).Keys == sh.Keys + {s};
  }

  lemma HeadsSplit<V>(sh: Shape<V>, p: Key, i: nat, m: Key)
    requires p in sh && i < |sh[p].kids| && sh[p].kids[i] in sh && p < m < sh[p].kids[i]
    ensures Heads(Split(sh, p, i, m)) == Heads(sh)
  {
    assert Split(sh, p, i, m).Keys == sh.Keys + {m};
    assert m[0] == sh[p].kids[i][0];
  }

  lemma HeadsMerged<V>(sh: Shape<V>, p: Key, i: nat)
    requires ShapeOk(sh) && Mergeable(sh, p, i)
    ensures Heads(Merged(sh, p, i)) == Heads(sh)
  {
    assert CellOk(sh, p);
    var c := sh[p].kids[0];
    assert Merged(sh, p, i).Keys == sh.Keys - {p} && c in sh && c != p && c[0] == p[0];
    forall x | x in Heads(sh)
      ensures x in Heads(Merged(sh, p, i))
    {
      var k :| k in sh && k != [] && k[0] == x;
      assert (if k == p then c else k) in Merged(sh, p, i);
    }
  }

  // Each change leaves a well-formed shape.
  lemma WithLeafOk<V>(sh: Shape<V>, p: Key, leaf: Option<V>)
    requires ShapeOk(sh) && p in sh
    ensures ShapeOk(WithLeaf(sh, p, leaf))
  {
    var sh' := WithLeaf(sh, p, leaf);
    forall q | q in sh'
      ensures CellOk(sh', q)
    {
      assert CellOk(sh, q);
      SameLinks(sh, sh', q);
    }
  }

  // A cell depends on its children's links up and its parent's list only.
  lemma SameLinks<V>(sh: Shape<V>, sh': Shape<V>, q: Key)
    requires q in sh && CellOk(sh, q) && q in sh' && sh'[q].kids == sh[q].kids && sh'[q].up == sh[q].up
    requires forall k :: k in sh[q].kids ==> k in sh' && sh'[k].up == q
    requires q != [] ==> sh[q].up in sh' && q in sh'[sh[q].up].kids
    ensures CellOk(sh', q)
  {
  }

  ghost predicate FitsAt<V>(sh: Shape<V>, p: Key, i: nat, s: Key)
    requires p in sh
  {
    && p < s && i <= |sh[p].kids|
    && (forall j :: 0 <= j < |sh[p].kids| ==> p < sh[p].kids[j])
    && (forall j :: 0 <= j < i ==> sh[p].kids[j][|p|] < s[|p|])
    && (forall j :: i <= j < |sh[p].kids| ==> s[|p|] < sh[p].kids[j][|p|])
  }

  lemma NewPath<V>(sh: Shape<V>, p: Key, i: nat, s: Key)
    requires ShapeOk(sh) && p in sh && FitsAt(sh, p, i, s)
    ensures s !in sh
  {
    if s in sh {
      Below(sh, p, s);
    }
  }

  lemma KidMismatch<V>(sh: Shape<V>, p: Key, i: nat, s: Key)
    requires ShapeOk(sh) && p in sh && i < |sh[p].kids| && p < sh[p].kids[i] && p < s
    requires sh[p].kids[i][|p|] == s[|p|] && !(sh[p].kids[i] <= s)
    ensures s !in sh
  {
    if s in sh {
      BehindKid(sh, p, i, s);
    }
  }

  lemma KidInserted(p: Key, kids: seq<Key>, i: nat, s: Key)
    requires KidsSorted(p, kids) && p < s && i <= |kids|
    requires forall j :: 0 <= j < i ==> kids[j][|p|] < s[|p|]
    requires forall j :: i <= j < |kids| ==> s[|p|] < kids[j][|p|]
    ensures KidsSorted(p, kids[..i] + [s] + kids[i..])
    ensures forall k :: k in kids[..i] + [s] + kids[i..] <==> k in kids || k == s
  {
    var kids' := kids[..i] + [s] + kids[i..];
    assert kids == kids[..i] + kids[i..];
    assert forall j :: 0 <= j < |kids'| ==> kids'[j] == if j < i then kids[j] else if j == i then s else kids[j - 1];
  }

  lemma WithKidOk<V>(sh: Shape<V>, p: Key, i: nat, s: Key, v: V)
    requires ShapeOk(sh) && p in sh && FitsAt(sh, p, i, s)
    ensures s !in sh && ShapeOk(WithKid(sh, p, i, s, v))
  {
    NewPath(sh, p, i, s);
    var sh' := WithKid(sh, p, i, s, v);
    assert CellOk(sh, p);
    KidInserted(p, sh[p].kids, i, s);
    forall q | q in sh'
      ensures CellOk(sh', q)
    {
      WithKidCell(sh, p, i, s, v, q);
    }
  }

  lemma WithKidCell<V>(sh: Shape<V>, p: Key, i: nat, s: Key, v: V, q: Key)
    requires ShapeOk(sh) && p in sh && i <= |sh[p].kids| && p < s && s !in sh
    requires q in WithKid(sh, p, i, s, v)
    requires KidsSorted(p, WithKid(sh, p, i, s, v)[p].kids)
    requires forall k :: k in WithKid(sh, p, i, s, v)[p].kids <==> k in sh[p].kids || k == s
    ensures CellOk(WithKid(sh, p, i, s, v), q)
  {
    var sh' := WithKid(sh, p, i, s, v);
    if q == p {
      assert CellOk(sh, p);
      assert forall j :: 0 <= j < |sh'[p].kids| ==> sh'[p].kids[j] in sh'[p].kids;
    } else if q != s {
      assert CellOk(sh, q);
      SameLinks(sh, sh', q);
    }
  }

  lemma KidReplaced(p: Key, kids: seq<Key>, i: nat, m: Key)
    requires KidsSorted(p, kids) && i < |kids| && p < m && m[|p|] == kids[i][|p|]
    ensures KidsSorted(p, kids[i := m])
    ensures forall k :: k in kids[i := m] <==> (k in kids && k != kids[i]) || k == m
  {
    var kids' := kids[i := m];
    assert forall j :: 0 <= j < |kids| && j != i ==> kids[j] != kids[i] && kids'[j] == kids[j];
    assert kids'[i] == m;
    forall k | k in kids && k != kids[i]
      ensures k in kids'
    {
      var j :| 0 <= j < |kids| && kids[j] == k;
      assert kids'[j] == k;
    }
  }

  lemma SplitOk<V>(sh: Shape<V>, p: Key, i: nat, m: Key)
    requires ShapeOk(sh) && p in sh && i < |sh[p].kids| && p < m < sh[p].kids[i]
    ensures sh[p].kids[i] in sh && m !in sh && ShapeOk(Split(sh, p, i, m))
  {
    assert CellOk(sh, p);
    if m in sh {
      Between(sh, p, m, sh[p].kids[i]);
    }
    KidReplaced(p, sh[p].kids, i, m);
    forall q | q in Split(sh, p, i, m)
      ensures CellOk(Split(sh, p, i, m), q)
    {
      SplitCell(sh, p, i, m, q);
    }
  }

  lemma SplitCell<V>(sh: Shape<V>, p: Key, i: nat, m: Key, q: Key)
    requires ShapeOk(sh) && p in sh && i < |sh[p].kids| && p < m < sh[p].kids[i]
    requires sh[p].kids[i] in sh && m !in sh && q in Split(sh, p, i, m)
    requires KidsSorted(p, sh[p].kids[i := m])
    requires forall k :: k in sh[p].kids[i := m] <==> (k in sh[p].kids && k != sh[p].kids[i]) || k == m
    ensures CellOk(Split(sh, p, i, m), q)
  {
    var sh' := Split(sh, p, i, m);
    var c := sh[p].kids[i];
    assert CellOk(sh, p);
    assert sh[c].up == p;
    assert sh'[p].kids == sh[p].kids[i := m];
    if q == m {
      assert sh[p].kids[i := m][i] == m;
    } else if q == p {
      assert forall j :: 0 <= j < |sh'[p].kids| ==> sh'[p].kids[j] in sh'[p].kids;
    } else if q == c {
      assert CellOk(sh, c);
    } else {
      assert CellOk(sh, q);
      forall k | k in sh[q].kids
        ensures k in sh' && sh'[k].up == q
      {
        assert k in sh && sh[k].up == q;
      }
      SameLinks(sh, sh', q);
    }
  }

  lemma MergedOk<V>(sh: Shape<V>, p: Key, i: nat)
    requires ShapeOk(sh) && Mergeable(sh, p, i)
    ensures ShapeOk(Merged(sh, p, i))
  {
    var u, c := sh[p].up, sh[p].kids[0];
    assert CellOk(sh, p) && CellOk(sh, u) && CellOk(sh, c);
    KidReplaced(u, sh[u].kids, i, c);
    hide ShapeOk, CellOk, KidsSorted;
    forall q | q in Merged(sh, p, i)
      ensures CellOk(Merged(sh, p, i), q)
    {
      MergedCell(sh, p, i, q);
    }
  }

  lemma MergedCell<V>(sh: Shape<V>, p: Key, i: nat, q: Key)
    requires ShapeOk(sh) && Mergeable(sh, p, i) && q in Merged(sh, p, i)
    requires KidsSorted(sh[p].up, sh[sh[p].up].kids[i := sh[p].kids[0]])
    requires forall k :: k in sh[sh[p].up].kids[i := sh[p].kids[0]] <==>
                         (k in sh[sh[p].up].kids && k != p) || k == sh[p].kids[0]
    ensures CellOk(Merged(sh, p, i), q)
  {
    var sh' := Merged(sh, p, i);
    var u, c := sh[p].up, sh[p].kids[0];
    assert CellOk(sh, p) && CellOk(sh, q);
    assert sh'[u].kids == sh[u].kids[i := c];
    if q == u {
      assert forall j :: 0 <= j < |sh'[u].kids| ==> sh'[u].kids[j] in sh'[u].kids;
    } else if q == c {
      assert sh[u].kids[i := c][i] == c;
    } else {
      forall k | k in sh[q].kids
        ensures k in sh' && sh'[k].up == q
      {
        assert k in sh && sh[k].up == q;
      }
      SameLinks(sh, sh', q);
    }
  }

  // -------------------------------------------- when the root is merged away

  function Drop(k: Key, n: nat): Key {
    if n <= |k| then k[n..] else []
  }

  function StrippedCell<V>(cell: Cell<V>, c: Key): Cell<V> {
    Cell(cell.leaf, Drop(cell.up, |c|), seq(|cell.kids|, i requires 0 <= i < |cell.kids| => Drop(cell.kids[i], |c|)))
  }

  // Everything below c, with c cut off the front of every path.
  ghost function Stripped<V>(sh: Shape<V>, c: Key): (r: Shape<V>)
    ensures forall q :: q in r <==> c + q in sh
    ensures forall q :: q in r ==> r[q] == StrippedCell(sh[c + q], c)
  {
    assert forall k: Key :: c <= k ==> k == c + k[|c|..];
    assert forall q :: (c + q)[|c|..] == q;
    map k | k in sh && c <= k :: k[|c|..] := StrippedCell(sh[k], c)
  }

  ghost function StrippedMap<V>(m: map<Key, V>, c: Key): (r: map<Key, V>)
    ensures forall q :: q in r <==> c + q in m
    ensures forall q :: q in r ==> r[q] == m[c + q]
  {
    assert forall k: Key :: c <= k ==> k == c + k[|c|..];
    assert forall q :: (c + q)[|c|..] == q;
    map k | k in m && c <= k :: k[|c|..] := m[k]
  }

  // With c the only child of the root, every other node lies below c.
  lemma OnlyChild<V>(sh: Shape<V>, c: Key, k: Key)
    requires ShapeOk(sh) && sh[[]].kids == [c] && k in sh && k != []
    ensures c in sh && c != [] && c <= k
    ensures k != c ==> c <= sh[k].up
  {
    assert CellOk(sh, []) && CellOk(sh, k);
    assert sh[[]].kids[0] == c;
    Below(sh, [], k);
    if k != c && sh[k].up != [] {
      Below(sh, [], sh[k].up);
    }
  }

  lemma StrippedOk<V>(sh: Shape<V>, c: Key)
    requires ShapeOk(sh) && sh[[]].kids == [c]
    ensures ShapeOk(Stripped(sh, c))
  {
    var sh' := Stripped(sh, c);
    assert CellOk(sh, []) && sh[[]].kids[0] == c && c + [] == c;
    forall q | q in sh'
      ensures CellOk(sh', q)
    {
      StrippedCellOk(sh, c, q);
    }
  }

  lemma StrippedKids<V>(sh: Shape<V>, c: Key, q: Key, i: nat)
    requires ShapeOk(sh) && c + q in sh && i < |sh[c + q].kids|
    ensures c + Drop(sh[c + q].kids[i], |c|) == sh[c + q].kids[i]
    ensures q < Drop(sh[c + q].kids[i], |c|)
    ensures Drop(sh[c + q].kids[i], |c|)[|q|] == sh[c + q].kids[i][|c + q|]
  {
    assert CellOk(sh, c + q);
    var kid := sh[c + q].kids[i];
    assert kid[..|c + q|] == c + q;
    assert kid[|c|..][..|q|] == q;
  }

  lemma StrippedCellOk<V>(sh: Shape<V>, c: Key, q: Key)
    requires ShapeOk(sh) && sh[[]].kids == [c] && q in Stripped(sh, c)
    ensures CellOk(Stripped(sh, c), q)
  {
    var sh', k := Stripped(sh, c), c + q;
    assert CellOk(sh, k);
    var kids, kids' := sh[k].kids, sh'[q].kids;
    forall i | 0 <= i < |kids'|
      ensures q < kids'[i] && kids'[i] in sh' && sh'[kids'[i]].up == q && kids'[i][|q|] == kids[i][|k|]
    {
      StrippedKids(sh, c, q, i);
      assert sh[kids[i]].up == k;
    }
    if q != [] {
      OnlyChild(sh, c, k);
      var u := sh[k].up;
      var u' := sh'[q].up;
      assert c + u' == u;
      assert u' < q;
      var j :| 0 <= j < |sh[u].kids| && sh[u].kids[j] == k;
      StrippedKids(sh, c, u', j);
      assert sh'[u'].kids[j] == q;
    }
  }

  // The heads behind a merge of the root.
  lemma HeadsStripped<V>(sh: Shape<V>, c: Key)
    ensures Heads(Stripped(sh, c)) == HeadsBehind(sh, c)
  {
    var sh' := Stripped(sh, c);
    forall x | x in Heads(sh')
      ensures x in HeadsBehind(sh, c)
    {
      var q :| q in sh' && q != [] && q[0] == x;
      assert c < c + q && (c + q)[|c|] == x;
    }
    forall x | x in HeadsBehind(sh, c)
      ensures x in Heads(sh')
    {
      var k :| k in sh && c < k && k[|c|] == x;
      assert k == c + k[|c|..] && k[|c|..] in sh';
    }
  }

  lemma StrippedStores<V>(sh: Shape<V>, m: map<Key, V>, c: Key)
    requires Stores(sh, m)
    ensures Stores(Stripped(sh, c), StrippedMap(m, c))
  {
  }

  lemma {:induction false} LongestKey(s: set<Key>) returns (k: Key)
    requires s != {}
    ensures k in s && forall j :: j in s ==> |j| <= |k|
    decreases s
  {
    var x :| x in s;
    var rest := s - {x};
    k := x;
    assert forall j :: j in s ==> j == x || j in rest;
    if rest != {} {
      var y := LongestKey(rest);
      if |y| > |x| {
        k := y;
      }
    }
  }

  // Cutting off a common front never gives back the same map, unless nothing is left.
  lemma StrippedDiffers<V>(m: map<Key, V>, c: Key)
    requires c != []
    ensures StrippedMap(m, c) == m <==> m == map[]
  {
    if m != map[] {
      var k := LongestKey(m.Keys);
      assert c + k !in m;
    }
  }

  lemma StrippedStep<V>(m: map<Key, V>, c: Key, q: Key)
    requires c + q in m
    ensures StrippedMap(m, c) == StrippedMap(m - {c + q}, c)[q := m[c + q]]
    ensures q !in StrippedMap(m - {c + q}, c)
  {
    var r := StrippedMap(m - {c + q}, c)[q := m[c + q]];
    forall x | x in StrippedMap(m, c)
      ensures x in r && r[x] == m[c + x]
    {
      if x != q {
        assert (c + x)[|c|..] == x && (c + q)[|c|..] == q;
      }
    }
  }

  lemma {:induction false} StrippedSize<V>(m: map<Key, V>, c: Key)
    requires forall k :: k in m ==> c <= k
    ensures |StrippedMap(m, c)| == |m|
    decreases |m|
  {
    if m != map[] {
      var k :| k in m;
      var q, rest := k[|c|..], m - {k};
      assert k == c + q;
      assert |rest| == |m| - 1 by {
        assert rest.Keys == m.Keys - {k};
      }
      assert forall x :: x in rest ==> c <= x;
      StrippedSize(rest, c);
      StrippedStep(m, c, q);
    }
  }

  lemma StrippedKeys<V>(sh: Shape<V>, m: map<Key, V>, c: Key)
    requires ShapeOk(sh) && Stores(sh, m) && sh[[]].kids == [c] && sh[[]].leaf.None?
    ensures c != [] && |StrippedMap(m, c)| == |m|
  {
    assert CellOk(sh, []) && sh[[]].kids[0] == c;
    forall k | k in m
      ensures c <= k
    {
      OnlyChild(sh, c, k);
    }
    StrippedSize(m, c);
  }
}
