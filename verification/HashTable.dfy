/** The 8-bit hash table of the C runtime: a fixed row of root nodes, each heading an
    unbalanced search tree ordered by key length and then by bytes. */
module HashTable {
  import opened Options
  import opened Sequences

  type Byte = b: int | 0 <= b < 256

  const INT_MAX := 0x7fff_ffff

  /** Keys whose length differences fit in an int, as the comparison needs. */
  type Key = k: seq<Byte> | |k| <= INT_MAX

  /** A void pointer: NULL, or the address of something the caller knows. */
  datatype Value = Null | Ptr(address: int)

  /** A function pointer that may be NULL. */
  datatype Callback = NoCallback | Callback(address: int)

  /** The node array is declared with UINT8_MAX entries. */
  const ROWS := 255

  // ---------------------------------------------------------------- hash

  /** One byte as the hash sees it: the signedness of char disappears modulo 256. */
  function Mix(b: Byte, i: nat): bv8 {
    ((b + i) % 256) as bv8
  }

  function Hash(k: seq<Byte>): bv8 {
    if k == [] then 0 else Hash(k[..|k| - 1]) ^ Mix(k[|k| - 1], |k| - 1)
  }

  method ComputeHash(k: seq<Byte>) returns (h: bv8)
    ensures h == Hash(k)
  {
    h := 0;
    for i := 0 to |k|
      invariant h == Hash(k[..i])
    {
      assert k[..i + 1][..i] == k[..i];
      h := h ^ Mix(k[i], i);
    }
    assert k[..|k|] == k;
  }

  /** The row a key belongs to. */
  function Row(k: seq<Byte>): (r: nat)
    ensures r < 256
  {
    Hash(k) as int
  }

  // ---------------------------------------------------------------- key order

  function MemCmp(a: seq<Byte>, b: seq<Byte>): (c: int)
    requires |a| == |b|
    ensures -256 < c < 256
  {
    if a == [] then 0
    else if a[0] != b[0] then a[0] - b[0]
    else MemCmp(a[1..], b[1..])
  }

  /** The comparison of a descent: lengths first, bytes on a tie. */
  function Compare(a: Key, b: Key): (c: int)
    ensures -INT_MAX <= c <= INT_MAX
  {
    if |a| != |b| then |a| - |b| else MemCmp(a, b)
  }

  lemma {:induction false} MemCmpZero(a: seq<Byte>, b: seq<Byte>)
    requires |a| == |b|
    ensures MemCmp(a, b) == 0 <==> a == b
    ensures MemCmp(a, b) == -MemCmp(b, a)
  {
    if a != [] {
      MemCmpZero(a[1..], b[1..]);
      assert a == [a[0]] + a[1..] && b == [b[0]] + b[1..];
    }
  }

  lemma {:induction false} MemCmpTransitive(a: seq<Byte>, b: seq<Byte>, c: seq<Byte>)
    requires |a| == |b| == |c| && MemCmp(a, b) < 0 && MemCmp(b, c) < 0
    ensures MemCmp(a, c) < 0
  {
    if a[0] == b[0] == c[0] {
      MemCmpTransitive(a[1..], b[1..], c[1..]);
    }
  }

  /** Compare is a strict total order on keys. */
  lemma CompareIsTotalOrder(a: Key, b: Key, c: Key)
    ensures Compare(a, b) == 0 <==> a == b
    ensures Compare(a, b) == -Compare(b, a)
    ensures Compare(a, b) < 0 && Compare(b, c) < 0 ==> Compare(a, c) < 0
  {
    if |a| == |b| {
      MemCmpZero(a, b);
      if |b| == |c| && MemCmp(a, b) < 0 && MemCmp(b, c) < 0 {
        MemCmpTransitive(a, b, c);
      }
    }
  }

  /** Shorter keys come first; between keys of one length the first different byte decides. */
  lemma CompareIsLexicographic(a: Key, b: Key, p: seq<Byte>, x: Byte, y: Byte, s: seq<Byte>, t: seq<Byte>)
    ensures |a| < |b| ==> Compare(a, b) < 0
    ensures a == p + [x] + s && b == p + [y] + t && |s| == |t| && x < y ==> Compare(a, b) < 0
  {
    if a == p + [x] + s && b == p + [y] + t && |s| == |t| {
      FirstDifference(p, [x] + s, [y] + t);
      assert a == p + ([x] + s) && b == p + ([y] + t);
    }
  }

  lemma {:induction false} FirstDifference(p: seq<Byte>, a: seq<Byte>, b: seq<Byte>)
    requires |a| == |b|
    ensures MemCmp(p + a, p + b) == MemCmp(a, b)
  {
    if p == [] {
      assert p + a == a && p + b == b;
    } else {
      assert (p + a)[1..] == p[1..] + a && (p + b)[1..] == p[1..] + b;
      FirstDifference(p[1..], a, b);
    }
  }

  // ------------------------------------------------------- search trees

  class Node {
    var key: Key
    var value: Value
    var lt: Node?
    var gt: Node?
    ghost const isRoot: bool

    constructor (key: Key, ghost root: bool)
      ensures this.key == key && value == Null && lt == null && gt == null && isRoot == root
    {
      this.key, value, lt, gt, isRoot := key, Null, null, null, root;
    }
  }

  /** The shape of one bucket, with what its nodes hold. */
  datatype Tree = Leaf | Branch(node: Node, key: Key, value: Value, lt: Tree, gt: Tree)

  ghost function Nodes(t: Tree): set<Node> {
    if t.Leaf? then {} else {t.node} + Nodes(t.lt) + Nodes(t.gt)
  }

  ghost function Keys(t: Tree): set<Key> {
    if t.Leaf? then {} else {t.key} + Keys(t.lt) + Keys(t.gt)
  }

  /** Values in the order the recursive tear-down visits them. */
  ghost function PostOrder(t: Tree): seq<Value> {
    if t.Leaf? then [] else PostOrder(t.lt) + PostOrder(t.gt) + [t.value]
  }

  ghost predicate Ordered(t: Tree) {
    t.Branch? ==>
      && Ordered(t.lt) && Ordered(t.gt)
      && (forall k | k in Keys(t.lt) :: Compare(k, t.key) < 0)
      && (forall k | k in Keys(t.gt) :: Compare(k, t.key) > 0)
  }

  /** What the fields of a node hold, and those of a set of nodes. */
  datatype Cell = Cell(key: Key, value: Value, lt: Node?, gt: Node?)
  type Heap = map<Node, Cell>

  /** The pointers and fields found on the heap spell out t. */
  ghost predicate Linked(h: Heap, n: Node?, t: Tree) {
    match t
    case Leaf => n == null
    case Branch(m, k, v, l, g) =>
      && n == m && m in h && h[m].key == k && h[m].value == v
      && Linked(h, h[m].lt, l) && Linked(h, h[m].gt, g)
  }

  ghost function Find(t: Tree, k: Key): Option<Value> {
    if t.Leaf? then None
    else var c := Compare(k, t.key);
         if c == 0 then Some(t.value) else if c < 0 then Find(t.lt, k) else Find(t.gt, k)
  }

  /** Where a descent for k ends: at a node, or at an empty child slot. */
  datatype Site = Found(node: Node) | Missing(parent: Node?, underLt: bool)

  ghost function SiteOf(t: Tree, k: Key, parent: Node?, underLt: bool): Site {
    if t.Leaf? then Missing(parent, underLt)
    else var c := Compare(k, t.key);
         if c == 0 then Found(t.node)
         else if c < 0 then SiteOf(t.lt, k, t.node, true)
         else SiteOf(t.gt, k, t.node, false)
  }

  /** Hangs a new node with a NULL value into the slot the descent ends at. */
  ghost function Insert(t: Tree, k: Key, n: Node): Tree {
    if t.Leaf? then Branch(n, k, Null, Leaf, Leaf)
    else var c := Compare(k, t.key);
         if c == 0 then t
         else if c < 0 then t.(lt := Insert(t.lt, k, n))
         else t.(gt := Insert(t.gt, k, n))
  }

  /** Overwrites the value at the node the descent ends at. */
  ghost function Assign(t: Tree, k: Key, v: Value): Tree {
    if t.Leaf? then t
    else var c := Compare(k, t.key);
         if c == 0 then t.(value := v)
         else if c < 0 then t.(lt := Assign(t.lt, k, v))
         else t.(gt := Assign(t.gt, k, v))
  }

  /** In an ordered bucket the descent finds exactly the keys of the bucket. */
  lemma {:induction false} FindIffKey(t: Tree, k: Key)
    requires Ordered(t)
    ensures Find(t, k).Some? <==> k in Keys(t)
    ensures Find(t, k).Some? <==> SiteOf(t, k, null, false).Found?
  {
    SiteIndependent(t, k, null, false, null, false);
    if t.Branch? {
      CompareIsTotalOrder(k, t.key, k);
      FindIffKey(t.lt, k);
      FindIffKey(t.gt, k);
      SiteIndependent(t.lt, k, t.node, true, null, false);
      SiteIndependent(t.gt, k, t.node, false, null, false);
    }
  }

  lemma {:induction false} SiteIndependent(t: Tree, k: Key, p: Node?, a: bool, q: Node?, b: bool)
    ensures SiteOf(t, k, p, a).Found? <==> SiteOf(t, k, q, b).Found?
    ensures t.Branch? ==> SiteOf(t, k, p, a) == SiteOf(t, k, q, b)
    ensures t.Branch? && SiteOf(t, k, p, a).Missing? ==> SiteOf(t, k, p, a).parent in Nodes(t)
    ensures SiteOf(t, k, p, a).Found? ==> SiteOf(t, k, p, a).node in Nodes(t)
    ensures SiteOf(t, k, p, a).Found? <==> Find(t, k).Some?
  {
    if t.Branch? {
      SiteIndependent(t.lt, k, t.node, true, t.node, true);
      SiteIndependent(t.gt, k, t.node, false, t.node, false);
    }
  }

  lemma {:induction false} FindInsert(t: Tree, k: Key, n: Node, j: Key)
    requires Find(t, k).None?
    ensures Find(Insert(t, k, n), j) == if j == k then Some(Null) else Find(t, j)
  {
    CompareIsTotalOrder(j, k, j);
    if t.Branch? {
      CompareIsTotalOrder(k, t.key, j);
      FindInsert(if Compare(k, t.key) < 0 then t.lt else t.gt, k, n, j);
    }
  }

  lemma {:induction false} FindAssign(t: Tree, k: Key, v: Value, j: Key)
    requires Find(t, k).Some?
    ensures Find(Assign(t, k, v), j) == if j == k then Some(v) else Find(t, j)
  {
    CompareIsTotalOrder(k, t.key, j);
    CompareIsTotalOrder(j, t.key, k);
    if Compare(k, t.key) != 0 {
      FindAssign(if Compare(k, t.key) < 0 then t.lt else t.gt, k, v, j);
    }
  }

  lemma {:induction false} InsertKeepsOrder(t: Tree, k: Key, n: Node)
    requires Find(t, k).None? && Ordered(t)
    ensures Ordered(Insert(t, k, n))
    ensures Keys(Insert(t, k, n)) == Keys(t) + {k}
    ensures Nodes(Insert(t, k, n)) == Nodes(t) + {n}
  {
    if t.Branch? {
      CompareIsTotalOrder(k, t.key, k);
      InsertKeepsOrder(if Compare(k, t.key) < 0 then t.lt else t.gt, k, n);
    }
  }

  lemma {:induction false} AssignKeepsOrder(t: Tree, k: Key, v: Value)
    requires Ordered(t)
    ensures Ordered(Assign(t, k, v))
    ensures Keys(Assign(t, k, v)) == Keys(t) && Nodes(Assign(t, k, v)) == Nodes(t)
  {
    if t.Branch? && Compare(k, t.key) != 0 {
      AssignKeepsOrder(if Compare(k, t.key) < 0 then t.lt else t.gt, k, v);
    }
  }

  ghost function Is(v: Value, x: Value): nat {
    if v == x then 1 else 0
  }

  /** How often a bucket holds x. */
  ghost function Count(t: Tree, x: Value): nat {
    if t.Leaf? then 0 else Count(t.lt, x) + Count(t.gt, x) + Is(t.value, x)
  }

  lemma {:induction false} CountInsert(t: Tree, k: Key, n: Node, x: Value)
    requires Find(t, k).None?
    ensures Count(Insert(t, k, n), x) == Count(t, x) + Is(Null, x)
  {
    if t.Branch? {
      CountInsert(if Compare(k, t.key) < 0 then t.lt else t.gt, k, n, x);
    }
  }

  lemma {:induction false} CountAssign(t: Tree, k: Key, v: Value, x: Value)
    requires Find(t, k).Some?
    ensures Count(Assign(t, k, v), x) + Is(Find(t, k).value, x) == Count(t, x) + Is(v, x)
  {
    if Compare(k, t.key) != 0 {
      CountAssign(if Compare(k, t.key) < 0 then t.lt else t.gt, k, v, x);
    }
  }

  /** The tear-down visits every value as often as the bucket holds it. */
  lemma {:induction false} CountPostOrder(t: Tree, x: Value)
    ensures multiset(PostOrder(t))[x] == Count(t, x)
  {
    if t.Branch? {
      CountPostOrder(t.lt, x);
      CountPostOrder(t.gt, x);
    }
  }

  // ------------------------------------------------- buckets on the heap

  /** A linked node carries one of the tree's keys; so, by NoSharing, an ordered bucket
      shares no node between subtrees and its pointers form no cycle. */
  lemma {:induction false} NodeHasKey(h: Heap, n: Node?, t: Tree, m: Node)
    requires Linked(h, n, t) && m in Nodes(t)
    ensures m in h && h[m].key in Keys(t)
  {
    if m != t.node {
      if m in Nodes(t.lt) {
        NodeHasKey(h, h[t.node].lt, t.lt, m);
      } else {
        NodeHasKey(h, h[t.node].gt, t.gt, m);
      }
    }
  }

  /** No node occurs twice in t. */
  ghost predicate Disjoint(t: Tree) {
    t.Branch? ==>
      && t.node !in Nodes(t.lt) && t.node !in Nodes(t.gt) && Nodes(t.lt) !! Nodes(t.gt)
      && Disjoint(t.lt) && Disjoint(t.gt)
  }

  lemma {:induction false} NoSharing(h: Heap, n: Node?, t: Tree)
    requires Linked(h, n, t) && Ordered(t)
    ensures Disjoint(t)
  {
    if t.Branch? {
      CompareIsTotalOrder(t.key, t.key, t.key);
      forall m | m in Nodes(t.lt) ensures m in h && Compare(h[m].key, t.key) < 0 {
        NodeHasKey(h, h[n].lt, t.lt, m);
      }
      forall m | m in Nodes(t.gt) ensures m in h && Compare(h[m].key, t.key) > 0 {
        NodeHasKey(h, h[n].gt, t.gt, m);
      }
      NoSharing(h, h[n].lt, t.lt);
      NoSharing(h, h[n].gt, t.gt);
    }
  }

  lemma {:induction false} StillLinked(h: Heap, h': Heap, n: Node?, t: Tree)
    requires Linked(h, n, t)
    requires forall x | x in Nodes(t) && x in h :: x in h' && h'[x] == h[x]
    ensures Linked(h', n, t)
  {
    if t.Branch? {
      StillLinked(h, h', h[n].lt, t.lt);
      StillLinked(h, h', h[n].gt, t.gt);
    }
  }

  /** The heap after storing m through the parent pointer of an empty slot. */
  ghost function Hang(h: Heap, parent: Node, underLt: bool, m: Node, k: Key): Heap
    requires parent in h
  {
    h[m := Cell(k, Null, null, null)]
     [parent := if underLt then h[parent].(lt := m) else h[parent].(gt := m)]
  }

  /** Storing a new node through the parent pointer inserts it into the bucket. */
  lemma {:induction false} LinkInsert(h: Heap, n: Node?, t: Tree, k: Key, parent: Node, underLt: bool, m: Node)
    requires t.Branch? && Linked(h, n, t) && Disjoint(t)
    requires SiteOf(t, k, null, false) == Missing(parent, underLt)
    requires parent in h && m !in h
    ensures Linked(Hang(h, parent, underLt, m, k), n, Insert(t, k, m))
  {
    var c := Compare(k, t.key);
    var h' := Hang(h, parent, underLt, m, k);
    var (sub, other) := if c < 0 then (t.lt, t.gt) else (t.gt, t.lt);
    var (next, beside) := if c < 0 then (h[n].lt, h[n].gt) else (h[n].gt, h[n].lt);
    SiteIndependent(sub, k, t.node, c < 0, null, false);
    NodesOnHeap(h, beside, other);
    StillLinked(h, h', beside, other);
    if sub.Branch? {
      LinkInsert(h, next, sub, k, parent, underLt, m);
    }
  }

  lemma {:induction false} NodesOnHeap(h: Heap, n: Node?, t: Tree)
    requires Linked(h, n, t)
    ensures Nodes(t) <= h.Keys
  {
    if t.Branch? {
      NodesOnHeap(h, h[n].lt, t.lt);
      NodesOnHeap(h, h[n].gt, t.gt);
    }
  }

  /** Storing a value in the node found assigns it in the bucket. */
  lemma {:induction false} LinkAssign(h: Heap, n: Node?, t: Tree, k: Key, v: Value, m: Node)
    requires Linked(h, n, t) && Disjoint(t)
    requires SiteOf(t, k, null, false) == Found(m) && m in h
    ensures Linked(h[m := h[m].(value := v)], n, Assign(t, k, v))
  {
    var c := Compare(k, t.key);
    var h' := h[m := h[m].(value := v)];
    SiteIndependent(t.lt, k, t.node, true, null, false);
    SiteIndependent(t.gt, k, t.node, false, null, false);
    if c < 0 {
      LinkAssign(h, h[n].lt, t.lt, k, v, m);
      StillLinked(h, h', h[n].gt, t.gt);
    } else if c > 0 {
      LinkAssign(h, h[n].gt, t.gt, k, v, m);
      StillLinked(h, h', h[n].lt, t.lt);
    } else {
      StillLinked(h, h', h[n].lt, t.lt);
      StillLinked(h, h', h[n].gt, t.gt);
    }
  }

  // ---------------------------------------------------- the row of buckets

  /** Row i: an empty root, or a linked, ordered tree of keys that hash to i. Only row 0
      can hold a value without a key, left there by an add of the empty key. */
  ghost predicate BucketOk(h: Heap, i: int, root: Node, t: Tree) {
    && root in h
    && if h[root].key == [] then
         t.Leaf? && h[root].lt == null && h[root].gt == null && (i != 0 ==> h[root].value == Null)
       else
         && t.Branch? && Linked(h, root, t) && Ordered(t)
         && (forall k | k in Keys(t) :: Row(k) == i)
         && (forall m | m in Nodes(t) && m != root :: !m.isRoot)
  }

  ghost predicate TableOk(h: Heap, roots: seq<Node>, trees: seq<Tree>) {
    |roots| == |trees| == ROWS && BucketsOk(h, roots, trees, |roots|) && forall i | 0 <= i < |roots| :: roots[i] in h
  }

  /** The first n rows are sound, and their roots are different structures. */
  ghost predicate BucketsOk(h: Heap, roots: seq<Node>, trees: seq<Tree>, n: nat)
    requires n <= |roots| == |trees|
  {
    n == 0 ||
    (BucketsOk(h, roots, trees, n - 1) && BucketOk(h, n - 1, roots[n - 1], trees[n - 1])
     && roots[n - 1].isRoot && roots[n - 1] !in roots[..n - 1])
  }

  lemma {:induction false} BucketAt(h: Heap, roots: seq<Node>, trees: seq<Tree>, n: nat, i: nat)
    requires i < n <= |roots| == |trees| && BucketsOk(h, roots, trees, n)
    ensures BucketOk(h, i, roots[i], trees[i]) && roots[i].isRoot && roots[i] !in roots[..i]
  {
    if i < n - 1 {
      BucketAt(h, roots, trees, n - 1, i);
    }
  }

  lemma {:induction false} BucketsFromEach(h: Heap, roots: seq<Node>, trees: seq<Tree>, n: nat)
    requires n <= |roots| == |trees|
    requires forall i | 0 <= i < n :: BucketOk(h, i, roots[i], trees[i])
    requires forall i | 0 <= i < n :: roots[i].isRoot && roots[i] !in roots[..i]
    ensures BucketsOk(h, roots, trees, n)
  {
    if n != 0 {
      BucketsFromEach(h, roots, trees, n - 1);
    }
  }

  /** What a sound table says of row i. */
  lemma Bucket(h: Heap, roots: seq<Node>, trees: seq<Tree>, i: int)
    requires TableOk(h, roots, trees) && 0 <= i < ROWS
    ensures BucketOk(h, i, roots[i], trees[i]) && roots[i].isRoot && roots[i] !in roots[..i]
  {
    BucketAt(h, roots, trees, |roots|, i);
  }

  /** No node belongs to two buckets. */
  lemma BucketsDisjoint(h: Heap, roots: seq<Node>, trees: seq<Tree>, i: int, j: int)
    requires TableOk(h, roots, trees) && 0 <= i < ROWS && 0 <= j < ROWS && i != j
    ensures Nodes(trees[i]) !! Nodes(trees[j])
    ensures roots[i] != roots[j] && roots[j] !in Nodes(trees[i])
  {
    Bucket(h, roots, trees, i);
    Bucket(h, roots, trees, j);
    assert roots[i] != roots[j] by {
      if i < j { assert roots[i] == roots[..j][i]; } else { assert roots[j] == roots[..i][j]; }
    }
    forall m | m in Nodes(trees[i]) ensures m in h && Row(h[m].key) == i && (m.isRoot ==> m == roots[i]) {
      NodeHasKey(h, roots[i], trees[i], m);
    }
    forall m | m in Nodes(trees[j]) ensures m in h && Row(h[m].key) == j {
      NodeHasKey(h, roots[j], trees[j], m);
    }
  }

  /** A heap change confined to one bucket, or to new nodes, leaves the others alone. */
  lemma OtherBuckets(h: Heap, h': Heap, roots: seq<Node>, trees: seq<Tree>, i: int, t: Tree)
    requires TableOk(h, roots, trees) && 0 <= i < ROWS
    requires forall m | m in h && m !in Nodes(trees[i]) && m != roots[i] :: m in h' && h'[m] == h[m]
    requires BucketOk(h', i, roots[i], t)
    ensures TableOk(h', roots, trees[i := t])
  {
    forall j | 0 <= j < ROWS && j != i ensures BucketOk(h', j, roots[j], trees[j]) {
      BucketsDisjoint(h, roots, trees, i, j);
      BucketsDisjoint(h, roots, trees, j, i);
      Bucket(h, roots, trees, j);
      if trees[j].Branch? {
        StillLinked(h, h', roots[j], trees[j]);
      }
    }
    forall j | 0 <= j < ROWS ensures roots[j].isRoot && roots[j] !in roots[..j] {
      Bucket(h, roots, trees, j);
    }
    BucketsFromEach(h', roots, trees[i := t], |roots|);
  }

  ghost function LookUp(trees: seq<Tree>, k: Key): Option<Value> {
    if Row(k) < |trees| then Find(trees[Row(k)], k) else None
  }

  ghost predicate Represents(trees: seq<Tree>, model: map<Key, Value>) {
    forall k: Key :: Agrees(trees, model, k)
  }

  ghost predicate Agrees(trees: seq<Tree>, model: map<Key, Value>, k: Key) {
    LookUp(trees, k) == if k in model then Some(model[k]) else None
  }

  ghost function CountAll(trees: seq<Tree>, x: Value): nat {
    if trees == [] then 0 else CountAll(trees[..|trees| - 1], x) + Count(trees[|trees| - 1], x)
  }

  lemma {:induction false} CountAllUpdate(trees: seq<Tree>, i: nat, t: Tree, x: Value)
    requires i < |trees|
    ensures CountAll(trees[i := t], x) + Count(trees[i], x) == CountAll(trees, x) + Count(t, x)
  {
    var n := |trees| - 1;
    if i < n {
      assert trees[i := t][..n] == trees[..n][i := t];
      CountAllUpdate(trees[..n], i, t, x);
    } else {
      assert trees[i := t][..n] == trees[..n];
    }
  }

  // ------------------------------------------------------- what a table means

  /** The table as a client sees it: a map, and the value an empty key left in row 0
      while that row has no key. */
  datatype Abstract = Abstract(model: map<Key, Value>, stash: Value)

  ghost predicate RowEmpty(model: map<Key, Value>, r: int) {
    forall k | k in model :: Row(k) != r
  }

  /** The empty key is indistinguishable from an unused root. */
  ghost predicate Hidden(a: Abstract, k: Key) {
    k == [] && RowEmpty(a.model, 0)
  }

  /** The value an add of k finds in the node it will use. */
  ghost function HeldAt(a: Abstract, k: Key): Value {
    if k in a.model then a.model[k]
    else if Row(k) == 0 && RowEmpty(a.model, 0) then a.stash
    else Null
  }

  /** An add that stores v under k. */
  ghost function Put(a: Abstract, k: Key, v: Value): Abstract {
    if Hidden(a, k) then a.(stash := v)
    else Abstract(a.model[k := v], if Row(k) == 0 && RowEmpty(a.model, 0) then Null else a.stash)
  }

  /** An add takes effect: there is a node for k, or memory for one. */
  ghost predicate Placed(a: Abstract, k: Key, allocates: bool) {
    k in a.model || allocates
  }

  /** The table once the node for k is there and before its value is replaced. */
  ghost function Touch(a: Abstract, k: Key): Abstract {
    if Hidden(a, k) then a else Put(a, k, HeldAt(a, k))
  }

  /** What is stored for a value: the copy the callback made in this very call, when the
      table copies. */
  function Copied(copyF: Callback, value: Value, copied: Value): Value {
    if copyF.Callback? then copied else value
  }

  class Table {
    /** The root structures are embedded in the table: they stay where they are. */
    const rows: seq<Node>
    const copyValue: Callback
    const freeValue: Callback
    ghost var nodes: set<Node>
    ghost var trees: seq<Tree>
    ghost var model: map<Key, Value>
    /** Values put into nodes, and values passed to the free callback, in order. */
    ghost var stored: seq<Value>
    ghost var released: seq<Value>

    ghost function Cells(): (h: Heap)
      reads this`nodes, nodes
      ensures h.Keys == nodes
    {
      map m | m in nodes :: Cell(m.key, m.value, m.lt, m.gt)
    }

    ghost predicate Valid()
      reads this`nodes, this`trees, this`model, nodes
    {
      && TableOk(Cells(), rows, trees)
      && Represents(trees, model)
    }

    ghost function Stash(): Value
      requires Valid()
      reads this`nodes, this`trees, this`model, nodes
    {
      if rows[0].key == [] then rows[0].value else Null
    }

    ghost function Abs(): Abstract
      requires Valid()
      reads this`nodes, this`trees, this`model, nodes
    {
      Abstract(model, Stash())
    }

    /** How often the table owns x. */
    ghost function Live(x: Value): nat
      requires Valid()
      reads this`nodes, this`trees, this`model, nodes
    {
      CountAll(trees, x) + Is(Stash(), x)
    }

    /** Every value stored and not released is owned, as often as it was stored. */
    ghost predicate Balanced()
      requires Valid()
      reads this, nodes
    {
      freeValue.Callback? ==> forall x | x != Null :: multiset(stored)[x] == multiset(released)[x] + Live(x)
    }

    /** A zeroed table; the callbacks are fixed here. */
    constructor (copyF: Callback, freeF: Callback)
      ensures Valid() && Balanced() && fresh(nodes)
      ensures Abs() == Abstract(map[], Null) && stored == [] && released == []
      ensures copyValue == copyF && freeValue == freeF
    {
      copyValue, freeValue := copyF, freeF;
      var roots: seq<Node> := [];
      for i := 0 to ROWS
        invariant |roots| == i
        invariant forall j | 0 <= j < i ::
                    fresh(roots[j]) && roots[j].isRoot && roots[j].key == [] && roots[j].value == Null
                    && roots[j].lt == null && roots[j].gt == null
        invariant forall j, k | 0 <= j < k < i :: roots[j] != roots[k]
      {
        var n := new Node([], true);
        roots := roots + [n];
      }
      rows, nodes := roots, set n | n in roots;
      trees := seq(ROWS, _ => Leaf);
      model, stored, released := map[], [], [];
      new;
      EmptyTable(Cells(), rows);
    }

    /** The descent of nvipfix_hashtable8_get_or_add from a non-empty root.  The pair
        (parent, wentLt) is its pointer to a child pointer. */
    method Descend(key: Key) returns (node: Node?, parent: Node?, wentLt: bool)
      requires Valid() && Row(key) < ROWS && rows[Row(key)].key != []
      ensures SiteOf(trees[Row(key)], key, null, false) == if node != null then Found(node) else Missing(parent, wentLt)
      ensures node != null ==> node in nodes
      ensures node == null ==> parent != null && parent in nodes
    {
      ghost var tree := trees[Row(key)];
      ghost var t := tree;
      Bucket(Cells(), rows, trees, Row(key));
      node, parent, wentLt := rows[Row(key)], null, false;
      NodesOnHeap(Cells(), node, tree);
      while node != null
        invariant Linked(Cells(), node, t) && Nodes(t) <= nodes
        invariant SiteOf(tree, key, null, false) == SiteOf(t, key, parent, wentLt)
        invariant parent == null ==> t == tree
        invariant parent != null ==> parent in nodes
        decreases t
      {
        assert node in nodes;
        var cmp := Compare(key, node.key);
        if cmp == 0 {
          break;
        }
        parent := node;
        if cmp < 0 {
          wentLt := true;
          node := node.lt;
          t := t.lt;
        } else {
          wentLt := false;
          node := node.gt;
          t := t.gt;
        }
      }
    }

    /** A store through the pointer to a child pointer. */
    static method StoreThrough(parent: Node, wentLt: bool, node: Node)
      modifies parent`lt, parent`gt
      ensures parent.lt == if wentLt then node else old(parent.lt)
      ensures parent.gt == if wentLt then old(parent.gt) else node
    {
      if wentLt {
        parent.lt := node;
      } else {
        parent.gt := node;
      }
    }

    /** Allocates a node and stores it through the parent pointer. */
    method LinkNew(key: Key, parent: Node, wentLt: bool) returns (node: Node)
      requires parent in nodes
      modifies this`nodes, parent
      ensures fresh(node) && !node.isRoot && node.value == Null && nodes == old(nodes) + {node}
      ensures Cells() == Hang(old(Cells()), parent, wentLt, node, key)
      ensures forall m | m in old(nodes) :: m.key == old(m.key) && m.value == old(m.value)
    {
      node := new Node(key, false);
      StoreThrough(parent, wentLt, node);
      nodes := nodes + {node};
    }

    /** A new node takes the slot its key belongs in. */
    method HangNode(key: Key, parent: Node, wentLt: bool) returns (node: Node)
      requires Valid() && Row(key) < ROWS && rows[Row(key)].key != [] && parent in nodes
      requires SiteOf(trees[Row(key)], key, null, false) == Missing(parent, wentLt)
      modifies this`nodes, this`trees, this`model, parent
      ensures Valid() && fresh(node) && nodes == old(nodes) + {node} && node.value == Null
      ensures rows[Row(key)].key != [] && model == old(model)[key := Null] && Stash() == old(Stash())
      ensures SiteOf(trees[Row(key)], key, null, false) == Found(node)
      ensures forall x | x != Null :: Live(x) == old(Live(x))
    {
      ghost var h := Cells();
      node := LinkNew(key, parent, wentLt);
      InsertNode(h, rows, trees, model, key, parent, wentLt, node);
      trees := trees[Row(key) := Insert(trees[Row(key)], key, node)];
      model := model[key := Null];
    }

    /** An unused root takes a key; for the empty key nothing changes. */
    method FillEmptyRoot(key: Key, root: Node)
      requires Valid() && Row(key) < ROWS && root == rows[Row(key)] && root.key == []
      modifies this`trees, this`model, root`key
      ensures Valid()
      ensures Abs() == Touch(old(Abs()), key) && root.key == key && root.value == HeldAt(old(Abs()), key)
      ensures key != [] ==> SiteOf(trees[Row(key)], key, null, false) == Found(root)
      ensures forall x | x != Null :: Live(x) == old(Live(x))
    {
      ghost var h := Cells();
      RowEmptyIffRootEmpty(h, rows, trees, model, Row(key));
      Bucket(h, rows, trees, Row(key));
      root.key := key;
      if key != [] {
        FillRoot(h, rows, trees, model, key);
        trees := trees[Row(key) := Branch(root, key, root.value, Leaf, Leaf)];
        model := model[key := root.value];
        assert Cells() == h[root := h[root].(key := key)];
      } else {
        assert Cells() == h;
      }
    }

    /** The first half of nvipfix_hashtable8_get_or_add: the node of a key already present,
        or the slot a new node belongs in.  No parent means an unused root. */
    method Search(key: Key) returns (node: Node?, parent: Node?, wentLt: bool)
      requires Valid() && Row(key) < ROWS
      ensures node == null <==> key !in model
      ensures node != null ==> node in nodes && node.value == model[key] && SiteOf(trees[Row(key)], key, null, false) == Found(node)
      ensures parent == null && node == null <==> rows[Row(key)].key == []
      ensures parent != null && node == null ==> parent in nodes && SiteOf(trees[Row(key)], key, null, false) == Missing(parent, wentLt)
    {
      var keyHash := ComputeHash(key);
      var root := rows[keyHash as int];
      Bucket(Cells(), rows, trees, Row(key));
      assert Agrees(trees, model, key);
      node, parent, wentLt := null, null, false;
      if root.key != [] {
        node, parent, wentLt := Descend(key);
        SiteIndependent(trees[Row(key)], key, null, false, null, false);
        if node != null {
          FoundValue(Cells(), root, trees[Row(key)], key, null, false);
        }
      }
    }

    /** nvipfix_hashtable8_get_or_add.  `allocates` says whether memory for a key that is not
        there yet can be had. */
    method GetOrAdd(key: Key, shouldAdd: bool, allocates: bool) returns (node: Node?)
      requires Valid() && Row(key) < ROWS
      modifies if shouldAdd then {this as object} + nodes else {}
      ensures Valid() && fresh(nodes - old(nodes)) && old(nodes) <= nodes
      ensures stored == old(stored) && released == old(released)
      ensures node == null <==> key !in old(model) && !(shouldAdd && allocates)
      ensures node != null ==> node in nodes && node.value == HeldAt(old(Abs()), key)
      ensures Abs() == if node != null then Touch(old(Abs()), key) else old(Abs())
      ensures node != null ==> if Hidden(old(Abs()), key) then node == rows[0] && node.key == [] else
                SiteOf(trees[Row(key)], key, null, false) == Found(node) && rows[Row(key)].key != []
      ensures forall x | x != Null :: Live(x) == old(Live(x))
    {
      var parent, wentLt;
      node, parent, wentLt := Search(key);
      RowEmptyIffRootEmpty(Cells(), rows, trees, model, Row(key));
      TouchPresent(Abs(), key);
      if node == null && shouldAdd && allocates {
        if parent == null {
          node := rows[Row(key)];
          FillEmptyRoot(key, node);
        } else {
          node := HangNode(key, parent, wentLt);
        }
      }
    }

    /** Stores a value in the node of a key. */
    method SetValue(key: Key, node: Node, v: Value)
      requires Valid() && Row(key) < ROWS && node in nodes
      requires if Hidden(Abs(), key) then node == rows[0] && node.key == [] else
                 SiteOf(trees[Row(key)], key, null, false) == Found(node) && rows[Row(key)].key != []
      modifies this`trees, this`model, node`value
      ensures Valid() && node.value == v
      ensures Abs() == Put(old(Abs()), key, v)
      ensures forall x :: Live(x) + Is(old(node.value), x) == old(Live(x)) + Is(v, x)
    {
      ghost var h := Cells();
      RowEmptyIffRootEmpty(h, rows, trees, model, 0);
      node.value := v;
      assert Cells() == h[node := h[node].(value := v)];
      if Hidden(old(Abs()), key) {
        Bucket(h, rows, trees, 0);
        OtherBuckets(h, Cells(), rows, trees, 0, trees[0]);
        assert trees[0 := trees[0]] == trees;
      } else {
        AssignNode(h, rows, trees, model, key, v, node);
        trees := trees[Row(key) := Assign(trees[Row(key)], key, v)];
        model := model[key := v];
      }
    }

    /** The value in the node of a key makes room for a new one.  `copied` is what the copy
        callback returns if it is called. */
    method Replace(key: Key, node: Node, value: Value, copied: Value)
      requires Valid() && Row(key) < ROWS && node in nodes
      requires if Hidden(Abs(), key) then node == rows[0] && node.key == [] else
                 SiteOf(trees[Row(key)], key, null, false) == Found(node) && rows[Row(key)].key != []
      modifies this`trees, this`model, this`stored, this`released, node`value
      ensures Valid() && node.value == Copied(copyValue, value, copied)
      ensures Abs() == Put(old(Abs()), key, Copied(copyValue, value, copied))
      ensures stored == old(stored) + [Copied(copyValue, value, copied)]
      ensures released == old(released) + Dropped(freeValue, old(node.value))
      ensures forall x :: Live(x) + Is(old(node.value), x) == old(Live(x)) + Is(Copied(copyValue, value, copied), x)
    {
      if node.value != Null && freeValue != NoCallback {
        released := released + [node.value];
      }
      var v := Copied(copyValue, value, copied);
      SetValue(key, node, v);
      stored := stored + [v];
    }

    /** nvipfix_hashtable8_add on an existing table.  Without memory for a new key nothing
        changes; a key already present needs none. */
    method Add(key: Key, value: Value, copied: Value, allocates: bool) returns (ok: bool)
      requires Valid() && Row(key) < ROWS
      modifies this, nodes
      ensures Valid() && fresh(nodes - old(nodes))
      ensures var v := Copied(copyValue, value, copied); var placed := Placed(old(Abs()), key, allocates);
        && (ok <==> placed && (value == Null || v != Null))
        && Abs() == (if placed then Put(old(Abs()), key, v) else old(Abs()))
        && stored == old(stored) + (if placed then [v] else [])
        && released == old(released) + (if placed then Dropped(freeValue, HeldAt(old(Abs()), key)) else [])
        && forall x | x != Null ::
             if placed then Live(x) + Is(HeldAt(old(Abs()), key), x) == old(Live(x)) + Is(v, x) else Live(x) == old(Live(x))
    {
      PutTouch(Abs(), key, Copied(copyValue, value, copied));
      var node := GetOrAdd(key, true, allocates);
      if node != null {
        Replace(key, node, value, copied);
      }
      ok := !(node == null || (value != Null && node.value == Null));
    }

    /** Seen with its ledger, an add keeps the balance of stored and released values. */
    method AddBalanced(key: Key, value: Value, copied: Value, allocates: bool) returns (ok: bool)
      requires Valid() && Row(key) < ROWS
      modifies this, nodes
      ensures Valid() && fresh(nodes - old(nodes))
      ensures old(Balanced()) ==> Balanced()
      ensures var v := Copied(copyValue, value, copied); var placed := Placed(old(Abs()), key, allocates);
        && (ok <==> placed && (value == Null || v != Null))
        && Abs() == (if placed then Put(old(Abs()), key, v) else old(Abs()))
        && stored == old(stored) + (if placed then [v] else [])
        && released == old(released) + (if placed then Dropped(freeValue, HeldAt(old(Abs()), key)) else [])
    {
      ghost var was, v := HeldAt(Abs(), key), Copied(copyValue, value, copied);
      ghost var placed := Placed(Abs(), key, allocates);
      ok := Add(key, value, copied, allocates);
      if freeValue.Callback? && placed && old(Balanced()) {
        forall x | x != Null ensures multiset(stored)[x] == multiset(released)[x] + Live(x) {
          CountAppend(old(stored), v, x);
          CountDropped(old(released), freeValue, was, x);
        }
      }
    }

    /** nvipfix_hashtable8_get: changes nothing. */
    method Get(key: Key) returns (value: Value)
      requires Valid() && Row(key) < ROWS
      ensures value == if key in model then model[key] else Null
    {
      value := Null;
      var node := GetOrAdd(key, false, false);
      if node != null {
        value := node.value;
      }
    }

    /** nvipfix_hashtable8_free_node. */
    method FreeNode(node: Node?, ghost t: Tree)
      requires Linked(Cells(), node, t)
      modifies this`released
      ensures released == old(released) + if freeValue.Callback? then PostOrder(t) else []
      decreases t
    {
      if node != null {
        ghost var h := Cells();
        NodesOnHeap(h, node, t);
        assert node in h && node.lt == h[node].lt && node.gt == h[node].gt && node.value == t.value;
        FreeNode(node.lt, t.lt);
        FreeNode(node.gt, t.gt);
        if freeValue != NoCallback {
          PostOrderChain(old(released), t);
          released := released + [node.value];
        }
      }
    }

    /** Row i of the tear-down: skipped when its root has no key. */
    method FreeRow(i: nat)
      requires Valid() && i < ROWS
      modifies this`released
      ensures released == old(released) + if freeValue.Callback? then PostOrder(trees[i]) else []
    {
      Bucket(Cells(), rows, trees, i);
      if rows[i].key != [] {
        FreeNode(rows[i], trees[i]);
      }
    }

    /** nvipfix_hashtable8_free: tears down every row in turn. */
    method Free()
      requires Valid()
      modifies this`released
      ensures released == old(released) + if freeValue.Callback? then AllPostOrder(trees) else []
      ensures freeValue.Callback? ==> forall x :: multiset(released)[x] == old(multiset(released)[x]) + CountAll(trees, x)
    {
      assert trees[..0] == [];
      for i := 0 to ROWS
        invariant Valid()
        invariant released == old(released) + if freeValue.Callback? then AllPostOrder(trees[..i]) else []
      {
        AllPostOrderChain(old(released), trees, i);
        FreeRow(i);
      }
      assert trees[..ROWS] == trees;
      forall x ensures multiset(AllPostOrder(trees))[x] == CountAll(trees, x) {
        CountAllPostOrder(trees, x);
      }
    }
  }

  /** The values of a row of buckets in the order of the tear-down. */
  ghost function AllPostOrder(trees: seq<Tree>): seq<Value> {
    if trees == [] then [] else AllPostOrder(trees[..|trees| - 1]) + PostOrder(trees[|trees| - 1])
  }

  lemma AllPostOrderChain(before: seq<Value>, trees: seq<Tree>, i: nat)
    requires i < |trees|
    ensures before + AllPostOrder(trees[..i]) + PostOrder(trees[i]) == before + AllPostOrder(trees[..i + 1])
  {
    assert trees[..i + 1][..i] == trees[..i];
    Reassociate(before, AllPostOrder(trees[..i]), PostOrder(trees[i]));
  }

  /** The tear-down visits every value as often as the buckets hold it. */
  lemma {:induction false} CountAllPostOrder(trees: seq<Tree>, x: Value)
    ensures multiset(AllPostOrder(trees))[x] == CountAll(trees, x)
  {
    if trees != [] {
      CountAllPostOrder(trees[..|trees| - 1], x);
      CountPostOrder(trees[|trees| - 1], x);
    }
  }

  lemma PostOrderChain(before: seq<Value>, t: Tree)
    requires t.Branch?
    ensures before + PostOrder(t.lt) + PostOrder(t.gt) + [t.value] == before + PostOrder(t)
  {
    var (l, g) := (PostOrder(t.lt), PostOrder(t.gt));
    Reassociate(before, l, g);
    Reassociate(before, l + g, [t.value]);
  }

  ghost function Dropped(freeF: Callback, was: Value): seq<Value> {
    if freeF.Callback? && was != Null then [was] else []
  }

  lemma CountAppend(s: seq<Value>, v: Value, x: Value)
    ensures multiset(s + [v])[x] == multiset(s)[x] + Is(v, x)
  {
  }

  lemma CountDropped(s: seq<Value>, freeF: Callback, was: Value, x: Value)
    requires x != Null && freeF.Callback?
    ensures multiset(s + Dropped(freeF, was))[x] == multiset(s)[x] + Is(was, x)
  {
  }

  /** Touching a key first changes nothing of what an add of it does. */
  lemma PutTouch(a: Abstract, k: Key, v: Value)
    ensures Put(Touch(a, k), k, v) == Put(a, k, v)
    ensures Hidden(Touch(a, k), k) == Hidden(a, k)
  {
    if !Hidden(a, k) {
      assert k in Touch(a, k).model;
    }
  }

  lemma TouchPresent(a: Abstract, k: Key)
    ensures k in a.model ==> Touch(a, k) == a && HeldAt(a, k) == a.model[k] && !Hidden(a, k)
  {
    if k in a.model {
      assert a.model[k := a.model[k]] == a.model;
    }
  }

  /** A row of unused roots stands for the empty map. */
  lemma EmptyTable(h: Heap, roots: seq<Node>)
    requires |roots| == ROWS && forall i | 0 <= i < ROWS :: roots[i] in h && roots[i].isRoot && roots[i] !in roots[..i]
    requires forall i | 0 <= i < ROWS :: h[roots[i]] == Cell([], Null, null, null)
    ensures var trees := seq(ROWS, _ => Leaf);
      && TableOk(h, roots, trees) && Represents(trees, map[]) && forall x :: CountAll(trees, x) == 0
  {
    var trees := seq(ROWS, _ => Leaf);
    BucketsFromEach(h, roots, trees, |roots|);
    forall x ensures CountAll(trees, x) == 0 {
      CountAllLeaves(ROWS, x);
    }
  }

  lemma {:induction false} CountAllLeaves(n: nat, x: Value)
    ensures CountAll(seq(n, _ => Leaf), x) == 0
  {
    if n != 0 {
      assert seq(n, _ => Leaf)[..n - 1] == seq(n - 1, _ => Leaf);
      CountAllLeaves(n - 1, x);
    }
  }

  /** A root without a key heads the rows no key of the map belongs to. */
  lemma RowEmptyIffRootEmpty(h: Heap, roots: seq<Node>, trees: seq<Tree>, model: map<Key, Value>, i: int)
    requires TableOk(h, roots, trees) && Represents(trees, model) && 0 <= i < ROWS
    ensures h[roots[i]].key == [] <==> RowEmpty(model, i)
  {
    Bucket(h, roots, trees, i);
    if trees[i].Branch? {
      var k := trees[i].key;
      CompareIsTotalOrder(k, k, k);
      assert k in Keys(trees[i]) && Agrees(trees, model, k);
    } else {
      forall k | k in model ensures Row(k) != i {
        assert Agrees(trees, model, k);
      }
    }
  }

  /** The node a descent stops at holds the value of the key. */
  lemma {:induction false} FoundValue(h: Heap, n: Node?, t: Tree, k: Key, p: Node?, lt: bool)
    requires Linked(h, n, t) && SiteOf(t, k, p, lt).Found?
    ensures SiteOf(t, k, p, lt).node in h
    ensures Find(t, k) == Some(h[SiteOf(t, k, p, lt).node].value)
  {
    var c := Compare(k, t.key);
    if c < 0 {
      FoundValue(h, h[n].lt, t.lt, k, t.node, true);
    } else if c > 0 {
      FoundValue(h, h[n].gt, t.gt, k, t.node, false);
    }
  }

  /** A node hung where the descent ended keeps the row of buckets sound. */
  lemma InsertSound(h: Heap, roots: seq<Node>, trees: seq<Tree>, key: Key, parent: Node, lt: bool, m: Node)
    requires TableOk(h, roots, trees) && Row(key) < ROWS && h[roots[Row(key)]].key != []
    requires SiteOf(trees[Row(key)], key, null, false) == Missing(parent, lt)
    requires parent in h && m !in h && !m.isRoot
    ensures TableOk(Hang(h, parent, lt, m, key), roots, trees[Row(key) := Insert(trees[Row(key)], key, m)])
  {
    var i := Row(key);
    var tree, root := trees[i], roots[i];
    Bucket(h, roots, trees, i);
    SiteIndependent(tree, key, null, false, null, false);
    NoSharing(h, root, tree);
    LinkInsert(h, root, tree, key, parent, lt, m);
    InsertKeepsOrder(tree, key, m);
    OtherBuckets(h, Hang(h, parent, lt, m, key), roots, trees, i, Insert(tree, key, m));
  }

  lemma InsertRepresents(trees: seq<Tree>, model: map<Key, Value>, key: Key, m: Node)
    requires Represents(trees, model) && Row(key) < |trees| && Find(trees[Row(key)], key).None?
    ensures Represents(trees[Row(key) := Insert(trees[Row(key)], key, m)], model[key := Null])
  {
    var i := Row(key);
    var trees', model' := trees[i := Insert(trees[i], key, m)], model[key := Null];
    forall k: Key ensures Agrees(trees', model', k) {
      FindInsert(trees[i], key, m, k);
      assert Agrees(trees, model, k);
    }
  }

  lemma InsertCounts(trees: seq<Tree>, key: Key, m: Node, x: Value)
    requires Row(key) < |trees| && Find(trees[Row(key)], key).None? && x != Null
    ensures CountAll(trees[Row(key) := Insert(trees[Row(key)], key, m)], x) == CountAll(trees, x)
  {
    CountInsert(trees[Row(key)], key, m, x);
    CountAllUpdate(trees, Row(key), Insert(trees[Row(key)], key, m), x);
  }

  /** A new node with a NULL value, hung where the descent ended. */
  lemma InsertNode(h: Heap, roots: seq<Node>, trees: seq<Tree>, model: map<Key, Value>, key: Key, parent: Node, lt: bool, m: Node)
    requires TableOk(h, roots, trees) && Represents(trees, model) && Row(key) < ROWS && h[roots[Row(key)]].key != []
    requires SiteOf(trees[Row(key)], key, null, false) == Missing(parent, lt)
    requires parent in h && m !in h && !m.isRoot
    ensures var t := Insert(trees[Row(key)], key, m); var trees' := trees[Row(key) := t];
      && TableOk(Hang(h, parent, lt, m, key), roots, trees')
      && Represents(trees', model[key := Null])
      && SiteOf(t, key, null, false) == Found(m)
      && forall x | x != Null :: CountAll(trees', x) == CountAll(trees, x)
  {
    SiteIndependent(trees[Row(key)], key, null, false, null, false);
    InsertSound(h, roots, trees, key, parent, lt, m);
    InsertRepresents(trees, model, key, m);
    SiteAfterInsert(trees[Row(key)], key, m, null, false);
    forall x | x != Null ensures CountAll(trees[Row(key) := Insert(trees[Row(key)], key, m)], x) == CountAll(trees, x) {
      InsertCounts(trees, key, m, x);
    }
  }

  lemma {:induction false} SiteAfterInsert(t: Tree, k: Key, m: Node, p: Node?, lt: bool)
    requires Find(t, k).None?
    ensures SiteOf(Insert(t, k, m), k, p, lt) == Found(m)
  {
    CompareIsTotalOrder(k, k, k);
    if t.Branch? {
      var c := Compare(k, t.key);
      SiteAfterInsert(if c < 0 then t.lt else t.gt, k, m, t.node, c < 0);
    }
  }

  /** An unused root takes its first key, together with any value left in it. */
  lemma FillRoot(h: Heap, roots: seq<Node>, trees: seq<Tree>, model: map<Key, Value>, key: Key)
    requires TableOk(h, roots, trees) && Represents(trees, model) && Row(key) < ROWS
    requires key != [] && h[roots[Row(key)]].key == []
    ensures var root := roots[Row(key)]; var v := h[root].value; var trees' := trees[Row(key) := Branch(root, key, v, Leaf, Leaf)];
      && TableOk(h[root := h[root].(key := key)], roots, trees')
      && Represents(trees', model[key := v])
      && SiteOf(trees'[Row(key)], key, null, false) == Found(root)
      && forall x :: CountAll(trees', x) == CountAll(trees, x) + Is(v, x)
  {
    var i := Row(key);
    var root := roots[i];
    var v := h[root].value;
    var t, h' := Branch(root, key, v, Leaf, Leaf), h[root := h[root].(key := key)];
    var trees', model' := trees[i := t], model[key := v];
    Bucket(h, roots, trees, i);
    CompareIsTotalOrder(key, key, key);
    OtherBuckets(h, h', roots, trees, i, t);
    forall k: Key ensures Agrees(trees', model', k) {
      CompareIsTotalOrder(k, key, k);
      assert Agrees(trees, model, k);
    }
    forall x ensures CountAll(trees', x) == CountAll(trees, x) + Is(v, x) {
      CountAllUpdate(trees, i, t, x);
    }
  }

  /** Overwriting a value keeps the row of buckets sound. */
  lemma AssignSound(h: Heap, roots: seq<Node>, trees: seq<Tree>, key: Key, v: Value, m: Node)
    requires TableOk(h, roots, trees) && Row(key) < ROWS && h[roots[Row(key)]].key != []
    requires SiteOf(trees[Row(key)], key, null, false) == Found(m) && m in h
    ensures TableOk(h[m := h[m].(value := v)], roots, trees[Row(key) := Assign(trees[Row(key)], key, v)])
  {
    var i := Row(key);
    var tree, root := trees[i], roots[i];
    var t, h' := Assign(tree, key, v), h[m := h[m].(value := v)];
    Bucket(h, roots, trees, i);
    SiteIndependent(tree, key, null, false, null, false);
    NoSharing(h, root, tree);
    LinkAssign(h, root, tree, key, v, m);
    AssignKeepsOrder(tree, key, v);
    OtherBuckets(h, h', roots, trees, i, t);
  }

  /** The node found holds the value of its key, and is no other row's root. */
  lemma FoundNode(h: Heap, roots: seq<Node>, trees: seq<Tree>, model: map<Key, Value>, key: Key, m: Node)
    requires TableOk(h, roots, trees) && Represents(trees, model) && Row(key) < ROWS && h[roots[Row(key)]].key != []
    requires SiteOf(trees[Row(key)], key, null, false) == Found(m)
    ensures m in h && key in model && model[key] == h[m].value
    ensures Find(trees[Row(key)], key) == Some(h[m].value)
    ensures Row(key) != 0 ==> m != roots[0]
  {
    var i := Row(key);
    Bucket(h, roots, trees, i);
    SiteIndependent(trees[i], key, null, false, null, false);
    FoundValue(h, roots[i], trees[i], key, null, false);
    assert Agrees(trees, model, key);
    if i != 0 {
      BucketsDisjoint(h, roots, trees, i, 0);
    }
  }

  lemma AssignRepresents(trees: seq<Tree>, model: map<Key, Value>, key: Key, v: Value)
    requires Represents(trees, model) && Row(key) < |trees| && Find(trees[Row(key)], key).Some?
    ensures Represents(trees[Row(key) := Assign(trees[Row(key)], key, v)], model[key := v])
  {
    var i := Row(key);
    var trees', model' := trees[i := Assign(trees[i], key, v)], model[key := v];
    forall k: Key ensures Agrees(trees', model', k) {
      FindAssign(trees[i], key, v, k);
      assert Agrees(trees, model, k);
    }
  }

  lemma AssignCounts(trees: seq<Tree>, key: Key, v: Value, x: Value)
    requires Row(key) < |trees| && Find(trees[Row(key)], key).Some?
    ensures var t := Assign(trees[Row(key)], key, v);
      CountAll(trees[Row(key) := t], x) + Is(Find(trees[Row(key)], key).value, x) == CountAll(trees, x) + Is(v, x)
  {
    CountAssign(trees[Row(key)], key, v, x);
    CountAllUpdate(trees, Row(key), Assign(trees[Row(key)], key, v), x);
  }

  /** Overwriting the value of the node found. */
  lemma AssignNode(h: Heap, roots: seq<Node>, trees: seq<Tree>, model: map<Key, Value>, key: Key, v: Value, m: Node)
    requires TableOk(h, roots, trees) && Represents(trees, model) && Row(key) < ROWS && h[roots[Row(key)]].key != []
    requires SiteOf(trees[Row(key)], key, null, false) == Found(m) && m in h
    ensures var trees' := trees[Row(key) := Assign(trees[Row(key)], key, v)];
      && TableOk(h[m := h[m].(value := v)], roots, trees')
      && Represents(trees', model[key := v])
      && key in model && model[key] == h[m].value
      && (Row(key) != 0 ==> m != roots[0])
      && forall x :: CountAll(trees', x) + Is(h[m].value, x) == CountAll(trees, x) + Is(v, x)
  {
    FoundNode(h, roots, trees, model, key, m);
    AssignSound(h, roots, trees, key, v, m);
    AssignRepresents(trees, model, key, v);
    forall x ensures CountAll(trees[Row(key) := Assign(trees[Row(key)], key, v)], x) + Is(h[m].value, x) == CountAll(trees, x) + Is(v, x) {
      AssignCounts(trees, key, v, x);
    }
  }

  // ---------------------------------------------------------------- the entry point

  /** One call of nvipfix_hashtable8_add and what its surroundings do: what the copy callback
      in force returns, and whether memory for a table and for a key can be had. */
  datatype Op = Op(key: Key, value: Value, copyF: Callback, freeF: Callback,
                   copied: Value, allocatesTable: bool, allocates: bool)

  /** What a caller has: no table yet, or one with its callbacks and contents. */
  datatype Handle = NoTable | Held(copyF: Callback, freeF: Callback, contents: Abstract)

  ghost function ContentsOf(h: Handle): Abstract {
    if h.NoTable? then Abstract(map[], Null) else h.contents
  }

  ghost function HandleOf(t: Table?): Handle
    requires t != null ==> t.Valid()
    reads t, if t == null then {} else t.nodes
  {
    if t == null then NoTable else Held(t.copyValue, t.freeValue, t.Abs())
  }

  /** What is stored: the copy callback in force is the one the table was made with. */
  ghost function StoredBy(h: Handle, op: Op): Value {
    Copied(if h.NoTable? then op.copyF else h.copyF, op.value, op.copied)
  }

  /** The call can make a table that lasts. */
  ghost predicate Founds(op: Op) {
    op.allocatesTable && op.allocates && (op.value == Null || Copied(op.copyF, op.value, op.copied) != Null)
  }

  ghost predicate TakesEffect(h: Handle, op: Op) {
    if h.NoTable? then Founds(op) else Placed(h.contents, op.key, op.allocates)
  }

  ghost function AfterAdd(h: Handle, op: Op): Handle {
    if !TakesEffect(h, op) then h
    else if h.NoTable? then Held(op.copyF, op.freeF, Put(ContentsOf(h), op.key, StoredBy(h, op)))
    else h.(contents := Put(h.contents, op.key, StoredBy(h, op)))
  }

  ghost function Entry(h: Handle, op: Op): seq<Value> {
    if TakesEffect(h, op) then [StoredBy(h, op)] else []
  }

  /** The overwritten value goes to the free callback in force. */
  ghost function Exit(h: Handle, op: Op): seq<Value> {
    if h.Held? && TakesEffect(h, op) then Dropped(h.freeF, HeldAt(h.contents, op.key)) else []
  }

  /** nvipfix_hashtable8_add: a NULL table makes a new one with the callbacks given; the
      callbacks given for an existing table are ignored.  A new table is dropped again when
      its first key finds no memory or its first value cannot be copied. */
  method HashtableAdd(table: Table?, op: Op) returns (result: Table?)
    requires table != null ==> table.Valid()
    requires Row(op.key) < ROWS
    modifies if table == null then {} else {table as object} + table.nodes
    ensures table != null ==>
      && table.Valid() && fresh(table.nodes - old(table.nodes))
      && (old(table.Balanced()) ==> table.Balanced())
      && HandleOf(table) == AfterAdd(old(HandleOf(table)), op)
      && table.stored == old(table.stored) + Entry(old(HandleOf(table)), op)
      && table.released == old(table.released) + Exit(old(HandleOf(table)), op)
    ensures table != null ==>
      result == if TakesEffect(old(HandleOf(table)), op) && (op.value == Null || StoredBy(old(HandleOf(table)), op) != Null)
                then table else null
    ensures table == null && result != null ==>
      && fresh(result) && fresh(result.nodes) && result.Valid() && result.Balanced()
      && result.stored == Entry(NoTable, op) && result.released == []
    ensures table == null ==> HandleOf(result) == AfterAdd(NoTable, op)
  {
    if table == null {
      result := MakeTable(op);
    } else {
      var ok := table.AddBalanced(op.key, op.value, op.copied, op.allocates);
      result := if ok then table else null;
    }
  }

  /** The case of no table yet. */
  method MakeTable(op: Op) returns (result: Table?)
    requires Row(op.key) < ROWS
    ensures result != null ==>
      && fresh(result) && fresh(result.nodes) && result.Valid() && result.Balanced()
      && result.stored == Entry(NoTable, op) && result.released == []
    ensures HandleOf(result) == AfterAdd(NoTable, op)
  {
    if !op.allocatesTable {
      return null;
    }
    var t := new Table(op.copyF, op.freeF);
    var ok := t.AddBalanced(op.key, op.value, op.copied, op.allocates);
    result := if ok then t else null;
  }

  /** nvipfix_hashtable8_get: a NULL table has no keys. */
  method HashtableGet(table: Table?, key: Key) returns (value: Value)
    requires table != null ==> table.Valid()
    requires Row(key) < ROWS
    ensures var m := ContentsOf(HandleOf(table)).model; value == if key in m then m[key] else Null
  {
    value := Null;
    if table != null {
      value := table.Get(key);
    }
  }

  // ---------------------------------------------------------------- whole runs

  /** What a caller has after a run of calls starting from NULL. */
  ghost function Run(ops: seq<Op>): Handle {
    if ops == [] then NoTable else AfterAdd(Run(ops[..|ops| - 1]), ops[|ops| - 1])
  }

  /** The values that entered the table in a run of calls. */
  ghost function Entered(ops: seq<Op>): seq<Value> {
    if ops == [] then []
    else Entered(ops[..|ops| - 1]) + Entry(Run(ops[..|ops| - 1]), ops[|ops| - 1])
  }

  lemma RunOneMore(ops: seq<Op>, i: nat)
    requires i < |ops|
    ensures Run(ops[..i + 1]) == AfterAdd(Run(ops[..i]), ops[i])
    ensures Entered(ops[..i + 1]) == Entered(ops[..i]) + Entry(Run(ops[..i]), ops[i])
  {
    assert ops[..i + 1][..i] == ops[..i];
  }

  /** A sound table nobody else holds, with a ledger that balances. */
  ghost predicate Sound(t: Table?)
    reads t, if t == null then {} else t.nodes
  {
    t != null ==> t.Valid() && t.Balanced() && (t.freeValue == NoCallback ==> t.released == [])
  }

  /** A table, or none, in step with a run of calls. */
  ghost predicate Follows(t: Table?, ops: seq<Op>)
    reads t, if t == null then {} else t.nodes
  {
    Sound(t) && HandleOf(t) == Run(ops) && (t != null ==> t.stored == Entered(ops))
  }

  /** Call i of a run; the caller keeps its table when a call on it fails. */
  method AddNext(t: Table?, ops: seq<Op>, i: nat) returns (t': Table?)
    requires i < |ops| && Row(ops[i].key) < ROWS && Follows(t, ops[..i])
    modifies if t == null then {} else {t as object} + t.nodes
    ensures Follows(t', ops[..i + 1])
    ensures t != null ==> t' == t && fresh(t.nodes - old(t.nodes))
    ensures t == null && t' != null ==> fresh(t') && fresh(t'.nodes)
  {
    RunOneMore(ops, i);
    if t == null {
      NothingEntered(ops[..i]);
    }
    var result := HashtableAdd(t, ops[i]);
    t' := if t == null then result else t;
  }

  /** Calls before there is a table leave no value behind. */
  lemma {:induction false} NothingEntered(ops: seq<Op>)
    requires Run(ops).NoTable?
    ensures Entered(ops) == []
  {
    if ops != [] {
      NothingEntered(ops[..|ops| - 1]);
    }
  }

  /** A run of calls from NULL refines Run, and never loses or doubles an owned value. */
  method AddAll(ops: seq<Op>) returns (t: Table?)
    requires forall op | op in ops :: Row(op.key) < ROWS
    ensures Follows(t, ops)
    ensures t != null ==> fresh(t) && fresh(t.nodes)
  {
    t := null;
    for i := 0 to |ops|
      invariant Follows(t, ops[..i])
      invariant t != null ==> fresh(t) && fresh(t.nodes)
    {
      assert ops[i] in ops;
      t := AddNext(t, ops, i);
    }
    assert ops[..|ops|] == ops;
  }

  /** Conservation: over a run of calls from NULL ended by the tear-down, every value that
      entered a table with a free callback is released exactly as often as it entered, except
      a value the empty key left in a row without a key.  Without one nothing is released. */
  method AddAllThenFree(ops: seq<Op>) returns (t: Table?)
    requires forall op | op in ops :: Row(op.key) < ROWS
    ensures t == null <==> Run(ops).NoTable?
    ensures t != null ==> t.copyValue == Run(ops).copyF && t.freeValue == Run(ops).freeF && t.stored == Entered(ops)
    ensures t != null && t.freeValue.Callback? ==>
              forall x | x != Null :: multiset(t.stored)[x] == multiset(t.released)[x] + Is(Run(ops).contents.stash, x)
    ensures t != null && t.freeValue == NoCallback ==> t.released == []
    ensures t != null && t.freeValue.Callback? && t.copyValue.Callback? && FreshCopies(ops) && Run(ops).contents.stash == Null ==>
              forall x | x != Null && x in t.stored :: multiset(t.released)[x] == 1
  {
    t := AddAll(ops);
    if t != null {
      t.Free();
      CopiesEnterOnce(ops);
    }
  }

  /** The copy callback never returns the same address twice. */
  ghost predicate FreshCopies(ops: seq<Op>) {
    forall i, j | 0 <= i < j < |ops| && ops[i].copied != Null :: ops[i].copied != ops[j].copied
  }

  lemma {:induction false} EnteredAreCopies(ops: seq<Op>, x: Value)
    requires Run(ops).Held? && Run(ops).copyF.Callback? && x in Entered(ops)
    ensures exists i | 0 <= i < |ops| :: ops[i].copied == x
  {
    var (before, op) := (ops[..|ops| - 1], ops[|ops| - 1]);
    if x in Entered(before) {
      if Run(before).NoTable? {
        NothingEntered(before);
      } else {
        EnteredAreCopies(before, x);
        var i :| 0 <= i < |before| && before[i].copied == x;
        assert ops[i].copied == x;
      }
    } else {
      assert op.copied == x;
    }
  }

  /** Under a copying table each copy made enters once. */
  lemma {:induction false} CopiesEnterOnce(ops: seq<Op>)
    ensures Run(ops).Held? && Run(ops).copyF.Callback? && FreshCopies(ops) ==>
              forall x | x != Null :: multiset(Entered(ops))[x] <= 1
  {
    if ops != [] && Run(ops).Held? && Run(ops).copyF.Callback? && FreshCopies(ops) {
      var (before, op) := (ops[..|ops| - 1], ops[|ops| - 1]);
      if Run(before).NoTable? {
        NothingEntered(before);
      } else {
        CopiesEnterOnce(before);
        assert FreshCopies(before);
        if op.copied != Null && op.copied in Entered(before) {
          EnteredAreCopies(before, op.copied);
          assert false;
        }
      }
    }
  }

  /** Once a call has made a table and memory never runs out, every value enters, as the
      first call's copy callback makes it, in the order of the calls. */
  lemma {:induction false} EnteredIsAll(ops: seq<Op>)
    requires ops != [] && Founds(ops[0]) && forall i | 0 <= i < |ops| :: ops[i].allocates
    ensures |Entered(ops)| == |ops| && Run(ops).Held? && Run(ops).copyF == ops[0].copyF
    ensures forall i | 0 <= i < |ops| :: Entered(ops)[i] == if ops[0].copyF == NoCallback then ops[i].value else ops[i].copied
  {
    var (before, op) := (ops[..|ops| - 1], ops[|ops| - 1]);
    if before != [] {
      EnteredIsAll(before);
    }
    EntersLast(ops);
  }

  lemma EntersLast(ops: seq<Op>)
    requires ops != [] && ops[|ops| - 1].allocates
    requires var before := ops[..|ops| - 1];
      if before == [] then Founds(ops[0]) else Run(before).Held? && Run(before).copyF == ops[0].copyF
    ensures var (before, op) := (ops[..|ops| - 1], ops[|ops| - 1]);
      && Run(ops).Held? && Run(ops).copyF == ops[0].copyF
      && Entered(ops) == Entered(before) + [Copied(ops[0].copyF, op.value, op.copied)]
  {
  }

  /** The first call that can make a lasting table. */
  ghost function Founder(ops: seq<Op>): Option<Op> {
    if ops == [] then None
    else
      var before := Founder(ops[..|ops| - 1]);
      if before.Some? then before else if Founds(ops[|ops| - 1]) then Some(ops[|ops| - 1]) else None
  }

  /** After the given calls, a call finds the memory for a new key. */
  ghost predicate Grows(before: seq<Op>, op: Op) {
    if Founder(before).Some? then op.allocates else Founds(op)
  }

  /** Some non-empty key has opened row 0. */
  ghost predicate Opened(ops: seq<Op>) {
    ops != [] &&
    var (before, op) := (ops[..|ops| - 1], ops[|ops| - 1]);
    Opened(before) || (op.key != [] && Row(op.key) == 0 && Grows(before, op))
  }

  /** The last call for k that took effect: without memory only a key already there can be
      added, and the empty key is visible only while row 0 is open. */
  ghost function LastAdded(ops: seq<Op>, k: Key): Option<Op> {
    if ops == [] then None
    else
      var (before, op) := (ops[..|ops| - 1], ops[|ops| - 1]);
      if op.key == k && (k != [] || Opened(before)) && (Grows(before, op) || LastAdded(before, k).Some?) then Some(op)
      else LastAdded(before, k)
  }

  /** After any run of calls there is a table exactly when some call could make one, its
      callbacks are those of the first such call, and a lookup yields what the last call for
      the key stored, and nothing for a key without one.  The empty key obeys this exactly
      from the moment a non-empty key has opened row 0. */
  lemma {:induction false} RunIsLastAdded(ops: seq<Op>, k: Key)
    ensures Run(ops).NoTable? <==> Founder(ops).None?
    ensures Run(ops).Held? ==> Run(ops).copyF == Founder(ops).value.copyF && Run(ops).freeF == Founder(ops).value.freeF
    ensures var m := ContentsOf(Run(ops)).model;
      && (k in m <==> LastAdded(ops, k).Some?)
      && (k in m ==> var last := LastAdded(ops, k).value; m[k] == if Founder(ops).value.copyF == NoCallback then last.value else last.copied)
    ensures RowEmpty(ContentsOf(Run(ops)).model, 0) <==> !Opened(ops)
    ensures Opened(ops) ==> ContentsOf(Run(ops)).stash == Null
  {
    if ops != [] {
      var (before, op) := (ops[..|ops| - 1], ops[|ops| - 1]);
      RunIsLastAdded(before, k);
      RunIsLastAdded(before, op.key);
      if TakesEffect(Run(before), op) {
        PutAdds(ContentsOf(Run(before)), op.key, StoredBy(Run(before), op), k);
      }
    }
  }

  /** A lookup after any run of calls yields what the last call for the key stored. */
  method AddAllThenGet(ops: seq<Op>, k: Key) returns (value: Value)
    requires (forall op | op in ops :: Row(op.key) < ROWS) && Row(k) < ROWS
    ensures LastAdded(ops, k).None? ==> value == Null
    ensures LastAdded(ops, k).Some? ==>
              var last := LastAdded(ops, k).value;
              Founder(ops).Some? && value == if Founder(ops).value.copyF == NoCallback then last.value else last.copied
  {
    var t := AddAll(ops);
    value := HashtableGet(t, k);
    RunIsLastAdded(ops, k);
  }

  /** What a put does to the answer for k, and to row 0. */
  lemma PutAdds(a: Abstract, key: Key, v: Value, k: Key)
    ensures var b := Put(a, key, v);
      && (k in b.model <==> k in a.model || (k == key && !Hidden(a, key)))
      && (k in b.model ==> b.model[k] == if k == key then v else a.model[k])
      && (RowEmpty(b.model, 0) <==> RowEmpty(a.model, 0) && (Row(key) != 0 || key == []))
      && (!RowEmpty(b.model, 0) ==> b.stash == if RowEmpty(a.model, 0) then Null else a.stash)
  {
    if !Hidden(a, key) {
      var m := a.model[key := v];
      assert key in m && forall j | j in a.model :: j in m;
    }
  }

  /** Nothing is kept back when no empty key was added, or once row 0 was opened. */
  lemma {:induction false} StashOnlyFromEmptyKey(ops: seq<Op>)
    requires Opened(ops) || forall op | op in ops :: op.key != []
    ensures ContentsOf(Run(ops)).stash == Null
  {
    RunIsLastAdded(ops, []);
    if !Opened(ops) && ops != [] {
      var (before, op) := (ops[..|ops| - 1], ops[|ops| - 1]);
      assert op in ops && forall o | o in before :: o in ops;
      StashOnlyFromEmptyKey(before);
    }
  }

  /** Each row of a sound table holds exactly the keys of the map that hash to it. */
  lemma RowHoldsItsKeys(h: Heap, roots: seq<Node>, trees: seq<Tree>, model: map<Key, Value>, i: int)
    requires TableOk(h, roots, trees) && Represents(trees, model) && 0 <= i < ROWS
    ensures Keys(trees[i]) == set k | k in model && Row(k) == i
    ensures Ordered(trees[i]) && Disjoint(trees[i])
  {
    Bucket(h, roots, trees, i);
    if trees[i].Branch? {
      NoSharing(h, roots[i], trees[i]);
    }
    forall k: Key ensures k in Keys(trees[i]) <==> k in model && Row(k) == i {
      FindIffKey(trees[i], k);
      assert Agrees(trees, model, k);
    }
  }

  /** A one-byte key lands in the row of its byte. */
  lemma RowOfOneByte(b: Byte)
    ensures Row([b]) == b
  {
    assert [b][..0] == [];
    assert Hash([b]) == 0 ^ Mix(b, 0);
    XorZero(Mix(b, 0));
    ByteBits(b);
  }

  /** Each byte is mixed in after its position is added to it. */
  lemma HashIsIndexed(k: seq<Byte>, b: Byte)
    ensures Hash(k + [b]) ^ Hash(k) == ((b + |k|) % 256) as bv8
  {
    assert (k + [b])[..|k|] == k;
    XorTwice(Hash(k), ((b + |k|) % 256) as bv8);
  }

  lemma XorTwice(h: bv8, x: bv8)
    ensures (h ^ x) ^ h == x
  {
  }

  /** The hashes of "ab" and "ba" differ. */
  lemma HashesOfTwoBytes()
    ensures Hash([97, 98]) == 2 && Hash([98, 97]) == 0
  {
    TwoBytes(97, 98);
    TwoBytes(98, 97);
  }

  lemma TwoBytes(a: Byte, b: Byte)
    ensures Hash([a, b]) == (a as bv8) ^ (((b + 1) % 256) as bv8)
  {
    OneByte(a);
    assert [a, b][..1] == [a];
  }

  lemma OneByte(b: Byte)
    ensures Hash([b]) == b as bv8
  {
    assert [b][..0] == [];
    assert Hash([b]) == 0 ^ Mix(b, 0);
    XorZero(Mix(b, 0));
  }

  lemma XorZero(h: bv8)
    ensures 0 ^ h == h
  {
  }

  lemma ByteBits(b: Byte)
    ensures Mix(b, 0) as int == b
  {
    assert (b + 0) % 256 == b;
  }

  /** The hash has 256 values and the table 255 rows: not every key has a row. */
  lemma SomeKeyHasNoRow()
    ensures exists k: Key :: Row(k) == ROWS
  {
    RowOfOneByte(255);
    var k: Key := [255];
    assert Row(k) == ROWS;
  }
}
