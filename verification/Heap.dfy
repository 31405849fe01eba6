/** The cache-replacement heap (squid-2.7.STABLE9/lib/heap.c): its order and its
    contents, on the sequence of entries in array order. */
module HeapOrder {

  datatype Entry<D> = Entry(key: real, data: D)

  function Left(i: nat): nat { 2 * i + 1 }
  function Right(i: nat): nat { 2 * i + 2 }

  /** The source's (int)(i - 1) / 2, which is 0 at the root. */
  function Parent(i: nat): nat { if i == 0 then 0 else (i - 1) / 2 }

  /** Slot j is not below its parent. */
  predicate InOrder<D>(s: seq<Entry<D>>, j: int)
    requires 0 <= j < |s|
  {
    s[Parent(j)].key <= s[j].key
  }

  ghost predicate Ordered<D>(s: seq<Entry<D>>) {
    forall j | 0 <= j < |s| :: InOrder(s, j)
  }

  /** Ordered but for slot i, whose parent is still below its children. */
  ghost predicate OrderedBut<D>(s: seq<Entry<D>>, i: nat) {
    && (forall j | 0 <= j < |s| && j != i && Parent(j) != i :: InOrder(s, j))
    && (0 < i < |s| ==> forall j | i < j < |s| && Parent(j) == i :: s[Parent(i)].key <= s[j].key)
  }

  function Swap<T>(s: seq<T>, i: nat, j: nat): (t: seq<T>)
    requires i < |s| && j < |s|
    ensures |t| == |s|
  {
    s[i := s[j]][j := s[i]]
  }

  function SiftUp<D>(s: seq<Entry<D>>, i: nat): (r: (seq<Entry<D>>, nat))
    requires i < |s|
    ensures |r.0| == |s| && r.1 < |s|
    decreases i
  {
    if i == 0 || s[Parent(i)].key <= s[i].key then (s, i) else SiftUp(Swap(s, Parent(i), i), Parent(i))
  }

  /** The child to compare with: the right one only when strictly smaller. */
  function Kid<D>(s: seq<Entry<D>>, i: nat): (k: nat)
    requires Left(i) < |s|
    ensures i < k < |s| && Parent(k) == i
    ensures forall j | i < j < |s| && Parent(j) == i :: s[k].key <= s[j].key
  {
    assert forall j: nat | i < j && Parent(j) == i :: j == Left(i) || j == Right(i);
    if Right(i) < |s| && s[Right(i)].key < s[Left(i)].key then Right(i) else Left(i)
  }

  function SiftDown<D>(s: seq<Entry<D>>, i: nat): (t: seq<Entry<D>>)
    requires i < |s|
    ensures |t| == |s|
    decreases |s| - i
  {
    if |s| <= Left(i) || s[i].key <= s[Kid(s, i)].key then s
    else SiftDown(Swap(s, Kid(s, i), i), Kid(s, i))
  }

  /** What heap_delete and heap_update do after writing slot i. */
  function Fix<D>(s: seq<Entry<D>>, i: nat): (t: seq<Entry<D>>)
    requires i < |s|
    ensures |t| == |s|
  {
    if s[i].key < s[Parent(i)].key then SiftDown(SiftUp(s, i).0, SiftUp(s, i).1) else SiftDown(s, i)
  }

  function Insert<D>(s: seq<Entry<D>>, e: Entry<D>): seq<Entry<D>> {
    SiftUp(s + [e], |s|).0
  }

  function Delete<D>(s: seq<Entry<D>>, i: nat): (t: seq<Entry<D>>)
    requires i < |s|
    ensures |t| == |s| - 1
  {
    var n := |s| - 1;
    if i == n then s[..n] else Fix(s[..n][i := s[n]], i)
  }

  function Update<D>(s: seq<Entry<D>>, i: nat, e: Entry<D>): seq<Entry<D>>
    requires i < |s|
  {
    Fix(s[i := e], i)
  }

  // ---------- Order ----------

  /** Swapping slot i with its parent moves the disorder to the parent. */
  lemma SwapUp<D>(s: seq<Entry<D>>, i: nat, p: nat)
    requires 0 < i < |s| && OrderedBut(s, i) && p == Parent(i) && s[i].key < s[p].key
    requires forall j | i < j < |s| && Parent(j) == i :: s[i].key <= s[j].key
    ensures OrderedBut(Swap(s, p, i), p)
    ensures forall j | p < j < |s| && Parent(j) == p :: Swap(s, p, i)[p].key <= Swap(s, p, i)[j].key
  {
    var t := Swap(s, p, i);
    forall j | 0 <= j < |t| && j != p && Parent(j) != p ensures InOrder(t, j) {
      if Parent(j) == i {
        assert i < j && t[i] == s[p] && t[j] == s[j];
      } else {
        assert InOrder(s, j) && t[j] == s[j] && t[Parent(j)] == s[Parent(j)];
      }
    }
    if p != 0 { assert InOrder(s, p); }
    forall j | p < j < |t| && Parent(j) == p ensures t[p].key <= t[j].key && (p != 0 ==> t[Parent(p)].key <= t[j].key) {
      if j != i { assert InOrder(s, j) && t[j] == s[j]; }
    }
  }

  lemma {:induction false} SiftUpOrders<D>(s: seq<Entry<D>>, i: nat)
    requires i < |s| && OrderedBut(s, i)
    requires forall j | i < j < |s| && Parent(j) == i :: s[i].key <= s[j].key
    ensures Ordered(SiftUp(s, i).0)
    decreases i
  {
    if i == 0 || s[Parent(i)].key <= s[i].key {
      forall j | 0 <= j < |s| ensures InOrder(s, j) {
        if Parent(j) == i && j != i { assert i < j; }
      }
    } else {
      SwapUp(s, i, Parent(i));
      SiftUpOrders(Swap(s, Parent(i), i), Parent(i));
    }
  }

  /** Swapping slot i with its least child moves the disorder to the child. */
  lemma SwapDown<D>(s: seq<Entry<D>>, i: nat, k: nat)
    requires i < |s| && OrderedBut(s, i) && InOrder(s, i) && Left(i) < |s| && k == Kid(s, i) && s[k].key < s[i].key
    ensures OrderedBut(Swap(s, k, i), k) && InOrder(Swap(s, k, i), k)
  {
    var t := Swap(s, k, i);
    forall j | 0 <= j < |t| && j != k && Parent(j) != k ensures InOrder(t, j) {
      if Parent(j) == i && j != i {
        assert i < j && t[i] == s[k] && t[j] == s[j];
      } else if j != i {
        assert InOrder(s, j) && t[j] == s[j] && t[Parent(j)] == s[Parent(j)];
      }
    }
    forall j | k < j < |t| && Parent(j) == k ensures t[Parent(k)].key <= t[j].key {
      assert InOrder(s, j) && t[j] == s[j] && t[i] == s[k];
    }
  }

  lemma {:induction false} SiftDownOrders<D>(s: seq<Entry<D>>, i: nat)
    requires i < |s| && OrderedBut(s, i) && InOrder(s, i)
    ensures Ordered(SiftDown(s, i))
    decreases |s| - i
  {
    if |s| <= Left(i) || s[i].key <= s[Kid(s, i)].key {
      forall j | 0 <= j < |s| ensures InOrder(s, j) {
        if Parent(j) == i && j != i { assert i < j && Left(i) <= j; }
      }
    } else {
      SwapDown(s, i, Kid(s, i));
      SiftDownOrders(Swap(s, Kid(s, i), i), Kid(s, i));
    }
  }

  lemma SiftDownIdle<D>(s: seq<Entry<D>>, i: nat)
    requires i < |s| && Ordered(s)
    ensures SiftDown(s, i) == s
  {
    if Left(i) < |s| {
      assert InOrder(s, Kid(s, i));
    }
  }

  lemma FixOrders<D>(s: seq<Entry<D>>, i: nat)
    requires i < |s| && OrderedBut(s, i)
    ensures Ordered(Fix(s, i))
  {
    if s[i].key < s[Parent(i)].key {
      SiftUpOrders(s, i);
      SiftDownIdle(SiftUp(s, i).0, SiftUp(s, i).1);
    } else {
      SiftDownOrders(s, i);
    }
  }

  /** Overwriting a slot of an ordered heap disturbs the order there alone. */
  lemma OverwriteOrderedBut<D>(s: seq<Entry<D>>, i: nat, e: Entry<D>)
    requires i < |s| && Ordered(s)
    ensures OrderedBut(s[i := e], i)
  {
    var t := s[i := e];
    forall j | 0 <= j < |t| && j != i && Parent(j) != i ensures InOrder(t, j) {
      assert InOrder(s, j);
    }
    forall j | 0 < i < j < |t| && Parent(j) == i ensures t[Parent(i)].key <= t[j].key {
      assert InOrder(s, i) && InOrder(s, j);
    }
  }

  lemma OverwriteOrders<D>(s: seq<Entry<D>>, i: nat, e: Entry<D>)
    requires i < |s| && Ordered(s)
    ensures Ordered(Fix(s[i := e], i))
  {
    OverwriteOrderedBut(s, i, e);
    FixOrders(s[i := e], i);
  }

  lemma PrefixOrdered<D>(s: seq<Entry<D>>, n: nat)
    requires n <= |s| && Ordered(s)
    ensures Ordered(s[..n])
  {
    forall j | 0 <= j < n ensures InOrder(s[..n], j) {
      assert InOrder(s, j);
    }
  }

  lemma InsertOrders<D>(s: seq<Entry<D>>, e: Entry<D>)
    requires Ordered(s)
    ensures Ordered(Insert(s, e))
  {
    var t := s + [e];
    forall j | 0 <= j < |t| && j != |s| && Parent(j) != |s| ensures InOrder(t, j) {
      assert InOrder(s, j);
    }
    SiftUpOrders(t, |s|);
  }

  lemma DeleteOrders<D>(s: seq<Entry<D>>, i: nat)
    requires i < |s| && Ordered(s)
    ensures Ordered(Delete(s, i))
  {
    var n := |s| - 1;
    PrefixOrdered(s, n);
    if i < n {
      OverwriteOrders(s[..n], i, s[n]);
    }
  }

  // ---------- Contents ----------

  lemma SwapPermutes<T>(s: seq<T>, i: nat, j: nat)
    requires i < |s| && j < |s|
    ensures multiset(Swap(s, i, j)) == multiset(s)
  {
  }

  lemma {:induction false} SiftUpPermutes<D>(s: seq<Entry<D>>, i: nat)
    requires i < |s|
    ensures multiset(SiftUp(s, i).0) == multiset(s)
    decreases i
  {
    if i != 0 && s[Parent(i)].key > s[i].key {
      SwapPermutes(s, Parent(i), i);
      SiftUpPermutes(Swap(s, Parent(i), i), Parent(i));
    }
  }

  lemma {:induction false} SiftDownPermutes<D>(s: seq<Entry<D>>, i: nat)
    requires i < |s|
    ensures multiset(SiftDown(s, i)) == multiset(s)
    decreases |s| - i
  {
    if Left(i) < |s| && s[i].key > s[Kid(s, i)].key {
      SwapPermutes(s, Kid(s, i), i);
      SiftDownPermutes(Swap(s, Kid(s, i), i), Kid(s, i));
    }
  }

  lemma FixPermutes<D>(s: seq<Entry<D>>, i: nat)
    requires i < |s|
    ensures multiset(Fix(s, i)) == multiset(s)
  {
    if s[i].key < s[Parent(i)].key {
      SiftUpPermutes(s, i);
      SiftDownPermutes(SiftUp(s, i).0, SiftUp(s, i).1);
    } else {
      SiftDownPermutes(s, i);
    }
  }

  lemma OverwriteContents<T>(s: seq<T>, i: nat, e: T)
    requires i < |s|
    ensures multiset(s[i := e]) == multiset(s) - multiset{s[i]} + multiset{e}
  {
  }

  lemma DeleteRemoves<D>(s: seq<Entry<D>>, i: nat)
    requires i < |s|
    ensures multiset(Delete(s, i)) == multiset(s) - multiset{s[i]}
  {
    var n := |s| - 1;
    var r := s[..n];
    assert s == r + [s[n]];
    if i < n {
      FixPermutes(r[i := s[n]], i);
      OverwriteContents(r, i, s[n]);
      assert r[i] == s[i];
    }
  }

  // ---------- The operations ----------

  /** Insertion keeps the order and adds exactly the new entry. */
  lemma InsertCorrect<D>(s: seq<Entry<D>>, e: Entry<D>)
    requires Ordered(s)
    ensures Ordered(Insert(s, e)) && multiset(Insert(s, e)) == multiset(s) + multiset{e}
  {
    InsertOrders(s, e);
    SiftUpPermutes(s + [e], |s|);
  }

  /** Deleting any slot keeps the order and removes exactly its entry. */
  lemma DeleteCorrect<D>(s: seq<Entry<D>>, i: nat)
    requires i < |s| && Ordered(s)
    ensures Ordered(Delete(s, i)) && multiset(Delete(s, i)) == multiset(s) - multiset{s[i]}
  {
    DeleteOrders(s, i);
    DeleteRemoves(s, i);
  }

  lemma UpdateCorrect<D>(s: seq<Entry<D>>, i: nat, e: Entry<D>)
    requires i < |s| && Ordered(s)
    ensures Ordered(Update(s, i, e))
    ensures multiset(Update(s, i, e)) == multiset(s) - multiset{s[i]} + multiset{e}
  {
    OverwriteOrders(s, i, e);
    FixPermutes(s[i := e], i);
    OverwriteContents(s, i, e);
  }

  /** heap_update promises the semantics of a delete followed by an insert. */
  lemma UpdateIsDeleteInsert<D>(s: seq<Entry<D>>, i: nat, e: Entry<D>)
    requires i < |s| && Ordered(s)
    ensures multiset(Update(s, i, e)) == multiset(Insert(Delete(s, i), e))
  {
    UpdateCorrect(s, i, e);
    DeleteCorrect(s, i);
    InsertCorrect(Delete(s, i), e);
  }

  /** No entry has a key below the root's. */
  lemma {:induction false} RootIsLeast<D>(s: seq<Entry<D>>, j: nat)
    requires Ordered(s) && j < |s|
    ensures s[0].key <= s[j].key
  {
    if j != 0 {
      assert InOrder(s, j);
      RootIsLeast(s, Parent(j));
    }
  }

  // ---------- Whole runs ----------

  /** A slot stands for the node that is there when its turn comes. */
  datatype Op<D> = DoInsert(e: Entry<D>) | DoDelete(i: nat) | DoUpdate(i: nat, e: Entry<D>) | DoExtractLast

  function Step<D>(s: seq<Entry<D>>, op: Op<D>): seq<Entry<D>> {
    match op
    case DoInsert(e) => Insert(s, e)
    case DoDelete(i) => if i < |s| then Delete(s, i) else s
    case DoUpdate(i, e) => if i < |s| then Update(s, i, e) else s
    case DoExtractLast => if s == [] then s else s[..|s| - 1]
  }

  function Run<D>(s: seq<Entry<D>>, ops: seq<Op<D>>): seq<Entry<D>>
    decreases |ops|
  {
    if ops == [] then s else Run(Step(s, ops[0]), ops[1..])
  }

  lemma StepOrders<D>(s: seq<Entry<D>>, op: Op<D>)
    requires Ordered(s)
    ensures Ordered(Step(s, op))
  {
    match op {
      case DoInsert(e) => InsertOrders(s, e);
      case DoDelete(i) => if i < |s| { DeleteOrders(s, i); }
      case DoUpdate(i, e) => if i < |s| { OverwriteOrders(s, i, e); }
      case DoExtractLast => if s != [] { PrefixOrdered(s, |s| - 1); }
    }
  }

  lemma KeepsOrder<D>(s: seq<Entry<D>>, op: Op<D>)
    ensures Ordered(s) ==> Ordered(Step(s, op))
  {
    if Ordered(s) { StepOrders(s, op); }
  }

  lemma LeastFirst<D>(s: seq<Entry<D>>)
    ensures s != [] && Ordered(s) ==> forall e | e in s :: s[0].key <= e.key
  {
    if Ordered(s) {
      forall j | 0 <= j < |s| ensures s[0].key <= s[j].key { RootIsLeast(s, j); }
    }
  }

  /** The order holds in every state reachable by any operations. */
  lemma {:induction false} RunOrders<D>(s: seq<Entry<D>>, ops: seq<Op<D>>)
    requires Ordered(s)
    ensures Ordered(Run(s, ops))
    decreases |ops|
  {
    if ops != [] {
      StepOrders(s, ops[0]);
      RunOrders(Step(s, ops[0]), ops[1..]);
    }
  }

  // ---------- Draining ----------

  function Drain<D>(s: seq<Entry<D>>): seq<Entry<D>>
    decreases |s|
  {
    if s == [] then [] else [s[0]] + Drain(Delete(s, 0))
  }

  ghost predicate Ascending<D>(s: seq<Entry<D>>) {
    forall i, j | 0 <= i < j < |s| :: s[i].key <= s[j].key
  }

  lemma {:induction false} DrainPermutes<D>(s: seq<Entry<D>>)
    requires Ordered(s)
    ensures multiset(Drain(s)) == multiset(s)
    decreases |s|
  {
    if s != [] {
      DeleteCorrect(s, 0);
      DrainPermutes(Delete(s, 0));
      assert s[0] in multiset(s);
    }
  }

  lemma LeastOfMultiset<D>(s: seq<Entry<D>>, e: Entry<D>)
    requires Ordered(s) && e in multiset(s)
    ensures s[0].key <= e.key
  {
    var k :| 0 <= k < |s| && s[k] == e;
    RootIsLeast(s, k);
  }

  lemma AscendingCons<D>(e: Entry<D>, d: seq<Entry<D>>)
    requires Ascending(d) && forall j | 0 <= j < |d| :: e.key <= d[j].key
    ensures Ascending([e] + d)
  {
  }

  lemma RootBelowDrained<D>(s: seq<Entry<D>>, j: nat)
    requires Ordered(s) && s != [] && multiset(Drain(s)) == multiset(s) && j < |Drain(Delete(s, 0))|
    ensures s[0].key <= Drain(Delete(s, 0))[j].key
  {
    var d := Drain(Delete(s, 0));
    assert Drain(s)[j + 1] == d[j];
    LeastOfMultiset(s, d[j]);
  }

  /** Extracting the minimum until nothing is left sorts the contents. */
  lemma {:induction false} DrainSorts<D>(s: seq<Entry<D>>)
    requires Ordered(s)
    ensures multiset(Drain(s)) == multiset(s) && Ascending(Drain(s))
    decreases |s|
  {
    DrainPermutes(s);
    if s != [] {
      DeleteCorrect(s, 0);
      DrainSorts(Delete(s, 0));
      forall j | 0 <= j < |Drain(Delete(s, 0))| ensures s[0].key <= Drain(Delete(s, 0))[j].key {
        RootBelowDrained(s, j);
      }
      AscendingCons(s[0], Drain(Delete(s, 0)));
    }
  }

  function Datas<D>(s: seq<Entry<D>>): (t: seq<D>)
    ensures |t| == |s| && forall i | 0 <= i < |s| :: t[i] == s[i].data
  {
    seq(|s|, i requires 0 <= i < |s| => s[i].data)
  }

  lemma DrainStep<D>(done: seq<Entry<D>>, s: seq<Entry<D>>)
    requires Ordered(s) && s != []
    ensures Ordered(Delete(s, 0)) && done + [s[0]] + Drain(Delete(s, 0)) == done + Drain(s)
    ensures Datas(done + [s[0]]) == Datas(done) + [s[0].data]
  {
    DeleteCorrect(s, 0);
  }
}

/** The heap as the source holds it: an array of nodes, each knowing its index. */
module CacheHeap {
  import opened Wrappers
  import opened HeapOrder

  const THRESHOLD := 10000
  const MIN_SIZE := 32

  class Node<D> {
    var key: real
    var id: nat
    var data: D

    constructor (key: real, data: D)
      ensures this.key == key && this.data == data
    {
      this.key, this.data, id := key, data, 0;
    }
  }

  class Heap<D(!new)> {
    var nodes: array<Node?<D>>
    var last: nat
    var genKey: (D, real) -> real
    var age: real
    ghost var members: set<Node<D>>  // the nodes now in the heap

    /** The slots in use and the members refer to each other. */
    ghost predicate Valid()
      reads this, nodes, members
    {
      && 0 < nodes.Length && last <= nodes.Length
      && (forall i | 0 <= i < last :: nodes[i] != null && nodes[i] in members && nodes[i].id == i)
      && (forall n | n in members :: n.id < last && nodes[n.id] == n)
    }

    ghost function Entries(): (s: seq<Entry<D>>)
      requires Valid()
      reads this, nodes, members
      ensures |s| == last && forall i | 0 <= i < last :: s[i] == Entry(nodes[i].key, nodes[i].data)
    {
      seq(last, i requires 0 <= i < last && Valid() reads this, nodes, members => Entry(nodes[i].key, nodes[i].data))
    }

    constructor (initSize: int, genKey: (D, real) -> real)
      ensures Valid() && Entries() == [] && members == {} && fresh(nodes)
      ensures this.genKey == genKey && age == 0.0
      ensures nodes.Length == if initSize <= 0 then MIN_SIZE else initSize
    {
      nodes := new Node?<D>[if initSize <= 0 then MIN_SIZE else initSize](_ => null);
      last, age, members := 0, 0.0, {};
      this.genKey := genKey;
    }

    method SwapElement(a: Node<D>, b: Node<D>)
      requires Valid() && a in members && b in members
      modifies nodes, a`id, b`id
      ensures Valid() && Entries() == Swap(old(Entries()), old(a.id), old(b.id))
      ensures a.id == old(b.id) && b.id == old(a.id)
    {
      var t := a.id;
      a.id := b.id;
      b.id := t;
      nodes[a.id] := a;
      nodes[b.id] := b;
    }

    method IfyUp(elm: Node<D>)
      requires Valid() && elm in members
      modifies nodes, members`id
      ensures Valid() && (Entries(), elm.id) == SiftUp(old(Entries()), old(elm.id))
    {
      while elm.id > 0
        invariant Valid()
        invariant SiftUp(Entries(), elm.id) == SiftUp(old(Entries()), old(elm.id))
        decreases elm.id
      {
        var parent := nodes[Parent(elm.id)];
        if parent.key <= elm.key {
          break;
        }
        SwapElement(parent, elm);
      }
    }

    method IfyDown(elm: Node<D>)
      requires Valid() && elm in members
      modifies nodes, members`id
      ensures Valid() && Entries() == SiftDown(old(Entries()), old(elm.id))
    {
      while Left(elm.id) < last
        invariant Valid()
        invariant SiftDown(Entries(), elm.id) == SiftDown(old(Entries()), old(elm.id))
        decreases last - elm.id
      {
        var left, right := Left(elm.id), Right(elm.id);
        var kid := if right < last && nodes[right].key < nodes[left].key then nodes[right] else nodes[left];
        if elm.key <= kid.key {
          break;
        }
        SwapElement(kid, elm);
      }
    }

    method Grow()
      requires Valid()
      modifies this`nodes
      ensures Valid() && Entries() == old(Entries()) && fresh(nodes)
      ensures var size := old(nodes.Length); nodes.Length == if size > 10000 then size * 3 / 2 else size * 2
    {
      var size := nodes.Length;
      var newSize := if size > THRESHOLD then size * 3 / 2 else size * 2;
      var grown := new Node?<D>[newSize](_ => null);
      forall i | 0 <= i < size {
        grown[i] := nodes[i];
      }
      nodes := grown;
    }

    method MakeRoom()
      requires Valid()
      modifies this`nodes
      ensures Valid() && Entries() == old(Entries()) && last < nodes.Length
      ensures nodes == old(nodes) || fresh(nodes)
    {
      if nodes.Length <= last {
        Grow();
      }
    }

    /** Puts a node that is not in the heap into the first unused slot. */
    method Append(elm: Node<D>)
      requires Valid() && last < nodes.Length && elm !in members
      modifies this`last, this`members, nodes, elm`id
      ensures Valid() && elm.id == old(last) && last == old(last) + 1 && members == old(members) + {elm}
      ensures Entries() == old(Entries()) + [Entry(elm.key, elm.data)]
    {
      nodes[last] := elm;
      elm.id := last;
      last := last + 1;
      members := members + {elm};
    }

    method Place(elm: Node<D>)
      requires Valid() && last < nodes.Length && elm !in members
      modifies this`last, this`members, nodes, members`id, elm`id
      ensures Valid() && members == old(members) + {elm}
      ensures Entries() == Insert(old(Entries()), Entry(elm.key, elm.data))
    {
      Append(elm);
      IfyUp(elm);
    }

    method AddNode(elm: Node<D>)
      requires Valid() && elm !in members
      modifies this`nodes, this`last, this`members, nodes, members`id, elm`id
      ensures Valid() && members == old(members) + {elm} && (nodes == old(nodes) || fresh(nodes))
      ensures Entries() == Insert(old(Entries()), Entry(elm.key, elm.data))
    {
      MakeRoom();
      Place(elm);
    }

    method HeapInsert(dat: D) returns (elm: Node<D>)
      requires Valid()
      modifies this`nodes, this`last, this`members, nodes, members`id
      ensures Valid() && Entries() == Insert(old(Entries()), Entry(genKey(dat, age), dat))
      ensures old(Ordered(Entries())) ==> Ordered(Entries())
      ensures fresh(elm) && members == old(members) + {elm}
      ensures elm.key == genKey(dat, age) && elm.data == dat
      ensures nodes == old(nodes) || fresh(nodes)
    {
      KeepsOrder(Entries(), DoInsert(Entry(genKey(dat, age), dat)));
      elm := new Node(genKey(dat, age), dat);
      AddNode(elm);
    }

    method DropLast() returns (data: D)
      requires Valid() && last > 0
      modifies this`last, this`members
      ensures Valid() && Entries() == old(Entries())[..old(last) - 1]
      ensures data == old(nodes[last - 1].data) && members == old(members) - {old(nodes[last - 1])}
    {
      last := last - 1;
      data := nodes[last].data;
      members := members - {nodes[last]};
    }

    method ExtractLast() returns (data: D)
      requires Valid() && last > 0
      modifies this`last, this`members
      ensures Valid() && Entries() == old(Entries())[..old(last) - 1]
      ensures old(Ordered(Entries())) ==> Ordered(Entries())
      ensures data == old(nodes[last - 1].data) && members == old(members) - {old(nodes[last - 1])}
    {
      KeepsOrder(Entries(), DoExtractLast);
      data := DropLast();
    }

    /** The common tail of heap_delete and heap_update. */
    method Settle(elm: Node<D>)
      requires Valid() && elm in members
      modifies nodes, members`id
      ensures Valid() && Entries() == Fix(old(Entries()), old(elm.id))
    {
      if elm.key < nodes[Parent(elm.id)].key {
        IfyUp(elm);
      }
      IfyDown(elm);
    }

    /** Swap with the last node and drop it there. */
    method SwapOut(elm: Node<D>) returns (lastNode: Node<D>)
      requires Valid() && elm in members
      modifies this`last, this`members, nodes, members`id
      ensures Valid() && members == old(members) - {elm} && lastNode == old(nodes[last - 1])
      ensures var s, i, n := old(Entries()), old(elm.id), old(last) - 1;
        if lastNode == elm then i == n && Entries() == s[..n]
        else lastNode in members && lastNode.id == i < n && Entries() == s[..n][i := s[n]]
    {
      lastNode := nodes[last - 1];
      ghost var s, i, n := Entries(), elm.id, last - 1;
      SwapElement(lastNode, elm);
      var _ := DropLast();
      assert Entries() == if i < n then s[..n][i := s[n]] else s[..n];
    }

    /** Settles the node that moved to the free slot, if one did. */
    method SettleMoved(elm: Node<D>, moved: Node<D>)
      requires Valid() && (moved != elm ==> moved in members)
      modifies nodes, members`id
      ensures Valid() && Entries() == if moved == elm then old(Entries()) else Fix(old(Entries()), old(moved.id))
    {
      if elm != moved {
        Settle(moved);
      }
    }

    method Detach(elm: Node<D>)
      requires Valid() && elm in members
      modifies this`last, this`members, nodes, members`id
      ensures Valid() && Entries() == Delete(old(Entries()), old(elm.id)) && members == old(members) - {elm}
    {
      ghost var s, i := Entries(), elm.id;
      var moved := SwapOut(elm);
      assert Delete(s, i) == if moved == elm then Entries() else Fix(Entries(), moved.id);
      SettleMoved(elm, moved);
    }

    method HeapDelete(elm: Node<D>) returns (data: D)
      requires Valid() && elm in members
      modifies this`last, this`members, nodes, members`id
      ensures Valid() && Entries() == Delete(old(Entries()), old(elm.id))
      ensures old(Ordered(Entries())) ==> Ordered(Entries())
      ensures members == old(members) - {elm} && data == elm.data
    {
      KeepsOrder(Entries(), DoDelete(elm.id));
      data := elm.data;
      Detach(elm);
    }

    method Rewrite(elm: Node<D>, key: real, data: D)
      requires Valid() && elm in members
      modifies elm`key, elm`data
      ensures Valid() && Entries() == old(Entries())[elm.id := Entry(key, data)]
      ensures elm.key == key && elm.data == data
    {
      elm.key := key;
      elm.data := data;
    }

    method HeapUpdate(elm: Node<D>, dat: D) returns (oldData: D)
      requires Valid() && elm in members
      modifies nodes, members`id, elm`key, elm`data
      ensures Valid() && Entries() == Update(old(Entries()), old(elm.id), Entry(genKey(dat, age), dat))
      ensures old(Ordered(Entries())) ==> Ordered(Entries())
      ensures elm.key == genKey(dat, age) && elm.data == dat && oldData == old(elm.data)
    {
      KeepsOrder(Entries(), DoUpdate(elm.id, Entry(genKey(dat, age), dat)));
      oldData := elm.data;
      Rewrite(elm, genKey(dat, age), dat);
      Settle(elm);
    }

    method ExtractMin() returns (r: Option<D>)
      requires Valid()
      modifies this`last, this`members, nodes, members`id
      ensures Valid()
      ensures old(last) == 0 ==> r == None && Entries() == []
      ensures old(last) > 0 ==> r == Some(old(nodes[0].data)) && Entries() == Delete(old(Entries()), 0)
                                && members == old(members) - {old(nodes[0])}
      ensures old(Ordered(Entries())) ==> Ordered(Entries())
      ensures old(last) > 0 && old(Ordered(Entries())) ==> forall e | e in old(Entries()) :: old(nodes[0].key) <= e.key
    {
      if last <= 0 {
        return None;
      }
      LeastFirst(Entries());
      var data := HeapDelete(nodes[0]);
      r := Some(data);
    }

    /** verify_heap_property */
    method VerifyHeapProperty() returns (correct: bool)
      requires Valid()
      ensures correct <==> Ordered(Entries())
    {
      correct := true;
      ghost var s := Entries();
      var i := 0;
      while i < last / 2
        invariant 0 <= i <= last / 2
        invariant correct && forall j | 0 < j < |s| && Parent(j) < i :: InOrder(s, j)
      {
        assert forall j: nat | 0 < j && Parent(j) == i :: j == Left(i) || j == Right(i);
        if Left(i) < last && nodes[i].key > nodes[Left(i)].key {
          correct := false;
        }
        if Right(i) < last && nodes[i].key > nodes[Right(i)].key {
          correct := false;
        }
        if !correct {
          assert !InOrder(s, Left(i)) || (Right(i) < |s| && !InOrder(s, Right(i)));
          break;
        }
        i := i + 1;
      }
      assert forall j | 0 < j < |s| :: Parent(j) < last / 2;
    }
  }

  /** Any heap drained through ExtractMin. */
  method DrainAll<D(!new)>(h: Heap<D>) returns (out: seq<D>)
    requires h.Valid() && Ordered(h.Entries())
    modifies h`last, h`members, h.nodes, h.members`id
    ensures out == Datas(Drain(old(h.Entries())))
    ensures h.Valid() && h.Entries() == []
  {
    out := [];
    ghost var all := h.Entries();
    ghost var done: seq<Entry<D>> := [];
    while h.last > 0
      invariant h.Valid() && Ordered(h.Entries()) && h.nodes == old(h.nodes) && h.members <= old(h.members)
      invariant Drain(all) == done + Drain(h.Entries()) && out == Datas(done)
      decreases h.last
    {
      ghost var s := h.Entries();
      DrainStep(done, s);
      done := done + [s[0]];
      var r := h.ExtractMin();
      out := out + [r.value];
    }
  }
}
