/** What a traversal that survives removals promises, on the sequence of items
    it still has to return. */
module Traversal {

  datatype Event<T> = Next | Remove(item: T)

  function Without<T(==)>(s: seq<T>, x: T): seq<T> {
    if s == [] then [] else (if s[0] == x then [] else [s[0]]) + Without(s[1..], x)
  }

  function Step<T(==)>(rem: seq<T>, e: Event<T>): seq<T> {
    match e
    case Next => if rem == [] then [] else rem[1..]
    case Remove(x) => Without(rem, x)
  }

  /** What is still to be returned after the events. */
  function Left<T(==)>(rem: seq<T>, evs: seq<Event<T>>): seq<T>
    decreases |evs|
  {
    if evs == [] then rem else Left(Step(rem, evs[0]), evs[1..])
  }

  /** What the Next events return, in order. */
  function Returned<T(==)>(rem: seq<T>, evs: seq<Event<T>>): seq<T>
    decreases |evs|
  {
    if evs == [] then []
    else (if evs[0].Next? && rem != [] then [rem[0]] else []) + Returned(Step(rem, evs[0]), evs[1..])
  }

  ghost predicate Distinct<T>(s: seq<T>) {
    forall i, j | 0 <= i < j < |s| :: s[i] != s[j]
  }

  lemma DistinctCons<T>(x: T, s: seq<T>)
    ensures Distinct([x] + s) <==> x !in s && Distinct(s)
  {
    var t := [x] + s;
    assert forall i | 0 <= i < |s| :: t[i + 1] == s[i];
    if Distinct(t) {
      forall i, j | 0 <= i < j < |s| ensures s[i] != s[j] { assert t[i + 1] != t[j + 1]; }
      forall i | 0 <= i < |s| ensures s[i] != x { assert t[0] != t[i + 1]; }
    }
  }

  lemma {:induction false} WithoutElements<T>(s: seq<T>, x: T)
    ensures forall y | y in Without(s, x) :: y in s && y != x
    ensures forall y | y in s && y != x :: y in Without(s, x)
    ensures Distinct(s) ==> Distinct(Without(s, x))
    ensures x !in s ==> Without(s, x) == s
  {
    if s != [] {
      WithoutElements(s[1..], x);
      assert s == [s[0]] + s[1..];
      DistinctCons(s[0], s[1..]);
      DistinctCons(s[0], Without(s[1..], x));
    }
  }

  lemma {:induction false} WithoutAppend<T>(a: seq<T>, b: seq<T>, x: T)
    ensures Without(a + b, x) == Without(a, x) + Without(b, x)
  {
    if a == [] {
      assert a + b == b;
    } else {
      assert (a + b)[1..] == a[1..] + b;
      WithoutAppend(a[1..], b, x);
    }
  }

  lemma {:induction false} LeftSplit<T>(rem: seq<T>, a: seq<Event<T>>, b: seq<Event<T>>)
    ensures Left(rem, a + b) == Left(Left(rem, a), b)
    ensures Returned(rem, a + b) == Returned(rem, a) + Returned(Left(rem, a), b)
    decreases |a|
  {
    if a == [] {
      assert a + b == b;
    } else {
      assert (a + b)[1..] == a[1..] + b;
      LeftSplit(Step(rem, a[0]), a[1..], b);
    }
  }

  lemma StepElements<T>(rem: seq<T>, e: Event<T>)
    requires Distinct(rem)
    ensures Distinct(Step(rem, e))
    ensures forall y | y in Step(rem, e) :: y in rem && (rem != [] && e.Next? ==> y != rem[0])
  {
    match e {
      case Next => if rem != [] { assert rem == [rem[0]] + rem[1..]; DistinctCons(rem[0], rem[1..]); }
      case Remove(x) =>
        WithoutElements(rem, x);
    }
  }

  /** Nothing is returned twice, and nothing that was not there at the start. */
  lemma {:induction false} AtMostOnce<T>(rem: seq<T>, evs: seq<Event<T>>)
    requires Distinct(rem)
    ensures Distinct(Returned(rem, evs))
    ensures forall y | y in Returned(rem, evs) :: y in rem
    decreases |evs|
  {
    if evs != [] {
      StepElements(rem, evs[0]);
      AtMostOnce(Step(rem, evs[0]), evs[1..]);
      if rem != [] {
        DistinctCons(rem[0], Returned(Step(rem, evs[0]), evs[1..]));
      }
    }
  }

  lemma AfterRemoval<T>(rem: seq<T>, x: T, evs: seq<Event<T>>)
    requires Distinct(rem) && evs != [] && evs[0] == Remove(x)
    ensures Returned(rem, evs) == Returned(Without(rem, x), evs[1..]) && x !in Returned(rem, evs)
  {
    WithoutElements(rem, x);
    AtMostOnce(Without(rem, x), evs[1..]);
  }

  /** A removed item is not returned afterwards: not by the events from i on. */
  lemma NeverAfterRemoval<T>(rem: seq<T>, evs: seq<Event<T>>, i: nat)
    requires Distinct(rem) && i < |evs| && evs[i].Remove?
    ensures Returned(rem, evs) == Returned(rem, evs[..i]) + Returned(Left(rem, evs[..i]), evs[i..])
    ensures evs[i].item !in Returned(Left(rem, evs[..i]), evs[i..])
  {
    assert evs == evs[..i] + evs[i..];
    LeftSplit(rem, evs[..i], evs[i..]);
    LeftDistinct(rem, evs[..i]);
    AfterRemoval(Left(rem, evs[..i]), evs[i].item, evs[i..]);
  }

  lemma {:induction false} LeftDistinct<T>(rem: seq<T>, evs: seq<Event<T>>)
    requires Distinct(rem)
    ensures Distinct(Left(rem, evs))
    decreases |evs|
  {
    if evs != [] {
      StepElements(rem, evs[0]);
      LeftDistinct(Step(rem, evs[0]), evs[1..]);
    }
  }

  lemma OneMore<T>(rem: seq<T>, evs: seq<Event<T>>, n: nat)
    requires n < |evs|
    ensures var l := Left(rem, evs[..n]);
      && Left(rem, evs[..n + 1]) == Step(l, evs[n])
      && Returned(rem, evs[..n + 1]) == Returned(rem, evs[..n]) + if evs[n].Next? && l != [] then [l[0]] else []
  {
    assert evs[..n + 1] == evs[..n] + [evs[n]] && [evs[n]][1..] == [];
    LeftSplit(rem, evs[..n], [evs[n]]);
  }

  ghost predicate RemovedUnreturned<T>(rem: seq<T>, evs: seq<Event<T>>, x: T, i: nat) {
    i < |evs| && evs[i] == Remove(x) && x !in Returned(rem, evs[..i])
  }

  /** An item is, once the traversal is exhausted, either returned or was
      removed before its turn. */
  lemma {:induction false} Complete<T>(rem: seq<T>, evs: seq<Event<T>>, x: T)
    requires x in rem && x !in Left(rem, evs)
    ensures x in Returned(rem, evs) || exists i: nat :: RemovedUnreturned(rem, evs, x, i)
    decreases |evs|
  {
    var e := evs[0];
    if e == Remove(x) {
      assert evs[..0] == [];
      assert RemovedUnreturned(rem, evs, x, 0);
    } else if e.Remove? || x != rem[0] {
      if e.Remove? { WithoutElements(rem, e.item); } else { assert rem == [rem[0]] + rem[1..]; }
      Complete(Step(rem, e), evs[1..], x);
      if i: nat :| RemovedUnreturned(Step(rem, e), evs[1..], x, i) {
        assert evs[..i + 1][0] == e && evs[..i + 1][1..] == evs[1..][..i];
        assert RemovedUnreturned(rem, evs, x, i + 1);
      }
    }
  }

  /** Of the items present at the start, an exhausted traversal returns exactly
      those not removed before their turn. */
  lemma ExactlyTheUnremoved<T>(all: seq<T>, evs: seq<Event<T>>, x: T)
    requires Distinct(all) && x in all && Left(all, evs) == []
    ensures x in Returned(all, evs) <==> !exists i: nat :: RemovedUnreturned(all, evs, x, i)
  {
    Complete(all, evs, x);
    if i: nat :| RemovedUnreturned(all, evs, x, i) {
      NeverAfterRemoval(all, evs, i);
    }
  }
}

/** The chained hash table with its prefetching iterator
    (squid-2.7.STABLE9/lib/hash.c), with the chains as linked nodes. */
module HashTable {
  import opened Traversal

  class Link<K> {
    const key: K
    var next: Link?<K>

    constructor (key: K)
      ensures this.key == key && next == null
    {
      this.key, next := key, null;
    }
  }

  function HeadOf<K>(c: seq<Link<K>>): Link?<K> { if c == [] then null else c[0] }

  /** Link i of c points to the next one, or nowhere. */
  ghost predicate Follows<K>(c: seq<Link<K>>, i: int)
    requires 0 <= i < |c|
    reads c
  {
    c[i].next == if i + 1 < |c| then c[i + 1] else null
  }

  ghost predicate Linked<K>(c: seq<Link<K>>)
    reads c
  {
    (forall i | 0 <= i < |c| :: Follows(c, i)) && Distinct(c)
  }

  /** All chains from bucket b on, in bucket order. */
  function Flat<T>(chains: seq<seq<T>>, b: nat): seq<T>
    decreases |chains| - b
  {
    if b >= |chains| then [] else chains[b] + Flat(chains, b + 1)
  }

  lemma {:induction false} WithoutAt<T>(c: seq<T>, k: nat)
    requires k < |c| && Distinct(c)
    ensures Without(c, c[k]) == c[..k] + c[k + 1..]
  {
    assert c == [c[0]] + c[1..];
    DistinctCons(c[0], c[1..]);
    if k == 0 {
      WithoutElements(c[1..], c[0]);
    } else {
      WithoutAt(c[1..], k - 1);
      assert c[1..][..k - 1] == c[1..k] && c[1..][k..] == c[k + 1..] && [c[0]] + c[1..k] == c[..k];
    }
  }

  lemma Tail<T>(c: seq<T>, k: nat, f: seq<T>)
    requires k < |c|
    ensures c[k..] + f == [c[k]] + (c[k + 1..] + f)
  {
  }

  /** Taking x out of its only chain takes it out of the whole. */
  lemma {:induction false} FlatRemove<T>(chains: seq<seq<T>>, b: nat, x: T, a: nat)
    requires b < |chains| && forall i | 0 <= i < |chains| && i != b :: x !in chains[i]
    ensures Flat(chains[b := Without(chains[b], x)], a) == Without(Flat(chains, a), x)
    decreases |chains| - a
  {
    if a < |chains| {
      FlatRemove(chains, b, x, a + 1);
      WithoutAppend(chains[a], Flat(chains, a + 1), x);
      if a != b { WithoutElements(chains[a], x); }
    }
  }

  lemma {:induction false} FlatLength<T>(chains: seq<seq<T>>, b: nat, c: seq<T>, a: nat)
    requires b < |chains|
    ensures |Flat(chains[b := c], a)| == |Flat(chains, a)| + if a <= b then |c| - |chains[b]| else 0
    ensures b < a ==> Flat(chains[b := c], a) == Flat(chains, a)
    decreases |chains| - a
  {
    if a < |chains| {
      FlatLength(chains, b, c, a + 1);
    }
  }

  function Cut<T>(c: seq<T>, k: nat): seq<T>
    requires k < |c|
  {
    c[..k] + c[k + 1..]
  }

  lemma CutElements<T>(c: seq<T>, k: nat)
    requires k < |c| && Distinct(c)
    ensures forall i | 0 <= i < |Cut(c, k)| :: Cut(c, k)[i] in c && Cut(c, k)[i] != c[k]
    ensures forall y | y in c && y != c[k] :: y in Cut(c, k)
  {
    WithoutAt(c, k);
    WithoutElements(c, c[k]);
    forall i | 0 <= i < |Cut(c, k)| ensures Cut(c, k)[i] in Cut(c, k) {}
  }

  lemma CutDistinct<T>(c: seq<T>, k: nat)
    requires k < |c| && Distinct(c)
    ensures Distinct(Cut(c, k))
  {
    WithoutAt(c, k);
    WithoutElements(c, c[k]);
  }

  /** What is left from position pos of chain cur on. */
  function RestFrom<T>(chains: seq<seq<T>>, cur: nat, pos: nat): seq<T>
    requires cur < |chains| && pos <= |chains[cur]|
  {
    chains[cur][pos..] + Flat(chains, cur + 1)
  }

  lemma CutTail<T>(c: seq<T>, k: nat, pos: nat)
    requires k < |c| && pos <= |c| && Distinct(c)
    ensures Cut(c, k)[if k < pos then pos - 1 else pos..] == Without(c[pos..], c[k])
  {
    if k < pos {
      assert Cut(c, k)[pos - 1..] == c[pos..];
      WithoutElements(c[pos..], c[k]);
    } else {
      WithoutAt(c[pos..], k - pos);
      assert Cut(c, k)[pos..] == Cut(c[pos..], k - pos);
    }
  }

  lemma RestRemove<T>(chains: seq<seq<T>>, b: nat, k: nat, cur: nat, pos: nat)
    requires b < |chains| && k < |chains[b]| && Distinct(chains[b]) && cur < |chains| && pos <= |chains[cur]|
    requires forall i | 0 <= i < |chains| && i != b :: chains[b][k] !in chains[i]
    ensures RestFrom(chains[b := Cut(chains[b], k)], cur, if b == cur && k < pos then pos - 1 else pos)
         == Without(RestFrom(chains, cur, pos), chains[b][k])
  {
    var x := chains[b][k];
    WithoutAppend(chains[cur][pos..], Flat(chains, cur + 1), x);
    WithoutAt(chains[b], k);
    FlatRemove(chains, b, x, cur + 1);
    if b == cur {
      CutTail(chains[b], k, pos);
    } else {
      WithoutElements(chains[cur][pos..], x);
    }
  }

  lemma {:induction false} FlatHas<T>(chains: seq<seq<T>>, b: nat, x: T, a: nat)
    requires b < |chains| && x in chains[b] && forall i | 0 <= i < |chains| && i != b :: x !in chains[i]
    ensures x in Flat(chains, a) <==> a <= b
    decreases |chains| - a
  {
    if a < |chains| { FlatHas(chains, b, x, a + 1); }
  }

  /** A new first element of chain b is still to come exactly when chain b is. */
  lemma RestAdd<T>(chains: seq<seq<T>>, b: nat, x: T, cur: nat, pos: nat)
    requires b < |chains| && Distinct(chains[b]) && cur < |chains| && pos <= |chains[cur]|
    requires forall i | 0 <= i < |chains| :: x !in chains[i]
    ensures var rest := RestFrom(chains[b := [x] + chains[b]], cur, if b == cur then pos + 1 else pos);
      Without(rest, x) == RestFrom(chains, cur, pos) && (x in rest <==> cur < b)
  {
    var with := chains[b := [x] + chains[b]];
    DistinctCons(x, chains[b]);
    RestRemove(with, b, 0, cur, if b == cur then pos + 1 else pos);
    assert Cut(with[b], 0) == chains[b] && with[b := chains[b]] == chains;
    FlatHas(with, b, x, cur + 1);
    if b == cur { assert with[b][pos + 1..] == chains[b][pos..]; }
  }

  const DEFAULT_SIZE := 7951

  class Table<K(==, !new)> {
    const hash: K -> nat
    const buckets: array<Link?<K>>
    var currentSlot: nat
    var next: Link?<K>
    var count: nat
    ghost var chains: seq<seq<Link<K>>>  // the links of each bucket in order
    ghost var links: set<Link<K>>        // the links in the table
    ghost var pos: nat                   // where next is in its chain

    /** The hash function is given the size and stays below it. */
    function Bucket(k: K): nat { if hash(k) < buckets.Length then hash(k) else 0 }

    ghost predicate Heads()
      reads this`chains, buckets
    {
      buckets.Length == |chains| > 0 && forall b | 0 <= b < |chains| :: buckets[b] == HeadOf(chains[b])
    }

    /** Chain b consists of links of the table whose keys belong to bucket b. */
    ghost predicate ChainOk(b: int)
      requires 0 <= b < |chains|
      reads this`chains, this`links, links
    {
      && (forall i | 0 <= i < |chains[b]| :: chains[b][i] in links && Bucket(chains[b][i].key) == b)
      && Linked(chains[b])
    }

    /** The chains hold exactly the links. */
    ghost predicate Shape()
      reads this`chains, this`links, this`count, buckets, links
    {
      && Heads()
      && (forall b | 0 <= b < |chains| :: ChainOk(b))
      && (forall l | l in links :: l in chains[Bucket(l.key)])
      && count == |Flat(chains, 0)|
    }

    ghost predicate IteratorOk()
      reads this`chains, this`next, this`currentSlot, this`pos
    {
      next != null ==> currentSlot < |chains| && pos < |chains[currentSlot]| && next == chains[currentSlot][pos]
    }

    ghost predicate Valid()
      reads this, buckets, links
    {
      Shape() && IteratorOk()
    }

    /** Everything in the table, in traversal order. */
    ghost function All(): seq<Link<K>>
      reads this
    {
      Flat(chains, 0)
    }

    /** What the traversal still has to return. */
    ghost function Remaining(): seq<Link<K>>
      requires Valid()
      reads this, buckets, links
    {
      Rest()
    }

    constructor (size: nat, hash: K -> nat)
      ensures Valid() && All() == [] && Remaining() == [] && fresh(buckets) && links == {}
      ensures this.hash == hash && buckets.Length == if size == 0 then DEFAULT_SIZE else size
    {
      var n := if size == 0 then DEFAULT_SIZE else size;
      this.hash := hash;
      buckets := new Link?<K>[n](_ => null);
      currentSlot, next, count, pos := 0, null, 0, 0;
      chains, links := seq(n, _ => []), {};
      new;
      EmptyFlat(chains, 0);
    }

    /** hash_join: the link becomes the first of its bucket, and a traversal in
        progress will return it exactly when it has not reached that bucket. */
    method Join(lnk: Link<K>)
      requires Valid() && lnk !in links
      modifies this`count, this`chains, this`links, this`pos, buckets, lnk
      ensures Valid() && links == old(links) + {lnk}
      ensures chains == old(chains)[Bucket(lnk.key) := [lnk] + old(chains)[Bucket(lnk.key)]]
      ensures Without(Remaining(), lnk) == old(Remaining())
      ensures lnk in Remaining() <==> next != null && currentSlot < Bucket(lnk.key)
    {
      var i := Bucket(lnk.key);
      ghost var was := Rest();
      if next != null {
        NowhereYet(lnk);
        RestAdd(chains, i, lnk, currentSlot, pos);
      }
      Enlist(lnk, i);
      if i == currentSlot && next != null {
        pos := pos + 1;
      }
      assert Without(Rest(), lnk) == was && (lnk in Rest() <==> next != null && currentSlot < i);
    }

    lemma NowhereYet(lnk: Link<K>)
      requires Shape() && lnk !in links
      ensures forall b | 0 <= b < |chains| :: lnk !in chains[b] && Distinct(chains[b])
    {
      forall b | 0 <= b < |chains| ensures lnk !in chains[b] && Distinct(chains[b]) {
        assert ChainOk(b);
      }
    }

    method Enlist(lnk: Link<K>, i: nat)
      requires Shape() && lnk !in links && i == Bucket(lnk.key)
      modifies this`count, this`chains, this`links, buckets, lnk
      ensures Shape() && links == old(links) + {lnk} && chains == old(chains)[i := [lnk] + old(chains)[i]]
    {
      ghost var c := chains[i];
      assert ChainOk(i);
      FlatLength(chains, i, [lnk] + c, 0);
      PushFront(lnk, i);
      count := count + 1;
      links := links + {lnk};
      chains := chains[i := [lnk] + c];
      forall b | 0 <= b < |chains| ensures ChainOk(b) {
        assert old(ChainOk(b));
        if b != i {
          assert chains[b] == old(chains)[b] && lnk !in chains[b];
          assert Linked(chains[b]);
        }
      }
    }

    method PushFront(lnk: Link<K>, i: nat)
      requires Heads() && i < buckets.Length && lnk !in chains[i] && Linked(chains[i])
      modifies buckets, lnk`next
      ensures Linked([lnk] + chains[i]) && buckets[i] == lnk
      ensures forall b | 0 <= b < |chains| && b != i :: buckets[b] == HeadOf(chains[b])
    {
      ghost var c := chains[i];
      DistinctCons(lnk, c);
      lnk.next := buckets[i];
      buckets[i] := lnk;
      ghost var d := [lnk] + c;
      forall k | 0 <= k < |d| ensures Follows(d, k) {
        if k > 0 { assert old(Follows(c, k - 1)); }
      }
    }

    /** hash_lookup: the link under k that was joined last, if there is one. */
    method Lookup(k: K) returns (walker: Link?<K>)
      requires Valid()
      ensures walker == null ==> forall l | l in links :: l.key != k
      ensures walker != null ==> walker in links && walker.key == k
      ensures walker != null ==> exists i :: 0 <= i < |chains[Bucket(k)]| && chains[Bucket(k)][i] == walker
                                   && forall j | 0 <= j < i :: chains[Bucket(k)][j].key != k
    {
      var b := Bucket(k);
      walker := buckets[b];
      ghost var i := 0;
      assert ChainOk(b);
      while walker != null
        invariant 0 <= i <= |chains[b]|
        invariant walker == if i < |chains[b]| then chains[b][i] else null
        invariant forall j | 0 <= j < i :: chains[b][j].key != k
        decreases |chains[b]| - i
      {
        if walker.key == k {
          return;
        }
        assert Follows(chains[b], i) by { assert ChainOk(b); }
        walker := walker.next;
        i := i + 1;
      }
    }

    /** What the iterator still has to return, by its own fields. */
    ghost function Rest(): seq<Link<K>>
      requires IteratorOk()
      reads this`chains, this`next, this`currentSlot, this`pos
    {
      if next == null then [] else RestFrom(chains, currentSlot, pos)
    }

    method NextBucket()
      requires Heads() && next == null && currentSlot < buckets.Length
      modifies this`next, this`currentSlot, this`pos
      ensures IteratorOk() && Rest() == Flat(chains, old(currentSlot) + 1)
    {
      currentSlot := currentSlot + 1;
      while next == null && currentSlot < buckets.Length
        invariant IteratorOk() && old(currentSlot) < currentSlot <= buckets.Length
        invariant next != null ==> pos == 0 && currentSlot < buckets.Length
        invariant Flat(chains, old(currentSlot) + 1) == Flat(chains, currentSlot)
        decreases buckets.Length - currentSlot, next == null
      {
        assert buckets[currentSlot] == HeadOf(chains[currentSlot]);
        next, pos := buckets[currentSlot], 0;
        if next == null {
          assert [] + Flat(chains, currentSlot + 1) == Flat(chains, currentSlot + 1);
          currentSlot := currentSlot + 1;
        }
      }
      assert next != null ==> chains[currentSlot][0..] == chains[currentSlot];
    }

    /** hash_first */
    method First()
      requires Valid() && next == null
      modifies this`next, this`currentSlot, this`pos
      ensures Valid() && Remaining() == All()
    {
      currentSlot, pos := 0, 0;
      assert buckets[0] == HeadOf(chains[0]) && chains[0][0..] == chains[0];
      next := buckets[0];
      if next == null {
        assert [] + Flat(chains, 1) == Flat(chains, 1);
        NextBucket();
      }
    }

    /** hash_next */
    method Next() returns (this': Link?<K>)
      requires Valid()
      modifies this`next, this`currentSlot, this`pos
      ensures Valid() && Remaining() == Step(old(Remaining()), Event.Next)
      ensures this' == if old(Remaining()) == [] then null else old(Remaining())[0]
    {
      this' := next;
      if next == null {
        return;
      }
      assert Follows(chains[currentSlot], pos) by { assert ChainOk(currentSlot); }
      Advance();
    }

    method Advance()
      requires Heads() && IteratorOk() && next != null && Follows(chains[currentSlot], pos)
      modifies this`next, this`currentSlot, this`pos
      ensures IteratorOk() && old(Rest()) == [old(next)] + Rest()
    {
      Tail(chains[currentSlot], pos, Flat(chains, currentSlot + 1));
      next, pos := next.next, pos + 1;
      if next == null {
        assert [] + Flat(chains, currentSlot + 1) == Flat(chains, currentSlot + 1);
        NextBucket();
      }
    }

    /** The walk of hash_remove_link: the link before hl, if there is one. */
    method FindBefore(hl: Link<K>, b: nat) returns (prev: Link?<K>, ghost k: nat)
      requires Heads() && b < |chains| && Linked(chains[b]) && hl in chains[b]
      ensures k < |chains[b]| && chains[b][k] == hl && prev == if k == 0 then null else chains[b][k - 1]
    {
      ghost var c := chains[b];
      var p := buckets[b];
      prev, k := null, 0;
      while p != hl
        invariant 0 <= k < |c| && p == c[k] && hl in c[k..]
        invariant prev == if k == 0 then null else c[k - 1]
        decreases |c| - k
      {
        assert Follows(c, k) && c[k..] == [c[k]] + c[k + 1..];
        prev, p := p, p.next;
        k := k + 1;
      }
    }

    /** The pointer work of hash_remove_link. */
    method Bypass(hl: Link<K>, b: nat) returns (ghost k: nat)
      requires Heads() && b < |chains| && Linked(chains[b]) && hl in chains[b]
      modifies buckets, chains[b]
      ensures k < |chains[b]| && chains[b][k] == hl && hl.next == old(hl.next)
      ensures Linked(Cut(chains[b], k)) && buckets[b] == HeadOf(Cut(chains[b], k))
      ensures forall b' | 0 <= b' < |chains| && b' != b :: buckets[b'] == HeadOf(chains[b'])
    {
      var prev;
      prev, k := FindBefore(hl, b);
      ghost var c := chains[b];
      assert Follows(c, k);
      CutDistinct(c, k);
      if prev == null {
        buckets[b] := hl.next;
      } else {
        prev.next := hl.next;
      }
      ghost var d := Cut(c, k);
      forall i | 0 <= i < |d| ensures Follows(d, i) {
        assert old(Follows(c, if i < k then i else i + 1));
      }
    }

    method Unlist(hl: Link<K>) returns (ghost k: nat)
      requires Shape() && hl in links
      modifies this`count, this`chains, this`links, buckets, links
      ensures Shape() && links == old(links) - {hl} && hl.next == old(hl.next)
      ensures k < |old(chains)[Bucket(hl.key)]| && old(chains)[Bucket(hl.key)][k] == hl
      ensures chains == old(chains)[Bucket(hl.key) := Cut(old(chains)[Bucket(hl.key)], k)]
    {
      var b := Bucket(hl.key);
      ghost var c := chains[b];
      assert ChainOk(b);
      k := Bypass(hl, b);
      FlatLength(chains, b, Cut(c, k), 0);
      CutElements(c, k);
      count := count - 1;
      links := links - {hl};
      chains := chains[b := Cut(c, k)];
      forall b' | 0 <= b' < |chains| ensures ChainOk(b') {
        assert old(ChainOk(b'));
        if b' != b {
          assert chains[b'] == old(chains)[b'];
          assert forall i | 0 <= i < |chains[b']| :: chains[b'][i] !in c;
          assert Linked(chains[b']);
        }
      }
    }

    /** hash_remove_link: takes the link out of table and traversal alike. */
    method RemoveLink(hl: Link<K>)
      requires Valid() && hl in links
      modifies this`next, this`currentSlot, this`pos, this`count, this`chains, this`links, buckets, links
      ensures Valid() && links == old(links) - {hl}
      ensures All() == Without(old(All()), hl) && Remaining() == Without(old(Remaining()), hl)
    {
      ghost var b, was := Bucket(hl.key), chains;
      assert ChainOk(b);
      OnlyIn(hl, b);
      ghost var k := Unlist(hl);
      WithoutAt(was[b], k);
      FlatRemove(was, b, hl, 0);
      assert All() == Without(old(All()), hl);
      if next != null {
        assert old(Follows(was[b], k));
        Skip(hl, was, b, k);
      }
    }

    /** What the traversal still has to return loses exactly the removed link. */
    method Skip(hl: Link<K>, ghost was: seq<seq<Link<K>>>, ghost b: nat, ghost k: nat)
      requires Heads() && next != null && b < |was| && k < |was[b]| && was[b][k] == hl && Distinct(was[b])
      requires chains == was[b := Cut(was[b], k)]
      requires forall i | 0 <= i < |was| && i != b :: hl !in was[i]
      requires currentSlot < |was| && pos < |was[currentSlot]| && next == was[currentSlot][pos]
      requires hl.next == if k + 1 < |was[b]| then was[b][k + 1] else null
      modifies this`next, this`currentSlot, this`pos
      ensures IteratorOk() && Rest() == Without(RestFrom(was, old(currentSlot), old(pos)), hl)
    {
      RestRemove(was, b, k, currentSlot, pos);
      StepOver(hl, was, b, k);
    }

    lemma OnlyIn(hl: Link<K>, b: nat)
      requires Shape() && b == Bucket(hl.key)
      ensures forall i | 0 <= i < |chains| && i != b :: hl !in chains[i]
    {
      forall i | 0 <= i < |chains| && i != b ensures hl !in chains[i] {
        assert ChainOk(i);
      }
    }

    /** The iterator's part of hash_remove_link: prefetch past the removed link. */
    method StepOver(hl: Link<K>, ghost was: seq<seq<Link<K>>>, ghost b: nat, ghost k: nat)
      requires Heads() && next != null && b < |was| && k < |was[b]| && was[b][k] == hl && Distinct(was[b])
      requires chains == was[b := Cut(was[b], k)]
      requires currentSlot < |was| && pos < |was[currentSlot]| && next == was[currentSlot][pos]
      requires next == hl ==> currentSlot == b
      requires hl.next == if k + 1 < |was[b]| then was[b][k + 1] else null
      modifies this`next, this`currentSlot, this`pos
      ensures IteratorOk()
      ensures Rest() == RestFrom(chains, old(currentSlot), if b == old(currentSlot) && k < old(pos) then old(pos) - 1 else old(pos))
    {
      if next == hl {
        assert pos == k;
        next := hl.next;
        if next == null {
          assert chains[b][k..] == [];
          assert [] + Flat(chains, b + 1) == Flat(chains, b + 1);
          NextBucket();
        }
      } else if b == currentSlot && k < pos {
        pos := pos - 1;
      }
    }
  }

  /** Each removed link is in the table when its turn to be removed comes. */
  ghost predicate Removable<K>(evs: seq<Event<Link<K>>>, links: set<Link<K>>) {
    && (forall e | e in evs && e.Remove? :: e.item in links)
    && (forall i, j | 0 <= i < j < |evs| && evs[i].Remove? && evs[j].Remove? :: evs[i].item != evs[j].item)
  }

  /** A traversal by hash_first and hash_next with removals between the steps. */
  method Traverse<K(==, !new)>(t: Table<K>, evs: seq<Event<Link<K>>>) returns (out: seq<Link<K>>)
    requires t.Valid() && t.next == null && Removable(evs, t.links)
    modifies t, t.buckets, t.links
    ensures t.Valid() && out == Returned(old(t.All()), evs) && t.Remaining() == Left(old(t.All()), evs)
  {
    out := [];
    t.First();
    for n := 0 to |evs|
      invariant t.Valid() && t.links <= old(t.links)
      invariant forall i | n <= i < |evs| && evs[i].Remove? :: evs[i].item in t.links
      invariant out == Returned(old(t.All()), evs[..n]) && t.Remaining() == Left(old(t.All()), evs[..n])
    {
      OneMore(old(t.All()), evs, n);
      match evs[n] {
        case Next =>
          var l := t.Next();
          if l != null {
            out := out + [l];
          }
        case Remove(hl) =>
          t.RemoveLink(hl);
      }
    }
    assert evs[..|evs|] == evs;
  }

  /** What Traverse starts from has no repetitions. */
  lemma AllDistinct<K(!new)>(t: Table<K>)
    requires t.Valid()
    ensures Distinct(t.All())
  {
    FlatDistinct(t, 0);
  }

  lemma {:induction false} FlatDistinct<K(!new)>(t: Table<K>, b: nat)
    requires t.Shape()
    ensures Distinct(Flat(t.chains, b))
    ensures forall l | l in Flat(t.chains, b) :: t.Bucket(l.key) >= b
    decreases |t.chains| - b
  {
    if b < |t.chains| {
      FlatDistinct(t, b + 1);
      assert t.ChainOk(b);
      var c, f := t.chains[b], Flat(t.chains, b + 1);
      forall i, j | 0 <= i < |c| && 0 <= j < |f| ensures c[i] != f[j] {
        assert f[j] in f && t.Bucket(c[i].key) == b;
      }
      AppendDistinct(c, f);
    }
  }

  lemma AppendDistinct<T>(c: seq<T>, f: seq<T>)
    requires Distinct(c) && Distinct(f) && forall i, j | 0 <= i < |c| && 0 <= j < |f| :: c[i] != f[j]
    ensures Distinct(c + f)
  {
  }

  lemma {:induction false} EmptyFlat<T>(chains: seq<seq<T>>, b: nat)
    requires forall i | 0 <= i < |chains| :: chains[i] == []
    ensures Flat(chains, b) == []
    decreases |chains| - b
  {
    if b < |chains| {
      EmptyFlat(chains, b + 1);
    }
  }
}
