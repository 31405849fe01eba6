/** Sequences kept strictly descending by a rank, with sorted insertion. */
module Ranked {

  ghost predicate Higher<T>(rank: T -> int, s: seq<T>, i: int, j: int)
    requires 0 <= i < j < |s|
  {
    rank(s[i]) > rank(s[j])
  }

  ghost predicate Descending<T>(rank: T -> int, s: seq<T>) {
    forall i, j | 0 <= i < j < |s| :: Higher(rank, s, i, j)
  }

  lemma Prepended<T>(rank: T -> int, x: T, s: seq<T>)
    requires Descending(rank, s) && forall y | y in s :: rank(x) > rank(y)
    ensures Descending(rank, [x] + s)
  {
    var t := [x] + s;
    forall i, j | 0 <= i < j < |t| ensures Higher(rank, t, i, j) {
      if i == 0 { assert t[j] == s[j - 1] && s[j - 1] in s; } else { assert Higher(rank, s, i - 1, j - 1); }
    }
  }

  lemma Rest<T>(rank: T -> int, s: seq<T>)
    requires s != [] && Descending(rank, s)
    ensures Descending(rank, s[1..]) && forall y | y in s[1..] :: rank(s[0]) > rank(y)
  {
    var rest := s[1..];
    forall i, j | 0 <= i < j < |rest| ensures Higher(rank, rest, i, j) { assert Higher(rank, s, i + 1, j + 1); }
    forall y | y in rest ensures rank(s[0]) > rank(y) {
      var i :| 0 <= i < |rest| && rest[i] == y;
      assert Higher(rank, s, 0, i + 1);
    }
  }

  /** Before the first lower rank; not at all where the rank is taken. */
  function Insert<T>(rank: T -> int, s: seq<T>, x: T): seq<T> {
    if s == [] || rank(s[0]) < rank(x) then [x] + s
    else if rank(s[0]) == rank(x) then s
    else [s[0]] + Insert(rank, s[1..], x)
  }

  lemma {:induction false} InsertCorrect<T>(rank: T -> int, s: seq<T>, x: T)
    requires Descending(rank, s) && forall y | y in s :: rank(y) != rank(x)
    ensures Descending(rank, Insert(rank, s, x))
    ensures forall y | y in Insert(rank, s, x) :: y == x || y in s
    ensures x in Insert(rank, s, x) && forall y | y in s :: y in Insert(rank, s, x)
  {
    if s == [] {
    } else if rank(s[0]) < rank(x) {
      Rest(rank, s);
      assert s == [s[0]] + s[1..];
      Prepended(rank, x, s);
    } else {
      assert s == [s[0]] + s[1..] && s[0] in s;
      Rest(rank, s);
      InsertCorrect(rank, s[1..], x);
      Prepended(rank, s[0], Insert(rank, s[1..], x));
    }
  }

  /** The first element of rank at most c, if any. */
  function FirstAtMost<T>(rank: T -> int, s: seq<T>, c: int): (k: nat)
    ensures k <= |s|
  {
    if s == [] || rank(s[0]) <= c then 0 else 1 + FirstAtMost(rank, s[1..], c)
  }

  /** It has the highest rank of all that are at most c, if there are any. */
  lemma {:induction false} FirstAtMostCorrect<T>(rank: T -> int, s: seq<T>, c: int)
    requires Descending(rank, s)
    ensures var k := FirstAtMost(rank, s, c);
      && (k < |s| ==> rank(s[k]) <= c)
      && (forall y | y in s && rank(y) <= c :: k < |s| && rank(y) <= rank(s[k]))
  {
    if s != [] {
      Rest(rank, s);
      assert s == [s[0]] + s[1..];
      if rank(s[0]) > c { FirstAtMostCorrect(rank, s[1..], c); }
    }
  }

  /** It cuts the sequence in two. */
  lemma {:induction false} FirstAtMostSplits<T>(rank: T -> int, s: seq<T>, c: int)
    requires Descending(rank, s)
    ensures var k := FirstAtMost(rank, s, c);
      && Descending(rank, s[..k]) && (forall y | y in s[..k] :: rank(y) > c)
      && Descending(rank, s[k..]) && (forall y | y in s[k..] :: rank(y) <= c)
  {
    if s != [] {
      Rest(rank, s);
      var rest := s[1..];
      if rank(s[0]) > c {
        FirstAtMostSplits(rank, rest, c);
        var k := FirstAtMost(rank, rest, c);
        assert s[..k + 1] == [s[0]] + rest[..k] && s[k + 1..] == rest[k..];
        Prepended(rank, s[0], rest[..k]);
      } else {
        assert s == [s[0]] + rest && s[..0] == [] && s[0..] == s;
      }
    }
  }
}

/** The Patricia routing tree of squid-2.7.STABLE9/lib/radix.c, for keys of a
    fixed number of bits and contiguous masks.  Bit 0 is the first bit after the
    tree's head offset. */
module Radix {
  import opened Wrappers
  import opened Ranked

  type Bits = seq<bool>

  datatype Mask = Host | Net(len: nat)
  datatype Route = Route(key: Bits, mask: Mask)

  /** One leaf of a duplicated-key chain.  A root leaf is a sentinel, not a route;
      lifted says that its mask is on some node's list. */
  datatype Entry = Entry(mask: Mask, root: bool, lifted: bool)

  datatype Tree =
    | Leaf(key: Bits, chain: seq<Entry>)
    | Node(b: nat, masks: seq<Route>, left: Tree, right: Tree)

  // ---------- Bits ----------

  predicate Agree(a: Bits, b: Bits, n: nat) {
    n <= |a| && n <= |b| && forall i | 0 <= i < n :: a[i] == b[i]
  }

  /** Nothing is set past the first n bits. */
  ghost predicate ZeroFrom(a: Bits, n: nat) {
    forall i | n <= i < |a| :: !a[i]
  }

  /** The first index from i on at which a and b differ, or where one ends. */
  function Differ(a: Bits, b: Bits, i: nat): (n: nat)
    requires i <= |a| && i <= |b|
    ensures i <= n <= |a| && n <= |b|
    ensures forall j | i <= j < n :: a[j] == b[j]
    ensures n < |a| && n < |b| ==> a[n] != b[n]
    decreases |a| - i
  {
    if i == |a| || i == |b| || a[i] != b[i] then i else Differ(a, b, i + 1)
  }

  predicate Sentinel(key: Bits) {
    (forall i | 0 <= i < |key| :: !key[i]) || (forall i | 0 <= i < |key| :: key[i])
  }

  // ---------- Contents ----------

  function Keys(t: Tree): set<Bits> {
    match t
    case Leaf(key, _) => {key}
    case Node(_, _, l, r) => Keys(l) + Keys(r)
  }

  function Routes(t: Tree): set<Route> {
    match t
    case Leaf(key, chain) => set e | e in chain && !e.root :: Route(key, e.mask)
    case Node(_, _, l, r) => Routes(l) + Routes(r)
  }

  /** Host routes outrank every mask of w bits. */
  function MaskRank(w: nat, m: Mask): int { if m.Host? then w + 1 else m.len }

  function EntryRank(w: nat): Entry -> int { (e: Entry) => MaskRank(w, e.mask) }
  function RouteRank(w: nat): Route -> int { (r: Route) => MaskRank(w, r.mask) }

  /** A key within its mask, as the tree requires of every route. */
  ghost predicate RouteOk(w: nat, r: Route) {
    |r.key| == w && (r.mask.Net? ==> 1 <= r.mask.len <= w && ZeroFrom(r.key, r.mask.len))
  }

  predicate Covers(r: Route, v: Bits) {
    if r.mask.Host? then v == r.key else Agree(r.key, v, r.mask.len)
  }

  // ---------- The Patricia invariant with lifted masks ----------

  /** Below a node that tests bit lo - 1: the chain is sorted most specific first
      and an entry is lifted exactly when its mask is no longer than lo - 1. */
  ghost predicate ChainOk(w: nat, key: Bits, chain: seq<Entry>, lo: nat) {
    && chain != [] && Descending(EntryRank(w), chain)
    && (forall e | e in chain :: RouteOk(w, Route(key, e.mask)) && (e.lifted <==> e.mask.Net? && e.mask.len < lo))
    && (forall e | e in chain :: e.root <==> e.mask.Host? && Sentinel(key))
    && (Sentinel(key) ==> chain[0].root)
  }

  /** Zero-bit keys left, one-bit keys right, and all agree on the bits before. */
  ghost predicate Splits(w: nat, b: nat, l: set<Bits>, r: set<Bits>) {
    && (forall k | k in l :: |k| == w && b < w && !k[b])
    && (forall k | k in r :: |k| == w && b < w && k[b])
    && (forall k, k' {:trigger Agree(k, k', b)} | k in l + r && k' in l + r :: Agree(k, k', b))
  }

  /** The list of a node at bit b whose parent tests bit lo - 1 holds, longest
      first, exactly the routes below whose masks reach bit lo but not past b. */
  ghost predicate MasksOk(w: nat, masks: seq<Route>, routes: set<Route>, lo: nat, b: nat) {
    && Descending(RouteRank(w), masks)
    && (forall r | r in masks :: r in routes && r.mask.Net? && lo <= r.mask.len <= b)
    && (forall r | r in routes && r.mask.Net? && lo <= r.mask.len <= b :: r in masks)
  }

  ghost predicate Tidy(w: nat, t: Tree, lo: nat) {
    match t
    case Leaf(key, chain) => |key| == w && lo <= w && ChainOk(w, key, chain, lo)
    case Node(b, masks, l, r) =>
      && lo <= b < w && Tidy(w, l, b + 1) && Tidy(w, r, b + 1)
      && Splits(w, b, Keys(l), Keys(r))
      && MasksOk(w, masks, Routes(t), lo, b)
  }

  /** A whole tree: tidy, with both sentinels in it. */
  ghost predicate Valid(w: nat, t: Tree) {
    && Tidy(w, t, 0) && t.Node? && t.b == 0
    && seq(w, _ => false) in Keys(t) && seq(w, _ => true) in Keys(t)
  }

  lemma {:induction false} RoutesTidy(w: nat, t: Tree, lo: nat)
    requires Tidy(w, t, lo)
    ensures Keys(t) != {} && forall k | k in Keys(t) :: |k| == w
    ensures forall r | r in Routes(t) :: RouteOk(w, r) && r.key in Keys(t)
  {
    match t {
      case Leaf(_, _) =>
      case Node(b, _, l, r) =>
        RoutesTidy(w, l, b + 1);
        RoutesTidy(w, r, b + 1);
    }
  }

  // ---------- Search ----------

  /** Keys are as long as the tree is wide, so that the bit is there. */
  predicate Bit(v: Bits, i: nat) { i < |v| && v[i] }

  function Child(t: Tree, v: Bits): Tree
    requires t.Node?
  {
    if Bit(v, t.b) then t.right else t.left
  }

  /** squid_rn_search */
  function Search(t: Tree, v: Bits): (x: Tree)
    ensures x.Leaf? && x.key in Keys(t)
  {
    if t.Leaf? then t else Search(Child(t, v), v)
  }

  /** Search ends at a leaf that shares with the key the longest common prefix of
      all leaves. */
  lemma {:induction false} SearchIsClosest(w: nat, t: Tree, v: Bits, lo: nat, k: Bits)
    requires Tidy(w, t, lo) && |v| == w && k in Keys(t)
    ensures |k| == w && Differ(v, k, 0) <= Differ(v, Search(t, v).key, 0)
    decreases t
  {
    RoutesTidy(w, t, lo);
    if t.Node? {
      var c := Child(t, v);
      var x := Search(t, v).key;
      assert x in Keys(c) && Agree(k, x, t.b);
      if k in Keys(c) {
        SearchIsClosest(w, c, v, t.b + 1, k);
      } else if Differ(v, x, 0) <= t.b {
        assert v[t.b] == x[t.b];
      } else {
        assert k[t.b] != v[t.b];
      }
    }
  }

  // ---------- Match ----------

  datatype Result = NoMatch | RootLeaf | Found(route: Route)
  /** The bits that are compared at first: the bytes of the first leaf's mask. */
  function CompareLen(w: nat, m: Mask): nat {
    if m.Host? || (m.len + 7) / 8 * 8 > w then w else (m.len + 7) / 8 * 8
  }

  /** The longest mask on a list that is no longer than c. */
  function FirstListed(w: nat, masks: seq<Route>, c: nat): Option<Route> {
    var i := FirstAtMost(RouteRank(w), masks, c);
    if i < |masks| then Some(masks[i]) else None
  }

  /** Climbing from the leaf for v towards the top, the first listed mask that is
      no longer than the c bits that matched. */
  function Climb(w: nat, t: Tree, v: Bits, c: nat): Option<Route> {
    if t.Leaf? then None
    else
      var below := Climb(w, Child(t, v), v, c);
      if below.Some? then below else FirstListed(w, t.masks, c)
  }

  /** squid_rn_match */
  function Match(w: nat, t: Tree, v: Bits): Result
    requires Valid(w, t) && |v| == w
  {
    var x := Search(t, v);
    LeafTidy(w, t, v, 0);
    var head, c := x.chain[0], Differ(v, x.key, 0);
    if c >= CompareLen(w, head.mask) then
      if !head.root then Found(Route(x.key, head.mask))
      else if |x.chain| > 1 then Found(Route(x.key, x.chain[1].mask))
      else RootLeaf
    else
      // a host entry ranks above any c
      var i := FirstAtMost(EntryRank(w), x.chain, c);
      if i < |x.chain| then Found(Route(x.key, x.chain[i].mask))
      else
        var r := Climb(w, t, v, c);
        if r.Some? then Found(r.value) else NoMatch
  }

  /** Reference: the route of highest rank among those that cover v. */
  ghost predicate IsLongest(w: nat, routes: set<Route>, v: Bits, res: Result) {
    match res
    case NoMatch => forall r | r in routes :: !Covers(r, v)
    case RootLeaf => false
    case Found(r) =>
      && r in routes && Covers(r, v)
      && forall r' | r' in routes && Covers(r', v) && r' != r :: MaskRank(w, r'.mask) < MaskRank(w, r.mask)
  }

  /** The leaf that search finds, with the bit above it. */
  lemma {:induction false} LeafTidy(w: nat, t: Tree, v: Bits, lo: nat)
    requires Tidy(w, t, lo) && |v| == w
    ensures var x := Search(t, v); x.chain != [] && exists l: nat :: ChainOk(w, x.key, x.chain, l)
    ensures var x := Search(t, v);
      forall r | r in Routes(t) && r.key == x.key :: r in Routes(x)
    ensures Routes(Search(t, v)) <= Routes(t)
    decreases t
  {
    if t.Node? {
      var c := Child(t, v);
      LeafTidy(w, c, v, t.b + 1);
      RoutesTidy(w, t.left, t.b + 1);
      RoutesTidy(w, t.right, t.b + 1);
    } else {
      assert ChainOk(w, t.key, t.chain, lo);
    }
  }

  /** A covering route's key is what v has under the mask, and zeros. */
  lemma CoveringKey(w: nat, r: Route, x: Bits, v: Bits)
    requires RouteOk(w, r) && r.mask.Net? && Covers(r, v) && |x| == w && |v| == w
    requires Agree(x, v, r.mask.len) && ZeroFrom(x, r.mask.len)
    ensures r.key == x
  {
    forall i | 0 <= i < w ensures r.key[i] == x[i] {
      if i >= r.mask.len { assert !r.key[i] && !x[i]; }
    }
  }

  lemma CoversIff(w: nat, r: Route, v: Bits)
    requires RouteOk(w, r) && r.mask.Net? && |v| == w
    ensures Covers(r, v) <==> r.mask.len <= Differ(v, r.key, 0)
  {
  }

  /** A mask on a node's list applies to every key below the node. */
  lemma ListedCovers(w: nat, t: Tree, v: Bits, lo: nat, r: Route)
    requires Tidy(w, t, lo) && |v| == w && t.Node? && r in t.masks
    requires r.mask.Net? && r.mask.len <= Differ(v, Search(t, v).key, 0)
    ensures r in Routes(t) && lo <= r.mask.len <= t.b && Covers(r, v)
  {
    RoutesTidy(w, t, lo);
    assert Agree(r.key, Search(t, v).key, t.b);
  }

  /** A covering route whose mask reaches past the node's bit is below the child
      that search takes. */
  lemma LongIsBelow(w: nat, t: Tree, v: Bits, lo: nat, r: Route)
    requires Tidy(w, t, lo) && |v| == w && t.Node? && r in Routes(t)
    requires r.mask.Net? && r.mask.len > t.b && Covers(r, v)
    ensures r in Routes(Child(t, v))
  {
    RoutesTidy(w, t.left, t.b + 1);
    RoutesTidy(w, t.right, t.b + 1);
    assert r.key[t.b] == v[t.b];
  }

  lemma CoveringFits(w: nat, t: Tree, v: Bits, lo: nat, r: Route)
    requires Tidy(w, t, lo) && |v| == w && r in Routes(t) && r.mask.Net? && Covers(r, v)
    ensures r.mask.len <= Differ(v, Search(t, v).key, 0)
  {
    RoutesTidy(w, t, lo);
    SearchIsClosest(w, t, v, lo, r.key);
    CoversIff(w, r, v);
  }

  /** res is the longest net among routes that covers v and reaches bit lo. */
  ghost predicate LongestNet(routes: set<Route>, v: Bits, lo: nat, res: Option<Route>) {
    && (res.Some? ==> res.value in routes && res.value.mask.Net? && lo <= res.value.mask.len && Covers(res.value, v))
    && (forall r | r in routes && r.mask.Net? && lo <= r.mask.len && Covers(r, v) ::
          res.Some? && r.mask.len <= res.value.mask.len)
  }

  /** own is the longest net among routes that covers v, reaches bit lo and does
      not pass bit b. */
  ghost predicate LongestListed(routes: set<Route>, v: Bits, lo: nat, b: nat, own: Option<Route>) {
    && (own.Some? ==> own.value in routes && own.value.mask.Net? && lo <= own.value.mask.len <= b && Covers(own.value, v))
    && (forall r | r in routes && r.mask.Net? && lo <= r.mask.len <= b && Covers(r, v) ::
          own.Some? && r.mask.len <= own.value.mask.len)
  }

  /** What a node's own list contributes to the climb. */
  lemma PickListed(w: nat, t: Tree, v: Bits, lo: nat, c: nat)
    requires Tidy(w, t, lo) && |v| == w && t.Node? && c == Differ(v, Search(t, v).key, 0)
    ensures LongestListed(Routes(t), v, lo, t.b, FirstListed(w, t.masks, c))
  {
    FirstAtMostCorrect(RouteRank(w), t.masks, c);
    var i := FirstAtMost(RouteRank(w), t.masks, c);
    if i < |t.masks| {
      assert t.masks[i] in t.masks;
      ListedCovers(w, t, v, lo, t.masks[i]);
    }
    forall r | r in Routes(t) && r.mask.Net? && lo <= r.mask.len <= t.b && Covers(r, v)
      ensures i < |t.masks| && r.mask.len <= t.masks[i].mask.len
    {
      CoveringFits(w, t, v, lo, r);
      assert r in t.masks && RouteRank(w)(r) == r.mask.len;
    }
  }

  /** The longest net below, or else the node's own. */
  lemma Combine(routes: set<Route>, child: set<Route>, v: Bits, lo: nat, b: nat, below: Option<Route>, own: Option<Route>)
    requires child <= routes && lo <= b
    requires LongestNet(child, v, b + 1, below) && LongestListed(routes, v, lo, b, own)
    requires forall r | r in routes && r.mask.Net? && Covers(r, v) && r.mask.len > b :: r in child
    ensures LongestNet(routes, v, lo, if below.Some? then below else own)
  {
  }

  /** No route under the found leaf's key fits c bits; then climbing finds the
      longest covering net below t that reaches bit lo. */
  lemma {:induction false} ClimbIsLongest(w: nat, t: Tree, v: Bits, lo: nat, c: nat)
    requires Tidy(w, t, lo) && |v| == w && c == Differ(v, Search(t, v).key, 0)
    requires forall r | r in Routes(t) && r.mask.Net? && r.key == Search(t, v).key :: r.mask.len > c
    ensures LongestNet(Routes(t), v, lo, Climb(w, t, v, c))
    decreases t
  {
    if t.Leaf? {
      RoutesTidy(w, t, lo);
      forall r | r in Routes(t) && r.mask.Net? ensures !Covers(r, v) {
        CoversIff(w, r, v);
      }
    } else {
      ClimbIsLongest(w, Child(t, v), v, t.b + 1, c);
      PickListed(w, t, v, lo, c);
      forall r | r in Routes(t) && r.mask.Net? && Covers(r, v) && r.mask.len > t.b
        ensures r in Routes(Child(t, v))
      {
        LongIsBelow(w, t, v, lo, r);
      }
      var below := Climb(w, Child(t, v), v, c);
      Combine(Routes(t), Routes(Child(t, v)), v, lo, t.b, below, FirstListed(w, t.masks, c));
    }
  }

  // ---------- Match is longest-prefix match ----------

  /** Where the found leaf matches at least the mask of chain entry i, no covering
      route outside the chain's first i entries outranks it. */
  lemma EntryIsLongest(w: nat, t: Tree, v: Bits, i: nat, l: nat)
    requires Valid(w, t) && |v| == w
    requires var x := Search(t, v);
      && ChainOk(w, x.key, x.chain, l) && i < |x.chain| && !x.chain[i].root
      && Covers(Route(x.key, x.chain[i].mask), v)
      && forall j | 0 <= j < i :: x.chain[j].root || !Covers(Route(x.key, x.chain[j].mask), v)
    ensures var x := Search(t, v);
      IsLongest(w, Routes(t), v, Found(Route(x.key, x.chain[i].mask)))
  {
    var x := Search(t, v);
    var e := x.chain[i];
    var best := Route(x.key, e.mask);
    LeafTidy(w, t, v, 0);
    RoutesTidy(w, t, 0);
    assert best in Routes(x);
    forall r | r in Routes(t) && Covers(r, v) && r != best
      ensures MaskRank(w, r.mask) < MaskRank(w, e.mask)
    {
      if e.mask.Net? && MaskRank(w, r.mask) >= e.mask.len {
        SameChain(w, t, v, e.mask.len, r);
      }
      if r.key == x.key {
        assert r in Routes(x);
        var j :| 0 <= j < |x.chain| && !x.chain[j].root && x.chain[j].mask == r.mask;
        if i < j { assert Higher(EntryRank(w), x.chain, i, j); }
      }
    }
  }

  /** A covering route at least as long as a mask of the found leaf is under the
      same key. */
  lemma SameChain(w: nat, t: Tree, v: Bits, len: nat, r: Route)
    requires Valid(w, t) && |v| == w && r in Routes(t) && Covers(r, v) && MaskRank(w, r.mask) >= len
    requires var x := Search(t, v).key; ZeroFrom(x, len) && len <= w
    ensures r.key == Search(t, v).key
  {
    var x := Search(t, v).key;
    RoutesTidy(w, t, 0);
    SearchIsClosest(w, t, v, 0, r.key);
    if r.mask.Host? {
      assert Differ(v, r.key, 0) == w;
    } else {
      CoversIff(w, r, v);
      CoveringKey(w, r, x, v);
    }
  }

  lemma CompareLenCovers(w: nat, m: Mask)
    requires m.Net? ==> m.len <= w
    ensures CompareLen(w, m) <= w && (m.Net? ==> m.len <= CompareLen(w, m))
  {
  }

  /** Behind a sentinel's own entry there are only nets. */
  lemma SecondIsNet(w: nat, key: Bits, chain: seq<Entry>, l: nat)
    requires ChainOk(w, key, chain, l) && |chain| > 1
    ensures var e := chain[1]; e in chain && RouteOk(w, Route(key, e.mask)) && e.mask.Net? && !e.root
  {
    assert Higher(EntryRank(w), chain, 0, 1);
    assert chain[0] in chain && RouteOk(w, Route(key, chain[0].mask));
  }

  /** Match with the leaf exact on the bytes that are compared first. */
  lemma ExactMatch(w: nat, t: Tree, v: Bits, l: nat)
    requires Valid(w, t) && |v| == w
    requires var x := Search(t, v);
      ChainOk(w, x.key, x.chain, l) && Differ(v, x.key, 0) >= CompareLen(w, x.chain[0].mask)
    ensures Match(w, t, v) == RootLeaf || IsLongest(w, Routes(t), v, Match(w, t, v))
  {
    var x := Search(t, v);
    var head := x.chain[0];
    assert RouteOk(w, Route(x.key, head.mask));
    CompareLenCovers(w, head.mask);
    if !head.root {
      EntryIsLongest(w, t, v, 0, l);
    } else if |x.chain| > 1 {
      SecondIsNet(w, x.key, x.chain, l);
      EntryIsLongest(w, t, v, 1, l);
    }
  }

  /** Scanning a chain after c < w equal bits. */
  lemma ScanChain(w: nat, key: Bits, chain: seq<Entry>, l: nat, v: Bits, c: nat, i: nat)
    requires |key| == |v| == w && ChainOk(w, key, chain, l) && c == Differ(v, key, 0) < w
    requires i == FirstAtMost(EntryRank(w), chain, c)
    ensures i < |chain| ==> !chain[i].root && Covers(Route(key, chain[i].mask), v)
    ensures forall j | 0 <= j < i :: !Covers(Route(key, chain[j].mask), v)
    ensures i == |chain| ==> forall j | 0 <= j < |chain| && chain[j].mask.Net? :: chain[j].mask.len > c
  {
    FirstAtMostCorrect(EntryRank(w), chain, c);
    forall j | 0 <= j < |chain| && (j <= i || chain[j].mask.Net?)
      ensures Covers(Route(key, chain[j].mask), v) <==> EntryRank(w)(chain[j]) <= c
    {
      assert chain[j] in chain && RouteOk(w, Route(key, chain[j].mask));
      if chain[j].mask.Net? { CoversIff(w, Route(key, chain[j].mask), v); }
    }
    forall j | 0 <= j < i ensures EntryRank(w)(chain[j]) > c {
      if i < |chain| { assert Higher(EntryRank(w), chain, j, i); }
      assert chain[j] in chain;
    }
  }

  /** Match with a difference that no net of the found leaf survives. */
  lemma ClimbMatch(w: nat, t: Tree, v: Bits)
    requires Valid(w, t) && |v| == w && Differ(v, Search(t, v).key, 0) < w
    requires var x := Search(t, v);
      forall j | 0 <= j < |x.chain| && x.chain[j].mask.Net? :: x.chain[j].mask.len > Differ(v, x.key, 0)
    ensures var r := Climb(w, t, v, Differ(v, Search(t, v).key, 0));
      IsLongest(w, Routes(t), v, if r.Some? then Found(r.value) else NoMatch)
  {
    var x := Search(t, v);
    var c := Differ(v, x.key, 0);
    LeafTidy(w, t, v, 0);
    forall r | r in Routes(t) && r.mask.Net? && r.key == x.key ensures r.mask.len > c {
      assert r in Routes(x);
    }
    ClimbIsLongest(w, t, v, 0, c);
    NoHostCovers(w, t, v);
    OnlyOneOfLength(w, Routes(t), v, Climb(w, t, v, c));
  }

  lemma NoHostCovers(w: nat, t: Tree, v: Bits)
    requires Valid(w, t) && |v| == w && Differ(v, Search(t, v).key, 0) < w
    ensures forall r | r in Routes(t) :: RouteOk(w, r) && (r.mask.Host? ==> !Covers(r, v))
  {
    RoutesTidy(w, t, 0);
    forall r | r in Routes(t) && r.mask.Host? ensures !Covers(r, v) {
      SearchIsClosest(w, t, v, 0, r.key);
    }
  }

  lemma OnlyOneOfLength(w: nat, routes: set<Route>, v: Bits, res: Option<Route>)
    requires |v| == w && forall r | r in routes :: RouteOk(w, r) && (r.mask.Host? ==> !Covers(r, v))
    requires LongestNet(routes, v, 0, res)
    ensures IsLongest(w, routes, v, if res.Some? then Found(res.value) else NoMatch)
  {
    if res.Some? {
      forall r | r in routes && Covers(r, v) && r != res.value ensures r.mask.len < res.value.mask.len {
        if r.mask.len == res.value.mask.len {
          CoveringKey(w, r, res.value.key, v);
        }
      }
    }
  }

  /** Whatever was stored, match returns exactly the longest route that covers
      the key, and nothing when none does; only for a sentinel key under which
      no route is stored does it return the sentinel itself. */
  lemma MatchIsLongest(w: nat, t: Tree, v: Bits)
    requires Valid(w, t) && |v| == w
    ensures Match(w, t, v) == RootLeaf <==> Sentinel(v) && forall r | r in Routes(t) :: r.key != v
    ensures Match(w, t, v) != RootLeaf ==> IsLongest(w, Routes(t), v, Match(w, t, v))
  {
    var x := Search(t, v);
    LeafTidy(w, t, v, 0);
    var l: nat :| ChainOk(w, x.key, x.chain, l);
    RootLeafIff(w, t, v, l);
    var c := Differ(v, x.key, 0);
    if c >= CompareLen(w, x.chain[0].mask) {
      ExactMatch(w, t, v, l);
    } else {
      assert RouteOk(w, Route(x.key, x.chain[0].mask));
      CompareLenCovers(w, x.chain[0].mask);
      var i := FirstAtMost(EntryRank(w), x.chain, c);
      ScanChain(w, x.key, x.chain, l, v, c, i);
      if i < |x.chain| {
        EntryIsLongest(w, t, v, i, l);
      } else {
        ClimbMatch(w, t, v);
      }
    }
  }

  lemma SentinelFound(w: nat, t: Tree, v: Bits)
    requires Valid(w, t) && |v| == w && Sentinel(v)
    ensures Search(t, v).key == v
  {
    assert v == seq(w, _ => false) || v == seq(w, _ => true);
    SearchIsClosest(w, t, v, 0, v);
  }

  lemma RootLeafIff(w: nat, t: Tree, v: Bits, l: nat)
    requires Valid(w, t) && |v| == w
    requires ChainOk(w, Search(t, v).key, Search(t, v).chain, l)
    ensures Match(w, t, v) == RootLeaf <==> Sentinel(v) && forall r | r in Routes(t) :: r.key != v
  {
    var x := Search(t, v);
    var c := Differ(v, x.key, 0);
    assert x.chain[0] in x.chain;
    if Match(w, t, v) == RootLeaf {
      assert c == w && x.key == v && Sentinel(v);
      LeafTidy(w, t, v, 0);
      assert Routes(x) == {};
    } else if Sentinel(v) {
      SentinelFound(w, t, v);
      LeafTidy(w, t, v, 0);
      assert Higher(EntryRank(w), x.chain, 0, 1);
      assert x.chain[1] in x.chain && Route(v, x.chain[1].mask) in Routes(x);
    }
  }
}
