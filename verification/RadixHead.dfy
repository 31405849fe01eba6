/** The loops of squid_rn_search, squid_rn_match and squid_rn_addroute.  A path of
    the nodes passed on the way down stands in for the parent pointers. */
module RadixHead {
  import opened Wrappers
  import opened Ranked
  import opened Radix
  import opened RadixAdd
  import opened RadixRun

  // ---------- Paths ----------

  /** A node passed on the way down, without the side that was taken. */
  datatype Frame = Frame(b: nat, masks: seq<Route>, right: bool, other: Tree)

  function FrameOf(t: Tree, v: Bits): Frame
    requires t.Node?
  {
    Frame(t.b, t.masks, Bit(v, t.b), if Bit(v, t.b) then t.left else t.right)
  }

  function Grow(f: Frame, t: Tree): Tree {
    if f.right then Node(f.b, f.masks, f.other, t) else Node(f.b, f.masks, t, f.other)
  }

  function Plug(path: seq<Frame>, t: Tree): Tree {
    if path == [] then t else Grow(path[0], Plug(path[1..], t))
  }

  lemma {:induction false} PlugLast(path: seq<Frame>, f: Frame, t: Tree)
    ensures Plug(path + [f], t) == Plug(path, Grow(f, t))
  {
    if path == [] {
      assert [f][1..] == [];
    } else {
      assert (path + [f])[1..] == path[1..] + [f];
      PlugLast(path[1..], f, t);
    }
  }

  /** The nodes that test a bit before d, on the way to v. */
  ghost function Path(t: Tree, v: Bits, d: nat): seq<Frame> {
    if t.Node? && t.b < d then [FrameOf(t, v)] + Path(Child(t, v), v, d) else []
  }

  /** Where that path ends, and the bit after the last one tested. */
  ghost function End(t: Tree, v: Bits, lo: nat, d: nat): (Tree, nat) {
    if t.Node? && t.b < d then End(Child(t, v), v, t.b + 1, d) else (t, lo)
  }

  lemma {:induction false} EndIsLeaf(w: nat, t: Tree, v: Bits, lo: nat)
    requires Tidy(w, t, lo) && |v| == w
    ensures End(t, v, lo, w).0 == Search(t, v)
    decreases t
  {
    if t.Node? { EndIsLeaf(w, Child(t, v), v, t.b + 1); }
  }

  lemma {:induction false} EndStops(t: Tree, v: Bits, lo: nat, d: nat)
    ensures var e := End(t, v, lo, d).0; e.Node? ==> e.b >= d
  {
    if t.Node? && t.b < d { EndStops(Child(t, v), v, t.b + 1, d); }
  }

  /** Down to the leaf for v, or to the first node at bit d or later. */
  method Descend(top: Tree, v: Bits, d: nat) returns (path: seq<Frame>, t: Tree, lo: nat)
    ensures path == Path(top, v, d) && (t, lo) == End(top, v, 0, d)
  {
    path, t, lo := [], top, 0;
    while t.Node? && t.b < d
      invariant path + Path(t, v, d) == Path(top, v, d)
      invariant End(t, v, lo, d) == End(top, v, 0, d)
      decreases t
    {
      ghost var f, rest := FrameOf(t, v), Path(Child(t, v), v, d);
      assert path + ([f] + rest) == (path + [f]) + rest;
      path := path + [FrameOf(t, v)];
      t, lo := Child(t, v), t.b + 1;
    }
  }

  method FirstDifference(a: Bits, b: Bits) returns (n: nat)
    requires |a| == |b|
    ensures n == Differ(a, b, 0)
  {
    n := 0;
    while n < |a| && a[n] == b[n]
      invariant n <= |a| && Differ(a, b, n) == Differ(a, b, 0)
    {
      n := n + 1;
    }
  }

  // ---------- Match ----------

  /** Up the first n nodes of a path. */
  ghost function ClimbPath(w: nat, path: seq<Frame>, c: nat, n: nat): Option<Route>
    requires n <= |path|
  {
    if n == 0 then None
    else
      var own := FirstListed(w, path[n - 1].masks, c);
      if own.Some? then own else ClimbPath(w, path, c, n - 1)
  }

  lemma {:induction false} ClimbPathFirst(w: nat, f: Frame, path: seq<Frame>, c: nat, n: nat)
    requires n <= |path|
    ensures ClimbPath(w, [f] + path, c, n + 1) ==
      if ClimbPath(w, path, c, n).Some? then ClimbPath(w, path, c, n) else FirstListed(w, f.masks, c)
  {
    assert ([f] + path)[n] == if n == 0 then f else path[n - 1];
    if n > 0 { ClimbPathFirst(w, f, path, c, n - 1); }
  }

  /** A path that reaches a leaf has all the nodes to climb. */
  lemma {:induction false} ClimbIsPath(w: nat, t: Tree, v: Bits, c: nat, lo: nat, d: nat, path: seq<Frame>)
    requires path == Path(t, v, d) && End(t, v, lo, d).0.Leaf?
    ensures Climb(w, t, v, c) == ClimbPath(w, path, c, |path|)
    decreases t
  {
    if t.Node? {
      var rest := Path(Child(t, v), v, d);
      assert path == [FrameOf(t, v)] + rest;
      ClimbIsPath(w, Child(t, v), v, c, t.b + 1, d, rest);
      ClimbPathFirst(w, FrameOf(t, v), rest, c, |rest|);
    }
  }

  method ScanRanked<T>(rank: T -> int, s: seq<T>, c: int) returns (k: nat)
    ensures k == FirstAtMost(rank, s, c)
  {
    k := 0;
    while k < |s| && rank(s[k]) > c
      invariant k <= |s| && k + FirstAtMost(rank, s[k..], c) == FirstAtMost(rank, s, c)
    {
      k := k + 1;
    }
  }

  method ClimbUp(w: nat, path: seq<Frame>, c: nat) returns (r: Option<Route>)
    ensures r == ClimbPath(w, path, c, |path|)
  {
    var n := |path|;
    r := None;
    while n > 0 && r.None?
      invariant 0 <= n <= |path|
      invariant (if r.Some? then r else ClimbPath(w, path, c, n)) == ClimbPath(w, path, c, |path|)
    {
      n := n - 1;
      var i := ScanRanked(RouteRank(w), path[n].masks, c);
      if i < |path[n].masks| { r := Some(path[n].masks[i]); }
    }
  }

  // ---------- Adding a route ----------

  function RelistOne(w: nat, f: Frame, r: Route, lo: nat): Frame {
    f.(masks := Listed(w, f.masks, r, lo, f.b))
  }

  /** r on the list that it belongs to along a path. */
  ghost function Relist(w: nat, path: seq<Frame>, r: Route, lo: nat): seq<Frame> {
    if path == [] then []
    else [RelistOne(w, path[0], r, lo)] + Relist(w, path[1..], r, path[0].b + 1)
  }

  ghost predicate Above(path: seq<Frame>, i: int, j: int)
    requires 0 <= i < j < |path|
  {
    path[i].b < path[j].b
  }

  ghost predicate Ascending(path: seq<Frame>) {
    forall i, j | 0 <= i < j < |path| :: Above(path, i, j)
  }

  lemma {:induction false} PathAscends(w: nat, t: Tree, v: Bits, lo: nat, d: nat)
    requires Tidy(w, t, lo) && |v| == w
    ensures var path := Path(t, v, d); Ascending(path) && (path != [] ==> lo <= path[0].b)
    decreases t
  {
    if t.Node? && t.b < d {
      PathAscends(w, Child(t, v), v, t.b + 1, d);
      AscendingFirst(FrameOf(t, v), Path(Child(t, v), v, d));
    }
  }

  lemma AscendingFirst(f: Frame, path: seq<Frame>)
    requires Ascending(path) && (path != [] ==> f.b < path[0].b)
    ensures Ascending([f] + path)
  {
    var all := [f] + path;
    forall i, j | 0 <= i < j < |all| ensures Above(all, i, j) {
      if i > 0 {
        assert Above(path, i - 1, j - 1);
      } else if j > 1 {
        assert Above(path, 0, j - 1);
      }
    }
  }

  /** r on the list of node k alone, if there is a node k. */
  function ListedAt(w: nat, path: seq<Frame>, r: Route, k: nat): seq<Frame> {
    if k < |path| then path[k := path[k].(masks := Insert(RouteRank(w), path[k].masks, r))] else path
  }

  lemma ListedLater(w: nat, path: seq<Frame>, r: Route, k: nat)
    requires path != [] && k > 0
    ensures ListedAt(w, path, r, k) == [path[0]] + ListedAt(w, path[1..], r, k - 1)
  {
  }

  lemma ListedFirst(w: nat, path: seq<Frame>, r: Route)
    requires path != []
    ensures ListedAt(w, path, r, 0) == [path[0].(masks := Insert(RouteRank(w), path[0].masks, r))] + path[1..]
  {
  }

  /** With bits ascending, only the highest node whose bit the mask does not pass
      has its list changed. */
  lemma {:induction false} RelistAt(w: nat, path: seq<Frame>, r: Route, lo: nat, k: nat)
    requires Ascending(path) && k <= |path| && r.mask.Net?
    requires forall i | 0 <= i < k :: path[i].b < r.mask.len
    requires k < |path| ==> r.mask.len <= path[k].b && lo <= r.mask.len
    ensures Relist(w, path, r, lo) == ListedAt(w, path, r, k)
  {
    if path != [] {
      AscendingRest(path);
      if k == 0 {
        RelistNone(w, path[1..], r, path[0].b + 1);
        ListedFirst(w, path, r);
      } else {
        RelistAt(w, path[1..], r, path[0].b + 1, k - 1);
        ListedLater(w, path, r, k);
        assert RelistOne(w, path[0], r, lo) == path[0];
      }
    }
  }

  lemma {:induction false} RelistNone(w: nat, path: seq<Frame>, r: Route, lo: nat)
    requires r.mask.Host? || r.mask.len < lo
    requires Ascending(path) && (path != [] ==> lo <= path[0].b)
    ensures Relist(w, path, r, lo) == path
  {
    if path != [] {
      assert RelistOne(w, path[0], r, lo) == path[0];
      AscendingRest(path);
      RelistNone(w, path[1..], r, path[0].b + 1);
      assert [path[0]] + path[1..] == path;
    }
  }

  lemma AscendingRest(path: seq<Frame>)
    requires path != [] && Ascending(path)
    ensures Ascending(path[1..]) && (|path| > 1 ==> path[0].b + 1 <= path[1].b)
  {
    var rest := path[1..];
    forall i, j | 0 <= i < j < |rest| ensures Above(rest, i, j) {
      assert Above(path, i + 1, j + 1);
    }
    if |path| > 1 { assert Above(path, 0, 1); }
  }

  /** An addition works at the end of the path and on the lists along it. */
  lemma {:induction false} AddIsPlug(w: nat, t: Tree, r: Route, lo: nat, d: nat, x: Tree)
    requires var e := End(t, r.key, lo, d); x == Add(w, e.0, r, e.1, d)
    ensures Add(w, t, r, lo, d) == Plug(Relist(w, Path(t, r.key, d), r, lo), x)
  {
    if t.Node? && t.b < d {
      var c := Child(t, r.key);
      AddIsPlug(w, c, r, t.b + 1, d, x);
      PlugRelist(w, FrameOf(t, r.key), Path(c, r.key, d), r, lo, x);
      AddIsGrow(w, t, r, lo, d);
    }
  }

  lemma AddIsGrow(w: nat, t: Tree, r: Route, lo: nat, d: nat)
    requires t.Node? && t.b < d
    ensures Add(w, t, r, lo, d) == Grow(RelistOne(w, FrameOf(t, r.key), r, lo), Add(w, Child(t, r.key), r, t.b + 1, d))
  {
  }

  lemma PlugRelist(w: nat, f: Frame, path: seq<Frame>, r: Route, lo: nat, x: Tree)
    ensures Plug(Relist(w, [f] + path, r, lo), x) == Grow(RelistOne(w, f, r, lo), Plug(Relist(w, path, r, f.b + 1), x))
  {
    var more := Relist(w, path, r, f.b + 1);
    assert ([f] + path)[1..] == path;
    assert ([RelistOne(w, f, r, lo)] + more)[1..] == more;
  }

  lemma {:induction false} InsertAt<T>(rank: T -> int, s: seq<T>, x: T, k: nat)
    requires k == FirstAtMost(rank, s, rank(x))
    ensures Insert(rank, s, x) == if k < |s| && rank(s[k]) == rank(x) then s else s[..k] + [x] + s[k..]
  {
    if s != [] && rank(s[0]) > rank(x) {
      var rest := s[1..];
      InsertAt(rank, rest, x, k - 1);
      assert s == [s[0]] + rest && s[..k] == [s[0]] + rest[..k - 1] && s[k..] == rest[k - 1..];
    }
  }

  /** Refused where the rank is taken. */
  method InsertRanked<T>(rank: T -> int, s: seq<T>, x: T) returns (t: seq<T>, taken: bool)
    ensures t == Insert(rank, s, x)
    ensures Descending(rank, s) ==> (taken <==> exists y | y in s :: rank(y) == rank(x))
  {
    var k := ScanRanked(rank, s, rank(x));
    InsertAt(rank, s, x, k);
    if Descending(rank, s) { FirstAtMostCorrect(rank, s, rank(x)); }
    taken := k < |s| && rank(s[k]) == rank(x);
    t := if taken then s else s[..k] + [x] + s[k..];
  }

  /** The highest node of the path whose bit the mask does not pass lists it. */
  method ListOnPath(w: nat, path: seq<Frame>, r: Route) returns (path': seq<Frame>)
    requires Ascending(path)
    ensures path' == Relist(w, path, r, 0)
  {
    if r.mask.Host? {
      RelistNone(w, path, r, 0);
      return path;
    }
    var k := |path|;
    while k > 0 && r.mask.len <= path[k - 1].b
      invariant 0 <= k <= |path|
      invariant k < |path| ==> r.mask.len <= path[k].b
    {
      k := k - 1;
    }
    forall i | 0 <= i < k ensures path[i].b < r.mask.len {
      if i < k - 1 { assert Above(path, i, k - 1); }
    }
    RelistAt(w, path, r, 0, k);
    path' := path;
    if k < |path| {
      var masks, _ := InsertRanked(RouteRank(w), path[k].masks, r);
      path' := path[k := path[k].(masks := masks)];
    }
  }

  /** Back up: the tree with t at the end of the path. */
  method PlugUp(path: seq<Frame>, t: Tree) returns (top: Tree)
    ensures top == Plug(path, t)
  {
    var n := |path|;
    top := t;
    assert path[..n] == path;
    while n > 0
      invariant 0 <= n <= |path| && Plug(path[..n], top) == Plug(path, t)
    {
      n := n - 1;
      PlugLast(path[..n], path[n], top);
      assert path[..n + 1] == path[..n] + [path[n]];
      top := Grow(path[n], top);
    }
  }

  method PromoteChain(key: Bits, chain: seq<Entry>, d: nat) returns (up: seq<Route>, chain': seq<Entry>)
    ensures up == Promoted(key, chain, d) && chain' == Lifted(chain, d)
  {
    up, chain' := [], [];
    for i := 0 to |chain|
      invariant up + Promoted(key, chain[i..], d) == Promoted(key, chain, d)
      invariant chain' == Lifted(chain, d)[..i]
    {
      if Short(chain[i].mask, d) && !chain[i].lifted {
        up := up + [Route(key, chain[i].mask)];
      }
      chain' := chain' + [Lift(chain[i], d)];
    }
  }

  /** squid_rn_newpair with the masks that move up from below. */
  method NewPair(w: nat, t: Tree, r: Route, lo: nat, d: nat) returns (t': Tree)
    ensures t' == Fork(w, t, r, lo, d)
  {
    var masks, kept;
    match t {
      case Leaf(key, chain) =>
        var chain';
        masks, chain' := PromoteChain(key, chain, d);
        kept := Leaf(key, chain');
      case Node(b, ms, left, right) =>
        var k := ScanRanked(RouteRank(w), ms, d);
        masks, kept := ms[k..], Node(b, ms[..k], left, right);
    }
    if Short(r.mask, d) && lo <= r.mask.len {
      var taken;
      masks, taken := InsertRanked(RouteRank(w), masks, r);
    }
    var leaf := Leaf(r.key, [Entry(r.mask, false, Short(r.mask, d))]);
    t' := if Bit(r.key, d) then Node(d, masks, kept, leaf) else Node(d, masks, leaf, kept);
  }

  /** A sorted chain has room for a mask exactly when it is not there yet. */
  lemma TakenIff(w: nat, key: Bits, chain: seq<Entry>, l: nat, m: Mask)
    requires ChainOk(w, key, chain, l) && (m.Net? ==> m.len <= w)
    ensures (exists e | e in chain :: EntryRank(w)(e) == MaskRank(w, m)) <==> (exists e | e in chain :: e.mask == m)
  {
    forall e | e in chain ensures EntryRank(w)(e) == MaskRank(w, m) <==> e.mask == m {
      assert RouteOk(w, Route(key, e.mask));
    }
  }

  class Head {
    const w: nat
    var top: Tree
    /** Everything that was ever passed to AddRoute. */
    ghost var added: seq<Route>

    ghost predicate Valid() reads this {
      w >= 1 && AllOk(w, added) && top == Build(w, added)
    }

    constructor (w: nat)
      requires w >= 1
      ensures Valid() && this.w == w && added == []
    {
      this.w, top, added := w, InitTree(w), [];
    }

    /** What a linear scan over everything added so far finds. */
    method Lookup(v: Bits) returns (res: Result)
      requires Valid() && |v| == w
      ensures res == Match(w, top, v)
      ensures !Sentinel(v) ==> res == Scan(w, added, v)
    {
      var path, x, _ := Descend(top, v, w);
      EndIsLeaf(w, top, v, 0);
      LeafTidy(w, top, v, 0);
      RoutesTidy(w, top, 0);
      if !Sentinel(v) { MatchIsScan(w, added, v); }
      var c := FirstDifference(v, x.key);
      var head := x.chain[0];
      if c >= CompareLen(w, head.mask) {
        if head.root && |x.chain| > 1 { return Found(Route(x.key, x.chain[1].mask)); }
        return if head.root then RootLeaf else Found(Route(x.key, head.mask));
      }
      var i := ScanRanked(EntryRank(w), x.chain, c);
      if i < |x.chain| { return Found(Route(x.key, x.chain[i].mask)); }
      ClimbIsPath(w, top, v, c, 0, w, path);
      var r := ClimbUp(w, path, c);
      res := if r.Some? then Found(r.value) else NoMatch;
    }

    /** Refused exactly when it was added before or is for a sentinel itself. */
    method Add(r: Route) returns (ok: bool)
      requires Valid() && RouteOk(w, r)
      modifies this
      ensures Valid() && added == old(added) + [r]
      ensures ok <==> r !in old(added) && Acceptable(r)
      ensures !ok ==> top == old(top)
    {
      AddRouteOk(w, top, r);
      BuildLast(w, added, r);
      added := added + [r];
      var t, taken := Attach(w, top, r);
      ok := !taken;
      if ok { top := t; }
    }
  }

  lemma BuildLast(w: nat, rs: seq<Route>, r: Route)
    requires w >= 1 && AllOk(w, rs) && RouteOk(w, r)
    ensures AllOk(w, rs + [r])
    ensures Build(w, rs + [r]) == var t := AddRoute(w, Build(w, rs), r); if t.Some? then t.value else Build(w, rs)
  {
    assert (rs + [r])[..|rs|] == rs;
  }

  /** Where a route goes: the path to it and what is then at its end. */
  method Prepare(w: nat, top: Tree, r: Route) returns (path: seq<Frame>, t: Tree, taken: bool, ghost d: nat)
    requires Radix.Valid(w, top) && RouteOk(w, r)
    ensures d == Differ(r.key, Search(top, r.key).key, 0) && taken == AddRoute(w, top, r).None?
    ensures !taken ==> var e := End(top, r.key, 0, d); path == Path(top, r.key, d) && t == RadixAdd.Add(w, e.0, r, e.1, d)
  {
    var x, lo;
    path, x, lo := Descend(top, r.key, w);
    EndIsLeaf(w, top, r.key, 0);
    LeafTidy(w, top, r.key, 0);
    RoutesTidy(w, top, 0);
    var c := FirstDifference(r.key, x.key);
    d, t, taken := c, x, false;
    if c == w {
      var e := Entry(r.mask, false, r.mask.Net? && r.mask.len < lo);
      var chain;
      chain, taken := InsertRanked(EntryRank(w), x.chain, e);
      ghost var l: nat :| ChainOk(w, x.key, x.chain, l);
      TakenIff(w, x.key, x.chain, l, r.mask);
      t := Leaf(x.key, chain);
    } else {
      path, x, lo := Descend(top, r.key, c);
      EndStops(top, r.key, 0, c);
      t := NewPair(w, x, r, lo, c);
    }
  }

  method Attach(w: nat, top: Tree, r: Route) returns (top': Tree, taken: bool)
    requires Radix.Valid(w, top) && RouteOk(w, r)
    ensures taken == AddRoute(w, top, r).None? && (!taken ==> Some(top') == AddRoute(w, top, r))
  {
    var path, t;
    ghost var d;
    path, t, taken, d := Prepare(w, top, r);
    top' := top;
    if !taken {
      PathAscends(w, top, r.key, 0, d);
      AddIsPlug(w, top, r, 0, d, t);
      path := ListOnPath(w, path, r);
      top' := PlugUp(path, t);
    }
  }
}
