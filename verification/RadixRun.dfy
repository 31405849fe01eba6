/** Whole runs of additions: lookups in the tree they build agree with a linear
    scan over everything that was added. */
module RadixRun {
  import opened Wrappers
  import opened Radix
  import opened RadixAdd

  ghost predicate AllOk(w: nat, rs: seq<Route>) { forall r | r in rs :: RouteOk(w, r) }

  /** A host route for a sentinel's own key is never accepted. */
  predicate Acceptable(r: Route) { r.mask.Host? ==> !Sentinel(r.key) }

  function All(rs: seq<Route>): set<Route> { set r | r in rs }

  function Stored(rs: seq<Route>): set<Route> { set r | r in rs && Acceptable(r) }

  /** The tree after the additions rs, in order; what is refused changes nothing. */
  function Build(w: nat, rs: seq<Route>): (t: Tree)
    requires w >= 1 && AllOk(w, rs)
    ensures Valid(w, t) && Routes(t) == Stored(rs)
  {
    if rs == [] then
      InitValid(w);
      InitTree(w)
    else
      var n := |rs| - 1;
      assert rs == rs[..n] + [rs[n]];
      var t := Build(w, rs[..n]);
      AddRouteOk(w, t, rs[n]);
      var added := AddRoute(w, t, rs[n]);
      if added.Some? then added.value else t
  }

  /** Reference: the best of all routes that cover v, by looking at each. */
  function Scan(w: nat, rs: seq<Route>, v: Bits): Result {
    if rs == [] then NoMatch
    else
      var n := |rs| - 1;
      var best := Scan(w, rs[..n], v);
      if Covers(rs[n], v) && (!best.Found? || MaskRank(w, best.route.mask) < MaskRank(w, rs[n].mask))
      then Found(rs[n]) else best
  }

  /** No two covering routes rank the same. */
  lemma CoveringDiffer(w: nat, a: Route, b: Route, v: Bits)
    requires RouteOk(w, a) && RouteOk(w, b) && |v| == w && Covers(a, v) && Covers(b, v)
    requires MaskRank(w, a.mask) == MaskRank(w, b.mask)
    ensures a == b
  {
    if a.mask.Net? { CoveringKey(w, a, b.key, v); }
  }

  lemma {:induction false} ScanIsLongest(w: nat, rs: seq<Route>, v: Bits)
    requires AllOk(w, rs) && |v| == w
    ensures IsLongest(w, All(rs), v, Scan(w, rs, v))
  {
    if rs != [] {
      var n := |rs| - 1;
      assert rs == rs[..n] + [rs[n]];
      ScanIsLongest(w, rs[..n], v);
      var best := Scan(w, rs[..n], v);
      if Covers(rs[n], v) && best.Found? && MaskRank(w, best.route.mask) == MaskRank(w, rs[n].mask) {
        CoveringDiffer(w, best.route, rs[n], v);
      }
    }
  }

  lemma LongestUnique(w: nat, routes: set<Route>, v: Bits, a: Result, b: Result)
    requires IsLongest(w, routes, v, a) && IsLongest(w, routes, v, b)
    ensures a == b
  {
  }

  /** For every run of additions and every key but the two sentinels, match finds
      exactly what a linear scan over all additions finds. */
  lemma MatchIsScan(w: nat, rs: seq<Route>, v: Bits)
    requires w >= 1 && AllOk(w, rs) && |v| == w && !Sentinel(v)
    ensures Match(w, Build(w, rs), v) == Scan(w, rs, v)
  {
    MatchIsLongest(w, Build(w, rs), v);
    ScanIsLongest(w, rs, v);
    assert IsLongest(w, All(rs), v, Match(w, Build(w, rs), v));
    LongestUnique(w, All(rs), v, Match(w, Build(w, rs), v), Scan(w, rs, v));
  }

  /** The key lies in the prefix, bit by bit. */
  ghost predicate InPrefix(r: Route, v: Bits) {
    if r.mask.Host? then r.key == v else r.mask.len <= |r.key| && r.mask.len <= |v| && r.key[..r.mask.len] == v[..r.mask.len]
  }

  /** A host route is more specific than any net, a longer net than a shorter. */
  ghost predicate MoreSpecific(a: Mask, b: Mask) {
    b.Net? && (a.Host? || a.len > b.len)
  }

  /** The same for a reader of routes as keys and prefix lengths: an answer is one
      of the routes added, its prefix holds the key, and every other such route is
      less specific; without an answer there is no such route. */
  lemma MatchMeans(w: nat, rs: seq<Route>, v: Bits)
    requires w >= 1 && AllOk(w, rs) && |v| == w && !Sentinel(v)
    ensures var res := Match(w, Build(w, rs), v);
      && (res == NoMatch <==> forall r | r in rs :: !InPrefix(r, v))
      && (res != NoMatch ==> res.Found? && res.route in rs && InPrefix(res.route, v))
      && (res.Found? ==> forall r | r in rs && r != res.route && InPrefix(r, v) :: MoreSpecific(res.route.mask, r.mask))
  {
    MatchIsScan(w, rs, v);
    ScanIsLongest(w, rs, v);
    forall r | r in rs ensures InPrefix(r, v) <==> Covers(r, v) {
      PrefixIsCover(w, r, v);
    }
    forall r, q | r in rs && q in rs && MaskRank(w, q.mask) < MaskRank(w, r.mask) ensures MoreSpecific(r.mask, q.mask) {
      assert RouteOk(w, r) && RouteOk(w, q);
    }
  }

  lemma PrefixIsCover(w: nat, r: Route, v: Bits)
    requires RouteOk(w, r) && |v| == w
    ensures InPrefix(r, v) <==> Covers(r, v)
  {
    if r.mask.Net? && InPrefix(r, v) {
      forall i | 0 <= i < r.mask.len ensures r.key[i] == v[i] {
        assert r.key[..r.mask.len][i] == v[..r.mask.len][i];
      }
    }
  }

  /** The order of additions and repetitions never shows in a lookup. */
  lemma OrderIrrelevant(w: nat, rs: seq<Route>, rs': seq<Route>, v: Bits)
    requires w >= 1 && AllOk(w, rs) && AllOk(w, rs') && |v| == w && Stored(rs) == Stored(rs')
    ensures Match(w, Build(w, rs), v) == Match(w, Build(w, rs'), v)
  {
    MatchIsLongest(w, Build(w, rs), v);
    MatchIsLongest(w, Build(w, rs'), v);
    if Match(w, Build(w, rs), v) != RootLeaf {
      LongestUnique(w, Stored(rs), v, Match(w, Build(w, rs), v), Match(w, Build(w, rs'), v));
    }
  }
}
