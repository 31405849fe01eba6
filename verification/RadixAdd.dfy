/** Adding routes to the tree: squid_rn_inithead, squid_rn_insert and
    squid_rn_addroute of squid-2.7.STABLE9/lib/radix.c. */
module RadixAdd {
  import opened Wrappers
  import opened Ranked
  import opened Radix

  // ---------- Adding routes ----------

  /** squid_rn_inithead: the two sentinel leaves under a node at the first bit. */
  function InitTree(w: nat): Tree {
    var sentinel := Entry(Host, true, false);
    Node(0, [], Leaf(seq(w, _ => false), [sentinel]), Leaf(seq(w, _ => true), [sentinel]))
  }

  lemma InitValid(w: nat)
    requires w >= 1
    ensures Valid(w, InitTree(w)) && Routes(InitTree(w)) == {}
  {
    var zeros, ones := seq(w, _ => false), seq(w, _ => true);
    assert Tidy(w, Leaf(zeros, [Entry(Host, true, false)]), 1);
    assert Tidy(w, Leaf(ones, [Entry(Host, true, false)]), 1);
    assert Keys(InitTree(w)) == {zeros, ones};
  }

  predicate Short(m: Mask, d: nat) { m.Net? && m.len <= d }

  /** The routes of a leaf that a new node at bit d above it takes on its list. */
  function Promoted(key: Bits, chain: seq<Entry>, d: nat): seq<Route> {
    if chain == [] then []
    else
      var rest := Promoted(key, chain[1..], d);
      if Short(chain[0].mask, d) && !chain[0].lifted then [Route(key, chain[0].mask)] + rest else rest
  }

  function Lift(e: Entry, d: nat): Entry { e.(lifted := e.lifted || Short(e.mask, d)) }

  function Lifted(chain: seq<Entry>, d: nat): seq<Entry> {
    seq(|chain|, i requires 0 <= i < |chain| => Lift(chain[i], d))
  }

  /** What a new node at bit d above t takes from t, and t afterwards. */
  function Promote(w: nat, t: Tree, d: nat): (seq<Route>, Tree) {
    match t
    case Leaf(key, chain) => (Promoted(key, chain, d), Leaf(key, Lifted(chain, d)))
    case Node(b, masks, l, r) =>
      var k := FirstAtMost(RouteRank(w), masks, d);
      (masks[k..], Node(b, masks[..k], l, r))
  }

  /** The list of a node at bit b under a parent at bit lo - 1, after r was added
      below: r goes to the highest node whose bit its mask does not pass. */
  function Listed(w: nat, masks: seq<Route>, r: Route, lo: nat, b: nat): seq<Route> {
    if Short(r.mask, b) && lo <= r.mask.len then Insert(RouteRank(w), masks, r) else masks
  }

  /** A new node at bit d with a new leaf for r on one side and t on the other. */
  function Fork(w: nat, t: Tree, r: Route, lo: nat, d: nat): Tree {
    var leaf := Leaf(r.key, [Entry(r.mask, false, Short(r.mask, d))]);
    var (up, kept) := Promote(w, t, d);
    var masks := Listed(w, up, r, lo, d);
    if Bit(r.key, d) then Node(d, masks, kept, leaf) else Node(d, masks, leaf, kept)
  }

  /** squid_rn_insert and the rest of squid_rn_addroute; d is the first bit where
      the key differs from the leaf that search finds, or w. */
  function Add(w: nat, t: Tree, r: Route, lo: nat, d: nat): Tree
  {
    if t.Node? && t.b < d then
      var c := Add(w, Child(t, r.key), r, t.b + 1, d);
      Replaced(t, r.key, Listed(w, t.masks, r, lo, t.b), c)
    else if d < w then Fork(w, t, r, lo, d)
    else if t.Leaf? then
      Leaf(t.key, Insert(EntryRank(w), t.chain, Entry(r.mask, false, r.mask.Net? && r.mask.len < lo)))
    else t
  }

  /** squid_rn_addroute: refused when the leaf already has the mask. */
  function AddRoute(w: nat, t: Tree, r: Route): Option<Tree>
    requires Valid(w, t) && |r.key| == w
  {
    var x := Search(t, r.key);
    var d := Differ(r.key, x.key, 0);
    if d == w && exists e | e in x.chain :: e.mask == r.mask then None
    else Some(Add(w, t, r, 0, d))
  }

  lemma {:induction false} PromotedIs(w: nat, key: Bits, chain: seq<Entry>, d: nat, lo: nat)
    requires Descending(EntryRank(w), chain)
    requires forall e | e in chain :: e.lifted <==> e.mask.Net? && e.mask.len < lo
    ensures Descending(RouteRank(w), Promoted(key, chain, d))
    ensures forall r | r in Promoted(key, chain, d) :: r.key == key && Short(r.mask, d) && lo <= r.mask.len
    ensures forall r | r in Promoted(key, chain, d) :: exists e | e in chain :: e.mask == r.mask
    ensures forall e | e in chain && Short(e.mask, d) && lo <= e.mask.len :: Route(key, e.mask) in Promoted(key, chain, d)
  {
    if chain != [] {
      assert chain == [chain[0]] + chain[1..];
      Rest(EntryRank(w), chain);
      PromotedIs(w, key, chain[1..], d, lo);
      var rest := Promoted(key, chain[1..], d);
      forall r | r in rest ensures MaskRank(w, chain[0].mask) > RouteRank(w)(r) {
        var e :| e in chain[1..] && e.mask == r.mask;
        assert EntryRank(w)(chain[0]) > EntryRank(w)(e);
      }
      Prepended(RouteRank(w), Route(key, chain[0].mask), rest);
    }
  }

  /** Making room above t at bit d. */
  lemma PromoteLeaf(w: nat, t: Tree, d: nat, lo: nat)
    requires Tidy(w, t, lo) && t.Leaf? && lo <= d < w
    ensures var (up, kept) := Promote(w, t, d);
      && Tidy(w, kept, d + 1) && Keys(kept) == Keys(t) && Routes(kept) == Routes(t)
      && MasksOk(w, up, Routes(t), lo, d)
  {
    PromotedIs(w, t.key, t.chain, d, lo);
    LiftedIs(w, t.chain, d);
  }

  lemma LiftedIs(w: nat, s: seq<Entry>, d: nat)
    requires Descending(EntryRank(w), s)
    ensures var chain := Lifted(s, d);
      && |chain| == |s| && Descending(EntryRank(w), chain)
      && (forall e | e in chain :: exists e' | e' in s :: e == Lift(e', d))
      && (forall e' | e' in s :: Lift(e', d) in chain)
  {
    var chain := Lifted(s, d);
    forall i, j | 0 <= i < j < |chain| ensures Higher(EntryRank(w), chain, i, j) {
      assert Higher(EntryRank(w), s, i, j);
    }
    forall e | e in chain ensures exists e' | e' in s :: e == Lift(e', d) {
      var i :| 0 <= i < |chain| && chain[i] == e;
      assert s[i] in s;
    }
    forall e' | e' in s ensures Lift(e', d) in chain {
      var i :| 0 <= i < |chain| && s[i] == e';
      assert chain[i] == Lift(e', d);
    }
  }

  lemma PromoteNode(w: nat, t: Tree, d: nat, lo: nat)
    requires Tidy(w, t, lo) && t.Node? && lo <= d < t.b
    ensures var (up, kept) := Promote(w, t, d);
      && Tidy(w, kept, d + 1) && Keys(kept) == Keys(t) && Routes(kept) == Routes(t)
      && MasksOk(w, up, Routes(t), lo, d)
  {
    SplitMasks(w, t.masks, Routes(t), d, lo, t.b);
    var k := FirstAtMost(RouteRank(w), t.masks, d);
    Relisted(w, t, lo, d + 1, t.masks[..k]);
  }

  /** Another list for the same node. */
  lemma Relisted(w: nat, t: Tree, lo: nat, lo': nat, masks: seq<Route>)
    requires Tidy(w, t, lo) && t.Node? && lo' <= t.b && MasksOk(w, masks, Routes(t), lo', t.b)
    ensures var t' := t.(masks := masks); Tidy(w, t', lo') && Keys(t') == Keys(t) && Routes(t') == Routes(t)
  {
    var t' := t.(masks := masks);
    assert Routes(t') == Routes(t);
    assert Keys(t') == Keys(t);
    assert Tidy(w, t', lo');
  }

  lemma PromoteOk(w: nat, t: Tree, d: nat, lo: nat)
    requires Tidy(w, t, lo) && lo <= d < w && (t.Node? ==> d < t.b)
    ensures var (up, kept) := Promote(w, t, d);
      && Tidy(w, kept, d + 1) && Keys(kept) == Keys(t) && Routes(kept) == Routes(t)
      && MasksOk(w, up, Routes(t), lo, d)
  {
    if t.Leaf? { PromoteLeaf(w, t, d, lo); } else { PromoteNode(w, t, d, lo); }
  }

  lemma SplitMasks(w: nat, masks: seq<Route>, routes: set<Route>, d: nat, lo: nat, b: nat)
    requires MasksOk(w, masks, routes, lo, b) && lo <= d < b
    ensures var k := FirstAtMost(RouteRank(w), masks, d);
      MasksOk(w, masks[..k], routes, d + 1, b) && MasksOk(w, masks[k..], routes, lo, d)
  {
    var k := FirstAtMost(RouteRank(w), masks, d);
    FirstAtMostSplits(RouteRank(w), masks, d);
    assert masks == masks[..k] + masks[k..];
    forall r | r in masks ensures RouteRank(w)(r) == r.mask.len {}
    forall r | r in masks[..k] ensures r in masks && d < r.mask.len {}
    forall r | r in masks[k..] ensures r in masks && r.mask.len <= d {}
  }

  /** Two stored nets of one length over keys that agree that far are the same. */
  lemma SameNet(w: nat, a: Route, b: Route, n: nat)
    requires RouteOk(w, a) && RouteOk(w, b) && Agree(a.key, b.key, n)
    requires a.mask.Net? && a.mask == b.mask && a.mask.len <= n
    ensures a == b
  {
    CoveringKey(w, a, b.key, b.key);
  }

  /** Adding r to the list of the node that it belongs to. */
  lemma ListedOk(w: nat, masks: seq<Route>, routes: set<Route>, r: Route, lo: nat, b: nat)
    requires MasksOk(w, masks, routes, lo, b) && RouteOk(w, r) && r !in routes
    requires forall q | q in routes :: RouteOk(w, q) && Agree(q.key, r.key, b)
    ensures MasksOk(w, Listed(w, masks, r, lo, b), routes + {r}, lo, b)
  {
    if Short(r.mask, b) && lo <= r.mask.len {
      forall q | q in masks ensures RouteRank(w)(q) != RouteRank(w)(r) {
        if q.mask == r.mask { SameNet(w, q, r, b); }
      }
      InsertCorrect(RouteRank(w), masks, r);
    }
  }

  ghost predicate Added(w: nat, t: Tree, t': Tree, r: Route, lo: nat) {
    Tidy(w, t', lo) && Keys(t') == Keys(t) + {r.key} && Routes(t') == Routes(t) + {r}
  }

  /** What an addition needs: a route that is not there, whose key leaves the one
      that search finds at bit d. */
  ghost predicate CanAdd(w: nat, t: Tree, r: Route, lo: nat, d: nat) {
    && Tidy(w, t, lo) && RouteOk(w, r) && lo <= d <= w && r !in Routes(t)
    && d == Differ(r.key, Search(t, r.key).key, 0)
    && (Sentinel(r.key) ==> d == w && r.mask.Net?)
  }

  /** Keys below t agree with the new key up to where search's leaf does. */
  lemma KeysAgree(w: nat, t: Tree, r: Route, lo: nat, d: nat)
    requires CanAdd(w, t, r, lo, d) && t.Node?
    ensures d != t.b && forall k | k in Keys(t) :: Agree(k, r.key, if t.b < d then t.b else d)
    ensures d < t.b ==> forall k | k in Keys(t) :: |k| == w && k[d] != r.key[d]
  {
    RoutesTidy(w, t, lo);
    var x := Search(t, r.key).key;
    assert x in Keys(Child(t, r.key));
    forall k | k in Keys(t) ensures Agree(k, x, t.b) {}
  }

  /** A new key on its side of a node at bit b. */
  lemma SplitsExtend(w: nat, b: nat, l: set<Bits>, r: set<Bits>, k: Bits)
    requires Splits(w, b, l, r) && |k| == w && b < w
    requires forall k' | k' in l + r :: Agree(k', k, b)
    ensures if k[b] then Splits(w, b, l, r + {k}) else Splits(w, b, l + {k}, r)
  {
  }

  /** A new key against old ones that all differ from it at bit b. */
  lemma SplitsApart(w: nat, b: nat, keys: set<Bits>, k: Bits)
    requires |k| == w && b < w
    requires forall k' | k' in keys :: |k'| == w && k'[b] != k[b] && Agree(k', k, b)
    ensures if k[b] then Splits(w, b, keys, {k}) else Splits(w, b, {k}, keys)
  {
    forall k1, k2 | k1 in keys && k2 in keys ensures Agree(k1, k2, b) {}
  }

  lemma NewLeafTidy(w: nat, r: Route, d: nat)
    requires RouteOk(w, r) && d < w && !Sentinel(r.key)
    ensures var leaf := Leaf(r.key, [Entry(r.mask, false, Short(r.mask, d))]);
      Tidy(w, leaf, d + 1) && Keys(leaf) == {r.key} && Routes(leaf) == {r}
  {
  }

  lemma ForkSplits(w: nat, t: Tree, r: Route, lo: nat, d: nat)
    requires CanAdd(w, t, r, lo, d) && d < w && (t.Node? ==> d < t.b)
    ensures if r.key[d] then Splits(w, d, Keys(t), {r.key}) else Splits(w, d, {r.key}, Keys(t))
    ensures forall q | q in Routes(t) :: RouteOk(w, q) && Agree(q.key, r.key, d)
  {
    RoutesTidy(w, t, lo);
    if t.Node? { KeysAgree(w, t, r, lo, d); }
    SplitsApart(w, d, Keys(t), r.key);
  }

  lemma ForkOk(w: nat, t: Tree, r: Route, lo: nat, d: nat)
    requires CanAdd(w, t, r, lo, d) && d < w && (t.Node? ==> d < t.b)
    ensures Added(w, t, Fork(w, t, r, lo, d), r, lo)
  {
    var (up, kept) := Promote(w, t, d);
    PromoteOk(w, t, d, lo);
    ForkSplits(w, t, r, lo, d);
    NewLeafTidy(w, r, d);
    ListedOk(w, up, Routes(t), r, lo, d);
    var leaf := Leaf(r.key, [Entry(r.mask, false, Short(r.mask, d))]);
    UnionComm(Keys(t), {r.key});
    UnionComm(Routes(t), {r});
    var t' := Fork(w, t, r, lo, d);
    assert Keys(t') == Keys(t) + {r.key};
    assert Routes(t') == Routes(t) + {r};
    if Bit(r.key, d) {
      NodeTidy(w, t', kept, leaf, lo, d + 1);
    } else {
      NodeTidy(w, t', leaf, kept, lo, d + 1);
    }
  }

  lemma DuplicateOk(w: nat, t: Tree, r: Route, lo: nat, t': Tree)
    requires CanAdd(w, t, r, lo, w) && t.Leaf? && t' == Add(w, t, r, lo, w)
    ensures Added(w, t, t', r, lo)
  {
    assert t.key == r.key;
    var e := Entry(r.mask, false, r.mask.Net? && r.mask.len < lo);
    forall e' | e' in t.chain ensures EntryRank(w)(e') != EntryRank(w)(e) {
      assert !e'.root ==> Route(t.key, e'.mask) in Routes(t);
      assert RouteOk(w, Route(t.key, e'.mask));
    }
    InsertCorrect(EntryRank(w), t.chain, e);
    var chain := Insert(EntryRank(w), t.chain, e);
    assert Sentinel(t.key) ==> chain[0] == t.chain[0];
    assert ChainOk(w, t.key, chain, lo);
    assert Routes(Leaf(t.key, chain)) == Routes(t) + {r};
  }

  lemma BelowMasks(w: nat, t: Tree, r: Route, lo: nat, d: nat, routes: set<Route>)
    requires CanAdd(w, t, r, lo, d) && t.Node? && t.b < d && routes == Routes(t) + {r}
    ensures MasksOk(w, Listed(w, t.masks, r, lo, t.b), routes, lo, t.b)
  {
    RoutesTidy(w, t, lo);
    KeysAgree(w, t, r, lo, d);
    ListedOk(w, t.masks, Routes(t), r, lo, t.b);
  }

  lemma BelowSplits(w: nat, t: Tree, r: Route, lo: nat, d: nat, left: set<Bits>, right: set<Bits>)
    requires CanAdd(w, t, r, lo, d) && t.Node? && t.b < d
    requires left == if Bit(r.key, t.b) then Keys(t.left) else Keys(t.left) + {r.key}
    requires right == if Bit(r.key, t.b) then Keys(t.right) + {r.key} else Keys(t.right)
    ensures Splits(w, t.b, left, right)
  {
    KeysAgree(w, t, r, lo, d);
    SplitsExtend(w, t.b, Keys(t.left), Keys(t.right), r.key);
  }

  /** A node over subtrees that are tidy below it. */
  lemma NodeTidy(w: nat, t: Tree, l: Tree, r: Tree, lo: nat, next: nat)
    requires t.Node? && t.left == l && t.right == r && lo <= t.b < w && next == t.b + 1
    requires Tidy(w, l, next) && Tidy(w, r, next)
    requires Splits(w, t.b, Keys(l), Keys(r)) && MasksOk(w, t.masks, Routes(t), lo, t.b)
    ensures Tidy(w, t, lo)
  {
  }

  lemma UnionAdd<T>(a: set<T>, b: set<T>, x: T)
    ensures a + (b + {x}) == (a + b) + {x} && (a + {x}) + b == (a + b) + {x}
  {
  }

  /** t with c in the place of the child for the new key. */
  function Replaced(t: Tree, v: Bits, masks: seq<Route>, c: Tree): Tree
    requires t.Node?
  {
    if Bit(v, t.b) then Node(t.b, masks, t.left, c) else Node(t.b, masks, c, t.right)
  }

  lemma ReplacedContents(t: Tree, r: Route, masks: seq<Route>, c: Tree)
    requires t.Node? && var was := Child(t, r.key); Keys(c) == Keys(was) + {r.key} && Routes(c) == Routes(was) + {r}
    ensures var t' := Replaced(t, r.key, masks, c); Keys(t') == Keys(t) + {r.key} && Routes(t') == Routes(t) + {r}
  {
    UnionAdd(Keys(t.left), Keys(t.right), r.key);
    UnionAdd(Routes(t.left), Routes(t.right), r);
  }

  lemma UnionComm<T>(a: set<T>, b: set<T>)
    ensures a + b == b + a
  {
  }

  lemma ReplacedTidy(w: nat, t: Tree, v: Bits, masks: seq<Route>, c: Tree, lo: nat, t': Tree)
    requires Tidy(w, t, lo) && t.Node? && t' == Replaced(t, v, masks, c) && Tidy(w, c, t.b + 1)
    requires Splits(w, t.b, Keys(t'.left), Keys(t'.right)) && MasksOk(w, masks, Routes(t'), lo, t.b)
    ensures Tidy(w, t', lo)
  {
    if Bit(v, t.b) {
      NodeTidy(w, t', t.left, c, lo, t.b + 1);
    } else {
      NodeTidy(w, t', c, t.right, lo, t.b + 1);
    }
  }

  lemma AddBelow(w: nat, t: Tree, r: Route, lo: nat, d: nat, was: Tree, next: nat, c: Tree, t': Tree)
    requires CanAdd(w, t, r, lo, d) && t.Node? && t.b < d && was == Child(t, r.key) && next == t.b + 1
    requires Added(w, was, c, r, next) && t' == Replaced(t, r.key, Listed(w, t.masks, r, lo, t.b), c)
    ensures Added(w, t, t', r, lo)
  {
    ReplacedContents(t, r, t'.masks, c);
    BelowMasks(w, t, r, lo, d, Routes(t'));
    BelowSplits(w, t, r, lo, d, Keys(t'.left), Keys(t'.right));
    ReplacedTidy(w, t, r.key, t'.masks, c, lo, t');
  }

  lemma OffBit(w: nat, t: Tree, r: Route, lo: nat, d: nat)
    requires CanAdd(w, t, r, lo, d) && t.Node?
    ensures d != t.b
  {
    KeysAgree(w, t, r, lo, d);
  }

  lemma CanAddBelow(w: nat, t: Tree, r: Route, lo: nat, d: nat, was: Tree, next: nat)
    requires CanAdd(w, t, r, lo, d) && t.Node? && t.b < d && was == Child(t, r.key) && next == t.b + 1
    ensures CanAdd(w, was, r, next, d)
  {
    assert Search(was, r.key) == Search(t, r.key);
  }

  lemma AddUnfolds(w: nat, t: Tree, r: Route, lo: nat, d: nat, was: Tree, next: nat) returns (c: Tree)
    requires t.Node? && t.b < d && was == Child(t, r.key) && next == t.b + 1
    ensures c == Add(w, was, r, next, d)
    ensures Add(w, t, r, lo, d) == Replaced(t, r.key, Listed(w, t.masks, r, lo, t.b), c)
  {
    c := Add(w, was, r, next, d);
  }

  /** An addition keeps the Patricia invariant with every mask listed at the
      highest node that it governs, and adds exactly its key and its route. */
  lemma {:induction false} AddOk(w: nat, t: Tree, r: Route, lo: nat, d: nat, t': Tree)
    requires CanAdd(w, t, r, lo, d) && t' == Add(w, t, r, lo, d)
    ensures Added(w, t, t', r, lo)
    decreases t
  {
    if t.Node? { OffBit(w, t, r, lo, d); }
    if t.Node? && t.b < d {
      var was, next := Child(t, r.key), t.b + 1;
      CanAddBelow(w, t, r, lo, d, was, next);
      var c := AddUnfolds(w, t, r, lo, d, was, next);
      AddOk(w, was, r, next, d, c);
      AddBelow(w, t, r, lo, d, was, next, c, t');
    } else if d < w {
      assert t' == Fork(w, t, r, lo, d);
      ForkOk(w, t, r, lo, d);
    } else {
      DuplicateOk(w, t, r, lo, t');
    }
  }

  /** Refused exactly when the route is stored already or is a host route for a
      sentinel's own key; otherwise the tree gains exactly that route. */
  lemma AddRouteOk(w: nat, t: Tree, r: Route)
    requires Valid(w, t) && RouteOk(w, r)
    ensures AddRoute(w, t, r).None? <==> r in Routes(t) || (r.mask.Host? && Sentinel(r.key))
    ensures AddRoute(w, t, r).Some? ==> Valid(w, AddRoute(w, t, r).value) && Routes(AddRoute(w, t, r).value) == Routes(t) + {r}
  {
    RefusedIff(w, t, r);
    if AddRoute(w, t, r).Some? {
      var d := Differ(r.key, Search(t, r.key).key, 0);
      if Sentinel(r.key) { SentinelFound(w, t, r.key); }
      AddOk(w, t, r, 0, d, AddRoute(w, t, r).value);
      KeysAgree(w, t, r, 0, d);
    }
  }

  lemma RefusedIff(w: nat, t: Tree, r: Route)
    requires Valid(w, t) && RouteOk(w, r)
    ensures AddRoute(w, t, r).None? <==> r in Routes(t) || (r.mask.Host? && Sentinel(r.key))
  {
    var x := Search(t, r.key);
    LeafTidy(w, t, r.key, 0);
    RoutesTidy(w, t, 0);
    var l: nat :| ChainOk(w, x.key, x.chain, l);
    if Sentinel(r.key) { SentinelFound(w, t, r.key); }
    if r in Routes(t) {
      SearchIsClosest(w, t, r.key, 0, r.key);
      assert r in Routes(x);
    }
    if AddRoute(w, t, r).None? {
      assert x.key == r.key;
      var e :| e in x.chain && e.mask == r.mask;
      assert !e.root ==> Route(x.key, e.mask) in Routes(x);
    }
  }
}
