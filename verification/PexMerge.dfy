/** Merging the view pulled from a peer into the local one: every outcome the random
    choices allow, what all of them have in common, and the in-place algorithm. */
module PexMerge {
  import opened Prelude
  import opened PexView

  datatype Config = Config(maxView: nat, swap: nat, protect: nat)

  ghost predicate IsPerm(v: View, w: View) {
    multiset(v) == multiset(w)
  }

  // ---- The sizes that steer the pipeline ----

  function Swapped(cfg: Config, n: nat): (s: nat)
    ensures s <= n
  {
    Min(cfg.swap, Max(n - cfg.maxView, 0))
  }

  function Protected(cfg: Config, n: nat): (r: nat)
    ensures r <= n && r <= cfg.maxView
  {
    Min(Min(cfg.protect, cfg.maxView), n)
  }

  function MaxDecay(cfg: Config, n: nat): (d: nat)
    ensures d <= Protected(cfg, n) && d <= Max(n - cfg.maxView, 0)
  {
    Min(Protected(cfg, n), Max(n - cfg.maxView, 0))
  }

  /** The random choices of one merge. What the unstable sort made of the union without its
      first records is cut into the unprotected front, the protected records that stay and
      those that decay; the shuffle turned the front into `shuffled`. */
  datatype Choices = Choices(front: View, oldest: View, decayed: View, shuffled: View) {
    function Sorted(): View {
      front + oldest + decayed
    }
  }

  ghost predicate MergeSteps(cfg: Config, u: View, ch: Choices, out: View) {
    var s := Swapped(cfg, |u|);
    var n := |u| - s;
    && IsPerm(ch.Sorted(), u[s..]) && SortedByHop(ch.Sorted())
    && |ch.front| + |ch.oldest| + |ch.decayed| == n
    && |ch.oldest| + |ch.decayed| == Protected(cfg, n)
    && |ch.decayed| <= MaxDecay(cfg, n)
    && IsPerm(ch.shuffled, ch.front) && |ch.shuffled| == |ch.front|
    && out == IncrHops(Merged(Kept(cfg, ch), ch.oldest))
  }

  /** What random eviction leaves of the shuffled front. */
  function Kept(cfg: Config, ch: Choices): View
    requires |ch.oldest| <= cfg.maxView
  {
    Head(cfg.maxView - |ch.oldest|, ch.shuffled)
  }

  ghost predicate MergeOutcome(cfg: Config, self: PeerID, local: View, remote: View, out: View) {
    exists ch :: MergeSteps(cfg, Union(self, local, remote), ch, out)
  }

  // ---- What every outcome has in common ----

  lemma PermLength(v: View, w: View)
    requires IsPerm(v, w)
    ensures |v| == |w|
  {
    assert |multiset(v)| == |multiset(w)|;
  }

  lemma SplitMultiset(v: View, i: nat)
    requires i <= |v|
    ensures multiset(v) == multiset(v[..i]) + multiset(v[i..])
  {
    assert v == v[..i] + v[i..];
  }

  lemma HeadSub(n: nat, v: View)
    ensures multiset(Head(n, v)) <= multiset(v) && |Head(n, v)| == Min(n, |v|)
  {
    if n < |v| {
      SplitMultiset(v, n);
    }
  }

  /** The two parts that the closing merge joins are disjoint parts of the union, so it
      drops nothing. */
  lemma ClosingMerge(cfg: Config, u: View, ch: Choices, out: View)
    requires Clean(multiset(u)) && MergeSteps(cfg, u, ch, out)
    ensures multiset(Kept(cfg, ch)) + multiset(ch.oldest) <= multiset(u)
    ensures out == IncrHops(Kept(cfg, ch) + ch.oldest)
  {
    hide Clean, Merged, IncrHops, SortedByHop;
    var kept := Kept(cfg, ch);
    SplitMultiset(u, Swapped(cfg, |u|));
    HeadSub(cfg.maxView - |ch.oldest|, ch.shuffled);
    assert multiset(ch.Sorted()) == multiset(ch.front) + multiset(ch.oldest) + multiset(ch.decayed);
    CleanSub(multiset(kept) + multiset(ch.oldest), multiset(u));
    MergedIsConcat(kept, ch.oldest);
  }

  /** Whatever the views are: no outcome exceeds MaxView or the deduplicated union. */
  lemma MergeBound(cfg: Config, self: PeerID, local: View, remote: View, out: View)
    requires MergeOutcome(cfg, self, local, remote, out)
    ensures |out| <= Min(|Union(self, local, remote)|, cfg.maxView)
  {
    var u := Union(self, local, remote);
    var ch :| MergeSteps(cfg, u, ch, out);
    MergedBound(Kept(cfg, ch), ch.oldest);
    hide Merged, Union, SortedByHop, IsPerm;
  }

  lemma MergedBound(v: View, tail: View)
    ensures |Merged(v, tail)| <= |v| + |tail|
  {
    FilterShortens((g: Record) => Survives(g, Find(tail, g.peer), true), v);
    FilterShortens((g: Record) => Survives(g, Find(v, g.peer), false), tail);
  }

  /** A merge returns exactly min(n, MaxView) records, n the size of the deduplicated union,
      whatever is shuffled and however much decays, if no record of the union supersedes
      another one. */
  lemma MergeSize(cfg: Config, self: PeerID, local: View, remote: View, out: View)
    requires Clean(multiset(Union(self, local, remote)))
    requires MergeOutcome(cfg, self, local, remote, out)
    ensures |out| == Min(|Union(self, local, remote)|, cfg.maxView)
  {
    var u := Union(self, local, remote);
    var ch :| MergeSteps(cfg, u, ch, out);
    ClosingMerge(cfg, u, ch, out);
    hide Clean, Merged, Union, SortedByHop, IsPerm;
  }

  lemma {:induction false} AgedMultiset(v: View, w: View)
    requires IsPerm(v, w)
    ensures IsPerm(IncrHops(v), IncrHops(w))
  {
    if v == [] {
      PermLength(v, w);
    } else {
      var n := |v| - 1;
      var i := InPerm(v, w, v[n]);
      var w' := w[..i] + w[i + 1..];
      DropOne(v, n, w, i);
      AgedMultiset(v[..n], w');
      AgedSnoc(v);
      AgedDrop(w, i);
    }
  }

  lemma AgedSnoc(v: View)
    requires v != []
    ensures multiset(IncrHops(v)) == multiset(IncrHops(v[..|v| - 1])) + multiset{Aged(v[|v| - 1])}
  {
    assert IncrHops(v) == IncrHops(v[..|v| - 1]) + [Aged(v[|v| - 1])];
  }

  lemma AgedDrop(w: View, i: nat)
    requires i < |w|
    ensures multiset(IncrHops(w)) == multiset(IncrHops(w[..i] + w[i + 1..])) + multiset{Aged(w[i])}
  {
    assert IncrHops(w[..i] + w[i + 1..]) == IncrHops(w[..i]) + IncrHops(w[i + 1..]);
    assert IncrHops(w) == IncrHops(w[..i]) + [Aged(w[i])] + IncrHops(w[i + 1..]);
  }

  lemma DropOne(v: View, n: nat, w: View, i: nat)
    requires IsPerm(v, w) && |v| == n + 1 && i < |w| && w[i] == v[n]
    ensures IsPerm(v[..n], w[..i] + w[i + 1..])
  {
    assert v == v[..n] + [v[n]];
    assert w == w[..i] + [w[i]] + w[i + 1..];
    Cancel(multiset(v[..n]), multiset(w[..i] + w[i + 1..]), multiset{v[n]});
  }

  lemma Cancel(a: multiset<Record>, b: multiset<Record>, c: multiset<Record>)
    requires a + c == b + c
    ensures a == b
  {
    assert a == (a + c) - c && b == (b + c) - c;
  }

  lemma InPerm(v: View, w: View, g: Record) returns (k: nat)
    requires IsPerm(v, w) && g in v
    ensures k < |w| && w[k] == g
  {
    assert g in multiset(w);
    k :| k < |w| && w[k] == g;
  }

  /** If the union exceeds the view by no more than the swap amount, eviction is
      deterministic: the result is the union without its first records, aged and in some
      order. No protected record decays, and nothing is lost when the union fits. */
  lemma MergeIsDeterministic(cfg: Config, self: PeerID, local: View, remote: View, out: View)
    requires Clean(multiset(Union(self, local, remote)))
    requires MergeOutcome(cfg, self, local, remote, out)
    requires |Union(self, local, remote)| <= cfg.maxView + cfg.swap
    ensures var u := Union(self, local, remote);
            IsPerm(out, IncrHops(u[Max(|u| - cfg.maxView, 0)..]))
  {
    var u := Union(self, local, remote);
    var ch :| MergeSteps(cfg, u, ch, out);
    ClosingMerge(cfg, u, ch, out);
    NothingEvicted(cfg, u, ch, out);
    hide *;
    AgedPieces(ch.front, ch.oldest, ch.shuffled, u[Max(|u| - cfg.maxView, 0)..]);
  }

  lemma AgedPieces(front: View, oldest: View, shuffled: View, rest: View)
    requires IsPerm(shuffled, front) && IsPerm(front + oldest, rest)
    ensures IsPerm(IncrHops(shuffled + oldest), IncrHops(rest))
  {
    assert multiset(shuffled + oldest) == multiset(front + oldest);
    AgedMultiset(shuffled + oldest, rest);
  }

  lemma NothingEvicted(cfg: Config, u: View, ch: Choices, out: View)
    requires MergeSteps(cfg, u, ch, out) && |u| <= cfg.maxView + cfg.swap
    ensures ch.decayed == [] && Kept(cfg, ch) == ch.shuffled
    ensures IsPerm(ch.shuffled, ch.front) && IsPerm(ch.front + ch.oldest, u[Max(|u| - cfg.maxView, 0)..])
  {
    hide Merged, IncrHops, SortedByHop, IsPerm;
    assert ch.decayed == [];
    assert ch.Sorted() == ch.front + ch.oldest;
  }

  /** The layout of a result: what random eviction spared, then the protected records that
      did not decay. Protect records are set apart, as far as there are that many and MaxView
      admits; at most as many decay as the union overflows; and nothing that random eviction
      spared is older than a record set apart. */
  lemma MergeLayout(cfg: Config, u: View, ch: Choices, out: View, g: Record, o: Record)
    requires Clean(multiset(u)) && MergeSteps(cfg, u, ch, out)
    ensures out == IncrHops(Kept(cfg, ch)) + IncrHops(ch.oldest)
    ensures var n := |u| - Min(cfg.swap, Max(|u| - cfg.maxView, 0));
            && |ch.oldest| + |ch.decayed| == Min(Min(cfg.protect, cfg.maxView), n)
            && |ch.decayed| <= Max(n - cfg.maxView, 0)
    ensures g in Kept(cfg, ch) && (o in ch.oldest || o in ch.decayed) ==> g.hop <= o.hop
  {
    ClosingMerge(cfg, u, ch, out);
    hide Clean, Merged, IncrHops, SortedByHop, IsPerm;
    AgedConcat(Kept(cfg, ch), ch.oldest);
    KeptInFront(cfg, u, ch, out, g);
    assert ch.Sorted() == ch.front + (ch.oldest + ch.decayed);
    hide *;
    if g in Kept(cfg, ch) && (o in ch.oldest || o in ch.decayed) {
      FrontIsYounger(ch.front, ch.oldest + ch.decayed, ch.shuffled, g, o);
    }
  }

  lemma KeptInFront(cfg: Config, u: View, ch: Choices, out: View, g: Record)
    requires MergeSteps(cfg, u, ch, out)
    ensures |ch.oldest| <= cfg.maxView && (g in Kept(cfg, ch) ==> g in ch.shuffled)
    ensures SortedByHop(ch.Sorted()) && IsPerm(ch.shuffled, ch.front)
  {
    hide Merged, IncrHops, SortedByHop, IsPerm;
  }

  lemma AgedConcat(v: View, w: View)
    ensures IncrHops(v + w) == IncrHops(v) + IncrHops(w)
  {}

  lemma FrontIsYounger(front: View, back: View, shuffled: View, g: Record, o: Record)
    requires SortedByHop(front + back) && IsPerm(shuffled, front) && g in shuffled && o in back
    ensures g.hop <= o.hop
  {
    var i := InPerm(shuffled, front, g);
    var j :| 0 <= j < |back| && back[j] == o;
    assert (front + back)[i] == g && (front + back)[|front| + j] == o;
  }

  /** Every record of the result is an aged record of one of the inputs, not the node's own.
      It has hop 0 only if the counter wrapped. */
  lemma MergeOrigin(cfg: Config, self: PeerID, local: View, remote: View, out: View, h: Record)
    returns (g: Record)
    requires MergeOutcome(cfg, self, local, remote, out) && h in out
    ensures h == Aged(g) && (g in local || g in remote) && g.peer != self
    ensures h.peer == g.peer && h.number == g.number
    ensures h.hop == if g.hop == 0xFFFF_FFFF_FFFF_FFFF then 0 else g.hop + 1
  {
    var u := Union(self, local, remote);
    var ch :| MergeSteps(cfg, u, ch, out);
    var m := Merged(Kept(cfg, ch), ch.oldest);
    var i :| 0 <= i < |out| && out[i] == h;
    g := m[i];
    assert h == Aged(g);
    AgedFields(g);
    InMerged(Kept(cfg, ch), ch.oldest, g);
    hide Filter, Merged, Union, SortedByHop, IncrHops, Aged;
    if g in Kept(cfg, ch) {
      var k := InPerm(ch.shuffled, ch.front, g);
    }
    assert g in ch.Sorted();
    var j := InPerm(ch.Sorted(), u[Swapped(cfg, |u|)..], g);
    assert u[Swapped(cfg, |u|) + j] == g;
    InUnion(self, local, remote, g);
  }

  /** If the union fits into MaxView, no peer of either view is lost but the node itself. */
  lemma MergeKeepsPeers(cfg: Config, self: PeerID, local: View, remote: View, out: View, g: Record)
    requires DistinctPeers(local) && DistinctPeers(remote) && MergeOutcome(cfg, self, local, remote, out)
    requires |Union(self, local, remote)| <= cfg.maxView && (g in local || g in remote) && g.peer != self
    ensures exists h :: h in out && h.peer == g.peer
  {
    var u := Union(self, local, remote);
    UnionIsClean(self, local, remote);
    var i := KeptInUnion(self, local, remote, g);
    hide Union, MergeOutcome, Clean, Aged;
    MergeIsDeterministic(cfg, self, local, remote, out);
    assert u[0..] == u && IncrHops(u)[i] == Aged(u[i]);
    AgedFields(u[i]);
    var j := InPerm(IncrHops(u), out, Aged(u[i]));
    assert out[j] in out;
  }

  lemma KeptInUnion(self: PeerID, local: View, remote: View, g: Record) returns (i: nat)
    requires DistinctPeers(local) && DistinctPeers(remote) && (g in local || g in remote) && g.peer != self
    ensures i < |Union(self, local, remote)| && Union(self, local, remote)[i].peer == g.peer
  {
    var u, p := Union(self, local, remote), g.peer;
    var ofPeer := (h: Record) => h.peer == p;
    UnionPerPeer(self, local, remote, p);
    MergedPerPeer(local, remote, p);
    FindNone(local, p);
    FindNone(remote, p);
    hide Union, Filter, Merged, Find, DistinctPeers;
    var k := Filter(ofPeer, u)[0];
    FilterIn(ofPeer, u, k);
    i :| 0 <= i < |u| && u[i] == k;
  }

  /** Aging changes the hop only, which wraps as a 64-bit word. */
  lemma AgedFields(g: Record)
    ensures Aged(g).peer == g.peer && Aged(g).number == g.number
    ensures Aged(g).hop == if g.hop == 0xFFFF_FFFF_FFFF_FFFF then 0 else g.hop + 1
  {}

  lemma InMerged(v: View, tail: View, g: Record)
    requires g in Merged(v, tail)
    ensures g in v || g in tail
  {
    FilterIn((g: Record) => Survives(g, Find(tail, g.peer), true), v, g);
    FilterIn((g: Record) => Survives(g, Find(v, g.peer), false), tail, g);
  }

  // ---- The unseen library's sort and shuffle ----

  lemma ConsSorted(x: Record, t: View)
    requires SortedByHop(t) && forall y | y in t :: x.hop <= y.hop
    ensures SortedByHop([x] + t)
  {}

  lemma BoundOfPerm(x: Record, t: View, g: Record, v: View)
    requires multiset(t) == multiset(v) + multiset{g}
    requires x.hop <= g.hop && forall y | y in v :: x.hop <= y.hop
    ensures forall y | y in t :: x.hop <= y.hop
  {
    forall y | y in t
      ensures x.hop <= y.hop
    {
      assert y in multiset(t);
    }
  }

  function Insert(g: Record, v: View): (r: View)
    requires SortedByHop(v)
    ensures SortedByHop(r) && multiset(r) == multiset(v) + multiset{g}
  {
    if v == [] then [g]
    else if g.hop <= v[0].hop then
      ConsSorted(g, v);
      [g] + v
    else
      var t := Insert(g, v[1..]);
      assert v == [v[0]] + v[1..];
      BoundOfPerm(v[0], t, g, v[1..]);
      ConsSorted(v[0], t);
      [v[0]] + t
  }

  function SortSpec(v: View): (r: View)
    ensures SortedByHop(r) && multiset(r) == multiset(v) && |r| == |v|
  {
    if v == [] then []
    else
      assert v == [v[0]] + v[1..];
      var r := Insert(v[0], SortSpec(v[1..]));
      PermLength(r, v);
      r
  }

  /** The slots of `a` outside [lo, hi) hold what they held in `was`. */
  ghost predicate SameOutside(a: array<Record>, was: View, lo: nat, hi: nat)
    reads a
  {
    |was| == a.Length && forall k :: 0 <= k < a.Length && (k < lo || hi <= k) ==> a[k] == was[k]
  }

  /** Equal multisets that agree outside a window agree as multisets inside it. */
  lemma WindowPerm(v: View, w: View, lo: nat, hi: nat)
    requires IsPerm(v, w) && |v| == |w| && lo <= hi <= |v|
    requires v[..lo] == w[..lo] && v[hi..] == w[hi..]
    ensures IsPerm(v[lo..hi], w[lo..hi])
  {
    assert v == v[..lo] + v[lo..hi] + v[hi..];
    assert w == w[..lo] + w[lo..hi] + w[hi..];
    assert multiset(v) == multiset(v[lo..hi]) + (multiset(v[..lo]) + multiset(v[hi..]));
    assert multiset(w) == multiset(w[lo..hi]) + (multiset(w[..lo]) + multiset(w[hi..]));
    Cancel(multiset(v[lo..hi]), multiset(w[lo..hi]), multiset(v[..lo]) + multiset(v[hi..]));
  }

  /** Sorts a[lo..hi] by hop in place, in some order among ties. */
  method Sort(a: array<Record>, lo: nat, hi: nat)
    requires lo <= hi <= a.Length
    modifies a
    ensures SortedByHop(a[lo..hi]) && IsPerm(a[lo..hi], old(a[lo..hi]))
    ensures SameOutside(a, old(a[..]), lo, hi)
  {
    hide SortSpec, SortedByHop;
    var s := SortSpec(a[lo..hi]);
    forall i | 0 <= i < hi - lo {
      a[lo + i] := s[i];
    }
    assert a[lo..hi] == s;
  }

  method Swap(a: array<Record>, i: nat, j: nat)
    requires i < a.Length && j < a.Length
    modifies a
    ensures IsPerm(a[..], old(a[..]))
    ensures forall k :: 0 <= k < a.Length && k != i && k != j ==> a[k] == old(a[k])
  {
    a[i], a[j] := a[j], a[i];
  }

  /** Shuffles a[lo..hi] in place, any permutation being possible. */
  method Shuffle(a: array<Record>, lo: nat, hi: nat)
    requires lo <= hi <= a.Length
    modifies a
    ensures IsPerm(a[lo..hi], old(a[lo..hi])) && SameOutside(a, old(a[..]), lo, hi)
  {
    var i := hi - 1;
    while i > lo
      invariant i < hi
      invariant IsPerm(a[..], old(a[..])) && SameOutside(a, old(a[..]), lo, hi)
    {
      var j :| lo <= j <= i;
      Swap(a, i, j);
      i := i - 1;
    }
    WindowPerm(a[..], old(a[..]), lo, hi);
  }

  // ---- The loops over views ----

  method FilterView(f: Record -> bool, v: View) returns (filtered: View)
    ensures filtered == Filter(f, v)
  {
    filtered := [];
    for i := 0 to |v|
      invariant filtered == Filter(f, v[..i])
    {
      assert v[..i + 1][..i] == v[..i];
      if f(v[i]) {
        filtered := filtered + [v[i]];
      }
    }
    assert v[..|v|] == v;
  }

  method Validate(v: View) returns (ok: bool)
    ensures ok == ValidView(v)
  {
    if |v| == 0 {
      return false;
    }
    for i := 0 to |v| - 1
      invariant forall j :: 0 <= j < i ==> v[j].hop != 0
    {
      if v[i].hop == 0 {
        return false;
      }
    }
    ok := v[|v| - 1].hop == 0;
  }

  /** Drops records from the end while the coins say so, at most `maxDecay` of them: exactly
      as many as there are leading hits, unless records or the allowance run out first. */
  method Decay(size: nat, maxDecay: nat, coins: seq<bool>) returns (left: nat)
    ensures left <= size && size - left <= maxDecay && size - left <= |coins|
    ensures forall k | 0 <= k < size - left :: coins[k]
    ensures left == 0 || size - left == maxDecay || size - left == |coins| || !coins[size - left]
  {
    left := size;
    var budget := maxDecay;
    while left > 0 && size - left < |coins| && coins[size - left] && budget > 0
      invariant 0 <= budget <= maxDecay && left <= size && size - left == maxDecay - budget <= |coins|
      invariant forall k | 0 <= k < size - left :: coins[k]
    {
      left := left - 1;
      budget := budget - 1;
    }
  }

  method AgeAll(v: View) returns (aged: View)
    ensures aged == IncrHops(v)
  {
    aged := v;
    for i := 0 to |v|
      invariant |aged| == |v|
      invariant forall j :: 0 <= j < i ==> aged[j] == Aged(v[j])
      invariant forall j :: i <= j < |v| ==> aged[j] == v[j]
    {
      aged := aged[i := Aged(aged[i])];
    }
  }

  method MergedView(v: View, tail: View) returns (m: View)
    ensures m == Merged(v, tail)
  {
    var front := FilterView((g: Record) => Survives(g, Find(tail, g.peer), true), v);
    var back := FilterView((g: Record) => Survives(g, Find(v, g.peer), false), tail);
    m := front + back;
  }

  /** The merge: rejects an invalid view, otherwise dedupes, swaps, protects, decays,
      evicts and ages. Sorting and shuffling work in place on one freshly built slice of
      which the protected records are a suffix. */
  method Merge(cfg: Config, self: PeerID, local: View, remote: View, coins: seq<bool>) returns (out: Option<View>)
    ensures out == None <==> !ValidView(remote)
    ensures out.Some? ==> MergeOutcome(cfg, self, local, remote, out.value)
  {
    var ok := Validate(remote);
    if !ok {
      return None;
    }
    var both := MergedView(local, remote);
    var u := FilterView((g: Record) => self != g.peer, both);
    assert u == Union(self, local, remote);
    var aged := Select(cfg, u, coins);
    out := Some(aged);
  }

  /** The outcome that a sorted slice, a decay and a shuffle of its front determine. */
  lemma OutcomeOf(cfg: Config, u: View, sorted: View, left: nat, shuffled: View) returns (ch: Choices)
    requires Swapped(cfg, |u|) <= |u| && IsPerm(sorted, u[Swapped(cfg, |u|)..]) && SortedByHop(sorted)
    requires |sorted| == |u| - Swapped(cfg, |u|)
    requires var r := Protected(cfg, |sorted|);
             && r - MaxDecay(cfg, |sorted|) <= left <= r
             && IsPerm(shuffled, sorted[..|sorted| - r])
    ensures var f := |sorted| - Protected(cfg, |sorted|);
            && ch == Choices(sorted[..f], sorted[f..f + left], sorted[f + left..], shuffled)
            && MergeSteps(cfg, u, ch, IncrHops(Merged(Kept(cfg, ch), ch.oldest)))
  {
    hide IsPerm, SortedByHop, IncrHops, Merged;
    var f := |sorted| - Protected(cfg, |sorted|);
    ch := Choices(sorted[..f], sorted[f..f + left], sorted[f + left..], shuffled);
    PermLength(shuffled, sorted[..f]);
    assert ch.Sorted() == sorted;
  }

  lemma SliceOfSlice(s: View, lo: nat, i: nat, j: nat)
    requires lo <= |s| && i <= j <= |s| - lo
    ensures s[lo..][i..j] == s[lo + i..lo + j]
  {}

  /** Shuffles what lies between `lo` and the protected records, and cuts the slice there. */
  method Evict(a: array<Record>, lo: nat, r: nat, left: nat) returns (shuffled: View, oldest: View)
    requires lo + r <= a.Length && left <= r
    modifies a
    ensures var sorted := old(a[lo..]);
            var f := |sorted| - r;
            IsPerm(shuffled, sorted[..f]) && oldest == sorted[f..f + left]
  {
    ghost var was := a[..];
    var hi := a.Length - r;
    Shuffle(a, lo, hi);
    shuffled, oldest := a[lo..hi], a[hi..hi + left];
    assert oldest == was[hi..hi + left];
    assert was[lo..] == old(a[lo..]);
    SliceOfSlice(was, lo, 0, hi - lo);
    SliceOfSlice(was, lo, hi - lo, hi - lo + left);
  }

  /** The union without its first records, sorted on a slice of its own. */
  method SortedFrom(u: View, lo: nat) returns (a: array<Record>)
    requires lo <= |u|
    ensures fresh(a) && a.Length == |u|
    ensures IsPerm(a[lo..], u[lo..]) && SortedByHop(a[lo..])
  {
    hide IsPerm, SortedByHop;
    a := new Record[|u|](i requires 0 <= i < |u| => u[i]);
    assert a[lo..|u|] == u[lo..];
    Sort(a, lo, |u|);
    assert a[lo..|u|] == a[lo..];
  }

  method Select(cfg: Config, u: View, coins: seq<bool>) returns (out: View)
    ensures exists ch :: MergeSteps(cfg, u, ch, out)
  {
    hide Filter, Merged, IncrHops, SortedByHop, MergeSteps, IsPerm, Swapped, Protected, MaxDecay, Min;
    var lo := Swapped(cfg, |u|);
    var n := |u| - lo;
    var a := SortedFrom(u, lo);
    ghost var sorted := a[lo..];
    var r := Protected(cfg, n);
    var left := Decay(r, MaxDecay(cfg, n), coins);
    var shuffled, oldest := Evict(a, lo, r, left);
    ghost var ch := OutcomeOf(cfg, u, sorted, left, shuffled);
    var m := MergedView(Head(cfg.maxView - left, shuffled), oldest);
    out := AgeAll(m);
    assert MergeSteps(cfg, u, ch, out);
  }

  /** Some outcome always exists. */
  lemma MergeTotal(cfg: Config, self: PeerID, local: View, remote: View) returns (out: View)
    ensures MergeOutcome(cfg, self, local, remote, out)
  {
    hide Filter, Merged, Union, IncrHops, MergeSteps, SortSpec, SortedByHop;
    var u := Union(self, local, remote);
    var sorted := SortSpec(u[Swapped(cfg, |u|)..]);
    var r := Protected(cfg, |sorted|);
    var ch := OutcomeOf(cfg, u, sorted, r, sorted[..|sorted| - r]);
    out := IncrHops(Merged(Kept(cfg, ch), ch.oldest));
  }
}
