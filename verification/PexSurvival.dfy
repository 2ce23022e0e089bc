/** Which records a merge is certain to keep, and when its size is certain, each as an exact
    condition on the views and parameters. */
module PexSurvival {
  import opened Prelude
  import opened PexView
  import opened PexMerge

  /** The records of `t` that are at least as old as `g`, and those that are older. */
  function AsOld(t: View, g: Record): nat {
    |Filter((h: Record) => h.hop >= g.hop, t)|
  }

  function Older(t: View, g: Record): nat {
    |Filter((h: Record) => h.hop > g.hop, t)|
  }

  /** The union without the records that swapping removes. */
  function Unswapped(cfg: Config, u: View): View {
    u[Min(cfg.swap, Max(|u| - cfg.maxView, 0))..]
  }

  /** Nothing has to go; or `g` is old enough to be among the protected records however
      records of equal age are ordered, and young enough not to be among those that may
      decay. */
  predicate Guaranteed(cfg: Config, t: View, g: Record) {
    || |t| <= cfg.maxView
    || (AsOld(t, g) <= Min(cfg.protect, cfg.maxView) && Older(t, g) >= |t| - cfg.maxView)
  }

  // ---- Positions in a sorted view ----

  /** What holds of a suffix of `s` only, `Filter` counts. */
  lemma {:induction false} FilterSuffix(f: Record -> bool, s: View)
    requires forall i, j :: 0 <= i < j < |s| && f(s[i]) ==> f(s[j])
    ensures |Filter(f, s)| <= |s|
    ensures forall i | 0 <= i < |s| :: f(s[i]) <==> i >= |s| - |Filter(f, s)|
  {
    if s != [] {
      var n := |s| - 1;
      FilterSuffix(f, s[..n]);
      if !f(s[n]) {
        FilterNone(f, s[..n]);
      }
    }
  }

  lemma FilterPerm(f: Record -> bool, v: View, w: View)
    requires IsPerm(v, w)
    ensures |Filter(f, v)| == |Filter(f, w)|
  {
    forall x
      ensures multiset(Filter(f, v))[x] == multiset(Filter(f, w))[x]
    {
      FilterCount(f, v, x);
      FilterCount(f, w, x);
    }
    PermLength(Filter(f, v), Filter(f, w));
  }

  /** Wherever a sorted permutation of `t` has a record as old as `g`. */
  lemma Position(t: View, sorted: View, g: Record, p: nat)
    requires IsPerm(sorted, t) && SortedByHop(sorted) && p < |sorted|
    ensures |sorted| == |t| && Older(t, g) <= |t| && AsOld(t, g) <= |t|
    ensures sorted[p].hop == g.hop <==> |t| - AsOld(t, g) <= p < |t| - Older(t, g)
  {
    PermLength(sorted, t);
    FilterPerm((h: Record) => h.hop >= g.hop, sorted, t);
    FilterPerm((h: Record) => h.hop > g.hop, sorted, t);
    FilterSuffix((h: Record) => h.hop >= g.hop, sorted);
    FilterSuffix((h: Record) => h.hop > g.hop, sorted);
  }

  /** Any such position may turn out to be that of `g`. */
  lemma Arrange(t: View, g: Record, q: nat) returns (sorted: View)
    requires g in t && |t| - AsOld(t, g) <= q < |t| - Older(t, g)
    ensures IsPerm(sorted, t) && SortedByHop(sorted) && |sorted| == |t| && q < |t| && sorted[q] == g
  {
    hide AsOld, Older, SortSpec;
    var s := SortSpec(t);
    var p := InPerm(t, s, g);
    Position(t, s, g, p);
    Position(t, s, g, q);
    sorted := s[q := g][p := s[q]];
    Exchange(s, p, q);
  }

  lemma Exchange(s: View, p: nat, q: nat)
    requires p < |s| && q < |s| && s[p].hop == s[q].hop && SortedByHop(s)
    ensures var w := s[q := s[p]][p := s[q]]; IsPerm(w, s) && SortedByHop(w)
  {}

  lemma OnlyAt(s: View, i: nat, j: nat)
    requires Clean(multiset(s)) && i < |s| && j < |s| && s[i] == s[j]
    ensures i == j
  {
    if i != j {
      TwoPositions(s, i, j);
    }
  }

  lemma TwoPositions(s: View, i: nat, j: nat)
    requires i < |s| && j < |s| && i != j && s[i] == s[j]
    ensures multiset(s)[s[i]] >= 2
  {
    var a, b := if i < j then i else j, if i < j then j else i;
    assert s == s[..a] + [s[a]] + s[a + 1..b] + [s[b]] + s[b + 1..];
  }

  lemma AgedInjective(g: Record, h: Record)
    requires Aged(g) == Aged(h)
    ensures g == h
  {}

  // ---- Certain survival ----

  lemma CleanRest(cfg: Config, u: View, sorted: View)
    requires Clean(multiset(u)) && IsPerm(sorted, Unswapped(cfg, u))
    ensures Clean(multiset(sorted))
  {
    SplitMultiset(u, |u| - |Unswapped(cfg, u)|);
    CleanSub(multiset(sorted), multiset(u));
  }

  /** A result holds `g`, one hop older, exactly if `g` was spared or stayed protected. */
  lemma InResult(cfg: Config, u: View, ch: Choices, out: View, g: Record)
    requires Clean(multiset(u)) && MergeSteps(cfg, u, ch, out)
    ensures Aged(g) in out <==> g in Kept(cfg, ch) || g in ch.oldest
  {
    ClosingMerge(cfg, u, ch, out);
    var both := Kept(cfg, ch) + ch.oldest;
    hide MergeSteps, Merged, Clean, Kept;
    if g in both {
      var i :| 0 <= i < |both| && both[i] == g;
      assert out[i] == Aged(g);
    }
    if Aged(g) in out {
      var i :| 0 <= i < |out| && out[i] == Aged(g);
      AgedInjective(g, both[i]);
    }
  }

  lemma GuaranteedStays(cfg: Config, u: View, ch: Choices, out: View, g: Record)
    requires Clean(multiset(u)) && MergeSteps(cfg, u, ch, out)
    requires g in Unswapped(cfg, u) && Guaranteed(cfg, Unswapped(cfg, u), g)
    ensures Aged(g) in out
  {
    var t, s := Unswapped(cfg, u), ch.Sorted();
    hide Clean, Merged, AsOld, Older, IncrHops;
    InResult(cfg, u, ch, out, g);
    var p := InPerm(t, s, g);
    if |t| <= cfg.maxView {
      assert ch.decayed == [] && Kept(cfg, ch) == ch.shuffled;
      if g in ch.front {
        var k := InPerm(ch.front, ch.shuffled, g);
      }
    } else {
      Position(t, s, g, p);
      assert |ch.front| <= p < |ch.front| + |ch.oldest|;
      assert g == ch.oldest[p - |ch.front|];
    }
  }

  /** Moved to the end of the shuffled front, a record is evicted. */
  lemma MayBeEvicted(cfg: Config, u: View, g: Record) returns (ch: Choices, out: View)
    requires Clean(multiset(u)) && g in Unswapped(cfg, u) && |Unswapped(cfg, u)| > cfg.maxView
    requires AsOld(Unswapped(cfg, u), g) > Min(cfg.protect, cfg.maxView)
    ensures MergeSteps(cfg, u, ch, out) && Aged(g) !in out
  {
    hide Clean, Merged, AsOld, Older, IncrHops, SortedByHop, MergeSteps, IsPerm;
    var t := Unswapped(cfg, u);
    var n, r := |t|, Protected(cfg, |t|);
    SomePosition(t, g);
    var q := n - AsOld(t, g);
    var s := Arrange(t, g, q);
    var f := n - r;
    var shuffled := s[..q] + s[q + 1..f] + [g];
    MovedBack(s[..f], q, shuffled);
    CleanRest(cfg, u, s);
    ch := OutcomeOf(cfg, u, s, r, shuffled);
    assert ch.oldest == s[f..];
    out := IncrHops(Merged(Kept(cfg, ch), ch.oldest));
    InResult(cfg, u, ch, out, g);
    assert Kept(cfg, ch) == shuffled[..cfg.maxView - r];
    hide *;
    OnlyAtEnd(s, q, f, shuffled, cfg.maxView - r);
  }

  lemma OnlyAtEnd(s: View, q: nat, f: nat, shuffled: View, k: nat)
    requires Clean(multiset(s)) && q < f <= |s| && k < f && shuffled == s[..q] + s[q + 1..f] + [s[q]]
    ensures s[q] !in shuffled[..k] && s[q] !in s[f..]
  {
    hide Clean;
    forall i | 0 <= i < k
      ensures shuffled[i] != s[q]
    {
      if shuffled[i] == s[q] {
        OnlyAt(s, if i < q then i else i + 1, q);
      }
    }
    forall i | f <= i < |s|
      ensures s[i] != s[q]
    {
      if s[i] == s[q] {
        OnlyAt(s, i, q);
      }
    }
  }

  lemma SomePosition(t: View, g: Record)
    requires g in t
    ensures |t| - AsOld(t, g) < |t| - Older(t, g) && 0 <= |t| - AsOld(t, g)
  {
    var s := SortSpec(t);
    var p := InPerm(t, s, g);
    Position(t, s, g, p);
  }

  lemma MovedBack(front: View, q: nat, shuffled: View)
    requires q < |front| && shuffled == front[..q] + front[q + 1..] + [front[q]]
    ensures IsPerm(shuffled, front)
  {
    assert front == front[..q] + [front[q]] + front[q + 1..];
  }

  /** Put last among its age, a record decays. */
  lemma MayDecay(cfg: Config, u: View, g: Record) returns (ch: Choices, out: View)
    requires Clean(multiset(u)) && g in Unswapped(cfg, u) && |Unswapped(cfg, u)| > cfg.maxView
    requires AsOld(Unswapped(cfg, u), g) <= Min(cfg.protect, cfg.maxView)
    requires Older(Unswapped(cfg, u), g) < |Unswapped(cfg, u)| - cfg.maxView
    ensures MergeSteps(cfg, u, ch, out) && Aged(g) !in out
  {
    hide Clean, Merged, AsOld, Older, IncrHops, SortedByHop, MergeSteps, IsPerm;
    var t := Unswapped(cfg, u);
    var n, r := |t|, Protected(cfg, |t|);
    var left := r - MaxDecay(cfg, n);
    SomePosition(t, g);
    var q := n - Older(t, g) - 1;
    var s := Arrange(t, g, q);
    var f := n - r;
    SamePerm(s[..f]);
    ch := OutcomeOf(cfg, u, s, left, s[..f]);
    out := IncrHops(Merged(Kept(cfg, ch), ch.oldest));
    InResult(cfg, u, ch, out, g);
    CleanRest(cfg, u, s);
    if g in Kept(cfg, ch) {
      var i :| 0 <= i < |Kept(cfg, ch)| && Kept(cfg, ch)[i] == g;
      OnlyAt(s, i, q);
    }
    if g in ch.oldest {
      var i :| 0 <= i < |ch.oldest| && ch.oldest[i] == g;
      OnlyAt(s, f + i, q);
    }
  }

  lemma SamePerm(v: View)
    ensures IsPerm(v, v)
  {}

  /** Protection, exactly: of the records that swapping leaves, a merge is certain to keep
      `g`, whatever the sort, the coin and the shuffle do, if and only if nothing has to go,
      or at most Protect records are as old as `g` and at least as many are older as exceed
      MaxView. */
  lemma SurvivesIff(cfg: Config, self: PeerID, local: View, remote: View, g: Record)
    requires Clean(multiset(Union(self, local, remote))) && g in Unswapped(cfg, Union(self, local, remote))
    ensures Guaranteed(cfg, Unswapped(cfg, Union(self, local, remote)), g) <==>
            forall out :: MergeOutcome(cfg, self, local, remote, out) ==> Aged(g) in out
  {
    var u := Union(self, local, remote);
    var t := Unswapped(cfg, u);
    hide Union, Clean, Unswapped, MergeSteps, Aged, AsOld, Older;
    if Guaranteed(cfg, t, g) {
      forall out | MergeOutcome(cfg, self, local, remote, out)
        ensures Aged(g) in out
      {
        var ch :| MergeSteps(cfg, u, ch, out);
        GuaranteedStays(cfg, u, ch, out, g);
      }
    } else if AsOld(t, g) > Min(cfg.protect, cfg.maxView) {
      var ch, out := MayBeEvicted(cfg, u, g);
      assert MergeOutcome(cfg, self, local, remote, out);
    } else {
      var ch, out := MayDecay(cfg, u, g);
      assert MergeOutcome(cfg, self, local, remote, out);
    }
  }

  /** A record that swapping removes is in no result. */
  lemma SwappedAreGone(cfg: Config, self: PeerID, local: View, remote: View, out: View, i: nat)
    requires Clean(multiset(Union(self, local, remote))) && MergeOutcome(cfg, self, local, remote, out)
    requires var u := Union(self, local, remote); i < Min(cfg.swap, Max(|u| - cfg.maxView, 0)) && i < |u|
    ensures Aged(Union(self, local, remote)[i]) !in out
  {
    var u := Union(self, local, remote);
    var ch :| MergeSteps(cfg, u, ch, out);
    var g, k := u[i], |u| - |Unswapped(cfg, u)|;
    hide Union, Clean, MergeSteps;
    InResult(cfg, u, ch, out, g);
    if g in Kept(cfg, ch) || g in ch.oldest {
      var j := FromUnswapped(cfg, u, ch, out, g);
      OnlyAt(u, i, k + j);
    }
  }

  lemma FromUnswapped(cfg: Config, u: View, ch: Choices, out: View, g: Record) returns (j: nat)
    requires MergeSteps(cfg, u, ch, out) && (g in Kept(cfg, ch) || g in ch.oldest)
    ensures j < |Unswapped(cfg, u)| && Unswapped(cfg, u)[j] == g
  {
    hide Merged, IncrHops, SortedByHop;
    if g in Kept(cfg, ch) {
      var k := InPerm(ch.shuffled, ch.front, g);
    }
    assert g in ch.Sorted();
    j := InPerm(ch.Sorted(), Unswapped(cfg, u), g);
  }

  // ---- Certain size ----

  /** Whether `a` and `b`, two records of one peer, supersede one another. */
  predicate Comparable(a: Record, b: Record) {
    a.peer == b.peer && !Incomparable(a, b)
  }

  lemma {:induction false} TwiceIn(s: View, a: Record) returns (i: nat, j: nat)
    requires multiset(s)[a] >= 2
    ensures i < j < |s| && s[i] == a && s[j] == a
  {
    var n := |s| - 1;
    assert s == s[..n] + [s[n]];
    if s[n] == a {
      j := n;
      assert a in multiset(s[..n]);
      i :| 0 <= i < n && s[..n][i] == a;
    } else {
      i, j := TwiceIn(s[..n], a);
    }
  }

  lemma UncleanPair(s: View) returns (i: nat, j: nat)
    requires !Clean(multiset(s))
    ensures i < j < |s| && Comparable(s[i], s[j])
  {
    if a :| multiset(s)[a] > 1 {
      i, j := TwiceIn(s, a);
    } else {
      var a, b :| a in multiset(s) && b in multiset(s) && a.peer == b.peer && a != b && !Incomparable(a, b);
      var p :| 0 <= p < |s| && s[p] == a;
      var q :| 0 <= q < |s| && s[q] == b;
      i, j := if p < q then p else q, if p < q then q else p;
    }
  }

  lemma FindFirst(v: View, k: nat) returns (i: nat)
    requires k < |v|
    ensures i <= k && v[i].peer == v[k].peer && Find(v, v[k].peer) == Some(v[i])
  {
    if v[0].peer == v[k].peer {
      i := 0;
    } else {
      i := FindFirst(v[1..], k - 1);
      i := i + 1;
    }
  }

  /** Merging loses a record if the first one of `v` and some record of `tail` supersede one
      another; `tail` is in hop order and not younger than that first one. */
  lemma MergedLosesOne(v: View, tail: View, k: nat)
    requires v != [] && k < |tail| && Comparable(v[0], tail[k]) && SortedByHop(tail) && v[0].hop <= tail[0].hop
    ensures |Merged(v, tail)| < |v| + |tail|
  {
    var a, b := v[0], tail[k];
    var i := FindFirst(tail, k);
    var first := tail[i];
    assert a.hop <= first.hop <= b.hop;
    FilterShortens((g: Record) => Survives(g, Find(tail, g.peer), true), v);
    FilterShortens((g: Record) => Survives(g, Find(v, g.peer), false), tail);
    assert Find(tail, a.peer) == Some(first) && Find(v, b.peer) == Some(a) && Find(v, first.peer) == Some(a);
    hide Filter, Find, SortedByHop;
    assert a in v && b in tail && first in tail;
    assert !Survives(b, Some(a), false) || !Survives(first, Some(a), false) || !Survives(a, Some(first), true);
  }

  /** With as much protection as sets the second of two such records apart from the first. */
  lemma MayShrink(u: View) returns (cfg: Config, ch: Choices, out: View)
    requires !Clean(multiset(u))
    ensures MergeSteps(cfg, u, ch, out) && |out| < Min(|u|, cfg.maxView)
  {
    var s := SortSpec(u);
    var i, j := UncleanPair(s);
    var shuffled := [s[i]] + s[..i] + s[i + 1..j];
    assert s[i].hop <= s[j].hop && SortedByHop(s[j..]);
    hide *;
    assert [s[..j][i]] + s[..j][..i] + s[..j][i + 1..] == shuffled;
    MovedUp(s[..j], i, shuffled);
    MergedLosesOne(shuffled, s[j..], 0);
    cfg := Config(|u|, 0, |u| - j);
    ch := Split(cfg, u, s, j, shuffled);
    out := IncrHops(Merged(shuffled, s[j..]));
  }

  /** The outcome of a merge that neither swaps nor evicts, with all but `j` protected. */
  lemma Split(cfg: Config, u: View, s: View, j: nat, shuffled: View) returns (ch: Choices)
    requires IsPerm(s, u) && SortedByHop(s) && |s| == |u| && j <= |u| && IsPerm(shuffled, s[..j])
    requires cfg == Config(|u|, 0, |u| - j)
    ensures MergeSteps(cfg, u, ch, IncrHops(Merged(shuffled, s[j..])))
  {
    hide Merged, IncrHops, SortedByHop, IsPerm, MergeSteps;
    PermLength(shuffled, s[..j]);
    assert u[0..] == u;
    ch := OutcomeOf(cfg, u, s, |u| - j, shuffled);
    assert Kept(cfg, ch) == shuffled && ch.oldest == s[j..];
  }

  lemma MovedUp(front: View, i: nat, shuffled: View)
    requires i < |front| && shuffled == [front[i]] + front[..i] + front[i + 1..]
    ensures IsPerm(shuffled, front)
  {
    assert front == front[..i] + [front[i]] + front[i + 1..];
  }

  /** The size of a merge is min(n, MaxView), n the size of the deduplicated union, for all
      parameters and all random choices if and only if no record of that union supersedes
      another one. Views that name each peer once make sure of it; a remote view that
      repeats a peer may not. */
  lemma MergeSizeIff(self: PeerID, local: View, remote: View)
    ensures Clean(multiset(Union(self, local, remote))) <==>
            forall cfg: Config, out: View :: MergeOutcome(cfg, self, local, remote, out) ==>
              |out| == Min(|Union(self, local, remote)|, cfg.maxView)
    ensures DistinctPeers(local) && DistinctPeers(remote) ==> Clean(multiset(Union(self, local, remote)))
  {
    var u := Union(self, local, remote);
    if Clean(multiset(u)) {
      forall cfg: Config, out: View | MergeOutcome(cfg, self, local, remote, out)
        ensures |out| == Min(|u|, cfg.maxView)
      {
        MergeSize(cfg, self, local, remote, out);
      }
    } else {
      var cfg, ch, out := MayShrink(u);
      assert MergeOutcome(cfg, self, local, remote, out);
    }
    if DistinctPeers(local) && DistinctPeers(remote) {
      UnionIsClean(self, local, remote);
    }
  }

  /** A receiver accepts a view that repeats a peer, and then the size is not certain. */
  lemma RepeatsAreAccepted(self: PeerID, p: PeerID, sender: PeerID) returns (cfg: Config, out: View)
    requires self != p && self != sender && p != sender
    ensures var remote := [Record(p, 0, 1), Record(p, 0, 1), Record(sender, 0, 0)];
            && ValidView(remote) && !Clean(multiset(Union(self, [], remote)))
            && MergeOutcome(cfg, self, [], remote, out)
            && |out| < Min(|Union(self, [], remote)|, cfg.maxView)
  {
    var remote := [Record(p, 0, 1), Record(p, 0, 1), Record(sender, 0, 0)];
    UnionWithNone(self, remote);
    TwoPositions(remote, 0, 1);
    hide Union, MergeSteps;
    var ch;
    cfg, ch, out := MayShrink(remote);
    assert MergeOutcome(cfg, self, [], remote, out);
  }

  // ---- Certain size, for given parameters ----

  /** Whether the sort, the coin and the shuffle may bring `a` among the records that random
      eviction spares and at once `b` among the protected ones that stay. If all of MaxView
      is protected, something is spared only when something decays. */
  predicate Separable(cfg: Config, t: View, a: Record, b: Record) {
    var r := Min(Min(cfg.protect, cfg.maxView), |t|);
    var gone := if r == cfg.maxView then 1 else 0;
    a.hop <= b.hop && AsOld(t, a) > r && Older(t, b) < r && gone < r && gone < AsOld(t, b)
  }

  /** Two records, one of which supersedes the other, may be separated. */
  ghost predicate MayLose(cfg: Config, t: View) {
    exists x, y :: 0 <= x < |t| && 0 <= y < |t| && x != y && Comparable(t[x], t[y]) && Separable(cfg, t, t[x], t[y])
  }

  lemma PairInPerm(t: View, s: View, x: nat, y: nat) returns (p: nat, q: nat)
    requires IsPerm(t, s) && x < |t| && y < |t| && x != y
    ensures p < |s| && q < |s| && p != q && s[p] == t[x] && s[q] == t[y]
  {
    if t[x] == t[y] {
      TwoPositions(t, x, y);
      p, q := TwiceIn(s, t[x]);
    } else {
      p := InPerm(t, s, t[x]);
      q := InPerm(t, s, t[y]);
    }
  }

  /** Two records may turn out at any two positions of their ages. */
  lemma ArrangePair(t: View, x: nat, y: nat, i: nat, j: nat) returns (sorted: View)
    requires x < |t| && y < |t| && x != y && i != j
    requires |t| - AsOld(t, t[x]) <= i < |t| - Older(t, t[x]) && |t| - AsOld(t, t[y]) <= j < |t| - Older(t, t[y])
    ensures IsPerm(sorted, t) && SortedByHop(sorted) && |sorted| == |t| && i < |t| && j < |t|
    ensures sorted[i] == t[x] && sorted[j] == t[y]
  {
    hide AsOld, Older, SortSpec;
    var a, b, s := t[x], t[y], SortSpec(t);
    var p, q := PairInPerm(t, s, x, y);
    Position(t, s, a, i);
    var s1 := s[i := s[p]][p := s[i]];
    Exchange(s, p, i);
    var q1 := if q == i then p else q;
    Position(t, s1, b, j);
    sorted := s1[j := s1[q1]][q1 := s1[j]];
    Exchange(s1, q1, j);
  }

  /** Merging loses nothing if no record of one side and record of the other supersede one
      another. */
  lemma MergedKeepsAll(v: View, tail: View)
    requires forall a, b | a in v && b in tail :: !Comparable(a, b)
    ensures Merged(v, tail) == v + tail
  {
    forall g | g in v
      ensures Survives(g, Find(tail, g.peer), true)
    {
      FindNone(tail, g.peer);
    }
    forall g | g in tail
      ensures Survives(g, Find(v, g.peer), false)
    {
      FindNone(v, g.peer);
      assert Find(v, g.peer).Some? ==> !Comparable(Find(v, g.peer).value, g);
    }
    FilterAll((g: Record) => Survives(g, Find(tail, g.peer), true), v);
    FilterAll((g: Record) => Survives(g, Find(v, g.peer), false), tail);
  }

  /** The two sides of the closing merge make up the certain size. */
  lemma SidesAddUp(cfg: Config, u: View, ch: Choices, out: View)
    requires MergeSteps(cfg, u, ch, out)
    ensures |ch.oldest| <= cfg.maxView && |Kept(cfg, ch)| + |ch.oldest| == Min(|u|, cfg.maxView)
    ensures out == IncrHops(Merged(Kept(cfg, ch), ch.oldest))
  {
    hide IsPerm, SortedByHop, Merged, IncrHops;
  }

  /** What separates a pair. */
  lemma SeparatedPair(cfg: Config, u: View, ch: Choices, out: View, a: Record, b: Record)
    requires MergeSteps(cfg, u, ch, out) && Comparable(a, b)
    requires |ch.oldest| <= cfg.maxView && a in Kept(cfg, ch) && b in ch.oldest
    ensures MayLose(cfg, Unswapped(cfg, u))
  {
    var t, s := Unswapped(cfg, u), ch.Sorted();
    hide Merged, IncrHops, AsOld, Older;
    var i := InPerm(ch.shuffled, ch.front, a);
    var k :| 0 <= k < |ch.oldest| && ch.oldest[k] == b;
    var j := |ch.front| + k;
    assert s[i] == a && s[j] == b;
    Position(t, s, a, i);
    Position(t, s, b, j);
    var x, y := PairInPerm(s, t, i, j);
    assert Separable(cfg, t, t[x], t[y]);
  }

  /** Where to put a pair to separate it. */
  lemma PairPositions(cfg: Config, t: View, a: Record, b: Record) returns (i: nat, j: nat)
    requires a in t && b in t && Separable(cfg, t, a, b)
    ensures |t| - AsOld(t, a) <= i < |t| - Older(t, a) && |t| - AsOld(t, b) <= j < |t| - Older(t, b)
    ensures var r := Protected(cfg, |t|);
            i < |t| - r <= j < |t| - if r == cfg.maxView then 1 else 0
  {
    SomePosition(t, a);
    SomePosition(t, b);
    i, j := |t| - AsOld(t, a), Max(|t| - AsOld(t, b), |t| - Protected(cfg, |t|));
  }

  lemma FrontMovedUp(s: View, f: nat, i: nat)
    requires i < f <= |s|
    ensures IsPerm([s[i]] + s[..i] + s[i + 1..f], s[..f])
  {
    assert [s[..f][i]] + s[..f][..i] + s[..f][i + 1..] == [s[i]] + s[..i] + s[i + 1..f];
    MovedUp(s[..f], i, [s[i]] + s[..i] + s[i + 1..f]);
  }

  lemma SortedSlice(s: View, i: nat, lo: nat, j: nat, hi: nat)
    requires SortedByHop(s) && i < lo <= j < hi <= |s|
    ensures SortedByHop(s[lo..hi]) && s[i].hop <= s[lo..hi][0].hop && s[lo..hi][j - lo] == s[j]
  {}

  /** How many protected records stay when as few decay as lets something be spared. */
  function Staying(cfg: Config, r: nat): (left: int)
    ensures left <= r && (r < cfg.maxView ==> left == r)
  {
    if r == cfg.maxView then r - 1 else r
  }

  /** The outcome in which that many stay and the record at `i` is shuffled to the front. */
  lemma SparedOutcome(cfg: Config, u: View, s: View, i: nat, f: nat, left: nat) returns (ch: Choices)
    requires IsPerm(s, Unswapped(cfg, u)) && SortedByHop(s) && |s| == |Unswapped(cfg, u)|
    requires f == |s| - Protected(cfg, |s|) && i < f && 0 < left == Staying(cfg, Protected(cfg, |s|))
    ensures ch.oldest == s[f..f + left] && |ch.oldest| <= cfg.maxView
    ensures Kept(cfg, ch) != [] && Kept(cfg, ch)[0] == s[i]
    ensures MergeSteps(cfg, u, ch, IncrHops(Merged(Kept(cfg, ch), ch.oldest)))
  {
    assert left < cfg.maxView && Protected(cfg, |s|) - MaxDecay(cfg, |s|) <= left;
    hide AsOld, Older, Merged, IncrHops, MergeSteps, IsPerm, SortedByHop, Staying, Protected, MaxDecay, Swapped, Min, Max;
    FrontMovedUp(s, f, i);
    ch := SplitOutcome(cfg, u, s, f, left, [s[i]] + s[..i] + s[i + 1..f]);
  }

  lemma SplitOutcome(cfg: Config, u: View, s: View, f: nat, left: nat, shuffled: View) returns (ch: Choices)
    requires IsPerm(s, Unswapped(cfg, u)) && SortedByHop(s) && |s| == |Unswapped(cfg, u)|
    requires f == |s| - Protected(cfg, |s|) && Protected(cfg, |s|) - MaxDecay(cfg, |s|) <= left <= Protected(cfg, |s|)
    requires IsPerm(shuffled, s[..f])
    ensures ch.oldest == s[f..f + left] && ch.shuffled == shuffled && |ch.oldest| <= cfg.maxView
    ensures MergeSteps(cfg, u, ch, IncrHops(Merged(Kept(cfg, ch), ch.oldest)))
  {
    hide Merged, IncrHops, MergeSteps, IsPerm, SortedByHop, MaxDecay;
    ch := OutcomeOf(cfg, u, s, left, shuffled);
  }

  /** A pair that is separated so loses a record. */
  lemma LosesFrom(cfg: Config, u: View, s: View, i: nat, j: nat, f: nat, left: nat) returns (ch: Choices, out: View)
    requires IsPerm(s, Unswapped(cfg, u)) && SortedByHop(s) && |s| == |Unswapped(cfg, u)|
    requires f == |s| - Protected(cfg, |s|) && left == Staying(cfg, Protected(cfg, |s|))
    requires i < f <= j < f + left <= |s| && Comparable(s[i], s[j])
    ensures MergeSteps(cfg, u, ch, out) && |out| < Min(|u|, cfg.maxView)
  {
    hide *;
    ch := SparedOutcome(cfg, u, s, i, f, left);
    out := IncrHops(Merged(Kept(cfg, ch), ch.oldest));
    SidesAddUp(cfg, u, ch, out);
    SortedSlice(s, i, f, j, f + left);
    MergedLosesOne(Kept(cfg, ch), ch.oldest, j - f);
    AgedLength(Merged(Kept(cfg, ch), ch.oldest));
  }

  /** How to separate a pair. */
  lemma LosingOutcome(cfg: Config, u: View, x: nat, y: nat) returns (ch: Choices, out: View)
    requires var t := Unswapped(cfg, u);
             x < |t| && y < |t| && x != y && Comparable(t[x], t[y]) && Separable(cfg, t, t[x], t[y])
    ensures MergeSteps(cfg, u, ch, out) && |out| < Min(|u|, cfg.maxView)
  {
    var t := Unswapped(cfg, u);
    hide AsOld, Older, MergeSteps, Unswapped, IsPerm, SortedByHop, Comparable;
    var r := Protected(cfg, |t|);
    var f, left := |t| - r, Staying(cfg, r);
    var i, j := PairPositions(cfg, t, t[x], t[y]);
    assert j < f + left <= |t|;
    hide Separable, Protected, Staying;
    var s := ArrangePair(t, x, y, i, j);
    ch, out := LosesFrom(cfg, u, s, i, j, f, left);
  }

  lemma AgedLength(v: View)
    ensures |IncrHops(v)| == |v|
  {}

  /** For given parameters, the size of a merge is min(n, MaxView) whatever the random choices
      if and only if no two records of which one supersedes the other may be separated: one
      spared by eviction, the other protected. */
  lemma SizeCertainIff(cfg: Config, self: PeerID, local: View, remote: View)
    ensures (forall out :: MergeOutcome(cfg, self, local, remote, out) ==>
               |out| == Min(|Union(self, local, remote)|, cfg.maxView))
            <==> !MayLose(cfg, Unswapped(cfg, Union(self, local, remote)))
  {
    var u := Union(self, local, remote);
    var t := Unswapped(cfg, u);
    hide Union, Unswapped, MergeSteps, Separable, Comparable;
    if MayLose(cfg, t) {
      var x, y :| 0 <= x < |t| && 0 <= y < |t| && x != y && Comparable(t[x], t[y]) && Separable(cfg, t, t[x], t[y]);
      var ch, out := LosingOutcome(cfg, u, x, y);
      assert MergeOutcome(cfg, self, local, remote, out);
    } else {
      forall out | MergeOutcome(cfg, self, local, remote, out)
        ensures |out| == Min(|u|, cfg.maxView)
      {
        var ch :| MergeSteps(cfg, u, ch, out);
        SidesAddUp(cfg, u, ch, out);
        forall a, b | a in Kept(cfg, ch) && b in ch.oldest
          ensures !Comparable(a, b)
        {
          if Comparable(a, b) {
            SeparatedPair(cfg, u, ch, out, a, b);
          }
        }
        MergedKeepsAll(Kept(cfg, ch), ch.oldest);
      }
    }
  }
}
