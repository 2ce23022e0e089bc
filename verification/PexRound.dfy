/** One gossip round: loading the push view, pushing, and committing the merged view. */
module PexRound {
  import opened Prelude
  import opened PexView
  import opened PexMerge

  /** The datastore of one namespace, keyed by peer. */
  type Entries = map<PeerID, Record>

  ghost predicate WellKeyed(e: Entries) {
    forall p | p in e :: e[p].peer == p
  }

  /** `v` lists the stored records, each once, in some order. */
  ghost predicate IsViewOf(e: Entries, v: View) {
    && DistinctPeers(v)
    && Peers(v) == e.Keys
    && forall i | 0 <= i < |v| :: v[i].peer in e && e[v[i].peer] == v[i]
  }

  /** The last `Protect` records are in hop order and at least as old as every earlier one. */
  ghost predicate OldestLast(protect: nat, v: View) {
    forall i, j :: 0 <= i < j < |v| && |v| - protect <= j ==> v[i].hop <= v[j].hop
  }

  // ---- Committing a view ----

  /** The records of `v` whose peer `other` does not mention. */
  function Diff(v: View, other: View): View {
    Filter((g: Record) => Find(other, g.peer) == None, v)
  }

  function Deletes(e: Entries, v: View): Entries {
    if v == [] then e else Deletes(e, v[..|v| - 1]) - {v[|v| - 1].peer}
  }

  function Puts(e: Entries, v: View): Entries {
    if v == [] then e else Puts(e, v[..|v| - 1])[v[|v| - 1].peer := v[|v| - 1]]
  }

  function Commit(e: Entries, was: View, now: View): Entries {
    Puts(Deletes(e, Diff(was, now)), now)
  }

  /** The last record of peer `p`. */
  function LastOf(v: View, p: PeerID): Option<Record> {
    if v == [] then None
    else if v[|v| - 1].peer == p then Some(v[|v| - 1])
    else LastOf(v[..|v| - 1], p)
  }

  lemma PeersSnoc(v: View)
    requires v != []
    ensures Peers(v) == Peers(v[..|v| - 1]) + {v[|v| - 1].peer}
  {
    var n := |v| - 1;
    assert forall p | p in Peers(v) :: p in Peers(v[..n]) + {v[n].peer} by {
      forall p | p in Peers(v)
        ensures p in Peers(v[..n]) + {v[n].peer}
      {
        var i :| 0 <= i < |v| && v[i].peer == p;
        assert i < n ==> v[..n][i].peer == p;
      }
    }
    assert forall i | 0 <= i < n :: v[..n][i].peer == v[i].peer;
  }

  lemma {:induction false} DeletesKeys(e: Entries, v: View)
    ensures Deletes(e, v).Keys == e.Keys - Peers(v)
    ensures forall p | p in Deletes(e, v) :: Deletes(e, v)[p] == e[p]
  {
    if v != [] {
      DeletesKeys(e, v[..|v| - 1]);
      PeersSnoc(v);
    }
  }

  lemma {:induction false} PutsKeys(e: Entries, v: View, p: PeerID)
    ensures Puts(e, v).Keys == e.Keys + Peers(v)
    ensures p in Peers(v) <==> LastOf(v, p).Some?
    ensures p in Puts(e, v) ==> Puts(e, v)[p] == match LastOf(v, p) case Some(g) => g case None => e[p]
  {
    if v != [] {
      PutsKeys(e, v[..|v| - 1], p);
      PeersSnoc(v);
    }
  }

  lemma DiffPeers(v: View, other: View)
    ensures Peers(Diff(v, other)) == Peers(v) - Peers(other)
  {
    forall p
      ensures p in Peers(Diff(v, other)) <==> p in Peers(v) - Peers(other)
    {
      var f := (g: Record) => Find(other, g.peer) == None;
      FindNone(other, p);
      if p in Peers(Diff(v, other)) {
        var i :| 0 <= i < |Diff(v, other)| && Diff(v, other)[i].peer == p;
        FilterIn(f, v, Diff(v, other)[i]);
        var j :| 0 <= j < |v| && v[j] == Diff(v, other)[i];
      }
      if p in Peers(v) && p !in Peers(other) {
        var i :| 0 <= i < |v| && v[i].peer == p;
        FilterIn(f, v, v[i]);
      }
    }
  }

  /** Committing leaves exactly the keys (stored minus old) union new; a repeated key keeps
      the last record and every other surviving entry is untouched. */
  lemma CommitExactly(e: Entries, was: View, now: View, p: PeerID)
    ensures Commit(e, was, now).Keys == (e.Keys - Peers(was)) + Peers(now)
    ensures p in Commit(e, was, now) ==>
              match LastOf(now, p)
              case Some(g) => Commit(e, was, now)[p] == g
              case None => p in e && Commit(e, was, now)[p] == e[p]
  {
    DeletesKeys(e, Diff(was, now));
    DiffPeers(was, now);
    PutsKeys(Deletes(e, Diff(was, now)), now, p);
  }

  lemma {:induction false} LastOfPeer(v: View, p: PeerID)
    ensures LastOf(v, p).Some? ==> LastOf(v, p).value in v && LastOf(v, p).value.peer == p
  {
    if v != [] {
      LastOfPeer(v[..|v| - 1], p);
    }
  }

  // ---- Pushing ----

  /** How many stored records are pushed in front of the node's own. */
  function PushLen(cfg: Config): nat
    requires cfg.maxView >= 2
  {
    cfg.maxView / 2 - 1
  }

  function Pushed(cfg: Config, local: View, own: Record): View
    requires cfg.maxView >= 2
  {
    Head(PushLen(cfg), local) + [own]
  }

  /** The local view after the push: the own record was appended to a shorter slice of the
      same array, and overwrote what lay behind it. */
  function Displaced(cfg: Config, local: View, own: Record): (r: View)
    requires cfg.maxView >= 2
    ensures |r| == |local|
  {
    if PushLen(cfg) < |local| then local[PushLen(cfg) := own] else local
  }

  /** A push is the first MaxView/2 - 1 stored records, or all if there are fewer, and the own
      record; what it overwrites is the stored record behind them. */
  lemma PushExactly(cfg: Config, local: View, own: Record)
    requires cfg.maxView >= 2
    ensures var k := cfg.maxView / 2 - 1;
            && Pushed(cfg, local, own) == local[..Min(|local|, k)] + [own]
            && Displaced(cfg, local, own) == if k < |local| then local[..k] + [own] + local[k + 1..] else local
  {}

  // ---- The store after a round ----

  lemma {:induction false} PeersBound(v: View)
    ensures |Peers(v)| <= |v|
  {
    if v != [] {
      PeersBound(v[..|v| - 1]);
      PeersSnoc(v);
    }
  }

  lemma DisplacedPeers(cfg: Config, e: Entries, local: View, own: Record)
    requires cfg.maxView >= 2 && IsViewOf(e, local) && own.peer !in e
    ensures DistinctPeers(Displaced(cfg, local, own))
    ensures var k := cfg.maxView / 2 - 1;
            e.Keys - Peers(Displaced(cfg, local, own)) == if k < |local| then {local[k].peer} else {}
  {
    var k, moved := PushLen(cfg), Displaced(cfg, local, own);
    forall i | 0 <= i < |local|
      ensures local[i].peer in e && local[i].peer != own.peer
    {}
    if k < |local| {
      forall p | p in e.Keys
        ensures p in Peers(moved) <==> p != local[k].peer
      {
        var i :| 0 <= i < |local| && local[i].peer == p;
        if i != k {
          assert moved[i].peer == p;
        }
      }
    }
  }

  /** A push is accepted exactly if none of the stored records in it has hop 0. */
  lemma PushValidIff(cfg: Config, local: View, own: Record)
    requires cfg.maxView >= 2 && own.hop == 0
    ensures ValidView(Pushed(cfg, local, own)) <==> forall i | 0 <= i < Min(|local|, cfg.maxView / 2 - 1) :: local[i].hop != 0
  {
    var view := Pushed(cfg, local, own);
    assert forall i | 0 <= i < |view| - 1 :: view[i] == local[i];
  }

  /** The hop counter can wrap: a receiver accepts a record of hop 2^64 - 1 and then stores
      it with hop 0, whatever the random choices, so that it may push a view that is
      rejected. */
  lemma HopMayWrap(cfg: Config, self: PeerID, p: PeerID, sender: PeerID, out: View)
    requires cfg.maxView >= 2 && self != p && self != sender && p != sender
    ensures ValidView([Record(p, 0, U64 - 1), Record(sender, 0, 0)])
    ensures MergeOutcome(cfg, self, [], [Record(p, 0, U64 - 1), Record(sender, 0, 0)], out) ==>
              Record(p, 0, 0) in out && p in Commit(map[], [], out)
  {
    var g, last := Record(p, 0, U64 - 1), Record(sender, 0, 0);
    var remote := [g, last];
    assert Aged(g) == Record(p, 0, 0);
    if MergeOutcome(cfg, self, [], remote, out) {
      UnionWithNone(self, remote);
      UnionIsClean(self, [], remote);
      hide Union, MergeOutcome, Clean, Aged;
      MergeIsDeterministic(cfg, self, [], remote, out);
      assert remote[0..] == remote && IncrHops(remote)[0] == Aged(g);
      var i := InPerm(IncrHops(remote), out, Aged(g));
      CommitExactly(map[], [], out, p);
      assert out[i].peer in Peers(out);
    }
  }

  /** A round that nothing overlaps leaves exactly the merged peers in the store, plus the
      peer whose record the push overwrote; so the store never exceeds MaxView + 1. */
  lemma RoundStore(cfg: Config, e: Entries, local: View, own: Record, remote: View, out: View)
    requires cfg.maxView >= 2 && IsViewOf(e, local) && own.peer !in e
    requires MergeOutcome(cfg, own.peer, Displaced(cfg, local, own), remote, out)
    ensures var e' := Commit(e, Displaced(cfg, local, own), out);
            var k := cfg.maxView / 2 - 1;
            && e'.Keys == (if k < |local| then {local[k].peer} else {}) + Peers(out)
            && |e'| <= cfg.maxView + 1
            && (|local| <= k ==> e' == Puts(map[], out) && |e'| <= cfg.maxView)
  {
    hide MergeOutcome, IsViewOf, Displaced, Commit, Puts, Peers, Union, DistinctPeers;
    var moved := Displaced(cfg, local, own);
    DisplacedPeers(cfg, e, local, own);
    MergeBound(cfg, own.peer, moved, remote, out);
    PeersBound(out);
    CommitBound(e, moved, out);
    AtMostOne(e.Keys - Peers(moved), PushLen(cfg) < |local|, if PushLen(cfg) < |local| then local[PushLen(cfg)].peer else 0);
  }

  lemma AtMostOne(x: set<PeerID>, c: bool, p: PeerID)
    requires x == if c then {p} else {}
    ensures |x| == if c then 1 else 0
  {}

  lemma CommitBound(e: Entries, was: View, now: View)
    ensures var e' := Commit(e, was, now);
            && e'.Keys == (e.Keys - Peers(was)) + Peers(now)
            && |e'| <= |e.Keys - Peers(was)| + |Peers(now)|
            && (e.Keys - Peers(was) == {} ==> e' == Puts(map[], now) && |e'| == |Peers(now)|)
  {
    hide Commit, Puts, Peers, LastOf;
    CommitExactly(e, was, now, 0);
    UnionCard(e.Keys - Peers(was), Peers(now));
    if e.Keys - Peers(was) == {} {
      CommitIsPuts(e, was, now);
    }
  }

  lemma UnionCard(a: set<PeerID>, b: set<PeerID>)
    ensures |a + b| <= |a| + |b|
    ensures a == {} ==> a + b == b
  {
    assert a + b == a + (b - a);
  }

  lemma CommitIsPuts(e: Entries, was: View, now: View)
    requires e.Keys - Peers(was) == {}
    ensures Commit(e, was, now) == Puts(map[], now) && Puts(map[], now).Keys == Peers(now)
  {
    hide Commit, Puts, Peers, LastOf;
    PutsKeys(map[], now, 0);
    CommitExactly(e, was, now, 0);
    UnionCard(e.Keys - Peers(was), Peers(now));
    forall p | p in Peers(now)
      ensures Commit(e, was, now)[p] == Puts(map[], now)[p]
    {
      CommitExactly(e, was, now, p);
      PutsKeys(map[], now, p);
    }
  }

  /** The own record is never merged back, so no peer of the result is new. */
  lemma OutPeers(cfg: Config, self: PeerID, local: View, remote: View, out: View)
    requires MergeOutcome(cfg, self, local, remote, out)
    ensures Peers(out) <= Peers(local) + Peers(remote) && self !in Peers(out)
  {
    forall p | p in Peers(out)
      ensures p in Peers(local) + Peers(remote) && p != self
    {
      var i :| 0 <= i < |out| && out[i].peer == p;
      var g := MergeOrigin(cfg, self, local, remote, out, out[i]);
      if g in local {
        var j :| 0 <= j < |local| && local[j] == g;
      } else {
        var j :| 0 <= j < |remote| && remote[j] == g;
      }
    }
  }

  lemma {:induction false} FreshPeer(s: set<PeerID>) returns (p: PeerID)
    ensures forall q | q in s :: q < p
    decreases |s|
  {
    if s == {} {
      p := 0;
    } else {
      var q :| q in s;
      var r := FreshPeer(s - {q});
      p := if r <= q then q + 1 else r;
      assert forall x | x in s :: x == q || x in s - {q};
    }
  }

  /** Whether every round from this store ends with the merged view in it. */
  ghost predicate StoresTheView(cfg: Config, e: Entries, local: View, own: Record)
    requires cfg.maxView >= 2
  {
    forall remote: View, out: View ::
      ValidView(remote) && MergeOutcome(cfg, own.peer, Displaced(cfg, local, own), remote, out)
      ==> Commit(e, Displaced(cfg, local, own), out).Keys == Peers(out)
  }

  /** The store matches the merged view after every round exactly when the loaded view is
      short enough for the push not to overwrite any of it. */
  lemma StoreMatchesViewIff(cfg: Config, e: Entries, local: View, own: Record)
    requires cfg.maxView >= 2 && IsViewOf(e, local) && own.peer !in e
    ensures StoresTheView(cfg, e, local, own) <==> |local| <= cfg.maxView / 2 - 1
  {
    if |local| <= PushLen(cfg) {
      forall remote: View, out: View | ValidView(remote)
        && MergeOutcome(cfg, own.peer, Displaced(cfg, local, own), remote, out)
        ensures Commit(e, Displaced(cfg, local, own), out).Keys == Peers(out)
      {
        RoundStore(cfg, e, local, own, remote, out);
      }
    } else {
      LeftBehind(cfg, e, local, own);
    }
  }

  /** If the view is longer, a round with a newly met peer leaves the overwritten peer behind. */
  lemma LeftBehind(cfg: Config, e: Entries, local: View, own: Record)
    requires cfg.maxView >= 2 && IsViewOf(e, local) && own.peer !in e && |local| > cfg.maxView / 2 - 1
    ensures !StoresTheView(cfg, e, local, own)
  {
    hide *;
    var moved := Displaced(cfg, local, own);
    var lost := LostPeer(cfg, e, local, own);
    var stranger := FreshPeer(e.Keys + {own.peer});
    var remote := Greeting(stranger);
    var out := MergeTotal(cfg, own.peer, moved, remote);
    OutPeers(cfg, own.peer, moved, remote, out);
    RoundStore(cfg, e, local, own, remote, out);
    Refutes(cfg, e, local, own, remote, out);
  }

  lemma LostPeer(cfg: Config, e: Entries, local: View, own: Record) returns (lost: PeerID)
    requires cfg.maxView >= 2 && IsViewOf(e, local) && own.peer !in e && |local| > cfg.maxView / 2 - 1
    ensures lost == local[cfg.maxView / 2 - 1].peer && lost in e.Keys && lost !in Peers(Displaced(cfg, local, own))
  {
    lost := local[PushLen(cfg)].peer;
    DisplacedPeers(cfg, e, local, own);
  }

  /** The view a peer with an empty store pushes. */
  lemma Greeting(p: PeerID) returns (v: View)
    ensures ValidView(v) && Peers(v) == {p}
  {
    v := [Record(p, 0, 0)];
  }

  lemma Refutes(cfg: Config, e: Entries, local: View, own: Record, remote: View, out: View)
    requires cfg.maxView >= 2 && ValidView(remote)
    requires MergeOutcome(cfg, own.peer, Displaced(cfg, local, own), remote, out)
    requires Commit(e, Displaced(cfg, local, own), out).Keys != Peers(out)
    ensures !StoresTheView(cfg, e, local, own)
  {}

  // ---- The gossiper ----

  lemma ViewPermuted(e: Entries, v: View, w: View)
    requires IsViewOf(e, v) && IsPerm(w, v)
    ensures IsViewOf(e, w)
  {
    PermLength(w, v);
    forall i | 0 <= i < |w|
      ensures w[i].peer in e && e[w[i].peer] == w[i]
    {
      var k := InPerm(w, v, w[i]);
    }
    forall p | p in e.Keys
      ensures p in Peers(w)
    {
      var i :| 0 <= i < |v| && v[i].peer == p;
      var k := InPerm(v, w, v[i]);
    }
    forall i, j | 0 <= i < j < |w|
      ensures w[i].peer != w[j].peer
    {
      if w[i].peer == w[j].peer {
        assert w[i] == w[j];
        Twice(w, i, j);
        Once(v, w[i]);
      }
    }
    assert Peers(w) <= e.Keys;
  }

  lemma Twice(w: View, i: nat, j: nat)
    requires i < j < |w| && w[i] == w[j]
    ensures multiset(w)[w[i]] >= 2
  {
    assert w == w[..j] + [w[j]] + w[j + 1..];
    assert w[..j][i] == w[i];
  }

  lemma {:induction false} Once(v: View, g: Record)
    requires DistinctPeers(v)
    ensures multiset(v)[g] <= 1
  {
    if v != [] {
      var n := |v| - 1;
      Once(v[..n], g);
      assert v == v[..n] + [v[n]];
      if v[n] == g {
        assert g !in v[..n];
      }
    }
  }

  lemma FrontIsView(e: Entries, loaded: View, sorted: View, now: View, protect: nat)
    requires IsViewOf(e, loaded) && IsPerm(sorted, loaded) && IsPerm(now, sorted)
    requires OldestLast(Min(protect, |now|), now)
    ensures IsViewOf(e, now) && OldestLast(protect, now)
  {
    ViewPermuted(e, loaded, now);
  }

  class Gossiper {
    const cfg: Config
    const self: PeerID
    var entries: Entries

    ghost predicate Valid()
      reads this
    {
      cfg.maxView >= 2 && WellKeyed(entries) && self !in entries
    }

    constructor (cfg: Config, self: PeerID)
      requires cfg.maxView >= 2
      ensures Valid() && this.cfg == cfg && this.self == self && entries == map[]
    {
      this.cfg := cfg;
      this.self := self;
      entries := map[];
    }

    /** Reads every entry, in whatever order the datastore returns them. */
    method LoadView() returns (v: View)
      requires WellKeyed(entries)
      ensures IsViewOf(entries, v)
    {
      var todo := entries.Keys;
      v := [];
      while todo != {}
        invariant todo <= entries.Keys
        invariant DistinctPeers(v) && Peers(v) == entries.Keys - todo
        invariant forall i | 0 <= i < |v| :: v[i].peer in entries && entries[v[i].peer] == v[i]
        decreases todo
      {
        var p :| p in todo;
        var w := v + [entries[p]];
        PeersSnoc(w);
        assert w[..|w| - 1] == v;
        assert forall i | 0 <= i < |v| :: v[i].peer in Peers(v);
        v, todo := w, todo - {p};
      }
    }

    /** The view to push: sorted in place, then everything but the oldest records shuffled
        in place. (Appending the oldest records to the shuffled front copies them onto
        themselves.) Nothing is lost or duplicated. */
    method GetPushView() returns (local: array<Record>)
      requires WellKeyed(entries)
      ensures fresh(local) && IsViewOf(entries, local[..]) && OldestLast(cfg.protect, local[..])
    {
      hide IsPerm, SortedByHop, IsViewOf, OldestLast;
      var loaded := LoadView();
      local := new Record[|loaded|](i requires 0 <= i < |loaded| => loaded[i]);
      assert local[0..local.Length] == loaded;
      Sort(local, 0, local.Length);
      ghost var sorted := local[..];
      assert local[0..local.Length] == sorted;
      var front := local.Length - Min(cfg.protect, local.Length);
      Shuffle(local, 0, front);
      ghost var now := local[..];
      assert local[0..front] == now[..front] && sorted[0..front] == sorted[..front];
      assert forall k | front <= k < |now| :: now[k] == sorted[k];
      FrontShuffled(sorted, now, front);
      FrontIsView(entries, loaded, sorted, now, cfg.protect);
    }

    /** Sends the head of the view and the node's own record. The append reuses the view's
        array when the head is shorter than the view. */
    method Push(local: array<Record>, own: Record) returns (buffer: View)
      requires cfg.maxView >= 2
      modifies local
      ensures buffer == old(local[..])[..Min(local.Length, cfg.maxView / 2 - 1)] + [own]
      ensures buffer == Pushed(cfg, old(local[..]), own)
      ensures local[..] == Displaced(cfg, old(local[..]), own)
    {
      var n := cfg.maxView / 2 - 1;
      if n < local.Length {
        local[n] := own;
        buffer := local[..n + 1];
      } else {
        buffer := local[..] + [own];
      }
    }

    method StoreRecords(was: View, now: View)
      modifies this
      ensures entries == Commit(old(entries), was, now)
    {
      var gone := FilterView((g: Record) => Find(now, g.peer) == None, was);
      for i := 0 to |gone|
        invariant entries == Deletes(old(entries), gone[..i])
      {
        entries := entries - {gone[i].peer};
        assert gone[..i + 1][..i] == gone[..i];
      }
      assert gone[..|gone|] == gone;
      ghost var left := entries;
      for i := 0 to |now|
        invariant entries == Puts(left, now[..i])
      {
        entries := entries[now[i].peer := now[i]];
        assert now[..i + 1][..i] == now[..i];
      }
      assert now[..|now|] == now;
    }

    /** A whole round with nothing overlapping it: load, push, pull `remote`, merge, commit. */
    method Round(number: uint64, remote: View, coins: seq<bool>) returns (buffer: View, ok: bool)
      requires Valid()
      modifies this
      ensures Valid()
      ensures ok == ValidView(remote)
      ensures !ok ==> entries == old(entries)
      ensures exists local: View ::
                && IsViewOf(old(entries), local) && OldestLast(cfg.protect, local)
                && buffer == Pushed(cfg, local, Record(self, number, 0))
                && (ok ==> exists out: View ::
                     && MergeOutcome(cfg, self, Displaced(cfg, local, Record(self, number, 0)), remote, out)
                     && entries == Commit(old(entries), Displaced(cfg, local, Record(self, number, 0)), out))
      ensures ok ==> |entries| <= cfg.maxView + 1
      ensures ok && |old(entries)| <= cfg.maxView / 2 - 1 ==> |entries| <= cfg.maxView
    {
      var own := Record(self, number, 0);
      var local := GetPushView();
      ghost var loaded := local[..];
      ViewSize(entries, loaded);
      buffer := Push(local, own);
      var moved := local[..];
      var merged := Merge(cfg, self, moved, remote, coins);
      ok := merged.Some?;
      if ok {
        StoreRecords(moved, merged.value);
        RoundStore(cfg, old(entries), loaded, own, remote, merged.value);
        CommitKeepsKeys(cfg, old(entries), loaded, own, remote, merged.value);
      }
    }
  }

  lemma ViewSize(e: Entries, v: View)
    requires IsViewOf(e, v)
    ensures |e| == |v|
  {
    DistinctSize(v);
    assert |e| == |e.Keys|;
  }

  lemma {:induction false} DistinctSize(v: View)
    requires DistinctPeers(v)
    ensures |Peers(v)| == |v|
  {
    if v != [] {
      var n := |v| - 1;
      DistinctSize(v[..n]);
      PeersSnoc(v);
      assert v[n].peer !in Peers(v[..n]);
    }
  }

  lemma CommitKeepsKeys(cfg: Config, e: Entries, local: View, own: Record, remote: View, out: View)
    requires cfg.maxView >= 2 && WellKeyed(e) && own.peer !in e
    requires MergeOutcome(cfg, own.peer, Displaced(cfg, local, own), remote, out)
    ensures var e' := Commit(e, Displaced(cfg, local, own), out);
            WellKeyed(e') && own.peer !in e'
  {
    var moved := Displaced(cfg, local, own);
    OutPeers(cfg, own.peer, moved, remote, out);
    hide MergeOutcome, Displaced, Commit;
    forall p
      ensures p in Commit(e, moved, out) ==> Commit(e, moved, out)[p].peer == p && p != own.peer
    {
      CommitExactly(e, moved, out, p);
      PutsKeys(map[], out, p);
      LastOfPeer(out, p);
    }
  }

  /** Shuffling the front of a sorted view keeps its tail the oldest. */
  lemma FrontShuffled(sorted: View, v: View, front: nat)
    requires |v| == |sorted| && front <= |v| && SortedByHop(sorted)
    requires IsPerm(v[..front], sorted[..front]) && forall k | front <= k < |v| :: v[k] == sorted[k]
    ensures IsPerm(v, sorted) && OldestLast(|v| - front, v)
  {
    assert v[front..] == sorted[front..];
    SplitMultiset(v, front);
    SplitMultiset(sorted, front);
    forall i, j | 0 <= i < front <= j < |v|
      ensures v[i].hop <= v[j].hop
    {
      assert sorted == sorted[..front] + sorted[front..];
      assert v[front..][j - front] == v[j] && v[..front][i] == v[i];
      FrontIsYounger(sorted[..front], sorted[front..], v[..front], v[i], v[j]);
    }
  }
}
