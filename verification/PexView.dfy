/** Gossip records, views, and the operators that a merge is a pipeline of. */
module PexView {
  import opened Prelude

  /** Peer identifiers are only ever compared for equality. */
  type PeerID = nat

  type uint64 = n: nat | n < U64

  /** A gossip record: whose address it is, the sequence number its owner gave it, and its
      age in gossip hops. */
  datatype Record = Record(peer: PeerID, number: uint64, hop: uint64)

  type View = seq<Record>

  // ---- Operators ----

  function Filter<T>(f: T -> bool, s: seq<T>): seq<T> {
    if s == [] then []
    else
      var n := |s| - 1;
      Filter(f, s[..n]) + if f(s[n]) then [s[n]] else []
  }

  /** The first record of peer `id`. */
  function Find(v: View, id: PeerID): Option<Record> {
    if v == [] then None
    else if v[0].peer == id then Some(v[0])
    else Find(v[1..], id)
  }

  function Head(n: nat, v: View): View {
    if n < |v| then v[..n] else v
  }

  /** `dedupe`: whether `g` survives next to the record `other` holds for the same peer. */
  predicate Survives(g: Record, have: Option<Record>, keepEqual: bool) {
    || have == None
    || g.number > have.value.number
    || g.hop < have.value.hop
    || (keepEqual && g.number == have.value.number && g.hop == have.value.hop)
  }

  function Dedupe(v: View, other: View, keepEqual: bool): View {
    Filter((g: Record) => Survives(g, Find(other, g.peer), keepEqual), v)
  }

  function Merged(v: View, tail: View): View {
    Dedupe(v, tail, true) + Dedupe(tail, v, false)
  }

  function IsNot(self: PeerID, v: View): View {
    Filter((g: Record) => self != g.peer, v)
  }

  /** The hop counter is an unsigned 64-bit word. */
  function Aged(g: Record): Record {
    g.(hop := (g.hop + 1) % U64)
  }

  function IncrHops(v: View): (r: View)
    ensures |r| == |v|
  {
    seq(|v|, i requires 0 <= i < |v| => Aged(v[i]))
  }

  /** The deduplicated union of both views without the node's own record. */
  function Union(self: PeerID, local: View, remote: View): View {
    IsNot(self, Merged(local, remote))
  }

  /** What a receiver accepts: a view whose last record alone has hop 0. */
  predicate ValidView(v: View) {
    && |v| > 0
    && (forall i :: 0 <= i < |v| - 1 ==> v[i].hop != 0)
    && v[|v| - 1].hop == 0
  }

  // ---- Vocabulary of the properties ----

  ghost predicate DistinctPeers(v: View) {
    forall i, j :: 0 <= i < j < |v| ==> v[i].peer != v[j].peer
  }

  ghost function Peers(v: View): set<PeerID> {
    set i | 0 <= i < |v| :: v[i].peer
  }

  ghost predicate SortedByHop(v: View) {
    forall i, j :: 0 <= i < j < |v| ==> v[i].hop <= v[j].hop
  }

  /** Neither record supersedes the other: one is newer, the other is strictly younger. */
  predicate Incomparable(a: Record, b: Record) {
    || (a.number > b.number && b.hop < a.hop)
    || (b.number > a.number && a.hop < b.hop)
  }

  /** The preferred one of two records of a peer: the higher sequence number, then the
      lower hop, then the local one. */
  function Best(local: Record, remote: Record): Record {
    if remote.number > local.number || (remote.number == local.number && remote.hop < local.hop)
    then remote else local
  }

  /** No record occurs twice and two records of one peer are incomparable. */
  ghost predicate Clean(m: multiset<Record>) {
    && (forall a :: m[a] <= 1)
    && (forall a, b | a in m && b in m :: a.peer == b.peer && a != b ==> Incomparable(a, b))
  }

  // ---- Lemmas about the operators ----

  lemma {:induction false} FilterIn<T>(f: T -> bool, s: seq<T>, x: T)
    ensures x in Filter(f, s) <==> x in s && f(x)
  {
    if s != [] {
      FilterIn(f, s[..|s| - 1], x);
      assert s == s[..|s| - 1] + [s[|s| - 1]];
    }
  }

  lemma {:induction false} FilterAll<T>(f: T -> bool, s: seq<T>)
    requires forall x | x in s :: f(x)
    ensures Filter(f, s) == s
  {
    if s != [] {
      FilterAll(f, s[..|s| - 1]);
      assert s == s[..|s| - 1] + [s[|s| - 1]];
    }
  }

  lemma {:induction false} FilterNone<T>(f: T -> bool, s: seq<T>)
    requires forall x | x in s :: !f(x)
    ensures Filter(f, s) == []
  {
    if s != [] {
      FilterNone(f, s[..|s| - 1]);
    }
  }

  lemma {:induction false} FilterCount<T>(f: T -> bool, s: seq<T>, x: T)
    ensures multiset(Filter(f, s))[x] == if f(x) then multiset(s)[x] else 0
  {
    if s != [] {
      FilterCount(f, s[..|s| - 1], x);
      assert s == s[..|s| - 1] + [s[|s| - 1]];
    }
  }

  lemma {:induction false} FilterShortens<T>(f: T -> bool, s: seq<T>)
    ensures |Filter(f, s)| <= |s|
    ensures (exists x :: x in s && !f(x)) ==> |Filter(f, s)| < |s|
  {
    if s != [] {
      var n := |s| - 1;
      FilterShortens(f, s[..n]);
      assert forall x | x in s :: x in s[..n] || x == s[n];
    }
  }

  lemma {:induction false} FilterConcat<T>(f: T -> bool, s: seq<T>, t: seq<T>)
    ensures Filter(f, s + t) == Filter(f, s) + Filter(f, t)
  {
    if t == [] {
      assert s + t == s;
    } else {
      var n := |t| - 1;
      FilterConcat(f, s, t[..n]);
      assert (s + t)[..|s + t| - 1] == s + t[..n];
    }
  }

  lemma {:induction false} FindNone(v: View, id: PeerID)
    ensures Find(v, id) == None <==> forall g | g in v :: g.peer != id
    ensures Find(v, id).Some? ==> Find(v, id).value in v && Find(v, id).value.peer == id
  {
    if v != [] {
      FindNone(v[1..], id);
      assert v == [v[0]] + v[1..];
    }
  }

  lemma {:induction false} FindConcat(v: View, w: View, p: PeerID)
    ensures Find(v + w, p) == if Find(v, p).Some? then Find(v, p) else Find(w, p)
  {
    if v == [] {
      assert v + w == w;
    } else {
      assert (v + w)[1..] == v[1..] + w;
      FindConcat(v[1..], w, p);
    }
  }

  /** With distinct peers, filtering by one peer leaves the record `Find` returns. */
  lemma {:induction false} OnlyOfPeer(v: View, p: PeerID)
    requires DistinctPeers(v)
    ensures Filter((g: Record) => g.peer == p, v) ==
            match Find(v, p) case None => [] case Some(g) => [g]
  {
    if v != [] {
      var n := |v| - 1;
      OnlyOfPeer(v[..n], p);
      FindConcat(v[..n], [v[n]], p);
      FindNone(v[..n], p);
      assert v == v[..n] + [v[n]];
      assert Find([v[n]], p) == if v[n].peer == p then Some(v[n]) else None;
    }
  }

  lemma {:induction false} FilterSwap<T>(f: T -> bool, g: T -> bool, s: seq<T>)
    ensures Filter(f, Filter(g, s)) == Filter(g, Filter(f, s))
  {
    if s != [] {
      var n := |s| - 1;
      FilterSwap(f, g, s[..n]);
      FilterConcat(f, Filter(g, s[..n]), if g(s[n]) then [s[n]] else []);
      FilterConcat(g, Filter(f, s[..n]), if f(s[n]) then [s[n]] else []);
      assert [s[n]][..0] == [];
    }
  }

  /** What one side of a merge keeps for peer `p`. */
  lemma {:induction false} DedupeOfPeer(v: View, other: View, keepEqual: bool, p: PeerID)
    requires DistinctPeers(v)
    ensures Filter((g: Record) => g.peer == p, Dedupe(v, other, keepEqual)) ==
            match Find(v, p)
            case None => []
            case Some(g) => if Survives(g, Find(other, p), keepEqual) then [g] else []
  {
    var f := (g: Record) => g.peer == p;
    var s := (g: Record) => Survives(g, Find(other, g.peer), keepEqual);
    FilterSwap(f, s, v);
    OnlyOfPeer(v, p);
    FindNone(v, p);
    if Find(v, p).Some? {
      var g := Find(v, p).value;
      assert Filter(s, [g]) == if s(g) then [g] else [] by { assert [g][..0] == []; }
    }
  }

  /** For every peer the merge keeps the best record, and it keeps a second one exactly
      when neither supersedes the other. */
  lemma MergedPerPeer(local: View, remote: View, p: PeerID)
    requires DistinctPeers(local) && DistinctPeers(remote)
    ensures var kept := Filter((g: Record) => g.peer == p, Merged(local, remote));
            match (Find(local, p), Find(remote, p))
            case (None, None) => kept == []
            case (Some(l), None) => kept == [l]
            case (None, Some(r)) => kept == [r]
            case (Some(l), Some(r)) =>
              if Incomparable(l, r) then kept == [l, r] else kept == [Best(l, r)]
  {
    var f := (g: Record) => g.peer == p;
    FilterConcat(f, Dedupe(local, remote, true), Dedupe(remote, local, false));
    DedupeOfPeer(local, remote, true, p);
    DedupeOfPeer(remote, local, false, p);
  }

  /** Both records of a peer survive only if they are incomparable, so the merge is clean. */
  lemma MergedIsClean(local: View, remote: View)
    requires DistinctPeers(local) && DistinctPeers(remote)
    ensures Clean(multiset(Merged(local, remote)))
  {
    var m := Merged(local, remote);
    forall a, b | a in m && b in m && a.peer == b.peer && a != b
      ensures Incomparable(a, b)
    {
      InMergedOfPeer(local, remote, a);
      InMergedOfPeer(local, remote, b);
    }
    forall a
      ensures multiset(m)[a] <= 1
    {
      var f := (g: Record) => g.peer == a.peer;
      MergedPerPeer(local, remote, a.peer);
      FilterCount(f, m, a);
      OnePeerCount(local, remote, a);
    }
  }

  lemma InMergedOfPeer(local: View, remote: View, a: Record)
    requires DistinctPeers(local) && DistinctPeers(remote) && a in Merged(local, remote)
    ensures match (Find(local, a.peer), Find(remote, a.peer))
            case (None, None) => false
            case (Some(l), None) => a == l
            case (None, Some(r)) => a == r
            case (Some(l), Some(r)) => if Incomparable(l, r) then a == l || a == r else a == Best(l, r)
  {
    MergedPerPeer(local, remote, a.peer);
    FilterIn((g: Record) => g.peer == a.peer, Merged(local, remote), a);
  }

  lemma OnePeerCount(local: View, remote: View, a: Record)
    requires DistinctPeers(local) && DistinctPeers(remote)
    ensures multiset(Filter((g: Record) => g.peer == a.peer, Merged(local, remote)))[a] <= 1
  {
    MergedPerPeer(local, remote, a.peer);
  }

  lemma UnionIsClean(self: PeerID, local: View, remote: View)
    requires DistinctPeers(local) && DistinctPeers(remote)
    ensures Clean(multiset(Union(self, local, remote)))
  {
    var m, u := Merged(local, remote), Union(self, local, remote);
    MergedIsClean(local, remote);
    forall a
      ensures multiset(u)[a] <= multiset(m)[a]
    {
      FilterCount((g: Record) => self != g.peer, m, a);
    }
    assert multiset(u) <= multiset(m);
  }

  /** Every record of the union comes from one of the views and is not the node's own. */
  lemma InUnion(self: PeerID, local: View, remote: View, g: Record)
    ensures g in Union(self, local, remote) ==> (g in local || g in remote) && g.peer != self
  {
    FilterIn((g: Record) => self != g.peer, Merged(local, remote), g);
    FilterIn((g: Record) => Survives(g, Find(remote, g.peer), true), local, g);
    FilterIn((g: Record) => Survives(g, Find(local, g.peer), false), remote, g);
  }

  /** The union holds of every other peer what the merged view holds of it, and nothing of the
      node itself. */
  lemma UnionPerPeer(self: PeerID, local: View, remote: View, p: PeerID)
    ensures Filter((g: Record) => g.peer == p, Union(self, local, remote)) ==
            if p == self then [] else Filter((g: Record) => g.peer == p, Merged(local, remote))
  {
    var m := Merged(local, remote);
    var ofPeer, other := (g: Record) => g.peer == p, (g: Record) => self != g.peer;
    FilterSwap(ofPeer, other, m);
    forall g: Record
      ensures g in Filter(ofPeer, m) ==> g.peer == p
    {
      FilterIn(ofPeer, m, g);
    }
    hide Merged, Filter;
    if p == self {
      FilterNone(other, Filter(ofPeer, m));
    } else {
      FilterAll(other, Filter(ofPeer, m));
    }
  }

  /** If nothing is superseded and neither view has the node's own record, the union is the
      local view followed by the remote one. */
  lemma UnionIsConcat(self: PeerID, local: View, remote: View)
    requires Clean(multiset(local) + multiset(remote))
    requires forall g | g in local || g in remote :: g.peer != self
    ensures Union(self, local, remote) == local + remote
  {
    MergedIsConcat(local, remote);
    FilterAll((g: Record) => self != g.peer, local + remote);
  }

  /** A view is valid exactly if it has one record of hop 0 and that is the last one. */
  lemma ValidViewIff(v: View)
    ensures ValidView(v) <==> v != [] && Filter(NoHop, v) == [v[|v| - 1]]
  {
    if v != [] {
      var n := |v| - 1;
      var front := Filter(NoHop, v[..n]);
      FilterLast(NoHop, v);
      FilterIn(NoHop, v[..n], v[n]);
      FrontHops(v);
      hide Filter;
      OnlyLast(front, v[n], NoHop(v[n]));
    }
  }

  lemma FrontHops(v: View)
    requires v != []
    ensures Filter(NoHop, v[..|v| - 1]) == [] <==> forall i :: 0 <= i < |v| - 1 ==> v[i].hop != 0
  {
    var w := v[..|v| - 1];
    FilterNoneIff(NoHop, w);
    hide Filter;
    assert forall i | 0 <= i < |w| :: w[i] == v[i];
  }

  predicate NoHop(g: Record) {
    g.hop == 0
  }

  lemma OnlyLast<T>(front: seq<T>, x: T, kept: bool)
    requires x in front ==> kept
    ensures front + (if kept then [x] else []) == [x] <==> kept && front == []
  {
    assert front == [x] ==> x in front;
    if kept {
      assert |front + [x]| == |front| + 1;
    }
  }

  lemma FilterLast<T>(f: T -> bool, s: seq<T>)
    requires s != []
    ensures Filter(f, s) == Filter(f, s[..|s| - 1]) + if f(s[|s| - 1]) then [s[|s| - 1]] else []
  {}

  lemma FilterNoneIff<T>(f: T -> bool, s: seq<T>)
    ensures Filter(f, s) == [] <==> forall i | 0 <= i < |s| :: !f(s[i])
  {
    if forall i | 0 <= i < |s| :: !f(s[i]) {
      FilterNone(f, s);
    } else {
      var i :| 0 <= i < |s| && f(s[i]);
      FilterIn(f, s, s[i]);
    }
  }

  lemma UnionWithNone(self: PeerID, remote: View)
    requires forall h | h in remote :: h.peer != self
    ensures Union(self, [], remote) == remote
  {
    FilterAll((h: Record) => Survives(h, Find([], h.peer), false), remote);
    FilterAll((h: Record) => self != h.peer, remote);
    assert Merged([], remote) == remote;
  }

  /** Merging two parts of a clean union drops nothing: it is plain concatenation. */
  lemma MergedIsConcat(a: View, b: View)
    requires Clean(multiset(a) + multiset(b))
    ensures Merged(a, b) == a + b
  {
    var m := multiset(a) + multiset(b);
    forall g | g in a
      ensures Survives(g, Find(b, g.peer), true)
    {
      FindNone(b, g.peer);
      assert Find(b, g.peer).Some? ==> m[g] >= 1 && (Find(b, g.peer).value == g ==> m[g] >= 2);
    }
    forall g | g in b
      ensures Survives(g, Find(a, g.peer), false)
    {
      FindNone(a, g.peer);
      assert Find(a, g.peer).Some? ==> m[g] >= 1 && (Find(a, g.peer).value == g ==> m[g] >= 2);
    }
    FilterAll((g: Record) => Survives(g, Find(b, g.peer), true), a);
    FilterAll((g: Record) => Survives(g, Find(a, g.peer), false), b);
  }

  lemma CleanSub(m: multiset<Record>, n: multiset<Record>)
    requires Clean(n) && m <= n
    ensures Clean(m)
  {}
}
