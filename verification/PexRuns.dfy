/** Every run of gossip rounds among nodes that follow the protocol. Loading a view and
    committing the merged one are separate critical sections, so rounds of one node may
    overlap; messages may be delivered to any round, late, repeatedly or never, and may come
    from strangers that send what they please. */
module PexRuns {
  import opened Prelude
  import opened PexView
  import opened PexMerge
  import opened PexRound

  /** The nodes that follow the protocol, and their parameters. */
  type Net = map<PeerID, Config>

  /** A round that has pushed and not merged yet. */
  datatype Flight = Flight(node: PeerID, local: View)

  datatype Message = Message(sender: PeerID, view: View)

  datatype State = State(stores: map<PeerID, Entries>, flights: multiset<Flight>, sent: set<Message>, merges: nat)

  datatype Step =
    | Begin(node: PeerID, number: uint64, local: View)
    | Finish(flight: Flight, message: Message, out: View)
    | Abort(flight: Flight)

  /** What a run is restricted to: `serial`, that a node begins no round while another one is
      under way; `hops`, that no record a stranger sends has a hop above it. */
  datatype Mode = Mode(serial: bool, hops: Option<nat>)

  /** What a round may pull: a push of one of the nodes, or what strangers may send. */
  ghost predicate Sendable(mode: Mode, s: State, m: Message) {
    mode.hops.Some? ==> m in s.sent || forall g | g in m.view :: g.hop <= mode.hops.value
  }

  ghost predicate ValidNet(net: Net) {
    forall n | n in net :: net[n].maxView >= 2
  }

  ghost predicate Init(net: Net, s: State) {
    && s.stores.Keys == net.Keys && (forall n | n in net :: s.stores[n] == map[])
    && s.flights == multiset{} && s.sent == {} && s.merges == 0
  }

  ghost predicate Next(net: Net, mode: Mode, s: State, step: Step, s': State)
    requires ValidNet(net)
  {
    match step
    case Begin(n, number, local) =>
      && n in net && n in s.stores
      && IsViewOf(s.stores[n], local) && OldestLast(net[n].protect, local)
      && (mode.serial ==> forall f | f in s.flights :: f.node != n)
      && var own := Record(n, number, 0);
      s' == s.(flights := s.flights + multiset{Flight(n, Displaced(net[n], local, own))},
               sent := s.sent + {Message(n, Pushed(net[n], local, own))})
    case Finish(f, m, out) =>
      && f in s.flights && Sendable(mode, s, m) && f.node in net && f.node in s.stores
      && if ValidView(m.view) then
           && MergeOutcome(net[f.node], f.node, f.local, m.view, out)
           && s' == s.(stores := s.stores[f.node := Commit(s.stores[f.node], f.local, out)],
                       flights := s.flights - multiset{f}, merges := s.merges + 1)
         else
           s' == s.(flights := s.flights - multiset{f})
    case Abort(f) =>
      f in s.flights && s' == s.(flights := s.flights - multiset{f})
  }

  // ---- What every step keeps ----

  ghost predicate StoreOk(node: PeerID, e: Entries, merges: nat) {
    WellKeyed(e) && node !in e && forall p | p in e :: 1 <= e[p].hop <= merges
  }

  ghost predicate FlightOk(f: Flight, merges: nat) {
    && DistinctPeers(f.local)
    && forall g | g in f.local :: g.hop <= merges && (g.peer != f.node ==> 1 <= g.hop)
  }

  ghost predicate MessageOk(cfg: Config, m: Message, merges: nat) {
    && ValidView(m.view) && DistinctPeers(m.view) && |m.view| <= cfg.maxView / 2
    && m.view[|m.view| - 1].peer == m.sender
    && forall g | g in m.view :: g.hop <= merges
  }

  /** No hop anywhere exceeds `bound`. */
  ghost predicate Inv(net: Net, bound: nat, s: State) {
    && s.stores.Keys == net.Keys
    && (forall n | n in net :: StoreOk(n, s.stores[n], bound))
    && (forall f | f in s.flights :: f.node in net && FlightOk(f, bound))
    && (forall m | m in s.sent :: m.sender in net && MessageOk(net[m.sender], m, bound))
  }

  lemma StoredOk(e: Entries, local: View, node: PeerID, merges: nat)
    requires StoreOk(node, e, merges) && IsViewOf(e, local)
    ensures DistinctPeers(local)
    ensures forall i | 0 <= i < |local| :: 1 <= local[i].hop <= merges && local[i].peer != node
  {}

  lemma PushedOk(cfg: Config, local: View, own: Record, merges: nat)
    requires cfg.maxView >= 2 && own.hop == 0 && DistinctPeers(local)
    requires forall i | 0 <= i < |local| :: 1 <= local[i].hop <= merges && local[i].peer != own.peer
    ensures MessageOk(cfg, Message(own.peer, Pushed(cfg, local, own)), merges)
  {
    var view := Pushed(cfg, local, own);
    forall i | 0 <= i < |view|
      ensures view[i].hop <= merges && (i < |view| - 1 ==> view[i] == local[i])
    {}
  }

  lemma BeginOk(cfg: Config, e: Entries, local: View, own: Record, merges: nat)
    requires cfg.maxView >= 2 && StoreOk(own.peer, e, merges) && IsViewOf(e, local) && own.hop == 0
    ensures FlightOk(Flight(own.peer, Displaced(cfg, local, own)), merges)
    ensures MessageOk(cfg, Message(own.peer, Pushed(cfg, local, own)), merges)
  {
    StoredOk(e, local, own.peer, merges);
    PushedOk(cfg, local, own, merges);
    assert own.peer !in e;
    hide MessageOk, Pushed, IsViewOf, StoreOk, DistinctPeers;
    DisplacedPeers(cfg, e, local, own);
  }

  lemma OutOk(cfg: Config, node: PeerID, local: View, remote: View, out: View, merges: nat, h: Record)
    requires FlightOk(Flight(node, local), merges) && merges + 1 < U64 && h in out
    requires MergeOutcome(cfg, node, local, remote, out) && forall g | g in remote :: g.hop <= merges
    ensures 1 <= h.hop <= merges + 1 && h.peer != node
  {
    hide MergeOutcome, Aged, DistinctPeers;
    var g := MergeOrigin(cfg, node, local, remote, out, h);
    AgedHop(g);
  }

  lemma AgedHop(g: Record)
    ensures Aged(g).peer == g.peer && (g.hop + 1 < U64 ==> Aged(g).hop == g.hop + 1)
  {}

  lemma MessageFacts(cfg: Config, m: Message, merges: nat)
    requires MessageOk(cfg, m, merges)
    ensures ValidView(m.view) && DistinctPeers(m.view) && forall g | g in m.view :: g.hop <= merges
  {}

  lemma CommitOk(cfg: Config, node: PeerID, e: Entries, local: View, remote: View, out: View, merges: nat)
    requires StoreOk(node, e, merges) && FlightOk(Flight(node, local), merges) && merges + 1 < U64
    requires MergeOutcome(cfg, node, local, remote, out) && forall g | g in remote :: g.hop <= merges
    ensures StoreOk(node, Commit(e, local, out), merges + 1)
  {
    hide FlightOk, MergeOutcome, Commit, LastOf, Peers;
    var e' := Commit(e, local, out);
    forall p | p in e'
      ensures p != node && e'[p].peer == p && 1 <= e'[p].hop <= merges + 1
    {
      CommitExactly(e, local, out, p);
      LastOfPeer(out, p);
      if LastOf(out, p).Some? {
        OutOk(cfg, node, local, remote, out, merges, LastOf(out, p).value);
      }
    }
  }

  lemma OkMonotone(net: Net, bound: nat, s: State)
    requires Inv(net, bound, s)
    ensures Inv(net, bound + 1, s)
  {}

  lemma BeginKeepsInv(net: Net, bound: nat, mode: Mode, s: State, step: Step, s': State)
    requires ValidNet(net) && Inv(net, bound, s) && step.Begin? && Next(net, mode, s, step, s')
    ensures Inv(net, bound, s')
  {
    var Begin(n, number, local) := step;
    hide StoreOk, FlightOk, MessageOk, Displaced, Pushed, IsViewOf, OldestLast;
    BeginOk(net[n], s.stores[n], local, Record(n, number, 0), bound);
    var f := Flight(n, Displaced(net[n], local, Record(n, number, 0)));
    assert forall g | g in s'.flights :: g in s.flights || g == f;
  }

  lemma FinishKeepsInv(net: Net, bound: nat, mode: Mode, s: State, step: Step, s': State)
    requires ValidNet(net) && Inv(net, bound, s) && step.Finish? && Next(net, mode, s, step, s')
    requires mode.hops.Some? && mode.hops.value <= bound < U64 - 1
    ensures Inv(net, bound + 1, s')
  {
    hide StoreOk, FlightOk, MessageOk, MergeOutcome, Commit, ValidView, DistinctPeers;
    var Finish(f, m, out) := step;
    if m in s.sent {
      MessageFacts(net[m.sender], m, bound);
    }
    assert forall g | g in m.view :: g.hop <= bound;
    if ValidView(m.view) {
      CommitOk(net[f.node], f.node, s.stores[f.node], f.local, m.view, out, bound);
    }
    OkMonotone(net, bound, s);
    FewerFlights(s.flights, f);
  }

  lemma FewerFlights(flights: multiset<Flight>, f: Flight)
    requires f in flights
    ensures forall g :: (flights - multiset{f})[g] == flights[g] - if g == f then 1 else 0
    ensures forall g | g in flights - multiset{f} :: g in flights
  {}

  /** Each merge ages records by one hop; no other step does. */
  lemma StepKeepsInv(net: Net, bound: nat, mode: Mode, s: State, step: Step, s': State)
    requires ValidNet(net) && Inv(net, bound, s) && Next(net, mode, s, step, s')
    requires mode.hops.Some? && mode.hops.value <= bound && bound + s'.merges - s.merges < U64
    ensures s.merges <= s'.merges <= s.merges + 1 && Inv(net, bound + s'.merges - s.merges, s')
  {
    hide Inv, MergeOutcome, Commit, Displaced, Pushed, IsViewOf, OldestLast, Sendable, ValidView;
    match step {
      case Begin(_, _, _) => BeginKeepsInv(net, bound, mode, s, step, s');
      case Finish(f, m, _) =>
        if ValidView(m.view) {
          FinishKeepsInv(net, bound, mode, s, step, s');
        } else {
          FlightLands(net, bound, s, f, s');
        }
      case Abort(f) => FlightLands(net, bound, s, f, s');
    }
  }

  lemma FlightLands(net: Net, bound: nat, s: State, f: Flight, s': State)
    requires Inv(net, bound, s) && f in s.flights && s' == s.(flights := s.flights - multiset{f})
    ensures Inv(net, bound, s')
  {
    hide StoreOk, FlightOk, MessageOk;
    FewerFlights(s.flights, f);
  }

  // ---- Runs ----

  ghost predicate IsRun(net: Net, mode: Mode, run: seq<State>, steps: seq<Step>)
    requires ValidNet(net)
  {
    && |run| == |steps| + 1 && Init(net, run[0])
    && forall i | 0 <= i < |steps| :: Next(net, mode, run[i], steps[i], run[i + 1])
  }

  lemma RunStep(net: Net, mode: Mode, run: seq<State>, steps: seq<Step>, i: nat)
    requires ValidNet(net) && IsRun(net, mode, run, steps) && i < |steps|
    ensures i + 1 < |run| && Next(net, mode, run[i], steps[i], run[i + 1])
  {
    hide Next;
  }

  lemma {:induction false} RunKeepsInv(net: Net, hops: nat, mode: Mode, run: seq<State>, steps: seq<Step>, i: nat)
    requires ValidNet(net) && IsRun(net, mode, run, steps) && i < |run|
    requires mode.hops == Some(hops) && hops + run[i].merges < U64
    ensures Inv(net, hops + run[i].merges, run[i])
  {
    hide Next, Inv, ValidNet;
    if i == 0 {
      StartsBounded(net, hops, run[0]);
    } else {
      RunStep(net, mode, run, steps, i - 1);
      MergesGrow(net, mode, run[i - 1], steps[i - 1], run[i]);
      RunKeepsInv(net, hops, mode, run, steps, i - 1);
      StepKeepsInv(net, hops + run[i - 1].merges, mode, run[i - 1], steps[i - 1], run[i]);
    }
  }

  lemma MergesGrow(net: Net, mode: Mode, s: State, step: Step, s': State)
    requires ValidNet(net) && Next(net, mode, s, step, s')
    ensures s.merges <= s'.merges
  {
    hide MergeOutcome, Commit, Displaced, Pushed, IsViewOf, OldestLast, Sendable, ValidView;
  }

  lemma StartsBounded(net: Net, hops: nat, s: State)
    requires Init(net, s)
    ensures Inv(net, hops + s.merges, s)
  {}

  /** In every run, overlapping or not, in which strangers send no hop above H and the merges
      so far and H together stay below 2^64: stored records have hop at least 1, no node
      stores itself, every pushed view has distinct peers, at most MaxView/2 records and the
      sender's own record last, and no receiver rejects it. Without strangers H is 0. */
  lemma BoundedRuns(net: Net, hops: nat, mode: Mode, run: seq<State>, steps: seq<Step>, i: nat)
    requires ValidNet(net) && IsRun(net, mode, run, steps) && i < |run|
    requires mode.hops == Some(hops) && hops + run[i].merges < U64
    ensures forall n | n in net :: n in run[i].stores && n !in run[i].stores[n]
    ensures forall n, p | n in net && p in run[i].stores[n] ::
              run[i].stores[n][p].peer == p && 1 <= run[i].stores[n][p].hop <= hops + run[i].merges
    ensures forall m | m in run[i].sent ::
              && m.sender in net && ValidView(m.view) && DistinctPeers(m.view) && |m.view| <= net[m.sender].maxView / 2
              && m.view[|m.view| - 1].peer == m.sender
  {
    RunKeepsInv(net, hops, mode, run, steps, i);
  }

  // ---- Runs with any strangers ----

  ghost predicate KeysOk(node: PeerID, e: Entries) {
    WellKeyed(e) && node !in e
  }

  /** A push names each peer once and ends with the sender's own record, of hop 0. */
  ghost predicate PushOk(cfg: Config, m: Message) {
    && m.view != [] && DistinctPeers(m.view) && |m.view| <= cfg.maxView / 2
    && m.view[|m.view| - 1].peer == m.sender && m.view[|m.view| - 1].hop == 0
  }

  ghost predicate OpenInv(net: Net, s: State) {
    && s.stores.Keys == net.Keys
    && (forall n | n in net :: KeysOk(n, s.stores[n]))
    && (forall f | f in s.flights :: f.node in net)
    && (forall m | m in s.sent :: m.sender in net && PushOk(net[m.sender], m))
  }

  lemma StoreGivesPush(cfg: Config, e: Entries, local: View, own: Record)
    requires cfg.maxView >= 2 && KeysOk(own.peer, e) && IsViewOf(e, local) && own.hop == 0
    ensures PushOk(cfg, Message(own.peer, Pushed(cfg, local, own)))
  {
    var view := Pushed(cfg, local, own);
    forall i | 0 <= i < |view| - 1
      ensures view[i] == local[i] && view[i].peer != own.peer
    {}
  }

  lemma CommitGivesKeys(cfg: Config, node: PeerID, e: Entries, local: View, remote: View, out: View)
    requires KeysOk(node, e) && MergeOutcome(cfg, node, local, remote, out)
    ensures KeysOk(node, Commit(e, local, out))
  {
    hide MergeOutcome, Commit, LastOf, Peers;
    var e' := Commit(e, local, out);
    OutPeers(cfg, node, local, remote, out);
    forall p | p in e'
      ensures p != node && e'[p].peer == p
    {
      CommitExactly(e, local, out, p);
      LastOfPeer(out, p);
      PutsKeys(map[], out, p);
    }
  }

  lemma BeginKeepsOpenInv(net: Net, mode: Mode, s: State, step: Step, s': State)
    requires ValidNet(net) && OpenInv(net, s) && step.Begin? && Next(net, mode, s, step, s')
    ensures OpenInv(net, s')
  {
    hide KeysOk, PushOk, Displaced, Pushed, IsViewOf, OldestLast;
    var Begin(n, number, local) := step;
    StoreGivesPush(net[n], s.stores[n], local, Record(n, number, 0));
    var f := Flight(n, Displaced(net[n], local, Record(n, number, 0)));
    assert forall g | g in s'.flights :: g in s.flights || g == f;
  }

  lemma FinishKeepsOpenInv(net: Net, mode: Mode, s: State, step: Step, s': State)
    requires ValidNet(net) && OpenInv(net, s) && step.Finish? && Next(net, mode, s, step, s')
    ensures OpenInv(net, s')
  {
    hide KeysOk, PushOk, MergeOutcome, Commit, ValidView;
    var Finish(f, m, out) := step;
    FewerFlights(s.flights, f);
    if ValidView(m.view) {
      CommitGivesKeys(net[f.node], f.node, s.stores[f.node], f.local, m.view, out);
    }
  }

  lemma StepKeepsOpenInv(net: Net, mode: Mode, s: State, step: Step, s': State)
    requires ValidNet(net) && OpenInv(net, s) && Next(net, mode, s, step, s')
    ensures OpenInv(net, s')
  {
    match step {
      case Begin(_, _, _) => BeginKeepsOpenInv(net, mode, s, step, s');
      case Finish(_, _, _) => FinishKeepsOpenInv(net, mode, s, step, s');
      case Abort(f) =>
        hide KeysOk, PushOk;
        FewerFlights(s.flights, f);
    }
  }

  lemma {:induction false} RunKeepsOpenInv(net: Net, mode: Mode, run: seq<State>, steps: seq<Step>, i: nat)
    requires ValidNet(net) && IsRun(net, mode, run, steps) && i < |run|
    ensures OpenInv(net, run[i])
  {
    if i > 0 {
      assert Next(net, mode, run[i - 1], steps[i - 1], run[i]);
      RunKeepsOpenInv(net, mode, run, steps, i - 1);
      StepKeepsOpenInv(net, mode, run[i - 1], steps[i - 1], run[i]);
    }
  }

  /** In every run, of any length and whatever strangers send: records are stored under their
      own peer, no node stores itself, a push names each peer once, has at most MaxView/2
      records and the sender's own last; and it is accepted exactly if no other record in it
      has hop 0. */
  lemma OpenRuns(net: Net, mode: Mode, run: seq<State>, steps: seq<Step>, i: nat)
    requires ValidNet(net) && IsRun(net, mode, run, steps) && i < |run|
    ensures forall n | n in net :: n in run[i].stores && n !in run[i].stores[n]
    ensures forall n, p | n in net && p in run[i].stores[n] :: run[i].stores[n][p].peer == p
    ensures forall m | m in run[i].sent ::
              && m.sender in net && DistinctPeers(m.view) && 0 < |m.view| <= net[m.sender].maxView / 2
              && m.view[|m.view| - 1].peer == m.sender
              && (ValidView(m.view) <==> forall k | 0 <= k < |m.view| - 1 :: m.view[k].hop != 0)
  {
    RunKeepsOpenInv(net, mode, run, steps, i);
    forall n | n in net
      ensures KeysOk(n, run[i].stores[n])
    {}
  }

  /** A store changes only when a round of its own node ends with a valid view, and then to
      the committed merge of what that round loaded; what was sent stays sent, and a round
      ends by landing or by being aborted. */
  lemma StoresChangeByRounds(net: Net, mode: Mode, run: seq<State>, steps: seq<Step>, i: nat, n: PeerID)
    requires ValidNet(net) && IsRun(net, mode, run, steps) && i < |steps| && n in net
    ensures n in run[i].stores && n in run[i + 1].stores
    ensures var s, s', step := run[i], run[i + 1], steps[i];
            && (s'.stores[n] != s.stores[n] ==>
                  && step.Finish? && step.flight.node == n && step.flight in s.flights && ValidView(step.message.view)
                  && MergeOutcome(net[n], n, step.flight.local, step.message.view, step.out)
                  && s'.stores[n] == Commit(s.stores[n], step.flight.local, step.out))
            && s.sent <= s'.sent && (s'.sent != s.sent ==> step.Begin?)
            && (forall f | f in s.flights :: f in s'.flights || step == Abort(f) || (step.Finish? && step.flight == f))
  {
    RunKeepsOpenInv(net, mode, run, steps, i);
    RunKeepsOpenInv(net, mode, run, steps, i + 1);
    RunStep(net, mode, run, steps, i);
    hide IsRun, MergeOutcome, Commit, Displaced, Pushed, IsViewOf, OldestLast, Sendable, ValidView, KeysOk, PushOk;
  }

  // ---- Rounds are possible ----

  lemma {:induction false} SomeView(e: Entries) returns (v: View)
    requires WellKeyed(e)
    ensures IsViewOf(e, v)
    decreases |e|
  {
    if e == map[] {
      v := [];
    } else {
      var p :| p in e;
      var w := SomeView(e - {p});
      v := w + [e[p]];
      OneMore(e, p, w);
    }
  }

  lemma OneMore(e: Entries, p: PeerID, w: View)
    requires WellKeyed(e) && p in e && IsViewOf(e - {p}, w)
    ensures IsViewOf(e, w + [e[p]])
  {
    var v := w + [e[p]];
    PeersSnoc(v);
    assert v[..|v| - 1] == w;
    assert forall i | 0 <= i < |w| :: w[i].peer in Peers(w);
    assert e.Keys == (e - {p}).Keys + {p};
    hide Peers;
  }

  /** Whatever has happened, every node can begin a round, and every round under way can end
      with any message that may be pulled; the model excludes no behaviour by getting stuck. */
  lemma RoundsGoOn(net: Net, mode: Mode, run: seq<State>, steps: seq<Step>, i: nat, n: PeerID, number: uint64, f: Flight, m: Message)
    requires ValidNet(net) && IsRun(net, mode, run, steps) && i < |run| && n in net
    ensures (mode.serial ==> forall g | g in run[i].flights :: g.node != n) ==>
              exists local: View, s': State :: Next(net, mode, run[i], Begin(n, number, local), s')
    ensures f in run[i].flights && Sendable(mode, run[i], m) ==>
              exists out: View, s': State :: Next(net, mode, run[i], Finish(f, m, out), s')
  {
    RunKeepsOpenInv(net, mode, run, steps, i);
    var s := run[i];
    hide IsRun;
    if mode.serial ==> forall g | g in s.flights :: g.node != n {
      assert KeysOk(n, s.stores[n]);
      BeginPossible(net, mode, s, n, number);
    }
    if f in s.flights && Sendable(mode, s, m) {
      FinishPossible(net, mode, s, f, m);
    }
  }

  lemma BeginPossible(net: Net, mode: Mode, s: State, n: PeerID, number: uint64)
    requires ValidNet(net) && n in net && n in s.stores && WellKeyed(s.stores[n])
    requires mode.serial ==> forall g | g in s.flights :: g.node != n
    ensures exists local: View, s': State :: Next(net, mode, s, Begin(n, number, local), s')
  {
    var loaded := SomeView(s.stores[n]);
    var local := SortSpec(loaded);
    ViewPermuted(s.stores[n], loaded, local);
    assert OldestLast(net[n].protect, local);
    hide IsViewOf, OldestLast, Displaced, Pushed, SortSpec;
    var own := Record(n, number, 0);
    var s' := s.(flights := s.flights + multiset{Flight(n, Displaced(net[n], local, own))},
                 sent := s.sent + {Message(n, Pushed(net[n], local, own))});
    assert Next(net, mode, s, Begin(n, number, local), s');
  }

  lemma FinishPossible(net: Net, mode: Mode, s: State, f: Flight, m: Message)
    requires ValidNet(net) && f in s.flights && f.node in net && f.node in s.stores && Sendable(mode, s, m)
    ensures exists out: View, s': State :: Next(net, mode, s, Finish(f, m, out), s')
  {
    var out := MergeTotal(net[f.node], f.node, f.local, m.view);
    hide MergeOutcome, Commit, ValidView, Sendable;
    var s' := if ValidView(m.view) then
                s.(stores := s.stores[f.node := Commit(s.stores[f.node], f.local, out)],
                   flights := s.flights - multiset{f}, merges := s.merges + 1)
              else s.(flights := s.flights - multiset{f});
    assert Next(net, mode, s, Finish(f, m, out), s');
  }

  // ---- Rounds that do not overlap ----

  /** Stores are bounded, and a round under way works on what its node still stores and is
      alone at its node. */
  ghost predicate Alone(net: Net, s: State)
    requires ValidNet(net)
  {
    && (forall n | n in net && n in s.stores :: |s.stores[n]| <= net[n].maxView + 1)
    && (forall f | f in s.flights ::
          s.flights[f] == 1 && f.node in net && f.node in s.stores && Current(net[f.node], s.stores[f.node], f))
    && (forall f, g | f in s.flights && g in s.flights && f.node == g.node :: f == g)
  }

  ghost predicate Current(cfg: Config, e: Entries, f: Flight)
    requires cfg.maxView >= 2
  {
    exists local: View, number: uint64 :: LoadedFrom(cfg, e, f, local, number)
  }

  ghost predicate LoadedFrom(cfg: Config, e: Entries, f: Flight, local: View, number: uint64)
    requires cfg.maxView >= 2
  {
    IsViewOf(e, local) && f.local == Displaced(cfg, local, Record(f.node, number, 0))
  }

  lemma FinishBound(cfg: Config, e: Entries, f: Flight, remote: View, out: View)
    requires cfg.maxView >= 2 && Current(cfg, e, f) && f.node !in e
    requires MergeOutcome(cfg, f.node, f.local, remote, out)
    ensures |Commit(e, f.local, out)| <= cfg.maxView + 1
  {
    var local: View, number: uint64 :| LoadedFrom(cfg, e, f, local, number);
    RoundStore(cfg, e, local, Record(f.node, number, 0), remote, out);
  }

  lemma FinishKeepsAlone(net: Net, mode: Mode, s: State, step: Step, s': State)
    requires ValidNet(net) && OpenInv(net, s) && Alone(net, s) && step.Finish? && Next(net, mode, s, step, s')
    ensures Alone(net, s')
  {
    var Finish(f, m, out) := step;
    assert KeysOk(f.node, s.stores[f.node]);
    hide OpenInv, MergeOutcome, Commit, ValidView, DistinctPeers, Current, ValidNet;
    if ValidView(m.view) {
      FinishBound(net[f.node], s.stores[f.node], f, m.view, out);
      LandedAlone(net, s, f, Commit(s.stores[f.node], f.local, out), s');
    } else {
      FewerFlights(s.flights, f);
    }
  }

  lemma LandedAlone(net: Net, s: State, f: Flight, e: Entries, s': State)
    requires ValidNet(net) && Alone(net, s) && f in s.flights && f.node in net
    requires s'.stores == s.stores[f.node := e] && s'.flights == s.flights - multiset{f}
    requires |e| <= net[f.node].maxView + 1
    ensures Alone(net, s')
  {
    hide Current;
    FewerFlights(s.flights, f);
    assert forall g | g in s'.flights :: g in s.flights && g.node != f.node;
  }

  lemma BeginKeepsAlone(net: Net, mode: Mode, s: State, step: Step, s': State)
    requires ValidNet(net) && Alone(net, s) && step.Begin? && Next(net, mode, s, step, s') && mode.serial
    ensures Alone(net, s')
  {
    var Begin(n, number, local) := step;
    hide Displaced, Pushed, IsViewOf, OldestLast, Current;
    var f := Flight(n, Displaced(net[n], local, Record(n, number, 0)));
    IsCurrent(net[n], s.stores[n], f, local, number);
    assert forall g | g in s'.flights :: g in s.flights || g == f;
  }

  lemma IsCurrent(cfg: Config, e: Entries, f: Flight, local: View, number: uint64)
    requires cfg.maxView >= 2 && IsViewOf(e, local) && f.local == Displaced(cfg, local, Record(f.node, number, 0))
    ensures Current(cfg, e, f)
  {
    assert LoadedFrom(cfg, e, f, local, number);
  }

  lemma StepKeepsAlone(net: Net, mode: Mode, s: State, step: Step, s': State)
    requires ValidNet(net) && OpenInv(net, s) && Alone(net, s) && Next(net, mode, s, step, s') && mode.serial
    ensures Alone(net, s')
  {
    match step {
      case Begin(_, _, _) =>
        hide *;
        BeginKeepsAlone(net, mode, s, step, s');
      case Finish(_, _, _) =>
        hide *;
        FinishKeepsAlone(net, mode, s, step, s');
      case Abort(f) =>
        hide OpenInv;
        LandingKeepsAlone(net, s, f, s');
    }
  }

  lemma LandingKeepsAlone(net: Net, s: State, f: Flight, s': State)
    requires ValidNet(net) && Alone(net, s) && f in s.flights && s' == s.(flights := s.flights - multiset{f})
    ensures Alone(net, s')
  {
    hide Current;
    FewerFlights(s.flights, f);
  }

  lemma StartsAlone(net: Net, s: State)
    requires ValidNet(net) && Init(net, s)
    ensures Alone(net, s)
  {
    hide Current;
  }

  lemma {:induction false} SerialRunsAreAlone(net: Net, mode: Mode, run: seq<State>, steps: seq<Step>, i: nat)
    requires ValidNet(net) && IsRun(net, mode, run, steps) && mode.serial && i < |run|
    ensures Alone(net, run[i])
  {
    hide Alone, Next, OpenInv, ValidNet;
    if i == 0 {
      StartsAlone(net, run[0]);
    } else {
      RunStep(net, mode, run, steps, i - 1);
      RunKeepsOpenInv(net, mode, run, steps, i - 1);
      SerialRunsAreAlone(net, mode, run, steps, i - 1);
      StepKeepsAlone(net, mode, run[i - 1], steps[i - 1], run[i]);
    }
  }

  /** When the rounds of a node do not overlap, no store ever exceeds MaxView + 1, whatever
      strangers send. */
  lemma SerialRunsAreBounded(net: Net, mode: Mode, run: seq<State>, steps: seq<Step>, i: nat)
    requires ValidNet(net) && IsRun(net, mode, run, steps) && mode.serial && i < |run|
    ensures forall n | n in net :: n in run[i].stores && |run[i].stores[n]| <= net[n].maxView + 1
  {
    RunKeepsOpenInv(net, mode, run, steps, i);
    SerialRunsAreAlone(net, mode, run, steps, i);
    hide IsRun, Current, KeysOk, PushOk;
  }
}
