/** Subscriptions of the bootstrap socket. Subscribers, cancel closures, the dispatcher and
    Close interleave: every locked section, every send and every close is a step of its own,
    and the write lock is not granted while the dispatcher holds the read lock. */
module Subscriptions {

  type Namespace = string
  type Chan = nat
  type SetID = nat

  const BUFFER := 16
  const WORD := 0x1_0000_0000

  /** Truncation to a signed 32-bit integer. */
  function Int32(n: int): (r: int)
    ensures -WORD / 2 <= r < WORD / 2
  {
    (n + WORD / 2) % WORD - WORD / 2
  }

  /** How far the sync.Once of a cancel closure has come. */
  datatype Once = Ready | Entered | Removed | Finished

  /** A subscription: its channel, the subscriber set its closure captured, its limiter. */
  datatype Sub = Sub(
    ns: Namespace, home: SetID, limit: int, remaining: int,
    sent: nat, queued: nat, received: nat, closes: nat, once: Once)
  {
    predicate Live() {
      once == Ready || once == Entered
    }

    predicate Limited() {
      limit > 0
    }
  }

  datatype Serve =
    | Idle
    | Dispatching(ns: Namespace, todo: set<Chan>, done: seq<Chan>)
    | Releasing(queue: seq<Chan>)

  datatype State = State(
    closed: bool, subs: map<Namespace, SetID>, sets: map<SetID, set<Chan>>,
    chans: map<Chan, Sub>, serve: Serve, panicked: bool)

  datatype Step =
    | Subscribe(ns: Namespace, limit: int, ch: Chan, id: SetID)
    | EnterCancel(ch: Chan, byDispatcher: bool)
    | RemoveLocked(ch: Chan)
    | CloseChan(ch: Chan)
    | Close
    | Receive(ch: Chan)
    | BeginDispatch(ns: Namespace)
    | Offer(ch: Chan)
    | EndDispatch
    | Released

  const START := State(false, map[], map[], map[], Idle, false)

  predicate Enabled(s: State, step: Step) {
    && !s.panicked
    && match step
       case Subscribe(_, _, ch, id) => !s.serve.Dispatching? && ch !in s.chans && id !in s.sets
       case EnterCancel(ch, byDispatcher) =>
         && ch in s.chans && s.chans[ch].once == Ready
         && (byDispatcher ==> s.serve.Releasing? && s.serve.queue != [] && s.serve.queue[0] == ch)
       case RemoveLocked(ch) => !s.serve.Dispatching? && ch in s.chans && s.chans[ch].once == Entered
       case CloseChan(ch) => ch in s.chans && s.chans[ch].once == Removed
       case Close => !s.serve.Dispatching?
       case Receive(ch) => ch in s.chans && s.chans[ch].queued > 0
       case BeginDispatch(_) => s.serve.Idle?
       case Offer(ch) => s.serve.Dispatching? && ch in s.serve.todo && ch in s.chans
       case EndDispatch => s.serve.Dispatching? && s.serve.todo == {}
       case Released =>
         // once.Do returns only when the closure has run to its end, whoever runs it.
         s.serve.Releasing? && (s.serve.queue == [] || (s.serve.queue[0] in s.chans && s.chans[s.serve.queue[0]].once == Finished))
  }

  function Members(s: State, id: SetID): set<Chan> {
    if id in s.sets then s.sets[id] else {}
  }

  function Apply(s: State, step: Step): State
    requires Enabled(s, step)
  {
    match step
    case Subscribe(ns, limit, ch, id) =>
      if s.closed then s
      else
        var home := if ns in s.subs then s.subs[ns] else id;
        s.(subs := s.subs[ns := home],
           sets := s.sets[home := Members(s, home) + {ch}],
           chans := s.chans[ch := Sub(ns, home, limit, Int32(limit), 0, 0, 0, 0, Ready)])
    case EnterCancel(ch, _) =>
      s.(chans := s.chans[ch := s.chans[ch].(once := Entered)])
    case RemoveLocked(ch) =>
      var sub := s.chans[ch];
      var rest := Members(s, sub.home) - {ch};
      s.(sets := s.sets[sub.home := rest],
         subs := if rest == {} then s.subs - {sub.ns} else s.subs,
         chans := s.chans[ch := sub.(once := Removed)])
    case CloseChan(ch) =>
      s.(chans := s.chans[ch := s.chans[ch].(once := Finished, closes := s.chans[ch].closes + 1)],
         panicked := s.chans[ch].closes > 0)
    case Close => s.(closed := true)
    case Receive(ch) =>
      s.(chans := s.chans[ch := s.chans[ch].(queued := s.chans[ch].queued - 1, received := s.chans[ch].received + 1)])
    case BeginDispatch(ns) =>
      s.(serve := Dispatching(ns, if ns in s.subs then Members(s, s.subs[ns]) else {}, []))
    case Offer(ch) =>
      var sub := s.chans[ch];
      if sub.closes > 0 then s.(panicked := true)
      else if sub.queued == BUFFER then s.(serve := s.serve.(todo := s.serve.todo - {ch}))
      else
        var left := if sub.Limited() then Int32(sub.remaining - 1) else sub.remaining;
        s.(chans := s.chans[ch := sub.(sent := sub.sent + 1, queued := sub.queued + 1, remaining := left)],
           serve := s.serve.(todo := s.serve.todo - {ch},
                             done := if sub.Limited() && left == 0 then s.serve.done + [ch] else s.serve.done))
    case EndDispatch => s.(serve := Releasing(s.serve.done))
    case Released =>
      s.(serve := if s.serve.queue == [] then Idle else Releasing(s.serve.queue[1..]))
  }

  // ---- Invariants ----

  /** After how many results the limiter fires: the limit itself up to 2^32. */
  function Cap(limit: int): (c: int)
    requires limit > 0
    ensures 1 <= c <= limit
    ensures c == limit <==> limit <= WORD
  {
    (limit - 1) % WORD + 1
  }

  /** Channels whose release the dispatcher has scheduled. */
  function Scheduled(serve: Serve): seq<Chan> {
    match serve
    case Idle => []
    case Dispatching(_, _, done) => done
    case Releasing(queue) => queue
  }

  /** A live subscription is in the set its closure captured, and that set is mapped. */
  ghost predicate HomeOk(s: State, ch: Chan, sub: Sub) {
    && sub.home in s.sets
    && (sub.Live() <==> ch in s.sets[sub.home])
    && (sub.Live() ==> sub.ns in s.subs && s.subs[sub.ns] == sub.home)
    && (sub.closes == if sub.once == Finished then 1 else 0)
    && sub.queued <= BUFFER && sub.sent == sub.received + sub.queued
  }

  ghost predicate LimitOk(s: State, ch: Chan, sub: Sub) {
    sub.Limited() ==>
      && sub.remaining == Int32(sub.limit - sub.sent)
      && sub.sent <= Cap(sub.limit)
      && (sub.sent == Cap(sub.limit) ==> ch in Scheduled(s.serve) || sub.once == Finished)
  }

  /** A namespace is mapped iff its set is non-empty, and sets are not shared. */
  ghost predicate MapOk(s: State) {
    && (forall ns | ns in s.subs :: s.subs[ns] in s.sets && s.sets[s.subs[ns]] != {})
    && (forall n1, n2 | n1 in s.subs && n2 in s.subs && s.subs[n1] == s.subs[n2] :: n1 == n2)
    && (forall id, ch | id in s.sets && ch in s.sets[id] :: ch in s.chans && s.chans[ch].home == id)
  }

  /** What the dispatcher still has to serve is live and below its limit. */
  ghost predicate TodoOk(s: State) {
    s.serve.Dispatching? ==> forall ch | ch in s.serve.todo ::
      && ch in s.chans && s.chans[ch].Live() && s.chans[ch].ns == s.serve.ns
      && (s.chans[ch].Limited() ==> s.chans[ch].sent < Cap(s.chans[ch].limit))
  }

  ghost predicate Shape(s: State) {
    MapOk(s) && forall ch | ch in s.chans :: HomeOk(s, ch, s.chans[ch])
  }

  ghost predicate Limits(s: State) {
    forall ch | ch in s.chans :: LimitOk(s, ch, s.chans[ch])
  }

  /** The dispatcher releases only what has reached its limit. */
  ghost predicate ScheduledOk(s: State) {
    forall ch | ch in Scheduled(s.serve) ::
      ch in s.chans && s.chans[ch].Limited() && s.chans[ch].sent == Cap(s.chans[ch].limit)
  }

  ghost predicate Inv(s: State) {
    !s.panicked && Shape(s) && Limits(s) && TodoOk(s) && ScheduledOk(s)
  }

  lemma Int32Steps(limit: int, sent: nat)
    requires limit > 0 && sent < Cap(limit)
    ensures Int32(Int32(limit - sent) - 1) == Int32(limit - (sent + 1))
    ensures Int32(limit - (sent + 1)) == 0 <==> sent + 1 == Cap(limit)
  {}

  /** A step that touches one subscription without moving it. */
  function Touched(s: State, ch: Chan, sub: Sub, serve: Serve): State {
    s.(chans := s.chans[ch := sub], serve := serve)
  }

  lemma TouchKeepsShape(s: State, ch: Chan, sub: Sub, serve: Serve)
    requires Shape(s) && ch in s.chans && sub.home == s.chans[ch].home && sub.ns == s.chans[ch].ns
    requires sub.Live() == s.chans[ch].Live() && sub.closes == if sub.once == Finished then 1 else 0
    requires sub.queued <= BUFFER && sub.sent == sub.received + sub.queued
    ensures Shape(Touched(s, ch, sub, serve))
  {
    assert HomeOk(s, ch, s.chans[ch]);
  }

  lemma TouchKeepsLimits(s: State, ch: Chan, sub: Sub, serve: Serve)
    requires Limits(s) && ch in s.chans && LimitOk(Touched(s, ch, sub, serve), ch, sub)
    requires forall c | c in Scheduled(s.serve) :: c in Scheduled(serve)
    ensures Limits(Touched(s, ch, sub, serve))
  {
    hide Int32, Cap;
  }

  lemma TouchKeepsTodo(s: State, ch: Chan, sub: Sub)
    requires TodoOk(s) && ch in s.chans && sub.ns == s.chans[ch].ns && sub.Live() == s.chans[ch].Live()
    requires sub.limit == s.chans[ch].limit && sub.sent == s.chans[ch].sent
    ensures TodoOk(Touched(s, ch, sub, s.serve))
  {
    hide Int32, Cap;
  }

  lemma TouchKeepsScheduled(s: State, ch: Chan, sub: Sub)
    requires ScheduledOk(s) && ch in s.chans && sub.limit == s.chans[ch].limit && sub.sent == s.chans[ch].sent
    ensures ScheduledOk(Touched(s, ch, sub, s.serve))
  {
    hide Int32, Cap;
  }

  /** Touching a subscription without sending to it. */
  lemma QuietTouchKeepsInv(s: State, ch: Chan, sub: Sub)
    requires Inv(s) && ch in s.chans && sub == s.chans[ch].(once := sub.once, closes := sub.closes, queued := sub.queued, received := sub.received)
    requires sub.Live() == s.chans[ch].Live() && sub.closes == if sub.once == Finished then 1 else 0
    requires (s.chans[ch].once == Finished ==> sub.once == Finished) && sub.queued <= BUFFER
    requires sub.sent == sub.received + sub.queued
    ensures Inv(Touched(s, ch, sub, s.serve))
  {
    assert LimitOk(s, ch, s.chans[ch]);
    assert LimitOk(Touched(s, ch, sub, s.serve), ch, sub);
    hide Shape, Limits, TodoOk, ScheduledOk;
    TouchKeepsShape(s, ch, sub, s.serve);
    TouchKeepsLimits(s, ch, sub, s.serve);
    TouchKeepsTodo(s, ch, sub);
    TouchKeepsScheduled(s, ch, sub);
  }

  lemma ClosesOk(s: State, ch: Chan)
    requires Shape(s) && ch in s.chans
    ensures s.chans[ch].closes == if s.chans[ch].once == Finished then 1 else 0
    ensures s.chans[ch].queued <= BUFFER && s.chans[ch].sent == s.chans[ch].received + s.chans[ch].queued
  {
    assert HomeOk(s, ch, s.chans[ch]);
  }

  lemma SubscribeKeepsShape(s: State, step: Step)
    requires Shape(s) && step.Subscribe? && Enabled(s, step) && !s.closed
    ensures Shape(Apply(s, step))
  {
    hide Int32;
    var s' := Apply(s, step);
    var home := s'.subs[step.ns];
    assert forall ns | ns in s.subs && ns != step.ns :: s.subs[ns] != home;
    assert MapOk(s');
    forall ch | ch in s'.chans
      ensures HomeOk(s', ch, s'.chans[ch])
    {
      if ch != step.ch {
        assert HomeOk(s, ch, s.chans[ch]);
      }
    }
  }

  lemma SubscribeKeepsInv(s: State, step: Step)
    requires Inv(s) && step.Subscribe? && Enabled(s, step)
    ensures Inv(Apply(s, step))
  {
    if !s.closed {
      SubscribeKeepsShape(s, step);
    }
    hide Int32, Cap, Shape;
  }

  lemma RemoveKeepsShape(s: State, step: Step)
    requires Shape(s) && step.RemoveLocked? && Enabled(s, step)
    ensures Shape(Apply(s, step))
  {
    var ch := step.ch;
    var sub, s' := s.chans[ch], Apply(s, step);
    assert HomeOk(s, ch, sub);
    var rest := Members(s, sub.home) - {ch};
    assert s.subs[sub.ns] == sub.home;
    forall c | c in s'.chans
      ensures HomeOk(s', c, s'.chans[c])
    {
      assert HomeOk(s, c, s.chans[c]);
      if c != ch && s.chans[c].Live() && s.chans[c].ns == sub.ns {
        assert c in rest;
      }
    }
  }

  lemma RemoveKeepsInv(s: State, step: Step)
    requires Inv(s) && step.RemoveLocked? && Enabled(s, step)
    ensures Inv(Apply(s, step))
  {
    RemoveKeepsShape(s, step);
    hide Int32, Cap, Shape;
  }

  /** What a send makes of the subscription, and of the dispatcher. */
  function Sent(sub: Sub): Sub {
    sub.(sent := sub.sent + 1, queued := sub.queued + 1,
         remaining := if sub.Limited() then Int32(sub.remaining - 1) else sub.remaining)
  }

  lemma SentKeepsLimit(s: State, ch: Chan, serve: Serve)
    requires ch in s.chans && LimitOk(s, ch, s.chans[ch])
    requires s.chans[ch].Limited() ==> s.chans[ch].sent < Cap(s.chans[ch].limit)
    requires s.chans[ch].Limited() && Sent(s.chans[ch]).remaining == 0 ==> ch in Scheduled(serve)
    ensures LimitOk(Touched(s, ch, Sent(s.chans[ch]), serve), ch, Sent(s.chans[ch]))
    ensures s.chans[ch].Limited() && Sent(s.chans[ch]).remaining == 0 ==>
              Sent(s.chans[ch]).sent == Cap(s.chans[ch].limit)
  {
    hide Int32, Cap;
    if s.chans[ch].Limited() {
      Int32Steps(s.chans[ch].limit, s.chans[ch].sent);
    }
  }

  lemma OfferKeepsScheduled(s: State, ch: Chan)
    requires Enabled(s, Offer(ch)) && TodoOk(s) && ScheduledOk(s) && Limits(s)
    ensures ScheduledOk(Apply(s, Offer(ch)))
  {
    hide Int32, Cap;
    var sub := s.chans[ch];
    assert LimitOk(s, ch, sub);
    assert ch !in Scheduled(s.serve);
    if sub.Limited() {
      Int32Steps(sub.limit, sub.sent);
    }
  }

  /** What an offer makes of the state: nothing is sent into a full buffer. */
  lemma OfferTouches(s: State, ch: Chan)
    requires Inv(s) && Enabled(s, Offer(ch))
    ensures var sub, s' := s.chans[ch], Apply(s, Offer(ch));
            && s.chans[ch].closes == 0 && s'.serve.Dispatching?
            && s' == Touched(s, ch, if sub.queued == BUFFER then sub else Sent(sub), s'.serve)
            && (forall c | c in Scheduled(s.serve) :: c in Scheduled(s'.serve))
            && (sub.queued < BUFFER && sub.Limited() && Sent(sub).remaining == 0 ==> ch in Scheduled(s'.serve))
  {
    ClosesOk(s, ch);
    hide Int32, Cap, Shape, Limits, ScheduledOk;
  }

  lemma OfferKeepsInv(s: State, step: Step)
    requires Inv(s) && step.Offer? && Enabled(s, step)
    ensures Inv(Apply(s, step))
  {
    var ch := step.ch;
    var sub, s' := s.chans[ch], Apply(s, step);
    hide Int32, Cap;
    OfferTouches(s, ch);
    ClosesOk(s, ch);
    OfferKeepsTodo(s, ch);
    OfferKeepsScheduled(s, ch);
    assert LimitOk(s, ch, sub) && sub.Live() && (sub.Limited() ==> sub.sent < Cap(sub.limit));
    hide Shape, Limits, ScheduledOk, TodoOk, Apply, Enabled, Scheduled;
    if sub.queued == BUFFER {
      QuietOffer(s, ch, s'.serve);
      TouchKeepsShape(s, ch, sub, s'.serve);
      TouchKeepsLimits(s, ch, sub, s'.serve);
    } else {
      SentKeepsLimit(s, ch, s'.serve);
      TouchKeepsShape(s, ch, Sent(sub), s'.serve);
      TouchKeepsLimits(s, ch, Sent(sub), s'.serve);
    }
  }

  lemma QuietOffer(s: State, ch: Chan, serve: Serve)
    requires ch in s.chans && LimitOk(s, ch, s.chans[ch]) && forall c | c in Scheduled(s.serve) :: c in Scheduled(serve)
    ensures LimitOk(Touched(s, ch, s.chans[ch], serve), ch, s.chans[ch])
  {
    hide Int32, Cap;
  }

  lemma OfferKeepsTodo(s: State, ch: Chan)
    requires Enabled(s, Offer(ch)) && TodoOk(s) && s.chans[ch].closes == 0
    ensures TodoOk(Apply(s, Offer(ch)))
  {
    hide Int32, Cap;
  }

  lemma DispatchKeepsInv(s: State, step: Step)
    requires Inv(s) && (step.EndDispatch? || step.Released?) && Enabled(s, step)
    ensures Inv(Apply(s, step))
  {
    hide Int32, Cap;
  }

  lemma BeginKeepsInv(s: State, step: Step)
    requires Inv(s) && step.BeginDispatch? && Enabled(s, step)
    ensures Inv(Apply(s, step))
  {
    var s' := Apply(s, step);
    hide Int32, Cap;
    forall ch | ch in s'.serve.todo
      ensures ch in s.chans && s.chans[ch].Live() && s.chans[ch].ns == step.ns
      ensures s.chans[ch].Limited() ==> s.chans[ch].sent < Cap(s.chans[ch].limit)
    {
      assert HomeOk(s, ch, s.chans[ch]) && LimitOk(s, ch, s.chans[ch]);
    }
  }

  /** The steps that touch one subscription and send nothing. */
  lemma QuietKeepsInv(s: State, step: Step)
    requires Inv(s) && (step.EnterCancel? || step.CloseChan? || step.Receive?) && Enabled(s, step)
    ensures Inv(Apply(s, step))
  {
    ClosesOk(s, step.ch);
    QuietTouches(s, step);
    hide Inv, Int32, Cap, Apply, Enabled;
    QuietTouchKeepsInv(s, step.ch, Quieted(s.chans[step.ch], step));
  }

  /** What such a step makes of the subscription. */
  function Quieted(sub: Sub, step: Step): Sub {
    match step
    case EnterCancel(_, _) => sub.(once := Entered)
    case CloseChan(_) => sub.(once := Finished, closes := 1)
    case Receive(_) => if sub.queued == 0 then sub else sub.(queued := sub.queued - 1, received := sub.received + 1)
    case _ => sub
  }

  lemma QuietTouches(s: State, step: Step)
    requires (step.EnterCancel? || step.CloseChan? || step.Receive?) && Enabled(s, step)
    requires s.chans[step.ch].closes == if s.chans[step.ch].once == Finished then 1 else 0
    ensures Apply(s, step) == Touched(s, step.ch, Quieted(s.chans[step.ch], step), s.serve)
    ensures var sub, now := s.chans[step.ch], Quieted(s.chans[step.ch], step);
            && now == sub.(once := now.once, closes := now.closes, queued := now.queued, received := now.received)
            && now.Live() == sub.Live() && now.closes == (if now.once == Finished then 1 else 0)
            && (sub.once == Finished ==> now.once == Finished) && now.queued <= sub.queued
            && now.received + now.queued == sub.received + sub.queued
  {}

  lemma CloseKeepsInv(s: State)
    requires Inv(s) && Enabled(s, Close)
    ensures Inv(Apply(s, Close))
  {
    hide Int32, Cap;
  }

  lemma StepKeepsInv(s: State, step: Step)
    requires Inv(s) && Enabled(s, step)
    ensures Inv(Apply(s, step))
  {
    hide *;
    match step {
      case Subscribe(_, _, _, _) => SubscribeKeepsInv(s, step);
      case RemoveLocked(_) => RemoveKeepsInv(s, step);
      case Offer(_) => OfferKeepsInv(s, step);
      case BeginDispatch(_) => BeginKeepsInv(s, step);
      case EndDispatch => DispatchKeepsInv(s, step);
      case Released => DispatchKeepsInv(s, step);
      case Close => CloseKeepsInv(s);
      case EnterCancel(_, _) => QuietKeepsInv(s, step);
      case CloseChan(_) => QuietKeepsInv(s, step);
      case Receive(_) => QuietKeepsInv(s, step);
    }
  }

  // ---- Runs ----

  ghost predicate IsRun(run: seq<State>, steps: seq<Step>) {
    && |run| == |steps| + 1 && run[0] == START
    && forall i | 0 <= i < |steps| :: Enabled(run[i], steps[i]) && run[i + 1] == Apply(run[i], steps[i])
  }

  lemma RunStep(run: seq<State>, steps: seq<Step>, i: nat)
    requires IsRun(run, steps) && i < |steps|
    ensures |run| == |steps| + 1 && Enabled(run[i], steps[i]) && run[i + 1] == Apply(run[i], steps[i])
  {
    hide Apply, Enabled;
  }

  lemma {:induction false} RunKeepsInv(run: seq<State>, steps: seq<Step>, i: nat)
    requires IsRun(run, steps) && i < |run|
    ensures Inv(run[i])
  {
    if i > 0 {
      RunKeepsInv(run, steps, i - 1);
      StepKeepsInv(run[i - 1], steps[i - 1]);
    }
  }

  /** On every interleaving nothing is ever sent on a closed channel and no channel is
      closed twice: neither of the two panics occurs, each channel is closed at most once,
      and exactly when its cancel closure has finished. */
  lemma NeverPanics(run: seq<State>, steps: seq<Step>, i: nat, ch: Chan)
    requires IsRun(run, steps) && i < |run|
    ensures !run[i].panicked
    ensures ch in run[i].chans ==> run[i].chans[ch].closes == if run[i].chans[ch].once == Finished then 1 else 0
  {
    RunKeepsInv(run, steps, i);
    assert ch in run[i].chans ==> HomeOk(run[i], ch, run[i].chans[ch]);
  }

  /** In every reachable state a namespace is mapped iff some live subscription names it, and
      then to the very set that this subscription captured. */
  lemma MappedIffSubscribed(run: seq<State>, steps: seq<Step>, i: nat, ns: Namespace)
    requires IsRun(run, steps) && i < |run|
    ensures var s := run[i];
            && (ns in s.subs <==> exists ch :: ch in s.chans && s.chans[ch].Live() && s.chans[ch].ns == ns)
            && forall ch | ch in s.chans && s.chans[ch].Live() && s.chans[ch].ns == ns ::
                 ns in s.subs && s.chans[ch].home == s.subs[ns] && s.subs[ns] in s.sets && ch in s.sets[s.subs[ns]]
    ensures var s := run[i];
            ns in s.subs ==>
              && s.subs[ns] in s.sets
              && forall ch | ch in s.sets[s.subs[ns]] :: ch in s.chans && s.chans[ch].Live() && s.chans[ch].ns == ns
  {
    RunKeepsInv(run, steps, i);
    var s := run[i];
    assert forall ch | ch in s.chans :: HomeOk(s, ch, s.chans[ch]);
    if ns in s.subs {
      var ch :| ch in s.sets[s.subs[ns]];
      assert ch in s.chans && s.chans[ch].Live();
      assert s.subs[s.chans[ch].ns] == s.subs[ns];
    }
  }

  /** A step other than a subscription's own removal leaves it subscribed; in particular
      cancelling one subscription never removes another. */
  lemma OnlyOwnCancelRemoves(run: seq<State>, steps: seq<Step>, i: nat, ch: Chan)
    requires IsRun(run, steps) && i < |steps| && ch in run[i].chans && run[i].chans[ch].Live()
    requires steps[i] != RemoveLocked(ch)
    ensures ch in run[i + 1].chans && run[i + 1].chans[ch].Live()
    ensures var s := run[i + 1];
            var sub := s.chans[ch];
            sub.ns in s.subs && s.subs[sub.ns] in s.sets && ch in s.sets[s.subs[sub.ns]]
  {
    RunKeepsInv(run, steps, i + 1);
    hide Int32, Cap;
    assert run[i + 1] == Apply(run[i], steps[i]);
    assert ch in run[i + 1].chans && run[i + 1].chans[ch].Live();
    assert HomeOk(run[i + 1], ch, run[i + 1].chans[ch]);
  }

  /** A subscription with a positive limit never gets more results than that, and by the
      time the dispatcher is idle again one that has reached it is unsubscribed and its
      channel closed. What the dispatcher is about to release has reached it. */
  lemma LimitHolds(run: seq<State>, steps: seq<Step>, i: nat, ch: Chan)
    requires IsRun(run, steps) && i < |run| && ch in run[i].chans
    ensures run[i].chans[ch].limit > 0 ==> run[i].chans[ch].sent <= Cap(run[i].chans[ch].limit) <= run[i].chans[ch].limit
    ensures run[i].chans[ch].limit > 0 && run[i].serve.Idle? && run[i].chans[ch].sent == Cap(run[i].chans[ch].limit) ==>
              run[i].chans[ch].once == Finished && forall id | id in run[i].sets :: ch !in run[i].sets[id]
    ensures ch in Scheduled(run[i].serve) ==>
              run[i].chans[ch].limit > 0 && run[i].chans[ch].sent == Cap(run[i].chans[ch].limit)
  {
    RunKeepsInv(run, steps, i);
    var s := run[i];
    assert HomeOk(s, ch, s.chans[ch]) && LimitOk(s, ch, s.chans[ch]);
    hide Int32;
  }

  // ---- The dispatcher gets done ----

  /** Steps of a cancel closure and of its caller that are left. */
  function StepsLeft(once: Once): nat {
    match once case Ready => 4 case Entered => 3 case Removed => 2 case Finished => 1
  }

  /** At most how many steps separate the dispatcher from being idle. */
  function Rank(s: State): nat {
    match s.serve
    case Idle => 0
    case Dispatching(_, todo, done) => 5 * |todo| + 4 * |done| + 2
    case Releasing(queue) =>
      if queue == [] then 1
      else 4 * (|queue| - 1) + (if queue[0] in s.chans then StepsLeft(s.chans[queue[0]].once) else 4) + 1
  }

  /** The step to wait for. */
  ghost function Due(s: State): Step
    requires !s.serve.Idle?
  {
    match s.serve
    case Dispatching(_, todo, _) => if todo == {} then EndDispatch else var ch :| ch in todo; Offer(ch)
    case Releasing(queue) =>
      if queue == [] || queue[0] !in s.chans then Released
      else match s.chans[queue[0]].once
           case Ready => EnterCancel(queue[0], true)
           case Entered => RemoveLocked(queue[0])
           case Removed => CloseChan(queue[0])
           case Finished => Released
  }

  lemma OfferLowersRank(s: State, ch: Chan)
    requires Inv(s) && Enabled(s, Offer(ch))
    ensures Rank(Apply(s, Offer(ch))) < Rank(s)
  {
    ClosesOk(s, ch);
    assert s.chans[ch].Live();
    hide Int32, Cap, Inv;
    assert |s.serve.todo - {ch}| == |s.serve.todo| - 1;
  }

  lemma DueLowersRank(s: State)
    requires Inv(s) && !s.serve.Idle?
    ensures Enabled(s, Due(s)) && Rank(Apply(s, Due(s))) < Rank(s)
  {
    assert s.serve.Releasing? && s.serve.queue != [] ==> s.serve.queue[0] in s.chans;
    if s.serve.Dispatching? && s.serve.todo != {} {
      var ch := Due(s).ch;
      assert ch in s.serve.todo && ch in s.chans;
      OfferLowersRank(s, ch);
      hide Apply, Rank, Inv;
    } else {
      hide Int32, Cap, Shape, Limits, TodoOk, ScheduledOk;
    }
  }

  lemma NothingRaisesRank(s: State, step: Step)
    requires Inv(s) && !s.serve.Idle? && Enabled(s, step)
    ensures Rank(Apply(s, step)) <= Rank(s)
  {
    hide Int32, Cap, Shape, Limits;
    if step.Offer? {
      assert |s.serve.todo - {step.ch}| == |s.serve.todo| - 1;
    }
  }

  /** The dispatcher always gets done: in every reachable state in which it is not idle, some
      step brings it closer to that, and no step of anyone takes it further away. */
  lemma DispatcherGetsDone(run: seq<State>, steps: seq<Step>, i: nat, step: Step)
    requires IsRun(run, steps) && i < |run| && !run[i].serve.Idle?
    ensures Enabled(run[i], Due(run[i])) && Rank(Apply(run[i], Due(run[i]))) < Rank(run[i])
    ensures Enabled(run[i], step) ==> Rank(Apply(run[i], step)) <= Rank(run[i])
  {
    RunKeepsInv(run, steps, i);
    hide Inv, Apply, Enabled, Rank, Due;
    DueLowersRank(run[i]);
    if Enabled(run[i], step) {
      NothingRaisesRank(run[i], step);
    }
  }

  // ---- When a limit is exact ----

  /** The subscriber has not called its own cancel function. */
  ghost predicate Uncancelled(steps: seq<Step>, i: nat, ch: Chan)
    requires i <= |steps|
  {
    forall k | 0 <= k < i :: steps[k] != EnterCancel(ch, false)
  }

  /** If the closure of `ch` was entered, the limit had been reached. */
  ghost predicate EnteredAtLimit(s: State, ch: Chan) {
    ch in s.chans && s.chans[ch].once != Ready ==>
      s.chans[ch].Limited() && s.chans[ch].sent == Cap(s.chans[ch].limit)
  }

  lemma StepEntersAtLimit(s: State, step: Step, ch: Chan)
    requires Inv(s) && Enabled(s, step) && step != EnterCancel(ch, false) && EnteredAtLimit(s, ch)
    ensures EnteredAtLimit(Apply(s, step), ch)
  {
    hide Int32, Cap, Shape, Limits;
  }

  /** A subscriber that does not cancel itself stays subscribed until its limit is reached,
      and for good if it has none. */
  lemma {:induction false} ReleasedAtLimit(run: seq<State>, steps: seq<Step>, i: nat, ch: Chan)
    requires IsRun(run, steps) && i < |run| && Uncancelled(steps, i, ch)
    ensures EnteredAtLimit(run[i], ch)
  {
    if i > 0 {
      RunStep(run, steps, i - 1);
      ReleasedAtLimit(run, steps, i - 1, ch);
      RunKeepsInv(run, steps, i - 1);
      hide Apply, Enabled, Inv, EnteredAtLimit;
      StepEntersAtLimit(run[i - 1], steps[i - 1], ch);
    }
  }

  /** `s` ends some run in which the subscriber of `ch` does not cancel. */
  ghost predicate Reached(s: State, ch: Chan) {
    exists run: seq<State>, steps: seq<Step> :: Reaches(run, steps, s, ch)
  }

  ghost predicate Reaches(run: seq<State>, steps: seq<Step>, s: State, ch: Chan) {
    IsRun(run, steps) && run[|steps|] == s && Uncancelled(steps, |steps|, ch)
  }

  /** Whatever happens, a subscriber that asks for `limit` results and does not cancel is
      not released before it was sent that many, and is sent no more. */
  ghost predicate GivesExactly(limit: int) {
    forall s: State, ch: Chan | Reached(s, ch) && ch in s.chans && s.chans[ch].limit == limit ::
      && s.chans[ch].sent <= limit
      && (s.chans[ch].once != Ready ==> s.chans[ch].sent == limit)
  }

  lemma ReachedStart(ch: Chan)
    ensures Reached(START, ch)
  {
    assert Reaches([START], [], START, ch);
  }

  lemma ReachedNext(s: State, step: Step, ch: Chan)
    requires Reached(s, ch) && Enabled(s, step) && step != EnterCancel(ch, false)
    ensures Reached(Apply(s, step), ch)
  {
    var run: seq<State>, steps: seq<Step> :| Reaches(run, steps, s, ch);
    hide Apply, Enabled;
    RunExtends(run, steps, step);
    hide IsRun;
    assert Reaches(run + [Apply(s, step)], steps + [step], Apply(s, step), ch);
  }

  lemma RunExtends(run: seq<State>, steps: seq<Step>, step: Step)
    requires IsRun(run, steps) && Enabled(run[|steps|], step)
    ensures IsRun(run + [Apply(run[|steps|], step)], steps + [step])
  {
    hide Apply, Enabled;
    var run', steps' := run + [Apply(run[|steps|], step)], steps + [step];
    forall i | 0 <= i < |steps'|
      ensures Enabled(run'[i], steps'[i]) && run'[i + 1] == Apply(run'[i], steps'[i])
    {
      if i < |steps| {
        RunStep(run, steps, i);
      }
    }
  }

  /** A lone subscriber that was sent `k` results and received them all. */
  function Lone(limit: int, k: nat, queued: nat, once: Once, serve: Serve): State
    requires queued <= k
  {
    State(false, map["" := 0], map[0 := {0}],
          map[0 := Sub("", 0, limit, Int32(limit - k), k, queued, k - queued, 0, once)], serve, false)
  }

  /** The steps of a dispatch to it, the last one by the dispatcher if the limit is reached. */
  lemma LoneServed(limit: int, k: nat)
    requires limit > 0 && k < Cap(limit) && Reached(Lone(limit, k, 0, Ready, Idle), 0)
    ensures Reached(Lone(limit, k + 1, 1, Ready, Releasing(if k + 1 == Cap(limit) then [0] else [])), 0)
  {
    Int32Steps(limit, k);
    hide Int32, Cap, Reached;
    var done := if k + 1 == Cap(limit) then [0] else [];
    var s0 := Lone(limit, k, 0, Ready, Idle);
    var s1 := Lone(limit, k, 0, Ready, Dispatching("", {0}, []));
    var s2 := Lone(limit, k + 1, 1, Ready, Dispatching("", {}, done));
    ReachedNext(s0, BeginDispatch(""), 0);
    assert Apply(s0, BeginDispatch("")) == s1;
    ReachedNext(s1, Offer(0), 0);
    assert Apply(s1, Offer(0)).chans == s2.chans;
    assert {0} - {0} == {} && [] + [0] == [0];
    assert Apply(s1, Offer(0)).serve == s2.serve;
    ReachedNext(s2, EndDispatch, 0);
  }

  lemma LoneRound(limit: int, k: nat)
    requires limit > 0 && k + 1 < Cap(limit) && Reached(Lone(limit, k, 0, Ready, Idle), 0)
    ensures Reached(Lone(limit, k + 1, 0, Ready, Idle), 0)
  {
    LoneServed(limit, k);
    hide Int32, Cap, Reached;
    var s0 := Lone(limit, k + 1, 1, Ready, Releasing([]));
    var s1 := Lone(limit, k + 1, 0, Ready, Releasing([]));
    ReachedNext(s0, Receive(0), 0);
    assert Apply(s0, Receive(0)).chans == s1.chans;
    ReachedNext(s1, Released, 0);
  }

  lemma {:induction false} LoneReached(limit: int, k: nat)
    requires limit > 0 && k < Cap(limit)
    ensures Reached(Lone(limit, k, 0, Ready, Idle), 0)
  {
    if k == 0 {
      ReachedStart(0);
      hide Int32, Cap, Reached;
      var s' := Apply(START, Subscribe("", limit, 0, 0));
      ReachedNext(START, Subscribe("", limit, 0, 0), 0);
      assert {} + {0} == {0} && limit - 0 == limit;
      assert s'.subs == map["" := 0] && s'.sets == map[0 := {0}];
      assert s'.chans == Lone(limit, 0, 0, Ready, Idle).chans;
    } else {
      LoneReached(limit, k - 1);
      LoneRound(limit, k - 1);
    }
  }

  /** The dispatcher does release a subscriber that does not cancel, after Cap results. */
  lemma LoneReleased(limit: int)
    requires limit > 0
    ensures Reached(Lone(limit, Cap(limit), 1, Entered, Releasing([0])), 0)
  {
    var k := Cap(limit) - 1;
    LoneReached(limit, k);
    LoneServed(limit, k);
    hide Int32, Cap, Reached;
    var s0 := Lone(limit, k + 1, 1, Ready, Releasing([0]));
    var s1 := Lone(limit, k + 1, 1, Entered, Releasing([0]));
    ReachedNext(s0, EnterCancel(0, true), 0);
    assert Apply(s0, EnterCancel(0, true)).chans == s1.chans;
  }

  /** A limit is kept exactly if and only if it is at most 2^32: the counter is a truncated
      32-bit word, and a larger limit fires early. */
  lemma LimitExactIff(limit: int)
    requires limit > 0
    ensures GivesExactly(limit) <==> limit <= 0x1_0000_0000
  {
    LoneReleased(limit);
    hide Int32, IsRun, Inv;
    if limit <= WORD {
      forall s: State, ch: Chan | Reached(s, ch) && ch in s.chans && s.chans[ch].limit == limit
        ensures s.chans[ch].sent <= limit && (s.chans[ch].once != Ready ==> s.chans[ch].sent == limit)
      {
        var run: seq<State>, steps: seq<Step> :| Reaches(run, steps, s, ch);
        ReleasedAtLimit(run, steps, |steps|, ch);
        LimitHolds(run, steps, |steps|, ch);
      }
    } else {
      var s := Lone(limit, Cap(limit), 1, Entered, Releasing([0]));
      assert s.chans[0].sent < limit;
    }
  }

  /** After Close nothing joins: the subscriptions of every later state are those there were. */
  lemma {:induction false} ClosedIsFinal(run: seq<State>, steps: seq<Step>, i: nat, j: nat)
    requires IsRun(run, steps) && i < j < |run| && steps[i] == Close
    ensures run[j].closed && run[j].chans.Keys == run[i].chans.Keys
    decreases j
  {
    hide Apply, Enabled;
    RunStep(run, steps, j - 1);
    hide IsRun;
    if j > i + 1 {
      ClosedIsFinal(run, steps, i, j - 1);
    }
    ClosedStays(run[j - 1], steps[j - 1]);
  }

  lemma ClosedStays(s: State, step: Step)
    requires (s.closed || step == Close) && Enabled(s, step)
    ensures Apply(s, step).closed && Apply(s, step).chans.Keys == s.chans.Keys
  {
    hide Int32, Cap;
  }

  // ---- What a step does to the others ----

  /** Subscribing subscribes: in every reachable state that is not closed, it adds exactly the
      new channel, live, with the namespace and limit asked for and nothing sent or queued; the
      namespace is mapped to its former subscribers and the new one, and all other
      subscriptions and namespaces are as they were. */
  lemma SubscribeJoins(run: seq<State>, steps: seq<Step>, i: nat)
    requires IsRun(run, steps) && i < |steps| && steps[i].Subscribe? && !run[i].closed
    ensures var s, s', ch := run[i], run[i + 1], steps[i].ch;
            && ch !in s.chans && s'.chans.Keys == s.chans.Keys + {ch}
            && (forall c | c in s.chans :: s'.chans[c] == s.chans[c])
            && s'.chans[ch].ns == steps[i].ns && s'.chans[ch].limit == steps[i].limit && s'.chans[ch].Live()
            && s'.chans[ch].sent == 0 && s'.chans[ch].queued == 0 && s'.chans[ch].closes == 0
    ensures var s, s', ns := run[i], run[i + 1], steps[i].ns;
            && ns in s'.subs && s'.subs[ns] in s'.sets
            && s'.sets[s'.subs[ns]] == (if ns in s.subs then Members(s, s.subs[ns]) else {}) + {steps[i].ch}
            && (forall n | n in s.subs && n != ns ::
                  n in s'.subs && s'.subs[n] == s.subs[n] && Members(s', s.subs[n]) == Members(s, s.subs[n]))
  {
    RunKeepsInv(run, steps, i);
    RunStep(run, steps, i);
    hide Int32, Cap, Limits, TodoOk, ScheduledOk, IsRun;
  }

  /** Nobody is kept from subscribing but by a dispatch under way. */
  lemma CanSubscribe(run: seq<State>, steps: seq<Step>, i: nat, ns: Namespace, limit: int, ch: Chan, id: SetID)
    requires IsRun(run, steps) && i < |run| && !run[i].serve.Dispatching? && ch !in run[i].chans && id !in run[i].sets
    ensures Enabled(run[i], Subscribe(ns, limit, ch, id))
  {
    RunKeepsInv(run, steps, i);
  }

  /** Results are conserved: in every reachable state a subscriber has been sent what it has
      received and what waits in its buffer of 16, and it may receive as long as something
      waits. A step changes none of these for anyone, except that an offer may add one result
      and receiving takes one. */
  lemma ResultsAreConserved(run: seq<State>, steps: seq<Step>, i: nat, ch: Chan)
    requires IsRun(run, steps) && i < |run| && ch in run[i].chans
    ensures run[i].chans[ch].sent == run[i].chans[ch].received + run[i].chans[ch].queued && run[i].chans[ch].queued <= 16
    ensures Enabled(run[i], Receive(ch)) <==> run[i].chans[ch].queued > 0
    ensures i < |steps| ==> ch in run[i + 1].chans
    ensures i < |steps| ==>
              var was, now := run[i].chans[ch], run[i + 1].chans[ch];
              && now.ns == was.ns && now.limit == was.limit && now.home == was.home
              && now.received == (if steps[i] == Receive(ch) then was.received + 1 else was.received)
              && (now.sent == was.sent || (steps[i] == Offer(ch) && now.sent == was.sent + 1))
  {
    RunKeepsInv(run, steps, i);
    ClosesOk(run[i], ch);
    if i < |steps| {
      RunStep(run, steps, i);
      hide IsRun, Inv;
      StepOnOne(run[i], steps[i], ch);
    }
  }

  lemma StepOnOne(s: State, step: Step, ch: Chan)
    requires Enabled(s, step) && ch in s.chans
    ensures ch in Apply(s, step).chans
    ensures var was, now := s.chans[ch], Apply(s, step).chans[ch];
            && now.ns == was.ns && now.limit == was.limit && now.home == was.home
            && now.received == (if step == Receive(ch) then was.received + 1 else was.received)
            && (now.sent == was.sent || (step == Offer(ch) && now.sent == was.sent + 1))
  {
    hide Int32, Cap;
  }

  /** Between step `i`, which begins a dispatch, and state `m` the dispatch has not ended. */
  ghost predicate Within(steps: seq<Step>, i: nat, m: nat) {
    i < m <= |steps| && steps[i].BeginDispatch? && forall k | i < k < m :: !steps[k].EndDispatch?
  }

  /** A subscriber not served yet is still to come; one served was offered the result once,
      and got it exactly if its buffer had room then. */
  ghost predicate Served(run: seq<State>, steps: seq<Step>, i: nat, m: nat, ch: Chan)
    requires |run| == |steps| + 1 && i < m <= |steps|
  {
    && run[m].serve.Dispatching? && ch in run[i].chans && ch in run[m].chans
    && if ch in run[m].serve.todo then run[m].chans[ch].sent == run[i].chans[ch].sent && NotOffered(steps, i, m, ch)
       else exists k | i < k < m :: OfferedAt(run, steps, i, k, m, ch)
  }

  ghost predicate NotOffered(steps: seq<Step>, i: nat, m: nat, ch: Chan)
    requires m <= |steps|
  {
    forall j | i < j < m :: steps[j] != Offer(ch)
  }

  ghost predicate OfferedAt(run: seq<State>, steps: seq<Step>, i: nat, k: nat, m: nat, ch: Chan)
    requires |run| == |steps| + 1 && i < k < m <= |steps|
  {
    && steps[k] == Offer(ch) && NotOffered(steps, i, k, ch) && NotOffered(steps, k, m, ch)
    && ch in run[i].chans && ch in run[k].chans && ch in run[m].chans
    && run[m].chans[ch].sent == run[i].chans[ch].sent + if run[k].chans[ch].queued < 16 then 1 else 0
  }

  lemma {:induction false} DispatchServes(run: seq<State>, steps: seq<Step>, i: nat, m: nat, ch: Chan)
    requires IsRun(run, steps) && Within(steps, i, m) && ch in run[i].chans
    requires run[i].chans[ch].Live() && run[i].chans[ch].ns == steps[i].ns
    ensures Served(run, steps, i, m, ch)
    decreases m
  {
    if m == i + 1 {
      MappedIffSubscribed(run, steps, i, steps[i].ns);
      hide Int32;
    } else {
      assert Within(steps, i, m - 1);
      DispatchServes(run, steps, i, m - 1, ch);
      RunKeepsInv(run, steps, m - 1);
      ServesOn(run, steps, i, m - 1, ch);
    }
  }

  lemma OfferAt(s: State, ch: Chan)
    requires Inv(s) && Enabled(s, Offer(ch))
    ensures var s' := Apply(s, Offer(ch));
            && s'.serve.Dispatching? && ch !in s'.serve.todo && ch in s'.chans && s.chans[ch].queued <= BUFFER
            && s'.chans[ch].sent == s.chans[ch].sent + if s.chans[ch].queued < BUFFER then 1 else 0
  {
    hide Int32, Cap;
    ClosesOk(s, ch);
  }

  /** A step other than the offer to `ch` and the end leaves the dispatch as it is for `ch`. */
  lemma OthersLeaveAlone(s: State, step: Step, ch: Chan)
    requires Inv(s) && Enabled(s, step) && step != Offer(ch) && !step.EndDispatch?
    requires s.serve.Dispatching? && ch in s.chans
    ensures var s' := Apply(s, step);
            && s'.serve.Dispatching? && ch in s'.chans && s'.chans[ch].sent == s.chans[ch].sent
            && (ch in s'.serve.todo <==> ch in s.serve.todo)
  {
    hide Int32, Cap;
    if step.Offer? {
      ClosesOk(s, step.ch);
    }
  }

  /** What a step that leaves the dispatch as it is for `ch` keeps. */
  lemma ServesOnOthers(run: seq<State>, steps: seq<Step>, i: nat, m: nat, ch: Chan)
    requires |run| == |steps| + 1 && i < m < |steps| && steps[m] != Offer(ch) && Served(run, steps, i, m, ch)
    requires run[m + 1].serve.Dispatching? && ch in run[m + 1].chans && run[m + 1].chans[ch].sent == run[m].chans[ch].sent
    requires ch in run[m + 1].serve.todo <==> ch in run[m].serve.todo
    ensures Served(run, steps, i, m + 1, ch)
  {
    if ch !in run[m].serve.todo {
      var k :| i < k < m && OfferedAt(run, steps, i, k, m, ch);
      assert OfferedAt(run, steps, i, k, m + 1, ch);
    }
  }

  lemma ServesOn(run: seq<State>, steps: seq<Step>, i: nat, m: nat, ch: Chan)
    requires IsRun(run, steps) && i < m < |steps| && !steps[m].EndDispatch? && Served(run, steps, i, m, ch) && Inv(run[m])
    ensures Served(run, steps, i, m + 1, ch)
  {
    hide Inv, Apply, IsRun;
    RunStep(run, steps, m);
    if steps[m] == Offer(ch) {
      assert ch in run[m].serve.todo;
      hide Enabled;
      OfferAt(run[m], ch);
      assert OfferedAt(run, steps, i, m, m + 1, ch);
    } else {
      hide Enabled;
      OthersLeaveAlone(run[m], steps[m], ch);
      ServesOnOthers(run, steps, i, m, ch);
    }
  }

  /** By the time a dispatch ends, every subscriber of its namespace has been offered the
      result, once, and has got it exactly if its buffer had room when it was offered. */
  lemma DispatchOffersAll(run: seq<State>, steps: seq<Step>, i: nat, m: nat, ch: Chan)
    requires IsRun(run, steps) && Within(steps, i, m) && m < |steps| && steps[m] == EndDispatch
    requires ch in run[i].chans && run[i].chans[ch].Live() && run[i].chans[ch].ns == steps[i].ns
    ensures exists k | i < k < m :: OfferedAt(run, steps, i, k, m, ch)
  {
    DispatchServes(run, steps, i, m, ch);
    assert Enabled(run[m], steps[m]);
  }

  /** Who is addressed by a dispatch of `ns`. */
  ghost predicate Addressed(s: State, ns: Namespace, ch: Chan) {
    ch in s.chans && s.chans[ch].Live() && s.chans[ch].ns == ns
  }

  /** While a dispatch lasts, only those addressed when it began are still to be served, and
      nobody else has been sent anything. */
  ghost predicate Confined(s0: State, ns: Namespace, s: State) {
    && s.serve.Dispatching? && s.chans.Keys == s0.chans.Keys
    && (forall ch | ch in s.serve.todo :: Addressed(s0, ns, ch))
    && (forall ch | ch in s0.chans && !Addressed(s0, ns, ch) :: s.chans[ch].sent == s0.chans[ch].sent)
  }

  lemma StaysConfined(s0: State, ns: Namespace, s: State, step: Step)
    requires Confined(s0, ns, s) && Enabled(s, step) && !step.EndDispatch?
    ensures Confined(s0, ns, Apply(s, step))
  {
    hide Int32, Cap, Addressed;
  }

  lemma BeginsConfined(s: State, ns: Namespace)
    requires Enabled(s, BeginDispatch(ns))
    requires ns in s.subs ==> s.subs[ns] in s.sets && forall ch | ch in s.sets[s.subs[ns]] :: Addressed(s, ns, ch)
    ensures Confined(s, ns, Apply(s, BeginDispatch(ns)))
  {
    hide Int32, Cap, Addressed;
  }

  lemma {:induction false} DispatchIsConfined(run: seq<State>, steps: seq<Step>, i: nat, m: nat)
    requires IsRun(run, steps) && Within(steps, i, m)
    ensures Confined(run[i], steps[i].ns, run[m])
    decreases m
  {
    if m == i + 1 {
      MappedIffSubscribed(run, steps, i, steps[i].ns);
      RunStep(run, steps, i);
      hide IsRun;
      BeginsConfined(run[i], steps[i].ns);
    } else {
      assert Within(steps, i, m - 1);
      DispatchIsConfined(run, steps, i, m - 1);
      RunStep(run, steps, m - 1);
      hide Apply, Enabled, IsRun, Confined;
      StaysConfined(run[i], steps[i].ns, run[m - 1], steps[m - 1]);
    }
  }

  /** A dispatch reaches nobody but the live subscribers its namespace has when it begins: no
      one else is offered the result, and no one else has been sent anything by its end. */
  lemma DispatchReachesOnly(run: seq<State>, steps: seq<Step>, i: nat, m: nat, ch: Chan)
    requires IsRun(run, steps) && Within(steps, i, m) && m < |steps|
    ensures steps[m] == Offer(ch) ==>
              ch in run[i].chans && run[i].chans[ch].Live() && run[i].chans[ch].ns == steps[i].ns
    ensures ch in run[i].chans && !(run[i].chans[ch].Live() && run[i].chans[ch].ns == steps[i].ns) ==>
              ch in run[m].chans && run[m].chans[ch].sent == run[i].chans[ch].sent
  {
    DispatchIsConfined(run, steps, i, m);
    RunStep(run, steps, m);
    hide Apply, IsRun;
  }
}
