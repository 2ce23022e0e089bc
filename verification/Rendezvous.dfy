/** The two-channel protocol between a client iterator's Next and the Recv calls that the
    server makes on its handler. `send` is unbuffered, `sync` holds one token; Recv calls
    are serialised and none is cancelled. Channel operations are the steps. */
module Rendezvous {

  type Record = nat

  /** Where the serialised Recv calls are. */
  datatype Producer = Between | AwaitFirst | Sending | AwaitNext

  /** Where the iterator's caller is: outside Next, pushing its token, or receiving. */
  datatype Consumer = Outside | Pushing | Receiving

  /** `begun` counts calls of Next, `nils` those that returned nil, and `returned` the Recv
      calls that have returned. */
  datatype State = State(
    stream: seq<Record>, returned: nat, producer: Producer, init: bool, token: bool, closed: bool,
    consumer: Consumer, begun: nat, delivered: seq<Record>, nils: nat)

  datatype Step = CallNext | PushToken | StartRecv | TakeFirst | HandOver | TakeNext | Shutdown | ReceiveClosed

  function Start(stream: seq<Record>): State {
    State(stream, 0, Between, false, false, false, Outside, 0, [], 0)
  }

  predicate Enabled(s: State, step: Step) {
    match step
    case CallNext => s.consumer == Outside
    case PushToken => s.consumer == Pushing && !s.token
    case StartRecv => s.producer == Between && s.returned < |s.stream| && !s.closed
    case TakeFirst => s.producer == AwaitFirst && s.token
    case HandOver => s.producer == Sending && s.consumer == Receiving && s.returned < |s.stream|
    case TakeNext => s.producer == AwaitNext && s.token
    case Shutdown => s.producer == Between && s.returned == |s.stream| && !s.closed
    case ReceiveClosed => s.consumer == Receiving && s.closed
  }

  function Apply(s: State, step: Step): State
    requires Enabled(s, step)
  {
    match step
    case CallNext => s.(consumer := Pushing, begun := s.begun + 1)
    case PushToken => s.(consumer := Receiving, token := true)
    case StartRecv => s.(producer := if s.init then Sending else AwaitFirst)
    case TakeFirst => s.(producer := Sending, token := false, init := true)
    case HandOver =>
      s.(producer := AwaitNext, consumer := Outside, delivered := s.delivered + [s.stream[s.returned]])
    case TakeNext => s.(producer := Between, token := false, returned := s.returned + 1)
    case Shutdown => s.(closed := true)
    case ReceiveClosed => s.(consumer := Outside, nils := s.nils + 1)
  }

  function Bit(b: bool): nat {
    if b then 1 else 0
  }

  /** The accounts of records, calls and tokens. */
  ghost predicate Inv(s: State) {
    && |s.delivered| == s.returned + Bit(s.producer == AwaitNext) <= |s.stream|
    && s.delivered == s.stream[..|s.delivered|]
    && s.begun == |s.delivered| + s.nils + Bit(s.consumer != Outside)
    && Bit(s.token) == |s.delivered| + s.nils + Bit(s.consumer == Receiving) - (if s.init then 1 + s.returned else 0)
    && (s.producer != Between ==> s.returned < |s.stream| && !s.closed)
    && (s.producer == AwaitFirst ==> !s.init) && (s.producer == Sending || s.producer == AwaitNext ==> s.init)
    && (s.init <==> s.returned > 0 || s.producer == Sending || s.producer == AwaitNext)
    && (s.closed ==> s.producer == Between && s.returned == |s.stream|)
    && (s.nils > 0 ==> s.closed)
  }

  lemma StepKeepsInv(s: State, step: Step)
    requires Inv(s) && Enabled(s, step)
    ensures Inv(Apply(s, step)) && Apply(s, step).stream == s.stream
  {
    var s' := Apply(s, step);
    if step == HandOver {
      assert s'.stream[..|s'.delivered|] == s.stream[..s.returned] + [s.stream[s.returned]];
    }
  }

  ghost predicate IsRun(run: seq<State>, steps: seq<Step>) {
    && |run| == |steps| + 1 && run[0] == Start(run[0].stream)
    && forall i | 0 <= i < |steps| :: Enabled(run[i], steps[i]) && run[i + 1] == Apply(run[i], steps[i])
  }

  lemma {:induction false} RunKeepsInv(run: seq<State>, steps: seq<Step>, i: nat)
    requires IsRun(run, steps) && i < |run|
    ensures Inv(run[i]) && run[i].stream == run[0].stream
  {
    if i > 0 {
      RunKeepsInv(run, steps, i - 1);
      StepKeepsInv(run[i - 1], steps[i - 1]);
    }
  }

  /** In every interleaving the calls of Next have returned the records of the stream, in
      order, none lost or repeated, and nil only after all of them. */
  lemma DeliversInOrder(run: seq<State>, steps: seq<Step>, i: nat)
    requires IsRun(run, steps) && i < |run|
    ensures |run[i].delivered| <= |run[0].stream| && run[i].delivered == run[0].stream[..|run[i].delivered|]
    ensures run[i].nils > 0 ==> run[i].delivered == run[0].stream
  {
    RunKeepsInv(run, steps, i);
    var s := run[i];
    assert s.nils > 0 ==> s.stream[..|s.stream|] == s.stream;
  }

  /** The Recv call of the k-th record returns only after the (k+1)-th Next has begun; so
      while the caller holds a record, its Recv call, whose arguments back the record, is
      still under way. */
  lemma RecordOutlivesNext(run: seq<State>, steps: seq<Step>, i: nat)
    requires IsRun(run, steps) && i < |run|
    ensures run[i].returned > 0 ==> run[i].begun > run[i].returned
    ensures run[i].consumer == Outside && run[i].nils == 0 && run[i].begun > 0 ==>
              run[i].producer == AwaitNext && run[i].returned == run[i].begun - 1 == |run[i].delivered| - 1
  {
    RunKeepsInv(run, steps, i);
  }

  /** Whether some call of Next that is under way can return, that is, some step of either
      side other than a new call is possible. */
  ghost predicate CanMove(s: State) {
    exists step :: step != CallNext && Enabled(s, step)
  }

  /** Steps that are left before both sides must stop. */
  function Rank(s: State): int {
    4 * (|s.stream| - s.returned)
    - (match s.producer case Between => 0 case AwaitFirst => 1 case Sending => 2 case AwaitNext => 3)
    + (match s.consumer case Outside => 0 case Receiving => 1 case Pushing => 2)
    + Bit(!s.closed)
  }

  /** A live iterator (one that has not returned nil yet) finds the token slot empty, its
      Next is never stuck, and every step brings it closer to its end: no schedule keeps a
      live Next from returning. */
  lemma LiveNextReturns(run: seq<State>, steps: seq<Step>, i: nat, step: Step)
    requires IsRun(run, steps) && i < |run| && run[i].nils == 0 && run[i].consumer != Outside
    ensures run[i].consumer == Pushing ==> !run[i].token
    ensures CanMove(run[i])
    ensures step != CallNext && Enabled(run[i], step) ==> 0 <= Rank(Apply(run[i], step)) < Rank(run[i])
  {
    RunKeepsInv(run, steps, i);
    var s := run[i];
    var way :=
      if s.consumer == Pushing then PushToken
      else if s.producer == AwaitFirst then TakeFirst
      else if s.producer == Sending then HandOver
      else if s.producer == AwaitNext then TakeNext
      else if s.closed then ReceiveClosed
      else if s.returned == |s.stream| then Shutdown
      else StartRecv;
    assert Enabled(s, way);
    if step != CallNext && Enabled(s, step) {
      StepKeepsInv(s, step);
    }
  }

  /** Once exhausted, a further call of Next is stuck for good exactly if it is the third
      after the last record, or already the second if there was no record at all. */
  lemma StuckIff(run: seq<State>, steps: seq<Step>, i: nat)
    requires IsRun(run, steps) && i < |run| && run[i].closed && run[i].consumer == Pushing
    ensures !CanMove(run[i]) <==> run[i].nils >= if run[0].stream == [] then 1 else 2
  {
    RunKeepsInv(run, steps, i);
    if !run[i].token {
      assert Enabled(run[i], PushToken);
    }
  }

  /** A run that gets stuck: there is no record, and Next is called again after nil. */
  lemma StuckRun() returns (run: seq<State>, steps: seq<Step>)
    ensures IsRun(run, steps) && run[0].stream == []
    ensures run[|steps|].consumer == Pushing && run[|steps|].nils == 1 && !CanMove(run[|steps|])
  {
    var s0 := Start([]);
    var s1 := Apply(s0, CallNext);
    var s2 := Apply(s1, PushToken);
    var s3 := Apply(s2, Shutdown);
    var s4 := Apply(s3, ReceiveClosed);
    run, steps := [s0, s1, s2, s3, s4, Apply(s4, CallNext)], [CallNext, PushToken, Shutdown, ReceiveClosed, CallNext];
    StuckIff(run, steps, 5);
  }
}
