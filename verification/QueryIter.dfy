/** Query iterators as values: pull steps, and what a stack of constraints selects. */
module QueryIter {
  import opened Prelude

  /** Records are only handed through and given to matchers. */
  type Record = nat

  /** A matcher with its captured state. A matcher over record fields may be unable to look
      at nil (`onNil` is None): then matching nil panics. */
  datatype Matcher =
    | Pure(f: Record -> bool, onNil: Option<bool>)
    | Countdown(n: int)
    | UpTo(f: Record -> bool, onNil: Option<bool>, reached: bool)

  /** The answer of a matcher and the matcher afterwards; no answer is a panic. */
  function Match(m: Matcher, r: Option<Record>): (a: (Option<bool>, Matcher)) {
    match m
    case Pure(f, onNil) => (if r.Some? then Some(f(r.value)) else onNil, m)
    case Countdown(n) => (Some(n > 0), Countdown(n - 1))
    case UpTo(f, onNil, reached) =>
      var hit := if r.Some? then Some(f(r.value)) else onNil;
      if hit == None then (None, m)
      else
        var now := reached || hit.value;
        (Some(!now || hit.value), UpTo(f, onNil, now))
  }

  /** An iterator: a source that has yielded `pulled` records so far, a filter, or a
      predicate that stops at the first mismatch. */
  datatype It =
    | Source(rest: seq<Record>, pulled: nat)
    | Filter(m: Matcher, inner: It)
    | Predicate(m: Matcher, stop: bool, inner: It)

  datatype Result = Panic | Pulled(rec: Option<Record>, it: It)

  function Depth(it: It): nat {
    match it
    case Source(_, _) => 0
    case Filter(_, i) => Depth(i) + 1
    case Predicate(_, _, i) => Depth(i) + 1
  }

  /** What is left in the source. */
  function Size(it: It): nat {
    match it
    case Source(rest, _) => |rest|
    case Filter(_, i) => Size(i)
    case Predicate(_, _, i) => Size(i)
  }

  ghost predicate Progress(it: It, r: Result) {
    r.Pulled? ==>
      && Depth(r.it) == Depth(it) && Size(r.it) <= Size(it)
      && (r.rec.Some? ==> Size(r.it) < Size(it))
  }

  function Next(it: It): (r: Result)
    ensures Progress(it, r)
    decreases Depth(it), Size(it), 0
  {
    match it
    case Source(rest, pulled) =>
      if rest == [] then Pulled(None, it) else Pulled(Some(rest[0]), Source(rest[1..], pulled + 1))
    case Filter(m, inner) => FilterNext(m, inner)
    case Predicate(m, stop, inner) =>
      if stop then Pulled(None, it)
      else
        match Next(inner)
        case Panic => Panic
        case Pulled(rec, inner') =>
          var (answer, m') := Match(m, rec);
          if answer == None then Panic
          else Pulled(if answer.value then rec else None, Predicate(m', !answer.value, inner'))
  }

  /** The filter loop: pull until the end or a match. */
  function FilterNext(m: Matcher, inner: It): (r: Result)
    ensures Progress(Filter(m, inner), r)
    decreases Depth(inner), Size(inner), 1
  {
    match Next(inner)
    case Panic => Panic
    case Pulled(None, inner') => Pulled(None, Filter(m, inner'))
    case Pulled(Some(rec), inner') =>
      var (answer, m') := Match(m, Some(rec));
      if answer == None then Panic
      else if answer.value then Pulled(Some(rec), Filter(m', inner'))
      else FilterNext(m', inner')
  }

  // ---- What a stack does ----

  /** Pulled to its end, a stack yields `out` and then answers nil for ever, or panics. */
  datatype Trace = Trace(out: seq<Record>, panics: bool)

  const ENDED := Trace([], false)

  function FilterSeq(m: Matcher, s: seq<Record>): seq<Record>
    decreases |s|
  {
    if s == [] then []
    else
      var (answer, m') := Match(m, Some(s[0]));
      (if answer == Some(true) then [s[0]] else []) + FilterSeq(m', s[1..])
  }

  /** Pulling on until the first mismatch; at the end the matcher is given nil. */
  function TakeTrace(m: Matcher, t: Trace): Trace
    decreases |t.out|
  {
    if t.out == [] then Trace([], t.panics || Match(m, None).0 == None)
    else
      var (answer, m') := Match(m, Some(t.out[0]));
      if answer != Some(true) then ENDED
      else
        var rest := TakeTrace(m', Trace(t.out[1..], t.panics));
        Trace([t.out[0]] + rest.out, rest.panics)
  }

  function Behaviour(it: It): Trace {
    match it
    case Source(rest, _) => Trace(rest, false)
    case Filter(m, inner) => Trace(FilterSeq(m, Behaviour(inner).out), Behaviour(inner).panics)
    case Predicate(m, stop, inner) => if stop then ENDED else TakeTrace(m, Behaviour(inner))
  }

  /** `r` is what one pull from an iterator that does `t` should give. */
  ghost predicate Pops(t: Trace, r: Result) {
    if t.out != [] then r.Pulled? && r.rec == Some(t.out[0]) && Behaviour(r.it) == Trace(t.out[1..], t.panics)
    else if t.panics then r.Panic?
    else r.Pulled? && r.rec == None && Behaviour(r.it) == ENDED
  }

  /** One pull from any stack yields the first record of what the stack yields and leaves
      the rest; a stack with none left answers nil and stays so, or panics. */
  lemma {:induction false} NextPops(it: It)
    ensures Pops(Behaviour(it), Next(it))
    decreases Depth(it), Size(it), 0
  {
    match it
    case Source(_, _) =>
    case Filter(m, inner) => FilterPops(m, inner);
    case Predicate(m, stop, inner) =>
      if !stop {
        NextPops(inner);
      }
  }

  lemma {:induction false} FilterPops(m: Matcher, inner: It)
    ensures Pops(Behaviour(Filter(m, inner)), FilterNext(m, inner))
    decreases Depth(inner), Size(inner), 1
  {
    NextPops(inner);
    var s := Behaviour(inner).out;
    if s != [] {
      var (answer, m') := Match(m, Some(s[0]));
      if answer == Some(false) {
        FilterPops(m', Next(inner).it);
      }
    }
  }

  // ---- Draining ----

  /** Calls Next until it first returns nil; `calls` counts them. */
  datatype Drained = Failed | Drained(out: seq<Record>, it: It, calls: nat)

  function Drain(it: It): Drained
    decreases Size(it)
  {
    match Next(it)
    case Panic => Failed
    case Pulled(None, it') => Drained([], it', 1)
    case Pulled(Some(rec), it') =>
      match Drain(it')
      case Failed => Failed
      case Drained(out, last, calls) => Drained([rec] + out, last, calls + 1)
  }

  /** Draining any stack through its stateful Next yields exactly what the stack does, in
      one call more than there are records, and leaves it exhausted; it fails exactly if the
      stack ends in a panic. */
  lemma {:induction false} DrainYields(it: It)
    ensures Drain(it).Drained? <==> !Behaviour(it).panics
    ensures Drain(it).Drained? ==>
              && Drain(it).out == Behaviour(it).out && Behaviour(Drain(it).it) == ENDED
              && Drain(it).calls == |Behaviour(it).out| + 1
    decreases Size(it)
  {
    NextPops(it);
    if Behaviour(it).out != [] {
      DrainYields(Next(it).it);
    }
  }

  /** `k` more pulls: the last answer and the iterator afterwards. */
  function Pull(it: It, k: nat): Result
    decreases k
  {
    if k == 0 then Pulled(None, it)
    else match Next(it)
         case Panic => Panic
         case Pulled(rec, it') => if k == 1 then Pulled(rec, it') else Pull(it', k - 1)
  }

  /** An exhausted stack answers nil to every further call. */
  lemma {:induction false} NilForever(it: It, k: nat)
    requires Behaviour(it) == ENDED
    ensures Pull(it, k).Pulled? && Pull(it, k).rec == None && Behaviour(Pull(it, k).it) == ENDED
    decreases k
  {
    if k > 0 {
      NextPops(it);
      if k > 1 {
        NilForever(Next(it).it, k - 1);
      }
    }
  }

  // ---- Limit ----

  /** One call of Limit(n): it pulls whether or not it has records left to give. */
  lemma LimitStep(n: nat, inner: It)
    ensures var t := Behaviour(inner);
            && Pops(t, Next(inner))
            && Next(Predicate(Countdown(n), false, inner)) ==
               if t.out == [] && t.panics then Panic
               else Pulled(if n > 0 then Next(inner).rec else None, Predicate(Countdown(n - 1), n == 0, Next(inner).it))
  {
    NextPops(inner);
  }

  /** A drained Limit(n) has called its inner iterator once more than it yields records, so
      at most n + 1 times, and never calls it again. It panics exactly if the inner one ends
      in a panic within these calls. */
  lemma {:induction false} LimitCalls(n: nat, inner: It)
    ensures var d, t := Drain(Predicate(Countdown(n), false, inner)), Behaviour(inner);
            && (d.Drained? <==> !t.panics || |t.out| > n)
            && (d.Drained? ==>
                  var k := Min(n, |t.out|) + 1;
                  && d.out == t.out[..k - 1] && d.it.Predicate?
                  && Pull(inner, k).Pulled? && Pull(inner, k).it == d.it.inner)
    decreases n
  {
    LimitStep(n, inner);
    var t := Behaviour(inner);
    var k := Min(n, |t.out|) + 1;
    if t.out != [] || !t.panics {
      var inner' := Next(inner).it;
      assert Pull(inner, k) == if k == 1 then Next(inner) else Pull(inner', k - 1);
      hide Next, Behaviour, Pull;
      if n > 0 && t.out != [] {
        LimitCalls(n - 1, inner');
        assert t.out == [t.out[0]] + t.out[1..];
      } else {
        assert t.out[..k - 1] == [];
      }
    }
  }

  lemma {:induction false} SourcePulls(s: seq<Record>, p: nat, k: nat)
    ensures Pull(Source(s, p), k).Pulled?
    ensures Pull(Source(s, p), k).it == Source(s[Min(k, |s|)..], p + Min(k, |s|))
    decreases k
  {
    if k > 0 && s != [] {
      if k > 1 {
        SourcePulls(s[1..], p + 1, k - 1);
        assert s[1..][Min(k - 1, |s| - 1)..] == s[Min(k, |s|)..];
      }
    } else if k > 1 {
      SourcePulls(s, p, k - 1);
    }
  }

  /** Over a source, a drained Limit(n) yields the first n records and pulls at most n + 1. */
  lemma LimitPulls(n: nat, s: seq<Record>)
    ensures var d := Drain(Predicate(Countdown(n), false, Source(s, 0)));
            && d.Drained? && d.out == s[..Min(n, |s|)]
            && d.it.Predicate? && d.it.inner == Source(s[Min(n + 1, |s|)..], Min(n + 1, |s|))
  {
    LimitCalls(n, Source(s, 0));
    SourcePulls(s, 0, Min(n, |s|) + 1);
  }

  // ---- To ----

  /** The first mismatch behind a match. */
  function RangeEnd(f: Record -> bool, reached: bool, s: seq<Record>): (e: Option<nat>)
    ensures e.Some? ==> e.value < |s|
    decreases |s|
  {
    if s == [] then None
    else if reached && !f(s[0]) then Some(0)
    else
      match RangeEnd(f, reached || f(s[0]), s[1..])
      case None => None
      case Some(e) => Some(e + 1)
  }

  /** Some mismatch follows a match. */
  ghost predicate HasEnd(f: Record -> bool, s: seq<Record>) {
    exists i, j :: 0 <= i < j < |s| && f(s[i]) && !f(s[j])
  }

  /** `e` is where the first run of matches ends: a mismatch, with a match somewhere before
      it and no mismatch in between. */
  ghost predicate EndsRun(f: Record -> bool, s: seq<Record>, e: nat) {
    && e < |s| && !f(s[e])
    && (exists i :: 0 <= i < e && f(s[i]))
    && forall i, j :: 0 <= i < j < e && f(s[i]) ==> f(s[j])
  }

  lemma {:induction false} RangeEndReached(f: Record -> bool, s: seq<Record>)
    ensures match RangeEnd(f, true, s)
            case None => forall j | 0 <= j < |s| :: f(s[j])
            case Some(e) => e < |s| && !f(s[e]) && forall j | 0 <= j < e :: f(s[j])
    decreases |s|
  {
    if s != [] && f(s[0]) {
      RangeEndReached(f, s[1..]);
      assert forall j | 1 <= j < |s| :: s[j] == s[1..][j - 1];
    }
  }

  lemma {:induction false} RangeEndMeans(f: Record -> bool, s: seq<Record>)
    ensures match RangeEnd(f, false, s)
            case None => !HasEnd(f, s)
            case Some(e) => EndsRun(f, s, e)
    decreases |s|
  {
    if s != [] {
      assert forall j | 1 <= j < |s| :: s[j] == s[1..][j - 1];
      if f(s[0]) {
        RangeEndReached(f, s[1..]);
      } else {
        RangeEndMeans(f, s[1..]);
        EndShifts(f, s);
      }
    }
  }

  lemma EndShifts(f: Record -> bool, s: seq<Record>)
    requires s != [] && !f(s[0])
    ensures HasEnd(f, s) <==> HasEnd(f, s[1..])
    ensures forall e: nat :: EndsRun(f, s[1..], e) ==> EndsRun(f, s, e + 1)
  {
    var t := s[1..];
    assert forall j | 1 <= j < |s| :: s[j] == t[j - 1];
    if HasEnd(f, s) {
      var i, j :| 0 <= i < j < |s| && f(s[i]) && !f(s[j]);
      assert f(t[i - 1]) && !f(t[j - 1]);
    }
    if HasEnd(f, t) {
      var i, j :| 0 <= i < j < |t| && f(t[i]) && !f(t[j]);
      assert f(s[i + 1]) && !f(s[j + 1]);
    }
    forall e: nat | EndsRun(f, t, e)
      ensures EndsRun(f, s, e + 1)
    {
      var i :| 0 <= i < e && f(t[i]);
      assert f(s[i + 1]);
    }
  }

  /** The iterator that To(index) binds, `f` being the index's matcher. */
  function ToIter(f: Record -> bool, reached: bool, inner: It): It {
    Predicate(UpTo(f, None, reached), false, inner)
  }

  lemma ToStep(f: Record -> bool, reached: bool, inner: It)
    ensures var y := Behaviour(inner).out;
            && (y != [] ==> Next(inner).Pulled?)
            && Next(ToIter(f, reached, inner)) ==
               if y == [] then Panic
               else if reached && !f(y[0]) then Pulled(None, Predicate(UpTo(f, None, true), true, Next(inner).it))
               else Pulled(Some(y[0]), ToIter(f, reached || f(y[0]), Next(inner).it))
  {
    NextPops(inner);
  }

  lemma {:induction false} ToDrains(f: Record -> bool, reached: bool, inner: It)
    ensures var y := Behaviour(inner).out;
            match RangeEnd(f, reached, y)
            case None => Drain(ToIter(f, reached, inner)) == Failed
            case Some(e) =>
              && e < |y| && Pull(inner, e + 1).Pulled?
              && Drain(ToIter(f, reached, inner)) ==
                   Drained(y[..e], Predicate(UpTo(f, None, true), true, Pull(inner, e + 1).it), e + 1)
    decreases Size(inner)
  {
    NextPops(inner);
    ToStep(f, reached, inner);
    var y := Behaviour(inner).out;
    if y != [] && !(reached && !f(y[0])) {
      var inner' := Next(inner).it;
      ToDrains(f, reached || f(y[0]), inner');
      match RangeEnd(f, reached || f(y[0]), y[1..])
      case None =>
        hide Behaviour, ToIter;
      case Some(e) =>
        assert Pull(inner, e + 2) == Pull(inner', e + 1);
        hide Next, Behaviour, ToIter, Pull;
        assert [y[0]] + y[1..][..e] == y[..e + 1];
    }
  }

  /** To, exactly, over any selection: if a mismatch follows a match, draining yields the
      prefix that ends with the last record of the first run of matches, calls the inner
      iterator once for each of these and once more, and never again; otherwise draining
      runs into nil and panics. */
  lemma ToIsExact(f: Record -> bool, inner: It)
    ensures Drain(ToIter(f, false, inner)).Drained? <==> HasEnd(f, Behaviour(inner).out)
    ensures HasEnd(f, Behaviour(inner).out) ==>
              exists e: nat ::
                && EndsRun(f, Behaviour(inner).out, e) && Pull(inner, e + 1).Pulled?
                && Drain(ToIter(f, false, inner)) ==
                     Drained(Behaviour(inner).out[..e], Predicate(UpTo(f, None, true), true, Pull(inner, e + 1).it), e + 1)
  {
    var y := Behaviour(inner).out;
    ToDrains(f, false, inner);
    RangeEndMeans(f, y);
    hide Drain, Behaviour, Pull, ToIter, RangeEnd;
    if RangeEnd(f, false, y).Some? {
      var e := RangeEnd(f, false, y).value;
      assert EndsRun(f, y, e);
      var i :| 0 <= i < e && f(y[i]);
    }
  }

  /** While with a matcher that cannot look at nil: draining succeeds exactly if some record
      fails the predicate, and then yields the records before the first such one. */
  lemma {:induction false} WhileIsExact(f: Record -> bool, inner: It)
    ensures var d := Drain(Predicate(Pure(f, None), false, inner));
            && (d.Drained? <==> exists x :: x in Behaviour(inner).out && !f(x))
            && (d.Drained? ==> d.out == TakeTrace(Pure(f, None), Behaviour(inner)).out)
    decreases Size(inner)
  {
    NextPops(inner);
    var y := Behaviour(inner).out;
    if y != [] {
      if f(y[0]) {
        WhileIsExact(f, Next(inner).it);
        assert y == [y[0]] + y[1..];
      } else {
        assert y[0] in y && !f(y[0]);
      }
    }
  }
}
