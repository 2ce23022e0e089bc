/** Selectors, constraints and queries, and the stateful iterators they are made of. */
module Query {
  import opened Prelude
  import opened QueryIter

  /** A snapshot, as far as a base selector sees it: the records its index visits, in order. */
  type Snapshot = seq<Record>

  /** What a selector returns: an iterator or the error of an invalid limit. */
  datatype Selection = BadLimit(n: int) | Selected(it: It)

  type Selector = Snapshot -> Selection

  datatype Constraint =
    | Where(f: Record -> bool)
    | While(g: Record -> bool, onNil: Option<bool>)
    | Limit(n: int)
    | To(h: Record -> bool)

  /** Binds one constraint to an iterator. */
  function Constrain(c: Constraint, it: It): Selection {
    match c
    case Where(f) => Selected(Filter(Pure(f, None), it))
    case While(g, onNil) => Selected(Predicate(Pure(g, onNil), false, it))
    case Limit(n) => if n <= 0 then BadLimit(n) else Selected(Predicate(Countdown(n), false, it))
    case To(h) => Selected(Predicate(UpTo(h, None, false), false, it))
  }

  function Bind(sel: Selector, c: Constraint): Selector {
    (q: Snapshot) =>
      match sel(q)
      case BadLimit(n) => BadLimit(n)
      case Selected(it) => Constrain(c, it)
  }

  function BindAll(sel: Selector, cs: seq<Constraint>): Selector {
    if cs == [] then sel else Bind(BindAll(sel, cs[..|cs| - 1]), cs[|cs| - 1])
  }

  method Iter(q: Snapshot, sel: Selector, cs: seq<Constraint>) returns (r: Selection)
    ensures r == BindAll(sel, cs)(q)
  {
    var bound := sel;
    for i := 0 to |cs|
      invariant bound == BindAll(sel, cs[..i])
    {
      assert cs[..i + 1][..i] == cs[..i];
      bound := Bind(bound, cs[i]);
    }
    assert cs[..|cs|] == cs;
    r := bound(q);
  }

  // ---- The meaning of a stack of constraints ----

  function Filtered(f: Record -> bool, s: seq<Record>): seq<Record> {
    if s == [] then [] else (if f(s[0]) then [s[0]] else []) + Filtered(f, s[1..])
  }

  function TakenWhile(f: Record -> bool, s: seq<Record>): seq<Record> {
    if s != [] && f(s[0]) then [s[0]] + TakenWhile(f, s[1..]) else []
  }

  function Taken(n: int, s: seq<Record>): seq<Record> {
    if n < 0 then [] else if n < |s| then s[..n] else s
  }

  /** What a constraint makes of a selection that may end in a panic. Where passes the end
      on. While meets it unless a mismatch comes first, and then asks the matcher about nil;
      Limit unless there are records beyond it; To unless a mismatch follows a match, and
      otherwise panics itself. */
  function Meaning(c: Constraint, t: Trace): Trace {
    match c
    case Where(f) => Trace(Filtered(f, t.out), t.panics)
    case While(g, onNil) =>
      var kept := TakenWhile(g, t.out);
      Trace(kept, |kept| == |t.out| && (t.panics || onNil == None))
    case Limit(n) => Trace(Taken(n, t.out), t.panics && |t.out| <= n)
    case To(h) =>
      match RangeEnd(h, false, t.out)
      case None => Trace(t.out, true)
      case Some(e) => Trace(t.out[..e], false)
  }

  function Composition(cs: seq<Constraint>, t: Trace): Trace {
    if cs == [] then t else Meaning(cs[|cs| - 1], Composition(cs[..|cs| - 1], t))
  }

  lemma {:induction false} WhereIsFilter(f: Record -> bool, onNil: Option<bool>, s: seq<Record>)
    ensures FilterSeq(Pure(f, onNil), s) == Filtered(f, s)
  {
    if s != [] {
      WhereIsFilter(f, onNil, s[1..]);
    }
  }

  lemma {:induction false} WhileIsTakeWhile(f: Record -> bool, onNil: Option<bool>, t: Trace)
    ensures TakeTrace(Pure(f, onNil), t) == Meaning(While(f, onNil), t)
    decreases |t.out|
  {
    if t.out != [] {
      WhileIsTakeWhile(f, onNil, Trace(t.out[1..], t.panics));
    }
  }

  lemma {:induction false} LimitIsTake(n: int, t: Trace)
    requires n >= 0
    ensures TakeTrace(Countdown(n), t) == Meaning(Limit(n), t)
    decreases |t.out|
  {
    if t.out != [] && n > 0 {
      LimitIsTake(n - 1, Trace(t.out[1..], t.panics));
      assert t.out == [t.out[0]] + t.out[1..];
    }
  }

  lemma {:induction false} ToIsRange(h: Record -> bool, reached: bool, t: Trace)
    ensures TakeTrace(UpTo(h, None, reached), t) ==
            match RangeEnd(h, reached, t.out)
            case None => Trace(t.out, true)
            case Some(e) => Trace(t.out[..e], false)
    decreases |t.out|
  {
    if t.out != [] && !(reached && !h(t.out[0])) {
      var now, rest := reached || h(t.out[0]), t.out[1..];
      ToIsRange(h, now, Trace(rest, t.panics));
      assert t.out == [t.out[0]] + rest;
      match RangeEnd(h, now, rest)
      case None =>
      case Some(e) => assert [t.out[0]] + rest[..e] == t.out[..e + 1];
    }
  }

  ghost predicate ValidLimits(cs: seq<Constraint>) {
    forall i | 0 <= i < |cs| :: cs[i].Limit? ==> cs[i].n > 0
  }

  lemma ConstraintMeans(c: Constraint, it: It)
    requires c.Limit? ==> c.n > 0
    ensures var r := Constrain(c, it);
            r.Selected? && Behaviour(r.it) == Meaning(c, Behaviour(it))
  {
    match c
    case Where(f) => WhereIsFilter(f, None, Behaviour(it).out);
    case While(g, onNil) => WhileIsTakeWhile(g, onNil, Behaviour(it));
    case Limit(n) => LimitIsTake(n, Behaviour(it));
    case To(h) => ToIsRange(h, false, Behaviour(it));
  }

  /** Binding any stack of constraints onto any selector selects the left-to-right
      composition of filter, take-while, take and range; draining the iterator through its
      stateful Next yields exactly that and leaves it exhausted, or fails exactly if the
      composition ends in a panic. */
  lemma {:induction false} StackComposes(sel: Selector, q: Snapshot, cs: seq<Constraint>)
    requires sel(q).Selected? && ValidLimits(cs)
    ensures var r, t := BindAll(sel, cs)(q), Composition(cs, Behaviour(sel(q).it));
            && r.Selected? && Behaviour(r.it) == t
            && (Drain(r.it).Drained? <==> !t.panics)
            && (!t.panics ==> Drain(r.it).out == t.out && Behaviour(Drain(r.it).it) == ENDED)
  {
    if cs != [] {
      var n := |cs| - 1;
      StackComposes(sel, q, cs[..n]);
      ConstraintMeans(cs[n], BindAll(sel, cs[..n])(q).it);
    }
    DrainYields(BindAll(sel, cs)(q).it);
  }

  /** A range query with a limit on top succeeds if and only if the range ends at a mismatch
      or there are more records than the limit. */
  lemma LimitedRange(q: Snapshot, h: Record -> bool, n: int)
    requires n > 0
    ensures var r := BindAll((s: Snapshot) => Selected(Source(s, 0)), [To(h), Limit(n)])(q);
            var all := match RangeEnd(h, false, q) case None => q case Some(e) => q[..e];
            && r.Selected?
            && (Drain(r.it).Drained? <==> HasEnd(h, q) || n < |q|)
            && (Drain(r.it).Drained? ==> Drain(r.it).out == Taken(n, all))
  {
    var sel := (s: Snapshot) => Selected(Source(s, 0));
    var cs := [To(h), Limit(n)];
    var t := Trace(q, false);
    assert cs[..1] == [To(h)] && [To(h)][..0] == [];
    assert Composition([To(h)], t) == Meaning(To(h), Composition([], t));
    StackComposes(sel, q, cs);
    RangeEndMeans(h, q);
    if RangeEnd(h, false, q).Some? {
      var e := RangeEnd(h, false, q).value;
      var i :| 0 <= i < e && h(q[i]);
    }
    assert Composition(cs, t) == Meaning(Limit(n), Meaning(To(h), t));
  }

  /** The first invalid limit fails the whole selection, whatever is bound after it. */
  lemma {:induction false} FirstBadLimitFails(sel: Selector, q: Snapshot, cs: seq<Constraint>, i: nat)
    requires sel(q).Selected? && i < |cs| && cs[i].Limit? && cs[i].n <= 0 && ValidLimits(cs[..i])
    ensures BindAll(sel, cs)(q) == BadLimit(cs[i].n)
    decreases |cs|
  {
    var n := |cs| - 1;
    if i < n {
      assert cs[..n][..i] == cs[..i];
      FirstBadLimitFails(sel, q, cs[..n], i);
    } else {
      NoBadLimit(sel, q, cs[..n]);
    }
  }

  lemma {:induction false} NoBadLimit(sel: Selector, q: Snapshot, cs: seq<Constraint>)
    requires sel(q).Selected? && ValidLimits(cs)
    ensures BindAll(sel, cs)(q).Selected?
  {
    if cs != [] {
      NoBadLimit(sel, q, cs[..|cs| - 1]);
    }
  }

  // ---- The iterators as objects ----

  datatype Kind = SourceKind | FilterKind | PredicateKind

  /** filterIter and predicateIter over a stateful inner iterator. */
  class Iterator {
    const kind: Kind
    const inner: Iterator?
    var rest: seq<Record>
    var pulled: nat
    var matcher: Matcher
    var stop: bool
    ghost const Repr: set<object>

    ghost predicate Valid()
      reads this, Repr
      decreases Repr
      ensures Valid() ==> this in Repr
    {
      && this in Repr
      && (kind == SourceKind <==> inner == null)
      && (inner != null ==> inner in Repr && inner.Repr <= Repr && this !in inner.Repr && inner.Valid())
    }

    /** The iterator's value. */
    ghost function Value(): It
      requires Valid()
      reads this, Repr
      decreases Repr
    {
      match kind
      case SourceKind => Source(rest, pulled)
      case FilterKind => Filter(matcher, inner.Value())
      case PredicateKind => Predicate(matcher, stop, inner.Value())
    }

    constructor OverSource(records: seq<Record>)
      ensures Valid() && fresh(Repr) && Value() == Source(records, 0)
    {
      kind, inner := SourceKind, null;
      rest, pulled, matcher, stop := records, 0, Countdown(0), false;
      Repr := {this};
    }

    constructor OverFilter(m: Matcher, it: Iterator)
      requires it.Valid()
      ensures Valid() && fresh(Repr - it.Repr) && Value() == Filter(m, it.Value())
    {
      kind, inner := FilterKind, it;
      rest, pulled, matcher, stop := [], 0, m, false;
      Repr := {this} + it.Repr;
    }

    constructor OverPredicate(m: Matcher, it: Iterator)
      requires it.Valid()
      ensures Valid() && fresh(Repr - it.Repr) && Value() == Predicate(m, false, it.Value())
    {
      kind, inner := PredicateKind, it;
      rest, pulled, matcher, stop := [], 0, m, false;
      Repr := {this} + it.Repr;
    }

    /** Next, as the object does it: the result and the new state are those of one pull. */
    method Next() returns (r: Option<Record>, panicked: bool)
      requires Valid()
      modifies Repr
      ensures Valid()
      ensures panicked <==> QueryIter.Next(old(Value())).Panic?
      ensures !panicked ==> QueryIter.Next(old(Value())) == Pulled(r, Value())
      decreases Repr
    {
      match kind
      case SourceKind =>
        panicked := false;
        if rest == [] {
          r := None;
        } else {
          r := Some(rest[0]);
          rest, pulled := rest[1..], pulled + 1;
        }
      case FilterKind =>
        r, panicked := FilterLoop();
      case PredicateKind =>
        r, panicked := None, false;
        if !stop {
          r, panicked := inner.Next();
          if !panicked {
            var (answer, m') := Match(matcher, r);
            panicked := answer == None;
            if !panicked {
              matcher, stop := m', !answer.value;
              if stop {
                r := None;
              }
            }
          }
        }
    }

    method FilterLoop() returns (r: Option<Record>, panicked: bool)
      requires Valid() && kind == FilterKind
      modifies Repr
      ensures Valid()
      ensures panicked <==> QueryIter.Next(old(Value())).Panic?
      ensures !panicked ==> QueryIter.Next(old(Value())) == Pulled(r, Value())
      decreases Repr, 0
    {
      ghost var goal := QueryIter.Next(Value());
      while true
        invariant Valid() && goal == FilterNext(matcher, inner.Value())
        decreases Size(inner.Value())
      {
        r, panicked := inner.Next();
        if panicked || r == None {
          return;
        }
        var (answer, m') := Match(matcher, r);
        matcher := m';
        if answer == None {
          panicked := true;
          return;
        }
        if answer.value {
          return;
        }
      }
    }
  }

  /** Drains an iterator object, to its end or to its panic. */
  method DrainAll(it: Iterator) returns (out: seq<Record>, panicked: bool)
    requires it.Valid()
    modifies it.Repr
    ensures it.Valid() && Trace(out, panicked) == Behaviour(old(it.Value()))
    ensures !panicked ==> Behaviour(it.Value()) == ENDED
  {
    hide Behaviour, QueryIter.Next;
    out := [];
    ghost var all := Behaviour(it.Value());
    while true
      invariant it.Valid()
      invariant all == Trace(out + Behaviour(it.Value()).out, Behaviour(it.Value()).panics)
      decreases Size(it.Value())
    {
      NextPops(it.Value());
      var r;
      r, panicked := it.Next();
      if panicked || r == None {
        return;
      }
      out := out + [r.value];
    }
  }
}
