/** The routing table: a primary index by peer and a `ttl` index by deadline, an Upsert that
    writes only what supersedes the stored record, and an Advance that evicts. Times are
    nanoseconds since the Unix epoch, as Go's UnixNano gives them. */
module RoutingTable {
  import opened Bytes
  import opened Prelude

  const I64 := 0x8000_0000_0000_0000

  /** What a time.Time can hold as nanoseconds. */
  predicate IsTime(t: int) {
    -I64 <= t < I64
  }

  // ---- Index keys ----

  /** The `width` low bytes of `n`, most significant first. */
  function BigEndian(n: nat, width: nat): (b: bytes)
    ensures |b| == width
  {
    if width == 0 then [] else BigEndian(n / 256, width - 1) + [(n % 256) as bv8]
  }

  /** timeToBytes: the bits of the signed nanosecond count read as an unsigned word. */
  function TimeBytes(t: int): (b: bytes)
    ensures |b| == 8
  {
    BigEndian(t % U64, 8)
  }

  lemma NumOfByte(x: nat)
    requires x < 256
    ensures Num(x as bv8) == x
  {}

  lemma {:induction false} BigEndianVal(n: nat, width: nat)
    requires n < Pow256(width)
    ensures Val(BigEndian(n, width)) == n
  {
    if width > 0 {
      BigEndianVal(n / 256, width - 1);
      NumOfByte(n % 256);
      hide Num;
      var b := BigEndian(n, width);
      assert b[..width - 1] == BigEndian(n / 256, width - 1);
    }
  }

  lemma Pow256Of8()
    ensures Pow256(8) == U64
  {
    assert Pow256(2) == 0x1_0000;
    assert Pow256(4) == 256 * (256 * Pow256(2));
    assert Pow256(6) == 256 * (256 * Pow256(4));
    assert Pow256(8) == 256 * (256 * Pow256(6));
  }

  /** The non-unique `ttl` index appends the primary key to the encoded deadline. */
  function TtlKey(deadline: int, peer: bytes): bytes {
    TimeBytes(deadline) + peer
  }

  /** What a reverse lower-bound scan from `t` visits. */
  predicate AtOrBelow(key: bytes, t: int) {
    LexLess(key, TimeBytes(t)) || key == TimeBytes(t)
  }

  lemma ScanOrder(deadline: int, peer: bytes, t: int)
    requires peer != []
    ensures AtOrBelow(TtlKey(deadline, peer), t) <==> deadline % U64 < t % U64
  {
    Pow256Of8();
    BigEndianVal(deadline % U64, 8);
    BigEndianVal(t % U64, 8);
    LexLessIsValLess(TimeBytes(deadline), peer, TimeBytes(t));
    assert |TtlKey(deadline, peer)| > 8;
  }

  /** The scan visits exactly the deadlines strictly before `t`, if and only if both times
      lie on the same side of the epoch. */
  lemma ScanIsExactIff(deadline: int, peer: bytes, t: int)
    requires peer != [] && IsTime(deadline) && IsTime(t)
    ensures (AtOrBelow(TtlKey(deadline, peer), t) <==> deadline < t) <==> (deadline < 0 <==> t < 0)
  {
    ScanOrder(deadline, peer, t);
    Wrapped(deadline);
    Wrapped(t);
  }

  lemma Wrapped(t: int)
    requires IsTime(t)
    ensures t % U64 == if t < 0 then t + U64 else t
  {}

  // ---- Rows ----

  /** A heartbeat record: its peer, the server instance that sent it, its sequence number
      and its time to live. */
  datatype Record = Record(peer: bytes, server: nat, number: nat, ttl: int)

  datatype Row = Row(rec: Record, deadline: int)

  type Rows = map<bytes, Row>

  /** `valid`: from the same instance the higher number supersedes, from another one the
      strictly lower number does. */
  predicate Accepts(rows: Rows, rec: Record) {
    rec.peer in rows ==>
      var was := rows[rec.peer].rec;
      if was.server == rec.server then was.number < rec.number else was.number > rec.number
  }

  function Unexpired(rows: Rows, t: int): Rows {
    map p | p in rows && rows[p].deadline >= t :: rows[p]
  }

  // ---- The table's behaviour, eager and lazy ----

  datatype Op = Upsert(rec: Record) | Advance(t: int)

  datatype State = State(clock: int, rows: Rows)

  /** Inputs that a run may contain at a given time. */
  predicate Admissible(clock: int, op: Op) {
    match op
    case Upsert(rec) => rec.peer != [] && 0 <= rec.ttl && clock + rec.ttl < I64
    case Advance(t) => t < I64
  }

  function Eager(s: State, op: Op): State {
    match op
    case Upsert(rec) =>
      if Accepts(s.rows, rec) then s.(rows := s.rows[rec.peer := Row(rec, s.clock + rec.ttl)]) else s
    case Advance(t) =>
      if t > s.clock then State(t, Unexpired(s.rows, t)) else s
  }

  /** The reference: nothing is ever evicted; a row counts as long as it is unexpired. */
  function Lazy(s: State, op: Op): State {
    match op
    case Upsert(rec) =>
      if Accepts(Unexpired(s.rows, s.clock), rec) then s.(rows := s.rows[rec.peer := Row(rec, s.clock + rec.ttl)]) else s
    case Advance(t) =>
      if t > s.clock then s.(clock := t) else s
  }

  function Run(step: (State, Op) -> State, s: State, ops: seq<Op>): State {
    if ops == [] then s else step(Run(step, s, ops[..|ops| - 1]), ops[|ops| - 1])
  }

  ghost predicate AdmissibleRun(s: State, ops: seq<Op>) {
    forall i | 0 <= i < |ops| :: Admissible(Run(Eager, s, ops[..i]).clock, ops[i])
  }

  /** Every stored deadline is at or after the clock. */
  ghost predicate Fresh(s: State) {
    forall p | p in s.rows :: s.rows[p].rec.peer == p && s.clock <= s.rows[p].deadline
  }

  /** In every run the evicting table holds exactly the unexpired rows of the table that
      never evicts, accepts the same records, and stores no expired row. */
  lemma {:induction false} EvictionIsInvisible(s: State, ops: seq<Op>)
    requires Fresh(s) && AdmissibleRun(s, ops)
    ensures var e, l := Run(Eager, s, ops), Run(Lazy, s, ops);
            && e.clock == l.clock && e.rows == Unexpired(l.rows, l.clock) && Fresh(e)
  {
    if ops == [] {
      assert Unexpired(s.rows, s.clock) == s.rows;
    } else {
      var n := |ops| - 1;
      forall i | 0 <= i < n
        ensures Admissible(Run(Eager, s, ops[..n][..i]).clock, ops[..n][i])
      {
        assert ops[..n][..i] == ops[..i];
      }
      EvictionIsInvisible(s, ops[..n]);
      StepIsInvisible(Run(Eager, s, ops[..n]), Run(Lazy, s, ops[..n]), ops[n]);
    }
  }

  lemma StepIsInvisible(e: State, l: State, op: Op)
    requires e.clock == l.clock && e.rows == Unexpired(l.rows, l.clock) && Fresh(e) && Admissible(e.clock, op)
    ensures var e', l' := Eager(e, op), Lazy(l, op);
            && e'.clock == l'.clock && e'.rows == Unexpired(l'.rows, l'.clock) && Fresh(e')
  {}

  /** What an Upsert does: a peer not in the table is stored; of a stored peer, a record of the
      same instance with a higher number or of another one with a lower number replaces the
      row; nothing else changes, and any other record changes nothing. */
  lemma UpsertDecides(s: State, rec: Record)
    ensures var stored := s.(rows := s.rows[rec.peer := Row(rec, s.clock + rec.ttl)]);
            && (rec.peer !in s.rows ==> Eager(s, Upsert(rec)) == stored)
            && (rec.peer in s.rows ==>
                  var was := s.rows[rec.peer].rec;
                  Eager(s, Upsert(rec)) ==
                    if was.server == rec.server && was.number < rec.number then stored
                    else if was.server != rec.server && was.number > rec.number then stored
                    else s)
  {}

  /** In every run, a peer that was never upserted or whose row has expired is stored by its
      next heartbeat, whatever instance and number that has. */
  lemma AbsentIsStored(s: State, ops: seq<Op>, rec: Record)
    requires Fresh(s) && AdmissibleRun(s, ops)
    requires var l := Run(Lazy, s, ops); rec.peer in l.rows ==> l.rows[rec.peer].deadline < l.clock
    ensures var e := Run(Eager, s, ops + [Upsert(rec)]);
            && rec.peer in e.rows && e.rows[rec.peer] == Row(rec, Run(Eager, s, ops).clock + rec.ttl)
  {
    EvictionIsInvisible(s, ops);
    assert (ops + [Upsert(rec)])[..|ops|] == ops;
    UpsertDecides(Run(Eager, s, ops), rec);
  }

  /** The latest of `t` and the times `ops` advances to. */
  function LatestTime(t: int, ops: seq<Op>): int {
    if ops == [] then t
    else
      var m := LatestTime(t, ops[..|ops| - 1]);
      match ops[|ops| - 1]
      case Upsert(_) => m
      case Advance(u) => Max(m, u)
  }

  /** The clock shows the latest time it was advanced to; times that are in the past when they
      arrive change nothing. */
  lemma {:induction false} ClockIsLatest(s: State, ops: seq<Op>)
    ensures Run(Eager, s, ops).clock == LatestTime(s.clock, ops)
    ensures ops != [] && ops[|ops| - 1].Advance? && ops[|ops| - 1].t <= LatestTime(s.clock, ops[..|ops| - 1]) ==>
              Run(Eager, s, ops) == Run(Eager, s, ops[..|ops| - 1])
  {
    if ops != [] {
      ClockIsLatest(s, ops[..|ops| - 1]);
    }
  }

  /** Whether `ops` leaves peer `p` alone. */
  ghost predicate Untouched(p: bytes, ops: seq<Op>) {
    forall i | 0 <= i < |ops| :: ops[i].Upsert? ==> ops[i].rec.peer != p
  }

  /** A refreshed record lives by its new deadline: after an accepted Upsert and any further
      run that does not upsert its peer, the record is in the table if and only if the clock
      has not passed the refreshed deadline, whatever earlier deadline it had. */
  lemma {:induction false} RefreshedOutlives(s: State, rec: Record, ops: seq<Op>)
    requires Fresh(s) && Accepts(s.rows, rec) && Admissible(s.clock, Upsert(rec)) && Untouched(rec.peer, ops)
    ensures var s' := Run(Eager, Eager(s, Upsert(rec)), ops);
            && (rec.peer in s'.rows <==> s'.clock <= s.clock + rec.ttl)
            && (rec.peer in s'.rows ==> s'.rows[rec.peer] == Row(rec, s.clock + rec.ttl))
            && s'.clock >= s.clock
  {
    if ops != [] {
      var n := |ops| - 1;
      assert Untouched(rec.peer, ops[..n]);
      RefreshedOutlives(s, rec, ops[..n]);
    }
  }

  /** Peer `p` is in the table all along the run. */
  ghost predicate Stays(s: State, ops: seq<Op>, p: bytes) {
    forall i | 0 <= i <= |ops| :: p in Run(Eager, s, ops[..i]).rows
  }

  lemma StaysBefore(s: State, ops: seq<Op>, p: bytes)
    requires Stays(s, ops, p) && ops != []
    ensures Stays(s, ops[..|ops| - 1], p) && p in s.rows && p in Run(Eager, s, ops).rows
  {
    var n := |ops| - 1;
    assert ops[..0] == [] && ops[..|ops|] == ops;
    forall i | 0 <= i <= n
      ensures p in Run(Eager, s, ops[..n][..i]).rows
    {
      assert ops[..n][..i] == ops[..i];
    }
  }

  /** Heartbeats of `p` from the instance `server`, and from any other one. */
  predicate Own(op: Op, p: bytes, server: nat) {
    op.Upsert? && op.rec.peer == p && op.rec.server == server
  }

  predicate Foreign(op: Op, p: bytes, server: nat) {
    op.Upsert? && op.rec.peer == p && op.rec.server != server
  }

  /** The highest of `n` and the numbers of the instance's heartbeats in `ops`. */
  function Latest(p: bytes, server: nat, n: nat, ops: seq<Op>): (m: nat)
    ensures m >= n
  {
    if ops == [] then n
    else
      var m := Latest(p, server, n, ops[..|ops| - 1]);
      var op := ops[|ops| - 1];
      if Own(op, p, server) && op.rec.number > m then op.rec.number else m
  }

  lemma {:induction false} LatestBound(p: bytes, server: nat, n: nat, ops: seq<Op>, x: nat)
    requires n <= x && forall i | 0 <= i < |ops| :: Own(ops[i], p, server) ==> ops[i].rec.number <= x
    ensures Latest(p, server, n, ops) <= x
  {
    if ops != [] {
      LatestBound(p, server, n, ops[..|ops| - 1], x);
    }
  }

  /** No heartbeat of another instance is numbered lower than `n` or than one of the
      instance's own. */
  ghost predicate NoneLower(ops: seq<Op>, p: bytes, server: nat, n: nat) {
    && (forall j | 0 <= j < |ops| && Foreign(ops[j], p, server) :: n <= ops[j].rec.number)
    && (forall i, j | 0 <= i < |ops| && 0 <= j < |ops| && Own(ops[i], p, server) && Foreign(ops[j], p, server) ::
          ops[i].rec.number <= ops[j].rec.number)
  }

  /** In whatever order the heartbeats of an instance arrive, and however often each, the
      table holds the one with the highest number, and keeps its row if none is higher than
      the stored one; heartbeats of other instances do not matter unless numbered lower. */
  lemma {:induction false} KeepsLatest(s: State, ops: seq<Op>, p: bytes, server: nat)
    requires Stays(s, ops, p) && p in s.rows && s.rows[p].rec.server == server
    requires NoneLower(ops, p, server, s.rows[p].rec.number)
    ensures var s', m := Run(Eager, s, ops), Latest(p, server, s.rows[p].rec.number, ops);
            && p in s'.rows && s'.rows[p].rec.server == server && s'.rows[p].rec.number == m
            && (m == s.rows[p].rec.number ==> s'.rows[p] == s.rows[p])
  {
    if ops != [] {
      var n := |ops| - 1;
      StaysBefore(s, ops, p);
      assert NoneLower(ops[..n], p, server, s.rows[p].rec.number);
      KeepsLatest(s, ops[..n], p, server);
      if Foreign(ops[n], p, server) {
        LatestBound(p, server, s.rows[p].rec.number, ops[..n], ops[n].rec.number);
      }
    }
  }

  /** The instance's own numbers are at most `u`, those of other instances at least `l`. */
  ghost predicate Numbered(ops: seq<Op>, p: bytes, server: nat, u: nat, l: nat) {
    forall i | 0 <= i < |ops| ::
      && (Own(ops[i], p, server) ==> ops[i].rec.number <= u)
      && (Foreign(ops[i], p, server) ==> l <= ops[i].rec.number)
  }

  /** In every run in which the peer stays in the table and heartbeats are so numbered, the
      stored instance is still the stored one. */
  ghost predicate InstanceStays(s: State, p: bytes, server: nat, u: nat, l: nat) {
    forall ops: seq<Op> | Stays(s, ops, p) && Numbered(ops, p, server, u, l) ::
      p in Run(Eager, s, ops).rows && Run(Eager, s, ops).rows[p].rec.server == server
  }

  /** A server counts from the start again under a new instance when it is restarted. That
      the new instance is not displaced by late heartbeats of older ones is certain exactly
      as long as it has not counted beyond the lowest of their numbers. */
  lemma InstanceStaysIff(s: State, p: bytes, server: nat, u: nat, l: nat)
    requires p in s.rows && s.rows[p].rec.server == server && s.rows[p].rec.number <= u
    ensures InstanceStays(s, p, server, u, l) <==> u <= l
  {
    if u <= l {
      forall ops: seq<Op> | Stays(s, ops, p) && Numbered(ops, p, server, u, l)
        ensures p in Run(Eager, s, ops).rows && Run(Eager, s, ops).rows[p].rec.server == server
      {
        KeepsLatest(s, ops, p, server);
      }
    } else {
      var ops := Displacing(s, p, server, u, l);
    }
  }

  /** The instance counts up to `u`; then another one's heartbeat number `l` arrives. */
  lemma Displacing(s: State, p: bytes, server: nat, u: nat, l: nat) returns (ops: seq<Op>)
    requires p in s.rows && s.rows[p].rec.server == server && s.rows[p].rec.number <= u && l < u
    ensures Stays(s, ops, p) && Numbered(ops, p, server, u, l)
    ensures p in Run(Eager, s, ops).rows && Run(Eager, s, ops).rows[p].rec.server != server
  {
    var own, late := Upsert(Record(p, server, u, 0)), Upsert(Record(p, server + 1, l, 0));
    ops := [own, late];
    assert ops[..0] == [] && ops[..1] == [own] && [own][..0] == [] && ops[..2] == ops;
    var s1 := Eager(s, own);
    var s2 := Eager(s1, late);
    assert ops[..|ops| - 1] == [own];
    assert Run(Eager, s, [own]) == s1;
    assert Run(Eager, s, ops) == Eager(Run(Eager, s, ops[..|ops| - 1]), late);
    forall i | 0 <= i <= |ops|
      ensures p in Run(Eager, s, ops[..i]).rows
    {
      assert i == 0 || i == 1 || i == 2;
    }
  }

  /** So a late heartbeat can displace a restarted server: of the older instance 0, number 5
      is stored; the restarted instance 1 is accepted with number 1 and again with number 9;
      then number 7 of instance 0 arrives and is accepted. */
  lemma LateHeartbeatDisplaces(p: bytes)
    ensures var s0 := State(0, map[p := Row(Record(p, 0, 5, 0), 0)]);
            var s1 := Eager(s0, Upsert(Record(p, 1, 1, 0)));
            var s2 := Eager(s1, Upsert(Record(p, 1, 9, 0)));
            var s3 := Eager(s2, Upsert(Record(p, 0, 7, 0)));
            && s1.rows[p].rec.server == s2.rows[p].rec.server == 1
            && s2.rows[p].rec.number == 9 && s3.rows[p].rec == Record(p, 0, 7, 0)
  {}

  // ---- The indexed table ----

  type Index = map<bytes, Row>

  ghost predicate RowOk(p: bytes, row: Row) {
    p != [] && row.rec.peer == p && 0 <= row.deadline < I64
  }

  function KeyOf(row: Row): bytes {
    TtlKey(row.deadline, row.rec.peer)
  }

  /** Both indexes hold the same rows, under the right keys. */
  ghost predicate Consistent(byId: Rows, byTtl: Index) {
    && (forall p | p in byId :: RowOk(p, byId[p]) && KeyOf(byId[p]) in byTtl && byTtl[KeyOf(byId[p])] == byId[p])
    && (forall k | k in byTtl :: byTtl[k].rec.peer in byId && byId[byTtl[k].rec.peer] == byTtl[k] && k == KeyOf(byTtl[k]))
  }

  lemma KeyNamesPeer(a: Row, b: Row)
    requires KeyOf(a) == KeyOf(b)
    ensures a.rec.peer == b.rec.peer
  {
    assert a.rec.peer == KeyOf(a)[8..] && b.rec.peer == KeyOf(b)[8..];
  }

  lemma DeleteConsistent(byId: Rows, byTtl: Index, p: bytes)
    requires Consistent(byId, byTtl) && p in byId
    ensures Consistent(byId - {p}, byTtl - {KeyOf(byId[p])})
  {
    forall q | q in byId && KeyOf(byId[q]) == KeyOf(byId[p])
      ensures q == p
    {
      KeyNamesPeer(byId[q], byId[p]);
    }
    hide KeyOf;
  }

  lemma InsertConsistent(byId: Rows, byTtl: Index, row: Row)
    requires Consistent(byId, byTtl) && row.rec.peer !in byId && RowOk(row.rec.peer, row)
    ensures Consistent(byId[row.rec.peer := row], byTtl[KeyOf(row) := row])
  {
    forall q | q in byId
      ensures KeyOf(byId[q]) != KeyOf(row)
    {
      if KeyOf(byId[q]) == KeyOf(row) {
        KeyNamesPeer(byId[q], row);
      }
    }
    hide KeyOf;
  }

  /** On consistent indexes the scan finds exactly the expired rows. */
  lemma ScanFindsExpired(byId: Rows, byTtl: Index, t: int)
    requires Consistent(byId, byTtl) && 0 <= t < I64
    ensures forall p | p in byId :: AtOrBelow(KeyOf(byId[p]), t) <==> byId[p].deadline < t
    ensures (forall k | k in byTtl :: !AtOrBelow(k, t)) ==> Unexpired(byId, t) == byId
  {
    forall p | p in byId
      ensures AtOrBelow(KeyOf(byId[p]), t) <==> byId[p].deadline < t
    {
      ScanIsExactIff(byId[p].deadline, p, t);
    }
    hide AtOrBelow, KeyOf;
  }

  /** Midway through an eviction: `todo` are the keys of the scan not deleted yet. */
  ghost predicate Dropping(was: Rows, byId: Rows, byTtl: Index, todo: set<bytes>, t: int) {
    && Consistent(byId, byTtl) && todo <= byTtl.Keys
    && (forall k | k in todo :: byTtl[k].deadline < t)
    && (forall p | p in byId :: p in was && byId[p] == was[p])
    && (forall p | p in was :: p in byId || was[p].deadline < t)
    && (forall p | p in byId && byId[p].deadline < t :: KeyOf(byId[p]) in todo)
  }

  lemma DropOne(was: Rows, byId: Rows, byTtl: Index, todo: set<bytes>, t: int, k: bytes)
    requires Dropping(was, byId, byTtl, todo, t) && k in todo
    ensures k in byTtl && Consistent(byId, byTtl)
    ensures var p := byTtl[k].rec.peer;
            && p in byId && KeyOf(byId[p]) == k
            && Dropping(was, byId - {p}, byTtl - {k}, todo - {k}, t)
  {
    var p := byTtl[k].rec.peer;
    DeleteConsistent(byId, byTtl, p);
    forall q | q in byId && KeyOf(byId[q]) == k
      ensures q == p
    {
      KeyNamesPeer(byId[q], byId[p]);
    }
    hide KeyOf;
  }

  lemma DropStarts(byId: Rows, byTtl: Index, todo: set<bytes>, t: int)
    requires Consistent(byId, byTtl) && 0 <= t < I64 && todo == set k | k in byTtl && AtOrBelow(k, t)
    ensures Dropping(byId, byId, byTtl, todo, t)
  {
    ScanFindsExpired(byId, byTtl, t);
    hide AtOrBelow, KeyOf;
  }

  lemma DropEnds(was: Rows, byId: Rows, byTtl: Index, t: int)
    requires Dropping(was, byId, byTtl, {}, t)
    ensures Consistent(byId, byTtl) && byId == Unexpired(was, t)
  {
    hide KeyOf;
  }

  class Table {
    var clock: int
    var byId: Rows
    var byTtl: Index

    ghost function Abs(): State
      reads this
    {
      State(clock, byId)
    }

    ghost predicate Valid()
      reads this
    {
      0 <= clock < I64 && Consistent(byId, byTtl) && Fresh(Abs())
    }

    constructor (t0: int)
      requires 0 <= t0 < I64
      ensures Valid() && Abs() == State(t0, map[])
    {
      clock := t0;
      byId := map[];
      byTtl := map[];
    }

    /** Inserts a row; a row it replaces leaves the `ttl` index under its own deadline. */
    method Insert(row: Row)
      requires Consistent(byId, byTtl) && RowOk(row.rec.peer, row)
      modifies `byId, `byTtl
      ensures Consistent(byId, byTtl) && byId == old(byId)[row.rec.peer := row]
    {
      hide Consistent, KeyOf;
      var p := row.rec.peer;
      ghost var rest := byId - {p};
      if p in byId {
        DeleteConsistent(byId, byTtl, p);
        byTtl := byTtl - {KeyOf(byId[p])};
      } else {
        assert rest == byId;
      }
      InsertConsistent(rest, byTtl, row);
      byId := byId[p := row];
      byTtl := byTtl[KeyOf(row) := row];
      assert byId == rest[p := row];
    }

    /** Deletes by primary key; whatever row is stored under it leaves both indexes. */
    method Delete(p: bytes)
      requires Consistent(byId, byTtl) && p in byId
      modifies `byId, `byTtl
      ensures Consistent(byId, byTtl) && byId == old(byId) - {p}
      ensures byTtl == old(byTtl) - {KeyOf(old(byId)[p])}
    {
      hide Consistent, KeyOf;
      DeleteConsistent(byId, byTtl, p);
      byTtl := byTtl - {KeyOf(byId[p])};
      byId := byId - {p};
    }

    method Upsert(rec: Record) returns (ok: bool)
      requires Valid() && Admissible(clock, Op.Upsert(rec))
      modifies this
      ensures Valid() && ok == Accepts(old(byId), rec)
      ensures Abs() == Eager(old(Abs()), Op.Upsert(rec))
    {
      hide Consistent;
      ok := Accepts(byId, rec);
      if ok {
        Insert(Row(rec, clock + rec.ttl));
      }
    }

    /** Advances the clock and evicts. The read-only look for expired rows comes first and
        decides whether the table is written at all. */
    method Advance(t: int)
      requires Valid() && Admissible(clock, Op.Advance(t))
      modifies this
      ensures Valid()
      ensures Abs() == Eager(old(Abs()), Op.Advance(t))
    {
      hide Consistent, AtOrBelow, KeyOf;
      if t > clock {
        ScanFindsExpired(byId, byTtl, t);
        var expired := exists k | k in byTtl :: AtOrBelow(k, t);
        if expired {
          DropExpired(t);
        }
        clock := t;
      }
    }

    /** Deletes what the scan from `t` visits. */
    method DropExpired(t: int)
      requires Consistent(byId, byTtl) && 0 <= t < I64
      modifies `byId, `byTtl
      ensures Consistent(byId, byTtl) && byId == Unexpired(old(byId), t)
    {
      hide AtOrBelow, KeyOf, Consistent, Dropping;
      var todo := set k | k in byTtl && AtOrBelow(k, t);
      DropStarts(byId, byTtl, todo, t);
      while todo != {}
        invariant Dropping(old(byId), byId, byTtl, todo, t)
        decreases todo
      {
        var k :| k in todo;
        DropOne(old(byId), byId, byTtl, todo, t, k);
        Delete(byTtl[k].rec.peer);
        todo := todo - {k};
      }
      DropEnds(old(byId), byId, byTtl, t);
    }
  }
}
