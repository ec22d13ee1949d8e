/**
 Tickets shared by several instances: each create also writes a row to the shared table, and a
 consume that misses its own memory reads and deletes that row. Each step below takes one lock or
 makes one database call. Rows are keyed by the ticket, standing for its hash.
 */
module TicketFleet {
  import opened Prelude
  import opened Tickets

  datatype DbRow = DbRow(identity: Identity, expires: int)

  /** How far a consume has come. */
  datatype Phase =
    | Begun
    | LocalHit(identity: Identity)
    | LocalMiss
    | GotRow(row: DbRow)
    | Done(result: Option<Identity>)

  /** `spent` records that the call began when the ticket had been used up everywhere. */
  datatype Call = Call(instance: nat, ticket: string, phase: Phase, spent: bool)

  /** `issuer` says who created each ticket; `issued` holds those whose create has returned. */
  datatype State = State(
    memory: map<nat, Store>,
    db: map<string, DbRow>,
    issuer: map<string, nat>,
    issued: set<string>,
    calls: map<nat, Call>)

  datatype Action =
    | Create(i: nat, ticket: string, identity: Identity, now: int)
    | Persist(ticket: string, identity: Identity, now: int, ok: bool)
    | Begin(c: nat, i: nat, ticket: string)
    | TryMemory(c: nat, now: int)
    | DeleteAfterHit(c: nat, ok: bool)
    | ReadRow(c: nat, ok: bool)
    | DeleteAfterRead(c: nat, now: int, ok: bool)

  /** The row's expiry is stored in whole seconds, rounded down. */
  function Expiry(now: int): int {
    (now + TTL_SECS * 1000) / 1000 * 1000
  }

  function MemoryOf(s: State, i: nat): Store {
    if i in s.memory then s.memory[i] else map[]
  }

  predicate At(s: State, c: nat) {
    c in s.calls
  }

  /** A new ticket is random: not one issued before, and not one anybody has already presented. */
  predicate Enabled(s: State, a: Action) {
    match a
    case Create(i, ticket, _, _) => ticket !in s.issuer && forall c | c in s.calls :: s.calls[c].ticket != ticket
    case Persist(ticket, _, _, _) => ticket in s.issuer && ticket !in s.issued
    case Begin(c, _, ticket) => c !in s.calls && (ticket in s.issuer ==> ticket in s.issued)
    case TryMemory(c, _) => At(s, c) && s.calls[c].phase.Begun?
    case DeleteAfterHit(c, _) => At(s, c) && s.calls[c].phase.LocalHit?
    case ReadRow(c, _) => At(s, c) && s.calls[c].phase.LocalMiss?
    case DeleteAfterRead(c, _, _) => At(s, c) && s.calls[c].phase.GotRow?
  }

  /** The ticket has been issued, and no memory and no row has it. */
  ghost predicate Spent(s: State, ticket: string) {
    && ticket in s.issued && ticket !in s.db
    && forall i | i in s.memory :: ticket !in s.memory[i]
  }

  function Move(s: State, c: nat, phase: Phase): State
    requires c in s.calls
  {
    s.(calls := s.calls[c := s.calls[c].(phase := phase)])
  }

  ghost function Next(s: State, a: Action): State
    requires Enabled(s, a)
  {
    match a
    case Create(i, ticket, identity, now) =>
      s.(memory := s.memory[i := AfterCreate(MemoryOf(s, i), ticket, identity, now)], issuer := s.issuer[ticket := i])
    case Persist(ticket, identity, now, ok) =>
      s.(db := if ok then s.db[ticket := DbRow(identity, Expiry(now))] else s.db,
         issued := s.issued + {ticket})
    case Begin(c, i, ticket) => s.(calls := s.calls[c := Call(i, ticket, Begun, Spent(s, ticket))])
    case TryMemory(c, now) =>
      var k := s.calls[c];
      var store := MemoryOf(s, k.instance);
      var found := Redeemed(store, k.ticket, now);
      Move(s, c, if found.Some? then LocalHit(found.value) else LocalMiss)
        .(memory := s.memory[k.instance := store - {k.ticket}])
    case DeleteAfterHit(c, ok) =>
      var k := s.calls[c];
      Move(s, c, Done(Some(k.phase.identity))).(db := if ok then s.db - {k.ticket} else s.db)
    case ReadRow(c, ok) =>
      var k := s.calls[c];
      Move(s, c, if ok && k.ticket in s.db then GotRow(s.db[k.ticket]) else Done(None))
    case DeleteAfterRead(c, now, ok) =>
      var k := s.calls[c];
      Move(s, c, Done(if k.phase.row.expires > now then Some(k.phase.row.identity) else None))
        .(db := if ok then s.db - {k.ticket} else s.db)
  }

  ghost function Step(s: State, a: Action): Option<State> {
    if Enabled(s, a) then Some(Next(s, a)) else None
  }

  /** The state after a run, when each of its actions was enabled. */
  ghost function Run(s: State, actions: seq<Action>): Option<State> {
    Runs(Step, s, actions)
  }

  // ---------------------------------------------------------------- invariants

  /** Only the issuer's memory has a ticket, and only issued tickets have rows. */
  ghost predicate Placed(s: State) {
    && s.issued <= s.issuer.Keys
    && (forall t | t in s.db :: t in s.issued)
    && (forall i, t | i in s.memory && t in s.memory[i] :: t in s.issuer && s.issuer[t] == i)
  }

  /** A call that began on a spent ticket returns nothing. */
  ghost predicate SpentCalls(s: State) {
    forall c | c in s.calls && s.calls[c].spent ::
      && Spent(s, s.calls[c].ticket)
      && (s.calls[c].phase.Begun? || s.calls[c].phase.LocalMiss? || s.calls[c].phase == Done(None))
  }

  /** A call that found its ticket in memory is on the issuing instance, which no longer has it. */
  ghost predicate HitCalls(s: State) {
    forall c | c in s.calls ::
      && (s.calls[c].ticket in s.issuer ==> s.calls[c].ticket in s.issued)
      && (s.calls[c].phase.LocalHit? ==> HitCall(s, s.calls[c]))
  }

  ghost predicate HitCall(s: State, k: Call) {
    k.ticket in s.issuer && s.issuer[k.ticket] == k.instance && k.ticket !in MemoryOf(s, k.instance)
  }

  ghost predicate Inv(s: State) {
    Placed(s) && SpentCalls(s) && HitCalls(s)
  }

  /** Once spent, a ticket stays spent. */
  lemma SpentForever(s: State, a: Action, ticket: string)
    requires Placed(s) && Enabled(s, a) && Spent(s, ticket)
    ensures Spent(Next(s, a), ticket)
  {
    var t := Next(s, a);
    match a {
      case Create(i, other, identity, now) =>
        forall j | j in t.memory ensures ticket !in t.memory[j] {
          if j == i && i in s.memory {
            assert ticket !in s.memory[i];
          }
        }
      case TryMemory(c, now) =>
        var i := s.calls[c].instance;
        forall j | j in t.memory ensures ticket !in t.memory[j] {
          if j == i && i in s.memory {
            assert ticket !in s.memory[i];
          }
        }
      case _ =>
    }
  }

  lemma StepKeepsPlaced(s: State, a: Action)
    requires Placed(s) && Enabled(s, a)
    ensures Placed(Next(s, a))
  {
    var t := Next(s, a);
    match a {
      case Create(i, ticket, identity, now) =>
        forall j, x | j in t.memory && x in t.memory[j] ensures x in t.issuer && t.issuer[x] == j {
          if j == i {
            assert x == ticket || x in MemoryOf(s, i);
          } else {
            assert j in s.memory && x in s.memory[j];
          }
        }
      case TryMemory(c, now) =>
        var i := s.calls[c].instance;
        forall j, x | j in t.memory && x in t.memory[j] ensures x in t.issuer && t.issuer[x] == j {
          if j == i {
            assert x in MemoryOf(s, i);
          } else {
            assert j in s.memory && x in s.memory[j];
          }
        }
      case _ =>
    }
  }

  lemma StepKeepsSpentCalls(s: State, a: Action)
    requires Inv(s) && Enabled(s, a)
    ensures SpentCalls(Next(s, a))
  {
    hide Spent;
    var t := Next(s, a);
    forall c | c in t.calls && t.calls[c].spent
      ensures Spent(t, t.calls[c].ticket)
      ensures t.calls[c].phase.Begun? || t.calls[c].phase.LocalMiss? || t.calls[c].phase == Done(None)
    {
      if a.Begin? && c == a.c {
        SameSpent(s, t, a.ticket);
      } else {
        assert c in s.calls && s.calls[c].spent && Spent(s, s.calls[c].ticket);
        SpentForever(s, a, s.calls[c].ticket);
        SpentMeans(s, s.calls[c].ticket);
      }
    }
  }

  lemma StepKeepsHitCalls(s: State, a: Action)
    requires Inv(s) && Enabled(s, a)
    ensures HitCalls(Next(s, a))
  {
    hide Spent, SpentCalls, Redeemed;
    var t := Next(s, a);
    forall c | c in t.calls
      ensures t.calls[c].ticket in t.issuer ==> t.calls[c].ticket in t.issued
      ensures t.calls[c].phase.LocalHit? ==> HitCall(t, t.calls[c])
    {
      if c in s.calls {
        assert s.calls[c].phase.LocalHit? ==> HitCall(s, s.calls[c]);
        if a.TryMemory? && a.c == c {
          HitIsIssuer(s, c, a.now);
        }
      }
    }
  }

  lemma HitIsIssuer(s: State, c: nat, now: int)
    requires Placed(s) && c in s.calls && s.calls[c].phase.Begun?
    ensures Redeemed(MemoryOf(s, s.calls[c].instance), s.calls[c].ticket, now).Some? ==>
              s.calls[c].ticket in s.issuer && s.issuer[s.calls[c].ticket] == s.calls[c].instance
  {
  }

  lemma SpentMeans(s: State, ticket: string)
    requires Spent(s, ticket)
    ensures ticket !in s.db && forall i :: ticket !in MemoryOf(s, i)
  {
  }

  lemma SameSpent(s: State, t: State, ticket: string)
    requires Spent(s, ticket) && t == s.(calls := t.calls)
    ensures Spent(t, ticket)
  {
  }

  lemma {:induction false} RunKeepsInv(s: State, actions: seq<Action>)
    requires Inv(s) && Run(s, actions).Some?
    ensures Inv(Run(s, actions).value)
    decreases |actions|
  {
    hide Placed, SpentCalls, HitCalls, Next, Enabled;
    if actions != [] {
      StepKeepsPlaced(s, actions[0]);
      StepKeepsSpentCalls(s, actions[0]);
      StepKeepsHitCalls(s, actions[0]);
      RunKeepsInv(Next(s, actions[0]), actions[1..]);
    }
  }

  function Start(): State {
    State(map[], map[], map[], {}, map[])
  }

  lemma StartInv()
    ensures Inv(Start())
  {
  }

  /** In any run: a consume that found its ticket in memory and whose delete takes effect spends the ticket. */
  lemma IssuerSpends(actions: seq<Action>, c: nat)
    requires Run(Start(), actions).Some? && Enabled(Run(Start(), actions).value, DeleteAfterHit(c, true))
    ensures var s := Run(Start(), actions).value;
            Spent(Next(s, DeleteAfterHit(c, true)), s.calls[c].ticket)
  {
    hide Runs;
    StartInv();
    RunKeepsInv(Start(), actions);
    var s := Run(Start(), actions).value;
    var ticket := s.calls[c].ticket;
    var owner := s.issuer[ticket];
    assert forall i | i in s.memory && i != owner :: ticket !in s.memory[i];
  }

  /**
   Once a ticket is spent, as it is when the issuing instance has consumed it and its delete has
   taken effect, no consume that begins later returns anything, on any instance, in any
   interleaving and with any database failures.
   */
  lemma SpentStaysSpent(before: seq<Action>, c: nat, i: nat, ticket: string, after: seq<Action>)
    requires Run(Start(), before).Some? && Spent(Run(Start(), before).value, ticket)
    requires Enabled(Run(Start(), before).value, Begin(c, i, ticket))
    requires Run(Next(Run(Start(), before).value, Begin(c, i, ticket)), after).Some?
    ensures var t := Run(Next(Run(Start(), before).value, Begin(c, i, ticket)), after).value;
            c in t.calls && (t.calls[c].phase.Done? ==> t.calls[c].phase == Done(None))
  {
    hide Runs, Placed, HitCalls;
    StartInv();
    RunKeepsInv(Start(), before);
    var s := Run(Start(), before).value;
    var a := Begin(c, i, ticket);
    StepKeepsPlaced(s, a);
    StepKeepsSpentCalls(s, a);
    StepKeepsHitCalls(s, a);
    var s1 := Next(s, a);
    assert c in s1.calls && s1.calls[c].spent;
    RunKeepsInv(s1, after);
    CallStays(s1, after, c);
  }

  lemma {:induction false} CallStays(s: State, actions: seq<Action>, c: nat)
    requires c in s.calls && Run(s, actions).Some?
    ensures var t := Run(s, actions).value; c in t.calls && t.calls[c].spent == s.calls[c].spent
    decreases |actions|
  {
    if actions != [] {
      CallStays(Next(s, actions[0]), actions[1..], c);
    }
  }

  // ---------------------------------------------------------------- one consume alone

  /** The steps of a consume on the ticket's own issuer, when the memory there still has it. */
  function OwnSteps(c: nat, i: nat, ticket: string, now: int, deletes: bool): seq<Action> {
    [Begin(c, i, ticket), TryMemory(c, now)] + [DeleteAfterHit(c, deletes)]
  }

  /** The steps of a consume up to the row it finds. */
  function FindSteps(c: nat, i: nat, ticket: string, now: int): seq<Action> {
    [Begin(c, i, ticket), TryMemory(c, now)] + [ReadRow(c, true)]
  }

  /** The steps of a consume through the shared table. */
  function PeerSteps(c: nat, i: nat, ticket: string, now: int, deletes: bool): seq<Action> {
    FindSteps(c, i, ticket, now) + [DeleteAfterRead(c, now, deletes)]
  }

  /** The steps of a consume that runs alone; its row delete may fail. */
  function LoneSteps(s: State, c: nat, i: nat, ticket: string, now: int, deletes: bool): seq<Action> {
    if Redeemed(MemoryOf(s, i), ticket, now).Some? then OwnSteps(c, i, ticket, now, deletes)
    else if ticket in s.db then PeerSteps(c, i, ticket, now, deletes)
    else FindSteps(c, i, ticket, now)
  }

  /** Call `c` has moved, the ticket has left the memory of `i`, and the rows are `db`. */
  ghost predicate Moved(s: State, t: State, c: nat, i: nat, ticket: string, phase: Phase, db: map<string, DbRow>) {
    && t.db == db && t.issued == s.issued && t.issuer == s.issuer
    && c in t.calls && t.calls == s.calls[c := t.calls[c]]
    && t.calls[c].instance == i && t.calls[c].ticket == ticket && t.calls[c].phase == phase
    && (forall j :: MemoryOf(t, j) == if j == i then MemoryOf(s, i) - {ticket} else MemoryOf(s, j))
  }

  lemma AfterMemory(s: State, c: nat, i: nat, ticket: string, now: int) returns (t: State)
    requires Enabled(s, Begin(c, i, ticket))
    ensures Run(s, [Begin(c, i, ticket), TryMemory(c, now)]) == Some(t)
    ensures var found := Redeemed(MemoryOf(s, i), ticket, now);
            Moved(s, t, c, i, ticket, if found.Some? then LocalHit(found.value) else LocalMiss, s.db)
  {
    hide Runs, Spent, Redeemed;
    var s1 := Next(s, Begin(c, i, ticket));
    t := Next(s1, TryMemory(c, now));
    RunsFirst(Step, s, [Begin(c, i, ticket), TryMemory(c, now)]);
    assert [Begin(c, i, ticket), TryMemory(c, now)][1..] == [TryMemory(c, now)];
    RunsOne(Step, s1, TryMemory(c, now));
    assert t.calls == s.calls[c := t.calls[c]];
  }

  lemma AfterHit(s: State, c: nat, i: nat, ticket: string, now: int, deletes: bool) returns (t: State)
    requires Enabled(s, Begin(c, i, ticket)) && Redeemed(MemoryOf(s, i), ticket, now).Some?
    ensures Run(s, OwnSteps(c, i, ticket, now, deletes)) == Some(t)
    ensures Moved(s, t, c, i, ticket, Done(Redeemed(MemoryOf(s, i), ticket, now)),
                  if deletes then s.db - {ticket} else s.db)
  {
    hide Runs, Spent, Redeemed;
    var s2 := AfterMemory(s, c, i, ticket, now);
    t := Next(s2, DeleteAfterHit(c, deletes));
    RunsOne(Step, s2, DeleteAfterHit(c, deletes));
    RunsAppend(Step, s, [Begin(c, i, ticket), TryMemory(c, now)], [DeleteAfterHit(c, deletes)]);
    assert t.calls == s.calls[c := t.calls[c]];
    assert forall j :: MemoryOf(t, j) == MemoryOf(s2, j);
  }

  lemma AfterFind(s: State, c: nat, i: nat, ticket: string, now: int) returns (t: State)
    requires Enabled(s, Begin(c, i, ticket)) && Redeemed(MemoryOf(s, i), ticket, now).None?
    ensures Run(s, FindSteps(c, i, ticket, now)) == Some(t)
    ensures Moved(s, t, c, i, ticket, if ticket in s.db then GotRow(s.db[ticket]) else Done(None), s.db)
  {
    hide Runs, Spent, Redeemed;
    var s2 := AfterMemory(s, c, i, ticket, now);
    t := Next(s2, ReadRow(c, true));
    RunsOne(Step, s2, ReadRow(c, true));
    RunsAppend(Step, s, [Begin(c, i, ticket), TryMemory(c, now)], [ReadRow(c, true)]);
    assert t.calls == s.calls[c := t.calls[c]];
    assert forall j :: MemoryOf(t, j) == MemoryOf(s2, j);
  }

  function RowResult(row: DbRow, now: int): Option<Identity> {
    if row.expires > now then Some(row.identity) else None
  }

  lemma AfterPeer(s: State, c: nat, i: nat, ticket: string, now: int, deletes: bool) returns (t: State)
    requires Enabled(s, Begin(c, i, ticket)) && Redeemed(MemoryOf(s, i), ticket, now).None? && ticket in s.db
    ensures Run(s, PeerSteps(c, i, ticket, now, deletes)) == Some(t)
    ensures Moved(s, t, c, i, ticket, Done(RowResult(s.db[ticket], now)), if deletes then s.db - {ticket} else s.db)
  {
    hide Runs, Spent, Redeemed, FindSteps;
    var s3 := AfterFind(s, c, i, ticket, now);
    t := Next(s3, DeleteAfterRead(c, now, deletes));
    RunsOne(Step, s3, DeleteAfterRead(c, now, deletes));
    RunsAppend(Step, s, FindSteps(c, i, ticket, now), [DeleteAfterRead(c, now, deletes)]);
    assert t.calls == s.calls[c := t.calls[c]];
    assert forall j :: MemoryOf(t, j) == MemoryOf(s3, j);
  }

  /** What a lone consume finds: its own memory first, then a row that has not expired. */
  function LoneResult(s: State, i: nat, ticket: string, now: int): Option<Identity> {
    var own := Redeemed(MemoryOf(s, i), ticket, now);
    if own.Some? then own else if ticket in s.db then RowResult(s.db[ticket], now) else None
  }

  /**
   A consume that runs alone returns an identity exactly when its own memory has the ticket and it
   is young enough, or the shared table has a row for it that has not expired. In each case the
   ticket leaves that memory, and the row goes unless its delete fails.
   */
  lemma LoneConsumeExact(s: State, c: nat, i: nat, ticket: string, now: int, deletes: bool) returns (t: State)
    requires Enabled(s, Begin(c, i, ticket))
    ensures Run(s, LoneSteps(s, c, i, ticket, now, deletes)) == Some(t)
    ensures Moved(s, t, c, i, ticket, Done(LoneResult(s, i, ticket, now)), if deletes then s.db - {ticket} else s.db)
    ensures LoneResult(s, i, ticket, now).Some? <==>
              || Redeemed(MemoryOf(s, i), ticket, now).Some?
              || (ticket in s.db && s.db[ticket].expires > now)
  {
    hide Runs, Enabled, Redeemed, OwnSteps, PeerSteps, FindSteps;
    if Redeemed(MemoryOf(s, i), ticket, now).Some? {
      t := AfterHit(s, c, i, ticket, now, deletes);
    } else if ticket in s.db {
      t := AfterPeer(s, c, i, ticket, now, deletes);
    } else {
      t := AfterFind(s, c, i, ticket, now);
      assert s.db - {ticket} == s.db;
    }
  }

  /**
   Exactly when a consume that runs alone uses the ticket up in the whole fleet: its row is gone,
   and it ran on the issuer or the issuer's memory had dropped the ticket before.
   */
  lemma SpendsExactly(s: State, c: nat, i: nat, ticket: string, now: int, deletes: bool) returns (t: State)
    requires Inv(s) && ticket in s.issued && c !in s.calls
    ensures Run(s, LoneSteps(s, c, i, ticket, now, deletes)) == Some(t)
    ensures Spent(t, ticket) <==>
              && (deletes || ticket !in s.db)
              && (i == s.issuer[ticket] || ticket !in MemoryOf(s, s.issuer[ticket]))
  {
    hide Runs, LoneSteps, Redeemed, LoneResult, SpentCalls, HitCalls;
    t := LoneConsumeExact(s, c, i, ticket, now, deletes);
    var owner := s.issuer[ticket];
    assert forall j | ticket in MemoryOf(s, j) :: j == owner;
    forall j | j in t.memory ensures t.memory[j] == MemoryOf(t, j) {}
    if ticket in MemoryOf(t, owner) {
      assert owner in t.memory && ticket in t.memory[owner];
    }
  }

  // ---------------------------------------------------------------- single use in the fleet

  /** No memory has the ticket of `c`, and no other call has taken it and not yet deleted its row. */
  ghost predicate Unclaimed(s: State, c: nat)
    requires c in s.calls
  {
    && (forall i :: s.calls[c].ticket !in MemoryOf(s, i))
    && (forall d | d in s.calls && d != c && s.calls[d].ticket == s.calls[c].ticket ::
          !s.calls[d].phase.LocalHit? && !s.calls[d].phase.GotRow?)
  }

  /** A row is read only when nobody else can have its ticket, and no delete of a row fails. */
  ghost predicate Careful(s: State, a: Action)
    requires Enabled(s, a)
  {
    match a
    case ReadRow(c, ok) => ok && s.calls[c].ticket in s.db ==> Unclaimed(s, c)
    case DeleteAfterHit(c, ok) => ok || s.calls[c].ticket !in s.db
    case DeleteAfterRead(c, _, ok) => ok || s.calls[c].ticket !in s.db
    case _ => true
  }

  ghost predicate CarefulRun(s: State, actions: seq<Action>)
    decreases |actions|
  {
    actions == [] || (
      && Enabled(s, actions[0])
      && Careful(s, actions[0])
      && CarefulRun(Next(s, actions[0]), actions[1..]))
  }

  predicate Claims(k: Call) {
    k.phase.LocalHit? || k.phase.GotRow? || (k.phase.Done? && k.phase.result.Some?)
  }

  /** A ticket that a call has taken is in no memory, and its row goes with the call. */
  ghost predicate Taken(s: State, k: Call) {
    && k.ticket in s.issued && (forall i :: k.ticket !in MemoryOf(s, i))
    && (k.phase.Done? ==> k.ticket !in s.db)
  }

  ghost predicate Single(s: State) {
    && (forall c | c in s.calls && Claims(s.calls[c]) :: Taken(s, s.calls[c]))
    && (forall c, d | c in s.calls && d in s.calls && c != d && Claims(s.calls[c]) && Claims(s.calls[d]) ::
          s.calls[c].ticket != s.calls[d].ticket)
  }

  lemma TakenStays(s: State, a: Action, k: Call)
    requires Placed(s) && Enabled(s, a) && Taken(s, k)
    ensures Taken(Next(s, a), k)
  {
    hide Spent, Redeemed;
    var t := Next(s, a);
    forall i ensures k.ticket !in MemoryOf(t, i) {
      assert k.ticket !in MemoryOf(s, i);
    }
  }

  /** No other call has taken the ticket of `c`. */
  ghost predicate Alone(s: State, c: nat)
    requires c in s.calls
  {
    forall d | d in s.calls && d != c && Claims(s.calls[d]) :: s.calls[d].ticket != s.calls[c].ticket
  }

  lemma HitTakes(s: State, c: nat, now: int)
    requires Inv(s) && Single(s) && Enabled(s, TryMemory(c, now)) && Claims(Next(s, TryMemory(c, now)).calls[c])
    ensures Taken(Next(s, TryMemory(c, now)), Next(s, TryMemory(c, now)).calls[c]) && Alone(s, c)
  {
    hide Spent, SpentCalls;
    var t, ticket := Next(s, TryMemory(c, now)), s.calls[c].ticket;
    HitIsIssuer(s, c, now);
    assert ticket in MemoryOf(s, s.calls[c].instance);
    forall i ensures ticket !in MemoryOf(t, i) {
      assert ticket in MemoryOf(s, i) ==> i in s.memory && s.issuer[ticket] == i;
    }
  }

  lemma ReadTakes(s: State, c: nat, ok: bool)
    requires Inv(s) && Single(s) && Enabled(s, ReadRow(c, ok)) && Careful(s, ReadRow(c, ok))
    requires Claims(Next(s, ReadRow(c, ok)).calls[c])
    ensures Taken(Next(s, ReadRow(c, ok)), Next(s, ReadRow(c, ok)).calls[c]) && Alone(s, c)
  {
    hide Spent, SpentCalls, HitCalls;
    var t, ticket := Next(s, ReadRow(c, ok)), s.calls[c].ticket;
    forall i ensures ticket !in MemoryOf(t, i) {
      assert MemoryOf(t, i) == MemoryOf(s, i);
    }
    forall d | d in s.calls && d != c && Claims(s.calls[d]) ensures s.calls[d].ticket != ticket {
      assert Taken(s, s.calls[d]);
    }
  }

  lemma DeleteTakes(s: State, a: Action, c: nat)
    requires Single(s) && Enabled(s, a) && Careful(s, a) && (a.DeleteAfterHit? || a.DeleteAfterRead?) && a.c == c
    ensures Taken(Next(s, a), Next(s, a).calls[c]) && Alone(s, c)
  {
    hide Spent;
    var t := Next(s, a);
    assert Taken(s, s.calls[c]);
    forall i ensures s.calls[c].ticket !in MemoryOf(t, i) {
      assert MemoryOf(t, i) == MemoryOf(s, i);
    }
  }

  /** The call that moves takes its ticket only when no other call has. */
  lemma MoverTakes(s: State, a: Action, c: nat)
    requires Inv(s) && Single(s) && Enabled(s, a) && Careful(s, a)
    requires c in s.calls && s.calls[c] != Next(s, a).calls[c] && Claims(Next(s, a).calls[c])
    ensures Taken(Next(s, a), Next(s, a).calls[c]) && Alone(s, c)
    ensures s.calls[c].ticket == Next(s, a).calls[c].ticket
    ensures forall d | d in s.calls && d != c :: Next(s, a).calls[d] == s.calls[d]
  {
    hide Inv, Single, Taken, Alone, Careful, Spent;
    match a {
      case TryMemory(_, now) => HitTakes(s, c, now);
      case ReadRow(_, ok) => ReadTakes(s, c, ok);
      case DeleteAfterHit(_, _) => DeleteTakes(s, a, c);
      case DeleteAfterRead(_, _, _) => DeleteTakes(s, a, c);
      case _ =>
    }
  }

  lemma StepKeepsSingle(s: State, a: Action)
    requires Inv(s) && Single(s) && Enabled(s, a) && Careful(s, a)
    ensures Single(Next(s, a))
  {
    hide Inv, Taken, Careful;
    var t := Next(s, a);
    forall c | c in t.calls && Claims(t.calls[c]) ensures Taken(t, t.calls[c]) {
      SingleStep(s, a, c);
    }
    forall c, d | c in t.calls && d in t.calls && c != d && Claims(t.calls[c]) && Claims(t.calls[d])
      ensures t.calls[c].ticket != t.calls[d].ticket
    {
      SingleStep(s, a, c);
      SingleStep(s, a, d);
    }
  }

  lemma SingleStep(s: State, a: Action, c: nat)
    requires Inv(s) && Single(s) && Enabled(s, a) && Careful(s, a)
    requires c in Next(s, a).calls && Claims(Next(s, a).calls[c])
    ensures Taken(Next(s, a), Next(s, a).calls[c])
    ensures c in s.calls && s.calls[c].ticket == Next(s, a).calls[c].ticket
    ensures s.calls[c] == Next(s, a).calls[c] ||
            (forall d | d in s.calls && d != c ::
               && Next(s, a).calls[d] == s.calls[d]
               && (Claims(s.calls[d]) ==> s.calls[d].ticket != s.calls[c].ticket))
  {
    hide Taken, Careful, SpentCalls, HitCalls, Spent;
    if s.calls[c] == Next(s, a).calls[c] {
      TakenStays(s, a, s.calls[c]);
    } else {
      MoverTakes(s, a, c);
    }
  }

  lemma {:induction false} CarefulRunKeepsSingle(s: State, actions: seq<Action>)
    requires Inv(s) && Single(s) && CarefulRun(s, actions)
    ensures Run(s, actions).Some? && Single(Run(s, actions).value)
    decreases |actions|
  {
    hide Inv, Single, Next, Enabled, Careful;
    if actions != [] {
      var a := actions[0];
      StepKeepsSingle(s, a);
      RunsOne(Step, s, a);
      RunKeepsInv(s, [a]);
      CarefulRunKeepsSingle(Next(s, a), actions[1..]);
    }
  }

  /** In every careful run of any number of instances, no two consumes of a ticket succeed. */
  lemma SingleUse(actions: seq<Action>, c: nat, d: nat)
    requires CarefulRun(Start(), actions) && c != d
    ensures Run(Start(), actions).Some?
    ensures var s := Run(Start(), actions).value;
            c in s.calls && d in s.calls && s.calls[c].ticket == s.calls[d].ticket ==>
              !(s.calls[c].phase.Done? && s.calls[c].phase.result.Some? &&
                s.calls[d].phase.Done? && s.calls[d].phase.result.Some?)
  {
    hide Runs, CarefulRun;
    StartInv();
    CarefulRunKeepsSingle(Start(), actions);
  }

  /** At `now` the ticket has not expired anywhere: not in a memory, a row, or a call that has read the row. */
  ghost predicate Alive(s: State, ticket: string, now: int) {
    && (ticket in s.db ==> s.db[ticket].expires > now)
    && (forall i | ticket in MemoryOf(s, i) :: YoungEnough(MemoryOf(s, i)[ticket], now))
    && (forall c | c in s.calls && s.calls[c].ticket == ticket && s.calls[c].phase.GotRow? ::
          s.calls[c].phase.row.expires > now)
  }

  /** Two different consumes of the same ticket have both succeeded. */
  ghost predicate BothSucceed(r: Option<State>, c: nat, d: nat) {
    && r.Some? && c != d && c in r.value.calls && d in r.value.calls
    && r.value.calls[c].ticket == r.value.calls[d].ticket
    && r.value.calls[c].phase.Done? && r.value.calls[c].phase.result.Some?
    && r.value.calls[d].phase.Done? && r.value.calls[d].phase.result.Some?
  }

  /** The row is read while a memory still has the ticket. */
  lemma ReadBeforeHit(s: State, c: nat, i: nat, now: int, e: nat)
    requires Inv(s) && Enabled(s, ReadRow(c, true)) && e !in s.calls && Alive(s, s.calls[c].ticket, now)
    requires s.calls[c].ticket in s.db && s.calls[c].ticket in MemoryOf(s, i)
    ensures BothSucceed(Run(Next(s, ReadRow(c, true)),
                            [DeleteAfterRead(c, now, true)] + OwnSteps(e, i, s.calls[c].ticket, now, true)), c, e)
  {
    hide Runs, OwnSteps, SpentCalls, HitCalls, Spent;
    var ticket := s.calls[c].ticket;
    var s1 := Next(s, ReadRow(c, true));
    var s2 := Next(s1, DeleteAfterRead(c, now, true));
    assert MemoryOf(s2, i) == MemoryOf(s, i);
    var u := AfterHit(s2, e, i, ticket, now, true);
    RunsOne(Step, s1, DeleteAfterRead(c, now, true));
    RunsAppend(Step, s1, [DeleteAfterRead(c, now, true)], OwnSteps(e, i, ticket, now, true));
  }

  /** The row is read while another call has taken the ticket and not yet deleted the row. */
  lemma ReadDuringOther(s: State, c: nat, d: nat, now: int) returns (last: Action)
    requires Enabled(s, ReadRow(c, true)) && Alive(s, s.calls[c].ticket, now) && s.calls[c].ticket in s.db
    requires d in s.calls && d != c && s.calls[d].ticket == s.calls[c].ticket
    requires s.calls[d].phase.LocalHit? || s.calls[d].phase.GotRow?
    ensures BothSucceed(Run(Next(s, ReadRow(c, true)), [DeleteAfterRead(c, now, true)] + [last]), c, d)
  {
    hide Runs, Spent;
    var s1 := Next(s, ReadRow(c, true));
    var s2 := Next(s1, DeleteAfterRead(c, now, true));
    last := if s.calls[d].phase.LocalHit? then DeleteAfterHit(d, true) else DeleteAfterRead(d, now, true);
    RunsOne(Step, s1, DeleteAfterRead(c, now, true));
    RunsOne(Step, s2, last);
    RunsAppend(Step, s1, [DeleteAfterRead(c, now, true)], [last]);
  }

  /** A consume succeeds, and its row stays. */
  lemma RowStays(s: State, a: Action, now: int, e: nat)
    requires Inv(s) && Enabled(s, a) && e !in s.calls
    requires (a.DeleteAfterHit? && !a.ok) || (a.DeleteAfterRead? && !a.ok && a.now == now)
    requires s.calls[a.c].ticket in s.db && Alive(s, s.calls[a.c].ticket, now)
    ensures BothSucceed(Run(Next(s, a), LoneSteps(Next(s, a), e, 0, s.calls[a.c].ticket, now, true)), a.c, e)
  {
    hide Runs, LoneSteps, SpentCalls, HitCalls, Spent;
    var u := LoneConsumeExact(Next(s, a), e, 0, s.calls[a.c].ticket, now, true);
  }

  /**
   The conditions of `Careful` are exact: a step that breaks one of them on a ticket that has not
   expired can be continued, at once, to a second successful consume.
   */
  lemma CarelessIsReplayable(s: State, a: Action, now: int, e: nat) returns (more: seq<Action>, c: nat, d: nat)
    requires Inv(s) && Enabled(s, a) && !Careful(s, a) && e !in s.calls
    requires a.DeleteAfterRead? ==> a.now == now
    requires Alive(s, s.calls[a.c].ticket, now)
    ensures BothSucceed(Run(Next(s, a), more), c, d)
  {
    hide Runs, Inv, Next, Alive, BothSucceed, OwnSteps, LoneSteps;
    c := a.c;
    var ticket := s.calls[c].ticket;
    if !a.ReadRow? {
      RowStays(s, a, now, e);
      more, d := LoneSteps(Next(s, a), e, 0, ticket, now, true), e;
    } else if i: nat :| ticket in MemoryOf(s, i) {
      ReadBeforeHit(s, c, i, now, e);
      more, d := [DeleteAfterRead(c, now, true)] + OwnSteps(e, i, ticket, now, true), e;
    } else {
      d :| && d in s.calls && d != c && s.calls[d].ticket == ticket
           && (s.calls[d].phase.LocalHit? || s.calls[d].phase.GotRow?);
      var last := ReadDuringOther(s, c, d, now);
      more := [DeleteAfterRead(c, now, true)] + [last];
    }
  }

  // ---------------------------------------------------------------- runs in which a ticket is used twice

  /** Two different consumes of the ticket both return its identity. */
  ghost predicate UsedTwice(actions: seq<Action>, ticket: string, identity: Identity) {
    var r := Run(Start(), actions);
    && r.Some? && 0 in r.value.calls && 1 in r.value.calls
    && r.value.calls[0].ticket == ticket && r.value.calls[1].ticket == ticket
    && r.value.calls[0].phase == Done(Some(identity)) && r.value.calls[1].phase == Done(Some(identity))
  }

  function IssueSteps(issuer: nat, ticket: string, identity: Identity, time: int): seq<Action> {
    [Create(issuer, ticket, identity, time)] + [Persist(ticket, identity, time, true)]
  }

  /** A ticket that is issued, in the issuer's memory and in the table. */
  lemma Issued(issuer: nat, ticket: string, identity: Identity, time: int) returns (s: State)
    ensures Run(Start(), IssueSteps(issuer, ticket, identity, time)) == Some(s)
    ensures s.calls == map[] && ticket in s.issued
    ensures s.db == map[ticket := DbRow(identity, Expiry(time))]
    ensures forall j :: MemoryOf(s, j) == if j == issuer then map[ticket := Ticket(identity, time)] else map[]
  {
    hide Runs;
    var s1 := Next(Start(), Create(issuer, ticket, identity, time));
    RunsOne(Step, Start(), Create(issuer, ticket, identity, time));
    RunsOne(Step, s1, Persist(ticket, identity, time, true));
    s := Next(s1, Persist(ticket, identity, time, true));
    RunsAppend(Step, Start(), [Create(issuer, ticket, identity, time)], [Persist(ticket, identity, time, true)]);
  }

  lemma AfterIssue(issuer: nat, ticket: string, identity: Identity, time: int, s: State, more: seq<Action>)
    requires Run(Start(), IssueSteps(issuer, ticket, identity, time)) == Some(s)
    ensures Run(Start(), IssueSteps(issuer, ticket, identity, time) + more) == Run(s, more)
  {
    hide Runs, IssueSteps;
    RunsAppend(Step, Start(), IssueSteps(issuer, ticket, identity, time), more);
  }

  /** A row lives for more than 29 and at most 30 seconds. */
  lemma ExpiryBounds(time: int)
    ensures time + 29000 < Expiry(time) <= time + 30000 && Expiry(time) % 1000 == 0
  {
  }

  /** A peer that consumes an issued ticket alone gets its identity for 29 seconds, and not from 30 on. */
  lemma PeerRedeems(issuer: nat, peer: nat, ticket: string, identity: Identity, time: int, now: int)
    requires issuer != peer
    ensures var r := Run(Start(), IssueSteps(issuer, ticket, identity, time) + PeerSteps(0, peer, ticket, now, true));
            && r.Some? && 0 in r.value.calls
            && (now <= time + 29000 ==> r.value.calls[0].phase == Done(Some(identity)))
            && (now >= time + 30000 ==> r.value.calls[0].phase == Done(None))
  {
    hide Runs, IssueSteps, PeerSteps, Next, Expiry;
    ExpiryBounds(time);
    var s := Issued(issuer, ticket, identity, time);
    var t := AfterPeer(s, 0, peer, ticket, now, true);
    AfterIssue(issuer, ticket, identity, time, s, PeerSteps(0, peer, ticket, now, true));
  }

  /** One after the other: a peer through the table, then the issuer from its memory. */
  lemma PeerThenIssuer(issuer: nat, peer: nat, ticket: string, identity: Identity, time: int, now: int)
    requires issuer != peer && now < Expiry(time)
    ensures UsedTwice(IssueSteps(issuer, ticket, identity, time) +
                      (PeerSteps(0, peer, ticket, now, true) + OwnSteps(1, issuer, ticket, now, true)),
                      ticket, identity)
  {
    hide Runs, IssueSteps, PeerSteps, OwnSteps, Next;
    var s := Issued(issuer, ticket, identity, time);
    var t := AfterPeer(s, 0, peer, ticket, now, true);
    var u := AfterHit(t, 1, issuer, ticket, now, true);
    var first, second := PeerSteps(0, peer, ticket, now, true), OwnSteps(1, issuer, ticket, now, true);
    RunsAppend(Step, s, first, second);
    AfterIssue(issuer, ticket, identity, time, s, first + second);
  }

  /** At the same time: the issuer has the ticket from memory, and a peer reads the row before it is deleted. */
  lemma PeerDuringHit(issuer: nat, peer: nat, ticket: string, identity: Identity, time: int, now: int)
    requires issuer != peer && now < Expiry(time)
    ensures UsedTwice(IssueSteps(issuer, ticket, identity, time) +
                      ([Begin(0, issuer, ticket), TryMemory(0, now)] +
                       (PeerSteps(1, peer, ticket, now, true) + [DeleteAfterHit(0, true)])), ticket, identity)
  {
    hide Runs, IssueSteps, PeerSteps;
    var s := Issued(issuer, ticket, identity, time);
    var t := AfterMemory(s, 0, issuer, ticket, now);
    var u := AfterPeer(t, 1, peer, ticket, now, true);
    var hit, peerSteps := [Begin(0, issuer, ticket), TryMemory(0, now)], PeerSteps(1, peer, ticket, now, true);
    RunsOne(Step, u, DeleteAfterHit(0, true));
    RunsAppend(Step, t, peerSteps, [DeleteAfterHit(0, true)]);
    RunsAppend(Step, s, hit, peerSteps + [DeleteAfterHit(0, true)]);
    AfterIssue(issuer, ticket, identity, time, s, hit + (peerSteps + [DeleteAfterHit(0, true)]));
  }

  /** At the same time: two consumes on peers, or on one peer, read the row before either deletes it. */
  lemma TwoPeers(issuer: nat, i: nat, j: nat, ticket: string, identity: Identity, time: int, now: int)
    requires issuer != i && issuer != j && now < Expiry(time)
    ensures UsedTwice(IssueSteps(issuer, ticket, identity, time) +
                      (FindSteps(0, i, ticket, now) +
                       (FindSteps(1, j, ticket, now) +
                        ([DeleteAfterRead(0, now, true)] + [DeleteAfterRead(1, now, true)]))),
                      ticket, identity)
  {
    hide Runs, IssueSteps, FindSteps;
    var s := Issued(issuer, ticket, identity, time);
    var t := AfterFind(s, 0, i, ticket, now);
    var u := AfterFind(t, 1, j, ticket, now);
    var first, second := [DeleteAfterRead(0, now, true)], [DeleteAfterRead(1, now, true)];
    RunsOne(Step, u, DeleteAfterRead(0, now, true));
    RunsOne(Step, Next(u, DeleteAfterRead(0, now, true)), DeleteAfterRead(1, now, true));
    RunsAppend(Step, u, first, second);
    var find, findToo := FindSteps(0, i, ticket, now), FindSteps(1, j, ticket, now);
    RunsAppend(Step, t, findToo, first + second);
    RunsAppend(Step, s, find, findToo + (first + second));
    AfterIssue(issuer, ticket, identity, time, s, find + (findToo + (first + second)));
  }

  /** One after the other: the first delete fails, and the row is still there for the next peer. */
  lemma FailedDelete(issuer: nat, i: nat, j: nat, ticket: string, identity: Identity, time: int, now: int)
    requires issuer != i && issuer != j && now < Expiry(time)
    ensures UsedTwice(IssueSteps(issuer, ticket, identity, time) +
                      (PeerSteps(0, i, ticket, now, false) + PeerSteps(1, j, ticket, now, true)), ticket, identity)
  {
    hide Runs, IssueSteps, PeerSteps, Next;
    var s := Issued(issuer, ticket, identity, time);
    var t := AfterPeer(s, 0, i, ticket, now, false);
    var u := AfterPeer(t, 1, j, ticket, now, true);
    var first, second := PeerSteps(0, i, ticket, now, false), PeerSteps(1, j, ticket, now, true);
    RunsAppend(Step, s, first, second);
    AfterIssue(issuer, ticket, identity, time, s, first + second);
  }
}
