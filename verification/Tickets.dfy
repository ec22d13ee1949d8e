/** Single-use WebSocket tickets in the memory of one process. Times are in milliseconds. */
module Tickets {
  import opened Prelude

  const TTL_SECS: int := 30

  type Identity = string

  datatype Ticket = Ticket(identity: Identity, created: int)

  type Store = map<string, Ticket>

  /** The tickets that creating one at `now` keeps: those younger than the TTL. */
  function Pruned(store: Store, now: int): Store {
    map t | t in store && store[t].created > now - TTL_SECS * 1000 :: store[t]
  }

  function AfterCreate(store: Store, ticket: string, identity: Identity, now: int): Store {
    Pruned(store, now)[ticket := Ticket(identity, now)]
  }

  /** Whole seconds of age, rounded down, at most the TTL. */
  predicate YoungEnough(t: Ticket, now: int) {
    (now - t.created) / 1000 <= TTL_SECS
  }

  function Redeemed(store: Store, ticket: string, now: int): Option<Identity> {
    if ticket in store && YoungEnough(store[ticket], now) then Some(store[ticket].identity) else None
  }

  class WsTicketStore {
    var tickets: Store

    constructor ()
      ensures tickets == map[]
    {
      tickets := map[];
    }

    method Create(ticket: string, identity: Identity, now: int)
      modifies this
      ensures tickets == AfterCreate(old(tickets), ticket, identity, now)
    {
      var cutoff := now - TTL_SECS * 1000;
      tickets := map t | t in tickets && tickets[t].created > cutoff :: tickets[t];
      tickets := tickets[ticket := Ticket(identity, now)];
    }

    /** The entry goes whether or not it is still valid. */
    method Consume(ticket: string, now: int) returns (identity: Option<Identity>)
      modifies this
      ensures identity == Redeemed(old(tickets), ticket, now)
      ensures tickets == old(tickets) - {ticket}
    {
      if ticket in tickets {
        var entry := tickets[ticket];
        tickets := tickets - {ticket};
        if (now - entry.created) / 1000 <= TTL_SECS {
          return Some(entry.identity);
        }
      }
      return None;
    }
  }

  // ---------------------------------------------------------------- histories

  /** The store's mutex makes every use of it one event; a history is any interleaving of them. */
  datatype Event =
    | Created(ticket: string, identity: Identity, time: int)
    | Consumed(ticket: string, time: int)

  function StoreAfter(h: seq<Event>): Store {
    if h == [] then map[] else
      var n := |h| - 1;
      var before := StoreAfter(h[..n]);
      match h[n]
      case Created(ticket, identity, time) => AfterCreate(before, ticket, identity, time)
      case Consumed(ticket, _) => before - {ticket}
  }

  /** What the consume at `k` returned. */
  function ResultAt(h: seq<Event>, k: nat): Option<Identity>
    requires k < |h| && h[k].Consumed?
  {
    Redeemed(StoreAfter(h[..k]), h[k].ticket, h[k].time)
  }

  /** Ticket strings are random and never drawn twice. */
  ghost predicate FreshTickets(h: seq<Event>) {
    forall i, j | 0 <= i < j < |h| && h[i].Created? && h[j].Created? :: h[i].ticket != h[j].ticket
  }

  /** Nothing between `j` and `k` takes the ticket that was created at `j` out of the store. */
  ghost predicate Survives(h: seq<Event>, j: nat, k: nat)
    requires j < k <= |h| && h[j].Created?
  {
    forall m | j < m < k ::
      match h[m]
      case Created(_, _, time) => time < h[j].time + TTL_SECS * 1000
      case Consumed(ticket, _) => ticket != h[j].ticket
  }

  lemma StoreStep(h: seq<Event>, k: nat)
    requires k < |h|
    ensures StoreAfter(h[..k + 1]) ==
            match h[k]
            case Created(ticket, identity, time) => AfterCreate(StoreAfter(h[..k]), ticket, identity, time)
            case Consumed(ticket, _) => StoreAfter(h[..k]) - {ticket}
  {
    assert h[..k + 1][..k] == h[..k];
  }

  /** Exactly when a ticket is in the store, and what the store has for it. */
  lemma {:induction false} StoredExactly(h: seq<Event>, k: nat, j: nat)
    requires FreshTickets(h) && j < k <= |h| && h[j].Created?
    ensures h[j].ticket in StoreAfter(h[..k]) <==> Survives(h, j, k)
    ensures Survives(h, j, k) ==> StoreAfter(h[..k])[h[j].ticket] == Ticket(h[j].identity, h[j].time)
    decreases k
  {
    hide StoreAfter;
    StoreStep(h, k - 1);
    if j < k - 1 {
      StoredExactly(h, k - 1, j);
      if h[k - 1].Created? {
        assert h[k - 1].ticket != h[j].ticket;
      }
    }
  }

  lemma {:induction false} NotStored(h: seq<Event>, k: nat, ticket: string)
    requires k <= |h| && forall j | 0 <= j < k && h[j].Created? :: h[j].ticket != ticket
    ensures ticket !in StoreAfter(h[..k])
    decreases k
  {
    hide StoreAfter;
    if k == 0 {
      assert h[..0] == [];
      assert StoreAfter([]) == map[] by { NoEvents(); }
    } else {
      NotStored(h, k - 1, ticket);
      StoreStep(h, k - 1);
    }
  }

  lemma NoEvents()
    ensures StoreAfter([]) == map[]
  {
  }

  /**
   A consume returns an identity exactly when the ticket was created for that identity, was not
   consumed in between, is at most 30 whole seconds old, and no create has pruned it.
   */
  lemma ConsumeExactly(h: seq<Event>, k: nat, identity: Identity)
    requires FreshTickets(h) && k < |h| && h[k].Consumed?
    ensures ResultAt(h, k) == Some(identity) <==>
            exists j: nat | j < k && h[j].Created? && h[j].ticket == h[k].ticket ::
              && h[j].identity == identity && Survives(h, j, k)
              && (h[k].time - h[j].time) / 1000 <= 30
  {
    hide StoreAfter, Survives;
    if exists j: nat | j < k && h[j].Created? :: h[j].ticket == h[k].ticket {
      var j: nat :| j < k && h[j].Created? && h[j].ticket == h[k].ticket;
      StoredExactly(h, k, j);
      forall i: nat | i < k && h[i].Created? && h[i].ticket == h[k].ticket ensures i == j {
      }
    } else {
      NotStored(h, k, h[k].ticket);
    }
  }

  /** No ticket is returned twice, in any interleaving. */
  lemma AtMostOnce(h: seq<Event>, k: nat, m: nat)
    requires FreshTickets(h) && k < m < |h| && h[k].Consumed? && h[m].Consumed? && h[k].ticket == h[m].ticket
    ensures ResultAt(h, k).None? || ResultAt(h, m).None?
  {
    hide StoreAfter;
    if ResultAt(h, k).Some? {
      ConsumeExactly(h, k, ResultAt(h, k).value);
      var i: nat :| i < k && h[i].Created? && h[i].ticket == h[k].ticket;
      assert !Survives(h, i, m);
      StoredExactly(h, m, i);
    }
  }
}
