/**
 The reaper of idle VDI containers. On each tick it lists the containers, refreshes the timer of
 those that are active or new, and stops those whose timer is older than their timeout.
 */
module Reaper {
  import opened Prelude

  /** A listed container; `active` is whether a session uses it now. */
  datatype Container = Container(id: string, active: bool, timeoutMins: Option<nat>)

  /** When each tracked container was last active or first seen, in seconds. */
  type Timers = map<string, int>

  function Timeout(c: Container, defaultSecs: nat): nat {
    match c.timeoutMins case Some(m) => m * 60 case None => defaultSecs
  }

  predicate Expired(timers: Timers, c: Container, now: int, defaultSecs: nat) {
    !c.active && c.id in timers && now - timers[c.id] > Timeout(c, defaultSecs)
  }

  /** What one listed container does to the timers. */
  function Visit(timers: Timers, c: Container, now: int, defaultSecs: nat): Timers {
    if c.active || c.id !in timers then timers[c.id := now]
    else if Expired(timers, c, now, defaultSecs) then timers - {c.id}
    else timers
  }

  function VisitAll(timers: Timers, cs: seq<Container>, now: int, defaultSecs: nat): Timers {
    if cs == [] then timers else
      var n := |cs| - 1;
      Visit(VisitAll(timers, cs[..n], now, defaultSecs), cs[n], now, defaultSecs)
  }

  function Listed(cs: seq<Container>): set<string> {
    set k | 0 <= k < |cs| :: cs[k].id
  }

  /** Docker lists each container once. */
  ghost predicate UniqueIds(cs: seq<Container>) {
    forall i, j | 0 <= i < j < |cs| :: cs[i].id != cs[j].id
  }

  class VdiReaper {
    var lastActive: Timers

    constructor ()
      ensures lastActive == map[]
    {
      lastActive := map[];
    }

    /** One tick with a successful listing. */
    method OnTick(cs: seq<Container>, now: int, defaultSecs: nat) returns (stopped: seq<string>)
      requires UniqueIds(cs)
      modifies this
      ensures lastActive == AfterTick(old(lastActive), cs, now, defaultSecs)
      ensures forall id :: id in stopped <==> StoppedBy(old(lastActive), cs, now, defaultSecs, id)
      ensures forall id :: id in lastActive <==> id in Listed(cs) && id !in stopped
    {
      stopped := [];
      ghost var before := lastActive;
      for i := 0 to |cs|
        invariant lastActive == VisitAll(before, cs[..i], now, defaultSecs)
        invariant forall id :: id in stopped <==> StoppedBy(before, cs[..i], now, defaultSecs, id)
      {
        var c := cs[i];
        assert cs[..i + 1][..i] == cs[..i];
        Untouched(before, cs[..i], now, defaultSecs, c.id);
        StoppedSnoc(before, cs, i, now, defaultSecs);
        if c.active {
          lastActive := lastActive[c.id := now];
        } else if c.id in lastActive {
          var timeout := Timeout(c, defaultSecs);
          if now - lastActive[c.id] > timeout {
            stopped := stopped + [c.id];
            lastActive := lastActive - {c.id};
          }
        } else {
          lastActive := lastActive[c.id := now];
        }
      }
      assert cs[..|cs|] == cs;
      lastActive := map id | id in lastActive && id in Listed(cs) :: lastActive[id];
      Retained(before, cs, now, defaultSecs);
    }
  }

  // ---------------------------------------------------------------- one tick in closed form

  /** The timers after a tick: only listed containers that were not stopped are tracked. */
  ghost function AfterTick(timers: Timers, cs: seq<Container>, now: int, defaultSecs: nat): Timers {
    map id | id in Listed(cs) && !StoppedBy(timers, cs, now, defaultSecs, id) ::
      if id in timers && !ActiveIn(cs, id) then timers[id] else now
  }

  ghost predicate ActiveIn(cs: seq<Container>, id: string) {
    exists k | 0 <= k < |cs| :: cs[k].id == id && cs[k].active
  }

  ghost predicate StoppedBy(timers: Timers, cs: seq<Container>, now: int, defaultSecs: nat, id: string) {
    exists k | 0 <= k < |cs| :: cs[k].id == id && Expired(timers, cs[k], now, defaultSecs)
  }

  lemma {:induction false} Untouched(timers: Timers, cs: seq<Container>, now: int, defaultSecs: nat, id: string)
    requires forall k | 0 <= k < |cs| :: cs[k].id != id
    ensures var u := VisitAll(timers, cs, now, defaultSecs);
            (id in u <==> id in timers) && (id in timers ==> u[id] == timers[id])
  {
    if cs != [] {
      var n := |cs| - 1;
      Untouched(timers, cs[..n], now, defaultSecs, id);
      assert cs[n].id != id;
    }
  }

  lemma StoppedSnoc(timers: Timers, cs: seq<Container>, i: nat, now: int, defaultSecs: nat)
    requires i < |cs|
    ensures forall id :: StoppedBy(timers, cs[..i + 1], now, defaultSecs, id) <==>
              || StoppedBy(timers, cs[..i], now, defaultSecs, id)
              || (id == cs[i].id && Expired(timers, cs[i], now, defaultSecs))
  {
    hide Expired;
    var all, front := cs[..i + 1], cs[..i];
    assert all == front + [cs[i]];
    forall id
      ensures StoppedBy(timers, all, now, defaultSecs, id) <==>
              || StoppedBy(timers, front, now, defaultSecs, id)
              || (id == cs[i].id && Expired(timers, cs[i], now, defaultSecs))
    {
      if StoppedBy(timers, front, now, defaultSecs, id) {
        var k :| 0 <= k < |front| && front[k].id == id && Expired(timers, front[k], now, defaultSecs);
        assert all[k] == front[k];
      }
      if id == cs[i].id && Expired(timers, cs[i], now, defaultSecs) {
        assert all[i] == cs[i];
      }
    }
  }

  /** The timer of a listed container after the loop, whatever its place in the listing. */
  lemma {:induction false} VisitedAt(timers: Timers, cs: seq<Container>, now: int, defaultSecs: nat, k: nat)
    requires UniqueIds(cs) && k < |cs|
    ensures var c, u := cs[k], VisitAll(timers, cs, now, defaultSecs);
            && (c.id in u <==> !Expired(timers, c, now, defaultSecs))
            && (c.id in u ==> u[c.id] == if c.id in timers && !c.active then timers[c.id] else now)
    decreases |cs|
  {
    var n := |cs| - 1;
    if k == n {
      Untouched(timers, cs[..n], now, defaultSecs, cs[n].id);
    } else {
      VisitedAt(timers, cs[..n], now, defaultSecs, k);
      assert cs[k].id != cs[n].id;
    }
  }

  /** Dropping the timers of unlisted containers leaves the closed form. */
  lemma Retained(timers: Timers, cs: seq<Container>, now: int, defaultSecs: nat)
    requires UniqueIds(cs)
    ensures var u := VisitAll(timers, cs, now, defaultSecs);
            (map id | id in u && id in Listed(cs) :: u[id]) == AfterTick(timers, cs, now, defaultSecs)
  {
    hide Expired, VisitAll;
    var u, v := VisitAll(timers, cs, now, defaultSecs), AfterTick(timers, cs, now, defaultSecs);
    forall id | id in Listed(cs)
      ensures id in u <==> id in v
      ensures id in u ==> u[id] == v[id]
    {
      var k :| 0 <= k < |cs| && cs[k].id == id;
      VisitedAt(timers, cs, now, defaultSecs, k);
    }
  }

  // ---------------------------------------------------------------- over many ticks

  /** A tick whose listing failed changes nothing. */
  datatype Tick = Tick(time: int, listing: Option<seq<Container>>)

  ghost function TimersAfter(h: seq<Tick>, defaultSecs: nat): Timers {
    if h == [] then map[] else
      var n := |h| - 1;
      var before := TimersAfter(h[..n], defaultSecs);
      match h[n].listing
      case None => before
      case Some(cs) => AfterTick(before, cs, h[n].time, defaultSecs)
  }

  ghost predicate StoppedAt(h: seq<Tick>, t: nat, defaultSecs: nat, id: string)
    requires t < |h|
  {
    && h[t].listing.Some?
    && StoppedBy(TimersAfter(h[..t], defaultSecs), h[t].listing.value, h[t].time, defaultSecs, id)
  }

  /** The last successful listing before tick `j` had the container, and did not stop it. */
  ghost predicate Known(h: seq<Tick>, j: nat, defaultSecs: nat, id: string)
    requires j <= |h|
  {
    exists k: nat | k < j && (forall i | k < i < j :: h[i].listing.None?) :: Spared(h, k, defaultSecs, id)
  }

  ghost predicate Spared(h: seq<Tick>, k: nat, defaultSecs: nat, id: string)
    requires k < |h|
  {
    h[k].listing.Some? && id in Listed(h[k].listing.value) && !StoppedAt(h, k, defaultSecs, id)
  }

  /** Listed at tick `j`, and active then or not known from the listing before. */
  ghost predicate Marked(h: seq<Tick>, j: nat, defaultSecs: nat, id: string)
    requires j < |h|
  {
    && h[j].listing.Some? && id in Listed(h[j].listing.value)
    && (ActiveIn(h[j].listing.value, id) || !Known(h, j, defaultSecs, id))
  }

  /** Listed at tick `k` and inactive, and not stopped by it. */
  ghost predicate LeftIdle(h: seq<Tick>, k: nat, defaultSecs: nat, id: string)
    requires k < |h|
  {
    && h[k].listing.Some? && id in Listed(h[k].listing.value)
    && !ActiveIn(h[k].listing.value, id) && !StoppedAt(h, k, defaultSecs, id)
  }

  /** Marked at `j`, and idle at every successful listing since, up to but not at `t`. */
  ghost predicate IdleSince(h: seq<Tick>, j: nat, t: nat, defaultSecs: nat, id: string)
    requires t <= |h|
  {
    && j < t && Marked(h, j, defaultSecs, id)
    && forall k | j < k < t && h[k].listing.Some? :: LeftIdle(h, k, defaultSecs, id)
  }

  lemma TimersStep(h: seq<Tick>, t: nat, defaultSecs: nat)
    requires t < |h|
    ensures TimersAfter(h[..t + 1], defaultSecs) ==
            match h[t].listing
            case None => TimersAfter(h[..t], defaultSecs)
            case Some(cs) => AfterTick(TimersAfter(h[..t], defaultSecs), cs, h[t].time, defaultSecs)
  {
    hide AfterTick;
    assert h[..t + 1][..t] == h[..t];
  }

  /** The reaper tracks exactly the containers that the last successful listing had and did not stop. */
  lemma {:induction false} TrackedExactly(h: seq<Tick>, t: nat, defaultSecs: nat, id: string)
    requires t <= |h|
    ensures id in TimersAfter(h[..t], defaultSecs) <==> Known(h, t, defaultSecs, id)
    decreases t
  {
    hide TimersAfter, StoppedBy, Listed, ActiveIn;
    assert h[..0] == [];
    NoTicks(defaultSecs);
    if t > 0 {
      TimersStep(h, t - 1, defaultSecs);
      if h[t - 1].listing.Some? {
        assert Known(h, t, defaultSecs, id) <==> Spared(h, t - 1, defaultSecs, id);
      } else {
        TrackedExactly(h, t - 1, defaultSecs, id);
      }
    }
  }

  /** Every timer tells when its container was last active or first seen, with only idle listings since. */
  lemma {:induction false} TimerMeaning(h: seq<Tick>, t: nat, defaultSecs: nat, id: string) returns (j: nat)
    requires t <= |h| && id in TimersAfter(h[..t], defaultSecs)
    ensures IdleSince(h, j, t, defaultSecs, id) && TimersAfter(h[..t], defaultSecs)[id] == h[j].time
    decreases t
  {
    hide TimersAfter, StoppedBy, Listed, Known;
    assert h[..0] == [];
    NoTicks(defaultSecs);
    assert t > 0;
    TimersStep(h, t - 1, defaultSecs);
    TrackedExactly(h, t - 1, defaultSecs, id);
    var before := TimersAfter(h[..t - 1], defaultSecs);
    if h[t - 1].listing.None? {
      j := TimerMeaning(h, t - 1, defaultSecs, id);
    } else if id in before && !ActiveIn(h[t - 1].listing.value, id) {
      j := TimerMeaning(h, t - 1, defaultSecs, id);
      assert LeftIdle(h, t - 1, defaultSecs, id);
    } else {
      j := t - 1;
    }
  }

  lemma NoTicks(defaultSecs: nat)
    ensures TimersAfter([], defaultSecs) == map[]
  {
  }

  lemma {:induction false} IdleHasTimer(h: seq<Tick>, j: nat, t: nat, defaultSecs: nat, id: string)
    requires t <= |h| && IdleSince(h, j, t, defaultSecs, id) && !StoppedAt(h, j, defaultSecs, id)
    ensures id in TimersAfter(h[..t], defaultSecs) && TimersAfter(h[..t], defaultSecs)[id] == h[j].time
    decreases t
  {
    hide TimersAfter, StoppedBy, Listed, Known;
    TimersStep(h, t - 1, defaultSecs);
    TrackedExactly(h, t - 1, defaultSecs, id);
    if j < t - 1 {
      IdleHasTimer(h, j, t - 1, defaultSecs, id);
      if h[t - 1].listing.Some? {
        assert LeftIdle(h, t - 1, defaultSecs, id);
      }
    }
  }

  lemma MarkedIsNotStopped(h: seq<Tick>, j: nat, defaultSecs: nat, id: string)
    requires j < |h| && Marked(h, j, defaultSecs, id) && UniqueIds(h[j].listing.value)
    ensures !StoppedAt(h, j, defaultSecs, id)
  {
    hide TimersAfter, Known;
    TrackedExactly(h, j, defaultSecs, id);
    var cs := h[j].listing.value;
    var k :| 0 <= k < |cs| && cs[k].id == id;
  }

  /**
   Exactly when a container is stopped at a tick: it is listed there and inactive; and since a
   tick at which it was active, or missing or stopped at the listing before, every successful
   listing had it inactive, and that span is longer than its own timeout.
   */
  lemma StoppedExactly(h: seq<Tick>, t: nat, defaultSecs: nat, k: nat)
    requires t < |h| && h[t].listing.Some? && k < |h[t].listing.value|
    requires forall i | 0 <= i < |h| && h[i].listing.Some? :: UniqueIds(h[i].listing.value)
    ensures var c := h[t].listing.value[k];
            StoppedAt(h, t, defaultSecs, c.id) <==>
              !c.active && exists j: nat | IdleSince(h, j, t, defaultSecs, c.id) ::
                             h[t].time - h[j].time > (if c.timeoutMins.Some? then 60 * c.timeoutMins.value
                                                      else defaultSecs)
  {
    hide TimersAfter;
    var cs := h[t].listing.value;
    var c, timers := cs[k], TimersAfter(h[..t], defaultSecs);
    if StoppedAt(h, t, defaultSecs, c.id) {
      var j := TimerMeaning(h, t, defaultSecs, c.id);
      assert h[t].time - h[j].time > Timeout(c, defaultSecs);
    }
    forall j: nat |
      IdleSince(h, j, t, defaultSecs, c.id) && !c.active && h[t].time - h[j].time > Timeout(c, defaultSecs)
      ensures StoppedAt(h, t, defaultSecs, c.id)
    {
      MarkedIsNotStopped(h, j, defaultSecs, c.id);
      IdleHasTimer(h, j, t, defaultSecs, c.id);
    }
  }
}
