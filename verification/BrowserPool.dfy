/**
 Browser sessions and the two number pools they draw on: X displays and DevTools (CDP) ports.
 Spawns run concurrently and can fail at every stage; each pool operation is one locked step.
 */
module BrowserPool {
  import opened Prelude

  // ---------------------------------------------------------------- one pool

  /** The least number of the range that is not in use. */
  function LeastFree(inUse: set<int>, lo: int, hi: int): (r: Option<int>)
    ensures r.Some? ==> lo <= r.value <= hi && r.value !in inUse && forall n | lo <= n < r.value :: n in inUse
    ensures r.None? ==> forall n | lo <= n <= hi :: n in inUse
    decreases hi - lo
  {
    if lo > hi then None else if lo !in inUse then Some(lo) else LeastFree(inUse, lo + 1, hi)
  }

  class RangeAllocator {
    var inUse: set<int>
    const rangeStart: int
    const rangeEnd: int

    constructor (rangeStart: int, rangeEnd: int)
      ensures inUse == {} && this.rangeStart == rangeStart && this.rangeEnd == rangeEnd
    {
      inUse := {};
      this.rangeStart := rangeStart;
      this.rangeEnd := rangeEnd;
    }

    /** The least free number, or nothing exactly when every number of the range is taken. */
    method Allocate() returns (r: Option<int>)
      modifies this
      ensures r == LeastFree(old(inUse), rangeStart, rangeEnd)
      ensures inUse == old(inUse) + if r.Some? then {r.value} else {}
    {
      var n := rangeStart;
      while n <= rangeEnd
        invariant inUse == old(inUse)
        invariant LeastFree(inUse, rangeStart, rangeEnd) == LeastFree(inUse, n, rangeEnd)
        decreases rangeEnd - n
      {
        if n !in inUse {
          inUse := inUse + {n};
          return Some(n);
        }
        n := n + 1;
      }
      return None;
    }

    method Release(n: int)
      modifies this
      ensures inUse == old(inUse) - {n}
    {
      inUse := inUse - {n};
    }
  }

  // ---------------------------------------------------------------- the VNC port

  /** `5900 + display as u16`: the cast truncates, and the sum overflows above 65535. */
  function VncPort(display: nat): Option<nat> {
    var port := 5900 + display % 0x1_0000;
    if port < 0x1_0000 then Some(port) else None
  }

  /** Every display of the range has a port, and no two have the same one. */
  ghost predicate PortsDistinct(lo: nat, hi: nat) {
    && (forall a: nat | lo <= a <= hi :: VncPort(a).Some?)
    && (forall a: nat, b: nat | lo <= a < b <= hi :: VncPort(a) != VncPort(b))
  }

  /** Whether a range fits: it is short enough to stay below the overflow after truncation. */
  predicate RangeFits(lo: nat, hi: nat) {
    hi < lo || lo % 0x1_0000 + (hi - lo) <= 59635
  }

  /** A range of displays has distinct ports, none of them an overflow, exactly when it fits. */
  lemma PortsExact(lo: nat, hi: nat)
    ensures PortsDistinct(lo, hi) <==> RangeFits(lo, hi)
  {
    if RangeFits(lo, hi) {
      assert forall a: nat | lo <= a <= hi :: VncPort(a) == Some(5900 + lo % 0x1_0000 + (a - lo));
    } else {
      var over := if lo % 0x1_0000 > 59635 then 0 else 59636 - lo % 0x1_0000;
      assert VncPort(lo + over).None?;
    }
  }

  /** The sum in a build without overflow checks, which is the default for releases: it wraps. */
  function WrappedPort(display: nat): nat {
    (5900 + display % 0x1_0000) % 0x1_0000
  }

  lemma WrappedSame(a: nat, b: nat)
    requires a <= b
    ensures WrappedPort(a) == WrappedPort(b) <==> (b - a) % 0x1_0000 == 0
  {
  }

  /** With wrapping, a range of displays has distinct ports exactly when it has at most 65536 displays. */
  lemma WrappedPortsExact(lo: nat, hi: nat)
    ensures (forall a: nat, b: nat | lo <= a < b <= hi :: WrappedPort(a) != WrappedPort(b)) <==> hi - lo < 0x1_0000
  {
    if hi - lo < 0x1_0000 {
      forall a: nat, b: nat | lo <= a < b <= hi ensures WrappedPort(a) != WrappedPort(b) {
        WrappedSame(a, b);
      }
    } else {
      WrappedSame(lo, lo + 0x1_0000);
      assert WrappedPort(lo) == WrappedPort(lo + 0x1_0000);
    }
  }

  // ---------------------------------------------------------------- sessions

  /**
   What a spawn or a session holds. `Closing` is a failed spawn or a killed session that has some
   of its numbers left to give back; `Gone` has given back all, and remembers its display. Only a
   spawn that succeeded leaves a session behind that can be killed again.
   */
  datatype Holder =
    | Started(needCdp: bool)
    | HasDisplay(display: int)
    | Starting(display: int, cdp: Option<int>)
    | Live(display: int, cdp: Option<int>)
    | Closing(display: int, displayHeld: bool, cdp: Option<int>, killed: bool)
    | Gone(display: int, killed: bool)
    | Refused

  datatype Config = Config(displayLo: int, displayHi: int, cdpLo: int, cdpHi: int) {
    /** Displays are configured as unsigned numbers and CDP ports as 16-bit ones. */
    predicate Ok() {
      0 <= displayLo && 0 <= cdpLo && cdpHi < 0x1_0000
    }
  }

  datatype State = State(config: Config, displays: set<int>, cdps: set<int>, holders: map<nat, Holder>)

  function DisplayOf(h: Holder): Option<int> {
    match h
    case HasDisplay(d) => Some(d)
    case Starting(d, _) => Some(d)
    case Live(d, _) => Some(d)
    case Closing(d, held, _, _) => if held then Some(d) else None
    case _ => None
  }

  function CdpOf(h: Holder): Option<int> {
    match h
    case Starting(_, cdp) => cdp
    case Live(_, cdp) => cdp
    case Closing(_, _, cdp, _) => cdp
    case _ => None
  }

  datatype Action =
    | Begin(id: nat, needCdp: bool)
    | AllocateDisplay(id: nat)
    | AllocateCdp(id: nat)
    | Fail(id: nat)
    | Succeed(id: nat)
    | Kill(id: nat)
    | ReleaseDisplay(id: nat)
    | ReleaseCdp(id: nat)
    /** A kill has the session to itself, so the second one begins after the first. */
    | KillAgain(id: nat)

  predicate Enabled(s: State, a: Action) {
    match a
    case Begin(id, _) => id !in s.holders
    case AllocateDisplay(id) => id in s.holders && s.holders[id].Started?
    case AllocateCdp(id) => id in s.holders && s.holders[id].HasDisplay?
    case Fail(id) => id in s.holders && s.holders[id].Starting?
    case Succeed(id) => id in s.holders && s.holders[id].Starting?
    case Kill(id) => id in s.holders && s.holders[id].Live?
    case ReleaseDisplay(id) => id in s.holders && s.holders[id].Closing? && s.holders[id].displayHeld
    case ReleaseCdp(id) => id in s.holders && s.holders[id].Closing? && !s.holders[id].displayHeld
    case KillAgain(id) => id in s.holders && s.holders[id].Gone? && s.holders[id].killed
  }

  function Set(s: State, id: nat, h: Holder): State {
    s.(holders := s.holders[id := h])
  }

  function Next(s: State, a: Action): State
    requires Enabled(s, a)
  {
    var c := s.config;
    match a
    case Begin(id, needCdp) => Set(s, id, Started(needCdp))
    case AllocateDisplay(id) =>
      (match LeastFree(s.displays, c.displayLo, c.displayHi)
       case None => Set(s, id, Refused)
       case Some(d) =>
         Set(s, id, if s.holders[id].needCdp then HasDisplay(d) else Starting(d, None)).(displays := s.displays + {d}))
    case AllocateCdp(id) =>
      var d := s.holders[id].display;
      (match LeastFree(s.cdps, c.cdpLo, c.cdpHi)
       case None => Set(s, id, Closing(d, true, None, false))
       case Some(p) => Set(s, id, Starting(d, Some(p % 0x1_0000))).(cdps := s.cdps + {p}))
    case Fail(id) => Set(s, id, Closing(s.holders[id].display, true, s.holders[id].cdp, false))
    case Succeed(id) => Set(s, id, Live(s.holders[id].display, s.holders[id].cdp))
    case Kill(id) => Set(s, id, Closing(s.holders[id].display, true, s.holders[id].cdp, true))
    case ReleaseDisplay(id) =>
      var h := s.holders[id];
      Set(s, id, h.(displayHeld := false)).(displays := s.displays - {h.display})
    case ReleaseCdp(id) =>
      var h := s.holders[id];
      Set(s, id, Gone(h.display, h.killed)).(cdps := if h.cdp.Some? then s.cdps - {h.cdp.value} else s.cdps)
    case KillAgain(id) => s.(displays := s.displays - {s.holders[id].display})
  }

  function Step(s: State, a: Action): Option<State> {
    if Enabled(s, a) then Some(Next(s, a)) else None
  }

  /** The state after a run, when each of its actions was enabled. */
  function Run(s: State, actions: seq<Action>): Option<State> {
    Runs(Step, s, actions)
  }

  // ---------------------------------------------------------------- the invariant

  /** A pool's numbers are exactly those held, each by one holder. */
  ghost predicate Accounts(pool: set<int>, held: map<nat, Option<int>>) {
    && (forall id | id in held && held[id].Some? :: held[id].value in pool)
    && (forall n | n in pool :: exists id | id in held :: held[id] == Some(n))
    && (forall i, j | i in held && j in held && i != j && held[i].Some? :: held[i] != held[j])
  }

  ghost function Displays(s: State): map<nat, Option<int>> {
    map id | id in s.holders :: DisplayOf(s.holders[id])
  }

  ghost function Cdps(s: State): map<nat, Option<int>> {
    map id | id in s.holders :: CdpOf(s.holders[id])
  }

  ghost predicate Inv(s: State) {
    && s.config.Ok() && Accounts(s.displays, Displays(s)) && Accounts(s.cdps, Cdps(s))
    && forall n | n in s.displays :: s.config.displayLo <= n <= s.config.displayHi
  }

  lemma AccountsSame(pool: set<int>, held: map<nat, Option<int>>, id: nat, x: Option<int>)
    requires Accounts(pool, held) && (if id in held then held[id] == x else x == None)
    ensures Accounts(pool, held[id := x])
  {
    var u := held[id := x];
    forall n | n in pool ensures exists k | k in u :: u[k] == Some(n) {
      var k :| k in held && held[k] == Some(n);
      assert k in u && u[k] == Some(n);
    }
  }

  lemma AccountsTake(pool: set<int>, held: map<nat, Option<int>>, id: nat, n: int)
    requires Accounts(pool, held) && n !in pool && (id in held ==> held[id] == None)
    ensures Accounts(pool + {n}, held[id := Some(n)])
  {
    var u := held[id := Some(n)];
    forall m | m in pool + {n} ensures exists k | k in u :: u[k] == Some(m) {
      if m == n {
        assert u[id] == Some(m);
      } else {
        var k :| k in held && held[k] == Some(m);
        assert k in u && u[k] == Some(m);
      }
    }
  }

  lemma AccountsGive(pool: set<int>, held: map<nat, Option<int>>, id: nat)
    requires Accounts(pool, held) && id in held && held[id].Some?
    ensures Accounts(pool - {held[id].value}, held[id := None])
  {
    var u := held[id := None];
    forall m | m in pool - {held[id].value} ensures exists k | k in u :: u[k] == Some(m) {
      var k :| k in held && held[k] == Some(m);
      assert k in u && u[k] == Some(m);
    }
  }

  lemma HeldAfter(s: State, id: nat, h: Holder)
    ensures Displays(Set(s, id, h)) == Displays(s)[id := DisplayOf(h)]
    ensures Cdps(Set(s, id, h)) == Cdps(s)[id := CdpOf(h)]
  {
  }

  lemma StepKeepsInv(s: State, a: Action)
    requires Inv(s) && Enabled(s, a) && !a.KillAgain?
    ensures Inv(Next(s, a))
  {
    hide Accounts, Displays, Cdps;
    var t := Next(s, a);
    var id := a.id;
    HeldIs(s, id);
    var h := t.holders[id];
    HeldAfter(s, id, h);
    HeldDepends(t, Set(s, id, h));
    match a {
      case AllocateDisplay(_) =>
        AccountsSame(s.cdps, Cdps(s), id, None);
        if DisplayOf(h).Some? {
          AccountsTake(s.displays, Displays(s), id, DisplayOf(h).value);
        } else {
          AccountsSame(s.displays, Displays(s), id, None);
        }
      case AllocateCdp(_) =>
        AccountsSame(s.displays, Displays(s), id, DisplayOf(h));
        if CdpOf(h).Some? {
          AccountsTake(s.cdps, Cdps(s), id, CdpOf(h).value);
        } else {
          AccountsSame(s.cdps, Cdps(s), id, None);
        }
      case ReleaseDisplay(_) =>
        AccountsGive(s.displays, Displays(s), id);
        AccountsSame(s.cdps, Cdps(s), id, CdpOf(h));
      case ReleaseCdp(_) =>
        AccountsSame(s.displays, Displays(s), id, None);
        if s.holders[id].cdp.Some? {
          AccountsGive(s.cdps, Cdps(s), id);
        } else {
          AccountsSame(s.cdps, Cdps(s), id, None);
        }
      case _ =>
        AccountsSame(s.displays, Displays(s), id, DisplayOf(h));
        AccountsSame(s.cdps, Cdps(s), id, CdpOf(h));
    }
  }

  lemma HeldIs(s: State, id: nat)
    ensures id in Displays(s) <==> id in s.holders
    ensures id in Cdps(s) <==> id in s.holders
    ensures id in s.holders ==> Displays(s)[id] == DisplayOf(s.holders[id]) && Cdps(s)[id] == CdpOf(s.holders[id])
  {
  }

  lemma HeldDepends(s: State, t: State)
    requires s.holders == t.holders
    ensures Displays(s) == Displays(t) && Cdps(s) == Cdps(t)
  {
  }

  function Idle(config: Config): State {
    State(config, {}, {}, map[])
  }

  ghost predicate KilledOnce(actions: seq<Action>) {
    forall k | 0 <= k < |actions| :: !actions[k].KillAgain?
  }

  lemma {:induction false} RunKeepsInv(s: State, actions: seq<Action>)
    requires Inv(s) && KilledOnce(actions) && Run(s, actions).Some?
    ensures Inv(Run(s, actions).value)
    decreases |actions|
  {
    hide Inv, Next, Enabled;
    if actions != [] {
      assert !actions[0].KillAgain?;
      StepKeepsInv(s, actions[0]);
      RunKeepsInv(Next(s, actions[0]), actions[1..]);
    }
  }

  predicate LiveDisplay(s: State, n: int) {
    exists id | id in s.holders :: s.holders[id].Live? && s.holders[id].display == n
  }

  predicate LiveCdp(s: State, n: int) {
    exists id | id in s.holders :: s.holders[id].Live? && s.holders[id].cdp == Some(n)
  }

  predicate Quiet(s: State) {
    forall id | id in s.holders :: s.holders[id].Live? || s.holders[id].Gone? || s.holders[id].Refused?
  }

  /**
   Over any run of spawns that fail at any stage and of kills, one per session: the numbers in
   use are those held, no two holders share one; and when no spawn or kill is under way, they
   are exactly those of the live sessions.
   */
  lemma PoolsMatchSessions(config: Config, actions: seq<Action>)
    requires config.Ok() && KilledOnce(actions) && Run(Idle(config), actions).Some?
    ensures var s := Run(Idle(config), actions).value;
            && Accounts(s.displays, Displays(s)) && Accounts(s.cdps, Cdps(s))
            && (forall i, j | i in s.holders && j in s.holders && i != j && s.holders[i].Live? && s.holders[j].Live? ::
                  && s.holders[i].display != s.holders[j].display
                  && (s.holders[i].cdp.Some? ==> s.holders[i].cdp != s.holders[j].cdp))
            && (Quiet(s) ==>
                  && (forall n :: n in s.displays <==> LiveDisplay(s, n))
                  && (forall n :: n in s.cdps <==> LiveCdp(s, n)))
  {
    hide Runs;
    RunKeepsInv(Idle(config), actions);
    var s := Run(Idle(config), actions).value;
    LiveAreDistinct(s);
    if Quiet(s) {
      QuietPools(s);
    }
  }

  lemma LiveAreDistinct(s: State)
    requires Inv(s)
    ensures forall i, j | i in s.holders && j in s.holders && i != j && s.holders[i].Live? && s.holders[j].Live? ::
              && s.holders[i].display != s.holders[j].display
              && (s.holders[i].cdp.Some? ==> s.holders[i].cdp != s.holders[j].cdp)
  {
    forall i, j | i in s.holders && j in s.holders && i != j && s.holders[i].Live? && s.holders[j].Live?
      ensures s.holders[i].display != s.holders[j].display
      ensures s.holders[i].cdp.Some? ==> s.holders[i].cdp != s.holders[j].cdp
    {
      assert Displays(s)[i] != Displays(s)[j];
      assert Cdps(s)[i].Some? ==> Cdps(s)[i] != Cdps(s)[j];
    }
  }

  lemma QuietPools(s: State)
    requires Inv(s) && Quiet(s)
    ensures forall n :: n in s.displays <==> LiveDisplay(s, n)
    ensures forall n :: n in s.cdps <==> LiveCdp(s, n)
  {
    hide Accounts, Displays, Cdps;
    forall n
      ensures n in s.displays <==> LiveDisplay(s, n)
      ensures n in s.cdps <==> LiveCdp(s, n)
    {
      QuietDisplay(s, n);
      QuietCdp(s, n);
    }
  }

  lemma QuietDisplay(s: State, n: int)
    requires Inv(s) && Quiet(s)
    ensures n in s.displays <==> LiveDisplay(s, n)
  {
    if n in s.displays {
      var id :| id in Displays(s) && Displays(s)[id] == Some(n);
      assert s.holders[id].Live?;
    }
    forall id | id in s.holders && s.holders[id].Live? && s.holders[id].display == n ensures n in s.displays {
      assert Displays(s)[id] == Some(n);
    }
  }

  lemma QuietCdp(s: State, n: int)
    requires Inv(s) && Quiet(s)
    ensures n in s.cdps <==> LiveCdp(s, n)
  {
    if n in s.cdps {
      var id :| id in Cdps(s) && Cdps(s)[id] == Some(n);
      assert s.holders[id].Live?;
    }
    forall id | id in s.holders && s.holders[id].Live? && s.holders[id].cdp == Some(n) ensures n in s.cdps {
      assert Cdps(s)[id] == Some(n);
    }
  }

  /** Two live sessions listen on different VNC ports when the display range fits. */
  lemma LivePortsDistinct(config: Config, actions: seq<Action>, i: nat, j: nat)
    requires config.Ok() && (config.displayHi >= 0 ==> RangeFits(config.displayLo, config.displayHi))
    requires KilledOnce(actions) && Run(Idle(config), actions).Some?
    requires var s := Run(Idle(config), actions).value;
             i in s.holders && j in s.holders && i != j && s.holders[i].Live? && s.holders[j].Live?
    ensures var s := Run(Idle(config), actions).value;
            var a, b := s.holders[i].display, s.holders[j].display;
            a >= 0 && b >= 0 && VncPort(a).Some? && VncPort(b).Some? && VncPort(a) != VncPort(b)
  {
    hide Runs;
    RunKeepsInv(Idle(config), actions);
    ConfigStays(Idle(config), actions);
    var s := Run(Idle(config), actions).value;
    LiveAreDistinct(s);
    assert Displays(s)[i] == Some(s.holders[i].display) && Displays(s)[j] == Some(s.holders[j].display);
    PortsExact(config.displayLo, config.displayHi);
  }

  /** The same in a build that wraps, when the range has at most 65536 displays. */
  lemma LiveWrappedPortsDistinct(config: Config, actions: seq<Action>, i: nat, j: nat)
    requires config.Ok() && config.displayHi - config.displayLo < 0x1_0000
    requires KilledOnce(actions) && Run(Idle(config), actions).Some?
    requires var s := Run(Idle(config), actions).value;
             i in s.holders && j in s.holders && i != j && s.holders[i].Live? && s.holders[j].Live?
    ensures var s := Run(Idle(config), actions).value;
            var a, b := s.holders[i].display, s.holders[j].display;
            a >= 0 && b >= 0 && WrappedPort(a) != WrappedPort(b)
  {
    hide Runs;
    RunKeepsInv(Idle(config), actions);
    ConfigStays(Idle(config), actions);
    var s := Run(Idle(config), actions).value;
    LiveAreDistinct(s);
    assert Displays(s)[i] == Some(s.holders[i].display) && Displays(s)[j] == Some(s.holders[j].display);
    WrappedPortsExact(config.displayLo, config.displayHi);
  }

  lemma {:induction false} ConfigStays(s: State, actions: seq<Action>)
    requires Run(s, actions).Some?
    ensures Run(s, actions).value.config == s.config
    decreases |actions|
  {
    hide Enabled;
    if actions != [] {
      ConfigStays(Next(s, actions[0]), actions[1..]);
    }
  }

  // ---------------------------------------------------------------- killing twice

  /**
   Killing a session a second time gives its display back once more. That is harmless exactly
   when nobody holds the display meanwhile; otherwise the pool forgets a display in use.
   */
  lemma KillAgainExact(s: State, id: nat)
    requires Inv(s) && Enabled(s, KillAgain(id))
    ensures Inv(Next(s, KillAgain(id))) <==> s.holders[id].display !in s.displays
  {
    var d, t := s.holders[id].display, Next(s, KillAgain(id));
    if d in s.displays {
      var k :| k in Displays(s) && Displays(s)[k] == Some(d);
      assert Displays(t)[k] == Some(d) && d !in t.displays;
    } else {
      assert t.displays == s.displays;
      HeldDepends(s, t);
    }
  }

  lemma RunThree(s: State, a: Action, b: Action, c: Action)
    requires Enabled(s, a) && Enabled(Next(s, a), b) && Enabled(Next(Next(s, a), b), c)
    ensures Run(s, [a] + ([b] + [c])) == Some(Next(Next(Next(s, a), b), c))
  {
    hide Enabled, Next, Runs;
    RunsOne(Step, s, a);
    RunsOne(Step, Next(s, a), b);
    RunsOne(Step, Next(Next(s, a), b), c);
    RunsAppend(Step, Next(s, a), [b], [c]);
    RunsAppend(Step, s, [a], [b] + [c]);
  }

  function SpawnSteps(id: nat): seq<Action> {
    [Begin(id, false)] + ([AllocateDisplay(id)] + [Succeed(id)])
  }

  function KillSteps(id: nat): seq<Action> {
    [Kill(id)] + ([ReleaseDisplay(id)] + [ReleaseCdp(id)])
  }

  lemma SpawnAlone(s: State, id: nat, d: int)
    requires id !in s.holders && LeastFree(s.displays, s.config.displayLo, s.config.displayHi) == Some(d)
    ensures Run(s, SpawnSteps(id)) == Some(Set(s, id, Live(d, None)).(displays := s.displays + {d}))
  {
    hide Runs, LeastFree;
    RunThree(s, Begin(id, false), AllocateDisplay(id), Succeed(id));
    var t := Next(Next(Next(s, Begin(id, false)), AllocateDisplay(id)), Succeed(id));
    assert t.holders == s.holders[id := Live(d, None)];
  }

  lemma KillAlone(s: State, id: nat)
    requires id in s.holders && s.holders[id].Live? && s.holders[id].cdp.None?
    ensures var d := s.holders[id].display;
            Run(s, KillSteps(id)) == Some(Set(s, id, Gone(d, true)).(displays := s.displays - {d}))
  {
    hide Runs;
    RunThree(s, Kill(id), ReleaseDisplay(id), ReleaseCdp(id));
    var t := Next(Next(Next(s, Kill(id)), ReleaseDisplay(id)), ReleaseCdp(id));
    assert t.holders == s.holders[id := Gone(s.holders[id].display, true)];
  }

  /**
   A run in which the second kill does harm: the display of a killed session goes to the next
   session; killing the first one again frees it; and a third session gets it too.
   */
  lemma KillAgainShares(config: Config)
    requires config.Ok() && config.displayLo <= config.displayHi
    ensures var actions := SpawnSteps(0) + (KillSteps(0) + (SpawnSteps(1) + ([KillAgain(0)] + SpawnSteps(2))));
            var r := Run(Idle(config), actions);
            && r.Some? && 1 in r.value.holders && 2 in r.value.holders
            && r.value.holders[1] == Live(config.displayLo, None) && r.value.holders[2] == Live(config.displayLo, None)
  {
    hide Runs, SpawnSteps, KillSteps;
    var d, s0 := config.displayLo, Idle(config);
    SpawnAlone(s0, 0, d);
    var s1 := Set(s0, 0, Live(d, None)).(displays := s0.displays + {d});
    KillAlone(s1, 0);
    var s2 := Set(s1, 0, Gone(d, true)).(displays := s1.displays - {d});
    SpawnAlone(s2, 1, d);
    var s3 := Set(s2, 1, Live(d, None)).(displays := s2.displays + {d});
    RunsOne(Step, s3, KillAgain(0));
    var s4 := Next(s3, KillAgain(0));
    SpawnAlone(s4, 2, d);
    RunsAppend(Step, s3, [KillAgain(0)], SpawnSteps(2));
    RunsAppend(Step, s2, SpawnSteps(1), [KillAgain(0)] + SpawnSteps(2));
    RunsAppend(Step, s1, KillSteps(0), SpawnSteps(1) + ([KillAgain(0)] + SpawnSteps(2)));
    RunsAppend(Step, s0, SpawnSteps(0), KillSteps(0) + (SpawnSteps(1) + ([KillAgain(0)] + SpawnSteps(2))));
  }
}
