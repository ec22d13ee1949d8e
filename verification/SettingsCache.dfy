/**
 The per-process cache of two flags of the shared `system_settings` table. Every committed write
 of the table bumps its epoch, so version `e` of the history is what the table held at epoch `e`.
 A cached entry carries the epoch it stands for, and a read checks that epoch first.
 */
module SettingsCache {
  import opened Prelude

  datatype Flag = ApiKeys | Compliance

  datatype Flags = Flags(apiKeys: bool, compliance: bool) {
    function Get(f: Flag): bool {
      if f.ApiKeys? then apiKeys else compliance
    }

    function Set(f: Flag, v: bool): Flags {
      if f.ApiKeys? then this.(apiKeys := v) else this.(compliance := v)
    }

    /** The flags after one settings write, which names some of them. */
    function Apply(writes: map<Flag, bool>): Flags {
      var a := if ApiKeys in writes then Set(ApiKeys, writes[ApiKeys]) else this;
      if Compliance in writes then a.Set(Compliance, writes[Compliance]) else a
    }
  }

  /** What a failing flag read yields. */
  const DEFAULTS := Flags(true, false)

  datatype Entry = Entry(epoch: int, flags: Flags)

  /** The monotonic install at the end of a reload. */
  function InstallNewer(current: Entry, loaded: Entry): Entry {
    if loaded.epoch > current.epoch then loaded else current
  }

  function FlagOfKey(key: string): Option<Flag> {
    if key == "enable_api_keys" then Some(ApiKeys)
    else if key == "compliance_mode" then Some(Compliance)
    else None
  }

  function WriteKey(entry: Entry, key: string, value: string): Entry {
    match FlagOfKey(key)
    case None => entry
    case Some(f) => entry.(flags := entry.flags.Set(f, value == "true"))
  }

  /** The process-wide cell. It is set once; every later change happens in place. */
  class Cache {
    var cell: Option<Entry>

    constructor ()
      ensures cell == None
    {
      cell := None;
    }

    method Seed(epoch: int, flags: Flags)
      modifies this
      ensures cell == if old(cell).None? then Some(Entry(epoch, flags)) else old(cell)
    {
      if cell.None? {
        cell := Some(Entry(epoch, flags));
      }
    }

    /** Each of the two keys changes its own flag; any other key changes nothing. */
    method Update(key: string, value: string)
      modifies this
      ensures cell == if old(cell).None? then None else Some(WriteKey(old(cell).value, key, value))
      ensures old(cell).None? ==> cell.None?
      ensures old(cell).Some? ==>
                var was := old(cell).value;
                && cell.Some? && cell.value.epoch == was.epoch
                && cell.value.flags.apiKeys == (if key == "enable_api_keys" then value == "true" else was.flags.apiKeys)
                && cell.value.flags.compliance ==
                   (if key == "compliance_mode" then value == "true" else was.flags.compliance)
    {
      if cell.None? {
        return;
      }
      match key {
        case "enable_api_keys" =>
          cell := Some(cell.value.(flags := cell.value.flags.(apiKeys := value == "true")));
        case "compliance_mode" =>
          cell := Some(cell.value.(flags := cell.value.flags.(compliance := value == "true")));
        case _ =>
      }
    }

    method SetEpoch(epoch: int)
      modifies this
      ensures cell == if old(cell).None? then None else Some(old(cell).value.(epoch := epoch))
    {
      if cell.Some? {
        cell := Some(cell.value.(epoch := epoch));
      }
    }

    /** The last step of a reload: install if newer, then read the flag from the cell. */
    method Install(loaded: Entry, f: Flag) returns (value: bool)
      requires cell.Some?
      modifies this
      ensures cell == Some(InstallNewer(old(cell).value, loaded))
      ensures value == InstallNewer(old(cell).value, loaded).flags.Get(f)
    {
      if loaded.epoch > cell.value.epoch {
        cell := Some(loaded);
      }
      value := cell.value.flags.Get(f);
    }
  }

  // ---------------------------------------------------------------- the transition system

  type History = h: seq<Flags> | h != [] witness [DEFAULTS]

  /** The epoch a point read of the table returns now. */
  function Now(h: History): nat {
    |h| - 1
  }

  /** `f` had value `v` at some epoch from `lo` to `hi`. */
  ghost predicate HeldBetween(h: History, f: Flag, lo: int, hi: int, v: bool) {
    exists e: nat :: lo <= e <= hi && e < |h| && h[e].Get(f) == v
  }

  ghost predicate HeldSince(h: History, f: Flag, lo: int, v: bool) {
    HeldBetween(h, f, lo, Now(h), v)
  }

  /** Every flag of the entry is at least as new as the entry's epoch. */
  ghost predicate Fresh(h: History, entry: Entry) {
    forall f :: HeldSince(h, f, entry.epoch, entry.flags.Get(f))
  }

  /** An instance reads both flags and then the epoch when it starts. */
  datatype Instance =
    | Down
    | SeedingApi(api: bool, began: nat)
    | SeedingFlags(flags: Flags, began: nat)
    | Up(entry: Entry)

  /** How far a flag read has come; each step takes the cache lock or reads the table once. */
  datatype Phase =
    | Started
    | HaveEntryEpoch(entryEpoch: int)
    | HaveEpochs(entryEpoch: int, dbEpoch: int)
    | Reloading
    | ReloadedEpoch(epoch: int)
    | ReloadedApi(epoch: int, api: bool)
    | ReloadedAll(loaded: Entry)
    | Done(value: bool, end: nat)

  /** `start` is the epoch when the call began; `sound` says that its table reads succeeded. */
  datatype Call = Call(instance: nat, flag: Flag, start: nat, sound: bool, phase: Phase)

  datatype State = State(history: History, instances: map<nat, Instance>, calls: map<nat, Call>)

  datatype Action =
    | Commit(writes: map<Flag, bool>)
    | SeedApi(i: nat, ok: bool)
    | SeedCompliance(i: nat, ok: bool)
    | SeedEpoch(i: nat, ok: bool)
    | Begin(c: nat, i: nat, f: Flag)
    | ReadEntry(c: nat)
    | ReadEpoch(c: nat, ok: bool)
    | Compare(c: nat)
    | ReloadEpoch(c: nat, ok: bool)
    | ReloadApi(c: nat, ok: bool)
    | ReloadCompliance(c: nat, ok: bool)
    | FinishReload(c: nat)
    | OpenRefresh(i: nat, epoch: nat, copies: seq<(Flag, bool)>)
    | RefreshFlag(i: nat, f: Flag, v: bool)
    | RefreshEpoch(i: nat, epoch: nat)

  function InstanceOf(s: State, i: nat): Instance {
    if i in s.instances then s.instances[i] else Down
  }

  predicate AtPhase(s: State, c: nat) {
    c in s.calls && InstanceOf(s, s.calls[c].instance).Up?
  }

  /** The commit that produced `epoch` made these writes. */
  predicate IsCommit(h: History, epoch: nat, writes: map<Flag, bool>) {
    0 < epoch < |h| && h[epoch] == h[epoch - 1].Apply(writes)
  }

  /** The writes of a request as a map, a later one of the same flag winning. */
  function AsMap(writes: seq<(Flag, bool)>): map<Flag, bool> {
    if writes == [] then map[] else
      var n := |writes| - 1;
      AsMap(writes[..n])[writes[n].0 := writes[n].1]
  }

  predicate Enabled(s: State, a: Action) {
    match a
    case Commit(_) => true
    case SeedApi(i, _) => InstanceOf(s, i).Down?
    case SeedCompliance(i, _) => InstanceOf(s, i).SeedingApi?
    case SeedEpoch(i, _) => InstanceOf(s, i).SeedingFlags?
    case Begin(c, i, _) => c !in s.calls && InstanceOf(s, i).Up?
    case ReadEntry(c) => AtPhase(s, c) && s.calls[c].phase.Started?
    case ReadEpoch(c, _) => AtPhase(s, c) && s.calls[c].phase.HaveEntryEpoch?
    case Compare(c) => AtPhase(s, c) && s.calls[c].phase.HaveEpochs?
    case ReloadEpoch(c, _) => AtPhase(s, c) && s.calls[c].phase.Reloading?
    case ReloadApi(c, _) => AtPhase(s, c) && s.calls[c].phase.ReloadedEpoch?
    case ReloadCompliance(c, _) => AtPhase(s, c) && s.calls[c].phase.ReloadedApi?
    case FinishReload(c) => AtPhase(s, c) && s.calls[c].phase.ReloadedAll?
    case OpenRefresh(i, epoch, writes) => InstanceOf(s, i).Up? && IsCommit(s.history, epoch, AsMap(writes))
    case RefreshFlag(i, _, _) => InstanceOf(s, i).Up?
    case RefreshEpoch(i, epoch) => InstanceOf(s, i).Up? && epoch < |s.history|
  }

  function WithInstance(s: State, i: nat, x: Instance): State {
    s.(instances := s.instances[i := x])
  }

  function EntryOf(s: State, c: nat): Entry
    requires AtPhase(s, c)
  {
    s.instances[s.calls[c].instance].entry
  }

  function Move(s: State, c: nat, phase: Phase): State
    requires c in s.calls
  {
    s.(calls := s.calls[c := s.calls[c].(phase := phase)])
  }

  function MoveFailed(s: State, c: nat, phase: Phase): State
    requires c in s.calls
  {
    s.(calls := s.calls[c := s.calls[c].(phase := phase, sound := false)])
  }

  /** The entry's flag, returned to the caller now. */
  function Serve(s: State, c: nat): Phase
    requires AtPhase(s, c)
  {
    Done(EntryOf(s, c).flags.Get(s.calls[c].flag), Now(s.history))
  }

  /** What the refresh of a local request leaves when nothing comes between its steps. */
  function Refreshed(entry: Entry, epoch: nat, writes: map<Flag, bool>): Entry {
    Entry(epoch, entry.flags.Apply(writes))
  }

  function Next(s: State, a: Action): State
    requires Enabled(s, a)
  {
    var h, now := s.history, Now(s.history);
    match a
    case Commit(writes) => s.(history := h + [h[now].Apply(writes)])
    case SeedApi(i, ok) => WithInstance(s, i, SeedingApi((if ok then h[now] else DEFAULTS).apiKeys, now))
    case SeedCompliance(i, ok) =>
      var x := s.instances[i];
      WithInstance(s, i, SeedingFlags(Flags(x.api, (if ok then h[now] else DEFAULTS).compliance), x.began))
    case SeedEpoch(i, ok) => WithInstance(s, i, Up(Entry(if ok then now else 0, s.instances[i].flags)))
    case Begin(c, i, f) => s.(calls := s.calls[c := Call(i, f, now, true, Started)])
    case ReadEntry(c) => Move(s, c, HaveEntryEpoch(EntryOf(s, c).epoch))
    case ReadEpoch(c, ok) =>
      if ok then Move(s, c, HaveEpochs(s.calls[c].phase.entryEpoch, now))
      else MoveFailed(s, c, Serve(s, c))
    case Compare(c) =>
      var p := s.calls[c].phase;
      if p.dbEpoch == p.entryEpoch && EntryOf(s, c).epoch == p.dbEpoch
      then Move(s, c, Serve(s, c)) else Move(s, c, Reloading)
    case ReloadEpoch(c, ok) =>
      if ok then Move(s, c, ReloadedEpoch(now)) else MoveFailed(s, c, ReloadedEpoch(0))
    case ReloadApi(c, ok) =>
      var e := s.calls[c].phase.epoch;
      if ok then Move(s, c, ReloadedApi(e, h[now].apiKeys))
      else MoveFailed(s, c, ReloadedApi(e, DEFAULTS.apiKeys))
    case ReloadCompliance(c, ok) =>
      var p := s.calls[c].phase;
      if ok then Move(s, c, ReloadedAll(Entry(p.epoch, Flags(p.api, h[now].compliance))))
      else MoveFailed(s, c, ReloadedAll(Entry(p.epoch, Flags(p.api, DEFAULTS.compliance))))
    case FinishReload(c) =>
      var entry := InstallNewer(EntryOf(s, c), s.calls[c].phase.loaded);
      var t := WithInstance(s, s.calls[c].instance, Up(entry));
      Move(t, c, Done(entry.flags.Get(s.calls[c].flag), now))
    case RefreshFlag(i, f, v) =>
      var entry := s.instances[i].entry;
      WithInstance(s, i, Up(entry.(flags := entry.flags.Set(f, v))))
    case RefreshEpoch(i, epoch) => WithInstance(s, i, Up(s.instances[i].entry.(epoch := epoch)))
    case OpenRefresh(_, _, _) => s
  }

  function Step(s: State, a: Action): Option<State> {
    if Enabled(s, a) then Some(Next(s, a)) else None
  }

  /** The state after a run, when each of its actions was enabled. */
  function Run(s: State, actions: seq<Action>): Option<State> {
    Runs(Step, s, actions)
  }

  // ---------------------------------------------------------------- the discipline

  /** A refresh that has begun: the commit it copies, and the flag writes it has left. */
  datatype Pending = Pending(epoch: nat, left: seq<(Flag, bool)>)

  type Open = map<nat, Pending>

  /** The writes copy values of the commit. */
  predicate Copies(h: History, epoch: nat, writes: seq<(Flag, bool)>)
    requires epoch < |h|
  {
    forall k | 0 <= k < |writes| :: writes[k].1 == h[epoch].Get(writes[k].0)
  }

  predicate Names(writes: seq<(Flag, bool)>, f: Flag) {
    exists k | 0 <= k < |writes| :: writes[k].0 == f
  }

  /**
   What a run must respect for its reads to be current; `open` has the refreshes under way.
   A flag read of a seeding or of a reload does not fail. An instance is not seeded across a
   commit, unless its epoch read fails, which makes the first call reload. A refresh begins on an
   entry that is not newer than its commit, and names both flags unless the entry was current up
   to the commit. It then takes its steps in order, among any steps of others, but no second
   refresh begins on the instance and no reload is installed there before it is done.
   */
  predicate Disciplined(s: State, open: Open, a: Action)
    requires Enabled(s, a)
  {
    match a
    case SeedApi(_, ok) => ok
    case SeedCompliance(_, ok) => ok
    case SeedEpoch(i, ok) => ok ==> s.instances[i].began == Now(s.history)
    case ReloadApi(_, ok) => ok
    case ReloadCompliance(_, ok) => ok
    case FinishReload(c) =>
      s.calls[c].phase.loaded.epoch > EntryOf(s, c).epoch ==> s.calls[c].instance !in open
    case OpenRefresh(i, epoch, writes) =>
      var entry := s.instances[i].entry;
      && i !in open && Copies(s.history, epoch, writes) && entry.epoch <= epoch
      && ((Names(writes, ApiKeys) && Names(writes, Compliance)) || entry.epoch >= epoch - 1)
    case RefreshFlag(i, f, v) => i in open && open[i].left != [] && open[i].left[0] == (f, v)
    case RefreshEpoch(i, epoch) => i in open && open[i] == Pending(epoch, [])
    case _ => true
  }

  function NextOpen(open: Open, a: Action): Open {
    match a
    case OpenRefresh(i, epoch, writes) => open[i := Pending(epoch, writes)]
    case RefreshFlag(i, _, _) =>
      if i in open && open[i].left != [] then open[i := open[i].(left := open[i].left[1..])] else open
    case RefreshEpoch(i, _) => open - {i}
    case _ => open
  }

  ghost predicate DisciplinedRun(s: State, open: Open, actions: seq<Action>)
    decreases |actions|
  {
    actions == [] || (
      && Enabled(s, actions[0])
      && Disciplined(s, open, actions[0])
      && DisciplinedRun(Next(s, actions[0]), NextOpen(open, actions[0]), actions[1..]))
  }

  /** The flags that a refresh has left to write are the commit's; all others are at least as new. */
  ghost predicate PendingInv(h: History, x: Instance, p: Pending) {
    && x.Up? && p.epoch < |h| && x.entry.epoch <= p.epoch && Copies(h, p.epoch, p.left)
    && forall f :: Names(p.left, f) || HeldSince(h, f, p.epoch, x.entry.flags.Get(f))
  }

  ghost predicate OpenInv(s: State, open: Open) {
    forall i | i in open :: PendingInv(s.history, InstanceOf(s, i), open[i])
  }

  ghost predicate InstanceInv(h: History, x: Instance) {
    match x
    case Down => true
    case SeedingApi(api, began) => began < |h| && HeldSince(h, ApiKeys, began, api)
    case SeedingFlags(flags, began) => began < |h| && Fresh(h, Entry(began, flags))
    case Up(entry) => Fresh(h, entry)
  }

  ghost predicate PhaseInv(h: History, c: Call) {
    match c.phase
    case Started => true
    case HaveEntryEpoch(_) => true
    case HaveEpochs(_, dbEpoch) => c.sound ==> c.start <= dbEpoch
    case Reloading => true
    case ReloadedEpoch(epoch) => epoch < |h| && (c.sound ==> c.start <= epoch)
    case ReloadedApi(epoch, api) =>
      epoch < |h| && HeldSince(h, ApiKeys, epoch, api) && (c.sound ==> c.start <= epoch)
    case ReloadedAll(loaded) => Fresh(h, loaded) && (c.sound ==> c.start <= loaded.epoch)
    case Done(value, end) => end < |h| && (c.sound ==> HeldBetween(h, c.flag, c.start, end, value))
  }

  ghost predicate CallInv(h: History, c: Call) {
    c.start < |h| && PhaseInv(h, c)
  }

  ghost predicate Inv(s: State) {
    && (forall i | i in s.instances :: InstanceInv(s.history, s.instances[i]))
    && (forall c | c in s.calls :: CallInv(s.history, s.calls[c]))
  }

  // ---------------------------------------------------------------- every step keeps the invariant

  lemma HeldNow(h: History, f: Flag, lo: int)
    requires lo <= Now(h)
    ensures HeldSince(h, f, lo, h[Now(h)].Get(f))
  {
  }

  lemma HeldLonger(h: History, f: Flag, lo: int, hi: int, v: bool, lo': int, hi': int)
    requires HeldBetween(h, f, lo, hi, v) && lo' <= lo && hi <= hi'
    ensures HeldBetween(h, f, lo', hi', v)
  {
    var e: nat :| lo <= e <= hi && e < |h| && h[e].Get(f) == v;
  }

  lemma HeldGrows(h: History, x: Flags, f: Flag, lo: int, hi: int, v: bool)
    requires HeldBetween(h, f, lo, hi, v)
    ensures HeldBetween(h + [x], f, lo, hi, v)
  {
    var e: nat :| lo <= e <= hi && e < |h| && h[e].Get(f) == v;
    assert (h + [x])[e] == h[e];
  }

  lemma HeldLater(h: History, x: Flags, f: Flag, lo: int, v: bool)
    requires HeldSince(h, f, lo, v)
    ensures HeldSince(h + [x], f, lo, v)
  {
    HeldGrows(h, x, f, lo, Now(h), v);
    HeldLonger(h + [x], f, lo, Now(h), v, lo, Now(h + [x]));
  }

  lemma FreshGrows(h: History, x: Flags, entry: Entry)
    requires Fresh(h, entry)
    ensures Fresh(h + [x], entry)
  {
    forall f ensures HeldSince(h + [x], f, entry.epoch, entry.flags.Get(f)) {
      HeldLater(h, x, f, entry.epoch, entry.flags.Get(f));
    }
  }

  lemma InvGrows(s: State, x: Flags)
    requires Inv(s)
    ensures Inv(s.(history := s.history + [x]))
  {
    var h := s.history;
    forall i | i in s.instances ensures InstanceInv(h + [x], s.instances[i]) {
      assert InstanceInv(h, s.instances[i]);
      match s.instances[i] {
        case SeedingApi(api, began) => HeldLater(h, x, ApiKeys, began, api);
        case SeedingFlags(flags, began) => FreshGrows(h, x, Entry(began, flags));
        case Up(entry) => FreshGrows(h, x, entry);
        case Down =>
      }
    }
    forall c | c in s.calls ensures CallInv(h + [x], s.calls[c]) {
      var k := s.calls[c];
      assert CallInv(h, k);
      match k.phase {
        case ReloadedApi(epoch, api) =>
          HeldLater(h, x, ApiKeys, epoch, api);
        case ReloadedAll(loaded) => FreshGrows(h, x, loaded);
        case Done(value, end) =>
          if k.sound {
            HeldGrows(h, x, k.flag, k.start, end, value);
          }
        case _ =>
      }
    }
  }

  lemma InvInstance(s: State, i: nat, x: Instance)
    requires Inv(s) && InstanceInv(s.history, x)
    ensures Inv(WithInstance(s, i, x))
  {
    hide InstanceInv, CallInv;
  }

  lemma InvCall(s: State, c: nat, k: Call)
    requires Inv(s) && CallInv(s.history, k)
    ensures Inv(s.(calls := s.calls[c := k]))
  {
    hide InstanceInv, CallInv;
  }

  /** A call that reads the entry at an epoch not before its start returns a current value. */
  lemma ServeIsCurrent(h: History, entry: Entry, f: Flag, start: int)
    requires Fresh(h, entry) && start <= entry.epoch
    ensures HeldBetween(h, f, start, Now(h), entry.flags.Get(f))
  {
    HeldLonger(h, f, entry.epoch, Now(h), entry.flags.Get(f), start, Now(h));
  }

  lemma RefreshedIsFresh(h: History, entry: Entry, epoch: nat, writes: map<Flag, bool>)
    requires Fresh(h, entry) && IsCommit(h, epoch, writes)
    requires writes.Keys == {ApiKeys, Compliance} || entry.epoch >= epoch - 1
    ensures Fresh(h, Refreshed(entry, epoch, writes))
  {
    var loaded := Refreshed(entry, epoch, writes);
    forall f ensures HeldSince(h, f, epoch, loaded.flags.Get(f)) {
      if f in writes {
        assert h[epoch].Get(f) == loaded.flags.Get(f);
      } else {
        assert f !in writes.Keys;
        var v := entry.flags.Get(f);
        assert loaded.flags.Get(f) == v;
        var e: nat :| entry.epoch <= e <= Now(h) && h[e].Get(f) == v;
        assert e == epoch - 1 ==> h[epoch].Get(f) == v;
      }
    }
  }

  lemma FreshOfBoth(h: History, entry: Entry)
    requires HeldSince(h, ApiKeys, entry.epoch, entry.flags.apiKeys)
    requires HeldSince(h, Compliance, entry.epoch, entry.flags.compliance)
    ensures Fresh(h, entry)
  {
    hide HeldBetween;
    forall f ensures HeldSince(h, f, entry.epoch, entry.flags.Get(f)) {
      assert f == ApiKeys || f == Compliance;
    }
  }

  lemma StepInstance(s: State, open: Open, a: Action)
    requires Inv(s) && Enabled(s, a) && Disciplined(s, open, a)
    requires a.Commit? || a.SeedApi? || a.SeedCompliance? || a.SeedEpoch?
    ensures Inv(Next(s, a))
  {
    hide Inv;
    var h := s.history;
    match a {
      case Commit(writes) => InvGrows(s, h[Now(h)].Apply(writes));
      case SeedApi(i, _) =>
        HeldNow(h, ApiKeys, Now(h));
        InvInstance(s, i, SeedingApi(h[Now(h)].apiKeys, Now(h)));
      case SeedCompliance(i, _) =>
        InvGet(s, i);
        var x := s.instances[i];
        var flags := Flags(x.api, h[Now(h)].compliance);
        HeldNow(h, Compliance, x.began);
        FreshOfBoth(h, Entry(x.began, flags));
        InvInstance(s, i, SeedingFlags(flags, x.began));
      case SeedEpoch(i, ok) =>
        InvGet(s, i);
        var x := s.instances[i];
        var epoch := if ok then Now(h) else 0;
        forall f ensures HeldSince(h, f, epoch, x.flags.Get(f)) {
          HeldLonger(h, f, x.began, Now(h), x.flags.Get(f), epoch, Now(h));
        }
        InvInstance(s, i, Up(Entry(epoch, x.flags)));
    }
  }

  lemma InvGet(s: State, i: nat)
    requires Inv(s) && i in s.instances
    ensures InstanceInv(s.history, s.instances[i])
  {
  }

  lemma InvGetCall(s: State, c: nat)
    requires Inv(s) && AtPhase(s, c)
    ensures CallInv(s.history, s.calls[c]) && Fresh(s.history, EntryOf(s, c))
  {
    InvGet(s, s.calls[c].instance);
  }

  lemma StepCall(s: State, open: Open, a: Action)
    requires Inv(s) && Enabled(s, a) && Disciplined(s, open, a)
    requires a.Begin? || a.ReadEntry? || a.ReadEpoch? || a.Compare? || a.ReloadEpoch?
    ensures Inv(Next(s, a))
  {
    hide Inv, Fresh, HeldBetween;
    var h := s.history;
    match a {
      case Begin(c, i, f) => InvCall(s, c, Call(i, f, Now(h), true, Started));
      case ReadEntry(c) =>
        InvGetCall(s, c);
        InvCall(s, c, Next(s, a).calls[c]);
      case ReadEpoch(c, ok) =>
        InvGetCall(s, c);
        InvCall(s, c, Next(s, a).calls[c]);
      case Compare(c) =>
        InvGetCall(s, c);
        var k, entry := s.calls[c], EntryOf(s, c);
        if k.sound && Next(s, a).calls[c].phase.Done? {
          ServeIsCurrent(h, entry, k.flag, k.start);
        }
        InvCall(s, c, Next(s, a).calls[c]);
      case ReloadEpoch(c, ok) =>
        InvGetCall(s, c);
        InvCall(s, c, Next(s, a).calls[c]);
    }
  }

  lemma StepReload(s: State, open: Open, a: Action)
    requires Inv(s) && Enabled(s, a) && Disciplined(s, open, a)
    requires a.ReloadApi? || a.ReloadCompliance? || a.FinishReload?
    ensures Inv(Next(s, a))
  {
    hide Inv, HeldBetween;
    var h := s.history;
    match a {
      case ReloadApi(c, _) =>
        InvGetCall(s, c);
        HeldNow(h, ApiKeys, s.calls[c].phase.epoch);
        InvCall(s, c, Next(s, a).calls[c]);
      case ReloadCompliance(c, _) =>
        InvGetCall(s, c);
        var p := s.calls[c].phase;
        HeldNow(h, Compliance, p.epoch);
        FreshOfBoth(h, Entry(p.epoch, Flags(p.api, h[Now(h)].compliance)));
        InvCall(s, c, Next(s, a).calls[c]);
      case FinishReload(c) =>
        InvGetCall(s, c);
        var k := s.calls[c];
        var entry := InstallNewer(EntryOf(s, c), k.phase.loaded);
        if k.sound {
          ServeIsCurrent(h, entry, k.flag, k.start);
        }
        InvInstance(s, k.instance, Up(entry));
        InvCall(WithInstance(s, k.instance, Up(entry)), c, Next(s, a).calls[c]);
    }
  }

  /** A flag write of a refresh brings a value that is at least as new as the entry. */
  lemma StepFlag(s: State, open: Open, i: nat, f: Flag, v: bool)
    requires Inv(s) && OpenInv(s, open)
    requires Enabled(s, RefreshFlag(i, f, v)) && Disciplined(s, open, RefreshFlag(i, f, v))
    ensures Inv(Next(s, RefreshFlag(i, f, v)))
    ensures PendingInv(s.history, Next(s, RefreshFlag(i, f, v)).instances[i], open[i].(left := open[i].left[1..]))
  {
    hide Inv, HeldBetween;
    var h, p, entry := s.history, open[i], s.instances[i].entry;
    assert PendingInv(h, s.instances[i], p);
    InvGet(s, i);
    var written := entry.(flags := entry.flags.Set(f, v));
    assert v == h[p.epoch].Get(f);
    HeldAt(h, f, p.epoch);
    HeldLonger(h, f, p.epoch, Now(h), v, entry.epoch, Now(h));
    forall g ensures HeldSince(h, g, entry.epoch, written.flags.Get(g)) {
      assert g == f || written.flags.Get(g) == entry.flags.Get(g);
    }
    InvInstance(s, i, Up(written));
    forall g ensures Names(p.left[1..], g) || HeldSince(h, g, p.epoch, written.flags.Get(g)) {
      assert p.left == [p.left[0]] + p.left[1..];
      assert g == f || written.flags.Get(g) == entry.flags.Get(g);
    }
  }

  lemma HeldAt(h: History, f: Flag, e: nat)
    requires e < |h|
    ensures HeldSince(h, f, e, h[e].Get(f))
  {
  }

  /** When a refresh has no flag left, its epoch can be recorded. */
  lemma StepEpoch(s: State, open: Open, i: nat, epoch: nat)
    requires Inv(s) && OpenInv(s, open) && Enabled(s, RefreshEpoch(i, epoch))
    requires Disciplined(s, open, RefreshEpoch(i, epoch))
    ensures Inv(Next(s, RefreshEpoch(i, epoch)))
  {
    hide Inv, HeldBetween;
    var entry := s.instances[i].entry;
    assert PendingInv(s.history, s.instances[i], open[i]);
    InvInstance(s, i, Up(entry.(epoch := epoch)));
  }

  lemma {:induction false} AsMapKeys(writes: seq<(Flag, bool)>, f: Flag)
    ensures f in AsMap(writes) <==> Names(writes, f)
    decreases |writes|
  {
    if writes != [] {
      var n := |writes| - 1;
      AsMapKeys(writes[..n], f);
      assert writes == writes[..n] + [writes[n]];
    }
  }

  /** A refresh may begin: what it does not name is at least as new as its commit. */
  lemma StepOpen(s: State, open: Open, i: nat, epoch: nat, writes: seq<(Flag, bool)>)
    requires Inv(s) && Enabled(s, OpenRefresh(i, epoch, writes)) && Disciplined(s, open, OpenRefresh(i, epoch, writes))
    ensures PendingInv(s.history, s.instances[i], Pending(epoch, writes))
  {
    hide Inv, HeldBetween, AsMap;
    var entry, named := s.instances[i].entry, AsMap(writes);
    InvGet(s, i);
    AsMapKeys(writes, ApiKeys);
    AsMapKeys(writes, Compliance);
    if Names(writes, ApiKeys) && Names(writes, Compliance) {
      forall f ensures f in named.Keys <==> f in {ApiKeys, Compliance} {
        assert f == ApiKeys || f == Compliance;
      }
      assert named.Keys == {ApiKeys, Compliance};
    }
    RefreshedIsFresh(s.history, entry, epoch, named);
    forall f ensures Names(writes, f) || HeldSince(s.history, f, epoch, entry.flags.Get(f)) {
      AsMapKeys(writes, f);
      assert f !in named ==> Refreshed(entry, epoch, named).flags.Get(f) == entry.flags.Get(f);
    }
  }

  lemma PendingGrows(h: History, x: Flags, instance: Instance, p: Pending)
    requires PendingInv(h, instance, p)
    ensures PendingInv(h + [x], instance, p)
  {
    hide HeldBetween, Names;
    assert (h + [x])[p.epoch] == h[p.epoch];
    forall f ensures Names(p.left, f) || HeldSince(h + [x], f, p.epoch, instance.entry.flags.Get(f)) {
      if !Names(p.left, f) {
        HeldLater(h, x, f, p.epoch, instance.entry.flags.Get(f));
      }
    }
  }

  /** A step that leaves the table and the entry of a refreshing instance alone keeps the refresh. */
  lemma OpenStays(s: State, open: Open, a: Action)
    requires OpenInv(s, open) && Enabled(s, a) && Disciplined(s, open, a)
    ensures forall i | i in open && !((a.RefreshFlag? || a.RefreshEpoch?) && i == a.i) ::
              PendingInv(Next(s, a).history, InstanceOf(Next(s, a), i), open[i])
  {
    hide Names, Copies, HeldBetween;
    var t := Next(s, a);
    forall i | i in open && !((a.RefreshFlag? || a.RefreshEpoch?) && i == a.i)
      ensures PendingInv(t.history, InstanceOf(t, i), open[i])
    {
      assert PendingInv(s.history, InstanceOf(s, i), open[i]);
      if a.Commit? {
        PendingGrows(s.history, t.history[|s.history|], s.instances[i], open[i]);
      } else {
        assert InstanceOf(t, i) == InstanceOf(s, i);
      }
    }
  }

  lemma StepAny(s: State, open: Open, a: Action)
    requires Inv(s) && OpenInv(s, open) && Enabled(s, a) && Disciplined(s, open, a)
    ensures Inv(Next(s, a)) && OpenInv(Next(s, a), NextOpen(open, a))
  {
    hide Inv, PendingInv;
    OpenStays(s, open, a);
    match a {
      case RefreshFlag(i, f, v) => StepFlag(s, open, i, f, v);
      case RefreshEpoch(i, epoch) => StepEpoch(s, open, i, epoch);
      case OpenRefresh(i, epoch, writes) => StepOpen(s, open, i, epoch, writes);
      case Commit(_) => StepInstance(s, open, a);
      case SeedApi(_, _) => StepInstance(s, open, a);
      case SeedCompliance(_, _) => StepInstance(s, open, a);
      case SeedEpoch(_, _) => StepInstance(s, open, a);
      case ReloadApi(_, _) => StepReload(s, open, a);
      case ReloadCompliance(_, _) => StepReload(s, open, a);
      case FinishReload(_) => StepReload(s, open, a);
      case _ => StepCall(s, open, a);
    }
  }

  lemma {:induction false} RunKeepsInv(s: State, open: Open, actions: seq<Action>)
    requires Inv(s) && OpenInv(s, open) && DisciplinedRun(s, open, actions)
    ensures Run(s, actions).Some? && Inv(Run(s, actions).value)
    decreases |actions|
  {
    hide Inv, OpenInv, Next, NextOpen, Enabled, Disciplined;
    if actions != [] {
      var a := actions[0];
      StepAny(s, open, a);
      RunKeepsInv(Next(s, a), NextOpen(open, a), actions[1..]);
    }
  }

  function Initial(flags: Flags): State {
    State([flags], map[], map[])
  }

  /**
   In every interleaving of commits, reads, reloads, seedings and refreshes that keeps the
   discipline, a call whose table reads succeeded returns a value its flag had in the table at
   some epoch between the call's start and its end.
   */
  lemma ReadsAreCurrent(flags: Flags, actions: seq<Action>, c: nat)
    requires DisciplinedRun(Initial(flags), map[], actions)
    ensures Run(Initial(flags), actions).Some?
    ensures var s := Run(Initial(flags), actions).value;
            c in s.calls && s.calls[c].sound && s.calls[c].phase.Done? ==>
              HeldBetween(s.history, s.calls[c].flag, s.calls[c].start, s.calls[c].phase.end, s.calls[c].phase.value)
  {
    RunKeepsInv(Initial(flags), map[], actions);
  }
}
