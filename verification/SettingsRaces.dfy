/**
 Where the settings cache is not current. Each clause of the discipline in `SettingsCache` is
 needed: without it there is a run in which a call whose own table reads all succeed returns a
 value the table did not hold while the call ran. The exact conditions are stated beside them.
 */
module SettingsRaces {
  import opened Prelude
  import opened SettingsCache

  // ---------------------------------------------------------------- exact conditions

  /** The steps of a call up to its epoch comparison. */
  function CheckSteps(c: nat, i: nat, f: Flag): seq<Action> {
    [Begin(c, i, f), ReadEntry(c), ReadEpoch(c, true), Compare(c)]
  }

  /** The table reads of a reload; each flag read may fail. */
  function LoadSteps(c: nat, apiOk: bool, complianceOk: bool): seq<Action> {
    [ReloadEpoch(c, true), ReloadApi(c, apiOk), ReloadCompliance(c, complianceOk)]
  }

  /** The steps of a call that runs alone; it reloads when the epochs differ. */
  function LoneCall(c: nat, i: nat, f: Flag, stale: bool): seq<Action> {
    CheckSteps(c, i, f) + if stale then LoadSteps(c, true, true) + [FinishReload(c)] else []
  }

  lemma RunTwo(s: State, a: Action, b: Action)
    requires Enabled(s, a) && Enabled(Next(s, a), b)
    ensures Run(s, [a, b]) == Some(Next(Next(s, a), b))
  {
    hide Runs, Enabled, Next;
    RunsFirst(Step, s, [a, b]);
    assert [a, b][1..] == [b];
    RunsOne(Step, Next(s, a), b);
  }

  lemma CheckAlone(s: State, c: nat, i: nat, f: Flag)
    requires InstanceOf(s, i).Up? && c !in s.calls
    ensures var entry, now := s.instances[i].entry, Now(s.history);
            Run(s, CheckSteps(c, i, f)) ==
            Some(s.(calls := s.calls[c := Call(i, f, now, true,
              if entry.epoch == now then Done(entry.flags.Get(f), now) else Reloading)]))
  {
    hide Runs;
    var entry, now := s.instances[i].entry, Now(s.history);
    var s2 := s.(calls := s.calls[c := Call(i, f, now, true, HaveEntryEpoch(entry.epoch))]);
    RunTwo(s, Begin(c, i, f), ReadEntry(c));
    assert Next(Next(s, Begin(c, i, f)), ReadEntry(c)).calls == s2.calls;
    RunTwo(s2, ReadEpoch(c, true), Compare(c));
    var s4 := Next(Next(s2, ReadEpoch(c, true)), Compare(c));
    assert s4.calls == s.calls[c := s4.calls[c]];
    RunsAppend(Step, s, [Begin(c, i, f), ReadEntry(c)], [ReadEpoch(c, true), Compare(c)]);
    assert CheckSteps(c, i, f) == [Begin(c, i, f), ReadEntry(c)] + [ReadEpoch(c, true), Compare(c)];
  }

  /** What a flag read yields at an epoch: the table's value, or the default when it fails. */
  function ReadFlag(h: History, epoch: nat, f: Flag, ok: bool): bool
    requires epoch < |h|
  {
    (if ok then h[epoch] else DEFAULTS).Get(f)
  }

  lemma LoadFirst(s: State, c: nat, apiOk: bool)
    requires AtPhase(s, c) && s.calls[c].phase.Reloading?
    ensures var k, now := s.calls[c], Now(s.history);
            Run(s, [ReloadEpoch(c, true), ReloadApi(c, apiOk)]) ==
            Some(s.(calls := s.calls[c := k.(sound := k.sound && apiOk,
                                             phase := ReloadedApi(now, ReadFlag(s.history, now, ApiKeys, apiOk)))]))
  {
    hide Runs;
    RunTwo(s, ReloadEpoch(c, true), ReloadApi(c, apiOk));
    var t := Next(Next(s, ReloadEpoch(c, true)), ReloadApi(c, apiOk));
    assert t.calls == s.calls[c := t.calls[c]];
  }

  lemma LoadSecond(s: State, c: nat, ok: bool)
    requires AtPhase(s, c) && s.calls[c].phase.ReloadedApi?
    ensures var k, now := s.calls[c], Now(s.history);
            var flags := Flags(k.phase.api, ReadFlag(s.history, now, Compliance, ok));
            Run(s, [ReloadCompliance(c, ok)]) ==
            Some(s.(calls := s.calls[c := k.(sound := k.sound && ok,
                                             phase := ReloadedAll(Entry(k.phase.epoch, flags)))]))
  {
    hide Runs;
    RunsOne(Step, s, ReloadCompliance(c, ok));
  }

  lemma LoadAlone(s: State, c: nat, apiOk: bool, complianceOk: bool)
    requires AtPhase(s, c) && s.calls[c].phase.Reloading?
    ensures var k, h, now := s.calls[c], s.history, Now(s.history);
            var flags := Flags(ReadFlag(h, now, ApiKeys, apiOk), ReadFlag(h, now, Compliance, complianceOk));
            Run(s, LoadSteps(c, apiOk, complianceOk)) ==
            Some(s.(calls := s.calls[c := k.(sound := k.sound && apiOk && complianceOk,
                                             phase := ReloadedAll(Entry(now, flags)))]))
  {
    hide Runs, ReadFlag;
    var first := [ReloadEpoch(c, true), ReloadApi(c, apiOk)];
    LoadFirst(s, c, apiOk);
    var s2 := Run(s, first).value;
    LoadSecond(s2, c, complianceOk);
    var s3 := Run(s2, [ReloadCompliance(c, complianceOk)]).value;
    assert s3.calls == s.calls[c := s3.calls[c]];
    RunsAppend(Step, s, first, [ReloadCompliance(c, complianceOk)]);
    assert LoadSteps(c, apiOk, complianceOk) == first + [ReloadCompliance(c, complianceOk)];
  }

  /** The run ends with the call answered, its table reads good, and this value returned at `now`. */
  ghost predicate Answers(r: Option<State>, c: nat, f: Flag, now: nat, value: bool) {
    && r.Some? && c in r.value.calls
    && var k := r.value.calls[c];
       k.flag == f && k.start == now && k.sound && k.phase == Done(value, now)
  }

  /** What a call that runs alone returns, and when it reloads. */
  lemma LoneCallReturns(s: State, c: nat, i: nat, f: Flag)
    requires InstanceOf(s, i).Up? && c !in s.calls && s.instances[i].entry.epoch <= Now(s.history)
    ensures var entry, now := s.instances[i].entry, Now(s.history);
            Answers(Run(s, LoneCall(c, i, f, entry.epoch < now)), c, f, now,
                    if entry.epoch < now then s.history[now].Get(f) else entry.flags.Get(f))
    ensures Run(s, LoneCall(c, i, f, s.instances[i].entry.epoch < Now(s.history))).value.history == s.history
  {
    hide Runs;
    var entry, now := s.instances[i].entry, Now(s.history);
    CheckAlone(s, c, i, f);
    RunsAppend(Step, s, CheckSteps(c, i, f), []);
    if entry.epoch < now {
      var s4 := Run(s, CheckSteps(c, i, f)).value;
      LoadAlone(s4, c, true, true);
      var s7 := Run(s4, LoadSteps(c, true, true)).value;
      RunsOne(Step, s7, FinishReload(c));
      RunsAppend(Step, s4, LoadSteps(c, true, true), [FinishReload(c)]);
      RunsAppend(Step, s, CheckSteps(c, i, f), LoadSteps(c, true, true) + [FinishReload(c)]);
    } else {
      RunsNone(Step, Run(s, CheckSteps(c, i, f)).value);
    }
  }

  /**
   A call that runs alone returns the table's value exactly when the entry is behind, so that
   the call reloads, or the entry's flag is the table's. Nothing else about the entry matters.
   */
  lemma LoneCallExact(s: State, c: nat, i: nat, f: Flag)
    requires InstanceOf(s, i).Up? && c !in s.calls && s.instances[i].entry.epoch <= Now(s.history)
    ensures var entry, now := s.instances[i].entry, Now(s.history);
            var r := Run(s, LoneCall(c, i, f, entry.epoch < now));
            && r.Some? && c in r.value.calls && r.value.calls[c].sound && r.value.calls[c].phase.Done?
            && (r.value.calls[c].phase.value == s.history[now].Get(f) <==>
                entry.epoch < now || entry.flags.Get(f) == s.history[now].Get(f))
  {
    hide Runs;
    LoneCallReturns(s, c, i, f);
  }

  lemma HeldAtNow(h: History, f: Flag, v: bool)
    ensures HeldSince(h, f, Now(h), v) <==> h[Now(h)].Get(f) == v
  {
    if h[Now(h)].Get(f) == v {
      HeldNow(h, f, Now(h));
    }
  }

  // ---------------------------------------------------------------- seeding among commits

  function Commits(writes: seq<map<Flag, bool>>): seq<Action> {
    seq(|writes|, k requires 0 <= k < |writes| => Commit(writes[k]))
  }

  function AfterCommits(h: History, writes: seq<map<Flag, bool>>): History
    decreases |writes|
  {
    if writes == [] then h else AfterCommits(h + [h[Now(h)].Apply(writes[0])], writes[1..])
  }

  lemma {:induction false} RunCommits(s: State, writes: seq<map<Flag, bool>>)
    ensures Run(s, Commits(writes)) == Some(s.(history := AfterCommits(s.history, writes)))
    decreases |writes|
  {
    hide Runs;
    if writes == [] {
      RunsNone(Step, s);
    } else {
      RunsFirst(Step, s, Commits(writes));
      assert Commits(writes)[1..] == Commits(writes[1..]);
      RunCommits(Next(s, Commit(writes[0])), writes[1..]);
    }
  }

  /** A seeding with commits of other instances between its three reads, each of which may fail. */
  function SeedSteps(i: nat, first: seq<map<Flag, bool>>, second: seq<map<Flag, bool>>,
                     apiOk: bool, complianceOk: bool, epochOk: bool): seq<Action> {
    [SeedApi(i, apiOk)] +
    (Commits(first) + ([SeedCompliance(i, complianceOk)] + (Commits(second) + [SeedEpoch(i, epochOk)])))
  }

  lemma RunSeedSteps(s: State, i: nat, first: seq<map<Flag, bool>>, second: seq<map<Flag, bool>>,
                     apiOk: bool, complianceOk: bool, epochOk: bool)
    requires InstanceOf(s, i).Down?
    ensures var h1 := AfterCommits(s.history, first);
            var h2 := AfterCommits(h1, second);
            var flags := Flags(ReadFlag(s.history, Now(s.history), ApiKeys, apiOk),
                               ReadFlag(h1, Now(h1), Compliance, complianceOk));
            Run(s, SeedSteps(i, first, second, apiOk, complianceOk, epochOk)) ==
            Some(s.(history := h2, instances := s.instances[i := Up(Entry(if epochOk then Now(h2) else 0, flags))]))
  {
    hide Runs, AfterCommits;
    var h1 := AfterCommits(s.history, first);
    var h2 := AfterCommits(h1, second);
    RunsOne(Step, s, SeedApi(i, apiOk));
    var s1 := Next(s, SeedApi(i, apiOk));
    RunCommits(s1, first);
    var s2 := s1.(history := h1);
    RunsOne(Step, s2, SeedCompliance(i, complianceOk));
    var s3 := Next(s2, SeedCompliance(i, complianceOk));
    RunCommits(s3, second);
    var s4 := s3.(history := h2);
    RunsOne(Step, s4, SeedEpoch(i, epochOk));
    var s5 := Next(s4, SeedEpoch(i, epochOk));
    assert s5.instances == s.instances[i := s5.instances[i]];
    RunsAppend(Step, s3, Commits(second), [SeedEpoch(i, epochOk)]);
    RunsAppend(Step, s2, [SeedCompliance(i, complianceOk)], Commits(second) + [SeedEpoch(i, epochOk)]);
    RunsAppend(Step, s1, Commits(first),
               [SeedCompliance(i, complianceOk)] + (Commits(second) + [SeedEpoch(i, epochOk)]));
    RunsAppend(Step, s, [SeedApi(i, apiOk)],
              Commits(first) + ([SeedCompliance(i, complianceOk)] + (Commits(second) + [SeedEpoch(i, epochOk)])));
  }

  /**
   The first call after a seeding, whatever was committed between its reads and whichever of them
   failed. It reloads exactly when the epoch read failed on a table that has been written. If it
   does not, it returns what its flag's read gave at the epoch of that read, and this is the
   table's value exactly when the table still has it, or the failing read's default happens to be it.
   */
  lemma SeedExact(s: State, i: nat, c: nat, f: Flag, first: seq<map<Flag, bool>>, second: seq<map<Flag, bool>>,
                  apiOk: bool, complianceOk: bool, epochOk: bool)
    requires InstanceOf(s, i).Down? && c !in s.calls
    ensures var h1 := AfterCommits(s.history, first);
            var h := AfterCommits(h1, second);
            var now, reloads := Now(h), !epochOk && Now(h) > 0;
            var got := if f.ApiKeys? then ReadFlag(s.history, Now(s.history), f, apiOk)
                       else ReadFlag(h1, Now(h1), f, complianceOk);
            var r := Run(s, SeedSteps(i, first, second, apiOk, complianceOk, epochOk) + LoneCall(c, i, f, reloads));
            && Answers(r, c, f, now, if reloads then h[now].Get(f) else got)
            && r.value.history == h
            && (HeldBetween(h, f, now, now, r.value.calls[c].phase.value) <==> reloads || got == h[now].Get(f))
  {
    hide Runs, SeedSteps, LoneCall, AfterCommits, HeldBetween;
    var h1 := AfterCommits(s.history, first);
    var h := AfterCommits(h1, second);
    RunSeedSteps(s, i, first, second, apiOk, complianceOk, epochOk);
    var t := Run(s, SeedSteps(i, first, second, apiOk, complianceOk, epochOk)).value;
    LoneCallReturns(t, c, i, f);
    RunsAppend(Step, s, SeedSteps(i, first, second, apiOk, complianceOk, epochOk),
               LoneCall(c, i, f, !epochOk && Now(h) > 0));
    HeldAtNow(h, f, Run(t, LoneCall(c, i, f, !epochOk && Now(h) > 0)).value.calls[c].phase.value);
  }

  // ---------------------------------------------------------------- reads that fail during a reload

  /**
   A reload that installs, then another call. It returns what the flag's read gave, which is the
   table's value exactly when that read succeeded or its default happens to be it.
   */
  lemma FailedReadExact(s: State, c: nat, d: nat, f: Flag, apiOk: bool, complianceOk: bool)
    requires AtPhase(s, c) && s.calls[c].phase.Reloading? && d !in s.calls
    requires EntryOf(s, c).epoch < Now(s.history)
    ensures var h, now := s.history, Now(s.history);
            var ok := if f.ApiKeys? then apiOk else complianceOk;
            var r := Run(s, LoadSteps(c, apiOk, complianceOk) +
                            ([FinishReload(c)] + LoneCall(d, s.calls[c].instance, f, false)));
            && Answers(r, d, f, now, ReadFlag(h, now, f, ok))
            && (HeldBetween(h, f, now, now, r.value.calls[d].phase.value) <==> ok || DEFAULTS.Get(f) == h[now].Get(f))
  {
    hide Runs, LoneCall, LoadSteps;
    var i, h := s.calls[c].instance, s.history;
    LoadAlone(s, c, apiOk, complianceOk);
    var s1 := Run(s, LoadSteps(c, apiOk, complianceOk)).value;
    RunsOne(Step, s1, FinishReload(c));
    var s2 := Next(s1, FinishReload(c));
    LoneCallReturns(s2, d, i, f);
    RunsAppend(Step, s1, [FinishReload(c)], LoneCall(d, i, f, false));
    RunsAppend(Step, s, LoadSteps(c, apiOk, complianceOk), [FinishReload(c)] + LoneCall(d, i, f, false));
    HeldAtNow(h, f, ReadFlag(h, Now(h), f, if f.ApiKeys? then apiOk else complianceOk));
  }

  // ---------------------------------------------------------------- writes of several requests, and a reload

  /** One cache write of a local request; requests that overlap mix theirs in any order. */
  datatype Write = FlagWrite(f: Flag, v: bool) | EpochWrite(epoch: nat)

  function WriteSteps(i: nat, writes: seq<Write>): seq<Action> {
    seq(|writes|, k requires 0 <= k < |writes| =>
      match writes[k] case FlagWrite(f, v) => RefreshFlag(i, f, v) case EpochWrite(e) => RefreshEpoch(i, e))
  }

  function WriteOne(entry: Entry, w: Write): Entry {
    match w
    case FlagWrite(f, v) => entry.(flags := entry.flags.Set(f, v))
    case EpochWrite(e) => entry.(epoch := e)
  }

  function Written(entry: Entry, writes: seq<Write>): Entry
    decreases |writes|
  {
    if writes == [] then entry else Written(WriteOne(entry, writes[0]), writes[1..])
  }

  /** What the last write of a flag wrote. */
  function LastFlag(writes: seq<Write>, f: Flag): Option<bool> {
    if writes == [] then None else
      var n := |writes| - 1;
      if writes[n].FlagWrite? && writes[n].f == f then Some(writes[n].v) else LastFlag(writes[..n], f)
  }

  function LastEpoch(writes: seq<Write>): Option<nat> {
    if writes == [] then None else
      var n := |writes| - 1;
      if writes[n].EpochWrite? then Some(writes[n].epoch) else LastEpoch(writes[..n])
  }

  function OrElse<T>(o: Option<T>, otherwise: T): T {
    match o case Some(x) => x case None => otherwise
  }

  /** The epochs written are those of commits. */
  predicate Recorded(h: History, writes: seq<Write>) {
    forall k | 0 <= k < |writes| && writes[k].EpochWrite? :: writes[k].epoch < |h|
  }

  lemma {:induction false} WrittenSnoc(entry: Entry, writes: seq<Write>, w: Write)
    ensures Written(entry, writes + [w]) == WriteOne(Written(entry, writes), w)
    decreases |writes|
  {
    hide WriteOne;
    if writes == [] {
      assert [w][1..] == [];
    } else {
      assert (writes + [w])[1..] == writes[1..] + [w];
      WrittenSnoc(WriteOne(entry, writes[0]), writes[1..], w);
    }
  }

  lemma {:induction false} WrittenIs(entry: Entry, writes: seq<Write>, f: Flag)
    ensures Written(entry, writes).flags.Get(f) == OrElse(LastFlag(writes, f), entry.flags.Get(f))
    ensures Written(entry, writes).epoch == OrElse(LastEpoch(writes), entry.epoch)
    decreases |writes|
  {
    if writes != [] {
      var n := |writes| - 1;
      WrittenIs(entry, writes[..n], f);
      WrittenSnoc(entry, writes[..n], writes[n]);
      assert writes == writes[..n] + [writes[n]];
    }
  }

  lemma {:induction false} RunWriteSteps(s: State, i: nat, writes: seq<Write>)
    requires InstanceOf(s, i).Up? && Recorded(s.history, writes)
    ensures Run(s, WriteSteps(i, writes)) == Some(WithInstance(s, i, Up(Written(s.instances[i].entry, writes))))
    decreases |writes|
  {
    hide Runs;
    if writes == [] {
      RunsNone(Step, s);
      assert s.instances[i := s.instances[i]] == s.instances;
    } else {
      var a := WriteSteps(i, writes)[0];
      RunsFirst(Step, s, WriteSteps(i, writes));
      assert WriteSteps(i, writes)[1..] == WriteSteps(i, writes[1..]);
      var t := Next(s, a);
      assert t == WithInstance(s, i, Up(WriteOne(s.instances[i].entry, writes[0])));
      RunWriteSteps(t, i, writes[1..]);
      var x := Up(Written(t.instances[i].entry, writes[1..]));
      assert t.instances[i := x] == s.instances[i := x];
    }
  }

  /** Cache writes, then perhaps the end of a reload, then cache writes again. */
  function TornSteps(i: nat, reload: Option<nat>, before: seq<Write>, after: seq<Write>): seq<Action> {
    WriteSteps(i, before) + ((if reload.None? then [] else [FinishReload(reload.value)]) + WriteSteps(i, after))
  }

  /** The reload, if there is one, has read the table for this instance. */
  predicate ReloadReady(s: State, i: nat, reload: Option<nat>) {
    && InstanceOf(s, i).Up? && s.instances[i].entry.epoch <= Now(s.history)
    && (reload.Some? ==>
          && reload.value in s.calls && s.calls[reload.value].instance == i
          && s.calls[reload.value].phase.ReloadedAll?
          && s.calls[reload.value].phase.loaded.epoch <= Now(s.history))
  }

  function Installed(s: State, reload: Option<nat>, entry: Entry): Entry
    requires reload.Some? ==> reload.value in s.calls && s.calls[reload.value].phase.ReloadedAll?
  {
    if reload.None? then entry else InstallNewer(entry, s.calls[reload.value].phase.loaded)
  }

  lemma RunInstall(s: State, i: nat, reload: Option<nat>) returns (t: State)
    requires ReloadReady(s, i, reload)
    ensures Run(s, if reload.None? then [] else [FinishReload(reload.value)]) == Some(t)
    ensures t.history == s.history && t.calls.Keys == s.calls.Keys
    ensures InstanceOf(t, i) == Up(Installed(s, reload, s.instances[i].entry))
  {
    hide Runs;
    if reload.None? {
      RunsNone(Step, s);
      t := s;
    } else {
      RunsOne(Step, s, FinishReload(reload.value));
      t := Next(s, FinishReload(reload.value));
    }
  }

  lemma RunTornSteps(s: State, i: nat, reload: Option<nat>, before: seq<Write>, after: seq<Write>) returns (t: State)
    requires ReloadReady(s, i, reload) && Recorded(s.history, before) && Recorded(s.history, after)
    ensures Run(s, TornSteps(i, reload, before, after)) == Some(t)
    ensures t.history == s.history && t.calls.Keys == s.calls.Keys
    ensures InstanceOf(t, i) ==
            Up(Written(Installed(s, reload, Written(s.instances[i].entry, before)), after))
  {
    hide Runs, WriteSteps, Written, LastEpoch, LastFlag;
    var install := if reload.None? then [] else [FinishReload(reload.value)];
    RunWriteSteps(s, i, before);
    var s1 := Run(s, WriteSteps(i, before)).value;
    EpochBelow(s.history, s.instances[i].entry, before);
    var s2 := RunInstall(s1, i, reload);
    RunWriteSteps(s2, i, after);
    t := Run(s2, WriteSteps(i, after)).value;
    RunsAppend(Step, s1, install, WriteSteps(i, after));
    RunsAppend(Step, s, WriteSteps(i, before), install + WriteSteps(i, after));
  }

  lemma {:induction false} EpochBelow(h: History, entry: Entry, writes: seq<Write>)
    requires Recorded(h, writes) && entry.epoch <= Now(h)
    ensures Written(entry, writes).epoch <= Now(h)
    decreases |writes|
  {
    if writes != [] {
      EpochBelow(h, WriteOne(entry, writes[0]), writes[1..]);
    }
  }

  /**
   A call after the cache writes of any number of local requests, overlapping in any way, with or
   without a reload that finishes among them. The reload is installed exactly when it is newer
   than the epoch recorded before it. The flag is the last one written after the reload; else the
   reload's, if it was installed; else the last one written before it; else the entry's. The call
   reloads exactly when the epoch recorded last is behind; if it does not, it returns that flag.
   */
  lemma TornRefreshExact(s: State, i: nat, reload: Option<nat>, d: nat, f: Flag, before: seq<Write>, after: seq<Write>)
    requires ReloadReady(s, i, reload) && d !in s.calls
    requires Recorded(s.history, before) && Recorded(s.history, after)
    ensures var entry, h, now := s.instances[i].entry, s.history, Now(s.history);
            var epoch := OrElse(LastEpoch(before), entry.epoch);
            var newer := reload.Some? && s.calls[reload.value].phase.loaded.epoch > epoch;
            var cached := if newer then s.calls[reload.value].phase.loaded.flags.Get(f)
                          else OrElse(LastFlag(before, f), entry.flags.Get(f));
            var flag := OrElse(LastFlag(after, f), cached);
            var last := OrElse(LastEpoch(after), if newer then s.calls[reload.value].phase.loaded.epoch else epoch);
            var r := Run(s, TornSteps(i, reload, before, after) + LoneCall(d, i, f, last < now));
            && Answers(r, d, f, now, if last < now then h[now].Get(f) else flag)
            && (HeldBetween(h, f, now, now, r.value.calls[d].phase.value) <==> last < now || flag == h[now].Get(f))
  {
    hide Runs, LoneCall, TornSteps, LastFlag, LastEpoch, Written, HeldBetween;
    var entry, h := s.instances[i].entry, s.history;
    var t := RunTornSteps(s, i, reload, before, after);
    var middle := Installed(s, reload, Written(entry, before));
    WrittenIs(entry, before, f);
    WrittenIs(middle, after, f);
    EpochBelow(h, entry, before);
    EpochBelow(h, middle, after);
    var behind := Written(middle, after).epoch < Now(h);
    LoneCallReturns(t, d, i, f);
    RunsAppend(Step, s, TornSteps(i, reload, before, after), LoneCall(d, i, f, behind));
    HeldAtNow(h, f, Run(t, LoneCall(d, i, f, behind)).value.calls[d].phase.value);
  }

  // ---------------------------------------------------------------- a whole refresh

  /**
   An uninterrupted refresh after the newest commit gives a current entry exactly when each flag
   the write did not name was cached with the value the table has.
   */
  lemma RefreshExact(h: History, entry: Entry, writes: map<Flag, bool>)
    requires IsCommit(h, Now(h), writes)
    ensures Fresh(h, Refreshed(entry, Now(h), writes)) <==>
            forall f | f !in writes :: entry.flags.Get(f) == h[Now(h)].Get(f)
  {
    hide HeldBetween;
    var loaded := Refreshed(entry, Now(h), writes);
    forall f
      ensures HeldSince(h, f, loaded.epoch, loaded.flags.Get(f)) <==> loaded.flags.Get(f) == h[Now(h)].Get(f)
      ensures f in writes ==> loaded.flags.Get(f) == h[Now(h)].Get(f)
      ensures f !in writes ==> loaded.flags.Get(f) == entry.flags.Get(f)
    {
      HeldAtNow(h, f, loaded.flags.Get(f));
      assert f == ApiKeys || f == Compliance;
    }
  }

  // ---------------------------------------------------------------- a refresh is its steps

  /** The writes of a settings request, the later entry of a key winning. */
  function FlagWrites(entries: seq<(string, string)>): map<Flag, bool> {
    if entries == [] then map[] else
      var last := entries[|entries| - 1];
      var before := FlagWrites(entries[..|entries| - 1]);
      match FlagOfKey(last.0)
      case None => before
      case Some(f) => before[f := last.1 == "true"]
  }

  function WriteKeys(entry: Entry, entries: seq<(string, string)>): Entry {
    if entries == [] then entry else
      var last := entries[|entries| - 1];
      WriteKey(WriteKeys(entry, entries[..|entries| - 1]), last.0, last.1)
  }

  /** Writing the keys of a request one at a time and then the epoch is one refresh. */
  lemma {:induction false} KeyWritesAreRefresh(entry: Entry, entries: seq<(string, string)>, epoch: nat)
    ensures WriteKeys(entry, entries).(epoch := epoch) == Refreshed(entry, epoch, FlagWrites(entries))
  {
    if entries != [] {
      KeyWritesAreRefresh(entry, entries[..|entries| - 1], epoch);
    }
  }

  /** The value of the last entry of a key. */
  function LastEntry(entries: seq<(string, string)>, key: string): Option<string> {
    if entries == [] then None else
      var n := |entries| - 1;
      if entries[n].0 == key then Some(entries[n].1) else LastEntry(entries[..n], key)
  }

  /** The cache writes of a request, key by key. */
  function KeyWrites(entries: seq<(string, string)>): seq<Write> {
    if entries == [] then [] else
      var n := |entries| - 1;
      KeyWrites(entries[..n]) +
      match FlagOfKey(entries[n].0) case None => [] case Some(f) => [FlagWrite(f, entries[n].1 == "true")]
  }

  lemma {:induction false} KeyWritesAreKeys(entry: Entry, entries: seq<(string, string)>)
    ensures Written(entry, KeyWrites(entries)) == WriteKeys(entry, entries)
    decreases |entries|
  {
    if entries != [] {
      var n := |entries| - 1;
      KeyWritesAreKeys(entry, entries[..n]);
      match FlagOfKey(entries[n].0) {
        case None => assert KeyWrites(entries) == KeyWrites(entries[..n]);
        case Some(f) => WrittenSnoc(entry, KeyWrites(entries[..n]), FlagWrite(f, entries[n].1 == "true"));
      }
    }
  }

  lemma {:induction false} KeyWritesLast(entries: seq<(string, string)>)
    ensures LastFlag(KeyWrites(entries), ApiKeys) ==
            match LastEntry(entries, "enable_api_keys") case None => None case Some(v) => Some(v == "true")
    ensures LastFlag(KeyWrites(entries), Compliance) ==
            match LastEntry(entries, "compliance_mode") case None => None case Some(v) => Some(v == "true")
    ensures LastEpoch(KeyWrites(entries)) == None
    ensures forall k | 0 <= k < |KeyWrites(entries)| :: KeyWrites(entries)[k].FlagWrite?
    decreases |entries|
  {
    if entries != [] {
      var n := |entries| - 1;
      KeyWritesLast(entries[..n]);
      var front, all := KeyWrites(entries[..n]), KeyWrites(entries);
      match FlagOfKey(entries[n].0) {
        case None => assert all == front;
        case Some(f) => assert all[..|front|] == front;
      }
    }
  }

  /**
   A call after the refresh of a request that runs alone: for API keys it returns whether the last
   `enable_api_keys` entry is `true`, for compliance the same of `compliance_mode`, and without
   such an entry what was cached.
   */
  lemma RequestThenCall(s: State, i: nat, d: nat, entries: seq<(string, string)>)
    requires InstanceOf(s, i).Up? && s.instances[i].entry.epoch <= Now(s.history) && d !in s.calls
    ensures var now, flags := Now(s.history), s.instances[i].entry.flags;
            var steps := WriteSteps(i, KeyWrites(entries) + [EpochWrite(now)]);
            var api, compliance := LastEntry(entries, "enable_api_keys"), LastEntry(entries, "compliance_mode");
            && Answers(Run(s, steps + LoneCall(d, i, ApiKeys, false)), d, ApiKeys, now,
                       if api.Some? then api.value == "true" else flags.apiKeys)
            && Answers(Run(s, steps + LoneCall(d, i, Compliance, false)), d, Compliance, now,
                       if compliance.Some? then compliance.value == "true" else flags.compliance)
  {
    hide Runs, LoneCall, WriteSteps, LastFlag, LastEpoch, Written, KeyWrites, LastEntry;
    var now := Now(s.history);
    var writes := KeyWrites(entries) + [EpochWrite(now)];
    KeyWritesLast(entries);
    LastSnoc(KeyWrites(entries), EpochWrite(now), ApiKeys);
    LastSnoc(KeyWrites(entries), EpochWrite(now), Compliance);
    LastNothing(ApiKeys);
    LastNothing(Compliance);
    TornRefreshExact(s, i, None, d, ApiKeys, writes, []);
    TornRefreshExact(s, i, None, d, Compliance, writes, []);
    assert WriteSteps(i, writes) + ([] + []) == WriteSteps(i, writes);
    NoSteps(i);
  }

  lemma NoSteps(i: nat)
    ensures WriteSteps(i, []) == []
  {
  }

  lemma LastSnoc(writes: seq<Write>, w: Write, f: Flag)
    ensures LastFlag(writes + [w], f) == if w.FlagWrite? && w.f == f then Some(w.v) else LastFlag(writes, f)
    ensures LastEpoch(writes + [w]) == if w.EpochWrite? then Some(w.epoch) else LastEpoch(writes)
  {
    assert (writes + [w])[..|writes|] == writes;
  }

  lemma LastNothing(f: Flag)
    ensures LastFlag([], f) == None && LastEpoch([]) == None
  {
  }

  /** A call whose epoch read fails returns the cached flag, whatever the table has. */
  lemma FailedEpochRead(s: State, c: nat, i: nat, f: Flag)
    requires InstanceOf(s, i).Up? && c !in s.calls
    ensures var r := Run(s, [Begin(c, i, f), ReadEntry(c)] + [ReadEpoch(c, false)]);
            && r.Some? && c in r.value.calls && !r.value.calls[c].sound
            && r.value.calls[c].phase == Done(s.instances[i].entry.flags.Get(f), Now(s.history))
            && r.value.instances == s.instances
  {
    hide Runs;
    RunTwo(s, Begin(c, i, f), ReadEntry(c));
    var s2 := Next(Next(s, Begin(c, i, f)), ReadEntry(c));
    RunsOne(Step, s2, ReadEpoch(c, false));
    RunsAppend(Step, s, [Begin(c, i, f), ReadEntry(c)], [ReadEpoch(c, false)]);
  }

  // ---------------------------------------------------------------- runs that go wrong

  function AfterSeed(actions: seq<Action>): seq<Action> {
    [SeedApi(0, true), SeedCompliance(0, true), SeedEpoch(0, true)] + actions
  }

  const START := Flags(true, false)

  function Seeded(): State {
    State([START], map[0 := Up(Entry(0, START))], map[])
  }

  lemma RunSeed(actions: seq<Action>)
    ensures Run(Initial(START), AfterSeed(actions)) == Run(Seeded(), actions)
  {
    hide Runs;
    var s0 := Initial(START);
    RunTwo(s0, SeedApi(0, true), SeedCompliance(0, true));
    var s2 := Next(Next(s0, SeedApi(0, true)), SeedCompliance(0, true));
    RunsOne(Step, s2, SeedEpoch(0, true));
    assert Next(s2, SeedEpoch(0, true)).instances == map[0 := Up(Entry(0, START))];
    RunsAppend(Step, s0, [SeedApi(0, true), SeedCompliance(0, true)], [SeedEpoch(0, true)]);
    assert [SeedApi(0, true), SeedCompliance(0, true)] + [SeedEpoch(0, true)] ==
           [SeedApi(0, true), SeedCompliance(0, true), SeedEpoch(0, true)];
    RunsAppend(Step, s0, [SeedApi(0, true), SeedCompliance(0, true), SeedEpoch(0, true)], actions);
  }

  /** The outcome that breaks the promise: a sound call whose value the table never had meanwhile. */
  ghost predicate StaleRead(actions: seq<Action>, c: nat) {
    var r := Run(Initial(START), actions);
    && r.Some? && c in r.value.calls
    && var k := r.value.calls[c];
       && k.sound && k.phase.Done?
       && !HeldBetween(r.value.history, k.flag, k.start, k.phase.end, k.phase.value)
  }

  lemma StaleAfter(s: State, prefix: seq<Action>, c: nat, f: Flag)
    requires Run(Initial(START), prefix) == Some(s) && c !in s.calls && InstanceOf(s, 0).Up?
    requires s.instances[0].entry.epoch == Now(s.history)
    requires s.instances[0].entry.flags.Get(f) != s.history[Now(s.history)].Get(f)
    ensures StaleRead(prefix + CheckSteps(c, 0, f), c)
  {
    hide Runs, Next, Enabled;
    RunsAppend(Step, Initial(START), prefix, CheckSteps(c, 0, f));
    CheckAlone(s, c, 0, f);
  }

  /** A peer switches compliance on; then a local write that names only the other flag. */
  const PARTIAL_WRITE: seq<Action> :=
    [Commit(map[Compliance := true]), Commit(map[ApiKeys := false])] +
    [RefreshFlag(0, ApiKeys, false), RefreshEpoch(0, 2)]

  lemma PartialWriteIsStale()
    ensures StaleRead(AfterSeed(PARTIAL_WRITE) + CheckSteps(0, 0, Compliance), 0)
  {
    hide Runs;
    RunSeed(PARTIAL_WRITE);
    var s0 := Seeded();
    RunTwo(s0, Commit(map[Compliance := true]), Commit(map[ApiKeys := false]));
    var s2 := s0.(history := [START, Flags(true, true), Flags(false, true)]);
    assert Next(Next(s0, Commit(map[Compliance := true])), Commit(map[ApiKeys := false])).history == s2.history;
    RunTwo(s2, RefreshFlag(0, ApiKeys, false), RefreshEpoch(0, 2));
    var s4 := Next(Next(s2, RefreshFlag(0, ApiKeys, false)), RefreshEpoch(0, 2));
    RunsAppend(Step, s0, [Commit(map[Compliance := true]), Commit(map[ApiKeys := false])],
              [RefreshFlag(0, ApiKeys, false), RefreshEpoch(0, 2)]);
    StaleAfter(s4, AfterSeed(PARTIAL_WRITE), 0, Compliance);
  }

  /** After a commit, a call finds the new epoch and reads the table, but has not installed yet. */
  function ReloadInFlight(writes: map<Flag, bool>, apiOk: bool): seq<Action> {
    [Commit(writes)] + (CheckSteps(0, 0, ApiKeys) + LoadSteps(0, apiOk, true))
  }

  lemma RunReloadInFlight(writes: map<Flag, bool>, apiOk: bool)
    ensures var now := START.Apply(writes);
            Run(Seeded(), ReloadInFlight(writes, apiOk)) ==
            Some(State([START, now], map[0 := Up(Entry(0, START))],
                       map[0 := Call(0, ApiKeys, 1, apiOk, ReloadedAll(
                         Entry(1, Flags(if apiOk then now.apiKeys else DEFAULTS.apiKeys, now.compliance))))]))
  {
    hide Runs;
    var now := START.Apply(writes);
    RunsOne(Step, Seeded(), Commit(writes));
    var s1 := State([START, now], map[0 := Up(Entry(0, START))], map[]);
    assert Next(Seeded(), Commit(writes)).history == s1.history;
    CheckAlone(s1, 0, 0, ApiKeys);
    var s2 := s1.(calls := map[0 := Call(0, ApiKeys, 1, true, Reloading)]);
    assert s1.calls[0 := s2.calls[0]] == s2.calls;
    LoadAlone(s2, 0, apiOk, true);
    assert forall k :: s2.calls[0 := k] == map[0 := k];
    RunsAppend(Step, s1, CheckSteps(0, 0, ApiKeys), LoadSteps(0, apiOk, true));
    RunsAppend(Step, Seeded(), [Commit(writes)], CheckSteps(0, 0, ApiKeys) + LoadSteps(0, apiOk, true));
  }

  /** A reload that began before a local commit installs between the flag write and the epoch. */
  const TORN_REFRESH: seq<Action> :=
    ReloadInFlight(map[ApiKeys := true], true) +
    ([Commit(map[Compliance := true]), RefreshFlag(0, Compliance, true)] + [FinishReload(0), RefreshEpoch(0, 2)])

  lemma TornWrite(k: Call)
    requires k.instance == 0 && k.flag == ApiKeys && k.phase == ReloadedAll(Entry(1, START))
    ensures Run(State([START, START], map[0 := Up(Entry(0, START))], map[0 := k]),
                [Commit(map[Compliance := true]), RefreshFlag(0, Compliance, true)]) ==
            Some(State([START, START, Flags(true, true)], map[0 := Up(Entry(0, Flags(true, true)))], map[0 := k]))
  {
    hide Runs;
    var s1 := State([START, START], map[0 := Up(Entry(0, START))], map[0 := k]);
    var s2 := State([START, START, Flags(true, true)], map[0 := Up(Entry(0, Flags(true, true)))], map[0 := k]);
    RunTwo(s1, Commit(map[Compliance := true]), RefreshFlag(0, Compliance, true));
    assert s1.history + [Flags(true, true)] == s2.history;
    assert s1.instances[0 := s2.instances[0]] == s2.instances;
  }

  lemma TornInstall(k: Call) returns (s: State)
    requires k.instance == 0 && k.flag == ApiKeys && k.phase == ReloadedAll(Entry(1, START))
    ensures Run(State([START, START, Flags(true, true)], map[0 := Up(Entry(0, Flags(true, true)))], map[0 := k]),
                [FinishReload(0), RefreshEpoch(0, 2)]) == Some(s)
    ensures s.history == [START, START, Flags(true, true)] && s.calls.Keys == {0}
    ensures InstanceOf(s, 0) == Up(Entry(2, START))
  {
    hide Runs;
    var s2 := State([START, START, Flags(true, true)], map[0 := Up(Entry(0, Flags(true, true)))], map[0 := k]);
    RunTwo(s2, FinishReload(0), RefreshEpoch(0, 2));
    s := Next(Next(s2, FinishReload(0)), RefreshEpoch(0, 2));
  }

  lemma TornRefreshIsStale()
    ensures StaleRead(AfterSeed(TORN_REFRESH) + CheckSteps(1, 0, Compliance), 1)
  {
    hide Runs, Next, Enabled;
    RunSeed(TORN_REFRESH);
    RunReloadInFlight(map[ApiKeys := true], true);
    var k := Call(0, ApiKeys, 1, true, ReloadedAll(Entry(1, START)));
    var s1 := State([START, START], map[0 := Up(Entry(0, START))], map[0 := k]);
    var write := [Commit(map[Compliance := true]), RefreshFlag(0, Compliance, true)];
    var install := [FinishReload(0), RefreshEpoch(0, 2)];
    TornWrite(k);
    var s := TornInstall(k);
    RunsAppend(Step, s1, write, install);
    RunsAppend(Step, Seeded(), ReloadInFlight(map[ApiKeys := true], true), write + install);
    StaleAfter(s, AfterSeed(TORN_REFRESH), 1, Compliance);
  }

  /** A reload reads the new epoch, fails to read a flag, and installs the default under it. */
  const FAILED_FLAG_READ: seq<Action> := ReloadInFlight(map[ApiKeys := false], false) + [FinishReload(0)]

  lemma FailedFlagReadIsStale()
    ensures StaleRead(AfterSeed(FAILED_FLAG_READ) + CheckSteps(1, 0, ApiKeys), 1)
  {
    hide Runs;
    RunSeed(FAILED_FLAG_READ);
    RunReloadInFlight(map[ApiKeys := false], false);
    var s1 := Run(Seeded(), ReloadInFlight(map[ApiKeys := false], false)).value;
    RunsOne(Step, s1, FinishReload(0));
    RunsAppend(Step, Seeded(), ReloadInFlight(map[ApiKeys := false], false), [FinishReload(0)]);
    StaleAfter(Next(s1, FinishReload(0)), AfterSeed(FAILED_FLAG_READ), 1, ApiKeys);
  }

  /** A commit lands between the flag reads and the epoch read of a starting instance. */
  const SEED_RACE: seq<Action> :=
    [SeedApi(0, true), SeedCompliance(0, true)] + [Commit(map[ApiKeys := false]), SeedEpoch(0, true)]

  lemma SeedRaceIsStale()
    ensures StaleRead(SEED_RACE + CheckSteps(0, 0, ApiKeys), 0)
  {
    hide Runs;
    var s0 := Initial(START);
    RunTwo(s0, SeedApi(0, true), SeedCompliance(0, true));
    var s2 := Next(Next(s0, SeedApi(0, true)), SeedCompliance(0, true));
    RunTwo(s2, Commit(map[ApiKeys := false]), SeedEpoch(0, true));
    RunsAppend(Step, s0, [SeedApi(0, true), SeedCompliance(0, true)],
               [Commit(map[ApiKeys := false]), SeedEpoch(0, true)]);
    StaleAfter(Next(Next(s2, Commit(map[ApiKeys := false])), SeedEpoch(0, true)), SEED_RACE, 0, ApiKeys);
  }

  /** The table has a flag that is not the default, and a starting instance fails to read it. */
  const FAILED_SEED_READ: seq<Action> :=
    [Commit(map[ApiKeys := false]), SeedApi(0, false)] + [SeedCompliance(0, true), SeedEpoch(0, true)]

  lemma FailedSeedReadIsStale()
    ensures StaleRead(FAILED_SEED_READ + CheckSteps(0, 0, ApiKeys), 0)
  {
    hide Runs;
    var s0 := Initial(START);
    RunTwo(s0, Commit(map[ApiKeys := false]), SeedApi(0, false));
    var s2 := Next(Next(s0, Commit(map[ApiKeys := false])), SeedApi(0, false));
    RunTwo(s2, SeedCompliance(0, true), SeedEpoch(0, true));
    RunsAppend(Step, s0, [Commit(map[ApiKeys := false]), SeedApi(0, false)],
               [SeedCompliance(0, true), SeedEpoch(0, true)]);
    StaleAfter(Next(Next(s2, SeedCompliance(0, true)), SeedEpoch(0, true)), FAILED_SEED_READ, 0, ApiKeys);
  }

  /** Two local requests overlap: the first one's flag write comes last, and so does the second one's epoch. */
  const OVERLAP: seq<Action> :=
    [Commit(map[ApiKeys := true]), Commit(map[ApiKeys := false])] +
    ([RefreshFlag(0, ApiKeys, false), RefreshFlag(0, ApiKeys, true)] + [RefreshEpoch(0, 1), RefreshEpoch(0, 2)])

  lemma OverlapIsStale()
    ensures StaleRead(AfterSeed(OVERLAP) + CheckSteps(0, 0, ApiKeys), 0)
  {
    hide Runs;
    RunSeed(OVERLAP);
    var s0 := Seeded();
    RunTwo(s0, Commit(map[ApiKeys := true]), Commit(map[ApiKeys := false]));
    var s2 := s0.(history := [START, START, Flags(false, false)]);
    assert Next(Next(s0, Commit(map[ApiKeys := true])), Commit(map[ApiKeys := false])).history == s2.history;
    RunTwo(s2, RefreshFlag(0, ApiKeys, false), RefreshFlag(0, ApiKeys, true));
    assert Next(Next(s2, RefreshFlag(0, ApiKeys, false)), RefreshFlag(0, ApiKeys, true)).instances == s2.instances;
    OverlapEpochs(s2);
    var flags := [RefreshFlag(0, ApiKeys, false), RefreshFlag(0, ApiKeys, true)];
    var epochs := [RefreshEpoch(0, 1), RefreshEpoch(0, 2)];
    RunsAppend(Step, s2, flags, epochs);
    RunsAppend(Step, s0, [Commit(map[ApiKeys := true]), Commit(map[ApiKeys := false])], flags + epochs);
    StaleAfter(WithInstance(s2, 0, Up(Entry(2, START))), AfterSeed(OVERLAP), 0, ApiKeys);
  }

  lemma OverlapEpochs(s: State)
    requires |s.history| == 3 && InstanceOf(s, 0) == Up(Entry(0, START))
    ensures Run(s, [RefreshEpoch(0, 1), RefreshEpoch(0, 2)]) == Some(WithInstance(s, 0, Up(Entry(2, START))))
  {
    hide Runs;
    RunTwo(s, RefreshEpoch(0, 1), RefreshEpoch(0, 2));
    var t := Next(Next(s, RefreshEpoch(0, 1)), RefreshEpoch(0, 2));
    assert t.instances == s.instances[0 := Up(Entry(2, START))];
  }

  /** A reload has installed a newer commit of a peer when the flag write of an older local request arrives. */
  const OUTDATED: seq<Action> :=
    [Commit(map[ApiKeys := false]), Commit(map[ApiKeys := true])] +
    (LoneCall(0, 0, ApiKeys, true) + [RefreshFlag(0, ApiKeys, false)])

  lemma OutdatedRefreshIsStale()
    ensures StaleRead(AfterSeed(OUTDATED) + CheckSteps(1, 0, ApiKeys), 1)
  {
    hide Runs;
    RunSeed(OUTDATED);
    var s0 := Seeded();
    var commits := [Commit(map[ApiKeys := false]), Commit(map[ApiKeys := true])];
    RunTwo(s0, Commit(map[ApiKeys := false]), Commit(map[ApiKeys := true]));
    var s2 := s0.(history := [START, Flags(false, false), START]);
    assert Next(Next(s0, commits[0]), commits[1]).history == s2.history;
    var s3 := AfterLoneReload(s2, 0, 0, ApiKeys);
    RunsOne(Step, s3, RefreshFlag(0, ApiKeys, false));
    RunsAppend(Step, s2, LoneCall(0, 0, ApiKeys, true), [RefreshFlag(0, ApiKeys, false)]);
    RunsAppend(Step, s0, commits, LoneCall(0, 0, ApiKeys, true) + [RefreshFlag(0, ApiKeys, false)]);
    StaleAfter(Next(s3, RefreshFlag(0, ApiKeys, false)), AfterSeed(OUTDATED), 1, ApiKeys);
  }

  /** A lone call on an entry that is behind installs what the table has. */
  lemma AfterLoneReload(s: State, c: nat, i: nat, f: Flag) returns (t: State)
    requires InstanceOf(s, i).Up? && c !in s.calls && s.instances[i].entry.epoch < Now(s.history)
    ensures Run(s, LoneCall(c, i, f, true)) == Some(t)
    ensures t.history == s.history && t.calls.Keys == s.calls.Keys + {c}
    ensures InstanceOf(t, i) == Up(Entry(Now(s.history), s.history[Now(s.history)]))
  {
    hide Runs;
    CheckAlone(s, c, i, f);
    var s4 := Run(s, CheckSteps(c, i, f)).value;
    LoadAlone(s4, c, true, true);
    var s7 := Run(s4, LoadSteps(c, true, true)).value;
    RunsOne(Step, s7, FinishReload(c));
    t := Next(s7, FinishReload(c));
    RunsAppend(Step, s4, LoadSteps(c, true, true), [FinishReload(c)]);
    RunsAppend(Step, s, CheckSteps(c, i, f), LoadSteps(c, true, true) + [FinishReload(c)]);
  }
}
