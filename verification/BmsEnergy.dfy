/**
 The BMS service's two energy counters: the bank power integrated between poll
 cycles, and a file that keeps them across restarts. Arithmetic is exact.
 */
module BmsEnergy {
  import opened AtomicFile
  import opened BankAggregator
  import opened Wrappers

  const SAVE_EVERY := 30.0
  const MAX_GAP := 60.0

  datatype Energy = Energy(inWh: real, outWh: real, lastSample: Option<real>, lastSave: real)

  /** What float() makes of a field of the file. */
  datatype Num = Missing | Number(value: real) | Refused

  datatype EnergyFile = Unusable | Fields(inWh: Num, outWh: Num)

  function Default(n: Num): real
    requires !n.Refused?
  {
    if n.Missing? then 0.0 else n.value
  }

  function Saved(e: Energy): EnergyFile {
    Fields(Number(e.inWh), Number(e.outWh))
  }

  /** The counters after _load_energy_state. The two fields are assigned one
      after the other, so a bad second field leaves the first one loaded; a
      read that fails is caught like bad content. */
  function LoadedOver(inWh: real, outWh: real, file: Option<EnergyFile>, readable: bool): (real, real) {
    if file == None || !readable || file.value.Unusable? || file.value.inWh.Refused? then (inWh, outWh)
    else if file.value.outWh.Refused? then (Default(file.value.inWh), outWh)
    else (Default(file.value.inWh), Default(file.value.outWh))
  }

  /** Each counter is what its own field says, if the fields up to it can be used. */
  lemma LoadedExact(inWh: real, outWh: real, file: Option<EnergyFile>, readable: bool)
    ensures var (i, o) := LoadedOver(inWh, outWh, file, readable);
            if readable && file.Some? && file.value.Fields? then
              && (file.value.inWh.Number? ==> i == file.value.inWh.value)
              && (file.value.inWh.Missing? ==> i == 0.0)
              && (file.value.inWh.Refused? ==> i == inWh && o == outWh)
              && (!file.value.inWh.Refused? && file.value.outWh.Number? ==> o == file.value.outWh.value)
              && (!file.value.inWh.Refused? && file.value.outWh.Missing? ==> o == 0.0)
              && (file.value.outWh.Refused? ==> o == outWh)
            else i == inWh && o == outWh
  {}

  /** The same for a new service, whose counters are zero. */
  function Loaded(file: Option<EnergyFile>, readable: bool): (real, real) {
    LoadedOver(0.0, 0.0, file, readable)
  }

  /** Whether _load_energy_state reports that it starts at zero. */
  predicate LoadFails(file: Option<EnergyFile>, readable: bool) {
    file.Some? && (!readable || file.value.Unusable? || file.value.inWh.Refused? || file.value.outWh.Refused?)
  }

  /** That report is true iff the first field was not loaded or was zero. */
  lemma FailedLoadIsZero(file: Option<EnergyFile>, readable: bool)
    requires LoadFails(file, readable)
    ensures Loaded(file, readable) == (0.0, 0.0) <==>
              !readable || file.value.Unusable? || file.value.inWh.Refused? || Default(file.value.inWh) == 0.0
  {}

  /** A file for which the report is wrong. */
  lemma FailedLoadKeepsEnergy()
    ensures var file := Some(Fields(Number(5.0), Refused));
            LoadFails(file, true) && Loaded(file, true) == (5.0, 0.0)
  {}

  // ----- integration -----

  /** Energy of a power over a stretch of seconds. */
  function OverSeconds(power: real, seconds: real): real {
    power * (seconds / 3600.0)
  }

  /** The stretch is counted: there is bank data and the gap is plausible. */
  predicate Counted(e: Energy, bank: Option<Bank>, now: real) {
    && e.lastSample.Some? && bank.Some?
    && 0.0 < now - e.lastSample.value < MAX_GAP
  }

  predicate SaveDue(e: Energy, bank: Option<Bank>, now: real) {
    e.lastSample.Some? && bank.Some? && now - e.lastSave >= SAVE_EVERY
  }

  function Integrated(e: Energy, bank: Option<Bank>, now: real): Energy {
    Energy(
      if Counted(e, bank, now)
      then e.inWh + OverSeconds(bank.value.powerCharging, now - e.lastSample.value) else e.inWh,
      if Counted(e, bank, now)
      then e.outWh + OverSeconds(bank.value.powerDischarging, now - e.lastSample.value) else e.outWh,
      Some(now),
      if SaveDue(e, bank, now) then now else e.lastSave)
  }

  // ----- a process's samples -----

  datatype Cycle = Cycle(packs: seq<Pack>, now: real)

  function After(e: Energy, cycles: seq<Cycle>): Energy {
    if cycles == [] then e
    else
      var c := cycles[|cycles| - 1];
      Integrated(After(e, cycles[..|cycles| - 1]), Aggregate(c.packs), c.now)
  }

  /** The bank's signed power, integrated over the gaps that count. */
  function NetWh(cycles: seq<Cycle>): real {
    if cycles == [] then 0.0
    else
      var n := |cycles| - 1;
      NetWh(cycles[..n]) +
      if n > 0 then Share(Aggregate(cycles[n].packs), cycles[n].now - cycles[n - 1].now) else 0.0
  }

  /** A bank's power over the seconds since the last sample; gaps of a minute
      and more are left out. */
  function Share(bank: Option<Bank>, seconds: real): real {
    if bank.Some? && 0.0 < seconds < 60.0 then bank.value.power * (seconds / 3600.0) else 0.0
  }

  lemma ShareIs(e: Energy, bank: Option<Bank>, now: real)
    requires e.lastSample.Some?
    ensures Counted(e, bank, now) ==> Share(bank, now - e.lastSample.value) ==
                                        OverSeconds(bank.value.power, now - e.lastSample.value)
    ensures !Counted(e, bank, now) ==> Share(bank, now - e.lastSample.value) == 0.0
  {}

  lemma Parts(charging: real, discharging: real, power: real, seconds: real)
    requires charging - discharging == power && charging >= 0.0 && discharging >= 0.0 && seconds > 0.0
    ensures OverSeconds(charging, seconds) - OverSeconds(discharging, seconds) == OverSeconds(power, seconds)
    ensures OverSeconds(charging, seconds) >= 0.0 && OverSeconds(discharging, seconds) >= 0.0
    ensures charging == 0.0 ==> OverSeconds(charging, seconds) == 0.0
    ensures discharging == 0.0 ==> OverSeconds(discharging, seconds) == 0.0
  {}

  /** One cycle never takes energy away and moves at most one counter. */
  lemma CycleGrows(e: Energy, packs: seq<Pack>, now: real)
    ensures var f := Integrated(e, Aggregate(packs), now);
            && e.inWh <= f.inWh && e.outWh <= f.outWh
            && (f.inWh == e.inWh || f.outWh == e.outWh)
            && f.inWh - f.outWh == e.inWh - e.outWh +
                 (if e.lastSample.Some? then Share(Aggregate(packs), now - e.lastSample.value) else 0.0)
  {
    hide Aggregate, OverSeconds, Share;
    HasBank(packs);
    if e.lastSample.Some? { ShareIs(e, Aggregate(packs), now); }
    if Counted(e, Aggregate(packs), now) {
      SplitsAddUp(packs);
      var b := Aggregate(packs).value;
      Parts(b.powerCharging, b.powerDischarging, b.power, now - e.lastSample.value);
    }
  }

  lemma HasBank(packs: seq<Pack>)
    ensures Aggregate(packs).Some? <==> packs != []
  {}

  /** in - out moves by the integral of the bank power, both only grow. */
  lemma {:induction false} BankEnergyConserved(e: Energy, cycles: seq<Cycle>, n: nat)
    requires e.lastSample == None && n <= |cycles|
    ensures var f := After(e, cycles);
            && f.inWh - f.outWh == e.inWh - e.outWh + NetWh(cycles)
            && After(e, cycles[..n]).inWh <= f.inWh && After(e, cycles[..n]).outWh <= f.outWh
            && (f.lastSample == if cycles == [] then None else Some(cycles[|cycles| - 1].now))
    decreases |cycles|
  {
    hide Aggregate, Integrated, Share;
    if n == |cycles| { assert cycles[..n] == cycles; }
    if cycles == [] {
    } else {
      var before := cycles[..|cycles| - 1];
      var c := cycles[|cycles| - 1];
      var m := if n == |cycles| then 0 else n;
      BankEnergyConserved(e, before, m);
      if n < |cycles| { assert before[..n] == cycles[..n]; }
      HasBank(c.packs);
      CycleGrows(After(e, before), c.packs, c.now);
      SampleTime(After(e, before), Aggregate(c.packs), c.now);
    }
  }

  lemma SampleTime(e: Energy, bank: Option<Bank>, now: real)
    ensures Integrated(e, bank, now).lastSample == Some(now)
    ensures Integrated(e, bank, now).lastSave ==
              if e.lastSample.Some? && bank.Some? && now - e.lastSave >= 30.0 then now else e.lastSave
  {}

  /** A cycle saves iff it has bank data, is not the process's first, and the
      last save is thirty seconds or more in the past. */
  lemma SavesApart(e: Energy, cycles: seq<Cycle>)
    requires cycles != [] && e.lastSample == None
    ensures var before, c := After(e, cycles[..|cycles| - 1]), cycles[|cycles| - 1];
            After(e, cycles).lastSave ==
              if |cycles| > 1 && c.packs != [] && c.now - before.lastSave >= 30.0 then c.now else before.lastSave
  {
    hide Aggregate, Integrated;
    var before, c := cycles[..|cycles| - 1], cycles[|cycles| - 1];
    BankEnergyConserved(e, before, 0);
    HasBank(c.packs);
    SampleTime(After(e, before), Aggregate(c.packs), c.now);
  }

  /** A cycle with bank data, other than a process's first, never ends with
      the last save thirty seconds or more in the past. */
  lemma SavedRecently(e: Energy, cycles: seq<Cycle>)
    requires |cycles| > 1 && e.lastSample == None && cycles[|cycles| - 1].packs != []
    ensures cycles[|cycles| - 1].now - After(e, cycles).lastSave < 30.0
  {
    hide After;
    SavesApart(e, cycles);
  }

  // ----- runs with crashes -----

  /** `ending` is how the save went, if the cycle makes one. */
  datatype Event =
    | Sample(cycle: Cycle, ending: Ending)
    | Stop(ending: Ending)
    | Crash
    | Start(now: real, readable: bool)

  datatype Machine = Machine(energy: Option<Energy>, file: Option<EnergyFile>)

  predicate Legal(m: Machine, e: Event) {
    e.Start? <==> m.energy.None?
  }

  function SaveTo(m: Machine, ending: Ending): Machine
    requires m.energy.Some?
  {
    Machine(if ending.Stops? then None else m.energy,
            if Commits(ending) then Some(Saved(m.energy.value)) else m.file)
  }

  function Step(m: Machine, e: Event): Machine
    requires Legal(m, e)
  {
    match e
    case Sample(c, ending) =>
      var grown := m.(energy := Some(Integrated(m.energy.value, Aggregate(c.packs), c.now)));
      if SaveDue(m.energy.value, Aggregate(c.packs), c.now) then SaveTo(grown, ending) else grown
    case Stop(ending) => SaveTo(m, ending).(energy := None)
    case Crash => m.(energy := None)
    case Start(now, readable) =>
      m.(energy := Some(Energy(Loaded(m.file, readable).0, Loaded(m.file, readable).1, None, now)))
  }

  predicate LegalRun(file: Option<EnergyFile>, es: seq<Event>)
    decreases |es|, 0
  {
    es == [] || (LegalRun(file, es[..|es| - 1]) && Legal(Run(file, es[..|es| - 1]), es[|es| - 1]))
  }

  function Run(file: Option<EnergyFile>, es: seq<Event>): Machine
    requires LegalRun(file, es)
    decreases |es|, 1
  {
    if es == [] then Machine(None, file) else Step(Run(file, es[..|es| - 1]), es[|es| - 1])
  }

  // ----- exactly the last completed save -----

  predicate Saves(m: Machine, e: Event) {
    && m.energy.Some?
    && ((e.Stop? && Commits(e.ending)) ||
        (e.Sample? && SaveDue(m.energy.value, Aggregate(e.cycle.packs), e.cycle.now) && Commits(e.ending)))
  }

  /** The counters at the moment of a save: a cycle's own energy is in it. */
  function AtSave(m: Machine, e: Event): Energy
    requires Saves(m, e)
  {
    if e.Stop? then m.energy.value else Integrated(m.energy.value, Aggregate(e.cycle.packs), e.cycle.now)
  }

  predicate NoSaveSince(file: Option<EnergyFile>, es: seq<Event>, j: nat) {
    forall i :: j <= i < |es| ==> LegalRun(file, es[..i]) && !Saves(Run(file, es[..i]), es[i])
  }

  lemma FileStep(m: Machine, e: Event)
    requires Legal(m, e)
    ensures Saves(m, e) ==> Loaded(Step(m, e).file, true) == (AtSave(m, e).inWh, AtSave(m, e).outWh)
    ensures !Saves(m, e) ==> Step(m, e).file == m.file
  {
    hide Aggregate, Integrated;
  }

  function FieldsOf(e: Energy): EnergyFile {
    Fields(Number(e.inWh), Number(e.outWh))
  }

  predicate DueNow(e: Energy, c: Cycle) {
    e.lastSample.Some? && c.packs != [] && c.now - e.lastSave >= 30.0
  }

  /** A save that completes all five operations writes the counters as they
      are then, any other leaves the file; when a cycle makes one. */
  lemma FileExact(m: Machine, e: Event)
    requires Legal(m, e)
    ensures e.Sample? && DueNow(m.energy.value, e.cycle) && e.ending.steps >= 5 ==>
              Step(m, e).file == Some(FieldsOf(Integrated(m.energy.value, Aggregate(e.cycle.packs), e.cycle.now)))
    ensures e.Sample? && !(DueNow(m.energy.value, e.cycle) && e.ending.steps >= 5) ==> Step(m, e).file == m.file
    ensures e.Stop? && e.ending.steps >= 5 ==> Step(m, e).file == Some(FieldsOf(m.energy.value))
    ensures e.Stop? && e.ending.steps < 5 ==> Step(m, e).file == m.file
    ensures e.Crash? || e.Start? ==> Step(m, e).file == m.file
  {
    hide Integrated, Aggregate;
    if e.Sample? { HasBank(e.cycle.packs); }
  }

  /** A service that was down comes back with the counters of the last save
      that reached its rename, whatever was cut short since. */
  lemma {:induction false} LastSaveKept(file: Option<EnergyFile>, es: seq<Event>, j: nat)
    requires LegalRun(file, es) && 0 < j <= |es| && LegalRun(file, es[..j - 1])
    requires Saves(Run(file, es[..j - 1]), es[j - 1]) && NoSaveSince(file, es, j)
    ensures var saved := AtSave(Run(file, es[..j - 1]), es[j - 1]);
            Loaded(Run(file, es).file, true) == (saved.inWh, saved.outWh)
    decreases |es|
  {
    hide Aggregate, Integrated, Saves, AtSave, Loaded, Step;
    var before := es[..|es| - 1];
    FileStep(Run(file, before), es[|es| - 1]);
    if j < |es| {
      assert before[..j - 1] == es[..j - 1];
      assert forall i :: j <= i < |before| ==> before[..i] == es[..i];
      LastSaveKept(file, before, j);
    }
  }

  // ----- what a restart brings back -----

  /** The last start could read the file, or a save has completed since. */
  predicate Synced(file: Option<EnergyFile>, es: seq<Event>)
    requires LegalRun(file, es)
    decreases |es|
  {
    es != [] &&
    var e, before := es[|es| - 1], es[..|es| - 1];
    Saves(Run(file, before), e) || (if e.Start? then e.readable else Synced(file, before))
  }

  /** The cycles since the last start, and its time. */
  function CyclesSince(es: seq<Event>): seq<Cycle> {
    if es == [] || es[|es| - 1].Start? then []
    else
      var e, since := es[|es| - 1], CyclesSince(es[..|es| - 1]);
      if e.Sample? then since + [e.cycle] else since
  }

  function StartTime(es: seq<Event>): real {
    if es == [] then 0.0
    else if es[|es| - 1].Start? then es[|es| - 1].now
    else StartTime(es[..|es| - 1])
  }

  /** What a start from zero would have by now. */
  function FromZero(es: seq<Event>): Energy {
    After(Energy(0.0, 0.0, None, StartTime(es)), CyclesSince(es))
  }

  /** The file promises no more than there is. */
  predicate Covered(file: Option<EnergyFile>, e: Energy) {
    Loaded(file, true).0 <= e.inWh && Loaded(file, true).1 <= e.outWh
  }

  lemma CoveredStep(m: Machine, e: Event)
    requires Legal(m, e) && Step(m, e).energy.Some?
    requires Saves(m, e) || (e.Start? && e.readable) || (m.energy.Some? && Covered(m.file, m.energy.value))
    ensures Covered(Step(m, e).file, Step(m, e).energy.value)
  {
    hide Aggregate, Integrated;
    if e.Sample? { CycleGrows(m.energy.value, e.cycle.packs, e.cycle.now); }
  }

  lemma {:induction false} SyncedCovers(file: Option<EnergyFile>, es: seq<Event>)
    requires LegalRun(file, es) && Synced(file, es) && Run(file, es).energy.Some?
    ensures Covered(Run(file, es).file, Run(file, es).energy.value)
    decreases |es|
  {
    hide Covered, Saves, Integrated, Loaded, Aggregate, SaveTo, SaveDue;
    var e, before := es[|es| - 1], es[..|es| - 1];
    if !Saves(Run(file, before), e) && !e.Start? { SyncedCovers(file, before); }
    CoveredStep(Run(file, before), e);
  }

  lemma StepFromZero(m: Machine, e: Event)
    requires Legal(m, e) && Step(m, e).energy.Some?
    ensures e.Start? && !e.readable ==> Step(m, e).energy.value == Energy(0.0, 0.0, None, e.now)
    ensures e.Sample? ==> Step(m, e).energy.value == Integrated(m.energy.value, Aggregate(e.cycle.packs), e.cycle.now)
    ensures e.Start? || e.Sample?
  {
    hide Aggregate, Integrated;
  }

  lemma {:induction false} UnsyncedFromZero(file: Option<EnergyFile>, es: seq<Event>)
    requires LegalRun(file, es) && !Synced(file, es) && Run(file, es).energy.Some?
    ensures Run(file, es).energy.value == FromZero(es)
    decreases |es|
  {
    hide Saves, Integrated, Loaded, Aggregate, SaveTo, SaveDue, Step;
    var e, before := es[|es| - 1], es[..|es| - 1];
    StepFromZero(Run(file, before), e);
    if e.Sample? {
      UnsyncedFromZero(file, before);
      assert CyclesSince(es)[..|CyclesSince(es)| - 1] == CyclesSince(before);
    }
  }

  /** Whenever the service dies, a restart that can read brings back no more
      than there was, iff the last start could read the file, or a save has
      completed since, or the cycles since that start have caught up with the
      file. After a stop whose save completed it brings back exactly that. */
  lemma RestartExact(file: Option<EnergyFile>, es: seq<Event>, down: Event, now: real)
    requires LegalRun(file, es) && Run(file, es).energy.Some?
    requires down == Crash || down.Stop?
    ensures LegalRun(file, es + [down, Start(now, true)])
    ensures var was, back := Run(file, es).energy.value, Run(file, es + [down, Start(now, true)]).energy;
            && back.Some?
            && (down.Stop? && Commits(down.ending) ==> back.value.inWh == was.inWh && back.value.outWh == was.outWh)
            && (back.value.inWh <= was.inWh && back.value.outWh <= was.outWh <==>
                  || (down.Stop? && Commits(down.ending))
                  || Synced(file, es)
                  || Covered(Run(file, es).file, FromZero(es)))
  {
    hide Integrated, Aggregate, Synced, FromZero, Loaded, LegalRun, Run;
    TwoMore(file, es, down, Start(now, true));
    if Synced(file, es) {
      SyncedCovers(file, es);
    } else {
      UnsyncedFromZero(file, es);
    }
    if down.Stop? && Commits(down.ending) { SavedLoads(Run(file, es).energy.value); }
  }

  lemma SavedLoads(e: Energy)
    ensures Loaded(Some(Saved(e)), true) == (e.inWh, e.outWh)
  {}

  lemma TwoMore(file: Option<EnergyFile>, es: seq<Event>, d: Event, e: Event)
    requires LegalRun(file, es) && Legal(Run(file, es), d) && Legal(Step(Run(file, es), d), e)
    ensures LegalRun(file, es + [d, e])
    ensures Run(file, es + [d, e]) == Step(Step(Run(file, es), d), e)
  {
    hide Step, Legal;
    assert (es + [d])[..|es|] == es && (es + [d, e])[..|es| + 1] == es + [d];
    assert LegalRun(file, es + [d]);
  }

  /** A start that fails to read, a crash, a start that reads: nothing was
      lost and the old counters are back. */
  lemma OldEnergyReturns()
    ensures var file := Some(Fields(Number(1000.0), Number(0.0)));
            var es := [Start(0.0, false)];
            && LegalRun(file, es) && Run(file, es).energy == Some(Energy(0.0, 0.0, None, 0.0))
            && LegalRun(file, es + [Crash, Start(1.0, true)])
            && Run(file, es + [Crash, Start(1.0, true)]).energy == Some(Energy(1000.0, 0.0, None, 1.0))
  {
    var file := Some(Fields(Number(1000.0), Number(0.0)));
    var es := [Start(0.0, false)];
    assert es[..0] == [] && LegalRun(file, []);
    assert Run(file, es) == Step(Run(file, []), es[0]);
    TwoMore(file, es, Crash, Start(1.0, true));
  }
}
