/**
 Whole runs of the energy counters: samples, saves cut short anywhere,
 crashes and restarts, in any order. A restart builds a new integrator,
 which loads the persist file when there is one.
 */
module EnergyRuns {
  import opened AtomicFile
  import opened Wrappers
  import opened EnergyIntegrator

  datatype Event =
    | Take(s: Sample)
    | SaveTry(ending: Ending)
    | Crash
    | Boot(readable: bool)

  /** The running integrator's counters, None while there is none, and what
      the persist path holds. */
  datatype Machine = Machine(totals: Option<Totals>, file: Option<Content>)

  predicate Legal(m: Machine, e: Event) {
    e.Boot? <==> m.totals.None?
  }

  /** EnergyIntegrator's methods, one event each. */
  function Step(m: Machine, e: Event): Machine
    requires Legal(m, e)
  {
    match e
    case Take(s) => m.(totals := Some(Integrate(m.totals.value, s)))
    case SaveTry(ending) =>
      Machine(if ending.Stops? then None else m.totals,
              if Commits(ending) then Some(Stored(m.totals.value)) else m.file)
    case Crash => m.(totals := None)
    case Boot(readable) => m.(totals := BootTotals(m.file, readable))
  }

  predicate LegalRun(file: Option<Content>, es: seq<Event>)
    decreases |es|, 0
  {
    es == [] || (LegalRun(file, es[..|es| - 1]) && Legal(Run(file, es[..|es| - 1]), es[|es| - 1]))
  }

  /** From a machine that is off. */
  function Run(file: Option<Content>, es: seq<Event>): Machine
    requires LegalRun(file, es)
    decreases |es|, 1
  {
    if es == [] then Machine(None, file)
    else Step(Run(file, es[..|es| - 1]), es[|es| - 1])
  }

  predicate Committing(e: Event) {
    e.SaveTry? && e.ending.steps >= 5
  }

  // ----- the counters are never negative -----

  lemma IntegrateNonNegative(t: Totals, s: Sample)
    requires NonNegative(t)
    ensures NonNegative(Integrate(t, s))
  {
    hide Gain;
    OneDirection(t, s);
  }

  /** A persist file that loads keeps loading, and the counters stay >= 0. */
  lemma {:induction false} AlwaysLoads(file: Option<Content>, es: seq<Event>)
    requires LegalRun(file, es) && Restored(file).Some?
    ensures Restored(Run(file, es).file).Some?
    ensures Run(file, es).totals.Some? ==> NonNegative(Run(file, es).totals.value)
    decreases |es|
  {
    hide Restored, Stored, Integrate, NonNegative;
    if es == [] {
    } else {
      var m := Run(file, es[..|es| - 1]);
      AlwaysLoads(file, es[..|es| - 1]);
      RestoredNonNegative(m.file);
      ZeroNonNegative();
      if m.totals.Some? {
        SaveLoad(m.totals.value);
        if es[|es| - 1].Take? { IntegrateNonNegative(m.totals.value, es[|es| - 1].s); }
      }
    }
  }

  lemma ZeroNonNegative()
    ensures NonNegative(ZERO)
  {}

  // ----- crash safety -----

  /** At any moment the persist file is the one found at first, or the
      complete counters of the last save that reached its rename. */
  lemma {:induction false} FileIsLastCommit(file: Option<Content>, es: seq<Event>, j: nat)
    requires LegalRun(file, es) && j <= |es|
    requires forall i :: j <= i < |es| ==> !Committing(es[i])
    requires j == 0 || Committing(es[j - 1])
    ensures j == 0 ==> Run(file, es).file == file
    ensures j > 0 ==> LegalRun(file, es[..j - 1]) && Run(file, es[..j - 1]).totals.Some? &&
                      Run(file, es).file == Some(Stored(Run(file, es[..j - 1]).totals.value))
    decreases |es|
  {
    hide Stored, Restored, Integrate;
    if j < |es| {
      var before := es[..|es| - 1];
      assert forall i :: 0 <= i < |before| ==> before[i] == es[i];
      FileIsLastCommit(file, before, j);
      if j > 0 { assert before[..j - 1] == es[..j - 1]; }
    }
  }

  /** However the saves and crashes since then were cut, a restart that can
      read the file comes back with exactly the counters of the last completed
      save. */
  lemma RestartRestores(file: Option<Content>, es: seq<Event>, j: nat)
    requires LegalRun(file, es) && Run(file, es).totals.None? && Restored(file).Some?
    requires j <= |es| && (j == 0 || Committing(es[j - 1]))
    requires forall i :: j <= i < |es| ==> !Committing(es[i])
    ensures LegalRun(file, es + [Boot(true)])
    ensures j > 0 ==> LegalRun(file, es[..j - 1]) &&
                      Run(file, es + [Boot(true)]).totals == Run(file, es[..j - 1]).totals
    ensures j == 0 ==> Run(file, es + [Boot(true)]).totals == Restored(file)
    ensures j == 0 && file == None ==> Run(file, es + [Boot(true)]).totals == Some(ZERO)
  {
    hide Stored, Integrate, NonNegative;
    var restart := es + [Boot(true)];
    assert restart[..|restart| - 1] == es;
    FileIsLastCommit(file, es, j);
    if j > 0 {
      var t := Run(file, es[..j - 1]).totals.value;
      AlwaysLoads(file, es[..j - 1]);
      SaveLoad(t);
    }
  }

  // ----- what a crash costs -----

  /** The samples since the counters and the file last agreed. */
  function SinceSync(es: seq<Event>): seq<Sample> {
    if es == [] then []
    else
      var e := es[|es| - 1];
      if Committing(e) || e.Boot? then []
      else if e.Take? then SinceSync(es[..|es| - 1]) + [e.s]
      else SinceSync(es[..|es| - 1])
  }

  /** The last start could read the file, or a save has completed since. */
  predicate Synced(es: seq<Event>) {
    es != [] &&
    var e := es[|es| - 1];
    Committing(e) || (if e.Boot? then e.readable else Synced(es[..|es| - 1]))
  }

  /** The counters are the file's plus what was taken since, no more, no less. */
  lemma {:induction false} CountersAheadOfFile(file: Option<Content>, es: seq<Event>)
    requires LegalRun(file, es) && Restored(file).Some? && Synced(es)
    requires Run(file, es).totals.Some?
    ensures Restored(Run(file, es).file).Some?
    ensures Run(file, es).totals.value == IntegrateAll(Restored(Run(file, es).file).value, SinceSync(es))
    decreases |es|
  {
    hide Restored, Stored, Integrate, NonNegative;
    AlwaysLoads(file, es);
    var e := es[|es| - 1];
    var before := es[..|es| - 1];
    AlwaysLoads(file, before);
    if Committing(e) {
      CommitLoads(Run(file, before), e);
    } else if !e.Boot? {
      FileKept(Run(file, before), e);
      CountersAheadOfFile(file, before);
      if e.Take? { assert SinceSync(es)[..|SinceSync(es)| - 1] == SinceSync(before); }
    }
  }

  lemma CommitLoads(m: Machine, e: Event)
    requires Legal(m, e) && Committing(e) && NonNegative(m.totals.value)
    ensures Step(m, e).totals.Some? ==> Step(m, e).totals == m.totals
    ensures Restored(Step(m, e).file) == m.totals
  {
    hide Restored, Stored, NonNegative;
    SaveLoad(m.totals.value);
  }

  lemma FileKept(m: Machine, e: Event)
    requires Legal(m, e) && !Committing(e)
    ensures Step(m, e).file == m.file
  {}

  /** After a start that could not read the file, the counters are what was
      taken since. */
  lemma {:induction false} CountersSinceStart(file: Option<Content>, es: seq<Event>)
    requires LegalRun(file, es) && !Synced(es)
    requires Run(file, es).totals.Some?
    requires Restored(file).Some?
    ensures Run(file, es).totals.value == IntegrateAll(ZERO, SinceSync(es))
    decreases |es|
  {
    hide Restored, Stored, Integrate, NonNegative;
    var e := es[|es| - 1];
    var before := es[..|es| - 1];
    AlwaysLoads(file, before);
    if e.Boot? {
      UnreadableTotals(Run(file, before).file);
    } else {
      CountersSinceStart(file, before);
      if e.Take? { assert SinceSync(es)[..|SinceSync(es)| - 1] == SinceSync(before); }
    }
  }

  lemma UnreadableTotals(file: Option<Content>)
    ensures BootTotals(file, false) == Some(ZERO)
  {}

  /** Stopping now loses exactly those samples, so a restart never comes back
      with more than was lost. */
  lemma NothingInvented(file: Option<Content>, es: seq<Event>)
    requires LegalRun(file, es) && Restored(file).Some? && Synced(es)
    requires Run(file, es).totals.Some?
    ensures LegalRun(file, es + [Crash, Boot(true)])
    ensures var lost := Run(file, es).totals.value;
            var back := Run(file, es + [Crash, Boot(true)]).totals;
            && back.Some? && AtMost(back.value, lost)
            && lost == IntegrateAll(back.value, SinceSync(es))
            && lost.batteryIn - lost.batteryOut ==
                 back.value.batteryIn - back.value.batteryOut + Net(BatteryPower, SinceSync(es))
  {
    hide Restored, Stored, Integrate, IntegrateAll, Committing, Synced, SinceSync, Net, AtMost;
    var crashed := es + [Crash];
    var restart := es + [Crash, Boot(true)];
    assert crashed[..|crashed| - 1] == es && restart[..|restart| - 1] == crashed;
    CountersAheadOfFile(file, es);
    var back := Restored(Run(file, es).file).value;
    NeverDecrease(back, SinceSync(es), 0);
    NoSamples(back, SinceSync(es));
    EnergyConserved(back, SinceSync(es));
  }

  lemma NoSamples(t: Totals, samples: seq<Sample>)
    ensures IntegrateAll(t, samples[..0]) == t
  {}

  // ----- a start that cannot read the file -----

  /** A crash now and a restart that can read come back with no more than was
      lost, iff the last start could read the file, or a save has completed
      since, or the samples since that start have caught up with the file. */
  lemma NeverAheadExact(file: Option<Content>, es: seq<Event>)
    requires LegalRun(file, es) && Restored(file).Some?
    requires Run(file, es).totals.Some?
    ensures LegalRun(file, es + [Crash, Boot(true)])
    ensures var lost := Run(file, es).totals.value;
            var back := Run(file, es + [Crash, Boot(true)]).totals;
            && back.Some? && back == Restored(Run(file, es).file)
            && (AtMost(back.value, lost) <==>
                  Synced(es) || AtMost(back.value, IntegrateAll(ZERO, SinceSync(es))))
  {
    hide Restored, Stored, Integrate, IntegrateAll, Committing, Synced, SinceSync, AtMost;
    var crashed := es + [Crash];
    var restart := es + [Crash, Boot(true)];
    assert crashed[..|crashed| - 1] == es && restart[..|restart| - 1] == crashed;
    AlwaysLoads(file, es);
    if Synced(es) {
      NothingInvented(file, es);
    } else {
      CountersSinceStart(file, es);
    }
  }

  /** A start leaves the file ahead of the counters iff it could not read a
      file that holds energy. */
  lemma UnreadableStart(m: Machine, readable: bool)
    requires m.totals.None? && Restored(m.file).Some?
    ensures var up := Step(m, Boot(readable)).totals.value;
            AtMost(Restored(m.file).value, up) <==>
              readable || m.file == None || Restored(m.file) == Some(ZERO)
  {
    RestoredNonNegative(m.file);
    var stored := Restored(m.file).value;
    if AtMost(stored, ZERO) {
      assert forall k: Key :: stored.At(k) <= ZERO.At(k) && ZERO.At(k) <= stored.At(k);
      SameSix(stored, ZERO);
    }
  }

  lemma SameSix(a: Totals, b: Totals)
    requires AtMost(a, b) && AtMost(b, a)
    ensures a == b
  {
    assert a.At(BatteryIn) == b.At(BatteryIn) && a.At(BatteryOut) == b.At(BatteryOut) && a.At(Pv) == b.At(Pv);
    assert a.At(Load) == b.At(Load) && a.At(GridIn) == b.At(GridIn) && a.At(GridOut) == b.At(GridOut);
  }

  /** After such a start a crash can bring back more than was lost. */
  lemma OldCountersReturn()
    ensures var file := Some(Stored(ZERO.(pv := 5.0)));
            var es := [Boot(false), Crash, Boot(true)];
            && LegalRun(file, es) && LegalRun(file, es[..1])
            && Run(file, es[..1]).totals == Some(ZERO)
            && Run(file, es).totals == Some(ZERO.(pv := 5.0))
  {
    hide Stored, Restored, Integrate;
    var t := ZERO.(pv := 5.0);
    var file := Some(Stored(t));
    var es := [Boot(false), Crash, Boot(true)];
    assert es[..2] == [Boot(false), Crash] && es[..2][..1] == es[..1] == [Boot(false)] && es[..1][..0] == [];
    assert LegalRun(file, es[..1][..0]);
    assert LegalRun(file, es[..1]);
    assert LegalRun(file, es[..2]);
    assert NonNegative(t);
    SaveLoad(t);
  }
}
