/**
 What holds of every run of the BLE poll loop and of the reconnect loop.
 */
module BmsRuns {
  import opened Wrappers
  import opened BankAggregator
  import opened BmsTrace
  import opened Powers
  import opened Service = BmsService
  import Energy = BmsEnergy
  import Files = AtomicFile

  // ----- the zombie-link watchdog -----

  /** Start of the last PIB round before a turn; zero before the first. */
  function LastSlow(cfg: Config, cycles: seq<Cycle>, k: nat): real
    requires k <= |cycles|
  {
    if k == 0 then 0.0
    else if cycles[k - 1].start - LastSlow(cfg, cycles, k - 1) >= cfg.slowInterval then cycles[k - 1].start
    else LastSlow(cfg, cycles, k - 1)
  }

  function RoundsAt(cfg: Config, cycles: seq<Cycle>, k: nat): Round
    requires k < |cycles|
  {
    Rounds(cfg, cycles[k], LastSlow(cfg, cycles, k))
  }

  /** Turns from..to all finished their rounds without a single answer. */
  predicate Silent(cfg: Config, cycles: seq<Cycle>, from: int, to: nat) {
    0 <= from <= to <= |cycles| &&
    forall k: nat :: from <= k < to ==> RoundsAt(cfg, cycles, k).answered == 0
  }

  function Patience(cfg: Config): nat {
    if cfg.maxFailedCycles < 1 then 1 else cfg.maxFailedCycles
  }

  /** The watchdog's condition after k finished turns. */
  predicate Hopeless(cfg: Config, cycles: seq<Cycle>, k: nat) {
    Silent(cfg, cycles, k - Patience(cfg), k)
  }

  /** The loop's counter: the silent turns just before turn k. */
  predicate Counter(cfg: Config, cycles: seq<Cycle>, k: nat, failed: nat) {
    && k <= |cycles| && Silent(cfg, cycles, k - failed, k)
    && (failed < k ==> RoundsAt(cfg, cycles, k - failed - 1).answered > 0)
  }

  lemma CounterNext(cfg: Config, cycles: seq<Cycle>, k: nat, failed: nat)
    requires k < |cycles| && Counter(cfg, cycles, k, failed)
    ensures Counter(cfg, cycles, k + 1, if RoundsAt(cfg, cycles, k).answered == 0 then failed + 1 else 0)
  {
    hide RoundsAt;
  }

  lemma CounterDecides(cfg: Config, cycles: seq<Cycle>, k: nat, failed: nat)
    requires Counter(cfg, cycles, k, failed)
    ensures Hopeless(cfg, cycles, k) <==> failed > 0 && failed >= cfg.maxFailedCycles
  {
    hide RoundsAt;
    if failed < k {
      var j: nat := k - failed - 1;
      assert RoundsAt(cfg, cycles, j).answered > 0;
    }
  }

  lemma TurnAt(cfg: Config, cycles: seq<Cycle>, k: nat)
    requires k < |cycles|
    ensures RoundsAt(cfg, cycles, k) == Rounds(cfg, cycles[k], LastSlow(cfg, cycles, k))
    ensures LastSlow(cfg, cycles, k + 1) ==
              if cycles[k].start - LastSlow(cfg, cycles, k) >= cfg.slowInterval then cycles[k].start
              else LastSlow(cfg, cycles, k)
  {}

  /** What k finished turns book: their answers, then their check. */
  function History(cfg: Config, cycles: seq<Cycle>, k: nat): seq<Event>
    requires k <= |cycles|
  {
    if k == 0 then []
    else History(cfg, cycles, k - 1) + RoundsAt(cfg, cycles, k - 1).events + [Checked(cycles[k - 1].checked)]
  }

  /** The stop event cuts a wait short, and only a turn that was short waits. */
  predicate Cut(cfg: Config, c: Cycle) {
    c.stopInWait && c.end - c.start < cfg.fastInterval
  }

  /** The first k turns are run to their end, and the loop goes on. */
  predicate GoesOn(cfg: Config, cycles: seq<Cycle>, k: nat) {
    && k <= |cycles| && (forall j: nat :: j <= k ==> !Hopeless(cfg, cycles, j))
    && (forall j: nat :: j < k ==> RoundsAt(cfg, cycles, j).exit == None && !Cut(cfg, cycles[j]))
  }

  /** The only ways to leave the loop, each with what was booked until then. */
  predicate Ends(cfg: Config, cycles: seq<Cycle>, trace: seq<Event>, o: Outcome) {
    || (&& o.exit == Zombie && 0 < o.completed <= |cycles| && GoesOn(cfg, cycles, o.completed - 1)
        && RoundsAt(cfg, cycles, o.completed - 1).exit == None && Hopeless(cfg, cycles, o.completed)
        && o.trace == trace + History(cfg, cycles, o.completed - 1) + RoundsAt(cfg, cycles, o.completed - 1).events)
    || (&& o.exit == StopRequested && 0 < o.completed <= |cycles| && GoesOn(cfg, cycles, o.completed - 1)
        && RoundsAt(cfg, cycles, o.completed - 1).exit == None && !Hopeless(cfg, cycles, o.completed)
        && Cut(cfg, cycles[o.completed - 1]) && o.trace == trace + History(cfg, cycles, o.completed))
    || (&& o.exit != Zombie && o.completed < |cycles| && GoesOn(cfg, cycles, o.completed)
        && RoundsAt(cfg, cycles, o.completed).exit == Some(o.exit)
        && o.trace == trace + History(cfg, cycles, o.completed) + RoundsAt(cfg, cycles, o.completed).events)
    || (&& o.exit == Escaped && o.completed == |cycles| && GoesOn(cfg, cycles, o.completed)
        && o.trace == trace + History(cfg, cycles, o.completed))
  }

  lemma GoesOnNext(cfg: Config, cycles: seq<Cycle>, k: nat)
    requires k < |cycles| && GoesOn(cfg, cycles, k)
    ensures GoesOn(cfg, cycles, k + 1) <==>
              RoundsAt(cfg, cycles, k).exit == None && !Hopeless(cfg, cycles, k + 1) && !Cut(cfg, cycles[k])
  {
    hide RoundsAt, Hopeless, Cut;
  }

  lemma HistoryNext(cfg: Config, cycles: seq<Cycle>, k: nat, trace: seq<Event>)
    requires k < |cycles|
    ensures trace + History(cfg, cycles, k + 1) ==
            trace + History(cfg, cycles, k) + RoundsAt(cfg, cycles, k).events + [Checked(cycles[k].checked)]
  {
    hide RoundsAt;
  }

  lemma {:induction false} LoopFrom(cfg: Config, cycles: seq<Cycle>, k: nat, so: Progress, trace: seq<Event>)
    requires GoesOn(cfg, cycles, k) && so.completed == k && so.lastSlow == LastSlow(cfg, cycles, k)
    requires Counter(cfg, cycles, k, so.failed) && so.trace == trace + History(cfg, cycles, k)
    ensures Ends(cfg, cycles, trace, Loop(cfg, cycles[k..], so))
    decreases |cycles| - k
  {
    hide Rounds, BankAt, Service.Integrated, Hopeless, Counter, RoundsAt, LastSlow, Patience, GoesOn, Cut, History;
    Within(cfg, cycles, k);
    if k < |cycles| {
      var c := cycles[k];
      TurnAt(cfg, cycles, k);
      LoopNext(cfg, cycles, k, so);
      CounterNext(cfg, cycles, k, so.failed);
      RoundsExit(cfg, c, so.lastSlow);
      GoesOnNext(cfg, cycles, k);
      HistoryNext(cfg, cycles, k, trace);
      CutSaid(cfg, c);
      var r := RoundsAt(cfg, cycles, k);
      if r.exit == None {
        var failed := if r.answered == 0 then so.failed + 1 else 0;
        CounterDecides(cfg, cycles, k + 1, failed);
        if !(failed > 0 && failed >= cfg.maxFailedCycles) && !(c.end - c.start < cfg.fastInterval && c.stopInWait) {
          var checked := so.trace + r.events + [Checked(c.checked)];
          var next := Progress(
            if SlowDue(cfg, c, so.lastSlow) then c.start else so.lastSlow, failed, so.completed + 1, checked,
            Service.Integrated(
              so.store, BankAt(cfg.staleTimeout, checked, c.checked, cfg.packCount), c.sampled, c.save));
          LoopFrom(cfg, cycles, k + 1, next, trace);
        }
      }
    } else {
      LoopDone(cfg, so);
      assert cycles[k..] == [];
    }
  }

  lemma Within(cfg: Config, cycles: seq<Cycle>, k: nat)
    requires GoesOn(cfg, cycles, k)
    ensures k <= |cycles|
  {}

  lemma CutSaid(cfg: Config, c: Cycle)
    ensures Cut(cfg, c) <==> c.stopInWait && c.end - c.start < cfg.fastInterval
  {}

  lemma RoundsExit(cfg: Config, c: Cycle, lastSlow: real)
    ensures Rounds(cfg, c, lastSlow).exit != Some(Zombie)
  {
    PiaExit(c.pia);
    PibExit(c.pib);
  }

  lemma {:induction false} PiaExit(polls: seq<Poll<Pack>>)
    ensures PiaRound(polls).exit != Some(Zombie)
    decreases |polls|
  {
    if polls == [] {
    } else {
      PiaExit(polls[..|polls| - 1]);
    }
  }

  lemma {:induction false} PibExit(polls: seq<Poll<Temps>>)
    ensures PibRound(polls).exit != Some(Zombie)
    decreases |polls|
  {
    if polls == [] {
    } else {
      PibExit(polls[..|polls| - 1]);
    }
  }

  /** The loop gives the link up after the first turn that makes Patience
      silent turns in a row, and only then; every turn before it did finish. */
  lemma Watchdog(cfg: Config, cycles: seq<Cycle>, trace: seq<Event>, store: Store)
    ensures var o := Loop(cfg, cycles, Starting(trace, store));
            && Ends(cfg, cycles, trace, o) && o.completed <= |cycles|
            && (forall j: nat :: j < o.completed ==> !Hopeless(cfg, cycles, j))
            && (forall j: nat :: j < o.completed ==> RoundsAt(cfg, cycles, j).exit == None)
            && (o.exit == Zombie <==> Hopeless(cfg, cycles, o.completed))
  {
    hide Loop, RoundsAt, Hopeless, Cut;
    AtFirst(cfg, cycles);
    assert cycles[0..] == cycles && trace + [] == trace;
    LoopFrom(cfg, cycles, 0, Starting(trace, store), trace);
  }

  lemma AtFirst(cfg: Config, cycles: seq<Cycle>)
    ensures GoesOn(cfg, cycles, 0) && Counter(cfg, cycles, 0, 0)
    ensures LastSlow(cfg, cycles, 0) == 0.0 && History(cfg, cycles, 0) == []
  {}

  /** A link on which every turn finishes and nothing answers is given up after
      exactly Patience turns. */
  lemma DeadLinkGivenUp(cfg: Config, cycles: seq<Cycle>, trace: seq<Event>, store: Store)
    requires |cycles| >= Patience(cfg)
    requires forall k: nat :: k < |cycles| ==>
               RoundsAt(cfg, cycles, k).exit == None && RoundsAt(cfg, cycles, k).answered == 0 && !cycles[k].stopInWait
    ensures var o := Loop(cfg, cycles, Starting(trace, store));
            o.exit == Zombie && o.completed == Patience(cfg)
  {
    hide Loop, RoundsAt, History;
    Watchdog(cfg, cycles, trace, store);
    var o := Loop(cfg, cycles, Starting(trace, store));
    assert Hopeless(cfg, cycles, Patience(cfg));
    assert o.completed < |cycles| ==> RoundsAt(cfg, cycles, o.completed).exit == None;
  }

  // ----- back-off -----

  function Doubled(x: real, times: nat): real {
    x * Pow2(times)
  }

  lemma DoubledOnce(x: real, k: nat)
    ensures Doubled(x, 0) == x
    ensures k > 0 ==> Doubled(x, k) == 2.0 * Doubled(x, k - 1)
  {}

  function Least(x: real, y: real): real {
    if x <= y then x else y
  }

  /** The wait is min(initial * 2^k, max), except that the first one is not cut. */
  lemma {:induction false} BackoffExact(cfg: Config, k: nat)
    requires cfg.maxBackoff >= 0.0
    ensures Backoff(cfg, k) == Least(Doubled(cfg.initialBackoff, k), cfg.maxBackoff) <==>
              k > 0 || cfg.initialBackoff <= cfg.maxBackoff
    ensures k == 0 ==> Backoff(cfg, k) == cfg.initialBackoff
  {
    hide Doubled;
    DoubledOnce(cfg.initialBackoff, k);
    if k == 0 {
    } else {
      BackoffExact(cfg, k - 1);
    }
  }

  /** `i` comes after exactly k failed attempts in a row, and nothing else or a
      connected attempt before them. */
  predicate FailedBefore(attempts: seq<Attempt>, i: nat, k: nat) {
    && k <= i < |attempts|
    && (forall j :: i - k <= j < i ==> !attempts[j].connects)
    && (k < i ==> attempts[i - k - 1].connects)
  }

  /** How many failed attempts in a row stand behind a wait: a link that came
      up and was lost counts like one more. */
  lemma {:induction false} StreakExact(attempts: seq<Attempt>, i: nat, k: nat)
    requires FailedBefore(attempts, i, k) && !attempts[i].connects
    ensures Streak(attempts, i) == if k == i then k else k + 1
    decreases i
  {
    if k == 0 {
    } else {
      StreakExact(attempts, i - 1, k - 1);
    }
  }

  // ----- counters -----

  function SumTally(byPack: map<int, nat>, n: nat): nat {
    if n == 0 then 0 else SumTally(byPack, n - 1) + Tally(byPack, n)
  }

  lemma {:induction false} SumTallyIs(byPack: map<int, nat>, trace: seq<Event>, n: nat)
    requires forall pack :: Tally(byPack, pack) == AnswersOf(pack, trace)
    ensures SumTally(byPack, n) == SumOf(trace, n)
  {
    if n == 0 {
    } else {
      SumTallyIs(byPack, trace, n - 1);
    }
  }

  /** In a valid service the total is the sum of the packs' counters, and no
      pack's PIA counter passes its counter of answers. */
  lemma TotalsAgree(total: nat, byPack: map<int, nat>, pias: map<int, nat>, trace: seq<Event>, n: nat)
    requires Counts(total, byPack, pias, trace) && InRange(trace, n)
    ensures total == SumTally(byPack, n)
    ensures forall pack :: Tally(pias, pack) <= Tally(byPack, pack)
  {
    hide Answers, AnswersOf, PiasOf, SumOf, SumTally;
    CountersAddUp(trace, n);
    SumTallyIs(byPack, trace, n);
  }

  // ----- energy -----

  /** What the first turn leaves for the next one, when there is one. */
  function Next(cfg: Config, c: Cycle, so: Progress): Progress {
    var r := Rounds(cfg, c, so.lastSlow);
    var checked := so.trace + r.events + [Checked(c.checked)];
    Progress(
      if SlowDue(cfg, c, so.lastSlow) then c.start else so.lastSlow,
      if r.answered == 0 then so.failed + 1 else 0, so.completed + 1, checked,
      Service.Integrated(so.store, BankAt(cfg.staleTimeout, checked, c.checked, cfg.packCount), c.sampled, c.save))
  }

  /** The turn closes with a bank; otherwise the loop is left before that. */
  predicate Closes(cfg: Config, c: Cycle, so: Progress) {
    Rounds(cfg, c, so.lastSlow).exit == None &&
    !(Next(cfg, c, so).failed > 0 && Next(cfg, c, so).failed >= cfg.maxFailedCycles)
  }

  lemma LoopTurns(cfg: Config, cycles: seq<Cycle>, so: Progress)
    requires cycles != []
    ensures var o := Loop(cfg, cycles, so);
            && (!Closes(cfg, cycles[0], so) ==>
                  o.trace == so.trace + Rounds(cfg, cycles[0], so.lastSlow).events && o.store == so.store)
            && (Closes(cfg, cycles[0], so) ==>
                  || (o.trace == Next(cfg, cycles[0], so).trace && o.store == Next(cfg, cycles[0], so).store)
                  || o == Loop(cfg, cycles[1..], Next(cfg, cycles[0], so)))
  {
    hide Rounds, BankAt, Service.Integrated;
  }

  lemma {:induction false} LoopExtends(cfg: Config, cycles: seq<Cycle>, so: Progress)
    ensures so.trace <= Loop(cfg, cycles, so).trace
    decreases |cycles|
  {
    hide Loop, Rounds, Closes, BankAt, Service.Integrated;
    if cycles == [] {
      LoopDone(cfg, so);
    } else {
      LoopTurns(cfg, cycles, so);
      LoopExtends(cfg, cycles[1..], Next(cfg, cycles[0], so));
    }
  }

  /** The samples integrate the banks of these checks. */
  predicate SampledFrom(samples: seq<Energy.Cycle>, closings: seq<Closing>) {
    |samples| == |closings| && forall i :: 0 <= i < |samples| ==> samples[i].packs == closings[i].packs
  }

  /** The sample of a turn that closes. */
  function SampleOf(cfg: Config, c: Cycle, so: Progress): Energy.Cycle {
    Energy.Cycle(FreshPacks(cfg.staleTimeout, Next(cfg, c, so).trace, c.checked, cfg.packCount), c.sampled)
  }

  /** Energy and file after these samples, each with how a save there ends. */
  function Filed(s: Store, samples: seq<Energy.Cycle>, saves: seq<Files.Ending>): Store
    requires |saves| == |samples|
  {
    if samples == [] then s
    else
      var n := |samples| - 1;
      Service.Integrated(
        Filed(s, samples[..n], saves[..n]), Aggregate(samples[n].packs), samples[n].now, saves[n])
  }

  function SavesOf(cycles: seq<Cycle>, n: nat): (saves: seq<Files.Ending>)
    requires n <= |cycles|
    ensures |saves| == n
  {
    seq(n, i requires 0 <= i < n => cycles[i].save)
  }

  lemma FiledNone(s: Store)
    ensures Filed(s, [], []) == s
  {}

  lemma {:induction false} FiledEnergy(s: Store, samples: seq<Energy.Cycle>, saves: seq<Files.Ending>)
    requires |saves| == |samples|
    ensures Filed(s, samples, saves).energy == Energy.After(s.energy, samples)
    decreases |samples|
  {
    hide Energy.Integrated, Aggregate;
    if samples != [] { FiledEnergy(s, samples[..|samples| - 1], saves[..|samples| - 1]); }
  }

  lemma {:induction false} FiledAppend(s: Store, a: seq<Energy.Cycle>, x: seq<Files.Ending>,
                                       b: seq<Energy.Cycle>, y: seq<Files.Ending>)
    requires |x| == |a| && |y| == |b|
    ensures Filed(s, a + b, x + y) == Filed(Filed(s, a, x), b, y)
    decreases |b|
  {
    hide Service.Integrated, Aggregate;
    if b == [] {
      assert a + b == a && x + y == x;
    } else {
      var n := |a + b| - 1;
      assert (a + b)[..n] == a + b[..|b| - 1] && (x + y)[..n] == x + y[..|y| - 1];
      FiledAppend(s, a, x, b[..|b| - 1], y[..|y| - 1]);
    }
  }

  lemma SampleAdded(cfg: Config, c: Cycle, so: Progress)
    ensures Filed(so.store, [SampleOf(cfg, c, so)], [c.save]) == Next(cfg, c, so).store
  {
    hide Rounds, Aggregate, FreshPacks, Service.Integrated;
    assert [SampleOf(cfg, c, so)][..0] == [] && [c.save][..0] == [];
    FiledNone(so.store);
  }

  /** A turn's rounds bring no check, its end brings one. */
  lemma TurnClosings(cfg: Config, c: Cycle, so: Progress)
    ensures Closings(cfg, so.trace + Rounds(cfg, c, so.lastSlow).events, |so.trace|) == []
    ensures Closings(cfg, Next(cfg, c, so).trace, |so.trace|) == [ClosingAt(cfg, Next(cfg, c, so).trace, c.checked)]
    ensures SampledFrom([SampleOf(cfg, c, so)], Closings(cfg, Next(cfg, c, so).trace, |so.trace|))
  {
    hide Rounds, FreshPacks, FreshPibs, Closings, Answer, BankAt, Service.Integrated;
    var events := Rounds(cfg, c, so.lastSlow).events;
    NoClosings(cfg, so.trace);
    RoundsHear(cfg, c, so.lastSlow);
    ClosingsQuiet(cfg, so.trace, |so.trace|, events);
    ClosingsCheck(cfg, so.trace + events, |so.trace|, c.checked);
  }

  lemma {:induction false} LoopSampled(cfg: Config, cycles: seq<Cycle>, so: Progress)
    returns (samples: seq<Energy.Cycle>)
    ensures so.trace <= Loop(cfg, cycles, so).trace
    ensures |samples| <= |cycles| && Loop(cfg, cycles, so).store == Filed(so.store, samples, SavesOf(cycles, |samples|))
    ensures SampledFrom(samples, Closings(cfg, Loop(cfg, cycles, so).trace, |so.trace|))
    ensures forall i :: 0 <= i < |samples| ==> samples[i].now == cycles[i].sampled
    decreases |cycles|
  {
    hide Loop, Closes, Next, Closings, Filed, FreshPacks, Rounds;
    samples := [];
    LoopExtends(cfg, cycles, so);
    FiledNone(so.store);
    if cycles == [] {
      LoopDone(cfg, so);
      NoClosings(cfg, so.trace);
    } else {
      LoopTurns(cfg, cycles, so);
      TurnClosings(cfg, cycles[0], so);
      var next, o := Next(cfg, cycles[0], so), Loop(cfg, cycles, so);
      if Closes(cfg, cycles[0], so) {
        SampleAdded(cfg, cycles[0], so);
        samples := [SampleOf(cfg, cycles[0], so)];
        assert SavesOf(cycles, 1) == [cycles[0].save];
        if o == Loop(cfg, cycles[1..], next) {
          var rest := LoopSampled(cfg, cycles[1..], next);
          FiledAppend(so.store, samples, [cycles[0].save], rest, SavesOf(cycles[1..], |rest|));
          assert [cycles[0].save] + SavesOf(cycles[1..], |rest|) == SavesOf(cycles, 1 + |rest|);
          NextExtends(cfg, cycles[0], so);
          ClosingsJoin(cfg, o.trace, |so.trace|, |next.trace|);
          assert o.trace[..|next.trace|] == next.trace;
          samples := samples + rest;
        }
      }
    }
  }

  lemma FewClosings(cfg: Config, cycles: seq<Cycle>, so: Progress)
    ensures so.trace <= Loop(cfg, cycles, so).trace
    ensures |Closings(cfg, Loop(cfg, cycles, so).trace, |so.trace|)| <= |cycles|
  {
    hide Loop, Closings;
    var _ := LoopSampled(cfg, cycles, so);
  }

  /** The checks of a poll loop. */
  function LoopClosings(cfg: Config, cycles: seq<Cycle>, so: Progress): (closings: seq<Closing>)
    ensures |closings| <= |cycles|
  {
    FewClosings(cfg, cycles, so);
    Closings(cfg, Loop(cfg, cycles, so).trace, |so.trace|)
  }

  /** What a poll loop integrates: at each of its checks the packs recent then,
      sampled when that turn took its sample. */
  function LoopSamples(cfg: Config, cycles: seq<Cycle>, so: Progress): seq<Energy.Cycle> {
    var closings := LoopClosings(cfg, cycles, so);
    seq(|closings|, i requires 0 <= i < |closings| => Energy.Cycle(closings[i].packs, cycles[i].sampled))
  }

  function LoopSaves(cfg: Config, cycles: seq<Cycle>, so: Progress): (saves: seq<Files.Ending>)
    ensures |saves| == |LoopSamples(cfg, cycles, so)|
  {
    SavesOf(cycles, |LoopClosings(cfg, cycles, so)|)
  }

  lemma LoopEnergy(cfg: Config, cycles: seq<Cycle>, so: Progress)
    ensures so.trace <= Loop(cfg, cycles, so).trace
    ensures Loop(cfg, cycles, so).store == Filed(so.store, LoopSamples(cfg, cycles, so), LoopSaves(cfg, cycles, so))
    ensures Loop(cfg, cycles, so).store.energy == Energy.After(so.store.energy, LoopSamples(cfg, cycles, so))
    ensures SampledFrom(LoopSamples(cfg, cycles, so), Closings(cfg, Loop(cfg, cycles, so).trace, |so.trace|))
  {
    hide Loop, Closings, Energy.After, Filed;
    var samples := LoopSampled(cfg, cycles, so);
    var same := LoopSamples(cfg, cycles, so);
    FiledEnergy(so.store, same, LoopSaves(cfg, cycles, so));
    assert |samples| == |same|;
    forall i | 0 <= i < |samples| ensures samples[i] == same[i] {
      assert samples[i].packs == same[i].packs && samples[i].now == same[i].now;
    }
    assert samples == same;
  }

  lemma NextExtends(cfg: Config, c: Cycle, so: Progress)
    ensures so.trace <= Next(cfg, c, so).trace
  {}

  /** The same for all connections, one after the other. */
  function ServiceSamples(cfg: Config, attempts: seq<Attempt>, so: Progress): seq<Energy.Cycle> {
    if attempts == [] then []
    else
      var last := attempts[|attempts| - 1];
      var before := Attempted(cfg, attempts[..|attempts| - 1], so);
      ServiceSamples(cfg, attempts[..|attempts| - 1], so) +
      if last.connects then LoopSamples(cfg, last.cycles, Starting(before.trace, before.store)) else []
  }

  function ServiceSaves(cfg: Config, attempts: seq<Attempt>, so: Progress): (saves: seq<Files.Ending>)
    ensures |saves| == |ServiceSamples(cfg, attempts, so)|
  {
    if attempts == [] then []
    else
      var last := attempts[|attempts| - 1];
      var before := Attempted(cfg, attempts[..|attempts| - 1], so);
      ServiceSaves(cfg, attempts[..|attempts| - 1], so) +
      if last.connects then LoopSaves(cfg, last.cycles, Starting(before.trace, before.store)) else []
  }

  /** The energy across all connections and the time between them is that of
      these samples, one for each check in the history. */
  lemma {:induction false} AttemptedEnergy(cfg: Config, attempts: seq<Attempt>, so: Progress)
    ensures so.trace <= Attempted(cfg, attempts, so).trace
    ensures Attempted(cfg, attempts, so).store.energy ==
            Energy.After(so.store.energy, ServiceSamples(cfg, attempts, so))
    ensures SampledFrom(ServiceSamples(cfg, attempts, so),
                        Closings(cfg, Attempted(cfg, attempts, so).trace, |so.trace|))
    decreases |attempts|
  {
    hide Attempted, ServiceSamples, SampledFrom, Loop, Closings, LoopSamples, Energy.Integrated;
    if attempts == [] {
      NoAttempts(cfg, so);
    } else {
      var init, last := attempts[..|attempts| - 1], attempts[|attempts| - 1];
      var before := Attempted(cfg, init, so);
      AttemptedEnergy(cfg, init, so);
      LastAttempt(cfg, attempts, so);
      if last.connects {
        var start := Starting(before.trace, before.store);
        var after := Loop(cfg, last.cycles, start).trace;
        LoopEnergy(cfg, last.cycles, start);
        AfterAppend(so.store.energy, ServiceSamples(cfg, init, so), LoopSamples(cfg, last.cycles, start));
        ClosingsJoin(cfg, after, |so.trace|, |before.trace|);
        assert after[..|before.trace|] == before.trace;
        SampledJoin(ServiceSamples(cfg, init, so), Closings(cfg, before.trace, |so.trace|),
                    LoopSamples(cfg, last.cycles, start), Closings(cfg, after, |before.trace|));
      }
    }
  }

  /** The file as well: it is what saves after these samples make of it. */
  lemma {:induction false} AttemptedFile(cfg: Config, attempts: seq<Attempt>, so: Progress)
    ensures Attempted(cfg, attempts, so).store ==
            Filed(so.store, ServiceSamples(cfg, attempts, so), ServiceSaves(cfg, attempts, so))
    decreases |attempts|
  {
    hide Attempted, ServiceSamples, ServiceSaves, Loop, LoopSamples, LoopSaves, Filed;
    NoAttempts(cfg, so);
    FiledNone(so.store);
    if attempts != [] {
      var init, last := attempts[..|attempts| - 1], attempts[|attempts| - 1];
      var before := Attempted(cfg, init, so);
      AttemptedFile(cfg, init, so);
      LastAttempt(cfg, attempts, so);
      LastSaves(cfg, attempts, so);
      if last.connects {
        var start := Starting(before.trace, before.store);
        LoopEnergy(cfg, last.cycles, start);
        FiledAppend(so.store, ServiceSamples(cfg, init, so), ServiceSaves(cfg, init, so),
                    LoopSamples(cfg, last.cycles, start), LoopSaves(cfg, last.cycles, start));
      }
    }
  }

  function StepsOf(samples: seq<Energy.Cycle>, saves: seq<Files.Ending>): seq<Energy.Event>
    requires |saves| == |samples|
  {
    seq(|samples|, i requires 0 <= i < |samples| => Energy.Sample(samples[i], saves[i]))
  }

  /** None of the saves was cut short by the machine going down. */
  predicate StaysUp(saves: seq<Files.Ending>) {
    forall i :: 0 <= i < |saves| ==> !saves[i].Stops?
  }

  lemma FirstStart(file: Option<Energy.EnergyFile>, now: real, readable: bool)
    ensures var s := NewService(file, now, readable);
            var es := [Energy.Start(now, readable)];
            Energy.LegalRun(file, es) && Energy.Run(file, es) == Energy.Machine(Some(s.energy), s.file)
  {
    hide Energy.Loaded;
    var es := [Energy.Start(now, readable)];
    assert es[..0] == [] && Energy.LegalRun(file, []);
    assert Energy.Run(file, es) == Energy.Step(Energy.Run(file, []), es[0]);
  }

  lemma {:induction false} FiledIsRun(file: Option<Energy.EnergyFile>, now: real, readable: bool,
                                      samples: seq<Energy.Cycle>, saves: seq<Files.Ending>)
    requires |saves| == |samples| && StaysUp(saves)
    ensures var es := [Energy.Start(now, readable)] + StepsOf(samples, saves);
            var s := Filed(NewService(file, now, readable), samples, saves);
            Energy.LegalRun(file, es) && Energy.Run(file, es) == Energy.Machine(Some(s.energy), s.file)
    decreases |samples|
  {
    hide Energy.Integrated, Aggregate, Energy.Loaded, Energy.SaveDue;
    var es := [Energy.Start(now, readable)] + StepsOf(samples, saves);
    if samples == [] {
      FirstStart(file, now, readable);
      assert es == [Energy.Start(now, readable)];
    } else {
      var n := |samples| - 1;
      FiledIsRun(file, now, readable, samples[..n], saves[..n]);
      assert es[..|es| - 1] == [Energy.Start(now, readable)] + StepsOf(samples[..n], saves[..n]);
      assert es[|es| - 1] == Energy.Sample(samples[n], saves[n]);
    }
  }

  /** A new service that has loaded the file. */
  function NewService(file: Option<Energy.EnergyFile>, now: real, readable: bool): Store {
    var loaded := Energy.Loaded(file, readable);
    Store(Energy.Energy(loaded.0, loaded.1, None, now), file)
  }

  /** So a process, over all its connections, is one of the runs of which
      restarts are proved to bring back the last completed save. */
  lemma ServiceIsRun(cfg: Config, attempts: seq<Attempt>, file: Option<Energy.EnergyFile>, now: real, readable: bool)
    requires StaysUp(ServiceSaves(cfg, attempts, Starting([], NewService(file, now, readable))))
    ensures var so := Starting([], NewService(file, now, readable));
            var es := [Energy.Start(now, readable)] +
                      StepsOf(ServiceSamples(cfg, attempts, so), ServiceSaves(cfg, attempts, so));
            var end := Attempted(cfg, attempts, so).store;
            Energy.LegalRun(file, es) && Energy.Run(file, es) == Energy.Machine(Some(end.energy), end.file)
  {
    hide Attempted, ServiceSamples, ServiceSaves, Energy.LegalRun, Energy.Run, Filed, NewService, StaysUp;
    var so := Starting([], NewService(file, now, readable));
    AttemptedFile(cfg, attempts, so);
    FiledIsRun(file, now, readable, ServiceSamples(cfg, attempts, so), ServiceSaves(cfg, attempts, so));
  }

  lemma NoAttempts(cfg: Config, so: Progress)
    ensures Attempted(cfg, [], so) == so && ServiceSamples(cfg, [], so) == [] && ServiceSaves(cfg, [], so) == []
    ensures Energy.After(so.store.energy, []) == so.store.energy
    ensures SampledFrom([], Closings(cfg, so.trace, |so.trace|))
  {
    NoClosings(cfg, so.trace);
  }

  lemma LastAttempt(cfg: Config, attempts: seq<Attempt>, so: Progress)
    requires attempts != []
    ensures var init, last := attempts[..|attempts| - 1], attempts[|attempts| - 1];
            var before := Attempted(cfg, init, so);
            var start := Starting(before.trace, before.store);
            if last.connects then
              && Attempted(cfg, attempts, so).trace == Loop(cfg, last.cycles, start).trace
              && Attempted(cfg, attempts, so).store == Loop(cfg, last.cycles, start).store
              && ServiceSamples(cfg, attempts, so) ==
                   ServiceSamples(cfg, init, so) + LoopSamples(cfg, last.cycles, start)
            else
              && Attempted(cfg, attempts, so) == before
              && ServiceSamples(cfg, attempts, so) == ServiceSamples(cfg, init, so)
  {
    hide Loop, LoopSamples;
  }

  lemma LastSaves(cfg: Config, attempts: seq<Attempt>, so: Progress)
    requires attempts != []
    ensures var init, last := attempts[..|attempts| - 1], attempts[|attempts| - 1];
            var before := Attempted(cfg, init, so);
            ServiceSaves(cfg, attempts, so) ==
              if last.connects
              then ServiceSaves(cfg, init, so) + LoopSaves(cfg, last.cycles, Starting(before.trace, before.store))
              else ServiceSaves(cfg, init, so)
  {
    hide Attempted, LoopSaves, Loop;
  }

  lemma SampledJoin(a: seq<Energy.Cycle>, x: seq<Closing>, b: seq<Energy.Cycle>, y: seq<Closing>)
    requires SampledFrom(a, x) && SampledFrom(b, y)
    ensures SampledFrom(a + b, x + y)
  {}

  /** A process's whole energy: in - out is the integral of the bank powers at
      all its checks, over all connections. */
  lemma ServiceEnergyConserved(cfg: Config, attempts: seq<Attempt>, so: Progress)
    requires so.store.energy.lastSample == None
    ensures var was, grown := so.store.energy, Attempted(cfg, attempts, so).store.energy;
            && grown.inWh - grown.outWh == was.inWh - was.outWh + Energy.NetWh(ServiceSamples(cfg, attempts, so))
            && was.inWh <= grown.inWh && was.outWh <= grown.outWh
  {
    hide Attempted, Closings, ServiceSamples, Energy.NetWh;
    AttemptedEnergy(cfg, attempts, so);
    Energy.BankEnergyConserved(so.store.energy, ServiceSamples(cfg, attempts, so), 0);
    NothingYet(so.store.energy, ServiceSamples(cfg, attempts, so));
  }

  lemma NothingYet(e: Energy.Energy, samples: seq<Energy.Cycle>)
    ensures Energy.After(e, samples[..0]) == e
  {}

  // ----- the hottest cell -----

  /** A published hottest cell is a cell of some pack's last PIB answer, which
      was recent when the turn checked. */
  lemma HottestIsRecent(cfg: Config, trace: seq<Event>, now: real, hottest: Option<real>) returns (i: nat)
    requires Hottest(ClosingAt(cfg, trace, now).cells, hottest) && hottest.Some?
    ensures i < |trace| && trace[i].HeardPib? && LastPibAt(trace[i].pack, trace, i)
    ensures now - trace[i].at <= 2.0 * cfg.slowInterval
    ensures hottest in trace[i].temps
  {
    hide LastPibAt, FreshPibs, FreshPacks;
    var cells := ClosingAt(cfg, trace, now).cells;
    var from := NoPibExpired(cfg.staleTimeout, 2.0 * cfg.slowInterval, trace, now, cfg.packCount);
    var k, j :| 0 <= k < |cells| && 0 <= j < |cells[k]| && cells[k][j] == hottest;
    i := from[k];
  }

  // ----- every element of the history's checks -----

  /** The history's checks after the first `from` events: all of them, in order,
      each given by how much of the history it saw. */
  ghost predicate ChecksAt(trace: seq<Event>, from: nat, at: seq<nat>) {
    && (forall i :: 0 <= i < |at| ==> from < at[i] <= |trace| && trace[at[i] - 1].Checked?)
    && (forall i, j :: 0 <= i < j < |at| ==> at[i] < at[j])
    && (forall k: nat :: from <= k < |trace| && trace[k].Checked? ==> k + 1 in at)
  }

  /** The check the i-th sample and the i-th published temperature belong to. */
  predicate CheckIs(trace: seq<Event>, from: nat, at: seq<nat>, i: nat) {
    i < |at| && from < at[i] <= |trace| && trace[at[i] - 1].Checked?
  }

  lemma {:induction false} FindChecks(trace: seq<Event>, from: nat) returns (at: seq<nat>)
    requires from <= |trace|
    ensures ChecksAt(trace, from, at)
    decreases |trace|
  {
    at := [];
    if from < |trace| {
      at := FindChecks(trace[..|trace| - 1], from);
      if trace[|trace| - 1].Checked? {
        at := CheckAdded(trace, from, at);
      }
    }
  }

  lemma CheckAdded(trace: seq<Event>, from: nat, before: seq<nat>) returns (at: seq<nat>)
    requires from < |trace| && trace[|trace| - 1].Checked? && ChecksAt(trace[..|trace| - 1], from, before)
    ensures ChecksAt(trace, from, at)
  {
    at := before + [|trace|];
    assert forall k :: k in before ==> k in at;
    assert at[|before|] == |trace|;
  }

  lemma ChecksBefore(trace: seq<Event>, from: nat, at: seq<nat>)
    requires from < |trace| && ChecksAt(trace, from, at)
    ensures trace[|trace| - 1].Checked? ==> at != [] && at[|at| - 1] == |trace|
    ensures trace[|trace| - 1].Checked? ==> ChecksAt(trace[..|trace| - 1], from, at[..|at| - 1])
    ensures !trace[|trace| - 1].Checked? ==> ChecksAt(trace[..|trace| - 1], from, at)
  {
    if trace[|trace| - 1].Checked? {
      assert |trace| - 1 + 1 in at;
      var init := at[..|at| - 1];
      forall k: nat | from <= k < |trace| - 1 && trace[k].Checked? ensures k + 1 in init {
        var i :| 0 <= i < |at| && at[i] == k + 1;
        assert init[i] == k + 1;
      }
    }
  }

  lemma ChecksWithin(trace: seq<Event>, from: nat, at: seq<nat>)
    requires from <= |trace| && ChecksAt(trace, from, at)
    ensures forall i: nat :: i < |at| ==> CheckIs(trace, from, at, i)
    ensures from == |trace| ==> at == []
  {
    if at != [] { assert from < at[0] <= |trace|; }
  }

  /** Check i of the history so far is check i of the history. */
  lemma ClosingBefore(cfg: Config, trace: seq<Event>, from: nat, at: seq<nat>, i: nat)
    requires from < |trace| && CheckIs(trace[..|trace| - 1], from, at, i)
    ensures CheckIs(trace, from, at, i)
    ensures ClosingAt(cfg, trace[..|trace| - 1][..at[i]], trace[..|trace| - 1][at[i] - 1].at) ==
            ClosingAt(cfg, trace[..at[i]], trace[at[i] - 1].at)
  {
    hide ClosingAt;
    assert trace[..|trace| - 1][..at[i]] == trace[..at[i]];
  }

  lemma ClosingLast(cfg: Config, trace: seq<Event>, from: nat)
    requires from < |trace|
    ensures Closings(cfg, trace, from) ==
              Closings(cfg, trace[..|trace| - 1], from) +
              if trace[|trace| - 1].Checked? then [ClosingAt(cfg, trace[..|trace|], trace[|trace| - 1].at)] else []
  {
    hide ClosingAt;
    assert trace[..|trace|] == trace;
  }

  /** One element for each check, made of the history up to it. */
  lemma {:induction false} ClosingIs(cfg: Config, trace: seq<Event>, from: nat, at: seq<nat>)
    requires from <= |trace| && ChecksAt(trace, from, at)
    ensures |Closings(cfg, trace, from)| == |at|
    ensures forall i: nat :: i < |at| ==>
              CheckIs(trace, from, at, i) &&
              Closings(cfg, trace, from)[i] == ClosingAt(cfg, trace[..at[i]], trace[at[i] - 1].at)
    decreases |trace|
  {
    hide ClosingAt, ChecksAt, Closings;
    ChecksWithin(trace, from, at);
    if from == |trace| {
      NoClosings(cfg, trace);
    } else {
      var before, last := trace[..|trace| - 1], trace[|trace| - 1];
      ChecksBefore(trace, from, at);
      ClosingLast(cfg, trace, from);
      var init := if last.Checked? then at[..|at| - 1] else at;
      ClosingIs(cfg, before, from, init);
      forall i: nat | i < |init|
        ensures Closings(cfg, trace, from)[i] == ClosingAt(cfg, trace[..at[i]], trace[at[i] - 1].at)
      {
        ClosingBefore(cfg, trace, from, init, i);
      }
    }
  }

  /** So every published hottest cell is recent, */
  lemma PublishedIsRecent(cfg: Config, trace: seq<Event>, from: nat, at: seq<nat>, hottest: seq<Option<real>>, i: nat)
    returns (k: nat)
    requires from <= |trace| && ChecksAt(trace, from, at) && Published(Closings(cfg, trace, from), hottest)
    requires i < |hottest| && hottest[i].Some?
    ensures |hottest| == |at| && CheckIs(trace, from, at, i)
    ensures k < at[i] && trace[k].HeardPib? && LastPibAt(trace[k].pack, trace[..at[i]], k)
    ensures trace[at[i] - 1].at - trace[k].at <= 2.0 * cfg.slowInterval && hottest[i] in trace[k].temps
  {
    hide Closings, ClosingAt, LastPibAt, Hottest, ChecksAt;
    ClosingIs(cfg, trace, from, at);
    assert CheckIs(trace, from, at, i);
    k := HottestIsRecent(cfg, trace[..at[i]], trace[at[i] - 1].at, hottest[i]);
  }

  /** no recent cell is hotter, */
  lemma PublishedMissesNone(cfg: Config, trace: seq<Event>, from: nat, at: seq<nat>, hottest: seq<Option<real>>,
                            i: nat, pack: int, k: nat, t: real)
    requires from <= |trace| && ChecksAt(trace, from, at) && Published(Closings(cfg, trace, from), hottest)
    requires CheckIs(trace, from, at, i) && k < at[i] && 1 <= pack <= cfg.packCount
    requires LastPibAt(pack, trace[..at[i]], k) && trace[at[i] - 1].at - trace[k].at <= 2.0 * cfg.slowInterval
    requires trace[k].HeardPib? && Some(t) in trace[k].temps
    ensures i < |hottest| && hottest[i].Some? && t <= hottest[i].value
  {
    hide Closings, LastPibAt, ChecksAt, FreshPibs, FreshPacks;
    ClosingIs(cfg, trace, from, at);
    var past, now := trace[..at[i]], trace[at[i] - 1].at;
    var c := NoPibMissing(cfg.staleTimeout, 2.0 * cfg.slowInterval, past, now, cfg.packCount, pack, k);
    assert past[k] == trace[k];
    assert Hottest(ClosingAt(cfg, past, now).cells, hottest[i]);
  }

  /** every reading of a bank whose power is integrated is recent, */
  lemma SampleIsRecent(cfg: Config, trace: seq<Event>, from: nat, at: seq<nat>, samples: seq<Energy.Cycle>,
                       i: nat, j: nat)
    returns (k: nat)
    requires from <= |trace| && ChecksAt(trace, from, at) && SampledFrom(samples, Closings(cfg, trace, from))
    requires i < |samples| && j < |samples[i].packs|
    ensures |samples| == |at| && CheckIs(trace, from, at, i)
    ensures k < at[i] && trace[k].HeardPia? && LastAt(trace[k].pack, trace[..at[i]], k)
    ensures trace[at[i] - 1].at - trace[k].at <= cfg.staleTimeout && samples[i].packs[j] == trace[k].reading
  {
    hide Closings, LastAt, FreshPacks, FreshPibs, ChecksAt;
    ClosingIs(cfg, trace, from, at);
    var heard := NothingExpired(cfg.staleTimeout, trace[..at[i]], trace[at[i] - 1].at, cfg.packCount);
    k := heard[j];
  }

  /** and every pack with a recent last answer is in that bank with it. */
  lemma SampleMissesNone(cfg: Config, trace: seq<Event>, from: nat, at: seq<nat>, samples: seq<Energy.Cycle>,
                         i: nat, pack: int, k: nat)
    requires from <= |trace| && ChecksAt(trace, from, at) && SampledFrom(samples, Closings(cfg, trace, from))
    requires CheckIs(trace, from, at, i) && k < at[i] && 1 <= pack <= cfg.packCount
    requires LastAt(pack, trace[..at[i]], k) && trace[at[i] - 1].at - trace[k].at <= cfg.staleTimeout
    ensures i < |samples| && trace[k].HeardPia? && trace[k].reading in samples[i].packs
  {
    hide Closings, LastAt, FreshPacks, FreshPibs, ChecksAt;
    ClosingIs(cfg, trace, from, at);
    var past, now := trace[..at[i]], trace[at[i] - 1].at;
    LastIsHeard(pack, past, k);
    assert past[k] == trace[k];
    var j := NothingMissing(cfg.staleTimeout, past, now, cfg.packCount, pack, k);
    assert samples[i].packs == ClosingAt(cfg, past, now).packs;
    assert samples[i].packs[j] == trace[k].reading;
  }

  lemma {:induction false} AfterAppend(e: Energy.Energy, a: seq<Energy.Cycle>, b: seq<Energy.Cycle>)
    ensures Energy.After(e, a + b) == Energy.After(Energy.After(e, a), b)
    decreases |b|
  {
    hide Energy.Integrated, Aggregate;
    if b == [] {
      assert a + b == a;
    } else {
      assert (a + b)[..|a + b| - 1] == a + b[..|b| - 1];
      AfterAppend(e, a, b[..|b| - 1]);
    }
  }
}
