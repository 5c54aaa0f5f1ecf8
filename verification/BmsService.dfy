/**
 bms/service.py: the BLE poll loop, the stale list, the counters and the
 reconnect back-off. What the radio, the clock and the stop event do comes in
 as a script.
 */
module BmsService {
  import opened Wrappers
  import opened BankAggregator
  import opened BmsTrace
  import Energy = BmsEnergy
  import Files = AtomicFile

  datatype Config = Config(
    packCount: nat, staleTimeout: real, slowInterval: real, fastInterval: real,
    maxFailedCycles: int, initialBackoff: real, maxBackoff: real)

  /** One poll: an answer and when it was stamped, a failure the loop handles
      and whether the client is still connected, or an exception it does not;
      then whether the stop event is set after the pause. */
  datatype Reply<T> = Answered(value: T, at: real) | Failed(connected: bool) | Raised
  datatype Poll<T> = Poll(reply: Reply<T>, stopped: bool)

  /** One turn of the poll loop, with a poll per pack in each round. */
  datatype Cycle = Cycle(
    stopped: bool, start: real, pia: seq<Poll<Pack>>, pib: seq<Poll<Temps>>,
    checked: real, sampled: real, save: Files.Ending, end: real, stopInWait: bool)

  predicate Scripted(cfg: Config, cycles: seq<Cycle>) {
    forall i :: 0 <= i < |cycles| ==> |cycles[i].pia| == cfg.packCount && |cycles[i].pib| == cfg.packCount
  }

  datatype Exit = StopRequested | LinkDown | Zombie | Escaped

  // ----- one round of polls -----

  datatype Round = Round(events: seq<Event>, answered: nat, exit: Option<Exit>)

  /** What a poll of a pack means to the loop. */
  datatype Signal = Hears(e: Event) | Fails(connected: bool) | Raises

  function PiaSignal(poll: Poll<Pack>, pack: int): Signal {
    match poll.reply
    case Answered(reading, at) => Hears(HeardPia(pack, reading, at))
    case Failed(connected) => Fails(connected)
    case Raised => Raises
  }

  function PibSignal(poll: Poll<Temps>, pack: int): Signal {
    match poll.reply
    case Answered(temps, at) => Hears(HeardPib(pack, temps, at))
    case Failed(connected) => Fails(connected)
    case Raised => Raises
  }

  function Polled(so: Round, signal: Signal, stopped: bool): Round
    requires so.exit == None
  {
    var stop := if stopped then Some(StopRequested) else None;
    match signal
    case Hears(e) => Round(so.events + [e], so.answered + 1, stop)
    case Fails(connected) => so.(exit := if connected then stop else Some(LinkDown))
    case Raises => so.(exit := Some(Escaped))
  }

  /** The round of packs 1, 2, ..., up to the first reason to leave. */
  function PiaRound(polls: seq<Poll<Pack>>): Round {
    if polls == [] then Round([], 0, None)
    else
      var n := |polls| - 1;
      var so := PiaRound(polls[..n]);
      if so.exit.Some? then so else Polled(so, PiaSignal(polls[n], n + 1), polls[n].stopped)
  }

  function PibRound(polls: seq<Poll<Temps>>): Round {
    if polls == [] then Round([], 0, None)
    else
      var n := |polls| - 1;
      var so := PibRound(polls[..n]);
      if so.exit.Some? then so else Polled(so, PibSignal(polls[n], n + 1), polls[n].stopped)
  }

  predicate SlowDue(cfg: Config, c: Cycle, lastSlow: real) {
    c.start - lastSlow >= cfg.slowInterval
  }

  /** The rounds of one turn. */
  function Rounds(cfg: Config, c: Cycle, lastSlow: real): Round {
    if c.stopped then Round([], 0, Some(StopRequested))
    else
      var pia := PiaRound(c.pia);
      if pia.exit.Some? || !SlowDue(cfg, c, lastSlow) then pia
      else
        var pib := PibRound(c.pib);
        Round(pia.events + pib.events, pia.answered + pib.answered, pib.exit)
  }

  /** A round that was left early stays as it was. */
  lemma {:induction false} PiaLeft(polls: seq<Poll<Pack>>, n: nat)
    requires n <= |polls| && PiaRound(polls[..n]).exit.Some?
    ensures PiaRound(polls) == PiaRound(polls[..n])
    decreases |polls|
  {
    if n == |polls| {
      assert polls[..n] == polls;
    } else {
      assert polls[..|polls| - 1][..n] == polls[..n];
      PiaLeft(polls[..|polls| - 1], n);
    }
  }

  lemma {:induction false} PibLeft(polls: seq<Poll<Temps>>, n: nat)
    requires n <= |polls| && PibRound(polls[..n]).exit.Some?
    ensures PibRound(polls) == PibRound(polls[..n])
    decreases |polls|
  {
    if n == |polls| {
      assert polls[..n] == polls;
    } else {
      assert polls[..|polls| - 1][..n] == polls[..n];
      PibLeft(polls[..|polls| - 1], n);
    }
  }

  // ----- the poll loop -----

  datatype Store = Store(energy: Energy.Energy, file: Option<Energy.EnergyFile>)

  function Integrated(s: Store, bank: Option<Bank>, now: real, save: Files.Ending): Store {
    var energy := Energy.Integrated(s.energy, bank, now);
    var saved := Energy.SaveDue(s.energy, bank, now) && Files.Commits(save);
    Store(energy, if saved then Some(Energy.Saved(energy)) else s.file)
  }

  datatype Progress = Progress(lastSlow: real, failed: nat, completed: nat, trace: seq<Event>, store: Store)

  datatype Outcome = Outcome(exit: Exit, completed: nat, trace: seq<Event>, store: Store)

  /** A turn and the turns after it. */
  function LoopTurn(cfg: Config, c: Cycle, rest: seq<Cycle>, so: Progress): Outcome
    decreases |rest|, 1
  {
    var r := Rounds(cfg, c, so.lastSlow);
    var trace := so.trace + r.events;
    if r.exit.Some? then Outcome(r.exit.value, so.completed, trace, so.store)
    else
      var failed := if r.answered == 0 then so.failed + 1 else 0;
      if failed > 0 && failed >= cfg.maxFailedCycles then Outcome(Zombie, so.completed + 1, trace, so.store)
      else
        var checked := trace + [Checked(c.checked)];
        var next := Progress(
          if SlowDue(cfg, c, so.lastSlow) then c.start else so.lastSlow, failed, so.completed + 1, checked,
          Integrated(so.store, BankAt(cfg.staleTimeout, checked, c.checked, cfg.packCount), c.sampled, c.save));
        if c.end - c.start < cfg.fastInterval && c.stopInWait
        then Outcome(StopRequested, next.completed, next.trace, next.store)
        else Loop(cfg, rest, next)
  }

  /** The turns left to do; a script that runs out ends in an exception. */
  function Loop(cfg: Config, cycles: seq<Cycle>, so: Progress): Outcome
    decreases |cycles|, 0
  {
    if cycles == [] then Outcome(Escaped, so.completed, so.trace, so.store)
    else LoopTurn(cfg, cycles[0], cycles[1..], so)
  }

  function Starting(trace: seq<Event>, store: Store): Progress {
    Progress(0.0, 0, 0, trace, store)
  }

  // ----- what the turns publish -----

  /** What a check leaves for aggregate_bank: the recent PIA and PIB readings. */
  datatype Closing = Closing(packs: seq<Pack>, cells: seq<Temps>)

  function ClosingAt(cfg: Config, trace: seq<Event>, now: real): Closing {
    Closing(FreshPacks(cfg.staleTimeout, trace, now, cfg.packCount),
            FreshPibs(cfg.staleTimeout, 2.0 * cfg.slowInterval, trace, now, cfg.packCount))
  }

  /** One for each check after the first `from` events. */
  function Closings(cfg: Config, trace: seq<Event>, from: nat): seq<Closing>
    requires from <= |trace|
    decreases |trace|
  {
    if |trace| == from then []
    else
      var e := trace[|trace| - 1];
      Closings(cfg, trace[..|trace| - 1], from) + if e.Checked? then [ClosingAt(cfg, trace, e.at)] else []
  }

  lemma {:induction false} ClosingsQuiet(cfg: Config, trace: seq<Event>, from: nat, answers: seq<Event>)
    requires from <= |trace| && forall e :: e in answers ==> Answer(e)
    ensures Closings(cfg, trace + answers, from) == Closings(cfg, trace, from)
    decreases |answers|
  {
    hide ClosingAt;
    if answers == [] {
      assert trace + answers == trace;
    } else {
      var init := answers[..|answers| - 1];
      assert (trace + answers)[..|trace + answers| - 1] == trace + init;
      assert (trace + answers)[|trace + answers| - 1] == answers[|answers| - 1] && answers[|answers| - 1] in answers;
      ClosingsQuiet(cfg, trace, from, init);
    }
  }

  lemma ClosingsCheck(cfg: Config, trace: seq<Event>, from: nat, now: real)
    requires from <= |trace|
    ensures Closings(cfg, trace + [Checked(now)], from) ==
            Closings(cfg, trace, from) + [ClosingAt(cfg, trace + [Checked(now)], now)]
  {
    hide ClosingAt;
    assert (trace + [Checked(now)])[..|trace|] == trace;
  }

  lemma {:induction false} ClosingsJoin(cfg: Config, trace: seq<Event>, from: nat, mid: nat)
    requires from <= mid <= |trace|
    ensures Closings(cfg, trace, from) == Closings(cfg, trace[..mid], from) + Closings(cfg, trace, mid)
    decreases |trace|
  {
    hide ClosingAt;
    if |trace| == mid {
      assert trace[..mid] == trace;
    } else {
      ClosingsJoin(cfg, trace[..|trace| - 1], from, mid);
      assert trace[..|trace| - 1][..mid] == trace[..mid];
    }
  }

  /** The hottest cell published for each of them. */
  ghost predicate Published(closings: seq<Closing>, hottest: seq<Option<real>>) {
    && |hottest| == |closings|
    && forall i :: 0 <= i < |hottest| ==> Hottest(closings[i].cells, hottest[i])
  }

  lemma {:induction false} PiaHears(polls: seq<Poll<Pack>>)
    ensures forall e :: e in PiaRound(polls).events ==> Answer(e)
    decreases |polls|
  {
    if polls == [] {
    } else {
      PiaHears(polls[..|polls| - 1]);
    }
  }

  lemma {:induction false} PibHears(polls: seq<Poll<Temps>>)
    ensures forall e :: e in PibRound(polls).events ==> Answer(e)
    decreases |polls|
  {
    if polls == [] {
    } else {
      PibHears(polls[..|polls| - 1]);
    }
  }

  lemma RoundsHear(cfg: Config, c: Cycle, lastSlow: real)
    ensures forall e :: e in Rounds(cfg, c, lastSlow).events ==> Answer(e)
  {
    hide PiaRound, PibRound, Answer;
    PiaHears(c.pia);
    PibHears(c.pib);
  }

  // ----- reconnecting -----

  /** One turn of the reconnect loop: whether the stop event is set before it,
      whether the link comes up and then what the poll loop meets, and whether
      the stop event is set during the wait. */
  datatype Attempt = Attempt(stopped: bool, connects: bool, cycles: seq<Cycle>, stopInWait: bool)

  /** Waits since the start or since the link last came up. */
  function Streak(attempts: seq<Attempt>, i: nat): nat
    requires i < |attempts|
  {
    if attempts[i].connects || i == 0 then 0 else Streak(attempts, i - 1) + 1
  }

  /** History and energy after some attempts, one poll loop per connection. */
  function Attempted(cfg: Config, attempts: seq<Attempt>, so: Progress): Progress {
    if attempts == [] then so
    else
      var before := Attempted(cfg, attempts[..|attempts| - 1], so);
      var last := attempts[|attempts| - 1];
      if !last.connects then before
      else
        var o := Loop(cfg, last.cycles, Starting(before.trace, before.store));
        Starting(o.trace, o.store)
  }

  lemma AttemptedNext(cfg: Config, attempts: seq<Attempt>, i: nat, so: Progress)
    requires i < |attempts|
    ensures var before := Attempted(cfg, attempts[..i], so);
            var o := Loop(cfg, attempts[i].cycles, Starting(before.trace, before.store));
            Attempted(cfg, attempts[..i + 1], so) == if attempts[i].connects then Starting(o.trace, o.store) else before
  {
    hide Loop;
    assert attempts[..i + 1][..i] == attempts[..i];
  }

  function Backoff(cfg: Config, k: nat): real {
    if k == 0 then cfg.initialBackoff
    else
      var twice := Backoff(cfg, k - 1) * 2.0;
      if twice <= cfg.maxBackoff then twice else cfg.maxBackoff
  }

  lemma BackoffStart(cfg: Config)
    ensures Backoff(cfg, 0) == cfg.initialBackoff
  {}

  lemma BackoffStep(cfg: Config, attempts: seq<Attempt>, i: nat)
    requires i < |attempts|
    ensures Backoff(cfg, 0) == cfg.initialBackoff
    ensures attempts[i].connects ==> Streak(attempts, i) == 0
    ensures !attempts[i].connects ==> Streak(attempts, i) == if i == 0 then 0 else Streak(attempts, i - 1) + 1
    ensures var wait := Backoff(cfg, Streak(attempts, i));
            Backoff(cfg, Streak(attempts, i) + 1) == if wait * 2.0 <= cfg.maxBackoff then wait * 2.0 else cfg.maxBackoff
  {}

  // ----- the service -----

  function Project(log: seq<(int, Notice)>, pack: int): seq<Notice> {
    if log == [] then []
    else Project(log[..|log| - 1], pack) + if log[|log| - 1].0 == pack then [log[|log| - 1].1] else []
  }

  lemma ProjectSnoc(log: seq<(int, Notice)>, entry: (int, Notice), pack: int)
    ensures Project(log + [entry], pack) == Project(log, pack) + if entry.0 == pack then [entry.1] else []
  {
    assert (log + [entry])[..|log|] == log;
  }

  function Tally(counts: map<int, nat>, pack: int): nat {
    if pack in counts then counts[pack] else 0
  }

  /** What _fresh_states reads and writes. */
  datatype Caches = Caches(
    pia: map<int, Pack>, piaSeen: map<int, real>, pib: map<int, Temps>, pibSeen: map<int, real>,
    warned: set<int>, log: seq<(int, Notice)>)

  function ViewOf(c: Caches, pack: int): View {
    View(if pack in c.pia && pack in c.piaSeen then Some(Last(c.pia[pack], c.piaSeen[pack])) else None,
         if pack in c.pib && pack in c.pibSeen then Some(Last(c.pib[pack], c.pibSeen[pack])) else None,
         pack in c.warned, Project(c.log, pack))
  }

  /** Every pack's part of the state is what the history makes it. */
  ghost predicate Follows(timeout: real, c: Caches, trace: seq<Event>) {
    forall pack :: ViewOf(c, pack) == Replay(timeout, pack, trace)
  }

  lemma Inhabited(s: set<int>)
    ensures s == {} || exists p :: p in s
  {
    assert (forall p :: p !in s) ==> s == {};
  }

  ghost predicate Counts(total: nat, byPack: map<int, nat>, pias: map<int, nat>, trace: seq<Event>) {
    && total == Answers(trace)
    && (forall pack :: Tally(byPack, pack) == AnswersOf(pack, trace))
    && (forall pack :: Tally(pias, pack) == PiasOf(pack, trace))
  }

  /** Only packs 1..n are polled. */
  ghost predicate InRange(trace: seq<Event>, n: nat) {
    forall i :: 0 <= i < |trace| && Answer(trace[i]) ==> 1 <= trace[i].pack <= n
  }

  lemma InRangeMore(trace: seq<Event>, e: Event, n: nat)
    requires InRange(trace, n) && (Answer(e) ==> 1 <= e.pack <= n)
    ensures InRange(trace + [e], n)
  {}

  function PiaKept(c: Caches, pack: int, reading: Pack, at: real): Caches {
    c.(pia := c.pia[pack := reading], piaSeen := c.piaSeen[pack := at], warned := c.warned - {pack},
       log := if pack in c.warned then c.log + [(pack, Recovered)] else c.log)
  }

  function PibKept(c: Caches, pack: int, temps: Temps, at: real): Caches {
    c.(pib := c.pib[pack := temps], pibSeen := c.pibSeen[pack := at])
  }

  lemma FollowsPia(timeout: real, c: Caches, trace: seq<Event>, pack: int, reading: Pack, at: real)
    requires Follows(timeout, c, trace)
    ensures Follows(timeout, PiaKept(c, pack, reading, at), trace + [HeardPia(pack, reading, at)])
  {
    hide Replay, Project;
    forall p
      ensures ViewOf(PiaKept(c, pack, reading, at), p) == Replay(timeout, p, trace + [HeardPia(pack, reading, at)])
    {
      assert ViewOf(c, p) == Replay(timeout, p, trace);
      ReplaySnoc(timeout, p, trace, HeardPia(pack, reading, at));
      ProjectSnoc(c.log, (pack, Recovered), p);
    }
  }

  lemma FollowsPib(timeout: real, c: Caches, trace: seq<Event>, pack: int, temps: Temps, at: real)
    requires Follows(timeout, c, trace)
    ensures Follows(timeout, PibKept(c, pack, temps, at), trace + [HeardPib(pack, temps, at)])
  {
    hide Replay, Project;
    forall p
      ensures ViewOf(PibKept(c, pack, temps, at), p) == Replay(timeout, p, trace + [HeardPib(pack, temps, at)])
    {
      assert ViewOf(c, p) == Replay(timeout, p, trace);
      ReplaySnoc(timeout, p, trace, HeardPib(pack, temps, at));
    }
  }

  /** Part-way through _fresh_states: the packs still to do are as in `c0`. */
  ghost predicate Checking(timeout: real, c0: Caches, c: Caches, now: real, todo: set<int>) {
    forall p :: ViewOf(c, p) == if p in todo then ViewOf(c0, p) else Track(timeout, ViewOf(c0, p), p, Checked(now))
  }

  function PackChecked(timeout: real, c: Caches, now: real, pack: int): Caches
    requires pack in c.piaSeen
  {
    if now - c.piaSeen[pack] > timeout && pack !in c.warned
    then c.(warned := c.warned + {pack}, log := c.log + [(pack, Expired)]) else c
  }

  lemma CheckingOne(timeout: real, c0: Caches, c: Caches, now: real, todo: set<int>, pack: int)
    requires Checking(timeout, c0, c, now, todo)
    requires pack in todo && pack in c.pia && pack in c.piaSeen
    ensures Checking(timeout, c0, PackChecked(timeout, c, now, pack), now, todo - {pack})
  {
    hide Project;
    forall p
      ensures ViewOf(PackChecked(timeout, c, now, pack), p) ==
                if p in todo - {pack} then ViewOf(c0, p) else Track(timeout, ViewOf(c0, p), p, Checked(now))
    {
      assert ViewOf(c, p) == if p in todo then ViewOf(c0, p) else Track(timeout, ViewOf(c0, p), p, Checked(now));
      ProjectSnoc(c.log, (pack, Expired), p);
    }
  }

  lemma CheckingNone(timeout: real, c: Caches, now: real)
    requires c.pia.Keys == c.piaSeen.Keys
    ensures Checking(timeout, c, c, now, c.pia.Keys)
  {
    hide Project;
  }

  lemma FollowsCheck(timeout: real, c0: Caches, c: Caches, now: real, trace: seq<Event>)
    requires Follows(timeout, c0, trace) && Checking(timeout, c0, c, now, {})
    ensures Follows(timeout, c, trace + [Checked(now)])
  {
    hide Replay, ViewOf, Track;
    forall p { ReplaySnoc(timeout, p, trace, Checked(now)); }
  }

  lemma CountsMore(total: nat, byPack: map<int, nat>, pias: map<int, nat>, trace: seq<Event>, e: Event)
    requires Counts(total, byPack, pias, trace)
    ensures e.Checked? ==> Counts(total, byPack, pias, trace + [e])
    ensures !e.Checked? ==>
              var byPack' := byPack[e.pack := Tally(byPack, e.pack) + 1];
              var pias' := if e.HeardPia? then pias[e.pack := Tally(pias, e.pack) + 1] else pias;
              Counts(total + 1, byPack', pias', trace + [e])
  {
    hide Answers, AnswersOf, PiasOf;
    CountSnoc(trace, e);
  }

  class BmsService {
    const cfg: Config
    var piaState: map<int, Pack>
    var piaSeen: map<int, real>
    var pibState: map<int, Temps>
    var pibSeen: map<int, real>
    var staleWarned: set<int>
    var log: seq<(int, Notice)>
    var parsesOk: nat
    var parsesByPack: map<int, nat>
    var piaParsesByPack: map<int, nat>
    var energyIn: real
    var energyOut: real
    var lastSample: Option<real>
    var lastSave: real
    var file: Option<Energy.EnergyFile>
    var tmp: Option<Files.File<Energy.EnergyFile>>
    ghost var trace: seq<Event>

    /** The fields are what the history of polls and checks makes them. */
    ghost predicate Valid()
      reads this
    {
      && piaState.Keys == piaSeen.Keys && pibState.Keys == pibSeen.Keys
      && Follows(cfg.staleTimeout, CachesNow(), trace)
      && Counts(parsesOk, parsesByPack, piaParsesByPack, trace)
      && InRange(trace, cfg.packCount)
    }

    function CachesNow(): Caches
      reads `piaState, `piaSeen, `pibState, `pibSeen, `staleWarned, `log
    {
      Caches(piaState, piaSeen, pibState, pibSeen, staleWarned, log)
    }

    function StoreNow(): Store
      reads this
    {
      Store(Energy.Energy(energyIn, energyOut, lastSample, lastSave), file)
    }

    /** `file` and `tmp` are what an earlier process left on the disk. */
    constructor (cfg: Config, now: real, file: Option<Energy.EnergyFile>, tmp: Option<Files.File<Energy.EnergyFile>>)
      ensures Valid() && trace == [] && this.cfg == cfg && this.tmp == tmp
      ensures StoreNow() == Store(Energy.Energy(0.0, 0.0, None, now), file)
    {
      this.cfg := cfg;
      piaState, piaSeen, pibState, pibSeen := map[], map[], map[], map[];
      staleWarned, log := {}, [];
      parsesOk := 0;
      parsesByPack := map[1 := 0, 2 := 0, 3 := 0, 4 := 0];
      piaParsesByPack := map[1 := 0, 2 := 0, 3 := 0, 4 := 0];
      energyIn, energyOut, lastSample, lastSave := 0.0, 0.0, None, now;
      this.file, this.tmp := file, tmp;
      trace := [];
    }

    /** The bookkeeping of an answered PIA poll. */
    method KeepPia(pack: int, reading: Pack, at: real)
      requires Valid() && 1 <= pack <= cfg.packCount
      modifies `piaState, `piaSeen, `staleWarned, `log, `parsesOk, `parsesByPack, `piaParsesByPack, `trace
      ensures Valid() && trace == old(trace) + [HeardPia(pack, reading, at)]
    {
      hide Follows, InRange, Counts, Tally, Replay, ViewOf;
      InRangeMore(trace, HeardPia(pack, reading, at), cfg.packCount);
      FollowsPia(cfg.staleTimeout, CachesNow(), trace, pack, reading, at);
      CountsMore(parsesOk, parsesByPack, piaParsesByPack, trace, HeardPia(pack, reading, at));
      piaState := piaState[pack := reading];
      piaSeen := piaSeen[pack := at];
      assert pack !in staleWarned ==> staleWarned - {pack} == staleWarned;
      if pack in staleWarned {
        staleWarned := staleWarned - {pack};
        log := log + [(pack, Recovered)];
      }
      assert piaState.Keys == piaSeen.Keys;
      assert Follows(cfg.staleTimeout, CachesNow(), trace + [HeardPia(pack, reading, at)]);
      parsesOk := parsesOk + 1;
      parsesByPack := parsesByPack[pack := Tally(parsesByPack, pack) + 1];
      piaParsesByPack := piaParsesByPack[pack := Tally(piaParsesByPack, pack) + 1];
      trace := trace + [HeardPia(pack, reading, at)];
      assert Follows(cfg.staleTimeout, CachesNow(), trace);
      assert Counts(parsesOk, parsesByPack, piaParsesByPack, trace);
    }

    method KeepPib(pack: int, temps: Temps, at: real)
      requires Valid() && 1 <= pack <= cfg.packCount
      modifies `pibState, `pibSeen, `parsesOk, `parsesByPack, `trace
      ensures Valid() && trace == old(trace) + [HeardPib(pack, temps, at)]
      ensures pibState == old(pibState)[pack := temps] && pibSeen == old(pibSeen)[pack := at]
    {
      hide Follows, InRange, Counts;
      InRangeMore(trace, HeardPib(pack, temps, at), cfg.packCount);
      FollowsPib(cfg.staleTimeout, CachesNow(), trace, pack, temps, at);
      CountsMore(parsesOk, parsesByPack, piaParsesByPack, trace, HeardPib(pack, temps, at));
      pibState := pibState[pack := temps];
      pibSeen := pibSeen[pack := at];
      parsesOk := parsesOk + 1;
      parsesByPack := parsesByPack[pack := Tally(parsesByPack, pack) + 1];
      trace := trace + [HeardPib(pack, temps, at)];
    }

    /** Splits off the recent readings; a pack is logged when it goes stale. */
    method FreshStates(now: real) returns (freshPia: map<int, Pack>, freshPib: map<int, Temps>)
      requires Valid()
      modifies `staleWarned, `log, `trace
      ensures Valid() && trace == old(trace) + [Checked(now)]
      ensures freshPia == map p | p in piaState && now - piaSeen[p] <= cfg.staleTimeout :: piaState[p]
      ensures freshPib == map p | p in pibState && now - pibSeen[p] <= 2.0 * cfg.slowInterval :: pibState[p]
    {
      hide Follows, InRange, Counts, Checking;
      ghost var before := CachesNow();
      CheckingNone(cfg.staleTimeout, before, now);
      freshPia := map[];
      var todo := piaState.Keys;
      while todo != {}
        modifies `staleWarned, `log
        invariant todo <= piaState.Keys
        invariant freshPia == map p | p in piaState && p !in todo && now - piaSeen[p] <= cfg.staleTimeout :: piaState[p]
        invariant Checking(cfg.staleTimeout, before, CachesNow(), now, todo)
      {
        Inhabited(todo);
        var pack :| pack in todo;
        CheckingOne(cfg.staleTimeout, before, CachesNow(), now, todo, pack);
        var age := now - piaSeen[pack];
        if age <= cfg.staleTimeout {
          freshPia := freshPia[pack := piaState[pack]];
        } else if pack !in staleWarned {
          staleWarned := staleWarned + {pack};
          log := log + [(pack, Expired)];
        }
        todo := todo - {pack};
      }
      freshPib := map p | p in pibState && now - pibSeen[p] <= 2.0 * cfg.slowInterval :: pibState[p];
      InRangeMore(trace, Checked(now), cfg.packCount);
      FollowsCheck(cfg.staleTimeout, before, CachesNow(), now, trace);
      CountsMore(parsesOk, parsesByPack, piaParsesByPack, trace, Checked(now));
      trace := trace + [Checked(now)];
    }

    /** The readings as aggregate_bank gets them. */
    method Listed(recent: map<int, Pack>, now: real) returns (packs: seq<Pack>)
      requires Valid()
      requires recent == map p | p in piaState && now - piaSeen[p] <= cfg.staleTimeout :: piaState[p]
      ensures packs == FreshPacks(cfg.staleTimeout, trace, now, cfg.packCount)
    {
      hide Replay, Project, Counts;
      packs := [];
      for i := 0 to cfg.packCount
        invariant packs == FreshPacks(cfg.staleTimeout, trace, now, i)
      {
        assert ViewOf(CachesNow(), i + 1) == Replay(cfg.staleTimeout, i + 1, trace);
        if i + 1 in recent { packs := packs + [recent[i + 1]]; }
      }
    }

    method ListedCells(recent: map<int, Temps>, now: real) returns (cells: seq<Temps>)
      requires Valid()
      requires recent == map p | p in pibState && now - pibSeen[p] <= 2.0 * cfg.slowInterval :: pibState[p]
      ensures cells == FreshPibs(cfg.staleTimeout, 2.0 * cfg.slowInterval, trace, now, cfg.packCount)
    {
      hide Replay, Project, Counts;
      cells := [];
      for i := 0 to cfg.packCount
        invariant cells == FreshPibs(cfg.staleTimeout, 2.0 * cfg.slowInterval, trace, now, i)
      {
        assert ViewOf(CachesNow(), i + 1) == Replay(cfg.staleTimeout, i + 1, trace);
        if i + 1 in recent { cells := cells + [recent[i + 1]]; }
      }
    }

    /** However the save ends, and whatever temporary file an earlier one left:
        the file is untouched or holds the complete counters, also after a power
        loss. */
    method SaveEnergyState(save: Files.Ending)
      modifies `file, `tmp
      ensures save.steps < 5 ==> file == old(file)
      ensures save.steps >= 5 ==> file == Some(Energy.Fields(Energy.Number(energyIn), Energy.Number(energyOut)))
      ensures save.steps >= 5 || (save.Raises? && !save.unlinkFails) ==> tmp == None
      ensures save.steps <= 1 && !(save.Raises? && !save.unlinkFails) ==> tmp == old(tmp)
    {
      if save.steps > 1 {
        tmp := Some(Files.File(Energy.Unusable, false));
        if save.steps > 2 {
          var data := Energy.Fields(Energy.Number(energyIn), Energy.Number(energyOut));
          tmp := Some(Files.File(data, false));
          if save.steps > 3 {
            tmp := Some(tmp.value.(synced := true));
            if save.steps > 4 {
              file := Some(Files.AfterPowerLoss(tmp.value, Energy.Unusable));
              tmp := None;
              return;
            }
          }
        }
      }
      if save.Raises? && !save.unlinkFails { tmp := None; }
    }

    method LoadEnergyState(readable: bool)
      modifies `energyIn, `energyOut
      ensures (energyIn, energyOut) == Energy.LoadedOver(old(energyIn), old(energyOut), file, readable)
    {
      if file == None { return; }
      if !readable || file.value.Unusable? || file.value.inWh.Refused? { return; }
      energyIn := Energy.Default(file.value.inWh);
      if file.value.outWh.Refused? { return; }
      energyOut := Energy.Default(file.value.outWh);
    }

    method IntegrateEnergy(bank: Option<Bank>, now: real, save: Files.Ending)
      modifies `energyIn, `energyOut, `lastSample, `lastSave, `file, `tmp
      ensures StoreNow() == Integrated(old(StoreNow()), bank, now, save)
    {
      if lastSample == None || bank == None {
        lastSample := Some(now);
        return;
      }
      var seconds := now - lastSample.value;
      lastSample := Some(now);
      if seconds > 0.0 && seconds < Energy.MAX_GAP {
        energyIn := energyIn + Energy.OverSeconds(bank.value.powerCharging, seconds);
        energyOut := energyOut + Energy.OverSeconds(bank.value.powerDischarging, seconds);
      }
      if now - lastSave >= Energy.SAVE_EVERY {
        SaveEnergyState(save);
        lastSave := now;
      }
    }

    /** The PIA round; exit says that the poll loop is left. */
    method PollPia(polls: seq<Poll<Pack>>) returns (ok: nat, exit: Option<Exit>)
      requires Valid() && |polls| == cfg.packCount
      modifies `piaState, `piaSeen, `staleWarned, `log, `parsesOk, `parsesByPack, `piaParsesByPack, `trace
      ensures Valid()
      ensures trace == old(trace) + PiaRound(polls).events
      ensures ok == PiaRound(polls).answered && exit == PiaRound(polls).exit
    {
      hide Follows, InRange, Counts, PiaRound;
      ok, exit := 0, None;
      PiaNone();
      assert polls[..0] == [];
      for i := 0 to |polls|
        invariant Valid()
        invariant PiaRound(polls[..i]).answered == ok && PiaRound(polls[..i]).exit.None? && exit.None?
        invariant trace == old(trace) + PiaRound(polls[..i]).events
      {
        PiaNext(polls, i);
        match polls[i].reply {
          case Answered(reading, at) =>
            KeepPia(i + 1, reading, at);
            assert trace == old(trace) + (PiaRound(polls[..i]).events + [HeardPia(i + 1, reading, at)]);
            ok := ok + 1;
          case Failed(connected) =>
            if !connected { return ok, Some(LinkDown); }
          case Raised =>
            return ok, Some(Escaped);
        }
        if polls[i].stopped { return ok, Some(StopRequested); }
      }
      assert polls[..|polls|] == polls;
    }

    /** The PIB round. */
    method PollPib(polls: seq<Poll<Temps>>) returns (ok: nat, exit: Option<Exit>)
      requires Valid() && |polls| == cfg.packCount
      modifies `pibState, `pibSeen, `parsesOk, `parsesByPack, `trace
      ensures Valid()
      ensures trace == old(trace) + PibRound(polls).events
      ensures ok == PibRound(polls).answered && exit == PibRound(polls).exit
    {
      hide Follows, InRange, Counts, PibRound;
      ok, exit := 0, None;
      PibNone();
      assert polls[..0] == [];
      for i := 0 to |polls|
        invariant Valid()
        invariant PibRound(polls[..i]).answered == ok && PibRound(polls[..i]).exit.None? && exit.None?
        invariant trace == old(trace) + PibRound(polls[..i]).events
      {
        PibNext(polls, i);
        match polls[i].reply {
          case Answered(temps, at) =>
            KeepPib(i + 1, temps, at);
            assert trace == old(trace) + (PibRound(polls[..i]).events + [HeardPib(i + 1, temps, at)]);
            ok := ok + 1;
          case Failed(connected) =>
            if !connected { return ok, Some(LinkDown); }
          case Raised =>
            return ok, Some(Escaped);
        }
        if polls[i].stopped { return ok, Some(StopRequested); }
      }
      assert polls[..|polls|] == polls;
    }

    /** The rounds of one turn. */
    method PollPacks(c: Cycle, lastSlow: real) returns (ok: nat, exit: Option<Exit>, slow: real)
      requires Valid() && Scripted(cfg, [c]) && !c.stopped
      modifies `piaState, `piaSeen, `pibState, `pibSeen, `staleWarned, `log
      modifies `parsesOk, `parsesByPack, `piaParsesByPack, `trace
      ensures Valid()
      ensures trace == old(trace) + Rounds(cfg, c, lastSlow).events
      ensures ok == Rounds(cfg, c, lastSlow).answered && exit == Rounds(cfg, c, lastSlow).exit
      ensures exit == None ==> slow == if SlowDue(cfg, c, lastSlow) then c.start else lastSlow
    {
      hide Follows, InRange, Counts, PiaRound, PibRound;
      assert [c][0] == c;
      slow := lastSlow;
      ok, exit := PollPia(c.pia);
      if exit.Some? { return; }
      if c.start - lastSlow >= cfg.slowInterval {
        slow := c.start;
        var more, leave := PollPib(c.pib);
        assert trace == old(trace) + (PiaRound(c.pia).events + PibRound(c.pib).events);
        ok, exit := ok + more, leave;
      }
    }

    /** The end of a turn: the bank from the recent readings, its hottest cell
        and its energy. */
    method CloseTurn(c: Cycle) returns (hottest: Option<real>)
      requires Valid()
      modifies `staleWarned, `log, `trace, `energyIn, `energyOut, `lastSample, `lastSave, `file, `tmp
      ensures Valid() && trace == old(trace) + [Checked(c.checked)]
      ensures StoreNow() == Integrated(old(StoreNow()), BankAt(cfg.staleTimeout, trace, c.checked, cfg.packCount),
                                       c.sampled, c.save)
      ensures Hottest(ClosingAt(cfg, trace, c.checked).cells, hottest)
    {
      hide Follows, InRange, Counts, FreshPacks, FreshPibs, Integrated, Aggregate, Hottest;
      var pia, pib := FreshStates(c.checked);
      var packs := Listed(pia, c.checked);
      var cells := ListedCells(pib, c.checked);
      hottest := MaxCellTemp(cells);
      IntegrateEnergy(Aggregate(packs), c.sampled, c.save);
    }

    method PollLoop(cycles: seq<Cycle>) returns (exit: Exit, hottest: seq<Option<real>>)
      requires Valid() && Scripted(cfg, cycles)
      modifies this
      ensures Valid() && old(trace) <= trace
      ensures Published(Closings(cfg, trace, |old(trace)|), hottest)
      ensures exit == Loop(cfg, cycles, Starting(old(trace), old(StoreNow()))).exit
      ensures trace == Loop(cfg, cycles, Starting(old(trace), old(StoreNow()))).trace
      ensures StoreNow() == Loop(cfg, cycles, Starting(old(trace), old(StoreNow()))).store
    {
      hide Valid, Rounds, BankAt, Integrated, Loop, ClosingAt, Closings, Hottest, Answer;
      var lastSlow, failed := 0.0, 0;
      hottest := [];
      NoClosings(cfg, trace);
      ghost var all := Loop(cfg, cycles, Starting(trace, StoreNow()));
      assert cycles[0..] == cycles;
      for i := 0 to |cycles|
        invariant Valid() && old(trace) <= trace
        invariant Published(Closings(cfg, trace, |old(trace)|), hottest)
        invariant all == Loop(cfg, cycles[i..], Progress(lastSlow, failed, i, trace, StoreNow()))
      {
        var c := cycles[i];
        StoppedTurn(cfg, c, lastSlow);
        LoopNext(cfg, cycles, i, Progress(lastSlow, failed, i, trace, StoreNow()));
        assert trace + [] == trace;
        if c.stopped { return StopRequested, hottest; }
        assert Scripted(cfg, [c]);
        RoundsHear(cfg, c, lastSlow);
        ClosingsQuiet(cfg, trace, |old(trace)|, Rounds(cfg, c, lastSlow).events);
        var ok, left, slow := PollPacks(c, lastSlow);
        if left.Some? { return left.value, hottest; }
        lastSlow := slow;
        if ok == 0 {
          failed := failed + 1;
          if failed >= cfg.maxFailedCycles { return Zombie, hottest; }
        } else {
          failed := 0;
        }
        ClosingsCheck(cfg, trace, |old(trace)|, c.checked);
        var cell := CloseTurn(c);
        hottest := hottest + [cell];
        if c.end - c.start < cfg.fastInterval && c.stopInWait { return StopRequested, hottest; }
      }
      LoopDone(cfg, Progress(lastSlow, failed, |cycles|, trace, StoreNow()));
      assert cycles[|cycles|..] == [];
      exit := Escaped;
    }

    /** Connects, polls until the loop is left, waits, and tries again. */
    method RunAsync(attempts: seq<Attempt>) returns (waits: seq<real>, hottest: seq<Option<real>>)
      requires Valid() && forall i :: 0 <= i < |attempts| ==> Scripted(cfg, attempts[i].cycles)
      modifies this
      ensures Valid() && old(trace) <= trace
      ensures Published(Closings(cfg, trace, |old(trace)|), hottest)
      ensures |waits| <= |attempts|
      ensures Starting(trace, StoreNow()) == Attempted(cfg, attempts[..|waits|], Starting(old(trace), old(StoreNow())))
      ensures forall i: nat :: i < |waits| ==> waits[i] == Backoff(cfg, Streak(attempts, i))
      ensures forall i :: 0 <= i < |waits| ==> !attempts[i].stopped && (i < |waits| - 1 ==> !attempts[i].stopInWait)
      ensures |waits| == |attempts| || attempts[|waits|].stopped || (waits != [] && attempts[|waits| - 1].stopInWait)
    {
      hide Valid, Loop, Backoff, Streak, Scripted, Closings, Hottest;
      var backoff := cfg.initialBackoff;
      waits, hottest := [], [];
      NoClosings(cfg, trace);
      BackoffStart(cfg);
      ghost var was := Starting(trace, StoreNow());
      assert attempts[..0] == [] && Attempted(cfg, [], was) == was;
      for i := 0 to |attempts|
        invariant Valid() && old(trace) <= trace
        invariant Published(Closings(cfg, trace, |old(trace)|), hottest)
        invariant Starting(trace, StoreNow()) == Attempted(cfg, attempts[..i], was)
        invariant |waits| == i && backoff == Backoff(cfg, if i == 0 then 0 else Streak(attempts, i - 1) + 1)
        invariant forall k: nat :: k < i ==> waits[k] == Backoff(cfg, Streak(attempts, k))
        invariant forall k :: 0 <= k < i ==> !attempts[k].stopped && !attempts[k].stopInWait
      {
        if attempts[i].stopped { return; }
        BackoffStep(cfg, attempts, i);
        AttemptedNext(cfg, attempts, i, was);
        if attempts[i].connects {
          backoff := cfg.initialBackoff;
          ghost var before := trace;
          var _, more := PollLoop(attempts[i].cycles);
          ClosingsJoin(cfg, trace, |old(trace)|, |before|);
          assert trace[..|before|] == before;
          hottest := hottest + more;
        }
        waits := waits + [backoff];
        if attempts[i].stopInWait { return; }
        backoff := if backoff * 2.0 <= cfg.maxBackoff then backoff * 2.0 else cfg.maxBackoff;
      }
    }
  }

  lemma NoClosings(cfg: Config, trace: seq<Event>)
    ensures Closings(cfg, trace, |trace|) == []
  {}

  lemma LoopDone(cfg: Config, so: Progress)
    ensures Loop(cfg, [], so) == Outcome(Escaped, so.completed, so.trace, so.store)
  {}

  lemma StoppedTurn(cfg: Config, c: Cycle, lastSlow: real)
    ensures c.stopped ==> Rounds(cfg, c, lastSlow) == Round([], 0, Some(StopRequested))
  {}

  lemma LoopNext(cfg: Config, cycles: seq<Cycle>, i: nat, so: Progress)
    requires i < |cycles|
    ensures Loop(cfg, cycles[i..], so) == LoopTurn(cfg, cycles[i], cycles[i + 1..], so)
  {
    hide Rounds, BankAt, Integrated;
    assert cycles[i..][1..] == cycles[i + 1..];
  }

  lemma PiaNone()
    ensures PiaRound([]) == Round([], 0, None)
  {}

  lemma PiaNext(polls: seq<Poll<Pack>>, i: nat)
    requires i < |polls| && PiaRound(polls[..i]).exit == None
    ensures PiaRound(polls[..i + 1]) == Polled(PiaRound(polls[..i]), PiaSignal(polls[i], i + 1), polls[i].stopped)
    ensures PiaRound(polls[..i + 1]).exit.Some? ==> PiaRound(polls) == PiaRound(polls[..i + 1])
  {
    assert polls[..i + 1][..i] == polls[..i];
    if PiaRound(polls[..i + 1]).exit.Some? { PiaLeft(polls, i + 1); }
  }

  lemma PibNone()
    ensures PibRound([]) == Round([], 0, None)
  {}

  lemma PibNext(polls: seq<Poll<Temps>>, i: nat)
    requires i < |polls| && PibRound(polls[..i]).exit == None
    ensures PibRound(polls[..i + 1]) == Polled(PibRound(polls[..i]), PibSignal(polls[i], i + 1), polls[i].stopped)
    ensures PibRound(polls[..i + 1]).exit.Some? ==> PibRound(polls) == PibRound(polls[..i + 1])
  {
    assert polls[..i + 1][..i] == polls[..i];
    if PibRound(polls[..i + 1]).exit.Some? { PibLeft(polls, i + 1); }
  }

  lemma CountSnoc(trace: seq<Event>, e: Event)
    ensures Answers(trace + [e]) == Answers(trace) + if Answer(e) then 1 else 0
    ensures forall p :: AnswersOf(p, trace + [e]) == AnswersOf(p, trace) + if Answer(e) && e.pack == p then 1 else 0
    ensures forall p :: PiasOf(p, trace + [e]) == PiasOf(p, trace) + if e.HeardPia? && e.pack == p then 1 else 0
  {
    assert (trace + [e])[..|trace|] == trace;
  }
}
