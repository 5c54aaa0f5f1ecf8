/**
 daemon.py: one poll per inverter and round on a thread pool, a poll still
 running is skipped, and a status is published from the fail counts. The
 main thread and the workers interleave at these events.
 */
module PollScheduler {
  import opened Wrappers

  type Name = string
  type Port = string

  /** The names of the blocks a poll parsed; empty exactly when nothing answered. */
  type Blocks = set<string>

  /** A worker holds its thread from Running until Done; it books its outcome
      under the lock, then its future completes. Done(None) is a crash. */
  datatype Phase = Queued | Running | Booked(out: Blocks) | Done(result: Option<Blocks>)

  datatype Job = Job(round: nat, phase: Phase)

  datatype State = State(inflight: map<Name, Job>, fails: map<Name, nat>)

  datatype Event =
    | Skip(name: Name)
    | Submit(name: Name, round: nat)
    | Start(name: Name)
    | Book(name: Name, out: Blocks)
    | Finish(name: Name)
    | Crash(name: Name)

  datatype Status = Online | Offline

  // ----- the steps -----

  const INIT := State(map[], map[])

  function Fails(s: State, n: Name): nat {
    if n in s.fails then s.fails[n] else 0
  }

  /** The skip guard: a previous poll whose future is not done. */
  predicate Unfinished(s: State, n: Name) {
    n in s.inflight && !s.inflight[n].phase.Done?
  }

  predicate HoldsThread(s: State, n: Name) {
    n in s.inflight && (s.inflight[n].phase.Running? || s.inflight[n].phase.Booked?)
  }

  function Busy(s: State): set<Name> {
    set n | n in s.inflight && HoldsThread(s, n)
  }

  function Outstanding(s: State): set<Name> {
    set n | n in s.inflight && Unfinished(s, n)
  }

  function InPhase(s: State, n: Name, p: Phase): State
    requires n in s.inflight
  {
    s.(inflight := s.inflight[n := s.inflight[n].(phase := p)])
  }

  /** `pool` threads serve the inverters `names`. */
  predicate Enabled(names: set<Name>, pool: nat, s: State, e: Event) {
    e.name in names &&
    match e
    case Skip(n) => Unfinished(s, n)
    case Submit(n, _) => !Unfinished(s, n)
    case Start(n) => n in s.inflight && s.inflight[n].phase.Queued? && |Busy(s)| < pool
    case Book(n, _) => n in s.inflight && s.inflight[n].phase.Running?
    case Finish(n) => n in s.inflight && s.inflight[n].phase.Booked?
    case Crash(n) => n in s.inflight && s.inflight[n].phase.Running?
  }

  function Apply(names: set<Name>, pool: nat, s: State, e: Event): State
    requires Enabled(names, pool, s, e)
  {
    match e
    case Skip(n) => s.(fails := s.fails[n := Fails(s, n) + 1])
    case Submit(n, r) => s.(inflight := s.inflight[n := Job(r, Queued)])
    case Start(n) => InPhase(s, n, Running)
    case Book(n, out) =>
      InPhase(s, n, Booked(out)).(fails := s.fails[n := if out != {} then 0 else Fails(s, n) + 1])
    case Finish(n) => InPhase(s, n, Done(Some(s.inflight[n].phase.out)))
    case Crash(n) => InPhase(s, n, Done(None))
  }

  // ----- runs -----

  ghost predicate Legal(names: set<Name>, pool: nat, trace: seq<Event>)
    decreases |trace|, 0
  {
    trace == [] ||
    var n := |trace| - 1;
    Legal(names, pool, trace[..n]) && Enabled(names, pool, After(names, pool, trace[..n]), trace[n])
  }

  ghost function After(names: set<Name>, pool: nat, trace: seq<Event>): State
    requires Legal(names, pool, trace)
    decreases |trace|, 1
  {
    if trace == [] then INIT
    else
      var n := |trace| - 1;
      Apply(names, pool, After(names, pool, trace[..n]), trace[n])
  }

  // ----- what the events say, without the state -----

  datatype Kind = Skipped | Succeeded | Failed | Crashed | Other

  function KindOf(e: Event): Kind {
    match e
    case Skip(_) => Skipped
    case Book(_, out) => if out != {} then Succeeded else Failed
    case Crash(_) => Crashed
    case _ => Other
  }

  function Count(trace: seq<Event>, n: Name, k: Kind): nat {
    if trace == [] then 0
    else
      var last := trace[|trace| - 1];
      Count(trace[..|trace| - 1], n, k) + (if last.name == n && KindOf(last) == k then 1 else 0)
  }

  predicate MainStep(e: Event) {
    e.Skip? || e.Submit?
  }

  /** The rounds in which the main thread came to `n`. */
  function Rounds(trace: seq<Event>, n: Name): nat {
    if trace == [] then 0
    else
      var last := trace[|trace| - 1];
      Rounds(trace[..|trace| - 1], n) + (if last.name == n && MainStep(last) then 1 else 0)
  }

  /** Skips and failures of `n` since its last success. */
  function FailsSince(trace: seq<Event>, n: Name): nat {
    if trace == [] then 0
    else
      var last := trace[|trace| - 1];
      var before := FailsSince(trace[..|trace| - 1], n);
      if last.name != n then before
      else match KindOf(last)
        case Succeeded => 0
        case Skipped => before + 1
        case Failed => before + 1
        case _ => before
  }

  // ----- guarantees over every run -----

  /** A poll whose outcome is not booked yet. */
  predicate InFlight(s: State, n: Name) {
    n in s.inflight && (s.inflight[n].phase.Queued? || s.inflight[n].phase.Running?)
  }

  /** Every round of an inverter is accounted for exactly once. */
  lemma {:induction false} RoundsConserved(names: set<Name>, pool: nat, trace: seq<Event>, n: Name)
    requires Legal(names, pool, trace)
    ensures Rounds(trace, n) ==
            Count(trace, n, Skipped) + Count(trace, n, Succeeded) + Count(trace, n, Failed) + Count(trace, n, Crashed)
            + (if InFlight(After(names, pool, trace), n) then 1 else 0)
    decreases |trace|
  {
    if trace == [] {
    } else {
      RoundsConserved(names, pool, trace[..|trace| - 1], n);
    }
  }

  lemma {:induction false} FailCountExact(names: set<Name>, pool: nat, trace: seq<Event>, n: Name)
    requires Legal(names, pool, trace)
    ensures Fails(After(names, pool, trace), n) == FailsSince(trace, n)
    decreases |trace|
  {
    if trace == [] {
    } else {
      FailCountExact(names, pool, trace[..|trace| - 1], n);
    }
  }

  lemma {:induction false} OnlyConfigured(names: set<Name>, pool: nat, trace: seq<Event>)
    requires Legal(names, pool, trace)
    ensures After(names, pool, trace).inflight.Keys <= names
    decreases |trace|
  {
    if trace == [] {
    } else {
      OnlyConfigured(names, pool, trace[..|trace| - 1]);
    }
  }

  lemma SubsetSize<T>(a: set<T>, b: set<T>)
    requires a <= b
    ensures |a| <= |b|
    decreases b
  {
    if a != {} {
      var x :| x in a;
      SubsetSize(a - {x}, b - {x});
    }
  }

  /** At most one poll an inverter is outstanding, never more than the pool
      holds, and a queued poll always finds a free thread: no wedged inverter
      makes another one wait. */
  lemma NeverQueuesBehind(names: set<Name>, pool: nat, trace: seq<Event>, n: Name)
    requires Legal(names, pool, trace) && |names| <= pool
    ensures var s := After(names, pool, trace);
            && |Outstanding(s)| <= pool
            && (n in s.inflight && s.inflight[n].phase.Queued? ==> Enabled(names, pool, s, Start(n)))
  {
    var s := After(names, pool, trace);
    OnlyConfigured(names, pool, trace);
    SubsetSize(Outstanding(s), names);
    if n in s.inflight && s.inflight[n].phase.Queued? {
      assert n in Outstanding(s) && n !in Busy(s);
      SubsetSize(Busy(s), Outstanding(s) - {n});
    }
  }

  // ----- fail counts, from the events alone -----

  /** Skips and empty bookings of `n`, in order, with no success after the first. */
  predicate AreMisses(trace: seq<Event>, n: Name, idx: seq<nat>) {
    && (forall a, b :: 0 <= a < b < |idx| ==> idx[a] < idx[b])
    && (forall a :: 0 <= a < |idx| ==>
          idx[a] < |trace| && (trace[idx[a]] == Skip(n) || trace[idx[a]] == Book(n, {})))
    && (forall a, m :: 0 <= a < |idx| && idx[a] < m < |trace| ==>
          !(trace[m].Book? && trace[m].name == n && trace[m].out != {}))
  }

  ghost predicate MissedSince(trace: seq<Event>, n: Name, c: nat) {
    exists idx: seq<nat> :: AreMisses(trace, n, idx) && |idx| == c
  }

  /** Misses stay misses unless a success comes after them, */
  lemma MissesKept(trace: seq<Event>, n: Name, idx: seq<nat>)
    requires trace != [] && AreMisses(trace[..|trace| - 1], n, idx)
    requires var e := trace[|trace| - 1]; !(e.Book? && e.name == n && e.out != {})
    ensures AreMisses(trace, n, idx)
  {}

  /** and another one can follow. */
  lemma MissesMore(trace: seq<Event>, n: Name, idx: seq<nat>)
    requires trace != [] && AreMisses(trace, n, idx) && forall a :: 0 <= a < |idx| ==> idx[a] < |trace| - 1
    requires trace[|trace| - 1] == Skip(n) || trace[|trace| - 1] == Book(n, {})
    ensures AreMisses(trace, n, idx + [|trace| - 1])
  {}

  lemma MissesWithin(trace: seq<Event>, n: Name, idx: seq<nat>)
    requires AreMisses(trace, n, idx)
    ensures forall a :: 0 <= a < |idx| ==> idx[a] < |trace|
  {}

  lemma NoMisses(trace: seq<Event>, n: Name)
    ensures AreMisses(trace, n, [])
  {}

  lemma {:induction false} MissesFound(trace: seq<Event>, n: Name, c: nat) returns (idx: seq<nat>)
    requires FailsSince(trace, n) >= c
    ensures AreMisses(trace, n, idx) && |idx| == c
    decreases |trace|
  {
    hide AreMisses;
    idx := [];
    if c == 0 {
      NoMisses(trace, n);
    } else {
      var before, e := trace[..|trace| - 1], trace[|trace| - 1];
      if e == Skip(n) || e == Book(n, {}) {
        var rest := MissesFound(before, n, c - 1);
        MissesWithin(before, n, rest);
        MissesKept(trace, n, rest);
        MissesMore(trace, n, rest);
        idx := rest + [|trace| - 1];
      } else {
        idx := MissesFound(before, n, c);
        MissesKept(trace, n, idx);
      }
    }
  }

  lemma {:induction false} MissesCounted(trace: seq<Event>, n: Name, idx: seq<nat>)
    requires AreMisses(trace, n, idx)
    ensures FailsSince(trace, n) >= |idx|
    decreases |trace|
  {
    if idx == [] {
    } else {
      var last, end := |trace| - 1, |idx| - 1;
      assert idx[end] < |trace|;
      var before := trace[..last];
      if idx[end] == last {
        assert AreMisses(before, n, idx[..end]);
        MissesCounted(before, n, idx[..end]);
      } else {
        assert forall a :: 0 <= a < |idx| ==> idx[a] <= idx[end] < last;
        assert AreMisses(before, n, idx);
        MissesCounted(before, n, idx);
        assert !(trace[last].Book? && trace[last].name == n && trace[last].out != {});
      }
    }
  }

  /** The fail count reaches c iff there are c misses and no success since the
      first of them. */
  lemma FailsExact(names: set<Name>, pool: nat, trace: seq<Event>, n: Name, c: nat)
    requires Legal(names, pool, trace)
    ensures Fails(After(names, pool, trace), n) >= c <==> MissedSince(trace, n, c)
  {
    hide Legal, After, FailsSince, AreMisses;
    FailCountExact(names, pool, trace, n);
    if FailsSince(trace, n) >= c {
      var idx := MissesFound(trace, n, c);
    }
    if MissedSince(trace, n, c) {
      var idx: seq<nat> :| AreMisses(trace, n, idx) && |idx| == c;
      MissesCounted(trace, n, idx);
    }
  }

  // ----- what a future holds, from the events alone -----

  /** trace[s] is the last submission of a poll of `n`. */
  predicate LastSubmit(trace: seq<Event>, n: Name, s: nat) {
    && s < |trace| && trace[s].Submit? && trace[s].name == n
    && forall j :: s < j < |trace| ==> !(trace[j].Submit? && trace[j].name == n)
  }

  predicate Never(trace: seq<Event>, s: nat, e: Event) {
    forall j :: s < j < |trace| ==> trace[j] != e
  }

  predicate NoBook(trace: seq<Event>, s: nat, n: Name) {
    forall j :: s < j < |trace| ==> !(trace[j].Book? && trace[j].name == n)
  }

  /** After trace[s], `n` booked `out` and nothing else. */
  predicate BookedAt(trace: seq<Event>, s: nat, n: Name, out: Blocks, b: nat) {
    && s < b < |trace| && trace[b] == Book(n, out)
    && forall j :: s < j < |trace| && trace[j].Book? && trace[j].name == n ==> j == b
  }

  predicate FinishedAt(trace: seq<Event>, b: nat, n: Name, f: nat) {
    b < f < |trace| && trace[f] == Finish(n)
  }

  /** What the events since the last submission make of its poll. */
  ghost predicate PhaseSays(trace: seq<Event>, s: nat, n: Name, p: Phase) {
    match p
    case Queued =>
      NoBook(trace, s, n) && Never(trace, s, Start(n)) && Never(trace, s, Finish(n)) && Never(trace, s, Crash(n))
    case Running =>
      NoBook(trace, s, n) && !Never(trace, s, Start(n)) && Never(trace, s, Finish(n)) && Never(trace, s, Crash(n))
    case Booked(out) =>
      && (exists b: nat :: BookedAt(trace, s, n, out, b))
      && !Never(trace, s, Start(n)) && Never(trace, s, Finish(n)) && Never(trace, s, Crash(n))
    case Done(Some(out)) =>
      && (exists b: nat, f: nat :: BookedAt(trace, s, n, out, b) && FinishedAt(trace, b, n, f))
      && !Never(trace, s, Start(n)) && Never(trace, s, Crash(n))
    case Done(None) =>
      && NoBook(trace, s, n) && Never(trace, s, Finish(n))
      && !Never(trace, s, Start(n)) && !Never(trace, s, Crash(n))
  }

  lemma QuietMore(trace: seq<Event>, s: nat, n: Name, e: Event)
    requires s < |trace|
    ensures NoBook(trace + [e], s, n) <==> NoBook(trace, s, n) && !(e.Book? && e.name == n)
    ensures Never(trace + [e], s, Start(n)) <==> Never(trace, s, Start(n)) && e != Start(n)
    ensures Never(trace + [e], s, Finish(n)) <==> Never(trace, s, Finish(n)) && e != Finish(n)
    ensures Never(trace + [e], s, Crash(n)) <==> Never(trace, s, Crash(n)) && e != Crash(n)
  {
    var more := trace + [e];
    assert more[|trace|] == e && forall j :: 0 <= j < |trace| ==> more[j] == trace[j];
  }

  lemma BookedMore(trace: seq<Event>, s: nat, n: Name, out: Blocks, b: nat, e: Event)
    requires BookedAt(trace, s, n, out, b) && !(e.Book? && e.name == n)
    ensures BookedAt(trace + [e], s, n, out, b)
  {
    var more := trace + [e];
    assert more[|trace|] == e && forall j :: 0 <= j < |trace| ==> more[j] == trace[j];
  }

  lemma BookedNow(trace: seq<Event>, s: nat, n: Name, out: Blocks)
    requires s < |trace| && NoBook(trace, s, n)
    ensures BookedAt(trace + [Book(n, out)], s, n, out, |trace|)
  {
    var more := trace + [Book(n, out)];
    assert more[|trace|] == Book(n, out) && forall j :: 0 <= j < |trace| ==> more[j] == trace[j];
  }

  lemma FinishedMore(trace: seq<Event>, b: nat, n: Name, e: Event)
    ensures forall f: nat :: FinishedAt(trace, b, n, f) ==> FinishedAt(trace + [e], b, n, f)
    ensures b < |trace| && e == Finish(n) ==> FinishedAt(trace + [e], b, n, |trace|)
  {}

  /** An event of `n`'s poll in each phase, or of another inverter. */
  lemma PhaseStep(names: set<Name>, pool: nat, st: State, trace: seq<Event>, n: Name, s: nat, e: Event)
    requires Enabled(names, pool, st, e) && s < |trace| && !(e.Submit? && e.name == n)
    requires n in st.inflight && PhaseSays(trace, s, n, st.inflight[n].phase)
    ensures n in Apply(names, pool, st, e).inflight
    ensures PhaseSays(trace + [e], s, n, Apply(names, pool, st, e).inflight[n].phase)
  {
    hide NoBook, Never, BookedAt, FinishedAt;
    var p := st.inflight[n].phase;
    QuietMore(trace, s, n, e);
    if e.Book? && e.name == n {
      BookedNow(trace, s, n, e.out);
    } else if p.Booked? {
      var b: nat :| BookedAt(trace, s, n, p.out, b);
      BookedMore(trace, s, n, p.out, b, e);
      FinishedMore(trace, b, n, e);
      InTrace(trace, s, n, p.out, b);
    } else if p.Done? && p.result.Some? {
      var b: nat, f: nat :| BookedAt(trace, s, n, p.result.value, b) && FinishedAt(trace, b, n, f);
      BookedMore(trace, s, n, p.result.value, b, e);
      FinishedMore(trace, b, n, e);
    }
  }

  lemma InTrace(trace: seq<Event>, s: nat, n: Name, out: Blocks, b: nat)
    requires BookedAt(trace, s, n, out, b)
    ensures b < |trace|
  {}

  lemma {:induction false} PhaseExact(names: set<Name>, pool: nat, trace: seq<Event>, n: Name, s: nat)
    requires Legal(names, pool, trace) && LastSubmit(trace, n, s)
    ensures n in After(names, pool, trace).inflight
    ensures PhaseSays(trace, s, n, After(names, pool, trace).inflight[n].phase)
    decreases |trace|
  {
    hide PhaseSays, Enabled;
    var before, e := trace[..|trace| - 1], trace[|trace| - 1];
    assert trace == before + [e];
    if s == |trace| - 1 {
      JustSubmitted(trace, n, s);
    } else {
      PhaseExact(names, pool, before, n, s);
      PhaseStep(names, pool, After(names, pool, before), before, n, s, e);
    }
  }

  lemma JustSubmitted(trace: seq<Event>, n: Name, s: nat)
    requires s == |trace| - 1
    ensures PhaseSays(trace, s, n, Queued)
  {}

  // ----- one query at a time on a port -----

  lemma LegalSnoc(names: set<Name>, pool: nat, trace: seq<Event>, e: Event)
    requires Legal(names, pool, trace) && Enabled(names, pool, After(names, pool, trace), e)
    ensures Legal(names, pool, trace + [e])
    ensures After(names, pool, trace + [e]) == Apply(names, pool, After(names, pool, trace), e)
  {
    assert (trace + [e])[..|trace|] == trace;
  }

  function NamesOf(cfg: seq<Name>): set<Name> {
    set n | n in cfg
  }

  function PoolSize(cfg: seq<Name>): nat {
    if |cfg| > 1 then |cfg| else 1
  }

  /** Two workers are polling the same serial port. */
  ghost predicate SharesPort(s: State, portOf: Name -> Port) {
    exists a, b :: a != b && HoldsThread(s, a) && HoldsThread(s, b) && portOf(a) == portOf(b)
  }

  lemma {:induction false} NamesFit(cfg: seq<Name>)
    ensures |NamesOf(cfg)| <= |cfg|
    decreases |cfg|
  {
    if cfg == [] {
    } else {
      NamesFit(cfg[1..]);
      assert NamesOf(cfg) == {cfg[0]} + NamesOf(cfg[1..]) by {
        assert cfg == [cfg[0]] + cfg[1..];
      }
    }
  }

  /** The main thread's events when the first `k` inverters of the first round
      come before any worker's. */
  function FirstRound(cfg: seq<Name>, k: nat): seq<Event>
    requires k <= |cfg|
  {
    if k == 0 then []
    else FirstRound(cfg, k - 1) + [if cfg[k - 1] in cfg[..k - 1] then Skip(cfg[k - 1]) else Submit(cfg[k - 1], 1)]
  }

  lemma FirstRoundStart(names: set<Name>, pool: nat)
    ensures Legal(names, pool, []) && After(names, pool, []) == INIT
  {}

  lemma {:induction false} FirstRoundQueues(cfg: seq<Name>, k: nat)
    requires k <= |cfg|
    ensures Legal(NamesOf(cfg), PoolSize(cfg), FirstRound(cfg, k))
    ensures var s := After(NamesOf(cfg), PoolSize(cfg), FirstRound(cfg, k));
            && (forall n :: n in s.inflight <==> n in cfg[..k])
            && (forall n :: n in s.inflight ==> s.inflight[n].phase == Queued)
  {
    hide Legal, After, PoolSize;
    FirstRoundStart(NamesOf(cfg), PoolSize(cfg));
    if k == 0 {
    } else {
      FirstRoundQueues(cfg, k - 1);
      var t := FirstRound(cfg, k - 1);
      var n := cfg[k - 1];
      var e := if n in cfg[..k - 1] then Skip(n) else Submit(n, 1);
      LegalSnoc(NamesOf(cfg), PoolSize(cfg), t, e);
      assert cfg[..k] == cfg[..k - 1] + [n];
    }
  }

  /** No two workers ever share a port exactly when no two configured names do,
      which loading the configuration does not check. */
  lemma PortsExact(cfg: seq<Name>, portOf: Name -> Port)
    ensures (forall a, b :: a in cfg && b in cfg && a != b ==> portOf(a) != portOf(b)) <==>
            (forall trace :: Legal(NamesOf(cfg), PoolSize(cfg), trace) ==>
               !SharesPort(After(NamesOf(cfg), PoolSize(cfg), trace), portOf))
  {
    var names, pool := NamesOf(cfg), PoolSize(cfg);
    forall trace | Legal(names, pool, trace) && SharesPort(After(names, pool, trace), portOf)
      ensures exists a, b :: a in cfg && b in cfg && a != b && portOf(a) == portOf(b)
    {
      OnlyConfigured(names, pool, trace);
    }
    if a, b :| a in cfg && b in cfg && a != b && portOf(a) == portOf(b) {
      var trace := CollidingRun(cfg, a, b);
      assert SharesPort(After(names, pool, trace), portOf);
    }
  }

  lemma TwoThreads(cfg: seq<Name>, a: Name, b: Name)
    requires a in cfg && b in cfg && a != b
    ensures PoolSize(cfg) >= 2
  {
    var i :| 0 <= i < |cfg| && cfg[i] == a;
    var j :| 0 <= j < |cfg| && cfg[j] == b;
    assert i != j;
  }

  /** A legal run after which the workers of `a` and `b` are both polling. */
  lemma CollidingRun(cfg: seq<Name>, a: Name, b: Name) returns (trace: seq<Event>)
    requires a in cfg && b in cfg && a != b
    ensures Legal(NamesOf(cfg), PoolSize(cfg), trace)
    ensures var s := After(NamesOf(cfg), PoolSize(cfg), trace); HoldsThread(s, a) && HoldsThread(s, b)
  {
    hide Legal, After, FirstRound, PoolSize;
    var names, pool := NamesOf(cfg), PoolSize(cfg);
    FirstRoundQueues(cfg, |cfg|);
    TwoThreads(cfg, a, b);
    assert cfg[..|cfg|] == cfg;
    var t := FirstRound(cfg, |cfg|);
    var s := After(names, pool, t);
    assert Busy(s) == {};
    LegalSnoc(names, pool, t, Start(a));
    var s1 := Apply(names, pool, s, Start(a));
    assert Busy(s1) == {a};
    LegalSnoc(names, pool, t + [Start(a)], Start(b));
    trace := t + [Start(a)] + [Start(b)];
  }

  // ----- results of the current round only -----

  function OutcomeOf(p: Phase): Option<Blocks> {
    match p
    case Booked(out) => Some(out)
    case Done(result) => result
    case _ => None
  }

  /** Every outcome of a poll of round `r` was booked at position `from` or later. */
  ghost predicate BookedSince(s: State, trace: seq<Event>, from: nat, r: nat)
    requires from <= |trace|
  {
    forall n :: n in s.inflight && s.inflight[n].round == r && OutcomeOf(s.inflight[n].phase).Some? ==>
      Book(n, OutcomeOf(s.inflight[n].phase).value) in trace[from..]
  }

  lemma BookedSinceStep(names: set<Name>, pool: nat, s: State, trace: seq<Event>, from: nat, r: nat, e: Event)
    requires from <= |trace| && Enabled(names, pool, s, e) && BookedSince(s, trace, from, r)
    ensures BookedSince(Apply(names, pool, s, e), trace + [e], from, r)
  {
    assert (trace + [e])[from..] == trace[from..] + [e];
  }

  lemma RoundsSnoc(trace: seq<Event>, e: Event, n: Name)
    ensures Rounds(trace + [e], n) == Rounds(trace, n) + (if e.name == n && MainStep(e) then 1 else 0)
  {
    assert (trace + [e])[..|trace|] == trace;
  }

  // ----- a round, event by event -----

  /** The run after worker events were offered to it; those that the state does
      not allow are dropped. */
  ghost function Offered(names: set<Name>, pool: nat, trace: seq<Event>, events: seq<Event>): (r: seq<Event>)
    requires Legal(names, pool, trace)
    ensures Legal(names, pool, r)
    decreases |events|
  {
    if events == [] then trace
    else
      var before, e := Offered(names, pool, trace, events[..|events| - 1]), events[|events| - 1];
      if !MainStep(e) && Enabled(names, pool, After(names, pool, before), e) then
        LegalSnoc(names, pool, before, e);
        before + [e]
      else before
  }

  lemma OfferedNext(names: set<Name>, pool: nat, trace: seq<Event>, events: seq<Event>, i: nat)
    requires Legal(names, pool, trace) && i < |events|
    ensures var before := Offered(names, pool, trace, events[..i]);
            Offered(names, pool, trace, events[..i + 1]) ==
              if !MainStep(events[i]) && Enabled(names, pool, After(names, pool, before), events[i])
              then before + [events[i]] else before
  {
    hide Legal, After, Enabled;
    assert events[..i + 1][..i] == events[..i];
  }

  /** The main thread reaches an inverter: skip it or submit a poll. */
  ghost function TurnTaken(names: set<Name>, pool: nat, trace: seq<Event>, n: Name, round: nat): (r: seq<Event>)
    requires Legal(names, pool, trace) && n in names
    ensures Legal(names, pool, r)
  {
    var e := if Unfinished(After(names, pool, trace), n) then Skip(n) else Submit(n, round);
    LegalSnoc(names, pool, trace, e);
    trace + [e]
  }

  /** The worker events scheduled before step k; none beyond the schedule. */
  function Slot(schedule: seq<seq<Event>>, k: nat): seq<Event> {
    if k < |schedule| then schedule[k] else []
  }

  /** The run after the turns of the first k inverters. */
  ghost function AfterTurns(cfg: seq<Name>, pool: nat, trace: seq<Event>, submitting: seq<seq<Event>>,
                            round: nat, k: nat): (r: seq<Event>)
    requires Legal(NamesOf(cfg), pool, trace) && k <= |cfg|
    ensures Legal(NamesOf(cfg), pool, r)
  {
    if k == 0 then trace
    else
      var before := AfterTurns(cfg, pool, trace, submitting, round, k - 1);
      TurnTaken(NamesOf(cfg), pool, Offered(NamesOf(cfg), pool, before, Slot(submitting, k - 1)), cfg[k - 1], round)
  }

  /** The inverters among the first k that those turns submitted, in order. */
  ghost function Futures(cfg: seq<Name>, pool: nat, trace: seq<Event>, submitting: seq<seq<Event>>,
                         round: nat, k: nat): seq<nat>
    requires Legal(NamesOf(cfg), pool, trace) && k <= |cfg|
  {
    if k == 0 then []
    else
      var before := AfterTurns(cfg, pool, trace, submitting, round, k - 1);
      var offered := Offered(NamesOf(cfg), pool, before, Slot(submitting, k - 1));
      Futures(cfg, pool, trace, submitting, round, k - 1) +
      if Unfinished(After(NamesOf(cfg), pool, offered), cfg[k - 1]) then [] else [k - 1]
  }

  lemma TurnsNext(cfg: seq<Name>, pool: nat, trace: seq<Event>, submitting: seq<seq<Event>>, round: nat, k: nat)
    requires Legal(NamesOf(cfg), pool, trace) && k < |cfg|
    ensures var offered := Offered(NamesOf(cfg), pool, AfterTurns(cfg, pool, trace, submitting, round, k),
                                   Slot(submitting, k));
            && AfterTurns(cfg, pool, trace, submitting, round, k + 1) ==
                 TurnTaken(NamesOf(cfg), pool, offered, cfg[k], round)
            && Futures(cfg, pool, trace, submitting, round, k + 1) ==
                 Futures(cfg, pool, trace, submitting, round, k) +
                 if Unfinished(After(NamesOf(cfg), pool, offered), cfg[k]) then [] else [k]
  {
    hide Legal, After, Offered, TurnTaken, Unfinished;
  }

  /** The run when the k-th gather looks. */
  ghost function AtGather(names: set<Name>, pool: nat, trace: seq<Event>, gathering: seq<seq<Event>>,
                          k: nat): (r: seq<Event>)
    requires Legal(names, pool, trace)
    ensures Legal(names, pool, r)
  {
    Offered(names, pool, if k == 0 then trace else AtGather(names, pool, trace, gathering, k - 1), Slot(gathering, k))
  }

  /** What the future of an inverter's last poll gives a gather after `trace`:
      nothing if it is not done or has crashed. */
  ghost function ResultAt(names: set<Name>, pool: nat, trace: seq<Event>, n: Name): Blocks
    requires Legal(names, pool, trace)
  {
    var s := After(names, pool, trace);
    if n in s.inflight && s.inflight[n].phase.Done? && s.inflight[n].phase.result.Some?
    then s.inflight[n].phase.result.value else {}
  }

  /** What the last submitted poll of `n` gives, from the events alone: the
      blocks it booked, once its future is done, and nothing else. */
  ghost predicate Gives(trace: seq<Event>, n: Name, s: nat, out: Blocks) {
    && (forall b, f :: s < b < f < |trace| && trace[b].Book? && trace[b].name == n && trace[f] == Finish(n) ==>
          out == trace[b].out)
    && (out != {} ==> exists b, f :: s < b < f < |trace| && trace[b] == Book(n, out) && trace[f] == Finish(n))
  }

  lemma ResultExact(names: set<Name>, pool: nat, trace: seq<Event>, n: Name, s: nat)
    requires Legal(names, pool, trace) && LastSubmit(trace, n, s)
    ensures Gives(trace, n, s, ResultAt(names, pool, trace, n))
    ensures (exists j :: s < j < |trace| && trace[j] == Crash(n)) ==> ResultAt(names, pool, trace, n) == {}
    ensures (forall j :: s < j < |trace| ==> trace[j] != Finish(n)) ==> ResultAt(names, pool, trace, n) == {}
  {
    hide Legal, After, Enabled;
    PhaseExact(names, pool, trace, n, s);
    var p := After(names, pool, trace).inflight[n].phase;
    if p.Done? && p.result.Some? {
      var b: nat, f: nat :| BookedAt(trace, s, n, p.result.value, b) && FinishedAt(trace, b, n, f);
    }
  }

  /** A poll is unfinished iff one was submitted and has neither finished nor
      crashed since. */
  lemma UnfinishedExact(names: set<Name>, pool: nat, trace: seq<Event>, n: Name)
    requires Legal(names, pool, trace)
    ensures Unfinished(After(names, pool, trace), n) <==>
            exists s: nat :: LastSubmit(trace, n, s)
                             && forall j :: s < j < |trace| ==> trace[j] != Finish(n) && trace[j] != Crash(n)
  {
    hide Legal, After, Enabled;
    SubmittedOrNot(names, pool, trace, n);
    if s: nat :| LastSubmit(trace, n, s) {
      PhaseExact(names, pool, trace, n, s);
      assert forall r: nat :: LastSubmit(trace, n, r) ==> r == s;
    }
  }

  lemma {:induction false} SubmittedOrNot(names: set<Name>, pool: nat, trace: seq<Event>, n: Name)
    requires Legal(names, pool, trace)
    ensures n in After(names, pool, trace).inflight ==> exists s: nat :: LastSubmit(trace, n, s)
    decreases |trace|
  {
    if trace == [] {
    } else {
      var before, e := trace[..|trace| - 1], trace[|trace| - 1];
      SubmittedOrNot(names, pool, before, n);
      if e.Submit? && e.name == n {
        assert LastSubmit(trace, n, |trace| - 1);
      } else if s: nat :| LastSubmit(before, n, s) {
        assert LastSubmit(trace, n, s);
      }
    }
  }

  /** What the guards of the workers and of the main thread come to, from the
      events since the last submission of the inverter's poll. */
  lemma AllowedExact(names: set<Name>, pool: nat, trace: seq<Event>, n: Name, s: nat, out: Blocks, round: nat)
    requires Legal(names, pool, trace) && LastSubmit(trace, n, s)
    ensures var st := After(names, pool, trace);
            var running := !Never(trace, s, Start(n)) && NoBook(trace, s, n) && Never(trace, s, Crash(n));
            var over := !Never(trace, s, Finish(n)) || !Never(trace, s, Crash(n));
            && (Enabled(names, pool, st, Start(n)) <==> Never(trace, s, Start(n)) && |Busy(st)| < pool)
            && (n in Busy(st) <==> !Never(trace, s, Start(n)) && !over)
            && (Enabled(names, pool, st, Book(n, out)) <==> running)
            && (Enabled(names, pool, st, Crash(n)) <==> running)
            && (Enabled(names, pool, st, Finish(n)) <==> !NoBook(trace, s, n) && Never(trace, s, Finish(n)))
            && (Enabled(names, pool, st, Skip(n)) <==> !over)
            && (Enabled(names, pool, st, Submit(n, round)) <==> over)
  {
    hide Legal, After, Never, NoBook;
    PhaseExact(names, pool, trace, n, s);
    OnlyConfigured(names, pool, trace);
    BooksSeen(trace, s, n);
  }

  lemma BooksSeen(trace: seq<Event>, s: nat, n: Name)
    ensures forall out, b: nat :: BookedAt(trace, s, n, out, b) ==> !NoBook(trace, s, n)
    ensures forall b: nat, f: nat :: s < b && FinishedAt(trace, b, n, f) ==> !Never(trace, s, Finish(n))
    ensures forall out, b: nat :: BookedAt(trace, s, n, out, b) ==> s < b
  {}

  /** Before the first submission an inverter can only be submitted. */
  lemma OnlySubmit(names: set<Name>, pool: nat, trace: seq<Event>, e: Event)
    requires Legal(names, pool, trace) && e.name in names && forall s: nat :: !LastSubmit(trace, e.name, s)
    ensures Enabled(names, pool, After(names, pool, trace), e) <==> e.Submit?
    ensures e.name !in Busy(After(names, pool, trace))
  {
    hide Legal, After;
    SubmittedOrNot(names, pool, trace, e.name);
  }

  // ----- every interleaving is one of these runs -----

  predicate ByWorkers(events: seq<Event>) {
    forall j :: 0 <= j < |events| ==> !events[j].Skip? && !events[j].Submit?
  }

  lemma LegalBefore(names: set<Name>, pool: nat, trace: seq<Event>, events: seq<Event>)
    requires events != [] && Legal(names, pool, trace + events) && ByWorkers(events)
    ensures var init, e := events[..|events| - 1], events[|events| - 1];
            && Legal(names, pool, trace + init) && ByWorkers(init) && trace + events == trace + init + [e]
            && !MainStep(e) && Enabled(names, pool, After(names, pool, trace + init), e)
  {
    hide Enabled, Legal, After;
    assert trace + events == trace + events[..|events| - 1] + [events[|events| - 1]];
    LegalInit(names, pool, trace + events[..|events| - 1], events[|events| - 1]);
  }

  lemma LegalInit(names: set<Name>, pool: nat, trace: seq<Event>, e: Event)
    requires Legal(names, pool, trace + [e])
    ensures Legal(names, pool, trace) && Enabled(names, pool, After(names, pool, trace), e)
  {
    hide Enabled, After;
    assert (trace + [e])[..|trace|] == trace;
  }

  /** Whatever the workers can do next is a schedule of its own: nothing of it
      is dropped. */
  lemma {:induction false} OfferedAll(names: set<Name>, pool: nat, trace: seq<Event>, events: seq<Event>)
    requires Legal(names, pool, trace) && Legal(names, pool, trace + events) && ByWorkers(events)
    ensures Offered(names, pool, trace, events) == trace + events
    decreases |events|
  {
    hide Legal, After, Enabled;
    if events != [] {
      LegalBefore(names, pool, trace, events);
      OfferedAll(names, pool, trace, events[..|events| - 1]);
    }
  }

  /** One turn: any legal worker events, then a skip if a poll is unfinished. */
  lemma TurnExact(cfg: seq<Name>, pool: nat, trace: seq<Event>, submitting: seq<seq<Event>>, round: nat, k: nat)
    requires Legal(NamesOf(cfg), pool, trace) && k < |cfg| && k < |submitting| && ByWorkers(submitting[k])
    requires Legal(NamesOf(cfg), pool, AfterTurns(cfg, pool, trace, submitting, round, k) + submitting[k])
    ensures var at := AfterTurns(cfg, pool, trace, submitting, round, k) + submitting[k];
            var unfinished := exists s: nat :: LastSubmit(at, cfg[k], s)
                                && forall j :: s < j < |at| ==> at[j] != Finish(cfg[k]) && at[j] != Crash(cfg[k]);
            && AfterTurns(cfg, pool, trace, submitting, round, 0) == trace
            && AfterTurns(cfg, pool, trace, submitting, round, k + 1) ==
                 at + [if unfinished then Skip(cfg[k]) else Submit(cfg[k], round)]
  {
    hide Legal, After, Enabled, Offered, Unfinished, LastSubmit, ByWorkers;
    var before := AfterTurns(cfg, pool, trace, submitting, round, k);
    OfferedAll(NamesOf(cfg), pool, before, submitting[k]);
    UnfinishedExact(NamesOf(cfg), pool, before + submitting[k], cfg[k]);
  }

  /** Before each gather: any legal worker events. */
  lemma GatherExact(names: set<Name>, pool: nat, trace: seq<Event>, gathering: seq<seq<Event>>, k: nat)
    requires Legal(names, pool, trace) && k < |gathering| && ByWorkers(gathering[k])
    requires var before := if k == 0 then trace else AtGather(names, pool, trace, gathering, k - 1);
             Legal(names, pool, before + gathering[k])
    ensures AtGather(names, pool, trace, gathering, k) ==
            (if k == 0 then trace else AtGather(names, pool, trace, gathering, k - 1)) + gathering[k]
  {
    hide Legal, Offered, ByWorkers;
    OfferedAll(names, pool, if k == 0 then trace else AtGather(names, pool, trace, gathering, k - 1), gathering[k]);
  }

  predicate Increasing(xs: seq<nat>) {
    forall j, k :: 0 <= j < k < |xs| ==> xs[j] < xs[k]
  }

  /** The main thread's turns at the first k inverters: a poll was submitted for
      those in `futures`, which lists them in order, and the others were
      skipped. */
  predicate Turned(cfg: seq<Name>, k: nat, futures: seq<nat>, round: nat, events: seq<Event>)
    requires k <= |cfg|
  {
    if k == 0 then futures == []
    else if futures != [] && futures[|futures| - 1] == k - 1 then
      Submit(cfg[k - 1], round) in events && Turned(cfg, k - 1, futures[..|futures| - 1], round, events)
    else
      Skip(cfg[k - 1]) in events && Turned(cfg, k - 1, futures, round, events)
  }

  lemma {:induction false} TurnedIn(cfg: seq<Name>, k: nat, futures: seq<nat>, round: nat,
                                    events: seq<Event>, more: seq<Event>)
    requires k <= |cfg| && Turned(cfg, k, futures, round, events) && forall e :: e in events ==> e in more
    ensures Turned(cfg, k, futures, round, more)
  {
    if k == 0 {
    } else if futures != [] && futures[|futures| - 1] == k - 1 {
      TurnedIn(cfg, k - 1, futures[..|futures| - 1], round, events, more);
    } else {
      TurnedIn(cfg, k - 1, futures, round, events, more);
    }
  }

  /** Each of the k inverters is in `futures` or was skipped. */
  lemma {:induction false} TurnedMeans(cfg: seq<Name>, k: nat, futures: seq<nat>, round: nat, events: seq<Event>)
    requires k <= |cfg| && Turned(cfg, k, futures, round, events)
    ensures Increasing(futures) && forall j :: 0 <= j < |futures| ==> futures[j] < k
    ensures forall j :: 0 <= j < |futures| ==> Submit(cfg[futures[j]], round) in events
    ensures forall i :: 0 <= i < k && i !in futures ==> Skip(cfg[i]) in events
  {
    if k == 0 {
    } else if futures != [] && futures[|futures| - 1] == k - 1 {
      TurnedMeans(cfg, k - 1, futures[..|futures| - 1], round, events);
    } else {
      TurnedMeans(cfg, k - 1, futures, round, events);
    }
  }

  /** In the events after the first `from`. */
  predicate TurnedSince(cfg: seq<Name>, k: nat, futures: seq<nat>, round: nat, trace: seq<Event>, from: nat) {
    k <= |cfg| && from <= |trace| && Turned(cfg, k, futures, round, trace[from..])
  }

  lemma TurnedMore(cfg: seq<Name>, k: nat, futures: seq<nat>, round: nat,
                   trace: seq<Event>, longer: seq<Event>, from: nat)
    requires trace <= longer && TurnedSince(cfg, k, futures, round, trace, from)
    ensures TurnedSince(cfg, k, futures, round, longer, from)
  {
    hide Turned;
    assert longer[from..] == trace[from..] + longer[|trace|..];
    TurnedIn(cfg, k, futures, round, trace[from..], longer[from..]);
  }

  lemma TurnedNext(cfg: seq<Name>, k: nat, futures: seq<nat>, round: nat,
                   trace: seq<Event>, longer: seq<Event>, from: nat, submitted: bool)
    requires k < |cfg| && TurnedSince(cfg, k, futures, round, trace, from)
    requires longer == trace + [if submitted then Submit(cfg[k], round) else Skip(cfg[k])]
    ensures TurnedSince(cfg, k + 1, if submitted then futures + [k] else futures, round, longer, from)
  {
    TurnedMore(cfg, k, futures, round, trace, longer, from);
    TurnedMeans(cfg, k, futures, round, trace[from..]);
    var e := if submitted then Submit(cfg[k], round) else Skip(cfg[k]);
    assert longer[from..][|longer| - from - 1] == e;
    assert (futures + [k])[..|futures|] == futures;
  }

  /** The first m futures were gathered, each when its turn came in the run
      that starts at `start`, and their results are what is returned; nothing
      else is. */
  ghost predicate Gathered(cfg: seq<Name>, pool: nat, start: seq<Event>, gathering: seq<seq<Event>>,
                           futures: seq<nat>, m: nat, out: seq<Blocks>)
    requires Legal(NamesOf(cfg), pool, start)
  {
    && m <= |futures| && |out| == |cfg|
    && (forall k: nat :: k < m ==>
          && futures[k] < |cfg|
          && out[futures[k]] ==
               ResultAt(NamesOf(cfg), pool, AtGather(NamesOf(cfg), pool, start, gathering, k), cfg[futures[k]]))
    && (forall i :: 0 <= i < |cfg| && i !in futures[..m] ==> out[i] == {})
  }

  lemma NotGathered(cfg: seq<Name>, pool: nat, start: seq<Event>, gathering: seq<seq<Event>>,
                    futures: seq<nat>, out: seq<Blocks>)
    requires Legal(NamesOf(cfg), pool, start) && Gathered(cfg, pool, start, gathering, futures, |futures|, out)
    ensures forall i :: 0 <= i < |cfg| && i !in futures ==> out[i] == {}
  {
    assert futures[..|futures|] == futures;
  }

  lemma GatheredNext(cfg: seq<Name>, pool: nat, start: seq<Event>, gathering: seq<seq<Event>>,
                     futures: seq<nat>, m: nat, out: seq<Blocks>)
    requires Legal(NamesOf(cfg), pool, start) && Gathered(cfg, pool, start, gathering, futures, m, out)
    requires m < |futures| && Increasing(futures) && futures[m] < |cfg|
    ensures var at := AtGather(NamesOf(cfg), pool, start, gathering, m);
            Gathered(cfg, pool, start, gathering, futures, m + 1,
                     out[futures[m] := ResultAt(NamesOf(cfg), pool, at, cfg[futures[m]])])
  {
    hide ResultAt, Legal, AtGather;
    assert futures[..m + 1] == futures[..m] + [futures[m]];
  }

  /** `out` is what `n`'s poll, submitted after the first `from` events, gives at
      this moment. */
  ghost predicate GivenAt(trace: seq<Event>, n: Name, from: nat, out: Blocks) {
    exists s: nat :: from <= s && LastSubmit(trace, n, s) && Gives(trace, n, s, out)
  }

  lemma {:induction false} OfferedExtends(names: set<Name>, pool: nat, trace: seq<Event>, events: seq<Event>)
    requires Legal(names, pool, trace)
    ensures trace <= Offered(names, pool, trace, events)
    decreases |events|
  {
    hide Legal, After, Enabled;
    if events == [] {
    } else {
      OfferedExtends(names, pool, trace, events[..|events| - 1]);
    }
  }

  lemma {:induction false} AtGatherExtends(names: set<Name>, pool: nat, trace: seq<Event>, gathering: seq<seq<Event>>,
                                           k: nat)
    requires Legal(names, pool, trace)
    ensures trace <= AtGather(names, pool, trace, gathering, k)
  {
    hide Legal, Offered;
    if k == 0 {
      OfferedExtends(names, pool, trace, Slot(gathering, 0));
    } else {
      AtGatherExtends(names, pool, trace, gathering, k - 1);
      OfferedExtends(names, pool, AtGather(names, pool, trace, gathering, k - 1), Slot(gathering, k));
    }
  }

  lemma {:induction false} LastSubmitFrom(trace: seq<Event>, n: Name, p: nat) returns (s: nat)
    requires p < |trace| && trace[p].Submit? && trace[p].name == n
    ensures p <= s && LastSubmit(trace, n, s)
    decreases |trace| - p
  {
    if j :| p < j < |trace| && trace[j].Submit? && trace[j].name == n {
      s := LastSubmitFrom(trace, n, j);
    } else {
      s := p;
    }
  }

  /** Each gathered result is what that inverter's poll of this round gives, in
      terms of the events before the gather. */
  lemma GatheredExact(cfg: seq<Name>, pool: nat, start: seq<Event>, gathering: seq<seq<Event>>,
                      futures: seq<nat>, out: seq<Blocks>, round: nat, from: nat, k: nat)
    requires Legal(NamesOf(cfg), pool, start) && Gathered(cfg, pool, start, gathering, futures, |futures|, out)
    requires TurnedSince(cfg, |cfg|, futures, round, start, from) && k < |futures|
    ensures futures[k] < |cfg|
    ensures GivenAt(AtGather(NamesOf(cfg), pool, start, gathering, k), cfg[futures[k]], from, out[futures[k]])
  {
    hide Legal, AtGather, ResultAt, Turned, LastSubmit, Gives;
    var at, n := AtGather(NamesOf(cfg), pool, start, gathering, k), cfg[futures[k]];
    TurnedMeans(cfg, |cfg|, futures, round, start[from..]);
    AtGatherExtends(NamesOf(cfg), pool, start, gathering, k);
    var p :| 0 <= p < |start| - from && start[from..][p] == Submit(n, round);
    assert at[from + p] == Submit(n, round);
    var s := LastSubmitFrom(at, n, from + p);
    ResultExact(NamesOf(cfg), pool, at, n, s);
  }

  /** A worker's event moves a job on and nothing else. */
  lemma WorkerKeeps(names: set<Name>, pool: nat, s: State, e: Event)
    requires Enabled(names, pool, s, e) && !MainStep(e)
    ensures var t := Apply(names, pool, s, e);
            && t.inflight.Keys == s.inflight.Keys
            && forall n :: n in s.inflight ==> t.inflight[n].round == s.inflight[n].round
  {}

  // ----- the daemon -----

  class Daemon {
    const names: seq<Name>
    const pool: nat
    var inflight: map<Name, Job>
    var failCount: map<Name, nat>
    var round: nat
    ghost var trace: seq<Event>

    function Configured(): set<Name> {
      NamesOf(names)
    }

    function Current(): State
      reads this
    {
      State(inflight, failCount)
    }

    ghost predicate Valid()
      reads this
    {
      && Legal(Configured(), pool, trace) && Current() == After(Configured(), pool, trace)
      && (forall n :: n in inflight ==> inflight[n].round <= round)
      && pool >= |names|
    }

    constructor (names: seq<Name>)
      ensures Valid() && trace == [] && this.names == names && round == 0
      ensures pool == if names == [] then 1 else |names|
    {
      this.names := names;
      pool := if |names| > 1 then |names| else 1;
      inflight, failCount, round, trace := map[], map[], 0, [];
    }

    /** One atomic event, by the main thread or a worker. */
    method Do(e: Event)
      requires Valid() && Enabled(Configured(), pool, Current(), e)
      requires e.Submit? ==> e.round == round
      modifies this`inflight, this`failCount, this`trace
      ensures Valid() && trace == old(trace) + [e]
      ensures Current() == Apply(Configured(), pool, old(Current()), e)
    {
      hide Enabled, Legal, After;
      LegalSnoc(Configured(), pool, trace, e);
      Step(e);
      trace := trace + [e];
    }

    method Step(e: Event)
      requires Enabled(Configured(), pool, Current(), e)
      requires forall n :: n in inflight ==> inflight[n].round <= round
      requires e.Submit? ==> e.round == round
      modifies this`inflight, this`failCount
      ensures Current() == Apply(Configured(), pool, old(Current()), e)
      ensures forall n :: n in inflight ==> inflight[n].round <= round
    {
      match e {
        case Skip(n) =>
          failCount := failCount[n := (if n in failCount then failCount[n] else 0) + 1];
        case Submit(n, r) =>
          inflight := inflight[n := Job(r, Queued)];
        case Start(n) =>
          inflight := inflight[n := inflight[n].(phase := Running)];
        case Book(n, out) =>
          var fails := if out != {} then 0 else (if n in failCount then failCount[n] else 0) + 1;
          inflight := inflight[n := inflight[n].(phase := Booked(out))];
          failCount := failCount[n := fails];
        case Finish(n) =>
          inflight := inflight[n := inflight[n].(phase := Done(Some(inflight[n].phase.out)))];
        case Crash(n) =>
          inflight := inflight[n := inflight[n].(phase := Done(None))];
      }
    }

    /** Worker events that happen while the main thread is elsewhere; those
        the state does not allow are dropped. */
    method Workers(events: seq<Event>, ghost from: nat)
      requires Valid() && from <= |trace| && BookedSince(Current(), trace, from, round)
      modifies this`inflight, this`failCount, this`trace
      ensures Valid() && old(trace) <= trace && from <= |trace| && BookedSince(Current(), trace, from, round)
      ensures inflight.Keys == old(inflight.Keys)
      ensures forall n :: n in inflight ==> inflight[n].round == old(inflight)[n].round
      ensures forall n :: Rounds(trace, n) == Rounds(old(trace), n)
      ensures trace == Offered(Configured(), pool, old(trace), events)
    {
      hide Legal, After, Apply, Enabled, Rounds, BookedSince, Offered;
      NothingOffered(events);
      for i := 0 to |events|
        invariant trace == Offered(Configured(), pool, old(trace), events[..i])
        invariant Valid() && old(trace) <= trace && from <= |trace| && BookedSince(Current(), trace, from, round)
        invariant inflight.Keys == old(inflight.Keys)
        invariant forall n :: n in inflight ==> inflight[n].round == old(inflight)[n].round
        invariant forall n :: Rounds(trace, n) == Rounds(old(trace), n)
      {
        var e := events[i];
        OfferedNext(Configured(), pool, old(trace), events, i);
        if !MainStep(e) && Enabled(Configured(), pool, Current(), e) {
          BookedSinceStep(Configured(), pool, Current(), trace, from, round, e);
          WorkerKeeps(Configured(), pool, Current(), e);
          forall n { RoundsSnoc(trace, e, n); }
          Do(e);
        }
      }
      assert events[..|events|] == events;
    }

    lemma NothingOffered(events: seq<Event>)
      requires Valid()
      ensures Offered(Configured(), pool, trace, events[..0]) == trace
    {}

    /** The main thread reaches inverter `n`: skip it or submit a poll. */
    method SkipOrSubmit(n: Name, ghost from: nat) returns (submitted: bool)
      requires Valid() && n in names && from <= |trace| && BookedSince(Current(), trace, from, round)
      modifies this`inflight, this`failCount, this`trace
      ensures Valid() && old(trace) <= trace && from <= |trace| && BookedSince(Current(), trace, from, round)
      ensures submitted == !Unfinished(old(Current()), n)
      ensures trace == old(trace) + [if submitted then Submit(n, round) else Skip(n)]
      ensures submitted == !Unfinished(After(Configured(), pool, old(trace)), n)
      ensures trace == TurnTaken(Configured(), pool, old(trace), n, round)
      ensures Fails(Current(), n) == Fails(old(Current()), n) + if submitted then 0 else 1
      ensures submitted ==> n in inflight && inflight[n].round == round
      ensures forall m :: m in old(inflight) && old(inflight)[m].round == round ==>
                m in inflight && inflight[m].round == round
      ensures forall m :: Rounds(trace, m) == Rounds(old(trace), m) + (if m == n then 1 else 0)
    {
      hide Legal, After, FailsSince, Count;
      submitted := !Unfinished(Current(), n);
      var e := if submitted then Submit(n, round) else Skip(n);
      BookedSinceStep(Configured(), pool, Current(), trace, from, round, e);
      forall m { RoundsSnoc(trace, e, m); }
      Do(e);
    }

    /** The futures list: indices whose poll was submitted this round. */
    ghost predicate Submitted(futures: seq<nat>)
      reads this
    {
      forall k :: 0 <= k < |futures| ==>
        futures[k] < |names| && names[futures[k]] in inflight && inflight[names[futures[k]]].round == round
    }

    /** The first k turns of this round have been taken in the run from `start`. */
    ghost predicate TookTurns(k: nat, futures: seq<nat>, workers: seq<seq<Event>>, start: seq<Event>)
      requires k <= |names|
      reads `trace, `round
    {
      && Legal(NamesOf(names), pool, start)
      && trace == AfterTurns(names, pool, start, workers, round, k)
      && futures == Futures(names, pool, start, workers, round, k)
    }

    /** What the workers did meanwhile, then the turn of inverter `idx`. */
    method TakeTurn(idx: nat, before: seq<nat>, workers: seq<seq<Event>>, ghost start: seq<Event>, ghost from: nat)
        returns (futures: seq<nat>)
      requires Valid() && from <= |trace| && BookedSince(Current(), trace, from, round)
      requires idx < |names| && Submitted(before) && TurnedSince(names, idx, before, round, trace, from)
      requires TookTurns(idx, before, workers, start)
      modifies this`inflight, this`failCount, this`trace
      ensures Valid() && old(trace) <= trace && from <= |trace| && BookedSince(Current(), trace, from, round)
      ensures forall n :: Rounds(trace, n) == Rounds(old(trace), n) + (if n == names[idx] then 1 else 0)
      ensures Submitted(futures) && TurnedSince(names, idx + 1, futures, round, trace, from)
      ensures TookTurns(idx + 1, futures, workers, start)
    {
      hide Legal, After, Enabled, Apply, BookedSince, Unfinished, Valid, Rounds, Current, TurnedSince;
      hide AfterTurns, Futures, Offered, TurnTaken;
      TurnsNext(names, pool, start, workers, round, idx);
      Workers(Slot(workers, idx), from);
      TurnedMore(names, idx, before, round, old(trace), trace, from);
      ghost var worked := trace;
      var submitted := SkipOrSubmit(names[idx], from);
      assert Submitted(before);
      TurnedNext(names, idx, before, round, worked, trace, from, submitted);
      assert before + [] == before;
      futures := if submitted then before + [idx] else before;
    }

    method SubmitAll(workers: seq<seq<Event>>, ghost from: nat) returns (futures: seq<nat>)
      requires Valid() && from <= |trace| && BookedSince(Current(), trace, from, round)
      modifies this`inflight, this`failCount, this`trace
      ensures Valid() && old(trace) <= trace && from <= |trace| && BookedSince(Current(), trace, from, round)
      ensures forall n :: Rounds(trace, n) == Rounds(old(trace), n) + multiset(names)[n]
      ensures Submitted(futures) && TurnedSince(names, |names|, futures, round, trace, from)
      ensures TookTurns(|names|, futures, workers, old(trace))
    {
      hide Legal, After, Enabled, Apply, BookedSince, Unfinished, Valid, Rounds, Current, TurnedSince, Submitted;
      hide AfterTurns, Futures, TookTurns;
      futures := [];
      NoTurns(workers, from);
      for idx := 0 to |names|
        invariant Valid() && old(trace) <= trace && from <= |trace| && BookedSince(Current(), trace, from, round)
        invariant forall n :: Rounds(trace, n) == Rounds(old(trace), n) + multiset(names[..idx])[n]
        invariant Submitted(futures) && TurnedSince(names, idx, futures, round, trace, from)
        invariant TookTurns(idx, futures, workers, old(trace))
      {
        futures := TakeTurn(idx, futures, workers, old(trace), from);
        assert names[..idx + 1] == names[..idx] + [names[idx]];
      }
      assert names[..|names|] == names;
    }

    lemma InTurn(futures: seq<nat>, from: nat)
      requires TurnedSince(names, |names|, futures, round, trace, from)
      ensures Increasing(futures)
    {
      hide Turned;
      TurnedMeans(names, |names|, futures, round, trace[from..]);
    }

    lemma NoTurns(workers: seq<seq<Event>>, from: nat)
      requires Valid() && from <= |trace|
      ensures TurnedSince(names, 0, [], round, trace, from) && Submitted([])
      ensures TookTurns(0, [], workers, trace)
    {}

    method GatherAll(workers: seq<seq<Event>>, futures: seq<nat>, ghost from: nat) returns (perInverter: seq<Blocks>)
      requires Valid() && from <= |trace| && BookedSince(Current(), trace, from, round)
      requires Submitted(futures) && Increasing(futures)
      modifies this`inflight, this`failCount, this`trace
      ensures Valid() && old(trace) <= trace && from <= |trace| && BookedSince(Current(), trace, from, round)
      ensures forall n :: Rounds(trace, n) == Rounds(old(trace), n)
      ensures |perInverter| == |names|
      ensures Gathered(names, pool, old(trace), workers, futures, |futures|, perInverter)
      ensures trace == GatheredTrace(old(trace), workers, |futures|)
      ensures forall i :: 0 <= i < |names| && perInverter[i] != {} ==> Book(names[i], perInverter[i]) in trace[from..]
    {
      hide Legal, After, Enabled, Apply, Valid, Rounds, Gathered, AtGather, GatheredTrace, Offered, ResultAt;
      perInverter := seq(|names|, i => {});
      LegalNow();
      NothingGathered(workers, futures);
      for k := 0 to |futures|
        invariant Valid() && old(trace) <= trace && from <= |trace| && BookedSince(Current(), trace, from, round)
        invariant forall n :: Rounds(trace, n) == Rounds(old(trace), n)
        invariant Submitted(futures) && |perInverter| == |names|
        invariant Gathered(names, pool, old(trace), workers, futures, k, perInverter)
        invariant trace == GatheredTrace(old(trace), workers, k)
        invariant forall i :: 0 <= i < |names| && perInverter[i] != {} ==>
                    Book(names[i], perInverter[i]) in trace[from..]
      {
        ghost var before := trace;
        Workers(Slot(workers, k), from);
        assert trace[from..] == before[from..] + trace[|before|..];
        NextGather(old(trace), workers, k);
        var idx := futures[k];
        IsAfter(names[idx]);
        GatheredNext(names, pool, old(trace), workers, futures, k, perInverter);
        var result := OutcomeOf(inflight[names[idx]].phase);
        if inflight[names[idx]].phase.Done? && result.Some? {
          perInverter := perInverter[idx := result.value];
        } else {
          perInverter := perInverter[idx := {}];
        }
      }
    }

    /** The run after k gathers. */
    ghost function GatheredTrace(start: seq<Event>, workers: seq<seq<Event>>, k: nat): (r: seq<Event>)
      requires Legal(Configured(), pool, start)
      ensures Legal(Configured(), pool, r)
    {
      if k == 0 then start else AtGather(Configured(), pool, start, workers, k - 1)
    }

    lemma NextGather(start: seq<Event>, workers: seq<seq<Event>>, k: nat)
      requires Legal(Configured(), pool, start)
      ensures GatheredTrace(start, workers, k + 1) == AtGather(NamesOf(names), pool, start, workers, k) ==
              Offered(Configured(), pool, GatheredTrace(start, workers, k), Slot(workers, k))
    {
      hide Legal, Offered;
    }

    lemma LegalNow()
      requires Valid()
      ensures Legal(NamesOf(names), pool, trace)
    {}

    lemma IsAfter(n: Name)
      requires Valid() && n in inflight
      ensures Legal(NamesOf(names), pool, trace)
      ensures ResultAt(NamesOf(names), pool, trace, n) ==
              var p := inflight[n].phase; if p.Done? && p.result.Some? then p.result.value else {}
    {
      hide Legal, After;
    }

    lemma NothingGathered(workers: seq<seq<Event>>, futures: seq<nat>)
      requires Valid()
      ensures Gathered(names, pool, trace, workers, futures, 0, seq(|names|, i => {}))
      ensures GatheredTrace(trace, workers, 0) == trace
    {}

    method PublishStatuses() returns (statuses: seq<Status>)
      requires Valid()
      ensures |statuses| == |names|
      ensures forall i :: 0 <= i < |names| ==> (statuses[i] == Offline <==> MissedSince(trace, names[i], 3))
    {
      hide Legal, After, MissedSince;
      statuses := [];
      for i := 0 to |names|
        invariant |statuses| == i
        invariant forall j :: 0 <= j < i ==> (statuses[j] == Offline <==> MissedSince(trace, names[j], 3))
      {
        FailsExact(Configured(), pool, trace, names[i], 3);
        statuses := statuses + [if Fails(Current(), names[i]) >= 3 then Offline else Online];
      }
    }

    /** _poll_all_parallel: submit or skip every inverter in order, gather the
        results of this round, publish the statuses. The k-th elements of
        `submitting` and `gathering` are the worker events that fall before the
        k-th of these steps, the last ones before the fail counts are read; a
        gather whose future is not done by then is a wait that timed out.
        `futures` are the inverters polled in this round. */
    method PollAllParallel(submitting: seq<seq<Event>>, gathering: seq<seq<Event>>)
        returns (perInverter: seq<Blocks>, statuses: seq<Status>, ghost futures: seq<nat>)
      requires Valid()
      modifies this
      ensures Valid() && old(trace) <= trace && round == old(round) + 1
      ensures forall n :: Rounds(trace, n) == Rounds(old(trace), n) + multiset(names)[n]
      ensures |Outstanding(Current())| <= pool
      ensures forall n :: n in inflight && inflight[n].phase.Queued? ==>
                Enabled(Configured(), pool, Current(), Start(n))
      ensures var start := AfterTurns(names, pool, old(trace), submitting, round, |names|);
              && futures == Futures(names, pool, old(trace), submitting, round, |names|)
              && TurnedSince(names, |names|, futures, round, start, |old(trace)|)
              && Gathered(names, pool, start, gathering, futures, |futures|, perInverter)
              && trace == AtGather(Configured(), pool, start, gathering, |futures|)
      ensures |perInverter| == |names|
      ensures var start := AfterTurns(names, pool, old(trace), submitting, round, |names|);
              forall k: nat :: k < |futures| ==>
                && futures[k] < |names|
                && GivenAt(AtGather(Configured(), pool, start, gathering, k), names[futures[k]], |old(trace)|,
                           perInverter[futures[k]])
      ensures forall i :: 0 <= i < |names| && i !in futures ==> perInverter[i] == {}
      ensures forall i :: 0 <= i < |names| && perInverter[i] != {} ==>
                Book(names[i], perInverter[i]) in trace[|old(trace)|..]
      ensures |statuses| == |names|
      ensures forall i :: 0 <= i < |names| ==> (statuses[i] == Offline <==> MissedSince(trace, names[i], 3))
    {
      hide Legal, After, Enabled, Apply, Gathered, TurnedSince, AfterTurns, Futures, AtGather, Offered, GivenAt;
      hide MissedSince;
      ghost var from := |trace|;
      round := round + 1;
      var submitted := SubmitAll(submitting, from);
      InTurn(submitted, from);
      ghost var start := trace;
      perInverter := GatherAll(gathering, submitted, from);
      ghost var gathered := trace;
      Workers(Slot(gathering, |submitted|), from);
      NextGather(start, gathering, |submitted|);
      assert trace[from..] == gathered[from..] + trace[|gathered|..];
      futures := submitted;
      forall k: nat | k < |futures|
        ensures futures[k] < |names|
        ensures GivenAt(AtGather(Configured(), pool, start, gathering, k), names[futures[k]], from,
                        perInverter[futures[k]])
      {
        GatheredExact(names, pool, start, gathering, futures, perInverter, round, from, k);
      }
      NotGathered(names, pool, start, gathering, futures, perInverter);
      statuses := PublishStatuses();
      NeverQueues();
    }

    /** In a valid daemon no poll waits for a thread. */
    lemma NeverQueues()
      requires Valid()
      ensures |Outstanding(Current())| <= pool
      ensures forall n :: n in inflight && inflight[n].phase.Queued? ==>
                Enabled(Configured(), pool, Current(), Start(n))
    {
      hide Legal, After;
      NamesFit(names);
      forall n | n in inflight && inflight[n].phase.Queued?
        ensures Enabled(Configured(), pool, Current(), Start(n))
      {
        NeverQueuesBehind(Configured(), pool, trace, n);
      }
      NeverQueuesBehind(Configured(), pool, trace, "");
    }
  }
}
