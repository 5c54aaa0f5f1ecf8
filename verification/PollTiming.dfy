/**
 daemon.py: the retry loop of one poll worker, how long it can take, and when
 the worker timeout derived from the configuration is long enough.
 */
module PollTiming {
  import opened Powers
  import opened QueryClock

  datatype Tier = Hot | Cold

  datatype Block = Block(addr: int, count: int, name: string, tier: Tier)

  /** srne_map.py: BLOCKS. */
  const BLOCKS: seq<Block> := [
    Block(0x0100, 15, "battery", Hot),
    Block(0x0210, 19, "state", Hot),
    Block(0x0223, 23, "phase_b", Hot),
    Block(0x0014, 10, "device_info", Cold),
    Block(0x010F, 3, "pv2", Hot),
    Block(0x0204, 6, "faults", Cold),
    Block(0xF000, 8, "runtime_ctrs", Cold),
    Block(0xF02C, 18, "daily_stats", Cold)
  ]

  datatype Polling = Polling(timeout: real, attempts: int, backoff: real, delay: real) {
    predicate Sane() {
      timeout >= 0.0 && backoff >= 0.0 && delay >= 0.0
    }
  }

  /** How a query ends: a frame (which parse_block may still refuse), a Modbus
      exception, a timeout, or another error. */
  datatype Reply = Frame(parses: bool) | Exception | Timeout | OtherError

  /** One query: its end, the seconds spent writing, and how long each read
      would block. */
  datatype Exchange = Exchange(reply: Reply, writing: real, readings: seq<real>)

  function QuerySeconds(p: Polling, x: Exchange): real {
    x.writing + Seconds(x.readings[..Begun(x.readings, p.timeout, 0)])
  }

  /** The bus: for a block and an attempt, what the query meets. */
  type Bus = (Block, nat) -> Exchange

  function Cost(bus: Bus, p: Polling, b: Block, a: nat): real {
    QuerySeconds(p, bus(b, a))
  }

  /** Writing and every single read keep to the port's timeout. */
  ghost predicate Prompt(bus: Bus, p: Polling) {
    forall b, a :: 0.0 <= bus(b, a).writing <= p.timeout && Bounded(bus(b, a).readings, p.timeout)
  }

  /** No query takes longer than q. */
  ghost predicate Capped(bus: Bus, p: Polling, q: real) {
    forall b, a :: Cost(bus, p, b, a) <= q
  }

  /** Every query takes q and times out. */
  ghost predicate Stuck(bus: Bus, p: Polling, q: real) {
    forall b, a :: Cost(bus, p, b, a) == q && bus(b, a).reply == Timeout
  }

  // ----- what a poll does -----

  /** The reply that ends the attempts on `b` from attempt `a` on, if any. */
  function Settled(bus: Bus, p: Polling, b: Block, a: nat): Reply
    decreases p.attempts - a
  {
    if a >= p.attempts then Timeout
    else if bus(b, a).reply != Timeout then bus(b, a).reply
    else Settled(bus, p, b, a + 1)
  }

  /** Seconds spent on `b` from attempt `a` on. */
  function AttemptTime(bus: Bus, p: Polling, b: Block, a: nat): real
    decreases p.attempts - a
  {
    if a >= p.attempts then 0.0
    else if bus(b, a).reply == Timeout && a + 1 < p.attempts then
      Cost(bus, p, b, a) + p.backoff * Pow2(a) + AttemptTime(bus, p, b, a + 1)
    else Cost(bus, p, b, a)
  }

  function PollTime(bus: Bus, p: Polling, blocks: seq<Block>, tier: Tier): real {
    if blocks == [] then 0.0
    else
      var last := blocks[|blocks| - 1];
      PollTime(bus, p, blocks[..|blocks| - 1], tier)
      + (if last.tier == tier then AttemptTime(bus, p, last, 0) + p.delay else 0.0)
  }

  function Parsed(bus: Bus, p: Polling, blocks: seq<Block>, tier: Tier): set<string> {
    set b | b in blocks && b.tier == tier && Settled(bus, p, b, 0) == Frame(true) :: b.name
  }

  /** daemon.py: _poll_inverter, without the fail count. */
  method PollInverter(bus: Bus, p: Polling, blocks: seq<Block>, tier: Tier)
      returns (out: set<string>, anySuccess: bool, elapsed: real)
    ensures out == Parsed(bus, p, blocks, tier)
    ensures anySuccess <==> out != {}
    ensures elapsed == PollTime(bus, p, blocks, tier)
  {
    hide Parsed, QuerySeconds;
    out, anySuccess, elapsed := {}, false, 0.0;
    ParsedNone(bus, p, tier);
    for i := 0 to |blocks|
      invariant out == Parsed(bus, p, blocks[..i], tier)
      invariant anySuccess <==> out != {}
      invariant elapsed == PollTime(bus, p, blocks[..i], tier)
    {
      var block := blocks[i];
      assert blocks[..i + 1] == blocks[..i] + [block];
      ParsedNext(bus, p, blocks[..i], block, tier);
      if block.tier != tier { continue; }
      var answer := Timeout;
      var attempt := 0;
      ghost var before := elapsed;
      while attempt < p.attempts
        invariant 0 <= attempt
        invariant answer == Timeout
        invariant Settled(bus, p, block, 0) == Settled(bus, p, block, attempt)
        invariant elapsed + AttemptTime(bus, p, block, attempt) == before + AttemptTime(bus, p, block, 0)
        decreases p.attempts - attempt
      {
        var x := bus(block, attempt);
        elapsed := elapsed + QuerySeconds(p, x);
        if x.reply != Timeout {
          answer := x.reply;
          break;
        }
        if attempt + 1 < p.attempts {
          elapsed := elapsed + p.backoff * Pow2(attempt);
        }
        attempt := attempt + 1;
      }
      if answer == Frame(true) {
        out := out + {block.name};
        anySuccess := true;
      }
      elapsed := elapsed + p.delay;
    }
    assert blocks[..|blocks|] == blocks;
  }

  lemma ParsedNone(bus: Bus, p: Polling, tier: Tier)
    ensures Parsed(bus, p, [], tier) == {}
  {}

  lemma ParsedNext(bus: Bus, p: Polling, blocks: seq<Block>, b: Block, tier: Tier)
    ensures Parsed(bus, p, blocks + [b], tier) ==
            Parsed(bus, p, blocks, tier) +
            (if b.tier == tier && Settled(bus, p, b, 0) == Frame(true) then {b.name} else {})
  {}

  // ----- what counts, from the replies alone -----

  /** The first `a` attempts on the block timed out. */
  ghost predicate TimedOut(bus: Bus, b: Block, a: int) {
    forall j: nat :: j < a ==> bus(b, j).reply == Timeout
  }

  /** The first reply that is no timeout counts, within the attempts. */
  lemma SettledExact(bus: Bus, p: Polling, b: Block, a: nat)
    requires a < p.attempts && TimedOut(bus, b, a) && bus(b, a).reply != Timeout
    ensures Settled(bus, p, b, 0) == bus(b, a).reply
  {
    SettledAfter(bus, p, b, a);
  }

  lemma {:induction false} SettledAfter(bus: Bus, p: Polling, b: Block, a: nat)
    requires a <= p.attempts && TimedOut(bus, b, a)
    ensures Settled(bus, p, b, 0) == Settled(bus, p, b, a)
  {
    if a > 0 { SettledAfter(bus, p, b, a - 1); }
  }

  /** Without one the block ends in a timeout. */
  lemma NeverSettled(bus: Bus, p: Polling, b: Block)
    requires TimedOut(bus, b, p.attempts)
    ensures Settled(bus, p, b, 0) == Timeout
  {
    if p.attempts > 0 { SettledAfter(bus, p, b, p.attempts); }
  }

  lemma {:induction false} FirstReply(bus: Bus, p: Polling, b: Block, from: nat) returns (a: nat)
    requires from <= p.attempts && TimedOut(bus, b, from) && !TimedOut(bus, b, p.attempts)
    ensures a < p.attempts && TimedOut(bus, b, a) && bus(b, a).reply != Timeout
    decreases p.attempts - from
  {
    if bus(b, from).reply != Timeout {
      a := from;
    } else {
      a := FirstReply(bus, p, b, from + 1);
    }
  }

  /** The first reply to the block that is no timeout is a frame that parses. */
  ghost predicate Parses(bus: Bus, p: Polling, b: Block) {
    exists a: nat :: a < p.attempts && TimedOut(bus, b, a) && bus(b, a).reply == Frame(true)
  }

  lemma ParsesExact(bus: Bus, p: Polling, b: Block)
    ensures Settled(bus, p, b, 0) == Frame(true) <==> Parses(bus, p, b)
  {
    hide Settled;
    if TimedOut(bus, b, p.attempts) {
      NeverSettled(bus, p, b);
    } else {
      var a := FirstReply(bus, p, b, 0);
      SettledExact(bus, p, b, a);
      forall c: nat | c < p.attempts && TimedOut(bus, b, c) && bus(b, c).reply != Timeout ensures c == a {}
    }
  }

  /** Exactly the names of the tier's blocks that parse are returned. */
  lemma ParsedExact(bus: Bus, p: Polling, blocks: seq<Block>, tier: Tier, name: string)
    ensures name in Parsed(bus, p, blocks, tier) <==>
              exists i ::
                0 <= i < |blocks| && blocks[i].tier == tier && blocks[i].name == name && Parses(bus, p, blocks[i])
  {
    hide Settled, Parses;
    forall i | 0 <= i < |blocks| { ParsesExact(bus, p, blocks[i]); }
    if name in Parsed(bus, p, blocks, tier) {
      var b :| b in blocks && b.tier == tier && Settled(bus, p, b, 0) == Frame(true) && b.name == name;
      var i :| 0 <= i < |blocks| && blocks[i] == b;
      assert blocks[i].name == name && Parses(bus, p, blocks[i]);
    }
  }

  /** Seconds of the first `a` queries on a block. */
  function Queries(bus: Bus, p: Polling, b: Block, a: nat): real {
    if a == 0 then 0.0 else Queries(bus, p, b, a - 1) + Cost(bus, p, b, a - 1)
  }

  lemma {:induction false} TimeAfter(bus: Bus, p: Polling, b: Block, a: nat)
    requires a < p.attempts && TimedOut(bus, b, a)
    ensures AttemptTime(bus, p, b, 0) ==
            Queries(bus, p, b, a) + p.backoff * (Pow2(a) - 1.0) + AttemptTime(bus, p, b, a)
  {
    hide Cost;
    if a > 0 {
      TimeAfter(bus, p, b, a - 1);
      assert p.backoff * (Pow2(a) - 1.0) == p.backoff * (Pow2(a - 1) - 1.0) + p.backoff * Pow2(a - 1);
    }
  }

  /** The queries up to the one that counts, or all of them, and the back-offs
      between them. */
  lemma AttemptTimeExact(bus: Bus, p: Polling, b: Block, a: nat)
    requires a < p.attempts && TimedOut(bus, b, a) && (bus(b, a).reply != Timeout || a + 1 == p.attempts)
    ensures AttemptTime(bus, p, b, 0) == Queries(bus, p, b, a + 1) + p.backoff * (Pow2(a) - 1.0)
  {
    hide Cost;
    TimeAfter(bus, p, b, a);
  }

  // ----- how long it can take -----

  /** Writing and reading together stay under three timeouts. */
  lemma QueryBound(p: Polling, x: Exchange)
    requires 0.0 <= x.writing <= p.timeout && Bounded(x.readings, p.timeout)
    ensures QuerySeconds(p, x) <= 3.0 * p.timeout
    ensures p.timeout > 0.0 ==> QuerySeconds(p, x) < 3.0 * p.timeout
  {
    ReadPhase(x.readings, p.timeout, Begun(x.readings, p.timeout, 0));
  }

  /** A write that just makes it and a noise byte just before the deadline. */
  function Late(p: Polling, early: real): Exchange {
    if p.timeout > 0.0 then Exchange(Timeout, p.timeout, [p.timeout - early, p.timeout]) else Exchange(Timeout, 0.0, [])
  }

  /** Three timeouts are the least bound. */
  lemma LateQuery(p: Polling, early: real)
    requires p.timeout >= 0.0
    requires if p.timeout > 0.0 then 0.0 < early <= p.timeout else early == 0.0
    ensures QuerySeconds(p, Late(p, early)) == 3.0 * p.timeout - early
    ensures 0.0 <= Late(p, early).writing <= p.timeout && Bounded(Late(p, early).readings, p.timeout)
  {
    if p.timeout > 0.0 { LateRead(p.timeout, early); }
  }

  /** Seconds from attempt `a` on, if every attempt takes q and times out. */
  function SlowestFrom(p: Polling, q: real, a: nat): real
    requires a < p.attempts
  {
    q * ((p.attempts - a) as real) + p.backoff * (Pow2(p.attempts - 1) - Pow2(a))
  }

  lemma SlowestStep(p: Polling, q: real, a: nat)
    requires a + 1 < p.attempts
    ensures SlowestFrom(p, q, a) == q + p.backoff * Pow2(a) + SlowestFrom(p, q, a + 1)
  {
    var n := (p.attempts - a - 1) as real;
    assert q * (n + 1.0) == q * n + q;
    assert p.backoff * (Pow2(p.attempts - 1) - Pow2(a)) ==
           p.backoff * (Pow2(p.attempts - 1) - Pow2(a + 1)) + p.backoff * Pow2(a);
  }

  /** No block takes longer; a stuck bus takes exactly that long. */
  lemma {:induction false} AttemptBound(bus: Bus, p: Polling, q: real, b: Block, a: nat)
    requires p.Sane() && q >= 0.0 && a < p.attempts
    ensures Capped(bus, p, q) ==> AttemptTime(bus, p, b, a) <= SlowestFrom(p, q, a)
    ensures Stuck(bus, p, q) ==> AttemptTime(bus, p, b, a) == SlowestFrom(p, q, a)
    decreases p.attempts - a
  {
    hide Cost;
    if a + 1 == p.attempts {
      assert SlowestFrom(p, q, a) == q;
    } else {
      AttemptBound(bus, p, q, b, a + 1);
      SlowestStep(p, q, a);
      NonNegative(p, q, a + 1);
      Product(p.backoff, Pow2(a));
    }
  }

  lemma NonNegative(p: Polling, q: real, a: nat)
    requires p.Sane() && q >= 0.0 && a < p.attempts
    ensures SlowestFrom(p, q, a) >= 0.0
  {
    Pow2Monotone(a, p.attempts - 1);
    Product(q, (p.attempts - a) as real);
    Product(p.backoff, Pow2(p.attempts - 1) - Pow2(a));
  }

  lemma Product(x: real, y: real)
    requires x >= 0.0 && y >= 0.0
    ensures x * y >= 0.0
  {}

  function TierSize(blocks: seq<Block>, tier: Tier): nat {
    if blocks == [] then 0
    else TierSize(blocks[..|blocks| - 1], tier) + (if blocks[|blocks| - 1].tier == tier then 1 else 0)
  }

  /** `n` blocks of `x` seconds. */
  function Times(n: nat, x: real): real {
    (n as real) * x
  }

  lemma OneMore(n: nat, x: real)
    ensures Times(0, x) == 0.0
    ensures Times(n + 1, x) == Times(n, x) + x
  {}

  /** If no query takes longer than q, no poll takes longer than its tier's
      share of the slowest block; on a stuck bus it takes exactly that long. */
  lemma {:induction false} PollBound(bus: Bus, p: Polling, q: real, blocks: seq<Block>, tier: Tier)
    requires p.Sane() && q >= 0.0 && p.attempts >= 1
    ensures var worst := Times(TierSize(blocks, tier), SlowestFrom(p, q, 0) + p.delay);
            && (Capped(bus, p, q) ==> PollTime(bus, p, blocks, tier) <= worst)
            && (Stuck(bus, p, q) ==> PollTime(bus, p, blocks, tier) == worst)
    decreases |blocks|
  {
    hide Times, SlowestFrom, AttemptTime, Capped, Stuck;
    var each := SlowestFrom(p, q, 0) + p.delay;
    if blocks == [] {
      OneMore(0, each);
    } else {
      var n := |blocks| - 1;
      PollBound(bus, p, q, blocks[..n], tier);
      AttemptBound(bus, p, q, blocks[n], 0);
      OneMore(TierSize(blocks[..n], tier), each);
    }
  }

  /** __init__: the number of blocks of the larger tier, at least one. */
  function LargestTier(blocks: seq<Block>): (n: nat)
    ensures n >= 1 && n >= TierSize(blocks, Hot) && n >= TierSize(blocks, Cold)
  {
    var hot, cold := TierSize(blocks, Hot), TierSize(blocks, Cold);
    var larger := if hot >= cold then hot else cold;
    if larger >= 1 then larger else 1
  }

  /** __init__: _poll_worker_timeout_s. */
  function WorkerTimeout(p: Polling, blocks: seq<Block>): real {
    2.0 * (p.timeout * ((if p.attempts >= 1 then p.attempts else 1) as real) * (LargestTier(blocks) as real) + 10.0)
  }

  /** What a block can wait between its queries. */
  function Waits(p: Polling): real
    requires p.attempts >= 1
  {
    p.backoff * (Pow2(p.attempts - 1) - 1.0) + p.delay
  }

  lemma {:induction false} SomeTier(blocks: seq<Block>)
    requires blocks != []
    ensures TierSize(blocks, Hot) + TierSize(blocks, Cold) == |blocks|
    decreases |blocks|
  {
    if |blocks| == 1 {
    } else {
      SomeTier(blocks[..|blocks| - 1]);
    }
  }

  lemma Distribute(n: nat, y: real, z: real)
    ensures Times(n, y + z) == Times(n, y) + Times(n, z)
  {}

  lemma Scale(m: nat, n: nat, z: real)
    requires m <= n && z >= 0.0
    ensures Times(m, z) <= Times(n, z)
  {}

  /** Seconds that all attempts on a block take at q each. */
  function Attempts(p: Polling, q: real): real {
    q * (p.attempts as real)
  }

  lemma AttemptsLinear(p: Polling, q: real, r: real)
    ensures Attempts(p, q + r) == Attempts(p, q) + Attempts(p, r)
    ensures Attempts(p, 2.0 * q) == 2.0 * Attempts(p, q) && Attempts(p, 3.0 * q) == 3.0 * Attempts(p, q)
  {}

  lemma WorstBlock(p: Polling, q: real)
    requires p.attempts >= 1
    ensures SlowestFrom(p, q, 0) + p.delay == Attempts(p, q) + Waits(p)
  {}

  lemma TimeoutIs(p: Polling, blocks: seq<Block>)
    requires p.attempts >= 1
    ensures WorkerTimeout(p, blocks) == Times(LargestTier(blocks), Attempts(p, 2.0 * p.timeout)) + 20.0
  {
    hide LargestTier;
    Regroup(p.timeout, p.attempts as real, LargestTier(blocks) as real);
  }

  lemma Regroup(t: real, r: real, l: real)
    ensures l * (2.0 * t * r) == 2.0 * (t * r * l)
  {}

  /** Some bus on which every query takes q. */
  function Constant(q: real): Bus {
    (b, a) => Exchange(Timeout, q, [])
  }

  lemma ConstantIsStuck(p: Polling, q: real)
    ensures Stuck(Constant(q), p, q) && Capped(Constant(q), p, q)
  {}

  lemma StuckPoll(bus: Bus, p: Polling, q: real, blocks: seq<Block>) returns (tier: Tier)
    requires p.Sane() && q >= 0.0 && p.attempts >= 1 && blocks != [] && Stuck(bus, p, q)
    ensures PollTime(bus, p, blocks, tier) == Times(LargestTier(blocks), Attempts(p, q) + Waits(p))
  {
    hide Times, SlowestFrom, PollTime, Stuck, Waits, Attempts;
    SomeTier(blocks);
    tier := if TierSize(blocks, Hot) >= TierSize(blocks, Cold) then Hot else Cold;
    PollBound(bus, p, q, blocks, tier);
    WorstBlock(p, q);
  }

  lemma CappedPoll(bus: Bus, p: Polling, q: real, blocks: seq<Block>, tier: Tier)
    requires p.Sane() && q >= 0.0 && p.attempts >= 1 && Capped(bus, p, q)
    ensures PollTime(bus, p, blocks, tier) <= Times(LargestTier(blocks), Attempts(p, q) + Waits(p))
  {
    hide Times, SlowestFrom, PollTime, Capped, Waits, Attempts;
    PollBound(bus, p, q, blocks, tier);
    WorstBlock(p, q);
    NonNegative(p, q, 0);
    Scale(TierSize(blocks, tier), LargestTier(blocks), Attempts(p, q) + Waits(p));
  }

  /** If queries are known to take at most q, the worker timeout covers every
      poll of every tier exactly when the larger tier fits at q a query. */
  lemma CapAdequate(p: Polling, q: real, blocks: seq<Block>)
    requires p.Sane() && q >= 0.0 && p.attempts >= 1 && blocks != []
    ensures (forall bus: Bus, tier :: Capped(bus, p, q) ==> PollTime(bus, p, blocks, tier) <= WorkerTimeout(p, blocks))
            <==> Times(LargestTier(blocks), Attempts(p, q) + Waits(p)) <= WorkerTimeout(p, blocks)
  {
    hide Times, Waits, WorkerTimeout, PollTime, Attempts, Capped, Stuck;
    forall bus: Bus, tier | Capped(bus, p, q)
      ensures PollTime(bus, p, blocks, tier) <= Times(LargestTier(blocks), Attempts(p, q) + Waits(p))
    {
      CappedPoll(bus, p, q, blocks, tier);
    }
    ConstantIsStuck(p, q);
    var tier := StuckPoll(Constant(q), p, q, blocks);
    assert PollTime(Constant(q), p, blocks, tier) == Times(LargestTier(blocks), Attempts(p, q) + Waits(p));
  }

  /** The formula's own assumption, two timeouts a query: the timeout is enough
      exactly when the larger tier's back-offs and delays fit in 20 seconds. */
  lemma TwoTimeoutsAdequate(p: Polling, blocks: seq<Block>)
    requires p.Sane() && p.attempts >= 1 && blocks != []
    ensures (forall bus: Bus, tier :: Capped(bus, p, 2.0 * p.timeout) ==>
               PollTime(bus, p, blocks, tier) <= WorkerTimeout(p, blocks))
            <==> Times(LargestTier(blocks), Waits(p)) <= 20.0
  {
    hide Times, Waits, WorkerTimeout, PollTime, Attempts, Capped, LargestTier;
    CapAdequate(p, 2.0 * p.timeout, blocks);
    TimeoutIs(p, blocks);
    Distribute(LargestTier(blocks), Attempts(p, 2.0 * p.timeout), Waits(p));
  }

  /** On every bus that keeps to the port's timeouts, the worker timeout covers
      every poll of every tier exactly when the larger tier's blocks, at one
      timeout an attempt with their back-offs and delays, fit in 20 seconds. */
  lemma TimeoutAdequate(p: Polling, blocks: seq<Block>)
    requires p.Sane() && p.attempts >= 1 && blocks != []
    ensures (forall bus: Bus, tier :: Prompt(bus, p) ==> PollTime(bus, p, blocks, tier) <= WorkerTimeout(p, blocks))
            <==> Times(LargestTier(blocks), Attempts(p, p.timeout) + Waits(p)) <= 20.0
  {
    hide Times, Waits, WorkerTimeout, PollTime, Attempts, Capped, Prompt, LargestTier, Late;
    Excess(p, blocks);
    forall bus: Bus, tier | Prompt(bus, p)
      ensures PollTime(bus, p, blocks, tier) <= Times(LargestTier(blocks), Attempts(p, 3.0 * p.timeout) + Waits(p))
    {
      PromptIsCapped(bus, p);
      CappedPoll(bus, p, 3.0 * p.timeout, blocks, tier);
    }
    if Times(LargestTier(blocks), Attempts(p, p.timeout) + Waits(p)) > 20.0 {
      var bus, tier := LateBus(p, blocks);
      assert PollTime(bus, p, blocks, tier) > WorkerTimeout(p, blocks);
    }
  }

  lemma Excess(p: Polling, blocks: seq<Block>)
    requires p.attempts >= 1
    ensures Times(LargestTier(blocks), Attempts(p, 3.0 * p.timeout) + Waits(p)) - WorkerTimeout(p, blocks)
         == Times(LargestTier(blocks), Attempts(p, p.timeout) + Waits(p)) - 20.0
  {
    hide Times, Waits, WorkerTimeout, Attempts, LargestTier;
    TimeoutIs(p, blocks);
    AttemptsLinear(p, p.timeout, 2.0 * p.timeout);
    Distribute(LargestTier(blocks), Attempts(p, 2.0 * p.timeout), Attempts(p, p.timeout) + Waits(p));
  }

  lemma PromptIsCapped(bus: Bus, p: Polling)
    requires Prompt(bus, p)
    ensures Capped(bus, p, 3.0 * p.timeout)
  {
    forall b, a ensures Cost(bus, p, b, a) <= 3.0 * p.timeout { QueryBound(p, bus(b, a)); }
  }

  /** A prompt bus whose polls outlast the timeout when the condition fails. */
  lemma LateBus(p: Polling, blocks: seq<Block>) returns (bus: Bus, tier: Tier)
    requires p.Sane() && p.attempts >= 1 && blocks != []
    requires Times(LargestTier(blocks), Attempts(p, p.timeout) + Waits(p)) > 20.0
    ensures Prompt(bus, p) && PollTime(bus, p, blocks, tier) > WorkerTimeout(p, blocks)
  {
    hide Times, Waits, WorkerTimeout, PollTime, Attempts, LargestTier, Late, QuerySeconds;
    var excess := Times(LargestTier(blocks), Attempts(p, p.timeout) + Waits(p)) - 20.0;
    var early := Early(p, blocks, excess);
    LateQuery(p, early);
    var q := 3.0 * p.timeout - early;
    bus := (b, a) => Late(p, early);
    assert Stuck(bus, p, q) by { LateTimesOut(p, early); }
    tier := StuckPoll(bus, p, q, blocks);
    Excess(p, blocks);
    AttemptsLinear(p, q, early);
    Distribute(LargestTier(blocks), Attempts(p, q) + Waits(p), Attempts(p, early));
  }

  lemma LateTimesOut(p: Polling, early: real)
    ensures Late(p, early).reply == Timeout
  {}

  /** A moment so short that all queries together lose less than the excess. */
  lemma Early(p: Polling, blocks: seq<Block>, excess: real) returns (early: real)
    requires p.Sane() && p.attempts >= 1 && excess > 0.0
    ensures if p.timeout > 0.0 then 0.0 < early <= p.timeout else early == 0.0
    ensures Times(LargestTier(blocks), Attempts(p, early)) < excess
  {
    hide LargestTier;
    if p.timeout == 0.0 {
      early := 0.0;
    } else {
      var n := LargestTier(blocks) as real * (p.attempts as real);
      assert n >= 1.0 by { Grows(LargestTier(blocks) as real, p.attempts as real); }
      early := if excess / (2.0 * n) <= p.timeout then excess / (2.0 * n) else p.timeout;
      Shares(early, excess, n);
      assert Times(LargestTier(blocks), Attempts(p, early)) == n * early;
    }
  }

  lemma Grows(x: real, y: real)
    requires x >= 1.0 && y >= 1.0
    ensures x * y >= 1.0
  {}

  lemma Shares(early: real, excess: real, n: real)
    requires n >= 1.0 && excess > 0.0 && early <= excess / (2.0 * n)
    ensures excess / (2.0 * n) > 0.0 && n * early < excess
  {
    assert n * (excess / (2.0 * n)) == excess / 2.0;
    assert n * early <= n * (excess / (2.0 * n));
  }

  // ----- the blocks the daemon polls -----

  lemma TierSizeNext(blocks: seq<Block>, i: nat, tier: Tier)
    requires i < |blocks|
    ensures TierSize(blocks[..i + 1], tier) == TierSize(blocks[..i], tier) + (if blocks[i].tier == tier then 1 else 0)
  {
    assert blocks[..i + 1][..i] == blocks[..i];
  }

  lemma LargestOfBlocks()
    ensures LargestTier(BLOCKS) == 4
  {
    hide TierSize;
    forall tier: Tier ensures TierSize(BLOCKS, tier) == 4 {
      TierSizeNone(tier);
      TierSizeNext(BLOCKS, 0, tier);
      TierSizeNext(BLOCKS, 1, tier);
      TierSizeNext(BLOCKS, 2, tier);
      TierSizeNext(BLOCKS, 3, tier);
      TierSizeNext(BLOCKS, 4, tier);
      TierSizeNext(BLOCKS, 5, tier);
      TierSizeNext(BLOCKS, 6, tier);
      TierSizeNext(BLOCKS, 7, tier);
      assert BLOCKS[..8] == BLOCKS;
    }
  }

  lemma TierSizeNone(tier: Tier)
    ensures TierSize(BLOCKS[..0], tier) == 0
  {}

  /** For the daemon's own blocks the limit is five seconds a block; the default
      configuration needs 4.85. */
  lemma BlocksAdequate(p: Polling)
    requires p.Sane() && p.attempts >= 1
    ensures (forall bus: Bus, tier :: Prompt(bus, p) ==> PollTime(bus, p, BLOCKS, tier) <= WorkerTimeout(p, BLOCKS))
            <==> Attempts(p, p.timeout) + Waits(p) <= 5.0
    ensures Attempts(Polling(1.5, 3, 0.1, 0.05), 1.5) + Waits(Polling(1.5, 3, 0.1, 0.05)) == 4.85
  {
    hide PollTime, WorkerTimeout, Prompt, TierSize;
    LargestOfBlocks();
    TimeoutAdequate(p, BLOCKS);
    assert Pow2(2) == 4.0;
  }
}
