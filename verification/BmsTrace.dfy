/**
 What a history of the BMS service's polls and checks makes of each pack:
 its last reading, whether it is on the stale list, what was logged about it,
 and the counters of decoded answers.
 */
module BmsTrace {
  import opened Wrappers
  import opened BankAggregator

  /** The cell temperatures of a PIB answer. */
  type Temps = seq<Option<real>>

  datatype Event =
    | HeardPia(pack: int, reading: Pack, at: real)
    | HeardPib(pack: int, temps: Temps, at: real)
    | Checked(at: real)

  datatype Notice = Expired | Recovered

  datatype Last<T> = Last(reading: T, at: real)

  /** One pack in the service's state: its last PIA and PIB answers, whether it
      is on the stale list, and what was logged about it. */
  datatype View = View(last: Option<Last<Pack>>, pib: Option<Last<Temps>>, warned: bool, log: seq<Notice>)

  predicate Fresh<T>(timeout: real, last: Option<Last<T>>, now: real) {
    last.Some? && now - last.value.at <= timeout
  }

  function Track(timeout: real, v: View, pack: int, e: Event): View {
    if e.HeardPia? && e.pack == pack then
      View(Some(Last(e.reading, e.at)), v.pib, false, if v.warned then v.log + [Recovered] else v.log)
    else if e.HeardPib? && e.pack == pack then
      v.(pib := Some(Last(e.temps, e.at)))
    else if e.Checked? && v.last.Some? && !Fresh(timeout, v.last, e.at) && !v.warned then
      v.(warned := true, log := v.log + [Expired])
    else v
  }

  function Replay(timeout: real, pack: int, trace: seq<Event>): View {
    if trace == [] then View(None, None, false, [])
    else Track(timeout, Replay(timeout, pack, trace[..|trace| - 1]), pack, trace[|trace| - 1])
  }

  /** time.monotonic never goes back. */
  predicate Monotone(trace: seq<Event>) {
    forall i, j :: 0 <= i < j < |trace| ==> trace[i].at <= trace[j].at
  }

  /** Pack's last PIA answer is trace[i]. */
  predicate LastAt(pack: int, trace: seq<Event>, i: nat) {
    && i < |trace| && trace[i].HeardPia? && trace[i].pack == pack
    && forall j :: i < j < |trace| ==> !(trace[j].HeardPia? && trace[j].pack == pack)
  }

  predicate Unheard(pack: int, trace: seq<Event>) {
    forall j :: 0 <= j < |trace| ==> !(trace[j].HeardPia? && trace[j].pack == pack)
  }

  // ----- staleness -----

  lemma {:induction false} ReplayLast(timeout: real, pack: int, trace: seq<Event>)
    ensures Unheard(pack, trace) ==>
              && Replay(timeout, pack, trace).last == None
              && !Replay(timeout, pack, trace).warned && Replay(timeout, pack, trace).log == []
    ensures forall i: nat :: LastAt(pack, trace, i) ==>
              Replay(timeout, pack, trace).last == Some(Last(trace[i].reading, trace[i].at))
    decreases |trace|
  {
    if trace == [] {
    } else {
      var before := trace[..|trace| - 1];
      ReplayLast(timeout, pack, before);
      forall i: nat | LastAt(pack, trace, i)
        ensures Replay(timeout, pack, trace).last == Some(Last(trace[i].reading, trace[i].at))
      {
        if i < |before| { assert LastAt(pack, before, i); }
      }
    }
  }

  /** A pack on the stale list was found too old by an earlier check. */
  lemma {:induction false} WarnedIsOld(timeout: real, pack: int, trace: seq<Event>, now: real)
    requires Monotone(trace) && (trace != [] ==> trace[|trace| - 1].at <= now)
    requires Replay(timeout, pack, trace).warned
    ensures Replay(timeout, pack, trace).last.Some?
    ensures !Fresh(timeout, Replay(timeout, pack, trace).last, now)
    decreases |trace|
  {
    var before := trace[..|trace| - 1];
    var e := trace[|trace| - 1];
    if Replay(timeout, pack, before).warned && !(e.HeardPia? && e.pack == pack) {
      WarnedIsOld(timeout, pack, before, now);
    }
  }

  lemma ReplaySnoc(timeout: real, pack: int, trace: seq<Event>, e: Event)
    ensures Replay(timeout, pack, trace + [e]) == Track(timeout, Replay(timeout, pack, trace), pack, e)
  {
    assert (trace + [e])[..|trace|] == trace;
  }

  lemma MonotoneSnoc(trace: seq<Event>, e: Event)
    requires Monotone(trace + [e])
    ensures Monotone(trace) && (trace != [] ==> trace[|trace| - 1].at <= e.at)
  {
    assert forall k :: 0 <= k < |trace| ==> (trace + [e])[k] == trace[k];
    assert (trace + [e])[|trace|] == e;
  }

  /** After a check the stale list holds exactly the packs whose last answer
      is older than the timeout; a pack never heard is not on it. */
  lemma StaleExact(timeout: real, pack: int, trace: seq<Event>, now: real)
    requires Monotone(trace + [Checked(now)])
    ensures Unheard(pack, trace) ==> !Replay(timeout, pack, trace + [Checked(now)]).warned
    ensures forall i: nat :: LastAt(pack, trace, i) ==>
              (Replay(timeout, pack, trace + [Checked(now)]).warned <==> now - trace[i].at > timeout)
  {
    hide Replay, Monotone, Unheard, LastAt;
    ReplaySnoc(timeout, pack, trace, Checked(now));
    MonotoneSnoc(trace, Checked(now));
    ReplayLast(timeout, pack, trace);
    if Replay(timeout, pack, trace).warned { WarnedIsOld(timeout, pack, trace, now); }
  }

  /** A stale pack stays out until it answers a PIA poll again. */
  lemma {:induction false} StaysOut(timeout: real, pack: int, trace: seq<Event>, n: nat)
    requires Monotone(trace) && n <= |trace|
    requires Replay(timeout, pack, trace[..n]).warned
    requires Unheard(pack, trace[n..])
    ensures Replay(timeout, pack, trace).warned
    ensures trace != [] && !Fresh(timeout, Replay(timeout, pack, trace).last, trace[|trace| - 1].at)
    decreases |trace|
  {
    if n == |trace| {
      assert trace[..n] == trace;
    } else {
      var before := trace[..|trace| - 1];
      assert before[..n] == trace[..n] && before[n..] == trace[n..][..|trace| - 1 - n];
      StaysOut(timeout, pack, before, n);
      assert trace[n..][|trace| - 1 - n] == trace[|trace| - 1];
    }
    WarnedIsOld(timeout, pack, trace, trace[|trace| - 1].at);
  }

  /** What is logged about a pack alternates and starts with its expiry; the
      pack is on the stale list iff the last entry is an expiry. */
  lemma {:induction false} LogAlternates(timeout: real, pack: int, trace: seq<Event>)
    ensures var v := Replay(timeout, pack, trace);
            && (forall i :: 0 <= i < |v.log| ==> v.log[i] == if i % 2 == 0 then Expired else Recovered)
            && (v.warned <==> |v.log| % 2 == 1)
            && (v.warned ==> v.last.Some?)
    decreases |trace|
  {
    if trace == [] {
    } else {
      LogAlternates(timeout, pack, trace[..|trace| - 1]);
    }
  }

  // ----- the bank -----

  /** The readings that count at a moment, by pack number up to n. */
  function FreshPacks(timeout: real, trace: seq<Event>, now: real, n: nat): seq<Pack> {
    if n == 0 then []
    else
      var last := Replay(timeout, n, trace).last;
      FreshPacks(timeout, trace, now, n - 1) + if Fresh(timeout, last, now) then [last.value.reading] else []
  }

  function BankAt(timeout: real, trace: seq<Event>, now: real, n: nat): Option<Bank> {
    Aggregate(FreshPacks(timeout, trace, now, n))
  }

  /** Every reading the bank is made of is some pack's last answer, and recent. */
  lemma {:induction false} NothingExpired(timeout: real, trace: seq<Event>, now: real, n: nat) returns (from: seq<nat>)
    ensures |from| == |FreshPacks(timeout, trace, now, n)| <= n
    ensures forall k :: 0 <= k < |from| ==>
              && from[k] < |trace| && trace[from[k]].HeardPia? && 1 <= trace[from[k]].pack <= n
              && LastAt(trace[from[k]].pack, trace, from[k])
              && now - trace[from[k]].at <= timeout
              && FreshPacks(timeout, trace, now, n)[k] == trace[from[k]].reading
    ensures forall j, k :: 0 <= j < k < |from| ==> trace[from[j]].pack < trace[from[k]].pack
  {
    hide Replay, LastAt;
    from := [];
    if n == 0 {
    } else {
      var before := NothingExpired(timeout, trace, now, n - 1);
      from := before;
      if Fresh(timeout, Replay(timeout, n, trace).last, now) {
        var i := FindLast(timeout, n, trace);
        LastIsHeard(n, trace, i);
        from := before + [i];
        assert from[|before|] == i;
        assert forall k :: 0 <= k < |before| ==> from[k] == before[k];
      }
    }
  }

  /** And every pack whose last answer is recent is in the bank. */
  lemma {:induction false} NothingMissing(timeout: real, trace: seq<Event>, now: real, n: nat, pack: int, i: nat)
    returns (k: nat)
    requires 1 <= pack <= n && LastAt(pack, trace, i) && now - trace[i].at <= timeout
    ensures k < |FreshPacks(timeout, trace, now, n)| && FreshPacks(timeout, trace, now, n)[k] == trace[i].reading
  {
    hide Replay, LastAt;
    if pack == n {
      ReplayLast(timeout, n, trace);
      k := |FreshPacks(timeout, trace, now, n)| - 1;
    } else {
      k := NothingMissing(timeout, trace, now, n - 1, pack, i);
    }
  }

  lemma LastIsHeard(pack: int, trace: seq<Event>, i: nat)
    requires LastAt(pack, trace, i)
    ensures i < |trace| && trace[i].HeardPia? && trace[i].pack == pack
  {}

  lemma {:induction false} FindLast(timeout: real, pack: int, trace: seq<Event>) returns (i: nat)
    requires Replay(timeout, pack, trace).last.Some?
    ensures LastAt(pack, trace, i)
    ensures Replay(timeout, pack, trace).last == Some(Last(trace[i].reading, trace[i].at))
    decreases |trace|
  {
    var e := trace[|trace| - 1];
    if e.HeardPia? && e.pack == pack {
      i := |trace| - 1;
    } else {
      i := FindLast(timeout, pack, trace[..|trace| - 1]);
    }
  }

  // ----- the cells -----

  /** Pack's last PIB answer is trace[i]. */
  predicate LastPibAt(pack: int, trace: seq<Event>, i: nat) {
    && i < |trace| && trace[i].HeardPib? && trace[i].pack == pack
    && forall j :: i < j < |trace| ==> !(trace[j].HeardPib? && trace[j].pack == pack)
  }

  /** The cell temperatures that count at a moment, by pack number up to n. */
  function FreshPibs(timeout: real, cutoff: real, trace: seq<Event>, now: real, n: nat): seq<Temps> {
    if n == 0 then []
    else
      var last := Replay(timeout, n, trace).pib;
      FreshPibs(timeout, cutoff, trace, now, n - 1) + if Fresh(cutoff, last, now) then [last.value.reading] else []
  }

  /** They are packs' last PIB answers, and no older than the cutoff. */
  lemma {:induction false} NoPibExpired(timeout: real, cutoff: real, trace: seq<Event>, now: real, n: nat)
    returns (from: seq<nat>)
    ensures |from| == |FreshPibs(timeout, cutoff, trace, now, n)| <= n
    ensures forall k :: 0 <= k < |from| ==>
              && from[k] < |trace| && trace[from[k]].HeardPib? && 1 <= trace[from[k]].pack <= n
              && LastPibAt(trace[from[k]].pack, trace, from[k])
              && now - trace[from[k]].at <= cutoff
              && FreshPibs(timeout, cutoff, trace, now, n)[k] == trace[from[k]].temps
    ensures forall j, k :: 0 <= j < k < |from| ==> trace[from[j]].pack < trace[from[k]].pack
  {
    hide Replay, LastPibAt;
    from := [];
    if n == 0 {
    } else {
      var before := NoPibExpired(timeout, cutoff, trace, now, n - 1);
      from := before;
      if Fresh(cutoff, Replay(timeout, n, trace).pib, now) {
        var i := FindLastPib(timeout, n, trace);
        LastPibIsHeard(n, trace, i);
        from := before + [i];
        assert from[|before|] == i;
        assert forall k :: 0 <= k < |before| ==> from[k] == before[k];
      }
    }
  }

  lemma {:induction false} NoPibMissing(timeout: real, cutoff: real, trace: seq<Event>, now: real, n: nat,
                                       pack: int, i: nat) returns (k: nat)
    requires 1 <= pack <= n && LastPibAt(pack, trace, i) && now - trace[i].at <= cutoff
    ensures k < |FreshPibs(timeout, cutoff, trace, now, n)|
    ensures FreshPibs(timeout, cutoff, trace, now, n)[k] == trace[i].temps
  {
    hide Replay, LastPibAt;
    if pack == n {
      ReplayLastPib(timeout, n, trace);
      k := |FreshPibs(timeout, cutoff, trace, now, n)| - 1;
    } else {
      k := NoPibMissing(timeout, cutoff, trace, now, n - 1, pack, i);
    }
  }

  lemma {:induction false} ReplayLastPib(timeout: real, pack: int, trace: seq<Event>)
    ensures forall i: nat :: LastPibAt(pack, trace, i) ==>
              Replay(timeout, pack, trace).pib == Some(Last(trace[i].temps, trace[i].at))
    decreases |trace|
  {
    if trace == [] {
    } else {
      var before := trace[..|trace| - 1];
      ReplayLastPib(timeout, pack, before);
      forall i: nat | LastPibAt(pack, trace, i)
        ensures Replay(timeout, pack, trace).pib == Some(Last(trace[i].temps, trace[i].at))
      {
        if i < |before| { assert LastPibAt(pack, before, i); }
      }
    }
  }

  lemma LastPibIsHeard(pack: int, trace: seq<Event>, i: nat)
    requires LastPibAt(pack, trace, i)
    ensures i < |trace| && trace[i].HeardPib? && trace[i].pack == pack
  {}

  lemma {:induction false} FindLastPib(timeout: real, pack: int, trace: seq<Event>) returns (i: nat)
    requires Replay(timeout, pack, trace).pib.Some?
    ensures LastPibAt(pack, trace, i)
    ensures Replay(timeout, pack, trace).pib == Some(Last(trace[i].temps, trace[i].at))
    decreases |trace|
  {
    var e := trace[|trace| - 1];
    if e.HeardPib? && e.pack == pack {
      i := |trace| - 1;
    } else {
      i := FindLastPib(timeout, pack, trace[..|trace| - 1]);
    }
  }

  // ----- counters -----

  predicate Answer(e: Event) {
    !e.Checked?
  }

  function Answers(trace: seq<Event>): nat {
    if trace == [] then 0
    else Answers(trace[..|trace| - 1]) + if Answer(trace[|trace| - 1]) then 1 else 0
  }

  function AnswersOf(pack: int, trace: seq<Event>): nat {
    if trace == [] then 0
    else
      var e := trace[|trace| - 1];
      AnswersOf(pack, trace[..|trace| - 1]) + if Answer(e) && e.pack == pack then 1 else 0
  }

  function PiasOf(pack: int, trace: seq<Event>): nat {
    if trace == [] then 0
    else
      var e := trace[|trace| - 1];
      PiasOf(pack, trace[..|trace| - 1]) + if e.HeardPia? && e.pack == pack then 1 else 0
  }

  /** The counters count the answers, those of one pack, and its PIA answers. */
  lemma CountsExact(trace: seq<Event>, pack: int)
    ensures Answers(trace) == |set i | 0 <= i < |trace| && !trace[i].Checked?|
    ensures AnswersOf(pack, trace) == |set i | 0 <= i < |trace| && !trace[i].Checked? && trace[i].pack == pack|
    ensures PiasOf(pack, trace) == |set i | 0 <= i < |trace| && trace[i].HeardPia? && trace[i].pack == pack|
  {
    AnswersExact(trace);
    AnswersOfExact(trace, pack);
    PiasOfExact(trace, pack);
  }

  lemma {:induction false} AnswersExact(trace: seq<Event>)
    ensures Answers(trace) == |set i | 0 <= i < |trace| && !trace[i].Checked?|
    decreases |trace|
  {
    if trace != [] {
      var n := |trace| - 1;
      AnswersExact(trace[..n]);
      assert (set i | 0 <= i < |trace| && !trace[i].Checked?) ==
             (set i | 0 <= i < n && !trace[..n][i].Checked?) + if Answer(trace[n]) then {n} else {};
    }
  }

  lemma {:induction false} AnswersOfExact(trace: seq<Event>, pack: int)
    ensures AnswersOf(pack, trace) == |set i | 0 <= i < |trace| && !trace[i].Checked? && trace[i].pack == pack|
    decreases |trace|
  {
    if trace != [] {
      var n := |trace| - 1;
      AnswersOfExact(trace[..n], pack);
      assert (set i | 0 <= i < |trace| && !trace[i].Checked? && trace[i].pack == pack) ==
             (set i | 0 <= i < n && !trace[..n][i].Checked? && trace[..n][i].pack == pack) +
             if Answer(trace[n]) && trace[n].pack == pack then {n} else {};
    }
  }

  lemma {:induction false} PiasOfExact(trace: seq<Event>, pack: int)
    ensures PiasOf(pack, trace) == |set i | 0 <= i < |trace| && trace[i].HeardPia? && trace[i].pack == pack|
    decreases |trace|
  {
    if trace != [] {
      var before := trace[..|trace| - 1];
      PiasOfExact(before, pack);
      OneMorePia(trace, before, pack);
    }
  }

  lemma OneMorePia(trace: seq<Event>, before: seq<Event>, pack: int)
    requires trace != [] && before == trace[..|trace| - 1]
    ensures var e := trace[|before|];
            |set i | 0 <= i < |trace| && trace[i].HeardPia? && trace[i].pack == pack| ==
            |set i | 0 <= i < |before| && before[i].HeardPia? && before[i].pack == pack| +
            if e.HeardPia? && e.pack == pack then 1 else 0
  {
    var n := |before|;
    var was := set i | 0 <= i < n && before[i].HeardPia? && before[i].pack == pack;
    var now := set i | 0 <= i < |trace| && trace[i].HeardPia? && trace[i].pack == pack;
    if trace[n].HeardPia? && trace[n].pack == pack {
      assert now == was + {n};
    } else {
      assert now == was;
    }
  }

  function SumOf(trace: seq<Event>, n: nat): nat {
    if n == 0 then 0 else SumOf(trace, n - 1) + AnswersOf(n, trace)
  }

  lemma {:induction false} SumStep(trace: seq<Event>, n: nat)
    requires trace != []
    ensures var e := trace[|trace| - 1];
            SumOf(trace, n) == SumOf(trace[..|trace| - 1], n) + if Answer(e) && 1 <= e.pack <= n then 1 else 0
  {
    if n == 0 {
    } else {
      SumStep(trace, n - 1);
    }
  }

  /** The service's total is the sum of the packs' counters, and no pack has
      more PIA answers than answers. */
  lemma {:induction false} CountersAddUp(trace: seq<Event>, n: nat)
    requires forall i :: 0 <= i < |trace| && Answer(trace[i]) ==> 1 <= trace[i].pack <= n
    ensures Answers(trace) == SumOf(trace, n)
    ensures forall pack :: PiasOf(pack, trace) <= AnswersOf(pack, trace)
    decreases |trace|
  {
    if trace == [] {
      NoAnswers(n);
    } else {
      CountersAddUp(trace[..|trace| - 1], n);
      SumStep(trace, n);
    }
  }

  lemma {:induction false} NoAnswers(n: nat)
    ensures SumOf([], n) == 0
  {
    if n == 0 {
    } else {
      NoAnswers(n - 1);
    }
  }
}
