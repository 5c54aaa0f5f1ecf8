/**
 One turn of the BLE poll loop, said of its polls alone: which answers are
 booked, to which pack and in which order, and why the loop is left.
 */
module BmsTurns {
  import opened Wrappers
  import opened BankAggregator
  import opened BmsTrace
  import opened Service = BmsService

  /** After this poll the loop is left. */
  predicate Leaves<T>(poll: Poll<T>) {
    poll.reply.Raised? || (poll.reply.Failed? && !poll.reply.connected) || poll.stopped
  }

  predicate NoneLeaves<T>(polls: seq<Poll<T>>, n: int) {
    forall i :: 0 <= i < n <= |polls| ==> !Leaves(polls[i])
  }

  /** Poll number `pack`, counted from one, was reached and answered this. */
  ghost predicate GotAnswer<T>(polls: seq<Poll<T>>, pack: int, value: T, at: real) {
    1 <= pack <= |polls| && polls[pack - 1].reply == Answered(value, at) && NoneLeaves(polls, pack - 1)
  }

  /** The first poll after which the loop is left. */
  predicate FirstLeaves<T>(polls: seq<Poll<T>>, i: int) {
    0 <= i < |polls| && Leaves(polls[i]) && NoneLeaves(polls, i)
  }

  /** A round was left for this reason. */
  predicate LeftFor<T>(poll: Poll<T>, exit: Option<Exit>) {
    && (exit == Some(Escaped) <==> poll.reply.Raised?)
    && (exit == Some(LinkDown) <==> poll.reply.Failed? && !poll.reply.connected)
    && (exit == Some(StopRequested) <==>
          poll.stopped && !poll.reply.Raised? && (poll.reply.Failed? ==> poll.reply.connected))
  }

  /** PIA answers before PIB answers, each kind by pack number. */
  predicate InOrder(events: seq<Event>) {
    forall i, j :: 0 <= i < j < |events| && Answer(events[i]) && Answer(events[j]) ==>
      if events[i].HeardPia? == events[j].HeardPia? then events[i].pack < events[j].pack else events[i].HeardPia?
  }

  // ----- one round -----

  lemma {:induction false} PiaRoundExact(polls: seq<Poll<Pack>>)
    ensures var r := PiaRound(polls);
            && (r.exit == None <==> NoneLeaves(polls, |polls|))
            && (forall i :: FirstLeaves(polls, i) ==> LeftFor(polls[i], r.exit))
            && (forall e :: e in r.events <==> e.HeardPia? && GotAnswer(polls, e.pack, e.reading, e.at))
            && InOrder(r.events) && r.answered == |r.events|
    decreases |polls|
  {
    hide NoneLeaves, FirstLeaves, GotAnswer;
    if polls == [] {
      NoPolls(polls);
    } else {
      PiaRoundExact(polls[..|polls| - 1]);
      Shorter(polls);
      LeavesOrNot(polls[..|polls| - 1]);
    }
  }

  lemma {:induction false} PibRoundExact(polls: seq<Poll<Temps>>)
    ensures var r := PibRound(polls);
            && (r.exit == None <==> NoneLeaves(polls, |polls|))
            && (forall i :: FirstLeaves(polls, i) ==> LeftFor(polls[i], r.exit))
            && (forall e :: e in r.events <==> e.HeardPib? && GotAnswer(polls, e.pack, e.temps, e.at))
            && InOrder(r.events) && r.answered == |r.events|
    decreases |polls|
  {
    hide NoneLeaves, FirstLeaves, GotAnswer;
    if polls == [] {
      NoPolls(polls);
    } else {
      PibRoundExact(polls[..|polls| - 1]);
      Shorter(polls);
      LeavesOrNot(polls[..|polls| - 1]);
    }
  }

  lemma NoPolls<T>(polls: seq<Poll<T>>)
    requires polls == []
    ensures NoneLeaves(polls, |polls|) && forall i :: !FirstLeaves(polls, i)
    ensures forall pack, value, at :: !GotAnswer(polls, pack, value, at)
  {}

  lemma Shorter<T>(polls: seq<Poll<T>>)
    requires polls != []
    ensures var init, last := polls[..|polls| - 1], |polls| - 1;
            && (NoneLeaves(polls, |polls|) <==> NoneLeaves(init, last) && !Leaves(polls[last]))
            && (NoneLeaves(polls, last) <==> NoneLeaves(init, last))
            && (forall i :: FirstLeaves(init, i) ==> 0 <= i < last)
            && (forall pack, value, at :: GotAnswer(init, pack, value, at) ==> pack <= last)
            && (forall i :: FirstLeaves(polls, i) <==>
                  FirstLeaves(init, i) || (i == last && NoneLeaves(init, last) && Leaves(polls[last])))
            && (forall pack, value, at :: GotAnswer(polls, pack, value, at) <==>
                  || GotAnswer(init, pack, value, at)
                  || (pack == last + 1 && polls[last].reply == Answered(value, at) && NoneLeaves(init, last)))
  {}

  // ----- the rounds of one turn -----

  /** The PIA round is run to its end, and the last PIB round is long ago. */
  ghost predicate PibDue(cfg: Config, c: Cycle, lastSlow: real) {
    !c.stopped && NoneLeaves(c.pia, |c.pia|) && c.start - lastSlow >= cfg.slowInterval
  }

  /** Exactly the answers reached are booked, each to the pack it was asked of. */
  lemma TurnHears(cfg: Config, c: Cycle, lastSlow: real, e: Event)
    ensures e in Rounds(cfg, c, lastSlow).events <==>
              || (e.HeardPia? && !c.stopped && GotAnswer(c.pia, e.pack, e.reading, e.at))
              || (e.HeardPib? && PibDue(cfg, c, lastSlow) && GotAnswer(c.pib, e.pack, e.temps, e.at))
  {
    hide NoneLeaves, FirstLeaves, GotAnswer, PiaRound, PibRound, InOrder;
    PiaRoundExact(c.pia);
    PibRoundExact(c.pib);
  }

  lemma TurnOrder(cfg: Config, c: Cycle, lastSlow: real)
    ensures InOrder(Rounds(cfg, c, lastSlow).events)
    ensures Rounds(cfg, c, lastSlow).answered == |Rounds(cfg, c, lastSlow).events|
  {
    hide NoneLeaves, FirstLeaves, GotAnswer, PiaRound, PibRound;
    PiaRoundExact(c.pia);
    PibRoundExact(c.pib);
    forall i | 0 <= i < |PiaRound(c.pia).events| ensures PiaRound(c.pia).events[i].HeardPia? {
      assert PiaRound(c.pia).events[i] in PiaRound(c.pia).events;
    }
    forall i | 0 <= i < |PibRound(c.pib).events| ensures PibRound(c.pib).events[i].HeardPib? {
      assert PibRound(c.pib).events[i] in PibRound(c.pib).events;
    }
  }

  /** The first thing that calls for leaving decides why the loop is left. */
  lemma TurnLeft(cfg: Config, c: Cycle, lastSlow: real)
    ensures var r := Rounds(cfg, c, lastSlow);
            && (r.exit == None <==>
                  !c.stopped && NoneLeaves(c.pia, |c.pia|) && (PibDue(cfg, c, lastSlow) ==> NoneLeaves(c.pib, |c.pib|)))
            && (c.stopped ==> r.exit == Some(StopRequested))
            && (!c.stopped ==> forall i :: FirstLeaves(c.pia, i) ==> LeftFor(c.pia[i], r.exit))
            && (PibDue(cfg, c, lastSlow) ==> forall i :: FirstLeaves(c.pib, i) ==> LeftFor(c.pib[i], r.exit))
  {
    hide NoneLeaves, FirstLeaves, GotAnswer, PiaRound, PibRound, InOrder;
    PiaRoundExact(c.pia);
    PibRoundExact(c.pib);
    LeavesOrNot(c.pia);
  }

  lemma LeavesOrNot<T>(polls: seq<Poll<T>>)
    ensures forall i :: FirstLeaves(polls, i) ==> !NoneLeaves(polls, |polls|)
  {}
}
