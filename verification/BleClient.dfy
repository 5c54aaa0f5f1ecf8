/**
 bms/ble_client.py: one request at a time over a queue of notifications that
 may hold late, foreign or broken frames.
 */
module BleClient {
  import opened Wrappers
  import opened Crc
  import opened Modbus
  import opened Octopus

  datatype PollError = BadPack | NotConnected | NoResponse | Undecodable(error: DecodeError) | WrongType

  /** The header checks of _request. */
  predicate HeaderMatches(frame: bytes, pack: nat, byteCount: nat) {
    && |frame| >= 3 && Value(frame[0]) == pack
    && frame[1] == FC_READ_INPUT && Value(frame[2]) == byteCount
  }

  /** The first of at most `tries` frames whose header matches. */
  function FirstMatch(queue: seq<bytes>, pack: nat, byteCount: nat, tries: nat): Option<bytes> {
    if tries == 0 || queue == [] then None
    else if HeaderMatches(queue[0], pack, byteCount) then Some(queue[0])
    else FirstMatch(queue[1..], pack, byteCount, tries - 1)
  }

  /** An answer to function 4 of this pack with this many payload bytes. */
  predicate AnswersTo(frame: bytes, pack: nat, byteCount: nat) {
    |frame| >= 3 && Value(frame[0]) == pack && frame[1] == 4 && Value(frame[2]) == byteCount
  }

  /** The first k frames were looked at: the last of them is the answer, or
      there is none among them and no more were to be had or allowed. */
  predicate Taken(arrivals: seq<bytes>, pack: nat, byteCount: nat, k: nat, r: Result<bytes, PollError>) {
    && k <= |arrivals| && k <= 3
    && (forall j :: 0 <= j < k - 1 ==> !AnswersTo(arrivals[j], pack, byteCount))
    && match r
       case Ok(f) => k > 0 && arrivals[k - 1] == f && AnswersTo(f, pack, byteCount)
       case Err(_) => (k == 3 || k == |arrivals|) && (k > 0 ==> !AnswersTo(arrivals[k - 1], pack, byteCount))
  }

  class OctopusBleClient {
    /** The client object, once there is one, and whether its link is up. */
    var client: Option<bool>
    var notifyQ: seq<bytes>

    constructor ()
      ensures client == None && notifyQ == []
    {
      client, notifyQ := None, [];
    }

    predicate Connected()
      reads this
    {
      client == Some(true)
    }

    /** A refused connection raises and leaves the new client in place, and a
        refused subscription leaves it connected. */
    method Connect(accepted: bool, subscribed: bool) returns (raised: bool)
      modifies this`client
      ensures old(Connected()) ==> !raised && client == old(client)
      ensures !old(Connected()) ==> raised == !(accepted && subscribed) && client == Some(accepted)
    {
      if client.Some? && client.value { return false; }
      client := Some(accepted);
      if !accepted { return true; }
      return !subscribed;
    }

    /** Late answers are dropped, unless there was no client to begin with. */
    method Disconnect()
      modifies this
      ensures client == None
      ensures notifyQ == if old(client) == None then old(notifyQ) else []
    {
      if client == None { return; }
      client := None;
      while notifyQ != []
        modifies `notifyQ
        decreases |notifyQ|
      {
        notifyQ := notifyQ[1..];
      }
    }

    method OnNotify(frame: bytes)
      modifies this`notifyQ
      ensures notifyQ == old(notifyQ) + [frame]
    {
      notifyQ := notifyQ + [frame];
    }

    /** _request: drain, write, then take at most three frames. `arrivals` are
        the notifications that come in before the reads give up waiting. */
    method Request(pack: nat, byteCount: nat, arrivals: seq<bytes>) returns (r: Result<bytes, PollError>)
      modifies this`notifyQ
      ensures !Connected() ==> r == Err(NotConnected) && notifyQ == old(notifyQ)
      ensures Connected() ==>
                && r == (match FirstMatch(arrivals, pack, byteCount, 3)
                         case Some(f) => Ok(f)
                         case None => Err(NoResponse))
                && exists k: nat :: Taken(arrivals, pack, byteCount, k, r) && notifyQ == arrivals[k..]
    {
      if !Connected() { return Err(NotConnected); }
      while notifyQ != []
        decreases |notifyQ|
      {
        notifyQ := notifyQ[1..];
      }
      notifyQ := notifyQ + arrivals;
      assert notifyQ == arrivals;
      for attempt := 0 to 3
        invariant attempt <= |arrivals| && notifyQ == arrivals[attempt..]
        invariant forall j :: 0 <= j < attempt ==> !AnswersTo(arrivals[j], pack, byteCount)
        invariant FirstMatch(arrivals, pack, byteCount, 3) == FirstMatch(notifyQ, pack, byteCount, 3 - attempt)
      {
        if notifyQ == [] {
          assert Taken(arrivals, pack, byteCount, attempt, Err(NoResponse));
          return Err(NoResponse);
        }
        var response := notifyQ[0];
        notifyQ := notifyQ[1..];
        if |response| < 3 { continue; }
        if Value(response[0]) != pack { continue; }
        if response[1] != FC_READ_INPUT { continue; }
        if Value(response[2]) != byteCount { continue; }
        assert Taken(arrivals, pack, byteCount, attempt + 1, Ok(response));
        return Ok(response);
      }
      assert Taken(arrivals, pack, byteCount, 3, Err(NoResponse));
      return Err(NoResponse);
    }

    /** poll_pia. The last branch is the RuntimeError of the source. */
    method PollPia(pack: int, arrivals: seq<bytes>) returns (r: Result<PiaData, PollError>)
      modifies this`notifyQ
      ensures !(1 <= pack <= 4) <==> r == Err(BadPack)
      ensures r != Err(WrongType)
      ensures 1 <= pack <= 4 && !Connected() ==> r == Err(NotConnected)
      ensures 1 <= pack <= 4 && Connected() ==>
                match FirstMatch(arrivals, pack, 36, 3)
                case None => r == Err(NoResponse)
                case Some(f) =>
                  match ParseOctopus(f)
                  case Err(e) => r == Err(Undecodable(e))
                  case Ok(d) => d.Pia? && r == Ok(d.pia)
      ensures r.Ok? ==> Connected() && r.value.pack == pack && r.value.raw in arrivals
                        && FirstMatch(arrivals, pack, 36, 3) == Some(r.value.raw)
                        && ParseOctopus(r.value.raw) == Ok(Pia(r.value))
    {
      if !(1 <= pack <= 4) { return Err(BadPack); }
      var response := Request(pack, PIA_BYTE_COUNT, arrivals);
      if response.Err? { return Err(response.error); }
      MatchIsArrival(arrivals, pack, PIA_BYTE_COUNT, 3);
      TypeFollowsHeader(response.value, pack);
      match ParseOctopus(response.value) {
        case Err(e) => r := Err(Undecodable(e));
        case Ok(Pia(d)) => r := Ok(d);
        case Ok(Pib(_)) => r := Err(WrongType);
      }
    }

    /** poll_pib. */
    method PollPib(pack: int, arrivals: seq<bytes>) returns (r: Result<PibData, PollError>)
      modifies this`notifyQ
      ensures !(1 <= pack <= 4) <==> r == Err(BadPack)
      ensures r != Err(WrongType)
      ensures 1 <= pack <= 4 && !Connected() ==> r == Err(NotConnected)
      ensures 1 <= pack <= 4 && Connected() ==>
                match FirstMatch(arrivals, pack, 52, 3)
                case None => r == Err(NoResponse)
                case Some(f) =>
                  match ParseOctopus(f)
                  case Err(e) => r == Err(Undecodable(e))
                  case Ok(d) => d.Pib? && r == Ok(d.pib)
      ensures r.Ok? ==> Connected() && r.value.pack == pack && r.value.raw in arrivals
                        && FirstMatch(arrivals, pack, 52, 3) == Some(r.value.raw)
                        && ParseOctopus(r.value.raw) == Ok(Pib(r.value))
    {
      if !(1 <= pack <= 4) { return Err(BadPack); }
      var response := Request(pack, PIB_BYTE_COUNT, arrivals);
      if response.Err? { return Err(response.error); }
      MatchIsArrival(arrivals, pack, PIB_BYTE_COUNT, 3);
      TypeFollowsHeader(response.value, pack);
      match ParseOctopus(response.value) {
        case Err(e) => r := Err(Undecodable(e));
        case Ok(Pib(d)) => r := Ok(d);
        case Ok(Pia(_)) => r := Err(WrongType);
      }
    }
  }

  /** Frame i is the first answer of the queue. */
  predicate FirstAnswer(queue: seq<bytes>, pack: nat, byteCount: nat, i: nat) {
    && i < |queue| && AnswersTo(queue[i], pack, byteCount)
    && forall j :: 0 <= j < i ==> !AnswersTo(queue[j], pack, byteCount)
  }

  /** The first answer is found behind whatever comes before it, iff it is
      among the first `tries` frames. */
  lemma {:induction false} FirstMatchExact(queue: seq<bytes>, pack: nat, byteCount: nat, tries: nat, i: nat)
    requires FirstAnswer(queue, pack, byteCount, i)
    ensures FirstMatch(queue, pack, byteCount, tries) == if i < tries then Some(queue[i]) else None
    decreases tries
  {
    if tries > 0 && i > 0 {
      assert !AnswersTo(queue[0], pack, byteCount);
      assert forall j :: 0 <= j < i - 1 ==> queue[1..][j] == queue[j + 1];
      FirstMatchExact(queue[1..], pack, byteCount, tries - 1, i - 1);
    }
  }

  lemma {:induction false} NoMatch(queue: seq<bytes>, pack: nat, byteCount: nat, tries: nat)
    requires forall i :: 0 <= i < |queue| ==> !AnswersTo(queue[i], pack, byteCount)
    ensures FirstMatch(queue, pack, byteCount, tries) == None
    decreases tries
  {
    if tries > 0 && queue != [] {
      assert !AnswersTo(queue[0], pack, byteCount);
      NoMatch(queue[1..], pack, byteCount, tries - 1);
    }
  }

  lemma {:induction false} MatchIsArrival(queue: seq<bytes>, pack: nat, byteCount: nat, tries: nat)
    requires FirstMatch(queue, pack, byteCount, tries).Some?
    ensures var f := FirstMatch(queue, pack, byteCount, tries).value;
            f in queue && HeaderMatches(f, pack, byteCount)
    decreases tries
  {
    if !HeaderMatches(queue[0], pack, byteCount) {
      MatchIsArrival(queue[1..], pack, byteCount, tries - 1);
    }
  }

  /** A frame that passed the header checks decodes to the type asked for, or
      not at all. */
  lemma TypeFollowsHeader(frame: bytes, pack: nat)
    requires |frame| >= 3 && Value(frame[0]) == pack
    ensures match ParseOctopus(frame)
            case Ok(Pia(d)) => Value(frame[2]) == 36 && d.pack == pack && d.raw == frame
            case Ok(Pib(d)) => Value(frame[2]) == 52 && d.pack == pack && d.raw == frame
            case Err(_) => true
  {}
}
