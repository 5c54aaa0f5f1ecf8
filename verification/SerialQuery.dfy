/**
 serial_io.py: choosing our response out of a noisy buffer, and the query
 loop that re-scans the buffer after every chunk read from the port.
 */
module SerialQuery {
  import opened Wrappers
  import opened Crc
  import opened Modbus
  import opened FrameStream
  import opened QueryClock
  import opened StreamTheorems

  // ----- select_response -----

  /** What a caller of query asks for. */
  datatype Wanted = Wanted(slave: bv8, addr: bv16, count: int)

  predicate Matches(p: Paired, w: Wanted) {
    p.0.slave == w.slave && |p.0.regs| == w.count
  }

  /** 1: our own address was asked; 2: nobody asked; 3: another address was. */
  function Tier(p: Paired, w: Wanted): nat {
    if p.1 == Some(w.addr) then 1 else if p.1 == None then 2 else 3
  }

  /** The first match of the given tier. */
  function FirstOfTier(pairs: seq<Paired>, w: Wanted, tier: nat, i: nat): (k: nat)
    requires i <= |pairs|
    ensures i <= k <= |pairs|
    ensures k < |pairs| ==> Matches(pairs[k], w) && Tier(pairs[k], w) == tier
    ensures forall j :: i <= j < k && Matches(pairs[j], w) ==> Tier(pairs[j], w) != tier
    decreases |pairs| - i
  {
    if i == |pairs| || (Matches(pairs[i], w) && Tier(pairs[i], w) == tier) then i
    else FirstOfTier(pairs, w, tier, i + 1)
  }

  function Select(pairs: seq<Paired>, w: Wanted): Option<ModbusFrame> {
    var own, orphan, other := FirstOfTier(pairs, w, 1, 0), FirstOfTier(pairs, w, 2, 0), FirstOfTier(pairs, w, 3, 0);
    if own < |pairs| then Some(pairs[own].0)
    else if orphan < |pairs| then Some(pairs[orphan].0)
    else if other < |pairs| then Some(pairs[other].0)
    else None
  }

  /** `k` is a match, and no match has a lower tier or the same tier earlier. */
  ghost predicate Best(pairs: seq<Paired>, w: Wanted, k: nat) {
    && k < |pairs| && Matches(pairs[k], w)
    && forall j :: 0 <= j < |pairs| && Matches(pairs[j], w) ==>
         Tier(pairs[k], w) < Tier(pairs[j], w) || (Tier(pairs[k], w) == Tier(pairs[j], w) && k <= j)
  }

  /** The selection is the least match by (tier, stream position). */
  lemma SelectIsBest(pairs: seq<Paired>, w: Wanted)
    ensures Select(pairs, w) == None <==> forall j :: 0 <= j < |pairs| ==> !Matches(pairs[j], w)
    ensures forall k: nat :: Best(pairs, w, k) ==> Select(pairs, w) == Some(pairs[k].0)
    ensures Select(pairs, w).Some? ==> exists k: nat :: Best(pairs, w, k)
  {
    var own, orphan, other := FirstOfTier(pairs, w, 1, 0), FirstOfTier(pairs, w, 2, 0), FirstOfTier(pairs, w, 3, 0);
    var k := if own < |pairs| then own else if orphan < |pairs| then orphan else other;
    if k < |pairs| {
      assert Best(pairs, w, k);
      forall i: nat | Best(pairs, w, i)
        ensures i == k
      {
        assert Matches(pairs[i], w) && Matches(pairs[k], w);
      }
    }
  }

  /** pairs[k] is the first of our slave and count that carries `ctx`. */
  predicate FirstCarrying(pairs: seq<Paired>, w: Wanted, ctx: Option<bv16>, k: nat) {
    && k < |pairs| && pairs[k].0.slave == w.slave && |pairs[k].0.regs| == w.count && pairs[k].1 == ctx
    && forall j :: 0 <= j < k ==> !(pairs[j].0.slave == w.slave && |pairs[j].0.regs| == w.count && pairs[j].1 == ctx)
  }

  predicate NoneCarrying(pairs: seq<Paired>, w: Wanted, ctx: Option<bv16>) {
    forall j :: 0 <= j < |pairs| ==>
      !(pairs[j].0.slave == w.slave && |pairs[j].0.regs| == w.count && pairs[j].1 == ctx)
  }

  /** The selection, pass by pass: the first of our slave and count that was
      asked for our address; else the first that nobody asked for; else the
      first of all. */
  lemma SelectPriority(pairs: seq<Paired>, w: Wanted, k: nat)
    ensures FirstCarrying(pairs, w, Some(w.addr), k) ==> Select(pairs, w) == Some(pairs[k].0)
    ensures NoneCarrying(pairs, w, Some(w.addr)) && FirstCarrying(pairs, w, None, k) ==>
              Select(pairs, w) == Some(pairs[k].0)
    ensures && NoneCarrying(pairs, w, Some(w.addr)) && NoneCarrying(pairs, w, None)
            && k < |pairs| && pairs[k].0.slave == w.slave && |pairs[k].0.regs| == w.count
            && (forall j :: 0 <= j < k ==> !(pairs[j].0.slave == w.slave && |pairs[j].0.regs| == w.count)) ==>
              Select(pairs, w) == Some(pairs[k].0)
  {
    SelectIsBest(pairs, w);
    var own, orphan, other := FirstOfTier(pairs, w, 1, 0), FirstOfTier(pairs, w, 2, 0), FirstOfTier(pairs, w, 3, 0);
    if FirstCarrying(pairs, w, Some(w.addr), k) {
      assert Matches(pairs[k], w) && Tier(pairs[k], w) == 1;
      assert own == k;
    } else if NoneCarrying(pairs, w, Some(w.addr)) {
      assert own == |pairs|;
      if FirstCarrying(pairs, w, None, k) {
        assert Matches(pairs[k], w) && Tier(pairs[k], w) == 2;
        assert orphan == k;
      }
    }
  }

  function SelectIn(buf: bytes, w: Wanted): Option<ModbusFrame> {
    Select(Pairs(Walk(buf), None), w)
  }

  /** serial_io.py: select_response, its three passes. */
  method SelectResponse(stream: bytes, w: Wanted) returns (r: Option<ModbusFrame>, crcErrors: nat)
    ensures r == SelectIn(stream, w) == Select(Pairs(Walk(stream), None), w)
    ensures crcErrors == CrcErrors(Walk(stream))
  {
    hide Walk, Pairs, CrcErrors;
    var paired;
    paired, crcErrors := ResponsesWithContext(stream);
    for i := 0 to |paired|
      invariant FirstOfTier(paired, w, 1, 0) == FirstOfTier(paired, w, 1, i)
    {
      var (f, ctx) := paired[i];
      if f.slave == w.slave && |f.regs| == w.count && ctx == Some(w.addr) {
        return Some(f), crcErrors;
      }
    }
    for i := 0 to |paired|
      invariant FirstOfTier(paired, w, 2, 0) == FirstOfTier(paired, w, 2, i)
    {
      var (f, ctx) := paired[i];
      if f.slave == w.slave && |f.regs| == w.count && ctx == None {
        return Some(f), crcErrors;
      }
    }
    for i := 0 to |paired|
      invariant FirstOfTier(paired, w, 3, 0) == FirstOfTier(paired, w, 3, i)
    {
      var (f, _) := paired[i];
      if f.slave == w.slave && |f.regs| == w.count {
        return Some(f), crcErrors;
      }
    }
    return None, crcErrors;
  }

  // ----- _find_exception -----

  const READ_EXCEPTION: bv8 := 0x83

  predicate Marker(buf: bytes, slave: bv8, i: nat)
    requires i + 2 <= |buf|
  {
    buf[i] == slave && buf[i + 1] == READ_EXCEPTION
  }

  predicate ExceptionAt(buf: bytes, slave: bv8, i: nat) {
    i + 5 <= |buf| && Marker(buf, slave, i) && CrcOk(buf[i..i + 5])
  }

  /** Position of the leftmost complete, checked exception from `i` on. */
  function FirstException(buf: bytes, slave: bv8, i: nat): (k: nat)
    requires i <= |buf|
    ensures i <= k <= |buf|
    ensures k < |buf| ==> ExceptionAt(buf, slave, k)
    ensures forall j :: i <= j < k ==> !ExceptionAt(buf, slave, j)
    decreases |buf| - i
  {
    if i == |buf| || ExceptionAt(buf, slave, i) then i else FirstException(buf, slave, i + 1)
  }

  function ExceptionIn(buf: bytes, slave: bv8): Option<ModbusException> {
    var k := FirstException(buf, slave, 0);
    if k < |buf| then Some(ModbusException(slave, FC_READ_HOLDING, buf[k + 2])) else None
  }

  /** A whole exception frame of our read stands at `i`. */
  predicate ExceptionFrameAt(buf: bytes, slave: bv8, i: nat) {
    i + 5 <= |buf| && buf[i..i + 5] == EncodeException(slave, 0x83, buf[i + 2])
  }

  lemma ExceptionAtExact(buf: bytes, slave: bv8, i: nat)
    ensures ExceptionAt(buf, slave, i) <==> ExceptionFrameAt(buf, slave, i)
    ensures ExceptionAt(buf, slave, i) ==> i < |buf|
  {
    hide CrcOk, EncodeException;
    if i + 5 <= |buf| {
      var w := buf[i..i + 5];
      ExceptionParts(slave, 0x83, buf[i + 2]);
      if CrcOk(w) { ExceptionReencodes(w); }
    }
  }

  /** The leftmost one is raised with the code it carries; without one nothing
      is. */
  lemma ExceptionInExact(buf: bytes, slave: bv8, k: nat)
    ensures ExceptionFrameAt(buf, slave, k) && (forall j: nat :: j < k ==> !ExceptionFrameAt(buf, slave, j)) ==>
              k < |buf| - 4 && ExceptionIn(buf, slave) == Some(ModbusException(slave, 3, buf[k + 2]))
    ensures (forall j: nat :: !ExceptionFrameAt(buf, slave, j)) ==> ExceptionIn(buf, slave) == None
  {
    forall j: nat
      ensures ExceptionAt(buf, slave, j) <==> ExceptionFrameAt(buf, slave, j)
    {
      ExceptionAtExact(buf, slave, j);
    }
    var f := FirstException(buf, slave, 0);
    assert f < |buf| ==> ExceptionFrameAt(buf, slave, f);
    assert k < f ==> !ExceptionAt(buf, slave, k);
  }

  /** bytes.find for the two-byte marker. */
  method FindMarker(buf: bytes, slave: bv8, from: nat) returns (idx: int)
    ensures idx == -1 || from <= idx <= |buf| - 2
    ensures idx >= 0 ==> Marker(buf, slave, idx)
    ensures forall j :: from <= j <= |buf| - 2 && (idx == -1 || j < idx) ==> !Marker(buf, slave, j)
  {
    idx := from;
    while idx <= |buf| - 2
      invariant from <= idx
      invariant forall j :: from <= j <= |buf| - 2 && j < idx ==> !Marker(buf, slave, j)
    {
      if buf[idx] == slave && buf[idx + 1] == READ_EXCEPTION { return; }
      idx := idx + 1;
    }
    idx := -1;
  }

  method FindException(buf: bytes, slave: bv8) returns (exc: Option<ModbusException>)
    ensures exc == ExceptionIn(buf, slave)
  {
    var idx := FindMarker(buf, slave, 0);
    while idx != -1 && idx + 5 <= |buf|
      invariant idx == -1 || (0 <= idx <= |buf| - 2 && Marker(buf, slave, idx))
      invariant forall j :: 0 <= j < |buf| && (idx == -1 || j < idx) ==> !ExceptionAt(buf, slave, j)
      decreases if idx == -1 then 0 else |buf| - idx
    {
      if CrcOk(buf[idx..idx + 5]) {
        assert ExceptionAt(buf, slave, idx);
        return Some(ModbusException(slave, FC_READ_HOLDING, buf[idx + 2]));
      }
      idx := FindMarker(buf, slave, idx + 1);
    }
    return None;
  }

  // ----- query -----

  datatype Outcome =
    | Rejected
    | Returned(frame: ModbusFrame)
    | ExceptionRaised(exc: ModbusException)
    | TimedOut

  /** All bytes of the chunks, in order. */
  function Joined(chunks: seq<bytes>): bytes {
    if chunks == [] then [] else Joined(chunks[..|chunks| - 1]) + chunks[|chunks| - 1]
  }

  /** What the loop does with a buffer: a match wins over an exception. */
  function Verdict(buf: bytes, w: Wanted): Option<Outcome> {
    if SelectIn(buf, w).Some? then Some(Returned(SelectIn(buf, w).value))
    else if ExceptionIn(buf, w.slave).Some? then Some(ExceptionRaised(ExceptionIn(buf, w.slave).value))
    else None
  }

  /** The number of chunks read when the loop stops: the first boundary with a
      verdict, or all of them. */
  function StopAt(chunks: seq<bytes>, w: Wanted, from: nat): (k: nat)
    requires from <= |chunks|
    ensures from <= k <= |chunks|
    ensures k < |chunks| ==> Verdict(Joined(chunks[..k]), w).Some?
    ensures forall j :: from <= j < k ==> Verdict(Joined(chunks[..j]), w) == None
    decreases |chunks| - from
  {
    if from == |chunks| || Verdict(Joined(chunks[..from]), w).Some? then from
    else StopAt(chunks, w, from + 1)
  }

  /** Callbacks of the scans after each of the first `k` chunks that brought bytes. */
  function ScanErrors(chunks: seq<bytes>, k: nat): nat
    requires k <= |chunks|
  {
    if k == 0 then 0
    else ScanErrors(chunks, k - 1) + (if chunks[k - 1] == [] then 0 else CrcErrors(Walk(Joined(chunks[..k]))))
  }

  /** How a query ends. */
  function QueryOutcome(chunks: seq<bytes>, w: Wanted): Outcome {
    Verdict(Joined(chunks[..StopAt(chunks, w, 0)]), w).GetOr(TimedOut)
  }

  lemma EmptyBuffer(w: Wanted)
    ensures Verdict([], w) == None
  {}

  lemma JoinedNext(chunks: seq<bytes>, i: nat)
    requires i < |chunks|
    ensures Joined(chunks[..i + 1]) == Joined(chunks[..i]) + chunks[i]
  {
    assert chunks[..i + 1][..i] == chunks[..i];
  }

  lemma VerdictCases(buf: bytes, w: Wanted)
    ensures SelectIn(buf, w).Some? ==> Verdict(buf, w) == Some(Returned(SelectIn(buf, w).value))
    ensures SelectIn(buf, w) == None && ExceptionIn(buf, w.slave).Some? ==>
              Verdict(buf, w) == Some(ExceptionRaised(ExceptionIn(buf, w.slave).value))
    ensures Verdict(buf, w) == None <==> SelectIn(buf, w) == None && ExceptionIn(buf, w.slave) == None
  {}

  /** serial_io.py: SerialPort.query. Read `i` of the port brings chunks[i], an
      empty one if it timed out, after seconds[i]. */
  method Query(chunks: seq<bytes>, seconds: seq<real>, timeout: real, slave: bv8, addr: int, count: int)
      returns (outcome: Outcome, crcErrors: nat, elapsed: real)
    requires |seconds| == |chunks|
    ensures BuildReadHoldingRequest(slave, addr, count) == None <==> outcome == Rejected
    ensures 0 <= addr <= 0xFFFF && outcome != Rejected ==>
              var w := Wanted(slave, addr as bv16, count);
              var read := chunks[..Begun(seconds, timeout, 0)];
              && outcome == QueryOutcome(read, w) && crcErrors == ScanErrors(read, StopAt(read, w, 0))
              && elapsed == Seconds(seconds[..StopAt(read, w, 0)])
    ensures timeout > 0.0 && Bounded(seconds, timeout) ==> elapsed < 2.0 * timeout
  {
    hide Verdict, SelectIn, Select, Pairs, ExceptionIn, CrcErrors, Walk, Seconds;
    crcErrors, elapsed := 0, 0.0;
    var req := BuildReadHoldingRequest(slave, addr, count);
    if req == None { return Rejected, 0, 0.0; }
    var w := Wanted(slave, addr as bv16, count);
    EmptyBuffer(w);
    NoSeconds(seconds);
    var buf: bytes := [];
    var i := 0;
    ghost var read := chunks[..Begun(seconds, timeout, 0)];
    while i < |chunks| && elapsed < timeout
      invariant i <= |read| && Begun(seconds, timeout, i) == |read|
      invariant elapsed == Seconds(seconds[..i])
      invariant buf == Joined(read[..i])
      invariant Verdict(buf, w) == None
      invariant StopAt(read, w, 0) == StopAt(read, w, i)
      invariant crcErrors == ScanErrors(read, i)
      decreases |chunks| - i
    {
      var chunk := chunks[i];
      JoinedNext(read, i);
      SecondsNext(seconds, i);
      elapsed := elapsed + seconds[i];
      i := i + 1;
      if timeout > 0.0 && Bounded(seconds, timeout) { ReadPhase(seconds, timeout, i); }
      if chunk != [] {
        buf := buf + chunk;
        VerdictCases(buf, w);
        var frame, errors := SelectResponse(buf, w);
        crcErrors := crcErrors + errors;
        if frame.Some? { return Returned(frame.value), crcErrors, elapsed; }
        var exc := FindException(buf, slave);
        if exc.Some? { return ExceptionRaised(exc.value), crcErrors, elapsed; }
      }
    }
    // The deadline has passed; the buffer was scanned when its last byte came,
    // so this second look finds nothing.
    VerdictCases(buf, w);
    var late := FindException(buf, slave);
    assert late == None;
    if timeout > 0.0 && Bounded(seconds, timeout) { ReadPhase(seconds, timeout, i); }
    return TimedOut, crcErrors, elapsed;
  }

  lemma NoSeconds(seconds: seq<real>)
    ensures Seconds(seconds[..0]) == 0.0
  {}

  /** The outcome, by chunk boundaries: at the first that shows a selectable
      response that one is returned, even if an exception is there too; at the
      first that shows only an exception, that one is raised; else a timeout. */
  lemma OutcomeExact(chunks: seq<bytes>, w: Wanted, k: nat)
    requires k <= |chunks|
    requires forall j: nat :: j < k ==>
               SelectIn(Joined(chunks[..j]), w) == None && ExceptionIn(Joined(chunks[..j]), w.slave) == None
    ensures var buf := Joined(chunks[..k]);
            && (SelectIn(buf, w).Some? ==> QueryOutcome(chunks, w) == Returned(SelectIn(buf, w).value))
            && (SelectIn(buf, w) == None && ExceptionIn(buf, w.slave).Some? ==>
                  QueryOutcome(chunks, w) == ExceptionRaised(ExceptionIn(buf, w.slave).value))
            && (k == |chunks| && SelectIn(buf, w) == None && ExceptionIn(buf, w.slave) == None ==>
                  QueryOutcome(chunks, w) == TimedOut)
  {
    hide SelectIn, ExceptionIn, Joined;
    var stop := StopAt(chunks, w, 0);
    VerdictCases(Joined(chunks[..stop]), w);
    forall j: nat | j < k ensures Verdict(Joined(chunks[..j]), w) == None { VerdictCases(Joined(chunks[..j]), w); }
  }

  /** Each chunk that brings bytes costs the callbacks of one scan of all bytes
      so far. */
  lemma ScanErrorsExact(chunks: seq<bytes>, k: nat)
    requires k < |chunks|
    ensures ScanErrors(chunks, 0) == 0
    ensures chunks[k] == [] ==> ScanErrors(chunks, k + 1) == ScanErrors(chunks, k)
    ensures chunks[k] != [] ==>
              ScanErrors(chunks, k + 1) == ScanErrors(chunks, k) + CrcErrors(Walk(Joined(chunks[..k]) + chunks[k]))
  {
    hide Walk, CrcErrors;
    JoinedNext(chunks, k);
  }

  // ----- what no chunking can change -----

  /** An exception found in a prefix is the one found in every longer buffer. */
  lemma {:induction false} ExceptionStable(buf: bytes, u: bytes, slave: bv8, i: nat)
    requires i <= |buf| && FirstException(buf, slave, i) < |buf|
    ensures FirstException(buf + u, slave, i) == FirstException(buf, slave, i)
    decreases |buf| - i
  {
    if i + 5 <= |buf| { assert (buf + u)[i..i + 5] == buf[i..i + 5]; }
    if !ExceptionAt(buf, slave, i) { ExceptionStable(buf, u, slave, i + 1); }
  }

  lemma ExceptionInStable(buf: bytes, u: bytes, slave: bv8)
    requires ExceptionIn(buf, slave).Some?
    ensures ExceptionIn(buf + u, slave) == ExceptionIn(buf, slave)
  {
    ExceptionStable(buf, u, slave, 0);
  }

  lemma {:induction false} JoinedSplit(chunks: seq<bytes>, k: nat) returns (u: bytes)
    requires k <= |chunks|
    ensures Joined(chunks) == Joined(chunks[..k]) + u
    decreases |chunks|
  {
    if k == |chunks| {
      assert chunks[..k] == chunks;
      u := [];
    } else {
      var n := |chunks| - 1;
      var v := JoinedSplit(chunks[..n], k);
      assert chunks[..n][..k] == chunks[..k];
      u := v + chunks[n];
    }
  }

  /** Whatever the chunking: a query times out exactly when no boundary gives
      a verdict; an exception raised is the leftmost of all the bytes; and bytes
      that hold a match or an exception never time out. */
  lemma ChunkingExact(chunks: seq<bytes>, w: Wanted)
    ensures var o := QueryOutcome(chunks, w);
            var total := Joined(chunks);
            && (o == TimedOut <==> forall k :: 0 <= k <= |chunks| ==> Verdict(Joined(chunks[..k]), w) == None)
            && (o.ExceptionRaised? ==> ExceptionIn(total, w.slave) == Some(o.exc))
            && (SelectIn(total, w).Some? || ExceptionIn(total, w.slave).Some? ==> o != TimedOut)
  {
    hide Verdict, SelectIn, ExceptionIn, StopAt, Joined;
    var k := StopAt(chunks, w, 0);
    VerdictCases(Joined(chunks[..k]), w);
    VerdictCases(Joined(chunks), w);
    VerdictIsNoTimeout(Joined(chunks[..k]), w);
    assert chunks[..|chunks|] == chunks;
    if QueryOutcome(chunks, w).ExceptionRaised? {
      var u := JoinedSplit(chunks, k);
      ExceptionInStable(Joined(chunks[..k]), u, w.slave);
    }
  }

  lemma VerdictIsNoTimeout(buf: bytes, w: Wanted)
    ensures Verdict(buf, w) != Some(TimedOut)
    ensures Verdict(buf, w).Some? && Verdict(buf, w).value.ExceptionRaised? ==>
              ExceptionIn(buf, w.slave) == Some(Verdict(buf, w).value.exc)
  {}

  lemma {:induction false} FrameAmong(ts: seq<Token>, f: ModbusFrame) returns (k: nat)
    requires Response(f) in ts
    ensures k < |Frames(ts)| && Frames(ts)[k] == f
    decreases |ts|
  {
    if ts[0] == Response(f) {
      k := 0;
    } else {
      assert Response(f) in ts[1..];
      var r := FrameAmong(ts[1..], f);
      k := if ts[0].Response? then r + 1 else r;
    }
  }

  /** If framed traffic holds a response of the right slave and size, a query
      reading that traffic in any chunks, with anything after it, ends. */
  lemma FramedResponseFound(items: seq<Token>, u: bytes, chunks: seq<bytes>, w: Wanted, f: ModbusFrame)
    requires AllWellFormed(items) && (forall t :: t in items ==> Sent(t))
    requires Unambiguous(items, u)
    requires Response(f) in items && f.slave == w.slave && |f.regs| == w.count
    requires Joined(chunks) == EncodeAll(items) + u
    ensures QueryOutcome(chunks, w) != TimedOut
  {
    hide Walk, Unambiguous, EncodeAll, QueryOutcome, Sent;
    var ts := Walk(Joined(chunks));
    Composition(items, u);
    var k := FrameAmong(items, f);
    assert Frames(ts)[k] == f;
    PairedFrames(ts, None);
    assert Matches(Pairs(ts, None)[k], w);
    SelectIsBest(Pairs(ts, None), w);
    ChunkingExact(chunks, w);
  }

  // ----- what is returned was on the wire -----

  lemma {:induction false} FrameInWalk(ts: seq<Token>, k: nat)
    requires k < |Frames(ts)|
    ensures Response(Frames(ts)[k]) in ts
    decreases |ts|
  {
    if ts[0].Response? && k == 0 {
    } else {
      FrameInWalk(ts[1..], if ts[0].Response? then k - 1 else k);
    }
  }

  lemma SliceOfTail(s: bytes, n: nat, j: nat, m: nat)
    requires n + j + m <= |s|
    ensures s[n..][j..j + m] == s[n + j..n + j + m]
  {}

  lemma {:induction false} ResponseOnWire(s: bytes, f: ModbusFrame) returns (i: nat)
    requires Response(f) in Walk(s)
    ensures WellFormed(Response(f)) && |f.regs| <= 125
    ensures i + |EncodeResponse(f)| <= |s| && s[i..i + |EncodeResponse(f)|] == EncodeResponse(f)
    decreases |s|
  {
    hide Head, EncodeResponse, WellFormed;
    var n := Length(Head(s));
    HeadTile(s);
    if Head(s) == Response(f) {
      RegistersFit(f);
      i := 0;
    } else {
      var j := ResponseOnWire(s[n..], f);
      i := n + j;
      SliceOfTail(s, n, j, |EncodeResponse(f)|);
    }
  }

  lemma RegistersFit(f: ModbusFrame)
    requires WellFormed(Response(f))
    ensures |f.regs| <= 125
  {}

  /** A returned frame has our slave and count, and its encoding, CRC and all,
      stands among the bytes that were read. */
  lemma ReturnedIsReal(chunks: seq<bytes>, w: Wanted, f: ModbusFrame) returns (i: nat)
    requires QueryOutcome(chunks, w) == Returned(f)
    ensures f.slave == w.slave && |f.regs| == w.count <= 125 && WellFormed(Response(f))
    ensures i + |EncodeResponse(f)| <= |Joined(chunks)|
    ensures Joined(chunks)[i..i + |EncodeResponse(f)|] == EncodeResponse(f)
  {
    hide Walk, Pairs, Frames, EncodeResponse, WellFormed, StopAt, Joined, ExceptionIn, Select;
    var k := StopAt(chunks, w, 0);
    var buf := Joined(chunks[..k]);
    assert SelectIn(buf, w) == Some(f);
    SelectIsBest(Pairs(Walk(buf), None), w);
    var b: nat :| Best(Pairs(Walk(buf), None), w, b);
    PairedFrames(Walk(buf), None);
    FrameInWalk(Walk(buf), b);
    i := ResponseOnWire(buf, f);
    var u := JoinedSplit(chunks, k);
    assert Joined(chunks)[i..i + |EncodeResponse(f)|] == buf[i..i + |EncodeResponse(f)|];
  }
}
