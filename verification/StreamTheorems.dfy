/**
 What the walks of serial_io.py guarantee: they lose no byte, they read back
 whatever was framed, and more input never changes what is settled.
 */
module StreamTheorems {
  import opened Wrappers
  import opened Crc
  import opened Modbus
  import opened FrameStream

  // ----- tokens as bytes -----

  predicate WellFormed(t: Token) {
    match t
    case Response(f) => ValidSlave(f.slave) && f.func == FC_READ_HOLDING && 1 <= |f.regs| <= 125
    case Request(slave, _, _) => ValidSlave(slave)
    case Exception(slave, func, _) => ValidSlave(slave) && ErrorBit(func)
    case Skip(_, _) => true
  }

  function Encode(t: Token): (wire: bytes)
    requires WellFormed(t)
    ensures |wire| == Length(t)
  {
    match t
    case Response(f) => EncodeResponse(f)
    case Request(slave, addr, count) => EncodeRequest(slave, addr, count)
    case Exception(slave, func, excode) => EncodeException(slave, func, excode)
    case Skip(b, _) => [b]
  }

  ghost predicate AllWellFormed(ts: seq<Token>) {
    forall t :: t in ts ==> WellFormed(t)
  }

  ghost function EncodeAll(ts: seq<Token>): (wire: bytes)
    requires AllWellFormed(ts)
  {
    if ts == [] then [] else Encode(ts[0]) + EncodeAll(ts[1..])
  }

  // ----- no byte is lost -----

  lemma ResponseTile(s: bytes)
    requires |s| > 4 && ValidSlave(s[0]) && ValidResponse(s)
    ensures var n := ResponseLength(s[2]);
            && WellFormed(Response(DecodeResponse(s)))
            && EncodeResponse(DecodeResponse(s)) == s[..n]
  {
    hide CrcOk, Registers, EncodeResponse, Value;
    var n := ResponseLength(s[2]);
    var w := s[..n];
    assert w[3..|w| - 2] == s[3..n - 2];
    ResponseReencodes(w);
  }

  lemma RequestTile(s: bytes)
    requires |s| > 4 && ValidRequest(s)
    ensures EncodeRequest(s[0], Word(s[2], s[3]), Word(s[4], s[5])) == s[..8]
  {
    HalvesOfWord(s[2], s[3]);
    HalvesOfWord(s[4], s[5]);
    CrcOkIsWithCrc(s[..8]);
    assert s[..8][..6] == [s[0], s[1], s[2], s[3], s[4], s[5]];
  }

  lemma ExceptionTile(s: bytes)
    requires |s| > 4 && ValidException(s)
    ensures EncodeException(s[0], s[1], s[2]) == s[..5]
  {
    CrcOkIsWithCrc(s[..5]);
    assert s[..5][..3] == [s[0], s[1], s[2]];
  }

  /** Each step's token encodes to exactly the bytes the step consumed. */
  lemma HeadTile(s: bytes)
    requires |s| > 4
    ensures WellFormed(Head(s)) && Encode(Head(s)) == s[..Length(Head(s))]
  {
    if ValidSlave(s[0]) && ValidResponse(s) { ResponseTile(s); }
    else if ValidSlave(s[0]) && ValidRequest(s) { RequestTile(s); }
    else if ValidSlave(s[0]) && ValidException(s) { ExceptionTile(s); }
  }

  /** The tokens tile the stream; fewer than five bytes remain. */
  lemma {:induction false} WalkTiles(s: bytes)
    ensures AllWellFormed(Walk(s))
    ensures EncodeAll(Walk(s)) <= s && |s| - |EncodeAll(Walk(s))| <= 4
    decreases |s|
  {
    hide Head, Encode, WellFormed;
    if |s| > 4 {
      var n := Length(Head(s));
      HeadTile(s);
      WalkTiles(s[n..]);
      assert Walk(s)[1..] == Walk(s[n..]);
      assert s == s[..n] + s[n..];
    }
  }

  // ----- what was framed is read back -----

  lemma ResponseHead(f: ModbusFrame, u: bytes)
    requires WellFormed(Response(f))
    ensures Head(EncodeResponse(f) + u) == Response(f)
  {
    hide CrcOk, EncodeResponse, Registers, Value;
    var w := EncodeResponse(f);
    var s := w + u;
    EncodedResponseParts(f);
    assert s[..|w|] == w;
    assert s[3..|w| - 2] == w[3..|w| - 2];
  }

  lemma RequestHead(slave: bv8, addr: bv16, count: bv16, u: bytes)
    requires ValidSlave(slave)
    requires !ValidResponse(EncodeRequest(slave, addr, count) + u)
    ensures Head(EncodeRequest(slave, addr, count) + u) == Request(slave, addr, count)
  {
    var w := EncodeRequest(slave, addr, count);
    WithCrcOk([slave, FC_READ_HOLDING, Hi(addr), Lo(addr), Hi(count), Lo(count)]);
    assert (w + u)[..8] == w;
    WordHalves(addr);
    WordHalves(count);
  }

  lemma ExceptionHead(slave: bv8, func: bv8, excode: bv8, u: bytes)
    requires ValidSlave(slave) && ErrorBit(func)
    ensures Head(EncodeException(slave, func, excode) + u) == Exception(slave, func, excode)
  {
    var w := EncodeException(slave, func, excode);
    WithCrcOk([slave, func, excode]);
    assert (w + u)[..5] == w;
    ErrorBitIsNoRead(func);
  }

  lemma ErrorBitIsNoRead(func: bv8)
    requires ErrorBit(func)
    ensures func != FC_READ_HOLDING
  {}

  /** What may stand on the wire: frames of the slaves 1..247, and filler bytes
      outside that range. */
  predicate Sent(t: Token) {
    match t
    case Response(f) => 1 <= f.slave <= 247 && f.func == 3 && 1 <= |f.regs| <= 125
    case Request(slave, _, _) => 1 <= slave <= 247
    case Exception(slave, func, _) => 1 <= slave <= 247 && func >= 0x80
    case Skip(b, crcError) => (b == 0 || b > 247) && !crcError
  }

  lemma SentFits(t: Token)
    requires Sent(t)
    ensures WellFormed(t)
    ensures t.Skip? ==> !ValidSlave(t.byte) && !t.crcError
  {
    if t.Exception? { HighBit(t.func); }
  }

  lemma HighBit(func: bv8)
    ensures ErrorBit(func) <==> func >= 0x80
  {}

  /** The step in front of `u` finds `t`, unless `t` is a request whose bytes,
      together with what follows, also read as a checked response. */
  lemma HeadExact(t: Token, u: bytes)
    requires Sent(t) && WellFormed(t) && |Encode(t) + u| > 4
    ensures Head(Encode(t) + u) == t <==> !(t.Request? && ValidResponse(Encode(t) + u))
  {
    SentFits(t);
    match t
    case Response(f) => ResponseHead(f, u);
    case Request(slave, addr, count) =>
      if !ValidResponse(Encode(t) + u) { RequestHead(slave, addr, count, u); }
    case Exception(slave, func, excode) => ExceptionHead(slave, func, excode, u);
    case Skip(_, _) =>
  }

  /** Responses of 1..125 registers and exceptions, from the slaves 1..247, are
      read back whatever follows them. */
  lemma FramesRead(t: Token, u: bytes)
    requires t.Response? || t.Exception?
    requires t.Response? ==> 1 <= t.frame.slave <= 247 && t.frame.func == 3 && 1 <= |t.frame.regs| <= 125
    requires t.Exception? ==> 1 <= t.slave <= 247 && t.func >= 0x80
    ensures t.Response? ==> Head(EncodeResponse(t.frame) + u) == t
    ensures t.Exception? ==> Head(EncodeException(t.slave, t.func, t.excode) + u) == t
  {
    SentFits(t);
    HeadExact(t, u);
  }

  /** Requests from the slaves 1..247 are, unless they also read as a response. */
  lemma RequestsRead(slave: bv8, addr: bv16, count: bv16, u: bytes)
    requires 1 <= slave <= 247 && !ValidResponse(EncodeRequest(slave, addr, count) + u)
    ensures Head(EncodeRequest(slave, addr, count) + u) == Request(slave, addr, count)
  {
    SentFits(Request(slave, addr, count));
    HeadExact(Request(slave, addr, count), u);
  }

  /** A first byte that is no slave address is skipped, without a callback. */
  lemma OthersSkipped(s: bytes)
    requires |s| > 4 && (s[0] == 0 || s[0] > 247)
    ensures Head(s) == Skip(s[0], false)
  {}

  /** A request is built exactly for a count and an address in range, and the
      walk reads it back unless it also reads as a checked response. */
  lemma BuiltRequest(slave: bv8, addr: int, count: int, u: bytes)
    ensures BuildReadHoldingRequest(slave, addr, count).Some? <==> 1 <= count <= 125 && 0 <= addr <= 0xFFFF
    ensures 1 <= count <= 125 && 0 <= addr <= 0xFFFF ==>
              var w := BuildReadHoldingRequest(slave, addr, count).value;
              && |w| == 8 && CrcOk(w)
              && (1 <= slave <= 247 ==>
                    (Head(w + u) == Request(slave, addr as bv16, count as bv16) <==> !ValidResponse(w + u)))
  {
    if 1 <= count <= 125 && 0 <= addr <= 0xFFFF {
      var a, c := addr as bv16, count as bv16;
      WithCrcOk([slave, FC_READ_HOLDING, Hi(a), Lo(a), Hi(c), Lo(c)]);
      if 1 <= slave <= 247 {
        SentFits(Request(slave, a, c));
        HeadExact(Request(slave, a, c), u);
      }
    }
  }

  /** No request in `items` reads as a response in front of the rest and `u`. */
  ghost predicate Unambiguous(items: seq<Token>, u: bytes)
    requires AllWellFormed(items)
  {
    items == [] ||
    (&& !(items[0].Request? && ValidResponse(EncodeAll(items) + u))
     && Unambiguous(items[1..], u))
  }

  /** Reading back: the walk over framed items and a tail yields the items'
      responses, then the tail's, and reports the tail's CRC errors only. */
  lemma {:induction false} Composition(items: seq<Token>, u: bytes)
    requires AllWellFormed(items) && (forall t :: t in items ==> Sent(t))
    requires Unambiguous(items, u)
    ensures Frames(Walk(EncodeAll(items) + u)) == Frames(items) + Frames(Walk(u))
    ensures CrcErrors(Walk(EncodeAll(items) + u)) == CrcErrors(Walk(u))
    decreases |items|
  {
    hide Head, Encode, WellFormed, ValidResponse, Sent;
    if items == [] {
      assert EncodeAll(items) + u == u;
    } else {
      var t := items[0];
      var rest := EncodeAll(items[1..]) + u;
      var s := Encode(t) + rest;
      assert EncodeAll(items) + u == s;
      Composition(items[1..], u);
      ItemStep(t, rest);
    }
  }

  lemma ItemStep(t: Token, rest: bytes)
    requires Sent(t) && !(t.Request? && ValidResponse(Encode(t) + rest))
    ensures Frames(Walk(Encode(t) + rest)) == (if t.Response? then [t.frame] else []) + Frames(Walk(rest))
    ensures CrcErrors(Walk(Encode(t) + rest)) == CrcErrors(Walk(rest))
  {
    var s := Encode(t) + rest;
    SentSkip(t);
    hide Head, Encode, WellFormed, ValidResponse, Sent;
    if |s| > 4 {
      HeadExact(t, rest);
      assert s[Length(t)..] == rest;
      assert Walk(s) == [t] + Walk(rest);
      assert ([t] + Walk(rest))[1..] == Walk(rest);
    } else {
      assert t.Skip?;
    }
  }

  lemma SentSkip(t: Token)
    requires Sent(t)
    ensures t.Skip? ==> !t.crcError
  {}

  /** An address whose high byte is no byte count cannot be mistaken. */
  lemma SafeRequest(t: Token, u: bytes)
    requires Sent(t) && t.Request? && ResponseLength(Hi(t.addr)) == 0
    ensures !ValidResponse(Encode(t) + u)
  {
    assert (Encode(t) + u)[2] == Hi(t.addr);
  }

  lemma {:induction false} SafeRequests(items: seq<Token>, u: bytes)
    requires AllWellFormed(items) && (forall t :: t in items ==> Sent(t))
    requires forall t :: t in items && t.Request? ==> ResponseLength(Hi(t.addr)) == 0
    ensures Unambiguous(items, u)
    decreases |items|
  {
    hide Head, Encode, WellFormed, ValidResponse, Sent;
    if items == [] {
    } else {
      SafeRequests(items[1..], u);
      assert EncodeAll(items) + u == Encode(items[0]) + (EncodeAll(items[1..]) + u);
      if items[0].Request? { SafeRequest(items[0], EncodeAll(items[1..]) + u); }
    }
  }

  /** The round trip for arbitrary responses, exceptions, fillers, and requests
      whose address high byte is not an even number in 2..250. */
  lemma RoundTrip(items: seq<Token>, u: bytes)
    requires AllWellFormed(items) && (forall t :: t in items ==> Sent(t))
    requires forall t :: t in items && t.Request? ==>
               Value(Hi(t.addr)) < 2 || Value(Hi(t.addr)) > 250 || Value(Hi(t.addr)) % 2 == 1
    ensures Frames(Walk(EncodeAll(items) + u)) == Frames(items) + Frames(Walk(u))
    ensures CrcErrors(Walk(EncodeAll(items) + u)) == CrcErrors(Walk(u))
  {
    SafeRequests(items, u);
    Composition(items, u);
  }

  // ----- more bytes never change what is settled -----

  /** With 255 bytes in view a step does not depend on what follows. */
  lemma HeadStable(s: bytes, u: bytes)
    requires |s| >= 255
    ensures Head(s + u) == Head(s)
  {
    var n := ResponseLength(s[2]);
    assert (s + u)[..n] == s[..n];
    assert (s + u)[..8] == s[..8];
    assert (s + u)[..5] == s[..5];
    if n > 0 { assert (s + u)[3..n - 2] == s[3..n - 2]; }
  }

  /** The steps taken from positions with at least 255 bytes ahead. */
  function Settled(s: bytes): (ts: seq<Token>)
    decreases |s|
  {
    if |s| < 255 then [] else [Head(s)] + Settled(s[Length(Head(s))..])
  }

  lemma {:induction false} SettledStable(s: bytes, u: bytes)
    ensures Settled(s) <= Walk(s + u)
    ensures Settled(s) <= Settled(s + u)
    decreases |s|
  {
    hide Head;
    if |s| >= 255 {
      var n := Length(Head(s));
      HeadStable(s, u);
      SettledStable(s[n..], u);
      assert (s + u)[n..] == s[n..] + u;
    }
  }

  lemma {:induction false} PairsPrefix(a: seq<Token>, b: seq<Token>, p: Pending)
    requires a <= b
    ensures Pairs(a, p) <= Pairs(b, p)
    decreases |a|
  {
    if a == [] {
    } else {
      PairsPrefix(a[1..], b[1..], NextPending(p, a[0]));
    }
  }

  /** Settled frames and their request addresses are final: every later scan
      of the longer buffer starts with them. */
  lemma SettledFramesFinal(s: bytes, u: bytes)
    ensures Pairs(Settled(s), None) <= Pairs(Walk(s + u), None)
  {
    SettledStable(s, u);
    PairsPrefix(Settled(s), Walk(s + u), None);
  }

  lemma ResponseLengthOf(f: ModbusFrame)
    requires WellFormed(Response(f))
    ensures ResponseLength(EncodeResponse(f)[2]) == |EncodeResponse(f)|
  {
    EncodedResponseParts(f);
  }

  lemma ResponseFits(s: bytes)
    requires |s| > 4 && Head(s).Response?
    ensures ResponseLength(s[2]) <= |s|
  {}

  lemma CutHead(f: ModbusFrame, k: nat)
    requires WellFormed(Response(f)) && 4 < k < |EncodeResponse(f)|
    ensures !Head(EncodeResponse(f)[..k]).Response?
  {
    hide Head, EncodeResponse, WellFormed, ResponseLength;
    ResponseLengthOf(f);
    if Head(EncodeResponse(f)[..k]).Response? { ResponseFits(EncodeResponse(f)[..k]); }
  }

  /** A response cut short is never read as a response, so a scan of the cut
      buffer disagrees with a scan of the whole from the first step on. */
  lemma TruncationDisagrees(f: ModbusFrame, k: nat)
    requires WellFormed(Response(f)) && 4 < k < |EncodeResponse(f)|
    ensures !(Walk(EncodeResponse(f)[..k]) <= Walk(EncodeResponse(f)))
  {
    var w := EncodeResponse(f);
    CutHead(f, k);
    ResponseHead(f, []);
    hide Head, EncodeResponse, WellFormed;
    assert w + [] == w;
    assert Walk(w)[0] == Response(f);
    assert Walk(w[..k])[0] == Head(w[..k]);
  }

  // ----- requests and responses paired -----

  /** The pending request after the walk has taken the steps `ts`. */
  function PendingAfter(p: Pending, ts: seq<Token>): Pending
    decreases |ts|
  {
    if ts == [] then p else PendingAfter(NextPending(p, ts[0]), ts[1..])
  }

  lemma {:induction false} PairsAppend(a: seq<Token>, b: seq<Token>, p: Pending)
    ensures Pairs(a + b, p) == Pairs(a, p) + Pairs(b, PendingAfter(p, a))
    ensures PendingAfter(p, a + b) == PendingAfter(PendingAfter(p, a), b)
    decreases |a|
  {
    if a == [] {
      assert a + b == b;
    } else {
      assert (a + b)[1..] == a[1..] + b;
      PairsAppend(a[1..], b, NextPending(p, a[0]));
    }
  }

  predicate Quiet(t: Token) {
    t.Skip? || t.Exception?
  }

  /** Back from the end, past skips and exceptions, the first thing met is a
      request of `slave` for `addr`. */
  ghost predicate LastAsked(ts: seq<Token>, slave: bv8, addr: bv16) {
    exists j :: 0 <= j < |ts| && AskedAt(ts, j, slave, addr)
  }

  ghost predicate AskedAt(ts: seq<Token>, j: nat, slave: bv8, addr: bv16)
    requires j < |ts|
  {
    && ts[j].Request? && ts[j].slave == slave && ts[j].addr == addr
    && forall k :: j < k < |ts| ==> Quiet(ts[k])
  }

  lemma {:induction false} PendingExact(ts: seq<Token>, slave: bv8, addr: bv16)
    ensures PendingAfter(None, ts) == Some((slave, addr)) <==> LastAsked(ts, slave, addr)
    decreases |ts|
  {
    if ts == [] {
    } else {
      var n := |ts| - 1;
      var init := ts[..n];
      assert ts == init + [ts[n]];
      PairsAppend(init, [ts[n]], None);
      assert PendingAfter(None, ts) == NextPending(PendingAfter(None, init), ts[n]);
      PendingExact(init, slave, addr);
      LastAskedSnoc(init, ts[n], slave, addr);
    }
  }

  lemma LastAskedSnoc(init: seq<Token>, t: Token, slave: bv8, addr: bv16)
    ensures LastAsked(init + [t], slave, addr) <==>
            if Quiet(t) then LastAsked(init, slave, addr)
            else t.Request? && t.slave == slave && t.addr == addr
  {
    var ts := init + [t];
    if LastAsked(ts, slave, addr) && Quiet(t) {
      var j :| 0 <= j < |ts| && AskedAt(ts, j, slave, addr);
      assert forall k :: j < k < |init| ==> init[k] == ts[k];
      assert AskedAt(init, j, slave, addr);
    }
    if LastAsked(ts, slave, addr) && !Quiet(t) {
      var j :| 0 <= j < |ts| && AskedAt(ts, j, slave, addr);
      assert ts[|init|] == t;
      assert j == |init|;
    }
    if LastAsked(init, slave, addr) && Quiet(t) {
      var j :| 0 <= j < |init| && AskedAt(init, j, slave, addr);
      assert AskedAt(ts, j, slave, addr);
    }
    if t.Request? && t.slave == slave && t.addr == addr {
      assert AskedAt(ts, |init|, slave, addr);
    }
  }

  /** In the list of pairs, the response after the steps `a` carries address
      `addr` exactly when `addr` was last asked of its slave. */
  lemma ContextExact(a: seq<Token>, f: ModbusFrame, b: seq<Token>, addr: bv16)
    ensures var k := |Pairs(a, None)|;
            var pairs := Pairs(a + [Response(f)] + b, None);
            && k < |pairs| && pairs[k].0 == f
            && (pairs[k].1 == Some(addr) <==> LastAsked(a, f.slave, addr))
  {
    assert a + [Response(f)] + b == a + ([Response(f)] + b);
    PairsAppend(a, [Response(f)] + b, None);
    assert ([Response(f)] + b)[1..] == b;
    PendingExact(a, f.slave, addr);
  }

  /** The pairing as the function's description has it: the address of the
      nearest preceding request of the same slave. */
  function Documented(ts: seq<Token>, slave: bv8): Option<bv16> {
    if ts == [] then None
    else
      var last := ts[|ts| - 1];
      if last.Request? && last.slave == slave then Some(last.addr) else Documented(ts[..|ts| - 1], slave)
  }

  /** The code's pairing is the documented one iff no request of the slave
      precedes, or nothing but skips and exceptions came after the nearest. */
  lemma DocumentedExact(ts: seq<Token>, slave: bv8)
    ensures Context(PendingAfter(None, ts), slave) == Documented(ts, slave) <==>
              Documented(ts, slave) == None || LastAsked(ts, slave, Documented(ts, slave).value)
  {
    if Documented(ts, slave).Some? {
      PendingExact(ts, slave, Documented(ts, slave).value);
    } else if Context(PendingAfter(None, ts), slave).Some? {
      PendingExact(ts, slave, PendingAfter(None, ts).value.1);
      AskedIsDocumented(ts, slave, PendingAfter(None, ts).value.1);
    }
  }

  lemma {:induction false} AskedIsDocumented(ts: seq<Token>, slave: bv8, addr: bv16)
    requires LastAsked(ts, slave, addr)
    ensures Documented(ts, slave) == Some(addr)
    decreases |ts|
  {
    var init, last := ts[..|ts| - 1], ts[|ts| - 1];
    assert ts == init + [last];
    LastAskedSnoc(init, last, slave, addr);
    if Quiet(last) { AskedIsDocumented(init, slave, addr); }
  }

  lemma TwoTokens(a: Token, b: Token, slave: bv8)
    ensures PendingAfter(None, [a, b]) == NextPending(NextPending(None, a), b)
    ensures Documented([a, b], slave) ==
            if b.Request? && b.slave == slave then Some(b.addr)
            else if a.Request? && a.slave == slave then Some(a.addr) else None
  {
    assert [a, b][1..] == [b] && [b][1..] == [] && [a, b][..1] == [a] && [a][..0] == [];
    assert PendingAfter(NextPending(None, a), [b]) == PendingAfter(NextPending(NextPending(None, a), b), []);
    assert Documented([a], slave) == if a.Request? && a.slave == slave then Some(a.addr) else Documented([], slave);
  }

  /** A request of another slave, or a response, hides a request that the
      description still counts. */
  lemma DocumentedFails(slave: bv8, addr: bv16, count: bv16, t: Token)
    requires t.Response? || (t.Request? && t.slave != slave)
    ensures Documented([Request(slave, addr, count), t], slave) == Some(addr)
    ensures Context(PendingAfter(None, [Request(slave, addr, count), t]), slave) == None
  {
    TwoTokens(Request(slave, addr, count), t, slave);
  }

  /** The paired walk finds the same frames as the plain one. */
  lemma {:induction false} PairedFrames(ts: seq<Token>, p: Pending)
    ensures |Pairs(ts, p)| == |Frames(ts)|
    ensures forall k :: 0 <= k < |Frames(ts)| ==> Pairs(ts, p)[k].0 == Frames(ts)[k]
    decreases |ts|
  {
    if ts == [] {
    } else {
      PairedFrames(ts[1..], NextPending(p, ts[0]));
    }
  }

  // ----- the walk and the single-frame parser -----

  /** parse_response returns a frame exactly when the walk's first step finds it. */
  lemma ParsersAgree(buf: bytes, slave: bv8, count: int, f: ModbusFrame)
    requires 1 <= slave <= 247 && 1 <= count <= 125
    ensures ParseResponse(buf, slave, count) == Frame(f) <==>
            |buf| > 4 && Head(buf) == Response(f) && f.slave == slave && |f.regs| == count
  {
    ParseResponseExact(buf, slave, count, f);
    if ParseResponse(buf, slave, count) == Frame(f) {
      var w := EncodeResponse(f);
      ResponseHead(f, buf[|w|..]);
      assert buf == w + buf[|w|..];
    }
    if |buf| > 4 && Head(buf) == Response(f) { HeadTile(buf); }
  }

  /** A step reports a CRC error exactly at a plausible complete response that
      fails its check where no checked request stands. */
  lemma CrcErrorExact(s: bytes)
    requires |s| > 4
    ensures CrcErrors([Head(s)]) == 1 <==>
            && 1 <= s[0] <= 247 && s[1] == 3
            && 2 <= Value(s[2]) <= 250 && Value(s[2]) % 2 == 0 && 5 + Value(s[2]) <= |s|
            && !CrcOk(s[..5 + Value(s[2])])
            && !(|s| >= 8 && CrcOk(s[..8]))
  {
    if CompleteResponse(s) { assert !ErrorBit(s[1]); }
  }
}
