/**
 The noise-tolerant walks of serial_io.py over a serial byte stream:
 parse_frame_stream and responses_with_context.
 */
module FrameStream {
  import opened Wrappers
  import opened Crc
  import opened Modbus

  /** What one step of the walk finds at its position. A skipped byte records
      whether the step reported a CRC error. */
  datatype Token =
    | Response(frame: ModbusFrame)
    | Request(slave: bv8, addr: bv16, count: bv16)
    | Exception(slave: bv8, func: bv8, excode: bv8)
    | Skip(byte: bv8, crcError: bool)

  // ----- one step -----

  predicate ValidSlave(b: bv8) {
    1 <= b <= 0xF7
  }

  /** Length of a response whose byte count field is `b`; 0 if the field is out of range. */
  function ResponseLength(b: bv8): (n: nat)
    ensures n == 0 || (7 <= n <= 255 && n % 2 == 1 && n == 5 + Value(b))
  {
    var bc := Value(b);
    if 2 <= bc <= 250 && bc % 2 == 0 then 5 + bc else 0
  }

  /** A plausible response header with all its bytes present. */
  predicate CompleteResponse(s: bytes)
    requires |s| > 4
  {
    s[1] == FC_READ_HOLDING && 0 < ResponseLength(s[2]) <= |s|
  }

  predicate ValidResponse(s: bytes)
    requires |s| > 4
  {
    CompleteResponse(s) && CrcOk(s[..ResponseLength(s[2])])
  }

  predicate ValidRequest(s: bytes)
    requires |s| > 4
  {
    s[1] == FC_READ_HOLDING && |s| >= 8 && CrcOk(s[..8])
  }

  predicate ErrorBit(func: bv8) {
    func & 0x80 != 0
  }

  predicate ValidException(s: bytes)
    requires |s| > 4
  {
    ErrorBit(s[1]) && CrcOk(s[..5])
  }

  function DecodeResponse(s: bytes): ModbusFrame
    requires |s| > 4 && CompleteResponse(s)
  {
    ModbusFrame(s[0], s[1], Registers(s[3..ResponseLength(s[2]) - 2]))
  }

  /** The step of both walks at the front of `s`. */
  function Head(s: bytes): (t: Token)
    requires |s| > 4
    ensures Length(t) <= |s|
  {
    if !ValidSlave(s[0]) then Skip(s[0], false)
    else if ValidResponse(s) then Response(DecodeResponse(s))
    else if ValidRequest(s) then Request(s[0], Word(s[2], s[3]), Word(s[4], s[5]))
    else if ValidException(s) then Exception(s[0], s[1], s[2])
    else Skip(s[0], CompleteResponse(s))
  }

  function Length(t: Token): (n: nat)
    ensures n > 0
  {
    match t
    case Response(f) => 5 + 2 * |f.regs|
    case Request(_, _, _) => 8
    case Exception(_, _, _) => 5
    case Skip(_, _) => 1
  }

  // ----- the whole walk -----

  /** The steps taken over `s`; up to four bytes are left at the end. */
  function Walk(s: bytes): (ts: seq<Token>)
    decreases |s|
  {
    if |s| <= 4 then [] else [Head(s)] + Walk(s[Length(Head(s))..])
  }

  function Frames(ts: seq<Token>): seq<ModbusFrame> {
    if ts == [] then []
    else if ts[0].Response? then [ts[0].frame] + Frames(ts[1..])
    else Frames(ts[1..])
  }

  function CrcErrors(ts: seq<Token>): nat {
    if ts == [] then 0
    else (if ts[0].Skip? && ts[0].crcError then 1 else 0) + CrcErrors(ts[1..])
  }

  /** The request waiting for its response: slave and address. */
  type Pending = Option<(bv8, bv16)>

  function NextPending(p: Pending, t: Token): Pending {
    match t
    case Response(_) => None
    case Request(slave, addr, _) => Some((slave, addr))
    case _ => p
  }

  function Context(p: Pending, slave: bv8): Option<bv16> {
    if p.Some? && p.value.0 == slave then Some(p.value.1) else None
  }

  type Paired = (ModbusFrame, Option<bv16>)

  function Pairs(ts: seq<Token>, p: Pending): seq<Paired> {
    if ts == [] then []
    else
      var rest := Pairs(ts[1..], NextPending(p, ts[0]));
      if ts[0].Response? then [(ts[0].frame, Context(p, ts[0].frame.slave))] + rest else rest
  }

  // ----- the loops of the source -----

  lemma ResponseAt(stream: bytes, i: nat, total: nat)
    requires i + 4 < |stream| && ValidSlave(stream[i]) && stream[i + 1] == FC_READ_HOLDING
    requires 0 < total == ResponseLength(stream[i + 2]) && i + total <= |stream|
    requires CrcOk(stream[i..i + total])
    ensures Head(stream[i..]) ==
            Response(ModbusFrame(stream[i], stream[i + 1], Registers(stream[i + 3..i + total - 2])))
  {
    var s := stream[i..];
    assert s[..total] == stream[i..i + total];
    assert s[3..total - 2] == stream[i + 3..i + total - 2];
  }

  lemma NoResponseAt(stream: bytes, i: nat)
    requires i + 4 < |stream|
    requires var total := ResponseLength(stream[i + 2]);
             stream[i + 1] == FC_READ_HOLDING && 0 < total && i + total <= |stream| ==> !CrcOk(stream[i..i + total])
    ensures !ValidResponse(stream[i..])
  {
    var total := ResponseLength(stream[i + 2]);
    if i + total <= |stream| {
      assert stream[i..][..total] == stream[i..i + total];
    }
  }

  lemma SlicesAt(stream: bytes, i: nat)
    requires i + 4 < |stream|
    ensures stream[i..][..5] == stream[i..i + 5]
    ensures i + 8 <= |stream| ==> stream[i..][..8] == stream[i..i + 8]
  {}

  /** The step at position `i`, in terms of the stream. */
  lemma HeadAt(stream: bytes, i: nat)
    requires i + 4 < |stream|
    ensures Head(stream[i..]) == HeadOf(stream, i)
  {
    SlicesAt(stream, i);
    var total := ResponseLength(stream[i + 2]);
    if !ValidSlave(stream[i]) {
    } else if IsResponse(stream, i) {
      ResponseAt(stream, i, total);
    } else {
      NoResponseAt(stream, i);
    }
  }

  predicate HasResponse(stream: bytes, i: nat)
    requires i + 4 < |stream|
  {
    var total := ResponseLength(stream[i + 2]);
    stream[i + 1] == FC_READ_HOLDING && 0 < total && i + total <= |stream|
  }

  predicate IsResponse(stream: bytes, i: nat)
    requires i + 4 < |stream|
  {
    HasResponse(stream, i) && CrcOk(stream[i..i + ResponseLength(stream[i + 2])])
  }

  predicate IsRequest(stream: bytes, i: nat)
    requires i + 4 < |stream|
  {
    stream[i + 1] == FC_READ_HOLDING && i + 8 <= |stream| && CrcOk(stream[i..i + 8])
  }

  function HeadOf(stream: bytes, i: nat): Token
    requires i + 4 < |stream|
  {
    var slave, func := stream[i], stream[i + 1];
    if !ValidSlave(slave) then Skip(slave, false)
    else if IsResponse(stream, i) then
      Response(ModbusFrame(slave, func, Registers(stream[i + 3..i + ResponseLength(stream[i + 2]) - 2])))
    else if IsRequest(stream, i) then
      Request(slave, Word(stream[i + 2], stream[i + 3]), Word(stream[i + 4], stream[i + 5]))
    else if ErrorBit(func) && CrcOk(stream[i..i + 5]) then Exception(slave, func, stream[i + 2])
    else Skip(slave, HasResponse(stream, i))
  }

  lemma Branches(stream: bytes, i: nat)
    requires i + 4 < |stream|
    ensures var bc := Value(stream[i + 2]);
            && (HasResponse(stream, i) <==>
                  stream[i + 1] == FC_READ_HOLDING && 2 <= bc <= 250 && bc % 2 == 0 && i + 5 + bc <= |stream|)
            && (HasResponse(stream, i) ==> ResponseLength(stream[i + 2]) == 5 + bc)
            && (IsResponse(stream, i) <==> HasResponse(stream, i) && CrcOk(stream[i..i + 5 + bc]))
            && (IsRequest(stream, i) <==>
                  stream[i + 1] == FC_READ_HOLDING && i + 8 <= |stream| && CrcOk(stream[i..i + 8]))
            && (stream[i + 1] == FC_READ_HOLDING ==> !ErrorBit(stream[i + 1]))
  {}

  lemma WalkStep(stream: bytes, i: nat) returns (rest: seq<Token>)
    requires i + 4 < |stream|
    ensures i + Length(Head(stream[i..])) <= |stream|
    ensures rest == Walk(stream[i + Length(Head(stream[i..]))..])
    ensures Walk(stream[i..]) == [Head(stream[i..])] + rest
  {
    hide Head;
    var next := i + Length(Head(stream[i..]));
    rest := Walk(stream[next..]);
    assert stream[i..][next - i..] == stream[next..];
  }

  /** One step moves its frame from what is left to what was found. */
  lemma FramesTaken(found: seq<ModbusFrame>, t: Token, rest: seq<Token>, all: seq<ModbusFrame>)
    requires found + Frames([t] + rest) == all
    ensures t.Response? ==> found + [t.frame] + Frames(rest) == all
    ensures !t.Response? ==> found + Frames(rest) == all
  {
    assert ([t] + rest)[1..] == rest;
  }

  lemma PairsTaken(found: seq<Paired>, t: Token, rest: seq<Token>, p: Pending, all: seq<Paired>)
    requires found + Pairs([t] + rest, p) == all
    ensures t.Response? ==> found + [(t.frame, Context(p, t.frame.slave))] + Pairs(rest, None) == all
    ensures !t.Response? ==> found + Pairs(rest, NextPending(p, t)) == all
  {
    assert ([t] + rest)[1..] == rest;
  }

  lemma ErrorsTaken(t: Token, rest: seq<Token>)
    ensures CrcErrors([t] + rest) == (if t.Skip? && t.crcError then 1 else 0) + CrcErrors(rest)
  {
    assert ([t] + rest)[1..] == rest;
  }

  /** serial_io.py: parse_frame_stream; the callback is a counter. */
  method ParseFrameStream(stream: bytes) returns (frames: seq<ModbusFrame>, crcErrors: nat)
    ensures frames == Frames(Walk(stream))
    ensures crcErrors == CrcErrors(Walk(stream))
  {
    hide Head, Walk, Frames, CrcErrors, Pairs, CrcOk, Registers, Value, Word;
    hide HasResponse, IsResponse, IsRequest, ResponseLength, ErrorBit;
    frames, crcErrors := [], 0;
    var i, n := 0, |stream|;
    ghost var all, left := Walk(stream), Walk(stream);
    assert stream[0..] == stream;
    while i < n - 4
      invariant 0 <= i <= n && left == Walk(stream[i..])
      invariant frames + Frames(left) == Frames(all)
      invariant crcErrors + CrcErrors(left) == CrcErrors(all)
      decreases n - i
    {
      ghost var rest := WalkStep(stream, i);
      HeadAt(stream, i);
      Branches(stream, i);
      FramesTaken(frames, Head(stream[i..]), rest, Frames(all));
      ErrorsTaken(Head(stream[i..]), rest);
      left := rest;
      var slave, func := stream[i], stream[i + 1];
      if !(1 <= slave <= 0xF7) {
        i := i + 1;
        continue;
      }
      if func == FC_READ_HOLDING && i + 5 <= n {
        var bc := Value(stream[i + 2]);
        if 2 <= bc <= 250 && bc % 2 == 0 {
          var total := 5 + bc;
          if i + total <= n {
            if CrcOk(stream[i..i + total]) {
              var regs := Registers(stream[i + 3..i + 3 + bc]);
              frames := frames + [ModbusFrame(slave, func, regs)];
              i := i + total;
              continue;
            }
            var isValidRequest := i + 8 <= n && CrcOk(stream[i..i + 8]);
            if !isValidRequest { crcErrors := crcErrors + 1; }
          }
        }
      }
      if func == FC_READ_HOLDING && i + 8 <= n {
        if CrcOk(stream[i..i + 8]) {
          i := i + 8;
          continue;
        }
      }
      if ErrorBit(func) && i + 5 <= n {
        if CrcOk(stream[i..i + 5]) {
          i := i + 5;
          continue;
        }
      }
      i := i + 1;
    }
    WalkEnd(stream[i..]);
  }

  /** serial_io.py: responses_with_context. */
  method ResponsesWithContext(stream: bytes) returns (out: seq<Paired>, crcErrors: nat)
    ensures out == Pairs(Walk(stream), None)
    ensures crcErrors == CrcErrors(Walk(stream))
  {
    hide Head, Walk, Frames, CrcErrors, Pairs, CrcOk, Registers, Value, Word;
    hide HasResponse, IsResponse, IsRequest, ResponseLength, ErrorBit;
    out, crcErrors := [], 0;
    var pending: Pending := None;
    var i, n := 0, |stream|;
    ghost var all, left := Walk(stream), Walk(stream);
    assert stream[0..] == stream;
    while i < n - 4
      invariant 0 <= i <= n && left == Walk(stream[i..])
      invariant out + Pairs(left, pending) == Pairs(all, None)
      invariant crcErrors + CrcErrors(left) == CrcErrors(all)
      decreases n - i
    {
      ghost var rest := WalkStep(stream, i);
      HeadAt(stream, i);
      Branches(stream, i);
      PairsTaken(out, Head(stream[i..]), rest, pending, Pairs(all, None));
      ErrorsTaken(Head(stream[i..]), rest);
      left := rest;
      var slave, func := stream[i], stream[i + 1];
      if !(1 <= slave <= 0xF7) {
        i := i + 1;
        continue;
      }
      if func == FC_READ_HOLDING && i + 5 <= n {
        var bc := Value(stream[i + 2]);
        if 2 <= bc <= 250 && bc % 2 == 0 {
          var total := 5 + bc;
          if i + total <= n {
            if CrcOk(stream[i..i + total]) {
              var regs := Registers(stream[i + 3..i + 3 + bc]);
              var ctx := if pending.Some? && pending.value.0 == slave then Some(pending.value.1) else None;
              out := out + [(ModbusFrame(slave, func, regs), ctx)];
              pending := None;
              i := i + total;
              continue;
            }
            var isValidRequest := i + 8 <= n && CrcOk(stream[i..i + 8]);
            if !isValidRequest { crcErrors := crcErrors + 1; }
          }
        }
      }
      if func == FC_READ_HOLDING && i + 8 <= n {
        if CrcOk(stream[i..i + 8]) {
          pending := Some((slave, Word(stream[i + 2], stream[i + 3])));
          i := i + 8;
          continue;
        }
      }
      if ErrorBit(func) && i + 5 <= n {
        if CrcOk(stream[i..i + 5]) {
          i := i + 5;
          continue;
        }
      }
      i := i + 1;
    }
    WalkEnd(stream[i..]);
  }

  lemma WalkEnd(s: bytes)
    requires |s| <= 4
    ensures Walk(s) == [] && Frames(Walk(s)) == [] && CrcErrors(Walk(s)) == 0
    ensures forall p :: Pairs(Walk(s), p) == []
  {}

  /** Frames and callbacks of consecutive steps add up. */
  lemma {:induction false} StepsAddUp(a: seq<Token>, b: seq<Token>)
    ensures Frames(a + b) == Frames(a) + Frames(b) && CrcErrors(a + b) == CrcErrors(a) + CrcErrors(b)
    decreases |a|
  {
    if a == [] {
      assert a + b == b;
    } else {
      assert (a + b)[1..] == a[1..] + b;
      StepsAddUp(a[1..], b);
    }
  }

  /** A single step brings its frame, or its callback, or nothing. */
  lemma OneStep(t: Token)
    ensures Frames([t]) == if t.Response? then [t.frame] else []
    ensures CrcErrors([t]) == if t.Skip? && t.crcError then 1 else 0
  {}
}
