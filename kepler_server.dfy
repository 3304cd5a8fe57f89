/**
  The request/reply loop of the Kepler server.

  The server owns one CAN frame buffer. Each pass of its endless loop reads
  into that buffer. A read of zero bytes is skipped. Otherwise the buffer's
  identifier is decoded and, if it carries the request group 0xFF14, the
  server:
    - takes the raw mean anomaly (bytes 0-3) and the raw eccentricity
      (bytes 4-5) from the payload;
    - solves Kepler's equation;
    - overwrites the same buffer with a results frame;
    - writes that frame back.

  The floating-point solver and its fixed-point scalings are a parameter,
  `solve`, from the two raw request fields to the raw 32-bit result. The
  endless loop runs over a finite trace of reads.
*/
module KeplerServer {
  import opened J1939
  import opened ByteOrder

  /** The eight data bytes of a classic CAN frame. */
  type Payload = s: seq<bv8> | |s| == 8 witness [0, 0, 0, 0, 0, 0, 0, 0]

  /** A SocketCAN frame: identifier word (bit 31 flags an extended id), length code, data. */
  datatype Frame = Frame(canId: bv32, dlc: bv8, data: Payload)

  /**
    The outcome of one read from the socket: the byte count it returned and
    the frame the kernel delivered, which lands in the buffer only when the
    count is positive.
  */
  datatype Read = Read(nbytes: int, frame: Frame)

  /** The raw solver: raw mean anomaly and raw eccentricity to the raw result. */
  type Solver = (bv32, bv16) -> bv32

  /**
    The identifier every reply carries: priority 6, the results PGN, from the
    server to the global address. ReplyIdEncoded shows that the encoder
    computes it from those fields.
  */
  function ReplyId(): bv32 {
    0x98FF_1500
  }

  /**
    The server's request test: decoding the frame's identifier yields the
    request PGN 0xFF14. Computed as the test of bits 8-25 that RequestFilter
    shows equivalent.
  */
  function IsRequest(f: Frame): (b: bool)
    ensures b <==> ParseJ1939(f.canId).pgn == RequestPgn
  {
    RequestFilter(f.canId);
    f.canId & 0x03FF_FF00 == 0x00FF_1400
  }

  /** The raw mean anomaly of a request: the word payload bytes 0-3 encode, little-endian. */
  function RawMeanAnomaly(f: Frame): (m: bv32)
    ensures Le32(m) == f.data[0..4]
  {
    Le32FromLe32(f.data[0..4]);
    FromLe32(f.data[0..4])
  }

  /** The raw eccentricity of a request: the word payload bytes 4-5 encode, little-endian. */
  function RawEccentricity(f: Frame): (e: bv16)
    ensures Le16(e) == f.data[4..6]
  {
    Le16FromLe16(f.data[4..6]);
    FromLe16(f.data[4..6])
  }

  /**
    The results frame: the reply identifier, length 8, the result in bytes
    0-3 (little-endian) and 0xFF padding in bytes 4-7.
  */
  function Reply(result: bv32): (f: Frame)
    ensures f.canId == 0x98FF_1500
    ensures f.dlc == 8
    ensures FromLe32(f.data[..4]) == result
    ensures f.data[4..] == [0xFF, 0xFF, 0xFF, 0xFF]
  {
    Frame(ReplyId(), 8, Le32(result) + [0xFF, 0xFF, 0xFF, 0xFF])
  }

  /** The buffer after a read: the delivered frame if bytes arrived, else unchanged. */
  function Received(cf: Frame, rd: Read): Frame {
    if rd.nbytes > 0 then rd.frame else cf
  }

  /**
    One pass of the loop, from the buffer before the read: the buffer after
    the pass and the frames written. At most one frame is written; it is a
    results frame and it is what the buffer then holds.
  */
  function Step(cf: Frame, rd: Read, solve: Solver): (r: (Frame, seq<Frame>))
    ensures |r.1| <= 1
    ensures forall k :: 0 <= k < |r.1| ==> IsReply(r.1[k]) && r.1[k] == r.0
  {
    if rd.nbytes == 0 then
      (cf, [])
    else
      var req := Received(cf, rd);
      if IsRequest(req) then
        var reply := Reply(solve(RawMeanAnomaly(req), RawEccentricity(req)));
        (reply, [reply])
      else
        (req, [])
  }

  /**
    A pass writes at most one frame, and writes one exactly when the read
    returned a nonzero count and the buffer then holds a request. The frame
    written is the reply to that request's raw fields and stays in the
    buffer; with nothing written, the buffer is what the read left.
  */
  lemma StepReplies(cf: Frame, rd: Read, solve: Solver)
    ensures var r := Step(cf, rd, solve);
            && |r.1| <= 1
            && (|r.1| == 1 <==> rd.nbytes != 0 && IsRequest(Received(cf, rd)))
            && (|r.1| == 1 ==>
                  var req := Received(cf, rd);
                  r.1[0] == Reply(solve(RawMeanAnomaly(req), RawEccentricity(req))) && r.0 == r.1[0])
            && (|r.1| == 0 ==> r.0 == Received(cf, rd))
  {
  }

  /** The frames the loop writes over a trace of reads, starting from buffer `cf`. */
  function Run(cf: Frame, trace: seq<Read>, solve: Solver): (writes: seq<Frame>)
    ensures |writes| <= |trace|
    decreases |trace|
  {
    if |trace| == 0 then
      []
    else
      var s := Step(cf, trace[0], solve);
      s.1 + Run(s.0, trace[1..], solve)
  }

  /** Run takes one Step, then runs the rest of the trace from the buffer it leaves. */
  lemma RunStep(cf: Frame, next: Frame, written: seq<Frame>, trace: seq<Read>, solve: Solver)
    requires |trace| > 0 && (next, written) == Step(cf, trace[0], solve)
    ensures Run(cf, trace, solve) == written + Run(next, trace[1..], solve)
  {
  }

  /** A results frame, carrying the result in its first four bytes. */
  predicate IsReply(f: Frame) {
    f == Reply(FromLe32(f.data[..4]))
  }

  /** Everything the loop writes is a results frame. */
  lemma {:induction false} RunWritesReplies(cf: Frame, trace: seq<Read>, solve: Solver)
    ensures forall k :: 0 <= k < |Run(cf, trace, solve)| ==> IsReply(Run(cf, trace, solve)[k])
    decreases |trace|
  {
    if |trace| > 0 {
      var s := Step(cf, trace[0], solve);
      StepReplies(cf, trace[0], solve);
      RunWritesReplies(s.0, trace[1..], solve);
      assert Run(cf, trace, solve) == s.1 + Run(s.0, trace[1..], solve);
    }
  }

  /** Concatenation is associative. */
  lemma AppendAssoc<T>(a: seq<T>, b: seq<T>, c: seq<T>)
    ensures (a + b) + c == a + (b + c)
  {
  }

  /**
    The answer to one delivered frame, independent of the buffer: a reply to
    a request, nothing otherwise.
  */
  function Answer(f: Frame, solve: Solver): seq<Frame> {
    if IsRequest(f) then [Reply(solve(RawMeanAnomaly(f), RawEccentricity(f)))] else []
  }

  /** The answers to a sequence of delivered frames, in order. */
  function Answers(frames: seq<Frame>, solve: Solver): seq<Frame>
    decreases |frames|
  {
    if |frames| == 0 then [] else Answer(frames[0], solve) + Answers(frames[1..], solve)
  }

  /** The frames the reads of a trace delivered: those of the reads with a positive count. */
  function Delivered(trace: seq<Read>): seq<Frame>
    decreases |trace|
  {
    if |trace| == 0 then []
    else if trace[0].nbytes > 0 then [trace[0].frame] + Delivered(trace[1..])
    else Delivered(trace[1..])
  }

  /** The reads of a trace that returned a nonzero byte count. */
  function NonEmpty(trace: seq<Read>): (r: seq<Read>)
    ensures |r| <= |trace|
    ensures forall k :: 0 <= k < |r| ==> r[k].nbytes != 0
    decreases |trace|
  {
    if |trace| == 0 then []
    else if trace[0].nbytes == 0 then NonEmpty(trace[1..])
    else [trace[0]] + NonEmpty(trace[1..])
  }

  /**
    The server's filter, decoding the identifier and comparing its PGN with
    0xFF14, accepts exactly the identifiers whose bits 8-25 are 0xFF14:
    priority, source address and bits 29-31 do not matter, and no PDU1
    identifier passes.
  */
  lemma RequestFilter(id: bv32)
    ensures ParseJ1939(id).pgn == RequestPgn <==> id & 0x03FF_FF00 == 0x00FF_1400
  {
    if PduFormat(id) >= 0xF0 {
      ParsePdu2(id);
      assert (id >> 8) & 0x3FFFF == (id & 0x03FF_FF00) >> 8;
    } else {
      ParsePdu1(id);
      assert ((id >> 8) & 0x3FF00) & 0xFF == 0;
      assert id & 0x03FF_FF00 != 0x00FF_1400;
    }
  }

  /**
    The reply identifier is what the server's own encoder computes for it,
    and it decodes back to priority 6, the results PGN, the global
    destination and the server's address.
  */
  lemma ReplyIdEncoded()
    ensures ReplyId() == GetJ1939Id(DefaultPriority, ResultsPgn, ServerSa, GlobalAddress)
    ensures ReplyId() == GetJ1939IdCorrected(DefaultPriority, ResultsPgn, ServerSa, GlobalAddress)
    ensures ParseJ1939(ReplyId()) == Header(DefaultPriority, ResultsPgn, GlobalAddress, ServerSa)
  {
    GetJ1939IdCorrectedAgrees(DefaultPriority, ResultsPgn, ServerSa, GlobalAddress);
    ParseAfterGetJ1939IdCorrected(DefaultPriority, ResultsPgn, ServerSa, GlobalAddress);
  }

  /** A results frame is never taken for a request. */
  lemma ReplyIsNotRequest(result: bv32)
    ensures !IsRequest(Reply(result))
  {
    RequestFilter(Reply(result).canId);
  }

  /**
    A failed read leaves the last reply in the buffer; decoding it again
    finds the results PGN, so the server does not answer itself.
  */
  lemma FailedReadAfterReply(result: bv32, rd: Read, solve: Solver)
    requires rd.nbytes < 0
    ensures Step(Reply(result), rd, solve) == (Reply(result), [])
  {
    ReplyIsNotRequest(result);
  }

  /**
    The request the test client sends, 0x18FF1417 with the extended flag,
    priority 6 from address 0x17, is answered with the solver's result for
    its little-endian fields.
  */
  lemma ClientRequestAnswered(cf: Frame, m: bv32, e: bv16, nbytes: int, solve: Solver)
    requires nbytes > 0
    ensures ParseJ1939(0x98FF_1417) == Header(6, 0xFF14, 255, 0x17)
    ensures var req := Frame(0x98FF_1417, 8, Le32(m) + Le16(e) + [0xFF, 0xFF]);
            Step(cf, Read(nbytes, req), solve) == (Reply(solve(m, e)), [Reply(solve(m, e))])
  {
    var req := Frame(0x98FF_1417, 8, Le32(m) + Le16(e) + [0xFF, 0xFF]);
    RequestFilter(req.canId);
    assert req.data[0..4] == Le32(m);
    assert req.data[4..6] == Le16(e);
  }

  /** The answers to a frame followed by more frames. */
  lemma AnswersCons(f: Frame, frames: seq<Frame>, solve: Solver)
    ensures Answers([f] + frames, solve) == Answer(f, solve) + Answers(frames, solve)
  {
    assert ([f] + frames)[1..] == frames;
  }

  /**
    When every read delivers a frame, the loop writes exactly the answers to
    the delivered frames, whatever the buffer held before.
  */
  lemma {:induction false} RunDelivered(cf: Frame, trace: seq<Read>, solve: Solver)
    requires forall k :: 0 <= k < |trace| ==> trace[k].nbytes > 0
    ensures Run(cf, trace, solve) == Answers(Delivered(trace), solve)
    decreases |trace|
  {
    if |trace| > 0 {
      var s := Step(cf, trace[0], solve);
      RunDelivered(s.0, trace[1..], solve);
      AnswersCons(trace[0].frame, Delivered(trace[1..]), solve);
    }
  }

  /**
    From a buffer that holds no request, on any trace (zero-length, failed
    and successful reads alike), the loop writes exactly the answers to the
    frames the successful reads delivered: a failed read re-tests a buffer
    that is never a request, since it holds the last reply or the last
    frame that was not answered.
  */
  lemma {:induction false} RunAnswers(cf: Frame, trace: seq<Read>, solve: Solver)
    requires !IsRequest(cf)
    ensures Run(cf, trace, solve) == Answers(Delivered(trace), solve)
    decreases |trace|
  {
    if |trace| > 0 {
      var rd := trace[0];
      var s := Step(cf, rd, solve);
      StepReplies(cf, rd, solve);
      if |s.1| == 1 {
        ReplyIsNotRequest(solve(RawMeanAnomaly(rd.frame), RawEccentricity(rd.frame)));
      }
      RunAnswers(s.0, trace[1..], solve);
      if rd.nbytes > 0 {
        AnswersCons(rd.frame, Delivered(trace[1..]), solve);
      }
    }
  }

  /** Zero-length reads change nothing: the loop skips them. */
  lemma {:induction false} RunSkipsEmptyReads(cf: Frame, trace: seq<Read>, solve: Solver)
    ensures Run(cf, trace, solve) == Run(cf, NonEmpty(trace), solve)
    decreases |trace|
  {
    if |trace| > 0 {
      RunSkipsEmptyReads(Step(cf, trace[0], solve).0, trace[1..], solve);
      if trace[0].nbytes != 0 {
        assert ([trace[0]] + NonEmpty(trace[1..]))[1..] == NonEmpty(trace[1..]);
      }
    }
  }

  /**
    The server's frame buffer `cf`, updated in place: the read fills it, and
    a reply is written over it before it is sent.
  */
  class FrameBuffer {
    var canId: bv32
    var dlc: bv8
    const data: array<bv8>

    ghost predicate Valid()
      reads this
    {
      data.Length == 8
    }

    /** The frame the buffer holds. */
    function Contents(): Frame
      reads this, data
      requires Valid()
    {
      Frame(canId, dlc, data[..])
    }

    constructor(init: Frame)
      ensures Valid() && Contents() == init && fresh(data)
    {
      canId := init.canId;
      dlc := init.dlc;
      data := new bv8[8](k requires 0 <= k < 8 => init.data[k]);
    }

    /** A successful read: the delivered frame replaces the buffer's contents. */
    method Receive(f: Frame)
      requires Valid()
      modifies this, data
      ensures Valid() && Contents() == f
    {
      canId := f.canId;
      dlc := f.dlc;
      forall k | 0 <= k < 8 {
        data[k] := f.data[k];
      }
    }

    /**
      The reply is built in the buffer: identifier and length set, the data
      filled with 0xFF, then the result copied over bytes 0-3.
    */
    method WriteReply(result: bv32)
      requires Valid()
      modifies this, data
      ensures Valid() && Contents() == Reply(result)
    {
      canId := GetJ1939Id(DefaultPriority, ResultsPgn, ServerSa, GlobalAddress);
      ReplyIdEncoded();
      dlc := 8;
      forall k | 0 <= k < 8 {
        data[k] := 0xFF;
      }
      var bytes := Le32(result);
      data[0] := bytes[0];
      data[1] := bytes[1];
      data[2] := bytes[2];
      data[3] := bytes[3];
      assert data[..] == Le32(result) + [0xFF, 0xFF, 0xFF, 0xFF];
    }

    /**
      One pass of the server's loop on the buffer: a zero-byte read is
      skipped; otherwise the identifier is decoded and a request is answered
      in place. Returns the frames written.
    */
    method Handle(rd: Read, solve: Solver) returns (written: seq<Frame>)
      requires Valid()
      modifies this, data
      ensures Valid()
      ensures (Contents(), written) == Step(old(Contents()), rd, solve)
    {
      written := [];
      if rd.nbytes != 0 {
        if rd.nbytes > 0 {
          Receive(rd.frame);
        }
        var h := ParseJ1939(canId);
        if h.pgn == RequestPgn {
          var rawMeanAnomaly := FromLe32(data[0..4]);
          var rawEccentricity := FromLe16(data[4..6]);
          WriteReply(solve(rawMeanAnomaly, rawEccentricity));
          written := [Contents()];
        }
      }
    }
  }

  /**
    The server loop over a trace of reads, from a buffer holding `init`:
    the frames it writes are those Run specifies.
  */
  method Serve(init: Frame, trace: seq<Read>, solve: Solver) returns (writes: seq<Frame>)
    ensures writes == Run(init, trace, solve)
  {
    ghost var total := Run(init, trace, solve);
    var cf := new FrameBuffer(init);
    writes := [];
    var rest := trace;
    while rest != []
      invariant cf.Valid() && fresh(cf.data)
      invariant writes + Run(cf.Contents(), rest, solve) == total
      decreases |rest|
    {
      ghost var before := cf.Contents();
      var written := cf.Handle(rest[0], solve);
      RunStep(before, cf.Contents(), written, rest, solve);
      AppendAssoc(writes, written, Run(cf.Contents(), rest[1..], solve));
      writes := writes + written;
      rest := rest[1..];
    }
  }
}
