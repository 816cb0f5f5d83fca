/**
 * The GPS receiver's UBX sender and byte-fed parser (firmware/src/neo_m8n_driver.c), after the
 * "UBX Frame Structure" and "UBX Checksum" sections of the u-blox M8 protocol specification.
 */
module Ubx {
  import opened Common

  const SYNC1: byte := 0xB5
  const SYNC2: byte := 0x62
  const FRAME_MAX: nat := 128
  const PAYLOAD_MAX: nat := FRAME_MAX - 6

  // ----- checksum

  /** The two accumulators, each modulo 256. */
  datatype Check = Check(a: byte, b: byte)

  function CheckByte(c: Check, x: byte): Check {
    var a := (c.a + x) % 256;
    Check(a, (c.b + a) % 256)
  }

  function Checksum(s: seq<byte>): Check {
    if s == [] then Check(0, 0) else CheckByte(Checksum(s[..|s| - 1]), s[|s| - 1])
  }

  /** The plain sum, and the sum weighted by the distance to the end. */
  function Sum(s: seq<byte>): nat {
    if s == [] then 0 else Sum(s[..|s| - 1]) + s[|s| - 1]
  }

  function Weighted(s: seq<byte>): nat {
    if s == [] then 0 else Weighted(s[..|s| - 1]) + Sum(s)
  }

  lemma ModAdd(x: nat, y: nat)
    ensures (x % 256 + y) % 256 == (x + y) % 256
    ensures (x % 256 + y % 256) % 256 == (x + y) % 256
  {}

  lemma {:induction false} ChecksumIsFletcher(s: seq<byte>)
    ensures Checksum(s) == Check(Sum(s) % 256, Weighted(s) % 256)
  {
    if s != [] {
      var front, x := s[..|s| - 1], s[|s| - 1];
      ChecksumIsFletcher(front);
      ModAdd(Sum(front), x);
      ModAdd(Weighted(front), Sum(front) + x);
      assert Checksum(s) == CheckByte(Checksum(front), x);
      assert Sum(s) == Sum(front) + x && Weighted(s) == Weighted(front) + Sum(s);
    }
  }

  lemma ChecksumSnoc(s: seq<byte>, x: byte)
    ensures Checksum(s + [x]) == CheckByte(Checksum(s), x)
    ensures Sum(s + [x]) == Sum(s) + x
    ensures Weighted(s + [x]) == Weighted(s) + Sum(s) + x
  {
    assert (s + [x])[..|s|] == s;
  }

  // ----- frames

  datatype Message = Message(cls: byte, id: byte, payload: seq<byte>)

  function Header(m: Message): seq<byte>
    requires |m.payload| < 0x1_0000
  {
    [m.cls, m.id, |m.payload| % 256, |m.payload| / 256]
  }

  /** The payload length the two length bytes stand for. */
  function LengthOf(lo: byte, hi: byte): nat {
    (lo as int) + 256 * (hi as int)
  }

  function Trailer(c: Check): seq<byte> { [c.a, c.b] }

  function Frame(m: Message): seq<byte>
    requires |m.payload| < 0x1_0000
  {
    [SYNC1, SYNC2] + Header(m) + m.payload + Trailer(Checksum(Header(m) + m.payload))
  }

  class Uart {
    var sent: seq<byte>

    constructor ()
      ensures sent == []
    {
      sent := [];
    }

    method PutcRaw(b: byte)
      modifies this
      ensures sent == old(sent) + [b]
    {
      sent := sent + [b];
    }
  }

  /** Sends one frame; the checksum is accumulated while the payload goes out. */
  method UbxSend(uart: Uart, cls: byte, id: byte, payload: seq<byte>)
    requires |payload| < 0x1_0000
    modifies uart
    ensures uart.sent == old(uart.sent) + Frame(Message(cls, id, payload))
  {
    hide Checksum;
    ghost var before, m := uart.sent, Message(cls, id, payload);
    uart.PutcRaw(SYNC1);
    uart.PutcRaw(SYNC2);
    uart.PutcRaw(cls);
    uart.PutcRaw(id);
    uart.PutcRaw(|payload| % 256);
    uart.PutcRaw(|payload| / 256);
    assert uart.sent == before + ([SYNC1, SYNC2] + Header(m));

    var header := [cls, id, |payload| % 256, |payload| / 256];
    var ck := Check(0, 0);
    ChecksumNothing();
    assert header[..0] == [];
    for i := 0 to |header|
      invariant uart.sent == before + ([SYNC1, SYNC2] + Header(m))
      invariant ck == Checksum(header[..i])
    {
      ck := CheckByte(ck, header[i]);
      ChecksumSnoc(header[..i], header[i]);
      assert header[..i + 1] == header[..i] + [header[i]];
    }
    assert header[..|header|] == Header(m) + payload[..0];
    assert [SYNC1, SYNC2] + Header(m) + payload[..0] == [SYNC1, SYNC2] + Header(m);
    for i := 0 to |payload|
      invariant uart.sent == before + ([SYNC1, SYNC2] + Header(m) + payload[..i])
      invariant ck == Checksum(Header(m) + payload[..i])
    {
      uart.PutcRaw(payload[i]);
      ck := CheckByte(ck, payload[i]);
      ChecksumSnoc(Header(m) + payload[..i], payload[i]);
      assert Header(m) + payload[..i + 1] == Header(m) + payload[..i] + [payload[i]];
    }
    assert payload[..|payload|] == payload;
    uart.PutcRaw(ck.a);
    uart.PutcRaw(ck.b);
  }

  lemma ChecksumNothing()
    ensures Checksum([]) == Check(0, 0)
  {}

  // ----- the parser

  datatype RxState = RxSync1 | RxSync2 | RxClass | RxId | RxLenL | RxLenH | RxPayload | RxCkA | RxCkB

  /** The parser's static variables, and the messages handed to the frame handler so far. */
  datatype Rx = Rx(
    state: RxState, buf: seq<byte>, len: nat, pos: nat, ck: Check, handled: seq<Message>)

  predicate LengthKnown(s: RxState) { s.RxPayload? || s.RxCkA? || s.RxCkB? }

  /** Indices the code uses are inside the frame buffer. */
  ghost predicate Inv(r: Rx) {
    && |r.buf| == FRAME_MAX
    && (LengthKnown(r.state) ==> r.len <= PAYLOAD_MAX)
    && (r.state == RxPayload ==> r.pos < r.len)
  }

  function Reset(r: Rx): Rx {
    r.(state := RxSync1, len := 0, pos := 0, ck := Check(0, 0))
  }

  function FeedByte(r: Rx, b: byte): (t: Rx)
    requires Inv(r)
    ensures Inv(t)
  {
    match r.state
    case RxSync1 => if b == SYNC1 then r.(state := RxSync2) else r
    case RxSync2 =>
      if b == SYNC2 then r.(state := RxClass, ck := Check(0, 0))
      else if b == SYNC1 then r
      else r.(state := RxSync1)
    case RxClass => r.(buf := r.buf[0 := b], ck := CheckByte(r.ck, b), state := RxId)
    case RxId => r.(buf := r.buf[1 := b], ck := CheckByte(r.ck, b), state := RxLenL)
    case RxLenL => r.(buf := r.buf[2 := b], ck := CheckByte(r.ck, b), state := RxLenH)
    case RxLenH =>
      var len := LengthOf(r.buf[2], b);
      var t := r.(buf := r.buf[3 := b], ck := CheckByte(r.ck, b), len := len);
      if len > PAYLOAD_MAX then Reset(t)
      else t.(pos := 0, state := if len == 0 then RxCkA else RxPayload)
    case RxPayload =>
      r.(buf := r.buf[4 + r.pos := b], ck := CheckByte(r.ck, b), pos := r.pos + 1,
         state := if r.pos + 1 >= r.len then RxCkA else RxPayload)
    case RxCkA => if b == r.ck.a then r.(state := RxCkB) else Reset(r)
    case RxCkB =>
      var handled := r.handled + [Message(r.buf[0], r.buf[1], r.buf[4..4 + r.len])];
      Reset(if b == r.ck.b then r.(handled := handled) else r)
  }

  function Feed(r: Rx, stream: seq<byte>): (t: Rx)
    requires Inv(r)
    ensures Inv(t)
  {
    if stream == [] then r else FeedByte(Feed(r, stream[..|stream| - 1]), stream[|stream| - 1])
  }

  lemma FeedSnoc(r: Rx, stream: seq<byte>, b: byte)
    requires Inv(r)
    ensures Feed(r, stream + [b]) == FeedByte(Feed(r, stream), b)
  {
    hide FeedByte;
    assert (stream + [b])[..|stream|] == stream;
  }

  lemma {:induction false} FeedAppend(r: Rx, first: seq<byte>, second: seq<byte>)
    requires Inv(r)
    ensures Feed(r, first + second) == Feed(Feed(r, first), second)
    decreases |second|
  {
    hide FeedByte;
    if second == [] {
      assert first + second == first;
    } else {
      var n := |second| - 1;
      FeedAppend(r, first, second[..n]);
      assert first + second == first + second[..n] + [second[n]];
      FeedSnoc(r, first + second[..n], second[n]);
    }
  }

  // ----- every callback is a frame that was received

  /** How many header and payload bytes of the current frame are in the buffer. */
  function Stored(r: Rx): nat {
    match r.state
    case RxSync1 => 0
    case RxSync2 => 0
    case RxClass => 0
    case RxId => 1
    case RxLenL => 2
    case RxLenH => 3
    case RxPayload => 4 + r.pos
    case RxCkA => 4 + r.len
    case RxCkB => 4 + r.len
  }

  /** The bytes of the current, unfinished frame; they are always the last ones received. */
  function Pending(r: Rx): seq<byte>
    requires Inv(r)
  {
    match r.state
    case RxSync1 => []
    case RxSync2 => [SYNC1]
    case RxCkB => [SYNC1, SYNC2] + r.buf[..Stored(r)] + [r.ck.a]
    case _ => [SYNC1, SYNC2] + r.buf[..Stored(r)]
  }

  /** The running checksum and the length belong to the bytes in the buffer. */
  ghost predicate Tracks(r: Rx)
    requires Inv(r)
  {
    && (!(r.state.RxSync1? || r.state.RxSync2?) ==> r.ck == Checksum(r.buf[..Stored(r)]))
    && (LengthKnown(r.state) ==> r.len == LengthOf(r.buf[2], r.buf[3]))
  }

  lemma StoreByte(buf: seq<byte>, k: nat, b: byte, ck: Check)
    requires k < |buf| && ck == Checksum(buf[..k])
    ensures buf[k := b][..k + 1] == buf[..k] + [b]
    ensures CheckByte(ck, b) == Checksum(buf[k := b][..k + 1])
  {
    assert buf[k := b][..k + 1] == buf[..k] + [b];
    ChecksumSnoc(buf[..k], b);
  }

  /**
   * One byte either completes a frame, whose bytes are exactly the sender's for the message
   * handed over, or extends the pending frame, or starts afresh.
   */
  lemma ByteStep(r: Rx, b: byte)
    requires Inv(r) && Tracks(r)
    ensures var t := FeedByte(r, b);
            && Tracks(t)
            && (t.handled == r.handled ==>
                  Pending(t) == [] || Pending(t) == [b] || Pending(t) == Pending(r) + [b])
            && (t.handled != r.handled ==>
                  && Pending(t) == []
                  && exists m: Message :: |m.payload| <= PAYLOAD_MAX
                                 && t.handled == r.handled + [m] && Pending(r) + [b] == Frame(m))
  {
    hide Checksum;
    ChecksumNothing();
    assert r.buf[..0] == [];
    if r.state.RxClass? || r.state.RxId? || r.state.RxLenL? || r.state.RxLenH? || r.state.RxPayload? {
      StoreByte(r.buf, Stored(r), b, r.ck);
    } else if r.state == RxCkB && b == r.ck.b {
      var m := Message(r.buf[0], r.buf[1], r.buf[4..4 + r.len]);
      LengthBytes(r.buf[2], r.buf[3]);
      assert r.buf[..4 + r.len] == Header(m) + m.payload;
      assert Pending(r) + [b] == Frame(m);
    }
  }

  lemma LengthBytes(lo: byte, hi: byte)
    ensures LengthOf(lo, hi) % 256 == lo && LengthOf(lo, hi) / 256 == hi
  {}

  /** `m` was received as the bytes of `stream` from `at` on. */
  ghost predicate ReceivedAt(stream: seq<byte>, at: nat, m: Message) {
    && |m.payload| <= PAYLOAD_MAX
    && at + |Frame(m)| <= |stream|
    && stream[at..at + |Frame(m)|] == Frame(m)
  }

  function NextStart(starts: seq<nat>, i: nat, limit: int): int {
    if i + 1 < |starts| then starts[i + 1] else limit
  }

  /** The messages `ms` occupy disjoint stretches of the stream, in order, all before `limit`. */
  ghost predicate Explained(stream: seq<byte>, ms: seq<Message>, starts: seq<nat>, limit: int) {
    && |starts| == |ms|
    && (forall i :: 0 <= i < |ms| ==> ReceivedAt(stream, starts[i], ms[i]))
    && (forall i :: 0 <= i < |ms| ==> starts[i] + |Frame(ms[i])| <= NextStart(starts, i, limit))
  }

  ghost predicate EndsWith(stream: seq<byte>, suffix: seq<byte>) {
    |suffix| <= |stream| && stream[|stream| - |suffix|..] == suffix
  }

  lemma ExplainedLonger(stream: seq<byte>, b: byte, ms: seq<Message>, starts: seq<nat>, limit: int, limit': int)
    requires Explained(stream, ms, starts, limit) && limit <= limit'
    ensures Explained(stream + [b], ms, starts, limit')
  {
    forall i | 0 <= i < |ms|
      ensures ReceivedAt(stream + [b], starts[i], ms[i])
      ensures starts[i] + |Frame(ms[i])| <= NextStart(starts, i, limit')
    {
      assert ReceivedAt(stream, starts[i], ms[i]) && starts[i] + |Frame(ms[i])| <= NextStart(starts, i, limit);
      assert (stream + [b])[starts[i]..starts[i] + |Frame(ms[i])|] == stream[starts[i]..starts[i] + |Frame(ms[i])|];
    }
  }

  lemma SuffixSnoc(stream: seq<byte>, suffix: seq<byte>, b: byte)
    requires EndsWith(stream, suffix)
    ensures EndsWith(stream + [b], suffix + [b]) && EndsWith(stream + [b], [b]) && EndsWith(stream + [b], [])
  {
    var all := stream + [b];
    assert all[|all| - 1..] == [b];
    assert all[|all| - |suffix| - 1..] == stream[|stream| - |suffix|..] + [b];
    assert all[|all|..] == [];
  }

  /**
   * On any byte stream, every message the handler gets is a contiguous stretch of the stream that
   * is exactly the sender's image of it, and the stretches are disjoint and in order.
   */
  lemma {:induction false} CallbacksAreFrames(r: Rx, stream: seq<byte>) returns (found: seq<Message>, starts: seq<nat>)
    requires Inv(r) && r.state == RxSync1
    ensures var t := Feed(r, stream);
            && t.handled == r.handled + found
            && Tracks(t) && EndsWith(stream, Pending(t))
            && Explained(stream, found, starts, |stream| - |Pending(t)|)
    decreases |stream|
  {
    hide Checksum, FeedByte, Pending, Tracks, Frame;
    if stream == [] {
      assert Tracks(r) && Pending(r) == [] by { TracksInitially(r); }
      found, starts := [], [];
      assert stream[|stream| - 0..] == [];
    } else {
      var n := |stream| - 1;
      var front, b := stream[..n], stream[n];
      found, starts := CallbacksAreFrames(r, front);
      var s := Feed(r, front);
      var t := FeedByte(s, b);
      assert front + [b] == stream;
      ByteStep(s, b);
      SuffixSnoc(front, Pending(s), b);
      if t.handled == s.handled {
        ExplainedLonger(front, b, found, starts, |front| - |Pending(s)|, |stream| - |Pending(t)|);
      } else {
        var m: Message :| |m.payload| <= PAYLOAD_MAX && t.handled == s.handled + [m] && Pending(s) + [b] == Frame(m);
        var at: nat := |front| - |Pending(s)|;
        ExplainedLonger(front, b, found, starts, at, at);
        assert stream[at..at + |Frame(m)|] == Frame(m);
        ExplainedMore(stream, found, starts, at, m);
        found, starts := found + [m], starts + [at];
        assert t.handled == r.handled + found;
      }
    }
  }

  lemma TracksInitially(r: Rx)
    requires Inv(r) && r.state == RxSync1
    ensures Tracks(r) && Pending(r) == []
  {}

  lemma ExplainedMore(stream: seq<byte>, ms: seq<Message>, starts: seq<nat>, at: nat, m: Message)
    requires Explained(stream, ms, starts, at) && ReceivedAt(stream, at, m)
    ensures Explained(stream, ms + [m], starts + [at], at + |Frame(m)|)
  {
    var ms', starts' := ms + [m], starts + [at];
    forall i | 0 <= i < |ms'|
      ensures ReceivedAt(stream, starts'[i], ms'[i])
      ensures starts'[i] + |Frame(ms'[i])| <= NextStart(starts', i, at + |Frame(m)|)
    {
      if i < |ms| {
        assert ReceivedAt(stream, starts[i], ms[i]) && starts[i] + |Frame(ms[i])| <= NextStart(starts, i, at);
      }
    }
  }

  // ----- every frame that was sent is called back

  /** The parser once the header of `m` is in, ready for the payload or the checksum. */
  ghost predicate HeaderIn(r: Rx, t: Rx, m: Message)
    requires |m.payload| <= PAYLOAD_MAX
  {
    && Inv(t) && t.handled == r.handled
    && t.len == |m.payload| && t.pos == 0
    && t.buf[..4] == Header(m) && t.ck == Checksum(Header(m))
    && t.state == if m.payload == [] then RxCkA else RxPayload
  }

  lemma FeedSix(r: Rx, x: seq<byte>)
    requires Inv(r) && |x| == 6
    ensures Feed(r, x) ==
            FeedByte(FeedByte(FeedByte(FeedByte(FeedByte(FeedByte(r, x[0]), x[1]), x[2]), x[3]), x[4]), x[5])
  {
    hide FeedByte, Feed;
    FeedNothing(r);
    assert x[..1] == [] + [x[0]] && x[..2] == x[..1] + [x[1]] && x[..3] == x[..2] + [x[2]];
    assert x[..4] == x[..3] + [x[3]] && x[..5] == x[..4] + [x[4]] && x == x[..5] + [x[5]];
    FeedSnoc(r, [], x[0]);
    FeedSnoc(r, x[..1], x[1]);
    FeedSnoc(r, x[..2], x[2]);
    FeedSnoc(r, x[..3], x[3]);
    FeedSnoc(r, x[..4], x[4]);
    FeedSnoc(r, x[..5], x[5]);
  }

  lemma FeedHeader(r: Rx, m: Message)
    requires Inv(r) && r.state == RxSync1 && |m.payload| <= PAYLOAD_MAX
    ensures HeaderIn(r, Feed(r, [SYNC1, SYNC2] + Header(m)), m)
  {
    hide Checksum, Feed;
    var h := Header(m);
    FeedSix(r, [SYNC1, SYNC2] + h);
    var r2 := FeedByte(FeedByte(r, SYNC1), SYNC2);
    var r3 := FeedByte(r2, h[0]);
    var r4 := FeedByte(r3, h[1]);
    var r5 := FeedByte(r4, h[2]);
    ChecksumNothing();
    assert r2.buf[..0] == [];
    StoreByte(r2.buf, 0, h[0], r2.ck);
    StoreByte(r3.buf, 1, h[1], r3.ck);
    StoreByte(r4.buf, 2, h[2], r4.ck);
    StoreByte(r5.buf, 3, h[3], r5.ck);
    LengthBytes(h[2], h[3]);
    assert r5.buf[2] == r5.buf[..3][2] == h[2];
    assert LengthOf(h[2], h[3]) == |m.payload|;
    assert [] + [h[0]] + [h[1]] + [h[2]] + [h[3]] == h;
  }

  lemma FeedNothing(r: Rx)
    requires Inv(r)
    ensures Feed(r, []) == r
  {}

  /** The parser once the whole payload `p` is in, `header` being the four bytes before it. */
  ghost predicate PayloadIn(r: Rx, t: Rx, header: seq<byte>, p: seq<byte>) {
    && Inv(t) && t.handled == r.handled && t.len == r.len
    && t.pos == |p| <= PAYLOAD_MAX
    && t.buf[..4 + |p|] == header + p
    && t.ck == Checksum(header + p)
    && t.state == if |p| == r.len then RxCkA else RxPayload
  }

  lemma {:induction false} FeedPayload(r: Rx, header: seq<byte>, p: seq<byte>)
    requires Inv(r) && r.len <= PAYLOAD_MAX && r.pos == 0 && |p| <= r.len
    requires |header| == 4 && r.buf[..4] == header && r.ck == Checksum(header)
    requires r.state == if r.len == 0 then RxCkA else RxPayload
    ensures PayloadIn(r, Feed(r, p), header, p)
    decreases |p|
  {
    hide Checksum;
    if p == [] {
      assert header + p == header;
    } else {
      var n := |p| - 1;
      FeedPayload(r, header, p[..n]);
      var s := Feed(r, p[..n]);
      StoreByte(s.buf, 4 + n, p[n], s.ck);
      assert header + p == header + p[..n] + [p[n]];
    }
  }

  /** Between frames; the last byte may already look like the start of one. */
  predicate Seeking(r: Rx) { r.state.RxSync1? || r.state.RxSync2? }

  lemma FeedTrailer(r: Rx, header: seq<byte>, p: seq<byte>, sent: Check)
    requires Inv(r) && r.state == RxCkA && r.len == |p| && |header| == 4
    requires r.buf[..4 + |p|] == header + p && r.ck == Checksum(header + p)
    ensures var t := FeedByte(FeedByte(r, sent.a), sent.b);
            if Checksum(header + p) == sent
            then t.state == RxSync1 && t.handled == r.handled + [Message(header[0], header[1], p)]
            else Seeking(t) && t.handled == r.handled
  {
    hide Checksum;
    assert r.buf[4..4 + |p|] == r.buf[..4 + |p|][4..] == p;
    assert r.buf[0] == r.buf[..4 + |p|][0] == header[0];
    assert r.buf[1] == r.buf[..4 + |p|][1] == header[1];
  }

  /**
   * A frame whose payload was replaced by `p` of the same length, checksum as sent: the handler
   * gets a message exactly when `p` has the sent checksum too.
   */
  lemma {:induction false} FeedDamaged(r: Rx, m: Message, p: seq<byte>)
    requires Inv(r) && r.state == RxSync1
    requires |p| == |m.payload| <= PAYLOAD_MAX
    ensures var sent := Checksum(Header(m) + m.payload);
            var t := Feed(r, [SYNC1, SYNC2] + Header(m) + p + Trailer(sent));
            if Checksum(Header(m) + p) == sent
            then t.state == RxSync1 && t.handled == r.handled + [Message(m.cls, m.id, p)]
            else Seeking(t) && t.handled == r.handled
  {
    hide Checksum;
    var h, sent := Header(m), Checksum(Header(m) + m.payload);
    FeedHeader(r, m);
    var r1 := Feed(r, [SYNC1, SYNC2] + h);
    FeedPayload(r1, h, p);
    var r2 := Feed(r1, p);
    FeedTrailer(r2, h, p, sent);
    var r4 := FeedByte(FeedByte(r2, sent.a), sent.b);
    hide FeedByte, Feed;
    FeedAppend(r, [SYNC1, SYNC2] + h, p);
    FeedSnoc(r, [SYNC1, SYNC2] + h + p, sent.a);
    FeedSnoc(r, [SYNC1, SYNC2] + h + p + [sent.a], sent.b);
    assert [SYNC1, SYNC2] + h + p + Trailer(sent) == [SYNC1, SYNC2] + h + p + [sent.a] + [sent.b];
  }

  /** What a list of messages looks like on the line. */
  function Line(ms: seq<Message>): seq<byte>
    requires forall i :: 0 <= i < |ms| ==> |ms[i].payload| <= PAYLOAD_MAX
  {
    if ms == [] then [] else Line(ms[..|ms| - 1]) + Frame(ms[|ms| - 1])
  }

  /** Parsing what was sent gives back the messages, in order, and nothing else. */
  lemma {:induction false} SentIsReceived(r: Rx, ms: seq<Message>)
    requires Inv(r) && r.state == RxSync1
    requires forall i :: 0 <= i < |ms| ==> |ms[i].payload| <= PAYLOAD_MAX
    ensures var t := Feed(r, Line(ms)); t.state == RxSync1 && t.handled == r.handled + ms
    decreases |ms|
  {
    hide Checksum, FeedByte, Feed;
    if ms == [] {
      FeedNothing(r);
    } else {
      var n := |ms| - 1;
      SentIsReceived(r, ms[..n]);
      FeedDamaged(Feed(r, Line(ms[..n])), ms[n], ms[n].payload);
      FeedAppend(r, Line(ms[..n]), Frame(ms[n]));
      assert ms == ms[..n] + [ms[n]];
    }
  }

  /** Longer payloads than the buffer holds are refused before their first byte. */
  lemma LongFramesAreRefused(r: Rx, m: Message)
    requires Inv(r) && r.state == RxSync1 && PAYLOAD_MAX < |m.payload| < 0x1_0000
    ensures var t := Feed(r, [SYNC1, SYNC2] + Header(m));
            t.state == RxSync1 && t.handled == r.handled
  {
    hide Checksum, Feed;
    var h := Header(m);
    FeedSix(r, [SYNC1, SYNC2] + h);
    var r2 := FeedByte(FeedByte(r, SYNC1), SYNC2);
    var r5 := FeedByte(FeedByte(FeedByte(r2, h[0]), h[1]), h[2]);
    assert r5.buf[2] == h[2];
    assert LengthOf(h[2], h[3]) == |m.payload|;
  }

  // ----- damage the checksum detects

  function Damaged(m: Message, p: seq<byte>): seq<byte>
    requires |m.payload| == |p| < 0x1_0000
  {
    [SYNC1, SYNC2] + Header(m) + p + Trailer(Checksum(Header(m) + m.payload))
  }

  lemma {:induction false} SumReplaced(s: seq<byte>, i: nat, x: byte)
    requires i < |s|
    ensures Sum(s[i := x]) == Sum(s) - s[i] + x
    decreases |s|
  {
    var n := |s| - 1;
    if i < n {
      SumReplaced(s[..n], i, x);
      assert s[i := x][..n] == s[..n][i := x];
    } else {
      assert s[i := x][..n] == s[..n];
    }
  }

  /** Swapping neighbours moves the weighted sum by their difference and the plain sum not at all. */
  lemma {:induction false} WeightedSwapped(s: seq<byte>, i: nat)
    requires i + 1 < |s|
    ensures var t := s[i := s[i + 1]][i + 1 := s[i]];
            Sum(t) == Sum(s) && Weighted(t) == Weighted(s) + s[i + 1] - s[i]
    decreases |s|
  {
    var n := |s| - 1;
    var t := s[i := s[i + 1]][i + 1 := s[i]];
    if i + 1 < n {
      WeightedSwapped(s[..n], i);
      assert t[..n] == s[..n][i := s[i + 1]][i + 1 := s[i]];
    } else {
      var front := s[..i];
      assert s == front + [s[i]] + [s[i + 1]] && t == front + [s[i + 1]] + [s[i]];
      hide Sum, Weighted, Checksum;
      ChecksumSnoc(front, s[i]);
      ChecksumSnoc(front + [s[i]], s[i + 1]);
      ChecksumSnoc(front, s[i + 1]);
      ChecksumSnoc(front + [s[i + 1]], s[i]);
    }
  }

  lemma ResiduesDiffer(x: nat, y: nat)
    requires x != y && -256 < x - y < 256
    ensures x % 256 != y % 256
  {}

  /** One payload byte replaced by another: no callback from that frame's bytes. */
  lemma ReplacedByteIsDetected(r: Rx, m: Message, i: nat, x: byte)
    requires Inv(r) && r.state == RxSync1
    requires i < |m.payload| <= PAYLOAD_MAX && x != m.payload[i]
    ensures Feed(r, Damaged(m, m.payload[i := x])).handled == r.handled
  {
    hide Checksum, Sum, Weighted, Feed;
    var p, whole := m.payload[i := x], Header(m) + m.payload;
    assert Header(m) + p == whole[4 + i := x];
    SumReplaced(whole, 4 + i, x);
    ResiduesDiffer(Sum(Header(m) + p), Sum(whole));
    ChecksumIsFletcher(whole);
    ChecksumIsFletcher(Header(m) + p);
    FeedDamaged(r, m, p);
  }

  /** Two unequal neighbouring payload bytes swapped: no callback either. */
  lemma SwappedBytesAreDetected(r: Rx, m: Message, i: nat)
    requires Inv(r) && r.state == RxSync1
    requires i + 1 < |m.payload| <= PAYLOAD_MAX && m.payload[i] != m.payload[i + 1]
    ensures Feed(r, Damaged(m, m.payload[i := m.payload[i + 1]][i + 1 := m.payload[i]])).handled == r.handled
  {
    hide Checksum, Sum, Weighted, Feed;
    var p, whole := m.payload[i := m.payload[i + 1]][i + 1 := m.payload[i]], Header(m) + m.payload;
    assert Header(m) + p == whole[4 + i := whole[5 + i]][5 + i := whole[4 + i]];
    WeightedSwapped(whole, 4 + i);
    ResiduesDiffer(Weighted(Header(m) + p), Weighted(whole));
    ChecksumIsFletcher(whole);
    ChecksumIsFletcher(Header(m) + p);
    FeedDamaged(r, m, p);
  }

  lemma ByteGrows(r: Rx, b: byte)
    requires Inv(r)
    ensures r.handled <= FeedByte(r, b).handled
  {
    hide CheckByte;
  }

  lemma {:induction false} FeedGrows(r: Rx, stream: seq<byte>)
    requires Inv(r)
    ensures r.handled <= Feed(r, stream).handled
  {
    hide FeedByte;
    if stream != [] {
      FeedGrows(r, stream[..|stream| - 1]);
      ByteGrows(Feed(r, stream[..|stream| - 1]), stream[|stream| - 1]);
    }
  }

  /** A frame starts over from a byte that only looked like its start. */
  lemma SyncsAgain(r: Rx, rest: seq<byte>)
    requires Inv(r) && Seeking(r)
    ensures Feed(r, [SYNC1] + rest) == Feed(r.(state := RxSync1), [SYNC1] + rest)
  {
    var s := r.(state := RxSync1);
    FeedAppend(r, [SYNC1], rest);
    FeedAppend(s, [SYNC1], rest);
    FeedNothing(r);
    FeedNothing(s);
    FeedSnoc(r, [], SYNC1);
    FeedSnoc(s, [], SYNC1);
    assert [] + [SYNC1] == [SYNC1];
    hide Feed;
  }

  /** A frame as sent, and the payload that arrives in it. */
  datatype Arrival = Arrival(m: Message, p: seq<byte>)

  predicate Plausible(a: Arrival) { |a.p| == |a.m.payload| <= PAYLOAD_MAX }

  predicate Passes(a: Arrival)
    requires Plausible(a)
  {
    Checksum(Header(a.m) + a.p) == Checksum(Header(a.m) + a.m.payload)
  }

  function NoisyLine(arrivals: seq<Arrival>): seq<byte>
    requires forall i :: 0 <= i < |arrivals| ==> Plausible(arrivals[i])
  {
    if arrivals == [] then []
    else
      var a := arrivals[|arrivals| - 1];
      assert Plausible(a);
      NoisyLine(arrivals[..|arrivals| - 1]) + Damaged(a.m, a.p)
  }

  /** The messages whose payload still has the checksum that was sent. */
  function Passing(arrivals: seq<Arrival>): seq<Message>
    requires forall i :: 0 <= i < |arrivals| ==> Plausible(arrivals[i])
  {
    if arrivals == [] then []
    else
      var a := arrivals[|arrivals| - 1];
      Passing(arrivals[..|arrivals| - 1]) + if Passes(a) then [Message(a.m.cls, a.m.id, a.p)] else []
  }

  lemma ArrivalIsFed(r: Rx, a: Arrival)
    requires Inv(r) && Seeking(r) && Plausible(a)
    ensures var t := Feed(r, Damaged(a.m, a.p));
            && Seeking(t)
            && t.handled == r.handled + if Passes(a) then [Message(a.m.cls, a.m.id, a.p)] else []
  {
    hide Checksum, Feed;
    var whole := Damaged(a.m, a.p);
    assert whole == [SYNC1] + whole[1..];
    SyncsAgain(r, whole[1..]);
    FeedDamaged(r.(state := RxSync1), a.m, a.p);
    assert r.handled + [] == r.handled;
  }

  /**
   * On a line of frames any of whose payloads were damaged, exactly those that still have the
   * checksum that was sent are called back, in order: a detected frame costs no other frame.
   */
  lemma {:induction false} DamageIsContained(r: Rx, arrivals: seq<Arrival>)
    requires Inv(r) && Seeking(r)
    requires forall i :: 0 <= i < |arrivals| ==> Plausible(arrivals[i])
    ensures var t := Feed(r, NoisyLine(arrivals)); Seeking(t) && t.handled == r.handled + Passing(arrivals)
  {
    hide Checksum, FeedByte, Feed, Damaged, Passes;
    if arrivals == [] {
      FeedNothing(r);
    } else {
      var n := |arrivals| - 1;
      DamageIsContained(r, arrivals[..n]);
      FeedAppend(r, NoisyLine(arrivals[..n]), Damaged(arrivals[n].m, arrivals[n].p));
      ArrivalIsFed(Feed(r, NoisyLine(arrivals[..n])), arrivals[n]);
    }
  }

  /** Nothing is ever taken back from the handler, so none of the frame's prefixes called it either. */
  lemma {:induction false} HandledOnlyGrows(r: Rx, stream: seq<byte>, k: nat)
    requires Inv(r) && k <= |stream|
    ensures r.handled <= Feed(r, stream[..k]).handled <= Feed(r, stream).handled
  {
    hide FeedByte, Feed;
    FeedGrows(r, stream[..k]);
    FeedGrows(Feed(r, stream[..k]), stream[k..]);
    FeedAppend(r, stream[..k], stream[k..]);
    assert stream == stream[..k] + stream[k..];
  }

  // ----- the code

  class UbxReceiver {
    const frameBuf: array<byte>
    var rxState: RxState
    var payloadLen: nat
    var payloadPos: nat
    var ck: Check
    var handled: seq<Message>

    ghost function State(): Rx
      reads this, frameBuf
    {
      Rx(rxState, frameBuf[..], payloadLen, payloadPos, ck, handled)
    }

    constructor ()
      ensures fresh(frameBuf) && Inv(State()) && rxState == RxSync1 && handled == []
    {
      frameBuf := new byte[FRAME_MAX];
      rxState, payloadLen, payloadPos, ck, handled := RxSync1, 0, 0, Check(0, 0), [];
    }

    method ResetRxState()
      modifies this`rxState, this`payloadLen, this`payloadPos, this`ck
      ensures State() == Reset(old(State()))
    {
      rxState, payloadLen, payloadPos, ck := RxSync1, 0, 0, Check(0, 0);
    }

    method ChecksumByte(b: byte)
      modifies this`ck
      ensures ck == CheckByte(old(ck), b)
    {
      var a := (ck.a + b) % 256;
      ck := Check(a, (ck.b + a) % 256);
    }

    method UbxFeedByte(b: byte)
      requires Inv(State())
      modifies this, frameBuf
      ensures Inv(State()) && State() == FeedByte(old(State()), b)
    {
      match rxState {
        case RxSync1 =>
          if b == SYNC1 {
            rxState := RxSync2;
          }
        case RxSync2 =>
          if b == SYNC2 {
            rxState := RxClass;
            ck := Check(0, 0);
          } else if b != SYNC1 {
            rxState := RxSync1;
          }
        case RxClass =>
          frameBuf[0] := b;
          ChecksumByte(b);
          rxState := RxId;
        case RxId =>
          frameBuf[1] := b;
          ChecksumByte(b);
          rxState := RxLenL;
        case RxLenL =>
          frameBuf[2] := b;
          ChecksumByte(b);
          rxState := RxLenH;
        case RxLenH =>
          frameBuf[3] := b;
          ChecksumByte(b);
          payloadLen := LengthOf(frameBuf[2], b);
          if payloadLen > FRAME_MAX - 6 {
            ResetRxState();
          } else {
            payloadPos := 0;
            rxState := if payloadLen == 0 then RxCkA else RxPayload;
          }
        case RxPayload =>
          frameBuf[4 + payloadPos] := b;
          ChecksumByte(b);
          payloadPos := payloadPos + 1;
          if payloadPos >= payloadLen {
            rxState := RxCkA;
          }
        case RxCkA =>
          if b == ck.a {
            rxState := RxCkB;
          } else {
            ResetRxState();
          }
        case RxCkB =>
          if b == ck.b {
            handled := handled + [Message(frameBuf[0], frameBuf[1], frameBuf[4..4 + payloadLen])];
          }
          ResetRxState();
      }
    }
  }
}
