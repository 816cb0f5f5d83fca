/**
 * The gateway's byte-fed deframer for the USB sensor stream (src/sensor_bridge.cpp).
 * `FeedByte` is one pass of the read loop's body; `Cut` is what the stream means, with no state.
 */
module Deframer {
  import opened Common
  import Cobs

  datatype WireProto = UnknownProto | TextProto | CobsProto

  /**
   * What the bridge remembers between bytes, and what it has done so far: the bodies handed to
   * the decoder, the packets that parsed among them, and the parse errors counted.
   */
  datatype Bridge = Bridge(
    proto: WireProto, inFrame: bool, acc: seq<byte>,
    frames: seq<seq<byte>>, packets: seq<seq<byte>>, parseErrors: nat)

  const PACKET_SIZE: nat := 173
  const DECODE_BUFFER: nat := 256

  const POWERED: Bridge := Bridge(UnknownProto, false, [], [], [], 0)

  function DetectProto(s: Bridge, b: byte): Bridge {
    if s.proto != UnknownProto then s
    else if b == 0x56 then s.(proto := TextProto)
    else if b == 0 then s.(proto := CobsProto, inFrame := false, acc := [])
    else s
  }

  function FloatAt(p: seq<byte>, offset: nat): Option<real>
    requires offset + 4 <= |p|
  {
    Float32(LittleEndian(p[offset..offset + 4]))
  }

  function DoubleAt(p: seq<byte>, offset: nat): Option<real>
    requires offset + 8 <= |p|
  {
    Float64(LittleEndian(p[offset..offset + 8]))
  }

  predicate InRange(v: Option<real>, bound: real) { v.Some? && -bound <= v.value <= bound }

  /**
   * What parseSignedEtPacket accepts: size, magic, version, seven finite IMU values, a position on
   * the globe, and a speed that is not negative.
   */
  predicate IsPacket(p: seq<byte>) {
    && |p| == PACKET_SIZE && p[0] == 0xE7 && p[1] == 0x02
    && FloatAt(p, 14).Some? && FloatAt(p, 18).Some? && FloatAt(p, 22).Some? && FloatAt(p, 26).Some?
    && FloatAt(p, 30).Some? && FloatAt(p, 34).Some? && FloatAt(p, 38).Some?
    && InRange(DoubleAt(p, 46), 90.0) && InRange(DoubleAt(p, 54), 180.0)
    && FloatAt(p, 62).Some? && FloatAt(p, 62).value >= 0.0
  }

  function ProcessFrame(s: Bridge, body: seq<byte>): Bridge {
    var payload := Cobs.Decoded(body, DECODE_BUFFER);
    var seen := s.(frames := s.frames + [body]);
    if !IsPacket(payload) then seen.(parseErrors := s.parseErrors + 1)
    else seen.(packets := s.packets + [payload])
  }

  /** A byte in COBS mode, with `cap` the bound on one frame. */
  function CobsByte(cap: nat, s: Bridge, b: byte): Bridge {
    if b == 0 then
      (if s.acc != [] then ProcessFrame(s, s.acc) else s).(acc := [], inFrame := false)
    else
      var begun := if s.inFrame then s else s.(inFrame := true, acc := []);
      if |begun.acc| >= cap then
        begun.(parseErrors := s.parseErrors + 1, acc := [], inFrame := false)
      else
        begun.(acc := begun.acc + [b])
  }

  function FeedByte(cap: nat, s: Bridge, b: byte): Bridge {
    var t := DetectProto(s, b);
    if t.proto == CobsProto then CobsByte(cap, t, b) else t
  }

  function Feed(cap: nat, s: Bridge, stream: seq<byte>): Bridge {
    if stream == [] then s
    else FeedByte(cap, Feed(cap, s, stream[..|stream| - 1]), stream[|stream| - 1])
  }

  /** How the stream is chopped into reads makes no difference. */
  lemma {:induction false} ReadsDoNotMatter(cap: nat, s: Bridge, first: seq<byte>, second: seq<byte>)
    ensures Feed(cap, s, first + second) == Feed(cap, Feed(cap, s, first), second)
    decreases |second|
  {
    if second == [] {
      assert first + second == first;
    } else {
      var n := |second| - 1;
      assert (first + second)[..|first| + n] == first + second[..n];
      ReadsDoNotMatter(cap, s, first, second[..n]);
    }
  }

  // ----- what every byte keeps

  /** The packets among the decoded bodies. */
  function Accepted(frames: seq<seq<byte>>): seq<seq<byte>> {
    if frames == [] then []
    else
      var payload := Cobs.Decoded(frames[|frames| - 1], DECODE_BUFFER);
      Accepted(frames[..|frames| - 1]) + if IsPacket(payload) then [payload] else []
  }

  ghost predicate Inv(cap: nat, s: Bridge) {
    && |s.acc| <= cap
    && Cobs.ZeroFree(s.acc)
    && (s.inFrame <==> s.acc != [])
    && s.packets == Accepted(s.frames)
    && (s.proto != CobsProto ==> s.acc == [])
  }

  lemma FeedByteKeepsInv(cap: nat, s: Bridge, b: byte)
    requires Inv(cap, s)
    ensures Inv(cap, FeedByte(cap, s, b))
  {
    hide IsPacket, Cobs.Decoded;
    if b == 0 && s.acc != [] {
      assert (s.frames + [s.acc])[..|s.frames|] == s.frames;
    }
  }

  /** On any bytes at all, the accumulator stays within its cap and only real packets are kept. */
  lemma {:induction false} FeedKeepsInv(cap: nat, s: Bridge, stream: seq<byte>)
    requires Inv(cap, s)
    ensures Inv(cap, Feed(cap, s, stream))
    decreases |stream|
  {
    hide IsPacket, Cobs.Decoded, FeedByte, Inv;
    if stream != [] {
      FeedKeepsInv(cap, s, stream[..|stream| - 1]);
      FeedByteKeepsInv(cap, Feed(cap, s, stream[..|stream| - 1]), stream[|stream| - 1]);
    }
  }

  // ----- what a stream means

  /** A stream cut at its zeros: the segments a zero has ended, and the bytes after the last one. */
  datatype Segments = Segments(closed: seq<seq<byte>>, open: seq<byte>)

  function Cut(open: seq<byte>, stream: seq<byte>): Segments {
    if stream == [] then Segments([], open)
    else
      var c := Cut(open, stream[..|stream| - 1]);
      var b := stream[|stream| - 1];
      if b == 0 then Segments(c.closed + [c.open], []) else Segments(c.closed, c.open + [b])
  }

  /** What survives of a segment: every run of `cap` + 1 bytes from its start is thrown away. */
  function Tail(cap: nat, segment: seq<byte>): seq<byte>
    decreases |segment|
  {
    if |segment| <= cap then segment else Tail(cap, segment[cap + 1..])
  }

  function Runaways(cap: nat, segment: seq<byte>): nat
    decreases |segment|
  {
    if |segment| <= cap then 0 else 1 + Runaways(cap, segment[cap + 1..])
  }

  function Handed(cap: nat, closed: seq<seq<byte>>): seq<seq<byte>> {
    if closed == [] then []
    else
      var last := Tail(cap, closed[|closed| - 1]);
      Handed(cap, closed[..|closed| - 1]) + if last == [] then [] else [last]
  }

  function TotalRunaways(cap: nat, closed: seq<seq<byte>>): nat {
    if closed == [] then 0
    else TotalRunaways(cap, closed[..|closed| - 1]) + Runaways(cap, closed[|closed| - 1])
  }

  lemma {:induction false} TailSnoc(cap: nat, segment: seq<byte>, b: byte)
    ensures Tail(cap, segment + [b]) ==
            if |Tail(cap, segment)| == cap then [] else Tail(cap, segment) + [b]
    ensures Runaways(cap, segment + [b]) ==
            Runaways(cap, segment) + if |Tail(cap, segment)| == cap then 1 else 0
    ensures |Tail(cap, segment)| <= cap
    decreases |segment|
  {
    if |segment| > cap {
      assert (segment + [b])[cap + 1..] == segment[cap + 1..] + [b];
      TailSnoc(cap, segment[cap + 1..], b);
    } else if |segment| == cap {
      assert (segment + [b])[cap + 1..] == [];
    }
  }

  /** The parse errors that no body accounts for. */
  function FramingErrors(s: Bridge): int { s.parseErrors - (|s.frames| - |s.packets|) }

  /**
   * `t` is what `s` becomes over a stream that cuts into `c`: the bodies handed over, the
   * accumulator, and one parse error for each runaway and each body that is no packet.
   */
  ghost predicate Means(cap: nat, s: Bridge, t: Bridge, c: Segments) {
    && t.proto == CobsProto
    && t.frames == s.frames + Handed(cap, c.closed)
    && t.acc == Tail(cap, c.open)
    && FramingErrors(t) == FramingErrors(s) + TotalRunaways(cap, c.closed) + Runaways(cap, c.open)
  }

  /**
   * In COBS mode the bodies handed over, the accumulator and the error count are exactly those
   * of the stream cut at its zeros, whatever the bytes are.
   */
  lemma {:induction false} FeedMeansCut(cap: nat, s: Bridge, stream: seq<byte>)
    requires Inv(cap, s) && s.proto == CobsProto
    ensures Means(cap, s, Feed(cap, s, stream), Cut(s.acc, stream))
    decreases |stream|
  {
    hide IsPacket, Cobs.Decoded, FeedByte, Accepted;
    if stream == [] {
      assert s.frames + [] == s.frames;
    } else {
      var n := |stream| - 1;
      FeedMeansCut(cap, s, stream[..n]);
      FeedKeepsInv(cap, s, stream[..n]);
      MeaningStep(cap, Feed(cap, s, stream[..n]), Cut(s.acc, stream[..n]), stream[n], s);
    }
  }

  lemma MeaningStep(cap: nat, t: Bridge, c: Segments, b: byte, s: Bridge)
    requires Inv(cap, t) && Means(cap, s, t, c)
    ensures Means(cap, s, FeedByte(cap, t, b),
                  if b == 0 then Segments(c.closed + [c.open], []) else Segments(c.closed, c.open + [b]))
  {
    if b == 0 {
      assert (c.closed + [c.open])[..|c.closed|] == c.closed;
      var grown := c.closed + [c.open];
      assert Handed(cap, grown) == Handed(cap, c.closed) + if t.acc == [] then [] else [t.acc];
      assert TotalRunaways(cap, grown) == TotalRunaways(cap, c.closed) + Runaways(cap, c.open);
      assert Runaways(cap, []) == 0 && Tail(cap, []) == [];
      hide IsPacket, Cobs.Decoded, Accepted, Handed, TotalRunaways, Tail, Runaways;
      assert s.frames + (Handed(cap, c.closed) + [t.acc]) == s.frames + Handed(cap, c.closed) + [t.acc];
      assert s.frames + (Handed(cap, c.closed) + []) == s.frames + Handed(cap, c.closed);
    } else {
      hide IsPacket, Cobs.Decoded, Accepted, Handed, TotalRunaways, Tail, Runaways;
      TailSnoc(cap, c.open, b);
    }
  }

  // ----- well-formed traffic

  /** The bytes of `payloads` on the wire, one frame after the other. */
  function Wire(payloads: seq<seq<byte>>): seq<byte> {
    if payloads == [] then []
    else Wire(payloads[..|payloads| - 1]) + Cobs.Frame(payloads[|payloads| - 1])
  }

  function Bodies(payloads: seq<seq<byte>>): seq<seq<byte>> {
    if payloads == [] then []
    else Bodies(payloads[..|payloads| - 1]) + [Cobs.Stuff(payloads[|payloads| - 1])]
  }

  lemma {:induction false} FeedZeroFree(cap: nat, s: Bridge, body: seq<byte>)
    requires Inv(cap, s) && s.proto == CobsProto && s.acc == []
    requires Cobs.ZeroFree(body) && |body| <= cap
    ensures Feed(cap, s, body) == s.(acc := body, inFrame := body != [])
    decreases |body|
  {
    hide IsPacket, Cobs.Decoded, Accepted;
    if body != [] {
      var n := |body| - 1;
      FeedZeroFree(cap, s, body[..n]);
      assert body[..n] + [body[n]] == body;
      assert Feed(cap, s, body) == FeedByte(cap, Feed(cap, s, body[..n]), body[n]);
    }
  }

  lemma FeedNothing(cap: nat, s: Bridge)
    ensures Feed(cap, s, []) == s
  {}

  lemma FeedOne(cap: nat, s: Bridge, b: byte)
    ensures Feed(cap, s, [b]) == FeedByte(cap, s, b)
  {
    hide FeedByte;
    assert [b][..0] == [];
    assert Feed(cap, s, []) == s;
  }

  /** One frame, in any state but text mode: a leftover is flushed first, then the body arrives. */
  lemma FeedFrame(cap: nat, s: Bridge, p: seq<byte>)
    requires Inv(cap, s) && s.proto != TextProto && |Cobs.Stuff(p)| <= cap
    ensures var t := Feed(cap, s, Cobs.Frame(p));
            && t.proto == CobsProto && t.acc == [] && FramingErrors(t) == FramingErrors(s)
            && t.frames == s.frames + (if s.acc == [] then [] else [s.acc]) + [Cobs.Stuff(p)]
  {
    hide IsPacket, Cobs.Stuff, Cobs.Decoded, Accepted, Feed;
    var body := Cobs.Stuff(p);
    Cobs.StuffShape(p);
    var s1 := FeedByte(cap, s, 0);
    FeedOne(cap, s, 0);
    FeedByteKeepsInv(cap, s, 0);
    FeedZeroFree(cap, s1, body);
    var s2 := Feed(cap, s1, body);
    ReadsDoNotMatter(cap, s, [0], body);
    ReadsDoNotMatter(cap, s, [0] + body, [0]);
    FeedOne(cap, s2, 0);
  }

  ghost predicate Fit(cap: nat, payloads: seq<seq<byte>>) {
    forall i :: 0 <= i < |payloads| ==> payloads[i] != [] && |Cobs.Stuff(payloads[i])| <= cap
  }

  /**
   * For any list of nonempty payloads whose bodies fit the cap, and from any state the bridge can
   * be in short of text mode, the bodies come out in order and nothing else does, except
   * that unfinished garbage from before is flushed by the first delimiter.
   */
  lemma {:induction false} WireIsDeframed(cap: nat, s: Bridge, payloads: seq<seq<byte>>)
    requires Inv(cap, s) && s.proto != TextProto
    requires Fit(cap, payloads)
    ensures var t := Feed(cap, s, Wire(payloads));
            && t.frames == s.frames + (if s.acc == [] || payloads == [] then [] else [s.acc]) + Bodies(payloads)
            && t.acc == (if payloads == [] then s.acc else [])
            && t.proto == (if payloads == [] then s.proto else CobsProto)
            && t.packets == Accepted(t.frames) && FramingErrors(t) == FramingErrors(s)
    decreases |payloads|
  {
    hide IsPacket, Cobs.Stuff, Cobs.Decoded, Cobs.Frame, Accepted, Feed;
    FeedKeepsInv(cap, s, Wire(payloads));
    if payloads == [] {
      assert Feed(cap, s, []) == s by { FeedNothing(cap, s); }
      assert s.frames + [] + [] == s.frames;
    } else {
      var n := |payloads| - 1;
      var front, last := payloads[..n], payloads[n];
      WireIsDeframed(cap, s, front);
      FeedKeepsInv(cap, s, Wire(front));
      ReadsDoNotMatter(cap, s, Wire(front), Cobs.Frame(last));
      FeedFrame(cap, Feed(cap, s, Wire(front)), last);
    }
  }

  /** The payloads that are signed packets. */
  function Packets(payloads: seq<seq<byte>>): seq<seq<byte>> {
    if payloads == [] then []
    else
      Packets(payloads[..|payloads| - 1])
      + if IsPacket(payloads[|payloads| - 1]) then [payloads[|payloads| - 1]] else []
  }

  lemma PacketsAreSized(p: seq<byte>)
    ensures IsPacket(p) ==> |p| == PACKET_SIZE
  {}

  /** The decoder's buffer holds any packet; what it is too small for was none. */
  lemma PacketsComeBack(p: seq<byte>)
    requires p != []
    ensures var decoded := Cobs.Decoded(Cobs.Stuff(p), DECODE_BUFFER);
            (IsPacket(decoded) <==> IsPacket(p)) && (IsPacket(p) ==> decoded == p)
  {
    PacketsAreSized([]);
    PacketsAreSized(p);
    hide IsPacket, Cobs.Stuff, Cobs.Decoded;
    Cobs.RoundTrip(p, DECODE_BUFFER);
  }

  lemma {:induction false} BodyForBody(payloads: seq<seq<byte>>)
    ensures |Bodies(payloads)| == |payloads|
    decreases |payloads|
  {
    hide Cobs.Stuff;
    if payloads != [] {
      BodyForBody(payloads[..|payloads| - 1]);
    }
  }

  lemma AcceptedSnoc(frames: seq<seq<byte>>, body: seq<byte>)
    ensures Accepted(frames + [body]) ==
            Accepted(frames) + if IsPacket(Cobs.Decoded(body, DECODE_BUFFER))
                               then [Cobs.Decoded(body, DECODE_BUFFER)] else []
  {
    hide IsPacket, Cobs.Decoded;
    assert (frames + [body])[..|frames|] == frames;
  }

  lemma {:induction false} AcceptedBodies(earlier: seq<seq<byte>>, payloads: seq<seq<byte>>)
    requires forall i :: 0 <= i < |payloads| ==> payloads[i] != []
    ensures Accepted(earlier + Bodies(payloads)) == Accepted(earlier) + Packets(payloads)
    decreases |payloads|
  {
    hide IsPacket, Cobs.Stuff, Cobs.Decoded, Accepted;
    if payloads == [] {
      assert earlier + [] == earlier;
    } else {
      var n := |payloads| - 1;
      var last := payloads[n];
      AcceptedBodies(earlier, payloads[..n]);
      PacketsComeBack(last);
      var before := earlier + Bodies(payloads[..n]);
      AcceptedSnoc(before, Cobs.Stuff(last));
      assert earlier + Bodies(payloads) == before + [Cobs.Stuff(last)];
      assert Packets(payloads) == Packets(payloads[..n]) + if IsPacket(last) then [last] else [];
    }
  }

  /**
   * End to end: firmware frames arriving at a bridge that has just been powered, or has any
   * garbage pending, yield exactly the payloads that are signed packets, in order, each unchanged,
   * and count every other payload as an error.
   */
  lemma PacketsSurviveTheLink(cap: nat, s: Bridge, payloads: seq<seq<byte>>)
    requires Inv(cap, s) && s.proto != TextProto
    requires Fit(cap, payloads)
    ensures var flushed := if s.acc == [] || payloads == [] then [] else [s.acc];
            Feed(cap, s, Wire(payloads)).packets == Accepted(s.frames + flushed) + Packets(payloads)
    ensures s == POWERED ==>
              && Feed(cap, s, Wire(payloads)).packets == Packets(payloads)
              && Feed(cap, s, Wire(payloads)).parseErrors == |payloads| - |Packets(payloads)|
  {
    hide IsPacket, Cobs.Stuff, Cobs.Decoded, Feed, Wire, Bodies;
    WireIsDeframed(cap, s, payloads);
    var flushed := if s.acc == [] || payloads == [] then [] else [s.acc];
    AcceptedBodies(s.frames + flushed, payloads);
    BodyForBody(payloads);
  }

  // ----- the code

  class SensorBridge {
    const maxCobsFrameBytes: nat
    var proto: WireProto
    var inCobsFrame: bool
    var cobsAcc: seq<byte>
    var frames: seq<seq<byte>>
    var packets: seq<seq<byte>>
    var parseErrors: nat

    ghost function State(): Bridge
      reads this
    {
      Bridge(proto, inCobsFrame, cobsAcc, frames, packets, parseErrors)
    }

    constructor (cap: nat)
      ensures maxCobsFrameBytes == cap && State() == POWERED
    {
      maxCobsFrameBytes := cap;
      proto, inCobsFrame, cobsAcc := UnknownProto, false, [];
      frames, packets, parseErrors := [], [], 0;
    }

    method Detect(b: byte)
      modifies this
      ensures State() == DetectProto(old(State()), b)
    {
      if proto != UnknownProto {
        return;
      }
      if b == 0x56 {
        proto := TextProto;
      } else if b == 0 {
        proto := CobsProto;
        inCobsFrame := false;
        cobsAcc := [];
      }
    }

    method ProcessCobsFrame()
      modifies this
      ensures State() == ProcessFrame(old(State()), old(cobsAcc))
    {
      PacketsAreSized(Cobs.Decoded(cobsAcc, DECODE_BUFFER));
      hide IsPacket, Cobs.Decoded;
      var decoded := new byte[DECODE_BUFFER];
      var n := Cobs.CobsDecode(cobsAcc, decoded);
      frames := frames + [cobsAcc];
      if n != PACKET_SIZE {
        parseErrors := parseErrors + 1;
        return;
      }
      if !IsPacket(decoded[..n]) {
        parseErrors := parseErrors + 1;
        return;
      }
      packets := packets + [decoded[..n]];
    }

    /** The body of the read loop for one chunk returned by `read`. */
    method OnChunk(chunk: seq<byte>)
      modifies this
      ensures State() == Feed(maxCobsFrameBytes, old(State()), chunk)
    {
      hide ProcessFrame;
      for i := 0 to |chunk|
        invariant State() == Feed(maxCobsFrameBytes, old(State()), chunk[..i])
      {
        assert chunk[..i + 1][..i] == chunk[..i];
        var b := chunk[i];
        if proto == UnknownProto {
          Detect(b);
        }
        if proto == CobsProto {
          if b == 0 {
            if cobsAcc != [] {
              ProcessCobsFrame();
            }
            cobsAcc := [];
            inCobsFrame := false;
            continue;
          }
          if !inCobsFrame {
            inCobsFrame := true;
            cobsAcc := [];
          }
          if |cobsAcc| >= maxCobsFrameBytes {
            parseErrors := parseErrors + 1;
            cobsAcc := [];
            inCobsFrame := false;
            continue;
          }
          cobsAcc := cobsAcc + [b];
        }
      }
      assert chunk[..|chunk|] == chunk;
    }
  }
}
