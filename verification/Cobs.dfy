/**
 * Consistent Overhead Byte Stuffing as both ends of the sensor link use it.
 * `Stuff` is the block form of the encoding; the two back-patching encoders refine it,
 * and the decoder inverts it.
 */
module Cobs {
  import opened Common

  // ----- the encoding, block by block

  /** Longest zero-free prefix of `p`, cut at 254 bytes. */
  function RunLength(p: seq<byte>, limit: nat := 254): (k: nat)
    ensures k <= limit && k <= |p|
    ensures forall i :: 0 <= i < k ==> p[i] != 0
    ensures k < limit && k < |p| ==> p[k] == 0
  {
    if limit == 0 || p == [] || p[0] == 0 then 0
    else 1 + RunLength(p[1..], limit - 1)
  }

  function Group(run: seq<byte>): seq<byte>
    requires |run| <= 254
  {
    [|run| + 1] + run
  }

  /** A zero ends a group and is dropped; 254 zero-free bytes end one with nothing dropped. */
  function Stuff(p: seq<byte>): (s: seq<byte>)
    decreases |p|
  {
    var k := RunLength(p);
    if k == 254 then Group(p[..k]) + Stuff(p[k..])
    else if k == |p| then Group(p)
    else Group(p[..k]) + Stuff(p[k + 1..])
  }

  /** What goes on the wire for payload `p`. */
  function Frame(p: seq<byte>): seq<byte> { [0] + Stuff(p) + [0] }

  predicate ZeroFree(s: seq<byte>) { forall i :: 0 <= i < |s| ==> s[i] != 0 }

  lemma RunLengthIs(p: seq<byte>, k: nat)
    requires k <= |p| && k <= 254 && ZeroFree(p[..k])
    requires k == 254 || k == |p| || p[k] == 0
    ensures RunLength(p) == k
  {
    assert forall i :: 0 <= i < k ==> p[..k][i] == p[i];
  }

  /** A zero-free prefix followed by a zero, or of 254 bytes, is the first group. */
  lemma {:induction false} StuffSplit(p: seq<byte>, k: nat)
    requires k <= |p| && ZeroFree(p[..k])
    ensures k < |p| && k < 254 && p[k] == 0 ==> Stuff(p) == Group(p[..k]) + Stuff(p[k + 1..])
    ensures k == 254 ==> Stuff(p) == Group(p[..k]) + Stuff(p[k..])
    ensures k == |p| && k < 254 ==> Stuff(p) == Group(p)
  {
    if k == 254 || (k < 254 && (k == |p| || p[k] == 0)) {
      RunLengthIs(p, k);
    }
  }

  /** A stuffed payload holds no delimiter, and costs one byte plus one per 254. */
  lemma {:induction false} StuffShape(p: seq<byte>)
    ensures ZeroFree(Stuff(p))
    ensures |p| + 1 <= |Stuff(p)| <= |p| + 1 + |p| / 254
    decreases |p|
  {
    var k := RunLength(p);
    if k == 254 {
      StuffShape(p[k..]);
    } else if k < |p| {
      StuffShape(p[k + 1..]);
    }
  }

  // ----- decoding

  function After(written: seq<byte>, rest: Option<seq<byte>>): Option<seq<byte>> {
    match rest
    case None => None
    case Some(w) => Some(written + w)
  }

  /**
   * Everything the decoder writes for `s` into a buffer with room for `room` bytes,
   * the phantom zero after the last group included; None when it gives up.
   */
  function Unstuff(s: seq<byte>, room: nat): Option<seq<byte>>
    decreases |s|
  {
    if s == [] || s[0] == 0 then Some([])
    else
      var k := s[0] - 1;
      if k > |s| - 1 || k > room then None
      else
        var written := if s[0] < 255 then s[1..1 + k] + [0] else s[1..1 + k];
        if |written| > room then None
        else
          After(written, Unstuff(s[1 + k..], room - |written|))
  }

  function DropLastZero(w: seq<byte>): seq<byte> {
    if w != [] && w[|w| - 1] == 0 then w[..|w| - 1] else w
  }

  /** The decoded payload; empty when decoding fails. */
  function Decoded(s: seq<byte>, room: nat): seq<byte> {
    if |s| < 2 then []
    else
      match Unstuff(s, room)
      case None => []
      case Some(w) => DropLastZero(w)
  }

  /** What the decoder writes for one group, phantom zero included. */
  function Written(run: seq<byte>): seq<byte> {
    if |run| == 254 then run else run + [0]
  }

  lemma UnstuffNothing(w: seq<byte>, room: nat)
    ensures After(w, Unstuff([], room)) == Some(w)
  {
    assert w + [] == w;
  }

  lemma {:induction false} UnstuffGroup(run: seq<byte>, rest: seq<byte>, room: nat)
    requires |run| <= 254
    ensures Unstuff(Group(run) + rest, room) ==
            if |Written(run)| > room then None
            else After(Written(run), Unstuff(rest, room - |Written(run)|))
  {
    var s := Group(run) + rest;
    assert s[1..1 + |run|] == run;
    assert s[1 + |run|..] == rest;
  }

  lemma {:induction false} UnstuffStep(s: seq<byte>, room: nat)
    requires s != []
    ensures s[0] == 0 ==> Unstuff(s, room) == Some([])
    ensures s[0] != 0 && (s[0] > |s| || |Written(s[1..s[0]])| > room) ==> Unstuff(s, room) == None
    ensures s[0] != 0 && s[0] <= |s| && |Written(s[1..s[0]])| <= room ==>
              Unstuff(s, room) ==
              After(Written(s[1..s[0]]), Unstuff(s[s[0]..], room - |Written(s[1..s[0]])|))
  {
    if s[0] != 0 && s[0] <= |s| {
      assert s == Group(s[1..s[0]]) + s[s[0]..];
      UnstuffGroup(s[1..s[0]], s[s[0]..], room);
    }
  }

  lemma AfterAfter(a: seq<byte>, b: seq<byte>, rest: Option<seq<byte>>)
    ensures After(a, After(b, rest)) == After(a + b, rest)
  {
    if rest.Some? {
      assert a + (b + rest.value) == a + b + rest.value;
    }
  }

  lemma {:induction false} UnstuffStuff(p: seq<byte>, room: nat)
    ensures Unstuff(Stuff(p), room) == if |p| + 1 <= room then Some(p + [0]) else None
    decreases |p|
  {
    hide Stuff, Unstuff;
    var k := RunLength(p);
    StuffSplit(p, k);
    if k == |p| && k < 254 {
      UnstuffGroup(p, [], room);
      assert Group(p) + [] == Group(p) && p[..k] == p;
      if |p| + 1 <= room {
        UnstuffNothing(p + [0], room - |p| - 1);
      }
    } else {
      var next := if k == 254 then k else k + 1;
      UnstuffGroup(p[..k], Stuff(p[next..]), room);
      if next <= room {
        UnstuffStuff(p[next..], room - next);
      }
      assert Written(p[..k]) == p[..next];
      assert p[..next] + (p[next..] + [0]) == p + [0];
    }
  }

  /**
   * Decoding the body of an encoded payload gives the payload back exactly when the buffer
   * also has room for the phantom zero, and gives nothing otherwise.
   */
  lemma {:induction false} RoundTrip(p: seq<byte>, room: nat)
    requires p != []
    ensures Decoded(Stuff(p), room) == if |p| + 1 <= room then p else []
    ensures Decoded(Stuff(p), room) == p <==> |p| + 1 <= room
  {
    hide Stuff, Unstuff;
    StuffShape(p);
    UnstuffStuff(p, room);
    assert (p + [0])[..|p|] == p;
  }

  /** No two payloads share an encoding. */
  lemma StuffInjective(p: seq<byte>, q: seq<byte>)
    requires Stuff(p) == Stuff(q)
    ensures p == q
  {
    hide Stuff, Unstuff;
    var room := |p| + |q| + 1;
    UnstuffStuff(p, room);
    UnstuffStuff(q, room);
    assert (p + [0])[..|p|] == p;
    assert p + [0] == q + [0];
    assert (q + [0])[..|q|] == q;
  }

  // ----- the code

  /**
   * The first `i` bytes of the payload are encoded: `closed` holds the finished groups and
   * `run` the bytes of the group that has been open since `start`.
   */
  ghost predicate Open(src: seq<byte>, start: nat, i: nat, closed: seq<byte>, run: seq<byte>) {
    start <= i <= |src| && run == src[start..i] && |run| <= 253 && ZeroFree(run)
    && closed + Stuff(src[start..]) == Stuff(src)
  }

  lemma OpenAtStart(src: seq<byte>)
    ensures Open(src, 0, 0, [], [])
  {
    hide Stuff;
    assert src[0..] == src;
  }

  lemma OpenAppend(src: seq<byte>, start: nat, i: nat, closed: seq<byte>, run: seq<byte>)
    requires i < |src| && Open(src, start, i, closed, run) && src[i] != 0 && |run| < 253
    ensures Open(src, start, i + 1, closed, run + [src[i]])
  {
    hide Stuff;
    assert run + [src[i]] == src[start..i + 1];
  }

  /** A zero closes the open group and is itself dropped. */
  lemma OpenAtZero(src: seq<byte>, start: nat, i: nat, closed: seq<byte>, run: seq<byte>)
    requires i < |src| && Open(src, start, i, closed, run) && src[i] == 0
    ensures Open(src, i + 1, i + 1, closed + Group(run), [])
  {
    hide Stuff;
    var tail := src[start..];
    assert tail[..i - start] == run;
    assert tail[i + 1 - start..] == src[i + 1..];
    StuffSplit(tail, i - start);
  }

  /** The 254th byte closes it with nothing dropped. */
  lemma OpenFull(src: seq<byte>, start: nat, i: nat, closed: seq<byte>, run: seq<byte>)
    requires i < |src| && Open(src, start, i, closed, run) && src[i] != 0 && |run| == 253
    ensures Open(src, i + 1, i + 1, closed + Group(run + [src[i]]), [])
  {
    hide Stuff;
    var tail := src[start..];
    assert tail[..254] == run + [src[i]];
    assert tail[254..] == src[i + 1..];
    StuffSplit(tail, 254);
  }

  lemma OpenAtEnd(src: seq<byte>, start: nat, closed: seq<byte>, run: seq<byte>)
    requires Open(src, start, |src|, closed, run)
    ensures closed + Group(run) == Stuff(src)
  {
    hide Stuff;
    var tail := src[start..];
    assert tail[..|tail|] == run;
    StuffSplit(tail, |tail|);
  }

  /** The buffer holds the delimiter, the closed groups, a hole for a code byte, and the open group. */
  ghost predicate Holds(out: array<byte>, write: nat, closed: seq<byte>, run: seq<byte>)
    reads out
  {
    write == 2 + |closed| + |run| <= out.Length
    && out[..write] == [0] + closed + [out[1 + |closed|]] + run
  }

  /** Patches the code byte of the open group. */
  method Patch(out: array<byte>, codePos: nat, code: byte, write: nat, ghost closed: seq<byte>, ghost run: seq<byte>)
    requires Holds(out, write, closed, run)
    requires codePos == 1 + |closed| && code == |run| + 1 <= 255 && write < out.Length
    modifies out
    ensures out[..write] == [0] + (closed + Group(run))
    ensures Holds(out, write + 1, closed + Group(run), [])
    ensures forall k :: write <= k < out.Length ==> out[k] == old(out[k])
  {
    out[codePos] := code;
    assert out[..write] == old(out[..write])[codePos := code];
    assert out[..write + 1] == out[..write] + [out[write]];
  }

  method Append(out: array<byte>, b: byte, write: nat, ghost closed: seq<byte>, ghost run: seq<byte>)
    requires Holds(out, write, closed, run) && write < out.Length
    modifies out
    ensures Holds(out, write + 1, closed, run + [b])
    ensures forall k :: write < k < out.Length ==> out[k] == old(out[k])
  {
    out[write] := b;
    assert out[..write + 1] == old(out[..write]) + [b];
  }

  /** The in-place loop the gateway and the firmware share: code bytes are patched in afterwards. */
  method EncodeInto(src: seq<byte>, out: array<byte>) returns (write: nat)
    requires src != []
    requires |src| + |src| / 254 + 3 <= out.Length
    modifies out
    ensures write <= |src| + |src| / 254 + 3
    ensures out[..write] == Frame(src)
    ensures forall k :: write <= k < out.Length ==> out[k] == old(out[k])
  {
    hide Stuff, Open;
    out[0] := 0;
    write := 2;
    var codePos: nat := 1;
    var code: byte := 1;
    ghost var start: nat, full: nat, closed: seq<byte>, run: seq<byte> := 0, 0, [], [];
    OpenAtStart(src);

    for i := 0 to |src|
      invariant Open(src, start, i, closed, run) && Holds(out, write, closed, run)
      invariant code == |run| + 1 <= 254 && codePos == 1 + |closed|
      invariant write == 2 + i + full && 254 * full + |run| <= i
      invariant forall k :: write <= k < out.Length ==> out[k] == old(out[k])
    {
      if src[i] != 0 {
        Append(out, src[i], write, closed, run);
        write := write + 1;
        code := code + 1;
        if code == 255 {
          OpenFull(src, start, i, closed, run);
          Patch(out, codePos, code, write, closed, run + [src[i]]);
          closed, run := closed + Group(run + [src[i]]), [];
          codePos := write;
          write := write + 1;
          code := 1;
          start, full := i + 1, full + 1;
        } else {
          OpenAppend(src, start, i, closed, run);
          run := run + [src[i]];
        }
      } else {
        OpenAtZero(src, start, i, closed, run);
        Patch(out, codePos, code, write, closed, run);
        closed, run := closed + Group(run), [];
        codePos := write;
        write := write + 1;
        code := 1;
        start := i + 1;
      }
    }

    OpenAtEnd(src, start, closed, run);
    Patch(out, codePos, code, write, closed, run);
    out[write] := 0;
    write := write + 1;
    assert out[..write] == out[..write - 1] + [0];
  }

  /** The gateway's encoder: 0 and an untouched buffer unless the worst case fits. */
  method CobsEncode(src: seq<byte>, out: array<byte>) returns (n: nat)
    modifies out
    ensures n > 0 <==> src != [] && |src| + |src| / 254 + 3 <= out.Length
    ensures n > 0 ==> n <= |src| + |src| / 254 + 3 && out[..n] == Frame(src)
    ensures forall k :: n <= k < out.Length ==> out[k] == old(out[k])
  {
    if src == [] || out.Length < |src| + |src| / 254 + 3 {
      return 0;
    }
    n := EncodeInto(src, out);
    hide Stuff;
    StuffShape(src);
  }

  const COBS_MAX_PAYLOAD: nat := 200

  /** The firmware's encoder: same bytes on its shorter domain, with a wider safety margin. */
  method FirmwareCobsEncode(src: seq<byte>, out: array<byte>) returns (n: nat)
    modifies out
    ensures n > 0 <==> 0 < |src| <= COBS_MAX_PAYLOAD && |src| + 4 <= out.Length
    ensures n > 0 ==> n <= |src| + 3 && out[..n] == Frame(src)
    ensures forall k :: n <= k < out.Length ==> out[k] == old(out[k])
  {
    if |src| == 0 || |src| > COBS_MAX_PAYLOAD {
      return 0;
    }
    if out.Length < |src| + 2 + |src| / 254 + 2 {
      return 0;
    }
    n := EncodeInto(src, out);
    hide Stuff;
    StuffShape(src);
  }

  /** One group: its data bytes, then the zero that ended it unless the group was full. */
  method CopyGroup(src: seq<byte>, from: nat, code: byte, dst: array<byte>, at: nat)
    returns (ok: bool, read: nat, write: nat)
    requires 1 <= code && from <= |src| && at <= dst.Length
    modifies dst
    ensures ok <==> from + code - 1 <= |src| && at + |Written(src[from..from + code - 1])| <= dst.Length
    ensures ok ==> read == from + code - 1 && write <= dst.Length
    ensures ok ==> dst[..write] == old(dst[..at]) + Written(src[from..read])
  {
    read, write := from, at;
    for i := 1 to code
      invariant read == from + i - 1 <= |src| && write == at + i - 1 <= dst.Length
      invariant dst[..write] == old(dst[..at]) + src[from..read]
    {
      if read >= |src| || write >= dst.Length {
        return false, read, write;
      }
      dst[write] := src[read];
      assert dst[..write + 1] == dst[..write] + [src[read]];
      write, read := write + 1, read + 1;
    }
    if code < 255 {
      if write >= dst.Length {
        return false, read, write;
      }
      dst[write] := 0;
      assert dst[..write + 1] == dst[..write] + [0];
      write := write + 1;
    }
    return true, read, write;
  }

  /** What is left of a decode: `done` is written, `rest` of the input is still to be read. */
  ghost predicate Continues(src: seq<byte>, room: nat, done: seq<byte>, rest: seq<byte>) {
    |done| <= room && Unstuff(src, room) == After(done, Unstuff(rest, room - |done|))
  }

  lemma ContinuesAtStart(src: seq<byte>, room: nat)
    ensures Continues(src, room, [], src)
  {
    hide Unstuff;
    if Unstuff(src, room).Some? {
      assert [] + Unstuff(src, room).value == Unstuff(src, room).value;
    }
  }

  /** One more group read: the decode fails, ends, or continues with that group written. */
  lemma ContinuesStep(src: seq<byte>, room: nat, done: seq<byte>, rest: seq<byte>)
    requires Continues(src, room, done, rest) && rest != []
    ensures rest[0] == 0 ==> Unstuff(src, room) == Some(done)
    ensures rest[0] != 0 && (rest[0] > |rest| || |done + Written(rest[1..rest[0]])| > room) ==>
              Unstuff(src, room) == None
    ensures rest[0] != 0 && rest[0] <= |rest| && |done + Written(rest[1..rest[0]])| <= room ==>
              Continues(src, room, done + Written(rest[1..rest[0]]), rest[rest[0]..])
  {
    UnstuffStep(rest, room - |done|);
    hide Unstuff;
    assert done + [] == done;
    if rest[0] != 0 && rest[0] <= |rest| && |done + Written(rest[1..rest[0]])| <= room {
      AfterAfter(done, Written(rest[1..rest[0]]),
                 Unstuff(rest[rest[0]..], room - |done| - |Written(rest[1..rest[0]])|));
    }
  }

  lemma ContinuesAtEnd(src: seq<byte>, room: nat, done: seq<byte>)
    requires Continues(src, room, done, [])
    ensures Unstuff(src, room) == Some(done)
  {
    assert done + [] == done;
  }

  method CobsDecode(src: seq<byte>, dst: array<byte>) returns (n: nat)
    modifies dst
    ensures n <= dst.Length
    ensures dst[..n] == Decoded(src, dst.Length)
  {
    hide Unstuff;
    if |src| < 2 {
      return 0;
    }
    var write: nat, read: nat := 0, 0;
    var stop := false;
    ContinuesAtStart(src, dst.Length);
    assert src[read..] == src && dst[..write] == [];
    while read < |src| && !stop
      invariant read <= |src| && write <= dst.Length
      invariant if stop then Unstuff(src, dst.Length) == Some(dst[..write])
                else Continues(src, dst.Length, dst[..write], src[read..])
      decreases |src| - read, !stop
    {
      ghost var rest := src[read..];
      ContinuesStep(src, dst.Length, dst[..write], rest);
      var code := src[read];
      read := read + 1;
      if code == 0 {
        stop := true;
      } else {
        var ok;
        assert code <= |rest| ==> src[read..read + code - 1] == rest[1..code];
        assert code <= |rest| ==> src[read + code - 1..] == rest[code..];
        ok, read, write := CopyGroup(src, read, code, dst, write);
        if !ok {
          return 0;
        }
      }
    }
    if !stop {
      ContinuesAtEnd(src, dst.Length, dst[..write]);
    }
    if write > 0 && dst[write - 1] == 0 {
      assert dst[..write - 1] == dst[..write][..write - 1];
      write := write - 1;
    }
    return write;
  }
}
