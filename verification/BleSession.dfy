/**
 * The session machine of the BLE link (vigia_edge_node/src/ble_gatt_node.cpp): the handshake and
 * control characteristics and the gate in front of telemetry. Cryptography and randomness are
 * parameters. A call that throws is None; the handler then ends where it was thrown, except for the
 * key agreement, whose exception the handler turns into an error reply.
 */
module BleSession {
  import opened Common

  type Bytes = seq<byte>

  const HELLO: byte := 0x01
  const CHALLENGE: byte := 0x02
  const RESPONSE: byte := 0x03
  const CONFIRM: byte := 0x04
  const ERROR: byte := 0xFF

  const REQUEST_256: byte := 0x10
  const REQUEST_512: byte := 0x11
  const PAUSE_STREAM: byte := 0x12
  const RESUME_STREAM: byte := 0x13
  const REKEY: byte := 0x20
  const PING: byte := 0xF0
  const SET_TTC_THRESHOLD: byte := 0xA0
  const ACK: byte := 0x00
  const NACK: byte := 0x01
  const PONG: byte := 0xF1

  const NONCE_BYTES := 32
  const PUB_BYTES := 65
  const RESPONSE_MIN_LEN := 1 + NONCE_BYTES + PUB_BYTES + 1
  const KEY_BYTES := 32

  /** "vigia-ble-v1" */
  const HKDF_INFO: Bytes := [0x76, 0x69, 0x67, 0x69, 0x61, 0x2D, 0x62, 0x6C, 0x65, 0x2D, 0x76, 0x31]

  /** "VIGIA-CONFIRM" */
  const CONFIRM_LABEL: Bytes := [0x56, 0x49, 0x47, 0x49, 0x41, 0x2D, 0x43, 0x4F, 0x4E, 0x46, 0x49, 0x52, 0x4D]

  /** The identity key, if one is loaded, and the primitives of the handshake. */
  datatype Crypto = Crypto(
    identityLoaded: bool,
    publicKey: Bytes,
    sign: Bytes -> Option<Bytes>,
    verifyPeer: (Bytes, Bytes, Bytes) -> bool,
    sharedSecret: Bytes -> Option<Bytes>,
    hkdf: (Bytes, Bytes, Bytes) -> Option<Bytes>,
    hmac: (Bytes, Bytes) -> Option<Bytes>)

  /** Derived keys have the length that was asked for. */
  ghost predicate KeysAreFull(c: Crypto) {
    forall secret: Bytes, salt: Bytes, info: Bytes ::
      c.hkdf(secret, salt, info).Some? ==> |c.hkdf(secret, salt, info).value| == KEY_BYTES
  }

  ghost predicate HmacNeverFails(c: Crypto) { forall key: Bytes, data: Bytes :: c.hmac(key, data).Some? }

  datatype Phase = Idle | HelloReceived | Bound | Failed

  datatype State = State(
    phase: Phase, sessionKey: Bytes, noncePi: Bytes, paused: bool, dims: int, ttcThreshold: real,
    handshakeOut: Bytes, controlOut: Bytes)

  const START := State(Idle, [], [], false, 256, 4.5, [], [])

  // ----- the fields of a RESPONSE

  predicate LongEnough(val: Bytes) { |val| >= RESPONSE_MIN_LEN }

  function NoncePhone(val: Bytes): Bytes
    requires LongEnough(val)
  {
    val[1..1 + NONCE_BYTES]
  }

  function PhonePub(val: Bytes): Bytes
    requires LongEnough(val)
  {
    val[1 + NONCE_BYTES..1 + NONCE_BYTES + PUB_BYTES]
  }

  function PhoneSig(val: Bytes): Bytes
    requires LongEnough(val)
  {
    val[1 + NONCE_BYTES + PUB_BYTES..]
  }

  /** The RESPONSE is signed over the nonce of the CHALLENGE, and the key agreement succeeds. */
  predicate Authentic(c: Crypto, noncePi: Bytes, val: Bytes) {
    && LongEnough(val)
    && PhonePub(val)[0] == 0x04
    && c.verifyPeer(PhonePub(val), NoncePhone(val) + noncePi + PhonePub(val), PhoneSig(val))
    && c.sharedSecret(PhonePub(val)).Some?
  }

  /** The key of an authentic exchange: HKDF over the shared secret, salted with both nonces. */
  function DerivedKey(c: Crypto, noncePi: Bytes, val: Bytes): Option<Bytes>
    requires Authentic(c, noncePi, val)
  {
    c.hkdf(c.sharedSecret(PhonePub(val)).value, noncePi + NoncePhone(val), HKDF_INFO)
  }

  function ErrorCode(c: Crypto, noncePi: Bytes, val: Bytes): byte
    requires !Authentic(c, noncePi, val)
  {
    if !LongEnough(val) then 0x02
    else if PhonePub(val)[0] != 0x04 then 0x03
    else if !c.verifyPeer(PhonePub(val), NoncePhone(val) + noncePi + PhonePub(val), PhoneSig(val)) then 0x04
    else 0x05
  }

  // ----- one write or tick

  function AfterHello(c: Crypto, s: State, nonce: Bytes): State {
    if !c.identityLoaded then s.(phase := Failed, sessionKey := [], handshakeOut := [ERROR, 0x01])
    else
      var t := s.(phase := HelloReceived, sessionKey := [], noncePi := nonce);
      match c.sign(nonce + c.publicKey)
      case None => t
      case Some(sig) => t.(handshakeOut := [CHALLENGE] + nonce + c.publicKey + sig)
  }

  function AfterResponse(c: Crypto, s: State, val: Bytes): State {
    if s.phase != HelloReceived then s
    else if !Authentic(c, s.noncePi, val) then
      s.(phase := Failed, handshakeOut := [ERROR, ErrorCode(c, s.noncePi, val)])
    else
      match DerivedKey(c, s.noncePi, val)
      case None => s
      case Some(key) =>
        match c.hmac(key, CONFIRM_LABEL + s.noncePi + NoncePhone(val))
        case None => s.(sessionKey := key)
        case Some(mac) => s.(phase := Bound, sessionKey := key, handshakeOut := [CONFIRM] + mac)
  }

  function AfterHandshake(c: Crypto, s: State, val: Bytes, nonce: Bytes): State {
    if val == [] then s
    else if val[0] == HELLO then AfterHello(c, s, nonce)
    else if val[0] == RESPONSE then AfterResponse(c, s, val)
    else s
  }

  /** The little-endian word after the opcode. */
  function ThresholdBits(val: Bytes): nat
    requires |val| >= 5
  {
    LittleEndian(val[1..5])
  }

  /** The threshold that a write sets: a number strictly between 0 and 60. */
  function NewThreshold(val: Bytes, old_: real): real {
    if |val| < 5 then old_
    else
      match Float32(ThresholdBits(val))
      case None => old_
      case Some(v) => if 0.0 < v < 60.0 then v else old_
  }

  predicate NeedsSession(op: byte) { op == PAUSE_STREAM || op == RESUME_STREAM || op == REKEY }

  function AfterControl(s: State, val: Bytes): State {
    if val == [] then s
    else
      var op := val[0];
      if NeedsSession(op) && s.phase != Bound then s.(controlOut := [op, NACK, 0x01])
      else if op == PING then s.(controlOut := [PONG])
      else if op == REQUEST_256 then s.(dims := 256, controlOut := [op, ACK])
      else if op == REQUEST_512 then s.(dims := 512, controlOut := [op, ACK])
      else if op == PAUSE_STREAM then s.(paused := true, controlOut := [op, ACK])
      else if op == RESUME_STREAM then s.(paused := false, controlOut := [op, ACK])
      else if op == REKEY then s.(phase := Idle, sessionKey := [], controlOut := [op, ACK])
      else if op == SET_TTC_THRESHOLD then
        s.(ttcThreshold := NewThreshold(val, s.ttcThreshold), controlOut := [op, ACK])
      else s.(controlOut := [op, ACK])
  }

  /** What a due telemetry tick sends when `frame` is the encoded latent frame, empty if there is none. */
  function Telemetry(c: Crypto, s: State, frame: Bytes): Option<Bytes> {
    if (s.phase == Bound || !c.identityLoaded) && !s.paused && frame != [] then Some(frame) else None
  }

  class Session {
    const crypto: Crypto
    var hsState: Phase
    var sessionKey: Bytes
    var hsNoncePi: Bytes
    var streamPaused: bool
    var defaultDims: int
    var ttcThresholdS: real
    var hsNotifyBuf: Bytes
    var respNotifyBuf: Bytes

    function Now(): State
      reads this
    {
      State(hsState, sessionKey, hsNoncePi, streamPaused, defaultDims, ttcThresholdS, hsNotifyBuf, respNotifyBuf)
    }

    constructor (crypto: Crypto)
      ensures this.crypto == crypto && Now() == START
    {
      this.crypto := crypto;
      hsState, sessionKey, hsNoncePi := Idle, [], [];
      streamPaused, defaultDims, ttcThresholdS, hsNotifyBuf, respNotifyBuf := false, 256, 4.5, [], [];
    }

    method WriteHandshake(val: Bytes, nonce: Bytes)
      modifies this
      ensures Now() == AfterHandshake(crypto, old(Now()), val, nonce)
    {
      if |val| == 0 {
        return;
      }
      if val[0] == HELLO {
        OnHello(nonce);
      } else if val[0] == RESPONSE {
        OnResponse(val);
      }
    }

    method OnHello(nonce: Bytes)
      modifies this
      ensures Now() == AfterHello(crypto, old(Now()), nonce)
    {
      hsState := HelloReceived;
      sessionKey := [];
      if !crypto.identityLoaded {
        hsNotifyBuf := [ERROR, 0x01];
        hsState := Failed;
        return;
      }
      hsNoncePi := nonce;
      var sig := crypto.sign(hsNoncePi + crypto.publicKey);
      if sig.None? {
        return;
      }
      hsNotifyBuf := [CHALLENGE];
      hsNotifyBuf := hsNotifyBuf + hsNoncePi;
      hsNotifyBuf := hsNotifyBuf + crypto.publicKey;
      hsNotifyBuf := hsNotifyBuf + sig.value;
    }

    method OnResponse(val: Bytes)
      modifies this
      ensures Now() == AfterResponse(crypto, old(Now()), val)
    {
      if hsState != HelloReceived {
        return;
      }
      if |val| < RESPONSE_MIN_LEN {
        hsNotifyBuf, hsState := [ERROR, 0x02], Failed;
        return;
      }
      var noncePhone := val[1..1 + NONCE_BYTES];
      var phonePub := val[1 + NONCE_BYTES..1 + NONCE_BYTES + PUB_BYTES];
      var phoneSig := val[1 + NONCE_BYTES + PUB_BYTES..];
      if phonePub[0] != 0x04 {
        hsNotifyBuf, hsState := [ERROR, 0x03], Failed;
        return;
      }
      var signedData := noncePhone + hsNoncePi + phonePub;
      if !crypto.verifyPeer(phonePub, signedData, phoneSig) {
        hsNotifyBuf, hsState := [ERROR, 0x04], Failed;
        return;
      }
      var sharedSecret := crypto.sharedSecret(phonePub);
      if sharedSecret.None? {
        hsNotifyBuf, hsState := [ERROR, 0x05], Failed;
        return;
      }
      var salt := hsNoncePi + noncePhone;
      var key := crypto.hkdf(sharedSecret.value, salt, HKDF_INFO);
      if key.None? {
        return;
      }
      sessionKey := key.value;
      var hmacData := CONFIRM_LABEL + hsNoncePi + noncePhone;
      var confirmMac := crypto.hmac(sessionKey, hmacData);
      if confirmMac.None? {
        return;
      }
      hsNotifyBuf := [CONFIRM] + confirmMac.value;
      hsState := Bound;
    }

    method WriteControl(val: Bytes)
      modifies this
      ensures Now() == AfterControl(old(Now()), val)
    {
      hide Float32, ThresholdBits;
      if |val| == 0 {
        return;
      }
      var op := val[0];
      var bound := hsState == Bound;
      if (op == PAUSE_STREAM || op == RESUME_STREAM || op == REKEY) && !bound {
        respNotifyBuf := [op, NACK, 0x01];
        return;
      }
      if op == REQUEST_256 {
        defaultDims := 256;
      } else if op == REQUEST_512 {
        defaultDims := 512;
      } else if op == PAUSE_STREAM {
        streamPaused := true;
      } else if op == RESUME_STREAM {
        streamPaused := false;
      } else if op == PING {
        respNotifyBuf := [PONG];
        return;
      } else if op == REKEY {
        sessionKey := [];
        hsState := Idle;
      } else if op == SET_TTC_THRESHOLD && |val| >= 5 {
        var threshold := Float32(ThresholdBits(val));
        if threshold.Some? && threshold.value > 0.0 && threshold.value < 60.0 {
          ttcThresholdS := threshold.value;
        }
      }
      respNotifyBuf := [op, ACK];
    }

    method Tick(frame: Bytes) returns (sent: Option<Bytes>)
      ensures sent == Telemetry(crypto, Now(), frame)
    {
      var authOk := hsState == Bound || !crypto.identityLoaded;
      if authOk && !streamPaused {
        if |frame| != 0 {
          return Some(frame);
        }
      }
      return None;
    }
  }

  // ----- whole runs

  datatype Event = Handshake(val: Bytes, nonce: Bytes) | Control(val: Bytes) | Due(frame: Bytes)

  function Step(c: Crypto, s: State, e: Event): State {
    match e
    case Handshake(val, nonce) => AfterHandshake(c, s, val, nonce)
    case Control(val) => AfterControl(s, val)
    case Due(_) => s
  }

  function After(c: Crypto, events: seq<Event>): State {
    if events == [] then START else Step(c, After(c, events[..|events| - 1]), events[|events| - 1])
  }

  predicate IsHello(e: Event) { e.Handshake? && e.val != [] && e.val[0] == HELLO }

  predicate IsResponse(e: Event) { e.Handshake? && e.val != [] && e.val[0] == RESPONSE }

  predicate IsRekey(e: Event) { e.Control? && e.val != [] && e.val[0] == REKEY }

  /** What the session key says about the phase, with or without failing HMAC calls. */
  ghost predicate KeyFits(c: Crypto, s: State) {
    && (s.phase == Bound ==> |s.sessionKey| == KEY_BYTES)
    && (HmacNeverFails(c) && s.phase != Bound ==> s.sessionKey == [])
  }

  lemma KeyIsFull(c: Crypto, noncePi: Bytes, val: Bytes)
    requires KeysAreFull(c)
    ensures Authentic(c, noncePi, val) && DerivedKey(c, noncePi, val).Some?
            ==> |DerivedKey(c, noncePi, val).value| == KEY_BYTES
  {}

  lemma StepKeepsKey(c: Crypto, s: State, e: Event)
    requires KeysAreFull(c) && KeyFits(c, s)
    ensures KeyFits(c, Step(c, s, e))
  {
    if IsResponse(e) {
      KeyIsFull(c, s.noncePi, e.val);
    }
    hide Authentic, DerivedKey;
  }

  lemma {:induction false} RunKeepsKey(c: Crypto, events: seq<Event>)
    requires KeysAreFull(c)
    ensures KeyFits(c, After(c, events))
  {
    hide Step, KeyFits;
    if events == [] {
      StartKeyFits(c);
    } else {
      RunKeepsKey(c, events[..|events| - 1]);
      StepKeepsKey(c, After(c, events[..|events| - 1]), events[|events| - 1]);
    }
  }

  lemma StartKeyFits(c: Crypto)
    ensures KeyFits(c, START)
  {}

  /** If HMAC calls never fail, a session key exists exactly while the session is bound. */
  lemma {:induction false} KeyIffBound(c: Crypto, events: seq<Event>)
    requires KeysAreFull(c)
    ensures After(c, events).phase == Bound ==> After(c, events).sessionKey != []
    ensures HmacNeverFails(c) ==> (After(c, events).sessionKey != [] <==> After(c, events).phase == Bound)
  {
    RunKeepsKey(c, events);
  }

  /** Where one HMAC call fails, a key is left behind in a phase that is not bound. */
  lemma FailedHmacLeavesKey(c: Crypto, s: State, val: Bytes)
    requires KeysAreFull(c) && KeyFits(c, s) && s.phase == HelloReceived && val != [] && val[0] == RESPONSE
    requires Authentic(c, s.noncePi, val) && DerivedKey(c, s.noncePi, val).Some?
    ensures var t := AfterHandshake(c, s, val, []);
            (t.sessionKey != [] <==> t.phase == Bound)
            <==> c.hmac(DerivedKey(c, s.noncePi, val).value, CONFIRM_LABEL + s.noncePi + NoncePhone(val)).Some?
  {
    KeyIsFull(c, s.noncePi, val);
    hide Authentic, DerivedKey;
  }

  // ----- a key outside a bound session

  ghost predicate LatestHello(events: seq<Event>, h: nat) {
    h < |events| && IsHello(events[h]) && forall i :: h < i < |events| ==> !IsHello(events[i])
  }

  /** `e` is an authentic RESPONSE, and both its key and its confirmation can be computed. */
  predicate Binds(c: Crypto, nonce: Bytes, e: Event) {
    && IsResponse(e) && Authentic(c, nonce, e.val) && DerivedKey(c, nonce, e.val).Some?
    && c.hmac(DerivedKey(c, nonce, e.val).value, CONFIRM_LABEL + nonce + NoncePhone(e.val)).Some?
  }

  /** `e` is an authentic RESPONSE whose handling ends in a failed call. */
  predicate Throws(c: Crypto, nonce: Bytes, e: Event) {
    IsResponse(e) && Authentic(c, nonce, e.val) && !Binds(c, nonce, e)
  }

  /** The call that fails is the HMAC: by then the key is in place. */
  predicate Leaks(c: Crypto, nonce: Bytes, e: Event) {
    Throws(c, nonce, e) && DerivedKey(c, nonce, e.val).Some?
  }

  /**
   * The HMAC call of RESPONSE `r` to the latest HELLO `h` failed, and since then the session has
   * not been bound.
   */
  ghost predicate LeftBehind(c: Crypto, events: seq<Event>, h: nat, r: nat) {
    && LatestHello(events, h) && h < r < |events| && Leaks(c, events[h].nonce, events[r])
    && After(c, events[..r]).phase == HelloReceived
    && forall j :: r < j <= |events| ==> After(c, events[..j]).phase != Bound
  }

  lemma LeftBehindSnoc(c: Crypto, events: seq<Event>, e: Event, h: nat, r: nat)
    ensures LatestHello(events + [e], h) <==>
            if h == |events| then IsHello(e) else LatestHello(events, h) && !IsHello(e)
    ensures r < |events| ==>
              (LeftBehind(c, events + [e], h, r) <==>
               LeftBehind(c, events, h, r) && !IsHello(e) && After(c, events + [e]).phase != Bound)
  {
    hide Leaks, IsHello, After;
    var more := events + [e];
    assert more[|events|] == e && more[..|more|] == more;
    assert forall j :: 0 <= j <= |events| ==> more[..j] == events[..j];
    assert forall i :: 0 <= i < |events| ==> more[i] == events[i];
  }

  lemma LeftBehindNow(c: Crypto, events: seq<Event>, e: Event, h: nat)
    requires LatestHello(events, h) && !IsHello(e)
    ensures LeftBehind(c, events + [e], h, |events|) <==>
            && After(c, events).phase == HelloReceived && Leaks(c, events[h].nonce, e)
            && After(c, events + [e]).phase != Bound
  {
    LeftBehindSnoc(c, events, e, h, |events|);
    hide Leaks, IsHello, After;
    var more := events + [e];
    assert more[..|events|] == events && more[..|more|] == more && more[|events|] == e;
  }

  /** How one event moves key, nonce and phase. */
  lemma KeyStep(c: Crypto, s: State, e: Event)
    requires KeysAreFull(c)
    ensures var t := Step(c, s, e);
            && (IsHello(e) ==> t.sessionKey == [] && t.phase != Bound && (c.identityLoaded ==> t.noncePi == e.nonce)
                               && (t.phase == HelloReceived ==> c.identityLoaded))
            && (!IsHello(e) ==> t.noncePi == s.noncePi && (t.phase == HelloReceived ==> s.phase == HelloReceived))
            && (s.phase == HelloReceived && Leaks(c, s.noncePi, e) ==>
                  t.phase == HelloReceived && t.sessionKey != []
                  && Some(t.sessionKey) == DerivedKey(c, s.noncePi, e.val))
            && (!IsHello(e) && !(s.phase == HelloReceived && Leaks(c, s.noncePi, e)) && t.phase != Bound ==>
                  t.sessionKey == if s.phase == Bound then [] else s.sessionKey)
  {
    if IsResponse(e) {
      KeyIsFull(c, s.noncePi, e.val);
    }
    hide Authentic, DerivedKey;
  }

  /** What the key tells about the run, whether or not HMAC calls fail. */
  ghost predicate KeyExplained(c: Crypto, s: State, events: seq<Event>) {
    && (forall h: nat :: LatestHello(events, h) && c.identityLoaded ==> s.noncePi == events[h].nonce)
    && (s.phase == HelloReceived ==> c.identityLoaded && exists h: nat :: LatestHello(events, h))
    && (s.sessionKey != [] && s.phase != Bound ==>
          exists h: nat, r: nat :: LeftBehind(c, events, h, r)
                                   && Some(s.sessionKey) == DerivedKey(c, events[h].nonce, events[r].val))
    && (forall h: nat, r: nat :: LeftBehind(c, events, h, r) ==> s.sessionKey != [] && s.phase != Bound)
  }

  lemma HelloExplainsKey(c: Crypto, events: seq<Event>, e: Event)
    requires KeysAreFull(c) && KeyExplained(c, After(c, events), events) && IsHello(e)
    ensures KeyExplained(c, Step(c, After(c, events), e), events + [e])
  {
    KeyStep(c, After(c, events), e);
    forall h: nat, r: nat
      ensures LatestHello(events + [e], h) <==> h == |events|
      ensures !LeftBehind(c, events + [e], h, r)
    {
      LeftBehindSnoc(c, events, e, h, r);
    }
    hide Step, After, Leaks, IsHello;
    assert LatestHello(events + [e], |events|);
  }

  lemma OtherExplainsKey(c: Crypto, events: seq<Event>, e: Event)
    requires KeysAreFull(c) && KeyExplained(c, After(c, events), events) && !IsHello(e)
    ensures KeyExplained(c, Step(c, After(c, events), e), events + [e])
  {
    var s, t, more := After(c, events), Step(c, After(c, events), e), events + [e];
    KeyStep(c, s, e);
    assert After(c, more) == t by {
      assert more[..|events|] == events;
    }
    forall h: nat ensures LatestHello(more, h) <==> LatestHello(events, h) {
      LeftBehindSnoc(c, events, e, h, 0);
    }
    OldLeftBehind(c, events, e);
    NewLeftBehind(c, events, e);
    assert forall i :: 0 <= i < |events| ==> more[i] == events[i];
    hide Step, After, Leaks, IsHello, LeftBehind, LatestHello, DerivedKey;
    if t.sessionKey != [] && t.phase != Bound {
      if s.phase == HelloReceived && Leaks(c, s.noncePi, e) {
        var h: nat :| LatestHello(events, h);
        assert LeftBehind(c, more, h, |events|) && more[|events|] == e;
      } else {
        var h: nat, r: nat :| LeftBehind(c, events, h, r)
                              && Some(s.sessionKey) == DerivedKey(c, events[h].nonce, events[r].val);
        assert LeftBehind(c, more, h, r);
      }
    }
  }

  lemma OldLeftBehind(c: Crypto, events: seq<Event>, e: Event)
    requires !IsHello(e)
    ensures forall h: nat, r: nat :: LeftBehind(c, events, h, r) ==> h < r < |events|
    ensures forall h: nat, r: nat :: r != |events| ==>
              (LeftBehind(c, events + [e], h, r) <==>
               LeftBehind(c, events, h, r) && After(c, events + [e]).phase != Bound)
  {
    forall h: nat, r: nat | r != |events|
      ensures LeftBehind(c, events + [e], h, r) <==>
              LeftBehind(c, events, h, r) && After(c, events + [e]).phase != Bound
    {
      LeftBehindSnoc(c, events, e, h, r);
    }
  }

  lemma NewLeftBehind(c: Crypto, events: seq<Event>, e: Event)
    requires !IsHello(e)
    ensures forall h: nat :: LeftBehind(c, events + [e], h, |events|) ==> LatestHello(events, h)
    ensures forall h: nat :: LatestHello(events, h) ==>
              (LeftBehind(c, events + [e], h, |events|) <==>
               && After(c, events).phase == HelloReceived && Leaks(c, events[h].nonce, e)
               && After(c, events + [e]).phase != Bound)
  {
    forall h: nat ensures LeftBehind(c, events + [e], h, |events|) ==> LatestHello(events, h) {
      LeftBehindSnoc(c, events, e, h, |events|);
    }
    forall h: nat | LatestHello(events, h)
      ensures LeftBehind(c, events + [e], h, |events|) <==>
              && After(c, events).phase == HelloReceived && Leaks(c, events[h].nonce, e)
              && After(c, events + [e]).phase != Bound
    {
      LeftBehindNow(c, events, e, h);
    }
  }

  lemma {:induction false} RunExplainsKey(c: Crypto, events: seq<Event>)
    requires KeysAreFull(c)
    ensures KeyExplained(c, After(c, events), events)
  {
    hide Step, IsHello;
    if events != [] {
      var before, e := events[..|events| - 1], events[|events| - 1];
      assert before + [e] == events;
      RunExplainsKey(c, before);
      hide KeyExplained;
      if IsHello(e) {
        HelloExplainsKey(c, before, e);
      } else {
        OtherExplainsKey(c, before, e);
      }
    }
  }

  /**
   * In every run, whatever calls fail: a session key exists exactly while the session is bound or
   * has been left behind by a failed HMAC call, after which only a HELLO or a bound session that
   * is rekeyed removes it. A key left behind is that of such a RESPONSE.
   */
  lemma KeyIffBoundOrLeftBehind(c: Crypto, events: seq<Event>)
    requires KeysAreFull(c)
    ensures var s := After(c, events);
            && (s.sessionKey != [] <==>
                  s.phase == Bound || exists h: nat, r: nat :: LeftBehind(c, events, h, r))
            && (s.sessionKey != [] && s.phase != Bound ==>
                  exists h: nat, r: nat :: LeftBehind(c, events, h, r)
                                           && Some(s.sessionKey) == DerivedKey(c, events[h].nonce, events[r].val))
  {
    RunExplainsKey(c, events);
    RunKeepsKey(c, events);
    hide LeftBehind, DerivedKey;
  }

  // ----- where a bound session comes from

  /** `h` is the latest HELLO of the run, and the handling of every RESPONSE since has ended in a failed call. */
  ghost predicate Pending(c: Crypto, events: seq<Event>, h: nat) {
    && c.identityLoaded && h < |events| && IsHello(events[h])
    && forall i :: h < i < |events| ==>
         !IsHello(events[i]) && (IsResponse(events[i]) ==> Throws(c, events[h].nonce, events[i]))
  }

  /**
   * `h` is the latest HELLO, `r` the first RESPONSE after it whose handling ran to its end; it is
   * signed over the nonce of `h`, and no REKEY has followed it.
   */
  ghost predicate Opened(c: Crypto, events: seq<Event>, h: nat, r: nat) {
    && c.identityLoaded && h < r < |events| && IsHello(events[h]) && Binds(c, events[h].nonce, events[r])
    && (forall i :: h < i < |events| ==> !IsHello(events[i]))
    && (forall i :: h < i < r ==> (IsResponse(events[i]) ==> Throws(c, events[h].nonce, events[i])))
    && forall i :: r < i < |events| ==> !IsRekey(events[i])
  }

  /** What a state tells about the run that led to it. */
  ghost predicate Explains(c: Crypto, s: State, events: seq<Event>) {
    && (s.phase == HelloReceived <==> exists h: nat :: Pending(c, events, h))
    && (s.phase == Bound <==> exists h: nat, r: nat :: Opened(c, events, h, r))
    && (forall h: nat :: Pending(c, events, h) ==> s.noncePi == events[h].nonce)
    && forall h: nat, r: nat :: Opened(c, events, h, r) ==>
         Some(s.sessionKey) == DerivedKey(c, events[h].nonce, events[r].val)
  }

  /** A HELLO stays pending through everything but a HELLO or a RESPONSE that is answered. */
  predicate KeepsPending(c: Crypto, nonce: Bytes, e: Event) {
    !IsHello(e) && (IsResponse(e) ==> Throws(c, nonce, e))
  }

  lemma KindsDiffer(e: Event)
    ensures !(IsHello(e) && IsResponse(e)) && !(IsResponse(e) && IsRekey(e)) && !(IsHello(e) && IsRekey(e))
  {}

  lemma PendingSnoc(c: Crypto, events: seq<Event>, e: Event, h: nat)
    ensures Pending(c, events + [e], h) <==>
            if h == |events| then c.identityLoaded && IsHello(e)
            else Pending(c, events, h) && KeepsPending(c, events[h].nonce, e)
  {
    hide IsHello, IsResponse, Throws;
    var more := events + [e];
    assert more[|events|] == e;
    assert forall i :: 0 <= i < |events| ==> more[i] == events[i];
  }

  lemma OpenedSnoc(c: Crypto, events: seq<Event>, e: Event, h: nat, r: nat)
    ensures Opened(c, events + [e], h, r) <==>
            if r == |events| then Pending(c, events, h) && Binds(c, events[h].nonce, e)
            else Opened(c, events, h, r) && !IsHello(e) && !IsRekey(e)
  {
    KindsDiffer(e);
    var more := events + [e];
    assert more[|events|] == e;
    assert forall i :: 0 <= i < |events| ==> more[i] == events[i];
    if Pending(c, events, h) && Binds(c, events[h].nonce, e) {
      assert IsResponse(e);
    }
    hide Authentic, DerivedKey, IsHello, IsResponse, IsRekey, Throws;
  }

  /** No two HELLOs are both the latest. */
  lemma PendingIsUnique(c: Crypto, events: seq<Event>, h: nat, k: nat)
    requires Pending(c, events, h) && Pending(c, events, k)
    ensures h == k
  {}

  lemma PendingExcludesOpened(c: Crypto, events: seq<Event>, h: nat, k: nat, r: nat)
    requires Pending(c, events, h)
    ensures !Opened(c, events, k, r)
  {
    hide Authentic, DerivedKey, IsHello;
  }

  /** How one event moves the phase, in terms of what kind of event it is. */
  lemma StepPhases(c: Crypto, s: State, e: Event)
    ensures var t := Step(c, s, e);
            && (IsHello(e) ==> t.phase == (if c.identityLoaded then HelloReceived else Failed))
            && (IsHello(e) && c.identityLoaded ==> t.noncePi == e.nonce)
            && (IsResponse(e) && s.phase == HelloReceived && !Authentic(c, s.noncePi, e.val) ==> t.phase == Failed)
            && (s.phase == HelloReceived && Binds(c, s.noncePi, e) ==>
                  t.phase == Bound && Some(t.sessionKey) == DerivedKey(c, s.noncePi, e.val))
            && (s.phase == HelloReceived && Throws(c, s.noncePi, e) ==>
                  t.phase == HelloReceived && t.noncePi == s.noncePi)
            && (IsRekey(e) && s.phase == Bound ==> t.phase == Idle)
            && (!IsHello(e) && !(IsResponse(e) && s.phase == HelloReceived) && !(IsRekey(e) && s.phase == Bound) ==>
                  t.phase == s.phase && t.noncePi == s.noncePi && t.sessionKey == s.sessionKey)
  {
    hide Authentic, DerivedKey;
  }

  lemma PendingsSnoc(c: Crypto, events: seq<Event>, e: Event)
    ensures forall h: nat :: Pending(c, events + [e], h) <==>
              (if h == |events| then c.identityLoaded && IsHello(e)
               else Pending(c, events, h) && KeepsPending(c, events[h].nonce, e))
  {
    forall h: nat ensures Pending(c, events + [e], h) <==>
      if h == |events| then c.identityLoaded && IsHello(e)
      else Pending(c, events, h) && KeepsPending(c, events[h].nonce, e)
    {
      PendingSnoc(c, events, e, h);
    }
  }

  lemma OpenedsSnoc(c: Crypto, events: seq<Event>, e: Event)
    ensures forall h: nat, r: nat :: Opened(c, events + [e], h, r) <==>
              (if r == |events| then Pending(c, events, h) && Binds(c, events[h].nonce, e)
               else Opened(c, events, h, r) && !IsHello(e) && !IsRekey(e))
  {
    forall h: nat, r: nat ensures Opened(c, events + [e], h, r) <==>
      if r == |events| then Pending(c, events, h) && Binds(c, events[h].nonce, e)
      else Opened(c, events, h, r) && !IsHello(e) && !IsRekey(e)
    {
      OpenedSnoc(c, events, e, h, r);
    }
  }

  /** The events a pending or opened handshake consists of are the same in a longer run. */
  lemma EarlierEvents(c: Crypto, events: seq<Event>, e: Event)
    ensures forall h: nat :: Pending(c, events, h) ==> h < |events| && (events + [e])[h] == events[h]
    ensures forall h: nat, r: nat :: Opened(c, events, h, r) ==>
              h < r < |events| && (events + [e])[h] == events[h] && (events + [e])[r] == events[r]
  {
    hide IsHello, IsResponse, IsRekey, Binds, Throws;
  }

  lemma HelloExplains(c: Crypto, s: State, events: seq<Event>, e: Event)
    requires Explains(c, s, events) && IsHello(e)
    ensures Explains(c, Step(c, s, e), events + [e])
  {
    PendingsSnoc(c, events, e);
    OpenedsSnoc(c, events, e);
    KindsDiffer(e);
    StepPhases(c, s, e);
    assert forall nonce :: !Binds(c, nonce, e) && !KeepsPending(c, nonce, e);
    hide Step, Authentic, DerivedKey, IsHello, IsResponse, IsRekey, Pending, Opened, Binds, KeepsPending;
    assert c.identityLoaded ==> Pending(c, events + [e], |events|);
  }

  /** A RESPONSE that is answered, with CONFIRM or with an error. */
  lemma ResponseExplains(c: Crypto, s: State, events: seq<Event>, e: Event)
    requires Explains(c, s, events) && IsResponse(e) && s.phase == HelloReceived && !Throws(c, s.noncePi, e)
    ensures Explains(c, Step(c, s, e), events + [e])
  {
    PendingsSnoc(c, events, e);
    OpenedsSnoc(c, events, e);
    KindsDiffer(e);
    StepPhases(c, s, e);
    var h: nat :| Pending(c, events, h);
    forall k: nat, r: nat ensures !Opened(c, events, k, r) {
      PendingExcludesOpened(c, events, h, k, r);
    }
    forall k: nat | Pending(c, events, k) ensures k == h {
      PendingIsUnique(c, events, h, k);
    }
    assert !KeepsPending(c, s.noncePi, e);
    assert Binds(c, s.noncePi, e) <==> Authentic(c, s.noncePi, e.val);
    hide Step, Authentic, DerivedKey, IsHello, IsResponse, IsRekey, Pending, Opened, Binds, KeepsPending, Throws;
    var t, more := Step(c, s, e), events + [e];
    assert more[h] == events[h] && more[|events|] == e;
    assert Opened(c, more, h, |events|) <==> Authentic(c, s.noncePi, e.val);
  }

  /** A RESPONSE whose handling ends in a failed call leaves the HELLO pending. */
  lemma FailedCallExplains(c: Crypto, s: State, events: seq<Event>, e: Event)
    requires Explains(c, s, events) && s.phase == HelloReceived && Throws(c, s.noncePi, e)
    ensures Explains(c, Step(c, s, e), events + [e])
  {
    PendingsSnoc(c, events, e);
    OpenedsSnoc(c, events, e);
    KindsDiffer(e);
    StepPhases(c, s, e);
    var h: nat :| Pending(c, events, h);
    forall k: nat, r: nat ensures !Opened(c, events, k, r) {
      PendingExcludesOpened(c, events, h, k, r);
    }
    assert KeepsPending(c, s.noncePi, e) && !Binds(c, s.noncePi, e);
    var more := events + [e];
    assert forall i :: 0 <= i < |events| ==> more[i] == events[i];
    assert forall k: nat :: Pending(c, events, k) ==> k < |events|;
    hide Step, Authentic, DerivedKey, IsHello, IsResponse, IsRekey, Pending, Opened, Binds, KeepsPending, Throws;
    assert Pending(c, more, h);
  }

  /** Neither a HELLO nor a RESPONSE. */
  lemma OtherExplains(c: Crypto, s: State, events: seq<Event>, e: Event)
    requires Explains(c, s, events) && !IsHello(e) && !IsResponse(e)
    ensures Explains(c, Step(c, s, e), events + [e])
  {
    PendingsSnoc(c, events, e);
    OpenedsSnoc(c, events, e);
    StepPhases(c, s, e);
    EarlierEvents(c, events, e);
    assert forall nonce :: !Binds(c, nonce, e) && KeepsPending(c, nonce, e);
    hide Step, Authentic, DerivedKey, IsHello, IsResponse, IsRekey, Pending, Opened, Binds, KeepsPending, Throws;
    var more := events + [e];
    if s.phase == HelloReceived {
      var h: nat :| Pending(c, events, h);
      assert Pending(c, more, h);
    }
    if s.phase == Bound && !IsRekey(e) {
      var h: nat, r: nat :| Opened(c, events, h, r);
      assert Opened(c, more, h, r);
    }
  }

  /** A RESPONSE while no HELLO is pending is ignored. */
  lemma StrayResponseExplains(c: Crypto, s: State, events: seq<Event>, e: Event)
    requires Explains(c, s, events) && IsResponse(e) && s.phase != HelloReceived
    ensures Explains(c, Step(c, s, e), events + [e])
  {
    PendingsSnoc(c, events, e);
    OpenedsSnoc(c, events, e);
    KindsDiffer(e);
    StepPhases(c, s, e);
    EarlierEvents(c, events, e);
    hide Step, Authentic, DerivedKey, IsHello, IsResponse, IsRekey, Pending, Opened, Binds, KeepsPending, Throws;
    var more := events + [e];
    if s.phase == Bound {
      var h: nat, r: nat :| Opened(c, events, h, r);
      assert Opened(c, more, h, r);
    }
  }

  lemma StepExplains(c: Crypto, s: State, events: seq<Event>, e: Event)
    requires Explains(c, s, events)
    ensures Explains(c, Step(c, s, e), events + [e])
  {
    KindsDiffer(e);
    assert Throws(c, s.noncePi, e) ==> IsResponse(e);
    hide Step, Explains, Throws;
    if IsHello(e) {
      HelloExplains(c, s, events, e);
    } else if !IsResponse(e) {
      OtherExplains(c, s, events, e);
    } else if s.phase != HelloReceived {
      StrayResponseExplains(c, s, events, e);
    } else if Throws(c, s.noncePi, e) {
      FailedCallExplains(c, s, events, e);
    } else {
      ResponseExplains(c, s, events, e);
    }
  }

  lemma {:induction false} RunExplains(c: Crypto, events: seq<Event>)
    ensures Explains(c, After(c, events), events)
  {
    hide Step, Explains;
    if events == [] {
      StartExplains(c);
    } else {
      var before, last := events[..|events| - 1], events[|events| - 1];
      RunExplains(c, before);
      StepExplains(c, After(c, before), before, last);
      assert before + [last] == events;
    }
  }

  lemma StartExplains(c: Crypto)
    ensures Explains(c, START, [])
  {}

  /**
   * In every run, whatever calls fail: a session is bound exactly when, of the RESPONSEs to the
   * latest HELLO, the first whose handling did not end in a failed call was authentic, and no REKEY
   * has come since; its key is the one derived from that exchange.
   */
  lemma {:induction false} BoundIffOpened(c: Crypto, events: seq<Event>)
    ensures After(c, events).phase == Bound <==> exists h: nat, r: nat :: Opened(c, events, h, r)
    ensures forall h: nat, r: nat :: Opened(c, events, h, r) ==>
              Some(After(c, events).sessionKey) == DerivedKey(c, events[h].nonce, events[r].val)
  {
    RunExplains(c, events);
  }

  /** With an identity key loaded, telemetry goes out only in an opened session that is not paused, unaltered. */
  lemma TelemetryIsGated(c: Crypto, events: seq<Event>, frame: Bytes)
    requires c.identityLoaded
    ensures Telemetry(c, After(c, events), frame) ==
            if (exists h: nat, r: nat :: Opened(c, events, h, r)) && !After(c, events).paused && frame != []
            then Some(frame) else None
  {
    BoundIffOpened(c, events);
  }

  /** Without an identity key no run is ever bound, whatever the peer sends. */
  lemma {:induction false} NoIdentityNeverBinds(c: Crypto, events: seq<Event>)
    requires !c.identityLoaded
    ensures After(c, events).phase == Idle || After(c, events).phase == Failed
    ensures !After(c, events).paused && After(c, events).sessionKey == []
  {
    if events != [] {
      NoIdentityNeverBinds(c, events[..|events| - 1]);
    }
  }

  /** The stream control that counts: a PAUSE or RESUME written while the session was bound. */
  ghost predicate Controls(c: Crypto, events: seq<Event>, k: nat) {
    && k < |events| && events[k].Control? && events[k].val != []
    && (events[k].val[0] == PAUSE_STREAM || events[k].val[0] == RESUME_STREAM)
    && After(c, events[..k]).phase == Bound
  }

  ghost predicate LastControls(c: Crypto, events: seq<Event>, k: nat) {
    Controls(c, events, k) && forall i: nat :: k < i < |events| ==> !Controls(c, events, i)
  }

  lemma ControlsSnoc(c: Crypto, events: seq<Event>, e: Event, k: nat)
    requires k < |events|
    ensures Controls(c, events + [e], k) <==> Controls(c, events, k)
  {
    assert (events + [e])[..k] == events[..k];
  }

  lemma LastControlsSnoc(c: Crypto, events: seq<Event>, e: Event, k: nat)
    ensures LastControls(c, events + [e], k) <==>
            if Controls(c, events + [e], |events|) then k == |events| else LastControls(c, events, k)
  {
    var more := events + [e];
    forall i: nat | i < |events| ensures Controls(c, more, i) <==> Controls(c, events, i) {
      ControlsSnoc(c, events, e, i);
    }
    assert forall i: nat :: Controls(c, more, i) ==> i < |more|;
    assert forall i: nat :: Controls(c, events, i) ==> i < |events|;
    hide Controls;
    if Controls(c, more, |events|) && LastControls(c, more, k) {
      assert k >= |events|;
    }
  }

  lemma ControlStep(c: Crypto, events: seq<Event>, e: Event)
    ensures var s, t := After(c, events), Step(c, After(c, events), e);
            if Controls(c, events + [e], |events|)
            then t.paused == (e.val[0] == PAUSE_STREAM)
            else t.paused == s.paused
  {
    var more := events + [e];
    assert more[..|events|] == events && more[|events|] == e;
  }

  /**
   * The stream is paused exactly when the last PAUSE or RESUME written in a bound session was a
   * PAUSE: a new handshake or a REKEY does not resume it.
   */
  lemma {:induction false} PausedIffLastControlPaused(c: Crypto, events: seq<Event>)
    ensures After(c, events).paused <==>
            exists k: nat :: LastControls(c, events, k) && events[k].val[0] == PAUSE_STREAM
  {
    if events != [] {
      var n := |events| - 1;
      var before, last := events[..n], events[n];
      PausedIffLastControlPaused(c, before);
      ControlStep(c, before, last);
      assert before + [last] == events;
      forall k: nat ensures LastControls(c, events, k) <==>
        if Controls(c, events, n) then k == n else LastControls(c, before, k)
      {
        LastControlsSnoc(c, before, last, k);
      }
      assert forall k: nat :: LastControls(c, before, k) ==> k < n && before[k] == events[k];
      hide Step, Controls, LastControls;
      if exists k: nat :: LastControls(c, before, k) && before[k].val[0] == PAUSE_STREAM {
        var k: nat :| LastControls(c, before, k) && before[k].val[0] == PAUSE_STREAM;
        assert Controls(c, events, n) || LastControls(c, events, k);
      }
    }
  }

  /** Whatever bytes are written, the collision threshold stays a number between 0 and 60 seconds. */
  lemma {:induction false} ThresholdStaysInRange(c: Crypto, events: seq<Event>)
    ensures 0.0 < After(c, events).ttcThreshold < 60.0
  {
    hide Authentic, Float32, ThresholdBits;
    if events != [] {
      ThresholdStaysInRange(c, events[..|events| - 1]);
    }
  }

  /** The RESPONSE a phone writes: its nonce, its public key and its signature. */
  function PhoneResponse(noncePhone: Bytes, pub: Bytes, sig: Bytes): Bytes { [RESPONSE] + noncePhone + pub + sig }

  lemma PhoneFieldsSurvive(noncePhone: Bytes, pub: Bytes, sig: Bytes)
    requires |noncePhone| == NONCE_BYTES && |pub| == PUB_BYTES && sig != []
    ensures var val := PhoneResponse(noncePhone, pub, sig);
            && LongEnough(val) && val[0] == RESPONSE
            && NoncePhone(val) == noncePhone && PhonePub(val) == pub && PhoneSig(val) == sig
  {
    var val := PhoneResponse(noncePhone, pub, sig);
    assert val == [RESPONSE] + (noncePhone + (pub + sig));
    assert val[1..] == noncePhone + (pub + sig);
    assert val[1 + NONCE_BYTES..] == pub + sig;
  }

  /**
   * From any state, a HELLO answered by a phone that signs both nonces and its key binds the
   * session, under the key that the phone derives from the same secret and nonces, and the CONFIRM
   * proves possession of that key.
   */
  lemma HonestExchangeBinds(
      c: Crypto, s: State, nonce: Bytes, noncePhone: Bytes, pub: Bytes, sig: Bytes,
      secret: Bytes, key: Bytes, mac: Bytes)
    requires c.identityLoaded
    requires |noncePhone| == NONCE_BYTES && |pub| == PUB_BYTES && pub[0] == 0x04 && sig != []
    requires c.verifyPeer(pub, noncePhone + nonce + pub, sig) && c.sharedSecret(pub) == Some(secret)
    requires c.hkdf(secret, nonce + noncePhone, HKDF_INFO) == Some(key)
    requires c.hmac(key, CONFIRM_LABEL + nonce + noncePhone) == Some(mac)
    ensures var t := AfterHandshake(c, AfterHandshake(c, s, [HELLO], nonce), PhoneResponse(noncePhone, pub, sig), []);
            t.phase == Bound && t.sessionKey == key && t.handshakeOut == [CONFIRM] + mac
  {
    PhoneFieldsSurvive(noncePhone, pub, sig);
    var val := PhoneResponse(noncePhone, pub, sig);
    hide PhoneResponse, NoncePhone, PhonePub, PhoneSig, LongEnough;
    var mid := AfterHandshake(c, s, [HELLO], nonce);
    assert mid == AfterHello(c, s, nonce) && mid.phase == HelloReceived && mid.noncePi == nonce;
    assert Authentic(c, nonce, val);
  }
}
