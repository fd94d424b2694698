/** The receiver as the program runs it: counters and buffers changed per byte, with its deadlines. */
module IngressReceiver {
  import opened Nouns
  import opened Bytes
  import opened Ingress
  import opened IngressTimes

  datatype Phase = Scanning | InHeader | InPayload | Complete

  class Receiver {
    const hash: Hash
    const clock: Clock
    const header: array<Byte>
    const buffer: array<Byte>
    var phase: Phase
    var have: nat
    var magicHave: nat
    var payloadLen: nat
    var frameDeadline: nat
    var byteDeadline: nat
    var rejects: map<Reason, nat>

    ghost predicate Valid()
      reads this, header, buffer
    {
      && header.Length == HEADER_SIZE && buffer.Length == MAX_PAYLOAD
      && (phase.Scanning? ==> magicHave < |MAGIC| && header[..magicHave] == MAGIC[..magicHave])
      && (phase.InHeader? ==> |MAGIC| <= have < HEADER_SIZE)
      && (phase.InPayload? ==> have < payloadLen == Field(header[..], 16, 8) <= MAX_PAYLOAD)
      && (phase.Complete? ==> have == payloadLen <= MAX_PAYLOAD)
    }

    /** The state the fields stand for. */
    ghost function State(): (s: Rx)
      reads this, header, buffer
      requires Valid()
      ensures RxOk(s)
    {
      match phase
      case Scanning => Scan(magicHave)
      case InHeader => Header(header[..have])
      case InPayload => Body(header[..], buffer[..have])
      case Complete => Ready(header[..], buffer[..have])
    }

    /** With the deadlines. */
    ghost function Timing(): (t: Timed)
      reads this, header, buffer
      requires Valid()
      ensures RxOk(t.rx)
    {
      Timed(State(), frameDeadline, byteDeadline)
    }

    /** `i2_rx_init`. */
    constructor (hash: Hash, clock: Clock)
      ensures Valid() && Timing() == QUIET && rejects == map[]
      ensures fresh(header) && fresh(buffer) && this.hash == hash && this.clock == clock
    {
      this.hash, this.clock := hash, clock;
      header := new Byte[HEADER_SIZE];
      buffer := new Byte[MAX_PAYLOAD];
      phase, have, magicHave, payloadLen, frameDeadline, byteDeadline, rejects := Scanning, 0, 0, 0, 0, 0, map[];
    }

    /** `reject`, with the reset of the scan. */
    method Reject(reason: Reason)
      requires header.Length == HEADER_SIZE && buffer.Length == MAX_PAYLOAD
      modifies this
      ensures Valid() && Timing() == QUIET && rejects == Counted(old(rejects), Some(reason))
    {
      rejects := rejects[reason := (if reason in rejects then rejects[reason] else 0) + 1];
      phase, have, magicHave, payloadLen, frameDeadline, byteDeadline := Scanning, 0, 0, 0, 0, 0;
    }

    /** Whether a deadline has passed while a frame is being received. */
    predicate TimedOut(now: nat)
      reads this
    {
      ((phase.Scanning? && magicHave != 0) || phase.InHeader? || phase.InPayload?)
      && ((byteDeadline != 0 && now >= byteDeadline) || (frameDeadline != 0 && now >= frameDeadline))
    }

    /** `i2_rx_feed_byte`: a byte after a deadline starts over, and then counts as the first one. */
    method FeedByte(b: Byte, now: nat)
      requires Valid()
      modifies this, header, buffer
      ensures Valid() && Timing() == FeedAt(hash, clock, old(Timing()), Tick(b, now))
      ensures var late := Expired(old(Timing()), now);
              rejects == Counted(Counted(old(rejects), if late then Some(Timeout) else None),
                                 Refusal(hash, if late then Scan(0) else old(State()), b))
    {
      hide HeaderDone, BodyDone, Refusal;
      ghost var late := TimedOut(now);
      assert late == Expired(Timing(), now);
      NoRefusal(hash, b);
      if TimedOut(now) {
        Reject(Timeout);
      }
      match phase
      case Complete => return;
      case Scanning => ScanByte(b, now);
      case InHeader =>
        byteDeadline := Later(now, clock.interbyte);
        HeaderByte(b);
      case InPayload =>
        byteDeadline := Later(now, clock.interbyte);
        PayloadByte(b);
    }

    method ScanByte(b: Byte, now: nat)
      requires Valid() && phase.Scanning?
      modifies this, header
      ensures Valid() && Timing() == FeedInTime(hash, clock, old(Timing()), Tick(b, now)) && rejects == old(rejects)
    {
      if b == MAGIC[magicHave] {
        if magicHave == 0 {
          frameDeadline, byteDeadline := Later(now, clock.total), Later(now, clock.interbyte);
        }
        ghost var got := header[..magicHave];
        header[magicHave] := b;
        magicHave := magicHave + 1;
        assert header[..magicHave] == got + [b] == MAGIC[..magicHave];
        if magicHave == |MAGIC| {
          phase := InHeader;
          have := |MAGIC|;
          assert MAGIC[..|MAGIC|] == MAGIC;
        }
      } else {
        magicHave := if b == MAGIC[0] then 1 else 0;
        if magicHave != 0 {
          header[0] := b;
          assert header[..1] == [b] == MAGIC[..1];
          frameDeadline, byteDeadline := Later(now, clock.total), Later(now, clock.interbyte);
        } else {
          frameDeadline, byteDeadline := 0, 0;
        }
      }
    }

    method HeaderByte(b: Byte)
      requires Valid() && phase.InHeader?
      modifies this, header
      ensures Valid() && State() == Feed(hash, old(State()), b) && rejects == Counted(old(rejects), Refusal(hash, old(State()), b))
      ensures !State().Ready?
      ensures if State().Scan? then frameDeadline == byteDeadline == 0
              else frameDeadline == old(frameDeadline) && byteDeadline == old(byteDeadline)
    {
      hide FromLE;
      ghost var got := header[..have];
      header[have] := b;
      have := have + 1;
      assert header[..have] == got + [b];
      if have != HEADER_SIZE {
        return;
      }
      var h := header[..];
      assert h == got + [b];
      if Field(h, 8, 2) != 1 || Field(h, 10, 2) != 0 {
        Reject(Version);
        return;
      }
      if Field(h, 12, 2) != HEADER_SIZE || Field(h, 14, 2) != 0 {
        Reject(HeaderBad);
        return;
      }
      payloadLen := Field(h, 16, 8);
      if payloadLen == 0 || payloadLen > MAX_PAYLOAD {
        Reject(Length);
        return;
      }
      have := 0;
      phase := InPayload;
      assert buffer[..0] == [];
    }

    method PayloadByte(b: Byte)
      requires Valid() && phase.InPayload?
      modifies this, buffer
      ensures Valid() && State() == Feed(hash, old(State()), b) && rejects == Counted(old(rejects), Refusal(hash, old(State()), b))
      ensures if State().Scan? || State().Ready? then frameDeadline == byteDeadline == 0
              else frameDeadline == old(frameDeadline) && byteDeadline == old(byteDeadline)
    {
      hide Field;
      ghost var got := buffer[..have];
      buffer[have] := b;
      have := have + 1;
      assert buffer[..have] == got + [b];
      if have == payloadLen {
        if hash(buffer[..payloadLen]) != header[24..56] {
          Reject(DigestBad);
          return;
        }
        phase := Complete;
        frameDeadline, byteDeadline := 0, 0;
      }
    }
  }

  lemma NoRefusal(hash: Hash, b: Byte)
    ensures forall rx: Rx :: rx.Scan? || rx.Ready? ==> Refusal(hash, rx, b) == None
  {
  }

  /** `i2_frame_encode`. */
  method FrameEncode(hash: Hash, payload: seq<Byte>, out: array<Byte>) returns (ok: bool, len: nat)
    modifies out
    ensures ok == (0 < |payload| <= MAX_PAYLOAD && out.Length >= HEADER_SIZE + |payload|)
    ensures ok ==> len == HEADER_SIZE + |payload| && out[..len] == Encode(hash, payload)
    ensures !ok ==> out[..] == old(out[..])
  {
    hide HeaderOf;
    len := HEADER_SIZE + |payload|;
    if |payload| == 0 || |payload| > MAX_PAYLOAD || out.Length < len {
      return false, 0;
    }
    var h := HeaderOf(hash, payload);
    var i := 0;
    while i < HEADER_SIZE
      invariant 0 <= i <= HEADER_SIZE && forall j :: 0 <= j < i ==> out[j] == h[j]
    {
      out[i] := h[i];
      i := i + 1;
    }
    i := 0;
    while i < |payload|
      invariant 0 <= i <= |payload| && (forall j :: 0 <= j < HEADER_SIZE ==> out[j] == h[j])
      invariant forall j :: 0 <= j < i ==> out[HEADER_SIZE + j] == payload[j]
    {
      out[HEADER_SIZE + i] := payload[i];
      i := i + 1;
    }
    assert out[..HEADER_SIZE] == h && out[HEADER_SIZE..len] == payload;
    assert out[..len] == out[..HEADER_SIZE] + out[HEADER_SIZE..len];
    return true, len;
  }
}
