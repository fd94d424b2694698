/** The receiver with its deadlines: what arrives in time is received, and whatever is ready arrived
    in time, whole and with its own digest. */
module IngressTimes {
  import opened Nouns
  import opened Bytes
  import opened Ingress

  const U64_MAX: nat := 0xFFFF_FFFF_FFFF_FFFF

  /** How long to wait for the next byte and for a whole frame, in ticks. */
  datatype Clock = Clock(interbyte: nat, total: nat)

  /** The receiver and its two deadlines; 0 is none. */
  datatype Timed = Timed(rx: Rx, frame: nat, byte: nat)

  const QUIET: Timed := Timed(Scan(0), 0, 0)

  /** A byte and when it came. */
  datatype Tick = Tick(b: Byte, now: nat)

  /** `add_ticks`. */
  function Later(now: nat, ticks: nat): nat {
    if now + ticks > U64_MAX then U64_MAX else now + ticks
  }

  predicate Waiting(rx: Rx) {
    (rx.Scan? && rx.k != 0) || rx.Header? || rx.Body?
  }

  predicate Expired(t: Timed, now: nat) {
    Waiting(t.rx) && ((t.byte != 0 && now >= t.byte) || (t.frame != 0 && now >= t.frame))
  }

  /** `i2_rx_feed_byte` once the deadlines are checked.  The deadlines start with the first byte of the
      magic; each byte behind the magic moves the byte deadline on. */
  function FeedInTime(hash: Hash, clock: Clock, t: Timed, x: Tick): (t': Timed)
    requires RxOk(t.rx)
    ensures t'.rx == Feed(hash, t.rx, x.b)
  {
    var rx := Feed(hash, t.rx, x.b);
    match t.rx
    case Ready(_, _) => t
    case Scan(k) =>
      if x.b == MAGIC[k] && k > 0 then t.(rx := rx)
      else if x.b == MAGIC[0] then Timed(rx, Later(x.now, clock.total), Later(x.now, clock.interbyte))
      else Timed(rx, 0, 0)
    case _ => if rx.Scan? || rx.Ready? then Timed(rx, 0, 0) else Timed(rx, t.frame, Later(x.now, clock.interbyte))
  }

  function FeedAt(hash: Hash, clock: Clock, t: Timed, x: Tick): (t': Timed)
    requires RxOk(t.rx)
    ensures RxOk(t'.rx)
  {
    FeedInTime(hash, clock, if Expired(t, x.now) then QUIET else t, x)
  }

  function FeedTicks(hash: Hash, clock: Clock, t: Timed, s: seq<Tick>): (t': Timed)
    requires RxOk(t.rx)
    ensures RxOk(t'.rx)
    decreases |s|
  {
    if s == [] then t else FeedAt(hash, clock, FeedTicks(hash, clock, t, s[..|s| - 1]), s[|s| - 1])
  }

  function BytesOf(s: seq<Tick>): (b: seq<Byte>)
    ensures |b| == |s|
  {
    seq(|s|, i requires 0 <= i < |s| => s[i].b)
  }

  // ----- Why a byte is refused -----

  /** The reason counted for a byte that ends a frame without receiving it. */
  function Refusal(hash: Hash, rx: Rx, b: Byte): Option<Reason> {
    match rx
    case Header(h) =>
      if |h| + 1 != HEADER_SIZE then None
      else if Field(h + [b], 8, 2) != 1 || Field(h + [b], 10, 2) != 0 then Some(Version)
      else if Field(h + [b], 12, 2) != HEADER_SIZE || Field(h + [b], 14, 2) != 0 then Some(HeaderBad)
      else if Field(h + [b], 16, 8) == 0 || Field(h + [b], 16, 8) > MAX_PAYLOAD then Some(Length)
      else None
    case Body(h, p) =>
      if |h| == HEADER_SIZE && |p| + 1 == Field(h, 16, 8) && hash(p + [b]) != h[24..56] then Some(DigestBad) else None
    case _ => None
  }

  /** A reason is counted exactly when a frame that was under way is given up. */
  lemma RefusedExactly(hash: Hash, rx: Rx, b: Byte)
    requires RxOk(rx)
    ensures Refusal(hash, rx, b).Some? <==> !rx.Scan? && Feed(hash, rx, b).Scan?
  {
    hide Field;
  }

  function Counted(rejects: map<Reason, nat>, reason: Option<Reason>): map<Reason, nat> {
    if reason.None? then rejects
    else rejects[reason.value := (if reason.value in rejects then rejects[reason.value] else 0) + 1]
  }

  // ----- A frame in time -----

  /** The bytes of the frame that starts at `i` came in time, up to `j`: each before the frame's deadline,
      and before the byte deadline set by the first byte or, behind the magic, by the byte before. */
  predicate InTime(clock: Clock, s: seq<Tick>, i: nat, j: nat)
    requires i < |s| && j <= |s|
  {
    forall x :: i < x < j ==> s[x].now < Later(s[i].now, clock.total)
                              && s[x].now < Later(s[if x <= i + |MAGIC| then i else x - 1].now, clock.interbyte)
  }

  predicate ClockOk(clock: Clock) {
    clock.interbyte > 0 && clock.total > 0
  }

  /** A header that asks for a payload of its length. */
  predicate HeaderOk(h: seq<Byte>) {
    && |h| == HEADER_SIZE && h[..8] == MAGIC
    && Field(h, 8, 2) == 1 && Field(h, 10, 2) == 0 && Field(h, 12, 2) == HEADER_SIZE && Field(h, 14, 2) == 0
    && 0 < Field(h, 16, 8) <= MAX_PAYLOAD
  }

  /** A frame: its payload has the length and the digest that its header says. */
  predicate IsFrame(hash: Hash, h: seq<Byte>, p: seq<Byte>) {
    HeaderOk(h) && |p| == Field(h, 16, 8) && hash(p) == h[24..56]
  }

  /** What the receiver has of a frame that is not complete. */
  function Had(rx: Rx): seq<Byte> {
    match rx
    case Scan(k) => if k <= |MAGIC| then MAGIC[..k] else []
    case Header(h) => h
    case Body(h, p) => h + p
    case Ready(h, p) => h + p
  }

  /** The receiver waits for more of the frame that started at `i`, and that has come in time. */
  ghost predicate On(clock: Clock, t: Timed, s: seq<Tick>, i: nat) {
    && Waiting(t.rx) && RxOk(t.rx) && i < |s| && i + |Had(t.rx)| == |s| && BytesOf(s)[i..] == Had(t.rx)
    && (t.rx.Header? ==> t.rx.header[..8] == MAGIC) && (t.rx.Body? ==> HeaderOk(t.rx.header))
    && InTime(clock, s, i, |s|)
    && t.frame == Later(s[i].now, clock.total) && t.byte == Later(s[if |s| <= i + |MAGIC| then i else |s| - 1].now, clock.interbyte)
  }

  /** The next byte is in time. */
  predicate NextInTime(clock: Clock, s: seq<Tick>, i: nat, now: nat)
    requires i < |s|
  {
    now < Later(s[i].now, clock.total) && now < Later(s[if |s| <= i + |MAGIC| then i else |s| - 1].now, clock.interbyte)
  }

  lemma ExpiredIs(clock: Clock, t: Timed, s: seq<Tick>, i: nat, now: nat)
    requires ClockOk(clock) && On(clock, t, s, i)
    ensures Expired(t, now) <==> !NextInTime(clock, s, i, now)
  {
    hide Had, RxOk, HeaderOk, InTime, BytesOf;
  }

  lemma InTimeNext(clock: Clock, s: seq<Tick>, i: nat, x: Tick)
    requires i < |s| && InTime(clock, s, i, |s|) && NextInTime(clock, s, i, x.now)
    ensures InTime(clock, s + [x], i, |s| + 1)
  {
    var all := s + [x];
    forall y | i < y < |all|
      ensures all[y].now < Later(all[i].now, clock.total)
              && all[y].now < Later(all[if y <= i + |MAGIC| then i else y - 1].now, clock.interbyte)
    {
      if y < |s| {
        assert all[y] == s[y];
      }
    }
  }

  lemma BytesNext(s: seq<Tick>, x: Tick, i: nat)
    requires i <= |s|
    ensures BytesOf(s + [x])[i..] == BytesOf(s)[i..] + [x.b]
  {
    assert BytesOf(s + [x]) == BytesOf(s) + [x.b];
  }

  /** The frame that started at `i` is complete, and came in time. */
  ghost predicate Received(hash: Hash, clock: Clock, s: seq<Tick>, i: nat, h: seq<Byte>, p: seq<Byte>) {
    && IsFrame(hash, h, p) && i + |h| + |p| <= |s| && BytesOf(s)[i..i + |h| + |p|] == h + p
    && InTime(clock, s, i, i + |h| + |p|)
  }

  /** What the byte makes of the frame, by what it is fed to. */
  lemma HadNext(hash: Hash, rx: Rx, b: Byte)
    requires RxOk(rx) && (rx.Header? ==> rx.header[..8] == MAGIC) && (rx.Body? ==> HeaderOk(rx.header)) && !rx.Ready?
    ensures var next := Feed(hash, rx, b);
            && (rx.Scan? && b == MAGIC[rx.k] ==> Had(next) == Had(rx) + [b] && Waiting(next))
            && (!rx.Scan? && !next.Scan? ==> Had(next) == Had(rx) + [b])
            && (next.Header? ==> next.header[..8] == MAGIC) && (next.Body? ==> HeaderOk(next.header))
            && (next.Ready? ==> IsFrame(hash, next.header, next.payload))
            && (!rx.Scan? && next.Scan? ==> next == Scan(0))
            && (next.Ready? ==> rx.Body?) && (rx.Scan? && b != MAGIC[rx.k] ==> next == Scan(if b == MAGIC[0] then 1 else 0))
  {
    hide Field;
    match rx
    case Scan(k) => assert MAGIC[..k + 1] == MAGIC[..k] + [MAGIC[k]]; assert MAGIC[..|MAGIC|] == MAGIC;
    case Header(h) => assert (h + [b])[..8] == h[..8]; assert h + [b] + [] == h + [b];
    case Body(h, p) => assert h + (p + [b]) == (h + p) + [b];
  }

  /** What the byte does to the deadlines. */
  lemma DeadlinesNext(hash: Hash, clock: Clock, t: Timed, x: Tick)
    requires RxOk(t.rx) && Waiting(t.rx) && !Expired(t, x.now)
    requires if t.rx.Scan? then x.b == MAGIC[t.rx.k] else !Feed(hash, t.rx, x.b).Scan?
    ensures var next := Feed(hash, t.rx, x.b);
            FeedAt(hash, clock, t, x) == if next.Ready? && t.rx.Body? then Timed(next, 0, 0)
                                         else if t.rx.Scan? then t.(rx := next) else Timed(next, t.frame, Later(x.now, clock.interbyte))
    ensures t.rx.Scan? ==> |Had(Feed(hash, t.rx, x.b))| <= |MAGIC|
  {
    hide Field;
  }

  /** One more byte of the frame, in time. */
  lemma OnNext(hash: Hash, clock: Clock, t: Timed, s: seq<Tick>, i: nat, x: Tick)
    requires ClockOk(clock) && On(clock, t, s, i) && NextInTime(clock, s, i, x.now)
    requires if t.rx.Scan? then x.b == MAGIC[t.rx.k] else !Feed(hash, t.rx, x.b).Scan?
    ensures var t' := FeedAt(hash, clock, t, x);
            && t'.rx == Feed(hash, t.rx, x.b)
            && (if t'.rx.Ready? then Received(hash, clock, s + [x], i, t'.rx.header, t'.rx.payload) else On(clock, t', s + [x], i))
  {
    hide *;
    OnIs(clock, t, s, i);
    ExpiredIs(clock, t, s, i, x.now);
    DeadlinesNext(hash, clock, t, x);
    HadNext(hash, t.rx, x.b);
    InTimeNext(clock, s, i, x);
    BytesNext(s, x, i);
    var (all, next) := (s + [x], Feed(hash, t.rx, x.b));
    if next.Ready? {
      ReceivedFrom(hash, clock, all, i, next.header, next.payload);
    } else {
      HadWaits(hash, clock, t, x);
      OnFrom(clock, t, s, i, x, next, FeedAt(hash, clock, t, x));
    }
  }

  lemma OnIs(clock: Clock, t: Timed, s: seq<Tick>, i: nat)
    requires On(clock, t, s, i)
    ensures Waiting(t.rx) && RxOk(t.rx) && i < |s| && BytesOf(s)[i..] == Had(t.rx) && InTime(clock, s, i, |s|) && !t.rx.Ready?
    ensures (t.rx.Header? ==> t.rx.header[..8] == MAGIC) && (t.rx.Body? ==> HeaderOk(t.rx.header))
  {
    hide RxOk, Had, InTime, BytesOf, HeaderOk;
  }

  lemma ReceivedFrom(hash: Hash, clock: Clock, s: seq<Tick>, i: nat, h: seq<Byte>, p: seq<Byte>)
    requires i < |s| && IsFrame(hash, h, p) && BytesOf(s)[i..] == Had(Ready(h, p)) && InTime(clock, s, i, |s|)
    ensures Received(hash, clock, s, i, h, p)
  {
    hide IsFrame, InTime, BytesOf;
    assert |h + p| == |s| - i;
    assert BytesOf(s)[i..] == BytesOf(s)[i..|s|];
  }

  lemma OnFrom(clock: Clock, t: Timed, s: seq<Tick>, i: nat, x: Tick, next: Rx, t': Timed)
    requires On(clock, t, s, i) && RxOk(next) && Waiting(next) && InTime(clock, s + [x], i, |s| + 1)
    requires BytesOf(s + [x])[i..] == Had(next) == Had(t.rx) + [x.b]
    requires (next.Header? ==> next.header[..8] == MAGIC) && (next.Body? ==> HeaderOk(next.header))
    requires t' == if t.rx.Scan? then t.(rx := next) else Timed(next, t.frame, Later(x.now, clock.interbyte))
    requires t.rx.Scan? ==> |Had(next)| <= |MAGIC|
    ensures On(clock, t', s + [x], i)
  {
    HadLength(t.rx);
    hide Had, RxOk, HeaderOk, InTime, BytesOf, Waiting, Later;
    assert |s| + 1 <= i + |MAGIC| <==> t.rx.Scan?;
  }

  lemma HadLength(rx: Rx)
    requires RxOk(rx)
    ensures (rx.Scan? ==> |Had(rx)| == rx.k) && (rx.Header? ==> |Had(rx)| >= |MAGIC|) && (rx.Body? ==> |Had(rx)| >= HEADER_SIZE)
    ensures rx.Header? && rx.header == MAGIC ==> |Had(rx)| == |MAGIC|
  {
  }

  /** The first byte of the magic starts a frame, whatever was scanned before. */
  lemma Started(hash: Hash, clock: Clock, t: Timed, s: seq<Tick>, x: Tick)
    requires t.rx.Scan? && RxOk(t.rx) && x.b == MAGIC[0]
    ensures var t' := FeedAt(hash, clock, t, x); t'.rx == Scan(1) && On(clock, t', s + [x], |s|)
  {
    var all := s + [x];
    assert BytesOf(all)[|s|..] == [x.b] == MAGIC[..1];
    assert MAGIC[..1] == [MAGIC[0]];
  }

  // ----- Whatever is ready was received in time -----

  /** Where the receiver stands after these bytes: idle, in a frame that started at `i`, or with that
      frame complete. */
  ghost predicate Stands(hash: Hash, clock: Clock, t: Timed, s: seq<Tick>, i: nat) {
    if t.rx.Ready? then Received(hash, clock, s, i, t.rx.header, t.rx.payload)
    else if Waiting(t.rx) then On(clock, t, s, i)
    else t == QUIET
  }

  lemma ReceivedStays(hash: Hash, clock: Clock, s: seq<Tick>, x: Tick, i: nat, h: seq<Byte>, p: seq<Byte>)
    requires Received(hash, clock, s, i, h, p)
    ensures Received(hash, clock, s + [x], i, h, p)
  {
    var j := i + |h| + |p|;
    assert BytesOf(s + [x])[i..j] == BytesOf(s)[i..j];
    hide IsFrame;
  }

  lemma StandsNext(hash: Hash, clock: Clock, t: Timed, s: seq<Tick>, i: nat, x: Tick) returns (i': nat)
    requires ClockOk(clock) && RxOk(t.rx) && Stands(hash, clock, t, s, i)
    ensures Stands(hash, clock, FeedAt(hash, clock, t, x), s + [x], i')
  {
    i' := i;
    if t.rx.Ready? {
      ReceivedStays(hash, clock, s, x, i, t.rx.header, t.rx.payload);
    } else if Waiting(t.rx) && !Expired(t, x.now) && (if t.rx.Scan? then x.b == MAGIC[t.rx.k] else !Feed(hash, t.rx, x.b).Scan?) {
      ExpiredIs(clock, t, s, i, x.now);
      OnNext(hash, clock, t, s, i, x);
      HadWaits(hash, clock, t, x);
    } else if x.b == MAGIC[0] && (t.rx.Scan? || Expired(t, x.now)) {
      Started(hash, clock, if Expired(t, x.now) then QUIET else t, s, x);
      i' := |s|;
    } else {
      NotStarted(hash, clock, t, x);
    }
  }

  lemma HadWaits(hash: Hash, clock: Clock, t: Timed, x: Tick)
    requires RxOk(t.rx) && Waiting(t.rx) && !Expired(t, x.now)
    requires if t.rx.Scan? then x.b == MAGIC[t.rx.k] else !Feed(hash, t.rx, x.b).Scan?
    ensures var rx := FeedAt(hash, clock, t, x).rx; (rx.Ready? || Waiting(rx)) && RxOk(rx) && rx == Feed(hash, t.rx, x.b)
  {
  }

  lemma NotStarted(hash: Hash, clock: Clock, t: Timed, x: Tick)
    requires RxOk(t.rx) && !t.rx.Ready? && (Waiting(t.rx) || t == QUIET)
    requires !(x.b == MAGIC[0] && (t.rx.Scan? || Expired(t, x.now)))
    requires !(Waiting(t.rx) && !Expired(t, x.now) && (if t.rx.Scan? then x.b == MAGIC[t.rx.k] else !Feed(hash, t.rx, x.b).Scan?))
    ensures FeedAt(hash, clock, t, x) == QUIET
  {
    hide Field;
  }

  /** After any bytes at any times: a frame that is ready is in the stream, whole, with its own length
      and digest, and came in time; a frame that is under way is in time so far. */
  lemma {:induction false} ReadyInTime(hash: Hash, clock: Clock, s: seq<Tick>) returns (i: nat)
    requires ClockOk(clock)
    ensures Stands(hash, clock, FeedTicks(hash, clock, QUIET, s), s, i)
    decreases |s|
  {
    i := 0;
    if s != [] {
      hide Stands, FeedAt;
      var (front, x) := (s[..|s| - 1], s[|s| - 1]);
      i := ReadyInTime(hash, clock, front);
      assert front + [x] == s;
      i := StandsNext(hash, clock, FeedTicks(hash, clock, QUIET, front), front, i, x);
    }
  }

  // ----- A frame that comes in time is received -----

  /** The receiver after the first bytes of a frame. */
  function Partly(h: seq<Byte>, p: seq<Byte>, n: nat): Rx
    requires |h| == HEADER_SIZE
  {
    if n < |MAGIC| then Scan(n)
    else if n < HEADER_SIZE then Header(h[..n])
    else if n < HEADER_SIZE + |p| then Body(h, p[..n - HEADER_SIZE])
    else Ready(h, p)
  }

  lemma PartlyNext(hash: Hash, h: seq<Byte>, p: seq<Byte>, n: nat)
    requires IsFrame(hash, h, p) && n < HEADER_SIZE + |p|
    ensures RxOk(Partly(h, p, n)) && Feed(hash, Partly(h, p, n), (h + p)[n]) == Partly(h, p, n + 1)
    ensures n < |MAGIC| ==> (h + p)[n] == MAGIC[n]
  {
    hide Field;
    if n < |MAGIC| {
      assert (h + p)[n] == h[..8][n];
      assert n + 1 == |MAGIC| ==> h[..n + 1] == MAGIC;
    } else if n < HEADER_SIZE {
      assert h[..n] + [h[n]] == h[..n + 1];
      assert n + 1 == HEADER_SIZE ==> h[..n + 1] == h && p[..0] == [];
    } else {
      var k := n - HEADER_SIZE;
      assert p[..k] + [p[k]] == p[..k + 1];
      assert n + 1 == HEADER_SIZE + |p| ==> p[..k + 1] == p;
    }
  }

  /** Where the magic has not occurred the receiver is scanning, deadlines or not. */
  lemma StillScanning(hash: Hash, clock: Clock, s: seq<Tick>)
    requires ClockOk(clock) && Absent(BytesOf(s))
    ensures FeedTicks(hash, clock, QUIET, s).rx.Scan?
  {
    hide FeedTicks;
    var i := ReadyInTime(hash, clock, s);
    if !FeedTicks(hash, clock, QUIET, s).rx.Scan? {
      MagicThere(hash, clock, FeedTicks(hash, clock, QUIET, s), s, i);
    }
  }

  lemma MagicThere(hash: Hash, clock: Clock, t: Timed, s: seq<Tick>, i: nat)
    requires Stands(hash, clock, t, s, i) && !t.rx.Scan?
    ensures i + |MAGIC| <= |s| && EndsWith(BytesOf(s)[..i + |MAGIC|], |MAGIC|)
  {
    var b := BytesOf(s);
    var had := Had(t.rx);
    hide Field, InTime, BytesOf;
    assert i + |had| <= |s| && b[i..i + |had|] == had && |had| >= |MAGIC| && had[..8] == MAGIC by {
      if t.rx.Ready? {
        assert had[..8] == t.rx.header[..8];
      } else {
        assert b[i..] == b[i..i + |had|];
      }
    }
    assert b[..i + |MAGIC|][i..] == b[i..i + |had|][..8] == MAGIC;
    assert MAGIC[..|MAGIC|] == MAGIC;
  }

  /** The bytes of the frame so far, behind what came before it. */
  lemma {:induction false} PartInTime(hash: Hash, clock: Clock, before: seq<Tick>, frame: seq<Tick>, h: seq<Byte>, p: seq<Byte>, n: nat)
    requires ClockOk(clock) && IsFrame(hash, h, p) && BytesOf(frame) == h + p && InTime(clock, frame, 0, |frame|)
    requires FeedTicks(hash, clock, QUIET, before).rx.Scan? && 0 < n <= |frame|
    ensures var t := FeedTicks(hash, clock, QUIET, before + frame[..n]);
            t.rx == Partly(h, p, n) && (n < |frame| ==> On(clock, t, before + frame[..n], |before|))
    decreases n
  {
    hide IsFrame, On, FeedAt, FeedTicks, Partly, InTime;
    var (s, x) := (before + frame[..n - 1], frame[n - 1]);
    var t := FeedTicks(hash, clock, QUIET, s);
    assert before + frame[..n] == s + [x];
    TicksNext(hash, clock, QUIET, s, x);
    FrameIs(hash, h, p);
    PartlyNext(hash, h, p, n - 1);
    assert x.b == BytesOf(frame)[n - 1];
    hide BytesOf;
    if n == 1 {
      assert s == before;
      Started(hash, clock, t, before, x);
      PartlyFirst(h, p);
    } else {
      PartInTime(hash, clock, before, frame, h, p, n - 1);
      NextIn(clock, before, frame, n - 1);
      PartlyWaits(h, p, n - 1);
      PartlyWaits(h, p, n);
      OnNext(hash, clock, t, s, |before|, x);
    }
  }

  lemma TicksNext(hash: Hash, clock: Clock, t: Timed, s: seq<Tick>, x: Tick)
    requires RxOk(t.rx)
    ensures FeedTicks(hash, clock, t, s + [x]) == FeedAt(hash, clock, FeedTicks(hash, clock, t, s), x)
  {
    assert (s + [x])[..|s + [x]| - 1] == s;
  }

  lemma FrameIs(hash: Hash, h: seq<Byte>, p: seq<Byte>)
    requires IsFrame(hash, h, p)
    ensures |h| == HEADER_SIZE && |p| > 0
  {
  }

  lemma PartlyFirst(h: seq<Byte>, p: seq<Byte>)
    requires |h| == HEADER_SIZE
    ensures Partly(h, p, 1) == Scan(1)
  {
  }

  lemma PartlyWaits(h: seq<Byte>, p: seq<Byte>, n: nat)
    requires |h| == HEADER_SIZE && 0 < n
    ensures var rx := Partly(h, p, n);
            && (rx.Scan? <==> n < |MAGIC|) && (rx.Scan? ==> rx.k == n) && (rx.Ready? <==> n >= HEADER_SIZE + |p|)
  {
  }

  lemma NextIn(clock: Clock, before: seq<Tick>, frame: seq<Tick>, n: nat)
    requires 0 < n < |frame| && InTime(clock, frame, 0, |frame|)
    ensures NextInTime(clock, before + frame[..n], |before|, frame[n].now)
  {
    var s := before + frame[..n];
    assert s[|before|] == frame[0] && s[|s| - 1] == frame[n - 1];
  }

  /** A frame that comes in time, after any bytes at any times in which the magic does not occur, is
      received. */
  lemma FrameInTime(hash: Hash, clock: Clock, before: seq<Tick>, frame: seq<Tick>, payload: seq<Byte>)
    requires ClockOk(clock) && 0 < |payload| <= MAX_PAYLOAD && Absent(BytesOf(before))
    requires BytesOf(frame) == Encode(hash, payload) && InTime(clock, frame, 0, |frame|)
    ensures FeedTicks(hash, clock, QUIET, before + frame).rx == Ready(HeaderOf(hash, payload), payload)
  {
    HeaderFields(hash, payload);
    StillScanning(hash, clock, before);
    hide HeaderOf, Absent, Field, FeedTicks;
    assert frame[..|frame|] == frame;
    PartInTime(hash, clock, before, frame, HeaderOf(hash, payload), payload, |frame|);
  }
}
