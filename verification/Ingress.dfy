/** The frame receiver of src/i2_ingress.c and the encoder it answers to. */
module Ingress {
  import opened Bytes

  const MAGIC: seq<Byte> := [0x49, 0x32, 0x46, 0x4E, 0x0D, 0x0A, 0x1A, 0x0A]
  const HEADER_SIZE: nat := 56
  const MAX_PAYLOAD: nat := 0x7000

  /** What the receiver has: so many bytes of the magic; a partial header; a header and a partial
      payload; or a whole frame. */
  datatype Rx = Scan(k: nat) | Header(header: seq<Byte>) | Body(header: seq<Byte>, payload: seq<Byte>) | Ready(header: seq<Byte>, payload: seq<Byte>)

  datatype Reason = Version | HeaderBad | Length | DigestBad | Timeout

  predicate RxOk(s: Rx) {
    match s
    case Scan(k) => k < |MAGIC|
    case Header(h) => |MAGIC| <= |h| < HEADER_SIZE
    case Body(h, p) => |h| == HEADER_SIZE && |p| < Field(h, 16, 8) <= MAX_PAYLOAD
    case Ready(h, p) => |h| == HEADER_SIZE
  }

  /** What a complete header leads to; a rejection starts the scan over. */
  function HeaderDone(h: seq<Byte>): (s: Rx)
    requires |h| == HEADER_SIZE
    ensures RxOk(s)
  {
    if Field(h, 8, 2) != 1 || Field(h, 10, 2) != 0 then Scan(0)
    else if Field(h, 12, 2) != HEADER_SIZE || Field(h, 14, 2) != 0 then Scan(0)
    else if Field(h, 16, 8) == 0 || Field(h, 16, 8) > MAX_PAYLOAD then Scan(0)
    else Body(h, [])
  }

  function BodyDone(hash: Hash, h: seq<Byte>, p: seq<Byte>): (s: Rx)
    requires |h| == HEADER_SIZE
    ensures RxOk(s)
  {
    if hash(p) == h[24..56] then Ready(h, p) else Scan(0)
  }

  /** `i2_rx_feed_byte`, when no deadline has passed. */
  function Feed(hash: Hash, s: Rx, b: Byte): (s': Rx)
    requires RxOk(s)
    ensures RxOk(s')
  {
    match s
    case Scan(k) =>
      if b == MAGIC[k] then if k + 1 == |MAGIC| then Header(MAGIC) else Scan(k + 1)
      else Scan(if b == MAGIC[0] then 1 else 0)
    case Header(h) => if |h| + 1 < HEADER_SIZE then Header(h + [b]) else HeaderDone(h + [b])
    case Body(h, p) => if |p| + 1 < Field(h, 16, 8) then Body(h, p + [b]) else BodyDone(hash, h, p + [b])
    case Ready(_, _) => s
  }

  function FeedAll(hash: Hash, s: Rx, bytes: seq<Byte>): (s': Rx)
    requires RxOk(s)
    ensures RxOk(s')
    decreases |bytes|
  {
    if bytes == [] then s else FeedAll(hash, Feed(hash, s, bytes[0]), bytes[1..])
  }

  lemma {:induction false} FeedConcat(hash: Hash, s: Rx, a: seq<Byte>, b: seq<Byte>)
    requires RxOk(s)
    ensures FeedAll(hash, s, a + b) == FeedAll(hash, FeedAll(hash, s, a), b)
    decreases |a|
  {
    if a == [] {
      assert a + b == b;
    } else {
      assert (a + b)[1..] == a[1..] + b;
      FeedConcat(hash, Feed(hash, s, a[0]), a[1..], b);
    }
  }

  // ----- The scan -----

  /** The bytes end with this many bytes of the magic. */
  predicate EndsWith(bytes: seq<Byte>, k: nat) {
    k <= |MAGIC| && k <= |bytes| && bytes[|bytes| - k..] == MAGIC[..k]
  }

  /** The magic is nowhere in the bytes. */
  predicate Absent(bytes: seq<Byte>) {
    forall i :: 0 <= i <= |bytes| ==> !EndsWith(bytes[..i], |MAGIC|)
  }

  /** The first byte of the magic occurs in it only once, so no prefix of it ends with a shorter
      prefix. */
  lemma NoBorder(k: nat, j: nat)
    requires j < k <= |MAGIC|
    ensures EndsWith(MAGIC[..k], j) ==> j == 0
  {
    if j > 0 {
      assert MAGIC[..k][k - j..][0] == MAGIC[k - j] != MAGIC[0] == MAGIC[..j][0];
    }
  }

  lemma EndsWithNext(bytes: seq<Byte>, b: Byte, k: nat)
    requires k < |MAGIC|
    ensures EndsWith(bytes + [b], k + 1) <==> EndsWith(bytes, k) && b == MAGIC[k]
  {
    var all := bytes + [b];
    if k <= |bytes| {
      assert all[|all| - (k + 1)..] == bytes[|bytes| - k..] + [b];
      assert MAGIC[..k + 1] == MAGIC[..k] + [MAGIC[k]];
    }
  }

  lemma EndsWithTwice(bytes: seq<Byte>, k: nat, j: nat)
    requires EndsWith(bytes, k) && EndsWith(bytes, j) && j <= k
    ensures EndsWith(MAGIC[..k], j)
  {
    var tail := bytes[|bytes| - k..];
    assert tail[k - j..] == bytes[|bytes| - j..];
  }

  /** The scanner's count is the longest end of the stream that begins the magic. */
  predicate Longest(bytes: seq<Byte>, k: nat) {
    k < |MAGIC| && EndsWith(bytes, k) && forall j :: k < j < |MAGIC| ==> !EndsWith(bytes, j)
  }

  lemma LongestNext(bytes: seq<Byte>, b: Byte, k: nat)
    requires Longest(bytes, k) && !EndsWith(bytes + [b], |MAGIC|)
    ensures Longest(bytes + [b], if b == MAGIC[k] then k + 1 else if b == MAGIC[0] then 1 else 0)
  {
    var all := bytes + [b];
    var n := if b == MAGIC[k] then k + 1 else if b == MAGIC[0] then 1 else 0;
    EndsWithNext(bytes, b, k);
    EndsWithNext(bytes, b, 0);
    assert EndsWith(bytes, 0) && EndsWith(all, 0);
    forall j | n < j < |MAGIC|
      ensures !EndsWith(all, j)
    {
      NotLonger(bytes, b, k, j);
    }
    hide EndsWith;
  }

  /** No end longer than the scanner's count begins the magic. */
  lemma NotLonger(bytes: seq<Byte>, b: Byte, k: nat, j: nat)
    requires Longest(bytes, k) && j < |MAGIC|
    requires (if b == MAGIC[k] then k + 1 else if b == MAGIC[0] then 1 else 0) < j
    ensures !EndsWith(bytes + [b], j)
  {
    hide EndsWith;
    EndsWithNext(bytes, b, j - 1);
    if EndsWith(bytes, j - 1) && j - 1 < k {
      EndsWithTwice(bytes, k, j - 1);
      NoBorder(k, j - 1);
    }
  }

  lemma FeedOne(hash: Hash, s: Rx, b: Byte)
    requires RxOk(s)
    ensures FeedAll(hash, s, [b]) == Feed(hash, s, b)
  {
    assert [b][1..] == [];
  }

  lemma ScanStep(hash: Hash, front: seq<Byte>, b: Byte, k: nat)
    requires Longest(front, k) && !EndsWith(front + [b], |MAGIC|)
    ensures var s := Feed(hash, Scan(k), b); s.Scan? && Longest(front + [b], s.k)
  {
    hide Longest, EndsWith;
    LongestIs(front, k);
    EndsWithNext(front, b, k);
    LongestNext(front, b, k);
  }

  lemma LongestIs(bytes: seq<Byte>, k: nat)
    requires Longest(bytes, k)
    ensures k < |MAGIC| && EndsWith(bytes, k)
  {
  }

  lemma {:induction false} ScanCounts(hash: Hash, bytes: seq<Byte>)
    requires Absent(bytes)
    ensures var s := FeedAll(hash, Scan(0), bytes); s.Scan? && Longest(bytes, s.k)
    decreases |bytes|
  {
    if bytes == [] {
      assert EndsWith([], 0);
    } else {
      var n := |bytes| - 1;
      var (front, b) := (bytes[..n], bytes[n]);
      assert bytes == front + [b];
      forall i | 0 <= i <= n
        ensures !EndsWith(front[..i], |MAGIC|)
      {
        assert front[..i] == bytes[..i];
      }
      ScanCounts(hash, front);
      FeedConcat(hash, Scan(0), front, [b]);
      var k := FeedAll(hash, Scan(0), front).k;
      assert bytes[..n + 1] == bytes && bytes[..n + 1] == front + [b];
      FeedOne(hash, Scan(k), b);
      ScanStep(hash, front, b, k);
    }
  }

  // ----- A frame -----

  /** `i2_frame_encode`. */
  function HeaderOf(hash: Hash, payload: seq<Byte>): (h: seq<Byte>)
    ensures |h| == HEADER_SIZE
  {
    MAGIC + LE(2, 1) + LE(2, 0) + LE(2, HEADER_SIZE) + LE(2, 0) + LE(8, |payload|) + hash(payload)
  }

  function Encode(hash: Hash, payload: seq<Byte>): seq<Byte> {
    HeaderOf(hash, payload) + payload
  }

  lemma HeaderFields(hash: Hash, payload: seq<Byte>)
    requires |payload| <= MAX_PAYLOAD
    ensures var h := HeaderOf(hash, payload);
            && h[..8] == MAGIC && Field(h, 8, 2) == 1 && Field(h, 10, 2) == 0 && Field(h, 12, 2) == HEADER_SIZE && Field(h, 14, 2) == 0
            && Field(h, 16, 8) == |payload| && h[24..56] == hash(payload)
  {
    hide LE, FromLE;
    var h := HeaderOf(hash, payload);
    assert h[..8] == MAGIC;
    assert h[8..10] == LE(2, 1);
    assert h[10..12] == LE(2, 0);
    assert h[12..14] == LE(2, HEADER_SIZE);
    assert h[14..16] == LE(2, 0);
    assert h[16..24] == LE(8, |payload|);
    assert h[24..56] == hash(payload);
    ShortWords();
    Word64(|payload|);
  }

  lemma ShortWords()
    ensures FromLE(LE(2, 1)) == 1 && FromLE(LE(2, 0)) == 0 && FromLE(LE(2, HEADER_SIZE)) == HEADER_SIZE
  {
    assert Pow256(2) == 65536;
    WordRoundTrip(2, 1);
    WordRoundTrip(2, 0);
    WordRoundTrip(2, HEADER_SIZE);
  }

  /** The rest of a header, byte by byte. */
  lemma {:induction false} FeedHeader(hash: Hash, h: seq<Byte>, n: nat)
    requires |h| == HEADER_SIZE && |MAGIC| <= n < HEADER_SIZE
    ensures FeedAll(hash, Header(h[..n]), h[n..]) == HeaderDone(h)
    decreases HEADER_SIZE - n
  {
    assert h[..n] + [h[n]] == h[..n + 1] && h[n..][1..] == h[n + 1..] && h[n..][0] == h[n];
    hide HeaderDone;
    if n + 1 < HEADER_SIZE {
      FeedHeader(hash, h, n + 1);
    } else {
      assert h[..n + 1] == h && h[n + 1..] == [];
    }
  }

  /** The payload, byte by byte. */
  lemma {:induction false} FeedBody(hash: Hash, h: seq<Byte>, p: seq<Byte>, n: nat)
    requires |h| == HEADER_SIZE && Field(h, 16, 8) == |p| <= MAX_PAYLOAD && n < |p|
    ensures FeedAll(hash, Body(h, p[..n]), p[n..]) == BodyDone(hash, h, p)
    decreases |p| - n
  {
    assert p[..n] + [p[n]] == p[..n + 1] && p[n..][1..] == p[n + 1..] && p[n..][0] == p[n];
    hide BodyDone, Field;
    if n + 1 < |p| {
      FeedBody(hash, h, p, n + 1);
    } else {
      assert p[..n + 1] == p && p[n + 1..] == [];
    }
  }

  /** An encoder's header is taken, and so is its digest. */
  lemma HeaderAccepted(hash: Hash, h: seq<Byte>, payload: seq<Byte>)
    requires 0 < |payload| <= MAX_PAYLOAD && |h| == HEADER_SIZE && Field(h, 8, 2) == 1 && Field(h, 10, 2) == 0
    requires Field(h, 12, 2) == HEADER_SIZE && Field(h, 14, 2) == 0 && Field(h, 16, 8) == |payload| && h[24..56] == hash(payload)
    ensures HeaderDone(h) == Body(h, []) && BodyDone(hash, h, payload) == Ready(h, payload)
  {
    hide Field;
  }

  lemma FrameFromHeader(hash: Hash, h: seq<Byte>, payload: seq<Byte>, n: nat)
    requires 0 < |payload| <= MAX_PAYLOAD && |h| == HEADER_SIZE && Field(h, 8, 2) == 1 && Field(h, 10, 2) == 0
    requires Field(h, 12, 2) == HEADER_SIZE && Field(h, 14, 2) == 0 && Field(h, 16, 8) == |payload| && h[24..56] == hash(payload)
    requires |MAGIC| <= n < HEADER_SIZE
    ensures FeedAll(hash, Header(h[..n]), (h + payload)[n..]) == Ready(h, payload)
  {
    hide FeedAll, Field, HeaderDone, BodyDone;
    HeaderAccepted(hash, h, payload);
    FeedHeader(hash, h, n);
    FeedBody(hash, h, payload, 0);
    assert payload[..0] == [] && payload[0..] == payload;
    assert (h + payload)[n..] == h[n..] + payload;
    FeedConcat(hash, Header(h[..n]), h[n..], payload);
  }

  /** From the magic on, an encoded frame ends ready with its payload. */
  lemma FrameFromMagic(hash: Hash, payload: seq<Byte>)
    requires 0 < |payload| <= MAX_PAYLOAD
    ensures FeedAll(hash, Header(MAGIC), Encode(hash, payload)[|MAGIC|..]) == Ready(HeaderOf(hash, payload), payload)
  {
    HeaderFields(hash, payload);
    hide HeaderOf, FeedAll, Field;
    FrameFromHeader(hash, HeaderOf(hash, payload), payload, |MAGIC|);
  }

  /** After any bytes in which the magic does not occur before the frame starts, the frame is
      received with exactly its payload.  The scan may have begun at power-up or at a rejection. */
  lemma FrameReceived(hash: Hash, garbage: seq<Byte>, payload: seq<Byte>)
    requires 0 < |payload| <= MAX_PAYLOAD && Absent(garbage + MAGIC[..|MAGIC| - 1])
    ensures FeedAll(hash, Scan(0), garbage + Encode(hash, payload)) == Ready(HeaderOf(hash, payload), payload)
  {
    hide Absent, Longest, EndsWith, HeaderOf, Encode, FeedAll;
    var before := garbage + MAGIC[..|MAGIC| - 1];
    FrameSplit(hash, garbage, payload);
    var rest := Encode(hash, payload)[|MAGIC|..];
    AtLast(hash, garbage);
    FeedConcat(hash, Scan(0), before, [MAGIC[|MAGIC| - 1]] + rest);
    LastMagic(hash, rest);
    FrameFromMagic(hash, payload);
  }

  lemma AtLast(hash: Hash, garbage: seq<Byte>)
    requires Absent(garbage + MAGIC[..|MAGIC| - 1])
    ensures FeedAll(hash, Scan(0), garbage + MAGIC[..|MAGIC| - 1]) == Scan(|MAGIC| - 1)
  {
    var last := |MAGIC| - 1;
    var before := garbage + MAGIC[..last];
    ScanCounts(hash, before);
    hide FeedAll, Absent;
    assert before[|before| - last..] == MAGIC[..last];
    assert EndsWith(before, last);
  }

  lemma LastMagic(hash: Hash, rest: seq<Byte>)
    ensures FeedAll(hash, Scan(|MAGIC| - 1), [MAGIC[|MAGIC| - 1]] + rest) == FeedAll(hash, Header(MAGIC), rest)
  {
    assert ([MAGIC[|MAGIC| - 1]] + rest)[1..] == rest;
  }

  lemma FrameSplit(hash: Hash, garbage: seq<Byte>, payload: seq<Byte>)
    requires 0 < |payload| <= MAX_PAYLOAD
    ensures |Encode(hash, payload)| >= |MAGIC|
    ensures garbage + Encode(hash, payload)
         == (garbage + MAGIC[..|MAGIC| - 1]) + ([MAGIC[|MAGIC| - 1]] + Encode(hash, payload)[|MAGIC|..])
  {
    var h := HeaderOf(hash, payload);
    HeaderFields(hash, payload);
    Rejoin(garbage, h, payload);
  }

  lemma Rejoin(garbage: seq<Byte>, h: seq<Byte>, payload: seq<Byte>)
    requires |h| >= |MAGIC| && h[..|MAGIC|] == MAGIC
    ensures garbage + (h + payload) == (garbage + MAGIC[..|MAGIC| - 1]) + ([MAGIC[|MAGIC| - 1]] + (h + payload)[|MAGIC|..])
  {
    var rest := (h + payload)[|MAGIC|..];
    var (front, last) := (MAGIC[..|MAGIC| - 1], [MAGIC[|MAGIC| - 1]]);
    assert h + payload == MAGIC + rest by {
      assert (h + payload)[..|MAGIC|] == h[..|MAGIC|];
    }
    assert MAGIC == front + last;
    Associate(garbage, front, last, rest);
  }

  lemma Associate(a: seq<Byte>, b: seq<Byte>, c: seq<Byte>, d: seq<Byte>)
    ensures a + ((b + c) + d) == (a + b) + (c + d)
  {
  }

  /** Every rejection of a byte starts the scan over, so a frame right after it is received. */
  lemma AfterRejection(hash: Hash, s: Rx, b: Byte, payload: seq<Byte>)
    requires RxOk(s) && !s.Scan? && Feed(hash, s, b).Scan? && 0 < |payload| <= MAX_PAYLOAD
    ensures FeedAll(hash, Feed(hash, s, b), Encode(hash, payload)) == Ready(HeaderOf(hash, payload), payload)
  {
    var none: seq<Byte> := [];
    assert none + MAGIC[..|MAGIC| - 1] == MAGIC[..|MAGIC| - 1];
    assert Absent(MAGIC[..|MAGIC| - 1]);
    assert none + Encode(hash, payload) == Encode(hash, payload);
    FrameReceived(hash, none, payload);
    hide HeaderOf, FeedAll;
  }
}
