/** The stream-hmac-v1 codec: chained, authenticated frames around request envelopes (hmac/stream.go). */
module StreamCodec {
  import opened AuthModel

  type byte = x: int | 0 <= x < 256
  type Bytes = seq<byte>

  const MAX_PAYLOAD := 5 * 0x10_0000
  const MAC_SIZE := 32
  const FIXED_SIZE := 4 + 1 + 1 + 8 + MAC_SIZE + 4 + MAC_SIZE
  const TWO_32 := 0x1_0000_0000
  const TWO_64 := 0x1_0000_0000_0000_0000
  const MAGIC: Bytes := [0x41, 0x54, 0x48, 0x31]
  /** "atol-stream-frame/v1" and a zero byte. */
  const LABEL: Bytes := [0x61, 0x74, 0x6f, 0x6c, 0x2d, 0x73, 0x74, 0x72, 0x65, 0x61, 0x6d, 0x2d,
                         0x66, 0x72, 0x61, 0x6d, 0x65, 0x2f, 0x76, 0x31, 0]
  const DATA: byte := 0
  const CLOSE: byte := 1

  /** HMAC-SHA256 (RFC 2104) is any function of key and message with 32-byte results. */
  type Hmac = f: (Bytes, Bytes) -> Bytes | forall k, m :: |f(k, m)| == MAC_SIZE
    witness (k: Bytes, m: Bytes) => seq(MAC_SIZE, i => 0)

  datatype StreamError = Malformed | Integrity | Sequence | Truncated

  datatype Envelope = Envelope(flags: byte, payload: Bytes)

  // ---- big-endian integers ----

  function BE32(n: nat): (b: Bytes)
    requires n < TWO_32
    ensures |b| == 4
  {
    [n / 256 / 256 / 256, n / 256 / 256 % 256, n / 256 % 256, n % 256]
  }

  function U32(b: Bytes): (n: nat)
    requires |b| == 4
    ensures n < TWO_32
  {
    var b0: int, b1: int, b2: int, b3: int := b[0], b[1], b[2], b[3];
    ((b0 * 256 + b1) * 256 + b2) * 256 + b3
  }

  lemma U32BE32(n: nat)
    requires n < TWO_32
    ensures U32(BE32(n)) == n
  {
  }

  lemma BE32U32(b: Bytes)
    requires |b| == 4
    ensures BE32(U32(b)) == b
  {
    var b0: int, b1: int, b2: int, b3: int := b[0], b[1], b[2], b[3];
    Digit(b0 * 256 + b1, b2);
    Digit((b0 * 256 + b1) * 256 + b2, b3);
    Digit(b0, b1);
  }

  lemma Digit(high: nat, low: nat)
    requires low < 256
    ensures (high * 256 + low) / 256 == high && (high * 256 + low) % 256 == low
  {
  }

  function BE64(n: nat): (b: Bytes)
    requires n < TWO_64
    ensures |b| == 8
  {
    BE32(n / TWO_32) + BE32(n % TWO_32)
  }

  function U64(b: Bytes): (n: nat)
    requires |b| == 8
    ensures n < TWO_64
  {
    U32(b[..4]) * TWO_32 + U32(b[4..])
  }

  lemma BE64U64(b: Bytes)
    requires |b| == 8
    ensures BE64(U64(b)) == b
  {
    hide BE32, U32;
    var high, low := U32(b[..4]), U32(b[4..]);
    assert (high * TWO_32 + low) / TWO_32 == high && (high * TWO_32 + low) % TWO_32 == low;
    BE32U32(b[..4]);
    BE32U32(b[4..]);
    assert b == b[..4] + b[4..];
  }

  lemma U64BE64(n: nat)
    requires n < TWO_64
    ensures U64(BE64(n)) == n
  {
    U32BE32(n / TWO_32);
    U32BE32(n % TWO_32);
    assert BE64(n)[..4] == BE32(n / TWO_32) && BE64(n)[4..] == BE32(n % TWO_32);
  }

  /** The most significant byte comes first. */
  lemma BigEndian32(n: nat)
    requires n < TWO_32
    ensures
      var b := BE32(n);
      var b0: int, b1: int, b2: int, b3: int := b[0], b[1], b[2], b[3];
      n == b0 * 0x100_0000 + b1 * 0x1_0000 + b2 * 0x100 + b3
  {
    U32BE32(n);
  }

  lemma BigEndian64(n: nat)
    requires n < TWO_64
    ensures n == U32(BE64(n)[..4]) * 0x1_0000_0000 + U32(BE64(n)[4..])
    ensures BE64(n)[..4] == BE32(n / 0x1_0000_0000) && BE64(n)[4..] == BE32(n % 0x1_0000_0000)
  {
    U64BE64(n);
  }

  predicate IsAscii(s: string) {
    forall i | 0 <= i < |s| :: s[i] < 128 as char
  }

  function Ascii(s: string): Bytes
    requires IsAscii(s)
  {
    seq(|s|, i requires 0 <= i < |s| => s[i] as int)
  }

  /** The protocol's texts and sizes. */
  lemma ProtocolConstants()
    ensures IsAscii("ATH1") && MAGIC == Ascii("ATH1")
    ensures IsAscii("atol-stream-frame/v1") && LABEL == Ascii("atol-stream-frame/v1") + [0]
    ensures FIXED_SIZE == 82 && MAX_PAYLOAD == 5_242_880 && DATA == 0 && CLOSE == 1
  {
  }

  function Next(sequence: nat): nat {
    (sequence + 1) % TWO_64
  }

  // ---- frames ----

  function Body(kind: byte, flags: byte, sequence: nat, previous: Bytes, payload: Bytes): (b: Bytes)
    requires sequence < TWO_64 && |previous| == MAC_SIZE && |payload| < TWO_32
    ensures |b| == FIXED_SIZE - MAC_SIZE + |payload|
  {
    MAGIC + [kind, flags] + BE64(sequence) + previous + BE32(|payload|) + payload
  }

  function FrameMac(h: Hmac, key: Bytes, authenticated: Bytes): (m: Bytes)
    ensures |m| == MAC_SIZE
  {
    h(key, LABEL + authenticated)
  }

  /** What one frame needs besides its content: the MAC, and the reader's or writer's place in the chain. */
  datatype Chain = Chain(h: Hmac, key: Bytes, sequence: nat, previous: Bytes) {
    predicate Ok() {
      sequence < TWO_64 && |previous| == MAC_SIZE
    }

    function After(mac: Bytes): Chain {
      Chain(h, key, Next(sequence), mac)
    }
  }

  function Start(h: Hmac, key: Bytes): (c: Chain)
    ensures c.Ok()
  {
    Chain(h, key, 0, seq(MAC_SIZE, i => 0))
  }

  function BodyIn(c: Chain, kind: byte, e: Envelope): Bytes
    requires c.Ok() && |e.payload| < TWO_32
  {
    Body(kind, e.flags, c.sequence, c.previous, e.payload)
  }

  function MacIn(c: Chain, kind: byte, e: Envelope): (m: Bytes)
    requires c.Ok() && |e.payload| < TWO_32
    ensures |m| == MAC_SIZE
  {
    FrameMac(c.h, c.key, BodyIn(c, kind, e))
  }

  function FrameIn(c: Chain, kind: byte, e: Envelope): (f: Bytes)
    requires c.Ok() && |e.payload| < TWO_32
    ensures |f| == FIXED_SIZE + |e.payload|
  {
    BodyIn(c, kind, e) + MacIn(c, kind, e)
  }

  const NOTHING := Envelope(0, [])

  function Outer(frame: Bytes): (b: Bytes)
    requires |frame| < TWO_32
    ensures |b| == 5 + |frame|
  {
    [0] + BE32(|frame|) + frame
  }

  predicate Fits(e: Envelope) {
    |e.payload| <= MAX_PAYLOAD
  }

  predicate AllFit(es: seq<Envelope>) {
    forall i | 0 <= i < |es| :: Fits(es[i])
  }

  /** The frames for es, the authenticated close frame last. */
  function Frames(c: Chain, es: seq<Envelope>): (fs: seq<Bytes>)
    requires c.Ok() && AllFit(es)
    ensures |fs| == |es| + 1
    ensures forall i | 0 <= i < |fs| :: FIXED_SIZE <= |fs[i]| <= FIXED_SIZE + MAX_PAYLOAD
    decreases |es|
  {
    if es == [] then [FrameIn(c, CLOSE, NOTHING)]
    else [FrameIn(c, DATA, es[0])] + Frames(c.After(MacIn(c, DATA, es[0])), es[1..])
  }

  predicate Short(fs: seq<Bytes>) {
    forall i | 0 <= i < |fs| :: |fs[i]| < TWO_32
  }

  function Join(fs: seq<Bytes>): Bytes
    requires Short(fs)
  {
    if fs == [] then [] else Outer(fs[0]) + Join(fs[1..])
  }

  /** The wire form of es. */
  function Encode(c: Chain, es: seq<Envelope>): Bytes
    requires c.Ok() && AllFit(es)
    decreases |es|
  {
    if es == [] then Outer(FrameIn(c, CLOSE, NOTHING))
    else Outer(FrameIn(c, DATA, es[0])) + Encode(c.After(MacIn(c, DATA, es[0])), es[1..])
  }

  function EnvelopeBytes(e: Envelope): Bytes
    requires |e.payload| < TWO_32
  {
    [e.flags] + BE32(|e.payload|) + e.payload
  }

  function Flatten(es: seq<Envelope>): Bytes
    requires AllFit(es)
  {
    if es == [] then [] else EnvelopeBytes(es[0]) + Flatten(es[1..])
  }

  /** On the wire a frame is a zero byte, its length and the frame; an envelope its flags, length and payload. */
  lemma WireLayout(frame: Bytes, e: Envelope)
    requires |frame| < TWO_32 && |e.payload| < TWO_32
    ensures Outer(frame)[0] == 0 && Outer(frame)[1..5] == BE32(|frame|) && Outer(frame)[5..] == frame
    ensures EnvelopeBytes(e)[0] == e.flags && EnvelopeBytes(e)[1..5] == BE32(|e.payload|)
    ensures EnvelopeBytes(e)[5..] == e.payload
  {
    hide BE32;
  }

  // ---- the verifier as a function of its input ----

  datatype Opened = Data(e: Envelope, mac: Bytes, rest: Bytes) | Closed

  /** One frame off the front of the input, or the reason it is refused, in the order the reader looks. */
  function Open(c: Chain, input: Bytes): (r: Result<Opened, StreamError>)
    requires c.Ok()
    ensures r.Ok? && r.value.Data? ==> |r.value.rest| < |input| && |r.value.mac| == MAC_SIZE && Fits(r.value.e)
  {
    if input == [] then Err(Truncated)
    else if |input| < 5 || input[0] != 0 then Err(Malformed)
    else
      var n := U32(input[1..5]);
      if n < FIXED_SIZE || n > FIXED_SIZE + MAX_PAYLOAD || |input| < 5 + n then Err(Malformed)
      else OpenFrame(c, input[5..5 + n], input[5 + n..])
  }

  function OpenFrame(c: Chain, f: Bytes, rest: Bytes): (r: Result<Opened, StreamError>)
    requires c.Ok() && FIXED_SIZE <= |f| <= FIXED_SIZE + MAX_PAYLOAD
    ensures r.Ok? && r.value.Data? ==> r.value.rest == rest && |r.value.mac| == MAC_SIZE && Fits(r.value.e)
  {
    var macAt := |f| - MAC_SIZE;
    var mac := FrameMac(c.h, c.key, f[..macAt]);
    if f[..4] != MAGIC then Err(Malformed)
    else if U64(f[6..14]) != c.sequence || f[14..46] != c.previous then Err(Sequence)
    else if U32(f[46..50]) != |f| - FIXED_SIZE then Err(Malformed)
    else if f[macAt..] != mac then Err(Integrity)
    else if f[4] == DATA then Ok(Data(Envelope(f[5], f[50..macAt]), mac, rest))
    else if f[4] == CLOSE && f[5] == 0 && U32(f[46..50]) == 0 && rest == [] then Ok(Closed)
    else Err(Malformed)
  }

  datatype Verdict = Verdict(envelopes: seq<Envelope>, error: Option<StreamError>)

  /** Everything the reader yields, and its first error if it does not reach the end cleanly. */
  function Verify(c: Chain, input: Bytes): (v: Verdict)
    requires c.Ok()
    ensures AllFit(v.envelopes)
    decreases |input|
  {
    match Open(c, input)
    case Err(e) => Verdict([], Some(e))
    case Ok(Closed) => Verdict([], None)
    case Ok(Data(e, mac, rest)) =>
      var tail := Verify(c.After(mac), rest);
      Verdict([e] + tail.envelopes, tail.error)
  }

  // ---- the codec theorem ----

  lemma BodySlices(kind: byte, flags: byte, sequence: nat, previous: Bytes, payload: Bytes, tail: Bytes)
    requires sequence < TWO_64 && |previous| == MAC_SIZE && |payload| < TWO_32
    ensures var f := Body(kind, flags, sequence, previous, payload) + tail;
      && f[..4] == MAGIC && f[4] == kind && f[5] == flags
      && f[6..14] == BE64(sequence) && f[14..46] == previous && f[46..50] == BE32(|payload|)
      && f[50..50 + |payload|] == payload && f[50 + |payload|..] == tail
  {
    hide BE64, BE32;
  }

  /** A frame that passes the field checks is the body those fields spell. */
  lemma SlicesBody(f: Bytes)
    requires |f| >= FIXED_SIZE - MAC_SIZE && f[..4] == MAGIC
    requires U32(f[46..50]) == |f| - 50
    ensures f == Body(f[4], f[5], U64(f[6..14]), f[14..46], f[50..])
  {
    hide BE64, BE32, U32, U64;
    BE64U64(f[6..14]);
    BE32U32(f[46..50]);
    assert f == f[..4] + [f[4], f[5]] + f[6..14] + f[14..46] + f[46..50] + f[50..];
  }

  lemma OpenOuter(c: Chain, f: Bytes, rest: Bytes)
    requires c.Ok() && FIXED_SIZE <= |f| <= FIXED_SIZE + MAX_PAYLOAD
    ensures Open(c, Outer(f) + rest) == OpenFrame(c, f, rest)
  {
    hide OpenFrame;
    var input := Outer(f) + rest;
    U32BE32(|f|);
    assert input[1..5] == BE32(|f|);
    assert input[5..5 + |f|] == f && input[5 + |f|..] == rest;
  }

  /** Sealing then opening. */
  lemma OpenSealed(c: Chain, kind: byte, e: Envelope, rest: Bytes)
    requires c.Ok() && Fits(e)
    ensures kind == DATA ==>
      Open(c, Outer(FrameIn(c, kind, e)) + rest) == Ok(Data(e, MacIn(c, kind, e), rest))
    ensures kind == CLOSE && e == NOTHING && rest == [] ==> Open(c, Outer(FrameIn(c, kind, e)) + rest) == Ok(Closed)
  {
    var f := FrameIn(c, kind, e);
    OpenOuter(c, f, rest);
    BodySlices(kind, e.flags, c.sequence, c.previous, e.payload, MacIn(c, kind, e));
    U64BE64(c.sequence);
    U32BE32(|e.payload|);
    assert f[..|f| - MAC_SIZE] == BodyIn(c, kind, e);
    hide Body, BE64, U64, BE32, U32, Open;
  }

  lemma SliceOfPrefix(f: Bytes, k: nat, i: nat, j: nat)
    requires i <= j <= k <= |f|
    ensures f[..k][i..j] == f[i..j]
  {
  }

  lemma Rejoin(s: Bytes, n: nat)
    requires |s| >= 5 + n
    ensures s == [s[0]] + s[1..5] + s[5..5 + n] + s[5 + n..]
  {
  }

  /** Opening succeeds only on what sealing produces. */
  lemma OpenedWasSealed(c: Chain, input: Bytes)
    requires c.Ok() && Open(c, input).Ok?
    ensures match Open(c, input).value
      case Closed => input == Outer(FrameIn(c, CLOSE, NOTHING))
      case Data(e, mac, rest) => mac == MacIn(c, DATA, e) && input == Outer(FrameIn(c, DATA, e)) + rest
  {
    hide Body, BE64, U64, BE32, U32;
    var n := U32(input[1..5]);
    var f, rest := input[5..5 + n], input[5 + n..];
    assert input == Outer(f) + rest by {
      BE32U32(input[1..5]);
      Rejoin(input, n);
    }
    var body := f[..|f| - MAC_SIZE];
    assert f == body + f[|f| - MAC_SIZE..];
    SliceOfPrefix(f, |body|, 0, 4);
    SliceOfPrefix(f, |body|, 6, 14);
    SliceOfPrefix(f, |body|, 14, 46);
    SliceOfPrefix(f, |body|, 46, 50);
    SliceOfPrefix(f, |body|, 50, |body|);
    SlicesBody(body);
    if f[4] == CLOSE { assert f[50..|f| - MAC_SIZE] == []; }
  }

  /** The verifier reaches a clean end on exactly one byte string per envelope sequence: the encoder's. */
  lemma {:induction false} VerifierAcceptsExactlyEncodings(c: Chain, input: Bytes, es: seq<Envelope>)
    requires c.Ok() && AllFit(es)
    ensures Verify(c, input) == Verdict(es, None) <==> input == Encode(c, es)
    decreases |es|
  {
    hide Open, OpenFrame, FrameIn, MacIn;
    if es == [] {
      if input == Encode(c, es) {
        OpenSealed(c, CLOSE, NOTHING, []);
        assert input + [] == input;
      }
      if Verify(c, input) == Verdict(es, None) { OpenedWasSealed(c, input); }
    } else {
      var e, mac := es[0], MacIn(c, DATA, es[0]);
      assert es == [e] + es[1..];
      if input == Encode(c, es) {
        var rest := Encode(c.After(mac), es[1..]);
        OpenSealed(c, DATA, e, rest);
        VerifierAcceptsExactlyEncodings(c.After(mac), rest, es[1..]);
      }
      if Verify(c, input) == Verdict(es, None) {
        OpenedWasSealed(c, input);
        var got := Open(c, input).value;
        assert got.e == e && got.mac == mac;
        assert Verify(c.After(mac), got.rest).envelopes == es[1..];
        VerifierAcceptsExactlyEncodings(c.After(mac), got.rest, es[1..]);
      }
    }
  }

  // ---- consequences for damaged streams ----

  lemma OuterIsPrefixCode(f: Bytes, x: Bytes, g: Bytes, y: Bytes)
    requires |f| < TWO_32 && |g| < TWO_32 && Outer(f) + x == Outer(g) + y
    ensures f == g && x == y
  {
    var l, r := Outer(f) + x, Outer(g) + y;
    assert l[1..5] == BE32(|f|) && r[1..5] == BE32(|g|);
    U32BE32(|f|);
    U32BE32(|g|);
    assert f == l[5..5 + |f|] && g == r[5..5 + |g|];
    assert x == l[5 + |f|..] && y == r[5 + |g|..];
  }

  lemma {:induction false} JoinInjective(fs: seq<Bytes>, gs: seq<Bytes>, tail: Bytes)
    requires Short(fs) && Short(gs) && Join(fs) + tail == Join(gs)
    ensures fs <= gs && (tail == [] ==> fs == gs)
  {
    hide Outer;
    JoinNonempty(fs);
    JoinNonempty(gs);
    if fs != [] && gs != [] {
      assert Outer(fs[0]) + (Join(fs[1..]) + tail) == Outer(gs[0]) + Join(gs[1..]);
      OuterIsPrefixCode(fs[0], Join(fs[1..]) + tail, gs[0], Join(gs[1..]));
      JoinInjective(fs[1..], gs[1..], tail);
    }
  }

  lemma JoinNonempty(fs: seq<Bytes>)
    requires Short(fs)
    ensures fs == [] <==> Join(fs) == []
  {
    if fs != [] { assert |Outer(fs[0])| > 0; }
  }

  lemma {:induction false} EncodeJoinsFrames(c: Chain, es: seq<Envelope>)
    requires c.Ok() && AllFit(es)
    ensures Encode(c, es) == Join(Frames(c, es))
    decreases |es|
  {
    hide Outer, FrameIn, MacIn;
    var fs := Frames(c, es);
    if es == [] {
      assert Join(fs[1..]) == [];
    } else {
      EncodeJoinsFrames(c.After(MacIn(c, DATA, es[0])), es[1..]);
    }
  }

  /** The sequence number and kind that frame f carries. */
  ghost predicate Marked(f: Bytes, sequence: nat, kind: byte) {
    |f| >= FIXED_SIZE && f[4] == kind && U64(f[6..14]) == sequence
  }

  lemma FrameIsMarked(c: Chain, kind: byte, e: Envelope)
    requires c.Ok() && |e.payload| < TWO_32
    ensures Marked(FrameIn(c, kind, e), c.sequence, kind)
  {
    BodySlices(kind, e.flags, c.sequence, c.previous, e.payload, MacIn(c, kind, e));
    U64BE64(c.sequence);
    hide Body, BE64, U64, MacIn;
  }

  /** Frame i carries sequence number start + i, and only the last one is a close frame. */
  lemma {:induction false} FrameMarks(c: Chain, es: seq<Envelope>, i: nat)
    requires c.Ok() && AllFit(es) && i <= |es|
    ensures Marked(Frames(c, es)[i], (c.sequence + i) % 0x1_0000_0000_0000_0000, if i == |es| then 1 else 0)
    decreases |es|
  {
    hide FrameIn, MacIn, Marked, Next;
    if es == [] {
      FrameIsMarked(c, CLOSE, NOTHING);
    } else {
      FrameIsMarked(c, DATA, es[0]);
      if i > 0 {
        var next := c.After(MacIn(c, DATA, es[0]));
        NextOk(c, MacIn(c, DATA, es[0]));
        assert Frames(c, es)[i] == Frames(next, es[1..])[i - 1];
        FrameMarks(next, es[1..], i - 1);
        SequenceShift(c.sequence, i);
      }
    }
  }

  lemma NextOk(c: Chain, mac: Bytes)
    requires c.Ok() && |mac| == MAC_SIZE
    ensures c.After(mac).Ok()
  {
  }

  lemma SequenceShift(sequence: nat, i: nat)
    requires sequence < TWO_64 && i > 0
    ensures (Next(sequence) + (i - 1)) % TWO_64 == (sequence + i) % TWO_64
  {
    if sequence + 1 == TWO_64 {
      assert (i - 1) % TWO_64 == (i - 1 + TWO_64) % TWO_64;
    }
  }

  /** Frame i carries envelope i, the close frame an empty one; each frame repeats its predecessor's MAC. */
  lemma {:induction false} FrameContents(c: Chain, es: seq<Envelope>, i: nat)
    requires c.Ok() && AllFit(es) && i <= |es|
    ensures
      var fs := Frames(c, es);
      var f, e := fs[i], if i < |es| then es[i] else Envelope(0, []);
      && |f| == 82 + |e.payload| && f[..4] == MAGIC && f[5] == e.flags && f[50..|f| - 32] == e.payload
      && f[46..50] == BE32(|e.payload|)
      && f[14..46] == (if i == 0 then c.previous else fs[i - 1][|fs[i - 1]| - 32..])
      && f[|f| - 32..] == c.h(c.key, LABEL + f[..|f| - 32])
    decreases |es|
  {
    var e, kind := if es == [] then NOTHING else es[0], if es == [] then CLOSE else DATA;
    FrameHas(c, kind, e);
    hide FrameIn, MacIn, BE32;
    if i > 0 {
      var next := c.After(MacIn(c, DATA, es[0]));
      NextOk(c, MacIn(c, DATA, es[0]));
      FrameContents(next, es[1..], i - 1);
      assert Frames(c, es)[i] == Frames(next, es[1..])[i - 1];
      if i > 1 { assert Frames(c, es)[i - 1] == Frames(next, es[1..])[i - 2]; }
    }
  }

  /** The first frame of a stream carries sequence number 0 and 32 zero bytes for a predecessor. */
  lemma FirstFrame(h: Hmac, key: Bytes, es: seq<Envelope>)
    requires AllFit(es)
    ensures forall k | 6 <= k < 46 :: Frames(Start(h, key), es)[0][k] == 0
  {
    var c, f := Start(h, key), Frames(Start(h, key), es)[0];
    FrameHas(c, if es == [] then CLOSE else DATA, if es == [] then NOTHING else es[0]);
    assert BE64(0) == [0, 0, 0, 0, 0, 0, 0, 0];
    forall k | 6 <= k < 46 ensures f[k] == 0 {
      if k < 14 { assert f[k] == f[6..14][k - 6]; } else { assert f[k] == f[14..46][k - 14]; }
    }
  }

  lemma FrameHas(c: Chain, kind: byte, e: Envelope)
    requires c.Ok() && Fits(e)
    ensures
      var f := FrameIn(c, kind, e);
      && |f| == 82 + |e.payload| && f[..4] == MAGIC && f[4] == kind && f[5] == e.flags
      && f[6..14] == BE64(c.sequence) && f[14..46] == c.previous && f[46..50] == BE32(|e.payload|)
      && f[50..|f| - 32] == e.payload && f[|f| - 32..] == MacIn(c, kind, e) == c.h(c.key, LABEL + f[..|f| - 32])
      && f[..|f| - 32] == BodyIn(c, kind, e)
  {
    BodySlices(kind, e.flags, c.sequence, c.previous, e.payload, MacIn(c, kind, e));
    hide BE64, BE32;
  }

  // ---- tampering ----

  /** Two frames under one MAC are a collision of the hash function on two different messages. */
  lemma MacBinds(h: Hmac, key: Bytes, a: Bytes, b: Bytes)
    requires FrameMac(h, key, a) == FrameMac(h, key, b) && a != b
    ensures LABEL + a != LABEL + b && h(key, LABEL + a) == h(key, LABEL + b)
  {
    assert a == (LABEL + a)[|LABEL|..] && b == (LABEL + b)[|LABEL|..];
  }

  /** How a frame whose body was replaced under its old MAC is refused, by the fields that were changed. */
  function TamperKind(frame: Bytes, body: Bytes): StreamError
    requires FIXED_SIZE <= |frame| && |body| == |frame| - MAC_SIZE
  {
    if body[..4] != frame[..4] then Malformed
    else if body[6..14] != frame[6..14] || body[14..46] != frame[14..46] then Sequence
    else if body[46..50] != frame[46..50] then Malformed
    else Integrity
  }

  lemma TamperedFrame(c: Chain, kind: byte, e: Envelope, body: Bytes, rest: Bytes)
    requires c.Ok() && Fits(e) && |body| == 50 + |e.payload|
    requires c.h(c.key, LABEL + body) != c.h(c.key, LABEL + BodyIn(c, kind, e))
    ensures Open(c, Outer(body + MacIn(c, kind, e)) + rest) == Err(TamperKind(FrameIn(c, kind, e), body))
  {
    hide Body, BE64, U64, BE32, U32, Open, FrameIn, Outer;
    var mac := MacIn(c, kind, e);
    var f := body + mac;
    OpenOuter(c, f, rest);
    FrameHas(c, kind, e);
    assert f[..4] == body[..4] && f[6..14] == body[6..14] && f[14..46] == body[14..46] && f[46..50] == body[46..50];
    assert f[..|f| - MAC_SIZE] == body && f[|f| - MAC_SIZE..] == mac;
    BE64U64(body[6..14]);
    U64BE64(c.sequence);
    BE32U32(body[46..50]);
    U32BE32(|e.payload|);
    hide BodyIn;
  }

  /** One good data frame in front of anything. */
  lemma VerifyData(c: Chain, e: Envelope, rest: Bytes)
    requires c.Ok() && Fits(e)
    ensures
      var tail := Verify(c.After(MacIn(c, DATA, e)), rest);
      Verify(c, Outer(FrameIn(c, DATA, e)) + rest) == Verdict([e] + tail.envelopes, tail.error)
  {
    hide Open, FrameIn, MacIn, Outer;
    OpenSealed(c, DATA, e, rest);
  }

  lemma FramesTail(c: Chain, es: seq<Envelope>) returns (next: Chain)
    requires c.Ok() && AllFit(es) && es != []
    ensures next == c.After(MacIn(c, DATA, es[0])) && next.Ok()
    ensures Frames(c, es) == [FrameIn(c, DATA, es[0])] + Frames(next, es[1..])
  {
    hide FrameIn, MacIn;
    next := c.After(MacIn(c, DATA, es[0]));
  }

  lemma JoinCons(f: Bytes, fs: seq<Bytes>)
    requires |f| < TWO_32 && Short(fs)
    ensures Short([f] + fs) && Join([f] + fs) == Outer(f) + Join(fs)
  {
    hide Outer;
    assert ([f] + fs)[1..] == fs;
  }

  /** The frames of es with the body of frame i replaced and its MAC kept. */
  function Tampered(c: Chain, es: seq<Envelope>, i: nat, body: Bytes): (fs: seq<Bytes>)
    requires c.Ok() && AllFit(es) && i <= |es| && |body| == |Frames(c, es)[i]| - MAC_SIZE
    ensures Short(fs) && |fs| == |es| + 1
  {
    var fs := Frames(c, es);
    fs[i := body + fs[i][|body|..]]
  }

  lemma TamperedTail(c: Chain, es: seq<Envelope>, i: nat, body: Bytes) returns (next: Chain)
    requires c.Ok() && AllFit(es) && 0 < i <= |es| && |body| == |Frames(c, es)[i]| - MAC_SIZE
    ensures next == c.After(MacIn(c, DATA, es[0])) && next.Ok()
    ensures Frames(c, es)[i] == Frames(next, es[1..])[i - 1]
    ensures Tampered(c, es, i, body) == [FrameIn(c, DATA, es[0])] + Tampered(next, es[1..], i - 1, body)
  {
    hide FrameIn, MacIn, Frames;
    next := FramesTail(c, es);
  }

  /**
   * The body of any frame of a stream replaced by another of the same length, the MAC kept: unless the hash function
   * collides on the two, the verifier yields what came before and stops, for lack of integrity if the frame's magic,
   * place in the chain and length are kept.
   */
  lemma {:induction false} TamperingRefused(c: Chain, es: seq<Envelope>, i: nat, body: Bytes)
    requires c.Ok() && AllFit(es) && i <= |es| && |body| == |Frames(c, es)[i]| - MAC_SIZE
    requires c.h(c.key, LABEL + body) != c.h(c.key, LABEL + Frames(c, es)[i][..|body|])
    ensures Verify(c, Join(Tampered(c, es, i, body))) == Verdict(es[..i], Some(TamperKind(Frames(c, es)[i], body)))
    decreases |es|
  {
    hide Tampered, TamperKind, Verify, Frames, Join, FrameIn, MacIn;
    if i == 0 {
      FirstTampered(c, es, body);
    } else {
      var next := TamperedTail(c, es, i, body);
      TamperingRefused(next, es[1..], i - 1, body);
      var changed := Tampered(next, es[1..], i - 1, body);
      JoinCons(FrameIn(c, DATA, es[0]), changed);
      VerifyData(c, es[0], Join(changed));
      assert es[..i] == [es[0]] + es[1..][..i - 1];
    }
  }

  lemma FirstTampered(c: Chain, es: seq<Envelope>, body: Bytes)
    requires c.Ok() && AllFit(es) && |body| == |Frames(c, es)[0]| - MAC_SIZE
    requires c.h(c.key, LABEL + body) != c.h(c.key, LABEL + Frames(c, es)[0][..|body|])
    ensures Verify(c, Join(Tampered(c, es, 0, body))) == Verdict([], Some(TamperKind(Frames(c, es)[0], body)))
  {
    hide Open, Outer, FrameIn, MacIn, TamperKind;
    var fs, changed := Frames(c, es), Tampered(c, es, 0, body);
    var e, kind := if es == [] then NOTHING else es[0], if es == [] then CLOSE else DATA;
    assert fs[0] == FrameIn(c, kind, e);
    FrameHas(c, kind, e);
    assert fs[0][|body|..] == MacIn(c, kind, e);
    TamperedFrame(c, kind, e, body, Join(changed[1..]));
    assert Join(changed) == Outer(changed[0]) + Join(changed[1..]);
  }

  /** A stream cut between frames is truncated, one cut within a frame malformed; what came before is yielded. */
  lemma {:induction false} TruncationKinds(c: Chain, es: seq<Envelope>, i: nat, cut: nat)
    requires c.Ok() && AllFit(es) && i <= |es| && cut < |Outer(Frames(c, es)[i])|
    ensures
      var fs := Frames(c, es);
      Verify(c, Join(fs[..i]) + Outer(fs[i])[..cut]) ==
        Verdict(es[..i], Some(if cut == 0 then Truncated else Malformed))
    decreases |es|
  {
    hide Open, FrameIn, MacIn, Verify, Frames, Join, Outer;
    var fs := Frames(c, es);
    var part := Outer(fs[i])[..cut];
    if i == 0 {
      CutFrame(c, fs[0], cut);
      NothingJoined();
      RefusedAtOnce(c, part);
      assert [] + part == part;
    } else {
      var next := FramesTail(c, es);
      var tail := Frames(next, es[1..]);
      TruncationKinds(next, es[1..], i - 1, cut);
      assert fs[..i] == [FrameIn(c, DATA, es[0])] + tail[..i - 1];
      JoinCons(FrameIn(c, DATA, es[0]), tail[..i - 1]);
      var rest := Join(tail[..i - 1]) + part;
      assert Join(fs[..i]) + part == Outer(FrameIn(c, DATA, es[0])) + rest;
      VerifyData(c, es[0], rest);
      assert es[..i] == [es[0]] + es[1..][..i - 1];
    }
  }

  lemma NothingJoined()
    ensures Join([]) == []
  {
  }

  lemma RefusedAtOnce(c: Chain, input: Bytes)
    requires c.Ok() && Open(c, input).Err?
    ensures Verify(c, input) == Verdict([], Some(Open(c, input).error))
  {
    hide Open;
  }

  lemma CutFrame(c: Chain, f: Bytes, cut: nat)
    requires c.Ok() && FIXED_SIZE <= |f| <= FIXED_SIZE + MAX_PAYLOAD && cut < |Outer(f)|
    ensures Open(c, Outer(f)[..cut]) == Err(if cut == 0 then Truncated else Malformed)
  {
    hide OpenFrame, BE32, U32;
    if cut >= 5 {
      U32BE32(|f|);
      assert Outer(f)[..cut][1..5] == BE32(|f|);
    }
  }

  /** Nothing may follow the close frame. */
  lemma {:induction false} TrailingRefused(c: Chain, es: seq<Envelope>, tail: Bytes)
    requires c.Ok() && AllFit(es) && tail != []
    ensures Verify(c, Encode(c, es) + tail) == Verdict(es, Some(Malformed))
    decreases |es|
  {
    hide Open, FrameIn, MacIn, Outer;
    if es == [] {
      AfterClose(c, tail);
    } else {
      var next := c.After(MacIn(c, DATA, es[0]));
      NextOk(c, MacIn(c, DATA, es[0]));
      TrailingRefused(next, es[1..], tail);
      OpenSealed(c, DATA, es[0], Encode(next, es[1..]) + tail);
      assert Encode(c, es) + tail == Outer(FrameIn(c, DATA, es[0])) + (Encode(next, es[1..]) + tail);
    }
  }

  lemma AfterClose(c: Chain, tail: Bytes)
    requires c.Ok() && tail != []
    ensures Open(c, Outer(FrameIn(c, CLOSE, NOTHING)) + tail) == Err(Malformed)
  {
    var f := FrameIn(c, CLOSE, NOTHING);
    OpenOuter(c, f, tail);
    FrameHas(c, CLOSE, NOTHING);
    U64BE64(c.sequence);
    U32BE32(0);
    hide Open, FrameIn, Outer, U64, BE64, U32, BE32;
  }

  ghost predicate Accepted(c: Chain, input: Bytes)
    requires c.Ok()
  {
    Verify(c, input).error == None
  }

  lemma AcceptedIsEncoding(c: Chain, input: Bytes) returns (es: seq<Envelope>)
    requires c.Ok() && Accepted(c, input)
    ensures AllFit(es) && input == Encode(c, es)
  {
    es := Verify(c, input).envelopes;
    VerifierAcceptsExactlyEncodings(c, input, es);
  }

  /** No encoding continues another. */
  lemma EncodePrefixFree(c: Chain, es: seq<Envelope>, es': seq<Envelope>, tail: Bytes)
    requires c.Ok() && AllFit(es) && AllFit(es') && Encode(c, es') + tail == Encode(c, es)
    ensures tail == []
  {
    hide BE64, FrameIn, MacIn, Outer;
    EncodeJoinsFrames(c, es);
    EncodeJoinsFrames(c, es');
    JoinInjective(Frames(c, es'), Frames(c, es), tail);
    FrameMarks(c, es, |es'|);
    FrameMarks(c, es', |es'|);
    assert Frames(c, es') == Frames(c, es);
  }

  /** A stream cut short anywhere is refused. */
  lemma TruncationRefused(h: Hmac, key: Bytes, es: seq<Envelope>, cut: nat)
    requires AllFit(es) && cut < |Encode(Start(h, key), es)|
    ensures !Accepted(Start(h, key), Encode(Start(h, key), es)[..cut])
  {
    hide Encode, Verify;
    var c := Start(h, key);
    var whole := Encode(c, es);
    if Accepted(c, whole[..cut]) {
      var es' := AcceptedIsEncoding(c, whole[..cut]);
      assert whole == whole[..cut] + whole[cut..];
      EncodePrefixFree(c, es, es', whole[cut..]);
      assert false;
    }
  }

  function Picked(fs: seq<Bytes>, pick: seq<nat>): seq<Bytes>
    requires forall i | 0 <= i < |pick| :: pick[i] < |fs|
  {
    seq(|pick|, i requires 0 <= i < |pick| => fs[pick[i]])
  }

  /** Of all ways to drop, repeat and reorder the frames of a stream, only the original order is accepted. */
  lemma OnlyOriginalOrderAccepted(h: Hmac, key: Bytes, es: seq<Envelope>, pick: seq<nat>)
    requires AllFit(es) && |es| < TWO_64 && forall i | 0 <= i < |pick| :: pick[i] <= |es|
    ensures var c := Start(h, key);
      Accepted(c, Join(Picked(Frames(c, es), pick))) <==> pick == seq(|es| + 1, i => i)
  {
    hide Encode, Verify, Frames, Join, BE64, U64;
    var c := Start(h, key);
    var fs := Frames(c, es);
    var input := Join(Picked(fs, pick));
    EncodeJoinsFrames(c, es);
    if pick == seq(|es| + 1, i => i) {
      assert Picked(fs, pick) == fs;
      VerifierAcceptsExactlyEncodings(c, input, es);
    }
    if Accepted(c, input) {
      var es' := AcceptedIsEncoding(c, input);
      EncodeJoinsFrames(c, es');
      assert input + [] == input;
      JoinInjective(Picked(fs, pick), Frames(c, es'), []);
      SameFramesSameOrder(c, es, es', pick);
    }
  }

  lemma SameFramesSameOrder(c: Chain, es: seq<Envelope>, es': seq<Envelope>, pick: seq<nat>)
    requires c.Ok() && c.sequence == 0 && AllFit(es) && AllFit(es') && |es| < TWO_64
    requires forall i | 0 <= i < |pick| :: pick[i] <= |es|
    requires Picked(Frames(c, es), pick) == Frames(c, es')
    ensures pick == seq(|es| + 1, i => i)
  {
    hide Frames, Picked, AllFit;
    PickedAt(Frames(c, es), pick, Frames(c, es'));
    assert |pick| == |es'| + 1;
    forall i: nat | i < |pick| && i < TWO_64 ensures InPlace(pick, i, |es|, |es'|) {
      EqualFramesEqualPlace(c, es, es', pick[i], i);
    }
    Places(pick, |es|, |es'|);
  }

  lemma PickedAt(fs: seq<Bytes>, pick: seq<nat>, gs: seq<Bytes>)
    requires (forall i | 0 <= i < |pick| :: pick[i] < |fs|) && Picked(fs, pick) == gs
    ensures |gs| == |pick| && forall i | 0 <= i < |pick| :: gs[i] == fs[pick[i]]
  {
  }

  lemma Places(pick: seq<nat>, n: nat, m: nat)
    requires |pick| == m + 1 && n < TWO_64
    requires forall i: nat | i < |pick| && i < TWO_64 :: InPlace(pick, i, n, m)
    ensures pick == seq(n + 1, i => i)
  {
    assert InPlace(pick, if n < m then n else m, n, m);
    forall i: nat | i < |pick| ensures pick[i] == i { assert InPlace(pick, i, n, m); }
  }

  ghost predicate InPlace(pick: seq<nat>, i: nat, n: nat, m: nat) {
    i < |pick| && pick[i] == i && (i == m <==> i == n)
  }

  lemma EqualFramesEqualPlace(c: Chain, es: seq<Envelope>, es': seq<Envelope>, i: nat, i': nat)
    requires c.Ok() && c.sequence == 0 && AllFit(es) && AllFit(es')
    requires i <= |es| && i' <= |es'| && i < TWO_64 && i' < TWO_64 && Frames(c, es)[i] == Frames(c, es')[i']
    ensures i == i' && (i == |es| <==> i' == |es'|)
  {
    hide Frames, Marked;
    FrameMarks(c, es, i);
    FrameMarks(c, es', i');
    SmallModulus(i);
    SmallModulus(i');
    MarkedOnce(Frames(c, es)[i], i, if i == |es| then CLOSE else DATA, i', if i' == |es'| then CLOSE else DATA);
  }

  lemma SmallModulus(i: nat)
    requires i < TWO_64
    ensures (0 + i) % TWO_64 == i
  {
  }

  lemma MarkedOnce(f: Bytes, s1: nat, k1: byte, s2: nat, k2: byte)
    requires Marked(f, s1, k1) && Marked(f, s2, k2)
    ensures s1 == s2 && k1 == k2
  {
  }
}
