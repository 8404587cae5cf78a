/** The encoder loop and the stateful reader of stream-hmac-v1, proved against StreamCodec (hmac/stream.go). */
module StreamIO {
  import opened AuthModel
  import opened StreamCodec

  // ---- the encoder ----

  datatype Parsed = Parsed(envelopes: seq<Envelope>, clean: bool)

  /** The complete envelopes at the front of the source, and whether they are all of it. */
  function Parse(source: Bytes): (p: Parsed)
    ensures AllFit(p.envelopes)
    decreases |source|
  {
    if source == [] then Parsed([], true)
    else if |source| < 5 then Parsed([], false)
    else
      var n := U32(source[1..5]);
      if n > MAX_PAYLOAD || |source| < 5 + n then Parsed([], false)
      else
        var tail := Parse(source[5 + n..]);
        Parsed([Envelope(source[0], source[5..5 + n])] + tail.envelopes, tail.clean)
  }

  lemma EnvelopeSlices(e: Envelope, rest: Bytes)
    requires |e.payload| < TWO_32
    ensures
      var all := EnvelopeBytes(e) + rest;
      && all[0] == e.flags && all[1..5] == BE32(|e.payload|)
      && all[5..5 + |e.payload|] == e.payload && all[5 + |e.payload|..] == rest
  {
    hide BE32;
  }

  lemma ParseEnvelope(e: Envelope, rest: Bytes)
    requires Fits(e)
    ensures Parse(EnvelopeBytes(e) + rest) == Parsed([e] + Parse(rest).envelopes, Parse(rest).clean)
  {
    EnvelopeSlices(e, rest);
    U32BE32(|e.payload|);
    hide EnvelopeBytes, BE32, U32;
  }

  lemma {:induction false} ParseFlattened(es: seq<Envelope>)
    requires AllFit(es)
    ensures Parse(Flatten(es)) == Parsed(es, true)
    decreases |es|
  {
    hide EnvelopeBytes, Parse;
    if es == [] {
      ParseNothing();
    } else {
      ParseEnvelope(es[0], Flatten(es[1..]));
      ParseFlattened(es[1..]);
    }
  }

  lemma ParseNothing()
    ensures Parse([]) == Parsed([], true)
  {
  }

  lemma ParseHead(source: Bytes)
    requires source != [] && Parse(source).envelopes != []
    ensures
      var n := U32(source[1..5]);
      var e := Envelope(source[0], source[5..5 + n]);
      && |source| >= 5 + n && Fits(e)
      && Parse(source) == Parsed([e] + Parse(source[5 + n..]).envelopes, Parse(source[5 + n..]).clean)
      && source == EnvelopeBytes(e) + source[5 + n..]
  {
    hide U32, BE32;
    var n := U32(source[1..5]);
    BE32U32(source[1..5]);
    Rejoin(source, n);
  }

  lemma {:induction false} FlattenParsed(source: Bytes)
    requires Parse(source).clean
    ensures Flatten(Parse(source).envelopes) == source
    decreases |source|
  {
    hide EnvelopeBytes, U32;
    if source != [] {
      ParseHead(source);
      hide Parse;
      var n := U32(source[1..5]);
      FlattenParsed(source[5 + n..]);
      var es := Parse(source).envelopes;
      assert es[1..] == Parse(source[5 + n..]).envelopes;
    }
  }

  /** What reaches the wire: a frame per envelope, and the close frame only after a clean end. */
  function Emitted(c: Chain, es: seq<Envelope>, clean: bool): Bytes
    requires c.Ok() && AllFit(es)
    decreases |es|
  {
    if es == [] then if clean then Outer(FrameIn(c, CLOSE, NOTHING)) else []
    else Outer(FrameIn(c, DATA, es[0])) + Emitted(c.After(MacIn(c, DATA, es[0])), es[1..], clean)
  }

  lemma {:induction false} EmittedClean(c: Chain, es: seq<Envelope>)
    requires c.Ok() && AllFit(es)
    ensures Emitted(c, es, true) == Encode(c, es)
    decreases |es|
  {
    hide FrameIn, MacIn, Outer;
    if es != [] { EmittedClean(c.After(MacIn(c, DATA, es[0])), es[1..]); }
  }

  /** An encoder that stops early has sent the frames of all complete envelopes, and no close frame. */
  lemma {:induction false} EmittedAborted(c: Chain, es: seq<Envelope>)
    requires c.Ok() && AllFit(es)
    ensures Emitted(c, es, false) == Join(Frames(c, es)[..|es|])
    decreases |es|
  {
    hide FrameIn, MacIn, Outer, Frames;
    if es == [] {
      assert Frames(c, es)[..0] == [];
    } else {
      var next := FramesTail(c, es);
      EmittedAborted(next, es[1..]);
      assert Frames(c, es)[..|es|] == [FrameIn(c, DATA, es[0])] + Frames(next, es[1..])[..|es| - 1];
      JoinCons(FrameIn(c, DATA, es[0]), Frames(next, es[1..])[..|es| - 1]);
    }
  }

  lemma EmittedHead(c: Chain, source: Bytes)
    requires c.Ok() && source != [] && Parse(source).envelopes != []
    ensures
      var p, rest := Parse(source), source[5 + U32(source[1..5])..];
      var e := p.envelopes[0];
      Emitted(c, p.envelopes, p.clean)
        == Outer(FrameIn(c, DATA, e)) + Emitted(c.After(MacIn(c, DATA, e)), Parse(rest).envelopes, p.clean)
  {
    hide FrameIn, MacIn, Outer, U32, EnvelopeBytes, Parse;
    ParseHead(source);
    assert Parse(source).envelopes[1..] == Parse(source[5 + U32(source[1..5])..]).envelopes;
  }

  lemma EmittedTail(c: Chain, source: Bytes)
    requires c.Ok() && Parse(source).envelopes == []
    ensures Emitted(c, [], Parse(source).clean) == if source == [] then Outer(FrameIn(c, CLOSE, NOTHING)) else []
    ensures Parse(source).clean <==> source == []
  {
    hide U32, FrameIn, Outer;
  }

  lemma ParseCases(source: Bytes)
    ensures Parse(source).envelopes == [] <==>
      |source| < 5 || U32(source[1..5]) > 5_242_880 || |source| < 5 + U32(source[1..5])
  {
    hide U32;
  }

  method CopyInto(target: array<byte>, at: nat, bytes: Bytes)
    requires at + |bytes| <= target.Length
    modifies target
    ensures target[..] == old(target[..at]) + bytes + old(target[at + |bytes|..])
  {
    for i := 0 to |bytes|
      invariant target[..at] == old(target[..at])
      invariant target[at..at + i] == bytes[..i]
      invariant target[at + |bytes|..] == old(target[at + |bytes|..])
    {
      target[at + i] := bytes[i];
    }
    assert target[..] == target[..at] + target[at..at + |bytes|] + target[at + |bytes|..];
  }

  /** Fills the fields of one frame buffer at their offsets and signs everything before the MAC. */
  method MarshalFrame(c: Chain, kind: byte, e: Envelope) returns (frame: Bytes, mac: Bytes)
    requires c.Ok() && |e.payload| < TWO_32
    ensures frame == FrameIn(c, kind, e) && mac == MacIn(c, kind, e)
    ensures
      var n := |e.payload|;
      && |frame| == 82 + n && frame[..4] == [0x41, 0x54, 0x48, 0x31] && frame[4] == kind && frame[5] == e.flags
      && frame[6..14] == BE64(c.sequence) && frame[14..46] == c.previous && frame[46..50] == BE32(n)
      && frame[50..50 + n] == e.payload && frame[50 + n..] == mac && mac == c.h(c.key, LABEL + frame[..50 + n])
  {
    BodySlices(kind, e.flags, c.sequence, c.previous, e.payload, MacIn(c, kind, e));
    hide BE64, BE32, FrameMac;
    var n := |e.payload|;
    var buffer := new byte[FIXED_SIZE + n](i => 0);
    CopyInto(buffer, 0, MAGIC);
    CopyInto(buffer, 4, [kind, e.flags]);
    CopyInto(buffer, 6, BE64(c.sequence));
    assert buffer[..14] == MAGIC + [kind, e.flags] + BE64(c.sequence);
    CopyInto(buffer, 14, c.previous);
    CopyInto(buffer, 14 + MAC_SIZE, BE32(n));
    CopyInto(buffer, 18 + MAC_SIZE, e.payload);
    var macOffset := buffer.Length - MAC_SIZE;
    assert buffer[..macOffset] == BodyIn(c, kind, e);
    mac := FrameMac(c.h, c.key, buffer[..macOffset]);
    CopyInto(buffer, macOffset, mac);
    frame := buffer[..];
    assert frame[..macOffset] == BodyIn(c, kind, e) && frame[macOffset..] == mac;
    MacText(c, kind, e);
  }

  lemma MacText(c: Chain, kind: byte, e: Envelope)
    requires c.Ok() && |e.payload| < TWO_32
    ensures MacIn(c, kind, e) == c.h(c.key, LABEL + BodyIn(c, kind, e))
  {
  }

  method EncodeStream(h: Hmac, key: Bytes, source: Bytes) returns (target: Bytes, err: Option<StreamError>)
    ensures
      var p := Parse(source);
      && target == Emitted(Start(h, key), p.envelopes, p.clean)
      && err == if p.clean then None else Some(Malformed)
    ensures forall es | AllFit(es) && source == Flatten(es) :: err == None && target == Encode(Start(h, key), es)
  {
    hide FrameIn, MacIn, Outer, U32, BE32, Encode, Flatten, EnvelopeBytes, Emitted, Parse;
    var rest := source;
    var c := Start(h, key);
    target := [];
    ghost var whole := Emitted(c, Parse(source).envelopes, Parse(source).clean);
    forall es | AllFit(es) && source == Flatten(es)
      ensures Parse(source) == Parsed(es, true) && whole == Encode(Start(h, key), es)
    {
      ParseFlattened(es);
      EmittedClean(Start(h, key), es);
    }
    while true
      invariant c.Ok() && c.h == h && c.key == key
      invariant target + Emitted(c, Parse(rest).envelopes, Parse(rest).clean) == whole
      invariant Parse(rest).clean == Parse(source).clean
      decreases |rest|
    {
      ParseCases(rest);
      if Parse(rest).envelopes == [] { EmittedTail(c, rest); } else { ParseHead(rest); EmittedHead(c, rest); }
      if rest == [] {
        var frame, mac := MarshalFrame(c, CLOSE, NOTHING);
        target := target + Outer(frame);
        return target, None;
      }
      if |rest| < 5 { return target, Some(Malformed); }
      var payloadLength := U32(rest[1..5]);
      if payloadLength > MAX_PAYLOAD { return target, Some(Malformed); }
      if |rest| < 5 + payloadLength { return target, Some(Malformed); }
      var e := Envelope(rest[0], rest[5..5 + payloadLength]);
      var frame, mac := MarshalFrame(c, DATA, e);
      target := target + Outer(frame);
      c := c.After(mac);
      rest := rest[5 + payloadLength..];
    }
  }

  // ---- the verifying reader ----

  /** What lies ahead of a reader, one frame unfolded. */
  lemma AheadUnfolds(c: Chain, input: Bytes)
    requires c.Ok()
    ensures
      var v := Verify(c, input);
      match Open(c, input)
      case Err(e) => v.envelopes == [] && Flatten(v.envelopes) == [] && v.error == Some(e)
      case Ok(Closed) => v.envelopes == [] && Flatten(v.envelopes) == [] && v.error == None
      case Ok(Data(e, mac, rest)) =>
        var tail := Verify(c.After(mac), rest);
        Flatten(v.envelopes) == EnvelopeBytes(e) + Flatten(tail.envelopes) && v.error == tail.error
  {
    hide Open, EnvelopeBytes;
    var v := Verify(c, input);
    if Open(c, input).Ok? && Open(c, input).value.Data? {
      var got := Open(c, input).value;
      assert v.envelopes[1..] == Verify(c.After(got.mac), got.rest).envelopes;
    }
  }

  datatype Status = More | Eof | Failed(error: StreamError)

  class VerifiedStreamReader {
    const h: Hmac
    const key: Bytes
    var source: Bytes
    var sequence: nat
    var previous: Bytes
    var pending: Bytes
    var closed: bool

    function Place(): Chain reads this {
      Chain(h, key, sequence, previous)
    }

    predicate Valid() reads this {
      Place().Ok()
    }

    /** The bytes still to be yielded, and the error that will follow them. */
    ghost function Ahead(): (Bytes, Option<StreamError>)
      requires Valid()
      reads this
    {
      if closed then (pending, None) else
        var v := Verify(Place(), source);
        (pending + Flatten(v.envelopes), v.error)
    }

    constructor (h: Hmac, key: Bytes, source: Bytes)
      ensures Valid() && Place() == Start(h, key) && this.source == source && pending == [] && !closed
    {
      this.h := h;
      this.key := key;
      this.source := source;
      sequence := 0;
      previous := seq(MAC_SIZE, i => 0);
      pending := [];
      closed := false;
    }

    method ReadFrame() returns (err: Option<StreamError>)
      requires Valid()
      modifies this
      ensures match Open(old(Place()), old(source))
        case Err(e) => err == Some(e)
        case Ok(Closed) => err == None && Valid() && closed && source == [] && pending == old(pending)
        case Ok(Data(e, mac, rest)) =>
          err == None && Valid() && closed == old(closed) && source == rest && pending == EnvelopeBytes(e)
          && Place() == old(Place()).After(mac)
    {
      hide U64, U32, BE64, BE32, FrameMac;
      if source == [] { return Some(Truncated); }
      if |source| < 5 || source[0] != 0 { return Some(Malformed); }
      var frameLength := U32(source[1..5]);
      if frameLength < FIXED_SIZE || frameLength > FIXED_SIZE + MAX_PAYLOAD { return Some(Malformed); }
      if |source| < 5 + frameLength { return Some(Malformed); }
      var frame := source[5..5 + frameLength];
      source := source[5 + frameLength..];
      if frame[..4] != MAGIC { return Some(Malformed); }
      var kind, flags := frame[4], frame[5];
      if U64(frame[6..14]) != sequence || frame[14..14 + MAC_SIZE] != previous { return Some(Sequence); }
      var payloadLength := U32(frame[14 + MAC_SIZE..18 + MAC_SIZE]);
      if payloadLength != |frame| - FIXED_SIZE { return Some(Malformed); }
      var macOffset := |frame| - MAC_SIZE;
      var wantMac := FrameMac(h, key, frame[..macOffset]);
      if frame[macOffset..] != wantMac { return Some(Integrity); }
      previous := wantMac;
      sequence := Next(sequence);
      var payload := frame[18 + MAC_SIZE..macOffset];
      if kind == DATA {
        pending := [flags] + BE32(payloadLength) + payload;
        return None;
      } else if kind == CLOSE {
        if flags != 0 || payloadLength != 0 { return Some(Malformed); }
        if source != [] { return Some(Malformed); }
        closed := true;
        return None;
      } else {
        return Some(Malformed);
      }
    }

    /** At most n bytes of what lies ahead, never crossing an envelope. */
    method Read(n: nat) returns (data: Bytes, status: Status)
      requires Valid()
      modifies this
      ensures status.More? ==>
        && Valid() && old(Ahead()) == (data + Ahead().0, Ahead().1)
        && |data| <= n && (n > 0 ==> |data| > 0)
      ensures status.Eof? ==> old(Ahead()) == ([], None) && data == []
      ensures status.Failed? ==> old(Ahead()) == ([], Some(status.error)) && data == []
    {
      hide Open, Verify, Flatten, U32, BE32;
      while pending == []
        invariant Valid() && Ahead() == old(Ahead())
        decreases |source| + if closed then 0 else 1
      {
        if closed { return [], Eof; }
        ghost var v := Verify(Place(), source);
        AheadUnfolds(Place(), source);
        assert [] + Flatten(v.envelopes) == Flatten(v.envelopes);
        var err := ReadFrame();
        if err.Some? { return [], Failed(err.value); }
      }
      var k := if n < |pending| then n else |pending|;
      data := pending[..k];
      ghost var before := pending;
      pending := pending[k..];
      assert before == data + pending;
      if !closed {
        ghost var later := Flatten(Verify(Place(), source).envelopes);
        assert before + later == data + (pending + later);
      }
      status := More;
    }
  }

  /** Reads to the end with chunk sizes chosen freely at every step. */
  method ReadAll(h: Hmac, key: Bytes, input: Bytes) returns (out: Bytes, err: Option<StreamError>)
    ensures
      var v := Verify(Start(h, key), input);
      out == Flatten(v.envelopes) && err == v.error
    ensures err == None <==> exists es :: AllFit(es) && input == Encode(Start(h, key), es) && out == Flatten(es)
  {
    hide Open, EnvelopeBytes;
    var r := new VerifiedStreamReader(h, key, input);
    ghost var v := Verify(Start(h, key), input);
    out := [];
    assert r.Ahead() == (Flatten(v.envelopes), v.error) by { assert [] + Flatten(v.envelopes) == Flatten(v.envelopes); }
    while true
      invariant r.Valid()
      invariant (out + r.Ahead().0, r.Ahead().1) == (Flatten(v.envelopes), v.error)
      decreases |r.Ahead().0|
    {
      var n: nat := *;
      if n == 0 { n := 1; }
      ghost var ahead := r.Ahead();
      var data, status := r.Read(n);
      match status {
        case Eof => err := None; break;
        case Failed(e) => err := Some(e); break;
        case More =>
          assert out + (data + r.Ahead().0) == (out + data) + r.Ahead().0;
          out := out + data;
      }
    }
    if err == None { VerifierAcceptsExactlyEncodings(Start(h, key), input, v.envelopes); }
    forall es | AllFit(es) && input == Encode(Start(h, key), es) ensures err == None {
      VerifierAcceptsExactlyEncodings(Start(h, key), input, es);
    }
  }

  /** Sending and receiving through the wire form gives back the request body, for every well-formed body. */
  lemma RoundTrip(h: Hmac, key: Bytes, source: Bytes)
    requires Parse(source).clean
    ensures
      var v := Verify(Start(h, key), Emitted(Start(h, key), Parse(source).envelopes, true));
      v.error == None && Flatten(v.envelopes) == source
  {
    var c, es := Start(h, key), Parse(source).envelopes;
    EmittedClean(c, es);
    VerifierAcceptsExactlyEncodings(c, Encode(c, es), es);
    FlattenParsed(source);
  }

  /** An encoder that stopped on a malformed body sent nothing the verifier accepts. */
  lemma AbortedStreamRefused(h: Hmac, key: Bytes, source: Bytes)
    requires !Parse(source).clean
    ensures !Accepted(Start(h, key), Emitted(Start(h, key), Parse(source).envelopes, false))
  {
    var c, es := Start(h, key), Parse(source).envelopes;
    EmittedShort(c, es);
    EmittedClean(c, es);
    var sent, whole := Emitted(c, es, false), Encode(c, es);
    assert sent == whole[..|sent|];
    TruncationRefused(h, key, es, |sent|);
  }

  lemma {:induction false} EmittedShort(c: Chain, es: seq<Envelope>)
    requires c.Ok() && AllFit(es)
    ensures Emitted(c, es, false) < Emitted(c, es, true)
    decreases |es|
  {
    hide FrameIn, MacIn, Outer;
    if es != [] { EmittedShort(c.After(MacIn(c, DATA, es[0])), es[1..]); }
  }
}
