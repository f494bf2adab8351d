/**
  Content framing (AMQP 0-9-1, section 4.2.6): publishing cuts a body into body frames, receiving puts
  the fragments together again.
 */
module Content {
  import opened Bytes
  import opened FrameReader
  import opened Wrappers
  import opened Sequences

  const BASIC_CLASS := 60
  const BASIC_PUBLISH := 0x003C_0028
  const CHANNEL_CLOSE := 0x0014_0028
  const CONNECTION_CLOSE := 0x000A_0032

  // ---------- fragmentation ----------

  /** The body cut into pieces of usable octets; the last one may be shorter. */
  function Fragments(body: seq<byte>, usable: nat): seq<seq<byte>>
    requires usable > 0
    decreases |body|
  {
    if body == [] then []
    else if |body| >= usable then [body[..usable]] + Fragments(body[usable..], usable)
    else [body]
  }

  lemma {:induction false} FragmentsConcat(body: seq<byte>, usable: nat)
    requires usable > 0
    ensures Concat(Fragments(body, usable)) == body
    ensures forall f :: f in Fragments(body, usable) ==> 0 < |f| <= usable
    decreases |body|
  {
    hide Concat;
    ConcatNone<byte>();
    if |body| >= usable {
      FragmentsConcat(body[usable..], usable);
      ConcatCons(body[..usable], Fragments(body[usable..], usable));
    } else if body != [] {
      ConcatCons(body, []);
      assert [body] + [] == [body] && body + [] == body;
    }
  }

  lemma ConcatCons(x: seq<byte>, fs: seq<seq<byte>>)
    ensures Concat([x] + fs) == x + Concat(fs)
    ensures forall f :: f in [x] + fs <==> f == x || f in fs
  {
  }

  lemma {:induction false} ConcatLength(fs: seq<seq<byte>>, usable: nat)
    requires forall f :: f in fs ==> |f| <= usable
    ensures |Concat(fs)| <= |fs| * usable
  {
    if fs != [] {
      ConcatLength(fs[1..], usable);
      assert |fs| * usable == (|fs| - 1) * usable + usable;
    }
  }

  /** No cutting into pieces of at most usable octets has fewer pieces. */
  lemma {:induction false} FragmentsMinimal(body: seq<byte>, usable: nat, fs: seq<seq<byte>>)
    requires usable > 0 && Concat(fs) == body && (forall f :: f in fs ==> |f| <= usable)
    ensures |Fragments(body, usable)| <= |fs|
  {
    FragmentCount(body, usable);
    ConcatLength(fs, usable);
    if |fs| < |Fragments(body, usable)| {
      MulMonotone(|fs|, |Fragments(body, usable)| - 1, usable);
    }
  }

  lemma {:induction false} FragmentCount(body: seq<byte>, usable: nat)
    requires usable > 0
    ensures body != [] ==> (|Fragments(body, usable)| - 1) * usable < |body|
    decreases |body|
  {
    if |body| >= usable {
      FragmentCount(body[usable..], usable);
      var k := |Fragments(body[usable..], usable)|;
      assert k * usable == (k - 1) * usable + usable;
    }
  }

  // ---------- sending ----------

  /** The method frame: the method's number and its encoded fields. */
  function MethodFrame(channel: nat, fields: seq<byte>): Frame {
    Frame(FRAME_METHOD, channel, BigEndian(4, BASIC_PUBLISH) + fields)
  }

  /** The content header: class, weight 0, body size, encoded properties. */
  function HeaderFrame(channel: nat, bodySize: nat, properties: seq<byte>): Frame {
    Frame(FRAME_HEADER, channel, BigEndian(2, BASIC_CLASS) + BigEndian(2, 0) + BigEndian(8, bodySize) + properties)
  }

  function BodyFrames(channel: nat, fs: seq<seq<byte>>): seq<Frame> {
    if fs == [] then [] else [Frame(FRAME_BODY, channel, fs[0])] + BodyFrames(channel, fs[1..])
  }

  /** What publishing puts on the wire. */
  function PublishFrames(channel: nat, publish: seq<byte>, properties: seq<byte>, body: seq<byte>,
                         frameMax: nat): seq<Frame>
    requires frameMax > HEADER_SIZE + FOOTER_SIZE
  {
    [MethodFrame(channel, publish), HeaderFrame(channel, |body|, properties)]
      + BodyFrames(channel, Fragments(body, frameMax - (HEADER_SIZE + FOOTER_SIZE)))
  }

  /** The frames of a message: the method, the header and the fragments, each with eight octets around its payload. */
  lemma PublishedFrames(channel: nat, publish: seq<byte>, properties: seq<byte>, body: seq<byte>, frameMax: nat)
    requires frameMax > 8
    ensures var fs := PublishFrames(channel, publish, properties, body, frameMax);
            var bodies := Fragments(body, frameMax - 8);
            && |fs| == 2 + |bodies|
            && fs[0] == Frame(1, channel, [0, 60, 0, 40] + publish)
            && fs[1] == Frame(2, channel, [0, 60, 0, 0] + BigEndian(8, |body|) + properties)
            && forall i :: 0 <= i < |bodies| ==> fs[2 + i] == Frame(3, channel, bodies[i])
  {
    hide BigEndian, Fragments, BodyFrames;
    BodyFrameAt(channel, Fragments(body, frameMax - 8));
    PublishNumbers();
  }

  lemma PublishNumbers()
    ensures BigEndian(4, BASIC_PUBLISH) == [0, 60, 0, 40] && BigEndian(2, BASIC_CLASS) == [0, 60]
            && BigEndian(2, 0) == [0, 0]
  {
    assert BigEndian(1, 0) == [0] && BigEndian(2, 60) == [0, 60] && BigEndian(3, 60 * 0x100) == [0, 60, 0];
  }

  lemma {:induction false} BodyFrameAt(channel: nat, fs: seq<seq<byte>>)
    ensures |BodyFrames(channel, fs)| == |fs|
    ensures forall i :: 0 <= i < |fs| ==> BodyFrames(channel, fs)[i] == Frame(3, channel, fs[i])
  {
    if fs != [] {
      BodyFrameAt(channel, fs[1..]);
    }
  }

  lemma {:induction false} StreamConcat(a: seq<Frame>, b: seq<Frame>)
    ensures Stream(a + b) == Stream(a) + Stream(b)
  {
    if a == [] {
      assert a + b == b;
    } else {
      assert (a + b)[1..] == a[1..] + b;
      StreamConcat(a[1..], b);
    }
  }

  /** A frame that can be sent through an outbound buffer of size octets: only a body does not have to fit. */
  predicate FitsInto(f: Frame, size: nat) {
    KnownKind(f.kind) && (f.kind == FRAME_BODY || HEADER_SIZE + |f.payload| + FOOTER_SIZE <= size)
  }

  /** Method, header and heartbeat frames have to fit with eight octets around their payload; a body does not. */
  lemma FitsMeans(f: Frame, size: nat)
    ensures FitsInto(f, size) <==>
            f.kind == 3 || ((f.kind == 1 || f.kind == 2 || f.kind == 8) && |f.payload| + 8 <= size)
  {
  }

  /** Writes one frame: a body goes out from where it lies, anything else through the outbound buffer. */
  method SendFrame(outbound: array<byte>, f: Frame) returns (sent: Option<seq<byte>>)
    requires outbound.Length >= HEADER_SIZE + HEADER_PREFIX + FOOTER_SIZE
    modifies outbound
    ensures sent == if FitsInto(f, outbound.Length) then Some(FrameBytes(f)) else None
  {
    hide FrameBytes, BigEndian;
    outbound[0] := f.kind;
    Put(outbound, 1, BigEndian(2, f.channel));
    var n := |f.payload|;
    if f.kind == FRAME_BODY {
      Put(outbound, 3, BigEndian(4, n));
      HeaderInBuffer(outbound[..], f);
      sent := Some(outbound[..HEADER_SIZE] + f.payload + [FRAME_END]);
      assert outbound[..][..HEADER_SIZE] == outbound[..HEADER_SIZE];
    } else if !KnownKind(f.kind) || n > outbound.Length - HEADER_SIZE - FOOTER_SIZE {
      sent := None;
    } else {
      Put(outbound, HEADER_SIZE, f.payload);
      Put(outbound, 3, BigEndian(4, n));
      outbound[HEADER_SIZE + n] := FRAME_END;
      FrameInBuffer(outbound[..], f);
      sent := Some(outbound[..HEADER_SIZE + n + FOOTER_SIZE]);
      assert outbound[..][..HEADER_SIZE + n + FOOTER_SIZE] == sent.value;
    }
  }

  lemma HeaderInBuffer(buf: seq<byte>, f: Frame)
    requires |buf| >= HEADER_SIZE && buf[0] == f.kind
    requires buf[1..3] == BigEndian(2, f.channel) && buf[3..7] == BigEndian(4, |f.payload|)
    ensures FrameBytes(f) == buf[..HEADER_SIZE] + f.payload + [FRAME_END]
  {
    hide BigEndian;
    assert buf[..7] == [buf[0]] + buf[1..3] + buf[3..7];
  }

  lemma FrameInBuffer(buf: seq<byte>, f: Frame)
    requires var n := |f.payload|;
             && |buf| >= HEADER_SIZE + n + FOOTER_SIZE && buf[0] == f.kind
             && buf[1..3] == BigEndian(2, f.channel) && buf[3..7] == BigEndian(4, n)
             && buf[HEADER_SIZE..HEADER_SIZE + n] == f.payload && buf[HEADER_SIZE + n] == FRAME_END
    ensures FrameBytes(f) == buf[..HEADER_SIZE + |f.payload| + FOOTER_SIZE]
  {
    hide FrameBytes, BigEndian;
    HeaderInBuffer(buf, f);
    var n := |f.payload|;
    assert buf[..HEADER_SIZE + n + FOOTER_SIZE] ==
           buf[..HEADER_SIZE] + buf[HEADER_SIZE..HEADER_SIZE + n] + [buf[HEADER_SIZE + n]];
  }

  method Put(buf: array<byte>, off: nat, s: seq<byte>)
    requires off + |s| <= buf.Length
    modifies buf
    ensures buf[off..off + |s|] == s
    ensures forall i :: 0 <= i < buf.Length && !(off <= i < off + |s|) ==> buf[i] == old(buf[i])
  {
    forall i | 0 <= i < |s| {
      buf[off + i] := s[i];
    }
  }

  /** Sends method, header and body; when the header does not fit, the method has been sent all the same. */
  method BasicPublish(outbound: array<byte>, channel: nat, publish: seq<byte>, properties: seq<byte>, body: seq<byte>)
    returns (ok: bool, wire: seq<byte>)
    requires outbound.Length >= HEADER_SIZE + HEADER_PREFIX + FOOTER_SIZE
    modifies outbound
    ensures var f, g := MethodFrame(channel, publish), HeaderFrame(channel, |body|, properties);
            && (ok <==> FitsInto(f, outbound.Length) && FitsInto(g, outbound.Length))
            && wire == if ok then Stream(PublishFrames(channel, publish, properties, body, outbound.Length))
                       else if FitsInto(f, outbound.Length) then FrameBytes(f) else []
  {
    hide FrameBytes, MethodFrame, HeaderFrame, BodyWire, Fragments, BodyFrames;
    var usable := outbound.Length - (HEADER_SIZE + FOOTER_SIZE);
    var method_, header := MethodFrame(channel, publish), HeaderFrame(channel, |body|, properties);
    var sent := SendFrame(outbound, method_);
    if sent.None? {
      return false, [];
    }
    wire := sent.value;
    sent := SendFrame(outbound, header);
    if sent.None? {
      return false, wire;
    }
    wire := wire + sent.value;
    ghost var before := wire;
    var bodyOffset := 0;
    assert body[0..] == body;
    while bodyOffset < |body|
      invariant 0 <= bodyOffset <= |body|
      invariant wire + BodyWire(channel, body[bodyOffset..], usable) == before + BodyWire(channel, body, usable)
    {
      var remaining := |body| - bodyOffset;
      var len := if remaining >= usable then usable else remaining;
      ghost var rest := body[bodyOffset..];
      assert body[bodyOffset..bodyOffset + len] == rest[..len] && body[bodyOffset + len..] == rest[len..];
      FirstFragment(channel, rest, usable);
      sent := SendFrame(outbound, Frame(FRAME_BODY, channel, body[bodyOffset..bodyOffset + len]));
      Associative(wire, sent.value, BodyWire(channel, rest[len..], usable));
      bodyOffset := bodyOffset + len;
      wire := wire + sent.value;
    }
    NoFragment(channel, body[bodyOffset..], usable);
    assert wire == before + BodyWire(channel, body, usable);
    TwoFramesThen(method_, header, channel, body, usable);
    ok := true;
  }

  /** The octets of the body frames for what is left of a body. */
  ghost function BodyWire(channel: nat, rest: seq<byte>, usable: nat): seq<byte>
    requires usable > 0
  {
    Stream(BodyFrames(channel, Fragments(rest, usable)))
  }

  lemma NoFragment(channel: nat, rest: seq<byte>, usable: nat)
    requires usable > 0 && rest == []
    ensures BodyWire(channel, rest, usable) == []
  {
  }

  lemma TwoFramesThen(f: Frame, g: Frame, channel: nat, body: seq<byte>, usable: nat)
    requires usable > 0
    ensures Stream([f, g] + BodyFrames(channel, Fragments(body, usable))) ==
            FrameBytes(f) + FrameBytes(g) + BodyWire(channel, body, usable)
  {
    StreamConcat([f, g], BodyFrames(channel, Fragments(body, usable)));
    assert Stream([g]) == FrameBytes(g);
    assert [f, g][1..] == [g];
  }

  lemma FirstFragment(channel: nat, rest: seq<byte>, usable: nat)
    requires usable > 0 && rest != []
    ensures var len := if |rest| >= usable then usable else |rest|;
            BodyWire(channel, rest, usable)
            == FrameBytes(Frame(FRAME_BODY, channel, rest[..len])) + BodyWire(channel, rest[len..], usable)
  {
    if |rest| < usable {
      assert rest[..|rest|] == rest && rest[|rest|..] == [];
      assert Fragments([], usable) == [] && BodyFrames(channel, []) == [];
      assert Fragments(rest, usable) == [rest];
      assert BodyFrames(channel, [rest]) == [Frame(FRAME_BODY, channel, rest)];
    }
  }

  // ---------- receiving ----------

  /** How reading a message ends. */
  datatype Message =
    | Delivered(body: seq<byte>, unread: seq<Frame>)
    | Closed(frame: Frame)                             // the server closed the channel or connection
    | UnexpectedState(frame: Frame)                    // no content header: the frame is put back
    | BadData                                          // not a body frame, or more octets than announced
    | Starved                                          // the frames ran out: the caller waits for more

  predicate IsClose(f: Frame) {
    f.kind == FRAME_METHOD && (MethodId(f) == CHANNEL_CLOSE || MethodId(f) == CONNECTION_CLOSE)
  }

  /** Collecting body frames until size octets have been read. */
  function Collect(frames: seq<Frame>, size: nat, got: seq<byte>): Message {
    if |got| >= size then Delivered(got, frames)
    else if frames == [] then Starved
    else if frames[0].kind != FRAME_BODY then (if IsClose(frames[0]) then Closed(frames[0]) else BadData)
    else if |got| + |frames[0].payload| > size then BadData
    else Collect(frames[1..], size, got + frames[0].payload)
  }

  function Receive(frames: seq<Frame>): Message {
    if frames == [] then Starved
    else if frames[0].kind != FRAME_HEADER then
      (if IsClose(frames[0]) then Closed(frames[0]) else UnexpectedState(frames[0]))
    else Collect(frames[1..], BodySize(frames[0]), [])
  }

  function Payloads(frames: seq<Frame>): seq<byte> {
    if frames == [] then [] else frames[0].payload + Payloads(frames[1..])
  }

  /** channel.close or connection.close. */
  predicate Closes(f: Frame) {
    f.kind == 1 && (f.payload[..4] == [0, 20, 0, 40] || f.payload[..4] == [0, 10, 0, 50])
  }

  lemma ClosesMeans(f: Frame)
    ensures IsClose(f) <==> Closes(f)
  {
    if f.kind == 1 {
      var s := f.payload[..4];
      FromFour(s);
      assert s == [s[0], s[1], s[2], s[3]];
    }
  }

  /** The first n frames are body frames that leave something to be read, or the last of them just nothing. */
  ghost predicate Fills(frames: seq<Frame>, n: nat, size: nat, got: nat) {
    && n <= |frames|
    && (forall i :: 0 <= i < n ==> frames[i].kind == 3 && got + |Payloads(frames[..i])| < size)
    && (n > 0 ==> got + |Payloads(frames[..n])| <= size)
  }

  /** The frame after n frames cannot be taken, or is not needed. */
  ghost predicate Stops(frames: seq<Frame>, n: nat, size: nat, got: nat)
    requires n <= |frames|
  {
    got + |Payloads(frames[..n])| >= size || n == |frames| || frames[n].kind != 3
    || got + |Payloads(frames[..n])| + |frames[n].payload| > size
  }

  /**
    Collecting goes on over body frames until they have the size announced.  Before that, a frame that closes channel or
    connection ends it as such, any other frame and one octet too many as bad data, and no more frames as starved.
   */
  lemma {:induction false} CollectMeans(frames: seq<Frame>, size: nat, got: seq<byte>, n: nat)
    requires Fills(frames, n, size, |got|) && Stops(frames, n, size, |got|)
    ensures var r, all := Collect(frames, size, got), got + Payloads(frames[..n]);
            if |all| >= size then r == Delivered(all, frames[n..])
            else if n == |frames| then r == Starved
            else if Closes(frames[n]) then r == Closed(frames[n])
            else r == BadData
    decreases n
  {
    hide Closes, IsClose, Payloads;
    if n == 0 {
      NoPayloads(frames);
      assert got + [] == got && frames[..0] == [];
      if frames != [] {
        ClosesMeans(frames[0]);
        NotBody(frames[0]);
      }
    } else {
      var f, more := frames[0], frames[1..];
      FillsOn(frames, n, size, |got|);
      OneMorePayload(frames, n);
      CollectMeans(more, size, got + f.payload, n - 1);
      assert got + f.payload + Payloads(more[..n - 1]) == got + Payloads(frames[..n]);
      assert more[n - 1..] == frames[n..];
    }
  }

  lemma NoPayloads(frames: seq<Frame>)
    ensures Payloads(frames[..0]) == []
  {
  }

  lemma OneMorePayload(frames: seq<Frame>, n: nat)
    requires 0 < n <= |frames|
    ensures Payloads(frames[..n]) == frames[0].payload + Payloads(frames[1..][..n - 1])
  {
    assert frames[..n][1..] == frames[1..][..n - 1];
  }

  /** After the first frame the same holds of the others. */
  lemma FillsOn(frames: seq<Frame>, n: nat, size: nat, got: nat)
    requires 0 < n && Fills(frames, n, size, got) && Stops(frames, n, size, got)
    ensures var more, now := frames[1..], got + |frames[0].payload|;
            Fills(more, n - 1, size, now) && Stops(more, n - 1, size, now)
    ensures frames[0].kind == 3 && got < size && got + |frames[0].payload| <= size
  {
    hide Payloads;
    var more, now := frames[1..], got + |frames[0].payload|;
    NoPayloads(frames);
    NoPayloads(more);
    forall i | 0 <= i < n ensures |Payloads(frames[..i + 1])| == |frames[0].payload| + |Payloads(more[..i])| {
      OneMorePayload(frames, i + 1);
    }
    assert forall i :: 0 <= i < |more| ==> more[i] == frames[i + 1];
    forall i | 0 <= i < n - 1 ensures now + |Payloads(more[..i])| < size {
      assert got + |Payloads(frames[..i + 1])| < size;
    }
  }

  lemma NotBody(f: Frame)
    ensures Closes(f) ==> f.kind != 3
  {
  }

  /** A message starts with a content header, whose octets 4 to 11 announce the size; else it is put back or closes. */
  lemma ReceiveMeans(frames: seq<Frame>)
    ensures var r := Receive(frames);
            if frames == [] then r == Starved
            else if Closes(frames[0]) then r == Closed(frames[0])
            else if frames[0].kind != 2 then r == UnexpectedState(frames[0])
            else r == Collect(frames[1..], FromBigEndian(frames[0].payload[4..12]), [])
  {
    if frames != [] {
      ClosesMeans(frames[0]);
    }
  }

  /** Reads one message off the frames of a channel, copying fragments into a body of the announced size. */
  method ReadMessage(frames: seq<Frame>) returns (r: Message)
    ensures r == Receive(frames)
  {
    if frames == [] {
      return Starved;
    }
    var frame := frames[0];
    if frame.kind != FRAME_HEADER {
      return if IsClose(frame) then Closed(frame) else UnexpectedState(frame);
    }
    var body := new byte[BodySize(frame)](_ => 0);
    var next, bodyRead := 1, 0;
    while bodyRead < body.Length
      invariant 1 <= next <= |frames| && 0 <= bodyRead <= body.Length == BodySize(frames[0])
      invariant Receive(frames) == Collect(frames[next..], body.Length, body[..bodyRead])
      decreases |frames| - next
    {
      if next == |frames| {
        return Starved;
      }
      frame := frames[next];
      assert frames[next..][0] == frame && frames[next..][1..] == frames[next + 1..];
      next := next + 1;
      if frame.kind != FRAME_BODY {
        return if IsClose(frame) then Closed(frame) else BadData;
      }
      var len := |frame.payload|;
      if bodyRead + len > body.Length {
        return BadData;
      }
      ghost var got := body[..bodyRead];
      forall i | 0 <= i < len {
        body[bodyRead + i] := frame.payload[i];
      }
      bodyRead := bodyRead + len;
      assert body[..bodyRead] == got + frame.payload;
    }
    r := Delivered(body[..bodyRead], frames[next..]);
  }

  // ---------- publishing and receiving compose to the identity ----------

  lemma {:induction false} CollectFragments(channel: nat, fs: seq<seq<byte>>, size: nat, got: seq<byte>,
                                            more: seq<Frame>)
    requires |got| + |Concat(fs)| == size && (forall f :: f in fs ==> |f| > 0)
    ensures Collect(BodyFrames(channel, fs) + more, size, got) == Delivered(got + Concat(fs), more)
  {
    if fs == [] {
      assert BodyFrames(channel, fs) + more == more;
      assert got + Concat(fs) == got;
    } else {
      var first := Frame(FRAME_BODY, channel, fs[0]);
      var rest := BodyFrames(channel, fs[1..]) + more;
      assert BodyFrames(channel, fs) + more == [first] + rest;
      assert ([first] + rest)[1..] == rest;
      CollectFragments(channel, fs[1..], size, got + fs[0], more);
      Associative(got, fs[0], Concat(fs[1..]));
    }
  }

  lemma HeaderIsDecoded(n: nat, properties: seq<byte>, channel: nat)
    requires n < WORD64
    ensures var f := HeaderFrame(channel, n, properties);
            f.kind == FRAME_HEADER && ClassId(f) == BASIC_CLASS && BodySize(f) == n
              && f.payload[HEADER_PREFIX..] == properties
  {
    hide BigEndian, FromBigEndian;
    var p := HeaderFrame(channel, n, properties).payload;
    assert p[..2] == BigEndian(2, BASIC_CLASS) && p[4..12] == BigEndian(8, n) && p[12..] == properties;
    Pow256Values();
    BigEndianRoundTrip(2, BASIC_CLASS);
    BigEndianRoundTrip(8, n);
    ModUnique(n, WORD64, 0, n);
  }

  lemma MethodIsDecoded(channel: nat, fields: seq<byte>)
    ensures var f := MethodFrame(channel, fields); MethodId(f) == BASIC_PUBLISH && f.payload[METHOD_PREFIX..] == fields
  {
    hide BigEndian, FromBigEndian;
    var p := MethodFrame(channel, fields).payload;
    assert p[..4] == BigEndian(4, BASIC_PUBLISH) && p[4..] == fields;
    Pow256Values();
    BigEndianRoundTrip(4, BASIC_PUBLISH);
  }

  /** Publishing then reading the message off the frames gives the body back and leaves what follows. */
  lemma ReceivePublished(channel: nat, publish: seq<byte>, properties: seq<byte>, body: seq<byte>, frameMax: nat,
                         more: seq<Frame>)
    requires frameMax > HEADER_SIZE + FOOTER_SIZE && |body| < WORD64
    ensures var fs := PublishFrames(channel, publish, properties, body, frameMax);
            Receive(fs[1..] + more) == Delivered(body, more)
  {
    hide HeaderFrame, MethodFrame, BodySize, Fragments, BodyFrames, Collect, Concat;
    var usable := frameMax - (HEADER_SIZE + FOOTER_SIZE);
    var header := HeaderFrame(channel, |body|, properties);
    var bodies := BodyFrames(channel, Fragments(body, usable));
    var fs := PublishFrames(channel, publish, properties, body, frameMax);
    assert fs[1..] + more == [header] + (bodies + more);
    assert ([header] + (bodies + more))[1..] == bodies + more;
    FragmentsConcat(body, usable);
    HeaderIsDecoded(|body|, properties, channel);
    CollectFragments(channel, Fragments(body, usable), |body|, [], more);
    assert [] + body == body;
  }

  lemma {:induction false} BodyFramesSendable(codec: Codec, channel: nat, fs: seq<seq<byte>>, usable: nat)
    requires channel < 0x1_0000 && (forall f :: f in fs ==> |f| <= usable)
             && usable + HEADER_SIZE + FOOTER_SIZE < WORD32
    ensures forall f :: f in BodyFrames(channel, fs) ==> Sendable(codec, f)
  {
    if fs != [] {
      BodyFramesSendable(codec, channel, fs[1..], usable);
    }
  }

  /**
    Publishing, framing, any cutting of the stream into reads, deframing and reassembly compose to the
    identity: the reader delivers the method frame, and the message read after it has the published body.
   */
  lemma PublishThenReceive(codec: Codec, channel: nat, publish: seq<byte>, properties: seq<byte>, body: seq<byte>,
                           frameMax: nat, chunks: seq<seq<byte>>)
    requires HEADER_SIZE + FOOTER_SIZE < frameMax < WORD32 && channel < 0x1_0000 && |body| < WORD64
    requires |publish| + 12 < WORD32 && codec.method_(BASIC_PUBLISH, publish) >= 0
    requires |properties| + 20 < WORD32 && codec.properties(BASIC_CLASS, properties) >= 0
    requires Concat(chunks) == Stream(PublishFrames(channel, publish, properties, body, frameMax))
    ensures var p := ParseChunks(codec, [], chunks);
            && p == Parsed(PublishFrames(channel, publish, properties, body, frameMax), Unfinished([]))
            && Receive(p.frames[1..]) == Delivered(body, [])
  {
    hide Stream, Parse, ParseChunks, Receive, FrameBytes, ClassId, MethodId, BodySize, BigEndian;
    var fs := PublishFrames(channel, publish, properties, body, frameMax);
    var usable := frameMax - (HEADER_SIZE + FOOTER_SIZE);
    CutsDoNotMatter(codec, [], chunks);
    assert [] + Concat(chunks) == Stream(fs) + [];
    FragmentsConcat(body, usable);
    MethodIsDecoded(channel, publish);
    HeaderIsDecoded(|body|, properties, channel);
    BodyFramesSendable(codec, channel, Fragments(body, usable), usable);
    ReadBackStream(codec, fs, []);
    NothingToParse(codec, [], fs);
    ReceivePublished(channel, publish, properties, body, frameMax, []);
    assert fs[1..] + [] == fs[1..];
  }
}
