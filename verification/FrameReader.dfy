/**
  The incremental frame reader (AMQP 0-9-1, section 4.2.3): octets arrive in pieces of any size, are
  gathered into a header and then a body buffer, and come out as frames.
 */
module FrameReader {
  import opened Bytes
  import opened Wrappers
  import opened Sequences

  const HEADER_SIZE := 7
  const FOOTER_SIZE := 1
  const FRAME_END: byte := 0xCE

  const FRAME_METHOD: byte := 1
  const FRAME_HEADER: byte := 2
  const FRAME_BODY: byte := 3
  const FRAME_HEARTBEAT: byte := 8

  datatype FrameData = Frame(kind: byte, channel: nat, payload: seq<byte>)

  /** The octets of a method's number, and those of class, weight and body size. */
  const METHOD_PREFIX := 4
  const HEADER_PREFIX := 12

  /** What the reader takes for granted in the payload of a frame is there. */
  predicate WellShaped(f: FrameData) {
    && (f.kind == FRAME_METHOD ==> |f.payload| >= METHOD_PREFIX)
    && (f.kind == FRAME_HEADER ==> |f.payload| >= HEADER_PREFIX)
  }

  type Frame = f: FrameData | WellShaped(f) witness Frame(FRAME_HEARTBEAT, 0, [])

  function MethodId(f: Frame): nat
    requires f.kind == FRAME_METHOD
  {
    FromBigEndian(f.payload[..METHOD_PREFIX])
  }

  function ClassId(f: Frame): nat
    requires f.kind == FRAME_HEADER
  {
    FromBigEndian(f.payload[..2])
  }

  /** The body size a content header announces. */
  function BodySize(f: Frame): nat
    requires f.kind == FRAME_HEADER
  {
    FromBigEndian(f.payload[4..HEADER_PREFIX])
  }

  /** The decoders of methods and properties: given a number and the octets after the prefix; below 0 is an error. */
  datatype Codec = Codec(method_: (nat, seq<byte>) -> int, properties: (nat, seq<byte>) -> int)

  function Decode(codec: Codec, f: Frame): (status: int) {
    if f.kind == FRAME_METHOD then codec.method_(MethodId(f), f.payload[METHOD_PREFIX..])
    else if f.kind == FRAME_HEADER then codec.properties(ClassId(f), f.payload[HEADER_PREFIX..])
    else 0
  }

  const BAD_AMQP_DATA := -2
  const UNKNOWN_METHOD := -4

  // ---------- one whole frame ----------

  /** The announced size of the frame whose header starts s. */
  function FrameSize(s: seq<byte>): nat
    requires |s| >= HEADER_SIZE
  {
    FromBigEndian(s[3..7]) + HEADER_SIZE + FOOTER_SIZE
  }

  /** The size is computed in 32 bits and would wrap around. */
  predicate Oversized(s: seq<byte>) {
    |s| >= HEADER_SIZE && FrameSize(s) >= WORD32
  }

  predicate Complete(s: seq<byte>) {
    |s| >= HEADER_SIZE && FrameSize(s) <= |s|
  }

  predicate KnownKind(kind: byte) {
    kind == FRAME_METHOD || kind == FRAME_HEADER || kind == FRAME_BODY || kind == FRAME_HEARTBEAT
  }

  /** Astray: the reader goes on reading behind the frame, and what it makes of it depends on what lies there. */
  datatype Verdict = Accepted(frame: Frame) | Ignored | Rejected(status: int) | Astray

  /** What the reader makes of the octets of one complete frame. */
  function Judge(codec: Codec, s: seq<byte>): (v: Verdict)
    requires |s| >= HEADER_SIZE + FOOTER_SIZE
  {
    var kind, payload := s[0], s[HEADER_SIZE..|s| - 1];
    if s[|s| - 1] != FRAME_END then Rejected(BAD_AMQP_DATA)
    else if kind == FRAME_METHOD && |payload| < METHOD_PREFIX then Rejected(UNKNOWN_METHOD)
    else if kind == FRAME_HEADER && |payload| < HEADER_PREFIX then Astray
    else if !KnownKind(kind) then Ignored
    else
      var f: Frame := Frame(kind, FromBigEndian(s[1..3]), payload);
      if Decode(codec, f) < 0 then Rejected(Decode(codec, f)) else Accepted(f)
  }

  /** A frame is at least eight octets long; four octets of its header give the length of its payload. */
  lemma SizeMeans(s: seq<byte>)
    requires |s| >= 7
    ensures var a: int, b: int, c: int, d: int := s[3], s[4], s[5], s[6];
            FrameSize(s) == 0x100_0000 * a + 0x1_0000 * b + 0x100 * c + d + 8
  {
    FromFour(s[3..7]);
  }

  /** What the reader makes of a complete frame, octet by octet: only one that ends in 0xCE is not rejected. */
  lemma JudgeMeans(codec: Codec, s: seq<byte>)
    requires |s| >= 8
    ensures var v, payload := Judge(codec, s), s[7..|s| - 1];
            var kind: int, high: int, low: int, end: int := s[0], s[1], s[2], s[|s| - 1];
            var channel := 0x100 * high + low;
            && (end != 0xCE ==> v == Rejected(-2))
            && (end == 0xCE && kind !in {1, 2, 3, 8} ==> v == Ignored)
            && (end == 0xCE && kind in {3, 8} ==> v == Accepted(Frame(s[0], channel, payload)))
            && (end == 0xCE && kind == 1 ==>
                if |payload| < 4 then v == Rejected(-4)
                else
                  var a: int, b: int, c: int, d: int := payload[0], payload[1], payload[2], payload[3];
                  var status := codec.method_(0x100_0000 * a + 0x1_0000 * b + 0x100 * c + d, payload[4..]);
                  v == if status < 0 then Rejected(status) else Accepted(Frame(1, channel, payload)))
            && (end == 0xCE && kind == 2 ==>
                if |payload| < 12 then v == Astray
                else
                  var a: int, b: int := payload[0], payload[1];
                  var status := codec.properties(0x100 * a + b, payload[12..]);
                  v == if status < 0 then Rejected(status) else Accepted(Frame(2, channel, payload)))
  {
    hide FromBigEndian;
    var payload := s[7..|s| - 1];
    FromTwo(s[1..3]);
    if |payload| >= 4 {
      FromFour(payload[..4]);
    }
    if |payload| >= 2 {
      FromTwo(payload[..2]);
    }
  }

  // ---------- the one-shot parse ----------

  /** The frames of a stream, and how it ends: in an unfinished frame or with an error. */
  datatype Parsed = Parsed(frames: seq<Frame>, end: End)

  datatype End = Unfinished(rest: seq<byte>) | Failed(status: int) | TooLong | BehindFrame

  function Before(fs: seq<Frame>, p: Parsed): Parsed {
    Parsed(fs + p.frames, p.end)
  }

  function Parse(codec: Codec, s: seq<byte>): Parsed
    decreases |s|
  {
    if Oversized(s) then Parsed([], TooLong)
    else if !Complete(s) then Parsed([], Unfinished(s))
    else
      match Judge(codec, s[..FrameSize(s)])
      case Rejected(st) => Parsed([], Failed(st))
      case Astray => Parsed([], BehindFrame)
      case Ignored => Parse(codec, s[FrameSize(s)..])
      case Accepted(f) => Before([f], Parse(codec, s[FrameSize(s)..]))
  }

  lemma SameSize(s: seq<byte>, t: seq<byte>)
    requires |s| >= HEADER_SIZE
    ensures FrameSize(s + t) == FrameSize(s)
  {
    assert (s + t)[3..7] == s[3..7];
  }

  lemma BeforeBefore(a: seq<Frame>, b: seq<Frame>, p: Parsed)
    ensures Before(a, Before(b, p)) == Before(a + b, p)
  {
    assert a + (b + p.frames) == a + b + p.frames;
  }

  lemma BeforeNothing(p: Parsed)
    ensures Before([], p) == p
  {
    assert [] + p.frames == p.frames;
  }

  /** Cutting a stream in two and carrying the unfinished frame over changes nothing, up to the first error. */
  lemma {:induction false} ParseSplit(codec: Codec, s: seq<byte>, t: seq<byte>)
    ensures var p := Parse(codec, s);
            Parse(codec, s + t) ==
            if p.end.Unfinished? then Before(p.frames, Parse(codec, p.end.rest + t)) else p
    decreases |s|
  {
    if |s| < HEADER_SIZE {
      BeforeNothing(Parse(codec, s + t));
    } else {
      SameSize(s, t);
      if Oversized(s) {
      } else if !Complete(s) {
        BeforeNothing(Parse(codec, s + t));
      } else {
        var n := FrameSize(s);
        assert (s + t)[..n] == s[..n];
        assert (s + t)[n..] == s[n..] + t;
        ParseSplit(codec, s[n..], t);
        var p := Parse(codec, s[n..]);
        if p.end.Unfinished? && Judge(codec, s[..n]).Accepted? {
          BeforeBefore([Judge(codec, s[..n]).frame], p.frames, Parse(codec, p.end.rest + t));
        }
      }
    }
  }

  // ---------- payloads shorter than their prefix ----------

  /** The methods of each class, with their replies. */
  function MethodsOf(class_: nat): set<nat> {
    match class_
    case 0x0A => {0x0A, 0x0B, 0x14, 0x15, 0x1E, 0x1F, 0x28, 0x29, 0x32, 0x33}
    case 0x14 => {0x0A, 0x0B, 0x14, 0x15, 0x28, 0x29}
    case 0x1E => {0x0A, 0x0B}
    case 0x28 => {0x0A, 0x0B, 0x14, 0x15, 0x1E, 0x1F, 0x28, 0x33}
    case 0x32 => {0x0A, 0x0B, 0x14, 0x15, 0x1E, 0x1F, 0x28, 0x29, 0x32, 0x33}
    case 0x3C =>
      {0x0A, 0x0B, 0x14, 0x15, 0x1E, 0x1F, 0x28, 0x32, 0x3C, 0x46, 0x47, 0x48, 0x50, 0x5A, 0x64, 0x6E, 0x6F, 0x78}
    case 0x55 => {0x0A, 0x0B}
    case 0x5A => {0x0A, 0x0B, 0x14, 0x15, 0x1E, 0x1F}
    case _ => {}
  }

  predicate KnownMethod(id: nat) {
    id % 0x1_0000 in MethodsOf(id / 0x1_0000)
  }

  /** A method number that runs into the end marker is not known, whatever lies behind the frame. */
  lemma ShortMethodIsUnknown(payload: seq<byte>, behind: seq<byte>)
    requires |payload| < METHOD_PREFIX && |behind| >= METHOD_PREFIX
    ensures !KnownMethod(FromBigEndian((payload + [FRAME_END] + behind)[..METHOD_PREFIX]))
  {
    var s := (payload + [FRAME_END] + behind)[..METHOD_PREFIX];
    assert s[|payload|] == FRAME_END;
    FromFour(s);
    var a: int, b: int, c: int, d: int := s[0], s[1], s[2], s[3];
    var hi, lo := a * 0x100 + b, c * 0x100 + d;
    ModUnique(FromBigEndian(s), 0x1_0000, hi, lo);
    if |payload| >= 2 {
      assert forall c: nat, m :: m in MethodsOf(c) ==> m < 0x79;
    } else {
      assert forall c: nat :: MethodsOf(c) != {} ==> c < 0x5B;
    }
  }

  /** What the reader takes from a content header: the flags only if it believes there is room for them. */
  datatype View = View(class_: nat, bodySize: nat, flags: Option<nat>)

  /** The octets it believes to follow the prefix; the difference is computed in 64 bits. */
  function Room(raw: seq<byte>): nat {
    (|raw| - HEADER_SIZE - HEADER_PREFIX - FOOTER_SIZE) % WORD64
  }

  /** What it takes from the frame raw when behind lies in memory after it. */
  function ViewOf(raw: seq<byte>, behind: seq<byte>): View
    requires |raw| >= HEADER_SIZE + FOOTER_SIZE && |behind| >= HEADER_PREFIX + 2
  {
    var m := raw + behind;
    View(FromBigEndian(m[7..9]), FromBigEndian(m[11..19]),
         if Room(raw) >= 2 then Some(FromBigEndian(m[19..21])) else None)
  }

  /** What it takes from a content header is in the frame. */
  ghost predicate SeesOnlyTheFrame(raw: seq<byte>)
    requires |raw| >= HEADER_SIZE + FOOTER_SIZE
  {
    forall a, b :: |a| == |b| == HEADER_PREFIX + 2 ==> ViewOf(raw, a) == ViewOf(raw, b)
  }

  lemma LongHeaderIsSeen(raw: seq<byte>, a: seq<byte>, b: seq<byte>)
    requires HEADER_SIZE + FOOTER_SIZE + HEADER_PREFIX <= |raw| < WORD32 && |a| == |b| == HEADER_PREFIX + 2
    ensures ViewOf(raw, a) == ViewOf(raw, b)
  {
    hide FromBigEndian;
    ModUnique(|raw| - 20, WORD64, 0, |raw| - 20);
    assert (raw + a)[7..9] == raw[7..9] == (raw + b)[7..9];
    assert (raw + a)[11..19] == raw[11..19] == (raw + b)[11..19];
    if |raw| >= 22 {
      assert (raw + a)[19..21] == raw[19..21] == (raw + b)[19..21];
    }
  }

  lemma ShortHeaderFlags(raw: seq<byte>, behind: seq<byte>, x: byte)
    requires HEADER_SIZE + FOOTER_SIZE <= |raw| < HEADER_SIZE + FOOTER_SIZE + HEADER_PREFIX
    requires |behind| == HEADER_PREFIX + 2 && forall i :: 0 <= i < |behind| ==> behind[i] == x
    ensures ViewOf(raw, behind).flags.Some? && ViewOf(raw, behind).flags.value % 0x100 == x
  {
    hide FromBigEndian;
    ModUnique(|raw| - 20, WORD64, -1, |raw| - 20 + WORD64);
    LastOctet((raw + behind)[19..21]);
    assert (raw + behind)[19..21][1] == behind[20 - |raw|] == x;
  }

  /** The reader takes from a content header what is in the frame exactly when its payload has the prefix. */
  lemma ReadsBehindShortHeaders(raw: seq<byte>)
    requires HEADER_SIZE + FOOTER_SIZE <= |raw| < WORD32
    ensures SeesOnlyTheFrame(raw) <==> |raw| - HEADER_SIZE - FOOTER_SIZE >= HEADER_PREFIX
  {
    hide ViewOf;
    if |raw| >= HEADER_SIZE + FOOTER_SIZE + HEADER_PREFIX {
      forall a: seq<byte>, b: seq<byte> | |a| == |b| == HEADER_PREFIX + 2 ensures ViewOf(raw, a) == ViewOf(raw, b) {
        LongHeaderIsSeen(raw, a, b);
      }
    } else {
      var a: seq<byte> := seq(HEADER_PREFIX + 2, _ => 0);
      var b: seq<byte> := seq(HEADER_PREFIX + 2, _ => 1);
      ShortHeaderFlags(raw, a, 0);
      ShortHeaderFlags(raw, b, 1);
      assert ViewOf(raw, a) != ViewOf(raw, b);
    }
  }

  lemma LastOctet(s: seq<byte>)
    requires |s| == 2
    ensures FromBigEndian(s) % 0x100 == s[1]
  {
  }

  /** A stream on which the reader goes astray: a content header with nothing but its class. */
  lemma ShortHeaderGoesAstray(codec: Codec)
    ensures Parse(codec, [FRAME_HEADER, 0, 1, 0, 0, 0, 2, 0, 60, FRAME_END]) == Parsed([], BehindFrame)
  {
    var s: seq<byte> := [FRAME_HEADER, 0, 1, 0, 0, 0, 2, 0, 60, FRAME_END];
    assert s[3..7] == [0, 0, 0, 2];
    FromFour(s[3..7]);
    assert s[..10] == s;
  }

  // ---------- the stream in pieces ----------

  /** Reading chunk after chunk, carrying the unfinished frame over, and stopping at an error. */
  function ParseChunks(codec: Codec, rest: seq<byte>, chunks: seq<seq<byte>>): Parsed
    decreases |chunks|
  {
    if chunks == [] then Parsed([], Unfinished(rest)) else
    var p := Parse(codec, rest + chunks[0]);
    if p.end.Unfinished? then Before(p.frames, ParseChunks(codec, p.end.rest, chunks[1..])) else p
  }

  /** Nothing is left to parse in an unfinished frame. */
  predicate Rest(rest: seq<byte>) {
    !Oversized(rest) && !Complete(rest)
  }

  lemma {:induction false} UnfinishedIsRest(codec: Codec, s: seq<byte>)
    ensures Parse(codec, s).end.Unfinished? ==> Rest(Parse(codec, s).end.rest)
    decreases |s|
  {
    if !Oversized(s) && Complete(s) {
      UnfinishedIsRest(codec, s[FrameSize(s)..]);
    }
  }

  /**
    The frames depend only on the octets of the stream, not on how they are cut into reads:
    reading in chunks equals parsing whole frames in one go.
   */
  lemma {:induction false} CutsDoNotMatter(codec: Codec, rest: seq<byte>, chunks: seq<seq<byte>>)
    requires Rest(rest)
    ensures ParseChunks(codec, rest, chunks) == Parse(codec, rest + Concat(chunks))
    decreases |chunks|
  {
    if chunks == [] {
      assert rest + [] == rest;
    } else {
      var s, t := rest + chunks[0], Concat(chunks[1..]);
      assert s + t == rest + Concat(chunks);
      ParseSplit(codec, s, t);
      UnfinishedIsRest(codec, s);
      var p := Parse(codec, s);
      if p.end.Unfinished? {
        CutsDoNotMatter(codec, p.end.rest, chunks[1..]);
      }
    }
  }

  /** Two ways of cutting the same stream give the same frames and the same end. */
  lemma AnyTwoCuts(codec: Codec, a: seq<seq<byte>>, b: seq<seq<byte>>)
    requires Concat(a) == Concat(b)
    ensures ParseChunks(codec, [], a) == ParseChunks(codec, [], b)
  {
    CutsDoNotMatter(codec, [], a);
    CutsDoNotMatter(codec, [], b);
  }

  // ---------- sending ----------

  /** The octets of a frame on the wire. */
  function FrameBytes(f: Frame): seq<byte> {
    [f.kind] + BigEndian(2, f.channel) + BigEndian(4, |f.payload|) + f.payload + [FRAME_END]
  }

  /** Kind, channel, length, payload and end marker. */
  lemma FrameOnTheWire(f: Frame)
    ensures FrameBytes(f) ==
            [f.kind, f.channel / 0x100 % 0x100, f.channel % 0x100] + BigEndian(4, |f.payload|) + f.payload + [0xCE]
  {
    assert BigEndian(0, f.channel / 0x1_0000) == [];
    assert BigEndian(1, f.channel / 0x100) == [f.channel / 0x100 % 0x100];
  }

  predicate Sendable(codec: Codec, f: Frame) {
    KnownKind(f.kind) && f.channel < 0x1_0000 && |f.payload| + HEADER_SIZE + FOOTER_SIZE < WORD32
      && Decode(codec, f) >= 0
  }

  function Stream(fs: seq<Frame>): seq<byte> {
    if fs == [] then [] else FrameBytes(fs[0]) + Stream(fs[1..])
  }

  lemma FieldsOfBytes(f: Frame)
    requires f.channel < 0x1_0000 && |f.payload| + HEADER_SIZE + FOOTER_SIZE < WORD32
    ensures var b := FrameBytes(f);
            && |b| == |f.payload| + HEADER_SIZE + FOOTER_SIZE && b[0] == f.kind && b[|b| - 1] == FRAME_END
            && FromBigEndian(b[1..3]) == f.channel && b[HEADER_SIZE..|b| - 1] == f.payload && FrameSize(b) == |b|
  {
    hide FromBigEndian, BigEndian;
    var b := FrameBytes(f);
    Pow256Values();
    assert b[1..3] == BigEndian(2, f.channel);
    assert b[3..7] == BigEndian(4, |f.payload|);
    BigEndianRoundTrip(2, f.channel);
    BigEndianRoundTrip(4, |f.payload|);
    assert b[7..|b| - 1] == f.payload;
  }

  lemma ReadOneFrame(codec: Codec, f: Frame, rest: seq<byte>)
    requires Sendable(codec, f)
    ensures var s := FrameBytes(f) + rest;
            && !Oversized(s) && Complete(s) && FrameSize(s) == |FrameBytes(f)|
            && s[..FrameSize(s)] == FrameBytes(f) && s[FrameSize(s)..] == rest
            && Judge(codec, FrameBytes(f)) == Accepted(f)
  {
    hide FrameBytes, FromBigEndian, Decode, FrameSize;
    FieldsOfBytes(f);
    SameSize(FrameBytes(f), rest);
  }

  /** Frames sent one after the other are read back as they were sent. */
  lemma {:induction false} ReadBackStream(codec: Codec, fs: seq<Frame>, rest: seq<byte>)
    requires forall f :: f in fs ==> Sendable(codec, f)
    ensures Parse(codec, Stream(fs) + rest) == Before(fs, Parse(codec, rest))
  {
    if fs == [] {
      assert Stream(fs) + rest == rest;
      BeforeNothing(Parse(codec, rest));
    } else {
      var more := Stream(fs[1..]) + rest;
      assert Stream(fs) + rest == FrameBytes(fs[0]) + more;
      ReadOneFrame(codec, fs[0], more);
      ReadBackStream(codec, fs[1..], rest);
      BeforeBefore([fs[0]], fs[1..], Parse(codec, rest));
      assert [fs[0]] + fs[1..] == fs;
    }
  }

  // ---------- the reader ----------

  datatype State = Idle | Header | Body

  datatype Result = Consumed(n: nat, frame: Option<Frame>) | Error(status: int) | Overflow | ReadBehind

  class Connection {
    const codec: Codec
    const headerBuffer: array<byte>
    var state: State
    var inbound: array<byte>
    var inboundOffset: nat
    var targetSize: nat

    /** The octets of the frame being gathered. */
    ghost function Partial(): seq<byte>
      requires inboundOffset <= inbound.Length
      reads this, inbound
    {
      inbound[..inboundOffset]
    }

    ghost predicate Valid()
      reads this, headerBuffer, inbound
    {
      && headerBuffer.Length == HEADER_SIZE + 1
      && (!state.Body? ==> inbound == headerBuffer && targetSize == HEADER_SIZE && inboundOffset < HEADER_SIZE)
      && (state.Idle? ==> inboundOffset == 0)
      && (state.Body? ==>
            && inbound != headerBuffer
            && HEADER_SIZE <= inboundOffset < targetSize == inbound.Length < WORD32
            && FrameSize(Partial()) == targetSize)
    }

    constructor (codec: Codec)
      ensures Valid() && Partial() == [] && this.codec == codec
      ensures fresh(headerBuffer) && fresh(inbound)
    {
      this.codec := codec;
      headerBuffer := new byte[HEADER_SIZE + 1](_ => 0);
      state, inboundOffset, targetSize := Idle, 0, HEADER_SIZE;
      inbound := headerBuffer;
    }

    method ReturnToIdle()
      requires headerBuffer.Length == HEADER_SIZE + 1
      modifies this
      ensures Valid() && Partial() == []
    {
      inbound := headerBuffer;
      inboundOffset := 0;
      targetSize := HEADER_SIZE;
      state := Idle;
    }

    /** Copies as much as is available and still missing. */
    method ConsumeData(data: seq<byte>) returns (n: nat)
      requires inboundOffset <= targetSize <= inbound.Length
      modifies `inboundOffset, inbound
      ensures n == if |data| < targetSize - old(inboundOffset) then |data| else targetSize - old(inboundOffset)
      ensures inboundOffset == old(inboundOffset) + n
      ensures inbound[..inboundOffset] == old(inbound[..inboundOffset]) + data[..n]
    {
      n := targetSize - inboundOffset;
      if |data| < n {
        n := |data|;
      }
      forall i | 0 <= i < n {
        inbound[inboundOffset + i] := data[i];
      }
      inboundOffset := inboundOffset + n;
    }

    /** The header is complete: allocate the whole frame and move the header over. */
    method StartBody()
      requires headerBuffer.Length == HEADER_SIZE + 1 && inbound == headerBuffer && inboundOffset == HEADER_SIZE
      modifies `state, `inbound, `targetSize
      ensures state.Body? && fresh(inbound)
      ensures inbound.Length == targetSize == FrameSize(headerBuffer[..HEADER_SIZE])
      ensures inbound[..HEADER_SIZE] == headerBuffer[..HEADER_SIZE]
    {
      assert headerBuffer[..HEADER_SIZE][3..7] == headerBuffer[3..7];
      targetSize := FromBigEndian(headerBuffer[3..7]) + HEADER_SIZE + FOOTER_SIZE;
      var frame := new byte[targetSize](_ => 0);
      forall i | 0 <= i < HEADER_SIZE {
        frame[i] := headerBuffer[i];
      }
      inbound := frame;
      state := Body;
      assert headerBuffer[..HEADER_SIZE][3..7] == headerBuffer[3..7] == old(headerBuffer[3..7]);
    }

    /** All octets of the frame are there: check the end marker and decode. */
    method FinishFrame(n: nat) returns (r: Result)
      requires headerBuffer.Length == HEADER_SIZE + 1
      requires HEADER_SIZE + FOOTER_SIZE <= inbound.Length == targetSize == inboundOffset
      modifies this
      ensures match Judge(codec, old(inbound[..]))
              case Rejected(st) => r == Error(st) && inbound == old(inbound)
              case Astray => r == ReadBehind && inbound == old(inbound)
              case Ignored => r == Consumed(n, None) && Valid() && Partial() == [] && inbound == headerBuffer
              case Accepted(f) => r == Consumed(n, Some(f)) && Valid() && Partial() == [] && inbound == headerBuffer
    {
      if inbound[targetSize - 1] != FRAME_END {
        return Error(BAD_AMQP_DATA);
      }
      var kind, channel := inbound[0], FromBigEndian(inbound[1..3]);
      var payload := inbound[HEADER_SIZE..targetSize - 1];
      assert inbound[..][1..3] == inbound[1..3] && inbound[..][HEADER_SIZE..targetSize - 1] == payload;
      if kind == FRAME_METHOD && |payload| < METHOD_PREFIX {
        return Error(UNKNOWN_METHOD);
      }
      if kind == FRAME_HEADER && |payload| < HEADER_PREFIX {
        return ReadBehind;
      }
      if !KnownKind(kind) {
        ReturnToIdle();
        return Consumed(n, None);
      }
      var frame: Frame := Frame(kind, channel, payload);
      var status := Decode(codec, frame);
      if status < 0 {
        return Error(status);
      }
      ReturnToIdle();
      r := Consumed(n, Some(frame));
    }

    /** The part of a call that runs in the BODY state. */
    method HandleBody(data: seq<byte>, n: nat) returns (r: Result)
      requires headerBuffer.Length == HEADER_SIZE + 1 && state.Body? && inbound != headerBuffer
      requires HEADER_SIZE <= inboundOffset < targetSize == inbound.Length < WORD32
               && FrameSize(Partial()) == targetSize
      modifies this, inbound
      ensures inbound == old(inbound) || inbound == headerBuffer
      ensures var all := old(Partial()) + data;
              if old(targetSize) > |all| then
                r == Consumed(n + |data|, None) && Valid() && Partial() == all
              else
                var k := n + (old(targetSize) - old(inboundOffset));
                match Judge(codec, all[..old(targetSize)])
                case Rejected(st) => r == Error(st)
                case Astray => r == ReadBehind
                case Ignored => r == Consumed(k, None) && Valid() && Partial() == []
                case Accepted(f) => r == Consumed(k, Some(f)) && Valid() && Partial() == []
    {
      ghost var partial := Partial();
      ghost var all := partial + data;
      SameSize(partial, data);
      var more := ConsumeData(data);
      if inboundOffset < targetSize {
        assert data[..more] == data;
        r := Consumed(n + more, None);
      } else {
        assert all[..targetSize] == partial + data[..more] == inbound[..inboundOffset] == inbound[..];
        r := FinishFrame(n + more);
      }
    }

    /** The part of a call that runs in the HEADER state. */
    method HandleHeader(data: seq<byte>) returns (r: Result)
      requires headerBuffer.Length == HEADER_SIZE + 1 && state.Header? && inbound == headerBuffer
      requires targetSize == HEADER_SIZE && inboundOffset < HEADER_SIZE
      modifies this, inbound
      ensures inbound == old(inbound) || inbound == headerBuffer || fresh(inbound)
      ensures data != [] ==> r == Expected(codec, old(Partial()), data)
      ensures data != [] && r.Consumed? ==> Valid() && Partial() == Gathered(old(Partial()), data)
    {
      ghost var partial := Partial();
      ghost var all := partial + data;
      var n := ConsumeData(data);
      if inboundOffset < targetSize {
        assert data[..n] == data;
        return Consumed(n, None);
      }
      ghost var head := headerBuffer[..HEADER_SIZE];
      assert head == partial + data[..n] && head[3..7] == headerBuffer[3..7];
      assert all == head + data[n..];
      SameSize(head, data[n..]);
      if FromBigEndian(headerBuffer[3..7]) + HEADER_SIZE + FOOTER_SIZE >= WORD32 {
        return Overflow;
      }
      StartBody();
      r := HandleBody(data[n..], n);
    }

    /** Gathers octets; hands out a frame once one is complete. */
    method HandleInput(data: seq<byte>) returns (r: Result)
      requires Valid()
      modifies this, headerBuffer, inbound
      ensures r == Expected(codec, old(Partial()), data)
      ensures r.Consumed? ==> Valid() && Partial() == Gathered(old(Partial()), data)
      ensures inbound == old(inbound) || inbound == headerBuffer || fresh(inbound)
    {
      if |data| == 0 {
        assert Partial() + data == Partial();
        return Consumed(0, None);
      }
      if state.Idle? {
        state := Header;
      }
      if state.Header? {
        r := HandleHeader(data);
      } else {
        SameSize(Partial(), data);
        r := HandleBody(data, 0);
      }
    }

    /** Hands everything received to the reader, frame by frame, keeping the frames that are not ignored. */
    method ReadChunk(data: seq<byte>) returns (p: Parsed)
      requires Valid()
      modifies this, headerBuffer, inbound
      ensures p == Parse(codec, old(Partial()) + data)
      ensures p.end.Unfinished? ==> Valid() && Partial() == p.end.rest
      ensures inbound == old(inbound) || inbound == headerBuffer || fresh(inbound)
    {
      hide Parse, Expected, Rest, Gathered, Before;
      var frames: seq<Frame> := [];
      var offset := 0;
      ValidRest();
      ghost var whole := Parse(codec, Partial() + data);
      BeforeNothing(whole);
      assert data[0..] == data;
      while offset < |data|
        invariant 0 <= offset <= |data| && Valid() && Rest(Partial())
        invariant inbound == old(inbound) || inbound == headerBuffer || fresh(inbound)
        invariant whole == Before(frames, Parse(codec, Partial() + data[offset..]))
        decreases |data| - offset
      {
        var more := data[offset..];
        ghost var partial := Partial();
        var r := HandleInput(more);
        match r {
          case Error(st) =>
            ParseFails(codec, partial, more, frames);
            return Parsed(frames, Failed(st));
          case Overflow =>
            ParseFails(codec, partial, more, frames);
            return Parsed(frames, TooLong);
          case ReadBehind =>
            ParseFails(codec, partial, more, frames);
            return Parsed(frames, BehindFrame);
          case Consumed(n, f) =>
            ParseStep(codec, partial, more);
            ValidRest();
            if f.Some? {
              BeforeBefore(frames, [f.value], Parse(codec, Partial() + more[n..]));
              frames := frames + [f.value];
            }
            assert more[n..] == data[offset + n..];
            offset := offset + n;
        }
      }
      p := Parsed(frames, Unfinished(inbound[..inboundOffset]));
      assert Partial() + data[offset..] == Partial();
      NothingToParse(codec, Partial(), frames);
    }

    /** Hands everything received to the reader, receive after receive, up to the first error. */
    method ReadAll(chunks: seq<seq<byte>>) returns (p: Parsed)
      requires Valid()
      modifies this, headerBuffer, inbound
      ensures p == ParseChunks(codec, old(Partial()), chunks)
      ensures p == Parse(codec, old(Partial()) + Concat(chunks))
      ensures p.end.Unfinished? ==> Valid() && Partial() == p.end.rest
      ensures inbound == old(inbound) || inbound == headerBuffer || fresh(inbound)
    {
      hide Parse, Rest, Before, Concat;
      ghost var whole := ParseChunks(codec, Partial(), chunks);
      ValidRest();
      CutsDoNotMatter(codec, Partial(), chunks);
      p := Parsed([], Unfinished(inbound[..inboundOffset]));
      BeforeNothing(whole);
      assert chunks[0..] == chunks;
      for i := 0 to |chunks|
        invariant Valid() && p.end == Unfinished(Partial())
        invariant inbound == old(inbound) || inbound == headerBuffer || fresh(inbound)
        invariant whole == Before(p.frames, ParseChunks(codec, Partial(), chunks[i..]))
      {
        ghost var partial := Partial();
        assert chunks[i..][0] == chunks[i] && chunks[i..][1..] == chunks[i + 1..];
        var q := ReadChunk(chunks[i]);
        NextChunk(codec, partial, chunks[i..], p.frames);
        p := Parsed(p.frames + q.frames, q.end);
        if !q.end.Unfinished? {
          return;
        }
      }
      NoMoreChunks(codec, Partial(), p.frames);
    }

    lemma ValidRest()
      requires Valid()
      ensures Rest(Partial())
    {
    }
  }

  lemma NextChunk(codec: Codec, rest: seq<byte>, chunks: seq<seq<byte>>, frames: seq<Frame>)
    requires chunks != []
    ensures var p := Parse(codec, rest + chunks[0]);
            Before(frames, ParseChunks(codec, rest, chunks)) ==
            if p.end.Unfinished? then Before(frames + p.frames, ParseChunks(codec, p.end.rest, chunks[1..]))
            else Parsed(frames + p.frames, p.end)
  {
    hide Parse;
    var p := Parse(codec, rest + chunks[0]);
    if p.end.Unfinished? {
      BeforeBefore(frames, p.frames, ParseChunks(codec, p.end.rest, chunks[1..]));
    }
  }

  lemma NoMoreChunks(codec: Codec, rest: seq<byte>, frames: seq<Frame>)
    ensures Before(frames, ParseChunks(codec, rest, [])) == Parsed(frames, Unfinished(rest))
  {
    assert frames + [] == frames;
  }

  lemma NothingToParse(codec: Codec, rest: seq<byte>, frames: seq<Frame>)
    requires Rest(rest)
    ensures Before(frames, Parse(codec, rest)) == Parsed(frames, Unfinished(rest))
  {
    assert frames + [] == frames;
  }

  /** When a call fails, so does the parse. */
  lemma ParseFails(codec: Codec, partial: seq<byte>, data: seq<byte>, frames: seq<Frame>)
    requires Rest(partial) && data != [] && !Expected(codec, partial, data).Consumed?
    ensures Before(frames, Parse(codec, partial + data)) ==
            Parsed(frames, match Expected(codec, partial, data)
                           case Error(st) => Failed(st)
                           case ReadBehind => BehindFrame
                           case _ => TooLong)
  {
    assert frames + [] == frames;
    if |partial| >= HEADER_SIZE {
      SameSize(partial, data);
    }
  }

  /** One call peels off the first frame of what has been gathered and received. */
  lemma ParseStep(codec: Codec, partial: seq<byte>, data: seq<byte>)
    requires Rest(partial) && data != [] && Expected(codec, partial, data).Consumed?
    ensures var r := Expected(codec, partial, data);
            && 0 < r.n <= |data|
            && Rest(Gathered(partial, data))
            && Parse(codec, partial + data) ==
               var p := Parse(codec, Gathered(partial, data) + data[r.n..]);
               if r.frame.Some? then Before([r.frame.value], p) else p
  {
    var all := partial + data;
    var n := Expected(codec, partial, data).n;
    if !Complete(all) {
      assert all + data[n..] == all;
    } else {
      if |partial| >= HEADER_SIZE {
        SameSize(partial, data);
      }
      assert all[FrameSize(all)..] == data[n..] == [] + data[n..];
    }
  }

  /** What a call with data does when partial has been gathered before. */
  function Expected(codec: Codec, partial: seq<byte>, data: seq<byte>): Result {
    var all := partial + data;
    if data == [] then Consumed(0, None)
    else if Oversized(all) then Overflow
    else if !Complete(all) then Consumed(|data|, None)
    else if FrameSize(all) < |partial| then Overflow
    else
      var n := FrameSize(all) - |partial|;
      match Judge(codec, all[..FrameSize(all)])
      case Rejected(st) => Error(st)
      case Astray => ReadBehind
      case Ignored => Consumed(n, None)
      case Accepted(f) => Consumed(n, Some(f))
  }

  function Gathered(partial: seq<byte>, data: seq<byte>): seq<byte> {
    if data != [] && Complete(partial + data) then [] else partial + data
  }
}
