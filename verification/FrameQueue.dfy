/**
  The queue of frames that arrived while something else was awaited: frames are taken from the
  stream, parked during a synchronous call, put back, and handed out in the end.
 */
module FrameQueue {
  import opened Bytes
  import opened FrameReader
  import C = Content

  // ---------- the incoming stream ----------

  /** One receive: the complete frames it brings and how reading them ends (0: fine), or a failure. */
  datatype Recv = Data(frames: seq<Frame>, status: int) | Fail(status: int)

  /** What is in the inbound buffer, how it ends, and what later receives will bring. */
  datatype Input = Input(buffered: seq<Frame>, trouble: int, arrivals: seq<Recv>)

  const CONNECTION_CLOSED := -7

  /** All frames that can still be read. */
  function All(i: Input): seq<Frame> {
    i.buffered + if i.trouble != 0 then [] else Later(i.arrivals)
  }

  function Later(arrivals: seq<Recv>): seq<Frame> {
    if arrivals == [] then []
    else if arrivals[0].Fail? then Later(arrivals[1..])
    else arrivals[0].frames + if arrivals[0].status != 0 then [] else Later(arrivals[1..])
  }

  datatype Outcome = Got(frame: Frame) | Replied(frame: Frame, normal: bool) | Done | Stopped(status: int)

  /** Receives into an empty buffer. */
  function Receive(i: Input): (r: (Outcome, Input))
    requires i.buffered == [] && i.trouble == 0
    ensures r.0.Done? || r.0.Stopped?
  {
    if i.arrivals == [] then (Stopped(CONNECTION_CLOSED), i)
    else
      match i.arrivals[0]
      case Fail(status) => (Stopped(status), i.(arrivals := i.arrivals[1..]))
      case Data(frames, status) => (Done, Input(frames, status, i.arrivals[1..]))
  }

  /** The next frame of the stream, or why there is none for now. */
  function Next(i: Input): (r: (Outcome, Input))
    ensures r.0.Got? || r.0.Stopped?
    ensures if r.0.Got? then All(i) == [r.0.frame] + All(r.1) else All(i) == All(r.1)
    decreases |i.arrivals|
  {
    if i.buffered != [] then
      assert [i.buffered[0]] + i.buffered[1..] == i.buffered;
      (Got(i.buffered[0]), i.(buffered := i.buffered[1..]))
    else if i.trouble != 0 then (Stopped(i.trouble), i)
    else
      var (o, j) := Receive(i);
      if o.Stopped? then (o, j) else Next(j)
  }

  // ---------- the protocol on values ----------

  datatype Fate = Swallowed | Kept | Answer

  datatype Fated = Fated(frame: Frame, fate: Fate)

  /** The log says of every frame taken from the stream, in order, what became of it. */
  datatype State = State(input: Input, queued: seq<Frame>, delivered: seq<Frame>, log: seq<Fated>)

  function FramesOf(log: seq<Fated>): seq<Frame> {
    if log == [] then [] else FramesOf(log[..|log| - 1]) + [log[|log| - 1].frame]
  }

  /** The frames of the log with the given fate, in order of arrival. */
  function With(log: seq<Fated>, fate: Fate): seq<Frame> {
    if log == [] then []
    else With(log[..|log| - 1], fate) + if log[|log| - 1].fate == fate then [log[|log| - 1].frame] else []
  }

  /** Only heartbeats are swallowed, and only methods are answers. */
  predicate FatesRight(log: seq<Fated>) {
    && (forall e :: e in log && e.fate == Swallowed ==> e.frame.kind == FRAME_HEARTBEAT)
    && (forall e :: e in log && e.fate == Answer ==> e.frame.kind == FRAME_METHOD)
  }

  lemma LogOne(log: seq<Fated>, f: Frame, fate: Fate, other: Fate)
    ensures FramesOf(log + [Fated(f, fate)]) == FramesOf(log) + [f]
    ensures With(log + [Fated(f, fate)], other) == if fate == other then With(log, other) + [f] else With(log, other)
    ensures FatesRight(log) && (fate == Swallowed ==> f.kind == FRAME_HEARTBEAT)
            && (fate == Answer ==> f.kind == FRAME_METHOD)
            ==> FatesRight(log + [Fated(f, fate)])
  {
    assert (log + [Fated(f, fate)])[..|log|] == log;
  }

  function Logged(s: State, f: Frame, fate: Fate): State {
    s.(log := s.log + [Fated(f, fate)])
  }

  function Enqueue(s: State, f: Frame): State {
    Logged(s, f, Kept).(queued := s.queued + [f])
  }

  function Deliver(s: State, f: Frame): State {
    Logged(s, f, Kept).(delivered := s.delivered + [f])
  }

  /** Takes the next frame from the stream, swallowing heartbeats. */
  function WaitInner(s: State): (r: (Outcome, State))
    ensures r.0.Got? || r.0.Stopped?
    ensures r.0.Got? ==> |All(r.1.input)| < |All(s.input)|
    ensures r.1.queued == s.queued && r.1.delivered == s.delivered
    decreases |All(s.input)|
  {
    var (o, i) := Next(s.input);
    var t := s.(input := i);
    if o.Got? && o.frame.kind == FRAME_HEARTBEAT then WaitInner(Logged(t, o.frame, Swallowed)) else (o, t)
  }

  function Wait(s: State): (Outcome, State) {
    if s.queued != [] then
      (Got(s.queued[0]), s.(queued := s.queued[1..], delivered := s.delivered + [s.queued[0]]))
    else
      var (o, t) := WaitInner(s);
      (o, if o.Got? then Deliver(t, o.frame) else t)
  }

  predicate HandedOutLast(s: State, f: Frame) {
    s.delivered != [] && s.delivered[|s.delivered| - 1] == f
  }

  /** Puts a frame, as a rule the one handed out last, in front of the queue. */
  function PutBack(s: State, f: Frame): State {
    s.(queued := [f] + s.queued,
       delivered := if HandedOutLast(s, f) then s.delivered[..|s.delivered| - 1] else s.delivered)
  }

  /** Parks whatever is in the buffer, heartbeats too, and then receives once. */
  function TryRecv(s: State): (Outcome, State)
    decreases |s.input.buffered|
  {
    if s.input.buffered != [] then
      TryRecv(Enqueue(s.(input := s.input.(buffered := s.input.buffered[1..])), s.input.buffered[0]))
    else if s.input.trouble != 0 then (Stopped(s.input.trouble), s)
    else
      var (o, i) := Receive(s.input);
      (o, s.(input := i))
  }

  /** Whether a method is in the list of expected replies, which a zero ends. */
  predicate InList(id: nat, ids: seq<nat>) {
    ids != [] && ids[0] != 0 && (ids[0] == id || InList(id, ids[1..]))
  }

  predicate Expects(ids: seq<nat>, f: Frame)
    requires f.kind == FRAME_METHOD
  {
    InList(MethodId(f), ids)
  }

  /** The frames that end a synchronous call: an expected reply, or the channel or connection closing. */
  predicate Matches(f: Frame, channel: nat, ids: seq<nat>) {
    && f.kind == FRAME_METHOD
    && (  (f.channel == channel && (Expects(ids, f) || MethodId(f) == C.CHANNEL_CLOSE))
       || (f.channel == 0 && MethodId(f) == C.CONNECTION_CLOSE))
  }

  /** Waits for a reply, parking every other frame. */
  function Rpc(s: State, channel: nat, ids: seq<nat>): (r: (Outcome, State))
    ensures r.0.Replied? || r.0.Stopped?
    ensures r.0.Replied? ==> Matches(r.0.frame, channel, ids) && (r.0.normal <==> Expects(ids, r.0.frame))
    decreases |All(s.input)|
  {
    var (o, t) := WaitInner(s);
    if !o.Got? then (o, t)
    else if Matches(o.frame, channel, ids) then (Replied(o.frame, Expects(ids, o.frame)), Logged(t, o.frame, Answer))
    else Rpc(Enqueue(t, o.frame), channel, ids)
  }

  /** A synchronous call, whose request is sent first; sent is what sending it returns. */
  function Call(s: State, sent: int, channel: nat, ids: seq<nat>): (r: (Outcome, State))
    ensures r.0.Replied? || r.0.Stopped?
  {
    if sent < 0 then (Stopped(sent), s) else Rpc(s, channel, ids)
  }

  /** The position of the first frame on channel, or |q|. */
  function First(q: seq<Frame>, channel: nat): (k: nat)
    ensures k <= |q| && (k < |q| ==> q[k].channel == channel)
    ensures forall i :: 0 <= i < k ==> q[i].channel != channel
  {
    if q == [] || q[0].channel == channel then 0 else 1 + First(q[1..], channel)
  }

  /** Waits for a frame on channel; one found in the queue takes everything before it off the queue, too. */
  function WaitOn(s: State, channel: nat): (Outcome, State) {
    var k := First(s.queued, channel);
    if k < |s.queued| then
      (Got(s.queued[k]), s.(queued := s.queued[k + 1..], delivered := s.delivered + [s.queued[k]]))
    else WaitOnStream(s, channel)
  }

  function WaitOnStream(s: State, channel: nat): (Outcome, State)
    decreases |All(s.input)|
  {
    var (o, t) := WaitInner(s);
    if !o.Got? then (o, t)
    else if o.frame.channel == channel then (o, Deliver(t, o.frame))
    else WaitOnStream(Enqueue(t, o.frame), channel)
  }

  datatype Op =
    | DoWait | DoPutBack(frame: Frame) | DoTryRecv
    | DoRpc(sent: int, channel: nat, ids: seq<nat>) | DoWaitOn(channel: nat)

  function Do(s: State, op: Op): State {
    match op
    case DoWait => Wait(s).1
    case DoPutBack(f) => PutBack(s, f)
    case DoTryRecv => TryRecv(s).1
    case DoRpc(sent, channel, ids) => Call(s, sent, channel, ids).1
    case DoWaitOn(channel) => WaitOn(s, channel).1
  }

  function Run(s: State, ops: seq<Op>): State
    decreases |ops|
  {
    if ops == [] then s else Run(Do(s, ops[0]), ops[1..])
  }

  // ---------- nothing is made up, lost or reordered ----------

  /** The frames taken from the stream, followed by those still in it. */
  function Whole(s: State): seq<Frame> {
    FramesOf(s.log) + All(s.input)
  }

  /** What was handed out, followed by what is parked, is what was kept, in order of arrival. */
  predicate Ordered(s: State) {
    s.delivered + s.queued == With(s.log, Kept)
  }

  function On(fs: seq<Frame>, channel: nat): seq<Frame> {
    if fs == [] then []
    else On(fs[..|fs| - 1], channel) + if fs[|fs| - 1].channel == channel then [fs[|fs| - 1]] else []
  }

  /** The same for one channel by itself. */
  predicate OrderedOn(s: State, channel: nat) {
    On(s.delivered, channel) + On(s.queued, channel) == On(With(s.log, Kept), channel)
  }

  lemma {:induction false} OnConcat(a: seq<Frame>, b: seq<Frame>, channel: nat)
    ensures On(a + b, channel) == On(a, channel) + On(b, channel)
    decreases |b|
  {
    if b == [] {
      assert a + b == a;
    } else {
      var n := |b| - 1;
      assert (a + b)[..|a| + n] == a + b[..n];
      OnConcat(a, b[..n], channel);
    }
  }

  lemma OnOne(a: seq<Frame>, f: Frame, channel: nat)
    ensures On(a + [f], channel) == if f.channel == channel then On(a, channel) + [f] else On(a, channel)
  {
    assert (a + [f])[..|a|] == a;
  }

  /** Waiting consumes exactly the heartbeats before the frame it returns. */
  lemma {:induction false} WaitInnerKeeps(s: State)
    ensures var (o, t) := WaitInner(s);
            && Whole(s) == FramesOf(t.log) + (if o.Got? then [o.frame] else []) + All(t.input)
            && (FatesRight(s.log) ==> FatesRight(t.log))
            && With(t.log, Kept) == With(s.log, Kept) && With(t.log, Answer) == With(s.log, Answer)
            && (o.Got? ==> o.frame.kind != FRAME_HEARTBEAT)
    decreases |All(s.input)|
  {
    var (o, i) := Next(s.input);
    var t := s.(input := i);
    if o.Got? {
      assert FramesOf(s.log) + ([o.frame] + All(i)) == FramesOf(s.log) + [o.frame] + All(i);
      if o.frame.kind == FRAME_HEARTBEAT {
        LogOne(s.log, o.frame, Swallowed, Kept);
        LogOne(s.log, o.frame, Swallowed, Answer);
        WaitInnerKeeps(Logged(t, o.frame, Swallowed));
      }
    } else {
      assert FramesOf(s.log) + [] == FramesOf(s.log);
    }
  }

  /** What every operation keeps of the stream and the fates, and how many answers it adds. */
  ghost predicate Honest(s: State, t: State, answers: seq<Frame>) {
    && Whole(t) == Whole(s)
    && (FatesRight(s.log) ==> FatesRight(t.log))
    && With(t.log, Answer) == With(s.log, Answer) + answers
  }

  /** Whether nothing was lost, made up or logged wrongly, and the frames on each channel stay in order. */
  ghost predicate Keeps(s: State, t: State, answers: seq<Frame>) {
    Honest(s, t, answers) && forall c :: OrderedOn(s, c) ==> OrderedOn(t, c)
  }

  /** Parking a frame just taken from the stream. */
  lemma EnqueueKeeps(s: State, t: State, f: Frame)
    requires Whole(s) == FramesOf(t.log) + [f] + All(t.input)
    requires t.queued == s.queued && t.delivered == s.delivered
    requires FatesRight(s.log) ==> FatesRight(t.log)
    requires With(t.log, Kept) == With(s.log, Kept) && With(t.log, Answer) == With(s.log, Answer)
    ensures Keeps(s, Enqueue(t, f), []) && (Ordered(s) ==> Ordered(Enqueue(t, f)))
  {
    hide FatesRight, With, FramesOf, On, All;
    LogOne(t.log, f, Kept, Kept);
    LogOne(t.log, f, Kept, Answer);
    var u := Enqueue(t, f);
    assert u.delivered + u.queued == (s.delivered + s.queued) + [f];
    forall c | OrderedOn(s, c) ensures OrderedOn(u, c) {
      OnOne(s.queued, f, c);
      OnOne(With(s.log, Kept), f, c);
    }
  }

  /** Handing out a frame just taken from the stream, when no frame of its channel is parked. */
  lemma DeliverKeeps(s: State, t: State, f: Frame)
    requires Whole(s) == FramesOf(t.log) + [f] + All(t.input)
    requires t.queued == s.queued && t.delivered == s.delivered
    requires FatesRight(s.log) ==> FatesRight(t.log)
    requires With(t.log, Kept) == With(s.log, Kept) && With(t.log, Answer) == With(s.log, Answer)
    requires On(s.queued, f.channel) == []
    ensures Keeps(s, Deliver(t, f), []) && (Ordered(s) && s.queued == [] ==> Ordered(Deliver(t, f)))
  {
    hide FatesRight, With, FramesOf, On, All;
    LogOne(t.log, f, Kept, Kept);
    LogOne(t.log, f, Kept, Answer);
    var u := Deliver(t, f);
    forall c | OrderedOn(s, c) ensures OrderedOn(u, c) {
      OnOne(s.delivered, f, c);
      OnOne(With(s.log, Kept), f, c);
    }
  }

  lemma WaitKeeps(s: State)
    ensures Keeps(s, Wait(s).1, []) && (Ordered(s) ==> Ordered(Wait(s).1))
  {
    hide FatesRight, With, FramesOf, On, All, WaitInner;
    if s.queued == [] {
      WaitInnerKeeps(s);
      var (o, t) := WaitInner(s);
      if o.Got? {
        NoneOn(s.queued, o.frame.channel);
        DeliverKeeps(s, t, o.frame);
      }
    } else {
      HeadOut(s);
    }
  }

  /** Handing out the frame at the head of the queue. */
  lemma HeadOut(s: State)
    requires s.queued != []
    ensures Wait(s).1.log == s.log && Keeps(s, Wait(s).1, []) && (Ordered(s) ==> Ordered(Wait(s).1))
  {
    var f, t := s.queued[0], Wait(s).1;
    assert [f] + t.queued == s.queued;
    assert s.delivered + s.queued == t.delivered + t.queued;
    forall c ensures On(t.delivered, c) + On(t.queued, c) == On(s.delivered, c) + On(s.queued, c) {
      OnConcat([f], t.queued, c);
      OnConcat(s.delivered, [f], c);
    }
  }

  lemma PutBackKeeps(s: State, f: Frame)
    requires HandedOutLast(s, f)
    ensures Keeps(s, PutBack(s, f), []) && (Ordered(s) ==> Ordered(PutBack(s, f)))
  {
    var t := PutBack(s, f);
    assert t.delivered + [f] == s.delivered && [f] + s.queued == t.queued;
    assert s.delivered + s.queued == t.delivered + t.queued;
    forall c ensures On(t.delivered, c) + On(t.queued, c) == On(s.delivered, c) + On(s.queued, c) {
      OnConcat([f], s.queued, c);
      OnConcat(t.delivered, [f], c);
    }
  }

  lemma {:induction false} TryRecvKeeps(s: State)
    ensures Keeps(s, TryRecv(s).1, []) && (Ordered(s) ==> Ordered(TryRecv(s).1))
    decreases |s.input.buffered|
  {
    hide FatesRight, With, FramesOf, On;
    var i := s.input;
    if i.buffered != [] {
      var f, t := i.buffered[0], s.(input := i.(buffered := i.buffered[1..]));
      assert [f] + i.buffered[1..] == i.buffered;
      assert FramesOf(s.log) + All(i) == FramesOf(s.log) + [f] + All(t.input);
      EnqueueKeeps(s, t, f);
      TryRecvKeeps(Enqueue(t, f));
    }
  }

  lemma {:induction false} RpcKeeps(s: State, channel: nat, ids: seq<nat>)
    ensures var (o, t) := Rpc(s, channel, ids);
            Keeps(s, t, if o.Replied? then [o.frame] else []) && (Ordered(s) ==> Ordered(t))
    decreases |All(s.input)|
  {
    hide FatesRight, With, FramesOf, On, All, WaitInner;
    WaitInnerKeeps(s);
    var (o, t) := WaitInner(s);
    if o.Got? {
      if Matches(o.frame, channel, ids) {
        LogOne(t.log, o.frame, Answer, Kept);
        LogOne(t.log, o.frame, Answer, Answer);
      } else {
        EnqueueKeeps(s, t, o.frame);
        RpcKeeps(Enqueue(t, o.frame), channel, ids);
      }
    }
  }

  lemma {:induction false} WaitOnStreamKeeps(s: State, channel: nat)
    requires On(s.queued, channel) == []
    ensures Keeps(s, WaitOnStream(s, channel).1, [])
    decreases |All(s.input)|
  {
    hide FatesRight, With, FramesOf, On, All, WaitInner;
    WaitInnerKeeps(s);
    var (o, t) := WaitInner(s);
    if o.Got? {
      if o.frame.channel == channel {
        DeliverKeeps(s, t, o.frame);
      } else {
        EnqueueKeeps(s, t, o.frame);
        OnOne(s.queued, o.frame, channel);
        WaitOnStreamKeeps(Enqueue(t, o.frame), channel);
      }
    }
  }

  lemma {:induction false} NoneOn(q: seq<Frame>, channel: nat)
    requires forall f :: f in q ==> f.channel != channel
    ensures On(q, channel) == []
    decreases |q|
  {
    if q != [] {
      NoneOn(q[..|q| - 1], channel);
    }
  }

  /** A wait for a channel loses nothing exactly when its first frame is at the head of the queue or not in it. */
  predicate Lossless(s: State, channel: nat) {
    First(s.queued, channel) in {0, |s.queued|}
  }

  lemma WaitOnKeeps(s: State, channel: nat)
    requires Lossless(s, channel)
    ensures Keeps(s, WaitOn(s, channel).1, [])
  {
    var k := First(s.queued, channel);
    if k < |s.queued| {
      HeadOut(s);
    } else {
      NoneOn(s.queued, channel);
      WaitOnStreamKeeps(s, channel);
    }
  }

  // ---------- what every operation returns ----------

  /** The frames that can be read before a receive fails. */
  function Ahead(i: Input): seq<Frame> {
    i.buffered + if i.trouble != 0 then [] else Arriving(i.arrivals)
  }

  function Arriving(arrivals: seq<Recv>): seq<Frame> {
    if arrivals == [] || arrivals[0].Fail? then []
    else arrivals[0].frames + if arrivals[0].status != 0 then [] else Arriving(arrivals[1..])
  }

  /** What ends them. */
  function EndOf(i: Input): int {
    if i.trouble != 0 then i.trouble else EndOfArrivals(i.arrivals)
  }

  function EndOfArrivals(arrivals: seq<Recv>): int {
    if arrivals == [] then CONNECTION_CLOSED
    else if arrivals[0].Fail? || arrivals[0].status != 0 then arrivals[0].status
    else EndOfArrivals(arrivals[1..])
  }

  lemma ReceiveKeepsAhead(i: Input)
    requires i.buffered == [] && i.trouble == 0
    ensures var (o, j) := Receive(i);
            if o.Stopped? then Ahead(i) == [] && o.status == EndOf(i) else Ahead(j) == Ahead(i) && EndOf(j) == EndOf(i)
  {
  }

  lemma {:induction false} NextIsAhead(i: Input)
    ensures var a := Ahead(i);
            var (o, j) := Next(i);
            if a == [] then o == Stopped(EndOf(i))
            else o == Got(a[0]) && Ahead(j) == a[1..] && EndOf(j) == EndOf(i)
    decreases |i.arrivals|
  {
    hide Arriving, EndOfArrivals, All;
    if i.buffered != [] {
      assert i.buffered == [i.buffered[0]] + i.buffered[1..];
    } else if i.trouble == 0 {
      ReceiveKeepsAhead(i);
      var (o, j) := Receive(i);
      if o.Done? {
        NextIsAhead(j);
      }
    }
  }

  function NoHeartbeats(fs: seq<Frame>): seq<Frame> {
    if fs == [] then [] else NoHeartbeats(fs[..|fs| - 1]) + if fs[|fs| - 1].kind == 8 then [] else [fs[|fs| - 1]]
  }

  lemma {:induction false} NoHeartbeatsConcat(a: seq<Frame>, b: seq<Frame>)
    ensures NoHeartbeats(a + b) == NoHeartbeats(a) + NoHeartbeats(b)
    decreases |b|
  {
    if b == [] {
      assert a + b == a;
    } else {
      var n := |b| - 1;
      assert (a + b)[..|a| + n] == a + b[..n];
      NoHeartbeatsConcat(a, b[..n]);
    }
  }

  lemma OneFrame(f: Frame)
    ensures NoHeartbeats([f]) == if f.kind == 8 then [] else [f]
  {
    assert [f][..0] == [];
  }

  /** A frame that a reader takes after some it parks or swallows. */
  ghost predicate FirstThat(a: seq<Frame>, k: nat, p: Frame -> bool) {
    k <= |a| && (forall i :: 0 <= i < k ==> !p(a[i])) && (k < |a| ==> p(a[k]))
  }

  /** What an operation with outcome o leaves when it reads the stream up to frame k and parks what is no heartbeat. */
  ghost predicate TakesUpTo(s: State, o: Outcome, t: State, k: nat) {
    var a := Ahead(s.input);
    && k <= |a| && t.queued == s.queued + NoHeartbeats(a[..k])
    && if k < |a| then Ahead(t.input) == a[k + 1..] && EndOf(t.input) == EndOf(s.input)
       else o == Stopped(EndOf(s.input))
  }

  /** The first n frames have been read, and parked unless they are heartbeats. */
  ghost predicate Consumed(s: State, u: State, n: nat) {
    var a := Ahead(s.input);
    && n <= |a| && Ahead(u.input) == a[n..] && EndOf(u.input) == EndOf(s.input)
    && u.queued == s.queued + NoHeartbeats(a[..n])
  }

  lemma TakesMore(s: State, u: State, n: nat, o: Outcome, t: State, k: nat)
    requires n <= k && Consumed(s, u, n) && TakesUpTo(u, o, t, k - n)
    ensures TakesUpTo(s, o, t, k)
  {
    hide Ahead, EndOf, NoHeartbeats;
    var a := Ahead(s.input);
    assert a[..k] == a[..n] + a[n..][..k - n];
    NoHeartbeatsConcat(a[..n], a[n..][..k - n]);
    if k < |a| {
      assert a[n..][k - n + 1..] == a[k + 1..];
    }
  }

  lemma LaterFirst(a: seq<Frame>, k: nat, n: nat, p: Frame -> bool)
    requires FirstThat(a, k, p) && n <= k
    ensures FirstThat(a[n..], k - n, p) && (k < |a| ==> a[n..][k - n] == a[k])
  {
    assert forall i :: 0 <= i < |a| - n ==> a[n..][i] == a[n + i];
  }

  /** A frame is waited for: the next one that is no heartbeat. */
  lemma {:induction false} WaitInnerAnswers(s: State, k: nat)
    requires FirstThat(Ahead(s.input), k, (f: Frame) => f.kind != 8)
    ensures var a := Ahead(s.input);
            var (o, t) := WaitInner(s);
            TakesUpTo(s, o, t, k) && (k < |a| ==> o == Got(a[k]))
    decreases |All(s.input)|
  {
    hide FramesOf, With, All, Ahead, EndOf, TakesUpTo;
    NextIsAhead(s.input);
    var a := Ahead(s.input);
    var (o, i) := Next(s.input);
    if a != [] && k > 0 {
      var u := Logged(s.(input := i), o.frame, Swallowed);
      assert a[..1] == [a[0]];
      OneFrame(a[0]);
      assert Consumed(s, u, 1);
      LaterFirst(a, k, 1, (f: Frame) => f.kind != 8);
      WaitInnerAnswers(u, k - 1);
      var (o2, t) := WaitInner(u);
      TakesMore(s, u, 1, o2, t, k);
    } else {
      TakesNone(s, o, s.(input := i));
    }
  }

  lemma TakesNone(s: State, o: Outcome, t: State)
    requires t.queued == s.queued
    requires var a := Ahead(s.input);
             if a != [] then Ahead(t.input) == a[1..] && EndOf(t.input) == EndOf(s.input)
             else o == Stopped(EndOf(s.input))
    ensures TakesUpTo(s, o, t, 0)
  {
    assert Ahead(s.input)[..0] == [];
  }

  /** The method number in the first four octets of a method frame. */
  function Number(f: Frame): nat
    requires f.kind == 1
  {
    var a: int, b: int, c: int, d: int := f.payload[0], f.payload[1], f.payload[2], f.payload[3];
    0x100_0000 * a + 0x1_0000 * b + 0x100 * c + d
  }

  /** id stands in the list before its first zero. */
  predicate Listed(id: nat, ids: seq<nat>) {
    exists i :: 0 <= i < |ids| && ids[i] == id && forall j :: 0 <= j <= i ==> ids[j] != 0
  }

  /** An expected method or channel.close on the channel, or connection.close on channel 0. */
  predicate IsReply(f: Frame, channel: nat, ids: seq<nat>) {
    && f.kind == 1
    && (  (f.channel == channel && (Listed(Number(f), ids) || Number(f) == 0x0014_0028))
       || (f.channel == 0 && Number(f) == 0x000A_0032))
  }

  lemma {:induction false} ListMeans(id: nat, ids: seq<nat>)
    ensures InList(id, ids) <==> Listed(id, ids)
  {
    if ids != [] && ids[0] != 0 {
      ListMeans(id, ids[1..]);
      if Listed(id, ids[1..]) {
        var i :| 0 <= i < |ids| - 1 && ids[1..][i] == id && forall j :: 0 <= j <= i ==> ids[1..][j] != 0;
        assert ids[i + 1] == id;
        assert forall j :: 0 < j <= i + 1 ==> ids[j] == ids[1..][j - 1];
      }
      if i :| 0 <= i < |ids| && ids[i] == id && forall j :: 0 <= j <= i ==> ids[j] != 0 {
        assert forall j :: 0 <= j < |ids| - 1 ==> ids[1..][j] == ids[j + 1];
        assert i > 0 ==> ids[1..][i - 1] == id;
      }
    }
  }

  lemma MatchMeans(f: Frame, channel: nat, ids: seq<nat>)
    ensures Matches(f, channel, ids) <==> IsReply(f, channel, ids)
    ensures f.kind == 1 ==> (Expects(ids, f) <==> Listed(Number(f), ids))
  {
    hide InList, Listed;
    if f.kind == 1 {
      FromFour(f.payload[..4]);
      ListMeans(Number(f), ids);
    }
  }

  /**
    A synchronous call returns the first reply there is, as normal exactly when it is expected, and parks everything
    before it but heartbeats, in order; without a reply it parks all that can be read and ends as the stream does.
   */
  lemma {:induction false} RpcAnswers(s: State, channel: nat, ids: seq<nat>, k: nat)
    requires FirstThat(Ahead(s.input), k, (f: Frame) => IsReply(f, channel, ids))
    ensures var a := Ahead(s.input);
            var (o, t) := Rpc(s, channel, ids);
            && TakesUpTo(s, o, t, k) && t.delivered == s.delivered
            && (k < |a| ==> o == Replied(a[k], Listed(Number(a[k]), ids)))
    decreases |All(s.input)|
  {
    hide FramesOf, With, All, Ahead, EndOf, Matches, Expects, Number, Listed, TakesUpTo, NoHeartbeats, Consumed;
    var a := Ahead(s.input);
    var h := Beats(a);
    WaitInnerAnswers(s, h);
    NotReply(a, h, k, channel, ids);
    var (o, t) := WaitInner(s);
    if h < |a| {
      MatchMeans(a[h], channel, ids);
      if h < k {
        var u := Enqueue(t, a[h]);
        NextParked(s, o, t, h);
        LaterFirst(a, k, h + 1, (f: Frame) => IsReply(f, channel, ids));
        assert Ahead(u.input) == a[h + 1..] by { ConsumedAhead(s, u, h + 1); }
        RpcAnswers(u, channel, ids, k - h - 1);
        var (o2, t2) := Rpc(u, channel, ids);
        TakesMore(s, u, h + 1, o2, t2, k);
      } else {
        SameButLog(s, o, t, Replied(a[h], Listed(Number(a[h]), ids)), Logged(t, a[h], Answer), k);
      }
    } else {
      AllTaken(s, o, t, h);
    }
  }

  /** The same after sending the request; if that fails, nothing is read. */
  lemma CallAnswers(s: State, sent: int, channel: nat, ids: seq<nat>, k: nat)
    requires FirstThat(Ahead(s.input), k, (f: Frame) => IsReply(f, channel, ids))
    ensures var a := Ahead(s.input);
            var (o, t) := Call(s, sent, channel, ids);
            if sent < 0 then o == Stopped(sent) && t == s
            else
              && TakesUpTo(s, o, t, k) && t.delivered == s.delivered
              && (k < |a| ==> o == Replied(a[k], Listed(Number(a[k]), ids)))
  {
    RpcAnswers(s, channel, ids, k);
  }

  predicate IsOn(f: Frame, channel: nat) {
    f.kind != 8 && f.channel == channel
  }

  /** A wait for a channel returns its first parked frame, or else its first in the stream, and parks the others. */
  lemma WaitOnAnswers(s: State, channel: nat, q: nat, k: nat)
    requires FirstThat(s.queued, q, (f: Frame) => f.channel == channel)
    requires FirstThat(Ahead(s.input), k, (f: Frame) => IsOn(f, channel))
    ensures var a := Ahead(s.input);
            var (o, t) := WaitOn(s, channel);
            if q < |s.queued| then
              o == Got(s.queued[q]) && t == s.(queued := s.queued[q + 1..], delivered := s.delivered + [s.queued[q]])
            else
              && TakesUpTo(s, o, t, k)
              && (k < |a| ==> o == Got(a[k]) && t.delivered == s.delivered + [a[k]])
              && (k == |a| ==> t.delivered == s.delivered)
  {
    hide WaitOnStream, Ahead, TakesUpTo;
    assert q == First(s.queued, channel);
    if q == |s.queued| {
      StreamAnswers(s, channel, k);
    }
  }

  lemma {:induction false} StreamAnswers(s: State, channel: nat, k: nat)
    requires FirstThat(Ahead(s.input), k, (f: Frame) => IsOn(f, channel))
    ensures var a := Ahead(s.input);
            var (o, t) := WaitOnStream(s, channel);
            && TakesUpTo(s, o, t, k)
            && (k < |a| ==> o == Got(a[k]) && t.delivered == s.delivered + [a[k]])
            && (k == |a| ==> t.delivered == s.delivered)
    decreases |All(s.input)|
  {
    hide FramesOf, With, All, Ahead, EndOf, TakesUpTo, NoHeartbeats, Consumed;
    var a := Ahead(s.input);
    var h := Beats(a);
    WaitInnerAnswers(s, h);
    var (o, t) := WaitInner(s);
    if h < |a| {
      if h < k {
        var u := Enqueue(t, a[h]);
        NextParked(s, o, t, h);
        LaterFirst(a, k, h + 1, (f: Frame) => IsOn(f, channel));
        assert Ahead(u.input) == a[h + 1..] by { ConsumedAhead(s, u, h + 1); }
        StreamAnswers(u, channel, k - h - 1);
        var (o2, t2) := WaitOnStream(u, channel);
        TakesMore(s, u, h + 1, o2, t2, k);
      } else {
        SameButLog(s, o, t, o, Deliver(t, a[h]), k);
      }
    } else {
      AllTaken(s, o, t, h);
    }
  }

  /** A plain wait returns the first parked frame, or else the next one that is no heartbeat. */
  lemma WaitAnswers(s: State, k: nat)
    requires FirstThat(Ahead(s.input), k, (f: Frame) => f.kind != 8)
    ensures var a := Ahead(s.input);
            var (o, t) := Wait(s);
            if s.queued != [] then
              o == Got(s.queued[0]) && t == s.(queued := s.queued[1..], delivered := s.delivered + [s.queued[0]])
            else
              && TakesUpTo(s, o, t, k)
              && (k < |a| ==> o == Got(a[k]) && t.delivered == s.delivered + [a[k]])
              && (k == |a| ==> t.delivered == s.delivered)
  {
    hide Ahead, EndOf, NoHeartbeats;
    WaitInnerAnswers(s, k);
  }

  /** Everything buffered is parked, heartbeats too, and the next receive fills the buffer or fails. */
  lemma {:induction false} TryRecvAnswers(s: State)
    ensures var i := s.input;
            var (o, t) := TryRecv(s);
            && t.queued == s.queued + i.buffered && t.delivered == s.delivered
            && if i.trouble != 0 then o == Stopped(i.trouble) && t.input == Input([], i.trouble, i.arrivals)
               else if i.arrivals == [] then o == Stopped(-7) && t.input == Input([], 0, [])
               else
                 match i.arrivals[0]
                 case Fail(status) => o == Stopped(status) && t.input == Input([], 0, i.arrivals[1..])
                 case Data(frames, status) => o == Done && t.input == Input(frames, status, i.arrivals[1..])
    decreases |s.input.buffered|
  {
    var i := s.input;
    if i.buffered != [] {
      var t := Enqueue(s.(input := i.(buffered := i.buffered[1..])), i.buffered[0]);
      assert [i.buffered[0]] + i.buffered[1..] == i.buffered;
      assert s.queued + [i.buffered[0]] + i.buffered[1..] == s.queued + i.buffered;
      TryRecvAnswers(t);
    }
  }

  lemma ConsumedAhead(s: State, u: State, n: nat)
    requires Consumed(s, u, n)
    ensures n <= |Ahead(s.input)| && Ahead(u.input) == Ahead(s.input)[n..]
  {
  }

  /** The frame waited for is parked. */
  lemma NextParked(s: State, o: Outcome, t: State, h: nat)
    requires TakesUpTo(s, o, t, h) && h == Beats(Ahead(s.input)) < |Ahead(s.input)|
    ensures Consumed(s, Enqueue(t, Ahead(s.input)[h]), h + 1)
  {
    hide Ahead, EndOf, NoHeartbeats;
    var a := Ahead(s.input);
    assert a[..h + 1] == a[..h] + [a[h]];
    NoHeartbeatsConcat(a[..h], [a[h]]);
    OneFrame(a[h]);
  }

  lemma SameButLog(s: State, o: Outcome, t: State, o2: Outcome, t2: State, k: nat)
    requires TakesUpTo(s, o, t, k) && k < |Ahead(s.input)| && t2.queued == t.queued && t2.input == t.input
    ensures TakesUpTo(s, o2, t2, k)
  {
  }

  lemma AllTaken(s: State, o: Outcome, t: State, n: nat)
    requires TakesUpTo(s, o, t, n) && n >= |Ahead(s.input)|
    ensures n == |Ahead(s.input)| && o == Stopped(EndOf(s.input))
  {
  }

  /** How many heartbeats come first. */
  function Beats(a: seq<Frame>): (h: nat)
    ensures FirstThat(a, h, (f: Frame) => f.kind != 8)
  {
    if a == [] || a[0].kind != 8 then 0 else
    var h := 1 + Beats(a[1..]);
    assert forall i :: 0 < i < |a| ==> a[i] == a[1..][i - 1];
    h
  }

  /** Heartbeats are no replies. */
  lemma NotReply(a: seq<Frame>, h: nat, k: nat, channel: nat, ids: seq<nat>)
    requires h == Beats(a) && FirstThat(a, k, (f: Frame) => IsReply(f, channel, ids))
    ensures h <= k
  {
  }

  // ---------- what is lost or added ----------

  /** The parked frames an operation takes off the queue without handing them out. */
  function Skipped(s: State, op: Op): seq<Frame> {
    if op.DoWaitOn? && First(s.queued, op.channel) < |s.queued| then s.queued[..First(s.queued, op.channel)] else []
  }

  /** A frame put back that is not the one handed out last. */
  function Extra(s: State, op: Op): seq<Frame> {
    if op.DoPutBack? && !HandedOutLast(s, op.frame) then [op.frame] else []
  }

  /** What was kept or added has been handed out, is parked or is lost. */
  ghost predicate Balanced(s: State, lost: multiset<Frame>, added: multiset<Frame>) {
    multiset(With(s.log, Kept)) + added == multiset(s.delivered) + multiset(s.queued) + lost
  }

  lemma BothSides(a: multiset<Frame>, b: multiset<Frame>, c: multiset<Frame>, d: multiset<Frame>, e: multiset<Frame>,
                  m: multiset<Frame>)
    requires a + b == c + d + e
    ensures (a + m) + b == (c + m) + d + e && (a + m) + b == c + (d + m) + e
  {
    assert (a + m) + b == (c + d + e) + m;
  }

  lemma TakenBalances(s: State, t: State, f: Frame, lost: multiset<Frame>, added: multiset<Frame>)
    requires Balanced(s, lost, added) && t.queued == s.queued && t.delivered == s.delivered
    requires With(t.log, Kept) == With(s.log, Kept)
    ensures Balanced(t, lost, added) && Balanced(Enqueue(t, f), lost, added) && Balanced(Deliver(t, f), lost, added)
    ensures Balanced(Logged(t, f, Answer), lost, added)
  {
    hide With;
    LogOne(t.log, f, Kept, Kept);
    LogOne(t.log, f, Answer, Kept);
    BothSides(multiset(With(t.log, Kept)), added, multiset(t.delivered), multiset(t.queued), lost, multiset([f]));
    assert multiset(With(t.log, Kept) + [f]) == multiset(With(t.log, Kept)) + multiset([f]);
    assert multiset(t.queued + [f]) == multiset(t.queued) + multiset([f]);
    assert multiset(t.delivered + [f]) == multiset(t.delivered) + multiset([f]);
  }

  lemma WaitInnerBalances(s: State, lost: multiset<Frame>, added: multiset<Frame>)
    requires Balanced(s, lost, added)
    ensures var (o, t) := WaitInner(s);
            && Balanced(t, lost, added)
            && (o.Got? ==> Balanced(Enqueue(t, o.frame), lost, added) && Balanced(Deliver(t, o.frame), lost, added)
                           && Balanced(Logged(t, o.frame, Answer), lost, added))
  {
    hide With, WaitInner;
    WaitInnerKeeps(s);
    var (o, t) := WaitInner(s);
    if o.Got? {
      TakenBalances(s, t, o.frame, lost, added);
    }
  }

  lemma HeadBalances(s: State, lost: multiset<Frame>, added: multiset<Frame>)
    requires Balanced(s, lost, added) && s.queued != []
    ensures Balanced(Wait(s).1, lost, added)
  {
    assert s.queued == [s.queued[0]] + s.queued[1..];
  }

  lemma WaitBalances(s: State, lost: multiset<Frame>, added: multiset<Frame>)
    requires Balanced(s, lost, added)
    ensures Balanced(Wait(s).1, lost, added)
  {
    hide WaitInner, Balanced;
    if s.queued != [] {
      HeadBalances(s, lost, added);
    } else {
      WaitInnerBalances(s, lost, added);
    }
  }

  lemma {:induction false} TryRecvBalances(s: State, lost: multiset<Frame>, added: multiset<Frame>)
    requires Balanced(s, lost, added)
    ensures Balanced(TryRecv(s).1, lost, added)
    decreases |s.input.buffered|
  {
    var i := s.input;
    if i.buffered != [] {
      var t := s.(input := i.(buffered := i.buffered[1..]));
      TakenBalances(s, t, i.buffered[0], lost, added);
      TryRecvBalances(Enqueue(t, i.buffered[0]), lost, added);
    }
  }

  lemma {:induction false} RpcBalances(s: State, channel: nat, ids: seq<nat>, lost: multiset<Frame>,
                                       added: multiset<Frame>)
    requires Balanced(s, lost, added)
    ensures Balanced(Rpc(s, channel, ids).1, lost, added)
    decreases |All(s.input)|
  {
    hide Balanced;
    WaitInnerBalances(s, lost, added);
    var (o, t) := WaitInner(s);
    if o.Got? && !Matches(o.frame, channel, ids) {
      RpcBalances(Enqueue(t, o.frame), channel, ids, lost, added);
    }
  }

  lemma {:induction false} WaitOnStreamBalances(s: State, channel: nat, lost: multiset<Frame>, added: multiset<Frame>)
    requires Balanced(s, lost, added)
    ensures Balanced(WaitOnStream(s, channel).1, lost, added)
    decreases |All(s.input)|
  {
    hide Balanced;
    WaitInnerBalances(s, lost, added);
    var (o, t) := WaitInner(s);
    if o.Got? && o.frame.channel != channel {
      WaitOnStreamBalances(Enqueue(t, o.frame), channel, lost, added);
    }
  }

  /**
    Waiting for a channel loses nothing if and only if its first parked frame is at the head of the queue or there is
    none; otherwise it loses exactly the frames before that one, which leaves a gap on their channels.
   */
  lemma WaitOnLoses(s: State, channel: nat, lost: multiset<Frame>, added: multiset<Frame>)
    requires Balanced(s, lost, added)
    ensures var t, skipped := WaitOn(s, channel).1, Skipped(s, DoWaitOn(channel));
            && Balanced(t, lost + multiset(skipped), added)
            && (Balanced(t, lost, added) <==> Lossless(s, channel))
            && (!Lossless(s, channel) ==>
                forall c :: OrderedOn(s, c) ==>
                  On(With(t.log, Kept), c) ==
                  On(s.delivered, c) + On(skipped, c) + On(t.delivered[|s.delivered|..], c) + On(t.queued, c))
  {
    hide With, Balanced, WaitOnStream;
    var k := First(s.queued, channel);
    if k < |s.queued| {
      SkippedAreLost(s, channel, lost, added);
      forall c | OrderedOn(s, c) {
        SkippedOn(s, channel, c);
      }
    } else {
      WaitOnStreamBalances(s, channel, lost, added);
      assert lost + multiset([]) == lost;
    }
  }

  lemma SkippedAreLost(s: State, channel: nat, lost: multiset<Frame>, added: multiset<Frame>)
    requires Balanced(s, lost, added) && First(s.queued, channel) < |s.queued|
    ensures var t, skipped := WaitOn(s, channel).1, Skipped(s, DoWaitOn(channel));
            Balanced(t, lost + multiset(skipped), added) && (Balanced(t, lost, added) <==> skipped == [])
  {
    hide With;
    var k, t := First(s.queued, channel), WaitOn(s, channel).1;
    var skipped, f := s.queued[..k], s.queued[k];
    assert s.queued == skipped + [f] + t.queued;
    assert multiset(s.queued) == multiset(skipped) + multiset{f} + multiset(t.queued);
    assert multiset(t.delivered) == multiset(s.delivered) + multiset{f};
    Differ(multiset(t.delivered) + multiset(t.queued) + lost, multiset(skipped));
    assert multiset(t.delivered) + multiset(t.queued) + (lost + multiset(skipped))
        == multiset(t.delivered) + multiset(t.queued) + lost + multiset(skipped);
  }

  lemma Differ(a: multiset<Frame>, b: multiset<Frame>)
    ensures a + b == a <==> |b| == 0
  {
    assert |a + b| == |a| + |b|;
    if |b| == 0 {
      assert b == multiset{};
    }
  }

  lemma SkippedOn(s: State, channel: nat, c: nat)
    requires First(s.queued, channel) < |s.queued| && OrderedOn(s, c)
    ensures var t, skipped := WaitOn(s, channel).1, Skipped(s, DoWaitOn(channel));
            On(With(t.log, Kept), c) ==
            On(s.delivered, c) + On(skipped, c) + On(t.delivered[|s.delivered|..], c) + On(t.queued, c)
  {
    hide On, With;
    var k, t := First(s.queued, channel), WaitOn(s, channel).1;
    var skipped, f := s.queued[..k], s.queued[k];
    assert s.queued == skipped + [f] + t.queued;
    assert t.delivered[|s.delivered|..] == [f];
    OnConcat(skipped, [f], c);
    OnConcat(skipped + [f], t.queued, c);
  }

  /** Putting back the frame handed out last, and no other, adds nothing. */
  lemma PutBackAdds(s: State, f: Frame, lost: multiset<Frame>, added: multiset<Frame>)
    requires Balanced(s, lost, added)
    ensures var t := PutBack(s, f);
            && Balanced(t, lost, added + multiset(Extra(s, DoPutBack(f))))
            && (Balanced(t, lost, added) <==> HandedOutLast(s, f))
  {
    hide With;
    if HandedOutLast(s, f) {
      assert s.delivered == s.delivered[..|s.delivered| - 1] + [f];
      assert added + multiset([]) == added;
    } else {
      Differ(multiset(With(s.log, Kept)) + added, multiset([f]));
      assert multiset([f] + s.queued) == multiset([f]) + multiset(s.queued);
      assert multiset(With(s.log, Kept)) + (added + multiset([f])) ==
             multiset(With(s.log, Kept)) + added + multiset([f]);
    }
  }

  // ---------- over whole runs ----------

  /** A wait for a channel skips no parked frames, and only the frame handed out last is put back. */
  predicate Careful(s: State, op: Op) {
    (op.DoWaitOn? ==> Lossless(s, op.channel)) && (op.DoPutBack? ==> HandedOutLast(s, op.frame))
  }

  predicate CarefulRun(s: State, ops: seq<Op>)
    decreases |ops|
  {
    ops == [] || (Careful(s, ops[0]) && CarefulRun(Do(s, ops[0]), ops[1..]))
  }

  /** The reply an operation returns, if it is a synchronous call that gets one. */
  function AnswerOf(s: State, op: Op): seq<Frame> {
    if !op.DoRpc? then [] else
    var (o, _) := Call(s, op.sent, op.channel, op.ids);
    if o.Replied? then [o.frame] else []
  }

  /** The replies a run returns. */
  function Answers(s: State, ops: seq<Op>): seq<Frame>
    decreases |ops|
  {
    if ops == [] then [] else AnswerOf(s, ops[0]) + Answers(Do(s, ops[0]), ops[1..])
  }

  lemma DoKeeps(s: State, op: Op)
    requires Careful(s, op)
    ensures Keeps(s, Do(s, op), AnswerOf(s, op))
    ensures !op.DoWaitOn? && Ordered(s) ==> Ordered(Do(s, op))
  {
    match op {
      case DoWait => WaitKeeps(s);
      case DoPutBack(f) => PutBackKeeps(s, f);
      case DoTryRecv => TryRecvKeeps(s);
      case DoRpc(sent, channel, ids) =>
        if sent < 0 {
          KeepsItself(s);
        } else {
          RpcKeeps(s, channel, ids);
        }
      case DoWaitOn(channel) => WaitOnKeeps(s, channel);
    }
  }

  /**
    Over every careful run each frame taken from the stream
    is swallowed as a heartbeat, returned as a reply, handed out or parked, and on each channel those
    handed out and then those parked are in order of arrival.
   */
  lemma {:induction false} RunKeeps(s: State, ops: seq<Op>)
    requires CarefulRun(s, ops)
    ensures Keeps(s, Run(s, ops), Answers(s, ops))
    decreases |ops|
  {
    hide Keeps, Do;
    if ops == [] {
      KeepsItself(s);
    } else {
      DoKeeps(s, ops[0]);
      RunKeeps(Do(s, ops[0]), ops[1..]);
      KeepsChain(s, Do(s, ops[0]), Run(s, ops), AnswerOf(s, ops[0]), Answers(Do(s, ops[0]), ops[1..]));
    }
  }

  lemma KeepsItself(s: State)
    ensures Keeps(s, s, [])
  {
  }

  lemma KeepsChain(s: State, t: State, u: State, a: seq<Frame>, b: seq<Frame>)
    requires Keeps(s, t, a) && Keeps(t, u, b)
    ensures Keeps(s, u, a + b)
  {
    hide FatesRight, With, FramesOf, On, All, OrderedOn, Whole;
  }

  // ---------- every run ----------

  function Skips(s: State, ops: seq<Op>): seq<Frame>
    decreases |ops|
  {
    if ops == [] then [] else Skipped(s, ops[0]) + Skips(Do(s, ops[0]), ops[1..])
  }

  function Extras(s: State, ops: seq<Op>): seq<Frame>
    decreases |ops|
  {
    if ops == [] then [] else Extra(s, ops[0]) + Extras(Do(s, ops[0]), ops[1..])
  }

  lemma DoBalances(s: State, op: Op, lost: multiset<Frame>, added: multiset<Frame>)
    requires Balanced(s, lost, added)
    ensures Balanced(Do(s, op), lost + multiset(Skipped(s, op)), added + multiset(Extra(s, op)))
    ensures Careful(s, op) <==> Skipped(s, op) == [] && Extra(s, op) == []
  {
    hide Balanced, WaitOn, Wait, TryRecv, Rpc, PutBack;
    assert lost + multiset([]) == lost && added + multiset([]) == added;
    match op {
      case DoWait => WaitBalances(s, lost, added);
      case DoPutBack(f) => PutBackAdds(s, f, lost, added);
      case DoTryRecv => TryRecvBalances(s, lost, added);
      case DoRpc(sent, channel, ids) =>
        if sent >= 0 {
          RpcBalances(s, channel, ids, lost, added);
        }
      case DoWaitOn(channel) => WaitOnLoses(s, channel, lost, added);
    }
  }

  /**
    Over every run at all, careful or not, the frames lost are exactly those that waits for a channel skip, and
    those added are the frames put back that were not handed out last; a run is careful if and only if there are none
    of either.
   */
  lemma {:induction false} RunBalances(s: State, ops: seq<Op>, lost: multiset<Frame>, added: multiset<Frame>)
    requires Balanced(s, lost, added)
    ensures Balanced(Run(s, ops), lost + multiset(Skips(s, ops)), added + multiset(Extras(s, ops)))
    ensures CarefulRun(s, ops) <==> Skips(s, ops) == [] && Extras(s, ops) == []
    decreases |ops|
  {
    hide Balanced, Do, Careful, Skipped, Extra;
    if ops == [] {
      assert lost + multiset([]) == lost && added + multiset([]) == added;
    } else {
      var more, extra := multiset(Skipped(s, ops[0])), multiset(Extra(s, ops[0]));
      DoBalances(s, ops[0], lost, added);
      RunBalances(Do(s, ops[0]), ops[1..], lost + more, added + extra);
      assert lost + multiset(Skips(s, ops)) == lost + more + multiset(Skips(Do(s, ops[0]), ops[1..]));
      assert added + multiset(Extras(s, ops)) == added + extra + multiset(Extras(Do(s, ops[0]), ops[1..]));
    }
  }

  /**
    If only frames handed out last are put back, every frame kept since the start has been handed out or is
    parked if and only if no wait for a channel has skipped any.
   */
  lemma NothingLostIff(input: Input, ops: seq<Op>)
    requires Extras(State(input, [], [], []), ops) == []
    ensures var s := State(input, [], [], []);
            var t := Run(s, ops);
            multiset(With(t.log, Kept)) == multiset(t.delivered) + multiset(t.queued) <==> CarefulRun(s, ops)
  {
    hide With, Run, Extras, CarefulRun;
    var s := State(input, [], [], []);
    assert Balanced(s, multiset{}, multiset{}) by { NothingYet(input); }
    RunBalances(s, ops, multiset{}, multiset{});
    var t := Run(s, ops);
    var lost := multiset(Skips(s, ops));
    var none: multiset<Frame> := multiset{};
    assert none + multiset([]) == none && none + lost == lost;
    assert multiset(With(t.log, Kept)) == multiset(t.delivered) + multiset(t.queued) + lost;
    Differ(multiset(t.delivered) + multiset(t.queued), lost);
  }

  lemma NothingYet(input: Input)
    ensures Balanced(State(input, [], [], []), multiset{}, multiset{})
  {
  }

  /** The same for a connection that starts with nothing parked, spelled out. */
  lemma FromTheStart(input: Input, ops: seq<Op>, channel: nat)
    requires CarefulRun(State(input, [], [], []), ops)
    ensures var t := Run(State(input, [], [], []), ops);
            && FramesOf(t.log) + All(t.input) == All(input)
            && FatesRight(t.log)
            && With(t.log, Answer) == Answers(State(input, [], [], []), ops)
            && On(t.delivered, channel) + On(t.queued, channel) == On(With(t.log, Kept), channel)
  {
    var s := State(input, [], [], []);
    RunKeeps(s, ops);
    assert OrderedOn(s, channel);
    assert [] + Answers(s, ops) == Answers(s, ops);
    assert [] + All(input) == All(input);
  }

  /** Without waits for one channel, the order holds across all channels. */
  lemma {:induction false} RunKeepsOrder(s: State, ops: seq<Op>)
    requires Ordered(s) && CarefulRun(s, ops) && forall op :: op in ops ==> !op.DoWaitOn?
    ensures Ordered(Run(s, ops))
    decreases |ops|
  {
    if ops != [] {
      DoKeeps(s, ops[0]);
      RunKeepsOrder(Do(s, ops[0]), ops[1..]);
    }
  }

  /** Putting a frame back undoes the wait: the next wait returns the same frame and ends in the same state. */
  lemma PutBackUndoesWait(s: State)
    requires Wait(s).0.Got?
    ensures var (o, t) := Wait(s); Wait(PutBack(t, o.frame)) == Wait(s) && (s.queued != [] ==> PutBack(t, o.frame) == s)
  {
    var (o, t) := Wait(s);
    var u := PutBack(t, o.frame);
    assert t.delivered == s.delivered + [o.frame] && u.delivered == s.delivered;
    assert u.queued == [o.frame] + t.queued && u.queued[1..] == t.queued;
    if s.queued != [] {
      assert [s.queued[0]] + s.queued[1..] == s.queued;
    }
  }

  // ---------- the linked queue ----------

  class Link {
    var next: Link?
    const frame: Frame

    constructor (frame: Frame)
      ensures this.frame == frame && next == null
    {
      this.frame := frame;
      next := null;
    }
  }

  ghost function At(q: seq<Link>, i: int): Link? {
    if 0 <= i < |q| then q[i] else null
  }

  ghost predicate Linked(q: seq<Link>)
    reads q
  {
    && (forall i, j :: 0 <= i < j < |q| ==> q[i] != q[j])
    && (forall i {:trigger q[i].next} :: 0 <= i < |q| ==> q[i].next == At(q, i + 1))
  }

  function Frames(q: seq<Link>): (r: seq<Frame>)
    ensures |r| == |q| && forall i :: 0 <= i < |q| ==> r[i] == q[i].frame
  {
    seq(|q|, i requires 0 <= i < |q| => q[i].frame)
  }

  ghost function Objects(q: seq<Link>): set<object> {
    set l | l in q
  }

  lemma Prepended(link: Link, q: seq<Link>)
    requires Linked(q) && link !in q && link.next == At(q, 0)
    ensures Linked([link] + q) && At([link] + q, |q|) == if q == [] then link else At(q, |q| - 1)
  {
    var r := [link] + q;
    assert forall i :: 0 < i < |r| ==> r[i] == q[i - 1];
    forall i | 0 <= i < |r| ensures r[i].next == At(r, i + 1) {
      assert At(r, i + 1) == At(q, i);
    }
  }

  lemma PrependedFrames(link: Link, q: seq<Link>)
    ensures Frames([link] + q) == [link.frame] + Frames(q)
  {
  }

  lemma FramesFrom(q: seq<Link>, k: nat)
    requires k <= |q|
    ensures Frames(q[k..]) == Frames(q)[k..]
  {
  }

  /** What follows a link. */
  lemma LinkedAfter(q: seq<Link>, k: nat)
    requires Linked(q) && k < |q|
    ensures Linked(q[k + 1..]) && q[k].next == At(q[k + 1..], 0)
    ensures At(q[k + 1..], |q| - k - 2) == if k + 1 < |q| then At(q, |q| - 1) else null
  {
  }

  /** One frame out of the buffer. */
  lemma WaitInnerTake(s: State)
    requires s.input.buffered != []
    ensures var f, t := s.input.buffered[0], s.(input := s.input.(buffered := s.input.buffered[1..]));
            WaitInner(s) == if f.kind == FRAME_HEARTBEAT then WaitInner(Logged(t, f, Swallowed)) else (Got(f), t)
  {
  }

  /** One receive. */
  lemma WaitInnerReceive(s: State)
    requires s.input.buffered == []
    ensures s.input.trouble != 0 ==> WaitInner(s) == (Stopped(s.input.trouble), s)
    ensures s.input.trouble == 0 ==>
            var (o, i) := Receive(s.input);
            WaitInner(s) == if o.Stopped? then (o, s.(input := i)) else WaitInner(s.(input := i))
  {
  }

  lemma TryRecvStep(s: State)
    ensures TryRecv(s) ==
            if s.input.buffered != [] then
              TryRecv(Enqueue(s.(input := s.input.(buffered := s.input.buffered[1..])), s.input.buffered[0]))
            else if s.input.trouble != 0 then (Stopped(s.input.trouble), s)
            else (Receive(s.input).0, s.(input := Receive(s.input).1))
  {
  }

  lemma RpcStep(s: State, channel: nat, ids: seq<nat>)
    ensures var (o, t) := WaitInner(s);
            Rpc(s, channel, ids) ==
            if !o.Got? then (o, t)
            else if Matches(o.frame, channel, ids) then
              (Replied(o.frame, Expects(ids, o.frame)), Logged(t, o.frame, Answer))
            else Rpc(Enqueue(t, o.frame), channel, ids)
  {
  }

  lemma WaitOnStreamStep(s: State, channel: nat)
    ensures var (o, t) := WaitInner(s);
            WaitOnStream(s, channel) ==
            if !o.Got? then (o, t)
            else if o.frame.channel == channel then (o, Deliver(t, o.frame))
            else WaitOnStream(Enqueue(t, o.frame), channel)
  {
  }

  lemma RunStep(s: State, ops: seq<Op>)
    ensures Run(s, ops) == if ops == [] then s else Run(Do(s, ops[0]), ops[1..])
  {
  }

  /** Looks for a method in the list of expected replies. */
  method IdInReplyList(id: nat, ids: seq<nat>) returns (found: bool)
    ensures found <==> InList(id, ids)
  {
    var i := 0;
    assert ids[0..] == ids;
    while i < |ids| && ids[i] != 0
      invariant i <= |ids| && (InList(id, ids) <==> InList(id, ids[i..]))
    {
      assert ids[i..][0] == ids[i] && ids[i..][1..] == ids[i + 1..];
      if ids[i] == id {
        return true;
      }
      i := i + 1;
    }
    found := false;
  }

  class Inbox {
    var buffered: seq<Frame>
    var trouble: int
    var arrivals: seq<Recv>
    var first: Link?
    var last: Link?

    ghost var q: seq<Link>
    ghost var delivered: seq<Frame>
    ghost var log: seq<Fated>

    /** first and last are the ends of the list, both null when it is empty. */
    ghost predicate Valid()
      reads this, q
    {
      Linked(q) && first == At(q, 0) && last == At(q, |q| - 1)
    }

    ghost function Now(): State
      reads this
    {
      State(Input(buffered, trouble, arrivals), Frames(q), delivered, log)
    }

    constructor (arrivals: seq<Recv>)
      ensures Valid() && Now() == State(Input([], 0, arrivals), [], [], [])
    {
      buffered, trouble, this.arrivals := [], 0, arrivals;
      first, last := null, null;
      q, delivered, log := [], [], [];
    }

    /** Receives into the empty buffer. */
    method RecvWithTimeout() returns (o: Outcome)
      requires buffered == [] && trouble == 0
      modifies `buffered, `trouble, `arrivals
      ensures (o, Now().input) == Receive(old(Now().input)) && (o.Done? ==> |arrivals| < |old(arrivals)|)
    {
      if arrivals == [] {
        return Stopped(CONNECTION_CLOSED);
      }
      var a := arrivals[0];
      arrivals := arrivals[1..];
      match a {
        case Fail(status) =>
          o := Stopped(status);
        case Data(frames, status) =>
          buffered := frames;
          trouble := status;
          o := Done;
      }
    }

    /** Reads frames from the buffer until one is not a heartbeat. */
    method TakeBuffered() returns (o: Outcome)
      modifies `buffered, `log
      ensures if o.Got? then (o, Now()) == WaitInner(old(Now()))
              else o.Done? && buffered == [] && WaitInner(Now()) == WaitInner(old(Now()))
    {
      hide WaitInner, All;
      ghost var s := Now();
      while buffered != []
        invariant WaitInner(Now()) == WaitInner(s)
        decreases |buffered|
      {
        WaitInnerTake(Now());
        var f := buffered[0];
        buffered := buffered[1..];
        if f.kind != FRAME_HEARTBEAT {
          return Got(f);
        }
        log := log + [Fated(f, Swallowed)];
      }
      o := Done;
    }

    /** Reads frames until one is not a heartbeat, receiving when the buffer is used up. */
    method WaitFrameInner() returns (o: Outcome)
      modifies `buffered, `trouble, `arrivals, `log
      ensures (o, Now()) == WaitInner(old(Now()))
    {
      hide WaitInner, All, Receive;
      ghost var s := Now();
      while true
        invariant WaitInner(Now()) == WaitInner(s)
        decreases |arrivals|
      {
        o := TakeBuffered();
        if o.Got? {
          return;
        }
        WaitInnerReceive(Now());
        if trouble != 0 {
          return Stopped(trouble);
        }
        o := RecvWithTimeout();
        if o.Stopped? {
          return;
        }
      }
    }

    /** Adds a frame at the end of the queue. */
    method QueueFrame(f: Frame)
      requires Valid()
      modifies `first, `last, `q, `log, Objects(q)
      ensures Valid() && Now() == Enqueue(old(Now()), f) && fresh(Objects(q) - Objects(old(q)))
    {
      var link := new Link(f);
      if first == null {
        first := link;
      } else {
        last.next := link;
      }
      last := link;
      q := q + [link];
      log := log + [Fated(f, Kept)];
    }

    /** Puts a frame in front of the queue. */
    method PutBackFrame(f: Frame)
      requires Valid()
      modifies `first, `last, `q, `delivered
      ensures Valid() && Now() == PutBack(old(Now()), f) && fresh(Objects(q) - Objects(old(q)))
    {
      hide Frames, Linked;
      var link := new Link(f);
      if first == null {
        first := link;
        last := link;
      } else {
        link.next := first;
        first := link;
      }
      Prepended(link, q);
      PrependedFrames(link, q);
      q := [link] + q;
      if delivered != [] && delivered[|delivered| - 1] == f {
        delivered := delivered[..|delivered| - 1];
      }
    }

    /** Hands out the first parked frame, or waits for one. */
    method WaitFrame() returns (o: Outcome)
      requires Valid()
      modifies this
      ensures Valid() && (o, Now()) == Wait(old(Now())) && Objects(q) <= Objects(old(q))
    {
      hide WaitInner, All, Frames;
      if first != null {
        var f := first.frame;
        first := first.next;
        if first == null {
          last := null;
        }
        FramesFrom(q, 1);
        q := q[1..];
        delivered := delivered + [f];
        return Got(f);
      }
      o := WaitFrameInner();
      if o.Got? {
        log := log + [Fated(o.frame, Kept)];
        delivered := delivered + [o.frame];
      }
    }

    /** Parks everything in the buffer, then receives once. */
    method TryRecvFrames() returns (o: Outcome)
      requires Valid()
      modifies this, Objects(q)
      ensures Valid() && (o, Now()) == TryRecv(old(Now())) && fresh(Objects(q) - Objects(old(q)))
    {
      hide TryRecv, All, Linked, Frames, Receive;
      ghost var s := Now();
      while buffered != []
        invariant Valid() && TryRecv(Now()) == TryRecv(s)
        invariant fresh(Objects(q) - Objects(old(q)))
        decreases |buffered|
      {
        TryRecvStep(Now());
        var f := buffered[0];
        buffered := buffered[1..];
        QueueFrame(f);
      }
      TryRecvStep(Now());
      if trouble != 0 {
        return Stopped(trouble);
      }
      o := RecvWithTimeout();
    }

    /** Waits for the reply of a synchronous call, parking everything else. */
    method SimpleRpc(sent: int, channel: nat, ids: seq<nat>) returns (o: Outcome)
      requires Valid()
      modifies this, Objects(q)
      ensures Valid() && (o, Now()) == Call(old(Now()), sent, channel, ids) && fresh(Objects(q) - Objects(old(q)))
    {
      hide Rpc, WaitInner, All, Linked, Frames, InList;
      ghost var s := Now();
      if sent < 0 {
        return Stopped(sent);
      }
      while true
        invariant Valid() && Rpc(Now(), channel, ids) == Rpc(s, channel, ids)
        invariant fresh(Objects(q) - Objects(old(q)))
        decreases |All(Now().input)|
      {
        RpcStep(Now(), channel, ids);
        o := WaitFrameInner();
        if !o.Got? {
          return;
        }
        if Matches(o.frame, channel, ids) {
          log := log + [Fated(o.frame, Answer)];
          var normal := IdInReplyList(MethodId(o.frame), ids);
          return Replied(o.frame, normal);
        }
        QueueFrame(o.frame);
      }
    }

    /** Walks the queue to the first frame on channel. */
    method Search(channel: nat) returns (cur: Link?)
      requires Valid()
      ensures cur == At(q, First(Frames(q), channel))
    {
      cur := first;
      ghost var k := 0;
      assert Frames(q)[0..] == Frames(q);
      while cur != null && cur.frame.channel != channel
        invariant k <= |q| && cur == At(q, k)
        invariant First(Frames(q), channel) == k + First(Frames(q)[k..], channel)
        decreases |q| - k
      {
        assert Frames(q)[k..][1..] == Frames(q)[k + 1..];
        cur := cur.next;
        k := k + 1;
      }
    }

    /** Looks for a frame on channel in the queue, dropping what is before it, and else in the stream. */
    method WaitFrameOnChannel(channel: nat) returns (o: Outcome)
      requires Valid()
      modifies this, Objects(q)
      ensures Valid() && (o, Now()) == WaitOn(old(Now()), channel) && fresh(Objects(q) - Objects(old(q)))
    {
      hide WaitOnStream, WaitInner, All, First, Frames, Linked;
      var cur := Search(channel);
      ghost var k := First(Frames(q), channel);
      if cur == null {
        o := WaitOnTheStream(channel);
      } else {
        FramesFrom(q, k + 1);
        LinkedAfter(q, k);
        first := cur.next;
        if first == null {
          last := null;
        }
        q := q[k + 1..];
        delivered := delivered + [cur.frame];
        o := Got(cur.frame);
      }
    }

    method WaitOnTheStream(channel: nat) returns (o: Outcome)
      requires Valid()
      modifies this, Objects(q)
      ensures Valid() && (o, Now()) == WaitOnStream(old(Now()), channel) && fresh(Objects(q) - Objects(old(q)))
    {
      hide WaitOnStream, WaitInner, All, Linked, Frames;
      ghost var s := Now();
      while true
        invariant Valid() && WaitOnStream(Now(), channel) == WaitOnStream(s, channel)
        invariant fresh(Objects(q) - Objects(old(q)))
        decreases |All(Now().input)|
      {
        WaitOnStreamStep(Now(), channel);
        o := WaitFrameInner();
        if !o.Got? {
          return;
        }
        if o.frame.channel == channel {
          log := log + [Fated(o.frame, Kept)];
          delivered := delivered + [o.frame];
          return;
        }
        QueueFrame(o.frame);
      }
    }

    /** One operation after the other. */
    method Perform(ops: seq<Op>)
      requires Valid()
      modifies this, Objects(q)
      ensures Valid() && Now() == Run(old(Now()), ops) && fresh(Objects(q) - Objects(old(q)))
    {
      hide Run, Wait, PutBack, TryRecv, Call, WaitOn, Linked, Frames;
      ghost var s := Now();
      assert ops[0..] == ops;
      for i := 0 to |ops|
        invariant Valid() && Run(Now(), ops[i..]) == Run(s, ops)
        invariant fresh(Objects(q) - Objects(old(q)))
      {
        RunStep(Now(), ops[i..]);
        assert ops[i..][0] == ops[i] && ops[i..][1..] == ops[i + 1..];
        match ops[i] {
          case DoWait => var _ := WaitFrame();
          case DoPutBack(f) => PutBackFrame(f);
          case DoTryRecv => var _ := TryRecvFrames();
          case DoRpc(sent, channel, ids) => var _ := SimpleRpc(sent, channel, ids);
          case DoWaitOn(channel) => var _ := WaitFrameOnChannel(channel);
        }
      }
      RunStep(Now(), ops[|ops|..]);
    }
  }
}
