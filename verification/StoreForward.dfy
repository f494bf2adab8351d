/**
  The store-and-forward protocol: events go to the broker while it is reachable and into the bounded
  queue while it is not.  The broker's answers and the clock are arbitrary sequences.
 */
module StoreForward {
  import Fifo
  import opened Sequences

  // ---------- environment and state ----------

  /** ok(k): the broker's k-th answer is a success; clock(k): the k-th reading of the clock, in seconds. */
  datatype Env = Env(ok: nat -> bool, clock: nat -> int)

  datatype Options = Options(maxSize: nat, flush: int, flushInterval: int, waitTime: int, autosync: int, declares: bool)

  /** Answers and clock readings used so far, messages the broker took, and times of connection attempts. */
  datatype World<M> = World(replies: nat, ticks: nat, sent: seq<M>, attempts: seq<int>)

  /** History: every event handed in, and the positions of those published and of those dropped. */
  datatype Log<M> = Log(accepted: seq<M>, published: seq<nat>, dropped: seq<nat>)

  datatype State<M> = State(
    connected: bool, errors: bool, blackout: bool,
    lastConnect: int, lastSync: int, lastFlush: int,
    queue: seq<M>, world: World<M>, log: Log<M>)

  // ---------- specification ----------

  function Reply<M>(env: Env, s: State<M>): bool {
    env.ok(s.world.replies)
  }

  function Answered<M>(s: State<M>): State<M> {
    s.(world := s.world.(replies := s.world.replies + 1))
  }

  function Now<M>(env: Env, s: State<M>): int {
    env.clock(s.world.ticks)
  }

  function Ticked<M>(s: State<M>): State<M> {
    s.(world := s.world.(ticks := s.world.ticks + 1))
  }

  /** One step of connecting, skipped after an error. */
  function Step<M>(env: Env, s: State<M>): State<M> {
    if s.errors then s else Answered(s).(errors := !Reply(env, s))
  }

  function StartConnect<M>(env: Env, s: State<M>): State<M> {
    var t := Now(env, s);
    Ticked(s).(errors := false, lastConnect := t, world := Ticked(s).world.(attempts := s.world.attempts + [t]))
  }

  function Connect<M>(o: Options, env: Env, s: State<M>): State<M> {
    var s1 := Step(env, Step(env, Step(env, StartConnect(env, s))));
    var s2 := if o.declares then Step(env, s1) else s1;
    if s2.errors then s2.(connected := false) else s2.(connected := true, lastFlush := 0)
  }

  function Disconnect<M>(env: Env, s: State<M>): State<M> {
    var s0 := s.(errors := false);
    if !s.connected then s0 else
    var s1 := Answered(s0).(errors := !Reply(env, s0));
    var s2 := Answered(s1).(errors := s1.errors || !Reply(env, s1));
    s2.(connected := false)
  }

  /** Whether the connection is up afterwards is the connected flag, except during a blackout. */
  function Check<M>(o: Options, env: Env, s: State<M>): State<M> {
    if s.blackout || s.connected then s else
    var t := Now(env, s);
    var s1 := Ticked(s);
    if s.lastConnect == 0 || t - s.lastConnect >= o.waitTime then Connect(o, env, s1) else s1
  }

  predicate Up<M>(s: State<M>) {
    !s.blackout && s.connected
  }

  datatype Outcome<M> = Outcome(s: State<M>, ok: bool)

  function Publish<M>(o: Options, env: Env, s: State<M>, m: M): Outcome<M> {
    var s1 := Check(o, env, s);
    if !Up(s1) then Outcome(s1, false) else
    var sent := if Reply(env, s1) then s1.world.sent + [m] else s1.world.sent;
    var s2 := Answered(s1).(errors := s1.errors || !Reply(env, s1), world := Answered(s1).world.(sent := sent));
    if s2.errors then Outcome(Disconnect(env, s2), false) else Outcome(s2, true)
  }

  /** The position, among all accepted events, of the oldest queued one. */
  function FirstQueued<M>(s: State<M>): nat {
    if |s.queue| <= |s.log.accepted| then |s.log.accepted| - |s.queue| else 0
  }

  function DropOldest<M>(s: State<M>): State<M>
    requires s.queue != []
  {
    s.(queue := s.queue[1..], log := s.log.(dropped := s.log.dropped + [FirstQueued(s)]))
  }

  function Push<M>(o: Options, s: State<M>, m: M): State<M> {
    var s1 := if |s.queue| >= o.maxSize && s.queue != [] then DropOldest(s) else s;
    s1.(queue := s1.queue + [m], log := s1.log.(accepted := s1.log.accepted + [m]))
  }

  function PutBack<M>(o: Options, s: State<M>, m: M): State<M> {
    s.(queue := [m] + (if |s.queue| >= o.maxSize && s.queue != [] then s.queue[..|s.queue| - 1] else s.queue))
  }

  /** Sends up to n queued events, oldest first; the first one that cannot be sent goes back. */
  function Flush<M>(o: Options, env: Env, s: State<M>, n: int): State<M>
    decreases n
  {
    if n <= 0 || s.queue == [] then s else
    var r := Publish(o, env, s.(queue := s.queue[1..]), s.queue[0]);
    if r.ok then Flush(o, env, r.s.(log := r.s.log.(published := r.s.log.published + [FirstQueued(s)])), n - 1)
    else PutBack(o, r.s, s.queue[0])
  }

  function FlushCount(o: Options): int {
    if o.flush == -1 then (if o.maxSize / 5 > 1000 then 1000 else o.maxSize / 5) else o.flush
  }

  /** Flushes when connected and the interval has passed, then saves the queue when that interval has. */
  function FifoCheck<M>(o: Options, env: Env, s: State<M>): State<M> {
    var t := Now(env, s);
    var s1 := Ticked(s);
    var s2 := if s1.connected && s1.queue != [] && t - s1.lastFlush >= o.flushInterval
              then Flush(o, env, s1, FlushCount(o)).(lastFlush := t) else s1;
    if t - s2.lastSync >= o.autosync then s2.(lastSync := t) else s2
  }

  function Accept<M>(s: State<M>, m: M): State<M> {
    s.(log := s.log.(accepted := s.log.accepted + [m], published := s.log.published + [|s.log.accepted|]))
  }

  datatype Sent<M> = Sent(s: State<M>, status: int)

  /** 0 when published at once, -1 when publishing failed and it was queued, else the queue's new size. */
  function SendEvent<M>(o: Options, env: Env, s: State<M>, m: M): Sent<M> {
    var s1 := Check(o, env, s);
    var s2 := FifoCheck(o, env, s1);
    if Up(s1) && s2.queue == [] then
      var r := Publish(o, env, s2, m);
      if r.ok then Sent(Accept(r.s, m), 0) else Sent(Push(o, r.s, m), -1)
    else
      var s3 := Push(o, s2, m);
      Sent(s3, |s3.queue|)
  }

  function ToggleBlackout<M>(env: Env, s: State<M>): State<M> {
    if s.blackout then s.(blackout := false) else Disconnect(env, s).(blackout := true)
  }

  // ---------- what every operation keeps ----------

  /** Connected means no pending error and no blackout. */
  predicate Sound<M>(s: State<M>) {
    s.connected ==> !s.errors && !s.blackout
  }

  ghost predicate Increasing(s: seq<nat>, bound: nat) {
    && (forall i, j :: 0 <= i < j < |s| ==> s[i] < s[j])
    && (forall i :: 0 <= i < |s| ==> s[i] < bound)
  }

  /**
    The queue is the tail of what was accepted; every earlier event was either published or dropped,
    never both; and the broker took the published ones in the order in which they were accepted.
   */
  ghost predicate Accounted<M>(s: State<M>) {
    && |s.queue| <= |s.log.accepted|
    && s.queue == s.log.accepted[FirstQueued(s)..]
    && Increasing(s.log.published, FirstQueued(s))
    && Increasing(s.log.dropped, FirstQueued(s))
    && (forall k :: 0 <= k < FirstQueued(s) ==> (k in s.log.published <==> k !in s.log.dropped))
    && |s.world.sent| == |s.log.published|
    && (forall i :: 0 <= i < |s.world.sent| ==> s.world.sent[i] == s.log.accepted[s.log.published[i]])
  }

  predicate Bounded<M>(o: Options, s: State<M>) {
    |s.queue| <= o.maxSize
  }

  /** Only the connection side of the state differs. */
  ghost predicate SameQueue<M>(s: State<M>, s': State<M>) {
    s'.queue == s.queue && s'.log == s.log
  }

  ghost predicate SameTraffic<M>(s: State<M>, s': State<M>) {
    SameQueue(s, s') && s'.world.sent == s.world.sent && s'.blackout == s.blackout
  }

  lemma ConnectKeeps<M>(o: Options, env: Env, s: State<M>)
    requires !s.blackout
    ensures Sound(Connect(o, env, s)) && SameTraffic(s, Connect(o, env, s))
  {
  }

  lemma CheckKeeps<M>(o: Options, env: Env, s: State<M>)
    requires Sound(s)
    ensures Sound(Check(o, env, s)) && SameTraffic(s, Check(o, env, s))
  {
    hide Connect;
    if !s.blackout {
      ConnectKeeps(o, env, Ticked(s));
    }
  }

  lemma DisconnectKeeps<M>(env: Env, s: State<M>)
    ensures !Disconnect(env, s).connected && SameTraffic(s, Disconnect(env, s))
  {
  }

  /** Publishing succeeds exactly when the connection is up and the broker's own answer is a success. */
  lemma PublishMeans<M>(o: Options, env: Env, s: State<M>, m: M)
    requires Sound(s)
    ensures var r, s1 := Publish(o, env, s, m), Check(o, env, s);
            && Sound(r.s) && SameQueue(s, r.s) && r.s.blackout == s.blackout
            && (r.ok <==> Up(s1) && Reply(env, s1))
            && r.s.world.sent == s.world.sent + (if r.ok then [m] else [])
            && (r.ok ==> r.s.connected)
  {
    CheckKeeps(o, env, s);
  }

  lemma IncreasingAppend(s: seq<nat>, k: nat)
    requires Increasing(s, k)
    ensures Increasing(s + [k], k + 1)
  {
  }

  /** The oldest queued event has been published. */
  lemma PublishedOldest<M>(s: State<M>, s': State<M>)
    requires Accounted(s) && s.queue != []
    requires s'.queue == s.queue[1..] && s'.world.sent == s.world.sent + [s.queue[0]]
    requires s'.log == s.log.(published := s.log.published + [FirstQueued(s)])
    ensures Accounted(s')
  {
    var k := FirstQueued(s);
    assert FirstQueued(s') == k + 1;
    IncreasingAppend(s.log.published, k);
    assert s.log.accepted[k..][1..] == s.log.accepted[k + 1..];
    assert s.queue[0] == s.log.accepted[k];
    assert k !in s.log.dropped;
    forall j | 0 <= j < k + 1 ensures j in s'.log.published <==> j !in s'.log.dropped {
      assert j in s'.log.published <==> j in s.log.published || j == k;
    }
  }

  lemma DroppedOldest<M>(s: State<M>)
    requires Accounted(s) && s.queue != []
    ensures Accounted(DropOldest(s))
  {
    var k, s' := FirstQueued(s), DropOldest(s);
    assert FirstQueued(s') == k + 1;
    IncreasingAppend(s.log.dropped, k);
    assert s.log.accepted[k..][1..] == s.log.accepted[k + 1..];
    assert k !in s.log.published;
    forall j | 0 <= j < k + 1 ensures j in s'.log.published <==> j !in s'.log.dropped {
      assert j in s'.log.dropped <==> j in s.log.dropped || j == k;
    }
  }

  lemma QueuedNewest<M>(s: State<M>, m: M)
    requires Accounted(s)
    ensures Accounted(s.(queue := s.queue + [m], log := s.log.(accepted := s.log.accepted + [m])))
  {
    var s' := s.(queue := s.queue + [m], log := s.log.(accepted := s.log.accepted + [m]));
    assert FirstQueued(s') == FirstQueued(s);
    assert s'.log.accepted[FirstQueued(s)..] == s.log.accepted[FirstQueued(s)..] + [m];
  }

  /** Pushing drops the oldest event exactly when the queue is at capacity. */
  lemma PushKeeps<M>(o: Options, s: State<M>, m: M)
    requires o.maxSize >= 1 && Accounted(s) && Bounded(o, s)
    ensures var s' := Push(o, s, m);
            && Accounted(s') && Bounded(o, s')
            && s'.log.accepted == s.log.accepted + [m] && s'.log.published == s.log.published
            && s'.log.dropped == s.log.dropped + (if |s.queue| == o.maxSize then [FirstQueued(s)] else [])
  {
    if |s.queue| >= o.maxSize {
      DroppedOldest(s);
      QueuedNewest(DropOldest(s), m);
    } else {
      QueuedNewest(s, m);
    }
  }

  /** An event published at once, past an empty queue. */
  lemma AcceptKeeps<M>(s: State<M>, s': State<M>, m: M)
    requires Accounted(s) && s.queue == [] && SameQueue(s, s') && s'.world.sent == s.world.sent + [m]
    ensures Accounted(Accept(s', m))
  {
    var t := s.(queue := [m], log := s.log.(accepted := s.log.accepted + [m]));
    QueuedNewest(s, m);
    assert s.queue + [m] == [m];
    PublishedOldest(t, Accept(s', m));
  }

  /** Putting an event back never finds the queue full: no run takes the newest event off. */
  lemma PutBackHasRoom<M>(o: Options, env: Env, s: State<M>)
    requires Sound(s) && Bounded(o, s) && s.queue != []
    ensures var r := Publish(o, env, s.(queue := s.queue[1..]), s.queue[0]);
            && |r.s.queue| < o.maxSize
            && PutBack(o, r.s, s.queue[0]).queue == s.queue
  {
    var s0 := s.(queue := s.queue[1..]);
    PublishMeans(o, env, s0, s.queue[0]);
    assert [s.queue[0]] + s.queue[1..] == s.queue;
  }

  ghost predicate Fine<M>(o: Options, s: State<M>) {
    Sound(s) && Accounted(s) && Bounded(o, s)
  }

  /** Flushing only moves events from the front of the queue to the broker: nothing is lost or reordered. */
  lemma {:induction false} FlushKeeps<M>(o: Options, env: Env, s: State<M>, n: int)
    requires o.maxSize >= 1 && Fine(o, s)
    ensures var s' := Flush(o, env, s, n);
            && Fine(o, s') && s'.blackout == s.blackout
            && s'.log.accepted == s.log.accepted && s'.log.dropped == s.log.dropped
    decreases n
  {
    hide Accounted, Disconnect, Check;
    if n > 0 && s.queue != [] {
      var s0 := s.(queue := s.queue[1..]);
      var r := Publish(o, env, s0, s.queue[0]);
      PublishMeans(o, env, s0, s.queue[0]);
      if r.ok {
        var s1 := r.s.(log := r.s.log.(published := r.s.log.published + [FirstQueued(s)]));
        PublishedOldest(s, s1);
        FlushKeeps(o, env, s1, n - 1);
      } else {
        assert [s.queue[0]] + s.queue[1..] == s.queue;
        SameTrafficKeeps(o, s, PutBack(o, r.s, s.queue[0]));
      }
    }
  }

  lemma SameTrafficKeeps<M>(o: Options, s: State<M>, s': State<M>)
    requires Accounted(s) && Bounded(o, s) && SameTraffic(s, s')
    ensures Accounted(s') && Bounded(o, s')
  {
  }

  lemma FifoCheckKeeps<M>(o: Options, env: Env, s: State<M>)
    requires o.maxSize >= 1 && Fine(o, s)
    ensures var s' := FifoCheck(o, env, s);
            && Fine(o, s') && s'.blackout == s.blackout
            && s'.log.accepted == s.log.accepted && s'.log.dropped == s.log.dropped
  {
    hide Accounted, Flush;
    var s1 := Ticked(s);
    SameTrafficKeeps(o, s, s1);
    var s2 := s1;
    if s1.connected && s1.queue != [] && Now(env, s) - s1.lastFlush >= o.flushInterval {
      FlushKeeps(o, env, s1, FlushCount(o));
      s2 := Flush(o, env, s1, FlushCount(o)).(lastFlush := Now(env, s));
      SameTrafficKeeps(o, Flush(o, env, s1, FlushCount(o)), s2);
    }
    SameTrafficKeeps(o, s2, s2.(lastSync := Now(env, s)));
  }

  lemma SendEventKeeps<M>(o: Options, env: Env, s: State<M>, m: M)
    requires o.maxSize >= 1 && Fine(o, s)
    ensures var r := SendEvent(o, env, s, m);
            && Fine(o, r.s)
            && r.s.log.accepted == s.log.accepted + [m]
            && (r.s.log.dropped == s.log.dropped
               || (|r.s.log.dropped| == |s.log.dropped| + 1 && |r.s.queue| == o.maxSize))
            && (r.status == 0 ==> r.s.queue == [] && r.s.world.sent != [] && r.s.world.sent[|r.s.world.sent| - 1] == m)
            && (r.status != 0 ==> r.s.queue != [] && r.s.queue[|r.s.queue| - 1] == m)
            && (r.status == 0 || r.status == |r.s.queue| || (r.status == -1 && r.s.queue == [m] && !r.s.connected))
  {
    hide Accounted;
    var s1 := Check(o, env, s);
    CheckKeeps(o, env, s);
    SameTrafficKeeps(o, s, s1);
    FifoCheckKeeps(o, env, s1);
    var s2 := FifoCheck(o, env, s1);
    if Up(s1) && s2.queue == [] {
      PublishMeans(o, env, s2, m);
      var r := Publish(o, env, s2, m);
      if r.ok {
        AcceptKeeps(s2, r.s, m);
      } else {
        SameTrafficKeeps(o, s2, r.s);
        PushKeeps(o, r.s, m);
      }
    } else {
      PushKeeps(o, s2, m);
    }
  }

  // ---------- runs ----------

  datatype Op<M> = Send(m: M) | Toggle | Connected | Shutdown

  function Do<M>(o: Options, env: Env, s: State<M>, op: Op<M>): State<M> {
    match op
    case Send(m) => SendEvent(o, env, s, m).s
    case Toggle => ToggleBlackout(env, s)
    case Connected => Check(o, env, s)
    case Shutdown => Disconnect(env, s)
  }

  function Run<M>(o: Options, env: Env, s: State<M>, ops: seq<Op<M>>): State<M>
    decreases ops
  {
    if ops == [] then s else Run(o, env, Do(o, env, s, ops[0]), ops[1..])
  }

  function Events<M>(ops: seq<Op<M>>): seq<M> {
    if ops == [] then [] else (if ops[0].Send? then [ops[0].m] else []) + Events(ops[1..])
  }

  lemma DoKeeps<M>(o: Options, env: Env, s: State<M>, op: Op<M>)
    requires o.maxSize >= 1 && Fine(o, s)
    ensures Fine(o, Do(o, env, s, op))
    ensures Do(o, env, s, op).log.accepted == s.log.accepted + (if op.Send? then [op.m] else [])
  {
    hide Accounted;
    match op {
      case Send(m) => SendEventKeeps(o, env, s, m);
      case Toggle =>
        DisconnectKeeps(env, s);
        SameTrafficKeeps(o, s, Do(o, env, s, op).(blackout := s.blackout));
        ToggledAccounts(Do(o, env, s, op).(blackout := s.blackout), Do(o, env, s, op).blackout);
      case Connected =>
        CheckKeeps(o, env, s);
        SameTrafficKeeps(o, s, Do(o, env, s, op));
      case Shutdown =>
        DisconnectKeeps(env, s);
        SameTrafficKeeps(o, s, Do(o, env, s, op));
    }
  }

  lemma ToggledAccounts<M>(s: State<M>, b: bool)
    requires Accounted(s)
    ensures Accounted(s.(blackout := b))
  {
  }

  /**
    Over every run, whatever the broker and the clock do: the accepted events are those sent, in order;
    the queue is their tail; the published ones followed by the queue are all of them but the dropped.
   */
  lemma {:induction false} NothingElseIsLost<M>(o: Options, env: Env, s: State<M>, ops: seq<Op<M>>)
    requires o.maxSize >= 1 && Fine(o, s)
    ensures Fine(o, Run(o, env, s, ops))
    ensures Run(o, env, s, ops).log.accepted == s.log.accepted + Events(ops)
    decreases ops
  {
    hide Fine, Do;
    if ops == [] {
      assert s.log.accepted + [] == s.log.accepted;
    } else {
      var s', m := Do(o, env, s, ops[0]), if ops[0].Send? then [ops[0].m] else [];
      DoKeeps(o, env, s, ops[0]);
      NothingElseIsLost(o, env, s', ops[1..]);
      Associative(s.log.accepted, m, Events(ops[1..]));
    }
  }

  // ---------- pacing of connection attempts ----------

  /** The clock is positive and never goes back. */
  ghost predicate Steady(env: Env) {
    forall i: nat, j: nat :: i <= j ==> 0 < env.clock(i) <= env.clock(j)
  }

  ghost predicate Spaced(attempts: seq<int>, gap: int) {
    forall i :: 0 < i < |attempts| ==> attempts[i] - attempts[i - 1] >= gap
  }

  /** Attempts are at least waitTime apart, and the last one is remembered and not in the future. */
  ghost predicate Paced<M>(o: Options, env: Env, s: State<M>) {
    var a := s.world.attempts;
    && Spaced(a, o.waitTime)
    && s.lastConnect == (if a == [] then 0 else a[|a| - 1])
    && s.lastConnect <= env.clock(s.world.ticks)
    && (a != [] ==> s.lastConnect > 0)
  }

  /** No attempt was made and the clock only moved on. */
  predicate SamePace<M>(s: State<M>, s': State<M>) {
    s'.world.attempts == s.world.attempts && s'.lastConnect == s.lastConnect && s'.world.ticks >= s.world.ticks
  }

  lemma SamePaceKeeps<M>(o: Options, env: Env, s: State<M>, s': State<M>)
    requires Steady(env) && Paced(o, env, s) && SamePace(s, s')
    ensures Paced(o, env, s')
  {
  }

  lemma ConnectPaced<M>(o: Options, env: Env, s: State<M>)
    requires Steady(env) && Paced(o, env, s)
    requires s.lastConnect == 0 || env.clock(s.world.ticks) - s.lastConnect >= o.waitTime
    ensures Paced(o, env, Connect(o, env, s))
  {
    var s0 := StartConnect(env, s);
    assert Paced(o, env, s0);
    SamePaceKeeps(o, env, s0, Connect(o, env, s));
  }

  lemma CheckPaced<M>(o: Options, env: Env, s: State<M>)
    requires Steady(env) && Paced(o, env, s)
    ensures Paced(o, env, Check(o, env, s))
  {
    if !s.blackout && !s.connected {
      SamePaceKeeps(o, env, s, Ticked(s));
      if s.lastConnect == 0 || Now(env, s) - s.lastConnect >= o.waitTime {
        assert env.clock(s.world.ticks) <= env.clock(Ticked(s).world.ticks);
        ConnectPaced(o, env, Ticked(s));
      }
    }
  }

  lemma PublishPaced<M>(o: Options, env: Env, s: State<M>, m: M)
    requires Steady(env) && Paced(o, env, s)
    ensures Paced(o, env, Publish(o, env, s, m).s)
  {
    hide Paced, Steady, Check;
    CheckPaced(o, env, s);
    SamePaceKeeps(o, env, Check(o, env, s), Publish(o, env, s, m).s);
  }

  lemma {:induction false} FlushPaced<M>(o: Options, env: Env, s: State<M>, n: int)
    requires Steady(env) && Paced(o, env, s)
    ensures Paced(o, env, Flush(o, env, s, n))
    decreases n
  {
    hide Paced, Steady, Publish;
    if n > 0 && s.queue != [] {
      var s0 := s.(queue := s.queue[1..]);
      SamePaceKeeps(o, env, s, s0);
      PublishPaced(o, env, s0, s.queue[0]);
      var r := Publish(o, env, s0, s.queue[0]);
      if r.ok {
        var s1 := r.s.(log := r.s.log.(published := r.s.log.published + [FirstQueued(s)]));
        SamePaceKeeps(o, env, r.s, s1);
        FlushPaced(o, env, s1, n - 1);
      } else {
        SamePaceKeeps(o, env, r.s, PutBack(o, r.s, s.queue[0]));
      }
    }
  }

  lemma SendEventPaced<M>(o: Options, env: Env, s: State<M>, m: M)
    requires Steady(env) && Paced(o, env, s)
    ensures Paced(o, env, SendEvent(o, env, s, m).s)
  {
    hide Paced, Steady, Publish, Check, Flush;
    CheckPaced(o, env, s);
    var s1 := Check(o, env, s);
    SamePaceKeeps(o, env, s1, Ticked(s1));
    FlushPaced(o, env, Ticked(s1), FlushCount(o));
    var s2 := FifoCheck(o, env, s1);
    if Ticked(s1).connected && s1.queue != [] && Now(env, s1) - s1.lastFlush >= o.flushInterval {
      SamePaceKeeps(o, env, Flush(o, env, Ticked(s1), FlushCount(o)), s2);
    } else {
      SamePaceKeeps(o, env, s1, s2);
    }
    var r := Publish(o, env, s2, m);
    if Up(s1) && s2.queue == [] {
      PublishPaced(o, env, s2, m);
      SamePaceKeeps(o, env, r.s, SendEvent(o, env, s, m).s);
    } else {
      SamePaceKeeps(o, env, s2, SendEvent(o, env, s, m).s);
    }
  }

  /** Over every run, successive connection attempts are at least waitTime apart. */
  lemma {:induction false} AttemptsArePaced<M>(o: Options, env: Env, s: State<M>, ops: seq<Op<M>>)
    requires Steady(env) && Paced(o, env, s)
    ensures Paced(o, env, Run(o, env, s, ops))
    decreases ops
  {
    hide Paced, Steady;
    if ops != [] {
      match ops[0] {
        case Send(m) => SendEventPaced(o, env, s, m);
        case Connected => CheckPaced(o, env, s);
        case _ => SamePaceKeeps(o, env, s, Do(o, env, s, ops[0]));
      }
      AttemptsArePaced(o, env, Do(o, env, s, ops[0]), ops[1..]);
    }
  }

  // ---------- progress ----------

  /** lastConnect is the time of the last attempt. */
  predicate Remembers<M>(s: State<M>) {
    s.lastConnect == if s.world.attempts == [] then 0 else s.world.attempts[|s.world.attempts| - 1]
  }

  /** No attempt was made yet, or the last one is long enough ago; time 0 counts as never. */
  predicate Due<M>(o: Options, env: Env, s: State<M>) {
    var a := s.world.attempts;
    a == [] || a[|a| - 1] == 0 || env.clock(s.world.ticks) - a[|a| - 1] >= o.waitTime
  }

  /** Answers to the steps of connecting: socket, login, channel and, if asked for, the exchange. */
  predicate AllAnswer<M>(o: Options, env: Env, s: State<M>) {
    var k := s.world.replies;
    env.ok(k) && env.ok(k + 1) && env.ok(k + 2) && (o.declares ==> env.ok(k + 3))
  }

  /** Connecting makes an attempt, and succeeds exactly when every step is answered with a success. */
  lemma ConnectMeans<M>(o: Options, env: Env, s: State<M>)
    ensures var s1, t := Connect(o, env, s), env.clock(s.world.ticks);
            && s1.lastConnect == t && s1.world.attempts == s.world.attempts + [t]
            && (s1.connected <==> AllAnswer(o, env, s))
            && (s1.connected ==> s1.lastFlush == 0)
  {
    hide Step;
    var s0 := StartConnect(env, s);
    var s1, s2, s3 := Step(env, s0), Step(env, Step(env, s0)), Step(env, Step(env, Step(env, s0)));
    StepMeans(env, s0);
    StepMeans(env, s1);
    StepMeans(env, s2);
    StepMeans(env, s3);
  }

  lemma StepMeans<M>(env: Env, s: State<M>)
    ensures var s1 := Step(env, s);
            && s1 == s.(errors := s1.errors, world := s1.world) && s1.world == s.world.(replies := s1.world.replies)
            && (s.errors ==> s1.errors)
            && (!s.errors ==> s1.world.replies == s.world.replies + 1 && (s1.errors <==> !env.ok(s.world.replies)))
  {
  }

  lemma SameAnswers<M>(o: Options, env: Env, s: State<M>)
    ensures AllAnswer(o, env, Ticked(s)) == AllAnswer(o, env, s)
  {
  }

  /**
    A check makes an attempt, at the time it reads then, if and only if there is neither a connection nor a blackout and
    one is due; after an attempt the module is connected if and only if every step is answered with a success.
   */
  lemma CheckMeans<M>(o: Options, env: Env, s: State<M>)
    requires Remembers(s)
    ensures var s1 := Check(o, env, s);
            && Remembers(s1)
            && if !s.blackout && !s.connected && Due(o, env, s) then
                 && s1.world.attempts == s.world.attempts + [env.clock(s.world.ticks + 1)]
                 && (s1.connected <==> AllAnswer(o, env, s))
                 && (s1.connected ==> s1.lastFlush == 0)
               else s1.world.attempts == s.world.attempts && s1.connected == s.connected && s1.lastFlush == s.lastFlush
  {
    hide Connect, AllAnswer;
    ConnectMeans(o, env, Ticked(s));
    SameAnswers(o, env, s);
  }

  /** Every operation remembers the last attempt. */
  lemma PublishRemembers<M>(o: Options, env: Env, s: State<M>, m: M)
    requires Remembers(s)
    ensures Remembers(Publish(o, env, s, m).s)
  {
    hide Check;
    CheckMeans(o, env, s);
  }

  lemma {:induction false} FlushRemembers<M>(o: Options, env: Env, s: State<M>, n: int)
    requires Remembers(s)
    ensures Remembers(Flush(o, env, s, n))
    decreases n
  {
    hide Publish;
    if n > 0 && s.queue != [] {
      PublishRemembers(o, env, s.(queue := s.queue[1..]), s.queue[0]);
      var r := Publish(o, env, s.(queue := s.queue[1..]), s.queue[0]);
      if r.ok {
        FlushRemembers(o, env, r.s.(log := r.s.log.(published := r.s.log.published + [FirstQueued(s)])), n - 1);
      }
    }
  }

  lemma FifoCheckRemembers<M>(o: Options, env: Env, s: State<M>)
    requires Remembers(s)
    ensures Remembers(FifoCheck(o, env, s))
  {
    hide Flush;
    FlushRemembers(o, env, Ticked(s), FlushCount(o));
  }

  lemma SendRemembers<M>(o: Options, env: Env, s: State<M>, m: M)
    requires Remembers(s)
    ensures Remembers(SendEvent(o, env, s, m).s)
  {
    hide Check, Publish, FifoCheck;
    CheckMeans(o, env, s);
    var s1 := Check(o, env, s);
    FifoCheckRemembers(o, env, s1);
    PublishRemembers(o, env, FifoCheck(o, env, s1), m);
  }

  lemma {:induction false} RunRemembers<M>(o: Options, env: Env, s: State<M>, ops: seq<Op<M>>)
    requires Remembers(s)
    ensures Remembers(Run(o, env, s, ops))
    decreases ops
  {
    hide Check, SendEvent;
    if ops != [] {
      match ops[0] {
        case Send(m) => SendRemembers(o, env, s, m);
        case Connected => CheckMeans(o, env, s);
        case _ =>
      }
      RunRemembers(o, env, Do(o, env, s, ops[0]), ops[1..]);
    }
  }

  /** Of the broker's next answers the first j are successes, and the one after these is none unless j is n. */
  ghost predicate Successes<M>(env: Env, s: State<M>, j: nat, n: int) {
    && (forall k :: s.world.replies <= k < s.world.replies + j ==> env.ok(k))
    && (j < n ==> !env.ok(s.world.replies + j))
  }

  /** One event more, on a live connection. */
  lemma LivePublish<M>(o: Options, env: Env, s: State<M>, m: M)
    requires Sound(s) && s.connected
    ensures var r := Publish(o, env, s, m);
            && (r.ok <==> env.ok(s.world.replies)) && SameQueue(s, r.s)
            && r.s.world.sent == s.world.sent + (if r.ok then [m] else [])
            && Sound(r.s) && r.s.connected == r.ok && r.s.lastSync == s.lastSync
            && (r.ok ==> r.s.world.replies == s.world.replies + 1)
  {
  }

  /** Flushing a live connection publishes the oldest events, as many as the broker takes, up to n of them. */
  lemma {:induction false} FlushPublishes<M>(o: Options, env: Env, s: State<M>, n: int, j: nat)
    requires Sound(s) && s.connected && |s.queue| <= o.maxSize
    requires j <= |s.queue| && j <= (if n < 0 then 0 else n)
             && Successes(env, s, j, if n < |s.queue| then n else |s.queue|)
    ensures var s1 := Flush(o, env, s, n);
            && s1.world.sent == s.world.sent + s.queue[..j] && s1.queue == s.queue[j..] && s1.lastSync == s.lastSync
            && (s1.connected <==> j == |s.queue| || n <= j)
    decreases n
  {
    hide Publish;
    if n > 0 && s.queue != [] {
      var s0 := s.(queue := s.queue[1..]);
      LivePublish(o, env, s0, s.queue[0]);
      var r := Publish(o, env, s0, s.queue[0]);
      if r.ok {
        var s1 := r.s.(log := r.s.log.(published := r.s.log.published + [FirstQueued(s)]));
        FlushPublishes(o, env, s1, n - 1, j - 1);
        assert s.queue[..j] == [s.queue[0]] + s.queue[1..][..j - 1];
        assert s.queue[1..][j - 1..] == s.queue[j..];
        assert s.world.sent + [s.queue[0]] + s.queue[1..][..j - 1] == s.world.sent + s.queue[..j];
      } else {
        assert j == 0 && s.world.sent + s.queue[..0] == s.world.sent + [];
        assert [s.queue[0]] + s.queue[1..] == s.queue;
      }
    } else {
      assert j == 0 && s.world.sent + s.queue[..0] == s.world.sent;
    }
  }

  /**
    On a live connection a check of the queue publishes the oldest events exactly when there are some and the interval
    has passed: as many as the broker takes, up to the number asked for, or a fifth of the capacity but at most 1000.
    The queue's file is written exactly when its interval has passed.
   */
  lemma FifoCheckMeans<M>(o: Options, env: Env, s: State<M>, j: nat)
    requires Sound(s) && s.connected && |s.queue| <= o.maxSize
    requires var n := if o.flush != -1 then o.flush else if o.maxSize >= 5005 then 1000 else o.maxSize / 5;
             && j <= |s.queue| && j <= (if n < 0 then 0 else n)
             && Successes(env, s, j, if n < |s.queue| then n else |s.queue|)
    ensures var t, s1 := env.clock(s.world.ticks), FifoCheck(o, env, s);
            && (if s.queue != [] && t - s.lastFlush >= o.flushInterval then
                  s1.world.sent == s.world.sent + s.queue[..j] && s1.queue == s.queue[j..] && s1.lastFlush == t
                else s1.world.sent == s.world.sent && s1.queue == s.queue && s1.lastFlush == s.lastFlush)
            && s1.lastSync == if t - s.lastSync >= o.autosync then t else s.lastSync
  {
    hide Flush;
    FlushPublishes(o, env, Ticked(s), FlushCount(o), j);
  }

  /** Without a connection nothing is flushed. */
  lemma NoFlush<M>(o: Options, env: Env, s: State<M>)
    requires !s.connected
    ensures var s1 := FifoCheck(o, env, s);
            s1.world.sent == s.world.sent && s1.queue == s.queue && s1.lastFlush == s.lastFlush
  {
  }

  /**
    With an empty queue and a broker that answers with successes, an event is published at once if the module is
    connected or an attempt to connect is due, unless there is a blackout.
   */
  lemma EventGoesOut<M>(o: Options, env: Env, s: State<M>, m: M)
    requires (forall k :: env.ok(k)) && Sound(s) && Remembers(s)
    requires !s.blackout && s.queue == [] && (s.connected || Due(o, env, s))
    ensures var r := SendEvent(o, env, s, m);
            r.status == 0 && r.s.world.sent == s.world.sent + [m] && r.s.queue == [] && r.s.connected
  {
    CheckMeans(o, env, s);
    CheckKeeps(o, env, s);
  }

  /** So is the first event of a new module. */
  lemma FirstEventGoesOut<M>(o: Options, env: Env, m: M)
    requires forall k :: env.ok(k)
    ensures var s := State(false, false, false, 0, 0, 0, [], World(0, 0, [], []), Log([], [], []));
            var r := SendEvent(o, env, s, m);
            r.status == 0 && r.s.world.sent == [m] && r.s.world.attempts == [env.clock(1)]
  {
    hide Check, Publish, FifoCheck;
    var s := State(false, false, false, 0, 0, 0, [], World(0, 0, [], []), Log([], [], []));
    EventGoesOut(o, env, s, m);
    CheckMeans(o, env, s);
    CheckKeeps(o, env, s);
    LiveEvent(o, env, Check(o, env, s), m);
  }

  /** On a live connection with an empty queue, sending an event makes no attempt to connect. */
  lemma LiveEvent<M>(o: Options, env: Env, s: State<M>, m: M)
    requires Sound(s) && s.connected && s.queue == []
    ensures var s2 := FifoCheck(o, env, s);
            s2.queue == [] && Publish(o, env, s2, m).s.world.attempts == s.world.attempts
  {
  }

  /** A connection is ended by closing channel and connection, and an answer to either can be an error. */
  lemma DisconnectMeans<M>(env: Env, s: State<M>)
    ensures var s1, k := Disconnect(env, s), s.world.replies;
            && !s1.connected && s1.world.replies == k + (if s.connected then 2 else 0)
            && (s1.errors <==> s.connected && !(env.ok(k) && env.ok(k + 1)))
  {
  }

  /** A blackout ends the connection; the end of one makes none. */
  lemma ToggleMeans<M>(env: Env, s: State<M>)
    ensures var s1 := ToggleBlackout(env, s);
            && s1.blackout == !s.blackout && (s1.blackout ==> !s1.connected)
            && (s.blackout ==> s1.connected == s.connected)
            && s1.world.attempts == s.world.attempts && s1.world.sent == s.world.sent && s1.queue == s.queue
  {
  }

  // ---------- the module ----------

  class Module<M> {
    const o: Options
    const env: Env
    const fifo: Fifo.Queue<M>
    var connected: bool
    var errors: bool
    var blackout: bool
    var lastConnect: int
    var lastSync: int
    var lastFlush: int
    var world: World<M>
    ghost var log: Log<M>

    ghost predicate Valid()
      reads this, fifo, fifo.q
    {
      && fifo.Valid() && fifo.maxSize == o.maxSize >= 1
      && Sound(Abs()) && Bounded(o, Abs())
    }

    ghost function Abs(): State<M>
      reads this, fifo
    {
      State(connected, errors, blackout, lastConnect, lastSync, lastFlush, Fifo.Messages(fifo.q), world, log)
    }

    constructor (o: Options, env: Env)
      requires o.maxSize >= 1
      ensures Valid() && fresh(fifo) && this.o == o && this.env == env
      ensures Abs() == State(false, false, false, 0, 0, 0, [], World(0, 0, [], []), Log([], [], []))
    {
      this.o, this.env := o, env;
      fifo := new Fifo.Queue<M>(o.maxSize);
      connected, errors, blackout := false, false, false;
      lastConnect, lastSync, lastFlush := 0, 0, 0;
      world, log := World(0, 0, [], []), Log([], [], []);
    }

    method OnError(ok: bool)
      modifies `errors
      ensures errors == (old(errors) || !ok)
    {
      if !ok {
        errors := true;
      }
    }

    method NextReply() returns (ok: bool)
      modifies `world
      ensures ok == env.ok(old(world.replies)) && world == old(world).(replies := old(world.replies) + 1)
    {
      ok := env.ok(world.replies);
      world := world.(replies := world.replies + 1);
    }

    method GetTime() returns (t: int)
      modifies `world
      ensures t == env.clock(old(world.ticks)) && world == old(world).(ticks := old(world.ticks) + 1)
    {
      t := env.clock(world.ticks);
      world := world.(ticks := world.ticks + 1);
    }

    method Try()
      modifies `world, `errors
      ensures Abs() == Step(env, old(Abs()))
    {
      if !errors {
        var ok := NextReply();
        OnError(ok);
      }
    }

    method DoConnect() returns (up: bool)
      modifies `connected, `errors, `lastConnect, `lastFlush, `world
      ensures Abs() == Connect(o, env, old(Abs())) && up == connected
    {
      errors := false;
      lastConnect := GetTime();
      world := world.(attempts := world.attempts + [lastConnect]);
      assert Abs() == StartConnect(env, old(Abs()));
      Try();
      Try();
      Try();
      if o.declares {
        Try();
      }
      if !errors {
        connected := true;
        lastFlush := 0;
      } else {
        connected := false;
      }
      up := connected;
    }

    method DoDisconnect()
      modifies `connected, `errors, `world
      ensures Abs() == Disconnect(env, old(Abs()))
    {
      errors := false;
      if connected {
        var ok := NextReply();
        OnError(ok);
        ok := NextReply();
        OnError(ok);
      }
      connected := false;
    }

    method DoCheck() returns (up: bool)
      modifies `connected, `errors, `lastConnect, `lastFlush, `world
      ensures Abs() == Check(o, env, old(Abs())) && up == Up(Abs())
    {
      if blackout {
        return false;
      }
      if connected {
        return connected;
      }
      var timestamp := GetTime();
      var elapsed := timestamp - lastConnect;
      if lastConnect == 0 || (!connected && elapsed >= o.waitTime) {
        var r := DoConnect();
      }
      up := connected;
    }

    method DoPublish(m: M) returns (ok: bool)
      modifies `connected, `errors, `lastConnect, `lastFlush, `world
      ensures Outcome(Abs(), ok) == Publish(o, env, old(Abs()), m)
    {
      var up := DoCheck();
      if !up {
        return false;
      }
      var taken := NextReply();
      if taken {
        world := world.(sent := world.sent + [m]);
      }
      OnError(taken);
      if errors {
        DoDisconnect();
        return false;
      }
      ok := true;
    }

    method DoToggleBlackout() returns (b: bool)
      modifies `connected, `errors, `blackout, `world
      ensures Abs() == ToggleBlackout(env, old(Abs())) && b == blackout
    {
      if !blackout {
        DoDisconnect();
        blackout := true;
      } else {
        blackout := false;
      }
      b := blackout;
    }

    /** One turn of the flush loop: false when the queue is empty or the event had to be put back. */
    method FlushOne() returns (more: bool)
      requires Valid()
      modifies `connected, `errors, `lastConnect, `lastFlush, `world, `log, fifo, Fifo.Objects(fifo.q)
      ensures Valid() && Fifo.Objects(fifo.q) <= old(Fifo.Objects(fifo.q))
      ensures var s := old(Abs());
              if s.queue == [] then !more && Abs() == s else
              var r := Publish(o, env, s.(queue := s.queue[1..]), s.queue[0]);
              more == r.ok &&
              Abs() == if r.ok then r.s.(log := r.s.log.(published := r.s.log.published + [FirstQueued(s)]))
                       else PutBack(o, r.s, s.queue[0])
    {
      hide Fifo.Linked, Check, Disconnect, Publish, Fifo.Messages;
      ghost var s := Abs();
      MessagesSlice(fifo.q);
      var e := fifo.Shift();
      if e == null {
        return false;
      }
      assert Abs() == s.(queue := s.queue[1..]);
      PublishMeans(o, env, Abs(), e.msg);
      var ok := DoPublish(e.msg);
      if !ok {
        var n := fifo.Prepend(e);
        MessagesSlice(fifo.q);
        assert Fifo.Messages(fifo.q) == [e.msg] + s.queue[1..];
        return false;
      }
      log := log.(published := log.published + [FirstQueued(s)]);
      more := true;
    }

    method DoFlush(flush: int)
      requires Valid()
      modifies `connected, `errors, `lastConnect, `lastFlush, `world, `log, fifo, Fifo.Objects(fifo.q)
      ensures Valid() && Fifo.Objects(fifo.q) <= old(Fifo.Objects(fifo.q))
      ensures Abs() == Flush(o, env, old(Abs()), flush)
    {
      hide Publish, Fifo.Linked;
      var i := 0;
      while i < flush
        invariant Valid() && Fifo.Objects(fifo.q) <= old(Fifo.Objects(fifo.q))
        invariant Flush(o, env, Abs(), flush - i) == Flush(o, env, old(Abs()), flush)
        decreases flush - i
      {
        var more := FlushOne();
        if !more {
          return;
        }
        i := i + 1;
      }
    }

    method DoFifoCheck(opens: bool)
      requires Valid()
      modifies `connected, `errors, `lastConnect, `lastFlush, `lastSync, `world, `log, fifo, Fifo.Objects(fifo.q)
      ensures Valid() && Fifo.Objects(fifo.q) <= old(Fifo.Objects(fifo.q))
      ensures Abs() == FifoCheck(o, env, old(Abs()))
    {
      hide Fifo.Linked, Flush, Fifo.Messages;
      var timestamp := GetTime();
      var elapsed := timestamp - lastFlush;
      if connected && fifo.size > 0 && elapsed >= o.flushInterval {
        var flush := o.flush;
        if flush == -1 {
          flush := o.maxSize / 5;
          if flush > 1000 {
            flush := 1000;
          }
        }
        DoFlush(flush);
        lastFlush := timestamp;
      }
      elapsed := timestamp - lastSync;
      if elapsed >= o.autosync {
        var written := fifo.Sync(opens);
        lastSync := timestamp;
      }
    }

    method DoPush(m: M) returns (n: int)
      requires Valid()
      modifies `log, fifo, Fifo.Objects(fifo.q)
      ensures Valid() && fresh(Fifo.Objects(fifo.q) - old(Fifo.Objects(fifo.q)))
      ensures Abs() == Push(o, old(Abs()), m) && n == |Abs().queue|
    {
      ghost var s := Abs();
      var e := new Fifo.Event(m);
      MessagesSlice(fifo.q);
      n := fifo.Push(e);
      assert Fifo.Messages(fifo.q) == Push(o, s, m).queue;
      log := Push(o, s, m).log;
    }

    method DoSendEvent(m: M, opens: bool) returns (status: int)
      requires Valid()
      modifies `connected, `errors, `lastConnect, `lastFlush, `lastSync, `world, `log, fifo, Fifo.Objects(fifo.q)
      ensures Valid() && fresh(Fifo.Objects(fifo.q) - old(Fifo.Objects(fifo.q)))
      ensures Sent(Abs(), status) == SendEvent(o, env, old(Abs()), m)
    {
      hide Fifo.Linked, Flush, Publish, FifoCheck, Check, Push, Fifo.Messages;
      CheckKeeps(o, env, Abs());
      var up := DoCheck();
      DoFifoCheck(opens);
      PublishMeans(o, env, Abs(), m);
      if up && fifo.size == 0 {
        var ok := DoPublish(m);
        if !ok {
          var n := DoPush(m);
          return -1;
        }
        log := Accept(Abs(), m).log;
        return 0;
      }
      status := DoPush(m);
    }

    /** One operation after the other; opens(i) says whether the queue's file opens during the i-th. */
    method Perform(ops: seq<Op<M>>, opens: nat -> bool)
      requires Valid()
      modifies this, fifo, Fifo.Objects(fifo.q)
      ensures Valid() && Abs() == Run(o, env, old(Abs()), ops)
      ensures fresh(Fifo.Objects(fifo.q) - old(Fifo.Objects(fifo.q)))
    {
      hide Run, SendEvent, ToggleBlackout, Check, Disconnect, Sound, Bounded, Fifo.Messages;
      ghost var s := Abs();
      assert ops[0..] == ops;
      for i := 0 to |ops|
        invariant Valid() && Run(o, env, Abs(), ops[i..]) == Run(o, env, s, ops)
        invariant fresh(Fifo.Objects(fifo.q) - old(Fifo.Objects(fifo.q)))
      {
        RunStep(o, env, Abs(), ops[i..]);
        if !ops[i].Send? {
          StaysSound(o, env, Abs(), ops[i]);
        }
        assert ops[i..][0] == ops[i] && ops[i..][1..] == ops[i + 1..];
        match ops[i] {
          case Send(m) => var _ := DoSendEvent(m, opens(i));
          case Toggle => var _ := DoToggleBlackout();
          case Connected => var _ := DoCheck();
          case Shutdown => DoDisconnect();
        }
      }
      RunStep(o, env, Abs(), ops[|ops|..]);
    }
  }

  lemma RunStep<M>(o: Options, env: Env, s: State<M>, ops: seq<Op<M>>)
    ensures Run(o, env, s, ops) == if ops == [] then s else Run(o, env, Do(o, env, s, ops[0]), ops[1..])
  {
  }

  lemma StaysSound<M>(o: Options, env: Env, s: State<M>, op: Op<M>)
    requires Sound(s) && Bounded(o, s) && !op.Send?
    ensures Sound(Do(o, env, s, op)) && Bounded(o, Do(o, env, s, op))
  {
    if op.Connected? {
      CheckKeeps(o, env, s);
    }
  }

  lemma MessagesSlice<M>(q: seq<Fifo.Event<M>>)
    ensures q != [] ==> Fifo.Messages(q)[1..] == Fifo.Messages(q[1..]) && Fifo.Messages(q)[0] == q[0].msg
  {
  }
}
