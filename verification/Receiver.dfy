/**
  When a channel's memory may be recycled: the frame being gathered, and every parked frame with its
  link, its copy and its payload, stay in memory that no recycling has touched and nothing else uses.
 */
module Receiver {
  import opened Bytes
  import opened Pool
  import opened Wrappers

  /** A frame in memory: what its payload and its decoded fields occupy, in the pool of its channel. */
  datatype Held = Held(channel: nat, payload: set<Piece>)

  /** A parked frame: its link in the queue, its copy, and the frame. */
  datatype Parked = Parked(link: Piece, copy: Piece, frame: Held)

  datatype State = Idle | Header | Body(channel: nat, buffer: Piece)

  /** Channel by channel, the memory handed out since the last recycling. */
  type Live = map<nat, set<Piece>>

  /** Who uses the memory: parked frames, frames the caller holds, and the frame being gathered. */
  datatype Usage = Usage(live: Live, queue: seq<Parked>, held: seq<Held>, state: State)

  ghost predicate Backed(live: Live, channel: nat, pieces: set<Piece>) {
    channel in live && pieces <= live[channel]
  }

  ghost predicate Extends(a: Live, b: Live) {
    forall c :: c in a ==> c in b && a[c] <= b[c]
  }

  function PiecesOf(p: Parked): set<Piece> {
    {p.link, p.copy} + p.frame.payload
  }

  /** Memory that nobody has been given. */
  ghost predicate New(live: Live, pieces: set<Piece>) {
    forall c :: c in live ==> live[c] !! pieces
  }

  ghost function UsesOf(p: Parked): multiset<Piece> {
    multiset{p.link, p.copy} + multiset(p.frame.payload)
  }

  ghost function PiecesOfAll(queue: seq<Parked>): multiset<Piece> {
    if queue == [] then multiset{} else PiecesOfAll(queue[..|queue| - 1]) + UsesOf(queue[|queue| - 1])
  }

  ghost function PayloadOfAll(held: seq<Held>): multiset<Piece> {
    if held == [] then multiset{} else PayloadOfAll(held[..|held| - 1]) + multiset(held[|held| - 1].payload)
  }

  /** Each piece as often as something uses it. */
  ghost function InUse(u: Usage): multiset<Piece> {
    PiecesOfAll(u.queue) + PayloadOfAll(u.held) + if u.state.Body? then multiset{u.state.buffer} else multiset{}
  }

  ghost predicate Single(m: multiset<Piece>) {
    forall x :: x in m ==> m[x] == 1
  }

  /** No piece has two users. */
  ghost predicate Unshared(u: Usage) {
    Single(InUse(u))
  }

  ghost predicate QueueSafe(live: Live, queue: seq<Parked>) {
    forall p :: p in queue ==> Backed(live, p.frame.channel, PiecesOf(p))
  }

  ghost predicate HeldSafe(live: Live, held: seq<Held>) {
    forall f :: f in held ==> Backed(live, f.channel, f.payload)
  }

  /** Nothing in use has been recycled. */
  ghost predicate AllBacked(u: Usage) {
    && QueueSafe(u.live, u.queue) && HeldSafe(u.live, u.held)
    && (u.state.Body? ==> Backed(u.live, u.state.channel, {u.state.buffer}))
  }

  /** Nothing in use has been recycled or given to another user. */
  ghost predicate Safe(u: Usage) {
    AllBacked(u) && Unshared(u)
  }

  // ---------- the steps ----------

  /** No parked frame is on channel. */
  predicate NoneParked(queue: seq<Parked>, channel: nat) {
    forall p :: p in queue ==> p.frame.channel != channel
  }

  /** The frames the caller still has after a channel's memory has been recycled. */
  function Without(held: seq<Held>, channel: nat): (r: seq<Held>)
    ensures forall f :: f in r ==> f in held && f.channel != channel
    ensures forall f :: f in held && f.channel != channel ==> f in r
  {
    if held == [] then []
    else (if held[0].channel == channel then [] else [held[0]]) + Without(held[1..], channel)
  }

  /** The header of a frame is being read. */
  ghost predicate Gathers(u: Usage, v: Usage) {
    !u.state.Body? && v == u.(state := Header)
  }

  /** The header is complete: memory for the whole frame comes from the pool of its channel. */
  ghost predicate Starts(u: Usage, v: Usage) {
    && !u.state.Body? && v.state.Body? && Extends(u.live, v.live) && v == u.(live := v.live, state := v.state)
    && Backed(v.live, v.state.channel, {v.state.buffer}) && New(u.live, {v.state.buffer})
  }

  /** The frame is complete and decoded into more memory of its channel; the caller has it now. */
  ghost predicate Finishes(u: Usage, v: Usage) {
    && u.state.Body? && v.held != []
    && var f := v.held[|v.held| - 1];
    && v == u.(live := v.live, held := u.held + [f], state := Idle) && Extends(u.live, v.live)
    && f.channel == u.state.channel && u.state.buffer in f.payload && Backed(v.live, f.channel, f.payload)
    && New(u.live, f.payload - {u.state.buffer})
  }

  /** The frame cannot be decoded: the reader stays where it is. */
  ghost predicate Fails(u: Usage, v: Usage) {
    u.state.Body? && v == u.(live := v.live) && Extends(u.live, v.live)
  }

  /** A frame is parked, with a new link and a new copy, at the end or, put back, at the front. */
  ghost predicate Links(u: Usage, v: Usage, p: Parked, front: bool) {
    && v == u.(live := v.live, queue := if front then [p] + u.queue else u.queue + [p]) && Extends(u.live, v.live)
    && Backed(v.live, p.frame.channel, {p.link, p.copy}) && New(u.live, {p.link, p.copy}) && p.link != p.copy
  }

  /** The caller gives up the i-th frame it holds. */
  function GivenUp(u: Usage, i: nat): Usage
    requires i < |u.held|
  {
    u.(held := u.held[..i] + u.held[i + 1..])
  }

  /** A frame the caller holds is parked. */
  ghost predicate Parks(u: Usage, v: Usage, i: nat, front: bool) {
    && i < |u.held| && v.queue != []
    && var p := if front then v.queue[0] else v.queue[|v.queue| - 1];
    p.frame == u.held[i] && Links(GivenUp(u, i), v, p, front)
  }

  /** The parked frame at k is handed out; those before it are dropped. */
  ghost predicate Takes(u: Usage, v: Usage, k: nat) {
    k < |u.queue| && v == u.(queue := u.queue[k + 1..], held := u.held + [u.queue[k].frame])
  }

  /** A channel's memory is recycled, which also gives up the caller's frames on it. */
  ghost predicate Recycles(u: Usage, v: Usage, channel: nat) {
    && u.state.Idle? && NoneParked(u.queue, channel) && channel in u.live
    && v == u.(live := u.live[channel := {}], held := Without(u.held, channel))
  }

  ghost predicate Step(u: Usage, v: Usage) {
    || u == v || Gathers(u, v) || Starts(u, v) || Finishes(u, v) || Fails(u, v)
    || (exists i, front :: Parks(u, v, i, front))
    || (exists k :: Takes(u, v, k))
    || (exists c :: Recycles(u, v, c))
  }

  // ---------- no piece has two users ----------

  lemma {:induction false} PiecesOfConcat(a: seq<Parked>, b: seq<Parked>)
    ensures PiecesOfAll(a + b) == PiecesOfAll(a) + PiecesOfAll(b)
    decreases |b|
  {
    hide UsesOf;
    if b == [] {
      assert a + b == a;
    } else {
      assert (a + b)[..|a| + |b| - 1] == a + b[..|b| - 1];
      PiecesOfConcat(a, b[..|b| - 1]);
    }
  }

  lemma PiecesOfOne(p: Parked)
    ensures PiecesOfAll([p]) == UsesOf(p)
  {
    assert [p][..0] == [];
  }

  lemma {:induction false} PayloadOfConcat(a: seq<Held>, b: seq<Held>)
    ensures PayloadOfAll(a + b) == PayloadOfAll(a) + PayloadOfAll(b)
    decreases |b|
  {
    if b == [] {
      assert a + b == a;
    } else {
      assert (a + b)[..|a| + |b| - 1] == a + b[..|b| - 1];
      PayloadOfConcat(a, b[..|b| - 1]);
    }
  }

  lemma PayloadOfOne(f: Held)
    ensures PayloadOfAll([f]) == multiset(f.payload)
  {
    assert [f][..0] == [];
  }

  lemma {:induction false} PayloadWithout(held: seq<Held>, channel: nat)
    ensures PayloadOfAll(Without(held, channel)) <= PayloadOfAll(held)
    decreases |held|
  {
    if held != [] {
      var one := [held[0]];
      PayloadWithout(held[1..], channel);
      assert held == one + held[1..];
      PayloadOfConcat(one, held[1..]);
      PayloadOfConcat(one, Without(held[1..], channel));
      assert [] + Without(held[1..], channel) == Without(held[1..], channel);
    }
  }

  lemma {:induction false} ParkedIsBacked(live: Live, queue: seq<Parked>, x: Piece)
    requires QueueSafe(live, queue) && x in PiecesOfAll(queue)
    ensures exists c :: c in live && x in live[c]
    decreases |queue|
  {
    var n := |queue| - 1;
    if x in PiecesOfAll(queue[..n]) {
      ParkedIsBacked(live, queue[..n], x);
    } else {
      assert x in PiecesOf(queue[n]) && queue[n] in queue;
      assert x in live[queue[n].frame.channel];
    }
  }

  lemma {:induction false} HeldIsBacked(live: Live, held: seq<Held>, x: Piece)
    requires HeldSafe(live, held) && x in PayloadOfAll(held)
    ensures exists c :: c in live && x in live[c]
    decreases |held|
  {
    var n := |held| - 1;
    if x in PayloadOfAll(held[..n]) {
      HeldIsBacked(live, held[..n], x);
    } else {
      assert held[n] in held;
      assert x in live[held[n].channel];
    }
  }

  /** What is new is not in use. */
  lemma NewIsUnused(u: Usage, x: Piece)
    requires AllBacked(u) && New(u.live, {x})
    ensures x !in InUse(u)
  {
    hide PiecesOfAll, PayloadOfAll, QueueSafe, HeldSafe;
    assert u.state.Body? ==> u.state.buffer in u.live[u.state.channel];
    if x in PiecesOfAll(u.queue) {
      ParkedIsBacked(u.live, u.queue, x);
    } else if x in PayloadOfAll(u.held) {
      HeldIsBacked(u.live, u.held, x);
    }
  }

  lemma FewerUses(u: Usage, v: Usage)
    requires Unshared(u) && InUse(v) <= InUse(u)
    ensures Unshared(v)
  {
    hide InUse;
    forall p | p in InUse(v) ensures InUse(v)[p] == 1 {
      assert p in InUse(u);
    }
  }

  // ---------- every step keeps memory in use safe ----------

  lemma ExtendsKeepsBacked(u: Usage, live: Live)
    requires AllBacked(u) && Extends(u.live, live)
    ensures AllBacked(u.(live := live))
  {
  }

  lemma ExtendsKeepsSafe(u: Usage, live: Live)
    requires Safe(u) && Extends(u.live, live)
    ensures Safe(u.(live := live))
  {
    hide AllBacked, Extends;
    ExtendsKeepsBacked(u, live);
    assert InUse(u.(live := live)) == InUse(u);
  }

  lemma StartsKeepsSafe(u: Usage, v: Usage)
    requires Safe(u) && Starts(u, v)
    ensures Safe(v)
  {
    hide Backed, Extends, QueueSafe, HeldSafe, PiecesOfAll, PayloadOfAll, New;
    ExtendsKeepsBacked(u, v.live);
    NewIsUnused(u, v.state.buffer);
    assert InUse(v) == InUse(u) + multiset{v.state.buffer};
  }

  lemma FinishesKeepsSafe(u: Usage, v: Usage)
    requires Safe(u) && Finishes(u, v)
    ensures Safe(v)
  {
    hide Backed, Extends, QueueSafe, PiecesOfAll, PayloadOfAll, New;
    ExtendsKeepsBacked(u, v.live);
    var f := v.held[|v.held| - 1];
    forall x | x in f.payload && x != u.state.buffer ensures x !in InUse(u) {
      NewOne(u.live, f.payload - {u.state.buffer}, x);
      NewIsUnused(u, x);
    }
    PayloadOfConcat(u.held, [f]);
    PayloadOfOne(f);
    assert InUse(v) == InUse(u) - multiset{u.state.buffer} + multiset(f.payload);
    assert forall g :: g in v.held ==> g in u.held || g == f;
  }

  lemma NewOne(live: Live, pieces: set<Piece>, x: Piece)
    requires New(live, pieces) && x in pieces
    ensures New(live, {x})
  {
  }

  lemma Joined(live: Live, channel: nat, a: set<Piece>, b: set<Piece>)
    ensures Backed(live, channel, a + b) <==> Backed(live, channel, a) && Backed(live, channel, b)
  {
  }

  /** The pieces in use after a frame has been parked. */
  lemma LinkedUses(u: Usage, v: Usage, p: Parked, front: bool)
    requires Links(u, v, p, front)
    ensures InUse(v) == InUse(u) + UsesOf(p)
  {
    hide Backed, Extends, PiecesOfAll, PayloadOfAll, New;
    PiecesOfOne(p);
    if front {
      PiecesOfConcat([p], u.queue);
    } else {
      PiecesOfConcat(u.queue, [p]);
    }
  }

  /** Parking a frame is safe exactly when its memory has not been recycled and nothing else uses it. */
  lemma ParkSafely(u: Usage, v: Usage, p: Parked, front: bool)
    requires Safe(u) && Links(u, v, p, front)
    ensures Safe(v) <==>
            && Backed(v.live, p.frame.channel, p.frame.payload)
            && forall x :: x in p.frame.payload ==> x !in InUse(u) && x != p.link && x != p.copy
  {
    ParkedBacked(u, v, p, front);
    LinkedUses(u, v, p, front);
    NewOne(u.live, {p.link, p.copy}, p.link);
    NewOne(u.live, {p.link, p.copy}, p.copy);
    NewIsUnused(u, p.link);
    NewIsUnused(u, p.copy);
    UnsharedSum(InUse(u), p);
  }

  lemma UnsharedSum(m: multiset<Piece>, p: Parked)
    requires Single(m) && p.link !in m && p.copy !in m && p.link != p.copy
    ensures Single(m + UsesOf(p)) <==>
            forall x :: x in p.frame.payload ==> x !in m && x != p.link && x != p.copy
  {
    var all := m + UsesOf(p);
    assert forall x :: x in p.frame.payload ==> all[x] == m[x] + multiset{p.link, p.copy}[x] + 1;
  }

  lemma ParkedBacked(u: Usage, v: Usage, p: Parked, front: bool)
    requires AllBacked(u) && Links(u, v, p, front)
    ensures AllBacked(v) <==> Backed(v.live, p.frame.channel, p.frame.payload)
  {
    hide Backed, Extends, New;
    ExtendsKeepsBacked(u, v.live);
    Joined(v.live, p.frame.channel, {p.link, p.copy}, p.frame.payload);
    assert p in v.queue;
    assert forall q :: q in v.queue ==> q == p || q in u.queue;
  }

  /** A frame given up leaves its memory unused. */
  lemma GivesUp(u: Usage, i: nat)
    requires Safe(u) && i < |u.held|
    ensures Safe(GivenUp(u, i))
    ensures forall x :: x in u.held[i].payload ==> x !in InUse(GivenUp(u, i))
  {
    hide Backed, PiecesOfAll, PayloadOfAll;
    var f, a, b := u.held[i], u.held[..i], u.held[i + 1..];
    assert u.held == a + [f] + b;
    PayloadOfConcat(a + [f], b);
    PayloadOfConcat(a, [f]);
    PayloadOfConcat(a, b);
    PayloadOfOne(f);
    assert InUse(u) == InUse(GivenUp(u, i)) + multiset(f.payload);
    FewerUses(u, GivenUp(u, i));
    assert forall g :: g in a + b ==> g in u.held;
  }

  lemma ParksKeepsSafe(u: Usage, v: Usage, i: nat, front: bool)
    requires Safe(u) && Parks(u, v, i, front)
    ensures Safe(v)
  {
    hide Extends, PiecesOfAll, PayloadOfAll, InUse, Unshared, New;
    var p := if front then v.queue[0] else v.queue[|v.queue| - 1];
    assert u.held[i] in u.held;
    GivesUp(u, i);
    ParkSafely(GivenUp(u, i), v, p, front);
    ExtendsBacked(u.live, v.live, p.frame.channel, p.frame.payload);
    NewApart(u.live, p.frame.channel, p.frame.payload, {p.link, p.copy});
  }

  lemma NewApart(live: Live, channel: nat, used: set<Piece>, pieces: set<Piece>)
    requires Backed(live, channel, used) && New(live, pieces)
    ensures used !! pieces
  {
  }

  lemma ExtendsBacked(a: Live, b: Live, channel: nat, pieces: set<Piece>)
    requires Extends(a, b) && Backed(a, channel, pieces)
    ensures Backed(b, channel, pieces)
  {
  }

  lemma RecyclesKeepsSafe(u: Usage, channel: nat)
    requires Safe(u) && channel in u.live && NoneParked(u.queue, channel)
    requires !(u.state.Body? && u.state.channel == channel)
    ensures Safe(u.(live := u.live[channel := {}], held := Without(u.held, channel)))
  {
    hide PiecesOfAll, PayloadOfAll, Without;
    var live := u.live[channel := {}];
    forall c: nat, pieces: set<Piece> | c != channel && Backed(u.live, c, pieces)
      ensures Backed(live, c, pieces)
    {
    }
    PayloadWithout(u.held, channel);
    FewerUses(u, u.(live := live, held := Without(u.held, channel)));
  }

  lemma TakesKeepsSafe(u: Usage, v: Usage, k: nat)
    requires Safe(u) && Takes(u, v, k)
    ensures Safe(v)
  {
    hide PiecesOfAll, PayloadOfAll;
    var p, a, b := u.queue[k], u.queue[..k], u.queue[k + 1..];
    assert Backed(u.live, p.frame.channel, PiecesOf(p));
    assert p.frame.payload <= PiecesOf(p);
    assert u.queue == a + [p] + b;
    PiecesOfConcat(a + [p], b);
    PiecesOfConcat(a, [p]);
    PiecesOfOne(p);
    PayloadOfConcat(u.held, [p.frame]);
    PayloadOfOne(p.frame);
    FewerUses(u, v);
  }

  lemma NewEarlier(a: Live, b: Live, pieces: set<Piece>)
    requires Extends(a, b) && New(b, pieces)
    ensures New(a, pieces)
  {
  }

  lemma StepKeepsSafe(u: Usage, v: Usage)
    requires Safe(u) && Step(u, v)
    ensures Safe(v)
  {
    hide AllBacked, Unshared, Links, Backed, Extends, Without, New;
    if i, front :| Parks(u, v, i, front) {
      ParksKeepsSafe(u, v, i, front);
    } else if c :| Recycles(u, v, c) {
      RecyclesKeepsSafe(u, c);
    } else if k :| Takes(u, v, k) {
      TakesKeepsSafe(u, v, k);
    } else if Starts(u, v) {
      StartsKeepsSafe(u, v);
    } else if Finishes(u, v) {
      FinishesKeepsSafe(u, v);
    } else if Fails(u, v) || Gathers(u, v) {
      SameUses(u, v);
    }
  }

  lemma SameUses(u: Usage, v: Usage)
    requires Safe(u) && (Fails(u, v) || Gathers(u, v))
    ensures Safe(v)
  {
    hide PiecesOfAll, PayloadOfAll;
    if Fails(u, v) {
      ExtendsKeepsSafe(u, v.live);
    }
    assert InUse(v) == InUse(u);
  }

  /** In every state a run can reach, nothing in use has been recycled. */
  lemma {:induction false} EveryStateIsSafe(run: seq<Usage>, n: nat)
    requires n < |run| && Safe(run[0])
    requires forall i :: 0 <= i < |run| - 1 ==> Step(run[i], run[i + 1])
    ensures Safe(run[n])
  {
    if n > 0 {
      EveryStateIsSafe(run, n - 1);
      StepKeepsSafe(run[n - 1], run[n]);
    }
  }

  /** Recycling a channel's memory is safe exactly when no parked frame and no half-read frame is on it. */
  lemma RecycleSafely(u: Usage, channel: nat)
    requires Safe(u) && channel in u.live
    ensures Safe(u.(live := u.live[channel := {}], held := Without(u.held, channel))) <==>
            NoneParked(u.queue, channel) && !(u.state.Body? && u.state.channel == channel)
  {
    hide Without, HeldSafe;
    var live := u.live[channel := {}];
    if p :| p in u.queue && p.frame.channel == channel {
      assert p.link in PiecesOf(p);
      assert !Backed(live, channel, PiecesOf(p));
    } else if u.state.Body? && u.state.channel == channel {
      assert u.state.buffer in {u.state.buffer};
      assert !Backed(live, channel, {u.state.buffer});
    } else {
      RecyclesKeepsSafe(u, channel);
    }
  }

  // ---------- the receiver ----------

  const FRAME_SIZE := 40                  // of a frame's copy
  const LINK_SIZE := 16                   // of a link

  ghost function Elements(s: seq<Piece>): set<Piece> {
    set p | p in s
  }

  ghost predicate Apart(owned: map<nat, set<array<byte>>>) {
    forall c, d :: c in owned && d in owned && c != d ==> owned[c] !! owned[d]
  }

  /** A pool that takes memory nobody owns, or gives some up, stays apart from the others. */
  lemma StaysApart(owned: map<nat, set<array<byte>>>, channel: nat, now: set<array<byte>>, more: set<array<byte>>)
    requires Apart(owned) && forall c :: c in owned && c != channel ==> owned[c] !! more
    requires now <= more + if channel in owned then owned[channel] else {}
    ensures Apart(owned[channel := now])
  {
  }

  class Memory {
    const pools: PoolTable
    var state: State
    var queue: seq<Parked>
    ghost var held: seq<Held>

    ghost function PoolObjects(): set<object>
      reads pools`contents
    {
      set c | c in pools.contents :: pools.contents[c]
    }

    ghost function Objects(): set<object>
      reads pools`contents
    {
      {pools, pools.table} + PoolObjects()
    }

    ghost function Owned(): map<nat, set<array<byte>>>
      reads pools`contents, PoolObjects()
    {
      map c | c in pools.contents :: pools.contents[c].Blocks()
    }

    /** No two channels' pools own the same memory. */
    ghost predicate Separate()
      reads pools`contents, PoolObjects()
    {
      Apart(Owned())
    }

    ghost predicate PoolsValid()
      reads Objects()
    {
      pools.Valid() && Separate() && forall c :: c in pools.contents ==> pools.contents[c].Valid()
    }

    ghost function LiveNow(): Live
      reads Objects()
    {
      map c | c in pools.contents :: Elements(pools.contents[c].live)
    }

    ghost function Now(): Usage
      reads this, Objects()
    {
      Usage(LiveNow(), queue, held, state)
    }

    ghost predicate Valid()
      reads this, Objects()
    {
      this !in Objects() && PoolsValid() && Safe(Now())
    }

    constructor (frameMax: nat)
      ensures Valid() && Now() == Usage(map[], [], [], Idle) && fresh(Objects())
    {
      hide PoolTable.Valid, AmqpPool.Valid, AmqpPool.Blocks;
      pools := new PoolTable(frameMax);
      state := Idle;
      queue, held := [], [];
    }

    /** All memory handed out and not recycled is pairwise disjoint, within a channel and across channels. */
    lemma InUseApart(c: nat, d: nat, p: Piece, q: Piece)
      requires PoolsValid() && c in LiveNow() && d in LiveNow() && p in LiveNow()[c] && q in LiveNow()[d]
      ensures p != q || c != d ==> !Overlap(p, q)
    {
      hide PoolTable.Valid;
      pools.contents[c].LiveWithin(p);
      pools.contents[d].LiveWithin(q);
    }

    twostate lemma LiveGrows()
      requires forall c :: c in old(pools.contents) ==>
        c in pools.contents && pools.contents[c] == old(pools.contents[c])
          && old(pools.contents[c].live) <= pools.contents[c].live
      ensures Extends(old(LiveNow()), LiveNow())
    {
    }

    lemma InPool(channel: nat, pieces: set<Piece>)
      requires channel in pools.contents && forall p :: p in pieces ==> p in pools.contents[channel].live
      ensures Backed(LiveNow(), channel, pieces)
    {
    }

    lemma OwnedExists()
      ensures forall c, b :: c in Owned() && b in Owned()[c] ==> allocated(b)
    {
    }

    method PoolOf(channel: nat) returns (pool: AmqpPool)
      requires PoolsValid()
      modifies pools, pools.table
      ensures PoolsValid() && pools.contents == old(pools.contents)[channel := pool]
      ensures if channel in old(pools.contents) then pool == old(pools.contents)[channel] else fresh(pool)
      ensures forall c :: c in pools.contents && c != channel ==> pools.contents[c] != pool
    {
      hide AmqpPool.Valid, PoolTable.Valid, AmqpPool.Blocks, Apart;
      ghost var owned := Owned();
      pool := pools.GetOrCreate(channel);
      StaysApart(owned, channel, pool.Blocks(), {});
      assert Owned() == owned[channel := pool.Blocks()];
    }

    method AllocIn(channel: nat, pool: AmqpPool, amount: nat) returns (r: Option<Piece>)
      requires PoolsValid() && channel in pools.contents && pools.contents[channel] == pool
      requires forall c :: c in pools.contents && c != channel ==> pools.contents[c] != pool
      modifies pool
      ensures PoolsValid() && old(pool.live) <= pool.live
      ensures if amount == 0 then r.None? else r.Some? && r.value in pool.live
      ensures r.Some? ==> forall c :: c in pools.contents ==> r.value !in old(pools.contents[c].live)
    {
      hide AmqpPool.Valid, PoolTable.Valid, AmqpPool.Blocks, Apart, RoundUp, Overlap;
      ghost var owned := Owned();
      OwnedExists();
      r := pool.Alloc(amount);
      ghost var more := pool.Blocks() - owned[channel];
      assert forall b :: b in more ==> fresh(b);
      StaysApart(owned, channel, pool.Blocks(), more);
      assert Owned() == owned[channel := pool.Blocks()];
      if r.Some? {
        assert r.value !in old(pool.live) by { OverlapsItself(r.value); }
        forall c | c in pools.contents && c != channel ensures r.value !in pools.contents[c].live {
          NotElsewhere(channel, c, r.value);
        }
      }
    }

    lemma OverlapsItself(p: Piece)
      requires p.size > 0
      ensures Overlap(p, p)
    {
    }

    lemma NotElsewhere(c: nat, d: nat, p: Piece)
      requires PoolsValid() && c in pools.contents && d in pools.contents && c != d && p in pools.contents[c].live
      ensures p !in pools.contents[d].live
    {
      hide PoolTable.Valid, AmqpPool.Valid, AmqpPool.Blocks;
      assert Owned()[c] !! Owned()[d];
      pools.contents[c].LiveWithin(p);
      if p in pools.contents[d].live {
        pools.contents[d].LiveWithin(p);
      }
    }

    method TakeFrom(channel: nat, amount: nat) returns (r: Option<Piece>)
      requires PoolsValid()
      modifies Objects()
      ensures PoolsValid() && fresh(Objects() - old(Objects())) && channel in pools.contents
      ensures forall c :: c in old(pools.contents) ==>
        c in pools.contents && pools.contents[c] == old(pools.contents[c])
          && old(pools.contents[c].live) <= pools.contents[c].live
      ensures if amount == 0 then r.None? else r.Some? && r.value in pools.contents[channel].live
      ensures r.Some? ==> forall c :: c in old(pools.contents) ==> r.value !in old(pools.contents[c].live)
    {
      hide PoolsValid;
      var pool := PoolOf(channel);
      r := AllocIn(channel, pool, amount);
    }

    /** Takes memory that nobody uses from a channel's pool. */
    method AllocOn(channel: nat, amount: nat) returns (r: Option<Piece>)
      requires PoolsValid()
      modifies Objects()
      ensures PoolsValid() && fresh(Objects() - old(Objects()))
      ensures Extends(old(LiveNow()), LiveNow()) && channel in LiveNow()
      ensures r.None? <==> amount == 0
      ensures r.Some? ==> Backed(LiveNow(), channel, {r.value}) && New(old(LiveNow()), {r.value})
    {
      hide PoolsValid, Extends, Backed;
      ghost var before := LiveNow();
      r := TakeFrom(channel, amount);
      LiveGrows();
      InPool(channel, if r.Some? then {r.value} else {});
    }

    twostate lemma Recycled(channel: nat)
      requires pools.contents == old(pools.contents) && channel in pools.contents && pools.contents[channel].live == []
      requires forall c :: c in pools.contents && c != channel ==> pools.contents[c].live == old(pools.contents[c].live)
      ensures LiveNow() == old(LiveNow())[channel := {}]
    {
      assert Elements([]) == {};
    }

    /** The first octets of a frame have arrived. */
    method Gather()
      requires Valid() && !state.Body?
      modifies `state
      ensures Valid() && Gathers(old(Now()), Now())
    {
      hide PoolsValid, LiveNow, Backed, Extends, Safe, New;
      state := Header;
      SameUses(old(Now()), Now());
    }

    /** The header of a frame of size octets is complete. */
    method Start(channel: nat, size: nat)
      requires Valid() && !state.Body? && size > 0
      modifies `state, Objects()
      ensures Valid() && Starts(old(Now()), Now()) && fresh(Objects() - old(Objects()))
      ensures state.channel == channel
    {
      hide PoolsValid, LiveNow, Backed, Extends, Safe, New;
      var buffer := AllocOn(channel, size);
      state := Body(channel, buffer.value);
      StartsKeepsSafe(old(Now()), Now());
    }

    /** The frame is complete; decoding it takes memory for each of wants, and may fail. */
    method Finish(wants: seq<nat>, decodes: bool) returns (r: Option<Held>)
      requires Valid() && state.Body?
      modifies `state, `held, Objects()
      ensures Valid() && fresh(Objects() - old(Objects()))
      ensures if decodes then Finishes(old(Now()), Now()) && r == Some(held[|held| - 1])
              else Fails(old(Now()), Now()) && r.None?
    {
      hide PoolsValid, LiveNow, QueueSafe, HeldSafe, Unshared;
      var channel := state.channel;
      var pieces := {state.buffer};
      ghost var u := Now();
      for i := 0 to |wants|
        invariant PoolsValid() && Now() == u.(live := LiveNow()) && fresh(Objects() - old(Objects()))
        invariant Extends(u.live, LiveNow()) && Backed(LiveNow(), channel, pieces) && u.state.buffer in pieces
        invariant New(u.live, pieces - {u.state.buffer})
      {
        ghost var live := LiveNow();
        var p := AllocOn(channel, wants[i]);
        if p.Some? {
          NewEarlier(u.live, live, {p.value});
          pieces := pieces + {p.value};
        }
      }
      if !decodes {
        SameUses(u, Now());
        return None;
      }
      state := Idle;
      var f := Held(channel, pieces);
      held := held + [f];
      r := Some(f);
      FinishesKeepsSafe(u, Now());
    }

    /** Copies a frame into memory of its channel. */
    method Link(f: Held) returns (p: Parked)
      requires Valid()
      modifies Objects()
      ensures Valid() && fresh(Objects() - old(Objects())) && Now() == old(Now()).(live := LiveNow())
      ensures Extends(old(LiveNow()), LiveNow())
      ensures p.frame == f && Backed(LiveNow(), f.channel, {p.link, p.copy})
      ensures New(old(LiveNow()), {p.link, p.copy}) && p.link != p.copy
    {
      hide PoolsValid, LiveNow, Safe;
      ghost var live := LiveNow();
      var link := AllocOn(f.channel, LINK_SIZE);
      ghost var linked := LiveNow();
      var copy := AllocOn(f.channel, FRAME_SIZE);
      NewEarlier(live, linked, {copy.value});
      assert link.value in linked[f.channel];
      p := Parked(link.value, copy.value, f);
      ExtendsKeepsSafe(old(Now()), LiveNow());
    }

    /** Parks a frame, at the end or, put back, in front; safely if it has not been given up. */
    method Park(f: Held, front: bool) returns (ghost p: Parked)
      requires Valid()
      modifies `queue, Objects()
      ensures PoolsValid() && this !in Objects() && fresh(Objects() - old(Objects()))
      ensures Links(old(Now()), Now(), p, front) && p.frame == f
      ensures Valid() <==>
              && Backed(LiveNow(), f.channel, f.payload)
              && forall x :: x in f.payload ==> x !in InUse(old(Now())) && x != p.link && x != p.copy
    {
      hide PoolsValid, LiveNow, Backed, Extends, Safe, New, InUse;
      var parked := Link(f);
      p := parked;
      queue := if front then [parked] + queue else queue + [parked];
      ParkSafely(old(Now()), Now(), p, front);
    }

    /** Parks the i-th frame the caller holds. */
    method ParkHeld(ghost i: nat, f: Held, front: bool)
      requires Valid() && i < |held| && held[i] == f
      modifies `queue, `held, Objects()
      ensures Valid() && Parks(old(Now()), Now(), i, front) && fresh(Objects() - old(Objects()))
    {
      hide PoolsValid, LiveNow, Backed, Extends, Safe, New, InUse;
      GivesUp(Now(), i);
      held := held[..i] + held[i + 1..];
      ghost var p := Park(f, front);
      ParksKeepsSafe(old(Now()), Now(), i, front);
    }

    /** Hands out the parked frame at k. */
    method Take(k: nat) returns (f: Held)
      requires Valid() && k < |queue|
      modifies `queue, `held
      ensures Valid() && Takes(old(Now()), Now(), k) && f == old(queue)[k].frame
    {
      hide PoolsValid, LiveNow, Backed, Extends, Safe, New;
      f := queue[k].frame;
      queue := queue[k + 1..];
      held := held + [f];
      TakesKeepsSafe(old(Now()), Now(), k);
    }

    method RecyclePool(channel: nat, pool: AmqpPool)
      requires PoolsValid() && channel in pools.contents && pools.contents[channel] == pool
      requires forall c :: c in pools.contents && c != channel ==> pools.contents[c] != pool
      modifies pool
      ensures PoolsValid() && LiveNow() == old(LiveNow())[channel := {}]
    {
      hide AmqpPool.Valid, PoolTable.Valid, AmqpPool.Blocks, Apart, LiveNow;
      ghost var owned := Owned();
      pool.Recycle();
      StaysApart(owned, channel, pool.Blocks(), {});
      assert Owned() == owned[channel := pool.Blocks()];
      Recycled(channel);
    }

    /** Recycles a channel's memory unless a frame is being read or a frame of that channel is parked. */
    method MaybeRelease(channel: nat)
      requires Valid()
      modifies `held, PoolObjects()
      ensures Valid()
      ensures if old(state).Idle? && NoneParked(queue, channel) && channel in pools.contents
              then Recycles(old(Now()), Now(), channel) else Now() == old(Now())
    {
      hide AmqpPool.Valid, PoolTable.Valid, Separate, Backed, Extends, Safe, Without;
      if !state.Idle? {
        return;
      }
      var k := 0;
      while k < |queue|
        invariant k <= |queue| && NoneParked(queue[..k], channel)
      {
        if queue[k].frame.channel == channel {
          return;
        }
        k := k + 1;
      }
      assert queue[..k] == queue;
      var pool := pools.Get(channel);
      if pool != null {
        RecyclePool(channel, pool);
        held := Without(held, channel);
        RecyclesKeepsSafe(old(Now()), channel);
      }
    }

    /** What is left of the memory after releasing some channels. */
    ghost function Released(live: Live, channels: set<nat>): Live
      reads `queue
    {
      map c | c in live :: if c in channels && NoneParked(queue, c) then {} else live[c]
    }

    lemma ReleasedOne(live: Live, channels: set<nat>, c: nat)
      ensures Released(live, channels + {c}) ==
              if c in live && NoneParked(queue, c) then Released(live, channels)[c := {}] else Released(live, channels)
    {
    }

    lemma ReleasedNone(live: Live)
      ensures Released(live, {}) == live
    {
    }

    lemma ReleasedEnough(live: Live, channels: set<nat>)
      requires live.Keys <= channels
      ensures Released(live, channels) == Released(live, live.Keys)
    {
    }

    lemma LiveKeys()
      ensures LiveNow().Keys == pools.contents.Keys
    {
    }

    /** Releases every channel's memory that can be released. */
    method ReleaseAll()
      requires Valid() && state.Idle?
      modifies `held, PoolObjects()
      ensures Valid() && LiveNow() == Released(old(LiveNow()), old(LiveNow()).Keys)
    {
      hide AmqpPool.Valid, PoolTable.Valid, Separate, Safe, LiveNow, Released, NoneParked;
      ghost var visited: set<nat> := {};
      pools.Sized();
      LiveKeys();
      ReleasedNone(LiveNow());
      for i := 0 to POOL_TABLE_SIZE
        invariant Valid() && LiveNow() == Released(old(LiveNow()), visited)
        invariant forall b, e :: 0 <= b < i && e in pools.chains[b] ==> e.channel in visited
      {
        var entry := pools.table[i];
        ghost var rest := pools.chains[i];
        while entry != null
          invariant Valid() && LiveNow() == Released(old(LiveNow()), visited)
          invariant Chained(entry, rest)
          invariant forall b, e :: 0 <= b < i && e in pools.chains[b] ==> e.channel in visited
          invariant forall e :: e in pools.chains[i] ==> e.channel in visited || e in rest
          decreases |rest|
        {
          LiveKeys();
          ReleasedOne(old(LiveNow()), visited, entry.channel);
          MaybeRelease(entry.channel);
          visited := visited + {entry.channel};
          entry, rest := entry.next, rest[1..];
        }
      }
      pools.AllChained(visited);
      ReleasedEnough(old(LiveNow()), visited);
    }
  }
}
