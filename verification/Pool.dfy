/**
  The page-pool allocator: small requests are carved out of pages in order, large ones get their own
  block, and recycling makes all pages available again.  One pool belongs to each channel.
 */
module Pool {
  import opened Bytes
  import opened Wrappers

  const DEFAULT_PAGE_SIZE := 4096
  const POOL_TABLE_SIZE := 16

  /** The smallest multiple of eight that is at least n. */
  function RoundUp(n: nat): (r: nat)
    ensures n <= r < n + 8 && r % 8 == 0
  {
    (n + 7) / 8 * 8
  }

  /** A piece of memory handed out: size octets of block from offset on. */
  datatype Piece = Piece(block: array<byte>, offset: nat, size: nat)

  ghost predicate Overlap(p: Piece, q: Piece) {
    p.block == q.block && p.offset < q.offset + q.size && q.offset < p.offset + p.size
  }

  class AmqpPool {
    const pageSize: nat
    var pages: seq<array<byte>>
    var largeBlocks: seq<array<byte>>
    var nextPage: nat
    var allocBlock: array?<byte>
    var allocUsed: nat

    /** Everything handed out since the last recycle. */
    ghost var live: seq<Piece>

    /** A live piece lies within a large block of its own, a page used up, or the page in use below the mark. */
    ghost predicate Placed(p: Piece)
      reads this
    {
      && p.size > 0 && p.size % 8 == 0 && p.offset % 8 == 0
      && p.offset + p.size <= p.block.Length
      && (p.block in largeBlocks || p.block in pages[..if nextPage <= |pages| then nextPage else 0])
      && (p.block == allocBlock ==> p.offset + p.size <= allocUsed)
    }

    /** The memory the pool owns. */
    ghost function Blocks(): set<array<byte>>
      reads this
    {
      (set b | b in pages) + (set b | b in largeBlocks)
    }

    ghost predicate PagesDistinct()
      reads this
    {
      && (forall i :: 0 <= i < |pages| ==> pages[i].Length == pageSize && pages[i] !in largeBlocks)
      && (forall i, j :: 0 <= i < j < |pages| ==> pages[i] != pages[j])
    }

    ghost predicate LiveDisjoint()
      reads this
    {
      && (forall p :: p in live ==> Placed(p))
      && (forall i, j :: 0 <= i < j < |live| ==> !Overlap(live[i], live[j]))
    }

    ghost predicate Valid()
      reads this
    {
      && pageSize > 0
      && nextPage <= |pages|
      && PagesDistinct()
      && (allocBlock == null <==> nextPage == 0)
      && (allocBlock != null ==> allocBlock == pages[nextPage - 1] && allocUsed <= pageSize && allocUsed % 8 == 0)
      && LiveDisjoint()
    }

    constructor (pageSize: nat)
      ensures Valid() && live == [] && pages == [] && largeBlocks == [] && Blocks() == {}
      ensures this.pageSize == if pageSize != 0 then pageSize else 4096
    {
      this.pageSize := if pageSize != 0 then pageSize else DEFAULT_PAGE_SIZE;
      pages, largeBlocks, nextPage, allocBlock, allocUsed := [], [], 0, null, 0;
      live := [];
    }

    /** Frees the large blocks and makes every page available again. */
    method Recycle()
      requires Valid()
      modifies this
      ensures Valid() && live == [] && pages == old(pages) && largeBlocks == [] && nextPage == 0
      ensures Blocks() <= old(Blocks())
    {
      largeBlocks := [];
      nextPage := 0;
      allocBlock := null;
      allocUsed := 0;
      live := [];
    }

    /** Hands out at least amount octets that no live piece uses, or nothing for a request of none. */
    method Alloc(amount: nat) returns (r: Option<Piece>)
      requires Valid()
      modifies this
      ensures Valid()
      ensures r.None? <==> amount == 0
      ensures r.None? ==> live == old(live)
      ensures old(live) <= live
      ensures r.Some? ==> live == old(live) + [r.value] && r.value.size == RoundUp(amount)
      ensures r.Some? ==> forall p :: p in old(live) ==> !Overlap(p, r.value)
      ensures forall b :: b in Blocks() ==> b in old(Blocks()) || fresh(b)
      ensures |pages| <= |old(pages)| + 1 && (|pages| > |old(pages)| ==> old(nextPage) == |old(pages)|)
    {
      if amount == 0 {
        return None;
      }
      var n := RoundUp(amount);
      var p;
      if n > pageSize {
        p := AllocLarge(n);
      } else if allocBlock != null && allocUsed + n <= pageSize {
        p := Bump(n);
      } else {
        p := AllocPage(n);
      }
      r := Some(p);
    }

    method AllocLarge(n: nat) returns (p: Piece)
      requires Valid() && n > 0 && n % 8 == 0
      modifies `largeBlocks, `live
      ensures Valid() && live == old(live) + [p] && p.size == n && fresh(p.block)
              && Blocks() == old(Blocks()) + {p.block}
      ensures forall q :: q in old(live) ==> !Overlap(q, p)
    {
      var block := new byte[n](_ => 0);
      p := Piece(block, 0, n);
      largeBlocks := largeBlocks + [block];
      live := live + [p];
    }

    method Bump(n: nat) returns (p: Piece)
      requires Valid() && n > 0 && n % 8 == 0 && allocBlock != null && allocUsed + n <= pageSize
      modifies `allocUsed, `live
      ensures Valid() && live == old(live) + [p] && p == Piece(allocBlock, old(allocUsed), n)
      ensures forall q :: q in old(live) ==> !Overlap(q, p)
    {
      p := Piece(allocBlock, allocUsed, n);
      assert forall q :: q in live ==> Placed(q) && !Overlap(q, p);
      allocUsed := allocUsed + n;
      assert forall q :: q in live ==> Placed(q);
      live := live + [p];
      Disjoint(old(live), p);
    }

    /** A piece that overlaps none of some disjoint pieces can join them. */
    static lemma Disjoint(pieces: seq<Piece>, p: Piece)
      requires forall i, j :: 0 <= i < j < |pieces| ==> !Overlap(pieces[i], pieces[j])
      requires forall q :: q in pieces ==> !Overlap(q, p)
      ensures var all := pieces + [p]; forall i, j :: 0 <= i < j < |all| ==> !Overlap(all[i], all[j])
    {
      var all := pieces + [p];
      forall i, j | 0 <= i < j < |all| ensures !Overlap(all[i], all[j]) {
        assert all[i] in pieces;
      }
    }

    /** Starts on the next page that recycling has freed, or on a new one. */
    method OpenPage()
      requires Valid()
      modifies `pages, `nextPage, `allocBlock, `allocUsed
      ensures Valid() && allocBlock != null && allocUsed == 0
      ensures if old(nextPage) < |old(pages)| then pages == old(pages) && allocBlock == pages[old(nextPage)]
              else pages == old(pages) + [allocBlock] && fresh(allocBlock)
    {
      ghost var used := pages[..nextPage];
      assert forall q :: q in live ==> Placed(q);
      if nextPage >= |pages| {
        var page := new byte[pageSize](_ => 0);
        pages := pages + [page];
        allocBlock := page;
        nextPage := |pages|;
      } else {
        allocBlock := pages[nextPage];
        nextPage := nextPage + 1;
      }
      allocUsed := 0;
      assert pages[..nextPage] == used + [allocBlock];
      assert allocBlock !in used && allocBlock !in largeBlocks;
    }

    method AllocPage(n: nat) returns (p: Piece)
      requires Valid() && 0 < n <= pageSize && n % 8 == 0
      modifies `pages, `nextPage, `allocBlock, `allocUsed, `live
      ensures Valid() && live == old(live) + [p] && p.size == n && p.offset == 0
      ensures forall q :: q in old(live) ==> !Overlap(q, p)
      ensures if old(nextPage) < |old(pages)| then pages == old(pages) && p.block == pages[old(nextPage)]
              else pages == old(pages) + [p.block] && fresh(p.block)
    {
      OpenPage();
      p := Bump(n);
    }

    lemma LiveWithin(p: Piece)
      requires Valid() && p in live
      ensures p.block in Blocks()
    {
      assert Placed(p);
    }

    /** No page from nextPage on holds anything live, so starting on one of them overwrites nothing. */
    lemma UnusedPagesHoldNothing(k: nat, p: Piece)
      requires Valid() && nextPage <= k < |pages| && p in live
      ensures p.block != pages[k]
    {
      assert Placed(p);
    }
  }

  // ---------- one pool for each channel ----------

  class Entry {
    const channel: nat
    const pool: AmqpPool
    const next: Entry?

    constructor (channel: nat, pool: AmqpPool, next: Entry?)
      ensures this.channel == channel && this.pool == pool && this.next == next
    {
      this.channel, this.pool, this.next := channel, pool, next;
    }
  }

  ghost predicate Chained(entry: Entry?, chain: seq<Entry>) {
    if chain == [] then entry == null else entry == chain[0] && Chained(chain[0].next, chain[1..])
  }

  lemma ChainedCons(entry: Entry, chain: seq<Entry>)
    requires Chained(entry.next, chain)
    ensures Chained(entry, [entry] + chain)
  {
    assert ([entry] + chain)[1..] == chain;
  }

  /** Every entry is in the chain of its channel and holds its pool, and every channel with a pool has an entry. */
  ghost predicate Filed(chains: seq<seq<Entry>>, contents: map<nat, AmqpPool>) {
    && |chains| == POOL_TABLE_SIZE
    && (forall b :: 0 <= b < POOL_TABLE_SIZE ==> forall e :: e in chains[b] ==>
          e.channel % POOL_TABLE_SIZE == b && e.channel in contents && contents[e.channel] == e.pool)
    && (forall c :: c in contents ==> exists e :: e in chains[c % POOL_TABLE_SIZE] && e.channel == c)
  }

  lemma FiledAdd(chains: seq<seq<Entry>>, contents: map<nat, AmqpPool>, entry: Entry)
    requires Filed(chains, contents) && entry.channel !in contents
    ensures var b := entry.channel % POOL_TABLE_SIZE;
            Filed(chains[b := [entry] + chains[b]], contents[entry.channel := entry.pool])
  {
    var b := entry.channel % POOL_TABLE_SIZE;
    var more := chains[b := [entry] + chains[b]];
    forall c | c in contents[entry.channel := entry.pool]
      ensures exists e: Entry :: e in more[c % POOL_TABLE_SIZE] && e.channel == c
    {
      if c == entry.channel {
        assert entry in more[b];
      } else {
        var e :| e in chains[c % POOL_TABLE_SIZE] && e.channel == c;
        assert e in more[c % POOL_TABLE_SIZE];
      }
    }
  }

  class PoolTable {
    const frameMax: nat
    const table: array<Entry?>
    ghost var chains: seq<seq<Entry>>

    /** The pool of each channel that has one. */
    ghost var contents: map<nat, AmqpPool>

    ghost predicate Valid()
      reads this, table
    {
      && table.Length == POOL_TABLE_SIZE == |chains|
      && (forall b :: 0 <= b < POOL_TABLE_SIZE ==> Chained(table[b], chains[b]))
      && Filed(chains, contents)
      && (forall c, d :: c in contents && d in contents && c != d ==> contents[c] != contents[d])
    }

    constructor (frameMax: nat)
      ensures Valid() && contents == map[] && this.frameMax == frameMax && fresh(table)
    {
      this.frameMax := frameMax;
      table := new Entry?[POOL_TABLE_SIZE](_ => null);
      chains := seq(POOL_TABLE_SIZE, _ => []);
      contents := map[];
    }

    lemma Sized()
      requires Valid()
      ensures table.Length == POOL_TABLE_SIZE == |chains|
      ensures forall b :: 0 <= b < POOL_TABLE_SIZE ==> Chained(table[b], chains[b])
    {
    }

    /** Every channel that has a pool is met on a walk through the chains. */
    lemma AllChained(visited: set<nat>)
      requires Valid() && forall b, e :: 0 <= b < |chains| && e in chains[b] ==> e.channel in visited
      ensures contents.Keys <= visited
    {
      forall c | c in contents ensures c in visited {
        var e :| e in chains[c % POOL_TABLE_SIZE] && e.channel == c;
      }
    }

    /** The pool of a channel, if it has one. */
    method Get(channel: nat) returns (pool: AmqpPool?)
      requires Valid()
      ensures pool == if channel in contents then contents[channel] else null
      ensures forall c :: c in contents && c != channel ==> contents[c] != pool
    {
      var entry := table[channel % POOL_TABLE_SIZE];
      ghost var rest := chains[channel % POOL_TABLE_SIZE];
      while entry != null
        invariant Chained(entry, rest)
        invariant forall e :: e in rest ==> e in chains[channel % POOL_TABLE_SIZE]
        invariant forall e :: e in chains[channel % POOL_TABLE_SIZE] && e.channel == channel ==> e in rest
        decreases |rest|
      {
        assert entry in rest;
        if entry.channel == channel {
          return entry.pool;
        }
        entry, rest := entry.next, rest[1..];
      }
      pool := null;
    }

    /** The pool of a channel, which gets a pool of its own the first time; other channels keep theirs. */
    method GetOrCreate(channel: nat) returns (pool: AmqpPool)
      requires Valid()
      requires forall c :: c in contents ==> contents[c].Valid()
      modifies this, table
      ensures Valid() && pool.Valid()
      ensures contents == old(contents)[channel := pool]
      ensures channel !in old(contents) ==> pool.Blocks() == {}
      ensures channel in old(contents) ==> pool == old(contents)[channel]
      ensures channel !in old(contents) ==> fresh(pool) && pool.live == []
      ensures forall c :: c in contents && c != channel ==> contents[c] != pool
    {
      var found := Get(channel);
      if found != null {
        return found;
      }
      pool := new AmqpPool(frameMax);
      AddEntry(channel, pool);
    }

    method AddEntry(channel: nat, pool: AmqpPool)
      requires Valid() && channel !in contents && forall c :: c in contents ==> contents[c] != pool
      modifies this, table
      ensures Valid() && contents == old(contents)[channel := pool]
    {
      hide Chained, Filed;
      var b := channel % POOL_TABLE_SIZE;
      var entry := new Entry(channel, pool, table[b]);
      ChainedCons(entry, chains[b]);
      FiledAdd(chains, contents, entry);
      table[b] := entry;
      chains := chains[b := [entry] + chains[b]];
      contents := contents[channel := pool];
    }
  }
}
