/**
  The string-keyed hash table.  All pairs sit on one circular doubly linked list whose head is a
  sentinel; a bucket is a contiguous stretch of that list, delimited by its first and last pointers.
 */
module HashTable {
  import opened Bytes
  import opened Wrappers
  import opened Sequences

  const PRIMES: seq<nat> := [
    5, 13, 23, 53, 97, 193, 389, 769, 1543, 3079, 6151, 12289, 24593,
    49157, 98317, 196613, 393241, 786433, 1572869, 3145739, 6291469,
    12582917, 25165843, 50331653, 100663319, 201326611, 402653189,
    805306457, 1610612741
  ]

  // ---------- hash function ----------

  /** A char is signed: bytes above 0x7F are sign-extended to the width of size_t. */
  function SignExtend(c: byte): nat {
    if c < 0x80 then c else WORD64 - 0x100 + c
  }

  function HashFrom(h: nat, key: cstr): (r: nat)
    requires h < WORD64
    ensures r < WORD64
    decreases key
  {
    if key == [] then h else HashFrom((33 * h + SignExtend(key[0])) % WORD64, key[1..])
  }

  function HashStr(key: cstr): nat {
    HashFrom(5381, key)
  }

  /** Octet by octet, 33 times the hash so far and the octet as a signed character, modulo 2^64, from 5381 on. */
  lemma HashMeans(key: cstr, c: cbyte)
    ensures HashStr([]) == 5381
    ensures HashStr(key + [c]) ==
            (33 * HashStr(key) + if c < 0x80 then c else 0x1_0000_0000_0000_0000 - 0x100 + c) % 0x1_0000_0000_0000_0000
  {
    HashOneMore(5381, key, c);
  }

  lemma {:induction false} HashOneMore(h: nat, key: cstr, c: cbyte)
    requires h < WORD64
    ensures HashFrom(h, key + [c]) == (33 * HashFrom(h, key) + SignExtend(c)) % WORD64
    decreases |key|
  {
    if key == [] {
      assert [] + [c] == [c] && [c][1..] == [];
    } else {
      assert (key + [c])[1..] == key[1..] + [c];
      HashOneMore((33 * h + SignExtend(key[0])) % WORD64, key[1..], c);
    }
  }

  /** Reducing every intermediate sum to 64 bits does not change the result. */
  lemma HashStep(h: nat, c: nat)
    ensures (((h * 32) % WORD64 + h) % WORD64 + c) % WORD64 == (33 * h + c) % WORD64
  {
    var q0 := (h * 32) / WORD64;
    var s0 := (h * 32) % WORD64 + h;
    var q1 := s0 / WORD64;
    var s1 := s0 % WORD64 + c;
    var q2 := s1 / WORD64;
    ModUnique(33 * h + c, WORD64, q0 + q1 + q2, s1 % WORD64);
  }

  method ComputeHash(key: cstr) returns (hash: nat)
    ensures hash == HashStr(key)
  {
    hash := 5381;
    var i := 0;
    while i < |key|
      invariant 0 <= i <= |key| && hash < WORD64
      invariant HashFrom(hash, key[i..]) == HashStr(key)
    {
      HashStep(hash, SignExtend(key[i]));
      hash := (((hash * 32) % WORD64 + hash) % WORD64 + SignExtend(key[i])) % WORD64;
      assert key[i..][1..] == key[i + 1..];
      i := i + 1;
    }
  }

  // ---------- bucket segments, independent of the heap ----------

  /** The stretch lo..hi of list positions that belong to one bucket; an empty bucket is (0, 0). */
  datatype Seg = Seg(lo: nat, hi: nat)

  /** bs lists the bucket numbers in list order; every bucket is exactly the stretch of its segment. */
  ghost predicate Segmented(bs: seq<nat>, segs: seq<Seg>) {
    && (forall b :: 0 <= b < |segs| ==> segs[b].lo <= segs[b].hi <= |bs|)
    && (forall b :: 0 <= b < |segs| && segs[b].lo == segs[b].hi ==> segs[b].lo == 0)
    && (forall i :: 0 <= i < |bs| ==> bs[i] < |segs| && segs[bs[i]].lo <= i < segs[bs[i]].hi)
    && (forall b, i :: 0 <= b < |segs| && segs[b].lo <= i < segs[b].hi ==> bs[i] == b)
  }

  function Shifted(s: Seg, k: nat): Seg {
    if s.lo < s.hi && s.lo >= k then Seg(s.lo + 1, s.hi + 1) else s
  }

  /** Segments after a node of bucket b has been put at position k. */
  function SegsInsert(segs: seq<Seg>, b: nat, k: nat): (r: seq<Seg>)
    requires b < |segs|
    ensures |r| == |segs|
  {
    var hi := if segs[b].lo == segs[b].hi then k + 1 else segs[b].hi + 1;
    seq(|segs|, c requires 0 <= c < |segs| => if c == b then Seg(k, hi) else Shifted(segs[c], k))
  }

  lemma InsertInOwnSegment(bs: seq<nat>, segs: seq<Seg>, b: nat, k: nat, i: nat)
    requires Segmented(bs, segs) && b < |segs| && k <= |bs| && i <= |bs|
    requires if segs[b].lo == segs[b].hi then k == |bs| else k == segs[b].lo
    ensures var bs', segs' := bs[..k] + [b] + bs[k..], SegsInsert(segs, b, k);
            bs'[i] < |segs'| && segs'[bs'[i]].lo <= i < segs'[bs'[i]].hi
  {
    var bs' := bs[..k] + [b] + bs[k..];
    if i < k {
      assert bs'[i] == bs[i];
    } else if i > k {
      assert bs'[i] == bs[i - 1];
      assert bs[k] == b;
    }
  }

  /** No other bucket's segment crosses the insertion point. */
  lemma SegmentsDisjoint(bs: seq<nat>, segs: seq<Seg>, b: nat, k: nat)
    requires Segmented(bs, segs) && b < |segs| && k <= |bs|
    requires if segs[b].lo == segs[b].hi then k == |bs| else k == segs[b].lo
    ensures forall c :: 0 <= c < |segs| && c != b && segs[c].lo < segs[c].hi ==> segs[c].hi <= k || k <= segs[c].lo
  {
    if k < |bs| {
      assert bs[k] == b;
    }
  }

  lemma InsertOnlyOwnSegment(bs: seq<nat>, segs: seq<Seg>, b: nat, k: nat, c: nat, i: nat)
    requires Segmented(bs, segs) && b < |segs| && k <= |bs| && c < |segs|
    requires if segs[b].lo == segs[b].hi then k == |bs| else k == segs[b].lo
    requires var s := SegsInsert(segs, b, k)[c]; s.lo <= i < s.hi
    ensures i <= |bs| && (bs[..k] + [b] + bs[k..])[i] == c
  {
    SegmentsDisjoint(bs, segs, b, k);
    var bs' := bs[..k] + [b] + bs[k..];
    if i < k {
      assert bs'[i] == bs[i];
    } else if i > k {
      assert bs'[i] == bs[i - 1];
    }
  }

  lemma InsertKeepsSegments(bs: seq<nat>, segs: seq<Seg>, b: nat, k: nat)
    requires Segmented(bs, segs) && b < |segs| && k <= |bs|
    requires if segs[b].lo == segs[b].hi then k == |bs| else k == segs[b].lo
    ensures Segmented(bs[..k] + [b] + bs[k..], SegsInsert(segs, b, k))
  {
    var bs', segs' := bs[..k] + [b] + bs[k..], SegsInsert(segs, b, k);
    forall i | 0 <= i < |bs'|
      ensures bs'[i] < |segs'| && segs'[bs'[i]].lo <= i < segs'[bs'[i]].hi
    {
      InsertInOwnSegment(bs, segs, b, k, i);
    }
    forall c, i | 0 <= c < |segs'| && segs'[c].lo <= i < segs'[c].hi
      ensures bs'[i] == c
    {
      InsertOnlyOwnSegment(bs, segs, b, k, c, i);
    }
  }

  function Unshifted(s: Seg, k: nat): Seg {
    if s.lo > k then Seg(s.lo - 1, if s.hi > 0 then s.hi - 1 else 0) else s
  }

  /** Segments after the node of bucket b at position k has been taken out. */
  function SegsRemove(segs: seq<Seg>, b: nat, k: nat): (r: seq<Seg>)
    requires b < |segs|
    ensures |r| == |segs|
  {
    var s := segs[b];
    seq(|segs|, c requires 0 <= c < |segs| =>
      if c != b then Unshifted(segs[c], k)
      else if s.hi <= s.lo + 1 then Seg(0, 0)
      else Seg(s.lo, s.hi - 1))
  }

  /** No other bucket's segment crosses a position. */
  lemma SegmentsAround(bs: seq<nat>, segs: seq<Seg>, k: nat)
    requires Segmented(bs, segs) && k < |bs|
    ensures var b := bs[k];
            && b < |segs| && segs[b].lo <= k < segs[b].hi
            && forall c :: 0 <= c < |segs| && c != b ==>
                 if segs[c].lo < segs[c].hi then segs[c].hi <= k || k < segs[c].lo else segs[c].lo == 0
  {
  }

  lemma RemovedInSegment(bs: seq<nat>, segs: seq<Seg>, k: nat, i: nat)
    requires Segmented(bs, segs) && k < |bs| && i < |bs| - 1
    ensures var bs', segs' := bs[..k] + bs[k + 1..], SegsRemove(segs, bs[k], k);
            bs'[i] < |segs'| && segs'[bs'[i]].lo <= i < segs'[bs'[i]].hi
  {
    SegmentsAround(bs, segs, k);
    var j := if i < k then i else i + 1;
    assert (bs[..k] + bs[k + 1..])[i] == bs[j];
  }

  lemma RemovedOnlyInSegment(bs: seq<nat>, segs: seq<Seg>, k: nat, c: nat, i: nat)
    requires Segmented(bs, segs) && k < |bs| && c < |segs|
    requires var s := SegsRemove(segs, bs[k], k)[c]; s.lo <= i < s.hi
    ensures i < |bs| - 1 && (bs[..k] + bs[k + 1..])[i] == c
  {
    SegmentsAround(bs, segs, k);
    var j := if i < k then i else i + 1;
    assert segs[c].lo <= j < segs[c].hi;
    assert (bs[..k] + bs[k + 1..])[i] == bs[j];
  }

  lemma RemoveKeepsSegments(bs: seq<nat>, segs: seq<Seg>, k: nat)
    requires Segmented(bs, segs) && k < |bs|
    ensures Segmented(bs[..k] + bs[k + 1..], SegsRemove(segs, bs[k], k))
  {
    SegmentsAround(bs, segs, k);
    var bs', segs' := bs[..k] + bs[k + 1..], SegsRemove(segs, bs[k], k);
    forall i | 0 <= i < |bs'|
      ensures bs'[i] < |segs'| && segs'[bs'[i]].lo <= i < segs'[bs'[i]].hi
    {
      RemovedInSegment(bs, segs, k, i);
    }
    forall c, i | 0 <= c < |segs'| && segs'[c].lo <= i < segs'[c].hi
      ensures bs'[i] == c
    {
      RemovedOnlyInSegment(bs, segs, k, c, i);
    }
  }

  // ---------- the circular list ----------

  class Node<V> {
    var next: Node<V>
    var prev: Node<V>
    const key: cstr
    const hash: nat
    const serial: nat
    var value: V

    constructor (key: cstr, hash: nat, serial: nat, value: V)
      ensures this.key == key && this.hash == hash && this.serial == serial && this.value == value
      ensures next == this && prev == this
    {
      this.key, this.hash, this.serial, this.value := key, hash, serial, value;
      next, prev := this, this;
    }
  }

  /** The i-th node after the sentinel, or the sentinel itself off either end. */
  ghost function At<V>(list: Node<V>, ring: seq<Node<V>>, i: int): Node<V> {
    if 0 <= i < |ring| then ring[i] else list
  }

  ghost function NodeSet<V>(ring: seq<Node<V>>): set<Node<V>> {
    set x | x in ring
  }

  ghost function Owned<V>(list: Node<V>, ring: seq<Node<V>>): set<Node<V>> {
    {list} + NodeSet(ring)
  }

  /** list is a sentinel and ring the nodes met by following next, or in reverse by following prev. */
  ghost predicate Circular<V>(list: Node<V>, ring: seq<Node<V>>)
    reads Owned(list, ring)`next, Owned(list, ring)`prev
  {
    && list !in ring
    && Injective(ring)
    && list.next == At(list, ring, 0)
    && list.prev == At(list, ring, |ring| - 1)
    && (forall i {:trigger ring[i].next} {:trigger ring[i].prev} :: 0 <= i < |ring| ==>
          ring[i].next == At(list, ring, i + 1) && ring[i].prev == At(list, ring, i - 1))
  }

  /** The nodes from position p on still carry their forward links. */
  ghost predicate Linked<V>(list: Node<V>, ring: seq<Node<V>>, p: nat)
    reads NodeSet(ring)`next
  {
    forall i {:trigger ring[i].next} :: p <= i < |ring| ==> ring[i].next == At(list, ring, i + 1)
  }

  lemma CircularLinks<V>(list: Node<V>, ring: seq<Node<V>>)
    requires Circular(list, ring)
    ensures Linked(list, ring, 0) && list.next == At(list, ring, 0) && list !in ring && Injective(ring)
  {
  }

  method ListInit<V>(list: Node<V>)
    modifies list`next, list`prev
    ensures Circular(list, [])
  {
    list.next := list;
    list.prev := list;
  }

  lemma InsertedInjective<T>(ring: seq<T>, node: T, k: nat)
    requires k <= |ring| && Injective(ring) && node !in ring
    ensures Injective(ring[..k] + [node] + ring[k..])
  {
    var ring' := ring[..k] + [node] + ring[k..];
    forall i, j | 0 <= i < j < |ring'| ensures ring'[i] != ring'[j] {
      assert i != k ==> ring'[i] == ring[if i < k then i else i - 1];
      assert j != k ==> ring'[j] == ring[if j < k then j else j - 1];
    }
  }

  lemma RemovedInjective<T>(ring: seq<T>, k: nat)
    requires k < |ring| && Injective(ring)
    ensures Injective(ring[..k] + ring[k + 1..])
  {
    var ring' := ring[..k] + ring[k + 1..];
    forall i, j | 0 <= i < j < |ring'| ensures ring'[i] != ring'[j] {
      assert ring'[i] == ring[if i < k then i else i + 1];
      assert ring'[j] == ring[if j < k then j else j + 1];
    }
  }

  /** Links node in just before the k-th element. */
  method ListInsert<V>(at: Node<V>, node: Node<V>, ghost list: Node<V>, ghost ring: seq<Node<V>>, ghost k: nat)
    requires Circular(list, ring) && k <= |ring| && at == At(list, ring, k)
    requires node != list && node !in ring
    modifies node`next, node`prev, at`prev, at.prev`next
    ensures Circular(list, ring[..k] + [node] + ring[k..])
  {
    assert at.prev == At(list, ring, k - 1);
    InsertedInjective(ring, node, k);
    node.next := at;
    node.prev := at.prev;
    at.prev.next := node;
    at.prev := node;
    ghost var ring' := ring[..k] + [node] + ring[k..];
    forall i | 0 <= i < |ring'|
      ensures ring'[i].next == At(list, ring', i + 1) && ring'[i].prev == At(list, ring', i - 1)
    {
      if i != k {
        assert ring'[i] == ring[if i < k then i else i - 1];
      }
    }
  }

  method ListRemove<V>(node: Node<V>, ghost list: Node<V>, ghost ring: seq<Node<V>>, ghost k: nat)
    requires Circular(list, ring) && k < |ring| && node == ring[k]
    modifies node.prev`next, node.next`prev
    ensures Circular(list, ring[..k] + ring[k + 1..])
  {
    assert node.next == At(list, ring, k + 1) && node.prev == At(list, ring, k - 1);
    RemovedInjective(ring, k);
    node.prev.next := node.next;
    node.next.prev := node.prev;
  }

  // ---------- the table ----------

  ghost function BucketsOf<V>(ring: seq<Node<V>>, n: nat): (bs: seq<nat>)
    requires n > 0
    ensures |bs| == |ring|
  {
    seq(|ring|, i requires 0 <= i < |ring| => ring[i].hash % n)
  }

  ghost predicate HasKey<V>(ring: seq<Node<V>>, key: cstr) {
    exists i :: 0 <= i < |ring| && ring[i].key == key
  }

  ghost predicate DistinctKeys<V>(ring: seq<Node<V>>) {
    forall i, j :: 0 <= i < j < |ring| ==> ring[i].key != ring[j].key
  }

  ghost predicate Hashed<V>(ring: seq<Node<V>>) {
    forall i :: 0 <= i < |ring| ==> ring[i].hash == HashStr(ring[i].key)
  }

  /** What a key is mapped to: the serial number it was first stored with, and its current value. */
  datatype Entry<V> = Entry(serial: nat, value: V)

  ghost function Pair<V>(node: Node<V>): Entry<V>
    reads node`value
  {
    Entry(node.serial, node.value)
  }

  /** m is the finite map whose pairs are the nodes of ring. */
  ghost predicate Represents<V(!new)>(ring: seq<Node<V>>, m: map<cstr, Entry<V>>)
    reads NodeSet(ring)`value
  {
    && |m| == |ring|
    && DistinctKeys(ring)
    && (forall i :: 0 <= i < |ring| ==> ring[i].key in m && Pair(ring[i]) == m[ring[i].key])
    && (forall k :: k in m ==> HasKey(ring, k))
  }

  /** The pointers of bucket c when its segment is s. */
  ghost function FirstOf<V>(list: Node<V>, ring: seq<Node<V>>, s: Seg): Node<V>
    requires s.lo <= s.hi <= |ring|
  {
    if s.lo == s.hi then list else ring[s.lo]
  }

  ghost function LastOf<V>(list: Node<V>, ring: seq<Node<V>>, s: Seg): Node<V>
    requires s.lo <= s.hi <= |ring|
  {
    if s.lo == s.hi then list else ring[s.hi - 1]
  }

  /** Every bucket's pointers are the sentinel, or the two ends of its segment. */
  ghost predicate Delimiting<V>(list: Node<V>, ring: seq<Node<V>>, segs: seq<Seg>, first: seq<Node<V>>,
                                last: seq<Node<V>>) {
    && |first| == |last| == |segs|
    && (forall b :: 0 <= b < |segs| ==> segs[b].lo <= segs[b].hi <= |ring|)
    && (forall b :: 0 <= b < |segs| ==> first[b] == FirstOf(list, ring, segs[b]))
    && (forall b :: 0 <= b < |segs| ==> last[b] == LastOf(list, ring, segs[b]))
  }

  lemma InsertDelimits<V>(list: Node<V>, ring: seq<Node<V>>, segs: seq<Seg>, first: seq<Node<V>>, last: seq<Node<V>>,
                          bs: seq<nat>, node: Node<V>, b: nat, k: nat)
    requires Delimiting(list, ring, segs, first, last)
    requires Segmented(bs, segs) && |bs| == |ring| && b < |segs| && k <= |bs|
    requires if segs[b].lo == segs[b].hi then k == |bs| else k == segs[b].lo
    ensures Delimiting(list, ring[..k] + [node] + ring[k..], SegsInsert(segs, b, k), first[b := node],
                       if segs[b].lo == segs[b].hi then last[b := node] else last)
  {
    hide Segmented, FirstOf, LastOf;
    SegmentsDisjoint(bs, segs, b, k);
    var ring', segs' := ring[..k] + [node] + ring[k..], SegsInsert(segs, b, k);
    forall c | 0 <= c < |segs| && c != b
      ensures segs'[c].lo <= segs'[c].hi <= |ring'|
      ensures FirstOf(list, ring', segs'[c]) == FirstOf(list, ring, segs[c])
      ensures LastOf(list, ring', segs'[c]) == LastOf(list, ring, segs[c])
    {
      ShiftedEnds(list, ring, node, segs[c], k);
    }
    OwnEnds(list, ring, node, segs[b], k);
  }

  lemma ShiftedEnds<V>(list: Node<V>, ring: seq<Node<V>>, node: Node<V>, s: Seg, k: nat)
    requires s.lo <= s.hi <= |ring| && k <= |ring| && (s.lo < s.hi ==> s.hi <= k || k <= s.lo)
    ensures var ring', s' := ring[..k] + [node] + ring[k..], Shifted(s, k);
            && s'.lo <= s'.hi <= |ring'|
            && FirstOf(list, ring', s') == FirstOf(list, ring, s)
            && LastOf(list, ring', s') == LastOf(list, ring, s)
  {
  }

  lemma OwnEnds<V>(list: Node<V>, ring: seq<Node<V>>, node: Node<V>, s: Seg, k: nat)
    requires s.lo <= s.hi <= |ring| && k == if s.lo == s.hi then |ring| else s.lo
    ensures var ring', s' := ring[..k] + [node] + ring[k..], Seg(k, if s.lo == s.hi then k + 1 else s.hi + 1);
            && s'.lo < s'.hi <= |ring'|
            && FirstOf(list, ring', s') == node
            && LastOf(list, ring', s') == if s.lo == s.hi then node else LastOf(list, ring, s)
  {
  }

  lemma RemoveDelimits<V>(list: Node<V>, ring: seq<Node<V>>, segs: seq<Seg>, first: seq<Node<V>>, last: seq<Node<V>>,
                          bs: seq<nat>, k: nat)
    requires Delimiting(list, ring, segs, first, last)
    requires Segmented(bs, segs) && |bs| == |ring| && k < |bs|
    ensures var b := bs[k];
            var s, segs' := segs[b], SegsRemove(segs, b, k);
            var f := if s.hi == s.lo + 1 then list else if k == s.lo then ring[k + 1] else first[b];
            var l := if s.hi == s.lo + 1 then list else if k == s.hi - 1 then ring[k - 1] else last[b];
            Delimiting(list, ring[..k] + ring[k + 1..], segs', first[b := f], last[b := l])
  {
    hide Segmented, FirstOf, LastOf;
    var b := bs[k];
    SegmentsAround(bs, segs, k);
    var ring', segs' := ring[..k] + ring[k + 1..], SegsRemove(segs, b, k);
    forall c | 0 <= c < |segs| && c != b
      ensures segs'[c].lo <= segs'[c].hi <= |ring'|
      ensures FirstOf(list, ring', segs'[c]) == FirstOf(list, ring, segs[c])
      ensures LastOf(list, ring', segs'[c]) == LastOf(list, ring, segs[c])
    {
      UnshiftedEnds(list, ring, segs[c], k);
    }
    OwnEndsLeft(list, ring, segs[b], k);
  }

  lemma UnshiftedEnds<V>(list: Node<V>, ring: seq<Node<V>>, s: Seg, k: nat)
    requires s.lo <= s.hi <= |ring| && k < |ring|
    requires if s.lo < s.hi then s.hi <= k || k < s.lo else s.lo == 0
    ensures var ring', s' := ring[..k] + ring[k + 1..], Unshifted(s, k);
            && s'.lo <= s'.hi <= |ring'|
            && FirstOf(list, ring', s') == FirstOf(list, ring, s)
            && LastOf(list, ring', s') == LastOf(list, ring, s)
  {
  }

  lemma OwnEndsLeft<V>(list: Node<V>, ring: seq<Node<V>>, s: Seg, k: nat)
    requires s.lo <= k < s.hi <= |ring|
    ensures var ring', s' := ring[..k] + ring[k + 1..], if s.hi <= s.lo + 1 then Seg(0, 0) else Seg(s.lo, s.hi - 1);
            && s'.lo <= s'.hi <= |ring'|
            && FirstOf(list, ring', s') ==
               (if s.hi == s.lo + 1 then list else if k == s.lo then ring[k + 1] else FirstOf(list, ring, s))
            && LastOf(list, ring', s') ==
               (if s.hi == s.lo + 1 then list else if k == s.hi - 1 then ring[k - 1] else LastOf(list, ring, s))
  {
  }

  /** A node put anywhere into a ring keeps every per-node fact. */
  lemma InsertedNode<V>(ring: seq<Node<V>>, node: Node<V>, k: nat, n: nat)
    requires k <= |ring| && n > 0 && Hashed(ring) && node.hash == HashStr(node.key)
    ensures var ring' := ring[..k] + [node] + ring[k..];
            && Hashed(ring')
            && BucketsOf(ring', n) == BucketsOf(ring, n)[..k] + [node.hash % n] + BucketsOf(ring, n)[k..]
  {
  }

  lemma RemovedNode<V>(ring: seq<Node<V>>, k: nat, n: nat)
    requires k < |ring| && n > 0 && Hashed(ring)
    ensures var ring' := ring[..k] + ring[k + 1..];
            && Hashed(ring')
            && BucketsOf(ring', n) == BucketsOf(ring, n)[..k] + BucketsOf(ring, n)[k + 1..]
  {
  }

  lemma PrimesIncrease()
    ensures forall i :: 0 <= i < |PRIMES| - 1 ==> PRIMES[i] < PRIMES[i + 1]
    ensures |PRIMES| == 29 && PRIMES[0] == 5
  {
  }

  /** Which pairs are stored does not depend on the order of the list. */
  lemma SamePairs<V(!new)>(ring: seq<Node<V>>, ring': seq<Node<V>>, m: map<cstr, Entry<V>>)
    requires Represents(ring, m) && Injective(ring') && |ring'| == |ring|
    requires NodeSet(ring) == NodeSet(ring')
    ensures Represents(ring', m)
  {
    forall x ensures x in ring <==> x in ring' {
      assert x in ring <==> x in NodeSet(ring);
      assert x in ring' <==> x in NodeSet(ring');
    }
    forall i, j | 0 <= i < j < |ring'| ensures ring'[i].key != ring'[j].key {
      assert ring'[i] in ring && ring'[j] in ring && ring'[i] != ring'[j];
    }
    forall i | 0 <= i < |ring'| ensures ring'[i].key in m && Pair(ring'[i]) == m[ring'[i].key] {
      assert ring'[i] in ring;
    }
    forall k | k in m ensures HasKey(ring', k) {
      var i :| 0 <= i < |ring| && ring[i].key == k;
      assert ring[i] in ring';
    }
  }

  lemma AddedKeysDistinct<V>(ring: seq<Node<V>>, node: Node<V>, k: nat)
    requires DistinctKeys(ring) && k <= |ring| && !HasKey(ring, node.key)
    ensures DistinctKeys(ring[..k] + [node] + ring[k..])
    ensures forall c :: HasKey(ring, c) ==> HasKey(ring[..k] + [node] + ring[k..], c)
    ensures HasKey(ring[..k] + [node] + ring[k..], node.key)
  {
    var ring' := ring[..k] + [node] + ring[k..];
    assert ring'[k].key == node.key;
    forall c | HasKey(ring, c) ensures HasKey(ring', c) {
      var i :| 0 <= i < |ring| && ring[i].key == c;
      assert ring'[if i < k then i else i + 1].key == c;
    }
    forall i, j | 0 <= i < j < |ring'| ensures ring'[i].key != ring'[j].key {
      assert i != k ==> ring'[i] == ring[if i < k then i else i - 1];
      assert j != k ==> ring'[j] == ring[if j < k then j else j - 1];
    }
  }

  lemma AddedPair<V(!new)>(ring: seq<Node<V>>, node: Node<V>, k: nat, m: map<cstr, Entry<V>>)
    requires Represents(ring, m) && k <= |ring| && !HasKey(ring, node.key)
    ensures Represents(ring[..k] + [node] + ring[k..], m[node.key := Pair(node)])
  {
    var ring', m' := ring[..k] + [node] + ring[k..], m[node.key := Pair(node)];
    assert forall i :: 0 <= i < |ring| ==> ring[i].key != node.key;
    hide DistinctKeys, HasKey;
    AddedKeysDistinct(ring, node, k);
    assert node.key !in m;
    forall i | 0 <= i < |ring'| ensures ring'[i].key in m' && Pair(ring'[i]) == m'[ring'[i].key] {
      if i != k {
        assert ring'[i] == ring[if i < k then i else i - 1];
      }
    }
  }

  lemma InsertedSet<V>(ring: seq<Node<V>>, node: Node<V>, k: nat)
    requires k <= |ring|
    ensures NodeSet(ring[..k] + [node] + ring[k..]) == NodeSet(ring) + {node}
  {
    assert ring == ring[..k] + ring[k..];
  }

  lemma KeyAbsent<V(!new)>(ring: seq<Node<V>>, m: map<cstr, Entry<V>>, key: cstr)
    requires Represents(ring, m)
    ensures HasKey(ring, key) <==> key in m
  {
  }

  /** pairs lists every key of m exactly once, with its current value. */
  ghost predicate Enumerates<V(!new)>(pairs: seq<(cstr, V)>, m: map<cstr, Entry<V>>) {
    && |pairs| == |m|
    && (forall i :: 0 <= i < |pairs| ==> pairs[i].0 in m && pairs[i].1 == m[pairs[i].0].value)
    && (forall i, j :: 0 <= i < j < |pairs| ==> pairs[i].0 != pairs[j].0)
    && (forall key :: key in m ==> exists i :: 0 <= i < |pairs| && pairs[i].0 == key)
  }

  lemma RingEnumerates<V(!new)>(ring: seq<Node<V>>, m: map<cstr, Entry<V>>, pairs: seq<(cstr, V)>)
    requires Represents(ring, m) && |pairs| == |ring|
    requires forall i :: 0 <= i < |pairs| ==> pairs[i] == (ring[i].key, ring[i].value)
    ensures Enumerates(pairs, m)
  {
    forall key | key in m ensures exists i :: 0 <= i < |pairs| && pairs[i].0 == key {
      var i :| 0 <= i < |ring| && ring[i].key == key;
      assert pairs[i].0 == key;
    }
  }

  function Skip(i: nat, k: nat): nat {
    if i < k then i else i + 1
  }

  lemma RemovedPair<V(!new)>(ring: seq<Node<V>>, k: nat, m: map<cstr, Entry<V>>)
    requires Represents(ring, m) && k < |ring|
    ensures Represents(ring[..k] + ring[k + 1..], m - {ring[k].key})
  {
    var ring', m' := ring[..k] + ring[k + 1..], m - {ring[k].key};
    assert m'.Keys == m.Keys - {ring[k].key};
    assert DistinctKeys(ring') by {
      hide HasKey;
    }
    forall i | 0 <= i < |ring'| ensures ring'[i].key in m' && Pair(ring'[i]) == m'[ring'[i].key] {
      assert ring'[i] == ring[Skip(i, k)];
    }
    forall c | c in m' ensures HasKey(ring', c) {
      var i :| 0 <= i < |ring| && ring[i].key == c;
      assert ring'[if i < k then i else i - 1].key == c;
    }
  }

  lemma ChangedPair<V(!new)>(ring: seq<Node<V>>, m: map<cstr, Entry<V>>, k: nat, e: Entry<V>)
    requires k < |ring| && Pair(ring[k]) == e && |m| == |ring| && DistinctKeys(ring)
    requires forall i :: 0 <= i < |ring| && i != k ==> ring[i].key in m && Pair(ring[i]) == m[ring[i].key]
    requires ring[k].key in m && (forall c :: c in m ==> HasKey(ring, c))
    ensures Represents(ring, m[ring[k].key := e])
  {
    var m' := m[ring[k].key := e];
    assert m'.Keys == m.Keys;
    assert |m'| == |m'.Keys| == |m.Keys| == |m|;
  }

  /** A pair is an end of its bucket just when the bucket's pointer says so. */
  lemma EndsOfBucket<V>(list: Node<V>, ring: seq<Node<V>>, segs: seq<Seg>, first: seq<Node<V>>, last: seq<Node<V>>,
                        n: nat, k: nat)
    requires n > 0 && k < |ring| && list !in ring && Injective(ring)
    requires Delimiting(list, ring, segs, first, last) && Segmented(BucketsOf(ring, n), segs)
    ensures var b := ring[k].hash % n;
            && b < |segs| && segs[b].lo <= k < segs[b].hi <= |ring|
            && (ring[k] == first[b] <==> k == segs[b].lo)
            && (ring[k] == last[b] <==> k == segs[b].hi - 1)
  {
    assert BucketsOf(ring, n)[k] == ring[k].hash % n;
  }

  /** Buckets that all point at the sentinel. */
  method NewBuckets<V>(list: Node<V>, n: nat) returns (first: array<Node<V>>, last: array<Node<V>>)
    ensures fresh(first) && fresh(last) && first != last && first.Length == last.Length == n
    ensures forall b :: 0 <= b < n ==> first[b] == list && last[b] == list
  {
    first := new Node<V>[n](_ => list);
    last := new Node<V>[n](_ => list);
  }

  lemma EmptyTable<V(!new)>(list: Node<V>, n: nat, first: seq<Node<V>>, last: seq<Node<V>>)
    requires n > 0 && |first| == |last| == n
    requires forall b :: 0 <= b < n ==> first[b] == list && last[b] == list
    ensures Segmented(BucketsOf<V>([], n), seq(n, _ => Seg(0, 0))) && Hashed<V>([]) && Represents<V>([], map[])
    ensures Delimiting(list, [], seq(n, _ => Seg(0, 0)), first, last)
  {
  }

  lemma NotYetMoved<V>(ring: seq<Node<V>>, all: seq<Node<V>>, p: nat)
    requires p <= |all| && Injective(all) && NodeSet(ring) == NodeSet(all[..p])
    ensures forall i :: p <= i < |all| ==> all[i] !in ring
  {
    assert forall x :: x in ring ==> x in NodeSet(ring);
  }

  lemma MovedNodesKnown<V>(list: Node<V>, ring: seq<Node<V>>, all: seq<Node<V>>, p: nat)
    requires p <= |all| && NodeSet(ring) == NodeSet(all[..p])
    ensures Owned(list, ring) <= Owned(list, all)
    ensures forall i :: 0 <= i < |all| ==> all[i] in Owned(list, all)
  {
    assert NodeSet(all[..p]) <= NodeSet(all);
  }

  lemma OneMoreMoved<V>(ring: seq<Node<V>>, all: seq<Node<V>>, p: nat, k: nat)
    requires p < |all| && k <= |ring| && NodeSet(ring) == NodeSet(all[..p])
    ensures NodeSet(ring[..k] + [all[p]] + ring[k..]) == NodeSet(all[..p + 1])
  {
    assert ring == ring[..k] + ring[k..];
    assert NodeSet(ring[..k] + [all[p]] + ring[k..]) == NodeSet(ring) + {all[p]};
    assert all[..p + 1] == all[..p] + [all[p]];
  }

  // ---------- what the table stores ----------

  /** A key already present keeps its serial number. */
  function SetIn<V>(m: map<cstr, Entry<V>>, key: cstr, serial: nat, value: V): map<cstr, Entry<V>> {
    m[key := Entry(if key in m then m[key].serial else serial, value)]
  }

  datatype Op<V> = DoSet(key: cstr, serial: nat, value: V) | DoDel(key: cstr) | DoClear

  function Do<V>(m: map<cstr, Entry<V>>, op: Op<V>): map<cstr, Entry<V>> {
    match op
    case DoSet(key, serial, value) => SetIn(m, key, serial, value)
    case DoDel(key) => m - {key}
    case DoClear => map[]
  }

  function Run<V>(m: map<cstr, Entry<V>>, ops: seq<Op<V>>): map<cstr, Entry<V>>
    decreases |ops|
  {
    if ops == [] then m else Run(Do(m, ops[0]), ops[1..])
  }

  lemma RunStep<V>(m: map<cstr, Entry<V>>, ops: seq<Op<V>>)
    ensures Run(m, ops) == if ops == [] then m else Run(Do(m, ops[0]), ops[1..])
  {
  }

  class HashTable<V(0,!new)> {
    var size: nat
    var primeIndex: nat
    var first: array<Node<V>>
    var last: array<Node<V>>
    const list: Node<V>

    ghost var ring: seq<Node<V>>
    ghost var segs: seq<Seg>
    ghost var contents: map<cstr, Entry<V>>

    ghost predicate Shape()
      reads `primeIndex, `first, `last, `ring, `segs, first, last
      reads Owned(list, ring)`next, Owned(list, ring)`prev
    {
      && primeIndex < |PRIMES|
      && |segs| == PRIMES[primeIndex]
      && Circular(list, ring)
      && Hashed(ring)
      && Segmented(BucketsOf(ring, PRIMES[primeIndex]), segs)
      && first != last
      && first.Length == last.Length == |segs|
      && Delimiting(list, ring, segs, first[..], last[..])
    }

    ghost predicate Valid()
      reads this, first, last, list, ring
    {
      && Shape()
      && size == |ring| <= PRIMES[primeIndex]
      && Represents(ring, contents)
    }

    function NumBuckets(): (n: nat)
      requires primeIndex < |PRIMES|
      reads this
      ensures n > 0
    {
      PRIMES[primeIndex]
    }

    constructor ()
      ensures Valid() && contents == map[]
      ensures fresh(first) && fresh(last) && fresh(list)
    {
      size, primeIndex := 0, 0;
      var v: V := *;
      var sentinel := new Node([], HashStr([]), 0, v);
      list := sentinel;
      first := new Node<V>[PRIMES[0]](_ => sentinel);
      last := new Node<V>[PRIMES[0]](_ => sentinel);
      ring, segs, contents := [], seq(PRIMES[0], _ => Seg(0, 0)), map[];
    }

    method BucketIsEmpty(b: nat) returns (r: bool)
      requires Shape() && b < |segs|
      ensures r == (segs[b].lo == segs[b].hi)
    {
      r := first[b] == list && first[b] == last[b];
    }

    method FindPair(b: nat, key: cstr, hash: nat) returns (pair: Node?<V>, ghost k: nat)
      requires Shape() && hash == HashStr(key) && b == hash % PRIMES[primeIndex]
      ensures pair == null <==> !HasKey(ring, key)
      ensures pair != null ==> k < |ring| && pair == ring[k] && pair.key == key
    {
      var empty := BucketIsEmpty(b);
      ghost var bs := BucketsOf(ring, PRIMES[primeIndex]);
      k := segs[b].lo;
      if empty {
        forall i | 0 <= i < |ring| ensures ring[i].key != key { assert bs[i] == ring[i].hash % PRIMES[primeIndex]; }
        return null, k;
      }
      var node := first[b];
      while true
        invariant segs[b].lo <= k < segs[b].hi && node == ring[k]
        invariant forall i :: segs[b].lo <= i < k ==> ring[i].key != key
        decreases segs[b].hi - k
      {
        if node.hash == hash && node.key == key {
          return node, k;
        }
        if node == last[b] {
          assert ring[segs[b].hi - 1] == node;
          break;
        }
        node := node.next;
        k := k + 1;
      }
      forall i | 0 <= i < |ring| ensures ring[i].key != key { assert bs[i] == ring[i].hash % PRIMES[primeIndex]; }
      return null, k;
    }

    /** Links node into the list in front of bucket b, and moves the bucket's pointers. */
    method LinkNode(b: nat, node: Node<V>, ghost k: nat)
      requires first != last && b < |segs| && Circular(list, ring) && node != list && node !in ring
      requires Delimiting(list, ring, segs, first[..], last[..])
      requires k == if segs[b].lo == segs[b].hi then |ring| else segs[b].lo
      modifies first, last, node`next, node`prev, Owned(list, ring)`next, Owned(list, ring)`prev
      ensures Circular(list, ring[..k] + [node] + ring[k..])
      ensures first[..] == old(first[..])[b := node]
      ensures last[..] == if segs[b].lo == segs[b].hi then old(last[..])[b := node] else old(last[..])
    {
      assert first[b] == FirstOf(list, ring, segs[b]) && last[b] == LastOf(list, ring, segs[b]);
      if first[b] == list && first[b] == last[b] {
        ListInsert(list, node, list, ring, k);
        first[b], last[b] := node, node;
      } else {
        ListInsert(first[b], node, list, ring, k);
        first[b] := node;
      }
    }

    /** Puts node in front of its bucket, or at the end of the list when the bucket is empty. */
    method InsertToBucket(b: nat, node: Node<V>) returns (ghost k: nat)
      requires Shape() && node != list && node !in ring
      requires node.hash == HashStr(node.key) && b == node.hash % PRIMES[primeIndex]
      modifies `ring, `segs, first, last, node`next, node`prev
      modifies Owned(list, ring)`next, Owned(list, ring)`prev
      ensures Shape()
      ensures k <= |old(ring)| && ring == old(ring)[..k] + [node] + old(ring)[k..]
    {
      hide Circular, Delimiting;
      ghost var bs := BucketsOf(ring, PRIMES[primeIndex]);
      k := if segs[b].lo == segs[b].hi then |ring| else segs[b].lo;
      ghost var ring', segs' := ring[..k] + [node] + ring[k..], SegsInsert(segs, b, k);
      assert Segmented(BucketsOf(ring', PRIMES[primeIndex]), segs') && Hashed(ring') by {
        InsertKeepsSegments(bs, segs, b, k);
        InsertedNode(ring, node, k, PRIMES[primeIndex]);
      }
      InsertDelimits(list, ring, segs, first[..], last[..], bs, node, b, k);
      LinkNode(b, node, k);
      ring, segs := ring', segs';
      assert Circular(list, ring');
    }

    /** The first p nodes of all have been put into the new buckets, the others still carry their old links. */
    ghost predicate Moving(all: seq<Node<V>>, p: nat)
      requires p <= |all|
      reads this, first, last, list, ring, all
    {
      && Shape()
      && list !in all && Injective(all) && Hashed(all)
      && |ring| == p && NodeSet(ring) == NodeSet(all[..p])
      && Linked(list, all, p)
    }

    method MoveNode(node: Node<V>, ghost all: seq<Node<V>>, ghost p: nat)
      requires p < |all| && node == all[p] && Moving(all, p)
      modifies `ring, `segs, first, last, Owned(list, all)`next, Owned(list, all)`prev
      ensures Moving(all, p + 1)
    {
      NotYetMoved(ring, all, p);
      MovedNodesKnown(list, ring, all, p);
      ghost var ring0 := ring;
      ghost var k := InsertToBucket(node.hash % PRIMES[primeIndex], node);
      OneMoreMoved(ring0, all, p, k);
      assert Linked(list, all, p + 1);
    }

    /** Replaces the buckets by the next larger, empty array and detaches the list. */
    method StartRehash() returns (node: Node<V>)
      requires Shape() && primeIndex + 1 < |PRIMES|
      modifies `primeIndex, `first, `last, `ring, `segs, list`next, list`prev
      ensures primeIndex == old(primeIndex) + 1 && fresh(first) && fresh(last)
      ensures node == At(list, old(ring), 0) && Moving(old(ring), 0)
    {
      hide Circular, Segmented, Delimiting, Hashed, Injective, NodeSet;
      CircularLinks(list, ring);
      primeIndex := primeIndex + 1;
      var n := PRIMES[primeIndex];
      first, last := NewBuckets(list, n);
      node := list.next;
      ListInit(list);
      ring, segs := [], seq(n, _ => Seg(0, 0));
      EmptyTable<V>(list, n, first[..], last[..]);
    }

    /** Moves every pair to the next larger bucket array; each pair stays stored. */
    method Rehash()
      requires Shape() && primeIndex + 1 < |PRIMES|
      modifies `primeIndex, `first, `last, `ring, `segs, Owned(list, ring)`next, Owned(list, ring)`prev
      ensures Shape() && fresh(first) && fresh(last)
      ensures primeIndex == old(primeIndex) + 1
      ensures |ring| == |old(ring)| && NodeSet(ring) == NodeSet(old(ring)) && Injective(ring)
    {
      ghost var all := ring;
      var node := StartRehash();
      ghost var p := 0;
      while node != list
        invariant 0 <= p <= |all| && node == At(list, all, p) && Moving(all, p)
        invariant primeIndex == old(primeIndex) + 1 && fresh(first) && fresh(last)
        decreases |all| - p
      {
        var next := node.next;
        MoveNode(node, all, p);
        node := next;
        p := p + 1;
      }
      assert all[..p] == all;
    }

    /** A new key's node goes into its bucket. */
    method AddPair(key: cstr, hash: nat, serial: nat, value: V)
      requires Shape() && Represents(ring, contents) && size == |ring| < PRIMES[primeIndex]
      requires !HasKey(ring, key) && hash == HashStr(key)
      modifies `ring, `segs, `size, `contents, first, last, Owned(list, ring)`next, Owned(list, ring)`prev
      ensures Valid() && contents == old(contents)[key := Entry(serial, value)] && size == old(size) + 1
      ensures fresh(NodeSet(ring) - NodeSet(old(ring)))
    {
      hide Circular, Segmented, Delimiting, Hashed, Represents;
      var node := new Node(key, hash, serial, value);
      ghost var ring0 := ring;
      ghost var k := InsertToBucket(hash % PRIMES[primeIndex], node);
      AddedPair(ring0, node, k, contents);
      InsertedSet(ring0, node, k);
      size := size + 1;
      contents := contents[key := Entry(serial, value)];
      assert Represents(ring, contents);
      assert Shape();
    }

    /** Rehashes if the load ratio would exceed 1. */
    method MakeRoom()
      requires Valid() && size < PRIMES[|PRIMES| - 1]
      modifies `primeIndex, `first, `last, `ring, `segs, Owned(list, ring)`next, Owned(list, ring)`prev
      ensures Valid() && size < PRIMES[primeIndex]
      ensures NodeSet(ring) == NodeSet(old(ring))
      ensures (first == old(first) && last == old(last)) || (fresh(first) && fresh(last))
    {
      hide Circular, Segmented, Delimiting, Hashed, Represents, DistinctKeys;
      PrimesIncrease();
      if size >= NumBuckets() {
        ghost var all := ring;
        Rehash();
        SamePairs(all, ring, contents);
      }
    }

    /** The pair stored under key, with its position in the list. */
    method Lookup(key: cstr) returns (pair: Node?<V>, hash: nat, ghost k: nat)
      requires Valid()
      ensures Valid() && hash == HashStr(key)
      ensures pair == null <==> key !in contents
      ensures pair == null <==> !HasKey(ring, key)
      ensures pair != null ==> k < |ring| && pair == ring[k] && pair.key == key
    {
      hide Circular, Segmented, Delimiting, Hashed, Represents, DistinctKeys;
      assert Shape();
      KeyAbsent(ring, contents, key);
      hash := ComputeHash(key);
      assert forall x :: x in Owned(list, ring) ==> x.next == old(x.next);
      pair, k := FindPair(hash % NumBuckets(), key, hash);
      assert forall x :: x in Owned(list, ring) ==> x.next == old(x.next);
    }

    /** Stores value under key; a key already present keeps its place and its serial number. */
    method Set(key: cstr, serial: nat, value: V)
      requires Valid() && size < PRIMES[|PRIMES| - 1]
      modifies this, first, last, Owned(list, ring)
      ensures Valid()
      ensures contents == SetIn(old(contents), key, serial, value) && size <= old(size) + 1
      ensures (first == old(first) && last == old(last)) || (fresh(first) && fresh(last))
      ensures fresh(NodeSet(ring) - NodeSet(old(ring)))
    {
      hide Circular, Segmented, Delimiting, Hashed, Represents, DistinctKeys;
      MakeRoom();
      var pair, hash, k := Lookup(key);
      if pair != null {
        SetValue(pair, k, value);
      } else {
        AddPair(key, hash, serial, value);
      }
    }

    method SetValue(pair: Node<V>, ghost k: nat, value: V)
      requires Valid() && k < |ring| && pair == ring[k]
      modifies `contents, pair`value
      ensures Valid()
      ensures pair.key in old(contents)
      ensures contents == old(contents)[pair.key := Entry(old(contents)[pair.key].serial, value)]
    {
      hide Circular, Segmented, Delimiting, Hashed;
      pair.value := value;
      ghost var e := Entry(contents[pair.key].serial, value);
      ChangedPair(ring, contents, k, e);
      contents := contents[pair.key := e];
    }

    /** The value stored under key, if any. */
    method Get(key: cstr) returns (r: Option<V>)
      requires Valid()
      ensures r == if key in contents then Some(contents[key].value) else None
    {
      hide Circular, Segmented, Delimiting, Hashed;
      var pair, hash, k := Lookup(key);
      if pair == null {
        return None;
      }
      return Some(pair.value);
    }

    /** Moves bucket b's pointers off the pair at position k, then unlinks the pair. */
    method UnlinkPair(b: nat, pair: Node<V>, ghost k: nat)
      requires Shape() && k < |ring| && pair == ring[k] && b == pair.hash % PRIMES[primeIndex]
      modifies first, last, Owned(list, ring)`next, Owned(list, ring)`prev
      ensures Circular(list, ring[..k] + ring[k + 1..])
      ensures Delimiting(list, ring[..k] + ring[k + 1..], SegsRemove(segs, b, k), first[..], last[..])
    {
      hide Segmented, Hashed, SegsRemove;
      RemoveDelimits(list, ring, segs, first[..], last[..], BucketsOf(ring, PRIMES[primeIndex]), k);
      EndsOfBucket(list, ring, segs, first[..], last[..], PRIMES[primeIndex], k);
      if pair == first[b] && pair == last[b] {
        first[b], last[b] := list, list;
      } else if pair == first[b] {
        first[b] := pair.next;
      } else if pair == last[b] {
        last[b] := pair.prev;
      }
      ListRemove(pair, list, ring, k);
    }

    method RemovePair(b: nat, pair: Node<V>, ghost k: nat)
      requires Valid() && k < |ring| && pair == ring[k] && b == pair.hash % PRIMES[primeIndex]
      modifies `size, `ring, `segs, `contents, first, last, Owned(list, ring)`next, Owned(list, ring)`prev
      ensures Valid() && contents == old(contents) - {pair.key} && size == old(size) - 1
      ensures NodeSet(ring) <= NodeSet(old(ring))
    {
      hide Circular, Delimiting, Segmented, Hashed, Represents;
      ghost var n := PRIMES[primeIndex];
      ghost var ring', segs' := ring[..k] + ring[k + 1..], SegsRemove(segs, b, k);
      assert Segmented(BucketsOf(ring', n), segs') && Hashed(ring') by {
        RemoveKeepsSegments(BucketsOf(ring, n), segs, k);
        RemovedNode(ring, k, n);
      }
      UnlinkPair(b, pair, k);
      assert Represents(ring, contents);
      RemovedPair(ring, k, contents);
      assert Represents(ring', contents - {ring[k].key});
      ring, segs, size, contents := ring', segs', size - 1, contents - {pair.key};
      assert Circular(list, ring');
    }

    /** Removes key: 0 when it was present, -1 when it was not. */
    method Del(key: cstr) returns (status: int)
      requires Valid()
      modifies `size, `ring, `segs, `contents, first, last, Owned(list, ring)`next, Owned(list, ring)`prev
      ensures Valid() && contents == old(contents) - {key} && size <= old(size)
      ensures status == if key in old(contents) then 0 else -1
      ensures NodeSet(ring) <= NodeSet(old(ring))
    {
      hide Circular, Segmented, Delimiting, Represents;
      var pair, hash, k := Lookup(key);
      if pair == null {
        assert contents - {key} == contents;
        return -1;
      }
      RemovePair(hash % NumBuckets(), pair, k);
      return 0;
    }

    method EmptyBuckets()
      requires first != last && first.Length == last.Length
      modifies first, last
      ensures forall b :: 0 <= b < first.Length ==> first[b] == list && last[b] == list
    {
      var i := 0;
      while i < first.Length
        invariant 0 <= i <= first.Length
        invariant forall b :: 0 <= b < i ==> first[b] == list && last[b] == list
      {
        first[i], last[i] := list, list;
        i := i + 1;
      }
    }

    /** Empties every bucket and the list. */
    method Clear()
      requires Valid()
      modifies `size, `ring, `segs, `contents, first, last, list`next, list`prev
      ensures Valid() && contents == map[] && ring == [] && size == 0
    {
      hide Circular, Delimiting, Segmented, Hashed, Represents;
      ghost var n := PRIMES[primeIndex];
      EmptyBuckets();
      ListInit(list);
      size := 0;
      ring, segs, contents := [], seq(n, _ => Seg(0, 0)), map[];
      EmptyTable<V>(list, n, first[..], last[..]);
    }

    /** After any run of operations the table stores what the run makes of a map, each operation a map update. */
    method Perform(ops: seq<Op<V>>)
      requires Valid() && size + |ops| <= PRIMES[|PRIMES| - 1]
      modifies this, first, last, Owned(list, ring)
      ensures Valid() && contents == Run(old(contents), ops)
      ensures (first == old(first) && last == old(last)) || (fresh(first) && fresh(last))
      ensures fresh(NodeSet(ring) - NodeSet(old(ring)))
    {
      hide Shape, Represents, Run;
      ghost var m := contents;
      assert ops[0..] == ops;
      for i := 0 to |ops|
        invariant Valid() && Run(contents, ops[i..]) == Run(m, ops) && size + (|ops| - i) <= PRIMES[|PRIMES| - 1]
        invariant (first == old(first) && last == old(last)) || (fresh(first) && fresh(last))
        invariant fresh(NodeSet(ring) - NodeSet(old(ring)))
      {
        ghost var before := contents;
        RunStep(contents, ops[i..]);
        assert ops[i..][0] == ops[i] && ops[i..][1..] == ops[i + 1..];
        match ops[i] {
          case DoSet(key, serial, value) => Set(key, serial, value);
          case DoDel(key) => var _ := Del(key);
          case DoClear => Clear();
        }
        assert contents == Do(before, ops[i]);
      }
      RunStep(contents, ops[|ops|..]);
    }

    /** The node after one already visited (the sentinel is before the first), or null at the end. */
    function IterNext(node: Node<V>): (next: Node?<V>)
      reads node
    {
      if node.next == list then null else node.next
    }

    /** One pass of the iterator: every stored pair exactly once, in list order. */
    method Iterate() returns (pairs: seq<(cstr, V)>)
      requires Valid()
      ensures Enumerates(pairs, contents)
    {
      hide Segmented, Delimiting, Hashed, Represents, Enumerates;
      pairs := [];
      var node := IterNext(list);
      while node != null
        invariant |pairs| <= |ring| && node == if |pairs| < |ring| then ring[|pairs|] else null
        invariant forall i :: 0 <= i < |pairs| ==> pairs[i] == (ring[i].key, ring[i].value)
        decreases |ring| - |pairs|
      {
        pairs := pairs + [(node.key, node.value)];
        node := IterNext(node);
      }
      RingEnumerates(ring, contents, pairs);
    }
  }
}
