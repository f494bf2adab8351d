/** JSON arrays, which grow as values are added, and objects, which number their keys as they are added. */
module JsonContainers {
  import opened Bytes
  import H = HashTable
  import JsonPrinter
  import Utf8
  import opened Wrappers

  // ---------- arrays ----------

  /** An array refuses to hold itself: self is the value it is known as. */
  class JsonArray<V(==)> {
    const self: V
    var table: array<V>
    var entries: nat

    ghost predicate Valid()
      reads this
    {
      entries <= table.Length && table.Length > 0
    }

    ghost function Contents(): seq<V>
      requires Valid()
      reads this, table
    {
      table[..entries]
    }

    constructor (self: V, filler: V)
      ensures Valid() && Contents() == [] && this.self == self && fresh(table)
    {
      this.self := self;
      table := new V[8](_ => filler);
      entries := 0;
    }

    /** Makes room for amount more values, at least doubling the table; the values are in source afterwards. */
    method Grow(amount: nat, copy: bool) returns (source: array<V>)
      requires Valid()
      modifies `table
      ensures Valid() && entries + amount <= table.Length && (table == old(table) || fresh(table))
      ensures table != old(table) ==> table.Length >= 2 * old(table).Length
      ensures source == table || (!copy && source == old(table))
      ensures entries <= source.Length && source[..entries] == old(Contents())
    {
      if entries + amount <= table.Length {
        return table;
      }
      source := table;
      var size := if source.Length + amount > source.Length * 2 then source.Length + amount else source.Length * 2;
      var filler := source[0];
      table := new V[size](_ => filler);
      if copy {
        forall i | 0 <= i < entries {
          table[i] := source[i];
        }
        source := table;
      }
    }

    method Append(value: V) returns (status: int)
      requires Valid()
      modifies this, table
      ensures Valid() && (table == old(table) || fresh(table))
      ensures if value == self then status == -1 && Contents() == old(Contents())
              else status == 0 && Contents() == old(Contents()) + [value]
    {
      if value == self {
        return -1;
      }
      var source := Grow(1, true);
      table[entries] := value;
      entries := entries + 1;
      status := 0;
    }

    /** Inserts value at index, moving the values from there on up; fails past the end and on the array itself. */
    method Insert(index: nat, value: V) returns (status: int)
      requires Valid()
      modifies this, table
      ensures Valid() && (table == old(table) || fresh(table))
      ensures if value == self || index > |old(Contents())| then status == -1 && Contents() == old(Contents())
              else status == 0 && Contents() == old(Contents())[..index] + [value] + old(Contents())[index..]
    {
      if value == self {
        return -1;
      }
      if index > entries {
        return -1;
      }
      ghost var before := Contents();
      var source := Grow(1, false);
      if source != table {
        CopyAround(source, index);
      } else {
        MoveUp(index);
      }
      table[index] := value;
      entries := entries + 1;
      ghost var after := table[..entries];
      assert after[..index] == table[..index] && after[index + 1..] == table[index + 1..entries];
      Inserted(table[..entries], before, index, value);
      status := 0;
    }

    method CopyAround(source: array<V>, index: nat)
      requires source != table && index <= entries < table.Length && entries <= source.Length
      modifies table
      ensures table[..index] == source[..index] && table[index + 1..entries + 1] == source[index..entries]
    {
      forall i | 0 <= i < index {
        table[i] := source[i];
      }
      assert table[..index] == source[..index];
      forall i | index <= i < entries {
        table[i + 1] := source[i];
      }
      assert forall i :: index <= i < entries ==> table[i + 1] == source[i];
    }

    method MoveUp(index: nat)
      requires index <= entries < table.Length
      modifies table
      ensures table[..index] == old(table[..index]) && table[index + 1..entries + 1] == old(table[index..entries])
    {
      forall i | index <= i < entries {
        table[i + 1] := table[i];
      }
      assert forall i :: index <= i < entries ==> table[i + 1] == old(table[i]);
    }
  }

  lemma Inserted<T>(t: seq<T>, before: seq<T>, index: nat, value: T)
    requires index <= |before| && |t| == |before| + 1
    requires t[..index] == before[..index] && t[index] == value && t[index + 1..] == before[index..]
    ensures t == before[..index] + [value] + before[index..]
  {
    assert t == t[..index] + [t[index]] + t[index + 1..];
  }

  // ---------- objects ----------

  type Members<V> = map<cstr, H.Entry<V>>

  /** The keys are in m, with ascending serial numbers. */
  ghost predicate Rising<V>(order: seq<cstr>, m: Members<V>) {
    && (forall i :: 0 <= i < |order| ==> order[i] in m)
    && (forall i, j :: 0 <= i < j < |order| ==> m[order[i]].serial < m[order[j]].serial)
  }

  /** order lists the keys by ascending serial numbers, all below next. */
  ghost predicate InOrder<V>(order: seq<cstr>, m: Members<V>, next: nat) {
    Rising(order, m) && forall k :: k in m ==> k in order && m[k].serial < next
  }

  function Without(order: seq<cstr>, key: cstr): (r: seq<cstr>)
    ensures forall k :: k in r <==> k in order && k != key
  {
    if order == [] then [] else (if order[0] == key then [] else [order[0]]) + Without(order[1..], key)
  }

  lemma AddedInOrder<V>(order: seq<cstr>, m: Members<V>, next: nat, key: cstr, value: V)
    requires InOrder(order, m, next)
    ensures var serial := if key in m then m[key].serial else next;
            InOrder(if key in m then order else order + [key], m[key := H.Entry(serial, value)], next + 1)
  {
  }

  lemma RemovedInOrder<V>(order: seq<cstr>, m: Members<V>, next: nat, key: cstr)
    requires InOrder(order, m, next)
    ensures InOrder(Without(order, key), m - {key}, next)
  {
    RisingWithout(order, m, key);
    var r := Without(order, key);
    assert forall i :: 0 <= i < |r| ==> r[i] in r;
  }

  lemma {:induction false} RisingWithout<V>(order: seq<cstr>, m: Members<V>, key: cstr)
    requires Rising(order, m)
    ensures Rising(Without(order, key), m)
    decreases |order|
  {
    if order != [] {
      RisingRest(order, m);
      RisingWithout(order[1..], m, key);
      if order[0] != key {
        RisingCons(order[0], Without(order[1..], key), m);
      }
    }
  }

  lemma RisingRest<V>(order: seq<cstr>, m: Members<V>)
    requires order != [] && Rising(order, m)
    ensures order[0] in m && Rising(order[1..], m) && forall k :: k in order[1..] ==>
            k in m && m[order[0]].serial < m[k].serial
  {
  }

  lemma RisingCons<V>(x: cstr, r: seq<cstr>, m: Members<V>)
    requires x in m && Rising(r, m) && forall k :: k in r ==> k in m && m[x].serial < m[k].serial
    ensures Rising([x] + r, m)
  {
    assert forall i :: 0 <= i < |r| ==> r[i] in r;
  }

  /** An object refuses to hold itself, as an array does. */
  class JsonObject<V(0,==,!new)> {
    const self: V
    const table: H.HashTable<V>
    var serial: nat

    /** The keys in the order in which they were first added. */
    ghost var order: seq<cstr>

    ghost predicate Valid()
      reads this, table, table.first, table.last, table.list, table.ring
    {
      table.Valid() && InOrder(order, table.contents, serial)
    }

    constructor (self: V)
      ensures Valid() && table.contents == map[] && order == [] && serial == 0 && this.self == self
      ensures fresh(table) && fresh(table.first) && fresh(table.last) && fresh(table.list)
    {
      this.self := self;
      table := new H.HashTable<V>();
      serial, order := 0, [];
    }

    /** Stores value under key; a new key comes last. */
    method SetNoCheck(key: cstr, value: V) returns (status: int)
      requires Valid() && table.size < H.PRIMES[|H.PRIMES| - 1]
      modifies `serial, `order, table, table.first, table.last, H.Owned(table.list, table.ring)
      ensures Valid() && status == if value == self then -1 else 0
      ensures table.contents == if status == 0 then H.SetIn(old(table.contents), key, old(serial), value)
              else old(table.contents)
      ensures order == if status == 0 && key !in old(table.contents) then old(order) + [key] else old(order)
      ensures serial == if status == 0 then old(serial) + 1 else old(serial)
      ensures (table.first == old(table.first) && table.last == old(table.last))
              || (fresh(table.first) && fresh(table.last))
      ensures fresh(H.NodeSet(table.ring) - H.NodeSet(old(table.ring)))
    {
      hide H.HashTable.Valid, InOrder;
      if value == self {
        return -1;
      }
      var s := serial;
      serial := serial + 1;
      AddedInOrder(order, table.contents, s, key, value);
      order := if key in table.contents then order else order + [key];
      table.Set(key, s, value);
      status := 0;
    }

    /** The same for keys from outside, which must be valid UTF-8. */
    method Set(key: cstr, value: V) returns (status: int)
      requires Valid() && table.size < H.PRIMES[|H.PRIMES| - 1]
      modifies `serial, `order, table, table.first, table.last, H.Owned(table.list, table.ring)
      ensures Valid() && status == if !Utf8.ValidString(key) || value == self then -1 else 0
      ensures table.contents == if status == 0 then H.SetIn(old(table.contents), key, old(serial), value)
              else old(table.contents)
      ensures order == if status == 0 && key !in old(table.contents) then old(order) + [key] else old(order)
      ensures serial == if status == 0 then old(serial) + 1 else old(serial)
      ensures (table.first == old(table.first) && table.last == old(table.last))
              || (fresh(table.first) && fresh(table.last))
      ensures fresh(H.NodeSet(table.ring) - H.NodeSet(old(table.ring)))
    {
      hide H.HashTable.Valid, InOrder;
      var ok := Utf8.CheckString(key);
      if !ok {
        return -1;
      }
      status := SetNoCheck(key, value);
    }

    method Get(key: cstr) returns (r: Option<V>)
      requires Valid()
      ensures r == if key in table.contents then Some(table.contents[key].value) else None
    {
      r := table.Get(key);
    }

    method Del(key: cstr) returns (status: int)
      requires Valid()
      modifies `order, table`size, table`ring, table`segs, table`contents, table.first, table.last
      modifies H.Owned(table.list, table.ring)`next, H.Owned(table.list, table.ring)`prev
      ensures Valid() && table.contents == old(table.contents) - {key} && order == Without(old(order), key)
      ensures status == if key in old(table.contents) then 0 else -1
      ensures H.NodeSet(table.ring) <= H.NodeSet(old(table.ring))
    {
      hide H.HashTable.Valid, InOrder;
      RemovedInOrder(order, table.contents, serial, key);
      order := Without(order, key);
      status := table.Del(key);
    }

    method Clear()
      requires Valid()
      modifies `serial, `order, table`size, table`ring, table`segs, table`contents, table.first, table.last
      modifies table.list`next, table.list`prev
      ensures Valid() && table.contents == map[] && table.ring == [] && order == [] && serial == 0
    {
      hide H.HashTable.Valid;
      table.Clear();
      serial, order := 0, [];
    }
  }

  // ---------- insertion order ----------

  /** ms lists the members of m, each once, with their serial numbers. */
  ghost predicate Lists<V>(ms: seq<JsonPrinter.Member<V>>, m: Members<V>) {
    && JsonPrinter.Distinct(ms)
    && (forall i :: 0 <= i < |ms| ==> ms[i].key in m && ms[i].serial == m[ms[i].key].serial)
    && (forall k :: k in m ==> exists i :: 0 <= i < |ms| && ms[i].key == k)
  }

  /** Sorting by serial number brings the keys into the order in which they were first added. */
  lemma SerialsGiveInsertionOrder<V>(ms: seq<JsonPrinter.Member<V>>, order: seq<cstr>, m: Members<V>, next: nat)
    requires Lists(ms, m) && InOrder(order, m, next)
    ensures var r := JsonPrinter.Sort(ms, false);
            |r| == |order| && forall i :: 0 <= i < |r| ==> r[i].key == order[i]
  {
    hide InOrder, Lists, Ranked;
    SortRanks(ms, m);
    SameOrder(JsonPrinter.Sort(ms, false), order, m, next, 0);
  }

  lemma SortRanks<V>(ms: seq<JsonPrinter.Member<V>>, m: Members<V>)
    requires Lists(ms, m)
    ensures Ranked(JsonPrinter.Sort(ms, false), m)
  {
    hide JsonPrinter.Sort, JsonPrinter.Ascending;
    var r := JsonPrinter.Sort(ms, false);
    JsonPrinter.SortSorts(ms, false);
    forall i | 0 <= i < |r| ensures r[i].key in m && r[i].serial == m[r[i].key].serial {
      assert r[i] in ms;
    }
    forall k | k in m ensures exists i :: 0 <= i < |r| && r[i].key == k {
      var i :| 0 <= i < |ms| && ms[i].key == k;
      assert ms[i] in r;
    }
    forall i, j | 0 <= i < j < |r| ensures r[i].serial < r[j].serial {
      AscendingApart(r, i, j);
    }
  }

  lemma {:induction false} AscendingApart<V>(r: seq<JsonPrinter.Member<V>>, i: nat, j: nat)
    requires JsonPrinter.Ascending(r, false) && i < j < |r|
    ensures r[i].serial < r[j].serial
    decreases j
  {
    assert JsonPrinter.Before(r[j - 1], r[j], false);
    if i < j - 1 {
      AscendingApart(r, i, j - 1);
    }
  }

  /** A listing of m's keys by ascending serial numbers. */
  ghost predicate Ranked<V>(r: seq<JsonPrinter.Member<V>>, m: Members<V>) {
    && (forall i :: 0 <= i < |r| ==> r[i].key in m && r[i].serial == m[r[i].key].serial)
    && (forall i, j :: 0 <= i < j < |r| ==> r[i].serial < r[j].serial)
    && (forall c :: c in m ==> exists i :: 0 <= i < |r| && r[i].key == c)
  }

  /** Two listings of the same keys by ascending serial numbers agree. */
  lemma {:induction false} SameOrder<V>(r: seq<JsonPrinter.Member<V>>, order: seq<cstr>, m: Members<V>, next: nat,
                                        k: nat)
    requires InOrder(order, m, next) && Ranked(r, m)
    requires k <= |r| && k <= |order| && forall i :: 0 <= i < k ==> r[i].key == order[i]
    ensures |r| == |order| && forall i :: 0 <= i < |r| ==> r[i].key == order[i]
    decreases |r| - k
  {
    hide InOrder, Ranked;
    if k < |order| {
      NextAgrees(r, order, m, next, k);
      SameOrder(r, order, m, next, k + 1);
    } else {
      NothingAfter(r, order, m, next);
    }
  }

  lemma OrderHas<V>(order: seq<cstr>, m: Members<V>, next: nat, key: cstr) returns (j: nat)
    requires InOrder(order, m, next) && key in m
    ensures j < |order| && order[j] == key
  {
    assert key in order;
    j :| 0 <= j < |order| && order[j] == key;
  }

  lemma RankedHas<V>(r: seq<JsonPrinter.Member<V>>, m: Members<V>, key: cstr) returns (i: nat)
    requires Ranked(r, m) && key in m
    ensures i < |r| && r[i].key == key
  {
    i :| 0 <= i < |r| && r[i].key == key;
  }

  lemma RankedAt<V>(r: seq<JsonPrinter.Member<V>>, m: Members<V>, i: nat, j: nat)
    requires Ranked(r, m) && i <= j < |r|
    ensures r[i].key in m && r[j].key in m && r[i].serial == m[r[i].key].serial
    ensures r[i].serial <= r[j].serial && (i < j ==> r[i].key != r[j].key)
  {
  }

  lemma RisingAt<V>(order: seq<cstr>, m: Members<V>, i: nat, j: nat)
    requires Rising(order, m) && i <= j < |order|
    ensures order[i] in m && order[j] in m && m[order[i]].serial <= m[order[j]].serial
    ensures i < j ==> m[order[i]].serial < m[order[j]].serial && order[i] != order[j]
  {
  }

  lemma NothingAfter<V>(r: seq<JsonPrinter.Member<V>>, order: seq<cstr>, m: Members<V>, next: nat)
    requires InOrder(order, m, next) && Ranked(r, m)
    requires |order| <= |r| && forall i :: 0 <= i < |order| ==> r[i].key == order[i]
    ensures |r| == |order|
  {
    hide Rising, Ranked;
    if |order| < |r| {
      var k := |order|;
      RankedAt(r, m, k, k);
      var j := OrderHas(order, m, next, r[k].key);
      RankedAt(r, m, j, k);
      assert false;
    }
  }

  lemma NextAgrees<V>(r: seq<JsonPrinter.Member<V>>, order: seq<cstr>, m: Members<V>, next: nat, k: nat)
    requires InOrder(order, m, next) && Ranked(r, m)
    requires k <= |r| && k < |order| && forall i :: 0 <= i < k ==> r[i].key == order[i]
    ensures k < |r| && r[k].key == order[k]
  {
    hide Rising, Ranked;
    RisingAt(order, m, k, k);
    var i := RankedHas(r, m, order[k]);
    forall h | 0 <= h < k ensures order[h] != order[k] {
      RisingAt(order, m, h, k);
    }
    RankedAt(r, m, k, i);
    var j := OrderHas(order, m, next, r[k].key);
    forall h | 0 <= h < k ensures r[h].key != r[k].key {
      RankedAt(r, m, h, k);
    }
    RisingAt(order, m, k, j);
    if k < i {
      Smaller(r, m, k, i);
    }
  }

  lemma Smaller<V>(r: seq<JsonPrinter.Member<V>>, m: Members<V>, i: nat, j: nat)
    requires Ranked(r, m) && i < j < |r|
    ensures m[r[i].key].serial < m[r[j].key].serial
  {
  }
}
