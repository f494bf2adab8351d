/** The bounded, doubly linked queue of events, dropping its oldest event when it is full. */
module Fifo {
  import opened Sequences

  class Event<T> {
    var next: Event?<T>
    var prev: Event?<T>
    const msg: T

    constructor (msg: T)
      ensures this.msg == msg && next == null && prev == null
    {
      this.msg := msg;
      next, prev := null, null;
    }
  }

  ghost function Objects<T>(q: seq<Event<T>>): set<object> {
    set e | e in q
  }

  /** The element at i, or null off either end. */
  ghost function At<T>(q: seq<Event<T>>, i: int): Event?<T> {
    if 0 <= i < |q| then q[i] else null
  }

  /** Forward and backward links mirror each other along q. */
  ghost predicate Linked<T>(q: seq<Event<T>>)
    reads q
  {
    && Injective(q)
    && (forall i {:trigger q[i].next} {:trigger q[i].prev} :: 0 <= i < |q| ==>
       q[i].next == At(q, i + 1) && q[i].prev == At(q, i - 1))
  }

  function Messages<T>(q: seq<Event<T>>): (r: seq<T>)
    ensures |r| == |q|
  {
    seq(|q|, i requires 0 <= i < |q| => q[i].msg)
  }

  class Queue<T> {
    var first: Event?<T>
    var last: Event?<T>
    var size: int
    const maxSize: nat
    var dirty: bool
    var full: bool

    ghost var q: seq<Event<T>>

    /** first starts the list; last ends it, but is stale once a shift has emptied the list. */
    ghost predicate Valid()
      reads this, q
    {
      && Linked(q)
      && first == At(q, 0)
      && (q != [] ==> last == q[|q| - 1])
      && size == |q|
    }

    constructor (maxSize: nat)
      ensures Valid() && q == [] && this.maxSize == maxSize && !full && !dirty
    {
      first, last, size := null, null, 0;
      this.maxSize := maxSize;
      dirty, full := false, false;
      q := [];
    }

    method CheckSize()
      modifies `full
      ensures full == (size >= maxSize)
    {
      if size >= maxSize && !full {
        full := true;
      }
      if size < maxSize {
        full := false;
      }
    }

    /** Takes the oldest event off, or nothing from an empty queue. */
    method Shift() returns (e: Event?<T>)
      requires Valid()
      modifies `first, `size, `dirty, `q, Objects(q)
      ensures Valid()
      ensures old(q) == [] ==> e == null && q == [] && dirty == old(dirty)
      ensures old(q) != [] ==>
              e == old(q[0]) && q == old(q[1..]) && e.next == null && e.prev == null && dirty && e !in q
    {
      e := first;
      if e != null {
        if e.next != null {
          assert e.next == q[1];
          first := e.next;
          first.prev := null;
        } else {
          first := null;
        }
        e.next := null;
        e.prev := null;
        size := size - 1;
        dirty := true;
        q := q[1..];
      }
    }

    /** Whether a pop has left first pointing at the event it took off. */
    ghost predicate Dangling()
      reads this
    {
      q == [] && first != null && last == null && size == 0
    }

    /** Takes the newest event off, or nothing if there has never been one.  After the only one, first dangles. */
    method Pop() returns (e: Event?<T>)
      requires Valid() && (q == [] ==> last == null)
      modifies `last, `size, `dirty, `q, Objects(q)
      ensures old(q) == [] ==> e == null && Valid() && q == [] && dirty == old(dirty)
      ensures old(q) != [] ==>
              e == old(q[|q| - 1]) && e.next == null && e.prev == null && dirty && q == old(q[..|q| - 1])
      ensures if |old(q)| == 1 then Dangling() && first == e else Valid()
    {
      e := last;
      if e == null {
        return;
      }
      if e.prev != null {
        assert e.prev == q[|q| - 2];
        last := e.prev;
        last.next := null;
      } else {
        assert |q| == 1;
        last := null;
      }
      e.next := null;
      e.prev := null;
      size := size - 1;
      dirty := true;
      q := q[..|q| - 1];
    }

    /** Puts an event at the end, making room at the front first when the queue is full. */
    method Push(e: Event<T>) returns (n: int)
      requires Valid() && e !in q && e.next == null && e.prev == null
      modifies this, Objects(q), e
      ensures Valid() && dirty && n == |q|
      ensures q == (if |old(q)| >= maxSize && old(q) != [] then old(q[1..]) else old(q)) + [e]
      ensures |old(q)| <= (if maxSize == 0 then 1 else maxSize) ==> |q| <= (if maxSize == 0 then 1 else maxSize)
    {
      CheckSize();
      if full {
        var dropped := Shift();
      }
      n := Append(e);
    }

    method Append(e: Event<T>) returns (n: int)
      requires Valid() && e !in q && e.next == null && e.prev == null
      modifies this, Objects(q), e
      ensures Valid() && dirty && n == |q| && q == old(q) + [e]
      ensures full == old(full)
    {
      if first == null {
        first := e;
        last := e;
      } else {
        e.prev := last;
        last.next := e;
        last := e;
      }
      size := size + 1;
      dirty := true;
      q := q + [e];
      n := size;
    }

    /** Puts an event back at the front, making room at the end first; that breaks a full queue of one event. */
    method Prepend(e: Event<T>) returns (n: int)
      requires Valid() && e !in q && e.next == null && e.prev == null && maxSize > 0
      modifies this, Objects(q), e
      ensures dirty && n == |q| && q == [e] + (if |old(q)| >= maxSize then old(q[..|q| - 1]) else old(q))
      ensures Valid() <==> |old(q)| < maxSize || |old(q)| >= 2
    {
      CheckSize();
      if full {
        var dropped := Pop();
      }
      n := Insert(e);
    }

    method Insert(e: Event<T>) returns (n: int)
      requires (Valid() || (Dangling() && e != first)) && e !in q && e.next == null && e.prev == null
      modifies this, Objects(q), e, if first == null then {} else {first}
      ensures dirty && n == |q| && q == [e] + old(q) && full == old(full)
      ensures Valid() <==> old(!Dangling())
    {
      if first == null {
        first := e;
        last := e;
      } else {
        e.prev := null;
        e.next := first;
        first.prev := e;
        first := e;
      }
      size := size + 1;
      dirty := true;
      q := [e] + q;
      n := size;
    }

    /** Walks the list as the file writer does, and clears the dirty mark unless the file cannot be opened. */
    method Sync(opens: bool) returns (written: seq<T>)
      requires Valid()
      modifies `dirty
      ensures Valid() && dirty == (old(dirty) && !opens)
      ensures written == if old(dirty) && opens then Messages(q) else []
    {
      written := [];
      if !dirty || !opens {
        return;
      }
      var e := first;
      while e != null
        invariant |written| <= |q| && e == At(q, |written|)
        invariant written == Messages(q)[..|written|]
        decreases |q| - |written|
      {
        written := written + [e.msg];
        e := e.next;
      }
      dirty := false;
    }
  }
}
