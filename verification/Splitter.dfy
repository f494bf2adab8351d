/**
  Long check results: an output too long for one message is cut into chunks, each sent in a message
  of its own that otherwise repeats the event.  A message is the event's JSON text, so that a chunk
  cut inside a character cannot be sent.
 */
module Splitter {
  import opened Bytes
  import opened Utf8
  import opened JsonNumbers
  import opened JsonPrinter
  import opened JsonReader
  import opened JsonRoundTrip
  import JsonGrammar
  import JsonLayout
  import opened Wrappers
  import opened Sequences

  /** How many messages a text of n octets takes when left octets are available. */
  function Count(n: nat, left: nat): nat
    requires left >= 1
  {
    n / left + 1
  }

  /** Where the chunk at cpt starts: each one holds left - 1 octets, as one is reserved for the terminator. */
  function Offset(left: nat, cpt: nat): nat
    requires left >= 1
  {
    MulMonotone(0, cpt, left - 1);
    cpt * (left - 1)
  }

  function Min(a: nat, b: nat): nat {
    if a <= b then a else b
  }

  function Chunk(message: cstr, left: nat, cpt: nat): cstr
    requires left >= 1 && Offset(left, cpt) <= |message|
  {
    message[Offset(left, cpt)..Min(|message|, Offset(left, cpt) + (left - 1))]
  }

  function Chunks(message: cstr, left: nat, k: nat): seq<cstr>
    requires left >= 1 && k <= Count(|message|, left)
  {
    if k == 0 then [] else
    OffsetInBounds(|message|, left, k - 1);
    Chunks(message, left, k - 1) + [Chunk(message, left, k - 1)]
  }

  /** Every chunk starts within the message. */
  lemma OffsetInBounds(n: nat, left: nat, cpt: nat)
    requires left >= 1 && cpt < Count(n, left)
    ensures Offset(left, cpt) <= n
  {
    var q := n / left;
    Division(n, left);
    MulMonotone(cpt, q, left - 1);
    assert q * (left - 1) == q * left - q;
  }

  lemma Division(n: nat, left: nat)
    requires left >= 1
    ensures n == (n / left) * left + n % left
  {
  }

  /** The chunks hold n octets exactly when quotient and remainder leave room for a terminator in each. */
  lemma Room(n: nat, left: nat)
    requires left >= 1
    ensures Offset(left, Count(n, left)) >= n <==> n / left + n % left <= left - 1
  {
    var q, r := n / left, n % left;
    Division(n, left);
    assert (q + 1) * (left - 1) == q * left - q + left - 1;
  }

  lemma NextOffset(left: nat, k: nat)
    requires left >= 1
    ensures Offset(left, k + 1) == Offset(left, k) + (left - 1)
  {
  }

  lemma {:induction false} NextChunk(message: cstr, left: nat, k: nat)
    requires left >= 1 && k < Count(|message|, left)
    ensures Offset(left, k) <= |message| && k + 1 <= Count(|message|, left)
    ensures Chunks(message, left, k + 1) == Chunks(message, left, k) + [Chunk(message, left, k)]
  {
    hide Offset, Count, Chunk;
    OffsetInBounds(|message|, left, k);
  }

  /** The first k chunks are the first k * (left - 1) octets, one after the other. */
  lemma {:induction false} ChunksConcat(message: cstr, left: nat, k: nat)
    requires left >= 1 && k <= Count(|message|, left)
    ensures |Chunks(message, left, k)| == k
    ensures Concat(Chunks(message, left, k)) == message[..Min(|message|, Offset(left, k))]
  {
    hide Offset, Count, Chunk, Concat;
    ZeroOffset(left);
    if k > 0 {
      ChunksConcat(message, left, k - 1);
      NextChunk(message, left, k - 1);
      NextOffset(left, k - 1);
      ConcatOne(Chunks(message, left, k - 1), Chunk(message, left, k - 1));
      NextPrefix(message, left, k - 1);
    } else {
      ConcatNone<cbyte>();
    }
  }

  lemma ZeroOffset(left: nat)
    requires left >= 1
    ensures Offset(left, 0) == 0
  {
  }

  lemma NextPrefix(message: cstr, left: nat, k: nat)
    requires left >= 1 && Offset(left, k) <= |message|
    ensures message[..Offset(left, k)] + Chunk(message, left, k) ==
            message[..Min(|message|, Offset(left, k) + (left - 1))]
  {
  }

  /** All chunks together are a prefix of the message, and all of it exactly when it is not too long for them. */
  lemma SplitIsPrefix(message: cstr, left: nat)
    requires left >= 1
    ensures var n := |message|;
            var sent := Concat(Chunks(message, left, Count(n, left)));
            && sent == message[..Min(n, Offset(left, n / left + 1))]
            && (sent == message <==> n / left + n % left <= left - 1)
  {
    hide Offset;
    ChunksConcat(message, left, Count(|message|, left));
    Room(|message|, left);
  }

  /** A text that does lose its end, for all that it needs just two messages. */
  lemma TwoMessagesTooFew()
    ensures var message: cstr := [65, 66, 67]; Concat(Chunks(message, 2, Count(3, 2))) == [65, 66]
  {
    SplitIsPrefix([65, 66, 67], 2);
  }

  // ---------- chunks and characters ----------

  /** Every chunk can be written. */
  ghost predicate ChunksValid(message: cstr, left: nat, k: nat)
    requires left >= 1 && k <= Count(|message|, left)
  {
    forall i :: 0 <= i < k ==> Offset(left, i) <= |message| && ValidString(Chunk(message, left, i))
  }

  /** The text is valid, and every chunk starts between characters. */
  ghost predicate OnBoundaries(message: cstr, left: nat)
    requires left >= 1
  {
    && ValidString(message)
    && forall k :: 0 <= k < Count(|message|, left) ==>
       Offset(left, k) <= |message| && ValidString(message[..Offset(left, k)])
  }

  /** The chunks have room for the whole text. */
  predicate Fits(message: cstr, left: nat)
    requires left >= 1
  {
    |message| / left + |message| % left <= left - 1
  }

  lemma {:induction false} ValidPrefix(message: cstr, left: nat, k: nat)
    requires left >= 1 && k <= Count(|message|, left) && ChunksValid(message, left, k)
    ensures ValidString(message[..Min(|message|, Offset(left, k))])
  {
    hide Offset, Count, Chunk, ValidString;
    if k == 0 {
      ZeroOffset(left);
      AsciiIsValid(message[..0]);
    } else {
      OffsetInBounds(|message|, left, k - 1);
      ValidPrefix(message, left, k - 1);
      NextOffset(left, k - 1);
      NextPrefix(message, left, k - 1);
      ValidConcat(message[..Offset(left, k - 1)], Chunk(message, left, k - 1));
    }
  }

  lemma ChunkOnBoundaries(message: cstr, left: nat, k: nat)
    requires left >= 1 && OnBoundaries(message, left) && Fits(message, left) && k < Count(|message|, left)
    ensures Offset(left, k) <= |message| && ValidString(Chunk(message, left, k))
  {
    hide Offset, Chunk, ValidString;
    NextOffset(left, k);
    NextPrefix(message, left, k);
    var whole := message[..Min(|message|, Offset(left, k + 1))];
    if k + 1 == Count(|message|, left) {
      Room(|message|, left);
      assert whole == message;
    }
    ValidConcat(message[..Offset(left, k)], Chunk(message, left, k));
  }

  /**
    A text that has room is cut into valid chunks exactly when it is valid and each chunk starts between characters.
   */
  lemma CutBetweenCharacters(message: cstr, left: nat)
    requires left >= 1 && Fits(message, left)
    ensures ChunksValid(message, left, Count(|message|, left)) <==> OnBoundaries(message, left)
  {
    hide Offset, Chunk, ValidString;
    var n := Count(|message|, left);
    if ChunksValid(message, left, n) {
      Room(|message|, left);
      ValidPrefix(message, left, n);
      assert message[..|message|] == message;
      forall k | 0 <= k < n ensures Offset(left, k) <= |message| && ValidString(message[..Offset(left, k)]) {
        OffsetInBounds(|message|, left, k);
        ValidPrefix(message, left, k);
      }
    }
    if OnBoundaries(message, left) {
      forall k | 0 <= k < n ensures Offset(left, k) <= |message| && ValidString(Chunk(message, left, k)) {
        ChunkOnBoundaries(message, left, k);
      }
    }
  }

  /** ASCII is cut between characters wherever it is cut. */
  lemma AsciiOnBoundaries(message: cstr, left: nat)
    requires left >= 1 && forall i :: 0 <= i < |message| ==> message[i] < 0x80
    ensures OnBoundaries(message, left)
  {
    hide Offset, Count, ValidString;
    AsciiIsValid(message);
    forall k | 0 <= k < Count(|message|, left)
      ensures Offset(left, k) <= |message| && ValidString(message[..Offset(left, k)])
    {
      OffsetInBounds(|message|, left, k);
      AsciiIsValid(message[..Offset(left, k)]);
    }
  }

  // ---------- writing and reading events ----------

  type Event = map<seq<byte>, Tree>

  const LONG_OUTPUT: seq<byte> := [0x6C, 0x6F, 0x6E, 0x67, 0x5F, 0x6F, 0x75, 0x74, 0x70, 0x75, 0x74]
  const OUTPUT: seq<byte> := [0x6F, 0x75, 0x74, 0x70, 0x75, 0x74]
  const PERF_DATA: seq<byte> := [0x70, 0x65, 0x72, 0x66, 0x5F, 0x64, 0x61, 0x74, 0x61]

  const NO_OPTIONS := Options(false, false, false)

  /**
    The C libraries at both ends: the text the sender's gives a real, and the number the receiver's converts a text to.
   */
  datatype Library = Library(write: Double -> RealText, convert: seq<byte> -> Option<Double>)

  function NoFlags(lib: Library): Flags {
    Flags(0, false, false, false, false, false, lib.write)
  }

  function TripBy(lib: Library): Trip {
    TripOf(lib.write, lib.convert)
  }

  /** Keys have been checked when they were set; values have not, but those that can be written can be read. */
  ghost predicate WellFormed(e: Event) {
    forall k :: k in e ==> StringOk(k) && (Writable(e[k]) ==> Printable(e[k]))
  }

  /** No value holds a bad string. */
  predicate AllWritable(e: Event) {
    forall k :: k in e ==> Writable(e[k])
  }

  /** No value holds a bad string or a real that is refused. */
  ghost predicate AllReceivable(e: Event, lib: Library) {
    forall k :: k in e ==> Writable(e[k]) && Convertible(e[k], TripBy(lib))
  }

  /** The members of an event in some order. */
  ghost predicate Lists(ms: seq<Member<Tree>>, e: Event) {
    Distinct(ms) && KeysOf(ms) == e.Keys && forall m :: m in ms ==> m.key in e && m.value == e[m.key]
  }

  /** An object that cannot be written leaves an empty text. */
  function TextOf(ms: seq<Member<Tree>>, lib: Library): seq<byte> {
    var text := Dumps(Object(ms), NoFlags(lib));
    if text.None? then [] else text.value
  }

  /** The text of a message about the event; the order of its members is that of the hash table. */
  ghost predicate Writes(text: seq<byte>, e: Event, lib: Library) {
    exists ms :: Lists(ms, e) && text == TextOf(ms, lib)
  }

  /** What a receiver makes of a message. */
  function Received(text: seq<byte>, lib: Library): Option<map<seq<byte>, Value>> {
    var r := Loads(text, lib.convert, NO_OPTIONS);
    if r.Parsed? && r.value.VObject? then Some(r.value.members) else None
  }

  lemma NothingReceived(lib: Library)
    ensures Received([], lib) == None
  {
    NothingLeft(Source(false, lib.convert));
  }

  lemma ListedPrintable(ms: seq<Member<Tree>>, e: Event, lib: Library)
    requires Lists(ms, e) && WellFormed(e)
    ensures AllWritable(e) <==> Writable(Object(ms))
    ensures AllWritable(e) ==> Printable(Object(ms))
    ensures AllReceivable(e, lib) <==> AllWritable(e) && Convertible(Object(ms), TripBy(lib))
  {
    hide StringOk, TripBy;
    assert forall i :: 0 <= i < |ms| ==> ms[i] in ms && ms[i].key in e;
    forall k | k in e ensures exists i :: 0 <= i < |ms| && ms[i].key == k && ms[i].value == e[k] {
      assert k in KeysOf(ms);
      var m :| m in ms && m.key == k;
      var i :| 0 <= i < |ms| && ms[i] == m;
    }
  }

  /**
    A message about an event with a bad string is empty.  Any other is received as the event, its reals as what their
    texts are converted to, unless one of them is refused.
   */
  lemma WrittenIsReceived(text: seq<byte>, e: Event, lib: Library)
    requires WellFormed(e) && Writes(text, e, lib)
    ensures !AllWritable(e) ==> text == []
    ensures var r := Received(text, lib);
            if AllReceivable(e, lib) then
              r.Some? && r.value.Keys == e.Keys && forall k :: k in e ==> r.value[k] == ValueOf(e[k], TripBy(lib))
            else r == None
  {
    hide Loads, StringOk, Print, Writable, Printable, Convertible, ValueOf, KeysOf, MapOf, MembersOk, AllReceivable;
    var ms :| Lists(ms, e) && text == TextOf(ms, lib);
    ListedPrintable(ms, e, lib);
    NothingReceived(lib);
    if AllWritable(e) {
      LoadsUndoesDumps(Object(ms), NoFlags(lib), lib.convert, NO_OPTIONS);
      var trip := TripBy(lib);
      ValueOfObject(Object(ms), trip);
      MapOfKeys(ms, trip);
      forall k | k in e ensures MapOf(ms, trip)[k] == ValueOf(e[k], trip) {
        MemberOfKey(ms, e, k, trip);
      }
    }
  }

  /** The text is that of an object, laid out without any flags. */
  lemma WrittenIsLaid(text: seq<byte>, e: Event, lib: Library) returns (ms: seq<Member<Tree>>)
    requires WellFormed(e) && AllWritable(e) && Writes(text, e, lib)
    requires forall k :: k in e ==> JsonLayout.FiniteReals(e[k])
    ensures Lists(ms, e)
    ensures var flags := Flags(0, false, false, false, false, false, lib.write);
            text == JsonGrammar.Spell(JsonLayout.Laid(Object(ms), flags, 0))
  {
    hide StringOk, Print, Writable, Printable, KeysOk, JsonLayout.Laid, JsonGrammar.Spell;
    ms :| Lists(ms, e) && text == TextOf(ms, lib);
    ListedPrintable(ms, e, lib);
    PrintableMeans(Object(ms));
    assert forall i :: 0 <= i < |ms| ==> ms[i] in ms && ms[i].key in e && ms[i].value == e[ms[i].key];
    assert JsonLayout.FiniteReals(Object(ms));
    JsonLayout.PrintIsLaid(Object(ms), NoFlags(lib), 0);
  }

  lemma MemberOfKey(ms: seq<Member<Tree>>, e: Event, k: seq<byte>, trip: Trip)
    requires Lists(ms, e) && k in e
    ensures k in MapOf(ms, trip) && MapOf(ms, trip)[k] == ValueOf(e[k], trip)
  {
    hide ValueOf, MapOf;
    assert k in KeysOf(ms);
    var m :| m in ms && m.key == k;
    MapOfHas(ms, m, trip);
  }

  // ---------- sending ----------

  /** The event with a chunk in its field. */
  function WithText(e: Event, field: seq<byte>, text: cstr): Event {
    e[field := String(text)]
  }

  lemma TextUpdated(e: Event, field: seq<byte>, text: cstr)
    requires WellFormed(e) && StringOk(field)
    ensures WellFormed(WithText(e, field, text))
    ensures AllWritable(WithText(e, field, text)) <==> AllWritable(e - {field}) && ValidString(text)
    ensures forall lib :: AllReceivable(WithText(e, field, text), lib) <==>
            AllReceivable(e - {field}, lib) && ValidString(text)
  {
    hide ValidString, TripBy;
    var u := WithText(e, field, text);
    assert u[field] == String(text);
    var rest := e - {field};
    assert forall k :: k in rest ==> k in u && u[k] == rest[k];
    assert forall k :: k in u ==> k == field || (k in rest && u[k] == rest[k]);
  }

  /** The messages for a text: the event with one chunk after the other in the field. */
  ghost predicate Batch(sent: seq<seq<byte>>, e: Event, field: seq<byte>, message: cstr, left: nat, lib: Library)
    requires left >= 1
  {
    && |sent| == Count(|message|, left)
    && forall i :: 0 <= i < |sent| ==>
       Offset(left, i) <= |message| && Writes(sent[i], WithText(e, field, Chunk(message, left, i)), lib)
  }

  /** The event after a text has been sent: its field keeps the last chunk. */
  function After(e: Event, field: seq<byte>, message: cstr, left: nat): Event
    requires left >= 1
  {
    WithText(e, field, LastChunk(message, left))
  }

  function LastChunk(message: cstr, left: nat): cstr
    requires left >= 1
  {
    OffsetInBounds(|message|, left, |message| / left);
    Chunk(message, left, |message| / left)
  }

  /** Writes an event, its members in any order. */
  method WriteEvent(e: Event, lib: Library) returns (text: seq<byte>)
    ensures Writes(text, e, lib)
  {
    var ms: seq<Member<Tree>> := [];
    var todo := e.Keys;
    while todo != {}
      invariant todo <= e.Keys && Lists(ms, e - todo)
      invariant forall i :: 0 <= i < |ms| ==> ms[i].serial == i
      decreases todo
    {
      var key :| key in todo;
      ListOneMore(ms, e, todo, key);
      ms := ms + [Member(key, |ms|, e[key])];
      todo := todo - {key};
    }
    assert e - {} == e;
    text := TextOf(ms, lib);
  }

  lemma ListOneMore(ms: seq<Member<Tree>>, e: Event, todo: set<seq<byte>>, key: seq<byte>)
    requires key in todo && todo <= e.Keys && Lists(ms, e - todo) && forall i :: 0 <= i < |ms| ==> ms[i].serial == i
    ensures Lists(ms + [Member(key, |ms|, e[key])], e - (todo - {key}))
  {
    var m := Member(key, |ms|, e[key]);
    var more := ms + [m];
    assert forall x :: x in more <==> x in ms || x == m;
    assert KeysOf(more) == KeysOf(ms) + {key};
    forall i | 0 <= i < |ms| ensures ms[i].key != key {
      assert ms[i] in ms && ms[i].key in e - todo;
    }
  }

  /** Puts the chunk at cpt into the event. */
  method UpdateField(e: Event, message: cstr, field: seq<byte>, left: nat, cpt: nat) returns (r: Event)
    requires left >= 1 && Offset(left, cpt) <= |message|
    ensures r == WithText(e, field, Chunk(message, left, cpt))
  {
    var offset := cpt * (left - 1);
    var temp: cstr := [];
    while |temp| < left - 1 && offset + |temp| < |message|
      invariant offset + |temp| <= |message| && |temp| <= left - 1
      invariant temp == message[offset..offset + |temp|]
      decreases left - |temp|
    {
      temp := temp + [message[offset + |temp|]];
    }
    r := e - {field};
    r := r[field := String(temp)];
    assert r == e[field := String(temp)];
  }

  /** Sends the event once for each chunk of the message. */
  method SplitMessage(e: Event, message: cstr, field: seq<byte>, left: nat, lib: Library)
    returns (last: Event, sent: seq<seq<byte>>)
    requires left >= 1
    ensures Batch(sent, e, field, message, left, lib) && last == After(e, field, message, left)
  {
    hide Writes, Chunk, Offset;
    var temp := |message| / left + 1;
    var i := 0;
    last, sent := e, [];
    while i < temp
      invariant i <= temp && |sent| == i
      invariant forall j :: 0 <= j < i ==>
                Offset(left, j) <= |message| && Writes(sent[j], WithText(e, field, Chunk(message, left, j)), lib)
      invariant i == 0 ==> last == e
      invariant i > 0 ==> Offset(left, i - 1) <= |message| && last == WithText(e, field, Chunk(message, left, i - 1))
    {
      OffsetInBounds(|message|, left, i);
      last := UpdateField(last, message, field, left, i);
      assert last == WithText(e, field, Chunk(message, left, i));
      var buffer := WriteEvent(last, lib);
      sent := sent + [buffer];
      i := i + 1;
    }
  }

  // ---------- what arrives ----------

  /** The text of a field in a message, if the message can be read and has one. */
  function FieldText(text: seq<byte>, field: seq<byte>, lib: Library): Option<seq<byte>> {
    var r := Received(text, lib);
    if r.Some? && field in r.value && r.value[field].VString? then Some(r.value[field].s) else None
  }

  /** A receiver joins the texts of a field. */
  function Join(sent: seq<seq<byte>>, field: seq<byte>, lib: Library): seq<byte> {
    if sent == [] then [] else
    var text := FieldText(sent[|sent| - 1], field, lib);
    Join(sent[..|sent| - 1], field, lib) + if text.Some? then text.value else []
  }

  /** Every message can be read, and together they give the whole text. */
  ghost predicate Arrives(sent: seq<seq<byte>>, field: seq<byte>, message: cstr, lib: Library) {
    (forall i :: 0 <= i < |sent| ==> FieldText(sent[i], field, lib).Some?) && Join(sent, field, lib) == message
  }

  /** A message with a chunk is received with that chunk and everything else unchanged, or not at all. */
  lemma ChunkIsReceived(text: seq<byte>, e: Event, field: seq<byte>, chunk: cstr, lib: Library)
    requires WellFormed(e) && StringOk(field) && Writes(text, WithText(e, field, chunk), lib)
    ensures if AllReceivable(e - {field}, lib) && ValidString(chunk) then
              && FieldText(text, field, lib) == Some(chunk) && Received(text, lib).Some?
              && forall k :: k in e && k != field ==>
                             k in Received(text, lib).value
                               && Received(text, lib).value[k] == ValueOf(e[k], TripBy(lib))
            else FieldText(text, field, lib) == None
    ensures !AllWritable(e - {field}) || !ValidString(chunk) ==> text == []
  {
    hide Received, ValidString, Writes, Writable, Convertible, TripBy;
    var u := WithText(e, field, chunk);
    TextUpdated(e, field, chunk);
    WrittenIsReceived(text, u, lib);
    if AllReceivable(u, lib) {
      assert ValueOf(u[field], TripBy(lib)) == VString(chunk);
      assert forall k :: k in e && k != field ==> u[k] == e[k];
    }
  }

  lemma {:induction false} JoinsChunks(sent: seq<seq<byte>>, field: seq<byte>, message: cstr, left: nat, lib: Library)
    requires left >= 1 && |sent| <= Count(|message|, left)
    requires forall i :: 0 <= i < |sent| ==>
             Offset(left, i) <= |message| && FieldText(sent[i], field, lib) == Some(Chunk(message, left, i))
    ensures Join(sent, field, lib) == Concat(Chunks(message, left, |sent|))
  {
    hide Offset, Count, Chunk, FieldText;
    if sent != [] {
      var k := |sent| - 1;
      JoinsChunks(sent[..k], field, message, left, lib);
      NextChunk(message, left, k);
      ConcatOne(Chunks(message, left, k), Chunk(message, left, k));
    }
  }

  /**
    A text arrives whole exactly when nothing else in the event is bad or refused, quotient and remainder of its length
    leave room for the terminators, and no chunk starts inside a character.
   */
  lemma ArrivesWhole(sent: seq<seq<byte>>, e: Event, field: seq<byte>, message: cstr, left: nat, lib: Library)
    requires left >= 1 && WellFormed(e) && StringOk(field) && Batch(sent, e, field, message, left, lib)
    ensures Arrives(sent, field, message, lib) <==>
            AllReceivable(e - {field}, lib) && Fits(message, left) && OnBoundaries(message, left)
  {
    hide Offset, Chunk, FieldText, WellFormed, AllReceivable, AllWritable, Writes, StringOk, ValidString, OnBoundaries,
         Join, Chunks, Concat;
    var n := Count(|message|, left);
    forall i | 0 <= i < n
      ensures Offset(left, i) <= |message|
      ensures FieldText(sent[i], field, lib) ==
              if AllReceivable(e - {field}, lib) && ValidString(Chunk(message, left, i)) then
                Some(Chunk(message, left, i))
              else None
    {
      ChunkIsReceived(sent[i], e, field, Chunk(message, left, i), lib);
    }
    if AllReceivable(e - {field}, lib) && ChunksValid(message, left, n) {
      JoinsChunks(sent, field, message, left, lib);
    } else {
      assert !Arrives(sent, field, message, lib) by {
        if AllReceivable(e - {field}, lib) {
          var i :| 0 <= i < n && !(Offset(left, i) <= |message| && ValidString(Chunk(message, left, i)));
          assert FieldText(sent[i], field, lib).None?;
        } else {
          assert FieldText(sent[0], field, lib).None?;
        }
      }
    }
    SplitIsPrefix(message, left);
    if Fits(message, left) {
      CutBetweenCharacters(message, left);
    }
  }

  /** Splits the three texts of a check result, each into messages of its own. */
  method SendAll(e: Event, longOutput: cstr, output: cstr, perfData: cstr, left: nat, lib: Library)
    returns (first: seq<seq<byte>>, second: seq<seq<byte>>, third: seq<seq<byte>>)
    requires left >= 1
    ensures Sent(e, longOutput, output, perfData, left, first, second, third, lib)
  {
    var e1, e2, e3;
    e1, first := SplitMessage(e, longOutput, LONG_OUTPUT, left, lib);
    e2, second := SplitMessage(e1, output, OUTPUT, left, lib);
    e3, third := SplitMessage(e2, perfData, PERF_DATA, left, lib);
  }

  /** The messages for each text; the event keeps the last chunk of every text that has been sent. */
  ghost predicate Sent(e: Event, longOutput: cstr, output: cstr, perfData: cstr, left: nat,
                       first: seq<seq<byte>>, second: seq<seq<byte>>, third: seq<seq<byte>>, lib: Library)
    requires left >= 1
  {
    var e1 := After(e, LONG_OUTPUT, longOutput, left);
    var e2 := After(e1, OUTPUT, output, left);
    && Batch(first, e, LONG_OUTPUT, longOutput, left, lib)
    && Batch(second, e1, OUTPUT, output, left, lib)
    && Batch(third, e2, PERF_DATA, perfData, left, lib)
  }

  function Octets(s: string): seq<byte>
    requires forall i :: 0 <= i < |s| ==> s[i] as int < 0x80
  {
    seq(|s|, i requires 0 <= i < |s| => s[i] as int)
  }

  lemma FieldNames()
    ensures LONG_OUTPUT == Octets("long_output") && OUTPUT == Octets("output") && PERF_DATA == Octets("perf_data")
    ensures StringOk(LONG_OUTPUT) && StringOk(OUTPUT) && StringOk(PERF_DATA)
    ensures LONG_OUTPUT != OUTPUT && OUTPUT != PERF_DATA && LONG_OUTPUT != PERF_DATA
  {
    hide ValidString;
    AsciiIsValid(LONG_OUTPUT);
    AsciiIsValid(OUTPUT);
    AsciiIsValid(PERF_DATA);
  }

  /** Sending a text leaves the event as bad as its other fields and the chunk it keeps. */
  lemma KeptChunk(e: Event, field: seq<byte>, message: cstr, other: seq<byte>, left: nat)
    requires left >= 1 && WellFormed(e) && StringOk(field) && other != field
    ensures WellFormed(After(e, field, message, left))
    ensures AllWritable(After(e, field, message, left) - {other}) <==>
            AllWritable(e - {field} - {other}) && ValidString(LastChunk(message, left))
    ensures forall lib :: AllReceivable(After(e, field, message, left) - {other}, lib) <==>
                          AllReceivable(e - {field} - {other}, lib) && ValidString(LastChunk(message, left))
  {
    hide AllReceivable, ValidString, LastChunk, StringOk, Writable;
    var c := LastChunk(message, left);
    TextUpdated(e, field, c);
    TextUpdated(e - {other}, field, c);
    assert WithText(e, field, c) - {other} == WithText(e - {other}, field, c);
    assert e - {other} - {field} == e - {field} - {other};
  }

  lemma LastChunkValid(message: cstr, left: nat)
    requires left >= 1 && Fits(message, left) && OnBoundaries(message, left)
    ensures ValidString(LastChunk(message, left))
  {
    hide ValidString, Chunk, Offset, Fits, OnBoundaries;
    ChunkOnBoundaries(message, left, |message| / left);
  }

  /** All three texts arrive whole exactly when the rest of the event can be received and each of them can be cut. */
  lemma AllArrive(e: Event, longOutput: cstr, output: cstr, perfData: cstr, left: nat,
                  first: seq<seq<byte>>, second: seq<seq<byte>>, third: seq<seq<byte>>, lib: Library)
    requires left >= 1 && WellFormed(e) && Sent(e, longOutput, output, perfData, left, first, second, third, lib)
    ensures Arrives(first, LONG_OUTPUT, longOutput, lib) && Arrives(second, OUTPUT, output, lib)
            && Arrives(third, PERF_DATA, perfData, lib) <==>
            && AllReceivable(e - {LONG_OUTPUT}, lib)
            && Fits(longOutput, left) && OnBoundaries(longOutput, left)
            && Fits(output, left) && OnBoundaries(output, left)
            && Fits(perfData, left) && OnBoundaries(perfData, left)
  {
    hide Arrives, Batch, After, Fits, OnBoundaries, AllReceivable, AllWritable, WellFormed, StringOk, ValidString,
         LastChunk;
    FieldNames();
    var e1 := After(e, LONG_OUTPUT, longOutput, left);
    var e2 := After(e1, OUTPUT, output, left);
    KeptChunk(e, LONG_OUTPUT, longOutput, OUTPUT, left);
    KeptChunk(e1, OUTPUT, output, PERF_DATA, left);
    ArrivesWhole(first, e, LONG_OUTPUT, longOutput, left, lib);
    ArrivesWhole(second, e1, OUTPUT, output, left, lib);
    ArrivesWhole(third, e2, PERF_DATA, perfData, left, lib);
    if AllReceivable(e - {LONG_OUTPUT}, lib) && Fits(longOutput, left) && OnBoundaries(longOutput, left) {
      LastChunkValid(longOutput, left);
      FewerReceivable(e - {LONG_OUTPUT}, OUTPUT, lib);
    }
    if AllReceivable(e1 - {OUTPUT}, lib) && Fits(output, left) && OnBoundaries(output, left) {
      LastChunkValid(output, left);
      FewerReceivable(e1 - {OUTPUT}, PERF_DATA, lib);
    }
  }

  lemma FewerReceivable(e: Event, k: seq<byte>, lib: Library)
    requires AllReceivable(e, lib)
    ensures AllReceivable(e - {k}, lib)
  {
  }

  /** A last chunk that is cut short at the front stays in the event and empties every later message. */
  lemma BadChunkStays(e: Event, longOutput: cstr, output: cstr, perfData: cstr, left: nat,
                      first: seq<seq<byte>>, second: seq<seq<byte>>, third: seq<seq<byte>>, lib: Library)
    requires left >= 1 && WellFormed(e) && Sent(e, longOutput, output, perfData, left, first, second, third, lib)
    requires !ValidString(LastChunk(longOutput, left))
    ensures forall i :: 0 <= i < |second| ==> second[i] == []
    ensures forall i :: 0 <= i < |third| ==> third[i] == []
  {
    hide After, AllReceivable, AllWritable, WellFormed, StringOk, ValidString, LastChunk, Writes, Chunk, Offset;
    FieldNames();
    var e1 := After(e, LONG_OUTPUT, longOutput, left);
    var e2 := After(e1, OUTPUT, output, left);
    KeptChunk(e, LONG_OUTPUT, longOutput, OUTPUT, left);
    KeptChunk(e, LONG_OUTPUT, longOutput, PERF_DATA, left);
    KeptChunk(e1, OUTPUT, output, PERF_DATA, left);
    forall i | 0 <= i < |second| ensures second[i] == [] {
      ChunkIsReceived(second[i], e1, OUTPUT, Chunk(output, left, i), lib);
    }
    assert !AllWritable(e1 - {OUTPUT} - {PERF_DATA}) by {
      StillBad(e, longOutput, left);
    }
    forall i | 0 <= i < |third| ensures third[i] == [] {
      ChunkIsReceived(third[i], e2, PERF_DATA, Chunk(perfData, left, i), lib);
    }
  }

  lemma StillBad(e: Event, longOutput: cstr, left: nat)
    requires left >= 1 && !ValidString(LastChunk(longOutput, left))
    ensures !AllWritable(After(e, LONG_OUTPUT, longOutput, left) - {OUTPUT} - {PERF_DATA})
  {
    hide ValidString, LastChunk;
    FieldNames();
    var rest := After(e, LONG_OUTPUT, longOutput, left) - {OUTPUT} - {PERF_DATA};
    assert rest[LONG_OUTPUT] == String(LastChunk(longOutput, left));
  }

  /** A text with room enough that loses everything, and every text after it: its last character is cut in two. */
  lemma CutCharacterLosesAll(e: Event, output: cstr, perfData: cstr,
                             first: seq<seq<byte>>, second: seq<seq<byte>>, third: seq<seq<byte>>, lib: Library)
    requires WellFormed(e) && Sent(e, [0x61, 0xC3, 0xA9], output, perfData, 3, first, second, third, lib)
    ensures Fits([0x61, 0xC3, 0xA9], 3) && ValidString([0x61, 0xC3, 0xA9])
    ensures first == [[], []]
    ensures (forall i :: 0 <= i < |second| ==> second[i] == []) && forall i :: 0 <= i < |third| ==> third[i] == []
  {
    hide Writes, WellFormed, AllReceivable, AllWritable, StringOk;
    var message: cstr := [0x61, 0xC3, 0xA9];
    FieldNames();
    CutCharacter();
    BadChunkStays(e, message, output, perfData, 3, first, second, third, lib);
    ChunkIsReceived(first[0], e, LONG_OUTPUT, Chunk(message, 3, 0), lib);
    ChunkIsReceived(first[1], e, LONG_OUTPUT, Chunk(message, 3, 1), lib);
  }

  lemma CutCharacter()
    ensures var message: cstr := [0x61, 0xC3, 0xA9];
            && ValidString(message) && Offset(3, 1) == 2
            && !ValidString(Chunk(message, 3, 0)) && !ValidString(Chunk(message, 3, 1))
            && LastChunk(message, 3) == Chunk(message, 3, 1)
  {
    hide ValidString;
    var message: cstr := [0x61, 0xC3, 0xA9];
    assert Chunk(message, 3, 0) == [0x61, 0xC3] && Chunk(message, 3, 1) == [0xA9];
    WholeCharacter();
    NoCharacter();
    AsciiIsValid([0x61]);
    ValidConcat([0x61], [0xC3]);
    assert [0x61] + [0xC3] == [0x61, 0xC3];
  }

  lemma WholeCharacter()
    ensures ValidString([0x61, 0xC3, 0xA9])
  {
    EncodedIsValid([0x61, 0xE9]);
    assert EncodeAll([0x61, 0xE9]) == [0x61, 0xC3, 0xA9];
  }

  lemma NoCharacter()
    ensures !ValidString([0xC3]) && !ValidString([0xA9])
  {
    assert Iterate([0xC3]).Bad? && Iterate([0xA9]).Bad?;
  }
}
