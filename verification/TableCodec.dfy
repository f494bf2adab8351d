/**
  Field tables, field arrays and field values of AMQP 0-9-1 (section 4.2.5.5): the encoder, which
  leaves room for a length and patches it in afterwards, and the recursive decoder.
 */
module TableCodec {
  import opened Bytes

  // ---------- data model ----------

  type int8 = x: int | -0x80 <= x < 0x80
  type int16 = x: int | -0x8000 <= x < 0x8000
  type int32 = x: int | -0x8000_0000 <= x < 0x8000_0000
  type int64 = x: int | -0x8000_0000_0000_0000 <= x < 0x8000_0000_0000_0000
  type uint16 = x: int | 0 <= x < 0x1_0000
  type uint32 = x: int | 0 <= x < WORD32
  type uint64 = x: int | 0 <= x < WORD64

  const KINDS: string := "tbBsuIilLfdDSxATFV"

  predicate IsKind(k: int) {
    exists i :: 0 <= i < |KINDS| && KINDS[i] as int == k
  }

  type unknownKind = k: byte | !IsKind(k) witness 0

  /** The kind octets of the protocol, as the library defines them. */
  lemma KindOctets(k: int)
    ensures IsKind(k) <==>
            k in [0x74, 0x62, 0x42, 0x73, 0x75, 0x49, 0x69, 0x6C, 0x4C,
                  0x66, 0x64, 0x44, 0x53, 0x78, 0x41, 0x54, 0x46, 0x56]
  {
    var octets :=
      [0x74, 0x62, 0x42, 0x73, 0x75, 0x49, 0x69, 0x6C, 0x4C, 0x66, 0x64, 0x44, 0x53, 0x78, 0x41, 0x54, 0x46, 0x56];
    assert |KINDS| == |octets|;
    assert forall i :: 0 <= i < |KINDS| ==> KINDS[i] as int == octets[i];
  }

  /** A field value; floating-point numbers are their bit patterns, Other is a kind byte outside the protocol. */
  datatype Field =
    | Boolean(b: bool)
    | I8(i8: int8)
    | U8(u8: byte)
    | I16(i16: int16)
    | U16(u16: uint16)
    | I32(i32: int32)
    | U32(u32: uint32)
    | I64(i64: int64)
    | U64(u64: uint64)
    | F32(f32: uint32)
    | F64(f64: uint64)
    | Decimal(decimals: byte, value: uint32)
    | Utf8(text: seq<byte>)
    | Binary(data: seq<byte>)
    | Array(elements: seq<Field>)
    | Timestamp(time: uint64)
    | Table(entries: seq<Entry>)
    | Void
    | Other(code: unknownKind)

  datatype Entry = Entry(key: seq<byte>, value: Field)

  function Kind(f: Field): byte {
    match f
    case Boolean(_) => 't' as int
    case I8(_) => 'b' as int
    case U8(_) => 'B' as int
    case I16(_) => 's' as int
    case U16(_) => 'u' as int
    case I32(_) => 'I' as int
    case U32(_) => 'i' as int
    case I64(_) => 'l' as int
    case U64(_) => 'L' as int
    case F32(_) => 'f' as int
    case F64(_) => 'd' as int
    case Decimal(_, _) => 'D' as int
    case Utf8(_) => 'S' as int
    case Binary(_) => 'x' as int
    case Array(_) => 'A' as int
    case Timestamp(_) => 'T' as int
    case Table(_) => 'F' as int
    case Void => 'V' as int
    case Other(k) => k
  }

  /** Every kind byte is one the protocol defines. */
  predicate Known(f: Field) {
    match f
    case Array(es) => forall e | e in es :: Known(e)
    case Table(es) => forall e | e in es :: Known(e.value)
    case Other(_) => false
    case _ => true
  }

  predicate KnownTable(t: seq<Entry>) {
    forall e | e in t :: Known(e.value)
  }

  /** Every key, at any depth, has a length that one octet can hold. */
  predicate KeysFit(f: Field) {
    match f
    case Array(es) => forall e | e in es :: KeysFit(e)
    case Table(es) => forall e | e in es :: |e.key| < 0x100 && KeysFit(e.value)
    case _ => true
  }

  predicate KeysFitTable(t: seq<Entry>) {
    forall e | e in t :: |e.key| < 0x100 && KeysFit(e.value)
  }

  // ---------- wire format ----------

  /** Two's complement. */
  function Unsigned(v: int, m: nat): nat
    requires m > 0
  {
    v % m
  }

  function Signed(v: nat, m: nat): int
    requires v < m
  {
    if v < m / 2 then v else v - m
  }

  function Payload(f: Field): seq<byte>
    decreases f, 0
  {
    match f
    case Boolean(b) => [if b then 1 else 0]
    case I8(v) => BigEndian(1, Unsigned(v, 0x100))
    case U8(v) => BigEndian(1, v)
    case I16(v) => BigEndian(2, Unsigned(v, 0x1_0000))
    case U16(v) => BigEndian(2, v)
    case I32(v) => BigEndian(4, Unsigned(v, WORD32))
    case U32(v) => BigEndian(4, v)
    case I64(v) => BigEndian(8, Unsigned(v, WORD64))
    case U64(v) => BigEndian(8, v)
    case F32(v) => BigEndian(4, v)
    case F64(v) => BigEndian(8, v)
    case Decimal(d, v) => [d] + BigEndian(4, v)
    case Utf8(s) => BigEndian(4, |s|) + s
    case Binary(s) => BigEndian(4, |s|) + s
    case Array(es) => BigEndian(4, |Elements(es)|) + Elements(es)
    case Timestamp(v) => BigEndian(8, v)
    case Table(es) => BigEndian(4, |Entries(es)|) + Entries(es)
    case Void => []
    case Other(_) => []
  }

  function FieldBytes(f: Field): (s: seq<byte>)
    ensures |s| >= 1
    decreases f, 1
  {
    [Kind(f)] + Payload(f)
  }

  function Elements(es: seq<Field>): seq<byte> {
    if es == [] then [] else FieldBytes(es[0]) + Elements(es[1..])
  }

  /** The key's length octet is the low octet of its length. */
  function EntryBytes(e: Entry): (s: seq<byte>)
    ensures |s| >= 2
  {
    [|e.key| % 0x100] + e.key + FieldBytes(e.value)
  }

  function Entries(es: seq<Entry>): seq<byte> {
    if es == [] then [] else EntryBytes(es[0]) + Entries(es[1..])
  }

  function TableBytes(t: seq<Entry>): seq<byte> {
    BigEndian(4, |Entries(t)|) + Entries(t)
  }

  /** A number of n octets in two's complement. */
  function TwosComplement(n: nat, v: int): seq<byte>
    requires 0 <= v + Pow256(n)
  {
    BigEndian(n, if v < 0 then v + Pow256(n) else v)
  }

  lemma UnsignedMeans(v: int, m: nat)
    requires 0 < m && 0 <= v + m && v < m
    ensures Unsigned(v, m) == if v < 0 then v + m else v
  {
    if v < 0 {
      ModUnique(v, m, -1, v + m);
    }
  }

  /** Each kind of field on the wire: its octet, and what follows it. */
  lemma FieldsOnTheWire(f: Field)
    ensures Pow256(1) == 0x100 && Pow256(2) == 0x1_0000 && Pow256(4) == WORD32 && Pow256(8) == WORD64
    ensures FieldBytes(f) ==
            match f
            case Boolean(b) => [0x74, if b then 1 else 0]
            case I8(v) => [0x62] + TwosComplement(1, v)
            case U8(v) => [0x42, v]
            case I16(v) => [0x73] + TwosComplement(2, v)
            case U16(v) => [0x75] + BigEndian(2, v)
            case I32(v) => [0x49] + TwosComplement(4, v)
            case U32(v) => [0x69] + BigEndian(4, v)
            case I64(v) => [0x6C] + TwosComplement(8, v)
            case U64(v) => [0x4C] + BigEndian(8, v)
            case F32(v) => [0x66] + BigEndian(4, v)
            case F64(v) => [0x64] + BigEndian(8, v)
            case Decimal(d, v) => [0x44, d] + BigEndian(4, v)
            case Utf8(s) => [0x53] + BigEndian(4, |s|) + s
            case Binary(s) => [0x78] + BigEndian(4, |s|) + s
            case Array(es) => [0x41] + BigEndian(4, |Elements(es)|) + Elements(es)
            case Timestamp(v) => [0x54] + BigEndian(8, v)
            case Table(es) => [0x46] + BigEndian(4, |Entries(es)|) + Entries(es)
            case Void => [0x56]
            case Other(k) => [k]
  {
    Pow256Values();
    match f {
      case I8(v) => UnsignedMeans(v, 0x100);
      case I16(v) => UnsignedMeans(v, 0x1_0000);
      case I32(v) => UnsignedMeans(v, WORD32);
      case I64(v) => UnsignedMeans(v, WORD64);
      case U8(v) => assert BigEndian(1, v) == [v] by { assert BigEndian(0, v / 0x100) == []; }
      case _ =>
    }
  }

  lemma StringField(text: seq<byte>)
    ensures FieldBytes(Utf8(text)) == [0x53] + BigEndian(4, |text|) + text
  {
    FieldsOnTheWire(Utf8(text));
  }

  lemma OneEntry(e: Entry)
    ensures Entries([e]) == EntryBytes(e)
  {
    hide EntryBytes;
    assert [e][1..] == [];
  }

  /** A table with one string in it. */
  lemma OneString(key: seq<byte>, text: seq<byte>)
    ensures var w := [|key| % 0x100] + key + ([0x53] + BigEndian(4, |text|) + text);
            TableBytes([Entry(key, Utf8(text))]) == BigEndian(4, |w|) + w
  {
    hide *;
    OneEntry(Entry(key, Utf8(text)));
    StringEntry(Entry(key, Utf8(text)));
    TableOf([Entry(key, Utf8(text))]);
  }

  lemma StringEntry(e: Entry)
    requires e.value.Utf8?
    ensures EntryBytes(e) == [|e.key| % 0x100] + e.key + ([0x53] + BigEndian(4, |e.value.text|) + e.value.text)
  {
    hide FieldBytes, BigEndian;
    StringField(e.value.text);
  }

  lemma TableOf(t: seq<Entry>)
    ensures TableBytes(t) == BigEndian(4, |Entries(t)|) + Entries(t)
  {
  }

  /** A table with the first entry of the one that every login sends, octet by octet. */
  lemma ProductOnTheWire()
    ensures var product := [0x70, 0x72, 0x6F, 0x64, 0x75, 0x63, 0x74];
            var name := [0x72, 0x61, 0x62, 0x62, 0x69, 0x74, 0x6D, 0x71, 0x2D, 0x63];
            TableBytes([Entry(product, Utf8(name))]) ==
            [0, 0, 0, 23] + ([7] + product + ([0x53] + [0, 0, 0, 10] + name))
  {
    hide TableBytes, BigEndian;
    SmallWord(10);
    SmallWord(23);
    OneString([0x70, 0x72, 0x6F, 0x64, 0x75, 0x63, 0x74], [0x72, 0x61, 0x62, 0x62, 0x69, 0x74, 0x6D, 0x71, 0x2D, 0x63]);
  }

  lemma SmallWord(v: byte)
    ensures BigEndian(4, v) == [0, 0, 0, v]
  {
    assert BigEndian(0, 0) == [] && BigEndian(1, 0) == [0] && BigEndian(2, 0) == [0, 0] && BigEndian(3, 0) == [0, 0, 0];
  }

  // ---------- encoding ----------

  datatype Status = Ok | BadAmqpData | TableTooBig | InvalidParameter

  /** Outcome of encoding with room octets left: the first thing that goes wrong decides. */
  function FieldStatus(f: Field, room: int): Status
    decreases f, 1
  {
    if room < 1 then BadAmqpData else
    match f
    case Array(es) => ArrayStatus(es, room - 1)
    case Table(es) => TableStatus(es, room - 1)
    case Other(_) => InvalidParameter
    case _ => if |FieldBytes(f)| <= room then Ok else TableTooBig
  }

  function ArrayStatus(es: seq<Field>, room: int): Status
    decreases es, 1
  {
    var st := ElementsStatus(es, room - 4);
    if st == Ok && room < 4 then TableTooBig else st
  }

  function ElementsStatus(es: seq<Field>, room: int): Status
    decreases es, 0
  {
    if es == [] then Ok else
    var st := FieldStatus(es[0], room);
    if st != Ok then st else ElementsStatus(es[1..], room - |FieldBytes(es[0])|)
  }

  function EntriesStatus(es: seq<Entry>, room: int): Status
    decreases es, 0
  {
    if es == [] then Ok else
    if room < 1 + |es[0].key| then TableTooBig else
    var st := FieldStatus(es[0].value, room - 1 - |es[0].key|);
    if st != Ok then st else EntriesStatus(es[1..], room - |EntryBytes(es[0])|)
  }

  function TableStatus(t: seq<Entry>, room: int): Status
    decreases t, 1
  {
    var st := EntriesStatus(t, room - 4);
    if st == Ok && room < 4 then TableTooBig else st
  }

  /** new is old with s written at off. */
  ghost predicate Written(before: seq<byte>, after: seq<byte>, off: nat, s: seq<byte>) {
    && |after| == |before|
    && off + |s| <= |after|
    && after[..off] == before[..off]
    && after[off..off + |s|] == s
    && after[off + |s|..] == before[off + |s|..]
  }

  /** Only octets from off on may differ. */
  ghost predicate SamePrefix(before: seq<byte>, after: seq<byte>, off: nat) {
    && |after| == |before|
    && (forall i :: 0 <= i < off && i < |before| ==> after[i] == before[i])
  }

  lemma WrittenTwice(a: seq<byte>, b: seq<byte>, c: seq<byte>, off: nat, s: seq<byte>, t: seq<byte>)
    requires Written(a, b, off, s) && Written(b, c, off + |s|, t)
    ensures Written(a, c, off, s + t)
  {
    assert c[off..off + |s|] == c[..off + |s|][off..] == b[..off + |s|][off..];
    assert c[off..off + |s + t|] == c[off..off + |s|] + c[off + |s|..off + |s| + |t|];
    assert c[..off] == c[..off + |s|][..off] == b[..off + |s|][..off];
    assert b[off + |s| + |t|..] == b[off + |s|..][|t|..] == a[off + |s|..][|t|..];
  }

  lemma WrittenSamePrefix(a: seq<byte>, b: seq<byte>, off: nat, s: seq<byte>)
    requires Written(a, b, off, s)
    ensures SamePrefix(a, b, off)
  {
    forall i | 0 <= i < off && i < |a| ensures b[i] == a[i] {
      assert b[..off][i] == a[..off][i];
    }
  }

  lemma SamePrefixChain(a: seq<byte>, b: seq<byte>, c: seq<byte>, off: nat, off': nat)
    requires SamePrefix(a, b, off) && SamePrefix(b, c, off') && off <= off'
    ensures SamePrefix(a, c, off)
  {
  }

  lemma NothingWritten(a: seq<byte>, off: nat)
    ensures SamePrefix(a, a, off)
    ensures off <= |a| ==> Written(a, a, off, [])
  {
  }

  /** Patching the room left in front of s. */
  lemma WrittenBefore(a: seq<byte>, b: seq<byte>, c: seq<byte>, off: nat, h: seq<byte>, s: seq<byte>)
    requires Written(a, b, off + |h|, s) && Written(b, c, off, h)
    ensures Written(a, c, off, h + s)
  {
    assert c[off + |h|..] == b[off + |h|..];
    assert c[off..off + |h + s|] == c[off..off + |h|] + c[off + |h|..][..|s|];
    assert b[off + |h|..][..|s|] == s;
    assert c[off + |h + s|..] == c[off + |h|..][|s|..];
    assert b[..off] == b[..off + |h|][..off] == a[..off + |h|][..off];
  }

  /** memcpy of s to offset off. */
  method Copy(buf: array<byte>, off: nat, s: seq<byte>)
    requires off + |s| <= buf.Length
    modifies buf
    ensures Written(old(buf[..]), buf[..], off, s)
  {
    forall i | 0 <= i < |s| {
      buf[off + i] := s[i];
    }
  }

  /** Writes octets if they fit; the offset moves on either way. */
  method EncodeBytes(buf: array<byte>, off: nat, s: seq<byte>) returns (ok: bool, next: nat)
    modifies buf
    ensures next == off + |s| && ok == (next <= buf.Length)
    ensures SamePrefix(old(buf[..]), buf[..], off)
    ensures if ok then Written(old(buf[..]), buf[..], off, s) else buf[..] == old(buf[..])
  {
    next := off + |s|;
    ok := next <= buf.Length;
    if ok {
      Copy(buf, off, s);
      WrittenSamePrefix(old(buf[..]), buf[..], off, s);
    }
  }

  method EncodeWord(buf: array<byte>, off: nat, n: nat, v: nat) returns (ok: bool, next: nat)
    modifies buf
    ensures next == off + n && ok == (next <= buf.Length)
    ensures SamePrefix(old(buf[..]), buf[..], off)
    ensures if ok then Written(old(buf[..]), buf[..], off, BigEndian(n, v)) else buf[..] == old(buf[..])
  {
    ok, next := EncodeBytes(buf, off, BigEndian(n, v));
  }

  /** What every encoder below promises about the buffer and the offset. */
  ghost predicate Encoded(before: seq<byte>, after: seq<byte>, off: nat, next: nat, st: Status, s: seq<byte>) {
    && SamePrefix(before, after, off)
    && (st == Ok ==> next == off + |s| && Written(before, after, off, s))
  }

  method EncodeTable(buf: array<byte>, t: seq<Entry>, start: nat) returns (st: Status, off: nat)
    modifies buf
    ensures st == TableStatus(t, buf.Length - start)
    ensures Encoded(old(buf[..]), buf[..], start, off, st, TableBytes(t))
    decreases t, 1
  {
    st, off := EncodeEntries(buf, t, start + 4);
    if st != Ok {
      return;
    }
    ghost var body := buf[..];
    var ok, next := EncodeWord(buf, start, 4, off - start - 4);
    if !ok {
      st := TableTooBig;
      return;
    }
    WrittenBefore(old(buf[..]), body, buf[..], start, BigEndian(4, |Entries(t)|), Entries(t));
  }

  lemma {:induction false} EntriesConcat(s: seq<Entry>, t: seq<Entry>)
    ensures Entries(s + t) == Entries(s) + Entries(t)
  {
    if s == [] {
      assert s + t == t;
    } else {
      assert (s + t)[0] == s[0] && (s + t)[1..] == s[1..] + t;
      EntriesConcat(s[1..], t);
    }
  }

  lemma EntriesNext(t: seq<Entry>, i: nat)
    requires i < |t|
    ensures Entries(t[..i + 1]) == Entries(t[..i]) + EntryBytes(t[i])
  {
    assert t[..i + 1] == t[..i] + [t[i]];
    EntriesConcat(t[..i], [t[i]]);
    assert Entries([t[i]]) == EntryBytes(t[i]);
  }

  lemma {:induction false} ElementsConcat(s: seq<Field>, t: seq<Field>)
    ensures Elements(s + t) == Elements(s) + Elements(t)
  {
    if s == [] {
      assert s + t == t;
    } else {
      assert (s + t)[0] == s[0] && (s + t)[1..] == s[1..] + t;
      ElementsConcat(s[1..], t);
    }
  }

  lemma ElementsNext(t: seq<Field>, i: nat)
    requires i < |t|
    ensures Elements(t[..i + 1]) == Elements(t[..i]) + FieldBytes(t[i])
  {
    assert t[..i + 1] == t[..i] + [t[i]];
    ElementsConcat(t[..i], [t[i]]);
    assert Elements([t[i]]) == FieldBytes(t[i]);
  }

  method EncodeEntry(buf: array<byte>, e: Entry, start: nat) returns (st: Status, off: nat)
    modifies buf
    ensures st == if buf.Length - start < 1 + |e.key| then TableTooBig
            else FieldStatus(e.value, buf.Length - start - 1 - |e.key|)
    ensures Encoded(old(buf[..]), buf[..], start, off, st, EntryBytes(e))
    decreases e, 0
  {
    hide Written, SamePrefix, FieldBytes, FieldStatus;
    var ok;
    ok, off := EncodePair(buf, start, 1, |e.key|, e.key);
    if !ok {
      return TableTooBig, off;
    }
    ghost var b2 := buf[..];
    st, off := EncodeField(buf, e.value, off);
    SamePrefixChain(old(buf[..]), b2, buf[..], start, start + 1 + |e.key|);
    if st == Ok {
      WrittenTwice(old(buf[..]), b2, buf[..], start, BigEndian(1, |e.key|) + e.key, FieldBytes(e.value));
      assert BigEndian(1, |e.key|) == [|e.key| % 0x100];
      assert EntryBytes(e) == BigEndian(1, |e.key|) + e.key + FieldBytes(e.value);
    }
  }

  method EncodeEntries(buf: array<byte>, t: seq<Entry>, start: nat) returns (st: Status, off: nat)
    modifies buf
    ensures st == EntriesStatus(t, buf.Length - start)
    ensures SamePrefix(old(buf[..]), buf[..], start)
    ensures st == Ok ==> off == start + |Entries(t)|
    ensures st == Ok && (t != [] || off <= buf.Length) ==> Written(old(buf[..]), buf[..], start, Entries(t))
    decreases t, 0
  {
    hide Written, SamePrefix, FieldStatus, EntryBytes;
    off := start;
    var i := 0;
    NothingWritten(buf[..], start);
    while i < |t|
      invariant 0 <= i <= |t| && off == start + |Entries(t[..i])|
      invariant EntriesStatus(t, buf.Length - start) == EntriesStatus(t[i..], buf.Length - off)
      invariant SamePrefix(old(buf[..]), buf[..], start)
      invariant if i == 0 then buf[..] == old(buf[..]) else Written(old(buf[..]), buf[..], start, Entries(t[..i]))
    {
      ghost var before, at := buf[..], off;
      st, off := EncodeEntry(buf, t[i], off);
      SamePrefixChain(old(buf[..]), before, buf[..], start, at);
      assert t[i..][0] == t[i] && t[i..][1..] == t[i + 1..];
      if st != Ok {
        return;
      }
      EntriesNext(t, i);
      if i > 0 {
        WrittenTwice(old(buf[..]), before, buf[..], start, Entries(t[..i]), EntryBytes(t[i]));
      } else {
        assert Entries(t[..0]) == [] && Entries(t[..1]) == EntryBytes(t[0]);
      }
      i := i + 1;
    }
    assert t[..i] == t && t[i..] == [];
    st := Ok;
  }

  method EncodeElements(buf: array<byte>, t: seq<Field>, start: nat) returns (st: Status, off: nat)
    modifies buf
    ensures st == ElementsStatus(t, buf.Length - start)
    ensures SamePrefix(old(buf[..]), buf[..], start)
    ensures st == Ok ==> off == start + |Elements(t)|
    ensures st == Ok && (t != [] || off <= buf.Length) ==> Written(old(buf[..]), buf[..], start, Elements(t))
    decreases t, 0
  {
    hide Written, SamePrefix, FieldStatus, FieldBytes;
    off := start;
    var i := 0;
    NothingWritten(buf[..], start);
    while i < |t|
      invariant 0 <= i <= |t| && off == start + |Elements(t[..i])|
      invariant ElementsStatus(t, buf.Length - start) == ElementsStatus(t[i..], buf.Length - off)
      invariant SamePrefix(old(buf[..]), buf[..], start)
      invariant if i == 0 then buf[..] == old(buf[..]) else Written(old(buf[..]), buf[..], start, Elements(t[..i]))
    {
      ghost var before, at := buf[..], off;
      st, off := EncodeField(buf, t[i], off);
      SamePrefixChain(old(buf[..]), before, buf[..], start, at);
      assert t[i..][0] == t[i] && t[i..][1..] == t[i + 1..];
      if st != Ok {
        return;
      }
      ElementsNext(t, i);
      if i > 0 {
        WrittenTwice(old(buf[..]), before, buf[..], start, Elements(t[..i]), FieldBytes(t[i]));
      } else {
        assert Elements(t[..0]) == [] && Elements(t[..1]) == FieldBytes(t[0]);
      }
      i := i + 1;
    }
    assert t[..i] == t && t[i..] == [];
    st := Ok;
  }

  method EncodeArray(buf: array<byte>, t: seq<Field>, start: nat) returns (st: Status, off: nat)
    modifies buf
    ensures st == ArrayStatus(t, buf.Length - start)
    ensures Encoded(old(buf[..]), buf[..], start, off, st, BigEndian(4, |Elements(t)|) + Elements(t))
    decreases t, 1
  {
    st, off := EncodeElements(buf, t, start + 4);
    if st != Ok {
      return;
    }
    ghost var body := buf[..];
    var ok, next := EncodeWord(buf, start, 4, off - start - 4);
    if !ok {
      st := TableTooBig;
      return;
    }
    WrittenBefore(old(buf[..]), body, buf[..], start, BigEndian(4, |Elements(t)|), Elements(t));
  }

  /** A word followed by octets, both only if they fit. */
  method EncodePair(buf: array<byte>, off: nat, n: nat, v: nat, s: seq<byte>) returns (ok: bool, next: nat)
    modifies buf
    ensures ok == (off + n + |s| <= buf.Length)
    ensures SamePrefix(old(buf[..]), buf[..], off)
    ensures ok ==> next == off + n + |s| && Written(old(buf[..]), buf[..], off, BigEndian(n, v) + s)
  {
    hide Written, SamePrefix;
    ok, next := EncodeWord(buf, off, n, v);
    if ok {
      ghost var b1 := buf[..];
      ok, next := EncodeBytes(buf, next, s);
      SamePrefixChain(old(buf[..]), b1, buf[..], off, off + n);
      if ok {
        WrittenTwice(old(buf[..]), b1, buf[..], off, BigEndian(n, v), s);
      }
    }
  }

  /** The octets after the kind of a value that is neither an array nor a table. */
  method EncodeScalar(buf: array<byte>, f: Field, start: nat) returns (st: Status, off: nat)
    requires !f.Array? && !f.Table? && !f.Other? && start <= buf.Length
    modifies buf
    ensures st == if start + |Payload(f)| <= buf.Length then Ok else TableTooBig
    ensures Encoded(old(buf[..]), buf[..], start, off, st, Payload(f))
  {
    hide Written, SamePrefix;
    var ok := true;
    off := start;
    match f {
      case Boolean(b) => OneOctet(if b then 1 else 0); ok, off := EncodeWord(buf, start, 1, if b then 1 else 0);
      case I8(v) => ok, off := EncodeWord(buf, start, 1, Unsigned(v, 0x100));
      case U8(v) => ok, off := EncodeWord(buf, start, 1, v);
      case I16(v) => ok, off := EncodeWord(buf, start, 2, Unsigned(v, 0x1_0000));
      case U16(v) => ok, off := EncodeWord(buf, start, 2, v);
      case I32(v) => ok, off := EncodeWord(buf, start, 4, Unsigned(v, WORD32));
      case U32(v) => ok, off := EncodeWord(buf, start, 4, v);
      case I64(v) => ok, off := EncodeWord(buf, start, 8, Unsigned(v, WORD64));
      case U64(v) => ok, off := EncodeWord(buf, start, 8, v);
      case F32(v) => ok, off := EncodeWord(buf, start, 4, v);
      case F64(v) => ok, off := EncodeWord(buf, start, 8, v);
      case Timestamp(v) => ok, off := EncodeWord(buf, start, 8, v);
      case Decimal(d, v) => OneOctet(d); ok, off := EncodePair(buf, start, 1, d, BigEndian(4, v));
      case Utf8(s) => ok, off := EncodePair(buf, start, 4, |s|, s);
      case Binary(s) => ok, off := EncodePair(buf, start, 4, |s|, s);
      case Void => NothingWritten(buf[..], start);
    }
    st := if ok then Ok else TableTooBig;
  }

  method EncodeField(buf: array<byte>, f: Field, start: nat) returns (st: Status, off: nat)
    modifies buf
    ensures st == FieldStatus(f, buf.Length - start)
    ensures Encoded(old(buf[..]), buf[..], start, off, st, FieldBytes(f))
    decreases f, 2
  {
    hide Written, SamePrefix, ArrayStatus, TableStatus, Elements, Entries, BigEndian;
    var ok;
    ok, off := EncodeWord(buf, start, 1, Kind(f));
    if !ok {
      return BadAmqpData, off;
    }
    ghost var b1 := buf[..];
    if f.Array? {
      st, off := EncodeArray(buf, f.elements, off);
    } else if f.Table? {
      st, off := EncodeTable(buf, f.entries, off);
    } else if f.Other? {
      NothingWritten(b1, off);
      st := InvalidParameter;
    } else {
      st, off := EncodeScalar(buf, f, off);
    }
    SamePrefixChain(old(buf[..]), b1, buf[..], start, start + 1);
    if st == Ok {
      OneOctet(Kind(f));
      WrittenTwice(old(buf[..]), b1, buf[..], start, BigEndian(1, Kind(f)), Payload(f));
    }
  }

  lemma OneOctet(k: byte)
    ensures BigEndian(1, k) == [k]
  {
    assert BigEndian(0, k / 0x100) == [] && k % 0x100 == k;
    assert BigEndian(1, k) == BigEndian(0, k / 0x100) + [k % 0x100];
  }

  /** Encoding succeeds just when every kind is known and everything fits. */
  lemma {:induction false} FieldStatusOk(f: Field, room: int)
    ensures FieldStatus(f, room) == Ok <==> Known(f) && |FieldBytes(f)| <= room
    ensures FieldStatus(f, room) == InvalidParameter ==> !Known(f)
    decreases f, 2
  {
    if f.Array? {
      ArrayStatusOk(f.elements, room - 1);
    } else if f.Table? {
      TableStatusOk(f.entries, room - 1);
    }
  }

  lemma {:induction false} ArrayStatusOk(es: seq<Field>, room: int)
    ensures ArrayStatus(es, room) == Ok <==> (forall e | e in es :: Known(e)) && 4 + |Elements(es)| <= room
    ensures ArrayStatus(es, room) == InvalidParameter ==> !(forall e | e in es :: Known(e))
    decreases es, 1
  {
    ElementsStatusOk(es, room - 4);
  }

  lemma {:induction false} ElementsStatusOk(es: seq<Field>, room: int)
    ensures ElementsStatus(es, room) == Ok <==> (forall e | e in es :: Known(e)) && (es == [] || |Elements(es)| <= room)
    ensures ElementsStatus(es, room) == InvalidParameter ==> !(forall e | e in es :: Known(e))
    decreases es, 0
  {
    if es != [] {
      FieldStatusOk(es[0], room);
      ElementsStatusOk(es[1..], room - |FieldBytes(es[0])|);
      assert forall e :: e in es <==> e == es[0] || e in es[1..];
    }
  }

  lemma {:induction false} TableStatusOk(t: seq<Entry>, room: int)
    ensures TableStatus(t, room) == Ok <==> KnownTable(t) && |TableBytes(t)| <= room
    ensures TableStatus(t, room) == InvalidParameter ==> !KnownTable(t)
    decreases t, 1
  {
    EntriesStatusOk(t, room - 4);
  }

  lemma {:induction false} EntriesStatusOk(t: seq<Entry>, room: int)
    ensures EntriesStatus(t, room) == Ok <==> KnownTable(t) && (t == [] || |Entries(t)| <= room)
    ensures EntriesStatus(t, room) == InvalidParameter ==> !KnownTable(t)
    decreases t, 0
  {
    if t != [] {
      FieldStatusOk(t[0].value, room - 1 - |t[0].key|);
      EntriesStatusOk(t[1..], room - |EntryBytes(t[0])|);
      assert forall e :: e in t <==> e == t[0] || e in t[1..];
    }
  }

  // ---------- decoding ----------

  datatype Decoded<T> = Good(value: T, next: nat) | Bad

  function DecWord(buf: seq<byte>, n: nat, off: nat): (r: Decoded<nat>)
    ensures r.Good? ==> r.next == off + n <= |buf| && r.value < Pow256(n)
  {
    if off + n <= |buf| then Good(FromBigEndian(buf[off..off + n]), off + n) else Bad
  }

  function DecBytes(buf: seq<byte>, n: nat, off: nat): (r: Decoded<seq<byte>>)
    ensures r.Good? ==> r.next == off + n <= |buf| && |r.value| == n
  {
    if off + n <= |buf| then Good(buf[off..off + n], off + n) else Bad
  }

  /** A length word followed by that many octets. */
  function DecLongString(buf: seq<byte>, off: nat): (r: Decoded<seq<byte>>)
    ensures r.Good? ==> r.next == off + 4 + |r.value| <= |buf|
  {
    var len := DecWord(buf, 4, off);
    if len.Bad? then Bad else DecBytes(buf, len.value, len.next)
  }

  /** The width in octets of a kind that is one word, 0 for any other kind. */
  function WordWidth(kind: byte): nat {
    if kind == 't' as int || kind == 'b' as int || kind == 'B' as int then 1
    else if kind == 's' as int || kind == 'u' as int then 2
    else if kind == 'I' as int || kind == 'i' as int || kind == 'f' as int then 4
    else if kind == 'l' as int || kind == 'L' as int || kind == 'd' as int || kind == 'T' as int then 8
    else 0
  }

  function FromWord(kind: byte, v: nat): (f: Field)
    requires WordWidth(kind) > 0 && v < Pow256(WordWidth(kind))
    ensures Known(f) && KeysFit(f) && |Payload(f)| == WordWidth(kind) && Kind(f) == kind
  {
    Pow256Values();
    if kind == 't' as int then Boolean(v != 0)
    else if kind == 'b' as int then I8(Signed(v, 0x100))
    else if kind == 'B' as int then U8(v)
    else if kind == 's' as int then I16(Signed(v, 0x1_0000))
    else if kind == 'u' as int then U16(v)
    else if kind == 'I' as int then I32(Signed(v, WORD32))
    else if kind == 'i' as int then U32(v)
    else if kind == 'f' as int then F32(v)
    else if kind == 'l' as int then I64(Signed(v, WORD64))
    else if kind == 'L' as int then U64(v)
    else if kind == 'd' as int then F64(v)
    else Timestamp(v)
  }

  /** The value after a kind octet that is neither an array nor a table. */
  function DecScalar(buf: seq<byte>, kind: byte, off: nat): (r: Decoded<Field>)
    requires off <= |buf|
    ensures r.Good? ==> off <= r.next <= |buf|
  {
    Pow256Values();
    if WordWidth(kind) > 0 then
      match DecWord(buf, WordWidth(kind), off)
      case Good(v, next) => Good(FromWord(kind, v), next)
      case Bad => Bad
    else if kind == 'D' as int then
      if off + 5 <= |buf| then Good(Decimal(buf[off], FromBigEndian(buf[off + 1..off + 5])), off + 5) else Bad
    else if kind == 'S' as int || kind == 'x' as int then
      match DecLongString(buf, off)
      case Good(s, next) => Good(if kind == 'S' as int then Utf8(s) else Binary(s), next)
      case Bad => Bad
    else if kind == 'V' as int then Good(Void, off)
    else Bad
  }

  function DecField(buf: seq<byte>, off: nat): (r: Decoded<Field>)
    requires off <= |buf|
    ensures r.Good? ==> off < r.next <= |buf|
    decreases |buf| - off, 0
  {
    if off == |buf| then Bad else
    var kind := buf[off];
    if kind == 'A' as int then
      match DecArray(buf, off + 1)
      case Good(es, next) => Good(Array(es), next)
      case Bad => Bad
    else if kind == 'F' as int then
      match DecTable(buf, off + 1)
      case Good(es, next) => Good(Table(es), next)
      case Bad => Bad
    else
      DecScalar(buf, kind, off + 1)
  }

  function DecArray(buf: seq<byte>, off: nat): (r: Decoded<seq<Field>>)
    requires off <= |buf|
    ensures r.Good? ==> off < r.next <= |buf|
    decreases |buf| - off, 2
  {
    var size := DecWord(buf, 4, off);
    if size.Bad? then Bad else DecElements(buf, size.next, size.next + size.value)
  }

  function DecElements(buf: seq<byte>, off: nat, limit: nat): (r: Decoded<seq<Field>>)
    requires off <= |buf|
    ensures r.Good? ==> off <= r.next <= |buf| && limit <= r.next
    decreases |buf| - off, 1
  {
    if off >= limit then Good([], off) else
    var e := DecField(buf, off);
    if e.Bad? then Bad else
    match DecElements(buf, e.next, limit)
    case Good(es, next) => Good([e.value] + es, next)
    case Bad => Bad
  }

  function DecEntry(buf: seq<byte>, off: nat): (r: Decoded<Entry>)
    requires off <= |buf|
    ensures r.Good? ==> off < r.next <= |buf|
    decreases |buf| - off, 1
  {
    if off == |buf| then Bad else
    var key := DecBytes(buf, buf[off], off + 1);
    if key.Bad? then Bad else
    match DecField(buf, key.next)
    case Good(v, next) => Good(Entry(key.value, v), next)
    case Bad => Bad
  }

  function DecEntries(buf: seq<byte>, off: nat, limit: nat): (r: Decoded<seq<Entry>>)
    requires off <= |buf|
    ensures r.Good? ==> off <= r.next <= |buf| && limit <= r.next
    decreases |buf| - off, 2
  {
    if off >= limit then Good([], off) else
    var e := DecEntry(buf, off);
    if e.Bad? then Bad else
    match DecEntries(buf, e.next, limit)
    case Good(es, next) => Good([e.value] + es, next)
    case Bad => Bad
  }

  function DecTable(buf: seq<byte>, off: nat): (r: Decoded<seq<Entry>>)
    requires off <= |buf|
    ensures r.Good? ==> off < r.next <= |buf|
    decreases |buf| - off, 3
  {
    var size := DecWord(buf, 4, off);
    if size.Bad? then Bad else DecEntries(buf, size.next, size.next + size.value)
  }

  // ---------- what a successful decoding means, on arbitrary octets ----------

  lemma {:induction false} DecodedScalar(buf: seq<byte>, kind: byte, off: nat)
    requires off <= |buf| && DecScalar(buf, kind, off).Good? && kind != 'A' as int && kind != 'F' as int
    ensures var r := DecScalar(buf, kind, off);
            Known(r.value) && KeysFit(r.value) && Kind(r.value) == kind && r.next == off + |Payload(r.value)|
  {
  }

  /** The decoder consumes exactly the encoding's size, meets only known kinds, and yields only short keys. */
  lemma {:induction false} DecodedField(buf: seq<byte>, off: nat)
    requires off <= |buf| && DecField(buf, off).Good?
    ensures var r := DecField(buf, off);
            Known(r.value) && KeysFit(r.value) && r.next == off + |FieldBytes(r.value)|
    decreases |buf| - off, 0
  {
    var kind := buf[off];
    if kind == 'A' as int {
      DecodedElements(buf, off + 5, off + 5 + DecWord(buf, 4, off + 1).value);
    } else if kind == 'F' as int {
      DecodedTable(buf, off + 1);
    } else {
      DecodedScalar(buf, kind, off + 1);
    }
  }

  lemma {:induction false} DecodedElements(buf: seq<byte>, off: nat, limit: nat)
    requires off <= |buf| && DecElements(buf, off, limit).Good?
    ensures var r := DecElements(buf, off, limit);
            && (forall e | e in r.value :: Known(e) && KeysFit(e)) && r.next == off + |Elements(r.value)|
            && |r.value| <= |Elements(r.value)|
    decreases |buf| - off, 1
  {
    if off < limit {
      DecodedField(buf, off);
      DecodedElements(buf, DecField(buf, off).next, limit);
    }
  }

  lemma {:induction false} DecodedEntries(buf: seq<byte>, off: nat, limit: nat)
    requires off <= |buf| && DecEntries(buf, off, limit).Good?
    ensures var r := DecEntries(buf, off, limit);
            KnownTable(r.value) && KeysFitTable(r.value) && r.next == off + |Entries(r.value)|
            && 2 * |r.value| <= |Entries(r.value)|
    decreases |buf| - off, 2
  {
    if off < limit {
      DecodedField(buf, off + 1 + buf[off]);
      DecodedEntries(buf, DecEntry(buf, off).next, limit);
    }
  }

  lemma {:induction false} DecodedTable(buf: seq<byte>, off: nat)
    requires off <= |buf| && DecTable(buf, off).Good?
    ensures var r := DecTable(buf, off);
            && KnownTable(r.value) && KeysFitTable(r.value)
            && r.next == off + |TableBytes(r.value)|
            && off + 4 + FromBigEndian(buf[off..off + 4]) <= r.next <= |buf|
            && 2 * |r.value| <= r.next - off - 4
    decreases |buf| - off, 3
  {
    DecodedEntries(buf, off + 4, off + 4 + DecWord(buf, 4, off).value);
  }

  /** A number in two's complement, of m values. */
  function FromTwos(v: nat, m: nat): int {
    if 2 * v < m then v else v - m
  }

  /** The n octets after the kind octet, as a number. */
  function WordAfter(buf: seq<byte>, off: nat, n: nat): nat
    requires off + 1 + n <= |buf|
  {
    FromBigEndian(buf[off + 1..off + 1 + n])
  }

  /** What a field that is decoded says for each kind octet, and that there is no other. */
  lemma FieldsFromTheWire(buf: seq<byte>, off: nat)
    requires off <= |buf| && DecField(buf, off).Good?
    ensures off < |buf|
    ensures var k: int, f, next := buf[off], DecField(buf, off).value, DecField(buf, off).next;
            var n := next - off - 1;
            && (k in {0x74, 0x62, 0x42} ==> n == 1) && (k in {0x73, 0x75} ==> n == 2)
            && (k in {0x49, 0x69, 0x66} ==> n == 4) && (k in {0x6C, 0x4C, 0x64, 0x54} ==> n == 8)
            && n >= 0
            && var w := WordAfter(buf, off, n);
            && (k == 0x74 ==> f == Boolean(w != 0))
            && (k == 0x62 ==> f.I8? && f.i8 == FromTwos(w, 0x100))
            && (k == 0x42 ==> f.U8? && f.u8 == w)
            && (k == 0x73 ==> f.I16? && f.i16 == FromTwos(w, 0x1_0000))
            && (k == 0x75 ==> f.U16? && f.u16 == w)
            && (k == 0x49 ==> f.I32? && f.i32 == FromTwos(w, 0x1_0000_0000))
            && (k == 0x69 ==> f.U32? && f.u32 == w)
            && (k == 0x6C ==> f.I64? && f.i64 == FromTwos(w, 0x1_0000_0000_0000_0000))
            && (k == 0x4C ==> f.U64? && f.u64 == w)
            && (k == 0x66 ==> f.F32? && f.f32 == w)
            && (k == 0x64 ==> f.F64? && f.f64 == w)
            && (k == 0x54 ==> f.Timestamp? && f.time == w)
            && (k == 0x44 ==>
                n == 5 && f.Decimal? && f.decimals == buf[off + 1] && f.value == FromBigEndian(buf[off + 2..next]))
            && (k == 0x53 ==> n >= 4 && f == Utf8(buf[off + 5..next]) && WordAfter(buf, off, 4) == n - 4)
            && (k == 0x78 ==> n >= 4 && f == Binary(buf[off + 5..next]) && WordAfter(buf, off, 4) == n - 4)
            && (k == 0x41 ==> f.Array?) && (k == 0x46 ==> f.Table?) && (k == 0x56 ==> n == 0 && f == Void)
            && k in {0x74, 0x62, 0x42, 0x73, 0x75, 0x49, 0x69, 0x6C, 0x4C,
                     0x66, 0x64, 0x44, 0x53, 0x78, 0x41, 0x54, 0x46, 0x56}
  {
    hide DecArray, DecTable, FromBigEndian;
    Pow256Values();
  }

  // ---------- round trip ----------

  /** s stands in buf at off. */
  ghost predicate StandsAt(buf: seq<byte>, off: nat, s: seq<byte>) {
    off + |s| <= |buf| && buf[off..off + |s|] == s
  }

  lemma StandsSplit(buf: seq<byte>, off: nat, s: seq<byte>, t: seq<byte>)
    requires StandsAt(buf, off, s + t)
    ensures StandsAt(buf, off, s) && StandsAt(buf, off + |s|, t)
  {
    assert buf[off..off + |s|] == buf[off..off + |s + t|][..|s|];
    assert buf[off + |s|..off + |s| + |t|] == buf[off..off + |s + t|][|s|..];
  }

  /** Reading an encoded word back, for a buffer that one length word can cover. */
  lemma ReadWord(buf: seq<byte>, off: nat, n: nat, v: nat)
    requires StandsAt(buf, off, BigEndian(n, v)) && v < Pow256(n)
    ensures DecWord(buf, n, off) == Good(v, off + n)
  {
    BigEndianRoundTrip(n, v);
    ModUnique(v, Pow256(n), 0, v);
  }

  lemma SignedRoundTrip(v: int, m: nat)
    requires m > 0 && m % 2 == 0 && -(m / 2) <= v < m / 2
    ensures Unsigned(v, m) < m && Signed(Unsigned(v, m), m) == v
  {
    ModUnique(v, m, if v >= 0 then 0 else -1, if v >= 0 then v else v + m);
  }

  lemma ReadSigned(buf: seq<byte>, f: Field, off: nat)
    requires StandsAt(buf, off, Payload(f)) && (f.I8? || f.I16? || f.I32? || f.I64?)
    ensures DecScalar(buf, Kind(f), off) == Good(f, off + |Payload(f)|)
  {
    hide BigEndian, FromBigEndian, Pow256, StandsAt, DecWord;
    Pow256Values();
    match f {
      case I8(v) => SignedRoundTrip(v, 0x100); ReadWord(buf, off, 1, Unsigned(v, 0x100));
      case I16(v) => SignedRoundTrip(v, 0x1_0000); ReadWord(buf, off, 2, Unsigned(v, 0x1_0000));
      case I32(v) => SignedRoundTrip(v, WORD32); ReadWord(buf, off, 4, Unsigned(v, WORD32));
      case I64(v) => SignedRoundTrip(v, WORD64); ReadWord(buf, off, 8, Unsigned(v, WORD64));
    }
  }

  lemma ReadUnsigned(buf: seq<byte>, f: Field, off: nat)
    requires StandsAt(buf, off, Payload(f))
    requires f.Boolean? || f.U8? || f.U16? || f.U32? || f.U64? || f.F32? || f.F64? || f.Timestamp?
    ensures DecScalar(buf, Kind(f), off) == Good(f, off + |Payload(f)|)
  {
    hide BigEndian, FromBigEndian, Pow256, StandsAt, DecWord;
    Pow256Values();
    match f {
      case Boolean(b) => OneOctet(if b then 1 else 0); ReadWord(buf, off, 1, if b then 1 else 0);
      case U8(v) => ReadWord(buf, off, 1, v);
      case U16(v) => ReadWord(buf, off, 2, v);
      case U32(v) => ReadWord(buf, off, 4, v);
      case U64(v) => ReadWord(buf, off, 8, v);
      case F32(v) => ReadWord(buf, off, 4, v);
      case F64(v) => ReadWord(buf, off, 8, v);
      case Timestamp(v) => ReadWord(buf, off, 8, v);
    }
  }

  lemma ReadDecimal(buf: seq<byte>, f: Field, off: nat)
    requires StandsAt(buf, off, Payload(f)) && f.Decimal?
    ensures DecScalar(buf, Kind(f), off) == Good(f, off + |Payload(f)|)
  {
    hide BigEndian, FromBigEndian, Pow256;
    StandsSplit(buf, off, [f.decimals], BigEndian(4, f.value));
    Pow256Values();
    ReadWord(buf, off + 1, 4, f.value);
    assert buf[off] == buf[off..off + 1][0] == f.decimals;
  }

  lemma LengthFits(n: nat)
    requires n < WORD32
    ensures n % Pow256(4) == n
  {
    Pow256Values();
  }

  lemma ReadString(buf: seq<byte>, s: seq<byte>, off: nat)
    requires |buf| <= WORD32 && StandsAt(buf, off, BigEndian(4, |s|) + s)
    ensures DecLongString(buf, off) == Good(s, off + 4 + |s|)
  {
    hide BigEndian, FromBigEndian, Pow256;
    assert off + 4 + |s| <= |buf|;
    StandsSplit(buf, off, BigEndian(4, |s|), s);
    hide StandsAt;
    LengthFits(|s|);
    ReadWord(buf, off, 4, |s|);
    StringAt(buf, s, off + 4);
  }

  lemma StringAt(buf: seq<byte>, s: seq<byte>, off: nat)
    requires StandsAt(buf, off, s)
    ensures DecBytes(buf, |s|, off) == Good(s, off + |s|)
  {
  }

  lemma ReadScalar(buf: seq<byte>, f: Field, off: nat)
    requires |buf| <= WORD32 && StandsAt(buf, off, Payload(f))
    requires !f.Array? && !f.Table? && !f.Other?
    ensures DecScalar(buf, Kind(f), off) == Good(f, off + |Payload(f)|)
  {
    hide BigEndian, FromBigEndian, Pow256, DecLongString, DecWord;
    if f.I8? || f.I16? || f.I32? || f.I64? {
      ReadSigned(buf, f, off);
    } else if f.Decimal? {
      ReadDecimal(buf, f, off);
    } else if f.Utf8? {
      ReadString(buf, f.text, off);
    } else if f.Binary? {
      ReadString(buf, f.data, off);
    } else if !f.Void? {
      ReadUnsigned(buf, f, off);
    }
  }

  lemma {:induction false} ReadField(buf: seq<byte>, f: Field, off: nat)
    requires |buf| <= WORD32 && StandsAt(buf, off, FieldBytes(f)) && Known(f) && KeysFit(f)
    ensures DecField(buf, off) == Good(f, off + |FieldBytes(f)|)
    decreases f, 1
  {
    hide DecScalar, DecTable, Pow256, BigEndian, FromBigEndian, Elements, Entries;
    StandsSplit(buf, off, [Kind(f)], Payload(f));
    assert buf[off] == buf[off..off + 1][0] == Kind(f);
    if f.Array? {
      StandsSplit(buf, off + 1, BigEndian(4, |Elements(f.elements)|), Elements(f.elements));
      Pow256Values();
      ReadWord(buf, off + 1, 4, |Elements(f.elements)|);
      ReadElements(buf, f.elements, off + 5);
    } else if f.Table? {
      ReadTable(buf, f.entries, off + 1);
    } else {
      ReadScalar(buf, f, off + 1);
    }
  }

  lemma {:induction false} ReadElements(buf: seq<byte>, es: seq<Field>, off: nat)
    requires |buf| <= WORD32 && StandsAt(buf, off, Elements(es))
    requires forall e | e in es :: Known(e) && KeysFit(e)
    ensures DecElements(buf, off, off + |Elements(es)|) == Good(es, off + |Elements(es)|)
    decreases es, 0
  {
    hide StandsAt, DecField, FieldBytes;
    if es != [] {
      StandsSplit(buf, off, FieldBytes(es[0]), Elements(es[1..]));
      ReadField(buf, es[0], off);
      ReadElements(buf, es[1..], off + |FieldBytes(es[0])|);
      assert es == [es[0]] + es[1..];
    }
  }

  lemma {:induction false} ReadEntry(buf: seq<byte>, e: Entry, off: nat)
    requires |buf| <= WORD32 && StandsAt(buf, off, EntryBytes(e)) && |e.key| < 0x100 && Known(e.value)
             && KeysFit(e.value)
    ensures DecEntry(buf, off) == Good(e, off + |EntryBytes(e)|)
    decreases e, 0
  {
    hide DecField, FieldBytes;
    StandsSplit(buf, off, [|e.key| % 0x100] + e.key, FieldBytes(e.value));
    StandsSplit(buf, off, [|e.key| % 0x100], e.key);
    assert buf[off] == buf[off..off + 1][0] == |e.key|;
    ReadField(buf, e.value, off + 1 + |e.key|);
  }

  lemma {:induction false} ReadEntries(buf: seq<byte>, es: seq<Entry>, off: nat)
    requires |buf| <= WORD32 && StandsAt(buf, off, Entries(es)) && KnownTable(es) && KeysFitTable(es)
    ensures DecEntries(buf, off, off + |Entries(es)|) == Good(es, off + |Entries(es)|)
    decreases es, 0
  {
    hide StandsAt, DecEntry, EntryBytes;
    if es != [] {
      StandsSplit(buf, off, EntryBytes(es[0]), Entries(es[1..]));
      ReadEntry(buf, es[0], off);
      ReadEntries(buf, es[1..], off + |EntryBytes(es[0])|);
      assert es == [es[0]] + es[1..];
    }
  }

  lemma {:induction false} ReadTable(buf: seq<byte>, t: seq<Entry>, off: nat)
    requires |buf| <= WORD32 && StandsAt(buf, off, TableBytes(t)) && KnownTable(t) && KeysFitTable(t)
    ensures DecTable(buf, off) == Good(t, off + |TableBytes(t)|)
    decreases t, 1
  {
    StandsSplit(buf, off, BigEndian(4, |Entries(t)|), Entries(t));
    Pow256Values();
    ReadWord(buf, off, 4, |Entries(t)|);
    ReadEntries(buf, t, off + 4);
  }

  /**
    Decoding an encoded table gives the table back, and ends where the encoder ended, exactly when
    every key's length fits its length octet.
   */
  lemma TableRoundTrip(t: seq<Entry>, buf: seq<byte>, start: nat)
    requires KnownTable(t) && StandsAt(buf, start, TableBytes(t)) && |buf| <= WORD32
    ensures DecTable(buf, start) == Good(t, start + |TableBytes(t)|) <==> KeysFitTable(t)
    ensures DecTable(buf, start).Good? && DecTable(buf, start).value == t ==> KeysFitTable(t)
  {
    if KeysFitTable(t) {
      ReadTable(buf, t, start);
    } else if DecTable(buf, start).Good? {
      DecodedTable(buf, start);
    }
  }

  /** The length octet of an over-long key makes the decoder go astray: 256 is written as 0. */
  lemma LongKeyIsLost(key: seq<byte>)
    requires |key| == 0x100
    ensures DecTable(TableBytes([Entry(key, Void)]), 0) != Good([Entry(key, Void)], |TableBytes([Entry(key, Void)])|)
  {
    var t := [Entry(key, Void)];
    assert Entries(t) == EntryBytes(t[0]);
    assert t[0] in t;
    TableRoundTrip(t, TableBytes(t), 0);
  }

  /** Encoding into a buffer and decoding from the same offset, through the buffer. */
  method EncodeThenDecode(buf: array<byte>, t: seq<Entry>, start: nat) returns (st: Status, r: Decoded<seq<Entry>>)
    requires start <= buf.Length <= WORD32
    modifies buf
    ensures st == Ok <==> KnownTable(t) && start + |TableBytes(t)| <= buf.Length
    ensures st == Ok ==> (r == Good(t, start + |TableBytes(t)|) <==> KeysFitTable(t))
  {
    var off;
    st, off := EncodeTable(buf, t, start);
    TableStatusOk(t, buf.Length - start);
    r := Bad;
    if st == Ok {
      r := DecodeTable(buf[..], start);
      TableRoundTrip(t, buf[..], start);
    }
  }

  // ---------- the decoder's loops ----------

  /** Entry arrays start with this many slots and double when full. */
  const INITIAL_SIZE := 16

  method Grow<T>(old_: array<T>, filler: T) returns (bigger: array<T>)
    requires old_.Length > 0
    ensures fresh(bigger) && bigger.Length == 2 * old_.Length && bigger[..old_.Length] == old_[..]
  {
    bigger := new T[2 * old_.Length](_ => filler);
    forall i | 0 <= i < old_.Length {
      bigger[i] := old_[i];
    }
  }

  function Prepend<T>(s: seq<T>, r: Decoded<seq<T>>): Decoded<seq<T>> {
    match r
    case Good(t, next) => Good(s + t, next)
    case Bad => Bad
  }

  lemma PrependNone<T>(r: Decoded<seq<T>>)
    ensures Prepend([], r) == r
  {
    if r.Good? {
      assert [] + r.value == r.value;
    }
  }

  lemma PrependOne<T>(s: seq<T>, x: T, r: Decoded<seq<T>>)
    ensures Prepend(s + [x], r) == Prepend(s, Prepend([x], r))
  {
    if r.Good? {
      assert s + [x] + r.value == s + ([x] + r.value);
    }
  }

  lemma EntriesStep(buf: seq<byte>, off: nat, limit: nat)
    requires off <= |buf| && off < limit
    ensures DecEntries(buf, off, limit) ==
            var e := DecEntry(buf, off);
            if e.Bad? then Bad else Prepend([e.value], DecEntries(buf, e.next, limit))
  {
  }

  lemma ElementsStep(buf: seq<byte>, off: nat, limit: nat)
    requires off <= |buf| && off < limit
    ensures DecElements(buf, off, limit) ==
            var e := DecField(buf, off);
            if e.Bad? then Bad else Prepend([e.value], DecElements(buf, e.next, limit))
  {
  }

  method DecodeEntry(buf: seq<byte>, off: nat) returns (r: Decoded<Entry>)
    requires off <= |buf|
    ensures r == DecEntry(buf, off)
    decreases |buf| - off, 1
  {
    if off == |buf| {
      return Bad;
    }
    var key := DecBytes(buf, buf[off], off + 1);
    if key.Bad? {
      return Bad;
    }
    var value := DecodeField(buf, key.next);
    if value.Bad? {
      return Bad;
    }
    r := Good(Entry(key.value, value.value), value.next);
  }

  method DecodeTable(buf: seq<byte>, off: nat) returns (r: Decoded<seq<Entry>>)
    requires off <= |buf|
    ensures r == DecTable(buf, off)
    decreases |buf| - off, 3
  {
    hide DecEntry, DecEntries, FromBigEndian, Prepend;
    var size := DecWord(buf, 4, off);
    if size.Bad? {
      return Bad;
    }
    var entries := new Entry[INITIAL_SIZE](_ => Entry([], Void));
    var n := 0;
    var cur, limit := size.next, size.next + size.value;
    ghost var whole := DecEntries(buf, cur, limit);
    PrependNone(whole);
    assert entries[..0] == [];
    while cur < limit
      invariant 0 <= n <= entries.Length && entries.Length > 0 && off < cur <= |buf| && fresh(entries)
      invariant whole == Prepend(entries[..n], DecEntries(buf, cur, limit))
      decreases |buf| - cur
    {
      EntriesStep(buf, cur, limit);
      ghost var done := entries[..n];
      if n >= entries.Length {
        assert done == entries[..];
        entries := Grow(entries, Entry([], Void));
      }
      assert entries[..n] == done;
      var e := DecodeEntry(buf, cur);
      if e.Bad? {
        PrependBad<Entry>(done);
        return Bad;
      }
      entries[n] := e.value;
      assert entries[..n + 1] == done + [e.value];
      PrependOne(done, e.value, DecEntries(buf, e.next, limit));
      n, cur := n + 1, e.next;
    }
    NoMoreEntries(buf, cur, limit, entries[..n]);
    r := Good(entries[..n], cur);
  }

  lemma PrependBad<T>(s: seq<T>)
    ensures Prepend(s, Bad) == Bad
  {
  }

  lemma NoMoreEntries(buf: seq<byte>, cur: nat, limit: nat, s: seq<Entry>)
    requires limit <= cur <= |buf|
    ensures Prepend(s, DecEntries(buf, cur, limit)) == Good(s, cur)
  {
    assert s + [] == s;
  }

  lemma NoMoreElements(buf: seq<byte>, cur: nat, limit: nat, s: seq<Field>)
    requires limit <= cur <= |buf|
    ensures Prepend(s, DecElements(buf, cur, limit)) == Good(s, cur)
  {
    assert s + [] == s;
  }

  method DecodeArray(buf: seq<byte>, off: nat) returns (r: Decoded<seq<Field>>)
    requires off <= |buf|
    ensures r == DecArray(buf, off)
    decreases |buf| - off, 2
  {
    hide DecField, DecElements, FromBigEndian, Prepend;
    var size := DecWord(buf, 4, off);
    if size.Bad? {
      return Bad;
    }
    var elements := new Field[INITIAL_SIZE](_ => Void);
    var n := 0;
    var cur, limit := size.next, size.next + size.value;
    ghost var whole := DecElements(buf, cur, limit);
    PrependNone(whole);
    assert elements[..0] == [];
    while cur < limit
      invariant 0 <= n <= elements.Length && elements.Length > 0 && off < cur <= |buf| && fresh(elements)
      invariant whole == Prepend(elements[..n], DecElements(buf, cur, limit))
      decreases |buf| - cur
    {
      ElementsStep(buf, cur, limit);
      ghost var done := elements[..n];
      if n >= elements.Length {
        assert done == elements[..];
        elements := Grow(elements, Void);
      }
      assert elements[..n] == done;
      var value := DecodeField(buf, cur);
      if value.Bad? {
        PrependBad<Field>(done);
        return Bad;
      }
      elements[n] := value.value;
      assert elements[..n + 1] == done + [value.value];
      PrependOne(done, value.value, DecElements(buf, value.next, limit));
      n, cur := n + 1, value.next;
    }
    NoMoreElements(buf, cur, limit, elements[..n]);
    r := Good(elements[..n], cur);
  }

  method DecodeField(buf: seq<byte>, off: nat) returns (r: Decoded<Field>)
    requires off <= |buf|
    ensures r == DecField(buf, off)
    decreases |buf| - off, 0
  {
    if off == |buf| {
      return Bad;
    }
    if buf[off] == 'A' as int {
      var a := DecodeArray(buf, off + 1);
      r := if a.Good? then Good(Array(a.value), a.next) else Bad;
    } else if buf[off] == 'F' as int {
      var t := DecodeTable(buf, off + 1);
      r := if t.Good? then Good(Table(t.value), t.next) else Bad;
    } else {
      r := DecScalar(buf, buf[off], off + 1);
    }
  }
}
