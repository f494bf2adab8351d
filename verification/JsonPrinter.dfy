/** JSON values and how they are written. */
module JsonPrinter {
  import opened Bytes
  import opened Utf8
  import opened JsonNumbers
  import opened JsonStrings
  import opened Wrappers

  /** What is written: objects list their members in the order the hash table iterates over them. */
  datatype Tree =
    | Null | True | False
    | Integer(n: int)
    | Real(d: Double)
    | String(s: seq<byte>)
    | Array(elems: seq<Tree>)
    | Object(members: seq<Member<Tree>>)

  datatype Member<V> = Member(key: seq<byte>, serial: nat, value: V)

  /** The flags of a writer, and the text its C library gives a finite real. */
  datatype Flags = Flags(
    indent: nat, compact: bool, ascii: bool, sortKeys: bool, preserveOrder: bool, encodeAny: bool,
    write: Double -> RealText)

  const INT_MIN := -0x8000_0000_0000_0000
  const INT_MAX := 0x7FFF_FFFF_FFFF_FFFF

  const NULL_TEXT: seq<byte> := [0x6E, 0x75, 0x6C, 0x6C]
  const TRUE_TEXT: seq<byte> := [0x74, 0x72, 0x75, 0x65]
  const FALSE_TEXT: seq<byte> := [0x66, 0x61, 0x6C, 0x73, 0x65]
  const NAN_TEXT: seq<byte> := [0x6E, 0x61, 0x6E, POINT, 0x30]
  const INF_TEXT: seq<byte> := [0x69, 0x6E, 0x66, POINT, 0x30]
  const COMMA: byte := 0x2C
  const COLON: byte := 0x3A
  const SPACE: byte := 0x20
  const NEWLINE: byte := 0x0A
  const LEFT_BRACKET: byte := 0x5B
  const RIGHT_BRACKET: byte := 0x5D
  const LEFT_BRACE: byte := 0x7B
  const RIGHT_BRACE: byte := 0x7D

  predicate StringOk(s: seq<byte>) {
    ValidString(s) && 0 !in s
  }

  /** Keys differ and serials differ. */
  predicate Distinct<V>(ms: seq<Member<V>>) {
    forall i, j :: 0 <= i < j < |ms| ==> ms[i].key != ms[j].key && ms[i].serial != ms[j].serial
  }

  /** Strings are valid UTF-8, integers fit the integer type, and the keys of an object differ. */
  predicate Printable(t: Tree) {
    match t
    case Integer(n) => INT_MIN <= n <= INT_MAX
    case String(s) => StringOk(s)
    case Array(elems) => forall i :: 0 <= i < |elems| ==> Printable(elems[i])
    case Object(members) =>
      Distinct(members) && forall i :: 0 <= i < |members| ==> StringOk(members[i].key) && Printable(members[i].value)
    case _ => true
  }

  /** What every tree keeps to: C strings, integers of the integer type, and one member a key. */
  predicate Sane(t: Tree) {
    match t
    case Integer(n) => INT_MIN <= n <= INT_MAX
    case String(s) => 0 !in s
    case Array(elems) => forall i :: 0 <= i < |elems| ==> Sane(elems[i])
    case Object(members) =>
      Distinct(members) && forall i :: 0 <= i < |members| ==> 0 !in members[i].key && Sane(members[i].value)
    case _ => true
  }

  /** All keys in the tree are valid. */
  predicate KeysOk(t: Tree) {
    match t
    case Array(elems) => forall i :: 0 <= i < |elems| ==> KeysOk(elems[i])
    case Object(members) => forall i :: 0 <= i < |members| ==> ValidString(members[i].key) && KeysOk(members[i].value)
    case _ => true
  }

  /** No string in the tree is invalid.  Keys do not count: writing goes on after a bad one. */
  predicate Writable(t: Tree) {
    match t
    case String(s) => ValidString(s)
    case Array(elems) => forall i :: 0 <= i < |elems| ==> Writable(elems[i])
    case Object(members) => forall i :: 0 <= i < |members| ==> Writable(members[i].value)
    case _ => true
  }

  // ---------- the order of members ----------

  /** strcmp: the first octet that differs decides, and a prefix comes first. */
  predicate KeyBefore(a: seq<byte>, b: seq<byte>) {
    if b == [] then false
    else if a == [] then true
    else a[0] < b[0] || (a[0] == b[0] && KeyBefore(a[1..], b[1..]))
  }

  predicate Before<V>(a: Member<V>, b: Member<V>, byKey: bool) {
    if byKey then KeyBefore(a.key, b.key) else a.serial < b.serial
  }

  function Insert<V>(m: Member<V>, ms: seq<Member<V>>, byKey: bool): (r: seq<Member<V>>)
    ensures multiset(r) == multiset{m} + multiset(ms)
    decreases |ms|
    ensures |r| == |ms| + 1 && (forall x :: x in r ==> x == m || x in ms) && m in r && forall x :: x in ms ==> x in r
  {
    if ms == [] || Before(m, ms[0], byKey) then [m] + ms
    else
      assert ms == [ms[0]] + ms[1..];
      [ms[0]] + Insert(m, ms[1..], byKey)
  }

  function Sort<V>(ms: seq<Member<V>>, byKey: bool): (r: seq<Member<V>>)
    decreases |ms|
    ensures multiset(r) == multiset(ms)
    ensures |r| == |ms| && (forall x :: x in r ==> x in ms) && forall x :: x in ms ==> x in r
  {
    if ms == [] then []
    else
      assert ms == [ms[0]] + ms[1..];
      Insert(ms[0], Sort(ms[1..], byKey), byKey)
  }

  /** The order in which members are written. */
  function Order<V>(ms: seq<Member<V>>, flags: Flags): (r: seq<Member<V>>)
    ensures multiset(r) == multiset(ms)
    ensures |r| == |ms| && (forall x :: x in r ==> x in ms) && forall x :: x in ms ==> x in r
  {
    if flags.sortKeys then Sort(ms, true) else if flags.preserveOrder then Sort(ms, false) else ms
  }

  lemma {:induction false} KeyOrderTotal(a: seq<byte>, b: seq<byte>)
    ensures a != b ==> KeyBefore(a, b) || KeyBefore(b, a)
    ensures !(KeyBefore(a, b) && KeyBefore(b, a))
  {
    if a != [] && b != [] {
      KeyOrderTotal(a[1..], b[1..]);
      assert a == [a[0]] + a[1..] && b == [b[0]] + b[1..];
    }
  }

  lemma {:induction false} KeyOrderTransitive(a: seq<byte>, b: seq<byte>, c: seq<byte>)
    requires KeyBefore(a, b) && KeyBefore(b, c)
    ensures KeyBefore(a, c)
  {
    if a != [] && a[0] == b[0] == c[0] {
      KeyOrderTransitive(a[1..], b[1..], c[1..]);
    }
  }

  /** The first octet that differs decides, or the end of the shorter key. */
  lemma {:induction false} KeyOrderMeans(a: seq<byte>, b: seq<byte>)
    ensures KeyBefore(a, b) <==>
            exists k :: 0 <= k <= |a| && k < |b| && a[..k] == b[..k] && (k == |a| || a[k] < b[k])
  {
    if a != [] && b != [] && a[0] == b[0] {
      var x, y := a[1..], b[1..];
      KeyOrderMeans(x, y);
      if KeyBefore(x, y) {
        var k :| 0 <= k <= |x| && k < |y| && x[..k] == y[..k] && (k == |x| || x[k] < y[k]);
        assert a == [a[0]] + x && b == [b[0]] + y;
        assert a[..k + 1] == [a[0]] + x[..k] && b[..k + 1] == [b[0]] + y[..k];
        assert k + 1 == |a| || a[k + 1] < b[k + 1];
      }
      if k :| 0 <= k <= |a| && k < |b| && a[..k] == b[..k] && (k == |a| || a[k] < b[k]) {
        assert k > 0;
        assert x[..k - 1] == a[..k][1..] && y[..k - 1] == b[..k][1..];
        assert k - 1 == |x| || x[k - 1] < y[k - 1];
      }
    } else if b != [] && (a == [] || a[0] < b[0]) {
      assert a[..0] == b[..0];
    } else {
      forall k | 0 < k <= |a| && k < |b| ensures a[..k] != b[..k] {
        assert a[..k][0] == a[0] && b[..k][0] == b[0];
      }
    }
  }

  predicate Ascending<V>(ms: seq<Member<V>>, byKey: bool) {
    forall i :: 0 < i < |ms| ==> Before(ms[i - 1], ms[i], byKey)
  }

  predicate Comparable<V>(m: Member<V>, ms: seq<Member<V>>) {
    forall i :: 0 <= i < |ms| ==> ms[i].key != m.key && ms[i].serial != m.serial
  }

  lemma {:induction false} InsertAscends<V>(m: Member<V>, ms: seq<Member<V>>, byKey: bool)
    requires Ascending(ms, byKey) && Comparable(m, ms)
    ensures Ascending(Insert(m, ms, byKey), byKey)
    ensures Insert(m, ms, byKey)[0] == m || (ms != [] && Insert(m, ms, byKey)[0] == ms[0])
  {
    if ms != [] && !Before(m, ms[0], byKey) {
      KeyOrderTotal(m.key, ms[0].key);
      assert forall i :: 0 < i < |ms| - 1 ==> ms[1..][i - 1] == ms[i] && ms[1..][i] == ms[i + 1];
      InsertAscends(m, ms[1..], byKey);
    }
  }

  /** Members with different keys and serials come out in strictly ascending order, each of them once. */
  lemma {:induction false} SortSorts<V>(ms: seq<Member<V>>, byKey: bool)
    requires Distinct(ms)
    ensures Ascending(Sort(ms, byKey), byKey) && multiset(Sort(ms, byKey)) == multiset(ms)
  {
    if ms != [] {
      SortSorts(ms[1..], byKey);
      var r := Sort(ms[1..], byKey);
      forall i | 0 <= i < |r| ensures r[i].key != ms[0].key && r[i].serial != ms[0].serial {
        assert r[i] in multiset(r);
        assert r[i] in ms[1..];
      }
      InsertAscends(ms[0], r, byKey);
    }
  }

  /** Members are written by key, else by serial number, else as the hash table has them. */
  lemma OrderMeans<V>(ms: seq<Member<V>>, flags: Flags)
    requires Distinct(ms)
    ensures var r := Order(ms, flags);
            && multiset(r) == multiset(ms)
            && (flags.sortKeys ==> forall i :: 0 < i < |r| ==> KeyBefore(r[i - 1].key, r[i].key))
            && (!flags.sortKeys && flags.preserveOrder ==> forall i :: 0 < i < |r| ==> r[i - 1].serial < r[i].serial)
            && (!flags.sortKeys && !flags.preserveOrder ==> r == ms)
  {
    hide Sort, KeyBefore;
    SortSorts(ms, true);
    SortSorts(ms, false);
  }

  // ---------- writing ----------

  function Spaces(n: nat): (s: seq<byte>)
    ensures |s| == n && forall i :: 0 <= i < n ==> s[i] == SPACE
  {
    if n == 0 then [] else [SPACE] + Spaces(n - 1)
  }

  /** The break before an item: a new line and indentation, or just a space. */
  function Indent(flags: Flags, depth: nat, space: bool): seq<byte> {
    if flags.indent > 0 then [NEWLINE] + Spaces(depth * flags.indent)
    else if space && !flags.compact then [SPACE]
    else []
  }

  function Separator(flags: Flags): seq<byte> {
    if flags.compact then [COLON] else [COLON, SPACE]
  }

  function Digits(n: nat): (s: seq<byte>)
    ensures s != []
  {
    if n < 10 then [0x30 + n] else Digits(n / 10) + [0x30 + n % 10]
  }

  function Decimal(n: int): seq<byte> {
    if n < 0 then [MINUS] + Digits(-n) else Digits(n)
  }

  /**
    An infinity or NaN is written as the C library names it, with the ".0" that a text without point or exponent gets.
   */
  function WrittenReal(d: Double, flags: Flags): seq<byte> {
    if IsFinite(d) then flags.write(d)
    else (if d >= SIGN then [MINUS] else []) + if IsNan(d) then NAN_TEXT else INF_TEXT
  }

  function Width(t: Tree): nat {
    if t.Array? then |t.elems| else if t.Object? then |t.members| else 0
  }

  function Print(t: Tree, flags: Flags, depth: nat): seq<byte>
    decreases t, Width(t) + 1
  {
    match t
    case Null => NULL_TEXT
    case True => TRUE_TEXT
    case False => FALSE_TEXT
    case Integer(n) => Decimal(n)
    case Real(d) => WrittenReal(d, flags)
    case String(s) => Quoted(s, flags.ascii)
    case Array(elems) =>
      if elems == [] then [LEFT_BRACKET, RIGHT_BRACKET]
      else [LEFT_BRACKET] + Indent(flags, depth + 1, false) + PrintElems(t, elems, flags, depth + 1)
             + Indent(flags, depth, false) + [RIGHT_BRACKET]
    case Object(members) =>
      if members == [] then [LEFT_BRACE, RIGHT_BRACE]
      else
        var ms := Order(members, flags);
        [LEFT_BRACE] + Indent(flags, depth + 1, false) + PrintMembers(t, ms, flags, depth + 1)
          + Indent(flags, depth, false) + [RIGHT_BRACE]
  }

  function PrintElems(t: Tree, elems: seq<Tree>, flags: Flags, depth: nat): seq<byte>
    requires t.Array? && forall e :: e in elems ==> e in t.elems
    decreases t, |elems|
  {
    if elems == [] then [] else
    assert elems[0] in t.elems;
    if |elems| == 1 then Print(elems[0], flags, depth)
    else Print(elems[0], flags, depth) + [COMMA] + Indent(flags, depth, true) + PrintElems(t, elems[1..], flags, depth)
  }

  function PrintMember(t: Tree, m: Member<Tree>, flags: Flags, depth: nat): seq<byte>
    requires t.Object? && m in t.members
    decreases t, 0
  {
    StringText(m.key, flags.ascii) + Separator(flags) + Print(m.value, flags, depth)
  }

  function PrintMembers(t: Tree, ms: seq<Member<Tree>>, flags: Flags, depth: nat): seq<byte>
    requires t.Object? && forall m :: m in ms ==> m in t.members
    decreases t, |ms|
  {
    if ms == [] then []
    else if |ms| == 1 then PrintMember(t, ms[0], flags, depth)
    else
      PrintMember(t, ms[0], flags, depth) + [COMMA] + Indent(flags, depth, true)
      + PrintMembers(t, ms[1..], flags, depth)
  }

  /** The text of a whole document; a bare value is written only on request, and an invalid string not at all. */
  function Dumps(t: Tree, flags: Flags): Option<seq<byte>> {
    if (!flags.encodeAny && !t.Array? && !t.Object?) || !Writable(t) then None else Some(Print(t, flags, 0))
  }

  lemma {:induction false} PrintableMeans(t: Tree)
    ensures Printable(t) <==> Sane(t) && Writable(t) && KeysOk(t)
  {
    hide ValidString;
    match t {
      case Array(elems) =>
        forall i | 0 <= i < |elems|
          ensures Printable(elems[i]) <==> Sane(elems[i]) && Writable(elems[i]) && KeysOk(elems[i])
        {
          PrintableMeans(elems[i]);
        }
      case Object(members) =>
        forall i | 0 <= i < |members|
          ensures var v := members[i].value; Printable(v) <==> Sane(v) && Writable(v) && KeysOk(v)
        {
          PrintableMeans(members[i].value);
        }
      case _ =>
    }
  }
}
