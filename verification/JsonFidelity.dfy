/** What a written document is read back as: its own value exactly when its keys are valid and its reals return. */
module JsonFidelity {
  import opened Bytes
  import opened Utf8
  import opened JsonNumbers
  import opened JsonStrings
  import opened JsonPrinter
  import opened JsonReader
  import opened JsonRoundTrip
  import opened JsonSoundness
  import opened Wrappers

  /** Every real comes back from its trip as itself. */
  ghost predicate NumbersReturn(v: Value, trip: Trip) {
    match v
    case VReal(d) => trip(d) == Some(d)
    case VArray(elems) => forall i :: 0 <= i < |elems| ==> NumbersReturn(elems[i], trip)
    case VObject(members) => forall k :: k in members ==> NumbersReturn(members[k], trip)
    case _ => true
  }

  // ---------- reals ----------

  ghost predicate Unchanged(t: Tree, trip: Trip) {
    Convertible(t, trip) && ValueOf(t, trip) == ValueOf(t, EXACT)
  }

  /** A trip changes nothing in a tree exactly when it returns every real of the tree's value. */
  lemma {:induction false} TripChangesNothing(t: Tree, trip: Trip)
    requires Sane(t)
    ensures Unchanged(t, trip) <==> NumbersReturn(ValueOf(t, EXACT), trip)
  {
    match t {
      case Array(elems) =>
        forall i | 0 <= i < |elems|
          ensures Unchanged(elems[i], trip) <==> NumbersReturn(ValueOf(elems[i], EXACT), trip)
        {
          TripChangesNothing(elems[i], trip);
        }
        ElemsUnchanged(t, trip);
      case Object(members) =>
        forall i | 0 <= i < |members|
          ensures var v := members[i].value; Unchanged(v, trip) <==> NumbersReturn(ValueOf(v, EXACT), trip)
        {
          TripChangesNothing(members[i].value, trip);
        }
        MembersUnchanged(t, trip);
      case _ =>
    }
  }

  lemma ElemsUnchanged(t: Tree, trip: Trip)
    requires t.Array?
    requires forall i :: 0 <= i < |t.elems| ==>
             (Unchanged(t.elems[i], trip) <==> NumbersReturn(ValueOf(t.elems[i], EXACT), trip))
    ensures Unchanged(t, trip) <==> NumbersReturn(ValueOf(t, EXACT), trip)
  {
    var a, b := ValueOf(t, trip).elems, ValueOf(t, EXACT).elems;
    assert forall i :: 0 <= i < |a| ==> a[i] == ValueOf(t.elems[i], trip) && b[i] == ValueOf(t.elems[i], EXACT);
    assert a == b <==> forall i :: 0 <= i < |a| ==> a[i] == b[i];
  }

  lemma MembersUnchanged(t: Tree, trip: Trip)
    requires t.Object? && Distinct(t.members)
    requires forall i :: 0 <= i < |t.members| ==>
               var v := t.members[i].value; (Unchanged(v, trip) <==> NumbersReturn(ValueOf(v, EXACT), trip))
    ensures Unchanged(t, trip) <==> NumbersReturn(ValueOf(t, EXACT), trip)
  {
    hide ValueOf, Distinct, MapOf, KeysOf;
    var ms := t.members;
    var a, b := MapOf(ms, trip), MapOf(ms, EXACT);
    ValueOfObject(t, trip);
    ValueOfObject(t, EXACT);
    MapOfKeys(ms, trip);
    MapOfKeys(ms, EXACT);
    forall i | 0 <= i < |ms|
      ensures ms[i].key in a && ms[i].key in b
      ensures a[ms[i].key] == ValueOf(ms[i].value, trip) && b[ms[i].key] == ValueOf(ms[i].value, EXACT)
    {
      MapOfHas(ms, ms[i], trip);
      MapOfHas(ms, ms[i], EXACT);
    }
    assert a.Keys == b.Keys;
    forall k | k in b ensures exists i :: 0 <= i < |ms| && ms[i].key == k {
      KeyIsListed(ms, k);
    }
    assert a == b <==> forall k :: k in b ==> a[k] == b[k];
  }

  lemma KeyIsListed(ms: seq<Member<Tree>>, k: seq<byte>)
    requires k in KeysOf(ms)
    ensures exists i :: 0 <= i < |ms| && ms[i].key == k
  {
    var m :| m in ms && m.key == k;
  }

  // ---------- keys ----------

  /** A tree that stands for a well formed value has valid keys only. */
  lemma {:induction false} ProperKeys(t: Tree)
    requires Sane(t) && Proper(ValueOf(t, EXACT))
    ensures KeysOk(t)
  {
    match t {
      case Array(elems) =>
        var v := ValueOf(t, EXACT).elems;
        forall i | 0 <= i < |elems| ensures KeysOk(elems[i]) {
          assert v[i] == ValueOf(elems[i], EXACT);
          ProperKeys(elems[i]);
        }
      case Object(members) =>
        ValueOfObject(t, EXACT);
        forall i | 0 <= i < |members| ensures ValidString(members[i].key) && KeysOk(members[i].value) {
          MapOfHas(members, members[i], EXACT);
          ProperKeys(members[i].value);
        }
      case _ =>
    }
  }

  // ---------- whole documents ----------

  /** The value the tree stands for is what is read. */
  predicate GivesBack(r: Outcome, t: Tree) {
    r.Parsed? && r.value == ValueOf(t, EXACT)
  }

  /**
    A document that has been written is read back as the value it was written from if and only if its keys are
    valid, its reals come back from their texts as themselves, and the reader takes bare values where it is one.
   */
  lemma ReadsBack(t: Tree, flags: Flags, convert: seq<byte> -> Option<Double>, o: Options)
    requires Sane(t) && Dumps(t, flags).Some?
    ensures GivesBack(Loads(Dumps(t, flags).value, convert, o), t) <==>
            (t.Array? || t.Object? || o.decodeAny) && KeysOk(t)
              && NumbersReturn(ValueOf(t, EXACT), TripOf(flags.write, convert))
  {
    hide Loads, Print, ValueOf, Sane, Writable, Printable, Convertible, NumbersReturn, KeysOk, Proper;
    PrintableMeans(t);
    TripChangesNothing(t, TripOf(flags.write, convert));
    var text := Dumps(t, flags).value;
    PrintIsText(t, flags, 0);
    if KeysOk(t) {
      LoadsUndoesDumps(t, flags, convert, o);
    } else if GivesBack(Loads(text, convert, o), t) {
      LoadedIsProper(text, convert, o);
      ProperKeys(t);
    }
  }

  // ---------- loading, writing and loading again ----------

  /** Some listing of a set. */
  ghost function Listing(s: set<seq<byte>>): (r: seq<seq<byte>>)
    ensures forall k :: k in r <==> k in s
    ensures forall i, j :: 0 <= i < j < |r| ==> r[i] != r[j]
  {
    if s == {} then [] else
    var k :| k in s;
    [k] + Listing(s - {k})
  }

  /** A tree that stands for a value; the order of its members is arbitrary. */
  ghost function TreeOf(v: Value): Tree {
    match v
    case VNull => Null
    case VTrue => True
    case VFalse => False
    case VInteger(n) => Integer(n)
    case VReal(d) => Real(d)
    case VString(s) => String(s)
    case VArray(elems) => Array(seq(|elems|, i requires 0 <= i < |elems| => TreeOf(elems[i])))
    case VObject(members) =>
      var ks := Listing(members.Keys);
      Object(seq(|ks|, i requires 0 <= i < |ks| => (assert ks[i] in ks; Member(ks[i], i, TreeOf(members[ks[i]])))))
  }

  /** The tree can be written and stands for v. */
  ghost predicate StandsFor(t: Tree, v: Value) {
    Printable(t) && ValueOf(t, EXACT) == v
  }

  lemma {:induction false} TreeStandsFor(v: Value)
    requires Proper(v)
    ensures StandsFor(TreeOf(v), v)
  {
    hide StringOk;
    match v {
      case VArray(elems) =>
        forall i | 0 <= i < |elems| ensures StandsFor(TreeOf(elems[i]), elems[i]) {
          TreeStandsFor(elems[i]);
        }
      case VObject(members) =>
        forall k | k in members ensures StandsFor(TreeOf(members[k]), members[k]) {
          TreeStandsFor(members[k]);
        }
        ObjectStandsFor(members);
      case _ =>
    }
  }

  lemma ListedMembers(m: map<seq<byte>, Value>)
    ensures var t, ks := TreeOf(VObject(m)), Listing(m.Keys);
            && t.Object? && |t.members| == |ks|
            && forall i :: 0 <= i < |ks| ==> ks[i] in m && t.members[i] == Member(ks[i], i, TreeOf(m[ks[i]]))
  {
    var ks := Listing(m.Keys);
    assert forall i :: 0 <= i < |ks| ==> ks[i] in ks;
  }

  lemma KeysAreListed(ms: seq<Member<Tree>>, keys: set<seq<byte>>)
    requires var ks := Listing(keys);
             |ms| == |ks| && forall i :: 0 <= i < |ks| ==> ms[i].key == ks[i] && ms[i].serial == i
    ensures Distinct(ms) && KeysOf(ms) == keys
  {
    var ks := Listing(keys);
    forall k | k in keys ensures k in KeysOf(ms) {
      var i :| 0 <= i < |ks| && ks[i] == k;
      assert ms[i] in ms;
    }
    forall m | m in ms ensures m.key in keys {
      var i :| 0 <= i < |ms| && ms[i] == m;
      assert ks[i] in ks;
    }
  }

  lemma MembersOfTree(m: map<seq<byte>, Value>)
    ensures var t := TreeOf(VObject(m)); t.Object? && Distinct(t.members) && KeysOf(t.members) == m.Keys
    ensures var ms := TreeOf(VObject(m)).members;
            forall i :: 0 <= i < |ms| ==> ms[i].key in m && ms[i].value == TreeOf(m[ms[i].key])
  {
    hide TreeOf, KeysOf, Distinct;
    ListedMembers(m);
    KeysAreListed(TreeOf(VObject(m)).members, m.Keys);
  }

  lemma ObjectStandsFor(m: map<seq<byte>, Value>)
    requires Proper(VObject(m))
    requires forall k :: k in m ==> StandsFor(TreeOf(m[k]), m[k])
    ensures StandsFor(TreeOf(VObject(m)), VObject(m))
  {
    hide StringOk, TreeOf, ValueOf, MapOf, MembersOk, Printable, KeysOf;
    MembersOfTree(m);
    var ms := TreeOf(VObject(m)).members;
    MembersOkMeans(ms);
    MapOfIs(ms, m, EXACT);
    ValueOfObject(Object(ms), EXACT);
  }

  /**
    Whatever is loaded can be written, with any flags; and if and only if the number of every real in it comes
    back from the text the C library writes for it, it is loaded again as the same value.
   */
  lemma LoadAgain(text: seq<byte>, convert: seq<byte> -> Option<Double>, o: Options, flags: Flags)
    requires 0 !in text && Loads(text, convert, o).Parsed?
    ensures var v := Loads(text, convert, o).value;
            var again := Dumps(TreeOf(v), flags.(encodeAny := true));
            && again.Some?
            && var r := Loads(again.value, convert, o.(decodeAny := true));
            (r.Parsed? && r.value == v <==> NumbersReturn(v, TripOf(flags.write, convert)))
  {
    hide Loads, Proper, Printable, ValueOf, Print, Sane, Writable, KeysOk, NumbersReturn;
    LoadedIsProper(text, convert, o);
    var v := Loads(text, convert, o).value;
    TreeStandsFor(v);
    PrintableMeans(TreeOf(v));
    ReadsBack(TreeOf(v), flags.(encodeAny := true), convert, o.(decodeAny := true));
  }

  // ---------- documents that do not come back ----------

  /** Two keys that cannot be written leave the text of one that can: a document of another value. */
  const TWO_BAD_KEYS := Object([Member([0xFF], 0, Integer(1)), Member([0xFE], 1, Integer(2))])

  /** A colon, a space, the digit 1, a comma and a space. */
  const BETWEEN: seq<byte> := [COLON, SPACE, 0x31, COMMA, SPACE]

  lemma BadKeysReadAsAnother(flags: Flags, convert: seq<byte> -> Option<Double>, o: Options)
    requires flags.indent == 0 && !flags.compact && !flags.sortKeys
    ensures Sane(TWO_BAD_KEYS) && Dumps(TWO_BAD_KEYS, flags).Some?
    ensures Loads(Dumps(TWO_BAD_KEYS, flags).value, convert, o) == Parsed(VObject(map[BETWEEN := VInteger(2)]), [])
    ensures ValueOf(TWO_BAD_KEYS, EXACT) != VObject(map[BETWEEN := VInteger(2)])
  {
    hide Loads, ValueOf, Print, Sane, Printable, Writable, MapOf;
    var one := Object([Member(BETWEEN, 0, Integer(2))]);
    BadKeysCanBeWritten();
    BadKeysText(flags);
    OneKeyText(flags);
    LoadsUndoesDumps(one, flags, convert, o);
    OneInteger(BETWEEN, 2, TripOf(flags.write, convert));
    ValueOfObject(TWO_BAD_KEYS, EXACT);
    MapOfHas(TWO_BAD_KEYS.members, TWO_BAD_KEYS.members[0], EXACT);
  }

  lemma BadKeysCanBeWritten()
    ensures Sane(TWO_BAD_KEYS) && Writable(TWO_BAD_KEYS)
    ensures Printable(Object([Member(BETWEEN, 0, Integer(2))])) && Writable(Object([Member(BETWEEN, 0, Integer(2))]))
  {
    hide ValidString;
    AsciiText(BETWEEN);
    assert forall n: int :: 1 <= n <= 2 ==> Sane(Integer(n)) && Writable(Integer(n)) && Printable(Integer(n));
  }

  lemma BadKeysText(flags: Flags)
    requires flags.indent == 0 && !flags.compact && !flags.sortKeys
    ensures Print(TWO_BAD_KEYS, flags, 0) == [LEFT_BRACE, QUOTE] + BETWEEN + [QUOTE, COLON, SPACE, 0x32, RIGHT_BRACE]
  {
    hide PrintMembers, Order;
    BadOrder(flags);
    BadMembersText(flags);
  }

  lemma BadOrder(flags: Flags)
    requires !flags.sortKeys
    ensures Order(TWO_BAD_KEYS.members, flags) == TWO_BAD_KEYS.members
  {
    hide KeyBefore;
    var ms := TWO_BAD_KEYS.members;
    assert ms[1..] == [ms[1]];
  }

  lemma BadMembersText(flags: Flags)
    requires flags.indent == 0 && !flags.compact
    ensures PrintMembers(TWO_BAD_KEYS, TWO_BAD_KEYS.members, flags, 1) ==
            [QUOTE] + BETWEEN + [QUOTE, COLON, SPACE, 0x32]
  {
    hide PrintMember;
    var ms := TWO_BAD_KEYS.members;
    BadMemberText(ms[0], flags);
    BadMemberText(ms[1], flags);
    assert ms[1..] == [ms[1]];
    assert PrintMembers(TWO_BAD_KEYS, [ms[1]], flags, 1) == PrintMember(TWO_BAD_KEYS, ms[1], flags, 1);
  }

  /** Of such a key, the opening quote is all that is written. */
  lemma BadMemberText(m: Member<Tree>, flags: Flags)
    requires m in TWO_BAD_KEYS.members && !flags.compact
    ensures PrintMember(TWO_BAD_KEYS, m, flags, 1) == [QUOTE, COLON, SPACE, 0x30 + m.value.n]
  {
    assert forall b: byte :: b >= 0xFE ==> Iterate([b]).Bad?;
  }

  lemma OneKeyText(flags: Flags)
    requires flags.indent == 0 && !flags.compact && !flags.sortKeys
    ensures Print(Object([Member(BETWEEN, 0, Integer(2))]), flags, 0) ==
            [LEFT_BRACE, QUOTE] + BETWEEN + [QUOTE, COLON, SPACE, 0x32, RIGHT_BRACE]
  {
    hide PrintMember;
    var t := Object([Member(BETWEEN, 0, Integer(2))]);
    OneMemberText(t, flags);
    assert Order(t.members, flags) == t.members;
    assert PrintMembers(t, t.members, flags, 1) == PrintMember(t, t.members[0], flags, 1);
  }

  lemma OneMemberText(t: Tree, flags: Flags)
    requires t == Object([Member(BETWEEN, 0, Integer(2))]) && !flags.compact
    ensures PrintMember(t, t.members[0], flags, 1) == [QUOTE] + BETWEEN + [QUOTE, COLON, SPACE, 0x32]
  {
    hide Escaped, ValidString;
    AsciiIsValid(BETWEEN);
    PlainIsItself(BETWEEN, flags.ascii);
    assert Print(Integer(2), flags, 1) == [0x32];
  }

  lemma {:induction false} PlainIsItself(s: seq<byte>, ascii: bool)
    requires forall i :: 0 <= i < |s| ==> Plain(s[i]) && s[i] < 0x80
    ensures Escaped(s, ascii) == s
  {
    if s != [] {
      AsciiStep(s);
      PlainIsItself(s[1..], ascii);
      assert s == s[..1] + s[1..];
    }
  }

  lemma AsciiStep(s: seq<byte>)
    requires s != [] && s[0] < 0x80
    ensures Iterate(s) == Step(s[0], 1)
  {
  }

  lemma OneInteger(k: seq<byte>, n: int, trip: Trip)
    ensures var t := Object([Member(k, 0, Integer(n))]);
            Convertible(t, trip) && ValueOf(t, trip) == VObject(map[k := VInteger(n)])
  {
    var m := Member(k, 0, Integer(n));
    MapOfHas([m], m, trip);
    ValueOfObject(Object([m]), trip);
    MapOfKeys([m], trip);
    KeysOfCons([m]);
  }

  /** The smallest positive double, 2 to the -1074. */
  const SMALLEST: Double := 1

  /** 4.9406564584124654e-324, as it is written. */
  const SMALLEST_DIGITS: seq<byte> :=
    [0x34, POINT, 0x39, 0x34, 0x30, 0x36, 0x35, 0x36, 0x34, 0x35, 0x38, 0x34, 0x31, 0x32, 0x34, 0x36, 0x35, 0x34,
     0x65, MINUS, 0x33, 0x32, 0x34]

  function SmallestText(): RealText {
    Scientific(SMALLEST_DIGITS, 18);
    SMALLEST_DIGITS
  }

  /** A digit, a fraction and a signed exponent are a real. */
  lemma Scientific(s: seq<byte>, e: nat)
    requires 2 < e < |s| - 2 && IsDigit(s[0]) && s[1] == POINT && IsExponent(s[e]) && IsSign(s[e + 1])
    requires (forall i :: 2 <= i < e ==> IsDigit(s[i])) && forall i :: e + 2 <= i < |s| ==> IsDigit(s[i])
    ensures IsRealText(s)
  {
    hide DigitRun;
    DigitsEnd(s, 0, 1);
    DigitsEnd(s, 2, e);
    DigitsEnd(s, e + 2, |s|);
  }

  /**
    A C library that converts some text to that double without a range error, but refuses the one it writes, lets an
    array of it be loaded, but not again from what is written for it.
   */
  lemma DenormalIsLost(text: RealText, flags: Flags, convert: seq<byte> -> Option<Double>, o: Options)
    requires convert(text) == Some(SMALLEST) && flags.write(SMALLEST) == SmallestText() && convert(SmallestText()).None?
    ensures Loads([LEFT_BRACKET] + text + [RIGHT_BRACKET], convert, o) == Parsed(VArray([VReal(SMALLEST)]), [])
    ensures Dumps(Array([Real(SMALLEST)]), flags).Some?
            && Loads(Dumps(Array([Real(SMALLEST)]), flags).value, convert, o) == Failed
  {
    hide Loads, IsRealText, SmallestText;
    var t, other := Array([Real(SMALLEST)]), Flags(0, true, false, false, false, false, d => text);
    assert Writable(t.elems[0]);
    assert Print(t.elems[0], other, 1) == text;
    assert PrintElems(t, t.elems, other, 1) == text;
    assert Print(t, other, 0) == [LEFT_BRACKET] + text + [RIGHT_BRACKET];
    LoadsUndoesDumps(t, other, convert, o);
    assert ValueOf(t, TripOf(other.write, convert)) == VArray([VReal(SMALLEST)]);
    LoadsUndoesDumps(t, flags, convert, o);
    assert !Convertible(t.elems[0], TripOf(flags.write, convert));
  }

  /** An infinity or NaN is written, and what is written is refused by every library. */
  lemma NoNumberIsLost(d: Double, flags: Flags, convert: seq<byte> -> Option<Double>, o: Options)
    requires !IsFinite(d)
    ensures var text := Dumps(Array([Real(d)]), flags); text.Some? && Loads(text.value, convert, o) == Failed
  {
    hide Loads, Print;
    var t := Array([Real(d)]);
    assert Writable(t.elems[0]);
    assert !Convertible(t.elems[0], TripOf(flags.write, convert));
    LoadsUndoesDumps(t, flags, convert, o);
  }
}
