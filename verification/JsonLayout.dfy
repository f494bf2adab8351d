/** How a value is laid out: the syntax that the writer spells, with every blank and escape in its place. */
module JsonLayout {
  import opened Bytes
  import opened Utf8
  import opened JsonNumbers
  import opened JsonStrings
  import opened JsonPrinter
  import opened JsonReader
  import opened JsonRoundTrip
  import opened JsonGrammar
  import opened JsonReading
  import opened JsonFidelity
  import opened Wrappers
  import opened Sequences

  // ---------- strings ----------

  /** A hexadecimal digit, letters in lower case. */
  function LowerHex(d: nat): byte
    requires d < 16
  {
    if d < 10 then 48 + d else 87 + d
  }

  function FourHex(v: nat): seq<byte>
    requires v < 0x1_0000
  {
    [LowerHex(v / 4096), LowerHex(v / 256 % 16), LowerHex(v / 16 % 16), LowerHex(v % 16)]
  }

  function Octets(s: seq<byte>): seq<Char> {
    seq(|s|, i requires 0 <= i < |s| => Octet(s[i]))
  }

  /**
    Quotation mark, reverse solidus and five control characters have escapes of two characters.  Other control
    characters, and in ASCII mode everything beyond ASCII, is written as one code unit or two.
   */
  function LaidPoint(c: nat, s: seq<byte>, ascii: bool): seq<Char>
    requires c <= 0x10FFFF
  {
    if c == 0x22 then [Short(0x22)]
    else if c == 0x5C then [Short(0x5C)]
    else if c == 8 then [Short(0x62)]
    else if c == 9 then [Short(0x74)]
    else if c == 10 then [Short(0x6E)]
    else if c == 12 then [Short(0x66)]
    else if c == 13 then [Short(0x72)]
    else if c >= 0x20 && (c <= 0x7F || !ascii) then Octets(s)
    else if c <= 0xFFFF then [Unit(FourHex(c))]
    else [Pair(FourHex(0xD800 + (c - 0x1_0000) / 0x400), FourHex(0xDC00 + (c - 0x1_0000) % 0x400))]
  }

  function LaidChars(s: seq<byte>, ascii: bool): seq<Char>
    decreases |s|
  {
    if s == [] || Iterate(s).Bad? then [] else
    var step := Iterate(s);
    LaidPoint(step.codepoint, s[..step.count], ascii) + LaidChars(s[step.count..], ascii)
  }

  // ---------- values ----------

  function Blanks(n: nat): seq<byte> {
    seq(n, _ => 0x20)
  }

  /** A new line and depth times the indentation, if there is any. */
  function NewLine(flags: Flags, depth: nat): seq<byte> {
    if flags.indent == 0 then [] else [0x0A] + Blanks(depth * flags.indent)
  }

  /** Before an item: a new line, or a space if it is not the first. */
  function BeforeItem(flags: Flags, depth: nat, first: bool): seq<byte> {
    if flags.indent == 0 && !first && !flags.compact then [0x20] else NewLine(flags, depth)
  }

  function AfterColon(flags: Flags): seq<byte> {
    if flags.compact then [] else [0x20]
  }

  function LaidReal(s: RealText): Syntax {
    var j := IntegerEnd(s).value;
    var k := FractionEnd(s, j).value;
    Fractional(s[..j], s[j..k], s[k..])
  }

  function Laid(t: Tree, flags: Flags, depth: nat): Syntax
    decreases t, Width(t) + 1
  {
    match t
    case Null => NullWord
    case True => TrueWord
    case False => FalseWord
    case Integer(n) => Whole(Decimal(n))
    case Real(d) => LaidReal(flags.write(d))
    case String(s) => Characters(LaidChars(s, flags.ascii))
    case Array(elems) => if elems == [] then EmptyList([]) else List(LaidElems(t, elems, flags, depth + 1, true))
    case Object(members) =>
      if members == [] then EmptyRecord([]) else
      Record(LaidMembers(t, Order(members, flags), flags, depth + 1, true))
  }

  function LaidElems(t: Tree, es: seq<Tree>, flags: Flags, depth: nat, first: bool): seq<Item>
    requires t.Array? && depth > 0 && forall e :: e in es ==> e in t.elems
    decreases t, |es|
  {
    if es == [] then [] else
    assert es[0] in t.elems;
    var after := if |es| == 1 then NewLine(flags, depth - 1) else [];
    [Item(BeforeItem(flags, depth, first), Laid(es[0], flags, depth), after)]
      + LaidElems(t, es[1..], flags, depth, false)
  }

  function LaidMembers(t: Tree, ms: seq<Member<Tree>>, flags: Flags, depth: nat, first: bool): seq<Named>
    requires t.Object? && depth > 0 && forall m :: m in ms ==> m in t.members
    decreases t, |ms|
  {
    if ms == [] then [] else
    assert ms[0] in t.members;
    var after := if |ms| == 1 then NewLine(flags, depth - 1) else [];
    [Named(BeforeItem(flags, depth, first), LaidChars(ms[0].key, flags.ascii), [],
           Item(AfterColon(flags), Laid(ms[0].value, flags, depth), after))]
      + LaidMembers(t, ms[1..], flags, depth, false)
  }

  // ---------- what is printed is what is laid out ----------

  lemma HexIsLaid(v: nat)
    requires v < 0x1_0000
    ensures FourHex(v) == Hex4(v)
  {
    assert forall d: nat :: d < 16 ==> LowerHex(d) == HexDigit(d);
  }

  lemma {:induction false} OctetsAreSpelled(s: seq<byte>)
    ensures SpellChars(Octets(s)) == s
  {
    if s != [] {
      OctetsAreSpelled(s[1..]);
      assert Octets(s)[1..] == Octets(s[1..]) && s == [s[0]] + s[1..];
    }
  }

  lemma OneChar(c: Char)
    ensures SpellChars([c]) == SpellChar(c)
  {
    assert [c][1..] == [];
  }

  lemma PointIsLaid(c: nat, s: seq<byte>, ascii: bool)
    requires c <= 0x10FFFF
    ensures SpellChars(LaidPoint(c, s, ascii)) == Written(c, s, ascii)
  {
    hide SpellChars, Hex4, FourHex;
    OctetsAreSpelled(s);
    if |LaidPoint(c, s, ascii)| == 1 {
      OneChar(LaidPoint(c, s, ascii)[0]);
    }
    if c < 0x1_0000 {
      HexIsLaid(c);
    } else {
      HexIsLaid(0xD800 + (c - 0x1_0000) / 0x400);
      HexIsLaid(0xDC00 + (c - 0x1_0000) % 0x400);
    }
  }

  lemma {:induction false} SpellConcat(a: seq<Char>, b: seq<Char>)
    ensures SpellChars(a + b) == SpellChars(a) + SpellChars(b)
  {
    hide SpellChar;
    if a == [] {
      assert a + b == b;
    } else {
      assert (a + b)[1..] == a[1..] + b;
      SpellConcat(a[1..], b);
    }
  }

  lemma {:induction false} CharsAreLaid(s: seq<byte>, ascii: bool)
    ensures SpellChars(LaidChars(s, ascii)) == Escaped(s, ascii)
    decreases |s|
  {
    hide Iterate, LaidPoint, Written, SpellChars;
    if s == [] || Iterate(s).Bad? {
      assert SpellChars([]) == [] by { NoSpelling(); }
    } else {
      var step := Iterate(s);
      CharsAreLaid(s[step.count..], ascii);
      PointIsLaid(step.codepoint, s[..step.count], ascii);
      SpellConcat(LaidPoint(step.codepoint, s[..step.count], ascii), LaidChars(s[step.count..], ascii));
    }
  }

  lemma NoSpelling()
    ensures SpellChars([]) == []
  {
  }

  lemma BreaksAreLaid(flags: Flags, depth: nat)
    ensures NewLine(flags, depth) == Indent(flags, depth, false)
    ensures BeforeItem(flags, depth, true) == Indent(flags, depth, false)
    ensures BeforeItem(flags, depth, false) == Indent(flags, depth, true)
    ensures Separator(flags) == [0x3A] + AfterColon(flags)
  {
    assert forall n: nat :: Blanks(n) == Spaces(n);
  }

  lemma RealIsLaid(s: RealText)
    ensures Spell(LaidReal(s)) == s
    ensures var c := LaidReal(s); WholeOk(c.whole) && FractionOk(c.fraction) && ExponentOk(c.exponent)
    ensures LaidReal(s).fraction + LaidReal(s).exponent != []
  {
    hide IntegerEnd, FractionEnd, ExponentEnd, WholeOk, FractionOk, ExponentOk;
    var j := IntegerEnd(s).value;
    var k := FractionEnd(s, j).value;
    WholeSound(s, j);
    FractionSound(s, j, k);
    ExponentSound(s, k, |s|);
    ThreeParts(s, j, k, |s|);
    assert s[k..] == s[k..|s|] && s[..|s|] == s;
  }

  /** No real in the tree is an infinity or a NaN. */
  predicate FiniteReals(t: Tree) {
    match t
    case Real(d) => IsFinite(d)
    case Array(elems) => forall i :: 0 <= i < |elems| ==> FiniteReals(elems[i])
    case Object(members) => forall i :: 0 <= i < |members| ==> FiniteReals(members[i].value)
    case _ => true
  }

  predicate Layable(t: Tree) {
    KeysOk(t) && FiniteReals(t)
  }

  /** The text of a tree with valid keys and finite reals is, octet by octet, the spelling of its layout. */
  lemma {:induction false} PrintIsLaid(t: Tree, flags: Flags, depth: nat)
    requires Layable(t)
    ensures Print(t, flags, depth) == Spell(Laid(t, flags, depth))
    decreases t, Width(t) + 1, 0
  {
    hide StringText, Indent, Order, NewLine, BeforeItem, PrintElems, PrintMembers, SpellItems, SpellMembers,
         LaidElems, LaidMembers, IsRealText, LaidReal, SpellChars, LaidChars, Escaped;
    match t {
      case Array(elems) =>
        BreaksAreLaid(flags, depth);
        BreaksAreLaid(flags, depth + 1);
        if elems != [] {
          ElemsAreLaid(t, elems, flags, depth + 1, true);
          var text := PrintElems(t, elems, flags, depth + 1);
          Enclosed([0x5B], NewLine(flags, depth + 1), text, NewLine(flags, depth), [0x5D]);
        }
      case Object(members) =>
        BreaksAreLaid(flags, depth);
        BreaksAreLaid(flags, depth + 1);
        if members != [] {
          MembersAreLaid(t, Order(members, flags), flags, depth + 1, true);
          var text := PrintMembers(t, Order(members, flags), flags, depth + 1);
          Enclosed([0x7B], NewLine(flags, depth + 1), text, NewLine(flags, depth), [0x7D]);
        }
      case Real(d) => RealIsLaid(flags.write(d));
      case String(s) => CharsAreLaid(s, flags.ascii);
      case _ =>
    }
  }

  lemma {:induction false} ElemsAreLaid(t: Tree, es: seq<Tree>, flags: Flags, depth: nat, first: bool)
    requires t.Array? && Layable(t) && es != [] && depth > 0 && forall e :: e in es ==> e in t.elems
    ensures SpellItems(LaidElems(t, es, flags, depth, first)) ==
            BeforeItem(flags, depth, first) + PrintElems(t, es, flags, depth) + NewLine(flags, depth - 1)
    decreases t, |es|, 0
  {
    hide Print, Laid, Spell, NewLine, BeforeItem, Indent, Layable;
    assert es[0] in t.elems;
    LayableElem(t, es[0]);
    PrintIsLaid(es[0], flags, depth);
    BreaksAreLaid(flags, depth);
    var items := LaidElems(t, es, flags, depth, first);
    if |es| == 1 {
      assert LaidElems(t, es[1..], flags, depth, false) == [];
      assert items == [items[0]];
    } else {
      ElemsAreLaid(t, es[1..], flags, depth, false);
      var more := LaidElems(t, es[1..], flags, depth, false);
      assert items[1..] == more && more != [];
      Rejoined(BeforeItem(flags, depth, first), Print(es[0], flags, depth), [0x2C], BeforeItem(flags, depth, false),
               PrintElems(t, es[1..], flags, depth), NewLine(flags, depth - 1));
    }
  }

  lemma Rejoined(a: seq<byte>, x: seq<byte>, comma: seq<byte>, b: seq<byte>, more: seq<byte>, z: seq<byte>)
    ensures a + x + [] + comma + (b + more + z) == a + (x + comma + b + more) + z
  {
  }

  lemma Enclosed(open: seq<byte>, a: seq<byte>, x: seq<byte>, z: seq<byte>, close: seq<byte>)
    ensures open + a + x + z + close == open + (a + x + z) + close
  {
  }

  lemma LayableElem(t: Tree, e: Tree)
    requires t.Array? && Layable(t) && e in t.elems
    ensures Layable(e)
  {
  }

  lemma LayableMember(t: Tree, m: Member<Tree>)
    requires t.Object? && Layable(t) && m in t.members
    ensures Layable(m.value) && ValidString(m.key)
  {
    hide ValidString;
  }

  lemma {:induction false} MembersAreLaid(t: Tree, ms: seq<Member<Tree>>, flags: Flags, depth: nat, first: bool)
    requires t.Object? && Layable(t) && ms != [] && depth > 0 && forall m :: m in ms ==> m in t.members
    ensures SpellMembers(LaidMembers(t, ms, flags, depth, first)) ==
            BeforeItem(flags, depth, first) + PrintMembers(t, ms, flags, depth) + NewLine(flags, depth - 1)
    decreases t, |ms|, 1
  {
    hide PrintMember, Laid, Spell, NewLine, BeforeItem, Indent, Layable, SpellMember;
    assert ms[0] in t.members;
    BreaksAreLaid(flags, depth);
    var items := LaidMembers(t, ms, flags, depth, first);
    MemberIsLaid(t, ms[0], flags, depth, items[0]);
    if |ms| == 1 {
      assert LaidMembers(t, ms[1..], flags, depth, false) == [];
      assert items == [items[0]];
    } else {
      MembersAreLaid(t, ms[1..], flags, depth, false);
      var more := LaidMembers(t, ms[1..], flags, depth, false);
      assert items[1..] == more && more != [];
      Rejoined(BeforeItem(flags, depth, first), PrintMember(t, ms[0], flags, depth), [0x2C],
               BeforeItem(flags, depth, false), PrintMembers(t, ms[1..], flags, depth), NewLine(flags, depth - 1));
    }
  }

  lemma {:induction false} MemberIsLaid(t: Tree, m: Member<Tree>, flags: Flags, depth: nat, n: Named)
    requires t.Object? && Layable(t) && m in t.members && n.name == LaidChars(m.key, flags.ascii) && n.after == []
    requires n.item == Item(AfterColon(flags), Laid(m.value, flags, depth), n.item.after)
    ensures SpellMember(n) == n.before + PrintMember(t, m, flags, depth) + n.item.after
    decreases t, |[m]|, 0
  {
    hide Print, Laid, Spell, Layable, AfterColon, Separator, LaidChars, SpellChars, Escaped;
    LayableMember(t, m);
    PrintIsLaid(m.value, flags, depth);
    CharsAreLaid(m.key, flags.ascii);
    BreaksAreLaid(flags, depth);
    KeyText(m.key, flags.ascii);
    var key, colon, value := SpellText(n.name), [0x3A] + AfterColon(flags), Print(m.value, flags, depth);
    assert SpellMember(n) == n.before + (key + colon + value) + n.item.after;
  }

  lemma KeyText(key: seq<byte>, ascii: bool)
    requires ValidString(key)
    ensures StringText(key, ascii) == [0x22] + Escaped(key, ascii) + [0x22]
  {
  }

  // ---------- whole documents ----------

  /**
    The text of a document denotes the value it was written from, by the grammar, if and only if its keys are valid and
    its reals return, and the reader takes bare values where it is one.
   */
  lemma WrittenDenotes(t: Tree, flags: Flags, convert: seq<byte> -> Option<Double>, o: Options)
    requires Sane(t) && Dumps(t, flags).Some?
    ensures Denotes(Dumps(t, flags).value, ValueOf(t, EXACT), [], convert, o) <==>
            (t.Array? || t.Object? || o.decodeAny) && KeysOk(t)
            && NumbersReturn(ValueOf(t, EXACT), TripOf(flags.write, convert))
  {
    hide Loads, Print, ValueOf, Sane, Writable, Printable, Convertible, NumbersReturn, KeysOk, Denotes;
    ReadsBack(t, flags, convert, o);
    LoadsDecides(Dumps(t, flags).value, convert, o, ValueOf(t, EXACT), []);
    PrintableMeans(t);
    if KeysOk(t) {
      LoadsUndoesDumps(t, flags, convert, o);
    }
  }

  const THREE_WORDS := Array([True, False, Null])

  const THREE_TEXT: seq<byte> :=
    [0x5B, 0x74, 0x72, 0x75, 0x65, 0x2C, 0x20, 0x66, 0x61, 0x6C, 0x73, 0x65, 0x2C, 0x20, 0x6E, 0x75, 0x6C, 0x6C, 0x5D]

  /** "[true, false, null]" is written for these three, and read as these three. */
  lemma WordsAreWritten(flags: Flags, convert: seq<byte> -> Option<Double>, o: Options)
    requires flags.indent == 0 && !flags.compact
    ensures Dumps(THREE_WORDS, flags) == Some(THREE_TEXT)
    ensures Loads(THREE_TEXT, convert, o) == Parsed(VArray([VTrue, VFalse, VNull]), [])
  {
    hide Loads, Print, Writable, Printable, Convertible, ValueOf;
    WordsText(flags);
    WordsValue(TripOf(flags.write, convert));
    LoadsUndoesDumps(THREE_WORDS, flags, convert, o);
  }

  lemma WordsValue(trip: Trip)
    ensures var t := THREE_WORDS; Writable(t) && Printable(t) && Convertible(t, trip)
    ensures ValueOf(THREE_WORDS, trip) == VArray([VTrue, VFalse, VNull])
  {
    hide ValidString;
  }

  lemma WordsText(flags: Flags)
    requires flags.indent == 0 && !flags.compact
    ensures Print(THREE_WORDS, flags, 0) == THREE_TEXT
  {
    var t := THREE_WORDS;
    var t1, t2 := [False, Null], [Null];
    assert t.elems[1..] == t1 && t1[1..] == t2;
    assert PrintElems(t, t2, flags, 1) == [0x6E, 0x75, 0x6C, 0x6C];
    assert PrintElems(t, t1, flags, 1) == Print(False, flags, 1) + [COMMA] + [SPACE] + PrintElems(t, t2, flags, 1);
    assert PrintElems(t, t.elems, flags, 1) == Print(True, flags, 1) + [COMMA] + [SPACE] + PrintElems(t, t1, flags, 1);
  }

  /** "[]x" is refused, but with the check of the end disabled an empty array is found before the x. */
  lemma RestIsRefused(convert: seq<byte> -> Option<Double>, o: Options)
    ensures var r := Loads([0x5B, 0x5D, 0x78], convert, o);
            if o.disableEofCheck then r == Parsed(VArray([]), [0x78]) else !r.Parsed?
  {
    hide Loads;
    var text := [0x5B, 0x5D, 0x78];
    var lax := o.(disableEofCheck := true);
    AsciiIsValid(text);
    ReadableMeans(text);
    DocumentIsLoaded(text, [], EmptyList([]), [0x78], convert, lax);
    EndIsChecked(text, convert, o);
    SameFlag(o);
  }

  lemma SameFlag(o: Options)
    ensures o == if o.disableEofCheck then o.(disableEofCheck := true) else o.(disableEofCheck := false)
  {
  }

  /** The names of infinities and NaNs, after a minus if the sign bit is set. */
  lemma NamesAreWritten(d: Double, flags: Flags, depth: nat)
    requires d / 0x10_0000_0000_0000 % 0x800 == 0x7FF
    ensures Print(Real(d), flags, depth) ==
            (if d >= 0x8000_0000_0000_0000 then [0x2D] else [])
            + (if d % 0x10_0000_0000_0000 == 0 then [0x69, 0x6E, 0x66, 0x2E, 0x30] else [0x6E, 0x61, 0x6E, 0x2E, 0x30])
  {
  }
}
