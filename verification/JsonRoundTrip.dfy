/** Reading undoes writing: the value read back is the value written, whatever the flags. */
module JsonRoundTrip {
  import opened Bytes
  import opened Utf8
  import opened JsonNumbers
  import opened JsonStrings
  import opened JsonPrinter
  import opened JsonReader
  import opened Wrappers

  function KeysOf(ms: seq<Member<Tree>>): set<seq<byte>> {
    set m | m in ms :: m.key
  }

  function IndexOf(ms: seq<Member<Tree>>, k: seq<byte>): (i: nat)
    requires k in KeysOf(ms)
    ensures i < |ms| && ms[i].key == k
  {
    if ms[0].key == k then 0 else
    assert ms == [ms[0]] + ms[1..];
    1 + IndexOf(ms[1..], k)
  }

  /** What becomes of a real on its way through a text: another number, perhaps, or none at all. */
  type Trip = Double -> Option<Double>

  const EXACT: Trip := (d: Double) => Some(d)

  /** The reader refuses the names of infinities and NaNs. */
  function TripOf(write: Double -> RealText, convert: seq<byte> -> Option<Double>): Trip {
    (d: Double) => if IsFinite(d) then convert(write(d)) else None
  }

  /** Every real arrives as some number. */
  ghost predicate Convertible(t: Tree, trip: Trip) {
    match t
    case Real(d) => trip(d).Some?
    case Array(elems) => forall i :: 0 <= i < |elems| ==> Convertible(elems[i], trip)
    case Object(members) => forall i :: 0 <= i < |members| ==> Convertible(members[i].value, trip)
    case _ => true
  }

  ghost predicate AllConvertible(es: seq<Tree>, trip: Trip) {
    forall i :: 0 <= i < |es| ==> Convertible(es[i], trip)
  }

  ghost predicate MembersConvertible(ms: seq<Member<Tree>>, trip: Trip) {
    forall i :: 0 <= i < |ms| ==> Convertible(ms[i].value, trip)
  }

  /**
    The value a tree stands for once its reals have made a trip: the order and the serials of members play
    no part in it.
   */
  function ValueOf(t: Tree, trip: Trip): Value {
    match t
    case Null => VNull
    case True => VTrue
    case False => VFalse
    case Integer(n) => VInteger(n)
    case Real(d) => VReal(if trip(d).Some? then trip(d).value else d)
    case String(s) => VString(s)
    case Array(elems) => VArray(seq(|elems|, i requires 0 <= i < |elems| => ValueOf(elems[i], trip)))
    case Object(members) => VObject(map k | k in KeysOf(members) :: ValueOf(members[IndexOf(members, k)].value, trip))
  }

  function Values(es: seq<Tree>, trip: Trip): seq<Value> {
    seq(|es|, i requires 0 <= i < |es| => ValueOf(es[i], trip))
  }

  predicate MembersOk(ms: seq<Member<Tree>>) {
    Printable(Object(ms))
  }

  function MapOf(ms: seq<Member<Tree>>, trip: Trip): map<seq<byte>, Value> {
    ValueOf(Object(ms), trip).members
  }

  /** Text that ends the token before it. */
  predicate Delimits(tail: seq<byte>) {
    tail == [] || (!IsDigit(tail[0]) && !IsAlpha(tail[0]) && tail[0] != POINT)
  }

  // ---------- numbers ----------

  lemma {:induction false} DigitsAreDigits(n: nat)
    ensures forall i :: 0 <= i < |Digits(n)| ==> IsDigit(Digits(n)[i])
    ensures NumberOf(Digits(n)) == n
    ensures Digits(n)[0] == 0x30 ==> n == 0
  {
    if n < 10 {
      assert Digits(n)[..0] == [];
    } else {
      DigitsAreDigits(n / 10);
      var d := Digits(n / 10);
      assert Digits(n)[..|d|] == d;
    }
  }

  lemma {:induction false} RunOfDigits(d: seq<byte>, tail: seq<byte>)
    requires (forall i :: 0 <= i < |d| ==> IsDigit(d[i])) && (tail == [] || !IsDigit(tail[0]))
    ensures DigitRun(d + tail) == |d|
  {
    if d == [] {
      assert d + tail == tail;
    } else {
      assert (d + tail)[1..] == d[1..] + tail;
      RunOfDigits(d[1..], tail);
    }
  }

  lemma IntegerEnds(n: int, tail: seq<byte>)
    requires Delimits(tail)
    ensures IntegerEnd(Decimal(n) + tail) == Some(|Decimal(n)|)
    ensures IsDigit(Decimal(n)[0]) || Decimal(n)[0] == MINUS
  {
    hide Digits, DigitRun, NumberOf;
    var m := if n < 0 then -n else n;
    var d, s := Digits(m), Decimal(n) + tail;
    DigitsAreDigits(m);
    RunOfDigits(d, tail);
    OneZero(m);
    if n < 0 {
      assert s[1..] == d + tail;
    } else {
      assert s[0..] == d + tail;
    }
  }

  lemma OneZero(n: nat)
    ensures Digits(n)[0] == 0x30 ==> |Digits(n)| == 1
  {
    DigitsAreDigits(n);
  }

  lemma DecimalIsRead(n: int)
    ensures var d := Decimal(n);
            (forall i :: 1 <= i < |d| ==> IsDigit(d[i])) && (d[0] == MINUS || IsDigit(d[0])) && SignedNumber(d) == n
  {
    var m := if n < 0 then -n else n;
    DigitsAreDigits(m);
    if n < 0 {
      assert Decimal(n)[1..] == Digits(m);
    }
  }

  lemma IntegerIsScanned(n: int, tail: seq<byte>)
    requires INT_MIN <= n <= INT_MAX && Delimits(tail)
    ensures forall convert :: ScanNumber(Decimal(n) + tail, convert) == Scanned(IntegerToken(n), tail)
    ensures IsDigit(Decimal(n)[0]) || Decimal(n)[0] == MINUS
  {
    hide IntegerEnd, SignedNumber, Decimal;
    var d, s := Decimal(n), Decimal(n) + tail;
    IntegerEnds(n, tail);
    DecimalIsRead(n);
    assert s[..|d|] == d && s[|d|..] == tail;
  }

  /** A number or nothing, and what follows it. */
  function RealFound(d: Option<Double>, tail: seq<byte>): Scanned {
    if d.Some? then Scanned(RealToken(d.value), tail) else BAD
  }

  lemma RealTextIsScanned(text: seq<byte>, tail: seq<byte>, src: Source)
    requires IsRealText(text) && Delimits(tail)
    ensures Scan(text + tail, src) == RealFound(src.convert(text), tail)
  {
    hide IntegerEnd, RealEnd, SignedNumber;
    var s := text + tail;
    StopsBefore(text, tail);
    SameInteger(text, s);
    var j := IntegerEnd(text).value;
    SameReal(text, s, j);
    assert s[..|text|] == text && s[|text|..] == tail;
    NumberStart(text);
    assert SkipBlanks(s) == s;
  }

  /** Neither a name nor a minus before one is a token. */
  lemma NameIsRefused(name: seq<byte>, tail: seq<byte>, src: Source)
    requires name == NAN_TEXT || name == INF_TEXT
    ensures Scan(name + tail, src) == BAD && Scan([MINUS] + name + tail, src) == BAD
  {
    var s, m := name + tail, [MINUS] + name + tail;
    var letters := name[..3];
    RunOfLetters(letters, name[3..] + tail);
    assert s == letters + (name[3..] + tail) && s[..3] == letters;
    assert SkipBlanks(s) == s && SkipBlanks(m) == m && m[1..] == s;
    assert DigitRun(m[1..]) == 0;
  }

  lemma RealIsScanned(d: Double, flags: Flags, tail: seq<byte>, src: Source)
    requires Delimits(tail)
    ensures Scan(WrittenReal(d, flags) + tail, src) == RealFound(TripOf(flags.write, src.convert)(d), tail)
  {
    hide Scan, Delimits, IsRealText;
    if IsFinite(d) {
      RealTextIsScanned(flags.write(d), tail, src);
    } else {
      var name := if IsNan(d) then NAN_TEXT else INF_TEXT;
      NameIsRefused(name, tail, src);
      assert [] + name == name;
    }
  }

  lemma StopsBefore(text: seq<byte>, tail: seq<byte>)
    requires Delimits(tail)
    ensures var s := text + tail;
            Stops(text, s) && (|text| < |s| ==> !IsExponent(s[|text|]) && s[|text|] != POINT)
  {
  }

  lemma NumberStart(text: seq<byte>)
    requires text != [] && IntegerEnd(text).Some?
    ensures IsDigit(text[0]) || text[0] == MINUS
  {
    assert text[0] != MINUS ==> text[0..] == text;
  }

  // ---------- blanks and words ----------

  lemma {:induction false} BlanksAreSkipped(b: seq<byte>, s: seq<byte>)
    requires forall i :: 0 <= i < |b| ==> IsBlank(b[i])
    ensures SkipBlanks(b + s) == SkipBlanks(s)
  {
    if b == [] {
      assert b + s == s;
    } else {
      assert (b + s)[1..] == b[1..] + s;
      BlanksAreSkipped(b[1..], s);
    }
  }

  /** A break before a token changes nothing. */
  lemma IndentIsSkipped(flags: Flags, depth: nat, space: bool, s: seq<byte>, src: Source)
    ensures Scan(Indent(flags, depth, space) + s, src) == Scan(s, src)
  {
    BlanksAreSkipped(Indent(flags, depth, space), s);
  }

  lemma {:induction false} RunOfLetters(w: seq<byte>, tail: seq<byte>)
    requires (forall i :: 0 <= i < |w| ==> IsAlpha(w[i])) && (tail == [] || !IsAlpha(tail[0]))
    ensures AlphaRun(w + tail) == |w|
  {
    if w == [] {
      assert w + tail == tail;
    } else {
      assert (w + tail)[1..] == w[1..] + tail;
      RunOfLetters(w[1..], tail);
    }
  }

  lemma WordIsScanned(w: seq<byte>, tail: seq<byte>, src: Source)
    requires w in {NULL_TEXT, TRUE_TEXT, FALSE_TEXT} && Delimits(tail)
    ensures Scan(w + tail, src) ==
            Scanned(if w == NULL_TEXT then NullToken else if w == TRUE_TEXT then TrueToken else FalseToken, tail)
  {
    assert forall i :: 0 <= i < |w| ==> IsAlpha(w[i]);
    RunOfLetters(w, tail);
    assert (w + tail)[..|w|] == w && (w + tail)[|w|..] == tail;
    assert SkipBlanks(w + tail) == w + tail;
  }

  lemma NumberIsScanned(n: int, tail: seq<byte>, src: Source)
    requires INT_MIN <= n <= INT_MAX && Delimits(tail)
    ensures Scan(Decimal(n) + tail, src) == Scanned(IntegerToken(n), tail)
  {
    IntegerIsScanned(n, tail);
    var s := Decimal(n) + tail;
    assert s[0] == Decimal(n)[0];
    assert SkipBlanks(s) == s;
  }

  lemma StringIsScanned(s: seq<byte>, ascii: bool, tail: seq<byte>, src: Source)
    requires StringOk(s)
    ensures Scan(Quoted(s, ascii) + tail, src) == Scanned(StringToken(s), tail)
  {
    hide Escaped, RawLength, Unescape, ValidString;
    var e, text := Escaped(s, ascii), Quoted(s, ascii) + tail;
    EscapedIsRead(s, ascii, tail);
    assert text[1..] == e + [QUOTE] + tail;
    assert text[1..][..|e|] == e && text[1..][|e| + 1..] == tail;
    assert SkipBlanks(text) == text;
  }

  lemma PunctuationIsScanned(c: byte, tail: seq<byte>, src: Source)
    requires IsPunctuation(c)
    ensures Scan([c] + tail, src) == Scanned(Punctuation(c), tail)
  {
    assert SkipBlanks([c] + tail) == [c] + tail;
    assert ([c] + tail)[1..] == tail;
  }

  // ---------- values ----------

  /** A token that starts a value. */
  predicate Starts(t: Token) {
    t.StringToken? || t.IntegerToken? || t.RealToken? || t.TrueToken? || t.FalseToken? || t.NullToken?
    || t == Punctuation(LEFT_BRACE) || t == Punctuation(LEFT_BRACKET)
  }

  /** Reading a written value and the text after it gives v and tail, or fails on a real that cannot be converted. */
  ghost predicate ReadsAs(text: seq<byte>, converts: bool, v: Value, tail: seq<byte>, src: Source, o: Options) {
    var s := Scan(text, src);
    if converts then Starts(s.token) && ParseValue(s.token, s.rest, src, o) == Parsed(v, tail)
    else (Starts(s.token) || s.token.NoToken?) && ParseValue(s.token, s.rest, src, o) == Failed
  }

  lemma SimpleIsParsed(t: Tree, flags: Flags, depth: nat, tail: seq<byte>, src: Source, o: Options)
    requires Printable(t) && !t.Array? && !t.Object? && Delimits(tail)
    ensures var trip := TripOf(flags.write, src.convert);
            ReadsAs(Print(t, flags, depth) + tail, Convertible(t, trip), ValueOf(t, trip), tail, src, o)
  {
    hide Scan, WrittenReal, IsRealText, ValidString, Delimits;
    match t {
      case Null => WordIsScanned(NULL_TEXT, tail, src);
      case True => WordIsScanned(TRUE_TEXT, tail, src);
      case False => WordIsScanned(FALSE_TEXT, tail, src);
      case Integer(n) => NumberIsScanned(n, tail, src);
      case Real(d) => RealIsScanned(d, flags, tail, src);
      case String(s) => StringIsScanned(s, flags.ascii, tail, src);
    }
  }

  lemma DelimitsAfter(c: byte, x: seq<byte>, tail: seq<byte>)
    requires c == COMMA || c == RIGHT_BRACKET || c == RIGHT_BRACE
    ensures Delimits([c] + x)
    ensures forall flags, depth, space :: Delimits(Indent(flags, depth, space) + [c] + x)
  {
  }

  /** The elements from some point on, the break and the closing bracket are read as the rest of the array. */
  lemma {:induction false} ElemsAreParsed(t: Tree, es: seq<Tree>, flags: Flags, depth: nat, close: seq<byte>,
                                          tail: seq<byte>,
                                          done: seq<Value>, src: Source, o: Options)
    requires t.Array? && es != [] && (forall e :: e in es ==> e in t.elems) && Printable(t)
    requires forall i :: 0 <= i < |es| ==> Printable(es[i])
    requires Delimits(close) && Scan(close, src) == Scanned(Punctuation(RIGHT_BRACKET), tail)
    ensures var trip := TripOf(flags.write, src.convert);
            var s := Scan(PrintElems(t, es, flags, depth) + close, src);
            if AllConvertible(es, trip) then
              Starts(s.token) && ParseElems(s.token, s.rest, done, src, o) ==
                Parsed(VArray(done + Values(es, trip)), tail)
            else
              (Starts(s.token) || s.token.NoToken?) && ParseElems(s.token, s.rest, done, src, o) == Failed
    decreases t, |es|, 0
  {
    hide Scan, Print, Delimits, Printable, Convertible;
    var trip := TripOf(flags.write, src.convert);
    assert es[0] in t.elems;
    var one := Print(es[0], flags, depth);
    if |es| == 1 {
      PrintIsParsed(es[0], flags, depth, close, src, o);
      assert Values(es, trip) == [ValueOf(es[0], trip)];
    } else {
      var more := PrintElems(t, es[1..], flags, depth) + close;
      var after := [COMMA] + (Indent(flags, depth, true) + more);
      assert PrintElems(t, es, flags, depth) + close == one + after;
      DelimitsAfter(COMMA, Indent(flags, depth, true) + more, tail);
      PrintIsParsed(es[0], flags, depth, after, src, o);
      PunctuationIsScanned(COMMA, Indent(flags, depth, true) + more, src);
      IndentIsSkipped(flags, depth, true, more, src);
      ElemsAreParsed(t, es[1..], flags, depth, close, tail, done + [ValueOf(es[0], trip)], src, o);
      assert done + [ValueOf(es[0], trip)] + Values(es[1..], trip) == done + Values(es, trip);
    }
  }

  /** A closing bracket or brace after a break. */
  lemma ClosingIsScanned(c: byte, flags: Flags, depth: nat, tail: seq<byte>, src: Source)
    requires c == RIGHT_BRACKET || c == RIGHT_BRACE
    ensures var close := Indent(flags, depth, false) + ([c] + tail);
            Delimits(close) && Scan(close, src) == Scanned(Punctuation(c), tail)
  {
    IndentIsSkipped(flags, depth, false, [c] + tail, src);
    PunctuationIsScanned(c, tail, src);
  }

  lemma {:induction false} ArrayIsParsed(t: Tree, flags: Flags, depth: nat, tail: seq<byte>, src: Source, o: Options)
    requires t.Array? && Printable(t)
    ensures var trip := TripOf(flags.write, src.convert);
            ReadsAs(Print(t, flags, depth) + tail, Convertible(t, trip), ValueOf(t, trip), tail, src, o)
    decreases t, Width(t), 1
  {
    hide Scan, Indent, Delimits, PrintElems, ParseElems;
    var trip := TripOf(flags.write, src.convert);
    if t.elems == [] {
      PunctuationIsScanned(LEFT_BRACKET, [RIGHT_BRACKET] + tail, src);
      PunctuationIsScanned(RIGHT_BRACKET, tail, src);
      assert Print(t, flags, depth) + tail == [LEFT_BRACKET] + ([RIGHT_BRACKET] + tail);
      assert ValueOf(t, trip) == VArray([]);
    } else {
      var close := Indent(flags, depth, false) + ([RIGHT_BRACKET] + tail);
      var inner := PrintElems(t, t.elems, flags, depth + 1) + close;
      var open := Indent(flags, depth + 1, false) + inner;
      assert Print(t, flags, depth) + tail == [LEFT_BRACKET] + open;
      PunctuationIsScanned(LEFT_BRACKET, open, src);
      ClosingIsScanned(RIGHT_BRACKET, flags, depth, tail, src);
      IndentIsSkipped(flags, depth + 1, false, inner, src);
      ElemsAreParsed(t, t.elems, flags, depth + 1, close, tail, [], src, o);
      assert [] + Values(t.elems, trip) == Values(t.elems, trip);
    }
  }

  lemma MembersOkMeans(ms: seq<Member<Tree>>)
    ensures MembersOk(ms) <==>
            Distinct(ms) && forall i :: 0 <= i < |ms| ==> StringOk(ms[i].key) && Printable(ms[i].value)
  {
  }

  lemma MapOfHas(ms: seq<Member<Tree>>, m: Member<Tree>, trip: Trip)
    requires Distinct(ms) && m in ms
    ensures m.key in MapOf(ms, trip) && MapOf(ms, trip)[m.key] == ValueOf(m.value, trip)
  {
    assert m.key in KeysOf(ms);
    assert ms[IndexOf(ms, m.key)] == m;
  }

  lemma MapOfKeys(ms: seq<Member<Tree>>, trip: Trip)
    ensures MapOf(ms, trip).Keys == KeysOf(ms)
  {
  }

  /** The map of the members is given by what it has for each of them. */
  lemma MapOfIs(ms: seq<Member<Tree>>, r: map<seq<byte>, Value>, trip: Trip)
    requires Distinct(ms) && r.Keys == KeysOf(ms)
    requires forall m :: m in ms ==> m.key in r && r[m.key] == ValueOf(m.value, trip)
    ensures MapOf(ms, trip) == r
  {
    MapOfKeys(ms, trip);
    forall k | k in r ensures MapOf(ms, trip)[k] == r[k] {
      var m :| m in ms && m.key == k;
      MapOfHas(ms, m, trip);
    }
  }

  lemma KeysOfCons(ms: seq<Member<Tree>>)
    requires ms != []
    ensures KeysOf(ms) == {ms[0].key} + KeysOf(ms[1..])
  {
    assert ms == [ms[0]] + ms[1..];
  }

  lemma RestDistinct(ms: seq<Member<Tree>>)
    requires ms != [] && MembersOk(ms)
    ensures MembersOk(ms[1..]) && Printable(ms[0].value) && ms[0].key !in KeysOf(ms[1..])
  {
    hide Printable, StringOk, MembersOk;
    MembersOkMeans(ms);
    var rest := ms[1..];
    MembersOkMeans(rest);
    assert forall i :: 0 <= i < |rest| ==> rest[i] == ms[i + 1] && rest[i].key != ms[0].key;
  }

  lemma RestOk(ms: seq<Member<Tree>>, trip: Trip)
    requires ms != [] && MembersOk(ms)
    ensures MembersOk(ms[1..]) && Printable(ms[0].value) && ms[0].key !in MapOf(ms[1..], trip)
    ensures MapOf(ms, trip) == MapOf(ms[1..], trip)[ms[0].key := ValueOf(ms[0].value, trip)]
  {
    hide Printable, ValueOf, StringOk, MapOf, MembersOk, KeysOf;
    RestDistinct(ms);
    MembersOkMeans(ms);
    var rest := ms[1..];
    MembersOkMeans(rest);
    MapOfKeys(rest, trip);
    KeysOfCons(ms);
    var r := MapOf(rest, trip)[ms[0].key := ValueOf(ms[0].value, trip)];
    forall m | m in ms ensures m.key in r && r[m.key] == ValueOf(m.value, trip) {
      if m in rest {
        MapOfHas(rest, m, trip);
      } else {
        assert m == ms[0];
      }
    }
    MapOfIs(ms, r, trip);
  }

  lemma KeyIsNew(ms: seq<Member<Tree>>, done: map<seq<byte>, Value>, trip: Trip)
    requires ms != [] && MembersOk(ms) && forall m :: m in ms ==> m.key !in done
    ensures MembersOk(ms[1..]) && StringOk(ms[0].key) && Printable(ms[0].value)
    ensures var more := done[ms[0].key := ValueOf(ms[0].value, trip)];
            && (forall m :: m in ms[1..] ==> m.key !in more)
            && more + MapOf(ms[1..], trip) == done + MapOf(ms, trip)
            && (|ms| == 1 ==> more == done + MapOf(ms, trip))
  {
    hide Printable, ValueOf, StringOk, MapOf, MembersOk;
    MembersOkMeans(ms);
    RestOk(ms, trip);
    MapOfKeys(ms[1..], trip);
    var more := done[ms[0].key := ValueOf(ms[0].value, trip)];
    assert forall m :: m in ms[1..] ==> m.key in KeysOf(ms[1..]);
    assert more + MapOf(ms[1..], trip) == done + MapOf(ms, trip);
  }

  /** The members from some point on, the break and the closing brace are read as the rest of the object. */
  lemma {:induction false} MembersAreParsed(t: Tree, ms: seq<Member<Tree>>, flags: Flags, depth: nat, close: seq<byte>,
                                            tail: seq<byte>,
                                            done: map<seq<byte>, Value>, src: Source, o: Options)
    requires t.Object? && ms != [] && (forall m :: m in ms ==> m in t.members) && Printable(t)
    requires MembersOk(ms) && forall m :: m in ms ==> m.key !in done
    requires Delimits(close) && Scan(close, src) == Scanned(Punctuation(RIGHT_BRACE), tail)
    ensures var trip := TripOf(flags.write, src.convert);
            var s := Scan(PrintMembers(t, ms, flags, depth) + close, src);
            && s.token.StringToken?
            && ParseMembers(s.token, s.rest, done, src, o) ==
               if MembersConvertible(ms, trip) then Parsed(VObject(done + MapOf(ms, trip)), tail) else Failed
    decreases t, |ms|, 0
  {
    hide Convertible, Scan, Print, Delimits, Printable, Quoted, StringOk, MembersOk, MapOf, Indent, PrintMember,
         ParseValue;
    var trip := TripOf(flags.write, src.convert);
    KeyIsNew(ms, done, trip);
    if |ms| == 1 {
      MemberIsParsed(t, ms[0], flags, depth, close, src, o);
    } else {
      var more := PrintMembers(t, ms[1..], flags, depth) + close;
      var after := [COMMA] + (Indent(flags, depth, true) + more);
      assert PrintMembers(t, ms, flags, depth) + close == PrintMember(t, ms[0], flags, depth) + after;
      DelimitsAfter(COMMA, Indent(flags, depth, true) + more, tail);
      MemberIsParsed(t, ms[0], flags, depth, after, src, o);
      PunctuationIsScanned(COMMA, Indent(flags, depth, true) + more, src);
      IndentIsSkipped(flags, depth, true, more, src);
      MembersAreParsed(t, ms[1..], flags, depth, close, tail, done[ms[0].key := ValueOf(ms[0].value, trip)], src, o);
    }
  }

  /** A key, the colon and the value. */
  lemma {:induction false} MemberIsParsed(t: Tree, m: Member<Tree>, flags: Flags, depth: nat, tail: seq<byte>,
                                          src: Source, o: Options)
    requires t.Object? && m in t.members && StringOk(m.key) && Printable(m.value) && Delimits(tail)
    ensures var trip := TripOf(flags.write, src.convert);
            var s := Scan(PrintMember(t, m, flags, depth) + tail, src);
            && s.token == StringToken(m.key)
            && var colon := Scan(s.rest, src);
            && colon.token == Punctuation(COLON)
            && ReadsAs(colon.rest, Convertible(m.value, trip), ValueOf(m.value, trip), tail, src, o)
    decreases t, 0, 0
  {
    hide Scan, Print, Delimits, Printable, Convertible, Quoted, StringText, StringOk, ParseValue;
    KeyIsQuoted(m.key, flags.ascii);
    var value := Print(m.value, flags, depth) + tail;
    var space := if flags.compact then [] else [SPACE];
    assert Separator(flags) == [COLON] + space;
    assert PrintMember(t, m, flags, depth) + tail == Quoted(m.key, flags.ascii) + ([COLON] + (space + value));
    StringIsScanned(m.key, flags.ascii, [COLON] + (space + value), src);
    PunctuationIsScanned(COLON, space + value, src);
    SpaceIsSkipped(space, value, src);
    PrintIsParsed(m.value, flags, depth, tail, src, o);
  }

  lemma KeyIsQuoted(key: seq<byte>, ascii: bool)
    requires StringOk(key)
    ensures StringText(key, ascii) == Quoted(key, ascii)
  {
  }

  lemma SpaceIsSkipped(space: seq<byte>, s: seq<byte>, src: Source)
    requires space == [] || space == [SPACE]
    ensures Scan(space + s, src) == Scan(s, src)
  {
    BlanksAreSkipped(space, s);
  }

  lemma OrderOk(ms: seq<Member<Tree>>, flags: Flags, trip: Trip)
    requires MembersOk(ms)
    ensures var r := Order(ms, flags);
            MembersOk(r) && |r| == |ms| && (forall m :: m in r <==> m in ms) && MapOf(r, trip) == MapOf(ms, trip)
  {
    hide Printable, ValueOf, StringOk, Order, MapOf, MembersOk;
    var r := Order(ms, flags);
    MembersOkMeans(ms);
    MembersOkMeans(r);
    SameMembers(ms, r);
    assert MembersOk(r) by {
      forall i | 0 <= i < |r| ensures StringOk(r[i].key) && Printable(r[i].value) {
        assert r[i] in ms;
      }
    }
    assert KeysOf(r) == KeysOf(ms);
    MapOfKeys(ms, trip);
    forall m | m in r ensures m.key in MapOf(ms, trip) && MapOf(ms, trip)[m.key] == ValueOf(m.value, trip) {
      MapOfHas(ms, m, trip);
    }
    MapOfIs(r, MapOf(ms, trip), trip);
  }

  lemma SameMembers(ms: seq<Member<Tree>>, r: seq<Member<Tree>>)
    requires multiset(r) == multiset(ms) && Distinct(ms) && forall m :: m in r <==> m in ms
    ensures Distinct(r)
  {
    forall i, j | 0 <= i < j < |r| ensures r[i].key != r[j].key && r[i].serial != r[j].serial {
      assert r[i] in ms && r[j] in ms;
      if r[i] == r[j] {
        TwiceInMultiset(r, i, j);
        OnceInMultiset(ms, r[i]);
      }
    }
  }

  lemma TwiceInMultiset(r: seq<Member<Tree>>, i: nat, j: nat)
    requires i < j < |r| && r[i] == r[j]
    ensures multiset(r)[r[i]] >= 2
  {
    assert r == r[..i] + [r[i]] + r[i + 1..j] + [r[j]] + r[j + 1..];
  }

  lemma OnceInMultiset(ms: seq<Member<Tree>>, m: Member<Tree>)
    requires Distinct(ms)
    ensures multiset(ms)[m] <= 1
  {
    if k :| 0 <= k < |ms| && ms[k] == m {
      assert ms == ms[..k] + [m] + ms[k + 1..];
      assert m !in ms[..k] && m !in ms[k + 1..];
    } else {
      assert m !in ms;
    }
  }

  lemma ValueOfObject(t: Tree, trip: Trip)
    requires t.Object?
    ensures (Printable(t) <==> MembersOk(t.members)) && ValueOf(t, trip) == VObject(MapOf(t.members, trip))
  {
  }

  lemma EmptyMap(trip: Trip)
    ensures MapOf([], trip) == map[]
  {
  }

  lemma ObjectText(t: Tree, flags: Flags, depth: nat, tail: seq<byte>)
    requires t.Object?
    ensures if t.members == [] then Print(t, flags, depth) + tail == [LEFT_BRACE] + ([RIGHT_BRACE] + tail)
            else
              var ms := Order(t.members, flags);
              && (forall m :: m in ms ==> m in t.members)
              && Print(t, flags, depth) + tail ==
                 [LEFT_BRACE] + (Indent(flags, depth + 1, false)
                 + (PrintMembers(t, ms, flags, depth + 1) + (Indent(flags, depth, false) + ([RIGHT_BRACE] + tail))))
  {
    hide Order, Indent, PrintMembers;
    var ms := Order(t.members, flags);
  }

  /** An opening brace and what is read after it. */
  lemma ObjectIsRead(open: seq<byte>, converts: bool, ms: map<seq<byte>, Value>, tail: seq<byte>, src: Source,
                     o: Options)
    requires var s := Scan(open, src);
             || (s == Scanned(Punctuation(RIGHT_BRACE), tail) && ms == map[] && converts)
             || (s.token.StringToken?
                 && ParseMembers(s.token, s.rest, map[], src, o) ==
                    if converts then Parsed(VObject(ms), tail) else Failed)
    ensures ReadsAs([LEFT_BRACE] + open, converts, VObject(ms), tail, src, o)
  {
    hide Scan, ParseMembers;
    PunctuationIsScanned(LEFT_BRACE, open, src);
  }

  /** In whatever order the members are, the same reals are converted. */
  lemma OrderConvertible(t: Tree, flags: Flags, trip: Trip)
    requires t.Object?
    ensures MembersConvertible(Order(t.members, flags), trip) <==> Convertible(t, trip)
  {
    hide Order;
    var ms := Order(t.members, flags);
    assert forall i :: 0 <= i < |ms| ==> ms[i] in t.members;
    forall i | 0 <= i < |t.members| && MembersConvertible(ms, trip) ensures Convertible(t.members[i].value, trip) {
      assert t.members[i] in ms;
    }
  }

  lemma {:induction false} ObjectIsParsed(t: Tree, flags: Flags, depth: nat, tail: seq<byte>, src: Source, o: Options)
    requires t.Object? && Printable(t)
    ensures var trip := TripOf(flags.write, src.convert);
            ReadsAs(Print(t, flags, depth) + tail, Convertible(t, trip), ValueOf(t, trip), tail, src, o)
    decreases t, Width(t), 1
  {
    hide Scan, Indent, Delimits, PrintMembers, ParseMembers, Order, StringOk, MapOf;
    hide Print, Printable, ReadsAs, ValueOf, MembersOk, Convertible;
    var trip := TripOf(flags.write, src.convert);
    ValueOfObject(t, trip);
    ObjectText(t, flags, depth, tail);
    OrderConvertible(t, flags, trip);
    if t.members == [] {
      PunctuationIsScanned(RIGHT_BRACE, tail, src);
      EmptyMap(trip);
      NothingToConvert(t, trip);
      ObjectIsRead([RIGHT_BRACE] + tail, true, map[], tail, src, o);
    } else {
      var ms := Order(t.members, flags);
      OrderOk(t.members, flags, trip);
      var close := Indent(flags, depth, false) + ([RIGHT_BRACE] + tail);
      var inner := PrintMembers(t, ms, flags, depth + 1) + close;
      ClosingIsScanned(RIGHT_BRACE, flags, depth, tail, src);
      IndentIsSkipped(flags, depth + 1, false, inner, src);
      MembersAreParsed(t, ms, flags, depth + 1, close, tail, map[], src, o);
      assert map[] + MapOf(ms, trip) == MapOf(t.members, trip);
      ObjectIsRead(Indent(flags, depth + 1, false) + inner, Convertible(t, trip), MapOf(ms, trip), tail, src, o);
    }
  }

  lemma NothingToConvert(t: Tree, trip: Trip)
    requires t.Object? && t.members == []
    ensures Convertible(t, trip)
  {
  }

  /**
    A written value, with text after it that delimits it, is read back as that value and that text,
    unless it holds a real that cannot be converted.
   */
  lemma {:induction false} PrintIsParsed(t: Tree, flags: Flags, depth: nat, tail: seq<byte>, src: Source, o: Options)
    requires Printable(t) && Delimits(tail)
    ensures var trip := TripOf(flags.write, src.convert);
            ReadsAs(Print(t, flags, depth) + tail, Convertible(t, trip), ValueOf(t, trip), tail, src, o)
    decreases t, Width(t) + 1, 0
  {
    hide Print, ParseValue, Scan;
    if t.Array? {
      ArrayIsParsed(t, flags, depth, tail, src, o);
    } else if t.Object? {
      ObjectIsParsed(t, flags, depth, tail, src, o);
    } else {
      SimpleIsParsed(t, flags, depth, tail, src, o);
    }
  }

  // ---------- what is written is text ----------

  lemma AsciiText(s: seq<byte>)
    requires Ascii(s)
    ensures StringOk(s)
  {
    AsciiIsValid(s);
  }

  lemma TextConcat(a: seq<byte>, b: seq<byte>)
    requires StringOk(a) && StringOk(b)
    ensures StringOk(a + b)
  {
    hide ValidString;
    ValidConcat(a, b);
  }

  /** Whatever is left of a string in the text, up to its end or to the octet that ends the writing. */
  lemma WrittenStringIsText(s: seq<byte>, ascii: bool)
    requires 0 !in s
    ensures StringOk(Quoted(s, ascii)) && StringOk(StringText(s, ascii))
  {
    hide ValidString, StringOk;
    LeftIsText(s, ascii);
    AsciiText([QUOTE]);
    TextConcat([QUOTE], Escaped(s, ascii));
    TextConcat([QUOTE] + Escaped(s, ascii), [QUOTE]);
    TextConcat([QUOTE], Flushed(s, [], ascii));
  }

  lemma LeftIsText(s: seq<byte>, ascii: bool)
    requires 0 !in s
    ensures StringOk(Escaped(s, ascii)) && StringOk(Flushed(s, [], ascii))
  {
    EscapedIsText(s, ascii);
    AsciiIsValid([]);
    FlushedIsText(s, [], ascii);
  }

  lemma BreaksAreText(flags: Flags, depth: nat, space: bool)
    ensures StringOk(Indent(flags, depth, space)) && StringOk(Separator(flags))
    ensures StringOk([COMMA]) && StringOk([LEFT_BRACKET]) && StringOk([RIGHT_BRACKET]) && StringOk([LEFT_BRACE])
            && StringOk([RIGHT_BRACE])
  {
    hide ValidString, StringOk;
    AsciiText(Indent(flags, depth, space));
    AsciiText(Separator(flags));
    AsciiText([COMMA]);
    AsciiText([LEFT_BRACKET]);
    AsciiText([RIGHT_BRACKET]);
    AsciiText([LEFT_BRACE]);
    AsciiText([RIGHT_BRACE]);
  }

  /** A number is written in ASCII. */
  lemma RealIsAscii(s: seq<byte>)
    requires IsRealText(s)
    ensures Ascii(s)
  {
    hide IntegerEnd, FractionEnd, ExponentEnd;
    var j := IntegerEnd(s).value;
    IntegerIsAscii(s);
    FractionIsAscii(s, j);
    ExponentIsAscii(s, FractionEnd(s, j).value);
  }

  lemma IntegerIsAscii(s: seq<byte>)
    requires IntegerEnd(s).Some?
    ensures forall i :: 0 <= i < IntegerEnd(s).value ==> 0 < s[i] < 0x80
  {
    hide DigitRun;
    RunIsAscii(s, if s[0] == MINUS then 1 else 0);
  }

  lemma FractionIsAscii(s: seq<byte>, j: nat)
    requires j <= |s| && FractionEnd(s, j).Some?
    ensures forall i :: j <= i < FractionEnd(s, j).value ==> 0 < s[i] < 0x80
  {
    hide DigitRun;
    if j < |s| && s[j] == POINT {
      RunIsAscii(s, j + 1);
    }
  }

  lemma ExponentIsAscii(s: seq<byte>, k: nat)
    requires k <= |s| && ExponentEnd(s, k).Some?
    ensures forall i :: k <= i < ExponentEnd(s, k).value ==> 0 < s[i] < 0x80
  {
    hide DigitRun;
    if k < |s| && IsExponent(s[k]) {
      RunIsAscii(s, if k + 1 < |s| && IsSign(s[k + 1]) then k + 2 else k + 1);
    }
  }

  lemma RunIsAscii(s: seq<byte>, a: nat)
    requires a <= |s|
    ensures forall i :: a <= i < a + DigitRun(s[a..]) ==> 0 < s[i] < 0x80
  {
    forall i | a <= i < a + DigitRun(s[a..]) ensures 0 < s[i] < 0x80 {
      assert s[a..][i - a] == s[i];
    }
  }

  lemma WrittenIsAscii(d: Double, flags: Flags)
    ensures Ascii(WrittenReal(d, flags))
  {
    hide IsRealText;
    if IsFinite(d) {
      RealIsAscii(flags.write(d));
    }
  }

  lemma SimpleIsText(t: Tree, flags: Flags, depth: nat)
    requires Sane(t) && !t.Array? && !t.Object?
    ensures StringOk(Print(t, flags, depth))
  {
    hide ValidString, StringOk, Quoted;
    match t {
      case Null => AsciiText(NULL_TEXT);
      case True => AsciiText(TRUE_TEXT);
      case False => AsciiText(FALSE_TEXT);
      case Integer(n) =>
        DigitsAreDigits(if n < 0 then -n else n);
        AsciiText(Decimal(n));
      case Real(d) =>
        WrittenIsAscii(d, flags);
        AsciiText(WrittenReal(d, flags));
      case String(s) => WrittenStringIsText(s, flags.ascii);
    }
  }

  lemma {:induction false} ElemsAreText(t: Tree, es: seq<Tree>, flags: Flags, depth: nat)
    requires t.Array? && (forall e :: e in es ==> e in t.elems) && Sane(t)
    requires forall i :: 0 <= i < |es| ==> Sane(es[i])
    ensures StringOk(PrintElems(t, es, flags, depth))
    decreases t, |es|, 0
  {
    hide StringOk, Print, Sane, Indent;
    if es == [] {
      AsciiText([]);
    } else {
      assert es[0] in t.elems;
      PrintIsText(es[0], flags, depth);
      if |es| > 1 {
        ElemsAreText(t, es[1..], flags, depth);
        BreaksAreText(flags, depth, true);
        TextConcat(Print(es[0], flags, depth), [COMMA]);
        TextConcat(Print(es[0], flags, depth) + [COMMA], Indent(flags, depth, true));
        var first := Print(es[0], flags, depth) + [COMMA] + Indent(flags, depth, true);
        TextConcat(first, PrintElems(t, es[1..], flags, depth));
      }
    }
  }

  lemma {:induction false} MemberIsText(t: Tree, m: Member<Tree>, flags: Flags, depth: nat)
    requires t.Object? && m in t.members && 0 !in m.key && Sane(m.value)
    ensures StringOk(PrintMember(t, m, flags, depth))
    decreases t, 0, 0
  {
    hide StringOk, Print, Sane, StringText, Separator;
    WrittenStringIsText(m.key, flags.ascii);
    BreaksAreText(flags, depth, true);
    PrintIsText(m.value, flags, depth);
    TextConcat(StringText(m.key, flags.ascii), Separator(flags));
    TextConcat(StringText(m.key, flags.ascii) + Separator(flags), Print(m.value, flags, depth));
  }

  lemma {:induction false} MembersAreText(t: Tree, ms: seq<Member<Tree>>, flags: Flags, depth: nat)
    requires t.Object? && (forall m :: m in ms ==> m in t.members) && Sane(t)
    requires forall m :: m in ms ==> 0 !in m.key && Sane(m.value)
    ensures StringOk(PrintMembers(t, ms, flags, depth))
    decreases t, |ms|, 0
  {
    hide StringOk, PrintMember, Sane, Indent;
    if ms == [] {
      AsciiText([]);
    } else {
      MemberIsText(t, ms[0], flags, depth);
      if |ms| > 1 {
        MembersAreText(t, ms[1..], flags, depth);
        BreaksAreText(flags, depth, true);
        TextConcat(PrintMember(t, ms[0], flags, depth), [COMMA]);
        TextConcat(PrintMember(t, ms[0], flags, depth) + [COMMA], Indent(flags, depth, true));
        var first := PrintMember(t, ms[0], flags, depth) + [COMMA] + Indent(flags, depth, true);
        TextConcat(first, PrintMembers(t, ms[1..], flags, depth));
      }
    }
  }

  lemma EnclosedIsText(a: seq<byte>, b: seq<byte>, c: seq<byte>, d: seq<byte>, e: seq<byte>)
    requires StringOk(a) && StringOk(b) && StringOk(c) && StringOk(d) && StringOk(e)
    ensures StringOk(a + b + c + d + e) && StringOk(a + e)
  {
    hide StringOk;
    TextConcat(a, b);
    TextConcat(a + b, c);
    TextConcat(a + b + c, d);
    TextConcat(a + b + c + d, e);
    TextConcat(a, e);
  }

  /** The text is valid UTF-8 and holds no terminator, even where a key could not be written to its end. */
  lemma {:induction false} PrintIsText(t: Tree, flags: Flags, depth: nat)
    requires Sane(t)
    ensures StringOk(Print(t, flags, depth))
    decreases t, Width(t) + 1, 0
  {
    hide StringOk, Indent, PrintElems, PrintMembers, Order;
    if t.Array? {
      BreaksAreText(flags, depth, false);
      BreaksAreText(flags, depth + 1, false);
      ElemsAreText(t, t.elems, flags, depth + 1);
      EnclosedIsText([LEFT_BRACKET], Indent(flags, depth + 1, false), PrintElems(t, t.elems, flags, depth + 1),
                     Indent(flags, depth, false), [RIGHT_BRACKET]);
      assert [LEFT_BRACKET] + [RIGHT_BRACKET] == [LEFT_BRACKET, RIGHT_BRACKET];
    } else if t.Object? {
      var ms := Order(t.members, flags);
      BreaksAreText(flags, depth, false);
      BreaksAreText(flags, depth + 1, false);
      MembersAreText(t, ms, flags, depth + 1);
      EnclosedIsText([LEFT_BRACE], Indent(flags, depth + 1, false), PrintMembers(t, ms, flags, depth + 1),
                     Indent(flags, depth, false), [RIGHT_BRACE]);
      assert [LEFT_BRACE] + [RIGHT_BRACE] == [LEFT_BRACE, RIGHT_BRACE];
    } else {
      SimpleIsText(t, flags, depth);
    }
  }

  // ---------- whole documents ----------

  /**
    A document that can be written is read back as the value it was written from, its reals as the numbers
    their texts are converted to, for every choice of indentation, compactness, ASCII and member order; a
    bare value needs both sides to allow it, and no real may be refused.
   */
  lemma LoadsUndoesDumps(t: Tree, flags: Flags, convert: seq<byte> -> Option<Double>, o: Options)
    requires Printable(t) && Dumps(t, flags).Some?
    ensures var trip := TripOf(flags.write, convert);
            Loads(Dumps(t, flags).value, convert, o) ==
            if (t.Array? || t.Object? || o.decodeAny) && Convertible(t, trip) then Parsed(ValueOf(t, trip), [])
            else Failed
  {
    hide Scan, ParseValue, Print, Printable, ValueOf, StringOk, ValidString, Convertible;
    var src := Source(false, convert);
    var text := Dumps(t, flags).value;
    PrintableMeans(t);
    PrintIsText(t, flags, 0);
    Whole(text);
    PrintIsParsed(t, flags, 0, [], src, o);
    assert text + [] == text;
    FirstToken(t, flags, src);
    NothingLeft(src);
  }

  lemma Whole(text: seq<byte>)
    requires StringOk(text)
    ensures Readable(text) == text
  {
    ValidIsReadable(text);
  }

  lemma NothingLeft(src: Source)
    ensures Scan([], src) == Scanned(if src.fails then NoToken else Eof, [])
  {
  }

  /** Exactly arrays and objects start with a bracket or a brace. */
  lemma FirstToken(t: Tree, flags: Flags, src: Source)
    requires Printable(t)
    ensures Scan(Print(t, flags, 0), src).token in {Punctuation(LEFT_BRACKET), Punctuation(LEFT_BRACE)} <==>
            t.Array? || t.Object?
  {
    hide Scan, PrintElems, PrintMembers, Order, Indent, Quoted, Decimal;
    var s := Print(t, flags, 0);
    if t.Array? || t.Object? {
      assert s == [s[0]] + s[1..];
      PunctuationIsScanned(s[0], s[1..], src);
    } else {
      assert s + [] == s;
      match t {
        case Null => WordIsScanned(NULL_TEXT, [], src);
        case True => WordIsScanned(TRUE_TEXT, [], src);
        case False => WordIsScanned(FALSE_TEXT, [], src);
        case Integer(n) => NumberIsScanned(n, [], src);
        case Real(d) => RealIsScanned(d, flags, [], src);
        case String(str) => StringIsScanned(str, flags.ascii, [], src);
      }
    }
  }
}
