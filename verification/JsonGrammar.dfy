/** JSON texts by the grammar of RFC 4627, section 2: how a value is spelled, octet by octet, and what that means. */
module JsonGrammar {
  import opened Bytes
  import opened Utf8
  import opened JsonNumbers
  import opened JsonStrings
  import opened JsonReader
  import opened JsonRoundTrip
  import opened Wrappers

  // ---------- syntax ----------

  /** A character of a string: itself, an escape of two characters, a UTF-16 code unit, or two that form a pair. */
  datatype Char = Octet(b: byte) | Short(c: byte) | Unit(h: seq<byte>) | Pair(high: seq<byte>, low: seq<byte>)

  datatype Syntax =
    | NullWord | TrueWord | FalseWord
    | Whole(digits: seq<byte>)
    | Fractional(whole: seq<byte>, fraction: seq<byte>, exponent: seq<byte>)
    | Characters(chars: seq<Char>)
    | EmptyList(blanks: seq<byte>)
    | List(items: seq<Item>)
    | EmptyRecord(blanks: seq<byte>)
    | Record(members: seq<Named>)

  /** A value between blanks. */
  datatype Item = Item(before: seq<byte>, value: Syntax, after: seq<byte>)

  /** A name between blanks, and the value after the colon. */
  datatype Named = Named(before: seq<byte>, name: seq<Char>, after: seq<byte>, item: Item)

  // ---------- spelling ----------

  function SpellChar(c: Char): seq<byte> {
    match c
    case Octet(b) => [b]
    case Short(e) => [0x5C, e]
    case Unit(h) => [0x5C, 0x75] + h
    case Pair(high, low) => [0x5C, 0x75] + high + [0x5C, 0x75] + low
  }

  function SpellChars(cs: seq<Char>): seq<byte> {
    if cs == [] then [] else SpellChar(cs[0]) + SpellChars(cs[1..])
  }

  function SpellText(cs: seq<Char>): seq<byte> {
    [0x22] + SpellChars(cs) + [0x22]
  }

  function Spell(c: Syntax): seq<byte>
    decreases c, 0
  {
    match c
    case NullWord => [0x6E, 0x75, 0x6C, 0x6C]
    case TrueWord => [0x74, 0x72, 0x75, 0x65]
    case FalseWord => [0x66, 0x61, 0x6C, 0x73, 0x65]
    case Whole(digits) => digits
    case Fractional(whole, fraction, exponent) => whole + fraction + exponent
    case Characters(cs) => SpellText(cs)
    case EmptyList(blanks) => [0x5B] + blanks + [0x5D]
    case List(items) => [0x5B] + SpellItems(items) + [0x5D]
    case EmptyRecord(blanks) => [0x7B] + blanks + [0x7D]
    case Record(members) => [0x7B] + SpellMembers(members) + [0x7D]
  }

  function SpellItem(i: Item): seq<byte>
    decreases i, 1
  {
    i.before + Spell(i.value) + i.after
  }

  function SpellItems(items: seq<Item>): seq<byte>
    decreases items, 2
  {
    if items == [] then []
    else if |items| == 1 then SpellItem(items[0])
    else SpellItem(items[0]) + [0x2C] + SpellItems(items[1..])
  }

  function SpellMember(m: Named): seq<byte>
    decreases m, 2
  {
    m.before + SpellText(m.name) + m.after + [0x3A] + SpellItem(m.item)
  }

  function SpellMembers(ms: seq<Named>): seq<byte>
    decreases ms, 3
  {
    if ms == [] then []
    else if |ms| == 1 then SpellMember(ms[0])
    else SpellMember(ms[0]) + [0x2C] + SpellMembers(ms[1..])
  }

  // ---------- meaning ----------

  /** Letters after F have values, too. */
  function HexDigitValue(c: byte): nat {
    if 0x30 <= c <= 0x39 then c - 48 else if 0x41 <= c <= 0x5A then c - 55 else if 0x61 <= c <= 0x7A then c - 87 else 0
  }

  function HexValue(h: seq<byte>): nat {
    if h == [] then 0 else HexValue(h[..|h| - 1]) * 16 + HexDigitValue(h[|h| - 1])
  }

  lemma FourDigits(h: seq<byte>)
    requires |h| == 4
    ensures HexValue(h) == ((HexDigitValue(h[0]) * 16 + HexDigitValue(h[1])) * 16 + HexDigitValue(h[2])) * 16
                           + HexDigitValue(h[3])
  {
    hide HexDigitValue;
    var a, b, c := h[..1], h[..2], h[..3];
    assert a[..0] == [] && b[..1] == a && c[..2] == b && h[..3] == c;
    assert HexValue([]) == 0;
    assert HexValue(a) == HexDigitValue(h[0]);
    assert HexValue(b) == HexDigitValue(h[0]) * 16 + HexDigitValue(h[1]);
  }

  /** The octets of a code point; there is none beyond 0x10FFFF. */
  function Point(c: int): seq<byte> {
    if 0 <= c <= 0x10FFFF then Encode(c) else []
  }

  function CharMeans(c: Char): seq<byte>
  {
    match c
    case Octet(b) => [b]
    case Short(e) =>
      if e == 0x62 then [8] else if e == 0x66 then [12] else if e == 0x6E then [10]
      else if e == 0x72 then [13] else if e == 0x74 then [9] else [e]
    case Unit(h) => Point(HexValue(h))
    case Pair(high, low) => Point((HexValue(high) - 0xD800) * 0x400 + HexValue(low) - 0xDC00 + 0x1_0000)
  }

  function CharsMean(cs: seq<Char>): seq<byte>
  {
    if cs == [] then [] else CharMeans(cs[0]) + CharsMean(cs[1..])
  }

  function DecimalValue(digits: seq<byte>): int {
    if digits == [] then 0 else DecimalValue(digits[..|digits| - 1]) * 10 + digits[|digits| - 1] - 48
  }

  function WholeValue(s: seq<byte>): int {
    if s != [] && s[0] == 0x2D then -DecimalValue(s[1..]) else DecimalValue(s)
  }

  function Number(s: seq<byte>, convert: seq<byte> -> Option<Double>): Double {
    if convert(s).Some? then convert(s).value else 0
  }

  function Meaning(c: Syntax, convert: seq<byte> -> Option<Double>): Value
    decreases c, 0
  {
    match c
    case NullWord => VNull
    case TrueWord => VTrue
    case FalseWord => VFalse
    case Whole(digits) => VInteger(WholeValue(digits))
    case Fractional(whole, fraction, exponent) => VReal(Number(whole + fraction + exponent, convert))
    case Characters(cs) => VString(CharsMean(cs))
    case EmptyList(_) => VArray([])
    case List(items) => VArray(ItemsMean(items, convert))
    case EmptyRecord(_) => VObject(map[])
    case Record(ms) => VObject(MembersMean(map[], ms, convert))
  }

  function ItemsMean(items: seq<Item>, convert: seq<byte> -> Option<Double>): seq<Value>
    decreases items, 1
  {
    if items == [] then [] else [Meaning(items[0].value, convert)] + ItemsMean(items[1..], convert)
  }

  /** Of several members with the same name, the last one counts. */
  function MembersMean(done: map<seq<byte>, Value>, ms: seq<Named>, convert: seq<byte> -> Option<Double>):
    map<seq<byte>, Value>
    decreases ms, 1
  {
    if ms == [] then done else
    MembersMean(done[CharsMean(ms[0].name) := Meaning(ms[0].item.value, convert)], ms[1..], convert)
  }

  // ---------- which syntax is well formed ----------

  predicate Blank(s: seq<byte>) {
    forall i :: 0 <= i < |s| ==> s[i] == 0x20 || s[i] == 0x09 || s[i] == 0x0A || s[i] == 0x0D
  }

  predicate LetterOrDigit(b: byte) {
    0x30 <= b <= 0x39 || 0x41 <= b <= 0x5A || 0x61 <= b <= 0x7A
  }

  predicate Alphanumeric(h: seq<byte>) {
    forall i :: 0 <= i < |h| ==> LetterOrDigit(h[i])
  }

  predicate UnitOk(h: seq<byte>) {
    |h| == 4 && Alphanumeric(h)
  }

  predicate CharOk(c: Char) {
    match c
    case Octet(b) => b >= 0x20 && b != 0x22 && b != 0x5C
    case Short(e) =>
      e == 0x22 || e == 0x5C || e == 0x2F || e == 0x62 || e == 0x66 || e == 0x6E || e == 0x72 || e == 0x74
    case Unit(h) => UnitOk(h) && HexValue(h) != 0 && !(0xD800 <= HexValue(h) <= 0xDFFF)
    case Pair(high, low) =>
      UnitOk(high) && UnitOk(low) && 0xD800 <= HexValue(high) <= 0xDBFF && 0xDC00 <= HexValue(low) <= 0xDFFF
  }

  predicate CharsOk(cs: seq<Char>) {
    forall i :: 0 <= i < |cs| ==> CharOk(cs[i])
  }

  predicate AllDigits(s: seq<byte>) {
    forall i :: 0 <= i < |s| ==> 0x30 <= s[i] <= 0x39
  }

  /** Digits without a leading zero. */
  predicate NaturalOk(s: seq<byte>) {
    s != [] && AllDigits(s) && (s[0] == 0x30 ==> |s| == 1)
  }

  predicate WholeOk(s: seq<byte>) {
    s != [] && NaturalOk(if s[0] == 0x2D then s[1..] else s)
  }

  predicate FractionOk(s: seq<byte>) {
    s == [] || (s[0] == 0x2E && |s| > 1 && AllDigits(s[1..]))
  }

  predicate ExponentOk(s: seq<byte>) {
    s == [] ||
    ((s[0] == 0x45 || s[0] == 0x65) && |s| > 1 &&
     var digits := if s[1] == 0x2B || s[1] == 0x2D then s[2..] else s[1..];
     digits != [] && AllDigits(digits))
  }

  predicate WellFormed(c: Syntax, convert: seq<byte> -> Option<Double>, unique: bool)
    decreases c, 0
  {
    match c
    case Whole(digits) => WholeOk(digits) && -0x8000_0000_0000_0000 <= WholeValue(digits) <= 0x7FFF_FFFF_FFFF_FFFF
    case Fractional(whole, fraction, exponent) =>
      WholeOk(whole) && FractionOk(fraction) && ExponentOk(exponent) && fraction + exponent != []
      && convert(whole + fraction + exponent).Some?
    case Characters(cs) => CharsOk(cs)
    case EmptyList(blanks) => Blank(blanks)
    case List(items) => items != [] && ItemsOk(items, convert, unique)
    case EmptyRecord(blanks) => Blank(blanks)
    case Record(ms) => ms != [] && MembersWell(ms, convert, unique) && (unique ==> NamesDiffer(ms))
    case _ => true
  }

  predicate ItemOk(i: Item, convert: seq<byte> -> Option<Double>, unique: bool)
    decreases i, 1
  {
    Blank(i.before) && Blank(i.after) && WellFormed(i.value, convert, unique)
  }

  predicate ItemsOk(items: seq<Item>, convert: seq<byte> -> Option<Double>, unique: bool)
    decreases items, 2
  {
    forall i :: 0 <= i < |items| ==> ItemOk(items[i], convert, unique)
  }

  predicate NamesDiffer(ms: seq<Named>) {
    forall i, j :: 0 <= i < j < |ms| ==> CharsMean(ms[i].name) != CharsMean(ms[j].name)
  }

  predicate MembersWell(ms: seq<Named>, convert: seq<byte> -> Option<Double>, unique: bool)
    decreases ms, 2
  {
    forall i :: 0 <= i < |ms| ==>
      Blank(ms[i].before) && CharsOk(ms[i].name) && Blank(ms[i].after) && ItemOk(ms[i].item, convert, unique)
  }

  /** What follows a word or number cannot be read as more of it. */
  predicate Ends(c: Syntax, rest: seq<byte>) {
    rest == [] ||
    match c
    case NullWord => !Letter(rest[0])
    case TrueWord => !Letter(rest[0])
    case FalseWord => !Letter(rest[0])
    case Whole(_) => !(0x30 <= rest[0] <= 0x39) && rest[0] != 0x2E && rest[0] != 0x45 && rest[0] != 0x65
    case Fractional(_, _, exponent) =>
      !(0x30 <= rest[0] <= 0x39) && (exponent == [] ==> rest[0] != 0x45 && rest[0] != 0x65)
    case _ => true
  }

  predicate Letter(b: byte) {
    0x41 <= b <= 0x5A || 0x61 <= b <= 0x7A
  }

  lemma UnitBound(h: seq<byte>)
    requires UnitOk(h)
    ensures HexValue(h) <= 0x10FFFF
  {
    FourDigits(h);
    assert forall i :: 0 <= i < 4 ==> HexDigitValue(h[i]) <= 35;
  }
}
