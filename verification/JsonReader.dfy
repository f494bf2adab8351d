/** Reading JSON text: the characters that can be read, the tokens they form, and the values these denote. */
module JsonReader {
  import opened Bytes
  import opened Utf8
  import opened JsonNumbers
  import opened JsonStrings
  import opened JsonPrinter
  import opened Wrappers

  /** What is read. */
  datatype Value =
    | VNull | VTrue | VFalse
    | VInteger(n: int)
    | VReal(d: Double)
    | VString(s: seq<byte>)
    | VArray(elems: seq<Value>)
    | VObject(members: map<seq<byte>, Value>)

  datatype Options = Options(rejectDuplicates: bool, disableEofCheck: bool, decodeAny: bool)

  /**
    What a lexer depends on besides the characters left: whether an invalid octet follows them, and the
    number the C library converts a text to, if there is no range error.
   */
  datatype Source = Source(fails: bool, convert: seq<byte> -> Option<Double>)

  // ---------- characters ----------

  /** The octets up to the first one that is not valid UTF-8. */
  function Readable(text: seq<byte>): (r: seq<byte>)
    ensures r <= text
    decreases |text|
  {
    if text == [] || Iterate(text).Bad? then []
    else
      var n := Iterate(text).count;
      assert text == text[..n] + text[n..];
      text[..n] + Readable(text[n..])
  }

  lemma {:induction false} ValidIsReadable(text: seq<byte>)
    requires ValidString(text)
    ensures Readable(text) == text
    decreases |text|
  {
    if text != [] {
      ValidIsReadable(text[Iterate(text).count..]);
    }
  }

  predicate IsBlank(c: byte) {
    c == SPACE || c == 0x09 || c == NEWLINE || c == 0x0D
  }

  predicate IsAlpha(c: byte) {
    0x41 <= c <= 0x5A || 0x61 <= c <= 0x7A
  }

  predicate IsPunctuation(c: byte) {
    c == LEFT_BRACE || c == RIGHT_BRACE || c == LEFT_BRACKET || c == RIGHT_BRACKET || c == COLON || c == COMMA
  }

  function AlphaRun(s: seq<byte>): (n: nat)
    ensures n <= |s| && (n < |s| ==> !IsAlpha(s[n]))
    ensures forall i :: 0 <= i < n ==> IsAlpha(s[i])
  {
    if s == [] || !IsAlpha(s[0]) then 0 else 1 + AlphaRun(s[1..])
  }

  function SkipBlanks(s: seq<byte>): (r: seq<byte>)
    ensures |r| <= |s| && (r != [] ==> !IsBlank(r[0]))
  {
    if s == [] || !IsBlank(s[0]) then s else SkipBlanks(s[1..])
  }

  // ---------- tokens ----------

  datatype Token =
    | Eof | NoToken | Abort
    | Punctuation(c: byte)
    | StringToken(s: seq<byte>) | IntegerToken(n: int) | RealToken(d: Double)
    | TrueToken | FalseToken | NullToken

  /** A token and what follows it.  Nothing is read after a bad token. */
  datatype Scanned = Scanned(token: Token, rest: seq<byte>)

  const BAD := Scanned(NoToken, [])

  function NumberOf(digits: seq<byte>): nat
    requires forall i :: 0 <= i < |digits| ==> IsDigit(digits[i])
  {
    if digits == [] then 0 else
    assert IsDigit(digits[|digits| - 1]);
    NumberOf(digits[..|digits| - 1]) * 10 + digits[|digits| - 1] - 0x30
  }

  function SignedNumber(s: seq<byte>): int
    requires s != [] && forall i :: 1 <= i < |s| ==> IsDigit(s[i])
    requires s[0] == MINUS || IsDigit(s[0])
  {
    if s[0] == MINUS then 0 - NumberOf(s[1..]) else NumberOf(s)
  }

  function ScanNumber(s: seq<byte>, convert: seq<byte> -> Option<Double>): (r: Scanned)
    requires s != []
    ensures |r.rest| < |s|
  {
    var j := IntegerEnd(s);
    if j.None? then BAD
    else if j.value < |s| && (s[j.value] == POINT || IsExponent(s[j.value])) then
      var k := RealEnd(s, j.value);
      if k.None? then BAD else
      var d := convert(s[..k.value]);
      if d.None? then BAD else Scanned(RealToken(d.value), s[k.value..])
    else
      IntegerPart(s);
      var n := SignedNumber(s[..j.value]);
      if INT_MIN <= n <= INT_MAX then Scanned(IntegerToken(n), s[j.value..]) else BAD
  }

  lemma IntegerPart(s: seq<byte>)
    requires s != [] && IntegerEnd(s).Some?
    ensures var t := s[..IntegerEnd(s).value];
            (forall i :: 1 <= i < |t| ==> IsDigit(t[i])) && (t[0] == MINUS || IsDigit(t[0]))
  {
    if s[0] == MINUS {
      assert forall i :: 1 <= i < IntegerEnd(s).value ==> s[i] == s[1..][i - 1];
    } else {
      assert s[0..] == s;
    }
  }

  function ScanString(s: seq<byte>): (r: Scanned)
    ensures r.token.NoToken? || |r.rest| < |s|
    ensures |r.rest| <= |s|
  {
    var n := RawLength(s);
    if n.None? then BAD
    else
      match Unescape(s[..n.value])
      case Text(t) => Scanned(StringToken(t), s[n.value + 1..])
      case Invalid => BAD
      case Aborted => Scanned(Abort, [])
  }

  /** The string token of a reader that takes nothing but hexadecimal digits after \u. */
  function StrictScanString(s: seq<byte>): Scanned {
    if StrictRawLength(s).None? then BAD else ScanString(s)
  }

  /**
    The reader agrees with the strict one if and only if the four characters of every escape are hexadecimal
    digits or the string is refused for another reason, as one whose end or second surrogate is missing; and
    with such digits the program does not stop.
   */
  lemma HexDecides(s: seq<byte>)
    ensures var n := RawLength(s);
            && (ScanString(s) == StrictScanString(s) <==>
                n.None? || HexEscapes(s[..n.value]) || Unescape(s[..n.value]).Invalid?)
            && (n.Some? && HexEscapes(s[..n.value]) ==> !ScanString(s).token.Abort?)
  {
    hide RawLength, StrictRawLength, Unescape, HexEscapes;
    StrictMeans(s);
    if RawLength(s).Some? && HexEscapes(s[..RawLength(s).value]) {
      HexNeverAborts(s[..RawLength(s).value]);
    }
  }

  /** The escape \u00zz is read as U+0253, and \u with four blanks stops the program; the strict reader refuses both. */
  lemma LettersAreDigits()
    ensures var zz: seq<byte> := [BACKSLASH, LETTER_U, 0x30, 0x30, 0x7A, 0x7A, QUOTE];
            ScanString(zz) == Scanned(StringToken(Encode(0x253)), []) && StrictScanString(zz) == BAD
    ensures var blanks := [BACKSLASH, LETTER_U, SPACE, SPACE, SPACE, SPACE, QUOTE];
            ScanString(blanks) == Scanned(Abort, []) && StrictScanString(blanks) == BAD
  {
    hide Encode;
    OneEscape(0x30, 0x30, 0x7A, 0x7A);
    OneEscape(SPACE, SPACE, SPACE, SPACE);
  }

  lemma OneEscape(a: byte, b: byte, c: byte, d: byte)
    ensures var v, s := EscapeValue([a, b, c, d]), [BACKSLASH, LETTER_U, a, b, c, d, QUOTE];
            && (v.None? ==> ScanString(s) == Scanned(Abort, []))
            && (v.Some? && 0 < v.value < 0xD800 ==> ScanString(s) == Scanned(StringToken(Encode(v.value)), []))
            && (!IsHexDigit(d) ==> StrictScanString(s) == BAD)
  {
    hide Encode, EscapeValue;
    var s := [BACKSLASH, LETTER_U, a, b, c, d, QUOTE];
    assert s[6..] == [QUOTE] && s[2..6] == [a, b, c, d] && s[2..6][3] == d;
    assert RawLength(s) == After(6, RawLength([QUOTE])) == Some(6);
    var raw := s[..6];
    assert raw[2..6] == [a, b, c, d] && raw[6..] == [];
    assert s[7..] == [];
    assert Unescape([]) == Text([]);
    if EscapeValue([a, b, c, d]).Some? {
      var v := EscapeValue([a, b, c, d]).value;
      assert Encode(v) + [] == Encode(v);
    }
  }

  function ScanWord(s: seq<byte>): (r: Scanned)
    requires s != [] && IsAlpha(s[0])
    ensures |r.rest| < |s|
  {
    var n := AlphaRun(s);
    if s[..n] == TRUE_TEXT then Scanned(TrueToken, s[n..])
    else if s[..n] == FALSE_TEXT then Scanned(FalseToken, s[n..])
    else if s[..n] == NULL_TEXT then Scanned(NullToken, s[n..])
    else BAD
  }

  /** The next token of the characters that are left; nothing is left at the end or before an invalid octet. */
  function Scan(rest: seq<byte>, src: Source): (r: Scanned)
    ensures |r.rest| <= |rest| && (r.token.Eof? || r.token.NoToken? || |r.rest| < |rest|)
  {
    var s := SkipBlanks(rest);
    if s == [] then Scanned(if src.fails then NoToken else Eof, [])
    else if IsPunctuation(s[0]) then Scanned(Punctuation(s[0]), s[1..])
    else if s[0] == QUOTE then ScanString(s[1..])
    else if IsDigit(s[0]) || s[0] == MINUS then ScanNumber(s, src.convert)
    else if IsAlpha(s[0]) then ScanWord(s)
    else BAD
  }

  // ---------- values ----------

  datatype Outcome = Parsed(value: Value, rest: seq<byte>) | Failed | Crashed

  function Stop(t: Token): Outcome {
    if t.Abort? then Crashed else Failed
  }

  function ParseValue(t: Token, rest: seq<byte>, src: Source, o: Options): (r: Outcome)
    ensures r.Parsed? ==> |r.rest| <= |rest|
    decreases |rest|, 3
  {
    match t
    case StringToken(s) => Parsed(VString(s), rest)
    case IntegerToken(n) => Parsed(VInteger(n), rest)
    case RealToken(d) => Parsed(VReal(d), rest)
    case TrueToken => Parsed(VTrue, rest)
    case FalseToken => Parsed(VFalse, rest)
    case NullToken => Parsed(VNull, rest)
    case Punctuation(c) =>
      if c == LEFT_BRACE then
        var s := Scan(rest, src);
        if s.token == Punctuation(RIGHT_BRACE) then Parsed(VObject(map[]), s.rest)
        else if s.token.Eof? || s.token.NoToken? then Failed
        else ParseMembers(s.token, s.rest, map[], src, o)
      else if c == LEFT_BRACKET then
        var s := Scan(rest, src);
        if s.token == Punctuation(RIGHT_BRACKET) then Parsed(VArray([]), s.rest)
        else if s.token.Eof? || s.token.NoToken? then Failed
        else ParseElems(s.token, s.rest, [], src, o)
      else Failed
    case _ => Stop(t)
  }

  /** The elements of an array, starting with token t, after those in done. */
  function ParseElems(t: Token, rest: seq<byte>, done: seq<Value>, src: Source, o: Options): (r: Outcome)
    ensures r.Parsed? ==> |r.rest| <= |rest|
    decreases |rest|, 4
  {
    var v := ParseValue(t, rest, src, o);
    if !v.Parsed? then v else
    var s := Scan(v.rest, src);
    if s.token == Punctuation(RIGHT_BRACKET) then Parsed(VArray(done + [v.value]), s.rest)
    else if s.token != Punctuation(COMMA) then Stop(s.token)
    else
      var next := Scan(s.rest, src);
      ParseElems(next.token, next.rest, done + [v.value], src, o)
  }

  /** The members of an object, starting with token t, added to those in done. */
  function ParseMembers(t: Token, rest: seq<byte>, done: map<seq<byte>, Value>, src: Source, o: Options): (r: Outcome)
    ensures r.Parsed? ==> |r.rest| <= |rest|
    decreases |rest|, 4
  {
    if !t.StringToken? then Stop(t)
    else if o.rejectDuplicates && t.s in done then Failed
    else
      var colon := Scan(rest, src);
      if colon.token != Punctuation(COLON) then Stop(colon.token) else
      var first := Scan(colon.rest, src);
      var v := ParseValue(first.token, first.rest, src, o);
      if !v.Parsed? then v else
      var more := done[t.s := v.value];
      var s := Scan(v.rest, src);
      if s.token == Punctuation(RIGHT_BRACE) then Parsed(VObject(more), s.rest)
      else if s.token != Punctuation(COMMA) then Stop(s.token)
      else
        var next := Scan(s.rest, src);
        ParseMembers(next.token, next.rest, more, src, o)
  }

  /** Reads a whole document. */
  function Loads(text: seq<byte>, convert: seq<byte> -> Option<Double>, o: Options): Outcome {
    var readable := Readable(text);
    var src := Source(|readable| < |text|, convert);
    var s := Scan(readable, src);
    var container := s.token == Punctuation(LEFT_BRACKET) || s.token == Punctuation(LEFT_BRACE);
    if !o.decodeAny && !container then Stop(s.token) else
    var v := ParseValue(s.token, s.rest, src, o);
    if !v.Parsed? || o.disableEofCheck then v else
    var end := Scan(v.rest, src);
    if end.token.Eof? then v else Stop(end.token)
  }
}
