/** The reader accepts exactly the texts that the grammar spells, and gives them the meaning the grammar gives them. */
module JsonReading {
  import opened Bytes
  import opened Utf8
  import opened JsonNumbers
  import opened JsonStrings
  import opened JsonPrinter
  import opened JsonReader
  import opened JsonRoundTrip
  import opened JsonGrammar
  import opened Wrappers

  // ---------- blanks ----------

  lemma {:induction false} BlanksBefore(s: seq<byte>) returns (before: seq<byte>)
    ensures Blank(before) && s == before + SkipBlanks(s)
  {
    if s == [] || !IsBlank(s[0]) {
      before := [];
    } else {
      var more := BlanksBefore(s[1..]);
      before := [s[0]] + more;
    }
  }

  lemma SkipThem(before: seq<byte>, s: seq<byte>, src: Source)
    requires Blank(before)
    ensures Scan(before + s, src) == Scan(s, src)
  {
    BlanksAreSkipped(before, s);
  }

  // ---------- strings ----------

  lemma DigitAgrees(c: byte)
    ensures DigitValue(c).Some? <==> LetterOrDigit(c)
    ensures DigitValue(c).Some? ==> DigitValue(c) == Some(HexDigitValue(c))
  {
  }

  lemma HexAgrees(h: seq<byte>)
    requires |h| == 4
    ensures EscapeValue(h).Some? <==> Alphanumeric(h)
    ensures EscapeValue(h).Some? ==> EscapeValue(h) == Some(HexValue(h))
  {
    hide DigitValue, HexDigitValue, LetterOrDigit;
    FourDigits(h);
    forall i | 0 <= i < 4
      ensures DigitValue(h[i]).Some? <==> LetterOrDigit(h[i])
      ensures DigitValue(h[i]).Some? ==> DigitValue(h[i]) == Some(HexDigitValue(h[i]))
    {
      DigitAgrees(h[i]);
    }
  }

  /** Characters spelled by a text, and what they mean. */
  ghost predicate Spells(cs: seq<Char>, raw: seq<byte>, s: seq<byte>) {
    CharsOk(cs) && SpellChars(cs) == raw && CharsMean(cs) == s
  }

  lemma SpellsOneMore(c: Char, cs: seq<Char>, raw: seq<byte>, s: seq<byte>)
    requires CharOk(c) && Spells(cs, raw, s)
    ensures Spells([c] + cs, SpellChar(c) + raw, CharMeans(c) + s)
  {
    assert ([c] + cs)[1..] == cs;
  }

  /** The character c, spelled by the first k octets, comes before the rest of the text. */
  ghost predicate Leads(c: Char, raw: seq<byte>, k: nat) {
    && CharOk(c) && k <= |raw| && SpellChar(c) == raw[..k]
    && Unescape(raw).Text? && Unescape(raw[k..]).Text? && Unescape(raw).s == CharMeans(c) + Unescape(raw[k..]).s
  }

  lemma PlainLeads(raw: seq<byte>)
    requires raw != [] && Unescape(raw).Text? && raw[0] >= 0x20 && raw[0] != QUOTE && raw[0] != BACKSLASH
    ensures Leads(Octet(raw[0]), raw, 1)
  {
  }

  lemma ShortLeads(raw: seq<byte>)
    requires |raw| >= 2 && Unescape(raw).Text? && raw[0] == BACKSLASH && raw[1] != LETTER_U
    ensures Leads(Short(raw[1]), raw, 2)
  {
  }

  /** A code unit or a pair of them. */
  function UnitOrPair(raw: seq<byte>): Char
    requires |raw| >= 6
  {
    if 0xD800 <= HexValue(raw[2..6]) <= 0xDBFF && |raw| >= 12 then Pair(raw[2..6], raw[8..12]) else Unit(raw[2..6])
  }

  lemma UnitShape(raw: seq<byte>)
    requires |raw| >= 2 && Unescape(raw).Text? && raw[0] == BACKSLASH && raw[1] == LETTER_U
    ensures |raw| >= 6
    ensures var c := UnitOrPair(raw); CharOk(c) && |SpellChar(c)| <= |raw| && SpellChar(c) == raw[..|SpellChar(c)|]
  {
    hide EscapeValue, HexValue, Alphanumeric, Encode;
    HexAgrees(raw[2..6]);
    if 0xD800 <= HexValue(raw[2..6]) <= 0xDBFF {
      HexAgrees(raw[8..12]);
      assert raw[..12] == [BACKSLASH, LETTER_U] + raw[2..6] + [BACKSLASH, LETTER_U] + raw[8..12];
    } else {
      assert raw[..6] == [BACKSLASH, LETTER_U] + raw[2..6];
    }
  }

  lemma UnitLeads(raw: seq<byte>)
    requires |raw| >= 2 && Unescape(raw).Text? && raw[0] == BACKSLASH && raw[1] == LETTER_U
    ensures |raw| >= 6 && Leads(UnitOrPair(raw), raw, |SpellChar(UnitOrPair(raw))|)
  {
    hide Unescape, CharMeans, SpellChar, CharOk, UnitOrPair;
    UnitShape(raw);
    var c := UnitOrPair(raw);
    var k := |SpellChar(c)|;
    assert raw == SpellChar(c) + raw[k..];
    CharIsRead(c, raw[k..]);
  }

  lemma LeadsOn(c: Char, raw: seq<byte>, k: nat, more: seq<Char>)
    requires Leads(c, raw, k) && Unescape(raw).Text? && Spells(more, raw[k..], Unescape(raw[k..]).s)
    ensures Spells([c] + more, raw, Unescape(raw).s)
  {
    hide CharOk, SpellChar, CharMeans, Unescape;
    SpellsOneMore(c, more, raw[k..], Unescape(raw[k..]).s);
    assert raw == raw[..k] + raw[k..];
  }

  /** What the two passes read as a string is a string by the grammar. */
  lemma {:induction false} StringSound(rest: seq<byte>, n: nat) returns (cs: seq<Char>)
    requires RawLength(rest) == Some(n) && Unescape(rest[..n]).Text?
    ensures Spells(cs, rest[..n], Unescape(rest[..n]).s)
    decreases |rest|
  {
    hide Unescape, Spells, Leads, HexValue, Unescaped;
    var raw := rest[..n];
    if n == 0 {
      cs := [];
      assert Spells(cs, raw, Unescape(raw).s) by { NoChars(raw); }
      return;
    }
    var c, k := Octet(rest[0]), 1;
    if rest[0] != BACKSLASH {
      PlainLeads(raw);
    } else if rest[1] != LETTER_U {
      c, k := Short(rest[1]), 2;
      ShortLeads(raw);
    } else {
      UnitLeads(raw);
      c, k := UnitOrPair(raw), |SpellChar(UnitOrPair(raw))|;
    }
    LeadsMeans(c, raw, k);
    RawAfter(rest, n, c, k);
    var more := StringSound(rest[k..], n - k);
    LeadsOn(c, raw, k, more);
    cs := [c] + more;
  }

  lemma NoChars(raw: seq<byte>)
    requires raw == []
    ensures Unescape(raw) == Text([]) && Spells([], raw, [])
  {
  }

  lemma LeadsMeans(c: Char, raw: seq<byte>, k: nat)
    requires Leads(c, raw, k)
    ensures 0 < k <= |raw| && Unescape(raw[k..]).Text?
  {
  }

  /** What follows a character is raw text up to the same quote. */
  lemma RawAfter(rest: seq<byte>, n: nat, c: Char, k: nat)
    requires RawLength(rest) == Some(n) && Leads(c, rest[..n], k)
    ensures k <= n && RawLength(rest[k..]) == Some(n - k) && rest[k..][..n - k] == rest[..n][k..]
  {
    hide RawLength, Unescape, CharMeans, SpellChar, CharOk;
    assert rest == SpellChar(c) + rest[k..];
    CharIsRead(c, rest[k..]);
  }

  /** Reading undoes spelling, one character at a time. */
  ghost predicate CharRead(c: Char, tail: seq<byte>) {
    var e := SpellChar(c);
    && RawLength(e + tail) == After(|e|, RawLength(tail))
    && Unescape(e + tail) == Prepend(CharMeans(c), Unescape(tail))
  }

  lemma OctetIsRead(b: byte, tail: seq<byte>)
    requires CharOk(Octet(b))
    ensures CharRead(Octet(b), tail)
  {
    assert ([b] + tail)[1..] == tail;
  }

  lemma ShortIsSpelled(e: byte, tail: seq<byte>)
    requires CharOk(Short(e))
    ensures CharRead(Short(e), tail)
  {
    assert ([BACKSLASH, e] + tail)[2..] == tail;
  }

  lemma UnitIsRead(h: seq<byte>, tail: seq<byte>)
    requires CharOk(Unit(h))
    ensures CharRead(Unit(h), tail)
  {
    hide EscapeValue, HexValue, Alphanumeric, Encode;
    var s := [BACKSLASH, LETTER_U] + h + tail;
    assert s[2..6] == h && s[6..] == tail;
    HexAgrees(h);
    UnitBound(h);
  }

  lemma PairIsSpelled(high: seq<byte>, low: seq<byte>, tail: seq<byte>)
    requires CharOk(Pair(high, low))
    ensures CharRead(Pair(high, low), tail)
  {
    hide EscapeValue, HexValue, Alphanumeric, Encode;
    var s := SpellChar(Pair(high, low)) + tail;
    PairLength(high, low, tail);
    assert s[2..6] == high && s[8..12] == low && s[12..] == tail;
    HexAgrees(high);
    HexAgrees(low);
  }

  lemma PairLength(high: seq<byte>, low: seq<byte>, tail: seq<byte>)
    requires |high| == |low| == 4
    ensures RawLength(SpellChar(Pair(high, low)) + tail) == After(12, RawLength(tail))
  {
    var s, t := SpellChar(Pair(high, low)) + tail, [BACKSLASH, LETTER_U] + low + tail;
    assert s[6..] == t && t[6..] == tail;
  }

  lemma CharIsRead(c: Char, tail: seq<byte>)
    requires CharOk(c)
    ensures CharRead(c, tail)
  {
    hide CharOk, CharRead;
    match c {
      case Octet(b) => OctetIsRead(b, tail);
      case Short(e) => ShortIsSpelled(e, tail);
      case Unit(h) => UnitIsRead(h, tail);
      case Pair(high, low) => PairIsSpelled(high, low, tail);
    }
  }

  /** A string by the grammar is read as what it means. */
  lemma {:induction false} StringComplete(cs: seq<Char>, rest: seq<byte>)
    requires CharsOk(cs)
    ensures var raw := SpellChars(cs);
            RawLength(raw + [QUOTE] + rest) == Some(|raw|) && Unescape(raw) == Text(CharsMean(cs))
    decreases |cs|
  {
    hide RawLength, Unescape, CharMeans, SpellChar;
    if cs == [] {
      NoChars([]);
      assert RawLength([] + [QUOTE] + rest) == Some(0) by { EmptyIsRead(false, rest); }
    } else {
      var e, more := SpellChar(cs[0]), SpellChars(cs[1..]);
      StringComplete(cs[1..], rest);
      CharIsRead(cs[0], more + [QUOTE] + rest);
      CharIsRead(cs[0], more);
      assert e + more + [QUOTE] + rest == e + (more + [QUOTE] + rest);
    }
  }

  // ---------- numbers ----------

  lemma {:induction false} DigitsMean(d: seq<byte>)
    requires AllDigits(d)
    ensures (forall i :: 0 <= i < |d| ==> IsDigit(d[i])) && NumberOf(d) == DecimalValue(d)
  {
    assert forall i :: 0 <= i < |d| ==> IsDigit(d[i]);
    if d != [] {
      DigitsMean(d[..|d| - 1]);
    }
  }

  lemma WholeMeans(s: seq<byte>)
    requires WholeOk(s)
    ensures (forall i :: 1 <= i < |s| ==> IsDigit(s[i])) && (s[0] == MINUS || IsDigit(s[0]))
    ensures SignedNumber(s) == WholeValue(s)
  {
    if s[0] == 0x2D {
      DigitsMean(s[1..]);
      assert forall i :: 1 <= i < |s| ==> s[i] == s[1..][i - 1];
    } else {
      DigitsMean(s);
    }
  }

  /** Digits at a, up to b. */
  lemma RunIsDigits(s: seq<byte>, a: nat, b: nat)
    requires a <= |s| && b == a + DigitRun(s[a..])
    ensures a <= b <= |s| && AllDigits(s[a..b]) && (b < |s| ==> !IsDigit(s[b])) && (b > a ==> IsDigit(s[a]))
  {
    var d := s[a..];
    assert forall i :: a <= i < b ==> s[i] == d[i - a];
    assert b < |s| ==> s[b] == d[b - a];
  }

  lemma WholeSound(s: seq<byte>, j: nat)
    requires IntegerEnd(s) == Some(j)
    ensures j <= |s| && WholeOk(s[..j]) && (j < |s| ==> !IsDigit(s[j]))
  {
    hide DigitRun;
    var i := if s != [] && s[0] == MINUS then 1 else 0;
    RunIsDigits(s, i, j);
    assert if i == 1 then s[..j][1..] == s[1..j] else s[..j] == s[0..j];
  }

  lemma WholeComplete(w: seq<byte>, rest: seq<byte>)
    requires WholeOk(w) && (rest != [] ==> !IsDigit(rest[0]))
    ensures IntegerEnd(w + rest) == Some(|w|)
  {
    hide DigitRun;
    var i := if w[0] == MINUS then 1 else 0;
    assert forall k :: i <= k < |w| ==> w[k] == w[i..][k - i];
    DigitsEnd(w + rest, i, |w|);
  }

  lemma FractionSound(s: seq<byte>, j: nat, k: nat)
    requires j <= |s| && FractionEnd(s, j) == Some(k)
    ensures j <= k <= |s| && FractionOk(s[j..k]) && (j < k && k < |s| ==> !IsDigit(s[k]))
    ensures j < k <==> j < |s| && s[j] == POINT
  {
    hide DigitRun;
    if j < |s| && s[j] == POINT {
      RunIsDigits(s, j + 1, k);
      FirstDigit(s, j + 1);
      assert s[j..k][1..] == s[j + 1..k];
    }
  }

  lemma FractionComplete(s: seq<byte>, j: nat, k: nat)
    requires j <= k <= |s| && FractionOk(s[j..k]) && (k < |s| ==> !IsDigit(s[k]))
             && (j == k && j < |s| ==> s[j] != POINT)
    ensures FractionEnd(s, j) == Some(k)
  {
    hide DigitRun;
    if j < k {
      assert s[j..k][0] == s[j] && s[j..k][1..] == s[j + 1..k];
      assert forall i :: j + 1 <= i < k ==> s[i] == s[j + 1..k][i - j - 1];
      DigitsEnd(s, j + 1, k);
    }
  }

  lemma ExponentSound(s: seq<byte>, k: nat, n: nat)
    requires k <= |s| && ExponentEnd(s, k) == Some(n)
    ensures k <= n <= |s| && ExponentOk(s[k..n]) && (k < n && n < |s| ==> !IsDigit(s[n]))
    ensures k < n <==> k < |s| && IsExponent(s[k])
  {
    hide DigitRun;
    if k < |s| && IsExponent(s[k]) {
      var e := if k + 1 < |s| && IsSign(s[k + 1]) then k + 2 else k + 1;
      RunIsDigits(s, e, n);
      FirstDigit(s, e);
      var x := s[k..n];
      assert x[0] == s[k] && x[1] == s[k + 1];
      assert if e == k + 2 then x[2..] == s[e..n] else x[1..] == s[e..n];
    }
  }

  lemma ExponentComplete(s: seq<byte>, k: nat, n: nat)
    requires k <= n <= |s| && ExponentOk(s[k..n]) && (n < |s| ==> k < n ==> !IsDigit(s[n]))
    requires k == n && k < |s| ==> !IsExponent(s[k])
    ensures ExponentEnd(s, k) == Some(n)
  {
    hide DigitRun;
    if k < n {
      var x := s[k..n];
      assert x[0] == s[k] && x[1] == s[k + 1];
      var e := if IsSign(s[k + 1]) then k + 2 else k + 1;
      assert if e == k + 2 then x[2..] == s[e..n] else x[1..] == s[e..n];
      assert forall i :: e <= i < n ==> s[i] == s[e..n][i - e];
      DigitsEnd(s, e, n);
    }
  }

  /** A number token, and the syntax of its text. */
  ghost predicate IsNumber(c: Syntax, r: Scanned, src: Source, unique: bool) {
    && (c.Whole? || c.Fractional?) && WellFormed(c, src.convert, unique) && Ends(c, r.rest)
    && r.token == match Meaning(c, src.convert) {
                    case VInteger(n) => IntegerToken(n)
                    case VReal(d) => RealToken(d)
                    case _ => NoToken
                  }
  }

  lemma NumberSound(s: seq<byte>, src: Source, unique: bool) returns (c: Syntax)
    requires s != [] && !ScanNumber(s, src.convert).token.NoToken?
    ensures var r := ScanNumber(s, src.convert); IsNumber(c, r, src, unique) && s == Spell(c) + r.rest
  {
    hide IntegerEnd, FractionEnd, ExponentEnd, WholeOk, SignedNumber, WholeValue, FractionOk, ExponentOk;
    var j := IntegerEnd(s).value;
    WholeSound(s, j);
    WholeMeans(s[..j]);
    if j < |s| && (s[j] == POINT || IsExponent(s[j])) {
      c := RealSound(s, j, src, unique);
    } else {
      c := Whole(s[..j]);
      assert s == s[..j] + s[j..];
    }
  }

  lemma RealSound(s: seq<byte>, j: nat, src: Source, unique: bool) returns (c: Syntax)
    requires s != [] && IntegerEnd(s) == Some(j) && j < |s| && (s[j] == POINT || IsExponent(s[j]))
    requires WholeOk(s[..j]) && ScanNumber(s, src.convert).token.RealToken?
    ensures var r := ScanNumber(s, src.convert); IsNumber(c, r, src, unique) && s == Spell(c) + r.rest
  {
    hide IntegerEnd, FractionEnd, ExponentEnd, WholeOk, FractionOk, ExponentOk;
    var k := FractionEnd(s, j).value;
    var n := ExponentEnd(s, k).value;
    FractionSound(s, j, k);
    ExponentSound(s, k, n);
    c := Fractional(s[..j], s[j..k], s[k..n]);
    ThreeParts(s, j, k, n);
  }

  lemma ThreeParts(s: seq<byte>, j: nat, k: nat, n: nat)
    requires j <= k <= n <= |s|
    ensures s[..j] + s[j..k] + s[k..n] == s[..n] && s == s[..n] + s[n..]
  {
  }

  lemma NumberComplete(c: Syntax, rest: seq<byte>, src: Source, unique: bool)
    requires (c.Whole? || c.Fractional?) && WellFormed(c, src.convert, unique) && Ends(c, rest)
    ensures Spell(c) != []
    ensures var r := ScanNumber(Spell(c) + rest, src.convert); r.rest == rest && IsNumber(c, r, src, unique)
  {
    hide IntegerEnd, RealEnd, WholeOk, FractionOk, ExponentOk, SignedNumber, WholeValue;
    if c.Whole? {
      var s := Spell(c) + rest;
      WholeComplete(c.digits, rest);
      WholeMeans(c.digits);
      assert s[..|c.digits|] == c.digits && s[|c.digits|..] == rest;
    } else {
      RealComplete(c, rest);
      WholeMeans(c.whole);
    }
  }

  lemma RealComplete(c: Syntax, rest: seq<byte>)
    requires c.Fractional? && WholeOk(c.whole) && FractionOk(c.fraction) && ExponentOk(c.exponent)
    requires c.fraction + c.exponent != [] && Ends(c, rest)
    ensures var s, j, n := Spell(c) + rest, |c.whole|, |Spell(c)|;
            && IntegerEnd(s) == Some(j) && j < |s| && (s[j] == POINT || IsExponent(s[j]))
            && RealEnd(s, j) == Some(n) && s[..n] == Spell(c) && s[n..] == rest
  {
    hide IntegerEnd, FractionEnd, ExponentEnd, WholeOk, FractionOk, ExponentOk;
    var w, f, e := c.whole, c.fraction, c.exponent;
    var s := Spell(c) + rest;
    PartsStart(f, e, rest);
    assert s == w + (f + e + rest);
    WholeComplete(w, f + e + rest);
    var j, k, n := |w|, |w| + |f|, |w| + |f| + |e|;
    PartsOf(w, f, e, rest);
    FractionComplete(s, j, k);
    ExponentComplete(s, k, n);
  }

  lemma PartsOf(w: seq<byte>, f: seq<byte>, e: seq<byte>, rest: seq<byte>)
    ensures var s, j, k, n := w + f + e + rest, |w|, |w| + |f|, |w| + |f| + |e|;
            && s[j..k] == f && s[k..n] == e && s[n..] == rest && s[..n] == w + f + e
            && s[j..] == f + e + rest && s[k..] == e + rest
  {
  }

  /** Neither a fraction nor an exponent starts with a digit. */
  lemma PartsStart(f: seq<byte>, e: seq<byte>, rest: seq<byte>)
    requires FractionOk(f) && ExponentOk(e) && f + e != [] && (rest != [] ==> !IsDigit(rest[0]))
    ensures var t := f + e + rest; (t[0] == POINT || IsExponent(t[0])) && (f == [] ==> t[0] != POINT)
    ensures var t := e + rest; t != [] ==> !IsDigit(t[0])
  {
  }

  // ---------- tokens ----------

  /** Syntax of one token. */
  predicate Scalar(c: Syntax) {
    !c.EmptyList? && !c.List? && !c.EmptyRecord? && !c.Record?
  }

  predicate ScalarToken(t: Token) {
    t.StringToken? || t.IntegerToken? || t.RealToken? || t.TrueToken? || t.FalseToken? || t.NullToken?
  }

  /** The value a token stands for by itself. */
  function TokenValue(t: Token): Value
    requires ScalarToken(t)
  {
    match t
    case StringToken(s) => VString(s)
    case IntegerToken(n) => VInteger(n)
    case RealToken(d) => VReal(d)
    case TrueToken => VTrue
    case FalseToken => VFalse
    case NullToken => VNull
  }

  /** The token is read from the spelling of c and means the same. */
  ghost predicate IsToken(c: Syntax, r: Scanned, src: Source, unique: bool) {
    && Scalar(c) && WellFormed(c, src.convert, unique) && Ends(c, r.rest)
    && ScalarToken(r.token) && TokenValue(r.token) == Meaning(c, src.convert)
  }

  lemma WordSound(s: seq<byte>, src: Source, unique: bool) returns (c: Syntax)
    requires s != [] && IsAlpha(s[0]) && !ScanWord(s).token.NoToken?
    ensures IsToken(c, ScanWord(s), src, unique) && s == Spell(c) + ScanWord(s).rest
  {
    var n := AlphaRun(s);
    var t := ScanWord(s).token;
    c := if t.TrueToken? then TrueWord else if t.FalseToken? then FalseWord else NullWord;
    assert s == s[..n] + s[n..];
  }

  lemma TextSound(s: seq<byte>, src: Source, unique: bool) returns (c: Syntax)
    requires ScanString(s).token.StringToken?
    ensures IsToken(c, ScanString(s), src, unique) && [QUOTE] + s == Spell(c) + ScanString(s).rest && c.Characters?
  {
    hide RawLength, Unescape, CharMeans, SpellChar;
    var n := RawLength(s).value;
    var cs := StringSound(s, n);
    c := Characters(cs);
    assert s == s[..n] + [QUOTE] + s[n + 1..];
  }

  lemma ScanSound(s: seq<byte>, src: Source, unique: bool) returns (before: seq<byte>, c: Syntax)
    requires ScalarToken(Scan(s, src).token)
    ensures var r := Scan(s, src); Blank(before) && IsToken(c, r, src, unique) && s == before + Spell(c) + r.rest
  {
    hide ScanNumber, ScanWord, ScanString, WellFormed, Ends, Meaning, Spell;
    before := BlanksBefore(s);
    var t := SkipBlanks(s);
    if t[0] == QUOTE {
      OwnTokens(t[1..], src);
      c := TextSound(t[1..], src, unique);
      assert t == [QUOTE] + t[1..];
    } else if IsDigit(t[0]) || t[0] == MINUS {
      c := NumberSound(t, src, unique);
      NumberIsToken(c, ScanNumber(t, src.convert), src, unique);
    } else {
      c := WordSound(t, src, unique);
    }
  }

  lemma NumberIsToken(c: Syntax, r: Scanned, src: Source, unique: bool)
    requires IsNumber(c, r, src, unique)
    ensures IsToken(c, r, src, unique)
  {
  }

  lemma PunctuationSound(s: seq<byte>, src: Source) returns (before: seq<byte>)
    requires Scan(s, src).token.Punctuation?
    ensures var r := Scan(s, src); Blank(before) && s == before + [r.token.c] + r.rest && IsPunctuation(r.token.c)
  {
    hide ScanNumber, ScanWord, ScanString;
    before := BlanksBefore(s);
    var t := SkipBlanks(s);
    OwnTokens(t, src);
    if t[0] == QUOTE {
      OwnTokens(t[1..], src);
    }
    assert t == [t[0]] + t[1..];
  }

  /** Strings, numbers and words give tokens of their own kinds. */
  lemma OwnTokens(s: seq<byte>, src: Source)
    ensures var t := ScanString(s).token; t.StringToken? || t.NoToken? || t.Abort?
    ensures s != [] ==> var t := ScanNumber(s, src.convert).token; t.IntegerToken? || t.RealToken? || t.NoToken?
    ensures s != [] && IsAlpha(s[0]) ==>
            var t := ScanWord(s).token; t.TrueToken? || t.FalseToken? || t.NullToken? || t.NoToken?
  {
    hide IntegerEnd, RealEnd, SignedNumber, RawLength, Unescape;
  }

  lemma WordComplete(c: Syntax, rest: seq<byte>, src: Source, unique: bool)
    requires (c.NullWord? || c.TrueWord? || c.FalseWord?) && Ends(c, rest)
    ensures var r := Scan(Spell(c) + rest, src); r.rest == rest && IsToken(c, r, src, unique)
  {
    var w := Spell(c);
    assert forall i :: 0 <= i < |w| ==> IsAlpha(w[i]);
    RunOfLetters(w, rest);
    assert (w + rest)[..|w|] == w && (w + rest)[|w|..] == rest;
    assert SkipBlanks(w + rest) == w + rest;
  }

  lemma TextComplete(cs: seq<Char>, rest: seq<byte>, src: Source)
    requires CharsOk(cs)
    ensures Scan(SpellText(cs) + rest, src) == Scanned(StringToken(CharsMean(cs)), rest)
  {
    hide RawLength, Unescape, CharMeans, SpellChar;
    var raw, s := SpellChars(cs), SpellText(cs) + rest;
    StringComplete(cs, rest);
    assert s[1..] == raw + [QUOTE] + rest;
    assert s[1..][..|raw|] == raw && s[1..][|raw| + 1..] == rest;
    assert SkipBlanks(s) == s;
  }

  lemma ScanComplete(c: Syntax, rest: seq<byte>, src: Source, unique: bool)
    requires Scalar(c) && WellFormed(c, src.convert, unique) && Ends(c, rest)
    ensures var r := Scan(Spell(c) + rest, src); r.rest == rest && IsToken(c, r, src, unique)
  {
    hide ScanNumber, Scan, CharsMean, SpellText;
    if c.Characters? {
      TextComplete(c.chars, rest, src);
    } else if c.Whole? || c.Fractional? {
      NumberComplete(c, rest, src, unique);
      NumberIsToken(c, ScanNumber(Spell(c) + rest, src.convert), src, unique);
      NumberIsScannedFirst(c, rest, src, unique);
    } else {
      WordComplete(c, rest, src, unique);
    }
  }

  lemma NumberIsScannedFirst(c: Syntax, rest: seq<byte>, src: Source, unique: bool)
    requires (c.Whole? || c.Fractional?) && WellFormed(c, src.convert, unique)
    ensures Spell(c) != [] && Scan(Spell(c) + rest, src) == ScanNumber(Spell(c) + rest, src.convert)
  {
    hide ScanNumber;
    var s, w := Spell(c) + rest, if c.Whole? then c.digits else c.whole;
    assert s[0] == w[0] && (IsDigit(w[0]) || w[0] == MINUS);
    assert SkipBlanks(s) == s;
  }

  // ---------- values: what is read is spelled ----------

  lemma ScalarIsParsed(c: Syntax, r: Scanned, src: Source, o: Options)
    requires IsToken(c, r, src, o.rejectDuplicates)
    ensures ParseValue(r.token, r.rest, src, o) == Parsed(Meaning(c, src.convert), r.rest)
  {
  }

  lemma ParsedToken(t: Token, rest: seq<byte>, src: Source, o: Options)
    requires ParseValue(t, rest, src, o).Parsed?
    ensures ScalarToken(t) || t == Punctuation(LEFT_BRACE) || t == Punctuation(LEFT_BRACKET)
  {
  }

  /** c is spelled by s up to rest, and means v. */
  ghost predicate Found(c: Syntax, s: seq<byte>, v: Value, rest: seq<byte>, src: Source, o: Options) {
    && WellFormed(c, src.convert, o.rejectDuplicates) && Ends(c, rest)
    && s == Spell(c) + rest && v == Meaning(c, src.convert)
  }

  /** Whatever is parsed is the meaning of what it is parsed from. */
  lemma {:induction false} ParseSound(s: seq<byte>, src: Source, o: Options) returns (before: seq<byte>, c: Syntax)
    requires var t := Scan(s, src); ParseValue(t.token, t.rest, src, o).Parsed?
    ensures var t := Scan(s, src);
            var p := ParseValue(t.token, t.rest, src, o);
            Blank(before) && before <= s && Found(c, s[|before|..], p.value, p.rest, src, o)
    decreases |s|, 1
  {
    hide Scan, WellFormed, Ends, Meaning, Spell, ParseElems, ParseMembers;
    var t := Scan(s, src);
    ParsedToken(t.token, t.rest, src, o);
    if ScalarToken(t.token) {
      before, c := ScanSound(s, src, o.rejectDuplicates);
      ScalarIsParsed(c, t, src, o);
      assert s[|before|..] == Spell(c) + t.rest;
    } else {
      before := PunctuationSound(s, src);
      assert s[|before|..] == [t.token.c] + t.rest;
      if t.token.c == LEFT_BRACE {
        c := RecordSound(t.rest, src, o);
      } else {
        c := ListSound(t.rest, src, o);
      }
    }
  }

  lemma {:induction false} ListSound(s: seq<byte>, src: Source, o: Options) returns (c: Syntax)
    requires ParseValue(Punctuation(LEFT_BRACKET), s, src, o).Parsed?
    ensures var p := ParseValue(Punctuation(LEFT_BRACKET), s, src, o);
            Found(c, [LEFT_BRACKET] + s, p.value, p.rest, src, o)
    decreases |s|, 4
  {
    hide Scan, ParseElems, ItemsMean, ItemsOk, SpellItems;
    var t := Scan(s, src);
    var p := ParseValue(Punctuation(LEFT_BRACKET), s, src, o);
    if t.token == Punctuation(RIGHT_BRACKET) {
      var blanks := PunctuationSound(s, src);
      c := EmptyList(blanks);
      assert [LEFT_BRACKET] + s == Spell(c) + p.rest;
    } else {
      var items := ElemsSound(s, [], src, o);
      c := List(items);
      assert [] + ItemsMean(items, src.convert) == ItemsMean(items, src.convert);
      assert [LEFT_BRACKET] + s == Spell(c) + p.rest;
    }
  }

  lemma ElemsStep(s: seq<byte>, done: seq<Value>, src: Source, o: Options)
    requires var t := Scan(s, src); ParseElems(t.token, t.rest, done, src, o).Parsed?
    ensures var t := Scan(s, src);
            var v := ParseValue(t.token, t.rest, src, o);
            && v.Parsed?
            && var end := Scan(v.rest, src);
            && |end.rest| < |s|
            && if end.token == Punctuation(RIGHT_BRACKET) then
                 ParseElems(t.token, t.rest, done, src, o) == Parsed(VArray(done + [v.value]), end.rest)
               else
                 && end.token == Punctuation(COMMA)
                 && var next := Scan(end.rest, src);
                 ParseElems(t.token, t.rest, done, src, o) ==
                 ParseElems(next.token, next.rest, done + [v.value], src, o)
  {
    hide Scan, ParseValue;
  }

  lemma {:induction false} ElemsSound(s: seq<byte>, done: seq<Value>, src: Source, o: Options)
    returns (items: seq<Item>)
    requires var t := Scan(s, src); ParseElems(t.token, t.rest, done, src, o).Parsed?
    ensures var t := Scan(s, src);
            var p := ParseElems(t.token, t.rest, done, src, o);
            && items != [] && ItemsOk(items, src.convert, o.rejectDuplicates)
            && s == SpellItems(items) + [RIGHT_BRACKET] + p.rest
            && p.value == VArray(done + ItemsMean(items, src.convert))
    decreases |s|, 2
  {
    hide Scan, ParseValue, Meaning, ItemOk, ItemsOk, SpellItem, SpellItems, ItemsMean, Found, ParseElems;
    ElemsStep(s, done, src, o);
    var t := Scan(s, src);
    var before, c := ParseSound(s, src, o);
    var v := ParseValue(t.token, t.rest, src, o);
    var after := PunctuationSound(v.rest, src);
    var end := Scan(v.rest, src);
    var item := Item(before, c, after);
    ItemFound(item, s, v, end, src, o);
    if end.token == Punctuation(RIGHT_BRACKET) {
      items := [item];
      OneItem(item, src.convert, o.rejectDuplicates);
    } else {
      var more := ElemsSound(end.rest, done + [v.value], src, o);
      items := [item] + more;
      MoreItems(item, more, src.convert, o.rejectDuplicates);
      assert done + [v.value] + ItemsMean(more, src.convert) == done + ItemsMean(items, src.convert);
    }
  }

  /** A value between the blanks before it and those before the next token. */
  lemma ItemFound(i: Item, s: seq<byte>, v: Outcome, end: Scanned, src: Source, o: Options)
    requires Blank(i.before) && Blank(i.after) && i.before <= s && v.Parsed? && end.token.Punctuation?
    requires Found(i.value, s[|i.before|..], v.value, v.rest, src, o) && v.rest == i.after + [end.token.c] + end.rest
    ensures ItemOk(i, src.convert, o.rejectDuplicates) && Meaning(i.value, src.convert) == v.value
    ensures s == SpellItem(i) + ([end.token.c] + end.rest)
  {
    hide WellFormed, Meaning, Spell, Blank, Ends;
    assert s == i.before + s[|i.before|..];
  }

  lemma OneItem(i: Item, convert: seq<byte> -> Option<Double>, unique: bool)
    requires ItemOk(i, convert, unique)
    ensures ItemsOk([i], convert, unique) && SpellItems([i]) == SpellItem(i)
    ensures ItemsMean([i], convert) == [Meaning(i.value, convert)]
  {
    hide ItemOk, SpellItem, Meaning;
    assert [i][1..] == [];
  }

  lemma MoreItems(i: Item, items: seq<Item>, convert: seq<byte> -> Option<Double>, unique: bool)
    requires ItemOk(i, convert, unique) && ItemsOk(items, convert, unique) && items != []
    ensures ItemsOk([i] + items, convert, unique)
            && SpellItems([i] + items) == SpellItem(i) + [0x2C] + SpellItems(items)
    ensures ItemsMean([i] + items, convert) == [Meaning(i.value, convert)] + ItemsMean(items, convert)
  {
    hide ItemOk, SpellItem, Meaning;
    assert ([i] + items)[1..] == items;
  }

  lemma {:induction false} RecordSound(s: seq<byte>, src: Source, o: Options) returns (c: Syntax)
    requires ParseValue(Punctuation(LEFT_BRACE), s, src, o).Parsed?
    ensures var p := ParseValue(Punctuation(LEFT_BRACE), s, src, o);
            Found(c, [LEFT_BRACE] + s, p.value, p.rest, src, o)
    decreases |s|, 4
  {
    hide Scan, ParseMembers, MembersMean, MembersWell, SpellMembers, NamesDiffer;
    var t := Scan(s, src);
    var p := ParseValue(Punctuation(LEFT_BRACE), s, src, o);
    if t.token == Punctuation(RIGHT_BRACE) {
      var blanks := PunctuationSound(s, src);
      c := EmptyRecord(blanks);
      assert [LEFT_BRACE] + s == Spell(c) + p.rest;
    } else {
      var ms := MembersSound(s, map[], src, o);
      c := Record(ms);
      assert [LEFT_BRACE] + s == Spell(c) + p.rest;
    }
  }

  /** Names that differ from each other and from those before. */
  ghost predicate NewNames(ms: seq<Named>, done: map<seq<byte>, Value>, o: Options) {
    o.rejectDuplicates ==> NamesDiffer(ms) && forall i :: 0 <= i < |ms| ==> CharsMean(ms[i].name) !in done
  }

  /** What is read as one member: the name, the colon, the value, and the token after it. */
  datatype MemberRead = MemberRead(name: Scanned, colon: Scanned, value: Outcome, end: Scanned)

  function ReadMember(s: seq<byte>, src: Source, o: Options): MemberRead {
    var name := Scan(s, src);
    var colon := Scan(name.rest, src);
    var first := Scan(colon.rest, src);
    var v := ParseValue(first.token, first.rest, src, o);
    MemberRead(name, colon, v, if v.Parsed? then Scan(v.rest, src) else BAD)
  }

  lemma MembersStep(s: seq<byte>, done: map<seq<byte>, Value>, src: Source, o: Options)
    requires var t := Scan(s, src); ParseMembers(t.token, t.rest, done, src, o).Parsed?
    ensures var t, m := Scan(s, src), ReadMember(s, src, o);
            && m.name.token.StringToken? && m.colon.token == Punctuation(COLON) && m.value.Parsed?
            && (o.rejectDuplicates ==> m.name.token.s !in done)
            && |m.end.rest| < |s| && |m.colon.rest| < |s|
            && var more := done[m.name.token.s := m.value.value];
            if m.end.token == Punctuation(RIGHT_BRACE) then
              ParseMembers(t.token, t.rest, done, src, o) == Parsed(VObject(more), m.end.rest)
            else
              && m.end.token == Punctuation(COMMA)
              && var next := Scan(m.end.rest, src);
              ParseMembers(t.token, t.rest, done, src, o) == ParseMembers(next.token, next.rest, more, src, o)
  {
    hide Scan, ParseValue;
  }

  lemma {:induction false} MemberSound(s: seq<byte>, src: Source, o: Options) returns (m: Named)
    requires var r := ReadMember(s, src, o);
             && r.name.token.StringToken? && r.colon.token == Punctuation(COLON) && r.value.Parsed?
             && r.end.token.Punctuation? && |r.colon.rest| < |s|
    ensures var r := ReadMember(s, src, o);
            && Blank(m.before) && CharsOk(m.name) && Blank(m.after) && ItemOk(m.item, src.convert, o.rejectDuplicates)
            && s == SpellMember(m) + ([r.end.token.c] + r.end.rest)
            && CharsMean(m.name) == r.name.token.s && Meaning(m.item.value, src.convert) == r.value.value
    decreases |s|, 2
  {
    hide Scan, ParseValue, WellFormed, Meaning, Spell, CharsMean, SpellText, ItemOk;
    var r := ReadMember(s, src, o);
    var before, name := NameSound(s, src, o);
    var after := PunctuationSound(r.name.rest, src);
    var pad, c := ParseSound(r.colon.rest, src, o);
    var blanks := PunctuationSound(r.value.rest, src);
    var item := Item(pad, c, blanks);
    ItemFound(item, r.colon.rest, r.value, r.end, src, o);
    m := Named(before, name, after, item);
    var tail := [r.end.token.c] + r.end.rest;
    assert s == before + SpellText(name) + (after + [COLON] + (SpellItem(item) + tail));
  }

  lemma {:induction false} MembersSound(s: seq<byte>, done: map<seq<byte>, Value>, src: Source, o: Options)
    returns (ms: seq<Named>)
    requires var t := Scan(s, src); ParseMembers(t.token, t.rest, done, src, o).Parsed?
    ensures var t := Scan(s, src);
            var p := ParseMembers(t.token, t.rest, done, src, o);
            && ms != [] && MembersWell(ms, src.convert, o.rejectDuplicates) && NewNames(ms, done, o)
            && s == SpellMembers(ms) + [RIGHT_BRACE] + p.rest
            && p.value == VObject(MembersMean(done, ms, src.convert))
    decreases |s|, 3
  {
    hide Scan, ReadMember, Meaning, CharsMean, ItemOk, MembersWell, NewNames, ParseMembers, SpellMember, MembersMean;
    MembersStep(s, done, src, o);
    var r := ReadMember(s, src, o);
    var m := MemberSound(s, src, o);
    if r.end.token == Punctuation(RIGHT_BRACE) {
      ms := [m];
      OneMember(m, done, src.convert, o);
    } else {
      var more := MembersSound(r.end.rest, done[r.name.token.s := r.value.value], src, o);
      ms := [m] + more;
      MoreMembers(m, more, done, src.convert, o);
    }
  }

  lemma NameSound(s: seq<byte>, src: Source, o: Options) returns (before: seq<byte>, name: seq<Char>)
    requires Scan(s, src).token.StringToken?
    ensures var t := Scan(s, src);
            Blank(before) && CharsOk(name) && s == before + SpellText(name) + t.rest && t.token.s == CharsMean(name)
  {
    hide Scan, SpellText, CharsMean;
    var c;
    before, c := ScanSound(s, src, o.rejectDuplicates);
    name := c.chars;
  }

  lemma OneMember(m: Named, done: map<seq<byte>, Value>, convert: seq<byte> -> Option<Double>, o: Options)
    requires Blank(m.before) && CharsOk(m.name) && Blank(m.after) && ItemOk(m.item, convert, o.rejectDuplicates)
    requires o.rejectDuplicates ==> CharsMean(m.name) !in done
    ensures MembersWell([m], convert, o.rejectDuplicates) && SpellMembers([m]) == SpellMember(m)
            && NewNames([m], done, o)
    ensures MembersMean(done, [m], convert) == done[CharsMean(m.name) := Meaning(m.item.value, convert)]
  {
    hide ItemOk, SpellMember, Meaning, CharsMean;
    assert [m][1..] == [];
  }

  lemma MoreMembers(m: Named, ms: seq<Named>, done: map<seq<byte>, Value>, convert: seq<byte> -> Option<Double>,
                    o: Options)
    requires Blank(m.before) && CharsOk(m.name) && Blank(m.after) && ItemOk(m.item, convert, o.rejectDuplicates)
    requires o.rejectDuplicates ==> CharsMean(m.name) !in done
    requires ms != [] && MembersWell(ms, convert, o.rejectDuplicates)
    requires NewNames(ms, done[CharsMean(m.name) := Meaning(m.item.value, convert)], o)
    ensures MembersWell([m] + ms, convert, o.rejectDuplicates) && NewNames([m] + ms, done, o)
    ensures SpellMembers([m] + ms) == SpellMember(m) + [0x2C] + SpellMembers(ms)
    ensures MembersMean(done, [m] + ms, convert) ==
            MembersMean(done[CharsMean(m.name) := Meaning(m.item.value, convert)], ms, convert)
  {
    hide ItemOk, SpellMember, Meaning, CharsMean;
    assert ([m] + ms)[1..] == ms;
  }

  // ---------- values: what is spelled is read ----------

  /** The text at s is parsed as c, up to rest. */
  ghost predicate ReadAs(c: Syntax, s: seq<byte>, rest: seq<byte>, src: Source, o: Options) {
    var t := Scan(s, src);
    Starts(t.token) && ParseValue(t.token, t.rest, src, o) == Parsed(Meaning(c, src.convert), rest)
  }

  lemma ScalarComplete(c: Syntax, rest: seq<byte>, src: Source, o: Options)
    requires Scalar(c) && WellFormed(c, src.convert, o.rejectDuplicates) && Ends(c, rest)
    ensures ReadAs(c, Spell(c) + rest, rest, src, o)
  {
    hide Scan, WellFormed, Meaning, Spell, Ends;
    ScanComplete(c, rest, src, o.rejectDuplicates);
    ScalarIsParsed(c, Scan(Spell(c) + rest, src), src, o);
  }

  /** A comma, bracket or brace, after blanks, ends whatever stands before it. */
  lemma PunctuationEnds(c: Syntax, after: seq<byte>, p: byte, rest: seq<byte>)
    requires Blank(after) && (p == COMMA || p == RIGHT_BRACKET || p == RIGHT_BRACE)
    ensures Ends(c, after + ([p] + rest))
  {
    var s := after + ([p] + rest);
    assert s[0] == if after == [] then p else after[0];
  }

  /** Blanks and then punctuation. */
  lemma NextPunctuation(after: seq<byte>, p: byte, rest: seq<byte>, src: Source)
    requires Blank(after) && IsPunctuation(p)
    ensures Scan(after + ([p] + rest), src) == Scanned(Punctuation(p), rest)
  {
    SkipThem(after, [p] + rest, src);
    PunctuationIsScanned(p, rest, src);
  }

  lemma {:induction false} ParseComplete(c: Syntax, rest: seq<byte>, src: Source, o: Options)
    requires WellFormed(c, src.convert, o.rejectDuplicates) && Ends(c, rest)
    ensures ReadAs(c, Spell(c) + rest, rest, src, o)
    decreases c, 0
  {
    hide Scan, Ends, ParseElems, ParseMembers, ItemsOk, MembersWell, ItemsMean, MembersMean;
    match c {
      case EmptyList(blanks) =>
        assert Spell(c) + rest == [LEFT_BRACKET] + (blanks + ([RIGHT_BRACKET] + rest));
        PunctuationIsScanned(LEFT_BRACKET, blanks + ([RIGHT_BRACKET] + rest), src);
        NextPunctuation(blanks, RIGHT_BRACKET, rest, src);
      case List(items) =>
        var inner := SpellItems(items) + ([RIGHT_BRACKET] + rest);
        assert Spell(c) + rest == [LEFT_BRACKET] + inner;
        PunctuationIsScanned(LEFT_BRACKET, inner, src);
        ItemsComplete(items, rest, [], src, o);
        assert [] + ItemsMean(items, src.convert) == ItemsMean(items, src.convert);
      case EmptyRecord(blanks) =>
        assert Spell(c) + rest == [LEFT_BRACE] + (blanks + ([RIGHT_BRACE] + rest));
        PunctuationIsScanned(LEFT_BRACE, blanks + ([RIGHT_BRACE] + rest), src);
        NextPunctuation(blanks, RIGHT_BRACE, rest, src);
      case Record(ms) =>
        var inner := SpellMembers(ms) + ([RIGHT_BRACE] + rest);
        assert Spell(c) + rest == [LEFT_BRACE] + inner;
        PunctuationIsScanned(LEFT_BRACE, inner, src);
        MembersComplete(ms, rest, map[], src, o);
      case _ =>
        ScalarComplete(c, rest, src, o);
    }
  }

  /** A value, the blanks around it and the punctuation after it. */
  lemma {:induction false} ItemComplete(i: Item, p: byte, rest: seq<byte>, src: Source, o: Options)
    requires ItemOk(i, src.convert, o.rejectDuplicates) && (p == COMMA || p == RIGHT_BRACKET || p == RIGHT_BRACE)
    ensures var after := i.after + ([p] + rest);
            && ReadAs(i.value, SpellItem(i) + ([p] + rest), after, src, o)
            && Scan(after, src) == Scanned(Punctuation(p), rest)
    decreases i, 0
  {
    hide Scan, Meaning, Ends, Spell, ParseValue;
    var after := i.after + ([p] + rest);
    PunctuationEnds(i.value, i.after, p, rest);
    ParseComplete(i.value, after, src, o);
    SkipThem(i.before, Spell(i.value) + after, src);
    assert SpellItem(i) + ([p] + rest) == i.before + (Spell(i.value) + after);
    NextPunctuation(i.after, p, rest, src);
  }

  lemma {:induction false} ItemsComplete(items: seq<Item>, rest: seq<byte>, done: seq<Value>, src: Source, o: Options)
    requires items != [] && ItemsOk(items, src.convert, o.rejectDuplicates)
    ensures var t := Scan(SpellItems(items) + ([RIGHT_BRACKET] + rest), src);
            Starts(t.token) && ParseElems(t.token, t.rest, done, src, o) ==
            Parsed(VArray(done + ItemsMean(items, src.convert)), rest)
    decreases items, 1
  {
    hide Scan, Meaning, SpellItem, ParseValue, ItemOk;
    var i := items[0];
    assert ItemOk(i, src.convert, o.rejectDuplicates);
    if |items| == 1 {
      ItemComplete(i, RIGHT_BRACKET, rest, src, o);
      assert ItemsMean(items, src.convert) == [Meaning(i.value, src.convert)];
    } else {
      var more := SpellItems(items[1..]) + ([RIGHT_BRACKET] + rest);
      assert SpellItems(items) + ([RIGHT_BRACKET] + rest) == SpellItem(i) + ([COMMA] + more);
      ItemComplete(i, COMMA, more, src, o);
      var v := Meaning(i.value, src.convert);
      ItemsComplete(items[1..], rest, done + [v], src, o);
      assert done + [v] + ItemsMean(items[1..], src.convert) == done + ItemsMean(items, src.convert);
    }
  }

  /** A member and the punctuation after it. */
  lemma {:induction false} MemberComplete(m: Named, p: byte, rest: seq<byte>, src: Source, o: Options)
    requires Blank(m.before) && CharsOk(m.name) && Blank(m.after) && ItemOk(m.item, src.convert, o.rejectDuplicates)
    requires p == COMMA || p == RIGHT_BRACE
    ensures var r := ReadMember(SpellMember(m) + ([p] + rest), src, o);
            && r.name.token == StringToken(CharsMean(m.name)) && r.colon.token == Punctuation(COLON)
            && r.value == Parsed(Meaning(m.item.value, src.convert), m.item.after + ([p] + rest))
            && r.end == Scanned(Punctuation(p), rest)
    decreases m, 0
  {
    hide Scan, Meaning, SpellItem, SpellText, CharsMean, ParseValue, ItemOk;
    var item := SpellItem(m.item) + ([p] + rest);
    var colon := m.after + ([COLON] + item);
    assert SpellMember(m) + ([p] + rest) == m.before + (SpellText(m.name) + colon);
    SkipThem(m.before, SpellText(m.name) + colon, src);
    TextComplete(m.name, colon, src);
    NextPunctuation(m.after, COLON, item, src);
    ItemComplete(m.item, p, rest, src, o);
  }

  lemma {:induction false} MembersComplete(ms: seq<Named>, rest: seq<byte>, done: map<seq<byte>, Value>, src: Source,
                                           o: Options)
    requires ms != [] && MembersWell(ms, src.convert, o.rejectDuplicates) && NewNames(ms, done, o)
    ensures var t := Scan(SpellMembers(ms) + ([RIGHT_BRACE] + rest), src);
            t.token.StringToken? && ParseMembers(t.token, t.rest, done, src, o) ==
            Parsed(VObject(MembersMean(done, ms, src.convert)), rest)
    decreases ms, 1
  {
    hide Scan, Meaning, SpellMember, ParseValue, ItemOk, CharsMean;
    var m := ms[0];
    assert ItemOk(m.item, src.convert, o.rejectDuplicates);
    if |ms| == 1 {
      MemberComplete(m, RIGHT_BRACE, rest, src, o);
      assert ms[1..] == [];
    } else {
      var more := SpellMembers(ms[1..]) + ([RIGHT_BRACE] + rest);
      assert SpellMembers(ms) + ([RIGHT_BRACE] + rest) == SpellMember(m) + ([COMMA] + more);
      MemberComplete(m, COMMA, more, src, o);
      MembersComplete(ms[1..], rest, done[CharsMean(m.name) := Meaning(m.item.value, src.convert)], src, o);
    }
  }

  // ---------- documents ----------

  /** A text that spells c after some blanks and goes on with rest, by the options of a reader. */
  ghost predicate Document(text: seq<byte>, before: seq<byte>, c: Syntax, rest: seq<byte>,
                           convert: seq<byte> -> Option<Double>, o: Options) {
    && Readable(text) == before + Spell(c) + rest
    && Blank(before) && WellFormed(c, convert, o.rejectDuplicates) && Ends(c, rest)
    && (o.decodeAny || !Scalar(c))
    && (o.disableEofCheck || (Blank(rest) && ValidString(text)))
  }

  /** Some document in the text means v and is followed by rest. */
  ghost predicate Denotes(text: seq<byte>, v: Value, rest: seq<byte>, convert: seq<byte> -> Option<Double>,
                          o: Options) {
    exists before, c :: Document(text, before, c, rest, convert, o) && Meaning(c, convert) == v
  }

  lemma {:induction false} ReadableMeans(text: seq<byte>)
    ensures Readable(text) == text <==> ValidString(text)
    decreases |text|
  {
    hide Encode;
    if text != [] && Iterate(text).Step? {
      var n := Iterate(text).count;
      ReadableMeans(text[n..]);
      assert text == text[..n] + text[n..];
    }
  }

  lemma {:induction false} OnlyBlanks(s: seq<byte>)
    ensures SkipBlanks(s) == [] <==> Blank(s)
  {
    if s != [] && IsBlank(s[0]) {
      OnlyBlanks(s[1..]);
      assert s == [s[0]] + s[1..];
    }
  }

  /** After the last value, the end is found exactly when nothing but blanks follows, and all the text is valid. */
  lemma EndIsFound(rest: seq<byte>, src: Source)
    ensures Scan(rest, src).token.Eof? <==> Blank(rest) && !src.fails
  {
    hide ScanNumber, ScanWord, ScanString;
    OnlyBlanks(rest);
    var s := SkipBlanks(rest);
    OwnTokens(s, src);
    if s != [] {
      OwnTokens(s[1..], src);
    }
  }

  lemma ContainerToken(t: Token, rest: seq<byte>, src: Source, o: Options)
    requires ParseValue(t, rest, src, o).Parsed?
    ensures var v := ParseValue(t, rest, src, o).value;
            v.VArray? || v.VObject? <==> t == Punctuation(LEFT_BRACKET) || t == Punctuation(LEFT_BRACE)
  {
    ParsedToken(t, rest, src, o);
    ContainersOnly(t, rest, src, o);
  }

  lemma {:induction false} ContainersOnly(t: Token, rest: seq<byte>, src: Source, o: Options)
    ensures t == Punctuation(LEFT_BRACKET) && ParseValue(t, rest, src, o).Parsed? ==>
            ParseValue(t, rest, src, o).value.VArray?
    ensures t == Punctuation(LEFT_BRACE) && ParseValue(t, rest, src, o).Parsed? ==>
            ParseValue(t, rest, src, o).value.VObject?
  {
    hide Scan;
    var s := Scan(rest, src);
    ElemsGiveArray(s.token, s.rest, [], src, o);
    MembersGiveObject(s.token, s.rest, map[], src, o);
  }

  lemma {:induction false} ElemsGiveArray(t: Token, rest: seq<byte>, done: seq<Value>, src: Source, o: Options)
    ensures ParseElems(t, rest, done, src, o).Parsed? ==> ParseElems(t, rest, done, src, o).value.VArray?
    decreases |rest|
  {
    hide Scan, ParseValue;
    var v := ParseValue(t, rest, src, o);
    if v.Parsed? && Scan(v.rest, src).token == Punctuation(COMMA) {
      var next := Scan(Scan(v.rest, src).rest, src);
      ElemsGiveArray(next.token, next.rest, done + [v.value], src, o);
    }
  }

  lemma {:induction false} MembersGiveObject(t: Token, rest: seq<byte>, done: map<seq<byte>, Value>, src: Source,
                                             o: Options)
    ensures ParseMembers(t, rest, done, src, o).Parsed? ==> ParseMembers(t, rest, done, src, o).value.VObject?
    decreases |rest|
  {
    hide Scan, ParseValue;
    var colon := Scan(rest, src);
    var first := Scan(colon.rest, src);
    var v := ParseValue(first.token, first.rest, src, o);
    if t.StringToken? && v.Parsed? && Scan(v.rest, src).token == Punctuation(COMMA) {
      var next := Scan(Scan(v.rest, src).rest, src);
      MembersGiveObject(next.token, next.rest, done[t.s := v.value], src, o);
    }
  }

  lemma ScalarMeans(c: Syntax, convert: seq<byte> -> Option<Double>)
    ensures Scalar(c) <==> !Meaning(c, convert).VArray? && !Meaning(c, convert).VObject?
  {
  }

  lemma LoadedIsDocument(text: seq<byte>, convert: seq<byte> -> Option<Double>, o: Options)
    returns (before: seq<byte>, c: Syntax)
    requires Loads(text, convert, o).Parsed?
    ensures var r := Loads(text, convert, o);
            Document(text, before, c, r.rest, convert, o) && Meaning(c, convert) == r.value
  {
    hide Scan, ParseValue, Readable, ValidString, Spell, WellFormed, Meaning, Ends, Scalar;
    var readable := Readable(text);
    var src := Source(|readable| < |text|, convert);
    ReadableMeans(text);
    before, c := ParseSound(readable, src, o);
    var t := Scan(readable, src);
    var v := ParseValue(t.token, t.rest, src, o);
    ContainerToken(t.token, t.rest, src, o);
    ScalarMeans(c, convert);
    EndIsFound(v.rest, src);
    assert readable == before + readable[|before|..];
  }

  lemma DocumentIsLoaded(text: seq<byte>, before: seq<byte>, c: Syntax, rest: seq<byte>,
                         convert: seq<byte> -> Option<Double>, o: Options)
    requires Document(text, before, c, rest, convert, o)
    ensures Loads(text, convert, o) == Parsed(Meaning(c, convert), rest)
  {
    hide Scan, ParseValue, Readable, ValidString, Spell, WellFormed, Meaning, Ends, Scalar;
    var readable := Readable(text);
    var src := Source(|readable| < |text|, convert);
    ReadableMeans(text);
    ParseComplete(c, rest, src, o);
    SkipThem(before, Spell(c) + rest, src);
    assert readable == before + (Spell(c) + rest);
    var t := Scan(readable, src);
    ContainerToken(t.token, t.rest, src, o);
    ScalarMeans(c, convert);
    EndIsFound(rest, src);
  }

  /**
    Reading is deciding the grammar: a text is loaded as v, up to rest, if and only if it spells a value that means v,
    after blanks, and goes on with rest; and unless the check of the end is disabled, rest must be blank.
   */
  lemma LoadsDecides(text: seq<byte>, convert: seq<byte> -> Option<Double>, o: Options, v: Value, rest: seq<byte>)
    ensures Loads(text, convert, o) == Parsed(v, rest) <==> Denotes(text, v, rest, convert, o)
  {
    hide Loads, Document, Meaning;
    if Loads(text, convert, o) == Parsed(v, rest) {
      var before, c := LoadedIsDocument(text, convert, o);
    }
    if Denotes(text, v, rest, convert, o) {
      var before, c :| Document(text, before, c, rest, convert, o) && Meaning(c, convert) == v;
      DocumentIsLoaded(text, before, c, rest, convert, o);
    }
  }

  /**
    With the check of the end disabled, a value is found whatever follows it; without, the same one, but only if nothing
    but blanks follows and all the text is valid UTF-8.
   */
  lemma EndIsChecked(text: seq<byte>, convert: seq<byte> -> Option<Double>, o: Options)
    ensures var lax := Loads(text, convert, o.(disableEofCheck := true));
            var strict := Loads(text, convert, o.(disableEofCheck := false));
            && (strict.Parsed? <==>
                lax.Parsed? && ValidString(text)
                && forall i :: 0 <= i < |lax.rest| ==> lax.rest[i] in {0x20, 0x09, 0x0A, 0x0D})
            && (strict.Parsed? ==> strict == lax)
  {
    hide Loads, Readable, ValidString, Spell, WellFormed, Meaning, Ends, Scalar;
    var o1, o2 := o.(disableEofCheck := true), o.(disableEofCheck := false);
    var lax, strict := Loads(text, convert, o1), Loads(text, convert, o2);
    if strict.Parsed? {
      var before, c := LoadedIsDocument(text, convert, o2);
      DocumentIsLoaded(text, before, c, strict.rest, convert, o1);
    } else if lax.Parsed? && Blank(lax.rest) && ValidString(text) {
      var before, c := LoadedIsDocument(text, convert, o1);
      DocumentIsLoaded(text, before, c, lax.rest, convert, o2);
    }
  }
}
