/** Whatever text is read, the value is well formed: valid strings without terminators, integers in range. */
module JsonSoundness {
  import opened Bytes
  import opened Utf8
  import opened JsonNumbers
  import opened JsonStrings
  import opened JsonPrinter
  import opened JsonReader
  import opened JsonRoundTrip
  import opened Wrappers

  /** Well formed at every depth. */
  predicate Proper(v: Value) {
    match v
    case VString(s) => StringOk(s)
    case VInteger(n) => INT_MIN <= n <= INT_MAX
    case VArray(elems) => forall i :: 0 <= i < |elems| ==> Proper(elems[i])
    case VObject(members) => forall k :: k in members ==> StringOk(k) && Proper(members[k])
    case _ => true
  }

  // ---------- cutting text at ASCII ----------

  lemma EncodedOctets(c: nat, i: nat)
    requires c <= 0x10FFFF && 0 < i < |Encode(c)|
    ensures Encode(c)[i] >= 0x80 && Encode(c)[0] >= 0x80
  {
  }

  /** An ASCII octet stands between code points. */
  lemma {:induction false} CutAtAscii(s: seq<byte>, n: nat)
    requires ValidString(s) && n < |s| && s[n] < 0x80
    ensures ValidString(s[..n]) && ValidString(s[n..]) && ValidString(s[n + 1..])
    decreases |s|
  {
    hide Encode, Iterate, ValidString, IsScalar;
    ValidStep(s);
    var step := Iterate(s);
    var k := step.count;
    var rest := s[k..];
    if n < k {
      AsciiIsAlone(s, n);
      AsciiIsValid([]);
      assert s[..0] == [] && s[0..] == s;
    } else {
      assert rest[n - k] == s[n];
      CutAtAscii(rest, n - k);
      OnePoint(step.codepoint);
      ValidConcat(s[..k], rest[..n - k]);
      assert s[..k] + rest[..n - k] == s[..n];
      assert rest[n - k..] == s[n..] && rest[n - k + 1..] == s[n + 1..];
    }
  }

  lemma ValidStep(s: seq<byte>)
    requires s != [] && ValidString(s)
    ensures Iterate(s).Step? && ValidString(s[Iterate(s).count..])
  {
  }

  /** An ASCII octet within the first code point is that code point. */
  lemma AsciiIsAlone(s: seq<byte>, n: nat)
    requires s != [] && Iterate(s).Step? && n < Iterate(s).count && s[n] < 0x80
    ensures n == 0 && Iterate(s).count == 1
  {
    hide Encode;
    var step := Iterate(s);
    var e := s[..step.count];
    assert e[n] == s[n];
    if step.count > 1 {
      EncodedOctets(step.codepoint, if n > 0 then n else 1);
      assert false;
    }
  }

  lemma Slices(s: seq<byte>, n: nat)
    requires n <= |s| && 0 !in s
    ensures 0 !in s[..n] && 0 !in s[n..]
  {
  }

  /** What follows an ASCII octet is text again. */
  lemma TextAfter(s: seq<byte>, k: nat)
    requires StringOk(s) && 0 < k <= |s| && s[k - 1] < 0x80
    ensures StringOk(s[k..])
  {
    CutAtAscii(s, k - 1);
    Slices(s, k);
  }

  lemma TextBefore(s: seq<byte>, n: nat)
    requires StringOk(s) && n < |s| && s[n] < 0x80
    ensures StringOk(s[..n])
  {
    CutAtAscii(s, n);
    Slices(s, n);
  }

  // ---------- strings ----------

  lemma {:induction false} CopyRun(raw: seq<byte>, k: nat)
    requires k <= |raw| && forall i :: 0 <= i < k ==> raw[i] != BACKSLASH
    ensures Unescape(raw) == Prepend(raw[..k], Unescape(raw[k..]))
    decreases k
  {
    if k == 0 {
      PrependNothing(Unescape(raw));
    } else {
      CopyRun(raw[1..], k - 1);
      PrependTwice([raw[0]], raw[1..k], Unescape(raw[k..]));
      assert raw[1..][..k - 1] == raw[1..k] && raw[1..][k - 1..] == raw[k..];
      assert [raw[0]] + raw[1..k] == raw[..k];
    }
  }

  lemma DigitsAreAscii(s: seq<byte>)
    requires |s| == 4 && EscapeValue(s).Some?
    ensures s[3] < 0x80
  {
  }

  /** A character that is no escape is copied whole. */
  lemma CopyPoint(raw: seq<byte>)
    requires raw != [] && StringOk(raw) && raw[0] != BACKSLASH
    ensures Iterate(raw).Step?
    ensures var k := Iterate(raw).count;
            && 0 < k <= |raw| && StringOk(raw[..k]) && StringOk(raw[k..])
            && Unescape(raw) == Prepend(raw[..k], Unescape(raw[k..]))
  {
    hide Encode, Unescape;
    var step := Iterate(raw);
    var k := step.count;
    forall i | 0 <= i < k ensures raw[i] != BACKSLASH {
      assert raw[..k][i] == raw[i];
      if i > 0 {
        EncodedOctets(step.codepoint, i);
      }
    }
    CopyRun(raw, k);
    OnePoint(step.codepoint);
    Slices(raw, k);
  }

  lemma UnescapedIsAscii(c: byte)
    requires Unescaped(c).Some?
    ensures c < 0x80 && Ascii([Unescaped(c).value])
  {
  }

  /** Reading the escapes of a text gives a valid string, if it gives one at all. */
  lemma {:induction false} UnescapedIsText(raw: seq<byte>)
    requires StringOk(raw) && Unescape(raw).Text?
    ensures StringOk(Unescape(raw).s)
    decreases |raw|
  {
    hide StringOk, Encode, EscapeValue, Unescaped;
    if raw == [] {
      assert StringOk([]) by { EmptyText(); }
    } else if raw[0] != BACKSLASH {
      CopyPoint(raw);
      var k := Iterate(raw).count;
      UnescapedIsText(raw[k..]);
      TextConcat(raw[..k], Unescape(raw[k..]).s);
    } else if raw[1] != LETTER_U {
      var c := Unescaped(raw[1]).value;
      UnescapedIsAscii(raw[1]);
      TextAfter(raw, 2);
      UnescapedIsText(raw[2..]);
      OneOctet(c);
      TextConcat([c], Unescape(raw[2..]).s);
    } else {
      EscapeIsText(raw);
    }
  }

  lemma EmptyText()
    ensures StringOk([])
  {
  }

  lemma OneOctet(c: byte)
    requires Ascii([c])
    ensures StringOk([c])
  {
    AsciiIsValid([c]);
  }

  lemma PointIsText(c: nat)
    requires IsScalar(c) && c != 0
    ensures StringOk(Encode(c))
  {
    OctetsAreText(c);
  }

  lemma {:induction false} EscapeIsText(raw: seq<byte>)
    requires StringOk(raw) && Unescape(raw).Text? && |raw| >= 2 && raw[0] == BACKSLASH && raw[1] == LETTER_U
    ensures StringOk(Unescape(raw).s)
    decreases |raw|, 0
  {
    hide StringOk, Encode, EscapeValue;
    var v := EscapeValue(raw[2..6]).value;
    DigitsAreAscii(raw[2..6]);
    assert raw[2..6][3] == raw[5];
    if 0xD800 <= v <= 0xDBFF {
      var w := EscapeValue(raw[8..12]).value;
      DigitsAreAscii(raw[8..12]);
      assert raw[8..12][3] == raw[11];
      TextAfter(raw, 12);
      UnescapedIsText(raw[12..]);
      var c := (v - 0xD800) * 0x400 + (w - 0xDC00) + 0x1_0000;
      PointIsText(c);
      TextConcat(Encode(c), Unescape(raw[12..]).s);
    } else {
      TextAfter(raw, 6);
      UnescapedIsText(raw[6..]);
      PointIsText(v);
      TextConcat(Encode(v), Unescape(raw[6..]).s);
    }
  }

  // ---------- tokens ----------

  /** The token is well formed, and text follows it. */
  ghost predicate Sound(r: Scanned) {
    && StringOk(r.rest)
    && (r.token.StringToken? ==> StringOk(r.token.s))
    && (r.token.IntegerToken? ==> INT_MIN <= r.token.n <= INT_MAX)
  }

  lemma {:induction false} BlanksAreText(s: seq<byte>)
    requires StringOk(s)
    ensures StringOk(SkipBlanks(s))
  {
    hide StringOk;
    if s != [] && IsBlank(s[0]) {
      TextAfter(s, 1);
      BlanksAreText(s[1..]);
    }
  }

  lemma NumberIsSound(s: seq<byte>, src: Source)
    requires s != [] && StringOk(s)
    ensures Sound(ScanNumber(s, src.convert))
  {
    hide StringOk, IntegerEnd, RealEnd, SignedNumber;
    EmptyText();
    if IntegerEnd(s).Some? {
      var j := IntegerEnd(s).value;
      IntegerEndsInDigit(s);
      TextAfter(s, j);
      if j < |s| && (s[j] == POINT || IsExponent(s[j])) && RealEnd(s, j).Some? {
        EndsInDigit(s, j);
        TextAfter(s, RealEnd(s, j).value);
      }
    }
  }

  lemma WordIsSound(s: seq<byte>)
    requires s != [] && IsAlpha(s[0]) && StringOk(s)
    ensures Sound(ScanWord(s))
  {
    hide StringOk;
    EmptyText();
    var n := AlphaRun(s);
    TextAfter(s, n);
  }

  lemma StringIsSound(s: seq<byte>)
    requires StringOk(s)
    ensures Sound(ScanString(s))
  {
    hide StringOk, RawLength, Unescape;
    EmptyText();
    if RawLength(s).Some? {
      var n := RawLength(s).value;
      TextBefore(s, n);
      TextAfter(s, n + 1);
      if Unescape(s[..n]).Text? {
        UnescapedIsText(s[..n]);
      }
    }
  }

  lemma ScanIsSound(rest: seq<byte>, src: Source)
    requires StringOk(rest)
    ensures Sound(Scan(rest, src))
  {
    hide StringOk, ScanNumber, ScanWord, ScanString, SkipBlanks;
    EmptyText();
    BlanksAreText(rest);
    var s := SkipBlanks(rest);
    if s != [] {
      if IsPunctuation(s[0]) || s[0] == QUOTE {
        TextAfter(s, 1);
        StringIsSound(s[1..]);
      } else if IsDigit(s[0]) || s[0] == MINUS {
        NumberIsSound(s, src);
      } else if IsAlpha(s[0]) {
        WordIsSound(s);
      }
    }
  }

  // ---------- values ----------

  /** A parsed value is well formed, and text follows it. */
  ghost predicate Good(p: Outcome) {
    p.Parsed? ==> Proper(p.value) && StringOk(p.rest)
  }

  lemma {:induction false} ValueIsGood(t: Token, rest: seq<byte>, src: Source, o: Options)
    requires Sound(Scanned(t, rest))
    ensures Good(ParseValue(t, rest, src, o))
    decreases |rest|, 3
  {
    hide StringOk, Scan, ParseElems, ParseMembers;
    if t.Punctuation? {
      var s := Scan(rest, src);
      ScanIsSound(rest, src);
      if !s.token.Eof? && !s.token.NoToken? {
        if t.c == LEFT_BRACE {
          MembersAreGood(s.token, s.rest, map[], src, o);
        } else {
          ElemsAreGood(s.token, s.rest, [], src, o);
        }
      }
    }
  }

  lemma OneMore(done: seq<Value>, v: Value)
    requires Proper(VArray(done)) && Proper(v)
    ensures Proper(VArray(done + [v]))
  {
  }

  lemma {:induction false} ElemsAreGood(t: Token, rest: seq<byte>, done: seq<Value>, src: Source, o: Options)
    requires Sound(Scanned(t, rest)) && Proper(VArray(done))
    ensures Good(ParseElems(t, rest, done, src, o))
    decreases |rest|, 4
  {
    hide StringOk, Scan, ParseValue, Proper;
    ValueIsGood(t, rest, src, o);
    var v := ParseValue(t, rest, src, o);
    if v.Parsed? {
      OneMore(done, v.value);
      ScanIsSound(v.rest, src);
      var s := Scan(v.rest, src);
      if s.token == Punctuation(COMMA) {
        ScanIsSound(s.rest, src);
        var next := Scan(s.rest, src);
        ElemsAreGood(next.token, next.rest, done + [v.value], src, o);
      }
    }
  }

  lemma {:induction false} MembersAreGood(t: Token, rest: seq<byte>, done: map<seq<byte>, Value>, src: Source,
                                          o: Options)
    requires Sound(Scanned(t, rest)) && Proper(VObject(done))
    ensures Good(ParseMembers(t, rest, done, src, o))
    decreases |rest|, 4
  {
    hide StringOk, Scan, ParseValue;
    if t.StringToken? && !(o.rejectDuplicates && t.s in done) {
      var colon := Scan(rest, src);
      ScanIsSound(rest, src);
      if colon.token == Punctuation(COLON) {
        var first := Scan(colon.rest, src);
        ScanIsSound(colon.rest, src);
        ValueIsGood(first.token, first.rest, src, o);
        var v := ParseValue(first.token, first.rest, src, o);
        if v.Parsed? {
          var s := Scan(v.rest, src);
          ScanIsSound(v.rest, src);
          if s.token == Punctuation(COMMA) {
            var next := Scan(s.rest, src);
            ScanIsSound(s.rest, src);
            MembersAreGood(next.token, next.rest, done[t.s := v.value], src, o);
          }
        }
      }
    }
  }

  lemma {:induction false} ReadableIsText(text: seq<byte>)
    requires 0 !in text
    ensures StringOk(Readable(text))
    decreases |text|
  {
    hide Encode;
    if text != [] && Iterate(text).Step? {
      var step := Iterate(text);
      ReadableIsText(text[step.count..]);
      OnePoint(step.codepoint);
      Slices(text, step.count);
      TextConcat(text[..step.count], Readable(text[step.count..]));
    }
  }

  /** Whatever is loaded, from any text, is well formed. */
  lemma LoadedIsProper(text: seq<byte>, convert: seq<byte> -> Option<Double>, o: Options)
    requires 0 !in text && Loads(text, convert, o).Parsed?
    ensures Proper(Loads(text, convert, o).value)
  {
    hide StringOk, Scan, ParseValue, Readable, Proper;
    ReadableIsText(text);
    var readable := Readable(text);
    var src := Source(|readable| < |text|, convert);
    ScanIsSound(readable, src);
    var s := Scan(readable, src);
    ValueIsGood(s.token, s.rest, src, o);
  }
}
