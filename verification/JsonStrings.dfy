/** JSON strings (RFC 4627, section 2.5): writing them with escapes, and reading them back. */
module JsonStrings {
  import opened Bytes
  import opened Utf8
  import opened Wrappers
  import opened Sequences

  const QUOTE: byte := 0x22
  const BACKSLASH: byte := 0x5C
  const LETTER_U: byte := 0x75

  // ---------- hexadecimal ----------

  /** A digit as "%x" writes it. */
  function HexDigit(d: nat): byte
    requires d < 0x10
  {
    if d < 10 then 0x30 + d else 0x61 + d - 10
  }

  function Hex4(v: nat): (s: seq<byte>)
    requires v < 0x1_0000
    ensures |s| == 4
  {
    [HexDigit(v / 0x1000), HexDigit(v / 0x100 % 0x10), HexDigit(v / 0x10 % 0x10), HexDigit(v % 0x10)]
  }

  /** The value the reader gives a digit: letters beyond F have values, too, and anything else none. */
  function DigitValue(c: byte): Option<nat> {
    if 0x30 <= c <= 0x39 then Some(c - 0x30)
    else if 0x61 <= c <= 0x7A then Some(c - 0x61 + 10)
    else if 0x41 <= c <= 0x5A then Some(c - 0x41 + 10)
    else None
  }

  /** The value of an escape's four digits. */
  function EscapeValue(s: seq<byte>): (v: Option<nat>)
    requires |s| == 4
    ensures v.Some? ==> v.value <= 0x10FFFF
  {
    var a, b, c, d := DigitValue(s[0]), DigitValue(s[1]), DigitValue(s[2]), DigitValue(s[3]);
    if a.None? || b.None? || c.None? || d.None? then None
    else Some(((a.value * 0x10 + b.value) * 0x10 + c.value) * 0x10 + d.value)
  }

  lemma HexRoundTrip(v: nat)
    requires v < 0x1_0000
    ensures EscapeValue(Hex4(v)) == Some(v)
  {
    assert forall d :: 0 <= d < 0x10 ==> DigitValue(HexDigit(d)) == Some(d);
    assert v / 0x100 == v / 0x10 / 0x10 && v / 0x1000 == v / 0x10 / 0x10 / 0x10;
  }

  // ---------- writing ----------

  predicate MustEscape(c: nat, ascii: bool) {
    c == BACKSLASH || c == QUOTE || c < 0x20 || (ascii && c > 0x7F)
  }

  /** The letter of a two-character escape, if the code point has one. */
  function ShortEscape(c: nat): Option<byte> {
    if c == BACKSLASH || c == QUOTE then Some(c)
    else if c == 8 then Some(0x62)
    else if c == 12 then Some(0x66)
    else if c == 10 then Some(0x6E)
    else if c == 13 then Some(0x72)
    else if c == 9 then Some(0x74)
    else None
  }

  function UnicodeEscape(v: nat): (s: seq<byte>)
    requires v < 0x1_0000
    ensures |s| == 6
  {
    [BACKSLASH, LETTER_U] + Hex4(v)
  }

  /** The escape of a code point; one beyond the BMP becomes a UTF-16 surrogate pair. */
  function EscapeText(c: nat): seq<byte>
    requires c <= 0x10FFFF
  {
    var short := ShortEscape(c);
    if short.Some? then [BACKSLASH, short.value]
    else if c < 0x1_0000 then UnicodeEscape(c)
    else UnicodeEscape(0xD800 + (c - 0x1_0000) / 0x400) + UnicodeEscape(0xDC00 + (c - 0x1_0000) % 0x400)
  }

  /** What is written for the code point c, encoded in s. */
  function Written(c: nat, s: seq<byte>, ascii: bool): seq<byte>
    requires c <= 0x10FFFF
  {
    if MustEscape(c, ascii) then EscapeText(c) else s
  }

  /** What is written between the quotes, up to the first invalid octet. */
  function Escaped(s: seq<byte>, ascii: bool): seq<byte>
    decreases |s|
  {
    if s == [] then [] else
    var step := Iterate(s);
    if step.Bad? then [] else Written(step.codepoint, s[..step.count], ascii) + Escaped(s[step.count..], ascii)
  }

  function Quoted(s: seq<byte>, ascii: bool): seq<byte> {
    [QUOTE] + Escaped(s, ascii) + [QUOTE]
  }

  /**
    What has been written when an invalid octet ends the writing: plain characters are written together with
    the escape that follows them, so those since the last escape, which are pending, never are.
   */
  function Flushed(s: seq<byte>, pending: seq<byte>, ascii: bool): seq<byte>
    decreases |s|
  {
    if s == [] then [] else
    var step := Iterate(s);
    if step.Bad? then []
    else if MustEscape(step.codepoint, ascii) then
      pending + EscapeText(step.codepoint) + Flushed(s[step.count..], [], ascii)
    else Flushed(s[step.count..], pending + s[..step.count], ascii)
  }

  /** What writing a string leaves in the text, whether it succeeds or not. */
  function StringText(s: seq<byte>, ascii: bool): seq<byte> {
    if ValidString(s) then Quoted(s, ascii) else [QUOTE] + Flushed(s, [], ascii)
  }

  /** Of a key that is a, a line feed, b and a bad octet, the text keeps the a and the escape, but not the b. */
  lemma BadKeyIsCut(ascii: bool)
    ensures StringText([0x61, 0x0A, 0x62, 0xFF], ascii) == [0x22, 0x61, 0x5C, 0x6E]
  {
    hide CodePoints, ValidString, Flushed;
    var s: seq<byte> := [0x61, 0x0A, 0x62, 0xFF];
    assert s[1..] == [0x0A, 0x62, 0xFF] && [0x0A, 0x62, 0xFF][1..] == [0x62, 0xFF] && [0x62, 0xFF][1..] == [0xFF];
    var a: seq<byte>, b: seq<byte> := [0x61], [0x62];
    assert [] + a == a && [] + b == b;
    OneFlushed([], [0xFF], ascii);
    OneFlushed([], [0x62, 0xFF], ascii);
    OneFlushed([0x62], [0xFF], ascii);
    OneFlushed([0x61], [0x0A, 0x62, 0xFF], ascii);
    OneFlushed([], s, ascii);
  }

  /** One octet of ASCII, or one that is never valid. */
  lemma OneFlushed(pending: seq<byte>, s: seq<byte>, ascii: bool)
    requires s != [] && (s[0] < 0x80 || s[0] == 0xFF)
    ensures s[0] < 0x80 ==> ValidString(s) == ValidString(s[1..])
    ensures s[0] == 0xFF ==> !ValidString(s) && Flushed(s, pending, ascii) == []
    ensures s[0] < 0x80 ==>
            Flushed(s, pending, ascii) ==
            if MustEscape(s[0], ascii) then pending + EscapeText(s[0]) + Flushed(s[1..], [], ascii)
            else Flushed(s[1..], pending + [s[0]], ascii)
  {
    assert s[0] < 0x80 ==> Iterate(s) == Step(s[0], 1) && s[..1] == [s[0]];
  }

  lemma EscapedStep(s: seq<byte>, at: nat, ascii: bool)
    requires at < |s| && Iterate(s[at..]).Step?
    ensures var step := Iterate(s[at..]);
            && Escaped(s[at..], ascii) ==
               Written(step.codepoint, s[at..at + step.count], ascii) + Escaped(s[at + step.count..], ascii)
            && ValidString(s[at..]) == ValidString(s[at + step.count..])
  {
    hide Iterate, Encode, IsScalar, Written;
    var step := Iterate(s[at..]);
    assert s[at..][step.count..] == s[at + step.count..];
    assert s[at..][..step.count] == s[at..at + step.count];
  }

  lemma NothingToEscape(s: seq<byte>, ascii: bool)
    ensures ValidString(s[|s|..]) && Escaped(s[|s|..], ascii) == []
  {
    assert s[|s|..] == [];
  }

  lemma FlushedStep(s: seq<byte>, start: nat, at: nat, ascii: bool)
    requires start <= at < |s| && Iterate(s[at..]).Step?
    ensures var step := Iterate(s[at..]);
            var end := at + step.count;
            Flushed(s[at..], s[start..at], ascii) ==
            if MustEscape(step.codepoint, ascii) then
              s[start..at] + EscapeText(step.codepoint) + Flushed(s[end..], [], ascii)
            else Flushed(s[end..], s[start..end], ascii)
  {
    hide Iterate, Encode, IsScalar, EscapeText, MustEscape;
    var step := Iterate(s[at..]);
    assert s[at..][step.count..] == s[at + step.count..];
    assert s[at..][..step.count] == s[at..at + step.count];
    assert s[start..at] + s[at..at + step.count] == s[start..at + step.count];
  }

  /** Passes over the characters that need no escape, up to pos; the next one, if any, ends at end and is c. */
  method PlainRun(s: seq<byte>, start: nat, ascii: bool) returns (ok: bool, pos: nat, end: nat, c: nat)
    requires start <= |s|
    ensures !ok ==> !ValidString(s[start..]) && Flushed(s[start..], [], ascii) == []
    ensures ok ==> start <= pos <= end <= |s| && Escaped(s[start..], ascii) == s[start..pos] + Escaped(s[pos..], ascii)
    ensures ok ==> ValidString(s[start..]) == ValidString(s[pos..])
    ensures ok && end == pos ==> pos == |s|
    ensures ok && end > pos ==> Iterate(s[pos..]) == Step(c, end - pos) && MustEscape(c, ascii) && c <= 0x10FFFF
    ensures ok && end > pos ==>
            Flushed(s[start..], [], ascii) == s[start..pos] + EscapeText(c) + Flushed(s[end..], [], ascii)
  {
    hide Escaped, MustEscape, EscapeText, CodePoints, Iterate, Encode, Flushed;
    pos, end, c := start, start, 0;
    assert s[start..start] == [];
    assert s[start..pos] + Escaped(s[pos..], ascii) == Escaped(s[start..], ascii);
    while end < |s|
      invariant start <= pos == end <= |s|
      invariant Escaped(s[start..], ascii) == s[start..pos] + Escaped(s[pos..], ascii)
      invariant ValidString(s[start..]) == ValidString(s[pos..])
      invariant Flushed(s[start..], [], ascii) == Flushed(s[pos..], s[start..pos], ascii)
    {
      var step := Iterate(s[pos..]);
      if step.Bad? {
        InvalidHere(s[pos..], s[start..pos], ascii);
        return false, pos, end, c;
      }
      end := pos + step.count;
      c := step.codepoint;
      FlushedStep(s, start, pos, ascii);
      if MustEscape(c, ascii) {
        return true, pos, end, c;
      }
      EscapedStep(s, pos, ascii);
      Associative(s[start..pos], s[pos..end], Escaped(s[end..], ascii));
      assert s[start..pos] + s[pos..end] == s[start..end];
      pos := end;
    }
    ok := true;
  }

  lemma InvalidHere(s: seq<byte>, pending: seq<byte>, ascii: bool)
    requires s != [] && Iterate(s).Bad?
    ensures !ValidString(s) && Flushed(s, pending, ascii) == []
  {
  }

  /** Writes a string, one run of plain characters after the other; fails on one that is not valid UTF-8. */
  method DumpString(s: seq<byte>, ascii: bool) returns (ok: bool, out: seq<byte>)
    ensures ok == ValidString(s)
    ensures out == StringText(s, ascii)
  {
    hide Escaped, MustEscape, EscapeText, CodePoints, Iterate, IsScalar, Encode, Flushed, Written, ValidString;
    out := [QUOTE];
    var str := 0;
    assert s[0..] == s;
    while true
      invariant str <= |s| && ValidString(s) == ValidString(s[str..])
      invariant out + Escaped(s[str..], ascii) == [QUOTE] + Escaped(s, ascii)
      invariant out + Flushed(s[str..], [], ascii) == [QUOTE] + Flushed(s, [], ascii)
      decreases |s| - str
    {
      var valid, pos, end, c := PlainRun(s, str, ascii);
      if !valid {
        return false, out;
      }
      Associative(out, s[str..pos], Escaped(s[pos..], ascii));
      out := out + s[str..pos];
      if end == pos {
        NothingToEscape(s, ascii);
        break;
      }
      EscapedStep(s, pos, ascii);
      EscapeIsWritten(c, s[pos..end], ascii);
      Associative(out, EscapeText(c), Escaped(s[end..], ascii));
      assert out + (EscapeText(c) + Flushed(s[end..], [], ascii)) == out + EscapeText(c) + Flushed(s[end..], [], ascii);
      out := out + EscapeText(c);
      str := end;
    }
    out := out + [QUOTE];
    ok := true;
  }

  lemma EscapeIsWritten(c: nat, s: seq<byte>, ascii: bool)
    requires c <= 0x10FFFF && MustEscape(c, ascii)
    ensures Written(c, s, ascii) == EscapeText(c)
  {
  }

  // ---------- reading ----------

  /** The length of the text up to the closing quote, if it closes and its escapes have the right shape. */
  function RawLength(rest: seq<byte>): (r: Option<nat>)
    ensures r.Some? ==> r.value < |rest| && rest[r.value] == QUOTE
    decreases |rest|
  {
    if rest == [] then None
    else if rest[0] == QUOTE then Some(0)
    else if rest[0] < 0x20 then None
    else if rest[0] != BACKSLASH then After(1, RawLength(rest[1..]))
    else if |rest| < 2 then None
    else if rest[1] == LETTER_U then if |rest| < 6 then None else After(6, RawLength(rest[6..]))
    else if Unescaped(rest[1]).Some? then After(2, RawLength(rest[2..]))
    else None
  }

  function After(k: nat, n: Option<nat>): Option<nat> {
    if n.None? then None else Some(k + n.value)
  }

  /** The character a short escape stands for. */
  function Unescaped(c: byte): Option<byte> {
    if c == QUOTE || c == BACKSLASH || c == 0x2F then Some(c)
    else if c == 0x62 then Some(8)
    else if c == 0x66 then Some(12)
    else if c == 0x6E then Some(10)
    else if c == 0x72 then Some(13)
    else if c == 0x74 then Some(9)
    else None
  }

  /** The outcome of reading a string; a digit that is no letter or digit stops the program. */
  datatype Text = Text(s: seq<byte>) | Invalid | Aborted

  function Prepend(s: seq<byte>, t: Text): Text {
    if t.Text? then Text(s + t.s) else t
  }

  /** Replaces the escapes in the text between the quotes. */
  function Unescape(raw: seq<byte>): Text
    decreases |raw|
  {
    if raw == [] then Text([])
    else if raw[0] != BACKSLASH then Prepend([raw[0]], Unescape(raw[1..]))
    else if |raw| < 2 then Invalid
    else if raw[1] != LETTER_U then
      var c := Unescaped(raw[1]);
      if c.None? then Invalid else Prepend([c.value], Unescape(raw[2..]))
    else if |raw| < 6 then Invalid
    else
      var v := EscapeValue(raw[2..6]);
      if v.None? then Aborted
      else if 0xD800 <= v.value <= 0xDBFF then
        if |raw| < 12 || raw[6] != BACKSLASH || raw[7] != LETTER_U then Invalid else
        var w := EscapeValue(raw[8..12]);
        if w.None? then Aborted
        else if !(0xDC00 <= w.value <= 0xDFFF) then Invalid
        else Prepend(Encode((v.value - 0xD800) * 0x400 + (w.value - 0xDC00) + 0x1_0000), Unescape(raw[12..]))
      else if 0xDC00 <= v.value <= 0xDFFF || v.value == 0 then Invalid
      else Prepend(Encode(v.value), Unescape(raw[6..]))
  }

  // ---------- the digits of an escape ----------

  predicate IsHexDigit(c: byte) {
    0x30 <= c <= 0x39 || 0x41 <= c <= 0x46 || 0x61 <= c <= 0x66
  }

  predicate AllHex(s: seq<byte>) {
    forall i :: 0 <= i < |s| ==> IsHexDigit(s[i])
  }

  /** The length of the text up to the closing quote by a reader that takes nothing but hexadecimal digits after \u. */
  function StrictRawLength(rest: seq<byte>): (r: Option<nat>)
    decreases |rest|
  {
    if rest == [] then None
    else if rest[0] == QUOTE then Some(0)
    else if rest[0] < 0x20 then None
    else if rest[0] != BACKSLASH then After(1, StrictRawLength(rest[1..]))
    else if |rest| < 2 then None
    else if rest[1] == LETTER_U then
      if |rest| < 6 || !AllHex(rest[2..6]) then None else After(6, StrictRawLength(rest[6..]))
    else if Unescaped(rest[1]).Some? then After(2, StrictRawLength(rest[2..]))
    else None
  }

  /** The four characters of every escape are hexadecimal digits. */
  predicate HexEscapes(raw: seq<byte>)
    decreases |raw|
  {
    if raw == [] then true
    else if raw[0] != BACKSLASH then HexEscapes(raw[1..])
    else if |raw| < 2 then true
    else if raw[1] != LETTER_U then HexEscapes(raw[2..])
    else |raw| < 6 || (AllHex(raw[2..6]) && HexEscapes(raw[6..]))
  }

  /** The strict reader finds the same end, and exactly where all those characters are hexadecimal digits. */
  lemma {:induction false} StrictMeans(rest: seq<byte>)
    ensures var n := RawLength(rest);
            StrictRawLength(rest) == if n.Some? && HexEscapes(rest[..n.value]) then n else None
    decreases |rest|
  {
    hide AllHex, Unescaped;
    if rest != [] && rest[0] != QUOTE && rest[0] >= 0x20 {
      if rest[0] != BACKSLASH {
        StrictMeans(rest[1..]);
        RestOfRaw(rest, 1);
      } else if |rest| >= 2 && rest[1] != LETTER_U {
        StrictMeans(rest[2..]);
        RestOfRaw(rest, 2);
      } else if |rest| >= 6 {
        StrictMeans(rest[6..]);
        RestOfRaw(rest, 6);
        if RawLength(rest[6..]).Some? {
          assert rest[..6 + RawLength(rest[6..]).value][2..6] == rest[2..6];
        }
      }
    }
  }

  lemma RestOfRaw(rest: seq<byte>, k: nat)
    requires k <= |rest|
    ensures var n := RawLength(rest[k..]); n.Some? ==> rest[..k + n.value][k..] == rest[k..][..n.value]
  {
  }

  /** Hexadecimal digits never stop the program. */
  lemma {:induction false} HexNeverAborts(raw: seq<byte>)
    requires HexEscapes(raw)
    ensures !Unescape(raw).Aborted?
    decreases |raw|
  {
    hide Encode, EscapeValue, AllHex, Unescaped;
    if raw != [] && raw[0] != BACKSLASH {
      HexNeverAborts(raw[1..]);
    } else if |raw| >= 2 && raw[1] != LETTER_U {
      HexNeverAborts(raw[2..]);
    } else if |raw| >= 6 {
      HexHasValue(raw[2..6]);
      HexNeverAborts(raw[6..]);
      if |raw| >= 12 && raw[6] == BACKSLASH && raw[7] == LETTER_U {
        var more := raw[6..];
        assert more[2..6] == raw[8..12] && more[6..] == raw[12..];
        HexHasValue(raw[8..12]);
        HexNeverAborts(raw[12..]);
      }
    }
  }

  lemma HexHasValue(s: seq<byte>)
    requires |s| == 4 && AllHex(s)
    ensures EscapeValue(s).Some?
  {
    assert forall i :: 0 <= i < 4 ==> IsHexDigit(s[i]) && DigitValue(s[i]).Some?;
  }

  // ---------- reading undoes writing ----------

  /** An octet that neither writing nor reading treats specially. */
  predicate Plain(b: byte) {
    b >= 0x20 && b != QUOTE && b != BACKSLASH
  }

  lemma {:induction false} PlainIsRead(p: seq<byte>, tail: seq<byte>)
    requires forall i :: 0 <= i < |p| ==> Plain(p[i])
    ensures RawLength(p + tail) == After(|p|, RawLength(tail))
    ensures Unescape(p + tail) == Prepend(p, Unescape(tail))
  {
    hide EscapeValue, Unescaped, Encode;
    if p == [] {
      assert p + tail == tail;
      PrependNothing(Unescape(tail));
    } else {
      assert (p + tail)[1..] == p[1..] + tail;
      PlainIsRead(p[1..], tail);
      PrependTwice([p[0]], p[1..], Unescape(tail));
      assert [p[0]] + p[1..] == p;
    }
  }

  lemma PrependNothing(t: Text)
    ensures Prepend([], t) == t
  {
    if t.Text? {
      assert [] + t.s == t.s;
    }
  }

  lemma PrependTwice(a: seq<byte>, b: seq<byte>, t: Text)
    ensures Prepend(a, Prepend(b, t)) == Prepend(a + b, t)
  {
    if t.Text? {
      Associative(a, b, t.s);
    }
  }

  lemma ShortIsRead(c: nat, tail: seq<byte>)
    requires ShortEscape(c).Some?
    ensures var e := EscapeText(c);
            && RawLength(e + tail) == After(|e|, RawLength(tail))
            && Unescape(e + tail) == Prepend(Encode(c), Unescape(tail))
  {
    var e := EscapeText(c);
    assert (e + tail)[2..] == tail;
    assert Unescaped(e[1]) == Some(c);
  }

  lemma UnicodeIsScanned(v: nat, tail: seq<byte>)
    requires v < 0x1_0000
    ensures RawLength(UnicodeEscape(v) + tail) == After(6, RawLength(tail))
  {
    assert (UnicodeEscape(v) + tail)[6..] == tail;
  }

  lemma BasicIsRead(c: nat, tail: seq<byte>)
    requires IsScalar(c) && 0 < c < 0x1_0000
    ensures Unescape(UnicodeEscape(c) + tail) == Prepend(Encode(c), Unescape(tail))
  {
    var s := UnicodeEscape(c) + tail;
    assert s[2..6] == Hex4(c) && s[6..] == tail;
    HexRoundTrip(c);
  }

  lemma PairIsScanned(v: nat, w: nat, tail: seq<byte>)
    requires v < 0x1_0000 && w < 0x1_0000
    ensures RawLength(UnicodeEscape(v) + UnicodeEscape(w) + tail) == After(12, RawLength(tail))
  {
    hide RawLength;
    assert UnicodeEscape(v) + UnicodeEscape(w) + tail == UnicodeEscape(v) + (UnicodeEscape(w) + tail);
    UnicodeIsScanned(v, UnicodeEscape(w) + tail);
    UnicodeIsScanned(w, tail);
  }

  lemma PairIsUnescaped(v: nat, w: nat, tail: seq<byte>)
    requires 0xD800 <= v <= 0xDBFF && 0xDC00 <= w <= 0xDFFF
    ensures Unescape(UnicodeEscape(v) + UnicodeEscape(w) + tail) ==
            Prepend(Encode((v - 0xD800) * 0x400 + (w - 0xDC00) + 0x1_0000), Unescape(tail))
  {
    hide Encode, EscapeValue, Hex4;
    var s := UnicodeEscape(v) + UnicodeEscape(w) + tail;
    assert s[2..6] == Hex4(v) && s[8..12] == Hex4(w) && s[12..] == tail;
    HexRoundTrip(v);
    HexRoundTrip(w);
  }

  /** A surrogate pair is put together again. */
  lemma PairIsRead(c: nat, tail: seq<byte>)
    requires 0x1_0000 <= c <= 0x10FFFF
    ensures Unescape(EscapeText(c) + tail) == Prepend(Encode(c), Unescape(tail))
    ensures RawLength(EscapeText(c) + tail) == After(12, RawLength(tail))
  {
    hide Encode, Unescape, RawLength, UnicodeEscape;
    var v, w := 0xD800 + (c - 0x1_0000) / 0x400, 0xDC00 + (c - 0x1_0000) % 0x400;
    PairIsScanned(v, w, tail);
    PairIsUnescaped(v, w, tail);
    assert (v - 0xD800) * 0x400 + (w - 0xDC00) + 0x1_0000 == c;
  }

  /** Whatever is written for a code point is read as that code point. */
  lemma WrittenIsRead(c: nat, ascii: bool, tail: seq<byte>)
    requires IsScalar(c) && c != 0
    ensures var e := Written(c, Encode(c), ascii);
            && RawLength(e + tail) == After(|e|, RawLength(tail))
            && Unescape(e + tail) == Prepend(Encode(c), Unescape(tail))
  {
    hide RawLength, Unescape, Encode;
    if !MustEscape(c, ascii) {
      PlainOctets(c);
      PlainIsRead(Encode(c), tail);
    } else if ShortEscape(c).Some? {
      ShortIsRead(c, tail);
    } else if c < 0x1_0000 {
      UnicodeIsScanned(c, tail);
      BasicIsRead(c, tail);
    } else {
      PairIsRead(c, tail);
    }
  }

  lemma PlainOctets(c: nat)
    requires c <= 0x10FFFF && c >= 0x20 && c != QUOTE && c != BACKSLASH
    ensures forall i :: 0 <= i < |Encode(c)| ==> Plain(Encode(c)[i])
  {
  }

  /**
    Reading undoes writing, in plain and in ASCII mode: the closing quote is found where the text ends,
    and the text stands for the string that was written.
   */
  lemma {:induction false} EscapedIsRead(s: seq<byte>, ascii: bool, rest: seq<byte>)
    requires ValidString(s) && 0 !in s
    ensures var e := Escaped(s, ascii);
            RawLength(e + [QUOTE] + rest) == Some(|e|) && Unescape(e) == Text(s)
    decreases |s|
  {
    hide RawLength, Unescape, Encode, Written, Iterate, IsScalar;
    if s == [] {
      EmptyIsRead(ascii, rest);
    } else {
      var step := Iterate(s);
      var more := s[step.count..];
      ValidHere(s);
      NonZero(s);
      EscapedIsRead(more, ascii, rest);
      var w, e := Written(step.codepoint, s[..step.count], ascii), Escaped(more, ascii);
      assert Escaped(s, ascii) == w + e;
      WrittenIsRead(step.codepoint, ascii, e + [QUOTE] + rest);
      WrittenIsRead(step.codepoint, ascii, e);
      assert w + e + [QUOTE] + rest == w + (e + [QUOTE] + rest);
      assert s[..step.count] + more == s;
    }
  }

  lemma NonZero(s: seq<byte>)
    requires s != [] && Iterate(s).Step? && 0 !in s
    ensures var step := Iterate(s); IsScalar(step.codepoint) && step.codepoint != 0
    ensures ValidString(s) <==> ValidString(s[Iterate(s).count..])
  {
    assert s[0] in s;
  }

  lemma ValidHere(s: seq<byte>)
    requires s != [] && ValidString(s)
    ensures Iterate(s).Step?
  {
  }

  lemma EmptyIsRead(ascii: bool, rest: seq<byte>)
    ensures Escaped([], ascii) == [] && Unescape([]) == Text([])
    ensures RawLength([] + [QUOTE] + rest) == Some(0)
  {
  }

  // ---------- what is written is text ----------

  predicate Ascii(s: seq<byte>) {
    forall i :: 0 <= i < |s| ==> 0 < s[i] < 0x80
  }

  lemma EscapeIsAscii(c: nat)
    requires c <= 0x10FFFF
    ensures Ascii(EscapeText(c))
  {
  }

  lemma OctetsAreText(c: nat)
    requires IsScalar(c) && c != 0
    ensures ValidString(Encode(c)) && 0 !in Encode(c)
    ensures c <= 0x7F ==> Ascii(Encode(c))
  {
    OnePoint(c);
  }

  /** What is written for a code point. */
  lemma WrittenIsText(s: seq<byte>, ascii: bool)
    requires s != [] && Iterate(s).Step? && 0 !in s
    ensures var step := Iterate(s);
            var w := Written(step.codepoint, s[..step.count], ascii);
            ValidString(w) && 0 !in w && (ascii ==> Ascii(w))
  {
    hide Encode, Iterate, IsScalar, EscapeText, ValidString;
    NonZero(s);
    var step := Iterate(s);
    if MustEscape(step.codepoint, ascii) {
      EscapeIsAscii(step.codepoint);
      AsciiIsValid(EscapeText(step.codepoint));
    } else {
      OctetsAreText(step.codepoint);
    }
  }

  /**
    The text is valid UTF-8 without a terminator, and in ASCII mode nothing but ASCII, even if the string is not valid.
   */
  lemma {:induction false} EscapedIsText(s: seq<byte>, ascii: bool)
    requires 0 !in s
    ensures var e := Escaped(s, ascii); ValidString(e) && 0 !in e && (ascii ==> Ascii(e))
    decreases |s|
  {
    hide Encode, Iterate, EscapeText, ValidString, Written;
    if s == [] || Iterate(s).Bad? {
      AsciiIsValid([]);
    } else {
      var step := Iterate(s);
      EscapedIsText(s[step.count..], ascii);
      WrittenIsText(s, ascii);
      ValidConcat(Written(step.codepoint, s[..step.count], ascii), Escaped(s[step.count..], ascii));
    }
  }

  /** So is what has been written when an invalid octet ends the writing. */
  lemma {:induction false} FlushedIsText(s: seq<byte>, pending: seq<byte>, ascii: bool)
    requires 0 !in s && ValidString(pending) && 0 !in pending && (ascii ==> Ascii(pending))
    ensures var e := Flushed(s, pending, ascii); ValidString(e) && 0 !in e && (ascii ==> Ascii(e))
    decreases |s|
  {
    hide Encode, Iterate, EscapeText, ValidString, MustEscape;
    AsciiIsValid([]);
    if s != [] && Iterate(s).Step? {
      var step := Iterate(s);
      var rest := s[step.count..];
      WrittenIsText(s, ascii);
      var w := Written(step.codepoint, s[..step.count], ascii);
      ValidConcat(pending, w);
      if MustEscape(step.codepoint, ascii) {
        FlushedIsText(rest, [], ascii);
        ValidConcat(pending + w, Flushed(rest, [], ascii));
      } else {
        FlushedIsText(rest, pending + w, ascii);
      }
    }
  }
}
