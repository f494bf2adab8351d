/**
  The lexer at work: octets are fetched one UTF-8 sequence at a time, with one octet of put-back, and become tokens.
 */
module JsonLexer {
  import opened Bytes
  import opened Utf8
  import opened JsonNumbers
  import opened JsonStrings
  import opened JsonPrinter
  import opened JsonReader
  import opened Wrappers

  const STATE_OK := 0
  const STATE_EOF := -1
  const STATE_ERROR := -2

  /** Only the first size octets matter. */
  lemma {:induction false} GatherPrefix(s: seq<byte>, t: seq<byte>, first: nat, k: nat)
    requires k < |s| && k < |t| && forall i :: 0 <= i <= k ==> s[i] == t[i]
    ensures Gather(s, first, k) == Gather(t, first, k)
  {
    if k > 0 {
      GatherPrefix(s, t, first, k - 1);
    }
  }

  lemma FullPrefix(s: seq<byte>, t: seq<byte>, size: nat)
    requires 1 <= size <= |s| && size <= |t| && s[..size] == t[..size]
    ensures CheckFull(s, size) == CheckFull(t, size)
  {
    assert forall i :: 0 <= i < size ==> s[i] == s[..size][i] && t[i] == t[..size][i];
    GatherPrefix(s, t, FirstBits(s[0], size), size - 1);
  }

  /** Reading on at pos: the next sequence, or the end. */
  lemma ReadableStep(text: seq<byte>, pos: nat)
    requires pos < |text|
    ensures var rest := text[pos..];
            var n := CheckFirst(rest[0]);
            if n == 0 || (n > 1 && CheckFull(rest, n).None?) then Readable(rest) == []
            else n <= |rest| && Readable(rest) == rest[..n] + Readable(text[pos + n..])
  {
    hide CheckFull, Encode, IsScalar;
    var rest := text[pos..];
    var step := Iterate(rest);
    if step.Step? {
      assert rest[step.count..] == text[pos + step.count..];
    }
  }

  predicate DigitChar(c: int) {
    0x30 <= c <= 0x39
  }

  predicate AlphaChar(c: int) {
    0x41 <= c <= 0x5A || 0x61 <= c <= 0x7A
  }

  lemma LettersEnd(s: seq<byte>, k: nat)
    requires k <= |s| && (forall i :: 0 <= i < k ==> IsAlpha(s[i])) && (k < |s| ==> !IsAlpha(s[k]))
    ensures AlphaRun(s) == k
  {
  }

  lemma Tail(c: byte, a: seq<byte>, b: seq<byte>)
    ensures var s := [c] + a + b; s != [] && s[0] == c && s[1..] == a + b
  {
  }

  class Lexer {
    const text: seq<byte>
    const convert: seq<byte> -> Option<Double>
    const buffer: array<byte>
    var pos: nat
    var bufferPos: nat
    var state: int
    var saved: seq<byte>
    var token: Token

    /** The buffer holds this many octets of one sequence before its terminator. */
    ghost var filled: nat

    /** What can still be read, and whether an invalid octet follows it. */
    ghost var left: seq<byte>
    ghost const fails: bool

    ghost function Src(): Source {
      Source(fails, convert)
    }

    ghost predicate Buffered()
      requires buffer.Length == 5 && pos <= |text|
      reads `pos, `bufferPos, `filled, `left, buffer
    {
      && bufferPos <= filled && filled <= 4 && buffer[filled] == 0
      && (forall i :: 0 <= i < filled ==> buffer[i] != 0)
      && left == buffer[bufferPos..filled] + Readable(text[pos..])
      && (|Readable(text[pos..])| < |text| - pos <==> fails)
    }

    ghost predicate Valid()
      reads `pos, `bufferPos, `state, `filled, `left, buffer
    {
      && buffer.Length == 5 && 0 !in text && pos <= |text|
      && state in {STATE_OK, STATE_EOF, STATE_ERROR}
      && (state == STATE_OK ==> Buffered())
      && (state != STATE_OK ==> left == [] && state == if fails then STATE_ERROR else STATE_EOF)
    }

    /** The octet c, or the end of the input, can be put back. */
    ghost predicate Last(c: int)
      reads `bufferPos, `state, buffer
    {
      c < 0 || (state == STATE_OK && 0 < bufferPos <= buffer.Length && c == buffer[bufferPos - 1])
    }

    constructor (text: seq<byte>, convert: seq<byte> -> Option<Double>)
      requires 0 !in text
      ensures Valid() && left == Readable(text) && this.text == text && this.convert == convert && fresh(buffer)
      ensures fails <==> |Readable(text)| < |text|
    {
      hide Readable;
      this.text, this.convert := text, convert;
      buffer := new byte[5](_ => 0);
      pos, bufferPos, state, saved, token := 0, 0, STATE_OK, [], NoToken;
      filled, left := 0, Readable(text);
      fails := |Readable(text)| < |text|;
      new;
      assert text[0..] == text;
    }

    /** Fetches the next sequence into the used-up buffer. */
    method Fill() returns (ok: bool)
      requires Valid() && state == STATE_OK && bufferPos == filled
      modifies `pos, `bufferPos, `state, `filled, buffer
      ensures Valid() && (ok <==> left != []) && (ok <==> state == STATE_OK)
      ensures ok ==> bufferPos < filled
    {
      hide Readable, CheckFull, CheckFirst;
      ghost var rest := text[pos..];
      assert left == Readable(rest);
      if pos == |text| {
        state := STATE_EOF;
        return false;
      }
      ReadableStep(text, pos);
      var c := text[pos];
      buffer[0] := c;
      bufferPos := 0;
      var count := CheckFirst(c);
      if c >= 0x80 {
        if count == 0 {
          pos := pos + 1;
          state := STATE_ERROR;
          return false;
        }
        var full := Fetch(rest, count);
        if full.None? {
          state := STATE_ERROR;
          return false;
        }
        buffer[count] := 0;
      } else {
        pos := pos + 1;
        buffer[1] := 0;
      }
      filled := count;
      assert buffer[0..count] == rest[..count];
      forall i | 0 <= i < count ensures buffer[i] != 0 {
        assert buffer[i] == rest[i] && rest[i] in text;
      }
      ok := true;
    }

    /** Reads the rest of a sequence of count octets and checks it; past the end there are no continuation octets. */
    method Fetch(ghost rest: seq<byte>, count: nat) returns (full: Option<nat>)
      requires buffer.Length == 5 && pos < |text| && rest == text[pos..] && 2 <= count <= 4 && buffer[0] == text[pos]
      modifies `pos, buffer
      ensures full == CheckFull(rest, count) && pos <= |text|
      ensures full.Some? ==> pos == old(pos) + count && buffer[..count] == rest[..count]
    {
      pos := pos + 1;
      for i := 1 to count
        invariant pos == (if old(pos) + i <= |text| then old(pos) + i else |text|)
        invariant forall k :: 0 <= k < i ==> buffer[k] == if k < |rest| then rest[k] else 0xFF
      {
        if pos < |text| {
          buffer[i] := text[pos];
          pos := pos + 1;
        } else {
          buffer[i] := 0xFF;
        }
      }
      var fetched := buffer[..count];
      full := CheckFullAt(fetched, 0, count);
      assert fetched[0..] == fetched;
      if count <= |rest| {
        assert fetched == rest[..count];
        FullPrefix(fetched, rest, count);
      } else {
        assert !IsContinuation(fetched[count - 1]);
      }
    }

    /** The next octet, as fgetc gives it; a negative state at the end. */
    method Get() returns (c: int)
      requires Valid()
      modifies `pos, `bufferPos, `state, `filled, `left, buffer
      ensures Valid() && Last(c)
      ensures if old(left) == [] then c == (if fails then STATE_ERROR else STATE_EOF) && left == []
              else c == old(left)[0] && left == old(left)[1..]
    {
      hide Readable;
      if state != STATE_OK {
        return state;
      }
      if buffer[bufferPos] == 0 {
        var ok := Fill();
        if !ok {
          return state;
        }
      }
      c := buffer[bufferPos];
      assert buffer[bufferPos..filled] == [c] + buffer[bufferPos + 1..filled];
      Tail(c, buffer[bufferPos + 1..filled], Readable(text[pos..]));
      bufferPos := bufferPos + 1;
      left := left[1..];
    }

    /** Puts the octet read last back. */
    method Unget(c: int)
      requires Valid() && Last(c)
      modifies `bufferPos, `left
      ensures Valid() && left == (if c < 0 then old(left) else [c] + old(left))
    {
      hide Readable;
      if c == STATE_EOF || c == STATE_ERROR {
        return;
      }
      if c >= 0 {
        assert buffer[bufferPos - 1..filled] == [c] + buffer[bufferPos..filled];
        bufferPos := bufferPos - 1;
        left := [buffer[bufferPos]] + left;
      }
    }

    method GetSave() returns (c: int)
      requires Valid()
      modifies `pos, `bufferPos, `state, `filled, `left, `saved, buffer
      ensures Valid() && Last(c)
      ensures if old(left) == [] then
              c == (if fails then STATE_ERROR else STATE_EOF) && left == [] && saved == old(saved)
              else c == old(left)[0] && left == old(left)[1..] && saved == old(saved) + [c]
    {
      hide Valid, Last;
      c := Get();
      if c != STATE_EOF && c != STATE_ERROR {
        saved := saved + [c];
      }
    }

    method UngetUnsave(c: int)
      requires Valid() && Last(c) && (c >= 0 ==> saved != [] && saved[|saved| - 1] == c)
      modifies `bufferPos, `left, `saved
      ensures Valid() && left == (if c < 0 then old(left) else [c] + old(left))
      ensures saved == if c < 0 then old(saved) else old(saved[..|saved| - 1])
    {
      hide Valid, Last;
      Unget(c);
      if c >= 0 {
        saved := saved[..|saved| - 1];
      }
    }

    /** k octets of s have been passed, and c, the one after them or the end, has just been read. */
    ghost predicate Reading(s: seq<byte>, k: nat, c: int)
      reads `pos, `bufferPos, `state, `filled, `left, `saved, buffer
    {
      && Valid() && Last(c) && k <= |s|
      && if c >= 0 then k < |s| && s[k] == c && saved == s[..k + 1] && left == s[k + 1..]
         else k == |s| && saved == s && left == []
    }

    /** Passes c and reads on. */
    method More(c: int, ghost s: seq<byte>, ghost k: nat) returns (next: int)
      requires Reading(s, k, c) && c >= 0
      modifies `pos, `bufferPos, `state, `filled, `left, `saved, buffer
      ensures Reading(s, k + 1, next)
    {
      hide Valid, Last;
      next := GetSave();
    }

    method Back(c: int, ghost s: seq<byte>, ghost k: nat)
      requires Reading(s, k, c)
      modifies `bufferPos, `left, `saved
      ensures Valid() && saved == s[..k] && left == s[k..]
    {
      hide Valid, Last;
      UngetUnsave(c);
    }

    /** Passes the digits from k on. */
    method Digits(c: int, ghost s: seq<byte>, ghost k: nat) returns (next: int, ghost end: nat)
      requires Reading(s, k, c)
      modifies `pos, `bufferPos, `state, `filled, `left, `saved, buffer
      ensures Reading(s, end, next) && k <= end && !DigitChar(next) && (DigitChar(c) ==> k < end)
      ensures forall i :: k <= i < end ==> IsDigit(s[i])
    {
      hide Valid, Last;
      next, end := c, k;
      while DigitChar(next)
        invariant Reading(s, end, next) && k <= end && (next == c || k < end)
        invariant forall i :: k <= i < end ==> IsDigit(s[i])
        invariant DigitChar(c) && end == k ==> next == c
        decreases |s| - end
      {
        next := More(next, s, end);
        end := end + 1;
      }
    }

    /** Reads a word whose first letter has been read. */
    method ScanIdentifier(first: byte)
      requires Valid() && saved == [first] && IsAlpha(first)
      modifies this, buffer
      ensures Valid()
      ensures var r := ScanWord([first] + old(left)); token == r.token && (!token.NoToken? ==> left == r.rest)
    {
      hide AlphaRun, Valid, Last;
      ghost var s := [first] + left;
      ghost var k := 1;
      var c := GetSave();
      assert Reading(s, 1, c);
      while AlphaChar(c)
        invariant 1 <= k && Reading(s, k, c) && forall i :: 0 <= i < k ==> IsAlpha(s[i])
        decreases |s| - k
      {
        c := More(c, s, k);
        k := k + 1;
      }
      Back(c, s, k);
      LettersEnd(s, k);
      if saved == TRUE_TEXT {
        token := TrueToken;
      } else if saved == FALSE_TEXT {
        token := FalseToken;
      } else if saved == NULL_TEXT {
        token := NullToken;
      } else {
        token := NoToken;
      }
    }

    /** The integer part of a number: a lone zero, or digits that do not start with one. */
    method ScanIntegerPart(first: int, ghost s: seq<byte>) returns (ok: bool, c: int, ghost j: nat)
      requires Reading(s, 0, first) && (first == MINUS || DigitChar(first))
      modifies `pos, `bufferPos, `state, `filled, `left, `saved, buffer
      ensures Valid()
      ensures if ok then IntegerEnd(s) == Some(j) && Reading(s, j, c) else IntegerEnd(s).None?
    {
      hide DigitRun, Valid, Last;
      c, j := first, 0;
      if c == MINUS {
        c := More(c, s, 0);
        j := 1;
      }
      ghost var i := j;
      assert i == if s[0] == MINUS then 1 else 0;
      if c == 0x30 {
        c := More(c, s, j);
        j := j + 1;
        if DigitChar(c) {
          LeadingZero(s, i);
          Back(c, s, j);
          return false, c, j;
        }
        DigitsEnd(s, i, j);
      } else if DigitChar(c) {
        c, j := Digits(c, s, j);
        DigitsEnd(s, i, j);
      } else {
        DigitsEnd(s, i, i);
        Back(c, s, j);
        return false, c, j;
      }
      ok := true;
    }

    /** The fraction, once its point has been read. */
    method ScanFraction(point: int, ghost s: seq<byte>, ghost j: nat) returns (ok: bool, c: int, ghost k: nat)
      requires Reading(s, j, point) && point == POINT
      modifies `pos, `bufferPos, `state, `filled, `left, `saved, buffer
      ensures Valid()
      ensures if ok then FractionEnd(s, j) == Some(k) && j + 1 < k && Reading(s, k, c) else FractionEnd(s, j).None?
    {
      hide DigitRun, Valid, Last;
      k := j + 1;
      c := Get();
      if !DigitChar(c) {
        Unget(c);
        return false, c, k;
      }
      saved := saved + [c];
      assert Reading(s, k, c);
      c, k := Digits(c, s, k);
      DigitsEnd(s, j + 1, k);
      ok := true;
    }

    /** The exponent, once its letter has been read. */
    method ScanExponent(letter: int, ghost s: seq<byte>, ghost k: nat) returns (ok: bool, c: int, ghost end: nat)
      requires Reading(s, k, letter) && (letter == 0x45 || letter == 0x65)
      modifies `pos, `bufferPos, `state, `filled, `left, `saved, buffer
      ensures Valid()
      ensures if ok then ExponentEnd(s, k) == Some(end) && Reading(s, end, c) else ExponentEnd(s, k).None?
    {
      hide DigitRun, Valid, Last;
      c := More(letter, s, k);
      end := k + 1;
      if c == 0x2B || c == MINUS {
        c := More(c, s, end);
        end := end + 1;
      }
      ghost var e := end;
      if !DigitChar(c) {
        Back(c, s, end);
        return false, c, end;
      }
      c, end := Digits(c, s, end);
      DigitsEnd(s, e, end);
      ok := true;
    }

    /** The rest of a real number, whose integer part ends at j. */
    method ScanReal(first: int, ghost s: seq<byte>, ghost j: nat) returns (ok: bool)
      requires Reading(s, j, first) && (first == POINT || first == 0x45 || first == 0x65)
      modifies `pos, `bufferPos, `state, `filled, `left, `saved, buffer
      ensures Valid()
      ensures var k := RealEnd(s, j); if ok then k.Some? && saved == s[..k.value] && left == s[k.value..] else k.None?
    {
      hide DigitRun, Valid, Last;
      var c := first;
      ghost var k := j;
      if c == POINT {
        ok, c, k := ScanFraction(c, s, j);
        if !ok {
          return;
        }
      }
      if c == 0x45 || c == 0x65 {
        ok, c, k := ScanExponent(c, s, k);
        if !ok {
          return;
        }
      }
      Back(c, s, k);
      ok := true;
    }

    /** Reads a number whose first character has been read. */
    method ScanNumeral(first: byte)
      requires Valid() && Last(first) && saved == [first] && (first == MINUS || IsDigit(first))
      modifies this, buffer
      ensures Valid()
      ensures var r := ScanNumber([first] + old(left), convert);
              token == r.token && (!token.NoToken? ==> left == r.rest)
    {
      hide IntegerEnd, RealEnd, SignedNumber, Valid, Last;
      ghost var s := [first] + left;
      token := NoToken;
      assert Reading(s, 0, first);
      var ok, c, j := ScanIntegerPart(first, s);
      if !ok {
        return;
      }
      if c == POINT || c == 0x45 || c == 0x65 {
        ok := ScanReal(c, s, j);
        if ok {
          var d := convert(saved);
          if d.Some? {
            token := RealToken(d.value);
          }
        }
        return;
      }
      Back(c, s, j);
      IntegerPart(s);
      var value := SignedNumber(saved);
      if INT_MIN <= value <= INT_MAX {
        token := IntegerToken(value);
      }
    }

    /** Passes c, or stays at the end. */
    method Onward(c: int, ghost s: seq<byte>, ghost k: nat) returns (next: int, ghost k': nat)
      requires Reading(s, k, c)
      modifies `pos, `bufferPos, `state, `filled, `left, `saved, buffer
      ensures Reading(s, k', next) && k' == if k < |s| then k + 1 else |s|
    {
      hide Valid, Last;
      next := GetSave();
      k' := if c >= 0 then k + 1 else k;
    }

    /** The six characters of a Unicode escape are passed whatever they are: the test for digits lets all pass. */
    method PassUnicodeEscape(c: int, ghost s: seq<byte>, ghost k: nat) returns (next: int, ghost k': nat)
      requires Reading(s, k, c) && c == LETTER_U
      modifies `pos, `bufferPos, `state, `filled, `left, `saved, buffer
      ensures Reading(s, k', next) && k' == if k + 5 <= |s| then k + 5 else |s|
    {
      hide Reading;
      next, k' := Onward(c, s, k);
      for i := 0 to 4
        invariant Reading(s, k', next) && k' == if k + 1 + i <= |s| then k + 1 + i else |s|
      {
        next, k' := Onward(next, s, k');
      }
    }

    /** Passes one character or escape of a string; fails at the end and on a wrong shape. */
    method PassOne(c: int, ghost s: seq<byte>, ghost k: nat) returns (ok: bool, next: int, ghost k': nat)
      requires Reading(s, k, c) && c != QUOTE
      modifies `pos, `bufferPos, `state, `filled, `left, `saved, buffer
      ensures Valid()
      ensures if ok then k < k' && Reading(s, k', next) && RawLength(s[k..]) == After(k' - k, RawLength(s[k'..]))
              else RawLength(s[k..]).None?
    {
      hide Valid, Last, RawLength, Unescaped;
      RawAt(s, k);
      next, k' := c, k;
      if c < 0 {
        return false, next, k';
      }
      if c < 0x20 {
        Back(c, s, k);
        return false, next, k';
      }
      next := More(c, s, k);
      k' := k + 1;
      if c == BACKSLASH {
        if next == LETTER_U {
          RawAt(s, |s|);
          next, k' := PassUnicodeEscape(next, s, k + 1);
        } else if next >= 0 && Unescaped(next).Some? {
          next := More(next, s, k + 1);
          k' := k + 2;
        } else {
          return false, next, k';
        }
      }
      ok := true;
    }

    /** Reads up to the closing quote, checking the shape of escapes. */
    method ScanRaw() returns (ok: bool)
      requires Valid() && saved == [QUOTE]
      modifies `pos, `bufferPos, `state, `filled, `left, `saved, buffer
      ensures Valid()
      ensures var n := RawLength(old(left));
              if ok then n.Some? && saved == [QUOTE] + old(left)[..n.value + 1] && left == old(left)[n.value + 1..]
                else n.None?
    {
      hide Valid, Last, RawLength, Reading;
      ghost var s := [QUOTE] + left;
      ghost var k := 1;
      assert s[1..] == left;
      var c := First(s);
      while c != QUOTE
        invariant Reading(s, k, c) && 1 <= k <= |s|
        invariant RawLength(s[1..]) == After(k - 1, RawLength(s[k..]))
        decreases |s| - k
      {
        var passed;
        ghost var k';
        passed, c, k' := PassOne(c, s, k);
        if !passed {
          return false;
        }
        Within(c, s, k');
        k := k';
      }
      RawAt(s, k);
      AtQuote(s, k);
      ok := true;
    }

    method First(ghost s: seq<byte>) returns (c: int)
      requires Valid() && saved == [QUOTE] && s == [QUOTE] + left
      modifies `pos, `bufferPos, `state, `filled, `left, `saved, buffer
      ensures Reading(s, 1, c)
    {
      hide Valid, Last;
      c := GetSave();
    }

    lemma Within(c: int, s: seq<byte>, k: nat)
      requires Reading(s, k, c)
      ensures k <= |s|
    {
    }

    lemma AtQuote(s: seq<byte>, k: nat)
      requires Reading(s, k, QUOTE) && 1 <= k && s[0] == QUOTE
      ensures Valid() && k < |s| && s[k] == QUOTE
      ensures var rest := s[1..]; saved == [QUOTE] + rest[..k] && left == rest[k..]
    {
      var rest := s[1..];
      assert rest[k..] == s[k + 1..];
      assert s[..k + 1] == [QUOTE] + rest[..k];
    }

    /** Replaces the escapes in the text up to the closing quote, which bounds every look ahead. */
    method UnescapeSaved(quoted: seq<byte>) returns (t: Text)
      requires RawLength(quoted) == Some(|quoted| - 1)
      ensures t == Unescape(quoted[..|quoted| - 1])
    {
      hide RawLength, Unescape, Encode;
      var out: seq<byte> := [];
      var p := 0;
      ghost var n := |quoted| - 1;
      assert quoted[0..] == quoted && quoted[..n][0..] == quoted[..n];
      PrependNothing(Unescape(quoted[..n]));
      RawAt(quoted, |quoted|);
      while quoted[p] != QUOTE
        invariant p <= n && RawLength(quoted[p..]) == Some(n - p)
        invariant Unescape(quoted[..n]) == Prepend(out, Unescape(quoted[p..n]))
        decreases n - p
      {
        var piece, step := UnescapeOne(quoted, p);
        if !piece.Text? {
          return piece;
        }
        PrependTwice(out, piece.s, Unescape(quoted[p + step..n]));
        out := out + piece.s;
        p := p + step;
      }
      RawAt(quoted, p);
      assert quoted[p..n] == [];
      NothingToUnescape(out);
      t := Text(out);
    }

    /** What the character or the escapes at p stand for, and how many octets they take. */
    method UnescapeOne(quoted: seq<byte>, p: nat) returns (piece: Text, step: nat)
      requires p < |quoted| && quoted[p] != QUOTE && RawLength(quoted[p..]) == Some(|quoted| - 1 - p)
      ensures var n := |quoted| - 1;
              if piece.Text? then
                && 0 < step <= n - p && RawLength(quoted[p + step..]) == Some(n - p - step)
                && Unescape(quoted[p..n]) == Prepend(piece.s, Unescape(quoted[p + step..n]))
              else Unescape(quoted[p..n]) == piece
    {
      hide RawLength, Unescape, Unescaped, Encode, EscapeValue;
      RawAt(quoted, p);
      UnescapeAt(quoted, p, |quoted| - 1);
      if quoted[p] != BACKSLASH {
        return Text([quoted[p]]), 1;
      }
      if quoted[p + 1] != LETTER_U {
        return Text([Unescaped(quoted[p + 1]).value]), 2;
      }
      var v := EscapeValue(quoted[p + 2..p + 6]);
      if v.None? {
        return Aborted, 6;
      }
      var value := v.value;
      step := 6;
      if 0xD800 <= value <= 0xDBFF {
        RawAt(quoted, p + 6);
        if quoted[p + 6] != BACKSLASH || quoted[p + 7] != LETTER_U {
          return Invalid, 6;
        }
        var w := EscapeValue(quoted[p + 8..p + 12]);
        if w.None? {
          return Aborted, 12;
        }
        if !(0xDC00 <= w.value <= 0xDFFF) {
          return Invalid, 12;
        }
        value := (value - 0xD800) * 0x400 + (w.value - 0xDC00) + 0x1_0000;
        step := 12;
      } else if 0xDC00 <= value <= 0xDFFF {
        return Invalid, 6;
      } else if value == 0 {
        return Invalid, 6;
      }
      var octets := new byte[4](_ => 0);
      var length := EncodeInto(value, octets);
      piece := Text(octets[..length.value]);
    }

    /** Reads a string whose opening quote has been read. */
    method ScanQuoted()
      requires Valid() && saved == [QUOTE]
      modifies this, buffer
      ensures Valid()
      ensures var r := ScanString(old(left)); token == r.token && (!token.NoToken? && !token.Abort? ==> left == r.rest)
    {
      hide Valid, RawLength, Unescape;
      ghost var rest := left;
      token := NoToken;
      var ok := ScanRaw();
      if !ok {
        return;
      }
      ghost var n := RawLength(rest).value;
      assert saved[1..] == rest[..n + 1] && rest[..n + 1][..n] == rest[..n];
      RawPrefix(rest, n);
      var t := UnescapeSaved(saved[1..]);
      match t {
        case Text(s) => token := StringToken(s);
        case Invalid => token := NoToken;
        case Aborted => token := Abort;
      }
    }

    /** Reads the next token. */
    method Next()
      requires Valid()
      modifies this, buffer
      ensures Valid()
      ensures var r := Scan(old(left), Src());
              token == r.token && (!token.NoToken? && !token.Abort? ==> left == r.rest)
    {
      hide Valid, Last, ScanString, ScanNumber, ScanWord;
      ghost var rest := left;
      saved := [];
      var c := Get();
      while c == SPACE || c == 0x09 || c == NEWLINE || c == 0x0D
        invariant Valid() && Last(c) && saved == []
        invariant c < 0 ==> left == [] && SkipBlanks(rest) == [] && c == if fails then STATE_ERROR else STATE_EOF
        invariant c >= 0 ==> c < 0x100 && SkipBlanks(rest) == SkipBlanks([c] + left)
        decreases |left|, c
      {
        assert ([c] + left)[1..] == left;
        c := Get();
      }
      if c == STATE_EOF {
        token := Eof;
        return;
      }
      if c == STATE_ERROR {
        token := NoToken;
        return;
      }
      ghost var s: seq<byte> := [c] + left;
      assert s[0] == c && !IsBlank(s[0]) && s[1..] == left;
      saved := [c];
      if IsPunctuation(c) {
        token := Punctuation(c);
      } else if c == QUOTE {
        ScanQuoted();
      } else if DigitChar(c) || c == MINUS {
        ScanNumeral(c);
      } else if AlphaChar(c) {
        ScanIdentifier(c);
      } else {
        token := NoToken;
      }
    }
  }

  lemma LeadingZero(s: seq<byte>, i: nat)
    requires i + 1 < |s| && s[i] == 0x30 && IsDigit(s[i + 1]) && i == if s[0] == MINUS then 1 else 0
    ensures IntegerEnd(s).None?
  {
    assert s[i..][0] == s[i] && s[i..][1] == s[i + 1];
  }

  lemma RawAt(s: seq<byte>, k: nat)
    requires k <= |s|
    ensures RawLength(s[k..]) ==
            if k == |s| then None
            else if s[k] == QUOTE then Some(0)
            else if s[k] < 0x20 then None
            else if s[k] != BACKSLASH then After(1, RawLength(s[k + 1..]))
            else if k + 1 == |s| then None
            else if s[k + 1] == LETTER_U then if k + 6 > |s| then None else After(6, RawLength(s[k + 6..]))
            else if Unescaped(s[k + 1]).Some? then After(2, RawLength(s[k + 2..]))
            else None
  {
    hide Unescaped;
    var t := s[k..];
    if t != [] {
      assert t[1..] == s[k + 1..];
      if |t| >= 2 {
        assert t[2..] == s[k + 2..];
        if |t| >= 6 {
          assert t[6..] == s[k + 6..];
        }
      }
    }
  }

  lemma SliceOfSlice(s: seq<byte>, p: nat, n: nat, a: nat, b: nat)
    requires a <= b && p + b <= n <= |s|
    ensures s[p..n][a..b] == s[p + a..p + b]
  {
    var x, y := s[p..n][a..b], s[p + a..p + b];
    assert |x| == |y|;
    forall i | 0 <= i < |x| ensures x[i] == y[i] {
      assert x[i] == s[p..n][a + i] == s[p + a + i];
    }
  }

  lemma UnescapeAt(s: seq<byte>, p: nat, n: nat)
    requires p < n <= |s|
    ensures Unescape(s[p..n]) ==
            if s[p] != BACKSLASH then Prepend([s[p]], Unescape(s[p + 1..n]))
            else if p + 2 > n then Invalid
            else if s[p + 1] != LETTER_U then
              if Unescaped(s[p + 1]).None? then Invalid else Prepend([Unescaped(s[p + 1]).value], Unescape(s[p + 2..n]))
            else if p + 6 > n then Invalid
            else
              var v := EscapeValue(s[p + 2..p + 6]);
              if v.None? then Aborted
              else if 0xD800 <= v.value <= 0xDBFF then
                if p + 12 > n || s[p + 6] != BACKSLASH || s[p + 7] != LETTER_U then Invalid else
                var w := EscapeValue(s[p + 8..p + 12]);
                if w.None? then Aborted
                else if !(0xDC00 <= w.value <= 0xDFFF) then Invalid
                else Prepend(Encode((v.value - 0xD800) * 0x400 + (w.value - 0xDC00) + 0x1_0000), Unescape(s[p + 12..n]))
              else if 0xDC00 <= v.value <= 0xDFFF || v.value == 0 then Invalid
              else Prepend(Encode(v.value), Unescape(s[p + 6..n]))
  {
    hide Unescaped, EscapeValue, Encode;
    var t := s[p..n];
    assert t[1..] == s[p + 1..n];
    if |t| >= 2 {
      assert t[2..] == s[p + 2..n];
    }
    if |t| >= 6 {
      SliceOfSlice(s, p, n, 2, 6);
      assert t[6..] == s[p + 6..n];
    }
    if |t| >= 12 {
      SliceOfSlice(s, p, n, 8, 12);
      assert t[12..] == s[p + 12..n];
    }
  }

  lemma NothingToUnescape(out: seq<byte>)
    ensures Prepend(out, Unescape([])) == Text(out)
  {
    assert out + [] == out;
  }

  /** The first character or escape is the same however much follows it, as long as the quote stays. */
  lemma RawPrefixStep(s: seq<byte>, n: nat) returns (k: nat)
    requires 0 < n < |s| && RawLength(s) == Some(n)
    ensures 0 < k <= n && RawLength(s[k..]) == Some(n - k)
    ensures RawLength(s[..n + 1]) == After(k, RawLength(s[k..n + 1]))
  {
    hide RawLength, Unescaped;
    k := if s[0] != BACKSLASH then 1 else if s[1] == LETTER_U then 6 else 2;
    var t := s[..n + 1];
    RawAt(s, 0);
    RawAt(t, 0);
    assert s[0..] == s && t[0..] == t;
    assert k <= n ==> t[k..] == s[k..n + 1];
  }

  /** What follows the closing quote does not matter. */
  lemma {:induction false} RawPrefix(s: seq<byte>, n: nat)
    requires RawLength(s) == Some(n)
    ensures RawLength(s[..n + 1]) == Some(n)
    decreases n
  {
    hide RawLength;
    if n == 0 {
      RawAt(s, 0);
      RawAt(s[..1], 0);
      assert s[0..] == s && s[..1][0..] == s[..1];
    } else {
      var k := RawPrefixStep(s, n);
      RawPrefix(s[k..], n - k);
      assert s[k..][..n - k + 1] == s[k..n + 1];
    }
  }
}
