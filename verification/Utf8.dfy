/** UTF-8 (RFC 3629, section 4): encoding code points, and checking and decoding octets. */
module Utf8 {
  import opened Bytes
  import opened Wrappers

  /** A Unicode scalar value: a code point that is not a UTF-16 surrogate half. */
  predicate IsScalar(c: int) {
    0 <= c <= 0x10FFFF && !(0xD800 <= c <= 0xDFFF)
  }

  /** Section 3 of RFC 3629: the octets of a code point. */
  function Encode(c: int): (s: seq<byte>)
    requires 0 <= c <= 0x10FFFF
    ensures 1 <= |s| <= 4 && (|s| == 1 <==> c < 0x80)
  {
    if c < 0x80 then [c]
    else if c < 0x800 then [0xC0 + c / 0x40, 0x80 + c % 0x40]
    else if c < 0x1_0000 then [0xE0 + c / 0x40 / 0x40, 0x80 + c / 0x40 % 0x40, 0x80 + c % 0x40]
    else [0xF0 + c / 0x40 / 0x40 / 0x40, 0x80 + c / 0x40 / 0x40 % 0x40, 0x80 + c / 0x40 % 0x40, 0x80 + c % 0x40]
  }

  /** Octet sequences given in RFC 3629, section 7, and one of two octets. */
  lemma Examples()
    ensures Encode(0x41) == [0x41] && Encode(0x2262) == [0xE2, 0x89, 0xA2] && Encode(0x391) == [0xCE, 0x91]
    ensures Encode(0xD55C) == [0xED, 0x95, 0x9C] && Encode(0x65E5) == [0xE6, 0x97, 0xA5]
    ensures Encode(0xFEFF) == [0xEF, 0xBB, 0xBF] && Encode(0x233B4) == [0xF0, 0xA3, 0x8E, 0xB4]
  {
  }

  lemma Digit(q: nat, r: nat)
    requires r < 0x40
    ensures (q * 0x40 + r) / 0x40 == q && (q * 0x40 + r) % 0x40 == r
  {
  }

  /** The octets of a code point given by its digits in base 64. */
  lemma EncodeDigits(n: nat, a: nat, b: nat, d: nat, e: nat)
    requires b < 0x40 && d < 0x40 && e < 0x40
    ensures n == 2 ==> var c := a * 0x40 + e; a < 0x20 && 0x80 <= c ==> Encode(c) == [0xC0 + a, 0x80 + e]
    ensures n == 3 ==> var c := (a * 0x40 + d) * 0x40 + e; a < 0x10 && 0x800 <= c ==>
            Encode(c) == [0xE0 + a, 0x80 + d, 0x80 + e]
    ensures n == 4 ==> var c := ((a * 0x40 + b) * 0x40 + d) * 0x40 + e;
              a < 5 && 0x1_0000 <= c <= 0x10FFFF ==> Encode(c) == [0xF0 + a, 0x80 + b, 0x80 + d, 0x80 + e]
  {
    if n == 2 {
      Digit(a, e);
    } else if n == 3 {
      Digit(a, d);
      Digit(a * 0x40 + d, e);
    } else {
      Digit(a, b);
      Digit(a * 0x40 + b, d);
      Digit((a * 0x40 + b) * 0x40 + d, e);
    }
  }

  /** The bits a mask selects, moved down, are digits in base 64. */
  lemma Masks(c: nat)
    ensures c % 0x1000 / 0x40 == c / 0x40 % 0x40
    ensures c % 0x4_0000 / 0x1000 == c / 0x40 / 0x40 % 0x40
    ensures c / 0x1000 == c / 0x40 / 0x40 && c / 0x4_0000 == c / 0x40 / 0x40 / 0x40
  {
    var q, r := c / 0x40, c % 0x40;
    var q1, r1 := q / 0x40, q % 0x40;
    var q2, r2 := q1 / 0x40, q1 % 0x40;
    assert c == q1 * 0x1000 + (r1 * 0x40 + r);
    ModUnique(c, 0x1000, q1, r1 * 0x40 + r);
    Digit(r1, r);
    assert c == q2 * 0x4_0000 + (r2 * 0x1000 + r1 * 0x40 + r);
    ModUnique(c, 0x4_0000, q2, r2 * 0x1000 + r1 * 0x40 + r);
    ModUnique(r2 * 0x1000 + r1 * 0x40 + r, 0x1000, r2, r1 * 0x40 + r);
  }

  /** The masked and shifted bits are the digits that the encoding is made of. */
  lemma MaskedOctets(c: nat)
    requires c <= 0x10FFFF
    ensures c % 0x1000 / 0x40 < 0x40 && c % 0x4_0000 / 0x1000 < 0x40
    ensures 0x80 <= c < 0x800 ==> c % 0x800 / 0x40 < 0x20 && Encode(c) == [0xC0 + c % 0x800 / 0x40, 0x80 + c % 0x40]
    ensures 0x800 <= c < 0x1_0000 ==>
              c % 0x1_0000 / 0x1000 < 0x10
                && Encode(c) == [0xE0 + c % 0x1_0000 / 0x1000, 0x80 + c % 0x1000 / 0x40, 0x80 + c % 0x40]
    ensures 0x1_0000 <= c ==>
              && c % 0x20_0000 / 0x4_0000 < 5
              && Encode(c) == [0xF0 + c % 0x20_0000 / 0x4_0000, 0x80 + c % 0x4_0000 / 0x1000,
                               0x80 + c % 0x1000 / 0x40, 0x80 + c % 0x40]
  {
    Masks(c);
    assert c < 0x800 ==> c % 0x800 == c;
    assert c < 0x1_0000 ==> c % 0x1_0000 == c;
    assert c % 0x20_0000 == c;
  }

  /** Writes the octets of a code point; anything out of range is refused. */
  method EncodeInto(codepoint: int, buffer: array<byte>) returns (r: Option<nat>)
    requires buffer.Length >= 4
    modifies buffer
    ensures r.Some? <==> 0 <= codepoint <= 0x10FFFF
    ensures r.Some? ==> r.value <= 4 && buffer[..r.value] == Encode(codepoint)
  {
    if codepoint < 0 {
      return None;
    }
    if codepoint < 0x80 {
      buffer[0] := codepoint;
      return Some(1);
    }
    hide Encode;
    if codepoint <= 0x10FFFF {
      MaskedOctets(codepoint);
    }
    if codepoint < 0x800 {
      buffer[0] := 0xC0 + codepoint % 0x800 / 0x40;
      buffer[1] := 0x80 + codepoint % 0x40;
      r := Some(2);
    } else if codepoint < 0x1_0000 {
      buffer[0] := 0xE0 + codepoint % 0x1_0000 / 0x1000;
      buffer[1] := 0x80 + codepoint % 0x1000 / 0x40;
      buffer[2] := 0x80 + codepoint % 0x40;
      r := Some(3);
    } else if codepoint <= 0x10FFFF {
      buffer[0] := 0xF0 + codepoint % 0x20_0000 / 0x4_0000;
      buffer[1] := 0x80 + codepoint % 0x4_0000 / 0x1000;
      buffer[2] := 0x80 + codepoint % 0x1000 / 0x40;
      buffer[3] := 0x80 + codepoint % 0x40;
      r := Some(4);
    } else {
      r := None;
    }
  }

  /** How many octets the sequence starting with u has; 0 if none can start with u. */
  function CheckFirst(u: byte): (n: nat)
    ensures n <= 4 && (n == 1 <==> u < 0x80)
  {
    if u < 0x80 then 1
    else if u <= 0xBF then 0               // a continuation octet
    else if u == 0xC0 || u == 0xC1 then 0  // an overlong encoding of ASCII
    else if u <= 0xDF then 2
    else if u <= 0xEF then 3
    else if u <= 0xF4 then 4
    else 0
  }

  predicate IsContinuation(u: byte) {
    0x80 <= u <= 0xBF
  }

  /** The six bits a continuation octet carries. */
  function Six(u: byte): (n: nat)
    ensures n < 0x40 && (IsContinuation(u) ==> u == 0x80 + n)
  {
    u % 0x40
  }

  /** The value gathered from the first octet's low bits and the first k continuation octets. */
  function Gather(s: seq<byte>, first: nat, k: nat): nat
    requires k < |s|
  {
    if k == 0 then first else Gather(s, first, k - 1) * 0x40 + Six(s[k])
  }

  function FirstBits(u: byte, size: nat): nat {
    if size == 2 then u % 0x20 else if size == 3 then u % 0x10 else u % 8
  }

  /** In range, no surrogate half, and not encodable in fewer octets. */
  predicate Acceptable(value: nat, size: nat) {
    && value <= 0x10FFFF && !(0xD800 <= value <= 0xDFFF)
    && (size == 2 ==> value >= 0x80) && (size == 3 ==> value >= 0x800) && (size == 4 ==> value >= 0x1_0000)
  }

  /** The code point of a multi-octet sequence of size octets at the start of s, if it is one. */
  function CheckFull(s: seq<byte>, size: nat): Option<nat> {
    if !(2 <= size <= 4) || |s| < size then None
    else if exists i :: 1 <= i < size && !IsContinuation(s[i]) then None
    else
      var value := Gather(s, FirstBits(s[0], size), size - 1);
      if Acceptable(value, size) then Some(value) else None
  }

  /** Checks the octets from i on; the terminator of a string is no continuation octet, so that none past it is read. */
  method CheckFullAt(s: seq<byte>, at: nat, size: nat) returns (r: Option<nat>)
    requires at < |s|
    ensures r == CheckFull(s[at..], size)
  {
    var u := s[at];
    var value: nat;
    if size == 2 {
      value := u % 0x20;
    } else if size == 3 {
      value := u % 0x10;
    } else if size == 4 {
      value := u % 8;
    } else {
      return None;
    }
    ghost var t := s[at..];
    for i := 1 to size
      invariant at + i <= |s|
      invariant forall j :: 1 <= j < i ==> IsContinuation(t[j])
      invariant value == Gather(t, FirstBits(t[0], size), i - 1)
    {
      if at + i >= |s| {
        return None;
      }
      u := s[at + i];
      assert u == t[i];
      if u < 0x80 || u > 0xBF {
        return None;
      }
      value := value * 0x40 + Six(u);
    }
    if value > 0x10FFFF {
      return None;
    } else if 0xD800 <= value <= 0xDFFF {
      return None;
    } else if (size == 2 && value < 0x80) || (size == 3 && value < 0x800) || (size == 4 && value < 0x1_0000) {
      return None;
    }
    r := Some(value);
  }

  // ---------- checking undoes encoding ----------

  /** The value in terms of the bits of each octet. */
  lemma Gathered(s: seq<byte>, first: nat)
    ensures |s| >= 2 ==> Gather(s, first, 1) == first * 0x40 + Six(s[1])
    ensures |s| >= 3 ==> Gather(s, first, 2) == (first * 0x40 + Six(s[1])) * 0x40 + Six(s[2])
    ensures |s| >= 4 ==> Gather(s, first, 3) == ((first * 0x40 + Six(s[1])) * 0x40 + Six(s[2])) * 0x40 + Six(s[3])
  {
    if |s| >= 2 {
      assert Gather(s, first, 0) == first;
      assert Gather(s, first, 1) == first * 0x40 + Six(s[1]);
    }
    if |s| >= 3 {
      assert Gather(s, first, 2) == Gather(s, first, 1) * 0x40 + Six(s[2]);
    }
  }

  /** What the two checks make of an encoded code point, whatever follows it. */
  lemma EncodedIsAccepted(c: int, rest: seq<byte>)
    requires IsScalar(c)
    ensures var s := Encode(c) + rest;
            && CheckFirst(s[0]) == |Encode(c)|
            && (c >= 0x80 ==> CheckFull(s, |Encode(c)|) == Some(c))
  {
    hide Gather;
    var e := Encode(c);
    var s, n := e + rest, |e|;
    if n > 1 {
      EncodedBits(c);
      Gathered(s, FirstBits(s[0], n));
      assert forall i :: 1 <= i < n ==> s[i] == e[i];
    }
  }

  lemma EncodedBits(c: int)
    requires 0x80 <= c <= 0x10FFFF
    ensures var e := Encode(c);
            && FirstBits(e[0], |e|) ==
               (if |e| == 2 then c / 0x40 else if |e| == 3 then c / 0x40 / 0x40 else c / 0x40 / 0x40 / 0x40)
            && (forall i :: 1 <= i < |e| ==> IsContinuation(e[i]))
            && Six(e[|e| - 1]) == c % 0x40
            && (|e| >= 3 ==> Six(e[|e| - 2]) == c / 0x40 % 0x40)
            && (|e| == 4 ==> Six(e[1]) == c / 0x40 / 0x40 % 0x40)
  {
    hide Six, FirstBits;
    Carried(c % 0x40);
    Carried(c / 0x40 % 0x40);
    Carried(c / 0x40 / 0x40 % 0x40);
    Leading(if c < 0x800 then c / 0x40 else if c < 0x1_0000 then c / 0x40 / 0x40 else c / 0x40 / 0x40 / 0x40);
  }

  lemma Carried(n: nat)
    requires n < 0x40
    ensures IsContinuation(0x80 + n) && Six(0x80 + n) == n
  {
  }

  lemma Leading(n: nat)
    ensures n < 0x20 ==> FirstBits(0xC0 + n, 2) == n
    ensures n < 0x10 ==> FirstBits(0xE0 + n, 3) == n
    ensures n < 8 ==> FirstBits(0xF0 + n, 4) == n
  {
  }

  /** What the first octet says about the length is where its bits are. */
  lemma LeadingBits(u: byte)
    ensures CheckFirst(u) == 2 ==> FirstBits(u, 2) < 0x20 && u == 0xC0 + FirstBits(u, 2)
    ensures CheckFirst(u) == 3 ==> FirstBits(u, 3) < 0x10 && u == 0xE0 + FirstBits(u, 3)
    ensures CheckFirst(u) == 4 ==> FirstBits(u, 4) < 5 && u == 0xF0 + FirstBits(u, 4)
  {
  }

  /** Whatever the two checks accept is the encoding of the scalar value they find. */
  lemma AcceptedIsEncoded(s: seq<byte>)
    requires s != [] && CheckFirst(s[0]) >= 2 && CheckFull(s, CheckFirst(s[0])).Some?
    ensures var n, c := CheckFirst(s[0]), CheckFull(s, CheckFirst(s[0])).value;
            IsScalar(c) && c >= 0x80 && n <= |s| && s[..n] == Encode(c)
  {
    hide Gather, Six, Encode, CheckFirst, FirstBits;
    var n := CheckFirst(s[0]);
    var first := FirstBits(s[0], n);
    LeadingBits(s[0]);
    Gathered(s, first);
    assert forall i :: 1 <= i < n ==> IsContinuation(s[i]);
    if n == 2 {
      assert s[..n] == [0xC0 + first, 0x80 + Six(s[1])];
      EncodeDigits(2, first, 0, 0, Six(s[1]));
    } else if n == 3 {
      assert s[..n] == [0xE0 + first, 0x80 + Six(s[1]), 0x80 + Six(s[2])];
      EncodeDigits(3, first, 0, Six(s[1]), Six(s[2]));
    } else {
      assert s[..n] == [0xF0 + first, 0x80 + Six(s[1]), 0x80 + Six(s[2]), 0x80 + Six(s[3])];
      EncodeDigits(4, first, Six(s[1]), Six(s[2]), Six(s[3]));
    }
  }

  // ---------- one code point at a time ----------

  /** The code point at the start of s and its length, if there is a valid one. */
  datatype Step = Bad | Step(codepoint: nat, count: nat)

  function Iterate(s: seq<byte>): (r: Step)
    requires s != []
    ensures r.Step? ==> 1 <= r.count <= |s| && IsScalar(r.codepoint) && s[..r.count] == Encode(r.codepoint)
  {
    var n := CheckFirst(s[0]);
    if n == 0 then Bad
    else if n == 1 then Step(s[0], 1)
    else
      var c := CheckFull(s, n);
      if c.None? then Bad else
      AcceptedIsEncoded(s);
      Step(c.value, n)
  }

  lemma IterateEncoded(c: int, rest: seq<byte>)
    requires IsScalar(c)
    ensures Iterate(Encode(c) + rest) == Step(c, |Encode(c)|)
  {
    EncodedIsAccepted(c, rest);
  }

  /** The code points of a valid string. */
  function CodePoints(s: seq<byte>): Option<seq<nat>>
    decreases |s|
  {
    if s == [] then Some([]) else
    var step := Iterate(s);
    if step.Bad? then None else
    var more := CodePoints(s[step.count..]);
    if more.None? then None else Some([step.codepoint] + more.value)
  }

  predicate ValidString(s: seq<byte>) {
    CodePoints(s).Some?
  }

  predicate Scalars(cs: seq<nat>) {
    forall i :: 0 <= i < |cs| ==> IsScalar(cs[i])
  }

  function EncodeAll(cs: seq<nat>): seq<byte>
    requires Scalars(cs)
  {
    if cs == [] then [] else Encode(cs[0]) + EncodeAll(cs[1..])
  }

  /** A string is valid exactly when it is the concatenation of encoded scalar values; which, decoding tells. */
  lemma {:induction false} ValidIsEncoded(s: seq<byte>)
    ensures CodePoints(s).Some? ==>
            Scalars(CodePoints(s).value) && EncodeAll(CodePoints(s).value) == s
    decreases |s|
  {
    hide Iterate, Encode, IsScalar;
    if s != [] && Iterate(s).Step? {
      var step := Iterate(s);
      ValidIsEncoded(s[step.count..]);
      if CodePoints(s).Some? {
        var cs := CodePoints(s).value;
        assert cs[1..] == CodePoints(s[step.count..]).value;
        assert s[..step.count] + s[step.count..] == s;
      }
    }
  }

  lemma {:induction false} EncodedIsValid(cs: seq<nat>)
    requires Scalars(cs)
    ensures CodePoints(EncodeAll(cs)) == Some(cs)
  {
    if cs != [] {
      var e, rest := Encode(cs[0]), EncodeAll(cs[1..]);
      IterateEncoded(cs[0], rest);
      assert (e + rest)[|e|..] == rest;
      EncodedIsValid(cs[1..]);
      assert [cs[0]] + cs[1..] == cs;
    }
  }

  lemma OnePoint(c: nat)
    requires IsScalar(c)
    ensures ValidString(Encode(c))
  {
    EncodedIsValid([c]);
    assert EncodeAll([c]) == Encode(c) + EncodeAll([]) == Encode(c);
  }

  /** Valid strings can be put together. */
  lemma {:induction false} ValidConcat(a: seq<byte>, b: seq<byte>)
    requires ValidString(a)
    ensures ValidString(a + b) == ValidString(b)
    decreases |a|
  {
    hide Encode, IsScalar;
    if a == [] {
      assert a + b == b;
    } else {
      var step := Iterate(a);
      var rest := a[step.count..];
      ValidConcat(rest, b);
      IterateAgain(a, b);
      assert (a + b)[step.count..] == rest + b;
    }
  }

  lemma IterateAgain(a: seq<byte>, b: seq<byte>)
    requires a != [] && Iterate(a).Step?
    ensures Iterate(a + b) == Iterate(a)
  {
    var step := Iterate(a);
    assert a + b == Encode(step.codepoint) + (a[step.count..] + b);
    assert a == Encode(step.codepoint) + a[step.count..];
    IterateEncoded(step.codepoint, a[step.count..] + b);
    IterateEncoded(step.codepoint, a[step.count..]);
  }

  /** ASCII is valid. */
  lemma {:induction false} AsciiIsValid(s: seq<byte>)
    requires forall i :: 0 <= i < |s| ==> s[i] < 0x80
    ensures ValidString(s)
  {
    if s != [] {
      AsciiIsValid(s[1..]);
    }
  }

  lemma ValidAt(s: seq<byte>, i: nat)
    requires i < |s|
    ensures var n := CheckFirst(s[i]);
            var here := n == 1 || (n > 1 && i + n <= |s| && CheckFull(s[i..], n).Some?);
            && (here ==> i + n <= |s|)
            && ValidString(s[i..]) == (here && ValidString(s[i + n..]))
  {
    hide CheckFull, CheckFirst, Encode, IsScalar;
    var t := s[i..];
    assert t[0] == s[i];
    var step := Iterate(t);
    if step.Step? {
      assert t[step.count..] == s[i + step.count..];
    }
    TooShort(t, CheckFirst(t[0]));
  }

  lemma TooShort(s: seq<byte>, n: nat)
    ensures CheckFull(s, n).Some? ==> n <= |s|
  {
  }

  /** Walks a string and accepts it exactly when it is valid. */
  method CheckString(s: seq<byte>) returns (ok: bool)
    ensures ok == ValidString(s)
  {
    hide ValidString, CheckFull, CheckFirst;
    var i := 0;
    assert s[0..] == s;
    while i < |s|
      invariant i <= |s| && ValidString(s) == ValidString(s[i..])
    {
      ValidAt(s, i);
      var count := CheckFirst(s[i]);
      if count == 0 {
        return false;
      } else if count > 1 {
        if i + count > |s| {
          return false;
        }
        var full := CheckFullAt(s, i, count);
        if full.None? {
          return false;
        }
      }
      i := i + count;
    }
    AsciiIsValid(s[i..]);
    ok := true;
  }
}
