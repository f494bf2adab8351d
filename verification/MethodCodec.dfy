/**
  The generator of method encoders and decoders: it walks a list of field types and emits straight-line
  statements, packing runs of bits into octets (AMQP 0-9-1, section 4.2.5.2).  The emitted statements are
  executed here by an interpreter, so that the generated code itself is what is reasoned about.
 */
module MethodCodec {
  import opened Bytes
  import TC = TableCodec
  import opened Wrappers
  import opened Sequences

  // ---------- fields of a method ----------

  /** Integer(n): n octets; Str(n): octets after an n-octet length; Bit; Tab: a field table. */
  datatype Type = Integer(width: nat) | Str(lenWidth: nat) | Bit | Tab

  datatype Value = IntV(n: nat) | StrV(s: seq<byte>) | BitV(b: bool) | TabV(t: seq<TC.Entry>)

  predicate ValidType(ty: Type) {
    match ty
    case Integer(w) => w == 1 || w == 2 || w == 4 || w == 8
    case Str(w) => w == 1 || w == 4
    case _ => true
  }

  /** A C value of the type: integers fit their width. */
  predicate HasType(ty: Type, v: Value) {
    match ty
    case Integer(w) => v.IntV? && v.n < Pow256(w)
    case Str(_) => v.StrV?
    case Bit => v.BitV?
    case Tab => v.TabV? && TC.KnownTable(v.t)
  }

  /** The value survives the wire: string and key lengths fit their length fields. */
  predicate Representable(ty: Type, v: Value)
    requires HasType(ty, v)
  {
    match ty
    case Str(w) => |v.s| < Pow256(w)
    case Tab => TC.KeysFitTable(v.t)
    case _ => true
  }

  // ---------- the emitted statements ----------

  datatype EncStmt =
    | PutField(index: nat)              // encode integer, string or table number index
    | ClearBits                         // bit_buffer = 0
    | OrBit(index: nat, k: nat)         // if (field) bit_buffer |= 1 << k
    | PutBits                           // encode bit_buffer as one octet

  datatype DecStmt =
    | GetField(index: nat)              // decode integer, string or table number index
    | GetBits                           // decode one octet into bit_buffer
    | TakeBit(index: nat, k: nat)       // field = (bit_buffer & (1 << k)) ? 1 : 0

  /** Tracks the bit position while encoding statements are emitted. */
  class BitEncoder {
    var bit: nat
    var out: seq<EncStmt>

    constructor ()
      ensures bit == 0 && out == []
    {
      bit, out := 0, [];
    }

    method Flush()
      modifies this
      ensures bit == 0 && out == old(out) + (if old(bit) != 0 then [PutBits] else [])
    {
      if bit != 0 {
        out := out + [PutBits];
        bit := 0;
      }
    }

    method Emit(s: EncStmt)
      modifies this
      ensures bit == 0 && out == old(out) + (if old(bit) != 0 then [PutBits] else []) + [s]
    {
      Flush();
      out := out + [s];
    }

    method EncodeBit(index: nat)
      requires bit < 8
      modifies this
      ensures bit == (old(bit) + 1) % 8
      ensures out == old(out) + (if old(bit) == 0 then [ClearBits] else []) + [OrBit(index, old(bit))]
                     + (if old(bit) == 7 then [PutBits] else [])
    {
      if bit == 0 {
        out := out + [ClearBits];
      }
      out := out + [OrBit(index, bit)];
      bit := bit + 1;
      if bit == 8 {
        Flush();
      }
    }
  }

  /** Tracks the bit position while decoding statements are emitted. */
  class BitDecoder {
    var bit: nat
    var out: seq<DecStmt>

    constructor ()
      ensures bit == 0 && out == []
    {
      bit, out := 0, [];
    }

    method Emit(s: DecStmt)
      modifies this
      ensures bit == 0 && out == old(out) + [s]
    {
      bit := 0;
      out := out + [s];
    }

    method DecodeBit(index: nat)
      requires bit < 8
      modifies this
      ensures bit == (old(bit) + 1) % 8
      ensures out == old(out) + (if old(bit) == 0 then [GetBits] else []) + [TakeBit(index, old(bit))]
    {
      if bit == 0 {
        out := out + [GetBits];
      }
      out := out + [TakeBit(index, bit)];
      bit := bit + 1;
      if bit == 8 {
        bit := 0;
      }
    }
  }

  /** The encoding statements for the fields from index i on, when bit bits are pending. */
  function EncStmts(types: seq<Type>, i: nat, bit: nat): seq<EncStmt>
    requires i <= |types| && bit < 8
    decreases |types| - i
  {
    var flush := if bit != 0 then [PutBits] else [];
    if i == |types| then flush
    else if types[i] == Bit then
      (if bit == 0 then [ClearBits] else []) + [OrBit(i, bit)] + (if bit == 7 then [PutBits] else [])
        + EncStmts(types, i + 1, (bit + 1) % 8)
    else flush + [PutField(i)] + EncStmts(types, i + 1, 0)
  }

  function DecStmts(types: seq<Type>, i: nat, bit: nat): seq<DecStmt>
    requires i <= |types| && bit < 8
    decreases |types| - i
  {
    if i == |types| then []
    else if types[i] == Bit then
      (if bit == 0 then [GetBits] else []) + [TakeBit(i, bit)] + DecStmts(types, i + 1, (bit + 1) % 8)
    else [GetField(i)] + DecStmts(types, i + 1, 0)
  }

  /** What the emitter appends for field i is what the statement list says. */
  lemma EmittedStep(types: seq<Type>, i: nat, bit: nat, before: seq<EncStmt>)
    requires i < |types| && bit < 8
    ensures types[i] == Bit ==>
              before + EncStmts(types, i, bit) ==
              before + (if bit == 0 then [ClearBits] else []) + [OrBit(i, bit)] + (if bit == 7 then [PutBits] else [])
                + EncStmts(types, i + 1, (bit + 1) % 8)
    ensures types[i] != Bit ==>
              before + EncStmts(types, i, bit) ==
              before + (if bit != 0 then [PutBits] else []) + [PutField(i)] + EncStmts(types, i + 1, 0)
  {
    if types[i] == Bit {
      var a, b, c := if bit == 0 then [ClearBits] else [], [OrBit(i, bit)], if bit == 7 then [PutBits] else [];
      var d := EncStmts(types, i + 1, (bit + 1) % 8);
      assert before + (a + b + c + d) == before + a + b + c + d;
    } else {
      var a, d := if bit != 0 then [PutBits] else [], EncStmts(types, i + 1, 0);
      assert before + (a + [PutField(i)] + d) == before + a + [PutField(i)] + d;
    }
  }

  method GenEncodeMethodFields(types: seq<Type>) returns (stmts: seq<EncStmt>)
    ensures stmts == EncStmts(types, 0, 0)
  {
    var emitter := new BitEncoder();
    var i := 0;
    while i < |types|
      invariant 0 <= i <= |types| && emitter.bit < 8 && fresh(emitter)
      invariant emitter.out + EncStmts(types, i, emitter.bit) == EncStmts(types, 0, 0)
    {
      ghost var before, bit := emitter.out, emitter.bit;
      if types[i] == Bit {
        emitter.EncodeBit(i);
      } else {
        emitter.Emit(PutField(i));
      }
      assert before + EncStmts(types, i, bit) == emitter.out + EncStmts(types, i + 1, emitter.bit) by {
        EmittedStep(types, i, bit, before);
      }
      i := i + 1;
    }
    emitter.Flush();
    stmts := emitter.out;
  }

  method GenDecodeMethodFields(types: seq<Type>) returns (stmts: seq<DecStmt>)
    ensures stmts == DecStmts(types, 0, 0)
  {
    var emitter := new BitDecoder();
    var i := 0;
    while i < |types|
      invariant 0 <= i <= |types| && emitter.bit < 8 && fresh(emitter)
      invariant emitter.out + DecStmts(types, i, emitter.bit) == DecStmts(types, 0, 0)
    {
      if types[i] == Bit {
        emitter.DecodeBit(i);
      } else {
        emitter.Emit(GetField(i));
      }
      i := i + 1;
    }
    stmts := emitter.out;
  }

  // ---------- bits of an octet ----------

  function BitsToNat(bits: seq<bool>): nat {
    if bits == [] then 0 else (if bits[0] then 1 else 0) + 2 * BitsToNat(bits[1..])
  }

  function Pow2(n: nat): nat {
    if n == 0 then 1 else 2 * Pow2(n - 1)
  }

  lemma {:induction false} BitsBound(bits: seq<bool>)
    ensures BitsToNat(bits) < Pow2(|bits|)
  {
    if bits != [] {
      BitsBound(bits[1..]);
    }
  }

  /** b & (1 << k). */
  predicate TestBit(b: nat, k: nat) {
    if k == 0 then b % 2 == 1 else TestBit(b / 2, k - 1)
  }

  /** b | (1 << k). */
  function SetBit(b: nat, k: nat): nat {
    if k == 0 then (if b % 2 == 1 then b else b + 1) else 2 * SetBit(b / 2, k - 1) + b % 2
  }

  lemma {:induction false} TestBitOfBits(bits: seq<bool>, k: nat)
    ensures TestBit(BitsToNat(bits), k) <==> k < |bits| && bits[k]
  {
    if bits == [] {
      NoBits(k);
    } else if k > 0 {
      TestBitOfBits(bits[1..], k - 1);
    }
  }

  lemma {:induction false} NoBits(k: nat)
    ensures !TestBit(0, k)
  {
    if k > 0 {
      NoBits(k - 1);
    }
  }

  lemma {:induction false} AppendBit(bits: seq<bool>, b: bool)
    ensures BitsToNat(bits + [b]) == if b then SetBit(BitsToNat(bits), |bits|) else BitsToNat(bits)
  {
    if bits == [] {
      assert [b][1..] == [];
    } else {
      assert (bits + [b])[1..] == bits[1..] + [b];
      AppendBit(bits[1..], b);
    }
  }

  // ---------- the wire format, by runs ----------

  function FieldWire(ty: Type, v: Value): seq<byte>
    requires HasType(ty, v) && ty != Bit
  {
    match ty
    case Integer(w) => BigEndian(w, v.n)
    case Str(w) => BigEndian(w, |v.s|) + v.s
    case Tab => TC.TableBytes(v.t)
  }

  predicate AllTyped(types: seq<Type>, vals: seq<Value>) {
    |types| == |vals| && forall i :: 0 <= i < |types| ==> ValidType(types[i]) && HasType(types[i], vals[i])
  }

  predicate AllRepresentable(types: seq<Type>, vals: seq<Value>)
    requires AllTyped(types, vals)
  {
    forall i :: 0 <= i < |types| ==> Representable(types[i], vals[i])
  }

  /** The values of the consecutive bit fields from i on, at most m of them. */
  function Run(types: seq<Type>, vals: seq<Value>, i: nat, m: nat): (bits: seq<bool>)
    requires AllTyped(types, vals) && i <= |types|
    ensures |bits| <= m && i + |bits| <= |types|
    decreases m
  {
    if m == 0 || i == |types| || types[i] != Bit then [] else [vals[i].b] + Run(types, vals, i + 1, m - 1)
  }

  function Octet(bits: seq<bool>): byte
    requires |bits| <= 8
  {
    BitsBound(bits);
    OctetBound(|bits|);
    BitsToNat(bits)
  }

  lemma {:induction false} OctetBound(n: nat)
    requires n <= 8
    ensures Pow2(n) <= 0x100
  {
    assert Pow2(8) == 0x100 && Pow2(4) == 16;
  }

  /** Fields from i on: each maximal run of bits is cut into octets of eight, lowest bit first. */
  function Wire(types: seq<Type>, vals: seq<Value>, i: nat): seq<byte>
    requires AllTyped(types, vals) && i <= |types|
    decreases |types| - i
  {
    if i == |types| then []
    else if types[i] == Bit then
      var bits := Run(types, vals, i, 8);
      [Octet(bits)] + Wire(types, vals, i + |bits|)
    else FieldWire(types[i], vals[i]) + Wire(types, vals, i + 1)
  }

  // ---------- executing the emitted statements ----------

  /** The octets written into a buffer of cap octets, or None when something does not fit. */
  function RunEnc(types: seq<Type>, stmts: seq<EncStmt>, vals: seq<Value>, cap: nat, out: seq<byte>,
                  bits: nat): Option<seq<byte>>
    requires AllTyped(types, vals)
    decreases stmts
  {
    if stmts == [] then Some(out) else
    match stmts[0]
    case ClearBits => RunEnc(types, stmts[1..], vals, cap, out, 0)
    case OrBit(i, k) =>
      if i < |vals| && types[i] == Bit then
        RunEnc(types, stmts[1..], vals, cap, out, if vals[i].b then SetBit(bits, k) else bits)
      else None
    case PutBits =>
      if |out| + 1 <= cap then RunEnc(types, stmts[1..], vals, cap, out + [bits % 0x100], bits) else None
    case PutField(i) =>
      if i < |vals| && types[i] != Bit && |out| + |FieldWire(types[i], vals[i])| <= cap then
        RunEnc(types, stmts[1..], vals, cap, out + FieldWire(types[i], vals[i]), bits)
      else None
  }

  function DecodeField(ty: Type, buf: seq<byte>, off: nat): (r: TC.Decoded<Value>)
    requires off <= |buf| && ty != Bit
    ensures r.Good? ==> r.next <= |buf|
  {
    match ty
    case Integer(w) =>
      var n := TC.DecWord(buf, w, off);
      if n.Bad? then TC.Bad else TC.Good(IntV(n.value), n.next)
    case Str(w) =>
      var len := TC.DecWord(buf, w, off);
      if len.Bad? then TC.Bad else
      var s := TC.DecBytes(buf, len.value, len.next);
      if s.Bad? then TC.Bad else TC.Good(StrV(s.value), s.next)
    case Tab =>
      var t := TC.DecTable(buf, off);
      if t.Bad? then TC.Bad else TC.Good(TabV(t.value), t.next)
  }

  /** The decoded fields by number and the octets consumed, or Bad. */
  function RunDec(types: seq<Type>, stmts: seq<DecStmt>, buf: seq<byte>, off: nat, bits: nat,
                  got: map<nat, Value>): TC.Decoded<map<nat, Value>>
    requires off <= |buf|
    decreases stmts
  {
    if stmts == [] then TC.Good(got, off) else
    match stmts[0]
    case GetBits => if off + 1 <= |buf| then RunDec(types, stmts[1..], buf, off + 1, buf[off], got) else TC.Bad
    case TakeBit(i, k) => RunDec(types, stmts[1..], buf, off, bits, got[i := BitV(TestBit(bits, k))])
    case GetField(i) =>
      if i < |types| && types[i] != Bit then
        var v := DecodeField(types[i], buf, off);
        if v.Bad? then TC.Bad else RunDec(types, stmts[1..], buf, v.next, bits, got[i := v.value])
      else TC.Bad
  }

  // ---------- the generated encoder writes the wire format ----------

  /** The octet for pending bits, if there are any, and everything after. */
  function Pending(types: seq<Type>, vals: seq<Value>, i: nat, p: seq<bool>): seq<byte>
    requires AllTyped(types, vals) && i <= |types| && |p| < 8
  {
    if p == [] then Wire(types, vals, i) else
    var more := Run(types, vals, i, 8 - |p|);
    [Octet(p + more)] + Wire(types, vals, i + |more|)
  }

  lemma Cons<T>(x: T, rest: seq<T>)
    ensures ([x] + rest)[0] == x && ([x] + rest)[1..] == rest
  {
  }

  /** One more bit field does not change the octets still to come. */
  lemma PendingBit(types: seq<Type>, vals: seq<Value>, i: nat, p: seq<bool>)
    requires AllTyped(types, vals) && i < |types| && types[i] == Bit && |p| < 8
    ensures Pending(types, vals, i, p) == PendingAfter(types, vals, i + 1, p + [vals[i].b])
  {
    hide BitsToNat, FieldWire, Octet, Wire, Run;
    var b, p' := vals[i].b, p + [vals[i].b];
    var more, more' := Run(types, vals, i, 8 - |p|), Run(types, vals, i + 1, 7 - |p|);
    RunStep(types, vals, i, 8 - |p|);
    WireBit(types, vals, i);
    Associative(p, [b], more');
    var all := p + more;
    assert all == p' + more';
    if p == [] {
      assert all == more;
      assert Pending(types, vals, i, p) == [Octet(all)] + Wire(types, vals, i + |more|);
    } else if |p| == 7 {
      assert all == p';
    }
  }

  /** As Pending, with a full octet written at once. */
  function PendingAfter(types: seq<Type>, vals: seq<Value>, i: nat, p: seq<bool>): seq<byte>
    requires AllTyped(types, vals) && i <= |types| && |p| <= 8
  {
    if |p| == 8 then [Octet(p)] + Wire(types, vals, i) else Pending(types, vals, i, p)
  }

  lemma RunStep(types: seq<Type>, vals: seq<Value>, i: nat, m: nat)
    requires AllTyped(types, vals) && i < |types| && types[i] == Bit && m > 0
    ensures Run(types, vals, i, m) == [vals[i].b] + Run(types, vals, i + 1, m - 1)
  {
  }

  lemma WireBit(types: seq<Type>, vals: seq<Value>, i: nat)
    requires AllTyped(types, vals) && i < |types| && types[i] == Bit
    ensures Wire(types, vals, i) == [Octet(Run(types, vals, i, 8))] + Wire(types, vals, i + |Run(types, vals, i, 8)|)
  {
    hide BitsToNat, FieldWire, Run, Octet;
  }

  lemma PendingFlush(types: seq<Type>, vals: seq<Value>, i: nat, p: seq<bool>)
    requires AllTyped(types, vals) && i <= |types| && (i == |types| || types[i] != Bit) && 0 < |p| < 8
    ensures Pending(types, vals, i, p) == [Octet(p)] + Wire(types, vals, i)
  {
    assert p + Run(types, vals, i, 8 - |p|) == p;
  }

  /** Executing a pending flush. */
  lemma RunFlush(types: seq<Type>, vals: seq<Value>, rest: seq<EncStmt>, cap: nat, p: seq<bool>, out: seq<byte>,
                 bits: nat)
    requires AllTyped(types, vals) && |p| <= 8 && bits == BitsToNat(p)
    ensures RunEnc(types, [PutBits] + rest, vals, cap, out, bits) ==
            if |out| + 1 <= cap then RunEnc(types, rest, vals, cap, out + [Octet(p)], bits) else None
  {
    Cons(PutBits, rest);
  }

  ghost predicate EncodesTo(r: Option<seq<byte>>, cap: nat, out: seq<byte>, w: seq<byte>) {
    r == if |out| + |w| <= cap then Some(out + w) else None
  }

  lemma {:induction false} RunEncSteps(types: seq<Type>, vals: seq<Value>, cap: nat, i: nat, p: seq<bool>,
                                       out: seq<byte>, bits: nat)
    requires AllTyped(types, vals) && i <= |types| && |p| < 8 && |out| <= cap
    requires p != [] ==> bits == BitsToNat(p)
    ensures EncodesTo(RunEnc(types, EncStmts(types, i, |p|), vals, cap, out, bits), cap, out,
            Pending(types, vals, i, p))
    decreases |types| - i, 1
  {
    if i == |types| {
      assert out + [] == out && Wire(types, vals, i) == [];
      if p != [] {
        PendingFlush(types, vals, i, p);
        assert [PutBits] + [] == [PutBits] && [Octet(p)] + [] == [Octet(p)];
        RunFlush(types, vals, [], cap, p, out, bits);
      }
    } else if types[i] == Bit {
      RunEncBit(types, vals, cap, i, p, out, bits);
    } else {
      var rest := EncStmts(types, i + 1, 0);
      assert (if p != [] then [PutBits] else []) + [PutField(i)] + rest
        == if p != [] then [PutBits] + ([PutField(i)] + rest) else [PutField(i)] + rest;
      if p == [] {
        RunEncField(types, vals, cap, i, out, bits);
      } else {
        PendingFlush(types, vals, i, p);
        RunFlush(types, vals, [PutField(i)] + rest, cap, p, out, bits);
        if |out| + 1 <= cap {
          RunEncField(types, vals, cap, i, out + [Octet(p)], bits);
          Associative(out, [Octet(p)], Wire(types, vals, i));
        }
      }
    }
  }

  lemma {:induction false} RunEncField(types: seq<Type>, vals: seq<Value>, cap: nat, i: nat, out: seq<byte>, bits: nat)
    requires AllTyped(types, vals) && i < |types| && types[i] != Bit && |out| <= cap
    ensures EncodesTo(RunEnc(types, [PutField(i)] + EncStmts(types, i + 1, 0), vals, cap, out, bits), cap, out,
            Wire(types, vals, i))
    decreases |types| - i, 0
  {
    var w := FieldWire(types[i], vals[i]);
    Cons(PutField(i), EncStmts(types, i + 1, 0));
    if |out| + |w| <= cap {
      RunEncSteps(types, vals, cap, i + 1, [], out + w, bits);
      Associative(out, w, Wire(types, vals, i + 1));
    }
  }

  /** Executing the statements of one bit field. */
  lemma RunOneBit(types: seq<Type>, vals: seq<Value>, cap: nat, i: nat, p: seq<bool>, out: seq<byte>, bits: nat)
    requires AllTyped(types, vals) && i < |types| && types[i] == Bit && |p| < 8
    requires p != [] ==> bits == BitsToNat(p)
    ensures var rest := EncStmts(types, i + 1, (|p| + 1) % 8);
            RunEnc(types, EncStmts(types, i, |p|), vals, cap, out, bits) ==
            RunEnc(types, if |p| == 7 then [PutBits] + rest else rest, vals, cap, out, BitsToNat(p + [vals[i].b]))
  {
    hide RunEnc, BitsToNat, SetBit, FieldWire;
    AppendBit(p, vals[i].b);
    var rest := EncStmts(types, i + 1, (|p| + 1) % 8);
    var tail := if |p| == 7 then [PutBits] + rest else rest;
    if p == [] {
      assert EncStmts(types, i, 0) == [ClearBits] + ([OrBit(i, 0)] + tail);
      ExecClear(types, vals, [OrBit(i, 0)] + tail, cap, out, bits);
      ExecOr(types, vals, i, 0, tail, cap, out, 0);
      NoBitsYet();
    } else {
      assert EncStmts(types, i, |p|) == [OrBit(i, |p|)] + tail;
      ExecOr(types, vals, i, |p|, tail, cap, out, bits);
    }
  }

  lemma NoBitsYet()
    ensures BitsToNat([]) == 0
  {
  }

  lemma ExecClear(types: seq<Type>, vals: seq<Value>, rest: seq<EncStmt>, cap: nat, out: seq<byte>, bits: nat)
    requires AllTyped(types, vals)
    ensures RunEnc(types, [ClearBits] + rest, vals, cap, out, bits) == RunEnc(types, rest, vals, cap, out, 0)
  {
    Cons(ClearBits, rest);
  }

  lemma ExecOr(types: seq<Type>, vals: seq<Value>, i: nat, k: nat, rest: seq<EncStmt>, cap: nat, out: seq<byte>,
               bits: nat)
    requires AllTyped(types, vals) && i < |types| && types[i] == Bit
    ensures RunEnc(types, [OrBit(i, k)] + rest, vals, cap, out, bits)
            == RunEnc(types, rest, vals, cap, out, if vals[i].b then SetBit(bits, k) else bits)
  {
    Cons(OrBit(i, k), rest);
  }

  lemma {:induction false} RunEncBit(types: seq<Type>, vals: seq<Value>, cap: nat, i: nat, p: seq<bool>, out: seq<byte>,
                                     bits: nat)
    requires AllTyped(types, vals) && i < |types| && types[i] == Bit && |p| < 8 && |out| <= cap
    requires p != [] ==> bits == BitsToNat(p)
    ensures EncodesTo(RunEnc(types, EncStmts(types, i, |p|), vals, cap, out, bits), cap, out,
            Pending(types, vals, i, p))
    decreases |types| - i, 0
  {
    hide RunEnc, EncStmts, BitsToNat, Wire, Octet, Pending, EncodesTo;
    RunOneBit(types, vals, cap, i, p, out, bits);
    PendingBit(types, vals, i, p);
    var p' := p + [vals[i].b];
    if |p| == 7 {
      RunEncFull(types, vals, cap, i + 1, p', out, BitsToNat(p'));
    } else {
      RunEncSteps(types, vals, cap, i + 1, p', out, BitsToNat(p'));
    }
  }

  /** A full octet is written at once. */
  lemma {:induction false} RunEncFull(types: seq<Type>, vals: seq<Value>, cap: nat, i: nat, p: seq<bool>,
                                      out: seq<byte>, bits: nat)
    requires AllTyped(types, vals) && i <= |types| && |p| == 8 && |out| <= cap && bits == BitsToNat(p)
    ensures EncodesTo(RunEnc(types, [PutBits] + EncStmts(types, i, 0), vals, cap, out, bits), cap, out,
            PendingAfter(types, vals, i, p))
    decreases |types| - i, 2
  {
    hide RunEnc, EncStmts, BitsToNat, Wire, Octet;
    RunFlush(types, vals, EncStmts(types, i, 0), cap, p, out, bits);
    if |out| + 1 <= cap {
      RunEncSteps(types, vals, cap, i, [], out + [Octet(p)], bits);
      Associative(out, [Octet(p)], Wire(types, vals, i));
    }
  }

  // ---------- the generated decoder reads it back ----------

  function Fields(vals: seq<Value>, i: nat): map<nat, Value> {
    map j: nat | i <= j < |vals| :: vals[j]
  }

  lemma NoFields(vals: seq<Value>, i: nat)
    requires i >= |vals|
    ensures Fields(vals, i) == map[]
  {
  }

  lemma NextField(vals: seq<Value>, i: nat, got: map<nat, Value>)
    requires i < |vals|
    ensures got[i := vals[i]] + Fields(vals, i + 1) == got + Fields(vals, i)
  {
  }

  /** Decoding one field from its wire form. */
  lemma ReadFieldBack(ty: Type, v: Value, buf: seq<byte>, off: nat)
    requires ValidType(ty) && HasType(ty, v) && ty != Bit && Representable(ty, v)
    requires |buf| <= WORD32 && TC.StandsAt(buf, off, FieldWire(ty, v))
    ensures DecodeField(ty, buf, off) == TC.Good(v, off + |FieldWire(ty, v)|)
  {
    match ty {
      case Integer(w) => TC.ReadWord(buf, off, w, v.n);
      case Str(w) =>
        TC.StandsSplit(buf, off, BigEndian(w, |v.s|), v.s);
        TC.ReadWord(buf, off, w, |v.s|);
      case Tab => TC.ReadTable(buf, v.t, off);
    }
  }

  /** The octet holding the bits already taken, and what is left to read after it. */
  ghost predicate Loaded(types: seq<Type>, vals: seq<Value>, i: nat, p: seq<bool>, buf: seq<byte>, off: nat, bits: nat)
    requires AllTyped(types, vals) && i <= |types| && |p| < 8
  {
    var more := More(types, vals, i, p);
    && (p != [] ==> bits == BitsToNat(p + more))
    && TC.StandsAt(buf, off, Wire(types, vals, i + |more|))
  }

  ghost function More(types: seq<Type>, vals: seq<Value>, i: nat, p: seq<bool>): seq<bool>
    requires AllTyped(types, vals) && i <= |types| && |p| < 8
  {
    if p == [] then [] else Run(types, vals, i, 8 - |p|)
  }

  /** The next bit of the loaded octet is the next field. */
  lemma LoadedBit(types: seq<Type>, vals: seq<Value>, i: nat, p: seq<bool>, buf: seq<byte>, off: nat, bits: nat)
    requires AllTyped(types, vals) && i < |types| && types[i] == Bit && |p| < 8
    requires Loaded(types, vals, i, p, buf, off, bits)
    ensures p == [] ==>
            off < |buf| && buf[off] == BitsToNat(Run(types, vals, i, 8)) && TestBit(buf[off], 0) == vals[i].b
    ensures p != [] ==> TestBit(bits, |p|) == vals[i].b
  {
    hide BitsToNat, Wire, TestBit, FieldWire;
    if p == [] {
      WireBit(types, vals, i);
      RunStep(types, vals, i, 8);
      var bits0 := Run(types, vals, i, 8);
      TC.StandsSplit(buf, off, [Octet(bits0)], Wire(types, vals, i + |bits0|));
      assert buf[off] == buf[off..off + 1][0];
      TestBitOfBits(bits0, 0);
    } else {
      RunStep(types, vals, i, 8 - |p|);
      TestBitOfBits(p + Run(types, vals, i, 8 - |p|), |p|);
    }
  }

  lemma LoadedAfterBit(types: seq<Type>, vals: seq<Value>, i: nat, p: seq<bool>, buf: seq<byte>, off: nat, bits: nat)
    requires AllTyped(types, vals) && i < |types| && types[i] == Bit && |p| < 8
    requires Loaded(types, vals, i, p, buf, off, bits)
    ensures p == [] ==> off < |buf|
    ensures var p' := if |p| == 7 then [] else p + [vals[i].b];
            var off' := if p == [] then off + 1 else off;
            && Loaded(types, vals, i + 1, p', buf, off', if p == [] then buf[off] else bits)
            && off + |Wire(types, vals, i + |More(types, vals, i, p)|)|
               == off' + |Wire(types, vals, i + 1 + |More(types, vals, i + 1, p')|)|
  {
    hide BitsToNat, Octet, Wire, TestBit, Run;
    LoadedBit(types, vals, i, p, buf, off, bits);
    RunStep(types, vals, i, 8 - |p|);
    var more' := Run(types, vals, i + 1, 7 - |p|);
    if p == [] {
      var bits0 := Run(types, vals, i, 8);
      WireBit(types, vals, i);
      TC.StandsSplit(buf, off, [Octet(bits0)], Wire(types, vals, i + |bits0|));
      assert [] + [vals[i].b] == [vals[i].b];
    } else {
      Associative(p, [vals[i].b], more');
    }
  }

  /** Executing the statements of one bit field. */
  lemma RunDecBit(types: seq<Type>, vals: seq<Value>, i: nat, p: seq<bool>, buf: seq<byte>, off: nat, bits: nat,
                  got: map<nat, Value>)
    requires AllTyped(types, vals) && i < |types| && types[i] == Bit && |p| < 8 && off <= |buf|
    requires Loaded(types, vals, i, p, buf, off, bits)
    ensures p == [] ==> off < |buf|
    ensures RunDec(types, DecStmts(types, i, |p|), buf, off, bits, got)
            == RunDec(types, DecStmts(types, i + 1, (|p| + 1) % 8), buf, if p == [] then off + 1 else off,
                      if p == [] then buf[off] else bits, got[i := vals[i]])
  {
    hide BitsToNat, Octet, Wire, TestBit, Run, Loaded, RunDec;
    LoadedBit(types, vals, i, p, buf, off, bits);
    assert vals[i] == BitV(vals[i].b);
    var rest := DecStmts(types, i + 1, (|p| + 1) % 8);
    if p == [] {
      assert DecStmts(types, i, 0) == [GetBits] + ([TakeBit(i, 0)] + rest);
      ExecGetBits(types, [TakeBit(i, 0)] + rest, buf, off, bits, got);
      ExecTakeBit(types, i, 0, rest, buf, off + 1, buf[off], got);
    } else {
      assert DecStmts(types, i, |p|) == [TakeBit(i, |p|)] + rest;
      ExecTakeBit(types, i, |p|, rest, buf, off, bits, got);
    }
  }

  lemma ExecGetBits(types: seq<Type>, rest: seq<DecStmt>, buf: seq<byte>, off: nat, bits: nat, got: map<nat, Value>)
    requires off < |buf|
    ensures RunDec(types, [GetBits] + rest, buf, off, bits, got) == RunDec(types, rest, buf, off + 1, buf[off], got)
  {
    Cons(GetBits, rest);
  }

  lemma ExecTakeBit(types: seq<Type>, i: nat, k: nat, rest: seq<DecStmt>, buf: seq<byte>, off: nat, bits: nat,
                    got: map<nat, Value>)
    requires off <= |buf|
    ensures RunDec(types, [TakeBit(i, k)] + rest, buf, off, bits, got)
            == RunDec(types, rest, buf, off, bits, got[i := BitV(TestBit(bits, k))])
  {
    Cons(TakeBit(i, k), rest);
  }

  lemma ExecGetField(types: seq<Type>, i: nat, rest: seq<DecStmt>, buf: seq<byte>, off: nat, bits: nat,
                     got: map<nat, Value>)
    requires off <= |buf| && i < |types| && types[i] != Bit && DecodeField(types[i], buf, off).Good?
    ensures var v := DecodeField(types[i], buf, off);
            RunDec(types, [GetField(i)] + rest, buf, off, bits, got) ==
              RunDec(types, rest, buf, v.next, bits, got[i := v.value])
  {
    Cons(GetField(i), rest);
  }

  lemma {:induction false} RunDecSteps(types: seq<Type>, vals: seq<Value>, i: nat, p: seq<bool>, buf: seq<byte>,
                                       off: nat, bits: nat, got: map<nat, Value>)
    requires AllTyped(types, vals) && AllRepresentable(types, vals) && i <= |types| && |p| < 8 && off <= |buf| <= WORD32
    requires Loaded(types, vals, i, p, buf, off, bits)
    ensures RunDec(types, DecStmts(types, i, |p|), buf, off, bits, got)
            == TC.Good(got + Fields(vals, i), off + |Wire(types, vals, i + |More(types, vals, i, p)|)|)
    decreases |types| - i, 1
  {
    hide BitsToNat, Octet, FieldWire, DecodeField, TestBit, Fields, Loaded, Run, RunDec, AllRepresentable;
    if i == |types| {
      NoFields(vals, i);
      assert got + Fields(vals, i) == got;
      assert DecStmts(types, i, |p|) == [];
      NothingLeft(types, vals, i, p, buf, off, bits, got);
    } else if types[i] == Bit {
      RunDecBits(types, vals, i, p, buf, off, bits, got);
    } else {
      RunDecField(types, vals, i, p, buf, off, bits, got);
    }
  }

  lemma {:induction false} RunDecBits(types: seq<Type>, vals: seq<Value>, i: nat, p: seq<bool>, buf: seq<byte>,
                                      off: nat, bits: nat, got: map<nat, Value>)
    requires AllTyped(types, vals) && AllRepresentable(types, vals) && i < |types| && types[i] == Bit && |p| < 8
             && off <= |buf| <= WORD32
    requires Loaded(types, vals, i, p, buf, off, bits)
    ensures RunDec(types, DecStmts(types, i, |p|), buf, off, bits, got)
            == TC.Good(got + Fields(vals, i), off + |Wire(types, vals, i + |More(types, vals, i, p)|)|)
    decreases |types| - i, 0
  {
    hide BitsToNat, Octet, FieldWire, DecodeField, TestBit, Fields, Loaded, Run, RunDec, AllRepresentable, Wire,
         DecStmts, More;
    RunDecBit(types, vals, i, p, buf, off, bits, got);
    LoadedAfterBit(types, vals, i, p, buf, off, bits);
    NextField(vals, i, got);
    if p == [] {
      RunDecSteps(types, vals, i + 1, p + [vals[i].b], buf, off + 1, buf[off], got[i := vals[i]]);
    } else if |p| == 7 {
      RunDecSteps(types, vals, i + 1, [], buf, off, bits, got[i := vals[i]]);
    } else {
      RunDecSteps(types, vals, i + 1, p + [vals[i].b], buf, off, bits, got[i := vals[i]]);
    }
  }

  lemma NothingLeft(types: seq<Type>, vals: seq<Value>, i: nat, p: seq<bool>, buf: seq<byte>, off: nat, bits: nat,
                    got: map<nat, Value>)
    requires AllTyped(types, vals) && i == |types| && |p| < 8 && off <= |buf|
    ensures More(types, vals, i, p) == [] && Wire(types, vals, i) == []
            && RunDec(types, [], buf, off, bits, got) == TC.Good(got, off)
  {
  }

  lemma {:induction false} RunDecField(types: seq<Type>, vals: seq<Value>, i: nat, p: seq<bool>, buf: seq<byte>,
                                       off: nat, bits: nat, got: map<nat, Value>)
    requires AllTyped(types, vals) && AllRepresentable(types, vals) && i < |types| && types[i] != Bit && |p| < 8
             && |buf| <= WORD32
    requires Loaded(types, vals, i, p, buf, off, bits)
    ensures More(types, vals, i, p) == []
    ensures RunDec(types, DecStmts(types, i, |p|), buf, off, bits, got)
            == TC.Good(got + Fields(vals, i), off + |Wire(types, vals, i)|)
    decreases |types| - i, 0
  {
    hide BitsToNat, Octet, FieldWire, DecodeField, TestBit, Fields, RunDec;
    var w := FieldWire(types[i], vals[i]);
    assert Wire(types, vals, i) == w + Wire(types, vals, i + 1);
    TC.StandsSplit(buf, off, w, Wire(types, vals, i + 1));
    ReadFieldBack(types[i], vals[i], buf, off);
    assert DecStmts(types, i, |p|) == [GetField(i)] + DecStmts(types, i + 1, 0);
    ExecGetField(types, i, DecStmts(types, i + 1, 0), buf, off, bits, got);
    RunDecSteps(types, vals, i + 1, [], buf, off + |w|, bits, got[i := vals[i]]);
    NextField(vals, i, got);
  }

  // ---------- main results ----------

  /**
    The generated encoder writes the wire format if it fits, and reports an error otherwise.
   */
  lemma EncoderWritesWire(types: seq<Type>, vals: seq<Value>, cap: nat)
    requires AllTyped(types, vals)
    ensures RunEnc(types, EncStmts(types, 0, 0), vals, cap, [], 0)
            == if |Wire(types, vals, 0)| <= cap then Some(Wire(types, vals, 0)) else None
  {
    RunEncSteps(types, vals, cap, 0, [], [], 0);
    assert [] + Wire(types, vals, 0) == Wire(types, vals, 0);
  }

  /**
    For every list of field types: what the generated decoder reads from an encoded method followed by
    any octets is the method's fields, and it stops right after them, exactly when every length fits
    its length field.
   */
  lemma MethodRoundTrip(types: seq<Type>, vals: seq<Value>, rest: seq<byte>)
    requires AllTyped(types, vals) && |Wire(types, vals, 0)| + |rest| <= WORD32
    ensures RunDec(types, DecStmts(types, 0, 0), Wire(types, vals, 0) + rest, 0, 0, map[])
            == TC.Good(Fields(vals, 0), |Wire(types, vals, 0)|)
            <==> AllRepresentable(types, vals)
  {
    var buf := Wire(types, vals, 0) + rest;
    var r := RunDec(types, DecStmts(types, 0, 0), buf, 0, 0, map[]);
    if AllRepresentable(types, vals) {
      assert buf[0..|Wire(types, vals, 0)|] == Wire(types, vals, 0);
      RunDecSteps(types, vals, 0, [], buf, 0, 0, map[]);
      assert map[] + Fields(vals, 0) == Fields(vals, 0);
    }
    if r.Good? && r.value == Fields(vals, 0) {
      DecodedIsRepresentable(types, vals, buf);
    }
  }

  lemma DecodedIsRepresentable(types: seq<Type>, vals: seq<Value>, buf: seq<byte>)
    requires AllTyped(types, vals)
    requires var r := RunDec(types, DecStmts(types, 0, 0), buf, 0, 0, map[]); r.Good? && r.value == Fields(vals, 0)
    ensures AllRepresentable(types, vals)
  {
    DecodedRepresentable(types, DecStmts(types, 0, 0), buf, 0, 0, map[]);
    forall i | 0 <= i < |types| ensures Representable(types[i], vals[i]) {
      assert Fields(vals, 0)[i] == vals[i];
    }
  }

  ghost predicate FitTheirTypes(types: seq<Type>, got: map<nat, Value>) {
    forall i :: i in got && i < |types| && HasType(types[i], got[i]) ==> Representable(types[i], got[i])
  }

  /** Decoded lengths always fit their length fields. */
  lemma {:induction false} DecodedRepresentable(types: seq<Type>, stmts: seq<DecStmt>, buf: seq<byte>, off: nat,
                                                bits: nat, got: map<nat, Value>)
    requires off <= |buf| && FitTheirTypes(types, got) && RunDec(types, stmts, buf, off, bits, got).Good?
    ensures FitTheirTypes(types, RunDec(types, stmts, buf, off, bits, got).value)
    decreases stmts
  {
    if stmts != [] {
      match stmts[0] {
        case GetBits => DecodedRepresentable(types, stmts[1..], buf, off + 1, buf[off], got);
        case TakeBit(i, k) =>
          DecodedRepresentable(types, stmts[1..], buf, off, bits, got[i := BitV(TestBit(bits, k))]);
        case GetField(i) =>
          var v := DecodeField(types[i], buf, off);
          if types[i] == Tab {
            TC.DecodedTable(buf, off);
          }
          DecodedRepresentable(types, stmts[1..], buf, v.next, bits, got[i := v.value]);
      }
    }
  }

  // ---------- two generated methods ----------

  /** exchange.declare: ticket, exchange, type, five bits, arguments. */
  const EXCHANGE_DECLARE: seq<Type> := [Integer(2), Str(1), Str(1), Bit, Bit, Bit, Bit, Bit, Tab]

  /** basic.publish: ticket, exchange, routing key, mandatory, immediate. */
  const BASIC_PUBLISH: seq<Type> := [Integer(2), Str(1), Str(1), Bit, Bit]

  lemma FieldCode(types: seq<Type>, i: nat, bit: nat)
    requires i < |types| && bit < 8 && types[i] != Bit
    ensures EncStmts(types, i, bit) ==
            (if bit != 0 then [PutBits, PutField(i)] else [PutField(i)]) + EncStmts(types, i + 1, 0)
    ensures DecStmts(types, i, bit) == [GetField(i)] + DecStmts(types, i + 1, 0)
  {
    assert [] + [PutField(i)] == [PutField(i)];
  }

  lemma BitCode(types: seq<Type>, i: nat, bit: nat)
    requires i < |types| && bit < 7 && types[i] == Bit
    ensures EncStmts(types, i, bit) ==
            (if bit == 0 then [ClearBits, OrBit(i, 0)] else [OrBit(i, bit)]) + EncStmts(types, i + 1, bit + 1)
    ensures DecStmts(types, i, bit) ==
            (if bit == 0 then [GetBits, TakeBit(i, 0)] else [TakeBit(i, bit)]) + DecStmts(types, i + 1, bit + 1)
  {
    hide EncStmts, DecStmts;
    EncBitCode(types, i, bit);
    DecBitCode(types, i, bit);
    assert bit == 0 ==> [ClearBits] + [OrBit(i, bit)] + [] == [ClearBits, OrBit(i, 0)];
    assert bit > 0 ==> [] + [OrBit(i, bit)] + [] == [OrBit(i, bit)] && [] + [TakeBit(i, bit)] == [TakeBit(i, bit)];
    assert bit == 0 ==> [GetBits] + [TakeBit(i, bit)] == [GetBits, TakeBit(i, 0)];
  }

  lemma EncBitCode(types: seq<Type>, i: nat, bit: nat)
    requires i < |types| && bit < 7 && types[i] == Bit
    ensures EncStmts(types, i, bit) ==
            (if bit == 0 then [ClearBits] else []) + [OrBit(i, bit)] + [] + EncStmts(types, i + 1, bit + 1)
  {
    assert (bit + 1) % 8 == bit + 1;
  }

  lemma DecBitCode(types: seq<Type>, i: nat, bit: nat)
    requires i < |types| && bit < 7 && types[i] == Bit
    ensures DecStmts(types, i, bit) ==
            (if bit == 0 then [GetBits] else []) + [TakeBit(i, bit)] + DecStmts(types, i + 1, bit + 1)
  {
    assert (bit + 1) % 8 == bit + 1;
  }

  lemma EndCode(types: seq<Type>, bit: nat)
    requires bit < 8
    ensures EncStmts(types, |types|, bit) == (if bit != 0 then [PutBits] else []) && DecStmts(types, |types|, bit) == []
  {
  }

  /** The code generated for the fields of basic.publish. */
  lemma BasicPublishCode()
    ensures EncStmts(BASIC_PUBLISH, 0, 0) ==
            [PutField(0), PutField(1), PutField(2), ClearBits, OrBit(3, 0), OrBit(4, 1), PutBits]
    ensures DecStmts(BASIC_PUBLISH, 0, 0) ==
            [GetField(0), GetField(1), GetField(2), GetBits, TakeBit(3, 0), TakeBit(4, 1)]
  {
    hide EncStmts, DecStmts;
    EndCode(BASIC_PUBLISH, 2);
    BitCode(BASIC_PUBLISH, 4, 1);
    BitCode(BASIC_PUBLISH, 3, 0);
    FieldCode(BASIC_PUBLISH, 2, 0);
    FieldCode(BASIC_PUBLISH, 1, 0);
    FieldCode(BASIC_PUBLISH, 0, 0);
  }

  /** The code generated for the bits of exchange.declare and for the table after them. */
  lemma ExchangeDeclareTail()
    ensures EncStmts(EXCHANGE_DECLARE, 3, 0) ==
            [ClearBits, OrBit(3, 0), OrBit(4, 1), OrBit(5, 2), OrBit(6, 3), OrBit(7, 4), PutBits, PutField(8)]
    ensures DecStmts(EXCHANGE_DECLARE, 3, 0) ==
            [GetBits, TakeBit(3, 0), TakeBit(4, 1), TakeBit(5, 2), TakeBit(6, 3), TakeBit(7, 4), GetField(8)]
  {
    hide EncStmts, DecStmts;
    var t := EXCHANGE_DECLARE;
    EndCode(t, 0);
    FieldCode(t, 8, 5);
    assert EncStmts(t, 8, 5) == [PutBits, PutField(8)] && DecStmts(t, 8, 5) == [GetField(8)];
    BitCode(t, 7, 4);
    BitCode(t, 6, 3);
    BitCode(t, 5, 2);
    BitCode(t, 4, 1);
    BitCode(t, 3, 0);
  }

  /** The code generated for the fields of exchange.declare. */
  lemma ExchangeDeclareCode()
    ensures EncStmts(EXCHANGE_DECLARE, 0, 0) ==
            [PutField(0), PutField(1), PutField(2), ClearBits, OrBit(3, 0), OrBit(4, 1), OrBit(5, 2), OrBit(6, 3),
              OrBit(7, 4),
             PutBits, PutField(8)]
    ensures DecStmts(EXCHANGE_DECLARE, 0, 0) ==
            [GetField(0), GetField(1), GetField(2), GetBits, TakeBit(3, 0), TakeBit(4, 1), TakeBit(5, 2), TakeBit(6, 3),
              TakeBit(7, 4),
             GetField(8)]
  {
    hide EncStmts, DecStmts;
    ExchangeDeclareTail();
    FieldCode(EXCHANGE_DECLARE, 2, 0);
    FieldCode(EXCHANGE_DECLARE, 1, 0);
    FieldCode(EXCHANGE_DECLARE, 0, 0);
  }

  /** The wire format, field by field. */
  lemma WireField(types: seq<Type>, vals: seq<Value>, i: nat)
    requires AllTyped(types, vals) && i < |types| && types[i] != Bit
    ensures Wire(types, vals, i) == FieldWire(types[i], vals[i]) + Wire(types, vals, i + 1)
  {
  }

  lemma ShortWords(v: nat)
    ensures BigEndian(1, v) == [v % 0x100] && BigEndian(2, v) == [v / 0x100 % 0x100, v % 0x100]
  {
    assert BigEndian(0, v / 0x100) == [] && BigEndian(1, v / 0x100) == [v / 0x100 % 0x100];
  }

  lemma BitsCons(b: bool, more: seq<bool>)
    ensures BitsToNat([b] + more) == (if b then 1 else 0) + 2 * BitsToNat(more)
  {
    assert ([b] + more)[1..] == more;
  }

  /** The first bit is the least significant one. */
  lemma BitsOnTheWire(a: bool, b: bool, c: bool, d: bool, e: bool)
    ensures BitsToNat([a, b]) == (if a then 1 else 0) + if b then 2 else 0
    ensures BitsToNat([a, b, c, d, e]) ==
            (if a then 1 else 0) + (if b then 2 else 0) + (if c then 4 else 0) + (if d then 8 else 0)
            + if e then 16 else 0
  {
    hide BitsToNat;
    assert BitsToNat([]) == 0 by { NoBitsYet(); }
    BitsCons(b, []);
    BitsCons(a, [b]);
    BitsCons(e, []);
    BitsCons(d, [e]);
    BitsCons(c, [d, e]);
    BitsCons(b, [c, d, e]);
    BitsCons(a, [b, c, d, e]);
    assert [b] + [] == [b] && [a] + [b] == [a, b] && [e] + [] == [e] && [d] + [e] == [d, e];
    assert [c] + [d, e] == [c, d, e] && [b] + [c, d, e] == [b, c, d, e] && [a] + [b, c, d, e] == [a, b, c, d, e];
  }

  lemma HeadTyped(types: seq<Type>, vals: seq<Value>)
    requires AllTyped(types, vals) && |types| >= 3
    requires types[0] == Integer(2) && types[1] == Str(1) && types[2] == Str(1)
    ensures |vals| == |types| && vals[0].IntV? && vals[0].n < 0x1_0000 && vals[1].StrV? && vals[2].StrV?
  {
    Pow256Values();
    assert HasType(types[0], vals[0]) && HasType(types[1], vals[1]) && HasType(types[2], vals[2]);
  }

  /** A number of two octets and two short strings. */
  lemma HeadOnTheWire(types: seq<Type>, vals: seq<Value>)
    requires AllTyped(types, vals) && |types| >= 3
    requires types[0] == Integer(2) && types[1] == Str(1) && types[2] == Str(1)
    ensures var n, x, y := vals[0].n, vals[1].s, vals[2].s;
            n < 0x1_0000 && Wire(types, vals, 0) ==
            [n / 0x100, n % 0x100] + [|x| % 0x100] + x + [|y| % 0x100] + y + Wire(types, vals, 3)
  {
    hide Wire, BigEndian, Pow256, AllTyped;
    HeadTyped(types, vals);
    Pow256Values();
    ShortWords(vals[0].n);
    ShortWords(|vals[1].s|);
    ShortWords(|vals[2].s|);
    WireField(types, vals, 0);
    WireField(types, vals, 1);
    WireField(types, vals, 2);
  }

  /** The arguments of basic.publish, octet by octet. */
  lemma PublishOnTheWire(ticket: nat, exchange: seq<byte>, key: seq<byte>, mandatory: bool, immediate: bool)
    requires ticket < 0x1_0000
    ensures var vals := [IntV(ticket), StrV(exchange), StrV(key), BitV(mandatory), BitV(immediate)];
            && AllTyped(BASIC_PUBLISH, vals)
            && Wire(BASIC_PUBLISH, vals, 0) ==
               [ticket / 0x100, ticket % 0x100] + [|exchange| % 0x100] + exchange + [|key| % 0x100] + key
               + [(if mandatory then 1 else 0) + if immediate then 2 else 0]
  {
    hide Wire, BitsToNat;
    Pow256Values();
    var vals := [IntV(ticket), StrV(exchange), StrV(key), BitV(mandatory), BitV(immediate)];
    HeadOnTheWire(BASIC_PUBLISH, vals);
    LastBits(BASIC_PUBLISH, vals);
    BitsOnTheWire(mandatory, immediate, false, false, false);
  }

  lemma LastBits(types: seq<Type>, vals: seq<Value>)
    requires AllTyped(types, vals) && types == BASIC_PUBLISH
    ensures Wire(types, vals, 3) == [Octet([vals[3].b, vals[4].b])]
  {
    hide Octet;
    assert Run(types, vals, 4, 7) == [vals[4].b] + Run(types, vals, 5, 6);
    assert Run(types, vals, 3, 8) == [vals[3].b, vals[4].b];
    assert Wire(types, vals, 5) == [];
  }

  /** The arguments of exchange.declare: five bits in one octet, and the table after them. */
  lemma DeclareOnTheWire(ticket: nat, exchange: seq<byte>, kind: seq<byte>, a: bool, b: bool, c: bool, d: bool, e: bool,
                         table: seq<TC.Entry>)
    requires ticket < 0x1_0000 && TC.KnownTable(table)
    ensures var vals :=
              [IntV(ticket), StrV(exchange), StrV(kind), BitV(a), BitV(b), BitV(c), BitV(d), BitV(e), TabV(table)];
            var bits: nat := (if a then 1 else 0) + (if b then 2 else 0) + (if c then 4 else 0) + (if d then 8 else 0)
                             + if e then 16 else 0;
            && AllTyped(EXCHANGE_DECLARE, vals)
            && Wire(EXCHANGE_DECLARE, vals, 0) ==
               [ticket / 0x100, ticket % 0x100] + [|exchange| % 0x100] + exchange + [|kind| % 0x100] + kind
               + [bits] + TC.TableBytes(table)
  {
    hide Wire, BitsToNat, TC.TableBytes, TC.KnownTable;
    Pow256Values();
    var t := EXCHANGE_DECLARE;
    var vals := [IntV(ticket), StrV(exchange), StrV(kind), BitV(a), BitV(b), BitV(c), BitV(d), BitV(e), TabV(table)];
    HeadOnTheWire(t, vals);
    FiveBits(t, vals);
    BitsOnTheWire(a, b, c, d, e);
    WireField(t, vals, 8);
    assert Wire(t, vals, 9) == [] by { NoMore(t, vals); }
  }

  lemma NoMore(types: seq<Type>, vals: seq<Value>)
    requires AllTyped(types, vals)
    ensures Wire(types, vals, |types|) == []
  {
  }

  lemma FiveBits(types: seq<Type>, vals: seq<Value>)
    requires AllTyped(types, vals) && types == EXCHANGE_DECLARE
    ensures Wire(types, vals, 3) ==
            [Octet([vals[3].b, vals[4].b, vals[5].b, vals[6].b, vals[7].b])] + Wire(types, vals, 8)
  {
    hide Octet;
    assert Run(types, vals, 8, 3) == [];
    assert Run(types, vals, 7, 4) == [vals[7].b];
    assert Run(types, vals, 6, 5) == [vals[6].b, vals[7].b];
    assert Run(types, vals, 5, 6) == [vals[5].b, vals[6].b, vals[7].b];
    assert Run(types, vals, 4, 7) == [vals[4].b, vals[5].b, vals[6].b, vals[7].b];
    assert Run(types, vals, 3, 8) == [vals[3].b, vals[4].b, vals[5].b, vals[6].b, vals[7].b];
  }
}
