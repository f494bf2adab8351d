/** The parser at work: it asks the lexer for tokens and builds arrays and objects as it goes. */
module JsonParser {
  import opened Bytes
  import opened JsonNumbers
  import opened JsonPrinter
  import opened JsonReader
  import opened JsonReading
  import opened JsonLexer
  import opened Wrappers

  /** What a parse returns: a value, nothing, or no return at all. */
  datatype Answer = Found(value: Value) | Nothing | Crash

  /** The answer and what is left agree with an outcome. */
  ghost predicate Agrees(r: Answer, left: seq<byte>, p: Outcome) {
    match p
    case Parsed(v, rest) => r == Found(v) && left == rest
    case Failed => r == Nothing
    case Crashed => r == Crash
  }

  function Refuse(t: Token): Answer {
    if t.Abort? then Crash else Nothing
  }

  /** Without a token it does not matter what is left. */
  lemma NoTokenStops(t: Token, a: seq<byte>, b: seq<byte>, es: seq<Value>, ms: map<seq<byte>, Value>, src: Source,
                     o: Options)
    requires t.NoToken? || t.Abort? || a == b
    ensures ParseElems(t, a, es, src, o) == ParseElems(t, b, es, src, o)
    ensures ParseMembers(t, a, ms, src, o) == ParseMembers(t, b, ms, src, o)
    ensures ParseValue(t, a, src, o) == ParseValue(t, b, src, o)
  {
    hide Scan;
  }

  lemma ArrayOpens(left: seq<byte>, src: Source, o: Options)
    ensures var s := Scan(left, src);
            ParseValue(Punctuation(LEFT_BRACKET), left, src, o) ==
            if s.token == Punctuation(RIGHT_BRACKET) then Parsed(VArray([]), s.rest)
            else ParseElems(s.token, s.rest, [], src, o)
  {
    hide Scan;
  }

  lemma ObjectOpens(left: seq<byte>, src: Source, o: Options)
    ensures var s := Scan(left, src);
            ParseValue(Punctuation(LEFT_BRACE), left, src, o) ==
            if s.token == Punctuation(RIGHT_BRACE) then Parsed(VObject(map[]), s.rest)
            else ParseMembers(s.token, s.rest, map[], src, o)
  {
    hide Scan;
  }

  /** How far the parse can still go. */
  ghost function Measure(l: Lexer): nat
    reads l`token, l`left
  {
    if l.token.NoToken? || l.token.Abort? || l.token.Eof? then 0 else |l.left| + 1
  }

  /** Reads the value that starts with the current token. */
  method ParseValueAt(l: Lexer, o: Options) returns (r: Answer)
    requires l.Valid()
    modifies l, l.buffer
    ensures l.Valid()
    ensures Agrees(r, l.left, ParseValue(old(l.token), old(l.left), l.Src(), o))
    decreases Measure(l), 1
  {
    hide Scan, ParseElems, ParseMembers;
    var t := l.token;
    match t {
      case StringToken(s) => r := Found(VString(s));
      case IntegerToken(n) => r := Found(VInteger(n));
      case RealToken(d) => r := Found(VReal(d));
      case TrueToken => r := Found(VTrue);
      case FalseToken => r := Found(VFalse);
      case NullToken => r := Found(VNull);
      case Punctuation(c) =>
        if c == LEFT_BRACE {
          r := ParseObject(l, o);
        } else if c == LEFT_BRACKET {
          r := ParseArray(l, o);
        } else {
          r := Nothing;
        }
      case Eof => r := Nothing;
      case NoToken => r := Nothing;
      case Abort => r := Crash;
    }
  }

  /** Reads an array whose opening bracket is the current token. */
  method ParseArray(l: Lexer, o: Options) returns (r: Answer)
    requires l.Valid() && l.token == Punctuation(LEFT_BRACKET)
    modifies l, l.buffer
    ensures l.Valid()
    ensures Agrees(r, l.left, ParseValue(Punctuation(LEFT_BRACKET), old(l.left), l.Src(), o))
    decreases Measure(l), 0
  {
    hide Scan, ParseMembers, ParseValue, ParseElems, Lexer.Valid;
    ghost var whole, before := ParseValue(Punctuation(LEFT_BRACKET), l.left, l.Src(), o), Measure(l);
    ArrayOpens(l.left, l.Src(), o);
    var values: seq<Value> := [];
    ghost var s := Scan(l.left, l.Src());
    l.Next();
    if l.token == Punctuation(RIGHT_BRACKET) {
      return Found(VArray(values));
    }
    NoTokenStops(l.token, l.left, s.rest, [], map[], l.Src(), o);
    while !l.token.Eof?
      invariant l.Valid()
      invariant whole == ParseElems(l.token, l.left, values, l.Src(), o)
      invariant Measure(l) < before
      decreases Measure(l)
    {
      ElemsStep(l.token, l.left, values, l.Src(), o);
      var v := ParseValueAt(l, o);
      if !v.Found? {
        return v;
      }
      values := values + [v.value];
      l.Next();
      if l.token != Punctuation(COMMA) {
        break;
      }
      s := Scan(l.left, l.Src());
      l.Next();
      NoTokenStops(l.token, l.left, s.rest, values, map[], l.Src(), o);
    }
    if l.token.Eof? {
      ElemsStep(l.token, l.left, values, l.Src(), o);
    }
    r := if l.token == Punctuation(RIGHT_BRACKET) then Found(VArray(values)) else Refuse(l.token);
  }

  lemma ElemsStep(t: Token, left: seq<byte>, done: seq<Value>, src: Source, o: Options)
    ensures var v := ParseValue(t, left, src, o);
            ParseElems(t, left, done, src, o) ==
            if !v.Parsed? then v else
            var s := Scan(v.rest, src);
            if s.token == Punctuation(RIGHT_BRACKET) then Parsed(VArray(done + [v.value]), s.rest)
            else if s.token != Punctuation(COMMA) then Stop(s.token)
            else ParseElems(Scan(s.rest, src).token, Scan(s.rest, src).rest, done + [v.value], src, o)
    ensures t.Eof? ==> ParseElems(t, left, done, src, o) == Failed
    ensures t.NoToken? || t.Abort? ==> !ParseValue(t, left, src, o).Parsed?
  {
    hide Scan;
  }

  lemma MembersStep(t: Token, left: seq<byte>, done: map<seq<byte>, Value>, src: Source, o: Options)
    ensures ParseMembers(t, left, done, src, o) ==
            if !t.StringToken? then Stop(t)
            else if o.rejectDuplicates && t.s in done then Failed
            else
              var colon := Scan(left, src);
              if colon.token != Punctuation(COLON) then Stop(colon.token) else
              var first := Scan(colon.rest, src);
              var v := ParseValue(first.token, first.rest, src, o);
              if !v.Parsed? then v else
              var more := done[t.s := v.value];
              var s := Scan(v.rest, src);
              if s.token == Punctuation(RIGHT_BRACE) then Parsed(VObject(more), s.rest)
              else if s.token != Punctuation(COMMA) then Stop(s.token)
              else ParseMembers(Scan(s.rest, src).token, Scan(s.rest, src).rest, more, src, o)
  {
    hide Scan, ParseValue;
  }

  /** Reads an object whose opening brace is the current token. */
  method ParseObject(l: Lexer, o: Options) returns (r: Answer)
    requires l.Valid() && l.token == Punctuation(LEFT_BRACE)
    modifies l, l.buffer
    ensures l.Valid()
    ensures Agrees(r, l.left, ParseValue(Punctuation(LEFT_BRACE), old(l.left), l.Src(), o))
    decreases Measure(l), 0
  {
    hide Scan, ParseMembers, ParseValue, ParseElems, Lexer.Valid;
    ghost var whole, before := ParseValue(Punctuation(LEFT_BRACE), l.left, l.Src(), o), Measure(l);
    ObjectOpens(l.left, l.Src(), o);
    var members: map<seq<byte>, Value> := map[];
    ghost var s := Scan(l.left, l.Src());
    l.Next();
    if l.token == Punctuation(RIGHT_BRACE) {
      return Found(VObject(members));
    }
    NoTokenStops(l.token, l.left, s.rest, [], members, l.Src(), o);
    while true
      invariant l.Valid()
      invariant whole == ParseMembers(l.token, l.left, members, l.Src(), o)
      invariant Measure(l) < before
      decreases Measure(l)
    {
      MembersStep(l.token, l.left, members, l.Src(), o);
      if !l.token.StringToken? {
        return Refuse(l.token);
      }
      var key := l.token.s;
      if o.rejectDuplicates && key in members {
        return Nothing;
      }
      l.Next();
      if l.token != Punctuation(COLON) {
        return Refuse(l.token);
      }
      s := Scan(l.left, l.Src());
      l.Next();
      NoTokenStops(l.token, l.left, s.rest, [], members, l.Src(), o);
      var v := ParseValueAt(l, o);
      if !v.Found? {
        return v;
      }
      members := members[key := v.value];
      l.Next();
      if l.token != Punctuation(COMMA) {
        break;
      }
      s := Scan(l.left, l.Src());
      l.Next();
      NoTokenStops(l.token, l.left, s.rest, [], members, l.Src(), o);
    }
    r := if l.token == Punctuation(RIGHT_BRACE) then Found(VObject(members)) else Refuse(l.token);
  }

  /** Reads a whole document: a value is found exactly in the texts that denote it by the grammar. */
  method ParseDocument(text: seq<byte>, convert: seq<byte> -> Option<Double>, o: Options) returns (r: Answer)
    requires 0 !in text
    ensures match Loads(text, convert, o)
            case Parsed(v, rest) => r == Found(v)
            case Failed => r == Nothing
            case Crashed => r == Crash
    ensures forall v :: r == Found(v) <==> exists rest :: Denotes(text, v, rest, convert, o)
  {
    hide Scan, ParseValue, Readable, Denotes;
    forall v, rest ensures Loads(text, convert, o) == Parsed(v, rest) <==> Denotes(text, v, rest, convert, o) {
      LoadsDecides(text, convert, o, v, rest);
    }
    var l := new Lexer(text, convert);
    ghost var s := Scan(l.left, l.Src());
    l.Next();
    if !o.decodeAny && l.token != Punctuation(LEFT_BRACKET) && l.token != Punctuation(LEFT_BRACE) {
      return Refuse(l.token);
    }
    NoTokenStops(l.token, l.left, s.rest, [], map[], l.Src(), o);
    r := ParseValueAt(l, o);
    if !r.Found? || o.disableEofCheck {
      return;
    }
    l.Next();
    if !l.token.Eof? {
      r := Refuse(l.token);
    }
  }
}
