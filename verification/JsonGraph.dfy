/**
  Writing values that live on the heap, where containers may be shared or even contain themselves:
  visited marks make the walk end, and fail on a cycle.
 */
module JsonGraph {
  import opened Bytes
  import opened Utf8
  import opened JsonNumbers
  import opened JsonStrings
  import opened JsonPrinter
  import opened JsonReader
  import opened JsonRoundTrip
  import opened JsonFidelity
  import opened JsonGrammar
  import opened JsonReading
  import opened JsonLayout
  import opened Wrappers
  import opened Sequences

  datatype Kind =
    | NullKind | TrueKind | FalseKind
    | IntegerKind(n: int) | RealKind(d: Double) | StringKind(s: seq<byte>)
    | ArrayKind | ObjectKind

  class Json {
    const kind: Kind
    var elems: seq<Json>
    var members: seq<Member<Json>>
    var visited: bool

    constructor (kind: Kind)
      ensures this.kind == kind && elems == [] && members == [] && !visited
    {
      this.kind := kind;
      elems, members, visited := [], [], false;
    }
  }

  predicate IsContainer(j: Json) {
    j.kind.ArrayKind? || j.kind.ObjectKind?
  }

  function ValuesOf(ms: seq<Member<Json>>): seq<Json> {
    seq(|ms|, i requires 0 <= i < |ms| => ms[i].value)
  }

  /** The values a container holds. */
  function Children(j: Json): seq<Json>
    reads j`elems, j`members
  {
    if j.kind.ArrayKind? then j.elems else if j.kind.ObjectKind? then ValuesOf(j.members) else []
  }

  /**
    A set of values that holds all their children; integers fit their type, strings have no octet 0, and keys differ.
   */
  ghost predicate Closed(universe: set<Json>)
    reads universe`elems, universe`members
  {
    && (forall j :: j in universe ==> forall c :: c in Children(j) ==> c in universe)
    && (forall j :: j in universe ==>
          && (j.kind.IntegerKind? ==> INT_MIN <= j.kind.n <= INT_MAX)
          && (j.kind.StringKind? ==> 0 !in j.kind.s)
          && (j.kind.ObjectKind? ==> Distinct(j.members) && forall m :: m in j.members ==> 0 !in m.key))
  }

  /** A string that cannot be written. */
  predicate BadString(j: Json) {
    j.kind.StringKind? && !ValidString(j.kind.s)
  }

  // ---------- what a value unfolds to ----------

  ghost predicate Within(j: Json, universe: set<Json>, path: set<Json>)
    reads universe`elems, universe`members
  {
    j in universe && Closed(universe) && path <= universe
  }

  /** The tree below j, unless a container contains itself or a string is bad; path are the containers above j. */
  ghost function Unfold(j: Json, universe: set<Json>, path: set<Json>): Option<Tree>
    requires Within(j, universe, path)
    reads universe`elems, universe`members
    decreases universe - path, 1, 0
  {
    match j.kind
    case NullKind => Some(Null)
    case TrueKind => Some(True)
    case FalseKind => Some(False)
    case IntegerKind(n) => Some(Integer(n))
    case RealKind(d) => Some(Real(d))
    case StringKind(s) => if ValidString(s) then Some(String(s)) else None
    case ArrayKind =>
      if j in path then None else
      assert forall c :: c in j.elems ==> c in Children(j);
      var es := UnfoldElems(j.elems, universe, path + {j});
      if es.None? then None else Some(Array(es.value))
    case ObjectKind =>
      if j in path then None else
      assert forall m :: m in j.members ==> m.value in universe by { MembersWithin(j, universe); }
      var ms := UnfoldMembers(j.members, universe, path + {j});
      if ms.None? then None else Some(Object(ms.value))
  }

  lemma MembersWithin(j: Json, universe: set<Json>)
    requires j in universe && Closed(universe) && j.kind.ObjectKind?
    ensures forall m :: m in j.members ==> m.value in Children(j) && m.value in universe
  {
    forall m | m in j.members ensures m.value in Children(j) {
      var i :| 0 <= i < |j.members| && j.members[i] == m;
      assert Children(j)[i] == m.value;
    }
  }

  ghost function UnfoldElems(es: seq<Json>, universe: set<Json>, path: set<Json>): (r: Option<seq<Tree>>)
    requires Closed(universe) && path <= universe && forall e :: e in es ==> e in universe
    reads universe`elems, universe`members
    ensures r.Some? ==> |r.value| == |es|
    decreases universe - path, 2, |es|
  {
    if es == [] then Some([]) else
    var t := Unfold(es[0], universe, path);
    var ts := UnfoldElems(es[1..], universe, path);
    if t.None? || ts.None? then None else Some([t.value] + ts.value)
  }

  ghost function UnfoldMembers(ms: seq<Member<Json>>, universe: set<Json>,
                               path: set<Json>): (r: Option<seq<Member<Tree>>>)
    requires Closed(universe) && path <= universe && forall m :: m in ms ==> m.value in universe
    reads universe`elems, universe`members
    ensures r.Some? ==> |r.value| == |ms|
    decreases universe - path, 2, |ms|
  {
    if ms == [] then Some([]) else
    var t := Unfold(ms[0].value, universe, path);
    var ts := UnfoldMembers(ms[1..], universe, path);
    if t.None? || ts.None? then None else Some([Member(ms[0].key, ms[0].serial, t.value)] + ts.value)
  }

  // ---------- the order of members ----------

  /** What one member unfolds to. */
  ghost function UnfoldMember(m: Member<Json>, universe: set<Json>, path: set<Json>): Option<Member<Tree>>
    requires Within(m.value, universe, path)
    reads universe`elems, universe`members
  {
    var t := Unfold(m.value, universe, path);
    if t.None? then None else Some(Member(m.key, m.serial, t.value))
  }

  function Joined(u: Option<Member<Tree>>, us: Option<seq<Member<Tree>>>): Option<seq<Member<Tree>>> {
    if u.None? || us.None? then None else Some([u.value] + us.value)
  }

  lemma UnfoldCons(m: Member<Json>, ms: seq<Member<Json>>, universe: set<Json>, path: set<Json>)
    requires Within(m.value, universe, path) && forall x :: x in ms ==> x.value in universe
    ensures UnfoldMembers([m] + ms, universe, path) ==
            Joined(UnfoldMember(m, universe, path), UnfoldMembers(ms, universe, path))
  {
    hide Unfold, Closed;
    assert ([m] + ms)[1..] == ms;
  }

  function InsertMaybe(u: Option<Member<Tree>>, us: Option<seq<Member<Tree>>>, byKey: bool): Option<seq<Member<Tree>>> {
    if u.None? || us.None? then None else Some(Insert(u.value, us.value, byKey))
  }

  lemma {:induction false} InsertUnfolds(m: Member<Json>, ms: seq<Member<Json>>, byKey: bool, universe: set<Json>,
                                         path: set<Json>)
    requires Within(m.value, universe, path) && forall x :: x in ms ==> x.value in universe
    ensures var r := Insert(m, ms, byKey);
            && (forall x :: x in r ==> x.value in universe)
            && UnfoldMembers(r, universe, path) ==
               InsertMaybe(UnfoldMember(m, universe, path), UnfoldMembers(ms, universe, path), byKey)
    decreases |ms|
  {
    hide UnfoldMembers, Closed, KeyBefore;
    if ms == [] {
      UnfoldCons(m, [], universe, path);
      assert UnfoldMembers([], universe, path) == Some([]) by { NoMembers(universe, path); }
      assert [m] + ms == [m] + [];
    } else {
      assert ms == [ms[0]] + ms[1..];
      UnfoldCons(ms[0], ms[1..], universe, path);
      if Before(m, ms[0], byKey) {
        UnfoldCons(m, ms, universe, path);
      } else {
        InsertUnfolds(m, ms[1..], byKey, universe, path);
        UnfoldCons(ms[0], Insert(m, ms[1..], byKey), universe, path);
      }
      InsertSteps(UnfoldMember(m, universe, path), UnfoldMember(ms[0], universe, path),
        UnfoldMembers(ms[1..], universe, path), byKey);
    }
  }

  lemma NoMembers(universe: set<Json>, path: set<Json>)
    requires Closed(universe) && path <= universe
    ensures UnfoldMembers([], universe, path) == Some([])
  {
  }

  lemma InsertSteps(u: Option<Member<Tree>>, v: Option<Member<Tree>>, us: Option<seq<Member<Tree>>>, byKey: bool)
    ensures u.Some? && v.Some? && us.Some? ==>
            InsertMaybe(u, Joined(v, us), byKey) ==
            if Before(u.value, v.value, byKey) then Joined(u, Joined(v, us)) else Joined(v, InsertMaybe(u, us, byKey))
    ensures u.None? || v.None? || us.None? ==>
            InsertMaybe(u, Joined(v, us), byKey).None? && Joined(u, Joined(v, us)).None?
              && Joined(v, InsertMaybe(u, us, byKey)).None?
  {
    if u.Some? && v.Some? && us.Some? {
      assert ([v.value] + us.value)[1..] == us.value;
    }
  }

  lemma {:induction false} SortUnfolds(ms: seq<Member<Json>>, byKey: bool, universe: set<Json>, path: set<Json>)
    requires Closed(universe) && path <= universe && forall x :: x in ms ==> x.value in universe
    ensures var r := Sort(ms, byKey);
            && (forall x :: x in r ==> x.value in universe)
            && var us := UnfoldMembers(ms, universe, path);
            UnfoldMembers(r, universe, path) == if us.None? then None else Some(Sort(us.value, byKey))
    decreases |ms|
  {
    hide Unfold, Insert;
    if ms != [] {
      SortUnfolds(ms[1..], byKey, universe, path);
      InsertUnfolds(ms[0], Sort(ms[1..], byKey), byKey, universe, path);
    }
  }

  /** Ordering the members of a container and unfolding them can be swapped. */
  lemma OrderUnfolds(ms: seq<Member<Json>>, flags: Flags, universe: set<Json>, path: set<Json>)
    requires Closed(universe) && path <= universe && forall x :: x in ms ==> x.value in universe
    ensures var r := Order(ms, flags);
            && (forall x :: x in r ==> x.value in universe)
            && var us := UnfoldMembers(ms, universe, path);
            UnfoldMembers(r, universe, path) == if us.None? then None else Some(Order(us.value, flags))
  {
    SortUnfolds(ms, true, universe, path);
    SortUnfolds(ms, false, universe, path);
  }

  // ---------- writing ----------

  /** Exactly the containers above the current one are marked. */
  ghost predicate Marked(universe: set<Json>, path: set<Json>)
    reads universe`visited
  {
    forall j :: j in universe ==> (j.visited <==> j in path)
  }

  /** Only containers above the current one are marked: a failure clears the mark of the one it runs into. */
  ghost predicate MarkedWithin(universe: set<Json>, path: set<Json>)
    reads universe`visited
  {
    forall j :: j in universe && j.visited ==> j in path
  }

  method DumpIndent(flags: Flags, depth: nat, space: bool, sink: seq<byte>) returns (out: seq<byte>)
    ensures out == sink + Indent(flags, depth, space)
  {
    out := sink;
    if flags.indent > 0 {
      out := out + [NEWLINE];
      for i := 0 to depth
        invariant out == sink + ([NEWLINE] + Spaces(i * flags.indent))
      {
        SpacesConcat(i * flags.indent, flags.indent);
        assert (i + 1) * flags.indent == i * flags.indent + flags.indent;
        assert sink + ([NEWLINE] + Spaces(i * flags.indent)) + Spaces(flags.indent)
            == sink + ([NEWLINE] + (Spaces(i * flags.indent) + Spaces(flags.indent)));
        out := out + Spaces(flags.indent);
      }
    } else if space && !flags.compact {
      out := out + [SPACE];
    }
  }

  lemma {:induction false} SpacesConcat(a: nat, b: nat)
    ensures a + b >= 0 && Spaces(a) + Spaces(b) == Spaces(a + b)
  {
    if a > 0 {
      SpacesConcat(a - 1, b);
    } else {
      assert [] + Spaces(b) == Spaces(b);
    }
  }

  /** The text of the elements from i on and the break before the closing bracket. */
  function ElemsFrom(us: seq<Tree>, i: nat, flags: Flags, depth: nat): seq<byte>
    requires i <= |us| && depth > 0
  {
    if i == |us| then [] else PrintElems(Array(us), us[i..], flags, depth) + Indent(flags, depth - 1, false)
  }

  lemma ElemsFromStep(us: seq<Tree>, i: nat, flags: Flags, depth: nat)
    requires i < |us| && depth > 0
    ensures ElemsFrom(us, i, flags, depth) ==
            Print(us[i], flags, depth)
            + if i < |us| - 1 then [COMMA] + Indent(flags, depth, true) + ElemsFrom(us, i + 1, flags, depth)
              else Indent(flags, depth - 1, false)
  {
    hide Print, Indent;
    assert us[i..][1..] == us[i + 1..];
  }

  lemma UnfoldElemsStep(es: seq<Json>, i: nat, universe: set<Json>, path: set<Json>)
    requires i < |es| && Closed(universe) && path <= universe && forall e :: e in es ==> e in universe
    ensures var t, ts := Unfold(es[i], universe, path), UnfoldElems(es[i + 1..], universe, path);
            UnfoldElems(es[i..], universe, path) == if t.None? || ts.None? then None else Some([t.value] + ts.value)
  {
    assert es[i..][1..] == es[i + 1..];
  }

  lemma UnfoldElemsEnd(es: seq<Json>, universe: set<Json>, path: set<Json>)
    requires Closed(universe) && path <= universe
    ensures UnfoldElems(es[|es|..], universe, path) == Some([])
  {
    assert es[|es|..] == [];
  }

  method DumpElems(es: seq<Json>, flags: Flags, depth: nat, sink: seq<byte>, ghost universe: set<Json>,
                   ghost path: set<Json>)
    returns (ok: bool, out: seq<byte>)
    requires Closed(universe) && path <= universe && (forall e :: e in es ==> e in universe) && depth > 0
    requires Marked(universe, path)
    modifies universe`visited
    ensures if ok then Marked(universe, path) else MarkedWithin(universe, path)
    ensures ok <==> UnfoldElems(es, universe, path).Some?
    ensures ok ==> out == sink + ElemsFrom(UnfoldElems(es, universe, path).value, 0, flags, depth)
    decreases universe - path, 2, 0
  {
    hide Unfold, UnfoldElems, Closed, ElemsFrom, Print, Indent, Marked, MarkedWithin;
    ghost var whole := UnfoldElems(es, universe, path);
    out := sink;
    assert es[0..] == es;
    for i := 0 to |es|
      invariant Marked(universe, path)
      invariant whole.Some? <==> UnfoldElems(es[i..], universe, path).Some?
      invariant whole.Some? ==> |whole.value| == |es| && UnfoldElems(es[i..], universe, path).value == whole.value[i..]
      invariant whole.Some? ==>
                out + ElemsFrom(whole.value, i, flags, depth) == sink + ElemsFrom(whole.value, 0, flags, depth)
    {
      UnfoldElemsStep(es, i, universe, path);
      ghost var before := out;
      ok, out := DumpValue(es[i], flags, depth, out, universe, path);
      if !ok {
        return;
      }
      if i < |es| - 1 {
        out := out + [COMMA];
        out := DumpIndent(flags, depth, true, out);
      } else {
        out := DumpIndent(flags, depth - 1, false, out);
      }
      if whole.Some? {
        TailOf(Unfold(es[i], universe, path).value, UnfoldElems(es[i + 1..], universe, path).value, whole.value, i);
        ElemsFromStep(whole.value, i, flags, depth);
        var text, more := Print(whole.value[i], flags, depth), ElemsFrom(whole.value, i + 1, flags, depth);
        if i < |es| - 1 {
          Regroup(before, text, [COMMA], Indent(flags, depth, true), more);
        } else {
          assert more == [] by { ElemsFromEnd(whole.value, flags, depth); }
        }
      }
    }
    UnfoldElemsEnd(es, universe, path);
    assert whole.Some?;
    ElemsFromEnd(whole.value, flags, depth);
    ok := true;
  }

  lemma TailOf<T>(x: T, s: seq<T>, w: seq<T>, i: nat)
    requires i < |w| && w[i..] == [x] + s
    ensures x == w[i] && s == w[i + 1..]
  {
    assert w[i..][1..] == w[i + 1..];
  }

  lemma Regroup5(a: seq<byte>, b: seq<byte>, c: seq<byte>, d: seq<byte>, e: seq<byte>)
    ensures a + b + c + d + e == a + (b + c + d + e)
  {
  }

  lemma Regroup4(a: seq<byte>, b: seq<byte>, c: seq<byte>, d: seq<byte>, e: seq<byte>)
    ensures a + b + c + d + e == a + (b + c + (d + e))
  {
  }

  lemma Regroup(a: seq<byte>, b: seq<byte>, c: seq<byte>, d: seq<byte>, e: seq<byte>)
    ensures a + (b + (c + d + e)) == a + b + c + d + e
  {
  }

  lemma ElemsFromEnd(us: seq<Tree>, flags: Flags, depth: nat)
    requires depth > 0
    ensures ElemsFrom(us, |us|, flags, depth) == []
  {
  }

  method DumpValue(j: Json, flags: Flags, depth: nat, sink: seq<byte>, ghost universe: set<Json>, ghost path: set<Json>)
    returns (ok: bool, out: seq<byte>)
    requires Within(j, universe, path) && Marked(universe, path)
    modifies universe`visited
    ensures if ok then Marked(universe, path) else MarkedWithin(universe, path)
    ensures ok <==> Unfold(j, universe, path).Some?
    ensures ok ==> out == sink + Print(Unfold(j, universe, path).value, flags, depth)
    decreases universe - path, 1, 0
  {
    match j.kind {
      case NullKind =>
        return true, sink + NULL_TEXT;
      case TrueKind =>
        return true, sink + TRUE_TEXT;
      case FalseKind =>
        return true, sink + FALSE_TEXT;
      case IntegerKind(n) =>
        return true, sink + Decimal(n);
      case RealKind(d) =>
        return true, sink + WrittenReal(d, flags);
      case StringKind(s) =>
        var text;
        ok, text := DumpString(s, flags.ascii);
        out := sink + text;
      case ArrayKind =>
        ok, out := DumpArray(j, flags, depth, sink, universe, path);
      case ObjectKind =>
        ok, out := DumpObject(j, flags, depth, sink, universe, path);
    }
  }

  lemma UnfoldArray(j: Json, universe: set<Json>, path: set<Json>)
    requires Within(j, universe, path) && j.kind.ArrayKind? && j !in path
    ensures (forall e :: e in j.elems ==> e in universe)
    ensures var es := UnfoldElems(j.elems, universe, path + {j});
            Unfold(j, universe, path) == if es.None? then None else Some(Array(es.value))
    ensures j.elems == [] ==> UnfoldElems(j.elems, universe, path + {j}) == Some([])
  {
    assert forall c :: c in j.elems ==> c in Children(j);
  }

  lemma UnfoldObject(j: Json, universe: set<Json>, path: set<Json>)
    requires Within(j, universe, path) && j.kind.ObjectKind? && j !in path
    ensures forall m :: m in j.members ==> m.value in universe
    ensures var ms := UnfoldMembers(j.members, universe, path + {j});
            Unfold(j, universe, path) == if ms.None? then None else Some(Object(ms.value))
    ensures j.members == [] ==> UnfoldMembers(j.members, universe, path + {j}) == Some([])
  {
    MembersWithin(j, universe);
  }

  lemma NotUnfolded(j: Json, universe: set<Json>, path: set<Json>)
    requires Within(j, universe, path)
    ensures BadString(j) || (IsContainer(j) && j in path) ==> Unfold(j, universe, path) == None
  {
  }

  lemma OnPath(j: Json, universe: set<Json>, path: set<Json>)
    requires Within(j, universe, path) && IsContainer(j) && j in path
    ensures Unfold(j, universe, path) == None
  {
  }

  lemma ArrayText(us: seq<Tree>, flags: Flags, depth: nat)
    ensures Print(Array(us), flags, depth) ==
            if us == [] then [LEFT_BRACKET] + [RIGHT_BRACKET]
            else [LEFT_BRACKET] + Indent(flags, depth + 1, false) + ElemsFrom(us, 0, flags, depth + 1) + [RIGHT_BRACKET]
  {
    hide Indent, PrintElems;
    assert us[0..] == us;
    var items := PrintElems(Array(us), us, flags, depth + 1);
    Associative([LEFT_BRACKET] + Indent(flags, depth + 1, false), items, Indent(flags, depth, false));
  }

  lemma ObjectText(us: seq<Member<Tree>>, flags: Flags, depth: nat)
    ensures var ms := Order(us, flags);
            Print(Object(us), flags, depth) ==
            if us == [] then [LEFT_BRACE] + [RIGHT_BRACE]
            else [LEFT_BRACE] + Indent(flags, depth + 1, false) + MembersFrom(ms, 0, flags, depth + 1) + [RIGHT_BRACE]
  {
    hide Indent, PrintMembers, Order;
    var ms := Order(us, flags);
    assert ms[0..] == ms;
    SameMembersText(Object(us), Object(ms), ms, flags, depth + 1);
    var items := PrintMembers(Object(us), ms, flags, depth + 1);
    Associative([LEFT_BRACE] + Indent(flags, depth + 1, false), items, Indent(flags, depth, false));
  }

  /** The object only bounds the recursion. */
  lemma {:induction false} SameMembersText(t: Tree, u: Tree, ms: seq<Member<Tree>>, flags: Flags, depth: nat)
    requires t.Object? && u.Object? && forall m :: m in ms ==> m in t.members && m in u.members
    ensures PrintMembers(t, ms, flags, depth) == PrintMembers(u, ms, flags, depth)
    decreases |ms|
  {
    hide Print, Indent;
    if |ms| > 1 {
      SameMembersText(t, u, ms[1..], flags, depth);
    }
  }

  method DumpArray(j: Json, flags: Flags, depth: nat, sink: seq<byte>, ghost universe: set<Json>, ghost path: set<Json>)
    returns (ok: bool, out: seq<byte>)
    requires Within(j, universe, path) && Marked(universe, path) && j.kind.ArrayKind?
    modifies universe`visited
    ensures if ok then Marked(universe, path) else MarkedWithin(universe, path)
    ensures ok <==> Unfold(j, universe, path).Some?
    ensures ok ==> out == sink + Print(Unfold(j, universe, path).value, flags, depth)
    decreases universe - path, 0, 0
  {
    hide Unfold, UnfoldElems, Closed, ElemsFrom, Print, Indent;
    if j.visited {
      OnPath(j, universe, path);
      j.visited := false;
      return false, sink;
    }
    UnfoldArray(j, universe, path);
    j.visited := true;
    ok, out := true, sink + [LEFT_BRACKET];
    if |j.elems| > 0 {
      out := DumpIndent(flags, depth + 1, false, out);
      ok, out := DumpElems(j.elems, flags, depth + 1, out, universe, path + {j});
    }
    j.visited := false;
    if ok {
      ghost var us := UnfoldElems(j.elems, universe, path + {j}).value;
      ArrayText(us, flags, depth);
      if j.elems != [] {
        var items := ElemsFrom(us, 0, flags, depth + 1);
        Regroup5(sink, [LEFT_BRACKET], Indent(flags, depth + 1, false), items, [RIGHT_BRACKET]);
      }
      out := out + [RIGHT_BRACKET];
    }
  }

  method DumpObject(j: Json, flags: Flags, depth: nat, sink: seq<byte>, ghost universe: set<Json>,
                    ghost path: set<Json>)
    returns (ok: bool, out: seq<byte>)
    requires Within(j, universe, path) && Marked(universe, path) && j.kind.ObjectKind?
    modifies universe`visited
    ensures if ok then Marked(universe, path) else MarkedWithin(universe, path)
    ensures ok <==> Unfold(j, universe, path).Some?
    ensures ok ==> out == sink + Print(Unfold(j, universe, path).value, flags, depth)
    decreases universe - path, 0, 0
  {
    hide Unfold, UnfoldMembers, Closed, MembersFrom, Print, Indent, Order;
    if j.visited {
      OnPath(j, universe, path);
      j.visited := false;
      return false, sink;
    }
    UnfoldObject(j, universe, path);
    OrderUnfolds(j.members, flags, universe, path + {j});
    j.visited := true;
    ok, out := true, sink + [LEFT_BRACE];
    if |j.members| > 0 {
      out := DumpIndent(flags, depth + 1, false, out);
      ok, out := DumpMembers(Order(j.members, flags), flags, depth + 1, out, universe, path + {j});
    }
    j.visited := false;
    if ok {
      ghost var us := UnfoldMembers(j.members, universe, path + {j}).value;
      ObjectText(us, flags, depth);
      if j.members != [] {
        var items := MembersFrom(Order(us, flags), 0, flags, depth + 1);
        Regroup5(sink, [LEFT_BRACE], Indent(flags, depth + 1, false), items, [RIGHT_BRACE]);
      }
      out := out + [RIGHT_BRACE];
    }
  }

  method DumpMembers(ms: seq<Member<Json>>, flags: Flags, depth: nat, sink: seq<byte>, ghost universe: set<Json>,
                     ghost path: set<Json>)
    returns (ok: bool, out: seq<byte>)
    requires Closed(universe) && path <= universe && (forall m :: m in ms ==> m.value in universe) && depth > 0
    requires Marked(universe, path)
    modifies universe`visited
    ensures if ok then Marked(universe, path) else MarkedWithin(universe, path)
    ensures ok <==> UnfoldMembers(ms, universe, path).Some?
    ensures ok ==> out == sink + MembersFrom(UnfoldMembers(ms, universe, path).value, 0, flags, depth)
    decreases universe - path, 2, 0
  {
    hide Unfold, UnfoldMembers, Closed, MembersFrom, Print, PrintMember, Indent, Marked, MarkedWithin, StringText;
    ghost var whole := UnfoldMembers(ms, universe, path);
    out := sink;
    assert ms[0..] == ms;
    for i := 0 to |ms|
      invariant Marked(universe, path)
      invariant whole.Some? <==> UnfoldMembers(ms[i..], universe, path).Some?
      invariant whole.Some? ==>
                |whole.value| == |ms| && UnfoldMembers(ms[i..], universe, path).value == whole.value[i..]
      invariant whole.Some? ==>
                out + MembersFrom(whole.value, i, flags, depth) == sink + MembersFrom(whole.value, 0, flags, depth)
    {
      UnfoldMembersStep(ms, i, universe, path);
      ghost var before := out;
      ok, out := DumpMember(ms[i], flags, depth, out, universe, path);
      if !ok {
        return;
      }
      if i < |ms| - 1 {
        out := out + [COMMA];
        out := DumpIndent(flags, depth, true, out);
      } else {
        out := DumpIndent(flags, depth - 1, false, out);
      }
      if whole.Some? {
        var rest := UnfoldMembers(ms[i + 1..], universe, path).value;
        TailOf(UnfoldMember(ms[i], universe, path).value, rest, whole.value, i);
        MembersFromStep(whole.value, i, flags, depth);
        var text := MemberText(whole.value[i], flags, depth);
        var more := MembersFrom(whole.value, i + 1, flags, depth);
        if i < |ms| - 1 {
          Regroup(before, text, [COMMA], Indent(flags, depth, true), more);
        } else {
          assert more == [] by { MembersFromEnd(whole.value, flags, depth); }
        }
      }
    }
    UnfoldMembersEnd(ms, universe, path);
    assert whole.Some?;
    MembersFromEnd(whole.value, flags, depth);
    ok := true;
  }

  /** The key, the separator and the value; a key that cannot be written to its end does not stop the writing. */
  method DumpMember(m: Member<Json>, flags: Flags, depth: nat, sink: seq<byte>, ghost universe: set<Json>,
                    ghost path: set<Json>)
    returns (ok: bool, out: seq<byte>)
    requires Within(m.value, universe, path) && Marked(universe, path)
    modifies universe`visited
    ensures if ok then Marked(universe, path) else MarkedWithin(universe, path)
    ensures ok <==> UnfoldMember(m, universe, path).Some?
    ensures ok ==> out == sink + MemberText(UnfoldMember(m, universe, path).value, flags, depth)
    decreases universe - path, 1, 1
  {
    hide Unfold, Closed, Print, Marked, MarkedWithin, StringText;
    var valid, key := DumpString(m.key, flags.ascii);
    out := sink + key + Separator(flags);
    ok, out := DumpValue(m.value, flags, depth, out, universe, path);
  }

  function MemberText(m: Member<Tree>, flags: Flags, depth: nat): seq<byte> {
    StringText(m.key, flags.ascii) + Separator(flags) + Print(m.value, flags, depth)
  }

  /** The text of the members from i on and the break before the closing brace. */
  function MembersFrom(us: seq<Member<Tree>>, i: nat, flags: Flags, depth: nat): seq<byte>
    requires i <= |us| && depth > 0
  {
    if i == |us| then [] else PrintMembers(Object(us), us[i..], flags, depth) + Indent(flags, depth - 1, false)
  }

  lemma MembersFromStep(us: seq<Member<Tree>>, i: nat, flags: Flags, depth: nat)
    requires i < |us| && depth > 0
    ensures MembersFrom(us, i, flags, depth) ==
            MemberText(us[i], flags, depth)
            + if i < |us| - 1 then [COMMA] + Indent(flags, depth, true) + MembersFrom(us, i + 1, flags, depth)
              else Indent(flags, depth - 1, false)
  {
    hide Print, Indent, StringText, Separator;
    var t := Object(us);
    assert us[i..][1..] == us[i + 1..];
    assert PrintMember(t, us[i], flags, depth) == MemberText(us[i], flags, depth);
    if i < |us| - 1 {
      var a, d := MemberText(us[i], flags, depth), PrintMembers(t, us[i + 1..], flags, depth);
      Regroup4(a, [COMMA], Indent(flags, depth, true), d, Indent(flags, depth - 1, false));
    }
  }

  lemma UnfoldMembersStep(ms: seq<Member<Json>>, i: nat, universe: set<Json>, path: set<Json>)
    requires i < |ms| && Closed(universe) && path <= universe && forall m :: m in ms ==> m.value in universe
    ensures UnfoldMembers(ms[i..], universe, path) ==
            Joined(UnfoldMember(ms[i], universe, path), UnfoldMembers(ms[i + 1..], universe, path))
  {
    hide Unfold;
    assert ms[i..][1..] == ms[i + 1..];
  }

  lemma UnfoldMembersEnd(ms: seq<Member<Json>>, universe: set<Json>, path: set<Json>)
    requires Closed(universe) && path <= universe
    ensures UnfoldMembers(ms[|ms|..], universe, path) == Some([])
  {
    assert ms[|ms|..] == [];
  }

  lemma MembersFromEnd(us: seq<Member<Tree>>, flags: Flags, depth: nat)
    requires depth > 0
    ensures MembersFrom(us, |us|, flags, depth) == []
  {
  }

  // ---------- what cannot be written ----------

  /** A way through the graph, from container to child. */
  ghost predicate Walk(w: seq<Json>, universe: set<Json>)
    reads universe`elems, universe`members
  {
    && w != [] && (forall i :: 0 <= i < |w| ==> w[i] in universe)
    && (forall i :: 0 < i < |w| ==> w[i] in Children(w[i - 1]))
  }

  ghost predicate Repeats(w: seq<Json>) {
    exists i, j :: 0 <= i < j < |w| && w[i] == w[j]
  }

  /** A way from the root that comes back to where it has been, or ends at a bad string. */
  ghost predicate Stuck(w: seq<Json>, root: Json, universe: set<Json>)
    reads universe`elems, universe`members
  {
    Walk(w, universe) && w[0] == root && (Repeats(w) || BadString(w[|w| - 1]))
  }

  /** A way from j that gets stuck, or comes to one of the containers above j. */
  ghost predicate RunsInto(w: seq<Json>, j: Json, universe: set<Json>, path: set<Json>)
    reads universe`elems, universe`members
  {
    Walk(w, universe) && w[0] == j && (Stuck(w, j, universe) || (IsContainer(w[|w| - 1]) && w[|w| - 1] in path))
  }

  lemma WalkOn(j: Json, w: seq<Json>, universe: set<Json>)
    requires j in universe && Walk(w, universe) && w[0] in Children(j)
    ensures Walk([j] + w, universe) && (Repeats(w) || w[|w| - 1] == j ==> Repeats([j] + w))
  {
    var v := [j] + w;
    assert forall i :: 0 < i < |v| ==> v[i] == w[i - 1];
    if Repeats(w) {
      var i, k :| 0 <= i < k < |w| && w[i] == w[k];
      assert v[i + 1] == v[k + 1];
    } else if w[|w| - 1] == j {
      assert v[0] == v[|v| - 1];
    }
  }

  lemma OneStep(j: Json, c: Json, w: seq<Json>, universe: set<Json>, path: set<Json>)
    requires Within(j, universe, path) && c in Children(j) && IsContainer(j) && RunsInto(w, c, universe, path + {j})
    ensures RunsInto([j] + w, j, universe, path)
  {
    hide Repeats, Closed;
    WalkOn(j, w, universe);
    var v := [j] + w;
    assert v[|v| - 1] == w[|w| - 1];
  }

  /** A value that does not unfold has such a way. */
  lemma {:induction false} StuckSomewhere(j: Json, universe: set<Json>, path: set<Json>) returns (w: seq<Json>)
    requires Within(j, universe, path) && Unfold(j, universe, path).None?
    ensures RunsInto(w, j, universe, path)
    decreases universe - path, 1, 0
  {
    if j in path || BadString(j) {
      w := [j];
    } else {
      ContainerUnfolds(j, universe, path);
      var c, v := StuckChild(j, Children(j), universe, path + {j});
      OneStep(j, c, v, universe, path);
      w := [j] + v;
    }
  }

  ghost predicate SomeStuck(cs: seq<Json>, universe: set<Json>, path: set<Json>)
    requires Closed(universe) && path <= universe && forall c :: c in cs ==> c in universe
    reads universe`elems, universe`members
  {
    exists c :: c in cs && Unfold(c, universe, path).None?
  }

  lemma {:induction false} StuckChild(j: Json, cs: seq<Json>, universe: set<Json>, path: set<Json>)
    returns (c: Json, w: seq<Json>)
    requires Closed(universe) && path <= universe && (forall c :: c in cs ==> c in universe)
    requires SomeStuck(cs, universe, path)
    ensures c in cs && RunsInto(w, c, universe, path)
    decreases universe - path, 2, 0
  {
    c :| c in cs && Unfold(c, universe, path).None?;
    w := StuckSomewhere(c, universe, path);
  }

  lemma {:induction false} ElemsUnfold(es: seq<Json>, universe: set<Json>, path: set<Json>)
    requires Closed(universe) && path <= universe && forall e :: e in es ==> e in universe
    ensures UnfoldElems(es, universe, path).Some? <==> !SomeStuck(es, universe, path)
    decreases |es|
  {
    hide Unfold;
    if es != [] {
      ElemsUnfold(es[1..], universe, path);
      assert forall e :: e in es <==> e == es[0] || e in es[1..];
    }
  }

  lemma {:induction false} MembersUnfold(ms: seq<Member<Json>>, universe: set<Json>, path: set<Json>)
    requires Closed(universe) && path <= universe && forall m :: m in ms ==> m.value in universe
    ensures (forall c :: c in ValuesOf(ms) ==> c in universe)
    ensures UnfoldMembers(ms, universe, path).Some? <==> !SomeStuck(ValuesOf(ms), universe, path)
    decreases |ms|
  {
    hide Unfold, Closed;
    if ms != [] {
      MembersUnfold(ms[1..], universe, path);
      var cs, more := ValuesOf(ms), ValuesOf(ms[1..]);
      assert cs == [ms[0].value] + more;
      assert forall c :: c in cs <==> c == ms[0].value || c in more;
    }
  }

  /** A container unfolds exactly when it is not above itself and all its children unfold. */
  lemma ContainerUnfolds(j: Json, universe: set<Json>, path: set<Json>)
    requires Within(j, universe, path) && IsContainer(j) && j !in path
    ensures (forall c :: c in Children(j) ==> c in universe)
    ensures Unfold(j, universe, path).Some? <==> !SomeStuck(Children(j), universe, path + {j})
  {
    if j.kind.ArrayKind? {
      UnfoldArray(j, universe, path);
      ElemsUnfold(j.elems, universe, path + {j});
    } else {
      UnfoldObject(j, universe, path);
      MembersUnfold(j.members, universe, path + {j});
    }
  }

  /** No way from a value that unfolds repeats a container, meets one above it or a bad string. */
  lemma {:induction false} UnfoldedIsAcyclic(w: seq<Json>, universe: set<Json>, path: set<Json>)
    requires Walk(w, universe) && Within(w[0], universe, path) && Unfold(w[0], universe, path).Some?
    ensures !Repeats(w) && forall i :: 0 <= i < |w| ==> !BadString(w[i]) && (IsContainer(w[i]) ==> w[i] !in path)
    decreases |w|
  {
    hide Unfold, Closed;
    var j := w[0];
    NotUnfolded(j, universe, path);
    if |w| > 1 {
      var v := w[1..];
      assert w[1] in Children(j);
      ContainerUnfolds(j, universe, path);
      assert forall i :: 0 < i < |v| ==> v[i] == w[i + 1] && w[i + 1] in Children(w[i]);
      UnfoldedIsAcyclic(v, universe, path + {j});
      forall i, k | 0 <= i < k < |w| ensures w[i] != w[k] {
        assert w[k] == v[k - 1];
        if i > 0 {
          assert w[i] == v[i - 1];
        }
      }
    }
  }

  lemma NeverStuck(w: seq<Json>, root: Json, universe: set<Json>)
    requires root in universe && Closed(universe) && Unfold(root, universe, {}).Some?
    ensures !Stuck(w, root, universe)
  {
    hide Unfold, Closed;
    if Walk(w, universe) && w[0] == root {
      UnfoldedIsAcyclic(w, universe, {});
    }
  }

  /** A value unfolds exactly when no cycle and no bad string can be reached from it; sharing alone does no harm. */
  lemma UnfoldsUnlessStuck(root: Json, universe: set<Json>)
    requires root in universe && Closed(universe)
    ensures Unfold(root, universe, {}).Some? <==> !exists w :: Stuck(w, root, universe)
  {
    hide Unfold, Closed, Walk, Repeats;
    if Unfold(root, universe, {}).None? {
      var w := StuckSomewhere(root, universe, {});
      assert Stuck(w, root, universe);
    } else {
      forall w | Stuck(w, root, universe) ensures false {
        NeverStuck(w, root, universe);
      }
    }
  }

  // ---------- what is written can be read back ----------

  predicate CanBeWritten(t: Tree) {
    Sane(t) && Writable(t)
  }

  lemma {:induction false} ElemsPrintable(es: seq<Json>, universe: set<Json>, path: set<Json>)
    requires Closed(universe) && path <= universe && (forall e :: e in es ==> e in universe)
             && UnfoldElems(es, universe, path).Some?
    ensures forall t :: t in UnfoldElems(es, universe, path).value ==> CanBeWritten(t)
    decreases universe - path, 2, |es|
  {
    hide CanBeWritten, Unfold;
    if es != [] {
      UnfoldPrintable(es[0], universe, path);
      ElemsPrintable(es[1..], universe, path);
    }
  }

  lemma {:induction false} MembersPrintable(ms: seq<Member<Json>>, universe: set<Json>, path: set<Json>)
    requires Closed(universe) && path <= universe && (forall m :: m in ms ==> m.value in universe)
    requires UnfoldMembers(ms, universe, path).Some?
    ensures var us := UnfoldMembers(ms, universe, path).value;
            forall i :: 0 <= i < |us| ==>
              us[i].key == ms[i].key && us[i].serial == ms[i].serial && CanBeWritten(us[i].value)
    decreases universe - path, 2, |ms|
  {
    hide CanBeWritten, Unfold;
    if ms != [] {
      UnfoldPrintable(ms[0].value, universe, path);
      MembersPrintable(ms[1..], universe, path);
    }
  }

  lemma ArrayCanBeWritten(ts: seq<Tree>)
    requires forall t :: t in ts ==> CanBeWritten(t)
    ensures CanBeWritten(Array(ts))
  {
    assert forall i :: 0 <= i < |ts| ==> ts[i] in ts;
  }

  lemma {:induction false} UnfoldPrintable(j: Json, universe: set<Json>, path: set<Json>)
    requires Within(j, universe, path) && Unfold(j, universe, path).Some?
    ensures CanBeWritten(Unfold(j, universe, path).value)
    decreases universe - path, 1, 0
  {
    hide ValidString, UnfoldElems, UnfoldMembers;
    if IsContainer(j) {
      if j in path {
        OnPath(j, universe, path);
      } else if j.kind.ArrayKind? {
        UnfoldArray(j, universe, path);
        ElemsPrintable(j.elems, universe, path + {j});
        ArrayCanBeWritten(UnfoldElems(j.elems, universe, path + {j}).value);
      } else {
        UnfoldObject(j, universe, path);
        MembersPrintable(j.members, universe, path + {j});
      }
    }
  }

  /**
    Writes a document; all marks are clear again afterwards, whether it succeeds or not.  A reader gets the value
    back, and the text denotes it by the grammar, exactly when all keys below the root are valid and all reals return.
   */
  method DumpDocument(root: Json, flags: Flags, ghost universe: set<Json>, ghost convert: seq<byte> -> Option<Double>,
                      ghost o: Options)
    returns (r: Option<seq<byte>>)
    requires root in universe && Closed(universe) && Marked(universe, {})
    modifies universe`visited
    ensures Marked(universe, {})
    ensures r == if Unfold(root, universe, {}).None? then None else Dumps(Unfold(root, universe, {}).value, flags)
    ensures r.Some? <==> (flags.encodeAny || IsContainer(root)) && !exists w :: Stuck(w, root, universe)
    ensures r.Some? ==>
            var t := Unfold(root, universe, {}).value;
            (GivesBack(Loads(r.value, convert, o), t) <==>
             (IsContainer(root) || o.decodeAny) && KeysOk(t)
               && NumbersReturn(ValueOf(t, EXACT), TripOf(flags.write, convert)))
    ensures r.Some? ==>
            var t := Unfold(root, universe, {}).value;
            && (GivesBack(Loads(r.value, convert, o), t) <==> Denotes(r.value, ValueOf(t, EXACT), [], convert, o))
            && (Layable(t) ==> r.value == Spell(Laid(t, flags, 0)))
  {
    hide Unfold, Print, Loads, ValueOf, Sane, Writable, Closed, Walk, Repeats, KeysOk, NumbersReturn, GivesBack;
    hide Denotes, Laid, Spell, Layable;
    UnfoldsUnlessStuck(root, universe);
    KindOfTree(root, universe);
    if !flags.encodeAny && !root.kind.ArrayKind? && !root.kind.ObjectKind? {
      return None;
    }
    var ok, out := DumpValue(root, flags, 0, [], universe, {});
    UnfoldsUnlessStuck(root, universe);
    if !ok {
      return None;
    }
    ghost var t := Unfold(root, universe, {}).value;
    assert [] + Print(t, flags, 0) == Print(t, flags, 0);
    r := Some(out);
    ReadsBack(t, flags, convert, o);
    WrittenDenotes(t, flags, convert, o);
    if Layable(t) {
      PrintIsLaid(t, flags, 0);
    }
  }

  /** Each kind of value unfolds to a tree of its own kind, element by element and member by member. */
  lemma UnfoldShape(j: Json, universe: set<Json>, path: set<Json>)
    requires Within(j, universe, path) && Unfold(j, universe, path).Some?
    ensures var t := Unfold(j, universe, path).value;
            match j.kind
            case NullKind => t == Null
            case TrueKind => t == True
            case FalseKind => t == False
            case IntegerKind(n) => t == Integer(n)
            case RealKind(d) => t == Real(d)
            case StringKind(s) => t == String(s)
            case ArrayKind =>
              && t.Array? && |t.elems| == |j.elems| && (forall e :: e in j.elems ==> e in universe)
              && forall i :: 0 <= i < |j.elems| ==> Unfold(j.elems[i], universe, path + {j}) == Some(t.elems[i])
            case ObjectKind =>
              && t.Object? && |t.members| == |j.members| && (forall m :: m in j.members ==> m.value in universe)
              && forall i :: 0 <= i < |j.members| ==>
                   && t.members[i].key == j.members[i].key && t.members[i].serial == j.members[i].serial
                   && Unfold(j.members[i].value, universe, path + {j}) == Some(t.members[i].value)
  {
    if IsContainer(j) {
      if j in path {
        OnPath(j, universe, path);
      } else if j.kind.ArrayKind? {
        UnfoldArray(j, universe, path);
        ElemsShape(j.elems, universe, path + {j});
      } else {
        UnfoldObject(j, universe, path);
        MembersShape(j.members, universe, path + {j});
      }
    }
  }

  lemma {:induction false} ElemsShape(es: seq<Json>, universe: set<Json>, path: set<Json>)
    requires Closed(universe) && path <= universe && (forall e :: e in es ==> e in universe)
    requires UnfoldElems(es, universe, path).Some?
    ensures forall i :: 0 <= i < |es| ==>
            Unfold(es[i], universe, path) == Some(UnfoldElems(es, universe, path).value[i])
    decreases |es|
  {
    hide Unfold, Closed;
    if es != [] {
      ElemsShape(es[1..], universe, path);
    }
  }

  lemma {:induction false} MembersShape(ms: seq<Member<Json>>, universe: set<Json>, path: set<Json>)
    requires Closed(universe) && path <= universe && (forall m :: m in ms ==> m.value in universe)
    requires UnfoldMembers(ms, universe, path).Some?
    ensures var us := UnfoldMembers(ms, universe, path).value;
            forall i :: 0 <= i < |ms| ==>
              && us[i].key == ms[i].key && us[i].serial == ms[i].serial
              && Unfold(ms[i].value, universe, path) == Some(us[i].value)
    decreases |ms|
  {
    hide Unfold, Closed;
    if ms != [] {
      MembersShape(ms[1..], universe, path);
    }
  }

  lemma KindOfTree(root: Json, universe: set<Json>)
    requires Within(root, universe, {})
    ensures Unfold(root, universe, {}).Some? ==>
            var t := Unfold(root, universe, {}).value;
            CanBeWritten(t) && (t.Array? <==> root.kind.ArrayKind?) && (t.Object? <==> root.kind.ObjectKind?)
  {
    hide CanBeWritten;
    if Unfold(root, universe, {}).Some? {
      UnfoldPrintable(root, universe, {});
    }
  }
}
