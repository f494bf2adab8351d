/** Comparing JSON values: objects by their size and a lookup of each key of the first in the second. */
module JsonEquality {
  import opened Bytes
  import opened JsonNumbers
  import opened JsonReader

  type Members = map<seq<byte>, Value>

  /** A map with as many keys as another and no key the other lacks has the same keys. */
  lemma SameKeys(m: Members, n: Members)
    requires |m| == |n| && forall k :: k in m ==> k in n
    ensures m.Keys == n.Keys
  {
    assert m.Keys <= n.Keys && |m.Keys| == |m| && |n.Keys| == |n|;
    SameSize(m.Keys, n.Keys);
  }

  lemma SameSize<T>(a: set<T>, b: set<T>)
    requires a <= b && |a| == |b|
    ensures a == b
  {
    assert b == a + (b - a) && |b - a| == |b| - |a|;
  }

  /** The same at every depth, reals as numbers. */
  ghost predicate SameValue(a: Value, b: Value) {
    match a
    case VReal(d) => b.VReal? && SameNumber(d, b.d)
    case VArray(elems) =>
      b.VArray? && |elems| == |b.elems| && forall i :: 0 <= i < |elems| ==> SameValue(elems[i], b.elems[i])
    case VObject(members) =>
      b.VObject? && members.Keys == b.members.Keys && forall k :: k in members ==> SameValue(members[k], b.members[k])
    case _ => a == b
  }

  predicate NoNan(v: Value) {
    match v
    case VReal(d) => !IsNan(d)
    case VArray(elems) => forall i :: 0 <= i < |elems| ==> NoNan(elems[i])
    case VObject(members) => forall k :: k in members ==> NoNan(members[k])
    case _ => true
  }

  /** The value with a positive zero for every zero. */
  function Unsigned(v: Value): Value {
    match v
    case VReal(d) => VReal(if d == SIGN then 0 else d)
    case VArray(elems) => VArray(seq(|elems|, i requires 0 <= i < |elems| => Unsigned(elems[i])))
    case VObject(members) => VObject(map k | k in members :: Unsigned(members[k]))
    case _ => v
  }

  /** Only equal values are the same, but for the sign of zeros; and one with a NaN in it is not the same as itself. */
  lemma {:induction false} SameMeans(a: Value, b: Value)
    ensures SameValue(a, b) <==> NoNan(a) && Unsigned(a) == Unsigned(b)
  {
    match a {
      case VReal(d) =>
        if b.VReal? {
          SameZeros(d, b.d);
        }
      case VArray(elems) =>
        if b.VArray? && |elems| == |b.elems| {
          forall i | 0 <= i < |elems|
            ensures SameValue(elems[i], b.elems[i]) <==> NoNan(elems[i]) && Unsigned(elems[i]) == Unsigned(b.elems[i])
          {
            SameMeans(elems[i], b.elems[i]);
          }
          ArraysSame(a, b);
        } else if b.VArray? {
          assert |Unsigned(a).elems| == |elems| && |Unsigned(b).elems| == |b.elems|;
        }
      case VObject(members) =>
        if b.VObject? && members.Keys == b.members.Keys {
          forall k | k in members
            ensures SameValue(members[k], b.members[k]) <==>
                    NoNan(members[k]) && Unsigned(members[k]) == Unsigned(b.members[k])
          {
            SameMeans(members[k], b.members[k]);
          }
          ObjectsSame(a, b);
        } else if b.VObject? {
          assert Unsigned(a).members.Keys == members.Keys && Unsigned(b).members.Keys == b.members.Keys;
        }
      case _ =>
    }
  }

  lemma SameZeros(d: Double, e: Double)
    ensures SameNumber(d, e) <==> !IsNan(d) && (if d == SIGN then 0 else d) == (if e == SIGN then 0 else e)
  {
  }

  lemma ArraysSame(a: Value, b: Value)
    requires a.VArray? && b.VArray? && |a.elems| == |b.elems|
    requires forall i :: 0 <= i < |a.elems| ==>
               (SameValue(a.elems[i], b.elems[i]) <==>
                 NoNan(a.elems[i]) && Unsigned(a.elems[i]) == Unsigned(b.elems[i]))
    ensures SameValue(a, b) <==> NoNan(a) && Unsigned(a) == Unsigned(b)
  {
    var u, v := Unsigned(a).elems, Unsigned(b).elems;
    assert forall i :: 0 <= i < |u| ==> u[i] == Unsigned(a.elems[i]) && v[i] == Unsigned(b.elems[i]);
    assert u == v <==> forall i :: 0 <= i < |u| ==> u[i] == v[i];
  }

  lemma ObjectMeans(a: Value, b: Value)
    requires a.VObject? && b.VObject? && a.members.Keys == b.members.Keys
    ensures SameValue(a, b) <==> forall k :: k in a.members ==> SameValue(a.members[k], b.members[k])
    ensures NoNan(a) <==> forall k :: k in a.members ==> NoNan(a.members[k])
  {
  }

  lemma UnsignedMembers(v: Value)
    requires v.VObject?
    ensures var u := Unsigned(v);
            && u.VObject? && u.members.Keys == v.members.Keys
            && forall k :: k in v.members ==> u.members[k] == Unsigned(v.members[k])
  {
  }

  lemma ObjectsSame(a: Value, b: Value)
    requires a.VObject? && b.VObject? && a.members.Keys == b.members.Keys
    requires forall k :: k in a.members ==>
               (SameValue(a.members[k], b.members[k]) <==>
                 NoNan(a.members[k]) && Unsigned(a.members[k]) == Unsigned(b.members[k]))
    ensures SameValue(a, b) <==> NoNan(a) && Unsigned(a) == Unsigned(b)
  {
    hide Unsigned, SameValue, NoNan;
    ObjectMeans(a, b);
    UnsignedMembers(a);
    UnsignedMembers(b);
    var u, v := Unsigned(a).members, Unsigned(b).members;
    assert u == v <==> forall k :: k in a.members ==> u[k] == v[k];
  }

  /** Compares two values; the one-way comparison of objects works in both directions. */
  method Equal(a: Value, b: Value) returns (eq: bool)
    ensures eq <==> SameValue(a, b)
    decreases a, 1
  {
    match a {
      case VArray(elems) =>
        if !b.VArray? {
          return false;
        }
        eq := EqualArrays(a, b);
      case VObject(members) =>
        if !b.VObject? {
          return false;
        }
        eq := EqualObjects(a, b);
      case VInteger(n) => eq := b.VInteger? && n == b.n;
      case VString(s) => eq := b.VString? && s == b.s;
      case VReal(d) => eq := b.VReal? && SameNumber(d, b.d);
      case VNull => eq := b.VNull?;
      case VTrue => eq := b.VTrue?;
      case VFalse => eq := b.VFalse?;
    }
  }

  method EqualArrays(a: Value, b: Value) returns (eq: bool)
    requires a.VArray? && b.VArray?
    ensures eq <==> SameValue(a, b)
    decreases a, 0
  {
    if |a.elems| != |b.elems| {
      return false;
    }
    for i := 0 to |a.elems|
      invariant forall j :: 0 <= j < i ==> SameValue(a.elems[j], b.elems[j])
    {
      var same := Equal(a.elems[i], b.elems[i]);
      if !same {
        return false;
      }
    }
    eq := true;
  }

  /** Looks each member of the first object up in the second. */
  method EqualObjects(a: Value, b: Value) returns (eq: bool)
    requires a.VObject? && b.VObject?
    ensures eq <==> SameValue(a, b)
    decreases a, 0
  {
    var m, n := a.members, b.members;
    if |m| != |n| {
      return false;
    }
    var todo := m.Keys;
    while todo != {}
      invariant todo <= m.Keys
      invariant forall k :: k in m && k !in todo ==> k in n && SameValue(m[k], n[k])
      decreases todo
    {
      var key :| key in todo;
      if key !in n {
        return false;
      }
      var same := Equal(m[key], n[key]);
      if !same {
        return false;
      }
      todo := todo - {key};
    }
    SameKeys(m, n);
    eq := true;
  }
}
