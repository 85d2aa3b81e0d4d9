/**
 * The immutable pair `Tuple<T>` used for table coordinates, with its
 * `equals`, `hashCode` and `toString` as written for `Tuple<Integer>`.
 */
module Tuples {
  import opened JavaLang

  /** A pair of elements; the DP tables use `Tuple<int>` as coordinates. */
  datatype Tuple<T> = Tuple(elem1: T, elem2: T)

  /** A `Tuple<Integer>`: its components are Java references, so either may be null. */
  type IntegerTuple = Tuple<Nullable<int32>>

  /** The argument of `equals(Object)`: null, a Tuple, or an object of some other class. */
  datatype Object<T> = NullObject | TupleObject(tuple: Tuple<Nullable<T>>) | OtherObject

  /** One component test of `equals`: null equals only null, otherwise the element's own `equals`. */
  function ElemEquals<T(==)>(a: Nullable<T>, b: Nullable<T>): bool {
    if a.Null? then b.Null? else b.NonNull? && a.value == b.value
  }

  /** `Tuple.equals`: same class and componentwise equal. */
  function Equals<T(==)>(t: Tuple<Nullable<T>>, obj: Object<T>): (r: bool)
    ensures r <==> obj == TupleObject(t)
  {
    if obj.NullObject? then false
    else if obj.OtherObject? then false
    else
      var other := obj.tuple;
      if !ElemEquals(t.elem1, other.elem1) then false
      else if !ElemEquals(t.elem2, other.elem2) then false
      else true
  }

  lemma EqualsReflexive<T>(t: Tuple<Nullable<T>>)
    ensures Equals(t, TupleObject(t))
  {
  }

  lemma EqualsSymmetric<T>(t: Tuple<Nullable<T>>, u: Tuple<Nullable<T>>)
    ensures Equals(t, TupleObject(u)) == Equals(u, TupleObject(t))
  {
  }

  lemma EqualsNullIsFalse<T>(t: Tuple<Nullable<T>>)
    ensures !Equals(t, NullObject)
  {
  }

  /** `Integer.hashCode` of a component, with null hashing to 0. */
  function ElemHash(e: Nullable<int32>): int32 {
    if e.Null? then 0 else e.value
  }

  /** `Tuple.hashCode` step by step as written: `result = 1; result = 31 * result + h(elem)` twice, in `int`. */
  function HashCode(t: IntegerTuple): (h: int32)
    ensures h == Wrap32(31 * 31 + 31 * ElemHash(t.elem1) + ElemHash(t.elem2))
  {
    var prime := 31;
    var result0 := 1;
    var result1 := Add32(Mul32(prime, result0), ElemHash(t.elem1));
    var result2 := Add32(Mul32(prime, result1), ElemHash(t.elem2));
    HashClosedForm(ElemHash(t.elem1), ElemHash(t.elem2));
    result2
  }

  lemma HashClosedForm(h1: int32, h2: int32)
    ensures Add32(Mul32(31, Add32(Mul32(31, 1), h1)), h2) == Wrap32(31 * 31 + 31 * h1 + h2)
  {
    var r1 := Add32(31, h1);
    assert Mul32(31, 1) == 31;
    var k := (31 + h1 - r1) / TWO_TO_32;
    assert 31 + h1 - r1 == TWO_TO_32 * k;
    assert (31 * r1 + h2) - (31 * 31 + 31 * h1 + h2) == TWO_TO_32 * (-31 * k);
    Wrap32Congruent(31 * r1 + h2, 31 * 31 + 31 * h1 + h2);
    Wrap32AddStep(31 * r1, h2);
  }

  /** Tuples that are `equals` have the same `hashCode`. */
  lemma HashCodeConsistentWithEquals(t: IntegerTuple, u: IntegerTuple)
    requires Equals(t, TupleObject(u))
    ensures HashCode(t) == HashCode(u)
  {
  }

  /** The string concatenation `"" + e` of a component: `"null"` or `Integer.toString`. */
  function ElemString(e: Nullable<int32>): (s: string)
    ensures |s| > 0 && ';' !in s
  {
    if e.Null? then "null" else IntToString(e.value)
  }

  /** `Tuple.toString`: `"<" + elem1 + "; " + elem2 + ">"`. */
  function ToString(t: IntegerTuple): (s: string)
    ensures |s| >= 6 && s[0] == '<' && s[|s| - 1] == '>'
  {
    "<" + ElemString(t.elem1) + "; " + ElemString(t.elem2) + ">"
  }

  lemma ElemStringInjective(a: Nullable<int32>, b: Nullable<int32>)
    requires ElemString(a) == ElemString(b)
    ensures a == b
  {
    assert ElemString(a)[0] == 'n' <==> a.Null?;
    assert ElemString(b)[0] == 'n' <==> b.Null?;
    if a.NonNull? && b.NonNull? {
      IntToStringInjective(a.value, b.value);
    }
  }

  /** The printed form of a pair of component strings. */
  function Printed(a: string, b: string): string {
    "<" + a + "; " + b + ">"
  }

  /** In `Printed(a, b)` the first ';' follows `a`, when `a` holds none. */
  lemma PrintedSeparator(a: string, b: string)
    requires ';' !in a
    ensures |Printed(a, b)| == |a| + |b| + 4
    ensures Printed(a, b)[|a| + 1] == ';'
    ensures forall k :: 0 <= k <= |a| ==> Printed(a, b)[k] != ';'
    ensures Printed(a, b)[1..|a| + 1] == a
    ensures Printed(a, b)[|a| + 3..|a| + |b| + 3] == b
  {
    var s := Printed(a, b);
    forall k | 1 <= k <= |a| ensures s[k] == a[k - 1] {
    }
  }

  /** A printed pair determines both components, since neither first component holds ';'. */
  lemma PrintedInjective(a: string, b: string, c: string, d: string)
    requires ';' !in a && ';' !in c
    requires Printed(a, b) == Printed(c, d)
    ensures a == c && b == d
  {
    PrintedSeparator(a, b);
    PrintedSeparator(c, d);
    assert |a| == |c|;
  }

  /** Distinct tuples print differently. */
  lemma ToStringInjective(t: IntegerTuple, u: IntegerTuple)
    requires ToString(t) == ToString(u)
    ensures t == u
  {
    assert ToString(t) == Printed(ElemString(t.elem1), ElemString(t.elem2));
    assert ToString(u) == Printed(ElemString(u.elem1), ElemString(u.elem2));
    PrintedInjective(ElemString(t.elem1), ElemString(t.elem2), ElemString(u.elem1), ElemString(u.elem2));
    ElemStringInjective(t.elem1, u.elem1);
    ElemStringInjective(t.elem2, u.elem2);
  }
}
