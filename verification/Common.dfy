/** Small shared datatypes: optional values and parsed JSON/YAML values. */
module Common {

  datatype Option<+T> = None | Some(value: T)

  /** A parsed JSON or YAML value. A mapping is a finite map: two mappings are
      equal when they have the same keys and equal values, whatever their order. */
  datatype Value =
    | Null
    | Bool(b: bool)
    | Num(n: real)
    | Str(s: string)
    | List(items: seq<Value>)
    | Obj(fields: map<string, Value>)

  /** Python truthiness of a parsed value. */
  predicate Truthy(v: Value) {
    match v
    case Null => false
    case Bool(b) => b
    case Num(n) => n != 0.0
    case Str(s) => s != ""
    case List(items) => items != []
    case Obj(fields) => fields != map[]
  }

  /** `mapping.get(key)`: the entry, or null when there is none. */
  function Get(m: map<string, Value>, key: string): Value {
    if key in m then m[key] else Null
  }
}

/** Sums of a nonnegative weight over a sequence. The one law used throughout:
    a sequence that draws its weighted elements from another weighs no more. */
module Sums {

  function Sum<T>(s: seq<T>, f: T -> real): real {
    if s == [] then 0.0 else Sum(s[..|s| - 1], f) + f(s[|s| - 1])
  }

  lemma {:induction false} SumConcat<T>(a: seq<T>, b: seq<T>, f: T -> real)
    ensures Sum(a + b, f) == Sum(a, f) + Sum(b, f)
  {
    if b == [] {
      assert a + b == a;
    } else {
      assert (a + b)[..|a + b| - 1] == a + b[..|b| - 1];
      SumConcat(a, b[..|b| - 1], f);
    }
  }

  lemma SumOfOne<T>(x: T, f: T -> real)
    ensures Sum([x], f) == f(x)
  {
    assert [x][..0] == [];
  }

  lemma SumOfTwo<T>(x: T, y: T, f: T -> real)
    ensures Sum([x, y], f) == f(x) + f(y)
  {
    assert [x, y][..1] == [x];
    SumOfOne(x, f);
  }

  lemma {:induction false} SumNonnegative<T>(s: seq<T>, f: T -> real)
    requires forall x :: x in s ==> f(x) >= 0.0
    ensures Sum(s, f) >= 0.0
  {
    if s != [] {
      SumNonnegative(s[..|s| - 1], f);
    }
  }

  lemma SumWithout<T>(head: seq<T>, x: T, tail: seq<T>, f: T -> real)
    ensures Sum(head + [x] + tail, f) == Sum(head + tail, f) + f(x)
  {
    SumConcat(head + [x], tail, f);
    SumConcat(head, tail, f);
    assert (head + [x])[..|head|] == head;
  }

  /** Every element of positive weight occurs in `b` at least as often as in `a`. */
  ghost predicate DrawnFrom<T>(a: seq<T>, b: seq<T>, f: T -> real) {
    forall x :: x in a && f(x) > 0.0 ==> multiset(a)[x] <= multiset(b)[x]
  }

  lemma {:induction false} SumDrawnFrom<T>(a: seq<T>, b: seq<T>, f: T -> real)
    requires forall x :: x in a || x in b ==> f(x) >= 0.0
    requires DrawnFrom(a, b, f)
    ensures Sum(a, f) <= Sum(b, f)
  {
    if a == [] {
      SumNonnegative(b, f);
    } else {
      var rest, x := a[..|a| - 1], a[|a| - 1];
      var from := b;
      if f(x) > 0.0 {
        var i := Occurrence(a, b, f);
        from := b[..i] + b[i + 1..];
        SumWithout(b[..i], x, b[i + 1..], f);
        assert b == b[..i] + [x] + b[i + 1..];
      }
      DrawRest(a, b, from, f);
      SumDrawnFrom(rest, from, f);
    }
  }

  lemma Occurrence<T>(a: seq<T>, b: seq<T>, f: T -> real) returns (i: nat)
    requires a != [] && f(a[|a| - 1]) > 0.0 && DrawnFrom(a, b, f)
    ensures i < |b| && b[i] == a[|a| - 1]
  {
    hide Sum;
    var x := a[|a| - 1];
    assert x in a && x in b;
    i :| 0 <= i < |b| && b[i] == x;
  }

  /** Taking the last element out of both sides keeps the relation. */
  lemma DrawRest<T>(a: seq<T>, b: seq<T>, from: seq<T>, f: T -> real)
    requires a != [] && DrawnFrom(a, b, f)
    requires f(a[|a| - 1]) > 0.0 ==>
               exists i :: 0 <= i < |b| && b[i] == a[|a| - 1] && from == b[..i] + b[i + 1..]
    requires f(a[|a| - 1]) <= 0.0 ==> from == b
    ensures DrawnFrom(a[..|a| - 1], from, f)
    ensures forall x :: x in from ==> x in b
  {
    hide Sum;
    var rest, last := a[..|a| - 1], a[|a| - 1];
    assert a == rest + [last];
    if f(last) > 0.0 {
      var i :| 0 <= i < |b| && b[i] == last && from == b[..i] + b[i + 1..];
      assert b == b[..i] + [last] + b[i + 1..];
      assert multiset(b) == multiset(from) + multiset{last};
    }
  }
}
