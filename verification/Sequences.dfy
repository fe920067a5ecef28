/** List transformations used by several components, with the laws their proofs share. */
module Sequences {
  import opened Options

  function Map<T, U>(s: seq<T>, f: T -> U): (r: seq<U>)
    ensures |r| == |s|
    ensures forall i :: 0 <= i < |s| ==> r[i] == f(s[i])
  {
    if s == [] then [] else [f(s[0])] + Map(s[1..], f)
  }

  function Filter<T>(s: seq<T>, p: T -> bool): seq<T> {
    if s == [] then [] else (if p(s[0]) then [s[0]] else []) + Filter(s[1..], p)
  }

  /** Keeps the values of the elements that `f` accepts (`Iterator::filter_map`). */
  function FilterMap<T, U>(s: seq<T>, f: T -> Option<U>): seq<U> {
    if s == [] then [] else OptionToSeq(f(s[0])) + FilterMap(s[1..], f)
  }

  function OptionToSeq<T>(o: Option<T>): seq<T> {
    match o
    case None => []
    case Some(v) => [v]
  }

  function First<T>(s: seq<T>): Option<T> {
    if s == [] then None else Some(s[0])
  }

  function AndThen<T, U>(o: Option<T>, f: T -> Option<U>): Option<U> {
    match o
    case None => None
    case Some(v) => f(v)
  }

  function OptionMap<T, U>(o: Option<T>, f: T -> U): Option<U> {
    match o
    case None => None
    case Some(v) => Some(f(v))
  }

  lemma ConcatAssociative<T>(a: seq<T>, b: seq<T>, c: seq<T>)
    ensures a + b + c == a + (b + c)
  {
  }

  lemma {:induction false} FilterMapSnoc<T, U>(s: seq<T>, x: T, f: T -> Option<U>)
    ensures FilterMap(s + [x], f) == FilterMap(s, f) + OptionToSeq(f(x))
  {
    if s == [] {
      assert s + [x] == [x];
      assert [x][1..] == [];
    } else {
      assert (s + [x])[1..] == s[1..] + [x];
      FilterMapSnoc(s[1..], x, f);
    }
  }

  lemma {:induction false} FilterMapConcat<T, U>(s: seq<T>, t: seq<T>, f: T -> Option<U>)
    ensures FilterMap(s + t, f) == FilterMap(s, f) + FilterMap(t, f)
  {
    if s == [] {
      assert s + t == t;
    } else {
      assert (s + t)[1..] == s[1..] + t;
      FilterMapConcat(s[1..], t, f);
    }
  }

  /** Two filtering passes are one pass with the composed step. */
  lemma {:induction false} FilterMapFusion<T(!new), U, V>(s: seq<T>, f: T -> Option<U>, g: U -> Option<V>,
                                                          h: T -> Option<V>)
    requires forall x :: h(x) == AndThen(f(x), g)
    ensures FilterMap(FilterMap(s, f), g) == FilterMap(s, h)
  {
    if s != [] {
      FilterMapConcat(OptionToSeq(f(s[0])), FilterMap(s[1..], f), g);
      FilterMapFusion(s[1..], f, g, h);
      match f(s[0])
      case None =>
      case Some(v) => assert [v][1..] == [];
    }
  }

  lemma {:induction false} FilterMapPreimage<T, U>(s: seq<T>, f: T -> Option<U>)
    ensures forall y :: y in FilterMap(s, f) <==> exists x :: x in s && f(x) == Some(y)
  {
    if s != [] {
      FilterMapPreimage(s[1..], f);
      assert s == [s[0]] + s[1..];
    }
  }

  /** A filtering map takes the elements that it accepts, one by one and in order. */
  lemma {:induction false} FilterMapPairs<T(!new), U>(s: seq<T>, f: T -> Option<U>, p: T -> bool)
    requires forall x :: p(x) <==> f(x).Some?
    ensures |FilterMap(s, f)| == |Filter(s, p)|
    ensures forall i :: 0 <= i < |Filter(s, p)| ==> f(Filter(s, p)[i]) == Some(FilterMap(s, f)[i])
  {
    if s != [] {
      FilterMapPairs(s[1..], f, p);
    }
  }

  lemma {:induction false} FilterSnoc<T>(s: seq<T>, x: T, p: T -> bool)
    ensures Filter(s + [x], p) == Filter(s, p) + (if p(x) then [x] else [])
  {
    if s == [] {
      assert s + [x] == [x];
      assert [x][1..] == [];
    } else {
      assert (s + [x])[1..] == s[1..] + [x];
      FilterSnoc(s[1..], x, p);
      ConcatAssociative(if p(s[0]) then [s[0]] else [], Filter(s[1..], p), if p(x) then [x] else []);
    }
  }

  lemma {:induction false} FilterMembers<T>(s: seq<T>, p: T -> bool)
    ensures forall x :: x in Filter(s, p) <==> x in s && p(x)
    ensures |Filter(s, p)| <= |s|
    ensures (forall x :: x in s ==> !p(x)) ==> Filter(s, p) == []
  {
    if s != [] {
      FilterMembers(s[1..], p);
      assert s == [s[0]] + s[1..];
    }
  }

  /** Some element of a set: the next one of an iteration whose order is not specified. */
  method AnyOf<T>(s: set<T>) returns (x: T)
    requires s != {}
    ensures x in s
  {
    x :| x in s;
  }
}
