/** Sequential semantics of the program's streaming stages.

    A stage reads items one by one and, for each, either emits one result or
    emits nothing. Run on a finite, fully known input, such a stage is a
    filter-map: `FilterMap` below. */
module Streams {

  /** A present result or "no result" (a nil pointer in the program). */
  datatype Option<+T> = None | Some(value: T)

  /** The items a transform-or-drop stage emits for input `s`, in input order.
      Defined from the last element so that it follows a loop that appends. */
  function FilterMap<A, B>(f: A -> Option<B>, s: seq<A>): (r: seq<B>)
    ensures |r| <= |s|
    decreases |s|
  {
    if s == [] then []
    else
      var front := FilterMap(f, s[..|s| - 1]);
      match f(s[|s| - 1])
      case Some(b) => front + [b]
      case None => front
  }

  /** What one item contributes to the output. */
  function Emitted<A, B>(f: A -> Option<B>, a: A): seq<B>
  {
    match f(a)
    case Some(b) => [b]
    case None => []
  }

  /** Running the stage on `a + b` emits what it emits on `a`, then what it
      emits on `b`: output order follows input order. */
  lemma {:induction false} FilterMapAppend<A, B>(f: A -> Option<B>, a: seq<A>, b: seq<A>)
    ensures FilterMap(f, a + b) == FilterMap(f, a) + FilterMap(f, b)
    decreases |b|
  {
    if b == [] {
      assert a + b == a;
    } else {
      var b' := b[..|b| - 1];
      assert (a + b)[..|a + b| - 1] == a + b';
      assert (a + b)[|a + b| - 1] == b[|b| - 1];
      FilterMapAppend(f, a, b');
    }
  }

  /** A single item is emitted exactly when the task gives a result for it. */
  lemma FilterMapSingle<A, B>(f: A -> Option<B>, a: A)
    ensures FilterMap(f, [a]) == Emitted(f, a)
  {
    assert [a][..0] == [];
  }

  /** An item is in the output exactly when the task maps some input item to it. */
  lemma {:induction false} FilterMapMember<A, B>(f: A -> Option<B>, s: seq<A>, y: B)
    ensures y in FilterMap(f, s) <==> exists i :: 0 <= i < |s| && f(s[i]) == Some(y)
    decreases |s|
  {
    if s != [] {
      var s' := s[..|s| - 1];
      FilterMapMember(f, s', y);
      if y in FilterMap(f, s) {
        if y in FilterMap(f, s') {
          var i :| 0 <= i < |s'| && f(s'[i]) == Some(y);
          assert s[i] == s'[i];
        } else {
          assert f(s[|s| - 1]) == Some(y);
        }
      } else {
        forall i | 0 <= i < |s| ensures f(s[i]) != Some(y) {
          if i < |s'| {
            assert s[i] == s'[i];
          }
        }
      }
    }
  }

  /** When the task gives a result for every item, nothing is dropped and the
      k-th output is the result for the k-th input. */
  lemma {:induction false} FilterMapTotal<A, B>(f: A -> Option<B>, s: seq<A>)
    requires forall i :: 0 <= i < |s| ==> f(s[i]).Some?
    ensures |FilterMap(f, s)| == |s|
    ensures forall i :: 0 <= i < |s| ==> FilterMap(f, s)[i] == f(s[i]).value
    decreases |s|
  {
    if s != [] {
      var s' := s[..|s| - 1];
      assert forall i :: 0 <= i < |s'| ==> s'[i] == s[i];
      FilterMapTotal(f, s');
    }
  }

  /** A stage whose task always gives nothing emits nothing. */
  lemma {:induction false} FilterMapNone<A, B>(f: A -> Option<B>, s: seq<A>)
    requires forall i :: 0 <= i < |s| ==> f(s[i]).None?
    ensures FilterMap(f, s) == []
    decreases |s|
  {
    if s != [] {
      var s' := s[..|s| - 1];
      assert forall i :: 0 <= i < |s'| ==> s'[i] == s[i];
      FilterMapNone(f, s');
    }
  }
}
