/** Queues that are emptied from the front in any interleaving, as goroutines do that each work off a
    list of their own: what comes out, and what the last element of interest in it can be. */
module Queues {
  type Queues<T> = seq<seq<T>>

  predicate CanPop<T(==)>(qs: Queues<T>, w: nat) {
    w < |qs| && qs[w] != []
  }

  function Popped<T>(qs: Queues<T>, w: nat): Queues<T>
    requires w < |qs| && qs[w] != []
  {
    qs[w := qs[w][1..]]
  }

  /** Popping the queues in the order `d` is possible. */
  predicate CanDrain<T(==)>(qs: Queues<T>, d: seq<nat>)
    decreases |d|
  {
    d == [] || (CanPop(qs, d[0]) && CanDrain(Popped(qs, d[0]), d[1..]))
  }

  function Left<T(==)>(qs: Queues<T>, d: seq<nat>): Queues<T>
    requires CanDrain(qs, d)
    decreases |d|
  {
    if d == [] then qs else Left(Popped(qs, d[0]), d[1..])
  }

  function Output<T(==)>(qs: Queues<T>, d: seq<nat>): seq<T>
    requires CanDrain(qs, d)
    decreases |d|
  {
    if d == [] then [] else [qs[d[0]][0]] + Output(Popped(qs, d[0]), d[1..])
  }

  predicate AllEmpty<T(==)>(qs: Queues<T>) {
    forall i :: 0 <= i < |qs| ==> qs[i] == []
  }

  /** `d` is an order in which all queues can be emptied. */
  predicate Drains<T(==)>(qs: Queues<T>, d: seq<nat>) {
    CanDrain(qs, d) && AllEmpty(Left(qs, d))
  }

  /** How much is left in all queues together. */
  function Total<T>(qs: Queues<T>): nat {
    if qs == [] then 0 else Total(qs[..|qs| - 1]) + |qs[|qs| - 1]|
  }

  lemma {:induction false} TotalAfterUpdate<T>(qs: Queues<T>, w: nat, q: seq<T>)
    requires w < |qs|
    ensures Total(qs[w := q]) + |qs[w]| == Total(qs) + |q|
  {
    var n, after := |qs| - 1, qs[w := q];
    if w == n {
      assert after[..n] == qs[..n];
    } else {
      assert after[..n] == qs[..n][w := q] && after[n] == qs[n];
      TotalAfterUpdate(qs[..n], w, q);
    }
  }

  lemma {:induction false} EmptyTotal<T>(qs: Queues<T>)
    requires AllEmpty(qs)
    ensures Total(qs) == 0
  {
    if qs != [] {
      EmptyTotal(qs[..|qs| - 1]);
    }
  }

  lemma {:induction false} OutputLength<T>(qs: Queues<T>, d: seq<nat>)
    requires CanDrain(qs, d)
    ensures |Output(qs, d)| + Total(Left(qs, d)) == Total(qs)
    decreases |d|
  {
    if d != [] {
      TotalAfterUpdate(qs, d[0], qs[d[0]][1..]);
      OutputLength(Popped(qs, d[0]), d[1..]);
    }
  }

  /** No two queues have anything left. */
  predicate OneLeft<T(==)>(qs: Queues<T>) {
    forall v, w :: 0 <= v < w < |qs| ==> qs[v] == [] || qs[w] == []
  }

  /** The only queue with anything left comes out as it is. */
  lemma {:induction false} OnlyQueueComesOut<T>(qs: Queues<T>, d: seq<nat>, w: nat)
    requires Drains(qs, d) && w < |qs| && forall v :: 0 <= v < |qs| && v != w ==> qs[v] == []
    ensures Output(qs, d) == qs[w]
    decreases |d|
  {
    if d != [] {
      assert d[0] == w;
      OnlyQueueComesOut(Popped(qs, w), d[1..], w);
    }
  }

  // ----- orders to our liking -------------------------------------------------------------------------

  lemma {:induction false} DrainThen<T>(qs: Queues<T>, d: seq<nat>, e: seq<nat>)
    requires CanDrain(qs, d) && CanDrain(Left(qs, d), e)
    ensures CanDrain(qs, d + e)
    ensures Left(qs, d + e) == Left(Left(qs, d), e)
    ensures Output(qs, d + e) == Output(qs, d) + Output(Left(qs, d), e)
    decreases |d|
  {
    if d == [] {
      assert d + e == e;
    } else {
      var after, all := Popped(qs, d[0]), d + e;
      DrainThen(after, d[1..], e);
      assert all[0] == d[0] && all[1..] == d[1..] + e;
      assert CanDrain(qs, all);
      assert Output(qs, all) == [qs[d[0]][0]] + (Output(after, d[1..]) + Output(Left(after, d[1..]), e));
    }
  }

  lemma {:induction false} EmptyOne<T>(qs: Queues<T>, w: nat) returns (d: seq<nat>)
    requires w < |qs|
    ensures CanDrain(qs, d) && Left(qs, d) == qs[w := []] && Output(qs, d) == qs[w]
    decreases |qs[w]|
  {
    if qs[w] == [] {
      d := [];
      assert qs[w := []] == qs;
    } else {
      var rest := EmptyOne(Popped(qs, w), w);
      d := [w] + rest;
      assert d[1..] == rest;
      assert Popped(qs, w)[w := []] == qs[w := []];
      assert qs[w] == [qs[w][0]] + qs[w][1..];
    }
  }

  /** Everything from queue `n` on but queue `w` can be emptied. */
  lemma {:induction false} EmptyOthers<T>(qs: Queues<T>, n: nat, w: nat) returns (d: seq<nat>)
    requires n <= |qs| && w < |qs| && forall i :: 0 <= i < n && i != w ==> qs[i] == []
    ensures CanDrain(qs, d)
    ensures var left := Left(qs, d); |left| == |qs| && left[w] == qs[w] && forall i :: 0 <= i < |qs| && i != w ==> left[i] == []
    decreases |qs| - n
  {
    if n == |qs| {
      d := [];
    } else if n == w {
      d := EmptyOthers(qs, n + 1, w);
    } else {
      var first := EmptyOne(qs, n);
      var rest := EmptyOthers(qs[n := []], n + 1, w);
      DrainThen(qs, first, rest);
      d := first + rest;
    }
  }

  /** Some order empties queue `w` after all others. */
  lemma DrainEndingWith<T>(qs: Queues<T>, w: nat) returns (d: seq<nat>, before: seq<T>)
    requires w < |qs|
    ensures Drains(qs, d) && Output(qs, d) == before + qs[w]
  {
    var others := EmptyOthers(qs, 0, w);
    var last := EmptyOne(Left(qs, others), w);
    DrainThen(qs, others, last);
    d, before := others + last, Output(qs, others);
  }

  lemma SomeDrain<T>(qs: Queues<T>) returns (d: seq<nat>)
    ensures Drains(qs, d)
  {
    if qs == [] {
      d := [];
    } else {
      ghost var before: seq<T>;
      d, before := DrainEndingWith(qs, 0);
    }
  }

  // ----- the last element of interest -----------------------------------------------------------------

  predicate HasAny<T>(s: seq<T>, about: T -> bool) {
    exists i :: 0 <= i < |s| && about(s[i])
  }

  /** The last element of interest is good; without one, what was there before decides. */
  predicate EndsWell<T>(s: seq<T>, about: T -> bool, good: T -> bool, before: bool) {
    if s == [] then before
    else
      var last := s[|s| - 1];
      if about(last) then good(last) else EndsWell(s[..|s| - 1], about, good, before)
  }

  lemma {:induction false} EndsWellConcat<T>(a: seq<T>, b: seq<T>, about: T -> bool, good: T -> bool, before: bool)
    ensures EndsWell(a + b, about, good, before) <==> EndsWell(b, about, good, EndsWell(a, about, good, before))
  {
    if b == [] {
      assert a + b == a;
    } else {
      assert (a + b)[..|a + b| - 1] == a + b[..|b| - 1];
      EndsWellConcat(a, b[..|b| - 1], about, good, before);
    }
  }

  lemma {:induction false} EndsWellByOwn<T>(s: seq<T>, about: T -> bool, good: T -> bool, before: bool, before': bool)
    ensures HasAny(s, about) ==> (EndsWell(s, about, good, before) <==> EndsWell(s, about, good, before'))
    ensures !HasAny(s, about) ==> (EndsWell(s, about, good, before) <==> before)
  {
    if s != [] {
      var rest := s[..|s| - 1];
      EndsWellByOwn(rest, about, good, before, before');
      assert forall i :: 0 <= i < |rest| ==> rest[i] == s[i];
      if HasAny(s, about) && !about(s[|s| - 1]) {
        var i :| 0 <= i < |s| && about(s[i]);
        assert about(rest[i]);
      }
      if HasAny(rest, about) {
        var i :| 0 <= i < |rest| && about(rest[i]);
        assert about(s[i]);
      }
    }
  }

  lemma FirstAndRest<T>(s: seq<T>, about: T -> bool, good: T -> bool, before: bool)
    requires s != []
    ensures HasAny(s, about) <==> about(s[0]) || HasAny(s[1..], about)
    ensures EndsWell(s, about, good, before) <==>
            EndsWell(s[1..], about, good, if about(s[0]) then good(s[0]) else before)
  {
    assert s == [s[0]] + s[1..];
    EndsWellConcat([s[0]], s[1..], about, good, before);
    assert [s[0]][..0] == [];
    if HasAny(s[1..], about) {
      var i :| 0 <= i < |s[1..]| && about(s[1..][i]);
      assert about(s[i + 1]);
    }
    if HasAny(s, about) && !about(s[0]) {
      var i :| 0 <= i < |s| && about(s[i]);
      assert about(s[1..][i - 1]);
    }
  }

  /** Queue `w` holds elements of interest. */
  predicate Holds<T>(qs: Queues<T>, w: nat, about: T -> bool) {
    w < |qs| && HasAny(qs[w], about)
  }

  ghost predicate SomeHolder<T>(qs: Queues<T>, about: T -> bool) {
    exists w: nat :: Holds(qs, w, about)
  }

  /** Each queue with elements of interest ends well by itself; without any, what was there before
      decides. */
  ghost predicate EachEndsWell<T>(qs: Queues<T>, about: T -> bool, good: T -> bool, before: bool) {
    if SomeHolder(qs, about) then forall w: nat :: Holds(qs, w, about) ==> EndsWell(qs[w], about, good, before)
    else before
  }

  lemma PopKeepsEach<T>(qs: Queues<T>, w: nat, about: T -> bool, good: T -> bool, before: bool)
    requires CanPop(qs, w) && EachEndsWell(qs, about, good, before)
    ensures EachEndsWell(Popped(qs, w), about, good, if about(qs[w][0]) then good(qs[w][0]) else before)
  {
    var left, first := Popped(qs, w), qs[w][0];
    var before' := if about(first) then good(first) else before;
    FirstAndRest(qs[w], about, good, before);
    assert forall v: nat :: v != w ==> (Holds(left, v, about) <==> Holds(qs, v, about));
    forall v: nat | Holds(left, v, about)
      ensures EndsWell(left[v], about, good, before')
    {
      assert Holds(qs, v, about);
      EndsWellByOwn(left[v], about, good, before, before');
    }
    if !SomeHolder(left, about) {
      assert !Holds(left, w, about);
      EndsWellByOwn(qs[w][1..], about, good, before', before);
      if about(first) {
        assert Holds(qs, w, about);
      } else {
        assert forall v: nat :: !Holds(qs, v, about);
      }
    }
  }

  lemma {:induction false} EachKeptByDrain<T>(qs: Queues<T>, d: seq<nat>, about: T -> bool, good: T -> bool, before: bool)
    requires Drains(qs, d) && EachEndsWell(qs, about, good, before)
    ensures EndsWell(Output(qs, d), about, good, before)
    decreases |d|
  {
    if d == [] {
      assert forall w: nat :: !Holds(qs, w, about);
    } else {
      var w := d[0];
      PopKeepsEach(qs, w, about, good, before);
      EachKeptByDrain(Popped(qs, w), d[1..], about, good, if about(qs[w][0]) then good(qs[w][0]) else before);
      var output := Output(qs, d);
      FirstAndRest(output, about, good, before);
      assert output[1..] == Output(Popped(qs, w), d[1..]);
    }
  }

  ghost predicate EveryDrainEndsWell<T>(qs: Queues<T>, about: T -> bool, good: T -> bool, before: bool) {
    forall d :: Drains(qs, d) ==> EndsWell(Output(qs, d), about, good, before)
  }

  /** In every interleaving the last element of interest is good, exactly when each queue that has one
      ends well by itself. */
  lemma EveryDrainEndsWellExactly<T>(qs: Queues<T>, about: T -> bool, good: T -> bool, before: bool)
    ensures EveryDrainEndsWell(qs, about, good, before) <==> EachEndsWell(qs, about, good, before)
  {
    if EachEndsWell(qs, about, good, before) {
      forall d | Drains(qs, d)
        ensures EndsWell(Output(qs, d), about, good, before)
      {
        EachKeptByDrain(qs, d, about, good, before);
      }
    } else if SomeHolder(qs, about) {
      var w: nat :| Holds(qs, w, about) && !EndsWell(qs[w], about, good, before);
      var d, first := DrainEndingWith(qs, w);
      EndsWellConcat(first, qs[w], about, good, before);
      EndsWellByOwn(qs[w], about, good, before, EndsWell(first, about, good, before));
    } else {
      var d := SomeDrain(qs);
      NoneHoldsNoOutput(qs, d, about, good, before);
    }
  }

  lemma {:induction false} NoneHoldsNoOutput<T>(qs: Queues<T>, d: seq<nat>, about: T -> bool, good: T -> bool, before: bool)
    requires CanDrain(qs, d) && !SomeHolder(qs, about)
    ensures EndsWell(Output(qs, d), about, good, before) <==> before
    decreases |d|
  {
    if d != [] {
      var w, output := d[0], Output(qs, d);
      FirstAndRest(qs[w], about, good, before);
      assert !Holds(qs, w, about);
      assert forall v: nat :: Holds(Popped(qs, w), v, about) ==> Holds(qs, v, about);
      NoneHoldsNoOutput(Popped(qs, w), d[1..], about, good, before);
      FirstAndRest(output, about, good, before);
      assert output[1..] == Output(Popped(qs, w), d[1..]);
    }
  }
}
