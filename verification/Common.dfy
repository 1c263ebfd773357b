/** Result types shared by every module of the model. */
module Common {

  datatype Option<+T> = None | Some(value: T)

  /** A request handler either returns a value or throws; the error says which exception. */
  datatype Result<+T, +E> = Ok(value: T) | Err(error: E)

  /** A field of a request body: missing, JSON `null`, or a value. */
  datatype Field<+T> = Absent | Null | Given(value: T)

  predicate Distinct<T(==)>(s: seq<T>) {
    forall i, j :: 0 <= i < j < |s| ==> s[i] != s[j]
  }

  lemma {:induction false} SnocSplit<T>(s: seq<T>)
    requires s != []
    ensures s == s[..|s| - 1] + [s[|s| - 1]]
  {
  }

  lemma {:induction false} Regroup<T>(a: seq<T>, b: seq<T>, c: seq<T>)
    ensures a + b + c == a + (b + c)
  {
  }

  lemma {:induction false} ThreeParts<T>(s: seq<T>, a: nat, b: nat)
    requires a <= b <= |s|
    ensures s == s[..a] + (s[a..b] + s[b..])
  {
  }

  lemma {:induction false} ConsAppend<T>(a: seq<T>, b: seq<T>)
    requires a != []
    ensures (a + b)[0] == a[0] && (a + b)[1..] == a[1..] + b
  {
  }

  lemma {:induction false} AppendSnoc<T>(a: seq<T>, b: seq<T>)
    requires b != []
    ensures a + b == a + b[..|b| - 1] + [b[|b| - 1]]
  {
    SnocSplit(b);
  }

  /** A sequence without repetitions has as many members as positions. */
  lemma {:induction false} DistinctCardinality<T>(s: seq<T>)
    requires Distinct(s)
    ensures |set x | x in s| == |s|
  {
    if s == [] {
      assert (set x | x in s) == {};
    } else {
      var init := s[..|s| - 1];
      DistinctCardinality(init);
      assert (set x | x in s) == (set x | x in init) + {s[|s| - 1]};
    }
  }

  // --- picking from a list in order ----------------------------------------

  ghost predicate Climbs(at: seq<nat>) {
    forall i, j :: 0 <= i < j < |at| ==> at[i] < at[j]
  }

  /** `ys` come, in order, from the positions `at` of `xs`; the other positions give nothing. */
  ghost predicate PickedAt<A, B(!new)>(xs: seq<A>, ys: seq<B>, gives: (A, B) -> bool, at: seq<nat>) {
    && |at| == |ys| && Climbs(at)
    && (forall k :: 0 <= k < |at| ==> at[k] < |xs| && gives(xs[at[k]], ys[k]))
    && (forall i: nat, y :: i < |xs| && i !in at ==> !gives(xs[i], y))
  }

  ghost predicate PickedInOrder<A, B(!new)>(xs: seq<A>, ys: seq<B>, gives: (A, B) -> bool) {
    exists at :: PickedAt(xs, ys, gives, at)
  }

  lemma {:induction false} PickNothing<A, B(!new)>(xs: seq<A>, gives: (A, B) -> bool)
    requires |xs| == 0 || (|xs| == 1 && forall y :: !gives(xs[0], y))
    ensures PickedInOrder(xs, [], gives)
  {
    assert PickedAt(xs, [], gives, []);
  }

  lemma {:induction false} PickOne<A, B(!new)>(x: A, y: B, gives: (A, B) -> bool)
    requires gives(x, y)
    ensures PickedInOrder([x], [y], gives)
  {
    assert PickedAt([x], [y], gives, [0]);
  }

  function Shifted(at: seq<nat>, n: nat): (r: seq<nat>)
    ensures |r| == |at| && forall k :: 0 <= k < |at| ==> r[k] == at[k] + n
  {
    seq(|at|, k requires 0 <= k < |at| => at[k] + n)
  }

  lemma {:induction false} ShiftedClimbs(a: seq<nat>, b: seq<nat>, n: nat)
    requires Climbs(a) && Climbs(b) && forall k :: 0 <= k < |a| ==> a[k] < n
    ensures Climbs(a + Shifted(b, n))
  {
  }

  /** A position before `n` is in the first part, one after it in the second. */
  lemma {:induction false} InShifted(a: seq<nat>, b: seq<nat>, n: nat, i: nat)
    ensures i in a ==> i in a + Shifted(b, n)
    ensures i >= n && i - n in b ==> i in a + Shifted(b, n)
  {
    if i >= n && i - n in b {
      var k :| 0 <= k < |b| && b[k] == i - n;
      assert (a + Shifted(b, n))[|a| + k] == i;
    }
  }

  lemma {:induction false} PickedElsewhere<A, B(!new)>(xs: seq<A>, ys: seq<B>, xs': seq<A>, ys': seq<B>,
                                                       gives: (A, B) -> bool, a: seq<nat>, b: seq<nat>, i: nat, y: B)
    requires PickedAt(xs, ys, gives, a) && PickedAt(xs', ys', gives, b)
    requires i < |xs| + |xs'| && i !in a + Shifted(b, |xs|)
    ensures !gives((xs + xs')[i], y)
  {
    InShifted(a, b, |xs|, i);
    if i < |xs| {
      assert !gives(xs[i], y);
    } else {
      var i' := i - |xs|;
      assert !gives(xs'[i'], y);
    }
  }

  lemma {:induction false} PickedHere<A, B(!new)>(xs: seq<A>, ys: seq<B>, xs': seq<A>, ys': seq<B>,
                                                  gives: (A, B) -> bool, a: seq<nat>, b: seq<nat>, k: nat)
    requires PickedAt(xs, ys, gives, a) && PickedAt(xs', ys', gives, b) && k < |a| + |b|
    ensures var at := a + Shifted(b, |xs|);
      at[k] < |xs + xs'| && gives((xs + xs')[at[k]], (ys + ys')[k])
  {
    if k < |a| {
      assert gives(xs[a[k]], ys[k]);
    } else {
      var k' := k - |a|;
      assert gives(xs'[b[k']], ys'[k']);
    }
  }

  lemma {:induction false} PickBoth<A, B(!new)>(xs: seq<A>, ys: seq<B>, xs': seq<A>, ys': seq<B>, gives: (A, B) -> bool)
    requires PickedInOrder(xs, ys, gives) && PickedInOrder(xs', ys', gives)
    ensures PickedInOrder(xs + xs', ys + ys', gives)
  {
    var a :| PickedAt(xs, ys, gives, a);
    var b :| PickedAt(xs', ys', gives, b);
    var at := a + Shifted(b, |xs|);
    ShiftedClimbs(a, b, |xs|);
    forall k | 0 <= k < |at| ensures at[k] < |xs + xs'| && gives((xs + xs')[at[k]], (ys + ys')[k]) {
      PickedHere(xs, ys, xs', ys', gives, a, b, k);
    }
    forall i: nat, y | i < |xs + xs'| && i !in at ensures !gives((xs + xs')[i], y) {
      PickedElsewhere(xs, ys, xs', ys', gives, a, b, i, y);
    }
    assert PickedAt(xs + xs', ys + ys', gives, at);
  }

  lemma {:induction false} PickCons<A, B(!new)>(xs: seq<A>, ys: seq<B>, ys': seq<B>, gives: (A, B) -> bool)
    requires xs != [] && PickedInOrder([xs[0]], ys, gives) && PickedInOrder(xs[1..], ys', gives)
    ensures PickedInOrder(xs, ys + ys', gives)
  {
    PickBoth([xs[0]], ys, xs[1..], ys', gives);
    assert [xs[0]] + xs[1..] == xs;
  }
}
