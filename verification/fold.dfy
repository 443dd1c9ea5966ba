/** The left fold every line-by-line loop of the pipeline is: a state is
    threaded through the items, and each item appends some output. */
module Folds {

  datatype Out<S, E> = Out(state: S, out: seq<E>)

  /** Run `step` over `items` from state `a`, collecting the outputs in order. */
  function Fold<S, I, E>(step: (S, I) -> Out<S, E>, a: S, items: seq<I>): Out<S, E>
    decreases |items|
  {
    if items == [] then Out(a, [])
    else
      var s := step(a, items[0]);
      var rest := Fold(step, s.state, items[1..]);
      Out(rest.state, s.out + rest.out)
  }

  /** Every item satisfies `p`. */
  predicate All<I>(p: I -> bool, items: seq<I>) {
    items == [] || (p(items[0]) && All(p, items[1..]))
  }

  /** The outputs of `f` on every item, concatenated in order. */
  function FlatMap<I, T>(f: I -> seq<T>, items: seq<I>): seq<T> {
    if items == [] then [] else f(items[0]) + FlatMap(f, items[1..])
  }

  lemma {:induction false} FlatMapAppend<I, T>(f: I -> seq<T>, xs: seq<I>, ys: seq<I>)
    ensures FlatMap(f, xs + ys) == FlatMap(f, xs) + FlatMap(f, ys)
    decreases |xs|
  {
    if xs == [] {
      assert xs + ys == ys;
    } else {
      assert (xs + ys)[1..] == xs[1..] + ys;
      FlatMapAppend(f, xs[1..], ys);
    }
  }

  /** Whatever one item contributes is part of the whole. */
  lemma {:induction false} FlatMapHas<I, T>(f: I -> seq<T>, items: seq<I>, k: nat, x: T)
    requires k < |items| && x in f(items[k])
    ensures x in FlatMap(f, items)
    decreases k
  {
    if k > 0 {
      assert items[1..][k - 1] == items[k];
      FlatMapHas(f, items[1..], k - 1, x);
    }
  }

  /** Folding over a concatenation folds the second part from where the
      first part ended, and the outputs concatenate. */
  lemma {:induction false} FoldAppend<S, I, E>(step: (S, I) -> Out<S, E>, a: S, xs: seq<I>, ys: seq<I>)
    ensures Fold(step, a, xs + ys).state == Fold(step, Fold(step, a, xs).state, ys).state
    ensures Fold(step, a, xs + ys).out == Fold(step, a, xs).out + Fold(step, Fold(step, a, xs).state, ys).out
    decreases |xs|
  {
    if xs != [] {
      assert (xs + ys)[0] == xs[0] && (xs + ys)[1..] == xs[1..] + ys;
      var s := step(a, xs[0]);
      FoldAppend(step, s.state, xs[1..], ys);
      var t1 := Fold(step, s.state, xs[1..]);
      var r2 := Fold(step, t1.state, ys);
      assert s.out + (t1.out + r2.out) == (s.out + t1.out) + r2.out;
    } else {
      assert xs + ys == ys;
    }
  }

  /** Folding over one more item is one more step. */
  lemma FoldSnoc<S, I, E>(step: (S, I) -> Out<S, E>, a: S, xs: seq<I>, x: I)
    ensures var r := Fold(step, a, xs);
            var s := step(r.state, x);
            Fold(step, a, xs + [x]) == Out(s.state, r.out + s.out)
  {
    FoldAppend(step, a, xs, [x]);
    var r := Fold(step, a, xs);
    assert Fold(step, r.state, [x]).out == step(r.state, x).out + [];
  }

  /** Folding over three items is three steps. */
  lemma ThreeSteps<S, I, E>(step: (S, I) -> Out<S, E>, a: S, x: I, y: I, z: I)
    ensures var s1 := step(a, x);
            var s2 := step(s1.state, y);
            var s3 := step(s2.state, z);
            Fold(step, a, [x, y, z]) == Out(s3.state, s1.out + s2.out + s3.out)
  {
    var s1 := step(a, x);
    var s2 := step(s1.state, y);
    var s3 := step(s2.state, z);
    assert [x, y, z][1..] == [y, z] && [y, z][1..] == [z] && [z][1..] == [];
    assert Fold(step, s2.state, [z]) == Out(s3.state, s3.out + []);
  }

  /** A state property every step keeps holds after the whole fold. */
  lemma {:induction false} FoldKeeps<S, I, E>(step: (S, I) -> Out<S, E>, inv: S -> bool, a: S, items: seq<I>)
    requires inv(a)
    requires forall s, i :: inv(s) ==> inv(step(s, i).state)
    ensures inv(Fold(step, a, items).state)
    decreases |items|
  {
    if items != [] {
      FoldKeeps(step, inv, step(a, items[0]).state, items[1..]);
    }
  }

  /** An output property every step's output has holds of the whole output. */
  lemma {:induction false} FoldOutputs<S, I, E>(step: (S, I) -> Out<S, E>, good: E -> bool, a: S, items: seq<I>)
    requires forall s, i, k :: 0 <= k < |step(s, i).out| ==> good(step(s, i).out[k])
    ensures forall k :: 0 <= k < |Fold(step, a, items).out| ==> good(Fold(step, a, items).out[k])
    decreases |items|
  {
    if items != [] {
      var s := step(a, items[0]);
      FoldOutputs(step, good, s.state, items[1..]);
      var rest := Fold(step, s.state, items[1..]);
      forall k | 0 <= k < |s.out + rest.out| ensures good((s.out + rest.out)[k]) {
        if k >= |s.out| { assert (s.out + rest.out)[k] == rest.out[k - |s.out|]; }
      }
    }
  }

  /** An output property that holds of every step taken from a state
      satisfying an invariant holds of the whole output. */
  lemma {:induction false} FoldOutputsUnder<S, I, E>(step: (S, I) -> Out<S, E>, inv: S -> bool, good: E -> bool,
                                                     a: S, items: seq<I>)
    requires inv(a)
    requires forall s, i :: inv(s) ==> inv(step(s, i).state)
    requires forall s, i, k :: inv(s) && 0 <= k < |step(s, i).out| ==> good(step(s, i).out[k])
    ensures inv(Fold(step, a, items).state)
    ensures forall k :: 0 <= k < |Fold(step, a, items).out| ==> good(Fold(step, a, items).out[k])
    decreases |items|
  {
    if items != [] {
      var s := step(a, items[0]);
      FoldOutputsUnder(step, inv, good, s.state, items[1..]);
      var rest := Fold(step, s.state, items[1..]);
      forall k | 0 <= k < |s.out + rest.out| ensures good((s.out + rest.out)[k]) {
        if k >= |s.out| { assert (s.out + rest.out)[k] == rest.out[k - |s.out|]; }
      }
    }
  }

  /** For a fold that emits at most one item per step, and whose states
      are marked from the first emission on: every output after the first
      has the property that outputs from marked states have. */
  lemma {:induction false} FoldOutputsAfterFirst<S, I, E>(step: (S, I) -> Out<S, E>, mark: S -> bool, good: E -> bool,
                                                          a: S, items: seq<I>)
    requires forall s, i :: |step(s, i).out| <= 1
    requires forall s, i :: step(s, i).out != [] ==> mark(step(s, i).state)
    requires forall s, i :: mark(s) ==> mark(step(s, i).state)
    requires forall s, i, k :: mark(s) && 0 <= k < |step(s, i).out| ==> good(step(s, i).out[k])
    ensures var r := Fold(step, a, items);
            && (forall k :: 1 <= k < |r.out| ==> good(r.out[k]))
            && (r.out != [] || mark(a) ==> mark(r.state))
            && (mark(a) ==> forall k :: 0 <= k < |r.out| ==> good(r.out[k]))
    decreases |items|
  {
    if items != [] {
      var s := step(a, items[0]);
      FoldOutputsAfterFirst(step, mark, good, s.state, items[1..]);
      var rest := Fold(step, s.state, items[1..]);
      var out := s.out + rest.out;
      if s.out == [] {
        assert out == rest.out;
      } else {
        forall k | 1 <= k < |out| ensures good(out[k]) {
          assert out[k] == rest.out[k - 1];
        }
      }
    }
  }

  /** Sequence bookkeeping for a step of a collecting fold: what the step
      emitted (`x`) and kept (`hs`), followed by what the rest emitted (`y`)
      and kept (`h`), is what was kept before (`ha`), the item (`o`) and
      the remaining items (`g`). */
  lemma Regroup<T>(x: seq<T>, y: seq<T>, h: seq<T>, hs: seq<T>, g: seq<T>, ha: seq<T>, o: seq<T>)
    requires y + h == hs + g && x + hs == ha + o
    ensures (x + y) + h == ha + (o + g)
  {
    calc {
      (x + y) + h;
      x + (y + h);
      x + (hs + g);
      (x + hs) + g;
      (ha + o) + g;
    }
  }
}
