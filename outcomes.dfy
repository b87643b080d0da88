/**
 * The shape every script's main loop shares: steps run in order, each
 * appending its items to a list, and the first step that raises aborts the
 * whole run with that exception.
 */
module Outcomes {
  import opened Wrappers
  import opened Faults

  /** The items of the steps, concatenated in step order, or the first fault. */
  function Concat<T>(steps: seq<Result<seq<T>, Fault>>): (r: Result<seq<T>, Fault>)
    ensures r.Success? <==> forall k :: 0 <= k < |steps| ==> steps[k].Success?
  {
    if steps == [] then Success([])
    else
      var n := |steps| - 1;
      match Concat(steps[..n])
      case Failure(e) => Failure(e)
      case Success(before) =>
        match steps[n]
        case Failure(e) => Failure(e)
        case Success(mine) => Success(before + mine)
  }

  lemma ConcatEmpty<T>()
    ensures Concat<T>([]) == Success([])
  {
  }

  lemma ConcatSingle<T>(step: Result<seq<T>, Fault>)
    ensures Concat([step]) == step
  {
    assert [step][..0] == [];
    if step.Success? {
      assert [] + step.value == step.value;
    }
  }

  /**
   * Running two lists of steps one after the other: the items concatenate,
   * and a fault in the first list hides everything in the second.
   */
  lemma {:induction false} ConcatAppend<T>(a: seq<Result<seq<T>, Fault>>, b: seq<Result<seq<T>, Fault>>)
    ensures Concat(a).Failure? ==> Concat(a + b) == Concat(a)
    ensures Concat(a).Success? && Concat(b).Failure? ==> Concat(a + b) == Concat(b)
    ensures Concat(a).Success? && Concat(b).Success? ==>
      Concat(a + b) == Success(Concat(a).value + Concat(b).value)
    decreases |b|
  {
    if b == [] {
      assert a + b == a;
      if Concat(a).Success? {
        assert Concat(a).value + [] == Concat(a).value;
      }
    } else {
      var n := |b| - 1;
      assert (a + b)[..|a| + n] == a + b[..n];
      assert (a + b)[|a| + n] == b[n];
      ConcatAppend(a, b[..n]);
      if Concat(a).Success? && Concat(b[..n]).Success? && b[n].Success? {
        assert Concat(a).value + Concat(b[..n]).value + b[n].value ==
          Concat(a).value + (Concat(b[..n]).value + b[n].value);
      }
    }
  }

  /** One more step at the end of a prefix that succeeded. */
  lemma ConcatStep<T>(steps: seq<Result<seq<T>, Fault>>, i: nat)
    requires i < |steps|
    ensures steps[..i + 1] == steps[..i] + [steps[i]]
    ensures Concat(steps[..i]).Success? && steps[i].Success? ==>
      Concat(steps[..i + 1]) == Success(Concat(steps[..i]).value + steps[i].value)
    ensures Concat(steps[..i]).Success? && steps[i].Failure? ==>
      Concat(steps) == Failure(steps[i].error)
  {
    assert steps[..i + 1] == steps[..i] + [steps[i]];
    ConcatSingle(steps[i]);
    ConcatAppend(steps[..i], [steps[i]]);
    if Concat(steps[..i]).Success? && steps[i].Failure? {
      assert steps == steps[..i + 1] + steps[i + 1..];
      ConcatAppend(steps[..i + 1], steps[i + 1..]);
    }
  }

  /** A property of every item of every step holds of every item of the concatenation. */
  lemma {:induction false} ConcatAll<T>(steps: seq<Result<seq<T>, Fault>>, p: T -> bool)
    requires Concat(steps).Success?
    requires forall k :: 0 <= k < |steps| ==> forall x :: x in steps[k].value ==> p(x)
    ensures forall x :: x in Concat(steps).value ==> p(x)
  {
    if steps != [] {
      var n := |steps| - 1;
      assert forall k :: 0 <= k < n ==> steps[..n][k] == steps[k];
      ConcatAll(steps[..n], p);
    }
  }

  /** The number of items is the sum of what each step produced: at most `bound` per step. */
  lemma {:induction false} ConcatLength<T>(steps: seq<Result<seq<T>, Fault>>, bound: nat)
    requires Concat(steps).Success?
    requires forall k :: 0 <= k < |steps| ==> |steps[k].value| <= bound
    ensures |Concat(steps).value| <= bound * |steps|
  {
    if steps != [] {
      var n := |steps| - 1;
      assert forall k :: 0 <= k < n ==> steps[..n][k] == steps[k];
      ConcatLength(steps[..n], bound);
    }
  }

  /** Steps that each produce exactly one item: the concatenation lists those items in step order. */
  lemma {:induction false} ConcatSingletons<T>(steps: seq<Result<seq<T>, Fault>>)
    requires forall k :: 0 <= k < |steps| ==> steps[k].Success? && |steps[k].value| == 1
    ensures Concat(steps).Success?
    ensures |Concat(steps).value| == |steps|
    ensures forall k :: 0 <= k < |steps| ==> Concat(steps).value[k] == steps[k].value[0]
  {
    if steps != [] {
      var n := |steps| - 1;
      assert forall k :: 0 <= k < n ==> steps[..n][k] == steps[k];
      ConcatSingletons(steps[..n]);
    }
  }

  /** A fault every failing step shares is the fault of the concatenation. */
  lemma {:induction false} ConcatFault<T>(steps: seq<Result<seq<T>, Fault>>, p: Fault -> bool)
    requires forall k :: 0 <= k < |steps| ==> steps[k].Failure? ==> p(steps[k].error)
    ensures Concat(steps).Failure? ==> p(Concat(steps).error)
  {
    if steps != [] {
      var n := |steps| - 1;
      assert forall k :: 0 <= k < n ==> steps[..n][k] == steps[k];
      ConcatFault(steps[..n], p);
    }
  }

  /** The lists one after the other: a loop that only appends and never fails. */
  function Flatten<T>(xss: seq<seq<T>>): seq<T> {
    if xss == [] then [] else Flatten(xss[..|xss| - 1]) + xss[|xss| - 1]
  }

  lemma {:induction false} FlattenAppend<T>(a: seq<seq<T>>, b: seq<seq<T>>)
    ensures Flatten(a + b) == Flatten(a) + Flatten(b)
    decreases |b|
  {
    if b == [] {
      assert a + b == a;
    } else {
      var n := |b| - 1;
      assert (a + b)[..|a| + n] == a + b[..n];
      assert (a + b)[|a| + n] == b[n];
      FlattenAppend(a, b[..n]);
    }
  }

  /** One more list at the end of a prefix. */
  lemma FlattenStep<T>(xss: seq<seq<T>>, i: nat)
    requires i < |xss|
    ensures Flatten(xss[..i + 1]) == Flatten(xss[..i]) + xss[i]
  {
    assert xss[..i + 1][..i] == xss[..i];
  }

  /** Every item of the flattened list comes from one of the lists. */
  lemma {:induction false} FlattenAll<T>(xss: seq<seq<T>>, p: T -> bool)
    requires forall k :: 0 <= k < |xss| ==> forall x :: x in xss[k] ==> p(x)
    ensures forall x :: x in Flatten(xss) ==> p(x)
  {
    if xss != [] {
      var n := |xss| - 1;
      assert forall k :: 0 <= k < n ==> xss[..n][k] == xss[k];
      FlattenAll(xss[..n], p);
    }
  }
}
