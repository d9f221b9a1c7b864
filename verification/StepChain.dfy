/** The hash-linked steps of pqtrace.mjs: every step hashes its payload together with the
    hash of the step before it, and a sealed head pins the count and the last hash. */
module StepChain {
  import opened Hashing

  type Link<!P, !T> = (P, T) -> T

  /** Collision resistance of the step hash, and nil no step's hash. */
  ghost predicate Binding<P(!new), T(!new)>(f: Link<P, T>, nil: T) {
    (forall p, a, q, b :: f(p, a) == f(q, b) ==> p == q && a == b)
    && forall p, a :: f(p, a) != nil
  }

  /** The last hash of the chain over the payloads. */
  function Final<P, T>(f: Link<P, T>, nil: T, payloads: seq<P>): T {
    if payloads == [] then nil
    else f(payloads[|payloads| - 1], Final(f, nil, payloads[..|payloads| - 1]))
  }

  method Chain<P, T>(f: Link<P, T>, nil: T, payloads: seq<P>) returns (acc: T)
    ensures acc == Final(f, nil, payloads)
  {
    acc := nil;
    for i := 0 to |payloads|
      invariant acc == Final(f, nil, payloads[..i])
    {
      assert payloads[..i + 1][..i] == payloads[..i];
      acc := f(payloads[i], acc);
    }
    assert payloads[..|payloads|] == payloads;
  }

  /** The final hash pins the payloads, even across different lengths. */
  lemma {:induction false} FinalPinsPayloads<P(!new), T(!new)>(f: Link<P, T>, nil: T, a: seq<P>, b: seq<P>)
    requires Binding(f, nil)
    ensures Final(f, nil, a) == Final(f, nil, b) <==> a == b
    decreases |a|
  {
    if a != [] && b != [] && Final(f, nil, a) == Final(f, nil, b) {
      var m, n := |a| - 1, |b| - 1;
      FinalPinsPayloads(f, nil, a[..m], b[..n]);
      assert a == a[..m] + [a[m]] && b == b[..n] + [b[n]];
    }
  }

  // ----- recorded steps -----

  datatype Step<P, T> = Step(payload: P, prev: T, hash: T)

  datatype Sealed<T> = Sealed(count: nat, finalHash: T)

  /** The steps an honest recorder writes for the payloads. */
  function Written<P, T>(f: Link<P, T>, nil: T, payloads: seq<P>): (steps: seq<Step<P, T>>)
    ensures |steps| == |payloads|
  {
    if payloads == [] then []
    else
      var n := |payloads| - 1;
      var prev := Final(f, nil, payloads[..n]);
      Written(f, nil, payloads[..n]) + [Step(payloads[n], prev, f(payloads[n], prev))]
  }

  class TraceWriter<P, T> {
    const f: Link<P, T>
    const nil: T
    var steps: seq<Step<P, T>>
    var finished: bool
    ghost var payloads: seq<P>

    ghost predicate Valid()
      reads this
    {
      steps == Written(f, nil, payloads)
    }

    constructor (f: Link<P, T>, nil: T)
      ensures Valid() && payloads == [] && !finished && this.f == f && this.nil == nil
    {
      this.f, this.nil := f, nil;
      steps, payloads, finished := [], [], false;
    }

    /** None stands for the error: nothing is added to a finished trace. */
    method AddStep(payload: P) returns (step: Option<Step<P, T>>)
      requires Valid()
      modifies this
      ensures Valid() && finished == old(finished)
      ensures step.None? <==> finished
      ensures payloads == if finished then old(payloads) else old(payloads) + [payload]
      ensures step.Some? ==> steps == old(steps) + [step.value] && step.value.payload == payload
    {
      if finished {
        return None;
      }
      var seqNo := |steps|;
      var prev := if seqNo == 0 then nil else steps[seqNo - 1].hash;
      assert (payloads + [payload])[..seqNo] == payloads;
      var s := Step(payload, prev, f(payload, prev));
      steps := steps + [s];
      payloads := payloads + [payload];
      step := Some(s);
    }

    /** None stands for the error: an empty or a finished trace is not sealed. */
    method Finish() returns (head: Option<Sealed<T>>)
      requires Valid()
      modifies this
      ensures Valid() && steps == old(steps) && payloads == old(payloads)
      ensures head == if old(finished) || steps == [] then None else Some(Sealed(|payloads|, Final(f, nil, payloads)))
      ensures finished == (old(finished) || head.Some?)
    {
      if finished || |steps| == 0 {
        return None;
      }
      finished := true;
      head := Some(Sealed(|steps|, steps[|steps| - 1].hash));
    }
  }

  function Payloads<P, T>(steps: seq<Step<P, T>>): (payloads: seq<P>)
    ensures |payloads| == |steps|
  {
    seq(|steps|, i requires 0 <= i < |steps| => steps[i].payload)
  }

  /** Step i names the hash of the one before, nil for the first, and hashes its payload
      with that. */
  ghost predicate LinkedAt<P(!new), T(!new)>(f: Link<P, T>, nil: T, steps: seq<Step<P, T>>, i: nat)
    requires i < |steps|
  {
    steps[i].prev == (if i == 0 then nil else steps[i - 1].hash)
    && steps[i].hash == f(steps[i].payload, steps[i].prev)
  }

  ghost predicate Linked<P(!new), T(!new)>(f: Link<P, T>, nil: T, steps: seq<Step<P, T>>) {
    forall i :: 0 <= i < |steps| ==> LinkedAt(f, nil, steps, i)
  }

  lemma LinkedSnoc<P(!new), T(!new)>(f: Link<P, T>, nil: T, init: seq<Step<P, T>>, s: Step<P, T>)
    ensures Linked(f, nil, init + [s]) <==> Linked(f, nil, init) && LinkedAt(f, nil, init + [s], |init|)
  {
    assert forall i :: 0 <= i < |init| ==> (LinkedAt(f, nil, init + [s], i) <==> LinkedAt(f, nil, init, i));
  }

  /** A recorder writes exactly the linked steps, and the final hash is the last one's. */
  lemma {:induction false} WrittenIffLinked<P(!new), T(!new)>(f: Link<P, T>, nil: T, steps: seq<Step<P, T>>)
    ensures steps == Written(f, nil, Payloads(steps)) <==> Linked(f, nil, steps)
    ensures Linked(f, nil, steps) ==> Final(f, nil, Payloads(steps)) == if steps == [] then nil else steps[|steps| - 1].hash
    decreases |steps|
  {
    if steps == [] {
    } else {
      var n := |steps| - 1;
      var init, s := steps[..n], steps[n];
      WrittenIffLinked(f, nil, init);
      assert Payloads(steps)[..n] == Payloads(init);
      assert steps == init + [s];
      var prev := Final(f, nil, Payloads(init));
      assert Written(f, nil, Payloads(steps)) == Written(f, nil, Payloads(init)) + [Step(s.payload, prev, f(s.payload, prev))];
      LinkedSnoc(f, nil, init, s);
    }
  }

  /** The chain checks of verifyTrace: links and recomputed hashes, then the sealed head. */
  method VerifyChain<P, T(==)>(f: Link<P, T>, nil: T, steps: seq<Step<P, T>>, head: Sealed<T>) returns (ok: bool)
    ensures ok <==> steps != [] && steps == Written(f, nil, Payloads(steps))
                    && head == Sealed(|steps|, Final(f, nil, Payloads(steps)))
  {
    if |steps| == 0 {
      return false;
    }
    ghost var payloads := Payloads(steps);
    for i := 0 to |steps|
      invariant steps[..i] == Written(f, nil, payloads[..i])
      invariant i > 0 ==> steps[i - 1].hash == Final(f, nil, payloads[..i])
    {
      var s := steps[i];
      var expectPrev := if i == 0 then nil else steps[i - 1].hash;
      assert payloads[..i + 1][..i] == payloads[..i];
      assert steps[..i + 1] == steps[..i] + [s];
      if s.prev != expectPrev || f(s.payload, s.prev) != s.hash {
        WrittenPrefix(f, nil, payloads, i + 1);
        return false;
      }
    }
    assert payloads[..|steps|] == payloads && steps[..|steps|] == steps;
    ok := head.count == |steps| && head.finalHash == steps[|steps| - 1].hash;
  }

  lemma {:induction false} WrittenPrefix<P, T>(f: Link<P, T>, nil: T, payloads: seq<P>, i: nat)
    requires i <= |payloads|
    ensures Written(f, nil, payloads)[..i] == Written(f, nil, payloads[..i])
    decreases |payloads|
  {
    if i < |payloads| {
      var n := |payloads| - 1;
      WrittenPrefix(f, nil, payloads[..n], i);
      assert payloads[..n][..i] == payloads[..i];
    } else {
      assert payloads[..i] == payloads;
    }
  }

  /** Two traces that verify under one sealed final hash are the same trace, step for step:
      no edit, insertion, deletion, reordering or truncation goes unnoticed. */
  lemma SealedHeadPinsTrace<P(!new), T(!new)>(f: Link<P, T>, nil: T, a: seq<Step<P, T>>, b: seq<Step<P, T>>)
    requires Binding(f, nil)
    requires a == Written(f, nil, Payloads(a)) && b == Written(f, nil, Payloads(b))
    requires Final(f, nil, Payloads(a)) == Final(f, nil, Payloads(b))
    ensures a == b
  {
    FinalPinsPayloads(f, nil, Payloads(a), Payloads(b));
  }
}
