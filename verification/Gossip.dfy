/** The reconciler of pqgovern-witness.mjs: every pair of counted observations is either
    compared root to root, checked by the consistency walk, or left open. */
module GossipReconciler {
  import opened Hashing
  import opened MerkleTree
  import opened InclusionProof
  import opened ConsistencyProof

  /** A gossiped head: authentic is the verdict of verifyWitnessObservation on it. */
  datatype Observation<W, T> = Observation(who: W, head: Head<T>, authentic: bool)

  datatype Seen<W, T> = Seen(who: W, head: Head<T>)

  type Proofs<T> = map<(int, int), seq<T>>

  datatype Finding<W, T> =
    | ExactSizeFork(size: int, whoA: W, whoB: W, rootA: T, rootB: T)
    | PrefixViolation(small: int, large: int, whoSmall: W, whoLarge: W)

  datatype Gap<W> = Gap(small: int, large: int, whoSmall: W, whoLarge: W)

  datatype Judgement<W, T> = Agree | Conflict(finding: Finding<W, T>) | Open(gap: Gap<W>)

  /** An observation left out: from a witness outside the trusted set, or not authentic. */
  datatype Skip<W> = Skip(who: W, trusted: bool)

  datatype Report<W, T> = Report(
    consistent: bool,
    equivocations: seq<Finding<W, T>>,
    unresolved: seq<Gap<W>>,
    counted: nat,
    skipped: seq<Skip<W>>,
    agreedHead: Option<Head<T>>)

  /** The observations that count: authentic, and from the trusted set. */
  function Counted<W(==), T>(observations: seq<Observation<W, T>>, trusted: set<W>): (valid: seq<Seen<W, T>>)
    ensures |valid| <= |observations|
  {
    if observations == [] then []
    else
      var o := observations[|observations| - 1];
      Counted(observations[..|observations| - 1], trusted)
      + if o.who in trusted && o.authentic then [Seen(o.who, o.head)] else []
  }

  function Judge<W, T(==)>(h: Combine<T>, a: Seen<W, T>, b: Seen<W, T>, proofs: Proofs<T>): Judgement<W, T> {
    if a.head.size == b.head.size then
      if a.head.root == b.head.root then Agree
      else Conflict(ExactSizeFork(a.head.size, a.who, b.who, a.head.root, b.head.root))
    else
      var (sm, lg) := if a.head.size < b.head.size then (a, b) else (b, a);
      var (m, n) := (sm.head.size, lg.head.size);
      if (m, n) !in proofs then Open(Gap(m, n, sm.who, lg.who))
      else if n <= MAX_TREE_SIZE && Checks(h, m, n, sm.head.root, lg.head.root, proofs[(m, n)]) then Agree
      else Conflict(PrefixViolation(m, n, sm.who, lg.who))
  }

  /** Every pair agrees: what the verdict consistent asserts. */
  ghost predicate Resolved<W(!new), T(!new)>(h: Combine<T>, valid: seq<Seen<W, T>>, proofs: Proofs<T>) {
    forall i, j :: 0 <= i < j < |valid| ==> Judge(h, valid[i], valid[j], proofs).Agree?
  }

  /** The judgements of a against each of the others, in order. */
  function Row<W, T(==)>(h: Combine<T>, a: Seen<W, T>, others: seq<Seen<W, T>>, proofs: Proofs<T>): seq<Judgement<W, T>> {
    if others == [] then [] else [Judge(h, a, others[0], proofs)] + Row(h, a, others[1..], proofs)
  }

  /** The judgements of all pairs: the first observation against every later one, then the
      pairs among those. */
  function AllPairs<W, T(==)>(h: Combine<T>, valid: seq<Seen<W, T>>, proofs: Proofs<T>): seq<Judgement<W, T>> {
    if valid == [] then [] else Row(h, valid[0], valid[1..], proofs) + AllPairs(h, valid[1..], proofs)
  }

  function Conflicts<W, T>(js: seq<Judgement<W, T>>): seq<Finding<W, T>> {
    if js == [] then [] else (if js[0].Conflict? then [js[0].finding] else []) + Conflicts(js[1..])
  }

  function Gaps<W, T>(js: seq<Judgement<W, T>>): seq<Gap<W>> {
    if js == [] then [] else (if js[0].Open? then [js[0].gap] else []) + Gaps(js[1..])
  }

  /** The reported lists: the conflicts and the gaps of the pairs, each in pair order. */
  ghost predicate Lists<W, T>(
    h: Combine<T>, valid: seq<Seen<W, T>>, proofs: Proofs<T>,
    equivocations: seq<Finding<W, T>>, unresolved: seq<Gap<W>>)
  {
    equivocations == Conflicts(AllPairs(h, valid, proofs)) && unresolved == Gaps(AllPairs(h, valid, proofs))
  }

  ghost predicate IsLargest<W(!new), T(!new)>(valid: seq<Seen<W, T>>, head: Head<T>) {
    (exists i :: 0 <= i < |valid| && valid[i].head == head)
    && forall i :: 0 <= i < |valid| ==> valid[i].head.size <= head.size
  }

  /** The observations that do not count, in order. */
  function Skipped<W(==), T>(observations: seq<Observation<W, T>>, trusted: set<W>): (skipped: seq<Skip<W>>)
    ensures |skipped| + |Counted(observations, trusted)| == |observations|
  {
    if observations == [] then []
    else
      var o := observations[|observations| - 1];
      Skipped(observations[..|observations| - 1], trusted)
      + if o.who !in trusted || !o.authentic then [Skip(o.who, o.who in trusted)] else []
  }

  method CountValid<W(==), T>(observations: seq<Observation<W, T>>, trusted: set<W>)
    returns (valid: seq<Seen<W, T>>, skipped: seq<Skip<W>>)
    ensures valid == Counted(observations, trusted) && skipped == Skipped(observations, trusted)
  {
    valid, skipped := [], [];
    for i := 0 to |observations|
      invariant valid == Counted(observations[..i], trusted) && skipped == Skipped(observations[..i], trusted)
    {
      var o := observations[i];
      assert observations[..i + 1][..i] == observations[..i];
      if o.who !in trusted {
        skipped := skipped + [Skip(o.who, false)];
      } else if !o.authentic {
        skipped := skipped + [Skip(o.who, true)];
      } else {
        valid := valid + [Seen(o.who, o.head)];
      }
    }
    assert observations[..|observations|] == observations;
  }

  // ----- what is counted -----

  /** The positions in a set, in increasing order. */
  ghost predicate Enumerates(at: seq<nat>, positions: set<nat>) {
    (forall k, l :: 0 <= k < l < |at| ==> at[k] < at[l])
    && forall i :: i in at <==> i in positions
  }

  ghost function CountingAt<W(!new), T(!new)>(observations: seq<Observation<W, T>>, trusted: set<W>): set<nat> {
    set i: nat | i < |observations| && observations[i].who in trusted && observations[i].authentic
  }

  ghost function SkippedAt<W(!new), T(!new)>(observations: seq<Observation<W, T>>, trusted: set<W>): set<nat> {
    set i: nat | i < |observations| && !(observations[i].who in trusted && observations[i].authentic)
  }

  lemma EnumeratesNext(at: seq<nat>, positions: set<nat>, n: nat)
    requires Enumerates(at, positions) && forall i :: i in positions ==> i < n
    ensures Enumerates(at + [n], positions + {n})
  {
    assert forall k :: 0 <= k < |at| ==> at[k] in at;
  }

  lemma PositionsNext<W(!new), T(!new)>(observations: seq<Observation<W, T>>, trusted: set<W>)
    requires observations != []
    ensures var n := |observations| - 1;
            var init, o := observations[..n], observations[n];
            CountingAt(observations, trusted)
            == CountingAt(init, trusted) + (if o.who in trusted && o.authentic then {n} else {})
            && SkippedAt(observations, trusted)
               == SkippedAt(init, trusted) + (if o.who in trusted && o.authentic then {} else {n})
            && (forall i :: i in CountingAt(init, trusted) || i in SkippedAt(init, trusted) ==> i < n)
  {
  }

  /** The counted list: who and head of each trusted and authentic observation, in order,
      none left out and none twice. */
  lemma {:induction false} CountedExactly<W(!new), T(!new)>(observations: seq<Observation<W, T>>, trusted: set<W>)
    returns (at: seq<nat>)
    ensures Enumerates(at, CountingAt(observations, trusted))
    ensures var valid := Counted(observations, trusted);
            |at| == |valid|
            && forall k :: 0 <= k < |at| ==>
                 at[k] < |observations| && valid[k] == Seen(observations[at[k]].who, observations[at[k]].head)
  {
    if observations == [] {
      at := [];
    } else {
      hide CountingAt, SkippedAt, Enumerates;
      var n := |observations| - 1;
      var init, o := observations[..n], observations[n];
      at := CountedExactly(init, trusted);
      PositionsNext(observations, trusted);
      if o.who in trusted && o.authentic {
        EnumeratesNext(at, CountingAt(init, trusted), n);
        at := at + [n];
      } else {
        assert CountingAt(observations, trusted) == CountingAt(init, trusted);
      }
    }
  }

  /** The skipped list: the others, in order, each with whether its witness is trusted. */
  lemma {:induction false} SkippedExactly<W(!new), T(!new)>(observations: seq<Observation<W, T>>, trusted: set<W>)
    returns (at: seq<nat>)
    ensures Enumerates(at, SkippedAt(observations, trusted))
    ensures var skipped := Skipped(observations, trusted);
            |at| == |skipped|
            && forall k :: 0 <= k < |at| ==>
                 at[k] < |observations|
                 && skipped[k] == Skip(observations[at[k]].who, observations[at[k]].who in trusted)
  {
    if observations == [] {
      at := [];
    } else {
      hide CountingAt, SkippedAt, Enumerates;
      var n := |observations| - 1;
      var init, o := observations[..n], observations[n];
      at := SkippedExactly(init, trusted);
      PositionsNext(observations, trusted);
      if o.who in trusted && o.authentic {
        assert SkippedAt(observations, trusted) == SkippedAt(init, trusted);
      } else {
        EnumeratesNext(at, SkippedAt(init, trusted), n);
        at := at + [n];
      }
    }
  }

  /** Two counting observations, in their order, are two entries of the counted list. */
  lemma BothCounted<W(!new), T(!new)>(observations: seq<Observation<W, T>>, trusted: set<W>, i: nat, j: nat)
    returns (k: nat, l: nat)
    requires i < j < |observations|
    requires i in CountingAt(observations, trusted) && j in CountingAt(observations, trusted)
    ensures var valid := Counted(observations, trusted);
            k < l < |valid|
            && valid[k] == Seen(observations[i].who, observations[i].head)
            && valid[l] == Seen(observations[j].who, observations[j].head)
  {
    hide Counted, CountingAt;
    var at := CountedExactly(observations, trusted);
    k :| 0 <= k < |at| && at[k] == i;
    l :| 0 <= l < |at| && at[l] == j;
  }

  /** The body of the pair loop. */
  method JudgePair<W, T(==)>(h: Combine<T>, a: Seen<W, T>, b: Seen<W, T>, proofs: Proofs<T>)
    returns (v: Judgement<W, T>)
    ensures v == Judge(h, a, b, proofs)
    ensures a.head.size == b.head.size ==>
              v == if a.head.root == b.head.root then Agree
                   else Conflict(ExactSizeFork(a.head.size, a.who, b.who, a.head.root, b.head.root))
  {
    if a.head.size == b.head.size {
      if a.head.root != b.head.root {
        return Conflict(ExactSizeFork(a.head.size, a.who, b.who, a.head.root, b.head.root));
      }
      return Agree;
    }
    var sm, lg := a, b;
    if b.head.size < a.head.size {
      sm, lg := b, a;
    }
    var key := (sm.head.size, lg.head.size);
    if key !in proofs {
      return Open(Gap(key.0, key.1, sm.who, lg.who));
    }
    var ok := VerifyConsistency(h, key.0, key.1, sm.head.root, lg.head.root, proofs[key]);
    v := if ok then Agree else Conflict(PrefixViolation(key.0, key.1, sm.who, lg.who));
  }

  /** The pair loops. */
  method JudgePairs<W, T(==)>(h: Combine<T>, valid: seq<Seen<W, T>>, proofs: Proofs<T>)
    returns (equivocations: seq<Finding<W, T>>, unresolved: seq<Gap<W>>)
    ensures Lists(h, valid, proofs, equivocations, unresolved)
  {
    hide Judge, Row, AllPairs, Conflicts, Gaps;
    equivocations, unresolved := [], [];
    ghost var all := AllPairs(h, valid, proofs);
    assert valid[0..] == valid;
    for i := 0 to |valid|
      invariant equivocations + Conflicts(AllPairs(h, valid[i..], proofs)) == Conflicts(all)
      invariant unresolved + Gaps(AllPairs(h, valid[i..], proofs)) == Gaps(all)
    {
      ghost var below := AllPairs(h, valid[i + 1..], proofs);
      RowBegins(h, valid, proofs, i);
      for j := i + 1 to |valid|
        invariant equivocations + Conflicts(Row(h, valid[i], valid[j..], proofs) + below) == Conflicts(all)
        invariant unresolved + Gaps(Row(h, valid[i], valid[j..], proofs) + below) == Gaps(all)
      {
        var v := JudgePair(h, valid[i], valid[j], proofs);
        RowStep(h, valid, proofs, i, j, below);
        match v {
          case Agree =>
          case Conflict(f) => equivocations := equivocations + [f];
          case Open(g) => unresolved := unresolved + [g];
        }
      }
      RowEnds(h, valid[i], valid[|valid|..], proofs, below);
    }
    NoPairs(h, valid[|valid|..], proofs);
  }

  /** Two trusted and authentic observations of one size with different roots. */
  ghost predicate Forked<W(!new), T(!new)>(observations: seq<Observation<W, T>>, trusted: set<W>, i: nat, j: nat)
    requires i < |observations| && j < |observations|
  {
    var a, b := observations[i], observations[j];
    a.who in trusted && a.authentic && b.who in trusted && b.authentic
    && a.head.size == b.head.size && a.head.root != b.head.root
  }

  function ForkOf<W, T>(a: Observation<W, T>, b: Observation<W, T>): Finding<W, T> {
    ExactSizeFork(a.head.size, a.who, b.who, a.head.root, b.head.root)
  }

  /** gossipReconcile. */
  method Reconcile<W(==,!new), T(==,!new)>(
    h: Combine<T>, observations: seq<Observation<W, T>>, trusted: set<W>, proofs: Proofs<T>)
    returns (r: Report<W, T>)
    ensures var valid := Counted(observations, trusted);
            r.counted == |valid|
            && r.skipped == Skipped(observations, trusted)
            && Lists(h, valid, proofs, r.equivocations, r.unresolved)
            && r.consistent == Resolved(h, valid, proofs)
            && r.agreedHead.Some? == (r.consistent && valid != [])
            && (r.agreedHead.Some? ==> IsLargest(valid, r.agreedHead.value))
    ensures forall i, j :: 0 <= i < j < |observations| && Forked(observations, trusted, i, j) ==>
              !r.consistent && ForkOf(observations[i], observations[j]) in r.equivocations
  {
    hide Lists, Resolved, Counted, Skipped;
    var valid, skipped := CountValid(observations, trusted);
    var equivocations, unresolved := JudgePairs(h, valid, proofs);
    EmptyListsResolve(h, valid, proofs, equivocations, unresolved);
    forall i, j | 0 <= i < j < |observations| && Forked(observations, trusted, i, j)
      ensures !Resolved(h, valid, proofs) && ForkOf(observations[i], observations[j]) in equivocations
    {
      ForkIsReported(h, observations, trusted, proofs, i, j, equivocations, unresolved);
    }
    var fullyResolved := |equivocations| == 0 && |unresolved| == 0;
    var agreedHead := None;
    if fullyResolved && |valid| > 0 {
      var top := Largest(valid);
      agreedHead := Some(top);
    }
    r := Report(fullyResolved, equivocations, unresolved, |valid|, skipped, agreedHead);
  }

  method Largest<W(!new), T(!new)>(valid: seq<Seen<W, T>>) returns (top: Head<T>)
    requires valid != []
    ensures IsLargest(valid, top)
  {
    top := valid[0].head;
    for i := 1 to |valid|
      invariant exists j :: 0 <= j < i && valid[j].head == top
      invariant forall j :: 0 <= j < i ==> valid[j].head.size <= top.size
    {
      if valid[i].head.size > top.size {
        top := valid[i].head;
      }
    }
  }

  lemma RowBegins<W, T>(h: Combine<T>, valid: seq<Seen<W, T>>, proofs: Proofs<T>, i: nat)
    requires i < |valid|
    ensures AllPairs(h, valid[i..], proofs)
            == Row(h, valid[i], valid[i + 1..], proofs) + AllPairs(h, valid[i + 1..], proofs)
  {
    assert valid[i..][1..] == valid[i + 1..];
  }

  lemma RowStep<W, T>(h: Combine<T>, valid: seq<Seen<W, T>>, proofs: Proofs<T>, i: nat, j: nat, below: seq<Judgement<W, T>>)
    requires i < j < |valid|
    ensures var v := Judge(h, valid[i], valid[j], proofs);
            var rest := Row(h, valid[i], valid[j + 1..], proofs) + below;
            Conflicts(Row(h, valid[i], valid[j..], proofs) + below)
            == (if v.Conflict? then [v.finding] else []) + Conflicts(rest)
            && Gaps(Row(h, valid[i], valid[j..], proofs) + below)
               == (if v.Open? then [v.gap] else []) + Gaps(rest)
  {
    hide Judge;
    var v := Judge(h, valid[i], valid[j], proofs);
    var rest := Row(h, valid[i], valid[j + 1..], proofs) + below;
    assert valid[j..][1..] == valid[j + 1..];
    assert Row(h, valid[i], valid[j..], proofs) + below == [v] + rest;
    assert ([v] + rest)[1..] == rest;
  }

  lemma RowEnds<W, T>(h: Combine<T>, a: Seen<W, T>, others: seq<Seen<W, T>>, proofs: Proofs<T>, below: seq<Judgement<W, T>>)
    requires others == []
    ensures Row(h, a, others, proofs) + below == below
  {
  }

  lemma NoPairs<W, T>(h: Combine<T>, valid: seq<Seen<W, T>>, proofs: Proofs<T>)
    requires valid == []
    ensures Conflicts(AllPairs(h, valid, proofs)) == [] && Gaps(AllPairs(h, valid, proofs)) == []
  {
  }

  lemma {:induction false} RowAt<W, T>(h: Combine<T>, a: Seen<W, T>, others: seq<Seen<W, T>>, proofs: Proofs<T>)
    ensures |Row(h, a, others, proofs)| == |others|
    ensures forall k :: 0 <= k < |others| ==> Row(h, a, others, proofs)[k] == Judge(h, a, others[k], proofs)
  {
    if others == [] {
    } else {
      RowAt(h, a, others[1..], proofs);
      forall k | 1 <= k < |others|
        ensures Row(h, a, others, proofs)[k] == Judge(h, a, others[k], proofs)
      {
        assert others[k] == others[1..][k - 1];
      }
    }
  }

  /** The position of the pair (i, j) among the pairs of n observations. */
  function Rank(n: nat, i: nat, j: nat): (r: nat)
    requires i < j < n
  {
    if i == 0 then j - 1 else n - 1 + Rank(n - 1, i - 1, j - 1)
  }

  /** Positions follow the loops: first by i, then by j. */
  lemma {:induction false} RankIsLexicographic(n: nat, i: nat, j: nat, i': nat, j': nat)
    requires i < j < n && i' < j' < n
    ensures Rank(n, i, j) < Rank(n, i', j') <==> i < i' || (i == i' && j < j')
    decreases i
  {
    if i > 0 && i' > 0 {
      RankIsLexicographic(n - 1, i - 1, j - 1, i' - 1, j' - 1);
    }
  }

  /** Each pair is judged at its position, and there are no other judgements. */
  lemma {:induction false} PairAt<W, T>(h: Combine<T>, valid: seq<Seen<W, T>>, proofs: Proofs<T>, i: nat, j: nat)
    requires i < j < |valid|
    ensures var r := Rank(|valid|, i, j);
            r < |AllPairs(h, valid, proofs)| && AllPairs(h, valid, proofs)[r] == Judge(h, valid[i], valid[j], proofs)
    decreases i
  {
    hide Judge, Row;
    var others := valid[1..];
    RowAt(h, valid[0], others, proofs);
    if i > 0 {
      PairAt(h, others, proofs, i - 1, j - 1);
      assert others[i - 1] == valid[i] && others[j - 1] == valid[j];
    } else {
      assert others[j - 1] == valid[j];
    }
  }

  lemma {:induction false} PairOf<W, T>(h: Combine<T>, valid: seq<Seen<W, T>>, proofs: Proofs<T>, r: nat)
    returns (i: nat, j: nat)
    requires r < |AllPairs(h, valid, proofs)|
    ensures i < j < |valid| && r == Rank(|valid|, i, j)
    decreases |valid|
  {
    hide Judge, Row;
    var others := valid[1..];
    RowAt(h, valid[0], others, proofs);
    if r < |others| {
      i, j := 0, r + 1;
    } else {
      i, j := PairOf(h, others, proofs, r - |others|);
      i, j := i + 1, j + 1;
    }
  }

  lemma AllPairsJudged<W(!new), T(!new)>(h: Combine<T>, valid: seq<Seen<W, T>>, proofs: Proofs<T>)
    ensures forall v :: v in AllPairs(h, valid, proofs)
                        <==> exists i, j :: 0 <= i < j < |valid| && v == Judge(h, valid[i], valid[j], proofs)
  {
    hide Judge, AllPairs, Rank;
    var all := AllPairs(h, valid, proofs);
    forall v | v in all
      ensures exists i, j :: 0 <= i < j < |valid| && v == Judge(h, valid[i], valid[j], proofs)
    {
      var r :| 0 <= r < |all| && all[r] == v;
      var i, j := PairOf(h, valid, proofs, r);
      PairAt(h, valid, proofs, i, j);
    }
    forall i, j | 0 <= i < j < |valid|
      ensures Judge(h, valid[i], valid[j], proofs) in all
    {
      PairAt(h, valid, proofs, i, j);
    }
  }

  lemma {:induction false} ListedIff<W(!new), T(!new)>(js: seq<Judgement<W, T>>)
    ensures forall f :: f in Conflicts(js) <==> Conflict(f) in js
    ensures forall g :: g in Gaps(js) <==> Open(g) in js
  {
    if js == [] {
    } else {
      ListedIff(js[1..]);
      assert forall v :: v in js <==> v == js[0] || v in js[1..];
    }
  }

  /** Hence what is on the lists. */
  lemma OnTheLists<W(!new), T(!new)>(
    h: Combine<T>, valid: seq<Seen<W, T>>, proofs: Proofs<T>, e: seq<Finding<W, T>>, u: seq<Gap<W>>)
    requires Lists(h, valid, proofs, e, u)
    ensures forall i, j :: 0 <= i < j < |valid| && Judge(h, valid[i], valid[j], proofs).Conflict? ==>
              Judge(h, valid[i], valid[j], proofs).finding in e
    ensures forall i, j :: 0 <= i < j < |valid| && Judge(h, valid[i], valid[j], proofs).Open? ==>
              Judge(h, valid[i], valid[j], proofs).gap in u
    ensures forall f :: f in e ==> exists i, j :: 0 <= i < j < |valid| && Judge(h, valid[i], valid[j], proofs) == Conflict(f)
    ensures forall g :: g in u ==> exists i, j :: 0 <= i < j < |valid| && Judge(h, valid[i], valid[j], proofs) == Open(g)
  {
    hide Judge, AllPairs, Conflicts, Gaps;
    AllPairsJudged(h, valid, proofs);
    ListedIff(AllPairs(h, valid, proofs));
  }

  lemma EmptyListsResolve<W(!new), T(!new)>(
    h: Combine<T>, valid: seq<Seen<W, T>>, proofs: Proofs<T>, e: seq<Finding<W, T>>, u: seq<Gap<W>>)
    requires Lists(h, valid, proofs, e, u)
    ensures e == [] && u == [] <==> Resolved(h, valid, proofs)
  {
    hide Judge, Lists;
    OnTheLists(h, valid, proofs, e, u);
    if e != [] {
      assert e[0] in e;
    }
    if u != [] {
      assert u[0] in u;
    }
  }

  // ----- what the verdicts mean -----

  /** With nothing counted the verdict is consistent, whatever was observed. */
  lemma NothingCountedIsConsistent<W(!new), T(!new)>(
    h: Combine<T>, observations: seq<Observation<W, T>>, trusted: set<W>, proofs: Proofs<T>)
    ensures Counted(observations, trusted) == [] <==> forall o :: o in observations ==> o.who !in trusted || !o.authentic
    ensures Counted(observations, trusted) == [] ==> Resolved(h, Counted(observations, trusted), proofs)
  {
    hide Counted, Judge;
    var at := CountedExactly(observations, trusted);
    if at == [] {
      forall o | o in observations
        ensures o.who !in trusted || !o.authentic
      {
        var i :| 0 <= i < |observations| && observations[i] == o;
        assert i !in CountingAt(observations, trusted);
      }
    } else {
      assert at[0] in CountingAt(observations, trusted);
      assert observations[at[0]] in observations;
    }
  }

  /** Soundness: a consistent verdict whose largest head is the head of D makes every
      counted observation the head of a prefix of D. */
  lemma ConsistentMeansPrefixes<W(!new), T(!new)>(
    h: Combine<T>, valid: seq<Seen<W, T>>, proofs: Proofs<T>, d: seq<T>)
    requires Injective(h)
    requires Resolved(h, valid, proofs)
    requires d != [] && IsLargest(valid, Head(|d|, Mth(h, d)))
    ensures forall i :: 0 <= i < |valid| ==> IsPrefixHead(h, valid[i].head, d)
  {
    hide Checks, Injective, Proof;
    assert d[..|d|] == d;
    var top := Head(|d|, Mth(h, d));
    var t :| 0 <= t < |valid| && valid[t].head == top;
    forall i | 0 <= i < |valid|
      ensures IsPrefixHead(h, valid[i].head, d)
    {
      var head := valid[i].head;
      if i != t {
        var a, b := if i < t then i else t, if i < t then t else i;
        assert Judge(h, valid[a], valid[b], proofs).Agree?;
        if head.size < |d| {
          StepBack(h, head, top, proofs[(head.size, |d|)], d);
        }
      }
    }
  }

  /** The proof a pair of sizes needs. */
  ghost predicate HasProof<T(!new)>(h: Combine<T>, m: int, n: int, d: seq<T>, proofs: Proofs<T>) {
    1 <= m < n <= |d| && n <= MAX_TREE_SIZE && (m, n) in proofs && proofs[(m, n)] == Proof(h, m, d[..n])
  }

  /** How a pair of honest heads is judged, in full. */
  lemma JudgeHonestPair<W(!new), T(!new)>(
    h: Combine<T>, empty: T, a: Seen<W, T>, b: Seen<W, T>, proofs: Proofs<T>, d: seq<T>)
    requires Injective(h)
    requires IsHonestHead(h, empty, a.head, d) && IsHonestHead(h, empty, b.head, d)
    ensures var m, n := if a.head.size < b.head.size then a.head.size else b.head.size,
                        if a.head.size < b.head.size then b.head.size else a.head.size;
            var v := Judge(h, a, b, proofs);
            (v.Agree? <==> m == n || HasProof(h, m, n, d, proofs))
            && (v.Open? <==> m != n && (m, n) !in proofs)
  {
    hide Checks, Injective, Proof;
    var sm, lg := if a.head.size < b.head.size then a.head else b.head,
                  if a.head.size < b.head.size then b.head else a.head;
    if sm.size != lg.size && (sm.size, lg.size) in proofs {
      StepBack(h, sm, lg, proofs[(sm.size, lg.size)], d);
    }
  }

  /** Completeness, exactly: observations of one honest log are reported consistent if and
      only if every pair of different sizes is non-empty and comes with its RFC 6962 proof. */
  lemma HonestConsistentIff<W(!new), T(!new)>(
    h: Combine<T>, empty: T, valid: seq<Seen<W, T>>, proofs: Proofs<T>, d: seq<T>)
    requires Injective(h)
    requires forall i :: 0 <= i < |valid| ==> IsHonestHead(h, empty, valid[i].head, d)
    ensures Resolved(h, valid, proofs)
            <==> forall i, j :: 0 <= i < |valid| && 0 <= j < |valid| && valid[i].head.size < valid[j].head.size ==>
                   HasProof(h, valid[i].head.size, valid[j].head.size, d, proofs)
  {
    hide Judge, Injective, HasProof, IsHonestHead;
    forall i, j | 0 <= i < j < |valid|
      ensures var m, n := if valid[i].head.size < valid[j].head.size then valid[i].head.size else valid[j].head.size,
                          if valid[i].head.size < valid[j].head.size then valid[j].head.size else valid[i].head.size;
              Judge(h, valid[i], valid[j], proofs).Agree? <==> m == n || HasProof(h, m, n, d, proofs)
    {
      JudgeHonestPair(h, empty, valid[i], valid[j], proofs, d);
    }
  }

  /** An equivocation verdict is not by itself evidence against the log. On observations
      of one honest log it appears exactly when some supplied proof is not the RFC 6962
      proof for its sizes, when one of those sizes is zero, or above the 32-bit guard. */
  lemma HonestEquivocationIff<W(!new), T(!new)>(
    h: Combine<T>, empty: T, valid: seq<Seen<W, T>>, proofs: Proofs<T>, d: seq<T>,
    equivocations: seq<Finding<W, T>>, unresolved: seq<Gap<W>>)
    requires Injective(h)
    requires forall i :: 0 <= i < |valid| ==> IsHonestHead(h, empty, valid[i].head, d)
    requires Lists(h, valid, proofs, equivocations, unresolved)
    ensures equivocations != []
            <==> exists i, j :: 0 <= i < |valid| && 0 <= j < |valid|
                   && valid[i].head.size < valid[j].head.size
                   && (valid[i].head.size, valid[j].head.size) in proofs
                   && !HasProof(h, valid[i].head.size, valid[j].head.size, d, proofs)
  {
    hide Judge, Injective, HasProof, IsHonestHead, Lists;
    forall i, j | 0 <= i < |valid| && 0 <= j < |valid| && valid[i].head.size <= valid[j].head.size
      ensures var m, n := valid[i].head.size, valid[j].head.size;
              Judge(h, valid[i], valid[j], proofs).Conflict? == Judge(h, valid[j], valid[i], proofs).Conflict?
              && (Judge(h, valid[i], valid[j], proofs).Conflict?
                  <==> m != n && (m, n) in proofs && !HasProof(h, m, n, d, proofs))
    {
      JudgeHonestPair(h, empty, valid[i], valid[j], proofs, d);
      JudgeHonestPair(h, empty, valid[j], valid[i], proofs, d);
    }
    OnTheLists(h, valid, proofs, equivocations, unresolved);
    if equivocations != [] {
      var f := equivocations[0];
      assert f in equivocations;
      var i, j :| 0 <= i < j < |valid| && Judge(h, valid[i], valid[j], proofs) == Conflict(f);
    }
    if i, j :| 0 <= i < j < |valid| && Judge(h, valid[i], valid[j], proofs).Conflict? {
      assert Judge(h, valid[i], valid[j], proofs).finding in equivocations;
    }
  }

  /** An honest two-leaf log, framed by an empty proof from size 1 to size 2. */
  lemma HonestLogFramed()
    ensures var a, b := Leaf(1), Leaf(2);
            var small, large := Seen(0, Head(1, a)), Seen(1, Head(2, Pair(a, b)));
            IsPrefixHead(FREE, small.head, [a, b]) && IsPrefixHead(FREE, large.head, [a, b])
            && Judge(FREE, small, large, map[(1, 2) := []]) == Conflict(PrefixViolation(1, 2, 0, 1))
  {
  }

  /** End to end: a fork among the observations is reported, whatever else was observed. */
  lemma ForkIsReported<W(!new), T(!new)>(
    h: Combine<T>, observations: seq<Observation<W, T>>, trusted: set<W>, proofs: Proofs<T>, i: nat, j: nat,
    equivocations: seq<Finding<W, T>>, unresolved: seq<Gap<W>>)
    requires Lists(h, Counted(observations, trusted), proofs, equivocations, unresolved)
    requires i < j < |observations| && Forked(observations, trusted, i, j)
    ensures !Resolved(h, Counted(observations, trusted), proofs)
    ensures ForkOf(observations[i], observations[j]) in equivocations
  {
    hide Counted, Lists;
    var k, l := BothCounted(observations, trusted, i, j);
    ForkAlwaysListed(h, Counted(observations, trusted), proofs, k, l, equivocations, unresolved);
    assert Judge(h, Counted(observations, trusted)[k], Counted(observations, trusted)[l], proofs).Conflict?;
  }

  /** End to end: under a consistent verdict with largest head MTH(D), every trusted and
      authentic observation is of a prefix of D. */
  lemma ConsistentObservations<W(!new), T(!new)>(
    h: Combine<T>, observations: seq<Observation<W, T>>, trusted: set<W>, proofs: Proofs<T>, d: seq<T>, o: Observation<W, T>)
    requires Injective(h)
    requires Resolved(h, Counted(observations, trusted), proofs)
    requires d != [] && IsLargest(Counted(observations, trusted), Head(|d|, Mth(h, d)))
    requires o in observations && o.who in trusted && o.authentic
    ensures IsPrefixHead(h, o.head, d)
  {
    hide Injective, Resolved, IsLargest, Counted, IsPrefixHead;
    ConsistentMeansPrefixes(h, Counted(observations, trusted), proofs, d);
    var at := CountedExactly(observations, trusted);
    var i :| 0 <= i < |observations| && observations[i] == o;
    assert i in CountingAt(observations, trusted);
    var k :| 0 <= k < |at| && at[k] == i;
  }

  /** A pair of different sizes, in either order: the finding or the gap names the smaller
      head first, and a gap's two sizes are the proof to fetch. */
  lemma JudgeNamesSmallerFirst<W(!new), T(!new)>(h: Combine<T>, a: Seen<W, T>, b: Seen<W, T>, proofs: Proofs<T>)
    requires a.head.size < b.head.size
    ensures Judge(h, a, b, proofs) == Judge(h, b, a, proofs)
    ensures var m, n, v := a.head.size, b.head.size, Judge(h, a, b, proofs);
            if (m, n) !in proofs then v == Open(Gap(m, n, a.who, b.who))
            else if n <= MAX_TREE_SIZE && Checks(h, m, n, a.head.root, b.head.root, proofs[(m, n)]) then v == Agree
            else v == Conflict(PrefixViolation(m, n, a.who, b.who))
  {
  }

  /** Detection: two counted heads of one size with different roots are always listed. */
  lemma ForkAlwaysListed<W(!new), T(!new)>(
    h: Combine<T>, valid: seq<Seen<W, T>>, proofs: Proofs<T>, i: nat, j: nat,
    equivocations: seq<Finding<W, T>>, unresolved: seq<Gap<W>>)
    requires Lists(h, valid, proofs, equivocations, unresolved)
    requires i < j < |valid| && valid[i].head.size == valid[j].head.size && valid[i].head.root != valid[j].head.root
    ensures ExactSizeFork(valid[i].head.size, valid[i].who, valid[j].who, valid[i].head.root, valid[j].head.root)
            in equivocations
  {
    OnTheLists(h, valid, proofs, equivocations, unresolved);
    assert Judge(h, valid[i], valid[j], proofs).Conflict?;
  }
}
