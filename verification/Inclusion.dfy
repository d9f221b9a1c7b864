/** Inclusion proofs: the prover of pqsign.mjs, the audit path of section 2.1.1 of
    RFC 6962, and the fn/sn walk of section 2.1.3.2 of RFC 9162 that checks a path. */
module InclusionProof {
  import opened Hashing
  import opened MerkleTree

  /** Above this many leaves the verifiers refuse: their index arithmetic is 32 bits wide. */
  const MAX_TREE_SIZE: nat := 0xFFFF_FFFF

  // ----- the prover -----

  datatype Step<+T> = Step(sibling: T, right: bool)

  /** The sibling of node i on its level, absent for a lone right node; right says
      that the running hash is the left input. */
  function SiblingStep<T>(level: seq<T>, i: nat): seq<Step<T>>
    requires i < |level|
  {
    if i % 2 == 1 then [Step(level[i - 1], false)]
    else if i + 1 < |level| then [Step(level[i + 1], true)]
    else []
  }

  /** Siblings with their sides from the leaf to the root, level by level. */
  ghost function Steps<T>(h: Combine<T>, level: seq<T>, i: nat): seq<Step<T>>
    requires i < |level|
    decreases |level|
  {
    if |level| == 1 then [] else SiblingStep(level, i) + Steps(h, Next(h, level), i / 2)
  }

  function Siblings<T>(steps: seq<Step<T>>): (path: seq<T>)
    ensures |path| == |steps|
  {
    seq(|steps|, j requires 0 <= j < |steps| => steps[j].sibling)
  }

  function Sibling<T>(level: seq<T>, i: nat): seq<T>
    requires i < |level|
  {
    if i % 2 == 1 then [level[i - 1]] else if i + 1 < |level| then [level[i + 1]] else []
  }

  /** The bare siblings, as a verifier receives them. */
  ghost function Path<T>(h: Combine<T>, level: seq<T>, i: nat): seq<T>
    requires i < |level|
    decreases |level|
  {
    if |level| == 1 then [] else Sibling(level, i) + Path(h, Next(h, level), i / 2)
  }

  lemma {:induction false} PathIsSiblings<T>(h: Combine<T>, level: seq<T>, i: nat)
    requires i < |level|
    ensures Siblings(Steps(h, level, i)) == Path(h, level, i)
    decreases |level|
  {
    if |level| <= 1 {
    } else {
      PathIsSiblings(h, Next(h, level), i / 2);
    }
  }

  lemma StepsClimb<T>(h: Combine<T>, proof: seq<Step<T>>, level: seq<T>, i: nat)
    requires i < |level| && |level| > 1
    ensures proof + Steps(h, level, i) == (proof + SiblingStep(level, i)) + Steps(h, Next(h, level), i / 2)
  {
    Assoc(proof, SiblingStep(level, i), Steps(h, Next(h, level), i / 2));
  }

  /** inclusionProof: climbs the levels, collecting one sibling where there is one. */
  method ProveInclusion<T>(h: Combine<T>, leaves: seq<T>, index: nat) returns (proof: seq<Step<T>>)
    requires index < |leaves|
    ensures proof == Steps(h, leaves, index)
  {
    proof := [];
    var idx: nat, level := index, leaves;
    while |level| > 1
      invariant idx < |level|
      invariant proof + Steps(h, level, idx) == Steps(h, leaves, index)
      decreases |level|
    {
      StepsClimb(h, proof, level, idx);
      ghost var before := proof;
      var pairStart := idx - idx % 2;
      assert idx % 2 == 1 ==> pairStart + 1 == idx;
      if pairStart + 1 < |level| {
        proof := proof + [Step(level[if idx % 2 == 0 then idx + 1 else idx - 1], idx % 2 == 0)];
      }
      assert proof == before + SiblingStep(level, idx);
      level := BuildLevel(h, level);
      idx := idx / 2;
    }
  }

  /** PATH(m, D) of RFC 6962, by the top-down split. */
  function AuditPath<T>(h: Combine<T>, leaves: seq<T>, i: nat): (path: seq<T>)
    requires i < |leaves|
  {
    if |leaves| == 1 then []
    else
      var k := Split(|leaves|);
      if i < k then AuditPath(h, leaves[..k], i) + [Mth(h, leaves[k..])]
      else AuditPath(h, leaves[k..], i - k) + [Mth(h, leaves[..k])]
  }

  lemma SiblingJoins<T>(a: seq<T>, b: seq<T>, i: nat)
    requires |a| % 2 == 0 && i < |a| + |b|
    ensures Sibling(a + b, i) == if i < |a| then Sibling(a, i) else Sibling(b, i - |a|)
  {
    assert i >= |a| ==> (i - |a|) % 2 == i % 2;
  }

  lemma PathClimbs<T>(h: Combine<T>, level: seq<T>, i: nat)
    requires i < |level|
    ensures Path(h, level, i) == Sibling(level, i) + Path(h, Next(h, level), i / 2)
  {
  }

  lemma PathOfTwo<T>(h: Combine<T>, x: T, y: T)
    ensures Path(h, [x, y], 0) == [y] && Path(h, [x, y], 1) == [x]
    ensures Path(h, [x], 0) == [] && Root(h, [x]) == x
  {
    NextSmall(h, x, y);
    assert Path(h, [h(x, y)], 0) == [];
  }

  /** In a full subtree joined with a tree no larger than itself, a path is the path in
      its own half followed by the root of the other half. */
  lemma {:induction false} PathJoins<T>(h: Combine<T>, a: seq<T>, b: seq<T>, i: nat)
    requires IsPow2(|a|) && 0 < |b| <= |a| && i < |a| + |b|
    ensures Path(h, a + b, i)
            == if i < |a| then Path(h, a, i) + [Root(h, b)] else Path(h, b, i - |a|) + [Root(h, a)]
    decreases |a|
  {
    hide Next, Path, Root;
    PathClimbs(h, a + b, i);
    if |a| == 1 {
      PathOfTwo(h, a[0], b[0]);
      PathOfTwo(h, b[0], a[0]);
      assert a == [a[0]] && b == [b[0]] && a + b == [a[0], b[0]];
    } else {
      NextJoins(h, a, b);
      SiblingJoins(a, b, i);
      PathJoins(h, Next(h, a), Next(h, b), i / 2);
      if i < |a| {
        PathClimbs(h, a, i);
        RootOfNext(h, b);
        Assoc(Sibling(a, i), Path(h, Next(h, a), i / 2), [Root(h, b)]);
      } else {
        assert (i - |a|) / 2 == i / 2 - |a| / 2;
        PathClimbs(h, b, i - |a|);
        RootOfNext(h, a);
        Assoc(Sibling(b, i - |a|), Path(h, Next(h, b), (i - |a|) / 2), [Root(h, a)]);
      }
    }
  }

  /** The prover emits exactly the audit path of RFC 6962. */
  lemma {:induction false} PathIsAuditPath<T>(h: Combine<T>, leaves: seq<T>, i: nat)
    requires i < |leaves|
    ensures Path(h, leaves, i) == AuditPath(h, leaves, i)
    decreases |leaves|
  {
    if |leaves| <= 1 {
    } else {
      var k := Split(|leaves|);
      Halves(leaves);
      PathJoins(h, leaves[..k], leaves[k..], i);
      RootIsMth(h, leaves[..k]);
      RootIsMth(h, leaves[k..]);
      if i < k {
        PathIsAuditPath(h, leaves[..k], i);
      } else {
        PathIsAuditPath(h, leaves[k..], i - k);
      }
    }
  }

  // ----- the fn/sn walk -----

  /** The rightmost-node rule: shift both indices until fn is odd or zero. */
  function SkipEven(fn: nat, sn: nat): (nat, nat) {
    if fn % 2 == 0 && fn != 0 then SkipEven(fn / 2, sn / 2) else (fn, sn)
  }

  /** The hash the walk computes from r along the path; None where the indices reject. */
  function Walk<T>(h: Combine<T>, fn: nat, sn: nat, r: T, path: seq<T>): Option<T>
    decreases |path|
  {
    if path == [] then (if sn == 0 then Some(r) else None)
    else if sn == 0 then None
    else if fn % 2 == 1 || fn == sn then
      var (f, s) := SkipEven(fn, sn);
      Walk(h, f / 2, s / 2, h(path[0], r), path[1..])
    else Walk(h, fn / 2, sn / 2, h(r, path[0]), path[1..])
  }

  /** The verdict of verifyInclusionRFC. */
  ghost predicate Accepts<T(!new)>(h: Combine<T>, leaf: T, index: int, treeSize: int, path: seq<T>, root: T) {
    0 <= index < treeSize <= MAX_TREE_SIZE && Walk(h, index, treeSize - 1, leaf, path) == Some(root)
  }

  method VerifyInclusion<T(==,!new)>(h: Combine<T>, leaf: T, index: int, treeSize: int, path: seq<T>, root: T)
    returns (ok: bool)
    ensures ok == Accepts(h, leaf, index, treeSize, path, root)
    ensures ok ==> 0 <= index < treeSize <= MAX_TREE_SIZE
  {
    if !(index >= 0 && index < treeSize) {
      return false;
    }
    if treeSize > 0xFFFF_FFFF {
      return false;
    }
    var fn, sn, r := index, treeSize - 1, leaf;
    ghost var outcome := Walk(h, fn, sn, r, path);
    for i := 0 to |path|
      invariant fn >= 0 && sn >= 0
      invariant Walk(h, fn, sn, r, path[i..]) == outcome
    {
      var p := path[i];
      assert path[i..][1..] == path[i + 1..];
      if sn == 0 {
        return false;
      }
      if fn % 2 == 1 || fn == sn {
        r := h(p, r);
        ghost var stop := SkipEven(fn, sn);
        while fn % 2 == 0 && fn != 0
          invariant fn >= 0 && sn >= 0
          invariant SkipEven(fn, sn) == stop
        {
          fn, sn := fn / 2, sn / 2;
        }
      } else {
        r := h(r, p);
      }
      fn, sn := fn / 2, sn / 2;
    }
    ok := sn == 0 && r == root;
  }

  /** A lone right node hashes with nothing on its own level: the walk from it is the
      walk from its promotion. */
  lemma WalkPromotes<T>(h: Combine<T>, n: nat, r: T, path: seq<T>)
    requires n > 0 && n % 2 == 0
    ensures Walk(h, n, n, r, path) == Walk(h, n / 2, n / 2, r, path)
  {
  }

  /** One step of the walk, from a node that has a sibling, is one level up. */
  lemma StepBinds<T(!new)>(h: Combine<T>, level: seq<T>, fn: nat, r: T, p: T)
    requires Injective(h)
    requires fn < |level| && Sibling(level, fn) != []
    ensures (if fn % 2 == 1 then h(p, r) else h(r, p)) == Next(h, level)[fn / 2]
            <==> r == level[fn] && p == Sibling(level, fn)[0]
  {
    var i := fn / 2;
    NextAt(h, level, i);
    if fn % 2 == 1 {
      assert fn == 2 * i + 1;
      Cancel(h, p, r, level[2 * i], level[fn]);
    } else {
      assert fn == 2 * i;
      Cancel(h, r, p, level[fn], level[2 * i + 1]);
    }
  }

  lemma WalkSteps<T>(h: Combine<T>, fn: nat, sn: nat, r: T, path: seq<T>)
    requires fn <= sn != 0 && (fn % 2 == 1 || fn < sn)
    ensures path == [] ==> Walk(h, fn, sn, r, path) == None
    ensures path != [] ==>
              Walk(h, fn, sn, r, path)
              == Walk(h, fn / 2, sn / 2, if fn % 2 == 1 then h(path[0], r) else h(r, path[0]), path[1..])
  {
  }

  /** Master lemma of the walk: from node fn of a level it reaches the level's root
      exactly on that node and its siblings. */
  lemma {:induction false} WalkBinds<T(!new)>(h: Combine<T>, level: seq<T>, fn: nat, r: T, path: seq<T>)
    requires Injective(h)
    requires fn < |level|
    ensures Walk(h, fn, |level| - 1, r, path) == Some(Root(h, level))
            <==> r == level[fn] && path == Path(h, level, fn)
    decreases |level|
  {
    if |level| <= 1 {
    } else {
      hide Next, Walk, Injective;
      var sn := |level| - 1;
      var up := Next(h, level);
      assert sn / 2 == |up| - 1;
      if Sibling(level, fn) == [] {
        NextAt(h, level, fn / 2);
        WalkPromotes(h, fn, r, path);
        WalkBinds(h, up, fn / 2, r, path);
      } else {
        WalkSteps(h, fn, sn, r, path);
        if path != [] {
          WalkBinds(h, up, fn / 2, if fn % 2 == 1 then h(path[0], r) else h(r, path[0]), path[1..]);
          StepBinds(h, level, fn, r, path[0]);
          assert path == [path[0]] + path[1..];
        }
      }
    }
  }

  /** Inclusion, at every size: against the head of D the verifier accepts exactly the
      leaf D[index] with its RFC 6962 audit path. Soundness, completeness and the
      uniqueness of the proof are the three parts of one equivalence. */
  lemma {:induction false} InclusionIffAuditPath<T(!new)>(h: Combine<T>, d: seq<T>, leaf: T, index: int, path: seq<T>)
    requires Injective(h)
    requires d != []
    ensures Accepts(h, leaf, index, |d|, path, Mth(h, d))
            <==> 0 <= index < |d| <= MAX_TREE_SIZE && leaf == d[index] && path == AuditPath(h, d, index)
  {
    if 0 <= index < |d| {
      RootIsMth(h, d);
      PathIsAuditPath(h, d, index);
      WalkBinds(h, d, index, leaf, path);
    }
  }

  // ----- proof length -----

  /** The number of path nodes the walk consumes from node fn with last node sn. */
  function PathLen(fn: nat, sn: nat): nat {
    if sn == 0 then 0
    else (if fn % 2 == 1 || fn < sn then 1 else 0) + PathLen(fn / 2, sn / 2)
  }

  lemma {:induction false} SkipEvenLen(n: nat)
    requires n > 0
    ensures var (f, s) := SkipEven(n, n);
            f == s && f % 2 == 1 && PathLen(n, n) == 1 + PathLen(f / 2, s / 2)
  {
    if n % 2 == 0 {
      SkipEvenLen(n / 2);
    }
  }

  /** One path length passes, whatever the hash function, leaf, path and root are. */
  lemma {:induction false} WalkLength<T>(h: Combine<T>, fn: nat, sn: nat, r: T, path: seq<T>)
    requires fn <= sn
    ensures Walk(h, fn, sn, r, path).Some? <==> |path| == PathLen(fn, sn)
    decreases sn
  {
    if sn == 0 {
    } else {
      if fn == sn {
        SkipEvenLen(fn);
      }
      if path == [] {
        assert PathLen(fn, sn) > 0 by { if fn < sn { } }
      } else if fn % 2 == 1 {
        WalkLength(h, fn / 2, sn / 2, h(path[0], r), path[1..]);
      } else if fn == sn {
        var (f, s) := SkipEven(fn, sn);
        SkipEvenShrinks(fn, sn);
        WalkLength(h, f / 2, s / 2, h(path[0], r), path[1..]);
      } else {
        WalkLength(h, fn / 2, sn / 2, h(r, path[0]), path[1..]);
      }
    }
  }

  lemma SkipEvenShrinks(fn: nat, sn: nat)
    ensures SkipEven(fn, sn).0 <= fn && SkipEven(fn, sn).1 <= sn
  {
  }

  function CeilLog2(n: nat): nat
    requires n >= 1
  {
    if n == 1 then 0 else 1 + CeilLog2((n + 1) / 2)
  }

  function Exp2(k: nat): nat {
    if k == 0 then 1 else 2 * Exp2(k - 1)
  }

  lemma {:induction false} Exp2OfCeilLog2(n: nat)
    requires n >= 1
    ensures IsPow2(Exp2(CeilLog2(n))) && n <= Exp2(CeilLog2(n))
  {
    if n == 1 {
      assert Exp2(CeilLog2(n)) == 1;
    } else {
      Exp2OfCeilLog2((n + 1) / 2);
      Pow2Doubles(Exp2(CeilLog2((n + 1) / 2)));
    }
  }

  lemma {:induction false} CeilLog2Below(n: nat, p: nat)
    requires 1 <= n <= p && IsPow2(p)
    ensures Exp2(CeilLog2(n)) <= p
  {
    if n == 1 {
      assert Exp2(CeilLog2(n)) == 1;
    } else {
      CeilLog2Below((n + 1) / 2, p / 2);
    }
  }

  /** 2^CeilLog2(n) is the least power of two not below n. */
  lemma CeilLog2IsLeast(n: nat)
    requires n >= 1
    ensures var top := Exp2(CeilLog2(n));
            IsPow2(top) && n <= top && forall p: nat :: IsPow2(p) && n <= p ==> top <= p
  {
    hide IsPow2, CeilLog2, Exp2;
    Exp2OfCeilLog2(n);
    forall p: nat | IsPow2(p) && n <= p
      ensures Exp2(CeilLog2(n)) <= p
    {
      CeilLog2Below(n, p);
    }
  }

  lemma {:induction false} PathLenBound(fn: nat, sn: nat)
    requires fn <= sn
    ensures PathLen(fn, sn) <= CeilLog2(sn + 1)
    decreases sn
  {
    if sn == 0 {
    } else {
      PathLenBound(fn / 2, sn / 2);
      assert (sn + 2) / 2 == sn / 2 + 1;
    }
  }

  lemma {:induction false} PathHasPathLen<T>(h: Combine<T>, level: seq<T>, i: nat)
    requires i < |level|
    ensures |Path(h, level, i)| == PathLen(i, |level| - 1)
    decreases |level|
  {
    if |level| <= 1 {
    } else {
      PathHasPathLen(h, Next(h, level), i / 2);
    }
  }

  /** A path whose length is not that of the audit path is rejected by the indices
      alone, for any hash function; an audit path has at most ceil(log2 n) nodes. */
  lemma InclusionLength<T(!new)>(h: Combine<T>, d: seq<T>, leaf: T, index: nat, path: seq<T>, root: T)
    requires index < |d|
    ensures Accepts(h, leaf, index, |d|, path, root) ==> |path| == |AuditPath(h, d, index)|
    ensures |AuditPath(h, d, index)| <= CeilLog2(|d|)
  {
    hide Next, Path, Root, Walk, PathLen, AuditPath, CeilLog2;
    WalkLength(h, index, |d| - 1, leaf, path);
    PathHasPathLen(h, d, index);
    PathIsAuditPath(h, d, index);
    PathLenBound(index, |d| - 1);
  }

  /** The verifiers' guard is exactly that of unsigned 32-bit sizes. */
  lemma GuardIs32Bits()
    ensures MAX_TREE_SIZE == Exp2(32) - 1
  {
    assert Exp2(4) == 16;
    hide Exp2;
    assert Exp2(8) == 256 by { Exp2Adds(4, 4); }
    assert Exp2(16) == 0x1_0000 by { Exp2Adds(8, 8); }
    assert Exp2(32) == 0x1_0000_0000 by { Exp2Adds(16, 16); }
  }

  lemma {:induction false} Exp2Adds(a: nat, b: nat)
    ensures Exp2(a + b) == Exp2(a) * Exp2(b)
  {
    if a == 0 {
    } else {
      Exp2Adds(a - 1, b);
    }
  }

  /** Every leaf of every tree of fewer than 2^32 leaves has an accepted proof, and no leaf
      of a larger tree has one. */
  lemma ProvableIff32Bits<T(!new)>(h: Combine<T>, d: seq<T>, index: nat)
    requires Injective(h)
    requires index < |d|
    ensures (exists path :: Accepts(h, d[index], index, |d|, path, Mth(h, d))) <==> |d| < Exp2(32)
  {
    hide Accepts, Injective, AuditPath, Exp2, Mth;
    GuardIs32Bits();
    InclusionIffAuditPath(h, d, d[index], index, AuditPath(h, d, index));
    if path :| Accepts(h, d[index], index, |d|, path, Mth(h, d)) {
      InclusionIffAuditPath(h, d, d[index], index, path);
    }
  }

  // ----- the older verifier, which trusts the directions in the proof -----

  function Fold<T>(h: Combine<T>, leaf: T, proof: seq<Step<T>>): T
    decreases |proof|
  {
    if proof == [] then leaf
    else Fold(h, if proof[0].right then h(leaf, proof[0].sibling) else h(proof[0].sibling, leaf), proof[1..])
  }

  method VerifyInclusionUnbound<T(==)>(h: Combine<T>, leaf: T, proof: seq<Step<T>>, root: T) returns (ok: bool)
    ensures ok == (Fold(h, leaf, proof) == root)
  {
    var r := leaf;
    for i := 0 to |proof|
      invariant Fold(h, r, proof[i..]) == Fold(h, leaf, proof)
    {
      assert proof[i..][1..] == proof[i + 1..];
      r := if proof[i].right then h(r, proof[i].sibling) else h(proof[i].sibling, r);
    }
    ok := r == root;
  }

  /** Which side a direction means, on a tree of two leaves. */
  lemma FoldSides<T>(h: Combine<T>, a: T, b: T)
    ensures Fold(h, a, [Step(b, true)]) == Mth(h, [a, b]) == Fold(h, b, [Step(a, false)])
  {
    assert [a, b][..1] == [a] && [a, b][1..] == [b];
    assert [Step(b, true)][1..] == [] && [Step(a, false)][1..] == [];
    assert Fold(h, h(a, b), []) == h(a, b);
  }

  /** Along fixed directions the fold pins the leaf and every sibling. */
  lemma {:induction false} FoldBinds<T(!new)>(h: Combine<T>, a: T, b: T, p: seq<Step<T>>, q: seq<Step<T>>)
    requires Injective(h)
    requires |p| == |q| && forall j :: 0 <= j < |p| ==> p[j].right == q[j].right
    ensures Fold(h, a, p) == Fold(h, b, q) <==> a == b && p == q
    decreases |p|
  {
    if p == [] {
    } else {
      var a' := if p[0].right then h(a, p[0].sibling) else h(p[0].sibling, a);
      var b' := if q[0].right then h(b, q[0].sibling) else h(q[0].sibling, b);
      FoldBinds(h, a', b', p[1..], q[1..]);
      if p[0].right {
        Cancel(h, a, p[0].sibling, b, q[0].sibling);
      } else {
        Cancel(h, p[0].sibling, a, q[0].sibling, b);
      }
      assert p == [p[0]] + p[1..] && q == [q[0]] + q[1..];
    }
  }

  lemma FoldSteps<T>(h: Combine<T>, leaf: T, a: seq<Step<T>>, b: seq<Step<T>>)
    requires |a| <= 1
    ensures Fold(h, leaf, a + b)
            == Fold(h, if a == [] then leaf else if a[0].right then h(leaf, a[0].sibling) else h(a[0].sibling, leaf), b)
  {
    assert (a + b)[|a|..] == b;
  }

  lemma SiblingStepCombines<T>(h: Combine<T>, level: seq<T>, i: nat)
    requires |level| > 1 && i < |level|
    ensures var step := SiblingStep(level, i);
            Next(h, level)[i / 2]
            == if step == [] then level[i] else if step[0].right then h(level[i], step[0].sibling) else h(step[0].sibling, level[i])
  {
    hide Next;
    NextAt(h, level, i / 2);
    assert 2 * (i / 2) == if i % 2 == 1 then i - 1 else i;
  }

  /** The prover's directed steps fold every leaf of a list to its head. */
  lemma {:induction false} FoldAcceptsSteps<T>(h: Combine<T>, level: seq<T>, i: nat)
    requires i < |level|
    ensures Fold(h, level[i], Steps(h, level, i)) == Root(h, level)
    decreases |level|
  {
    if |level| <= 1 {
    } else {
      hide Next, Fold, SiblingStep;
      var up := Next(h, level);
      FoldAcceptsSteps(h, up, i / 2);
      FoldSteps(h, level[i], SiblingStep(level, i), Steps(h, up, i / 2));
      SiblingStepCombines(h, level, i);
    }
  }
}
