/** Consistency proofs: the SUBPROOF recursion of section 2.1.2 of RFC 6962 and the
    fn/sn walk of section 2.1.4.2 of RFC 9162 that folds an old and a new root at once. */
module ConsistencyProof {
  import opened Hashing
  import opened MerkleTree
  import opened InclusionProof

  // ----- the prover -----

  function SubProof<T>(h: Combine<T>, m: nat, d: seq<T>, b: bool): (proof: seq<T>)
    requires 1 <= m <= |d|
    decreases |d|
  {
    if m == |d| then (if b then [] else [Mth(h, d)])
    else
      var k := Split(|d|);
      if m <= k then SubProof(h, m, d[..k], b) + [Mth(h, d[k..])]
      else SubProof(h, m - k, d[k..], false) + [Mth(h, d[..k])]
  }

  function Proof<T>(h: Combine<T>, m: nat, d: seq<T>): seq<T>
    requires 1 <= m <= |d|
  {
    if m == |d| then [] else SubProof(h, m, d, true)
  }

  method ProveSub<T>(h: Combine<T>, empty: T, m: nat, leaves: seq<T>, b: bool) returns (proof: seq<T>)
    requires 1 <= m <= |leaves|
    ensures proof == SubProof(h, m, leaves, b)
    decreases |leaves|
  {
    hide Mth;
    if m == |leaves| {
      if b {
        return [];
      }
      var root := MerkleRoot(h, empty, leaves);
      return [root];
    }
    var k := LargestPow2Below(|leaves|);
    if m <= k {
      var inner := ProveSub(h, empty, m, leaves[..k], b);
      var right := MerkleRoot(h, empty, leaves[k..]);
      return inner + [right];
    }
    var inner := ProveSub(h, empty, m - k, leaves[k..], false);
    var left := MerkleRoot(h, empty, leaves[..k]);
    return inner + [left];
  }

  /** consistencyProof: null outside 1..n. */
  method ProveConsistency<T>(h: Combine<T>, empty: T, leaves: seq<T>, m: int) returns (proof: Option<seq<T>>)
    ensures proof == if 1 <= m <= |leaves| then Some(Proof(h, m, leaves)) else None
  {
    if m < 1 || m > |leaves| {
      return None;
    }
    if m == |leaves| {
      return Some([]);
    }
    var p := ProveSub(h, empty, m, leaves, true);
    proof := Some(p);
  }

  // ----- the power-of-two test -----

  /** Bitwise and of two naturals. */
  function BitAnd(a: nat, b: nat): nat {
    if a == 0 || b == 0 then 0
    else 2 * BitAnd(a / 2, b / 2) + (if a % 2 == 1 && b % 2 == 1 then 1 else 0)
  }

  lemma {:induction false} BitAndSelf(a: nat)
    ensures BitAnd(a, a) == a
  {
    if a == 0 {
    } else {
      BitAndSelf(a / 2);
    }
  }

  /** m & (m - 1) vanishes exactly on the powers of two. */
  lemma {:induction false} BitTrickIsPow2(m: nat)
    requires m >= 1
    ensures BitAnd(m, m - 1) == 0 <==> IsPow2(m)
  {
    if m % 2 == 1 {
      BitAndSelf(m / 2);
      assert (m - 1) / 2 == m / 2;
    } else {
      BitTrickIsPow2(m / 2);
      assert (m - 1) / 2 == m / 2 - 1;
    }
  }

  // ----- the walk -----

  function StripOnes(fn: nat, sn: nat): (nat, nat) {
    if fn % 2 == 1 then StripOnes(fn / 2, sn / 2) else (fn, sn)
  }

  /** The power-of-two branch agrees with the index loop that follows it. */
  lemma {:induction false} Pow2StripsToZero(m: nat, sn: nat)
    requires m >= 1
    ensures StripOnes(m - 1, sn).0 == 0 <==> IsPow2(m)
    decreases m
  {
    if m % 2 == 0 {
      Pow2StripsToZero(m / 2, sn / 2);
      assert (m - 1) / 2 == m / 2 - 1;
    }
  }

  /** The pair (fr, sr) the walk computes along the path; None where the indices reject. */
  function Walk2<T>(h: Combine<T>, fn: nat, sn: nat, fr: T, sr: T, path: seq<T>): Option<(T, T)>
    decreases |path|
  {
    if path == [] then (if sn == 0 then Some((fr, sr)) else None)
    else if sn == 0 then None
    else if fn % 2 == 1 || fn == sn then
      var (f, s) := SkipEven(fn, sn);
      Walk2(h, f / 2, s / 2, h(path[0], fr), h(path[0], sr), path[1..])
    else Walk2(h, fn / 2, sn / 2, fr, h(sr, path[0]), path[1..])
  }

  function FoldPath<T>(m: nat, root1: T, proof: seq<T>): seq<T> {
    if IsPow2(m) then [root1] + proof else proof
  }

  function Folded<T>(h: Combine<T>, m: nat, n: nat, path: seq<T>): Option<(T, T)>
    requires 1 <= m <= n && path != []
  {
    var (fn, sn) := StripOnes(m - 1, n - 1);
    Walk2(h, fn, sn, path[0], path[0], path[1..])
  }

  /** The verdict of verifyConsistency, without the 32-bit size guard. */
  predicate Checks<T(==)>(h: Combine<T>, m: int, n: int, root1: T, root2: T, proof: seq<T>) {
    1 <= m <= n
    && if m == n then proof == [] && root1 == root2
       else
         var path := FoldPath(m, root1, proof);
         path != [] && Folded(h, m, n, path) == Some((root1, root2))
  }

  method VerifyConsistency<T(==)>(h: Combine<T>, m: int, n: int, root1: T, root2: T, proof: seq<T>) returns (ok: bool)
    ensures ok == (n <= MAX_TREE_SIZE && Checks(h, m, n, root1, root2, proof))
    ensures ok ==> 1 <= m <= n <= MAX_TREE_SIZE
    ensures 1 <= m == n <= MAX_TREE_SIZE ==> (ok <==> proof == [] && root1 == root2)
  {
    if m < 1 || m > n {
      return false;
    }
    if n > 0xFFFF_FFFF {
      return false;
    }
    if m == n {
      return |proof| == 0 && root1 == root2;
    }
    var isPow2 := BitAnd(m, m - 1) == 0;
    BitTrickIsPow2(m);
    var path := if isPow2 then [root1] + proof else proof;
    if |path| == 0 {
      return false;
    }
    var fn, sn := m - 1, n - 1;
    while fn % 2 == 1
      invariant fn >= 0 && sn >= 0
      decreases fn
      invariant StripOnes(fn, sn) == StripOnes(m - 1, n - 1)
    {
      fn, sn := fn / 2, sn / 2;
    }
    var fr, sr := path[0], path[0];
    for i := 1 to |path|
      invariant fn >= 0 && sn >= 0
      invariant Walk2(h, fn, sn, fr, sr, path[i..]) == Folded(h, m, n, path)
    {
      var c := path[i];
      assert path[i..][1..] == path[i + 1..];
      if sn == 0 {
        return false;
      }
      if fn % 2 == 1 || fn == sn {
        fr, sr := h(c, fr), h(c, sr);
        ghost var stop := SkipEven(fn, sn);
        while fn % 2 == 0 && fn != 0
          invariant fn >= 0 && sn >= 0
          invariant SkipEven(fn, sn) == stop
        {
          fn, sn := fn / 2, sn / 2;
        }
      } else {
        sr := h(sr, c);
      }
      fn, sn := fn / 2, sn / 2;
    }
    ok := sn == 0 && fr == root1 && sr == root2;
  }

  // ----- what the walk computes -----

  /** The new-root half of the walk is the inclusion walk. */
  lemma {:induction false} NewRootWalk<T>(h: Combine<T>, fn: nat, sn: nat, fr: T, sr: T, path: seq<T>)
    ensures Walk2(h, fn, sn, fr, sr, path).Some? == Walk(h, fn, sn, sr, path).Some?
    ensures Walk2(h, fn, sn, fr, sr, path).Some? ==>
              Walk2(h, fn, sn, fr, sr, path).value.1 == Walk(h, fn, sn, sr, path).value
    decreases |path|
  {
    if path != [] && sn != 0 {
      if fn % 2 == 1 || fn == sn {
        var (f, s) := SkipEven(fn, sn);
        NewRootWalk(h, f / 2, s / 2, h(path[0], fr), h(path[0], sr), path[1..]);
      } else {
        NewRootWalk(h, fn / 2, sn / 2, fr, h(sr, path[0]), path[1..]);
      }
    }
  }

  /** The old tree's level is the new tree's level cut after its first nodes, with its
      own value x as last node. Climbing keeps that shape. */
  lemma ClimbEven<T>(h: Combine<T>, c: seq<T>, x: T, rest: seq<T>)
    requires |c| % 2 == 0
    ensures Next(h, c + [x]) == Next(h, c) + [x]
    ensures Next(h, c + rest) == Next(h, c) + Next(h, rest)
  {
    hide Next;
    NextJoins(h, c, [x]);
    NextSmall(h, x, x);
    NextJoins(h, c, rest);
  }

  lemma ClimbOdd<T>(h: Combine<T>, c: seq<T>, l: T, x: T, rest: seq<T>)
    requires |c| % 2 == 0
    ensures Next(h, (c + [l]) + [x]) == Next(h, c) + [h(l, x)]
    ensures Next(h, (c + [l]) + rest) == Next(h, c) + Next(h, [l] + rest)
  {
    hide Next;
    assert (c + [l]) + [x] == c + [l, x];
    assert (c + [l]) + rest == c + ([l] + rest);
    NextJoins(h, c, [l, x]);
    NextSmall(h, l, x);
    NextJoins(h, c, [l] + rest);
  }

  /** The old-root half of the walk: along the path of the new tree's node |c| it
      computes the root of the old tree's level. */
  lemma {:induction false} OldRootWalk<T>(h: Combine<T>, c: seq<T>, x: T, rest: seq<T>, sr: T, path: seq<T>)
    requires rest != [] && path == Path(h, c + rest, |c|)
    ensures var r := Walk2(h, |c|, |c| + |rest| - 1, x, sr, path);
            r.Some? && r.value.0 == Root(h, c + [x])
    decreases |c| + |rest|
  {
    hide Next, Path, Root, Walk2;
    var fn, sn := |c|, |c| + |rest| - 1;
    if sn == 0 {
      OldRootBase(h, c, x, rest, sr);
    } else {
      RootOfNext(h, c + [x]);
      PathClimbs(h, c + rest, fn);
      if fn % 2 == 1 {
        var b, l := c[..fn - 1], c[fn - 1];
        assert c == b + [l];
        ClimbOdd(h, b, l, x, rest);
        assert (c + rest)[fn - 1] == l;
        OldRootWalk(h, Next(h, b), h(l, x), Next(h, [l] + rest), h(l, sr), path[1..]);
        Walk2Steps(h, fn, sn, x, sr, path);
      } else {
        ClimbEven(h, c, x, rest);
        if fn < sn {
          OldRootWalk(h, Next(h, c), x, Next(h, rest), h(sr, rest[1]), path[1..]);
          Walk2Steps(h, fn, sn, x, sr, path);
        } else {
          OldRootWalk(h, Next(h, c), x, Next(h, rest), sr, path);
          Walk2Promotes(h, fn, x, sr, path);
        }
      }
    }
  }

  lemma OldRootBase<T>(h: Combine<T>, c: seq<T>, x: T, rest: seq<T>, sr: T)
    requires c == [] && |rest| == 1
    ensures var r := Walk2(h, 0, 0, x, sr, Path(h, c + rest, 0));
            r.Some? && r.value.0 == Root(h, c + [x])
  {
  }

  lemma Walk2Steps<T>(h: Combine<T>, fn: nat, sn: nat, fr: T, sr: T, path: seq<T>)
    requires fn <= sn != 0 && (fn % 2 == 1 || fn < sn) && path != []
    ensures Walk2(h, fn, sn, fr, sr, path)
            == if fn % 2 == 1 then Walk2(h, fn / 2, sn / 2, h(path[0], fr), h(path[0], sr), path[1..])
               else Walk2(h, fn / 2, sn / 2, fr, h(sr, path[0]), path[1..])
  {
  }

  lemma Walk2Promotes<T>(h: Combine<T>, n: nat, fr: T, sr: T, path: seq<T>)
    requires n > 0 && n % 2 == 0
    ensures Walk2(h, n, n, fr, sr, path) == Walk2(h, n / 2, n / 2, fr, sr, path)
  {
  }

  /** The proof read bottom-up: climb while the old size is even, then its last node
      and that node's path in the new tree. */
  ghost function BottomUp<T>(h: Combine<T>, m: nat, level: seq<T>): (path: seq<T>)
    requires 1 <= m <= |level|
    ensures path != []
    decreases m
  {
    if m % 2 == 0 then BottomUp(h, m / 2, Next(h, level))
    else [level[m - 1]] + Path(h, level, m - 1)
  }

  /** Folding a path reaches the new root exactly on BottomUp, and then the old root
      it computes is the head of the first m nodes. */
  lemma {:induction false} FoldBindsBoth<T(!new)>(h: Combine<T>, m: nat, a: seq<T>, rest: seq<T>, path: seq<T>)
    requires Injective(h)
    requires |a| == m >= 1 && path != []
    ensures var r := Folded(h, m, |a + rest|, path);
            (r.Some? && r.value.1 == Root(h, a + rest) <==> path == BottomUp(h, m, a + rest))
            && (path == BottomUp(h, m, a + rest) ==> r.value.0 == Root(h, a))
    decreases m
  {
    hide Next, Path, Root, Walk, Walk2, Injective;
    var level := a + rest;
    if m % 2 == 0 {
      NextJoins(h, a, rest);
      FoldBindsBoth(h, m / 2, Next(h, a), Next(h, rest), path);
      assert (m - 1) / 2 == m / 2 - 1;
      assert (|level| - 1) / 2 == |Next(h, level)| - 1;
      RootOfNext(h, a);
      RootOfNext(h, level);
    } else {
      NewRootWalk(h, m - 1, |level| - 1, path[0], path[0], path[1..]);
      WalkBinds(h, level, m - 1, path[0], path[1..]);
      assert path == [path[0]] + path[1..];
      if path == BottomUp(h, m, level) {
        var c := a[..m - 1];
        assert a == c + [path[0]];
        assert level == c + ([a[m - 1]] + rest);
        OldRootWalk(h, c, path[0], [a[m - 1]] + rest, path[0], path[1..]);
      }
    }
  }

  lemma {:induction false} BottomUpStartsAtPow2<T>(h: Combine<T>, m: nat, a: seq<T>, rest: seq<T>)
    requires |a| == m >= 1 && IsPow2(m)
    ensures BottomUp(h, m, a + rest)[0] == Root(h, a)
    ensures BottomUp(h, m, a) == [Root(h, a)]
    decreases m
  {
    if m <= 1 {
    } else {
      NextJoins(h, a, rest);
      BottomUpStartsAtPow2(h, m / 2, Next(h, a), Next(h, rest));
    }
  }

  // ----- the prover emits that path -----

  lemma {:induction false} BottomUpJoins<T>(h: Combine<T>, m: nat, a: seq<T>, b: seq<T>)
    requires IsPow2(|a|) && 0 < |b| <= |a| && 1 <= m < |a| + |b|
    ensures BottomUp(h, m, a + b)
            == if m <= |a| then BottomUp(h, m, a) + [Root(h, b)]
               else BottomUp(h, m - |a|, b) + [Root(h, a)]
    decreases m
  {
    hide Next, Path, Root;
    if m % 2 == 1 {
      BottomUpJoinsOdd(h, m, a, b);
    } else {
      NextJoins(h, a, b);
      BottomUpJoins(h, m / 2, Next(h, a), Next(h, b));
      RootOfNext(h, a);
      RootOfNext(h, b);
      if m > |a| {
        assert (m - |a|) % 2 == 0 && (m - |a|) / 2 == m / 2 - |a| / 2;
      }
    }
  }

  lemma BottomUpJoinsOdd<T>(h: Combine<T>, m: nat, a: seq<T>, b: seq<T>)
    requires IsPow2(|a|) && 0 < |b| <= |a| && 1 <= m < |a| + |b| && m % 2 == 1
    ensures BottomUp(h, m, a + b)
            == if m <= |a| then BottomUp(h, m, a) + [Root(h, b)]
               else BottomUp(h, m - |a|, b) + [Root(h, a)]
  {
    hide BottomUp, Path, Root, Next;
    BottomUpOdd(h, m, a + b);
    PathJoins(h, a, b, m - 1);
    if m <= |a| {
      BottomUpOdd(h, m, a);
      Assoc([a[m - 1]], Path(h, a, m - 1), [Root(h, b)]);
    } else {
      var i := m - |a|;
      assert |a| % 2 == 0 && i % 2 == 1;
      BottomUpOdd(h, i, b);
      Assoc([b[i - 1]], Path(h, b, i - 1), [Root(h, a)]);
    }
  }

  lemma BottomUpOdd<T>(h: Combine<T>, m: nat, level: seq<T>)
    requires 1 <= m <= |level| && m % 2 == 1
    ensures BottomUp(h, m, level) == [level[m - 1]] + Path(h, level, m - 1)
  {
  }

  lemma {:induction false} SubProofIsBottomUp<T>(h: Combine<T>, m: nat, d: seq<T>, b: bool)
    requires 1 <= m < |d| || (m == |d| && IsPow2(m))
    ensures SubProof(h, m, d, b)
            == if b && IsPow2(m) then BottomUp(h, m, d)[1..] else BottomUp(h, m, d)
    decreases |d|
  {
    hide Next, BottomUp, Root, Mth;
    if m == |d| {
      BottomUpStartsAtPow2(h, m, d, []);
      RootIsMth(h, d);
    } else {
      var k := Split(|d|);
      var left, right := d[..k], d[k..];
      Halves(d);
      BottomUpJoins(h, m, left, right);
      RootIsMth(h, left);
      RootIsMth(h, right);
      if m <= k {
        SubProofIsBottomUp(h, m, left, b);
      } else {
        SubProofIsBottomUp(h, m - k, right, false);
        if IsPow2(m) {
          SplitUnique(|d|, m);
        }
      }
    }
  }

  /** The path that verifyConsistency folds, against the root of a + rest. */
  lemma FoldPathBinds<T(!new)>(h: Combine<T>, m: nat, a: seq<T>, rest: seq<T>, root1: T, proof: seq<T>)
    requires Injective(h)
    requires |a| == m >= 1 && rest != []
    ensures Checks(h, m, |a + rest|, root1, Root(h, a + rest), proof)
            <==> root1 == Root(h, a) && FoldPath(m, root1, proof) == BottomUp(h, m, a + rest)
  {
    var path := FoldPath(m, root1, proof);
    if path != [] {
      FoldBindsBoth(h, m, a, rest, path);
    }
  }

  lemma StripHead<T>(x: T, tail: seq<T>, whole: seq<T>)
    requires whole != []
    ensures [x] + tail == whole <==> x == whole[0] && tail == whole[1..]
  {
    assert whole == [whole[0]] + whole[1..];
    assert ([x] + tail)[1..] == tail;
  }

  /** Consistency, at every pair of sizes: against the head of D the walk accepts exactly
      the head of the first m leaves with the RFC 6962 proof. Soundness, completeness and
      the uniqueness of the proof are the three parts of one equivalence. */
  lemma {:induction false} ConsistencyIffPrefix<T(!new)>(h: Combine<T>, d: seq<T>, m: int, root1: T, proof: seq<T>)
    requires Injective(h)
    requires d != []
    ensures Checks(h, m, |d|, root1, Mth(h, d), proof)
            <==> 1 <= m <= |d| && root1 == Mth(h, d[..m]) && proof == Proof(h, m, d)
  {
    if m == |d| {
      assert d[..m] == d;
    } else if 1 <= m < |d| {
      ProperPrefixIff(h, d[..m], d[m..], root1, proof);
      assert d == d[..m] + d[m..];
    }
  }

  lemma ProperPrefixIff<T(!new)>(h: Combine<T>, a: seq<T>, rest: seq<T>, root1: T, proof: seq<T>)
    requires Injective(h)
    requires a != [] && rest != []
    ensures Checks(h, |a|, |a + rest|, root1, Mth(h, a + rest), proof)
            <==> root1 == Mth(h, a) && proof == SubProof(h, |a|, a + rest, true)
  {
    RootIsMth(h, a + rest);
    RootIsMth(h, a);
    FoldPathBinds(h, |a|, a, rest, root1, proof);
    SubProofIsBottomUp(h, |a|, a + rest, true);
    if IsPow2(|a|) {
      BottomUpStartsAtPow2(h, |a|, a, rest);
      StripHead(root1, proof, BottomUp(h, |a|, a + rest));
    }
  }

  // ----- proof length -----

  /** The length of the proof, from the sizes alone. */
  function SubLen(m: nat, n: nat, b: bool): nat
    requires 1 <= m <= n
    decreases n
  {
    if m == n then (if b then 0 else 1)
    else
      var k := Split(n);
      if m <= k then SubLen(m, k, b) + 1 else SubLen(m - k, n - k, false) + 1
  }

  function ProofLen(m: nat, n: nat): nat
    requires 1 <= m <= n
  {
    if m == n then 0 else SubLen(m, n, true)
  }

  lemma {:induction false} SubProofLen<T>(h: Combine<T>, m: nat, d: seq<T>, b: bool)
    requires 1 <= m <= |d|
    ensures |SubProof(h, m, d, b)| == SubLen(m, |d|, b)
    decreases |d|
  {
    hide Mth;
    if m >= |d| {
    } else {
      var k := Split(|d|);
      if m <= k {
        SubProofLen(h, m, d[..k], b);
      } else {
        SubProofLen(h, m - k, d[k..], false);
      }
    }
  }

  lemma {:induction false} BottomUpLen<T>(h: Combine<T>, m: nat, level: seq<T>)
    requires 1 <= m <= |level|
    ensures var (fn, sn) := StripOnes(m - 1, |level| - 1);
            fn <= sn < |level| && |BottomUp(h, m, level)| == 1 + PathLen(fn, sn)
    decreases m
  {
    hide Next, Path;
    if m % 2 == 0 {
      BottomUpLen(h, m / 2, Next(h, level));
      assert (m - 1) / 2 == m / 2 - 1;
      assert (|level| - 1) / 2 == |Next(h, level)| - 1;
    } else {
      PathHasPathLen(h, level, m - 1);
    }
  }

  lemma {:induction false} CeilLog2Monotone(a: nat, b: nat)
    requires 1 <= a <= b
    ensures CeilLog2(a) <= CeilLog2(b)
    decreases b
  {
    if a <= 1 {
    } else {
      CeilLog2Monotone((a + 1) / 2, (b + 1) / 2);
    }
  }

  /** The indices alone settle the length: for any hash function and any values, the
      walk runs to the end exactly on proofs of the RFC 6962 length, which is at most
      ceil(log2 n) + 1. */
  lemma ConsistencyLength<T>(h: Combine<T>, m: nat, n: nat, root1: T, proof: seq<T>)
    requires 1 <= m < n
    ensures var path := FoldPath(m, root1, proof);
            path != [] && Folded(h, m, n, path).Some? <==> |proof| == ProofLen(m, n)
    ensures ProofLen(m, n) <= CeilLog2(n) + 1
  {
    hide Next, Path, Root, Walk, Walk2, SubProof, BottomUp, SubLen, StripOnes, PathLen, CeilLog2;
    var d := seq(n, _ => root1);
    SubProofLen(h, m, d, true);
    SubProofIsBottomUp(h, m, d, true);
    BottomUpLen(h, m, d);
    var (fn, sn) := StripOnes(m - 1, n - 1);
    var path := FoldPath(m, root1, proof);
    if path != [] {
      NewRootWalk(h, fn, sn, path[0], path[0], path[1..]);
      WalkLength(h, fn, sn, path[0], path[1..]);
    }
    PathLenBound(fn, sn);
    CeilLog2Monotone(sn + 1, n);
  }

  /** Every proof of another length is rejected, at every pair of sizes. */
  lemma WrongLengthRejected<T>(h: Combine<T>, m: int, n: int, root1: T, root2: T, proof: seq<T>)
    requires 1 <= m <= n && |proof| != ProofLen(m, n)
    ensures !Checks(h, m, n, root1, root2, proof)
  {
    if m < n {
      ConsistencyLength(h, m, n, root1, proof);
    }
  }

  // ----- chains of heads -----

  datatype Head<+T> = Head(size: int, root: T)

  /** The head of the first size leaves of D, for sizes that have one. */
  ghost predicate IsPrefixHead<T(!new)>(h: Combine<T>, head: Head<T>, d: seq<T>) {
    1 <= head.size <= |d| && head.root == Mth(h, d[..head.size])
  }

  /** A head an honest log publishes: the empty tree, or a prefix of its leaves. */
  ghost predicate IsHonestHead<T(!new)>(h: Combine<T>, empty: T, head: Head<T>, d: seq<T>) {
    head == Head(0, empty) || IsPrefixHead(h, head, d)
  }

  ghost predicate Chained<T(!new)>(h: Combine<T>, heads: seq<Head<T>>, proofs: seq<seq<T>>) {
    |heads| == |proofs| + 1
    && forall i :: 0 <= i < |proofs| ==>
         Checks(h, heads[i].size, heads[i + 1].size, heads[i].root, heads[i + 1].root, proofs[i])
  }

  lemma PrefixOfPrefix<T(!new)>(h: Combine<T>, d: seq<T>, m: nat, n: nat)
    requires m <= n <= |d|
    ensures d[..n][..m] == d[..m]
  {
  }

  /** One accepted step backwards from a prefix head lands on a prefix head. */
  lemma StepBack<T(!new)>(h: Combine<T>, earlier: Head<T>, later: Head<T>, proof: seq<T>, d: seq<T>)
    requires Injective(h)
    requires IsPrefixHead(h, later, d)
    ensures Checks(h, earlier.size, later.size, earlier.root, later.root, proof)
            <==> earlier.size <= later.size && IsPrefixHead(h, earlier, d) && proof == Proof(h, earlier.size, d[..later.size])
  {
    ConsistencyIffPrefix(h, d[..later.size], earlier.size, earlier.root, proof);
    if 1 <= earlier.size <= later.size {
      PrefixOfPrefix(h, d, earlier.size, later.size);
    }
  }

  /** Append-only over whole runs: in a chain of accepted steps that ends in the head of
      D, every head is the head of a prefix of D, and sizes never shrink. */
  lemma ChainIsAppendOnly<T(!new)>(h: Combine<T>, heads: seq<Head<T>>, proofs: seq<seq<T>>, d: seq<T>)
    requires Injective(h)
    requires Chained(h, heads, proofs)
    requires d != [] && heads[|proofs|] == Head(|d|, Mth(h, d))
    ensures forall i :: 0 <= i < |heads| ==> IsPrefixHead(h, heads[i], d)
    ensures forall i, j :: 0 <= i <= j < |heads| ==> heads[i].size <= heads[j].size
    decreases |proofs|
  {
    assert d[..|d|] == d;
    ChainWithin(h, heads, proofs, d);
  }

  lemma {:induction false} ChainWithin<T(!new)>(h: Combine<T>, heads: seq<Head<T>>, proofs: seq<seq<T>>, d: seq<T>)
    requires Injective(h)
    requires Chained(h, heads, proofs)
    requires IsPrefixHead(h, heads[|proofs|], d)
    ensures forall i :: 0 <= i < |heads| ==> IsPrefixHead(h, heads[i], d)
    ensures forall i, j :: 0 <= i <= j < |heads| ==> heads[i].size <= heads[j].size
    decreases |proofs|
  {
    if proofs == [] {
    } else {
      var n := |proofs| - 1;
      StepBack(h, heads[n], heads[n + 1], proofs[n], d);
      ChainWithin(h, heads[..n + 1], proofs[..n], d);
    }
  }

  /** A client who committed to the leaves C under one head of the chain finds C
      unchanged at the front of D. */
  lemma CommittedLeavesSurvive<T(!new)>(
    h: Combine<T>, heads: seq<Head<T>>, proofs: seq<seq<T>>, d: seq<T>, i: nat, c: seq<T>)
    requires Injective(h)
    requires Chained(h, heads, proofs)
    requires d != [] && heads[|proofs|] == Head(|d|, Mth(h, d))
    requires i < |heads| && c != [] && heads[i] == Head(|c|, Mth(h, c))
    ensures c <= d
  {
    ChainIsAppendOnly(h, heads, proofs, d);
    assert IsPrefixHead(h, heads[i], d);
    MthPinsLeaves(h, c, d[..|c|]);
  }
}
