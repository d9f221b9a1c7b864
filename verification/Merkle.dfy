/** The hash model shared by every Merkle proof: a combining function on an arbitrary
    type of hash values, with collision resistance read as injectivity on pairs.
    Leaves and inner nodes share the type, so a leaf may coincide with a node value. */
module Hashing {
  datatype Option<+T> = None | Some(value: T)

  type Combine<!T> = (T, T) -> T

  type Byte = b: int | 0 <= b < 256

  ghost predicate Injective<T(!new)>(h: Combine<T>) {
    forall a, b, c, d :: h(a, b) == h(c, d) ==> a == c && b == d
  }

  /** Applying injectivity at one pair of nodes. */
  lemma Cancel<T(!new)>(h: Combine<T>, a: T, b: T, c: T, d: T)
    requires Injective(h)
    ensures h(a, b) == h(c, d) <==> a == c && b == d
  {
  }

  /** The free node constructor: an injective combining function, so that no theorem
      stated under Injective is vacuous. */
  datatype Tree = Leaf(id: int) | Pair(left: Tree, right: Tree)

  const FREE: Combine<Tree> := (l, r) => Pair(l, r)

  lemma FreeIsInjective()
    ensures Injective(FREE)
  {
  }
}

/** Section 2.1 of RFC 6962: the tree head by the largest-power-of-two split, and the
    level-by-level build that pairs neighbours and promotes a lone right node. */
module MerkleTree {
  import opened Hashing

  predicate IsPow2(n: nat) {
    n == 1 || (n > 1 && n % 2 == 0 && IsPow2(n / 2))
  }

  /** The largest power of two strictly below n. */
  function Split(n: nat): (k: nat)
    requires n >= 2
    ensures 1 <= k < n <= 2 * k
  {
    if n == 2 then 1 else 2 * Split((n + 1) / 2)
  }

  lemma {:induction false} SplitIsPow2(n: nat)
    requires n >= 2
    ensures IsPow2(Split(n))
  {
    if n <= 2 {
    } else {
      SplitIsPow2((n + 1) / 2);
      assert Split(n) / 2 == Split((n + 1) / 2);
    }
  }

  /** Between k and 2k there is no other power of two, so the bounds determine Split. */
  lemma {:induction false} SplitUnique(n: nat, k: nat)
    requires n >= 2 && IsPow2(k) && k < n <= 2 * k
    ensures k == Split(n)
  {
    if n <= 2 {
    } else {
      SplitUnique((n + 1) / 2, k / 2);
    }
  }

  lemma Pow2Doubles(k: nat)
    requires IsPow2(k)
    ensures IsPow2(2 * k)
  {
    assert 2 * k / 2 == k;
  }

  method LargestPow2Below(n: nat) returns (k: nat)
    requires n >= 2
    ensures k == Split(n)
  {
    k := 1;
    while k * 2 < n
      invariant IsPow2(k) && k < n
      decreases n - k
    {
      Pow2Doubles(k);
      k := k * 2;
    }
    SplitUnique(n, k);
  }

  /** MTH of RFC 6962 over a non-empty list of leaf hashes. */
  function Mth<T>(h: Combine<T>, leaves: seq<T>): (root: T)
    requires leaves != []
  {
    if |leaves| == 1 then leaves[0]
    else
      var k := Split(|leaves|);
      h(Mth(h, leaves[..k]), Mth(h, leaves[k..]))
  }

  /** One level up: neighbours are paired, a lone right node is promoted unchanged. */
  function Next<T>(h: Combine<T>, level: seq<T>): (up: seq<T>)
    ensures |up| == (|level| + 1) / 2
  {
    if |level| < 2 then level else [h(level[0], level[1])] + Next(h, level[2..])
  }

  lemma {:induction false} NextAt<T>(h: Combine<T>, level: seq<T>, i: nat)
    requires 2 * i < |level|
    ensures Next(h, level)[i] == if 2 * i + 1 < |level| then h(level[2 * i], level[2 * i + 1]) else level[2 * i]
  {
    if i == 0 {
    } else {
      NextAt(h, level[2..], i - 1);
    }
  }

  /** The root reached by repeating Next. */
  ghost function Root<T>(h: Combine<T>, level: seq<T>): T
    requires level != []
    decreases |level|
  {
    if |level| == 1 then level[0] else Root(h, Next(h, level))
  }

  lemma Assoc<X>(a: seq<X>, b: seq<X>, c: seq<X>)
    ensures a + (b + c) == (a + b) + c
  {
  }

  lemma NextSmall<T>(h: Combine<T>, a: T, b: T)
    ensures Next(h, [a]) == [a] && Next(h, [a, b]) == [h(a, b)]
  {
  }

  /** Going one level up commutes with joining lists after an even number of nodes. */
  lemma {:induction false} NextJoins<T>(h: Combine<T>, a: seq<T>, b: seq<T>)
    requires |a| % 2 == 0
    ensures Next(h, a + b) == Next(h, a) + Next(h, b)
  {
    if a == [] {
      assert a + b == b;
    } else {
      NextJoins(h, a[2..], b);
      assert (a + b)[2..] == a[2..] + b;
      Assoc([h(a[0], a[1])], Next(h, a[2..]), Next(h, b));
    }
  }

  /** A full subtree joined with a tree no larger than itself: the root combines theirs. */
  lemma {:induction false} RootJoins<T>(h: Combine<T>, a: seq<T>, b: seq<T>)
    requires IsPow2(|a|) && 0 < |b| <= |a|
    ensures Root(h, a + b) == h(Root(h, a), Root(h, b))
    decreases |a|
  {
    if |a| == 1 {
      assert Next(h, a + b) == [h(a[0], b[0])];
    } else {
      NextJoins(h, a, b);
      RootJoins(h, Next(h, a), Next(h, b));
      RootOfNext(h, a);
      RootOfNext(h, b);
    }
  }

  lemma RootOfNext<T>(h: Combine<T>, level: seq<T>)
    requires level != []
    ensures Root(h, Next(h, level)) == Root(h, level)
  {
  }

  /** The two halves of the RFC 6962 split. */
  lemma Halves<T>(leaves: seq<T>)
    requires |leaves| >= 2
    ensures var k := Split(|leaves|);
            leaves == leaves[..k] + leaves[k..] && IsPow2(k) && 0 < |leaves[k..]| <= k
  {
    SplitIsPow2(|leaves|);
  }

  /** The level-by-level build and the top-down split agree on every tree. */
  lemma {:induction false} RootIsMth<T>(h: Combine<T>, leaves: seq<T>)
    requires leaves != []
    ensures Root(h, leaves) == Mth(h, leaves)
    decreases |leaves|
  {
    if |leaves| <= 1 {
    } else {
      var k := Split(|leaves|);
      Halves(leaves);
      RootJoins(h, leaves[..k], leaves[k..]);
      RootIsMth(h, leaves[..k]);
      RootIsMth(h, leaves[k..]);
    }
  }

  /** One pass of merkleRoot's inner loop. */
  method BuildLevel<T>(h: Combine<T>, level: seq<T>) returns (next: seq<T>)
    ensures next == Next(h, level)
  {
    next := [];
    var i := 0;
    while i < |level|
      invariant 0 <= i <= |level| + 1 && i % 2 == 0
      invariant |next| == i / 2
      invariant forall j :: 0 <= j < |next| ==> next[j] == Next(h, level)[j]
      decreases |level| - i
    {
      NextAt(h, level, i / 2);
      next := next + [if i + 1 < |level| then h(level[i], level[i + 1]) else level[i]];
      i := i + 2;
    }
  }

  /** merkleRoot: the tree head of the list, or the given empty-tree hash. */
  method MerkleRoot<T>(h: Combine<T>, empty: T, leaves: seq<T>) returns (root: T)
    ensures root == TreeHead(h, empty, leaves)
  {
    if |leaves| == 0 {
      return empty;
    }
    var level := leaves;
    while |level| > 1
      invariant level != []
      invariant Root(h, level) == Root(h, leaves)
      decreases |level|
    {
      level := BuildLevel(h, level);
    }
    RootIsMth(h, leaves);
    root := level[0];
  }

  function TreeHead<T>(h: Combine<T>, empty: T, leaves: seq<T>): T {
    if leaves == [] then empty else Mth(h, leaves)
  }

  /** No history rewrite: under an injective hash a head of known size pins every leaf. */
  lemma {:induction false} MthPinsLeaves<T(!new)>(h: Combine<T>, a: seq<T>, b: seq<T>)
    requires Injective(h)
    requires |a| == |b| > 0
    ensures Mth(h, a) == Mth(h, b) <==> a == b
    decreases |a|
  {
    if |a| > 1 && Mth(h, a) == Mth(h, b) {
      var k := Split(|a|);
      Cancel(h, Mth(h, a[..k]), Mth(h, a[k..]), Mth(h, b[..k]), Mth(h, b[k..]));
      MthPinsLeaves(h, a[..k], b[..k]);
      MthPinsLeaves(h, a[k..], b[k..]);
      assert a == a[..k] + a[k..] && b == b[..k] + b[k..];
    }
  }
}
