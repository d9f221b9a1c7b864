/** k-of-n witnessing of pqkt.mjs: the count of distinct trusted co-signatures, and the
    bound on dishonest witnesses below which no split view can gather two quorums. */
module WitnessQuorum {
  import opened Hashing
  import opened MerkleTree
  import opened InclusionProof
  import opened ConsistencyProof
  import opened KeyWitness

  /** A co-signature: sigOk is the verdict of the signature check under the signer's key
      over exactly this head. */
  datatype Cosig<W, T> = Cosig(signer: W, head: Head<T>, sigOk: bool)

  /** The distinct trusted signers with a valid co-signature on the head. */
  function Vouchers<W(==), T(==)>(sth: Head<T>, cosigs: seq<Cosig<W, T>>, trusted: seq<W>): set<W> {
    set c | c in cosigs && c.signer in trusted && c.head == sth && c.sigOk :: c.signer
  }

  /** verifyWitnessedSTH. */
  method VerifyWitnessed<W(==), T(==)>(
    sth: Head<T>, sthOk: bool, cosigs: seq<Cosig<W, T>>, trusted: seq<W>, k: int)
    returns (verified: bool, count: nat)
    ensures count == |Vouchers(sth, cosigs, trusted)|
    ensures verified == (sthOk && count >= k)
  {
    var seen: set<W> := {};
    for i := 0 to |cosigs|
      invariant seen == Vouchers(sth, cosigs[..i], trusted)
    {
      var c := cosigs[i];
      assert cosigs[..i + 1] == cosigs[..i] + [c];
      if c.signer in trusted && c.signer !in seen && c.head == sth && c.sigOk {
        seen := seen + {c.signer};
      }
    }
    assert cosigs[..|cosigs|] == cosigs;
    count := |seen|;
    verified := sthOk && count >= k;
  }

  /** A trusted key with a valid co-signature on exactly this head somewhere in the list. */
  ghost predicate Vouched<W(!new), T(!new)>(sth: Head<T>, cosigs: seq<Cosig<W, T>>, trusted: seq<W>, w: W) {
    w in trusted && exists i :: 0 <= i < |cosigs| && cosigs[i] == Cosig(w, sth, true)
  }

  /** Those are the signers counted: none is missed for what stands beside it. */
  lemma VoucherIff<W(!new), T(!new)>(sth: Head<T>, cosigs: seq<Cosig<W, T>>, trusted: seq<W>, w: W)
    ensures w in Vouchers(sth, cosigs, trusted) <==> Vouched(sth, cosigs, trusted, w)
  {
    if w in Vouchers(sth, cosigs, trusted) {
      var c :| c in cosigs && c.signer in trusted && c.head == sth && c.sigOk && c.signer == w;
      var i :| 0 <= i < |cosigs| && cosigs[i] == c;
      assert cosigs[i] == Cosig(w, sth, true);
    }
    if Vouched(sth, cosigs, trusted, w) {
      var i :| 0 <= i < |cosigs| && cosigs[i] == Cosig(w, sth, true);
      assert cosigs[i] in cosigs;
    }
  }

  /** More co-signatures, in any order, of anyone and on anything, never lower the count. */
  lemma CountOnlyGrows<W(!new), T(!new)>(sth: Head<T>, a: seq<Cosig<W, T>>, b: seq<Cosig<W, T>>, trusted: seq<W>)
    requires forall c :: c in a ==> c in b
    ensures |Vouchers(sth, a, trusted)| <= |Vouchers(sth, b, trusted)|
  {
    SubsetSize(Vouchers(sth, a, trusted), Vouchers(sth, b, trusted));
  }

  /** k distinct trusted signers with valid co-signatures on the head are enough, and
      needed, whatever else is in the list. */
  lemma QuorumIff<W(!new), T(!new)>(sth: Head<T>, cosigs: seq<Cosig<W, T>>, trusted: seq<W>, k: int)
    ensures |Vouchers(sth, cosigs, trusted)| >= k
            <==> exists signers: set<W> ::
                   |signers| >= k && forall w :: w in signers ==> Vouched(sth, cosigs, trusted, w)
  {
    hide Vouchers, Vouched;
    var counted := Vouchers(sth, cosigs, trusted);
    forall w
      ensures w in counted <==> Vouched(sth, cosigs, trusted, w)
    {
      VoucherIff(sth, cosigs, trusted, w);
    }
    if signers: set<W> :| |signers| >= k && forall w :: w in signers ==> Vouched(sth, cosigs, trusted, w) {
      assert signers <= counted;
      SubsetSize(signers, counted);
    }
  }

  // ----- quorum arithmetic -----

  /** Two quorums for different roots at one size, when every honest witness signs at
      most one of them and at most d witnesses are dishonest. */
  ghost predicate SplitView<W(!new)>(all: set<W>, k: nat, d: nat, honest: set<W>, a: set<W>, b: set<W>) {
    honest <= all && a <= all && b <= all
    && |all - honest| <= d
    && honest * a * b == {}
    && |a| >= k && |b| >= k
  }

  ghost predicate SplitPossible<W(!new)>(all: set<W>, k: nat, d: nat) {
    exists honest, a, b :: SplitView(all, k, d, honest, a, b)
  }

  lemma SubsetSize<W>(a: set<W>, b: set<W>)
    requires a <= b
    ensures |a| <= |b|
  {
    assert b == a + (b - a);
  }

  /** Two k-subsets of n witnesses meet in at least 2k - n of them. */
  lemma QuorumsMeet<W>(all: set<W>, a: set<W>, b: set<W>)
    requires a <= all && b <= all
    ensures |a * b| >= |a| + |b| - |all|
  {
    assert |a + b| == |a| + |b| - |a * b|;
    SubsetSize(a + b, all);
  }

  lemma {:induction false} PickSubset<W>(s: set<W>, k: nat) returns (t: set<W>)
    requires k <= |s|
    ensures t <= s && |t| == k
    decreases k
  {
    if k == 0 {
      t := {};
    } else {
      var x :| x in s;
      t := PickSubset(s - {x}, k - 1);
      t := t + {x};
    }
  }

  /** The governance bound, exactly: a split view exists if and only if a quorum can be
      gathered at all and 2k - n does not exceed the dishonest witnesses. */
  lemma SplitIffUnderProvisioned<W(!new)>(all: set<W>, k: nat, d: nat)
    ensures SplitPossible(all, k, d) <==> k <= |all| && 2 * k - |all| <= d
  {
    if SplitPossible(all, k, d) {
      var honest, a, b :| SplitView(all, k, d, honest, a, b);
      SubsetSize(a, all);
      QuorumsMeet(all, a, b);
      assert a * b <= all - honest;
      SubsetSize(a * b, all - honest);
    }
    if k <= |all| && 2 * k - |all| <= d {
      BuildSplit(all, k, d);
    }
  }

  /** The adversary's assignment: the quorums overlap only in dishonest witnesses. */
  lemma BuildSplit<W(!new)>(all: set<W>, k: nat, d: nat)
    requires k <= |all| && 2 * k - |all| <= d
    ensures SplitPossible(all, k, d)
  {
    var a := PickSubset(all, k);
    var outside := all - a;
    assert |outside| == |all| - k;
    var overlap, b: set<W>;
    if k <= |outside| {
      overlap := {};
      b := PickSubset(outside, k);
    } else {
      overlap := PickSubset(a, k - |outside|);
      b := outside + overlap;
      assert outside * overlap == {};
    }
    var honest := all - overlap;
    assert all - honest == overlap;
    assert honest * a * b == {};
    assert SplitView(all, k, d, honest, a, b);
  }

  // ----- the bound, for running witnesses -----

  /** A witness's configuration, the ways its store can answer, and all that happened to it. */
  datatype Life<T> = Life(anchor: Option<Head<T>>, requireAnchor: bool, outcomes: set<Outcome>, events: seq<Event<T>>)

  /** An honest node runs on one kind of store. */
  ghost predicate IsHonest<T(!new)>(life: Life<T>) {
    Uses(life.events, life.outcomes) && OneKindOfStore(life.outcomes)
  }

  function CosignedBy<T(==)>(h: Combine<T>, life: Life<T>): seq<Head<T>> {
    Released(h, NewNode(life.anchor, life.requireAnchor), life.events)
  }

  /** Unforgeability: a valid co-signature of an honest witness, each on its own kind of
      store, is on a head its node released. */
  ghost predicate Genuine<W(!new), T(!new)>(h: Combine<T>, honest: map<W, Life<T>>, cosigs: seq<Cosig<W, T>>) {
    (forall w :: w in honest ==> IsHonest(honest[w]))
    && forall c :: c in cosigs && c.sigOk && c.signer in honest ==> c.head in CosignedBy(h, honest[c.signer])
  }

  /** Prevention: with n trusted witnesses of which at most d are not honest nodes, two
      heads of one size with different roots both pass verifyWitnessedSTH only if
      2k - n <= d. Honest nodes may fail writes and restart at any time. */
  lemma NoSplitView<W(!new), T(!new)>(
    h: Combine<T>, trusted: seq<W>, honest: map<W, Life<T>>, k: nat, d: nat,
    x: Head<T>, forX: seq<Cosig<W, T>>, y: Head<T>, forY: seq<Cosig<W, T>>)
    requires var all := set w | w in trusted;
             |all - honest.Keys| <= d
    requires Genuine(h, honest, forX) && Genuine(h, honest, forY)
    requires x.size == y.size && x.root != y.root
    requires |Vouchers(x, forX, trusted)| >= k && |Vouchers(y, forY, trusted)| >= k
    ensures 2 * k - |set w | w in trusted| <= d
  {
    var all := set w | w in trusted;
    var a, b := Vouchers(x, forX, trusted), Vouchers(y, forY, trusted);
    forall w | w in a && w in b
      ensures w !in honest
    {
      if w in honest {
        OneRootPerSize(h, honest, w, x, forX, y, forY, trusted);
      }
    }
    var good := all * honest.Keys;
    assert all - good == all - honest.Keys;
    assert good * a * b == {};
    assert SplitView(all, k, d, good, a, b);
    SplitIffUnderProvisioned(all, k, d);
  }

  lemma OneRootPerSize<W(!new), T(!new)>(
    h: Combine<T>, honest: map<W, Life<T>>, w: W,
    x: Head<T>, forX: seq<Cosig<W, T>>, y: Head<T>, forY: seq<Cosig<W, T>>, trusted: seq<W>)
    requires w in honest && Genuine(h, honest, forX) && Genuine(h, honest, forY)
    requires w in Vouchers(x, forX, trusted) && w in Vouchers(y, forY, trusted)
    requires x.size == y.size
    ensures x == y
  {
    var life := honest[w];
    NeverEquivocates(h, life.anchor, life.requireAnchor, life.events, life.outcomes);
    assert x in CosignedBy(h, life) && y in CosignedBy(h, life);
  }

  /** Wherever 2k - n <= d leaves room, a log that gives each honest node only one of two
      lives, released heads x and y respectively, gets both quorums. */
  lemma SplitLives<W(!new), T(!new)>(
    h: Combine<T>, trusted: seq<W>, k: nat, d: nat, x: Head<T>, lifeX: Life<T>, y: Head<T>, lifeY: Life<T>)
    returns (honest: map<W, Life<T>>, forX: seq<Cosig<W, T>>, forY: seq<Cosig<W, T>>)
    requires var n := |set w | w in trusted|; k <= n && 2 * k - n <= d
    requires IsHonest(lifeX) && CosignedBy(h, lifeX) == [x]
    requires IsHonest(lifeY) && CosignedBy(h, lifeY) == [y]
    ensures var all := set w | w in trusted;
            |all - honest.Keys| <= d
    ensures Genuine(h, honest, forX) && Genuine(h, honest, forY)
    ensures forall w :: w in honest ==> honest[w] in {lifeX, lifeY}
    ensures |Vouchers(x, forX, trusted)| >= k && |Vouchers(y, forY, trusted)| >= k
  {
    var all := set w | w in trusted;
    SplitIffUnderProvisioned(all, k, d);
    hide CosignedBy, IsHonest, Signing, Genuine;
    var good, a, b :| SplitView(all, k, d, good, a, b);
    honest := map w | w in good :: if w in a then lifeX else lifeY;
    assert honest.Keys == good;
    forX := Signing(trusted, a, x);
    forY := Signing(trusted, b, y);
    SigningIsGenuine(h, honest, trusted, a, x);
    assert forall w :: w in honest && w in b ==> w !in a by {
      assert good * a * b == {};
    }
    SigningIsGenuine(h, honest, trusted, b, y);
    assert Vouchers(x, forX, trusted) == a by { SignersAre(trusted, a, x); }
    assert Vouchers(y, forY, trusted) == b by { SignersAre(trusted, b, y); }
  }

  /** The bound is tight for running witnesses that trust the first head they see. */
  lemma SplitViewIsReachable<W(!new), T(!new)>(
    h: Combine<T>, trusted: seq<W>, k: nat, d: nat, x: Head<T>, y: Head<T>)
    returns (honest: map<W, Life<T>>, forX: seq<Cosig<W, T>>, forY: seq<Cosig<W, T>>)
    requires var n := |set w | w in trusted|; k <= n && 2 * k - n <= d
    ensures var all := set w | w in trusted;
            |all - honest.Keys| <= d
    ensures Genuine(h, honest, forX) && Genuine(h, honest, forY)
    ensures |Vouchers(x, forX, trusted)| >= k && |Vouchers(y, forY, trusted)| >= k
  {
    ShownIsReleased(h, x);
    ShownIsReleased(h, y);
    honest, forX, forY := SplitLives(h, trusted, k, d, x, Shown(x), y, Shown(y));
  }

  /** Anchoring does not move the bound: with every honest node anchored at the head of the
      leaves C, and anchoring required, two extensions of C by equally many leaves are both
      witnessed, each node following one append-only log. */
  lemma {:induction false} AnchoredSplitViewIsReachable<W(!new), T(!new)>(
    h: Combine<T>, trusted: seq<W>, k: nat, d: nat, c: seq<T>, a: seq<T>, b: seq<T>)
    returns (honest: map<W, Life<T>>, forX: seq<Cosig<W, T>>, forY: seq<Cosig<W, T>>)
    requires Injective(h)
    requires var n := |set w | w in trusted|; k <= n && 2 * k - n <= d
    requires c != [] && |a| == |b| > 0 && |c + a| <= MAX_TREE_SIZE
    ensures var all := set w | w in trusted;
            |all - honest.Keys| <= d
    ensures Genuine(h, honest, forX) && Genuine(h, honest, forY)
    ensures forall w :: w in honest ==> honest[w].requireAnchor && honest[w].anchor == Some(Head(|c|, Mth(h, c)))
    ensures |Vouchers(Head(|c + a|, Mth(h, c + a)), forX, trusted)| >= k
    ensures |Vouchers(Head(|c + b|, Mth(h, c + b)), forY, trusted)| >= k
    ensures Mth(h, c + a) == Mth(h, c + b) <==> a == b
  {
    hide Mth, Proof;
    MthPinsLeaves(h, c + a, c + b);
    assert (c + a)[|c|..] == a && (c + b)[|c|..] == b;
    FollowedIsReleased(h, c, a);
    FollowedIsReleased(h, c, b);
    honest, forX, forY := SplitLives(h, trusted, k, d, Head(|c + a|, Mth(h, c + a)), Followed(h, c, a),
                                     Head(|c + b|, Mth(h, c + b)), Followed(h, c, b));
  }

  function Shown<T>(head: Head<T>): Life<T> {
    Life(None, false, {Stored}, [Presented(Request(head, true, []), Stored)])
  }

  lemma ShownIsReleased<T(!new)>(h: Combine<T>, head: Head<T>)
    ensures IsHonest(Shown(head)) && CosignedBy(h, Shown(head)) == [head]
  {
    var n := NewNode<T>(None, false);
    var events := Shown(head).events;
    var (n', reply) := NodeStep(h, n, events[0]);
    assert Sent(reply) == [head];
    assert Released(h, n', events[1..]) == [];
    assert Released(h, n, events) == [head] + Released(h, n', events[1..]);
  }

  /** An anchored node shown one extension of its anchor, with its proof. */
  function Followed<T>(h: Combine<T>, c: seq<T>, a: seq<T>): Life<T>
    requires c != []
  {
    var d := c + a;
    Life(Some(Head(|c|, Mth(h, c))), true, {Stored},
         [Presented(Request(Head(|d|, Mth(h, d)), true, Proof(h, |c|, d)), Stored)])
  }

  lemma FollowedIsReleased<T(!new)>(h: Combine<T>, c: seq<T>, a: seq<T>)
    requires Injective(h)
    requires c != [] && a != [] && |c + a| <= MAX_TREE_SIZE
    ensures IsHonest(Followed(h, c, a))
    ensures CosignedBy(h, Followed(h, c, a)) == [Head(|c + a|, Mth(h, c + a))]
  {
    hide Mth, Proof, NodeStep;
    var life, d := Followed(h, c, a), c + a;
    assert d[..|c|] == c && d[..|d|] == d;
    var n := NewNode(life.anchor, true);
    HonestStep(h, n, d, |c|, |d|);
    var n' := NodeStep(h, n, life.events[0]).0;
    assert life.events[1..] == [];
    assert Released(h, n', []) == [];
  }

  function Signing<W(==), T>(trusted: seq<W>, signers: set<W>, head: Head<T>): seq<Cosig<W, T>> {
    seq(|trusted|, i requires 0 <= i < |trusted| => Cosig(trusted[i], head, trusted[i] in signers))
  }

  lemma SigningIsGenuine<W(!new), T(!new)>(
    h: Combine<T>, honest: map<W, Life<T>>, trusted: seq<W>, signers: set<W>, head: Head<T>)
    requires forall w :: w in honest ==> IsHonest(honest[w])
    requires forall w :: w in honest && w in signers ==> CosignedBy(h, honest[w]) == [head]
    ensures Genuine(h, honest, Signing(trusted, signers, head))
  {
    hide CosignedBy, IsHonest;
  }

  lemma SignersAre<W(!new), T(!new)>(trusted: seq<W>, signers: set<W>, head: Head<T>)
    requires signers <= set w | w in trusted
    ensures Vouchers(head, Signing(trusted, signers, head), trusted) == signers
  {
    var cosigs := Signing(trusted, signers, head);
    forall w | w in signers
      ensures w in Vouchers(head, cosigs, trusted)
    {
      var i :| 0 <= i < |trusted| && trusted[i] == w;
      assert cosigs[i] == Cosig(w, head, true);
    }
  }
}
