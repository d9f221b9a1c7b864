/** resolveIssuerKey of pqkt.mjs: the verifying replay of an issuer's key events. The
    events of a log are filtered, sorted by their signed sequence number with a stable
    sort, and folded through UNSEEN -> ACTIVE -> REVOKED with an exact next-seq gate. */
module IssuerKeyLog {
  import opened Hashing

  datatype Op = Bind | Revoke | Unknown

  /** A log leaf. number is None when the seq field is not an integer, ts when it is not
      a finite number; body stands for the remaining signed fields. */
  datatype Event<K> = Event(
    isKeyEvent: bool, issuer: string, op: Op, pubkey: K, prev: Option<K>,
    number: Option<int>, ts: Option<int>, validFrom: Option<int>, body: int)

  /** What a caller fixes: the issuer, the verdicts of the signature checks under a key
      (authOk) and under the event's own new key (possOk), and the pin or TOFU policy. */
  datatype Policy<!K> = Policy(
    issuer: string, authOk: (Event<K>, K) -> bool, possOk: Event<K> -> bool, pinOk: K -> bool)

  datatype State<K> = Unseen | Active(key: K, at: int) | Revoked(at: int)

  function Seq<K>(st: State<K>): int {
    if st.Unseen? then -1 else st.at
  }

  predicate IsCandidate<K>(p: Policy<K>, e: Event<K>) {
    e.isKeyEvent && e.issuer == p.issuer && e.number.Some?
  }

  /** The guards of the three transitions. */
  predicate Accepts<K(==)>(p: Policy<K>, st: State<K>, e: Event<K>) {
    IsCandidate(p, e)
    && match st
       case Unseen =>
         e.op.Bind? && e.prev.None? && e.number.value == 0 && p.authOk(e, e.pubkey) && p.pinOk(e.pubkey)
       case Active(key, at) =>
         e.number.value == at + 1 && p.authOk(e, key)
         && ((e.op.Bind? && e.prev == Some(key) && p.possOk(e)) || (e.op.Revoke? && e.pubkey == key))
       case Revoked(_) => false
  }

  function Advance<K>(st: State<K>, e: Event<K>): State<K>
    requires e.number.Some?
  {
    if e.op.Revoke? then Revoked(e.number.value) else Active(e.pubkey, e.number.value)
  }

  /** The events a fold accepts, in order. */
  function Accepted<K(==)>(p: Policy<K>, st: State<K>, xs: seq<Event<K>>): seq<Event<K>>
    decreases |xs|
  {
    if xs == [] then []
    else if Accepts(p, st, xs[0]) then [xs[0]] + Accepted(p, Advance(st, xs[0]), xs[1..])
    else Accepted(p, st, xs[1..])
  }

  function Candidates<K>(p: Policy<K>, xs: seq<Event<K>>): (ys: seq<Event<K>>)
    ensures forall e :: e in ys ==> IsCandidate(p, e)
    decreases |xs|
  {
    if xs == [] then []
    else (if IsCandidate(p, xs[0]) then [xs[0]] else []) + Candidates(p, xs[1..])
  }

  /** The sort key. */
  function Number<K>(e: Event<K>): int {
    if e.number.Some? then e.number.value else -1
  }

  /** Stable insertion: e goes before the events that carry its number already. */
  function Insert<K>(e: Event<K>, xs: seq<Event<K>>): (ys: seq<Event<K>>)
    ensures |ys| == |xs| + 1
    decreases |xs|
  {
    if xs == [] || Number(e) <= Number(xs[0]) then [e] + xs else [xs[0]] + Insert(e, xs[1..])
  }

  /** Array.prototype.sort by number: stable. */
  function StableSort<K>(xs: seq<Event<K>>): (ys: seq<Event<K>>)
    ensures |ys| == |xs|
    decreases |xs|
  {
    if xs == [] then [] else Insert(xs[0], StableSort(xs[1..]))
  }

  ghost predicate Sorted<K>(xs: seq<Event<K>>)
    decreases |xs|
  {
    xs == [] || ((forall e :: e in xs ==> Number(xs[0]) <= Number(e)) && Sorted(xs[1..]))
  }

  lemma {:induction false} InsertKeeps<K>(e: Event<K>, xs: seq<Event<K>>)
    ensures multiset(Insert(e, xs)) == multiset{e} + multiset(xs)
    ensures Sorted(xs) ==> Sorted(Insert(e, xs))
    decreases |xs|
  {
    if xs == [] || Number(e) <= Number(xs[0]) {
      assert ([e] + xs)[1..] == xs;
    } else {
      var rest := Insert(e, xs[1..]);
      InsertKeeps(e, xs[1..]);
      assert xs == [xs[0]] + xs[1..];
      assert ([xs[0]] + rest)[1..] == rest;
      forall x | x in rest
        ensures x == e || x in xs[1..]
      {
        assert x in multiset(rest);
      }
    }
  }

  lemma {:induction false} SortIsSortedPermutation<K>(xs: seq<Event<K>>)
    ensures Sorted(StableSort(xs)) && multiset(StableSort(xs)) == multiset(xs)
    decreases |xs|
  {
    if xs == [] {
    } else {
      SortIsSortedPermutation(xs[1..]);
      InsertKeeps(xs[0], StableSort(xs[1..]));
      assert xs == [xs[0]] + xs[1..];
    }
  }

  /** The chain of accepted events the replay ends with. */
  function Chain<K(==)>(p: Policy<K>, log: seq<Event<K>>): seq<Event<K>> {
    Accepted(p, Unseen, StableSort(Candidates(p, log)))
  }

  function After<K>(st: State<K>, chain: seq<Event<K>>): State<K>
    decreases |chain|
  {
    if chain == [] || chain[0].number.None? then st else After(Advance(st, chain[0]), chain[1..])
  }

  // ----- the reference: repeatedly take the first event the current state accepts -----

  function First<K(==)>(p: Policy<K>, st: State<K>, xs: seq<Event<K>>): (c: Option<Event<K>>)
    ensures c.Some? ==> c.value in xs && Accepts(p, st, c.value)
    ensures c.None? ==> forall e :: e in xs ==> !Accepts(p, st, e)
    decreases |xs|
  {
    if xs == [] then None
    else if Accepts(p, st, xs[0]) then Some(xs[0])
    else
      assert xs == [xs[0]] + xs[1..];
      First(p, st, xs[1..])
  }

  function MaxNumber<K>(xs: seq<Event<K>>): (m: int)
    ensures m >= -1
    ensures forall e :: e in xs && e.number.Some? ==> e.number.value <= m
  {
    if xs == [] then -1
    else
      var rest := MaxNumber(xs[1..]);
      assert forall e :: e in xs ==> e == xs[0] || e in xs[1..];
      if xs[0].number.Some? && xs[0].number.value > rest then xs[0].number.value else rest
  }

  /** No sorting here: at each state, the first acceptable event of the log as it stands. */
  function Greedy<K(==)>(p: Policy<K>, st: State<K>, log: seq<Event<K>>): (chain: seq<Event<K>>)
    decreases MaxNumber(log) - Seq(st)
  {
    match First(p, st, log)
    case None => []
    case Some(c) => [c] + Greedy(p, Advance(st, c), log)
  }

  lemma {:induction false} NoneInReach<K>(p: Policy<K>, st: State<K>, xs: seq<Event<K>>)
    requires forall e :: e in xs ==> !Accepts(p, st, e)
    ensures Accepted(p, st, xs) == [] && First(p, st, xs) == None
    decreases |xs|
  {
    if xs == [] {
    } else {
      NoneInReach(p, st, xs[1..]);
    }
  }

  /** An event that is stale, or due and not acceptable, never matters again. */
  lemma {:induction false} GreedySkips<K>(p: Policy<K>, st: State<K>, x: Event<K>, ys: seq<Event<K>>)
    requires !Accepts(p, st, x)
    requires Number(x) <= Seq(st) + 1
    ensures Greedy(p, st, [x] + ys) == Greedy(p, st, ys)
    decreases MaxNumber(ys) - Seq(st)
  {
    assert ([x] + ys)[1..] == ys;
    if First(p, st, ys).None? {
    } else {
      GreedySkips(p, Advance(st, First(p, st, ys).value), x, ys);
    }
  }

  /** One pass over the sorted events finds what repeated search finds. */
  lemma {:induction false} FoldIsGreedy<K>(p: Policy<K>, st: State<K>, xs: seq<Event<K>>)
    requires Sorted(xs)
    ensures Accepted(p, st, xs) == Greedy(p, st, xs)
    decreases |xs|
  {
    if xs == [] {
    } else {
      var x, ys := xs[0], xs[1..];
      assert x in xs;
      assert xs == [x] + ys;
      if Accepts(p, st, x) {
        FoldIsGreedy(p, Advance(st, x), ys);
        GreedySkips(p, Advance(st, x), x, ys);
      } else if Number(x) <= Seq(st) + 1 {
        FoldIsGreedy(p, st, ys);
        GreedySkips(p, st, x, ys);
      } else {
        NoneInReach(p, st, xs);
      }
    }
  }

  lemma {:induction false} FirstOfInsert<K>(p: Policy<K>, st: State<K>, e: Event<K>, xs: seq<Event<K>>)
    requires Sorted(xs)
    ensures First(p, st, Insert(e, xs)) == if Accepts(p, st, e) then Some(e) else First(p, st, xs)
    decreases |xs|
  {
    if xs == [] || Number(e) <= Number(xs[0]) {
      assert ([e] + xs)[1..] == xs;
    } else {
      var rest := Insert(e, xs[1..]);
      assert ([xs[0]] + rest)[1..] == rest;
      FirstOfInsert(p, st, e, xs[1..]);
    }
  }

  lemma {:induction false} FirstOfSorted<K>(p: Policy<K>, st: State<K>, xs: seq<Event<K>>)
    ensures First(p, st, StableSort(Candidates(p, xs))) == First(p, st, xs)
    decreases |xs|
  {
    if xs == [] {
    } else {
      FirstOfSorted(p, st, xs[1..]);
      var rest := Candidates(p, xs[1..]);
      if IsCandidate(p, xs[0]) {
        assert Candidates(p, xs) == [xs[0]] + rest;
        assert ([xs[0]] + rest)[1..] == rest;
        SortIsSortedPermutation(rest);
        FirstOfInsert(p, st, xs[0], StableSort(rest));
      } else {
        assert Candidates(p, xs) == rest;
      }
    }
  }

  /** Logs with the same first acceptable event at every state replay to the same chain. */
  lemma {:induction false} SameFirstSameGreedy<K(!new)>(p: Policy<K>, st: State<K>, a: seq<Event<K>>, b: seq<Event<K>>)
    requires forall s :: First(p, s, a) == First(p, s, b)
    ensures Greedy(p, st, a) == Greedy(p, st, b)
    decreases MaxNumber(a) - Seq(st)
  {
    if First(p, st, a).None? {
    } else {
      SameFirstSameGreedy(p, Advance(st, First(p, st, a).value), a, b);
    }
  }

  /** Filtering, stable sorting and one pass refine the unsorted repeated search. */
  lemma ChainIsGreedy<K(!new)>(p: Policy<K>, log: seq<Event<K>>)
    ensures Chain(p, log) == Greedy(p, Unseen, log)
  {
    var sorted := StableSort(Candidates(p, log));
    SortIsSortedPermutation(Candidates(p, log));
    FoldIsGreedy(p, Unseen, sorted);
    forall st
      ensures First(p, st, sorted) == First(p, st, log)
    {
      FirstOfSorted(p, st, log);
    }
    SameFirstSameGreedy(p, Unseen, sorted, log);
  }

  // ----- what every run keeps -----

  /** Each event of the chain is acceptable where it stands: numbered by its position,
      authorised by the key before it, and nothing follows a revocation. */
  ghost predicate ValidChain<K(!new)>(p: Policy<K>, st: State<K>, chain: seq<Event<K>>)
    decreases |chain|
  {
    chain == [] || (Accepts(p, st, chain[0]) && ValidChain(p, Advance(st, chain[0]), chain[1..]))
  }

  lemma {:induction false} GreedyIsMaximalChain<K(!new)>(p: Policy<K>, st: State<K>, log: seq<Event<K>>)
    ensures var chain := Greedy(p, st, log);
            ValidChain(p, st, chain)
            && (forall e :: e in chain ==> e in log)
            && forall e :: e in log ==> !Accepts(p, After(st, chain), e)
    decreases MaxNumber(log) - Seq(st)
  {
    match First(p, st, log)
    case None =>
    case Some(c) =>
      GreedyIsMaximalChain(p, Advance(st, c), log);
      assert Greedy(p, st, log)[1..] == Greedy(p, Advance(st, c), log);
  }

  lemma {:induction false} ChainNumbers<K(!new)>(p: Policy<K>, st: State<K>, chain: seq<Event<K>>)
    requires ValidChain(p, st, chain)
    ensures forall i :: 0 <= i < |chain| ==> chain[i].number == Some(Seq(st) + 1 + i)
    ensures Seq(After(st, chain)) == Seq(st) + |chain|
    ensures forall i :: 0 <= i < |chain| && chain[i].op.Revoke? ==> i == |chain| - 1
    ensures After(st, chain).Revoked? <==> if chain == [] then st.Revoked? else chain[|chain| - 1].op.Revoke?
    decreases |chain|
  {
    if chain == [] {
    } else {
      var st' := Advance(st, chain[0]);
      ChainNumbers(p, st', chain[1..]);
      if chain[0].op.Revoke? {
        assert chain[1..] == [];
      }
      forall i | 1 <= i < |chain|
        ensures chain[i].number == Some(Seq(st) + 1 + i) && (chain[i].op.Revoke? ==> i == |chain| - 1)
      {
        assert chain[i] == chain[1..][i - 1];
      }
    }
  }

  /** In every replay of every log: accepted events carry 0, 1, 2, ...; the current seq is
      their number minus one; no event is accepted twice; a revocation is the last event
      accepted; and no event of the log is acceptable in the final state. */
  lemma ReplayInvariants<K(!new)>(p: Policy<K>, log: seq<Event<K>>)
    ensures var chain := Chain(p, log);
            (forall i :: 0 <= i < |chain| ==> chain[i] in log && chain[i].number == Some(i))
            && Seq(After(Unseen, chain)) == |chain| - 1
            && (forall i, j :: 0 <= i < j < |chain| ==> chain[i] != chain[j])
            && (forall i :: 0 <= i < |chain| && chain[i].op.Revoke? ==> i == |chain| - 1)
            && (forall e :: e in log ==> !Accepts(p, After(Unseen, chain), e))
  {
    ChainIsGreedy(p, log);
    GreedyIsMaximalChain(p, Unseen, log);
    ChainNumbers(p, Unseen, Chain(p, log));
    var chain := Chain(p, log);
    forall i | 0 <= i < |chain|
      ensures chain[i] in log
    {
      assert chain[i] in chain;
    }
  }

  /** A chain of custody, stated without the state machine: numbered 0, 1, 2, ..., from a
      pinned self-signed bootstrap, each later event authorised by the key before it, a new
      key also proving possession, and a revocation only of the current key and only last. */
  ghost predicate IsCustodyChain<K(!new)>(p: Policy<K>, chain: seq<Event<K>>) {
    forall i :: 0 <= i < |chain| ==> IsLink(p, chain, i)
  }

  ghost predicate IsLink<K(!new)>(p: Policy<K>, chain: seq<Event<K>>, i: nat)
    requires i < |chain|
  {
    var e := chain[i];
    e.isKeyEvent && e.issuer == p.issuer && e.number == Some(i)
    && if i == 0 then
         e.op.Bind? && e.prev.None? && p.authOk(e, e.pubkey) && p.pinOk(e.pubkey)
       else
         var key := chain[i - 1].pubkey;
         chain[i - 1].op.Bind? && p.authOk(e, key)
         && match e.op
            case Bind => e.prev == Some(key) && p.possOk(e)
            case Revoke => e.pubkey == key
            case Unknown => false
  }

  lemma {:induction false} ValidChainSnoc<K(!new)>(p: Policy<K>, st: State<K>, chain: seq<Event<K>>, e: Event<K>)
    ensures ValidChain(p, st, chain + [e]) <==> ValidChain(p, st, chain) && Accepts(p, After(st, chain), e)
    ensures ValidChain(p, st, chain + [e]) ==> After(st, chain + [e]) == Advance(After(st, chain), e)
    decreases |chain|
  {
    if chain == [] {
      assert chain + [e] == [e] && [e][1..] == [];
    } else {
      assert (chain + [e])[1..] == chain[1..] + [e];
      if Accepts(p, st, chain[0]) {
        ValidChainSnoc(p, Advance(st, chain[0]), chain[1..], e);
      }
    }
  }

  lemma CustodySnoc<K(!new)>(p: Policy<K>, chain: seq<Event<K>>, e: Event<K>)
    ensures IsCustodyChain(p, chain + [e]) <==> IsCustodyChain(p, chain) && IsLink(p, chain + [e], |chain|)
  {
    forall i | 0 <= i < |chain|
      ensures IsLink(p, chain + [e], i) <==> IsLink(p, chain, i)
    {
    }
  }

  /** The key state a custody chain leaves behind. */
  function Holding<K>(chain: seq<Event<K>>): State<K> {
    if chain == [] then Unseen
    else
      var e := chain[|chain| - 1];
      if e.op.Revoke? then Revoked(|chain| - 1) else Active(e.pubkey, |chain| - 1)
  }

  /** The state machine accepts exactly the chains of custody. */
  lemma {:induction false} AcceptedIffCustody<K(!new)>(p: Policy<K>, chain: seq<Event<K>>)
    ensures ValidChain(p, Unseen, chain) <==> IsCustodyChain(p, chain)
    ensures ValidChain(p, Unseen, chain) ==> After(Unseen, chain) == Holding(chain)
    decreases |chain|
  {
    if chain == [] {
    } else {
      var n := |chain| - 1;
      var init, e := chain[..n], chain[n];
      assert chain == init + [e];
      AcceptedIffCustody(p, init);
      ValidChainSnoc(p, Unseen, init, e);
      CustodySnoc(p, init, e);
      if IsCustodyChain(p, init) {
        assert n > 0 ==> IsLink(p, init, n - 1);
        assert Accepts(p, Holding(init), e) <==> IsLink(p, init + [e], n);
      }
    }
  }

  /** What the replay of any log resolves to: a chain of custody made of the log's events
      that none of them can extend. */
  lemma ReplayIsMaximalCustody<K(!new)>(p: Policy<K>, log: seq<Event<K>>)
    ensures var chain := Chain(p, log);
            IsCustodyChain(p, chain)
            && (forall e :: e in chain ==> e in log)
            && (forall e :: e in log ==> !IsCustodyChain(p, chain + [e]))
            && After(Unseen, chain) == Holding(chain)
  {
    var chain := Chain(p, log);
    ChainIsGreedy(p, log);
    GreedyIsMaximalChain(p, Unseen, log);
    AcceptedIffCustody(p, chain);
    forall e | e in log
      ensures !IsCustodyChain(p, chain + [e])
    {
      ValidChainSnoc(p, Unseen, chain, e);
      AcceptedIffCustody(p, chain + [e]);
    }
  }

  // ----- whose events count -----

  /** The key events of the policy's issuer, in order. */
  function Own<K>(p: Policy<K>, log: seq<Event<K>>): seq<Event<K>>
    decreases |log|
  {
    if log == [] then []
    else (if log[0].isKeyEvent && log[0].issuer == p.issuer then [log[0]] else []) + Own(p, log[1..])
  }

  lemma {:induction false} FirstOfOwn<K>(p: Policy<K>, st: State<K>, log: seq<Event<K>>)
    ensures First(p, st, Own(p, log)) == First(p, st, log)
    decreases |log|
  {
    if log == [] {
    } else {
      FirstOfOwn(p, st, log[1..]);
      if log[0].isKeyEvent && log[0].issuer == p.issuer {
        assert Own(p, log)[0] == log[0] && Own(p, log)[1..] == Own(p, log[1..]);
      } else {
        assert Own(p, log) == Own(p, log[1..]);
      }
    }
  }

  /** Other issuers' events, and leaves that are no key events, have no effect anywhere. */
  lemma OthersAreIgnored<K(!new)>(p: Policy<K>, log: seq<Event<K>>)
    ensures Chain(p, Own(p, log)) == Chain(p, log)
  {
    hide Chain;
    ChainIsGreedy(p, log);
    ChainIsGreedy(p, Own(p, log));
    forall st
      ensures First(p, st, Own(p, log)) == First(p, st, log)
    {
      FirstOfOwn(p, st, log);
    }
    SameFirstSameGreedy(p, Unseen, Own(p, log), log);
  }

  /** Only the issuer's own key events are ever accepted. */
  lemma ChainIsOwn<K(!new)>(p: Policy<K>, log: seq<Event<K>>)
    ensures forall e :: e in Chain(p, log) ==> e in log && e.isKeyEvent && e.issuer == p.issuer && e.number.Some?
  {
    hide Chain;
    ReplayIsMaximalCustody(p, log);
    var chain := Chain(p, log);
    forall e | e in chain
      ensures e.isKeyEvent && e.issuer == p.issuer && e.number.Some?
    {
      var i :| 0 <= i < |chain| && chain[i] == e;
      assert IsLink(p, chain, i);
    }
  }

  /** A first event of the issuer: numbered 0, self-signed, replacing nothing, with a key
      that is pinned or taken on first use. */
  ghost predicate IsBootstrap<K(!new)>(p: Policy<K>, e: Event<K>) {
    e.isKeyEvent && e.issuer == p.issuer && e.number == Some(0)
    && e.op.Bind? && e.prev.None? && p.authOk(e, e.pubkey) && p.pinOk(e.pubkey)
  }

  /** An issuer resolves to something exactly when the log holds a first event of it. */
  lemma BootstrapIff<K(!new)>(p: Policy<K>, log: seq<Event<K>>)
    ensures Chain(p, log) != [] <==> exists e :: e in log && IsBootstrap(p, e)
  {
    hide Chain;
    ReplayIsMaximalCustody(p, log);
    var chain := Chain(p, log);
    if chain != [] {
      assert IsLink(p, chain, 0);
      assert chain[0] in chain;
      assert IsBootstrap(p, chain[0]);
    }
    if e :| e in log && IsBootstrap(p, e) {
      assert IsCustodyChain(p, [] + [e]) by {
        assert IsLink(p, [] + [e], 0);
      }
    }
  }

  lemma {:induction false} FirstOfAppend<K>(p: Policy<K>, st: State<K>, a: seq<Event<K>>, b: seq<Event<K>>)
    ensures First(p, st, a + b) == if First(p, st, a).Some? then First(p, st, a) else First(p, st, b)
    decreases |a|
  {
    if a == [] {
      assert a + b == b;
    } else {
      assert (a + b)[1..] == a[1..] + b;
      FirstOfAppend(p, st, a[1..], b);
    }
  }

  lemma {:induction false} AppendExtends<K(!new)>(p: Policy<K>, st: State<K>, log: seq<Event<K>>, extra: seq<Event<K>>)
    ensures Greedy(p, st, log) <= Greedy(p, st, log + extra)
    ensures After(st, Greedy(p, st, log)).Revoked? ==> Greedy(p, st, log + extra) == Greedy(p, st, log)
    decreases MaxNumber(log) - Seq(st)
  {
    FirstOfAppend(p, st, log, extra);
    match First(p, st, log)
    case None =>
      if st.Revoked? {
        assert First(p, st, log + extra) == None;
      }
    case Some(c) =>
      AppendExtends(p, Advance(st, c), log, extra);
      assert Greedy(p, st, log)[1..] == Greedy(p, Advance(st, c), log);
  }

  /** Appending events to a log only extends what it resolved to, and nothing appended
      ever brings a revoked issuer back. */
  lemma AppendNeverRewrites<K(!new)>(p: Policy<K>, log: seq<Event<K>>, extra: seq<Event<K>>)
    ensures Chain(p, log) <= Chain(p, log + extra)
    ensures After(Unseen, Chain(p, log)).Revoked? ==> Chain(p, log + extra) == Chain(p, log)
  {
    ChainIsGreedy(p, log);
    ChainIsGreedy(p, log + extra);
    AppendExtends(p, Unseen, log, extra);
  }

  // ----- order independence -----

  /** Some key authorised the event. */
  ghost predicate IsSigned<K(!new)>(p: Policy<K>, e: Event<K>) {
    exists k :: p.authOk(e, k)
  }

  /** Along the replay, no second event is acceptable where one was accepted. */
  ghost predicate ConflictFree<K(!new)>(p: Policy<K>, st: State<K>, log: seq<Event<K>>)
    decreases MaxNumber(log) - Seq(st)
  {
    match First(p, st, log)
    case None => true
    case Some(c) => (forall e :: e in log && Accepts(p, st, e) ==> e == c) && ConflictFree(p, Advance(st, c), log)
  }

  ghost predicate SameSignedEvents<K(!new)>(p: Policy<K>, a: seq<Event<K>>, b: seq<Event<K>>) {
    forall e :: IsCandidate(p, e) && IsSigned(p, e) ==> (e in a <==> e in b)
  }

  lemma {:induction false} ConflictFreeSameChain<K(!new)>(p: Policy<K>, st: State<K>, a: seq<Event<K>>, b: seq<Event<K>>)
    requires ConflictFree(p, st, a) && SameSignedEvents(p, a, b)
    ensures Greedy(p, st, b) == Greedy(p, st, a)
    decreases MaxNumber(a) - Seq(st)
  {
    forall e | Accepts(p, st, e)
      ensures IsSigned(p, e)
    {
    }
    match First(p, st, a)
    case None =>
    case Some(c) =>
      ConflictFreeSameChain(p, Advance(st, c), a, b);
  }

  /** A conflict-free log resolves to the same chain in any order, with any repetitions and
      any unsigned or other issuers' events inserted anywhere. */
  lemma OrderAndJunkIrrelevant<K(!new)>(p: Policy<K>, a: seq<Event<K>>, b: seq<Event<K>>)
    requires ConflictFree(p, Unseen, a) && SameSignedEvents(p, a, b)
    ensures Chain(p, b) == Chain(p, a)
  {
    ChainIsGreedy(p, a);
    ChainIsGreedy(p, b);
    ConflictFreeSameChain(p, Unseen, a, b);
  }

  function ToFront<X>(xs: seq<X>, i: nat): (ys: seq<X>)
    requires i < |xs|
    ensures multiset(ys) == multiset(xs)
  {
    assert xs == xs[..i] + [xs[i]] + xs[i + 1..];
    [xs[i]] + xs[..i] + xs[i + 1..]
  }

  lemma FirstOfToFront<K>(p: Policy<K>, st: State<K>, log: seq<Event<K>>, i: nat)
    requires i < |log|
    ensures First(p, st, ToFront(log, i)) == if Accepts(p, st, log[i]) then Some(log[i]) else First(p, st, log)
  {
    var a, e, b := log[..i], log[i], log[i + 1..];
    assert ToFront(log, i) == [e] + (a + b);
    assert log == a + ([e] + b);
    FirstOfAppend(p, st, [e], a + b);
    FirstOfAppend(p, st, a, b);
    FirstOfAppend(p, st, a, [e] + b);
    FirstOfAppend(p, st, [e], b);
  }

  /** Where there is a conflict, moving the losing event to the front changes the chain. */
  lemma {:induction false} ConflictFlips<K(!new)>(p: Policy<K>, st: State<K>, log: seq<Event<K>>) returns (i: nat)
    requires !ConflictFree(p, st, log)
    ensures i < |log| && log[i].number.Some? && log[i].number.value > Seq(st)
    ensures Greedy(p, st, ToFront(log, i)) != Greedy(p, st, log)
    decreases MaxNumber(log) - Seq(st)
  {
    var c := First(p, st, log).value;
    if e :| e in log && Accepts(p, st, e) && e != c {
      i :| 0 <= i < |log| && log[i] == e;
      FirstOfToFront(p, st, log, i);
      assert Greedy(p, st, ToFront(log, i))[0] == e && Greedy(p, st, log)[0] == c;
    } else {
      i := ConflictFlips(p, Advance(st, c), log);
      FirstOfToFront(p, st, log, i);
      assert Greedy(p, st, log)[1..] == Greedy(p, Advance(st, c), log);
      assert Greedy(p, st, ToFront(log, i))[1..] == Greedy(p, Advance(st, c), ToFront(log, i));
    }
  }

  /** Order independence, exactly: a log resolves to one chain under every permutation if
      and only if no step of its replay had two different acceptable events. */
  lemma OrderIrrelevantIffConflictFree<K(!new)>(p: Policy<K>, log: seq<Event<K>>)
    ensures ConflictFree(p, Unseen, log)
            <==> forall b :: multiset(b) == multiset(log) ==> Chain(p, b) == Chain(p, log)
  {
    if ConflictFree(p, Unseen, log) {
      forall b | multiset(b) == multiset(log)
        ensures Chain(p, b) == Chain(p, log)
      {
        forall e
          ensures e in b <==> e in log
        {
          assert e in multiset(b) <==> e in multiset(log);
        }
        OrderAndJunkIrrelevant(p, log, b);
      }
    } else {
      var i := ConflictFlips(p, Unseen, log);
      ChainIsGreedy(p, log);
      ChainIsGreedy(p, ToFront(log, i));
    }
  }

  /** Distinct numbers on the issuer's signed events rule conflicts out. */
  lemma {:induction false} DistinctNumbersSuffice<K(!new)>(p: Policy<K>, st: State<K>, log: seq<Event<K>>)
    requires forall e, f ::
               (e in log && f in log && IsCandidate(p, e) && IsCandidate(p, f)
                && IsSigned(p, e) && IsSigned(p, f) && e.number == f.number)
               ==> e == f
    ensures ConflictFree(p, st, log)
    decreases MaxNumber(log) - Seq(st)
  {
    if First(p, st, log).None? {
    } else {
      var c := First(p, st, log).value;
      forall e | e in log && Accepts(p, st, e)
        ensures e == c
      {
        assert IsSigned(p, e) && IsSigned(p, c);
      }
      DistinctNumbersSuffice(p, Advance(st, c), log);
    }
  }

  // ----- all that reordering can do -----

  /** A chain of custody of the log's events that none of them extends. */
  ghost predicate IsMaximalCustody<K(!new)>(p: Policy<K>, log: seq<Event<K>>, chain: seq<Event<K>>) {
    IsCustodyChain(p, chain)
    && (forall e :: e in chain ==> e in log)
    && forall e :: e in log ==> !IsCustodyChain(p, chain + [e])
  }

  lemma FirstAfterPast<K>(p: Policy<K>, st: State<K>, done: seq<Event<K>>, e: Event<K>, rest: seq<Event<K>>)
    requires Accepts(p, st, e)
    requires forall x :: x in done ==> Number(x) <= Seq(st)
    ensures First(p, st, done + ([e] + rest)) == Some(e)
  {
    FirstOfAppend(p, st, done, [e] + rest);
  }

  /** A chain placed before everything but past events is the one taken. */
  lemma {:induction false} GreedyTakes<K(!new)>(
    p: Policy<K>, st: State<K>, done: seq<Event<K>>, chain: seq<Event<K>>, rest: seq<Event<K>>)
    requires ValidChain(p, st, chain)
    requires forall e :: e in done ==> Number(e) <= Seq(st)
    requires forall e :: e in done + chain + rest ==> !Accepts(p, After(st, chain), e)
    ensures Greedy(p, st, done + chain + rest) == chain
    decreases |chain|
  {
    hide First;
    var log := done + chain + rest;
    if chain == [] {
      assert After(st, chain) == st;
      assert First(p, st, log) == None;
    } else {
      var e := chain[0];
      FirstAfterPast(p, st, done, e, chain[1..] + rest);
      assert log == done + ([e] + (chain[1..] + rest));
      assert log == (done + [e]) + chain[1..] + rest;
      GreedyTakes(p, Advance(st, e), done + [e], chain[1..], rest);
    }
  }

  lemma Remove<X>(xs: seq<X>, x: X) returns (ys: seq<X>)
    requires x in xs
    ensures multiset(xs) == multiset(ys) + multiset{x}
  {
    var i :| 0 <= i < |xs| && xs[i] == x;
    ys := xs[..i] + xs[i + 1..];
    assert xs == xs[..i] + [xs[i]] + xs[i + 1..];
  }

  /** The log without the events of a chain that names each of them once. */
  lemma {:induction false} Extract<X>(log: seq<X>, chain: seq<X>) returns (rest: seq<X>)
    requires forall i, j :: 0 <= i < j < |chain| ==> chain[i] != chain[j]
    requires forall e :: e in chain ==> e in log
    ensures multiset(chain + rest) == multiset(log)
    decreases |chain|
  {
    if chain == [] {
      rest := log;
      assert chain + rest == log;
    } else {
      var x, tail := chain[0], chain[1..];
      var others := Remove(log, x);
      forall e | e in tail
        ensures e in others
      {
        var j :| 0 <= j < |tail| && tail[j] == e;
        assert e == chain[j + 1] && e in chain && e in log;
        assert e in multiset(log);
        assert e in multiset(others);
      }
      rest := Extract(others, tail);
      assert chain + rest == [x] + (tail + rest);
    }
  }

  lemma SameElements<X>(a: seq<X>, b: seq<X>)
    requires multiset(a) == multiset(b)
    ensures forall e :: e in a <==> e in b
  {
    forall e
      ensures e in a <==> e in b
    {
      assert e in multiset(a) <==> e in multiset(b);
    }
  }

  lemma CustodyIsTaken<K(!new)>(p: Policy<K>, log: seq<Event<K>>, chain: seq<Event<K>>) returns (b: seq<Event<K>>)
    requires IsMaximalCustody(p, log, chain)
    ensures multiset(b) == multiset(log) && Chain(p, b) == chain
  {
    hide Chain, IsCustodyChain, Accepts;
    AcceptedIffCustody(p, chain);
    ChainNumbers(p, Unseen, chain);
    assert forall i, j :: 0 <= i < j < |chain| ==> chain[i].number != chain[j].number;
    var rest := Extract(log, chain);
    b := chain + rest;
    SameElements(b, log);
    forall e | e in b
      ensures !Accepts(p, After(Unseen, chain), e)
    {
      ValidChainSnoc(p, Unseen, chain, e);
      AcceptedIffCustody(p, chain + [e]);
    }
    assert [] + chain + rest == b;
    GreedyTakes(p, Unseen, [], chain, rest);
    ChainIsGreedy(p, b);
  }

  /** What the order of a log can decide, exactly: some permutation resolves to a chain if
      and only if it is a chain of custody of the log's events that none of them extends. */
  lemma ReorderingsAreMaximalCustody<K(!new)>(p: Policy<K>, log: seq<Event<K>>, chain: seq<Event<K>>)
    ensures (exists b :: multiset(b) == multiset(log) && Chain(p, b) == chain) <==> IsMaximalCustody(p, log, chain)
  {
    hide Chain, IsCustodyChain;
    if b :| multiset(b) == multiset(log) && Chain(p, b) == chain {
      ReplayIsMaximalCustody(p, b);
      SameElements(b, log);
    }
    if IsMaximalCustody(p, log, chain) {
      var b := CustodyIsTaken(p, log, chain);
    }
  }

  /** The same for what is returned: every permutation resolves to the same key, now or at a
      point in time, if and only if all maximal chains of custody leave that key. */
  lemma KeyIsCanonicalIff<K(!new)>(p: Policy<K>, log: seq<Event<K>>, at: Time)
    ensures (forall b :: multiset(b) == multiset(log) ==> Resolved(Chain(p, b), at) == Resolved(Chain(p, log), at))
            <==> forall c, d :: IsMaximalCustody(p, log, c) && IsMaximalCustody(p, log, d) ==> Resolved(c, at) == Resolved(d, at)
  {
    hide Chain, Resolved, IsMaximalCustody;
    forall c
      ensures IsMaximalCustody(p, log, c) <==> exists b :: multiset(b) == multiset(log) && Chain(p, b) == c
    {
      ReorderingsAreMaximalCustody(p, log, c);
    }
    assert multiset(log) == multiset(log);
  }

  // ----- a conflict in action -----

  /** One key bootstraps, then signs both a rotation and a revocation numbered 1. The log
      resolves to the new key or to nothing, by the order its operator chose: the signed
      numbers alone do not make the replay canonical. */
  lemma RevocationCanBeOutrun()
    ensures var p := Policy("A", (e: Event<int>, k: int) => true, (e: Event<int>) => true, (k: int) => true);
            var boot := Event(true, "A", Bind, 7, None, Some(0), None, None, 0);
            var rotate := Event(true, "A", Bind, 8, Some(7), Some(1), None, None, 0);
            var revoke := Event(true, "A", Revoke, 7, Some(7), Some(1), None, None, 0);
            Chain(p, [boot, revoke, rotate]) == [boot, revoke]
            && Chain(p, [boot, rotate, revoke]) == [boot, rotate]
  {
    var p := Policy("A", (e: Event<int>, k: int) => true, (e: Event<int>) => true, (k: int) => true);
    var boot := Event(true, "A", Bind, 7, None, Some(0), None, None, 0);
    var rotate := Event(true, "A", Bind, 8, Some(7), Some(1), None, None, 0);
    var revoke := Event(true, "A", Revoke, 7, Some(7), Some(1), None, None, 0);
    hide Chain, Greedy;
    FirstComeFirstServed(p, boot, revoke, rotate);
    FirstComeFirstServed(p, boot, rotate, revoke);
  }

  /** After a bootstrap, the first of two acceptable events shuts the other one out. */
  lemma FirstComeFirstServed<K(!new)>(p: Policy<K>, boot: Event<K>, one: Event<K>, other: Event<K>)
    requires Accepts(p, Unseen, boot) && Number(one) == Number(other) == 1
    requires Accepts(p, Advance(Unseen, boot), one)
    ensures Chain(p, [boot, one, other]) == [boot, one]
  {
    hide Chain;
    ChainIsGreedy(p, [boot, one, other]);
    assert [] + [boot, one] + [other] == [boot, one, other];
    assert [boot, one][1..] == [one] && [one][1..] == [];
    assert ValidChain(p, Advance(Unseen, boot), [one]);
    assert ValidChain(p, Unseen, [boot, one]);
    ChainNumbers(p, Unseen, [boot, one]);
    assert forall e :: e in [] + [boot, one] + [other] ==> Number(e) <= 1;
    GreedyTakes(p, Unseen, [], [boot, one], [other]);
  }

  const ANY_SIGNER: Policy<int> := Policy("A", (e, k) => true, e => true, k => true)
  const BOOT := Event(true, "A", Bind, 7, None, Some(0), None, None, 0)
  const ONE := Event(true, "A", Bind, 8, Some(7), Some(1), None, None, 1)
  const OTHER := Event(true, "A", Bind, 8, Some(7), Some(1), None, None, 2)
  const TWO := Event(true, "A", Bind, 9, Some(8), Some(2), None, None, 0)

  /** A conflict: two rotations numbered 1 to one key, and a rotation 2 from it. */
  const CONFLICTED: seq<Event<int>> := [BOOT, ONE, OTHER, TWO]

  lemma RotationsConflict()
    ensures !ConflictFree(ANY_SIGNER, Unseen, CONFLICTED)
  {
    assert First(ANY_SIGNER, Unseen, CONFLICTED) == Some(BOOT);
    hide First;
    assert ONE in CONFLICTED && OTHER in CONFLICTED;
    assert Accepts(ANY_SIGNER, Active(7, 0), ONE) && Accepts(ANY_SIGNER, Active(7, 0), OTHER);
    assert !ConflictFree(ANY_SIGNER, Active(7, 0), CONFLICTED);
  }

  /** The key survives it: which of the two rotations the replay takes depends on the order,
      what it returns does not. The condition on chains is stronger than the one on keys. */
  lemma {:induction false} ConflictMayBeHarmless(b: seq<Event<int>>)
    requires multiset(b) == multiset(CONFLICTED)
    ensures Resolved(Chain(ANY_SIGNER, b), Forever) == Some(TWO)
  {
    hide Chain, Holder;
    ReplayIsMaximalCustody(ANY_SIGNER, b);
    SameElements(b, CONFLICTED);
    OnlyEnding(Chain(ANY_SIGNER, b));
  }

  lemma OnlyEnding(c: seq<Event<int>>)
    requires IsMaximalCustody(ANY_SIGNER, CONFLICTED, c)
    ensures Holder(c) == Some(TWO)
  {
    var log := CONFLICTED;
    assert BOOT in log && ONE in log && TWO in log;
    CustodySnoc(ANY_SIGNER, c, BOOT);
    CustodySnoc(ANY_SIGNER, c, ONE);
    CustodySnoc(ANY_SIGNER, c, TWO);
    forall i | 0 <= i < |c|
      ensures IsLink(ANY_SIGNER, c, i) && c[i] in log
    {
      assert c[i] in c;
    }
    hide IsMaximalCustody, IsCustodyChain;
    LinksToTwo(c);
  }

  lemma LinksToTwo(c: seq<Event<int>>)
    requires forall i :: 0 <= i < |c| ==> c[i] in CONFLICTED && c[i].number == Some(i)
    requires !IsLink(ANY_SIGNER, c + [BOOT], |c|) && !IsLink(ANY_SIGNER, c + [ONE], |c|) && !IsLink(ANY_SIGNER, c + [TWO], |c|)
    ensures Holder(c) == Some(TWO)
  {
    assert forall e :: e in CONFLICTED ==> e.number != Some(3);
    assert |c| > 0 ==> c[0] == BOOT;
    assert |c| > 1 ==> c[1] == ONE || c[1] == OTHER;
    assert |c| > 2 ==> c[2] == TWO;
  }

  // ----- the resolved key, now or at a point in time -----

  /** The binding in force after a chain: none before the bootstrap or after a revocation. */
  function Holder<K>(chain: seq<Event<K>>): Option<Event<K>> {
    if chain == [] || chain[|chain| - 1].op.Revoke? then None else Some(chain[|chain| - 1])
  }

  ghost predicate AllTimed<K(!new)>(chain: seq<Event<K>>) {
    forall e :: e in chain ==> e.ts.Some?
  }

  /** How many leading events had all been issued by time t. */
  function Issued<K>(chain: seq<Event<K>>, t: int): (n: nat)
    ensures n <= |chain|
    decreases |chain|
  {
    if chain != [] && chain[0].ts.Some? && chain[0].ts.value <= t then 1 + Issued(chain[1..], t) else 0
  }

  /** The key in force at time t: that of the events issued by then, unless it is not yet
      valid or some event of the chain has no time. */
  ghost function HolderAt<K(!new)>(chain: seq<Event<K>>, t: int): Option<Event<K>> {
    if !AllTimed(chain) then None
    else
      var best := Holder(chain[..Issued(chain, t)]);
      if best.Some? && best.value.validFrom.Some? && t < best.value.validFrom.value then None else best
  }

  /** The first n events of the chain had been issued by t, and the next one had not. */
  ghost predicate IssuedBy<K(!new)>(chain: seq<Event<K>>, n: nat, t: int)
    requires n <= |chain| && forall i :: 0 <= i < |chain| ==> chain[i].ts.Some?
  {
    (forall i :: 0 <= i < n ==> chain[i].ts.value <= t) && (n < |chain| ==> chain[n].ts.value > t)
  }

  lemma IssuedByIff<K(!new)>(chain: seq<Event<K>>, n: nat, t: int)
    requires n <= |chain| && forall i :: 0 <= i < |chain| ==> chain[i].ts.Some?
    ensures IssuedBy(chain, n, t) <==> n == Issued(chain, t)
  {
    hide Issued;
    IssuedIsPrefix(chain, t);
  }

  /** When a key is in force at t, from the events of the chain alone: they all carry a
      time, it was bound by the last of those issued before any later than t, and its
      validity has begun. */
  lemma HolderAtIff<K(!new)>(chain: seq<Event<K>>, t: int, e: Event<K>)
    ensures HolderAt(chain, t) == Some(e)
            <==> (forall i :: 0 <= i < |chain| ==> chain[i].ts.Some?)
                 && !e.op.Revoke? && (e.validFrom.Some? ==> e.validFrom.value <= t)
                 && exists n :: 1 <= n <= |chain| && IssuedBy(chain, n, t) && chain[n - 1] == e
  {
    hide Issued, IssuedBy;
    assert AllTimed(chain) <==> forall i :: 0 <= i < |chain| ==> chain[i].ts.Some?;
    if AllTimed(chain) {
      var m := Issued(chain, t);
      forall n: nat | n <= |chain|
        ensures IssuedBy(chain, n, t) <==> n == m
      {
        IssuedByIff(chain, n, t);
      }
      assert IssuedBy(chain, m, t);
      assert Holder(chain[..m]) == if m == 0 || chain[m - 1].op.Revoke? then None else Some(chain[m - 1]);
      if HolderAt(chain, t) == Some(e) {
        assert 1 <= m <= |chain| && chain[m - 1] == e;
      }
    }
  }

  /** The current key: the last event of the chain, if that binds one. */
  lemma CurrentKeyIff<K(!new)>(p: Policy<K>, log: seq<Event<K>>, e: Event<K>)
    ensures var chain := Chain(p, log);
            Resolved(chain, Forever) == Some(e)
            <==> chain != [] && chain[|chain| - 1] == e && e.op.Bind? && Holding(chain) == Active(e.pubkey, |chain| - 1)
  {
    hide Chain;
    var chain := Chain(p, log);
    ReplayIsMaximalCustody(p, log);
    if chain != [] {
      assert IsLink(p, chain, |chain| - 1);
    }
  }

  datatype Time = Forever | At(t: int) | Malformed

  ghost function Resolved<K(!new)>(chain: seq<Event<K>>, at: Time): Option<Event<K>> {
    match at
    case Forever => Holder(chain)
    case At(t) => HolderAt(chain, t)
    case Malformed => None
  }

  /** A transition of the timeline: its effective time, None for minus infinity, and the
      binding it left. */
  datatype Mark<K> = Mark(effTs: Option<int>, snap: Option<Event<K>>)

  function Later(a: Option<int>, b: Option<int>): Option<int> {
    if a.None? then b else if b.None? then a else if a.value <= b.value then b else a
  }

  ghost function EffTs<K>(chain: seq<Event<K>>): Option<int>
    decreases |chain|
  {
    if chain == [] then None else Later(EffTs(chain[..|chain| - 1]), chain[|chain| - 1].ts)
  }

  ghost function Timeline<K>(chain: seq<Event<K>>): (marks: seq<Mark<K>>)
    ensures |marks| == |chain|
    decreases |chain|
  {
    if chain == [] then []
    else Timeline(chain[..|chain| - 1]) + [Mark(EffTs(chain), Holder(chain))]
  }

  lemma {:induction false} TimelineAt<K>(chain: seq<Event<K>>, i: nat)
    requires i < |chain|
    ensures Timeline(chain)[i] == Mark(EffTs(chain[..i + 1]), Holder(chain[..i + 1]))
    decreases |chain|
  {
    var n := |chain| - 1;
    if i < n {
      TimelineAt(chain[..n], i);
      assert chain[..n][..i + 1] == chain[..i + 1];
    } else {
      assert chain[..i + 1] == chain;
    }
  }

  lemma {:induction false} EffTsIsLatest<K(!new)>(chain: seq<Event<K>>, t: int)
    requires AllTimed(chain) && chain != []
    ensures EffTs(chain).Some?
    ensures EffTs(chain).value <= t <==> forall i :: 0 <= i < |chain| ==> chain[i].ts.value <= t
    decreases |chain|
  {
    var init := chain[..|chain| - 1];
    assert forall e :: e in init ==> e in chain;
    if init == [] {
    } else {
      EffTsIsLatest(init, t);
    }
  }

  lemma {:induction false} IssuedIsPrefix<K>(chain: seq<Event<K>>, t: int)
    ensures var n := Issued(chain, t);
            (forall i :: 0 <= i < n ==> chain[i].ts.Some? && chain[i].ts.value <= t)
            && (n < |chain| ==> chain[n].ts.None? || chain[n].ts.value > t)
    decreases |chain|
  {
    if chain != [] && Issued(chain, t) > 0 {
      IssuedIsPrefix(chain[1..], t);
      forall i | 1 <= i < Issued(chain, t)
        ensures chain[i].ts.Some? && chain[i].ts.value <= t
      {
        assert chain[i] == chain[1..][i - 1];
      }
    }
  }

  /** A mark is in the past of t exactly when its event is among those issued by t. */
  lemma MarkInPast<K(!new)>(chain: seq<Event<K>>, t: int, i: nat)
    requires AllTimed(chain) && i < |chain|
    ensures var mark := Timeline(chain)[i];
            mark == Mark(EffTs(chain[..i + 1]), Holder(chain[..i + 1]))
            && mark.effTs.Some? && (mark.effTs.value <= t <==> i < Issued(chain, t))
  {
    var past := chain[..i + 1];
    TimelineAt(chain, i);
    assert forall e :: e in past ==> e in chain;
    EffTsIsLatest(past, t);
    IssuedIsPrefix(chain, t);
    if i >= Issued(chain, t) {
      var n := Issued(chain, t);
      assert past[n] == chain[n] && chain[n] in chain;
    }
  }

  lemma Grow<K(!new)>(chain: seq<Event<K>>, e: Event<K>)
    requires e.op.Bind? || e.op.Revoke?
    ensures var grown := chain + [e];
            Holder(grown) == (if e.op.Bind? then Some(e) else None)
            && EffTs(grown) == Later(EffTs(chain), e.ts)
            && Timeline(grown) == Timeline(chain) + [Mark(EffTs(grown), Holder(grown))]
            && AllTimed(grown) == (AllTimed(chain) && e.ts.Some?)
  {
    var grown := chain + [e];
    assert grown[..|chain|] == chain;
    assert e in grown;
  }

  lemma FoldStep<K>(p: Policy<K>, st: State<K>, chain: seq<Event<K>>, xs: seq<Event<K>>)
    requires xs != []
    ensures chain + Accepted(p, st, xs)
            == if Accepts(p, st, xs[0]) then (chain + [xs[0]]) + Accepted(p, Advance(st, xs[0]), xs[1..])
               else chain + Accepted(p, st, xs[1..])
  {
  }

  lemma FoldEnds<K>(p: Policy<K>, st: State<K>, chain: seq<Event<K>>)
    ensures chain + Accepted(p, st, []) == chain
  {
  }

  lemma NothingYet<K(!new)>()
    ensures Holder<K>([]) == None && Timeline<K>([]) == [] && EffTs<K>([]) == None && AllTimed<K>([])
  {
  }

  /** resolveIssuerKey. */
  method ResolveIssuerKey<K(==,!new)>(p: Policy<K>, events: seq<Event<K>>, at: Time) returns (cur: Option<Event<K>>)
    ensures cur == Resolved(Chain(p, events), at)
    ensures at.Malformed? ==> cur == None
  {
    var ev := StableSort(Candidates(p, events));
    var state: State<K> := Unseen;
    cur := None;
    var timeline: seq<Mark<K>> := [];
    var effTs: Option<int> := None;
    var allFiniteTs := true;
    ghost var chain: seq<Event<K>> := [];
    hide Accepted, Holder, Timeline, EffTs, AllTimed, StableSort, Candidates, HolderAt;
    NothingYet<K>();
    for i := 0 to |ev|
      invariant chain + Accepted(p, state, ev[i..]) == Chain(p, events)
      invariant cur == Holder(chain)
      invariant state.Unseen? <==> chain == []
      invariant state.Active? ==> chain != [] && chain[|chain| - 1].op.Bind? && chain[|chain| - 1].pubkey == state.key
      invariant timeline == Timeline(chain) && effTs == EffTs(chain)
      invariant allFiniteTs == AllTimed(chain)
    {
      var e := ev[i];
      CandidatesOnly(p, events, e);
      FoldStep(p, state, chain, ev[i..]);
      assert ev[i..][1..] == ev[i + 1..];
      var accept := false;
      if e.op.Bind? {
        if state.Unseen? {
          accept := e.prev.None? && e.number.value == 0 && p.authOk(e, e.pubkey) && p.pinOk(e.pubkey);
        } else if state.Active? {
          accept := e.prev == Some(state.key) && e.number.value == state.at + 1
                    && p.authOk(e, state.key) && p.possOk(e);
        }
      } else if e.op.Revoke? {
        accept := state.Active? && e.pubkey == state.key && e.number.value == state.at + 1 && p.authOk(e, state.key);
      }
      assert accept == Accepts(p, state, e);
      if accept {
        Grow(chain, e);
        chain := chain + [e];
        state := if e.op.Bind? then Active(e.pubkey, e.number.value) else Revoked(e.number.value);
        cur := if e.op.Bind? then Some(e) else None;
        if e.ts.None? {
          allFiniteTs := false;
        }
        effTs := Later(effTs, e.ts);
        timeline := timeline + [Mark(effTs, cur)];
      }
    }
    FoldEnds(p, state, chain);
    match at {
      case Forever =>
      case Malformed =>
        cur := None;
      case At(t) =>
        cur := SnapshotAt(chain, timeline, allFiniteTs, t);
    }
  }

  lemma CandidatesOnly<K>(p: Policy<K>, events: seq<Event<K>>, e: Event<K>)
    requires e in StableSort(Candidates(p, events))
    ensures IsCandidate(p, e)
  {
    SortIsSortedPermutation(Candidates(p, events));
    assert e in multiset(Candidates(p, events));
  }

  /** The point-in-time branch: the last mark of the timeline not after t. */
  method SnapshotAt<K(!new)>(ghost chain: seq<Event<K>>, timeline: seq<Mark<K>>, allFiniteTs: bool, t: int)
    returns (snap: Option<Event<K>>)
    requires timeline == Timeline(chain) && allFiniteTs == AllTimed(chain)
    ensures snap == HolderAt(chain, t)
  {
    if !allFiniteTs {
      return None;
    }
    snap := None;
    ghost var n := Issued(chain, t);
    for i := 0 to |timeline|
      invariant snap == Holder(chain[..if i < n then i else n])
    {
      MarkInPast(chain, t, i);
      var m := timeline[i];
      if m.effTs.None? || m.effTs.value <= t {
        snap := m.snap;
      }
    }
    if snap.Some? && snap.value.validFrom.Some? && t < snap.value.validFrom.value {
      snap := None;
    }
  }

  lemma {:induction false} IssuedGrows<K>(chain: seq<Event<K>>, t: int, u: int)
    requires t <= u
    ensures Issued(chain, t) <= Issued(chain, u)
    decreases |chain|
  {
    if chain == [] {
    } else {
      IssuedGrows(chain[1..], t, u);
    }
  }

  /** A revocation in force at one time is in force at every later time. */
  lemma RevocationHoldsInTime<K(!new)>(p: Policy<K>, log: seq<Event<K>>, t: int, u: int)
    requires var chain := Chain(p, log);
             var n := Issued(chain, t);
             n > 0 && chain[n - 1].op.Revoke?
    requires t <= u
    ensures Resolved(Chain(p, log), At(u)) == None
    ensures Resolved(Chain(p, log), Forever) == None
  {
    var chain := Chain(p, log);
    ReplayInvariants(p, log);
    IssuedGrows(chain, t, u);
    assert chain[..|chain|] == chain;
  }

  lemma {:induction false} IssuedOfAppend<K>(c: seq<Event<K>>, s: seq<Event<K>>, t: int)
    ensures Issued(c + s, t) == if Issued(c, t) < |c| then Issued(c, t) else |c| + Issued(s, t)
    decreases |c|
  {
    if c == [] {
      assert c + s == s;
    } else {
      assert (c + s)[1..] == c[1..] + s;
      IssuedOfAppend(c[1..], s, t);
    }
  }

  lemma AllTimedOfAppend<K(!new)>(c: seq<Event<K>>, s: seq<Event<K>>)
    ensures AllTimed(c + s) <==> AllTimed(c) && AllTimed(s)
  {
    assert forall e :: e in c + s <==> e in c || e in s;
  }

  lemma HolderOfAppend<K>(c: seq<Event<K>>, s: seq<Event<K>>, n: nat)
    requires n <= |c + s|
    ensures Holder((c + s)[..n]) == if n <= |c| then Holder(c[..n]) else Holder(s[..n - |c|])
  {
    if n <= |c| {
      assert (c + s)[..n] == c[..n];
    } else {
      assert (c + s)[..n][n - 1] == s[..n - |c|][n - |c| - 1];
    }
  }

  /** The key at time t of a chain that has grown. */
  lemma HolderAtOfAppend<K(!new)>(c: seq<Event<K>>, s: seq<Event<K>>, t: int)
    ensures HolderAt(c + s, t)
            == if !AllTimed(c) || !AllTimed(s) then None
               else if Issued(c, t) < |c| || Issued(s, t) == 0 then HolderAt(c, t)
               else HolderAt(s, t)
  {
    hide Issued, AllTimed, Holder;
    AllTimedOfAppend(c, s);
    IssuedOfAppend(c, s, t);
    HolderOfAppend(c, s, Issued(c + s, t));
  }

  /** When an append changes the past, exactly. With s the events it adds to the chain: a
      key that was in force at t stays so unless s holds an event without a time, or every
      earlier event had been issued by t and so had the first of s. Where no key was in
      force at t there is one afterwards only if s by itself gives one. */
  lemma AnswerSurvivesIff<K(!new)>(p: Policy<K>, log: seq<Event<K>>, extra: seq<Event<K>>, t: int)
    ensures var c := Chain(p, log);
            c <= Chain(p, log + extra)
            && var s := Chain(p, log + extra)[|c|..];
               HolderAt(c + s, t) == HolderAt(c, t)
               <==> if HolderAt(c, t).Some? then AllTimed(s) && (Issued(c, t) < |c| || Issued(s, t) == 0)
                    else !AllTimed(c) || Issued(c, t) < |c| || HolderAt(s, t) == None
  {
    hide Chain, Issued, AllTimed;
    AppendNeverRewrites(p, log, extra);
    ReplayInvariants(p, log + extra);
    var c, grown := Chain(p, log), Chain(p, log + extra);
    var s := grown[|c|..];
    assert grown == c + s;
    HolderAtOfAppend(c, s, t);
    HolderIsFrom(c, t);
    HolderIsFrom(s, t);
    assert Issued(s, t) == 0 ==> HolderAt(s, t) == None;
  }

  lemma HolderIsFrom<K(!new)>(c: seq<Event<K>>, t: int)
    ensures HolderAt(c, t).Some? ==> Issued(c, t) > 0 && HolderAt(c, t).value == c[Issued(c, t) - 1]
  {
  }

  lemma GrowthIsNew<K(!new)>(p: Policy<K>, log: seq<Event<K>>, extra: seq<Event<K>>)
    ensures var c, grown := Chain(p, log), Chain(p, log + extra);
            c <= grown && (c < grown ==> grown[|c|] in extra)
            && forall e :: e in grown ==> e in log || e in extra
  {
    hide Chain, IsCustodyChain;
    AppendNeverRewrites(p, log, extra);
    ReplayIsMaximalCustody(p, log);
    ReplayIsMaximalCustody(p, log + extra);
    var c, grown := Chain(p, log), Chain(p, log + extra);
    if c < grown {
      CustodyPrefix(p, grown, |c| + 1);
      assert grown[..|c| + 1] == c + [grown[|c|]];
      assert grown[|c|] in grown;
    }
  }

  /** So a timed log keeps every answer about a time before its appended events. */
  lemma LaterEventsKeepThePast<K(!new)>(p: Policy<K>, log: seq<Event<K>>, extra: seq<Event<K>>, t: int)
    requires AllTimed(log) && AllTimed(extra) && forall e :: e in extra ==> e.ts.value > t
    ensures Resolved(Chain(p, log + extra), At(t)) == Resolved(Chain(p, log), At(t))
  {
    hide Chain, HolderAt;
    GrowthIsNew(p, log, extra);
    var c, grown := Chain(p, log), Chain(p, log + extra);
    var s := grown[|c|..];
    assert grown == c + s;
    assert forall e :: e in c || e in s ==> e in grown;
    assert Issued(s, t) == 0;
    HolderAtOfAppend(c, s, t);
  }

  lemma CustodyPrefix<K(!new)>(p: Policy<K>, chain: seq<Event<K>>, n: nat)
    requires IsCustodyChain(p, chain) && n <= |chain|
    ensures IsCustodyChain(p, chain[..n])
  {
    forall i | 0 <= i < n
      ensures IsLink(p, chain[..n], i)
    {
      assert IsLink(p, chain, i);
    }
  }
}
