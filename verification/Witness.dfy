/** The co-signing witness of pqkt.mjs and its durable node of witness-service.mjs.
    A witness keeps the roots it co-signed by tree size and its largest head; the node
    writes that state to a store after every co-signature and reloads it on restart. */
module KeyWitness {
  import opened Hashing
  import opened MerkleTree
  import opened InclusionProof
  import opened ConsistencyProof

  datatype State<T> = State(seen: map<int, T>, last: Option<Head<T>>, requireAnchor: bool)

  /** A signed tree head as presented: logSigned is the verdict of verifySTH on it. */
  datatype Request<T> = Request(sth: Head<T>, logSigned: bool, proof: seq<T>)

  datatype Verdict<T> = Cosigned(head: Head<T>) | NotAnchored | NotLogSigned | Equivocation | Fork

  function Fresh<T>(anchor: Option<Head<T>>, requireAnchor: bool): State<T> {
    match anchor
    case None => State(map[], None, requireAnchor)
    case Some(a) => State(map[a.size := a.root], Some(a), requireAnchor)
  }

  /** Whether the presented head extends, or is extended by, the witness's last one. */
  predicate Extends<T(==)>(h: Combine<T>, last: Head<T>, sth: Head<T>, proof: seq<T>) {
    var (lo, hi) := if sth.size > last.size then (last, sth) else (sth, last);
    hi.size <= MAX_TREE_SIZE && Checks(h, lo.size, hi.size, lo.root, hi.root, proof)
  }

  /** Witness.cosign as a transition. */
  function CosignStep<T(==)>(h: Combine<T>, st: State<T>, r: Request<T>): (State<T>, Verdict<T>) {
    var sth := r.sth;
    if st.requireAnchor && st.last.None? then (st, NotAnchored)
    else if !r.logSigned then (st, NotLogSigned)
    else if sth.size in st.seen && st.seen[sth.size] != sth.root then (st, Equivocation)
    else if st.last.Some? && sth.size !in st.seen && sth.size != st.last.value.size
            && !Extends(h, st.last.value, sth, r.proof) then (st, Fork)
    else
      var last := if st.last.None? || sth.size > st.last.value.size then Some(sth) else st.last;
      (State(st.seen[sth.size := sth.root], last, st.requireAnchor), Cosigned(sth))
  }

  /** The smaller of two heads of different sizes leads to the larger one, within the guard. */
  predicate Joined<T(==)>(h: Combine<T>, a: Head<T>, b: Head<T>, proof: seq<T>) {
    if a.size < b.size then b.size <= MAX_TREE_SIZE && Checks(h, a.size, b.size, a.root, b.root, proof)
    else a.size <= MAX_TREE_SIZE && Checks(h, b.size, a.size, b.root, a.root, proof)
  }

  class Witness<T(==)> {
    var seen: map<int, T>
    var last: Option<Head<T>>
    const requireAnchor: bool

    function Snapshot(): State<T>
      reads this
    {
      State(seen, last, requireAnchor)
    }

    constructor (anchor: Option<Head<T>>, requireAnchor: bool)
      ensures Snapshot() == Fresh(anchor, requireAnchor)
      ensures last == anchor && this.requireAnchor == requireAnchor
      ensures seen == if anchor.Some? then map[anchor.value.size := anchor.value.root] else map[]
    {
      this.requireAnchor := requireAnchor;
      seen := if anchor.Some? then map[anchor.value.size := anchor.value.root] else map[];
      last := anchor;
    }

    method Cosign(h: Combine<T>, sth: Head<T>, logSigned: bool, proof: seq<T>) returns (v: Verdict<T>)
      modifies this
      ensures (Snapshot(), v) == CosignStep(h, old(Snapshot()), Request(sth, logSigned, proof))
      ensures v.NotAnchored? <==> requireAnchor && old(last).None?
      ensures v.NotLogSigned? <==> (requireAnchor ==> old(last).Some?) && !logSigned
      ensures v.Equivocation? <==>
                (requireAnchor ==> old(last).Some?) && logSigned && sth.size in old(seen) && old(seen)[sth.size] != sth.root
      ensures v.Cosigned? <==>
                (requireAnchor ==> old(last).Some?) && logSigned
                && (sth.size in old(seen) ==> old(seen)[sth.size] == sth.root)
                && (old(last).None? || sth.size in old(seen) || sth.size == old(last).value.size
                    || Joined(h, old(last).value, sth, proof))
      ensures v.Cosigned? ==> v.head == sth && seen == old(seen)[sth.size := sth.root]
      ensures v.Cosigned? ==>
                last == if old(last).Some? && sth.size <= old(last).value.size then old(last) else Some(sth)
      ensures !v.Cosigned? ==> seen == old(seen) && last == old(last)
    {
      if requireAnchor && last.None? {
        return NotAnchored;
      }
      if !logSigned {
        return NotLogSigned;
      }
      var prior := if sth.size in seen then Some(seen[sth.size]) else None;
      if prior.Some? && prior.value != sth.root {
        return Equivocation;
      }
      if last.Some? && prior.None? && sth.size != last.value.size {
        var ok: bool;
        if sth.size > last.value.size {
          ok := VerifyConsistency(h, last.value.size, sth.size, last.value.root, sth.root, proof);
        } else {
          ok := VerifyConsistency(h, sth.size, last.value.size, sth.root, last.value.root, proof);
        }
        if !ok {
          return Fork;
        }
      }
      seen := seen[sth.size := sth.root];
      if last.None? || sth.size > last.value.size {
        last := Some(sth);
      }
      v := Cosigned(sth);
    }
  }

  // ----- one step -----

  /** A witness that co-signed only prefixes of D. */
  ghost predicate AllPrefix<T(!new)>(h: Combine<T>, st: State<T>, d: seq<T>) {
    forall s :: s in st.seen ==> IsPrefixHead(h, Head(s, st.seen[s]), d)
  }

  /** The state invariant: the last head is the largest one seen, and whichever leaf list
      it belongs to, every head ever co-signed is the head of one of its prefixes. */
  ghost predicate Coherent<T(!new)>(h: Combine<T>, st: State<T>) {
    if st.last.None? then st.seen == map[]
    else
      var last := st.last.value;
      last.size in st.seen && st.seen[last.size] == last.root
      && (forall s :: s in st.seen ==> s <= last.size)
      && (forall d :: IsPrefixHead(h, last, d) ==> AllPrefix(h, st, d))
  }

  lemma FreshIsCoherent<T(!new)>(h: Combine<T>, anchor: Option<Head<T>>, requireAnchor: bool)
    ensures Coherent(h, Fresh(anchor, requireAnchor))
  {
  }

  /** When a coherent witness co-signs, in full. */
  lemma CosignedIff<T(!new)>(h: Combine<T>, st: State<T>, r: Request<T>)
    requires Coherent(h, st)
    ensures CosignStep(h, st, r).1 == Cosigned(r.sth)
            <==> r.logSigned && (st.requireAnchor ==> st.last.Some?)
                 && (r.sth.size in st.seen ==> st.seen[r.sth.size] == r.sth.root)
                 && (st.last.None? || r.sth.size in st.seen || Joined(h, st.last.value, r.sth, r.proof))
  {
    hide Checks, Injective;
  }

  lemma StepKeepsCoherent<T(!new)>(h: Combine<T>, st: State<T>, r: Request<T>)
    requires Injective(h)
    requires Coherent(h, st)
    ensures Coherent(h, CosignStep(h, st, r).0)
  {
    hide Checks, Injective;
    var (st', v) := CosignStep(h, st, r);
    if v.Cosigned? {
      forall d | IsPrefixHead(h, st'.last.value, d)
        ensures AllPrefix(h, st', d)
      {
        StepPinsSeen(h, st, r, d);
      }
    }
  }

  /** If the head the witness now trusts is a prefix head of D, so was everything before. */
  lemma StepPinsSeen<T(!new)>(h: Combine<T>, st: State<T>, r: Request<T>, d: seq<T>)
    requires Injective(h)
    requires Coherent(h, st)
    requires CosignStep(h, st, r).1.Cosigned?
    requires IsPrefixHead(h, CosignStep(h, st, r).0.last.value, d)
    ensures AllPrefix(h, CosignStep(h, st, r).0, d)
  {
    hide Checks, IsPrefixHead, Injective;
    if st.last.Some? && r.sth.size !in st.seen {
      var last := st.last.value;
      if r.sth.size > last.size {
        StepBack(h, last, r.sth, r.proof, d);
      } else {
        StepBack(h, r.sth, last, r.proof, d);
      }
    }
  }

  /** What a coherent witness answers to a log-signed head, when the larger of the two
      heads is one of D's: it co-signs exactly when both are heads of prefixes of D, with
      the RFC 6962 proof between them unless it has co-signed that size before. */
  lemma CosignsExactlyPrefixes<T(!new)>(h: Combine<T>, st: State<T>, r: Request<T>, d: seq<T>)
    requires Injective(h)
    requires Coherent(h, st) && st.last.Some? && r.logSigned
    requires IsPrefixHead(h, if r.sth.size > st.last.value.size then r.sth else st.last.value, d)
    ensures CosignStep(h, st, r).1.Cosigned?
            <==> IsPrefixHead(h, r.sth, d) && IsPrefixHead(h, st.last.value, d)
                 && (r.sth.size in st.seen
                     || var last := st.last.value;
                        var lo, hi := if r.sth.size > last.size then last.size else r.sth.size,
                                      if r.sth.size > last.size then r.sth.size else last.size;
                        hi <= MAX_TREE_SIZE && r.proof == Proof(h, lo, d[..hi]))
  {
    hide Checks, Injective, Proof;
    var last := st.last.value;
    if r.sth.size in st.seen {
      assert IsPrefixHead(h, Head(r.sth.size, st.seen[r.sth.size]), d);
    } else if r.sth.size > last.size {
      StepBack(h, last, r.sth, r.proof, d);
    } else {
      StepBack(h, r.sth, last, r.proof, d);
    }
  }

  /** A witness that last co-signed an honest log, shown a larger head of that log. The
      empty tree is a head of the log like any other, but nothing follows it. */
  lemma GrowthIsCosignedIff<T(!new)>(h: Combine<T>, empty: T, st: State<T>, d: seq<T>, k: nat, proof: seq<T>)
    requires Injective(h)
    requires Coherent(h, st) && st.last.Some? && IsHonestHead(h, empty, st.last.value, d)
    requires st.last.value.size < k <= |d|
    ensures var last := st.last.value;
            CosignStep(h, st, Request(PrefixHead(h, d, k), true, proof)).1.Cosigned?
            <==> last.size >= 1 && k <= MAX_TREE_SIZE && proof == Proof(h, last.size, d[..k])
  {
    hide Checks, Injective, Proof;
    StepBack(h, st.last.value, PrefixHead(h, d, k), proof, d);
  }

  function PrefixHead<T>(h: Combine<T>, d: seq<T>, n: nat): Head<T>
    requires 1 <= n <= |d|
  {
    Head(n, Mth(h, d[..n]))
  }

  /** A witness whose largest head is the empty tree can never move: every other size is
      refused as a fork, whatever proof comes with it. */
  lemma EmptyHeadIsStuck<T(!new)>(h: Combine<T>, st: State<T>, r: Request<T>)
    requires Coherent(h, st) && st.last.Some? && st.last.value.size == 0
    requires r.logSigned && r.sth.size > 0
    ensures CosignStep(h, st, r) == (st, Fork)
  {
  }

  // ----- the node: durable state, failed writes, restarts -----

  /** What store.set did: it returned, it threw (having written or not), or it returned a
      promise, whose write is still under way. */
  datatype Outcome = Stored | Threw(landed: bool) | Unconfirmed

  /** Presented is a request and the outcome of its write. Lands is the completion of the
      k-th write under way, at any later time or never, and in any order. Restart builds a
      new witness from the configuration and loads the store into it. */
  datatype Event<T> = Presented(request: Request<T>, outcome: Outcome) | Lands(k: nat) | Restart

  datatype NodeState<T> = NodeState(memory: State<T>, stored: Option<State<T>>, pending: seq<State<T>>, initial: State<T>)

  /** What WitnessNode.cosign returns: the witness's verdict, or a failure, which after a
      promise carries the co-signature all the same. Silent is no call at all. */
  datatype Reply<T> = Answered(verdict: Verdict<T>) | StoreThrew | StoreAsync(cosign: Head<T>) | Silent

  function Restored<T>(stored: Option<State<T>>, initial: State<T>): State<T> {
    match stored
    case None => initial
    case Some(s) => State(s.seen, s.last, initial.requireAnchor)
  }

  function NodeStep<T(==)>(h: Combine<T>, n: NodeState<T>, e: Event<T>): (NodeState<T>, Reply<T>) {
    match e
    case Restart => (n.(memory := Restored(n.stored, n.initial)), Silent)
    case Lands(k) =>
      if k >= |n.pending| then (n, Silent)
      else (n.(stored := Some(n.pending[k]), pending := n.pending[..k] + n.pending[k + 1..]), Silent)
    case Presented(r, outcome) =>
      var (memory, v) := CosignStep(h, n.memory, r);
      var n' := n.(memory := memory);
      if !v.Cosigned? then (n', Answered(v))
      else
        match outcome
        case Stored => (n'.(stored := Some(memory)), Answered(v))
        case Threw(landed) => (if landed then n'.(stored := Some(memory)) else n', StoreThrew)
        case Unconfirmed => (n'.(pending := n.pending + [memory]), StoreAsync(v.head))
  }

  function NewNode<T>(anchor: Option<Head<T>>, requireAnchor: bool): NodeState<T> {
    NodeState(Fresh(anchor, requireAnchor), None, [], Fresh(anchor, requireAnchor))
  }

  function Run<T(==)>(h: Combine<T>, n: NodeState<T>, events: seq<Event<T>>): NodeState<T>
    decreases |events|
  {
    if events == [] then n else Run(h, NodeStep(h, n, events[0]).0, events[1..])
  }

  /** The head whose co-signature the request handler sends to its client. */
  function Sent<T>(reply: Reply<T>): seq<Head<T>> {
    if reply.Answered? && reply.verdict.Cosigned? then [reply.verdict.head] else []
  }

  /** The head whose co-signature a direct caller of cosign holds afterwards. */
  function Handed<T>(reply: Reply<T>): seq<Head<T>> {
    if reply.StoreAsync? then [reply.cosign] else Sent(reply)
  }

  /** The heads co-signed and released to clients in a run. */
  function Released<T(==)>(h: Combine<T>, n: NodeState<T>, events: seq<Event<T>>): seq<Head<T>>
    decreases |events|
  {
    if events == [] then []
    else
      var (n', reply) := NodeStep(h, n, events[0]);
      Sent(reply) + Released(h, n', events[1..])
  }

  /** The heads co-signed and handed to direct callers in a run. */
  function HandedOut<T(==)>(h: Combine<T>, n: NodeState<T>, events: seq<Event<T>>): seq<Head<T>>
    decreases |events|
  {
    if events == [] then []
    else
      var (n', reply) := NodeStep(h, n, events[0]);
      Handed(reply) + HandedOut(h, n', events[1..])
  }

  class WitnessNode<T(==)> {
    var cosigner: Witness<T>
    var stored: Option<State<T>>
    ghost var pending: seq<State<T>>
    ghost const initial: State<T>

    ghost function Abstract(): NodeState<T>
      reads this, cosigner
    {
      NodeState(cosigner.Snapshot(), stored, pending, initial)
    }

    /** On start the node loads the store into a freshly configured witness. */
    constructor (anchor: Option<Head<T>>, requireAnchor: bool, stored: Option<State<T>>, ghost pending: seq<State<T>>)
      ensures fresh(cosigner)
      ensures Abstract()
              == NodeState(Restored(stored, Fresh(anchor, requireAnchor)), stored, pending, Fresh(anchor, requireAnchor))
      ensures cosigner.requireAnchor == requireAnchor
      ensures stored.Some? ==> cosigner.seen == stored.value.seen && cosigner.last == stored.value.last
      ensures stored.None? ==> cosigner.Snapshot() == Fresh(anchor, requireAnchor)
    {
      var w := new Witness(anchor, requireAnchor);
      this.cosigner := w;
      this.stored := stored;
      this.pending := pending;
      this.initial := Fresh(anchor, requireAnchor);
      new;
      if stored.Some? {
        w.seen := stored.value.seen;
        w.last := stored.value.last;
      }
    }

    /** Reports success only once the new state is in the store. */
    method Cosign(h: Combine<T>, r: Request<T>, outcome: Outcome) returns (reply: Reply<T>)
      modifies this, cosigner
      ensures cosigner == old(cosigner)
      ensures (Abstract(), reply) == NodeStep(h, old(Abstract()), Presented(r, outcome))
      ensures var (memory, v) := CosignStep(h, old(cosigner.Snapshot()), r);
              cosigner.Snapshot() == memory
              && reply == (if !v.Cosigned? || outcome == Stored then Answered(v)
                           else if outcome == Unconfirmed then StoreAsync(r.sth) else StoreThrew)
              && stored == (if v.Cosigned? && outcome in {Stored, Threw(true)} then Some(memory) else old(stored))
              && pending == (if v.Cosigned? && outcome == Unconfirmed then old(pending) + [memory] else old(pending))
    {
      var v := cosigner.Cosign(h, r.sth, r.logSigned, r.proof);
      if v.Cosigned? {
        match outcome {
          case Stored =>
            stored := Some(cosigner.Snapshot());
          case Threw(landed) =>
            if landed {
              stored := Some(cosigner.Snapshot());
            }
            return StoreThrew;
          case Unconfirmed =>
            pending := pending + [cosigner.Snapshot()];
            return StoreAsync(v.head);
        }
      }
      reply := Answered(v);
    }
  }

  datatype Response<T> = Response(status: int, cosig: Option<Head<T>>, equivocation: bool, fork: bool)

  /** handle, on POST /cosign: a failure is answered without the co-signature in it. */
  method HandleCosign<T(==)>(node: WitnessNode<T>, h: Combine<T>, sth: Option<Request<T>>, outcome: Outcome)
    returns (response: Response<T>)
    modifies node, node.cosigner
    ensures node.cosigner == old(node.cosigner)
    ensures sth.None? ==> node.Abstract() == old(node.Abstract()) && response == Response(400, None, false, false)
    ensures sth.Some? ==>
              var (n', reply) := NodeStep(h, old(node.Abstract()), Presented(sth.value, outcome));
              node.Abstract() == n'
              && Sent(reply) == (if response.cosig.Some? then [response.cosig.value] else [])
              && response.status == (if response.cosig.Some? then 200 else 409)
              && response.equivocation == (reply == Answered(Equivocation))
              && response.fork == (reply == Answered(Fork))
  {
    if sth.None? {
      return Response(400, None, false, false);
    }
    var reply := node.Cosign(h, sth.value, outcome);
    if reply.Answered? && reply.verdict.Cosigned? {
      return Response(200, Some(reply.verdict.head), false, false);
    }
    response := Response(409, None, reply == Answered(Equivocation), reply == Answered(Fork));
  }

  ghost predicate Includes<T(!new)>(big: State<T>, small: State<T>) {
    forall s :: s in small.seen ==> s in big.seen && big.seen[s] == small.seen[s]
  }

  /** No write is under way, and memory knows at least what a restart would load. */
  ghost predicate StoreBehind<T(!new)>(n: NodeState<T>) {
    n.pending == [] && Includes(n.memory, Restored(n.stored, n.initial))
  }

  ghost predicate NodeCoherent<T(!new)>(h: Combine<T>, n: NodeState<T>) {
    Coherent(h, n.memory) && Coherent(h, Restored(n.stored, n.initial)) && Coherent(h, n.initial)
    && forall s :: s in n.pending ==> Coherent(h, s)
  }

  /** Every write of the run ended in one of the given ways. */
  ghost predicate Uses<T(!new)>(events: seq<Event<T>>, outcomes: set<Outcome>) {
    forall i :: 0 <= i < |events| && events[i].Presented? ==> events[i].outcome in outcomes
  }

  ghost predicate OneRootPerSize<T(!new)>(heads: seq<Head<T>>) {
    forall x, y :: x in heads && y in heads && x.size == y.size ==> x == y
  }

  lemma StepRemembers<T(!new)>(h: Combine<T>, st: State<T>, r: Request<T>)
    ensures Includes(CosignStep(h, st, r).0, st)
    ensures CosignStep(h, st, r).1.Cosigned? ==>
              CosignStep(h, st, r).1 == Cosigned(r.sth)
              && r.sth.size in CosignStep(h, st, r).0.seen && CosignStep(h, st, r).0.seen[r.sth.size] == r.sth.root
  {
  }

  lemma NodeStepRemembers<T(!new)>(h: Combine<T>, n: NodeState<T>, e: Event<T>)
    requires StoreBehind(n) && (e.Presented? ==> !e.outcome.Unconfirmed?)
    ensures var (n', reply) := NodeStep(h, n, e);
            var store := Restored(n'.stored, n.initial);
            StoreBehind(n') && n'.initial == n.initial
            && Includes(store, Restored(n.stored, n.initial))
            && forall x :: x in Handed(reply) ==> x.size in store.seen && store.seen[x.size] == x.root
  {
    hide CosignStep;
    if e.Presented? {
      StepRemembers(h, n.memory, e.request);
    }
  }

  /** While no write is left unconfirmed, every head handed out is in the store, and nothing
      in the store is ever forgotten: for any hash function, through throwing writes and
      restarts. */
  lemma {:induction false} HandedOutIsDurable<T(!new)>(h: Combine<T>, n: NodeState<T>, events: seq<Event<T>>, outcomes: set<Outcome>)
    requires StoreBehind(n) && Uses(events, outcomes) && Unconfirmed !in outcomes
    ensures var end := Run(h, n, events);
            var store := Restored(end.stored, n.initial);
            StoreBehind(end) && end.initial == n.initial
            && Includes(store, Restored(n.stored, n.initial))
            && forall x :: x in HandedOut(h, n, events) ==> x.size in store.seen && store.seen[x.size] == x.root
    decreases |events|
  {
    hide CosignStep, NodeStep, Handed;
    if events == [] {
    } else {
      NodeStepRemembers(h, n, events[0]);
      HandedOutIsDurable(h, NodeStep(h, n, events[0]).0, events[1..], outcomes);
    }
  }

  /** Whatever reaches a client was signed by the log, and its write returned. */
  lemma {:induction false} ReleasedIsHandedOut<T(!new)>(h: Combine<T>, n: NodeState<T>, events: seq<Event<T>>, x: Head<T>)
    requires x in Released(h, n, events)
    ensures x in HandedOut(h, n, events)
    ensures exists i :: 0 <= i < |events| && events[i].Presented? && events[i].outcome.Stored?
              && events[i].request.sth == x && events[i].request.logSigned
    decreases |events|
  {
    var (n', reply) := NodeStep(h, n, events[0]);
    if x in Sent(reply) {
      SentWasSigned(h, n, events[0]);
    } else {
      hide CosignStep;
      ReleasedIsHandedOut(h, n', events[1..], x);
      var i :| 0 <= i < |events[1..]| && events[1..][i].Presented? && events[1..][i].outcome.Stored?
        && events[1..][i].request.sth == x && events[1..][i].request.logSigned;
      assert events[i + 1] == events[1..][i];
    }
  }

  /** And whatever a direct caller holds was signed by the log, and its write did not throw. */
  lemma {:induction false} HandedOutWasSigned<T(!new)>(h: Combine<T>, n: NodeState<T>, events: seq<Event<T>>, x: Head<T>)
    requires x in HandedOut(h, n, events)
    ensures exists i :: 0 <= i < |events| && events[i].Presented? && !events[i].outcome.Threw?
              && events[i].request.sth == x && events[i].request.logSigned
    decreases |events|
  {
    var (n', reply) := NodeStep(h, n, events[0]);
    if x in Handed(reply) {
      SentWasSigned(h, n, events[0]);
    } else {
      hide CosignStep;
      HandedOutWasSigned(h, n', events[1..], x);
      var i :| 0 <= i < |events[1..]| && events[1..][i].Presented? && !events[1..][i].outcome.Threw?
        && events[1..][i].request.sth == x && events[1..][i].request.logSigned;
      assert events[i + 1] == events[1..][i];
    }
  }

  lemma SentWasSigned<T(!new)>(h: Combine<T>, n: NodeState<T>, e: Event<T>)
    ensures var reply := NodeStep(h, n, e).1;
            (forall x :: x in Sent(reply) ==> e.Presented? && e.outcome.Stored? && e.request.sth == x && e.request.logSigned)
            && (forall x :: x in Handed(reply) ==>
                  e.Presented? && !e.outcome.Threw? && e.request.sth == x && e.request.logSigned)
  {
    hide Checks;
  }

  /** A node that requires an anchor and has none never signs anything. */
  lemma {:induction false} UnanchoredNeverSigns<T(!new)>(h: Combine<T>, events: seq<Event<T>>)
    ensures var n := NewNode<T>(None, true);
            HandedOut(h, n, events) == [] && Run(h, n, events) == n
    decreases |events|
  {
    if events == [] {
    } else {
      UnanchoredNeverSigns(h, events[1..]);
    }
  }

  /** A store answers in one way: it confirms its writes or it promises them. */
  ghost predicate OneKindOfStore(outcomes: set<Outcome>) {
    Stored !in outcomes || Unconfirmed !in outcomes
  }

  /** Non-equivocation over whole runs: over either kind of store a node never releases
      co-signatures on two roots at one tree size. No property of the hash is needed. */
  lemma NeverEquivocates<T(!new)>(
    h: Combine<T>, anchor: Option<Head<T>>, requireAnchor: bool, events: seq<Event<T>>, outcomes: set<Outcome>)
    requires Uses(events, outcomes) && OneKindOfStore(outcomes)
    ensures OneRootPerSize(Released(h, NewNode(anchor, requireAnchor), events))
  {
    hide Released, Run, HandedOut;
    var n := NewNode(anchor, requireAnchor);
    forall x, y | x in Released(h, n, events) && y in Released(h, n, events) && x.size == y.size
      ensures x == y
    {
      ReleasedIsHandedOut(h, n, events, x);
      ReleasedIsHandedOut(h, n, events, y);
      HandedOutIsDurable(h, n, events, outcomes);
    }
  }

  /** Whom that promise covers, exactly. Clients of the request handler are safe from
      equivocation over every run with the given outcomes if and only if the store does not
      mix confirmed writes with promised ones: a promised write can land over a newer one. */
  lemma ClientsSafeIff<T(!new)>(h: Combine<T>, outcomes: set<Outcome>, a: T, b: T)
    requires a != b
    ensures OneKindOfStore(outcomes)
            <==> forall anchor, mode, events ::
                   Uses(events, outcomes) ==> OneRootPerSize(Released<T>(h, NewNode(anchor, mode), events))
  {
    hide Released, OneRootPerSize;
    if OneKindOfStore(outcomes) {
      forall anchor, mode, events | Uses(events, outcomes)
        ensures OneRootPerSize(Released<T>(h, NewNode(anchor, mode), events))
      {
        NeverEquivocates(h, anchor, mode, events, outcomes);
      }
    } else {
      var events := LateWrite(Head(1, a), Head(1, b));
      assert Uses(events, outcomes);
      LateWriteEquivocates(h, Head(1, a), Head(1, b));
    }
  }

  /** Callers of cosign are safe over every run with the given outcomes if and only if no
      write is ever left unconfirmed. */
  lemma CallersSafeIff<T(!new)>(h: Combine<T>, outcomes: set<Outcome>, a: T, b: T)
    requires a != b
    ensures Unconfirmed !in outcomes
            <==> forall anchor, mode, events ::
                   Uses(events, outcomes) ==> OneRootPerSize(HandedOut<T>(h, NewNode(anchor, mode), events))
  {
    hide HandedOut, Run;
    if Unconfirmed !in outcomes {
      forall anchor, mode, events | Uses(events, outcomes)
        ensures OneRootPerSize(HandedOut<T>(h, NewNode(anchor, mode), events))
      {
        HandedOutIsDurable(h, NewNode(anchor, mode), events, outcomes);
      }
    } else {
      var events := LostWrite(Head(1, a), Head(1, b), Unconfirmed);
      assert Uses(events, outcomes);
      PromisedWriteEquivocates(h, Head(1, a), Head(1, b));
    }
  }

  /** A write that has not landed when the node restarts. */
  function LostWrite<T>(x: Head<T>, y: Head<T>, outcome: Outcome): seq<Event<T>> {
    [Presented(Request(x, true, []), outcome), Restart, Presented(Request(y, true, []), outcome)]
  }

  lemma OneMore<T(!new)>(h: Combine<T>, n: NodeState<T>, e: Event<T>, rest: seq<Event<T>>)
    ensures var (n', reply) := NodeStep(h, n, e);
            HandedOut(h, n, [e] + rest) == Handed(reply) + HandedOut(h, n', rest)
            && Released(h, n, [e] + rest) == Sent(reply) + Released(h, n', rest)
  {
    hide NodeStep;
    assert ([e] + rest)[1..] == rest;
  }

  lemma RestartIsSilent<T(!new)>(h: Combine<T>, n: NodeState<T>)
    ensures NodeStep(h, n, Restart).1 == Silent
  {
  }

  lemma NothingMore<T(!new)>(h: Combine<T>, n: NodeState<T>)
    ensures HandedOut(h, n, []) == [] && Released(h, n, []) == []
  {
  }

  lemma TwoWithRestart<T(!new)>(h: Combine<T>, n: NodeState<T>, e: Event<T>, f: Event<T>)
    ensures var (n1, first) := NodeStep(h, n, e);
            var (n2, second) := NodeStep(h, NodeStep(h, n1, Restart).0, f);
            HandedOut(h, n, [e, Restart, f]) == Handed(first) + Handed(second)
            && Released(h, n, [e, Restart, f]) == Sent(first) + Sent(second)
  {
    hide NodeStep, HandedOut, Released;
    var n1 := NodeStep(h, n, e).0;
    var n2 := NodeStep(h, n1, Restart).0;
    var n3 := NodeStep(h, n2, f).0;
    RestartIsSilent(h, n1);
    NothingMore(h, n3);
    OneMore(h, n2, f, []);
    OneMore(h, n1, Restart, [f]);
    OneMore(h, n, e, [Restart, f]);
    assert [f] + [] == [f] && [Restart] + [f] == [Restart, f] && [e] + [Restart, f] == [e, Restart, f];
  }

  /** A new node signs whatever it is shown first; a restart with nothing stored makes it
      new again. */
  lemma FirstThenRestart<T(!new)>(h: Combine<T>, n: NodeState<T>, x: Head<T>)
    requires n.(pending := []) == NewNode(None, false)
    ensures var (n', reply) := NodeStep(h, n, Presented(Request(x, true, []), Unconfirmed));
            reply == StoreAsync(x)
            && NodeStep(h, n', Restart).1 == Silent
            && NodeStep(h, n', Restart).0.(pending := []) == NewNode(None, false)
  {
  }

  lemma PromisedWriteEquivocates<T(!new)>(h: Combine<T>, x: Head<T>, y: Head<T>)
    requires x.size == y.size && x.root != y.root
    ensures HandedOut(h, NewNode(None, false), LostWrite(x, y, Unconfirmed)) == [x, y]
    ensures Released(h, NewNode(None, false), LostWrite(x, y, Unconfirmed)) == []
    ensures !OneRootPerSize([x, y])
  {
    var e, f := Presented(Request(x, true, []), Unconfirmed), Presented(Request(y, true, []), Unconfirmed);
    var n0 := NewNode<T>(None, false);
    var n2 := NodeStep(h, NodeStep(h, n0, e).0, Restart).0;
    FirstThenRestart(h, n0, x);
    FirstThenRestart(h, n2, y);
    hide HandedOut, Released, NodeStep, NewNode;
    TwoWithRestart(h, n0, e, f);
    assert x in [x, y] && y in [x, y];
  }

  /** A promised write that lands only after a confirmed one. */
  function LateWrite<T>(x: Head<T>, y: Head<T>): seq<Event<T>> {
    var tail := [Lands(0), Restart, Presented(Request(x, true, []), Stored)];
    [Presented(Request(x, true, []), Unconfirmed), Restart, Presented(Request(y, true, []), Stored)] + tail
  }

  lemma LateWriteEquivocates<T(!new)>(h: Combine<T>, x: Head<T>, y: Head<T>)
    requires x.size == y.size && x.root != y.root
    ensures !OneRootPerSize(Released(h, NewNode(None, false), LateWrite(x, y)))
  {
    var events := LateWrite(x, y);
    var n0 := NewNode<T>(None, false);
    var n1 := NodeStep(h, n0, events[0]).0;
    var n2 := NodeStep(h, n1, events[1]).0;
    var (n3, first) := NodeStep(h, n2, events[2]);
    var n4 := NodeStep(h, n3, events[3]).0;
    var n5 := NodeStep(h, n4, events[4]).0;
    assert n5.memory.seen == map[x.size := x.root];
    var (n6, second) := NodeStep(h, n5, events[5]);
    assert Sent(first) == [y] && Sent(second) == [x];
    assert y in Released(h, n2, events[2..]) && x in Released(h, n5, events[5..]);
    ReleasedLater(h, n2, events[2..]);
    ReleasedLater(h, n3, events[3..]);
    ReleasedLater(h, n4, events[4..]);
    ReleasedLater(h, n0, events);
    ReleasedLater(h, n1, events[1..]);
    assert events[1..][1..] == events[2..] && events[2..][1..] == events[3..];
    assert events[3..][1..] == events[4..] && events[4..][1..] == events[5..];
  }

  lemma ReleasedLater<T(!new)>(h: Combine<T>, n: NodeState<T>, events: seq<Event<T>>)
    requires events != []
    ensures forall x :: x in Released(h, NodeStep(h, n, events[0]).0, events[1..]) ==> x in Released(h, n, events)
  {
  }

  /** A witness meets the empty tree like any first head, and is stuck with it. */
  lemma EmptyHeadIsReachable<T(!new)>(h: Combine<T>, empty: T)
    ensures var events := [Presented(Request(Head(0, empty), true, []), Stored)];
            Run(h, NewNode(None, false), events).memory.last == Some(Head(0, empty))
            && Released(h, NewNode(None, false), events) == [Head(0, empty)]
  {
    var events := [Presented(Request(Head(0, empty), true, []), Stored)];
    var n := NodeStep(h, NewNode<T>(None, false), events[0]).0;
    assert events[1..] == [];
    assert Run(h, n, []) == n && Released(h, n, []) == [];
  }

  lemma {:induction false} RunKeepsCoherent<T(!new)>(h: Combine<T>, n: NodeState<T>, events: seq<Event<T>>)
    requires Injective(h)
    requires NodeCoherent(h, n)
    ensures NodeCoherent(h, Run(h, n, events))
    decreases |events|
  {
    hide CosignStep, Coherent, Injective;
    if events == [] {
    } else {
      if events[0].Presented? {
        StepKeepsCoherent(h, n.memory, events[0].request);
      }
      var n' := NodeStep(h, n, events[0]).0;
      CoherenceIgnoresMode(h, n'.memory, n.initial.requireAnchor);
      if events[0].Lands? && events[0].k < |n.pending| {
        CoherenceIgnoresMode(h, n.pending[events[0].k], n.initial.requireAnchor);
      }
      RunKeepsCoherent(h, NodeStep(h, n, events[0]).0, events[1..]);
    }
  }

  lemma CoherenceIgnoresMode<T(!new)>(h: Combine<T>, st: State<T>, mode: bool)
    ensures Coherent(h, st) <==> Coherent(h, st.(requireAnchor := mode))
  {
    hide IsPrefixHead;
    forall d
      ensures AllPrefix(h, st, d) <==> AllPrefix(h, st.(requireAnchor := mode), d)
    {
    }
  }

  /** Append-only over whole runs: if the node's last head belongs to D, every
      co-signature it ever released is for the head of a prefix of D. */
  lemma ReleasedArePrefixes<T(!new)>(
    h: Combine<T>, anchor: Option<Head<T>>, requireAnchor: bool, events: seq<Event<T>>, outcomes: set<Outcome>, d: seq<T>)
    requires Injective(h)
    requires Uses(events, outcomes) && OneKindOfStore(outcomes)
    requires var end := Run(h, NewNode(anchor, requireAnchor), events);
             end.memory.last.Some? && IsPrefixHead(h, end.memory.last.value, d)
    ensures forall x :: x in Released(h, NewNode(anchor, requireAnchor), events) ==> IsPrefixHead(h, x, d)
  {
    var n := NewNode(anchor, requireAnchor);
    FreshIsCoherent(h, anchor, requireAnchor);
    hide Released, HandedOut, Run, IsPrefixHead;
    RunKeepsCoherent(h, n, events);
    var memory := Run(h, n, events).memory;
    assert AllPrefix(h, memory, d);
    forall x | x in Released(h, n, events)
      ensures IsPrefixHead(h, x, d)
    {
      ReleasedIsHandedOut(h, n, events, x);
      HandedOutIsDurable(h, n, events, outcomes);
      assert x.size in memory.seen && x == Head(x.size, memory.seen[x.size]);
    }
  }

  /** The requests of an honest log that grows through the given sizes, each with the
      proof from the size before. */
  function Growth<T>(h: Combine<T>, d: seq<T>, n: nat, sizes: seq<nat>): seq<Event<T>>
    requires 1 <= n <= |d| && Ascends(n, sizes, |d|)
    decreases |sizes|
  {
    if sizes == [] then []
    else [Presented(Request(PrefixHead(h, d, sizes[0]), true, Proof(h, n, d[..sizes[0]])), Stored)]
         + Growth(h, d, sizes[0], sizes[1..])
  }

  predicate Ascends(n: nat, sizes: seq<nat>, limit: nat)
    decreases |sizes|
  {
    sizes == [] || (n < sizes[0] <= limit && Ascends(sizes[0], sizes[1..], limit))
  }

  function Heads<T>(h: Combine<T>, d: seq<T>, n: nat, sizes: seq<nat>): seq<Head<T>>
    requires 1 <= n <= |d| && Ascends(n, sizes, |d|)
    decreases |sizes|
  {
    if sizes == [] then [] else [PrefixHead(h, d, sizes[0])] + Heads(h, d, sizes[0], sizes[1..])
  }

  lemma HonestStep<T(!new)>(h: Combine<T>, n: NodeState<T>, d: seq<T>, m: nat, k: nat)
    requires Injective(h)
    requires 1 <= m < k <= |d| <= MAX_TREE_SIZE
    requires n.memory.last == Some(PrefixHead(h, d, m)) && forall s :: s in n.memory.seen ==> s <= m
    ensures var (n', reply) := NodeStep(h, n, Presented(Request(PrefixHead(h, d, k), true, Proof(h, m, d[..k])), Stored));
            reply == Answered(Cosigned(PrefixHead(h, d, k)))
            && n'.memory.last == Some(PrefixHead(h, d, k)) && forall s :: s in n'.memory.seen ==> s <= k
  {
    hide Checks, Injective, Proof;
    StepBack(h, PrefixHead(h, d, m), PrefixHead(h, d, k), Proof(h, m, d[..k]), d);
  }

  /** Completeness over whole runs: a node follows an honest log through any growth within
      the 32-bit guard and releases a co-signature for every head. */
  lemma {:induction false} HonestGrowthIsCosigned<T(!new)>(h: Combine<T>, n: NodeState<T>, d: seq<T>, m: nat, sizes: seq<nat>)
    requires Injective(h)
    requires 1 <= m <= |d| <= MAX_TREE_SIZE && Ascends(m, sizes, |d|)
    requires n.memory.last == Some(PrefixHead(h, d, m)) && forall s :: s in n.memory.seen ==> s <= m
    ensures Released(h, n, Growth(h, d, m, sizes)) == Heads(h, d, m, sizes)
    decreases |sizes|
  {
    hide NodeStep, PrefixHead, Injective;
    if sizes == [] {
    } else {
      var events := Growth(h, d, m, sizes);
      HonestStep(h, n, d, m, sizes[0]);
      assert events[1..] == Growth(h, d, sizes[0], sizes[1..]);
      HonestGrowthIsCosigned(h, NodeStep(h, n, events[0]).0, d, sizes[0], sizes[1..]);
    }
  }

  /** Every co-signature made in a run, released or not. */
  function Signed<T(==)>(h: Combine<T>, n: NodeState<T>, events: seq<Event<T>>): seq<Head<T>>
    decreases |events|
  {
    if events == [] then []
    else
      (if events[0].Presented? && CosignStep(h, n.memory, events[0].request).1.Cosigned?
       then [events[0].request.sth] else [])
      + Signed(h, NodeStep(h, n, events[0]).0, events[1..])
  }

  /** Withholding a co-signature whose write threw is what non-equivocation rests on: one
      lost write and a restart, and the node has signed two roots at one size, though it
      released neither. */
  lemma UnstoredSignatureIsForgotten<T(!new)>(h: Combine<T>, x: Head<T>, y: Head<T>)
    requires x.size == y.size && x.root != y.root
    ensures Signed(h, NewNode(None, false), LostWrite(x, y, Threw(false))) == [x, y]
    ensures HandedOut(h, NewNode(None, false), LostWrite(x, y, Threw(false))) == []
  {
    var events := LostWrite(x, y, Threw(false));
    var n0 := NewNode<T>(None, false);
    var n1 := NodeStep(h, n0, events[0]).0;
    var n2 := NodeStep(h, n1, Restart).0;
    var n3 := NodeStep(h, n2, events[2]).0;
    assert Signed(h, n3, []) == [] && HandedOut(h, n3, []) == [];
    assert events[1..][1..] == [events[2]] && [events[2]][1..] == [];
    assert Signed(h, n2, [events[2]]) == [y] && HandedOut(h, n2, [events[2]]) == [];
    assert Signed(h, n1, events[1..]) == [y] && HandedOut(h, n1, events[1..]) == [];
  }

  // ----- the monitor -----

  datatype Alert = SameView | AdvancedTo(size: int) | BadSignature | Smaller | SplitView | NotAppendOnly

  /** The head a client pins after an update: the new one only if an accepted walk leads to it. */
  function Repin<T(==)>(h: Combine<T>, pinned: Head<T>, u: Request<T>): Head<T> {
    if u.logSigned && pinned.size < u.sth.size <= MAX_TREE_SIZE
       && Checks(h, pinned.size, u.sth.size, pinned.root, u.sth.root, u.proof) then u.sth else pinned
  }

  /** monitorUpdate: a client's pinned head against a newly presented one. */
  method MonitorUpdate<T(==)>(h: Combine<T>, pinned: Head<T>, sth: Head<T>, logSigned: bool, proof: seq<T>)
    returns (a: Alert)
    ensures a.SameView? <==> logSigned && sth == pinned
    ensures a.AdvancedTo? <==>
              logSigned && sth.size > pinned.size && sth.size <= MAX_TREE_SIZE
              && Checks(h, pinned.size, sth.size, pinned.root, sth.root, proof)
    ensures a.AdvancedTo? ==> a.size == sth.size
    ensures Repin(h, pinned, Request(sth, logSigned, proof)) == if a.AdvancedTo? then sth else pinned
    ensures a.BadSignature? <==> !logSigned
    ensures a.Smaller? <==> logSigned && sth.size < pinned.size
    ensures a.SplitView? <==> logSigned && sth.size == pinned.size && sth.root != pinned.root
  {
    if !logSigned {
      return BadSignature;
    }
    if sth.size < pinned.size {
      return Smaller;
    }
    if sth.size == pinned.size {
      return if sth.root == pinned.root then SameView else SplitView;
    }
    var consistent := VerifyConsistency(h, pinned.size, sth.size, pinned.root, sth.root, proof);
    a := if consistent then AdvancedTo(sth.size) else NotAppendOnly;
  }

  /** Every head a client pins over a run of updates, oldest first. */
  function PinnedHeads<T(==)>(h: Combine<T>, pinned: Head<T>, updates: seq<Request<T>>): (heads: seq<Head<T>>)
    ensures heads != [] && heads[0] == pinned
    decreases |updates|
  {
    if updates == [] then [pinned]
    else
      var rest := PinnedHeads(h, Repin(h, pinned, updates[0]), updates[1..]);
      if Repin(h, pinned, updates[0]) == pinned then rest else [pinned] + rest
  }

  lemma {:induction false} PinsAreChained<T(!new)>(h: Combine<T>, pinned: Head<T>, updates: seq<Request<T>>)
    returns (proofs: seq<seq<T>>)
    ensures Chained(h, PinnedHeads(h, pinned, updates), proofs)
    decreases |updates|
  {
    hide Checks;
    if updates == [] {
      proofs := [];
    } else {
      var next := Repin(h, pinned, updates[0]);
      proofs := PinsAreChained(h, next, updates[1..]);
      if next != pinned {
        ChainedFront(h, pinned, updates[0].proof, PinnedHeads(h, next, updates[1..]), proofs);
        proofs := [updates[0].proof] + proofs;
      }
    }
  }

  lemma ChainedFront<T(!new)>(h: Combine<T>, x: Head<T>, proof: seq<T>, heads: seq<Head<T>>, proofs: seq<seq<T>>)
    requires Chained(h, heads, proofs)
    requires Checks(h, x.size, heads[0].size, x.root, heads[0].root, proof)
    ensures Chained(h, [x] + heads, [proof] + proofs)
  {
    hide Checks;
    var hs, ps := [x] + heads, [proof] + proofs;
    forall i | 0 <= i < |ps|
      ensures Checks(h, hs[i].size, hs[i + 1].size, hs[i].root, hs[i + 1].root, ps[i])
    {
      if i > 0 {
        assert hs[i] == heads[i - 1] && hs[i + 1] == heads[i] && ps[i] == proofs[i - 1];
      }
    }
  }

  /** Append-only for a client: whatever updates it is shown, if the head it ends up with
      belongs to D, then so does every head it ever pinned, and sizes never shrank. */
  lemma MonitorIsAppendOnly<T(!new)>(h: Combine<T>, pinned: Head<T>, updates: seq<Request<T>>, d: seq<T>)
    requires Injective(h)
    requires var heads := PinnedHeads(h, pinned, updates); IsPrefixHead(h, heads[|heads| - 1], d)
    ensures var heads := PinnedHeads(h, pinned, updates);
            (forall x :: x in heads ==> IsPrefixHead(h, x, d))
            && forall i, j :: 0 <= i <= j < |heads| ==> heads[i].size <= heads[j].size
  {
    hide Checks, Injective, PinnedHeads, IsPrefixHead;
    var proofs := PinsAreChained(h, pinned, updates);
    ChainWithin(h, PinnedHeads(h, pinned, updates), proofs, d);
  }
}
