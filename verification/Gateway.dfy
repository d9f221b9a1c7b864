/** The metered gateway of demo-gateway.mjs. A request is authorised and metered before
    the inner handler is first awaited, so arrivals are atomic and only the settling of
    inner calls interleaves with them. */
module MeteredGateway {
  import opened Hashing

  /** What makeCtx reads from the environment. ids labels each token by a short hash, so
      two tokens may carry the same label. quota is None when there is no ceiling. */
  datatype Config<Tok, Id> = Config(tokens: seq<Tok>, ids: seq<Id>, quota: Option<nat>, expose: bool)

  ghost predicate WellFormed<Tok, Id>(c: Config<Tok, Id>) {
    |c.ids| == |c.tokens| && forall i, j :: 0 <= i < j < |c.tokens| ==> c.tokens[i] != c.tokens[j]
  }

  /** The first occurrences, in order. */
  function Distinct<Tok(==)>(raw: seq<Tok>): seq<Tok> {
    if raw == [] then []
    else
      var n := |raw| - 1;
      Distinct(raw[..n]) + if raw[n] in raw[..n] then [] else [raw[n]]
  }

  /** Array.from(new Set(raw)). */
  method Dedupe<Tok(==)>(raw: seq<Tok>) returns (tokens: seq<Tok>)
    ensures tokens == Distinct(raw)
    ensures forall t :: t in tokens <==> t in raw
    ensures forall i, j :: 0 <= i < j < |tokens| ==> tokens[i] != tokens[j]
  {
    tokens := [];
    for i := 0 to |raw|
      invariant tokens == Distinct(raw[..i])
      invariant forall t :: t in tokens <==> t in raw[..i]
      invariant forall j, k :: 0 <= j < k < |tokens| ==> tokens[j] != tokens[k]
    {
      assert raw[..i + 1][..i] == raw[..i];
      if raw[i] !in tokens {
        tokens := tokens + [raw[i]];
      }
    }
    assert raw[..|raw|] == raw;
  }

  /** makeCtx; rawQuota is the numeric setting when it is a finite number. A setting
      between zero and one rounds down to a ceiling of zero. */
  method MakeConfig<Tok(==), Id>(raw: seq<Tok>, shortHash: Tok -> Id, rawQuota: Option<real>, expose: bool)
    returns (c: Config<Tok, Id>)
    ensures WellFormed(c) && c.expose == expose && c.tokens == Distinct(raw)
    ensures forall t :: t in c.tokens <==> t in raw
    ensures forall i :: 0 <= i < |c.tokens| ==> c.ids[i] == shortHash(c.tokens[i])
    ensures c.quota.Some? <==> rawQuota.Some? && rawQuota.value > 0.0
    ensures c.quota.Some? ==> c.quota.value as real <= rawQuota.value < (c.quota.value + 1) as real
  {
    var tokens := Dedupe(raw);
    var quota := if rawQuota.Some? && rawQuota.value > 0.0 then Some(rawQuota.value.Floor as nat) else None;
    c := Config(tokens, seq(|tokens|, i requires 0 <= i < |tokens| => shortHash(tokens[i])), quota, expose);
  }

  /** presented is the bearer token or API key of the headers, when there is one. */
  datatype Request<Tok> = Request(isHealth: bool, presented: Option<Tok>)

  datatype Auth<Id> = DevOpen | Key(id: Id) | Denied(status: int)

  function IndexOf<Tok(==)>(tokens: seq<Tok>, t: Tok): (i: Option<nat>)
    ensures i.Some? <==> t in tokens
    ensures i.Some? ==> i.value < |tokens| && tokens[i.value] == t
  {
    if tokens == [] then None
    else if tokens[0] == t then Some(0)
    else
      assert tokens == [tokens[0]] + tokens[1..];
      var rest := IndexOf(tokens[1..], t);
      if rest.Some? then Some(rest.value + 1) else None
  }

  function Authorise<Tok(==), Id>(c: Config<Tok, Id>, presented: Option<Tok>): Auth<Id>
    requires |c.ids| == |c.tokens|
  {
    if c.tokens == [] then (if c.expose then Denied(503) else DevOpen)
    else if presented.None? then Denied(401)
    else
      var i := IndexOf(c.tokens, presented.value);
      if i.Some? then Key(c.ids[i.value]) else Denied(401)
  }

  /** The answer to an arrival: an immediate response, or an inner call under a key. */
  datatype Outcome<Id> = Respond(status: int) | Started(key: Option<Id>, used: nat)

  type Usage<Id> = map<Id, nat>

  function Used<Id>(usage: Usage<Id>, id: Id): nat {
    if id in usage then usage[id] else 0
  }

  function Below(used: nat, quota: Option<nat>): bool {
    quota.None? || used <= quota.value
  }

  /** One arrival, up to the start of the inner call. */
  function Arrive<Tok(==), Id(==)>(c: Config<Tok, Id>, usage: Usage<Id>, r: Request<Tok>): (Usage<Id>, Outcome<Id>)
    requires |c.ids| == |c.tokens|
  {
    if r.isHealth then (usage, Respond(200))
    else
      match Authorise(c, r.presented)
      case Denied(status) => (usage, Respond(status))
      case DevOpen => (usage, Started(None, 0))
      case Key(id) =>
        var used := Used(usage, id) + 1;
        if Below(used, c.quota) then (usage[id := used], Started(Some(id), used)) else (usage, Respond(402))
  }

  class Gateway<Tok(==), Id(==)> {
    const config: Config<Tok, Id>
    var usage: Usage<Id>

    ghost predicate Valid()
    {
      WellFormed(config)
    }

    constructor (config: Config<Tok, Id>)
      requires WellFormed(config)
      ensures Valid() && this.config == config && usage == map[]
    {
      this.config := config;
      usage := map[];
    }

    /** Checks every configured token, without an early exit. */
    method Authorize(presented: Option<Tok>) returns (a: Auth<Id>)
      requires Valid()
      ensures a == Authorise(config, presented)
    {
      if |config.tokens| == 0 {
        if config.expose {
          return Denied(503);
        }
        return DevOpen;
      }
      if presented.None? {
        return Denied(401);
      }
      var matchIdx := -1;
      for i := 0 to |config.tokens|
        invariant -1 <= matchIdx < i
        invariant matchIdx >= 0 ==> config.tokens[matchIdx] == presented.value
        invariant matchIdx < 0 ==> presented.value !in config.tokens[..i]
      {
        if presented.value == config.tokens[i] {
          matchIdx := i;
        }
      }
      assert config.tokens[..|config.tokens|] == config.tokens;
      a := if matchIdx >= 0 then Key(config.ids[matchIdx]) else Denied(401);
    }

    /** Counts the call under the key unless it is over the ceiling. */
    method Meter(id: Id) returns (used: Option<nat>)
      modifies this
      ensures var u := Used(old(usage), id) + 1;
              if Below(u, config.quota) then used == Some(u) && usage == old(usage)[id := u]
              else used == None && usage == old(usage)
    {
      var u := (if id in usage then usage[id] else 0) + 1;
      if config.quota.Some? && u > config.quota.value {
        return None;
      }
      usage := usage[id := u];
      used := Some(u);
    }

    /** guardedHandle and guardedHandleAsync, up to the inner call. */
    method Handle(r: Request<Tok>) returns (out: Outcome<Id>)
      requires Valid()
      modifies this
      ensures (usage, out) == Arrive(config, old(usage), r)
    {
      if r.isHealth {
        return Respond(200);
      }
      var a := Authorize(r.presented);
      match a {
        case Denied(status) => out := Respond(status);
        case DevOpen => out := Started(None, 0);
        case Key(id) =>
          var used := Meter(id);
          out := if used.Some? then Started(Some(id), used.value) else Respond(402);
      }
    }
  }

  /** A bearer of a configured token. */
  ghost predicate Holds<Tok(!new), Id(!new)>(c: Config<Tok, Id>, presented: Option<Tok>) {
    presented.Some? && presented.value in c.tokens
  }

  /** What an arrival is answered without the meter: health is open and free, and nothing
      else is answered 200; 401, 503 and the unmetered call are told apart by whether
      tokens are configured, presented, and missing from an exposed gateway. */
  ghost predicate Answers<Tok(!new), Id(!new)>(c: Config<Tok, Id>, r: Request<Tok>, out: Outcome<Id>) {
    (out == Respond(200) <==> r.isHealth)
    && (out == Respond(401) <==> !r.isHealth && c.tokens != [] && !Holds(c, r.presented))
    && (out == Respond(503) <==> !r.isHealth && c.tokens == [] && c.expose)
    && (out == Started(None, 0) <==> !r.isHealth && c.tokens == [] && !c.expose)
    && (out == Respond(402) || (out.Started? && out.key.Some?) <==> !r.isHealth && Holds(c, r.presented))
  }

  lemma AnswersOutright<Tok(!new), Id(!new)>(c: Config<Tok, Id>, usage: Usage<Id>, r: Request<Tok>)
    requires |c.ids| == |c.tokens|
    ensures var (usage', out) := Arrive(c, usage, r);
            Answers(c, r, out) && (r.isHealth || !Holds(c, r.presented) ==> usage' == usage)
  {
    assert |c.tokens| > 0 <==> c.tokens != [];
  }

  // ----- runs -----

  /** Arrivals interleave with the settling, in any order, of calls already started:
      settled with the handler's own response, or with 500 when it throws. */
  datatype Event<Tok> = Arrival(request: Request<Tok>) | Settled(call: nat, threw: bool)

  /** The usage map and the answers to the arrivals so far. */
  datatype Trace<Id> = Trace(usage: Usage<Id>, outcomes: seq<Outcome<Id>>)

  function Run<Tok(==), Id(==)>(c: Config<Tok, Id>, events: seq<Event<Tok>>): Trace<Id>
    requires |c.ids| == |c.tokens|
    decreases |events|
  {
    if events == [] then Trace(map[], [])
    else
      var n := |events| - 1;
      var before := Run(c, events[..n]);
      match events[n]
      case Settled(_, _) => before
      case Arrival(r) =>
        var (usage, out) := Arrive(c, before.usage, r);
        Trace(usage, before.outcomes + [out])
  }

  /** Inner calls started under a key. */
  function Starts<Id(==)>(outcomes: seq<Outcome<Id>>, id: Id): nat {
    if outcomes == [] then 0
    else
      var n := |outcomes| - 1;
      Starts(outcomes[..n], id) + if outcomes[n].Started? && outcomes[n].key == Some(id) then 1 else 0
  }

  /** Requests that reach the meter under a key: authorised, and not for a health path. */
  function Metered<Tok(==), Id(==)>(c: Config<Tok, Id>, events: seq<Event<Tok>>, id: Id): nat
    requires |c.ids| == |c.tokens|
    decreases |events|
  {
    if events == [] then 0
    else
      var n := |events| - 1;
      Metered(c, events[..n], id)
      + match events[n]
        case Settled(_, _) => 0
        case Arrival(r) => if !r.isHealth && Authorise(c, r.presented) == Key(id) then 1 else 0
  }

  function Capped(n: nat, quota: Option<nat>): nat {
    if quota.Some? && quota.value < n then quota.value else n
  }

  lemma NoStarts<Id>(id: Id)
    ensures Starts([], id) == 0
  {
  }

  lemma OneMore<Id>(outcomes: seq<Outcome<Id>>, out: Outcome<Id>, id: Id)
    ensures Starts(outcomes + [out], id) == Starts(outcomes, id) + if out.Started? && out.key == Some(id) then 1 else 0
  {
    assert (outcomes + [out])[..|outcomes|] == outcomes;
  }

  /** Metering is exact in every interleaving: under each key id, the inner calls started,
      the usage count and min(quota, metered requests) are the same number. */
  lemma {:induction false} MeteringIsExact<Tok(!new), Id(!new)>(c: Config<Tok, Id>, events: seq<Event<Tok>>, id: Id)
    requires |c.ids| == |c.tokens|
    ensures var t := Run(c, events);
            Starts(t.outcomes, id) == Used(t.usage, id) == Capped(Metered(c, events, id), c.quota)
    decreases |events|
  {
    hide Authorise, Starts;
    if events == [] {
      NoStarts(id);
    } else {
      var n := |events| - 1;
      MeteringIsExact(c, events[..n], id);
      if events[n].Arrival? {
        var before := Run(c, events[..n]);
        OneMore(before.outcomes, Arrive(c, before.usage, events[n].request).1, id);
      }
    }
  }

  /** First come, first served: an arrival under a key starts its inner call exactly when
      fewer than quota metered requests of that key came before it, and is told its rank;
      otherwise it is answered 402. */
  lemma {:induction false} ServedInOrder<Tok(!new), Id(!new)>(c: Config<Tok, Id>, events: seq<Event<Tok>>, r: Request<Tok>, id: Id)
    requires |c.ids| == |c.tokens|
    requires !r.isHealth && Authorise(c, r.presented) == Key(id)
    ensures var rank := Metered(c, events, id) + 1;
            Arrive(c, Run(c, events).usage, r).1
            == if Below(rank, c.quota) then Started(Some(id), rank) else Respond(402)
  {
    MeteringIsExact(c, events, id);
  }

  /** In every run of every configuration: arrivals are answered one by one, health paths
      always 200, and all others by the configuration and what they present. */
  lemma {:induction false} EveryRunAnswers<Tok(!new), Id(!new)>(c: Config<Tok, Id>, events: seq<Event<Tok>>)
    requires |c.ids| == |c.tokens|
    ensures var outcomes, requests := Run(c, events).outcomes, Arrivals(events);
            |outcomes| == |requests| && forall k :: 0 <= k < |outcomes| ==> Answers(c, requests[k], outcomes[k])
    decreases |events|
  {
    hide Answers;
    if events == [] {
    } else {
      var n := |events| - 1;
      EveryRunAnswers(c, events[..n]);
      if events[n].Arrival? {
        AnswersOutright(c, Run(c, events[..n]).usage, events[n].request);
      }
    }
  }

  /** Fail closed: exposed without tokens, no run ever starts an inner call; health paths
      are answered 200 and every other arrival 503. */
  lemma {:induction false} ExposedWithoutTokensStartsNothing<Tok(!new), Id(!new)>(c: Config<Tok, Id>, events: seq<Event<Tok>>)
    requires c.expose && c.tokens == [] && c.ids == []
    ensures var outcomes, requests := Run(c, events).outcomes, Arrivals(events);
            |outcomes| == |requests|
            && forall k :: 0 <= k < |outcomes| ==> outcomes[k] == Respond(if requests[k].isHealth then 200 else 503)
    ensures Run(c, events).usage == map[]
    decreases |events|
  {
    EveryRunAnswers(c, events);
    if events == [] {
    } else {
      ExposedWithoutTokensStartsNothing(c, events[..|events| - 1]);
    }
  }

  /** A request is authorised under a key exactly when it presents the configured token
      that carries the key's label. */
  lemma AuthorisedIffTokenHeld<Tok(!new), Id(!new)>(c: Config<Tok, Id>, presented: Option<Tok>, id: Id)
    requires WellFormed(c)
    ensures Authorise(c, presented) == Key(id)
            <==> presented.Some? && exists i :: 0 <= i < |c.tokens| && c.tokens[i] == presented.value && c.ids[i] == id
  {
  }

  function Arrivals<Tok>(events: seq<Event<Tok>>): seq<Request<Tok>> {
    if events == [] then []
    else
      var n := |events| - 1;
      Arrivals(events[..n]) + if events[n].Arrival? then [events[n].request] else []
  }

  ghost predicate HoldsToken<Tok(!new), Id(!new)>(c: Config<Tok, Id>, r: Request<Tok>, key: Option<Id>) {
    key.Some? && r.presented.Some? && !r.isHealth
    && exists i :: 0 <= i < |c.tokens| && i < |c.ids| && c.tokens[i] == r.presented.value && c.ids[i] == key.value
  }

  /** Once any token is configured, in every run each inner call was started by a request
      presenting a configured token, and was counted under that token's label. */
  lemma {:induction false} OnlyKeyHoldersStart<Tok(!new), Id(!new)>(c: Config<Tok, Id>, events: seq<Event<Tok>>)
    requires WellFormed(c) && c.tokens != []
    ensures var outcomes := Run(c, events).outcomes;
            var requests := Arrivals(events);
            |outcomes| == |requests|
            && forall k :: 0 <= k < |outcomes| && outcomes[k].Started? ==> HoldsToken(c, requests[k], outcomes[k].key)
    decreases |events|
  {
    hide HoldsToken;
    if events == [] {
    } else {
      var n := |events| - 1;
      OnlyKeyHoldersStart(c, events[..n]);
      if events[n].Arrival? {
        StartHoldsToken(c, Run(c, events[..n]).usage, events[n].request);
      }
    }
  }

  lemma StartHoldsToken<Tok(!new), Id(!new)>(c: Config<Tok, Id>, usage: Usage<Id>, r: Request<Tok>)
    requires WellFormed(c) && c.tokens != []
    ensures var out := Arrive(c, usage, r).1;
            out.Started? ==> HoldsToken(c, r, out.key)
  {
  }
}
