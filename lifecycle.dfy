/** Sequences of requests against the key table, one after another, and
    what holds across all of them: the table invariant, single use, the
    one-way deactivation and the immutable columns. */
module Lifecycle {
  import opened KeyRecord
  import opened Redemption
  import opened Admin

  /** One request to either service. */
  datatype Request =
    | RedeemRequest(key: Option<string>, ip: string, agent: string, now: int, fault: StoreFault)
    | GenerateRequest(uuid: string, duration: string, now: int)
    | InfoRequest(infoKey: string, now: int)

  datatype Reply =
    | RedeemReply(response: Response)
    | GenerateReply(generated: GenResult)
    | InfoReply(info: InfoResult)

  /** One request: the table afterwards and the reply. */
  function Apply(s: Store, req: Request): (res: (Store, Reply))
    ensures req.InfoRequest? ==> res.0 == s
    ensures res.0.keys.Keys >= s.keys.Keys
  {
    match req
    case RedeemRequest(key, ip, agent, now, fault) =>
      var (s', r) := RedeemStep(s, key, ip, agent, now, fault);
      (s', RedeemReply(r))
    case GenerateRequest(uuid, duration, now) =>
      var (s', g) := GenerateStep(s, uuid, duration, now);
      (s', GenerateReply(g))
    case InfoRequest(key, now) =>
      (s, InfoReply(InfoOf(s.keys, key, now)))
  }

  /** The table after a whole sequence of requests. */
  function Run(s: Store, reqs: seq<Request>): Store
    decreases |reqs|
  {
    if reqs == [] then s else Run(Apply(s, reqs[0]).0, reqs[1..])
  }

  /** Did this request redeem key `ks` successfully? */
  predicate IsGrantOf(req: Request, reply: Reply, ks: string) {
    req.RedeemRequest? && req.key == Some(ks) && reply.RedeemReply? && reply.response.code == 200
  }

  /** How many requests of the sequence redeemed `ks` successfully. */
  function GrantsOf(s: Store, reqs: seq<Request>, ks: string): nat
    decreases |reqs|
  {
    if reqs == [] then 0
    else
      var (s', reply) := Apply(s, reqs[0]);
      (if IsGrantOf(reqs[0], reply, ks) then 1 else 0) + GrantsOf(s', reqs[1..], ks)
  }

  /** A row that is inactive before a request is exactly the same after it. */
  lemma ApplyFreezesInactive(s: Store, req: Request, ks: string)
    requires ks in s.keys && !s.keys[ks].isActive
    ensures ks in Apply(s, req).0.keys && Apply(s, req).0.keys[ks] == s.keys[ks]
  {
    match req
    case RedeemRequest(key, ip, agent, now, fault) =>
    case GenerateRequest(uuid, duration, now) =>
      if KeyStringFor(uuid) !in s.keys {
        assert KeyStringFor(uuid) != ks;
      }
    case InfoRequest(_, _) =>
  }

  /** A row may change in one request only while it is active, and the
      change is a redemption: the key becomes inactive with its metadata
      written, and its id, key string, creation time and deadline stay. */
  lemma ApplyChangesOnlyActiveRows(s: Store, req: Request, ks: string)
    requires ks in s.keys
    ensures var k' := Apply(s, req).0.keys[ks];
      && k'.id == s.keys[ks].id && k'.keyString == s.keys[ks].keyString
      && k'.createdAt == s.keys[ks].createdAt && k'.expiresAt == s.keys[ks].expiresAt
      && (k' != s.keys[ks] ==> s.keys[ks].isActive && !k'.isActive
                               && k'.redeemedAt.Some? && k'.redeemedBy.Some?)
  {
    match req
    case RedeemRequest(key, ip, agent, now, fault) =>
    case GenerateRequest(uuid, duration, now) =>
      if KeyStringFor(uuid) !in s.keys {
        assert KeyStringFor(uuid) != ks;
      }
    case InfoRequest(_, _) =>
  }

  /** Every request keeps the table invariant. */
  lemma ApplyPreservesValid(s: Store, req: Request)
    requires ValidStore(s)
    ensures ValidStore(Apply(s, req).0)
  {
    match req
    case RedeemRequest(key, ip, agent, now, fault) =>
      RedeemPreservesValid(s, key, ip, agent, now, fault);
    case GenerateRequest(uuid, duration, now) =>
      GeneratePreservesValid(s, uuid, duration, now);
    case InfoRequest(_, _) =>
  }

  /** Any sequence of requests keeps the table invariant. */
  lemma {:induction false} RunPreservesValid(s: Store, reqs: seq<Request>)
    requires ValidStore(s)
    ensures ValidStore(Run(s, reqs))
    decreases |reqs|
  {
    if reqs != [] {
      ApplyPreservesValid(s, reqs[0]);
      RunPreservesValid(Apply(s, reqs[0]).0, reqs[1..]);
    }
  }

  /** Deactivation is one-way and its metadata is written once: a row that
      is inactive stays in the table, unchanged, whatever follows. */
  lemma {:induction false} InactiveIsFinal(s: Store, reqs: seq<Request>, ks: string)
    requires ks in s.keys && !s.keys[ks].isActive
    ensures ks in Run(s, reqs).keys && Run(s, reqs).keys[ks] == s.keys[ks]
    decreases |reqs|
  {
    if reqs != [] {
      ApplyFreezesInactive(s, reqs[0], ks);
      InactiveIsFinal(Apply(s, reqs[0]).0, reqs[1..], ks);
    }
  }

  /** Write-once metadata: once a row has a redemption time, it never
      changes again, through any sequence of requests. */
  lemma WriteOnce(s: Store, reqs: seq<Request>, ks: string)
    requires ValidStore(s) && ks in s.keys && s.keys[ks].redeemedAt.Some?
    ensures ks in Run(s, reqs).keys && Run(s, reqs).keys[ks] == s.keys[ks]
  {
    InactiveIsFinal(s, reqs, ks);
  }

  /** Rows are never removed, and a row's id, key string, creation time and
      deadline never change. */
  lemma {:induction false} IdentityIsImmutable(s: Store, reqs: seq<Request>, ks: string)
    requires ks in s.keys
    ensures ks in Run(s, reqs).keys
    ensures var k' := Run(s, reqs).keys[ks];
      && k'.id == s.keys[ks].id && k'.keyString == s.keys[ks].keyString
      && k'.createdAt == s.keys[ks].createdAt && k'.expiresAt == s.keys[ks].expiresAt
    decreases |reqs|
  {
    if reqs != [] {
      ApplyChangesOnlyActiveRows(s, reqs[0], ks);
      IdentityIsImmutable(Apply(s, reqs[0]).0, reqs[1..], ks);
    }
  }

  /** Single use: in any sequence of requests a key is redeemed successfully
      at most once, and never if it is already inactive at the start. */
  lemma {:induction false} AtMostOneGrant(s: Store, reqs: seq<Request>, ks: string)
    ensures GrantsOf(s, reqs, ks) <= (if ks in s.keys && !s.keys[ks].isActive then 0 else 1)
    decreases |reqs|
  {
    if reqs != [] {
      var (s', reply) := Apply(s, reqs[0]);
      AtMostOneGrant(s', reqs[1..], ks);
      if IsGrantOf(reqs[0], reply, ks) {
        // the grant deactivated the row, so nothing later can grant it again
        assert ks in s'.keys && !s'.keys[ks].isActive;
      } else if ks in s.keys && !s.keys[ks].isActive {
        ApplyFreezesInactive(s, reqs[0], ks);
      }
    }
  }

  /** `info` and redemption use the same rule: for a key found by `info`,
      an attempt at the same moment (with working storage) is granted
      exactly when `info` shows it Active, refused as redeemed or banned
      exactly when it shows Redeemed/Banned, and refused as expired exactly
      when it shows Expired; a key `info` does not find is refused as
      invalid. */
  lemma InfoAgreesWithRedemption(s: Store, ks: string, ip: string, agent: string, now: int)
    requires ks != ""
    ensures var info := InfoOf(s.keys, ks, now);
            var r := RedeemStep(s, Some(ks), ip, agent, now, NoFault).1;
      && (info.KeyNotFound? <==> r == Respond(InvalidKey))
      && (info.KeyInfo? ==>
            && (info.status == Active <==> r == Respond(Granted))
            && (info.status == RedeemedOrBanned <==> r == Respond(AlreadyRedeemedOrBanned))
            && (info.status == Expired <==> r == Respond(KeyExpired)))
  {
  }

  /** After a successful redemption `info` shows the key as Redeemed/Banned,
      names the redeemer (the descriptor has the "IP:" tag) and the time. */
  lemma InfoAfterRedemption(s: Store, ks: string, ip: string, agent: string, now: int, later: int)
    requires RedeemStep(s, Some(ks), ip, agent, now, NoFault).1.code == 200
    ensures var info := InfoOf(RedeemStep(s, Some(ks), ip, agent, now, NoFault).0.keys, ks, later);
      && info.KeyInfo?
      && info.status == RedeemedOrBanned
      && info.actor == RedeemedBy(RedeemerTag(ip, agent))
      && info.redeemedAt == Some(now)
  {
  }

  /** The life of a one-day key: issued at `t0`, a redemption is granted up
      to and including `t0 + Day` and refused as expired after it. */
  lemma DayKeyLifecycle(s: Store, uuid: string, t0: int, t: int, ip: string, agent: string)
    requires KeyStringFor(uuid) !in s.keys
    ensures var s1 := GenerateStep(s, uuid, "day", t0).0;
            var r := RedeemStep(s1, Some(KeyStringFor(uuid)), ip, agent, t, NoFault).1;
      && (t <= t0 + Day ==> r == Respond(Granted))
      && (t > t0 + Day ==> r == Respond(KeyExpired))
  {
  }

  /** A lifetime key never expires: issued at `t0`, its first redemption is
      granted at any time. */
  lemma LifetimeKeyNeverExpires(s: Store, uuid: string, duration: string, t0: int, t: int, ip: string, agent: string)
    requires KeyStringFor(uuid) !in s.keys && duration != "day" && duration != "week"
    ensures var s1 := GenerateStep(s, uuid, duration, t0).0;
      RedeemStep(s1, Some(KeyStringFor(uuid)), ip, agent, t, NoFault).1 == Respond(Granted)
  {
  }
}
