/** The `/redeem` endpoint of app.py: the ordered verdict chain over the
    fetched row and the single-row update that a successful redemption
    performs. */
module Redemption {
  import opened KeyRecord

  /** Every way a redemption attempt can end. */
  datatype Outcome =
    | NoKeyProvided
    | InvalidKey
    | AlreadyRedeemedOrBanned
    | KeyExpired
    | Granted
    | ServerError

  /** The JSON body's `status` and `message` and the HTTP status code. */
  datatype Response = Response(status: string, message: string, code: int)

  /** Where the storage layer raises, if it does: on the SELECT, or on the
      UPDATE/commit of the success path. */
  datatype StoreFault = NoFault | ReadFails | WriteFails

  /** The response sent for each outcome. Client errors are 400,
      authorization failures 403, storage faults 500 and only a grant is 200. */
  function Respond(o: Outcome): (r: Response)
    ensures r.code == 200 <==> o == Granted
    ensures r.status == "success" <==> o == Granted
    ensures r.status != "success" ==> r.status == "error"
    ensures r.code == 400 <==> o == NoKeyProvided
    ensures r.code == 500 <==> o == ServerError
    ensures r.code == 403 <==> o in {InvalidKey, AlreadyRedeemedOrBanned, KeyExpired}
  {
    match o
    case NoKeyProvided => Response("error", "No key provided.", 400)
    case InvalidKey => Response("error", "This key is invalid.", 403)
    case AlreadyRedeemedOrBanned => Response("error", "This key has already been redeemed or banned.", 403)
    case KeyExpired => Response("error", "This key has expired.", 403)
    case Granted => Response("success", "Key successfully redeemed.", 200)
    case ServerError => Response("error", "A server error occurred.", 500)
  }

  /** Different outcomes never share a message, so a caller can always tell
      them apart. */
  lemma MessagesDistinguishOutcomes(o1: Outcome, o2: Outcome)
    requires o1 != o2
    ensures Respond(o1).message != Respond(o2).message
  {
  }

  /** The form field is absent or empty (both are falsy in the source). */
  predicate KeyMissing(key: Option<string>)
    ensures !KeyMissing(key) ==> key.Some? && |key.value| > 0
    ensures key == Some("") ==> KeyMissing(key)
  {
    key.None? || key.value == ""
  }

  /** The verdict for a present key, given the row the SELECT returned (if
      any) and the clock: unknown, then inactive, then expired, then granted. */
  function Decide(row: Option<Key>, now: int): (o: Outcome)
    ensures o in {InvalidKey, AlreadyRedeemedOrBanned, KeyExpired, Granted}
    ensures o == InvalidKey <==> row.None?
    ensures o == Granted <==> row.Some? && row.value.isActive && !IsExpired(row.value, now)
    ensures o == KeyExpired <==> row.Some? && row.value.isActive && IsExpired(row.value, now)
    ensures o == AlreadyRedeemedOrBanned <==> row.Some? && !row.value.isActive
  {
    if row.None? then InvalidKey
    else if !row.value.isActive then AlreadyRedeemedOrBanned
    else if IsExpired(row.value, now) then KeyExpired
    else Granted
  }

  /** The actor descriptor written on redemption. */
  function RedeemerTag(ip: string, agent: string): (tag: string)
    ensures StartsWith(tag, RedeemerPrefix)
    ensures |tag| == |ip| + |agent| + 15
    ensures tag[4..4 + |ip|] == ip && tag[|tag| - |agent|..] == agent
  {
    "IP: " + ip + " | Client: " + agent
  }

  /** The row after the UPDATE of the success path. */
  function RedeemRow(k: Key, now: int, ip: string, agent: string): (k': Key)
    ensures !k'.isActive && k'.redeemedAt == Some(now) && k'.redeemedBy == Some(RedeemerTag(ip, agent))
    ensures k'.id == k.id && k'.keyString == k.keyString
    ensures k'.createdAt == k.createdAt && k'.expiresAt == k.expiresAt
  {
    k.(isActive := false, redeemedAt := Some(now), redeemedBy := Some(RedeemerTag(ip, agent)))
  }

  /** The whole request: the response and the table afterwards. */
  function RedeemStep(s: Store, key: Option<string>, ip: string, agent: string, now: int, fault: StoreFault)
    : (res: (Store, Response))
    ensures res.0.nextId == s.nextId && res.0.keys.Keys == s.keys.Keys
    ensures res.1.code != 200 ==> res.0 == s
    ensures res.1.code == 200 <==>
              (!KeyMissing(key) && fault == NoFault && key.value in s.keys
               && s.keys[key.value].isActive && !IsExpired(s.keys[key.value], now))
    ensures res.1.code == 200 ==> res.0.keys == s.keys[key.value := RedeemRow(s.keys[key.value], now, ip, agent)]
    ensures forall ks :: ks in s.keys && key != Some(ks) ==> res.0.keys[ks] == s.keys[ks]
  {
    if KeyMissing(key) then (s, Respond(NoKeyProvided))
    else if fault == ReadFails then (s, Respond(ServerError))
    else
      var row := if key.value in s.keys then Some(s.keys[key.value]) else None;
      var o := Decide(row, now);
      if o != Granted then (s, Respond(o))
      else if fault == WriteFails then (s, Respond(ServerError))
      else
        assert fault == NoFault;
        (s.(keys := s.keys[key.value := RedeemRow(row.value, now, ip, agent)]), Respond(Granted))
  }

  /** A missing or empty key is refused with 400 before the table is read. */
  lemma MissingKeyRefused(s: Store, key: Option<string>, ip: string, agent: string, now: int, fault: StoreFault)
    requires KeyMissing(key)
    ensures RedeemStep(s, key, ip, agent, now, fault) == (s, Response("error", "No key provided.", 400))
  {
  }

  /** A key with no row is refused as invalid and nothing changes. */
  lemma UnknownKeyRefused(s: Store, ks: string, ip: string, agent: string, now: int, fault: StoreFault)
    requires ks != "" && ks !in s.keys && fault != ReadFails
    ensures RedeemStep(s, Some(ks), ip, agent, now, fault) == (s, Response("error", "This key is invalid.", 403))
  {
  }

  /** An inactive key is refused as redeemed or banned, whatever its
      deadline: the inactive check comes before the expiry check. */
  lemma InactiveKeyRefused(s: Store, ks: string, ip: string, agent: string, now: int, fault: StoreFault)
    requires ks != "" && ks in s.keys && !s.keys[ks].isActive && fault != ReadFails
    ensures RedeemStep(s, Some(ks), ip, agent, now, fault)
         == (s, Response("error", "This key has already been redeemed or banned.", 403))
  {
  }

  /** An active key strictly past its deadline is refused as expired and
      nothing changes. */
  lemma ExpiredKeyRefused(s: Store, ks: string, ip: string, agent: string, now: int, fault: StoreFault)
    requires ks != "" && ks in s.keys && s.keys[ks].isActive && fault != ReadFails
    requires s.keys[ks].expiresAt.Some? && now > s.keys[ks].expiresAt.value
    ensures RedeemStep(s, Some(ks), ip, agent, now, fault) == (s, Response("error", "This key has expired.", 403))
  {
  }

  /** A successful redemption answers 200 and deactivates exactly that row,
      stamping the time and an actor descriptor that starts with "IP:";
      the row keeps id, key string, creation time and deadline, and every
      other row is untouched. */
  lemma GrantEffect(s: Store, ks: string, ip: string, agent: string, now: int)
    requires ks != "" && ks in s.keys && s.keys[ks].isActive && !IsExpired(s.keys[ks], now)
    ensures var res := RedeemStep(s, Some(ks), ip, agent, now, NoFault); var s', r := res.0, res.1;
      && r == Response("success", "Key successfully redeemed.", 200)
      && ks in s'.keys
      && !s'.keys[ks].isActive
      && s'.keys[ks].redeemedAt == Some(now)
      && s'.keys[ks].redeemedBy == Some("IP: " + ip + " | Client: " + agent)
      && StartsWith(s'.keys[ks].redeemedBy.value, RedeemerPrefix)
      && s'.keys[ks].id == s.keys[ks].id
      && s'.keys[ks].keyString == s.keys[ks].keyString
      && s'.keys[ks].createdAt == s.keys[ks].createdAt
      && s'.keys[ks].expiresAt == s.keys[ks].expiresAt
      && (forall other :: other in s.keys && other != ks ==> s'.keys[other] == s.keys[other])
  {
  }

  /** A failure of the SELECT for a present key answers 500 and leaves
      the table as it was. */
  lemma ReadFaultRefused(s: Store, ks: string, ip: string, agent: string, now: int)
    requires ks != ""
    ensures RedeemStep(s, Some(ks), ip, agent, now, ReadFails) == (s, Response("error", "A server error occurred.", 500))
  {
  }

  /** A failure of the write leaves the table as it was (the transaction is
      never committed) and answers 500. */
  lemma WriteFaultRollsBack(s: Store, ks: string, ip: string, agent: string, now: int)
    requires ks != "" && ks in s.keys && s.keys[ks].isActive && !IsExpired(s.keys[ks], now)
    ensures RedeemStep(s, Some(ks), ip, agent, now, WriteFails) == (s, Response("error", "A server error occurred.", 500))
  {
  }

  /** Single use: once a redemption of a key succeeded, any further attempt
      on it, by anyone at any time, is refused as redeemed or banned (unless
      the read itself fails). */
  lemma SecondRedemptionRefused(s: Store, ks: string, ip: string, agent: string, now: int,
                                ip2: string, agent2: string, later: int, fault: StoreFault)
    requires RedeemStep(s, Some(ks), ip, agent, now, NoFault).1.code == 200
    requires fault != ReadFails
    ensures var s' := RedeemStep(s, Some(ks), ip, agent, now, NoFault).0;
      RedeemStep(s', Some(ks), ip2, agent2, later, fault) == (s', Respond(AlreadyRedeemedOrBanned))
  {
  }

  /** Redemption keeps the table invariant. */
  lemma RedeemPreservesValid(s: Store, key: Option<string>, ip: string, agent: string, now: int, fault: StoreFault)
    requires ValidStore(s)
    ensures ValidStore(RedeemStep(s, key, ip, agent, now, fault).0)
  {
  }
}
