/** The key table as the running services see it: one object whose map of
    rows the redemption endpoint and the admin commands read and update in
    place. Each method is proved against the step function that specifies
    it. */
module KeyService {
  import opened KeyRecord
  import opened Redemption
  import opened Admin

  class KeyTable {
    var keys: map<string, Key>
    var nextId: nat

    ghost function State(): Store
      reads this
    {
      Store(keys, nextId)
    }

    ghost predicate Valid()
      reads this
    {
      ValidStore(State())
    }

    /** An empty table whose id sequence starts at 1. */
    constructor ()
      ensures Valid()
      ensures keys == map[] && nextId == 1
    {
      keys := map[];
      nextId := 1;
    }

    /** `redeem_key`: the verdict comes from `Decide` on the fetched row; only
        a grant writes, and it rewrites that one row. */
    method Redeem(key: Option<string>, ip: string, agent: string, now: int, fault: StoreFault)
      returns (resp: Response)
      requires Valid()
      modifies this
      ensures Valid()
      ensures (State(), resp) == RedeemStep(old(State()), key, ip, agent, now, fault)
    {
      if KeyMissing(key) {
        return Respond(NoKeyProvided);
      }
      if fault == ReadFails {
        return Respond(ServerError);
      }
      var ks := key.value;
      var row := if ks in keys then Some(keys[ks]) else None;
      var verdict := Decide(row, now);
      if verdict != Granted {
        return Respond(verdict);
      }
      if fault == WriteFails {
        return Respond(ServerError);
      }
      keys := keys[ks := RedeemRow(row.value, now, ip, agent)];
      resp := Respond(Granted);
      RedeemPreservesValid(old(State()), key, ip, agent, now, fault);
    }

    /** `generate`: draws the next id and inserts a fresh active row unless
        the key string is already taken. */
    method Generate(uuid: string, duration: string, now: int) returns (result: GenResult)
      requires Valid()
      modifies this
      ensures Valid()
      ensures (State(), result) == GenerateStep(old(State()), uuid, duration, now)
    {
      var ks := KeyStringFor(uuid);
      var id := nextId;
      nextId := nextId + 1;
      if ks in keys {
        GeneratePreservesValid(old(State()), uuid, duration, now);
        return DuplicateKey;
      }
      keys := keys[ks := NewKey(id, ks, ExpiryFor(duration, now), now)];
      result := Generated(ks, DurationLabel(duration));
      GeneratePreservesValid(old(State()), uuid, duration, now);
    }

    /** `info`: a SELECT of one row and its projection; nothing is written. */
    method Info(key: string, now: int) returns (r: InfoResult)
      ensures r == InfoOf(keys, key, now)
    {
      r := InfoOf(keys, key, now);
    }
  }
}
