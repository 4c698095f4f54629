/** The administrative commands of bot.py that are modelled: `generate`,
    which issues a fresh key, and `info`, a read-only view of one row. */
module Admin {
  import opened KeyRecord

  // ---------------------------------------------------------------- generate

  /** The deadline a duration choice gives to a key issued at `now`:
      "day" and "week" are relative to issuance, any other choice is a
      lifetime key. */
  function ExpiryFor(duration: string, now: int): (e: Option<int>)
    ensures e.None? <==> duration != "day" && duration != "week"
    ensures e.Some? ==> e.value > now
    ensures e.Some? ==> e.value - now == (if duration == "day" then Day else 7 * Day)
  {
    if duration == "day" then Some(now + Day)
    else if duration == "week" then Some(now + 7 * Day)
    else None
  }

  /** The label the confirmation message shows for a duration choice. */
  function DurationLabel(duration: string): (text: string)
    ensures text == "Lifetime" <==> ExpiryFor(duration, 0).None?
    ensures text in {"1 Day", "7 Days", "Lifetime"}
    ensures duration == "day" ==> text == "1 Day"
    ensures duration == "week" ==> text == "7 Days"
  {
    if duration == "day" then "1 Day"
    else if duration == "week" then "7 Days"
    else "Lifetime"
  }

  predicate IsLowerAscii(c: char) {
    'a' <= c <= 'z'
  }

  /** `str.upper()` on one character; a generated uuid is ASCII, where only
      the letters a-z change. */
  function UpperChar(c: char): (u: char)
    ensures !IsLowerAscii(u)
    ensures !IsLowerAscii(c) ==> u == c
    ensures IsLowerAscii(c) ==> u as int == c as int - 32
  {
    if IsLowerAscii(c) then (c as int - 32) as char else c
  }

  /** `str.upper()` on a string of ASCII characters. */
  function Upper(s: string): (r: string)
    ensures |r| == |s|
    ensures forall i :: 0 <= i < |s| ==> r[i] == UpperChar(s[i])
  {
    if s == [] then [] else [UpperChar(s[0])] + Upper(s[1..])
  }

  /** The key string generated from a uuid's text form. */
  function KeyStringFor(uuid: string): (ks: string)
    ensures StartsWith(ks, "KEY-") && |ks| == |uuid| + 4
    ensures forall i :: 4 <= i < |ks| ==> !IsLowerAscii(ks[i])
    ensures ks[4..] == Upper(uuid)
  {
    "KEY-" + Upper(uuid)
  }

  /** The row the INSERT creates: it supplies the key string and the
      deadline, and the column defaults supply the rest. */
  function NewKey(id: nat, ks: string, expiresAt: Option<int>, now: int): (k: Key)
    ensures k.id == id && k.keyString == ks && k.expiresAt == expiresAt
    ensures k.isActive && k.createdAt == now
    ensures k.redeemedAt.None? && k.redeemedBy.None?
  {
    Key(id, ks, true, now, expiresAt, None, None)
  }

  /** How `generate` ends: the key and the duration label it sends back, or
      `DuplicateKey`, which stands for the unique-violation exception the
      INSERT raises; that exception propagates and no message is sent. */
  datatype GenResult = Generated(keyString: string, durationText: string) | DuplicateKey

  /** The whole command: result and table afterwards. The sequence value is
      drawn before the uniqueness check and is not given back when the
      insert fails, which leaves only a gap in the ids. */
  function GenerateStep(s: Store, uuid: string, duration: string, now: int): (res: (Store, GenResult))
    ensures res.0.nextId == s.nextId + 1
    ensures KeyStringFor(uuid) in s.keys <==> res.1 == DuplicateKey
    ensures res.1 == DuplicateKey ==> res.0.keys == s.keys
    ensures res.1.Generated? ==>
              && res.1 == Generated(KeyStringFor(uuid), DurationLabel(duration))
              && res.0.keys == s.keys[KeyStringFor(uuid) := NewKey(s.nextId, KeyStringFor(uuid), ExpiryFor(duration, now), now)]
  {
    var ks := KeyStringFor(uuid);
    if ks in s.keys then (s.(nextId := s.nextId + 1), DuplicateKey)
    else
      var row := NewKey(s.nextId, ks, ExpiryFor(duration, now), now);
      (Store(s.keys[ks := row], s.nextId + 1), Generated(ks, DurationLabel(duration)))
  }

  /** A generated row is active, carries no redemption metadata, was created
      at `now` and has the deadline and label of its duration choice. */
  lemma GeneratedRowIsFresh(s: Store, uuid: string, duration: string, now: int)
    requires KeyStringFor(uuid) !in s.keys
    ensures var res := GenerateStep(s, uuid, duration, now); var ks := KeyStringFor(uuid);
      && ks in res.0.keys
      && res.0.keys[ks].isActive
      && res.0.keys[ks].redeemedAt.None? && res.0.keys[ks].redeemedBy.None?
      && res.0.keys[ks].createdAt == now
      && res.0.keys[ks].expiresAt == ExpiryFor(duration, now)
      && (duration == "day" ==> res.0.keys[ks].expiresAt == Some(now + Day) && res.1.durationText == "1 Day")
      && (duration == "week" ==> res.0.keys[ks].expiresAt == Some(now + 7 * Day) && res.1.durationText == "7 Days")
      && (duration != "day" && duration != "week" ==> res.0.keys[ks].expiresAt.None? && res.1.durationText == "Lifetime")
  {
  }

  /** Issuance keeps the table invariant. */
  lemma GeneratePreservesValid(s: Store, uuid: string, duration: string, now: int)
    requires ValidStore(s)
    ensures ValidStore(GenerateStep(s, uuid, duration, now).0)
  {
  }

  // -------------------------------------------------------------------- info

  /** The status line of `info`. `Blank` is the empty string the status
      starts as, kept if no branch of the chain applied. */
  datatype DisplayStatus = Active | RedeemedOrBanned | Expired | Blank

  /** The status chain: active and not expired, else not active, else
      expired. */
  function StatusOf(k: Key, now: int): (st: DisplayStatus)
    ensures st != Blank
    ensures st == Active <==> k.isActive && !IsExpired(k, now)
    ensures st == RedeemedOrBanned <==> !k.isActive
    ensures st == Expired <==> k.isActive && IsExpired(k, now)
  {
    var expired := IsExpired(k, now);
    if k.isActive && !expired then Active
    else if !k.isActive then RedeemedOrBanned
    else if expired then Expired
    else Blank
  }

  /** Who last wrote `redeemed_by`: a redemption (the "IP:" tag) or anyone
      else, who deactivated the key. An empty descriptor shows nothing. */
  datatype Actor = Nobody | RedeemedBy(who: string) | DeactivatedBy(who: string)

  function ActorOf(redeemedBy: Option<string>): (a: Actor)
    ensures a.Nobody? <==> redeemedBy.None? || redeemedBy.value == ""
    ensures a.RedeemedBy? <==> redeemedBy.Some? && StartsWith(redeemedBy.value, RedeemerPrefix)
    ensures !a.Nobody? ==> a.who == redeemedBy.value
  {
    if redeemedBy.None? || redeemedBy.value == "" then Nobody
    else if StartsWith(redeemedBy.value, RedeemerPrefix) then RedeemedBy(redeemedBy.value)
    else DeactivatedBy(redeemedBy.value)
  }

  /** Everything `info` shows about one key. */
  datatype InfoResult =
    | KeyNotFound
    | KeyInfo(keyString: string, status: DisplayStatus, expiresAt: Option<int>,
              actor: Actor, redeemedAt: Option<int>, createdAt: int)

  /** The read-only projection of the row for `key` at time `now`. */
  function InfoOf(keys: map<string, Key>, key: string, now: int): (r: InfoResult)
    ensures r.KeyNotFound? <==> key !in keys
    ensures r.KeyInfo? ==>
              && r.keyString == keys[key].keyString
              && r.status == StatusOf(keys[key], now)
              && r.actor == ActorOf(keys[key].redeemedBy)
              && r.expiresAt == keys[key].expiresAt
              && r.redeemedAt == keys[key].redeemedAt
              && r.createdAt == keys[key].createdAt
  {
    if key !in keys then KeyNotFound
    else
      var k := keys[key];
      KeyInfo(k.keyString, StatusOf(k, now), k.expiresAt, ActorOf(k.redeemedBy), k.redeemedAt, k.createdAt)
  }

  /** Exactly one of the three statuses is shown for every key found, and
      the blank status never is. */
  lemma StatusIsExactlyOne(keys: map<string, Key>, key: string, now: int)
    requires key in keys
    ensures var st := InfoOf(keys, key, now).status;
      (st == Active || st == RedeemedOrBanned || st == Expired)
      && (st == RedeemedOrBanned <==> !keys[key].isActive)
      && (st == Expired <==> keys[key].isActive && IsExpired(keys[key], now))
  {
  }
}
