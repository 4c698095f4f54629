# Key lifecycle and validation engine

A Dafny model of the license-key service: a table of keys, the `/redeem`
HTTP endpoint that grants or refuses access (app.py), and the two
administrative chat commands `generate` and `info` (bot.py).

- `keys.dfy` (module `KeyRecord`): one row of the `keys` table (`id`,
  `key_string`, `is_active`, `created_at`, `expires_at`, `redeemed_at`,
  `redeemed_by`), the table as a map indexed by the unique key string plus
  the SERIAL counter behind `id`, the strict expiry rule `now > expires_at`
  shared by both files, and the table invariant (rows stored under their own
  key string, distinct ids drawn from the sequence, active rows carry no
  redemption metadata).
- `redeem.dfy` (module `Redemption`): the ordered verdict chain of
  `redeem_key` (missing key 400, unknown key 403, inactive 403, expired 403,
  otherwise 200), the exact messages, the single-row UPDATE that deactivates
  a key on success, and the whole request as a step function on the table.
- `admin.dfy` (module `Admin`): the duration choice of `generate` (day,
  week, anything else is lifetime), the `KEY-` + upper-cased uuid key string,
  the INSERT with schema defaults that fails on a duplicate key string; the
  status chain of `info` (Active / Redeemed-Banned / Expired), the
  "Redeemed By" / "Deactivated By" classification by the `IP:` prefix, and
  the read-only projection.
- `service.dfy` (module `KeyService`): class `KeyTable`, holding the table
  as a `map` field and the id counter, whose methods `Redeem`, `Generate`
  and `Info` update (or only read) the table in place and are proved equal
  to the step functions above.
- `lifecycle.dfy` (module `Lifecycle`): arbitrary sequences of requests and
  what holds over all of them: the invariant, single use, one-way
  deactivation with write-once metadata, immutable identity columns, and the
  agreement between `info` and redemption.

The clock is an integer count of seconds (`Day` = 86400). The client
address, user agent, uuid text and clock are parameters. A storage failure
during redemption is the parameter `fault`: a failing SELECT answers 500
before any check of the row (the missing-key check comes first), a failing UPDATE or commit answers 500 on the success path
and leaves the table unchanged, since nothing is committed.

Redemption policy: a successful redemption sets `is_active` to false
(app.py:67-68), so a key is single use; no key stays reusable until it
expires.

## Model

| member | source | states |
|---|---|---|
| `KeyRecord.IsExpired` | app.py:59 | a key without a deadline is never expired; with one it is expired exactly when the deadline is strictly before `now` (the same rule is used at bot.py:121); boundary cases in `ExpiryBoundary` |
| `KeyRecord.ExpiryBoundary` | app.py:59 | a key is not expired at its deadline itself, is expired one second later, and a key with no deadline never expires |
| `Redemption.Respond` | app.py:41-76 | status "success" and code 200 exactly for a grant; 400 exactly for a missing key; 403 exactly for invalid, redeemed-or-banned and expired; 500 exactly for a storage fault; every other status is "error" |
| `Redemption.MessagesDistinguishOutcomes` | app.py:41-76 | two different outcomes never produce the same message |
| `Redemption.KeyMissing` | app.py:39-40 | an absent or empty form field counts as missing, and a key that is not missing is a non-empty string; its effect on a request is stated by `MissingKeyRefused` |
| `Redemption.RedeemRow` | app.py:67-69 | the UPDATE sets `is_active` false, `redeemed_at` to `now` and `redeemed_by` to the descriptor, and keeps id, key string, creation time and deadline; its effect on the table is stated by `GrantEffect` |
| `Redemption.Decide` | app.py:49-60 | the verdict for a present key: invalid exactly when no row exists, redeemed-or-banned exactly when the row is inactive (whatever its deadline), expired exactly when it is active and past the deadline, granted exactly when it is active and not past the deadline |
| `Redemption.RedeemerTag` | app.py:63-65 | the actor descriptor always starts with "IP:", carries the client address right after the "IP: " tag and ends with the user agent |
| `Redemption.RedeemStep` | app.py:38-78 | the set of keys and the id counter never change; any non-200 answer leaves the table as it was; 200 exactly when the key is present and non-empty, storage works and the row is active and unexpired; on 200 exactly that row is replaced by its redeemed form; every other row is unchanged |
| `Redemption.MissingKeyRefused` | app.py:39-41 | an absent or empty key answers "error", "No key provided.", 400 and changes nothing, whatever the storage does |
| `Redemption.UnknownKeyRefused` | app.py:46-50 | a key with no row answers 403 "This key is invalid." and changes nothing |
| `Redemption.InactiveKeyRefused` | app.py:52-56 | an inactive key answers 403 "already been redeemed or banned" and changes nothing, also when its deadline has passed |
| `Redemption.ExpiredKeyRefused` | app.py:58-60 | an active key strictly past its deadline answers 403 "This key has expired." and changes nothing |
| `Redemption.GrantEffect` | app.py:62-72 | a grant answers 200 "Key successfully redeemed."; the row becomes inactive with `redeemed_at = now` and `redeemed_by` set to the text "IP: ", the address, the separator " (vertical bar) Client: " and the agent; its id, key string, creation time and deadline stay; all other rows are unchanged |
| `Redemption.ReadFaultRefused` | app.py:44-47 | when the SELECT for a present key fails, the answer is 500 "A server error occurred." (caught at app.py:74-76) and the table is unchanged |
| `Redemption.WriteFaultRollsBack` | app.py:67-76 | when the UPDATE or commit fails, the answer is 500 "A server error occurred." and the table is unchanged |
| `Redemption.SecondRedemptionRefused` | app.py:55-68 | after a successful redemption any second attempt on the same key, at any time and from anyone, answers 403 redeemed-or-banned and changes nothing (unless the read fails) |
| `Redemption.RedeemPreservesValid` | app.py:67-70 | redemption keeps the table invariant |
| `Admin.ExpiryFor` | bot.py:79-88 | "day" and "week" give a deadline one day and seven days after issuance; any other choice gives no deadline |
| `Admin.DurationLabel` | bot.py:81-88 | "day" is labelled "1 Day", "week" "7 Days", and the label is "Lifetime" exactly when the key gets no deadline |
| `Admin.UpperChar` | bot.py:78 | a lower-case ASCII letter becomes its own upper-case letter (code point minus 32), any other character is left alone, and the result is never a lower-case letter |
| `Admin.Upper` | bot.py:78 | upper-casing keeps the length and maps every character by `UpperChar` |
| `Admin.KeyStringFor` | bot.py:78 | a generated key string is "KEY-" followed by the upper-cased uuid text, so it is four characters longer than the uuid and has no lower-case letter after the prefix |
| `Admin.NewKey` | bot.py:93-95 | the inserted row has the given id, key string and deadline, and the schema defaults (bot.py:30-33): active, created at `now`, no redemption time or actor; its effect on the table is stated by `GeneratedRowIsFresh` |
| `Admin.GenerateStep` | bot.py:77-100 | the id counter advances by one; the insert fails exactly when the key string is already present, and then the rows are unchanged; otherwise it reports the key and label and adds exactly the new row |
| `Admin.GeneratedRowIsFresh` | bot.py:77-97 | a generated row is active, has no redemption metadata, was created at `now` and its deadline and label match the duration choice (day: now + 1 day, "1 Day"; week: now + 7 days, "7 Days"; otherwise none, "Lifetime") |
| `Admin.GeneratePreservesValid` | bot.py:27-35 | issuance keeps the table invariant, whether the insert succeeds or fails |
| `Admin.StatusOf` | bot.py:121-135 | the status is never the blank initial value; Active exactly when active and not expired; Redeemed/Banned exactly when not active, whatever the deadline; Expired exactly when active and expired |
| `Admin.ActorOf` | bot.py:144-148 | no actor exactly when `redeemed_by` is absent or empty; "Redeemed By" exactly when it starts with "IP:"; "Deactivated By" otherwise; the descriptor is shown as stored |
| `Admin.InfoOf` | bot.py:108-153 | "Key Not Found" exactly when no row has that key string; for a found key the key string, deadline, redemption time and creation time shown are the stored ones, the status is `StatusOf` the row and the actor is `ActorOf` its `redeemed_by` (so a descriptor without the "IP:" tag is shown as "Deactivated By") |
| `Admin.StatusIsExactlyOne` | bot.py:126-137 | every key found gets exactly one of the three statuses |
| `KeyService.KeyTable.constructor` | bot.py:26-36 | a new table is empty, its id sequence starts at 1 and it satisfies the invariant |
| `KeyService.KeyTable.Redeem` | app.py:38-78 | the method's answer and the new table are those of `RedeemStep` on the old table, and the invariant is kept |
| `KeyService.KeyTable.Generate` | bot.py:77-100 | the method's result, new rows and new counter are those of `GenerateStep` on the old table, and the invariant is kept |
| `KeyService.KeyTable.Info` | bot.py:104-156 | the method changes nothing and answers the projection `InfoOf` of the current rows |
| `Lifecycle.Apply` | app.py:38-78 | dispatches one request to `redeem_key`, `generate` (bot.py:77-100) or `info` (bot.py:104-156); an `info` request leaves the table as it was, and no request removes a row |
| `Lifecycle.ApplyFreezesInactive` | app.py:55-56 | a row that is inactive before a request is identical after it |
| `Lifecycle.ApplyChangesOnlyActiveRows` | app.py:55-70 | a request changes a row only when it was active, and then makes it inactive with metadata written; id, key string, creation time and deadline stay |
| `Lifecycle.ApplyPreservesValid` | app.py:67-70 | every kind of request keeps the table invariant |
| `Lifecycle.RunPreservesValid` | bot.py:29-34 | any sequence of requests keeps the table invariant |
| `Lifecycle.InactiveIsFinal` | app.py:55-68 | once inactive, a row stays in the table unchanged through any sequence of requests: deactivation is one-way and the metadata is written once |
| `Lifecycle.WriteOnce` | app.py:55-69 | in a valid table, a row whose redemption time is set never changes again through any sequence of requests |
| `Lifecycle.IdentityIsImmutable` | app.py:67-69 | through any sequence of requests no row is removed and its id, key string, creation time and deadline never change |
| `Lifecycle.AtMostOneGrant` | app.py:55-68 | in any sequence of requests a key is redeemed successfully at most once, and never when it is inactive at the start |
| `Lifecycle.InfoAgreesWithRedemption` | bot.py:121-135 | at the same moment, `info` shows Active exactly when redemption would grant, Redeemed/Banned exactly when it would refuse as redeemed or banned, Expired exactly when it would refuse as expired, and "Key Not Found" exactly when it would refuse as invalid |
| `Lifecycle.InfoAfterRedemption` | bot.py:144-151 | after a successful redemption `info` shows Redeemed/Banned, classifies the actor as "Redeemed By" with the stored descriptor and shows the redemption time |
| `Lifecycle.DayKeyLifecycle` | bot.py:83-85 | a one-day key issued at t0 is granted on its first redemption at any time up to t0 + 1 day and refused as expired after that |
| `Lifecycle.LifetimeKeyNeverExpires` | bot.py:80-81 | a lifetime key is granted on its first redemption at any time |

## Left out

- HTTP routing, reading the form field and headers, and JSON encoding: the key is an optional string, the client address and user agent are plain strings (the `X-Forwarded-For` / `remote_addr` and `'Unknown'` fallbacks are not modelled), and the answer is a (status, message, code) triple.
- Opening the database connection happens before the `try` in `redeem_key` (app.py:43), so a failure there escapes the JSON 500 path; the model has no separate case for it.
- `generate` and `info` have no error handling of their own: an exception from the database simply propagates. The model gives them no storage-failure input; the only failure modelled for `generate` is the unique violation on `key_string`, as the result `DuplicateKey`; in the source that violation is an exception that propagates, and no message is sent (bot.py:93-98).
- Schema creation and migration (`init_db`): storage bootstrapping. The constructor starts from an empty table.
- The Discord client, command registration, embeds, colours and timestamp formatting: presentation only. `info` is modelled as the data it shows.
- uuid generation: randomness. The uuid text is a parameter; `str.upper()` is modelled for ASCII text only, which is all a uuid contains.
- Wall-clock time and time zones: `now` is an integer parameter. `redeem_key` reads the clock twice, for the expiry test (app.py:59) and for `redeemed_at` (app.py:69); the model uses one `now` for both. `created_at` is filled by the database clock in the source; the model takes the same `now` as the bot's clock.
- `list`, `ban` and `nuke`: referred to only by a comment in bot.py (bot.py:158-159); their code is not part of this model. Rows that a ban would write ("Deactivated By") appear only through `ActorOf`.
- Concurrency: `redeem_key` reads the row and then updates it unconditionally, with no atomic conditional write; the model runs requests one after another and says nothing about interleavings.
- Hardware-id binding and a separate status-check endpoint do not exist in this code, so they are not modelled.
