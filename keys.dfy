/** The `keys` table: one row per license key, the integer clock and the
    expiry rule that redemption and inspection share. */
module KeyRecord {

  datatype Option<T> = None | Some(value: T)

  /** The clock counts seconds; a day is 24 hours of it. */
  const Day: int := 86400

  /** Every redemption writes an actor descriptor that starts with this tag. */
  const RedeemerPrefix: string := "IP:"

  /** One row of the table. The column defaults of the schema are
      `is_active = TRUE`, `created_at = CURRENT_TIMESTAMP` and NULL for the
      optional columns. */
  datatype Key = Key(
    id: nat,
    keyString: string,
    isActive: bool,
    createdAt: int,
    expiresAt: Option<int>,
    redeemedAt: Option<int>,
    redeemedBy: Option<string>)

  /** The table, indexed by its unique `key_string` column, together with
      the next value of the SERIAL sequence that numbers the rows. */
  datatype Store = Store(keys: map<string, Key>, nextId: nat)

  predicate StartsWith(s: string, prefix: string) {
    |prefix| <= |s| && s[..|prefix|] == prefix
  }

  /** A key is expired once the clock is strictly past its deadline; a key
      without a deadline never expires. */
  predicate IsExpired(k: Key, now: int)
    ensures k.expiresAt.None? ==> !IsExpired(k, now)
    ensures k.expiresAt.Some? ==> (IsExpired(k, now) <==> k.expiresAt.value < now)
  {
    k.expiresAt.Some? && now > k.expiresAt.value
  }

  /** Invariant of the table:
      - each row is stored under its own key string;
      - ids come from the sequence (which starts at 1) and are distinct;
      - an active row carries no redemption metadata. */
  ghost predicate ValidStore(s: Store) {
    && 0 < s.nextId
    && (forall ks :: ks in s.keys ==> s.keys[ks].keyString == ks)
    && (forall ks :: ks in s.keys ==> 0 < s.keys[ks].id < s.nextId)
    && (forall a, b :: a in s.keys && b in s.keys && a != b ==> s.keys[a].id != s.keys[b].id)
    && (forall ks :: ks in s.keys && s.keys[ks].isActive ==>
          s.keys[ks].redeemedAt.None? && s.keys[ks].redeemedBy.None?)
  }

  /** The deadline is inclusive: at `expires_at` itself a key is still
      usable, one second later it is not, and a key without a deadline is
      never expired. */
  lemma ExpiryBoundary(k: Key, now: int)
    ensures k.expiresAt.None? ==> !IsExpired(k, now)
    ensures k.expiresAt.Some? ==> !IsExpired(k, k.expiresAt.value) && IsExpired(k, k.expiresAt.value + 1)
    ensures k.expiresAt.Some? ==> (IsExpired(k, now) <==> now >= k.expiresAt.value + 1)
  {
  }
}
