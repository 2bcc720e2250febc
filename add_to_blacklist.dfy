/**
 * `add_to_blacklist`: the admin records an address in its own derived
 * blacklist account, creating the account when needed.
 */
module AddToBlacklistIx {
  import opened Primitives
  import opened Errors
  import opened Constants
  import opened State

  ghost predicate AddToBlacklistSucceeds(s: Store, admin: Pubkey, address: Pubkey) {
    && s.global.Some?
    && s.global.value.admin == admin
    && address != ZERO_KEY
    && EntryOf(s.blacklist, address).address == ZERO_KEY
  }

  /** What `add_to_blacklist` returns: an error, or the store the runtime commits. */
  ghost predicate AddToBlacklistOutcome(pre: Store, derive: Deriver, admin: Pubkey, address: Pubkey, now: i64,
                                        r: Result<Store>)
  {
    && (r.Ok? <==> AddToBlacklistSucceeds(pre, admin, address))
    && (pre.global.None? ==> r == Err(AccountNotInitialized))
    // `has_one = admin`: only the recorded admin may edit the list.
    && (pre.global.Some? && pre.global.value.admin != admin ==> r == Err(ConstraintHasOne))
    && (pre.global.Some? && pre.global.value.admin == admin ==>
          && (address == ZERO_KEY ==> r == Err(Program(CannotBlacklistZeroAddress)))
          && (address != ZERO_KEY && EntryOf(pre.blacklist, address).address != ZERO_KEY ==>
                r == Err(Program(AddressAlreadyBlacklisted))))
    && (r.Ok? ==>
          && r.value.global == pre.global
          && r.value.stakes == pre.stakes
          && r.value.blacklist == pre.blacklist[address := BlacklistEntry(address, now,
                                                                          BumpOf(derive, BlacklistRecord(address)))]
          && r.value.tokens == pre.tokens)
  }

  /** The `add_to_blacklist` instruction: the constraints of `AddToBlacklist`, then the handler. */
  method AddToBlacklist(s: Store, derive: Deriver, admin: Pubkey, address: Pubkey, now: i64)
    returns (r: Result<Store>)
    ensures AddToBlacklistOutcome(s, derive, admin, address, now, r)
  {
    if s.global.None? {
      return Err(AccountNotInitialized);
    }
    if s.global.value.admin != admin {
      return Err(ConstraintHasOne);
    }
    // `init_if_needed` loads the existing record or a zeroed one.
    var entry := EntryOf(s.blacklist, address);
    r := AddToBlacklistHandler(s, derive, address, entry, now);
  }

  /** `add_to_blacklist_handler`, given the loaded or freshly created record. */
  method AddToBlacklistHandler(s: Store, derive: Deriver, address: Pubkey, entry: BlacklistEntry, now: i64)
    returns (r: Result<Store>)
    requires s.global.Some? && entry == EntryOf(s.blacklist, address)
    ensures AddToBlacklistOutcome(s, derive, s.global.value.admin, address, now, r)
  {
    var ok :- Require(address != ZERO_KEY, CannotBlacklistZeroAddress);
    ok :- Require(entry.address == ZERO_KEY, AddressAlreadyBlacklisted);
    var written := entry.(address := address, addedAt := now, bump := BumpOf(derive, BlacklistRecord(address)));
    return Ok(s.(blacklist := s.blacklist[address := written]));
  }

  /** Under the invariant a record reads as blacklisted exactly when it exists. */
  lemma AlreadyBlacklistedIffPresent(s: Store, address: Pubkey)
    requires Inv(s)
    ensures EntryOf(s.blacklist, address).address != ZERO_KEY <==> address in s.blacklist
  {
  }

  /** A success records `address` and keeps the invariants. */
  lemma AddToBlacklistPreservesInv(pre: Store, derive: Deriver, admin: Pubkey, address: Pubkey, now: i64,
                                   r: Result<Store>)
    requires Inv(pre) && Wired(pre, derive)
    requires AddToBlacklistOutcome(pre, derive, admin, address, now, r)
    requires r.Ok?
    ensures Inv(r.value) && Wired(r.value, derive) && Solvent(r.value) == Solvent(pre)
    ensures address !in pre.blacklist && address in r.value.blacklist
    ensures r.value.blacklist[address].addedAt == now
  {
    AlreadyBlacklistedIffPresent(pre, address);
  }
}
