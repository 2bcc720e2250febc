/**
 * `remove_from_blacklist`: the admin closes an address's blacklist account,
 * which lifts the denial. The handler itself only logs and emits an event.
 */
module RemoveFromBlacklistIx {
  import opened Primitives
  import opened Errors
  import opened Constants
  import opened State

  ghost predicate RemoveFromBlacklistSucceeds(s: Store, admin: Pubkey, address: Pubkey) {
    && s.global.Some?
    && s.global.value.admin == admin
    && address in s.blacklist
    && s.blacklist[address].address == address
  }

  /** What `remove_from_blacklist` returns: an error, or the store the runtime commits. */
  ghost predicate RemoveFromBlacklistOutcome(pre: Store, admin: Pubkey, address: Pubkey, r: Result<Store>) {
    && (r.Ok? <==> RemoveFromBlacklistSucceeds(pre, admin, address))
    // Anchor loads `state` and `blacklist_entry` before it checks any constraint.
    && (pre.global.None? || address !in pre.blacklist ==> r == Err(AccountNotInitialized))
    && (pre.global.Some? && address in pre.blacklist ==>
          && (pre.global.value.admin != admin ==> r == Err(ConstraintHasOne))
          && (pre.global.value.admin == admin && pre.blacklist[address].address != address ==>
                r == Err(Program(AddressNotBlacklisted))))
    // `close = admin` deletes the record.
    && (r.Ok? ==> r.value == pre.(blacklist := pre.blacklist - {address}))
  }

  /** The `remove_from_blacklist` instruction: the constraints of `RemoveFromBlacklist`, then the handler. */
  method RemoveFromBlacklist(s: Store, admin: Pubkey, address: Pubkey) returns (r: Result<Store>)
    ensures RemoveFromBlacklistOutcome(s, admin, address, r)
  {
    if s.global.None? || address !in s.blacklist {
      return Err(AccountNotInitialized);
    }
    if s.global.value.admin != admin {
      return Err(ConstraintHasOne);
    }
    var ok :- Require(s.blacklist[address].address == address, AddressNotBlacklisted);
    return Ok(s.(blacklist := s.blacklist - {address}));
  }

  /** Under the invariant only a missing record or the wrong signer makes removal fail. */
  lemma RemoveFailsOnlyWhenAbsent(pre: Store, admin: Pubkey, address: Pubkey, r: Result<Store>)
    requires Inv(pre) && pre.global.Some? && pre.global.value.admin == admin
    requires RemoveFromBlacklistOutcome(pre, admin, address, r)
    ensures r.Ok? <==> address in pre.blacklist
    ensures r.Err? ==> r.error == AccountNotInitialized
  {
  }

  /** A missing record fails the load before `has_one = admin` is checked, so any signer gets `AccountNotInitialized`. */
  lemma MissingRecordFailsFirst(pre: Store, admin: Pubkey, address: Pubkey, r: Result<Store>)
    requires RemoveFromBlacklistOutcome(pre, admin, address, r)
    requires address !in pre.blacklist
    ensures r == Err(AccountNotInitialized)
  {
  }

  /** A success deletes exactly the record of `address` and keeps the invariants. */
  lemma RemoveFromBlacklistPreservesInv(pre: Store, derive: Deriver, admin: Pubkey, address: Pubkey,
                                        r: Result<Store>)
    requires Inv(pre) && Wired(pre, derive)
    requires RemoveFromBlacklistOutcome(pre, admin, address, r)
    requires r.Ok?
    ensures Inv(r.value) && Wired(r.value, derive) && Solvent(r.value) == Solvent(pre)
    ensures address !in r.value.blacklist
    ensures forall a | a in pre.blacklist && a != address :: a in r.value.blacklist && r.value.blacklist[a] == pre.blacklist[a]
  {
  }
}
