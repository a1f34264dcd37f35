/**
  The P2P name service ink! contract (contract/lib.rs): a registry binding
  32-byte names to accounts in two storage maps, name to account and account
  to name, plus an admin account that may register and move names on anyone's
  behalf.

  Every message is a pure function from the storage before the call, the
  caller (`self.env().caller()`) and the message arguments to the reply and
  the storage after the call. Storage writes are modelled as the map updates
  ink's `Mapping::insert` performs, including inserts of default values;
  readers see a missing key as the default, so the properties below are stated
  through the reading functions `OwnerOf` and `NameOf`.
 */
module NameService {
  import opened Bytes

  /** An ink `Hash`: a 32-byte name. */
  datatype Hash = Hash(bytes: Bytes32)

  /** An ink `AccountId`: a 32-byte account address. */
  datatype AccountId = AccountId(bytes: Bytes32)

  /** `Hash::default()`, the all-zero name, read back for an account without a name. */
  function DefaultHash(): Hash {
    Hash(Zeros(32))
  }

  /** `zero_address()`: the all-zero account, which has a known private key. */
  function ZeroAddress(): (a: AccountId)
    ensures forall i :: 0 <= i < 32 ==> a.bytes[i] == 0
  {
    AccountId(Zeros(32))
  }

  /** The contract's `Error` enum. */
  datatype Error =
    | NameAlreadyExists
    | AccountAlreadyHasName
    | CallerIsNotOwner
    | CallerIsNotAdmin

  /** The `Result<()>` a state-changing message returns. */
  datatype Result = Ok | Err(error: Error)

  /** The contract's storage, `P2pNameService`. */
  datatype State = State(
    nameToAddress: map<Hash, AccountId>,
    addressToName: map<AccountId, Hash>,
    defaultAddress: AccountId,
    adminAddress: AccountId)

  /** What a message returns, together with the storage it leaves behind. */
  datatype Reply = Reply(result: Result, state: State)

  /** The constructor `new`: the deployer becomes admin; only the default entries are stored. */
  function New(deployer: AccountId): (s: State)
    ensures GetAdmin(s) == deployer && s.defaultAddress == ZeroAddress()
    ensures forall n :: OwnerOf(s, n) == ZeroAddress()
    ensures forall a :: NameOf(s, a) == DefaultHash()
  {
    State(
      map[DefaultHash() := ZeroAddress()],
      map[ZeroAddress() := DefaultHash()],
      ZeroAddress(),
      deployer)
  }

  /** `impl Default`: the same storage as `new`, with the zero address as admin. */
  function DefaultState(): (s: State)
    ensures s == New(ZeroAddress())
    ensures GetAdmin(s) == ZeroAddress()
  {
    State(
      map[DefaultHash() := ZeroAddress()],
      map[ZeroAddress() := DefaultHash()],
      ZeroAddress(),
      ZeroAddress())
  }

  /** Message `get_admin`. */
  function GetAdmin(s: State): AccountId {
    s.adminAddress
  }

  /** Message `name_of`, i.e. `get_name_of_or_default`: the stored name, or `Hash::default()`. */
  function NameOf(s: State, address: AccountId): (h: Hash)
    ensures h != DefaultHash() ==> address in s.addressToName && s.addressToName[address] == h
    ensures address in s.addressToName ==> h == s.addressToName[address]
    ensures address !in s.addressToName ==> h == DefaultHash()
  {
    if address in s.addressToName then s.addressToName[address] else DefaultHash()
  }

  /** Message `owner_of`, i.e. `get_owner_of_or_default`: the stored owner, or `default_address`. */
  function OwnerOf(s: State, name: Hash): (a: AccountId)
    ensures a != s.defaultAddress ==> name in s.nameToAddress && s.nameToAddress[name] == a
    ensures name in s.nameToAddress ==> a == s.nameToAddress[name]
    ensures name !in s.nameToAddress ==> a == s.defaultAddress
  {
    if name in s.nameToAddress then s.nameToAddress[name] else s.defaultAddress
  }

  /** Names other than those in `names`, and accounts other than those in `accounts`, read as before; the admin and default address are kept. */
  ghost predicate OthersUnchanged(s: State, s': State, names: set<Hash>, accounts: set<AccountId>) {
    && s'.adminAddress == s.adminAddress
    && s'.defaultAddress == s.defaultAddress
    && (forall n :: n !in names ==> OwnerOf(s', n) == OwnerOf(s, n))
    && (forall a :: a !in accounts ==> NameOf(s', a) == NameOf(s, a))
  }

  /** `set_account_name`: bind `name` to `address` in both maps. */
  function SetAccountName(s: State, address: AccountId, name: Hash): (s': State)
    ensures OwnerOf(s', name) == address && NameOf(s', address) == name
    ensures OthersUnchanged(s, s', {name}, {address})
  {
    s.(nameToAddress := s.nameToAddress[name := address],
       addressToName := s.addressToName[address := name])
  }

  /** `remove_account_name`: reset `name` to `default_address` and `account` to `Hash::default()`. */
  function RemoveAccountName(s: State, account: AccountId, name: Hash): (s': State)
    ensures OwnerOf(s', name) == s.defaultAddress && NameOf(s', account) == DefaultHash()
    ensures OthersUnchanged(s, s', {name}, {account})
  {
    s.(nameToAddress := s.nameToAddress[name := s.defaultAddress],
       addressToName := s.addressToName[account := DefaultHash()])
  }

  /**
    `name_has_owner`: the name's owner is not `default_address` and that owner's
    name is not `Hash::default()`. It does not check that the owner's name is
    this name.
   */
  predicate NameHasOwner(s: State, name: Hash) {
    var address := OwnerOf(s, name);
    if address == s.defaultAddress then false
    else
      var fetchedName := NameOf(s, address);
      fetchedName != DefaultHash()
  }

  /**
    `account_has_name`: the account's name is not `Hash::default()` and that
    name's owner is not `default_address`. It does not check that the name's
    owner is this account.
   */
  predicate AccountHasName(s: State, account: AccountId) {
    var name := NameOf(s, account);
    if name == DefaultHash() then false
    else
      var fetchedAccount := OwnerOf(s, name);
      fetchedAccount != s.defaultAddress
  }

  /** Message `register`: the caller claims `name` for itself. */
  function Register(s: State, caller: AccountId, name: Hash): (r: Reply)
    ensures NameHasOwner(s, name) ==> r == Reply(Err(NameAlreadyExists), s)
    ensures !NameHasOwner(s, name) && AccountHasName(s, caller) ==> r == Reply(Err(AccountAlreadyHasName), s)
    ensures r.result.Ok? <==> !NameHasOwner(s, name) && !AccountHasName(s, caller)
    ensures r.result.Err? ==> r.state == s
    ensures r.result.Ok? ==>
      && OwnerOf(r.state, name) == caller
      && NameOf(r.state, caller) == name
      && OthersUnchanged(s, r.state, {name}, {caller})
  {
    if NameHasOwner(s, name) then
      Reply(Err(NameAlreadyExists), s)
    else if AccountHasName(s, caller) then
      Reply(Err(AccountAlreadyHasName), s)
    else
      Reply(Ok, SetAccountName(s, caller, name))
  }

  /** Message `force_register`: the admin binds `name` to `to`. */
  function ForceRegister(s: State, caller: AccountId, name: Hash, to: AccountId): (r: Reply)
    ensures caller != s.adminAddress ==> r == Reply(Err(CallerIsNotAdmin), s)
    ensures caller == s.adminAddress && NameHasOwner(s, name) ==> r == Reply(Err(NameAlreadyExists), s)
    ensures caller == s.adminAddress && !NameHasOwner(s, name) && AccountHasName(s, to) ==>
      r == Reply(Err(AccountAlreadyHasName), s)
    ensures r.result.Ok? <==> caller == s.adminAddress && !NameHasOwner(s, name) && !AccountHasName(s, to)
    ensures r.result.Err? ==> r.state == s
    ensures r.result.Ok? ==>
      && OwnerOf(r.state, name) == to
      && NameOf(r.state, to) == name
      && OthersUnchanged(s, r.state, {name}, {to})
  {
    var admin := s.adminAddress;
    if caller != admin then
      Reply(Err(CallerIsNotAdmin), s)
    else if NameHasOwner(s, name) then
      Reply(Err(NameAlreadyExists), s)
    else if AccountHasName(s, to) then
      Reply(Err(AccountAlreadyHasName), s)
    else
      Reply(Ok, SetAccountName(s, to, name))
  }

  /** The storage after moving `name` from `owner` to `to`: remove, then set. */
  function Move(s: State, name: Hash, owner: AccountId, to: AccountId): (s': State)
    ensures OwnerOf(s', name) == to && NameOf(s', to) == name
    ensures owner != to ==> NameOf(s', owner) == DefaultHash()
    ensures OthersUnchanged(s, s', {name}, {owner, to})
  {
    SetAccountName(RemoveAccountName(s, owner, name), to, name)
  }

  /** Message `transfer`: the owner of `name` hands it to `to`. */
  function Transfer(s: State, caller: AccountId, name: Hash, to: AccountId): (r: Reply)
    ensures caller != OwnerOf(s, name) ==> r == Reply(Err(CallerIsNotOwner), s)
    ensures caller == OwnerOf(s, name) && AccountHasName(s, to) ==> r == Reply(Err(AccountAlreadyHasName), s)
    ensures r.result.Ok? <==> caller == OwnerOf(s, name) && !AccountHasName(s, to)
    ensures r.result.Err? ==> r.state == s
    ensures r.result.Ok? ==>
      && OwnerOf(r.state, name) == to
      && NameOf(r.state, to) == name
      && (caller != to ==> NameOf(r.state, caller) == DefaultHash())
      && OthersUnchanged(s, r.state, {name}, {caller, to})
  {
    var owner := OwnerOf(s, name);
    if caller != owner then
      Reply(Err(CallerIsNotOwner), s)
    else if AccountHasName(s, to) then
      Reply(Err(AccountAlreadyHasName), s)
    else
      Reply(Ok, Move(s, name, owner, to))
  }

  /** Message `force_transfer`: the admin moves `name` from its owner `from` to `to`. */
  function ForceTransfer(s: State, caller: AccountId, name: Hash, from: AccountId, to: AccountId): (r: Reply)
    ensures caller != s.adminAddress ==> r == Reply(Err(CallerIsNotAdmin), s)
    ensures caller == s.adminAddress && from != OwnerOf(s, name) ==> r == Reply(Err(CallerIsNotOwner), s)
    ensures caller == s.adminAddress && from == OwnerOf(s, name) && AccountHasName(s, to) ==>
      r == Reply(Err(AccountAlreadyHasName), s)
    ensures r.result.Ok? <==> caller == s.adminAddress && from == OwnerOf(s, name) && !AccountHasName(s, to)
    ensures r.result.Err? ==> r.state == s
    ensures r.result.Ok? ==>
      && OwnerOf(r.state, name) == to
      && NameOf(r.state, to) == name
      && (from != to ==> NameOf(r.state, from) == DefaultHash())
      && OthersUnchanged(s, r.state, {name}, {from, to})
  {
    var owner := OwnerOf(s, name);
    if caller != s.adminAddress then
      Reply(Err(CallerIsNotAdmin), s)
    else if from != owner then
      Reply(Err(CallerIsNotOwner), s)
    else if AccountHasName(s, to) then
      Reply(Err(AccountAlreadyHasName), s)
    else
      Reply(Ok, Move(s, name, owner, to))
  }

  /** Message `transfer_admin`: the admin hands the role to `newAdmin`, which is not checked. */
  function TransferAdmin(s: State, caller: AccountId, newAdmin: AccountId): (r: Reply)
    ensures r.result.Ok? <==> caller == GetAdmin(s)
    ensures r.result.Err? ==> r == Reply(Err(CallerIsNotAdmin), s)
    ensures r.result.Ok? ==>
      && GetAdmin(r.state) == newAdmin
      && r.state.nameToAddress == s.nameToAddress
      && r.state.addressToName == s.addressToName
      && r.state.defaultAddress == s.defaultAddress
  {
    if caller != s.adminAddress then
      Reply(Err(CallerIsNotAdmin), s)
    else
      Reply(Ok, s.(adminAddress := newAdmin))
  }
}
