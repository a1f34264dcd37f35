/**
  The registry's central invariant: the two storage maps are mutual inverses
  on real names and real accounts. It is preserved by every message, starting
  from the storage `new` builds, PROVIDED no message is ever called with
  `Hash::default()` as its name; the contract does not refuse that name, and
  `DefaultNameBreaksConsistency` shows three calls that break the invariant
  with it.
 */
module NameServiceInvariant {
  import opened Bytes
  import opened NameService

  /**
    Every name other than `Hash::default()` whose owner is not `default_address`
    is that owner's name, and every account other than `default_address` whose
    name is not `Hash::default()` owns that name.
   */
  ghost predicate Consistent(s: State) {
    && (forall n :: n != DefaultHash() && OwnerOf(s, n) != s.defaultAddress ==> NameOf(s, OwnerOf(s, n)) == n)
    && (forall a :: a != s.defaultAddress && NameOf(s, a) != DefaultHash() ==> OwnerOf(s, NameOf(s, a)) == a)
  }

  /** In a consistent registry, `name_has_owner` of a real name just asks whether its owner is not the default. */
  lemma NameHasOwnerWhenConsistent(s: State, name: Hash)
    requires Consistent(s) && name != DefaultHash()
    ensures NameHasOwner(s, name) <==> OwnerOf(s, name) != s.defaultAddress
  {
  }

  /** In a consistent registry, `account_has_name` of a real account just asks whether its name is not the default. */
  lemma AccountHasNameWhenConsistent(s: State, account: AccountId)
    requires Consistent(s) && account != s.defaultAddress
    ensures AccountHasName(s, account) <==> NameOf(s, account) != DefaultHash()
  {
  }

  /** A freshly deployed registry is consistent. */
  lemma NewIsConsistent(deployer: AccountId)
    ensures Consistent(New(deployer))
  {
  }

  lemma RegisterPreservesConsistent(s: State, caller: AccountId, name: Hash)
    requires Consistent(s) && name != DefaultHash()
    ensures Consistent(Register(s, caller, name).state)
  {
  }

  lemma ForceRegisterPreservesConsistent(s: State, caller: AccountId, name: Hash, to: AccountId)
    requires Consistent(s) && name != DefaultHash()
    ensures Consistent(ForceRegister(s, caller, name, to).state)
  {
  }

  lemma TransferPreservesConsistent(s: State, caller: AccountId, name: Hash, to: AccountId)
    requires Consistent(s) && name != DefaultHash()
    ensures Consistent(Transfer(s, caller, name, to).state)
  {
  }

  lemma ForceTransferPreservesConsistent(s: State, caller: AccountId, name: Hash, from: AccountId, to: AccountId)
    requires Consistent(s) && name != DefaultHash()
    ensures Consistent(ForceTransfer(s, caller, name, from, to).state)
  {
  }

  lemma TransferAdminPreservesConsistent(s: State, caller: AccountId, newAdmin: AccountId)
    requires Consistent(s)
    ensures Consistent(TransferAdmin(s, caller, newAdmin).state)
  {
    var s' := TransferAdmin(s, caller, newAdmin).state;
    assert forall n :: OwnerOf(s', n) == OwnerOf(s, n);
    assert forall a :: NameOf(s', a) == NameOf(s, a);
  }

  /** A state-changing message with its arguments, as the contract's dispatcher receives it. */
  datatype Message =
    | RegisterCall(name: Hash)
    | ForceRegisterCall(name: Hash, to: AccountId)
    | TransferCall(name: Hash, to: AccountId)
    | ForceTransferCall(name: Hash, from: AccountId, to: AccountId)
    | TransferAdminCall(newAdmin: AccountId)

  /** One transaction: who signed it and which message it carries. */
  datatype Call = Call(caller: AccountId, message: Message)

  /** Runs one message against the storage. */
  function Dispatch(s: State, call: Call): Reply {
    match call.message
    case RegisterCall(name) => Register(s, call.caller, name)
    case ForceRegisterCall(name, to) => ForceRegister(s, call.caller, name, to)
    case TransferCall(name, to) => Transfer(s, call.caller, name, to)
    case ForceTransferCall(name, from, to) => ForceTransfer(s, call.caller, name, from, to)
    case TransferAdminCall(newAdmin) => TransferAdmin(s, call.caller, newAdmin)
  }

  /** The storage after a sequence of transactions, failed ones included (they leave it unchanged). */
  function Run(s: State, calls: seq<Call>): State
    decreases |calls|
  {
    if calls == [] then s else Run(Dispatch(s, calls[0]).state, calls[1..])
  }

  /** True when the message does not name `Hash::default()`. */
  predicate AvoidsDefaultName(m: Message) {
    m.TransferAdminCall? || m.name != DefaultHash()
  }

  /** Every message preserves consistency, as long as it does not name `Hash::default()`. */
  lemma DispatchPreservesConsistent(s: State, call: Call)
    requires Consistent(s) && AvoidsDefaultName(call.message)
    ensures Consistent(Dispatch(s, call).state)
  {
    match call.message
    case RegisterCall(name) => RegisterPreservesConsistent(s, call.caller, name);
    case ForceRegisterCall(name, to) => ForceRegisterPreservesConsistent(s, call.caller, name, to);
    case TransferCall(name, to) => TransferPreservesConsistent(s, call.caller, name, to);
    case ForceTransferCall(name, from, to) => ForceTransferPreservesConsistent(s, call.caller, name, from, to);
    case TransferAdminCall(newAdmin) => TransferAdminPreservesConsistent(s, call.caller, newAdmin);
  }

  /** Consistency survives any sequence of transactions that never names `Hash::default()`. */
  lemma {:induction false} RunPreservesConsistent(s: State, calls: seq<Call>)
    requires Consistent(s)
    requires forall i :: 0 <= i < |calls| ==> AvoidsDefaultName(calls[i].message)
    ensures Consistent(Run(s, calls))
    decreases |calls|
  {
    if calls != [] {
      DispatchPreservesConsistent(s, calls[0]);
      var rest := calls[1..];
      assert forall i :: 0 <= i < |rest| ==> AvoidsDefaultName(rest[i].message) by {
        forall i | 0 <= i < |rest|
          ensures AvoidsDefaultName(rest[i].message)
        {
          assert rest[i] == calls[i + 1];
        }
      }
      RunPreservesConsistent(Dispatch(s, calls[0]).state, rest);
    }
  }

  /**
    The invariant of the deployed contract: from the storage `new` builds, the
    two maps stay mutual inverses on real names and accounts, and the guards
    `name_has_owner` and `account_has_name` read as their names say.
   */
  lemma ReachableIsConsistent(deployer: AccountId, calls: seq<Call>, name: Hash, account: AccountId)
    requires forall i :: 0 <= i < |calls| ==> AvoidsDefaultName(calls[i].message)
    ensures Consistent(Run(New(deployer), calls))
    ensures name != DefaultHash() ==>
      (NameHasOwner(Run(New(deployer), calls), name) <==> OwnerOf(Run(New(deployer), calls), name) != ZeroAddress())
    ensures account != ZeroAddress() ==>
      (AccountHasName(Run(New(deployer), calls), account) <==> NameOf(Run(New(deployer), calls), account) != DefaultHash())
  {
    NewIsConsistent(deployer);
    RunPreservesConsistent(New(deployer), calls);
    RunKeepsDefaultAddress(New(deployer), calls);
  }

  /** No message changes `default_address`. */
  lemma {:induction false} RunKeepsDefaultAddress(s: State, calls: seq<Call>)
    ensures Run(s, calls).defaultAddress == s.defaultAddress
    decreases |calls|
  {
    if calls != [] {
      RunKeepsDefaultAddress(Dispatch(s, calls[0]).state, calls[1..]);
    }
  }

  /**
    The second quirk: a name nobody owns reports `default_address` (the zero
    address) as its owner, so whoever holds the zero address's known key passes
    the owner check of `transfer` and can hand any such name to an account
    without a name.
   */
  lemma ZeroAddressTransfersUnownedName(s: State, name: Hash, to: AccountId)
    requires OwnerOf(s, name) == s.defaultAddress && !AccountHasName(s, to)
    ensures Transfer(s, s.defaultAddress, name, to).result == Ok
    ensures OwnerOf(Transfer(s, s.defaultAddress, name, to).state, name) == to
  {
  }

  /** An account whose 32 bytes all equal `b`. */
  function Account(b: uint8): AccountId {
    AccountId(seq(32, _ => b))
  }

  /**
    The gap: with `Hash::default()` as a name, three successful calls signed by
    one account `alice` leave `alice` owning `m` while `name_of(alice)` is the
    default name, so `register` then lets `alice` take a second name `m2`.
   */
  lemma DefaultNameBreaksConsistency(m: Hash, m2: Hash)
    requires m != DefaultHash() && m2 != DefaultHash() && m != m2
    ensures
      var alice, bob := Account(1), Account(2);
      var s0 := New(alice);
      var r1 := Register(s0, alice, DefaultHash());
      var r2 := Register(r1.state, alice, m);
      var r3 := Transfer(r2.state, alice, DefaultHash(), bob);
      var r4 := Register(r3.state, alice, m2);
      && r1.result == Ok && r2.result == Ok && r3.result == Ok && r4.result == Ok
      && Consistent(r2.state)
      && !Consistent(r3.state)
      && OwnerOf(r4.state, m) == alice && OwnerOf(r4.state, m2) == alice
  {
    var alice, bob := Account(1), Account(2);
    assert alice.bytes[0] == 1 && bob.bytes[0] == 2 && ZeroAddress().bytes[0] == 0;
    var s0 := New(alice);
    var r1 := Register(s0, alice, DefaultHash());
    var r2 := Register(r1.state, alice, m);
    var r3 := Transfer(r2.state, alice, DefaultHash(), bob);
    assert OwnerOf(r3.state, m) == alice && NameOf(r3.state, alice) == DefaultHash();
  }
}
