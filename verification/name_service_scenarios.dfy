/**
  The ink! unit tests of contract/lib.rs, replayed against the model: the
  accounts `alice`, `bob` and `charlie` are the all-1, all-2 and all-3
  addresses, and the two names are the all-0x99 and all-0x88 hashes.
 */
module NameServiceScenarios {
  import opened Bytes
  import opened NameService
  import opened NameServiceInvariant

  /** A name whose 32 bytes all equal `b`. */
  function Name(b: uint8): Hash {
    Hash(seq(32, _ => b))
  }

  /** The accounts and names the tests use are pairwise distinct and none is a default. */
  lemma Distinct()
    ensures Account(1) != Account(2) && Account(1) != Account(3) && Account(2) != Account(3)
    ensures Account(1) != ZeroAddress() && Account(2) != ZeroAddress() && Account(3) != ZeroAddress()
    ensures Name(0x99) != Name(0x88) && Name(0x99) != DefaultHash() && Name(0x88) != DefaultHash()
  {
    assert Account(1).bytes[0] == 1 && Account(2).bytes[0] == 2 && Account(3).bytes[0] == 3;
    assert ZeroAddress().bytes[0] == 0 && DefaultHash().bytes[0] == 0;
    assert Name(0x99).bytes[0] == 0x99 && Name(0x88).bytes[0] == 0x88;
  }

  /** Test `register_works`. */
  lemma RegisterWorks()
    ensures
      var alice, name, anotherName := Account(1), Name(0x99), Name(0x88);
      var r1 := Register(New(alice), alice, name);
      var r2 := Register(r1.state, alice, name);
      var r3 := Register(r2.state, alice, anotherName);
      r1.result == Ok && r2.result == Err(NameAlreadyExists) && r3.result == Err(AccountAlreadyHasName)
  {
    Distinct();
  }

  /** Test `force_register_works`. */
  lemma ForceRegisterWorks()
    ensures
      var alice, bob, name, anotherName := Account(1), Account(2), Name(0x99), Name(0x88);
      var s := New(alice);
      var r1 := ForceRegister(s, bob, name, bob);
      var r2 := ForceRegister(r1.state, alice, name, bob);
      var r3 := ForceRegister(r2.state, alice, anotherName, bob);
      GetAdmin(s) == alice && r1.result == Err(CallerIsNotAdmin) && r2.result == Ok && r3.result == Err(AccountAlreadyHasName)
  {
    Distinct();
  }

  /** Test `transfer_works`. */
  lemma TransferWorks()
    ensures
      var alice, bob, charlie, name, anotherName := Account(1), Account(2), Account(3), Name(0x99), Name(0x88);
      var r1 := Register(New(alice), alice, name);
      var r2 := Transfer(r1.state, alice, name, bob);
      var r3 := Transfer(r2.state, alice, name, charlie);
      var r4 := Register(r3.state, bob, anotherName);
      var r5 := Transfer(r4.state, bob, name, charlie);
      && r1.result == Ok && OwnerOf(r1.state, name) == alice
      && r2.result == Ok && OwnerOf(r2.state, name) == bob
      && r3.result == Err(CallerIsNotOwner)
      && r4.result == Err(AccountAlreadyHasName)
      && r5.result == Ok && NameOf(r5.state, charlie) == name
  {
    Distinct();
  }

  /** Test `force_transfer_works`. */
  lemma ForceTransferWorks()
    ensures
      var alice, bob, charlie, name, anotherName := Account(1), Account(2), Account(3), Name(0x99), Name(0x88);
      var s := New(alice);
      var r1 := ForceRegister(s, alice, name, bob);
      var r2 := ForceTransfer(r1.state, alice, name, alice, bob);
      var r3 := ForceTransfer(r2.state, alice, name, bob, charlie);
      var r4 := Transfer(r3.state, charlie, name, alice);
      var r5 := ForceTransfer(r4.state, charlie, name, alice, bob);
      var r6 := Register(r5.state, charlie, anotherName);
      var r7 := ForceTransfer(r6.state, alice, anotherName, charlie, alice);
      && GetAdmin(s) == alice
      && r1.result == Ok && NameOf(r1.state, bob) == name
      && r2.result == Err(CallerIsNotOwner)
      && r3.result == Ok && OwnerOf(r3.state, name) == charlie
      && r4.result == Ok && OwnerOf(r4.state, name) == alice
      && r5.result == Err(CallerIsNotAdmin)
      && r6.result == Ok
      && r7.result == Err(AccountAlreadyHasName)
  {
    Distinct();
  }

  /** Test `admin_transfer_works`. */
  lemma AdminTransferWorks()
    ensures
      var alice, bob, charlie := Account(1), Account(2), Account(3);
      var s := New(alice);
      var r1 := TransferAdmin(s, bob, charlie);
      var r2 := TransferAdmin(r1.state, alice, bob);
      GetAdmin(s) == alice && r1.result == Err(CallerIsNotAdmin) && r2.result == Ok && GetAdmin(r2.state) == bob
  {
    Distinct();
  }
}
