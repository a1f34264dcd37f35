# P2P name service: registry contract and name codec, in Dafny

This project models the two pieces of the P2P name service that hold its logic:

- **The ink! registry contract** (`contract/lib.rs`). Its storage binds 32-byte names (`Hash`) to accounts (`AccountId`) in two maps, name to account and account to name. It also keeps a fixed `default_address` (the zero address) and a mutable `admin_address`. The messages are `register`, `force_register`, `transfer`, `force_transfer` and `transfer_admin`. Each one runs its guard checks in a fixed order, returns a typed `Error` at the first check that fails, and only then writes storage. The query messages `name_of` and `owner_of` read a missing key back as `Hash::default()` or as `default_address`. Each message is a pure function from the storage, the caller (`env().caller()`, passed in as a parameter) and the arguments to a `Reply` holding the result and the new storage (`NameService`).
- **The fixed-width name codec** (`src/helpers/convert.ts`). `utf8StringToHex` UTF-8-encodes a text, refuses it when the encoding is longer than 32 bytes, right-pads it with zero bytes to exactly 32, and renders the result as `0x` hex. `hexToUtf8String` refuses input that fails `isHex`, parses the bytes, drops every zero byte wherever it sits, and decodes what is left. Text is a sequence of Unicode scalar values. Bytes are a `uint8` newtype. The UTF-8 encoder and decoder follow sections 3 and 4 of RFC 3629 (`Utf8`). The hex string layer is `Hex`, the codec itself is `Convert`, and its properties are in `ConvertProperties`.

The central property is the registry invariant `NameServiceInvariant.Consistent`. On every name other than `Hash::default()`, and every account other than `default_address`, the two maps are mutual inverses. The constructor establishes it, and every message preserves it, but only if no message is ever called with `Hash::default()` as its name. The contract does not refuse that name. `DefaultNameBreaksConsistency` gives three successful calls that break the invariant with it:

1. `register(Hash::default())`
2. `register(m)`
3. `transfer(Hash::default(), bob)`

After them the signer owns `m` while `name_of` reports no name, so `register` lets the same account take a second name. `NameKey` connects this gap to the codec. The empty name (and any name made only of U+0000) encodes to the all-zero word, which is `Hash::default()`. A non-empty name without U+0000 never does.

A second quirk is `ZeroAddressTransfersUnownedName`. An unowned name reports `default_address` as its owner. So whoever signs as the zero address (a key that is publicly known) passes the owner check of `transfer` for every unowned name.

`hexToUtf8String` does not check the length of its input: it accepts the hex of any number of bytes (`ConvertProperties.AnyLengthAccepted`). Nor does it reject bytes that are not UTF-8 itself, because it decodes with `TextDecoder`. The model follows the code on length. It handles invalid UTF-8 differently from the code; see "Left out" below.

A name read back does not always equal the name written. The zero filter removes every U+0000 in the name (`ConvertProperties.NulIsLost`). `u8aToString` decodes with `TextDecoder` and its default options, which drop one leading byte-order mark U+FEFF (`ConvertProperties.LeadingBomIsLost`). `ConvertProperties.RoundTripDropsNul` states exactly what comes back, and `ConvertProperties.RoundTrip` holds for every name outside these two cases.

The `/register` and `/validate` handlers in `src/routes.ts` are stubs. `/admin-address` only reads the contract's `get_admin` query, which `NameService.GetAdmin` models. `initBlockchainInst` in `src/app.ts` is empty. So there is no session, submission or transaction logic to model.

The file `name_service_scenarios.dfy` replays the contract's own ink! unit tests against the model.

## Model

| member | source | states |
|---|---|---|
| Utf8.Encode | src/helpers/convert.ts:12 | no contract: the encoder `stringToHex` applies, scalar by scalar; its partners are `Utf8.DecodeEncode`, `Utf8.EncodeDecode` and `Utf8.EncodeLength` |
| Utf8.Decode | src/helpers/convert.ts:52 | no contract: the UTF-8 decoder of `u8aToString`, one scalar at a time; its partners are `Utf8.DecodeEncode` and `Utf8.EncodeDecode` |
| Utf8.EncodeScalar | src/helpers/convert.ts:12 | a scalar value takes 1, 2, 3 or 4 bytes by the ranges of RFC 3629; every byte of a multi-byte form is at least 0x80 |
| Utf8.EncodeAppend | src/helpers/convert.ts:12 | UTF-8 encoding of a concatenation is the concatenation of the encodings |
| Utf8.EncodeLength | src/helpers/convert.ts:12-13 | a text of n scalar values encodes to between n and 4n bytes |
| Utf8.DecodeFirstEncodeScalar | src/helpers/convert.ts:52 | the decoder reads back, from the head of any byte sequence, exactly the scalar value the encoder wrote there and its width |
| Utf8.DecodeEncode | src/helpers/convert.ts:52 | decoding the UTF-8 encoding of any text gives back that text |
| Utf8.EncodeScalarDecodeFirst | src/helpers/convert.ts:52 | whatever scalar the decoder accepts at the head of a byte sequence, its encoding is exactly the bytes consumed |
| Utf8.EncodeDecode | src/helpers/convert.ts:52 | any byte sequence the decoder accepts is the encoding of the text it returns |
| Utf8.EncodeInjective | src/helpers/convert.ts:12 | two texts with the same UTF-8 bytes are the same text |
| Utf8.EncodeZeroFree | src/helpers/convert.ts:50 | an encoding has a zero byte exactly when the text contains U+0000 |
| Hex.IsHex | src/helpers/convert.ts:44 | no contract: the check as written, `0x` followed by an even number of hex digits of either case |
| Hex.U8aToHex | src/helpers/convert.ts:31-34 | the result passes `isHex`, has 2 + 2n characters for n bytes, and holds no upper-case digit |
| Hex.DigitsAreLowerCase | src/helpers/convert.ts:31-34 | the digits written for any bytes hold no upper-case digit |
| Hex.HexToU8a | src/helpers/convert.ts:48 | a digit run of 2n characters, with or without `0x`, parses to n bytes |
| Hex.ParseDigitsValues | src/helpers/convert.ts:48 | each parsed byte is 16 times the value of its first digit plus the value of its second, for digits of either case |
| Hex.Digit | src/helpers/convert.ts:31 | the digit written for a nibble is a lower-case hex digit whose value is that nibble |
| Hex.ParseDigitsOfDigits | src/helpers/convert.ts:31 | the digits written for any bytes form a well-formed digit run that parses back to those bytes |
| Hex.HexToU8aOfU8aToHex | src/helpers/convert.ts:34 | `u8aToHex` output passes `isHex`, has 2 + 2n characters, and `hexToU8a` gives back the bytes |
| Hex.HexToU8aOfDigits | src/helpers/convert.ts:12 | the bare digits without `0x` also parse back to the bytes, since no digit run starts with `0x` |
| Hex.DigitsOfParseDigits | src/helpers/convert.ts:48 | a lower-case digit run is exactly what `u8aToHex` writes for the bytes it parses to |
| Convert.StringToHex | src/helpers/convert.ts:12 | the result passes `isHex`, has 2 + 2n characters for an n-byte encoding, and parses back to the text's UTF-8 bytes |
| Convert.ReplaceFirst0x | src/helpers/convert.ts:12 | on a string that starts with `0x`, `.replace('0x', '')` removes exactly that prefix |
| Convert.EncodedString | src/helpers/convert.ts:12-13 | hex-encoding a text, removing the prefix and parsing the digits gives the text's UTF-8 bytes |
| Convert.EncodeName | src/helpers/convert.ts:11-35 | fails with TooLarge(n) exactly when the UTF-8 length n exceeds 32; otherwise the 32-byte word begins with the UTF-8 bytes and every later byte is zero, so 32-byte input is kept unchanged |
| Convert.Utf8StringToHex | src/helpers/convert.ts:11-35 | fails with TooLarge(n) exactly when n > 32; otherwise returns a 66-character `isHex` string whose bytes are the UTF-8 bytes followed by 32 - n zero bytes |
| Convert.RemoveZeros | src/helpers/convert.ts:50 | the filtered bytes contain no zero, and as a multiset they are the input with all zeros removed |
| Convert.U8aToString | src/helpers/convert.ts:52 | accepts exactly UTF-8 input; the result's encoding is the input without one leading byte-order mark EF BB BF |
| Convert.BomDecodes | src/helpers/convert.ts:52 | accepted bytes start with EF BB BF exactly when their text starts with U+FEFF, and the rest decodes to the rest of the text |
| Convert.DecodeName | src/helpers/convert.ts:48-52 | succeeds exactly when the bytes left after the zero filter are UTF-8, and then the text's encoding is those bytes, minus one leading byte-order mark; any failure is InvalidUtf8 |
| Convert.HexToUtf8String | src/helpers/convert.ts:43-53 | fails with NotHex exactly when `isHex` refuses the input; an `isHex` input succeeds exactly when its parsed bytes, zeros removed, are UTF-8, and otherwise fails with InvalidUtf8; a success's UTF-8 encoding is the parsed bytes with all zero bytes, and then one leading byte-order mark, removed |
| ConvertProperties.RemoveZerosAppend | src/helpers/convert.ts:50 | the zero filter distributes over concatenation |
| ConvertProperties.RemoveZerosOfZeroFree | src/helpers/convert.ts:50 | bytes without a zero pass the filter unchanged |
| ConvertProperties.RemoveZerosOfZeros | src/helpers/convert.ts:50 | a run of zero bytes filters to nothing |
| ConvertProperties.RemoveEmbeddedZeros | src/helpers/convert.ts:50 | zero bytes in the middle are removed just like trailing ones |
| ConvertProperties.EmbeddedZerosIgnored | src/helpers/convert.ts:37-52 | decoding ignores a run of zero bytes wherever it sits in the word |
| ConvertProperties.AnyLengthAccepted | src/helpers/convert.ts:43-53 | the hex of bytes of any length is accepted (never NotHex) and decoded as those bytes |
| ConvertProperties.TrailingPaddingIgnored | src/helpers/convert.ts:48-52 | trailing zero padding of any length does not change the decoded text |
| ConvertProperties.RemoveNul | src/helpers/convert.ts:50 | reference for what decoding keeps: the text without U+0000, as a multiset the text minus its U+0000s |
| ConvertProperties.RemoveZerosOfEncodeScalar | src/helpers/convert.ts:50 | filtering one scalar's bytes leaves nothing for U+0000 and its whole encoding otherwise |
| ConvertProperties.RemoveZerosOfEncode | src/helpers/convert.ts:50 | filtering the zero bytes of an encoding gives the encoding of the text without U+0000 |
| ConvertProperties.RemoveZerosOfWord | src/helpers/convert.ts:19-34 | filtering the zeros out of a stored 32-byte word gives the name's encoding without its U+0000s |
| ConvertProperties.U8aToStringOfEncode | src/helpers/convert.ts:52 | `u8aToString` returns any encoded text, less a leading U+FEFF |
| ConvertProperties.RoundTripDropsNul | src/helpers/convert.ts:11-53 | every text that fits in 32 bytes comes back from the round trip with exactly its U+0000 characters removed, and then a leading U+FEFF dropped |
| ConvertProperties.RemoveNulOfNulFree | src/helpers/convert.ts:50 | a text without U+0000 is unchanged by removing U+0000 |
| ConvertProperties.RoundTrip | src/helpers/convert.ts:11-53 | `hexToUtf8String(utf8StringToHex(t)) == t` for every t that fits in 32 bytes, contains no U+0000 and does not start with U+FEFF |
| ConvertProperties.NulIsLost | src/helpers/convert.ts:48-52 | the text "a\0b" comes back as "ab": embedded U+0000 is not round-trip safe |
| ConvertProperties.LeadingBomIsLost | src/helpers/convert.ts:11-53 | the text "\u{FEFF}a" comes back as "a": a leading byte-order mark is not round-trip safe |
| ConvertProperties.LongTextRejected | src/helpers/convert.ts:15-17 | a text of more than 32 scalar values is always refused with its byte size |
| ConvertProperties.AliceScenario | src/helpers/convert.ts:19-31 | "alice" encodes to its 5 ASCII bytes and 27 zero bytes and decodes back to "alice" |
| NameKey.RemoveZerosEmpty | src/helpers/convert.ts:50 | the filter leaves nothing exactly when every byte is zero |
| NameKey.DefaultNameIffOnlyNul | src/helpers/convert.ts:19-34 | an encoded name is the all-zero word `Hash::default()` exactly when the text is empty after removing U+0000 |
| NameKey.EmptyNameIsDefaultHash | src/helpers/convert.ts:19-31 | the empty name is stored as `Hash::default()` |
| NameKey.NulFreeNameIsNotDefault | src/helpers/convert.ts:11-34 | a non-empty name without U+0000 that fits is never stored as `Hash::default()` |
| NameService.ZeroAddress | contract/lib.rs:315-317 | every one of the 32 bytes of the zero address is 0 |
| NameService.New | contract/lib.rs:86-99 | after deployment the deployer is admin, `default_address` is the zero address, every name is owned by the zero address and every account reads the default name |
| NameService.DefaultState | contract/lib.rs:49-64 | `Default` builds the storage `new` builds when the zero address deploys, so the admin is the zero address |
| NameService.GetAdmin | contract/lib.rs:227-229 | no contract: reads `admin_address`; `NameService.New` and `NameService.TransferAdmin` state what it returns |
| NameService.NameOf | contract/lib.rs:233-246 | an account with an entry reads exactly the stored name; an account with no entry reads `Hash::default()` |
| NameService.OwnerOf | contract/lib.rs:239-253 | a name with an entry reads exactly the stored owner; a name with no entry reads `default_address` |
| NameService.SetAccountName | contract/lib.rs:256-261 | afterwards the name reads as owned by the account and the account reads that name; every other name, account, the admin and `default_address` read as before |
| NameService.RemoveAccountName | contract/lib.rs:264-269 | afterwards the name reads `default_address` and the account reads `Hash::default()`; nothing else changes |
| NameService.NameHasOwner | contract/lib.rs:272-289 | no contract: the guard as written, the owner is not `default_address` and that owner's name is not `Hash::default()`; `NameServiceInvariant.NameHasOwnerWhenConsistent` says what it means in a consistent registry |
| NameService.AccountHasName | contract/lib.rs:292-309 | no contract: the guard as written, the name is not `Hash::default()` and that name's owner is not `default_address`; `NameServiceInvariant.AccountHasNameWhenConsistent` says what it means in a consistent registry |
| NameService.Register | contract/lib.rs:103-118 | NameAlreadyExists is checked before AccountAlreadyHasName; on either error storage is unchanged; success exactly when both guards pass, and then the caller owns the name, has it as its name, and no other key or the admin changes |
| NameService.ForceRegister | contract/lib.rs:122-141 | a non-admin gets CallerIsNotAdmin before any other check, with storage unchanged; for the admin the guards follow as in `register` but on `to`, and success binds the name to `to`, not to the caller |
| NameService.Move | contract/lib.rs:156-157 | remove then set: the name reads as owned by `to`, `to` reads the name, the old owner reads `Hash::default()` unless it is `to`, and nothing else changes |
| NameService.Transfer | contract/lib.rs:145-169 | CallerIsNotOwner unless the caller is `owner_of(name)`, then AccountAlreadyHasName if `to` has a name; errors leave storage unchanged; success makes `to` the owner and `name_of(to)` the name, clears the old owner's name, and changes nothing else |
| NameService.ForceTransfer | contract/lib.rs:173-202 | checks admin (CallerIsNotAdmin), then `from == owner_of(name)` (CallerIsNotOwner), then `to` has no name (AccountAlreadyHasName); success moves the name from `from` to `to` as in `transfer` |
| NameService.TransferAdmin | contract/lib.rs:206-223 | succeeds exactly for the current admin; afterwards `get_admin` is `new_admin`, whatever it is, and neither map changes; otherwise CallerIsNotAdmin with storage unchanged |
| NameServiceInvariant.NameHasOwnerWhenConsistent | contract/lib.rs:272-289 | in a consistent registry, a real name has an owner exactly when its owner is not `default_address` |
| NameServiceInvariant.AccountHasNameWhenConsistent | contract/lib.rs:292-309 | in a consistent registry, a real account has a name exactly when its name is not `Hash::default()` |
| NameServiceInvariant.NewIsConsistent | contract/lib.rs:86-99 | the freshly deployed storage satisfies the invariant |
| NameServiceInvariant.RegisterPreservesConsistent | contract/lib.rs:103-118 | `register` of a name other than `Hash::default()` preserves the invariant |
| NameServiceInvariant.ForceRegisterPreservesConsistent | contract/lib.rs:122-141 | `force_register` of a name other than `Hash::default()` preserves the invariant |
| NameServiceInvariant.TransferPreservesConsistent | contract/lib.rs:145-169 | `transfer` of a name other than `Hash::default()` preserves the invariant |
| NameServiceInvariant.ForceTransferPreservesConsistent | contract/lib.rs:173-202 | `force_transfer` of a name other than `Hash::default()` preserves the invariant |
| NameServiceInvariant.TransferAdminPreservesConsistent | contract/lib.rs:206-223 | `transfer_admin` preserves the invariant |
| NameServiceInvariant.DispatchPreservesConsistent | contract/lib.rs:101-223 | every message that does not name `Hash::default()` preserves the invariant |
| NameServiceInvariant.RunPreservesConsistent | contract/lib.rs:101-223 | any sequence of such messages, failed ones included, preserves the invariant |
| NameServiceInvariant.RunKeepsDefaultAddress | contract/lib.rs:43-44 | no message changes `default_address` |
| NameServiceInvariant.ReachableIsConsistent | contract/lib.rs:37-47 | every storage reachable from `new` without naming `Hash::default()` is consistent, and in it the two guards mean "owner is not zero" and "name is not default" |
| NameServiceInvariant.ZeroAddressTransfersUnownedName | contract/lib.rs:147-149 | the zero address passes the owner check of `transfer` for every unowned name and can give it to any account without a name |
| NameServiceInvariant.DefaultNameBreaksConsistency | contract/lib.rs:145-157 | register(`Hash::default()`), register(m), transfer(`Hash::default()`, bob) all succeed and break the invariant; afterwards the same account can register a second name |
| NameServiceScenarios.RegisterWorks | contract/lib.rs:331-343 | test `register_works`: Ok, then NameAlreadyExists, then AccountAlreadyHasName |
| NameServiceScenarios.ForceRegisterWorks | contract/lib.rs:345-365 | test `force_register_works`: non-admin refused, admin binds the name to bob, a second name for bob refused |
| NameServiceScenarios.TransferWorks | contract/lib.rs:367-391 | test `transfer_works`: owner changes alice to bob to charlie; a non-owner and an account with a name are refused |
| NameServiceScenarios.ForceTransferWorks | contract/lib.rs:393-427 | test `force_transfer_works`: wrong `from`, non-admin and a target with a name are refused in that order of checks |
| NameServiceScenarios.AdminTransferWorks | contract/lib.rs:429-448 | test `admin_transfer_works`: only the admin can hand over the role |

## Left out

- Events: `Register`, `Transfer` and `TransferAdmin` are environment side effects and are not modelled. `Transfer.old_owner` is read after the new owner is written (contract/lib.rs:159, 192), so it reports the new owner. The model does not reproduce this.
- The `Result` returned by `set_account_name` and `remove_account_name` is always `Ok`, so their `?` never fires. The model returns the new storage directly.
- ink `Mapping` storage layout, gas and storage deposits are not modelled: only the values the maps hold.
- Convert.DecodeName: bytes left after the zero filter that are not valid UTF-8 give the error InvalidUtf8. The source's `TextDecoder` would substitute U+FFFD instead. So the model says nothing about what hexToUtf8String returns for such input.
- Convert.U8aToString: models the platform `TextDecoder`, which `@polkadot/util` uses when one exists. Its fallback decoder for platforms without one is not part of this model. Input that is not UTF-8 gives None rather than text with U+FFFD.
- Convert.HexToUtf8String: the same InvalidUtf8 simplification applies. `isHex` is modelled as `0x` followed by hex digits of either case, with even total length (`0x` alone is accepted). The library's code is not part of this model.
- Convert.Utf8StringToHex: a JavaScript string holding a lone surrogate cannot be expressed. Text is a sequence of Unicode scalar values, and `TextEncoder` would write U+FFFD for a lone surrogate. The error message text is also dropped; only the byte size is kept.
- Hex.HexToU8a: defined only for hex digit runs of even length, with or without `0x`. The codec never calls it on anything else; what the library does on other input is not modelled.
- src/routes.ts, src/app.ts: the HTTP routes and server start-up. `/register` and `/validate` are stubs. `/` returns a fixed greeting. `/admin-address` calls the `get_admin` query (modelled by `NameService.GetAdmin`) and renders the account as text; the contract API call and that rendering are I/O and are not modelled. The ledger connection set-up is an empty function.
- src/helpers/contracts.ts, src/config/index.ts, src/types/*.ts: a thin wrapper over the contract API library, configuration values and type declarations. These contain no logic.
- Session validation, transaction signing, submission and finality tracking do not exist in the code, so they are not modelled.
