# Mercury Layer in Dafny

Mercury Layer moves ownership of a bitcoin output off chain. The key of the output is shared
between the current owner and a lockbox; a transfer replaces both shares without changing
their sum, and a chain of backup transactions with falling locktimes lets the newest owner
claim first. This project models the parts that carry that promise and proves them.

| file | what it models |
|---|---|
| `Bytes`, `Curve` | bytes and big-endian numbers; a cyclic group of odd prime order in which the point kG is named by k, with the parity of its Y coordinate as a parameter |
| `KeyShares` | the key update of the lockbox and of the SGX enclave on 32-byte buffers, the blinded hand-over t1/t2, runs of transfers |
| `BlindSign` | the blinded two-party signature: tweak, session, half signatures, aggregation, verification after BIP 340 |
| `Hex`, `SealedBlob` | the hexadecimal texts and the sealed-record format |
| `Lockbox`, `LockboxRuns`, `RunCounts`, `LockboxServer` | the lockbox's table and what each request reads, computes and writes; what holds in every run of uninterrupted requests, the signature count included; the server object whose methods produce such runs |
| `Threads`, `SignatureCounts`, `TransactionCoherence` | the same requests split into database transactions, interleaved by any number of threads, with crashes; when the signature count is exact; when rows stay coherent |
| `Races`, `RaceInstances` | requests that overtake one another: a count, a nonce request, a key update; schedules in which each happens |
| `Locktime` | backup schedules, withdrawals, the life of a coin |
| `Receiver`, `ReceiverRuns` | the receiver's check of the backups in a message, chain by chain; what it guarantees together with the count it was told |
| `Utf8`, `Uniffi`, `UniffiBuffers`, `WalletCodec` | the record format of the Python bindings, its write buffer and read stream, the wallet |
| `Bech32`, `Bech32Strings`, `Address` | statechain addresses and the output that pays them |
| `Escape`, `Brackets`, `SplitUp`, `CheckedMultiply`, `Exclusion` | algorithms of the command-line library that ships with the lockbox |

`dafny verify dfyconfig.toml` checks all of it.

Points on which the source decides:

- Signing is complete exactly when the blinded nonces do not cancel
  (`BlindSign.SigningComplete`). In the remaining case the library puts the generator in the
  place of the final nonce and the signature does not verify.
- The design documents give t2 and the key update for any shares. The code refuses a transfer
  in which one of four intermediate sums is zero; `KeyShares.TransferMovesShare` states the
  condition.
- The documents say that the count is of signatures generated. The lockbox counts after
  computing and before answering. `SignatureCounts.CountIsExact` says over every schedule when
  the count is the number generated and when it is also the number released, and
  `SignatureCounts.CrashSeparates` gives the two schedules in which they part.
- A key update that overtakes a nonce request leaves a row with a nonce for its former key
  (`TransactionCoherence.OvertakenNonce`). As long as registrations use free ids nothing else
  breaks the coherence of the rows (`TransactionCoherence.CoherentExactly`).
  A signature request on such a row stops the enclave (`Races.AbortsExactly`).
- Two key updates that both load a row before either commits are both answered with a key.
  `Races.RacingUpdates` says when the first receiver's share still completes the joint key.
- A count is the counter at the moment its request loads it, not when the answer arrives.
  `ReceiverRuns.ReceiverSafety` speaks of the load, and `RaceInstances.LateCountHappens` gives a
  schedule in which one more signature is released before the answer.
- Locktimes are 32-bit numbers that wrap. `Locktime.ScheduleExactly` gives, for every height,
  initlock and interval, the condition under which every chain of backups is the documented
  schedule; `Locktime.WrapsHappen` gives an input for each half of it. The receiver's
  comparison of neighbouring locktimes wraps as well; `Receiver.StepsDownExactly` says when it
  means what it says, and `Receiver.RisingChain` gives an accepted chain whose locks rise.
- `lift` accepts any non-zero byte as true, so reading and writing again need not give the
  same bytes; `Uniffi.ReadExactly` states when it does.
- `close_string_quote` can return one past the size; `Brackets.DanglingBackslash` states when.
- `decode_transfer_address` slices without a length check. `Address.PanicsExactly` says on
  which addresses it panics: those with fewer than 34 bytes, and those with fewer than 67 whose
  first key is valid. `Address.ShortAddress` and `Address.HalfAddress` give such addresses on
  both networks.
- `decode_transfer_address` passes over bytes after the second key, so an address is not the
  only one for its keys; `Address.AddressCanonical` says which one is.

## Model

| member | source | states |
|---|---|---|
| `Bytes.BigEndianRoundTrip` | lib/out-python/mercurylib.py:204-231 | a number that fits is read back from its big-endian bytes |
| `Bytes.BigEndianBytesRoundTrip` | lib/out-python/mercurylib.py:133-163 | bytes are written back from the number they were read as |
| `Curve.EvenYIsEven` | lib/src/transaction.rs:390-398 | the chosen point is even, its negative is odd, and both points choose the same one, so an x-only key determines it |
| `KeyShares.UpdatedShareExactly` | lockbox/src/enclave.cpp:230-250 | an update goes through exactly when t2 and x1 are in range, x1 is a key and neither sum is zero, and then stores s + t2 - x1 mod n |
| `KeyShares.SeckeyTweakAdd` | lockbox/src/enclave.cpp:237-250 | adds a scalar to a key in a 32-byte buffer, or zeroes the buffer and reports failure |
| `KeyShares.SeckeyNegate` | lockbox/src/enclave.cpp:246-247 | negates a key in a 32-byte buffer, or zeroes the buffer and reports failure |
| `KeyShares.LockboxKeyUpdate` | lockbox/src/enclave.cpp:230-259 | the lockbox's buffer steps compute the same update as the equation, and leave the inputs alone |
| `KeyShares.SgxKeyUpdate` | enclave/Enclave/Enclave.cpp:297-380 | the enclave's buffer steps compute that same update, after its own length checks |
| `KeyShares.DrawSeckey` | lockbox/src/enclave.cpp:54-61 | the retry loop returns the first draw that is a secret key and skips none |
| `KeyShares.TransferMovesShare` | lib/src/transfer/receiver.rs:557-576 | a transfer succeeds exactly when none of its four sums vanishes, and then the new share is s + o - o', with x1 gone |
| `KeyShares.CancelledTransfer` | lib/src/transfer/sender.rs:98-102 | in every group a transfer whose x1 cancels the owner's share is refused |
| `KeyShares.JointKeyConserved` | docs/README.md:11 | over any run of transfers the two current shares add up to the deposit's joint key, and the owner share is the last receiver's |
| `KeyShares.OnlyCurrentOwnerPasses` | lib/src/utils.rs:64-81 | after any run the aggregate-key check answers yes for the current owner's share and for no other |
| `BlindSign.OutputKeyEquation` | enclave/secp256k1-zkp/src/modules/musig/session_impl.h:824-875 | the tweaked output key is the sign-corrected joint key plus the tweak |
| `BlindSign.PartialSignEquation` | enclave/secp256k1-zkp/src/modules/musig/session_impl.h:1057-1128 | a half signature is given if and only if the nonce was drawn under the key, and is the signed nonce plus challenge times signed share |
| `BlindSign.NonceEquation` | enclave/secp256k1-zkp/src/modules/musig/session_impl.h:540-578 | the blinded nonce is the sum of the four nonces and the blinded output key |
| `BlindSign.ChallengeEquation` | enclave/secp256k1-zkp/src/modules/musig/session_impl.h:668-766 | the challenge that is signed is the Schnorr challenge shifted by the signed blinding factor |
| `BlindSign.SessionEquations` | lib/src/transaction.rs:281-319 | all fields of an opened session in terms of the secrets behind it |
| `BlindSign.FinNonceUnused` | lib/src/transaction.rs:335-350 | the server's half does not depend on the final nonce that is removed from its session |
| `BlindSign.JointSignatureEquation` | lib/src/transaction.rs:274-398 | the aggregated s is signed nonce plus challenge times even-Y key: blinding and tweak cancel |
| `BlindSign.SigningComplete` | lib/src/transaction.rs:370-401 | both halves always exist, and their sum verifies under the output key if and only if the blinded nonces do not cancel |
| `BlindSign.CancelledNonces` | enclave/secp256k1-zkp/src/modules/musig/session_impl.h:540-578 | a group of seven with nonces that cancel: both halves exist and the signature does not verify |
| `BlindSign.ClientHalfVerifies` | lib/src/transaction.rs:331-333 | the client's check passes for its own half signature and for no other value |
| `BlindSign.SigningSurvivesTransfers` | docs/README.md:11-13 | after any run of transfers the current owner and the server sign for the very output key fixed at deposit, under the same condition |
| `Hex.ParseHex` | lockbox/src/utils.cpp:35-51 | the parser's loop computes the bytes of the text unit by unit |
| `Hex.LongestPrefix` | lockbox/src/utils.cpp:35-51 | for every text split into units (whitespace, two digits) and a rest that no unit starts, exactly the units are read |
| `Hex.EveryTextDecomposes` | lockbox/src/utils.cpp:35-51 | every text has such a split |
| `Hex.StartsWithUnitIff` | lockbox/src/utils.cpp:31-51 | looking past the whitespace decides whether a unit starts here |
| `Hex.DataToHex` | enclave/Enclave/Enclave.cpp:17-29 | fills a zero-terminated buffer with two digits a byte |
| `Hex.KeyToString` | lockbox/src/utils.cpp:56-62 | the same digits behind 0x |
| `Hex.RoutesReadPrinters` | lockbox/src/server.cpp:356-374 | what either printer writes is read back by a route, with the prefix or without |
| `Hex.HexToBytes` | enclave/utils/strencodings.cpp:51-66 | refuses odd lengths; on any other text it fills the output pair by pair as a stream in hexadecimal mode reads it, which is what ParseHex gives if and only if the text consists of digits |
| `Hex.HexBytesOfDigits` | enclave/utils/strencodings.cpp:51-66 | on even runs of digits ParseHex gives one byte for every pair |
| `SealedBlob.DeserializeInvertsSerialize` | lockbox/src/db_manager.cpp:17-58 | reading undoes writing for every data length and whatever follows, over exactly 48 + data_len bytes |
| `SealedBlob.SerializeInvertsDeserialize` | lockbox/src/db_manager.cpp:37-58 | a record is read only from its own serialized form |
| `SealedBlob.Serialize` | lockbox/src/db_manager.cpp:17-34 | fills the front of the buffer with that form, reports its length and leaves the rest |
| `SealedBlob.Deserialize` | lockbox/src/db_manager.cpp:37-58 | on any buffer returns the record at its front, or reports that a copy would run past the end |
| `Lockbox.OpenInvertsSeal` | lockbox/src/enclave.cpp:13-41 | a sealed column opens under the same seed to what was sealed |
| `LockboxRuns.HandleKeepsCoherence` | lockbox/src/server.cpp:17-189 | each handler keeps the table coherent: keypair opens to the row's public key, both nonce columns or none, nonce drawn under the current key, public keys unique |
| `LockboxRuns.TraceIsRun` | lockbox/src/server.cpp:218-387 | the tables and answers written down in a trace are those of the run of its calls |
| `LockboxRuns.TraceExists` | lockbox/src/server.cpp:218-387 | every sequence of calls has a trace |
| `LockboxRuns.RunsAreCoherent` | lockbox/src/db_manager.cpp:60-213 | every table of every trace that registers free ids is coherent |
| `LockboxRuns.NonceAlwaysServed` | lockbox/src/server.cpp:39-82 | a nonce request is answered exactly when the statechain is registered; the null-keypair branch is dead |
| `LockboxRuns.SignUsesMatchingNonce` | lockbox/src/server.cpp:97-134 | a signature request is refused for want of a nonce or for a full counter, or else answered with the stored key's half signature and a nonce drawn under that key |
| `LockboxRuns.UpdateExactly` | lockbox/src/server.cpp:150-188 | the answer to a key update on a registered statechain, in every case |
| `LockboxRuns.UpdateCarriesOutTransfer` | lockbox/src/server.cpp:339-376 | fed with the receiver's t2 and x1 in hexadecimal, the lockbox stores the share that completes the new owner's to the same joint key, forgets the nonce and keeps the count |
| `LockboxRuns.ScalarRoute` | lockbox/src/server.cpp:356-374 | a scalar printed by a client passes the route's length check and arrives unchanged |
| `LockboxRuns.NonceBetweenUpdateAndSignature` | lockbox/src/db_manager.cpp:331-367 | in every run, between a successful key update and a later half signature on the statechain lies a successful nonce request |
| `LockboxRuns.SignatureUsesLatestNonce` | lockbox/src/server.cpp:97-134 | every half signature in a trace is made with the nonce of the latest successful nonce request, and no key update or deletion lies between |
| `LockboxRuns.AnsweredFromNonce` | lockbox/src/db_manager.cpp:215-263 | every well-formed signature request up to the next nonce request, update or deletion is answered from that one nonce, unless the counter is full |
| `LockboxRuns.HandleIsLocal` | lockbox/src/db_manager.cpp:104-109 | a handler answers from and changes only the rows of its own statechain |
| `LockboxRuns.RunsAreIsolated` | lockbox/src/db_manager.cpp:244-249 | without key collisions, a statechain's rows after a run are those its own calls alone would have left |
| `LockboxRuns.AnswersAreIsolated` | lockbox/src/db_manager.cpp:274-279 | and every answer is the one given in the run of its own statechain |
| `LockboxRuns.HandlersCommute` | lockbox/src/db_manager.cpp:344-367 | handlers on different statechains commute, rows and answers alike |
| `RunCounts.CountAnswered` | lockbox/src/server.cpp:323-337 | in every run, with no assumption on it, a count request is answered with the number of half signatures answered since the last deletion if the statechain was registered since, and with no number otherwise |
| `RunCounts.CountSinceRegistration` | lockbox/src/db_manager.cpp:265-291 | for a statechain registered under a free id that is the number since its registration |
| `LockboxServer.HandleIsOrderly` | lockbox/src/server.cpp:17-189 | a handler leaves every other statechain's rows alone and a coherent table coherent |
| `LockboxServer.Server.constructor` | lockbox/src/db_manager.cpp:73-85 | a new server has an empty table |
| `LockboxServer.Server.GenerateNewKeypair` | lockbox/src/server.cpp:17-37 | gives a key no row had and adds one row with it, count zero and no nonce; or changes nothing |
| `LockboxServer.Server.GeneratePublicNonce` | lockbox/src/server.cpp:39-82 | on a coherent table the row of a registered statechain then holds the nonce under its key and count as before, an unregistered one is refused; the handler's assertion holds |
| `LockboxServer.Server.GeneratePartialSignature` | lockbox/src/server.cpp:84-135 | a half signature adds one to the count and changes nothing else, any other answer changes nothing |
| `LockboxServer.Server.KeyUpdate` | lockbox/src/server.cpp:137-189 | a new key that no other statechain has clears the nonce and keeps the count, any other answer changes nothing |
| `LockboxServer.Server.SignatureCount` | lockbox/src/db_manager.cpp:293-330 | gives a number exactly when the statechain has a row, and then, whatever requests led to the table, the number of half signatures answered since it was registered |
| `LockboxServer.Server.DeleteStatechain` | lockbox/src/db_manager.cpp:383-403 | no row of the statechain is left, all others are, and its key is free unless another statechain has it |
| `LockboxServer.Dispatch` | lockbox/src/server.cpp:256-387 | each request reaches its handler |
| `LockboxServer.Serve` | lockbox/src/server.cpp:218-387 | a server that takes any requests one after another produces a trace, with the run's answers |
| `Threads.UninterruptedIsAtomic` | lockbox/src/server.cpp:84-135 | the two grains agree: a request that nothing interrupts ends in the table and answer of its handler |
| `Threads.StepKeepsInv` | lockbox/src/db_manager.cpp:265-291 | every step of every thread, crashes included, keeps the counter equal to the number of counted requests |
| `Threads.CountBrackets` | lockbox/src/server.cpp:118-134 | in every interleaving, for a statechain registered once and not deleted: released <= count <= computed |
| `Threads.CountNeverFalls` | lockbox/src/db_manager.cpp:344-347 | along every interleaving the count never falls, key updates included |
| `SignatureCounts.CountedExactly` | lockbox/src/server.cpp:126-129 | in every schedule a computed signature is counted if and only if its commit went through, known to the handler or not, and the counter was not full |
| `SignatureCounts.ReleasedExactly` | lockbox/src/server.cpp:126-134 | and released if and only if the handler saw the commit go through and then answered |
| `SignatureCounts.CountIsExact` | docs/README.md:55 | the count is the number of signatures generated exactly when every one was committed, and equals the number released as well exactly when every one was also answered |
| `SignatureCounts.CrashSeparates` | lockbox/src/server.cpp:118-134 | every lockbox that can sign has a schedule with a signature computed and not counted, and one with a signature counted and never released |
| `TransactionCoherence.NonceWriteExactly` | lockbox/src/db_manager.cpp:215-263 | writing a nonce drawn under a key keeps the table coherent if and only if that is still the row's key |
| `TransactionCoherence.CoherentExactly` | lockbox/src/server.cpp:39-82 | in every interleaving all tables are coherent if and only if no nonce is written to a row whose key has changed since it was loaded |
| `TransactionCoherence.OvertakenNonce` | lockbox/src/server.cpp:48-71 | from any coherent table, a key update that commits between a nonce request's load and its commit leaves the table not coherent |
| `Races.LateCount` | lockbox/src/server.cpp:323-337 | from any state in which a signature is due there is a schedule that ends with the old count told, the counter one higher and that signature released |
| `Races.AbortsExactly` | enclave/secp256k1-zkp/src/modules/musig/session_impl.h:1057-1128 | after a nonce write to a registered statechain of a coherent table, a well-formed signature request stops the enclave if and only if the nonce is for another key, that is, if and only if the table is not coherent |
| `Races.AbortedSignature` | lockbox/src/server.cpp:48-71 | so from any coherent table the next well-formed signature request after a nonce request overtaken by an update to another key stops the enclave |
| `Races.RacingUpdates` | lockbox/src/server.cpp:150-188 | from any coherent table, two key updates of one coin, each a transfer that goes through by itself, that load before either commits are both answered with a key; the second receiver's share completes the stored one to the joint key, and the first's does if and only if the two are equal |
| `RaceInstances.LateCountHappens` | lockbox/src/server.cpp:323-337 | every lockbox that can sign has a schedule in which a request is told 1 while two sessions are released when the answer arrives |
| `RaceInstances.OvertakenNonceHappens` | lockbox/src/server.cpp:48-71 | a schedule from the empty lockbox, over a group of seven, with an overtaken nonce and a signature request that stops the enclave |
| `RaceInstances.RacingUpdatesHappen` | lockbox/src/server.cpp:150-188 | a schedule with two racing updates after which the first receiver's share does not complete the joint key |
| `Locktime.WithdrawalLocktime` | lib/src/transaction.rs:94-107 | for any draws and any 32-bit height the result is never above the height; below 2^31 it is the height, or on a zero draw the height less the step back, cut off at zero |
| `Locktime.ScheduleIsExact` | lib/src/transaction.rs:137-152 | where nothing wraps, a count of backups can be made if and only if the first lock is a block height and the last not negative, and then the k-th is h + initlock - k * interval |
| `Locktime.ScheduleExactly` | lib/src/transaction.rs:137-152 | for every 32-bit height, initlock and interval: every chain up to a length is that schedule if and only if neither the first nor the second lock wraps into the block heights |
| `Locktime.FirstLock` | lib/src/transaction.rs:147-149 | the first lock on all inputs, wrapped sums included |
| `Locktime.SecondWraps` | lib/src/transaction.rs:149 | the second lock for every interval too large for the first |
| `Locktime.WrapsHappen` | lib/src/transaction.rs:149 | one input for each way the schedule fails |
| `Locktime.WithdrawalPrecedesBackups` | lib/src/transaction.rs:94-107 | while the chain is below the newest lock every possible withdrawal locktime is below every backup's |
| `Locktime.LifeKeepsOk` | clients/libs/rust/src/transfer_sender.rs:64-74 | over any history of blocks and transfers the coin's locks are the schedule's |
| `Locktime.MarginFalls` | docs/README.md:13 | newest lock minus height falls with every block by one and with every transfer by the interval |
| `Locktime.BoundedLife` | docs/README.md:15-21 | over any history transfers times interval stay below initlock: at most (initlock - 1) / interval of them |
| `Locktime.BoundIsReached` | docs/README.md:21 | and that many transfers in a row do go through |
| `Receiver.CheckExactly` | lib/src/transfer/receiver.rs:340-466 | the checks on one backup pass exactly when it has version 2, one input with sequence 0, one output, a valid signature, the stored challenge, a fee rate within the tolerance, a reasonable lock and its own serialization as text; and panic exactly without inputs, without outputs or on a malformed signature |
| `Receiver.ValidateSignatureScheme` | lib/src/transfer/receiver.rs:255-337 | the loop accepts exactly a non-empty chain of such backups whose neighbours differ by the interval and returns the newest lock, and panics exactly when the first faulty backup does |
| `Receiver.StepsDownExactly` | lib/src/transfer/receiver.rs:318 | for every 32-bit height, initlock and interval: the wrapped comparison means a true difference if and only if the interval is not also a rise that reasonable locks have room for |
| `Receiver.RisingChain` | lib/src/transfer/receiver.rs:318 | where the condition fails: an interval of 2^32 - 10 and an accepted chain whose locks rise by ten |
| `Receiver.AcceptedFalls` | lib/src/transfer/receiver.rs:315-323 | under that condition neighbours in an accepted chain differ by the interval itself |
| `Receiver.NewestIsFirst` | lib/src/transfer/receiver.rs:415-442 | under that condition and with a positive interval, any earlier lock in an accepted chain is later by at least the interval |
| `Receiver.SplitBackups` | clients/libs/rust/src/transfer_receiver.rs:244-283 | the grouping loop gives the chains of the message's outpoints in order of appearance, and panics exactly on a transaction without a single outpoint |
| `Receiver.SplitIsPartition` | clients/libs/rust/src/transfer_receiver.rs:244-283 | the chains are not empty, sorted, spend one outpoint each, all different, and together hold the message's backups, each as often |
| `Receiver.ValidateMessage` | clients/libs/rust/src/transfer_receiver.rs:285-361 | accepts exactly when every chain passes and each count told equals the size of the whole message, and panics exactly when the grouping or the first failing chain does |
| `ReceiverRuns.ToldIsLoaded` | server/src/endpoints/transfer_receiver.rs:45-67 | in every interleaving a count that is told was the counter when its request loaded it |
| `ReceiverRuns.ReceiverSafety` | docs/README.md:55 | in every interleaving, for a statechain registered once and not deleted when the count is loaded, a positive interval and the condition of `StepsDownExactly`: if a request was told the count with which the receiver accepts a message of several chains, and the presented signatures had been released when that request loaded the counter, then at that moment they were all the signatures ever released, each released once, and the newest backup on each outpoint precedes all others on it by the interval |
| `ReceiverRuns.MessageFirst` | clients/libs/rust/src/transfer_receiver.rs:290-308 | under the same conditions it is enough that the receiver has the message before it asks for the count |
| `ReceiverRuns.SafetyLasts` | clients/libs/rust/src/transfer_receiver.rs:328-330 | and no further signature is released for as long as the counter stays the same and the statechain is not deleted or registered again |
| `Utf8.DecodeEncode` | lockbox/include/CLI11.hpp:894-918 | every scalar value is decoded, after section 3 of RFC 3629, from the bytes appended for it, whatever follows |
| `Utf8.EncodeDecode` | lockbox/include/CLI11.hpp:894-918 | whatever decodes is a scalar value in its only encoding |
| `Utf8.DecodeTextEncode` | lib/out-python/mercurylib.py:1226-1237 | whole texts round-trip through UTF-8 |
| `Utf8.EncodeTextDecode` | lib/out-python/mercurylib.py:1226-1237 | bytes that decode are the encoding of the text they decode to |
| `Escape.AddEscapedCharacters` | lockbox/include/CLI11.hpp:865-878 | the loop writes each byte plainly or as its named escape |
| `Escape.RemoveEscapedCharacters` | lockbox/include/CLI11.hpp:920-978 | the loop reads piece by piece and throws exactly where the reading function has no value |
| `Escape.ReadCode` | lockbox/include/CLI11.hpp:938-964 | the 32-bit digit loop never wraps: it gives the number the digits denote, and fails exactly on a non-digit |
| `Escape.UnescapeExactly` | lockbox/include/CLI11.hpp:920-978 | a text is read as `out` if and only if it is a sequence of pieces of the grammar that stand for `out` |
| `Escape.EscapeRoundTrip` | lockbox/include/CLI11.hpp:865-978 | for every string, removing escapes after adding them is the identity |
| `Escape.UnicodeEscapesDecode` | lockbox/include/CLI11.hpp:894-966 | any text of scalar values written in short and long Unicode escapes is read as UTF-8 that decodes to that text |
| `Escape.EveryScalarHasEscape` | lockbox/include/CLI11.hpp:933-966 | every scalar value has a long escape that denotes it, and below 65536 a short one |
| `Uniffi.RoundTrip` | lib/out-python/mercurylib.py:3891-4116 | for every type and value that fits, reading the written bytes and any rest gives the value and leaves exactly the rest |
| `Uniffi.PrefixFree` | lib/out-python/mercurylib.py:403-413 | no encoding is a prefix of another's |
| `Uniffi.ReadFits` | lib/out-python/mercurylib.py:1218-1237 | whatever is read could have been written |
| `Uniffi.ReadExactly` | lib/out-python/mercurylib.py:1197-1216 | writing it again gives the same bytes if and only if every boolean byte met was 0 or 1 |
| `Uniffi.TwoIsTrue` | lib/out-python/mercurylib.py:1206-1212 | the byte 2 is read as true and not written for it |
| `UniffiBuffers.Grow` | lib/out-python/mercurylib.py:51-53 | a larger buffer with the same bytes |
| `UniffiBuffers.Builder.constructor` | lib/out-python/mercurylib.py:183-185 | a builder starts empty |
| `UniffiBuffers.Builder.Reserve` | lib/out-python/mercurylib.py:197-202 | there is room afterwards and the contents are unchanged |
| `UniffiBuffers.Builder.Write` | lib/out-python/mercurylib.py:204-213 | appends the bytes and keeps all earlier ones, never past the capacity |
| `UniffiBuffers.Builder.WriteWord` | lib/out-python/mercurylib.py:227-231 | refuses numbers out of range, else appends four bytes |
| `UniffiBuffers.WriteValue` | lib/out-python/mercurylib.py:1158-1248 | succeeds exactly for the values that fit and then appends their encoding |
| `UniffiBuffers.WriteList` | lib/out-python/mercurylib.py:3951-3956 | the same for a list: its count, then its items in order |
| `UniffiBuffers.Stream.constructor` | lib/out-python/mercurylib.py:121-128 | a stream starts at the first byte |
| `UniffiBuffers.Stream.Read` | lib/out-python/mercurylib.py:140-145 | returns the next bytes and moves past them, or fails when there are too few |
| `UniffiBuffers.Stream.ReadWord` | lib/out-python/mercurylib.py:133-163 | reads four bytes as a number |
| `UniffiBuffers.ReadValue` | lib/out-python/mercurylib.py:3891-3941 | reads what the decoding function reads and stops where it stops |
| `UniffiBuffers.ReadList` | lib/out-python/mercurylib.py:3958-3966 | the same for a list, a negative count refused |
| `UniffiBuffers.Lower` | lib/out-python/mercurylib.py:409-413 | gives the encoding exactly for the values that fit |
| `UniffiBuffers.Lift` | lib/out-python/mercurylib.py:403-407 | gives the value exactly for buffers that hold it and nothing more |
| `UniffiBuffers.LowerAndLift` | lib/out-python/mercurylib.py:401-413 | when both sides have the same kinds in order, across the boundary and back is the identity on every value that fits and an error on every other |
| `WalletCodec.RecordFits` | lib/out-python/mercurylib.py:1591-1618 | a record fits if and only if each of its fields does |
| `WalletCodec.ActivityRoundTrip` | lib/out-python/mercurylib.py:1297-1319 | the fields written in order are the fields read in order |
| `WalletCodec.TokenRoundTrip` | lib/out-python/mercurylib.py:2783-2817 | the same for tokens |
| `WalletCodec.SettingsRoundTrip` | lib/out-python/mercurylib.py:2480-2532 | the same for settings |
| `WalletCodec.CoinRoundTrip` | lib/out-python/mercurylib.py:1559-1647 | the same for the 26 fields of a coin |
| `WalletCodec.WalletRoundTrip` | lib/out-python/mercurylib.py:3162-3211 | the same for a wallet with its lists of tokens, activities and coins |
| `WalletCodec.ReadsMatchWrites` | lib/out-python/mercurylib.py:3162-3211 | the reading converters expect, record by record, the kinds the writing converters put down |
| `WalletCodec.LowerAndLiftWallet` | lib/out-python/mercurylib.py:3162-3211 | lifting a lowered wallet gives that wallet, and a wallet that does not fit is refused |
| `Bech32.PolymodXor` | lib/src/lib.rs:39 | the checksum of BIP 173 is linear over any generator |
| `Bech32.ChecksumExactly` | lib/src/lib.rs:39-45 | the six symbols appended verify, and no other six in their place do |
| `Bech32Strings.DecodeEncode` | lib/src/lib.rs:39-45 | decoding an encoded string gives its readable part, its data and the Bech32m variant |
| `Bech32Strings.EncodeDecode` | lib/src/lib.rs:44-53 | whatever decodes as Bech32m is, up to letter case, the encoding of what was decoded |
| `Address.Base32RoundTrip` | lib/src/lib.rs:34-55 | bytes survive the regrouping into five bits and back |
| `Address.Base32Canonical` | lib/src/lib.rs:55 | symbols that regroup to bytes are the regrouping of those bytes |
| `Address.AddressRoundTrip` | lib/src/lib.rs:24-62 | for all key pairs and networks, decoding an encoded address gives version 0 and the same two keys |
| `Address.AddressCanonical` | lib/src/lib.rs:44-62 | a decoded address is the address of its two keys, up to letter case, if and only if its version is 0 and nothing follows the second key |
| `Address.SurplusIgnored` | lib/src/lib.rs:57-61 | with any bytes after the second key an address decodes to the same keys |
| `Address.PanicsExactly` | lib/src/lib.rs:55-59 | decoding panics if and only if the address is well formed and its bytes end before the first key, or before the second with the first one valid |
| `Address.ShortAddress` | lib/src/lib.rs:57-58 | the encoding of any fewer than 34 bytes, on either network, is such an address |
| `Address.HalfAddress` | lib/src/lib.rs:58-59 | and so is that of any 34 to 66 bytes whose first key is valid |
| `Address.ValidatePanicsExactly` | lib/src/lib.rs:108-125 | validation passes that panic on exactly when the prefix suits the network |
| `Address.TxOutPanicsExactly` | lib/src/transaction.rs:123-130 | and making a backup output does for every prefixed address |
| `Address.ValidatedExactly` | lib/src/lib.rs:108-125 | an address is accepted exactly when it was made and is asked about both on mainnet or both not |
| `Address.BackupPaysOwner` | lib/src/transaction.rs:109-162 | a backup to a statechain address pays the script its owner's backup address has, and output plus fee is the amount if and only if the fee fits |
| `CheckedMultiply.OverflowCheckExact` | lockbox/include/CLI11.hpp:4021-4033 | the truncating-division test says overflow exactly when the product does not fit, signed or unsigned |
| `CheckedMultiply.LeastTimes` | lockbox/include/CLI11.hpp:4041-4043 | the least value times anything but 0 and 1 does not fit |
| `CheckedMultiply.Multiply` | lockbox/include/CLI11.hpp:4035-4049 | true exactly when the product fits; then it is stored, otherwise the argument is unchanged |
| `Brackets.CloseStringQuote` | lockbox/include/CLI11.hpp:980-992 | the loop finds the first unescaped quote |
| `Brackets.QuoteEndFinds` | lockbox/include/CLI11.hpp:980-992 | a run of characters and backslash pairs is passed over |
| `Brackets.QuoteEndSkips` | lockbox/include/CLI11.hpp:980-992 | what is passed over is such a run |
| `Brackets.LiteralEnd` | lockbox/include/CLI11.hpp:994-997 | the first closing character, or the size |
| `Brackets.CloseSequence` | lockbox/include/CLI11.hpp:999-1044 | the loop with its stack of closers computes the place where all have been met |
| `Brackets.ScanBody` | lockbox/include/CLI11.hpp:1013-1043 | nested groups, quoted runs and unmatched closers are passed over with the stack as it was |
| `Brackets.ScanParses` | lockbox/include/CLI11.hpp:1013-1043 | whatever the matcher accepts is such a nesting, for every stack |
| `Brackets.ClosingExactly` | lockbox/include/CLI11.hpp:999-1044 | a place is returned if and only if a text of the grammar up to its closer ends there; otherwise the size is |
| `Brackets.DanglingBackslash` | lockbox/include/CLI11.hpp:980-992 | the result is one past the size exactly when the text ends in a backslash with nothing to hide |
| `Brackets.LoneBackslash` | lockbox/include/CLI11.hpp:980-992 | a quote and a backslash: two characters, and the result is three |
| `SplitUp.Split` | lockbox/include/CLI11.hpp:1046-1084 | ends on every text and returns the words of the trimmed text |
| `SplitUp.ItemCloses` | lockbox/include/CLI11.hpp:1054-1069 | a bracketed or quoted word closes at its own end, whatever follows |
| `SplitUp.SplitsIntoWords` | lockbox/include/CLI11.hpp:1046-1084 | words joined by separators and whitespace, plain or bracketed or quoted, come back as those words |
| `Exclusion.App.constructor` | lockbox/include/CLI11.hpp:6590 | an app starts without exclusions |
| `Exclusion.App.Excludes` | lockbox/include/CLI11.hpp:7321-7334 | refuses null and itself, else adds the way there and, when that is new, the way back |
| `Exclusion.App.RemoveExcludes` | lockbox/include/CLI11.hpp:8523-8532 | the mutual recursion ends on any objects and removes the way there and the way back |
| `Exclusion.AlwaysSymmetric` | lockbox/include/CLI11.hpp:7321-7334 | after any sequence of calls the relation is symmetric and irreflexive |
| `Exclusion.LastCallDecides` | lockbox/include/CLI11.hpp:7321-7334 | two apps exclude each other if and only if the last call about the two of them was an exclusion |
| `Exclusion.PerformAll` | lockbox/include/CLI11.hpp:8523-8532 | after any history on any distinct objects their sets hold exactly that relation |

## Left out

- Hex.HexToBytes: the byte that two blanks leave uninitialized is a parameter, and locales that group digits are not modelled.
- SealedBlob.Deserialize: does not say what a read past the end of the buffer yields, because it is undefined; it is reported instead.
- KeyShares.DrawSeckey: the retry loop runs over a given sequence of draws, because randomness is a parameter; an exhausted sequence stands for a loop still running.
- Receiver.ValidateSignatureScheme: the Schnorr verdict, the challenge rebuilt from the nonces and the comparison of a text with its serialization are fields of the parsed transaction, because they are library calls; fee rates are real numbers.
- Receiver.ValidateMessage: leaves out the checks beside the backups (transfer signature, output key and confirmation of the funding transaction, payee of the latest backup), because they are library and network calls.
- ReceiverRuns.ReceiverSafety: takes as given that each presented signature was released by the lockbox and that a session fixes its transaction, because unforgeability and collision resistance are assumptions about the cryptography.
- Races.AbortsExactly: what follows the stopped process is not part of it, because a restart is the crash step of the interleaving model.
- Threads.CountBrackets: speaks of statechains registered once and not deleted, because the count of a missing or duplicated row is outside the intended use.
- WalletCodec.LowerAndLiftWallet: the record converters are their lists of kinds and fields, written and read separately, run by one interpreter of the format, because they differ in nothing else.
- UniffiBuffers.Grow: fixes one growth policy for Rust's reserve, because only its contract matters.
- Address.BackupPaysOwner: the fee rate is a real number, because rounding of doubles is not the point; the Bitcoin address parser and the script of a key are parameters.
- Curve arithmetic, hashing, AEAD, X25519, SGX sealing, Shamir recovery and random generation: foreign libraries, taken by contract (the scalar group mod n, arbitrary hash functions, decrypt inverts encrypt under the same seed).
- The public half that libsecp256k1 keeps inside a keypair: a keypair is its secret key.
- Row identifiers and physical row order: a query answers from the first row in insertion order.
- Unlinkability of blinded signing and other secrecy claims.
- Debug builds that panic on integer overflow: arithmetic wraps as in a release build.
- Postgres, HTTP, JSON and configuration, the key managers, the token servers, the explorer and the user interfaces: plumbing around the modelled core.
- The remaining record and error types of the bindings, 8-, 16- and 64-bit integers and floats: the same format again.
- The argument parser, converters and help formatter of the command-line library.
