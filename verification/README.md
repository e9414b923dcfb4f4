# AE402 kernels in Dafny

A model of the small protocol and codec kernels of the AE402 escrow system, with proofs. Each
module follows one source file; code that updates objects or loops over local state is modelled
by classes and methods proved against functions, and the theorems are about those functions.
`dafny verify dfyconfig.toml` checks everything.

| topic | modules |
|---|---|
| tamper-evident log | `AuditChain`, `Merkle`, `Checkpoint`, `AuditLog`, `AuditTrace`, `AuditText` |
| receipts | `Radix`, `Base58`, `CanonicalJson`, `JsonText`, `DidKey`, `DidPrefix`, `Receipts`, `ReceiptClaims` |
| atomic swaps and relayer | `Htlc`, `HtlcRegistry`, `HtlcEffects`, `Relay`, `RelayCounts`, `BridgeRelayer`, `SwapRuns`, `SwapIds`, `SwapLedger`, `SwapSafety`, `SwapEffects`, `SwapMixing`, `SwapIndex`, `SwapAtomicity`, `SharedLegs` |
| macaroons | `Macaroons`, `CaveatMeaning`, `MacaroonLaws`, `MacaroonReach`, `MacaroonRecast` |
| WASM export walkers | `Leb128`, `WasmExports`, `WasmAgreement`, `WasmFormed` |
| guards and governance | `ArbiterVotes`, `BatchGuard`, `BatchReport`, `RateLimit`, `Timelock`, `TimelockEffects`, `TimelockRegistry`, `ModArith`, `IntBytes`, `Pedersen`, `RangePreimages`, `KeyValue`, `Governance`, `GovernanceContract`, `GovernanceText` |
| shared | `Wrappers`, `Text`, `Decimal`, `Hex`, `Sorting`, `Hashing`, `Signatures` |

How the outside world enters the model:

- SHA-256 is an arbitrary function into 64 lower-case hex characters. A theorem that needs
  collision resistance assumes it for the finite set of strings the computation at hand hashes.
- HMAC in `Macaroons` is a free term over symbolic byte strings, so what someone can compute
  from given strings is a definite set.
- Ed25519 is an arbitrary triple of functions. Theorems name the law they use: what is signed
  verifies (`Correct`), or no signature fits two of the messages at hand (`Binding`).
- Clocks, random values, the issuance date text, the canonical JSON text of a log payload, the
  executor callback and UTF-8 decoding of WASM names are parameters.
- The relayer and the registry of the source do not share a vocabulary (`legs`, `timelock`,
  upper-case statuses against `casper_leg`, `timelock_ms`, lower-case ones, and `all_swaps` does
  not exist). `Relay.AdaptSwap` is an explicit adapter, Casper leg first.

Where the code falls short of what its documentation says, the model follows the code:

- `server/audit_log.py` promises that any edit of an entry breaks the chain. The hash input does
  not separate a free-form event type from the payload hash, so two verified logs with one tail
  hash are equal if and only if their payload hashes agree in length; `append` makes them all 64
  characters long. Deleting the last entry goes unnoticed.
- The predecessor comes last in that hash input, and a checkpoint is checked against a slice without
  looking at predecessors. An entry whose event type ends like `:7` behind another colon shares its
  hash with one of another timestamp and a longer predecessor, which the checkpoint then accepts.
- A signed checkpoint says which entries it covers by the first and last sequence number only.
  Those in between are not checked, and a slice of odd length passes with its last entry repeated.
- `server/bridge_htlc.py` computes a leg id without the other side's data. Two swaps can share
  one, the index then leads to the later swap, and the relayer completes a swap exactly when no
  later one carries its Casper leg's id. Passes alone can leave such a swap with one leg claimed
  and the other refunded; `SwapEffects` says exactly when. Direct calls can do so to other swaps too, by
  claiming one leg and letting the other run out; `SwapMixing` says exactly which and from where.
- `server/bridge_relayer.py` documents that a leg is refunded once its timelock expired without both
  claims. With one leg claimed the relayer only ever tries the claim on the other, so a leg that
  is overdue by then is never refunded by passes.
- `sdk/macaroons.py` documents that a discharge chains back to the enclosing macaroon. The code
  compares neither the discharge's identifier with its key in the bag nor binds its signature;
  identifiers are cut at their first colon, and `vid` and `cid` are concatenated unseparated, so a
  predicate that contains `discharge:` can be recast as a third-party caveat, and a third-party
  caveat retargeted to a discharge that its hint names. `MacaroonRecast` says exactly when.
- It also documents that a verification id cannot be lifted. The id stands in clear in the token
  and equals the signature of the macaroon before the caveat, attenuated with the discharge
  identifier as a predicate. A holder can therefore drop the third-party caveat and everything
  behind it, and is accepted wherever that predicate holds.
- `server/arbiter_crypto.py` counts distinct public-key strings, not keys. Its messages join free
  text with colons; the routes let only `sender` and `receiver` through as verdicts.
- `sdk/governance.py` documents that `encode_params` raises if the contract's `parse_params` would
  reject, and `decode_params` on any deviation from the contract's schema. The encoder lets through
  integers of 2^64 and more and thresholds that only Python reads (`" 5"`); the decoder checks
  neither ranges nor the op, and takes the last value of a repeated key, the contract the first.
- `sdk/range_proof.py` documents preimage arguments as lower-case hex. The check also lets upper
  case and white space between bytes through, so that 64 characters can be fewer than the 32 bytes
  it speaks of; injectivity holds all the same.

## Model

| member | source | states |
|---|---|---|
| AuditChain.VerifyChain | server/audit_log.py:132-149 | accepts exactly the lists in which every entry links to its predecessor (the first to genesis) and carries the hash of its own fields |
| AuditText.ChainExactly | server/audit_log.py:132-149 | a list is accepted if and only if every entry carries the hash of the text `seq:event_type:payload_hash:timestamp:prev_hash` of its own fields and names the hash before it, the first the genesis, which is the hash of `ae402-audit-log-genesis` if none is named |
| AuditChain.PreimageDetermines | server/audit_log.py:97-99 | equal hash inputs fix the sequence number, and timestamp, predecessor and `event_type:payload_hash` text if and only if predecessors are equally long, or, beside a predecessor without a colon, the other one has none either |
| AuditChain.PreimageIdentifies | server/audit_log.py:97-99 | an entry, its predecessor without a colon, is the only one with its hash input if and only if neither its event type nor its payload hash holds a colon |
| AuditChain.OtherPredecessorExactly | server/audit_log.py:97-99 | an entry shares its hash input with an entry of another predecessor if and only if its `event_type:payload_hash` reads as a text with a colon, a colon, a decimal integer, and nothing or a colon and more |
| AuditChain.SplitExact | server/audit_log.py:97-99 | two entries with equal hash inputs are equal if and only if their payload hashes are equally long |
| AuditChain.ChainDistinct | server/audit_log.py:132-149 | the entry hashes along one verified chain are pairwise distinct, for a genesis without a colon that is no entry's hash |
| AuditChain.TailCommits | server/audit_log.py:132-149 | two verified chains from one such genesis with the same last hash have the same length and the same entries up to the split of event type and payload hash, and are the same list if and only if their payload hashes agree in length |
| AuditChain.DefaultTailCommits | server/audit_log.py:132-149 | the same from the default genesis, with no condition on it |
| AuditChain.DeletionNoticed | server/audit_log.py:132-149 | of all deletions of one entry from a verified chain only that of the last goes unnoticed, which the documentation denies |
| AuditChain.SplitIsNotCommitted | server/audit_log.py:97-99 | the unconditional promise fails: for every hash function two different verified one-entry logs share their tail hash |
| Merkle.RootDetermines | server/audit_log.py:107-129 | for pairwise distinct leaves that are no interior nodes the root fixes the list of leaves, length included, although an odd level repeats its last node |
| Merkle.RootExactly | server/audit_log.py:107-129 | repetitions or not, for leaves that are no interior nodes: two lists have the same root if and only if they are the same once the odd levels' repetitions are written out |
| Merkle.DuplicationIsInvisible | server/audit_log.py:113-117 | without distinctness it does not: appending a copy of the last of an odd number of leaves (more than one) never changes the root |
| Checkpoint.BuildLevels | server/audit_log.py:107-120 | the loop over levels builds exactly the levels of the Merkle tree, the last of which is the single root |
| Checkpoint.BuildParents | server/audit_log.py:113-117 | the inner loop pairs nodes left to right, an unpaired last node with itself |
| AuditText.RootExactly | server/audit_log.py:107-129 | the root of no leaf is the hash of `empty`, of one leaf the leaf, and of several that of the nodes above, neighbours hashed left before right and a last one with itself |
| AuditText.RootOfFour | server/audit_log.py:107-129 | the roots of three and of four leaves written out |
| Checkpoint.RootCommits | server/audit_log.py:107-149 | two complete logs that verify from one genesis, without a colon and no entry's hash, and have equal checkpoint roots are the same history, length included, and the same list if and only if their payload hashes agree in length |
| Checkpoint.FixedWidthLogsEqual | server/audit_log.py:123-149 | for such logs with 64-character payload hashes, as append makes them, equal root, equal tail and equality of the logs coincide |
| Checkpoint.DefaultRootCommits | server/audit_log.py:107-149 | both from the default genesis, with no condition on it |
| Checkpoint.SignThenVerify | server/audit_log.py:180-226 | signing fails exactly on an empty slice; otherwise the signed checkpoint verifies against the slice it was made from |
| Checkpoint.AcceptedExactly | server/audit_log.py:194-226 | a checkpoint is accepted for a slice if and only if it names the range ends and root of a nonempty slice and its tagged key of 32 bytes verifies its tagged signature over `audit-checkpoint:start:end:root` of just that slice |
| Checkpoint.SignedSays | server/audit_log.py:171-191 | a signed checkpoint names range ends and root of its slice, the signer's key, and the signature over the text of these three |
| Checkpoint.MessageInjective | server/audit_log.py:173-177 | the signed message fixes root, start and end |
| Checkpoint.NoReplay | server/audit_log.py:196-213 | one signature under one key belongs to one checkpoint: where it does not fit both signed messages at hand, it cannot be replayed for another root or range |
| Checkpoint.CheckpointFixesSlice | server/audit_log.py:216-226 | of two slices that a signed checkpoint accepts, the first without repeated entries: they tell the same history if and only if the second repeats none either and its predecessors are equally long, or, the first one's being without colons, hold no colon; they are the same list if and only if payload hashes agree in length too |
| Checkpoint.CheckpointAcceptsExactly | server/audit_log.py:216-226 | in general: a checkpoint that accepts one slice accepts exactly the slices with its first and last sequence number and the same padded list of entry hashes |
| Checkpoint.RepeatedEntryAccepted | server/audit_log.py:216-226 | a checkpoint accepts a slice of odd length above one if and only if it accepts it with its last entry repeated, sequence numbers being looked at only at both ends |
| Checkpoint.ThreeOrFourEntries | server/audit_log.py:216-226 | the input: the signed checkpoint of a verified log of three entries also accepts four, the last one twice |
| Checkpoint.CheckpointFixesGrowingSlice | server/audit_log.py:216-226 | with growing sequence numbers, which the code does not check, nothing repeats: two accepted slices tell the same history if and only if predecessors are equally long, or, the first one's being without colons, hold no colon |
| Checkpoint.OtherEntryAccepted | server/audit_log.py:216-226 | the input: the signed checkpoint of a verified log of one entry made by append, of type `escrow:released:7`, also accepts an entry of type `escrow` with another timestamp and predecessor |
| Checkpoint.OtherHistoryExactly | server/audit_log.py:97-99 | an entry of a slice without colons in its predecessors can be replaced, under the same hash, by one that tells another history if and only if its event text holds an integer behind a text with a colon |
| Checkpoint.TwinAccepted | server/audit_log.py:216-226 | a checkpoint accepts a slice if and only if it accepts it with an entry replaced by one of the same number and hash |
| AuditLog.AuditLog.constructor | server/audit_log.py:244-246 | a new log is empty and valid |
| AuditLog.AuditLog.Append | server/audit_log.py:248-261 | appends one entry with the next number, the payload's hash, the given or current time and the previous entry's hash, and keeps the log verifying |
| AuditLog.AuditLog.Verify | server/audit_log.py:267-268 | a log grown by append always verifies |
| AuditLog.AuditLog.SignSince | server/audit_log.py:270-274 | signs exactly the entries from `since_seq` on, fails exactly when there are none, and the result verifies against that slice with that range |
| AuditTrace.ComputeChainRoot | server/audit_trace.py:374-393 | the loop computes the linear chain over the non-empty string ids and skips everything else |
| AuditTrace.ChainRootCommits | server/audit_trace.py:374-393 | two sequences have equal chain roots if and only if their non-empty ids are the same sequence |
| AuditText.ChainRootExactly | server/audit_trace.py:374-393 | the chain root starts at the hash of `chain:genesis`, and one more event is hashed behind the root so far, unless its id is empty or no string |
| Base58.DecodeEncode | sdk/vc_receipts.py:94-130 | decoding inverts encoding on every byte string, leading zero bytes included |
| Base58.EncodeDecode | sdk/vc_receipts.py:94-130 | encoding inverts decoding on every string over the alphabet, leading ones included |
| Base58.EncodingsExactly | sdk/vc_receipts.py:94-130 | the strings that are encodings are exactly those over the alphabet |
| Base58.RebaseInverts | sdk/vc_receipts.py:97-130 | rewriting a digit string to another base and back is the identity, leading zeros included, for any two bases |
| Base58.B58Encode | sdk/vc_receipts.py:94-108 | the two loops compute the encoding: one `1` per leading zero byte, then the base-58 digits by repeated division |
| Base58.B58Decode | sdk/vc_receipts.py:111-130 | the loops compute the decoding through the minimal byte length, and fail exactly on a character outside the alphabet |
| Base58.AlphabetSpelledOut | sdk/vc_receipts.py:90-91 | the alphabet string and the digit formula are the same, position by position |
| Radix.MinimalBytes | sdk/vc_receipts.py:125-129 | the byte length taken from the bit length is exactly the number of base-256 digits |
| CanonicalJson.CanonicalExact | sdk/vc_receipts.py:138-170 | two supported values have the same canonical text if and only if they are the same up to dict order, for any nesting (RFC 8785, sections 3.2.2 and 3.2.3) |
| CanonicalJson.PrintUnique | sdk/vc_receipts.py:146-168 | a printed value is recognised inside any longer text: with delimiters behind them, equal texts have the same value in front and the same rest |
| CanonicalJson.EscapeUnique | sdk/vc_receipts.py:157-159 | an escaped string ends at its closing quote and nowhere else, so quoted strings are read back in one way only |
| CanonicalJson.IntUnique | sdk/vc_receipts.py:153-154 | two integers printed before a delimiter agree only if they are equal and the rests agree |
| CanonicalJson.SamePrint | sdk/vc_receipts.py:162-167 | values that differ in dict order only print alike |
| JsonText.StrLessExactly | sdk/vc_receipts.py:166 | a string comes before another if and only if it ends where the other goes on or has the smaller character at the first difference |
| JsonText.SortAscends | scripts/audit_contract_artifact.py:180 | sorting keeps the members and puts them into ascending order, strictly where none repeats |
| JsonText.DictText | sdk/vc_receipts.py:162-167 | a dict prints every key once, in strictly ascending order, with its value behind a colon and commas between (RFC 8785, section 3.2.3) |
| JsonText.ListText | sdk/vc_receipts.py:160-161 | a list prints its items in order with commas between |
| JsonText.ScalarTexts | sdk/vc_receipts.py:147-154 | null, true, false, and integers in decimal without leading zeros |
| JsonText.CharacterTexts | sdk/vc_receipts.py:157-159 | each character prints as itself, or as its two-character escape, or below the space as \u and four lower-case hexadecimal digits of its code (RFC 8785, section 3.2.2) |
| JsonText.StringText | sdk/vc_receipts.py:157-159 | a string is escaped character by character between quotes |
| Sorting.SortOfSet | sdk/vc_receipts.py:166 | sorting two repetition-free lists with the same members gives the same list |
| DidKey.DidKeyBijection | sdk/vc_receipts.py:178-205 | a key encodes to a DID if and only if that DID decodes to the key, so every 32-byte key has exactly one DID |
| DidPrefix.DidKeyPrefix | sdk/vc_receipts.py:178-205 | every did:key that decodes to a 32-byte key begins with `did:key:z6Mk`, as the documented examples do |
| Receipts.IssueThenVerify | sdk/vc_receipts.py:276-470 | every credential that is issued is accepted by verification with the issuer's own DID expected |
| ReceiptClaims.IssuedSays | sdk/vc_receipts.py:276-365 | every issued credential says, read by key: context, type with the event's name, issuer, date, and in its subject id, service hash, event, payer, receiver, amount and asset as requested, every extra claim under its own key and no other; its proof holds date, method and a signature over the canonical text of the rest |
| ReceiptClaims.VerifyExactly | sdk/vc_receipts.py:393-470 | a credential is accepted if and only if it has the five fields with context and type listed and names a did:key issuer, the expected one if any, whose key verifies the 64 bytes of its proof, of the right type, purpose and method, over the canonical text of the rest |
| ReceiptClaims.ErrorsExactly | sdk/vc_receipts.py:393-470 | which error is raised, if any: the first to fail of form, expected issuer, presence of a proof, its form and signature and the issuer's key, the types of the body, the signature's validity |
| Receipts.ClaimOrderIrrelevant | sdk/vc_receipts.py:311-365 | the order of the extra claims changes neither success nor failure, neither body nor proof |
| Receipts.AcceptedMeans | sdk/vc_receipts.py:393-470 | acceptance means context and type listed and a valid 64-byte signature by the issuer DID's key over the canonical text of everything but the proof |
| Receipts.ProofFixesBody | sdk/vc_receipts.py:393-470 | two accepted credentials with one issuer and one signature agree on everything outside the proof, up to dict order |
| SwapRuns.ReachableIsSound | server/bridge_htlc.py:268-444 | in every state of every run: timelocks ordered and hashlock shared within a swap, a claimed leg was claimed before its timelock with a preimage of its hashlock, a refunded leg at or after its timelock without one, and every index entry leads to a leg with that id |
| SwapRuns.StepKeepsInv | server/bridge_htlc.py:268-444 | one call, or one relayer pass, keeps all of that |
| SwapRuns.RunEvolves | server/bridge_htlc.py:348-444 | over any run no swap disappears, no leg changes its terms, and a claimed or refunded leg stays exactly as it is |
| SwapRuns.RunAppend | server/bridge_htlc.py:268-444 | a run over two event lists in a row is the run over the second from where the first ended |
| SwapLedger.FundsConserved | server/bridge_htlc.py:348-444 | per side and over every run: amounts ever locked equal those still locked plus claimed plus refunded |
| SwapAtomicity.OnePassCompletes | server/bridge_relayer.py:122-162 | with the EVM leg claimed and the Casper leg locked: after any calls and passes before the Casper timelock, one live pass before it leaves both legs claimed after every continuation if and only if it finds the Casper leg claimed already or the index leading to it |
| SwapAtomicity.NoEarlyRefund | server/bridge_htlc.py:423-444 | over any run before a leg's timelock that leg is not refunded |
| SwapSafety.NoLateClaim | server/bridge_htlc.py:369-421 | over any run from a leg's timelock on that leg is not claimed |
| SwapSafety.PassCompletesSwap | server/bridge_relayer.py:135-162 | a pass before the Casper timelock claims the locked Casper leg of a swap whose EVM leg is claimed if and only if the index leads to that leg; otherwise it leaves the leg untouched |
| SwapSafety.PassBetweenDeadlinesIsEnough | server/bridge_htlc.py:210-222 | one live pass anywhere between the two timelocks excludes, after every continuation, an EVM leg claimed beside a Casper leg refunded, unless the EVM leg was claimed before the Casper leg was locked |
| SwapEffects.PassBetweenDeadlinesExactly | server/bridge_htlc.py:210-222 | and it excludes that over every continuation if and only if it has not happened and the EVM leg is not claimed beside a proposed Casper leg that the index leads to |
| SwapSafety.UnaddressableForever | server/bridge_htlc.py:250-262 | a leg the index does not lead to stays as it is over every run |
| SwapSafety.PassIsLocal | server/bridge_relayer.py:122-180 | to a swap that shares no leg id, a pass over the whole registry (snapshot taken first, failures swallowed) does what it would do to that swap alone |
| SwapSafety.RelayerAloneIsSafe | server/bridge_relayer.py:122-180 | hence, to a swap that shares no leg id, relayer passes alone, at any times in any order, never leave one leg claimed and the other refunded |
| SwapSafety.PassRefundsExactly | server/bridge_relayer.py:19-22 | an expired locked leg of a swap that shares no leg id is refunded by a pass if and only if the other leg is not claimed and, for the EVM leg, the Casper leg is not overdue too |
| SwapSafety.OverdueNeverSettled | server/bridge_relayer.py:141-162 | so with one leg claimed and the other overdue, passes alone never settle such a swap, however many follow |
| SwapEffects.TwoPassesRefundBoth | server/bridge_relayer.py:164-180 | two passes at or after the later timelock refund both locked legs of a swap if and only if the index leads to both |
| SwapIndex.RefundsUnlessShared | server/bridge_relayer.py:164-180 | in a reachable registry they do so if and only if no swap initiated later carries either leg id and the two ids differ |
| SwapEffects.SweepEffect | server/bridge_relayer.py:122-180 | a leg the index leads to is claimed by a pass exactly if some decision of the pass is a claim on its id, before its timelock, with a preimage of its hashlock, and refunded exactly if some decision is a refund on its id at or after its timelock |
| SwapEffects.PassEffect | server/bridge_relayer.py:122-180 | the same for a pass over the whole registry and any leg, in terms of the statuses, timelocks and leg ids of all swaps |
| SwapEffects.PassMixesExactly | server/bridge_relayer.py:122-180 | a pass leaves a swap with one leg claimed and the other refunded if and only if one leg gets claimed while the other is or gets refunded, or gets refunded while the other is claimed, as PassEffect decides it |
| SwapEffects.RelayerMixesExactly | server/bridge_relayer.py:122-180 | relayer passes alone, at any times in any order, mix the outcome of a swap if and only if some pass meets those conditions in the state it finds |
| SwapMixing.StepMixesExactly | server/bridge_htlc.py:268-444 | any call or pass leaves a swap with one leg claimed and the other refunded if and only if it is a refund or claim as stated below, or a live pass that meets the conditions above |
| SwapMixing.RefundMixesExactly | server/bridge_htlc.py:423-444 | a refund does so if and only if the index leads to that leg, it is locked, its timelock is over and the other leg is claimed |
| SwapMixing.ClaimMixesExactly | server/bridge_htlc.py:369-421 | a claim does so if and only if the index leads to that leg, it is locked, its timelock is ahead, the preimage fits and the other leg is refunded |
| SwapMixing.MixReachableExactly | server/bridge_htlc.py:268-444 | from any sound state, over all continuations on a clock that does not fall behind: some run ends so if and only if one leg is claimed, or can be addressed, locked in time and claimed with some preimage, and the other is refunded, or can be addressed and locked in time |
| SwapEffects.MixedByAnother | server/bridge_relayer.py:122-180 | only on behalf of another swap that carries one of its leg ids is the outcome of a swap mixed |
| SwapEffects.SharedLegRefunds | server/bridge_htlc.py:187-196 | a second way: late, another swap's refund reaches the shared Casper leg of a swap whose EVM leg is claimed |
| SwapSafety.SharedLegMixes | server/bridge_htlc.py:341-343 | the condition cannot be dropped: if two swaps share a Casper leg id and the index leads to the one whose EVM leg is refunded, one pass claims that one's Casper leg on behalf of the other |
| SharedLegs.SharedLegReachable | server/bridge_htlc.py:187-196 | that state is reached from the empty registry by eight ordinary calls, and a ninth step, a pass, mixes the outcome |
| SwapIndex.RunKeepsLatest | server/bridge_htlc.py:341-343 | over every run the index leads from each leg id to the swap that carries it and was initiated last |
| SwapIndex.AddressableExactly | server/bridge_htlc.py:250-262 | a leg can be addressed if and only if no swap initiated later carries its leg id (and, for an EVM leg, its own Casper leg does not) |
| SwapIndex.PrivateExactly | server/bridge_htlc.py:250-262 | in a reachable registry the privacy that the relayer guarantees ask for amounts to leg ids that no other swap carries |
| SwapIndex.CompletesUnlessShared | server/bridge_relayer.py:135-162 | in a reachable registry a pass before the Casper timelock completes a swap whose EVM leg is claimed if and only if no swap initiated later carries the Casper leg's id |
| HtlcRegistry.HtlcRegistry.InitiateSwap | server/bridge_htlc.py:268-344 | creates two proposed legs and their index entries, or rejects and changes nothing, exactly as the state machine says |
| SwapIds.InitiateExactly | server/bridge_htlc.py:268-344 | a request is refused for a hashlock that is not 64 hexadecimal characters, then for an amount below 1, then for timelocks out of order, then for a swap of that id, and otherwise stores both legs as asked for, under the ids their own terms give them |
| SwapIds.LegIdsExactly | server/bridge_htlc.py:187-196 | two legs have one id if and only if side, amount, hashlock and timelock agree and so does the text `initiator:counterparty` |
| SwapIds.SwapIdsExactly | server/bridge_htlc.py:199-201 | two swaps have one id if and only if the hashlock and the text of both initiators agree |
| SwapIds.LegsApart | server/bridge_htlc.py:187-196 | the two legs of a swap have different ids |
| SwapIds.ReachableHashlocksApart | server/bridge_htlc.py:187-196 | in every reachable registry swaps with different hashlocks share no leg id |
| SwapIds.RunKeepsIds | server/bridge_htlc.py:187-201 | over every run each leg and swap keeps the id that its own terms give it |
| HtlcRegistry.HtlcRegistry.LockLegById | server/bridge_htlc.py:348-367 | locks a proposed leg before its timelock, is a no-op on a locked one, and otherwise rejects and changes nothing |
| HtlcRegistry.HtlcRegistry.ClaimLegById | server/bridge_htlc.py:369-421 | claims a locked leg before its timelock with a matching preimage and otherwise rejects with the source's code and changes nothing |
| HtlcRegistry.HtlcRegistry.RefundLegById | server/bridge_htlc.py:423-444 | refunds a locked leg at or after its timelock and otherwise rejects with the source's code and changes nothing |
| HtlcEffects.FindExactly | server/bridge_htlc.py:250-262 | a leg id leads to a place if and only if the index names its swap and the leg there has the id, the Casper leg before the other |
| HtlcEffects.LockDoes | server/bridge_htlc.py:348-367 | locking, field by field: a proposed leg before its timelock becomes locked now with the lock's transaction hash and nothing else changes; a locked leg is returned as it is; every other call is refused with its code and changes nothing |
| HtlcEffects.ClaimDoes | server/bridge_htlc.py:369-421 | claiming, field by field: a locked leg before its timelock becomes claimed now with the plain preimage and transaction hash if and only if the preimage's bytes hash to the leg's hashlock; every other call is refused with its code and changes nothing |
| HtlcEffects.RefundDoes | server/bridge_htlc.py:423-444 | refunding, field by field: a locked leg at or after its timelock becomes refunded now and nothing else changes; every other call is refused with its code and changes nothing |
| HtlcEffects.ClaimedShows | server/bridge_htlc.py:369-421 | in every reachable registry a claimed leg shows lower-case hex of bytes that hash to its swap's hashlock |
| HtlcRegistry.HtlcRegistry.FindLeg | server/bridge_htlc.py:250-262 | finds the leg object the index leads to, or none, and agrees with the state machine's lookup |
| HtlcRegistry.HtlcRegistry.SwapStateSummary | server/bridge_htlc.py:461-482 | reports the summary of the stored swap that the state machine defines |
| SwapRuns.SummaryMeans | server/bridge_htlc.py:446-482 | in every sound registry the summary shows both statuses; a preimage is revealed if and only if a leg is claimed, the Casper leg's before the other's, and it opens the swap's hashlock; completed means both legs claimed, aborted settled without a preimage, and a safety violation is reported as in progress and as settled with one |
| SwapRuns.SummaryLasts | server/bridge_htlc.py:446-482 | over every run completed, aborted and violated summaries stay as they are, and what is revealed stays revealed |
| BridgeRelayer.BridgeRelayer.Tick | server/bridge_relayer.py:122-133 | one tick changes registry and counters as one decision pass over the snapshot does; in a dry run the registry stays as it is |
| BridgeRelayer.BridgeRelayer.ProcessSwap | server/bridge_relayer.py:135-180 | decides one swap, claims before refunds, first leg before second, and counts a call that raises as an error |
| BridgeRelayer.BridgeRelayer.GetSwaps | server/bridge_relayer.py:127 | the adapter's snapshot holds every swap once, in insertion order, in the relayer's vocabulary |
| Relay.DecideAdapted | server/bridge_relayer.py:141-180 | through the adapter the decision is the one stated on the registry's own statuses and timelocks |
| Relay.PassIsSweep | server/bridge_relayer.py:122-180 | a pass with counters changes the registry as the plain sweep does, and not at all in a dry run |
| Relay.CountersAddUp | server/bridge_relayer.py:122-180 | in a live pass claims, refunds and errors together grow by exactly the number of swaps whose decision is not idle; no counter falls and a dry run moves none |
| RelayCounts.DecideExactly | server/bridge_relayer.py:135-180 | on any snapshot of a swap with two legs, those under `state` if there are any: claim the locked leg beside a claimed one with its preimage, else refund the first locked leg that is due, else nothing |
| RelayCounts.TooFewLegs | server/bridge_relayer.py:136-139 | a swap of fewer than two legs is left alone |
| RelayCounts.PassCounts | server/bridge_relayer.py:122-180 | over a whole pass the claims and refunds counted are exactly the legs that became claimed and refunded, whatever fails on the way |
| RelayCounts.TickCounts | server/bridge_relayer.py:122-133 | the same for a tick, which is counted once |
| RelayCounts.DryRun | server/bridge_relayer.py:141-180 | a dry run changes nothing but the count of ticks |
| Macaroons.WalkChain | sdk/macaroons.py:180-188 | the loop computes the HMAC chain over the caveats |
| MacaroonLaws.MintedSays | sdk/macaroons.py:194-207 | a minted token holds the identifier, no caveat, version 1 and the HMAC of the identifier under the HMAC of `ae402:macaroon:v1` under the secret, which must not be empty; a discharge key is the HMAC of `discharge:` and the identifier |
| MacaroonLaws.AttenuatedSays | sdk/macaroons.py:210-224 | attenuating appends the predicate, signs it with the old signature as key and keeps the rest; it is refused exactly for an empty text or one with a newline |
| MacaroonLaws.ThirdPartySays | sdk/macaroons.py:241-264 | a third-party caveat is `discharge:id` or `discharge:id:hint` with the HMAC of the id under the old signature as its verification id, both signed with the old signature as key |
| MacaroonLaws.FirstPartyAccepted | sdk/macaroons.py:344-373 | a token without third-party caveats is accepted if and only if it has version 1, carries the HMAC chain over its caveats, written out, and each of its predicates holds |
| Macaroons.Verify | sdk/macaroons.py:344-373 | accepts exactly version-1 tokens whose chain ends in their signature and whose caveats all hold, discharges included |
| Macaroons.VerifyThirdParty | sdk/macaroons.py:376-398 | accepts exactly when the named discharge is in the bag, its chain verifies under the derived key and its own caveats hold, recursively; terminates wherever the caveat reaches no cycle, whatever else the bag holds |
| Macaroons.VerifyDischarge | sdk/macaroons.py:386-398 | the same for one discharge |
| CaveatMeaning.ExpiresMeaning | sdk/macaroons.py:288-320 | `expires<T` holds if and only if the clock is before T, `expires<=T` if and only if it is not after T, with the other operators never, for every text that int() reads as T |
| CaveatMeaning.ExpiresAt | sdk/macaroons.py:288-320 | the same for T as str() writes it |
| CaveatMeaning.ExpiresRaises | sdk/macaroons.py:303-306 | a deadline that is no number raises |
| CaveatMeaning.NumberMeaning | sdk/macaroons.py:306-317 | `key op N` for any other key and a number N holds if and only if the fact is an integer, or a string of digits, that stands in that relation to N; `=` besides for the fact that is the text str() gives N |
| CaveatMeaning.NumberAt | sdk/macaroons.py:306-317 | the same for each of the five operators with N as str() writes it |
| CaveatMeaning.TextMeaning | sdk/macaroons.py:306-317 | `key=text` for a text that is no number holds if and only if the fact is that text; no other operator does |
| CaveatMeaning.AbsentFact | sdk/macaroons.py:308-310 | a comparison with a fact that is not there does not hold |
| CaveatMeaning.ComparisonExactly | sdk/macaroons.py:273-276 | a text is a comparison if and only if it is a key, an operator and a one-line value, with at most one newline behind |
| CaveatMeaning.HookMeaning | sdk/macaroons.py:318-325 | any other text holds if and only if some hook says so, a hook that raises saying nothing |
| CaveatMeaning.ExpiringToken | sdk/macaroons.py:344-373 | a minted token attenuated with `expires<T` is accepted if and only if the clock is before T |
| CaveatMeaning.BoundedToken | sdk/macaroons.py:344-373 | one attenuated with `key<=N` is accepted if and only if the fact is there and a number up to N |
| MacaroonLaws.AttenuationIntersects | sdk/macaroons.py:210-224 | for any list of attenuations the accepting contexts are exactly those that accept the original and match every added predicate |
| MacaroonLaws.ThirdPartyIntersects | sdk/macaroons.py:241-264 | a third-party caveat intersects further with the contexts whose bag holds a verifying discharge under the identifier cut at its first colon, which is the identifier asked for if and only if it has no colon |
| MacaroonLaws.MintedDischarge | sdk/macaroons.py:267-270 | a discharge minted with the derived key, under any identifier, and attenuated discharges exactly where its predicates match |
| MacaroonReach.ComputationStaysInReach | sdk/macaroons.py:158-188 | a computation by writing, cutting, joining and HMAC from given strings never leaves their symbolic closure |
| MacaroonReach.WalkInjective | sdk/macaroons.py:168-188 | a signature under one secret fixes the identifier and every caveat's message, in order |
| MacaroonReach.OnlyExtensions | sdk/macaroons.py:158-264 | whoever has issued macaroons, verification ids included, discharge keys and anything else but the secret, its root key and other signatures under it computes verifying signatures only for tokens that extend, message by message, an issued macaroon or the token behind one of its verification ids |
| MacaroonReach.OnlyExtensionsFirstParty | sdk/macaroons.py:158-224 | attenuation only narrows: without third-party caveats in the issued macaroons every such token extends an issued macaroon, agrees with it on every first-party caveat there, and has its caveat list as a prefix if attenuate wrote both |
| MacaroonReach.ReachExactly | sdk/macaroons.py:158-264 | who holds all of that computes the signatures of exactly those tokens, with further caveats whose messages can be computed |
| MacaroonReach.ReachIsComputable | sdk/macaroons.py:158-188 | a byte string can be computed if and only if it is in the symbolic closure |
| MacaroonReach.VidIsAttenuation | sdk/macaroons.py:241-264 | the verification id of a third-party caveat is the signature that attenuating the same macaroon with the discharge identifier gives |
| MacaroonReach.ShedAccepted | sdk/macaroons.py:241-264 | so the third-party caveat can be shed in exactly the contexts where the caveats before it hold and its discharge identifier matches as a predicate |
| MacaroonReach.ShedIsNoExtension | sdk/macaroons.py:241-264 | and the token without it is no extension of the issued one |
| MacaroonReach.DischargeEvaded | sdk/macaroons.py:241-264 | for every issued macaroon and every discharge identifier that the bag lacks: with that third-party caveat it is refused, and the token behind the verification id is accepted if and only if the macaroon is and the identifier matches as a predicate |
| MacaroonReach.OperationsIssue | sdk/macaroons.py:194-264 | minting, attenuating and adding third-party caveats make issued macaroons of issued ones |
| MacaroonReach.DischargeKeyHarmless | sdk/macaroons.py:227-238 | a derived discharge key is none of what must be withheld |
| MacaroonRecast.AcceptedTokenNarrows | sdk/macaroons.py:344-373 | a context that accepts a computed token already accepts the exposed token it extends, if the exposed caveats are settled, whatever verification ids the token has, or if these are whole HMAC outputs |
| MacaroonRecast.PredicateRecast | sdk/macaroons.py:172-188 | every predicate that names a discharge from some position on can be recast: it fails and the issued token is refused, yet an extension with the same signature is accepted as soon as the bag discharges what is named |
| MacaroonRecast.HintRetargets | sdk/macaroons.py:241-264 | every third-party caveat whose hint names a second discharge can be retargeted to it, the first being missing |
| MacaroonRecast.ExtensionAcceptedExactly | sdk/macaroons.py:344-398 | some extension of a token is accepted, one with its own signature, if and only if every caveat of it holds as a predicate or is discharged as read from some position on |
| MacaroonRecast.AcceptanceExactly | sdk/macaroons.py:344-398 | holders of issued macaroons get some token accepted in exactly the contexts where that is so for an issued macaroon or the token behind a verification id |
| MacaroonRecast.SettledDecides | sdk/macaroons.py:172-188 | a caveat holds wherever some reading of its message does if and only if it is settled: a predicate that names no discharge anywhere, a third-party identifier that names only its own |
| MacaroonLaws.MessageExact | sdk/macaroons.py:172-177 | equal chained messages mean equal caveat identifiers if and only if equally much of the message is verification id |
| MacaroonLaws.KindsShareMessages | sdk/macaroons.py:176-177 | a first-party and a third-party caveat can chain the same message |
| MacaroonLaws.CaveatRankIrrelevant | sdk/macaroons.py:376-398 | whether a caveat holds depends on the discharge bag alone, not on the ranking that shows it acyclic |
| Leb128.ReadLebU32 | scripts/onchain_preflight.py:79-97 | reads the LEB128 value of up to six bytes, and tells running out of bytes from too long |
| Leb128.SixBytes | scripts/onchain_preflight.py:79-97 | this reader reads exactly the encodings of one to six bytes, every byte but the last asking for more, as the number they encode |
| Leb128.FailuresExactly | scripts/onchain_preflight.py:79-97 | it is too long if and only if as many bytes as are allowed all ask for more, and out of bytes if and only if the buffer ends before that |
| Leb128.ReadLeb | scripts/audit_contract_artifact.py:140-149 | reads the LEB128 value of any length that the buffer holds |
| Leb128.ReadsEncoding | scripts/onchain_preflight.py:79-97 | on a terminated encoding within the limit the value is the encoded one and reading stops right behind it |
| Leb128.HigherLimit | scripts/audit_contract_artifact.py:140-149 | what a limited reader reads, a more generous one reads alike |
| WasmExports.WalkExports | scripts/onchain_preflight.py:100-139 | returns the walk's names on every byte string, without failing, looking at no more bytes and taking no more turns than the input is long |
| WasmExports.WasmExportNames | scripts/audit_contract_artifact.py:152-181 | returns the sorted names of the first export section, and fails exactly where a read leaves its buffer or the magic is missing |
| WasmExports.WellFormedModules | scripts/onchain_preflight.py:100-139 | on every well-formed module (WebAssembly Core Specification 1.0, sections 5.2.2, 5.5.2 and 5.5.10; integers of one to five bytes, padded ones included) the lenient walker returns the export names in order and the strict one returns them sorted |
| WasmFormed.HeaderNeeded | scripts/onchain_preflight.py:100-115 | without magic and version the lenient walker returns nothing; the strict one raises for the magic if and only if the four bytes are missing |
| WasmFormed.OneExport | scripts/onchain_preflight.py:100-139 | both return the one name of a fifteen-byte module written out |
| WasmExports.WalkersAgree | scripts/audit_contract_artifact.py:152-181 | on every byte string that the strict walker reads through with six-byte integers, both return the same names, one in order, the other sorted |
| WasmAgreement.WalkersAgreeExactly | scripts/audit_contract_artifact.py:152-181 | on every byte string: both return the same names if and only if the strict walker succeeds and finds none, or succeeds with integers of at most six bytes behind the full magic |
| WasmFormed.WalkersAgreeOnBytes | scripts/audit_contract_artifact.py:152-181 | on the bytes: both return the same names if and only if the file is laid out without exports, or has the full magic and is laid out with integers of at most six bytes up to the last export entry |
| WasmFormed.StrictExactly | scripts/audit_contract_artifact.py:152-181 | the strict walker succeeds exactly on the files laid out as plain sections and then the end, an overlong section, or an export section with its counted entries inside, and returns the entries' names |
| Leb128.ReadIsEncoded | scripts/onchain_preflight.py:79-97 | whatever is read stands in the buffer as a terminated encoding within the limit |
| WasmAgreement.WalksCompared | scripts/onchain_preflight.py:113-139 | where the strict walker succeeds the lenient one never finds more names, and as many only if there are none or its limit did no harm |
| WasmExports.WalkFromAgrees | scripts/onchain_preflight.py:113-139 | the same from any section on and for any limit on the integers |
| WasmExports.SectionEndIgnored | scripts/onchain_preflight.py:125-138 | off that domain they part: the lenient walker reads entries behind the end of the export section, the strict one fails |
| ArbiterVotes.CountValidVotes | server/arbiter_crypto.py:127-148 | the loop counts the distinct registered public-key strings with at least one valid submitted signature |
| ArbiterVotes.CountOrderIndependent | server/arbiter_crypto.py:127-148 | the voters do not depend on the order of the submitted votes |
| ArbiterVotes.CountMonotone | server/arbiter_crypto.py:127-148 | more votes never lower the count |
| ArbiterVotes.CountsKeys | server/arbiter_crypto.py:127-148 | so it is where no key is registered under two spellings |
| ArbiterVotes.CountsKeysExactly | server/arbiter_crypto.py:127-148 | the count is of distinct keys if and only if no two of the voters spell one key |
| ArbiterVotes.TwoSpellingsTwoVotes | server/arbiter_crypto.py:136-147 | where one is, its holder's single signature counts twice |
| ArbiterVotes.MessageExact | server/arbiter_crypto.py:25-52 | messages of resolve, cap-approval and insurance ballots are equal if and only if the ballots are, given a verdict and a claimant without colons |
| ArbiterVotes.SharedMessageExact | server/arbiter_crypto.py:25-52 | without that: two ballots that share a message are of one kind and equal if and only if their verdicts, or claimants, are equally long |
| ArbiterVotes.MessageIdentifies | server/arbiter_crypto.py:25-52 | a ballot is the only one with its message if and only if neither the escrow nor the verdict or claimant holds a colon |
| ArbiterVotes.ColonShiftsMessage | server/arbiter_crypto.py:25-30 | with a colon in the verdict two escrows can share a message, here is one pair |
| ArbiterVotes.VoteNotReplayed | server/arbiter_crypto.py:114-148 | a signature that counts for two ballots counts for one and the same if and only if verdicts or claimants are equally long, hence always if these hold no colon |
| ArbiterVotes.VoteExactly | server/arbiter_crypto.py:25-148 | a vote is valid if and only if key and signature are 01 and hex of 32 and 64 bytes and the signature verifies over the ballot's text, `resolve:escrow:verdict`, `action:escrow:cap_approval` or `claim:escrow:claimant:amount` |
| ArbiterVotes.ApprovalsApart | server/arbiter_crypto.py:34-42 | an approval of a release is none of a swap reveal, and approvals of one action are for one escrow |
| BatchGuard.EvaluateBatch | server/batch_guard.py:135-276 | admits exactly the batches that meet the declarative policy, and reports all rejections in order, the over-cap hashes and the least vote count among them |
| BatchGuard.AdmitsExactlyPolicy | server/batch_guard.py:135-276 | the ordered rejections are empty if and only if the policy holds |
| BatchReport.PolicyExactly | server/batch_guard.py:135-276 | the policy in terms of the snapshots: release or cancel, between one and the allowed number of hashes, each named once and pending, and, for a release over the cap with arbiters registered, enough votes |
| BatchReport.ReportExactly | server/batch_guard.py:135-276 | each rejection is listed exactly as often as it is due, with what it carries: a duplicate per repetition, unknown, settled and under-voted escrows per mention, and nothing else |
| BatchReport.ReportOrder | server/batch_guard.py:155-266 | the report lists size and list errors first, then duplicates, then escrows, then missing votes |
| BatchReport.BatchOrder | server/batch_guard.py:176-217 | duplicates, refused escrows and over-cap escrows are each listed in the order of the batch |
| BatchReport.AboveCapExactly | server/batch_guard.py:191-217 | over the cap are listed exactly the pending escrows of a release whose amount exceeds it, per mention |
| BatchGuard.BatchIsItsSingletons | server/batch_guard.py:135-276 | a batch is admitted if and only if it is within bounds, repeats nothing and every escrow of it would be admitted alone with the same votes |
| BatchGuard.MoreVotesKeepAdmission | server/batch_guard.py:218-266 | submitting more votes never turns an admitted batch into a refused one |
| BatchGuard.CheckDuplicates | server/batch_guard.py:176-189 | reports every occurrence of a hash after its first, in order |
| BatchGuard.NoDupes | server/batch_guard.py:176-189 | nothing is reported if and only if the hashes are pairwise distinct |
| BatchGuard.CheckEscrows | server/batch_guard.py:191-217 | reports unknown and non-pending escrows in order and collects the releases above the cap |
| BatchGuard.CheckQuorum | server/batch_guard.py:224-266 | reports every over-cap escrow short of its quorum and the least count |
| BatchGuard.LeastIsLeast | server/batch_guard.py:232-266 | the reported count is attained and no over-cap escrow has fewer |
| BatchGuard.QuorumHolds | server/batch_guard.py:219-266 | no shortfall is reported if and only if every over-cap escrow has its quorum or no arbiter is registered |
| RateLimit.WindowExact | server/app.py:386-392 | within a window exactly the first 60 requests of an address are admitted |
| RateLimit.AtMost119 | server/app.py:386-392 | any closed 60-second interval sees at most 119 admitted requests of one address |
| RateLimit.Reaches119 | server/app.py:386-392 | and 119 is reached, so no smaller bound holds |
| RateLimit.SharedDecidesAlone | server/app.py:383-398 | with all addresses and the eviction sweep, each request is decided as by a limiter that sees its address alone and never forgets |
| RateLimit.SharedAtMost119 | server/app.py:383-398 | the bound for the middleware, whatever other addresses do and whatever is evicted |
| RateLimit.RateLimiter.HandleRequest | server/app.py:383-398 | one request changes the table as stated, a refused one without the sweep, and after an admitted one the table is within its bound or holds no stale entry |
| RateLimit.HandleExactly | server/app.py:383-398 | one request starts a 60-second window for its address or counts on, and with more than 5000 addresses an admitted one forgets exactly those whose window ended over 120 seconds ago |
| RateLimit.TableBounded | server/app.py:383-398 | after every admitted request of every run the table holds at most 5000 addresses, or only such as made a request in the last 180 seconds |
| RateLimit.RateLimiter.Sweep | server/app.py:395-397 | removes exactly the entries whose reset lies before the cutoff |
| Timelock.ReachableIsSound | sdk/admin_timelock.py:146-254 | over every run: ids are exactly 1 to next id minus 1, an executed action ran no earlier than its ready time, ready times lie at least the initial delay after queueing, and after renounce nothing is pending |
| Timelock.RunEvolves | sdk/admin_timelock.py:146-254 | from any point on the delay never shrinks, actions keep their terms and settled ones never change |
| Timelock.RenouncedForever | sdk/admin_timelock.py:234-254 | after renounce no event changes anything |
| Timelock.NothingRunsUnannounced | sdk/admin_timelock.py:146-195 | an action that runs was queued by an earlier event with the same type and parameters, at least the delay of that moment, hence the initial delay, before |
| Timelock.QueuedBefore | sdk/admin_timelock.py:146-165 | every action of the registry was queued by an event of the run with the terms it has |
| Timelock.ExecutedOnce | sdk/admin_timelock.py:167-195 | every executed action was executed by exactly one event, at its executed_at |
| Timelock.FailureCanBeRetried | sdk/admin_timelock.py:181-184 | a raising executor changes nothing but what its own set_delay calls did, and the action can be executed at any later time |
| Timelock.SetDelaysOnlyRaises | sdk/admin_timelock.py:219-232 | any sequence of set_delay calls touches the delay only and never lowers it |
| TimelockEffects.CancelDoes | sdk/admin_timelock.py:197-217 | an Ok cancel of a pending action stores it cancelled, now and for the reason given, its terms, all other actions and the delay as before; the other calls are refused or return what is there |
| TimelockEffects.QueueDoes | sdk/admin_timelock.py:146-165 | an Ok queue stores a pending action under the next id with the given terms, queued now and ready after the delay, and changes nothing else |
| TimelockEffects.SetDelayDoes | sdk/admin_timelock.py:219-232 | an Ok set_delay makes the delay the new one and changes nothing else |
| TimelockEffects.DelaysReach | sdk/admin_timelock.py:219-232 | after a list of set_delay calls the delay is the greatest of the list and the old one |
| TimelockEffects.ExecuteDoes | sdk/admin_timelock.py:167-195 | an Ok execute stores the action executed, now and with the executor's reply, its terms and all other actions as before; a refused one changes nothing |
| TimelockEffects.RenounceDoes | sdk/admin_timelock.py:234-254 | renouncing cancels exactly the pending actions, now and with reason `renounce` |
| TimelockEffects.CancelledNeverRuns | sdk/admin_timelock.py:167-217 | over every run an action that some event cancels is executed by no event |
| TimelockEffects.CancelledBefore | sdk/admin_timelock.py:197-254 | every cancelled action was cancelled by an event of the run, a cancel of it or a renounce, at its cancelled_at and for its reason |
| TimelockRegistry.TimelockRegistry.Create | sdk/admin_timelock.py:117-119 | construction fails exactly for a negative delay |
| TimelockRegistry.TimelockRegistry.constructor | sdk/admin_timelock.py:97-119 | a new registry is empty with next id 1 |
| TimelockRegistry.TimelockRegistry.Queue | sdk/admin_timelock.py:146-165 | queues a pending action under the next id, or rejects and changes nothing |
| TimelockRegistry.TimelockRegistry.Execute | sdk/admin_timelock.py:167-195 | runs a ready pending action and settles it, or rejects; a raising executor leaves it pending |
| TimelockRegistry.TimelockRegistry.Cancel | sdk/admin_timelock.py:197-217 | cancels a pending action, returns a cancelled one unchanged, rejects an executed or unknown one |
| TimelockRegistry.TimelockRegistry.SetDelay | sdk/admin_timelock.py:219-232 | raises the delay or rejects and changes nothing |
| TimelockRegistry.TimelockRegistry.Renounce | sdk/admin_timelock.py:234-254 | the loop cancels every pending action with reason `renounce` and leaves the others; a second call does nothing |
| TimelockRegistry.TimelockRegistry.ListPending | sdk/admin_timelock.py:139-140 | lists exactly the pending actions, each once, in queueing order |
| IntBytes.MinimalIntBytesExact | sdk/range_proof.py:158-160 | the minimal big-endian encoding reads back as the number, and only zero starts with a zero byte |
| Pedersen.BuiltProofsVerify | sdk/range_proof.py:232-290 | every proof that can be built is accepted, for a commitment from anywhere |
| Pedersen.VerifiedProofsAreBuilt | sdk/range_proof.py:232-290 | a proof with its commitment spelled as `bytes.hex()` does is accepted if and only if building it again gives it back |
| Pedersen.CommitBuildVerify | sdk/range_proof.py:144-290 | from an amount and a randomness in range: committing, building and verifying succeed, through minimal bytes and hex |
| Pedersen.TwoOpenings | sdk/range_proof.py:170-178 | with p prime, two accepted openings of one commitment satisfy g^(a-a') = h^(r'-r) modulo p, the power of h on the other side if r' < r |
| Pedersen.SameValueExactly | sdk/range_proof.py:157 | that relation holds if and only if the two openings commit to the same value |
| Pedersen.RandomnessFixesAmount | sdk/range_proof.py:170-178 | one randomness opens a commitment to one amount, if no positive power of g below 2^64 is 1 |
| Pedersen.RandomnessFixesAmountExactly | sdk/range_proof.py:170-178 | it does so for all commitments if and only if no positive power of g below 2^64 is 1 |
| Pedersen.PrimeOrderFixesAmount | sdk/range_proof.py:63-67 | which is the case where q is a prime of 2^64 or more, g^q is 1 and g is not 1 |
| ModArith.PrimeOrder | sdk/range_proof.py:63-67 | an element of which a prime power is 1 is 1 itself or has no smaller positive power 1 |
| ModArith.Euclid | sdk/range_proof.py:157 | a prime that divides a product but not its first factor divides the second |
| Pedersen.SerializeExact | sdk/range_proof.py:215-225 | two proofs have the same hashed bytes if and only if they are equal, whatever their commitment strings |
| Pedersen.AcceptedExactly | sdk/range_proof.py:264-290 | a proof is accepted if and only if its amount, below 2^64, lies in its range and its commitment is hex of the number g^amount h^randomness mod p, the randomness from 1 below q |
| Pedersen.CommitExactly | sdk/range_proof.py:144-167 | what committing returns, that number in as few bytes as it takes, and which error it raises when |
| Pedersen.BuildExactly | sdk/range_proof.py:232-261 | what building returns, field by field, and which error it raises when |
| Pedersen.SerializedText | sdk/range_proof.py:215-225 | the hashed bytes written out |
| RangePreimages.PreimageExact | sdk/range_proof.py:309-372 | attest and fraud preimages are injective in every argument and never coincide |
| RangePreimages.BuiltExactly | sdk/range_proof.py:298-372 | a preimage is built if and only if package and commitment are hex, escrow, proof hash and reason hash 64 characters of it, and the bounds ordered and below 2^64 |
| RangePreimages.ArgumentBytes | sdk/range_proof.py:298-306 | an argument of 64 characters is hex of 32 bytes, as the check's message says, if and only if it holds no white space |
| RangePreimages.PreimageText | sdk/range_proof.py:309-372 | the signed text written out, `ae402:range-proof:v1:attest:` or `fraud:` and the arguments with colons |
| RangePreimages.SignatureFixesStatement | sdk/range_proof.py:380-460 | a signature for one statement, hence one deployed package, verifies for no other |
| Governance.DecodeInvertsEncode | sdk/governance.py:106-235 | decoding inverts encoding on everything the encoder accepts |
| Governance.ReadsBackExactly | sdk/governance.py:106-235 | written parameters of any kind, in range or not, are read back if and only if op and value are not empty and hold no semicolon |
| Governance.WireExact | sdk/governance.py:106-164 | accepted parameters have the same wire form if and only if they are equal |
| Governance.AcceptedReadings | sdk/governance.py:181-235 | a decoded value that the encoder accepts encodes under the same action code to a string with the same reading |
| GovernanceContract.DecoderChecksNoRange | sdk/governance.py:181-235 | for all six kinds: written parameters are read back in range or not, so the decoder keeps to the contract's schema on them if and only if the encoder accepts them and they fit |
| GovernanceContract.ContractReadsBackExactly | contracts/ae402-governance-dao/src/lib.rs:230-305 | the contract reads written parameters of any kind back if and only if the encoder accepts them and they fit: integers below 2^64, a threshold in digits alone |
| GovernanceContract.EncoderPromiseExactly | sdk/governance.py:106-164 | the encoder's promise to refuse what the contract would is kept if and only if what it accepts fits; it refuses nothing that the contract would read back |
| GovernanceContract.EncodedButRefused | sdk/governance.py:106-164 | inputs that break it: a delay of 2^64 seconds, a threshold with a space |
| GovernanceContract.SchemaExactly | sdk/governance.py:181-235 | for every string that is decoded: the contract reads it alike if and only if the first values of its keys read as the last ones do, in range and in plain numerals |
| GovernanceContract.OneReading | sdk/governance.py:167-235 | where no key repeats, the contract takes exactly what is decoded in range and in plain numerals, and reads it alike |
| GovernanceContract.TwoReadings | sdk/governance.py:167-178 | a repeated key gives one string two readings: the contract takes the first value, the decoder the last |
| GovernanceContract.SplitPairs | contracts/ae402-governance-dao/src/lib.rs:180-198 | the loop over the segments reads the list of pairs and fails at a malformed segment |
| GovernanceContract.FindFirst | contracts/ae402-governance-dao/src/lib.rs:220-227 | the loop finds the value under the first occurrence of a key |
| GovernanceContract.ReadU64 | contracts/ae402-governance-dao/src/lib.rs:202-218 | the checked arithmetic reads exactly the strings of digits whose value is below 2^64 |
| Governance.MessageFixesProposal | sdk/governance.py:238-248 | execution messages are equal if and only if proposal id and parameters are |
| GovernanceText.EncodedText | sdk/governance.py:106-164 | the action's number and the wire string written out for each of the six kinds |
| GovernanceText.ExecutionText | sdk/governance.py:238-248 | the execution message written out, none for a negative number |
| GovernanceText.ReadsAsExactly | sdk/governance.py:167-178 | a string reads as given pairs if and only if it is they, `key=value`, joined by semicolons, keys and values there, no key with an equals sign; the empty string reads as none |
| GovernanceText.NumeralsExactly | contracts/ae402-governance-dao/src/lib.rs:202-218 | the contract reads exactly the texts of digits alone whose number stays below 2^64, as int() does |
| GovernanceText.RepeatedKey | sdk/governance.py:167-178 | of a key written any number of times the contract takes the first value, the decoder the last |
| KeyValue.ReadKvPairs | sdk/governance.py:167-178 | the loop over the segments reads the pairs, the last value of a repeated key, and fails at a malformed segment |
| KeyValue.SplitJoin | sdk/governance.py:171 | splitting at a separator undoes joining with it |
| KeyValue.TwoPairs | sdk/governance.py:167-178 | two written pairs are read back as the dict of both |
| Decimal.PyIntInvertsIntStr | sdk/governance.py:187 | int() inverts str() on every integer |
| Decimal.PyIntAlphabet | sdk/governance.py:122-127 | text that int() accepts holds digits, signs, underscores and white space only |
| Decimal.PyIntExactly | sdk/governance.py:122-127 | int() reads a text as a number if and only if it is white space, a sign or none, that number's digits with single underscores between them, leading zeros allowed, and white space |
| Hex.FromHexInvertsToHex | sdk/range_proof.py:94-95 | bytes.fromhex() inverts bytes.hex() |
| Hex.HexDigitsExactly | sdk/range_proof.py:298-306 | the hex digits are the sixteen in either case, each with its value |
| Hex.FromHexPairs | sdk/range_proof.py:298-306 | a text without white space is hex of given bytes if and only if it is their digits, in either case, two a byte, the high one first |
| Hex.FromHexSpace | sdk/range_proof.py:298-306 | white space may stand between bytes and only there |

## Left out

- SwapSafety.RelayerAloneIsSafe: a corollary for swaps that share no leg id; the exact condition for all swaps is RelayerMixesExactly.
- MacaroonRecast.AcceptedTokenNarrows: a corollary for settled caveats or whole verification ids; AcceptanceExactly has no such condition. An HMAC output is one symbol, so verification ids that cut one in two, which leave no readable identifier behind, are not represented.
- MacaroonReach.OnlyExtensions: caveats are compared by the messages they chain, because the code does not separate `vid` from `cid`.
- Macaroons.VerifyThirdParty: a caveat that reaches a cycle of discharges, on which the source recurses without end, is outside its precondition; cycles elsewhere in the bag are not.
- TimelockRegistry.TimelockRegistry.Execute: the executor may call `set_delay` but no other mutator of the registry, as the source's design assumes.
- BridgeRelayer.BridgeRelayer.Tick: time stands still during one tick, where the source reads the clock for every swap; callbacks are the registry's own claim and refund, where the source's `_main` only logs them.
- RateLimit.AtMost119: the clock does not go backwards and real numbers stand for floats.
- CanonicalJson.CanonicalExact: equality is within one type, where Python also equates True with 1.
- BatchGuard.EvaluateBatch: the human-readable text of a rejection is not part of the model.
- WasmExports.WellFormedModules: any one-byte section id other than 7 and any order of sections is allowed, which is more than the format does; the bodies of other sections are not parsed.
- WasmExports.WalkersAgree: stated on its own domain; WalkersAgreeExactly and WalkersAgreeOnBytes cover every byte string.
- The governance contract's voting and execution entry points: not part of this model, only its parameter parser is.
- The `_canonical_payload_hash` of the log, the lineage links and event sanitising of `server/audit_trace.py`, and the wire format of macaroons: serialisation by library calls.
- SHA-256, HMAC, BLAKE2b and Ed25519 themselves, the primality of the 2048-bit modulus and the derivation of h: parameters and hypotheses.
- UTF-8, surrogates and Unicode digits, white space and case: strings are character sequences and Python's int(), lower() and isdigit() are modelled on ASCII; the interpreter's limit on digits of an int is not modelled.
- Threads, the registry's lock, asyncio scheduling and signals: each call is one atomic step.
- Sharing of mutable values between callers and objects (the params dict of a timelock action, nested claims of a receipt): values are copied.
- Issuer key parsing, receipt summaries, quorum arithmetic and proposal status: settled by reading one body.
- The rest of `server/app.py`, the clients, command-line tools and contracts: plumbing, or not part of this model.
