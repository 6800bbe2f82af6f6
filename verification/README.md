# Verified model of the Switchboard On-Demand SDK core

A Dafny model of the parts of the `switchboard-on-demand` Rust crate where a mistake would be expensive: the path
of an oracle quote from a transaction's instructions to a verified value, the slot-hash lookups it relies on, the
median of feed submissions, decimal rescaling, signer resolution, and two byte encodings.

Check everything with `dafny verify dfyconfig.toml`.

## How to read it

* **Ends of a call.** `Outcome` has four cases: `Ok`, `Bail` (an `Err` result), `Panic` (the transaction aborts)
  and `Undefined` (a raw-pointer read or a reference outside the buffer, to which Rust gives no meaning). No
  entry point has a precondition that excludes malformed input: the out-of-bounds cases are a result of their own,
  and nothing is claimed about them beyond that.
* **Builds.** The crate fixes no build profile, so u64 subtraction and i128 powers take a flag `checked`: with
  overflow checks they panic, without them they wrap.
* **Form.** Code that changes state or loops is a method or a class (`QuoteVerifier`, `TransactionBuilder`,
  `AccountInfo`, the array that `parse_instruction` fills, the in-place store and sort). Each such method is proved
  equal to a specification function, and the properties are lemmas about those functions. For each of these functions
  some lemma says what it yields in other terms: byte positions and literal sizes, the fields of an object, or
  positions in a list.
* **Files.** `Machine`, `Arithmetic`, `LittleEndian`, `Keys` are shared. `QuoteLayout`, `Ed25519Sysvar`,
  `InstructionsSysvar`, `OracleQuotes`, `AccountRuns`, `SlotHashTable`, `QuoteVerifiers`, `QuotePipeline` are the quote
  path; `Medians`, `PullFeeds`, `Checksums`, `Decimals` the feeds; `TransactionBuilders` and `GuardianQuotes` the
  client side.

## What the code does not do

Each point is a theorem with its exact condition.

* **Slot regression.** `store_delimited` is documented to refuse a slot older than the stored one. It compares with
  the slot 13 bytes from the end of the buffer, not of the delimited record. Two successive writes of `s`-byte
  records to an `n`-byte account are kept in order for all contents exactly when `s + 10 = n` (`OrderKeptIff`);
  with one spare byte slot 1 can be replaced by slot 0 (`LooseFitRegresses`). A given account is safe exactly when
  its stored slot is not above its tail slot (`ProtectedIff`). Verification adds nothing: for every size a quote can
  have, verified slots are kept in order exactly when the quote fills the account (`VerifiedOrderKeptIff`), and
  otherwise one chain state verifies first the newer quote and then the older (`LooseQuotesRegress`).
* **Oracle count.** `oracle_count` counts signatures, not oracles: up to eight signatures of one key are accepted
  (`OneOracleCountedOften`). In a queue without duplicates the signers are distinct exactly when the indices are
  distinct modulo 30 (`VerifiedKeysDistinctIff`).
* **Length prefix.** The length is cast to `u16`. A record is loaded back exactly when it is shorter than 65536
  bytes (`StoreLoadIff`).
* **Guessed slot-hash index.** The start `(newest - target) % 512` assumes no skipped slots. For a given lag the
  search is complete on all tables exactly when the lag is below 512 or leaves remainder 511 (`CompleteAtLagIff`).
  The age limits under which `verify` loses no authentic quote are exactly those below 512 (`CompleteAtAgeIff`);
  above them a quote at slot 0 is lost (`GapLosesQuote`). Under any limit `verify` accepts exactly the authentic
  quotes whose slot the search reaches (`VerifyExact`).
* **Staleness window.** `get_value` subtracts the window from the clock. A window reaching back before slot 0
  panics or wraps instead of taking all submissions (`WindowAsDocumentedIff`).
* **Lower median.** `lower_bound_median` returns index `len / 2`, the upper middle element of an even list
  (`LowerMiddleIff`).
* **Rescaling.** Beyond 38 places `10^e` does not fit i128: a checked build panics, an unchecked one goes on with the
  wrapped power. Reductions are right for all mantissas exactly up to 38 places (`ScaleDownExactIff`), and for one
  mantissa beyond that exactly when it is below the wrapped power in an unchecked build (`ScaleDownExactAt`); an
  enlargement is exact when power and product fit, and otherwise only for zero in an unchecked build
  (`ScaleUpExactIff`). Reducing in two steps is reducing directly for all mantissas exactly when all places fit or a
  step fails by itself, in a checked build, and when the product of the two factors fits i128, in an unchecked one
  (`RoutesAgreeIff`). The order of mantissas is kept exactly when the build is checked, at most 38 places separate
  the scales, or the wrapped power is not negative (`KeepsOrderIff`); at 39 places 1 is taken below 0
  (`ThirtyNinePlacesReverse`).
* **Equality and order of decimals.** The derived `==` compares fields and disagrees with `cmp` across scales
  (`CmpEqualIsEqIff`).
* **Reads outside the data.** The parser checks the signature count and the trailer's room, and then follows
  offsets through raw pointers unchecked. `UndefinedIff` says exactly which inputs make it leave its buffer; sixteen
  bytes suffice (`ShortInputLeavesData`).
* **Tag.** The layout comments describe a closing `SBOD` tag. The parser does not check it: quotes with another tag are
  accepted (`WrongTagAccepted`). Accepted data is parsed without regard to the tag and the padding byte exactly when
  no record lies there or points there (`TagUnreadIff`); otherwise they are read as what the record makes of them
  (`KeyOverTagRead`).
* **Budget order.** A comment wants the price instruction first; it is first exactly when fees are set and units are
  not (`BudgetExact`).

## Model

| member | source | states |
|---|---|---|
| Keys.CheckP64Eq | src/utils.rs:88-93 | comparing four unaligned little-endian u64 words is equality of all 32 bytes |
| Keys.CheckPubkeyEq | src/utils.rs:72-84 | the same for public keys |
| QuoteLayout.FeedLayout | src/on_demand/oracle_quote/feed_info.rs:34-41 | identifier, value and sample count lie at bytes 0, 32 and 48 of 49 |
| QuoteLayout.DecodeEncodeFeed | src/on_demand/oracle_quote/feed_info.rs:34-41 | the 49-byte layout of a feed entry (id, signed 128-bit value, sample count) is read back |
| QuoteLayout.EncodeDecodeFeed | src/on_demand/oracle_quote/feed_info.rs:93-125 | and every 49 bytes are the layout of exactly one entry |
| QuoteLayout.OffsetsLayout | src/sysvar/ed25519_sysvar.rs:25-40 | the place of each of the seven fields in the 14 bytes |
| LittleEndian.ToBytesAt | src/on_demand/accounts/pull_feed.rs:333-337 | byte i of an encoded integer is its digit i in base 256 |
| QuoteLayout.ReadEncodedOffsets | src/sysvar/ed25519_sysvar.rs:25-40 | the seven u16 fields of a 14-byte offset record are read back in order |
| QuoteLayout.FeedsOfEncoded | src/sysvar/ed25519_sysvar.rs:193-212 | a message is a 32-byte header followed by its feeds, however many |
| Ed25519Sysvar.ParseInstruction | src/sysvar/ed25519_sysvar.rs:125-301 | the parser returns the first failure in source order, and succeeds exactly on `Acceptable` data |
| Ed25519Sysvar.ReadSignatures | src/sysvar/ed25519_sysvar.rs:168-237 | the first record and the rest fill a zeroed array of 8 in place, unused slots staying empty |
| Ed25519Sysvar.ReadRemaining | src/sysvar/ed25519_sysvar.rs:239-290 | the loop over records 1 onward writes each to its own slot and stops at the first mismatch |
| Ed25519Sysvar.CheckExact | src/sysvar/ed25519_sysvar.rs:130-268 | parsing succeeds if and only if: 1 to 8 signatures, room for the trailer, everything in bounds, a message of 0 to 8 whole feeds, and all records agreeing with record 0 |
| Ed25519Sysvar.EarlyFailures | src/sysvar/ed25519_sysvar.rs:130-216 | each failure before the records are compared, exactly, from the bytes |
| Ed25519Sysvar.LateFailures | src/sysvar/ed25519_sysvar.rs:239-270 | after that the first record that disagrees with record 0 decides the outcome and its reason |
| Ed25519Sysvar.ParsedFromData | src/sysvar/ed25519_sysvar.rs:173-290 | signature, key, message and header of slot i are the bytes designated by the record at byte 2 + 14 i; slots behind the count are empty |
| Ed25519Sysvar.ParsedFeeds | src/sysvar/ed25519_sysvar.rs:193-212 | feed k of a signature is the entry at byte 32 + 49 k of its message, which holds nothing else |
| Ed25519Sysvar.ParsedTrailer | src/sysvar/ed25519_sysvar.rs:151-162 | oracle indices, slot and version are read at their distances from the end |
| Ed25519Sysvar.UndefinedIff | src/sysvar/ed25519_sysvar.rs:173-274 | the unsafe reader leaves its buffer exactly when count and trailer pass and a record, message, key or signature it reaches lies outside the data |
| Ed25519Sysvar.ShortInputLeavesData | src/sysvar/ed25519_sysvar.rs:173-190 | a concrete 16-byte input that does |
| Ed25519Sysvar.ParsedShareMessage | src/sysvar/ed25519_sysvar.rs:251-288 | all signatures of a parsed quote share one message, header, feed list and message index |
| Ed25519Sysvar.ParseEncode | src/sysvar/ed25519_sysvar.rs:125-301 | round trip: every record, key, signature, the header, feeds, indices, slot and version of any well-formed quote are recovered from its encoding, with no read out of bounds |
| Ed25519Sysvar.TagAndPaddingUnread | src/sysvar/ed25519_sysvar.rs:153-162 | on accepted data whose records keep clear of the padding byte and the 4-byte tag, changing those bytes changes nothing in the result |
| Ed25519Sysvar.TagUnreadIff | src/sysvar/ed25519_sysvar.rs:173-274 | and exactly then: on any other accepted data some change of those bytes changes the result |
| Ed25519Sysvar.KeyOverTagRead | src/sysvar/ed25519_sysvar.rs:219-232 | a concrete accepted input whose key covers the tag |
| Ed25519Sysvar.AnyTagParsed | src/on_demand/oracle_quote/oracle_quote.rs:228-235 | an encoding ends with its tag, and parses as it would with "SBOD" there |
| Ed25519Sysvar.TagAndPaddingIgnored | src/sysvar/ed25519_sysvar.rs:153-162 | in particular the tag and padding of any encoded quote do not matter |
| InstructionsSysvar.ExtractIxData | src/sysvar/ix_sysvar.rs:45-108 | the cursor through the buffer finds the body the offset table designates, or fails as the asserts do |
| InstructionsSysvar.ExtractExact | src/sysvar/ix_sysvar.rs:45-108 | on an arbitrary account: another key always panics; otherwise the extraction succeeds exactly where an Ed25519 body naming the index lies at the place the table gives, and yields its data |
| InstructionsSysvar.ExtractStrays | src/sysvar/ix_sysvar.rs:53-76 | exactly when an index is out of bounds, and when the reader leaves the data |
| InstructionsSysvar.ReadBodyBack | src/sysvar/ix_sysvar.rs:62-76 | a serialized instruction's program and data are read back for any number of account metas |
| InstructionsSysvar.ExtractSerialized | src/sysvar/ix_sysvar.rs:53-106 | on the serialization of any list that fits, the data of instruction k is returned if and only if it is an Ed25519 instruction of at least 16 bytes whose first record names k; each other case panics for its own reason |
| InstructionsSysvar.SplitIndexCheckComposes | src/sysvar/ix_sysvar.rs:81-104 | extraction (record 0) and parsing (records 1 onward) together make all three index fields of every record equal the instruction index |
| SlotHashTable.FindIdxExact | src/sysvar/slothash_sysvar.rs:20-22 | binary search finds the index of every slot a descending table holds, and nothing else |
| SlotHashTable.GetSlothashExact | src/sysvar/slothash_sysvar.rs:82-100 | the hash returned is the one stored beside the slot; failure exactly when the slot is absent |
| SlotHashTable.GetSlothashAnyTable | src/sysvar/slothash_sysvar.rs:92-100 | on any table, in order or not, a slot above the newest is refused, and a returned hash stands beside the slot |
| SlotHashTable.OnlyTheSysvar | src/sysvar/slothash_sysvar.rs:56-86 | all three lookups refuse any other account, and panic for that reason only then |
| SlotHashTable.LowerByteExact | src/sysvar/slothash_sysvar.rs:56-79 | without any bound on the span: success exactly when an entry has the low 16 bits and the high part of the newest or oldest entry |
| SlotHashTable.LowerByteFindsUnique | src/sysvar/slothash_sysvar.rs:56-79 | on a table spanning under 65536 slots the unique congruent entry is returned, and failure means there is none |
| SlotHashTable.FindSlothashInSysvar | src/on_demand/oracle_quote/quote_verifier.rs:404-438 | the backward loop returns the entry at the largest reachable index, or fails |
| SlotHashTable.IndexAtMostLag | src/on_demand/oracle_quote/quote_verifier.rs:424 | in a descending table an entry's index is at most its lag behind the newest slot |
| SlotHashTable.FindSlothashExact | src/on_demand/oracle_quote/quote_verifier.rs:424-437 | for every target, the search succeeds exactly when the target sits at an index at most its lag modulo 512; otherwise it reports not found, or overflow for a target ahead of the table |
| SlotHashTable.FindSlothashAnyTable | src/on_demand/oracle_quote/quote_verifier.rs:424-437 | on any table, in order or not, the entry at the largest index up to the lag modulo 512 is the one found |
| SlotHashTable.FindSlothashAgrees | src/on_demand/oracle_quote/quote_verifier.rs:424-437 | within 512 slots of the newest it agrees with binary and linear search |
| SlotHashTable.CompleteAtLagIff | src/on_demand/oracle_quote/quote_verifier.rs:424 | the lags for which the search is complete on all tables, exactly |
| OracleQuotes.FindFeedExact | src/on_demand/oracle_quote/oracle_quote.rs:207-217 | the feed returned is the first with the identifier; failure exactly when there is none |
| OracleQuotes.StoreDelimited | src/on_demand/oracle_quote/oracle_quote.rs:270-284 | after validation the buffer is the 16-bit length, the source and its own later bytes; on failure it is untouched |
| OracleQuotes.StoreFailures | src/on_demand/oracle_quote/oracle_quote.rs:300-333 | each reason to refuse, exactly, from the bytes at their distances from the end |
| OracleQuotes.DelimitedLayout | src/on_demand/oracle_quote/oracle_quote.rs:276-282 | length modulo 65536, record, unchanged rest |
| OracleQuotes.Write | src/on_demand/oracle_quote/oracle_quote.rs:367-375 | the whole new account content, on success and on each kind of panic |
| OracleQuotes.WriteFailures | src/on_demand/oracle_quote/oracle_quote.rs:367-375 | the failures of `write` are those of storing behind byte 8, and the 23-byte minimum |
| OracleQuotes.WriteFromIx | src/on_demand/oracle_quote/oracle_quote.rs:412-426 | the same for the data extracted from an instruction: unchanged when extraction fails or the account is too short, otherwise the discriminator is written even when the call fails |
| OracleQuotes.WriteFromIxExact | src/on_demand/oracle_quote/oracle_quote.rs:412-426 | it succeeds exactly where extraction and write both do, fails as the first that fails, and refuses any account but the instructions sysvar |
| OracleQuotes.LoadAccountExact | src/on_demand/oracle_quote/quote_verifier.rs:210-264 | a record is loaded exactly from accounts with the discriminator and a length that fits, and is the delimited bytes; each failure exactly |
| OracleQuotes.DiscriminatorSpelled | src/on_demand/oracle_quote/oracle_quote.rs:19-21 | the discriminator spells "SBOracle" |
| OracleQuotes.StoreLoadIff | src/on_demand/oracle_quote/oracle_quote.rs:270-284 | what was written is loaded back exactly when shorter than 65536 bytes |
| OracleQuotes.WrittenKeepsRest | src/on_demand/oracle_quote/oracle_quote.rs:274-283 | discriminator and length stand before it, the record is the source, and all bytes behind it are unchanged |
| AccountRuns.SucceedsIff | src/on_demand/oracle_quote/oracle_quote.rs:300-333 | a write succeeds exactly when the record fits and its slot is below the clock and not below the tail slot |
| AccountRuns.RunAppend | src/on_demand/oracle_quote/oracle_quote.rs:367-375 | a run is its parts in order, and a failing write leaves the account as it was |
| AccountRuns.WriteStoresSlot | src/on_demand/oracle_quote/oracle_quote.rs:308-317 | the stored slot is the source's, strictly below the clock |
| AccountRuns.ProtectedIff | src/on_demand/oracle_quote/oracle_quote.rs:319-331 | a stored record is protected against regression exactly when its slot is at most the slot at the account's tail |
| AccountRuns.OrderKeptIff | src/on_demand/oracle_quote/oracle_quote.rs:254-257 | the documented progression holds for all contents of given sizes exactly when records fill the account |
| AccountRuns.LooseFitRegresses | src/on_demand/oracle_quote/oracle_quote.rs:319-331 | a concrete run, for every looser fit, in which a smaller slot replaces a larger one |
| AccountRuns.TailNeverDecreases | src/on_demand/oracle_quote/oracle_quote.rs:300-333 | along any run whose landing writes fit exactly, with failing writes of any size in between, the compared slot never decreases |
| AccountRuns.StoredUntilNext | src/on_demand/oracle_quote/oracle_quote.rs:367-375 | after a landed write the account holds exactly that source until the next one lands |
| AccountRuns.RunKeepsOrder | src/on_demand/oracle_quote/oracle_quote.rs:270-333 | over such runs the landed slots are in order and each is below its own clock |
| QuoteVerifiers.QueueSizeIs6280 | src/on_demand/accounts/queue.rs:22-86 | the field sizes put the signing keys at byte 4200 and the account size at the literal 6280 |
| QuoteVerifiers.QuoteVerifier.constructor | src/on_demand/oracle_quote/quote_verifier.rs:81-89 | nothing is set and the age limit is 0 |
| QuoteVerifiers.QuoteVerifier.Queue | src/on_demand/oracle_quote/quote_verifier.rs:105-111 | sets the queue and nothing else, returning the same verifier |
| QuoteVerifiers.QuoteVerifier.SlothashSysvar | src/on_demand/oracle_quote/quote_verifier.rs:127-133 | sets the slot-hash sysvar and nothing else |
| QuoteVerifiers.QuoteVerifier.IxSysvar | src/on_demand/oracle_quote/quote_verifier.rs:149-155 | sets the instructions sysvar and nothing else |
| QuoteVerifiers.QuoteVerifier.ClockSlot | src/on_demand/oracle_quote/quote_verifier.rs:159-162 | sets the clock slot and nothing else |
| QuoteVerifiers.QuoteVerifier.MaxAge | src/on_demand/oracle_quote/quote_verifier.rs:172-175 | sets the age limit and nothing else |
| QuoteVerifiers.QuoteVerifier.VerifyQuote | src/on_demand/oracle_quote/quote_verifier.rs:269-349 | the verdict is the specification's on the settings as they are now; told from the fields: an accepted quote is at most `age` slots behind `clock`, its hash is in the sysvar, its keys are in the queue's bytes, and conversely such a quote is accepted where the search reaches its slot |
| QuoteVerifiers.QuoteVerifier.CheckQuote | src/on_demand/oracle_quote/quote_verifier.rs:275-333 | the checks after parsing fail in source order; the loop compares every signature's key |
| QuoteVerifiers.QuoteVerifier.VerifyDelimited | src/on_demand/oracle_quote/quote_verifier.rs:251-266 | verifies the record the length prefix delimits |
| QuoteVerifiers.QuoteVerifier.VerifyAccount | src/on_demand/oracle_quote/quote_verifier.rs:198-225 | verifies the record an account holds |
| QuoteVerifiers.QuoteVerifier.VerifyInstructionAt | src/on_demand/oracle_quote/quote_verifier.rs:370-385 | verifies the data of that instruction of the instructions sysvar, and of no other account; a negative index wraps to a huge one and always fails |
| QuoteVerifiers.VerifySound | src/on_demand/oracle_quote/quote_verifier.rs:269-349 | for all settings, accepted data is authentic (fresh, hash from the table, every key the queue key of `idx % 30`) and the returned quote carries the parsed contents, 1 to 8 oracles and at most 8 feeds |
| QuoteVerifiers.VerifyFailures | src/on_demand/oracle_quote/quote_verifier.rs:275-333 | which check refuses parsed data, each reason exactly |
| QuoteVerifiers.FreshSlotFound | src/on_demand/oracle_quote/quote_verifier.rs:285-317 | with an age limit below 512 the guessed search finds every fresh slot the table holds |
| QuoteVerifiers.VerifyExact | src/on_demand/oracle_quote/quote_verifier.rs:269-349 | for every age limit and every descending table, `verify` accepts exactly the authentic data whose slot the guessed search reaches |
| QuoteVerifiers.CoveredVerifyExact | src/on_demand/oracle_quote/quote_verifier.rs:269-349 | with an age limit below 512 that is exactly the authentic data |
| QuoteVerifiers.VerifiedKeysDistinctIff | src/on_demand/oracle_quote/quote_verifier.rs:319-333 | the keys of a verified quote are those its indices, modulo 30, pick from the queue; without duplicates there, they are pairwise distinct exactly when the indices are distinct modulo 30 |
| QuoteVerifiers.NeverSlotNotFound | src/on_demand/oracle_quote/quote_verifier.rs:404-438 | under such a limit no quote fails for a slot that is in the table |
| QuoteVerifiers.VerifiedAccessors | src/on_demand/oracle_quote/oracle_quote.rs:138-217 | on a verified quote `feeds`, `oracle_index` and `feed` never go out of range and return what was parsed |
| QuotePipeline.StoredVerifiesAsSource | src/on_demand/oracle_quote/quote_verifier.rs:198-266 | verifying an account after a write is verifying the source written |
| QuotePipeline.WriteFromIxThenVerify | src/on_demand/oracle_quote/oracle_quote.rs:412-426 | storing an instruction's data and verifying the account gives the verdict on the instruction |
| QuotePipeline.VerifiedSlotsInOrder | src/on_demand/oracle_quote/oracle_quote.rs:270-333 | along a run whose landing writes fit exactly, later verifications never report an earlier slot, whatever their settings |
| QuotePipeline.VerifiedInstructionIsBound | src/on_demand/oracle_quote/quote_verifier.rs:370-385 | each signature of a verified instruction of the instructions sysvar names that instruction, carries its oracle's queue key and signs the shared message with the table's hash |
| QuotePipeline.EncodedQuoteVerifies | src/on_demand/oracle_quote/quote_verifier.rs:351-385 | any well-formed quote, as any instruction of any transaction, under any age limit, is verified exactly when the chain state matches it and the guessed search reaches its slot (always so below 512), and yields its own contents |
| QuotePipeline.QueueKeyBack | src/on_demand/oracle_quote/quote_verifier.rs:324-325 | signing key j is read from its own place in the queue account |
| QuotePipeline.MatchingChainAccepts | src/on_demand/oracle_quote/quote_verifier.rs:269-349 | every well-formed quote signed with a queue's keys is accepted by some chain state, from slot 511 on even with age limit 0 |
| QuotePipeline.CompleteAtAgeIff | src/on_demand/oracle_quote/quote_verifier.rs:285-319 | `verify` accepts all authentic data, whatever the runtime supplies, exactly for the age limits below 512 |
| QuotePipeline.GapLosesQuote | src/on_demand/oracle_quote/quote_verifier.rs:404-438 | for every larger limit, an authentic quote that is refused |
| QuotePipeline.OneOracleCountedOften | src/on_demand/oracle_quote/quote_verifier.rs:319-346 | up to eight signatures of one key under index 0 are accepted, and all are counted in `oracle_count` |
| QuotePipeline.WrongTagAccepted | src/on_demand/oracle_quote/oracle_quote.rs:228-250 | encoded quotes whose tag is not "SBOD" are accepted by `verify` |
| QuotePipeline.LooseQuotesRegress | src/on_demand/oracle_quote/oracle_quote.rs:319-331 | for every quote size and every larger account, a verified quote is replaced by an older one that the same chain state verifies |
| QuotePipeline.VerifiedOrderKeptIff | src/on_demand/oracle_quote/oracle_quote.rs:254-257 | verified slots are kept in order, for all contents and settings, exactly when the quote fills the account |
| Medians.LowerBoundMedian | src/on_demand/accounts/pull_feed.rs:492-500 | the vector ends up sorted in place and the result is the median |
| Medians.SortAscending | src/on_demand/accounts/pull_feed.rs:493 | sorting yields the ascending permutation |
| Medians.MedianRank | src/on_demand/accounts/pull_feed.rs:492-500 | the median is at most v exactly when more than len / 2 elements are, for every v |
| Medians.MedianIsOrderStatistic | src/on_demand/accounts/pull_feed.rs:492-500 | it is a member with at most len / 2 elements below and len - len / 2 - 1 above |
| Medians.MedianPermutation | src/on_demand/accounts/pull_feed.rs:492-500 | it depends on the multiset only |
| Medians.MedianMajority | src/on_demand/accounts/pull_feed.rs:492-500 | a range holding more than half the inputs holds the median |
| Medians.MedianMonotone | src/on_demand/accounts/pull_feed.rs:492-500 | raising inputs never lowers it |
| Medians.LowerMiddleIff | src/on_demand/accounts/pull_feed.rs:490-499 | it is the lower middle element for all lists of a length exactly when the length is odd |
| PullFeeds.FreshMedianRank | src/on_demand/accounts/pull_feed.rs:380-391 | the median of the fresh submissions, characterised by counting indices of the account's array |
| PullFeeds.GetValueExact | src/on_demand/accounts/pull_feed.rs:373-397 | the exact outcome of `get_value` for every feed, window and build: overflow, too few fresh submissions, a value that is not positive or too large, or the fresh median |
| PullFeeds.GetValueMajority | src/on_demand/accounts/pull_feed.rs:373-397 | a minority of the fresh submissions cannot move the value out of the others' range |
| PullFeeds.WiderWindowAddsSamples | src/on_demand/accounts/pull_feed.rs:380-385 | widening the window only adds fresh submissions |
| PullFeeds.WiderWindowKeepsEnough | src/on_demand/accounts/pull_feed.rs:386-388 | a wider window never creates a shortage of samples |
| PullFeeds.WindowAsDocumentedIff | src/on_demand/accounts/pull_feed.rs:363-384 | when the documented window is honoured for all feeds, exactly, in both builds; `valid_samples` uses the same chain |
| PullFeeds.EarlyWindowMisses | src/on_demand/accounts/pull_feed.rs:380-385 | a feed whose submissions are all from slot 1: every too-long window drops them entirely, or panics |
| PullFeeds.ValidSamplesExact | src/on_demand/accounts/pull_feed.rs:400-406 | `valid_samples` yields each fresh submission once, in the order of the array; only overflow fails |
| PullFeeds.ValueNeedsValidSamples | src/on_demand/accounts/pull_feed.rs:373-406 | with the feed's own window `get_value` lacks samples exactly when `valid_samples` yields too few, and its value is their median |
| PullFeeds.MaxLanded | src/on_demand/accounts/pull_feed.rs:433-439 | the maximum is attained and not exceeded by any entry, empty ones included |
| PullFeeds.LastUpdateSlot | src/on_demand/accounts/pull_feed.rs:433-439 | `last_update_slot` is a slot at which some entry landed and after which none did |
| PullFeeds.CurrentSamplesExact | src/on_demand/accounts/pull_feed.rs:409-419 | the samples of the current result are the fresh submissions as of that slot, each once, with their indices in order |
| PullFeeds.TsRangeExact | src/on_demand/accounts/pull_feed.rs:409-430 | the reported range is the exact span of the timestamps of the submissions fresh as of the last update slot, (0, 0) when there are none; only overflow fails |
| Checksums.GenerateChecksumInner | src/on_demand/accounts/pull_feed.rs:323-339 | the digest is of the six fields in order |
| Checksums.GenerateChecksumWithTimestamp | src/on_demand/accounts/pull_feed.rs:343-361 | the digest is of the same bytes followed by the timestamp |
| Checksums.PreimageSections | src/on_demand/accounts/pull_feed.rs:331-337 | where each field lies in the 124 bytes |
| Checksums.TimestampedSections | src/on_demand/accounts/pull_feed.rs:352-359 | the same, with the timestamp in the last 8 of 132 bytes |
| Checksums.PreimageInjective | src/on_demand/accounts/pull_feed.rs:331-337 | equal preimages come from equal fields |
| Checksums.TimestampedInjective | src/on_demand/accounts/pull_feed.rs:352-359 | the timestamped form determines its fields and is never a plain preimage |
| Decimals.ScaleDownTruncates | src/decimal.rs:93-96 | dropping up to 38 places truncates toward zero with an error under one unit, in both builds |
| Decimals.ScaleDownExactIff | src/decimal.rs:93-96 | in either build a reduction truncates correctly for all mantissas exactly when at most 38 places are dropped |
| Decimals.ScaleDownExactAt | src/decimal.rs:93-96 | the same for each single decimal: beyond 38 places exactly for mantissas below the wrapped power, in an unchecked build |
| Decimals.ScaleUpExact | src/decimal.rs:97-100 | in a checked build enlarging succeeds exactly when power and product fit i128, and is then exact |
| Decimals.ScaleUpExactIff | src/decimal.rs:97-100 | in either build, exactly when an enlargement yields the mantissa times the power |
| Decimals.UncheckedEnlargement | src/decimal.rs:97-100 | an unchecked build multiplies by the wrapped power and fails where the product does not fit |
| Decimals.RescaledValue | src/decimal.rs:105-111 | `new_with_scale` carries the new scale, fails exactly where `scale_to` does, and enlarging by up to 38 places keeps the number |
| Decimals.ScaleUpDownIdentity | src/decimal.rs:105-111 | scaling up and back is the identity wherever both succeed; the way back fails exactly when an unchecked build wraps the power to 0 |
| Decimals.ScaleDownTwice | src/decimal.rs:105-111 | two reductions by at most 38 places in all equal one direct reduction, negative mantissas included |
| Decimals.RoutesAgreeIff | src/decimal.rs:105-111 | for any three scales and both builds, exactly when two reductions are one direct reduction on all mantissas, failures included; for steps of at most 38 places each, exactly up to 38 in all |
| Decimals.ScaleToMonotone | src/decimal.rs:91-103 | rescaling keeps the order of mantissas wherever the factor is not negative, in both builds |
| Decimals.KeepsOrderIff | src/decimal.rs:91-103 | order is kept for all mantissas exactly when the build is checked, at most 38 places separate the scales, or the wrapped power is not negative |
| Decimals.NegativeFactorReverses | src/decimal.rs:93-100 | for every negative wrapped power, two mantissas whose order is reversed |
| Decimals.ThirtyNinePlacesReverse | src/decimal.rs:97-100 | a concrete case at 39 places |
| Decimals.CmpIsAlignedCompare | src/decimal.rs:134-140 | where alignment does not overflow, `cmp` compares the mantissas at the larger scale |
| Decimals.CmpTransitive | src/decimal.rs:134-140 | `cmp` is transitive, strictly when one step is strict |
| Decimals.CmpAntisymmetric | src/decimal.rs:134-140 | swapping the sides flips the result, and both panic together |
| Decimals.OrderIsByValue | src/decimal.rs:134-166 | `cmp`, `lt`, `le`, `gt`, `ge` order decimals by mantissa / 10^scale as a real number |
| Decimals.OrderDefinedIff | src/decimal.rs:125-166 | `cmp` and the four operators panic exactly when one side has a scale above 28 or a mantissa beyond 96 bits |
| Decimals.CmpEqualIsEqIff | src/decimal.rs:68-140 | the derived equality agrees with `cmp` on two scales exactly when they are the same |
| TransactionBuilders.TransactionBuilder.constructor | src/client/transaction_builder.rs:187-192 | an empty builder for a payer key |
| TransactionBuilders.TransactionBuilder.WithIxs | src/client/transaction_builder.rs:201-207 | a builder with instructions and no stored signer |
| TransactionBuilders.TransactionBuilder.WithPayerAndIxs | src/client/transaction_builder.rs:208-218 | a builder storing the payer as its one signer; `new_with_payer` is the case without instructions |
| TransactionBuilders.TransactionBuilder.SetComputeUnits | src/client/transaction_builder.rs:221-224 | sets the compute-unit request and nothing else |
| TransactionBuilders.TransactionBuilder.SetPriorityFees | src/client/transaction_builder.rs:225-228 | sets the priority fee and nothing else |
| TransactionBuilders.TransactionBuilder.AddInstruction | src/client/transaction_builder.rs:229-232 | one step of a run: the instruction is appended |
| TransactionBuilders.TransactionBuilder.StoreSigner | src/client/transaction_builder.rs:242-253 | one step of a run: the signer is stored unless its key is |
| TransactionBuilders.TransactionBuilder.StoreSigners | src/client/transaction_builder.rs:254-267 | the loop stores the list one by one |
| TransactionBuilders.TransactionBuilder.RequiredSigners | src/client/transaction_builder.rs:329-339 | the nested loops list every key that signs somewhere, once, ordered by instruction and account of its first signing |
| TransactionBuilders.TransactionBuilder.CollectSigners | src/client/transaction_builder.rs:332-336 | the inner loop adds the unseen signing keys of one instruction, in order |
| TransactionBuilders.TransactionBuilder.Signers | src/client/transaction_builder.rs:342-361 | succeeds exactly when every signing key is stored; returns, in that order, the first stored signer for each |
| TransactionBuilders.TransactionBuilder.SignersWithPayer | src/client/transaction_builder.rs:362-395 | the same with the payer's signer supplied by the caller, who answers for the payer's key; another key is a mismatch |
| TransactionBuilders.TransactionBuilder.Ixs | src/client/transaction_builder.rs:396-422 | budget instructions first, then the caller's, 1 to 10 in all; both errors exactly |
| TransactionBuilders.BudgetExact | src/client/transaction_builder.rs:403-413 | presence, order and exact value of the two budget instructions: a request is moved to the nearest allowed value, and the price leads exactly when fees are set and units are not |
| TransactionBuilders.FirstOccurrencesExact | src/client/transaction_builder.rs:329-339 | the required keys are duplicate-free, are exactly the signing keys, and stand in order of first appearance |
| TransactionBuilders.SigningKeysExact | src/client/transaction_builder.rs:331-335 | a key must sign exactly when some instruction lists it as a signing account |
| TransactionBuilders.RequiredListsSigners | src/client/transaction_builder.rs:329-339 | the required keys are the signing keys, each once, ordered by the (instruction, account) position where they first sign |
| TransactionBuilders.ResolveExact | src/client/transaction_builder.rs:342-361 | resolution succeeds exactly when every required key is stored, and returns stored signers with exactly those keys in that order |
| TransactionBuilders.RunDistinct | src/client/transaction_builder.rs:242-267 | stored keys stay pairwise distinct along every run |
| TransactionBuilders.RunStoresOffered | src/client/transaction_builder.rs:229-267 | the store depends on the signers offered in order, not on how the calls group them |
| TransactionBuilders.RunAddsIxs | src/client/transaction_builder.rs:229-232 | a run appends the instructions it adds, in order, and keeps the payer |
| TransactionBuilders.RunAppend | src/client/transaction_builder.rs:221-267 | a run is its parts in order |
| TransactionBuilders.StoreAllKeepsFirst | src/client/transaction_builder.rs:242-267 | for each key the first signer offered is kept |
| TransactionBuilders.RunResolves | src/client/transaction_builder.rs:342-361 | after any run, `signers` succeeds exactly when every signing key was stored or offered, and returns the first signer offered for each, ordered by where the keys first sign |
| TransactionBuilders.RunResolvesWithPayer | src/client/transaction_builder.rs:362-395 | the same for `signers_with_payer`: a mismatch for another key; otherwise success exactly when every other signing key was stored or offered, with the supplied signer for the payer |
| TransactionBuilders.PayerSuppliedExact | src/client/transaction_builder.rs:362-395 | with the payer supplied exactly the other required keys must be stored; the payer's signer stands at the payer's place and a stored one elsewhere |
| TransactionBuilders.PayerSuppliedOrStored | src/client/transaction_builder.rs:362-395 | supplying the payer agrees with storing it |
| GuardianQuotes.Serialize | src/on_demand/instructions/guardian_quote_verify.rs:35-46 | the bytes appended to the writer, also when the list is too long to encode |
| GuardianQuotes.InstructionBytes | src/anchor_traits.rs:42-46 | the discriminator followed by the encoding, or a panic |
| GuardianQuotes.DataSections | src/on_demand/instructions/guardian_quote_verify.rs:34-47 | the place of every field behind the discriminator |
| GuardianQuotes.AdvisoryAt | src/on_demand/instructions/guardian_quote_verify.rs:45 | advisory i stands at byte 225 + 4 i |
| GuardianQuotes.DataDefinedIff | src/anchor_traits.rs:42-46 | only a list too long for its count panics |
| GuardianQuotes.DataRoundTrip | src/on_demand/instructions/guardian_quote_verify.rs:34-47 | decoding the data gives back every field for any encodable advisory list, and leaves what follows |
| GuardianQuotes.DataPrefixFree | src/anchor_traits.rs:40-47 | no instruction's data is a prefix of another's |
| GuardianQuotes.DecodeCanonical | src/on_demand/instructions/guardian_quote_verify.rs:34-47 | whatever decodes is the encoding of what it decodes to |

## Left out

- Cryptography: Ed25519, SHA-256 and address derivation; the model says which bytes are compared or hashed. The
  digest is a parameter.
- Layout-compatible casts: pointer alignment, `transmute` and lifetimes. The slot-hash sysvar is a typed table of
  exactly 512 entries, and a slice over it is never longer.
- Account aliasing: the instructions and slot-hash sysvars are values during a call; only the queue and the oracle
  account are mutable objects. The source passed to a write is a value, so it cannot overlap the destination.
- Ed25519Sysvar.ParseInstruction: the bytes a parsed signature's pointers designate are stored instead of the
  pointers, so later changes to the buffer are not seen.
- Medians.LowerBoundMedian: the standard library's sort is replaced by a sorted copy written back in place; equal
  integers are indistinguishable, so stability does not matter.
- Decimals.CmpIsAlignedCompare: `rust_decimal` is not part of this model; it is taken to compare exactly, within a
  scale of 28 and a 96-bit mantissa. Rounding, normalisation and conversion from floating point are left out.
- SlotHashTable.FindIdxExact: the standard library's binary search is modelled by its halving algorithm.
- TransactionBuilders.TransactionBuilder.StoreSigner: the builder methods consume and return the builder; here they
  update it in place. Blockhash, context slot and lookup tables are left out, as no modelled method reads them.
- Transaction compilation and signing, RPC, environment lookups, account-meta lists and program-id selection.
- Single-field getters and the parsers of the other account types, which one library call settles.
