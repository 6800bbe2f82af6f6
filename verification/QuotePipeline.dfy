/** Properties that span extraction, storing, loading and verification. */
module QuotePipeline {
  import opened Machine
  import opened Keys
  import opened LittleEndian
  import opened QuoteLayout
  import opened InstructionsSysvar
  import opened Ed25519Sysvar
  import opened SlotHashTable
  import opened OracleQuotes
  import opened AccountRuns
  import opened QuoteVerifiers

  /** `verify_account` on an account with these bytes. */
  function VerifyStored(checked: bool, s: Settings, account: seq<byte>): Outcome<OracleQuote> {
    VerifyRecord(checked, s, LoadAccount(account))
  }

  /** `verify_instruction_at` on this sysvar. */
  function VerifyAt(checked: bool, s: Settings, sysvar: Account, idx: nat): Outcome<OracleQuote> {
    VerifyRecord(checked, s, Extract(sysvar, idx))
  }

  /** Refinement: verifying a stored record is verifying the source that was written. */
  lemma StoredVerifiesAsSource(checked: bool, s: Settings, step: WriteStep, account: seq<byte>)
    requires Succeeds(account, step) && |step.source| < TWO_16
    ensures VerifyStored(checked, s, Commit(account, step)) == Verify(checked, s, step.source)
  {
    StoreLoadIff(step.source, account);
  }

  /** Writing from an instruction and verifying the account gives the verdict on the instruction itself; no size
      premise is needed, since instruction data is at most 65535 bytes. */
  lemma WriteFromIxThenVerify(
    checked: bool, s: Settings, sysvar: Account, account: seq<byte>, currSlot: u64, idx: nat)
    requires WriteFromIxOutcome(sysvar, account, currSlot, idx).Ok?
    ensures VerifyStored(checked, s, Written(Extract(sysvar, idx).value, account)) == VerifyAt(checked, s, sysvar, idx)
  {
    ExtractedNames(sysvar, idx);
    StoreLoadIff(Extract(sysvar, idx).value, account);
  }

  /** The slot that writes keep in order is the one verification reports: along a run of exact-fit writes, once
      one has landed, later verifications never report an earlier slot, whatever settings they use. */
  lemma VerifiedSlotsInOrder(
    account: seq<byte>, steps: seq<WriteStep>, m: nat, i: nat, j: nat,
    checked: bool, s: Settings, s': Settings)
    requires ExactFit(account, steps) && m < i <= j <= |steps| && Lands(account, steps, m)
    requires VerifyStored(checked, s, After(account, steps, i)).Ok?
    requires VerifyStored(checked, s', After(account, steps, j)).Ok?
    ensures VerifyStored(checked, s, After(account, steps, i)).value.recentSlot
         <= VerifyStored(checked, s', After(account, steps, j)).value.recentSlot
  {
    StoredIsTail(account, steps, m, i);
    StoredIsTail(account, steps, m, j);
    TailNeverDecreases(account, steps, i, j);
    VerifySound(checked, s, LoadAccount(After(account, steps, i)).value);
    VerifySound(checked, s', LoadAccount(After(account, steps, j)).value);
  }

  /** A verified quote was signed, with every index field naming the instruction it came from, by queue keys over
      one message that carries the sysvar's hash for the reported slot. */
  lemma VerifiedInstructionIsBound(checked: bool, s: Settings, sysvar: Account, idx: nat, i: nat)
    requires VerifyAt(checked, s, sysvar, idx).Ok?
    requires i < VerifyAt(checked, s, sysvar, idx).value.oracleCount
    ensures sysvar.key == INSTRUCTIONS_SYSVAR_ID && Extract(sysvar, idx).Ok?
    ensures var data, r := Extract(sysvar, idx).value, VerifyAt(checked, s, sysvar, idx).value;
            && Parse(data).Ok? && RecordOffset(i) + OFFSETS_SIZE <= |data| && RecordNames(data, i, idx)
            && var q := Parse(data).value;
            && KeyMatches(s.queue.value, q, i)
            && q.signatures[i].message == q.signatures[0].message && q.signatures[i].header == r.header
            && TableHolds(s.slotHashes.value.entries, r.recentSlot, r.header)
            && 0 <= s.clockSlot.value - r.recentSlot <= s.maxAge
  {
    var data := Extract(sysvar, idx).value;
    ExtractExact(sysvar, idx);
    VerifySound(checked, s, data);
    CheckExact(data);
    SplitIndexCheckComposes(sysvar, idx, i);
    ParsedShareMessage(data, i);
  }

  /** The facts about the chain that a signed quote needs. */
  ghost predicate SignedFor(s: Settings, q: Quote) {
    && s.queue.Some? && |s.queue.value| == QUEUE_SIZE
    && s.slotHashes.Some? && s.slotHashes.value.key == SLOT_HASHES_SYSVAR_ID
    && s.clockSlot.Some? && 0 <= s.clockSlot.value - q.slot <= s.maxAge
    && TableHolds(s.slotHashes.value.entries, q.slot, q.header)
    && forall i :: 0 <= i < |q.signers| ==>
                     q.signers[i].pubkey == QueueKey(s.queue.value, q.signers[i].oracleIdx % QUEUE_KEYS)
  }

  lemma ExpectedAuthentic(s: Settings, q: Quote)
    requires WellFormed(q)
    ensures AuthenticQuote(s, Expected(q)) <==> SignedFor(s, q)
  {
    var e := Expected(q);
    if s.queue.Some? && |s.queue.value| == QUEUE_SIZE {
      var queue := s.queue.value;
      forall i | 0 <= i < |q.signers|
        ensures KeyMatches(queue, e, i)
           <==> q.signers[i].pubkey == QueueKey(queue, q.signers[i].oracleIdx % QUEUE_KEYS)
      {
      }
    }
  }

  /** The search reaches the table's entry for the quote. */
  ghost predicate Reached(s: Settings, q: Quote) {
    s.slotHashes.Some? && HashReached(s.slotHashes.value.entries, q.slot, q.header)
  }

  /** A quote's own contents, as verification reports them. */
  function Reported(q: Quote): OracleQuote
    requires WellFormed(q)
  {
    OracleQuote(q.header, |q.signers|, q.feeds, |q.feeds|, OracleIdxs(q), q.slot, q.version, Some(Encode(q)))
  }

  /** Completeness over the whole path: any well-formed quote, placed as instruction `k` of any transaction, is
      verified exactly when the chain state matches it and the guessed search reaches its slot, and then yields the
      quote's own contents. With an age limit below 512 every matching chain state is reached. */
  lemma EncodedQuoteVerifies(checked: bool, s: Settings, q: Quote, list: seq<Instruction>, current: u16)
    requires WellFormed(q) && Fits(list) && q.ixIndex < |list| && Ordered(s)
    requires list[q.ixIndex] == Instruction(list[q.ixIndex].accounts, ED25519_PROGRAM_ID, Encode(q))
    ensures var r := VerifyAt(checked, s, Account(INSTRUCTIONS_SYSVAR_ID, Serialize(list, current)), q.ixIndex);
            && (r.Ok? <==> SignedFor(s, q) && Reached(s, q))
            && (Covered(s) ==> (r.Ok? <==> SignedFor(s, q)))
            && (r.Ok? ==> r.value == Reported(q))
  {
    ExtractSerialized(list, current, q.ixIndex);
    EncodedNames(q);
    VerifyEncoded(checked, s, q);
    if Covered(s) && SignedFor(s, q) {
      FreshSlotReached(s, q.slot, q.header);
    }
  }

  lemma EncodedNames(q: Quote)
    requires WellFormed(q)
    ensures |Encode(q)| >= MIN_ED25519_SIZE && FirstRecordNames(Encode(q), q.ixIndex)
  {
  }

  lemma VerifyEncoded(checked: bool, s: Settings, q: Quote)
    requires WellFormed(q) && Ordered(s)
    ensures var r := Verify(checked, s, Encode(q));
            && (r.Ok? <==> SignedFor(s, q) && Reached(s, q))
            && (r.Ok? ==> r.value == Reported(q))
  {
    ParseEncode(q);
    ExpectedAuthentic(s, q);
    VerifyExact(checked, s, Encode(q));
    if Verify(checked, s, Encode(q)).Ok? {
      VerifySound(checked, s, Encode(q));
    }
  }

  // ---- the premises can be met ----

  /** A queue account with the given signing keys. */
  function QueueOf(keys: seq<Bytes32>): (b: seq<byte>)
    requires |keys| == QUEUE_KEYS
    ensures |b| == QUEUE_SIZE
  {
    FlattenLength(keys, 32);
    Zeros(QUEUE_KEYS_OFFSET) + Flatten(keys) + Zeros(QUEUE_SIZE - QUEUE_KEYS_OFFSET - 32 * QUEUE_KEYS)
  }

  /** Key `j` is read back from its place in the account. */
  lemma QueueKeyBack(keys: seq<Bytes32>, j: nat)
    requires |keys| == QUEUE_KEYS && j < QUEUE_KEYS
    ensures QueueKey(QueueOf(keys), j) == keys[j]
  {
    var b, at := QueueOf(keys), QUEUE_KEYS_OFFSET;
    FlattenLength(keys, 32);
    assert b[at..at + 32 * QUEUE_KEYS] == Flatten(keys);
    RecordAt(b, at, at + 32 * QUEUE_KEYS, keys, 32, j, j * 32);
  }

  /** The 512 slots up to `newest`, all with one hash. */
  function FullTable(newest: u64, hash: Bytes32): (t: Table)
    requires newest >= TABLE_LEN - 1
    ensures Descending(t) && forall i :: 0 <= i < TABLE_LEN ==> t[i] == SlotHash(newest - i, hash)
  {
    seq(TABLE_LEN, i requires 0 <= i < TABLE_LEN => SlotHash(newest - i, hash))
  }

  /** The newest slot of a full table that holds `slot`. */
  function NewestFor(slot: u64): u64 {
    if slot < TABLE_LEN - 1 then TABLE_LEN - 1 else slot
  }

  /** A chain state whose queue, table and clock match a quote; the age limit is 0 from slot 511 on. */
  function MatchingSettings(q: Quote, keys: seq<Bytes32>): Settings
    requires |keys| == QUEUE_KEYS
  {
    var newest := NewestFor(q.slot);
    Settings(Some(QueueOf(keys)), Some(SlotHashesAccount(SLOT_HASHES_SYSVAR_ID, FullTable(newest, q.header))),
             Some(newest), newest - q.slot)
  }

  /** The signers of a quote hold the queue's keys their oracle indices name. */
  ghost predicate SignedWith(q: Quote, keys: seq<Bytes32>)
    requires |keys| == QUEUE_KEYS
  {
    forall i :: 0 <= i < |q.signers| ==> q.signers[i].pubkey == keys[q.signers[i].oracleIdx % QUEUE_KEYS]
  }

  lemma QueueKeysMatch(q: Quote, keys: seq<Bytes32>)
    requires |keys| == QUEUE_KEYS && SignedWith(q, keys)
    ensures forall i :: 0 <= i < |q.signers| ==>
                          q.signers[i].pubkey == QueueKey(QueueOf(keys), q.signers[i].oracleIdx % QUEUE_KEYS)
  {
    forall i | 0 <= i < |q.signers|
      ensures q.signers[i].pubkey == QueueKey(QueueOf(keys), q.signers[i].oracleIdx % QUEUE_KEYS)
    {
      QueueKeyBack(keys, q.signers[i].oracleIdx % QUEUE_KEYS);
    }
  }

  /** Every well-formed quote signed with the keys of some queue is accepted by some chain state. */
  lemma MatchingChainAccepts(checked: bool, q: Quote, keys: seq<Bytes32>)
    requires WellFormed(q) && |keys| == QUEUE_KEYS && SignedWith(q, keys)
    ensures Covered(MatchingSettings(q, keys)) && Verify(checked, MatchingSettings(q, keys), Encode(q)).Ok?
  {
    var s, t := MatchingSettings(q, keys), FullTable(NewestFor(q.slot), q.header);
    QueueKeysMatch(q, keys);
    assert t[NewestFor(q.slot) - q.slot] == SlotHash(q.slot, q.header);
    assert TableHolds(t, q.slot, q.header);
    assert SignedFor(s, q);
    FreshSlotReached(s, q.slot, q.header);
    VerifyEncoded(checked, s, q);
  }

  // ---- which age limits are complete? ----

  /** The sysvar and clock as the runtime supplies them. */
  ghost predicate Supplied(s: Settings) {
    && (s.slotHashes.Some? ==> Descending(s.slotHashes.value.entries))
    && (s.slotHashes.Some? && s.clockSlot.Some? ==> s.slotHashes.value.entries[0].slot <= s.clockSlot.value)
  }

  /** With this age limit `verify` accepts all authentic data, whatever the runtime supplies. */
  ghost predicate CompleteAtAge(checked: bool, maxAge: u64) {
    forall s: Settings, data: seq<byte> ::
      s.maxAge == maxAge && Supplied(s) && Authentic(s, data) ==> Verify(checked, s, data).Ok?
  }

  /** The age limits that lose no authentic quote are exactly those below the table length. */
  lemma CompleteAtAgeIff(checked: bool, maxAge: u64)
    ensures CompleteAtAge(checked, maxAge) <==> maxAge < 512
  {
    if maxAge < TABLE_LEN {
      forall s: Settings, data: seq<byte> | s.maxAge == maxAge && Supplied(s) && Authentic(s, data)
        ensures Verify(checked, s, data).Ok?
      {
        CoveredVerifyExact(checked, s, data);
      }
    } else {
      GapLosesQuote(checked, maxAge);
    }
  }

  /** A quote whose keys, signatures, hash and feeds are all zeros. */
  function PlainQuote(signers: nat, feeds: nat, slot: u64): (q: Quote)
    requires 1 <= signers <= MAX_SIGNATURES && feeds <= MAX_FEEDS
    ensures WellFormed(q) && q.slot == slot
  {
    Quote(seq(signers, _ => Signer(Zeros(32), Zeros(64), 0)), Zeros(32), seq(feeds, _ => FeedInfo(Zeros(32), 0, 0)),
          slot, 0, 0, Zeros(4), 0)
  }

  /** At slot 0, with one signer and no feeds. */
  function SlotZeroQuote(): (q: Quote)
    ensures WellFormed(q) && q.slot == 0
  {
    PlainQuote(1, 0, 0)
  }

  function ZeroKeys(): (keys: seq<Bytes32>)
    ensures |keys| == QUEUE_KEYS && forall i :: 0 <= i < QUEUE_KEYS ==> keys[i] == Zeros(32)
  {
    seq(QUEUE_KEYS, _ => Zeros(32))
  }

  /** The newest slot is 512 and the oldest entry is slot 0: the guess for slot 0 is index 0. */
  function GapSettings(maxAge: u64): Settings {
    Settings(Some(QueueOf(ZeroKeys())), Some(SlotHashesAccount(SLOT_HASHES_SYSVAR_ID, GapTable(TABLE_LEN))),
             Some(TABLE_LEN), maxAge)
  }

  /** An authentic quote that an age limit of 512 or more admits and the search misses. */
  lemma GapLosesQuote(checked: bool, maxAge: u64)
    requires maxAge >= TABLE_LEN
    ensures Supplied(GapSettings(maxAge)) && Authentic(GapSettings(maxAge), Encode(SlotZeroQuote()))
    ensures !Verify(checked, GapSettings(maxAge), Encode(SlotZeroQuote())).Ok?
  {
    var s, q := GapSettings(maxAge), SlotZeroQuote();
    GapHolds(maxAge);
    ParseEncode(q);
    ExpectedAuthentic(s, q);
    VerifyParts(checked, s, Encode(q));
    GapUnreachable(checked);
  }

  lemma GapHolds(maxAge: u64)
    requires maxAge >= TABLE_LEN
    ensures SignedFor(GapSettings(maxAge), SlotZeroQuote())
  {
    assert GapTable(TABLE_LEN)[TABLE_LEN - 1].hash == Zeros(32);
    assert TableHolds(GapTable(TABLE_LEN), 0, Zeros(32)) by {
      assert GapTable(TABLE_LEN)[TABLE_LEN - 1] == SlotHash(0, Zeros(32));
    }
    QueueKeysMatch(SlotZeroQuote(), ZeroKeys());
  }

  lemma GapUnreachable(checked: bool)
    ensures !FindSlothash(checked, 0, SlotHashesAccount(SLOT_HASHES_SYSVAR_ID, GapTable(TABLE_LEN))).Ok?
  {
    FindSlothashExact(checked, 0, SlotHashesAccount(SLOT_HASHES_SYSVAR_ID, GapTable(TABLE_LEN)));
  }

  // ---- plain quotes ----

  /** A chain whose table holds the slots 0 to 511, with an age limit that admits them all. */
  function EarlyChain(): Settings {
    Settings(Some(QueueOf(ZeroKeys())),
             Some(SlotHashesAccount(SLOT_HASHES_SYSVAR_ID, FullTable(TABLE_LEN - 1, Zeros(32)))),
             Some(TABLE_LEN - 1), TABLE_LEN - 1)
  }

  /** That chain accepts every plain quote at these slots. */
  lemma PlainQuoteAccepted(checked: bool, signers: nat, feeds: nat, slot: u64)
    requires 1 <= signers <= MAX_SIGNATURES && feeds <= MAX_FEEDS && slot < TABLE_LEN
    ensures Verify(checked, EarlyChain(), Encode(PlainQuote(signers, feeds, slot)))
         == Ok(Reported(PlainQuote(signers, feeds, slot)))
  {
    var s, q, t := EarlyChain(), PlainQuote(signers, feeds, slot), FullTable(TABLE_LEN - 1, Zeros(32));
    QueueKeysMatch(q, ZeroKeys());
    assert t[TABLE_LEN - 1 - slot] == SlotHash(slot, Zeros(32));
    assert TableHolds(t, slot, Zeros(32));
    FreshSlotReached(s, slot, Zeros(32));
    VerifyEncoded(checked, s, q);
  }

  /** The oracle count does not count oracles: up to eight signatures of one key, all under index 0, are accepted
      and each is counted. */
  lemma OneOracleCountedOften(checked: bool, n: nat, feeds: nat, slot: u64)
    requires 1 <= n <= MAX_SIGNATURES && feeds <= MAX_FEEDS && slot < TABLE_LEN
    ensures var q := PlainQuote(n, feeds, slot);
            && (forall i :: 0 <= i < n ==> q.signers[i] == q.signers[0])
            && Verify(checked, EarlyChain(), Encode(q)) == Ok(Reported(q)) && Reported(q).oracleCount == n
  {
    PlainQuoteAccepted(checked, n, feeds, slot);
  }

  /** Quotes whose closing tag is not "SBOD" are accepted. */
  lemma WrongTagAccepted(checked: bool, signers: nat, feeds: nat, slot: u64)
    requires 1 <= signers <= MAX_SIGNATURES && feeds <= MAX_FEEDS && slot < TABLE_LEN
    ensures var data := Encode(PlainQuote(signers, feeds, slot));
            && |data| >= 4 && data[|data| - 4..] == Zeros(4) != TAG
            && Verify(checked, EarlyChain(), data).Ok?
  {
    AnyTagParsed(PlainQuote(signers, feeds, slot));
    PlainQuoteAccepted(checked, signers, feeds, slot);
    assert Zeros(4)[0] != TAG[0];
  }

  // ---- which sizes keep verified slots in order? ----

  /** The length of an encoded quote. */
  function QuoteSize(signers: nat, feeds: nat): (size: nat)
    requires 1 <= signers <= MAX_SIGNATURES && feeds <= MAX_FEEDS
    ensures TRAILER_SIZE <= size < TWO_16
  {
    2 + OFFSETS_SIZE * signers + SIGNER_SIZE * signers + HEADER_SIZE + FEED_SIZE * feeds + signers + TRAILER_SIZE
  }

  /** The encoding ends with the slot, the version and the tag. */
  lemma EncodedTail(q: Quote)
    requires WellFormed(q)
    ensures |Encode(q)| == QuoteSize(|q.signers|, |q.feeds|)
    ensures SlotOf(Encode(q)) == q.slot
    ensures Encode(q)[|Encode(q)| - TRAILER_SIZE..] == U64Bytes(q.slot) + [q.version] + q.tag
  {
    EncodeLaysOut(q);
    ParseEncode(q);
    ParsedFirst(Encode(q));
  }

  lemma PlainZeroBehindLow(q: Quote)
    requires WellFormed(q) && q.slot < 256 && q.version == 0 && q.tag == Zeros(4)
    ensures ZeroBehindLow(Encode(q))
  {
    EncodedTail(q);
    TrailerZeroBehindLow(Encode(q), q.slot);
  }

  lemma TrailerZeroBehindLow(data: seq<byte>, slot: u64)
    requires |data| >= TRAILER_SIZE && slot < 256
    requires data[|data| - TRAILER_SIZE..] == U64Bytes(slot) + [0] + Zeros(4)
    ensures ZeroBehindLow(data)
  {
    var t, tail := |data| - TRAILER_SIZE, U64Bytes(slot) + [0] + Zeros(4);
    assert data[t..|data| - 5] == tail[..8] == U64Bytes(slot);
    forall k | |data| - 5 <= k < |data|
      ensures data[k] == 0
    {
      assert data[k] == data[t..][k - t] == tail[k - t];
    }
    SmallSlotTrailer(data, slot);
  }

  /** A write of a plain quote while the clock is at slot 511. */
  function PlainWrite(signers: nat, feeds: nat, slot: u64): WriteStep
    requires 1 <= signers <= MAX_SIGNATURES && feeds <= MAX_FEEDS
  {
    WriteStep(TABLE_LEN - 1, Encode(PlainQuote(signers, feeds, slot)))
  }

  /** With a spare byte in the account, a verifiable quote is replaced by an older one, and one chain state verifies
      the account both times. */
  lemma LooseQuotesRegress(checked: bool, n: nat, signers: nat, feeds: nat, high: u64, low: u64)
    requires 1 <= signers <= MAX_SIGNATURES && feeds <= MAX_FEEDS
    requires QuoteSize(signers, feeds) + PREFIX_SIZE < n && low < high < 256
    ensures var a, b := PlainWrite(signers, feeds, high), PlainWrite(signers, feeds, low);
            && Succeeds(Zeros(n), a) && Succeeds(Commit(Zeros(n), a), b)
            && VerifyStored(checked, EarlyChain(), Commit(Zeros(n), a))
               == Ok(Reported(PlainQuote(signers, feeds, high)))
            && VerifyStored(checked, EarlyChain(), Commit(Commit(Zeros(n), a), b))
               == Ok(Reported(PlainQuote(signers, feeds, low)))
  {
    var a, b := PlainWrite(signers, feeds, high), PlainWrite(signers, feeds, low);
    PlainWriteFacts(signers, feeds, high);
    PlainWriteFacts(signers, feeds, low);
    LooseRecordRegresses(n, a, b);
    PlainWriteVerified(checked, signers, feeds, high, Zeros(n));
    PlainWriteVerified(checked, signers, feeds, low, Commit(Zeros(n), a));
  }

  lemma PlainWriteFacts(signers: nat, feeds: nat, slot: u64)
    requires 1 <= signers <= MAX_SIGNATURES && feeds <= MAX_FEEDS && slot < 256
    ensures var w := PlainWrite(signers, feeds, slot);
            && |w.source| == QuoteSize(signers, feeds) >= TRAILER_SIZE
            && SlotOf(w.source) == slot < w.clockSlot && ZeroBehindLow(w.source)
  {
    EncodedTail(PlainQuote(signers, feeds, slot));
    PlainZeroBehindLow(PlainQuote(signers, feeds, slot));
  }

  lemma PlainWriteSize(signers: nat, feeds: nat, slot: u64)
    requires 1 <= signers <= MAX_SIGNATURES && feeds <= MAX_FEEDS
    ensures |PlainWrite(signers, feeds, slot).source| == QuoteSize(signers, feeds)
  {
    EncodedTail(PlainQuote(signers, feeds, slot));
  }

  lemma PlainWriteVerified(checked: bool, signers: nat, feeds: nat, slot: u64, account: seq<byte>)
    requires 1 <= signers <= MAX_SIGNATURES && feeds <= MAX_FEEDS && slot < 256
    requires Succeeds(account, PlainWrite(signers, feeds, slot))
    ensures VerifyStored(checked, EarlyChain(), Commit(account, PlainWrite(signers, feeds, slot)))
         == Ok(Reported(PlainQuote(signers, feeds, slot)))
  {
    PlainQuoteAccepted(checked, signers, feeds, slot);
    PlainWriteSize(signers, feeds, slot);
    StoredVerdict(checked, EarlyChain(), PlainWrite(signers, feeds, slot), account,
                  Ok(Reported(PlainQuote(signers, feeds, slot))));
  }

  lemma StoredVerdict(checked: bool, s: Settings, step: WriteStep, account: seq<byte>, verdict: Outcome<OracleQuote>)
    requires Succeeds(account, step) && |step.source| < TWO_16 && Verify(checked, s, step.source) == verdict
    ensures VerifyStored(checked, s, Commit(account, step)) == verdict
  {
    StoredVerifiesAsSource(checked, s, step, account);
  }

  /** Two successive writes of `size` bytes that land in an `n`-byte account and are both verified, under whatever
      settings, report slots in order. */
  ghost predicate VerifiedOrderKept(checked: bool, n: nat, size: nat) {
    forall account: seq<byte>, a: WriteStep, b: WriteStep, s: Settings, s': Settings ::
      && |account| == n && |a.source| == size && |b.source| == size
      && Succeeds(account, a) && Succeeds(Commit(account, a), b)
      && VerifyStored(checked, s, Commit(account, a)).Ok?
      && VerifyStored(checked, s', Commit(Commit(account, a), b)).Ok?
      ==> VerifyStored(checked, s, Commit(account, a)).value.recentSlot
          <= VerifyStored(checked, s', Commit(Commit(account, a), b)).value.recentSlot
  }

  /** Verification adds nothing to the protection: for every size a quote can have, verified slots are kept in order
      exactly when the record fills the account. */
  lemma VerifiedOrderKeptIff(checked: bool, n: nat, signers: nat, feeds: nat)
    requires 1 <= signers <= MAX_SIGNATURES && feeds <= MAX_FEEDS && QuoteSize(signers, feeds) + PREFIX_SIZE <= n
    ensures VerifiedOrderKept(checked, n, QuoteSize(signers, feeds)) <==> QuoteSize(signers, feeds) + PREFIX_SIZE == n
  {
    if QuoteSize(signers, feeds) + PREFIX_SIZE == n {
      ExactFitVerifiedInOrder(checked, n, QuoteSize(signers, feeds));
    } else {
      var high, low: u64 := 1, 0;
      LooseQuotesRegress(checked, n, signers, feeds, high, low);
      PlainWriteFacts(signers, feeds, high);
      PlainWriteFacts(signers, feeds, low);
      OutOfOrder(checked, Zeros(n), PlainWrite(signers, feeds, high), PlainWrite(signers, feeds, low), EarlyChain());
    }
  }

  lemma ExactFitVerifiedInOrder(checked: bool, n: nat, size: nat)
    requires TRAILER_SIZE <= size < TWO_16 && size + PREFIX_SIZE == n
    ensures VerifiedOrderKept(checked, n, size)
  {
    OrderKeptIff(n, size);
    forall account: seq<byte>, a: WriteStep, b: WriteStep, s: Settings, s': Settings |
      && |account| == n && |a.source| == size && |b.source| == size
      && Succeeds(account, a) && Succeeds(Commit(account, a), b)
      && VerifyStored(checked, s, Commit(account, a)).Ok?
      && VerifyStored(checked, s', Commit(Commit(account, a), b)).Ok?
      ensures VerifyStored(checked, s, Commit(account, a)).value.recentSlot
           <= VerifyStored(checked, s', Commit(Commit(account, a), b)).value.recentSlot
    {
      StoredSlotReported(checked, s, a, account);
      StoredSlotReported(checked, s', b, Commit(account, a));
    }
  }

  lemma StoredSlotReported(checked: bool, s: Settings, step: WriteStep, account: seq<byte>)
    requires Succeeds(account, step) && |step.source| < TWO_16
    requires VerifyStored(checked, s, Commit(account, step)).Ok?
    ensures |step.source| >= TRAILER_SIZE
    ensures VerifyStored(checked, s, Commit(account, step)).value.recentSlot == SlotOf(step.source)
  {
    StoredVerifiesAsSource(checked, s, step, account);
    VerifySound(checked, s, step.source);
  }

  lemma OutOfOrder(checked: bool, account: seq<byte>, a: WriteStep, b: WriteStep, s: Settings)
    requires |a.source| == |b.source| && Succeeds(account, a) && Succeeds(Commit(account, a), b)
    requires VerifyStored(checked, s, Commit(account, a)).Ok?
    requires VerifyStored(checked, s, Commit(Commit(account, a), b)).Ok?
    requires VerifyStored(checked, s, Commit(account, a)).value.recentSlot
           > VerifyStored(checked, s, Commit(Commit(account, a), b)).value.recentSlot
    ensures !VerifiedOrderKept(checked, |account|, |a.source|)
  {
  }
}
