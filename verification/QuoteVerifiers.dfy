/** `QuoteVerifier` of src/on_demand/oracle_quote/quote_verifier.rs. */
module QuoteVerifiers {
  import opened Machine
  import opened Keys
  import LittleEndian
  import opened QuoteLayout
  import opened OracleQuotes
  import opened SlotHashTable
  import opened InstructionsSysvar
  import opened Ed25519Sysvar

  const QUEUE_KEYS := 30
  /** Where `ed25519_oracle_signing_keys` starts: after the discriminator, authority, 32 enclave measurements, 78
      oracle keys, 40 reserved bytes and 30 secp256k1 keys of 20 bytes. */
  const QUEUE_KEYS_OFFSET := 8 + 32 + 32 * 32 + 78 * 32 + 40 + 30 * 20
  /** Discriminator and `QueueAccountData`: 1120 bytes follow the signing keys. */
  const QUEUE_SIZE := QUEUE_KEYS_OFFSET + QUEUE_KEYS * 32 + 1120

  /** The size the source spells as a literal. */
  lemma QueueSizeIs6280()
    ensures QUEUE_SIZE == 6280 && QUEUE_KEYS_OFFSET == 4200
  {
  }

  /** Everything `verify` consults besides the quote. */
  datatype Settings = Settings(
    queue: Option<seq<byte>>, slotHashes: Option<SlotHashesAccount>, clockSlot: Option<u64>, maxAge: u64)

  /** Signing key `j` of a queue account. */
  function QueueKey(queue: seq<byte>, j: nat): (k: Bytes32)
    requires |queue| == QUEUE_SIZE && j < QUEUE_KEYS
  {
    queue[QUEUE_KEYS_OFFSET + 32 * j..QUEUE_KEYS_OFFSET + 32 * (j + 1)]
  }

  /** Signature `i` carries the key of the oracle it names. */
  predicate KeyMatches(queue: seq<byte>, q: ParsedQuote, i: nat)
    requires |queue| == QUEUE_SIZE
  {
    && i < |q.signatures| && i < |q.oracleIdxs| && q.signatures[i].Parsed?
    && q.signatures[i].pubkey == QueueKey(queue, q.oracleIdxs[i] % QUEUE_KEYS)
  }

  predicate KeysMatch(queue: seq<byte>, q: ParsedQuote)
    requires |queue| == QUEUE_SIZE
  {
    forall i :: 0 <= i < q.count ==> KeyMatches(queue, q, i)
  }

  function ToOracleQuote(q: ParsedQuote, data: seq<byte>): OracleQuote
    requires |q.signatures| > 0 && q.signatures[0].Parsed? && |q.signatures[0].feeds| <= MAX_FEEDS
  {
    OracleQuote(q.signatures[0].header, q.count, q.signatures[0].feeds, |q.signatures[0].feeds|,
                q.oracleIdxs, q.slot, q.version, Some(data))
  }

  /** The checks after parsing, in the source's order. */
  function CheckParsed(checked: bool, s: Settings, q: ParsedQuote): Outcome<()>
    requires |q.signatures| > 0 && q.signatures[0].Parsed?
  {
    if s.queue.None? then Bail(QueueNotSet)
    else if s.slotHashes.None? then Bail(SlotHashesNotSet)
    else if s.clockSlot.None? then Bail(ClockNotSet)
    else if s.clockSlot.value < q.slot || s.clockSlot.value - q.slot > s.maxAge then Bail(QuoteTooOld)
    else if |s.queue.value| < QUEUE_SIZE then Bail(QueueTooSmall)
    else if |s.queue.value| > QUEUE_SIZE then Bail(QueueNotDeserializable)
    else
      var hash :- FindSlothash(checked, q.slot, s.slotHashes.value);
      if hash != q.signatures[0].header then Panic(SlotHashMismatch)
      else if !KeysMatch(s.queue.value, q) then Panic(OracleKeyMismatch)
      else Ok(())
  }

  function Verify(checked: bool, s: Settings, data: seq<byte>): Outcome<OracleQuote> {
    var q :- Parse(data);
    ParsedFirst(data);
    var _ :- CheckParsed(checked, s, q);
    Ok(ToOracleQuote(q, data))
  }

  /** Shape of every parsed quote. */
  lemma ParsedFirst(data: seq<byte>)
    requires Parse(data).Ok?
    ensures var q := Parse(data).value;
            && |q.signatures| == MAX_SIGNATURES && 1 <= q.count <= MAX_SIGNATURES
            && |q.oracleIdxs| == q.count
            && |data| >= TRAILER_SIZE && q.slot == SlotOf(data)
            && q.signatures[0].Parsed? && |q.signatures[0].feeds| <= MAX_FEEDS
            && forall i :: 0 <= i < q.count ==> q.signatures[i].Parsed?
  {
    CheckExact(data);
    ParsedShareMessage(data, 0);
    forall i | 0 <= i < data[0]
      ensures Parse(data).value.signatures[i].Parsed?
    {
      ParsedShareMessage(data, i);
    }
  }

  class QuoteVerifier {
    var queueAccount: Option<AccountInfo>
    var slotHashesAccount: Option<SlotHashesAccount>
    var ixSysvarAccount: Option<Account>
    var clock: Option<u64>
    var age: u64

    constructor ()
      ensures queueAccount == None && slotHashesAccount == None && ixSysvarAccount == None && clock == None && age == 0
    {
      queueAccount, slotHashesAccount, ixSysvarAccount, clock, age := None, None, None, None, 0;
    }

    /** The settings as `verify` sees them now: the queue's bytes are read at the time of the call. */
    ghost function Current(): (s: Settings)
      reads this, if queueAccount.Some? then {queueAccount.value.data} else {}
      ensures s.queue == if queueAccount.Some? then Some(queueAccount.value.data[..]) else None
      ensures s.slotHashes == slotHashesAccount && s.clockSlot == clock && s.maxAge == age
    {
      Settings(
        if queueAccount.Some? then Some(queueAccount.value.data[..]) else None, slotHashesAccount, clock, age)
    }

    method Queue(account: AccountInfo) returns (self: QuoteVerifier)
      modifies this
      ensures self == this
      ensures queueAccount == Some(account)
      ensures slotHashesAccount == old(slotHashesAccount) && ixSysvarAccount == old(ixSysvarAccount)
      ensures clock == old(clock) && age == old(age)
    {
      queueAccount := Some(account);
      self := this;
    }

    method SlothashSysvar(sysvar: SlotHashesAccount) returns (self: QuoteVerifier)
      modifies this
      ensures self == this
      ensures slotHashesAccount == Some(sysvar)
      ensures queueAccount == old(queueAccount) && ixSysvarAccount == old(ixSysvarAccount)
      ensures clock == old(clock) && age == old(age)
    {
      slotHashesAccount := Some(sysvar);
      self := this;
    }

    method IxSysvar(sysvar: Account) returns (self: QuoteVerifier)
      modifies this
      ensures self == this
      ensures ixSysvarAccount == Some(sysvar)
      ensures queueAccount == old(queueAccount) && slotHashesAccount == old(slotHashesAccount)
      ensures clock == old(clock) && age == old(age)
    {
      ixSysvarAccount := Some(sysvar);
      self := this;
    }

    method ClockSlot(slot: u64) returns (self: QuoteVerifier)
      modifies this
      ensures self == this
      ensures clock == Some(slot)
      ensures queueAccount == old(queueAccount) && slotHashesAccount == old(slotHashesAccount)
      ensures ixSysvarAccount == old(ixSysvarAccount) && age == old(age)
    {
      clock := Some(slot);
      self := this;
    }

    method MaxAge(maxAge: u64) returns (self: QuoteVerifier)
      modifies this
      ensures self == this
      ensures age == maxAge
      ensures queueAccount == old(queueAccount) && slotHashesAccount == old(slotHashesAccount)
      ensures ixSysvarAccount == old(ixSysvarAccount) && clock == old(clock)
    {
      age := maxAge;
      self := this;
    }

    /** What acceptance needs, read off the fields and the accounts they refer to: the quote is fresh, its hash stands
        beside its slot in the sysvar, and every signature has the key its oracle index names in the queue. */
    ghost predicate Accepts(q: ParsedQuote)
      reads this, if queueAccount.Some? then {queueAccount.value.data} else {}
    {
      && queueAccount.Some? && queueAccount.value.data.Length == 6280
      && slotHashesAccount.Some? && slotHashesAccount.value.key == SLOT_HASHES_SYSVAR_ID
      && clock.Some? && 0 <= clock.value - q.slot <= age
      && |q.signatures| > 0 && q.signatures[0].Parsed?
      && TableHolds(slotHashesAccount.value.entries, q.slot, q.signatures[0].header)
      && q.count <= |q.signatures| && q.count <= |q.oracleIdxs|
      && forall i :: 0 <= i < q.count ==>
                       q.signatures[i].Parsed?
                       && q.signatures[i].pubkey == QueueKey(queueAccount.value.data[..], q.oracleIdxs[i] % 30)
    }

    /** The sysvar is in order, and the guessed search finds the quote's hash in it. */
    ghost predicate Reaches(q: ParsedQuote)
      reads this
    {
      && slotHashesAccount.Some? && Descending(slotHashesAccount.value.entries)
      && |q.signatures| > 0 && q.signatures[0].Parsed?
      && HashReached(slotHashesAccount.value.entries, q.slot, q.signatures[0].header)
    }

    method VerifyQuote(checked: bool, data: seq<byte>) returns (r: Outcome<OracleQuote>)
      ensures r == Verify(checked, Current(), data)
      ensures r.Ok? ==> clock.Some? && 0 <= clock.value - r.value.recentSlot <= age
      ensures r.Ok? ==> queueAccount.Some? && queueAccount.value.data.Length == 6280
      ensures r.Ok? ==> slotHashesAccount.Some? && slotHashesAccount.value.key == SLOT_HASHES_SYSVAR_ID
                        && TableHolds(slotHashesAccount.value.entries, r.value.recentSlot, r.value.header)
      ensures r.Ok? ==> Parse(data).Ok? && Accepts(Parse(data).value)
      ensures Parse(data).Ok? && Accepts(Parse(data).value) && Reaches(Parse(data).value) ==> r.Ok?
    {
      if Parse(data).Ok? {
        AcceptsExact(checked, data);
      }
      var parsed := ParseInstruction(data);
      if !parsed.Ok? {
        return parsed.PropagateFailure();
      }
      ParsedFirst(data);
      var q := parsed.value;
      var check := CheckQuote(checked, q);
      if !check.Ok? {
        return check.PropagateFailure();
      }
      r := Ok(ToOracleQuote(q, data));
    }

    /** On parsed data, `Accepts` is authenticity under the settings as they are now. */
    lemma AcceptsExact(checked: bool, data: seq<byte>)
      requires Parse(data).Ok?
      ensures Accepts(Parse(data).value) <==> AuthenticQuote(Current(), Parse(data).value)
      ensures Verify(checked, Current(), data).Ok? ==>
                Accepts(Parse(data).value)
                && Verify(checked, Current(), data).value.recentSlot == Parse(data).value.slot
                && Verify(checked, Current(), data).value.header == Parse(data).value.signatures[0].header
      ensures Accepts(Parse(data).value) && Reaches(Parse(data).value) ==> Verify(checked, Current(), data).Ok?
    {
      ParsedFirst(data);
      AcceptsAuthentic(Parse(data).value);
      if Verify(checked, Current(), data).Ok? {
        VerifySound(checked, Current(), data);
      }
      if Reaches(Parse(data).value) {
        VerifyExact(checked, Current(), data);
      }
    }

    lemma AcceptsAuthentic(q: ParsedQuote)
      requires q.count <= |q.signatures| && q.count <= |q.oracleIdxs|
      ensures Accepts(q) <==> AuthenticQuote(Current(), q)
    {
      if queueAccount.Some? && queueAccount.value.data.Length == QUEUE_SIZE {
        var queue := queueAccount.value.data[..];
        forall i | 0 <= i < q.count
          ensures KeyMatches(queue, q, i) <==>
                    q.signatures[i].Parsed? && q.signatures[i].pubkey == QueueKey(queue, q.oracleIdxs[i] % 30)
        {
        }
      }
    }

    /** The checks after parsing. `sig_count == 0` cannot occur here: the parser rejects it. */
    method CheckQuote(checked: bool, q: ParsedQuote) returns (r: Outcome<()>)
      requires |q.signatures| == MAX_SIGNATURES && 1 <= q.count <= MAX_SIGNATURES && |q.oracleIdxs| == q.count
      requires forall i :: 0 <= i < q.count ==> q.signatures[i].Parsed?
      ensures r == CheckParsed(checked, Current(), q)
    {
      if queueAccount.None? {
        return Bail(QueueNotSet);
      }
      if slotHashesAccount.None? {
        return Bail(SlotHashesNotSet);
      }
      if clock.None? {
        return Bail(ClockNotSet);
      }
      if clock.value < q.slot || clock.value - q.slot > age {
        return Bail(QuoteTooOld);
      }
      var queueBuf := queueAccount.value.data;
      if queueBuf.Length < QUEUE_SIZE {
        return Bail(QueueTooSmall);
      }
      if queueBuf.Length > QUEUE_SIZE {
        return Bail(QueueNotDeserializable);
      }
      var found := FindSlothashInSysvar(checked, q.slot, slotHashesAccount.value);
      if !found.Ok? {
        return found.PropagateFailure();
      }
      if !CheckP64Eq(found.value, q.signatures[0].header) {
        return Panic(SlotHashMismatch);
      }
      for i := 0 to q.count
        invariant forall j :: 0 <= j < i ==> KeyMatches(queueBuf[..], q, j)
      {
        var oracleIdx := q.oracleIdxs[i] % QUEUE_KEYS;
        var expected := QueueKey(queueBuf[..], oracleIdx);
        if !CheckP64Eq(q.signatures[i].pubkey, expected) {
          assert !KeyMatches(queueBuf[..], q, i);
          return Panic(OracleKeyMismatch);
        }
      }
      r := Ok(());
    }

    method VerifyDelimited(checked: bool, data: seq<byte>) returns (r: Outcome<OracleQuote>)
      ensures r == VerifyRecord(checked, Current(), ReadDelimited(data))
      ensures r.Ok? ==> clock.Some? && 0 <= clock.value - r.value.recentSlot <= age
    {
      if |data| < 2 {
        return Undefined;
      }
      var record := ReadDelimited(data);
      if !record.Ok? {
        return record.PropagateFailure();
      }
      r := VerifyQuote(checked, record.value);
    }

    method VerifyAccount(checked: bool, account: AccountInfo) returns (r: Outcome<OracleQuote>)
      ensures r == VerifyRecord(checked, Current(), LoadAccount(account.data[..]))
      ensures r.Ok? ==> clock.Some? && 0 <= clock.value - r.value.recentSlot <= age
    {
      var data := account.data[..];
      if |data| < 8 {
        return Bail(OracleAccountTooSmall);
      }
      if LittleEndian.ReadU64(data, 0) != LittleEndian.ReadU64(DISCRIMINATOR, 0) {
        return Bail(WrongDiscriminator);
      }
      r := VerifyDelimited(checked, data[8..]);
    }

    method VerifyInstructionAt(checked: bool, instructionIdx: i64) returns (r: Outcome<OracleQuote>)
      ensures r == if ixSysvarAccount.None? then Bail(IxSysvarNotSet)
                   else VerifyRecord(checked, Current(), Extract(ixSysvarAccount.value, AsUsize(instructionIdx)))
      ensures ixSysvarAccount.Some? && 0 <= instructionIdx ==>
                r == VerifyRecord(checked, Current(), Extract(ixSysvarAccount.value, instructionIdx))
      ensures instructionIdx < 0 ==> !r.Ok?
      ensures r.Ok? ==> ixSysvarAccount.Some? && ixSysvarAccount.value.key == INSTRUCTIONS_SYSVAR_ID
      ensures r.Ok? ==> clock.Some? && 0 <= clock.value - r.value.recentSlot <= age
    {
      if ixSysvarAccount.Some? {
        ExtractExact(ixSysvarAccount.value, AsUsize(instructionIdx));
        if instructionIdx < 0 {
          HugeIndexFails(ixSysvarAccount.value, AsUsize(instructionIdx));
        }
      }
      if ixSysvarAccount.None? {
        return Bail(IxSysvarNotSet);
      }
      var data := ExtractIxData(ixSysvarAccount.value, AsUsize(instructionIdx));
      if !data.Ok? {
        return data.PropagateFailure();
      }
      r := VerifyQuote(checked, data.value);
    }
  }

  /** `i64 as usize` on a 64-bit target. */
  function AsUsize(i: i64): (r: u64)
    ensures (r - i) % TWO_64 == 0
  {
    if i < 0 then i + TWO_64 else i
  }

  /** No instruction list reaches an index of 2^16 or more, so a negative index never finds an instruction. */
  lemma HugeIndexFails(sysvar: Account, idx: nat)
    requires idx >= TWO_16
    ensures !Extract(sysvar, idx).Ok?
  {
    ExtractExact(sysvar, idx);
  }

  /** Verifies a record that was located, or fails as locating it failed. */
  function VerifyRecord(checked: bool, s: Settings, record: Outcome<seq<byte>>): Outcome<OracleQuote> {
    var data :- record;
    Verify(checked, s, data)
  }

  // ---- soundness and completeness ----

  /** The table holds `hash` for `slot`. */
  ghost predicate TableHolds(t: Table, slot: u64, hash: Bytes32) {
    exists k :: 0 <= k < TABLE_LEN && t[k] == SlotHash(slot, hash)
  }

  /** The quote is fresh, carries the sysvar's hash for its slot, and every signature's key is the queue key its
      oracle index names. */
  ghost predicate AuthenticQuote(s: Settings, q: ParsedQuote) {
    && s.queue.Some? && |s.queue.value| == QUEUE_SIZE
    && s.slotHashes.Some? && s.slotHashes.value.key == SLOT_HASHES_SYSVAR_ID
    && s.clockSlot.Some?
    && 0 <= s.clockSlot.value - q.slot <= s.maxAge
    && |q.signatures| > 0 && q.signatures[0].Parsed?
    && TableHolds(s.slotHashes.value.entries, q.slot, q.signatures[0].header)
    && KeysMatch(s.queue.value, q)
  }

  /** What a verifier promises about accepted data. */
  ghost predicate Authentic(s: Settings, data: seq<byte>) {
    Parse(data).Ok? && AuthenticQuote(s, Parse(data).value)
  }

  /** A hash the search returns stands beside the slot in the table. */
  lemma FindSlothashSound(checked: bool, target: u64, account: SlotHashesAccount)
    requires FindSlothash(checked, target, account).Ok?
    ensures TableHolds(account.entries, target, FindSlothash(checked, target, account).value)
    ensures account.key == SLOT_HASHES_SYSVAR_ID
  {
  }

  lemma CheckSound(checked: bool, s: Settings, q: ParsedQuote)
    requires |q.signatures| > 0 && q.signatures[0].Parsed?
    requires CheckParsed(checked, s, q).Ok?
    ensures AuthenticQuote(s, q)
  {
    FindSlothashSound(checked, q.slot, s.slotHashes.value);
  }

  /** Soundness, for every table and setting: accepted data is authentic, and the returned quote carries the
      parsed header, feeds, indices, slot and version. */
  lemma VerifySound(checked: bool, s: Settings, data: seq<byte>)
    requires Verify(checked, s, data).Ok?
    ensures Authentic(s, data)
    ensures var q, r := Parse(data).value, Verify(checked, s, data).value;
            && 1 <= r.oracleCount <= MAX_SIGNATURES && |r.oracleIdxs| == r.oracleCount == q.count
            && r.oracleIdxs == q.oracleIdxs && r.version == q.version && r.rawBuffer == Some(data)
            && |data| >= TRAILER_SIZE && r.recentSlot == q.slot == SlotOf(data)
            && r.header == q.signatures[0].header && r.packedFeeds == q.signatures[0].feeds
            && r.feedCount == |r.packedFeeds| <= MAX_FEEDS
  {
    VerifyParts(checked, s, data);
    CheckSound(checked, s, Parse(data).value);
  }

  /** A success is a successful parse followed by successful checks. */
  lemma VerifyParts(checked: bool, s: Settings, data: seq<byte>)
    requires Parse(data).Ok?
    ensures var q := Parse(data).value;
            && |q.signatures| == MAX_SIGNATURES && 1 <= q.count <= MAX_SIGNATURES
            && |q.oracleIdxs| == q.count
            && |data| >= TRAILER_SIZE && q.slot == SlotOf(data)
            && q.signatures[0].Parsed? && |q.signatures[0].feeds| <= MAX_FEEDS
            && (Verify(checked, s, data).Ok? <==> CheckParsed(checked, s, q).Ok?)
            && (Verify(checked, s, data).Ok? ==> Verify(checked, s, data).value == ToOracleQuote(q, data))
            && (!CheckParsed(checked, s, q).Ok? ==>
                  Verify(checked, s, data) == CheckParsed(checked, s, q).PropagateFailure())
  {
  }

  /** Which check refuses parsed data, where the slot search itself is settled. */
  lemma VerifyFailures(checked: bool, s: Settings, data: seq<byte>)
    requires Parse(data).Ok?
    ensures var q, r := Parse(data).value, Verify(checked, s, data);
            && (r == Bail(QueueNotSet) <==> s.queue.None?)
            && (r == Bail(SlotHashesNotSet) <==> s.queue.Some? && s.slotHashes.None?)
            && (r == Bail(ClockNotSet) <==> s.queue.Some? && s.slotHashes.Some? && s.clockSlot.None?)
            && (r == Bail(QuoteTooOld) <==>
                  s.queue.Some? && s.slotHashes.Some? && s.clockSlot.Some?
                  && !(0 <= s.clockSlot.value - q.slot <= s.maxAge))
            && (s.queue.Some? && s.slotHashes.Some? && s.clockSlot.Some? && 0 <= s.clockSlot.value - q.slot <= s.maxAge
                ==>
                && (r == Bail(QueueTooSmall) <==> |s.queue.value| < 6280)
                && (r == Bail(QueueNotDeserializable) <==> |s.queue.value| > 6280)
                && (|s.queue.value| == 6280 ==>
                      var found := FindSlothash(checked, q.slot, s.slotHashes.value);
                      && (!found.Ok? ==> r == found.PropagateFailure())
                      && (found.Ok? ==>
                            (r == Panic(SlotHashMismatch) <==> found.value != q.signatures[0].header))
                      && (found.Ok? && found.value == q.signatures[0].header ==>
                            (r == Panic(OracleKeyMismatch) <==> !KeysMatch(s.queue.value, q)))))
  {
    VerifyParts(checked, s, data);
    FindFailures(checked, Parse(data).value.slot, s);
  }

  lemma FindFailures(checked: bool, slot: u64, s: Settings)
    ensures s.slotHashes.Some? ==>
              var found := FindSlothash(checked, slot, s.slotHashes.value);
              found.Ok? || found == Panic(WrongSysvar) || found == Panic(Overflow) || found == Bail(SlotNotFound)
  {
  }

  /** The sysvar and clock as the runtime supplies them, with an age limit the table covers. */
  ghost predicate Covered(s: Settings) {
    && s.maxAge < TABLE_LEN
    && (s.slotHashes.Some? ==> Descending(s.slotHashes.value.entries))
    && (s.slotHashes.Some? && s.clockSlot.Some? ==> s.slotHashes.value.entries[0].slot <= s.clockSlot.value)
  }

  /** The sysvar as the runtime supplies it, newest slot first. */
  ghost predicate Ordered(s: Settings) {
    s.slotHashes.Some? ==> Descending(s.slotHashes.value.entries)
  }

  /** The table holds `hash` for `slot`, at an index the guessed search reaches. */
  ghost predicate HashReached(t: Table, slot: u64, hash: Bytes32) {
    exists k :: Reachable(t, slot, k) && t[k].hash == hash
  }

  /** Freshness makes the guessed search complete: it finds every fresh slot the table holds. */
  lemma FreshSlotFound(checked: bool, s: Settings, slot: u64, hash: Bytes32)
    requires Covered(s) && s.slotHashes.Some? && s.clockSlot.Some?
    requires s.slotHashes.value.key == SLOT_HASHES_SYSVAR_ID
    requires s.clockSlot.value - slot <= s.maxAge
    requires TableHolds(s.slotHashes.value.entries, slot, hash)
    ensures FindSlothash(checked, slot, s.slotHashes.value) == Ok(hash)
  {
    FreshSlotReached(s, slot, hash);
    FindSlothashExact(checked, slot, s.slotHashes.value);
  }

  lemma FreshSlotReached(s: Settings, slot: u64, hash: Bytes32)
    requires Covered(s) && s.slotHashes.Some? && s.clockSlot.Some?
    requires s.clockSlot.value - slot <= s.maxAge
    requires TableHolds(s.slotHashes.value.entries, slot, hash)
    ensures HashReached(s.slotHashes.value.entries, slot, hash)
  {
    var t := s.slotHashes.value.entries;
    var k :| 0 <= k < TABLE_LEN && t[k] == SlotHash(slot, hash);
    IndexAtMostLag(t, k);
    assert Reachable(t, slot, k);
  }

  /** Whatever the age limit, `verify` accepts exactly the authentic data whose slot the search reaches. */
  lemma VerifyExact(checked: bool, s: Settings, data: seq<byte>)
    requires Ordered(s)
    ensures Verify(checked, s, data).Ok? <==>
              && Authentic(s, data)
              && var q := Parse(data).value;
                 HashReached(s.slotHashes.value.entries, q.slot, q.signatures[0].header)
  {
    if Verify(checked, s, data).Ok? {
      VerifySound(checked, s, data);
    }
    if Authentic(s, data) {
      VerifyParts(checked, s, data);
      FindSlothashExact(checked, Parse(data).value.slot, s.slotHashes.value);
    }
  }

  /** With the age limit below the table length, that is exactly the authentic data. */
  lemma CoveredVerifyExact(checked: bool, s: Settings, data: seq<byte>)
    requires Covered(s)
    ensures Verify(checked, s, data).Ok? <==> Authentic(s, data)
  {
    VerifyExact(checked, s, data);
    if Authentic(s, data) {
      var q := Parse(data).value;
      FreshSlotReached(s, q.slot, q.signatures[0].header);
    }
  }

  /** Under the same premise a fresh quote whose slot is in the table never fails for its slot. */
  lemma NeverSlotNotFound(checked: bool, s: Settings, data: seq<byte>)
    requires Covered(s) && Parse(data).Ok?
    requires s.slotHashes.Some? && s.slotHashes.value.key == SLOT_HASHES_SYSVAR_ID
    requires Holds(s.slotHashes.value.entries, Parse(data).value.slot)
    ensures Verify(checked, s, data) != Bail(SlotNotFound)
    ensures Verify(checked, s, data) != Panic(Overflow)
  {
    VerifyParts(checked, s, data);
    var slot, t := Parse(data).value.slot, s.slotHashes.value.entries;
    var k :| 0 <= k < TABLE_LEN && t[k].slot == slot;
    assert t[k] == SlotHash(slot, t[k].hash);
    if s.clockSlot.Some? && s.clockSlot.value - slot <= s.maxAge {
      FreshSlotFound(checked, s, slot, t[k].hash);
    }
  }

  // ---- how many oracles? ----

  /** The keys of the signatures, in order. */
  function SignatureKeys(q: ParsedQuote): seq<Bytes32>
    requires q.count <= |q.signatures| && forall i :: 0 <= i < q.count ==> q.signatures[i].Parsed?
  {
    seq(q.count, i requires 0 <= i < q.count => q.signatures[i].pubkey)
  }

  function QueueKeys(queue: seq<byte>): seq<Bytes32>
    requires |queue| == QUEUE_SIZE
  {
    seq(QUEUE_KEYS, j requires 0 <= j < QUEUE_KEYS => QueueKey(queue, j))
  }

  /** The queue positions the oracle indices name. */
  function Positions(idxs: seq<byte>): (r: seq<nat>)
    ensures |r| == |idxs| && forall i :: 0 <= i < |r| ==> r[i] < QUEUE_KEYS
  {
    seq(|idxs|, i requires 0 <= i < |idxs| => idxs[i] % QUEUE_KEYS)
  }

  function Picked(keys: seq<Bytes32>, at: seq<nat>): seq<Bytes32>
    requires forall i :: 0 <= i < |at| ==> at[i] < |keys|
  {
    seq(|at|, i requires 0 <= i < |at| => keys[at[i]])
  }

  lemma PickedDistinctIff(keys: seq<Bytes32>, at: seq<nat>)
    requires forall i :: 0 <= i < |at| ==> at[i] < |keys|
    requires Distinct(keys)
    ensures Distinct(Picked(keys, at)) <==> Distinct(at)
  {
    if !Distinct(at) {
      var i, j :| 0 <= i < j < |at| && at[i] == at[j];
      assert Picked(keys, at)[i] == Picked(keys, at)[j];
    }
    if !Distinct(Picked(keys, at)) {
      var i, j :| 0 <= i < j < |at| && Picked(keys, at)[i] == Picked(keys, at)[j];
      assert keys[at[i]] == keys[at[j]];
    }
  }

  /** Nothing compares the signatures with each other: the keys of a verified quote are those its indices pick from
      the queue. So in a queue without duplicates its signers are pairwise distinct exactly when its indices are
      distinct modulo 30. */
  lemma VerifiedKeysDistinctIff(checked: bool, s: Settings, data: seq<byte>)
    requires Verify(checked, s, data).Ok?
    ensures s.queue.Some? && |s.queue.value| == QUEUE_SIZE
    ensures var q, r := Parse(data).value, Verify(checked, s, data).value;
            && q.count <= |q.signatures| && (forall i :: 0 <= i < q.count ==> q.signatures[i].Parsed?)
            && |SignatureKeys(q)| == r.oracleCount == |r.oracleIdxs|
            && SignatureKeys(q) == Picked(QueueKeys(s.queue.value), Positions(r.oracleIdxs))
            && (Distinct(QueueKeys(s.queue.value)) ==>
                  (Distinct(SignatureKeys(q)) <==> Distinct(Positions(r.oracleIdxs))))
  {
    VerifySound(checked, s, data);
    ParsedFirst(data);
    var q, queue := Parse(data).value, s.queue.value;
    MatchingKeysPicked(queue, q);
    if Distinct(QueueKeys(queue)) {
      PickedDistinctIff(QueueKeys(queue), Positions(q.oracleIdxs));
    }
  }

  lemma MatchingKeysPicked(queue: seq<byte>, q: ParsedQuote)
    requires |queue| == QUEUE_SIZE && KeysMatch(queue, q) && |q.oracleIdxs| == q.count <= |q.signatures|
    requires forall i :: 0 <= i < q.count ==> q.signatures[i].Parsed?
    ensures SignatureKeys(q) == Picked(QueueKeys(queue), Positions(q.oracleIdxs))
  {
    forall i | 0 <= i < q.count
      ensures SignatureKeys(q)[i] == Picked(QueueKeys(queue), Positions(q.oracleIdxs))[i]
    {
      assert KeyMatches(queue, q, i);
    }
  }

  /** Accessors of a verified quote stay in range. */
  lemma VerifiedAccessors(checked: bool, s: Settings, data: seq<byte>, i: nat, feedId: Bytes32)
    requires Verify(checked, s, data).Ok?
    ensures var r := Verify(checked, s, data).value;
            && Feeds(r) == Ok(Parse(data).value.signatures[0].feeds)
            && OracleIndex(r, i) == (if i < r.oracleCount then Ok(r.oracleIdxs[i]) else Bail(InvalidSignatureIndex))
            && (Feed(r, feedId).Ok? <==> exists f :: f in r.packedFeeds && f.feedId == feedId)
            && (Feed(r, feedId).Ok? ==>
                  Feed(r, feedId).value in r.packedFeeds && Feed(r, feedId).value.feedId == feedId)
            && (!Feed(r, feedId).Ok? ==> Feed(r, feedId) == Bail(FeedNotFound))
  {
    VerifySound(checked, s, data);
    var r := Verify(checked, s, data).value;
    assert r.packedFeeds[..r.feedCount] == r.packedFeeds;
    FindFeedExact(r.packedFeeds, feedId);
  }
}
