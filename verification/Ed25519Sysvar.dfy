/** `Ed25519Sysvar::parse_instruction` of src/sysvar/ed25519_sysvar.rs. */
module Ed25519Sysvar {
  import opened Machine
  import opened LittleEndian
  import opened QuoteLayout

  /** One slot of the result array: zeroed, or a signature with the bytes its pointers designate. */
  datatype ParsedSignature =
    | Empty
    | Parsed(offsets: Offsets, pubkey: Bytes32, signature: Signature,
             message: seq<byte>, header: Bytes32, feeds: seq<FeedInfo>)

  datatype ParsedQuote = ParsedQuote(
    signatures: seq<ParsedSignature>, count: byte, oracleIdxs: seq<byte>, slot: u64, version: byte)

  // ---- what the reader does ----

  /** The 14-byte record `i` starts after the count and padding bytes. */
  function RecordOffset(i: nat): nat {
    2 + OFFSETS_SIZE * i
  }

  /** The references built from a record stay inside the data. */
  predicate RefsInBounds(data: seq<byte>, o: Offsets) {
    o.pubkeyOffset + PUBKEY_SIZE <= |data| && o.signatureOffset + SIGNATURE_SIZE <= |data|
  }

  predicate MessageInBounds(data: seq<byte>, o: Offsets) {
    o.messageOffset + o.messageSize <= |data|
  }

  predicate Readable(data: seq<byte>, o: Offsets) {
    RefsInBounds(data, o) && MessageInBounds(data, o) && o.messageSize >= HEADER_SIZE
  }

  function ParsedAt(data: seq<byte>, o: Offsets): ParsedSignature
    requires Readable(data, o)
  {
    var message := data[o.messageOffset..o.messageOffset + o.messageSize];
    Parsed(
      o, data[o.pubkeyOffset..o.pubkeyOffset + PUBKEY_SIZE],
      data[o.signatureOffset..o.signatureOffset + SIGNATURE_SIZE],
      message, message[..HEADER_SIZE], FeedsOf(message))
  }

  /** The size checks on the shared message. */
  function CheckMessageSize(size: nat): Outcome<()> {
    if size < HEADER_SIZE then Bail(MessageTooShort)
    else if (size - HEADER_SIZE) % FEED_SIZE != 0 then Bail(MessageNotWholeFeeds)
    else if (size - HEADER_SIZE) / FEED_SIZE > MAX_FEEDS then Bail(TooManyFeeds)
    else Ok(())
  }

  /** Reads record 0, which names the shared message. */
  function ReadFirst(data: seq<byte>, at: nat): (r: Outcome<Offsets>)
    ensures r.Ok? ==> at + OFFSETS_SIZE <= |data| && r.value == ReadOffsets(data, at) && Readable(data, r.value)
  {
    if at + OFFSETS_SIZE > |data| then Undefined
    else
      var first := ReadOffsets(data, at);
      if !MessageInBounds(data, first) then Undefined
      else
        var _ :- CheckMessageSize(first.messageSize);
        if !RefsInBounds(data, first) then Undefined else Ok(first)
  }

  /** Reads a further record and checks it against record 0. */
  function ReadNext(data: seq<byte>, first: Offsets, at: nat): (r: Outcome<Offsets>)
    requires Readable(data, first)
    ensures r.Ok? ==> at + OFFSETS_SIZE <= |data| && r.value == ReadOffsets(data, at) && Readable(data, r.value)
  {
    if at + OFFSETS_SIZE > |data| then Undefined
    else
      var o := ReadOffsets(data, at);
      if o.messageOffset != first.messageOffset || o.messageSize != first.messageSize then Bail(InconsistentMessage)
      else if o.signatureIx != first.messageIx then Bail(IndexMismatch)
      else if o.pubkeyIx != first.messageIx then Bail(IndexMismatch)
      else if o.messageIx != first.messageIx then Bail(IndexMismatch)
      else if !RefsInBounds(data, o) then Undefined
      else Ok(o)
  }

  /** The first failure among records `i` to `n - 1`. */
  function CheckRecords(data: seq<byte>, first: Offsets, i: nat, n: nat): Outcome<()>
    requires Readable(data, first)
    decreases n - i
  {
    if i >= n then Ok(())
    else
      var _ :- ReadNext(data, first, RecordOffset(i));
      CheckRecords(data, first, i + 1, n)
  }

  /** The checks on the records of `n` signatures. */
  function CheckSignatures(data: seq<byte>, n: nat): Outcome<()> {
    var first :- ReadFirst(data, RecordOffset(0));
    CheckRecords(data, first, 1, n)
  }

  /** The outcome of all checks, in the source's order. */
  function Check(data: seq<byte>): Outcome<()> {
    if |data| < 2 then Bail(DataTooShortForHeader)
    else if data[0] > MAX_SIGNATURES then Bail(TooManySignatures)
    else if data[0] == 0 then Bail(NoSignatures)
    else if |data| < TRAILER_SIZE + data[0] then Bail(DataTooShortForTrailer)
    else CheckSignatures(data, data[0])
  }

  // ---- when it succeeds, declaratively ----

  /** Record `i` lies in the data and shares the message and instruction index of record 0. */
  predicate RecordAgrees(data: seq<byte>, i: nat)
    requires RecordOffset(0) + OFFSETS_SIZE <= |data|
  {
    && RecordOffset(i) + OFFSETS_SIZE <= |data|
    && var first, o := ReadOffsets(data, RecordOffset(0)), ReadOffsets(data, RecordOffset(i));
    && o.messageOffset == first.messageOffset && o.messageSize == first.messageSize
    && o.messageIx == first.messageIx
    && (i > 0 ==> o.signatureIx == first.messageIx && o.pubkeyIx == first.messageIx)
    && RefsInBounds(data, o)
  }

  /** Exactly the data `parse_instruction` accepts. */
  predicate Acceptable(data: seq<byte>) {
    && RecordOffset(0) + OFFSETS_SIZE <= |data|
    && 1 <= data[0] <= MAX_SIGNATURES
    && TRAILER_SIZE + data[0] <= |data|
    && var first := ReadOffsets(data, RecordOffset(0));
    && MessageInBounds(data, first)
    && (exists k :: 0 <= k <= MAX_FEEDS && first.messageSize == HEADER_SIZE + FEED_SIZE * k)
    && forall i :: 0 <= i < data[0] ==> RecordAgrees(data, i)
  }

  lemma {:induction false} CheckRecordsExact(data: seq<byte>, first: Offsets, i: nat, n: nat)
    requires ReadFirst(data, RecordOffset(0)) == Ok(first) && 1 <= i
    ensures CheckRecords(data, first, i, n).Ok? <==> forall j :: i <= j < n ==> RecordAgrees(data, j)
    decreases n - i
  {
    if i < n {
      CheckRecordsExact(data, first, i + 1, n);
      assert ReadNext(data, first, RecordOffset(i)).Ok? <==> RecordAgrees(data, i);
    }
  }

  lemma MessageSizeExact(size: nat)
    ensures CheckMessageSize(size).Ok? <==> exists k :: 0 <= k <= MAX_FEEDS && size == HEADER_SIZE + FEED_SIZE * k
  {
    if CheckMessageSize(size).Ok? {
      var k := (size - HEADER_SIZE) / FEED_SIZE;
      assert size == HEADER_SIZE + FEED_SIZE * k;
    }
  }

  lemma CheckExact(data: seq<byte>)
    ensures Check(data).Ok? <==> Acceptable(data)
  {
    if RecordOffset(0) + OFFSETS_SIZE <= |data| {
      var first := ReadFirst(data, RecordOffset(0));
      MessageSizeExact(ReadOffsets(data, RecordOffset(0)).messageSize);
      if Acceptable(data) {
        assert RecordAgrees(data, 0);
      }
      if first.Ok? {
        CheckRecordsExact(data, first.value, 1, data[0]);
        assert RecordAgrees(data, 0);
      }
    }
  }

  /** What record `j` denotes; `Empty` where a record or what it points at lies outside the data. */
  function SignatureAt(data: seq<byte>, j: nat): ParsedSignature {
    if RecordOffset(j) + OFFSETS_SIZE <= |data| && Readable(data, ReadOffsets(data, RecordOffset(j)))
    then ParsedAt(data, ReadOffsets(data, RecordOffset(j)))
    else Empty
  }

  /** The result array once the records before `n` are written. */
  function Slots(data: seq<byte>, n: nat): seq<ParsedSignature> {
    seq(MAX_SIGNATURES, j requires 0 <= j < MAX_SIGNATURES => if j < n then SignatureAt(data, j) else Empty)
  }

  /** The quote an acceptable byte string denotes. */
  function Denoted(data: seq<byte>): ParsedQuote
    requires Acceptable(data)
  {
    var n := data[0];
    var trailer := |data| - TRAILER_SIZE;
    ParsedQuote(
      Slots(data, n), n, data[trailer - n..trailer], ReadU64(data, trailer), data[trailer + 8])
  }

  function Parse(data: seq<byte>): Outcome<ParsedQuote> {
    CheckExact(data);
    var _ :- Check(data);
    Ok(Denoted(data))
  }

  lemma SlotsNext(data: seq<byte>, n: nat)
    requires n < MAX_SIGNATURES
    ensures Slots(data, n + 1) == Slots(data, n)[n := SignatureAt(data, n)]
  {
  }

  /** The reader: header and trailer first, then the signature records. */
  method ParseInstruction(data: seq<byte>) returns (r: Outcome<ParsedQuote>)
    ensures r == Parse(data)
    ensures r.Ok? <==> Acceptable(data)
  {
    CheckExact(data);
    if |data| < 2 {
      return Bail(DataTooShortForHeader);
    }
    var numSignatures := data[0];
    if numSignatures > MAX_SIGNATURES {
      return Bail(TooManySignatures);
    }
    if numSignatures == 0 {
      return Bail(NoSignatures);
    }
    if |data| < TRAILER_SIZE + numSignatures {
      return Bail(DataTooShortForTrailer);
    }
    var endOfMessage := |data| - numSignatures - TRAILER_SIZE;
    var oracleIdxs := data[endOfMessage..][..numSignatures];
    var suffix := data[endOfMessage..][numSignatures..];
    var slot := ReadU64(suffix, 0);
    var version := suffix[8];
    var signatures := ReadSignatures(data, numSignatures);
    if !signatures.Ok? {
      return signatures.PropagateFailure();
    }
    r := Ok(ParsedQuote(signatures.value, numSignatures, oracleIdxs, slot, version));
    assert oracleIdxs == data[endOfMessage..endOfMessage + numSignatures];
    TrailerLaidOut(data, suffix);
  }

  /** Record 0, then the others, written to a zeroed array. */
  method ReadSignatures(data: seq<byte>, n: byte) returns (r: Outcome<seq<ParsedSignature>>)
    requires 1 <= n <= MAX_SIGNATURES
    ensures r == match CheckSignatures(data, n)
                 case Ok(_) => Ok(Slots(data, n))
                 case Bail(why) => Bail(why)
                 case Panic(why) => Panic(why)
                 case Undefined => Undefined
  {
    var parsed := new ParsedSignature[MAX_SIGNATURES](_ => Empty);
    assert parsed[..] == Slots(data, 0);
    var first :- ReadFirst(data, 2);
    SlotsNext(data, 0);
    parsed[0] := ParsedAt(data, first);
    var _ :- ReadRemaining(data, first, n, parsed);
    r := Ok(parsed[..]);
  }

  /** The loop: `offset` advances by 14 and each record is written to its place in the array. */
  method ReadRemaining(data: seq<byte>, first: Offsets, n: byte, parsed: array<ParsedSignature>)
    returns (r: Outcome<()>)
    requires 1 <= n <= MAX_SIGNATURES == parsed.Length
    requires Readable(data, first) && parsed[..] == Slots(data, 1)
    modifies parsed
    ensures r == CheckRecords(data, first, 1, n)
    ensures r.Ok? ==> parsed[..] == Slots(data, n)
  {
    var offset := 2 + OFFSETS_SIZE;
    for i := 1 to n
      invariant offset == RecordOffset(i)
      invariant CheckRecords(data, first, 1, n) == CheckRecords(data, first, i, n)
      invariant parsed[..] == Slots(data, i)
    {
      var o :- ReadNext(data, first, offset);
      SlotsNext(data, i);
      parsed[i] := ParsedAt(data, o);
      offset := offset + OFFSETS_SIZE;
    }
    r := Ok(());
  }

  // ---- when it reads outside the data ----

  /** The message and instruction-index fields of record `i` agree with record 0. */
  predicate FieldsAgree(data: seq<byte>, i: nat)
    requires RecordOffset(0) + OFFSETS_SIZE <= |data| && RecordOffset(i) + OFFSETS_SIZE <= |data|
  {
    var first, o := ReadOffsets(data, RecordOffset(0)), ReadOffsets(data, RecordOffset(i));
    && o.messageOffset == first.messageOffset && o.messageSize == first.messageSize
    && o.signatureIx == first.messageIx && o.pubkeyIx == first.messageIx && o.messageIx == first.messageIx
  }

  /** Record `i >= 1` lies outside the data, or passes its checks and points outside. */
  predicate Strays(data: seq<byte>, i: nat)
    requires RecordOffset(0) + OFFSETS_SIZE <= |data|
  {
    RecordOffset(i) + OFFSETS_SIZE > |data|
    || (FieldsAgree(data, i) && !RefsInBounds(data, ReadOffsets(data, RecordOffset(i))))
  }

  /** Record `i` is the first of records 1 to `n - 1` that does not pass, and it strays. */
  ghost predicate FirstStray(data: seq<byte>, from: nat, n: nat, i: int)
    requires RecordOffset(0) + OFFSETS_SIZE <= |data|
  {
    from <= i < n && Strays(data, i) && forall j :: from <= j < i ==> RecordAgrees(data, j)
  }

  /** A message of 0 to 8 whole feeds. */
  ghost predicate WholeFeeds(size: nat) {
    exists k :: 0 <= k <= MAX_FEEDS && size == HEADER_SIZE + FEED_SIZE * k
  }

  /** With 1 to 8 signatures and room for the trailer, some record, message, key or signature that is reached
      lies outside the data. */
  ghost predicate LeavesData(data: seq<byte>) {
    && 2 <= |data| && 1 <= data[0] <= MAX_SIGNATURES && TRAILER_SIZE + data[0] <= |data|
    && (RecordOffset(0) + OFFSETS_SIZE > |data|
        || var first := ReadOffsets(data, RecordOffset(0));
           !MessageInBounds(data, first)
           || (WholeFeeds(first.messageSize)
               && (!RefsInBounds(data, first) || exists i :: FirstStray(data, 1, data[0], i))))
  }

  lemma {:induction false} CheckRecordsStray(data: seq<byte>, first: Offsets, i: nat, n: nat)
    requires ReadFirst(data, RecordOffset(0)) == Ok(first) && 1 <= i
    ensures CheckRecords(data, first, i, n) == Undefined <==> exists k :: FirstStray(data, i, n, k)
    decreases n - i
  {
    if i < n {
      var next := ReadNext(data, first, RecordOffset(i));
      assert next.Ok? <==> RecordAgrees(data, i);
      assert next == Undefined <==> Strays(data, i);
      if next.Ok? {
        CheckRecordsStray(data, first, i + 1, n);
        StrayFurtherOn(data, i, i + 1, n);
      } else if next == Undefined {
        assert FirstStray(data, i, n, i);
      }
    }
  }

  /** Where record `i` passes, the first stray from `i` on is the first from the next on. */
  lemma StrayFurtherOn(data: seq<byte>, i: nat, next: nat, n: nat)
    requires RecordOffset(0) + OFFSETS_SIZE <= |data| && RecordAgrees(data, i) && 1 <= i && next == i + 1
    ensures (exists k :: FirstStray(data, i, n, k)) <==> exists k :: FirstStray(data, next, n, k)
  {
    forall k
      ensures FirstStray(data, i, n, k) <==> FirstStray(data, next, n, k)
    {
      if k == i {
        assert !Strays(data, i);
      }
    }
  }

  /** Exactly when the unsafe reader leaves its buffer. */
  lemma UndefinedIff(data: seq<byte>)
    ensures Parse(data) == Undefined <==> LeavesData(data)
  {
    if RecordOffset(0) + OFFSETS_SIZE <= |data| {
      var first := ReadFirst(data, RecordOffset(0));
      MessageSizeExact(ReadOffsets(data, RecordOffset(0)).messageSize);
      if first.Ok? {
        CheckRecordsStray(data, first.value, 1, data[0]);
      }
    }
  }

  /** Sixteen bytes reach that case: one signature whose record points past the end. */
  lemma ShortInputLeavesData()
    ensures Parse([1, 0] + seq(14, _ => 255)) == Undefined
  {
    var data: seq<byte> := [1, 0] + seq(14, _ => 255);
    assert ReadOffsets(data, RecordOffset(0)).messageOffset == 65535;
    UndefinedIff(data);
  }

  // ---- what every success guarantees ----

  /** All signatures of a parsed quote share one message, header, feed list and instruction index. */
  lemma ParsedShareMessage(data: seq<byte>, i: nat)
    requires Parse(data).Ok? && i < data[0]
    ensures var q := Parse(data).value;
            && q.signatures[0].Parsed? && q.signatures[i].Parsed?
            && q.signatures[i].message == q.signatures[0].message
            && q.signatures[i].header == q.signatures[0].header
            && q.signatures[i].feeds == q.signatures[0].feeds
            && |q.signatures[0].feeds| <= MAX_FEEDS
            && q.signatures[i].offsets.messageIx == q.signatures[0].offsets.messageIx
  {
    CheckExact(data);
    assert RecordAgrees(data, 0) && RecordAgrees(data, i);
  }

  /** A signature as the record at byte `at` designates it, by position. */
  predicate ReadFrom(data: seq<byte>, at: nat, s: ParsedSignature) {
    && at + 14 <= |data| && s.Parsed?
    && var sig, key, msg, size :=
         ReadU16(data, at), ReadU16(data, at + 4), ReadU16(data, at + 8), ReadU16(data, at + 10);
    && sig + 64 <= |data| && s.signature == data[sig..sig + 64]
    && key + 32 <= |data| && s.pubkey == data[key..key + 32]
    && msg + size <= |data| && s.message == data[msg..msg + size]
    && size >= 32 && s.header == data[msg..msg + 32]
  }

  /** Signature `i` of a parsed quote is what the record at byte 2 + 14 i designates. */
  lemma ParsedFromData(data: seq<byte>, i: nat)
    requires Parse(data).Ok? && i < 8
    ensures |data| >= 2 && |Parse(data).value.signatures| == 8
    ensures if i < data[0] then ReadFrom(data, 2 + 14 * i, Parse(data).value.signatures[i])
            else Parse(data).value.signatures[i] == Empty
  {
    CheckExact(data);
    ParsedSlot(data, i);
    if i < data[0] {
      DesignatedAt(data, 2 + 14 * i);
    }
  }

  lemma ParsedSlot(data: seq<byte>, i: nat)
    requires Acceptable(data) && i < MAX_SIGNATURES
    ensures Denoted(data).signatures[i] == if i < data[0] then SignatureAt(data, i) else Empty
    ensures i < data[0] ==>
              RecordOffset(i) + OFFSETS_SIZE <= |data| && Readable(data, ReadOffsets(data, RecordOffset(i)))
  {
    if i < data[0] {
      assert RecordAgrees(data, i) && RecordAgrees(data, 0);
    }
  }

  lemma DesignatedAt(data: seq<byte>, at: nat)
    requires at + OFFSETS_SIZE <= |data| && Readable(data, ReadOffsets(data, at))
    ensures ReadFrom(data, at, ParsedAt(data, ReadOffsets(data, at)))
  {
    HeadOfMessage(data, ReadOffsets(data, at));
  }

  lemma HeadOfMessage(data: seq<byte>, o: Offsets)
    requires Readable(data, o)
    ensures ParsedAt(data, o).header == data[o.messageOffset..o.messageOffset + 32]
  {
  }

  /** Feed `k` of a parsed signature is the entry at byte 32 + 49 k of its message. */
  lemma ParsedFeeds(data: seq<byte>, i: nat, k: nat)
    requires Parse(data).Ok? && i < data[0]
    ensures var s := Parse(data).value.signatures[i];
            && s.Parsed? && |s.message| == 32 + 49 * |s.feeds|
            && (k < |s.feeds| ==> s.feeds[k] == DecodeFeed(s.message[32 + 49 * k..32 + 49 * k + 49]))
  {
    CheckExact(data);
    ParsedSlot(data, i);
    assert RecordAgrees(data, i);
    WholeFeedsRead(data, ReadOffsets(data, RecordOffset(i)), k);
  }

  lemma WholeFeedsRead(data: seq<byte>, o: Offsets, k: nat)
    requires Readable(data, o) && WholeFeeds(o.messageSize)
    ensures var s := ParsedAt(data, o);
            && |s.message| == 32 + 49 * |s.feeds|
            && (k < |s.feeds| ==> s.feeds[k] == DecodeFeed(s.message[32 + 49 * k..32 + 49 * k + 49]))
  {
    var n :| 0 <= n <= MAX_FEEDS && o.messageSize == HEADER_SIZE + FEED_SIZE * n;
    assert |ParsedAt(data, o).feeds| == n;
  }

  /** Oracle indices, slot, version and tag close the data. */
  lemma ParsedTrailer(data: seq<byte>)
    requires Parse(data).Ok?
    ensures var q, n := Parse(data).value, |data|;
            && n >= 13 + data[0] && q.count == data[0] && q.oracleIdxs == data[n - 13 - data[0]..n - 13]
            && q.slot == ReadU64(data, n - 13) && q.version == data[n - 5]
  {
    CheckExact(data);
  }

  // ---- why it fails ----

  /** A signature count of 1 to 8 and room for the trailer. */
  predicate Headed(data: seq<byte>) {
    |data| >= 2 && 1 <= data[0] <= 8 && |data| >= 13 + data[0]
  }

  /** Then the first record and its message are in the data; this is the message's size. */
  predicate FirstMessage(data: seq<byte>, size: nat) {
    Headed(data) && |data| >= 16 && size == ReadU16(data, 12) && ReadU16(data, 10) + size <= |data|
  }

  /** The failures before the records are compared, each exactly. */
  lemma EarlyFailures(data: seq<byte>)
    ensures Parse(data) == Bail(DataTooShortForHeader) <==> |data| < 2
    ensures Parse(data) == Bail(TooManySignatures) <==> |data| >= 2 && data[0] > 8
    ensures Parse(data) == Bail(NoSignatures) <==> |data| >= 2 && data[0] == 0
    ensures Parse(data) == Bail(DataTooShortForTrailer) <==>
              |data| >= 2 && 1 <= data[0] <= 8 && |data| < 13 + data[0]
    ensures Parse(data) == Bail(MessageTooShort) <==> exists size: nat :: FirstMessage(data, size) && size < 32
    ensures Parse(data) == Bail(MessageNotWholeFeeds) <==>
              exists size: nat :: FirstMessage(data, size) && size >= 32 && (size - 32) % 49 != 0
    ensures Parse(data) == Bail(TooManyFeeds) <==>
              exists size: nat :: FirstMessage(data, size) && size > 32 + 49 * 8 && (size - 32) % 49 == 0
  {
    if Headed(data) && |data| >= 16 {
      var first := ReadFirst(data, 2);
      if first.Ok? {
        RecordFailures(data, first.value, 1, data[0]);
      }
      if MessageInBounds(data, ReadOffsets(data, 2)) {
        assert FirstMessage(data, ReadU16(data, 12));
      }
    }
  }

  /** Comparing records fails only for a difference from record 0, or by leaving the data. */
  lemma {:induction false} RecordFailures(data: seq<byte>, first: Offsets, i: nat, n: nat)
    requires Readable(data, first)
    ensures var r := CheckRecords(data, first, i, n);
            r.Ok? || r == Bail(InconsistentMessage) || r == Bail(IndexMismatch) || r == Undefined
    decreases n - i
  {
    if i < n {
      RecordFailures(data, first, i + 1, n);
    }
  }

  predicate SameMessage(data: seq<byte>, i: nat)
    requires RecordOffset(0) + OFFSETS_SIZE <= |data| && RecordOffset(i) + OFFSETS_SIZE <= |data|
  {
    var at := RecordOffset(i);
    ReadU16(data, at + 8) == ReadU16(data, 10) && ReadU16(data, at + 10) == ReadU16(data, 12)
  }

  /** Record `i` is in the data, with another message offset or size than record 0. */
  predicate OtherMessage(data: seq<byte>, i: nat)
    requires RecordOffset(0) + OFFSETS_SIZE <= |data|
  {
    RecordOffset(i) + OFFSETS_SIZE <= |data| && !SameMessage(data, i)
  }

  /** The same message, but not everywhere the instruction index of record 0. */
  predicate OtherIndex(data: seq<byte>, i: nat)
    requires RecordOffset(0) + OFFSETS_SIZE <= |data|
  {
    RecordOffset(i) + OFFSETS_SIZE <= |data| && SameMessage(data, i) && !FieldsAgree(data, i)
  }

  /** The first of the records `from` to `n - 1` that does not agree with record 0; `n` if all do. */
  ghost predicate FirstDisagreeing(data: seq<byte>, from: nat, n: nat, i: nat)
    requires RecordOffset(0) + OFFSETS_SIZE <= |data|
  {
    from <= i <= n && (forall j :: from <= j < i ==> RecordAgrees(data, j)) && (i < n ==> !RecordAgrees(data, i))
  }

  /** Comparing records fails as the first disagreeing record does. */
  lemma {:induction false} RecordFailuresExact(data: seq<byte>, first: Offsets, i: nat, n: nat, k: nat)
    requires ReadFirst(data, RecordOffset(0)) == Ok(first) && 1 <= i && FirstDisagreeing(data, i, n, k)
    ensures CheckRecords(data, first, i, n)
         == if k == n then Ok(())
            else if OtherMessage(data, k) then Bail(InconsistentMessage)
            else if OtherIndex(data, k) then Bail(IndexMismatch)
            else Undefined
    decreases n - i
  {
    if i < k {
      assert RecordAgrees(data, i);
      RecordFailuresExact(data, first, i + 1, n, k);
    }
  }

  lemma {:induction false} SomeDisagreeing(data: seq<byte>, from: nat, n: nat) returns (k: nat)
    requires RecordOffset(0) + OFFSETS_SIZE <= |data| && from <= n
    ensures FirstDisagreeing(data, from, n, k)
    decreases n - from
  {
    k := from;
    if from < n && RecordAgrees(data, from) {
      k := SomeDisagreeing(data, from + 1, n);
    }
  }

  /** Where record 0 passes, the outcome is decided by the first record that disagrees with it: another message,
      another index, or a read outside the data. */
  lemma LateFailures(data: seq<byte>)
    requires Headed(data) && |data| >= 16
    requires var first := ReadOffsets(data, 2);
             MessageInBounds(data, first) && WholeFeeds(first.messageSize) && RefsInBounds(data, first)
    ensures exists k :: FirstDisagreeing(data, 1, data[0], k)
    ensures forall k | FirstDisagreeing(data, 1, data[0], k) ::
              && (Parse(data).Ok? <==> k == data[0])
              && (Parse(data) == Bail(InconsistentMessage) <==> k < data[0] && OtherMessage(data, k))
              && (Parse(data) == Bail(IndexMismatch) <==> k < data[0] && OtherIndex(data, k))
  {
    MessageSizeExact(ReadOffsets(data, 2).messageSize);
    var first := ReadFirst(data, RecordOffset(0)).value;
    var some := SomeDisagreeing(data, 1, data[0]);
    forall k | FirstDisagreeing(data, 1, data[0], k)
      ensures CheckSignatures(data, data[0])
           == if k == data[0] then Ok(())
              else if OtherMessage(data, k) then Bail(InconsistentMessage)
              else if OtherIndex(data, k) then Bail(IndexMismatch)
              else Undefined
    {
      RecordFailuresExact(data, first, 1, data[0], k);
    }
  }

  // ---- encoder ----

  datatype Signer = Signer(pubkey: Bytes32, signature: Signature, oracleIdx: byte)

  datatype Quote = Quote(
    signers: seq<Signer>, header: Bytes32, feeds: seq<FeedInfo>, slot: u64, version: byte,
    padding: byte, tag: seq<byte>, ixIndex: u16)

  /** 1 to 8 signatures, at most 8 feeds, a 4-byte tag. */
  predicate WellFormed(q: Quote) {
    1 <= |q.signers| <= MAX_SIGNATURES && |q.feeds| <= MAX_FEEDS && |q.tag| == 4
  }

  const SIGNER_SIZE := PUBKEY_SIZE + SIGNATURE_SIZE

  function SignersStart(q: Quote): nat {
    RecordOffset(|q.signers|)
  }

  function MessageStart(q: Quote): nat {
    SignersStart(q) + SIGNER_SIZE * |q.signers|
  }

  /** Record `i` points at signer block `i` and at the shared message. */
  function OffsetsOf(q: Quote, i: nat): Offsets
    requires WellFormed(q) && i < |q.signers|
  {
    Offsets(
      SignersStart(q) + SIGNER_SIZE * i + PUBKEY_SIZE, q.ixIndex,
      SignersStart(q) + SIGNER_SIZE * i, q.ixIndex,
      MessageStart(q), HEADER_SIZE + FEED_SIZE * |q.feeds|, q.ixIndex)
  }

  function AllOffsets(q: Quote): seq<Offsets>
    requires WellFormed(q)
  {
    seq(|q.signers|, i requires 0 <= i < |q.signers| => OffsetsOf(q, i))
  }

  function OffsetRecords(records: seq<Offsets>): seq<seq<byte>> {
    seq(|records|, i requires 0 <= i < |records| => EncodeOffsets(records[i]))
  }

  function SignerBlocks(signers: seq<Signer>): seq<seq<byte>> {
    seq(|signers|, i requires 0 <= i < |signers| => signers[i].pubkey + signers[i].signature)
  }

  function OracleIdxs(q: Quote): seq<byte> {
    seq(|q.signers|, i requires 0 <= i < |q.signers| => q.signers[i].oracleIdx)
  }

  function Trailer(q: Quote): (b: seq<byte>)
    requires WellFormed(q)
    ensures |b| == TRAILER_SIZE
    ensures ReadU64(b, 0) == q.slot && b[8] == q.version
  {
    var b := U64Bytes(q.slot) + [q.version] + q.tag;
    assert b[0..8] == U64Bytes(q.slot);
    ReadU64At(b, 0, q.slot);
    b
  }

  /** Count, padding, offset records, keys and signatures, message, oracle indices, slot, version, tag. */
  function Encode(q: Quote): seq<byte>
    requires WellFormed(q)
  {
    [|q.signers|, q.padding] + Flatten(OffsetRecords(AllOffsets(q))) + Flatten(SignerBlocks(q.signers))
    + EncodeMessage(q.header, q.feeds) + OracleIdxs(q) + Trailer(q)
  }

  /** What parsing the encoding must yield, read off the quote alone. */
  function Expected(q: Quote): ParsedQuote
    requires WellFormed(q)
  {
    ParsedQuote(
      seq(MAX_SIGNATURES, i requires 0 <= i < MAX_SIGNATURES =>
        if i < |q.signers| then
          Parsed(OffsetsOf(q, i), q.signers[i].pubkey, q.signers[i].signature,
                 EncodeMessage(q.header, q.feeds), q.header, q.feeds)
        else Empty),
      |q.signers|, OracleIdxs(q), q.slot, q.version)
  }

  lemma SectionLengths(q: Quote)
    requires WellFormed(q)
    ensures |Flatten(OffsetRecords(AllOffsets(q)))| == OFFSETS_SIZE * |q.signers|
    ensures |Flatten(SignerBlocks(q.signers))| == SIGNER_SIZE * |q.signers|
  {
    FlattenLength(OffsetRecords(AllOffsets(q)), OFFSETS_SIZE);
    FlattenLength(SignerBlocks(q.signers), SIGNER_SIZE);
  }

  ghost predicate SectionIs(d: seq<byte>, from: nat, to: nat, section: seq<byte>) {
    from <= to <= |d| && d[from..to] == section
  }

  /** `d` holds the pieces of an encoding of `q`, each in its place. */
  ghost predicate LaysOut(d: seq<byte>, q: Quote)
    requires WellFormed(q)
  {
    var n, m := |q.signers|, MessageStart(q);
    var e := m + HEADER_SIZE + FEED_SIZE * |q.feeds|;
    && |d| == e + n + TRAILER_SIZE && d[0] == n
    && SectionIs(d, 2, SignersStart(q), Flatten(OffsetRecords(AllOffsets(q))))
    && SectionIs(d, SignersStart(q), m, Flatten(SignerBlocks(q.signers)))
    && SectionIs(d, m, e, EncodeMessage(q.header, q.feeds))
    && SectionIs(d, e, e + n, OracleIdxs(q))
    && SectionIs(d, e + n, |d|, Trailer(q))
  }

  /** Five consecutive sections behind a head, with the positions their lengths give. */
  lemma PlacedInOrder(
    d: seq<byte>, a: seq<byte>, b: seq<byte>, c: seq<byte>, e: seq<byte>, f: seq<byte>, g: seq<byte>,
    b0: nat, c0: nat, e0: nat, f0: nat, g0: nat)
    requires d == a + b + c + e + f + g
    requires b0 == |a| && c0 == b0 + |b| && e0 == c0 + |c| && f0 == e0 + |e| && g0 == f0 + |f|
    ensures |d| == g0 + |g| && d[..b0] == a
    ensures SectionIs(d, b0, c0, b) && SectionIs(d, c0, e0, c) && SectionIs(d, e0, f0, e)
    ensures SectionIs(d, f0, g0, f) && SectionIs(d, g0, |d|, g)
  {
    SixSections(a, b, c, e, f, g);
  }

  lemma EncodeLaysOut(q: Quote)
    requires WellFormed(q)
    ensures LaysOut(Encode(q), q)
  {
    SectionLengths(q);
    InOrderLaysOut(
      Encode(q), q, [|q.signers|, q.padding], Flatten(OffsetRecords(AllOffsets(q))), Flatten(SignerBlocks(q.signers)),
      EncodeMessage(q.header, q.feeds), OracleIdxs(q), Trailer(q));
  }

  lemma InOrderLaysOut(
    d: seq<byte>, q: Quote, head: seq<byte>, records: seq<byte>, blocks: seq<byte>, message: seq<byte>,
    idxs: seq<byte>, trailer: seq<byte>)
    requires WellFormed(q) && d == head + records + blocks + message + idxs + trailer
    requires |head| == 2 && head[0] == |q.signers|
    requires records == Flatten(OffsetRecords(AllOffsets(q))) && |records| == OFFSETS_SIZE * |q.signers|
    requires blocks == Flatten(SignerBlocks(q.signers)) && |blocks| == SIGNER_SIZE * |q.signers|
    requires message == EncodeMessage(q.header, q.feeds) && idxs == OracleIdxs(q) && trailer == Trailer(q)
    ensures LaysOut(d, q)
  {
    var m := MessageStart(q);
    PlacedInOrder(d, head, records, blocks, message, idxs, trailer,
                  2, SignersStart(q), m, m + |message|, m + |message| + |q.signers|);
    assert d[0] == d[..2][0];
  }

  lemma OffsetsAt(d: seq<byte>, from: nat, to: nat, records: seq<Offsets>, i: nat)
    requires SectionIs(d, from, to, Flatten(OffsetRecords(records))) && i < |records|
    ensures from + OFFSETS_SIZE * i + OFFSETS_SIZE <= |d|
    ensures ReadOffsets(d, from + OFFSETS_SIZE * i) == records[i]
  {
    RecordAt(d, from, to, OffsetRecords(records), OFFSETS_SIZE, i, OFFSETS_SIZE * i);
    ReadEncodedOffsets(d, from + OFFSETS_SIZE * i, records[i]);
  }

  lemma RecordLaidOut(d: seq<byte>, q: Quote, i: nat)
    requires WellFormed(q) && LaysOut(d, q) && i < |q.signers|
    ensures RecordOffset(i) + OFFSETS_SIZE <= |d| && ReadOffsets(d, RecordOffset(i)) == OffsetsOf(q, i)
  {
    var records := AllOffsets(q);
    OffsetsAt(d, 2, SignersStart(q), records, i);
    assert records[i] == OffsetsOf(q, i);
  }

  lemma SignerAt(d: seq<byte>, from: nat, to: nat, signers: seq<Signer>, i: nat)
    requires SectionIs(d, from, to, Flatten(SignerBlocks(signers))) && i < |signers|
    ensures var at := from + SIGNER_SIZE * i;
            && at + SIGNER_SIZE <= |d|
            && d[at..at + PUBKEY_SIZE] == signers[i].pubkey
            && d[at + PUBKEY_SIZE..at + SIGNER_SIZE] == signers[i].signature
  {
    RecordAt(d, from, to, SignerBlocks(signers), SIGNER_SIZE, i, SIGNER_SIZE * i);
    PairAt(d, from + SIGNER_SIZE * i, signers[i].pubkey, signers[i].signature);
  }

  lemma SignerLaidOut(d: seq<byte>, q: Quote, i: nat)
    requires WellFormed(q) && LaysOut(d, q) && i < |q.signers|
    ensures var at := SignersStart(q) + SIGNER_SIZE * i;
            && at + SIGNER_SIZE <= |d|
            && d[at..at + PUBKEY_SIZE] == q.signers[i].pubkey
            && d[at + PUBKEY_SIZE..at + SIGNER_SIZE] == q.signers[i].signature
  {
    SignerAt(d, SignersStart(q), MessageStart(q), q.signers, i);
  }

  lemma ParsedAtIs(d: seq<byte>, o: Offsets, signer: Signer, header: Bytes32, feeds: seq<FeedInfo>)
    requires o.pubkeyOffset + PUBKEY_SIZE <= |d| && o.signatureOffset + SIGNATURE_SIZE <= |d|
    requires o.messageOffset + o.messageSize <= |d|
    requires d[o.pubkeyOffset..o.pubkeyOffset + PUBKEY_SIZE] == signer.pubkey
    requires d[o.signatureOffset..o.signatureOffset + SIGNATURE_SIZE] == signer.signature
    requires d[o.messageOffset..o.messageOffset + o.messageSize] == EncodeMessage(header, feeds)
    ensures Readable(d, o)
    ensures ParsedAt(d, o)
         == Parsed(o, signer.pubkey, signer.signature, EncodeMessage(header, feeds), header, feeds)
  {
    FeedsOfEncoded(header, feeds);
  }

  lemma SlotLaidOut(d: seq<byte>, q: Quote, i: nat)
    requires WellFormed(q) && LaysOut(d, q) && i < |q.signers|
    ensures SignatureAt(d, i) == Expected(q).signatures[i]
  {
    RecordLaidOut(d, q, i);
    SignerLaidOut(d, q, i);
    ParsedAtIs(d, OffsetsOf(q, i), q.signers[i], q.header, q.feeds);
  }

  lemma LaidOutAcceptable(d: seq<byte>, q: Quote)
    requires WellFormed(q) && LaysOut(d, q)
    ensures Acceptable(d)
  {
    RecordLaidOut(d, q, 0);
    assert OffsetsOf(q, 0).messageSize == HEADER_SIZE + FEED_SIZE * |q.feeds|;
    forall i | 0 <= i < |q.signers|
      ensures RecordAgrees(d, i)
    {
      RecordLaidOut(d, q, i);
      SignerLaidOut(d, q, i);
    }
  }

  /** Round trip: parsing recovers every record, key, signature, the shared header and feeds, the oracle
      indices, the slot and the version of every well-formed quote. */
  lemma ParseEncode(q: Quote)
    requires WellFormed(q)
    ensures Parse(Encode(q)) == Ok(Expected(q))
  {
    EncodeLaysOut(q);
    ParseLaidOut(Encode(q), q);
  }

  /** The bytes before the tag, without the padding byte. */
  ghost predicate SameButTag(a: seq<byte>, b: seq<byte>) {
    |a| == |b| && forall k :: 0 <= k < |a| - 4 && k != 1 ==> a[k] == b[k]
  }

  /** Bytes `from` to `from + len` are neither the padding byte nor part of the tag. */
  predicate ClearOfTag(data: seq<byte>, from: nat, len: nat) {
    2 <= from && from + len <= |data| - 4
  }

  /** Record `i` and everything it points at are clear of padding and tag. */
  predicate RecordClear(data: seq<byte>, i: nat) {
    && ClearOfTag(data, RecordOffset(i), OFFSETS_SIZE)
    && var o := ReadOffsets(data, RecordOffset(i));
    && ClearOfTag(data, o.pubkeyOffset, PUBKEY_SIZE)
    && ClearOfTag(data, o.signatureOffset, SIGNATURE_SIZE)
    && ClearOfTag(data, o.messageOffset, o.messageSize)
  }

  lemma SameSlices(a: seq<byte>, b: seq<byte>, from: nat, len: nat)
    requires SameButTag(a, b) && ClearOfTag(a, from, len)
    ensures a[from..from + len] == b[from..from + len]
  {
  }

  lemma SameRecord(a: seq<byte>, b: seq<byte>, i: nat)
    requires SameButTag(a, b) && RecordClear(a, i)
    ensures ReadOffsets(b, RecordOffset(i)) == ReadOffsets(a, RecordOffset(i))
    ensures SignatureAt(b, i) == SignatureAt(a, i)
  {
    var o := ReadOffsets(a, RecordOffset(i));
    assert ReadOffsets(b, RecordOffset(i)) == o;
    SameSlices(a, b, o.pubkeyOffset, PUBKEY_SIZE);
    SameSlices(a, b, o.signatureOffset, SIGNATURE_SIZE);
    SameSlices(a, b, o.messageOffset, o.messageSize);
  }

  /** On accepted data whose records keep clear of padding and tag, changing those bytes changes nothing in the
      result. */
  lemma TagAndPaddingUnread(a: seq<byte>, b: seq<byte>)
    requires Acceptable(a) && SameButTag(a, b)
    requires forall i :: 0 <= i < a[0] ==> RecordClear(a, i)
    ensures Parse(b) == Parse(a)
  {
    forall i | 0 <= i < a[0]
      ensures RecordAgrees(b, i)
      ensures SignatureAt(b, i) == SignatureAt(a, i)
    {
      assert RecordAgrees(a, i) && RecordAgrees(a, 0);
      SameRecord(a, b, i);
      SameRecord(a, b, 0);
    }
    assert ReadOffsets(b, RecordOffset(0)) == ReadOffsets(a, RecordOffset(0)) by {
      SameRecord(a, b, 0);
    }
    CheckExact(a);
    CheckExact(b);
    assert Slots(b, b[0]) == Slots(a, a[0]);
    TrailerUnchanged(a, b);
  }

  /** Changing the padding byte and the tag in any way leaves the result as it is. */
  ghost predicate TagUnread(a: seq<byte>) {
    forall b :: SameButTag(a, b) ==> Parse(b) == Parse(a)
  }

  /** Exactly when: the parser looks at the padding byte or the tag only where a record lies there or points there. */
  lemma TagUnreadIff(a: seq<byte>)
    requires Acceptable(a)
    ensures TagUnread(a) <==> forall i :: 0 <= i < a[0] ==> RecordClear(a, i)
  {
    if forall i :: 0 <= i < a[0] ==> RecordClear(a, i) {
      forall b | SameButTag(a, b)
        ensures Parse(b) == Parse(a)
      {
        TagAndPaddingUnread(a, b);
      }
    } else {
      var i :| 0 <= i < a[0] && !RecordClear(a, i);
      assert RecordAgrees(a, i) && RecordAgrees(a, 0);
      TagRead(a, i);
    }
  }

  /** A position in the range that is the padding byte or belongs to the tag. */
  function TagByteIn(data: seq<byte>, from: nat, len: nat): (k: nat)
    requires len >= 2 && from + len <= |data| && !ClearOfTag(data, from, len)
    ensures from <= k < from + len && (k == 1 || k >= |data| - 4)
  {
    if from < 2 then 1 else from + len - 1
  }

  /** Record `i` touches padding or tag: a byte there decides what is parsed. */
  lemma TagRead(a: seq<byte>, i: nat)
    requires Acceptable(a) && i < a[0] && RecordAgrees(a, i) && !RecordClear(a, i)
    ensures !TagUnread(a)
  {
    var at := RecordOffset(i);
    var o := ReadOffsets(a, at);
    if !ClearOfTag(a, at, OFFSETS_SIZE) {
      TagByteRead(a, i, TagByteIn(a, at, OFFSETS_SIZE));
    } else if !ClearOfTag(a, o.pubkeyOffset, PUBKEY_SIZE) {
      TagByteRead(a, i, TagByteIn(a, o.pubkeyOffset, PUBKEY_SIZE));
    } else if !ClearOfTag(a, o.signatureOffset, SIGNATURE_SIZE) {
      TagByteRead(a, i, TagByteIn(a, o.signatureOffset, SIGNATURE_SIZE));
    } else {
      TagByteRead(a, i, TagByteIn(a, o.messageOffset, o.messageSize));
    }
  }

  /** Byte `k` lies in the record at `at` or in a range the record points at. */
  predicate Covers(at: nat, o: Offsets, k: nat) {
    || at <= k < at + OFFSETS_SIZE
    || o.pubkeyOffset <= k < o.pubkeyOffset + PUBKEY_SIZE
    || o.signatureOffset <= k < o.signatureOffset + SIGNATURE_SIZE
    || o.messageOffset <= k < o.messageOffset + o.messageSize
  }

  /** Changing a covered byte of padding or tag changes the result. */
  lemma TagByteRead(a: seq<byte>, i: nat, k: nat)
    requires Acceptable(a) && i < a[0] && RecordAgrees(a, i) && RecordAgrees(a, 0)
    requires k < |a| && Covers(RecordOffset(i), ReadOffsets(a, RecordOffset(i)), k) && (k == 1 || k >= |a| - 4)
    ensures !TagUnread(a)
  {
    var other: byte := if a[k] == 0 then 1 else 0;
    var b := a[k := other];
    assert SameButTag(a, b);
    if Parse(b) == Parse(a) {
      SameSignature(a, b, i);
      SameReferences(a, b, i);
      CoveredByteFixed(a, b, RecordOffset(i), ReadOffsets(a, RecordOffset(i)), k);
      assert false;
    }
  }

  lemma SameSignature(a: seq<byte>, b: seq<byte>, i: nat)
    requires Acceptable(a) && Parse(a) == Parse(b) && b != [] && i < a[0] == b[0]
    ensures SignatureAt(a, i) == SignatureAt(b, i)
  {
    CheckExact(a);
    CheckExact(b);
    assert Slots(a, a[0])[i] == SignatureAt(a, i);
    assert Slots(b, b[0])[i] == SignatureAt(b, i);
  }

  /** `a` and `b` agree on everything the record at `at` covers. */
  ghost predicate Agree(a: seq<byte>, b: seq<byte>, at: nat, o: Offsets) {
    && |a| == |b| && at + OFFSETS_SIZE <= |a| && Readable(a, o)
    && a[at..at + OFFSETS_SIZE] == b[at..at + OFFSETS_SIZE]
    && a[o.pubkeyOffset..o.pubkeyOffset + PUBKEY_SIZE] == b[o.pubkeyOffset..o.pubkeyOffset + PUBKEY_SIZE]
    && a[o.signatureOffset..o.signatureOffset + SIGNATURE_SIZE]
       == b[o.signatureOffset..o.signatureOffset + SIGNATURE_SIZE]
    && a[o.messageOffset..o.messageOffset + o.messageSize] == b[o.messageOffset..o.messageOffset + o.messageSize]
  }

  lemma CoveredByteFixed(a: seq<byte>, b: seq<byte>, at: nat, o: Offsets, k: nat)
    requires Agree(a, b, at, o) && Covers(at, o, k) && k < |a|
    ensures a[k] == b[k]
  {
    if at <= k < at + OFFSETS_SIZE {
      SameByte(a, b, at, OFFSETS_SIZE, k);
    } else if o.pubkeyOffset <= k < o.pubkeyOffset + PUBKEY_SIZE {
      SameByte(a, b, o.pubkeyOffset, PUBKEY_SIZE, k);
    } else if o.signatureOffset <= k < o.signatureOffset + SIGNATURE_SIZE {
      SameByte(a, b, o.signatureOffset, SIGNATURE_SIZE, k);
    } else {
      SameByte(a, b, o.messageOffset, o.messageSize, k);
    }
  }

  /** What is parsed from a record determines every byte the record covers. */
  lemma SameReferences(a: seq<byte>, b: seq<byte>, i: nat)
    requires |a| == |b| && SignatureAt(a, i) == SignatureAt(b, i) && SignatureAt(a, i).Parsed?
    requires RecordOffset(i) + OFFSETS_SIZE <= |a|
    ensures Agree(a, b, RecordOffset(i), ReadOffsets(a, RecordOffset(i)))
  {
    assert ReadOffsets(b, RecordOffset(i)) == ReadOffsets(a, RecordOffset(i));
    SameOffsetBytes(a, b, RecordOffset(i));
  }

  lemma SameByte(a: seq<byte>, b: seq<byte>, from: nat, len: nat, k: nat)
    requires from + len <= |a| && |a| == |b| && from <= k < from + len
    requires a[from..from + len] == b[from..from + len]
    ensures a[k] == b[k]
  {
    assert a[from..from + len][k - from] == b[from..from + len][k - from];
  }

  /** Equal records are equal bytes. */
  lemma SameOffsetBytes(a: seq<byte>, b: seq<byte>, at: nat)
    requires |a| == |b| && at + OFFSETS_SIZE <= |a| && ReadOffsets(a, at) == ReadOffsets(b, at)
    ensures a[at..at + OFFSETS_SIZE] == b[at..at + OFFSETS_SIZE]
  {
    SameU16(a, b, at);
    SameU16(a, b, at + 2);
    SameU16(a, b, at + 4);
    SameU16(a, b, at + 6);
    SameU16(a, b, at + 8);
    SameU16(a, b, at + 10);
    SameU16(a, b, at + 12);
  }

  lemma SameU16(a: seq<byte>, b: seq<byte>, at: nat)
    requires at + 2 <= |a| && at + 2 <= |b| && ReadU16(a, at) == ReadU16(b, at)
    ensures a[at] == b[at] && a[at + 1] == b[at + 1]
  {
  }

  /** One signature whose key is the last 32 bytes of the data, tag included. */
  function KeyOverTag(): (data: seq<byte>)
    ensures |data| == 158
  {
    [1, 0] + EncodeOffsets(KeyOverTagOffsets()) + seq(142, _ => 0)
  }

  function KeyOverTagOffsets(): Offsets {
    Offsets(16, 0, 126, 0, 16, 32, 0)
  }

  /** Such data is accepted, and its tag matters. */
  lemma KeyOverTagRead()
    ensures Acceptable(KeyOverTag()) && !TagUnread(KeyOverTag())
  {
    var data := KeyOverTag();
    ReadEncodedOffsets(data, RecordOffset(0), KeyOverTagOffsets());
    assert KeyOverTagOffsets().messageSize == HEADER_SIZE + FEED_SIZE * 0;
    assert RecordAgrees(data, 0);
    assert !RecordClear(data, 0);
    TagUnreadIff(data);
  }

  /** The four bytes the layout comments put at the end: "SBOD". */
  const TAG: seq<byte> := [83, 66, 79, 68]

  /** An encoding ends with its tag, and is parsed whether or not that is "SBOD". */
  lemma AnyTagParsed(q: Quote)
    requires WellFormed(q)
    ensures |Encode(q)| >= 4 && Encode(q)[|Encode(q)| - 4..] == q.tag
    ensures Parse(Encode(q)) == Ok(Expected(q)) == Parse(Encode(q.(tag := TAG)))
  {
    ParseEncode(q);
    TagAndPaddingIgnored(q, q.padding, TAG);
  }

  lemma TrailerUnchanged(a: seq<byte>, b: seq<byte>)
    requires SameButTag(a, b) && |a| >= 16 && 1 <= a[0] <= MAX_SIGNATURES && a[0] + TRAILER_SIZE <= |a| - 2
    ensures var t, n := |a| - TRAILER_SIZE, a[0];
            b[t - n..t] == a[t - n..t] && ReadU64(b, t) == ReadU64(a, t) && b[t + 8] == a[t + 8]
  {
    var t := |a| - TRAILER_SIZE;
    ReadLeMoved(a, t, b, t, 8);
  }

  /** In particular the tag and padding of an encoded quote do not matter. */
  lemma TagAndPaddingIgnored(q: Quote, padding: byte, tag: seq<byte>)
    requires WellFormed(q) && |tag| == 4
    ensures Parse(Encode(q.(padding := padding, tag := tag))) == Parse(Encode(q))
  {
    var other := q.(padding := padding, tag := tag);
    ParseEncode(q);
    ParseEncode(other);
    ExpectedDependsOn(q, other);
  }

  lemma ExpectedDependsOn(q: Quote, other: Quote)
    requires WellFormed(q) && WellFormed(other) && other == q.(padding := other.padding, tag := other.tag)
    ensures Expected(other) == Expected(q)
  {
  }

  lemma ParseLaidOut(d: seq<byte>, q: Quote)
    requires WellFormed(q) && LaysOut(d, q)
    ensures Parse(d) == Ok(Expected(q))
  {
    LaidOutAcceptable(d, q);
    CheckExact(d);
    DenotedLaidOut(d, q);
  }

  lemma SlotsLaidOut(d: seq<byte>, q: Quote)
    requires WellFormed(q) && LaysOut(d, q)
    ensures Slots(d, |q.signers|) == Expected(q).signatures
  {
    forall i | 0 <= i < |q.signers|
      ensures SignatureAt(d, i) == Expected(q).signatures[i]
    {
      SlotLaidOut(d, q, i);
    }
  }

  lemma DenotedLaidOut(d: seq<byte>, q: Quote)
    requires WellFormed(q) && LaysOut(d, q) && Acceptable(d)
    ensures Denoted(d) == Expected(q)
  {
    SlotsLaidOut(d, q);
    TailLaidOut(d, q);
    assert Denoted(d).signatures == Expected(q).signatures;
  }

  lemma TailLaidOut(d: seq<byte>, q: Quote)
    requires WellFormed(q) && LaysOut(d, q)
    ensures var n, t := |q.signers|, |d| - TRAILER_SIZE;
            && t >= n && d[0] == n && d[t - n..t] == OracleIdxs(q)
            && ReadU64(d, t) == q.slot && d[t + 8] == q.version
  {
    assert d[|d| - TRAILER_SIZE..] == Trailer(q);
    TrailerLaidOut(d, Trailer(q));
  }

  lemma TrailerLaidOut(d: seq<byte>, trailer: seq<byte>)
    requires |trailer| == TRAILER_SIZE <= |d| && d[|d| - TRAILER_SIZE..] == trailer
    ensures ReadU64(d, |d| - TRAILER_SIZE) == ReadU64(trailer, 0) && d[|d| - TRAILER_SIZE + 8] == trailer[8]
  {
    var t := |d| - TRAILER_SIZE;
    assert forall k :: t <= k < |d| ==> d[k] == d[t..][k - t];
    ReadLeMoved(d, t, trailer, 0, 8);
  }
}
