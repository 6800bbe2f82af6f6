/** `OracleQuote` of src/on_demand/oracle_quote/oracle_quote.rs: accessors of a verified quote, and storing a
    record in an oracle account. */
module OracleQuotes {
  import opened Machine
  import opened LittleEndian
  import opened QuoteLayout
  import opened Keys
  import opened InstructionsSysvar

  /** "SBOracle". */
  const DISCRIMINATOR: seq<byte> := [83, 66, 79, 114, 97, 99, 108, 101]

  /** Discriminator, length prefix, and the shortest record that holds a slot. */
  const MIN_ACCOUNT_SIZE := 23

  function Ascii(s: string): seq<int> {
    seq(|s|, i requires 0 <= i < |s| => s[i] as int)
  }

  lemma DiscriminatorSpelled()
    ensures DISCRIMINATOR == Ascii("SBOracle")
  {
  }

  /** Bytes before the record: discriminator and length prefix. */
  const PREFIX_SIZE := 10

  /** An account whose data a program may write. */
  class AccountInfo {
    const key: Bytes32
    const data: array<byte>

    constructor (key: Bytes32, data: array<byte>)
      ensures this.key == key && this.data == data
    {
      this.key := key;
      this.data := data;
    }
  }

  // ---- accessors ----

  datatype OracleQuote = OracleQuote(
    header: Bytes32, oracleCount: byte, packedFeeds: seq<FeedInfo>, feedCount: byte,
    oracleIdxs: seq<byte>, recentSlot: u64, version: byte, rawBuffer: Option<seq<byte>>)

  function Feeds(q: OracleQuote): Outcome<seq<FeedInfo>> {
    if q.feedCount <= |q.packedFeeds| then Ok(q.packedFeeds[..q.feedCount]) else Panic(SliceOutOfRange)
  }

  function OracleIndex(q: OracleQuote, i: nat): Outcome<byte> {
    if i >= q.oracleCount then Bail(InvalidSignatureIndex)
    else if i < |q.oracleIdxs| then Ok(q.oracleIdxs[i])
    else Panic(SliceOutOfRange)
  }

  function FindFeed(feeds: seq<FeedInfo>, feedId: Bytes32): Option<FeedInfo> {
    if feeds == [] then None
    else if feeds[0].feedId == feedId then Some(feeds[0])
    else FindFeed(feeds[1..], feedId)
  }

  function Feed(q: OracleQuote, feedId: Bytes32): Outcome<FeedInfo> {
    var feeds :- Feeds(q);
    match FindFeed(feeds, feedId)
    case None => Bail(FeedNotFound)
    case Some(info) => Ok(info)
  }

  /** The lookup returns the first feed with the identifier, and fails exactly when no feed has it. */
  lemma {:induction false} FindFeedExact(feeds: seq<FeedInfo>, feedId: Bytes32)
    ensures match FindFeed(feeds, feedId)
            case None => forall i :: 0 <= i < |feeds| ==> feeds[i].feedId != feedId
            case Some(info) =>
              exists i :: 0 <= i < |feeds| && feeds[i] == info && info.feedId == feedId
                          && forall j :: 0 <= j < i ==> feeds[j].feedId != feedId
  {
    if feeds != [] && feeds[0].feedId != feedId {
      FindFeedExact(feeds[1..], feedId);
      var rest := FindFeed(feeds[1..], feedId);
      if rest.Some? {
        var i :| 0 <= i < |feeds[1..]| && feeds[1..][i] == rest.value && rest.value.feedId == feedId
                 && forall j :: 0 <= j < i ==> feeds[1..][j].feedId != feedId;
        assert feeds[i + 1] == rest.value;
        assert forall j :: 1 <= j < i + 1 ==> feeds[j] == feeds[1..][j - 1];
      } else {
        assert forall j :: 1 <= j < |feeds| ==> feeds[j] == feeds[1..][j - 1];
      }
    }
  }

  // ---- storing ----

  /** The slot 13 bytes from the end of a record or buffer. */
  function SlotOf(data: seq<byte>): u64
    requires |data| >= TRAILER_SIZE
  {
    ReadU64(data, |data| - TRAILER_SIZE)
  }

  function ValidateSlotProgression(clockSlot: u64, source: seq<byte>, existing: seq<byte>): Outcome<()> {
    if |source| < TRAILER_SIZE then Panic(SourceTooShort)
    else if SlotOf(source) >= clockSlot then Panic(StaleSlot)
    else if |existing| >= TRAILER_SIZE && SlotOf(source) < SlotOf(existing) then Panic(SlotRegression)
    else Ok(())
  }

  function StoreOutcome(clockSlot: u64, source: seq<byte>, dst: seq<byte>): (r: Outcome<()>)
    ensures r.Ok? ==> TRAILER_SIZE <= |source| && |source| + 2 <= |dst|
  {
    var _ :- ValidateSlotProgression(clockSlot, source, dst);
    if |source| + 2 > |dst| then Panic(BufferTooSmall) else Ok(())
  }

  /** The length, truncated to 16 bits, then the source; later bytes stay. */
  function Delimited(source: seq<byte>, dst: seq<byte>): (r: seq<byte>)
    requires |source| + 2 <= |dst|
    ensures |r| == |dst|
  {
    U16Bytes(|source| % TWO_16) + source + dst[|source| + 2..]
  }

  /** Stores into `dst[from..]`, in place. */
  method StoreDelimited(clockSlot: u64, source: seq<byte>, dst: array<byte>, from: nat) returns (r: Outcome<()>)
    requires from <= dst.Length
    modifies dst
    ensures r == StoreOutcome(clockSlot, source, old(dst[from..]))
    ensures r.Ok? ==> dst[..] == old(dst[..from]) + Delimited(source, old(dst[from..]))
    ensures !r.Ok? ==> dst[..] == old(dst[..])
  {
    var check := ValidateSlotProgression(clockSlot, source, dst[from..]);
    if !check.Ok? {
      return check;
    }
    if |source| + 2 > dst.Length - from {
      return Panic(BufferTooSmall);
    }
    var prefix := U16Bytes(|source| % TWO_16);
    dst[from], dst[from + 1] := prefix[0], prefix[1];
    forall i | 0 <= i < |source| {
      dst[from + 2 + i] := source[i];
    }
    r := Ok(());
  }

  function WriteOutcome(clockSlot: u64, source: seq<byte>, account: seq<byte>): (r: Outcome<()>)
    ensures r.Ok? ==> |account| >= MIN_ACCOUNT_SIZE && TRAILER_SIZE <= |source| && |source| + PREFIX_SIZE <= |account|
  {
    if |account| < MIN_ACCOUNT_SIZE then Panic(BufferTooSmall)
    else StoreOutcome(clockSlot, source, account[8..])
  }

  function Written(source: seq<byte>, account: seq<byte>): (r: seq<byte>)
    requires |source| + PREFIX_SIZE <= |account|
    ensures |r| == |account|
  {
    DISCRIMINATOR + Delimited(source, account[8..])
  }

  /** The discriminator is written before the validation, so a panicking call leaves it behind; the
      transaction is then discarded. */
  method Write(clockSlot: u64, source: seq<byte>, account: AccountInfo) returns (r: Outcome<()>)
    modifies account.data
    ensures r == WriteOutcome(clockSlot, source, old(account.data[..]))
    ensures r.Ok? ==> account.data[..] == Written(source, old(account.data[..]))
    ensures !r.Ok? ==> account.data[..] == if account.data.Length < MIN_ACCOUNT_SIZE then old(account.data[..])
                                           else DISCRIMINATOR + old(account.data[8..])
  {
    var dst := account.data;
    if dst.Length < MIN_ACCOUNT_SIZE {
      return Panic(BufferTooSmall);
    }
    forall i | 0 <= i < 8 {
      dst[i] := DISCRIMINATOR[i];
    }
    assert dst[8..] == old(account.data[8..]);
    assert dst[..8] == DISCRIMINATOR;
    r := StoreDelimited(clockSlot, source, dst, 8);
  }

  method WriteFromIx(sysvar: Account, account: AccountInfo, currSlot: u64, instructionIndex: nat)
    returns (r: Outcome<()>)
    modifies account.data
    ensures r == WriteFromIxOutcome(sysvar, old(account.data[..]), currSlot, instructionIndex)
    ensures r.Ok? ==> account.data[..] == Written(Extract(sysvar, instructionIndex).value, old(account.data[..]))
    ensures !r.Ok? ==>
              account.data[..] == if !Extract(sysvar, instructionIndex).Ok? || account.data.Length < MIN_ACCOUNT_SIZE
                                  then old(account.data[..])
                                  else DISCRIMINATOR + old(account.data[8..])
  {
    var data := ExtractIxData(sysvar, instructionIndex);
    if !data.Ok? {
      return data.PropagateFailure();
    }
    r := Write(currSlot, data.value, account);
  }

  function WriteFromIxOutcome(sysvar: Account, account: seq<byte>, currSlot: u64, idx: nat): (r: Outcome<()>)
    ensures r.Ok? ==> Extract(sysvar, idx).Ok? && WriteOutcome(currSlot, Extract(sysvar, idx).value, account).Ok?
  {
    var data :- Extract(sysvar, idx);
    WriteOutcome(currSlot, data, account)
  }

  /** Why storing fails, from the bytes alone: each reason, in the source's order. A destination too short to hold a
      slot has none to regress from. */
  lemma StoreFailures(clockSlot: u64, source: seq<byte>, dst: seq<byte>)
    ensures var r, n, s := StoreOutcome(clockSlot, source, dst), |dst|, |source|;
            && (r == Panic(SourceTooShort) <==> s < 13)
            && (r == Panic(StaleSlot) <==> s >= 13 && ReadU64(source, s - 13) >= clockSlot)
            && (s >= 13 && ReadU64(source, s - 13) < clockSlot ==>
                  && (r == Panic(SlotRegression) <==> n >= 13 && ReadU64(source, s - 13) < ReadU64(dst, n - 13))
                  && (r.Ok? <==> s + 2 <= n && (n < 13 || ReadU64(source, s - 13) >= ReadU64(dst, n - 13)))
                  && (!r.Ok? ==> r == Panic(SlotRegression) || r == Panic(BufferTooSmall)))
  {
  }

  /** A write fails as storing behind the discriminator does, or for want of the 23 bytes of a shortest record. */
  lemma WriteFailures(clockSlot: u64, source: seq<byte>, account: seq<byte>)
    ensures |account| < 23 ==> WriteOutcome(clockSlot, source, account) == Panic(BufferTooSmall)
    ensures |account| >= 23 ==>
              WriteOutcome(clockSlot, source, account) == StoreOutcome(clockSlot, source, account[8..])
  {
  }

  /** The bytes a stored record occupies. */
  lemma DelimitedLayout(source: seq<byte>, dst: seq<byte>)
    requires |source| + 2 <= |dst|
    ensures var d := Delimited(source, dst);
            && ReadU16(d, 0) == |source| % 0x1_0000 && d[2..|source| + 2] == source
            && d[|source| + 2..] == dst[|source| + 2..]
  {
    var n := |source| % TWO_16;
    assert Delimited(source, dst) == U16Bytes(n) + source + dst[|source| + 2..] + [] + [] + [];
    SixSections(U16Bytes(n), source, dst[|source| + 2..], [], [], []);
    ReadU16At(Delimited(source, dst), 0, n);
  }

  /** `write_from_ix` is an extraction and then a write: it succeeds exactly where both do, and fails as the first
      that fails. Another account than the instructions sysvar is refused. */
  lemma WriteFromIxExact(sysvar: Account, account: seq<byte>, currSlot: u64, idx: nat)
    ensures var r, data := WriteFromIxOutcome(sysvar, account, currSlot, idx), Extract(sysvar, idx);
            && (r.Ok? <==> data.Ok? && WriteOutcome(currSlot, data.value, account).Ok?)
            && (data.Ok? ==> r == WriteOutcome(currSlot, data.value, account))
            && (!data.Ok? ==> r == data.PropagateFailure())
            && (sysvar.key != INSTRUCTIONS_SYSVAR_ID ==> r == Panic(WrongSysvar))
  {
    ExtractExact(sysvar, idx);
  }

  // ---- loading ----

  /** The record `verify_delimited` passes on. */
  function ReadDelimited(body: seq<byte>): Outcome<seq<byte>> {
    if |body| < 2 then Undefined
    else
      var len := ReadU16(body, 0);
      if len + 2 > |body| then Panic(SliceOutOfRange) else Ok(body[2..len + 2])
  }

  /** The record `verify_account` passes on; the discriminator is compared as one u64. */
  function LoadAccount(account: seq<byte>): Outcome<seq<byte>> {
    if |account| < 8 then Bail(OracleAccountTooSmall)
    else if ReadU64(account, 0) != ReadU64(DISCRIMINATOR, 0) then Bail(WrongDiscriminator)
    else ReadDelimited(account[8..])
  }

  /** Loading succeeds exactly on accounts with the discriminator whose delimited record fits, and yields it. */
  lemma LoadAccountExact(account: seq<byte>)
    ensures LoadAccount(account).Ok? <==>
              && |account| >= PREFIX_SIZE && account[..8] == DISCRIMINATOR
              && ReadU16(account, 8) + PREFIX_SIZE <= |account|
    ensures LoadAccount(account).Ok? ==>
              LoadAccount(account).value == account[PREFIX_SIZE..ReadU16(account, 8) + PREFIX_SIZE]
    ensures LoadAccount(account) == Bail(OracleAccountTooSmall) <==> |account| < 8
    ensures LoadAccount(account) == Bail(WrongDiscriminator) <==> |account| >= 8 && account[..8] != DISCRIMINATOR
    ensures LoadAccount(account) == Undefined <==> 8 <= |account| < 10 && account[..8] == DISCRIMINATOR
    ensures !LoadAccount(account).Ok? && |account| >= 10 && account[..8] == DISCRIMINATOR ==>
              LoadAccount(account) == Panic(SliceOutOfRange)
  {
    if |account| >= 8 {
      FirstWordMatches(account, DISCRIMINATOR);
    }
    if |account| >= PREFIX_SIZE {
      FirstWordMatches(account, DISCRIMINATOR);
      assert ReadU16(account[8..], 0) == ReadU16(account, 8);
      var len := ReadU16(account, 8);
      if len + PREFIX_SIZE <= |account| {
        assert account[8..][2..len + 2] == account[PREFIX_SIZE..len + PREFIX_SIZE];
      }
    }
  }

  /** Comparing the first eight bytes as one u64 is comparing them byte by byte. */
  lemma FirstWordMatches(account: seq<byte>, word: seq<byte>)
    requires |account| >= 8 && |word| == 8
    ensures ReadU64(account, 0) == ReadU64(word, 0) <==> account[..8] == word
  {
    if ReadU64(account, 0) == ReadU64(word, 0) {
      ReadLeInjective(account, 0, word, 0, 8);
      assert account[0..8] == account[..8] && word[0..8] == word;
    }
    if account[..8] == word {
      assert forall k :: 0 <= k < 8 ==> account[k] == account[..8][k];
      ReadLeMoved(account, 0, word, 0, 8);
    }
  }

  /** What loading finds after a write: the source, cut to its length modulo 2^16. */
  lemma LoadWritten(source: seq<byte>, account: seq<byte>)
    requires |source| + PREFIX_SIZE <= |account|
    ensures LoadAccount(Written(source, account)) == Ok(source[..|source| % TWO_16])
  {
    var w := Written(source, account);
    assert w[..8] == DISCRIMINATOR;
    assert w[8..] == Delimited(source, account[8..]);
    FirstWordMatches(w, DISCRIMINATOR);
    ReadDelimitedBack(source, account[8..]);
  }

  lemma ReadDelimitedBack(source: seq<byte>, dst: seq<byte>)
    requires |source| + 2 <= |dst|
    ensures ReadDelimited(Delimited(source, dst)) == Ok(source[..|source| % TWO_16])
  {
    var d, n := Delimited(source, dst), |source| % TWO_16;
    SixSections(U16Bytes(n), source, dst[|source| + 2..], [], [], []);
    assert d == U16Bytes(n) + source + dst[|source| + 2..] + [] + [] + [];
    ReadU16At(d, 0, n);
    SliceInside(d, 2, 2 + |source|, 0, n);
    assert source[0..n] == source[..n];
  }

  /** Store and load: a written record is loaded back exactly when its length fits the 16-bit prefix. */
  lemma StoreLoadIff(source: seq<byte>, account: seq<byte>)
    requires |source| + PREFIX_SIZE <= |account|
    ensures LoadAccount(Written(source, account)) == Ok(source) <==> |source| < TWO_16
  {
    LoadWritten(source, account);
    if |source| < TWO_16 {
      assert source[..|source| % TWO_16] == source;
    } else {
      assert |source[..|source| % TWO_16]| < |source|;
    }
  }

  /** Bytes past the record are unchanged. */
  lemma WrittenKeepsRest(source: seq<byte>, account: seq<byte>)
    requires |source| + PREFIX_SIZE <= |account|
    ensures Written(source, account)[..8] == DISCRIMINATOR && ReadU16(Written(source, account), 8) == |source| % TWO_16
    ensures Written(source, account)[PREFIX_SIZE..|source| + PREFIX_SIZE] == source
    ensures Written(source, account)[|source| + PREFIX_SIZE..] == account[|source| + PREFIX_SIZE..]
  {
  }
}
