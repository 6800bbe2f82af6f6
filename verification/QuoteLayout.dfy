/** Packed records of a quote: the header and feed entries of src/on_demand/oracle_quote/feed_info.rs and the
    signature offset record of src/sysvar/ed25519_sysvar.rs. */
module QuoteLayout {
  import opened Machine
  import opened LittleEndian

  const HEADER_SIZE := 32
  const FEED_SIZE := 49
  const OFFSETS_SIZE := 14
  const PUBKEY_SIZE := 32
  const SIGNATURE_SIZE := 64
  const MAX_SIGNATURES := 8
  const MAX_FEEDS := 8
  /** Slot (8), version (1) and tag (4) close every quote. */
  const TRAILER_SIZE := 13

  type Signature = b: seq<byte> | |b| == SIGNATURE_SIZE witness seq(SIGNATURE_SIZE, _ => 0)

  /** The 49 bytes of `PackedFeedInfo`. */
  datatype FeedInfo = FeedInfo(feedId: Bytes32, feedValue: i128, minOracleSamples: byte)

  function EncodeFeed(f: FeedInfo): (b: seq<byte>)
    ensures |b| == FEED_SIZE
  {
    f.feedId + I128Bytes(f.feedValue) + [f.minOracleSamples]
  }

  function DecodeFeed(b: seq<byte>): FeedInfo
    requires |b| == FEED_SIZE
  {
    FeedInfo(b[..32], I128FromBytes(b[32..48]), b[48])
  }

  /** Where the fields of an entry lie. */
  lemma FeedLayout(f: FeedInfo)
    ensures var b := EncodeFeed(f);
            |b| == 49 && b[..32] == f.feedId && b[32..48] == I128Bytes(f.feedValue) && b[48] == f.minOracleSamples
  {
  }

  /** Feed entries and their 49-byte encodings correspond one to one. */
  lemma DecodeEncodeFeed(f: FeedInfo)
    ensures DecodeFeed(EncodeFeed(f)) == f
  {
  }

  lemma EncodeDecodeFeed(b: seq<byte>)
    requires |b| == FEED_SIZE
    ensures EncodeFeed(DecodeFeed(b)) == b
  {
  }

  /** `Ed25519SignatureOffsets`. */
  datatype Offsets = Offsets(
    signatureOffset: u16, signatureIx: u16,
    pubkeyOffset: u16, pubkeyIx: u16,
    messageOffset: u16, messageSize: u16, messageIx: u16)

  function EncodeOffsets(o: Offsets): (b: seq<byte>)
    ensures |b| == OFFSETS_SIZE
  {
    U16Bytes(o.signatureOffset) + U16Bytes(o.signatureIx)
    + U16Bytes(o.pubkeyOffset) + U16Bytes(o.pubkeyIx)
    + U16Bytes(o.messageOffset) + U16Bytes(o.messageSize) + U16Bytes(o.messageIx)
  }

  function ReadOffsets(data: seq<byte>, at: nat): Offsets
    requires at + OFFSETS_SIZE <= |data|
  {
    Offsets(
      ReadU16(data, at), ReadU16(data, at + 2),
      ReadU16(data, at + 4), ReadU16(data, at + 6),
      ReadU16(data, at + 8), ReadU16(data, at + 10), ReadU16(data, at + 12))
  }

  /** Where the fields of a record lie. */
  lemma OffsetsLayout(o: Offsets)
    ensures var b := EncodeOffsets(o);
            && |b| == 14
            && b[0..2] == U16Bytes(o.signatureOffset) && b[2..4] == U16Bytes(o.signatureIx)
            && b[4..6] == U16Bytes(o.pubkeyOffset) && b[6..8] == U16Bytes(o.pubkeyIx)
            && b[8..10] == U16Bytes(o.messageOffset) && b[10..12] == U16Bytes(o.messageSize)
            && b[12..14] == U16Bytes(o.messageIx)
  {
    SixSections(U16Bytes(o.signatureOffset), U16Bytes(o.signatureIx), U16Bytes(o.pubkeyOffset),
                U16Bytes(o.pubkeyIx), U16Bytes(o.messageOffset), U16Bytes(o.messageSize) + U16Bytes(o.messageIx));
    assert EncodeOffsets(o)
        == U16Bytes(o.signatureOffset) + U16Bytes(o.signatureIx) + U16Bytes(o.pubkeyOffset) + U16Bytes(o.pubkeyIx)
           + U16Bytes(o.messageOffset) + (U16Bytes(o.messageSize) + U16Bytes(o.messageIx));
  }

  lemma ReadEncodedOffsets(data: seq<byte>, at: nat, o: Offsets)
    requires at + OFFSETS_SIZE <= |data| && data[at..at + OFFSETS_SIZE] == EncodeOffsets(o)
    ensures ReadOffsets(data, at) == o
  {
    OffsetsLayout(o);
    FieldAt(data, at, EncodeOffsets(o), 0, o.signatureOffset);
    FieldAt(data, at, EncodeOffsets(o), 2, o.signatureIx);
    FieldAt(data, at, EncodeOffsets(o), 4, o.pubkeyOffset);
    FieldAt(data, at, EncodeOffsets(o), 6, o.pubkeyIx);
    FieldAt(data, at, EncodeOffsets(o), 8, o.messageOffset);
    FieldAt(data, at, EncodeOffsets(o), 10, o.messageSize);
    FieldAt(data, at, EncodeOffsets(o), 12, o.messageIx);
  }

  lemma FieldAt(data: seq<byte>, at: nat, record: seq<byte>, k: nat, v: u16)
    requires at + |record| <= |data| && data[at..at + |record|] == record
    requires k + 2 <= |record| && record[k..k + 2] == U16Bytes(v)
    ensures ReadU16(data, at + k) == v
  {
    SliceInside(data, at, at + |record|, k, 2);
    ReadU16At(data, at + k, v);
  }

  // Lists of records.

  function EncodeFeeds(feeds: seq<FeedInfo>): seq<byte> {
    Flatten(seq(|feeds|, i requires 0 <= i < |feeds| => EncodeFeed(feeds[i])))
  }

  /** Feed `i` of a message: byte 32 + 49 i onward. */
  function FeedAt(message: seq<byte>, i: nat): FeedInfo
    requires HEADER_SIZE + FEED_SIZE * (i + 1) <= |message|
  {
    DecodeFeed(message[HEADER_SIZE + FEED_SIZE * i..HEADER_SIZE + FEED_SIZE * (i + 1)])
  }

  function FeedsOf(message: seq<byte>): seq<FeedInfo>
    requires |message| >= HEADER_SIZE
  {
    seq((|message| - HEADER_SIZE) / FEED_SIZE, i requires 0 <= i < (|message| - HEADER_SIZE) / FEED_SIZE =>
      FeedAt(message, i))
  }

  /** A signed message: the slot hash, then the feeds. */
  function EncodeMessage(header: Bytes32, feeds: seq<FeedInfo>): (m: seq<byte>)
    ensures |m| == HEADER_SIZE + FEED_SIZE * |feeds|
    ensures m[..HEADER_SIZE] == header
  {
    FlattenLength(seq(|feeds|, i requires 0 <= i < |feeds| => EncodeFeed(feeds[i])), FEED_SIZE);
    header + EncodeFeeds(feeds)
  }

  lemma FeedsOfEncoded(header: Bytes32, feeds: seq<FeedInfo>)
    ensures FeedsOf(EncodeMessage(header, feeds)) == feeds
  {
    var m := EncodeMessage(header, feeds);
    var parts := seq(|feeds|, i requires 0 <= i < |feeds| => EncodeFeed(feeds[i]));
    assert (|m| - HEADER_SIZE) / FEED_SIZE == |feeds|;
    forall i | 0 <= i < |feeds|
      ensures FeedAt(m, i) == feeds[i]
    {
      FlattenAt(parts, FEED_SIZE, i, i * FEED_SIZE);
      assert m[HEADER_SIZE + FEED_SIZE * i..HEADER_SIZE + FEED_SIZE * (i + 1)]
          == Flatten(parts)[i * FEED_SIZE..i * FEED_SIZE + FEED_SIZE];
      DecodeEncodeFeed(feeds[i]);
    }
  }
}
