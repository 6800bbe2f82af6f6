/** `GuardianQuoteVerifyParams` of src/on_demand/instructions/guardian_quote_verify.rs and `InstructionData::data`
    of src/anchor_traits.rs: a hand-written Borsh encoding behind a discriminator. */
module GuardianQuotes {
  import opened Machine
  import opened LittleEndian

  const DISCRIMINATOR: seq<byte> := [168, 36, 93, 156, 157, 150, 148, 45]

  type Bytes64 = b: seq<byte> | |b| == 64 witness seq(64, _ => 0)

  datatype Params = Params(
    timestamp: i64, mrEnclave: Bytes32, idx: u32, ed25519Key: Bytes32, secp256k1Key: Bytes64, slot: u64,
    signature: Bytes64, recoveryId: byte, advisories: seq<u32>)

  /** Bytes of the fixed-width fields. */
  const FIXED_SIZE := 213
  /** Where the advisory count stands behind the discriminator and the fixed fields. */
  const COUNT_AT := 8 + FIXED_SIZE

  function FixedFields(p: Params): (b: seq<byte>)
    ensures |b| == FIXED_SIZE
  {
    I64Bytes(p.timestamp) + p.mrEnclave + U32Bytes(p.idx) + p.ed25519Key + p.secp256k1Key
    + (U64Bytes(p.slot) + p.signature + [p.recoveryId])
  }

  function Words(v: seq<u32>): seq<seq<byte>> {
    seq(|v|, i requires 0 <= i < |v| => U32Bytes(v[i]))
  }

  /** A Borsh vector: u32 count, then the elements. */
  function VectorBytes(v: seq<u32>): seq<byte>
    requires |v| < TWO_32
  {
    U32Bytes(|v|) + Flatten(Words(v))
  }

  /** The Borsh encoding; `Bail` where the vector is too long for its count. */
  function BorshBytes(p: Params): Outcome<seq<byte>> {
    if |p.advisories| < TWO_32 then Ok(FixedFields(p) + VectorBytes(p.advisories)) else Bail(LengthTooLarge)
  }

  /** `data()`: `expect` turns a serialization error into a panic. */
  function Data(p: Params): Outcome<seq<byte>> {
    match BorshBytes(p)
    case Ok(b) => Ok(DISCRIMINATOR + b)
    case _ => Panic(LengthTooLarge)
  }

  class Writer {
    var bytes: seq<byte>

    constructor ()
      ensures bytes == []
    {
      bytes := [];
    }

    method WriteAll(b: seq<byte>)
      modifies this
      ensures bytes == old(bytes) + b
    {
      bytes := bytes + b;
    }
  }

  /** Appends field after field; an oversized vector fails after the fixed fields were written. */
  method Serialize(p: Params, writer: Writer) returns (r: Outcome<()>)
    modifies writer
    ensures r.Ok? <==> BorshBytes(p).Ok?
    ensures r.Ok? ==> writer.bytes == old(writer.bytes) + BorshBytes(p).value
    ensures !r.Ok? ==> r == Bail(LengthTooLarge) && writer.bytes == old(writer.bytes) + FixedFields(p)
  {
    ghost var was := writer.bytes;
    writer.WriteAll(I64Bytes(p.timestamp));
    writer.WriteAll(p.mrEnclave);
    writer.WriteAll(U32Bytes(p.idx));
    writer.WriteAll(p.ed25519Key);
    writer.WriteAll(p.secp256k1Key);
    writer.WriteAll(U64Bytes(p.slot));
    writer.WriteAll(p.signature);
    writer.WriteAll([p.recoveryId]);
    EightAppended(was, I64Bytes(p.timestamp), p.mrEnclave, U32Bytes(p.idx), p.ed25519Key, p.secp256k1Key,
                  U64Bytes(p.slot), p.signature, [p.recoveryId]);
    if |p.advisories| >= TWO_32 {
      return Bail(LengthTooLarge);
    }
    writer.WriteAll(VectorBytes(p.advisories));
    TwoAppended(was, FixedFields(p), VectorBytes(p.advisories));
    r := Ok(());
  }

  lemma EightAppended(
    was: seq<byte>, a: seq<byte>, b: seq<byte>, c: seq<byte>, d: seq<byte>, e: seq<byte>, f: seq<byte>, g: seq<byte>,
    h: seq<byte>)
    ensures was + a + b + c + d + e + f + g + h == was + (a + b + c + d + e + (f + g + h))
  {
  }

  lemma TwoAppended(was: seq<byte>, a: seq<byte>, b: seq<byte>)
    ensures was + a + b == was + (a + b)
  {
  }

  method InstructionBytes(p: Params) returns (r: Outcome<seq<byte>>)
    ensures r == Data(p)
  {
    var d := DISCRIMINATOR;
    var writer := new Writer();
    var written := Serialize(p, writer);
    if !written.Ok? {
      return Panic(LengthTooLarge);
    }
    assert writer.bytes == BorshBytes(p).value;
    r := Ok(d + writer.bytes);
  }

  // ---- layout ----

  /** Only a list too long for its count cannot be encoded. */
  lemma DataDefinedIff(p: Params)
    ensures Data(p).Ok? <==> |p.advisories| < 0x1_0000_0000
    ensures !Data(p).Ok? ==> Data(p) == Panic(LengthTooLarge)
  {
  }

  /** Where the fields lie behind the discriminator. */
  lemma DataSections(p: Params)
    requires Data(p).Ok?
    ensures var b := Data(p).value;
            && |b| == 225 + 4 * |p.advisories|
            && b[..8] == DISCRIMINATOR && b[8..16] == I64Bytes(p.timestamp) && b[16..48] == p.mrEnclave
            && b[48..52] == U32Bytes(p.idx) && b[52..84] == p.ed25519Key && b[84..148] == p.secp256k1Key
            && b[148..156] == U64Bytes(p.slot) && b[156..220] == p.signature && b[220] == p.recoveryId
            && b[221..225] == U32Bytes(|p.advisories|)
  {
    var b, f := Data(p).value, FixedFields(p);
    FlattenLength(Words(p.advisories), 4);
    assert b == DISCRIMINATOR + f + U32Bytes(|p.advisories|) + Flatten(Words(p.advisories)) + [] + [];
    SixSections(DISCRIMINATOR, f, U32Bytes(|p.advisories|), Flatten(Words(p.advisories)), [], []);
    FixedSections(p);
    FixedInside(b, f);
  }

  lemma FixedSections(p: Params)
    ensures var f := FixedFields(p);
            && f[..8] == I64Bytes(p.timestamp) && f[8..40] == p.mrEnclave && f[40..44] == U32Bytes(p.idx)
            && f[44..76] == p.ed25519Key && f[76..140] == p.secp256k1Key && f[140..148] == U64Bytes(p.slot)
            && f[148..212] == p.signature && f[212] == p.recoveryId
  {
    var f, last := FixedFields(p), U64Bytes(p.slot) + p.signature + [p.recoveryId];
    SixSections(I64Bytes(p.timestamp), p.mrEnclave, U32Bytes(p.idx), p.ed25519Key, p.secp256k1Key, last);
    assert f[140..148] == last[..8] == U64Bytes(p.slot);
    assert f[148..212] == last[8..72] == p.signature;
    assert f[212] == last[72];
  }

  lemma FixedInside(b: seq<byte>, f: seq<byte>)
    requires |f| == FIXED_SIZE && |b| >= 221 && b[8..221] == f
    ensures b[8..16] == f[..8] && b[16..48] == f[8..40] && b[48..52] == f[40..44] && b[52..84] == f[44..76]
    ensures b[84..148] == f[76..140] && b[148..156] == f[140..148] && b[156..220] == f[148..212] && b[220] == f[212]
  {
    assert b[220] == b[8..221][212];
  }

  /** Advisory `i` stands at byte 225 + 4 i. */
  lemma AdvisoryAt(p: Params, i: nat)
    requires Data(p).Ok? && i < |p.advisories|
    ensures 225 + 4 * i + 4 <= |Data(p).value|
    ensures Data(p).value[225 + 4 * i..225 + 4 * i + 4] == U32Bytes(p.advisories[i])
  {
    var b, words := Data(p).value, Words(p.advisories);
    FlattenLength(words, 4);
    assert b == DISCRIMINATOR + FixedFields(p) + U32Bytes(|p.advisories|) + Flatten(words) + [] + [];
    SixSections(DISCRIMINATOR, FixedFields(p), U32Bytes(|p.advisories|), Flatten(words), [], []);
    RecordAt(b, 225, 225 + 4 * |p.advisories|, words, 4, i, 4 * i);
  }

  // ---- reference decoder ----

  function DecodeWords(b: seq<byte>, count: nat): seq<u32>
    requires |b| >= 4 * count
  {
    seq(count, i requires 0 <= i < count => ReadU32(b, 4 * i))
  }

  function DecodeFixed(b: seq<byte>, advisories: seq<u32>): Params
    requires |b| == FIXED_SIZE
  {
    Params(I64FromBytes(b[..8]), b[8..40], ReadU32(b, 40), b[44..76], b[76..140], ReadU64(b, 140),
           b[148..212], b[212], advisories)
  }

  /** Splits off one encoded instruction, with the bytes that follow it. */
  function Decode(b: seq<byte>): Option<(Params, seq<byte>)> {
    if |b| < COUNT_AT + 4 || b[..8] != DISCRIMINATOR then None
    else
      var count := ReadU32(b, COUNT_AT);
      var tail := b[COUNT_AT + 4..];
      if |tail| < 4 * count then None
      else Some((DecodeFixed(b[8..COUNT_AT], DecodeWords(tail, count)), tail[4 * count..]))
  }

  lemma FixedRoundTrip(p: Params)
    ensures DecodeFixed(FixedFields(p), p.advisories) == p
  {
    var b := FixedFields(p);
    FixedSections(p);
    ReadU32At(b, 40, p.idx);
    ReadU64At(b, 140, p.slot);
    I64Unique(b[..8], p.timestamp);
  }

  lemma I64Unique(b: seq<byte>, n: i64)
    requires |b| == 8 && b == I64Bytes(n)
    ensures I64FromBytes(b) == n
  {
  }

  lemma WordsRoundTrip(v: seq<u32>, rest: seq<byte>)
    ensures |Flatten(Words(v)) + rest| >= 4 * |v| && |Flatten(Words(v))| == 4 * |v|
    ensures DecodeWords(Flatten(Words(v)) + rest, |v|) == v
  {
    var f := Flatten(Words(v));
    FlattenLength(Words(v), 4);
    forall i | 0 <= i < |v|
      ensures ReadU32(f + rest, 4 * i) == v[i]
    {
      FlattenAt(Words(v), 4, i, i * 4);
      assert (f + rest)[4 * i..4 * i + 4] == f[i * 4..i * 4 + 4];
      ReadU32At(f + rest, 4 * i, v[i]);
    }
  }

  /** Round trip: decoding the instruction data gives back every field, for an advisory list of any encodable
      length, and leaves whatever follows untouched. */
  lemma DataRoundTrip(p: Params, rest: seq<byte>)
    requires |p.advisories| < TWO_32
    ensures Data(p).Ok? && Decode(Data(p).value + rest) == Some((p, rest))
  {
    var f, count, words := FixedFields(p), U32Bytes(|p.advisories|), Flatten(Words(p.advisories));
    var b := Data(p).value + rest;
    assert b == DISCRIMINATOR + f + count + words + rest + [];
    SixSections(DISCRIMINATOR, f, count, words, rest, []);
    ReadU32At(b, COUNT_AT, |p.advisories|);
    assert b[COUNT_AT + 4..] == words + rest;
    WordsRoundTrip(p.advisories, rest);
    assert (words + rest)[4 * |p.advisories|..] == rest;
    FixedRoundTrip(p);
  }

  /** Prefix-free: no instruction's data is a proper prefix of another's, and equal data means equal fields. */
  lemma DataPrefixFree(p: Params, q: Params)
    requires Data(p).Ok? && Data(q).Ok? && Data(p).value <= Data(q).value
    ensures p == q
  {
    var rest := Data(q).value[|Data(p).value|..];
    DataRoundTrip(p, rest);
    DataRoundTrip(q, []);
    assert Data(p).value + rest == Data(q).value + [];
  }

  // ---- the other direction ----

  lemma FixedCanonical(b: seq<byte>, v: seq<u32>)
    requires |b| == FIXED_SIZE
    ensures FixedFields(DecodeFixed(b, v)) == b
  {
    U32Canonical(b, 40);
    U64Canonical(b, 140);
    assert b[140..] == b[140..148] + b[148..212] + [b[212]];
    assert b == b[..8] + b[8..40] + b[40..44] + b[44..76] + b[76..140] + b[140..];
  }

  lemma U32Canonical(b: seq<byte>, at: nat)
    requires at + 4 <= |b|
    ensures U32Bytes(ReadU32(b, at)) == b[at..at + 4]
  {
    ReadLeInjective(U32Bytes(ReadU32(b, at)), 0, b, at, 4);
  }

  lemma U64Canonical(b: seq<byte>, at: nat)
    requires at + 8 <= |b|
    ensures U64Bytes(ReadU64(b, at)) == b[at..at + 8]
  {
    ReadLeInjective(U64Bytes(ReadU64(b, at)), 0, b, at, 8);
  }

  lemma {:induction false} WordsCanonical(b: seq<byte>, count: nat)
    requires |b| >= 4 * count
    ensures Flatten(Words(DecodeWords(b, count))) == b[..4 * count]
    decreases count
  {
    var v := DecodeWords(b, count);
    if count > 0 {
      var tail := b[4..];
      forall i | 0 <= i < count - 1
        ensures ReadU32(tail, 4 * i) == ReadU32(b, 4 * (i + 1))
      {
        ReadLeMoved(tail, 4 * i, b, 4 * (i + 1), 4);
      }
      assert v[1..] == DecodeWords(tail, count - 1);
      assert Words(v)[1..] == Words(v[1..]);
      WordsCanonical(tail, count - 1);
      U32Canonical(b, 0);
      assert b[..4 * count] == b[0..4] + tail[..4 * (count - 1)];
    }
  }

  /** Whatever decodes is the encoding of what it decodes to: there is one encoding per instruction. */
  lemma DecodeCanonical(b: seq<byte>)
    requires Decode(b).Some?
    ensures var (p, rest) := Decode(b).value;
            Data(p).Ok? && Data(p).value + rest == b
  {
    var count: nat := ReadU32(b, COUNT_AT);
    var tail := b[COUNT_AT + 4..];
    var v := DecodeWords(tail, count);
    FixedCanonical(b[8..COUNT_AT], v);
    U32Canonical(b, COUNT_AT);
    WordsCanonical(tail, count);
    DataOf(DecodeFixed(b[8..COUNT_AT], v), b[8..COUNT_AT], b[COUNT_AT..COUNT_AT + 4], tail[..4 * count]);
    Rejoin(b, COUNT_AT, 4 * count);
  }

  lemma DataOf(p: Params, fixed: seq<byte>, count: seq<byte>, words: seq<byte>)
    requires |p.advisories| < TWO_32 && FixedFields(p) == fixed
    requires U32Bytes(|p.advisories|) == count && Flatten(Words(p.advisories)) == words
    ensures Data(p) == Ok(DISCRIMINATOR + (fixed + (count + words)))
  {
  }

  /** A byte string cut into discriminator, fixed fields, count, vector and rest. */
  lemma Rejoin(b: seq<byte>, at: nat, len: nat)
    requires 8 <= at && at + 4 + len <= |b|
    ensures var tail := b[at + 4..];
            b[..8] + (b[8..at] + (b[at..at + 4] + tail[..len])) + tail[len..] == b
  {
  }
}
