/** The checksum preimages of src/on_demand/accounts/pull_feed.rs. SHA-256 is an arbitrary function here. */
module Checksums {
  import opened Machine
  import opened LittleEndian

  datatype Fields = Fields(
    queue: Bytes32, feedHash: Bytes32, result: i128, slothash: Bytes32, maxVariance: u64, minResponses: u32)

  const PLAIN_SIZE := 124
  const TIMESTAMPED_SIZE := 132

  /** The bytes fed to the hasher, in order. */
  function Preimage(f: Fields): (b: seq<byte>)
    ensures |b| == PLAIN_SIZE
  {
    f.queue + f.feedHash + I128Bytes(f.result) + f.slothash + U64Bytes(f.maxVariance) + U32Bytes(f.minResponses)
  }

  function TimestampedPreimage(f: Fields, timestamp: u64): (b: seq<byte>)
    ensures |b| == TIMESTAMPED_SIZE
  {
    Preimage(f) + U64Bytes(timestamp)
  }

  /** A mutable hasher. */
  class Hasher {
    var fed: seq<byte>

    constructor ()
      ensures fed == []
    {
      fed := [];
    }

    method Update(bytes: seq<byte>)
      modifies this
      ensures fed == old(fed) + bytes
    {
      fed := fed + bytes;
    }
  }

  method GenerateChecksumInner(f: Fields, sha256: seq<byte> -> Bytes32) returns (digest: Bytes32)
    ensures digest == sha256(Preimage(f))
  {
    var hasher := new Hasher();
    hasher.Update(f.queue);
    hasher.Update(f.feedHash);
    hasher.Update(I128Bytes(f.result));
    hasher.Update(f.slothash);
    hasher.Update(U64Bytes(f.maxVariance));
    hasher.Update(U32Bytes(f.minResponses));
    assert hasher.fed == Preimage(f);
    digest := sha256(hasher.fed);
  }

  method GenerateChecksumWithTimestamp(f: Fields, timestamp: u64, sha256: seq<byte> -> Bytes32)
    returns (digest: Bytes32)
    ensures digest == sha256(TimestampedPreimage(f, timestamp))
  {
    var hasher := new Hasher();
    hasher.Update(f.queue);
    hasher.Update(f.feedHash);
    hasher.Update(I128Bytes(f.result));
    hasher.Update(f.slothash);
    hasher.Update(U64Bytes(f.maxVariance));
    hasher.Update(U32Bytes(f.minResponses));
    hasher.Update(U64Bytes(timestamp));
    assert hasher.fed == TimestampedPreimage(f, timestamp);
    digest := sha256(hasher.fed);
  }

  /** Where the fields lie. */
  lemma PreimageSections(f: Fields)
    ensures var b := Preimage(f);
            && b[..32] == f.queue && b[32..64] == f.feedHash && b[64..80] == I128Bytes(f.result)
            && b[80..112] == f.slothash && b[112..120] == U64Bytes(f.maxVariance)
            && b[120..] == U32Bytes(f.minResponses)
  {
  }

  /** The timestamp comes last, behind the six fields. */
  lemma TimestampedSections(f: Fields, timestamp: u64)
    ensures var b := TimestampedPreimage(f, timestamp);
            && b[..32] == f.queue && b[32..64] == f.feedHash && b[64..80] == I128Bytes(f.result)
            && b[80..112] == f.slothash && b[112..120] == U64Bytes(f.maxVariance)
            && b[120..124] == U32Bytes(f.minResponses) && b[124..132] == U64Bytes(timestamp)
  {
    PreimageSections(f);
    var b := TimestampedPreimage(f, timestamp);
    assert b[..124] == Preimage(f);
    SubSlices(b, Preimage(f));
  }

  lemma SubSlices(b: seq<byte>, p: seq<byte>)
    requires |b| >= 124 == |p| && b[..124] == p
    ensures b[..32] == p[..32] && b[32..64] == p[32..64] && b[64..80] == p[64..80]
    ensures b[80..112] == p[80..112] && b[112..120] == p[112..120] && b[120..124] == p[120..]
  {
  }

  /** Equal preimages come from equal fields: fixed widths leave no room for a different reading. */
  lemma PreimageInjective(f: Fields, g: Fields)
    requires Preimage(f) == Preimage(g)
    ensures f == g
  {
    PreimageSections(f);
    PreimageSections(g);
    assert f.result == SignedFromBytes(I128Bytes(f.result)) == SignedFromBytes(I128Bytes(g.result)) == g.result;
    assert f.maxVariance == FromBytes(U64Bytes(f.maxVariance)) == FromBytes(U64Bytes(g.maxVariance)) == g.maxVariance;
    assert f.minResponses == FromBytes(U32Bytes(f.minResponses)) == FromBytes(U32Bytes(g.minResponses));
  }

  /** The timestamped form determines its fields too, and no timestamped preimage is a plain one. */
  lemma TimestampedInjective(f: Fields, s: u64, g: Fields, t: u64)
    ensures TimestampedPreimage(f, s) == TimestampedPreimage(g, t) ==> f == g && s == t
    ensures TimestampedPreimage(f, s) != Preimage(g)
  {
    if TimestampedPreimage(f, s) == TimestampedPreimage(g, t) {
      assert TimestampedPreimage(f, s)[..PLAIN_SIZE] == Preimage(f);
      assert TimestampedPreimage(g, t)[..PLAIN_SIZE] == Preimage(g);
      assert TimestampedPreimage(f, s)[PLAIN_SIZE..] == U64Bytes(s);
      assert TimestampedPreimage(g, t)[PLAIN_SIZE..] == U64Bytes(t);
      PreimageInjective(f, g);
      assert s == FromBytes(U64Bytes(s)) == FromBytes(U64Bytes(t)) == t;
    }
  }
}
