/** Word-wise comparison of 32-byte keys and hashes (src/utils.rs), and the well-known Solana addresses. */
module Keys {
  import opened Machine
  import opened LittleEndian

  /** Base58 `Ed25519SigVerify111111111111111111111111111`. */
  const ED25519_PROGRAM_ID: Bytes32 := [
    3, 125, 70, 214, 124, 147, 251, 190, 18, 249, 66, 143, 131, 141, 64, 255,
    5, 112, 116, 73, 39, 244, 138, 100, 252, 202, 112, 68, 128, 0, 0, 0]

  /** Base58 `Sysvar1nstructions1111111111111111111111111`. */
  const INSTRUCTIONS_SYSVAR_ID: Bytes32 := [
    6, 167, 213, 23, 24, 123, 209, 102, 53, 218, 212, 4, 85, 253, 194, 192,
    193, 36, 198, 143, 33, 86, 117, 165, 219, 186, 203, 95, 8, 0, 0, 0]

  /** Base58 `SysvarS1otHashes111111111111111111111111111`. */
  const SLOT_HASHES_SYSVAR_ID: Bytes32 := [
    6, 167, 213, 23, 25, 47, 10, 175, 198, 242, 101, 227, 251, 119, 204, 122,
    218, 130, 197, 41, 208, 190, 59, 19, 110, 45, 0, 85, 32, 0, 0, 0]

  /** `check_p64_eq`: four unaligned u64 reads from each side. Comparing four little-endian words is comparing
      all 32 bytes. */
  predicate CheckP64Eq(lhs: Bytes32, rhs: Bytes32): (r: bool)
    ensures r <==> lhs == rhs
  {
    WordsDetermineBytes(lhs, rhs);
    && ReadU64(lhs, 0) == ReadU64(rhs, 0)
    && ReadU64(lhs, 8) == ReadU64(rhs, 8)
    && ReadU64(lhs, 16) == ReadU64(rhs, 16)
    && ReadU64(lhs, 24) == ReadU64(rhs, 24)
  }

  /** `check_pubkey_eq` makes the same four comparisons. */
  predicate CheckPubkeyEq(lhs: Bytes32, rhs: Bytes32): (r: bool)
    ensures r <==> lhs == rhs
  {
    CheckP64Eq(lhs, rhs)
  }

  lemma WordsDetermineBytes(lhs: Bytes32, rhs: Bytes32)
    ensures (forall w :: 0 <= w < 4 ==> ReadU64(lhs, 8 * w) == ReadU64(rhs, 8 * w)) <==> lhs == rhs
  {
    if forall w :: 0 <= w < 4 ==> ReadU64(lhs, 8 * w) == ReadU64(rhs, 8 * w) {
      assert ReadU64(lhs, 8 * 0) == ReadU64(rhs, 8 * 0);
      assert ReadU64(lhs, 8 * 1) == ReadU64(rhs, 8 * 1);
      assert ReadU64(lhs, 8 * 2) == ReadU64(rhs, 8 * 2);
      assert ReadU64(lhs, 8 * 3) == ReadU64(rhs, 8 * 3);
      ReadLeInjective(lhs, 0, rhs, 0, 8);
      ReadLeInjective(lhs, 8, rhs, 8, 8);
      ReadLeInjective(lhs, 16, rhs, 16, 8);
      ReadLeInjective(lhs, 24, rhs, 24, 8);
      assert lhs == lhs[0..8] + lhs[8..16] + lhs[16..24] + lhs[24..32];
      assert rhs == rhs[0..8] + rhs[8..16] + rhs[16..24] + rhs[24..32];
    }
  }
}
