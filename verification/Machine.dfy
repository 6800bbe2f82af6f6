/** Machine integers, 32-byte keys, and the ways a call in the repository can end. */
module Machine {

  datatype Option<+T> = None | Some(value: T)

  const TWO_16 := 0x1_0000
  const TWO_32 := 0x1_0000_0000
  const TWO_64 := 0x1_0000_0000_0000_0000
  const TWO_96 := 0x1_0000_0000_0000_0000_0000_0000
  const TWO_127 := 0x8000_0000_0000_0000_0000_0000_0000_0000
  const TWO_128 := 0x1_0000_0000_0000_0000_0000_0000_0000_0000

  type byte = n: int | 0 <= n < 0x100
  type u16 = n: int | 0 <= n < TWO_16
  type u32 = n: int | 0 <= n < TWO_32
  type u64 = n: int | 0 <= n < TWO_64
  type i64 = n: int | -0x8000_0000_0000_0000 <= n < 0x8000_0000_0000_0000
  type i128 = n: int | -TWO_127 <= n < TWO_127

  /** A public key or a hash: exactly 32 bytes. */
  type Bytes32 = b: seq<byte> | |b| == 32 witness seq(32, _ => 0)

  /** Why a call failed. Reasons of `bail!`, `Err` and panics share one type. */
  datatype Reason =
    // Ed25519Sysvar::parse_instruction
    | DataTooShortForHeader | TooManySignatures | NoSignatures | DataTooShortForTrailer
    | MessageTooShort | MessageNotWholeFeeds | TooManyFeeds
    | InconsistentMessage | IndexMismatch
    // Instructions::extract_ix_data
    | WrongSysvar | InstructionIndexOutOfBounds | NotEd25519Program | InstructionTooShort
    // QuoteVerifier
    | QueueNotSet | SlotHashesNotSet | IxSysvarNotSet | ClockNotSet | QuoteTooOld
    | QueueTooSmall | QueueNotDeserializable | SlotNotFound | SlotHashMismatch | OracleKeyMismatch
    | OracleAccountTooSmall | WrongDiscriminator | SliceOutOfRange
    // SlotHashes
    | InvalidSlotNumber
    // OracleQuote
    | InvalidSignatureIndex | FeedNotFound
    | SourceTooShort | StaleSlot | SlotRegression | BufferTooSmall
    // arithmetic
    | Overflow
    // PullFeedAccountData
    | NotEnoughSamples | IllegalFeedValue
    // TransactionBuilder
    | SolanaMissingSigner | SolanaPayerMismatch | SolanaInstructionsEmpty | SolanaInstructionOverflow
    // Borsh
    | LengthTooLarge

  /** How a call ends.
      `Bail` is an `Err` result, `Panic` aborts the transaction, and `Undefined` is a raw-pointer read or
      reference outside the buffer, for which the source gives no meaning. */
  datatype Outcome<+T> =
    | Ok(value: T)
    | Bail(why: Reason)
    | Panic(why: Reason)
    | Undefined
  {
    predicate IsFailure() {
      !Ok?
    }

    function PropagateFailure<U>(): Outcome<U>
      requires !Ok?
    {
      match this
      case Bail(why) => Bail(why)
      case Panic(why) => Panic(why)
      case Undefined => Undefined
    }

    function Extract(): T
      requires Ok?
    {
      value
    }
  }

  /** No element occurs twice. */
  ghost predicate Distinct<T>(s: seq<T>) {
    forall i, j :: 0 <= i < j < |s| ==> s[i] != s[j]
  }

  /** `a - b` on u64. A build with overflow checks (`checked`) panics on underflow, one without them wraps. */
  function SubU64(checked: bool, a: u64, b: u64): (r: Option<u64>)
    ensures r.None? <==> checked && a < b
    ensures r.Some? ==> (r.value + b) % TWO_64 == a
  {
    if a >= b then Some(a - b)
    else if checked then None
    else Some(a - b + TWO_64)
  }
}
