/** The slot-hashes sysvar of src/sysvar/slothash_sysvar.rs and the guessed-index search of
    src/on_demand/oracle_quote/quote_verifier.rs: three lookups over one table of 512 entries. */
module SlotHashTable {
  import opened Machine
  import opened Keys

  const TABLE_LEN := 512

  datatype SlotHash = SlotHash(slot: u64, hash: Bytes32)

  type Table = t: seq<SlotHash> | |t| == TABLE_LEN
    witness seq(TABLE_LEN, _ => SlotHash(0, seq(32, _ => 0)))

  /** The sysvar account: its key and its decoded entries, newest slot first. */
  datatype SlotHashesAccount = SlotHashesAccount(key: Bytes32, entries: Table)

  ghost predicate Descending(t: seq<SlotHash>) {
    forall i, j :: 0 <= i < j < |t| ==> t[i].slot > t[j].slot
  }

  ghost predicate Holds(t: seq<SlotHash>, slot: u64) {
    exists i :: 0 <= i < |t| && t[i].slot == slot
  }

  /** In a descending table a slot has at most one index. */
  lemma IndexUnique(t: seq<SlotHash>, i: nat, j: nat)
    requires Descending(t) && i < |t| && j < |t| && t[i].slot == t[j].slot
    ensures i == j
  {
  }

  // ---- find_idx: binary search ----

  /** The standard library's `binary_search_by`: halve [base, base + size), going right while the probe
      does not compare `Greater`. */
  function BinarySearch(t: seq<SlotHash>, slot: u64, base: nat, size: nat): (r: Option<nat>)
    requires size > 0 && base + size <= |t|
    ensures r.Some? ==> r.value < |t| && t[r.value].slot == slot
    decreases size
  {
    if size == 1 then
      if t[base].slot == slot then Some(base) else None
    else
      var half := size / 2;
      // `slot.cmp(&x.slot) == Greater` keeps the left half
      BinarySearch(t, slot, if slot > t[base + half].slot then base else base + half, size - half)
  }

  function FindIdx(t: seq<SlotHash>, slot: u64): (r: Option<nat>)
    ensures r.Some? ==> r.value < |t| && t[r.value].slot == slot
  {
    if t == [] then None else BinarySearch(t, slot, 0, |t|)
  }

  /** Binary search keeps the target, if the table holds it, within its window. */
  lemma {:induction false} BinarySearchComplete(t: seq<SlotHash>, slot: u64, base: nat, size: nat, k: nat)
    requires Descending(t) && size > 0 && base + size <= |t|
    requires base <= k < base + size && t[k].slot == slot
    ensures BinarySearch(t, slot, base, size) == Some(k)
    decreases size
  {
    if size > 1 {
      var half := size / 2;
      if slot > t[base + half].slot {
        BinarySearchComplete(t, slot, base, size - half, k);
      } else {
        BinarySearchComplete(t, slot, base + half, size - half, k);
      }
    }
  }

  /** `find_idx` agrees with linear search on every descending table. */
  lemma FindIdxExact(t: seq<SlotHash>, slot: u64)
    requires Descending(t)
    ensures FindIdx(t, slot).Some? <==> Holds(t, slot)
    ensures forall k :: 0 <= k < |t| && t[k].slot == slot ==> FindIdx(t, slot) == Some(k)
  {
    forall k | 0 <= k < |t| && t[k].slot == slot
      ensures FindIdx(t, slot) == Some(k)
    {
      BinarySearchComplete(t, slot, 0, |t|, k);
    }
  }

  // ---- get_slothash ----

  function GetSlothash(account: SlotHashesAccount, slot: u64): Outcome<Bytes32> {
    if account.key != SLOT_HASHES_SYSVAR_ID then Panic(WrongSysvar)
    else if slot > account.entries[0].slot then Bail(InvalidSlotNumber)
    else
      match FindIdx(account.entries, slot)
      case None => Bail(InvalidSlotNumber)
      case Some(idx) => Ok(account.entries[idx].hash)
  }

  /** `get_slothash` returns the hash stored beside the slot, and fails exactly when the slot is absent. */
  lemma GetSlothashExact(account: SlotHashesAccount, slot: u64)
    requires Descending(account.entries) && account.key == SLOT_HASHES_SYSVAR_ID
    ensures GetSlothash(account, slot).Ok? <==> Holds(account.entries, slot)
    ensures !Holds(account.entries, slot) ==> GetSlothash(account, slot) == Bail(InvalidSlotNumber)
    ensures forall k :: 0 <= k < TABLE_LEN && account.entries[k].slot == slot ==>
                          GetSlothash(account, slot) == Ok(account.entries[k].hash)
  {
    FindIdxExact(account.entries, slot);
  }

  /** On any table, in order or not, a slot above the newest entry's is refused before the search, and a hash that is
      returned stands beside the slot. */
  lemma GetSlothashAnyTable(account: SlotHashesAccount, slot: u64)
    requires account.key == SLOT_HASHES_SYSVAR_ID
    ensures slot > account.entries[0].slot ==> GetSlothash(account, slot) == Bail(InvalidSlotNumber)
    ensures GetSlothash(account, slot).Ok? ==>
              exists k :: 0 <= k < TABLE_LEN && account.entries[k] == SlotHash(slot, GetSlothash(account, slot).value)
  {
    var found := FindIdx(account.entries, slot);
    assert found.Some? ==> account.entries[found.value] == SlotHash(slot, account.entries[found.value].hash);
  }

  /** None of the lookups reads another account: its key alone makes each of them panic. */
  lemma OnlyTheSysvar(checked: bool, account: SlotHashesAccount, slot: u64, low: u16)
    ensures account.key != SLOT_HASHES_SYSVAR_ID <==> GetSlothash(account, slot) == Panic(WrongSysvar)
    ensures account.key != SLOT_HASHES_SYSVAR_ID <==> GetSlothashFromLowerByte(account, low) == Panic(WrongSysvar)
    ensures account.key != SLOT_HASHES_SYSVAR_ID <==> FindSlothash(checked, slot, account) == Panic(WrongSysvar)
  {
  }

  // ---- get_slothash_from_lower_byte ----

  /** `(x & 0xFFFFFFFFFFFF0000) | low` for a 16-bit `low`. */
  function WithLow16(x: u64, low: u16): (r: u64)
    ensures r % TWO_16 == low && r / TWO_16 == x / TWO_16
  {
    x / TWO_16 * TWO_16 + low
  }

  function GetSlothashFromLowerByte(account: SlotHashesAccount, low: u16): Outcome<SlotHash> {
    var upper := WithLow16(account.entries[0].slot, low);
    var lower := WithLow16(account.entries[TABLE_LEN - 1].slot, low);
    match GetSlothash(account, upper)
    case Ok(hash) => Ok(SlotHash(upper, hash))
    case Panic(why) => Panic(why)
    case _ =>
      var hash :- GetSlothash(account, lower);
      Ok(SlotHash(lower, hash))
  }

  /** Entry `k` has the requested low 16 bits. */
  predicate Matches(t: Table, low: u16, k: int) {
    0 <= k < TABLE_LEN && t[k].slot % TWO_16 == low
  }

  /** Entry `k` agrees with the newest or the oldest entry above the low 16 bits. */
  predicate SharesHighPart(t: Table, k: int) {
    0 <= k < TABLE_LEN
    && (t[k].slot / TWO_16 == t[0].slot / TWO_16 || t[k].slot / TWO_16 == t[TABLE_LEN - 1].slot / TWO_16)
  }

  lemma SplitLow16(x: u64, y: u64)
    requires x / TWO_16 == y / TWO_16 && x % TWO_16 == y % TWO_16
    ensures x == y
  {
  }

  /** On any descending table the lookup succeeds exactly when some entry has the requested low bits and a
      high part shared with the newest or oldest entry, and returns such an entry. */
  lemma LowerByteExact(account: SlotHashesAccount, low: u16)
    requires Descending(account.entries) && account.key == SLOT_HASHES_SYSVAR_ID
    ensures var t := account.entries;
            var r := GetSlothashFromLowerByte(account, low);
            && (r.Ok? <==> exists k :: Matches(t, low, k) && SharesHighPart(t, k))
            && (r.Ok? ==> exists k :: Matches(t, low, k) && SharesHighPart(t, k) && r.value == t[k])
            && (!r.Ok? ==> r == Bail(InvalidSlotNumber))
  {
    var t := account.entries;
    var upper, lower := WithLow16(t[0].slot, low), WithLow16(t[TABLE_LEN - 1].slot, low);
    GetSlothashExact(account, upper);
    GetSlothashExact(account, lower);
    if Holds(t, upper) {
      var k :| 0 <= k < TABLE_LEN && t[k].slot == upper;
      assert Matches(t, low, k) && SharesHighPart(t, k) && t[k] == SlotHash(upper, t[k].hash);
    } else if Holds(t, lower) {
      var k :| 0 <= k < TABLE_LEN && t[k].slot == lower;
      assert Matches(t, low, k) && SharesHighPart(t, k) && t[k] == SlotHash(lower, t[k].hash);
    } else {
      forall k | Matches(t, low, k)
        ensures !SharesHighPart(t, k)
      {
        if t[k].slot / TWO_16 == upper / TWO_16 {
          SplitLow16(t[k].slot, upper);
        } else if t[k].slot / TWO_16 == lower / TWO_16 {
          SplitLow16(t[k].slot, lower);
        }
      }
    }
  }

  /** A table spanning fewer than 2^16 slots: the lookup returns the one entry with the requested low bits,
      and fails exactly when there is none. */
  lemma LowerByteFindsUnique(account: SlotHashesAccount, low: u16)
    requires Descending(account.entries) && account.key == SLOT_HASHES_SYSVAR_ID
    requires account.entries[0].slot - account.entries[TABLE_LEN - 1].slot < TWO_16
    ensures var t := account.entries;
            var r := GetSlothashFromLowerByte(account, low);
            && (r.Ok? <==> exists k :: Matches(t, low, k))
            && (forall k :: Matches(t, low, k) ==> r == Ok(t[k]))
  {
    var t := account.entries;
    LowerByteExact(account, low);
    forall k | Matches(t, low, k)
      ensures SharesHighPart(t, k)
    {
      assert t[TABLE_LEN - 1].slot <= t[k].slot <= t[0].slot;
    }
    forall j, k | Matches(t, low, j) && Matches(t, low, k)
      ensures j == k
    {
      assert t[TABLE_LEN - 1].slot <= t[k].slot <= t[0].slot;
      assert t[TABLE_LEN - 1].slot <= t[j].slot <= t[0].slot;
      CongruentClose(t[j].slot, t[k].slot);
      IndexUnique(t, j, k);
    }
  }

  lemma CongruentClose(x: u64, y: u64)
    requires x % TWO_16 == y % TWO_16 && -TWO_16 < x - y < TWO_16
    ensures x == y
  {
  }

  // ---- find_slothash_in_sysvar: guessed start, backward scan ----

  /** `(newest - target) % 512`. Without overflow checks a target newer than the table wraps modulo 2^64,
      which 512 divides; with them the subtraction panics (`None`). */
  function GuessIndex(checked: bool, newest: u64, target: u64): (r: Option<nat>)
    ensures r.Some? ==> r.value < TABLE_LEN
  {
    match SubU64(checked, newest, target)
    case None => None
    case Some(lag) => Some(lag % TABLE_LEN)
  }

  /** The entry for `slot` at the largest index not above `from`. */
  function ScanBack(t: Table, slot: u64, from: nat): (r: Option<nat>)
    requires from < TABLE_LEN
    ensures r.Some? ==> r.value <= from && t[r.value].slot == slot
  {
    if t[from].slot == slot then Some(from)
    else if from == 0 then None
    else ScanBack(t, slot, from - 1)
  }

  function SearchBack(checked: bool, target: u64, t: Table): Outcome<Bytes32> {
    match GuessIndex(checked, t[0].slot, target)
    case None => Panic(Overflow)
    case Some(guess) =>
      match ScanBack(t, target, guess)
      case None => Bail(SlotNotFound)
      case Some(idx) => Ok(t[idx].hash)
  }

  function FindSlothash(checked: bool, target: u64, account: SlotHashesAccount): Outcome<Bytes32> {
    if account.key != SLOT_HASHES_SYSVAR_ID then Panic(WrongSysvar)
    else SearchBack(checked, target, account.entries)
  }

  method FindSlothashInSysvar(checked: bool, target: u64, account: SlotHashesAccount) returns (r: Outcome<Bytes32>)
    ensures r == FindSlothash(checked, target, account)
  {
    if !CheckPubkeyEq(account.key, SLOT_HASHES_SYSVAR_ID) {
      return Panic(WrongSysvar);
    }
    var slotData := account.entries;
    var guess := GuessIndex(checked, slotData[0].slot, target);
    if guess.None? {
      return Panic(Overflow);
    }
    var estimatedIdx := guess.value;
    ghost var found := ScanBack(slotData, target, guess.value);
    while true
      invariant 0 <= estimatedIdx < TABLE_LEN
      invariant ScanBack(slotData, target, estimatedIdx) == found
      decreases estimatedIdx
    {
      if slotData[estimatedIdx].slot == target {
        return Ok(slotData[estimatedIdx].hash);
      }
      if estimatedIdx == 0 {
        break;
      }
      estimatedIdx := estimatedIdx - 1;
    }
    return Bail(SlotNotFound);
  }

  lemma {:induction false} ScanBackExact(t: Table, slot: u64, from: nat)
    requires from < TABLE_LEN
    ensures match ScanBack(t, slot, from)
            case Some(k) => k <= from && t[k].slot == slot && forall i :: k < i <= from ==> t[i].slot != slot
            case None => forall i :: 0 <= i <= from ==> t[i].slot != slot
  {
    if t[from].slot != slot && from > 0 {
      ScanBackExact(t, slot, from - 1);
    }
  }

  /** Key fact: slots drop by at least one per index, so index `k` is at most its lag behind the newest slot. */
  lemma {:induction false} IndexAtMostLag(t: seq<SlotHash>, k: nat)
    requires Descending(t) && k < |t|
    ensures t[0].slot - t[k].slot >= k
  {
    if k > 0 {
      IndexAtMostLag(t, k - 1);
    }
  }

  /** The lag of a slot behind the newest one, reduced to a table index (also for slots ahead of the table). */
  function LagIndex(t: Table, target: u64): nat {
    (t[0].slot - target) % 512
  }

  /** The table holds `target` at an index the guessed scan reaches. */
  ghost predicate Reachable(t: Table, target: u64, k: int) {
    0 <= k <= LagIndex(t, target) && t[k].slot == target
  }

  /** Exact characterisation, for every target: the search succeeds exactly when the target sits at an index
      not above its lag modulo 512, and then returns the hash beside it. */
  lemma FindSlothashExact(checked: bool, target: u64, account: SlotHashesAccount)
    requires Descending(account.entries) && account.key == SLOT_HASHES_SYSVAR_ID
    ensures var t := account.entries;
            var r := FindSlothash(checked, target, account);
            && (r.Ok? <==> exists k :: Reachable(t, target, k))
            && (forall k :: Reachable(t, target, k) ==> r == Ok(t[k].hash))
            && (!r.Ok? ==> r == if checked && target > t[0].slot then Panic(Overflow) else Bail(SlotNotFound))
  {
    SearchBackExact(checked, target, account.entries);
  }

  lemma SearchBackExact(checked: bool, target: u64, t: Table)
    requires Descending(t)
    ensures var r := SearchBack(checked, target, t);
            && (r.Ok? <==> exists k :: Reachable(t, target, k))
            && (forall k :: Reachable(t, target, k) ==> r == Ok(t[k].hash))
            && (!r.Ok? ==> r == if checked && target > t[0].slot then Panic(Overflow) else Bail(SlotNotFound))
  {
    if target <= t[0].slot || !checked {
      assert GuessIndex(checked, t[0].slot, target) == Some(LagIndex(t, target));
      ScanBackExact(t, target, LagIndex(t, target));
      var found := ScanBack(t, target, LagIndex(t, target));
      if found.Some? {
        assert Reachable(t, target, found.value);
        forall k | Reachable(t, target, k)
          ensures k == found.value
        {
          IndexUnique(t, k, found.value);
        }
      }
    } else {
      forall k: nat | k < TABLE_LEN
        ensures t[k].slot != target
      {
        IndexAtMostLag(t, k);
      }
    }
  }

  /** On any table, in order or not, the entry at the largest index up to the lag modulo 512 is the one found. */
  lemma FindSlothashAnyTable(checked: bool, target: u64, account: SlotHashesAccount, k: nat)
    requires account.key == SLOT_HASHES_SYSVAR_ID && (target <= account.entries[0].slot || !checked)
    requires Reachable(account.entries, target, k)
    requires forall i :: k < i <= LagIndex(account.entries, target) ==> account.entries[i].slot != target
    ensures FindSlothash(checked, target, account) == Ok(account.entries[k].hash)
  {
    ScanBackExact(account.entries, target, LagIndex(account.entries, target));
  }

  /** Within 512 slots of the newest the guessed search, binary search and linear search agree. */
  lemma FindSlothashAgrees(checked: bool, target: u64, account: SlotHashesAccount)
    requires Descending(account.entries) && account.key == SLOT_HASHES_SYSVAR_ID
    requires 0 <= account.entries[0].slot - target < TABLE_LEN
    ensures var r := FindSlothash(checked, target, account);
            && (r.Ok? <==> Holds(account.entries, target))
            && (r.Ok? <==> GetSlothash(account, target).Ok?)
            && (r.Ok? ==> r == GetSlothash(account, target))
  {
    var t := account.entries;
    FindSlothashExact(checked, target, account);
    GetSlothashExact(account, target);
    SmallLag(t, target);
    forall k | 0 <= k < TABLE_LEN && t[k].slot == target
      ensures Reachable(t, target, k)
    {
      IndexAtMostLag(t, k);
    }
  }

  lemma SmallLag(t: Table, target: u64)
    requires 0 <= t[0].slot - target < TABLE_LEN
    ensures LagIndex(t, target) == t[0].slot - target
  {
  }

  /** The search finds a slot `lag` behind the newest in every descending table that holds it. */
  ghost predicate CompleteAtLag(lag: nat) {
    forall account: SlotHashesAccount, target: u64 ::
      account.key == SLOT_HASHES_SYSVAR_ID && Descending(account.entries)
      && account.entries[0].slot - target == lag && Holds(account.entries, target)
      ==> FindSlothash(false, target, account).Ok?
  }

  /** A table whose last entry lags the newest by `lag`, with no other gap. */
  function GapTable(lag: nat): (t: Table)
    requires TABLE_LEN <= lag < TWO_64
    ensures Descending(t) && t[0].slot == lag && t[TABLE_LEN - 1].slot == 0
  {
    seq(TABLE_LEN, i requires 0 <= i < TABLE_LEN =>
      SlotHash(if i == TABLE_LEN - 1 then 0 else lag - i, seq(32, _ => 0)))
  }

  /** Slots are skipped, so a lag can exceed the table length. The search is complete for a lag exactly when
      the lag is below 512 or leaves remainder 511. */
  lemma CompleteAtLagIff(lag: nat)
    requires lag < TWO_64
    ensures CompleteAtLag(lag) <==> lag < 512 || lag % 512 == 511
  {
    if lag < TABLE_LEN || lag % TABLE_LEN == TABLE_LEN - 1 {
      forall account: SlotHashesAccount, target: u64 |
        account.key == SLOT_HASHES_SYSVAR_ID && Descending(account.entries)
        && account.entries[0].slot - target == lag && Holds(account.entries, target)
        ensures FindSlothash(false, target, account).Ok?
      {
        FindSlothashExact(false, target, account);
        var k :| 0 <= k < TABLE_LEN && account.entries[k].slot == target;
        IndexAtMostLag(account.entries, k);
        assert Reachable(account.entries, target, k);
      }
    } else {
      var account := SlotHashesAccount(SLOT_HASHES_SYSVAR_ID, GapTable(lag));
      FindSlothashExact(false, 0, account);
      assert Holds(account.entries, 0);
      forall k
        ensures !Reachable(account.entries, 0, k)
      {
        if 0 <= k < TABLE_LEN - 1 {
          assert account.entries[k].slot > account.entries[TABLE_LEN - 1].slot;
        }
      }
    }
  }
}
