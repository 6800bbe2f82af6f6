/** Runs of `OracleQuote::write` calls on one account: when does the stored slot never go back? */
module AccountRuns {
  import opened Machine
  import opened LittleEndian
  import opened QuoteLayout
  import opened OracleQuotes

  datatype WriteStep = WriteStep(clockSlot: u64, source: seq<byte>)

  predicate Succeeds(account: seq<byte>, step: WriteStep) {
    WriteOutcome(step.clockSlot, step.source, account).Ok?
  }

  /** One transaction: a panicking write is discarded with everything it changed. */
  function Commit(account: seq<byte>, step: WriteStep): (r: seq<byte>)
    ensures |r| == |account|
  {
    if Succeeds(account, step) then Written(step.source, account) else account
  }

  function Run(account: seq<byte>, steps: seq<WriteStep>): (r: seq<byte>)
    ensures |r| == |account|
  {
    if steps == [] then account else Commit(Run(account, steps[..|steps| - 1]), steps[|steps| - 1])
  }

  /** The account after the first `k` steps. */
  function After(account: seq<byte>, steps: seq<WriteStep>, k: nat): (r: seq<byte>)
    requires k <= |steps|
    ensures |r| == |account|
  {
    Run(account, steps[..k])
  }

  lemma AfterNext(account: seq<byte>, steps: seq<WriteStep>, k: nat)
    requires k < |steps|
    ensures After(account, steps, k + 1) == Commit(After(account, steps, k), steps[k])
  {
    assert steps[..k + 1][..k] == steps[..k];
  }

  /** A run is its first part and then its second; a single step commits or leaves the account as it was. */
  lemma {:induction false} RunAppend(account: seq<byte>, a: seq<WriteStep>, b: seq<WriteStep>)
    ensures Run(account, a + b) == Run(Run(account, a), b)
    ensures |b| == 1 ==>
              Run(account, a + b)
              == if WriteOutcome(b[0].clockSlot, b[0].source, Run(account, a)).Ok?
                 then Written(b[0].source, Run(account, a)) else Run(account, a)
    decreases |b|
  {
    if b == [] {
      assert a + b == a;
    } else {
      assert (a + b)[..|a + b| - 1] == a + b[..|b| - 1];
      RunAppend(account, a, b[..|b| - 1]);
    }
  }

  /** The slot of the record the account delimits, if there is one. */
  function StoredSlot(account: seq<byte>): Option<u64> {
    match LoadAccount(account)
    case Ok(record) => if |record| >= TRAILER_SIZE then Some(SlotOf(record)) else None
    case _ => None
  }

  // ---- one write ----

  /** What the check compares against is the slot 13 bytes from the end of the whole account. */
  lemma TailOfBody(account: seq<byte>)
    requires |account| >= MIN_ACCOUNT_SIZE
    ensures SlotOf(account[8..]) == SlotOf(account)
  {
    var n := |account|;
    assert forall k :: n - TRAILER_SIZE <= k < n ==> account[k] == account[8..][k - 8];
    ReadLeMoved(account, n - TRAILER_SIZE, account[8..], n - 8 - TRAILER_SIZE, 8);
  }

  /** Exactly when a write succeeds: the record fits and its slot is below the clock and not below the tail. */
  lemma SucceedsIff(account: seq<byte>, step: WriteStep)
    ensures Succeeds(account, step) <==>
              && |account| >= MIN_ACCOUNT_SIZE
              && TRAILER_SIZE <= |step.source| <= |account| - PREFIX_SIZE
              && SlotOf(account) <= SlotOf(step.source) < step.clockSlot
  {
    if |account| >= MIN_ACCOUNT_SIZE {
      TailOfBody(account);
    }
  }

  /** A successful write stores the source's slot, below the clock. */
  lemma WriteStoresSlot(account: seq<byte>, step: WriteStep)
    requires Succeeds(account, step) && |step.source| < TWO_16
    ensures StoredSlot(Commit(account, step)) == Some(SlotOf(step.source))
    ensures SlotOf(step.source) < step.clockSlot
  {
    StoreLoadIff(step.source, account);
    SucceedsIff(account, step);
  }

  /** A record that fills the account puts its slot where the next check looks. */
  lemma ExactFitTail(source: seq<byte>, account: seq<byte>)
    requires TRAILER_SIZE <= |source| && |source| + PREFIX_SIZE == |account|
    ensures SlotOf(Written(source, account)) == SlotOf(source)
  {
    var w, n := Written(source, account), |account|;
    WrittenKeepsRest(source, account);
    assert forall k :: n - TRAILER_SIZE <= k < n ==> w[k] == w[PREFIX_SIZE..n][k - PREFIX_SIZE];
    ReadLeMoved(w, n - TRAILER_SIZE, source, |source| - TRAILER_SIZE, 8);
  }

  /** A landed record that fills the account is what the account holds, and its slot is at the tail. */
  lemma ExactFitStored(account: seq<byte>, step: WriteStep)
    requires Succeeds(account, step) && |step.source| + PREFIX_SIZE == |account| < TWO_16 + PREFIX_SIZE
    ensures |step.source| >= TRAILER_SIZE
    ensures LoadAccount(Commit(account, step)) == Ok(step.source)
    ensures SlotOf(Commit(account, step)) == SlotOf(step.source)
  {
    StoreLoadIff(step.source, account);
    ExactFitTail(step.source, account);
  }

  // ---- when is a stored record protected? ----

  /** No write that succeeds now can lower the stored slot. */
  ghost predicate Protected(account: seq<byte>)
    requires StoredSlot(account).Some?
  {
    forall step: WriteStep :: Succeeds(account, step) ==> SlotOf(step.source) >= StoredSlot(account).value
  }

  /** A record of `n` bytes, zero but for its slot. */
  function BareRecord(n: nat, slot: u64): (r: seq<byte>)
    requires n >= TRAILER_SIZE
    ensures |r| == n && SlotOf(r) == slot
    ensures forall k :: 0 <= k < n && !(n - TRAILER_SIZE <= k < n - TRAILER_SIZE + 8) ==> r[k] == 0
    ensures r[n - TRAILER_SIZE..n - TRAILER_SIZE + 8] == U64Bytes(slot)
  {
    var r := seq(n - TRAILER_SIZE, _ => 0) + U64Bytes(slot) + seq(5, _ => 0);
    assert r[n - TRAILER_SIZE..n - TRAILER_SIZE + 8] == U64Bytes(slot);
    ReadU64At(r, n - TRAILER_SIZE, slot);
    r
  }

  /** The stored record is protected exactly when its slot is not above the slot at the account's tail. */
  lemma ProtectedIff(account: seq<byte>)
    requires |account| >= MIN_ACCOUNT_SIZE && StoredSlot(account).Some?
    ensures Protected(account) <==> StoredSlot(account).value <= SlotOf(account)
  {
    forall step: WriteStep
      ensures Succeeds(account, step) ==> SlotOf(account) <= SlotOf(step.source)
    {
      SucceedsIff(account, step);
    }
    if SlotOf(account) < StoredSlot(account).value {
      var step := WriteStep(TWO_64 - 1, BareRecord(TRAILER_SIZE, SlotOf(account)));
      SucceedsIff(account, step);
      assert Succeeds(account, step);
    }
  }

  // ---- which sizes keep slots in order? ----

  /** Two consecutive successful writes of `s`-byte records on any account of `n` bytes keep slots in order. */
  ghost predicate OrderKept(n: nat, s: nat) {
    forall account: seq<byte>, a: WriteStep, b: WriteStep ::
      && |account| == n && |a.source| == s && |b.source| == s
      && Succeeds(account, a) && Succeeds(Commit(account, a), b)
      ==> SlotOf(a.source) <= SlotOf(b.source)
  }

  /** The documented protection against slot regression holds exactly for records that fill the account: the
      source reads the existing slot from the end of the buffer, not of the delimited record. */
  lemma OrderKeptIff(n: nat, s: nat)
    requires n >= MIN_ACCOUNT_SIZE && TRAILER_SIZE <= s && s + PREFIX_SIZE <= n
    ensures OrderKept(n, s) <==> s + PREFIX_SIZE == n
  {
    if s + PREFIX_SIZE == n {
      forall account: seq<byte>, a: WriteStep, b: WriteStep |
        && |account| == n && |a.source| == s && |b.source| == s
        && Succeeds(account, a) && Succeeds(Commit(account, a), b)
        ensures SlotOf(a.source) <= SlotOf(b.source)
      {
        ExactFitTail(a.source, account);
        SucceedsIff(Commit(account, a), b);
      }
    } else {
      LooseFitRegresses(n, s, 1, 0);
      assert !(SlotOf(BareWrite(s, 1).source) <= SlotOf(BareWrite(s, 0).source));
    }
  }

  /** A write of a bare record with slot `slot`, at clock slot 256. */
  function BareWrite(s: nat, slot: u64): WriteStep
    requires s >= TRAILER_SIZE
  {
    WriteStep(256, BareRecord(s, slot))
  }

  /** With a spare byte the check misses the low byte of the stored slot: on a zeroed account slot `high` is
      stored and then replaced by the smaller `low`. */
  lemma LooseFitRegresses(n: nat, s: nat, high: u64, low: u64)
    requires n >= MIN_ACCOUNT_SIZE && TRAILER_SIZE <= s && s + PREFIX_SIZE < n && low < high < 256
    ensures Succeeds(Zeros(n), BareWrite(s, high))
    ensures Succeeds(Commit(Zeros(n), BareWrite(s, high)), BareWrite(s, low))
  {
    SmallSlotTrailer(BareRecord(s, high), high);
    LooseRecordRegresses(n, BareWrite(s, high), BareWrite(s, low));
  }

  /** Behind the low byte of its slot a record is zero. */
  ghost predicate ZeroBehindLow(record: seq<byte>) {
    |record| >= TRAILER_SIZE && forall k :: |record| - TRAILER_SIZE < k < |record| ==> record[k] == 0
  }

  /** The same for any two records, where the first is zero behind the low byte of its slot. */
  lemma LooseRecordRegresses(n: nat, first: WriteStep, second: WriteStep)
    requires ZeroBehindLow(first.source) && |first.source| + PREFIX_SIZE < n
    requires TRAILER_SIZE <= |second.source| <= n - PREFIX_SIZE
    requires SlotOf(first.source) < first.clockSlot && SlotOf(second.source) < second.clockSlot
    ensures Succeeds(Zeros(n), first)
    ensures Succeeds(Commit(Zeros(n), first), second)
  {
    LandsOnZeros(n, first);
    LooseWriteTail(n, first.source);
    SucceedsIff(Written(first.source, Zeros(n)), second);
  }

  /** Any record that fits and is below the clock lands on a zeroed account. */
  lemma LandsOnZeros(n: nat, step: WriteStep)
    requires n >= MIN_ACCOUNT_SIZE && TRAILER_SIZE <= |step.source| <= n - PREFIX_SIZE
    requires SlotOf(step.source) < step.clockSlot
    ensures Succeeds(Zeros(n), step)
  {
    ZerosRead(Zeros(n), n - TRAILER_SIZE, 8);
    SucceedsIff(Zeros(n), step);
  }

  lemma LooseWriteTail(n: nat, record: seq<byte>)
    requires ZeroBehindLow(record) && |record| + PREFIX_SIZE < n
    ensures SlotOf(Written(record, Zeros(n))) == 0
  {
    var w, s := Written(record, Zeros(n)), |record|;
    WrittenKeepsRest(record, Zeros(n));
    forall k | s + PREFIX_SIZE <= k < n
      ensures w[k] == 0
    {
      assert w[k] == w[s + PREFIX_SIZE..][k - s - PREFIX_SIZE] == Zeros(n)[k];
    }
    LooseTailIsZero(w, record);
  }

  function Zeros(n: nat): (r: seq<byte>)
    ensures |r| == n && forall k :: 0 <= k < n ==> r[k] == 0
  {
    seq(n, _ => 0)
  }

  /** A record that is zero behind its slot's low byte, and zeros behind it, leave the account's tail zero. */
  lemma LooseTailIsZero(w: seq<byte>, record: seq<byte>)
    requires ZeroBehindLow(record) && |record| + PREFIX_SIZE < |w|
    requires w[PREFIX_SIZE..|record| + PREFIX_SIZE] == record
    requires forall k :: |record| + PREFIX_SIZE <= k < |w| ==> w[k] == 0
    ensures SlotOf(w) == 0
  {
    var at := |w| - TRAILER_SIZE;
    forall k | at <= k < at + 8
      ensures w[k] == 0
    {
      if k < |record| + PREFIX_SIZE {
        assert w[k] == w[PREFIX_SIZE..|record| + PREFIX_SIZE][k - PREFIX_SIZE];
      }
    }
    ZerosRead(w, at, 8);
  }

  lemma {:induction false} ZerosRead(data: seq<byte>, at: nat, width: nat)
    requires at + width <= |data| && forall k :: at <= k < at + width ==> data[k] == 0
    ensures ReadLe(data, at, width) == 0
    decreases width
  {
    if width > 0 {
      ZerosRead(data, at + 1, width - 1);
    }
  }

  /** A slot below 256 sets only the low byte of the slot field. */
  lemma SmallSlotTrailer(record: seq<byte>, slot: u64)
    requires |record| >= TRAILER_SIZE && slot < 256
    requires record[|record| - TRAILER_SIZE..|record| - 5] == U64Bytes(slot)
    requires forall k :: |record| - 5 <= k < |record| ==> record[k] == 0
    ensures ZeroBehindLow(record)
  {
    var t := |record| - TRAILER_SIZE;
    ZeroBytes(slot / 256, 7);
    assert U64Bytes(slot) == [slot % 256] + ToBytes(slot / 256, 7);
    forall k | t < k < t + 8
      ensures record[k] == 0
    {
      assert record[k] == record[t..t + 8][k - t] == ToBytes(slot / 256, 7)[k - t - 1];
    }
  }

  lemma {:induction false} ZeroBytes(n: nat, width: nat)
    requires n == 0
    ensures forall k :: 0 <= k < width ==> ToBytes(n, width)[k] == 0
    decreases width
  {
    if width > 0 {
      ZeroBytes(n / 256, width - 1);
    }
  }

  // ---- whole runs ----

  /** Step `k` of the run succeeds. */
  predicate Lands(account: seq<byte>, steps: seq<WriteStep>, k: nat)
    requires k < |steps|
  {
    Succeeds(After(account, steps, k), steps[k])
  }

  /** Every record that lands fills the account and fits the length prefix; rejected writes may have any size. */
  ghost predicate ExactFit(account: seq<byte>, steps: seq<WriteStep>) {
    forall k :: 0 <= k < |steps| && Lands(account, steps, k) ==>
                  |steps[k].source| + PREFIX_SIZE == |account| < TWO_16 + PREFIX_SIZE
  }

  /** The slot the next check compares against never decreases along a run. */
  lemma {:induction false} TailNeverDecreases(account: seq<byte>, steps: seq<WriteStep>, i: nat, j: nat)
    requires |account| >= MIN_ACCOUNT_SIZE && ExactFit(account, steps) && i <= j <= |steps|
    ensures SlotOf(After(account, steps, i)) <= SlotOf(After(account, steps, j))
    decreases j
  {
    if i < j {
      TailNeverDecreases(account, steps, i, j - 1);
      AfterNext(account, steps, j - 1);
      var before := After(account, steps, j - 1);
      if Lands(account, steps, j - 1) {
        SucceedsIff(before, steps[j - 1]);
        ExactFitTail(steps[j - 1].source, before);
      }
    }
  }

  lemma AfterFailed(account: seq<byte>, steps: seq<WriteStep>, k: nat)
    requires k < |steps| && !Lands(account, steps, k)
    ensures After(account, steps, k + 1) == After(account, steps, k)
  {
    AfterNext(account, steps, k);
  }

  /** After a step that lands, the account holds exactly its source until another step lands. */
  lemma {:induction false} StoredUntilNext(account: seq<byte>, steps: seq<WriteStep>, k: nat, j: nat)
    requires ExactFit(account, steps) && k < j <= |steps| && Lands(account, steps, k)
    requires forall m :: k < m < j ==> !Lands(account, steps, m)
    ensures LoadAccount(After(account, steps, j)) == Ok(steps[k].source)
    ensures |steps[k].source| >= TRAILER_SIZE && SlotOf(After(account, steps, j)) == SlotOf(steps[k].source)
    decreases j
  {
    if j == k + 1 {
      AfterNext(account, steps, k);
      ExactFitStored(After(account, steps, k), steps[k]);
    } else {
      StoredUntilNext(account, steps, k, j - 1);
      AfterFailed(account, steps, j - 1);
    }
  }

  lemma LandedSize(account: seq<byte>, steps: seq<WriteStep>, m: nat)
    requires m < |steps| && Lands(account, steps, m)
    ensures |account| >= MIN_ACCOUNT_SIZE
  {
    SucceedsIff(After(account, steps, m), steps[m]);
  }

  lemma StoredSlotOf(account: seq<byte>, record: seq<byte>)
    requires LoadAccount(account) == Ok(record) && |record| >= TRAILER_SIZE
    ensures StoredSlot(account) == Some(SlotOf(record))
  {
  }

  /** Once some step has landed, the delimited record's slot is the slot at the account's tail. */
  lemma {:induction false} StoredIsTail(account: seq<byte>, steps: seq<WriteStep>, m: nat, j: nat)
    requires ExactFit(account, steps) && m < j <= |steps| && Lands(account, steps, m)
    ensures |account| >= MIN_ACCOUNT_SIZE
    ensures StoredSlot(After(account, steps, j)) == Some(SlotOf(After(account, steps, j)))
    decreases j
  {
    LandedSize(account, steps, m);
    if Lands(account, steps, j - 1) {
      StoredUntilNext(account, steps, j - 1, j);
      StoredSlotOf(After(account, steps, j), steps[j - 1].source);
    } else {
      StoredIsTail(account, steps, m, j - 1);
      AfterFailed(account, steps, j - 1);
    }
  }

  /** Main result on runs: whatever the interleaving of failing and landing writes, the slots that land are in
      order, and each is strictly below the clock of its own write. */
  lemma RunKeepsOrder(account: seq<byte>, steps: seq<WriteStep>, i: nat, j: nat)
    requires ExactFit(account, steps) && i <= j < |steps|
    requires Lands(account, steps, i) && Lands(account, steps, j)
    ensures |steps[i].source| >= TRAILER_SIZE && |steps[j].source| >= TRAILER_SIZE
    ensures SlotOf(steps[i].source) <= SlotOf(steps[j].source) < steps[j].clockSlot
    ensures StoredSlot(After(account, steps, i + 1)) == Some(SlotOf(steps[i].source))
  {
    SucceedsIff(After(account, steps, i), steps[i]);
    SucceedsIff(After(account, steps, j), steps[j]);
    StoredUntilNext(account, steps, i, i + 1);
    if i < j {
      TailNeverDecreases(account, steps, i + 1, j);
    }
  }
}
