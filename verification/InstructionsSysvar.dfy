/** `Instructions::extract_ix_data` of src/sysvar/ix_sysvar.rs. */
module InstructionsSysvar {
  import opened Machine
  import opened LittleEndian
  import opened Keys
  import opened QuoteLayout
  import Ed25519Sysvar

  /** A read-only account, as one transaction sees it. */
  datatype Account = Account(key: Bytes32, data: seq<byte>)

  /** A flag byte and a key per account. */
  const META_SIZE := 33

  /** The two-byte count, header and first offset record of an Ed25519 instruction. */
  const MIN_ED25519_SIZE := 16

  // ---- the reader ----

  /** The program and data of the instruction serialized at byte `start`. */
  function ReadBody(data: seq<byte>, start: nat): (r: Outcome<(Bytes32, seq<byte>)>)
  {
    if start + 2 > |data| then Undefined
    else
      var p := start + 2 + ReadU16(data, start) * META_SIZE;
      if p + 34 > |data| then Undefined
      else
        var len := ReadU16(data, p + 32);
        if p + 34 + len > |data| then Undefined
        else Ok((data[p..p + 32], data[p + 34..p + 34 + len]))
  }

  /** The three index fields of the first offset record all name instruction `idx`. */
  predicate FirstRecordNames(ixData: seq<byte>, idx: nat)
    requires |ixData| >= MIN_ED25519_SIZE
  {
    ReadU16(ixData, 4) == idx && ReadU16(ixData, 8) == idx && ReadU16(ixData, 14) == idx
  }

  function CheckEd25519(program: Bytes32, ixData: seq<byte>, idx: nat): Outcome<seq<byte>> {
    if program != ED25519_PROGRAM_ID then Panic(NotEd25519Program)
    else if |ixData| < MIN_ED25519_SIZE then Panic(InstructionTooShort)
    else if !FirstRecordNames(ixData, idx) then Panic(IndexMismatch)
    else Ok(ixData)
  }

  /** The body of instruction `idx`, found through the offset table. */
  function ReadIndexed(data: seq<byte>, idx: nat): Outcome<(Bytes32, seq<byte>)> {
    if |data| < 2 then Undefined
    else if idx >= ReadU16(data, 0) then Panic(InstructionIndexOutOfBounds)
    else if 2 + idx * 2 + 2 > |data| then Undefined
    else ReadBody(data, ReadU16(data, 2 + idx * 2))
  }

  function Extract(sysvar: Account, idx: nat): Outcome<seq<byte>> {
    if sysvar.key != INSTRUCTIONS_SYSVAR_ID then Panic(WrongSysvar)
    else
      var body :- ReadIndexed(sysvar.data, idx);
      CheckEd25519(body.0, body.1, idx)
  }

  /** The source's own form: a cursor moved through the buffer. */
  method ExtractIxData(sysvar: Account, idx: nat) returns (r: Outcome<seq<byte>>)
    ensures r == Extract(sysvar, idx)
  {
    if !CheckPubkeyEq(sysvar.key, INSTRUCTIONS_SYSVAR_ID) {
      return Panic(WrongSysvar);
    }
    var body :- LocateBody(sysvar.data, idx);
    var (program, ixData) := body;
    if !CheckPubkeyEq(program, ED25519_PROGRAM_ID) {
      return Panic(NotEd25519Program);
    }
    if |ixData| < MIN_ED25519_SIZE {
      return Panic(InstructionTooShort);
    }
    if ReadU16(ixData, 4) != idx || ReadU16(ixData, 8) != idx || ReadU16(ixData, 14) != idx {
      return Panic(IndexMismatch);
    }
    r := Ok(ixData);
  }

  method LocateBody(base: seq<byte>, idx: nat) returns (r: Outcome<(Bytes32, seq<byte>)>)
    ensures r == ReadIndexed(base, idx)
  {
    if |base| < 2 {
      return Undefined;
    }
    if idx >= ReadU16(base, 0) {
      return Panic(InstructionIndexOutOfBounds);
    }
    var p: nat := 2 + idx * 2;
    if p + 2 > |base| {
      return Undefined;
    }
    p := ReadU16(base, p);
    if p + 2 > |base| {
      return Undefined;
    }
    var numAccounts := ReadU16(base, p);
    p := p + 2 + numAccounts * META_SIZE;
    if p + 34 > |base| {
      return Undefined;
    }
    var program: Bytes32 := base[p..p + 32];
    var len := ReadU16(base, p + 32);
    p := p + 34;
    if p + len > |base| {
      return Undefined;
    }
    r := Ok((program, base[p..p + len]));
  }

  // ---- every outcome, from the bytes alone ----

  /** Instruction `idx` is in the table, and its body of `n` metas and `len` data bytes at `start` lies in the
      data. */
  predicate BodyAt(data: seq<byte>, idx: nat, start: nat, n: nat, len: nat) {
    && 2 + 2 * idx + 2 <= |data| && idx < ReadU16(data, 0) && start == ReadU16(data, 2 + 2 * idx)
    && start + 2 <= |data| && n == ReadU16(data, start)
    && start + 36 + 33 * n <= |data| && len == ReadU16(data, start + 34 + 33 * n)
    && start + 36 + 33 * n + len <= |data|
  }

  /** The body's program is the Ed25519 one and its data names `idx` in all three places of the first record. */
  predicate Ed25519BodyAt(data: seq<byte>, idx: nat, start: nat, n: nat, len: nat) {
    && BodyAt(data, idx, start, n, len)
    && data[start + 2 + 33 * n..start + 34 + 33 * n] == ED25519_PROGRAM_ID && 16 <= len
    && var at := start + 36 + 33 * n;
    && ReadU16(data, at + 4) == idx && ReadU16(data, at + 8) == idx && ReadU16(data, at + 14) == idx
  }

  /** On an arbitrary account: another key always panics; with the sysvar's key, the extraction succeeds exactly
      where such a body lies, and yields its data. */
  lemma ExtractExact(sysvar: Account, idx: nat)
    ensures sysvar.key != INSTRUCTIONS_SYSVAR_ID ==> Extract(sysvar, idx) == Panic(WrongSysvar)
    ensures Extract(sysvar, idx).Ok? <==>
              sysvar.key == INSTRUCTIONS_SYSVAR_ID && exists s, n, len :: Ed25519BodyAt(sysvar.data, idx, s, n, len)
    ensures forall s, n, len | BodyAt(sysvar.data, idx, s, n, len) ::
              Extract(sysvar, idx).Ok? ==>
                Extract(sysvar, idx).value == sysvar.data[s + 36 + 33 * n..s + 36 + 33 * n + len]
  {
    if sysvar.key == INSTRUCTIONS_SYSVAR_ID {
      forall s, n, len | BodyAt(sysvar.data, idx, s, n, len)
        ensures Ed25519BodyAt(sysvar.data, idx, s, n, len) ==> Extract(sysvar, idx).Ok?
        ensures Extract(sysvar, idx).Ok? ==>
                  Extract(sysvar, idx).value == sysvar.data[s + 36 + 33 * n..s + 36 + 33 * n + len]
      {
        BodyRead(sysvar.data, idx, s, n, len);
        if 16 <= len {
          FirstRecordOf(sysvar.data, idx, s, n, len);
        }
      }
    }
    if Extract(sysvar, idx).Ok? {
      ExtractedBody(sysvar, idx);
    }
  }

  lemma BodyRead(data: seq<byte>, idx: nat, start: nat, n: nat, len: nat)
    requires BodyAt(data, idx, start, n, len)
    ensures var p := start + 2 + 33 * n;
            ReadIndexed(data, idx) == Ok((data[p..p + 32], data[p + 34..p + 34 + len]))
  {
    assert 2 + idx * 2 == 2 + 2 * idx && n * META_SIZE == 33 * n;
  }

  lemma FirstRecordOf(data: seq<byte>, idx: nat, start: nat, n: nat, len: nat)
    requires BodyAt(data, idx, start, n, len) && 16 <= len
    ensures var at := start + 36 + 33 * n;
            FirstRecordNames(data[at..at + len], idx)
            <==> ReadU16(data, at + 4) == idx && ReadU16(data, at + 8) == idx && ReadU16(data, at + 14) == idx
  {
  }

  /** With the sysvar's key, an index outside the table panics, and the reader leaves the data exactly where no
      body lies within it. */
  lemma ExtractStrays(sysvar: Account, idx: nat)
    requires sysvar.key == INSTRUCTIONS_SYSVAR_ID
    ensures Extract(sysvar, idx) == Panic(InstructionIndexOutOfBounds) <==>
              |sysvar.data| >= 2 && idx >= ReadU16(sysvar.data, 0)
    ensures Extract(sysvar, idx) == Undefined <==>
              |sysvar.data| < 2
              || (idx < ReadU16(sysvar.data, 0) && !exists s, n, len :: BodyAt(sysvar.data, idx, s, n, len))
  {
    if s, n, len :| BodyAt(sysvar.data, idx, s, n, len) {
      BodyRead(sysvar.data, idx, s, n, len);
    } else if ReadIndexed(sysvar.data, idx).Ok? {
      ReadBodyAt(sysvar.data, idx);
    }
  }

  lemma ReadBodyAt(data: seq<byte>, idx: nat)
    requires ReadIndexed(data, idx).Ok?
    ensures exists s, n, len :: BodyAt(data, idx, s, n, len)
  {
    var start: nat := ReadU16(data, 2 + idx * 2);
    var n: nat := ReadU16(data, start);
    var len: nat := ReadU16(data, start + 2 + n * META_SIZE + 32);
    assert BodyAt(data, idx, start, n, len);
  }

  lemma ExtractedBody(sysvar: Account, idx: nat)
    requires Extract(sysvar, idx).Ok?
    ensures exists s, n, len :: Ed25519BodyAt(sysvar.data, idx, s, n, len)
  {
    var data := sysvar.data;
    ReadBodyAt(data, idx);
    var s, n, len :| BodyAt(data, idx, s, n, len);
    BodyRead(data, idx, s, n, len);
    FirstRecordOf(data, idx, s, n, len);
    assert Ed25519BodyAt(data, idx, s, n, len);
  }

  // ---- the runtime's serialization ----

  datatype AccountMeta = AccountMeta(flags: byte, pubkey: Bytes32)

  datatype Instruction = Instruction(accounts: seq<AccountMeta>, program: Bytes32, data: seq<byte>)

  function Metas(ix: Instruction): seq<seq<byte>> {
    seq(|ix.accounts|, i requires 0 <= i < |ix.accounts| => [ix.accounts[i].flags] + ix.accounts[i].pubkey)
  }

  /** Account count, metas, program, data length, data. */
  function Body(ix: Instruction): seq<byte>
    requires |ix.accounts| < TWO_16 && |ix.data| < TWO_16
  {
    U16Bytes(|ix.accounts|) + Flatten(Metas(ix)) + ix.program + U16Bytes(|ix.data|) + ix.data
  }

  predicate Sized(list: seq<Instruction>) {
    |list| < TWO_16
    && forall i :: 0 <= i < |list| ==> |list[i].accounts| < TWO_16 && |list[i].data| < TWO_16
  }

  /** The first `k` bodies, back to back. */
  function Bodies(list: seq<Instruction>, k: nat): seq<byte>
    requires Sized(list) && k <= |list|
  {
    if k == 0 then [] else Bodies(list, k - 1) + Body(list[k - 1])
  }

  /** The bodies follow the instruction count and the table of two-byte offsets. */
  function Start(list: seq<Instruction>, k: nat): nat
    requires Sized(list) && k <= |list|
  {
    2 + 2 * |list| + |Bodies(list, k)|
  }

  /** Every body starts at an offset that fits the table. */
  ghost predicate Fits(list: seq<Instruction>) {
    Sized(list) && forall k :: 0 <= k < |list| ==> Start(list, k) < TWO_16
  }

  ghost function OffsetTable(list: seq<Instruction>): seq<seq<byte>>
    requires Fits(list)
  {
    seq(|list|, k requires 0 <= k < |list| => U16Bytes(Start(list, k)))
  }

  /** Count, offset table, bodies, and the index of the running instruction. */
  ghost function Serialize(list: seq<Instruction>, current: u16): seq<byte>
    requires Fits(list)
  {
    U16Bytes(|list|) + Flatten(OffsetTable(list)) + Bodies(list, |list|) + U16Bytes(current)
  }

  // ---- round trip ----

  /** A body that occupies bytes `at` onward is read back, for any number of account metas. */
  lemma ReadBodyBack(d: seq<byte>, at: nat, ix: Instruction)
    requires |ix.accounts| < TWO_16 && |ix.data| < TWO_16
    requires at + |Body(ix)| <= |d| && d[at..at + |Body(ix)|] == Body(ix)
    ensures ReadBody(d, at) == Ok((ix.program, ix.data))
  {
    var p := 2 + |Flatten(Metas(ix))|;
    BodySections(ix);
    BodyFields(d, at, Body(ix), p, |ix.data|);
    ReadU16At(d, at, |ix.accounts|);
    ReadU16At(d, at + p + 32, |ix.data|);
  }

  /** The fields of a body, by their positions in it. */
  lemma BodySections(ix: Instruction)
    requires |ix.accounts| < TWO_16 && |ix.data| < TWO_16
    ensures |Flatten(Metas(ix))| == META_SIZE * |ix.accounts|
    ensures var b, p, len := Body(ix), 2 + |Flatten(Metas(ix))|, |ix.data|;
            && |b| == p + 34 + len && b[..2] == U16Bytes(|ix.accounts|) && b[p..p + 32] == ix.program
            && b[p + 32..p + 34] == U16Bytes(len) && b[p + 34..p + 34 + len] == ix.data
  {
    FlattenLength(Metas(ix), META_SIZE);
    assert Body(ix) + [] == Body(ix);
    SixSections(U16Bytes(|ix.accounts|), Flatten(Metas(ix)), ix.program, U16Bytes(|ix.data|), ix.data, []);
  }

  lemma BodyFields(d: seq<byte>, at: nat, b: seq<byte>, p: nat, len: nat)
    requires at + |b| <= |d| && d[at..at + |b|] == b
    requires 2 <= p && |b| == p + 34 + len
    ensures d[at..at + 2] == b[..2]
    ensures d[at + p..at + p + 32] == b[p..p + 32]
    ensures d[at + p + 32..at + p + 34] == b[p + 32..p + 34]
    ensures d[at + p + 34..at + p + 34 + len] == b[p + 34..p + 34 + len]
  {
    SubSlice(d, at, at + |b|, 0, 2);
    SubSlice(d, at, at + |b|, p, p + 32);
    SubSlice(d, at, at + |b|, p + 32, p + 34);
    SubSlice(d, at, at + |b|, p + 34, p + 34 + len);
  }

  /** Earlier bodies are a prefix of later ones. */
  lemma {:induction false} BodiesGrow(list: seq<Instruction>, k: nat, m: nat)
    requires Sized(list) && k <= m <= |list|
    ensures Bodies(list, k) <= Bodies(list, m)
    decreases m
  {
    if k < m {
      BodiesGrow(list, k, m - 1);
      PrefixExtends(Bodies(list, k), Bodies(list, m - 1), Body(list[m - 1]));
    }
  }

  /** Body `k` follows the first `k` bodies. */
  lemma {:induction false} BodyInBodies(list: seq<Instruction>, k: nat, m: nat)
    requires Sized(list) && k < m <= |list|
    ensures Bodies(list, k) + Body(list[k]) <= Bodies(list, m)
  {
    BodiesGrow(list, k + 1, m);
  }

  lemma PrefixExtends(p: seq<byte>, a: seq<byte>, b: seq<byte>)
    requires p <= a
    ensures p <= a + b
  {
  }

  /** `d` starts with the count, the offset table and all bodies of `list`. */
  ghost predicate SerializedIn(d: seq<byte>, list: seq<Instruction>)
    requires Fits(list)
  {
    && |d| >= Start(list, |list|)
    && d[0..2] == U16Bytes(|list|)
    && d[2..2 + 2 * |list|] == Flatten(OffsetTable(list))
    && d[2 + 2 * |list|..Start(list, |list|)] == Bodies(list, |list|)
  }

  lemma SerializedInOwn(list: seq<Instruction>, current: u16)
    requires Fits(list)
    ensures SerializedIn(Serialize(list, current), list)
  {
    FlattenLength(OffsetTable(list), 2);
    var d := Serialize(list, current);
    assert d + [] + [] == d;
    SixSections(
      U16Bytes(|list|), Flatten(OffsetTable(list)), Bodies(list, |list|), U16Bytes(current), [], []);
  }

  lemma OffsetHeld(d: seq<byte>, list: seq<Instruction>, k: nat)
    requires Fits(list) && SerializedIn(d, list) && k < |list|
    ensures 2 + k * 2 + 2 <= |d| && ReadU16(d, 2 + k * 2) == Start(list, k)
  {
    RecordAt(d, 2, 2 + 2 * |list|, OffsetTable(list), 2, k, k * 2);
    EntryRead(d, 2 + k * 2, OffsetTable(list)[k], Start(list, k));
  }

  lemma EntryRead(d: seq<byte>, at: nat, entry: seq<byte>, v: u16)
    requires at + 2 <= |d| && d[at..at + 2] == entry && entry == U16Bytes(v)
    ensures ReadU16(d, at) == v
  {
    ReadU16At(d, at, v);
  }

  lemma BodyHeld(d: seq<byte>, list: seq<Instruction>, k: nat)
    requires Fits(list) && SerializedIn(d, list) && k < |list|
    ensures ReadBody(d, Start(list, k)) == Ok((list[k].program, list[k].data))
  {
    BodyInBodies(list, k, |list|);
    BodyPlaced(d, 2 + 2 * |list|, Bodies(list, |list|), Bodies(list, k), Body(list[k]));
    ReadBodyBack(d, Start(list, k), list[k]);
  }

  lemma BodyPlaced(d: seq<byte>, base: nat, all: seq<byte>, before: seq<byte>, body: seq<byte>)
    requires base + |all| <= |d| && d[base..base + |all|] == all && before + body <= all
    ensures base + |before| + |body| <= |d|
    ensures d[base + |before|..base + |before| + |body|] == body
  {
    SectionAt(before, body, all);
    SliceInside(d, base, base + |all|, |before|, |body|);
  }

  /** Reading instruction `k` finds its program and data, and the index check is exact. */
  lemma ReadIndexedBack(d: seq<byte>, list: seq<Instruction>, k: nat)
    requires Fits(list) && SerializedIn(d, list)
    ensures ReadIndexed(d, k)
         == if k >= |list| then Panic(InstructionIndexOutOfBounds) else Ok((list[k].program, list[k].data))
  {
    ReadU16At(d, 0, |list|);
    if k < |list| {
      OffsetHeld(d, list, k);
      BodyHeld(d, list, k);
    }
  }

  /** Round trip, both ways: on the serialization of any list that fits the offset table, `extract_ix_data`
      returns the data of instruction `k` exactly when it is an Ed25519 instruction of at least 16 bytes whose
      first record names `k`; every other index panics for the stated reason. */
  lemma ExtractSerialized(list: seq<Instruction>, current: u16, k: nat)
    requires Fits(list)
    ensures Extract(Account(INSTRUCTIONS_SYSVAR_ID, Serialize(list, current)), k)
         == if k >= |list| then Panic(InstructionIndexOutOfBounds)
            else if list[k].program != ED25519_PROGRAM_ID then Panic(NotEd25519Program)
            else if |list[k].data| < MIN_ED25519_SIZE then Panic(InstructionTooShort)
            else if !FirstRecordNames(list[k].data, k) then Panic(IndexMismatch)
            else Ok(list[k].data)
  {
    SerializedInOwn(list, current);
    ReadIndexedBack(Serialize(list, current), list, k);
  }

  // ---- composition with the parser ----

  /** All three instruction-index fields of record `i` equal `idx`. */
  predicate RecordNames(data: seq<byte>, i: nat, idx: nat)
    requires Ed25519Sysvar.RecordOffset(i) + OFFSETS_SIZE <= |data|
  {
    var o := ReadOffsets(data, Ed25519Sysvar.RecordOffset(i));
    o.signatureIx == idx && o.pubkeyIx == idx && o.messageIx == idx
  }

  /** The extraction checks only record 0 and the parser only records 1 onward; together they tie every index
      field of every signature record to the instruction the data came from. */
  lemma SplitIndexCheckComposes(sysvar: Account, idx: nat, i: nat)
    requires Extract(sysvar, idx).Ok?
    requires Ed25519Sysvar.Parse(Extract(sysvar, idx).value).Ok?
    requires i < Ed25519Sysvar.Parse(Extract(sysvar, idx).value).value.count
    ensures Ed25519Sysvar.RecordOffset(i) + OFFSETS_SIZE <= |Extract(sysvar, idx).value|
    ensures RecordNames(Extract(sysvar, idx).value, i, idx)
  {
    var data := Extract(sysvar, idx).value;
    ExtractedNames(sysvar, idx);
    Ed25519Sysvar.CheckExact(data);
    assert Ed25519Sysvar.RecordAgrees(data, i);
  }

  lemma ExtractedNames(sysvar: Account, idx: nat)
    requires Extract(sysvar, idx).Ok?
    ensures MIN_ED25519_SIZE <= |Extract(sysvar, idx).value| < TWO_16
    ensures FirstRecordNames(Extract(sysvar, idx).value, idx)
  {
  }
}
