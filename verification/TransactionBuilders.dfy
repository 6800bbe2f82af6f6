/** `TransactionBuilder` of src/client/transaction_builder.rs: stored signers, and which of them a transaction
    needs. */
module TransactionBuilders {
  import opened Machine

  /** A stored signer: its public key, and a token for the object holding the key pair. */
  datatype Signer = Signer(pubkey: Bytes32, handle: nat)

  datatype AccountMeta = AccountMeta(pubkey: Bytes32, isSigner: bool)

  /** Instructions of the caller, and the two compute-budget instructions the builder prepends. */
  datatype Instruction =
    | Instruction(accounts: seq<AccountMeta>, data: seq<byte>)
    | SetComputeUnitLimit(units: u32)
    | SetComputeUnitPrice(microLamports: u64)
  {
    /** The accounts an instruction names; the compute-budget ones name none. */
    function Accounts(): seq<AccountMeta> {
      if Instruction? then accounts else []
    }
  }

  function Keys(signers: seq<Signer>): (r: seq<Bytes32>)
    ensures |r| == |signers|
  {
    seq(|signers|, i requires 0 <= i < |signers| => signers[i].pubkey)
  }

  // ---- order-preserving removal of duplicates ----

  /** The first occurrence of every key, in order. */
  function FirstOccurrences(keys: seq<Bytes32>): seq<Bytes32> {
    if keys == [] then []
    else
      var front, last := FirstOccurrences(keys[..|keys| - 1]), keys[|keys| - 1];
      if last in front then front else front + [last]
  }

  lemma FirstOccurrencesNext(keys: seq<Bytes32>, k: Bytes32)
    ensures FirstOccurrences(keys + [k])
         == if k in FirstOccurrences(keys) then FirstOccurrences(keys) else FirstOccurrences(keys) + [k]
  {
    assert (keys + [k])[..|keys|] == keys;
  }

  /** Key `k` first appears in `keys` at index `i`. */
  ghost predicate FirstAt(keys: seq<Bytes32>, k: Bytes32, i: int) {
    0 <= i < |keys| && keys[i] == k && forall j :: 0 <= j < i ==> keys[j] != k
  }

  /** No duplicates, the same keys, in the order of their first appearance. */
  lemma {:induction false} FirstOccurrencesExact(keys: seq<Bytes32>)
    ensures Distinct(FirstOccurrences(keys))
    ensures forall k :: k in FirstOccurrences(keys) <==> k in keys
    ensures forall a, b, i, j |
              0 <= a < b < |FirstOccurrences(keys)|
              && FirstAt(keys, FirstOccurrences(keys)[a], i) && FirstAt(keys, FirstOccurrences(keys)[b], j) :: i < j
  {
    if keys != [] {
      var n := |keys| - 1;
      var f := FirstOccurrences(keys);
      FirstOccurrencesExact(keys[..n]);
      assert keys == keys[..n] + [keys[n]];
      forall a, b, i, j | 0 <= a < b < |f| && FirstAt(keys, f[a], i) && FirstAt(keys, f[b], j)
        ensures i < j
      {
        EarlierFirst(keys, f[a], i);
        EarlierFirst(keys, f[b], j);
      }
    }
  }

  /** A key already present before the last position first appears there. */
  lemma EarlierFirst(keys: seq<Bytes32>, k: Bytes32, i: int)
    requires keys != [] && FirstAt(keys, k, i)
    ensures var front := keys[..|keys| - 1];
            if k in front then FirstAt(front, k, i) else i == |keys| - 1
  {
  }

  /** All signing accounts, instruction by instruction. */
  function SigningOf(accounts: seq<AccountMeta>): seq<Bytes32> {
    if accounts == [] then []
    else
      var front, last := SigningOf(accounts[..|accounts| - 1]), accounts[|accounts| - 1];
      if last.isSigner then front + [last.pubkey] else front
  }

  function SigningKeys(ixs: seq<Instruction>): seq<Bytes32> {
    if ixs == [] then [] else SigningKeys(ixs[..|ixs| - 1]) + SigningOf(ixs[|ixs| - 1].Accounts())
  }

  lemma SigningOfNext(accounts: seq<AccountMeta>, j: nat)
    requires j < |accounts|
    ensures SigningOf(accounts[..j + 1])
         == if accounts[j].isSigner then SigningOf(accounts[..j]) + [accounts[j].pubkey] else SigningOf(accounts[..j])
  {
    assert accounts[..j + 1][..j] == accounts[..j];
  }

  lemma CollectNext(before: seq<Bytes32>, accounts: seq<AccountMeta>, j: nat)
    requires j < |accounts|
    ensures var seen, k := FirstOccurrences(before + SigningOf(accounts[..j])), accounts[j].pubkey;
            FirstOccurrences(before + SigningOf(accounts[..j + 1]))
            == if accounts[j].isSigner && k !in seen then seen + [k] else seen
  {
    var front, k := SigningOf(accounts[..j]), accounts[j].pubkey;
    SigningOfNext(accounts, j);
    FirstOccurrencesNext(before + front, k);
    assert before + (front + [k]) == before + front + [k];
  }

  lemma SigningKeysNext(ixs: seq<Instruction>, i: nat)
    requires i < |ixs|
    ensures SigningKeys(ixs[..i + 1]) == SigningKeys(ixs[..i]) + SigningOf(ixs[i].Accounts())
  {
    assert ixs[..i + 1][..i] == ixs[..i];
  }

  lemma {:induction false} SigningOfExact(accounts: seq<AccountMeta>, k: Bytes32)
    ensures k in SigningOf(accounts) <==> AccountMeta(k, true) in accounts
  {
    if accounts != [] {
      var n := |accounts| - 1;
      SigningOfExact(accounts[..n], k);
      assert accounts == accounts[..n] + [accounts[n]];
    }
  }

  /** The instruction lists the key as a signing account. */
  predicate ListsSigner(ix: Instruction, k: Bytes32) {
    AccountMeta(k, true) in ix.Accounts()
  }

  ghost predicate SomeListsSigner(ixs: seq<Instruction>, k: Bytes32) {
    exists i :: 0 <= i < |ixs| && ListsSigner(ixs[i], k)
  }

  lemma SomeListsNext(ixs: seq<Instruction>, k: Bytes32)
    requires ixs != []
    ensures var n := |ixs| - 1;
            SomeListsSigner(ixs, k) <==> SomeListsSigner(ixs[..n], k) || ListsSigner(ixs[n], k)
  {
    var n := |ixs| - 1;
    if SomeListsSigner(ixs[..n], k) {
      var i :| 0 <= i < n && ListsSigner(ixs[..n][i], k);
      assert ListsSigner(ixs[i], k);
    }
    if SomeListsSigner(ixs, k) {
      var i :| 0 <= i < |ixs| && ListsSigner(ixs[i], k);
      assert i < n ==> ListsSigner(ixs[..n][i], k);
    }
  }

  /** A key signs exactly when some instruction lists it as a signing account. */
  lemma {:induction false} SigningKeysExact(ixs: seq<Instruction>, k: Bytes32)
    ensures k in SigningKeys(ixs) <==> SomeListsSigner(ixs, k)
  {
    if ixs != [] {
      var n := |ixs| - 1;
      SigningKeysExact(ixs[..n], k);
      SigningOfExact(ixs[n].Accounts(), k);
      SomeListsNext(ixs, k);
    }
  }

  // ---- in which order ----

  /** Account `j` of instruction `i` signs, with key `k`. */
  predicate SignsAt(ixs: seq<Instruction>, k: Bytes32, i: int, j: int) {
    && 0 <= i < |ixs| && ixs[i].Instruction? && 0 <= j < |ixs[i].accounts|
    && ixs[i].accounts[j] == AccountMeta(k, true)
  }

  /** Position (i, j) comes before (i', j'): an earlier instruction, or an earlier account of the same one. */
  predicate Before(i: int, j: int, i': int, j': int) {
    i < i' || (i == i' && j < j')
  }

  /** Key `k` first signs at account `j` of instruction `i`. */
  ghost predicate FirstSignsAt(ixs: seq<Instruction>, k: Bytes32, i: int, j: int) {
    SignsAt(ixs, k, i, j) && forall i', j' :: SignsAt(ixs, k, i', j') ==> !Before(i', j', i, j)
  }

  /** The signing keys of `ixs`, each once, in the order in which they first sign. */
  ghost predicate ListsSigners(keys: seq<Bytes32>, ixs: seq<Instruction>) {
    && Distinct(keys)
    && (forall k :: k in keys <==> exists i, j :: SignsAt(ixs, k, i, j))
    && forall x, y, i, j, i', j' ::
         0 <= x < y < |keys| && FirstSignsAt(ixs, keys[x], i, j) && FirstSignsAt(ixs, keys[y], i', j')
         ==> Before(i, j, i', j')
  }

  /** The indices of the signing accounts. */
  function SigningSpots(accounts: seq<AccountMeta>): (r: seq<nat>)
    ensures |r| == |SigningOf(accounts)|
  {
    if accounts == [] then []
    else
      var n := |accounts| - 1;
      var front := SigningSpots(accounts[..n]);
      if accounts[n].isSigner then front + [n] else front
  }

  lemma {:induction false} AccountSigns(accounts: seq<AccountMeta>, x: nat)
    requires x < |SigningOf(accounts)|
    ensures SigningSpots(accounts)[x] < |accounts|
    ensures accounts[SigningSpots(accounts)[x]] == AccountMeta(SigningOf(accounts)[x], true)
  {
    var n := |accounts| - 1;
    if x < |SigningOf(accounts[..n])| {
      AccountSigns(accounts[..n], x);
    }
  }

  lemma {:induction false} AccountsOrdered(accounts: seq<AccountMeta>, x: nat, y: nat)
    requires x < y < |SigningOf(accounts)|
    ensures SigningSpots(accounts)[x] < SigningSpots(accounts)[y]
  {
    var n := |accounts| - 1;
    if y < |SigningOf(accounts[..n])| {
      AccountsOrdered(accounts[..n], x, y);
    } else {
      AccountSigns(accounts[..n], x);
    }
  }

  lemma {:induction false} AccountSpot(accounts: seq<AccountMeta>, j: nat) returns (x: nat)
    requires j < |accounts| && accounts[j].isSigner
    ensures x < |SigningOf(accounts)| && SigningSpots(accounts)[x] == j
  {
    var n := |accounts| - 1;
    if j < n {
      x := AccountSpot(accounts[..n], j);
    } else {
      x := |SigningOf(accounts[..n])|;
    }
  }

  /** The positions of all signing accounts, instruction by instruction. */
  function Spots(ixs: seq<Instruction>): (r: seq<(nat, nat)>)
    ensures |r| == |SigningKeys(ixs)|
  {
    if ixs == [] then []
    else
      var n := |ixs| - 1;
      Spots(ixs[..n]) + InInstruction(n, SigningSpots(ixs[n].Accounts()))
  }

  function InInstruction(i: nat, spots: seq<nat>): (r: seq<(nat, nat)>)
    ensures |r| == |spots|
  {
    seq(|spots|, x requires 0 <= x < |spots| => (i, spots[x]))
  }

  /** Entry `x` of `Spots` is where entry `x` of `SigningKeys` signs. */
  lemma {:induction false} SpotsSign(ixs: seq<Instruction>, x: nat)
    requires x < |SigningKeys(ixs)|
    ensures SignsAt(ixs, SigningKeys(ixs)[x], Spots(ixs)[x].0, Spots(ixs)[x].1)
    ensures Spots(ixs)[x].0 < |ixs|
  {
    var n := |ixs| - 1;
    var front := |SigningKeys(ixs[..n])|;
    if x < front {
      SpotsSign(ixs[..n], x);
    } else {
      AccountSigns(ixs[n].Accounts(), x - front);
      assert SigningKeys(ixs)[x] == SigningOf(ixs[n].Accounts())[x - front];
    }
  }

  lemma {:induction false} SpotsOrdered(ixs: seq<Instruction>, x: nat, y: nat)
    requires x < y < |SigningKeys(ixs)|
    ensures Before(Spots(ixs)[x].0, Spots(ixs)[x].1, Spots(ixs)[y].0, Spots(ixs)[y].1)
  {
    var n := |ixs| - 1;
    var front := |SigningKeys(ixs[..n])|;
    if y < front {
      SpotsOrdered(ixs[..n], x, y);
    } else if x < front {
      SpotsSign(ixs[..n], x);
    } else {
      AccountsOrdered(ixs[n].Accounts(), x - front, y - front);
    }
  }

  /** The signing accounts of the last instruction come last. */
  lemma LastSpot(ixs: seq<Instruction>, z: nat)
    requires ixs != [] && z < |SigningOf(ixs[|ixs| - 1].Accounts())|
    ensures var n := |ixs| - 1;
            var x := |SigningKeys(ixs[..n])| + z;
            && x < |SigningKeys(ixs)| && SigningKeys(ixs)[x] == SigningOf(ixs[n].Accounts())[z]
            && Spots(ixs)[x] == (n, SigningSpots(ixs[n].Accounts())[z])
  {
  }

  lemma {:induction false} SpotsComplete(ixs: seq<Instruction>, k: Bytes32, i: int, j: int) returns (x: nat)
    requires SignsAt(ixs, k, i, j)
    ensures x < |SigningKeys(ixs)| && SigningKeys(ixs)[x] == k && Spots(ixs)[x] == (i, j)
  {
    var n := |ixs| - 1;
    if i < n {
      x := SpotsComplete(ixs[..n], k, i, j);
    } else {
      var z := AccountSpot(ixs[n].accounts, j);
      AccountSigns(ixs[n].accounts, z);
      x := |SigningKeys(ixs[..n])| + z;
      LastSpot(ixs, z);
    }
  }

  /** Where a key first signs is where it first appears among the signing keys. */
  lemma FirstSpot(ixs: seq<Instruction>, k: Bytes32, i: int, j: int) returns (x: nat)
    requires FirstSignsAt(ixs, k, i, j)
    ensures FirstAt(SigningKeys(ixs), k, x) && Spots(ixs)[x] == (i, j)
  {
    x := SpotsComplete(ixs, k, i, j);
    forall y | 0 <= y < x
      ensures SigningKeys(ixs)[y] != k
    {
      SpotsSign(ixs, y);
      SpotsOrdered(ixs, y, x);
    }
  }

  /** The required keys are the signing keys, each once, ordered by instruction and then by account. */
  lemma RequiredListsSigners(ixs: seq<Instruction>)
    ensures ListsSigners(Required(ixs), ixs)
  {
    var keys := Required(ixs);
    FirstOccurrencesExact(SigningKeys(ixs));
    forall k
      ensures k in keys <==> exists i, j :: SignsAt(ixs, k, i, j)
    {
      SignsSomewhere(ixs, k);
    }
    forall x, y, i, j, i', j' |
      0 <= x < y < |keys| && FirstSignsAt(ixs, keys[x], i, j) && FirstSignsAt(ixs, keys[y], i', j')
      ensures Before(i, j, i', j')
    {
      var a := FirstSpot(ixs, keys[x], i, j);
      var b := FirstSpot(ixs, keys[y], i', j');
      SpotsOrdered(ixs, a, b);
    }
  }

  lemma SignsSomewhere(ixs: seq<Instruction>, k: Bytes32)
    ensures k in SigningKeys(ixs) <==> exists i, j :: SignsAt(ixs, k, i, j)
  {
    if k in SigningKeys(ixs) {
      var x :| 0 <= x < |SigningKeys(ixs)| && SigningKeys(ixs)[x] == k;
      SpotsSign(ixs, x);
    }
    if i, j :| SignsAt(ixs, k, i, j) {
      var x := SpotsComplete(ixs, k, i, j);
    }
  }

  /** The duplicate-free list of keys that must sign. */
  function Required(ixs: seq<Instruction>): seq<Bytes32> {
    FirstOccurrences(SigningKeys(ixs))
  }

  // ---- the builder's state over a run ----

  datatype State = State(payer: Bytes32, ixs: seq<Instruction>, signers: seq<Signer>)

  datatype Op = AddIx(ix: Instruction) | AddSigner(signer: Signer) | AddSigners(signers: seq<Signer>)

  predicate HasKey(signers: seq<Signer>, key: Bytes32): (r: bool)
    ensures r <==> exists i :: 0 <= i < |signers| && signers[i].pubkey == key
  {
    assert forall i :: 0 <= i < |signers| ==> Keys(signers)[i] == signers[i].pubkey;
    key in Keys(signers)
  }

  /** A signer is stored unless its key is. */
  function Store(signers: seq<Signer>, s: Signer): seq<Signer> {
    if HasKey(signers, s.pubkey) then signers else signers + [s]
  }

  function StoreAll(signers: seq<Signer>, added: seq<Signer>): seq<Signer> {
    if added == [] then signers else Store(StoreAll(signers, added[..|added| - 1]), added[|added| - 1])
  }

  function Apply(st: State, op: Op): State {
    match op
    case AddIx(ix) => st.(ixs := st.ixs + [ix])
    case AddSigner(s) => st.(signers := Store(st.signers, s))
    case AddSigners(ss) => st.(signers := StoreAll(st.signers, ss))
  }

  function Run(st: State, ops: seq<Op>): State {
    if ops == [] then st else Apply(Run(st, ops[..|ops| - 1]), ops[|ops| - 1])
  }

  /** The signers a run offers, in order. */
  function Offered(ops: seq<Op>): seq<Signer> {
    if ops == [] then []
    else
      Offered(ops[..|ops| - 1])
      + match ops[|ops| - 1]
        case AddIx(_) => []
        case AddSigner(s) => [s]
        case AddSigners(ss) => ss
  }

  // ---- the class ----

  class TransactionBuilder {
    var payer: Bytes32
    var ixs: seq<Instruction>
    var computeUnits: Option<u32>
    var priorityFees: Option<u64>
    var signers: seq<Signer>

    ghost function Current(): (st: State)
      reads this
      ensures st.payer == payer && st.ixs == ixs && st.signers == signers
    {
      State(payer, ixs, signers)
    }

    constructor (payer: Bytes32)
      ensures Current() == State(payer, [], []) && computeUnits == None && priorityFees == None
    {
      this.payer, ixs, signers, computeUnits, priorityFees := payer, [], [], None, None;
    }

    constructor WithIxs(payer: Bytes32, ixs: seq<Instruction>)
      ensures Current() == State(payer, ixs, []) && computeUnits == None && priorityFees == None
    {
      this.payer, this.ixs, signers, computeUnits, priorityFees := payer, ixs, [], None, None;
    }

    constructor WithPayerAndIxs(payer: Signer, ixs: seq<Instruction>)
      ensures Current() == State(payer.pubkey, ixs, [payer]) && computeUnits == None && priorityFees == None
    {
      this.payer, this.ixs, signers, computeUnits, priorityFees := payer.pubkey, ixs, [payer], None, None;
    }

    method SetComputeUnits(units: u32)
      modifies this
      ensures computeUnits == Some(units)
      ensures Current() == old(Current()) && priorityFees == old(priorityFees)
    {
      computeUnits := Some(units);
    }

    method SetPriorityFees(fees: u64)
      modifies this
      ensures priorityFees == Some(fees)
      ensures Current() == old(Current()) && computeUnits == old(computeUnits)
    {
      priorityFees := Some(fees);
    }

    method AddInstruction(ix: Instruction)
      modifies this`ixs
      ensures Current() == Apply(old(Current()), AddIx(ix))
      ensures ixs == old(ixs) + [ix]
    {
      ixs := ixs + [ix];
    }

    method StoreSigner(signer: Signer)
      modifies this`signers
      ensures Current() == Apply(old(Current()), AddSigner(signer))
      ensures signers == if exists i :: 0 <= i < |old(signers)| && old(signers)[i].pubkey == signer.pubkey
                         then old(signers) else old(signers) + [signer]
    {
      if !HasKey(signers, signer.pubkey) {
        signers := signers + [signer];
      }
    }

    method StoreSigners(added: seq<Signer>)
      modifies this`signers
      ensures Current() == Apply(old(Current()), AddSigners(added))
    {
      ghost var was := signers;
      for i := 0 to |added|
        invariant signers == StoreAll(was, added[..i])
      {
        assert added[..i + 1][..i] == added[..i];
        if !HasKey(signers, added[i].pubkey) {
          signers := signers + [added[i]];
        }
      }
      assert added[..|added|] == added;
    }

    /** The outer loop, over the instructions. */
    method RequiredSigners() returns (r: seq<Bytes32>)
      ensures r == Required(ixs)
      ensures ListsSigners(r, ixs)
    {
      RequiredListsSigners(ixs);
      r := [];
      for i := 0 to |ixs|
        invariant r == Required(ixs[..i])
      {
        SigningKeysNext(ixs, i);
        r := CollectSigners(r, ixs[i].Accounts(), SigningKeys(ixs[..i]));
      }
      assert ixs[..|ixs|] == ixs;
    }

    /** The inner loop, over one instruction's accounts; `before` is what the outer loop has gone through. */
    method CollectSigners(seen: seq<Bytes32>, accounts: seq<AccountMeta>, ghost before: seq<Bytes32>)
      returns (r: seq<Bytes32>)
      requires seen == FirstOccurrences(before)
      ensures r == FirstOccurrences(before + SigningOf(accounts))
    {
      r := seen;
      assert before + SigningOf(accounts[..0]) == before;
      for j := 0 to |accounts|
        invariant r == FirstOccurrences(before + SigningOf(accounts[..j]))
      {
        CollectNext(before, accounts, j);
        if accounts[j].isSigner && accounts[j].pubkey !in r {
          r := r + [accounts[j].pubkey];
        }
      }
      assert accounts[..|accounts|] == accounts;
    }

    /** The first stored signer with the key. */
    method FindStored(key: Bytes32) returns (found: Option<Signer>)
      ensures found == Lookup(signers, key)
    {
      for i := 0 to |signers|
        invariant Lookup(signers, key) == Lookup(signers[i..], key)
      {
        if signers[i].pubkey == key {
          return Some(signers[i]);
        }
        assert signers[i..][1..] == signers[i + 1..];
      }
      return None;
    }

    /** For every required key the first stored signer with it. */
    method Signers() returns (r: Outcome<seq<Signer>>)
      ensures r == Resolve(Required(ixs), signers)
      ensures r.Ok? <==> forall k, i, j :: SignsAt(ixs, k, i, j) ==> HasKey(signers, k)
      ensures r.Ok? ==> ListsSigners(Keys(r.value), ixs)
      ensures r.Ok? ==> forall s :: s in r.value ==> IsFirst(signers, s.pubkey, s)
      ensures !r.Ok? ==> r == Bail(SolanaMissingSigner)
    {
      ResolveRequired(ixs, signers);
      var required := RequiredSigners();
      var result: seq<Signer> := [];
      for i := 0 to |required|
        invariant Resolve(required[..i], signers) == Ok(result)
      {
        ResolveNext(required, signers, i);
        var found := FindStored(required[i]);
        if found.None? {
          ResolveFails(required, signers, i + 1);
          return Bail(SolanaMissingSigner);
        }
        result := result + [found.value];
      }
      assert required[..|required|] == required;
      r := Ok(result);
    }

    /** The payer's own signature comes from the caller, every other one from the store. */
    method SignersWithPayer(payerSigner: Signer) returns (r: Outcome<seq<Signer>>)
      ensures r == ResolveWithPayer(Current(), payerSigner)
      ensures payerSigner.pubkey != payer ==> r == Bail(SolanaPayerMismatch)
      ensures payerSigner.pubkey == payer ==>
                && (r.Ok? <==> forall k, i, j :: SignsAt(ixs, k, i, j) && k != payer ==> HasKey(signers, k))
                && (!r.Ok? ==> r == Bail(SolanaMissingSigner))
      ensures r.Ok? ==> ListsSigners(Keys(r.value), ixs)
      ensures r.Ok? ==> forall s :: s in r.value ==>
                                  if s.pubkey == payer then s == payerSigner else IsFirst(signers, s.pubkey, s)
    {
      ResolveSupplied(ixs, signers, payerSigner);
      if payerSigner.pubkey != payer {
        return Bail(SolanaPayerMismatch);
      }
      ghost var all := [payerSigner] + signers;
      var required := RequiredSigners();
      var result: seq<Signer> := [];
      for i := 0 to |required|
        invariant Resolve(required[..i], all) == Ok(result)
      {
        ResolveNext(required, all, i);
        LookupPayerFirst(payerSigner, signers, required[i]);
        if required[i] == payer {
          result := result + [payerSigner];
        } else {
          var found := FindStored(required[i]);
          if found.None? {
            ResolveFails(required, all, i + 1);
            return Bail(SolanaMissingSigner);
          }
          result := result + [found.value];
        }
      }
      assert required[..|required|] == required;
      r := Ok(result);
    }

    /** Limit first, then price, then the caller's instructions; at most ten in all. */
    method Ixs() returns (r: Outcome<seq<Instruction>>)
      ensures r.Ok? <==> 0 < |ixs| && |ixs| + |Budget(computeUnits, priorityFees)| <= 10
      ensures r.Ok? ==> r.value == Budget(computeUnits, priorityFees) + ixs
      ensures !r.Ok? ==> r == Bail(if ixs == [] then SolanaInstructionsEmpty else SolanaInstructionOverflow)
    {
      if |ixs| == 0 {
        return Bail(SolanaInstructionsEmpty);
      }
      var pre: seq<Instruction> := [];
      if computeUnits.Some? {
        pre := pre + [SetComputeUnitLimit(Clamp(computeUnits.value, 200_000, 1_400_000))];
      }
      if priorityFees.Some? {
        pre := pre + [SetComputeUnitPrice(if priorityFees.value < 10_000 then priorityFees.value else 10_000)];
      }
      var all := pre + ixs;
      if |all| > 10 {
        return Bail(SolanaInstructionOverflow);
      }
      r := Ok(all);
    }
  }

  function Clamp(x: u32, lo: u32, hi: u32): u32
    requires lo <= hi
  {
    if x < lo then lo else if x > hi then hi else x
  }

  function Budget(computeUnits: Option<u32>, priorityFees: Option<u64>): seq<Instruction> {
    (if computeUnits.Some? then [SetComputeUnitLimit(Clamp(computeUnits.value, 200_000, 1_400_000))] else [])
    + (if priorityFees.Some? then
         [SetComputeUnitPrice(if priorityFees.value < 10_000 then priorityFees.value else 10_000)]
       else [])
  }

  /** A limit request is moved to the nearest value from 200,000 to 1,400,000 and a price request to at most 10,000;
      neither appears unrequested. The limit always comes first and the price last, so the price leads exactly when
      fees are set and units are not. */
  lemma BudgetExact(computeUnits: Option<u32>, priorityFees: Option<u64>)
    ensures var b := Budget(computeUnits, priorityFees);
            && |b| == (if computeUnits.Some? then 1 else 0) + (if priorityFees.Some? then 1 else 0)
            && (computeUnits.Some? ==>
                  && b[0].SetComputeUnitLimit?
                  && (computeUnits.value <= 200_000 ==> b[0].units == 200_000)
                  && (200_000 <= computeUnits.value <= 1_400_000 ==> b[0].units == computeUnits.value)
                  && (computeUnits.value >= 1_400_000 ==> b[0].units == 1_400_000))
            && (priorityFees.Some? ==>
                  && b[|b| - 1].SetComputeUnitPrice?
                  && (priorityFees.value <= 10_000 ==> b[|b| - 1].microLamports == priorityFees.value)
                  && (priorityFees.value >= 10_000 ==> b[|b| - 1].microLamports == 10_000))
            && (b != [] && b[0].SetComputeUnitPrice? <==> priorityFees.Some? && computeUnits.None?)
  {
  }

  // ---- matching required keys to stored signers ----

  function Lookup(stored: seq<Signer>, key: Bytes32): (r: Option<Signer>)
    ensures r.Some? ==> r.value in stored && r.value.pubkey == key
  {
    if stored == [] then None
    else if stored[0].pubkey == key then Some(stored[0])
    else Lookup(stored[1..], key)
  }

  /** One signer per required key, in order; fails when one is missing. */
  function Resolve(required: seq<Bytes32>, stored: seq<Signer>): Outcome<seq<Signer>> {
    if required == [] then Ok([])
    else
      var front :- Resolve(required[..|required| - 1], stored);
      match Lookup(stored, required[|required| - 1])
      case None => Bail(SolanaMissingSigner)
      case Some(s) => Ok(front + [s])
  }

  /** The payer's signer is supplied, and must be the payer's. */
  function ResolveWithPayer(st: State, payerSigner: Signer): Outcome<seq<Signer>> {
    if payerSigner.pubkey != st.payer then Bail(SolanaPayerMismatch)
    else Resolve(Required(st.ixs), [payerSigner] + st.signers)
  }

  lemma ResolveNext(required: seq<Bytes32>, stored: seq<Signer>, i: nat)
    requires i < |required| && Resolve(required[..i], stored).Ok?
    ensures var found := Lookup(stored, required[i]);
            Resolve(required[..i + 1], stored)
            == if found.None? then Bail(SolanaMissingSigner)
               else Ok(Resolve(required[..i], stored).value + [found.value])
  {
    assert required[..i + 1][..i] == required[..i];
  }

  lemma LookupPayerFirst(payer: Signer, stored: seq<Signer>, key: Bytes32)
    ensures Lookup([payer] + stored, key) == if payer.pubkey == key then Some(payer) else Lookup(stored, key)
  {
    assert ([payer] + stored)[1..] == stored;
  }

  /** A failure on a prefix is a failure of the whole. */
  lemma {:induction false} ResolveFails(required: seq<Bytes32>, stored: seq<Signer>, n: nat)
    requires n <= |required| && Resolve(required[..n], stored) == Bail(SolanaMissingSigner)
    ensures Resolve(required, stored) == Bail(SolanaMissingSigner)
    decreases |required|
  {
    if n == |required| {
      assert required[..n] == required;
    } else {
      var front := required[..|required| - 1];
      assert front[..n] == required[..n];
      ResolveFails(front, stored, n);
    }
  }

  lemma {:induction false} LookupExact(stored: seq<Signer>, key: Bytes32)
    ensures Lookup(stored, key).Some? <==> HasKey(stored, key)
  {
    if stored != [] {
      LookupExact(stored[1..], key);
      assert Keys(stored) == [stored[0].pubkey] + Keys(stored[1..]);
    }
  }

  /** The matching succeeds exactly when every required key is stored, and returns stored signers whose keys are
      the required keys in exactly that order. */
  lemma {:induction false} ResolveExact(required: seq<Bytes32>, stored: seq<Signer>)
    ensures Resolve(required, stored).Ok? <==> forall k :: k in required ==> HasKey(stored, k)
    ensures Resolve(required, stored).Ok? ==> Keys(Resolve(required, stored).value) == required
    ensures Resolve(required, stored).Ok? ==> forall s :: s in Resolve(required, stored).value ==> s in stored
    ensures !Resolve(required, stored).Ok? ==> Resolve(required, stored) == Bail(SolanaMissingSigner)
  {
    if required != [] {
      var n := |required| - 1;
      ResolveExact(required[..n], stored);
      LookupExact(stored, required[n]);
      assert required == required[..n] + [required[n]];
      assert forall k :: k in required <==> k in required[..n] || k == required[n];
    }
  }

  /** Signer `s` is the first in `stored` with the key. */
  ghost predicate IsFirst(stored: seq<Signer>, key: Bytes32, s: Signer) {
    exists i :: 0 <= i < |stored| && stored[i] == s && s.pubkey == key
                && forall j :: 0 <= j < i ==> stored[j].pubkey != key
  }

  lemma {:induction false} LookupFirst(stored: seq<Signer>, key: Bytes32)
    requires Lookup(stored, key).Some?
    ensures IsFirst(stored, key, Lookup(stored, key).value)
  {
    if stored[0].pubkey != key {
      LookupFirst(stored[1..], key);
      var i :| 0 <= i < |stored[1..]| && stored[1..][i] == Lookup(stored, key).value
               && forall j :: 0 <= j < i ==> stored[1..][j].pubkey != key;
      assert stored[i + 1] == Lookup(stored, key).value;
      assert forall j :: 1 <= j < i + 1 ==> stored[j] == stored[1..][j - 1];
    }
  }

  lemma {:induction false} ResolveLooksUp(required: seq<Bytes32>, stored: seq<Signer>)
    requires Resolve(required, stored).Ok?
    ensures forall s :: s in Resolve(required, stored).value ==> Lookup(stored, s.pubkey) == Some(s)
  {
    if required != [] {
      ResolveLooksUp(required[..|required| - 1], stored);
    }
  }

  /** Matching the required keys, told from the instructions and the stored signers alone. */
  lemma ResolveRequired(ixs: seq<Instruction>, stored: seq<Signer>)
    ensures var r := Resolve(Required(ixs), stored);
            && (r.Ok? <==> forall k, i, j :: SignsAt(ixs, k, i, j) ==> HasKey(stored, k))
            && (r.Ok? ==> ListsSigners(Keys(r.value), ixs))
            && (r.Ok? ==> forall s :: s in r.value ==> IsFirst(stored, s.pubkey, s))
            && (!r.Ok? ==> r == Bail(SolanaMissingSigner))
  {
    var required := Required(ixs);
    ResolveExact(required, stored);
    RequiredListsSigners(ixs);
    if Resolve(required, stored).Ok? {
      ResolveLooksUp(required, stored);
      forall s | s in Resolve(required, stored).value
        ensures IsFirst(stored, s.pubkey, s)
      {
        LookupFirst(stored, s.pubkey);
      }
    }
  }

  /** The same where the payer's signer is supplied. */
  lemma ResolveSupplied(ixs: seq<Instruction>, stored: seq<Signer>, payer: Signer)
    ensures var r := Resolve(Required(ixs), [payer] + stored);
            && (r.Ok? <==> forall k, i, j :: SignsAt(ixs, k, i, j) && k != payer.pubkey ==> HasKey(stored, k))
            && (r.Ok? ==> ListsSigners(Keys(r.value), ixs))
            && (r.Ok? ==> forall s :: s in r.value ==>
                                 if s.pubkey == payer.pubkey then s == payer else IsFirst(stored, s.pubkey, s))
            && (!r.Ok? ==> r == Bail(SolanaMissingSigner))
  {
    var all := [payer] + stored;
    ResolveRequired(ixs, all);
    forall k: Bytes32
      ensures HasKey(all, k) <==> k == payer.pubkey || HasKey(stored, k)
    {
      HasKeyPayerFirst(payer, stored, k);
    }
    if Resolve(Required(ixs), all).Ok? {
      ResolveLooksUp(Required(ixs), all);
      forall s | s in Resolve(Required(ixs), all).value
        ensures if s.pubkey == payer.pubkey then s == payer else IsFirst(stored, s.pubkey, s)
      {
        LookupPayerFirst(payer, stored, s.pubkey);
        if s.pubkey != payer.pubkey {
          LookupFirst(stored, s.pubkey);
        }
      }
    }
  }

  // ---- runs ----

  /** The instructions a run adds, in order. */
  function Added(ops: seq<Op>): seq<Instruction> {
    if ops == [] then []
    else
      var last := ops[|ops| - 1];
      Added(ops[..|ops| - 1]) + if last.AddIx? then [last.ix] else []
  }

  /** A run appends the instructions it adds and keeps the payer. */
  lemma {:induction false} RunAddsIxs(st: State, ops: seq<Op>)
    ensures Run(st, ops).ixs == st.ixs + Added(ops) && Run(st, ops).payer == st.payer
  {
    if ops != [] {
      RunAddsIxs(st, ops[..|ops| - 1]);
    }
  }

  /** A run is its first part and then its second, and a single step is its own run. */
  lemma {:induction false} RunAppend(st: State, a: seq<Op>, b: seq<Op>)
    ensures Run(st, a + b) == Run(Run(st, a), b)
    ensures |b| == 1 ==> Run(st, a + b) == Apply(Run(st, a), b[0])
    decreases |b|
  {
    if b == [] {
      assert a + b == a;
    } else {
      assert (a + b)[..|a + b| - 1] == a + b[..|b| - 1];
      RunAppend(st, a, b[..|b| - 1]);
    }
  }

  lemma StoreDistinct(signers: seq<Signer>, s: Signer)
    requires Distinct(Keys(signers))
    ensures Distinct(Keys(Store(signers, s)))
  {
    if !HasKey(signers, s.pubkey) {
      assert Keys(signers + [s]) == Keys(signers) + [s.pubkey];
    }
  }

  lemma {:induction false} StoreAllDistinct(signers: seq<Signer>, added: seq<Signer>)
    requires Distinct(Keys(signers))
    ensures Distinct(Keys(StoreAll(signers, added)))
  {
    if added != [] {
      StoreAllDistinct(signers, added[..|added| - 1]);
      StoreDistinct(StoreAll(signers, added[..|added| - 1]), added[|added| - 1]);
    }
  }

  /** Stored keys stay pairwise distinct along every run. */
  lemma {:induction false} RunDistinct(st: State, ops: seq<Op>)
    requires Distinct(Keys(st.signers))
    ensures Distinct(Keys(Run(st, ops).signers))
  {
    if ops != [] {
      var before := Run(st, ops[..|ops| - 1]);
      RunDistinct(st, ops[..|ops| - 1]);
      match ops[|ops| - 1]
      case AddIx(_) =>
      case AddSigner(s) => StoreDistinct(before.signers, s);
      case AddSigners(ss) => StoreAllDistinct(before.signers, ss);
    }
  }

  lemma {:induction false} StoreAllAppend(signers: seq<Signer>, a: seq<Signer>, b: seq<Signer>)
    ensures StoreAll(signers, a + b) == StoreAll(StoreAll(signers, a), b)
    decreases |b|
  {
    if b == [] {
      assert a + b == a;
    } else {
      StoreAllAppend(signers, a, b[..|b| - 1]);
      assert (a + b)[..|a + b| - 1] == a + b[..|b| - 1];
    }
  }

  /** How a run groups its offers does not matter: the store is that of offering all signers one by one. */
  lemma {:induction false} RunStoresOffered(st: State, ops: seq<Op>)
    ensures Run(st, ops).signers == StoreAll(st.signers, Offered(ops))
  {
    if ops != [] {
      var front := ops[..|ops| - 1];
      RunStoresOffered(st, front);
      match ops[|ops| - 1]
      case AddIx(_) =>
        assert Offered(ops) == Offered(front);
      case AddSigner(s) =>
        StoreAllAppend(st.signers, Offered(front), [s]);
        assert StoreAll(Run(st, front).signers, [s]) == Store(Run(st, front).signers, s);
      case AddSigners(ss) =>
        StoreAllAppend(st.signers, Offered(front), ss);
    }
  }

  /** For each key the signer kept is the first one offered, counting those stored at the start. */
  lemma {:induction false} StoreAllKeepsFirst(signers: seq<Signer>, added: seq<Signer>, key: Bytes32)
    ensures Lookup(StoreAll(signers, added), key) == Lookup(signers + added, key)
    decreases |added|
  {
    if added == [] {
      assert signers + added == signers;
    } else {
      var front, last := added[..|added| - 1], added[|added| - 1];
      var kept := StoreAll(signers, front);
      StoreAllKeepsFirst(signers, front, key);
      StoreAllKeepsFirst(signers, front, last.pubkey);
      assert signers + added == signers + front + [last];
      LookupAppend(signers + front, last, key);
      LookupAppend(kept, last, key);
      LookupExact(kept, last.pubkey);
    }
  }

  lemma {:induction false} LookupAppend(stored: seq<Signer>, s: Signer, key: Bytes32)
    ensures Lookup(stored + [s], key)
         == if Lookup(stored, key).Some? then Lookup(stored, key) else if s.pubkey == key then Some(s) else None
  {
    if stored == [] {
      assert stored + [s] == [s];
    } else {
      assert (stored + [s])[1..] == stored[1..] + [s];
      LookupAppend(stored[1..], s, key);
    }
  }

  /** Main result on runs: after any run, `signers` succeeds exactly when every signing key was stored at the
      start or offered, and returns the first signer offered for each, ordered by where the keys first sign. */
  lemma RunResolves(st: State, ops: seq<Op>)
    ensures var after, offered := Run(st, ops), st.signers + Offered(ops);
            var r := Resolve(Required(after.ixs), after.signers);
            && r == Resolve(Required(after.ixs), offered)
            && (r.Ok? <==> forall k, i, j :: SignsAt(after.ixs, k, i, j) ==> HasKey(offered, k))
            && (r.Ok? ==> ListsSigners(Keys(r.value), after.ixs))
            && (r.Ok? ==> forall s :: s in r.value ==> IsFirst(offered, s.pubkey, s))
  {
    var after := Run(st, ops);
    RunStoresOffered(st, ops);
    forall k: Bytes32
      ensures Lookup(after.signers, k) == Lookup(st.signers + Offered(ops), k)
    {
      StoreAllKeepsFirst(st.signers, Offered(ops), k);
    }
    ResolveByLookup(Required(after.ixs), after.signers, st.signers + Offered(ops));
    ResolveRequired(after.ixs, st.signers + Offered(ops));
  }

  lemma {:induction false} ResolveByLookup(required: seq<Bytes32>, a: seq<Signer>, b: seq<Signer>)
    requires forall k: Bytes32 :: Lookup(a, k) == Lookup(b, k)
    ensures Resolve(required, a) == Resolve(required, b)
  {
    if required != [] {
      ResolveByLookup(required[..|required| - 1], a, b);
    }
  }

  /** Supplying the payer separately agrees with storing it: where the store already holds that very signer,
      both ways give the same result. */
  lemma {:induction false} PayerSuppliedOrStored(required: seq<Bytes32>, stored: seq<Signer>, payer: Signer)
    requires Lookup(stored, payer.pubkey) == Some(payer)
    ensures Resolve(required, [payer] + stored) == Resolve(required, stored)
  {
    forall k: Bytes32
      ensures Lookup([payer] + stored, k) == Lookup(stored, k)
    {
      LookupPayerFirst(payer, stored, k);
    }
    ResolveByLookup(required, [payer] + stored, stored);
  }

  lemma {:induction false} ResolveAt(required: seq<Bytes32>, stored: seq<Signer>, i: nat)
    requires Resolve(required, stored).Ok? && i < |required|
    ensures |Resolve(required, stored).value| == |required|
    ensures Some(Resolve(required, stored).value[i]) == Lookup(stored, required[i])
    decreases |required|
  {
    var n := |required| - 1;
    ResolveExact(required, stored);
    ResolveExact(required[..n], stored);
    if i < n {
      ResolveAt(required[..n], stored, i);
    }
  }

  lemma HasKeyPayerFirst(payer: Signer, stored: seq<Signer>, k: Bytes32)
    ensures HasKey([payer] + stored, k) <==> k == payer.pubkey || HasKey(stored, k)
  {
    assert Keys([payer] + stored) == [payer.pubkey] + Keys(stored);
  }

  /** With the payer supplied, exactly the other required keys must be stored; position `i` then holds the payer's
      signer or a stored one with the required key. */
  lemma PayerSuppliedExact(required: seq<Bytes32>, stored: seq<Signer>, payer: Signer, i: nat)
    requires i < |required|
    ensures var r := Resolve(required, [payer] + stored);
            && (r.Ok? <==> forall k :: k in required && k != payer.pubkey ==> HasKey(stored, k))
            && (r.Ok? ==> |r.value| == |required|)
            && (r.Ok? && required[i] == payer.pubkey ==> r.value[i] == payer)
            && (r.Ok? && required[i] != payer.pubkey ==> Some(r.value[i]) == Lookup(stored, required[i]))
  {
    ResolveExact(required, [payer] + stored);
    forall k: Bytes32
      ensures HasKey([payer] + stored, k) <==> k == payer.pubkey || HasKey(stored, k)
    {
      HasKeyPayerFirst(payer, stored, k);
    }
    if Resolve(required, [payer] + stored).Ok? {
      ResolveAt(required, [payer] + stored, i);
      LookupPayerFirst(payer, stored, required[i]);
    }
  }

  /** The run theorem for `signers_with_payer`: after any run it fails for another key than the payer's; otherwise it
      succeeds exactly when every other signing key was stored at the start or offered, and returns the supplied
      signer for the payer and the first one offered for each other key. */
  lemma RunResolvesWithPayer(st: State, ops: seq<Op>, payerSigner: Signer)
    ensures var after := Run(st, ops);
            var r, offered := ResolveWithPayer(after, payerSigner), st.signers + Offered(ops);
            if payerSigner.pubkey != st.payer then r == Bail(SolanaPayerMismatch)
            else
              && r == Resolve(Required(after.ixs), [payerSigner] + offered)
              && (r.Ok? <==> forall k, i, j ::
                              SignsAt(after.ixs, k, i, j) && k != st.payer ==> HasKey(offered, k))
              && (r.Ok? ==> ListsSigners(Keys(r.value), after.ixs))
              && (r.Ok? ==> forall s :: s in r.value ==>
                                   if s.pubkey == st.payer then s == payerSigner else IsFirst(offered, s.pubkey, s))
  {
    var after, offered := Run(st, ops), st.signers + Offered(ops);
    RunAddsIxs(st, ops);
    RunStoresOffered(st, ops);
    forall k: Bytes32
      ensures Lookup([payerSigner] + after.signers, k) == Lookup([payerSigner] + offered, k)
    {
      StoreAllKeepsFirst(st.signers, Offered(ops), k);
      LookupPayerFirst(payerSigner, after.signers, k);
      LookupPayerFirst(payerSigner, offered, k);
    }
    ResolveByLookup(Required(after.ixs), [payerSigner] + after.signers, [payerSigner] + offered);
    ResolveSupplied(after.ixs, offered, payerSigner);
  }
}
