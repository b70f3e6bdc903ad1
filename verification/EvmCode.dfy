/**
 * The contract code store: code kept once per hash, with a reference count. The hash function is a
 * parameter throughout.
 */
module EvmCode {
  import opened Numbers

  type Address = nat
  type Hash = nat
  type Code = seq<nat>
  type Hasher = Code -> Hash

  datatype CodeInfo = CodeInfo(size: nat, refCount: nat)

  datatype ContractInfo = ContractInfo(codeHash: Hash, maintainer: Address, deployed: bool)

  datatype Account = Account(nonce: nat, contract: Option<ContractInfo>)

  datatype Store = Store(accounts: map<Address, Account>, codes: map<Hash, Code>, infos: map<Hash, CodeInfo>)

  datatype Error =
    | OutOfGas | ContractNotFound | AddressNotMapped | NoPermission
    | ContractAlreadyDeployed | ContractExceedsMaxCodeSize

  datatype Config = Config(maxCodeSize: nat, ethereumCompatibility: bool)

  /** Who asks for a change: root, or a signer with the address it maps to, if any. */
  datatype Origin = Root | Signed(address: Option<Address>)

  /** The length as the 32 bits it is kept in. */
  function SizeOf(code: Code): nat { |code| % (U32_MAX + 1) }

  // ---------- reading ----------

  function HashHeld(s: Store, a: Address): Option<Hash>
  {
    if a in s.accounts && s.accounts[a].contract.Some? then Some(s.accounts[a].contract.value.codeHash) else None
  }

  function CodeHashAt(s: Store, a: Address, hash: Hasher): Hash
  {
    match HashHeld(s, a) case Some(h) => h case None => hash([])
  }

  function CodeAt(s: Store, a: Address, hash: Hasher): Code
  {
    var h := CodeHashAt(s, a, hash);
    if h in s.codes then s.codes[h] else []
  }

  // ---------- changing ----------

  /** One more reference; the code is stored with the first. */
  function AddRef(s: Store, h: Hash, code: Code): Store
  {
    if h in s.infos then
      s.(infos := s.infos[h := s.infos[h].(refCount := Min(s.infos[h].refCount + 1, U32_MAX))])
    else
      s.(infos := s.infos[h := CodeInfo(SizeOf(code), 1)], codes := s.codes[h := code])
  }

  /** One reference less; the code goes with the last. */
  function DropRef(s: Store, h: Hash): Store
  {
    if h !in s.infos then s
    else if s.infos[h].refCount <= 1 then s.(infos := s.infos - {h}, codes := s.codes - {h})
    else s.(infos := s.infos[h := s.infos[h].(refCount := s.infos[h].refCount - 1)])
  }

  function SetContract(s: Store, a: Address, info: ContractInfo): Store
  {
    var nonce := if a in s.accounts then s.accounts[a].nonce else 0;
    s.(accounts := s.accounts[a := Account(nonce, Some(info))])
  }

  function Initialize(s: Store, a: Address, maintainer: Address, code: Code, hash: Hasher,
      c: Config): Result<Store, Error>
  {
    if SizeOf(code) > c.maxCodeSize then Err(OutOfGas)
    else Ok(SetContract(AddRef(s, hash(code), code), a, ContractInfo(hash(code), maintainer, c.ethereumCompatibility)))
  }

  /** The code is stored, but no account is made to point to it. */
  function SetCode(s: Store, origin: Origin, a: Address, code: Code, hash: Hasher, c: Config): Result<Store, Error>
  {
    if HashHeld(s, a).None? then Err(ContractNotFound)
    else
      var info := s.accounts[a].contract.value;
      if origin.Signed? && origin.address.None? then Err(AddressNotMapped)
      else if origin.Signed? && info.maintainer != origin.address.value then Err(NoPermission)
      else if origin.Signed? && info.deployed then Err(ContractAlreadyDeployed)
      else if hash(code) == info.codeHash then Ok(s)
      else if SizeOf(code) > c.maxCodeSize then Err(ContractExceedsMaxCodeSize)
      else Ok(AddRef(s, hash(code), code))
  }

  function Remove(s: Store, a: Address): Store
  {
    var s1 := match HashHeld(s, a) case Some(h) => DropRef(s, h) case None => s;
    s1.(accounts := s1.accounts - {a})
  }

  // ---------- reference counts ----------

  function Holders(s: Store, h: Hash): set<Address>
  {
    set a | a in s.accounts && HashHeld(s, a) == Some(h)
  }

  /** References that no account stands for: code set but not pointed to, and contracts overwritten. */
  type Leaks = map<Hash, nat>

  function LeakOf(leaks: Leaks, h: Hash): nat { if h in leaks then leaks[h] else 0 }

  function Leaked(leaks: Leaks, h: Hash): Leaks { leaks[h := LeakOf(leaks, h) + 1] }

  ghost predicate CodeInv(s: Store, leaks: Leaks, hash: Hasher, h: Hash)
  {
    var refs := |Holders(s, h)| + LeakOf(leaks, h);
    && (h in s.infos <==> refs > 0)
    && (h in s.codes <==> h in s.infos)
    && (h in s.infos ==> s.infos[h].refCount == refs)
    && (h in s.codes && h in s.infos ==> hash(s.codes[h]) == h && s.infos[h].size == SizeOf(s.codes[h]))
  }

  /** Every count is the number of holders plus the number of leaks; code is kept while it is not zero. */
  ghost predicate Inv(s: Store, leaks: Leaks, hash: Hasher)
  {
    forall h: Hash :: CodeInv(s, leaks, hash, h)
  }

  ghost predicate NotFull(s: Store)
  {
    forall h :: h in s.infos ==> s.infos[h].refCount < U32_MAX
  }

  lemma AddRefKeeps(s: Store, leaks: Leaks, hash: Hasher, code: Code)
    requires Inv(s, leaks, hash) && (hash(code) in s.infos ==> s.infos[hash(code)].refCount < U32_MAX)
    ensures Inv(AddRef(s, hash(code), code), Leaked(leaks, hash(code)), hash)
  {
    hide SizeOf;
    var s', leaks' := AddRef(s, hash(code), code), Leaked(leaks, hash(code));
    forall h: Hash ensures CodeInv(s', leaks', hash, h) {
      assert CodeInv(s, leaks, hash, h);
      assert Holders(s', h) == Holders(s, h);
    }
  }

  /** Counting one more reference is exact unless the count is full, and then it is not. */
  lemma AddRefExactly(s: Store, leaks: Leaks, hash: Hasher, code: Code)
    requires Inv(s, leaks, hash)
    ensures var h := hash(code);
      Inv(AddRef(s, h, code), Leaked(leaks, h), hash) <==> !(h in s.infos && s.infos[h].refCount >= U32_MAX)
  {
    var h := hash(code);
    var s', leaks' := AddRef(s, h, code), Leaked(leaks, h);
    if h in s.infos && s.infos[h].refCount >= U32_MAX {
      assert CodeInv(s, leaks, hash, h);
      assert Holders(s', h) == Holders(s, h);
      assert !CodeInv(s', leaks', hash, h);
    } else {
      AddRefKeeps(s, leaks, hash, code);
    }
  }

  /** An account takes over one leaked reference, and leaks the one it held. */
  lemma SetContractKeeps(s: Store, leaks: Leaks, hash: Hasher, a: Address, info: ContractInfo)
    requires Inv(s, leaks, hash) && LeakOf(leaks, info.codeHash) > 0
    ensures var h0, h1 := HashHeld(s, a), info.codeHash;
      var given := leaks[h1 := LeakOf(leaks, h1) - 1];
      Inv(SetContract(s, a, info), if h0.Some? then Leaked(given, h0.value) else given, hash)
  {
    hide SizeOf;
    var h0, h1 := HashHeld(s, a), info.codeHash;
    var given := leaks[h1 := LeakOf(leaks, h1) - 1];
    var s', leaks' := SetContract(s, a, info), if h0.Some? then Leaked(given, h0.value) else given;
    forall h: Hash ensures CodeInv(s', leaks', hash, h) {
      assert CodeInv(s, leaks, hash, h);
      HoldersAfter(s, a, info, h);
    }
  }

  lemma OthersHold(s: Store, a: Address, info: ContractInfo, h: Hash)
    ensures Holders(SetContract(s, a, info), h) - {a} == Holders(s, h) - {a}
    ensures a in Holders(SetContract(s, a, info), h) <==> info.codeHash == h
    ensures a in Holders(s, h) <==> HashHeld(s, a) == Some(h)
  {
    var s' := SetContract(s, a, info);
    forall b | b != a ensures b in Holders(s, h) <==> b in Holders(s', h) {
      assert HashHeld(s', b) == HashHeld(s, b);
    }
  }

  lemma HoldersAfter(s: Store, a: Address, info: ContractInfo, h: Hash)
    ensures |Holders(SetContract(s, a, info), h)| + (if HashHeld(s, a) == Some(h) then 1 else 0)
         == |Holders(s, h)| + (if info.codeHash == h then 1 else 0)
  {
    OthersHold(s, a, info, h);
    hide Holders, SetContract;
    SizeWithout(Holders(s, h), a);
    SizeWithout(Holders(SetContract(s, a, info), h), a);
  }

  lemma SizeWithout(s: set<Address>, a: Address)
    ensures |s| == |s - {a}| + if a in s then 1 else 0
  {
    assert a !in s ==> s - {a} == s;
  }

  lemma HoldersWithout(s: Store, s': Store, a: Address, h: Hash)
    requires s'.accounts == s.accounts - {a}
    ensures |Holders(s', h)| + (if HashHeld(s, a) == Some(h) then 1 else 0) == |Holders(s, h)|
  {
    assert Holders(s', h) == Holders(s, h) - {a};
    assert a in Holders(s, h) <==> HashHeld(s, a) == Some(h);
  }

  lemma RemoveKeeps(s: Store, leaks: Leaks, hash: Hasher, a: Address)
    requires Inv(s, leaks, hash)
    ensures Inv(Remove(s, a), leaks, hash)
  {
    hide SizeOf, Holders;
    var s' := Remove(s, a);
    forall h: Hash ensures CodeInv(s', leaks, hash, h) {
      assert CodeInv(s, leaks, hash, h);
      HoldersWithout(s, s', a, h);
    }
  }

  // ---------- runs ----------

  datatype Call =
    | Init(address: Address, maintainer: Address, code: Code)
    | Set(origin: Origin, contract: Address, newCode: Code)
    | Kill(victim: Address)

  datatype World = World(store: Store, leaks: Leaks)

  function Next(w: World, call: Call, hash: Hasher, c: Config): World
  {
    match call
    case Init(a, maintainer, code) =>
      (match Initialize(w.store, a, maintainer, code, hash, c)
       case Ok(s) =>
         World(s, match HashHeld(w.store, a) case Some(h) => Leaked(w.leaks, h) case None => w.leaks)
       case Err(_) => w)
    case Set(origin, a, code) =>
      (match SetCode(w.store, origin, a, code, hash, c)
       case Ok(s) =>
         World(s, if CodeHashAt(w.store, a, hash) == hash(code) then w.leaks else Leaked(w.leaks, hash(code)))
       case Err(_) => w)
    case Kill(a) => w.(store := Remove(w.store, a))
  }

  function Genesis(): World { World(Store(map[], map[], map[]), map[]) }

  function RunTo(calls: seq<Call>, k: nat, hash: Hasher, c: Config): World
    requires k <= |calls|
  {
    if k == 0 then Genesis() else Next(RunTo(calls, k - 1, hash, c), calls[k - 1], hash, c)
  }

  lemma SameLeaks(s: Store, leaks: Leaks, leaks': Leaks, hash: Hasher)
    requires Inv(s, leaks, hash) && forall h: Hash :: LeakOf(leaks, h) == LeakOf(leaks', h)
    ensures Inv(s, leaks', hash)
  {
    forall h: Hash ensures CodeInv(s, leaks', hash, h) {
      assert CodeInv(s, leaks, hash, h);
    }
  }

  lemma InitKeeps(w: World, call: Call, hash: Hasher, c: Config)
    requires Inv(w.store, w.leaks, hash) && NotFull(w.store) && call.Init?
    ensures var r := Next(w, call, hash, c); Inv(r.store, r.leaks, hash)
  {
    hide Inv, SizeOf;
    var h := hash(call.code);
    AddRefKeeps(w.store, w.leaks, hash, call.code);
    var s1, leaks1 := AddRef(w.store, h, call.code), Leaked(w.leaks, h);
    var info := ContractInfo(h, call.maintainer, c.ethereumCompatibility);
    SetContractKeeps(s1, leaks1, hash, call.address, info);
    var h0 := HashHeld(s1, call.address);
    var given := leaks1[h := LeakOf(leaks1, h) - 1];
    SameLeaks(SetContract(s1, call.address, info), if h0.Some? then Leaked(given, h0.value) else given,
              if h0.Some? then Leaked(w.leaks, h0.value) else w.leaks, hash);
  }

  lemma NextKeeps(w: World, call: Call, hash: Hasher, c: Config)
    requires Inv(w.store, w.leaks, hash) && NotFull(w.store)
    ensures var r := Next(w, call, hash, c); Inv(r.store, r.leaks, hash)
  {
    hide Inv, AddRef, SizeOf;
    match call
    case Init(_, _, _) => InitKeeps(w, call, hash, c);
    case Set(_, _, code) => AddRefKeeps(w.store, w.leaks, hash, code);
    case Kill(a) => RemoveKeeps(w.store, w.leaks, hash, a);
  }

  /** Over every run in which no count gets full, counts are exact and every contract resolves to its code. */
  lemma {:induction false} CountsExact(calls: seq<Call>, k: nat, hash: Hasher, c: Config)
    requires k <= |calls| && forall j :: 0 <= j < k ==> NotFull(RunTo(calls, j, hash, c).store)
    ensures Inv(RunTo(calls, k, hash, c).store, RunTo(calls, k, hash, c).leaks, hash)
  {
    hide Next;
    if k == 0 {
      assert forall h: Hash :: Holders(Genesis().store, h) == {};
    } else {
      CountsExact(calls, k - 1, hash, c);
      NextKeeps(RunTo(calls, k - 1, hash, c), calls[k - 1], hash, c);
    }
  }

  ghost predicate CountsWithin(s: Store, n: nat)
  {
    forall h :: h in s.infos ==> s.infos[h].refCount <= n
  }

  lemma NextCountsWithin(w: World, call: Call, hash: Hasher, c: Config, n: nat)
    requires CountsWithin(w.store, n)
    ensures CountsWithin(Next(w, call, hash, c).store, n + 1)
  {
  }

  /** A count never exceeds the number of calls made. */
  lemma {:induction false} CountsGrowSlowly(calls: seq<Call>, k: nat, hash: Hasher, c: Config)
    requires k <= |calls|
    ensures CountsWithin(RunTo(calls, k, hash, c).store, k)
  {
    hide Next;
    if k == 0 {
    } else {
      CountsGrowSlowly(calls, k - 1, hash, c);
      NextCountsWithin(RunTo(calls, k - 1, hash, c), calls[k - 1], hash, c, k - 1);
    }
  }

  /** So the counts of any run of at most 2^32 - 1 calls are exact. */
  lemma ShortRunsExact(calls: seq<Call>, hash: Hasher, c: Config)
    requires |calls| <= U32_MAX
    ensures var w := RunTo(calls, |calls|, hash, c); Inv(w.store, w.leaks, hash)
  {
    forall j | 0 <= j < |calls| ensures NotFull(RunTo(calls, j, hash, c).store) {
      CountsGrowSlowly(calls, j, hash, c);
    }
    CountsExact(calls, |calls|, hash, c);
  }

  lemma ContractResolves(s: Store, leaks: Leaks, hash: Hasher, a: Address)
    requires Inv(s, leaks, hash) && HashHeld(s, a).Some?
    ensures var h := CodeHashAt(s, a, hash);
      && h in s.codes && h in s.infos
      && hash(CodeAt(s, a, hash)) == h
      && s.infos[h].size == SizeOf(CodeAt(s, a, hash))
      && s.infos[h].refCount >= |Holders(s, h)| >= 1
  {
    var h := HashHeld(s, a).value;
    assert CodeInv(s, leaks, hash, h);
    assert a in Holders(s, h);
  }

  /** Two different codes do not share a hash. */
  ghost predicate NoCollision(hash: Hasher, c1: Code, c2: Code)
  {
    hash(c1) == hash(c2) ==> c1 == c2
  }

  /**
   * Setting code changes no contract's code, so the contract runs the given code afterwards exactly
   * when the call found its hash already there and returned early.
   */
  lemma SetCodeHasNoEffect(s: Store, leaks: Leaks, origin: Origin, contract: Address, code: Code,
      hash: Hasher, c: Config)
    requires Inv(s, leaks, hash) && SetCode(s, origin, contract, code, hash, c).Ok?
    ensures var s' := SetCode(s, origin, contract, code, hash, c).value;
      && (forall a :: HashHeld(s, a).Some? ==> CodeAt(s', a, hash) == CodeAt(s, a, hash))
      && (NoCollision(hash, code, CodeAt(s, contract, hash)) ==>
            (CodeAt(s', contract, hash) == code <==> hash(code) == CodeHashAt(s, contract, hash)))
  {
    hide SizeOf;
    var s' := SetCode(s, origin, contract, code, hash, c).value;
    forall a | HashHeld(s, a).Some? ensures CodeAt(s', a, hash) == CodeAt(s, a, hash) {
      ContractResolves(s, leaks, hash, a);
    }
    ContractResolves(s, leaks, hash, contract);
  }

  /** In a run: a contract whose code is set keeps its first code, and the second is stored for nobody. */
  lemma SetCodeLeaks(a: Address, maintainer: Address, c1: Code, c2: Code, hash: Hasher, c: Config)
    requires SizeOf(c1) <= c.maxCodeSize && SizeOf(c2) <= c.maxCodeSize && hash(c1) != hash(c2)
    ensures var w := RunTo([Init(a, maintainer, c1), Set(Root, a, c2)], 2, hash, c);
      && CodeAt(w.store, a, hash) == c1 != c2
      && hash(c2) in w.store.codes && Holders(w.store, hash(c2)) == {} && LeakOf(w.leaks, hash(c2)) == 1
  {
    hide SizeOf;
    var calls := [Init(a, maintainer, c1), Set(Root, a, c2)];
    var w1 := Next(Genesis(), calls[0], hash, c);
    assert RunTo(calls, 1, hash, c) == w1;
    assert RunTo(calls, 2, hash, c) == Next(w1, calls[1], hash, c);
    assert HashHeld(w1.store, a) == Some(hash(c1));
  }

  // ---------- which accounts are contracts, and who may set their code ----------

  /** What the calls of a run have made of an account: the last contract put there, unless removed since. */
  function ContractOf(calls: seq<Call>, k: nat, a: Address, hash: Hasher, c: Config): Option<ContractInfo>
    requires k <= |calls|
  {
    if k == 0 then None
    else
      var before := ContractOf(calls, k - 1, a, hash, c);
      match calls[k - 1]
      case Init(b, maintainer, code) =>
        if a == b && SizeOf(code) <= c.maxCodeSize
        then Some(ContractInfo(hash(code), maintainer, c.ethereumCompatibility)) else before
      case Set(_, _, _) => before
      case Kill(b) => if a == b then None else before
  }

  /** After every run an account exists exactly when it was made a contract and not removed, and is that contract. */
  lemma {:induction false} AccountsAreHistory(calls: seq<Call>, k: nat, a: Address, hash: Hasher, c: Config)
    requires k <= |calls|
    ensures var s, info := RunTo(calls, k, hash, c).store, ContractOf(calls, k, a, hash, c);
      && (a in s.accounts <==> info.Some?)
      && (a in s.accounts ==> s.accounts[a].contract == info)
  {
    hide SizeOf;
    if k == 0 {
    } else {
      AccountsAreHistory(calls, k - 1, a, hash, c);
    }
  }

  /**
   * After every run code can be set exactly for contracts, by root or by the maintainer while not deployed, when
   * the code is there already or fits.
   */
  lemma SetCodeExactly(calls: seq<Call>, origin: Origin, a: Address, code: Code, hash: Hasher, c: Config)
    ensures var s, info := RunTo(calls, |calls|, hash, c).store, ContractOf(calls, |calls|, a, hash, c);
      SetCode(s, origin, a, code, hash, c).Ok? <==>
        && info.Some?
        && (origin == Root || (origin == Signed(Some(info.value.maintainer)) && !info.value.deployed))
        && (hash(code) == info.value.codeHash || SizeOf(code) <= c.maxCodeSize)
  {
    AccountsAreHistory(calls, |calls|, a, hash, c);
    hide RunTo, ContractOf, SizeOf;
  }

  // ---------- the store as it is updated ----------

  class EvmStore {
    const hash: Hasher
    var accounts: map<Address, Account>
    var codes: map<Hash, Code>
    var infos: map<Hash, CodeInfo>

    constructor (hash: Hasher)
      ensures View() == Genesis().store && this.hash == hash
    {
      this.hash := hash;
      accounts, codes, infos := map[], map[], map[];
    }

    function View(): Store
      reads this
    {
      Store(accounts, codes, infos)
    }

    /** Counts a reference, storing the code with the first. */
    method Reference(h: Hash, code: Code)
      modifies this`codes, this`infos
      ensures View() == AddRef(old(View()), h, code)
    {
      if h in infos {
        infos := infos[h := infos[h].(refCount := Min(infos[h].refCount + 1, U32_MAX))];
      } else {
        infos := infos[h := CodeInfo(SizeOf(code), 1)];
        codes := codes[h := code];
      }
    }

    method OnContractInitialization(a: Address, maintainer: Address, code: Code, c: Config)
      returns (r: Result<(), Error>)
      modifies this
      ensures match Initialize(old(View()), a, maintainer, code, hash, c)
        case Ok(s) => r.Ok? && View() == s
        case Err(e) => r == Err(e) && View() == old(View())
    {
      var info := ContractInfo(hash(code), maintainer, c.ethereumCompatibility);
      if SizeOf(code) > c.maxCodeSize {
        return Err(OutOfGas);
      }
      Reference(info.codeHash, code);
      if a in accounts {
        accounts := accounts[a := accounts[a].(contract := Some(info))];
      } else {
        accounts := accounts[a := Account(0, Some(info))];
      }
      r := Ok(());
    }

    method DoSetCode(origin: Origin, a: Address, code: Code, c: Config) returns (r: Result<(), Error>)
      modifies this
      ensures match SetCode(old(View()), origin, a, code, hash, c)
        case Ok(s) => r.Ok? && View() == s
        case Err(e) => r == Err(e) && View() == old(View())
    {
      if a !in accounts || accounts[a].contract.None? {
        return Err(ContractNotFound);
      }
      var info := accounts[a].contract.value;
      if origin.Signed? {
        if origin.address.None? {
          return Err(AddressNotMapped);
        }
        if info.maintainer != origin.address.value {
          return Err(NoPermission);
        }
        if info.deployed {
          return Err(ContractAlreadyDeployed);
        }
      }
      if hash(code) == info.codeHash {
        return Ok(());
      }
      if SizeOf(code) > c.maxCodeSize {
        return Err(ContractExceedsMaxCodeSize);
      }
      Reference(hash(code), code);
      r := Ok(());
    }

    /** Removes an account and returns the size recorded for its code. */
    method RemoveAccount(a: Address) returns (size: nat)
      modifies this
      ensures View() == Remove(old(View()), a)
      ensures size == match HashHeld(old(View()), a)
        case Some(h) => if h in old(infos) then old(infos)[h].size else 0
        case None => 0
    {
      size := 0;
      if a in accounts && accounts[a].contract.Some? {
        var h := accounts[a].contract.value.codeHash;
        if h in infos {
          size := infos[h].size;
          infos := infos[h := infos[h].(refCount := SatSub(infos[h].refCount, 1))];
          if infos[h].refCount == 0 {
            codes := codes - {h};
            infos := infos - {h};
          }
        }
      }
      accounts := accounts - {a};
    }

    /** Makes one call of a run; the invariants of runs therefore hold of the object. */
    method Perform(call: Call, ghost leaks: Leaks, c: Config)
      modifies this
      ensures View() == Next(World(old(View()), leaks), call, hash, c).store
      ensures old(Inv(View(), leaks, hash) && NotFull(View())) ==>
        Inv(View(), Next(World(old(View()), leaks), call, hash, c).leaks, hash)
    {
      ghost var w := World(View(), leaks);
      if Inv(w.store, w.leaks, hash) && NotFull(w.store) {
        NextKeeps(w, call, hash, c);
      }
      hide Inv, NotFull, Initialize, SetCode, Remove;
      match call
      case Init(a, maintainer, code) => var _ := OnContractInitialization(a, maintainer, code, c);
      case Set(origin, a, code) => var _ := DoSetCode(origin, a, code, c);
      case Kill(a) => var _ := RemoveAccount(a);
    }
  }
}
