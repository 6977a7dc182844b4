/** The cache of connected contracts, and the keys a node files them under. */
module ContractCache {
  import opened Text

  /** Signers are compared by identity; two signer objects can have one address. */
  datatype Signer = Signer(id: nat, address: string)

  datatype Contract = Contract(name: string, address: string, runner: Signer)

  type Cache = map<string, Contract>

  const FACTORY_SUFFIX := "__factory"

  function FormatFactoryName(name: string): string {
    if EndsWith(name, FACTORY_SUFFIX) then name[..|name| - |FACTORY_SUFFIX|] else name
  }

  /** Whether `connectAt` answers from the cache: same key, same signer object; the address is not compared. */
  predicate Hit(cache: Cache, key: string, signer: Signer) {
    key in cache && cache[key].runner == signer
  }

  function ConnectAt(cache: Cache, factory: string, address: string, key: string, signer: Signer): (r: (Cache, Contract))
  {
    var k := FormatFactoryName(key);
    if Hit(cache, k, signer) then (cache, cache[k])
    else
      var c := Contract(FormatFactoryName(factory), address, signer);
      (cache[k := c], c)
  }

  datatype Found = Value(contract: Contract) | NotFound(key: string)

  class ContractStore {
    var cache: Cache

    constructor ()
      ensures cache == map[]
    {
      cache := map[];
    }

    method Connect(factory: string, address: string, key: string, signer: Signer) returns (c: Contract)
      modifies this
      ensures (cache, c) == ConnectAt(old(cache), factory, address, key, signer)
      ensures c.runner == signer && Hit(cache, FormatFactoryName(key), signer)
      ensures forall k :: k != FormatFactoryName(key) ==> (k in cache <==> k in old(cache)) && (k in cache ==> cache[k] == old(cache)[k])
    {
      var formattedKey := FormatFactoryName(key);
      if formattedKey in cache && cache[formattedKey].runner == signer {
        return cache[formattedKey];
      }
      c := Contract(FormatFactoryName(factory), address, signer);
      cache := cache[formattedKey := c];
    }

    /** A deployed instance, like one that is set, is stored under the key as given. */
    method Set(key: string, contract: Contract)
      modifies this
      ensures cache == old(cache)[key := contract]
    {
      cache := cache[key := contract];
    }

    method Get(key: string) returns (r: Found)
      ensures r == if key in cache then Value(cache[key]) else NotFound(key)
    {
      if key !in cache { return NotFound(key); }
      r := Value(cache[key]);
    }
  }

  // ------------------------------------------------------ runs of operations

  /** `getContractAt` with or without an explicit signer, and `deploy` or `set`. */
  datatype Op =
    | GetContractAt(factory: string, address: string, key: string, signer: Option<Signer>)
    | Store(key: string, contract: Contract)

  predicate IsHex(c: char) {
    '0' <= c <= '9' || 'a' <= c <= 'f' || 'A' <= c <= 'F'
  }

  predicate IsAddress(a: string) {
    |a| == 42 && a[0] == '0' && a[1] == 'x' && forall i :: 2 <= i < 42 ==> IsHex(a[i])
  }

  function ScopedKey(key: string, signer: Signer): string {
    FormatFactoryName(key) + "_" + signer.address
  }

  /** The key a node passes on to its store. */
  function NodeKey(key: string, signer: Option<Signer>): string {
    match signer
    case Some(s) => ScopedKey(key, s)
    case None => FormatFactoryName(key)
  }

  /** The key under which an operation reads and writes. */
  function CacheKey(op: Op): string {
    match op
    case GetContractAt(_, _, key, signer) => FormatFactoryName(NodeKey(key, signer))
    case Store(key, _) => key
  }

  function RunnerOf(op: Op, user: Signer): Signer {
    match op
    case GetContractAt(_, _, _, Some(s)) => s
    case GetContractAt(_, _, _, None) => user
    case Store(_, c) => c.runner
  }

  function AddressOf(op: Op): string {
    match op
    case GetContractAt(_, address, _, _) => address
    case Store(_, c) => c.address
  }

  function Apply(cache: Cache, op: Op, user: Signer): (Cache, Contract) {
    match op
    case GetContractAt(factory, address, key, signer) =>
      ConnectAt(cache, factory, address, NodeKey(key, signer), RunnerOf(op, user))
    case Store(key, c) => (cache[key := c], c)
  }

  function ApplyAll(cache: Cache, ops: seq<Op>, user: Signer): Cache
    decreases |ops|
  {
    if ops == [] then cache else ApplyAll(Apply(cache, ops[0], user).0, ops[1..], user)
  }

  /** `getContractAt` of a node. */
  method NodeGetContractAt(store: ContractStore, user: Signer, factory: string, address: string, key: string, signer: Option<Signer>)
      returns (c: Contract)
    modifies store
    ensures (store.cache, c) == Apply(old(store.cache), GetContractAt(factory, address, key, signer), user)
  {
    var effectiveSigner := if signer.Some? then signer.value else user;
    var cacheKey := if signer.Some? then FormatFactoryName(key) + "_" + signer.value.address else FormatFactoryName(key);
    c := store.Connect(factory, address, cacheKey, effectiveSigner);
  }

  /** Every operation returns a contract bound to the signer it asked for, and files it under its key. */
  lemma BoundToRequestedSigner(cache: Cache, op: Op, user: Signer)
    ensures var (cache', c) := Apply(cache, op, user);
            c.runner == RunnerOf(op, user) && CacheKey(op) in cache' && cache'[CacheKey(op)] == c
  {
  }

  // ----------------------------------------------------- address agreement

  /** The contract an operation files when it does not find one of its signer. */
  function Filed(x: Op, user: Signer): Contract {
    match x
    case GetContractAt(factory, address, _, _) => Contract(FormatFactoryName(factory), address, RunnerOf(x, user))
    case Store(_, c) => c
  }

  /** The entry under `k` is what operation `x` filed there. */
  predicate FiledBy(cache: Cache, k: string, x: Op, user: Signer)
    requires k in cache
  {
    CacheKey(x) == k && cache[k] == Filed(x, user)
  }

  ghost predicate FilledFrom(cache: Cache, ops: set<Op>, user: Signer) {
    forall k :: k in cache ==> exists x :: x in ops && FiledBy(cache, k, x, user)
  }

  lemma ApplyFillsFrom(cache: Cache, op: Op, ops: set<Op>, user: Signer)
    requires FilledFrom(cache, ops, user) && op in ops
    ensures FilledFrom(Apply(cache, op, user).0, ops, user)
  {
    var after := Apply(cache, op, user).0;
    forall k | k in after
      ensures exists x :: x in ops && FiledBy(after, k, x, user)
    {
      if k in cache && after[k] == cache[k] {
        var x :| x in ops && FiledBy(cache, k, x, user);
        assert FiledBy(after, k, x, user);
      } else {
        assert FiledBy(after, k, op, user);
      }
    }
  }

  /** Every request of the run is answered with a contract at the address it asked for. */
  ghost predicate AnsweredFrom(cache: Cache, run: seq<Op>, user: Signer)
    decreases |run|
  {
    run == [] ||
    ((run[0].GetContractAt? ==> Apply(cache, run[0], user).1.address == AddressOf(run[0])) &&
     AnsweredFrom(Apply(cache, run[0], user).0, run[1..], user))
  }

  ghost predicate DrawnFrom(run: seq<Op>, ops: set<Op>) {
    forall x :: x in run ==> x in ops
  }

  /** A request agrees in address with every operation of its key and signer. */
  ghost predicate AddressesAgree(ops: set<Op>, user: Signer) {
    forall x, y :: x in ops && y in ops && y.GetContractAt? && CacheKey(x) == CacheKey(y) && RunnerOf(x, user) == RunnerOf(y, user) ==>
      AddressOf(x) == AddressOf(y)
  }

  lemma {:induction false} AgreedRunAnswered(cache: Cache, run: seq<Op>, ops: set<Op>, user: Signer)
    requires AddressesAgree(ops, user) && DrawnFrom(run, ops) && FilledFrom(cache, ops, user)
    ensures AnsweredFrom(cache, run, user)
    decreases |run|
  {
    if run == [] {
    } else {
      var op := run[0];
      assert op in run;
      if op.GetContractAt? && Hit(cache, CacheKey(op), RunnerOf(op, user)) {
        var x :| x in ops && FiledBy(cache, CacheKey(op), x, user);
      }
      ApplyFillsFrom(cache, op, ops, user);
      AgreedRunAnswered(Apply(cache, op, user).0, run[1..], ops, user);
    }
  }

  lemma ClashingPairUnanswered(x: Op, y: Op, user: Signer)
    requires y.GetContractAt? && CacheKey(x) == CacheKey(y) && RunnerOf(x, user) == RunnerOf(y, user)
    requires AddressOf(x) != AddressOf(y)
    ensures !AnsweredFrom(map[], [x, y], user)
  {
    assert [x, y][1..] == [y];
    BoundToRequestedSigner(map[], x, user);
  }

  /**
    Every run drawn from a set of operations answers each request at the address it asked for,
    exactly when each request agrees in address with all operations under its key for its signer.
    One key used with two addresses by two signers does no harm.
   */
  lemma AnsweredExactly(ops: set<Op>, user: Signer)
    ensures (forall run :: DrawnFrom(run, ops) ==> AnsweredFrom(map[], run, user)) <==> AddressesAgree(ops, user)
  {
    if AddressesAgree(ops, user) {
      forall run | DrawnFrom(run, ops)
        ensures AnsweredFrom(map[], run, user)
      {
        AgreedRunAnswered(map[], run, ops, user);
      }
    } else {
      var x, y :| x in ops && y in ops && y.GetContractAt? && CacheKey(x) == CacheKey(y)
                  && RunnerOf(x, user) == RunnerOf(y, user) && AddressOf(x) != AddressOf(y);
      ClashingPairUnanswered(x, y, user);
      assert DrawnFrom([x, y], ops);
    }
  }

  /** A second request under the same key and signer gets the first address, whatever it asked for. */
  lemma HitIgnoresAddress(factory: string, first: string, second: string, key: string, signer: Option<Signer>, user: Signer)
    ensures var a, b := GetContractAt(factory, first, key, signer), GetContractAt(factory, second, key, signer);
            Apply(ApplyAll(map[], [a], user), b, user).1.address == first
  {
    var a := GetContractAt(factory, first, key, signer);
    assert [a][1..] == [];
    BoundToRequestedSigner(map[], a, user);
  }

  // ------------------------------------------------------------ coexistence

  /** `k` ends in an underscore and an address. */
  predicate EndsInAddress(k: string) {
    |k| >= 43 && k[|k| - 43] == '_' && IsAddress(k[|k| - 42..])
  }

  lemma ScopedKeyShape(key: string, s: Signer)
    requires IsAddress(s.address)
    ensures EndsInAddress(ScopedKey(key, s))
    ensures FormatFactoryName(ScopedKey(key, s)) == ScopedKey(key, s)
  {
    var k := ScopedKey(key, s);
    assert k[|k| - 42..] == s.address;
    assert k[|k| - 1] == s.address[41];
    assert IsHex(k[|k| - 1]) && FACTORY_SUFFIX[8] == 'y';
    assert k[|k| - 9..][8] == k[|k| - 1];
  }

  lemma ScopedKeyInjective(key: string, s: Signer, key': string, s': Signer)
    requires IsAddress(s.address) && IsAddress(s'.address)
    requires ScopedKey(key, s) == ScopedKey(key', s')
    ensures FormatFactoryName(key) == FormatFactoryName(key') && s.address == s'.address
  {
    var k := ScopedKey(key, s);
    assert k[|k| - 42..] == s.address && k[|k| - 42..] == s'.address;
    assert k[..|k| - 43] == FormatFactoryName(key) && k[..|k| - 43] == FormatFactoryName(key');
  }

  /** A default key collides with some signer-scoped key exactly when it ends in an underscore and an address. */
  lemma CollisionExactly(key: string)
    ensures EndsInAddress(FormatFactoryName(FormatFactoryName(key))) <==>
            exists key': string, s: Signer :: IsAddress(s.address) && FormatFactoryName(FormatFactoryName(key)) == ScopedKey(key', s)
  {
    var k := FormatFactoryName(FormatFactoryName(key));
    if EndsInAddress(k) {
      var base, a := k[..|k| - 43], k[|k| - 42..];
      var key', s := base + FACTORY_SUFFIX, Signer(0, a);
      assert key'[|key'| - |FACTORY_SUFFIX|..] == FACTORY_SUFFIX && key'[..|key'| - |FACTORY_SUFFIX|] == base;
      assert k == base + "_" + a;
      assert ScopedKey(key', s) == k;
    }
    if key': string, s: Signer :| IsAddress(s.address) && k == ScopedKey(key', s) {
      ScopedKeyShape(key', s);
    }
  }

  predicate SameSignerAddress(x: Op, y: Op) {
    && x.GetContractAt? && x.signer.Some?
    && y.GetContractAt? && y.signer.Some?
    && x.signer.value.address == y.signer.value.address
  }

  /** Signers have proper addresses, and one object stands for each address. */
  ghost predicate SignersOk(ops: set<Op>) {
    && (forall x :: x in ops && x.GetContractAt? && x.signer.Some? ==> IsAddress(x.signer.value.address))
    && (forall x, y :: x in ops && y in ops && SameSignerAddress(x, y) ==> x.signer == y.signer)
  }

  /** No default key ends in an underscore and an address, and nothing is stored under a key that requests use. */
  ghost predicate KeysOk(ops: set<Op>) {
    && (forall x :: x in ops && x.GetContractAt? && x.signer.None? ==> !EndsInAddress(CacheKey(x)))
    && (forall x, y :: x in ops && y in ops && x.Store? && y.GetContractAt? ==> CacheKey(x) != CacheKey(y))
  }

  lemma SameScopedSigner(x: Op, y: Op)
    requires x.GetContractAt? && x.signer.Some? && IsAddress(x.signer.value.address)
    requires y.GetContractAt? && y.signer.Some? && IsAddress(y.signer.value.address)
    requires CacheKey(x) == CacheKey(y)
    ensures SameSignerAddress(x, y)
  {
    ScopedKeyShape(x.key, x.signer.value);
    ScopedKeyShape(y.key, y.signer.value);
    ScopedKeyInjective(x.key, x.signer.value, y.key, y.signer.value);
  }

  lemma SameKeySameRunner(ops: set<Op>, x: Op, y: Op, user: Signer)
    requires SignersOk(ops) && KeysOk(ops)
    requires x in ops && y in ops && x.GetContractAt? && CacheKey(x) == CacheKey(y)
    ensures y.GetContractAt? && RunnerOf(x, user) == RunnerOf(y, user)
  {
    assert y.GetContractAt?;
    if x.signer.Some? && y.signer.Some? {
      SameScopedSigner(x, y);
    } else if x.signer.Some? {
      ScopedKeyShape(x.key, x.signer.value);
    } else if y.signer.Some? {
      ScopedKeyShape(y.key, y.signer.value);
    }
  }

  // What it takes for bindings never to be evicted.

  /** After request `x`, whatever `between` does, the same request gets the same contract and leaves the cache alone. */
  ghost predicate Kept(before: seq<Op>, x: Op, between: seq<Op>, user: Signer) {
    var (cache, c) := Apply(ApplyAll(map[], before, user), x, user);
    var later := ApplyAll(cache, between, user);
    Apply(later, x, user) == (later, c)
  }

  /** Operations under a request's key have its signer, and what is stored there is what the request itself would file. */
  ghost predicate NeverEvict(ops: set<Op>, user: Signer) {
    forall x, y :: x in ops && y in ops && x.GetContractAt? && CacheKey(x) == CacheKey(y) ==> Harmless(x, y, user)
  }

  predicate Harmless(x: Op, y: Op, user: Signer) {
    RunnerOf(y, user) == RunnerOf(x, user) && (y.Store? ==> y.contract == Filed(x, user))
  }

  lemma {:induction false} RunFillsFrom(cache: Cache, run: seq<Op>, ops: set<Op>, user: Signer)
    requires DrawnFrom(run, ops) && FilledFrom(cache, ops, user)
    ensures FilledFrom(ApplyAll(cache, run, user), ops, user)
    decreases |run|
  {
    if run == [] {
    } else {
      assert run[0] in run;
      ApplyFillsFrom(cache, run[0], ops, user);
      RunFillsFrom(Apply(cache, run[0], user).0, run[1..], ops, user);
    }
  }

  /** An entry of a request's key that some operation filed survives any run that never evicts. */
  lemma {:induction false} EntryKept(cache: Cache, run: seq<Op>, ops: set<Op>, x: Op, z: Op, user: Signer)
    requires NeverEvict(ops, user) && DrawnFrom(run, ops) && x in ops && x.GetContractAt? && z in ops
    requires CacheKey(x) in cache && FiledBy(cache, CacheKey(x), z, user)
    ensures var k := CacheKey(x); k in ApplyAll(cache, run, user) && ApplyAll(cache, run, user)[k] == cache[k]
    decreases |run|
  {
    if run == [] {
    } else {
      var y, k := run[0], CacheKey(x);
      assert y in run;
      var after := Apply(cache, y, user).0;
      if CacheKey(y) == k {
        assert Harmless(x, y, user) && Harmless(x, z, user);
        assert y.Store? && z.GetContractAt? ==> Harmless(z, y, user);
      }
      assert k in after && after[k] == cache[k];
      EntryKept(after, run[1..], ops, x, z, user);
    }
  }

  lemma RequestKept(before: seq<Op>, x: Op, between: seq<Op>, ops: set<Op>, user: Signer)
    requires NeverEvict(ops, user) && DrawnFrom(before, ops) && DrawnFrom(between, ops) && x in ops && x.GetContractAt?
    ensures Kept(before, x, between, user)
  {
    var start := ApplyAll(map[], before, user);
    var (cache, c) := Apply(start, x, user);
    RunFillsFrom(map[], before, ops, user);
    ApplyFillsFrom(start, x, ops, user);
    BoundToRequestedSigner(start, x, user);
    var z :| z in ops && FiledBy(cache, CacheKey(x), z, user);
    EntryKept(cache, between, ops, x, z, user);
  }

  lemma HarmfulPairEvicts(x: Op, y: Op, user: Signer)
    requires x.GetContractAt? && CacheKey(x) == CacheKey(y) && !Harmless(x, y, user)
    ensures !Kept([], x, [y], user)
  {
    assert [y][1..] == [];
    var cache := Apply(map[], x, user).0;
    assert ApplyAll(map[], [], user) == map[];
    assert ApplyAll(cache, [y], user) == ApplyAll(Apply(cache, y, user).0, [], user) == Apply(cache, y, user).0;
    BoundToRequestedSigner(map[], x, user);
    BoundToRequestedSigner(cache, y, user);
  }

  /**
    Bindings coexist: in every run drawn from a set of operations a repeated request gets the
    contract it got before and evicts nothing, exactly when all operations under a request's key
    have its signer and store nothing there but what the request would file.
   */
  lemma CoexistExactly(ops: set<Op>, user: Signer)
    ensures (forall before, x, between :: DrawnFrom(before, ops) && DrawnFrom(between, ops) && x in ops && x.GetContractAt? ==>
               Kept(before, x, between, user)) <==> NeverEvict(ops, user)
  {
    if NeverEvict(ops, user) {
      forall before, x, between | DrawnFrom(before, ops) && DrawnFrom(between, ops) && x in ops && x.GetContractAt?
        ensures Kept(before, x, between, user)
      {
        RequestKept(before, x, between, ops, user);
      }
    } else {
      var x, y :| x in ops && y in ops && x.GetContractAt? && CacheKey(x) == CacheKey(y) && !Harmless(x, y, user);
      HarmfulPairEvicts(x, y, user);
      assert DrawnFrom([], ops) && DrawnFrom([y], ops);
    }
  }

  /**
    Role-specific bindings: with one object for each signer address, no default key that ends in an
    underscore and an address, and nothing stored under a request's key, nothing is ever evicted.
   */
  lemma BindingsCoexist(ops: set<Op>, user: Signer)
    requires SignersOk(ops) && KeysOk(ops)
    ensures NeverEvict(ops, user)
  {
    forall x, y | x in ops && y in ops && x.GetContractAt? && CacheKey(x) == CacheKey(y)
      ensures Harmless(x, y, user)
    {
      SameKeySameRunner(ops, x, y, user);
    }
  }

  // ------------------------------------------------------ requests, on names

  /** A factory name loses its suffix `__factory`, and other names stay as they are. */
  lemma FormatExactly(name: string, base: string)
    ensures FormatFactoryName(base + "__factory") == base
    ensures (forall b: string :: name != b + "__factory") ==> FormatFactoryName(name) == name
  {
    var full := base + "__factory";
    assert full[|full| - 9..] == "__factory" && full[..|full| - 9] == base;
    if EndsWith(name, "__factory") {
      assert name == name[..|name| - 9] + "__factory";
    }
  }

  /** What a request finds under its key for its signer, or else a new contract, which replaces what was there. */
  predicate ServedAt(cache: Cache, key: string, made: Contract, after: Cache, c: Contract) {
    if key in cache && cache[key].runner == made.runner then c == cache[key] && after == cache
    else c == made && after == cache[key := made]
  }

  /**
    A request for factory `base__factory` under key `key__factory` makes, or finds, a contract of
    name `base`: for an explicit signer under `key`, an underscore and that signer's address, and
    for none under `key` with the user's wallet.
   */
  lemma RequestExactly(cache: Cache, base: string, address: string, key: string, signer: Option<Signer>, user: Signer)
    requires forall b: string :: key != b + "__factory"
    requires signer.Some? ==> IsAddress(signer.value.address)
    ensures var (after, c) := Apply(cache, GetContractAt(base + "__factory", address, key + "__factory", signer), user);
            match signer
            case Some(s) => ServedAt(cache, key + "_" + s.address, Contract(base, address, s), after, c)
            case None => ServedAt(cache, key, Contract(base, address, user), after, c)
  {
    FormatExactly(key, key);
    FormatExactly(key, base);
    if signer.Some? { ScopedKeyShape(key + "__factory", signer.value); }
  }
}
