/** Merging the transfers of a batch that share source, destination and recipient. */
module BatchCombine {

  datatype Key = Key(source: string, destination: string, to: string)

  /** Where a transfer is credited: a token on the destination node, for a recipient. */
  datatype Account = Account(destination: string, resourceId: string, to: string)

  datatype Tx = Tx(source: string, destination: string, to: string, value: int, resourceId: string, resourceType: string) {
    function GetKey(): Key {
      Key(source, destination, to)
    }

    function GetAccount(): Account {
      Account(destination, resourceId, to)
    }
  }

  class TokenSend {
    var source: string
    var destination: string
    var to: string
    var value: int
    var resourceId: string
    var resourceType: string

    function View(): Tx
      reads this
    {
      Tx(source, destination, to, value, resourceId, resourceType)
    }

    constructor (tx: Tx)
      ensures View() == tx
    {
      source, destination, to, value := tx.source, tx.destination, tx.to, tx.value;
      resourceId, resourceType := tx.resourceId, tx.resourceType;
    }
  }

  function Views(xs: seq<TokenSend>): (vs: seq<Tx>)
    reads xs
    ensures |vs| == |xs| && forall i :: 0 <= i < |xs| ==> vs[i] == xs[i].View()
  {
    seq(|xs|, i requires 0 <= i < |xs| reads xs => xs[i].View())
  }

  /** Index of the first transfer with key `k`, or the length. */
  function IndexOf(txs: seq<Tx>, k: Key): (i: nat)
    ensures i <= |txs|
    ensures i < |txs| ==> txs[i].GetKey() == k
    ensures forall j :: 0 <= j < i ==> txs[j].GetKey() != k
  {
    if txs == [] || txs[0].GetKey() == k then 0 else 1 + IndexOf(txs[1..], k)
  }

  /** One step of the reduction. */
  function Merge(acc: seq<Tx>, tx: Tx): seq<Tx> {
    var i := IndexOf(acc, tx.GetKey());
    if i == |acc| then acc + [tx] else acc[i := acc[i].(value := acc[i].value + tx.value)]
  }

  function Combine(batch: seq<Tx>): seq<Tx> {
    if batch == [] then [] else Merge(Combine(batch[..|batch| - 1]), batch[|batch| - 1])
  }

  /** The accumulator holds copies: the result is made of new objects and the batch is left as it was. */
  method CombineBatchTxWithSameDest(batch: seq<TokenSend>) returns (acc: seq<TokenSend>)
    ensures forall i :: 0 <= i < |acc| ==> fresh(acc[i])
    ensures Views(acc) == Combine(Views(batch))
    ensures Views(batch) == old(Views(batch))
  {
    hide Merge;
    ghost var input := Views(batch);
    acc := [];
    for i := 0 to |batch|
      invariant forall j :: 0 <= j < |acc| ==> fresh(acc[j])
      invariant Unaliased(acc)
      invariant Views(batch) == input
      invariant Views(acc) == Combine(input[..i])
    {
      assert input[..i + 1][..i] == input[..i] && input[i] == batch[i].View();
      acc := Absorb(acc, batch[i].View());
    }
    assert input[..|batch|] == input;
  }

  ghost predicate Unaliased(acc: seq<TokenSend>) {
    forall j, k :: 0 <= j < k < |acc| ==> acc[j] != acc[k]
  }

  /** One step of the reduction: add to the entry with this key, or push a copy of the transfer. */
  method Absorb(acc: seq<TokenSend>, tx: Tx) returns (acc': seq<TokenSend>)
    requires Unaliased(acc)
    modifies acc
    ensures Unaliased(acc') && Views(acc') == Merge(old(Views(acc)), tx)
    ensures forall j :: 0 <= j < |acc'| ==> fresh(acc'[j]) || acc'[j] in acc
  {
    var existing := IndexOf(Views(acc), tx.GetKey());
    if existing == |acc| {
      var copy := new TokenSend(tx);
      acc' := acc + [copy];
    } else {
      AddValue(acc, existing, tx.value);
      acc' := acc;
    }
  }

  /** `existing.value += value`, on an accumulator without aliases. */
  method AddValue(acc: seq<TokenSend>, at: nat, value: int)
    requires at < |acc| && Unaliased(acc)
    modifies acc[at]
    ensures var before := old(Views(acc));
            Views(acc) == before[at := before[at].(value := before[at].value + value)]
  {
    acc[at].value := acc[at].value + value;
    assert forall j :: 0 <= j < |acc| && j != at ==> acc[j] != acc[at];
  }

  // ------------------------------------------------------------ conservation

  function Total(txs: seq<Tx>, p: Tx -> bool): int {
    if txs == [] then 0
    else Total(txs[..|txs| - 1], p) + if p(txs[|txs| - 1]) then txs[|txs| - 1].value else 0
  }

  lemma TotalSnoc(txs: seq<Tx>, p: Tx -> bool, tx: Tx)
    ensures Total(txs + [tx], p) == Total(txs, p) + if p(tx) then tx.value else 0
  {
    assert (txs + [tx])[..|txs|] == txs;
  }

  function HasKey(k: Key): Tx -> bool {
    (tx: Tx) => tx.GetKey() == k
  }

  function InAccount(a: Account): Tx -> bool {
    (tx: Tx) => tx.GetAccount() == a
  }

  ghost predicate DistinctKeys(txs: seq<Tx>) {
    forall i, j :: 0 <= i < j < |txs| ==> txs[i].GetKey() != txs[j].GetKey()
  }

  /** The keys of a batch in order of first occurrence. */
  function FirstKeys(txs: seq<Tx>): seq<Key> {
    if txs == [] then []
    else
      var ks, k := FirstKeys(txs[..|txs| - 1]), txs[|txs| - 1].GetKey();
      if k in ks then ks else ks + [k]
  }

  lemma {:induction false} FirstKeysMembers(txs: seq<Tx>, k: Key)
    ensures k in FirstKeys(txs) <==> IndexOf(txs, k) < |txs|
  {
    if txs == [] {
    } else {
      var n := |txs| - 1;
      FirstKeysMembers(txs[..n], k);
      IndexOfSnoc(txs[..n], txs[n], k);
      assert txs[..n] + [txs[n]] == txs;
    }
  }

  lemma {:induction false} IndexOfSnoc(txs: seq<Tx>, tx: Tx, k: Key)
    ensures IndexOf(txs + [tx], k) ==
            if IndexOf(txs, k) < |txs| then IndexOf(txs, k) else if tx.GetKey() == k then |txs| else |txs| + 1
  {
    var s, i := txs + [tx], IndexOf(txs, k);
    assert s[|txs|] == tx && forall j :: 0 <= j < |txs| ==> s[j] == txs[j];
    var r := IndexOf(s, k);
    assert forall j :: 0 <= j < i ==> s[j].GetKey() != k;
    assert i < |txs| ==> s[i].GetKey() == k;
  }

  /** What a combined batch should be: one entry per key, the first transfer of that key with the key's total. */
  function Grouped(batch: seq<Tx>): (g: seq<Tx>)
    ensures |g| == |FirstKeys(batch)|
  {
    var ks := FirstKeys(batch);
    seq(|ks|, i requires 0 <= i < |ks| => GroupOf(batch, ks[i]))
  }

  function GroupOf(batch: seq<Tx>, k: Key): Tx {
    var i := IndexOf(batch, k);
    var first := if i < |batch| then batch[i] else Tx(k.source, k.destination, k.to, 0, "", "");
    first.(value := Total(batch, HasKey(k)))
  }

  lemma GroupOfSnoc(batch: seq<Tx>, tx: Tx, k: Key)
    requires IndexOf(batch, k) < |batch| || tx.GetKey() == k
    ensures GroupOf(batch + [tx], k) ==
            if IndexOf(batch, k) == |batch| then tx.(value := Total(batch, HasKey(k)) + tx.value)
            else if tx.GetKey() == k then GroupOf(batch, k).(value := GroupOf(batch, k).value + tx.value)
            else GroupOf(batch, k)
  {
    IndexOfSnoc(batch, tx, k);
    TotalSnoc(batch, HasKey(k), tx);
  }

  lemma {:induction false} NoneNoTotal(txs: seq<Tx>, k: Key)
    requires IndexOf(txs, k) == |txs|
    ensures Total(txs, HasKey(k)) == 0
  {
    if txs == [] {
    } else {
      var n := |txs| - 1;
      IndexOfSnoc(txs[..n], txs[n], k);
      assert txs[..n] + [txs[n]] == txs;
      NoneNoTotal(txs[..n], k);
    }
  }

  lemma {:induction false} FirstKeysDistinct(txs: seq<Tx>)
    ensures forall i, j :: 0 <= i < j < |FirstKeys(txs)| ==> FirstKeys(txs)[i] != FirstKeys(txs)[j]
  {
    if txs == [] {
    } else {
      FirstKeysDistinct(txs[..|txs| - 1]);
    }
  }

  lemma GroupedKeys(batch: seq<Tx>)
    ensures forall i :: 0 <= i < |Grouped(batch)| ==> Grouped(batch)[i].GetKey() == FirstKeys(batch)[i]
    ensures DistinctKeys(Grouped(batch))
  {
    FirstKeysDistinct(batch);
    forall i | 0 <= i < |Grouped(batch)|
      ensures Grouped(batch)[i].GetKey() == FirstKeys(batch)[i]
    {
      FirstKeysMembers(batch, FirstKeys(batch)[i]);
    }
  }

  lemma GroupedOld(batch: seq<Tx>, tx: Tx, i: nat)
    requires i < |FirstKeys(batch)|
    ensures var g, k := Grouped(batch), FirstKeys(batch)[i];
            GroupOf(batch + [tx], k) == if k == tx.GetKey() then g[i].(value := g[i].value + tx.value) else g[i]
  {
    FirstKeysMembers(batch, FirstKeys(batch)[i]);
    GroupOfSnoc(batch, tx, FirstKeys(batch)[i]);
  }

  lemma IndexInGrouped(batch: seq<Tx>, k: Key)
    ensures var at := IndexOf(Grouped(batch), k);
            if k in FirstKeys(batch) then at < |FirstKeys(batch)| && FirstKeys(batch)[at] == k else at == |FirstKeys(batch)|
  {
    GroupedKeys(batch);
  }

  lemma GroupedSnocNew(batch: seq<Tx>, tx: Tx)
    requires tx.GetKey() !in FirstKeys(batch)
    ensures Grouped(batch + [tx]) == Grouped(batch) + [tx]
  {
    hide Total, IndexOf;
    var all, ks, k := batch + [tx], FirstKeys(batch), tx.GetKey();
    assert all[..|batch|] == batch;
    assert FirstKeys(all) == ks + [k];
    FirstKeysMembers(batch, k);
    NoneNoTotal(batch, k);
    GroupOfSnoc(batch, tx, k);
    forall i | 0 <= i < |ks|
      ensures Grouped(all)[i] == Grouped(batch)[i]
    {
      GroupedOld(batch, tx, i);
    }
  }

  lemma GroupedSnocKnown(batch: seq<Tx>, tx: Tx, at: nat)
    requires at < |FirstKeys(batch)| && FirstKeys(batch)[at] == tx.GetKey()
    ensures var g := Grouped(batch);
            Grouped(batch + [tx]) == g[at := g[at].(value := g[at].value + tx.value)]
  {
    var all, ks := batch + [tx], FirstKeys(batch);
    assert all[..|batch|] == batch;
    assert FirstKeys(all) == ks;
    FirstKeysDistinct(batch);
    forall i | 0 <= i < |ks|
      ensures Grouped(all)[i] == if i == at then Grouped(batch)[i].(value := Grouped(batch)[i].value + tx.value) else Grouped(batch)[i]
    {
      GroupedOld(batch, tx, i);
    }
  }

  lemma GroupedSnoc(batch: seq<Tx>, tx: Tx)
    ensures Grouped(batch + [tx]) == Merge(Grouped(batch), tx)
  {
    IndexInGrouped(batch, tx.GetKey());
    if tx.GetKey() in FirstKeys(batch) {
      GroupedSnocKnown(batch, tx, IndexOf(Grouped(batch), tx.GetKey()));
    } else {
      GroupedSnocNew(batch, tx);
    }
  }

  /**
    Combining yields one entry per (source, destination, recipient), in order of first occurrence,
    carrying the first transfer's other fields and the sum of all values for that key.
   */
  lemma {:induction false} CombineIsGrouped(batch: seq<Tx>)
    ensures Combine(batch) == Grouped(batch)
  {
    if batch == [] {
    } else {
      var n := |batch| - 1;
      CombineIsGrouped(batch[..n]);
      GroupedSnoc(batch[..n], batch[n]);
      assert batch[..n] + [batch[n]] == batch;
    }
  }

  lemma {:induction false} TotalUpdate(txs: seq<Tx>, p: Tx -> bool, i: nat, tx: Tx)
    requires i < |txs|
    ensures Total(txs[i := tx], p) == Total(txs, p) - (if p(txs[i]) then txs[i].value else 0) + if p(tx) then tx.value else 0
  {
    var n := |txs| - 1;
    if i == n {
      assert txs[i := tx][..n] == txs[..n];
    } else {
      assert txs[i := tx][..n] == txs[..n][i := tx];
      TotalUpdate(txs[..n], p, i, tx);
    }
  }

  lemma MergeAddsValue(acc: seq<Tx>, tx: Tx, k: Key)
    ensures Total(Merge(acc, tx), HasKey(k)) == Total(acc, HasKey(k)) + if tx.GetKey() == k then tx.value else 0
  {
    hide Total;
    var i := IndexOf(acc, tx.GetKey());
    if i == |acc| {
      TotalSnoc(acc, HasKey(k), tx);
    } else {
      TotalUpdate(acc, HasKey(k), i, acc[i].(value := acc[i].value + tx.value));
    }
  }

  /** For every key, the combined values add up to what the batch sends. */
  lemma {:induction false} ValueConserved(batch: seq<Tx>, k: Key)
    ensures Total(Combine(batch), HasKey(k)) == Total(batch, HasKey(k))
  {
    if batch == [] {
    } else {
      var n := |batch| - 1;
      var acc, tx := Combine(batch[..n]), batch[n];
      ValueConserved(batch[..n], k);
      MergeAddsValue(acc, tx, k);
    }
  }

  lemma {:induction false} DistinctUnchanged(txs: seq<Tx>)
    requires DistinctKeys(txs)
    ensures Combine(txs) == txs
  {
    if txs == [] {
    } else {
      var n := |txs| - 1;
      DistinctUnchanged(txs[..n]);
      assert txs[..n] + [txs[n]] == txs;
    }
  }

  /** Combining twice is combining once. */
  lemma CombineIdempotent(batch: seq<Tx>)
    ensures Combine(Combine(batch)) == Combine(batch)
  {
    CombineIsGrouped(batch);
    GroupedKeys(batch);
    DistinctUnchanged(Combine(batch));
  }

  // ------------------------------------------------------- balances waited for

  predicate SameEnd(x: Tx, y: Tx) {
    x.destination == y.destination && x.to == y.to
  }

  /** Among transfers to one recipient on one destination, source and token determine each other. */
  ghost predicate OneTokenPerSource(batch: seq<Tx>) {
    forall x, y :: x in batch && y in batch && SameEnd(x, y) ==> (x.source == y.source <==> x.resourceId == y.resourceId)
  }

  lemma {:induction false} TotalSame(txs: seq<Tx>, p: Tx -> bool, q: Tx -> bool)
    requires forall x :: x in txs ==> p(x) == q(x)
    ensures Total(txs, p) == Total(txs, q)
  {
    if txs == [] {
    } else {
      TotalSame(txs[..|txs| - 1], p, q);
    }
  }

  lemma {:induction false} TotalRemove(txs: seq<Tx>, p: Tx -> bool, i: nat)
    requires i < |txs|
    ensures Total(txs, p) == Total(txs[..i] + txs[i + 1..], p) + if p(txs[i]) then txs[i].value else 0
  {
    var n := |txs| - 1;
    if i == n {
      assert txs[..i] + txs[i + 1..] == txs[..n];
    } else {
      hide Total;
      TotalRemove(txs[..n], p, i);
      TotalSnoc(txs[..n], p, txs[n]);
      assert txs[..n] + [txs[n]] == txs;
      var init := txs[..n][..i] + txs[..n][i + 1..];
      assert txs[..i] + txs[i + 1..] == init + [txs[n]];
      TotalSnoc(init, p, txs[n]);
    }
  }

  lemma RestPermutes<T>(xs: seq<T>, ys: seq<T>, i: nat)
    requires multiset(xs) == multiset(ys) && xs != [] && i < |ys| && ys[i] == xs[|xs| - 1]
    ensures multiset(xs[..|xs| - 1]) == multiset(ys[..i] + ys[i + 1..])
  {
    assert xs == xs[..|xs| - 1] + [ys[i]];
    assert ys == ys[..i] + [ys[i]] + ys[i + 1..];
    assert multiset(xs[..|xs| - 1]) == multiset(xs) - multiset{ys[i]};
    assert multiset(ys[..i] + ys[i + 1..]) == multiset(ys) - multiset{ys[i]};
  }

  lemma {:induction false} TotalPermutes(xs: seq<Tx>, ys: seq<Tx>, p: Tx -> bool)
    requires multiset(xs) == multiset(ys)
    ensures Total(xs, p) == Total(ys, p)
    decreases |xs|
  {
    if xs == [] {
      assert |multiset(ys)| == 0;
    } else {
      var n := |xs| - 1;
      var x := xs[n];
      assert x in multiset(ys);
      var i :| 0 <= i < |ys| && ys[i] == x;
      RestPermutes(xs, ys, i);
      TotalPermutes(xs[..n], ys[..i] + ys[i + 1..], p);
      TotalRemove(ys, p, i);
    }
  }

  /** The balance of an account after crediting transfers one by one. */
  function BalanceAfter(before: int, credits: seq<Tx>, a: Account): int {
    before + Total(credits, InAccount(a))
  }

  lemma AccountIsKey(batch: seq<Tx>, first: Tx)
    requires OneTokenPerSource(batch) && first in batch
    ensures forall x :: x in batch ==> InAccount(first.GetAccount())(x) == HasKey(first.GetKey())(x)
  {
    forall x | x in batch
      ensures InAccount(first.GetAccount())(x) == HasKey(first.GetKey())(x)
    {
      if SameEnd(x, first) { assert x.source == first.source <==> x.resourceId == first.resourceId; }
    }
  }

  /**
    Deliver the raw batch in any order: every combined entry finds exactly the balance it waits
    for, what its account held before plus the entry's value.
   */
  lemma WaitedBalancesReached(batch: seq<Tx>, delivered: seq<Tx>, i: nat, before: int)
    requires OneTokenPerSource(batch) && multiset(delivered) == multiset(batch) && i < |Combine(batch)|
    ensures var e := Combine(batch)[i];
            BalanceAfter(before, delivered, e.GetAccount()) == before + e.value
  {
    hide Combine, Total, OneTokenPerSource, FirstKeys;
    CombineIsGrouped(batch);
    var k := FirstKeys(batch)[i];
    FirstKeysMembers(batch, k);
    var first := batch[IndexOf(batch, k)];
    AccountIsKey(batch, first);
    TotalPermutes(delivered, batch, InAccount(first.GetAccount()));
    TotalSame(batch, InAccount(first.GetAccount()), HasKey(k));
  }

  /** Every combined entry waits for exactly what its account is credited. */
  ghost predicate Reached(batch: seq<Tx>) {
    forall i :: 0 <= i < |Combine(batch)| ==> EntryReached(batch, Combine(batch)[i])
  }

  predicate EntryReached(batch: seq<Tx>, e: Tx) {
    Total(batch, InAccount(e.GetAccount())) == e.value
  }

  /** The same transfers with other values. */
  function WithValues(batch: seq<Tx>, values: seq<int>): (txs: seq<Tx>)
    requires |values| == |batch|
    ensures |txs| == |batch| && forall i :: 0 <= i < |txs| ==> txs[i] == batch[i].(value := values[i])
  {
    seq(|batch|, i requires 0 <= i < |batch| => batch[i].(value := values[i]))
  }

  lemma {:induction false} UnitTotal(txs: seq<Tx>, z: nat, p: Tx -> bool)
    requires forall i :: 0 <= i < |txs| ==> txs[i].value == if i == z then 1 else 0
    ensures Total(txs, p) == if z < |txs| && p(txs[z]) then 1 else 0
  {
    if txs == [] {
    } else {
      UnitTotal(txs[..|txs| - 1], z, p);
    }
  }

  lemma EntryOfKey(batch: seq<Tx>, k: Key)
    requires IndexOf(batch, k) < |batch| && Reached(batch)
    ensures EntryReached(batch, GroupOf(batch, k))
  {
    CombineIsGrouped(batch);
    FirstKeysMembers(batch, k);
    var at :| 0 <= at < |FirstKeys(batch)| && FirstKeys(batch)[at] == k;
    assert Combine(batch)[at] == GroupOf(batch, k);
  }

  /** Two transfers to one recipient that share a source or a token but not both: some values break a wait. */
  lemma MixedTokensFail(batch: seq<Tx>, i: nat, j: nat) returns (values: seq<int>)
    requires i < |batch| && j < |batch| && SameEnd(batch[i], batch[j])
    requires !(batch[i].source == batch[j].source <==> batch[i].resourceId == batch[j].resourceId)
    ensures |values| == |batch| && !Reached(WithValues(batch, values))
  {
    var k := batch[i].GetKey();
    var f := IndexOf(batch, k);
    var z := if batch[f].resourceId != batch[i].resourceId then i else j;
    values := seq(|batch|, n requires 0 <= n < |batch| => if n == z then 1 else 0);
    var txs := WithValues(batch, values);
    assert IndexOf(txs, k) == f;
    UnitTotal(txs, z, HasKey(k));
    UnitTotal(txs, z, InAccount(txs[f].GetAccount()));
    assert !EntryReached(txs, GroupOf(txs, k));
    if Reached(txs) { EntryOfKey(txs, k); }
  }

  lemma WithValuesKeepsTokens(batch: seq<Tx>, values: seq<int>)
    requires |values| == |batch| && OneTokenPerSource(batch)
    ensures OneTokenPerSource(WithValues(batch, values))
  {
    var txs := WithValues(batch, values);
    forall x, y | x in txs && y in txs && SameEnd(x, y)
      ensures x.source == y.source <==> x.resourceId == y.resourceId
    {
      var i :| 0 <= i < |txs| && txs[i] == x;
      var j :| 0 <= j < |txs| && txs[j] == y;
      assert batch[i] in batch && batch[j] in batch && SameEnd(batch[i], batch[j]);
    }
  }

  lemma WaitsMet(batch: seq<Tx>)
    requires OneTokenPerSource(batch)
    ensures Reached(batch)
  {
    forall i | 0 <= i < |Combine(batch)|
      ensures EntryReached(batch, Combine(batch)[i])
    {
      WaitedBalancesReached(batch, batch, i, 0);
    }
  }

  /**
    The waits of a batch can be met whatever its values exactly when, among transfers to one
    recipient, each source sends one token and each token comes from one source.
   */
  lemma WaitsMetExactly(batch: seq<Tx>)
    ensures (forall values: seq<int> :: |values| == |batch| ==> Reached(WithValues(batch, values))) <==>
            OneTokenPerSource(batch)
  {
    hide Reached;
    if OneTokenPerSource(batch) {
      forall values: seq<int> | |values| == |batch|
        ensures Reached(WithValues(batch, values))
      {
        WithValuesKeepsTokens(batch, values);
        WaitsMet(WithValues(batch, values));
      }
    } else {
      var x, y :| x in batch && y in batch && SameEnd(x, y) && !(x.source == y.source <==> x.resourceId == y.resourceId);
      var i :| 0 <= i < |batch| && batch[i] == x;
      var j :| 0 <= j < |batch| && batch[j] == y;
      var values := MixedTokensFail(batch, i, j);
    }
  }
}
