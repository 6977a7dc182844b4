/** Finding who holds a token on the hub: scan the transfer log newest first, then ask for balances. */
module HolderScan {
  import opened Text

  /** A log entry of the TransferSingle filter; one the contract interface cannot decode has no arguments. */
  datatype Event = TransferSingle(id: nat, sender: string, to: string, value: nat) | Undecoded

  const ZERO_ADDRESS := "0x0000000000000000000000000000000000000000"

  /** Addresses are compared in lower case. */
  function Canonical(address: string): string {
    Lower(address)
  }

  predicate Receives(e: Event, id: nat, who: string) {
    e.TransferSingle? && e.id == id && Canonical(e.to) == who
  }

  /** Balance of `id` held by the canonical address `who` after replaying the transfers. */
  function Balance(events: seq<Event>, id: nat, who: string): int {
    if events == [] then 0
    else
      var e := events[|events| - 1];
      Balance(events[..|events| - 1], id, who)
      + (if Receives(e, id, who) then e.value else 0)
      - (if e.TransferSingle? && e.id == id && Canonical(e.sender) == who then e.value else 0)
  }

  /** The receivers among the first `i` events, newest first, each once, without `seen`. */
  function Candidates(events: seq<Event>, i: nat, id: nat, seen: set<string>): seq<string>
    requires i <= |events|
  {
    if i == 0 then []
    else if Skipped(events[i - 1], id, seen) then Candidates(events, i - 1, id, seen)
    else [events[i - 1].to] + Candidates(events, i - 1, id, seen + {Canonical(events[i - 1].to)})
  }

  predicate Skipped(e: Event, id: nat, seen: set<string>) {
    e.Undecoded? || e.id != id || Canonical(e.to) in seen
  }

  function Excluded(vault: string): set<string> {
    {Canonical(ZERO_ADDRESS), Canonical(vault)}
  }

  function FirstFunded(candidates: seq<string>, balanceOf: string -> int, expected: int): Option<string> {
    if candidates == [] then None
    else if balanceOf(candidates[0]) >= expected then Some(candidates[0])
    else FirstFunded(candidates[1..], balanceOf, expected)
  }

  function Holder(events: seq<Event>, id: nat, vault: string, balanceOf: string -> int, expected: int): Option<string> {
    FirstFunded(Candidates(events, |events|, id, Excluded(vault)), balanceOf, expected)
  }

  /** One check of the wait: build the candidate list, then take the first with enough balance. */
  method FindHolder(events: seq<Event>, id: nat, vault: string, balanceOf: string -> int, expected: int)
      returns (owner: Option<string>)
    ensures owner == Holder(events, id, vault, balanceOf, expected)
  {
    var zero, vaultAddr := Canonical(ZERO_ADDRESS), Canonical(vault);
    var seen: set<string> := {};
    var candidates: seq<string> := [];
    var i := |events|;
    assert seen + Excluded(vault) == Excluded(vault);
    while i > 0
      invariant 0 <= i <= |events|
      invariant candidates + Candidates(events, i, id, seen + Excluded(vault)) ==
                Candidates(events, |events|, id, Excluded(vault))
    {
      i := i - 1;
      var event := events[i];
      if event.Undecoded? { continue; }
      if event.id != id { continue; }
      var toLower := Canonical(event.to);
      if toLower == zero || toLower == vaultAddr { continue; }
      if toLower in seen { continue; }
      assert (seen + {toLower}) + Excluded(vault) == (seen + Excluded(vault)) + {toLower};
      seen := seen + {toLower};
      candidates := candidates + [event.to];
    }
    var k := 0;
    assert candidates + [] == candidates;
    assert candidates[k..] == candidates;
    while k < |candidates|
      invariant k <= |candidates|
      invariant FirstFunded(candidates[k..], balanceOf, expected) == FirstFunded(candidates, balanceOf, expected)
    {
      assert candidates[k..][1..] == candidates[k + 1..];
      if balanceOf(candidates[k]) >= expected { return Some(candidates[k]); }
      k := k + 1;
    }
    owner := None;
  }

  // ------------------------------------------------------------- candidates

  /** Index of the last of the first `i` events in which `who` received, or -1. */
  function LastReceipt(events: seq<Event>, i: nat, id: nat, who: string): (r: int)
    requires i <= |events|
    ensures -1 <= r < i
    ensures r >= 0 ==> Receives(events[r], id, who)
    ensures forall j :: r < j < i ==> !Receives(events[j], id, who)
  {
    if i == 0 then -1
    else if Receives(events[i - 1], id, who) then i - 1
    else LastReceipt(events, i - 1, id, who)
  }

  ghost predicate NewestFirst(cs: seq<string>, events: seq<Event>, i: nat, id: nat)
    requires i <= |events|
  {
    forall p, q :: 0 <= p < q < |cs| ==>
      LastReceipt(events, i, id, Canonical(cs[p])) > LastReceipt(events, i, id, Canonical(cs[q]))
  }

  predicate Listed(cs: seq<string>, who: string) {
    exists p :: 0 <= p < |cs| && Canonical(cs[p]) == who
  }

  lemma {:induction false} CandidateMembers(events: seq<Event>, i: nat, id: nat, seen: set<string>, who: string)
    requires i <= |events|
    ensures Listed(Candidates(events, i, id, seen), who) <==> who !in seen && LastReceipt(events, i, id, who) >= 0
  {
    if i == 0 {
    } else {
      var e := events[i - 1];
      var cs := Candidates(events, i, id, seen);
      if Skipped(e, id, seen) {
        CandidateMembers(events, i - 1, id, seen, who);
      } else {
        var seen' := seen + {Canonical(e.to)};
        var rest := Candidates(events, i - 1, id, seen');
        CandidateMembers(events, i - 1, id, seen', who);
        ListedCons(e.to, rest, who);
      }
    }
  }

  lemma ListedCons(c: string, cs: seq<string>, who: string)
    ensures Listed([c] + cs, who) <==> Canonical(c) == who || Listed(cs, who)
  {
    if p :| 0 <= p < |cs| && Canonical(cs[p]) == who {
      assert ([c] + cs)[p + 1] == cs[p];
    }
    assert ([c] + cs)[0] == c;
  }

  lemma {:induction false} CandidateOrder(events: seq<Event>, i: nat, id: nat, seen: set<string>)
    requires i <= |events|
    ensures NewestFirst(Candidates(events, i, id, seen), events, i, id)
  {
    if i == 0 {
    } else {
      var e := events[i - 1];
      var seen' := if Skipped(e, id, seen) then seen else seen + {Canonical(e.to)};
      var rest := Candidates(events, i - 1, id, seen');
      CandidateOrder(events, i - 1, id, seen');
      forall p | 0 <= p < |rest|
        ensures LastReceipt(events, i, id, Canonical(rest[p])) == LastReceipt(events, i - 1, id, Canonical(rest[p]))
      {
        CandidateMembers(events, i - 1, id, seen', Canonical(rest[p]));
        assert Listed(rest, Canonical(rest[p]));
      }
    }
  }

  lemma {:induction false} FirstFundedFinds(cs: seq<string>, balanceOf: string -> int, expected: int)
    ensures var r := FirstFunded(cs, balanceOf, expected);
            if r.None? then forall p :: 0 <= p < |cs| ==> balanceOf(cs[p]) < expected
            else exists p :: 0 <= p < |cs| && cs[p] == r.value && balanceOf(cs[p]) >= expected
                             && forall q :: 0 <= q < p ==> balanceOf(cs[q]) < expected
  {
    if cs != [] && balanceOf(cs[0]) < expected {
      FirstFundedFinds(cs[1..], balanceOf, expected);
      assert forall p :: 0 < p < |cs| ==> cs[p] == cs[1..][p - 1];
      var r := FirstFunded(cs, balanceOf, expected);
      if r.Some? {
        var p :| 0 <= p < |cs[1..]| && cs[1..][p] == r.value && balanceOf(cs[1..][p]) >= expected
                 && forall q :: 0 <= q < p ==> balanceOf(cs[1..][q]) < expected;
        assert cs[p + 1] == r.value;
      }
    }
  }

  // ---------------------------------------------------------- ledger replay

  /** `who` is neither the zero address nor the vault, holds enough, and received within the scanned window. */
  ghost predicate Qualifies(earlier: seq<Event>, window: seq<Event>, id: nat, vault: string, expected: int, who: string) {
    && who !in Excluded(vault)
    && Balance(earlier + window, id, who) >= expected
    && LastReceipt(window, |window|, id, who) >= 0
  }

  function LedgerBalance(events: seq<Event>, id: nat): string -> int {
    address => Balance(events, id, Canonical(address))
  }

  lemma FoundIsLatest(cs: seq<string>, events: seq<Event>, id: nat, balanceOf: string -> int, expected: int, who: string)
    requires NewestFirst(cs, events, |events|, id)
    requires FirstFunded(cs, balanceOf, expected).Some?
    requires exists q :: 0 <= q < |cs| && Canonical(cs[q]) == who && balanceOf(cs[q]) >= expected
    ensures var owner := Canonical(FirstFunded(cs, balanceOf, expected).value);
            who == owner || LastReceipt(events, |events|, id, who) < LastReceipt(events, |events|, id, owner)
  {
    FirstFundedFinds(cs, balanceOf, expected);
    var r := FirstFunded(cs, balanceOf, expected);
    var p :| 0 <= p < |cs| && cs[p] == r.value && balanceOf(cs[p]) >= expected
             && forall q :: 0 <= q < p ==> balanceOf(cs[q]) < expected;
    var q :| 0 <= q < |cs| && Canonical(cs[q]) == who && balanceOf(cs[q]) >= expected;
    assert p <= q;
  }

  lemma QualifyingIsListed(earlier: seq<Event>, window: seq<Event>, id: nat, vault: string, expected: int, who: string)
    requires Qualifies(earlier, window, id, vault, expected, who)
    ensures var cs, bal := Candidates(window, |window|, id, Excluded(vault)), LedgerBalance(earlier + window, id);
            exists q :: 0 <= q < |cs| && Canonical(cs[q]) == who && bal(cs[q]) >= expected
  {
    CandidateMembers(window, |window|, id, Excluded(vault), who);
  }

  /**
    Against a ledger whose last part is the scanned window, the scan finds a holder exactly when
    some address qualifies, and what it finds is the qualifying address with the latest receipt.
   */
  lemma ScanExact(earlier: seq<Event>, window: seq<Event>, id: nat, vault: string, expected: int)
    ensures var r := Holder(window, id, vault, LedgerBalance(earlier + window, id), expected);
            && (r.None? ==> forall who :: !Qualifies(earlier, window, id, vault, expected, who))
            && (r.Some? ==> Qualifies(earlier, window, id, vault, expected, Canonical(r.value)))
            && (r.Some? ==> forall who :: Qualifies(earlier, window, id, vault, expected, who) && who != Canonical(r.value) ==>
                  LastReceipt(window, |window|, id, who) < LastReceipt(window, |window|, id, Canonical(r.value)))
  {
    var cs, bal := Candidates(window, |window|, id, Excluded(vault)), LedgerBalance(earlier + window, id);
    var r := Holder(window, id, vault, bal, expected);
    FirstFundedFinds(cs, bal, expected);
    if r.Some? {
      CandidateMembers(window, |window|, id, Excluded(vault), Canonical(r.value));
      assert Listed(cs, Canonical(r.value));
    }
    CandidateOrder(window, |window|, id, Excluded(vault));
    forall who | Qualifies(earlier, window, id, vault, expected, who)
      ensures Holder(window, id, vault, bal, expected).Some?
      ensures var owner := Canonical(Holder(window, id, vault, bal, expected).value);
              who == owner || LastReceipt(window, |window|, id, who) < LastReceipt(window, |window|, id, owner)
    {
      QualifyingIsListed(earlier, window, id, vault, expected, who);
      FirstFundedFinds(cs, bal, expected);
      FoundIsLatest(cs, window, id, bal, expected, who);
    }
  }

  lemma {:induction false} HoldersHaveReceived(events: seq<Event>, id: nat, who: string)
    requires Balance(events, id, who) > 0
    ensures LastReceipt(events, |events|, id, who) >= 0
  {
    var n := |events| - 1;
    if !Receives(events[n], id, who) {
      HoldersHaveReceived(events[..n], id, who);
      SameReceipts(events, n, id, who);
    }
  }

  lemma {:induction false} SameReceipts(events: seq<Event>, i: nat, id: nat, who: string)
    requires i <= |events|
    ensures LastReceipt(events[..i], i, id, who) == LastReceipt(events, i, id, who)
  {
    var a, b := LastReceipt(events[..i], i, id, who), LastReceipt(events, i, id, who);
    assert forall j :: 0 <= j < i ==> events[..i][j] == events[j];
  }

  /**
    With the whole history in the window and a positive amount, the scan succeeds exactly when some
    address other than zero and the vault holds that amount.
   */
  lemma ScanCompleteForHolders(events: seq<Event>, id: nat, vault: string, expected: int)
    requires expected > 0
    ensures Holder(events, id, vault, LedgerBalance(events, id), expected).Some? <==>
            exists who :: who !in Excluded(vault) && Balance(events, id, who) >= expected
  {
    ScanExact([], events, id, vault, expected);
    assert [] + events == events;
    if who :| who !in Excluded(vault) && Balance(events, id, who) >= expected {
      HoldersHaveReceived(events, id, who);
      assert Qualifies([], events, id, vault, expected, who);
    }
  }

  /** A holder whose only receipt is older than the window is missed, however much it holds. */
  lemma OldReceiptMissed(id: nat, vault: string, who: string, value: nat)
    requires Canonical(who) !in Excluded(vault) && value > 0
    ensures var mint := TransferSingle(id, ZERO_ADDRESS, who, value);
            Holder([], id, vault, LedgerBalance([mint] + [], id), value) == None && Balance([mint], id, Canonical(who)) == value
  {
    var mint := TransferSingle(id, ZERO_ADDRESS, who, value);
    assert [mint][..0] == [];
    assert Canonical(ZERO_ADDRESS) in Excluded(vault);
  }

  // -------------------------------------------------------- on the log itself

  /** Entry `j` is, among the first `i`, the last transfer of `id` to its recipient, who is none of `seen`. */
  predicate LastOfItsOwner(log: seq<Event>, i: nat, id: nat, seen: set<string>, j: nat)
    requires i <= |log|
  {
    j < i && log[j].TransferSingle? && log[j].id == id && Lower(log[j].to) !in seen &&
    forall k :: j < k < i && log[k].TransferSingle? && log[k].id == id ==> Lower(log[k].to) != Lower(log[j].to)
  }

  lemma LastOfOwnerBefore(log: seq<Event>, i: nat, id: nat, seen: set<string>, j: nat)
    requires 0 < i <= |log|
    ensures LastOfItsOwner(log, i, id, seen, j) <==>
            if Skipped(log[i - 1], id, seen) then LastOfItsOwner(log, i - 1, id, seen, j)
            else j == i - 1 || LastOfItsOwner(log, i - 1, id, seen + {Canonical(log[i - 1].to)}, j)
  {
  }

  /** Entry `j` decides the scan of the first `i` entries: its owner has enough, and no later candidate has. */
  ghost predicate Decides(log: seq<Event>, i: nat, id: nat, seen: set<string>, balanceOf: string -> int, expected: int, j: nat)
    requires i <= |log|
  {
    && LastOfItsOwner(log, i, id, seen, j) && j < i && balanceOf(log[j].to) >= expected && log[j].TransferSingle?
    && forall k: nat :: j < k < i && LastOfItsOwner(log, i, id, seen, k) ==> balanceOf(log[k].to) < expected
  }

  lemma {:induction false} FundedDecides(log: seq<Event>, i: nat, id: nat, seen: set<string>, balanceOf: string -> int, expected: int)
    requires i <= |log|
    ensures match FirstFunded(Candidates(log, i, id, seen), balanceOf, expected)
            case None => forall j: nat :: LastOfItsOwner(log, i, id, seen, j) ==> balanceOf(log[j].to) < expected
            case Some(a) => exists j: nat :: Decides(log, i, id, seen, balanceOf, expected, j) && a == log[j].to
  {
    if i == 0 {
    } else {
      forall j: nat { LastOfOwnerBefore(log, i, id, seen, j); }
      var e := log[i - 1];
      if Skipped(e, id, seen) {
        FundedDecides(log, i - 1, id, seen, balanceOf, expected);
      } else {
        FundedDecides(log, i - 1, id, seen + {Canonical(e.to)}, balanceOf, expected);
      }
    }
  }

  /**
    Entry `j` is the last transfer of `id` to its recipient, whatever the case its address is
    written in, and the recipient is neither the zero address nor the vault.
   */
  predicate CandidateAt(log: seq<Event>, id: nat, vault: string, j: nat) {
    j < |log| && log[j].TransferSingle? && log[j].id == id &&
    Lower(log[j].to) != "0x0000000000000000000000000000000000000000" && Lower(log[j].to) != Lower(vault) &&
    forall k :: j < k < |log| && log[k].TransferSingle? && log[k].id == id ==> Lower(log[k].to) != Lower(log[j].to)
  }

  lemma ZeroIsLower()
    ensures Lower(ZERO_ADDRESS) == "0x0000000000000000000000000000000000000000"
  {
    LowerFixed(ZERO_ADDRESS);
  }

  lemma CandidateIsLast(log: seq<Event>, id: nat, vault: string, j: nat)
    ensures CandidateAt(log, id, vault, j) <==> LastOfItsOwner(log, |log|, id, Excluded(vault), j)
  {
    ZeroIsLower();
  }

  /**
    For any log and any balances: the address returned is written as the log has it, belongs to a
    candidate with enough, and every later candidate has less; nothing is returned exactly when
    every candidate has less.
   */
  lemma HolderExactly(log: seq<Event>, id: nat, vault: string, balanceOf: string -> int, expected: int)
    ensures match Holder(log, id, vault, balanceOf, expected)
            case None => forall j: nat :: CandidateAt(log, id, vault, j) ==> balanceOf(log[j].to) < expected
            case Some(a) =>
              exists j: nat :: CandidateAt(log, id, vault, j) && a == log[j].to && balanceOf(a) >= expected &&
                forall k: nat :: k > j && CandidateAt(log, id, vault, k) ==> balanceOf(log[k].to) < expected
  {
    hide LastOfItsOwner;
    forall j: nat { CandidateIsLast(log, id, vault, j); }
    FundedDecides(log, |log|, id, Excluded(vault), balanceOf, expected);
    var r := Holder(log, id, vault, balanceOf, expected);
    if r.Some? {
      var j: nat :| Decides(log, |log|, id, Excluded(vault), balanceOf, expected, j) && r.value == log[j].to;
      assert CandidateAt(log, id, vault, j);
    }
  }
}
