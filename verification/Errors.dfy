/** Which errors the retry loops treat as nonce trouble or as a passing RPC failure. */
module Errors {
  import opened Text

  /** The error classes the code tests for with `instanceof`. */
  datatype Class = Plain | ReceiptTimeout | NonceTrouble | TransientRpc

  datatype Err = Err(class_: Class, code: string, message: string, reason: string)

  const NONCE_PATTERNS := [
    "replacement transaction", "replacement fee too low", "transaction was replaced", "repriced",
    "known transaction", "already known", "nonce"]

  const TRANSIENT_PATTERNS := ["invalid bytelike", "value=null", "missing trie node"]

  const RECEIPT_TIMEOUT_MS: nat := 15000

  /** `(err.message || err.reason || '').toLowerCase()` */
  function Told(e: Err): string {
    Lower(if e.message != "" then e.message else e.reason)
  }

  predicate Mentions(msg: string, patterns: seq<string>) {
    exists i :: 0 <= i < |patterns| && Includes(msg, patterns[i])
  }

  predicate IsNonceError(e: Err) {
    e.class_ == NonceTrouble || e.code == "TRANSACTION_REPLACED" || Mentions(Told(e), NONCE_PATTERNS)
  }

  predicate IsTransientRpcError(e: Err) {
    e.class_ == TransientRpc || e.code == "BAD_DATA" || Mentions(Told(e), TRANSIENT_PATTERNS)
  }

  predicate Retryable(e: Err) {
    IsNonceError(e) || IsTransientRpcError(e)
  }

  const TIMEOUT_TAIL := "eceipt timeout after 15000ms for tx "

  /** The error thrown when a receipt does not arrive in time: "Receipt timeout after 15000ms for tx ...". */
  function ReceiptTimeoutError(hash: string): Err {
    Err(ReceiptTimeout, "", "R" + (TIMEOUT_TAIL + hash), "")
  }

  predicate HexHash(h: string) {
    |h| >= 2 && h[..2] == "0x" &&
    forall i :: 2 <= i < |h| ==> '0' <= h[i] <= '9' || 'a' <= h[i] <= 'f'
  }

  // A pattern does not occur in a text that lacks one of its characters, or one of its adjacent pairs.

  lemma AbsentPair(msg: string, p: string, k: nat)
    requires k + 1 < |p|
    requires forall i :: 0 <= i < |msg| - 1 && msg[i] == p[k] ==> msg[i + 1] != p[k + 1]
    ensures !Includes(msg, p)
  {
    forall i | 0 <= i <= |msg| && i + |p| <= |msg|
      ensures !OccursAt(msg, p, i)
    {
      assert msg[i..i + |p|][k] == msg[i + k];
      assert msg[i..i + |p|][k + 1] == msg[i + k + 1];
    }
  }

  /** The lower-case text of a receipt timeout. */
  function TimeoutText(hash: string): string {
    "r" + (TIMEOUT_TAIL + hash)
  }

  lemma HexChars(hash: string, c: char)
    requires HexHash(hash) && c in hash
    ensures c == 'x' || '0' <= c <= '9' || 'a' <= c <= 'f'
  {
    assert hash[0] == hash[..2][0] && hash[1] == hash[..2][1];
  }

  lemma TimeoutTold(hash: string)
    requires HexHash(hash)
    ensures Told(ReceiptTimeoutError(hash)) == TimeoutText(hash)
  {
    forall c | c in TIMEOUT_TAIL + hash
      ensures !('A' <= c <= 'Z')
    {
      if c in hash { HexChars(hash, c); } else { assert c in TIMEOUT_TAIL; }
    }
    LowerFixed(TIMEOUT_TAIL + hash);
    assert Lower("R" + (TIMEOUT_TAIL + hash)) == "r" + Lower(TIMEOUT_TAIL + hash);
  }

  lemma TimeoutLacks(hash: string, c: char)
    requires HexHash(hash) && c in {'n', 'l', 'k', 'v'}
    ensures c !in TimeoutText(hash)
  {
    assert c !in TIMEOUT_TAIL;
    if c in hash { HexChars(hash, c); }
  }

  lemma TimeoutNotRepriced(hash: string)
    requires HexHash(hash)
    ensures !Includes(TimeoutText(hash), "repriced")
  {
    var m, n := TimeoutText(hash), |TIMEOUT_TAIL|;
    forall i | 0 <= i < |m| && m[i] == 'p'
      ensures i == 5
    {
      if i > n {
        assert m[i] == hash[i - 1 - n];
        HexChars(hash, m[i]);
      } else if i > 0 {
        assert m[i] == TIMEOUT_TAIL[i - 1];
      }
    }
    assert m[6] == TIMEOUT_TAIL[5];
    AbsentPair(m, "repriced", 2);
  }

  lemma TimeoutNotNonce(hash: string)
    requires HexHash(hash)
    ensures !Mentions(TimeoutText(hash), NONCE_PATTERNS)
  {
    var m := TimeoutText(hash);
    TimeoutLacks(hash, 'n');
    TimeoutLacks(hash, 'l');
    TimeoutLacks(hash, 'k');
    forall i | 0 <= i < |NONCE_PATTERNS|
      ensures !Includes(m, NONCE_PATTERNS[i])
    {
      if i == 0 { AbsentChar(m, "replacement transaction", 3); }
      else if i == 1 { AbsentChar(m, "replacement fee too low", 3); }
      else if i == 2 { AbsentChar(m, "transaction was replaced", 3); }
      else if i == 3 { TimeoutNotRepriced(hash); }
      else if i == 4 { AbsentChar(m, "known transaction", 0); }
      else if i == 5 { AbsentChar(m, "already known", 1); }
      else { AbsentChar(m, "nonce", 0); }
    }
  }

  lemma TimeoutNotTransient(hash: string)
    requires HexHash(hash)
    ensures !Mentions(TimeoutText(hash), TRANSIENT_PATTERNS)
  {
    var m := TimeoutText(hash);
    TimeoutLacks(hash, 'n');
    TimeoutLacks(hash, 'v');
    forall i | 0 <= i < |TRANSIENT_PATTERNS|
      ensures !Includes(m, TRANSIENT_PATTERNS[i])
    {
      if i == 0 { AbsentChar(m, "invalid bytelike", 1); }
      else if i == 1 { AbsentChar(m, "value=null", 0); }
      else { AbsentChar(m, "missing trie node", 5); }
    }
  }

  /** A receipt timeout is neither a nonce error nor a transient one, for any transaction hash. */
  lemma ReceiptTimeoutNotRetryable(hash: string)
    requires HexHash(hash)
    ensures !Retryable(ReceiptTimeoutError(hash))
  {
    TimeoutTold(hash);
    TimeoutNotNonce(hash);
    TimeoutNotTransient(hash);
  }
}
