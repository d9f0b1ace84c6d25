/**
 The `transactions` ledger (backend/src/store/transactions.rs and the constraints of
 backend/migrations/0002_transactions.sql). Each statement is one atomic change of the
 rows; the functions say what a statement does, the class performs it.
 */
module Transactions {
  import opened Wrappers

  type Key = string
  type Signature = string
  type WalletId = nat

  /** The two lifecycle states these statements write. */
  datatype Status = Pending | Submitted

  datatype Details = Details(to: Option<string>, amount: Option<string>, mint: Option<string>)

  datatype Row = Row(
    wallet: Option<WalletId>, details: Details, createdAt: int,
    signature: Option<Signature>, status: Status)

  datatype Existing = Existing(signature: Option<Signature>, status: Status)

  /** Rows by idempotency key: the UNIQUE constraint makes the key identify the row. */
  type Ledger = map<Key, Row>

  /** How a statement ends: done, failed without effect, or committed but reported as failed. */
  datatype Outcome = Done | Lost | Unacknowledged

  function Find(rows: Ledger, key: Key): Option<Existing> {
    if key in rows then Some(Existing(rows[key].signature, rows[key].status)) else None
  }

  /** `insert ... on conflict (idempotency_key) do nothing` */
  function Claim(rows: Ledger, wallet: Option<WalletId>, key: Key, details: Details, now: int): Ledger {
    if key in rows then rows else rows[key := Row(wallet, details, now, None, Pending)]
  }

  /** Another row already holds this signature, so the UNIQUE constraint refuses it. */
  ghost predicate SignatureTaken(rows: Ledger, key: Key, signature: Signature) {
    exists k :: k in rows && k != key && rows[k].signature == Some(signature)
  }

  /** `update ... set signature, status where idempotency_key`; no row, no change. */
  function Recorded(rows: Ledger, key: Key, signature: Signature): Ledger {
    if key in rows
    then rows[key := rows[key].(signature := Some(signature), status := Submitted)]
    else rows
  }

  ghost predicate MarkRefused(rows: Ledger, key: Key, signature: Signature) {
    key in rows && SignatureTaken(rows, key, signature)
  }

  class Table {
    var rows: Ledger

    constructor ()
      ensures rows == map[]
    {
      rows := map[];
    }

    method FindByIdempotency(key: Key) returns (found: Option<Existing>)
      ensures found == Find(rows, key)
    {
      if key in rows {
        var row := rows[key];
        found := Some(Existing(row.signature, row.status));
      } else {
        found := None;
      }
    }

    method InsertPending(
        wallet: Option<WalletId>, key: Key, details: Details, now: int, outcome: Outcome)
      returns (ok: bool)
      modifies this
      ensures ok <==> outcome == Done
      ensures rows == if outcome == Lost then old(rows) else Claim(old(rows), wallet, key, details, now)
    {
      if outcome != Lost && key !in rows {
        rows := rows[key := Row(wallet, details, now, None, Pending)];
      }
      ok := outcome == Done;
    }

    method MarkSubmitted(key: Key, signature: Signature, outcome: Outcome) returns (ok: bool)
      modifies this
      ensures ok <==> outcome == Done && !MarkRefused(old(rows), key, signature)
      ensures rows == if outcome == Lost || MarkRefused(old(rows), key, signature)
                      then old(rows) else Recorded(old(rows), key, signature)
    {
      var taken := exists k | k in rows :: k != key && rows[k].signature == Some(signature);
      if key in rows && taken {
        return false;
      }
      if outcome != Lost && key in rows {
        rows := rows[key := rows[key].(signature := Some(signature), status := Submitted)];
      }
      ok := outcome == Done;
    }
  }
}
