/** What each of the store's seven SQL statements does to, or reads from, the
    two tables, stated on table values. The wallets table is a map from
    customer_xid (the lookup key) to the row; the transactions table is a
    sequence of rows in insertion order. */
module Queries {
  import opened Domain

  /** The content of both tables. */
  datatype LedgerState = LedgerState(wallets: map<string, Wallet>, transactions: seq<Transaction>)

  /** Integrity the tables' keys give: a wallet is filed under its own
      customer_xid, and wallet ids and transaction ids are primary keys. */
  ghost predicate WellFormed(st: LedgerState)
  {
    && (forall cx :: cx in st.wallets ==> st.wallets[cx].customerXid == cx)
    && (forall a, b :: a in st.wallets && b in st.wallets && st.wallets[a].id == st.wallets[b].id ==> a == b)
    && (forall i, j :: 0 <= i < j < |st.transactions| ==> st.transactions[i].id != st.transactions[j].id)
  }

  // ---------------------------------------------------------------------
  // wallets

  /** `getWalletQuery`: the row whose customer_xid is given. */
  function SelectWallet(ws: map<string, Wallet>, customerXid: string): Option<Wallet>
  {
    if customerXid in ws then Some(ws[customerXid]) else None
  }

  /** Some row already uses this primary key. */
  predicate WalletIdTaken(ws: map<string, Wallet>, id: string)
  {
    exists cx :: cx in ws && ws[cx].id == id
  }

  /** The row `insertWalletQuery` creates: only id and customer_xid are
      supplied, every other column takes its default. */
  function NewWalletRow(id: string, customerXid: string, now: Time): Wallet
  {
    Wallet(id, customerXid, Unset, None, 0, now, now)
  }

  /** `insertWalletQuery`; None when the primary key or the customer_xid is
      already in use (the statement fails). */
  function InsertWallet(ws: map<string, Wallet>, id: string, customerXid: string, now: Time): Option<map<string, Wallet>>
  {
    if customerXid in ws || WalletIdTaken(ws, id) then None
    else Some(ws[customerXid := NewWalletRow(id, customerXid, now)])
  }

  /** `updateWalletStatusQuery`: status and enabled_at are written together
      on the row with that customer_xid; no row matches, nothing changes. */
  function SetWalletStatus(ws: map<string, Wallet>, customerXid: string, status: WalletStatus,
                           enabledAt: Option<Time>, now: Time): map<string, Wallet>
  {
    if customerXid in ws
    then ws[customerXid := ws[customerXid].(status := status, enabledAt := enabledAt, updatedAt := now)]
    else ws
  }

  /** The WHERE clause of `updateWalletBalanceQuery`. */
  predicate CasRow(w: Wallet, id: string, expected: int)
  {
    w.id == id && w.balance == expected
  }

  /** Some row satisfies the WHERE clause of `updateWalletBalanceQuery`. */
  predicate CasMatches(ws: map<string, Wallet>, id: string, expected: int)
  {
    exists cx :: cx in ws && CasRow(ws[cx], id, expected)
  }

  /** `updateWalletBalanceQuery`: every row whose id and current balance match
      gets the new balance; all other rows are left as they are. */
  function CasBalance(ws: map<string, Wallet>, id: string, expected: int, final: int, now: Time): map<string, Wallet>
  {
    map cx | cx in ws :: if CasRow(ws[cx], id, expected) then ws[cx].(balance := final, updatedAt := now) else ws[cx]
  }

  // ---------------------------------------------------------------------
  // transactions

  /** Some transaction row already uses this primary key. */
  predicate TransactionIdTaken(ts: seq<Transaction>, id: string)
  {
    exists i :: 0 <= i < |ts| && ts[i].id == id
  }

  /** `insertTransactionQuery`: the row with all nine columns as given; None
      when its primary key is already in use. */
  function InsertTransaction(ts: seq<Transaction>, t: Transaction): Option<seq<Transaction>>
  {
    if TransactionIdTaken(ts, t.id) then None else Some(ts + [t])
  }

  /** `updateTransactionStatusQuery`: keyed by id only; it rewrites status and
      updated_at of every matching row whatever its current status, and
      leaves every other row and column alone. */
  function SetTransactionStatus(ts: seq<Transaction>, id: string, status: TxStatus, now: Time): (r: seq<Transaction>)
    ensures |r| == |ts|
    ensures forall i :: 0 <= i < |ts| ==>
      r[i] == if ts[i].id == id then ts[i].(status := status, updatedAt := now) else ts[i]
  {
    if ts == [] then []
    else
      var last := ts[|ts| - 1];
      SetTransactionStatus(ts[..|ts| - 1], id, status, now)
        + [if last.id == id then last.(status := status, updatedAt := now) else last]
  }

  /** The WHERE clause of `getTransactionsQuery`: the rows of one wallet, in
      table order. */
  function RowsOfWallet(ts: seq<Transaction>, walletId: string): (r: seq<Transaction>)
    ensures |r| <= |ts|
    ensures forall t :: t in r <==> t in ts && t.walletId == walletId
    ensures multiset(r) <= multiset(ts)
  {
    if ts == [] then []
    else
      var last := ts[|ts| - 1];
      assert ts == ts[..|ts| - 1] + [last];
      RowsOfWallet(ts[..|ts| - 1], walletId) + (if last.walletId == walletId then [last] else [])
  }

  predicate SortedByCreated(s: seq<Transaction>)
  {
    forall i, j :: 0 <= i < j < |s| ==> s[i].createdAt <= s[j].createdAt
  }

  /** Places `t` after every row created no later than it, so rows with equal
      created_at keep their table order. */
  function InsertByCreated(sorted: seq<Transaction>, t: Transaction): (r: seq<Transaction>)
    requires SortedByCreated(sorted)
    ensures SortedByCreated(r)
    ensures multiset(r) == multiset(sorted) + multiset{t}
  {
    if sorted == [] || sorted[|sorted| - 1].createdAt <= t.createdAt then
      AppendLatest(sorted, t);
      sorted + [t]
    else
      var last := sorted[|sorted| - 1];
      var front := InsertByCreated(sorted[..|sorted| - 1], t);
      assert sorted == sorted[..|sorted| - 1] + [last];
      CreatedNoLaterThan(front, sorted[..|sorted| - 1], t, last.createdAt);
      AppendLatest(front, last);
      front + [last]
  }

  /** Appending a row created no earlier than every row keeps the order. */
  lemma AppendLatest(s: seq<Transaction>, t: Transaction)
    requires SortedByCreated(s)
    requires forall i :: 0 <= i < |s| ==> s[i].createdAt <= t.createdAt
    ensures SortedByCreated(s + [t])
  {
  }

  /** A sequence holding the rows of `s` and `t` holds only rows created no
      later than `bound` when those are. */
  lemma CreatedNoLaterThan(front: seq<Transaction>, s: seq<Transaction>, t: Transaction, bound: Time)
    requires multiset(front) == multiset(s) + multiset{t}
    requires forall i :: 0 <= i < |s| ==> s[i].createdAt <= bound
    requires t.createdAt <= bound
    ensures forall i :: 0 <= i < |front| ==> front[i].createdAt <= bound
  {
    forall i | 0 <= i < |front| ensures front[i].createdAt <= bound {
      var x := front[i];
      assert x in multiset(front);
      if x != t {
        assert x in multiset(s);
        var k :| 0 <= k < |s| && s[k] == x;
      }
    }
  }

  /** ORDER BY created_at, ties in table order. */
  function SortByCreated(s: seq<Transaction>): (r: seq<Transaction>)
    ensures SortedByCreated(r)
    ensures multiset(r) == multiset(s)
  {
    if s == [] then []
    else
      assert s == s[..|s| - 1] + [s[|s| - 1]];
      InsertByCreated(SortByCreated(s[..|s| - 1]), s[|s| - 1])
  }

  /** `getTransactionsQuery`: the rows of one wallet, ascending created_at. */
  function SelectTransactions(ts: seq<Transaction>, walletId: string): seq<Transaction>
  {
    SortByCreated(RowsOfWallet(ts, walletId))
  }

  // ---------------------------------------------------------------------
  // properties of the statements

  /** The filter keeps every row of the wallet as often as the table holds it,
      and no row of another wallet. */
  lemma {:induction false} RowsOfWalletCounts(ts: seq<Transaction>, walletId: string)
    ensures forall t :: multiset(RowsOfWallet(ts, walletId))[t] == if t.walletId == walletId then multiset(ts)[t] else 0
  {
    if ts != [] {
      var front := ts[..|ts| - 1];
      assert ts == front + [ts[|ts| - 1]];
      RowsOfWalletCounts(front, walletId);
    }
  }

  /** A rows-of-one-wallet filter keeps the table's created_at order. */
  lemma {:induction false} RowsOfWalletKeepsOrder(ts: seq<Transaction>, walletId: string)
    requires SortedByCreated(ts)
    ensures SortedByCreated(RowsOfWallet(ts, walletId))
  {
    if ts != [] {
      var front := ts[..|ts| - 1];
      var last := ts[|ts| - 1];
      assert SortedByCreated(front);
      RowsOfWalletKeepsOrder(front, walletId);
      forall x | x in RowsOfWallet(front, walletId) ensures x.createdAt <= last.createdAt {
        var k :| 0 <= k < |front| && front[k] == x;
      }
    }
  }

  /** Sorting rows that are already in created_at order changes nothing. */
  lemma {:induction false} SortByCreatedOfSorted(s: seq<Transaction>)
    requires SortedByCreated(s)
    ensures SortByCreated(s) == s
  {
    if s != [] {
      InsertLastOfSorted(s);
      SortByCreatedOfSorted(s[..|s| - 1]);
    }
  }

  /** In a sorted sequence the rows before the last are sorted, and inserting
      the last row into them puts it back at the end. */
  lemma InsertLastOfSorted(s: seq<Transaction>)
    requires SortedByCreated(s) && s != []
    ensures SortedByCreated(s[..|s| - 1])
    ensures InsertByCreated(s[..|s| - 1], s[|s| - 1]) == s
  {
    var front := s[..|s| - 1];
    var last := s[|s| - 1];
    assert SortedByCreated(front) by {
      forall i, j | 0 <= i < j < |front| ensures front[i].createdAt <= front[j].createdAt {
        assert front[i] == s[i] && front[j] == s[j];
      }
    }
    if front != [] {
      assert front[|front| - 1] == s[|s| - 2];
    }
    assert front + [last] == s;
  }

  /** The transaction list holds exactly the rows of the given wallet, each as
      many times as the table does, in ascending created_at order; when the
      table itself is in created_at order (rows inserted with a clock that
      does not go back), the list is those rows in table order. */
  lemma SelectTransactionsRows(ts: seq<Transaction>, walletId: string)
    ensures var r := SelectTransactions(ts, walletId);
      && SortedByCreated(r)
      && multiset(r) == multiset(RowsOfWallet(ts, walletId))
      && (forall t :: t in r <==> t in ts && t.walletId == walletId)
      && (forall t :: multiset(r)[t] == if t.walletId == walletId then multiset(ts)[t] else 0)
    ensures SortedByCreated(ts) ==> SelectTransactions(ts, walletId) == RowsOfWallet(ts, walletId)
  {
    var r := SelectTransactions(ts, walletId);
    RowsOfWalletCounts(ts, walletId);
    forall t ensures t in r <==> t in ts && t.walletId == walletId {
      assert t in r <==> t in multiset(r);
      assert t in RowsOfWallet(ts, walletId) <==> t in multiset(RowsOfWallet(ts, walletId));
    }
    if SortedByCreated(ts) {
      RowsOfWalletKeepsOrder(ts, walletId);
      SortByCreatedOfSorted(RowsOfWallet(ts, walletId));
    }
  }

  /** A table in created_at order whose rows all belong to one wallet is
      listed for that wallet exactly as it stands. */
  lemma {:induction false} SelectOwnSortedRows(ts: seq<Transaction>, walletId: string)
    requires SortedByCreated(ts)
    requires forall i :: 0 <= i < |ts| ==> ts[i].walletId == walletId
    ensures SelectTransactions(ts, walletId) == ts
  {
    OwnRowsKept(ts, walletId);
    SortByCreatedOfSorted(ts);
  }

  lemma {:induction false} OwnRowsKept(ts: seq<Transaction>, walletId: string)
    requires forall i :: 0 <= i < |ts| ==> ts[i].walletId == walletId
    ensures RowsOfWallet(ts, walletId) == ts
  {
    if ts != [] {
      var front, last := ts[..|ts| - 1], ts[|ts| - 1];
      OwnRowsKept(front, walletId);
      assert RowsOfWallet(ts, walletId) == RowsOfWallet(front, walletId) + [last];
      assert front + [last] == ts;
    }
  }

  /** A wallet insert either fails, leaving the table, or adds exactly one row
      under the new customer_xid carrying the given id and the column defaults
      (no status, no enabled_at, balance 0); it succeeds iff neither the
      customer_xid nor the id is in use. */
  lemma InsertWalletRow(ws: map<string, Wallet>, id: string, customerXid: string, now: Time)
    ensures InsertWallet(ws, id, customerXid, now).Some? <==> customerXid !in ws && !WalletIdTaken(ws, id)
    ensures InsertWallet(ws, id, customerXid, now).Some? ==>
      var r := InsertWallet(ws, id, customerXid, now).value;
      && r.Keys == ws.Keys + {customerXid}
      && SelectWallet(r, customerXid) == Some(Wallet(id, customerXid, Unset, None, 0, now, now))
      && (forall cx :: cx in ws ==> r[cx] == ws[cx])
  {
  }

  /** A status update is keyed by customer_xid and touches only status,
      enabled_at and updated_at of that one row. */
  lemma SetWalletStatusRow(ws: map<string, Wallet>, customerXid: string, status: WalletStatus,
                           enabledAt: Option<Time>, now: Time)
    ensures var r := SetWalletStatus(ws, customerXid, status, enabledAt, now);
      && r.Keys == ws.Keys
      && (forall cx :: cx in ws && cx != customerXid ==> r[cx] == ws[cx])
      && (customerXid in ws ==>
            && r[customerXid].status == status && r[customerXid].enabledAt == enabledAt
            && r[customerXid] == ws[customerXid].(status := status, enabledAt := enabledAt, updatedAt := now))
  {
  }

  /** The balance update changes a row iff the row's id and current balance
      match, and then only balance and updated_at. */
  lemma CasBalanceRows(ws: map<string, Wallet>, id: string, expected: int, final: int, now: Time)
    ensures var r := CasBalance(ws, id, expected, final, now);
      && r.Keys == ws.Keys
      && (forall cx :: cx in ws && !CasRow(ws[cx], id, expected) ==> r[cx] == ws[cx])
      && (forall cx :: cx in ws && CasRow(ws[cx], id, expected) ==>
            r[cx] == ws[cx].(balance := final, updatedAt := now))
    ensures !CasMatches(ws, id, expected) ==> CasBalance(ws, id, expected, final, now) == ws
  {
    var r := CasBalance(ws, id, expected, final, now);
    if !CasMatches(ws, id, expected) {
      assert forall cx :: cx in ws ==> r[cx] == ws[cx];
    }
  }

  /** Right after the balance update has moved a wallet away from `expected`,
      a second update conditioned on the same `expected` matches no row. This
      holds only when no other update of that wallet runs in between; see
      `SnapshotCanReturn`. */
  lemma CasConsumesSnapshot(ws: map<string, Wallet>, id: string, expected: int, final: int, now: Time)
    requires final != expected
    ensures !CasMatches(CasBalance(ws, id, expected, final, now), id, expected)
  {
    var r := CasBalance(ws, id, expected, final, now);
    forall cx | cx in r ensures !CasRow(r[cx], id, expected) {
      if CasRow(ws[cx], id, expected) {
        assert r[cx].balance == final;
      } else {
        assert r[cx] == ws[cx];
      }
    }
  }

  /** The condition is on a value, not on a version: an update away from
      `expected` followed by one back to it makes `expected` match again, so a
      settlement taken from that snapshot before both still applies. */
  lemma SnapshotCanReturn(ws: map<string, Wallet>, id: string, expected: int, final: int, now1: Time, now2: Time)
    requires CasMatches(ws, id, expected)
    ensures CasMatches(CasBalance(CasBalance(ws, id, expected, final, now1), id, final, expected, now2), id, expected)
  {
    var cx :| cx in ws && CasRow(ws[cx], id, expected);
    var mid := CasBalance(ws, id, expected, final, now1);
    assert CasRow(mid[cx], id, final);
    assert CasRow(CasBalance(mid, id, final, expected, now2)[cx], id, expected);
  }

  /** A balance update conditioned on the balance a wallet has now finds that
      wallet: exactly it moves to the new balance. */
  lemma CasOfCurrentBalance(st: LedgerState, customerXid: string, final: int, now: Time)
    requires WellFormed(st) && customerXid in st.wallets
    ensures var w := st.wallets[customerXid];
      && CasMatches(st.wallets, w.id, w.balance)
      && CasBalance(st.wallets, w.id, w.balance, final, now)
         == st.wallets[customerXid := w.(balance := final, updatedAt := now)]
  {
    var w := st.wallets[customerXid];
    assert CasRow(st.wallets[customerXid], w.id, w.balance);
    CasBalanceRows(st.wallets, w.id, w.balance, final, now);
    forall cx | cx in st.wallets && CasRow(st.wallets[cx], w.id, w.balance) ensures cx == customerXid {
    }
  }

  /** A second status write on the same wallet overrides the first: writing
      the same status twice, as two disables do, ends as one write at the
      later time. */
  lemma SetWalletStatusOverrides(ws: map<string, Wallet>, customerXid: string,
                                 status1: WalletStatus, enabledAt1: Option<Time>, now1: Time,
                                 status2: WalletStatus, enabledAt2: Option<Time>, now2: Time)
    ensures SetWalletStatus(SetWalletStatus(ws, customerXid, status1, enabledAt1, now1), customerXid,
                            status2, enabledAt2, now2)
            == SetWalletStatus(ws, customerXid, status2, enabledAt2, now2)
  {
    if customerXid in ws {
      var once := SetWalletStatus(ws, customerXid, status1, enabledAt1, now1);
      assert once[customerXid].(status := status2, enabledAt := enabledAt2, updatedAt := now2)
             == ws[customerXid].(status := status2, enabledAt := enabledAt2, updatedAt := now2);
    }
  }

  /** A transaction insert succeeds iff its id is unused and then appends the
      row exactly as given. */
  lemma InsertTransactionRow(ts: seq<Transaction>, t: Transaction)
    ensures InsertTransaction(ts, t).Some? <==> !TransactionIdTaken(ts, t.id)
    ensures InsertTransaction(ts, t).Some? ==>
      var r := InsertTransaction(ts, t).value;
      |r| == |ts| + 1 && r[..|ts|] == ts && r[|ts|] == t
  {
  }
}
