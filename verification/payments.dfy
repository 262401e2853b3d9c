/** The `PHP_Sia` object of class.sia.php as far as it keeps a payments
    ledger: the `sia` table it inserts into and selects from, the payments it
    asks the wallet daemon to make, and the reconciliation run `db_update`. */
module Payments {
  import opened Wrappers
  import opened Chain
  import opened Helpers
  import opened Ledger
  import opened Scanner

  /** What MySQL answers to an INSERT: whether the statement could be
      prepared, and how many rows executing it affected. */
  datatype DbAnswer = DbAnswer(prepared: bool, affectedRows: int)

  /** The id `send_sc` hands back: the last id of the daemon's answer, or
      null when the answer lists none. */
  function LastId(ids: seq<TxId>): (r: Cell)
    ensures r.Null? <==> ids == []
    ensures r.Text? ==> r.s == ids[|ids| - 1] && r.s in ids
  {
    if ids == [] then Null else Text(ids[|ids| - 1])
  }

  /** The row `db_withdraw_funds` inserts. The source writes the string
      'null' into `address` and `expire`, and leaves `msg` out (NULL). */
  function WithdrawalRow(siacoins: Decimal, address: string, txid: Cell, height: int): Row
  {
    Row(Text(WithdrawalType), Text("null"), Text(address), txid, ScToHastings(siacoins),
        Text("null"), height, Null)
  }

  /** The row `db_new_receivable` inserts: the amount as given, not negated. */
  function ReceivableRow(siacoins: Decimal, address: string, expire: string, height: int): Row
  {
    Row(Text(ReceivableType), Text(address), Text("null"), Text("null"), ScToHastings(siacoins),
        Text(expire), height, Null)
  }

  /** A new receivable is the one a deposit to its address matches exactly
      when the table held no receivable for that address before. */
  lemma ReceivableUnique(table: seq<Row>, siacoins: Decimal, address: string, expire: string, height: int)
    ensures UniqueMatch(table + [ReceivableRow(siacoins, address, expire, height)], ReceivableConds(Text(address)), And)
        <==> Filter(table, ReceivableConds(Text(address)), And) == []
  {
    var conds := ReceivableConds(Text(address));
    assert Satisfies(ReceivableRow(siacoins, address, expire, height), conds, And) by {
      assert SqlText(Text(address)) == address;
    }
    UniqueMatchSnocMatching(table, ReceivableRow(siacoins, address, expire, height), conds, And);
    FilterEmpty(table, conds, And);
  }

  /** A withdrawal row is never taken for a receivable: the receivables any
      address finds are the same before and after it is inserted. */
  lemma WithdrawalKeepsReceivables(table: seq<Row>, siacoins: Decimal, address: string, txid: Cell, height: int, a: Cell)
    ensures Filter(table + [WithdrawalRow(siacoins, address, txid, height)], ReceivableConds(a), And)
         == Filter(table, ReceivableConds(a), And)
  {
    var w := WithdrawalRow(siacoins, address, txid, height);
    FilterAppend(table, [w], ReceivableConds(a), And);
    assert !Matches(w, ReceivableConds(a)[0]);
    assert Filter([w], ReceivableConds(a), And) == [];
  }

  /** Once any row carries a transaction id, a default scan that meets that
      transaction with a positive net stops there. */
  lemma RegisteredStops(table: seq<Row>, d: Daemon, start: int, id: TxId)
    requires exists k :: 0 <= k < |table| && table[k].txid == Text(id)
    requires NetOrZero(Detail(d, id)) > 0
    ensures Examine(table, d, start, id, false) == Abort
  {
    var k :| 0 <= k < |table| && table[k].txid == Text(id);
    assert Satisfies(table[k], RegisteredConds(id), And);
    assert table[k] in Filter(table, RegisteredConds(id), And);
  }

  class Sia {
    /** The rows of the `sia` table, oldest first. */
    var table: seq<Row>
    /** The payments this object has asked the wallet daemon to make, in order. */
    var transfers: seq<Transfer>

    constructor(rows: seq<Row>)
      ensures table == rows && transfers == []
    {
      table := rows;
      transfers := [];
    }

    /** `db_insert`: a statement that cannot be prepared throws 'Could not
        query sia database.'; one that affects exactly one row commits it;
        anything else rolls back and throws 'Failed to insert entry'. */
    method Insert(row: Row, db: DbAnswer) returns (r: Result<bool, Error>)
      modifies this
      ensures !db.prepared ==> r == Failure(QueryFailed)
      ensures db.prepared && db.affectedRows != 1 ==> r == Failure(InsertFailed)
      ensures db.prepared && db.affectedRows == 1 ==> r == Success(true)
      ensures r.Success? ==> table == old(table) + [row]
      ensures r.Failure? ==> table == old(table)
      ensures transfers == old(transfers)
    {
      if !db.prepared {
        return Failure(QueryFailed);
      }
      if db.affectedRows == 1 {
        table := table + [row];
        return Success(true);
      }
      return Failure(InsertFailed);
    }

    /** `db_select`: with no condition the query ends in a bare `WHERE` and
        cannot be prepared; otherwise the matching rows in table order. */
    method Select(conds: seq<Cond>, op: Operator) returns (r: Result<seq<Row>, Error>)
      ensures r.Failure? <==> conds == []
      ensures r.Failure? ==> r.error == QueryFailed
      ensures r.Success? ==> r.value == Filter(table, conds, op)
    {
      if conds == [] {
        return Failure(QueryFailed);
      }
      var rows := [];
      for i := 0 to |table|
        invariant rows == Filter(table[..i], conds, op)
      {
        assert table[..i + 1][..i] == table[..i];
        if Satisfies(table[i], conds, op) {
          rows := rows + [table[i]];
        }
      }
      assert table[..|table|] == table;
      return Success(rows);
    }

    /** `send_sc`: a locked wallet and an invalid address throw before
        anything is sent; otherwise one payment of the converted amount is
        issued and the last id of the daemon's answer comes back. */
    method SendSc(siacoins: Decimal, address: string, d: Daemon) returns (r: Result<Cell, Error>)
      modifies this
      ensures d.locked ==> r == Failure(WalletLocked)
      ensures !d.locked && !IsValidAddress(address) ==> r == Failure(InvalidAddress)
      ensures r.Success? <==> !d.locked && IsValidAddress(address)
      ensures r.Success? ==> r.value == LastId(d.sendReply)
                             && transfers == old(transfers) + [Transfer(ScToHastings(siacoins), address)]
      ensures r.Failure? ==> transfers == old(transfers)
      ensures table == old(table)
    {
      if d.locked {
        return Failure(WalletLocked);
      }
      if !IsValidAddress(address) {
        return Failure(InvalidAddress);
      }
      transfers := transfers + [Transfer(ScToHastings(siacoins), address)];
      return Success(LastId(d.sendReply));
    }

    /** `db_withdraw_funds`: a non-positive amount returns false and does
        nothing; otherwise the payment is sent and a `withdrawal` row with
        the last id of the send is inserted. A failed insert leaves the
        payment issued and the table as it was. */
    method WithdrawFunds(siacoins: Decimal, address: string, d: Daemon, db: DbAnswer) returns (r: Result<bool, Error>)
      modifies this
      ensures siacoins.digits <= 0 ==> r == Success(false)
      ensures siacoins.digits <= 0 || d.locked || !IsValidAddress(address) ==>
                table == old(table) && transfers == old(transfers)
      ensures siacoins.digits > 0 && d.locked ==> r == Failure(WalletLocked)
      ensures siacoins.digits > 0 && !d.locked && !IsValidAddress(address) ==> r == Failure(InvalidAddress)
      ensures siacoins.digits > 0 && !d.locked && IsValidAddress(address) ==>
                && transfers == old(transfers) + [Transfer(ScToHastings(siacoins), address)]
                && (r == Success(true) <==> db.prepared && db.affectedRows == 1)
                && r == (if !db.prepared then Failure(QueryFailed)
                         else if db.affectedRows != 1 then Failure(InsertFailed)
                         else Success(true))
      ensures r == Success(true) ==>
                table == old(table) + [WithdrawalRow(siacoins, address, LastId(d.sendReply), d.height)]
      ensures r != Success(true) ==> table == old(table)
    {
      if siacoins.digits <= 0 {
        return Success(false);
      }
      var sent := SendSc(siacoins, address, d);
      if sent.Failure? {
        return Failure(sent.error);
      }
      r := Insert(WithdrawalRow(siacoins, address, sent.value, d.height), db);
    }

    /** `db_new_receivable`: inserts a `receivable` row for the address with
        the converted amount, checking neither. */
    method NewReceivable(siacoins: Decimal, address: string, expire: string, d: Daemon, db: DbAnswer)
      returns (r: Result<bool, Error>)
      modifies this
      ensures r == Success(true) <==> db.prepared && db.affectedRows == 1
      ensures r == (if !db.prepared then Failure(QueryFailed)
                    else if db.affectedRows != 1 then Failure(InsertFailed)
                    else Success(true))
      ensures r == Success(true) ==> table == old(table) + [ReceivableRow(siacoins, address, expire, d.height)]
      ensures r != Success(true) ==> table == old(table)
      ensures transfers == old(transfers)
    {
      r := Insert(ReceivableRow(siacoins, address, expire, d.height), db);
    }

    /** The body of `db_update`'s loop over a block's confirmed ids: skip a
        transaction that does not pay the wallet, end the run at one already
        in the table unless every block is processed, and otherwise take the
        deposit entry when exactly one receivable has its address. */
    method Classify(d: Daemon, start: int, id: TxId, processAll: bool) returns (v: Verdict)
      ensures v == Examine(table, d, start, id, processAll)
    {
      var txn := Detail(d, id);
      var hastings := HastingsNet(txn);
      if hastings <= 0 {
        return Skip;
      }
      var registered := Select(RegisteredConds(id), And);
      if |registered.value| > 0 && !processAll {
        return Abort;
      }
      var address, remoteAddress := OutputAddresses(OutputsOf(txn));
      var receivables := Select(ReceivableConds(address), And);
      if |receivables.value| == 1 {
        return Accept(Row(Text(DepositType), address, remoteAddress, Text(id), hastings,
                          Text(NoExpiry), start, Null));
      }
      return Skip;
    }

    /** The `foreach` of `db_update` over one block's confirmed ids: entries
        are collected in id order after `acc`, and the first id that ends the
        run stops it with what was collected so far. */
    method WalkBlock(d: Daemon, start: int, confirmed: seq<TxId>, processAll: bool, acc: seq<Row>)
      returns (step: Step)
      ensures step == Walk(Verdicts(table, d, start, confirmed, processAll), acc)
    {
      ghost var vs := Verdicts(table, d, start, confirmed, processAll);
      var newTxns := acc;
      var i := 0;
      assert vs[i..] == vs;
      while i < |confirmed|
        invariant 0 <= i <= |confirmed|
        invariant Walk(vs[i..], newTxns) == Walk(vs, acc)
      {
        var v := Classify(d, start, confirmed[i], processAll);
        assert vs[i..] == [v] + vs[i + 1..];
        WalkCons(v, vs[i + 1..], newTxns);
        if v.Abort? {
          return Stop(newTxns);
        }
        if v.Accept? {
          newTxns := newTxns + [v.entry];
        }
        i := i + 1;
      }
      assert vs[|confirmed|..] == [];
      return Continue(newTxns);
    }

    /** `db_update`: walks the blocks from the consensus height down to the
        floor and returns the deposits it recognises, without writing them.
        The result is the one the scan specification gives, and each entry is
        a `deposit` of a positive net matched to exactly one receivable. */
    method Update(d: Daemon, processAll: bool) returns (newTxns: seq<Row>)
      ensures newTxns == Scan(table, d, processAll)
      ensures d.height < ScanFloor ==> newTxns == []
      ensures forall e :: e in newTxns ==>
        && e.kind == Text(DepositType)
        && e.txid.Text? && Observed(d, e.txid.s)
        && e.hastings > 0
        && e.hastings == NetOrZero(Detail(d, e.txid.s))
        && e.blockHeight == d.height
        && UniqueMatch(table, ReceivableConds(e.address), And)
    {
      ScanSound(table, d, processAll);
      newTxns := [];
      var start := d.height;
      var h := start;
      while h >= ScanFloor
        invariant ScanBlocks(BlockVerdicts(table, d, processAll), h, newTxns) == Scan(table, d, processAll)
        decreases h - ScanFloor + 1
      {
        var confirmed, unconfirmed := WalletTransactions(BlockResponse(d, h));
        assert BlockVerdicts(table, d, processAll)(h) == Verdicts(table, d, start, confirmed, processAll);
        var step := WalkBlock(d, start, confirmed, processAll, newTxns);
        if step.Stop? {
          return step.found;
        }
        newTxns := step.found;
        h := h - 1;
      }
    }
  }
}
