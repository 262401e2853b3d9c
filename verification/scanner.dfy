/** The reconciliation scan of `db_update`, as functions of the ledger table
    and the daemon's answers: what one run returns, and what that result is. */
module Scanner {
  import opened Wrappers
  import opened Chain
  import opened Ledger

  /** The scan never goes below this height (the code was written at block 22130). */
  const ScanFloor := 22100

  /** The `expire` value of a deposit entry. */
  const NoExpiry := "0000-00-00 00:00:00"

  /** A cell as string concatenation writes it into the SQL text: null becomes "". */
  function SqlText(c: Cell): string
  {
    match c
    case Null => ""
    case Text(s) => s
  }

  /** The related address of the last output whose ownership is `owned`: the
      outputs loop overwrites the field at every match, so the last one wins. */
  function LastRelated(outs: seq<Output>, owned: bool): Cell
  {
    if outs == [] then Null
    else if outs[|outs| - 1].walletAddress == owned then Text(outs[|outs| - 1].relatedAddress)
    else LastRelated(outs[..|outs| - 1], owned)
  }

  /** No address is found exactly when no output has the ownership looked
      for. */
  lemma {:induction false} LastRelatedNone(outs: seq<Output>, owned: bool)
    ensures LastRelated(outs, owned).Null? <==> forall i :: 0 <= i < |outs| ==> outs[i].walletAddress != owned
    decreases |outs|
  {
    if outs != [] {
      var p := outs[..|outs| - 1];
      LastRelatedNone(p, owned);
      assert outs == p + [outs[|outs| - 1]];
    }
  }

  /** A found address is that of the last output with the ownership looked
      for. */
  lemma {:induction false} LastRelatedLast(outs: seq<Output>, owned: bool)
    requires LastRelated(outs, owned).Text?
    ensures exists i :: 0 <= i < |outs| && outs[i].walletAddress == owned
                        && LastRelated(outs, owned).s == outs[i].relatedAddress
                        && forall j :: i < j < |outs| ==> outs[j].walletAddress != owned
    decreases |outs|
  {
    var n := |outs| - 1;
    if outs[n].walletAddress != owned {
      var p := outs[..n];
      LastRelatedLast(p, owned);
      var i :| 0 <= i < |p| && p[i].walletAddress == owned
               && LastRelated(p, owned).s == p[i].relatedAddress
               && forall j :: i < j < |p| ==> p[j].walletAddress != owned;
      assert outs[i] == p[i];
      forall j | i < j < |outs| ensures outs[j].walletAddress != owned {
        if j < n {
          assert outs[j] == p[j];
        }
      }
    }
  }

  /** One more output replaces the address when it has the ownership looked
      for, and leaves it otherwise. */
  lemma LastRelatedSnoc(outs: seq<Output>, o: Output, owned: bool)
    ensures LastRelated(outs + [o], owned)
         == if o.walletAddress == owned then Text(o.relatedAddress) else LastRelated(outs, owned)
  {
    assert (outs + [o])[..|outs|] == outs;
  }

  /** The outputs loop of `db_update`: the local address is that of the last
      wallet-owned output, the remote one that of the last other output. */
  method OutputAddresses(outs: seq<Output>) returns (address: Cell, remoteAddress: Cell)
    ensures address == LastRelated(outs, true)
    ensures remoteAddress == LastRelated(outs, false)
  {
    address, remoteAddress := Null, Null;
    for i := 0 to |outs|
      invariant address == LastRelated(outs[..i], true)
      invariant remoteAddress == LastRelated(outs[..i], false)
    {
      assert outs[..i + 1] == outs[..i] + [outs[i]];
      LastRelatedSnoc(outs[..i], outs[i], true);
      LastRelatedSnoc(outs[..i], outs[i], false);
      if !outs[i].walletAddress {
        remoteAddress := Text(outs[i].relatedAddress);
      }
      if outs[i].walletAddress {
        address := Text(outs[i].relatedAddress);
      }
    }
    assert outs[..|outs|] == outs;
  }

  /** The conditions that find the ledger rows of a transaction id. */
  function RegisteredConds(id: TxId): seq<Cond>
  {
    [Cond(Txid, id)]
  }

  /** The conditions that find the receivables bound to an address. */
  function ReceivableConds(address: Cell): seq<Cond>
  {
    [Cond(Type, ReceivableType), Cond(Address, SqlText(address))]
  }

  /** The entry `db_update` builds for a transaction; its blockheight is the
      height the scan started from, not the block the transaction is in. */
  function DepositEntry(id: TxId, t: Option<Transaction>, start: int): Row
  {
    var outs := OutputsOf(t);
    Row(Text(DepositType), LastRelated(outs, true), LastRelated(outs, false), Text(id),
        NetOrZero(t), Text(NoExpiry), start, Null)
  }

  /** What the scan does with one confirmed id: skip it, end the whole run,
      or accept the entry it built. */
  datatype Verdict = Skip | Abort | Accept(entry: Row)

  function Examine(table: seq<Row>, d: Daemon, start: int, id: TxId, processAll: bool): (v: Verdict)
    ensures NetOrZero(Detail(d, id)) <= 0 ==> v == Skip
    ensures v == Abort <==>
      !processAll && NetOrZero(Detail(d, id)) > 0 && Filter(table, RegisteredConds(id), And) != []
    ensures v.Accept? ==>
      && v.entry.kind == Text(DepositType)
      && v.entry.txid == Text(id)
      && v.entry.hastings == NetOrZero(Detail(d, id))
      && v.entry.hastings > 0
      && v.entry.blockHeight == start
      && v.entry.expire == Text(NoExpiry)
      && v.entry.address == LastRelated(OutputsOf(Detail(d, id)), true)
      && v.entry.remoteAddress == LastRelated(OutputsOf(Detail(d, id)), false)
      && v.entry.msg == Null
  {
    var t := Detail(d, id);
    if NetOrZero(t) <= 0 then Skip
    else if |Filter(table, RegisteredConds(id), And)| > 0 && !processAll then Abort
    else
      var entry := DepositEntry(id, t, start);
      if |Filter(table, ReceivableConds(entry.address), And)| == 1 then Accept(entry) else Skip
  }

  /** A transaction is accepted exactly when it pays the wallet, it is new
      to the table or every block is processed, and exactly one receivable
      has the address of its last wallet-owned output. */
  lemma ExamineAccepts(table: seq<Row>, d: Daemon, start: int, id: TxId, processAll: bool)
    ensures Examine(table, d, start, id, processAll).Accept? <==>
      && NetOrZero(Detail(d, id)) > 0
      && (processAll || Filter(table, RegisteredConds(id), And) == [])
      && UniqueMatch(table, ReceivableConds(LastRelated(OutputsOf(Detail(d, id)), true)), And)
  {
    FilterSingleton(table, ReceivableConds(LastRelated(OutputsOf(Detail(d, id)), true)), And);
  }

  /** The verdicts on a block's ids, in order. */
  function Verdicts(table: seq<Row>, d: Daemon, start: int, ids: seq<TxId>, processAll: bool): (vs: seq<Verdict>)
    ensures |vs| == |ids|
    ensures forall k :: 0 <= k < |ids| ==> vs[k] == Examine(table, d, start, ids[k], processAll)
  {
    if ids == [] then []
    else [Examine(table, d, start, ids[0], processAll)] + Verdicts(table, d, start, ids[1..], processAll)
  }

  /** The verdicts of every block of a run, which starts at the consensus
      height. */
  function BlockVerdicts(table: seq<Row>, d: Daemon, processAll: bool): int -> seq<Verdict>
  {
    h => Verdicts(table, d, d.height, BlockIds(d, h), processAll)
  }

  /** Where the walk over one block's ids ends: it either goes on to the
      next block or ends the run, with the entries found so far. */
  datatype Step = Continue(found: seq<Row>) | Stop(found: seq<Row>)

  /** The `foreach` over one block's ids, given their verdicts: skipped ids
      add nothing, accepted ones add their entry, and the first `Abort` ends
      the run. Entries are only ever appended, at most one per id. */
  function Walk(vs: seq<Verdict>, acc: seq<Row>): (r: Step)
    ensures acc <= r.found && |r.found| <= |acc| + |vs|
    decreases |vs|
  {
    if vs == [] then Continue(acc)
    else
      match vs[0]
      case Skip => Walk(vs[1..], acc)
      case Abort => Stop(acc)
      case Accept(e) => Walk(vs[1..], acc + [e])
  }

  /** One step of the walk. */
  lemma WalkCons(v: Verdict, rest: seq<Verdict>, acc: seq<Row>)
    ensures Walk([v] + rest, acc) == match v
                                     case Skip => Walk(rest, acc)
                                     case Abort => Stop(acc)
                                     case Accept(e) => Walk(rest, acc + [e])
  {
    assert ([v] + rest)[1..] == rest;
  }

  /** The `for` loop from height h down to the floor, given the verdicts of
      each block. What was collected before is never dropped. */
  function ScanBlocks(blocks: int -> seq<Verdict>, h: int, acc: seq<Row>): (r: seq<Row>)
    ensures acc <= r
    decreases h - ScanFloor + 1
  {
    if h < ScanFloor then acc
    else
      match Walk(blocks(h), acc)
      case Stop(found) => found
      case Continue(found) => ScanBlocks(blocks, h - 1, found)
  }

  /** What one `db_update` run returns: nothing when the consensus height
      is already below the floor. */
  function Scan(table: seq<Row>, d: Daemon, processAll: bool): (r: seq<Row>)
    ensures d.height < ScanFloor ==> r == []
  {
    ScanBlocks(BlockVerdicts(table, d, processAll), d.height, [])
  }

  /** The entries of the accepting verdicts, in order. */
  function Kept(vs: seq<Verdict>): seq<Row>
    decreases |vs|
  {
    if vs == [] then []
    else (if vs[0].Accept? then [vs[0].entry] else []) + Kept(vs[1..])
  }

  /** Every accepted entry from block h down to the floor, newest block first. */
  function Deposits(blocks: int -> seq<Verdict>, h: int): seq<Row>
    decreases h - ScanFloor + 1
  {
    if h < ScanFloor then []
    else Kept(blocks(h)) + Deposits(blocks, h - 1)
  }

  /** No verdict of any block ends the run. */
  ghost predicate NoAbort(blocks: int -> seq<Verdict>)
  {
    forall g, k :: 0 <= k < |blocks(g)| ==> blocks(g)[k] != Abort
  }

  /** Block by block, `blocks` has the verdicts of `all` except where it ends
      the run. */
  ghost predicate Agrees(blocks: int -> seq<Verdict>, all: int -> seq<Verdict>)
  {
    forall g :: |blocks(g)| == |all(g)|
                && forall k :: 0 <= k < |blocks(g)| && blocks(g)[k] != Abort ==> blocks(g)[k] == all(g)[k]
  }

  /** Skipping and accepting do not depend on the mode; only ending the run
      does, and processing every block never ends it. */
  lemma ExamineModes(table: seq<Row>, d: Daemon)
    ensures NoAbort(BlockVerdicts(table, d, true))
    ensures Agrees(BlockVerdicts(table, d, false), BlockVerdicts(table, d, true))
  {
    var all := BlockVerdicts(table, d, true);
    var dflt := BlockVerdicts(table, d, false);
    forall g, k | 0 <= k < |all(g)| ensures all(g)[k] != Abort {
      assert all(g) == Verdicts(table, d, d.height, BlockIds(d, g), true);
    }
    forall g ensures |dflt(g)| == |all(g)|
                     && forall k :: 0 <= k < |dflt(g)| && dflt(g)[k] != Abort ==> dflt(g)[k] == all(g)[k]
    {
      assert all(g) == Verdicts(table, d, d.height, BlockIds(d, g), true);
      assert dflt(g) == Verdicts(table, d, d.height, BlockIds(d, g), false);
    }
  }

  /** A walk that meets no `Abort` goes on to the next block with every
      accepted entry. */
  lemma {:induction false} WalkNoAbort(vs: seq<Verdict>, acc: seq<Row>)
    requires forall k :: 0 <= k < |vs| ==> vs[k] != Abort
    ensures Walk(vs, acc) == Continue(acc + Kept(vs))
    decreases |vs|
  {
    if vs != [] {
      var e := if vs[0].Accept? then [vs[0].entry] else [];
      assert Walk(vs, acc) == Walk(vs[1..], acc + e) by {
        if vs[0].Skip? {
          assert acc + e == acc;
        }
      }
      WalkNoAbort(vs[1..], acc + e);
      assert acc + e + Kept(vs[1..]) == acc + (e + Kept(vs[1..]));
    }
  }

  /** A walk whose verdicts agree with `all` wherever they do not end the run
      keeps what it had and collects a prefix of `Kept(all)`; all of it when
      it goes on. */
  lemma {:induction false} WalkPrefix(vs: seq<Verdict>, all: seq<Verdict>, acc: seq<Row>)
    requires |vs| == |all|
    requires forall k :: 0 <= k < |vs| && vs[k] != Abort ==> vs[k] == all[k]
    ensures acc <= Walk(vs, acc).found <= acc + Kept(all)
    ensures Walk(vs, acc).Continue? ==> Walk(vs, acc).found == acc + Kept(all)
    decreases |vs|
  {
    if vs != [] {
      var rest := Kept(all[1..]);
      match vs[0]
      case Skip =>
        WalkPrefix(vs[1..], all[1..], acc);
      case Abort =>
        assert acc <= acc + Kept(all);
      case Accept(e) =>
        WalkPrefix(vs[1..], all[1..], acc + [e]);
        assert acc + [e] + rest == acc + ([e] + rest);
    }
  }

  /** A walk ends the run at the first `Abort`, with exactly the entries
      accepted before it. */
  lemma {:induction false} WalkStopsAt(pre: seq<Verdict>, post: seq<Verdict>, acc: seq<Row>)
    requires forall k :: 0 <= k < |pre| ==> pre[k] != Abort
    ensures Walk(pre + [Abort] + post, acc) == Stop(acc + Kept(pre))
    decreases |pre|
  {
    if pre == [] {
      assert pre + [Abort] + post == [Abort] + post;
    } else {
      var vs := pre + [Abort] + post;
      var e := if pre[0].Accept? then [pre[0].entry] else [];
      assert vs[1..] == pre[1..] + [Abort] + post;
      assert vs[0] == pre[0];
      assert Walk(vs, acc) == Walk(vs[1..], acc + e) by {
        if pre[0].Skip? {
          assert acc + e == acc;
        }
      }
      WalkStopsAt(pre[1..], post, acc + e);
      assert acc + e + Kept(pre[1..]) == acc + (e + Kept(pre[1..]));
    }
  }

  /** The verdicts of the ids before and after one id. */
  lemma VerdictsSplit(table: seq<Row>, d: Daemon, start: int, pre: seq<TxId>, id: TxId, post: seq<TxId>, processAll: bool)
    ensures Verdicts(table, d, start, pre + [id] + post, processAll)
         == Verdicts(table, d, start, pre, processAll) + [Examine(table, d, start, id, processAll)]
            + Verdicts(table, d, start, post, processAll)
  {
    var ids := pre + [id] + post;
    var vs := Verdicts(table, d, start, ids, processAll);
    var split := Verdicts(table, d, start, pre, processAll) + [Examine(table, d, start, id, processAll)]
                 + Verdicts(table, d, start, post, processAll);
    forall k | 0 <= k < |vs| ensures vs[k] == split[k] {
      if k < |pre| {
        assert ids[k] == pre[k];
      } else if k == |pre| {
        assert ids[k] == id;
      } else {
        assert ids[k] == post[k - |pre| - 1];
      }
    }
  }

  /** Without `$processallblocks`, the first transaction of a block with a
      positive net that already has a ledger row ends the run with exactly
      the entries accepted before it. */
  lemma ScanStopsAtRegistered(table: seq<Row>, d: Daemon, start: int, pre: seq<TxId>, id: TxId, post: seq<TxId>, acc: seq<Row>)
    requires forall k :: 0 <= k < |pre| ==>
      NetOrZero(Detail(d, pre[k])) <= 0 || Filter(table, RegisteredConds(pre[k]), And) == []
    requires NetOrZero(Detail(d, id)) > 0 && Filter(table, RegisteredConds(id), And) != []
    ensures Walk(Verdicts(table, d, start, pre + [id] + post, false), acc)
         == Stop(acc + Kept(Verdicts(table, d, start, pre, false)))
  {
    var vpre := Verdicts(table, d, start, pre, false);
    VerdictsSplit(table, d, start, pre, id, post, false);
    assert Examine(table, d, start, id, false) == Abort;
    forall k | 0 <= k < |vpre| ensures vpre[k] != Abort {
      assert vpre[k] == Examine(table, d, start, pre[k], false);
    }
    WalkStopsAt(vpre, Verdicts(table, d, start, post, false), acc);
  }

  /** The same at the level of a run: when the block at the consensus height
      holds, before any other stopping id, a paying transaction that already
      has a ledger row, a default run returns only the entries accepted in
      that block before it. */
  lemma ScanStopsInFirstBlock(table: seq<Row>, d: Daemon, pre: seq<TxId>, id: TxId, post: seq<TxId>)
    requires d.height >= ScanFloor
    requires BlockIds(d, d.height) == pre + [id] + post
    requires forall k :: 0 <= k < |pre| ==>
      NetOrZero(Detail(d, pre[k])) <= 0 || Filter(table, RegisteredConds(pre[k]), And) == []
    requires NetOrZero(Detail(d, id)) > 0 && Filter(table, RegisteredConds(id), And) != []
    ensures Scan(table, d, false) == Kept(Verdicts(table, d, d.height, pre, false))
  {
    var blocks := BlockVerdicts(table, d, false);
    var kept := Kept(Verdicts(table, d, d.height, pre, false));
    ScanStopsAtRegistered(table, d, d.height, pre, id, post, []);
    assert [] + kept == kept;
    ScanBlocksStopsAtTop(blocks, d.height, kept);
  }

  /** A loop whose first block stops returns what that block found. */
  lemma ScanBlocksStopsAtTop(blocks: int -> seq<Verdict>, h: int, found: seq<Row>)
    requires h >= ScanFloor && Walk(blocks(h), []) == Stop(found)
    ensures ScanBlocks(blocks, h, []) == found
  {
  }

  lemma {:induction false} ScanBlocksExhaustive(blocks: int -> seq<Verdict>, h: int, acc: seq<Row>)
    requires NoAbort(blocks)
    ensures ScanBlocks(blocks, h, acc) == acc + Deposits(blocks, h)
    decreases h - ScanFloor + 1
  {
    if h >= ScanFloor {
      var vs := blocks(h);
      WalkNoAbort(vs, acc);
      ScanBlocksExhaustive(blocks, h - 1, acc + Kept(vs));
      assert acc + Kept(vs) + Deposits(blocks, h - 1) == acc + (Kept(vs) + Deposits(blocks, h - 1));
    }
  }

  lemma {:induction false} ScanBlocksEarlyStop(blocks: int -> seq<Verdict>, all: int -> seq<Verdict>, h: int, acc: seq<Row>)
    requires Agrees(blocks, all)
    ensures acc <= ScanBlocks(blocks, h, acc) <= acc + Deposits(all, h)
    decreases h - ScanFloor + 1
  {
    if h >= ScanFloor {
      var step := Walk(blocks(h), acc);
      var kept := Kept(all(h));
      var older := Deposits(all, h - 1);
      WalkPrefix(blocks(h), all(h), acc);
      assert acc + kept + older == acc + (kept + older);
      if step.Continue? {
        ScanBlocksEarlyStop(blocks, all, h - 1, step.found);
      }
    }
  }

  /** An exhaustive run returns every accepted deposit of the scanned range. */
  lemma ScanExhaustive(table: seq<Row>, d: Daemon)
    ensures Scan(table, d, true) == Deposits(BlockVerdicts(table, d, true), d.height)
  {
    ExamineModes(table, d);
    ScanBlocksExhaustive(BlockVerdicts(table, d, true), d.height, []);
  }

  /** Ending early only truncates: a default run returns a prefix of what an
      exhaustive run returns on the same table and answers. */
  lemma ScanPrefix(table: seq<Row>, d: Daemon)
    ensures Scan(table, d, false) <= Scan(table, d, true)
  {
    ExamineModes(table, d);
    ScanBlocksEarlyStop(BlockVerdicts(table, d, false), BlockVerdicts(table, d, true), d.height, []);
    ScanExhaustive(table, d);
  }

  lemma {:induction false} ScanBlocksSameVerdicts(b1: int -> seq<Verdict>, b2: int -> seq<Verdict>, h: int, acc: seq<Row>)
    requires forall g :: b1(g) == b2(g)
    ensures ScanBlocks(b1, h, acc) == ScanBlocks(b2, h, acc)
    decreases h - ScanFloor + 1
  {
    if h >= ScanFloor {
      assert b1(h) == b2(h);
      if Walk(b1(h), acc).Continue? {
        ScanBlocksSameVerdicts(b1, b2, h - 1, Walk(b1(h), acc).found);
      }
    }
  }

  /** Verdicts read the daemon only through the transaction details. */
  lemma VerdictsReadDetails(table: seq<Row>, d1: Daemon, d2: Daemon, start: int, ids: seq<TxId>, processAll: bool)
    requires d1.details == d2.details
    ensures Verdicts(table, d1, start, ids, processAll) == Verdicts(table, d2, start, ids, processAll)
  {
    forall k | 0 <= k < |ids|
      ensures Examine(table, d1, start, ids[k], processAll) == Examine(table, d2, start, ids[k], processAll)
    {
      assert Detail(d1, ids[k]) == Detail(d2, ids[k]);
    }
  }

  /** A run looks only at the consensus height, the confirmed ids of each
      block and the transaction details: the unconfirmed lists, the lock and
      everything else the daemon answers leave its result unchanged. */
  lemma ScanReadsConfirmedOnly(table: seq<Row>, d1: Daemon, d2: Daemon, processAll: bool)
    requires d1.height == d2.height && d1.details == d2.details
    requires forall g :: BlockIds(d1, g) == BlockIds(d2, g)
    ensures Scan(table, d1, processAll) == Scan(table, d2, processAll)
  {
    var b1, b2 := BlockVerdicts(table, d1, processAll), BlockVerdicts(table, d2, processAll);
    forall g ensures b1(g) == b2(g) {
      assert b1(g) == Verdicts(table, d1, d1.height, BlockIds(d1, g), processAll);
      assert b2(g) == Verdicts(table, d2, d2.height, BlockIds(d2, g), processAll);
      VerdictsReadDetails(table, d1, d2, d1.height, BlockIds(d1, g), processAll);
    }
    ScanBlocksSameVerdicts(b1, b2, d1.height, []);
  }

  /** The transaction id appears among the confirmed ids of a block the run
      covers. */
  ghost predicate Observed(d: Daemon, id: TxId)
  {
    exists h :: ScanFloor <= h <= d.height && id in BlockIds(d, h)
  }

  /** A returned entry is the deposit the scan builds for an observed
      transaction that it accepts. */
  ghost predicate IsDeposit(table: seq<Row>, d: Daemon, e: Row)
  {
    e.txid.Text? && Observed(d, e.txid.s) && Examine(table, d, d.height, e.txid.s, true) == Accept(e)
  }

  lemma {:induction false} KeptSound(vs: seq<Verdict>)
    ensures forall e :: e in Kept(vs) ==> exists k :: 0 <= k < |vs| && vs[k] == Accept(e)
    decreases |vs|
  {
    if vs != [] {
      KeptSound(vs[1..]);
      forall e | e in Kept(vs[1..]) ensures exists k :: 0 <= k < |vs| && vs[k] == Accept(e) {
        var k :| 0 <= k < |vs[1..]| && vs[1..][k] == Accept(e);
        assert vs[k + 1] == Accept(e);
      }
    }
  }

  /** Every collected entry comes from an accepting verdict of a block
      between the floor and h. */
  lemma {:induction false} DepositsFrom(blocks: int -> seq<Verdict>, h: int)
    ensures forall e :: e in Deposits(blocks, h) ==>
      exists g, k :: ScanFloor <= g <= h && 0 <= k < |blocks(g)| && blocks(g)[k] == Accept(e)
    decreases h - ScanFloor + 1
  {
    if h >= ScanFloor {
      KeptSound(blocks(h));
      DepositsFrom(blocks, h - 1);
      forall e | e in Kept(blocks(h))
        ensures exists g, k :: ScanFloor <= g <= h && 0 <= k < |blocks(g)| && blocks(g)[k] == Accept(e)
      {
        var k :| 0 <= k < |blocks(h)| && blocks(h)[k] == Accept(e);
      }
    }
  }

  lemma DepositsSound(table: seq<Row>, d: Daemon)
    ensures forall e :: e in Deposits(BlockVerdicts(table, d, true), d.height) ==> IsDeposit(table, d, e)
  {
    var blocks := BlockVerdicts(table, d, true);
    DepositsFrom(blocks, d.height);
    forall e | e in Deposits(blocks, d.height) ensures IsDeposit(table, d, e) {
      var g, k :| ScanFloor <= g <= d.height && 0 <= k < |blocks(g)| && blocks(g)[k] == Accept(e);
      var ids := BlockIds(d, g);
      assert blocks(g) == Verdicts(table, d, d.height, ids, true);
      assert Examine(table, d, d.height, ids[k], true) == Accept(e);
      assert e.txid == Text(ids[k]);
      assert ids[k] in BlockIds(d, g);
    }
  }

  /** Every entry a run returns, in either mode, is a `deposit` of a confirmed
      transaction in a scanned block with a positive net, tagged with the
      starting height, whose wallet-owned address is bound to exactly one
      receivable. */
  lemma ScanSound(table: seq<Row>, d: Daemon, processAll: bool)
    ensures forall e :: e in Scan(table, d, processAll) ==>
      && IsDeposit(table, d, e)
      && e.kind == Text(DepositType)
      && e.hastings > 0
      && e.hastings == NetOrZero(Detail(d, e.txid.s))
      && e.blockHeight == d.height
      && UniqueMatch(table, ReceivableConds(e.address), And)
  {
    ScanPrefix(table, d);
    ScanExhaustive(table, d);
    DepositsSound(table, d);
    forall e | e in Scan(table, d, processAll)
      ensures IsDeposit(table, d, e) && UniqueMatch(table, ReceivableConds(e.address), And)
    {
      if !processAll {
        var k :| 0 <= k < |Scan(table, d, false)| && Scan(table, d, false)[k] == e;
        assert Scan(table, d, true)[k] == e;
      }
      assert IsDeposit(table, d, e);
      ExamineAccepts(table, d, d.height, e.txid.s, true);
    }
  }
}
