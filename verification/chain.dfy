/** What the client reads from the Sia wallet daemon: transactions with their
    inputs and outputs, the per-block transaction lists, and the net amount a
    transaction moves into the wallet. */
module Chain {
  import opened Wrappers

  type TxId = string

  /** An input of a wallet transaction: whether its address belongs to the
      local wallet, and its value in hastings. */
  datatype Input = Input(walletAddress: bool, value: int)

  /** An output of a wallet transaction; `relatedAddress` is the address it pays. */
  datatype Output = Output(walletAddress: bool, value: int, relatedAddress: string)

  /** A transaction as the daemon describes it. A field is `None` when the JSON
      answer does not hold an array there. */
  datatype Transaction = Transaction(inputs: Option<seq<Input>>, outputs: Option<seq<Output>>)

  /** Sum of the values of the wallet-owned inputs. */
  function OwnedInputTotal(ins: seq<Input>): int
  {
    if ins == [] then 0
    else
      var last := ins[|ins| - 1];
      OwnedInputTotal(ins[..|ins| - 1]) + (if last.walletAddress then last.value else 0)
  }

  /** Sum of the values of the wallet-owned outputs. */
  function OwnedOutputTotal(outs: seq<Output>): int
  {
    if outs == [] then 0
    else
      var last := outs[|outs| - 1];
      OwnedOutputTotal(outs[..|outs| - 1]) + (if last.walletAddress then last.value else 0)
  }

  /** The signed amount a transaction moves into the wallet: what it pays to
      wallet addresses minus what it spends from them. */
  function Net(t: Transaction): int
  {
    OwnedOutputTotal(Listed(t.outputs)) - OwnedInputTotal(Listed(t.inputs))
  }

  /** The net amount of a looked-up transaction; a missing one counts as 0. */
  function NetOrZero(t: Option<Transaction>): int
  {
    match t
    case None => 0
    case Some(tx) => Net(tx)
  }

  lemma {:induction false} OwnedInputTotalAppend(a: seq<Input>, b: seq<Input>)
    ensures OwnedInputTotal(a + b) == OwnedInputTotal(a) + OwnedInputTotal(b)
    decreases |b|
  {
    if b == [] {
      assert a + b == a;
    } else {
      var b' := b[..|b| - 1];
      assert (a + b)[..|a + b| - 1] == a + b';
      OwnedInputTotalAppend(a, b');
    }
  }

  lemma {:induction false} OwnedOutputTotalAppend(a: seq<Output>, b: seq<Output>)
    ensures OwnedOutputTotal(a + b) == OwnedOutputTotal(a) + OwnedOutputTotal(b)
    decreases |b|
  {
    if b == [] {
      assert a + b == a;
    } else {
      var b' := b[..|b| - 1];
      assert (a + b)[..|a + b| - 1] == a + b';
      OwnedOutputTotalAppend(a, b');
    }
  }

  /** An input that is not the wallet's changes nothing, wherever it stands. */
  lemma ForeignInputIgnored(a: seq<Input>, x: Input, b: seq<Input>)
    requires !x.walletAddress
    ensures OwnedInputTotal(a + [x] + b) == OwnedInputTotal(a + b)
  {
    OwnedInputTotalAppend(a + [x], b);
    OwnedInputTotalAppend(a, [x]);
    OwnedInputTotalAppend(a, b);
  }

  /** An output that is not the wallet's changes nothing, wherever it stands. */
  lemma ForeignOutputIgnored(a: seq<Output>, x: Output, b: seq<Output>)
    requires !x.walletAddress
    ensures OwnedOutputTotal(a + [x] + b) == OwnedOutputTotal(a + b)
  {
    OwnedOutputTotalAppend(a + [x], b);
    OwnedOutputTotalAppend(a, [x]);
    OwnedOutputTotalAppend(a, b);
  }

  /** A transaction with no wallet-owned input or output nets zero. */
  lemma {:induction false} NoWalletEntriesNetZero(t: Transaction)
    requires forall i :: 0 <= i < |Listed(t.inputs)| ==> !Listed(t.inputs)[i].walletAddress
    requires forall j :: 0 <= j < |Listed(t.outputs)| ==> !Listed(t.outputs)[j].walletAddress
    ensures Net(t) == 0
  {
    ForeignInputsTotalZero(Listed(t.inputs));
    ForeignOutputsTotalZero(Listed(t.outputs));
  }

  lemma {:induction false} ForeignInputsTotalZero(ins: seq<Input>)
    requires forall i :: 0 <= i < |ins| ==> !ins[i].walletAddress
    ensures OwnedInputTotal(ins) == 0
    decreases |ins|
  {
    if ins != [] {
      ForeignInputsTotalZero(ins[..|ins| - 1]);
    }
  }

  lemma {:induction false} ForeignOutputsTotalZero(outs: seq<Output>)
    requires forall j :: 0 <= j < |outs| ==> !outs[j].walletAddress
    ensures OwnedOutputTotal(outs) == 0
    decreases |outs|
  {
    if outs != [] {
      ForeignOutputsTotalZero(outs[..|outs| - 1]);
    }
  }

  /** `wallet_transaction_hastings_net` of class.sia.php: a missing transaction
      nets 0, a field that is not an array is skipped, every wallet-owned input
      is subtracted and every wallet-owned output added. */
  method HastingsNet(t: Option<Transaction>) returns (sum: int)
    ensures sum == NetOrZero(t)
    ensures t.Some? && Listed(t.value.inputs) == [] && Listed(t.value.outputs) == [] ==> sum == 0
  {
    sum := 0;
    if t.None? {
      return;
    }
    var tx := t.value;
    if tx.inputs.Some? {
      var ins := tx.inputs.value;
      for i := 0 to |ins|
        invariant sum == -OwnedInputTotal(ins[..i])
      {
        assert ins[..i + 1][..i] == ins[..i];
        if ins[i].walletAddress {
          sum := sum - ins[i].value;
        }
      }
      assert ins[..|ins|] == ins;
    }
    var spent := sum;
    if tx.outputs.Some? {
      var outs := tx.outputs.value;
      for j := 0 to |outs|
        invariant sum == spent + OwnedOutputTotal(outs[..j])
      {
        assert outs[..j + 1][..j] == outs[..j];
        if outs[j].walletAddress {
          sum := sum + outs[j].value;
        }
      }
      assert outs[..|outs|] == outs;
    }
  }

  /** One entry of a transaction list in a `/wallet/transactions` answer. */
  datatype WalletTxn = WalletTxn(transactionId: TxId)

  /** The answer to `/wallet/transactions?startheight=..&endheight=..`; a list
      is `None` when the field is missing from the JSON. */
  datatype TxnsResponse = TxnsResponse(
    confirmedTransactions: Option<seq<WalletTxn>>,
    unconfirmedTransactions: Option<seq<WalletTxn>>)

  /** The ids of a transaction list, in list order. */
  function Ids(l: seq<WalletTxn>): (r: seq<TxId>)
    ensures |r| == |l|
    ensures forall i :: 0 <= i < |l| ==> r[i] == l[i].transactionId
  {
    if l == [] then [] else Ids(l[..|l| - 1]) + [l[|l| - 1].transactionId]
  }

  function ConfirmedIds(resp: TxnsResponse): seq<TxId>
  {
    Ids(Listed(resp.confirmedTransactions))
  }

  function UnconfirmedIds(resp: TxnsResponse): seq<TxId>
  {
    Ids(Listed(resp.unconfirmedTransactions))
  }

  /** `wallet_transactions` of class.sia.php: the confirmed and the
      unconfirmed ids, each in answer order, empty when the field is absent. */
  method WalletTransactions(resp: TxnsResponse) returns (confirmed: seq<TxId>, unconfirmed: seq<TxId>)
    ensures confirmed == ConfirmedIds(resp) && unconfirmed == UnconfirmedIds(resp)
    ensures resp.confirmedTransactions.None? ==> confirmed == []
    ensures resp.unconfirmedTransactions.None? ==> unconfirmed == []
  {
    confirmed := [];
    unconfirmed := [];
    if resp.confirmedTransactions.Some? && resp.confirmedTransactions.value != [] {
      var l := resp.confirmedTransactions.value;
      for i := 0 to |l|
        invariant confirmed == Ids(l[..i])
      {
        assert l[..i + 1][..i] == l[..i];
        confirmed := confirmed + [l[i].transactionId];
      }
      assert l[..|l|] == l;
    }
    if resp.unconfirmedTransactions.Some? && resp.unconfirmedTransactions.value != [] {
      var l := resp.unconfirmedTransactions.value;
      for i := 0 to |l|
        invariant unconfirmed == Ids(l[..i])
      {
        assert l[..i + 1][..i] == l[..i];
        unconfirmed := unconfirmed + [l[i].transactionId];
      }
      assert l[..|l|] == l;
    }
  }

  /** A payment the wallet daemon is asked to make with `/wallet/siacoins`. */
  datatype Transfer = Transfer(hastings: int, destination: string)

  /** The wallet daemon's answers, fixed for the span of one call: consensus
      height, the transaction list of each block, the details of each
      transaction, whether the wallet is locked, and the ids it answers to a
      send. */
  datatype Daemon = Daemon(
    height: int,
    blocks: map<int, TxnsResponse>,
    details: map<TxId, Transaction>,
    locked: bool,
    sendReply: seq<TxId>)

  /** The answer for the one-block range [h, h]. A height the map lacks stands
      for an answer that was not JSON, which `rpc` turns into an object with
      no transaction lists. */
  function BlockResponse(d: Daemon, h: int): TxnsResponse
  {
    if h in d.blocks then d.blocks[h] else TxnsResponse(None, None)
  }

  /** The confirmed ids of block h, in answer order. */
  function BlockIds(d: Daemon, h: int): seq<TxId>
  {
    ConfirmedIds(BlockResponse(d, h))
  }

  /** `wallet_transaction`: the details of a transaction, or null. */
  function Detail(d: Daemon, id: TxId): Option<Transaction>
  {
    if id in d.details then Some(d.details[id]) else None
  }

  /** The outputs of a looked-up transaction; none when it is missing or its
      `outputs` is not an array. */
  function OutputsOf(t: Option<Transaction>): seq<Output>
  {
    match t
    case None => []
    case Some(tx) => Listed(tx.outputs)
  }
}
