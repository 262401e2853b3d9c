/** The older, database-less client of sia.php: the net of a transaction,
    the positive deposits to an address, its send guard and the nickname
    search. Its `get_transactions` and `is_valid_address` are the ones of
    class.sia.php (`Chain.WalletTransactions`, `Helpers.IsValidAddress`). */
module Legacy {
  import opened Wrappers
  import opened Chain
  import opened Helpers

  /** `get_transaction_hastings_net` of sia.php: the same fold as the newer
      one, without its guards; a `foreach` over a field that is not an array
      only warns and runs no iteration. */
  method TransactionHastingsNet(t: Transaction) returns (sum: int)
    ensures sum == Net(t)
    ensures ((forall i :: 0 <= i < |Listed(t.inputs)| ==> !Listed(t.inputs)[i].walletAddress)
             && (forall j :: 0 <= j < |Listed(t.outputs)| ==> !Listed(t.outputs)[j].walletAddress))
            ==> sum == 0
  {
    sum := 0;
    var ins := Listed(t.inputs);
    for i := 0 to |ins|
      invariant sum == -OwnedInputTotal(ins[..i])
    {
      assert ins[..i + 1][..i] == ins[..i];
      if ins[i].walletAddress {
        sum := sum - ins[i].value;
      }
    }
    assert ins[..|ins|] == ins;
    var spent := sum;
    var outs := Listed(t.outputs);
    for j := 0 to |outs|
      invariant sum == spent + OwnedOutputTotal(outs[..j])
    {
      assert outs[..j + 1][..j] == outs[..j];
      if outs[j].walletAddress {
        sum := sum + outs[j].value;
      }
    }
    assert outs[..|outs|] == outs;
    if (forall i :: 0 <= i < |ins| ==> !ins[i].walletAddress) && (forall j :: 0 <= j < |outs| ==> !outs[j].walletAddress) {
      NoWalletEntriesNetZero(t);
    }
  }

  /** PHP's `empty` on an id string: the empty string and "0". */
  predicate EmptyId(id: TxId)
  {
    id == "" || id == "0"
  }

  /** The net of a listed id as `get_addr_deposits` sees it: a transaction
      the daemon does not know nets 0. */
  function IdNet(d: Daemon, id: TxId): int
  {
    NetOrZero(Detail(d, id))
  }

  /** Whether `get_addr_deposits` keeps an id. */
  predicate IsDepositId(d: Daemon, id: TxId)
  {
    !EmptyId(id) && IdNet(d, id) > 0
  }

  /** The deposits `get_addr_deposits` lists for these ids, in id order. */
  function PositiveNets(d: Daemon, ids: seq<TxId>): (r: seq<int>)
    ensures |r| <= |ids|
    ensures forall k :: 0 <= k < |r| ==> r[k] > 0
  {
    if ids == [] then []
    else
      var id := ids[|ids| - 1];
      PositiveNets(d, ids[..|ids| - 1]) + (if IsDepositId(d, id) then [IdNet(d, id)] else [])
  }

  /** The deposits of consecutive id lists are listed one after the other. */
  lemma {:induction false} PositiveNetsAppend(d: Daemon, a: seq<TxId>, b: seq<TxId>)
    ensures PositiveNets(d, a + b) == PositiveNets(d, a) + PositiveNets(d, b)
    decreases |b|
  {
    if b == [] {
      assert a + b == a;
    } else {
      var b' := b[..|b| - 1];
      assert (a + b)[..|a + b| - 1] == a + b';
      PositiveNetsAppend(d, a, b');
    }
  }

  /** One entry per kept id: a kept id contributes its net, any other id
      nothing, wherever it stands. */
  lemma PositiveNetsOne(d: Daemon, a: seq<TxId>, id: TxId, b: seq<TxId>)
    ensures PositiveNets(d, a + [id] + b)
         == PositiveNets(d, a) + (if IsDepositId(d, id) then [IdNet(d, id)] else []) + PositiveNets(d, b)
  {
    PositiveNetsAppend(d, a + [id], b);
    PositiveNetsAppend(d, a, [id]);
    assert [id][..0] == [];
  }

  /** Every listed deposit is the net of some kept id. */
  lemma {:induction false} PositiveNetsSound(d: Daemon, ids: seq<TxId>)
    ensures forall x :: x in PositiveNets(d, ids) ==> exists k :: 0 <= k < |ids| && IsDepositId(d, ids[k]) && x == IdNet(d, ids[k])
    decreases |ids|
  {
    if ids != [] {
      var p := ids[..|ids| - 1];
      PositiveNetsSound(d, p);
      forall x | x in PositiveNets(d, ids)
        ensures exists k :: 0 <= k < |ids| && IsDepositId(d, ids[k]) && x == IdNet(d, ids[k])
      {
        if x in PositiveNets(d, p) {
          var k :| 0 <= k < |p| && IsDepositId(d, p[k]) && x == IdNet(d, p[k]);
          assert ids[k] == p[k];
        } else {
          assert IsDepositId(d, ids[|ids| - 1]) && x == IdNet(d, ids[|ids| - 1]);
        }
      }
    }
  }

  /** `get_addr_deposits`: an invalid address throws before anything is
      looked up; an answer with neither confirmed nor unconfirmed ids throws
      'No transactions found'; otherwise the positive nets of the non-empty
      confirmed ids, in order. `resp` is the daemon's answer to
      `get_transactions_addr` (sia.php:246-260), read through
      `WalletTransactions`; the `(array)` emptiness test on that answer
      (sia.php:350) holds exactly when both id lists are empty. */
  method GetAddrDeposits(address: string, resp: TxnsResponse, d: Daemon) returns (r: Result<seq<int>, Error>)
    ensures !IsValidAddress(address) ==> r == Failure(InvalidAddress)
    ensures IsValidAddress(address) && ConfirmedIds(resp) == [] && UnconfirmedIds(resp) == [] ==>
              r == Failure(NoTransactions)
    ensures r.Success? <==> IsValidAddress(address) && (ConfirmedIds(resp) != [] || UnconfirmedIds(resp) != [])
    ensures r.Success? ==> r.value == PositiveNets(d, ConfirmedIds(resp))
  {
    if !IsValidAddress(address) {
      return Failure(InvalidAddress);
    }
    var confirmed, unconfirmed := WalletTransactions(resp);
    if confirmed == [] && unconfirmed == [] {
      return Failure(NoTransactions);
    }
    var deposits := [];
    for i := 0 to |confirmed|
      invariant deposits == PositiveNets(d, confirmed[..i])
    {
      assert confirmed[..i + 1][..i] == confirmed[..i];
      var id := confirmed[i];
      if !EmptyId(id) {
        var deposit := 0;
        var t := Detail(d, id);
        if t.Some? {
          deposit := TransactionHastingsNet(t.value);
        }
        if deposit > 0 {
          deposits := deposits + [deposit];
        }
      }
    }
    assert confirmed[..|confirmed|] == confirmed;
    return Success(deposits);
  }

  /** What the legacy `send_sc` asks of the daemon and what it hands back. */
  datatype Sent = Sent(request: Transfer, ids: seq<TxId>)

  /** `send_sc` of sia.php: an invalid address throws before anything is
      sent (the lock is not checked); otherwise the payment is requested and
      every id of the answer comes back. The amount arrives already in
      hastings. */
  function SendSc(hastings: int, address: string, reply: seq<TxId>): (r: Result<Sent, Error>)
    ensures r.Failure? <==> !IsValidAddress(address)
    ensures r.Failure? ==> r.error == InvalidAddress
    ensures r.Success? ==> r.value.request == Transfer(hastings, address) && r.value.ids == reply
  {
    if !IsValidAddress(address) then Failure(InvalidAddress)
    else Success(Sent(Transfer(hastings, address), reply))
  }

  /** A file of the legacy renter list. */
  datatype FileEntry = FileEntry(nickname: string)

  /** `nickname_exists`: whether a listed file has this nickname. */
  function NicknameExists(files: seq<FileEntry>, nickname: string): (r: bool)
    ensures r <==> exists i :: 0 <= i < |files| && files[i].nickname == nickname
  {
    if files == [] then false
    else files[0].nickname == nickname || NicknameExists(files[1..], nickname)
  }
}
