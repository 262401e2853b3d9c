# PHP-Sia payments ledger, modelled in Dafny

PHP-Sia is a PHP client for the Sia wallet daemon. On top of the daemon's
HTTP API, `class.sia.php` keeps a small payments ledger in a MySQL table
`sia`. Each row is one of three kinds:

- a `receivable`: a payment expected at an address;
- a `withdrawal`: a payment the wallet sent;
- a `deposit`: a payment received.

`db_update` reconciles the ledger with the chain. It walks the blocks from
the consensus height down to height 22100 and collects every confirmed
transaction that pays the wallet and whose receiving address is bound to
exactly one receivable. By default the run ends early, returning what it
has collected, at the first paying transaction whose txid already has a row
(class.sia.php:758-759); with `$processallblocks` it never ends early.
`sia.php` is the older client without a database.

This project models that core.

- **The daemon.** Its answers are a value `Chain.Daemon`. That value holds
  the consensus height, each block's transaction list, each transaction's
  details, the lock state and the ids it answers to a send.
- **The table.** The `sia` table is a field of the class `Payments.Sia`,
  which also records the payments the object has asked the daemon to make.
- **The scan.** The scan is specified by functions in `Scanner`, and
  `Payments.Sia.Update` is proved to compute exactly that specification.

Modules:

- `Wrappers`: `Option`, `Result`.
- `Chain`: transactions, their net amount, transaction lists, the daemon.
- `Helpers`: the client's exceptions, address validation, peer address
  splitting, siacoin to hastings conversion, the renter file lookups.
- `Ledger`: rows, conditions, and the rows a `db_select` returns.
- `Scanner`: what one `db_update` run returns, and what that result is.
- `Payments`: the class `Sia` with the ledger operations.
- `Legacy`: the pieces of sia.php. Its `get_transactions` (sia.php:223-237)
  is the same code as `wallet_transactions` and is modelled by
  `Chain.WalletTransactions`.

Behaviours of the code that the model keeps:

- **Missing block answer.** A block whose transaction list cannot be read
  is skipped silently. The `rpc` helper turns a non-JSON answer into the
  object `{Success: '0'}` (class.sia.php:810-813), which has no transaction
  lists, so the scan sees no ids in that block.
- **Ambiguous receivables.** Several receivables on one address are not
  reported. The code adds nothing and goes on (class.sia.php:776-779).
- **No expiry check.** Expiry is not checked when matching receivables
  (class.sia.php:771).
- **Receivable amount.** A receivable is inserted with the amount as
  given: not negated, not checked for being positive.
- **Deposits are not stored.** A scan never writes its deposits: the
  insert is commented out (class.sia.php:774). For the same reason no
  "insert failed" outcome exists inside a scan.
- **Deposit block height.** A deposit's `blockheight` is the height the
  run started from, not the block the transaction is in
  (class.sia.php:749).
- **Failure after a send.** A withdrawal whose insert fails after the send
  throws the same exceptions as `db_insert`. The payment then stays issued
  and no row is written.

## Model

| member | source | states |
|---|---|---|
| Chain.HastingsNet | class.sia.php:427-439 | the loop's sum is the wallet-owned output total minus the wallet-owned input total; a missing transaction, or one with no inputs and outputs, gives 0; a field that is not an array contributes nothing |
| Chain.Net | class.sia.php:427-439 | definition: the wallet-owned output total minus the wallet-owned input total, an absent field counting as empty |
| Chain.ForeignInputIgnored | class.sia.php:431-432 | an input not owned by the wallet changes the input total nowhere in the list |
| Chain.ForeignOutputIgnored | class.sia.php:435-436 | an output not owned by the wallet changes the output total nowhere in the list |
| Chain.NoWalletEntriesNetZero | class.sia.php:427-439 | a transaction with no wallet-owned input or output nets zero |
| Chain.OwnedInputTotalAppend | class.sia.php:431-432 | the wallet-owned input total of a concatenation is the sum of the parts' totals |
| Chain.OwnedOutputTotalAppend | class.sia.php:435-436 | the wallet-owned output total of a concatenation is the sum of the parts' totals |
| Chain.Ids | class.sia.php:272-273 | the projection keeps one id per listed transaction, at the same position |
| Chain.WalletTransactions | class.sia.php:266-280 | The method returns the confirmed ids and the unconfirmed ids of the answer, each list in answer order and empty when its field is absent. |
| Helpers.CtypeAlnum | class.sia.php:376 | `ctype_alnum` holds exactly of a non-empty string of ASCII letters and digits |
| Helpers.IsValidAddress | class.sia.php:374-382 | true exactly when the address has 76 characters, all letters or digits (`is_valid_address`, sia.php lines 327-335, is the same code) |
| Helpers.FirstColon | class.sia.php:171 | `strpos` finds the first colon, and none when there is none |
| Helpers.PeerAddressParts | class.sia.php:170-180 | no colon, or a colon in first position, gives the whole string with port 9981; otherwise a non-empty, colon-free ip and a port that put back together with a colon give the input |
| Helpers.PeerAddressRoundTrip | class.sia.php:170-180 | splitting `ip:port` with a non-empty colon-free ip gives back ip and port |
| Helpers.ScToHastings | class.sia.php:575 | the result is the amount times 10^24, truncated toward zero: its magnitude is the exact product rounded down, and its sign is the amount's |
| Helpers.ScToHastingsExact | class.sia.php:575 | with at most 24 decimals the conversion is exact |
| Helpers.PositiveAmountPositiveHastings | class.sia.php:575 | a positive amount with at most 24 decimals converts to a positive number of hastings |
| Helpers.RenterCheckSiapath | class.sia.php:529-535 | true exactly when some listed file has this siapath |
| Helpers.RenterFile | class.sia.php:552-559 | the first listed file with the siapath; nothing exactly when no file has it |
| Ledger.Filter | class.sia.php:642-654 | the selected rows are table rows that satisfy the WHERE clause, every such row is selected, and no more rows come back than the table holds |
| Ledger.FilterAppend | class.sia.php:652 | selection keeps table order: the rows of a concatenation are selected part by part |
| Ledger.FilterEmpty | class.sia.php:647-654 | a select returns nothing exactly when no row matches |
| Ledger.FilterSingleton | class.sia.php:771-772 | a select returns one row exactly when exactly one row of the table matches |
| Scanner.LastRelated | class.sia.php:763-768 | definition: the related address of the last output with the ownership looked for, null when there is none; its properties are the next three rows |
| Scanner.RegisteredConds | class.sia.php:758 | definition: the single condition `txid = id` |
| Scanner.ReceivableConds | class.sia.php:771 | definition: `type = 'receivable'` and `address = ` the found address, a null address written as the empty string |
| Scanner.DepositEntry | class.sia.php:742-768 | definition: the `deposit` entry with the txid, the net, the zero expiry, the starting height and the last-output addresses |
| Scanner.LastRelatedNone | class.sia.php:763-768 | no address is found exactly when no output has the ownership looked for |
| Scanner.LastRelatedLast | class.sia.php:763-768 | a found address is the related address of an output with that ownership after which no output has it |
| Scanner.LastRelatedSnoc | class.sia.php:764-767 | one more output replaces the address when it has the ownership looked for and leaves it otherwise |
| Scanner.OutputAddresses | class.sia.php:763-768 | the loop leaves the address of the last wallet-owned output and the remote address of the last other output |
| Scanner.Examine | class.sia.php:742-779 | a non-positive net is skipped; the run ends exactly when the mode is the default, the net is positive and the txid already has a row; a taken entry is a `deposit` with that txid, the transaction's net (positive) as its amount, the starting height, the zero expiry, the last-output addresses and no message |
| Scanner.ExamineAccepts | class.sia.php:754-775 | a transaction is taken exactly when its net is positive, its txid is new or every block is processed, and exactly one receivable has the address of its last wallet-owned output |
| Scanner.Verdicts | class.sia.php:741 | the `foreach` visits the confirmed ids in list order: a recursive definition, proved to give one verdict per id, the verdict at each position being that id's |
| Scanner.ExamineModes | class.sia.php:759 | processing every block never ends a run; block by block, the default mode only differs where it ends it |
| Scanner.VerdictsSplit | class.sia.php:741 | the verdicts of a list of ids are those of its parts, in order |
| Scanner.VerdictsReadDetails | class.sia.php:751-754 | verdicts depend on the daemon only through the transaction details |
| Scanner.Walk | class.sia.php:741-780 | the walk over one block only appends to what was collected, at most one entry per id; its cases are `Scanner.WalkCons` |
| Scanner.ScanBlocks | class.sia.php:738-781 | the block loop never drops what was collected before |
| Scanner.Scan | class.sia.php:733-783 | a run that starts below height 22100 returns nothing; the rows below state what it returns otherwise |
| Scanner.WalkCons | class.sia.php:754-775 | one id skips, ends the run with what was collected, or adds its entry and goes on |
| Scanner.WalkNoAbort | class.sia.php:741-780 | a block in which no id ends the run adds every accepted entry in id order and goes on |
| Scanner.WalkPrefix | class.sia.php:759 | in the default mode a block adds a prefix of what an exhaustive pass adds, all of it when the run goes on |
| Scanner.WalkStopsAt | class.sia.php:759 | a block ends the run at its first stopping id, with exactly the entries accepted before it |
| Scanner.ScanStopsAtRegistered | class.sia.php:758-759 | within a block, without processing every block, the first positive-net txid that already has a row ends the run with the entries collected before the block plus those accepted in the block before it |
| Scanner.ScanStopsInFirstBlock | class.sia.php:733-759 | for a whole default run: when such a txid is in the block at the consensus height, the run returns only the entries accepted in that block before it |
| Scanner.ScanBlocksExhaustive | class.sia.php:738-781 | processing every block from a height down to 22100 returns the accumulated entries followed by every accepted deposit, newest block first |
| Scanner.ScanBlocksEarlyStop | class.sia.php:738-781 | the default mode returns the accumulated entries extended by a prefix of the exhaustive deposits |
| Scanner.ScanExhaustive | class.sia.php:733-783 | a run that processes every block returns every accepted deposit from the consensus height down to 22100 |
| Scanner.ScanPrefix | class.sia.php:758-759 | ending early only truncates: a default run returns a prefix of the exhaustive result |
| Scanner.ScanBlocksSameVerdicts | class.sia.php:738-741 | blocks with the same verdicts give the same result |
| Scanner.ScanReadsConfirmedOnly | class.sia.php:735-741 | a run depends only on the consensus height, the confirmed ids and the transaction details, not on unconfirmed transactions |
| Scanner.KeptSound | class.sia.php:775 | every collected entry comes from an accepting verdict |
| Scanner.DepositsFrom | class.sia.php:738-781 | every collected entry comes from an accepting verdict of a block between 22100 and the starting height |
| Scanner.DepositsSound | class.sia.php:738-781 | every exhaustive deposit is the entry built for an accepted, confirmed transaction of a block between 22100 and the consensus height |
| Scanner.ScanSound | class.sia.php:742-775 | every returned entry, in either mode, is a `deposit` of a confirmed transaction from a scanned block, with the positive net as amount and the starting height, bound to exactly one receivable |
| Payments.LastId | class.sia.php:364 | the last id of the send answer; null exactly when the answer lists none |
| Payments.WithdrawalRow | class.sia.php:679-687 | definition: a `withdrawal` row with address 'null', the destination as remote address, the send id, the converted amount, expiry 'null' and the height |
| Payments.ReceivableRow | class.sia.php:703-711 | definition: a `receivable` row with the address, remote address and txid 'null', the converted amount, the expiry and the height |
| Payments.ReceivableUnique | class.sia.php:701-712 | after a new receivable, a deposit to its address finds exactly one receivable exactly when none existed before |
| Payments.WithdrawalKeepsReceivables | class.sia.php:676-688 | inserting a withdrawal changes no address's receivable lookup |
| Payments.RegisteredStops | class.sia.php:758-759 | once any row carries a txid, the default scan stops at that transaction when its net is positive |
| Payments.Sia.Insert | class.sia.php:596-626 | an unprepared statement fails with the query error; exactly one affected row appends the row and returns true; anything else fails with the insert error; a failure leaves the table unchanged; no payment is made |
| Payments.Sia.Select | class.sia.php:639-663 | no condition fails with the query error; otherwise the matching rows in table order |
| Payments.Sia.SendSc | class.sia.php:353-365 | a locked wallet and then an invalid address fail before anything is sent; otherwise exactly one payment of the converted amount to the address is issued and the last id of the answer is returned; the table is unchanged |
| Payments.Sia.WithdrawFunds | class.sia.php:676-688 | a non-positive amount returns false and changes nothing; a failed send changes nothing; otherwise the payment is issued and the result is the insert's: the query error when the statement is not prepared, the insert error when not exactly one row is affected, and otherwise true with a `withdrawal` row appended holding the last send id, the converted amount and the consensus height |
| Payments.Sia.NewReceivable | class.sia.php:701-712 | the result is the insert's: the query error when the statement is not prepared, the insert error when not exactly one row is affected, and otherwise true with a `receivable` row appended holding the address, the converted amount (not negated), the expiry and the consensus height; a failure leaves the table unchanged |
| Payments.Sia.Classify | class.sia.php:751-779 | the body of the loop over a block's ids gives exactly the verdict `Scanner.Examine` specifies |
| Payments.Sia.WalkBlock | class.sia.php:741-780 | the loop over a block's ids collects the accepted entries in id order and ends the run at the first id that ends it, as `Scanner.Walk` specifies |
| Payments.Sia.Update | class.sia.php:733-783 | the nested loops return exactly the scan result, never write the table, return nothing below height 22100, and every entry is a `deposit` of an observed confirmed transaction with a positive net, the starting height and exactly one matching receivable |
| Legacy.TransactionHastingsNet | sia.php:373-380 | the sum is the wallet-owned output total minus the wallet-owned input total; with no wallet-owned entries it is 0 |
| Legacy.PositiveNets | sia.php:355-363 | no more deposits than ids, and every deposit is positive |
| Legacy.PositiveNetsAppend | sia.php:355-363 | deposits are listed in id order: the deposits of consecutive id lists follow one another |
| Legacy.PositiveNetsOne | sia.php:356-361 | each id contributes one entry, its net, when it is non-empty and nets positive, and nothing otherwise |
| Legacy.PositiveNetsSound | sia.php:355-363 | every listed deposit is the net of a non-empty id with a positive net |
| Legacy.GetAddrDeposits | sia.php:344-365 | an invalid address fails before any lookup; an answer with neither confirmed nor unconfirmed ids fails with 'No transactions found'; otherwise the positive nets of the non-empty confirmed ids, in order |
| Legacy.SendSc | sia.php:310-318 | an invalid address fails and requests nothing; otherwise the payment is requested and every id of the answer is returned |
| Legacy.NicknameExists | sia.php:534-540 | true exactly when some listed file has this nickname |

## Left out

- `rpc`, the cURL transport and JSON decoding are not modelled. The daemon's
  answers are the parameter `Chain.Daemon`, and a height missing from its
  block map stands for a non-JSON answer.
- The endpoint wrappers outside the ledger are not modelled: wallet
  lock/unlock/backup, gateway, hostdb, peers, renter transfers,
  `wallet_addr_txn` and `load_sia_file`. Of the renter, only the two
  lookups over a given file list are modelled.
- Floating point is not modelled:
  - `hastings_to_sc`;
  - the balance display;
  - sia.php's float `sc_to_hastings`;
  - PHP's coercion of large JSON numbers to float.
  Values are unbounded integers.
- Legacy.GetAddrDeposits: its entries are nets in hastings, not the
  siacoin floats `hastings_to_sc` makes of them.
- Legacy.SendSc: takes the amount already in hastings, because sia.php's
  conversion is floating point.
- Amount parsing is not modelled. The amount is a `Helpers.Decimal`
  (digits and scale); how bcmath parses a string, and the comparison
  `$siacoins <= 0` on non-numeric input, are left out.
- The constructor's address regex and the `date`/`strtotime` expiry
  computation are not modelled. The expiry string is a parameter.
- Most of MySQL is not modelled:
  - transactions (`begin_transaction`, commit and rollback beyond their
    effect on the table);
  - collation;
  - conditions on the numeric columns;
  - the `$table` parameter;
  - values that break the concatenated SQL;
  - prepare or execute failures other than an empty condition list in a
    select.
  The outcome of an insert is the parameter `Payments.DbAnswer`.
- PHP warnings are not modelled: reading a missing field, indexing the
  empty send answer, or a `foreach` over a non-array. Only their results
  are kept: null, no iteration.
- The order of side effects between objects is not modelled. The daemon's
  answers are fixed for the duration of one call: in a withdrawal, the lock
  state `send_sc` reads (class.sia.php:354) and the height
  `db_withdraw_funds` reads afterwards (class.sia.php:686) come from the same
  daemon state.
- examples.php is not part of this model. It is a usage script with no
  logic of its own.
