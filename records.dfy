/**
 * The records that flow through the pipeline: a token transfer as the
 * transfer query returns it, a row of a token directory, and a row of the
 * inner join of the two.
 */
module Records {
  import opened Wrappers

  /** The `type` column: whether the searched address received or sent the tokens. */
  datatype Direction = TransferIn | TransferOut

  /**
   * One row of the transfers frame. `address` is the other party of the
   * transfer and `target` the searched side, as the query names them;
   * `symbol` and `target` may be missing. The timestamp is abstracted to
   * seconds since the epoch.
   */
  datatype Transfer = Transfer(
    txHash: string,
    blockTimestamp: int,
    address: string,
    blockchain: string,
    contractAddress: string,
    symbol: Option<string>,
    target: Option<string>,
    kind: Direction)

  /**
   * One row of a token directory (suspicious or safe), restricted to the
   * columns the loaders keep. `tag` is the coarse label, `tag1` the detail
   * (fraud sub-type for suspicious tokens).
   */
  datatype DirEntry = DirEntry(contractAddress: string, blockchain: string, tag: string, tag1: string)

  /**
   * One row of the join of the transfers with a directory: the transfer's
   * columns and the directory row's columns. Both carry the (lower-cased)
   * contract address the rows were joined on.
   */
  datatype Joined = Joined(transfer: Transfer, entry: DirEntry)

  const SecondsPerDay: int := 86400

  /** The calendar day (days since the epoch) of a timestamp: `.dt.date`. */
  function Day(timestamp: int): int {
    timestamp / SecondsPerDay
  }
}
