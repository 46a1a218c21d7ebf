/**
 * The `recent_transfers` list of `analyze_transfers_data`: the transfers,
 * newest first, each projected to a display record that says whether it is
 * suspicious or safe and carries the tags of the first matching joined row.
 */
module Projection {
  import opened Wrappers
  import opened Records
  import opened Sequences

  const Caution: string := "Caution"
  const NoDetail: string := "No Detail"
  const Unknown: string := "Unknown"

  /** One entry of `recent_transfers_list`; `time` is the transfer's timestamp. */
  datatype RecentRow = RecentRow(
    txHash: string,
    kind: Direction,
    contractAddress: string,
    symbol: string,
    counterparty: string,
    time: int,
    suspicious: bool,
    safe: bool,
    tag: string,
    tag1: string)

  /** The filter `(df['tx_hash'] == row['tx_hash']) & (df['contract_address'] == row['contract_address'])`. */
  predicate SameTransfer(j: Joined, t: Transfer) {
    j.transfer.txHash == t.txHash && j.transfer.contractAddress == t.contractAddress
  }

  /** The position of the first joined row of the transfer (`match.iloc[0]`), if there is one. */
  function FirstMatch(js: seq<Joined>, t: Transfer): (r: Option<nat>)
    ensures r.None? <==> forall k :: 0 <= k < |js| ==> !SameTransfer(js[k], t)
    ensures r.Some? ==> r.value < |js| && SameTransfer(js[r.value], t)
    ensures r.Some? ==> forall k :: 0 <= k < r.value ==> !SameTransfer(js[k], t)
  {
    if js == [] then None
    else if SameTransfer(js[0], t) then Some(0)
    else
      match FirstMatch(js[1..], t)
      case None => None
      case Some(k) => Some(k + 1)
  }

  /** Python's `s if s else default` on a string: the empty string falls back to the default. */
  function OrDefault(s: string, default: string): (r: string)
    requires default != ""
    ensures r != ""
    ensures s != "" ==> r == s
    ensures s == "" ==> r == default
  {
    if s == "" then default else s
  }

  /**
   * The body of the loop over `recent_transfers`: a transfer is suspicious
   * when the suspicious join has a row for it, and safe only when it is not
   * suspicious and the safe join has one; the tags come from that row.
   */
  function ProjectRow(t: Transfer, susp: seq<Joined>, safe: seq<Joined>): RecentRow {
    var s := FirstMatch(susp, t);
    var f := if s.Some? then None else FirstMatch(safe, t);
    var entry := if s.Some? then Some(susp[s.value].entry) else if f.Some? then Some(safe[f.value].entry) else None;
    RecentRow(
      t.txHash, t.kind, t.contractAddress,
      t.symbol.GetOr(Unknown), t.target.GetOr(Unknown), t.blockTimestamp,
      s.Some?, f.Some?,
      OrDefault(if entry.Some? then entry.value.tag else "", Caution),
      OrDefault(if entry.Some? then entry.value.tag1 else "", NoDetail))
  }

  function BlockTime(t: Transfer): int {
    t.blockTimestamp
  }

  /** `sort_values('block_timestamp', ascending=False)`. */
  function NewestFirst(rows: seq<Transfer>): seq<Transfer> {
    SortDesc(rows, BlockTime)
  }

  /** The list the loop builds: one projected record per transfer, newest first. */
  function RecentList(rows: seq<Transfer>, susp: seq<Joined>, safe: seq<Joined>): (r: seq<RecentRow>)
    ensures |r| == |rows|
  {
    var sorted := NewestFirst(rows);
    SortDescSpec(rows, BlockTime);
    seq(|sorted|, k requires 0 <= k < |sorted| => ProjectRow(sorted[k], susp, safe))
  }

  /** The loop of `analyze_transfers_data` that builds `recent_transfers_list`. */
  method BuildRecentTransfers(rows: seq<Transfer>, susp: seq<Joined>, safe: seq<Joined>)
    returns (list: seq<RecentRow>)
    ensures list == RecentList(rows, susp, safe)
  {
    var recent := NewestFirst(rows);
    SortDescSpec(rows, BlockTime);
    list := [];
    var k := 0;
    while k < |recent|
      invariant 0 <= k <= |recent|
      invariant |list| == k
      invariant forall m :: 0 <= m < k ==> list[m] == ProjectRow(recent[m], susp, safe)
    {
      list := list + [ProjectRow(recent[k], susp, safe)];
      k := k + 1;
    }
  }

  /** The records are the transfers rearranged newest first: same transfers, same multiplicities. */
  lemma RecentOrder(rows: seq<Transfer>)
    ensures |NewestFirst(rows)| == |rows|
    ensures multiset(NewestFirst(rows)) == multiset(rows)
    ensures forall k, l :: 0 <= k < l < |rows| ==> NewestFirst(rows)[k].blockTimestamp >= NewestFirst(rows)[l].blockTimestamp
  {
    SortDescSpec(rows, BlockTime);
    var sorted := NewestFirst(rows);
    forall k, l | 0 <= k < l < |rows| ensures sorted[k].blockTimestamp >= sorted[l].blockTimestamp {
      assert BlockTime(sorted[k]) >= BlockTime(sorted[l]);
    }
  }

  /**
   * A record: suspicious exactly when the suspicious join has a row of its
   * transfer, safe exactly when it is not suspicious and the safe join has
   * one (so never both); the tags of the first such row, "Caution" and
   * "No Detail" standing in for missing or empty tags; "Unknown" for a
   * missing symbol or counterparty; and the transfer's own hash, type,
   * contract and time.
   */
  lemma ProjectRowSpec(t: Transfer, susp: seq<Joined>, safe: seq<Joined>)
    ensures var r := ProjectRow(t, susp, safe);
      && r.txHash == t.txHash && r.kind == t.kind && r.contractAddress == t.contractAddress
      && r.time == t.blockTimestamp
      && (r.suspicious <==> exists k :: 0 <= k < |susp| && SameTransfer(susp[k], t))
      && (r.safe <==> !r.suspicious && exists k :: 0 <= k < |safe| && SameTransfer(safe[k], t))
      && !(r.suspicious && r.safe)
      && r.symbol == (if t.symbol.Some? then t.symbol.value else Unknown)
      && r.counterparty == (if t.target.Some? then t.target.value else Unknown)
      && (!r.suspicious && !r.safe ==> r.tag == Caution && r.tag1 == NoDetail)
      && (r.suspicious ==> exists k :: (0 <= k < |susp| && SameTransfer(susp[k], t)
            && (forall l :: 0 <= l < k ==> !SameTransfer(susp[l], t))
            && r.tag == OrDefault(susp[k].entry.tag, Caution)
            && r.tag1 == OrDefault(susp[k].entry.tag1, NoDetail)))
      && (r.safe ==> exists k :: (0 <= k < |safe| && SameTransfer(safe[k], t)
            && (forall l :: 0 <= l < k ==> !SameTransfer(safe[l], t))
            && r.tag == OrDefault(safe[k].entry.tag, Caution)
            && r.tag1 == OrDefault(safe[k].entry.tag1, NoDetail)))
  {
    var r := ProjectRow(t, susp, safe);
    var s := FirstMatch(susp, t);
    if r.suspicious {
      assert SameTransfer(susp[s.value], t);
    } else if r.safe {
      var f := FirstMatch(safe, t);
      assert SameTransfer(safe[f.value], t);
    }
  }
}
