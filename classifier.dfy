/**
 * The classifier: `identify_suspicious_transfers` and
 * `identify_safe_transfers`. Both lower-case the contract addresses of the
 * transfers frame (in place) and of a directory, then inner-join the two on
 * the contract address. The two functions differ only in which directory
 * they load, so one operation models both; the directory is the one the
 * loader returned for the chain of the first transfer.
 */
module Classifier {
  import opened Text
  import opened Records
  import opened Sequences

  function LowerTransfer(t: Transfer): Transfer {
    t.(contractAddress := Lower(t.contractAddress))
  }

  function LowerEntry(e: DirEntry): DirEntry {
    e.(contractAddress := Lower(e.contractAddress))
  }

  /** `transfers_df['contract_address'].str.lower()` assigned back to the frame. */
  function LowerAll(ts: seq<Transfer>): (r: seq<Transfer>)
    ensures |r| == |ts|
  {
    seq(|ts|, i requires 0 <= i < |ts| => LowerTransfer(ts[i]))
  }

  function LowerDirectory(dir: seq<DirEntry>): (r: seq<DirEntry>)
    ensures |r| == |dir|
  {
    seq(|dir|, j requires 0 <= j < |dir| => LowerEntry(dir[j]))
  }

  /** A transfer and a directory row name the same contract, ignoring case. */
  predicate Matches(t: Transfer, e: DirEntry) {
    Lower(t.contractAddress) == Lower(e.contractAddress)
  }

  // ----- pd.merge(left, right, on=['contract_address'], how='inner') -----

  /** The joined rows of one left row with the right rows from index `j` on, in right order. */
  function MergeRow(t: Transfer, dir: seq<DirEntry>, j: nat): seq<Joined>
    requires j <= |dir|
    decreases |dir| - j
  {
    if j == |dir| then []
    else (if t.contractAddress == dir[j].contractAddress then [Joined(t, dir[j])] else [])
         + MergeRow(t, dir, j + 1)
  }

  /** The joined rows of the left rows from index `i` on: left order first, then right order. */
  function MergeFrom(ts: seq<Transfer>, dir: seq<DirEntry>, i: nat): seq<Joined>
    requires i <= |ts|
    decreases |ts| - i
  {
    if i == |ts| then [] else MergeRow(ts[i], dir, 0) + MergeFrom(ts, dir, i + 1)
  }

  /**
   * `identify_*_transfers`: no rows for an empty frame or an empty directory;
   * otherwise the inner join of the lower-cased frame and directory.
   */
  function Identified(ts: seq<Transfer>, dir: seq<DirEntry>): seq<Joined> {
    if ts == [] || dir == [] then []
    else MergeFrom(LowerAll(ts), LowerDirectory(dir), 0)
  }

  /** The frame as `identify_*_transfers` leaves it: lower-cased only when the join ran. */
  function LoweredBy(ts: seq<Transfer>, dir: seq<DirEntry>): seq<Transfer> {
    if ts == [] || dir == [] then ts else LowerAll(ts)
  }

  // ----- provenance: which (transfer, directory row) pair each joined row comes from -----

  ghost predicate LexLess(p: (int, int), q: (int, int)) {
    p.0 < q.0 || (p.0 == q.0 && p.1 < q.1)
  }

  ghost function RowPairs(i: nat, t: Transfer, dir: seq<DirEntry>, j: nat): seq<(int, int)>
    requires j <= |dir|
    decreases |dir| - j
  {
    if j == |dir| then []
    else (if t.contractAddress == dir[j].contractAddress then [(i, j as int)] else [])
         + RowPairs(i, t, dir, j + 1)
  }

  ghost function PairsFrom(ts: seq<Transfer>, dir: seq<DirEntry>, i: nat): seq<(int, int)>
    requires i <= |ts|
    decreases |ts| - i
  {
    if i == |ts| then [] else RowPairs(i, ts[i], dir, 0) + PairsFrom(ts, dir, i + 1)
  }

  /** The (transfer index, directory index) pair behind each row of `Identified(ts, dir)`. */
  ghost function Provenance(ts: seq<Transfer>, dir: seq<DirEntry>): seq<(int, int)> {
    if ts == [] || dir == [] then []
    else PairsFrom(LowerAll(ts), LowerDirectory(dir), 0)
  }

  /** The pairs of a transfer and a directory row that name the same contract, ignoring case. */
  ghost function MatchingPairs(ts: seq<Transfer>, dir: seq<DirEntry>): set<(int, int)> {
    set a, b | 0 <= a < |ts| && 0 <= b < |dir| && Matches(ts[a], dir[b]) :: (a, b)
  }

  /** The pairs behind the joined rows of one transfer: its matching directory rows, in order. */
  lemma {:induction false} RowPairsRows(i: nat, t: Transfer, dir: seq<DirEntry>, j: nat)
    requires j <= |dir|
    ensures |RowPairs(i, t, dir, j)| == |MergeRow(t, dir, j)|
    ensures forall k :: 0 <= k < |RowPairs(i, t, dir, j)| ==>
      && RowPairs(i, t, dir, j)[k].0 == i && j <= RowPairs(i, t, dir, j)[k].1 < |dir|
      && t.contractAddress == dir[RowPairs(i, t, dir, j)[k].1].contractAddress
      && MergeRow(t, dir, j)[k] == Joined(t, dir[RowPairs(i, t, dir, j)[k].1])
    decreases |dir| - j
  {
    if j < |dir| {
      RowPairsRows(i, t, dir, j + 1);
    }
  }

  lemma {:induction false} RowPairsOrder(i: nat, t: Transfer, dir: seq<DirEntry>, j: nat)
    requires j <= |dir|
    ensures forall k :: 0 <= k < |RowPairs(i, t, dir, j)| ==> j <= RowPairs(i, t, dir, j)[k].1
    ensures forall k, l :: 0 <= k < l < |RowPairs(i, t, dir, j)| ==> RowPairs(i, t, dir, j)[k].1 < RowPairs(i, t, dir, j)[l].1
    decreases |dir| - j
  {
    if j < |dir| {
      RowPairsOrder(i, t, dir, j + 1);
    }
  }

  lemma {:induction false} RowPairsCover(i: nat, t: Transfer, dir: seq<DirEntry>, j: nat)
    requires j <= |dir|
    ensures forall m :: j <= m < |dir| && t.contractAddress == dir[m].contractAddress ==> (i, m) in RowPairs(i, t, dir, j)
    decreases |dir| - j
  {
    if j < |dir| {
      RowPairsCover(i, t, dir, j + 1);
    }
  }

  lemma {:induction false} PairsFromSpec(ts: seq<Transfer>, dir: seq<DirEntry>, i: nat)
    requires i <= |ts|
    ensures |PairsFrom(ts, dir, i)| == |MergeFrom(ts, dir, i)|
    ensures forall k :: 0 <= k < |PairsFrom(ts, dir, i)| ==>
      && i <= PairsFrom(ts, dir, i)[k].0 < |ts| && 0 <= PairsFrom(ts, dir, i)[k].1 < |dir|
      && ts[PairsFrom(ts, dir, i)[k].0].contractAddress == dir[PairsFrom(ts, dir, i)[k].1].contractAddress
      && MergeFrom(ts, dir, i)[k] == Joined(ts[PairsFrom(ts, dir, i)[k].0], dir[PairsFrom(ts, dir, i)[k].1])
    ensures forall k, l :: 0 <= k < l < |PairsFrom(ts, dir, i)| ==> LexLess(PairsFrom(ts, dir, i)[k], PairsFrom(ts, dir, i)[l])
    ensures forall a, b :: i <= a < |ts| && 0 <= b < |dir| && ts[a].contractAddress == dir[b].contractAddress
                          ==> (a, b) in PairsFrom(ts, dir, i)
    decreases |ts| - i
  {
    if i < |ts| {
      RowPairsRows(i, ts[i], dir, 0);
      RowPairsOrder(i, ts[i], dir, 0);
      RowPairsCover(i, ts[i], dir, 0);
      PairsFromSpec(ts, dir, i + 1);
      var row, rest := RowPairs(i, ts[i], dir, 0), PairsFrom(ts, dir, i + 1);
      var p := row + rest;
      forall k, l | 0 <= k < l < |p| ensures LexLess(p[k], p[l]) {
        if l < |row| {
        } else if k < |row| {
          assert p[l] == rest[l - |row|];
        } else {
          assert p[k] == rest[k - |row|] && p[l] == rest[l - |row|];
        }
      }
    }
  }

  /**
   * Each joined row comes from exactly one pair of a transfer and a
   * directory row naming the same contract ignoring case, every such pair
   * yields a row, and the rows are in the order of the pairs (transfer
   * order first, then directory order).
   */
  lemma IdentifiedProvenance(ts: seq<Transfer>, dir: seq<DirEntry>)
    ensures |Provenance(ts, dir)| == |Identified(ts, dir)|
    ensures forall k :: 0 <= k < |Provenance(ts, dir)| ==>
      && 0 <= Provenance(ts, dir)[k].0 < |ts| && 0 <= Provenance(ts, dir)[k].1 < |dir|
      && Matches(ts[Provenance(ts, dir)[k].0], dir[Provenance(ts, dir)[k].1])
      && Identified(ts, dir)[k] == Joined(LowerTransfer(ts[Provenance(ts, dir)[k].0]), LowerEntry(dir[Provenance(ts, dir)[k].1]))
    ensures forall k, l :: 0 <= k < l < |Provenance(ts, dir)| ==> LexLess(Provenance(ts, dir)[k], Provenance(ts, dir)[l])
    ensures forall a, b :: 0 <= a < |ts| && 0 <= b < |dir| && Matches(ts[a], dir[b]) ==> (a, b) in Provenance(ts, dir)
  {
    if ts != [] && dir != [] {
      PairsFromSpec(LowerAll(ts), LowerDirectory(dir), 0);
    }
  }

  /**
   * The join holds exactly one row per (transfer, directory row) pair whose
   * contract addresses agree ignoring case: duplicate directory rows are not
   * collapsed.
   */
  lemma JoinCardinality(ts: seq<Transfer>, dir: seq<DirEntry>)
    ensures |Identified(ts, dir)| == |MatchingPairs(ts, dir)|
  {
    IdentifiedProvenance(ts, dir);
    var p := Provenance(ts, dir);
    forall k, l | 0 <= k < l < |p| ensures p[k] != p[l] {
      assert LexLess(p[k], p[l]);
    }
    NoDupCard(p);
    assert (set x | x in p) == MatchingPairs(ts, dir);
  }

  /**
   * Case-insensitive matching, both directions: a row is in the join exactly
   * when it is a lower-cased transfer with a lower-cased directory row that
   * names the same contract ignoring case.
   */
  lemma JoinRows(ts: seq<Transfer>, dir: seq<DirEntry>, row: Joined)
    ensures row in Identified(ts, dir) <==>
      exists a, b :: 0 <= a < |ts| && 0 <= b < |dir| && Matches(ts[a], dir[b])
        && row == Joined(LowerTransfer(ts[a]), LowerEntry(dir[b]))
  {
    if row in Identified(ts, dir) {
      var k :| 0 <= k < |Identified(ts, dir)| && Identified(ts, dir)[k] == row;
      JoinedRowOrigin(ts, dir, k);
    }
    if exists a, b :: 0 <= a < |ts| && 0 <= b < |dir| && Matches(ts[a], dir[b])
        && row == Joined(LowerTransfer(ts[a]), LowerEntry(dir[b])) {
      var a, b :| 0 <= a < |ts| && 0 <= b < |dir| && Matches(ts[a], dir[b])
        && row == Joined(LowerTransfer(ts[a]), LowerEntry(dir[b]));
      MatchingPairJoined(ts, dir, a, b);
    }
  }

  /** Joined row `k` comes from a transfer and a directory row naming the same contract. */
  lemma JoinedRowOrigin(ts: seq<Transfer>, dir: seq<DirEntry>, k: int)
    requires 0 <= k < |Identified(ts, dir)|
    ensures exists a, b :: (0 <= a < |ts| && 0 <= b < |dir| && Matches(ts[a], dir[b])
      && Identified(ts, dir)[k] == Joined(LowerTransfer(ts[a]), LowerEntry(dir[b])))
  {
    IdentifiedProvenance(ts, dir);
    var a, b := Provenance(ts, dir)[k].0, Provenance(ts, dir)[k].1;
    assert Matches(ts[a], dir[b]);
  }

  /** A transfer and a directory row naming the same contract yield a joined row. */
  lemma MatchingPairJoined(ts: seq<Transfer>, dir: seq<DirEntry>, a: int, b: int)
    requires 0 <= a < |ts| && 0 <= b < |dir| && Matches(ts[a], dir[b])
    ensures Joined(LowerTransfer(ts[a]), LowerEntry(dir[b])) in Identified(ts, dir)
  {
    IdentifiedProvenance(ts, dir);
    var p := Provenance(ts, dir);
    var k :| 0 <= k < |p| && p[k] == (a, b);
    assert Identified(ts, dir)[k] == Joined(LowerTransfer(ts[a]), LowerEntry(dir[b]));
  }

  /** Every joined row carries one lower-case contract address on both sides. */
  lemma JoinedAddressesAgree(ts: seq<Transfer>, dir: seq<DirEntry>, row: Joined)
    requires row in Identified(ts, dir)
    ensures row.transfer.contractAddress == row.entry.contractAddress
    ensures IsLower(row.transfer.contractAddress)
  {
    JoinRows(ts, dir, row);
    var a, b :| 0 <= a < |ts| && 0 <= b < |dir| && Matches(ts[a], dir[b])
      && row == Joined(LowerTransfer(ts[a]), LowerEntry(dir[b]));
    LowerIsLower(ts[a].contractAddress);
  }

  /** Lower-casing the frame before a second classification changes nothing. */
  lemma IdentifiedAfterLowering(ts: seq<Transfer>, d1: seq<DirEntry>, d2: seq<DirEntry>)
    ensures Identified(LoweredBy(ts, d1), d2) == Identified(ts, d2)
    ensures LoweredBy(LoweredBy(ts, d1), d2) == if d1 == [] then LoweredBy(ts, d2) else LoweredBy(ts, d1)
  {
    if ts != [] && d1 != [] {
      LowerAllIdempotent(ts);
    }
  }

  lemma LowerAllIdempotent(ts: seq<Transfer>)
    ensures LowerAll(LowerAll(ts)) == LowerAll(ts)
  {
    forall i | 0 <= i < |ts| ensures LowerAll(LowerAll(ts))[i] == LowerAll(ts)[i] {
      LowerIdempotent(ts[i].contractAddress);
    }
  }

  /**
   * The in-memory transfers frame, which `identify_*_transfers` update in
   * place (`transfers_df['contract_address'] = ...str.lower()`).
   */
  class TransferFrame {
    var rows: seq<Transfer>

    constructor (initial: seq<Transfer>)
      ensures rows == initial
    {
      rows := initial;
    }

    /**
     * `identify_suspicious_transfers` / `identify_safe_transfers` with the
     * directory the loader returned: the joined rows, and the frame
     * lower-cased in place when the join ran.
     */
    method Identify(dir: seq<DirEntry>) returns (joined: seq<Joined>)
      modifies this
      ensures joined == Identified(old(rows), dir)
      ensures rows == LoweredBy(old(rows), dir)
    {
      if rows == [] {
        return [];
      }
      if dir == [] {
        return [];
      }
      rows := LowerAll(rows);
      joined := MergeFrom(rows, LowerDirectory(dir), 0);
    }
  }
}
