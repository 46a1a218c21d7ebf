/**
 * `analyze_transfers_data`: classify the transfers against the suspicious
 * and the safe directory, then aggregate the frame and the two joins into
 * the dashboard's result. An empty frame yields no result.
 */
module Analysis {
  import opened Wrappers
  import opened Text
  import opened Records
  import opened Sequences
  import opened Classifier
  import opened Aggregator
  import opened Projection

  /** The dictionary `analyze_transfers_data` returns. */
  datatype Result = Result(
    summary: Summary,
    topTokens: seq<(string, nat)>,
    activityTimeline: seq<ActivityRow>,
    tokensTimeline: seq<TokensRow>,
    recentTransfers: seq<RecentRow>,
    suspiciousTransfers: seq<Joined>,
    suspiciousTags: seq<TagRow>,
    safeTransfers: seq<Joined>,
    safeTags: seq<TagRow>,
    rawData: seq<Transfer>)

  /** The aggregation of a frame (as the classifier left it) and its two joins. */
  function Aggregate(rows: seq<Transfer>, susp: seq<Joined>, safe: seq<Joined>): Result {
    Result(
      Summarize(rows, susp, safe),
      TopTokens(Contracts(rows)),
      ActivityTimeline(rows, susp),
      TokensTimeline(rows, susp),
      RecentList(rows, susp, safe),
      susp, Breakdown(susp), safe, Breakdown(safe),
      rows)
  }

  /** The frame after both classifications: lower-cased when either join ran. */
  function Classified(ts: seq<Transfer>, suspDir: seq<DirEntry>, safeDir: seq<DirEntry>): seq<Transfer> {
    LoweredBy(LoweredBy(ts, suspDir), safeDir)
  }

  /**
   * `analyze_transfers_data` on the transfers `ts` with the directories the
   * loaders returned for their chain: no result for no transfers; otherwise
   * the suspicious join, then the safe join of the frame the first one
   * lower-cased, aggregated together with that frame.
   */
  function AnalysisOf(ts: seq<Transfer>, suspDir: seq<DirEntry>, safeDir: seq<DirEntry>): (r: Option<Result>)
    ensures r.None? <==> ts == []
    ensures r.Some? ==> r.value.rawData == Classified(ts, suspDir, safeDir)
  {
    if ts == [] then None
    else
      var susp := Identified(ts, suspDir);
      var safe := Identified(LoweredBy(ts, suspDir), safeDir);
      Some(Aggregate(Classified(ts, suspDir, safeDir), susp, safe))
  }

  /**
   * `analyze_transfers_data(transfers_df)`: the frame is updated in place by
   * the two classifications, and the recent-transfers list is built by its
   * loop.
   */
  method Analyze(frame: TransferFrame, suspDir: seq<DirEntry>, safeDir: seq<DirEntry>)
    returns (r: Option<Result>)
    modifies frame
    ensures r == AnalysisOf(old(frame.rows), suspDir, safeDir)
    ensures frame.rows == Classified(old(frame.rows), suspDir, safeDir)
  {
    if frame.rows == [] {
      return None;
    }
    var susp := frame.Identify(suspDir);
    var safe := frame.Identify(safeDir);
    var rows := frame.rows;
    var recent := BuildRecentTransfers(rows, susp, safe);
    r := Some(Result(
      Summarize(rows, susp, safe),
      TopTokens(Contracts(rows)),
      ActivityTimeline(rows, susp),
      TokensTimeline(rows, susp),
      recent,
      susp, Breakdown(susp), safe, Breakdown(safe),
      rows));
  }

  // ----- the classification as the recent-transfers list reports it -----

  /** Once either join ran, every row of the frame is its transfer lower-cased. */
  lemma ClassifiedRows(ts: seq<Transfer>, suspDir: seq<DirEntry>, safeDir: seq<DirEntry>)
    ensures |Classified(ts, suspDir, safeDir)| == |ts|
    ensures suspDir != [] || safeDir != [] ==> Classified(ts, suspDir, safeDir) == LowerAll(ts)
    ensures suspDir == [] && safeDir == [] ==> Classified(ts, suspDir, safeDir) == ts
  {
    IdentifiedAfterLowering(ts, suspDir, safeDir);
  }

  /**
   * A lower-cased transfer has a row in a join exactly when its contract
   * appears in the directory, ignoring case.
   */
  lemma FlaggedIff(ts: seq<Transfer>, dir: seq<DirEntry>, i: int)
    requires 0 <= i < |ts|
    ensures (exists k :: 0 <= k < |Identified(ts, dir)| && SameTransfer(Identified(ts, dir)[k], LowerTransfer(ts[i])))
      <==> exists b :: 0 <= b < |dir| && Matches(ts[i], dir[b])
  {
    var js, t := Identified(ts, dir), LowerTransfer(ts[i]);
    if exists b :: 0 <= b < |dir| && Matches(ts[i], dir[b]) {
      var b :| 0 <= b < |dir| && Matches(ts[i], dir[b]);
      JoinRows(ts, dir, Joined(t, LowerEntry(dir[b])));
      var k :| 0 <= k < |js| && js[k] == Joined(t, LowerEntry(dir[b]));
      assert SameTransfer(js[k], t);
    }
    if exists k :: 0 <= k < |js| && SameTransfer(js[k], t) {
      var k :| 0 <= k < |js| && SameTransfer(js[k], t);
      assert js[k] in js;
      JoinRows(ts, dir, js[k]);
      var a, b :| 0 <= a < |ts| && 0 <= b < |dir| && Matches(ts[a], dir[b])
        && js[k] == Joined(LowerTransfer(ts[a]), LowerEntry(dir[b]));
      LowerIdempotent(ts[i].contractAddress);
      LowerIdempotent(ts[a].contractAddress);
      assert Matches(ts[i], dir[b]);
    }
  }

  /**
   * The record of the frame's `i`-th row: suspicious exactly when the
   * suspicious directory lists its contract (ignoring case), safe exactly
   * when it is not suspicious and the safe directory lists it.
   */
  lemma RecordClassification(ts: seq<Transfer>, suspDir: seq<DirEntry>, safeDir: seq<DirEntry>, i: int)
    requires 0 <= i < |ts|
    ensures var rows := Classified(ts, suspDir, safeDir);
      var r := ProjectRow(rows[i], Identified(ts, suspDir), Identified(LoweredBy(ts, suspDir), safeDir));
      && (r.suspicious <==> exists b :: 0 <= b < |suspDir| && Matches(ts[i], suspDir[b]))
      && (r.safe <==> !r.suspicious && exists b :: 0 <= b < |safeDir| && Matches(ts[i], safeDir[b]))
  {
    var rows := Classified(ts, suspDir, safeDir);
    var susp, safe := Identified(ts, suspDir), Identified(LoweredBy(ts, suspDir), safeDir);
    ClassifiedRows(ts, suspDir, safeDir);
    IdentifiedAfterLowering(ts, suspDir, safeDir);
    ProjectRowSpec(rows[i], susp, safe);
    if suspDir != [] || safeDir != [] {
      assert rows[i] == LowerTransfer(ts[i]);
      FlaggedIff(ts, suspDir, i);
      FlaggedIff(ts, safeDir, i);
    }
  }

  /** The `k`-th record of the recent-transfers list is the record of some transfer of the frame. */
  lemma RecentRecordSpec(ts: seq<Transfer>, suspDir: seq<DirEntry>, safeDir: seq<DirEntry>, k: int)
    requires 0 <= k < |ts|
    ensures var rows := Classified(ts, suspDir, safeDir);
      var susp, safe := Identified(ts, suspDir), Identified(LoweredBy(ts, suspDir), safeDir);
      var r := RecentList(rows, susp, safe)[k];
      exists i :: (0 <= i < |ts|
        && r.txHash == ts[i].txHash && r.time == ts[i].blockTimestamp
        && (r.suspicious <==> exists b :: 0 <= b < |suspDir| && Matches(ts[i], suspDir[b]))
        && (r.safe <==> !r.suspicious && exists b :: 0 <= b < |safeDir| && Matches(ts[i], safeDir[b])))
  {
    var rows := Classified(ts, suspDir, safeDir);
    var susp, safe := Identified(ts, suspDir), Identified(LoweredBy(ts, suspDir), safeDir);
    var sorted := NewestFirst(rows);
    RecentOrder(rows);
    ClassifiedRows(ts, suspDir, safeDir);
    assert sorted[k] in multiset(rows);
    var i :| 0 <= i < |rows| && rows[i] == sorted[k];
    ProjectRowSpec(sorted[k], susp, safe);
    RecordClassification(ts, suspDir, safeDir, i);
    IdentifiedAfterLowering(ts, suspDir, safeDir);
    if suspDir != [] || safeDir != [] {
      assert rows[i] == LowerTransfer(ts[i]);
    }
  }

  /**
   * The recent-transfers list of a result: one record per transfer, newest
   * first; `RecentRecordSpec` says how each record is flagged.
   */
  lemma RecentTransfersSpec(ts: seq<Transfer>, suspDir: seq<DirEntry>, safeDir: seq<DirEntry>)
    requires ts != []
    ensures var recent := AnalysisOf(ts, suspDir, safeDir).value.recentTransfers;
      && |recent| == |ts|
      && (forall k, l :: 0 <= k < l < |recent| ==> recent[k].time >= recent[l].time)
  {
    var rows := Classified(ts, suspDir, safeDir);
    var susp, safe := Identified(ts, suspDir), Identified(LoweredBy(ts, suspDir), safeDir);
    var recent := RecentList(rows, susp, safe);
    var sorted := NewestFirst(rows);
    RecentOrder(rows);
    ClassifiedRows(ts, suspDir, safeDir);
    forall k, l | 0 <= k < l < |recent| ensures recent[k].time >= recent[l].time {
      ProjectRowSpec(sorted[k], susp, safe);
      ProjectRowSpec(sorted[l], susp, safe);
    }
  }

  // ----- facts about the summary and the timelines -----

  /** Every joined row's transfer is a row of the classified frame. */
  lemma JoinedRowsInFrame(ts: seq<Transfer>, suspDir: seq<DirEntry>, safeDir: seq<DirEntry>)
    ensures forall j :: j in Identified(ts, suspDir) ==> j.transfer in Classified(ts, suspDir, safeDir)
    ensures forall j :: j in Identified(LoweredBy(ts, suspDir), safeDir) ==> j.transfer in Classified(ts, suspDir, safeDir)
  {
    var rows := Classified(ts, suspDir, safeDir);
    ClassifiedRows(ts, suspDir, safeDir);
    IdentifiedAfterLowering(ts, suspDir, safeDir);
    forall j | j in Identified(ts, suspDir) ensures j.transfer in rows {
      JoinRows(ts, suspDir, j);
      var a, b :| 0 <= a < |ts| && 0 <= b < |suspDir| && Matches(ts[a], suspDir[b])
        && j == Joined(LowerTransfer(ts[a]), LowerEntry(suspDir[b]));
      assert rows[a] == j.transfer;
    }
    forall j | j in Identified(ts, safeDir) ensures j.transfer in rows {
      JoinRows(ts, safeDir, j);
      var a, b :| 0 <= a < |ts| && 0 <= b < |safeDir| && Matches(ts[a], safeDir[b])
        && j == Joined(LowerTransfer(ts[a]), LowerEntry(safeDir[b]));
      assert rows[a] == j.transfer;
    }
  }

  /**
   * The summary of a result: every transfer counted once; one suspicious
   * (safe) row per pair of a transfer and a suspicious (safe) directory row
   * naming the same contract; flagged contracts are among all contracts and
   * never outnumber the flagged transfers; and the activity timeline's
   * columns add up to the transfer count and the suspicious count.
   */
  lemma SummarySpec(ts: seq<Transfer>, suspDir: seq<DirEntry>, safeDir: seq<DirEntry>)
    requires ts != []
    ensures var a := AnalysisOf(ts, suspDir, safeDir).value;
      var s := a.summary;
      && s.totalTransfers == |ts|
      && s.suspiciousCount == |MatchingPairs(ts, suspDir)|
      && s.safeCount == |MatchingPairs(ts, safeDir)|
      && 0 < s.uniqueTokens <= s.totalTransfers
      && s.suspiciousTokens <= s.uniqueTokens && s.suspiciousTokens <= s.suspiciousCount
      && s.safeTokens <= s.uniqueTokens && s.safeTokens <= s.safeCount
      && SumAll(a.activityTimeline) == s.totalTransfers
      && SumSuspicious(a.activityTimeline) == s.suspiciousCount
  {
    var rows := Classified(ts, suspDir, safeDir);
    var susp, safe := Identified(ts, suspDir), Identified(LoweredBy(ts, suspDir), safeDir);
    ClassifiedRows(ts, suspDir, safeDir);
    IdentifiedAfterLowering(ts, suspDir, safeDir);
    JoinCardinality(ts, suspDir);
    JoinCardinality(ts, safeDir);
    JoinedRowsInFrame(ts, suspDir, safeDir);
    SummaryBounds(rows, susp, safe);
    ActivityTotals(rows, susp);
  }

  // ----- worked examples -----

  const ExampleSuspicious: seq<DirEntry> := [DirEntry("0xabc", "ethereum", "High Risk", "Phishing")]

  function ExampleTransfer(tx: string, contract: string, time: int): Transfer {
    Transfer(tx, time, "0xsender", "ethereum", contract, Some("TKN"), Some("0xme"), TransferIn)
  }

  /** The result, given the classified frame and the two joins. */
  lemma AnalysisFromParts(ts: seq<Transfer>, suspDir: seq<DirEntry>, safeDir: seq<DirEntry>,
                          rows: seq<Transfer>, susp: seq<Joined>, safe: seq<Joined>)
    requires ts != []
    requires rows == Classified(ts, suspDir, safeDir)
    requires susp == Identified(ts, suspDir) && safe == Identified(LoweredBy(ts, suspDir), safeDir)
    ensures AnalysisOf(ts, suspDir, safeDir) == Some(Aggregate(rows, susp, safe))
  {
  }

  /**
   * Matching ignores case: transfers of "0xABC" and "0xabc" against a
   * directory listing "0xabc" are both suspicious, with its detail tag.
   */
  lemma CaseInsensitiveExample()
    ensures var ts := [ExampleTransfer("t1", "0xABC", 200), ExampleTransfer("t2", "0xabc", 100)];
      var recent := AnalysisOf(ts, ExampleSuspicious, []).value.recentTransfers;
      && |recent| == 2
      && recent[0].suspicious && recent[1].suspicious
      && recent[0].tag1 == "Phishing" && recent[1].tag1 == "Phishing"
  {
    var ts := [ExampleTransfer("t1", "0xABC", 200), ExampleTransfer("t2", "0xabc", 100)];
    var rows := [ExampleTransfer("t1", "0xabc", 200), ExampleTransfer("t2", "0xabc", 100)];
    var susp := [Joined(rows[0], ExampleSuspicious[0]), Joined(rows[1], ExampleSuspicious[0])];
    ExampleJoin(ts, rows, susp);
    assert NewestFirst(rows) == rows by {
      assert SortDesc(rows[1..], BlockTime) == [rows[1]];
    }
    var recent := RecentList(rows, susp, []);
    assert FirstMatch(susp, rows[0]) == Some(0);
    assert FirstMatch(susp, rows[1]) == Some(1);
    assert recent[0] == ProjectRow(rows[0], susp, []);
    assert recent[1] == ProjectRow(rows[1], susp, []);
    AnalysisFromParts(ts, ExampleSuspicious, [], rows, susp, []);
  }

  /** The classification of the case-insensitive example: both transfers lower-cased and joined. */
  lemma ExampleJoin(ts: seq<Transfer>, rows: seq<Transfer>, susp: seq<Joined>)
    requires ts == [ExampleTransfer("t1", "0xABC", 200), ExampleTransfer("t2", "0xabc", 100)]
    requires rows == [ExampleTransfer("t1", "0xabc", 200), ExampleTransfer("t2", "0xabc", 100)]
    requires susp == [Joined(rows[0], ExampleSuspicious[0]), Joined(rows[1], ExampleSuspicious[0])]
    ensures Classified(ts, ExampleSuspicious, []) == rows
    ensures Identified(ts, ExampleSuspicious) == susp
    ensures Identified(LoweredBy(ts, ExampleSuspicious), []) == []
  {
    assert Lower("0xABC") == "0xabc";
    assert Lower("0xabc") == "0xabc";
    assert LowerAll(ts) == rows;
    assert LowerDirectory(ExampleSuspicious) == ExampleSuspicious;
    var dir := ExampleSuspicious;
    assert MergeRow(rows[0], dir, 0) == [susp[0]];
    assert MergeRow(rows[1], dir, 0) == [susp[1]];
    assert MergeFrom(rows, dir, 2) == [];
    assert MergeFrom(rows, dir, 1) == [susp[1]];
  }

  /**
   * Three transfers of one flagged contract are three suspicious transfers
   * but one suspicious token.
   */
  lemma TokensVersusTransfersExample()
    ensures var ts := [ExampleTransfer("t1", "0xabc", 300), ExampleTransfer("t2", "0xabc", 200), ExampleTransfer("t3", "0xabc", 100)];
      var s := AnalysisOf(ts, ExampleSuspicious, []).value.summary;
      s.suspiciousCount == 3 && s.suspiciousTokens == 1
  {
    var ts := [ExampleTransfer("t1", "0xabc", 300), ExampleTransfer("t2", "0xabc", 200), ExampleTransfer("t3", "0xabc", 100)];
    var susp := Identified(ts, ExampleSuspicious);
    ExampleThreeJoined(ts);
    OneContractJoined(susp);
    AnalysisFromParts(ts, ExampleSuspicious, [], Classified(ts, ExampleSuspicious, []), susp, []);
  }

  /** The join of the three-transfer example: one joined row per transfer. */
  lemma ExampleThreeJoined(ts: seq<Transfer>)
    requires ts == [ExampleTransfer("t1", "0xabc", 300), ExampleTransfer("t2", "0xabc", 200), ExampleTransfer("t3", "0xabc", 100)]
    ensures Identified(ts, ExampleSuspicious) == [Joined(ts[0], ExampleSuspicious[0]), Joined(ts[1], ExampleSuspicious[0]), Joined(ts[2], ExampleSuspicious[0])]
  {
    var dir := ExampleSuspicious;
    assert Lower("0xabc") == "0xabc";
    assert LowerAll(ts) == ts;
    assert LowerDirectory(dir) == dir;
    assert MergeRow(ts[0], dir, 0) == [Joined(ts[0], dir[0])];
    assert MergeRow(ts[1], dir, 0) == [Joined(ts[1], dir[0])];
    assert MergeRow(ts[2], dir, 0) == [Joined(ts[2], dir[0])];
    assert MergeFrom(ts, dir, 3) == [];
    assert MergeFrom(ts, dir, 2) == [Joined(ts[2], dir[0])];
    assert MergeFrom(ts, dir, 1) == [Joined(ts[1], dir[0]), Joined(ts[2], dir[0])];
  }

  /** Joined rows all of the example contract name one distinct contract. */
  lemma OneContractJoined(susp: seq<Joined>)
    requires |susp| == 3 && forall k :: 0 <= k < |susp| ==> susp[k].transfer.contractAddress == "0xabc"
    ensures NUnique(JoinedContracts(susp)) == 1
  {
    assert JoinedContracts(susp) == ["0xabc", "0xabc", "0xabc"];
    assert (set x | x in JoinedContracts(susp)) == {"0xabc"};
  }

  /**
   * `suspicious_senders` counts the `address` column, which for an outbound
   * transfer is its recipient: one flagged outbound transfer to "0xrecipient"
   * counts one suspicious sender.
   */
  lemma OutboundRecipientCounted(t: Transfer)
    requires t == Transfer("t1", 100, "0xrecipient", "ethereum", "0xabc", Some("TKN"), Some("0xme"), TransferOut)
    ensures Summarize([t], [Joined(t, ExampleSuspicious[0])], []).suspiciousSenders == 1
  {
    var js := [Joined(t, ExampleSuspicious[0])];
    assert JoinedAddresses(js) == ["0xrecipient"];
    assert (set x | x in JoinedAddresses(js)) == {"0xrecipient"};
  }

  /** A directory listing a contract twice yields two joined rows per transfer of it: the join does not deduplicate. */
  lemma DuplicateDirectoryRowExample()
    ensures var ts := [ExampleTransfer("t1", "0xabc", 100)];
      var dir := ExampleSuspicious + ExampleSuspicious;
      AnalysisOf(ts, dir, []).value.summary.suspiciousCount == 2
  {
    var ts := [ExampleTransfer("t1", "0xabc", 100)];
    var dir := ExampleSuspicious + ExampleSuspicious;
    assert Lower("0xabc") == "0xabc";
    assert LowerAll(ts) == ts;
    assert LowerDirectory(dir) == dir;
    assert MergeRow(ts[0], dir, 2) == [];
    assert MergeRow(ts[0], dir, 1) == [Joined(ts[0], dir[1])];
    assert MergeRow(ts[0], dir, 0) == [Joined(ts[0], dir[0]), Joined(ts[0], dir[1])];
    assert Identified(ts, dir) == [Joined(ts[0], dir[0]), Joined(ts[0], dir[1])];
  }
}
