/**
 * The aggregates `analyze_transfers_data` computes from the transfers frame
 * and the joined suspicious and safe rows: summary counts, the two per-day
 * timelines, the most frequent contracts and the per-detail breakdowns.
 */
module Aggregator {
  import opened Text
  import opened Records
  import opened Sequences

  function IntLess(a: int, b: int): bool {
    a < b
  }

  lemma StrLessIsStrictTotalOrder()
    ensures IsStrictTotalOrder(StrLess)
  {
    forall x: string ensures !StrLess(x, x) {
      StrLessIrreflexive(x);
    }
    forall x: string, y: string, z: string | StrLess(x, y) && StrLess(y, z) ensures StrLess(x, z) {
      StrLessTransitive(x, y, z);
    }
    forall x: string, y: string | x != y ensures StrLess(x, y) || StrLess(y, x) {
      StrLessTotal(x, y);
    }
  }

  // ----- columns -----

  /** The `date` column of the transfers frame. */
  function TransferDays(rows: seq<Transfer>): (r: seq<int>)
    ensures |r| == |rows|
  {
    seq(|rows|, i requires 0 <= i < |rows| => Day(rows[i].blockTimestamp))
  }

  /** The `date` column of a joined frame. */
  function JoinedDays(js: seq<Joined>): (r: seq<int>)
    ensures |r| == |js|
  {
    seq(|js|, i requires 0 <= i < |js| => Day(js[i].transfer.blockTimestamp))
  }

  function Contracts(rows: seq<Transfer>): (r: seq<string>)
    ensures |r| == |rows|
  {
    seq(|rows|, i requires 0 <= i < |rows| => rows[i].contractAddress)
  }

  function JoinedContracts(js: seq<Joined>): (r: seq<string>)
    ensures |r| == |js|
  {
    seq(|js|, i requires 0 <= i < |js| => js[i].transfer.contractAddress)
  }

  /** The `address` column of a joined frame. */
  function JoinedAddresses(js: seq<Joined>): (r: seq<string>)
    ensures |r| == |js|
  {
    seq(|js|, i requires 0 <= i < |js| => js[i].transfer.address)
  }

  /** The `tag_1` column of a joined frame. */
  function JoinedDetails(js: seq<Joined>): (r: seq<string>)
    ensures |r| == |js|
  {
    seq(|js|, i requires 0 <= i < |js| => js[i].entry.tag1)
  }

  // ----- summary -----

  datatype Summary = Summary(
    totalTransfers: nat,
    uniqueTokens: nat,
    suspiciousCount: nat,
    suspiciousTokens: nat,
    suspiciousSenders: nat,
    safeCount: nat,
    safeTokens: nat,
    safeSenders: nat)

  /** The `summary` dictionary: row counts, and distinct contracts and addresses. */
  function Summarize(rows: seq<Transfer>, susp: seq<Joined>, safe: seq<Joined>): Summary {
    Summary(
      |rows|,
      NUnique(Contracts(rows)),
      |susp|,
      NUnique(JoinedContracts(susp)),
      NUnique(JoinedAddresses(susp)),
      |safe|,
      NUnique(JoinedContracts(safe)),
      NUnique(JoinedAddresses(safe)))
  }

  /**
   * Distinct contracts and distinct addresses never outnumber rows, and the
   * flagged contracts are among the frame's contracts when every joined
   * transfer is a row of the frame.
   */
  lemma SummaryBounds(rows: seq<Transfer>, susp: seq<Joined>, safe: seq<Joined>)
    ensures var s := Summarize(rows, susp, safe);
      && s.uniqueTokens <= s.totalTransfers
      && (s.totalTransfers == 0 <==> s.uniqueTokens == 0)
      && s.suspiciousTokens <= s.suspiciousCount && s.suspiciousSenders <= s.suspiciousCount
      && s.safeTokens <= s.safeCount && s.safeSenders <= s.safeCount
      && (s.suspiciousCount == 0 <==> s.suspiciousTokens == 0)
      && (s.safeCount == 0 <==> s.safeTokens == 0)
      && ((forall j :: j in susp ==> j.transfer in rows) ==> s.suspiciousTokens <= s.uniqueTokens)
      && ((forall j :: j in safe ==> j.transfer in rows) ==> s.safeTokens <= s.uniqueTokens)
  {
    CardAtMostLength(Contracts(rows));
    CardAtMostLength(JoinedContracts(susp));
    CardAtMostLength(JoinedAddresses(susp));
    CardAtMostLength(JoinedContracts(safe));
    CardAtMostLength(JoinedAddresses(safe));
    NonEmptyHasValue(Contracts(rows));
    NonEmptyHasValue(JoinedContracts(susp));
    NonEmptyHasValue(JoinedContracts(safe));
    if forall j :: j in susp ==> j.transfer in rows {
      FlaggedContractsSubset(rows, susp);
    }
    if forall j :: j in safe ==> j.transfer in rows {
      FlaggedContractsSubset(rows, safe);
    }
  }

  lemma FlaggedContractsSubset(rows: seq<Transfer>, js: seq<Joined>)
    requires forall j :: j in js ==> j.transfer in rows
    ensures NUnique(JoinedContracts(js)) <= NUnique(Contracts(rows))
  {
    var a, b := set x | x in JoinedContracts(js), set x | x in Contracts(rows);
    forall x | x in a ensures x in b {
      var i :| 0 <= i < |js| && JoinedContracts(js)[i] == x;
      assert js[i] in js;
      var m :| 0 <= m < |rows| && rows[m] == js[i].transfer;
      assert Contracts(rows)[m] == x;
    }
    SubsetCard(a, b);
  }

  // ----- activity and unique-token timelines -----

  /** The timeline index: the distinct days of the transfers, ascending. */
  function Dates(rows: seq<Transfer>): seq<int> {
    SortedUnique(TransferDays(rows), IntLess)
  }

  datatype ActivityRow = ActivityRow(date: int, allTransfers: nat, suspiciousTransfers: nat)

  datatype TokensRow = TokensRow(date: int, allTokens: nat, suspiciousTokens: nat)

  /** `groupby('date').size()` of both frames, left-joined on the given dates, missing counts 0. */
  function ActivityOver(dates: seq<int>, rows: seq<Transfer>, susp: seq<Joined>): (r: seq<ActivityRow>)
    ensures |r| == |dates|
  {
    if dates == [] then []
    else [ActivityRow(dates[0], multiset(TransferDays(rows))[dates[0]], multiset(JoinedDays(susp))[dates[0]])]
         + ActivityOver(dates[1..], rows, susp)
  }

  function ActivityTimeline(rows: seq<Transfer>, susp: seq<Joined>): seq<ActivityRow> {
    ActivityOver(Dates(rows), rows, susp)
  }

  /** The distinct contracts of the transfers on day `d`. */
  function ContractsOn(rows: seq<Transfer>, d: int): set<string> {
    set i | 0 <= i < |rows| && Day(rows[i].blockTimestamp) == d :: rows[i].contractAddress
  }

  function JoinedContractsOn(js: seq<Joined>, d: int): set<string> {
    set i | 0 <= i < |js| && Day(js[i].transfer.blockTimestamp) == d :: js[i].transfer.contractAddress
  }

  /** `groupby('date')['contract_address'].nunique()` of both frames, left-joined, missing counts 0. */
  function TokensOver(dates: seq<int>, rows: seq<Transfer>, susp: seq<Joined>): (r: seq<TokensRow>)
    ensures |r| == |dates|
  {
    if dates == [] then []
    else [TokensRow(dates[0], |ContractsOn(rows, dates[0])|, |JoinedContractsOn(susp, dates[0])|)]
         + TokensOver(dates[1..], rows, susp)
  }

  function TokensTimeline(rows: seq<Transfer>, susp: seq<Joined>): seq<TokensRow> {
    TokensOver(Dates(rows), rows, susp)
  }

  lemma DatesSpec(rows: seq<Transfer>)
    ensures StrictlyIncreasing(Dates(rows), IntLess)
    ensures forall d :: d in Dates(rows) <==> d in TransferDays(rows)
    ensures NoDup(Dates(rows))
    ensures |Dates(rows)| == NUnique(TransferDays(rows))
  {
    SortedUniqueSpec(TransferDays(rows), IntLess);
    NoDupCard(Dates(rows));
    SameMembersSameSet(Dates(rows), TransferDays(rows));
  }

  lemma {:induction false} ActivityOverAt(dates: seq<int>, rows: seq<Transfer>, susp: seq<Joined>, k: nat)
    requires k < |dates|
    ensures ActivityOver(dates, rows, susp)[k]
      == ActivityRow(dates[k], multiset(TransferDays(rows))[dates[k]], multiset(JoinedDays(susp))[dates[k]])
  {
    if k > 0 {
      ActivityOverAt(dates[1..], rows, susp, k - 1);
    }
  }

  lemma {:induction false} TokensOverAt(dates: seq<int>, rows: seq<Transfer>, susp: seq<Joined>, k: nat)
    requires k < |dates|
    ensures TokensOver(dates, rows, susp)[k]
      == TokensRow(dates[k], |ContractsOn(rows, dates[k])|, |JoinedContractsOn(susp, dates[k])|)
  {
    if k > 0 {
      TokensOverAt(dates[1..], rows, susp, k - 1);
    }
  }

  /** One row of the activity timeline, by its position. */
  lemma ActivityRowSpec(rows: seq<Transfer>, susp: seq<Joined>, k: int)
    requires 0 <= k < |ActivityTimeline(rows, susp)|
    ensures var r := ActivityTimeline(rows, susp)[k];
      && r.date == Dates(rows)[k]
      && (exists i :: 0 <= i < |rows| && Day(rows[i].blockTimestamp) == r.date)
      && r.allTransfers == multiset(TransferDays(rows))[r.date] > 0
      && r.suspiciousTransfers == multiset(JoinedDays(susp))[r.date]
      && (r.suspiciousTransfers == 0 <==>
            forall j :: 0 <= j < |susp| ==> Day(susp[j].transfer.blockTimestamp) != r.date)
  {
    DatesSpec(rows);
    var dates := Dates(rows);
    ActivityOverAt(dates, rows, susp, k);
    var r := ActivityTimeline(rows, susp)[k];
    assert dates[k] in dates;
    var i :| 0 <= i < |rows| && TransferDays(rows)[i] == dates[k];
    assert TransferDays(rows)[i] in multiset(TransferDays(rows));
    if exists j :: 0 <= j < |susp| && Day(susp[j].transfer.blockTimestamp) == r.date {
      var j :| 0 <= j < |susp| && Day(susp[j].transfer.blockTimestamp) == r.date;
      assert JoinedDays(susp)[j] in multiset(JoinedDays(susp));
    }
  }

  /**
   * The activity timeline has one row per calendar day of the transfers,
   * ascending by date; `ActivityRowSpec` says what each row counts.
   */
  lemma ActivityTimelineSpec(rows: seq<Transfer>, susp: seq<Joined>)
    ensures var tl := ActivityTimeline(rows, susp);
      && |tl| == NUnique(TransferDays(rows))
      && (forall k, l :: 0 <= k < l < |tl| ==> tl[k].date < tl[l].date)
      && (forall i :: 0 <= i < |rows| ==> exists k :: 0 <= k < |tl| && tl[k].date == Day(rows[i].blockTimestamp))
  {
    DatesSpec(rows);
    var dates, tl := Dates(rows), ActivityTimeline(rows, susp);
    forall i | 0 <= i < |rows| ensures exists k :: 0 <= k < |tl| && tl[k].date == Day(rows[i].blockTimestamp) {
      assert TransferDays(rows)[i] in dates;
      var k :| 0 <= k < |dates| && dates[k] == TransferDays(rows)[i];
      ActivityOverAt(dates, rows, susp, k);
    }
    forall k, l | 0 <= k < l < |tl| ensures tl[k].date < tl[l].date {
      ActivityOverAt(dates, rows, susp, k);
      ActivityOverAt(dates, rows, susp, l);
      assert IntLess(dates[k], dates[l]);
    }
  }

  /** One row of the token timeline, by its position. */
  lemma TokensRowSpec(rows: seq<Transfer>, susp: seq<Joined>, k: int)
    requires 0 <= k < |TokensTimeline(rows, susp)|
    ensures var r, a := TokensTimeline(rows, susp)[k], ActivityTimeline(rows, susp)[k];
      && r.date == a.date
      && r.allTokens == |ContractsOn(rows, r.date)|
      && r.suspiciousTokens == |JoinedContractsOn(susp, r.date)|
      && 0 < r.allTokens <= a.allTransfers
      && ((forall j :: j in susp ==> j.transfer in rows) ==> r.suspiciousTokens <= r.allTokens)
  {
    DatesSpec(rows);
    var dates := Dates(rows);
    TokensOverAt(dates, rows, susp, k);
    ActivityOverAt(dates, rows, susp, k);
    var d := dates[k];
    assert d in dates;
    var i :| 0 <= i < |rows| && TransferDays(rows)[i] == d;
    SubsetCard({rows[i].contractAddress}, ContractsOn(rows, d));
    ContractsOnAtMostCount(rows, d);
    if forall j :: j in susp ==> j.transfer in rows {
      forall c | c in JoinedContractsOn(susp, d) ensures c in ContractsOn(rows, d) {
        var j :| 0 <= j < |susp| && Day(susp[j].transfer.blockTimestamp) == d
          && susp[j].transfer.contractAddress == c;
        assert susp[j] in susp;
        var m :| 0 <= m < |rows| && rows[m] == susp[j].transfer;
      }
      SubsetCard(JoinedContractsOn(susp, d), ContractsOn(rows, d));
    }
  }

  /**
   * The token timeline has the same dates; on each day it counts the
   * distinct contracts of all transfers and of the suspicious rows; there
   * are never more distinct contracts than transfers, and never more
   * suspicious contracts than contracts when the joined transfers are rows
   * of the frame.
   */
  lemma TokensTimelineSpec(rows: seq<Transfer>, susp: seq<Joined>)
    ensures var tl, act := TokensTimeline(rows, susp), ActivityTimeline(rows, susp);
      && |tl| == |act|
      && (forall k :: 0 <= k < |tl| ==>
            && tl[k].date == act[k].date
            && tl[k].allTokens == |ContractsOn(rows, tl[k].date)|
            && tl[k].suspiciousTokens == |JoinedContractsOn(susp, tl[k].date)|
            && 0 < tl[k].allTokens <= act[k].allTransfers
            && ((forall j :: j in susp ==> j.transfer in rows) ==> tl[k].suspiciousTokens <= tl[k].allTokens))
  {
    var tl := TokensTimeline(rows, susp);
    forall k | 0 <= k < |tl|
      ensures var r, a := tl[k], ActivityTimeline(rows, susp)[k];
        && r.date == a.date
        && r.allTokens == |ContractsOn(rows, r.date)|
        && r.suspiciousTokens == |JoinedContractsOn(susp, r.date)|
        && 0 < r.allTokens <= a.allTransfers
        && ((forall j :: j in susp ==> j.transfer in rows) ==> r.suspiciousTokens <= r.allTokens)
    {
      TokensRowSpec(rows, susp, k);
    }
  }

  /** Distinct contracts on a day never outnumber the transfers of that day. */
  lemma {:induction false} ContractsOnAtMostCount(rows: seq<Transfer>, d: int)
    ensures |ContractsOn(rows, d)| <= multiset(TransferDays(rows))[d]
  {
    if rows != [] {
      var init := rows[..|rows| - 1];
      var last := rows[|rows| - 1];
      ContractsOnAtMostCount(init, d);
      ContractsOnLast(rows, d);
      assert TransferDays(rows) == TransferDays(init) + [Day(last.blockTimestamp)];
    }
  }

  /** The contracts of a day, split into those of all rows but the last and that of the last. */
  lemma ContractsOnLast(rows: seq<Transfer>, d: int)
    requires rows != []
    ensures var init, last := rows[..|rows| - 1], rows[|rows| - 1];
      ContractsOn(rows, d) == ContractsOn(init, d) + (if Day(last.blockTimestamp) == d then {last.contractAddress} else {})
  {
    var init, last := rows[..|rows| - 1], rows[|rows| - 1];
    var extra := if Day(last.blockTimestamp) == d then {last.contractAddress} else {};
    forall c | c in ContractsOn(rows, d) ensures c in ContractsOn(init, d) + extra {
      var i :| 0 <= i < |rows| && Day(rows[i].blockTimestamp) == d && rows[i].contractAddress == c;
      if i < |init| {
        assert init[i] == rows[i];
      }
    }
    forall c | c in ContractsOn(init, d) ensures c in ContractsOn(rows, d) {
      var i :| 0 <= i < |init| && Day(init[i].blockTimestamp) == d && init[i].contractAddress == c;
      assert rows[i] == init[i];
    }
  }

  // ----- no row is lost by the left join -----

  function SumAll(tl: seq<ActivityRow>): nat {
    if tl == [] then 0 else tl[0].allTransfers + SumAll(tl[1..])
  }

  function SumSuspicious(tl: seq<ActivityRow>): nat {
    if tl == [] then 0 else tl[0].suspiciousTransfers + SumSuspicious(tl[1..])
  }

  /** The sum over distinct keys `dates` of how often each occurs in `xs`. */
  function SumMultiplicities(dates: seq<int>, xs: seq<int>): nat {
    if dates == [] then 0 else multiset(xs)[dates[0]] + SumMultiplicities(dates[1..], xs)
  }

  lemma {:induction false} SumMultiplicitiesStep(dates: seq<int>, xs: seq<int>, x: int)
    requires NoDup(dates)
    ensures SumMultiplicities(dates, xs + [x])
      == SumMultiplicities(dates, xs) + (if x in dates then 1 else 0)
  {
    if dates != [] {
      assert NoDup(dates[1..]);
      SumMultiplicitiesStep(dates[1..], xs, x);
      assert multiset(xs + [x]) == multiset(xs) + multiset{x};
      assert x in dates <==> x == dates[0] || x in dates[1..];
      assert dates[0] !in dates[1..];
    }
  }

  /** Counting every occurrence of every key counts every element once. */
  lemma {:induction false} SumMultiplicitiesTotal(dates: seq<int>, xs: seq<int>)
    requires NoDup(dates)
    requires forall x :: x in xs ==> x in dates
    ensures SumMultiplicities(dates, xs) == |xs|
  {
    if xs == [] {
      ZeroMultiplicities(dates);
    } else {
      var init := xs[..|xs| - 1];
      assert xs == init + [xs[|xs| - 1]];
      SumMultiplicitiesTotal(dates, init);
      SumMultiplicitiesStep(dates, init, xs[|xs| - 1]);
    }
  }

  lemma {:induction false} ZeroMultiplicities(dates: seq<int>)
    ensures SumMultiplicities(dates, []) == 0
  {
    if dates != [] {
      ZeroMultiplicities(dates[1..]);
    }
  }

  lemma {:induction false} ActivitySums(dates: seq<int>, rows: seq<Transfer>, susp: seq<Joined>)
    ensures SumAll(ActivityOver(dates, rows, susp)) == SumMultiplicities(dates, TransferDays(rows))
    ensures SumSuspicious(ActivityOver(dates, rows, susp)) == SumMultiplicities(dates, JoinedDays(susp))
  {
    if dates != [] {
      ActivitySums(dates[1..], rows, susp);
    }
  }

  /**
   * The left join on the transfers' dates drops nothing: the "All
   * Transfers" column sums to the number of transfers, and the "Suspicious
   * Transfers" column to the number of suspicious rows, provided each
   * suspicious row falls on a day of some transfer.
   */
  lemma ActivityTotals(rows: seq<Transfer>, susp: seq<Joined>)
    requires forall j :: j in susp ==> j.transfer in rows
    ensures SumAll(ActivityTimeline(rows, susp)) == |rows|
    ensures SumSuspicious(ActivityTimeline(rows, susp)) == |susp|
  {
    DatesSpec(rows);
    ActivitySums(Dates(rows), rows, susp);
    SumMultiplicitiesTotal(Dates(rows), TransferDays(rows));
    forall x | x in JoinedDays(susp) ensures x in Dates(rows) {
      var j :| 0 <= j < |susp| && JoinedDays(susp)[j] == x;
      assert susp[j] in susp;
      var m :| 0 <= m < |rows| && rows[m] == susp[j].transfer;
      assert TransferDays(rows)[m] == x;
    }
    SumMultiplicitiesTotal(Dates(rows), JoinedDays(susp));
  }

  // ----- top_tokens: value_counts().head(5) -----

  const TopTokensLimit: nat := 5

  function CountOf(p: (string, nat)): int {
    p.1
  }

  /** Each distinct contract with its number of transfers, in order of first appearance. */
  function ValueCounts(contracts: seq<string>): (r: seq<(string, nat)>)
    ensures |r| == |Distinct(contracts)|
  {
    var d := Distinct(contracts);
    seq(|d|, k requires 0 <= k < |d| => (d[k], multiset(contracts)[d[k]]))
  }

  /**
   * `contract_address.value_counts().head(5).to_dict()`: the most frequent
   * contracts, most frequent first, each with its transfer count. Ties keep
   * the order of first appearance.
   */
  function TopTokens(contracts: seq<string>): seq<(string, nat)> {
    var sorted := SortDesc(ValueCounts(contracts), CountOf);
    sorted[..if |sorted| < TopTokensLimit then |sorted| else TopTokensLimit]
  }

  /**
   * The value counts sorted by count: each distinct contract exactly once,
   * with its transfer count, most frequent first.
   */
  lemma RankedCountsSpec(contracts: seq<string>)
    ensures var sorted := SortDesc(ValueCounts(contracts), CountOf);
      && |sorted| == NUnique(contracts)
      && SortedDesc(sorted, CountOf)
      && NoDup(sorted)
      && (forall k :: 0 <= k < |sorted| ==> sorted[k].0 in contracts && sorted[k].1 == multiset(contracts)[sorted[k].0])
      && (forall c :: c in contracts ==> exists n :: 0 <= n < |sorted| && sorted[n].0 == c)
  {
    var d := Distinct(contracts);
    DistinctSpec(contracts);
    var counts := ValueCounts(contracts);
    var sorted := SortDesc(counts, CountOf);
    SortDescSpec(counts, CountOf);
    forall k | 0 <= k < |sorted| ensures sorted[k].0 in contracts && sorted[k].1 == multiset(contracts)[sorted[k].0] {
      assert sorted[k] in multiset(counts);
      var m :| 0 <= m < |counts| && counts[m] == sorted[k];
      assert d[m] in d;
    }
    assert NoDup(counts) by {
      forall k, l | 0 <= k < l < |counts| ensures counts[k] != counts[l] {
        assert counts[k].0 == d[k] && counts[l].0 == d[l];
      }
    }
    PermutationNoDup(counts, sorted);
    forall c | c in contracts ensures exists n :: 0 <= n < |sorted| && sorted[n].0 == c {
      RankedCountsCover(contracts, c);
    }
  }

  /** Every contract has its entry, with its count, among the ranked counts. */
  lemma RankedCountsCover(contracts: seq<string>, c: string)
    requires c in contracts
    ensures var sorted := SortDesc(ValueCounts(contracts), CountOf);
      exists n :: 0 <= n < |sorted| && sorted[n] == (c, multiset(contracts)[c])
  {
    var d := Distinct(contracts);
    DistinctSpec(contracts);
    var counts := ValueCounts(contracts);
    var sorted := SortDesc(counts, CountOf);
    SortDescSpec(counts, CountOf);
    var m :| 0 <= m < |d| && d[m] == c;
    assert counts[m] in multiset(sorted);
    var n :| 0 <= n < |sorted| && sorted[n] == counts[m];
  }

  /**
   * At most five contracts, as many as there are distinct contracts up to
   * five, each with its transfer count.
   */
  lemma TopTokensSpec(contracts: seq<string>)
    ensures var r := TopTokens(contracts);
      && |r| == (if NUnique(contracts) < TopTokensLimit then NUnique(contracts) else TopTokensLimit)
      && (forall k :: 0 <= k < |r| ==> r[k].0 in contracts && r[k].1 == multiset(contracts)[r[k].0])
  {
    RankedCountsSpec(contracts);
  }

  /** No contract appears twice among the top tokens, and they are listed most frequent first. */
  lemma TopTokensOrdered(contracts: seq<string>, k: int, l: int)
    requires 0 <= k < l < |TopTokens(contracts)|
    ensures TopTokens(contracts)[k].0 != TopTokens(contracts)[l].0
    ensures TopTokens(contracts)[k].1 >= TopTokens(contracts)[l].1
  {
    var sorted := SortDesc(ValueCounts(contracts), CountOf);
    RankedCountsSpec(contracts);
    assert TopTokens(contracts)[k] == sorted[k] && TopTokens(contracts)[l] == sorted[l];
    assert sorted[k] != sorted[l];
    assert CountOf(sorted[k]) >= CountOf(sorted[l]);
    assert sorted[k].1 == multiset(contracts)[sorted[k].0];
    assert sorted[l].1 == multiset(contracts)[sorted[l].0];
  }

  /** A contract left out of the top tokens has no more transfers than any contract kept. */
  lemma TopTokensNoneMissed(contracts: seq<string>, c: string, k: int)
    requires c in contracts
    requires forall m :: 0 <= m < |TopTokens(contracts)| ==> TopTokens(contracts)[m].0 != c
    requires 0 <= k < |TopTokens(contracts)|
    ensures multiset(contracts)[c] <= TopTokens(contracts)[k].1
  {
    var sorted := SortDesc(ValueCounts(contracts), CountOf);
    SortDescSpec(ValueCounts(contracts), CountOf);
    RankedCountsCover(contracts, c);
    var n :| 0 <= n < |sorted| && sorted[n] == (c, multiset(contracts)[c]);
    PrefixOutranks(sorted, TopTokens(contracts), c, k, n);
  }

  /** An entry missing from a prefix of a ranking counts no more than any entry of the prefix. */
  lemma PrefixOutranks(sorted: seq<(string, nat)>, r: seq<(string, nat)>, c: string, k: int, n: int)
    requires SortedDesc(sorted, CountOf)
    requires |r| <= |sorted| && r == sorted[..|r|]
    requires forall m :: 0 <= m < |r| ==> r[m].0 != c
    requires 0 <= k < |r| && 0 <= n < |sorted| && sorted[n].0 == c
    ensures sorted[n].1 <= r[k].1
  {
    assert r[k] == sorted[k];
    assert k < |r| <= n;
    assert CountOf(sorted[k]) >= CountOf(sorted[n]);
  }

  /** The ranking of the contracts A, A, B, A, C, B is A: 3, B: 2, C: 1. */
  lemma TopTokensExample()
    ensures TopTokens(["A", "A", "B", "A", "C", "B"]) == [("A", 3), ("B", 2), ("C", 1)]
  {
    var cs := ["A", "A", "B", "A", "C", "B"];
    var vc := [("A", 3), ("B", 2), ("C", 1)];
    ExampleValueCounts(cs);
    assert SortDesc(vc[2..], CountOf) == vc[2..];
    assert vc[1..][1..] == vc[2..];
    assert SortDesc(vc[1..], CountOf) == vc[1..];
    assert SortDesc(vc, CountOf) == vc;
  }

  /** The value counts of the example: each contract once, in order of first appearance. */
  lemma ExampleValueCounts(cs: seq<string>)
    requires cs == ["A", "A", "B", "A", "C", "B"]
    ensures ValueCounts(cs) == [("A", 3), ("B", 2), ("C", 1)]
  {
    ExampleDistinct(cs);
    assert multiset(cs)["A"] == 3 && multiset(cs)["B"] == 2 && multiset(cs)["C"] == 1;
  }

  /** The distinct contracts of the example, in order of first appearance. */
  lemma ExampleDistinct(cs: seq<string>)
    requires cs == ["A", "A", "B", "A", "C", "B"]
    ensures Distinct(cs) == ["A", "B", "C"]
  {
    assert Distinct(cs[..1]) == ["A"];
    assert Distinct(cs[..2]) == ["A"] by { assert cs[..2][..1] == cs[..1]; }
    assert Distinct(cs[..3]) == ["A", "B"] by { assert cs[..3][..2] == cs[..2]; }
    assert Distinct(cs[..4]) == ["A", "B"] by { assert cs[..4][..3] == cs[..3]; }
    assert Distinct(cs[..5]) == ["A", "B", "C"] by { assert cs[..5][..4] == cs[..4]; }
    assert cs[..5] == cs[..|cs| - 1];
  }

  // ----- suspicious_tags / safe_tags: distinct contracts per tag_1 -----

  /** A row of a breakdown: a detail tag, its distinct contracts, and their share in percent. */
  datatype TagRow = TagRow(tag: string, count: nat, percent: real)

  /** The distinct contracts of the joined rows whose detail is `tag`. */
  function ContractsTagged(js: seq<Joined>, tag: string): set<string> {
    set i | 0 <= i < |js| && js[i].entry.tag1 == tag :: js[i].transfer.contractAddress
  }

  /** `count / total * 100`, as an exact rational. */
  function Percent(count: nat, total: nat): real {
    if total == 0 then 0.0 else (count as real) / (total as real) * 100.0
  }

  function BreakdownOver(tags: seq<string>, js: seq<Joined>, total: nat): (r: seq<TagRow>)
    ensures |r| == |tags|
  {
    if tags == [] then []
    else
      var count := |ContractsTagged(js, tags[0])|;
      [TagRow(tags[0], count, Percent(count, total))] + BreakdownOver(tags[1..], js, total)
  }

  /**
   * `groupby('tag_1')['contract_address'].nunique()` with its percentage of
   * all distinct contracts of the joined rows; `groupby` orders the tags.
   */
  function Breakdown(js: seq<Joined>): seq<TagRow> {
    BreakdownOver(SortedUnique(JoinedDetails(js), StrLess), js, NUnique(JoinedContracts(js)))
  }

  function SumCounts(rows: seq<TagRow>): nat {
    if rows == [] then 0 else rows[0].count + SumCounts(rows[1..])
  }

  function SumPercents(rows: seq<TagRow>): real {
    if rows == [] then 0.0 else rows[0].percent + SumPercents(rows[1..])
  }

  lemma {:induction false} BreakdownOverAt(tags: seq<string>, js: seq<Joined>, total: nat, k: nat)
    requires k < |tags|
    ensures BreakdownOver(tags, js, total)[k]
      == TagRow(tags[k], |ContractsTagged(js, tags[k])|, Percent(|ContractsTagged(js, tags[k])|, total))
  {
    if k > 0 {
      BreakdownOverAt(tags[1..], js, total, k - 1);
    }
  }

  lemma ContractsTaggedWithin(js: seq<Joined>, tag: string)
    ensures ContractsTagged(js, tag) <= set c | c in JoinedContracts(js)
  {
    forall c | c in ContractsTagged(js, tag) ensures c in JoinedContracts(js) {
      var i :| 0 <= i < |js| && js[i].entry.tag1 == tag && js[i].transfer.contractAddress == c;
      assert JoinedContracts(js)[i] == c;
    }
  }

  /** A detail of the joined rows has at least one and at most all of their distinct contracts. */
  lemma TaggedCountBounds(js: seq<Joined>, tag: string)
    requires tag in JoinedDetails(js)
    ensures 0 < |ContractsTagged(js, tag)| <= NUnique(JoinedContracts(js))
  {
    var i :| 0 <= i < |js| && JoinedDetails(js)[i] == tag;
    SubsetCard({js[i].transfer.contractAddress}, ContractsTagged(js, tag));
    ContractsTaggedWithin(js, tag);
    SubsetCard(ContractsTagged(js, tag), set c | c in JoinedContracts(js));
  }

  /** One row of a breakdown, by its position: its tag's distinct contracts and their share. */
  lemma BreakdownRowSpec(js: seq<Joined>, k: int)
    requires 0 <= k < |Breakdown(js)|
    ensures var r, total := Breakdown(js)[k], NUnique(JoinedContracts(js));
      && r.tag in JoinedDetails(js)
      && r.count == |ContractsTagged(js, r.tag)|
      && 0 < r.count <= total
      && r.percent == Percent(r.count, total)
  {
    StrLessIsStrictTotalOrder();
    var tags := SortedUnique(JoinedDetails(js), StrLess);
    SortedUniqueSpec(JoinedDetails(js), StrLess);
    var total := NUnique(JoinedContracts(js));
    var count := |ContractsTagged(js, tags[k])|;
    BreakdownOverAt(tags, js, total, k);
    assert Breakdown(js)[k] == TagRow(tags[k], count, Percent(count, total));
    assert tags[k] in JoinedDetails(js) by {
      assert tags[k] in tags;
    }
    TaggedCountBounds(js, tags[k]);
  }

  /** A breakdown row's percent is its share of all distinct contracts: percent times total is count times 100. */
  lemma BreakdownShare(js: seq<Joined>, k: int)
    requires 0 <= k < |Breakdown(js)|
    ensures var r, total := Breakdown(js)[k], NUnique(JoinedContracts(js));
      r.percent * (total as real) == (r.count as real) * 100.0
  {
    BreakdownRowSpec(js, k);
    var r := Breakdown(js)[k];
    PercentScaled(r.count, NUnique(JoinedContracts(js)));
  }

  /**
   * One row per distinct detail of the joined rows, ordered by tag, and no
   * rows at all for no joined rows; `BreakdownRowSpec` says what each row
   * holds.
   */
  lemma BreakdownSpec(js: seq<Joined>)
    ensures var b := Breakdown(js);
      && (js == [] <==> b == [])
      && (forall k, l :: 0 <= k < l < |b| ==> StrLess(b[k].tag, b[l].tag))
      && (forall t :: (exists k :: 0 <= k < |b| && b[k].tag == t) <==> t in JoinedDetails(js))
  {
    StrLessIsStrictTotalOrder();
    var tags := SortedUnique(JoinedDetails(js), StrLess);
    SortedUniqueSpec(JoinedDetails(js), StrLess);
    var b, total := Breakdown(js), NUnique(JoinedContracts(js));
    if js != [] {
      assert JoinedDetails(js)[0] in tags;
    }
    forall k | 0 <= k < |b| ensures b[k].tag == tags[k] {
      BreakdownOverAt(tags, js, total, k);
    }
    forall t | t in JoinedDetails(js) ensures exists k :: 0 <= k < |b| && b[k].tag == t {
      var k :| 0 <= k < |tags| && tags[k] == t;
      assert b[k].tag == t;
    }
  }

  lemma PercentScaled(count: nat, total: nat)
    requires total > 0
    ensures Percent(count, total) * (total as real) == (count as real) * 100.0
  {
  }

  // ----- the breakdown's counts cover the distinct contracts -----

  /** Every contract carries a single detail among the joined rows. */
  ghost predicate OneDetailPerContract(js: seq<Joined>) {
    forall i, j :: 0 <= i < |js| && 0 <= j < |js| && js[i].transfer.contractAddress == js[j].transfer.contractAddress
      ==> js[i].entry.tag1 == js[j].entry.tag1
  }

  ghost function UnionTagged(tags: seq<string>, js: seq<Joined>): set<string> {
    if tags == [] then {} else ContractsTagged(js, tags[0]) + UnionTagged(tags[1..], js)
  }

  lemma {:induction false} UnionTaggedMembers(tags: seq<string>, js: seq<Joined>, c: string)
    ensures c in UnionTagged(tags, js) <==>
      exists i :: 0 <= i < |js| && js[i].entry.tag1 in tags && js[i].transfer.contractAddress == c
  {
    if tags != [] {
      UnionTaggedMembers(tags[1..], js, c);
      assert forall t :: t in tags <==> t == tags[0] || t in tags[1..];
    }
  }

  /** The per-tag counts add up to at least the size of their union, and to exactly it when the tags' contracts are disjoint. */
  lemma {:induction false} UnionTaggedCard(tags: seq<string>, js: seq<Joined>, total: nat)
    ensures |UnionTagged(tags, js)| <= SumCounts(BreakdownOver(tags, js, total))
    ensures NoDup(tags) && OneDetailPerContract(js) ==>
      |UnionTagged(tags, js)| == SumCounts(BreakdownOver(tags, js, total))
  {
    if tags != [] {
      UnionTaggedCard(tags[1..], js, total);
      var head, rest := ContractsTagged(js, tags[0]), UnionTagged(tags[1..], js);
      assert |head + rest| + |head * rest| == |head| + |rest|;
      if NoDup(tags) && OneDetailPerContract(js) {
        assert NoDup(tags[1..]);
        forall c | c in head ensures c !in rest {
          var i :| 0 <= i < |js| && js[i].entry.tag1 == tags[0] && js[i].transfer.contractAddress == c;
          UnionTaggedMembers(tags[1..], js, c);
        }
        assert head * rest == {};
      }
    }
  }

  lemma {:induction false} SumPercentsOver(tags: seq<string>, js: seq<Joined>, total: nat)
    requires total > 0
    ensures SumPercents(BreakdownOver(tags, js, total))
      == (SumCounts(BreakdownOver(tags, js, total)) as real) / (total as real) * 100.0
  {
    if tags != [] {
      SumPercentsOver(tags[1..], js, total);
      var c := |ContractsTagged(js, tags[0])|;
      var rest := SumCounts(BreakdownOver(tags[1..], js, total));
      AddShares(c as real, rest as real, total as real);
    }
  }

  lemma AddShares(a: real, b: real, t: real)
    requires t > 0.0
    ensures a / t * 100.0 + b / t * 100.0 == (a + b) / t * 100.0
  {
  }

  lemma UnionOfAllTags(tags: seq<string>, js: seq<Joined>)
    requires forall t :: t in JoinedDetails(js) ==> t in tags
    ensures UnionTagged(tags, js) == set x | x in JoinedContracts(js)
  {
    forall c ensures c in UnionTagged(tags, js) <==> c in JoinedContracts(js) {
      UnionTaggedMembers(tags, js, c);
      if c in JoinedContracts(js) {
        var i :| 0 <= i < |js| && JoinedContracts(js)[i] == c;
        assert JoinedDetails(js)[i] in tags;
      }
      if c in UnionTagged(tags, js) {
        var i :| 0 <= i < |js| && js[i].entry.tag1 in tags && js[i].transfer.contractAddress == c;
        assert JoinedContracts(js)[i] == c;
      }
    }
  }

  /**
   * The breakdown's counts add up to at least the number of distinct
   * contracts, and to exactly that number when each contract has a single
   * detail.
   */
  lemma BreakdownTotals(js: seq<Joined>)
    ensures SumCounts(Breakdown(js)) >= NUnique(JoinedContracts(js))
    ensures OneDetailPerContract(js) ==> SumCounts(Breakdown(js)) == NUnique(JoinedContracts(js))
  {
    StrLessIsStrictTotalOrder();
    var tags := SortedUnique(JoinedDetails(js), StrLess);
    SortedUniqueSpec(JoinedDetails(js), StrLess);
    UnionTaggedCard(tags, js, NUnique(JoinedContracts(js)));
    UnionOfAllTags(tags, js);
  }

  /** When each contract has a single detail, a non-empty breakdown's percentages add up to exactly 100. */
  lemma BreakdownPercents(js: seq<Joined>)
    requires OneDetailPerContract(js) && js != []
    ensures SumPercents(Breakdown(js)) == 100.0
  {
    var tags := SortedUnique(JoinedDetails(js), StrLess);
    var total := NUnique(JoinedContracts(js));
    BreakdownTotals(js);
    NonEmptyHasValue(JoinedContracts(js));
    SumPercentsOver(tags, js, total);
    assert SumCounts(Breakdown(js)) == total;
    WholeShare(total as real);
  }

  lemma WholeShare(t: real)
    requires t > 0.0
    ensures t / t * 100.0 == 100.0
  {
  }
}
