# Fraud Explorer core, modelled in Dafny

Fraud Explorer is a dashboard that looks up the recent token transfers of an
address on a chain. It flags transfers of contracts listed in a suspicious
token directory or in a safe token directory. It then summarises them: counts,
daily timelines, top tokens, fraud-type breakdowns and a paged list of recent
transfers with coloured status badges. It also keeps a per-session search
history. This project models that core, `BASIC_ASSESMENT.py`, and proves
properties of the model.

Modules, in dependency order:

- `Wrappers`: `Option`.
- `Text`: ASCII lower-casing and code-point string order.
- `Sequences`: distinct values, a stable descending sort, sorted unique values and cardinality facts.
- `Records`: the transfer row, the directory row, the joined row and the calendar day of a timestamp.
- `Classifier`: `identify_suspicious_transfers` / `identify_safe_transfers`.
  - The inner join is modelled row by row.
  - A provenance function gives the (transfer, directory row) pair behind each joined row.
  - A `TransferFrame` class is lower-cased in place.
- `Aggregator`: the summary, the activity and unique-token timelines, `top_tokens` and the `tag_1` breakdowns.
- `Projection`: the `recent_transfers` list and the loop that builds it.
- `Analysis`: `analyze_transfers_data` as a whole, with its worked examples.
- `SearchHistory`: the session cookie store and `add_to_search_history`.
- `Pagination`: five rows per page in the two paged tables.
- `Badges`: the status and detail badge colours.

The directories are parameters. Each one is the directory the loader returned
for the chain of the first transfer (possibly empty). The current time of a
search is a parameter too.

These facts about the code shape the model:

- The code joins against the directory as loaded, without de-duplicating it.
  A directory that lists a contract twice yields two joined rows per transfer
  of that contract (`Analysis.DuplicateDirectoryRowExample`).
- `top_tokens` takes `value_counts` of the frame in query order, not of the
  newest-first list, so ties are not broken by recency. The model keeps the
  order of first appearance for ties, and the proved properties do not depend
  on it.
- `suspicious_senders` and `safe_senders` count distinct values of the
  `address` column. The transfers query sets it to the sender of an inbound
  transfer and to the recipient of an outbound one, so despite the names the
  recipients of flagged outbound transfers are counted too
  (`Analysis.OutboundRecipientCounted`).
- A recent record's `counterparty` comes from the `target` column, which the
  query sets to the searched address itself. It is the searched side of the
  transfer, not the other party.
- When no transfer matches a directory, the breakdown is empty. The
  `Unknown`/100% row never appears: the loader always supplies a `tag_1`
  column, so that branch cannot run.

The suspicious tokens table colours the raw directory tag. The record badge
colours the tag after an empty one has fallen back to "Caution". The two
therefore disagree for an empty tag (`Badges.StatusColoursAgree`).

## Model

| member | source | states |
|---|---|---|
| Text.LowerIdempotent | BASIC_ASSESMENT.py:183-184 | lower-casing twice equals lower-casing once, so re-running the classifier's normalisation changes nothing |
| Classifier.TransferFrame.Identify | BASIC_ASSESMENT.py:172-201 | returns the join of the lower-cased frame and directory; lower-cases the frame in place exactly when both are non-empty, and leaves it unchanged otherwise |
| Classifier.LowerAll | BASIC_ASSESMENT.py:183 | the frame with every contract address lower-cased; one row per transfer |
| Classifier.LowerDirectory | BASIC_ASSESMENT.py:184 | the directory with every contract address lower-cased; one row per directory row |
| Classifier.Matches | BASIC_ASSESMENT.py:183-190 | a transfer and a directory row name the same contract, ignoring case |
| Classifier.MergeRow | BASIC_ASSESMENT.py:187-192 | the joined rows of one transfer: one per directory row with the same contract, in directory order |
| Classifier.MergeFrom | BASIC_ASSESMENT.py:187-192 | the joined rows of the transfers from a given index on, transfer order first, then directory order |
| Classifier.Identified | BASIC_ASSESMENT.py:172-236 | no rows for an empty frame or an empty directory; otherwise the inner join of the lower-cased frame and the lower-cased directory on the contract address (its properties: IdentifiedProvenance, JoinCardinality, JoinRows) |
| Classifier.LoweredBy | BASIC_ASSESMENT.py:181-183 | the frame as a classification leaves it: lower-cased exactly when frame and directory are both non-empty (see ClassifiedRows, LowerAllIdempotent) |
| Classifier.IdentifiedProvenance | BASIC_ASSESMENT.py:187-192 | each joined row comes from exactly one (transfer, directory row) pair whose contracts agree ignoring case; every such pair yields a row; rows follow transfer order, then directory order |
| Classifier.JoinCardinality | BASIC_ASSESMENT.py:187-192 | the join has exactly as many rows as there are matching (transfer, directory row) pairs; duplicates are not collapsed |
| Classifier.JoinRows | BASIC_ASSESMENT.py:183-192 | a row is in the join if and only if it is a lower-cased transfer paired with a lower-cased directory row naming the same contract ignoring case |
| Classifier.JoinedAddressesAgree | BASIC_ASSESMENT.py:187-192 | both sides of a joined row carry the same contract address, and it is lower case |
| Classifier.IdentifiedAfterLowering | BASIC_ASSESMENT.py:216-225 | the safe join of the frame already lower-cased by the suspicious step equals the safe join of the original frame; lower-casing twice leaves the frame as lower-casing once |
| Classifier.LowerAllIdempotent | BASIC_ASSESMENT.py:216 | lower-casing the frame's contract column a second time changes nothing |
| Aggregator.Summarize | BASIC_ASSESMENT.py:662-672 | the summary: the row counts of the frame and the two joins; the distinct contracts of each; and the distinct `address` values of the two joins. `address` is the counterparty: the sender of an inbound transfer, the recipient of an outbound one (bounds in SummaryBounds and SummarySpec; see OutboundRecipientCounted) |
| Aggregator.SummaryBounds | BASIC_ASSESMENT.py:662-672 | unique tokens never exceed transfers; zero transfers if and only if zero tokens; flagged tokens and senders never exceed flagged transfers; flagged tokens are zero exactly when there are no flagged transfers; flagged tokens never exceed unique tokens when every joined transfer is a frame row |
| Aggregator.FlaggedContractsSubset | BASIC_ASSESMENT.py:619 | the distinct contracts of joined rows whose transfers are frame rows are no more than the frame's distinct contracts |
| Aggregator.ActivityOver | BASIC_ASSESMENT.py:532-538 | for each given date, the transfers and the suspicious rows on that day, 0 when there are none; one row per date (see ActivityRowSpec) |
| Aggregator.ActivityTimeline | BASIC_ASSESMENT.py:531-539 | the activity rows over the distinct transfer days in ascending order (see ActivityTimelineSpec, ActivityTotals) |
| Aggregator.DatesSpec | BASIC_ASSESMENT.py:531-539 | the timeline dates are strictly ascending, pairwise distinct, and exactly the days of the transfers |
| Aggregator.ActivityRowSpec | BASIC_ASSESMENT.py:531-539 | each activity row's date is a day of some transfer; its "All Transfers" count is that day's transfer count (positive); its "Suspicious Transfers" count is that day's suspicious-row count, zero exactly when no suspicious row falls on that day |
| Aggregator.ActivityTimelineSpec | BASIC_ASSESMENT.py:538-539 | one row per distinct day, ascending by date, and every transfer's day has a row |
| Aggregator.ActivityTotals | BASIC_ASSESMENT.py:538 | the left join drops nothing: the columns sum to the number of transfers and the number of suspicious rows |
| Aggregator.TokensOver | BASIC_ASSESMENT.py:542-547 | for each given date, the distinct contracts of the transfers and of the suspicious rows on that day; one row per date (see TokensRowSpec) |
| Aggregator.TokensTimeline | BASIC_ASSESMENT.py:541-548 | the token rows over the distinct transfer days in ascending order (see TokensTimelineSpec) |
| Aggregator.TokensRowSpec | BASIC_ASSESMENT.py:542-548 | each token-timeline row has the activity row's date and counts the distinct contracts of all transfers and of the suspicious rows that day; tokens are positive and never exceed that day's transfers; suspicious tokens never exceed tokens when every joined transfer is a frame row |
| Aggregator.TokensTimelineSpec | BASIC_ASSESMENT.py:542-548 | the token timeline lines up with the activity timeline row for row, with the per-row facts of TokensRowSpec |
| Aggregator.ContractsOnAtMostCount | BASIC_ASSESMENT.py:542 | the distinct contracts on a day never exceed the transfers on that day |
| Aggregator.ValueCounts | BASIC_ASSESMENT.py:562 | each distinct contract, in order of first appearance, with its number of transfers; as many entries as distinct contracts |
| Aggregator.TopTokens | BASIC_ASSESMENT.py:562 | the value counts sorted by count, most first, cut to five (see TopTokensSpec, TopTokensOrdered, TopTokensNoneMissed) |
| Aggregator.RankedCountsSpec | BASIC_ASSESMENT.py:562 | the value counts sorted by count hold each distinct contract exactly once, with its transfer count, most frequent first |
| Aggregator.TopTokensSpec | BASIC_ASSESMENT.py:562 | top tokens has min(5, distinct contracts) entries, each a contract of the frame with its exact transfer count |
| Aggregator.TopTokensOrdered | BASIC_ASSESMENT.py:562 | no contract appears twice in top tokens, and the counts do not increase |
| Aggregator.TopTokensNoneMissed | BASIC_ASSESMENT.py:562 | a contract left out of top tokens has no more transfers than any contract kept |
| Aggregator.TopTokensExample | BASIC_ASSESMENT.py:562 | the contracts A, A, B, A, C, B rank A: 3, B: 2, C: 1 |
| Aggregator.Percent | BASIC_ASSESMENT.py:633 | a count as a percentage of the total, 0 when the total is 0 |
| Aggregator.BreakdownOver | BASIC_ASSESMENT.py:625-633 | for each given tag, its distinct contracts and their percentage of the given total; one row per tag (see BreakdownRowSpec) |
| Aggregator.Breakdown | BASIC_ASSESMENT.py:625-650 | the breakdown rows over the sorted distinct details, against all distinct contracts of the joined rows (see BreakdownSpec, BreakdownPercents) |
| Aggregator.BreakdownRowSpec | BASIC_ASSESMENT.py:625-633 | each breakdown row names a detail of the joined rows; its count is that detail's distinct contracts, positive and at most all distinct contracts; its percent is the count over that total, times 100 |
| Aggregator.BreakdownShare | BASIC_ASSESMENT.py:632-633 | a breakdown row's percent times the number of distinct contracts equals its count times 100 |
| Aggregator.BreakdownSpec | BASIC_ASSESMENT.py:646-650 | the breakdown is empty exactly when there are no joined rows; tags are strictly ascending; a tag appears if and only if it is a detail of some joined row |
| Aggregator.BreakdownTotals | BASIC_ASSESMENT.py:625-633 | the breakdown counts add up to at least the distinct contracts, and to exactly that number when each contract has a single detail |
| Aggregator.BreakdownPercents | BASIC_ASSESMENT.py:647-650 | when each contract has a single detail, the percents of a non-empty breakdown add up to exactly 100 |
| Projection.SameTransfer | BASIC_ASSESMENT.py:580-582 | a joined row has the record's transaction hash and contract address |
| Projection.FirstMatch | BASIC_ASSESMENT.py:580-586 | finds the first joined row with the record's transaction hash and contract; there is none if and only if no row has both |
| Projection.OrDefault | BASIC_ASSESMENT.py:613-614 | an empty tag falls back to the default; a non-empty tag is kept; the result is never empty |
| Projection.ProjectRow | BASIC_ASSESMENT.py:572-615 | one record of `recent_transfers_list`, built from the first suspicious match, else the first safe match (see ProjectRowSpec) |
| Projection.NewestFirst | BASIC_ASSESMENT.py:569 | the transfers sorted by timestamp, newest first (see RecentOrder) |
| Projection.RecentList | BASIC_ASSESMENT.py:569-615 | the projected record of each transfer, newest first; one record per transfer |
| Projection.ProjectRowSpec | BASIC_ASSESMENT.py:572-615 | a record is suspicious if and only if the suspicious join has a row of its transfer; it is safe if and only if it is not suspicious and the safe join has one; never both; tags come from the first such row, else "Caution"/"No Detail"; a missing symbol or counterparty becomes "Unknown"; hash, type, contract and time are the transfer's |
| Projection.BuildRecentTransfers | BASIC_ASSESMENT.py:569-615 | the loop builds one record per transfer, in newest-first order, each the projection of that transfer |
| Projection.RecentOrder | BASIC_ASSESMENT.py:569 | the newest-first order is a permutation of the frame, with timestamps not increasing |
| Analysis.Classified | BASIC_ASSESMENT.py:523-527 | the frame after the suspicious and then the safe classification (see ClassifiedRows) |
| Analysis.Aggregate | BASIC_ASSESMENT.py:530-682 | the result dictionary built from the classified frame and the two joins (see SummarySpec, RecentTransfersSpec) |
| Analysis.AnalysisOf | BASIC_ASSESMENT.py:517-519 | no result exactly when there are no transfers; the raw data is the frame as both classifications left it |
| Analysis.Analyze | BASIC_ASSESMENT.py:517-682 | returns AnalysisOf of the frame's rows on entry, and leaves the frame lower-cased when either join ran |
| Analysis.ClassifiedRows | BASIC_ASSESMENT.py:183 | after both classifications, the frame is the lower-cased transfers if either directory was non-empty, and the original transfers otherwise |
| Analysis.FlaggedIff | BASIC_ASSESMENT.py:579-584 | a lower-cased transfer has a row in a join if and only if the directory lists its contract, ignoring case |
| Analysis.RecordClassification | BASIC_ASSESMENT.py:579-602 | the record of the i-th transfer is suspicious if and only if the suspicious directory lists its contract ignoring case; it is safe if and only if it is not suspicious and the safe directory lists its contract |
| Analysis.RecentTransfersSpec | BASIC_ASSESMENT.py:569-615 | the recent list of a result has one record per transfer, with times not increasing |
| Analysis.RecentRecordSpec | BASIC_ASSESMENT.py:572-615 | each record of the recent list carries the hash and time of some transfer; it is suspicious if and only if the suspicious directory lists that transfer's contract ignoring case; it is safe if and only if it is not suspicious and the safe directory lists it |
| Analysis.JoinedRowsInFrame | BASIC_ASSESMENT.py:187-192 | the transfer of every suspicious or safe row is a row of the classified frame |
| Analysis.SummarySpec | BASIC_ASSESMENT.py:662-672 | total is the transfer count; the suspicious and safe counts are the numbers of matching pairs; there is at least one unique token; flagged tokens are at most the unique tokens and at most the flagged transfers; the activity columns sum to the total and the suspicious count |
| Analysis.CaseInsensitiveExample | BASIC_ASSESMENT.py:183-192 | transfers of "0xABC" and "0xabc" against a directory listing "0xabc" are both suspicious, with detail "Phishing" |
| Analysis.TokensVersusTransfersExample | BASIC_ASSESMENT.py:666-667 | three transfers of one flagged contract count as three suspicious transfers and one suspicious token |
| Analysis.OutboundRecipientCounted | BASIC_ASSESMENT.py:668 | one flagged outbound transfer counts its recipient as a suspicious "sender": `suspicious_senders` is 1 |
| Analysis.DuplicateDirectoryRowExample | BASIC_ASSESMENT.py:187-192 | one transfer against a directory listing its contract twice gives a suspicious count of 2 |
| SearchHistory.Session.GetCookie | BASIC_ASSESMENT.py:13-17 | returns the stored value for a present name and the default for an absent one |
| SearchHistory.Session.SetCookie | BASIC_ASSESMENT.py:19-21 | stores the value under the name and changes no other cookie |
| SearchHistory.Session.DeleteCookie | BASIC_ASSESMENT.py:23-26 | removes the name, if present, and changes no other cookie |
| SearchHistory.Session.LoadSearchHistory | BASIC_ASSESMENT.py:250-253 | returns the stored history, or the empty history when none is stored |
| SearchHistory.Session.SaveSearchHistory | BASIC_ASSESMENT.py:256-263 | stores the history, which loads back unchanged, and returns true |
| SearchHistory.Session.AddToSearchHistory | BASIC_ASSESMENT.py:266-296 | stores AddedToHistory of the loaded history and the new entry, changes no other cookie, and keeps the history cookie well-typed |
| SearchHistory.AddedToHistory | BASIC_ASSESMENT.py:278-293 | the earliest entry of the same search removed, the new entry in front, the list cut to 100 entries (see AddedShape, AddedRestReplacing, AddedRestNew, AddedKeepsOneEntryPerSearch) |
| SearchHistory.SameSearch | BASIC_ASSESMENT.py:281 | an entry records the same address, ignoring case, on the same chain |
| SearchHistory.Occurrences | BASIC_ASSESMENT.py:279-282 | every listed position is an index of the history |
| SearchHistory.OccurrencesSpec | BASIC_ASSESMENT.py:279-282 | `existing_entries` lists a position if and only if that entry records the same search (address ignoring case, same chain), in increasing order |
| SearchHistory.FirstOccurrence | BASIC_ASSESMENT.py:285-286 | the entry popped is the earliest entry of the same search |
| SearchHistory.AddedShape | BASIC_ASSESMENT.py:284-293 | the new entry is first; the history has at most 100 entries; its length is min(100, n) when the search was already present and min(100, n + 1) otherwise |
| SearchHistory.AddedRestReplacing | BASIC_ASSESMENT.py:284-293 | when entry `i` is the earliest of the same search, the new entry is followed by the earlier entries in their order with only entry `i` skipped |
| SearchHistory.AddedRestNew | BASIC_ASSESMENT.py:284-293 | for a search not yet in the history, the new entry is followed by all earlier entries in their order, up to the limit |
| SearchHistory.AddedKeepsOneEntryPerSearch | BASIC_ASSESMENT.py:278-293 | if no two entries record the same search before an addition, none do after it |
| SearchHistory.SearchAgain | BASIC_ASSESMENT.py:284-289 | repeating a search replaces the front entry and keeps the rest |
| Pagination.TotalPages | BASIC_ASSESMENT.py:1163-1165 | total pages is the fewest pages of five that hold all rows |
| Pagination.StartIndex | BASIC_ASSESMENT.py:1201 | the first row of a page, five rows per earlier page |
| Pagination.EndIndex | BASIC_ASSESMENT.py:1202 | the end of a page: five rows past its start, but never past the last row |
| Pagination.PageOf | BASIC_ASSESMENT.py:1200-1202 | a page offered by the selector shows between one and five rows, exactly five on every page but the last, namely the rows from its start index on |
| Pagination.PagesFrom | BASIC_ASSESMENT.py:1279-1280 | the pages from a given page to the last, concatenated (see PagesFromSpec, AllPages) |
| Pagination.PagesFromSpec | BASIC_ASSESMENT.py:1278-1280 | the pages from a given page on show exactly the rows from that page's start index on |
| Pagination.AllPages | BASIC_ASSESMENT.py:1217 | paging through every page shows each row once, in order |
| Badges.StatusColour | BASIC_ASSESMENT.py:1228 | red for a non-empty tag other than "Caution" unless safe, green when safe, yellow otherwise (see RecordStatusColour) |
| Badges.DetailColour | BASIC_ASSESMENT.py:1238 | red for "Phishing", "Fake_Native" and "Fake_Stablecoin", navy otherwise (see RecordDetailColour) |
| Badges.TokenStatusColour | BASIC_ASSESMENT.py:1303 | red for a tag other than "Caution", yellow for "Caution" (see StatusColoursAgree) |
| Badges.RecordStatusColour | BASIC_ASSESMENT.py:1227-1228 | the status badge is green exactly for safe records, red exactly for suspicious records with a tag other than "Caution", and yellow otherwise |
| Badges.RecordDetailColour | BASIC_ASSESMENT.py:1237-1238 | a red detail badge appears only on a record one of the joins flagged |
| Badges.StatusColoursAgree | BASIC_ASSESMENT.py:1302-1303 | a suspicious record's status badge has the colour the suspicious tokens table gives the raw tag of the first joined row of its transfer if and only if that tag is not empty |

## Left out

- Data sources:
  - The directory loaders `load_suspicious_tokens_by_blockchain` and `load_safe_tokens_by_blockchain`, with their database paging: network I/O. Their results are parameters instead.
  - `get_token_transfers` and its query: remote I/O. Its result is the input frame.
- The Streamlit page and the charts, apart from the paging arithmetic and the badge colours: presentation only.
- Labels and formatting:
  - The `.title()` badge labels: display text.
  - The "Showing transfers a-b of n" caption: display text.
  - `get_mock_data`: a fixed demonstration dataset.
- Error paths and I/O side effects:
  - The `try`/`except` wrappers that return an empty frame or `None` on an exception, and their error messages. Nothing in the model raises.
  - The debug `print` calls.
- `Text.Lower`: lower-cases ASCII letters only. Python's `str.lower` also folds other Unicode letters.
- `Aggregator.Breakdown`:
  - Suspicious percentages are kept as exact rationals; the model does not apply `.round(1)`.
  - pandas drops NaN `tag_1` groups; missing cells are not modelled, since every directory cell is a string.
- `Projection.ProjectRow`:
  - `time` is the timestamp as a number, not the `strftime` text.
  - A NaN tag is not modelled; only empty tags fall back.
- `Records.Day`: calendar days are derived from timestamps in seconds as whole days since the epoch. Time zones are not modelled.
- The `date` column added to the frame for the timelines is derived from the timestamp and not stored.
- Values computed and never returned are left out: `transfers_in`, `transfers_out`, `first_activity` and `last_activity`.
- `Aggregator.TopTokens`: pandas leaves the order of equal counts to its sort. The model uses a stable sort, and the proved properties do not depend on tie order.
- `Projection.NewestFirst`: as for top tokens, the order of equal timestamps is not pinned, and the proved properties do not depend on it.
- `Classifier.IdentifiedProvenance`: the row order of the join, transfer order first and then directory order, is the inner-merge order pandas documents from version 2.2 on. Earlier versions group the rows by key. Nothing pins the version. Only the display order of the suspicious table depends on it: `FirstMatch` picks the same row within a key either way.
- Duplicated joined columns: pandas suffixes the two `blockchain` columns of a join `_x` and `_y`. The joined row keeps both records whole instead.
- `SearchHistory.Session.SaveSearchHistory`: storing a session value cannot fail in the model, so the `False` branch is not modelled.
- `SearchHistory.Session.SetCookie`: the `max_age` argument is ignored, as it is in the source.
- `SearchHistory.Session.AddToSearchHistory` requires `Valid()`: any value stored under `search_history` must be a history. The application stores nothing else there.
- `Pagination.PageOf` requires a page in the selector's range `1..total_pages`. The dashboard shows a paged table only when it has rows: recent transfers exist whenever a result exists, and the suspicious table is shown only when the suspicious count is positive.
