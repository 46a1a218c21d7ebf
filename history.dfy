/**
 * The search history: the session's cookie store (`get_cookie`,
 * `set_cookie`, `delete_cookie` over the session state) and
 * `add_to_search_history`, which keeps at most one entry per
 * (address ignoring case, chain), newest first, and at most 100 entries.
 */
module SearchHistory {
  import opened Wrappers
  import opened Text

  /** One search: when (the ISO timestamp, supplied by the caller), which address, which chain. */
  datatype SearchEntry = SearchEntry(timestamp: string, address: string, blockchain: string)

  /**
   * The values the application keeps in the session: the search history,
   * the `has_searched` flag, and the stored analysis results, whose contents
   * the history does not depend on.
   */
  datatype Cookie = HistoryCookie(entries: seq<SearchEntry>) | FlagCookie(flag: bool) | ResultsCookie

  const HistoryKey: string := "search_history"
  const HistoryLimit: nat := 100

  /** The entry records a search of `address` (ignoring case) on `blockchain`. */
  predicate SameSearch(entry: SearchEntry, address: string, blockchain: string) {
    Lower(entry.address) == Lower(address) && entry.blockchain == blockchain
  }

  /** The positions of the entries recording that search, in increasing order (`existing_entries`). */
  function Occurrences(h: seq<SearchEntry>, address: string, blockchain: string): (r: seq<int>)
    ensures forall k :: 0 <= k < |r| ==> 0 <= r[k] < |h|
  {
    if h == [] then []
    else
      var init := Occurrences(h[..|h| - 1], address, blockchain);
      if SameSearch(h[|h| - 1], address, blockchain) then init + [|h| - 1] else init
  }

  /**
   * The history after adding `e`: the first earlier entry of the same
   * search removed, `e` put in front, and the list cut to its first 100
   * entries.
   */
  function AddedToHistory(h: seq<SearchEntry>, e: SearchEntry): seq<SearchEntry> {
    var existing := Occurrences(h, e.address, e.blockchain);
    var kept := if existing == [] then h else h[..existing[0]] + h[existing[0] + 1..];
    var added := [e] + kept;
    if |added| > HistoryLimit then added[..HistoryLimit] else added
  }

  /** The session state behind the cookie helpers. */
  class Session {
    var cookies: map<string, Cookie>

    /** Whatever is stored under the history's name is a history. */
    ghost predicate Valid()
      reads this
    {
      HistoryKey in cookies ==> cookies[HistoryKey].HistoryCookie?
    }

    constructor ()
      ensures Valid()
      ensures cookies == map[]
    {
      cookies := map[];
    }

    /** `get_cookie(name, default)`. */
    function GetCookie(name: string, default: Cookie): (c: Cookie)
      reads this
      ensures name in cookies ==> c == cookies[name]
      ensures name !in cookies ==> c == default
    {
      if name in cookies then cookies[name] else default
    }

    /** `set_cookie(name, value)`: the maximum age is not modelled. */
    method SetCookie(name: string, value: Cookie)
      modifies this
      ensures cookies == old(cookies)[name := value]
    {
      cookies := cookies[name := value];
    }

    /** `delete_cookie(name)`: a missing name is not an error. */
    method DeleteCookie(name: string)
      modifies this
      ensures cookies == old(cookies) - {name}
    {
      cookies := cookies - {name};
    }

    /** `load_search_history()`: the stored history, or none. */
    function LoadSearchHistory(): (h: seq<SearchEntry>)
      reads this
      requires Valid()
      ensures HistoryKey !in cookies ==> h == []
      ensures HistoryKey in cookies ==> cookies[HistoryKey] == HistoryCookie(h)
    {
      GetCookie(HistoryKey, HistoryCookie([])).entries
    }

    /** `save_search_history(history)`: storing in the session cannot fail, so the result is always true. */
    method SaveSearchHistory(history: seq<SearchEntry>) returns (ok: bool)
      modifies this
      ensures cookies == old(cookies)[HistoryKey := HistoryCookie(history)]
      ensures Valid() && LoadSearchHistory() == history
      ensures ok
    {
      SetCookie(HistoryKey, HistoryCookie(history));
      ok := true;
    }

    /** `add_to_search_history(address, blockchain)`, with the current time `now` passed in. */
    method AddToSearchHistory(address: string, blockchain: string, now: string)
      requires Valid()
      modifies this
      ensures Valid()
      ensures cookies == old(cookies)[HistoryKey := HistoryCookie(AddedToHistory(old(LoadSearchHistory()), SearchEntry(now, address, blockchain)))]
    {
      var entry := SearchEntry(now, address, blockchain);
      var history := LoadSearchHistory();
      ghost var h0 := history;
      var existing: seq<int> := [];
      var i := 0;
      while i < |history|
        invariant 0 <= i <= |history|
        invariant existing == Occurrences(history[..i], address, blockchain)
      {
        assert history[..i + 1][..i] == history[..i];
        if SameSearch(history[i], address, blockchain) {
          existing := existing + [i];
        }
        i := i + 1;
      }
      assert history[..i] == history;
      if existing != [] {
        history := history[..existing[0]] + history[existing[0] + 1..];
      }
      history := [entry] + history;
      if |history| > HistoryLimit {
        history := history[..HistoryLimit];
      }
      assert history == AddedToHistory(h0, entry);
      var _ := SaveSearchHistory(history);
    }
  }

  // ----- properties of the history -----

  /** `existing_entries` lists exactly the positions of that search, in increasing order. */
  lemma {:induction false} OccurrencesSpec(h: seq<SearchEntry>, address: string, blockchain: string)
    ensures var r := Occurrences(h, address, blockchain);
      && (forall i :: 0 <= i < |h| ==> (i in r <==> SameSearch(h[i], address, blockchain)))
      && (forall k, l :: 0 <= k < l < |r| ==> r[k] < r[l])
  {
    if h != [] {
      var init := h[..|h| - 1];
      OccurrencesSpec(init, address, blockchain);
      forall i | 0 <= i < |h| - 1 ensures h[i] == init[i] { }
    }
  }

  /** The first listed position is the earliest entry of that search. */
  lemma FirstOccurrence(h: seq<SearchEntry>, address: string, blockchain: string)
    requires Occurrences(h, address, blockchain) != []
    ensures var i := Occurrences(h, address, blockchain)[0];
      && 0 <= i < |h| && SameSearch(h[i], address, blockchain)
      && forall j :: 0 <= j < i ==> !SameSearch(h[j], address, blockchain)
  {
    var r := Occurrences(h, address, blockchain);
    OccurrencesSpec(h, address, blockchain);
    assert r[0] in r;
  }

  lemma NoOccurrences(h: seq<SearchEntry>, address: string, blockchain: string)
    requires forall i :: 0 <= i < |h| ==> !SameSearch(h[i], address, blockchain)
    ensures Occurrences(h, address, blockchain) == []
  {
    OccurrencesSpec(h, address, blockchain);
  }

  /** The new search comes first, and the history never exceeds 100 entries. */
  lemma AddedShape(h: seq<SearchEntry>, e: SearchEntry)
    ensures var r := AddedToHistory(h, e);
      && r != [] && r[0] == e
      && |r| <= HistoryLimit
      && |r| == (var n := if (exists i :: 0 <= i < |h| && SameSearch(h[i], e.address, e.blockchain)) then |h| else |h| + 1;
                 if n > HistoryLimit then HistoryLimit else n)
  {
    OccurrencesSpec(h, e.address, e.blockchain);
    var existing := Occurrences(h, e.address, e.blockchain);
    if exists i :: 0 <= i < |h| && SameSearch(h[i], e.address, e.blockchain) {
      var i :| 0 <= i < |h| && SameSearch(h[i], e.address, e.blockchain);
      assert i in existing;
    }
    if existing != [] {
      assert existing[0] in existing;
    }
  }

  /**
   * After the new entry come the earlier entries in their order, without
   * the earliest entry `i` of the same search, up to the limit.
   */
  lemma AddedRestReplacing(h: seq<SearchEntry>, e: SearchEntry, i: int, k: int)
    requires 0 <= i < |h| && SameSearch(h[i], e.address, e.blockchain)
    requires forall j :: 0 <= j < i ==> !SameSearch(h[j], e.address, e.blockchain)
    requires 1 <= k < |AddedToHistory(h, e)|
    ensures var r := AddedToHistory(h, e);
      if k - 1 < i then r[k] == h[k - 1] else k < |h| && r[k] == h[k]
  {
    OccurrencesSpec(h, e.address, e.blockchain);
    var existing := Occurrences(h, e.address, e.blockchain);
    assert i in existing;
    FirstOccurrence(h, e.address, e.blockchain);
    var first := existing[0];
    assert first == i by {
      assert !(first < i);
      assert !(i < first);
    }
    var kept := h[..i] + h[i + 1..];
    var r := AddedToHistory(h, e);
    assert r == ([e] + kept)[..|r|];
    assert r[k] == kept[k - 1];
  }

  /** A new search keeps all earlier entries after it, in their order, up to the limit. */
  lemma AddedRestNew(h: seq<SearchEntry>, e: SearchEntry, k: int)
    requires forall j :: 0 <= j < |h| ==> !SameSearch(h[j], e.address, e.blockchain)
    requires 1 <= k < |AddedToHistory(h, e)|
    ensures k - 1 < |h| && AddedToHistory(h, e)[k] == h[k - 1]
  {
    NoOccurrences(h, e.address, e.blockchain);
    var r := AddedToHistory(h, e);
    assert r == ([e] + h)[..|r|];
  }

  /** No two entries record the same search (address ignoring case, chain). */
  ghost predicate OneEntryPerSearch(h: seq<SearchEntry>) {
    forall i, j :: 0 <= i < j < |h| ==> !SameSearch(h[j], h[i].address, h[i].blockchain)
  }

  /** Adding a search keeps one entry per search. */
  lemma AddedKeepsOneEntryPerSearch(h: seq<SearchEntry>, e: SearchEntry)
    requires OneEntryPerSearch(h)
    ensures OneEntryPerSearch(AddedToHistory(h, e))
  {
    var r := AddedToHistory(h, e);
    AddedShape(h, e);
    forall i, j | 0 <= i < j < |r| ensures !SameSearch(r[j], r[i].address, r[i].blockchain) {
      var b := SourceOf(h, e, j);
      SourceSpec(h, e, j);
      if i == 0 {
        if SameSearch(h[b], e.address, e.blockchain) {
          OccurrencesSpec(h, e.address, e.blockchain);
          var existing := Occurrences(h, e.address, e.blockchain);
          assert b in existing;
          assert existing[0] in existing;
          SameSearchSymmetric(h, b, existing[0], e);
        }
      } else {
        SourceSpec(h, e, i);
        SourceOrder(h, e, i, j);
      }
    }
  }

  /** The position in the earlier history of entry `k` (after the first) of the new one. */
  ghost function SourceOf(h: seq<SearchEntry>, e: SearchEntry, k: int): int {
    var existing := Occurrences(h, e.address, e.blockchain);
    if existing == [] || k - 1 < existing[0] then k - 1 else k
  }

  /** Entry `k` of the new history is the earlier entry at `SourceOf`, which is not the one replaced. */
  lemma SourceSpec(h: seq<SearchEntry>, e: SearchEntry, k: int)
    requires 1 <= k < |AddedToHistory(h, e)|
    ensures var m, existing := SourceOf(h, e, k), Occurrences(h, e.address, e.blockchain);
      && 0 <= m < |h| && AddedToHistory(h, e)[k] == h[m]
      && (existing != [] ==> m != existing[0])
  {
    OccurrencesSpec(h, e.address, e.blockchain);
    var existing := Occurrences(h, e.address, e.blockchain);
    if existing == [] {
      AddedRestNew(h, e, k);
    } else {
      FirstOccurrence(h, e.address, e.blockchain);
      AddedRestReplacing(h, e, existing[0], k);
    }
  }

  /** Later entries of the new history come from later entries of the earlier one. */
  lemma SourceOrder(h: seq<SearchEntry>, e: SearchEntry, i: int, j: int)
    requires 1 <= i < j < |AddedToHistory(h, e)|
    ensures SourceOf(h, e, i) < SourceOf(h, e, j)
  {
  }

  /** Two entries recording the search of `e` record the same search as each other. */
  lemma SameSearchSymmetric(h: seq<SearchEntry>, m: int, n: int, e: SearchEntry)
    requires 0 <= m < |h| && 0 <= n < |h|
    requires SameSearch(h[m], e.address, e.blockchain) && SameSearch(h[n], e.address, e.blockchain)
    ensures SameSearch(h[m], h[n].address, h[n].blockchain) && SameSearch(h[n], h[m].address, h[m].blockchain)
  {
  }

  /** Searching the same address and chain again replaces the front entry and keeps the rest. */
  lemma SearchAgain(h: seq<SearchEntry>, e: SearchEntry, e2: SearchEntry)
    requires SameSearch(e2, e.address, e.blockchain)
    ensures AddedToHistory(AddedToHistory(h, e), e2) == [e2] + AddedToHistory(h, e)[1..]
  {
    var r := AddedToHistory(h, e);
    AddedShape(h, e);
    OccurrencesSpec(r, e2.address, e2.blockchain);
    var existing := Occurrences(r, e2.address, e2.blockchain);
    assert 0 in existing;
    FirstOccurrence(r, e2.address, e2.blockchain);
  }
}
