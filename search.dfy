/** The search flow of the page: `searchHandler` decides what to search for and
    `searchGitHubNewTab` records the search and names the page to open. */
module Search {
  import opened Wrappers
  import opened Query
  import opened History

  /** `searchGitHubNewTab`: build the URL for `query`, append the search to the history
      (stamped with `now`, standing for `Date.now()`) and return the URL that is opened
      in a new tab. */
  method SearchGitHubNewTab(store: HistoryStore, originalQuery: string, query: string, now: int)
    returns (url: string)
    requires store.Valid()
    modifies store
    ensures store.Valid() && store.stored == Some(store.history)
    ensures url == UrlPrefix + query + UrlSuffix
    ensures store.history == Appended(old(store.history), SearchRecord(originalQuery, now, query, url))
  {
    url := SearchUrl(query);
    store.Append(SearchRecord(originalQuery, now, query, url));
  }

  /** `searchHandler` on the text `raw` of the search box: when the text sanitizes to
      nothing, neither the history nor storage changes and no page is opened; otherwise
      the planned search is recorded and its URL returned. */
  method SearchHandler(store: HistoryStore, raw: string, now: int) returns (tabUrl: Option<string>)
    requires store.Valid()
    modifies store
    ensures store.Valid()
    ensures PlanSearch(raw).None? ==>
      && tabUrl == None
      && store.history == old(store.history) && store.stored == old(store.stored)
    ensures PlanSearch(raw).Some? ==>
      var p := PlanSearch(raw).value;
      && tabUrl == Some(p.url)
      && store.stored == Some(store.history)
      && store.history == Appended(old(store.history), SearchRecord(p.originalQuery, now, p.query, p.url))
  {
    var plan := PlanSearch(raw);
    tabUrl := None;
    if plan.Some? {
      var url := SearchGitHubNewTab(store, plan.value.originalQuery, plan.value.query, now);
      tabUrl := Some(url);
    }
  }
}
