/** The browser's API client (`src/utils/api.js`): what `getMatches` makes of the response.
    Its `isFutureOrToday` and `filterPastMatches` are the same as the local-storage ones and
    are modelled once, by `Dates.IsFutureOrToday` and `LocalStorage.FilterPastMatches`. */
module ClientApi {
  import opened Wrappers
  import opened Seqs
  import opened Sorting
  import opened Ledger

  /** `getMatches` once the request is over: the fetched list sorted ascending by date, with
      matches of equal date in the order received, or `[]` when the request failed
      (`fetched` is `None`). */
  function ReceivedMatches(fetched: Option<seq<Match>>): (r: seq<Match>)
    ensures fetched.None? ==> r == []
    ensures fetched.Some? ==> multiset(r) == multiset(fetched.value) && SortedBy(r, DateKey)
    ensures fetched.Some? ==>
              forall k :: Filter(r, HasKey(DateKey, k)) == Filter(fetched.value, HasKey(DateKey, k))
  {
    if fetched.None? then [] else SortByDate(fetched.value)
  }

  /** A list the server already sent in date order comes back as it was. */
  lemma ReceivedSortedListUnchanged(matches: seq<Match>)
    requires SortedBy(matches, DateKey)
    ensures ReceivedMatches(Some(matches)) == matches
  {
    SortSortedIsIdentity(matches, DateKey);
  }
}
