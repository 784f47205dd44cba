/** The client's listing controller (`EntriesTable`): the accumulated list,
    the page counter, the `hasMore` flag and the in-flight guard, driven by
    load, scroll, refresh and delete events. The asynchronous fetch is split
    into the event that starts it and the event that delivers its outcome;
    the scroll handler is wrapped by `throttle`, whose timer is an explicit
    event. */
module EntriesTable {
  import opened Wrappers
  import opened Schema
  import opened Listing

  /** The page size the controller asks the server for. */
  const PageSize := 12

  /** The arguments of the `loadEntries` call whose fetch is in flight. */
  datatype LoadRequest = LoadRequest(pageNum: int, search: string, isNewSearch: bool)

  /** The list after a successful fetch: page 1 or a new search replaces
      it, any other page is appended to it. */
  function Merge(current: seq<Entry>, req: LoadRequest, fetched: seq<Entry>): seq<Entry>
  {
    if req.isNewSearch || req.pageNum == 1 then fetched else current + fetched
  }

  /** `prev.filter(entry => entry.id !== id)`. */
  function RemoveById(s: seq<Entry>, id: int): (r: seq<Entry>)
    ensures |r| <= |s|
    ensures forall e :: e in r <==> e in s && e.id != id
  {
    if s == [] then []
    else (if s[0].id == id then [] else [s[0]]) + RemoveById(s[1..], id)
  }

  /** Removing from a concatenation removes from each part, keeping the order. */
  lemma {:induction false} RemoveByIdAppend(a: seq<Entry>, b: seq<Entry>, id: int)
    ensures RemoveById(a + b, id) == RemoveById(a, id) + RemoveById(b, id)
    decreases |a|
  {
    if a == [] {
      assert a + b == b;
    } else {
      assert (a + b)[1..] == a[1..] + b;
      RemoveByIdAppend(a[1..], b, id);
    }
  }

  /** Entries with other ids are kept, all of them and in their order. */
  lemma {:induction false} RemoveByIdKeepsOthers(s: seq<Entry>, id: int)
    requires forall i :: 0 <= i < |s| ==> s[i].id != id
    ensures RemoveById(s, id) == s
    decreases |s|
  {
    if s != [] {
      RemoveByIdKeepsOthers(s[1..], id);
    }
  }

  /** The list after loading pages 1 to `k` of a fixed table in order, each
      merged as a successful load merges it. */
  function Accumulated(rows: seq<Entry>, userId: int, search: string, k: nat): seq<Entry>
  {
    if k == 0 then []
    else Merge(Accumulated(rows, userId, search, k - 1), LoadRequest(k, search, false),
               ListEntries(rows, userId, ListQuery(k, PageSize, search)).entries)
  }

  lemma PrefixThenWindow(s: seq<Entry>, skip: nat, end: nat)
    requires skip <= end <= |s|
    ensures s[..skip] + s[skip..end] == s[..end]
  {
  }

  /** Page `k`, for `k >= 1`, is the window of the ordered matches from
      `(k - 1) * PageSize` up to `k * PageSize`, cut at the end. */
  lemma PageKWindow(rows: seq<Entry>, userId: int, search: string, k: nat)
    requires k >= 1
    ensures var ordered := Ordered(rows, userId, search);
            var skip := (k - 1) * PageSize;
            var fetched := ListEntries(rows, userId, ListQuery(k, PageSize, search)).entries;
            && (skip >= |ordered| ==> fetched == [])
            && (skip < |ordered| ==> fetched == ordered[skip..Min(k * PageSize, |ordered|)])
  {
    var ordered := Ordered(rows, userId, search);
    var q := ListQuery(k, PageSize, search);
    PageIsWindow(rows, userId, q);
    assert Offset(k, PageSize) == (k - 1) * PageSize;
    assert (k - 1) * PageSize + PageSize == k * PageSize;
  }

  /** Appending the window of page `k` to the first `k - 1` pages gives the first `k`. */
  lemma AppendWindow(ordered: seq<Entry>, before: seq<Entry>, fetched: seq<Entry>, k: nat)
    requires k >= 1
    requires before == ordered[..Min((k - 1) * PageSize, |ordered|)]
    requires (k - 1) * PageSize >= |ordered| ==> fetched == []
    requires (k - 1) * PageSize < |ordered| ==> fetched == ordered[(k - 1) * PageSize..Min(k * PageSize, |ordered|)]
    ensures before + fetched == ordered[..Min(k * PageSize, |ordered|)]
  {
    var skip := (k - 1) * PageSize;
    var end := Min(k * PageSize, |ordered|);
    assert skip + PageSize == k * PageSize;
    if skip < |ordered| {
      PrefixThenWindow(ordered, skip, end);
    } else {
      assert before + fetched == before;
    }
  }

  /** Every page the model lists comes from the one arrangement `Ordered`,
      so after `k` pages the accumulated list is its first `k * PageSize`
      rows (or all, if fewer). */
  lemma {:induction false} AccumulatedIsPrefix(rows: seq<Entry>, userId: int, search: string, k: nat)
    ensures Accumulated(rows, userId, search, k) == Ordered(rows, userId, search)[..Min(k * PageSize, |Ordered(rows, userId, search)|)]
  {
    if k > 0 {
      var before := Accumulated(rows, userId, search, k - 1);
      var fetched := ListEntries(rows, userId, ListQuery(k, PageSize, search)).entries;
      AccumulatedIsPrefix(rows, userId, search, k - 1);
      PageKWindow(rows, userId, search, k);
      AppendWindow(Ordered(rows, userId, search), before, fetched, k);
      assert k == 1 ==> before == [];
    }
  }

  /** Scrolling through a table that does not change shows its ordered
      matches without gaps or repeats: after `k` pages, exactly the first
      `k * PageSize` of them (or all, if fewer). Each page is a separate
      query ordered by creation time alone; with distinct creation times
      every such query arranges the matches as `Ordered` does
      (`OrderIsForced`), which is what lets the pages be read against one
      arrangement. */
  lemma ScrollingShowsPrefix(rows: seq<Entry>, userId: int, search: string, k: nat)
    requires DistinctDates(Where(rows, userId, search))
    ensures Accumulated(rows, userId, search, k) == Ordered(rows, userId, search)[..Min(k * PageSize, |Ordered(rows, userId, search)|)]
  {
    AccumulatedIsPrefix(rows, userId, search, k);
  }

  /** Once a page reports `hasMore == false`, the list holds every match,
      newest first. */
  lemma ScrollingEndsWithEverything(rows: seq<Entry>, userId: int, search: string, k: nat)
    requires k >= 1
    requires DistinctDates(Where(rows, userId, search))
    requires !ListEntries(rows, userId, ListQuery(k, PageSize, search)).hasMore
    ensures Accumulated(rows, userId, search, k) == Ordered(rows, userId, search)
  {
    var ordered := Ordered(rows, userId, search);
    HasMoreIffRowsRemain(rows, userId, ListQuery(k, PageSize, search));
    PageIsWindow(rows, userId, ListQuery(k, PageSize, search));
    AccumulatedIsPrefix(rows, userId, search, k);
    assert ordered[..|ordered|] == ordered;
  }

  /** The closure returned by `throttle`: one flag, cleared by the timer. */
  class Throttle {
    var inThrottle: bool

    constructor ()
      ensures !inThrottle
    {
      inThrottle := false;
    }

    /** A call to the throttled function: forwarded only outside a window,
        and a forwarded call opens one. Calls inside a window are dropped. */
    method Call() returns (forwarded: bool)
      modifies this
      ensures forwarded == !old(inThrottle)
      ensures inThrottle
    {
      forwarded := false;
      if !inThrottle {
        forwarded := true;
        inThrottle := true;
      }
    }

    /** The timer a forwarded call set has fired. */
    method WindowEnds()
      requires inThrottle
      modifies this
      ensures !inThrottle
    {
      inThrottle := false;
    }
  }

  class EntriesTable {
    var entries: seq<Entry>
    var page: int
    var hasMore: bool
    /** The `searchQuery` prop. */
    var searchQuery: string
    /** `loadingRef.current`. */
    var loading: bool
    /** The arguments of the fetch in flight, if any. */
    var pending: Option<LoadRequest>
    const throttle: Throttle

    /** At most one fetch is in flight, and the guard flag says whether one is. */
    ghost predicate Valid()
      reads this
    {
      loading <==> pending.Some?
    }

    constructor (searchQuery: string)
      ensures Valid() && fresh(throttle) && !throttle.inThrottle
      ensures entries == [] && page == 1 && hasMore && this.searchQuery == searchQuery
      ensures !loading && pending == None
    {
      entries := [];
      page := 1;
      hasMore := true;
      this.searchQuery := searchQuery;
      loading := false;
      pending := None;
      throttle := new Throttle();
    }

    /** `loadEntries` up to its `await`: dropped when a load is in flight,
        otherwise raises the guard and issues the fetch of `pageNum`. */
    method LoadEntries(pageNum: int, search: string, isNewSearch: bool) returns (issued: Option<LoadRequest>)
      requires Valid()
      modifies this`loading, this`pending
      ensures Valid() && loading
      ensures old(loading) ==> issued == None && pending == old(pending)
      ensures !old(loading) ==> issued == Some(LoadRequest(pageNum, search, isNewSearch)) && pending == issued
    {
      if loading {
        return None;
      }
      loading := true;
      issued := Some(LoadRequest(pageNum, search, isNewSearch));
      pending := issued;
    }

    /** The fetch in flight succeeded: merge its entries, take its
        `hasMore`, move to its page, and lower the guard. */
    method CompleteLoad(response: ListResponse)
      requires Valid() && loading
      modifies this`entries, this`hasMore, this`page, this`loading, this`pending
      ensures Valid() && !loading
      ensures entries == Merge(old(entries), old(pending).value, response.entries)
      ensures hasMore == response.hasMore
      ensures page == old(pending).value.pageNum
    {
      var req := pending.value;
      if req.isNewSearch || req.pageNum == 1 {
        entries := response.entries;
      } else {
        entries := entries + response.entries;
      }
      hasMore := response.hasMore;
      page := req.pageNum;
      loading := false;
      pending := None;
    }

    /** The fetch in flight failed: only the guard is lowered. */
    method FailLoad()
      requires Valid() && loading
      modifies this`loading, this`pending
      ensures Valid() && !loading
    {
      loading := false;
      pending := None;
    }

    /** `checkScroll`: asks for the next page when more remain, no load is
        in flight and the sentinel is within 200 pixels of the viewport. */
    method CheckScroll(nearSentinel: bool) returns (issued: Option<LoadRequest>)
      requires Valid()
      modifies this`loading, this`pending
      ensures Valid()
      ensures issued.Some? <==> old(hasMore) && !old(loading) && nearSentinel
      ensures issued.Some? ==> issued.value == LoadRequest(page + 1, searchQuery, false) && pending == issued
      ensures issued.None? ==> loading == old(loading) && pending == old(pending)
    {
      if !hasMore || loading {
        return None;
      }
      issued := None;
      if nearSentinel {
        issued := LoadEntries(page + 1, searchQuery, false);
      }
    }

    /** A scroll or resize event, through the throttled handler. */
    method OnScrollOrResize(nearSentinel: bool) returns (issued: Option<LoadRequest>)
      requires Valid()
      modifies this`loading, this`pending, throttle
      ensures Valid() && throttle.inThrottle
      ensures issued.Some? <==> !old(throttle.inThrottle) && old(hasMore) && !old(loading) && nearSentinel
      ensures issued.Some? ==> issued.value == LoadRequest(page + 1, searchQuery, false) && pending == issued
      ensures issued.None? ==> loading == old(loading) && pending == old(pending)
    {
      var forwarded := throttle.Call();
      issued := None;
      if forwarded {
        issued := CheckScroll(nearSentinel);
      }
    }

    /** The effect that runs when `refreshTrigger` or `searchQuery` changes:
        back to page 1 with `hasMore` set, then a page-1 load as a new
        search, which the in-flight guard drops if a load is running. */
    method Refresh(query: string) returns (issued: Option<LoadRequest>)
      requires Valid()
      modifies this`searchQuery, this`page, this`hasMore, this`loading, this`pending
      ensures Valid() && loading
      ensures searchQuery == query && page == 1 && hasMore
      ensures old(loading) ==> issued == None && pending == old(pending)
      ensures !old(loading) ==> issued == Some(LoadRequest(1, query, true)) && pending == issued
    {
      searchQuery := query;
      page := 1;
      hasMore := true;
      issued := LoadEntries(1, query, true);
    }

    /** `handleDelete` after the server answered: on success the entries
        with that id leave the list; on failure the list stays. */
    method HandleDelete(id: int, deleted: bool)
      modifies this`entries
      ensures entries == if deleted then RemoveById(old(entries), id) else old(entries)
    {
      if deleted {
        entries := RemoveById(entries, id);
      }
    }
  }

  /** Two scroll triggers while the first page-2 fetch is pending issue
      exactly one request. */
  method TwoScrollTriggersOneRequest(first: seq<Entry>) returns (a: Option<LoadRequest>, b: Option<LoadRequest>)
    ensures a == Some(LoadRequest(2, "", false))
    ensures b == None
  {
    var table := new EntriesTable("");
    var initial := table.Refresh("");
    table.CompleteLoad(ListResponse(first, 1, 2, |first|, true));
    a := table.CheckScroll(true);
    b := table.CheckScroll(true);
  }

  /** A search typed while page 2 is loading: page and `hasMore` are reset
      but the page-1 load for the new search is dropped by the guard, and
      the page-2 answer of the old search is then appended. */
  method SearchDuringLoadIsDropped(first: seq<Entry>, second: seq<Entry>, query: string)
    returns (issued: Option<LoadRequest>, shown: seq<Entry>, page: int, search: string)
    ensures issued == None
    ensures shown == first + second && page == 2 && search == query
  {
    var table := new EntriesTable("");
    var initial := table.Refresh("");
    table.CompleteLoad(ListResponse(first, 1, 3, |first|, true));
    var next := table.CheckScroll(true);
    issued := table.Refresh(query);
    table.CompleteLoad(ListResponse(second, 2, 3, |first| + |second|, true));
    shown, page, search := table.entries, table.page, table.searchQuery;
  }

  /** Throttling: the first call is forwarded, a call in the window is
      dropped, and a call after the timer fired is forwarded again. */
  method ThrottleWindow() returns (a: bool, b: bool, c: bool)
    ensures a && !b && c
  {
    var t := new Throttle();
    a := t.Call();
    b := t.Call();
    t.WindowEnds();
    c := t.Call();
  }
}
