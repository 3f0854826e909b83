/** The cookie loop of `_paged_search` (mo_ldap_import_export/ldap.py:570-634), run against a
    server that pages a fixed result list with the control of RFC 2696. */
module PagedSearch {
  import opened Wrappers

  const PAGE_SIZE: nat := 500
  const MAX_PAGES: nat := 10_000

  /** A message of a search response: an entry, or a reference the client does not follow. */
  datatype Message<+T> = SearchResEntry(entry: T) | SearchResRef

  /** What one search request comes back with. A page without a cookie is the last one. */
  datatype Reply<+T> =
    | Page(messages: seq<Message<T>>, cookie: Option<nat>)
    | OperationsError
    | NoSuchObject

  /** The dictionary of search parameters, which the search updates in place. */
  class SearchParameters {
    var pagedSize: nat
    var pagedCookie: Option<nat>

    constructor ()
      ensures pagedCookie == None
    {
      pagedSize, pagedCookie := 0, None;
    }
  }

  /** Keeps the entries of a response (`ldapresponse2entries`). */
  function Entries<T>(messages: seq<Message<T>>): (entries: seq<T>)
    ensures |entries| <= |messages|
  {
    if messages == [] then []
    else EntryOf(messages[0]) + Entries(messages[1..])
  }

  function EntryOf<T>(message: Message<T>): (entries: seq<T>)
    ensures |entries| <= 1
  {
    if message.SearchResEntry? then [message.entry] else []
  }

  lemma {:induction false} EntriesOfConcatenation<T>(a: seq<Message<T>>, b: seq<Message<T>>)
    ensures Entries(a + b) == Entries(a) + Entries(b)
  {
    if a == [] {
      assert a + b == b;
    } else {
      calc {
        Entries(a + b);
        { assert (a + b)[0] == a[0] && (a + b)[1..] == a[1..] + b; }
        EntryOf(a[0]) + Entries(a[1..] + b);
        { EntriesOfConcatenation(a[1..], b); }
        EntryOf(a[0]) + (Entries(a[1..]) + Entries(b));
        (EntryOf(a[0]) + Entries(a[1..])) + Entries(b);
        Entries(a) + Entries(b);
      }
    }
  }

  lemma EntriesOfNothing<T>(messages: seq<Message<T>>, at: nat)
    requires at <= |messages|
    ensures Entries(messages[at..at]) == []
  {
  }

  lemma EntriesOfSlice<T>(messages: seq<Message<T>>, from: nat, mid: nat, to: nat)
    requires from <= mid <= to <= |messages|
    ensures Entries(messages[from..to]) == Entries(messages[from..mid]) + Entries(messages[mid..to])
  {
    assert messages[from..to] == messages[from..mid] + messages[mid..to];
    EntriesOfConcatenation(messages[from..mid], messages[mid..to]);
  }

  /** What the loop collects with `budget` more pages allowed, the request carrying `cookie`. */
  ghost function Collected<T>(server: Option<nat> -> Reply<T>, cookie: Option<nat>, budget: nat): seq<T>
    decreases budget, cookie
  {
    if budget == 0 then []
    else match server(cookie)
      case NoSuchObject => []
      case OperationsError => []
      case Page(messages, next) =>
        Entries(messages) + if next.None? then [] else Collected(server, next, budget - 1)
  }

  method Search<T>(server: Option<nat> -> Reply<T>, parameters: SearchParameters) returns (responses: seq<T>)
    modifies parameters
    ensures responses == Collected(server, old(parameters.pagedCookie), MAX_PAGES)
    ensures parameters.pagedSize == PAGE_SIZE
  {
    hide Entries;
    parameters.pagedSize := PAGE_SIZE;
    responses := [];
    var page := 0;
    while page < MAX_PAGES
      invariant 0 <= page <= MAX_PAGES
      invariant parameters.pagedSize == PAGE_SIZE
      invariant Collected(server, old(parameters.pagedCookie), MAX_PAGES)
             == responses + Collected(server, parameters.pagedCookie, MAX_PAGES - page)
    {
      var reply := server(parameters.pagedCookie);
      if reply.NoSuchObject? {
        return responses;
      }
      if reply.OperationsError? {
        break;
      }
      responses := responses + Entries(reply.messages);
      if reply.cookie.None? {
        break;
      }
      parameters.pagedCookie := reply.cookie;
      page := page + 1;
    }
  }

  /** A server holding `results`, answering in pages of `PAGE_SIZE` with the number of the next
      page as cookie; page `failing`, if any, fails with operationsError. */
  ghost function Server<T>(results: seq<Message<T>>, failing: Option<nat>): Option<nat> -> Reply<T> {
    (cookie: Option<nat>) => PageOf(results, failing, PageNumber(cookie))
  }

  function PageNumber(cookie: Option<nat>): nat {
    if cookie.None? then 0 else cookie.value
  }

  function PageOf<T>(results: seq<Message<T>>, failing: Option<nat>, page: nat): Reply<T> {
    var from := Cap(page, |results|);
    var to := Cap(page + 1, |results|);
    if failing == Some(page) then OperationsError
    else Page(results[from..to], if to < |results| then Some(page + 1) else None)
  }

  /** The number of messages on the first `pages` pages. */
  function Cap(pages: nat, total: nat): nat {
    if PAGE_SIZE * pages <= total then PAGE_SIZE * pages else total
  }

  /** The number of leading messages the loop gets to see. */
  function Reached(total: nat, failing: Option<nat>): nat {
    Cap(StopPage(failing, MAX_PAGES), total)
  }

  function StopPage(failing: Option<nat>, limit: nat): nat {
    if failing.Some? && failing.value < limit then failing.value else limit
  }

  /** One round of the loop reads one page of the list, unless no page is left or it fails. */
  lemma CollectedStep<T>(results: seq<Message<T>>, failing: Option<nat>, cookie: Option<nat>, budget: nat)
    requires budget > 0
    ensures var server := Server(results, failing);
            var from, next := Cap(PageNumber(cookie), |results|), Cap(PageNumber(cookie) + 1, |results|);
            var rest := if next == |results| then [] else Collected(server, Some(PageNumber(cookie) + 1), budget - 1);
            var stopped := failing == Some(PageNumber(cookie));
            Collected(server, cookie, budget) == if stopped then [] else Entries(results[from..next]) + rest
  {
    hide Entries;
  }

  lemma CollectedStop<T>(results: seq<Message<T>>, failing: Option<nat>, cookie: Option<nat>, budget: nat)
    requires budget == 0 || failing == Some(PageNumber(cookie))
    ensures Collected(Server(results, failing), cookie, budget) == []
  {
    hide Entries;
  }

  lemma {:induction false} CollectedFrom<T>(results: seq<Message<T>>, failing: Option<nat>, cookie: Option<nat>,
                                            budget: nat)
    requires failing.Some? ==> PageNumber(cookie) <= failing.value
    ensures Cap(PageNumber(cookie), |results|) <= Cap(StopPage(failing, PageNumber(cookie) + budget), |results|)
    ensures Collected(Server(results, failing), cookie, budget)
         == var stop := StopPage(failing, PageNumber(cookie) + budget);
            Entries(results[Cap(PageNumber(cookie), |results|)..Cap(stop, |results|)])
    decreases budget
  {
    hide Entries, Collected;
    var page := PageNumber(cookie);
    if budget > 0 && failing != Some(page) {
      CollectedStep(results, failing, cookie, budget);
      var from, next := Cap(page, |results|), Cap(page + 1, |results|);
      var to := Cap(StopPage(failing, page + budget), |results|);
      if next < |results| {
        CollectedFrom(results, failing, Some(page + 1), budget - 1);
        EntriesOfSlice(results, from, next, to);
      } else {
        assert next == to;
      }
    } else {
      CollectedStop(results, failing, cookie, budget);
      EntriesOfNothing(results, Cap(page, |results|));
    }
  }

  /** A search returns the entries of exactly the messages it reaches, in order and once each: all
      of them, those of the first ten thousand pages, or those before the failing page. */
  lemma SearchReturnsPrefix<T>(results: seq<Message<T>>, failing: Option<nat>)
    ensures Reached(|results|, failing) <= |results|
    ensures Collected(Server(results, failing), None, MAX_PAGES)
         == Entries(results[..Reached(|results|, failing)])
  {
    CollectedFrom(results, failing, None, MAX_PAGES);
    var to := Reached(|results|, failing);
    assert results[0..to] == results[..to];
  }

  lemma SplitIsWholeIff<T>(messages: seq<Message<T>>, mid: nat)
    requires mid <= |messages|
    ensures Entries(messages[..mid]) == Entries(messages) <==> Entries(messages[mid..]) == []
    ensures mid == |messages| ==> Entries(messages[mid..]) == []
  {
    assert messages == messages[..mid] + messages[mid..];
    EntriesOfConcatenation(messages[..mid], messages[mid..]);
    var a, b := Entries(messages[..mid]), Entries(messages[mid..]);
    assert Entries(messages) == a + b;
    if a == a + b {
      assert |b| == 0;
    }
  }

  /** Without a failing page the paged search is the plain search exactly when every entry lies
      within the first ten thousand pages. */
  lemma SearchIsCompleteIff<T>(results: seq<Message<T>>)
    ensures Collected(Server(results, None), None, MAX_PAGES) == Entries(results)
       <==> Entries(results[Reached(|results|, None)..]) == []
    ensures |results| <= PAGE_SIZE * MAX_PAGES ==> Collected(Server(results, None), None, MAX_PAGES) == Entries(results)
  {
    SearchReturnsPrefix(results, None);
    SplitIsWholeIff(results, Reached(|results|, None));
  }
}
