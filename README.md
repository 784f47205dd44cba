# Favorite movies catalog: a verified model of its core

This project models, in Dafny, the logic of a small catalog web application
in which users register, log in and keep a list of movie and TV-show
entries:

- **the server's entry routes** (`backend/api/server.js`): the listing of
  the caller's entries with an optional case-insensitive search over title,
  director and type, newest first, paged by `page` and `limit`, with the
  `totalPages`/`totalEntries`/`hasMore` figures; creation with its
  required-field check; update and delete, which first look the entry up by
  id *and* owner and answer 404 otherwise;
- **the server's register and login routes**, with hashing and token signing
  kept abstract;
- **the client's `ApiService`** (`frontend/src/services/api.ts`): the token
  cached in a field and kept in `localStorage`, the request headers with the
  `Authorization: Bearer <token>` form of section 2.1 of RFC 6750, and the
  query string of the listing request;
- **the client's listing controller** (`frontend/src/components/EntriesTable.tsx`):
  the accumulated list, page counter, `hasMore` flag and in-flight guard,
  the scroll trigger, the reset on refresh or search change, delete, and the
  `throttle` wrapper of the scroll handler.

Modules, one per file: `Wrappers` (Option/Result), `Search` (the
first-match search behind every lookup), `Text` (ASCII lower-case,
substring search, `toString`/`parseInt` of numbers), `Schema` (entry rows,
request bodies, error responses), `Listing` (the listing as pure functions
of the table), `EntryTable` (a class whose `rows` the create, update and
delete handlers change), `Auth` (a class over the user table),
`ApiClient` (classes `LocalStorage` and `ApiService`) and `EntriesTable`
(classes `Throttle` and `EntriesTable`).

How the pieces are represented:

- The Prisma tables are sequences of records held in a class; each Prisma
  call is one atomic step. Ids come from an auto-increment counter; the
  creation time is a parameter standing in for the database clock. The
  caller's user id is a parameter: the token middleware is not part of this
  model.
- A request-body field that is absent is `None`; JavaScript truthiness of a
  string field is "present and not empty".
- `Math.ceil(total / limit)` is `(total + limit - 1) / limit` for `limit > 0`.
- `orderBy: { createdAt: 'desc' }` is a stable insertion sort; what is
  proved about it is only what the database promises: newest first and the
  same rows. The query has no tie-breaker, so rows created at the same time
  may come back in a different order from one page query to the next. The
  statements that relate several page queries therefore assume that the
  caller's matches have distinct creation times (`DistinctDates`); under
  that assumption every newest-first arrangement is the model's
  (`OrderIsForced`), and without it a row can be listed on two pages while
  another is listed on none (`TiedRowsCanRepeatAcrossPages`).
- bcrypt is a value that records the cost, the salt and what it was made
  from, and the comparison accepts exactly the password it was made from. A
  token is the claims record `{ userId, email, issuedAt, expiresAt }` with a
  24-hour lifetime.
- The client's asynchronous fetch is split into a start event
  (`LoadEntries`) and a completion event (`CompleteLoad` or `FailLoad`); the
  outcome of a delete request and the sentinel's distance test are
  parameters; the throttle timer firing is the event `WindowEnds`.

Behaviour of the code worth noting:

- A refresh or search change resets `page` and `hasMore` but keeps the
  shown entries until a page-1 answer replaces them, and its page-1 load goes
  through the same in-flight guard. A search typed while a page is loading
  therefore starts no load at all, and the old search's page is appended
  when it arrives (`SearchDuringLoadIsDropped`).
- Registering an existing email answers 400 "User already exists", not a
  distinct conflict status; wrong passwords and unknown emails both answer
  400 "Invalid credentials".
- An update performs no required-field check; a field the body leaves out
  keeps its value.

## Model

| member | source | states |
|---|---|---|
| `Listing.ParseListQuery` | backend/api/server.js:134-137 | `page` defaults to 1 and `limit` to 40 when missing or when `parseInt` gives NaN or 0, so neither is ever 0; otherwise the parsed value is used; a missing search is the empty string |
| `Listing.Where` | backend/api/server.js:139-148 | the selection keeps exactly the rows owned by the caller that match the search (all of the caller's rows when the search is empty) |
| `Listing.WhereAppend` | backend/api/server.js:139-148 | selecting from two parts of the table selects from each part, in table order |
| `Text.ContainsIff` | backend/api/server.js:143-145 | the substring scan holds exactly when the term occurs at some position of the field |
| `Listing.OrderByNewest` | backend/api/server.js:154 | the ordering is newest first by `createdAt` and a permutation of its input |
| `Listing.ListEntries` | backend/api/server.js:150-166 | every listed entry is in the table, owned by the caller and matches the search; at most `limit` entries, newest first; `totalEntries` is the number of matches, `totalPages` their ceiling quotient by `limit`, `hasMore` is `page < totalPages`, `currentPage` the requested page |
| `Listing.HasMoreIff` | backend/api/server.js:158-165 | `page < ceil(total / limit)` holds exactly when `page * limit < total` |
| `Listing.HasMoreIffRowsRemain` | backend/api/server.js:157-165 | `hasMore` holds exactly when matches remain beyond the first `page` pages |
| `Listing.PageIsWindow` | backend/api/server.js:136-155 | the listed page is the run of the ordered matches that starts after `(page - 1) * limit` of them, `limit` long or cut at the end |
| `Listing.NewestFirstIsUnique` | backend/api/server.js:154 | two newest-first arrangements of the same rows with distinct creation times are equal |
| `Listing.OrderIsForced` | backend/api/server.js:139-155 | when the caller's matches have distinct creation times, any newest-first arrangement of them the database returns is the model's ordering of them |
| `Listing.PageOfAnyArrangement` | backend/api/server.js:150-156 | when the caller's matches have distinct creation times, the skip/take window of whatever newest-first arrangement the database produces for a page query is exactly the page the model lists |
| `Listing.TiedRowsCanRepeatAcrossPages` | backend/api/server.js:150-155 | two rows with the same creation time can be arranged either way; one row per page, page 1 of one arrangement and page 2 of the other list the same row and never the other |
| `Listing.EveryMatchOnItsPage` | backend/api/server.js:136-158 | when the caller's matches have distinct creation times, the k-th newest match appears at position `k % limit` of page `k / limit + 1`, a page not beyond `totalPages` |
| `Listing.PastLastPageIsEmpty` | backend/api/server.js:150-165 | a page past the last one lists nothing and has `hasMore` false |
| `Listing.FifteenRowsTwelvePerPage` | backend/api/server.js:150-165 | with 15 matches and 12 per page: page 1 holds 12 with `hasMore`, page 2 holds 3 without `hasMore`, 2 pages in all |
| `EntryTable.EntryTable.Create` | backend/api/server.js:173-195 | a body without a truthy title, type or director answers 400 and changes nothing; otherwise exactly one row is appended, owned by the caller, carrying the body's fields and a fresh id under which the caller can find it |
| `EntryTable.NewEntry` | backend/api/server.js:181-193 | the created row carries the new id, the caller as owner, the creation time and the body's title, type and director |
| `Search.FirstIndex` | backend/api/server.js:208-210 | the position found holds the first element satisfying the condition, and nothing is found exactly when no element satisfies it |
| `EntryTable.FindOwned` | backend/api/server.js:208-210 | the lookup finds the first row with that id owned by the caller, and finds nothing exactly when no such row exists |
| `EntryTable.Patched` | backend/api/server.js:216-228 | an update keeps id, owner and creation time; each of the eight data fields is overwritten with the body's value when the body carries it and kept otherwise |
| `EntryTable.EntryTable.Update` | backend/api/server.js:202-230 | with no row of that id owned by the caller it answers 404 and changes nothing; otherwise only that row changes, to its patched form, which is returned |
| `EntryTable.EntryTable.Delete` | backend/api/server.js:237-254 | with no row of that id owned by the caller it answers 404 and changes nothing; otherwise only that row is removed, the others keep their order, and a repeated delete finds nothing |
| `EntryTable.OtherUsersRowIsNotFound` | backend/api/server.js:208-213 | another user's entry is not found for the caller, so update and delete answer 404 for it |
| `EntryTable.CreateKeepsOtherListings` | backend/api/server.js:181-193 | creating an entry leaves every other user's listing unchanged |
| `EntryTable.UpdateKeepsOtherListings` | backend/api/server.js:216-228 | updating an entry leaves every other user's listing unchanged |
| `EntryTable.DeleteKeepsOtherListings` | backend/api/server.js:250-252 | deleting an entry leaves every other user's listing unchanged |
| `Auth.Sign` | backend/api/server.js:68-72 | the token names the user's id and email and expires 24 hours after it is issued |
| `Auth.UserTable.Register` | backend/api/server.js:41-82 | a missing field answers 400 and an existing email answers 400, both adding no user; otherwise one user with the hashed password is added, the answer is 201 with a token for it, and that user can then log in with the same credentials |
| `Auth.UserTable.Login` | backend/api/server.js:89-124 | missing fields answer 400; with both present, login succeeds exactly when a user with that email accepts the password, and every failure is the same "Invalid credentials" answer; a success carries the public form of the stored user with that email and a token signed for that same user |
| `Auth.RegisterTwiceConflicts` | backend/api/server.js:49-53 | registering the same email twice succeeds once, then answers "User already exists", leaving one user |
| `ApiClient.ApiService.SetToken` | frontend/src/services/api.ts:51-54 | both the memory copy and the `authToken` storage key become the token |
| `ApiClient.ApiService.GetToken` | frontend/src/services/api.ts:56-61 | answers the memory copy when truthy, otherwise reads storage and caches what it read; while this service is the only writer of the storage key, the answer is what storage holds |
| `ApiClient.ApiService.ClearToken` | frontend/src/services/api.ts:63-66 | the memory copy becomes null and the storage key is removed |
| `ApiClient.ApiService.GetHeaders` | frontend/src/services/api.ts:68-79 | the headers are those `HeadersFor` gives for the stored token, and storage is unchanged |
| `ApiClient.HeadersFor` | frontend/src/services/api.ts:68-79 | the JSON content type is always present; an `Authorization` header is present exactly when the token is truthy, and reading it back gives the token |
| `ApiClient.BearerRoundTrip` | frontend/src/services/api.ts:75 | a non-empty token reads back out of its `Bearer` header value, and only that value reads back as it |
| `ApiClient.EntriesQuery` | frontend/src/services/api.ts:104-110 | the query always carries `page` and `limit` and carries `search` exactly when it is non-empty; the server reads back the same page, limit and search (its defaults when 0 was sent), for integers of unbounded width (see Left out below) |
| `Text.ParseIntString` | frontend/src/services/api.ts:105-106 | `parseInt` of an integer's decimal `toString` gives the integer back, for integers of unbounded width (see Left out below) |
| `ApiClient.SetThenGet` | frontend/src/services/api.ts:51-61 | after setting a token, reading it gives that token whatever storage held |
| `ApiClient.ClearThenGet` | frontend/src/services/api.ts:56-66 | after clearing, reading the token gives null even though storage had filled the memory copy before |
| `EntriesTable.EntriesTable.LoadEntries` | frontend/src/components/EntriesTable.tsx:32-39 | a load requested while one is in flight issues nothing and changes nothing; otherwise the guard is raised and exactly that page is requested |
| `EntriesTable.EntriesTable.CompleteLoad` | frontend/src/components/EntriesTable.tsx:41-54 | on success the list is replaced by the fetched entries for page 1 or a new search and extended by them otherwise; `hasMore` is the response's, `page` the requested page, and the guard is lowered |
| `EntriesTable.EntriesTable.FailLoad` | frontend/src/components/EntriesTable.tsx:49-54 | on failure only the guard is lowered: entries, page and `hasMore` are unchanged |
| `EntriesTable.EntriesTable.CheckScroll` | frontend/src/components/EntriesTable.tsx:66-73 | the next page is requested exactly when more remain, no load is in flight and the sentinel is near; otherwise nothing changes |
| `EntriesTable.EntriesTable.OnScrollOrResize` | frontend/src/components/EntriesTable.tsx:75-77 | a scroll or resize requests the next page only when the throttle window is closed and the scroll check passes; the window is open afterwards |
| `EntriesTable.EntriesTable.Refresh` | frontend/src/components/EntriesTable.tsx:58-62 | page becomes 1 and `hasMore` true; page 1 is requested as a new search unless a load is in flight, in which case nothing is requested |
| `EntriesTable.EntriesTable.HandleDelete` | frontend/src/components/EntriesTable.tsx:88-95 | a successful delete removes the entries with that id; a failed one leaves the list as it was |
| `EntriesTable.RemoveById` | frontend/src/components/EntriesTable.tsx:91 | the result holds exactly the entries whose id differs |
| `EntriesTable.RemoveByIdAppend` | frontend/src/components/EntriesTable.tsx:91 | removing from a concatenation removes from each part, so the kept entries stay in order |
| `EntriesTable.RemoveByIdKeepsOthers` | frontend/src/components/EntriesTable.tsx:91 | a list without that id is left exactly as it was |
| `EntriesTable.ScrollingShowsPrefix` | frontend/src/components/EntriesTable.tsx:41-48 | when the caller's matches have distinct creation times, loading pages 1 to k of an unchanging table shows exactly the first `12 k` of the caller's ordered matches, without gaps or repeats |
| `EntriesTable.ScrollingEndsWithEverything` | frontend/src/components/EntriesTable.tsx:47-48 | when the caller's matches have distinct creation times, once a page reports no more, the list holds every match, newest first |
| `EntriesTable.TwoScrollTriggersOneRequest` | frontend/src/components/EntriesTable.tsx:33-71 | two scroll triggers while the page-2 fetch is pending issue exactly one request |
| `EntriesTable.SearchDuringLoadIsDropped` | frontend/src/components/EntriesTable.tsx:58-62 | a search change while a page loads requests nothing; the old search's page is then appended and `page` becomes 2 under the new search |
| `EntriesTable.Throttle.Call` | frontend/src/components/EntriesTable.tsx:166-173 | a call is forwarded exactly when no window is open, and the window is open afterwards |
| `EntriesTable.Throttle.WindowEnds` | frontend/src/components/EntriesTable.tsx:170-172 | the timer closes the window |
| `EntriesTable.ThrottleWindow` | frontend/src/components/EntriesTable.tsx:165-173 | the first call is forwarded, a call inside the window is dropped without being queued, and a call after the timer fires is forwarded |

## Left out

- The token middleware (`./middleware/auth.js`) is not part of this model: the caller's user id is a parameter, and the 401 answers for a missing, malformed or expired token and the 24-hour expiry check are not modelled.
- bcrypt and JWT are abstract: hash collisions, the work factor's cost, constant-time comparison and signatures are not modelled. In particular bcrypt reads only the first 72 bytes of a password, so a login also succeeds with any password that shares those bytes with the registered one; `Compare` accepts only the exact password.
- The 500 answers raised by exceptions (database errors and the like) are not modelled.
- `Text.ParseInt`: models `parseInt` on decimal input with leading ASCII white space (space, tab, line feed, vertical tab, form feed, carriage return); the `0x` hexadecimal prefix, other Unicode white space and repeated query parameters (arrays) are not modelled. Numbers are unbounded integers, whereas JavaScript's are doubles: `parseInt` rounds digit strings beyond 2^53 to the nearest double, so the server sees a different page for such a value.
- `Text.ParseIntString`: holds for every integer of the model, but in JavaScript only for integers of magnitude below 1e21 that are exact doubles (at most 2^53): `toString` writes 1e21 and beyond in exponent form (`"1e+21"`), which `parseInt` reads as 1, and larger values are rounded.
- `ApiClient.EntriesQuery`: the server reads back the page and limit sent only within the same bounds; the client sends only `page + 1` and 12, which stay far inside them.
- `Listing.ListEntries`: requires `page >= 1` and `limit >= 1`; a negative value that survives the defaulting is handed to Prisma, whose behaviour for it is not modelled.
- Case-insensitive matching uses ASCII lower-casing rather than the database's Unicode case folding.
- The order of entries with equal `createdAt` is the database's choice and may differ between queries; the model fixes one (stable) order. Within one query only newest-first and permutation are claimed; the statements below that span several page queries assume distinct creation times.
- `Listing.EveryMatchOnItsPage`: assumes the caller's matches have distinct creation times; with ties each page query may order them differently, and a tied match can then be on a different page or on none.
- `EntriesTable.ScrollingShowsPrefix`: assumes the caller's matches have distinct creation times; with ties the separate page queries need not share one order, so a tied row can be shown twice or not at all (`TiedRowsCanRepeatAcrossPages`).
- `EntriesTable.ScrollingEndsWithEverything`: assumes the caller's matches have distinct creation times, for the same reason.
- `ApiClient.ApiService.GetToken`: assumes this service is the only writer of the `authToken` storage key. Another tab that logs out or logs in changes storage without touching this tab's memory copy, and `getToken` then keeps answering the stale copy; that state is outside `Valid()` and not modelled.
- Concurrent requests, and listing reads that interleave with writes, are not modelled: each handler runs as one step on the table.
- HTTP routing, `fetch`, JSON encoding, the `/auth/me` call (a route the server does not define) and `AuthContext` are not modelled.
- The controller's `loading` state (used only for rendering) is not modelled; `pageRef`, `hasMoreRef` and `searchQueryRef` are taken equal to the state they mirror, so the window before a re-render syncs them is not modelled.
- Wall-clock time: the 500 ms throttle window and the 200-pixel sentinel distance are events and parameters, not durations.
- Rendering (`EntryForm`, `MovieCard`, `App`), the search box debounce and the database connection test are presentation or I/O and are not modelled.
