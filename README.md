# Employees caching: cache-aside service and ETag client

This project models, in Dafny, the two caches of the employees example
application and the value pair one of them stores.

- **`EmployeesService`** (back end) caches the whole employee listing under a
  single key of the "employees" cache. `listEmployees` answers from that entry
  when it is present. Otherwise it asks the repository once and stores the
  answer. `createEmployee`, `updateEmployee` and `deleteEmployee` clear the
  entry after they return normally. `findEmployeeById` never uses the cache.
  The model is the class `EmployeesBackend.EmployeesService`. Its fields are the
  repository's table (a sequence of `(id, name)` rows in id order), the
  identity counter, the cache slot, and a ghost count of repository listing
  calls. Its invariant `Valid()` includes cache coherence: a cached listing is
  always exactly the listing the repository would return now. Because every
  method keeps `Valid()`, `ListEmployees` always returns the current listing,
  whether it hits or misses.
- **`CacheableRestClientEmployeesClient`** (front end) keeps the last listing
  together with the ETag it was served with. It sends a conditional GET with
  `If-None-Match` (section 13.1.2 of RFC 9110). On `304 Not Modified`
  (section 15.4.5 of RFC 9110) it answers from the slot. Any other answer that
  `retrieve()` accepts (not an error status) replaces the slot with the new
  (ETag, body) pair. A failed request (an error status or a network failure)
  leaves the slot unchanged. The server's answer is a
  parameter of the method, and a ghost log `sent` records each request sent.
  The pure function `Receive` states the slot transition. The lemmas over runs
  of listings show that the slot always holds the pair of the last answer that
  carried a body.
- **`EtaggedValue`** is the immutable (etag, payload) pair, generic in the
  payload.

Files: `Wrappers.dfy` (Option, Result), `EtaggedValue.dfy`,
`EmployeesService.dfy`, `EmployeesClient.dfy`.

Three behaviours of the code are worth naming:

- `deleteEmployee` on an absent id returns normally, because Spring Data JPA 3's
  `deleteById` ignores an absent id. The model leaves the table as it is and
  clears the cache.
- A non-`304` answer without an `ETag` header is cached with a `null` etag. The
  next request then sends `If-None-Match: null`, because `"%s".formatted(null)`
  gives the text "null" (`FormatEtag`).
- A `304` answer while the slot is empty dereferences the `null` value at line 43
  of `CacheableRestClientEmployeesClient.java`. The model returns the error
  `NullValue` and never a list.

## Model

| member | source | states |
|---|---|---|
| `EtaggedValues.AccessorsReturnConstructorArguments` | employees-frontend-etag/src/main/java/employees/EtaggedValue.java:7-12 | the getters return exactly the etag and payload the all-args constructor was given |
| `EtaggedValues.EqualityIsFieldwise` | employees-frontend-etag/src/main/java/employees/EtaggedValue.java:7-12 | two pairs are equal iff their etags are equal and their payloads are equal |
| `EmployeesBackend.ToDto` | employees-backend-abstraction/src/main/java/employees/EmployeesService.java:48-50 | the DTO carries the entity's id and its name |
| `EmployeesBackend.ToDtoIsInjective` | employees-backend-abstraction/src/main/java/employees/EmployeesService.java:48-50 | `toDto` keeps all of the entity: distinct rows give distinct DTOs |
| `EmployeesBackend.FindById` | employees-backend-abstraction/src/main/java/employees/EmployeesService.java:25 | the repository lookup finds a row iff some row has that id, and the row it gives is in the table with that id |
| `EmployeesBackend.FindAllResources` | employees-backend-abstraction/src/main/java/employees/EmployeesService.java:21 | the repository listing has one DTO per row, in table order, with that row's id and name |
| `EmployeesBackend.Rename` | employees-backend-abstraction/src/main/java/employees/EmployeesService.java:39 | `setName` on the managed row changes the name of the row with that id only, and keeps every id |
| `EmployeesBackend.DeleteById` | employees-backend-abstraction/src/main/java/employees/EmployeesService.java:45 | the rows left are exactly those with another id; an absent id leaves the table unchanged |
| `EmployeesBackend.FindAfterSave` | employees-backend-abstraction/src/main/java/employees/EmployeesService.java:30-31 | after a save with a fresh id, that id finds the new row and every other lookup is unchanged |
| `EmployeesBackend.FindAfterRename` | employees-backend-abstraction/src/main/java/employees/EmployeesService.java:38-39 | after a rename, the id finds its row with the new name (or nothing if it was absent), and every other lookup is unchanged |
| `EmployeesBackend.FindAfterDelete` | employees-backend-abstraction/src/main/java/employees/EmployeesService.java:45 | after a delete, the id finds nothing and every other lookup is unchanged |
| `EmployeesBackend.RenameKeepsWellFormed` | employees-backend-abstraction/src/main/java/employees/EmployeesService.java:38-39 | renaming a row keeps the table well formed: ids increasing and all handed out already |
| `EmployeesBackend.ListingAfterSave` | employees-backend-abstraction/src/main/java/employees/EmployeesService.java:30-31 | saving a row at the end of the table adds exactly its DTO at the end of the listing |
| `EmployeesBackend.DeleteKeepsIdsIncreasing` | employees-backend-abstraction/src/main/java/employees/EmployeesService.java:43-46 | deleting keeps the table's ids strictly increasing (unique) |
| `EmployeesBackend.EmployeesService.constructor` | employees-backend-abstraction/src/main/java/employees/EmployeesService.java:13-17 | a service over a well-formed table starts with an empty cache and no listing calls |
| `EmployeesBackend.EmployeesService.ListEmployees` | employees-backend-abstraction/src/main/java/employees/EmployeesService.java:19-22 | on a hit returns the cached list without querying the repository; on a miss queries it exactly once and caches the answer; either way returns the repository's current listing and leaves the slot populated |
| `EmployeesBackend.EmployeesService.FindEmployeeById` | employees-backend-abstraction/src/main/java/employees/EmployeesService.java:24-25 | succeeds iff the id is in the table, returning that row's (id, name); otherwise fails with not-found for that id; changes nothing, the cache included |
| `EmployeesBackend.EmployeesService.CreateEmployee` | employees-backend-abstraction/src/main/java/employees/EmployeesService.java:28-33 | appends a row with a fresh, never-used id and the command's name, returns its (id, name), which is then findable, and clears the cache |
| `EmployeesBackend.EmployeesService.UpdateEmployee` | employees-backend-abstraction/src/main/java/employees/EmployeesService.java:35-41 | an absent id fails with not-found and changes neither the table nor the cache; a present id gets the new name, keeps its id, is returned as (id, new name) and the cache is cleared |
| `EmployeesBackend.EmployeesService.DeleteEmployee` | employees-backend-abstraction/src/main/java/employees/EmployeesService.java:43-46 | removes the id from the table (an absent id leaves the table unchanged) and leaves the cache empty |
| `EmployeesBackend.ListTwice` | employees-backend-abstraction/src/main/java/employees/EmployeesService.java:19-22 | two listings with nothing in between return the same list, and the repository is queried at most once (not at all on a populated cache) |
| `EmployeesBackend.CreateThenList` | employees-backend-abstraction/src/main/java/employees/EmployeesService.java:19-33 | a listing after a create queries the repository again and returns the old listing followed by the created employee |
| `EmployeesBackend.UpdateThenList` | employees-backend-abstraction/src/main/java/employees/EmployeesService.java:19-41 | a listing after a successful update queries the repository again and is exactly the renamed table's listing, so the old name is gone; after a failed update it is the unchanged table's listing |
| `EmployeesFrontend.FormatEtag` | employees-frontend-etag/src/main/java/employees/CacheableRestClientEmployeesClient.java:36 | the header value is the cached etag character for character, or the text "null" for a null etag |
| `EmployeesFrontend.ConditionalGet` | employees-frontend-etag/src/main/java/employees/CacheableRestClientEmployeesClient.java:31-37 | the GET carries `If-None-Match` iff the slot is populated, and then its value is the cached etag, or the text "null" when the cached etag is null |
| `EmployeesFrontend.Receive` | employees-frontend-etag/src/main/java/employees/CacheableRestClientEmployeesClient.java:38-49 | a `304` returns the cached payload and keeps the slot, or fails with `NullValue` on an empty slot; another answer replaces the slot with (ETag as given, body) and returns the body; a transport failure is passed on and leaves the slot |
| `EmployeesFrontend.RevalidationRoundTrip` | employees-frontend-etag/src/main/java/employees/CacheableRestClientEmployeesClient.java:34-49 | after an answer (e, b), the next GET sends `If-None-Match: e` and a `304` to it returns exactly b with the slot unchanged |
| `EmployeesFrontend.LastModified` | employees-frontend-etag/src/main/java/employees/CacheableRestClientEmployeesClient.java:45-48 | the pair it gives is the (ETag, body) of an answer in the run after which no answer carried a body; it gives nothing iff no answer in the run carried a body |
| `EmployeesFrontend.SlotHoldsLastModifiedPair` | employees-frontend-etag/src/main/java/employees/CacheableRestClientEmployeesClient.java:41-49 | over any run of listings the slot holds the (ETag, body) pair of the last answer with a body, as one unit, or its starting value if there was none |
| `EmployeesFrontend.NotModifiedServesLastBody` | employees-frontend-etag/src/main/java/employees/CacheableRestClientEmployeesClient.java:41-44 | a `304` after any run returns the body of the last answer that had one, or the starting payload |
| `EmployeesFrontend.CacheableRestClientEmployeesClient.constructor` | employees-frontend-etag/src/main/java/employees/CacheableRestClientEmployeesClient.java:14-21 | a new client has an empty slot and has sent nothing |
| `EmployeesFrontend.CacheableRestClientEmployeesClient.ListEmployees` | employees-frontend-etag/src/main/java/employees/CacheableRestClientEmployeesClient.java:23-51 | sends the conditional GET for the slot it started with, and its new slot and result are those `Receive` gives |
| `EmployeesFrontend.CacheableRestClientEmployeesClient.CreateEmployee` | employees-frontend-etag/src/main/java/employees/CacheableRestClientEmployeesClient.java:53-56 | sends a POST with the employee and passes back the created employee or the transport error; the slot is not touched |
| `EmployeesFrontend.ListThenRevalidate` | employees-frontend-etag/src/main/java/employees/CacheableRestClientEmployeesClient.java:34-49 | a listing answered (e, b) followed by one answered `304` sends `If-None-Match: e` the second time and returns b both times |

## Left out

- HTTP transport, JSON (de)serialisation, `ParameterizedTypeReference` and logging are left out. The server's answer is a method parameter, and the request is recorded in a ghost log.
- The `CacheManager` lookup by cache name and key is replaced by one fixed slot per component.
- `@Transactional` and concurrent use of the shared caches are left out. Each operation is one atomic sequential step.
- The repository is a sequence of (id, name) rows in id order with an identity counter. `findAllResources` is modelled as returning the rows in that order; the query in `EmployeesRepository.java` has no `ORDER BY`. Hibernate's second-level and query caches (`employees-backend-2nd`) are not part of this model.
- Repository failures are not modelled: `findAllResources`, `save`, `deleteById` and the commit of `setName` always succeed. In the source an exception from `findAllResources` leaves the cache empty, and an exception from a write (or its commit) skips the eviction, since the eviction runs only after a normal return. The model shows that rule only on the not-found path of `updateEmployee`.
- Lists are values here, so aliasing is not modelled. In the source the list returned by a back-end cache hit is the cached object itself, and so is the body the client both caches and returns. A caller that changes the returned list changes the cache entry too. The coherence part of `Valid()` assumes no caller does.
- Identities are unbounded integers, so the 64-bit `Long` range and its overflow are not modelled.
- The exception message text of `EmployeeNotFoundException` is not modelled; only the id it reports is.
- A non-`304` answer with no body (a `null` list) is not modelled; the body is always a list.
- `EtaggedValue`'s no-args constructor and its setters are not modelled. The client never calls them, and the pair is immutable here.
- `EmployeeResource.java`, `EmployeeNotFoundException.java`, the front end's `Employee.java` and the `EmployeesClient` interface are not part of this model. Both employee types are modelled as (id, name).
