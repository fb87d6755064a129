# ShareIt booking core in Dafny

ShareIt is an item-rental service. Users list items. Other users book an item
for a time window. The owner approves or rejects each booking. Once an
approved rental has ended, the booker may comment on the item. Users can also
post item requests, which owners answer by offering items.

This project models the core of that service as pure Dafny functions over
explicit stores and proves properties of them. It covers:

- the booking engine (`BookingServiceImpl`): create, approve or reject, read,
  and the two classified listings;
- the booking repository's thirteen queries (`BookingRepository`): the ten
  list queries as a filter followed by a stable sort, latest start first, and
  the three `findFirst…` finders as a search for the qualifying row with the
  largest key (latest start, earliest start, latest end);
- the item service (`ItemServiceImpl`): create, get, list, search, partial
  update, comments, and the last and next booking annotations;
- the user service (`UserServiceImpl`) and the item-request service
  (`ItemRequestServiceImpl`);
- the two in-memory repositories (`InMemoryItemRepository`,
  `InMemoryUserRepository`): a map plus an id counter.

Conventions:

- The current time is an explicit `now: int` argument.
- A Java `null` is `Option.None`.
- The service exceptions become `Result.Err` with one of three kinds:
  `NotFound`, `Validation` and `Forbidden`.
- An operation that writes returns `Step(store, result)`. For every modelled
  service operation an error is proved to leave the store unchanged. The one
  exception is `UserService.UpdateUserAsWritten`, which reproduces a defect
  of the code (see "Findings").
- The booking table is a `seq<Booking>` in insertion order with the last id
  handed out. A booking carries a copy of its item, taken when the booking
  was created, so the item's owner is `b.item.owner`.
- The list results of the in-memory repositories are `set`s, because a
  `HashMap`'s iteration order is unspecified.

Modules, one per component: `Common` (option, result, errors, blank test,
case folding, substring), `Domain` (entities), `Sorting` (filter, stable sort,
first-by-key, page), `BookingQueries`, `BookingService`, `ItemStore`,
`UserStore`, `UserService`, `ItemRequestService`, `ItemService`.

Two points of the code's own behaviour are easy to miss:

- **CURRENT differs between the views.** The booker query
  (`BookingRepository.java:15-16`) is strict on both sides. The owner query
  (`:36`, `BETWEEN`) is inclusive. So in the booker view a booking that
  starts or ends exactly at `now` is in none of CURRENT, PAST and FUTURE
  (`BookingQueries.BookerBucketsMissEndPoints`). In the owner view every
  booking with start <= end is in exactly one of them
  (`BookingQueries.OwnerBucketsPartition`).
- **The unknown-state message** is `"Unknown state: " + state`, with a
  capital U (`BookingServiceImpl.java:123`).

Every source path below is relative to the repository root.

## Model

| member | source | states |
|---|---|---|
| Common.Lower | src/main/java/ru/practicum/shareit/item/dao/InMemoryItemRepository.java:75-76 | `toLowerCase`: same length, each character folded on its own |
| Common.LowerIdempotent | src/main/java/ru/practicum/shareit/item/dao/InMemoryItemRepository.java:75-76 | folding a folded string changes nothing |
| Sorting.Filter | src/main/java/ru/practicum/shareit/booking/dao/BookingRepository.java:13-22 | keeps exactly the rows satisfying the predicate, each as often as in the input; nothing else |
| Sorting.FilterKeepsSortedDesc | src/main/java/ru/practicum/shareit/request/service/ItemRequestServiceImpl.java:60-62 | dropping rows from a list ordered latest first leaves it ordered |
| Sorting.InsertDesc | src/main/java/ru/practicum/shareit/booking/dao/BookingRepository.java:24-30 | inserting into a descending list keeps it descending and adds exactly the one element |
| Sorting.SortDesc | src/main/java/ru/practicum/shareit/booking/dao/BookingRepository.java:24-30 | `ORDER BY start DESC`: the result is a permutation of the input, ordered by key, largest first |
| Sorting.StrictMaxSortsFirst | src/main/java/ru/practicum/shareit/request/service/ItemRequestServiceImpl.java:61 | an element whose key beats every other comes first after sorting |
| Sorting.FirstMax | src/main/java/ru/practicum/shareit/booking/dao/BookingRepository.java:64-72 | `findFirst…OrderBy…`: absent iff no row qualifies; otherwise a qualifying row of the input whose key no qualifying row exceeds |
| Sorting.Page | src/main/java/ru/practicum/shareit/request/service/ItemRequestServiceImpl.java:61 | `PageRequest.of(page, size)`: at most `size` elements, element i is input element page*size+i, empty past the end, otherwise exactly min(size, what is left) long |
| Sorting.PageKeepsSortedDesc | src/main/java/ru/practicum/shareit/request/service/ItemRequestServiceImpl.java:61 | a page of a descending list is descending |
| BookingQueries.FindByBooker | src/main/java/ru/practicum/shareit/booking/dao/BookingRepository.java:13 | exactly the user's bookings, latest start first |
| BookingQueries.FindCurrentByBooker | src/main/java/ru/practicum/shareit/booking/dao/BookingRepository.java:15-16 | exactly the user's bookings with start < now < end (both strict), latest start first |
| BookingQueries.FindPastByBooker | src/main/java/ru/practicum/shareit/booking/dao/BookingRepository.java:18 | exactly the user's bookings with end < now, any status, latest start first |
| BookingQueries.FindFutureByBooker | src/main/java/ru/practicum/shareit/booking/dao/BookingRepository.java:20 | exactly the user's bookings with start > now, any status, latest start first |
| BookingQueries.FindByBookerAndStatus | src/main/java/ru/practicum/shareit/booking/dao/BookingRepository.java:22 | exactly the user's bookings with the given status, latest start first |
| BookingQueries.FindAllForOwner | src/main/java/ru/practicum/shareit/booking/dao/BookingRepository.java:24-30 | exactly the bookings of items the user owns, latest start first |
| BookingQueries.FindCurrentForOwner | src/main/java/ru/practicum/shareit/booking/dao/BookingRepository.java:32-38 | exactly the owner's bookings with start <= now <= end (`BETWEEN`, inclusive), latest start first |
| BookingQueries.FindPastForOwner | src/main/java/ru/practicum/shareit/booking/dao/BookingRepository.java:40-46 | exactly the owner's bookings with end < now, latest start first |
| BookingQueries.FindFutureForOwner | src/main/java/ru/practicum/shareit/booking/dao/BookingRepository.java:48-54 | exactly the owner's bookings with start > now, latest start first |
| BookingQueries.FindByStatusForOwner | src/main/java/ru/practicum/shareit/booking/dao/BookingRepository.java:56-62 | exactly the owner's bookings with the given status, latest start first |
| BookingQueries.FindLastApproved | src/main/java/ru/practicum/shareit/booking/dao/BookingRepository.java:64-65 | the item's approved booking with start < now and the latest start, or null when there is none |
| BookingQueries.FindNextApproved | src/main/java/ru/practicum/shareit/booking/dao/BookingRepository.java:67-68 | the item's approved booking with start > now and the earliest start, or null when there is none |
| BookingQueries.FindLatestCompletedRental | src/main/java/ru/practicum/shareit/booking/dao/BookingRepository.java:70-72 | the user's approved booking of the item with end < now and the latest end, or null when there is none |
| BookingQueries.OwnerBucketsPartition | src/main/java/ru/practicum/shareit/booking/dao/BookingRepository.java:36-52 | in the owner view a booking with start <= end is in exactly one of CURRENT, PAST and FUTURE |
| BookingQueries.BookerBucketsMissEndPoints | src/main/java/ru/practicum/shareit/booking/dao/BookingRepository.java:15-20 | in the booker view a booking starting or ending exactly at now is in none of CURRENT, PAST and FUTURE, while the owner sees it as CURRENT |
| BookingQueries.BookerCurrentWithinOwnerCurrent | src/main/java/ru/practicum/shareit/booking/dao/BookingRepository.java:15-38 | booker-CURRENT implies owner-CURRENT |
| BookingQueries.ClassifiedWithinAll | src/main/java/ru/practicum/shareit/booking/dao/BookingRepository.java:13-62 | every classified list of either view is contained in that view's ALL list |
| BookingQueries.LastApprovedLeadsOrderedList | src/main/java/ru/practicum/shareit/booking/dao/BookingRepository.java:64-65 | the last-booking finder is absent iff the ordered list of candidates is empty, and otherwise has that list's first start |
| BookingService.IndexOf | src/main/java/ru/practicum/shareit/booking/service/BookingServiceImpl.java:61-63 | `findById`: absent iff no row has the id; otherwise the first row with it |
| BookingService.IndexOfUnique | src/main/java/ru/practicum/shareit/booking/service/BookingServiceImpl.java:87-89 | with distinct ids, every stored booking is found by its id |
| BookingService.RejectsPeriodIff | src/main/java/ru/practicum/shareit/booking/service/BookingServiceImpl.java:48-49 | the period is refused iff start < now or end <= start; no check of end against now and no overlap check |
| BookingService.CreateBooking | src/main/java/ru/practicum/shareit/booking/service/BookingServiceImpl.java:34-53 | checks user, item, not own item (NotFound), availability, period (Validation) in that order, first failure wins, store unchanged on error; on success exactly one WAITING booking {start, end, item, booker = caller} with a fresh id is appended |
| BookingService.ApproveOrReject | src/main/java/ru/practicum/shareit/booking/service/BookingServiceImpl.java:56-80 | user, booking, owner (all NotFound), then WAITING (Validation, CANCELED included); on success only the status changes, to APPROVED or REJECTED |
| BookingService.GetBooking | src/main/java/ru/practicum/shareit/booking/service/BookingServiceImpl.java:83-95 | the booking is returned iff the caller exists and is its booker or its item's owner; every refusal is NotFound |
| BookingService.ParseState | src/main/java/ru/practicum/shareit/booking/service/BookingServiceImpl.java:102-124 | the exact, case-sensitive match of the six state names; nothing else is recognised |
| BookingService.ParseStateName | src/main/java/ru/practicum/shareit/booking/service/BookingServiceImpl.java:102-121 | each state is recognised under its own name |
| BookingService.BookerQuery | src/main/java/ru/practicum/shareit/booking/service/BookingServiceImpl.java:102-121 | each state goes to the query that lists exactly the booker's bookings in that state, each stored row once, latest start first |
| BookingService.OwnerQuery | src/main/java/ru/practicum/shareit/booking/service/BookingServiceImpl.java:132-150 | the same for the owner's view, with inclusive CURRENT |
| BookingService.ListByBooker | src/main/java/ru/practicum/shareit/booking/service/BookingServiceImpl.java:98-125 | user checked before the state; unknown state gives Validation "Unknown state: s"; otherwise exactly the caller's bookings in that state (strict CURRENT), each stored row once, latest start first |
| BookingService.ListByOwner | src/main/java/ru/practicum/shareit/booking/service/BookingServiceImpl.java:128-154 | same for bookings of the caller's items, with inclusive CURRENT, each stored row once |
| BookingService.OwnItemIsNotFound | src/main/java/ru/practicum/shareit/booking/service/BookingServiceImpl.java:42-43 | booking one's own item fails with NotFound whatever the availability and period |
| BookingService.ResolvedBookingIsFinal | src/main/java/ru/practicum/shareit/booking/service/BookingServiceImpl.java:68-77 | after a successful approve or reject, every further attempt fails, and the owner gets Validation |
| BookingService.IndexOfAfterUpdate | src/main/java/ru/practicum/shareit/booking/service/BookingServiceImpl.java:79 | saving a booking back under its id leaves every lookup by id unchanged |
| BookingService.StrangerGetsNotFound | src/main/java/ru/practicum/shareit/booking/service/BookingServiceImpl.java:91-92 | a user who is neither booker nor owner gets NotFound for a stored booking |
| BookingService.ListingsWithinAll | src/main/java/ru/practicum/shareit/booking/service/BookingServiceImpl.java:98-154 | every listing is contained in the ALL listing of the same view |
| BookingService.ApprovedRentalCompletes | src/main/java/ru/practicum/shareit/booking/service/BookingServiceImpl.java:34-125 | a created booking approved by an existing owner is listed as PAST once its end has passed, and is then the booker's completed rental |
| ItemStore.Save | src/main/java/ru/practicum/shareit/item/dao/InMemoryItemRepository.java:24-35 | null id: takes ++counter; given id: overwrites that entry and keeps the counter; nothing else changes |
| ItemStore.FindById | src/main/java/ru/practicum/shareit/item/dao/InMemoryItemRepository.java:38-43 | the stored item, or empty exactly when the id is not stored |
| ItemStore.ExistsById | src/main/java/ru/practicum/shareit/item/dao/InMemoryItemRepository.java:46-48 | the stub answers false |
| ItemStore.FindItemsByOwnerId | src/main/java/ru/practicum/shareit/item/dao/InMemoryItemRepository.java:63-70 | exactly the stored items of that owner |
| ItemStore.FindItemsByText | src/main/java/ru/practicum/shareit/item/dao/InMemoryItemRepository.java:73-81 | exactly the stored available items whose lower-cased name or description contains the lower-cased text |
| ItemStore.FindAfterSave | src/main/java/ru/practicum/shareit/item/dao/InMemoryItemRepository.java:24-43 | after a save, its id finds the saved item and every other id finds what it found before |
| ItemStore.SaveKeepsValid | src/main/java/ru/practicum/shareit/item/dao/InMemoryItemRepository.java:27-31 | saves keep every key equal to its item's id and within the counter; a new item adds exactly one entry |
| ItemStore.FreshIdsCount | src/main/java/ru/practicum/shareit/item/dao/InMemoryItemRepository.java:27-29 | new items get ids counter+1, counter+2, … in the order saved, and the counter grows by their number |
| ItemStore.ExistsByIdIgnoresStore | src/main/java/ru/practicum/shareit/item/dao/InMemoryItemRepository.java:38-48 | a saved item is found by `findById` yet reported absent by `existsById` |
| ItemStore.SavedItemListedForOwner | src/main/java/ru/practicum/shareit/item/dao/InMemoryItemRepository.java:63-70 | a saved item is listed for its owner and for nobody else |
| ItemStore.SearchIgnoresCase | src/main/java/ru/practicum/shareit/item/dao/InMemoryItemRepository.java:75-76 | searching for the lower-cased text finds exactly what the text finds |
| ItemStore.SearchFindsName | src/main/java/ru/practicum/shareit/item/dao/InMemoryItemRepository.java:73-77 | an available saved item is found by its own name |
| UserStore.Save | src/main/java/ru/practicum/shareit/user/dao/InMemoryUserRepository.java:24-35 | refused with Validation iff another user has the email, leaving store and counter unchanged; otherwise as the item save |
| UserStore.FindById | src/main/java/ru/practicum/shareit/user/dao/InMemoryUserRepository.java:38-43 | the stored user, or empty exactly when the id is not stored |
| UserStore.FindAll | src/main/java/ru/practicum/shareit/user/dao/InMemoryUserRepository.java:46-56 | exactly the stored users; empty on an empty store |
| UserStore.DeleteById | src/main/java/ru/practicum/shareit/user/dao/InMemoryUserRepository.java:58-62 | removes that id only; every other entry and the counter are unchanged |
| UserStore.ExistsById | src/main/java/ru/practicum/shareit/user/dao/InMemoryUserRepository.java:77-80 | the stub answers false |
| UserStore.FindAllFollowsSaveAndDelete | src/main/java/ru/practicum/shareit/user/dao/InMemoryUserRepository.java:24-62 | a saved user is listed at once; after a delete no user with that id is listed, and every other stored user still is |
| UserStore.ExistsByIdIgnoresStore | src/main/java/ru/practicum/shareit/user/dao/InMemoryUserRepository.java:38-43 | a user just saved is found by `findById` yet reported absent by `existsById` (:77-80) |
| UserStore.SaveKeepsInvariant | src/main/java/ru/practicum/shareit/user/dao/InMemoryUserRepository.java:64-75 | saves keep emails unique and keys equal to ids |
| UserStore.ResaveOwnEmailAllowed | src/main/java/ru/practicum/shareit/user/dao/InMemoryUserRepository.java:68-69 | re-saving a stored user with its own email is never refused |
| UserStore.DuplicateEmailRejected | src/main/java/ru/practicum/shareit/user/dao/InMemoryUserRepository.java:27-32 | a new user with a stored email is refused and nothing changes, the counter included |
| UserStore.DeleteKeepsInvariant | src/main/java/ru/practicum/shareit/user/dao/InMemoryUserRepository.java:58-62 | after a delete the id is not found, every other id finds the same user, and the invariants hold |
| UserService.GetUser | src/main/java/ru/practicum/shareit/user/service/UserServiceImpl.java:30-33 | the stored user, or NotFound exactly when it is missing |
| UserService.GetUserAfterSave | src/main/java/ru/practicum/shareit/user/service/UserServiceImpl.java:30-33 | after a save, the new id returns the saved user with the given name and email, and every other id returns what it did before |
| UserService.Patch | src/main/java/ru/practicum/shareit/user/service/UserServiceImpl.java:59-64 | only non-null fields are overwritten; the id is kept |
| UserService.UpdateGuard | src/main/java/ru/practicum/shareit/user/service/UserServiceImpl.java:42-58 | existence (NotFound), then a blank non-null name, then a blank non-null email (Validation) |
| UserService.UpdateUser | src/main/java/ru/practicum/shareit/user/service/UserServiceImpl.java:41-67 | corrected update: guard errors in order; otherwise Ok iff no other user has the new email; only the non-null fields change; every refusal leaves the store unchanged |
| UserService.UpdateUserAsWritten | src/main/java/ru/practicum/shareit/user/service/UserServiceImpl.java:41-67 | the update as the code runs on the in-memory store: once the guards pass, the patched user is stored even when the email check then refuses it with Validation and an unchanged counter |
| UserService.EmptyUpdateIsIdentity | src/main/java/ru/practicum/shareit/user/service/UserServiceImpl.java:59-66 | an update with no fields returns the stored user and leaves the store as it was |
| UserService.UpdateKeepsInvariant | src/main/java/ru/practicum/shareit/user/service/UserServiceImpl.java:41-67 | the corrected update keeps emails unique and never changes the user's id |
| UserService.MissingUserBeforeBlankFields | src/main/java/ru/practicum/shareit/user/service/UserServiceImpl.java:42-52 | a missing user with blank fields gets NotFound, not Validation |
| UserService.AsWrittenRefusedUpdateBreaksUniqueEmails | src/main/java/ru/practicum/shareit/user/service/UserServiceImpl.java:42-66 | counterexample: a refused as-written update leaves two users with one email |
| UserService.AsWrittenAgreesOnAcceptedUpdates | src/main/java/ru/practicum/shareit/user/service/UserServiceImpl.java:41-67 | the as-written and the corrected update accept the same requests and agree on accepted ones |
| ItemRequestService.ItemsFor | src/main/java/ru/practicum/shareit/item/dao/ItemRepository.java:18 | exactly the items whose request is the given one |
| ItemRequestService.Views | src/main/java/ru/practicum/shareit/request/service/ItemRequestServiceImpl.java:49-51 | each request, in order, paired with exactly its items |
| ItemRequestService.FindRequest | src/main/java/ru/practicum/shareit/request/service/ItemRequestServiceImpl.java:73-74 | absent iff no stored request has the id; otherwise a stored request with it |
| ItemRequestService.AddRequest | src/main/java/ru/practicum/shareit/request/service/ItemRequestServiceImpl.java:35-42 | NotFound for a missing user, store unchanged; otherwise stores {description, requestor = user, created = now} under a fresh id |
| ItemRequestService.MadeBy | src/main/java/ru/practicum/shareit/request/service/ItemRequestServiceImpl.java:49 | exactly the user's requests, each stored row once |
| ItemRequestService.FindItemRequestsByUser | src/main/java/ru/practicum/shareit/request/service/ItemRequestServiceImpl.java:45-52 | NotFound for a missing user; otherwise exactly the user's requests, each stored row once, each with exactly its items |
| ItemRequestService.NewestFirstPage | src/main/java/ru/practicum/shareit/request/service/ItemRequestServiceImpl.java:60-61 | the page is the page-th block of `size` rows of all requests ordered newest first (some permutation of the table sorted by creation time) |
| ItemRequestService.OthersOnPage | src/main/java/ru/practicum/shareit/request/service/ItemRequestServiceImpl.java:60-62 | only requests on the requested page, by other users, each as often as on the page; every such request is kept; still newest first |
| ItemRequestService.FindItemRequestsByAnotherUser | src/main/java/ru/practicum/shareit/request/service/ItemRequestServiceImpl.java:56-65 | NotFound for a missing user; otherwise exactly the requested page's requests by other users, each once, newest first, each with exactly its items |
| ItemRequestService.GetItemRequestById | src/main/java/ru/practicum/shareit/request/service/ItemRequestServiceImpl.java:69-76 | user checked first, then the request, both NotFound; otherwise the request with exactly its items |
| ItemRequestService.FindRequestUnique | src/main/java/ru/practicum/shareit/request/service/ItemRequestServiceImpl.java:73-74 | with distinct ids, every stored request is found by its id |
| ItemRequestService.AddThenGet | src/main/java/ru/practicum/shareit/request/service/ItemRequestServiceImpl.java:35-76 | a request just added is returned by id to any existing user |
| ItemRequestService.AddedRequestListedForAuthorOnly | src/main/java/ru/practicum/shareit/request/service/ItemRequestServiceImpl.java:45-65 | a new request is in its author's own list and on no page of the author's "other users" list |
| ItemRequestService.NewestOtherRequestOnFirstPage | src/main/java/ru/practicum/shareit/request/service/ItemRequestServiceImpl.java:60-62 | the strictly newest request by someone else is on page 0 |
| ItemService.RefOf | src/main/java/ru/practicum/shareit/item/service/ItemServiceImpl.java:157-162 | a booking is shown as its id and booker id; null stays null |
| ItemService.CommentsOf | src/main/java/ru/practicum/shareit/item/service/ItemServiceImpl.java:71 | exactly the comments on the item |
| ItemService.Annotate | src/main/java/ru/practicum/shareit/item/service/ItemServiceImpl.java:156-163 | last = the approved booking with start < now and the latest start (an ongoing one counts); next = the approved booking with start > now and the earliest start; each may be absent |
| ItemService.CreateItem | src/main/java/ru/practicum/shareit/item/service/ItemServiceImpl.java:47-62 | NotFound for a missing owner or a missing named request, store unchanged; otherwise the item with a fresh id, this owner and this request |
| ItemService.GetItem | src/main/java/ru/practicum/shareit/item/service/ItemServiceImpl.java:65-76 | NotFound for a missing user or item; the item and the comments filed under the requested id; last and next for the owner only, none for anyone else |
| ItemService.FindItemsByUser | src/main/java/ru/practicum/shareit/item/service/ItemServiceImpl.java:79-83 | every item of the owner, each with its comments and its last and next bookings; no user check; exactly one view per item |
| ItemService.FindItemsByText | src/main/java/ru/practicum/shareit/item/service/ItemServiceImpl.java:86-97 | NotFound for a missing user; blank text finds nothing; otherwise exactly the matching available items |
| ItemService.PatchItem | src/main/java/ru/practicum/shareit/item/service/ItemServiceImpl.java:129-131 | only non-null name, description and availability change; id, owner and request stay |
| ItemService.UpdateItemGuard | src/main/java/ru/practicum/shareit/item/service/ItemServiceImpl.java:105-128 | blank name, then blank description (Validation) before the user and item lookups (NotFound), then owner (Forbidden) |
| ItemService.UpdateItem | src/main/java/ru/practicum/shareit/item/service/ItemServiceImpl.java:100-134 | guard errors leave the store unchanged; otherwise only the non-null fields of that item change |
| ItemService.AddComment | src/main/java/ru/practicum/shareit/item/service/ItemServiceImpl.java:137-154 | NotFound for a missing user or item; Validation unless the user has an approved booking of the item with end < now; otherwise a comment {text, item, author = user, created = now} with a fresh id |
| ItemService.OwnerAndStrangerSeeSameItem | src/main/java/ru/practicum/shareit/item/service/ItemServiceImpl.java:69-73 | owner and stranger see the same item and comments; only the owner gets annotations |
| ItemService.OngoingBookingIsLast | src/main/java/ru/practicum/shareit/item/service/ItemServiceImpl.java:156-162 | an ongoing approved booking that started after every other started approved booking is shown as last and never as next, whatever approved bookings lie ahead |
| ItemService.UpdateKeepsStore | src/main/java/ru/practicum/shareit/item/service/ItemServiceImpl.java:129-133 | updates keep the store consistent; an empty update changes nothing |
| ItemService.BlankNameBeforeLookups | src/main/java/ru/practicum/shareit/item/service/ItemServiceImpl.java:105-118 | a blank name is refused with Validation even when user and item are missing |
| ItemService.CreatedItemIsShown | src/main/java/ru/practicum/shareit/item/service/ItemServiceImpl.java:47-97 | a new item is shown to its owner with no last or next booking, whatever bookings of existing items the table holds, and no comments, and is found by its name |
| ItemService.CommentAllowed | src/main/java/ru/practicum/shareit/item/service/ItemServiceImpl.java:144-153 | a completed rental is enough for the comment to be accepted |
| ItemService.CommentAfterCompletedRental | src/main/java/ru/practicum/shareit/item/service/ItemServiceImpl.java:137-154 | create, then approve by the owner: after the end, the booker's comment is accepted |

## Left out

- HTTP controllers, gateway clients, header parsing and bean-validation annotations: transport, not logic.
- The controllers' `subList` pagination of booking lists: transport plumbing.
- Mappers and DTOs: field copies. A booking reference on an item is modelled as its id and booker id only.
- The `ErrorHandler` mapping to HTTP status codes: only the three error kinds are kept.
- Spring and JPA wiring and SQL execution: the stores are sequences and maps, and the queries are pure filters and sorts.
- JPA-generated ids for bookings, comments and requests: modelled as "last id + 1".
- `LocalDateTime.now()` is the parameter `now`. One value is used where the code reads the clock more than once in a call (`BookingServiceImpl.java:108`, `ItemServiceImpl.java:145,153`).
- The read-then-write race in approve/reject: a concurrency concern outside a sequential model.
- `Long` overflow of the id counters: ids are unbounded `nat`s.
- `LIKE` wildcards (`%`, `_`) typed in the search text: the JPA query would read them as patterns; the model treats text literally, as the in-memory repository does.
- Case folding beyond ASCII, Latin-1 and basic Cyrillic (`toLowerCase` and `upper` over all of Unicode), and the dependence of the no-argument `toLowerCase()` on the JVM's default locale (for example the Turkish dotted and dotless i): `Common.LowerChar` applies one fixed table.
- `InMemoryItemRepository.findAll` and the other `JpaRepository` methods both in-memory repositories stub out (returning null, 0, false or nothing, `InMemoryItemRepository.java:84-200`, `InMemoryUserRepository.java:83-203`): the services do not call them.
- `createUser`, `findAllUsers`, `deleteUser` of `UserServiceImpl`: each is a single delegation to the repository, modelled there.
- Order of `findRequestsByRequestorId`, `findItemsByOwnerId` and `findAllByItemId`: unspecified in the source. The first is modelled in table order; the other two as sets.
- Services look users and items up by map membership, which is what `existsById` means for a JPA repository. The in-memory stubs that always answer false are modelled separately (`ItemStore.ExistsById`, `UserStore.ExistsById`).
- `PageRequest.of` rejects a size below 1 or a negative page with an `IllegalArgumentException`. `FindItemRequestsByAnotherUser` therefore requires `size >= 1`, and the page is a `nat`.
- UserService.UpdateUser: the key is saved under the looked-up id. The source uses the stored user's id field, which equals the key in every consistent store (`UserStore.Valid`).
- ItemService.UpdateItem: same convention as UserService.UpdateUser.
- Bookings hold a snapshot of their item, not a live reference as the JPA entity does: an item field changed by `UpdateItem` later is not seen through its bookings. The booking logic reads the item's availability only when the booking is created; it reads the id and owner through the snapshot later as well, and `UpdateItem` never changes either.
- Error messages: only the error kind (NotFound, Validation, Forbidden) follows the source. The reason strings are English paraphrases of the source's Russian messages, except "Unknown state: ", which is the code's own text.
- FindItemRequestsByAnotherUser: `page` is a page index, because `ItemRequestServiceImpl.java:61` passes `from` to `PageRequest.of`. The booking and item controllers treat their `from` parameter as an element offset instead (`subList(from, …)`, `BookingController.java:60`). The source is inconsistent here, and the model follows each place as written.

## Findings

| source | as written | input that shows it | evidently intended | confidence | as-written member | corrected member |
|---|---|---|---|---|---|---|
| src/main/java/ru/practicum/shareit/user/service/UserServiceImpl.java:42-66 | `findById` returns the user object held in the in-memory map. `setEmail`/`setName` change that stored object before `save` runs `checkFreeEmail`. A refused save does not undo the change. | users {1: a@x, 2: b@x}; user 1 updates its email to b@x. The call fails with Validation, yet both stored users now have b@x. | a refused update changes nothing, and emails stay unique | medium, not executed; it holds when the in-memory user repository backs the service | UserService.UpdateUserAsWritten, UserService.AsWrittenRefusedUpdateBreaksUniqueEmails | UserService.UpdateUser, UserService.UpdateKeepsInvariant |
