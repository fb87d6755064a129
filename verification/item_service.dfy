/**
 The item service: offering items (optionally in answer to a request),
 showing one item or an owner's items with their comments and, to the
 owner only, the last and next approved bookings, the text search, the
 partial update, and comments, which only a user whose approved rental of
 the item has ended may leave.
 */
module ItemService {
  import opened Common
  import opened Domain
  import opened Sorting
  import opened BookingQueries
  import IS = ItemStore
  import RS = ItemRequestService
  import BookingService

  /** The comment table: rows in insertion order and the last id handed out. */
  datatype CommentTable = CommentTable(rows: seq<Comment>, lastId: nat)

  /** An item as it is shown: its comments (a list in no particular order
      in the source) and, for its owner, the last and next approved bookings. */
  datatype ItemView = ItemView(item: Item, last: Option<BookingRef>, next: Option<BookingRef>, comments: set<Comment>)

  const UnknownOwner := "attempt to add an item by a nonexistent owner"
  const UnknownRequestOfItem := "attempt to add an item for a nonexistent request"
  const UnknownViewer := "attempt to get an item by a nonexistent user"
  const UnknownItemToView := "attempt to get a nonexistent item"
  const UnknownSearcher := "attempt to search items by a nonexistent user"
  const BlankItemName := "the item name must not be blank"
  const BlankItemDescription := "the item description must not be blank"
  const UnknownEditor := "attempt to edit an item by a nonexistent owner"
  const UnknownItemToEdit := "attempt to edit a nonexistent item"
  const NotItemOwner := "attempt to edit an item by a user who is not its owner"
  const UnknownCommenter := "attempt to comment by a nonexistent user"
  const UnknownItemToComment := "attempt to comment on a nonexistent item"
  const NoCompletedRental := "the user has not rented the item, or the rental has not ended yet"

  // ---- What the owner sees ------------------------------------------------

  function RefOf(b: Option<Booking>): (r: Option<BookingRef>)
    ensures r.Some? <==> b.Some?
    ensures r.Some? ==> r.value == BookingRef(b.value.id, b.value.booker)
  {
    match b
    case None => None
    case Some(x) => Some(BookingRef(x.id, x.booker))
  }

  /** `ref` is what the owner is shown as the last booking: the approved
      booking of the item that started most recently before `now` (an
      ongoing one included), or nothing when there is none. */
  ghost predicate IsLastRef(rows: seq<Booking>, itemId: nat, now: int, ref: Option<BookingRef>) {
    && (ref.None? <==> forall b :: b in rows ==> !(b.item.id == itemId && b.status == Approved && b.start < now))
    && (ref.Some? ==> exists b :: && b in rows && b.item.id == itemId && b.status == Approved && b.start < now
                                 && ref.value == BookingRef(b.id, b.booker)
                                 && forall c :: c in rows && c.item.id == itemId && c.status == Approved && c.start < now ==>
                                                  c.start <= b.start)
  }

  /** `ref` is what the owner is shown as the next booking: the approved
      booking of the item that starts soonest after `now`, or nothing. */
  ghost predicate IsNextRef(rows: seq<Booking>, itemId: nat, now: int, ref: Option<BookingRef>) {
    && (ref.None? <==> forall b :: b in rows ==> !(b.item.id == itemId && b.status == Approved && b.start > now))
    && (ref.Some? ==> exists b :: && b in rows && b.item.id == itemId && b.status == Approved && b.start > now
                                 && ref.value == BookingRef(b.id, b.booker)
                                 && forall c :: c in rows && c.item.id == itemId && c.status == Approved && c.start > now ==>
                                                  b.start <= c.start)
  }

  /** `findAllByItemId` */
  function CommentsOf(comments: CommentTable, itemId: nat): (r: set<Comment>)
    ensures forall c :: c in r <==> c in comments.rows && c.item == itemId
  {
    set c | c in comments.rows && c.item == itemId
  }

  /** The view anyone may see: the item and its comments. */
  function PlainView(comments: CommentTable, item: Item): ItemView {
    ItemView(item, None, None, CommentsOf(comments, item.id))
  }

  /** `addLastAndNextBookingsToItemDtoOwner` */
  function Annotate(v: ItemView, rows: seq<Booking>, now: int): (r: ItemView)
    ensures r.item == v.item && r.comments == v.comments
    ensures IsLastRef(rows, v.item.id, now, r.last)
    ensures IsNextRef(rows, v.item.id, now, r.next)
  {
    var last := FindLastApproved(rows, v.item.id, now);
    var next := FindNextApproved(rows, v.item.id, now);
    v.(last := RefOf(last), next := RefOf(next))
  }

  // ---- Operations ---------------------------------------------------------

  /** `createItem`: the owner must exist, and so must the request the item
      answers when one is named; the item is saved under a fresh id. */
  function CreateItem(users: map<nat, User>, store: IS.ItemStore, requests: RS.RequestTable, userId: nat,
                      name: string, description: string, available: bool, requestId: Option<nat>)
    : (r: Step<IS.ItemStore, Item>)
    ensures userId !in users ==> r.result == Err(NotFound(UnknownOwner))
    ensures userId in users && requestId.Some? && RS.FindRequest(requests.rows, requestId.value).None? ==>
              r.result == Err(NotFound(UnknownRequestOfItem))
    ensures r.result.Ok? <==> userId in users && (requestId.Some? ==> RS.FindRequest(requests.rows, requestId.value).Some?)
    ensures r.result.Err? ==> r.store == store
    ensures r.result.Ok? ==>
              && r.result.value == Item(store.counter + 1, name, description, available, userId, requestId)
              && r.store.counter == store.counter + 1
              && r.store.items == store.items[r.result.value.id := r.result.value]
    ensures IS.Valid(store) ==> IS.Valid(r.store)
    ensures IS.Valid(store) && r.result.Ok? ==> r.result.value.id !in store.items
  {
    if userId !in users then Step(store, Err(NotFound(UnknownOwner)))
    else if requestId.Some? && RS.FindRequest(requests.rows, requestId.value).None? then
      Step(store, Err(NotFound(UnknownRequestOfItem)))
    else
      var (s', saved) := IS.Save(store, None, Item(0, name, description, available, userId, requestId));
      Step(s', Ok(saved))
  }

  /** `getItem`: the caller and the item must exist; only the owner sees
      the last and next bookings. */
  function GetItem(users: map<nat, User>, store: IS.ItemStore, comments: CommentTable, bookings: seq<Booking>,
                   userId: nat, itemId: nat, now: int)
    : (r: Result<ItemView>)
    ensures userId !in users ==> r == Err(NotFound(UnknownViewer))
    ensures userId in users && itemId !in store.items ==> r == Err(NotFound(UnknownItemToView))
    ensures r.Ok? <==> userId in users && itemId in store.items
    ensures r.Ok? ==> r.value.item == store.items[itemId]
                      && r.value.comments == CommentsOf(comments, itemId)
    ensures r.Ok? && r.value.item.owner == userId ==>
              IsLastRef(bookings, r.value.item.id, now, r.value.last) && IsNextRef(bookings, r.value.item.id, now, r.value.next)
    ensures r.Ok? && r.value.item.owner != userId ==> r.value.last.None? && r.value.next.None?
  {
    if userId !in users then Err(NotFound(UnknownViewer))
    else
      match IS.FindById(store, itemId)
      case None => Err(NotFound(UnknownItemToView))
      case Some(item) =>
        var v := ItemView(item, None, None, CommentsOf(comments, itemId));
        if item.owner == userId then Ok(Annotate(v, bookings, now)) else Ok(v)
  }

  /** `findItemsByUser`: every item of the owner, each with its comments and
      its last and next bookings. The owner is not looked up: an unknown
      user simply owns nothing. */
  function FindItemsByUser(store: IS.ItemStore, comments: CommentTable, bookings: seq<Booking>, userId: nat, now: int)
    : (r: set<ItemView>)
    ensures forall v :: v in r ==>
              && v.item in store.items.Values && v.item.owner == userId
              && v.comments == CommentsOf(comments, v.item.id)
              && IsLastRef(bookings, v.item.id, now, v.last) && IsNextRef(bookings, v.item.id, now, v.next)
    ensures forall it :: it in store.items.Values && it.owner == userId ==> exists v :: v in r && v.item == it
    ensures forall v, w :: v in r && w in r && v.item == w.item ==> v == w
  {
    var own := IS.FindItemsByOwnerId(store, userId);
    var r := set it | it in own :: Annotate(PlainView(comments, it), bookings, now);
    assert forall it :: it in own ==> Annotate(PlainView(comments, it), bookings, now) in r;
    r
  }

  /** `findItemsByText`: the caller must exist; blank text finds nothing
      without consulting the store. */
  function FindItemsByText(users: map<nat, User>, store: IS.ItemStore, userId: nat, text: string)
    : (r: Result<set<Item>>)
    ensures r.Err? <==> userId !in users
    ensures r.Err? ==> r.error == NotFound(UnknownSearcher)
    ensures r.Ok? && IsBlank(text) ==> r.value == {}
    ensures r.Ok? && !IsBlank(text) ==> forall it :: it in r.value <==> it in store.items.Values && IS.MatchesText(it, text)
  {
    if userId !in users then Err(NotFound(UnknownSearcher))
    else if IsBlank(text) then Ok({})
    else Ok(IS.FindItemsByText(store, text))
  }

  /** The item with the non-null fields of the request copied over it. */
  function PatchItem(it: Item, name: Option<string>, description: Option<string>, available: Option<bool>): (r: Item)
    ensures r.id == it.id && r.owner == it.owner && r.request == it.request
    ensures r.name == (if name.Some? then name.value else it.name)
    ensures r.description == (if description.Some? then description.value else it.description)
    ensures r.available == (if available.Some? then available.value else it.available)
  {
    it.(name := name.GetOr(it.name), description := description.GetOr(it.description),
        available := available.GetOr(it.available))
  }

  /** The first failing check of an item update, in the order the service
      runs them: the blank-field checks come before any lookup. */
  function UpdateItemGuard(users: map<nat, User>, store: IS.ItemStore, userId: nat, itemId: nat,
                           name: Option<string>, description: Option<string>)
    : (r: Option<Error>)
    ensures name.Some? && IsBlank(name.value) ==> r == Some(Validation(BlankItemName))
    ensures !(name.Some? && IsBlank(name.value)) && description.Some? && IsBlank(description.value) ==>
              r == Some(Validation(BlankItemDescription))
    ensures !(name.Some? && IsBlank(name.value)) && !(description.Some? && IsBlank(description.value)) ==>
              && (userId !in users ==> r == Some(NotFound(UnknownEditor)))
              && (userId in users && itemId !in store.items ==> r == Some(NotFound(UnknownItemToEdit)))
              && (userId in users && itemId in store.items && store.items[itemId].owner != userId ==>
                    r == Some(Forbidden(NotItemOwner)))
    ensures r.None? <==> && !(name.Some? && IsBlank(name.value)) && !(description.Some? && IsBlank(description.value))
                         && userId in users && itemId in store.items && store.items[itemId].owner == userId
  {
    if name.Some? && IsBlank(name.value) then Some(Validation(BlankItemName))
    else if description.Some? && IsBlank(description.value) then Some(Validation(BlankItemDescription))
    else if userId !in users then Some(NotFound(UnknownEditor))
    else if itemId !in store.items then Some(NotFound(UnknownItemToEdit))
    else if store.items[itemId].owner != userId then Some(Forbidden(NotItemOwner))
    else None
  }

  /** `updateItem`: only the owner may edit, and only the non-null fields
      among name, description and availability change. */
  function UpdateItem(users: map<nat, User>, store: IS.ItemStore, userId: nat, itemId: nat,
                      name: Option<string>, description: Option<string>, available: Option<bool>)
    : (r: Step<IS.ItemStore, Item>)
    ensures UpdateItemGuard(users, store, userId, itemId, name, description).Some? ==>
              r == Step(store, Err(UpdateItemGuard(users, store, userId, itemId, name, description).value))
    ensures r.result.Ok? <==> UpdateItemGuard(users, store, userId, itemId, name, description).None?
    ensures r.result.Ok? ==>
              var before := store.items[itemId];
              var it := r.result.value;
              && it.id == itemId && it.owner == before.owner && it.request == before.request
              && it.name == (if name.Some? then name.value else before.name)
              && it.description == (if description.Some? then description.value else before.description)
              && it.available == (if available.Some? then available.value else before.available)
              && r.store.counter == store.counter
              && r.store.items == store.items[itemId := it]
  {
    match UpdateItemGuard(users, store, userId, itemId, name, description)
    case Some(e) => Step(store, Err(e))
    case None =>
      var (s', saved) := IS.Save(store, Some(itemId), PatchItem(store.items[itemId], name, description, available));
      Step(s', Ok(saved))
  }

  /** `addComment`: the author and the item must exist, and the author must
      have an approved rental of the item that has ended. */
  function AddComment(users: map<nat, User>, store: IS.ItemStore, comments: CommentTable, bookings: seq<Booking>,
                      userId: nat, itemId: nat, text: string, now: int)
    : (r: Step<CommentTable, Comment>)
    ensures userId !in users ==> r.result == Err(NotFound(UnknownCommenter))
    ensures userId in users && itemId !in store.items ==> r.result == Err(NotFound(UnknownItemToComment))
    ensures userId in users && itemId in store.items
            && (forall b :: b in bookings ==> !(b.booker == userId && b.item.id == itemId && b.status == Approved && b.end < now))
            ==> r.result == Err(Validation(NoCompletedRental))
    ensures r.result.Ok? <==> && userId in users && itemId in store.items
                              && exists b :: b in bookings && b.booker == userId && b.item.id == itemId
                                             && b.status == Approved && b.end < now
    ensures r.result.Err? ==> r.store == comments
    ensures r.result.Ok? ==>
              && r.result.value == Comment(comments.lastId + 1, text, itemId, userId, now)
              && r.store == CommentTable(comments.rows + [r.result.value], comments.lastId + 1)
  {
    if userId !in users then Step(comments, Err(NotFound(UnknownCommenter)))
    else if itemId !in store.items then Step(comments, Err(NotFound(UnknownItemToComment)))
    else if FindLatestCompletedRental(bookings, userId, itemId, now).None? then
      Step(comments, Err(Validation(NoCompletedRental)))
    else
      var c := Comment(comments.lastId + 1, text, itemId, userId, now);
      Step(CommentTable(comments.rows + [c], c.id), Ok(c))
  }

  // ---- Properties ---------------------------------------------------------

  /** Owner and stranger see the same item and comments; they differ only in
      the booking annotations, which a stranger never gets. */
  lemma OwnerAndStrangerSeeSameItem(users: map<nat, User>, store: IS.ItemStore, comments: CommentTable,
                                    bookings: seq<Booking>, itemId: nat, stranger: nat, now: int)
    requires itemId in store.items
    requires store.items[itemId].owner in users && stranger in users
    requires stranger != store.items[itemId].owner
    ensures var mine := GetItem(users, store, comments, bookings, store.items[itemId].owner, itemId, now);
            var theirs := GetItem(users, store, comments, bookings, stranger, itemId, now);
            && mine.Ok? && theirs.Ok?
            && theirs.value == mine.value.(last := None, next := None)
  {
  }

  /** An approved booking that has started but not ended is shown to the
      owner as the last booking, never as the next one, whatever approved
      bookings lie ahead of it. */
  lemma OngoingBookingIsLast(users: map<nat, User>, store: IS.ItemStore, comments: CommentTable,
                             bookings: seq<Booking>, itemId: nat, b: Booking, now: int)
    requires itemId in store.items && store.items[itemId].id == itemId
    requires store.items[itemId].owner in users
    requires forall c :: c in bookings && c.id == b.id ==> c == b
    requires b in bookings && b.item.id == itemId && b.status == Approved && b.start < now < b.end
    requires forall c :: c in bookings && c.item.id == itemId && c.status == Approved && c.start < now && c != b ==>
                           c.start < b.start
    ensures var v := GetItem(users, store, comments, bookings, store.items[itemId].owner, itemId, now);
            && v.Ok? && v.value.last == Some(BookingRef(b.id, b.booker))
            && v.value.next != Some(BookingRef(b.id, b.booker))
  {
    var v := GetItem(users, store, comments, bookings, store.items[itemId].owner, itemId, now);
    var last := FindLastApproved(bookings, itemId, now);
    assert last.value == b;
    var next := FindNextApproved(bookings, itemId, now);
    if next.Some? {
      assert next.value.start > now;
      assert next.value.id != b.id;
    }
  }

  /** An update that changes nothing leaves the store as it was, and every
      accepted update keeps the store consistent. */
  lemma UpdateKeepsStore(users: map<nat, User>, store: IS.ItemStore, userId: nat, itemId: nat,
                         name: Option<string>, description: Option<string>, available: Option<bool>)
    requires IS.Valid(store)
    ensures IS.Valid(UpdateItem(users, store, userId, itemId, name, description, available).store)
    ensures UpdateItem(users, store, userId, itemId, None, None, None).result.Ok? ==>
              UpdateItem(users, store, userId, itemId, None, None, None).store == store
  {
    var r := UpdateItem(users, store, userId, itemId, None, None, None);
    if r.result.Ok? {
      assert r.result.value == store.items[itemId];
      assert r.store.items == store.items;
    }
  }

  /** A blank name is refused before anything is looked up, even for a
      missing user and a missing item. */
  lemma BlankNameBeforeLookups(users: map<nat, User>, store: IS.ItemStore, userId: nat, itemId: nat, name: string)
    requires IsBlank(name)
    requires userId !in users && itemId !in store.items
    ensures UpdateItem(users, store, userId, itemId, Some(name), None, None).result == Err(Validation(BlankItemName))
  {
  }

  /** A new item is visible to its owner with no bookings yet, and is found
      by its name when available. */
  lemma CreatedItemIsShown(users: map<nat, User>, store: IS.ItemStore, requests: RS.RequestTable,
                           comments: CommentTable, bookings: seq<Booking>, userId: nat, name: string,
                           description: string, now: int)
    requires IS.Valid(store) && userId in users
    requires forall c :: c in comments.rows ==> c.item <= store.counter
    requires forall b :: b in bookings ==> b.item.id <= store.counter
    requires !IsBlank(name)
    ensures var st := CreateItem(users, store, requests, userId, name, description, true, None);
            && st.result.Ok?
            && GetItem(users, st.store, comments, bookings, userId, st.result.value.id, now)
               == Ok(ItemView(st.result.value, None, None, {}))
            && st.result.value in FindItemsByText(users, st.store, userId, name).value
  {
    var st := CreateItem(users, store, requests, userId, name, description, true, None);
    var it := st.result.value;
    IS.SearchFindsName(store, None, Item(0, name, description, true, userId, None));
    assert CommentsOf(comments, it.id) == {};
  }

  /** A comment is accepted whenever the author has a completed rental. */
  lemma CommentAllowed(users: map<nat, User>, store: IS.ItemStore, comments: CommentTable, bookings: seq<Booking>,
                       userId: nat, itemId: nat, text: string, now: int)
    requires userId in users && itemId in store.items
    requires FindLatestCompletedRental(bookings, userId, itemId, now).Some?
    ensures AddComment(users, store, comments, bookings, userId, itemId, text, now).result
            == Ok(Comment(comments.lastId + 1, text, itemId, userId, now))
  {
  }

  /** The rental life cycle end to end: a booking created and approved by
      the owner lets its booker comment on the item once it has ended. */
  lemma CommentAfterCompletedRental(users: map<nat, User>, store: IS.ItemStore, t: BookingService.BookingTable,
                                    comments: CommentTable, bookerId: nat, itemId: nat,
                                    start: int, end: int, now: int, later: int, text: string)
    requires BookingService.Valid(t)
    requires IS.Valid(store)
    requires BookingService.CreateBooking(users, store.items, t, bookerId, itemId, start, end, now).result.Ok?
    requires store.items[itemId].owner in users
    requires end < later
    ensures var created := BookingService.CreateBooking(users, store.items, t, bookerId, itemId, start, end, now);
            var approved := BookingService.ApproveOrReject(users, created.store, created.result.value.id, true,
                                                           store.items[itemId].owner);
            && approved.result.Ok?
            && AddComment(users, store, comments, approved.store.rows, bookerId, itemId, text, later).result
               == Ok(Comment(comments.lastId + 1, text, itemId, bookerId, later))
  {
    assert forall k :: k in store.items ==> store.items[k].id == k;
    BookingService.ApprovedRentalCompletes(users, store.items, t, bookerId, itemId, start, end, now, later);
    var created := BookingService.CreateBooking(users, store.items, t, bookerId, itemId, start, end, now);
    var approved := BookingService.ApproveOrReject(users, created.store, created.result.value.id, true,
                                                   store.items[itemId].owner);
    CommentAllowed(users, store, comments, approved.store.rows, bookerId, itemId, text, later);
  }
}
