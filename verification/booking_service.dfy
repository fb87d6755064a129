/**
 The booking lifecycle: creating a booking request, the owner's approval or
 rejection, reading one booking, and the two classified listings (as booker
 and as owner). Users and items are read-only inputs here; the booking
 table is the only store an operation changes.
 */
module BookingService {
  import opened Common
  import opened Domain
  import opened Sorting
  import opened BookingQueries

  /** The bookings table: rows in insertion order and the last id the
      identity column handed out. */
  datatype BookingTable = BookingTable(rows: seq<Booking>, lastId: nat)

  /** Ids are positive, never above `lastId`, and pairwise distinct. */
  ghost predicate Valid(t: BookingTable) {
    && (forall i :: 0 <= i < |t.rows| ==> 1 <= t.rows[i].id <= t.lastId)
    && (forall i, j :: 0 <= i < j < |t.rows| ==> t.rows[i].id != t.rows[j].id)
  }

  const UnknownRenter := "rental attempted by a nonexistent user"
  const UnknownItem := "rental of a nonexistent item"
  const OwnItem := "an owner cannot rent their own item"
  const ItemUnavailable := "the item is not available for rental"
  const BadPeriod := "invalid rental period"
  const UnknownUser := "nonexistent user"
  const UnknownBooking := "nonexistent booking"
  const NotOwner := "the user is not the owner of the item"
  const NotWaiting := "the booking is not awaiting approval"
  const NotParty := "the user is neither the booker nor the owner of the item"

  /** `findById`: the position of the first row with the given id. */
  function IndexOf(rows: seq<Booking>, id: nat): (r: Option<nat>)
    ensures r.None? <==> forall i :: 0 <= i < |rows| ==> rows[i].id != id
    ensures r.Some? ==> r.value < |rows| && rows[r.value].id == id
    ensures r.Some? ==> forall i :: 0 <= i < r.value ==> rows[i].id != id
  {
    if |rows| == 0 then None
    else if rows[0].id == id then Some(0)
    else
      match IndexOf(rows[1..], id)
      case None => None
      case Some(k) => Some(k + 1)
  }

  /** With distinct ids, the stored booking with a given id is found. */
  lemma IndexOfUnique(t: BookingTable, i: nat)
    requires Valid(t)
    requires i < |t.rows|
    ensures IndexOf(t.rows, t.rows[i].id) == Some(i)
  {
  }

  /** The period test of `createBooking`, as the source writes it. */
  predicate RejectsPeriod(start: int, end: int, now: int) {
    start < now || start == end || start > end
  }

  /** The period test rejects exactly the windows that do not start at or
      after `now` and end strictly after they start; neither `end` against
      `now` nor overlap with other bookings is looked at. */
  lemma RejectsPeriodIff(start: int, end: int, now: int)
    ensures RejectsPeriod(start, end, now) <==> !(now <= start < end)
  {
  }

  /** `createBooking`: the checks run in a fixed order and the first one to
      fail decides the error; only when all pass is a WAITING booking with
      a fresh id appended. */
  function CreateBooking(users: map<nat, User>, items: map<nat, Item>, t: BookingTable,
                         userId: nat, itemId: nat, start: int, end: int, now: int)
    : (r: Step<BookingTable, Booking>)
    ensures userId !in users ==> r.result == Err(NotFound(UnknownRenter))
    ensures userId in users && itemId !in items ==> r.result == Err(NotFound(UnknownItem))
    ensures userId in users && itemId in items && items[itemId].owner == userId ==>
              r.result == Err(NotFound(OwnItem))
    ensures userId in users && itemId in items && items[itemId].owner != userId && !items[itemId].available ==>
              r.result == Err(Validation(ItemUnavailable))
    ensures (userId in users && itemId in items && items[itemId].owner != userId && items[itemId].available
              && !(now <= start < end)) ==> r.result == Err(Validation(BadPeriod))
    ensures r.result.Ok? <==> && userId in users && itemId in items && items[itemId].owner != userId
                              && items[itemId].available && now <= start < end
    ensures r.result.Err? ==> r.store == t
    ensures r.result.Ok? ==>
              && r.result.value == Booking(t.lastId + 1, start, end, items[itemId], userId, Waiting)
              && r.store.rows == t.rows + [r.result.value]
    ensures r.result.Ok? ==> r.result.value.booker != r.result.value.item.owner
    ensures Valid(t) ==> Valid(r.store)
    ensures Valid(t) && r.result.Ok? ==> forall b :: b in t.rows ==> b.id != r.result.value.id
  {
    if userId !in users then Step(t, Err(NotFound(UnknownRenter)))
    else if itemId !in items then Step(t, Err(NotFound(UnknownItem)))
    else
      var item := items[itemId];
      if userId == item.owner then Step(t, Err(NotFound(OwnItem)))
      else if !item.available then Step(t, Err(Validation(ItemUnavailable)))
      else if RejectsPeriod(start, end, now) then Step(t, Err(Validation(BadPeriod)))
      else
        var b := Booking(t.lastId + 1, start, end, item, userId, Waiting);
        Step(BookingTable(t.rows + [b], b.id), Ok(b))
  }

  /** `approveOrRejectBooking`: only the item's owner may resolve a booking,
      and only while it is WAITING. */
  function ApproveOrReject(users: map<nat, User>, t: BookingTable, bookingId: nat, approved: bool, userId: nat)
    : (r: Step<BookingTable, Booking>)
    ensures userId !in users ==> r.result == Err(NotFound(UnknownUser))
    ensures userId in users && IndexOf(t.rows, bookingId).None? ==> r.result == Err(NotFound(UnknownBooking))
    ensures userId in users && IndexOf(t.rows, bookingId).Some? ==>
              var b := t.rows[IndexOf(t.rows, bookingId).value];
              && (b.item.owner != userId ==> r.result == Err(NotFound(NotOwner)))
              && (b.item.owner == userId && b.status != Waiting ==> r.result == Err(Validation(NotWaiting)))
              && (b.item.owner == userId && b.status == Waiting ==> r.result.Ok?)
    ensures r.result.Err? ==> r.store == t
    ensures r.result.Ok? ==>
              && IndexOf(t.rows, bookingId).Some?
              && var i := IndexOf(t.rows, bookingId).value;
              && t.rows[i].status == Waiting
              && r.result.value == t.rows[i].(status := if approved then Approved else Rejected)
              && r.store == t.(rows := t.rows[i := r.result.value])
    ensures Valid(t) ==> Valid(r.store)
  {
    if userId !in users then Step(t, Err(NotFound(UnknownUser)))
    else
      match IndexOf(t.rows, bookingId)
      case None => Step(t, Err(NotFound(UnknownBooking)))
      case Some(i) =>
        var b := t.rows[i];
        if b.item.owner != userId then Step(t, Err(NotFound(NotOwner)))
        else if b.status != Waiting then Step(t, Err(Validation(NotWaiting)))
        else
          var b' := b.(status := if approved then Approved else Rejected);
          Step(t.(rows := t.rows[i := b']), Ok(b'))
  }

  /** `getBookingById`: the booker and the item's owner may read a booking;
      anyone else is told it does not exist. */
  function GetBooking(users: map<nat, User>, t: BookingTable, bookingId: nat, userId: nat): (r: Result<Booking>)
    ensures r.Ok? <==> && userId in users && IndexOf(t.rows, bookingId).Some?
                       && var b := t.rows[IndexOf(t.rows, bookingId).value];
                          b.booker == userId || b.item.owner == userId
    ensures r.Ok? ==> r.value in t.rows && r.value.id == bookingId
    ensures r.Ok? ==> r.value.booker == userId || r.value.item.owner == userId
    ensures r.Err? ==> r.error.NotFound?
  {
    if userId !in users then Err(NotFound(UnknownUser))
    else
      match IndexOf(t.rows, bookingId)
      case None => Err(NotFound(UnknownBooking))
      case Some(i) =>
        var b := t.rows[i];
        if b.booker != userId && b.item.owner != userId then Err(NotFound(NotParty))
        else Ok(b)
  }

  // ---- Classified listings ----------------------------------------------

  /** The `state` values the listings understand. */
  datatype StateFilter = AllBookings | CurrentBookings | PastBookings | FutureBookings
                       | WaitingBookings | RejectedBookings

  function StateName(f: StateFilter): string {
    match f
    case AllBookings => "ALL"
    case CurrentBookings => "CURRENT"
    case PastBookings => "PAST"
    case FutureBookings => "FUTURE"
    case WaitingBookings => "WAITING"
    case RejectedBookings => "REJECTED"
  }

  /** The `switch (state)`: an exact, case-sensitive match on a name. */
  function ParseState(s: string): (r: Option<StateFilter>)
    ensures r.Some? ==> StateName(r.value) == s
    ensures r.None? ==> forall f: StateFilter :: StateName(f) != s
  {
    if s == "ALL" then Some(AllBookings)
    else if s == "CURRENT" then Some(CurrentBookings)
    else if s == "PAST" then Some(PastBookings)
    else if s == "FUTURE" then Some(FutureBookings)
    else if s == "WAITING" then Some(WaitingBookings)
    else if s == "REJECTED" then Some(RejectedBookings)
    else None
  }

  /** Every filter is recognised under its own name. */
  lemma ParseStateName(f: StateFilter)
    ensures ParseState(StateName(f)) == Some(f)
  {
  }

  /** What a filter means for one booking, seen by the booker or by the
      item's owner; the views differ only on CURRENT. */
  predicate InState(b: Booking, f: StateFilter, now: int, ownerView: bool) {
    match f
    case AllBookings => true
    case CurrentBookings => if ownerView then IsCurrentForOwner(b, now) else IsCurrentForBooker(b, now)
    case PastBookings => IsPast(b, now)
    case FutureBookings => IsFuture(b, now)
    case WaitingBookings => b.status == Waiting
    case RejectedBookings => b.status == Rejected
  }

  function UnknownState(s: string): Error {
    Validation("Unknown state: " + s)
  }

  /** The booker's dispatch: each filter to its repository query. */
  function BookerQuery(rows: seq<Booking>, userId: nat, f: StateFilter, now: int): (r: seq<Booking>)
    ensures SortedDesc(r, StartOf)
    ensures forall b :: multiset(r)[b] == if b.booker == userId && InState(b, f, now, false) then multiset(rows)[b] else 0
  {
    match f
    case AllBookings => FindByBooker(rows, userId)
    case CurrentBookings => FindCurrentByBooker(rows, userId, now)
    case PastBookings => FindPastByBooker(rows, userId, now)
    case FutureBookings => FindFutureByBooker(rows, userId, now)
    case WaitingBookings => FindByBookerAndStatus(rows, userId, Waiting)
    case RejectedBookings => FindByBookerAndStatus(rows, userId, Rejected)
  }

  /** The owner's dispatch: each filter to its repository query. */
  function OwnerQuery(rows: seq<Booking>, userId: nat, f: StateFilter, now: int): (r: seq<Booking>)
    ensures SortedDesc(r, StartOf)
    ensures forall b :: multiset(r)[b] == if b.item.owner == userId && InState(b, f, now, true) then multiset(rows)[b] else 0
  {
    match f
    case AllBookings => FindAllForOwner(rows, userId)
    case CurrentBookings => FindCurrentForOwner(rows, userId, now)
    case PastBookings => FindPastForOwner(rows, userId, now)
    case FutureBookings => FindFutureForOwner(rows, userId, now)
    case WaitingBookings => FindByStatusForOwner(rows, userId, Waiting)
    case RejectedBookings => FindByStatusForOwner(rows, userId, Rejected)
  }

  /** `getAllBookingsByUserId`: the user's own bookings in the requested
      state, latest start first. The user is looked up before the state is
      parsed. */
  function ListByBooker(users: map<nat, User>, t: BookingTable, userId: nat, state: string, now: int)
    : (r: Result<seq<Booking>>)
    ensures userId !in users ==> r == Err(NotFound(UnknownUser))
    ensures userId in users && ParseState(state).None? ==> r == Err(UnknownState(state))
    ensures userId in users && ParseState(state).Some? ==> r.Ok?
    ensures r.Ok? ==> SortedDesc(r.value, StartOf)
    ensures r.Ok? ==> forall b :: b in r.value <==>
                        b in t.rows && b.booker == userId && InState(b, ParseState(state).value, now, false)
    ensures r.Ok? ==> ListsExactly(r.value, t.rows,
                                   (b: Booking) => b.booker == userId && InState(b, ParseState(state).value, now, false))
  {
    if userId !in users then Err(NotFound(UnknownUser))
    else
      match ParseState(state)
      case None => Err(UnknownState(state))
      case Some(f) => Ok(BookerQuery(t.rows, userId, f, now))
  }

  /** `getAllBookingsForAllItemsByUserId`: the bookings of the items the user
      owns in the requested state, latest start first. */
  function ListByOwner(users: map<nat, User>, t: BookingTable, userId: nat, state: string, now: int)
    : (r: Result<seq<Booking>>)
    ensures userId !in users ==> r == Err(NotFound(UnknownUser))
    ensures userId in users && ParseState(state).None? ==> r == Err(UnknownState(state))
    ensures userId in users && ParseState(state).Some? ==> r.Ok?
    ensures r.Ok? ==> SortedDesc(r.value, StartOf)
    ensures r.Ok? ==> forall b :: b in r.value <==>
                        b in t.rows && b.item.owner == userId && InState(b, ParseState(state).value, now, true)
    ensures r.Ok? ==> ListsExactly(r.value, t.rows,
                                   (b: Booking) => b.item.owner == userId && InState(b, ParseState(state).value, now, true))
  {
    if userId !in users then Err(NotFound(UnknownUser))
    else
      match ParseState(state)
      case None => Err(UnknownState(state))
      case Some(f) => Ok(OwnerQuery(t.rows, userId, f, now))
  }

  // ---- Properties across calls ------------------------------------------

  /** Booking one's own item is refused as NotFound, never as Validation,
      whatever the item's availability and the requested period. */
  lemma OwnItemIsNotFound(users: map<nat, User>, items: map<nat, Item>, t: BookingTable,
                          userId: nat, itemId: nat, start: int, end: int, now: int)
    requires userId in users && itemId in items && items[itemId].owner == userId
    ensures CreateBooking(users, items, t, userId, itemId, start, end, now).result.error.NotFound?
  {
  }

  /** Resolution is final: once a booking has been approved or rejected, no
      further call by anyone can resolve it again, and its owner is told it
      is not awaiting approval. */
  lemma ResolvedBookingIsFinal(users: map<nat, User>, t: BookingTable, bookingId: nat,
                               approved: bool, userId: nat, approved2: bool, userId2: nat)
    requires ApproveOrReject(users, t, bookingId, approved, userId).result.Ok?
    ensures var t' := ApproveOrReject(users, t, bookingId, approved, userId).store;
            var second := ApproveOrReject(users, t', bookingId, approved2, userId2);
            && second.result.Err?
            && (userId2 == userId ==> second.result == Err(Validation(NotWaiting)))
  {
    var first := ApproveOrReject(users, t, bookingId, approved, userId);
    var i := IndexOf(t.rows, bookingId).value;
    var t' := first.store;
    IndexOfAfterUpdate(t.rows, i, first.result.value);
    assert IndexOf(t'.rows, bookingId) == Some(i);
    assert t'.rows[i].status != Waiting;
  }

  /** Overwriting a row with one of the same id leaves lookups unchanged. */
  lemma {:induction false} IndexOfAfterUpdate(rows: seq<Booking>, i: nat, b: Booking)
    requires i < |rows| && b.id == rows[i].id
    ensures forall id :: IndexOf(rows[i := b], id) == IndexOf(rows, id)
  {
    if i > 0 {
      IndexOfAfterUpdate(rows[1..], i - 1, b);
      assert rows[i := b][1..] == rows[1..][i - 1 := b];
    }
  }

  /** A user who is neither the booker nor the item's owner cannot read a
      stored booking, and is told it does not exist. */
  lemma StrangerGetsNotFound(users: map<nat, User>, t: BookingTable, b: Booking, userId: nat)
    requires Valid(t)
    requires b in t.rows
    requires b.booker != userId && b.item.owner != userId
    ensures GetBooking(users, t, b.id, userId).Err?
    ensures GetBooking(users, t, b.id, userId).error.NotFound?
  {
    var i :| 0 <= i < |t.rows| && t.rows[i] == b;
    IndexOfUnique(t, i);
  }

  /** Whatever the state filter, a listing holds only bookings the ALL
      listing of the same view also holds. */
  lemma ListingsWithinAll(users: map<nat, User>, t: BookingTable, userId: nat, state: string, now: int)
    requires userId in users && ParseState(state).Some?
    ensures forall b :: b in ListByBooker(users, t, userId, state, now).value ==>
                          b in ListByBooker(users, t, userId, "ALL", now).value
    ensures forall b :: b in ListByOwner(users, t, userId, state, now).value ==>
                          b in ListByOwner(users, t, userId, "ALL", now).value
  {
  }

  /** The rental life cycle end to end: a booking that was created and then
      approved shows up in its booker's PAST listing once its end has gone
      by, and is then the booker's completed rental of the item. */
  lemma ApprovedRentalCompletes(users: map<nat, User>, items: map<nat, Item>, t: BookingTable,
                                bookerId: nat, itemId: nat, start: int, end: int, now: int, later: int)
    requires Valid(t)
    requires forall k :: k in items ==> items[k].id == k
    requires CreateBooking(users, items, t, bookerId, itemId, start, end, now).result.Ok?
    requires end < later
    ensures var created := CreateBooking(users, items, t, bookerId, itemId, start, end, now);
            var b := created.result.value;
            var approved := ApproveOrReject(users, created.store, b.id, true, items[itemId].owner);
            && (items[itemId].owner in users ==> approved.result.Ok?)
            && (approved.result.Ok? ==>
                  && approved.result.value in ListByBooker(users, approved.store, bookerId, "PAST", later).value
                  && FindLatestCompletedRental(approved.store.rows, bookerId, itemId, later).Some?)
  {
    var created := CreateBooking(users, items, t, bookerId, itemId, start, end, now);
    var b := created.result.value;
    var n := |t.rows|;
    assert created.store.rows[n] == b;
    IndexOfUnique(created.store, n);
    var approved := ApproveOrReject(users, created.store, b.id, true, items[itemId].owner);
    if approved.result.Ok? {
      var b' := approved.result.value;
      assert approved.store.rows[n] == b';
      assert b' in approved.store.rows;
      assert b'.item.id == itemId;
    }
  }
}
