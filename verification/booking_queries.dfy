/**
 The booking repository's queries over the booking table, written as
 filters followed by the `ORDER BY b.start DESC` every list query ends with.
 The booker view filters on `b.booker`, the owner view joins the item and
 filters on its owner. The two views disagree on CURRENT: the booker's
 derived query is strict on both ends, the owner's JPQL uses an inclusive
 `BETWEEN`.
 */
module BookingQueries {
  import opened Common
  import opened Domain
  import opened Sorting

  function StartOf(b: Booking): int { b.start }
  function EndOf(b: Booking): int { b.end }
  function EarlierStartFirst(b: Booking): int { -b.start }

  /** `startIsBefore(now) and endIsAfter(now)`: strictly inside the window. */
  predicate IsCurrentForBooker(b: Booking, now: int) { b.start < now && now < b.end }

  /** `:now BETWEEN b.start AND b.end`: inside the window, ends included. */
  predicate IsCurrentForOwner(b: Booking, now: int) { b.start <= now <= b.end }

  predicate IsPast(b: Booking, now: int) { b.end < now }

  predicate IsFuture(b: Booking, now: int) { b.start > now }

  /** `r` lists exactly the rows satisfying `p`, each as often as it is
      stored, latest start first. */
  ghost predicate ListsExactly(r: seq<Booking>, rows: seq<Booking>, p: Booking -> bool) {
    && SortedDesc(r, StartOf)
    && forall b :: multiset(r)[b] == if p(b) then multiset(rows)[b] else 0
  }

  /** The rows satisfying `p`, ordered by start descending. */
  function Ordered(rows: seq<Booking>, p: Booking -> bool): (r: seq<Booking>)
    ensures ListsExactly(r, rows, p)
    ensures forall b :: b in r <==> b in rows && p(b)
  {
    SortDesc(Filter(rows, p), StartOf)
  }

  // ---- Booker view -------------------------------------------------------

  /** `findByBookerIdOrderByStartDesc` */
  function FindByBooker(rows: seq<Booking>, userId: nat): (r: seq<Booking>)
    ensures ListsExactly(r, rows, (b: Booking) => b.booker == userId)
    ensures forall b :: b in r <==> b in rows && b.booker == userId
  {
    Ordered(rows, (b: Booking) => b.booker == userId)
  }

  /** `findByBookerIdAndStartIsBeforeAndEndIsAfterOrderByStartDesc` */
  function FindCurrentByBooker(rows: seq<Booking>, userId: nat, now: int): (r: seq<Booking>)
    ensures ListsExactly(r, rows, (b: Booking) => b.booker == userId && b.start < now && now < b.end)
    ensures forall b :: b in r <==> b in rows && b.booker == userId && b.start < now && now < b.end
  {
    Ordered(rows, (b: Booking) => b.booker == userId && IsCurrentForBooker(b, now))
  }

  /** `findByBookerIdAndEndIsBeforeOrderByStartDesc` */
  function FindPastByBooker(rows: seq<Booking>, userId: nat, now: int): (r: seq<Booking>)
    ensures ListsExactly(r, rows, (b: Booking) => b.booker == userId && b.end < now)
    ensures forall b :: b in r <==> b in rows && b.booker == userId && b.end < now
  {
    Ordered(rows, (b: Booking) => b.booker == userId && IsPast(b, now))
  }

  /** `findByBookerIdAndStartIsAfterOrderByStartDesc` */
  function FindFutureByBooker(rows: seq<Booking>, userId: nat, now: int): (r: seq<Booking>)
    ensures ListsExactly(r, rows, (b: Booking) => b.booker == userId && b.start > now)
    ensures forall b :: b in r <==> b in rows && b.booker == userId && b.start > now
  {
    Ordered(rows, (b: Booking) => b.booker == userId && IsFuture(b, now))
  }

  /** `findByBookerIdAndStatusOrderByStartDesc` */
  function FindByBookerAndStatus(rows: seq<Booking>, userId: nat, status: Status): (r: seq<Booking>)
    ensures ListsExactly(r, rows, (b: Booking) => b.booker == userId && b.status == status)
    ensures forall b :: b in r <==> b in rows && b.booker == userId && b.status == status
  {
    Ordered(rows, (b: Booking) => b.booker == userId && b.status == status)
  }

  // ---- Owner view (bookings of the items a user owns) --------------------

  /** `findAllBookingsForAllItemsByUserId` */
  function FindAllForOwner(rows: seq<Booking>, userId: nat): (r: seq<Booking>)
    ensures ListsExactly(r, rows, (b: Booking) => b.item.owner == userId)
    ensures forall b :: b in r <==> b in rows && b.item.owner == userId
  {
    Ordered(rows, (b: Booking) => b.item.owner == userId)
  }

  /** `findCurrentBookingsForAllItemsByUserId` */
  function FindCurrentForOwner(rows: seq<Booking>, userId: nat, now: int): (r: seq<Booking>)
    ensures ListsExactly(r, rows, (b: Booking) => b.item.owner == userId && b.start <= now <= b.end)
    ensures forall b :: b in r <==> b in rows && b.item.owner == userId && b.start <= now <= b.end
  {
    Ordered(rows, (b: Booking) => b.item.owner == userId && IsCurrentForOwner(b, now))
  }

  /** `findPastBookingsForAllItemsByUserId` */
  function FindPastForOwner(rows: seq<Booking>, userId: nat, now: int): (r: seq<Booking>)
    ensures ListsExactly(r, rows, (b: Booking) => b.item.owner == userId && b.end < now)
    ensures forall b :: b in r <==> b in rows && b.item.owner == userId && b.end < now
  {
    Ordered(rows, (b: Booking) => b.item.owner == userId && IsPast(b, now))
  }

  /** `findFutureBookingsForAllItemsByUserId` */
  function FindFutureForOwner(rows: seq<Booking>, userId: nat, now: int): (r: seq<Booking>)
    ensures ListsExactly(r, rows, (b: Booking) => b.item.owner == userId && b.start > now)
    ensures forall b :: b in r <==> b in rows && b.item.owner == userId && b.start > now
  {
    Ordered(rows, (b: Booking) => b.item.owner == userId && IsFuture(b, now))
  }

  /** `findStatusBookingsForAllItemsByUserId` */
  function FindByStatusForOwner(rows: seq<Booking>, userId: nat, status: Status): (r: seq<Booking>)
    ensures ListsExactly(r, rows, (b: Booking) => b.item.owner == userId && b.status == status)
    ensures forall b :: b in r <==> b in rows && b.item.owner == userId && b.status == status
  {
    Ordered(rows, (b: Booking) => b.item.owner == userId && b.status == status)
  }

  // ---- Single-row finders (null when nothing matches) --------------------

  /** `findFirstByItemIdAndStartBeforeAndStatusOrderByStartDesc(item, now, APPROVED)`:
      the approved booking of the item that started most recently before
      `now`, an ongoing one included. */
  function FindLastApproved(rows: seq<Booking>, itemId: nat, now: int): (r: Option<Booking>)
    ensures r.None? <==> forall b :: b in rows ==> !(b.item.id == itemId && b.status == Approved && b.start < now)
    ensures r.Some? ==> r.value in rows && r.value.item.id == itemId && r.value.status == Approved && r.value.start < now
    ensures r.Some? ==> forall b :: b in rows && b.item.id == itemId && b.status == Approved && b.start < now ==>
                                    b.start <= r.value.start
  {
    FirstMax(rows, (b: Booking) => b.item.id == itemId && b.status == Approved && b.start < now, StartOf)
  }

  /** `findFirstByItemIdAndStartAfterAndStatusOrderByStartAsc(item, now, APPROVED)`:
      the approved booking of the item that starts soonest after `now`. */
  function FindNextApproved(rows: seq<Booking>, itemId: nat, now: int): (r: Option<Booking>)
    ensures r.None? <==> forall b :: b in rows ==> !(b.item.id == itemId && b.status == Approved && b.start > now)
    ensures r.Some? ==> r.value in rows && r.value.item.id == itemId && r.value.status == Approved && r.value.start > now
    ensures r.Some? ==> forall b :: b in rows && b.item.id == itemId && b.status == Approved && b.start > now ==>
                                    r.value.start <= b.start
  {
    FirstMax(rows, (b: Booking) => b.item.id == itemId && b.status == Approved && b.start > now, EarlierStartFirst)
  }

  /** `findFirstByBookerIdAndItemIdAndStatusAndEndBeforeOrderByEndDesc(user, item, APPROVED, now)`:
      the user's approved rental of the item that ended most recently. */
  function FindLatestCompletedRental(rows: seq<Booking>, userId: nat, itemId: nat, now: int): (r: Option<Booking>)
    ensures r.None? <==> forall b :: b in rows ==>
                           !(b.booker == userId && b.item.id == itemId && b.status == Approved && b.end < now)
    ensures r.Some? ==> && r.value in rows && r.value.booker == userId && r.value.item.id == itemId
                        && r.value.status == Approved && r.value.end < now
    ensures r.Some? ==> forall b :: (b in rows && b.booker == userId && b.item.id == itemId
                                     && b.status == Approved && b.end < now) ==> b.end <= r.value.end
  {
    FirstMax(rows, (b: Booking) => b.booker == userId && b.item.id == itemId && b.status == Approved && b.end < now, EndOf)
  }

  // ---- Properties of the classification --------------------------------

  /** In the owner view a well-formed booking (start not after end) is in
      exactly one of CURRENT, PAST and FUTURE, whatever its status. */
  lemma OwnerBucketsPartition(b: Booking, now: int)
    requires b.start <= b.end
    ensures IsCurrentForOwner(b, now) || IsPast(b, now) || IsFuture(b, now)
    ensures !(IsCurrentForOwner(b, now) && IsPast(b, now))
    ensures !(IsCurrentForOwner(b, now) && IsFuture(b, now))
    ensures !(IsPast(b, now) && IsFuture(b, now))
  {
  }

  /** In the booker view a booking that starts (or ends) exactly at `now` is
      in none of CURRENT, PAST and FUTURE, while the owner sees it as
      CURRENT: the strict comparisons leave the window's end points out. */
  lemma BookerBucketsMissEndPoints(b: Booking, now: int)
    requires b.start <= b.end
    requires b.start == now || b.end == now
    ensures !IsCurrentForBooker(b, now) && !IsPast(b, now) && !IsFuture(b, now)
    ensures IsCurrentForOwner(b, now)
  {
  }

  /** Strictly current implies inclusively current, never the reverse at
      the window's ends. */
  lemma BookerCurrentWithinOwnerCurrent(b: Booking, now: int)
    ensures IsCurrentForBooker(b, now) ==> IsCurrentForOwner(b, now)
  {
  }

  /** Every classified list of a user's bookings is a sub-list of the ALL
      list, in both views. */
  lemma ClassifiedWithinAll(rows: seq<Booking>, userId: nat, now: int)
    ensures forall b :: b in FindCurrentByBooker(rows, userId, now) ==> b in FindByBooker(rows, userId)
    ensures forall b :: b in FindPastByBooker(rows, userId, now) ==> b in FindByBooker(rows, userId)
    ensures forall b :: b in FindFutureByBooker(rows, userId, now) ==> b in FindByBooker(rows, userId)
    ensures forall b, st :: b in FindByBookerAndStatus(rows, userId, st) ==> b in FindByBooker(rows, userId)
    ensures forall b :: b in FindCurrentForOwner(rows, userId, now) ==> b in FindAllForOwner(rows, userId)
    ensures forall b :: b in FindPastForOwner(rows, userId, now) ==> b in FindAllForOwner(rows, userId)
    ensures forall b :: b in FindFutureForOwner(rows, userId, now) ==> b in FindAllForOwner(rows, userId)
    ensures forall b, st :: b in FindByStatusForOwner(rows, userId, st) ==> b in FindAllForOwner(rows, userId)
  {
  }

  /** The last-booking annotation is the head of the item's approved
      bookings that started before `now`, listed latest start first: no
      booking in that list started later. */
  lemma LastApprovedLeadsOrderedList(rows: seq<Booking>, itemId: nat, now: int)
    ensures var l := Ordered(rows, (b: Booking) => b.item.id == itemId && b.status == Approved && b.start < now);
            && (FindLastApproved(rows, itemId, now).None? <==> |l| == 0)
            && (|l| > 0 ==> FindLastApproved(rows, itemId, now).value.start == l[0].start)
  {
    var p := (b: Booking) => b.item.id == itemId && b.status == Approved && b.start < now;
    var l := Ordered(rows, p);
    var r := FindLastApproved(rows, itemId, now);
    if |l| > 0 {
      assert l[0] in l;
      assert r.Some?;
      assert r.value in l;
      var k :| 0 <= k < |l| && l[k] == r.value;
      assert StartOf(l[0]) >= StartOf(l[k]);
    }
  }
}
