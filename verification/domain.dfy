/**
 The entities of the rental coordinator. Ids are the `Long` primary keys;
 instants are integers on one time line. References to other entities are
 kept as their ids, except that a booking carries the item it rents, as the
 JPA object graph does, so that `b.item.owner` is the item owner's id.
 */
module Domain {
  import opened Common

  /** Life cycle of a booking: created WAITING, resolved to APPROVED or
      REJECTED by the owner; CANCELED is reached outside this core. */
  datatype Status = Waiting | Approved | Rejected | Canceled

  datatype User = User(id: nat, name: string, email: string)

  /** `request` is the id of the item request the item answers, if any. */
  datatype Item = Item(
    id: nat,
    name: string,
    description: string,
    available: bool,
    owner: nat,
    request: Option<nat>)

  /** `booker` is the renter's user id; `item` the rented item. Nothing
      forces `start < end` on a stored row: only `createBooking` checks it. */
  datatype Booking = Booking(
    id: nat,
    start: int,
    end: int,
    item: Item,
    booker: nat,
    status: Status)

  /** A review of `item` written by `author` at instant `created`. */
  datatype Comment = Comment(id: nat, text: string, item: nat, author: nat, created: int)

  /** A user's public request for an item nobody offers yet. */
  datatype ItemRequest = ItemRequest(id: nat, description: string, requestor: nat, created: int)

  /** The booking annotation shown on an item: only the id and the booker. */
  datatype BookingRef = BookingRef(id: nat, bookerId: nat)
}
