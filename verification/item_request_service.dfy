/**
 Item requests: a user asks for an item nobody offers yet, and owners
 later offer items in answer to it. Every listing shows each request with
 the items offered in answer to it.
 */
module ItemRequestService {
  import opened Common
  import opened Domain
  import opened Sorting

  /** The request table: rows in insertion order and the last id handed out. */
  datatype RequestTable = RequestTable(rows: seq<ItemRequest>, lastId: nat)

  /** Ids are distinct, positive and already handed out. */
  ghost predicate Valid(t: RequestTable) {
    && (forall i :: 0 <= i < |t.rows| ==> 1 <= t.rows[i].id <= t.lastId)
    && (forall i, j :: 0 <= i < j < |t.rows| ==> t.rows[i].id != t.rows[j].id)
  }

  /** A request as it is shown: with the items offered in answer to it
      (a list in no particular order in the source). */
  datatype RequestView = RequestView(request: ItemRequest, items: set<Item>)

  const UnknownRequestor := "attempt to add an item request by a nonexistent user"
  const UnknownReader := "attempt to list item requests by a nonexistent user"
  const UnknownRequest := "attempt to get a nonexistent item request"

  function CreatedOf(ir: ItemRequest): int { ir.created }

  /** `findItemsByRequestId`: the items offered in answer to a request. */
  function ItemsFor(items: map<nat, Item>, requestId: nat): (r: set<Item>)
    ensures forall it :: it in r <==> it in items.Values && it.request == Some(requestId)
  {
    set it | it in items.Values && it.request == Some(requestId)
  }

  function View(items: map<nat, Item>, ir: ItemRequest): RequestView {
    RequestView(ir, ItemsFor(items, ir.id))
  }

  /** The requests a list of views shows, in order. */
  function RequestsOf(vs: seq<RequestView>): (r: seq<ItemRequest>)
    ensures |r| == |vs|
    ensures forall i :: 0 <= i < |r| ==> r[i] == vs[i].request
  {
    seq(|vs|, i requires 0 <= i < |vs| => vs[i].request)
  }

  /** Each request of `rows`, in order, with its items. */
  function Views(items: map<nat, Item>, rows: seq<ItemRequest>): (r: seq<RequestView>)
    ensures |r| == |rows|
    ensures forall i :: 0 <= i < |r| ==> r[i].request == rows[i] && r[i].items == ItemsFor(items, rows[i].id)
    ensures RequestsOf(r) == rows
    ensures forall ir :: ir in rows ==> exists i :: 0 <= i < |r| && r[i].request == ir
    ensures SortedDesc(rows, CreatedOf) ==> forall i, j :: 0 <= i < j < |r| ==> r[i].request.created >= r[j].request.created
  {
    var r := seq(|rows|, i requires 0 <= i < |rows| => View(items, rows[i]));
    assert forall i :: 0 <= i < |rows| ==> r[i].request == rows[i];
    r
  }

  /** `findById`: the row with the given id. */
  function FindRequest(rows: seq<ItemRequest>, id: nat): (r: Option<ItemRequest>)
    ensures r.None? <==> forall i :: 0 <= i < |rows| ==> rows[i].id != id
    ensures r.Some? ==> r.value in rows && r.value.id == id
  {
    if |rows| == 0 then None
    else if rows[0].id == id then Some(rows[0])
    else
      assert forall i :: 1 <= i < |rows| ==> rows[i] == rows[1..][i - 1];
      FindRequest(rows[1..], id)
  }

  /** `addRequest`: stores a request by an existing user, created now. */
  function AddRequest(users: map<nat, User>, t: RequestTable, userId: nat, description: string, now: int)
    : (r: Step<RequestTable, ItemRequest>)
    ensures r.result.Err? <==> userId !in users
    ensures r.result.Err? ==> r.store == t && r.result.error == NotFound(UnknownRequestor)
    ensures r.result.Ok? ==>
              && r.result.value == ItemRequest(t.lastId + 1, description, userId, now)
              && r.store == RequestTable(t.rows + [r.result.value], t.lastId + 1)
    ensures Valid(t) ==> Valid(r.store)
  {
    if userId !in users then Step(t, Err(NotFound(UnknownRequestor)))
    else
      var ir := ItemRequest(t.lastId + 1, description, userId, now);
      Step(RequestTable(t.rows + [ir], t.lastId + 1), Ok(ir))
  }

  /** The requests a user made, in table order. */
  function MadeBy(rows: seq<ItemRequest>, userId: nat): (r: seq<ItemRequest>)
    ensures forall x :: multiset(r)[x] == if x.requestor == userId then multiset(rows)[x] else 0
    ensures forall x :: x in r <==> x in rows && x.requestor == userId
  {
    Filter(rows, (ir: ItemRequest) => ir.requestor == userId)
  }

  /** `findItemRequestsByUser`: the caller's own requests, in table order. */
  function FindItemRequestsByUser(users: map<nat, User>, items: map<nat, Item>, t: RequestTable, userId: nat)
    : (r: Result<seq<RequestView>>)
    ensures r.Err? <==> userId !in users
    ensures r.Err? ==> r.error == NotFound(UnknownReader)
    ensures r.Ok? ==> forall i :: 0 <= i < |r.value| ==>
                        && r.value[i].request in t.rows
                        && r.value[i].request.requestor == userId
                        && r.value[i].items == ItemsFor(items, r.value[i].request.id)
    ensures r.Ok? ==> forall ir :: ir in t.rows && ir.requestor == userId ==>
                        exists i :: 0 <= i < |r.value| && r.value[i].request == ir
    ensures r.Ok? ==> forall ir :: multiset(RequestsOf(r.value))[ir] ==
                        if ir.requestor == userId then multiset(t.rows)[ir] else 0
  {
    if userId !in users then Err(NotFound(UnknownReader))
    else
      Ok(Views(items, MadeBy(t.rows, userId)))
  }

  /** The page the request repository returns: all requests, newest first,
      cut into pages of `size`. */
  function NewestFirstPage(rows: seq<ItemRequest>, page: nat, size: nat): (r: seq<ItemRequest>)
    requires size >= 1
    ensures SortedDesc(r, CreatedOf)
    ensures |r| <= size
    ensures forall x :: x in r ==> x in rows
    ensures exists sorted :: SortedDesc(sorted, CreatedOf) && multiset(sorted) == multiset(rows)
                             && r == Page(sorted, page, size)
  {
    var sorted := SortDesc(rows, CreatedOf);
    PageKeepsSortedDesc(sorted, page, size, CreatedOf);
    var p := Page(sorted, page, size);
    assert forall x :: x in p ==> x in multiset(sorted);
    p
  }

  /** The requests of one page, newest first, that other users made. */
  function OthersOnPage(rows: seq<ItemRequest>, userId: nat, page: nat, size: nat): (r: seq<ItemRequest>)
    requires size >= 1
    ensures SortedDesc(r, CreatedOf)
    ensures |r| <= size
    ensures forall x :: x in r ==> x in NewestFirstPage(rows, page, size) && x in rows && x.requestor != userId
    ensures forall x :: multiset(r)[x] == if x.requestor != userId then multiset(NewestFirstPage(rows, page, size))[x] else 0
  {
    var pg := NewestFirstPage(rows, page, size);
    FilterKeepsSortedDesc(pg, (ir: ItemRequest) => ir.requestor != userId, CreatedOf);
    Filter(pg, (ir: ItemRequest) => ir.requestor != userId)
  }

  /** `findItemRequestsByAnotherUser`: one page of all requests, newest
      first, with the caller's own requests dropped from it. The page is
      cut before the caller's requests are dropped, so a page may hold
      fewer than `size` requests although later pages are not empty. */
  function FindItemRequestsByAnotherUser(users: map<nat, User>, items: map<nat, Item>, t: RequestTable,
                                         userId: nat, page: nat, size: nat)
    : (r: Result<seq<RequestView>>)
    requires size >= 1
    ensures r.Err? <==> userId !in users
    ensures r.Err? ==> r.error == NotFound(UnknownReader)
    ensures r.Ok? ==> |r.value| <= size
    ensures r.Ok? ==> forall i :: 0 <= i < |r.value| ==>
                        && r.value[i].request in NewestFirstPage(t.rows, page, size)
                        && r.value[i].request in t.rows
                        && r.value[i].request.requestor != userId
                        && r.value[i].items == ItemsFor(items, r.value[i].request.id)
    ensures r.Ok? ==> forall i, j :: 0 <= i < j < |r.value| ==>
                        r.value[i].request.created >= r.value[j].request.created
    ensures r.Ok? ==> forall ir :: ir in NewestFirstPage(t.rows, page, size) && ir.requestor != userId ==>
                        exists i :: 0 <= i < |r.value| && r.value[i].request == ir
    ensures r.Ok? ==> forall ir :: multiset(RequestsOf(r.value))[ir] ==
                        if ir.requestor != userId then multiset(NewestFirstPage(t.rows, page, size))[ir] else 0
  {
    if userId !in users then Err(NotFound(UnknownReader))
    else
      Ok(Views(items, OthersOnPage(t.rows, userId, page, size)))
  }

  /** `getItemRequestById`: the caller must exist, then the request. */
  function GetItemRequestById(users: map<nat, User>, items: map<nat, Item>, t: RequestTable, userId: nat, requestId: nat)
    : (r: Result<RequestView>)
    ensures userId !in users ==> r == Err(NotFound(UnknownReader))
    ensures userId in users && (forall i :: 0 <= i < |t.rows| ==> t.rows[i].id != requestId) ==>
              r == Err(NotFound(UnknownRequest))
    ensures r.Ok? <==> userId in users && exists i :: 0 <= i < |t.rows| && t.rows[i].id == requestId
    ensures r.Ok? ==> r.value.request in t.rows && r.value.request.id == requestId
                      && r.value.items == ItemsFor(items, requestId)
  {
    if userId !in users then Err(NotFound(UnknownReader))
    else
      match FindRequest(t.rows, requestId)
      case None => Err(NotFound(UnknownRequest))
      case Some(ir) => Ok(View(items, ir))
  }

  // ---- Properties ---------------------------------------------------------

  /** In a table with distinct ids, the row found by id is the only row with it. */
  lemma {:induction false} FindRequestUnique(rows: seq<ItemRequest>, k: nat)
    requires forall i, j :: 0 <= i < j < |rows| ==> rows[i].id != rows[j].id
    requires 0 <= k < |rows|
    ensures FindRequest(rows, rows[k].id) == Some(rows[k])
  {
    if k > 0 {
      assert rows[0].id != rows[k].id;
      FindRequestUnique(rows[1..], k - 1);
    }
  }

  /** A request just added is found by its id, with whatever items answer
      it, by any existing user. */
  lemma AddThenGet(users: map<nat, User>, items: map<nat, Item>, t: RequestTable,
                   userId: nat, description: string, now: int, reader: nat)
    requires Valid(t)
    requires userId in users && reader in users
    ensures var st := AddRequest(users, t, userId, description, now);
            && st.result.Ok?
            && GetItemRequestById(users, items, st.store, reader, st.result.value.id)
               == Ok(RequestView(st.result.value, ItemsFor(items, st.result.value.id)))
  {
    var st := AddRequest(users, t, userId, description, now);
    FindRequestUnique(st.store.rows, |t.rows|);
  }

  /** A request just added is listed for its author and never shown to the
      author among other users' requests. */
  lemma AddedRequestListedForAuthorOnly(users: map<nat, User>, items: map<nat, Item>, t: RequestTable,
                                        userId: nat, description: string, now: int, page: nat, size: nat)
    requires userId in users && size >= 1
    ensures var st := AddRequest(users, t, userId, description, now);
            && st.result.Ok?
            && (exists i :: 0 <= i < |FindItemRequestsByUser(users, items, st.store, userId).value|
                            && FindItemRequestsByUser(users, items, st.store, userId).value[i].request == st.result.value)
            && forall v :: v in FindItemRequestsByAnotherUser(users, items, st.store, userId, page, size).value ==>
                             v.request != st.result.value
  {
    var st := AddRequest(users, t, userId, description, now);
    assert st.result.value in st.store.rows;
    var own := FindItemRequestsByUser(users, items, st.store, userId).value;
    assert exists i :: 0 <= i < |own| && own[i].request == st.result.value;
  }

  /** The newest request of another user is on the first page. */
  lemma NewestOtherRequestOnFirstPage(users: map<nat, User>, items: map<nat, Item>, t: RequestTable,
                                      userId: nat, size: nat)
    requires userId in users && size >= 1
    requires |t.rows| > 0
    requires forall i :: 1 <= i < |t.rows| ==> t.rows[i].created < t.rows[0].created
    requires t.rows[0].requestor != userId
    ensures exists i :: 0 <= i < |FindItemRequestsByAnotherUser(users, items, t, userId, 0, size).value|
                        && FindItemRequestsByAnotherUser(users, items, t, userId, 0, size).value[i].request == t.rows[0]
  {
    StrictMaxSortsFirst(t.rows, 0, CreatedOf);
    var sorted := SortDesc(t.rows, CreatedOf);
    var pg := Page(sorted, 0, size);
    assert pg[0] == sorted[0];
    assert pg == NewestFirstPage(t.rows, 0, size);
    var l := FindItemRequestsByAnotherUser(users, items, t, userId, 0, size).value;
    assert t.rows[0] in pg;
    assert exists i :: 0 <= i < |l| && l[i].request == t.rows[0];
  }
}
