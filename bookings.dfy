/** The booking ledger: POST /api/bookings inserts into the `bookings`
    table, GET /api/bookings/user lists the caller's bookings and
    GET /api/bookings/:id fetches one of them. All three sit behind the
    bearer-token gate, and the owner is always the token's `userId`. */
module Bookings {
  import opened Sql
  import opened Http
  import Json
  import opened Auth

  /** What the request body supplies; the owner is not among it. `details`
      is what `express.json()` parsed from the body, so it is well formed. */
  datatype BookingRequest = BookingRequest(serviceType: string, serviceId: int, totalCost: int, details: Json.Value)

  /** A row of `bookings`; `details` is the stored JSON text (nullable) and
      `bookingDate` the timestamp the database put on the insert. */
  datatype Booking = Booking(bookingId: int, userId: int, serviceType: string, serviceId: int,
                             totalCost: int, details: Option<string>, status: string, bookingDate: int)

  /** A booking as the API returns it, details parsed. */
  datatype BookingView = BookingView(bookingId: int, userId: int, serviceType: string, serviceId: int,
                                     totalCost: int, details: Json.Value, status: string, bookingDate: int)

  const Confirmed: string := "Confirmed"

  /** The row that the INSERT of POST /api/bookings writes. */
  function NewBooking(bookingId: int, owner: int, req: BookingRequest, c: Json.Codec, now: int): (b: Booking)
    ensures b.bookingId == bookingId && b.userId == owner && b.status == Confirmed && b.bookingDate == now
    ensures b.serviceType == req.serviceType && b.serviceId == req.serviceId && b.totalCost == req.totalCost
    ensures Json.Lawful(c) && Json.WellFormed(req.details) ==> Json.ParseStored(b.details, c) == Some(req.details)
  {
    Booking(bookingId, owner, req.serviceType, req.serviceId, req.totalCost,
            Some(c.stringify(req.details)), Confirmed, now)
  }

  /** `{...booking, booking_details: JSON.parse(booking.booking_details || '{}')}`,
      `None` when the parse throws. */
  function Render(b: Booking, c: Json.Codec): (r: Option<BookingView>)
    ensures r.Some? <==> Json.ParseStored(b.details, c).Some?
    ensures r.Some? ==> var v := r.value;
      && v.bookingId == b.bookingId && v.userId == b.userId && v.serviceType == b.serviceType
      && v.serviceId == b.serviceId && v.totalCost == b.totalCost && v.status == b.status
      && v.bookingDate == b.bookingDate && Json.ParseStored(b.details, c) == Some(v.details)
  {
    match Json.ParseStored(b.details, c)
    case None => None
    case Some(d) => Some(BookingView(b.bookingId, b.userId, b.serviceType, b.serviceId,
                                     b.totalCost, d, b.status, b.bookingDate))
  }

  /** `bookings.map(...)` with the parse inside: one throw anywhere makes the
      whole response a 500; otherwise every row is rendered, in order. */
  function RenderAll(rows: seq<Booking>, c: Json.Codec): (r: Reply<seq<BookingView>>)
    ensures r.Ok? <==> forall i :: 0 <= i < |rows| ==> Render(rows[i], c).Some?
    ensures r.Err? ==> r.failure == Internal
    ensures r.Ok? ==> |r.value| == |rows| && forall i :: 0 <= i < |rows| ==> Some(r.value[i]) == Render(rows[i], c)
  {
    if rows == [] then Ok([])
    else
      match (Render(rows[0], c), RenderAll(rows[1..], c))
      case (Some(v), Ok(vs)) =>
        assert forall i :: 1 <= i < |rows| ==> rows[i] == rows[1..][i - 1];
        Ok([v] + vs)
      case (None, _) => Err(Internal)
      case (_, Err(f)) =>
        assert exists i :: 0 <= i < |rows[1..]| && Render(rows[1..][i], c).None?;
        Err(f)
  }

  /** `SELECT b.* FROM bookings b WHERE b.user_id = ? ORDER BY b.booking_date DESC`. */
  function OwnedBy(rows: seq<Booking>, owner: int): (r: seq<Booking>)
    ensures multiset(r) == multiset(Filter(rows, (b: Booking) => b.userId == owner))
    ensures SortedDesc(r, (b: Booking) => b.bookingDate)
  {
    SortDesc(Filter(rows, (b: Booking) => b.userId == owner), (b: Booking) => b.bookingDate)
  }

  /** The caller's bookings are exactly the rows with their `user_id`, each
      once, newest first. */
  lemma OwnedByExactly(rows: seq<Booking>, owner: int)
    ensures forall k :: 0 <= k < |OwnedBy(rows, owner)| ==> OwnedBy(rows, owner)[k].userId == owner
    ensures forall b :: b in rows && b.userId == owner ==> b in OwnedBy(rows, owner)
    ensures forall b :: b in OwnedBy(rows, owner) ==> b in rows
    ensures multiset(OwnedBy(rows, owner)) == multiset(Filter(rows, (b: Booking) => b.userId == owner))
    ensures SortedDesc(OwnedBy(rows, owner), (b: Booking) => b.bookingDate)
  {
    var mine := Filter(rows, (b: Booking) => b.userId == owner);
    var out := OwnedBy(rows, owner);
    forall k | 0 <= k < |out| ensures out[k].userId == owner {
      assert out[k] in multiset(mine);
      var j :| 0 <= j < |mine| && mine[j] == out[k];
    }
    forall b | b in rows && b.userId == owner ensures b in out {
      assert b in multiset(rows);
      assert b in multiset(mine);
    }
    forall b | b in out ensures b in rows {
      assert b in multiset(mine);
      assert b in multiset(rows);
    }
  }

  /** GET /api/bookings/user. */
  function ListUserBookings(rows: seq<Booking>, header: Option<string>, ts: TokenService, c: Json.Codec)
    : (r: Reply<seq<BookingView>>)
    ensures Authenticate(header, ts).Refuse? ==> r == Err(Authenticate(header, ts).failure)
  {
    match Authenticate(header, ts)
    case Refuse(f) => Err(f)
    case Admit(user) => RenderAll(OwnedBy(rows, user.userId), c)
  }

  /** A listing fails with a 500 exactly when one of the caller's rows holds
      unparsable details; other users' rows cannot break it. */
  lemma ListUserBookingsFails(rows: seq<Booking>, header: Option<string>, ts: TokenService, c: Json.Codec)
    requires Authenticate(header, ts).Admit?
    ensures ListUserBookings(rows, header, ts, c).Err?
        <==> exists b :: b in rows && b.userId == Authenticate(header, ts).user.userId && Render(b, c).None?
  {
    var u := Authenticate(header, ts).user.userId;
    var out := OwnedBy(rows, u);
    OwnedByExactly(rows, u);
    if RenderAll(out, c).Err? {
      var k :| 0 <= k < |out| && Render(out[k], c).None?;
      assert out[k] in rows && out[k].userId == u;
    }
  }

  /** A listing never shows another user's booking. */
  lemma ListUserBookingsOnlyOwn(rows: seq<Booking>, header: Option<string>, ts: TokenService, c: Json.Codec)
    requires Authenticate(header, ts).Admit?
    requires ListUserBookings(rows, header, ts, c).Ok?
    ensures var vs := ListUserBookings(rows, header, ts, c).value;
      forall k :: 0 <= k < |vs| ==> vs[k].userId == Authenticate(header, ts).user.userId
  {
    var u := Authenticate(header, ts).user.userId;
    var out := OwnedBy(rows, u);
    OwnedByExactly(rows, u);
    var vs := RenderAll(out, c).value;
    forall k | 0 <= k < |vs| ensures vs[k].userId == u {
      assert Some(vs[k]) == Render(out[k], c);
    }
  }

  /** Every booking of the caller appears in the listing, with its parsed
      details. */
  lemma ListUserBookingsComplete(rows: seq<Booking>, header: Option<string>, ts: TokenService, c: Json.Codec,
                                 b: Booking)
    requires Authenticate(header, ts).Admit?
    requires ListUserBookings(rows, header, ts, c).Ok?
    requires b in rows && b.userId == Authenticate(header, ts).user.userId
    ensures Render(b, c).Some? && Render(b, c).value in ListUserBookings(rows, header, ts, c).value
  {
    var u := Authenticate(header, ts).user.userId;
    var out := OwnedBy(rows, u);
    OwnedByExactly(rows, u);
    var vs := RenderAll(out, c).value;
    var k :| 0 <= k < |out| && out[k] == b;
    assert Some(vs[k]) == Render(b, c);
  }

  /** The listing is newest first by `booking_date`. */
  lemma ListUserBookingsNewestFirst(rows: seq<Booking>, header: Option<string>, ts: TokenService, c: Json.Codec)
    requires Authenticate(header, ts).Admit?
    requires ListUserBookings(rows, header, ts, c).Ok?
    ensures SortedDesc(ListUserBookings(rows, header, ts, c).value, (v: BookingView) => v.bookingDate)
  {
    var u := Authenticate(header, ts).user.userId;
    var out := OwnedBy(rows, u);
    OwnedByExactly(rows, u);
    var vs := RenderAll(out, c).value;
    forall i, j | 0 <= i < j < |vs| ensures vs[i].bookingDate >= vs[j].bookingDate {
      assert Some(vs[i]) == Render(out[i], c) && Some(vs[j]) == Render(out[j], c);
    }
  }

  /** `SELECT b.* FROM bookings b WHERE b.booking_id = ? AND b.user_id = ?`
      and the same details parse as the listing. */
  function GetBooking(rows: seq<Booking>, id: int, header: Option<string>, ts: TokenService, c: Json.Codec)
    : (r: Reply<BookingView>)
    ensures Authenticate(header, ts).Refuse? ==> r == Err(Authenticate(header, ts).failure)
    ensures r.Ok? ==> && r.value.bookingId == id
                      && r.value.userId == Authenticate(header, ts).user.userId
                      && exists b :: b in rows && Render(b, c) == Some(r.value)
  {
    match Authenticate(header, ts)
    case Refuse(f) => Err(f)
    case Admit(user) =>
      match First(rows, (b: Booking) => b.bookingId == id && b.userId == user.userId)
      case None => Err(BookingNotFound)
      case Some(b) =>
        match Render(b, c)
        case None => Err(Internal)
        case Some(v) => Ok(v)
  }

  /** For an admitted caller, "Booking not found" is answered exactly when
      no row has both that id and the caller as owner: a booking of somebody
      else's is indistinguishable from one that does not exist. */
  lemma GetBookingNotFoundIff(rows: seq<Booking>, id: int, header: Option<string>, ts: TokenService, c: Json.Codec)
    requires Authenticate(header, ts).Admit?
    ensures GetBooking(rows, id, header, ts, c) == Err(BookingNotFound)
        <==> forall b :: b in rows ==> !(b.bookingId == id && b.userId == Authenticate(header, ts).user.userId)
  {
    var u := Authenticate(header, ts).user.userId;
    var p := (b: Booking) => b.bookingId == id && b.userId == u;
    if First(rows, p).None? {
      forall b | b in rows ensures !p(b) {
        var k :| 0 <= k < |rows| && rows[k] == b;
      }
    }
  }

  /** The caller's own booking is found: in a table with AUTO_INCREMENT
      ids, fetching it by its id returns its rendering, or a 500 exactly
      when its stored details do not parse. */
  lemma GetBookingFound(rows: seq<Booking>, next: int, header: Option<string>, ts: TokenService,
                        c: Json.Codec, b: Booking)
    requires AutoIncrement(rows, (x: Booking) => x.bookingId, next)
    requires Authenticate(header, ts).Admit?
    requires b in rows && b.userId == Authenticate(header, ts).user.userId
    ensures GetBooking(rows, b.bookingId, header, ts, c)
         == (if Render(b, c).Some? then Ok(Render(b, c).value) else Err(Internal))
  {
    var p := (x: Booking) => x.bookingId == b.bookingId && x.userId == b.userId;
    var k :| 0 <= k < |rows| && rows[k] == b;
    forall i | 0 <= i < |rows| && p(rows[i]) ensures rows[i] == b {
      AutoIncrementKeyUnique(rows, (x: Booking) => x.bookingId, next, i, k);
    }
    FirstOnKey(rows, p, b);
  }

  /** The ledger stated for two callers: with an id whose row belongs to
      `other`, a different caller gets the same answer as for an id no row
      has. */
  lemma ForeignBookingLooksMissing(rows: seq<Booking>, taken: int, free: int, header: Option<string>,
                                   ts: TokenService, c: Json.Codec)
    requires Authenticate(header, ts).Admit?
    requires forall b :: b in rows && b.bookingId == taken ==> b.userId != Authenticate(header, ts).user.userId
    requires forall b :: b in rows ==> b.bookingId != free
    ensures GetBooking(rows, taken, header, ts, c) == GetBooking(rows, free, header, ts, c) == Err(BookingNotFound)
  {
    GetBookingNotFoundIff(rows, taken, header, ts, c);
    GetBookingNotFoundIff(rows, free, header, ts, c);
  }

  /** The bookings table (AUTO_INCREMENT `booking_id`). */
  class BookingTable {
    var rows: seq<Booking>
    var nextId: int

    ghost predicate Valid()
      reads this
    {
      AutoIncrement(rows, (b: Booking) => b.bookingId, nextId)
    }

    constructor ()
      ensures Valid() && rows == [] && nextId == 1
    {
      rows := [];
      nextId := 1;
    }

    /** The INSERT: one new row with the next id, owned by `owner`, with
        status Confirmed and the body's service, cost and serialized
        details. No existence check on (service_type, service_id). */
    method Create(owner: int, req: BookingRequest, c: Json.Codec, now: int) returns (bookingId: int)
      requires Valid()
      modifies this
      ensures Valid()
      ensures bookingId == old(nextId) && nextId == old(nextId) + 1
      ensures rows == old(rows) + [NewBooking(bookingId, owner, req, c, now)]
    {
      bookingId := nextId;
      var b := NewBooking(bookingId, owner, req, c, now);
      AutoIncrementInsert(rows, (b: Booking) => b.bookingId, nextId, b);
      rows := rows + [b];
      nextId := nextId + 1;
    }

    /** POST /api/bookings: the gate, then the insert with the token's
        `userId` as owner; a refused request leaves the table unchanged. */
    method Post(header: Option<string>, ts: TokenService, req: BookingRequest, c: Json.Codec, now: int)
      returns (r: Reply<int>)
      requires Valid()
      modifies this
      ensures Valid()
      ensures Authenticate(header, ts).Refuse?
        ==> r == Err(Authenticate(header, ts).failure) && rows == old(rows) && nextId == old(nextId)
      ensures Authenticate(header, ts).Admit?
        ==> && r == Ok(old(nextId))
            && rows == old(rows) + [NewBooking(old(nextId), Authenticate(header, ts).user.userId, req, c, now)]
            && nextId == old(nextId) + 1
    {
      match Authenticate(header, ts)
      case Refuse(f) =>
        r := Err(f);
      case Admit(user) =>
        var id := Create(user.userId, req, c, now);
        r := Ok(id);
    }
  }

  /** A booking just created is found again by its owner under the new id,
      with status Confirmed, the body's fields and its details unchanged. */
  lemma CreateThenGet(rows: seq<Booking>, next: int, header: Option<string>, ts: TokenService,
                      req: BookingRequest, c: Json.Codec, now: int)
    requires AutoIncrement(rows, (b: Booking) => b.bookingId, next)
    requires Authenticate(header, ts).Admit?
    requires Json.Lawful(c) && Json.WellFormed(req.details)
    ensures var u := Authenticate(header, ts).user.userId;
      GetBooking(rows + [NewBooking(next, u, req, c, now)], next, header, ts, c)
        == Ok(BookingView(next, u, req.serviceType, req.serviceId, req.totalCost, req.details, Confirmed, now))
  {
    var u := Authenticate(header, ts).user.userId;
    var b := NewBooking(next, u, req, c, now);
    var s := rows + [b];
    Json.StoredRoundTrip(req.details, c);
    assert forall i :: 0 <= i < |rows| ==> s[i].bookingId < next;
    assert s[|rows|] == b;
    FirstOnKey(s, (x: Booking) => x.bookingId == next && x.userId == u, b);
  }

  /** A booking just created shows up in its owner's listing with the
      body's details, whenever that listing succeeds. */
  lemma CreateThenList(rows: seq<Booking>, next: int, header: Option<string>, ts: TokenService,
                       req: BookingRequest, c: Json.Codec, now: int)
    requires Authenticate(header, ts).Admit?
    requires Json.Lawful(c) && Json.WellFormed(req.details)
    requires var u := Authenticate(header, ts).user.userId;
      ListUserBookings(rows + [NewBooking(next, u, req, c, now)], header, ts, c).Ok?
    ensures var u := Authenticate(header, ts).user.userId;
      BookingView(next, u, req.serviceType, req.serviceId, req.totalCost, req.details, Confirmed, now)
        in ListUserBookings(rows + [NewBooking(next, u, req, c, now)], header, ts, c).value
  {
    var u := Authenticate(header, ts).user.userId;
    var b := NewBooking(next, u, req, c, now);
    assert (rows + [b])[|rows|] == b;
    Json.StoredRoundTrip(req.details, c);
    ListUserBookingsComplete(rows + [b], header, ts, c, b);
  }

  /** Two bookings of the same service by the same caller both succeed, with
      two distinct ids, and both rows are in the table: nothing serializes
      them against each other. */
  method BookTwice(t: BookingTable, header: Option<string>, ts: TokenService, req: BookingRequest,
                   c: Json.Codec, now1: int, now2: int) returns (r1: Reply<int>, r2: Reply<int>)
    requires t.Valid()
    requires Authenticate(header, ts).Admit?
    modifies t
    ensures t.Valid()
    ensures r1.Ok? && r2.Ok? && r1.value != r2.value
    ensures t.rows == old(t.rows) + [NewBooking(r1.value, Authenticate(header, ts).user.userId, req, c, now1),
                                     NewBooking(r2.value, Authenticate(header, ts).user.userId, req, c, now2)]
  {
    r1 := t.Post(header, ts, req, c, now1);
    r2 := t.Post(header, ts, req, c, now2);
  }
}
