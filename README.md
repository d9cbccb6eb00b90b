# Travel booking backend: auth gate, booking ledger, review board, places dispatch

This project is a Dafny model of the logic in the travel-booking backend's
Express/MySQL server (`backend/server.js`). Each table is a sequence of rows in
insertion order, and each SQL query is a function over those sequences.
Tables that the handlers insert into (`users`, `bookings`, `reviews`) are
classes. Each has a `seq` field with its rows and an AUTO_INCREMENT counter.
The catalog tables are read only, so they are plain values.

- `Sql` (`sql.dfy`): the relational pieces the queries use. NULL is an
  `Option`. It defines MySQL's NULL-propagating `CONCAT`, key lookups (LEFT JOIN,
  `WHERE key = ?`), `WHERE` filters, SELECT-list projections,
  `ORDER BY ... DESC` and the AUTO_INCREMENT key invariant.
- `Http` (`http.dfy`): the failures the handlers report, with their status
  codes (401, 403, 400, 404, 500) and fixed messages.
- `Json` (`json.dfy`): booking details as an opaque value. `JSON.stringify`
  and `JSON.parse` are a codec that is passed in. `ParseStored` is
  `JSON.parse(details || '{}')`.
- `Auth` (`auth.dfy`): `authenticateToken` first. The token is field `[1]` of the
  Authorization header split on `' '`, and the scheme word is never checked.
  Then comes the three-way decision: 401, 403, or admit with the token's claims.
  Login is one 401 for an unknown email or a wrong password, and otherwise a
  token for `{userId, email}`. Registration maps a duplicate email to 400.
  bcrypt's compare is a function parameter `matches`. jwt's sign and verify
  are a `TokenService` parameter, which stands for the process-wide secret.
  `Lawful(ts)` is everything the model assumes about jwt: verify inverts
  sign, and a signed token is never empty and contains no space (a JWS
  compact token is three base64url segments joined by dots). The last two
  are what lets `Bearer <token>` pass the split (`SignedTokenAdmits`,
  `LoginTokenAdmits`). `Lawful` appears only as a `requires`.
- `Catalog` (`catalog.dfy`): cities, establishments, attractions, transport
  legs, the `mode: from → to` transport name, and `GET /api/places`. The
  places handler accepts one of four category tags and refuses any other tag
  with 400.
- `Bookings` (`bookings.dfy`): the bookings table. An insert always takes the
  owner from the token and always has status `Confirmed`. The listing is the
  caller's rows, newest first by `booking_date`. The single-booking read
  matches id and owner together, so another user's booking is the same 404 as
  a missing one.
- `Reviews` (`reviews.dfy`): the reviews table and its listing. The listing
  has an optional category filter and is newest first by `created_at`. It
  joins `users` for the author's name. Its `place_name` comes from the
  `CASE` over LEFT JOINs (`PlaceName`).

Behaviour the model keeps exactly as the code has it, though a reader might
expect otherwise:

- The review label for Food and Room does not filter on establishment type
  (`HotelUnderFood` shows a Hotel labelled under Food). The places listing
  does filter on type.
- Unparsable stored booking details do not fall back to `{}` per row. The
  whole request fails with 500 (`ListUserBookingsFails`).
- Bookings are ordered by `booking_date`, not by a creation column.
- Neither insert checks that `(service_type, service_id)` or
  `(category, place_id)` exists.

## Model

| member | source | states |
|---|---|---|
| `Sql.Concat` | backend/server.js:392 | CONCAT is non-NULL exactly when every argument is non-NULL |
| `Sql.ConcatFive` | backend/server.js:439-444 | with all five arguments present, CONCAT is their concatenation |
| `Sql.First` | backend/server.js:396-400 | a key lookup is NULL exactly when no row matches; otherwise it is a matching row of the table |
| `Sql.FirstOnKey` | backend/server.js:339 | on a key that only one row can match, the lookup returns that row |
| `Sql.Filter` | backend/server.js:318 | WHERE keeps every row that satisfies the predicate, with its multiplicity, and drops all others |
| `Sql.SortDesc` | backend/server.js:319 | ORDER BY ... DESC yields a permutation of its input sorted by the key, descending |
| `Sql.InsertDesc` | backend/server.js:411 | inserting a row into a key-descending result keeps it descending and adds exactly that row |
| `Sql.Project` | backend/server.js:427 | a SELECT list yields one output row per input row, at the same position |
| `Sql.AutoIncrementInsert` | backend/server.js:298-300 | an insert that takes the next AUTO_INCREMENT key keeps keys increasing and below the counter |
| `Sql.AutoIncrementKeyUnique` | backend/server.js:336-340 | in an AUTO_INCREMENT table a key identifies one row |
| `Http.StatusCode` | backend/server.js:36-97 | statuses are 4xx/5xx; 500 only for internal errors; 401 exactly for a missing token and bad credentials |
| `Http.Message` | backend/server.js:39-81 | every failure but an internal one has a fixed, non-empty `error` text (also at :342 and :449) |
| `Http.MessagesDistinct` | backend/server.js:39-81 | distinct failures have distinct messages, so the two 401s and the two 400s can be told apart |
| `Json.StoredRoundTrip` | backend/server.js:300 | well-formed details stored with `JSON.stringify` parse back to the same value through `details \|\| '{}'` |
| `Json.MissingReadsEmpty` | backend/server.js:325 | NULL or empty stored details read back as the empty object |
| `Json.ParseStored` | backend/server.js:325 | no contract; `JSON.parse(details \|\| '{}')` is specified by `Json.StoredRoundTrip` and `Json.MissingReadsEmpty` |
| `Auth.Split` | backend/server.js:38 | `split(' ')` always yields at least one field |
| `Auth.JoinSplit` | backend/server.js:38 | joining the split fields with the separator gives the header back |
| `Auth.SplitFieldsSeparatorFree` | backend/server.js:38 | no split field contains a space |
| `Auth.SplitSingle` | backend/server.js:38 | a string without a space splits into itself alone |
| `Auth.SplitAtFirst` | backend/server.js:38 | the text before the first space is field 0, and the rest is split on its own |
| `Auth.SchemeThenToken` | backend/server.js:38 | `<any scheme> <token>[ <more>]` yields exactly the token; the scheme is not checked |
| `Auth.ExtractToken` | backend/server.js:38 | no header gives no token; an extracted token is non-empty and has no space |
| `Auth.NoSpaceNoToken` | backend/server.js:38-39 | a header without a space (`"Bearer"`) yields no token |
| `Auth.EmptySecondFieldNoToken` | backend/server.js:38-39 | an empty second field (`"Bearer "`, `"Bearer  x"`) yields no token |
| `Auth.FirstSpace` | backend/server.js:38 | the index of the first space: it holds a space and none comes before it |
| `Auth.NextSpaceOrEnd` | backend/server.js:38 | the end of the word that starts at a position: the next space or the end of the string |
| `Auth.ExtractTokenIsSecondWord` | backend/server.js:38-39 | the token taken via split equals, on every header, the word after the first space (positional reading); an empty word gives none |
| `Auth.Authenticate` | backend/server.js:37-46 | the gate only refuses with access denied or invalid token |
| `Auth.ByEmail` | backend/server.js:76 | the email lookup is NULL exactly when no user has that email, and otherwise a user row with that email |
| `Auth.AuthenticateOutcomes` | backend/server.js:39-44 | 401 exactly when no token is extracted; 403 exactly when one is extracted and fails to verify; admit exactly when it verifies, with the verified claims as `req.user` |
| `Auth.SignedTokenAdmits` | backend/server.js:41-44 | under a lawful jwt, `<scheme> <sign(c)>` admits exactly the claims `c` |
| `Auth.Login` | backend/server.js:72-97 | every failure is the same invalid-credentials one; success exactly when the looked-up user exists and the password matches its digest; the token signs `{userId: user_id, email: email_id}` and the profile holds that row's columns |
| `Auth.LoginIffPasswordMatches` | backend/server.js:76-83 | with unique emails, login for a registered email succeeds iff the password matches that user's digest, and the token carries that user's id and email |
| `Auth.LoginUnknownEmail` | backend/server.js:77 | an email no user has gives invalid credentials, identical to a wrong password |
| `Auth.LoginTokenAdmits` | backend/server.js:83 | the token returned by login passes the gate as `Bearer <token>` with the matched user's claims |
| `Auth.UserTable.constructor` | backend/server.js:56-58 | an empty users table is valid |
| `Auth.UserTable.Register` | backend/server.js:51-69 | a taken email gives 400 and no change; a hashing failure gives 500 and no change; otherwise exactly one row is appended under the next id, which is returned; emails stay unique |
| `Auth.RegisterThenLogin` | backend/server.js:56-83 | after registering with a digest of the password, login with that password succeeds and signs the new row's id and email |
| `Catalog.CityName` | backend/server.js:441-443 | the city subquery is NULL exactly when no city has the id, and otherwise a name of a city with that id |
| `Catalog.AttractionById` | backend/server.js:396 | the attraction join is NULL exactly when no attraction has the id, and otherwise a row with that id |
| `Catalog.EstablishmentById` | backend/server.js:397 | the establishment join is NULL exactly when no establishment has the id, and otherwise a row with that id |
| `Catalog.TransportById` | backend/server.js:398 | the transport join is NULL exactly when no leg has the id, and otherwise a row with that id |
| `Catalog.TransportName` | backend/server.js:439-444 | the transport name is NULL exactly when a city is missing, and otherwise `mode + ': ' + from + ' → ' + to` |
| `Catalog.ListPlaces` | backend/server.js:422-454 | the places handler refuses with 400 invalid category exactly when the tag is absent or not one of Attraction, Food, Room, Transport |
| `Catalog.PlacesAttraction` | backend/server.js:426-427 | Attraction lists every attraction, in order, as `{id, name}` |
| `Catalog.PlacesFood` | backend/server.js:429-430 | Food lists exactly the establishments of type Restaurant, Cafe or Bar |
| `Catalog.PlacesRoom` | backend/server.js:432-433 | Room lists exactly the establishments of type Hotel |
| `Catalog.PlacesTransport` | backend/server.js:435-446 | Transport lists every leg, in order, with its `mode: from → to` name |
| `Bookings.RenderAll` | backend/server.js:323-330 | the details map succeeds exactly when every row parses, and then renders every row, in order; one failed parse makes the whole reply a 500 |
| `Bookings.Render` | backend/server.js:323-326 | a row renders exactly when its stored details parse; every other column is kept and the details are the parsed value (the same parse at :344-347) |
| `Bookings.OwnedBy` | backend/server.js:315-320 | the user query is a permutation of the caller's rows, sorted by booking_date descending |
| `Bookings.OwnedByExactly` | backend/server.js:315-320 | the user query returns exactly the caller's rows, each once, sorted by booking_date descending |
| `Bookings.ListUserBookings` | backend/server.js:312-332 | a refused token is answered with the gate's failure |
| `Bookings.ListUserBookingsFails` | backend/server.js:323-330 | the listing is a 500 exactly when one of the caller's own rows has unparsable details |
| `Bookings.ListUserBookingsOnlyOwn` | backend/server.js:314-318 | no listed booking belongs to anyone but the token's userId |
| `Bookings.ListUserBookingsComplete` | backend/server.js:315-326 | every booking of the caller is listed, with its parsed details |
| `Bookings.ListUserBookingsNewestFirst` | backend/server.js:319 | the listing is ordered by booking_date, descending |
| `Bookings.GetBooking` | backend/server.js:334-353 | a refused token gives the gate's failure; a found booking has the requested id, belongs to the caller and is the rendering of a table row |
| `Bookings.GetBookingNotFoundIff` | backend/server.js:336-342 | for an admitted caller, 404 exactly when no row has both that id and the caller as owner |
| `Bookings.GetBookingFound` | backend/server.js:336-349 | in an AUTO_INCREMENT table, the caller's own booking fetched by its id is returned as its rendering, or is a 500 exactly when its details fail to parse |
| `Bookings.ForeignBookingLooksMissing` | backend/server.js:339-342 | another user's booking and a nonexistent id give the same 404 |
| `Bookings.BookingTable.constructor` | backend/server.js:298-300 | an empty bookings table is valid |
| `Bookings.BookingTable.Create` | backend/server.js:298-305 | appends exactly one row under the next id: owner from the caller, status Confirmed, and service, cost and serialized details from the body; returns the new id; no other row changes |
| `Bookings.NewBooking` | backend/server.js:298-300 | the inserted row has the given id, the caller as owner, status Confirmed, the body's service and cost, and details that parse back to the body's under a lawful codec |
| `Bookings.BookingTable.Post` | backend/server.js:293-310 | a refused token changes nothing and answers with the gate's failure; an admitted one inserts with the token's userId as owner and answers with the new id |
| `Bookings.CreateThenGet` | backend/server.js:298-347 | a booking just created is fetched by its owner under its id, with status Confirmed and the body's details unchanged |
| `Bookings.CreateThenList` | backend/server.js:298-326 | a booking just created appears in its owner's listing with the body's details |
| `Bookings.BookTwice` | backend/server.js:298-306 | two bookings of the same service both succeed, with distinct ids, and both rows are stored |
| `Reviews.PlaceName` | backend/server.js:388-400 | unknown category gives NULL; Attraction is non-NULL iff an attraction has the id; Food and Room are non-NULL iff any establishment has the id, with no type check; Transport is non-NULL iff the leg and both of its cities exist |
| `Reviews.AttractionLabel` | backend/server.js:389 | an Attraction review is labelled with the attraction's name |
| `Reviews.EstablishmentLabel` | backend/server.js:390 | a Food or Room review is labelled with the establishment's name, whatever its type |
| `Reviews.TransportLabelMatchesPlaces` | backend/server.js:391-392 | the review label of a transport leg equals the name the places listing gives it |
| `Reviews.FlightLabel` | backend/server.js:391-392 | a Flight from Delhi to Mumbai is labelled `Flight: Delhi → Mumbai` |
| `Reviews.HotelUnderFood` | backend/server.js:397 | a Hotel reviewed under Food is labelled with its name, yet the Food places listing is empty |
| `Reviews.AuthorName` | backend/server.js:387-395 | user_name is non-NULL exactly when a user has the review's user_id, and is then the name of such a user |
| `Reviews.Enrich` | backend/server.js:380-393 | a listing row keeps the review's columns, has the author's name (NULL when the author is missing) as user_name, and place_name from the `CASE` |
| `Reviews.CategoryFilter` | backend/server.js:406 | an absent or empty category adds no filter; any other value filters on itself |
| `Reviews.ListReviews` | backend/server.js:379-414 | no contract; specified by `Reviews.ListReviewsOfCategory`, `ListReviewsComplete`, `ListReviewsSound`, `ListReviewsUnfiltered`, `ListReviewsNewestFirst` and `ListReviewsAuthorNames` |
| `Reviews.ListedRows` | backend/server.js:404-411 | no contract; the WHERE and ORDER BY of the review query, specified by `Reviews.ListedRowsExactly` and `Reviews.ListReviewsNewestFirst` |
| `Reviews.ListedRowsExactly` | backend/server.js:404-411 | the listed rows are exactly the table rows that pass the category filter, each once |
| `Reviews.ListReviewsOfCategory` | backend/server.js:406-409 | with a non-empty category, every listed review has exactly that category |
| `Reviews.ListReviewsComplete` | backend/server.js:394-400 | every selected review is listed, even when its place label is NULL |
| `Reviews.ListReviewsSound` | backend/server.js:379-411 | every listed row is the enrichment of a selected review |
| `Reviews.ListReviewsUnfiltered` | backend/server.js:406 | without a category (absent or empty), every review is listed |
| `Reviews.ListReviewsNewestFirst` | backend/server.js:411 | the listing is ordered by created_at, descending |
| `Reviews.ListReviewsAuthorNames` | backend/server.js:387 | when each review's author is in users, every listed row carries a non-NULL user_name |
| `Reviews.ReviewTable.constructor` | backend/server.js:363-366 | an empty reviews table is valid |
| `Reviews.ReviewTable.Post` | backend/server.js:358-373 | a refused token changes nothing; an admitted one appends exactly one review, authored by the token's userId, with the body's fields and no existence check |

## Left out

- Express setup, CORS/JSON middleware, the pool configuration and its
  connection test, and `app.listen` (backend/server.js:1-34, 457-459): these
  are bootstrap and I/O.
- The catalog read endpoints for cities, transport, rooms, food and
  attractions (backend/server.js:101-289): these are plain filtered lookups.
  Their `query +=` / `params.push` assembly is not modelled. The same
  assembly in the review listing (backend/server.js:404-411) appears only
  through what it means: `CategoryFilter`, then the sort.
- The internals of bcrypt, jwt and JSON. Password comparison, token
  sign/verify and stringify/parse are function parameters. `Lawful`
  predicates state what the proofs rely on. The `iat` claim that jwt adds is
  not modelled. A verified payload is taken to have the `{userId, email}`
  shape.
- Auth.UserTable.Register: the salted digest is an input (`None` when
  `bcrypt.hash` throws). Database errors other than the duplicate email are
  not modelled. The model does not capture that InnoDB can use up an
  AUTO_INCREMENT value on a failed insert, so ids here have no gaps.
- Generic database failures that map to 500 are not modelled. Neither is the
  missing `try` in `/api/places` (backend/server.js:452). There a failing
  query is an unhandled promise rejection, and what follows depends on the
  Express and Node versions: the request may hang, the process may exit,
  or Express 5 may answer 500. Only the failed details parse and the failed
  `bcrypt.hash` at registration are modelled as a 500.
- Request body typing. Every body field is taken to be present and of its
  column's type. The model does not capture what mysql2 does with
  `undefined` bind values. It also does not capture JavaScript-to-SQL
  coercions, including the string path parameter `:id` compared to an
  integer column. `total_cost`, `budget` and `ratings` are integers here,
  not DECIMAL.
- Json.Lawful: JSON numbers are integers here, so fractions and
  non-finite numbers are not modelled. A detail such as `1e400` becomes
  Infinity, is stored as `null` and reads back as `null`; it is not a
  `Json.Value`, so `Bookings.CreateThenGet` says nothing about it. The round
  trip is assumed only for values without repeated member names
  (`Json.WellFormed`), which is all that `express.json()` can hand over.
  Two JavaScript effects sit outside the assumption: integer-like member
  names are enumerated first (`{"b":1,"1":2}` comes back with `"1"` first),
  and integers beyond 2^53 lose precision.
- Booking details are read from a text column. A JSON-typed column, which
  mysql2 would hand back already parsed, is not modelled.
- SQL collation. String comparisons are exact, so case and trailing-space
  insensitivity are not modelled. This covers `category = ?` and the `CASE`
  tags. It also covers the email comparisons: the unique key on `email_id`
  would treat `A@x` and `a@x` as the same email (400 at
  backend/server.js:63-64), and so would the login lookup (:76), but
  `Auth.UserTable.Register` and `Auth.ByEmail` compare exactly.
- Catalog columns (`name`, `type`, `mode`) are taken to be NOT NULL. A
  NULL `mode` or city name would make the transport CONCAT NULL, and a NULL
  attraction or establishment name would give a NULL label.
- `ORDER BY` ties. MySQL leaves the order of rows with equal timestamps
  unspecified. The model breaks ties by table order. The ordering lemmas
  claim only "sorted, and a permutation of the selected rows".
- Queries without `ORDER BY` (the four `/api/places` queries,
  backend/server.js:427-446) have no order fixed by SQL. The model returns
  them in table order, so the position-by-position statements of
  `Catalog.PlacesAttraction` and `Catalog.PlacesTransport` hold only for a
  database that scans in insertion order.
- Timestamps (`booking_date`, `created_at`) are a `now` parameter of the
  insert, so the clock is not modelled.
- Primary keys of the catalog tables are assumed unique wherever a lemma
  names a label's exact value (the `requires` of those lemmas). LEFT JOINs on
  duplicate keys would multiply rows; this is not modelled.
- Concurrency between requests: two bookings are two sequential inserts
  (`BookTwice`).
- The hardcoded secrets and database credentials.
