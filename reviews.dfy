/** The review board: POST /api/reviews inserts behind the bearer-token gate;
    GET /api/reviews lists reviews for anyone, optionally by category,
    newest first, each with its author's name from `users` and a place label
    that the `CASE` over the catalog LEFT JOINs resolves from the review's
    (category, place_id) pair. */
module Reviews {
  import opened Sql
  import opened Http
  import opened Auth
  import opened Catalog

  /** What the request body supplies; the author is not among it. */
  datatype ReviewRequest = ReviewRequest(category: string, placeId: int, ratings: int, comments: string)

  /** A row of `reviews`; `createdAt` is the timestamp of the insert. */
  datatype Review = Review(reviewId: int, userId: int, category: string, placeId: int,
                           ratings: int, comments: string, createdAt: int)

  /** A row of the GET /api/reviews response. */
  datatype ReviewListing = ReviewListing(reviewId: int, category: string, ratings: int, comments: string,
                                         placeId: int, createdAt: int,
                                         userName: Option<string>, placeName: Option<string>)

  /** The `place_name` column. The establishment join and the `CASE` both
      accept Food and Room alike, so the establishment's `type` plays no
      part. A tag outside the four, or a reference that no row (or, for
      transport, no city) answers, gives NULL. */
  function PlaceName(category: string, placeId: int, cat: Catalog): (r: Option<string>)
    ensures !IsCategory(category) ==> r == None
    ensures category == "Attraction"
      ==> (r.Some? <==> exists i :: 0 <= i < |cat.attractions| && cat.attractions[i].attractionId == placeId)
    ensures category == "Food" || category == "Room"
      ==> (r.Some? <==> exists i :: 0 <= i < |cat.establishments| && cat.establishments[i].establishmentId == placeId)
    ensures category == "Transport"
      ==> (r.Some? <==> exists t :: t in cat.transport && t.transportId == placeId && t == TransportById(cat, placeId).value
                                  && TransportName(cat, t).Some?)
  {
    if category == "Attraction" then
      match AttractionById(cat, placeId)
      case None => None
      case Some(a) => Some(a.name)
    else if category == "Food" || category == "Room" then
      match EstablishmentById(cat, placeId)
      case None => None
      case Some(e) => Some(e.name)
    else if category == "Transport" then
      match TransportById(cat, placeId)
      case None => None
      case Some(t) => TransportName(cat, t)
    else
      None
  }

  /** On a primary key the resolver gives the attraction's name. */
  lemma AttractionLabel(cat: Catalog, a: Attraction)
    requires a in cat.attractions
    requires forall i :: 0 <= i < |cat.attractions| && cat.attractions[i].attractionId == a.attractionId
               ==> cat.attractions[i] == a
    ensures PlaceName("Attraction", a.attractionId, cat) == Some(a.name)
  {
    FirstOnKey(cat.attractions, (x: Attraction) => x.attractionId == a.attractionId, a);
  }

  /** Under Food and under Room alike the resolver gives the establishment's
      name, whatever its type: a Room review of a restaurant is labelled with
      the restaurant's name. */
  lemma EstablishmentLabel(cat: Catalog, e: Establishment, category: string)
    requires category == "Food" || category == "Room"
    requires e in cat.establishments
    requires forall i :: 0 <= i < |cat.establishments| && cat.establishments[i].establishmentId == e.establishmentId
               ==> cat.establishments[i] == e
    ensures PlaceName(category, e.establishmentId, cat) == Some(e.name)
  {
    FirstOnKey(cat.establishments, (x: Establishment) => x.establishmentId == e.establishmentId, e);
  }

  /** On a primary key the resolver's transport label is the name the places
      listing shows for the same leg. */
  lemma TransportLabelMatchesPlaces(cat: Catalog, k: nat)
    requires k < |cat.transport|
    requires forall i :: 0 <= i < |cat.transport| && cat.transport[i].transportId == cat.transport[k].transportId
               ==> i == k
    ensures PlaceName("Transport", cat.transport[k].transportId, cat)
         == ListPlaces(Some("Transport"), cat).value[k].name
  {
    var t := cat.transport[k];
    FirstOnKey(cat.transport, (x: Transport) => x.transportId == t.transportId, t);
    PlacesTransport(cat);
  }

  /** A Flight leg from Delhi to Mumbai is labelled `Flight: Delhi → Mumbai`. */
  lemma FlightLabel()
    ensures var cat := Catalog([City(1, "Delhi"), City(2, "Mumbai")], [], [], [Transport(7, "Flight", 1, 2)]);
      PlaceName("Transport", 7, cat) == Some("Flight: Delhi \U{2192} Mumbai")
  {
    var cat := Catalog([City(1, "Delhi"), City(2, "Mumbai")], [], [], [Transport(7, "Flight", 1, 2)]);
    var t := Transport(7, "Flight", 1, 2);
    FirstOnKey(cat.transport, (x: Transport) => x.transportId == 7, t);
    FirstOnKey(cat.cities, (c: City) => c.cityId == 1, City(1, "Delhi"));
    FirstOnKey(cat.cities, (c: City) => c.cityId == 2, City(2, "Mumbai"));
    assert CityName(cat, 1) == Some("Delhi") && CityName(cat, 2) == Some("Mumbai");
    assert "Flight" + ": " + "Delhi" + Arrow + "Mumbai" == "Flight: Delhi \U{2192} Mumbai";
  }

  /** A Hotel reviewed under Food keeps its label, yet the Food places
      listing never offers it: the two paths disagree on the type filter. */
  lemma HotelUnderFood()
    ensures var cat := Catalog([], [Establishment(3, "Grand", "Hotel")], [], []);
      && PlaceName("Food", 3, cat) == Some("Grand")
      && ListPlaces(Some("Food"), cat) == Ok([])
  {
    var e := Establishment(3, "Grand", "Hotel");
    var cat := Catalog([], [e], [], []);
    EstablishmentLabel(cat, e, "Food");
    var p := (x: Establishment) => IsFoodKind(x.kind);
    assert [e][1..] == [];
    assert Filter(cat.establishments, p) == [];
  }

  /** `LEFT JOIN users u ON r.user_id = u.user_id` then `u.name`. */
  function AuthorName(users: seq<User>, userId: int): (r: Option<string>)
    ensures r.Some? <==> exists i :: 0 <= i < |users| && users[i].userId == userId
    ensures r.Some? ==> exists i :: 0 <= i < |users| && users[i].userId == userId && users[i].name == r.value
  {
    match First(users, (u: User) => u.userId == userId)
    case None => None
    case Some(u) => Some(u.name)
  }

  /** One row of the listing, built from one review. */
  function Enrich(r: Review, users: seq<User>, cat: Catalog): (e: ReviewListing)
    ensures && e.reviewId == r.reviewId && e.category == r.category && e.ratings == r.ratings
            && e.comments == r.comments && e.placeId == r.placeId && e.createdAt == r.createdAt
    ensures e.userName.Some? <==> exists i :: 0 <= i < |users| && users[i].userId == r.userId
    ensures e.userName == AuthorName(users, r.userId)
    ensures e.placeName == PlaceName(r.category, r.placeId, cat)
  {
    ReviewListing(r.reviewId, r.category, r.ratings, r.comments, r.placeId, r.createdAt,
                  AuthorName(users, r.userId), PlaceName(r.category, r.placeId, cat))
  }

  /** `if (category)`: an absent or empty query parameter adds no filter. */
  function CategoryFilter(category: Option<string>): (f: Option<string>)
    ensures f.None? <==> category.None? || category.value == ""
    ensures f.Some? ==> f == category
  {
    if category.Some? && category.value != "" then category else None
  }

  predicate Selected(r: Review, filter: Option<string>)
  {
    filter.None? || r.category == filter.value
  }

  /** The rows in the listing, before the joins: the filter, then
      ORDER BY created_at DESC. */
  function ListedRows(rows: seq<Review>, category: Option<string>): seq<Review>
  {
    var filter := CategoryFilter(category);
    SortDesc(Filter(rows, (r: Review) => Selected(r, filter)), (r: Review) => r.createdAt)
  }

  /** GET /api/reviews?category=: the listed rows, each with the columns the
      joins add. */
  function ListReviews(rows: seq<Review>, users: seq<User>, cat: Catalog, category: Option<string>)
    : seq<ReviewListing>
  {
    Project(ListedRows(rows, category), (r: Review) => Enrich(r, users, cat))
  }

  /** The listed reviews are exactly the selected rows, each once. */
  lemma ListedRowsExactly(rows: seq<Review>, category: Option<string>)
    ensures forall x :: x in ListedRows(rows, category) <==> x in rows && Selected(x, CategoryFilter(category))
    ensures |ListedRows(rows, category)| == |Filter(rows, (r: Review) => Selected(r, CategoryFilter(category)))|
  {
    var filter := CategoryFilter(category);
    var sel := Filter(rows, (r: Review) => Selected(r, filter));
    var out := ListedRows(rows, category);
    assert multiset(out) == multiset(sel);
    assert |out| == |multiset(out)| == |multiset(sel)| == |sel|;
    forall x ensures x in out <==> x in rows && Selected(x, filter) {
      assert x in out <==> x in multiset(out);
      assert x in sel <==> x in multiset(sel);
      assert x in rows <==> x in multiset(rows);
    }
  }

  /** With a category, every listed review is of that category. */
  lemma ListReviewsOfCategory(rows: seq<Review>, users: seq<User>, cat: Catalog, c: string)
    requires c != ""
    ensures forall k :: 0 <= k < |ListReviews(rows, users, cat, Some(c))| ==>
              ListReviews(rows, users, cat, Some(c))[k].category == c
  {
    ListedRowsExactly(rows, Some(c));
    var out := ListedRows(rows, Some(c));
    forall k | 0 <= k < |out| ensures out[k].category == c {
      assert out[k] in out;
    }
  }

  /** Every selected review is listed, its place label resolved or not: a
      reference that resolves to NULL does not hide the review. */
  lemma ListReviewsComplete(rows: seq<Review>, users: seq<User>, cat: Catalog, category: Option<string>, r: Review)
    requires r in rows && Selected(r, CategoryFilter(category))
    ensures Enrich(r, users, cat) in ListReviews(rows, users, cat, category)
  {
    ListedRowsExactly(rows, category);
    var out := ListedRows(rows, category);
    var k :| 0 <= k < |out| && out[k] == r;
    assert ListReviews(rows, users, cat, category)[k] == Enrich(r, users, cat);
  }

  /** Every listed row comes from a selected review of the table. */
  lemma ListReviewsSound(rows: seq<Review>, users: seq<User>, cat: Catalog, category: Option<string>, k: nat)
    requires k < |ListReviews(rows, users, cat, category)|
    ensures exists r :: r in rows && Selected(r, CategoryFilter(category))
                     && ListReviews(rows, users, cat, category)[k] == Enrich(r, users, cat)
  {
    ListedRowsExactly(rows, category);
    var out := ListedRows(rows, category);
    assert out[k] in out;
    assert ListReviews(rows, users, cat, category)[k] == Enrich(out[k], users, cat);
  }

  /** Without a category (or with an empty one) every review is listed. */
  lemma ListReviewsUnfiltered(rows: seq<Review>, users: seq<User>, cat: Catalog, category: Option<string>)
    requires category == None || category == Some("")
    ensures |ListReviews(rows, users, cat, category)| == |rows|
    ensures forall r :: r in rows ==> Enrich(r, users, cat) in ListReviews(rows, users, cat, category)
  {
    ListedRowsExactly(rows, category);
    var sel := Filter(rows, (r: Review) => Selected(r, CategoryFilter(category)));
    assert multiset(sel) == multiset(rows);
    assert |sel| == |multiset(sel)| == |multiset(rows)| == |rows|;
    forall r | r in rows ensures Enrich(r, users, cat) in ListReviews(rows, users, cat, category) {
      ListReviewsComplete(rows, users, cat, category, r);
    }
  }

  /** The listing is newest first by `created_at`. */
  lemma ListReviewsNewestFirst(rows: seq<Review>, users: seq<User>, cat: Catalog, category: Option<string>)
    ensures SortedDesc(ListReviews(rows, users, cat, category), (v: ReviewListing) => v.createdAt)
  {
    var out := ListedRows(rows, category);
    var vs := ListReviews(rows, users, cat, category);
    forall i, j | 0 <= i < j < |vs| ensures vs[i].createdAt >= vs[j].createdAt {
      assert vs[i] == Enrich(out[i], users, cat) && vs[j] == Enrich(out[j], users, cat);
    }
  }

  /** Every listed review whose author is a row of `users` carries the
      author's name. */
  lemma ListReviewsAuthorNames(rows: seq<Review>, users: seq<User>, cat: Catalog, category: Option<string>)
    requires forall r :: r in rows ==> exists i :: 0 <= i < |users| && users[i].userId == r.userId
    ensures forall k :: 0 <= k < |ListReviews(rows, users, cat, category)| ==>
              ListReviews(rows, users, cat, category)[k].userName.Some?
  {
    ListedRowsExactly(rows, category);
    var out := ListedRows(rows, category);
    forall k | 0 <= k < |out| ensures ListReviews(rows, users, cat, category)[k].userName.Some? {
      assert out[k] in out;
      assert ListReviews(rows, users, cat, category)[k] == Enrich(out[k], users, cat);
    }
  }

  /** The reviews table (AUTO_INCREMENT `review_id`). */
  class ReviewTable {
    var rows: seq<Review>
    var nextId: int

    ghost predicate Valid()
      reads this
    {
      AutoIncrement(rows, (r: Review) => r.reviewId, nextId)
    }

    constructor ()
      ensures Valid() && rows == [] && nextId == 1
    {
      rows := [];
      nextId := 1;
    }

    /** POST /api/reviews: the gate, then one new row authored by the
        token's `userId`, with the body's category, place, rating and
        comment as given: no check that the place exists, no limit on
        reviews per user and place. The response carries no id. */
    method Post(header: Option<string>, ts: TokenService, req: ReviewRequest, now: int)
      returns (r: Reply<()>)
      requires Valid()
      modifies this
      ensures Valid()
      ensures Authenticate(header, ts).Refuse?
        ==> r == Err(Authenticate(header, ts).failure) && rows == old(rows) && nextId == old(nextId)
      ensures Authenticate(header, ts).Admit?
        ==> && r == Ok(())
            && rows == old(rows) + [Review(old(nextId), Authenticate(header, ts).user.userId, req.category,
                                           req.placeId, req.ratings, req.comments, now)]
            && nextId == old(nextId) + 1
    {
      match Authenticate(header, ts)
      case Refuse(f) =>
        r := Err(f);
      case Admit(user) =>
        var review := Review(nextId, user.userId, req.category, req.placeId, req.ratings, req.comments, now);
        AutoIncrementInsert(rows, (x: Review) => x.reviewId, nextId, review);
        rows := rows + [review];
        nextId := nextId + 1;
        r := Ok(());
    }
  }
}
