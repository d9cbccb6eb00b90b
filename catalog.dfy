/** The read-only catalog tables, the key lookups that the joins and
    subqueries perform on them, and GET /api/places, which chooses one of
    four catalog projections by category tag. */
module Catalog {
  import opened Sql
  import opened Http

  datatype City = City(cityId: int, name: string)

  /** `kind` is the `type` column: `Hotel`, `Restaurant`, `Cafe` or `Bar`. */
  datatype Establishment = Establishment(establishmentId: int, name: string, kind: string)

  datatype Attraction = Attraction(attractionId: int, name: string)

  datatype Transport = Transport(transportId: int, mode: string, fromCityId: int, destinationCityId: int)

  datatype Catalog = Catalog(cities: seq<City>, establishments: seq<Establishment>,
                             attractions: seq<Attraction>, transport: seq<Transport>)

  /** The separator between the two cities of a transport label, `' → '`. */
  const Arrow: string := " \U{2192} "

  /** The four service categories with a catalog behind them. */
  predicate IsCategory(tag: string)
  {
    tag == "Attraction" || tag == "Food" || tag == "Room" || tag == "Transport"
  }

  /** The establishment types listed under Food. */
  predicate IsFoodKind(kind: string)
  {
    kind == "Restaurant" || kind == "Cafe" || kind == "Bar"
  }

  /** `(SELECT name FROM cities WHERE city_id = id)`, NULL when no city has it. */
  function CityName(cat: Catalog, id: int): (r: Option<string>)
    ensures r.None? <==> forall i :: 0 <= i < |cat.cities| ==> cat.cities[i].cityId != id
    ensures r.Some? ==> City(id, r.value) in cat.cities
  {
    match First(cat.cities, (c: City) => c.cityId == id)
    case None => None
    case Some(c) => Some(c.name)
  }

  /** The LEFT JOINs of the review listing on a catalog primary key: the
      first row with that id, NULL when there is none. */
  function AttractionById(cat: Catalog, id: int): (r: Option<Attraction>)
    ensures r.None? <==> forall i :: 0 <= i < |cat.attractions| ==> cat.attractions[i].attractionId != id
    ensures r.Some? ==> r.value in cat.attractions && r.value.attractionId == id
  {
    First(cat.attractions, (a: Attraction) => a.attractionId == id)
  }

  function EstablishmentById(cat: Catalog, id: int): (r: Option<Establishment>)
    ensures r.None? <==> forall i :: 0 <= i < |cat.establishments| ==> cat.establishments[i].establishmentId != id
    ensures r.Some? ==> r.value in cat.establishments && r.value.establishmentId == id
  {
    First(cat.establishments, (e: Establishment) => e.establishmentId == id)
  }

  function TransportById(cat: Catalog, id: int): (r: Option<Transport>)
    ensures r.None? <==> forall i :: 0 <= i < |cat.transport| ==> cat.transport[i].transportId != id
    ensures r.Some? ==> r.value in cat.transport && r.value.transportId == id
  {
    First(cat.transport, (t: Transport) => t.transportId == id)
  }

  /** `CONCAT(t.mode, ': ', <from city name>, ' → ', <destination city name>)`:
      NULL when either city is missing, `mode: from → to` otherwise. */
  function TransportName(cat: Catalog, t: Transport): (r: Option<string>)
    ensures r.Some? <==> CityName(cat, t.fromCityId).Some? && CityName(cat, t.destinationCityId).Some?
    ensures r.Some? ==> r.value == t.mode + ": " + CityName(cat, t.fromCityId).value + Arrow
                                   + CityName(cat, t.destinationCityId).value
  {
    var from := CityName(cat, t.fromCityId);
    var dest := CityName(cat, t.destinationCityId);
    var parts := [Some(t.mode), Some(": "), from, Some(Arrow), dest];
    if from.Some? && dest.Some? then
      ConcatFive(t.mode, ": ", from.value, Arrow, dest.value);
      Concat(parts)
    else
      assert parts[2].None? || parts[4].None?;
      Concat(parts)
  }

  /** A row of the /api/places response: `{id, name}`. */
  datatype Place = Place(id: int, name: Option<string>)

  /** GET /api/places?category=: any tag outside the four categories (or
      none at all) is refused before any query runs. */
  function ListPlaces(category: Option<string>, cat: Catalog): (r: Reply<seq<Place>>)
    ensures r.Err? <==> !(category.Some? && IsCategory(category.value))
    ensures r.Err? ==> r.failure == InvalidCategory
  {
    if category == Some("Attraction") then
      Ok(Project(cat.attractions, (a: Attraction) => Place(a.attractionId, Some(a.name))))
    else if category == Some("Food") then
      Ok(Project(Filter(cat.establishments, (e: Establishment) => IsFoodKind(e.kind)),
                 (e: Establishment) => Place(e.establishmentId, Some(e.name))))
    else if category == Some("Room") then
      Ok(Project(Filter(cat.establishments, (e: Establishment) => e.kind == "Hotel"),
                 (e: Establishment) => Place(e.establishmentId, Some(e.name))))
    else if category == Some("Transport") then
      Ok(Project(cat.transport, (t: Transport) => Place(t.transportId, TransportName(cat, t))))
    else
      Err(InvalidCategory)
  }

  /** Under Attraction every attraction is listed, in table order, by its
      name. */
  lemma PlacesAttraction(cat: Catalog)
    ensures ListPlaces(Some("Attraction"), cat).Ok?
    ensures var ps := ListPlaces(Some("Attraction"), cat).value;
      && |ps| == |cat.attractions|
      && forall i :: 0 <= i < |ps| ==>
           ps[i] == Place(cat.attractions[i].attractionId, Some(cat.attractions[i].name))
  {
  }

  /** Under Food exactly the establishments of type Restaurant, Cafe or Bar
      are listed: every listed place is one of them, and each of them is
      listed. */
  lemma PlacesFood(cat: Catalog)
    ensures ListPlaces(Some("Food"), cat).Ok?
    ensures var ps := ListPlaces(Some("Food"), cat).value;
      && (forall p :: p in ps ==> exists e :: e in cat.establishments && IsFoodKind(e.kind)
                                           && p == Place(e.establishmentId, Some(e.name)))
      && (forall e :: e in cat.establishments && IsFoodKind(e.kind)
                      ==> Place(e.establishmentId, Some(e.name)) in ps)
  {
    var food := Filter(cat.establishments, (e: Establishment) => IsFoodKind(e.kind));
    var ps := ListPlaces(Some("Food"), cat).value;
    forall p | p in ps
      ensures exists e :: e in cat.establishments && IsFoodKind(e.kind) && p == Place(e.establishmentId, Some(e.name))
    {
      var k :| 0 <= k < |ps| && ps[k] == p;
      assert food[k] in multiset(food);
      assert IsFoodKind(food[k].kind);
    }
    forall e | e in cat.establishments && IsFoodKind(e.kind)
      ensures Place(e.establishmentId, Some(e.name)) in ps
    {
      assert e in multiset(food);
      var k :| 0 <= k < |food| && food[k] == e;
      assert ps[k] == Place(e.establishmentId, Some(e.name));
    }
  }

  /** Under Room exactly the establishments of type Hotel are listed. */
  lemma PlacesRoom(cat: Catalog)
    ensures ListPlaces(Some("Room"), cat).Ok?
    ensures var ps := ListPlaces(Some("Room"), cat).value;
      && (forall p :: p in ps ==> exists e :: e in cat.establishments && e.kind == "Hotel"
                                           && p == Place(e.establishmentId, Some(e.name)))
      && (forall e :: e in cat.establishments && e.kind == "Hotel"
                      ==> Place(e.establishmentId, Some(e.name)) in ps)
  {
    var rooms := Filter(cat.establishments, (e: Establishment) => e.kind == "Hotel");
    var ps := ListPlaces(Some("Room"), cat).value;
    forall p | p in ps
      ensures exists e :: e in cat.establishments && e.kind == "Hotel" && p == Place(e.establishmentId, Some(e.name))
    {
      var k :| 0 <= k < |ps| && ps[k] == p;
      assert rooms[k] in multiset(rooms);
      assert rooms[k].kind == "Hotel";
    }
    forall e | e in cat.establishments && e.kind == "Hotel"
      ensures Place(e.establishmentId, Some(e.name)) in ps
    {
      assert e in multiset(rooms);
      var k :| 0 <= k < |rooms| && rooms[k] == e;
      assert ps[k] == Place(e.establishmentId, Some(e.name));
    }
  }

  /** Under Transport every leg is listed, in table order, with its
      `mode: from → to` name (NULL when a city is missing). */
  lemma PlacesTransport(cat: Catalog)
    ensures ListPlaces(Some("Transport"), cat).Ok?
    ensures var ps := ListPlaces(Some("Transport"), cat).value;
      && |ps| == |cat.transport|
      && forall i :: 0 <= i < |ps| ==>
           ps[i] == Place(cat.transport[i].transportId, TransportName(cat, cat.transport[i]))
  {
  }
}
