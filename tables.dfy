/** The rows of the four sqlite tables the application and the seeding
    script share, and the database that holds them in memory. */
module Tables {

  /** A row of `places`; `id` is its primary key (the OSM node id as text). */
  datatype Place = Place(
    id: string,
    name: string,
    city: string,
    lat: real,
    lng: real,
    description: string,
    imageUrl: string,
    category: string,
    rating: real)

  /** `id` is the primary key of `places`: no two rows share it. Stated
      through `IdAt` so that it is only instantiated where ids are compared. */
  predicate UniqueIds(places: seq<Place>) {
    forall i, j :: 0 <= i < j < |places| ==> IdAt(places, i) != IdAt(places, j)
  }

  function IdAt(places: seq<Place>, i: int): string
    requires 0 <= i < |places|
  {
    places[i].id
  }

  /** A row of `favorites`. */
  datatype Favorite = Favorite(username: string, placeId: string)

  /** A row of `trips`; `id` is its integer primary key. */
  datatype Trip = Trip(id: int, username: string, title: string, start: string, end: string)

  /** A row of `trip_days`; dates are day ordinals. */
  datatype TripDay = TripDay(tripId: int, tripDate: int, placeId: string)

  /** The database file, with each table held as its rows in row order
      (favorites as the set of its (username, place_id) pairs). */
  class Database {
    var places: seq<Place>
    var favorites: set<Favorite>
    var trips: seq<Trip>
    var tripDays: seq<TripDay>

    constructor ()
      ensures places == [] && favorites == {} && trips == [] && tripDays == []
    {
      places := [];
      favorites := {};
      trips := [];
      tripDays := [];
    }
  }
}
