/** The request handlers of the Flask application (app.py) that read and
    change the tables: search, the favourite toggle, the itinerary day
    list, the per-trip day grouping, and deleting and saving trips. The
    logged-in user is an optional session value. The search is a function of
    the places table; the itinerary page answers with a `PlanPage`; the JSON
    handlers answer with a `Reply` and change only the tables they write. */
module App {
  import opened Optional
  import opened Text
  import opened Seqs
  import opened Tables

  datatype FavoriteStatus = Added | Removed

  /** A row of the trip_days query: the day and the joined place's name and city. */
  datatype JoinedRow = JoinedRow(tripDate: int, name: string, city: string)

  /** One entry of a day's place list. */
  datatype Stop = Stop(name: string, city: string)

  /** One element of the trip_days answer: a date and the places on it. */
  datatype DayGroup = DayGroup(date: int, places: seq<Stop>)

  /** A day of a trip as save_trip receives it: a date and place ids. */
  datatype DayPlan = DayPlan(date: int, places: seq<string>)

  /** The JSON answers of the handlers, with the HTTP status each carries. */
  datatype Reply =
    | Unauthorized                  // 401
    | MissingTripInfo               // 400
    | NotFoundOrUnauthorized        // 403
    | FavoriteToggled(status: FavoriteStatus)
    | TripDeleted
    | TripSaved(tripId: int)
    | DayGroups(groups: seq<DayGroup>)

  // ---------------------------------------------------------------- /search

  /** The WHERE clause of the search query, for a term and category that
      Python has lowered; the columns are lowered by SQLite's LOWER. */
  predicate Matches(p: Place, term: string, category: string) {
    && (Contains(Lower(p.city), term) || Contains(Lower(p.name), term))
    && (category == [] || Lower(p.category) == category)
  }

  function MatchesQuery(term: string, category: string): Place -> bool {
    (p: Place) => Matches(p, term, category)
  }

  /** What a search promises of a returned place, in terms of substrings. */
  ghost predicate Hit(p: Place, q: string, category: string) {
    && (Occurs(PyLower(q), Lower(p.city)) || Occurs(PyLower(q), Lower(p.name)))
    && (PyLower(category) == [] || Lower(p.category) == PyLower(category))
  }

  /** GET /search?q=..&category=..; a missing parameter is the empty string. */
  function Search(places: seq<Place>, q: string, category: string): (r: seq<Place>)
    ensures q == [] ==> r == []
    ensures forall p :: p in r <==> q != [] && p in places && Hit(p, q, category)
    ensures forall p :: multiset(r)[p] == if q != [] && Hit(p, q, category) then multiset(places)[p] else 0
  {
    var term := PyLower(q);
    var cat := PyLower(category);
    if term == [] then [] else FilterCount(places, MatchesQuery(term, cat)); Filter(places, MatchesQuery(term, cat))
  }

  /** Results come in row order: searching two runs of rows gives the two answers in turn. */
  lemma SearchConcat(a: seq<Place>, b: seq<Place>, q: string, category: string)
    ensures Search(a + b, q, category) == Search(a, q, category) + Search(b, q, category)
  {
    if q != [] {
      FilterConcat(a, b, MatchesQuery(PyLower(q), PyLower(category)));
    }
  }

  /** The two lowerings differ beyond ASCII: searching for a name that starts
      with a non-ASCII capital does not find the place of that very name. */
  lemma SearchMissesNonAsciiCapital(p: Place)
    requires p.name == "\U{C9}" && p.city == "\U{C9}"
    ensures Search([p], p.name, "") == []
  {
    LowerKeepsNonAsciiCapital();
    var name: string := "\U{C9}";
    assert name[0..1] == name && name[0] != '\U{E9}';
    assert !Occurs("\U{E9}", name);
  }

  // ------------------------------------------------------ /favorite/<place_id>

  /** The favourites after toggling `f`: only that pair flips. */
  function Toggled(favorites: set<Favorite>, f: Favorite): (r: set<Favorite>)
    ensures f in r <==> f !in favorites
    ensures forall g :: g != f ==> (g in r <==> g in favorites)
  {
    if f in favorites then favorites - {f} else favorites + {f}
  }

  lemma ToggleTwice(favorites: set<Favorite>, f: Favorite)
    ensures Toggled(Toggled(favorites, f), f) == favorites
  {
  }

  method ToggleFavorite(db: Database, user: Option<string>, placeId: string) returns (reply: Reply)
    modifies db`favorites
    ensures user.None? ==> reply == Unauthorized && db.favorites == old(db.favorites)
    ensures user.Some? ==>
              var f := Favorite(user.value, placeId);
              && reply == FavoriteToggled(if f in old(db.favorites) then Removed else Added)
              && db.favorites == Toggled(old(db.favorites), f)
  {
    if user.None? {
      return Unauthorized;
    }
    var f := Favorite(user.value, placeId);
    var present := f in db.favorites;
    if present {
      db.favorites := db.favorites - {f};
      reply := FavoriteToggled(Removed);
    } else {
      db.favorites := db.favorites + {f};
      reply := FavoriteToggled(Added);
    }
  }

  // -------------------------------------------------------------- /tripplan

  /** The itinerary page: the login redirect, or the list of day ordinals
      together with whether "Invalid dates selected." was flashed. */
  datatype PlanPage = LoginRedirect | Itinerary(days: seq<int>, invalidDates: bool)

  /** The inclusive day list from `start` to `end`. */
  method DateRange(start: int, end: int) returns (days: seq<int>)
    requires start <= end
    ensures |days| == end - start + 1
    ensures forall i :: 0 <= i < |days| ==> days[i] == start + i
    ensures days[0] == start && days[|days| - 1] == end
    ensures forall i, j :: 0 <= i < j < |days| ==> days[i] < days[j]
  {
    days := [];
    var delta := end - start + 1;
    for i := 0 to delta
      invariant |days| == i
      invariant forall k :: 0 <= k < i ==> days[k] == start + k
    {
      days := days + [start + i];
    }
  }

  /** GET or POST /tripplan; a missing or unparseable date is `None`. */
  method TripPlan(user: Option<string>, posted: bool, start: Option<int>, end: Option<int>)
    returns (page: PlanPage)
    ensures user.None? ==> page == LoginRedirect
    ensures user.Some? && !posted ==> page == Itinerary([], false)
    ensures user.Some? && posted && (start.None? || end.None? || start.value > end.value) ==>
              page == Itinerary([], true)
    ensures user.Some? && posted && start.Some? && end.Some? && start.value <= end.value ==>
              && page.Itinerary? && !page.invalidDates
              && |page.days| == end.value - start.value + 1
              && forall i :: 0 <= i < |page.days| ==> page.days[i] == start.value + i
  {
    if user.None? {
      return LoginRedirect;
    }
    if !posted {
      return Itinerary([], false);
    }
    if start.None? || end.None? || start.value > end.value {
      return Itinerary([], true);
    }
    var days := DateRange(start.value, end.value);
    page := Itinerary(days, false);
  }

  // ------------------------------------------------- /api/trip_days/<trip_id>

  function Dates(rows: seq<JoinedRow>): seq<int> {
    seq(|rows|, k requires 0 <= k < |rows| => rows[k].tripDate)
  }

  function OnDate(d: int): JoinedRow -> bool {
    (r: JoinedRow) => r.tripDate == d
  }

  function Stops(rows: seq<JoinedRow>): seq<Stop> {
    seq(|rows|, k requires 0 <= k < |rows| => Stop(rows[k].name, rows[k].city))
  }

  /** The places of the rows dated `d`, in row order. */
  function StopsOn(rows: seq<JoinedRow>, d: int): seq<Stop> {
    Stops(Filter(rows, OnDate(d)))
  }

  /** `groups` is the grouping of `rows` by date: one group per distinct
      date, in order of first appearance, each holding its rows in order. */
  ghost predicate GroupsOf(groups: seq<DayGroup>, rows: seq<JoinedRow>) {
    var dates := FirstAppearances(Dates(rows));
    && |groups| == |dates|
    && forall j :: 0 <= j < |groups| ==> groups[j] == DayGroup(dates[j], StopsOn(rows, dates[j]))
  }

  lemma StopsOnExtend(rows: seq<JoinedRow>, row: JoinedRow, d: int)
    ensures StopsOn(rows + [row], d)
         == StopsOn(rows, d) + (if row.tripDate == d then [Stop(row.name, row.city)] else [])
  {
    FilterConcat(rows, [row], OnDate(d));
    FilterSingle(row, OnDate(d));
    StopsConcat(Filter(rows, OnDate(d)), Filter([row], OnDate(d)));
  }

  lemma StopsConcat(a: seq<JoinedRow>, b: seq<JoinedRow>)
    ensures Stops(a + b) == Stops(a) + Stops(b)
  {
  }

  lemma DatesExtend(rows: seq<JoinedRow>, row: JoinedRow)
    ensures Dates(rows + [row]) == Dates(rows) + [row.tripDate]
  {
  }

  /** The state of the defaultdict after the rows `rows`: its keys in
      insertion order and the place list under each key. */
  ghost predicate Grouping(order: seq<int>, byDate: map<int, seq<Stop>>, rows: seq<JoinedRow>) {
    && order == FirstAppearances(Dates(rows))
    && (forall d :: d in byDate <==> d in order)
    && (forall d :: d in byDate ==> byDate[d] == StopsOn(rows, d))
  }

  lemma GroupStep(order: seq<int>, byDate: map<int, seq<Stop>>, rows: seq<JoinedRow>, row: JoinedRow,
                  rows': seq<JoinedRow>, order': seq<int>, byDate': map<int, seq<Stop>>)
    requires Grouping(order, byDate, rows)
    requires rows' == rows + [row]
    requires order' == if row.tripDate in byDate then order else order + [row.tripDate]
    requires byDate' == byDate[row.tripDate := (if row.tripDate in byDate then byDate[row.tripDate] else [])
                                               + [Stop(row.name, row.city)]]
    ensures Grouping(order', byDate', rows')
  {
    var d0 := row.tripDate;
    DatesExtend(rows, row);
    FirstAppearancesExtend(Dates(rows), d0);
    assert order' == FirstAppearances(Dates(rows'));
    forall d | d in byDate' ensures byDate'[d] == StopsOn(rows', d) {
      StopsOnExtend(rows, row, d);
      if d == d0 {
        if d0 !in byDate {
          assert d0 !in FirstAppearances(Dates(rows));
          DateAbsent(rows, d0);
        }
      } else {
        assert byDate'[d] == byDate[d];
      }
    }
    assert forall d :: d in byDate' <==> d in order';
    assert Grouping(order', byDate', rows');
  }

  lemma DateAbsent(rows: seq<JoinedRow>, d: int)
    requires d !in Dates(rows)
    ensures Filter(rows, OnDate(d)) == [] && StopsOn(rows, d) == []
  {
    forall r | r in rows ensures r.tripDate != d {
      var k :| 0 <= k < |rows| && rows[k] == r;
      assert Dates(rows)[k] == r.tripDate;
    }
    FilterNone(rows, OnDate(d));
  }

  /** The answer list built from the dictionary's items, in key order. */
  function Items(order: seq<int>, byDate: map<int, seq<Stop>>): seq<DayGroup>
    requires forall j :: 0 <= j < |order| ==> order[j] in byDate
  {
    seq(|order|, j requires 0 <= j < |order| => DayGroup(order[j], byDate[order[j]]))
  }

  lemma ItemsGroup(order: seq<int>, byDate: map<int, seq<Stop>>, rows: seq<JoinedRow>)
    requires Grouping(order, byDate, rows)
    requires forall j :: 0 <= j < |order| ==> order[j] in byDate
    ensures GroupsOf(Items(order, byDate), rows)
  {
  }

  /** The defaultdict loop of trip_days: the dictionary's keys in insertion
      order and the place list under each key. */
  method FillDays(rows: seq<JoinedRow>) returns (order: seq<int>, byDate: map<int, seq<Stop>>)
    ensures Grouping(order, byDate, rows)
  {
    order := [];
    byDate := map[];
    for i := 0 to |rows|
      invariant Grouping(order, byDate, rows[..i])
    {
      var row := rows[i];
      ghost var order0, byDate0 := order, byDate;
      var date := row.tripDate;
      // a defaultdict hands out a fresh empty list, and records the key, on first use
      var current := if date in byDate then byDate[date] else [];
      if date !in byDate {
        order := order + [date];
      }
      byDate := byDate[date := current + [Stop(row.name, row.city)]];
      assert rows[..i + 1] == rows[..i] + [row];
      GroupStep(order0, byDate0, rows[..i], row, rows[..i + 1], order, byDate);
    }
    assert rows[..|rows|] == rows;
  }

  /** The grouping of trip_days: the dictionary filled row by row, then its items as a list. */
  method GroupByDate(rows: seq<JoinedRow>) returns (groups: seq<DayGroup>)
    ensures GroupsOf(groups, rows)
  {
    var order, byDate := FillDays(rows);
    forall j | 0 <= j < |order| ensures order[j] in byDate {
      assert order[j] in order;
    }
    ItemsGroup(order, byDate, rows);
    groups := Items(order, byDate);
  }

  /** Each date has exactly one group. */
  lemma GroupDatesDistinct(groups: seq<DayGroup>, rows: seq<JoinedRow>)
    requires GroupsOf(groups, rows)
    ensures forall j, k :: 0 <= j < k < |groups| ==> groups[j].date != groups[k].date
  {
  }

  /** Groups are listed in the order in which their dates first appear among the rows. */
  lemma GroupsInFirstAppearanceOrder(groups: seq<DayGroup>, rows: seq<JoinedRow>, j: nat, k: nat)
    requires GroupsOf(groups, rows) && j < k < |groups|
    ensures groups[j].date in Dates(rows) && groups[k].date in Dates(rows)
    ensures FirstIndex(Dates(rows), groups[j].date) < FirstIndex(Dates(rows), groups[k].date)
  {
    var dates := FirstAppearances(Dates(rows));
    assert dates[j] in dates && dates[k] in dates;
    FirstAppearanceOrder(Dates(rows), j, k);
  }

  /** Every row lands in the group of its own date. */
  lemma RowInItsGroup(groups: seq<DayGroup>, rows: seq<JoinedRow>, k: nat)
    requires GroupsOf(groups, rows) && k < |rows|
    ensures exists j :: 0 <= j < |groups| && groups[j].date == rows[k].tripDate
                        && Stop(rows[k].name, rows[k].city) in groups[j].places
  {
    var dates := FirstAppearances(Dates(rows));
    var d := rows[k].tripDate;
    assert Dates(rows)[k] == d;
    assert d in Dates(rows);
    assert d in dates;
    var j :| 0 <= j < |dates| && dates[j] == d;
    var kept := Filter(rows, OnDate(d));
    assert rows[k] in kept;
    var i :| 0 <= i < |kept| && kept[i] == rows[k];
    assert Stops(kept)[i] == Stop(rows[k].name, rows[k].city);
    assert groups[j].places == Stops(kept);
  }

  /** The number of places in the answer. */
  function TotalStops(groups: seq<DayGroup>): nat {
    if groups == [] then 0 else TotalStops(groups[..|groups| - 1]) + |groups[|groups| - 1].places|
  }

  /** The number of rows dated by one of `dates`, counted date by date. */
  function SizeSum(rows: seq<JoinedRow>, dates: seq<int>): nat {
    if dates == [] then 0 else SizeSum(rows, dates[..|dates| - 1]) + |Filter(rows, OnDate(dates[|dates| - 1]))|
  }

  lemma {:induction false} TotalIsSizeSum(groups: seq<DayGroup>, rows: seq<JoinedRow>, dates: seq<int>)
    requires |groups| == |dates|
    requires forall j :: 0 <= j < |groups| ==> groups[j].places == StopsOn(rows, dates[j])
    ensures TotalStops(groups) == SizeSum(rows, dates)
  {
    if groups != [] {
      TotalIsSizeSum(groups[..|groups| - 1], rows, dates[..|dates| - 1]);
    }
  }

  lemma {:induction false} SizeSumExtend(rows: seq<JoinedRow>, x: JoinedRow, dates: seq<int>)
    requires AllDistinct(dates)
    ensures SizeSum(rows + [x], dates) == SizeSum(rows, dates) + (if x.tripDate in dates then 1 else 0)
  {
    if dates != [] {
      var init, e := dates[..|dates| - 1], dates[|dates| - 1];
      assert dates == init + [e];
      SizeSumExtend(rows, x, init);
      FilterConcat(rows, [x], OnDate(e));
      FilterSingle(x, OnDate(e));
      assert x.tripDate == e ==> x.tripDate !in init;
    }
  }

  lemma {:induction false} SizeSumAll(rows: seq<JoinedRow>)
    ensures SizeSum(rows, FirstAppearances(Dates(rows))) == |rows|
  {
    if rows != [] {
      var p, x := rows[..|rows| - 1], rows[|rows| - 1];
      assert rows == p + [x];
      SizeSumAll(p);
      DatesExtend(p, x);
      FirstAppearancesExtend(Dates(p), x.tripDate);
      var dates := FirstAppearances(Dates(p));
      SizeSumExtend(p, x, dates);
      if x.tripDate !in dates {
        assert (dates + [x.tripDate])[..|dates|] == dates;
        DateAbsent(p, x.tripDate);
        FilterConcat(p, [x], OnDate(x.tripDate));
        FilterSingle(x, OnDate(x.tripDate));
      }
    }
  }

  /** The answer holds as many places as the query returned rows: no row is lost or doubled. */
  lemma GroupTotal(groups: seq<DayGroup>, rows: seq<JoinedRow>)
    requires GroupsOf(groups, rows)
    ensures TotalStops(groups) == |rows|
  {
    TotalIsSizeSum(groups, rows, FirstAppearances(Dates(rows)));
    SizeSumAll(rows);
  }

  // ORDER BY td.trip_date

  predicate DatesAscending(rows: seq<JoinedRow>) {
    forall i, j :: 0 <= i < j < |rows| ==> rows[i].tripDate <= rows[j].tripDate
  }

  /** Places `row` before the first row of `sorted` dated no earlier: one step of an insertion sort. */
  function InsertByDate(row: JoinedRow, sorted: seq<JoinedRow>): seq<JoinedRow> {
    if sorted == [] || row.tripDate <= sorted[0].tripDate then [row] + sorted
    else [sorted[0]] + InsertByDate(row, sorted[1..])
  }

  lemma {:induction false} InsertByDatePermutes(row: JoinedRow, sorted: seq<JoinedRow>)
    ensures multiset(InsertByDate(row, sorted)) == multiset(sorted) + multiset{row}
  {
    if !(sorted == [] || row.tripDate <= sorted[0].tripDate) {
      InsertByDatePermutes(row, sorted[1..]);
      assert sorted == [sorted[0]] + sorted[1..];
    }
  }

  lemma {:induction false} InsertByDateSorted(row: JoinedRow, sorted: seq<JoinedRow>)
    requires DatesAscending(sorted)
    ensures DatesAscending(InsertByDate(row, sorted))
  {
    if sorted == [] || row.tripDate <= sorted[0].tripDate {
      assert forall j :: 0 < j < |sorted| ==> sorted[0].tripDate <= sorted[j].tripDate;
    } else {
      var tail := sorted[1..];
      var rest := InsertByDate(row, tail);
      InsertByDateSorted(row, tail);
      InsertByDatePermutes(row, tail);
      forall i | 0 <= i < |rest| ensures sorted[0].tripDate <= rest[i].tripDate {
        var x := rest[i];
        assert x in multiset(rest);
        if x != row {
          assert x in multiset(tail);
          var k :| 0 <= k < |tail| && tail[k] == x;
          assert sorted[k + 1] == x;
        }
      }
      assert InsertByDate(row, sorted) == [sorted[0]] + rest;
    }
  }

  /** The ordering the query asks of sqlite: the same rows, by ascending date. */
  function SortByDate(rows: seq<JoinedRow>): (r: seq<JoinedRow>)
    ensures DatesAscending(r)
    ensures multiset(r) == multiset(rows)
  {
    if rows == [] then []
    else
      var sorted := SortByDate(rows[1..]);
      assert rows == [rows[0]] + rows[1..];
      InsertByDateSorted(rows[0], sorted);
      InsertByDatePermutes(rows[0], sorted);
      InsertByDate(rows[0], sorted)
  }

  /** Rows sorted by date give groups in strictly ascending date order. */
  lemma {:induction false} AscendingGroups(rows: seq<JoinedRow>)
    requires DatesAscending(rows)
    ensures forall j, k :: 0 <= j < k < |FirstAppearances(Dates(rows))| ==>
              FirstAppearances(Dates(rows))[j] < FirstAppearances(Dates(rows))[k]
  {
    IncreasingFirstAppearances(Dates(rows));
  }

  /** The first appearances of a non-decreasing sequence strictly increase. */
  lemma {:induction false} IncreasingFirstAppearances(s: seq<int>)
    requires forall i, j :: 0 <= i < j < |s| ==> s[i] <= s[j]
    ensures forall j, k :: 0 <= j < k < |FirstAppearances(s)| ==>
              FirstAppearances(s)[j] < FirstAppearances(s)[k]
  {
    if s != [] {
      var p, x := s[..|s| - 1], s[|s| - 1];
      assert s == p + [x];
      IncreasingFirstAppearances(p);
      FirstAppearancesExtend(p, x);
      var fa := FirstAppearances(p);
      if x !in fa {
        var fa' := fa + [x];
        assert FirstAppearances(s) == fa';
        forall j, k | 0 <= j < k < |fa'| ensures fa'[j] < fa'[k] {
          if k == |fa| {
            var y := fa[j];
            assert y in fa;
            var i :| 0 <= i < |p| && p[i] == y;
            assert s[i] == y && s[|s| - 1] == x;
          } else {
            assert fa'[j] == fa[j] && fa'[k] == fa[k];
          }
        }
      }
    }
  }

  // the trip_days query

  /** The trip `tripId` exists and belongs to `username`. */
  predicate Owns(trips: seq<Trip>, username: string, tripId: int) {
    exists t :: t in trips && t.id == tripId && t.username == username
  }

  /** The place row the join matches a place id with. */
  function FindPlace(places: seq<Place>, id: string): (r: Option<Place>)
    ensures r.Some? ==> r.value in places && r.value.id == id
    ensures r.None? ==> forall p :: p in places ==> p.id != id
  {
    if places == [] then None
    else if places[0].id == id then Some(places[0])
    else FindPlace(places[1..], id)
  }

  function ForTrip(tripId: int): TripDay -> bool {
    (d: TripDay) => d.tripId == tripId
  }

  /** The trip day has a place row to join with. */
  predicate HasPlace(places: seq<Place>, d: TripDay) {
    exists p :: p in places && p.id == d.placeId
  }

  function WithPlace(places: seq<Place>): TripDay -> bool {
    (d: TripDay) => HasPlace(places, d)
  }

  /** `r` is trip day `d` joined with a place row of the same id. */
  ghost predicate JoinsTo(places: seq<Place>, d: TripDay, r: JoinedRow) {
    exists p :: p in places && p.id == d.placeId && r == JoinedRow(d.tripDate, p.name, p.city)
  }

  /** The joined row of one trip day: none when its place is missing. */
  function JoinOne(places: seq<Place>, d: TripDay): (row: seq<JoinedRow>)
    ensures |row| == if HasPlace(places, d) then 1 else 0
    ensures forall r :: r in row ==> JoinsTo(places, d, r)
  {
    match FindPlace(places, d.placeId)
    case Some(p) => [JoinedRow(d.tripDate, p.name, p.city)]
    case None => []
  }

  /** The inner join of trip_days rows with places: rows whose place is
      missing drop out, every other row gives one joined row. */
  function JoinPlaces(places: seq<Place>, days: seq<TripDay>): (rows: seq<JoinedRow>)
    ensures |rows| == |Filter(days, WithPlace(places))|
    ensures forall r :: r in rows ==> exists d :: d in days && JoinsTo(places, d, r)
    ensures forall d :: d in days && HasPlace(places, d) ==> exists r :: r in rows && JoinsTo(places, d, r)
  {
    if days == [] then []
    else
      var d := days[0];
      var row := JoinOne(places, d);
      var rest := JoinPlaces(places, days[1..]);
      assert days == [d] + days[1..];
      assert HasPlace(places, d) ==> row[0] in row && JoinsTo(places, d, row[0]);
      row + rest
  }

  /** With `id` the primary key of places, the join gives exactly the joined
      rows of the trip days. */
  lemma JoinPlacesRows(places: seq<Place>, days: seq<TripDay>, r: JoinedRow)
    requires UniqueIds(places)
    ensures r in JoinPlaces(places, days) <==> exists d :: d in days && JoinsTo(places, d, r)
  {
    var rows := JoinPlaces(places, days);
    if d :| d in days && JoinsTo(places, d, r) {
      var p :| p in places && p.id == d.placeId && r == JoinedRow(d.tripDate, p.name, p.city);
      assert HasPlace(places, d);
      var r' :| r' in rows && JoinsTo(places, d, r');
      var p' :| p' in places && p'.id == d.placeId && r' == JoinedRow(d.tripDate, p'.name, p'.city);
      var i :| 0 <= i < |places| && places[i] == p;
      var j :| 0 <= j < |places| && places[j] == p';
      assert IdAt(places, i) == IdAt(places, j);
    }
  }

  /** The rows the trip_days query returns for `tripId` and the session user. */
  function TripDayQuery(places: seq<Place>, trips: seq<Trip>, tripDays: seq<TripDay>,
                        tripId: int, username: string): (rows: seq<JoinedRow>)
    ensures DatesAscending(rows)
    ensures !Owns(trips, username, tripId) ==> rows == []
    ensures Owns(trips, username, tripId) ==>
              multiset(rows) == multiset(JoinPlaces(places, Filter(tripDays, ForTrip(tripId))))
    ensures |rows| <= |Filter(tripDays, ForTrip(tripId))|
  {
    if Owns(trips, username, tripId) then
      var joined := JoinPlaces(places, Filter(tripDays, ForTrip(tripId)));
      var sorted := SortByDate(joined);
      assert |sorted| == |multiset(sorted)| == |multiset(joined)| == |joined|;
      assert |Filter(Filter(tripDays, ForTrip(tripId)), WithPlace(places))| <= |Filter(tripDays, ForTrip(tripId))|;
      sorted
    else
      []
  }

  /** For the owner, the query returns the trip's day rows joined with their
      places, one row per day row whose place exists. */
  lemma TripDayQueryRows(places: seq<Place>, trips: seq<Trip>, tripDays: seq<TripDay>,
                         tripId: int, username: string, r: JoinedRow)
    requires UniqueIds(places)
    ensures r in TripDayQuery(places, trips, tripDays, tripId, username) <==>
              && Owns(trips, username, tripId)
              && exists d :: d in tripDays && d.tripId == tripId && JoinsTo(places, d, r)
  {
    var days := Filter(tripDays, ForTrip(tripId));
    var rows := TripDayQuery(places, trips, tripDays, tripId, username);
    if Owns(trips, username, tripId) {
      JoinPlacesRows(places, days, r);
      assert r in rows <==> r in multiset(rows);
    }
  }

  /** GET /api/trip_days/<trip_id>. */
  method TripDaysRoute(db: Database, user: Option<string>, tripId: int) returns (reply: Reply)
    ensures user.None? ==> reply == Unauthorized
    ensures user.Some? ==>
              && reply.DayGroups?
              && GroupsOf(reply.groups, TripDayQuery(db.places, db.trips, db.tripDays, tripId, user.value))
  {
    if user.None? {
      return Unauthorized;
    }
    var rows := TripDayQuery(db.places, db.trips, db.tripDays, tripId, user.value);
    var groups := GroupByDate(rows);
    reply := DayGroups(groups);
  }

  /** The trip_days answer lists its dates in strictly ascending order. */
  lemma TripDaysAscending(groups: seq<DayGroup>, places: seq<Place>, trips: seq<Trip>,
                          tripDays: seq<TripDay>, tripId: int, username: string)
    requires GroupsOf(groups, TripDayQuery(places, trips, tripDays, tripId, username))
    ensures forall j, k :: 0 <= j < k < |groups| ==> groups[j].date < groups[k].date
  {
    GroupsAscending(groups, TripDayQuery(places, trips, tripDays, tripId, username));
  }

  /** Grouping rows sorted by date yields groups in strictly ascending date order. */
  lemma GroupsAscending(groups: seq<DayGroup>, rows: seq<JoinedRow>)
    requires DatesAscending(rows)
    requires GroupsOf(groups, rows)
    ensures forall j, k :: 0 <= j < k < |groups| ==> groups[j].date < groups[k].date
  {
    AscendingGroups(rows);
    var dates := FirstAppearances(Dates(rows));
    forall j, k | 0 <= j < k < |groups| ensures groups[j].date < groups[k].date {
      assert groups[j].date == dates[j] && groups[k].date == dates[k];
      assert k < |dates|;
      assert dates[j] < dates[k];
    }
  }

  // ------------------------------------------------ /api/delete_trip/<trip_id>

  function OtherTrip(tripId: int): Trip -> bool {
    (t: Trip) => t.id != tripId
  }

  function OtherTripDay(tripId: int): TripDay -> bool {
    (d: TripDay) => d.tripId != tripId
  }

  /** DELETE /api/delete_trip/<trip_id>: an ownership check, then the day
      rows and the trip row go. */
  method DeleteTrip(db: Database, user: Option<string>, tripId: int) returns (reply: Reply)
    modifies db`trips, db`tripDays
    ensures user.None? ==> reply == Unauthorized
    ensures user.Some? && !Owns(old(db.trips), user.value, tripId) ==> reply == NotFoundOrUnauthorized
    ensures user.None? || !Owns(old(db.trips), user.value, tripId) ==>
              db.trips == old(db.trips) && db.tripDays == old(db.tripDays)
    ensures user.Some? && Owns(old(db.trips), user.value, tripId) ==>
              && reply == TripDeleted
              && db.tripDays == Filter(old(db.tripDays), OtherTripDay(tripId))
              && db.trips == Filter(old(db.trips), OtherTrip(tripId))
  {
    if user.None? {
      return Unauthorized;
    }
    var owned := Owns(db.trips, user.value, tripId);
    if !owned {
      return NotFoundOrUnauthorized;
    }
    db.tripDays := Filter(db.tripDays, OtherTripDay(tripId));
    db.trips := Filter(db.trips, OtherTrip(tripId));
    reply := TripDeleted;
  }

  /** The referential shape of the two trip tables: trip ids are unique and
      every day row points at an existing trip. */
  ghost predicate Consistent(trips: seq<Trip>, tripDays: seq<TripDay>) {
    && (forall i, j :: 0 <= i < j < |trips| ==> trips[i].id != trips[j].id)
    && (forall d :: d in tripDays ==> exists t :: t in trips && t.id == d.tripId)
  }

  /** The delete cascade leaves no trace of the trip and keeps every other row. */
  lemma DeleteCascade(trips: seq<Trip>, tripDays: seq<TripDay>, tripId: int)
    requires Consistent(trips, tripDays)
    ensures var trips', days' := Filter(trips, OtherTrip(tripId)), Filter(tripDays, OtherTripDay(tripId));
            && (forall t :: t in trips' ==> t.id != tripId)
            && (forall d :: d in days' ==> d.tripId != tripId)
            && (forall t :: t in trips && t.id != tripId ==> t in trips')
            && (forall d :: d in tripDays && d.tripId != tripId ==> d in days')
            && Consistent(trips', days')
  {
    var trips', days' := Filter(trips, OtherTrip(tripId)), Filter(tripDays, OtherTripDay(tripId));
    FilterKeepsDistinct(trips, OtherTrip(tripId));
    forall d | d in days' ensures exists t :: t in trips' && t.id == d.tripId {
      var t :| t in trips && t.id == d.tripId;
      assert t in trips';
    }
  }

  lemma {:induction false} FilterKeepsDistinct(trips: seq<Trip>, keep: Trip -> bool)
    requires forall i, j :: 0 <= i < j < |trips| ==> trips[i].id != trips[j].id
    ensures forall i, j :: 0 <= i < j < |Filter(trips, keep)| ==>
              Filter(trips, keep)[i].id != Filter(trips, keep)[j].id
  {
    if trips != [] {
      FilterKeepsDistinct(trips[1..], keep);
      var rest := Filter(trips[1..], keep);
      var r := Filter(trips, keep);
      assert r == (if keep(trips[0]) then [trips[0]] else []) + rest;
      forall t | t in rest ensures t.id != trips[0].id {
        var i :| 0 <= i < |trips[1..]| && trips[1..][i] == t;
        assert trips[i + 1] == t;
      }
      if keep(trips[0]) {
        assert r == [trips[0]] + rest;
        forall i, j | 0 <= i < j < |r| ensures r[i].id != r[j].id {
          assert r[j] == rest[j - 1] && r[j] in rest;
          if i == 0 {
            assert r[i] == trips[0];
            assert r[j].id != trips[0].id;
          } else {
            assert r[i] == rest[i - 1];
            assert 0 <= i - 1 < j - 1 < |rest|;
            assert rest[i - 1].id != rest[j - 1].id;
          }
        }
      } else {
        assert r == rest;
      }
    }
  }

  // ------------------------------------------------------------ /api/save_trip

  /** A JSON field that is present and not the empty string. */
  predicate Present(field: Option<string>) {
    field.Some? && field.value != []
  }

  /** The validation of save_trip: a title that is not blank after strip, a start and an end. */
  predicate TripInfoComplete(title: string, start: Option<string>, end: Option<string>) {
    Strip(title) != [] && Present(start) && Present(end)
  }

  lemma TripInfoCompleteIff(title: string, start: Option<string>, end: Option<string>)
    ensures TripInfoComplete(title, start, end) <==> !AllSpace(title) && Present(start) && Present(end)
  {
    StripBlank(title);
  }

  /** The rowid sqlite gives the next trips row: one past the largest id in use. */
  function NextTripId(trips: seq<Trip>): (id: int)
    ensures id >= 1
    ensures forall t :: t in trips ==> t.id < id
  {
    if trips == [] then 1
    else
      var m := NextTripId(trips[..|trips| - 1]);
      var last := trips[|trips| - 1].id;
      assert trips == trips[..|trips| - 1] + [trips[|trips| - 1]];
      if last + 1 > m then last + 1 else m
  }

  /** The trip_days rows of one day: one per place id, in order. */
  function PlaceRows(tripId: int, date: int, placeIds: seq<string>): (r: seq<TripDay>)
    ensures |r| == |placeIds|
    ensures forall k :: 0 <= k < |placeIds| ==> r[k] == TripDay(tripId, date, placeIds[k])
  {
    if placeIds == [] then []
    else PlaceRows(tripId, date, placeIds[..|placeIds| - 1]) + [TripDay(tripId, date, placeIds[|placeIds| - 1])]
  }

  /** The trip_days rows save_trip inserts for `days`, in input order. */
  function DayRows(tripId: int, days: seq<DayPlan>): seq<TripDay> {
    if days == [] then []
    else DayRows(tripId, days[..|days| - 1]) + PlaceRows(tripId, days[|days| - 1].date, days[|days| - 1].places)
  }

  function PlaceCount(days: seq<DayPlan>): nat {
    if days == [] then 0 else PlaceCount(days[..|days| - 1]) + |days[|days| - 1].places|
  }

  /** One row per (day, place id) pair, each carrying the trip id. */
  lemma {:induction false} DayRowsShape(tripId: int, days: seq<DayPlan>)
    ensures |DayRows(tripId, days)| == PlaceCount(days)
    ensures forall d :: d in DayRows(tripId, days) ==> d.tripId == tripId
  {
    if days != [] {
      DayRowsShape(tripId, days[..|days| - 1]);
    }
  }

  /** The rows of consecutive runs of days follow each other: input order is kept. */
  lemma {:induction false} DayRowsConcat(tripId: int, a: seq<DayPlan>, b: seq<DayPlan>)
    ensures DayRows(tripId, a + b) == DayRows(tripId, a) + DayRows(tripId, b)
  {
    if b != [] {
      var init := b[..|b| - 1];
      assert (a + b)[..|a + b| - 1] == a + init;
      DayRowsConcat(tripId, a, init);
    } else {
      assert a + b == a;
    }
  }

  /** POST /api/save_trip; a missing title is the empty string. */
  method SaveTrip(db: Database, user: Option<string>, title: string, start: Option<string>,
                  end: Option<string>, days: seq<DayPlan>) returns (reply: Reply)
    modifies db`trips, db`tripDays
    ensures user.None? ==> reply == Unauthorized
    ensures user.Some? && !TripInfoComplete(title, start, end) ==> reply == MissingTripInfo
    ensures user.None? || !TripInfoComplete(title, start, end) ==>
              db.trips == old(db.trips) && db.tripDays == old(db.tripDays)
    ensures user.Some? && TripInfoComplete(title, start, end) ==>
              var id := NextTripId(old(db.trips));
              && reply == TripSaved(id)
              && db.trips == old(db.trips) + [Trip(id, user.value, Strip(title), start.value, end.value)]
              && db.tripDays == old(db.tripDays) + DayRows(id, days)
  {
    if user.None? {
      return Unauthorized;
    }
    var stripped := Strip(title);
    if stripped == [] || !Present(start) || !Present(end) {
      return MissingTripInfo;
    }
    var id := NextTripId(db.trips);
    db.trips := db.trips + [Trip(id, user.value, stripped, start.value, end.value)];
    InsertDayRows(db, id, days);
    reply := TripSaved(id);
  }

  /** The outer loop of save_trip: the rows of every day, in input order. */
  method InsertDayRows(db: Database, tripId: int, days: seq<DayPlan>)
    modifies db`tripDays
    ensures db.tripDays == old(db.tripDays) + DayRows(tripId, days)
  {
    for i := 0 to |days|
      invariant db.tripDays == old(db.tripDays) + DayRows(tripId, days[..i])
    {
      InsertPlaceRows(db, tripId, days[i].date, days[i].places);
      DayRowsStep(tripId, days, i);
    }
    assert days[..|days|] == days;
  }

  /** The inner loop of save_trip: one trip_days row per place id of one day. */
  method InsertPlaceRows(db: Database, tripId: int, date: int, placeIds: seq<string>)
    modifies db`tripDays
    ensures db.tripDays == old(db.tripDays) + PlaceRows(tripId, date, placeIds)
  {
    for j := 0 to |placeIds|
      invariant db.tripDays == old(db.tripDays) + PlaceRows(tripId, date, placeIds[..j])
    {
      db.tripDays := db.tripDays + [TripDay(tripId, date, placeIds[j])];
      assert placeIds[..j + 1][..j] == placeIds[..j];
    }
    assert placeIds[..|placeIds|] == placeIds;
  }

  lemma DayRowsStep(tripId: int, days: seq<DayPlan>, i: int)
    requires 0 <= i < |days|
    ensures DayRows(tripId, days[..i + 1]) == DayRows(tripId, days[..i]) + PlaceRows(tripId, days[i].date, days[i].places)
  {
    assert days[..i + 1][..i] == days[..i];
  }

  /** Saving a trip keeps the tables consistent, and the day rows carrying
      the new id are exactly the expanded input days. */
  lemma SaveKeepsConsistent(trips: seq<Trip>, tripDays: seq<TripDay>, trip: Trip, days: seq<DayPlan>)
    requires Consistent(trips, tripDays)
    requires trip.id == NextTripId(trips)
    ensures Consistent(trips + [trip], tripDays + DayRows(trip.id, days))
  {
    var rows := DayRows(trip.id, days);
    DayRowsShape(trip.id, days);
    var trips' := trips + [trip];
    assert trip in trips';
    forall i, j | 0 <= i < j < |trips'| ensures trips'[i].id != trips'[j].id {
      if j == |trips| {
        assert trips'[i] in trips;
      } else {
        assert trips'[i] == trips[i] && trips'[j] == trips[j];
      }
    }
    forall d | d in tripDays + rows ensures exists t :: t in trips' && t.id == d.tripId {
      if d in tripDays {
        var t :| t in trips && t.id == d.tripId;
        assert t in trips';
      }
    }
  }

  /** After a save, the day rows carrying the new id are exactly the expanded days. */
  lemma SavedRowsOfNewTrip(trips: seq<Trip>, tripDays: seq<TripDay>, trip: Trip, days: seq<DayPlan>)
    requires Consistent(trips, tripDays)
    requires trip.id == NextTripId(trips)
    ensures Filter(tripDays + DayRows(trip.id, days), ForTrip(trip.id)) == DayRows(trip.id, days)
  {
    forall d | d in tripDays ensures d.tripId != trip.id {
      var t :| t in trips && t.id == d.tripId;
      assert t.id < trip.id;
    }
    FilterNewTrip(tripDays, trip.id, days);
  }

  lemma FilterNewTrip(tripDays: seq<TripDay>, id: int, days: seq<DayPlan>)
    requires forall d :: d in tripDays ==> d.tripId != id
    ensures Filter(tripDays + DayRows(id, days), ForTrip(id)) == DayRows(id, days)
  {
    var rows := DayRows(id, days);
    var keep := ForTrip(id);
    DayRowsShape(id, days);
    FilterConcat(tripDays, rows, keep);
    FilterNone(tripDays, keep);
    FilterAll(rows, keep);
  }
}
