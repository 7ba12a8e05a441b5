# Travel planner tables and OSM seeding, in Dafny

This project models two parts of a Flask travel-planning site that keeps
its data in sqlite.

**Request handlers (app.py).** These are `search`, `toggle_favorite`, `tripplan`, `trip_days`,
`delete_trip` and `save_trip`.
- The four tables `places`, `favorites`, `trips` and `trip_days` are held in memory by one
  `Tables.Database` object.
- `App.Search` needs no login. It is a function of the places table, the `q` parameter and
  the `category` parameter, and it returns the matching places.
- `App.TripPlan` takes the optional session user and the form fields. It answers with an
  `App.PlanPage`: a redirect to the login page, or the page's list of days and its flash message.
- `App.ToggleFavorite`, `App.TripDaysRoute`, `App.DeleteTrip` and `App.SaveTrip` are methods.
  Each takes the optional session user and the request fields, and answers with an `App.Reply`.
  The comment on each `Reply` case gives its HTTP status when it is not 200.
- Each handler changes only the tables it writes.

**Seeding script (scripts/ingest.py).** `seed_osm` walks twelve cities and their
OpenStreetMap tourist nodes. It keeps nodes that have:
- an English name;
- an `addr:*` tag;
- a (name, city) pair not already stored.

It classifies each node by its `tourism` tag and derives a Wikipedia title from its
`wikipedia` tag. It inserts rows until it has made one hundred insert attempts.

**Layout.**
- `optional.dfy`: the `Option` type.
- `text.dfy`: lowering, substring search, `str.strip` and `split(":", 1)`.
- `seqs.dfy`: an order-keeping filter and first appearances.
- `tables.dfy`: the row types and the database.
- `app.dfy`: the handlers.
- `ingest.dfy`: the seeding script.

**How the loops are proved.** Each loop of the source is a method with loop invariants. Its
`ensures` ties the new state to a specification function: `SelectNodes` for the node loop
and `OsmRun` for the area loop. The properties are proved as lemmas about those functions.
The trip_days grouping is a `defaultdict` loop. Its method is proved against `GroupsOf`,
which states the grouping outright.

**Modelling choices.**
- Dates are integer day ordinals.
- Strings are `seq<char>`.
- Node ids are the decimal text the script stores.

## Model

| member | source | states |
|---|---|---|
| App.Search | app.py:77-117 | an empty term gives no results; a place is returned iff its city or name, lowered by SQLite, contains the term lowered by Python and, when a category is given, its SQLite-lowered category equals the Python-lowered category; each matching row appears as often as in the table |
| App.SearchMissesNonAsciiCapital | app.py:79-95 | searching for the very name "É" of a place does not find it: Python lowers the term to "é", SQLite keeps the column's "É" |
| App.SearchConcat | app.py:105-117 | results come in row order: the answer for two runs of rows is the two answers one after the other |
| App.Toggled | app.py:256-267 | toggling flips the (user, place) pair and leaves every other pair, other users' included, as it was |
| App.ToggleTwice | app.py:256-267 | toggling the same pair twice restores the original favourites |
| App.ToggleFavorite | app.py:246-277 | no session user gives 401 and no change; otherwise the pair is removed with "removed" if present, else added with "added" |
| App.DateRange | app.py:322-328 | the day list from start to end has end-start+1 entries, entry i is start+i, it begins at start, ends at end and strictly increases |
| App.TripPlan | app.py:308-338 | no session user redirects to login; a GET gives no days; a missing, unparseable or reversed range gives no days and flashes the error; otherwise the full inclusive day list |
| App.FillDays | app.py:356-362 | the defaultdict loop leaves the dates in first-appearance order, each mapped to the places of its rows in row order |
| App.GroupByDate | app.py:356-367 | the answer has one group per distinct date in first-appearance order, holding that date's places in row order |
| App.GroupDatesDistinct | app.py:364-367 | no date appears in two groups |
| App.GroupsInFirstAppearanceOrder | app.py:356-367 | a group listed before another has its date first appear earlier in the rows |
| App.RowInItsGroup | app.py:358-362 | every row's place lies in the group of the row's date |
| App.GroupTotal | app.py:356-367 | the groups hold as many places in total as there are rows |
| App.SortByDate | app.py:352 | ORDER BY trip_date yields the same rows with dates ascending |
| App.FindPlace | app.py:349 | the place the join pairs an id with has that id and is in the table; none exists when no row has the id |
| App.JoinOne | app.py:349 | a trip day yields one joined row when a place has its id and none otherwise, made of its date and such a place's name and city |
| App.JoinPlaces | app.py:346-349 | the join has one row per trip day whose place exists; each row is some trip day joined with a place of its id, and each trip day with a place gives such a row |
| App.JoinPlacesRows | app.py:346-349 | with place ids unique, a row is in the join iff it is a trip day joined with the place of its id |
| App.TripDayQuery | app.py:345-353 | the joined rows are sorted by date, empty unless the user owns the trip, and otherwise a permutation of the join of the trip's trip_days rows with places |
| App.TripDayQueryRows | app.py:345-353 | with place ids unique, a row is returned iff the user owns the trip and the row is one of the trip's day rows joined with its place |
| App.TripDaysRoute | app.py:340-367 | no session user gives 401; otherwise the answer is the grouping of the query rows |
| App.TripDaysAscending | app.py:345-367 | the dates of the trip_days answer strictly ascend |
| App.GroupsAscending | app.py:352-367 | grouping rows ordered by date gives groups whose dates strictly ascend |
| App.DeleteTrip | app.py:384-405 | no session user gives 401 and a trip the user does not own gives 403, both with no change; otherwise the trip's day rows and the trip row go and every other row stays in order |
| App.DeleteCascade | app.py:397-400 | after the delete no row carries the trip id, every other row is kept, and trip ids stay unique with every day row pointing at a trip |
| App.TripInfoCompleteIff | app.py:414-420 | the trip is saved only with a title that is not all whitespace and a non-empty start and end |
| App.NextTripId | app.py:426-432 | the new trip id is positive and larger than every id in use |
| App.PlaceRows | app.py:436-440 | one trip_days row per place id of the day, in order, each with the trip id and the day's date |
| App.DayRowsShape | app.py:434-440 | save_trip adds one row per (day, place id) pair, each carrying the new trip id |
| App.DayRowsConcat | app.py:434-440 | the rows of consecutive days follow each other: input order is kept |
| App.InsertPlaceRows | app.py:436-440 | the inner loop appends exactly the day's rows |
| App.InsertDayRows | app.py:434-440 | the outer loop appends the rows of every day, in input order |
| App.SaveTrip | app.py:408-446 | no session user gives 401 and a blank title or a missing start or end gives 400, both with no change; otherwise exactly one trips row and the expanded day rows are appended and the new id is returned |
| App.SaveKeepsConsistent | app.py:426-443 | saving keeps trip ids unique and every day row pointing at an existing trip |
| App.SavedRowsOfNewTrip | app.py:426-443 | after a save the day rows carrying the new id are exactly the expanded days, in input order |
| Text.Lower | app.py:94-101 | SQLite's LOWER keeps the length, maps each of A-Z to the letter 32 code points up and keeps every other character |
| Text.PyLower | app.py:79-80 | Python's `lower()` keeps the length, changes every capital of the covered blocks (Basic Latin, Latin-1, Latin Extended-A, Greek and Coptic, Cyrillic) to a character that is no capital, and keeps every other character |
| Text.PyLowerChar | app.py:79-80 | a covered capital becomes a different, non-capital character; A-Z lower as SQLite lowers them; every other character is kept |
| Text.PyLowerAscii | app.py:79-95 | on ASCII text Python's `lower()` and SQLite's LOWER agree |
| Text.LowerKeepsNonAsciiCapital | app.py:79-95 | beyond ASCII they differ: SQLite's LOWER keeps "É", "Ά" and "Ґ", Python's `lower()` gives "é", "ά" and "ґ" |
| Text.PyLowerIdempotent | app.py:79-80 | lowering a lowered term changes nothing |
| Text.Contains | app.py:94 | the substring test holds iff the term occurs at some position |
| Text.Strip | app.py:413 | strip drops exactly the leading and trailing whitespace and leaves a result that is empty or begins and ends with a non-space |
| Text.StripBlank | app.py:413-419 | the stripped title is empty iff the title is all whitespace |
| Text.AfterFirst | scripts/ingest.py:102-103 | the split at ':' exists iff the text contains ':' and is what follows the first ':' |
| Tables.Database.constructor | scripts/ingest.py:26-38 | a fresh database has all four tables empty |
| Ingest.NameEn | scripts/ingest.py:71-74 | a node has a name iff its `name:en` tag is present and non-empty, and the name is that tag |
| Ingest.FromNode | scripts/ingest.py:85-119 | the row built for a node has the node's id, English name and coordinates, the area's city, the node's category, the lookup's image and description, and the given rating |
| Ingest.Category | scripts/ingest.py:94-98 | "Attraction" iff tourism=attraction, "Viewpoint" iff tourism=viewpoint, "Other" otherwise |
| Ingest.WikiTag | scripts/ingest.py:101 | the `wikipedia:en` tag when present and non-empty, else the `wikipedia` tag if any |
| Ingest.WikiTitle | scripts/ingest.py:101-103 | a title exists iff the chosen tag contains ':', and the tag is a ':'-free prefix, ':' and the title |
| Ingest.Enrichment | scripts/ingest.py:92-104 | without a title the row keeps "No Image available" and "No Description available"; with one it takes the lookup's answer |
| Ingest.InsertOrIgnore | scripts/ingest.py:106-119 | INSERT OR IGNORE keeps every row, adds the row at the end if its id is new and nothing otherwise |
| Ingest.InsertKeepsIdsUnique | scripts/ingest.py:28 | the primary key stays unique through an insert |
| Ingest.SelectNodes | scripts/ingest.py:66-122 | the node loop never pushes the attempt count past 100, changes nothing once 100 is reached, keeps every stored row, and adds at most one row per attempt; what it inserts is stated by `Ingest.SelectCounts` and `Ingest.SelectStoresAttempts` |
| Ingest.SelectConcat | scripts/ingest.py:66-122 | the node loop over two runs of nodes is the loop over the first, then over the second from the table and counter it left |
| Ingest.BeforeNext | scripts/ingest.py:66-122 | at each node the loop either inserts the node's row with the rating of that attempt and counts one, when the cap is not reached and the filters pass, or changes nothing |
| Ingest.SelectCounts | scripts/ingest.py:66-122 | the counter grows by exactly the number of nodes admitted at their turn before the cap, and the table by exactly those of them whose id was new |
| Ingest.SelectStoresAttempts | scripts/ingest.py:66-122 | a node admitted at its turn before the cap has its id in the final table, and when its id was new the final table holds the row built from it |
| Ingest.SelectedRowsDrawn | scripts/ingest.py:70-119 | every added row comes from one of the area's nodes with a non-empty `name:en` equal to its name, an `addr:` tag, the area's city, the node's category and the lookup's image and description |
| Ingest.SelectNoNewPair | scripts/ingest.py:81-83 | no added row repeats the (name, city) pair of a row stored before it, earlier rows of the same run included |
| Ingest.SelectKeepsIdsUnique | scripts/ingest.py:106-107 | the node loop keeps ids unique |
| Ingest.SeedArea | scripts/ingest.py:58-124 | one area's loop, with its break and continues, leaves the table and counter that the node-loop function gives, and nothing changes when the fetch fails |
| Ingest.OsmRun | scripts/ingest.py:55-124 | the area loop keeps the count within 100 from any count within 100, changes nothing once 100 is reached, and adds at most one row per attempt; what it inserts is stated by `Ingest.OsmCounts` and `Ingest.OsmStoresAttempts` |
| Ingest.OsmConcat | scripts/ingest.py:58-124 | the area loop over two runs of areas is the loop over the first, then over the second from the table and counter it left |
| Ingest.BeforeAreaNext | scripts/ingest.py:58-124 | each area is one area step from the table and counter the earlier areas left |
| Ingest.OsmCounts | scripts/ingest.py:55-124 | over the whole run the counter grows by exactly the nodes admitted at their turn before the cap, and the table by exactly those whose id was new |
| Ingest.OsmStoresAttempts | scripts/ingest.py:58-124 | a node of any area admitted at its turn before the cap has its id in the table at the end of the run, and when its id was new that table holds the row built from it with the area's city |
| Ingest.SeedCapped | scripts/ingest.py:55-68 | a whole run makes at most 100 insert attempts and adds at most 100 rows |
| Ingest.OsmRowsDrawn | scripts/ingest.py:58-119 | every added row comes from a node that the fetch of one of the areas returned, through the filters, with that area's city |
| Ingest.OsmNoNewPair | scripts/ingest.py:81-83 | across the whole run no added (name, city) pair repeats an earlier row |
| Ingest.OsmKeepsIdsUnique | scripts/ingest.py:106-107 | the whole run keeps ids unique |
| Ingest.FailedFetchSkipped | scripts/ingest.py:60-64 | an area whose fetch raised is skipped with table and counter unchanged |
| Ingest.SeedAreas | scripts/ingest.py:58-124 | the `for city_name, lat, lon in areas` loop leaves the table and counter that the area-loop function gives |
| Ingest.SeedOsm | scripts/ingest.py:22-127 | the run over the twelve areas leaves the table and counter that the area-loop function gives |
| Ingest.InsertAsWrittenFails | scripts/ingest.py:106-108 | the statement as written is rejected for every place: a syntax error, and ten columns for nine values without it |
| Ingest.InsertRoundTrip | scripts/ingest.py:106-119 | the nine-column statement stores exactly the place whose values it binds |

## Left out

- server.py, the websocket weather stream, and ai_routes.py, the Gemini and Nominatim wrapper, are not part of this model. They are network I/O and concurrency.
- Flask plumbing is not modelled: routing, templates, `flash` text, redirects, the session store, and connection caching in `get_db`/`close_db`. Only outcomes and table effects are modelled.
- The signup, login and profile handlers are not modelled. They depend on a `users` schema that is not part of this model.
- The sqlite error paths are not modelled: the 500 answers, rollback, and the `timeout=5` connect option. Table operations are taken to succeed.
- Per-area `commit` and connection close in the seeding script are not modelled. They are durability, not table contents.
- Network fetches are parameters. The Overpass answer is `fetch`, None when the fetch raised. The Wikipedia lookup is the uninterpreted `wiki`.
- The random rating is the parameter `rate`, indexed by attempt number. `round(uniform(3, 5), 1)` is not modelled.
- The Decimal-to-float coordinate conversion is not modelled. Coordinates are reals.
- The progress `print`s are left out.
- App.Search: LIKE is modelled as a plain substring test. A term containing `%` or `_` is not treated as a pattern.
- App.Search: SQLite's LOWER on the columns lowers ASCII letters only, as SQLite's built-in LOWER does.
- App.Search: Python's `str.lower()` on `q` and `category` is `Text.PyLower`. It covers the capitals of the Basic Latin, Latin-1 Supplement, Latin Extended-A, Greek and Coptic (U+0370-U+03FF) and Cyrillic (U+0400-U+04FF) blocks. Capitals of every other block, Latin Extended-B and Armenian among them, are kept unchanged. U+0130, which Python lowers to two characters, is kept. Capital sigma always lowers to σ: the final-sigma rule is not modelled.
- App.Search: the answer's dictionaries are modelled as whole place rows. Only the field selection is omitted.
- App.TripPlan: dates are day ordinals. `fromisoformat` parse failures are the `None` inputs, and `strftime` labels and time-of-day components are not modelled.
- App.SortByDate: ORDER BY is modelled as a stable sort. sqlite does not promise any order among rows with the same date.
- App.TripDayQuery: trip_date is an integer day ordinal, not the stored text.
- App.TripDayQuery: the join with `trips` is the ownership test, which assumes trip ids are unique, as their primary key makes them.
- App.NextTripId: `lastrowid` is modelled as one past the largest id in use. This is sqlite's rowid choice for a table without AUTOINCREMENT whose largest rowid is non-negative and below the maximum. When every id in use is negative, sqlite gives the largest plus one and the model gives 1; the handlers never store a negative id.
- App.ToggleFavorite: favorites are a set of (username, place_id) pairs. The table has no duplicate pairs to lose, because the handler inserts only absent pairs.
- App.SaveTrip: the JSON body is taken as already decoded into an object. The failure paths of the body are not modelled:
  - A body that is not valid JSON, or that is sent without a JSON content type, is answered by Flask's `get_json` with 400 or 415 before the handler's checks (app.py:413).
  - A JSON body that is not an object, such as `null` or a list, fails at `data.get` outside the `try` and becomes Flask's 500.
  - A non-list `days` and missing `date`/`places` keys raise inside the `try` and give the handler's own 500 after a rollback (app.py:422-446).

## Findings

| source | as written | input that shows it | evidently intended | confidence | as-written member | corrected member |
|---|---|---|---|---|---|---|
| scripts/ingest.py:106-108 | the INSERT lists ten columns, ending in `cesium_asset_id` and a dangling comma, for nine bound values; `places` has no `cesium_asset_id` column | the first node that passes the filters, e.g. any named, addressed attraction near Paris; sqlite rejects the statement and the uncaught error ends the run before any row is stored | insert the nine values into the nine columns of `places` | high; not executed | Ingest.InsertAsWrittenFails | Ingest.InsertRoundTrip |

The seeding model (`Ingest.SelectNodes` and everything built on it) uses the
corrected insert: it stores exactly the row built from the node.
