/** The seeding script (scripts/ingest.py): for each of twelve cities it
    takes the OpenStreetMap tourist nodes found around it, keeps those with
    an English name and an address that are not yet stored for that city,
    classifies them, looks up a Wikipedia summary, and inserts them into
    `places`, stopping after one hundred insert attempts. The Overpass
    answer, the Wikipedia lookup and the random rating are parameters. */
module Ingest {
  import opened Optional
  import opened Text
  import opened Tables

  /** The cap on insert attempts in one run. */
  const MaxPlaces: nat := 100

  /** A city the script searches around, with the centre of the search. */
  datatype Area = Area(city: string, lat: real, lon: real)

  const Areas: seq<Area> := [
    Area("Paris, France", 48.8566, 2.3522),
    Area("Rome, Italy", 41.9028, 12.4964),
    Area("New York, USA", 40.7128, -74.0060),
    Area("San Francisco, USA", 37.7749, -122.4194),
    Area("London, UK", 51.5074, -0.1278),
    Area("Barcelona, Spain", 41.3851, 2.1734),
    Area("Sydney, Australia", -33.8688, 151.2093),
    Area("Toronto, Canada", 43.651070, -79.347015),
    Area("Cape Town, South Africa", -33.9249, 18.4241),
    Area("Bangkok, Thailand", 13.7563, 100.5018),
    Area("Dubai, UAE", 25.276987, 55.296249),
    Area("Berlin, Germany", 52.5200, 13.4050)
  ]

  /** An OSM node of the Overpass answer: its id (as the decimal text the
      script stores), its coordinates and its tags. */
  datatype Node = Node(id: string, lat: real, lon: real, tags: map<string, string>)

  /** The state the loop carries: the places table and the attempt counter. */
  datatype Progress = Progress(places: seq<Place>, added: nat)

  const NoImage: string := "No Image available"
  const NoDescription: string := "No Description available"

  // ------------------------------------------------------------ node filters

  /** The English name, when the node has a non-empty `name:en` tag. */
  function NameEn(tags: map<string, string>): (r: Option<string>)
    ensures r.Some? <==> "name:en" in tags && tags["name:en"] != []
    ensures r.Some? ==> r.value == tags["name:en"] && r.value != []
  {
    if "name:en" in tags && tags["name:en"] != [] then Some(tags["name:en"]) else None
  }

  /** Some tag key starts with "addr:": the node is a real, addressed place. */
  predicate HasAddress(tags: map<string, string>) {
    exists k :: k in tags && "addr:" <= k
  }

  /** Some stored row already has this name in this city. */
  predicate StoredPair(places: seq<Place>, name: string, city: string) {
    exists p :: p in places && p.name == name && p.city == city
  }

  /** A node the loop goes on to insert, given the rows stored so far. */
  predicate Admitted(places: seq<Place>, node: Node, city: string) {
    && NameEn(node.tags).Some?
    && HasAddress(node.tags)
    && !StoredPair(places, NameEn(node.tags).value, city)
  }

  // ------------------------------------------------- category and Wikipedia

  /** The category of a node, from its `tourism` tag. */
  function Category(tags: map<string, string>): (c: string)
    ensures c == "Attraction" <==> "tourism" in tags && tags["tourism"] == "attraction"
    ensures c == "Viewpoint" <==> "tourism" in tags && tags["tourism"] == "viewpoint"
    ensures c == "Other" <==> !("tourism" in tags && tags["tourism"] in {"attraction", "viewpoint"})
  {
    if "tourism" in tags && tags["tourism"] == "attraction" then "Attraction"
    else if "tourism" in tags && tags["tourism"] == "viewpoint" then "Viewpoint"
    else "Other"
  }

  /** `tags.get("wikipedia:en") or tags.get("wikipedia")`: the English tag
      unless it is missing or empty, else the plain one. */
  function WikiTag(tags: map<string, string>): (r: Option<string>)
    ensures "wikipedia:en" in tags && tags["wikipedia:en"] != [] ==> r == Some(tags["wikipedia:en"])
    ensures !("wikipedia:en" in tags && tags["wikipedia:en"] != []) ==>
              (r.Some? <==> "wikipedia" in tags) && (r.Some? ==> r.value == tags["wikipedia"])
  {
    if "wikipedia:en" in tags && tags["wikipedia:en"] != [] then Some(tags["wikipedia:en"])
    else if "wikipedia" in tags then Some(tags["wikipedia"])
    else None
  }

  /** The article title: what follows the first ':' of the tag (the tag's
      language prefix goes); none when the tag is absent or has no ':'. */
  function WikiTitle(tags: map<string, string>): (r: Option<string>)
    ensures r.Some? <==> WikiTag(tags).Some? && ':' in WikiTag(tags).value
    ensures r.Some? ==>
              exists lang :: ':' !in lang && WikiTag(tags).value == lang + [':'] + r.value
  {
    match WikiTag(tags)
    case None => None
    case Some(tag) =>
      var r := AfterFirst(tag, ':');
      if r.Some? then
        var i := |tag| - |r.value| - 1;
        assert tag == tag[..i] + [':'] + r.value;
        r
      else r
  }

  /** The image URL and description stored for a node: the Wikipedia
      lookup's answer when there is a title, else the two defaults. */
  function Enrichment(tags: map<string, string>, wiki: string -> (string, string)): (r: (string, string))
    ensures WikiTitle(tags).None? ==> r == (NoImage, NoDescription)
    ensures WikiTitle(tags).Some? ==> r == wiki(WikiTitle(tags).value)
  {
    match WikiTitle(tags)
    case None => (NoImage, NoDescription)
    case Some(title) => wiki(title)
  }

  /** The row the script builds for an admitted node. */
  function FromNode(node: Node, city: string, wiki: string -> (string, string), rating: real): (p: Place)
    requires NameEn(node.tags).Some? && HasAddress(node.tags)
    ensures Drawn(p, node, city, wiki) && p.rating == rating
  {
    var (image, description) := Enrichment(node.tags, wiki);
    Place(node.id, NameEn(node.tags).value, city, node.lat, node.lon,
          description, image, Category(node.tags), rating)
  }

  /** What a stored row says about the node it came from: every filter
      passed and every column taken from the node (the rating aside). */
  predicate Drawn(p: Place, node: Node, city: string, wiki: string -> (string, string)) {
    && p.id == node.id
    && NameEn(node.tags) == Some(p.name)
    && HasAddress(node.tags)
    && p.city == city
    && p.lat == node.lat && p.lng == node.lon
    && (p.imageUrl, p.description) == Enrichment(node.tags, wiki)
    && p.category == Category(node.tags)
  }

  // ------------------------------------------------------------ the insert

  predicate IdTaken(places: seq<Place>, id: string) {
    exists q :: q in places && q.id == id
  }

  /** INSERT OR IGNORE on the primary key `id`. */
  function InsertOrIgnore(places: seq<Place>, p: Place): (r: seq<Place>)
    ensures places <= r && |r| <= |places| + 1
    ensures IdTaken(r, p.id)
    ensures IdTaken(places, p.id) ==> r == places
    ensures !IdTaken(places, p.id) ==> r[|places|..] == [p]
  {
    if IdTaken(places, p.id) then places
    else
      assert p == (places + [p])[|places|];
      places + [p]
  }

  lemma InsertKeepsIdsUnique(places: seq<Place>, p: Place)
    requires UniqueIds(places)
    ensures UniqueIds(InsertOrIgnore(places, p))
  {
    if !IdTaken(places, p.id) {
      var r := places + [p];
      forall i, j | 0 <= i < j < |r| ensures IdAt(r, i) != IdAt(r, j) {
        if j == |places| {
          assert r[i] in places && IdAt(r, j) == p.id;
        } else {
          assert IdAt(r, i) == IdAt(places, i) && IdAt(r, j) == IdAt(places, j);
        }
      }
    }
  }

  // ----------------------------------------------- the loop over one area

  /** The node loop of one area, from `added` attempts on: it stops once the
      cap is reached and skips nodes that fail a filter. `rate(n)` is the
      rating drawn for the n-th attempt. */
  function SelectNodes(places: seq<Place>, city: string, nodes: seq<Node>,
                       wiki: string -> (string, string), rate: nat -> real, added: nat): (r: Progress)
    ensures added <= r.added
    ensures added >= MaxPlaces ==> r == Progress(places, added)
    ensures added <= MaxPlaces ==> r.added <= MaxPlaces
    ensures places <= r.places
    ensures |r.places| - |places| <= r.added - added
    decreases |nodes|
  {
    if nodes == [] || added >= MaxPlaces then Progress(places, added)
    else if Admitted(places, nodes[0], city) then
      var p := FromNode(nodes[0], city, wiki, rate(added));
      SelectNodes(InsertOrIgnore(places, p), city, nodes[1..], wiki, rate, added + 1)
    else SelectNodes(places, city, nodes[1..], wiki, rate, added)
  }

  /** Every row of `after` past the `before` rows comes from one of `nodes`
      through the filters, with `city`. */
  ghost predicate AddedFrom(before: seq<Place>, after: seq<Place>, nodes: seq<Node>, city: string,
                            wiki: string -> (string, string)) {
    forall k :: |before| <= k < |after| ==> DrawnFrom(after[k], nodes, city, wiki)
  }

  /** The row comes from one of `nodes`. */
  ghost predicate DrawnFrom(p: Place, nodes: seq<Node>, city: string, wiki: string -> (string, string)) {
    exists node :: node in nodes && Drawn(p, node, city, wiki)
  }

  lemma AddedFromMore(before: seq<Place>, after: seq<Place>, nodes: seq<Node>, more: seq<Node>,
                      city: string, wiki: string -> (string, string))
    requires AddedFrom(before, after, nodes, city, wiki)
    requires forall n :: n in nodes ==> n in more
    ensures AddedFrom(before, after, more, city, wiki)
  {
    forall k | |before| <= k < |after| ensures DrawnFrom(after[k], more, city, wiki) {
      var row := after[k];
      var n :| n in nodes && Drawn(row, n, city, wiki);
    }
  }

  /** Every row the loop adds comes from one of the area's nodes that passed
      the filters, with the area's city. */
  lemma {:induction false} SelectedRowsDrawn(places: seq<Place>, city: string, nodes: seq<Node>,
                                             wiki: string -> (string, string), rate: nat -> real, added: nat)
    ensures AddedFrom(places, SelectNodes(places, city, nodes, wiki, rate, added).places, nodes, city, wiki)
    decreases |nodes|
  {
    if nodes != [] && added < MaxPlaces {
      var node := nodes[0];
      var rest := nodes[1..];
      if Admitted(places, node, city) {
        var p := FromNode(node, city, wiki, rate(added));
        var places' := InsertOrIgnore(places, p);
        SelectedRowsDrawn(places', city, rest, wiki, rate, added + 1);
        var r := SelectNodes(places', city, rest, wiki, rate, added + 1);
        SelectStep(places, city, nodes, wiki, rate, added);
        assert AddedFrom(places', r.places, rest, city, wiki);
        forall k | |places| <= k < |r.places|
          ensures DrawnFrom(r.places[k], nodes, city, wiki)
        {
          if k < |places'| {
            assert r.places[k] == places'[k] == p;
            assert Drawn(p, node, city, wiki);
          } else {
            var row := r.places[k];
            var n :| n in rest && Drawn(row, n, city, wiki);
            assert n in nodes;
          }
        }
      } else {
        SelectedRowsDrawn(places, city, rest, wiki, rate, added);
        var r := SelectNodes(places, city, rest, wiki, rate, added);
        SelectStep(places, city, nodes, wiki, rate, added);
        AddedFromMore(places, r.places, rest, nodes, city, wiki);
      }
    }
  }

  /** Two rows with the same name in the same city. */
  predicate SamePair(p: Place, q: Place) {
    p.name == q.name && p.city == q.city
  }

  /** No row of `after` past the `before` rows repeats the (name, city) pair
      of a row before it. */
  ghost predicate NoNewPair(before: seq<Place>, after: seq<Place>) {
    forall i, k :: 0 <= i < k < |after| && |before| <= k ==> !SamePair(after[i], after[k])
  }

  /** No added row repeats the (name, city) pair of any row before it, stored
      before the run or added earlier in it. */
  lemma {:induction false} SelectNoNewPair(places: seq<Place>, city: string, nodes: seq<Node>,
                                           wiki: string -> (string, string), rate: nat -> real, added: nat)
    ensures NoNewPair(places, SelectNodes(places, city, nodes, wiki, rate, added).places)
    decreases |nodes|
  {
    if nodes != [] && added < MaxPlaces {
      var node := nodes[0];
      var rest := nodes[1..];
      if Admitted(places, node, city) {
        var p := FromNode(node, city, wiki, rate(added));
        var places' := InsertOrIgnore(places, p);
        SelectNoNewPair(places', city, rest, wiki, rate, added + 1);
        SelectStep(places, city, nodes, wiki, rate, added);
        var r := SelectNodes(places', city, rest, wiki, rate, added + 1);
        forall i, k | 0 <= i < k < |r.places| && |places| <= k
          ensures !SamePair(r.places[i], r.places[k])
        {
          if k < |places'| {
            assert r.places[k] == places'[k] == p;
            assert r.places[i] == places[i];
            assert places[i] in places;
          }
        }
      } else {
        SelectNoNewPair(places, city, rest, wiki, rate, added);
        SelectStep(places, city, nodes, wiki, rate, added);
      }
    }
  }

  lemma {:induction false} SelectKeepsIdsUnique(places: seq<Place>, city: string, nodes: seq<Node>,
                                                wiki: string -> (string, string), rate: nat -> real, added: nat)
    requires UniqueIds(places)
    ensures UniqueIds(SelectNodes(places, city, nodes, wiki, rate, added).places)
    decreases |nodes|
  {
    if nodes != [] && added < MaxPlaces {
      var places', added' := AfterNode(places, nodes[0], city, wiki, rate(added)), CountAfterNode(places, nodes[0], city, added);
      SelectStepUnified(places, city, nodes, wiki, rate, added);
      AfterNodeKeepsIdsUnique(places, nodes[0], city, wiki, rate(added));
      SelectKeepsIdsUnique(places', city, nodes[1..], wiki, rate, added');
    }
  }

  /** The table after the loop considers one node. */
  function AfterNode(places: seq<Place>, node: Node, city: string, wiki: string -> (string, string), rating: real): seq<Place> {
    if Admitted(places, node, city) then InsertOrIgnore(places, FromNode(node, city, wiki, rating)) else places
  }

  /** The attempt counter after the loop considers one node. */
  function CountAfterNode(places: seq<Place>, node: Node, city: string, added: nat): nat {
    if Admitted(places, node, city) then added + 1 else added
  }

  lemma AfterNodeKeepsIdsUnique(places: seq<Place>, node: Node, city: string, wiki: string -> (string, string), rating: real)
    requires UniqueIds(places)
    ensures UniqueIds(AfterNode(places, node, city, wiki, rating))
  {
    if Admitted(places, node, city) {
      InsertKeepsIdsUnique(places, FromNode(node, city, wiki, rating));
    }
  }

  lemma SelectStepUnified(places: seq<Place>, city: string, nodes: seq<Node>,
                          wiki: string -> (string, string), rate: nat -> real, added: nat)
    requires nodes != [] && added < MaxPlaces
    ensures SelectNodes(places, city, nodes, wiki, rate, added)
         == SelectNodes(AfterNode(places, nodes[0], city, wiki, rate(added)), city, nodes[1..], wiki, rate,
                        CountAfterNode(places, nodes[0], city, added))
  {
    SelectStep(places, city, nodes, wiki, rate, added);
  }

  /** One step of the node loop, before the cap: the first node is inserted
      if it passes the filters and skipped otherwise. */
  lemma SelectStep(places: seq<Place>, city: string, nodes: seq<Node>,
                   wiki: string -> (string, string), rate: nat -> real, added: nat)
    requires nodes != [] && added < MaxPlaces
    ensures Admitted(places, nodes[0], city) ==>
              SelectNodes(places, city, nodes, wiki, rate, added)
              == SelectNodes(InsertOrIgnore(places, FromNode(nodes[0], city, wiki, rate(added))),
                             city, nodes[1..], wiki, rate, added + 1)
    ensures !Admitted(places, nodes[0], city) ==>
              SelectNodes(places, city, nodes, wiki, rate, added)
              == SelectNodes(places, city, nodes[1..], wiki, rate, added)
  {
  }

  // ------------------------------------- what the node loop inserts, node by node

  /** The table and counter when the node loop reaches `nodes[k]`. */
  function Before(places: seq<Place>, city: string, nodes: seq<Node>,
                  wiki: string -> (string, string), rate: nat -> real, added: nat, k: nat): Progress
    requires k <= |nodes|
  {
    SelectNodes(places, city, nodes[..k], wiki, rate, added)
  }

  /** `nodes[k]` is an insert attempt: at its turn the cap is not reached
      and the node passes the filters. */
  predicate AttemptAt(places: seq<Place>, city: string, nodes: seq<Node>,
                      wiki: string -> (string, string), rate: nat -> real, added: nat, k: nat)
    requires k < |nodes|
  {
    var s := Before(places, city, nodes, wiki, rate, added, k);
    s.added < MaxPlaces && Admitted(s.places, nodes[k], city)
  }

  /** `nodes[k]` is an insert attempt whose id is not in the table yet, so
      that INSERT OR IGNORE adds its row. */
  predicate StoredAt(places: seq<Place>, city: string, nodes: seq<Node>,
                     wiki: string -> (string, string), rate: nat -> real, added: nat, k: nat)
    requires k < |nodes|
  {
    && AttemptAt(places, city, nodes, wiki, rate, added, k)
    && !IdTaken(Before(places, city, nodes, wiki, rate, added, k).places, nodes[k].id)
  }

  /** How many of the first `n` nodes are insert attempts. */
  function Attempts(places: seq<Place>, city: string, nodes: seq<Node>,
                    wiki: string -> (string, string), rate: nat -> real, added: nat, n: nat): nat
    requires n <= |nodes|
  {
    if n == 0 then 0
    else Attempts(places, city, nodes, wiki, rate, added, n - 1)
         + if AttemptAt(places, city, nodes, wiki, rate, added, n - 1) then 1 else 0
  }

  /** How many of the first `n` nodes add a row. */
  function Inserts(places: seq<Place>, city: string, nodes: seq<Node>,
                   wiki: string -> (string, string), rate: nat -> real, added: nat, n: nat): nat
    requires n <= |nodes|
  {
    if n == 0 then 0
    else Inserts(places, city, nodes, wiki, rate, added, n - 1)
         + if StoredAt(places, city, nodes, wiki, rate, added, n - 1) then 1 else 0
  }

  /** The node loop over `a + b` is the loop over `a` and then over `b`. */
  lemma {:induction false} SelectConcat(places: seq<Place>, city: string, a: seq<Node>, b: seq<Node>,
                                        wiki: string -> (string, string), rate: nat -> real, added: nat)
    ensures SelectNodes(places, city, a + b, wiki, rate, added)
         == SelectNodes(SelectNodes(places, city, a, wiki, rate, added).places, city, b, wiki, rate,
                        SelectNodes(places, city, a, wiki, rate, added).added)
    decreases |a|
  {
    if a == [] {
      assert a + b == b;
    } else if added < MaxPlaces {
      assert (a + b)[0] == a[0] && (a + b)[1..] == a[1..] + b;
      SelectStepUnified(places, city, a + b, wiki, rate, added);
      SelectStepUnified(places, city, a, wiki, rate, added);
      SelectConcat(AfterNode(places, a[0], city, wiki, rate(added)), city, a[1..], b, wiki, rate,
                   CountAfterNode(places, a[0], city, added));
    }
  }

  /** From `nodes[k]` to `nodes[k + 1]`: an attempt inserts the node's row
      with the rating of that attempt and counts one; any other node changes nothing. */
  lemma BeforeNext(places: seq<Place>, city: string, nodes: seq<Node>,
                   wiki: string -> (string, string), rate: nat -> real, added: nat, k: nat)
    requires k < |nodes|
    ensures var s := Before(places, city, nodes, wiki, rate, added, k);
            Before(places, city, nodes, wiki, rate, added, k + 1)
            == if AttemptAt(places, city, nodes, wiki, rate, added, k)
               then Progress(InsertOrIgnore(s.places, FromNode(nodes[k], city, wiki, rate(s.added))), s.added + 1)
               else s
  {
    var s := Before(places, city, nodes, wiki, rate, added, k);
    assert nodes[..k + 1] == nodes[..k] + [nodes[k]];
    SelectConcat(places, city, nodes[..k], [nodes[k]], wiki, rate, added);
    if s.added < MaxPlaces {
      SelectStepUnified(s.places, city, [nodes[k]], wiki, rate, s.added);
      assert [nodes[k]][1..] == [];
    }
  }

  lemma {:induction false} CountsBefore(places: seq<Place>, city: string, nodes: seq<Node>,
                                        wiki: string -> (string, string), rate: nat -> real, added: nat, n: nat)
    requires n <= |nodes|
    ensures Before(places, city, nodes, wiki, rate, added, n).added
            == added + Attempts(places, city, nodes, wiki, rate, added, n)
    ensures |Before(places, city, nodes, wiki, rate, added, n).places|
            == |places| + Inserts(places, city, nodes, wiki, rate, added, n)
    decreases n
  {
    if n == 0 {
      assert nodes[..0] == [];
    } else {
      CountsBefore(places, city, nodes, wiki, rate, added, n - 1);
      BeforeNext(places, city, nodes, wiki, rate, added, n - 1);
    }
  }

  /** The attempt counter counts exactly the nodes admitted at their turn
      before the cap, and the table grows by exactly those whose id was new. */
  lemma SelectCounts(places: seq<Place>, city: string, nodes: seq<Node>,
                     wiki: string -> (string, string), rate: nat -> real, added: nat)
    ensures SelectNodes(places, city, nodes, wiki, rate, added).added
            == added + Attempts(places, city, nodes, wiki, rate, added, |nodes|)
    ensures |SelectNodes(places, city, nodes, wiki, rate, added).places|
            == |places| + Inserts(places, city, nodes, wiki, rate, added, |nodes|)
  {
    CountsBefore(places, city, nodes, wiki, rate, added, |nodes|);
    assert nodes[..|nodes|] == nodes;
  }

  /** A node admitted at its turn before the cap has its id in the final
      table; when the id was new, the final table holds the row built from
      the node, with the rating of its attempt. */
  lemma SelectStoresAttempts(places: seq<Place>, city: string, nodes: seq<Node>,
                             wiki: string -> (string, string), rate: nat -> real, added: nat, k: nat)
    requires k < |nodes|
    ensures AttemptAt(places, city, nodes, wiki, rate, added, k) ==>
              IdTaken(SelectNodes(places, city, nodes, wiki, rate, added).places, nodes[k].id)
    ensures StoredAt(places, city, nodes, wiki, rate, added, k) ==>
              FromNode(nodes[k], city, wiki, rate(Before(places, city, nodes, wiki, rate, added, k).added))
              in SelectNodes(places, city, nodes, wiki, rate, added).places
  {
    var s := Before(places, city, nodes, wiki, rate, added, k);
    var s' := Before(places, city, nodes, wiki, rate, added, k + 1);
    BeforeNext(places, city, nodes, wiki, rate, added, k);
    assert nodes == nodes[..k + 1] + nodes[k + 1..];
    SelectConcat(places, city, nodes[..k + 1], nodes[k + 1..], wiki, rate, added);
    var r := SelectNodes(places, city, nodes, wiki, rate, added);
    assert s'.places <= r.places;
    if AttemptAt(places, city, nodes, wiki, rate, added, k) {
      var q :| q in s'.places && q.id == nodes[k].id;
      var i :| 0 <= i < |s'.places| && s'.places[i] == q;
      assert r.places[i] == q;
      if StoredAt(places, city, nodes, wiki, rate, added, k) {
        var p := FromNode(nodes[k], city, wiki, rate(s.added));
        assert s'.places[|s.places|] == p;
        assert r.places[|s.places|] == p;
      }
    }
  }

  /** One area: a failed fetch leaves table and counter as they were. */
  function AreaStep(places: seq<Place>, area: Area, fetched: Option<seq<Node>>,
                    wiki: string -> (string, string), rate: nat -> real, added: nat): Progress
  {
    match fetched
    case None => Progress(places, added)
    case Some(nodes) => SelectNodes(places, area.city, nodes, wiki, rate, added)
  }

  /** The node loop of scripts/ingest.py for one area, updating the table in place. */
  method SeedArea(db: Database, area: Area, fetched: Option<seq<Node>>,
                  wiki: string -> (string, string), rate: nat -> real, added0: nat) returns (added: nat)
    modifies db`places
    ensures Progress(db.places, added) == AreaStep(old(db.places), area, fetched, wiki, rate, added0)
  {
    added := added0;
    if fetched.None? {
      return;
    }
    var nodes := fetched.value;
    for n := 0 to |nodes|
      invariant SelectNodes(db.places, area.city, nodes[n..], wiki, rate, added)
             == SelectNodes(old(db.places), area.city, nodes, wiki, rate, added0)
    {
      if added >= MaxPlaces {
        break;
      }
      var node := nodes[n];
      assert nodes[n..][1..] == nodes[n + 1..];
      var name := NameEn(node.tags);
      if name.None? {
        continue;
      }
      if !HasAddress(node.tags) {
        continue;
      }
      if StoredPair(db.places, name.value, area.city) {
        continue;
      }
      var place := FromNode(node, area.city, wiki, rate(added));
      db.places := InsertOrIgnore(db.places, place);
      added := added + 1;
    }
  }

  // ------------------------------------------------ the loop over the areas

  /** The area loop, from `added` attempts on; `fetch` is the Overpass answer
      for each area, None when the fetch raised. */
  function OsmRun(places: seq<Place>, areas: seq<Area>, fetch: Area -> Option<seq<Node>>,
                  wiki: string -> (string, string), rate: nat -> real, added: nat): (r: Progress)
    ensures added <= r.added
    ensures added >= MaxPlaces ==> r == Progress(places, added)
    ensures added <= MaxPlaces ==> r.added <= MaxPlaces
    ensures places <= r.places
    ensures |r.places| - |places| <= r.added - added
    decreases |areas|
  {
    if areas == [] then Progress(places, added)
    else
      var s := AreaStep(places, areas[0], fetch(areas[0]), wiki, rate, added);
      OsmRun(s.places, areas[1..], fetch, wiki, rate, s.added)
  }

  /** The whole run makes at most one hundred insert attempts and so adds at
      most one hundred rows. */
  lemma SeedCapped(places: seq<Place>, fetch: Area -> Option<seq<Node>>,
                   wiki: string -> (string, string), rate: nat -> real)
    ensures var r := OsmRun(places, Areas, fetch, wiki, rate, 0);
            r.added <= MaxPlaces && |r.places| - |places| <= MaxPlaces
  {
  }

  /** Every row of `after` past the `before` rows comes from a node that the
      fetch of one of `areas` returned, through the filters, with that area's city. */
  ghost predicate AddedFromAreas(before: seq<Place>, after: seq<Place>, areas: seq<Area>,
                                 fetch: Area -> Option<seq<Node>>, wiki: string -> (string, string)) {
    forall k :: |before| <= k < |after| ==> DrawnFromAreas(after[k], areas, fetch, wiki)
  }

  /** The row comes from a node that the fetch of one of `areas` returned. */
  ghost predicate DrawnFromAreas(p: Place, areas: seq<Area>, fetch: Area -> Option<seq<Node>>,
                                 wiki: string -> (string, string)) {
    exists a :: a in areas && fetch(a).Some? && DrawnFrom(p, fetch(a).value, a.city, wiki)
  }

  /** Every added row comes from a node of one of the areas that the
      area's fetch returned and that passed the filters, with that area's city. */
  lemma {:induction false} OsmRowsDrawn(places: seq<Place>, areas: seq<Area>, fetch: Area -> Option<seq<Node>>,
                                        wiki: string -> (string, string), rate: nat -> real, added: nat)
    ensures AddedFromAreas(places, OsmRun(places, areas, fetch, wiki, rate, added).places, areas, fetch, wiki)
    decreases |areas|
  {
    if areas != [] {
      var a := areas[0];
      var s := AreaStep(places, a, fetch(a), wiki, rate, added);
      if fetch(a).Some? {
        SelectedRowsDrawn(places, a.city, fetch(a).value, wiki, rate, added);
      }
      OsmRowsDrawn(s.places, areas[1..], fetch, wiki, rate, s.added);
      var r := OsmRun(s.places, areas[1..], fetch, wiki, rate, s.added);
      assert r == OsmRun(places, areas, fetch, wiki, rate, added);
      forall k | |places| <= k < |r.places|
        ensures DrawnFromAreas(r.places[k], areas, fetch, wiki)
      {
        if k < |s.places| {
          assert r.places[k] == s.places[k];
          assert DrawnFrom(s.places[k], fetch(a).value, a.city, wiki);
          assert a in areas;
        } else {
          var a' :| a' in areas[1..] && fetch(a').Some? && DrawnFrom(r.places[k], fetch(a').value, a'.city, wiki);
          assert a' in areas;
        }
      }
    }
  }

  /** Across the whole run no added row repeats the (name, city) pair of a row before it. */
  lemma {:induction false} OsmNoNewPair(places: seq<Place>, areas: seq<Area>, fetch: Area -> Option<seq<Node>>,
                                        wiki: string -> (string, string), rate: nat -> real, added: nat)
    ensures NoNewPair(places, OsmRun(places, areas, fetch, wiki, rate, added).places)
    decreases |areas|
  {
    if areas != [] {
      var a := areas[0];
      var s := AreaStep(places, a, fetch(a), wiki, rate, added);
      if fetch(a).Some? {
        SelectNoNewPair(places, a.city, fetch(a).value, wiki, rate, added);
      }
      OsmNoNewPair(s.places, areas[1..], fetch, wiki, rate, s.added);
      var r := OsmRun(s.places, areas[1..], fetch, wiki, rate, s.added);
      forall i, k | 0 <= i < k < |r.places| && |places| <= k
        ensures !SamePair(r.places[i], r.places[k])
      {
        if k < |s.places| {
          assert r.places[i] == s.places[i] && r.places[k] == s.places[k];
        }
      }
    }
  }

  lemma {:induction false} OsmKeepsIdsUnique(places: seq<Place>, areas: seq<Area>, fetch: Area -> Option<seq<Node>>,
                                             wiki: string -> (string, string), rate: nat -> real, added: nat)
    requires UniqueIds(places)
    ensures UniqueIds(OsmRun(places, areas, fetch, wiki, rate, added).places)
    decreases |areas|
  {
    if areas != [] {
      var a := areas[0];
      if fetch(a).Some? {
        SelectKeepsIdsUnique(places, a.city, fetch(a).value, wiki, rate, added);
      }
      var s := AreaStep(places, a, fetch(a), wiki, rate, added);
      OsmKeepsIdsUnique(s.places, areas[1..], fetch, wiki, rate, s.added);
    }
  }

  /** A failed fetch skips its area: the run goes on with the next one from
      the same table and counter. */
  lemma FailedFetchSkipped(places: seq<Place>, areas: seq<Area>, fetch: Area -> Option<seq<Node>>,
                           wiki: string -> (string, string), rate: nat -> real, added: nat)
    requires areas != [] && fetch(areas[0]).None?
    ensures OsmRun(places, areas, fetch, wiki, rate, added) == OsmRun(places, areas[1..], fetch, wiki, rate, added)
  {
  }

  // ------------------------------------ what the area loop inserts, area by area

  /** The table and counter when the area loop reaches `areas[j]`. */
  function BeforeArea(places: seq<Place>, areas: seq<Area>, fetch: Area -> Option<seq<Node>>,
                      wiki: string -> (string, string), rate: nat -> real, added: nat, j: nat): Progress
    requires j <= |areas|
  {
    OsmRun(places, areas[..j], fetch, wiki, rate, added)
  }

  /** The insert attempts the node loop of `areas[j]` makes. */
  function AreaAttempts(places: seq<Place>, areas: seq<Area>, fetch: Area -> Option<seq<Node>>,
                        wiki: string -> (string, string), rate: nat -> real, added: nat, j: nat): nat
    requires j < |areas|
  {
    var s := BeforeArea(places, areas, fetch, wiki, rate, added, j);
    match fetch(areas[j])
    case None => 0
    case Some(nodes) => Attempts(s.places, areas[j].city, nodes, wiki, rate, s.added, |nodes|)
  }

  /** The rows the node loop of `areas[j]` adds. */
  function AreaInserts(places: seq<Place>, areas: seq<Area>, fetch: Area -> Option<seq<Node>>,
                       wiki: string -> (string, string), rate: nat -> real, added: nat, j: nat): nat
    requires j < |areas|
  {
    var s := BeforeArea(places, areas, fetch, wiki, rate, added, j);
    match fetch(areas[j])
    case None => 0
    case Some(nodes) => Inserts(s.places, areas[j].city, nodes, wiki, rate, s.added, |nodes|)
  }

  /** The attempts of the first `n` areas. */
  function RunAttempts(places: seq<Place>, areas: seq<Area>, fetch: Area -> Option<seq<Node>>,
                       wiki: string -> (string, string), rate: nat -> real, added: nat, n: nat): nat
    requires n <= |areas|
  {
    if n == 0 then 0
    else RunAttempts(places, areas, fetch, wiki, rate, added, n - 1)
         + AreaAttempts(places, areas, fetch, wiki, rate, added, n - 1)
  }

  /** The rows the first `n` areas add. */
  function RunInserts(places: seq<Place>, areas: seq<Area>, fetch: Area -> Option<seq<Node>>,
                      wiki: string -> (string, string), rate: nat -> real, added: nat, n: nat): nat
    requires n <= |areas|
  {
    if n == 0 then 0
    else RunInserts(places, areas, fetch, wiki, rate, added, n - 1)
         + AreaInserts(places, areas, fetch, wiki, rate, added, n - 1)
  }

  /** The area loop over `a + b` is the loop over `a` and then over `b`. */
  lemma {:induction false} OsmConcat(places: seq<Place>, a: seq<Area>, b: seq<Area>, fetch: Area -> Option<seq<Node>>,
                                     wiki: string -> (string, string), rate: nat -> real, added: nat)
    ensures OsmRun(places, a + b, fetch, wiki, rate, added)
         == OsmRun(OsmRun(places, a, fetch, wiki, rate, added).places, b, fetch, wiki, rate,
                   OsmRun(places, a, fetch, wiki, rate, added).added)
    decreases |a|
  {
    if a == [] {
      assert a + b == b;
    } else {
      assert (a + b)[0] == a[0] && (a + b)[1..] == a[1..] + b;
      var s := AreaStep(places, a[0], fetch(a[0]), wiki, rate, added);
      OsmConcat(s.places, a[1..], b, fetch, wiki, rate, s.added);
    }
  }

  /** From `areas[j]` to `areas[j + 1]`: one area step. */
  lemma BeforeAreaNext(places: seq<Place>, areas: seq<Area>, fetch: Area -> Option<seq<Node>>,
                       wiki: string -> (string, string), rate: nat -> real, added: nat, j: nat)
    requires j < |areas|
    ensures var s := BeforeArea(places, areas, fetch, wiki, rate, added, j);
            BeforeArea(places, areas, fetch, wiki, rate, added, j + 1)
            == AreaStep(s.places, areas[j], fetch(areas[j]), wiki, rate, s.added)
  {
    var s := BeforeArea(places, areas, fetch, wiki, rate, added, j);
    assert areas[..j + 1] == areas[..j] + [areas[j]];
    OsmConcat(places, areas[..j], [areas[j]], fetch, wiki, rate, added);
    assert [areas[j]][1..] == [];
  }

  lemma {:induction false} CountsBeforeArea(places: seq<Place>, areas: seq<Area>, fetch: Area -> Option<seq<Node>>,
                                            wiki: string -> (string, string), rate: nat -> real, added: nat, n: nat)
    requires n <= |areas|
    ensures BeforeArea(places, areas, fetch, wiki, rate, added, n).added
            == added + RunAttempts(places, areas, fetch, wiki, rate, added, n)
    ensures |BeforeArea(places, areas, fetch, wiki, rate, added, n).places|
            == |places| + RunInserts(places, areas, fetch, wiki, rate, added, n)
    decreases n
  {
    if n == 0 {
      assert areas[..0] == [];
    } else {
      CountsBeforeArea(places, areas, fetch, wiki, rate, added, n - 1);
      BeforeAreaNext(places, areas, fetch, wiki, rate, added, n - 1);
      var s := BeforeArea(places, areas, fetch, wiki, rate, added, n - 1);
      var a := areas[n - 1];
      var step := AreaStep(s.places, a, fetch(a), wiki, rate, s.added);
      assert BeforeArea(places, areas, fetch, wiki, rate, added, n) == step;
      match fetch(a)
      case None =>
        assert step == s;
      case Some(nodes) =>
        SelectCounts(s.places, a.city, nodes, wiki, rate, s.added);
        assert step.added == s.added + AreaAttempts(places, areas, fetch, wiki, rate, added, n - 1);
        assert |step.places| == |s.places| + AreaInserts(places, areas, fetch, wiki, rate, added, n - 1);
    }
  }

  /** Over the whole run the counter counts exactly the nodes admitted at
      their turn before the cap, and the table grows by exactly those whose
      id was new. */
  lemma OsmCounts(places: seq<Place>, areas: seq<Area>, fetch: Area -> Option<seq<Node>>,
                  wiki: string -> (string, string), rate: nat -> real, added: nat)
    ensures OsmRun(places, areas, fetch, wiki, rate, added).added
            == added + RunAttempts(places, areas, fetch, wiki, rate, added, |areas|)
    ensures |OsmRun(places, areas, fetch, wiki, rate, added).places|
            == |places| + RunInserts(places, areas, fetch, wiki, rate, added, |areas|)
  {
    CountsBeforeArea(places, areas, fetch, wiki, rate, added, |areas|);
    assert areas[..|areas|] == areas;
  }

  /** A node of area `areas[j]` admitted at its turn before the cap has its
      id in the table at the end of the run; when the id was new, that table
      holds the row built from the node with the area's city. */
  lemma OsmStoresAttempts(places: seq<Place>, areas: seq<Area>, fetch: Area -> Option<seq<Node>>,
                          wiki: string -> (string, string), rate: nat -> real, added: nat, j: nat, k: nat)
    requires j < |areas| && fetch(areas[j]).Some? && k < |fetch(areas[j]).value|
    ensures var s := BeforeArea(places, areas, fetch, wiki, rate, added, j);
            var nodes := fetch(areas[j]).value;
            && (AttemptAt(s.places, areas[j].city, nodes, wiki, rate, s.added, k) ==>
                  IdTaken(OsmRun(places, areas, fetch, wiki, rate, added).places, nodes[k].id))
            && (StoredAt(s.places, areas[j].city, nodes, wiki, rate, s.added, k) ==>
                  FromNode(nodes[k], areas[j].city, wiki,
                           rate(Before(s.places, areas[j].city, nodes, wiki, rate, s.added, k).added))
                  in OsmRun(places, areas, fetch, wiki, rate, added).places)
  {
    var s := BeforeArea(places, areas, fetch, wiki, rate, added, j);
    var nodes := fetch(areas[j]).value;
    var city := areas[j].city;
    BeforeAreaNext(places, areas, fetch, wiki, rate, added, j);
    SelectStoresAttempts(s.places, city, nodes, wiki, rate, s.added, k);
    var s' := BeforeArea(places, areas, fetch, wiki, rate, added, j + 1);
    assert areas == areas[..j + 1] + areas[j + 1..];
    OsmConcat(places, areas[..j + 1], areas[j + 1..], fetch, wiki, rate, added);
    var r := OsmRun(places, areas, fetch, wiki, rate, added);
    assert s'.places <= r.places;
    if AttemptAt(s.places, city, nodes, wiki, rate, s.added, k) {
      var q :| q in s'.places && q.id == nodes[k].id;
      var i :| 0 <= i < |s'.places| && s'.places[i] == q;
      assert r.places[i] == q;
    }
    if StoredAt(s.places, city, nodes, wiki, rate, s.added, k) {
      var p := FromNode(nodes[k], city, wiki, rate(Before(s.places, city, nodes, wiki, rate, s.added, k).added));
      var i :| 0 <= i < |s'.places| && s'.places[i] == p;
      assert r.places[i] == p;
    }
  }

  /** seed_osm: every area in turn, with one counter for the whole run. */
  method SeedOsm(db: Database, fetch: Area -> Option<seq<Node>>,
                 wiki: string -> (string, string), rate: nat -> real) returns (added: nat)
    modifies db`places
    ensures Progress(db.places, added) == OsmRun(old(db.places), Areas, fetch, wiki, rate, 0)
  {
    added := SeedAreas(db, Areas, fetch, wiki, rate, 0);
  }

  /** The area loop of seed_osm over `areas`, from `added0` attempts on. */
  method SeedAreas(db: Database, areas: seq<Area>, fetch: Area -> Option<seq<Node>>,
                   wiki: string -> (string, string), rate: nat -> real, added0: nat) returns (added: nat)
    modifies db`places
    ensures Progress(db.places, added) == OsmRun(old(db.places), areas, fetch, wiki, rate, added0)
  {
    added := added0;
    for i := 0 to |areas|
      invariant OsmRun(db.places, areas[i..], fetch, wiki, rate, added)
             == OsmRun(old(db.places), areas, fetch, wiki, rate, added0)
    {
      assert areas[i..][1..] == areas[i + 1..];
      added := SeedArea(db, areas[i], fetch(areas[i]), wiki, rate, added);
    }
  }

  // ------------------------------------------------ the INSERT statement

  /** A value bound to a `?` placeholder. */
  datatype SqlValue = TextValue(text: string) | RealValue(number: real)

  /** An INSERT into `places`: its column list, and whether a comma dangles
      after the last column name. */
  datatype InsertStatement = InsertStatement(columns: seq<string>, danglingComma: bool)

  /** What sqlite does with an INSERT and its bound values. */
  datatype InsertOutcome =
    | Stored(row: Place)
    | SyntaxError
    | ValueCountMismatch
    | UnknownColumn
    | Malformed

  /** The columns of `places`, in table order. */
  const PlaceColumns: seq<string> :=
    ["id", "name", "city", "lat", "lng", "description", "image_url", "category", "rating"]

  /** The statement as the script writes it: ten columns, the last one
      `cesium_asset_id`, followed by a comma. */
  const InsertAsWritten: InsertStatement := InsertStatement(PlaceColumns + ["cesium_asset_id"], true)

  /** The statement the script evidently means: the nine columns of the table. */
  const InsertIntended: InsertStatement := InsertStatement(PlaceColumns, false)

  /** The nine values the script binds, in the order it binds them. */
  function PlaceValues(p: Place): seq<SqlValue> {
    [TextValue(p.id), TextValue(p.name), TextValue(p.city), RealValue(p.lat), RealValue(p.lng),
     TextValue(p.description), TextValue(p.imageUrl), TextValue(p.category), RealValue(p.rating)]
  }

  /** Column names paired with values; the first occurrence of a name wins. */
  function Zip(columns: seq<string>, values: seq<SqlValue>): map<string, SqlValue>
    requires |columns| == |values|
  {
    if columns == [] then map[] else Zip(columns[1..], values[1..])[columns[0] := values[0]]
  }

  function TextIn(row: map<string, SqlValue>, column: string): Option<string> {
    if column in row && row[column].TextValue? then Some(row[column].text) else None
  }

  function RealIn(row: map<string, SqlValue>, column: string): Option<real> {
    if column in row && row[column].RealValue? then Some(row[column].number) else None
  }

  /** Reads a stored row back as a place; None when a column is missing or
      holds a value of the wrong kind. */
  function RowToPlace(row: map<string, SqlValue>): Option<Place> {
    var id, name, city := TextIn(row, "id"), TextIn(row, "name"), TextIn(row, "city");
    var lat, lng := RealIn(row, "lat"), RealIn(row, "lng");
    var description, image, category := TextIn(row, "description"), TextIn(row, "image_url"), TextIn(row, "category");
    var rating := RealIn(row, "rating");
    if id.Some? && name.Some? && city.Some? && lat.Some? && lng.Some? && description.Some?
       && image.Some? && category.Some? && rating.Some?
    then Some(Place(id.value, name.value, city.value, lat.value, lng.value,
                    description.value, image.value, category.value, rating.value))
    else None
  }

  /** Running an INSERT against `places`: the statement must parse, name as
      many columns as there are values, and name only columns of the table. */
  function Execute(statement: InsertStatement, values: seq<SqlValue>): InsertOutcome {
    if statement.danglingComma then SyntaxError
    else if |statement.columns| != |values| then ValueCountMismatch
    else if exists c :: c in statement.columns && c !in PlaceColumns then UnknownColumn
    else match RowToPlace(Zip(statement.columns, values))
      case None => Malformed
      case Some(p) => Stored(p)
  }

  /** The statement as written stores nothing for any place: the dangling
      comma is a syntax error, and even without it ten columns meet nine
      values and `cesium_asset_id` is not a column of `places`. */
  lemma InsertAsWrittenFails(p: Place)
    ensures Execute(InsertAsWritten, PlaceValues(p)) == SyntaxError
    ensures Execute(InsertStatement(InsertAsWritten.columns, false), PlaceValues(p)) == ValueCountMismatch
    ensures "cesium_asset_id" in InsertAsWritten.columns && "cesium_asset_id" !in PlaceColumns
  {
  }

  /** The intended statement stores exactly the place the values were built from. */
  lemma InsertRoundTrip(p: Place)
    ensures Execute(InsertIntended, PlaceValues(p)) == Stored(p)
  {
    PlaceRowText(p);
    PlaceRowReals(p);
    assert RowToPlace(Zip(PlaceColumns, PlaceValues(p))) == Some(p);
  }

  /** The text columns of the intended insert hold the values bound to them. */
  lemma PlaceRowText(p: Place)
    ensures var row := Zip(PlaceColumns, PlaceValues(p));
            && TextIn(row, "id") == Some(p.id) && TextIn(row, "name") == Some(p.name)
            && TextIn(row, "city") == Some(p.city) && TextIn(row, "description") == Some(p.description)
            && TextIn(row, "image_url") == Some(p.imageUrl) && TextIn(row, "category") == Some(p.category)
  {
    var columns, values := PlaceColumns, PlaceValues(p);
    ZipAt(columns, values, 0); ZipAt(columns, values, 1); ZipAt(columns, values, 2);
    ZipAt(columns, values, 5); ZipAt(columns, values, 6); ZipAt(columns, values, 7);
  }

  /** The real columns of the intended insert hold the values bound to them. */
  lemma PlaceRowReals(p: Place)
    ensures var row := Zip(PlaceColumns, PlaceValues(p));
            && RealIn(row, "lat") == Some(p.lat) && RealIn(row, "lng") == Some(p.lng)
            && RealIn(row, "rating") == Some(p.rating)
  {
    var columns, values := PlaceColumns, PlaceValues(p);
    ZipAt(columns, values, 3); ZipAt(columns, values, 4); ZipAt(columns, values, 8);
  }

  lemma {:induction false} ZipAt(columns: seq<string>, values: seq<SqlValue>, i: int)
    requires |columns| == |values| && 0 <= i < |columns|
    requires forall j :: 0 <= j < i ==> columns[j] != columns[i]
    ensures columns[i] in Zip(columns, values) && Zip(columns, values)[columns[i]] == values[i]
  {
    if i > 0 {
      ZipAt(columns[1..], values[1..], i - 1);
      assert columns[0] != columns[i];
    }
  }
}
