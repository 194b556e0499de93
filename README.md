# Bruin Tour core in Dafny

Bruin Tour plans a tour through a list of stops. It loads a street map from a data file, finds a route between each pair of consecutive stops with A* search, and renders the tour as commands: commentary about a point of interest, "proceed" along a street in a compass direction, and "turn" left or right onto another street.

This project models the four pieces that carry the algorithmic work and proves properties of them.

- **`HashTable`** (`hashmap.dfy`) models the string-keyed hash map with separate chaining.
  - It is a class `HashMap<T>` whose buckets are a `seq<seq<(string, T)>>`, refining a ghost `map<string, T>`.
  - Inserting a new key can trigger a rehash into a table of twice as many buckets: a copy loop followed by a field swap.
  - `Index` is the bracket operator, which inserts a default value for a missing key.
  - The string hash is a function fixed at construction.
- **`GeoDb`** (`geodb.dfy`) models the map database.
  - It is a class `GeoDatabase` holding three `HashMap`s:
    - POI name to location;
    - point to its connected points, in insertion order;
    - concatenated pair of points to street name.
  - Loading a parsed segment record makes a fixed, ordered list of writes to those maps: the edge, the midpoint chain when the segment has points of interest, then one foot-path spur per point of interest.
  - That list is the specification. Each loading method is proved to apply exactly those writes, and the load properties are lemmas about the fold of writes over abstract tables.
  - The three queries are lookups.
- **`Router`** (`router.dfy`) models A* search.
  - The state is an open list of (point, f-score) entries plus a membership set and the predecessor, g-score and f-score tables.
  - `Route` is the loop.
  - `Relax` is the update made for one neighbour.
  - `ReconstructPath` follows predecessor links back from the goal. The program's loop would run forever on a predecessor table with a cycle. It stops only because the search never builds one. The model makes this explicit: a ghost ranking by (g-score, time of last improvement) strictly decreases along every predecessor link, and that ranking is the loop's termination measure.
  - The proved result: a non-empty path starts at the start point, ends at a point that passes the end test, and every step is an edge of the graph.
- **`TourGen`** (`tour_generator.dfy`) models the tour generator.
  - `GenerateTour` is the nested loop, proved equal to the pure `Tour`.
  - The lemmas about `Tour` state the following:
    - the commentaries are exactly the stops, in order;
    - each leg's proceed commands walk the route segment by segment with the looked-up street names;
    - every turn is a left or right turn between two proceeds of the same leg: it follows a proceed on a different street and precedes the proceed along the street it names;
    - the tour is empty exactly when there are no stops or some leg fails.

`GeoPoints` (`geopoints.dfy`) holds the point type. A point keeps both its coordinate strings and their numeric values. `Key` is the point's string form, used as the key of the connection and street-name tables (the POI table is keyed by POI name). `Options` (`options.dfy`) holds the `Option` type.

`Router.Route` and the tour generator reach the map database only through its queries (connected points, POI location, street name). They take those queries as function parameters, as the program's classes hold a reference to the database interface rather than a concrete database. The geometry routines (great-circle distance, bearing of a line, turning angle, midpoint) lie outside the core, and every operation that needs one takes it as a function parameter.

Two behaviours of the code are easy to misread; the model follows the code in each case.

- **Direct start↔end links.** The loader links start and end directly even when the segment has points of interest. It does this in addition to the midpoint chain, not instead of it (src/geodb.cpp:50-53). `GeoDb.SegmentLinks` states both.
- **No duplicate open-set entries.** The router never queues a point that is already in the open set. It pushes a neighbour only when its key is not in the membership set (src/router.cpp:66-70). `Router.Relax` proves the open list's keys stay distinct and equal to the membership set. No stale duplicate entries arise.

## Model

| member | source | states |
|---|---|---|
| HashTable.HashMap.constructor | include/hashmap.h:14-18 | a new map is empty, with size 0 and 10 buckets; a non-positive maximum load becomes 0.75 |
| HashTable.HashMap.Sized | include/hashmap.h:108-112 | the private constructor: empty map, size 0, the requested number of buckets, with the same load-factor correction |
| HashTable.HashMap.Size | include/hashmap.h:25-28 | the stored size is the number of distinct keys in the map |
| HashTable.KeysAppearOnce | include/hashmap.h:30-35 | under the table invariant, no key appears in two entries anywhere in the table |
| HashTable.AppendEntry | include/hashmap.h:53-54 | appending a new key to its hash bucket keeps every entry in its bucket and keys distinct, adds exactly that association, and adds one entry |
| HashTable.ReplaceEntry | include/hashmap.h:56-57 | overwriting an entry's value in place changes only that key's association and not the entry count |
| HashTable.HashMap.FindSlot | include/hashmap.h:81-88 | the bucket scan finds an entry exactly when the key is in the map, and the found entry holds the key and its value |
| HashTable.HashMap.Find | include/hashmap.h:93-96 | lookup returns the key's value when present and nothing otherwise |
| HashTable.HashMap.Swap | include/hashmap.h:117-123 | the two maps exchange table, size, bucket count, load factor and contents |
| HashTable.HashMap.InsertAll | include/hashmap.h:47-48 | re-inserting one bucket's entries adds exactly their associations; the table grows only if the load factor is passed |
| HashTable.HashMap.CopyInto | include/hashmap.h:44-49 | the new table ends with exactly the old associations, neither losing nor duplicating any |
| HashTable.HashMap.Rehash | include/hashmap.h:42-51 | growth keeps the contents and size and at least doubles the bucket count, exactly doubling it when the copy does not itself overflow |
| HashTable.HashMap.Insert | include/hashmap.h:36-58 | afterwards the key maps to the value and every other key is unchanged; an existing key keeps size and buckets; a new key adds one to the size, and the table grows only when (size+1)/buckets exceeds the maximum load |
| HashTable.HashMap.Index | include/hashmap.h:65-76 | a present key yields its value with nothing changed; a missing key is inserted with the default value, which is returned, adding one to the size and growing the table under the same load-factor rule as insert |
| GeoDb.PoiName | src/geodb.cpp:100-108 | the POI name is a bar-free prefix of the line followed by a bar |
| GeoDb.PoiNameUnique | src/geodb.cpp:100-108 | a bar-free prefix followed by a bar is the only possible name: the split is unique |
| GeoDb.ReadPoiName | src/geodb.cpp:100-108 | the character loop reads exactly the characters before the first bar |
| GeoDb.GeoDatabase.constructor | src/geodb.cpp:12 | a new database has three empty tables |
| GeoDb.GeoDatabase.PutStreet | src/geodb.cpp:44 | a street-name insert updates exactly that key of the street table |
| GeoDb.GeoDatabase.AddLink | src/geodb.cpp:50 | appends the point to the key's connection list, creating the list when missing |
| GeoDb.GeoDatabase.PutPoi | src/geodb.cpp:118 | a POI insert updates exactly that name of the POI table |
| GeoDb.GeoDatabase.AddEdge | src/geodb.cpp:44-53 | stores the street name under both orderings of start and end, and links them both ways |
| GeoDb.GeoDatabase.AddMidpoint | src/geodb.cpp:62-87 | stores the street name under the four start/mid/end orderings and links start↔mid and mid↔end both ways |
| GeoDb.GeoDatabase.AddPoi | src/geodb.cpp:95-130 | records the POI name and location, the "a path" names in both orderings, and the mid↔POI links both ways |
| GeoDb.GeoDatabase.AddPois | src/geodb.cpp:92-131 | applies every POI line's writes in order |
| GeoDb.GeoDatabase.AddSegment | src/geodb.cpp:30-131 | one record applies the edge writes, then the midpoint chain if it has any POI, then the POI writes |
| GeoDb.GeoDatabase.Load | src/geodb.cpp:16-135 | loading applies every record's writes in file order |
| GeoDb.GeoDatabase.GetPoiLocation | src/geodb.cpp:137-146 | reports found exactly when the name is loaded, returning its location; otherwise the point argument is left as it was |
| GeoDb.GeoDatabase.GetConnectedPoints | src/geodb.cpp:148-161 | returns the point's connection list in insertion order, or empty for an unknown point |
| GeoDb.GeoDatabase.GetStreetName | src/geodb.cpp:163-171 | returns the name stored for the concatenated key, or "" when there is none |
| GeoDb.SegmentStreets | src/geodb.cpp:44-74 | after a record, every street key of the segment names the segment's street, unless a foot path of the same record overwrote it |
| GeoDb.SegmentFootPaths | src/geodb.cpp:121-124 | after a record, both orderings of every mid/POI pair are named "a path" |
| GeoDb.SegmentLinks | src/geodb.cpp:50-86 | start and end are linked both ways whether or not there are POIs; with POIs, start↔mid and mid↔end are linked both ways too |
| GeoDb.SegmentPoiLinks | src/geodb.cpp:127-130 | every POI of a record is linked both ways with the midpoint |
| GeoDb.SegmentPoiWritesAt | src/geodb.cpp:115-130 | the i-th POI of a record makes exactly five writes, in source order: name, two foot-path names, two links |
| GeoDb.SegmentWithoutPois | src/geodb.cpp:59-87 | a record without POIs adds no POI, and exactly the two start/end street keys and the two link keys |
| GeoDb.SegmentPois | src/geodb.cpp:115-118 | a POI of a record that no later line of that record renames maps to its location |
| GeoDb.PoiLastWins | src/geodb.cpp:118 | the last write of a POI name decides its location |
| GeoDb.StreetSettled | src/geodb.cpp:44-47 | a street write holds at the end when no later write gives the key another name |
| GeoDb.LinkRecorded | src/geodb.cpp:50-53 | every link write leaves its target in the source point's list |
| GeoDb.LinksAppended | src/geodb.cpp:50-53 | a list of writes extends each connection list by exactly its targets, in order |
| GeoDb.ListsOnlyGrow | src/geodb.cpp:50-53 | loading never removes or reorders an existing neighbour: old lists are prefixes of new ones |
| GeoDb.PoiNeverLoaded | src/geodb.cpp:92-131 | a name on no POI line of the records is never in the POI table |
| GeoDb.LoadKeepsSymmetric | src/geodb.cpp:50-130 | every load keeps connections symmetric: if a lists b then b lists a |
| Router.Heuristic | src/router.cpp:101-104 | the heuristic is never negative, and it is zero exactly when the numeric coordinates agree |
| Router.IsAtEnd | src/router.cpp:106-109 | the end test passes only for points with the same string form as the goal |
| Router.Start | src/router.cpp:29-46 | the start state queues exactly the start point with its heuristic as f-score, its membership set is that point's key, there are no predecessors, and the start has g-score 0 and f-score its heuristic |
| Router.Top | src/router.cpp:81-84 | the chosen entry has no entry with a smaller f-score, under the pair order that compares f-scores only |
| Router.Pop | src/router.cpp:54-55 | removes the top entry and its key from the membership set, keeping the tables and the open-set invariant |
| Router.Relax | src/router.cpp:56-71 | changes nothing unless the tentative g-score is strictly lower; then it sets that neighbour's g, f and predecessor, leaves every other key's g, f and predecessor as they were, never raises a g-score, and pushes the neighbour only when it is not queued |
| Router.StartInv | src/router.cpp:29-46 | the start state satisfies the search invariant |
| Router.PopKeepsInv | src/router.cpp:54-55 | popping keeps the search invariant |
| Router.RelaxKeepsInv | src/router.cpp:56-71 | relaxing a neighbour with non-negative cost keeps the invariant: the start never gains a predecessor, and every link is a graph edge to a strictly earlier-ranked point |
| Router.ReconstructPath | src/router.cpp:86-99 | the path ends at the goal, starts at a point with no predecessor, and each point is its successor's predecessor |
| Router.PathFacts | src/router.cpp:86-96 | a reconstructed path starts at the start point and each step is a graph edge |
| Router.Route | src/router.cpp:19-77 | a non-empty result starts at pt1 and ends at a point passing the end test; each step follows a connection; when pt1 is already the goal the result is [pt1] |
| TourGen.Direction | src/tour_generator.cpp:60-95 | a direction is named exactly for non-negative angles, and it is one of the eight compass points |
| TourGen.DirectionIsSector | src/tour_generator.cpp:60-95 | the comparison chain names the compass point of the 45-degree sector holding the angle, wrapping 337.5 and up back to east |
| TourGen.TurnDirection | src/tour_generator.cpp:113-120 | left exactly on [1, 180), right exactly on [180, 359], no side otherwise |
| TourGen.LegRoute | src/tour_generator.cpp:40-50 | a leg that succeeds has a non-empty route |
| TourGen.LegCommands | src/tour_generator.cpp:53-127 | the inner loop emits exactly the proceed and turn commands of the route's segments |
| TourGen.GenerateTour | src/tour_generator.cpp:14-131 | the loop, with its early returns, computes exactly the tour |
| TourGen.FailedLeg | src/tour_generator.cpp:40-50 | one unknown POI or empty route between consecutive stops empties the whole tour |
| TourGen.BeforeNext | src/tour_generator.cpp:20-50 | a successful leg appends the stop's commentary and then the leg's commands |
| TourGen.TourEmpty | src/tour_generator.cpp:18-50 | the tour is empty exactly when there are no stops or some leg fails |
| TourGen.TourCommentaries | src/tour_generator.cpp:18-33 | a non-empty tour's commentary commands are exactly the stops, in order |
| TourGen.TourEnds | src/tour_generator.cpp:20-33 | a non-empty tour starts with the first stop's commentary and ends with the last stop's |
| TourGen.StepsPlaced | src/tour_generator.cpp:53-127 | within a leg, a turn after segment j is left or right, follows that segment's proceed on a different street, and is followed by the proceed of segment j+1 whose street it names; after the last segment no turn is emitted |
| TourGen.StepsWalkRoute | src/tour_generator.cpp:53-100 | a route of n points yields n-1 proceed commands in order, the k-th going from route[k] to route[k+1] on the looked-up street |
| TourGen.TourTurns | src/tour_generator.cpp:102-126 | every turn of a tour is left or right, directly follows a proceed along a different street, and is directly followed by the proceed along the street it names, so no turn ends a leg |

## Left out

- File I/O. The loader's file reading and its failure path are not modelled; `Load` takes segment records already parsed.
  - Each record's point-of-interest count is the length of its line list, so a negative count is the same as zero.
  - A line's location is taken as already read.
- GeoDb.GeoDatabase.Load requires every point-of-interest line to contain '|'. Without one, the character loop that reads the name never stops.
- Floating point is not modelled. Coordinates, distances and angles are mathematical reals.
  - The geometry routines (great-circle distance, bearing of a line, turning angle, midpoint) are in geotools.h, which is not part of this model. They are function parameters.
  - The distance is assumed never negative.
- The point's string form: geopoint.h is not part of this model. `Key` joins the two coordinate strings with a comma, and every property is stated through `Key`.
- `std::hash` is a fixed function from strings to naturals, and its bucket is that value modulo the bucket count.
  - The `int` size and bucket counters are unbounded here, so overflow is not modelled.
- Pointer invalidation is not modelled. `Find` and `Index` return values, not pointers into the table, so the hazard of holding a pointer across a rehash does not arise.
- Router.Route expands at most `fuel` points and returns the empty path when the fuel runs out, as it does when the open set empties. The program's loop has no such bound.
  - The model makes no claim that the path is shortest or that a path is found whenever one exists. The heuristic is in degrees while costs are in miles.
- Router.Top picks the first entry of least f-score, and the open set is a list, not a binary heap. `std::priority_queue` may break ties between equal f-scores differently.
- Router.Relax treats a key missing from the g-score table as infinite, so a neighbour without a score is always accepted and gets its g-score, f-score and predecessor. The program first inserts the maximum double for such a neighbour through the bracket operator. It would therefore reject a tentative score equal to or above that value, and would keep the inserted maximum in the table; the model does not capture either.
- Router.ReconstructPath takes the search's g-scores and ranking as ghost arguments. They serve only to prove that the loop ends.
- The tour generator's collaborators are function parameters. This covers the database's POI lookup and street names, the router and the geometry.
  - The stop list is a sequence of (name, commentary) pairs, and a stop exists at index i exactly when i is below its length.
  - The command objects are a datatype.
- The console program is not modelled: argument handling, printing the tour and exit codes.
