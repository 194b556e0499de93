/**
 * The map database (src/geodb.cpp): three hash maps filled from street-segment records.
 *
 *   - POI name            -> location of the point of interest
 *   - string of a point   -> the points it is connected to, in the order they were added
 *   - two points' strings -> the name of the street between them
 *
 * A segment record has already been parsed: its street name, its two end points and one line
 * per point of interest ("name|lat lon", with the location already read). Loading is specified
 * as an ordered list of writes folded over abstract tables; the properties of a load are lemmas
 * about that fold.
 */
module GeoDb {
  import opened Options
  import opened GeoPoints
  import opened HashTable

  /** One point-of-interest line of a segment record: its text and the location read from it. */
  datatype PoiLine = PoiLine(text: string, location: GeoPoint)

  /** One street-segment record of the map data. */
  datatype Segment = Segment(street: string, start: GeoPoint, end: GeoPoint, pois: seq<PoiLine>)

  /** The street name given to the spur between a segment's midpoint and a point of interest. */
  const FootPath := "a path"

  /** Every POI line of a record carries the '|' that ends its name. */
  predicate HasNames(pois: seq<PoiLine>)
  {
    forall i :: 0 <= i < |pois| ==> '|' in pois[i].text
  }

  predicate AllHaveNames(segs: seq<Segment>)
  {
    forall i :: 0 <= i < |segs| ==> HasNames(segs[i].pois)
  }

  /** The name of a point of interest: the characters of its line before the first '|'. */
  function PoiName(line: string): (name: string)
    requires '|' in line
    ensures |name| < |line| && line[..|name|] == name && line[|name|] == '|' && '|' !in name
  {
    if line[0] == '|' then "" else [line[0]] + PoiName(line[1..])
  }

  /** The split is unique: a '|'-free prefix followed by '|' is the name. */
  lemma {:induction false} PoiNameUnique(line: string, name: string)
    requires |name| < |line| && line[..|name|] == name && line[|name|] == '|' && '|' !in name
    ensures PoiName(line) == name
  {
    if line[0] != '|' {
      assert name != [] && name[0] == line[0];
      assert line[1..][..|name| - 1] == name[1..];
      PoiNameUnique(line[1..], name[1..]);
    }
  }

  /** The character loop that reads a POI name up to '|'. */
  method ReadPoiName(line: string) returns (name: string)
    requires '|' in line
    ensures name == PoiName(line)
  {
    name := "";
    var i := 0;
    while line[i] != '|'
      invariant i < |line| && '|' in line[i..]
      invariant name == line[..i] && '|' !in name
      decreases |line| - i
    {
      name := name + [line[i]];
      i := i + 1;
      assert line[i - 1..] == [line[i - 1]] + line[i..];
    }
    PoiNameUnique(line, name);
  }

  /** One update the loader makes to its three maps. */
  datatype Write =
    | Street(key: string, name: string)
    | Link(from: string, to: GeoPoint)
    | Poi(poi: string, location: GeoPoint)

  /** The abstract contents of the three maps. */
  datatype Tables = Tables(pois: map<string, GeoPoint>, links: map<string, seq<GeoPoint>>, streets: map<string, string>)

  /** The points connected to the point whose string is k; none when k was never linked. */
  function Neighbours(t: Tables, k: string): seq<GeoPoint>
  {
    if k in t.links then t.links[k] else []
  }

  function Apply(t: Tables, w: Write): Tables
  {
    match w
    case Street(k, n) => t.(streets := t.streets[k := n])
    case Link(k, p) => t.(links := t.links[k := Neighbours(t, k) + [p]])
    case Poi(n, p) => t.(pois := t.pois[n := p])
  }

  function ApplyAll(t: Tables, ws: seq<Write>): Tables
  {
    if ws == [] then t else Apply(ApplyAll(t, ws[..|ws| - 1]), ws[|ws| - 1])
  }

  /** The writes of one POI line, in the order of src/geodb.cpp:118-130. */
  function PoiWrites(p: PoiLine, mid: GeoPoint): seq<Write>
    requires '|' in p.text
  {
    [Poi(PoiName(p.text), p.location),
     Street(Key(mid) + Key(p.location), FootPath),
     Street(Key(p.location) + Key(mid), FootPath),
     Link(Key(mid), p.location),
     Link(Key(p.location), mid)]
  }

  function AllPoiWrites(pois: seq<PoiLine>, mid: GeoPoint): seq<Write>
    requires HasNames(pois)
  {
    if pois == [] then [] else AllPoiWrites(pois[..|pois| - 1], mid) + PoiWrites(pois[|pois| - 1], mid)
  }

  /** The writes for a segment's own end points (src/geodb.cpp:44-53). */
  function EdgeWrites(street: string, start: GeoPoint, end: GeoPoint): seq<Write>
  {
    var s, e := Key(start), Key(end);
    [Street(s + e, street), Street(e + s, street), Link(s, end), Link(e, start)]
  }

  /** The writes through the midpoint of a segment that has POIs (src/geodb.cpp:65-86). */
  function MidpointWrites(street: string, start: GeoPoint, end: GeoPoint, mid: GeoPoint): seq<Write>
  {
    var s, e, m := Key(start), Key(end), Key(mid);
    [Street(s + m, street), Street(m + s, street), Street(m + e, street), Street(e + m, street),
     Link(s, mid), Link(m, start), Link(m, end), Link(e, mid)]
  }

  /** The writes made before the POI lines are read. */
  function HeadWrites(seg: Segment, mid: GeoPoint): seq<Write>
  {
    EdgeWrites(seg.street, seg.start, seg.end) +
    if seg.pois == [] then [] else MidpointWrites(seg.street, seg.start, seg.end, mid)
  }

  /** All the writes of one segment record, in source order. */
  function SegmentWrites(seg: Segment, midpoint: (GeoPoint, GeoPoint) -> GeoPoint): seq<Write>
    requires HasNames(seg.pois)
  {
    var mid := midpoint(seg.start, seg.end);
    HeadWrites(seg, mid) + AllPoiWrites(seg.pois, mid)
  }

  /** All the writes of a whole map file. */
  function LoadWrites(segs: seq<Segment>, midpoint: (GeoPoint, GeoPoint) -> GeoPoint): seq<Write>
    requires AllHaveNames(segs)
  {
    if segs == [] then []
    else LoadWrites(segs[..|segs| - 1], midpoint) + SegmentWrites(segs[|segs| - 1], midpoint)
  }

  /** The targets of the Link writes from k, in order. */
  function LinkTargets(ws: seq<Write>, k: string): seq<GeoPoint>
  {
    if ws == [] then []
    else LinkTargets(ws[..|ws| - 1], k) +
         (if ws[|ws| - 1].Link? && ws[|ws| - 1].from == k then [ws[|ws| - 1].to] else [])
  }

  /** The street keys a segment registers under its own name. */
  function SegmentStreetKeys(seg: Segment, mid: GeoPoint): set<string>
  {
    var s, e, m := Key(seg.start), Key(seg.end), Key(mid);
    {s + e, e + s} + if seg.pois == [] then {} else {s + m, m + s, m + e, e + m}
  }

  /** The street keys of the foot paths between a midpoint and the points of interest. */
  function FootPathKeys(pois: seq<PoiLine>, mid: GeoPoint): set<string>
  {
    (set i | 0 <= i < |pois| :: Key(mid) + Key(pois[i].location)) +
    (set i | 0 <= i < |pois| :: Key(pois[i].location) + Key(mid))
  }

  // ---------------------------------------------------------------------------------------
  // Properties of the fold

  lemma {:induction false} ApplyAllAppend(t: Tables, a: seq<Write>, b: seq<Write>)
    ensures ApplyAll(t, a + b) == ApplyAll(ApplyAll(t, a), b)
    decreases |b|
  {
    if b == [] {
      assert a + b == a;
    } else {
      var n := |b|;
      assert (a + b)[..|a + b| - 1] == a + b[..n - 1];
      ApplyAllAppend(t, a, b[..n - 1]);
    }
  }

  lemma ApplyAllSnoc(t0: Tables, done: seq<Write>, w: Write)
    ensures ApplyAll(t0, done + [w]) == Apply(ApplyAll(t0, done), w)
  {
    assert (done + [w])[..|done|] == done;
  }

  /** A Link write appends to the list it names and leaves every other list alone, so the
      lists a sequence of writes produces are the old lists followed by the new targets. */
  lemma {:induction false} LinksAppended(t: Tables, ws: seq<Write>, k: string)
    ensures Neighbours(ApplyAll(t, ws), k) == Neighbours(t, k) + LinkTargets(ws, k)
    ensures k in ApplyAll(t, ws).links <==> k in t.links || LinkTargets(ws, k) != []
  {
    if ws != [] {
      var n := |ws|;
      LinksAppended(t, ws[..n - 1], k);
      if ws[n - 1].Link? && ws[n - 1].from == k {
        assert LinkTargets(ws, k) == LinkTargets(ws[..n - 1], k) + [ws[n - 1].to];
      } else {
        assert LinkTargets(ws, k) == LinkTargets(ws[..n - 1], k);
      }
    }
  }

  lemma {:induction false} LinkTargetsHas(ws: seq<Write>, j: nat)
    requires j < |ws| && ws[j].Link?
    ensures ws[j].to in LinkTargets(ws, ws[j].from)
  {
    if j < |ws| - 1 {
      LinkTargetsHas(ws[..|ws| - 1], j);
    }
  }

  /** Whatever is linked stays linked: a Link write puts its target among the neighbours. */
  lemma LinkRecorded(t: Tables, ws: seq<Write>, j: nat)
    requires j < |ws| && ws[j].Link?
    ensures ws[j].to in Neighbours(ApplyAll(t, ws), ws[j].from)
  {
    LinkTargetsHas(ws, j);
    LinksAppended(t, ws, ws[j].from);
  }

  /** Street names: once a key is written with a name that no later write of the key changes,
      that name is what the table holds. With no later write of the key, the last write wins. */
  lemma {:induction false} StreetSettled(t: Tables, ws: seq<Write>, i: nat)
    requires i < |ws| && ws[i].Street?
    requires forall j :: i < j < |ws| && ws[j].Street? && ws[j].key == ws[i].key ==> ws[j].name == ws[i].name
    ensures ws[i].key in ApplyAll(t, ws).streets && ApplyAll(t, ws).streets[ws[i].key] == ws[i].name
  {
    if i < |ws| - 1 {
      StreetSettled(t, ws[..|ws| - 1], i);
    }
  }

  /** A key never written keeps whatever street name it had. */
  lemma {:induction false} StreetUnwritten(t: Tables, ws: seq<Write>, k: string)
    requires forall j :: 0 <= j < |ws| && ws[j].Street? ==> ws[j].key != k
    ensures (k in ApplyAll(t, ws).streets <==> k in t.streets)
    ensures k in t.streets ==> ApplyAll(t, ws).streets[k] == t.streets[k]
  {
    if ws != [] {
      StreetUnwritten(t, ws[..|ws| - 1], k);
    }
  }

  /** POI names: the last write of a name wins. */
  lemma {:induction false} PoiLastWins(t: Tables, ws: seq<Write>, i: nat)
    requires i < |ws| && ws[i].Poi?
    requires forall j :: i < j < |ws| && ws[j].Poi? ==> ws[j].poi != ws[i].poi
    ensures ws[i].poi in ApplyAll(t, ws).pois && ApplyAll(t, ws).pois[ws[i].poi] == ws[i].location
  {
    if i < |ws| - 1 {
      PoiLastWins(t, ws[..|ws| - 1], i);
    }
  }

  /** A name never written stays unknown. */
  lemma {:induction false} PoiUnwritten(t: Tables, ws: seq<Write>, n: string)
    requires n !in t.pois
    requires forall j :: 0 <= j < |ws| && ws[j].Poi? ==> ws[j].poi != n
    ensures n !in ApplyAll(t, ws).pois
  {
    if ws != [] {
      PoiUnwritten(t, ws[..|ws| - 1], n);
    }
  }

  // ---------------------------------------------------------------------------------------
  // Properties of one segment

  lemma {:induction false} AllPoiWritesAt(pois: seq<PoiLine>, mid: GeoPoint, i: nat)
    requires HasNames(pois) && i < |pois|
    ensures |AllPoiWrites(pois, mid)| == 5 * |pois|
    ensures AllPoiWrites(pois, mid)[5 * i..5 * i + 5] == PoiWrites(pois[i], mid)
  {
    var n := |pois|;
    var prefix := pois[..n - 1];
    if i < n - 1 {
      AllPoiWritesAt(prefix, mid, i);
    } else if n > 1 {
      AllPoiWritesAt(prefix, mid, 0);
    }
  }

  /** Every street write of the POI lines names a foot path, under a foot-path key. */
  lemma {:induction false} PoiStreetWrites(pois: seq<PoiLine>, mid: GeoPoint, j: nat)
    requires HasNames(pois) && j < |AllPoiWrites(pois, mid)| && AllPoiWrites(pois, mid)[j].Street?
    ensures AllPoiWrites(pois, mid)[j].name == FootPath
    ensures AllPoiWrites(pois, mid)[j].key in FootPathKeys(pois, mid)
  {
    var n := |pois|;
    var prefix := pois[..n - 1];
    AllPoiWritesAt(pois, mid, n - 1);
    if j < |AllPoiWrites(prefix, mid)| {
      PoiStreetWrites(prefix, mid, j);
      assert FootPathKeys(prefix, mid) <= FootPathKeys(pois, mid) by {
        forall k | k in FootPathKeys(prefix, mid) ensures k in FootPathKeys(pois, mid) {
          var i :| 0 <= i < |prefix| && (k == Key(mid) + Key(prefix[i].location) || k == Key(prefix[i].location) + Key(mid));
          assert prefix[i] == pois[i];
        }
      }
    } else {
      var r := j - 5 * (n - 1);
      assert AllPoiWrites(pois, mid)[j] == PoiWrites(pois[n - 1], mid)[r];
    }
  }

  /** Every POI write of the POI lines carries the name of one of them. */
  lemma {:induction false} PoiPoiWrites(pois: seq<PoiLine>, mid: GeoPoint, j: nat)
    requires HasNames(pois) && j < |AllPoiWrites(pois, mid)| && AllPoiWrites(pois, mid)[j].Poi?
    ensures exists i :: 0 <= i < |pois| && j == 5 * i &&
                        AllPoiWrites(pois, mid)[j] == Poi(PoiName(pois[i].text), pois[i].location)
  {
    var n := |pois|;
    var prefix := pois[..n - 1];
    AllPoiWritesAt(pois, mid, n - 1);
    if j < |AllPoiWrites(prefix, mid)| {
      PoiPoiWrites(prefix, mid, j);
      var i :| 0 <= i < |prefix| && j == 5 * i &&
               AllPoiWrites(prefix, mid)[j] == Poi(PoiName(prefix[i].text), prefix[i].location);
      assert prefix[i] == pois[i];
    } else {
      assert AllPoiWrites(pois, mid)[j] == PoiWrites(pois[n - 1], mid)[j - 5 * (n - 1)];
    }
  }

  /** Every street write made before the POI lines names the segment's street, and each key of
      SegmentStreetKeys is written there. */
  lemma HeadStreets(seg: Segment, mid: GeoPoint)
    ensures forall j :: 0 <= j < |HeadWrites(seg, mid)| && HeadWrites(seg, mid)[j].Street? ==>
              HeadWrites(seg, mid)[j].name == seg.street
    ensures forall k :: k in SegmentStreetKeys(seg, mid) ==>
              exists i :: 0 <= i < |HeadWrites(seg, mid)| && HeadWrites(seg, mid)[i] == Street(k, seg.street)
  {
    var head := HeadWrites(seg, mid);
    var s, e, m := Key(seg.start), Key(seg.end), Key(mid);
    forall k | k in SegmentStreetKeys(seg, mid)
      ensures exists i :: 0 <= i < |head| && head[i] == Street(k, seg.street)
    {
      if k == s + e {
        assert head[0] == Street(k, seg.street);
      } else if k == e + s {
        assert head[1] == Street(k, seg.street);
      } else if k == s + m {
        assert head[4] == Street(k, seg.street);
      } else if k == m + s {
        assert head[5] == Street(k, seg.street);
      } else if k == m + e {
        assert head[6] == Street(k, seg.street);
      } else {
        assert head[7] == Street(k, seg.street);
      }
    }
  }

  /** Where the writes of POI line i sit among the writes of its segment. */
  lemma SegmentPoiWritesAt(seg: Segment, midpoint: (GeoPoint, GeoPoint) -> GeoPoint, i: nat)
    requires HasNames(seg.pois) && i < |seg.pois|
    ensures var mid := midpoint(seg.start, seg.end);
            var ws := SegmentWrites(seg, midpoint);
            var b := |HeadWrites(seg, mid)| + 5 * i;
            var p := seg.pois[i];
            |ws| == |HeadWrites(seg, mid)| + 5 * |seg.pois| &&
            ws[b] == Poi(PoiName(p.text), p.location) &&
            ws[b + 1] == Street(Key(mid) + Key(p.location), FootPath) &&
            ws[b + 2] == Street(Key(p.location) + Key(mid), FootPath) &&
            ws[b + 3] == Link(Key(mid), p.location) &&
            ws[b + 4] == Link(Key(p.location), mid)
  {
    var mid := midpoint(seg.start, seg.end);
    var head, tail := HeadWrites(seg, mid), AllPoiWrites(seg.pois, mid);
    var ws := SegmentWrites(seg, midpoint);
    AllPoiWritesAt(seg.pois, mid, i);
    var b := |head| + 5 * i;
    var w := PoiWrites(seg.pois[i], mid);
    assert tail[5 * i..5 * i + 5] == w;
    assert ws[b] == tail[5 * i] == w[0];
    assert ws[b + 1] == tail[5 * i + 1] == w[1];
    assert ws[b + 2] == tail[5 * i + 2] == w[2];
    assert ws[b + 3] == tail[5 * i + 3] == w[3];
    assert ws[b + 4] == tail[5 * i + 4] == w[4];
  }

  /** The street writes of a segment: those before the POI lines name its street, the others
      name a foot path under a foot-path key. */
  lemma SegmentStreetWrite(seg: Segment, midpoint: (GeoPoint, GeoPoint) -> GeoPoint, j: nat)
    requires HasNames(seg.pois) && j < |SegmentWrites(seg, midpoint)| && SegmentWrites(seg, midpoint)[j].Street?
    ensures var mid := midpoint(seg.start, seg.end);
            var w := SegmentWrites(seg, midpoint)[j];
            if j < |HeadWrites(seg, mid)| then w.name == seg.street
            else w.name == FootPath && w.key in FootPathKeys(seg.pois, mid)
  {
    var mid := midpoint(seg.start, seg.end);
    var head := HeadWrites(seg, mid);
    var ws := SegmentWrites(seg, midpoint);
    if j < |head| {
      assert ws[j] == head[j];
      HeadStreets(seg, mid);
    } else {
      assert ws[j] == AllPoiWrites(seg.pois, mid)[j - |head|];
      PoiStreetWrites(seg.pois, mid, j - |head|);
    }
  }

  /** After a segment, each key it registers for its street (start-end, end-start and, with POIs,
      the four orderings through the midpoint) names that street, unless a foot path to one of
      its POIs reuses the same key; so get_street_name(start, end) == get_street_name(end, start). */
  lemma SegmentStreets(t: Tables, seg: Segment, midpoint: (GeoPoint, GeoPoint) -> GeoPoint)
    requires HasNames(seg.pois)
    ensures var mid := midpoint(seg.start, seg.end);
            var t' := ApplyAll(t, SegmentWrites(seg, midpoint));
            forall k :: k in SegmentStreetKeys(seg, mid) &&
                        (k !in FootPathKeys(seg.pois, mid) || seg.street == FootPath) ==>
                          k in t'.streets && t'.streets[k] == seg.street
  {
    var mid := midpoint(seg.start, seg.end);
    var head := HeadWrites(seg, mid);
    var ws := SegmentWrites(seg, midpoint);
    HeadStreets(seg, mid);
    forall k | k in SegmentStreetKeys(seg, mid) && (k !in FootPathKeys(seg.pois, mid) || seg.street == FootPath)
      ensures k in ApplyAll(t, ws).streets && ApplyAll(t, ws).streets[k] == seg.street
    {
      var i :| 0 <= i < |head| && head[i] == Street(k, seg.street);
      assert ws[i] == head[i];
      forall j | i < j < |ws| && ws[j].Street? && ws[j].key == k
        ensures ws[j].name == seg.street
      {
        SegmentStreetWrite(seg, midpoint, j);
      }
      StreetSettled(t, ws, i);
    }
  }

  /** After a segment, every foot-path key between its midpoint and one of its POIs, in either
      order, names "a path". */
  lemma SegmentFootPaths(t: Tables, seg: Segment, midpoint: (GeoPoint, GeoPoint) -> GeoPoint)
    requires HasNames(seg.pois)
    ensures var mid := midpoint(seg.start, seg.end);
            var t' := ApplyAll(t, SegmentWrites(seg, midpoint));
            forall k :: k in FootPathKeys(seg.pois, mid) ==> k in t'.streets && t'.streets[k] == FootPath
  {
    var mid := midpoint(seg.start, seg.end);
    var head := HeadWrites(seg, mid);
    var ws := SegmentWrites(seg, midpoint);
    forall k | k in FootPathKeys(seg.pois, mid)
      ensures k in ApplyAll(t, ws).streets && ApplyAll(t, ws).streets[k] == FootPath
    {
      var i :| 0 <= i < |seg.pois| &&
               (k == Key(mid) + Key(seg.pois[i].location) || k == Key(seg.pois[i].location) + Key(mid));
      SegmentPoiWritesAt(seg, midpoint, i);
      var at := if k == Key(mid) + Key(seg.pois[i].location) then |head| + 5 * i + 1 else |head| + 5 * i + 2;
      assert ws[at] == Street(k, FootPath);
      forall j | at < j < |ws| && ws[j].Street? && ws[j].key == k
        ensures ws[j].name == FootPath
      {
        SegmentStreetWrite(seg, midpoint, j);
      }
      StreetSettled(t, ws, at);
    }
  }

  /** A segment links start and end both ways, whether or not it has POIs; with POIs it also
      links start and end with the midpoint, both ways. */
  lemma SegmentLinks(t: Tables, seg: Segment, midpoint: (GeoPoint, GeoPoint) -> GeoPoint)
    requires HasNames(seg.pois)
    ensures var t' := ApplyAll(t, SegmentWrites(seg, midpoint));
            seg.end in Neighbours(t', Key(seg.start)) && seg.start in Neighbours(t', Key(seg.end))
    ensures var mid := midpoint(seg.start, seg.end);
            var t' := ApplyAll(t, SegmentWrites(seg, midpoint));
            seg.pois != [] ==>
              mid in Neighbours(t', Key(seg.start)) && seg.start in Neighbours(t', Key(mid)) &&
              seg.end in Neighbours(t', Key(mid)) && mid in Neighbours(t', Key(seg.end))
  {
    var mid := midpoint(seg.start, seg.end);
    var head := HeadWrites(seg, mid);
    var ws := SegmentWrites(seg, midpoint);
    assert ws[2] == head[2] && ws[3] == head[3];
    LinkRecorded(t, ws, 2);
    LinkRecorded(t, ws, 3);
    if seg.pois != [] {
      assert ws[8] == head[8] && ws[9] == head[9] && ws[10] == head[10] && ws[11] == head[11];
      LinkRecorded(t, ws, 8);
      LinkRecorded(t, ws, 9);
      LinkRecorded(t, ws, 10);
      LinkRecorded(t, ws, 11);
    }
  }

  /** A segment links its midpoint with each of its POIs, both ways. */
  lemma SegmentPoiLinks(t: Tables, seg: Segment, midpoint: (GeoPoint, GeoPoint) -> GeoPoint)
    requires HasNames(seg.pois)
    ensures var mid := midpoint(seg.start, seg.end);
            var t' := ApplyAll(t, SegmentWrites(seg, midpoint));
            forall i :: 0 <= i < |seg.pois| ==>
              seg.pois[i].location in Neighbours(t', Key(mid)) && mid in Neighbours(t', Key(seg.pois[i].location))
  {
    var mid := midpoint(seg.start, seg.end);
    var head := HeadWrites(seg, mid);
    var ws := SegmentWrites(seg, midpoint);
    forall i | 0 <= i < |seg.pois|
      ensures seg.pois[i].location in Neighbours(ApplyAll(t, ws), Key(mid))
      ensures mid in Neighbours(ApplyAll(t, ws), Key(seg.pois[i].location))
    {
      SegmentPoiWritesAt(seg, midpoint, i);
      LinkRecorded(t, ws, |head| + 5 * i + 3);
      LinkRecorded(t, ws, |head| + 5 * i + 4);
    }
  }

  /** Existing adjacency lists keep their order: any sequence of writes only appends. */
  lemma ListsOnlyGrow(t: Tables, ws: seq<Write>)
    ensures forall k :: Neighbours(t, k) <= Neighbours(ApplyAll(t, ws), k)
  {
    forall k
      ensures Neighbours(t, k) <= Neighbours(ApplyAll(t, ws), k)
    {
      LinksAppended(t, ws, k);
    }
  }

  /** A segment without POIs registers no midpoint: it adds exactly the start-end and end-start
      street keys, the start and end adjacency lists, and no POI. */
  lemma SegmentWithoutPois(t: Tables, seg: Segment, midpoint: (GeoPoint, GeoPoint) -> GeoPoint)
    requires seg.pois == []
    ensures var t' := ApplyAll(t, SegmentWrites(seg, midpoint));
            var s, e := Key(seg.start), Key(seg.end);
            t'.pois == t.pois &&
            t'.streets.Keys == t.streets.Keys + {s + e, e + s} &&
            t'.links.Keys == t.links.Keys + {s, e}
  {
    var ws := SegmentWrites(seg, midpoint);
    var w0, w1, w2, w3 := ws[0], ws[1], ws[2], ws[3];
    assert ws == [w0, w1, w2, w3];
    ApplyAllSnoc(t, [], w0);
    assert [w0, w1] == [w0] + [w1];
    ApplyAllSnoc(t, [w0], w1);
    assert [w0, w1, w2] == [w0, w1] + [w2];
    ApplyAllSnoc(t, [w0, w1], w2);
    assert [w0, w1, w2, w3] == [w0, w1, w2] + [w3];
    ApplyAllSnoc(t, [w0, w1, w2], w3);
  }

  /** Within a segment, the location of each POI whose name no later line of the segment repeats
      is what its name maps to afterwards. */
  lemma SegmentPois(t: Tables, seg: Segment, midpoint: (GeoPoint, GeoPoint) -> GeoPoint, i: nat)
    requires HasNames(seg.pois) && i < |seg.pois|
    requires forall j :: i < j < |seg.pois| ==> PoiName(seg.pois[j].text) != PoiName(seg.pois[i].text)
    ensures var t' := ApplyAll(t, SegmentWrites(seg, midpoint));
            PoiName(seg.pois[i].text) in t'.pois && t'.pois[PoiName(seg.pois[i].text)] == seg.pois[i].location
  {
    var mid := midpoint(seg.start, seg.end);
    var head := HeadWrites(seg, mid);
    var ws := SegmentWrites(seg, midpoint);
    SegmentPoiWritesAt(seg, midpoint, i);
    var at := |head| + 5 * i;
    forall j | at < j < |ws| && ws[j].Poi?
      ensures ws[j].poi != ws[at].poi
    {
      assert ws[j] == AllPoiWrites(seg.pois, mid)[j - |head|];
      PoiPoiWrites(seg.pois, mid, j - |head|);
    }
    PoiLastWins(t, ws, at);
  }

  // ---------------------------------------------------------------------------------------
  // Properties of a whole load

  /** The names of the POI lines of one record. */
  function PoiNames(pois: seq<PoiLine>): set<string>
    requires HasNames(pois)
  {
    set j | 0 <= j < |pois| :: PoiName(pois[j].text)
  }

  /** The names of the POI lines of a list of records. */
  function LoadedNames(segs: seq<Segment>): set<string>
    requires AllHaveNames(segs)
  {
    if segs == [] then {} else LoadedNames(segs[..|segs| - 1]) + PoiNames(segs[|segs| - 1].pois)
  }

  lemma SegmentPoiWrites(seg: Segment, midpoint: (GeoPoint, GeoPoint) -> GeoPoint, j: nat)
    requires HasNames(seg.pois) && j < |SegmentWrites(seg, midpoint)| && SegmentWrites(seg, midpoint)[j].Poi?
    ensures SegmentWrites(seg, midpoint)[j].poi in PoiNames(seg.pois)
  {
    var mid := midpoint(seg.start, seg.end);
    var h := HeadWrites(seg, mid);
    var w := SegmentWrites(seg, midpoint)[j];
    if j >= |h| {
      assert w == AllPoiWrites(seg.pois, mid)[j - |h|];
      PoiPoiWrites(seg.pois, mid, j - |h|);
      var q :| 0 <= q < |seg.pois| && w == Poi(PoiName(seg.pois[q].text), seg.pois[q].location);
    }
  }

  lemma {:induction false} LoadPoiWrites(segs: seq<Segment>, midpoint: (GeoPoint, GeoPoint) -> GeoPoint, j: nat)
    requires AllHaveNames(segs) && j < |LoadWrites(segs, midpoint)| && LoadWrites(segs, midpoint)[j].Poi?
    ensures LoadWrites(segs, midpoint)[j].poi in LoadedNames(segs)
  {
    var n := |segs|;
    var prefix, last := segs[..n - 1], segs[n - 1];
    var a := LoadWrites(prefix, midpoint);
    if j < |a| {
      LoadPoiWrites(prefix, midpoint, j);
    } else {
      SegmentPoiWrites(last, midpoint, j - |a|);
    }
  }

  /** get_poi_location fails for a name that no loaded line carries. */
  lemma PoiNeverLoaded(t: Tables, segs: seq<Segment>, midpoint: (GeoPoint, GeoPoint) -> GeoPoint, name: string)
    requires AllHaveNames(segs) && name !in t.pois && name !in LoadedNames(segs)
    ensures name !in ApplyAll(t, LoadWrites(segs, midpoint)).pois
  {
    var ws := LoadWrites(segs, midpoint);
    forall j | 0 <= j < |ws| && ws[j].Poi?
      ensures ws[j].poi != name
    {
      LoadPoiWrites(segs, midpoint, j);
    }
    PoiUnwritten(t, ws, name);
  }

  /** Some point linked from the point whose string is a has the string b. */
  ghost predicate Linked(t: Tables, a: string, b: string)
  {
    exists i :: 0 <= i < |Neighbours(t, a)| && Key(Neighbours(t, a)[i]) == b
  }

  /** The adjacency is undirected, up to point strings. */
  ghost predicate Symmetric(t: Tables)
  {
    forall a, b :: Linked(t, a, b) ==> Linked(t, b, a)
  }

  /** A list of writes whose Link writes come in back-to-back opposite pairs. */
  predicate Paired(ws: seq<Write>)
    decreases |ws|
  {
    if ws == [] then true
    else if !ws[0].Link? then Paired(ws[1..])
    else |ws| >= 2 && ws[1].Link? && ws[0].from == Key(ws[1].to) && ws[1].from == Key(ws[0].to) &&
         Paired(ws[2..])
  }

  lemma {:induction false} PairedAppend(a: seq<Write>, b: seq<Write>)
    requires Paired(a) && Paired(b)
    ensures Paired(a + b)
    decreases |a|
  {
    if a != [] {
      if !a[0].Link? {
        assert (a + b)[1..] == a[1..] + b;
        PairedAppend(a[1..], b);
      } else {
        assert (a + b)[2..] == a[2..] + b;
        PairedAppend(a[2..], b);
      }
    } else {
      assert a + b == b;
    }
  }

  lemma EdgeWritesPaired(street: string, start: GeoPoint, end: GeoPoint)
    ensures Paired(EdgeWrites(street, start, end))
  {
    var w := EdgeWrites(street, start, end);
    assert Paired(w[2..]) by {
      assert w[2..][2..] == [];
    }
    assert w[1..][1..] == w[2..];
  }

  lemma MidpointWritesPaired(street: string, start: GeoPoint, end: GeoPoint, mid: GeoPoint)
    ensures Paired(MidpointWrites(street, start, end, mid))
  {
    var w := MidpointWrites(street, start, end, mid);
    assert Paired(w[6..]) by {
      assert w[6..][2..] == [];
    }
    assert Paired(w[4..]) by {
      assert w[4..][2..] == w[6..];
    }
    assert Paired(w[3..]) by {
      assert w[3..][1..] == w[4..];
    }
    assert Paired(w[2..]) by {
      assert w[2..][1..] == w[3..];
    }
    assert Paired(w[1..]) by {
      assert w[1..][1..] == w[2..];
    }
  }

  lemma PoiWritesPaired(p: PoiLine, mid: GeoPoint)
    requires '|' in p.text
    ensures Paired(PoiWrites(p, mid))
  {
    var w := PoiWrites(p, mid);
    assert Paired(w[3..]) by {
      assert w[3..][2..] == [];
    }
    assert w[2..][1..] == w[3..];
    assert w[1..][1..] == w[2..];
  }

  lemma {:induction false} AllPoiWritesPaired(pois: seq<PoiLine>, mid: GeoPoint)
    requires HasNames(pois)
    ensures Paired(AllPoiWrites(pois, mid))
  {
    if pois != [] {
      AllPoiWritesPaired(pois[..|pois| - 1], mid);
      PoiWritesPaired(pois[|pois| - 1], mid);
      PairedAppend(AllPoiWrites(pois[..|pois| - 1], mid), PoiWrites(pois[|pois| - 1], mid));
    }
  }

  lemma SegmentWritesPaired(seg: Segment, midpoint: (GeoPoint, GeoPoint) -> GeoPoint)
    requires HasNames(seg.pois)
    ensures Paired(SegmentWrites(seg, midpoint))
  {
    var mid := midpoint(seg.start, seg.end);
    EdgeWritesPaired(seg.street, seg.start, seg.end);
    if seg.pois != [] {
      MidpointWritesPaired(seg.street, seg.start, seg.end, mid);
      PairedAppend(EdgeWrites(seg.street, seg.start, seg.end), MidpointWrites(seg.street, seg.start, seg.end, mid));
    } else {
      assert HeadWrites(seg, mid) == EdgeWrites(seg.street, seg.start, seg.end);
    }
    AllPoiWritesPaired(seg.pois, mid);
    PairedAppend(HeadWrites(seg, mid), AllPoiWrites(seg.pois, mid));
  }

  lemma {:induction false} LoadWritesPaired(segs: seq<Segment>, midpoint: (GeoPoint, GeoPoint) -> GeoPoint)
    requires AllHaveNames(segs)
    ensures Paired(LoadWrites(segs, midpoint))
  {
    if segs != [] {
      LoadWritesPaired(segs[..|segs| - 1], midpoint);
      SegmentWritesPaired(segs[|segs| - 1], midpoint);
      PairedAppend(LoadWrites(segs[..|segs| - 1], midpoint), SegmentWrites(segs[|segs| - 1], midpoint));
    }
  }

  /** Writes never remove a neighbour. */
  lemma ApplyGrows(t: Tables, w: Write, a: string, b: string)
    requires Linked(t, a, b)
    ensures Linked(Apply(t, w), a, b)
  {
    var i :| 0 <= i < |Neighbours(t, a)| && Key(Neighbours(t, a)[i]) == b;
    assert Neighbours(Apply(t, w), a)[i] == Neighbours(t, a)[i];
  }

  lemma ApplyKeepsSymmetric(t: Tables, w: Write)
    requires Symmetric(t) && !w.Link?
    ensures Symmetric(Apply(t, w))
  {
    var t' := Apply(t, w);
    assert t'.links == t.links;
    forall a, b | Linked(t', a, b)
      ensures Linked(t', b, a)
    {
      assert Neighbours(t', a) == Neighbours(t, a);
      assert Neighbours(t', b) == Neighbours(t, b);
      assert Linked(t, a, b);
    }
  }

  /** A pair of opposite links keeps the adjacency undirected. */
  lemma ApplyPairKeepsSymmetric(t: Tables, w1: Write, w2: Write)
    requires Symmetric(t) && w1.Link? && w2.Link? && w1.from == Key(w2.to) && w2.from == Key(w1.to)
    ensures Symmetric(Apply(Apply(t, w1), w2))
  {
    var t1 := Apply(t, w1);
    var t2 := Apply(t1, w2);
    assert Linked(t2, w1.from, w2.from) by {
      var n1 := Neighbours(t1, w1.from);
      assert n1[|n1| - 1] == w1.to;
      ApplyGrows(t1, w2, w1.from, w2.from);
    }
    assert Linked(t2, w2.from, w1.from) by {
      var n2 := Neighbours(t2, w2.from);
      assert n2[|n2| - 1] == w2.to;
    }
    forall a, b | Linked(t2, a, b)
      ensures Linked(t2, b, a)
    {
      var i :| 0 <= i < |Neighbours(t2, a)| && Key(Neighbours(t2, a)[i]) == b;
      if a == w2.from && i == |Neighbours(t2, a)| - 1 {
        assert b == w1.from;
      } else if a == w1.from && i == |Neighbours(t1, a)| - 1 && (a != w2.from || i < |Neighbours(t2, a)| - 1) {
        assert Neighbours(t2, a)[i] == Neighbours(t1, a)[i] == w1.to;
      } else {
        assert Linked(t, a, b) by {
          assert Neighbours(t, a)[i] == Neighbours(t2, a)[i];
        }
        ApplyGrows(t, w1, b, a);
        ApplyGrows(t1, w2, b, a);
      }
    }
  }

  lemma ApplyAllCons(t: Tables, ws: seq<Write>)
    requires ws != []
    ensures ApplyAll(t, ws) == ApplyAll(Apply(t, ws[0]), ws[1..])
  {
    ApplyAllAppend(t, ws[..1], ws[1..]);
    assert ws[..1] + ws[1..] == ws;
    assert ws[..1][..0] == [];
  }

  lemma {:induction false} PairedKeepsSymmetric(t: Tables, ws: seq<Write>)
    requires Symmetric(t) && Paired(ws)
    ensures Symmetric(ApplyAll(t, ws))
    decreases |ws|
  {
    if ws != [] {
      ApplyAllCons(t, ws);
      if !ws[0].Link? {
        ApplyKeepsSymmetric(t, ws[0]);
        PairedKeepsSymmetric(Apply(t, ws[0]), ws[1..]);
      } else {
        ApplyPairKeepsSymmetric(t, ws[0], ws[1]);
        ApplyAllCons(Apply(t, ws[0]), ws[1..]);
        assert ws[1..][1..] == ws[2..];
        PairedKeepsSymmetric(Apply(Apply(t, ws[0]), ws[1]), ws[2..]);
      }
    }
  }

  /** Loading keeps the adjacency undirected: if the point string a lists a neighbour with
      string b, then b lists a neighbour with string a. */
  lemma LoadKeepsSymmetric(t: Tables, segs: seq<Segment>, midpoint: (GeoPoint, GeoPoint) -> GeoPoint)
    requires AllHaveNames(segs) && Symmetric(t)
    ensures Symmetric(ApplyAll(t, LoadWrites(segs, midpoint)))
  {
    LoadWritesPaired(segs, midpoint);
    PairedKeepsSymmetric(t, LoadWrites(segs, midpoint));
  }

  lemma PoiStep(t: Tables, pois: seq<PoiLine>, mid: GeoPoint, i: nat)
    requires HasNames(pois) && i < |pois|
    ensures ApplyAll(t, AllPoiWrites(pois[..i + 1], mid)) ==
            ApplyAll(ApplyAll(t, AllPoiWrites(pois[..i], mid)), PoiWrites(pois[i], mid))
  {
    assert pois[..i + 1][..i] == pois[..i];
    ApplyAllAppend(t, AllPoiWrites(pois[..i], mid), PoiWrites(pois[i], mid));
  }

  lemma LoadStep(t: Tables, segs: seq<Segment>, midpoint: (GeoPoint, GeoPoint) -> GeoPoint, i: nat)
    requires AllHaveNames(segs) && i < |segs|
    ensures ApplyAll(t, LoadWrites(segs[..i + 1], midpoint)) ==
            ApplyAll(ApplyAll(t, LoadWrites(segs[..i], midpoint)), SegmentWrites(segs[i], midpoint))
  {
    assert segs[..i + 1][..i] == segs[..i];
    ApplyAllAppend(t, LoadWrites(segs[..i], midpoint), SegmentWrites(segs[i], midpoint));
  }

  // ---------------------------------------------------------------------------------------
  // The database

  class GeoDatabase {
    const poiMap: HashMap<GeoPoint>
    const connectionsMap: HashMap<seq<GeoPoint>>
    const streetMap: HashMap<string>

    ghost predicate Valid()
      reads poiMap, connectionsMap, streetMap
    {
      && poiMap.Valid() && connectionsMap.Valid() && streetMap.Valid()
      && poiMap as object != connectionsMap as object
      && poiMap as object != streetMap as object
      && connectionsMap as object != streetMap as object
    }

    /** The abstract contents of the three maps. */
    ghost function State(): Tables
      reads poiMap, connectionsMap, streetMap
    {
      Tables(poiMap.Contents, connectionsMap.Contents, streetMap.Contents)
    }

    /** An empty database; each map has the default load factor 0.75. */
    constructor (hash: string -> nat)
      ensures Valid() && State() == Tables(map[], map[], map[])
      ensures fresh(poiMap) && fresh(connectionsMap) && fresh(streetMap)
    {
      poiMap := new HashMap<GeoPoint>(0.75, hash);
      connectionsMap := new HashMap<seq<GeoPoint>>(0.75, hash);
      streetMap := new HashMap<string>(0.75, hash);
    }

    /** m_streetMap.insert(key, name). */
    method PutStreet(key: string, name: string)
      requires Valid()
      modifies streetMap
      ensures Valid() && State() == Apply(old(State()), Street(key, name))
    {
      streetMap.Insert(key, name);
    }

    /** m_connectionsMap[key].push_back(p): operator[] then an append to the list it names. */
    method AddLink(key: string, p: GeoPoint)
      requires Valid()
      modifies connectionsMap
      ensures Valid() && State() == Apply(old(State()), Link(key, p))
    {
      var list := connectionsMap.Index(key, []);
      connectionsMap.Insert(key, list + [p]);
    }

    /** m_poiMap.insert(name, location). */
    method PutPoi(name: string, location: GeoPoint)
      requires Valid()
      modifies poiMap
      ensures Valid() && State() == Apply(old(State()), Poi(name, location))
    {
      poiMap.Insert(name, location);
    }

    /** The street names and links between a segment's end points. */
    method AddEdge(street: string, start: GeoPoint, end: GeoPoint)
      requires Valid()
      modifies poiMap, connectionsMap, streetMap
      ensures Valid() && State() == ApplyAll(old(State()), EdgeWrites(street, start, end))
    {
      ghost var rest := EdgeWrites(street, start, end);
      ApplyAllCons(State(), rest);
      PutStreet(Key(start) + Key(end), street);
      rest := rest[1..];
      ApplyAllCons(State(), rest);
      PutStreet(Key(end) + Key(start), street);
      rest := rest[1..];
      ApplyAllCons(State(), rest);
      AddLink(Key(start), end);
      rest := rest[1..];
      ApplyAllCons(State(), rest);
      AddLink(Key(end), start);
      rest := rest[1..];
      assert rest == [];
    }

    /** The street names and links through the midpoint of a segment that has POIs. */
    method AddMidpoint(street: string, start: GeoPoint, end: GeoPoint, mid: GeoPoint)
      requires Valid()
      modifies poiMap, connectionsMap, streetMap
      ensures Valid() && State() == ApplyAll(old(State()), MidpointWrites(street, start, end, mid))
    {
      ghost var rest := MidpointWrites(street, start, end, mid);
      ApplyAllCons(State(), rest);
      PutStreet(Key(start) + Key(mid), street);
      rest := rest[1..];
      ApplyAllCons(State(), rest);
      PutStreet(Key(mid) + Key(start), street);
      rest := rest[1..];
      ApplyAllCons(State(), rest);
      PutStreet(Key(mid) + Key(end), street);
      rest := rest[1..];
      ApplyAllCons(State(), rest);
      PutStreet(Key(end) + Key(mid), street);
      rest := rest[1..];
      ApplyAllCons(State(), rest);
      AddLink(Key(start), mid);
      rest := rest[1..];
      ApplyAllCons(State(), rest);
      AddLink(Key(mid), start);
      rest := rest[1..];
      ApplyAllCons(State(), rest);
      AddLink(Key(mid), end);
      rest := rest[1..];
      ApplyAllCons(State(), rest);
      AddLink(Key(end), mid);
      rest := rest[1..];
      assert rest == [];
    }

    /** The body of the POI loop: the name, the foot path both ways and the links both ways. */
    method AddPoi(line: PoiLine, mid: GeoPoint)
      requires Valid() && '|' in line.text
      modifies poiMap, connectionsMap, streetMap
      ensures Valid() && State() == ApplyAll(old(State()), PoiWrites(line, mid))
    {
      var name := ReadPoiName(line.text);
      var poi := line.location;
      ghost var rest := PoiWrites(line, mid);
      ApplyAllCons(State(), rest);
      PutPoi(name, poi);
      rest := rest[1..];
      ApplyAllCons(State(), rest);
      PutStreet(Key(mid) + Key(poi), FootPath);
      rest := rest[1..];
      ApplyAllCons(State(), rest);
      PutStreet(Key(poi) + Key(mid), FootPath);
      rest := rest[1..];
      ApplyAllCons(State(), rest);
      AddLink(Key(mid), poi);
      rest := rest[1..];
      ApplyAllCons(State(), rest);
      AddLink(Key(poi), mid);
      rest := rest[1..];
      assert rest == [];
    }

    /** The body of the loading loop for one segment record. */
    method AddSegment(seg: Segment, midpoint: (GeoPoint, GeoPoint) -> GeoPoint)
      requires Valid() && HasNames(seg.pois)
      modifies poiMap, connectionsMap, streetMap
      ensures Valid() && State() == ApplyAll(old(State()), SegmentWrites(seg, midpoint))
    {
      ghost var t0 := State();
      AddEdge(seg.street, seg.start, seg.end);
      var mid := midpoint(seg.start, seg.end);
      if |seg.pois| >= 1 {
        AddMidpoint(seg.street, seg.start, seg.end, mid);
        ApplyAllAppend(t0, EdgeWrites(seg.street, seg.start, seg.end), MidpointWrites(seg.street, seg.start, seg.end, mid));
      } else {
        assert HeadWrites(seg, mid) == EdgeWrites(seg.street, seg.start, seg.end);
      }
      AddPois(seg.pois, mid);
      ApplyAllAppend(t0, HeadWrites(seg, mid), AllPoiWrites(seg.pois, mid));
    }

    /** The POI loop of one segment record. */
    method AddPois(pois: seq<PoiLine>, mid: GeoPoint)
      requires Valid() && HasNames(pois)
      modifies poiMap, connectionsMap, streetMap
      ensures Valid() && State() == ApplyAll(old(State()), AllPoiWrites(pois, mid))
    {
      ghost var t0 := State();
      var i := 0;
      while i < |pois|
        invariant i <= |pois| && Valid()
        invariant State() == ApplyAll(t0, AllPoiWrites(pois[..i], mid))
      {
        AddPoi(pois[i], mid);
        PoiStep(t0, pois, mid, i);
        i := i + 1;
      }
      assert pois[..i] == pois;
    }

    /** load, over already-parsed records: the maps end up as the writes of every record,
        in order, applied to what they held before. */
    method Load(segs: seq<Segment>, midpoint: (GeoPoint, GeoPoint) -> GeoPoint)
      requires Valid() && AllHaveNames(segs)
      modifies poiMap, connectionsMap, streetMap
      ensures Valid() && State() == ApplyAll(old(State()), LoadWrites(segs, midpoint))
    {
      ghost var t0 := State();
      var i := 0;
      while i < |segs|
        invariant i <= |segs| && Valid()
        invariant State() == ApplyAll(t0, LoadWrites(segs[..i], midpoint))
      {
        AddSegment(segs[i], midpoint);
        LoadStep(t0, segs, midpoint, i);
        i := i + 1;
      }
      assert segs[..i] == segs;
    }

    /** get_poi_location: true and the stored location for a known name; false, leaving the
        caller's point as it was, for an unknown one. */
    method GetPoiLocation(poi: string, point: GeoPoint) returns (found: bool, location: GeoPoint)
      requires Valid()
      ensures found <==> poi in State().pois
      ensures found ==> location == State().pois[poi]
      ensures !found ==> location == point
    {
      var r := poiMap.Find(poi);
      if r.None? {
        return false, point;
      }
      return true, r.value;
    }

    /** get_connected_points: a copy of the adjacency list of pt, empty for an unknown point. */
    method GetConnectedPoints(pt: GeoPoint) returns (connections: seq<GeoPoint>)
      requires Valid()
      ensures connections == Neighbours(State(), Key(pt))
    {
      connections := [];
      var r := connectionsMap.Find(Key(pt));
      if r.None? {
        return;
      }
      var list := r.value;
      var i := 0;
      while i < |list|
        invariant i <= |list| && connections == list[..i]
      {
        connections := connections + [list[i]];
        i := i + 1;
      }
      assert list[..i] == list;
    }

    /** get_street_name: the name stored for the pair, or the empty string. */
    method GetStreetName(pt1: GeoPoint, pt2: GeoPoint) returns (name: string)
      requires Valid()
      ensures name == if Key(pt1) + Key(pt2) in State().streets then State().streets[Key(pt1) + Key(pt2)] else ""
    {
      var r := streetMap.Find(Key(pt1) + Key(pt2));
      if r.None? {
        return "";
      }
      return r.value;
    }
  }
}
