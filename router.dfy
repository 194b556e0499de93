/**
 * The A* route finder.
 *
 * The search keeps an open set of (point, f-score) pairs ordered by f-score, a set of the keys
 * currently in the open set, and three tables keyed by the string form of a point: the
 * predecessor on the best path found so far, the g-score (cost from the start) and the f-score
 * (g-score plus the heuristic). A key absent from the g-score table stands for an infinite
 * score, which is what the default-constructed score wrapper of the program means.
 *
 * The road graph is the `connected` function (the database's neighbour query) and the cost of an
 * edge is the `distance` function; both are parameters.
 */
module Router {
  import opened GeoPoints

  /** An entry of the open set: a point and the f-score it was pushed with. */
  type Entry = (GeoPoint, real)

  /** The order of the min-heap: entries compare by f-score alone. */
  predicate Greater(lhs: Entry, rhs: Entry)
  {
    lhs.1 > rhs.1
  }

  function Abs(x: real): real
  {
    if x < 0.0 then -x else x
  }

  /** The heuristic: Manhattan distance between the numeric coordinates, in degrees. */
  function Heuristic(current: GeoPoint, end: GeoPoint): (h: real)
    ensures h >= 0.0
    ensures h == 0.0 <==> current.latitude == end.latitude && current.longitude == end.longitude
  {
    Abs(current.latitude - end.latitude) + Abs(current.longitude - end.longitude)
  }

  /** The end test compares the coordinate strings, never the numbers. */
  function IsAtEnd(current: GeoPoint, end: GeoPoint): (atEnd: bool)
    ensures atEnd ==> Key(current) == Key(end)
  {
    current.sLatitude == end.sLatitude && current.sLongitude == end.sLongitude
  }

  /** The state of the search between two steps. */
  datatype Search = Search(
    open: seq<Entry>,
    members: set<string>,
    prev: map<string, GeoPoint>,
    g: map<string, real>,
    f: map<string, real>)

  function OpenKeys(open: seq<Entry>): set<string>
  {
    set i | 0 <= i < |open| :: Key(open[i].0)
  }

  predicate KeysDistinct(open: seq<Entry>)
  {
    forall i, j :: 0 <= i < j < |open| ==> Key(open[i].0) != Key(open[j].0)
  }

  /** The membership set holds exactly the keys of the open set, and no key is open twice. */
  predicate OpenMatches(s: Search)
  {
    s.members == OpenKeys(s.open) && KeysDistinct(s.open)
  }

  /** The start of the search: only the start point is open, with g-score 0. */
  function Start(pt1: GeoPoint, pt2: GeoPoint): (s: Search)
    ensures OpenMatches(s)
    ensures s.open == [(pt1, Heuristic(pt1, pt2))] && s.members == {Key(pt1)}
    ensures s.prev == map[] && s.g == map[Key(pt1) := 0.0] && s.f == map[Key(pt1) := Heuristic(pt1, pt2)]
  {
    var e := (pt1, Heuristic(pt1, pt2));
    assert Key([e][0].0) in OpenKeys([e]);
    Search([e], {Key(pt1)}, map[], map[Key(pt1) := 0.0], map[Key(pt1) := Heuristic(pt1, pt2)])
  }

  /** Index of an entry of least f-score: what the top of the min-heap is. */
  method Top(open: seq<Entry>) returns (i: nat)
    requires open != []
    ensures i < |open|
    ensures forall j :: 0 <= j < |open| ==> !Greater(open[i], open[j])
  {
    i := 0;
    var j := 1;
    while j < |open|
      invariant 1 <= j <= |open| && i < j
      invariant forall k :: 0 <= k < j ==> !Greater(open[i], open[k])
    {
      if Greater(open[i], open[j]) {
        i := j;
      }
      j := j + 1;
    }
  }

  lemma OpenKeysRemove(open: seq<Entry>, i: nat)
    requires i < |open|
    ensures KeysDistinct(open) ==>
      KeysDistinct(open[..i] + open[i + 1..]) &&
      OpenKeys(open[..i] + open[i + 1..]) == OpenKeys(open) - {Key(open[i].0)}
  {
    if !KeysDistinct(open) { return; }
    var rest := open[..i] + open[i + 1..];
    forall a, b | 0 <= a < b < |rest|
      ensures Key(rest[a].0) != Key(rest[b].0)
    {
      var a' := if a < i then a else a + 1;
      var b' := if b < i then b else b + 1;
      assert rest[a] == open[a'] && rest[b] == open[b'];
    }
    forall k | k in OpenKeys(rest)
      ensures k in OpenKeys(open) - {Key(open[i].0)}
    {
      var a :| 0 <= a < |rest| && Key(rest[a].0) == k;
      var a' := if a < i then a else a + 1;
      assert rest[a] == open[a'];
    }
    forall k | k in OpenKeys(open) - {Key(open[i].0)}
      ensures k in OpenKeys(rest)
    {
      var a :| 0 <= a < |open| && Key(open[a].0) == k;
      var a' := if a < i then a else a - 1;
      assert rest[a'] == open[a];
    }
  }

  lemma OpenKeysPush(open: seq<Entry>, e: Entry)
    ensures KeysDistinct(open) && Key(e.0) !in OpenKeys(open) ==>
      KeysDistinct(open + [e]) && OpenKeys(open + [e]) == OpenKeys(open) + {Key(e.0)}
  {
    if !KeysDistinct(open) || Key(e.0) in OpenKeys(open) { return; }
    var o := open + [e];
    forall a, b | 0 <= a < b < |o|
      ensures Key(o[a].0) != Key(o[b].0)
    {
      if b == |open| {
        assert Key(open[a].0) in OpenKeys(open);
      }
    }
    forall k | k in OpenKeys(open)
      ensures k in OpenKeys(o)
    {
      var a :| 0 <= a < |open| && Key(open[a].0) == k;
      assert o[a] == open[a];
    }
    assert o[|open|] == e;
  }

  /** Removal of the top entry from the open set and of its key from the membership set. */
  function Pop(s: Search, i: nat): (r: Search)
    requires i < |s.open|
    ensures r.open == s.open[..i] + s.open[i + 1..]
    ensures r.prev == s.prev && r.g == s.g && r.f == s.f
    ensures OpenMatches(s) ==> OpenMatches(r) && Key(s.open[i].0) !in r.members
  {
    OpenKeysRemove(s.open, i);
    s.(open := s.open[..i] + s.open[i + 1..], members := s.members - {Key(s.open[i].0)})
  }

  /** Whether going through `current` beats the best known score of `neighbour`. */
  predicate Improves(s: Search, current: GeoPoint, neighbour: GeoPoint, d: real)
    requires Key(current) in s.g
  {
    Key(neighbour) !in s.g || s.g[Key(current)] + d < s.g[Key(neighbour)]
  }

  /** One relaxation: the edge from `current` to `neighbour`, of cost `d`, is considered. */
  function Relax(s: Search, current: GeoPoint, neighbour: GeoPoint, d: real, end: GeoPoint): (r: Search)
    requires Key(current) in s.g
    // nothing changes unless the tentative score is strictly better
    ensures r == s <==> !Improves(s, current, neighbour, d)
    // scores only ever go down, and only the neighbour's entries can change
    ensures forall k :: k in s.g ==> k in r.g && r.g[k] <= s.g[k]
    ensures forall k :: k != Key(neighbour) ==>
      (k in r.g <==> k in s.g) && (k in r.g ==> r.g[k] == s.g[k]) &&
      (k in r.prev <==> k in s.prev) && (k in r.prev ==> r.prev[k] == s.prev[k]) &&
      (k in r.f <==> k in s.f) && (k in r.f ==> r.f[k] == s.f[k])
    ensures Improves(s, current, neighbour, d) ==>
      var k := Key(neighbour);
      k in r.g && r.g[k] == s.g[Key(current)] + d &&
      k in r.prev && r.prev[k] == current &&
      k in r.f && r.f[k] == r.g[k] + Heuristic(neighbour, end)
    // the open set only grows at its end, by the neighbour, and only when it was not open
    ensures |s.open| <= |r.open| <= |s.open| + 1 && r.open[..|s.open|] == s.open
    ensures |r.open| > |s.open| <==> Improves(s, current, neighbour, d) && Key(neighbour) !in s.members
    ensures |r.open| > |s.open| ==> r.open[|s.open|] == (neighbour, r.f[Key(neighbour)])
    ensures OpenMatches(s) ==> OpenMatches(r)
  {
    var k := Key(neighbour);
    var tentative := s.g[Key(current)] + d;
    if !Improves(s, current, neighbour, d) then s
    else
      var fScore := tentative + Heuristic(neighbour, end);
      var s1 := s.(prev := s.prev[k := current], g := s.g[k := tentative], f := s.f[k := fScore]);
      assert s1.g != s.g by { assert k !in s.g || s1.g[k] != s.g[k]; }
      if k in s.members then s1
      else
        assert s1.open + [(neighbour, fScore)] != s.open by {
          assert |s1.open + [(neighbour, fScore)]| != |s.open|;
        }
        OpenKeysPush(s.open, (neighbour, fScore));
        s1.(open := s.open + [(neighbour, fScore)], members := s.members + {k})
  }

  /** An edge of the road graph from `p` to a point whose key is `k`. */
  ghost predicate Step(connected: GeoPoint -> seq<GeoPoint>, p: GeoPoint, k: string)
  {
    exists j :: 0 <= j < |connected(p)| && Key(connected(p)[j]) == k
  }

  /**
   * `a` comes strictly before `b` in the order in which scores were settled: a lower g-score,
   * or the same g-score given earlier. `stamp` records when each score was last written.
   */
  ghost predicate Below(g: map<string, real>, stamp: map<string, nat>, a: string, b: string)
    requires a in g && b in g && a in stamp && b in stamp
  {
    g[a] < g[b] || (g[a] == g[b] && stamp[a] < stamp[b])
  }

  /** Scores: non-negative, stamped before `clock`; the start scores 0, every other point has a predecessor. */
  ghost predicate Scored(s: Search, stamp: map<string, nat>, clock: nat, pt1: GeoPoint)
  {
    && s.g.Keys == stamp.Keys
    && (forall k :: k in stamp ==> stamp[k] < clock)
    && (forall k :: k in s.g ==> s.g[k] >= 0.0)
    && Key(pt1) in s.g && s.g[Key(pt1)] == 0.0
    && Key(pt1) !in s.prev
    && (forall k :: k in s.g ==> k == Key(pt1) || k in s.prev)
  }

  /**
   * Predecessor links: each joins two scored points, is an edge of the graph and goes strictly
   * down in (g-score, stamp) — so following links always ends; a link to the start's key is the
   * start itself.
   */
  ghost predicate Linked(g: map<string, real>, prev: map<string, GeoPoint>, stamp: map<string, nat>,
                         pt1: GeoPoint, connected: GeoPoint -> seq<GeoPoint>)
  {
    && g.Keys == stamp.Keys
    && (forall k :: k in prev ==> k in g && Key(prev[k]) in g)
    && (forall k :: k in prev ==> Below(g, stamp, Key(prev[k]), k))
    && (forall k :: k in prev ==> Step(connected, prev[k], k))
    && (forall k :: k in prev && Key(prev[k]) == Key(pt1) ==> prev[k] == pt1)
  }

  /** The open set: membership matches it, every open point is scored, the start's key is the start. */
  ghost predicate Opened(s: Search, pt1: GeoPoint)
  {
    && OpenMatches(s)
    && (forall i :: 0 <= i < |s.open| ==> Key(s.open[i].0) in s.g)
    && (forall i :: 0 <= i < |s.open| && Key(s.open[i].0) == Key(pt1) ==> s.open[i].0 == pt1)
  }

  /** The invariant of the search loop. */
  ghost predicate Inv(s: Search, stamp: map<string, nat>, clock: nat, pt1: GeoPoint,
                      connected: GeoPoint -> seq<GeoPoint>)
  {
    Scored(s, stamp, clock, pt1) && Linked(s.g, s.prev, stamp, pt1, connected) && Opened(s, pt1)
  }

  lemma StartInv(pt1: GeoPoint, pt2: GeoPoint, connected: GeoPoint -> seq<GeoPoint>)
    ensures Inv(Start(pt1, pt2), map[Key(pt1) := 0], 1, pt1, connected)
  {
  }

  lemma PopKeepsInv(s: Search, stamp: map<string, nat>, clock: nat, pt1: GeoPoint,
                    connected: GeoPoint -> seq<GeoPoint>, i: nat)
    requires Inv(s, stamp, clock, pt1, connected) && i < |s.open|
    ensures Inv(Pop(s, i), stamp, clock, pt1, connected)
  {
    var r := Pop(s, i);
    forall a | 0 <= a < |r.open|
      ensures Key(r.open[a].0) in r.g
      ensures Key(r.open[a].0) == Key(pt1) ==> r.open[a].0 == pt1
    {
      var a' := if a < i then a else a + 1;
      assert r.open[a] == s.open[a'];
    }
  }

  /** The stamps after a relaxation: the neighbour's score, if rewritten, is stamped `clock`. */
  ghost function Restamp(s: Search, stamp: map<string, nat>, clock: nat, current: GeoPoint,
                         neighbour: GeoPoint, d: real): map<string, nat>
    requires Key(current) in s.g
  {
    if Improves(s, current, neighbour, d) then stamp[Key(neighbour) := clock] else stamp
  }

  lemma RelaxKeepsScored(s: Search, stamp: map<string, nat>, clock: nat, pt1: GeoPoint,
                         current: GeoPoint, neighbour: GeoPoint, d: real, end: GeoPoint)
    requires Scored(s, stamp, clock, pt1) && Key(current) in s.g && d >= 0.0
    requires Improves(s, current, neighbour, d)
    ensures Key(neighbour) != Key(pt1) && Key(neighbour) != Key(current)
    ensures Scored(Relax(s, current, neighbour, d, end), stamp[Key(neighbour) := clock], clock + 1, pt1)
  {
  }

  /** Predecessor links still go down after the score of `n` drops to `t` through `cur`. */
  lemma LinksStillBelow(g: map<string, real>, stamp: map<string, nat>, clock: nat,
                        prev: map<string, GeoPoint>, n: string, cur: GeoPoint, t: real)
    requires g.Keys == stamp.Keys && (forall a :: a in stamp ==> stamp[a] < clock)
    requires Key(cur) in g && g[Key(cur)] <= t && n != Key(cur) && (n in g ==> t < g[n])
    requires forall a :: a in prev ==> a in g && Key(prev[a]) in g && Below(g, stamp, Key(prev[a]), a)
    ensures var g', prev' := g[n := t], prev[n := cur];
      forall k :: k in prev' ==> k in g' && Key(prev'[k]) in g' && Below(g', stamp[n := clock], Key(prev'[k]), k)
  {
  }

  /** Predecessor links are still edges after `n`, a neighbour of `cur`, is linked to it. */
  lemma LinksStillSteps(connected: GeoPoint -> seq<GeoPoint>, prev: map<string, GeoPoint>,
                        cur: GeoPoint, j: nat)
    requires j < |connected(cur)|
    requires forall a :: a in prev ==> Step(connected, prev[a], a)
    ensures var prev' := prev[Key(connected(cur)[j]) := cur];
      forall k :: k in prev' ==> Step(connected, prev'[k], k)
  {
    var n := Key(connected(cur)[j]);
    assert Step(connected, cur, n);
  }

  /** An improving relaxation rewrites exactly the neighbour's score and predecessor. */
  lemma RelaxImproved(s: Search, current: GeoPoint, neighbour: GeoPoint, d: real, end: GeoPoint)
    requires Key(current) in s.g && Improves(s, current, neighbour, d)
    ensures var r := Relax(s, current, neighbour, d, end);
      r.g == s.g[Key(neighbour) := s.g[Key(current)] + d] &&
      r.prev == s.prev[Key(neighbour) := current]
  {
  }

  lemma RelaxKeepsLinked(s: Search, stamp: map<string, nat>, clock: nat, pt1: GeoPoint,
                         connected: GeoPoint -> seq<GeoPoint>, current: GeoPoint, j: nat, d: real)
    requires Scored(s, stamp, clock, pt1) && Linked(s.g, s.prev, stamp, pt1, connected)
    requires Key(current) in s.g && (Key(current) == Key(pt1) ==> current == pt1)
    requires j < |connected(current)| && d >= 0.0 && Improves(s, current, connected(current)[j], d)
    ensures var n := Key(connected(current)[j]);
      Linked(s.g[n := s.g[Key(current)] + d], s.prev[n := current], stamp[n := clock], pt1, connected)
  {
    var n := Key(connected(current)[j]);
    LinksStillBelow(s.g, stamp, clock, s.prev, n, current, s.g[Key(current)] + d);
    LinksStillSteps(connected, s.prev, current, j);
  }

  lemma RelaxKeepsOpened(s: Search, pt1: GeoPoint, current: GeoPoint, neighbour: GeoPoint,
                         d: real, end: GeoPoint)
    requires Opened(s, pt1) && Key(current) in s.g && Key(neighbour) != Key(pt1)
    ensures Opened(Relax(s, current, neighbour, d, end), pt1)
  {
    var r := Relax(s, current, neighbour, d, end);
    forall i | 0 <= i < |r.open|
      ensures Key(r.open[i].0) in r.g
      ensures Key(r.open[i].0) == Key(pt1) ==> r.open[i].0 == pt1
    {
      if i < |s.open| {
        assert r.open[i] == s.open[i];
      }
    }
  }

  lemma RelaxKeepsInv(s: Search, stamp: map<string, nat>, clock: nat, pt1: GeoPoint,
                      connected: GeoPoint -> seq<GeoPoint>, current: GeoPoint, j: nat,
                      d: real, end: GeoPoint)
    requires Inv(s, stamp, clock, pt1, connected)
    requires Key(current) in s.g && (Key(current) == Key(pt1) ==> current == pt1)
    requires j < |connected(current)| && d >= 0.0
    ensures var neighbour := connected(current)[j];
      Inv(Relax(s, current, neighbour, d, end),
          Restamp(s, stamp, clock, current, neighbour, d), clock + 1, pt1, connected)
  {
    var neighbour := connected(current)[j];
    if Improves(s, current, neighbour, d) {
      RelaxKeepsScored(s, stamp, clock, pt1, current, neighbour, d, end);
      RelaxKeepsLinked(s, stamp, clock, pt1, connected, current, j, d);
      RelaxImproved(s, current, neighbour, d, end);
      RelaxKeepsOpened(s, pt1, current, neighbour, d, end);
    }
  }

  /** The keys settled strictly before `k`. */
  ghost function Lower(g: map<string, real>, stamp: map<string, nat>, k: string): set<string>
    requires g.Keys == stamp.Keys
  {
    set a | a in g && k in g && Below(g, stamp, a, k)
  }

  lemma LowerShrinks(g: map<string, real>, stamp: map<string, nat>, a: string, b: string)
    requires g.Keys == stamp.Keys && a in g && b in g && Below(g, stamp, a, b)
    ensures |Lower(g, stamp, a)| < |Lower(g, stamp, b)|
  {
    var la := Lower(g, stamp, a);
    var lb := Lower(g, stamp, b);
    assert la <= lb;
    assert a in lb - la;
    assert lb == la + (lb - la);
    assert |lb| == |la| + |lb - la|;
  }

  /** Follows predecessor links back from `end`; the path runs from the first point without one. */
  method ReconstructPath(prev: map<string, GeoPoint>, end: GeoPoint,
                         ghost g: map<string, real>, ghost stamp: map<string, nat>)
    returns (path: seq<GeoPoint>)
    requires g.Keys == stamp.Keys && Key(end) in g
    requires forall k :: k in prev ==> k in g && Key(prev[k]) in g && Below(g, stamp, Key(prev[k]), k)
    ensures |path| >= 1 && path[|path| - 1] == end
    ensures Key(path[0]) !in prev && Key(path[0]) in g
    ensures forall i :: 1 <= i < |path| ==> Key(path[i]) in prev && path[i - 1] == prev[Key(path[i])]
  {
    var current := end;
    path := [current];
    while Key(current) in prev
      invariant |path| >= 1 && path[0] == current && path[|path| - 1] == end && Key(current) in g
      invariant forall i :: 1 <= i < |path| ==> Key(path[i]) in prev && path[i - 1] == prev[Key(path[i])]
      decreases |Lower(g, stamp, Key(current))|
    {
      LowerShrinks(g, stamp, Key(prev[Key(current)]), Key(current));
      current := prev[Key(current)];
      path := [current] + path;
    }
  }

  /**
   * The A* search from `pt1` to `pt2`. The program loops while the open set is non-empty;
   * here at most `fuel` points are expanded, and running out of fuel returns the empty path,
   * as an exhausted open set does.
   */
  method Route(connected: GeoPoint -> seq<GeoPoint>, distance: (GeoPoint, GeoPoint) -> real,
               pt1: GeoPoint, pt2: GeoPoint, fuel: nat) returns (path: seq<GeoPoint>)
    requires NonNegative(distance)
    ensures path != [] ==> path[0] == pt1 && IsAtEnd(path[|path| - 1], pt2)
    ensures forall i :: 0 <= i < |path| - 1 ==> Step(connected, path[i], Key(path[i + 1]))
    ensures IsAtEnd(pt1, pt2) && fuel > 0 ==> path == [pt1]
  {
    var s := Start(pt1, pt2);
    ghost var stamp: map<string, nat> := map[Key(pt1) := 0];
    ghost var clock: nat := 1;
    StartInv(pt1, pt2, connected);
    var expanded := 0;
    while s.open != [] && expanded < fuel
      invariant expanded <= fuel
      invariant Inv(s, stamp, clock, pt1, connected)
      invariant expanded == 0 ==> s == Start(pt1, pt2)
      invariant expanded > 0 ==> !IsAtEnd(pt1, pt2)
      decreases fuel - expanded
    {
      var i := Top(s.open);
      var current := s.open[i].0;
      if IsAtEnd(current, pt2) {
        path := ReconstructPath(s.prev, current, s.g, stamp);
        PathFacts(s, stamp, clock, pt1, connected, current, path);
        return;
      }
      PopKeepsInv(s, stamp, clock, pt1, connected, i);
      s := Pop(s, i);
      var neighbours := connected(current);
      var j := 0;
      while j < |neighbours|
        invariant j <= |neighbours|
        invariant Inv(s, stamp, clock, pt1, connected)
        invariant Key(current) in s.g && (Key(current) == Key(pt1) ==> current == pt1)
      {
        var d := distance(current, neighbours[j]);
        RelaxKeepsInv(s, stamp, clock, pt1, connected, current, j, d, pt2);
        stamp := Restamp(s, stamp, clock, current, neighbours[j], d);
        clock := clock + 1;
        s := Relax(s, current, neighbours[j], d, pt2);
        j := j + 1;
      }
      expanded := expanded + 1;
    }
    path := [];
  }

  /** What a reconstructed path inherits from the invariant of the search. */
  lemma PathFacts(s: Search, stamp: map<string, nat>, clock: nat, pt1: GeoPoint,
                  connected: GeoPoint -> seq<GeoPoint>, current: GeoPoint, path: seq<GeoPoint>)
    requires Inv(s, stamp, clock, pt1, connected)
    requires Key(current) in s.g && (Key(current) == Key(pt1) ==> current == pt1)
    requires |path| >= 1 && path[|path| - 1] == current
    requires Key(path[0]) !in s.prev && Key(path[0]) in s.g
    requires forall i :: 1 <= i < |path| ==> Key(path[i]) in s.prev && path[i - 1] == s.prev[Key(path[i])]
    ensures path[0] == pt1
    ensures forall i :: 0 <= i < |path| - 1 ==> Step(connected, path[i], Key(path[i + 1]))
    ensures s.prev == map[] ==> path == [current]
  {
    if |path| > 1 {
      assert path[0] == s.prev[Key(path[1])];
    }
  }
}
