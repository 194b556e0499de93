/**
 * The tour generator: turns an ordered list of stops into commentary, proceed and turn commands.
 *
 * The generator's collaborators are the database (POI lookup, street names), the router and the
 * geometry routines (distance, bearing of a line, turning angle). They are bundled in `Services`
 * as functions. A stop is a (POI name, commentary) pair; the stop list answers "is there a stop
 * at index i" exactly when i is below its length.
 */
module TourGen {
  import opened Options
  import opened GeoPoints

  datatype Services = Services(
    poiLocation: string -> Option<GeoPoint>,
    streetName: (GeoPoint, GeoPoint) -> string,
    route: (GeoPoint, GeoPoint) -> seq<GeoPoint>,
    distance: (GeoPoint, GeoPoint) -> real,
    angleOfLine: (GeoPoint, GeoPoint) -> real,
    angleOfTurn: (GeoPoint, GeoPoint, GeoPoint) -> real)

  type Stop = (string, string)

  datatype TourCommand =
    | Commentary(poi: string, text: string)
    | Proceed(direction: string, street: string, distance: real, from: GeoPoint, to: GeoPoint)
    | Turn(direction: string, street: string)

  /** The eight compass points, counter-clockwise from east, 45 degrees apart. */
  const Compass: seq<string> :=
    ["east", "northeast", "north", "northwest", "west", "southwest", "south", "southeast"]

  /** The compass direction of a line at `angle` degrees; a negative angle has none. */
  function Direction(angle: real): (dir: string)
    ensures dir == "" <==> angle < 0.0
    ensures dir != "" ==> dir in Compass
  {
    if 0.0 <= angle < 22.5 then "east"
    else if 22.5 <= angle < 67.5 then "northeast"
    else if 67.5 <= angle < 112.5 then "north"
    else if 112.5 <= angle < 157.5 then "northwest"
    else if 157.5 <= angle < 202.5 then "west"
    else if 202.5 <= angle < 247.5 then "southwest"
    else if 247.5 <= angle < 292.5 then "south"
    else if 292.5 <= angle < 337.5 then "southeast"
    else if angle >= 337.5 then "east"
    else ""
  }

  /** The 45-degree sector centred on a compass point that holds `angle`, for angles in [0, 360). */
  function Sector(angle: real): (k: int)
    requires 0.0 <= angle < 360.0
    ensures 0 <= k < 8
  {
    var n := ((angle + 22.5) / 45.0).Floor;
    if n == 8 then 0 else n
  }

  /** The chain of comparisons names the compass point whose 45-degree sector holds the angle. */
  lemma DirectionIsSector(angle: real)
    requires 0.0 <= angle < 360.0
    ensures Direction(angle) == Compass[Sector(angle)]
  {
    var x := (angle + 22.5) / 45.0;
    var n := x.Floor;
    assert n as real <= x < n as real + 1.0;
    if angle < 22.5 { assert n == 0; }
    else if angle < 67.5 { assert n == 1; }
    else if angle < 112.5 { assert n == 2; }
    else if angle < 157.5 { assert n == 3; }
    else if angle < 202.5 { assert n == 4; }
    else if angle < 247.5 { assert n == 5; }
    else if angle < 292.5 { assert n == 6; }
    else if angle < 337.5 { assert n == 7; }
    else { assert n == 8; }
  }

  /** The side of a turn: left below 180 degrees, right from 180 up to 359. */
  function TurnDirection(angle: real): (dir: string)
    ensures dir == "left" <==> 1.0 <= angle < 180.0
    ensures dir == "right" <==> 180.0 <= angle <= 359.0
    ensures dir == "" <==> !(1.0 <= angle <= 359.0)
  {
    if 1.0 <= angle < 180.0 then "left"
    else if 180.0 <= angle <= 359.0 then "right"
    else ""
  }

  /** The proceed command for the segment from `route[j]` to `route[j + 1]`. */
  function ProceedAt(env: Services, route: seq<GeoPoint>, j: nat): TourCommand
    requires j + 1 < |route|
  {
    Proceed(Direction(env.angleOfLine(route[j], route[j + 1])),
            env.streetName(route[j], route[j + 1]),
            env.distance(route[j], route[j + 1]),
            route[j], route[j + 1])
  }

  /**
   * The turn announced at `route[j + 1]`, if any: only when a next segment exists, its street
   * differs from this segment's, and the turning angle lies in [1, 359].
   */
  function TurnAt(env: Services, route: seq<GeoPoint>, j: nat): seq<TourCommand>
    requires j + 1 < |route|
  {
    if j + 2 < |route| then
      var first := env.streetName(route[j], route[j + 1]);
      var second := env.streetName(route[j + 1], route[j + 2]);
      var turning := env.angleOfTurn(route[j], route[j + 1], route[j + 2]);
      if first != second && 1.0 <= turning <= 359.0 then [Turn(TurnDirection(turning), second)] else []
    else []
  }

  /** The commands for the first `n` segments of a route. */
  function Steps(env: Services, route: seq<GeoPoint>, n: nat): seq<TourCommand>
    requires n < |route|
  {
    if n == 0 then [] else Steps(env, route, n - 1) + [ProceedAt(env, route, n - 1)] + TurnAt(env, route, n - 1)
  }

  /** The route of one leg, between two named POIs; None when either POI is unknown or no route exists. */
  function LegRoute(env: Services, from: string, to: string): (route: Option<seq<GeoPoint>>)
    ensures route.Some? ==> route.value != []
  {
    match env.poiLocation(from)
    case None => None
    case Some(here) =>
      match env.poiLocation(to)
      case None => None
      case Some(there) =>
        var route := env.route(here, there);
        if route == [] then None else Some(route)
  }

  /** The commands of one leg; None when the tour must be abandoned. */
  function Leg(env: Services, from: string, to: string): Option<seq<TourCommand>>
  {
    match LegRoute(env, from, to)
    case None => None
    case Some(route) => Some(Steps(env, route, |route| - 1))
  }

  function CommentaryOf(stop: Stop): TourCommand
  {
    Commentary(stop.0, stop.1)
  }

  /** The commands emitted before the commentary of stop `i`; None once some leg has failed. */
  function Before(env: Services, stops: seq<Stop>, i: nat): Option<seq<TourCommand>>
    requires i < |stops|
  {
    if i == 0 then Some([])
    else
      match Before(env, stops, i - 1)
      case None => None
      case Some(done) =>
        match Leg(env, stops[i - 1].0, stops[i].0)
        case None => None
        case Some(leg) => Some(done + [CommentaryOf(stops[i - 1])] + leg)
  }

  /** The whole tour: every leg in turn, ending with the last stop's commentary; empty on failure. */
  function Tour(env: Services, stops: seq<Stop>): seq<TourCommand>
  {
    if stops == [] then []
    else
      match Before(env, stops, |stops| - 1)
      case None => []
      case Some(done) => done + [CommentaryOf(stops[|stops| - 1])]
  }

  lemma {:induction false} FailureStays(env: Services, stops: seq<Stop>, i: nat, j: nat)
    requires i <= j < |stops| && Before(env, stops, i).None?
    ensures Before(env, stops, j).None?
    decreases j - i
  {
    if i < j {
      FailureStays(env, stops, i + 1, j);
    }
  }

  /** A leg that fails after the earlier ones succeeded empties the whole tour. */
  lemma FailedLeg(env: Services, stops: seq<Stop>, i: nat)
    requires i + 1 < |stops| && Before(env, stops, i).Some?
    requires Leg(env, stops[i].0, stops[i + 1].0).None?
    ensures Tour(env, stops) == []
  {
    FailureStays(env, stops, i + 1, |stops| - 1);
  }

  /** Once stop `i` is reached and the leg after it has a route, the next stop is reached too. */
  lemma BeforeNext(env: Services, stops: seq<Stop>, i: nat, route: seq<GeoPoint>)
    requires i + 1 < |stops| && Before(env, stops, i).Some?
    requires LegRoute(env, stops[i].0, stops[i + 1].0) == Some(route)
    ensures Before(env, stops, i + 1) ==
      Some(Before(env, stops, i).value + [CommentaryOf(stops[i])] + Steps(env, route, |route| - 1))
  {
  }

  /** Generates the tour: a commentary per stop, then the commands of the leg to the next one. */
  method GenerateTour(env: Services, stops: seq<Stop>) returns (commands: seq<TourCommand>)
    ensures commands == Tour(env, stops)
  {
    commands := [];
    var i := 0;
    while i < |stops|
      invariant i <= |stops| && (|stops| > 0 ==> i < |stops|)
      invariant i < |stops| ==> Before(env, stops, i) == Some(commands)
      invariant stops == [] ==> commands == []
    {
      var (name, text) := stops[i];
      commands := commands + [Commentary(name, text)];
      if i + 1 >= |stops| {
        return;
      }
      var here := env.poiLocation(name);
      if here.None? {
        FailedLeg(env, stops, i);
        return [];
      }
      var there := env.poiLocation(stops[i + 1].0);
      if there.None? {
        FailedLeg(env, stops, i);
        return [];
      }
      var route := env.route(here.value, there.value);
      if route == [] {
        FailedLeg(env, stops, i);
        return [];
      }
      var leg := LegCommands(env, route);
      BeforeNext(env, stops, i, route);
      commands := commands + leg;
      i := i + 1;
    }
  }

  /** The proceed and turn commands along one route, segment by segment. */
  method LegCommands(env: Services, route: seq<GeoPoint>) returns (commands: seq<TourCommand>)
    requires route != []
    ensures commands == Steps(env, route, |route| - 1)
  {
    commands := [];
    var j := 0;
    while j < |route| - 1
      invariant j <= |route| - 1
      invariant commands == Steps(env, route, j)
    {
      var firstName := env.streetName(route[j], route[j + 1]);
      var firstDistance := env.distance(route[j], route[j + 1]);
      var firstAngle := env.angleOfLine(route[j], route[j + 1]);
      commands := commands + [Proceed(Direction(firstAngle), firstName, firstDistance, route[j], route[j + 1])];
      if j + 2 < |route| {
        var secondName := env.streetName(route[j + 1], route[j + 2]);
        var turning := env.angleOfTurn(route[j], route[j + 1], route[j + 2]);
        if firstName != secondName && 1.0 <= turning <= 359.0 {
          commands := commands + [Turn(TurnDirection(turning), secondName)];
        }
      }
      j := j + 1;
    }
  }

  // ----- Properties of the generated tour -----

  /** One successful step of `Before`: the previous commands, a commentary, then the leg. */
  lemma BeforeStep(env: Services, stops: seq<Stop>, i: nat)
    requires 0 < i < |stops| && Before(env, stops, i).Some?
    ensures Before(env, stops, i - 1).Some? && Leg(env, stops[i - 1].0, stops[i].0).Some?
    ensures Before(env, stops, i).value ==
      Before(env, stops, i - 1).value + [CommentaryOf(stops[i - 1])] + Leg(env, stops[i - 1].0, stops[i].0).value
  {
  }

  /** The (POI, commentary) pairs of the commentary commands, in order. */
  function Commentaries(commands: seq<TourCommand>): seq<Stop>
  {
    if commands == [] then []
    else
      var last := commands[|commands| - 1];
      Commentaries(commands[..|commands| - 1]) + (if last.Commentary? then [(last.poi, last.text)] else [])
  }

  lemma CommentariesAppend(a: seq<TourCommand>, b: seq<TourCommand>)
    ensures Commentaries(a + b) == Commentaries(a) + Commentaries(b)
    decreases |b|
  {
    if b != [] {
      assert (a + b)[..|a + b| - 1] == a + b[..|b| - 1];
      CommentariesAppend(a, b[..|b| - 1]);
    } else {
      assert a + b == a;
    }
  }

  lemma CommentariesOne(c: TourCommand)
    ensures Commentaries([c]) == if c.Commentary? then [(c.poi, c.text)] else []
  {
    assert [c][..0] == [];
  }

  /** Commands none of which is a commentary have no commentaries. */
  lemma {:induction false} NoCommentary(commands: seq<TourCommand>)
    requires forall k :: 0 <= k < |commands| ==> !commands[k].Commentary?
    ensures Commentaries(commands) == []
  {
    if commands != [] {
      NoCommentary(commands[..|commands| - 1]);
    }
  }

  /** The commands of a leg are proceeds and turns only. */
  lemma {:induction false} StepsHaveNoCommentary(env: Services, route: seq<GeoPoint>, n: nat)
    requires n < |route|
    ensures Commentaries(Steps(env, route, n)) == []
  {
    StepsMoveOrTurn(env, route, n);
    NoCommentary(Steps(env, route, n));
  }

  lemma {:induction false} StepsMoveOrTurn(env: Services, route: seq<GeoPoint>, n: nat)
    requires n < |route|
    ensures forall k :: 0 <= k < |Steps(env, route, n)| ==> !Steps(env, route, n)[k].Commentary?
  {
    if n > 0 {
      StepsMoveOrTurn(env, route, n - 1);
      var before := Steps(env, route, n - 1);
      var added: seq<TourCommand> := [ProceedAt(env, route, n - 1)] + TurnAt(env, route, n - 1);
      assert Steps(env, route, n) == before + added;
      forall k | 0 <= k < |before + added|
        ensures !(before + added)[k].Commentary?
      {
        if k >= |before| {
          assert (before + added)[k] == added[k - |before|];
        }
      }
    }
  }

  /** Appending one commentary appends its stop to the commentaries. */
  lemma CommentariesSnoc(commands: seq<TourCommand>, stop: Stop)
    ensures Commentaries(commands + [CommentaryOf(stop)]) == Commentaries(commands) + [stop]
  {
    CommentariesAppend(commands, [CommentaryOf(stop)]);
    CommentariesOne(CommentaryOf(stop));
  }

  /** A commentary followed by commands without commentary adds exactly its stop. */
  lemma CommentariesStep(done: seq<TourCommand>, stop: Stop, leg: seq<TourCommand>)
    requires Commentaries(leg) == []
    ensures Commentaries(done + [CommentaryOf(stop)] + leg) == Commentaries(done) + [stop]
  {
    CommentariesSnoc(done, stop);
    CommentariesAppend(done + [CommentaryOf(stop)], leg);
  }

  lemma LegHasNoCommentary(env: Services, from: string, to: string)
    requires Leg(env, from, to).Some?
    ensures Commentaries(Leg(env, from, to).value) == []
  {
    var route := LegRoute(env, from, to).value;
    StepsHaveNoCommentary(env, route, |route| - 1);
  }

  lemma {:induction false} BeforeCommentaries(env: Services, stops: seq<Stop>, i: nat)
    requires i < |stops| && Before(env, stops, i).Some?
    ensures Commentaries(Before(env, stops, i).value) == stops[..i]
  {
    if i > 0 {
      BeforeStep(env, stops, i);
      BeforeCommentaries(env, stops, i - 1);
      LegHasNoCommentary(env, stops[i - 1].0, stops[i].0);
      CommentariesStep(Before(env, stops, i - 1).value, stops[i - 1], Leg(env, stops[i - 1].0, stops[i].0).value);
      PrefixSnoc(stops, i);
    }
  }

  lemma PrefixSnoc<X>(xs: seq<X>, i: nat)
    requires 0 < i <= |xs|
    ensures xs[..i] == xs[..i - 1] + [xs[i - 1]]
  {
  }

  /** A tour that is produced at all comments on every stop, once, in the order given. */
  lemma TourCommentaries(env: Services, stops: seq<Stop>)
    requires Tour(env, stops) != []
    ensures Commentaries(Tour(env, stops)) == stops
  {
    var n := |stops| - 1;
    var done := Before(env, stops, n).value;
    BeforeCommentaries(env, stops, n);
    CommentariesSnoc(done, stops[n]);
    assert Tour(env, stops) == done + [CommentaryOf(stops[n])];
    assert stops[..n] + [stops[n]] == stops;
  }

  /** A produced tour opens with the first stop's commentary and closes with the last one's. */
  lemma TourEnds(env: Services, stops: seq<Stop>)
    requires Tour(env, stops) != []
    ensures Tour(env, stops)[0] == CommentaryOf(stops[0])
    ensures Tour(env, stops)[|Tour(env, stops)| - 1] == CommentaryOf(stops[|stops| - 1])
  {
    BeforeStartsWith(env, stops, |stops| - 1);
  }

  lemma {:induction false} BeforeStartsWith(env: Services, stops: seq<Stop>, i: nat)
    requires i < |stops| && Before(env, stops, i).Some?
    ensures i > 0 ==> Before(env, stops, i).value != [] && Before(env, stops, i).value[0] == CommentaryOf(stops[0])
  {
    if i > 0 {
      BeforeStep(env, stops, i);
      if i > 1 {
        BeforeStartsWith(env, stops, i - 1);
      }
    }
  }

  /** The leg from stop `k` to stop `k + 1` fails: a POI is unknown or no route joins them. */
  predicate LegFails(env: Services, stops: seq<Stop>, k: nat)
    requires k + 1 < |stops|
  {
    LegRoute(env, stops[k].0, stops[k + 1].0).None?
  }

  /** Whether some leg between consecutive stops among the first `i + 1` fails. */
  ghost predicate SomeLegFails(env: Services, stops: seq<Stop>, i: nat)
    requires i < |stops|
  {
    exists k: nat :: k < i && LegFails(env, stops, k)
  }

  lemma {:induction false} BeforeFails(env: Services, stops: seq<Stop>, i: nat)
    requires i < |stops|
    ensures Before(env, stops, i).None? <==> SomeLegFails(env, stops, i)
  {
    if i > 0 {
      BeforeFails(env, stops, i - 1);
      if LegFails(env, stops, i - 1) {
        assert SomeLegFails(env, stops, i);
      } else {
        if SomeLegFails(env, stops, i) {
          var k: nat :| k < i && LegFails(env, stops, k);
          assert SomeLegFails(env, stops, i - 1);
        }
        if SomeLegFails(env, stops, i - 1) {
          var k: nat :| k < i - 1 && LegFails(env, stops, k);
          assert SomeLegFails(env, stops, i);
        }
      }
    }
  }

  /** The tour is empty exactly when there are no stops or some leg fails. */
  lemma TourEmpty(env: Services, stops: seq<Stop>)
    ensures Tour(env, stops) == [] <==> stops == [] || SomeLegFails(env, stops, |stops| - 1)
  {
    if stops != [] {
      BeforeFails(env, stops, |stops| - 1);
    }
  }

  /** The moves of the proceed commands: from, to and street. */
  function Moves(commands: seq<TourCommand>): seq<(GeoPoint, GeoPoint, string)>
  {
    if commands == [] then []
    else
      var last := commands[|commands| - 1];
      Moves(commands[..|commands| - 1]) + (if last.Proceed? then [(last.from, last.to, last.street)] else [])
  }

  lemma MovesAppend(a: seq<TourCommand>, b: seq<TourCommand>)
    ensures Moves(a + b) == Moves(a) + Moves(b)
    decreases |b|
  {
    if b != [] {
      assert (a + b)[..|a + b| - 1] == a + b[..|b| - 1];
      MovesAppend(a, b[..|b| - 1]);
    } else {
      assert a + b == a;
    }
  }

  lemma MovesOne(c: TourCommand)
    ensures Moves([c]) == if c.Proceed? then [(c.from, c.to, c.street)] else []
  {
    assert [c][..0] == [];
  }

  /** The move along segment `k` of a route: its two ends and its street. */
  function SegmentMove(env: Services, route: seq<GeoPoint>, k: nat): (GeoPoint, GeoPoint, string)
    requires k + 1 < |route|
  {
    (route[k], route[k + 1], env.streetName(route[k], route[k + 1]))
  }

  /** The moves of one more segment: the proceed along it, and no move for a turn. */
  lemma StepsMoves(env: Services, route: seq<GeoPoint>, n: nat)
    requires 0 < n < |route|
    ensures Moves(Steps(env, route, n)) == Moves(Steps(env, route, n - 1)) + [SegmentMove(env, route, n - 1)]
  {
    var p := ProceedAt(env, route, n - 1);
    var turn := TurnAt(env, route, n - 1);
    MovesAppend(Steps(env, route, n - 1), [p]);
    MovesAppend(Steps(env, route, n - 1) + [p], turn);
    MovesOne(p);
    if turn != [] {
      MovesOne(turn[0]);
      assert turn == [turn[0]];
    }
  }

  /** The moves along the first `n` segments of a route, in order. */
  function RouteMoves(env: Services, route: seq<GeoPoint>, n: nat): (moves: seq<(GeoPoint, GeoPoint, string)>)
    requires n < |route|
    ensures |moves| == n
    ensures forall k :: 0 <= k < n ==> moves[k] == SegmentMove(env, route, k)
  {
    if n == 0 then [] else RouteMoves(env, route, n - 1) + [SegmentMove(env, route, n - 1)]
  }

  lemma {:induction false} StepsMovesAre(env: Services, route: seq<GeoPoint>, n: nat)
    requires n < |route|
    ensures Moves(Steps(env, route, n)) == RouteMoves(env, route, n)
  {
    if n > 0 {
      StepsMovesAre(env, route, n - 1);
      StepsMoves(env, route, n);
    }
  }

  /** A leg proceeds along every segment of its route, in order, naming each segment's street. */
  lemma StepsWalkRoute(env: Services, route: seq<GeoPoint>, n: nat)
    requires n < |route|
    ensures |Moves(Steps(env, route, n))| == n
    ensures forall k :: 0 <= k < n ==> Moves(Steps(env, route, n))[k] == SegmentMove(env, route, k)
  {
    StepsMovesAre(env, route, n);
  }

  /** The street a turn announced at the end of the first `n` segments would name. */
  function NextStreet(env: Services, route: seq<GeoPoint>, n: nat): string
  {
    if n + 1 < |route| then env.streetName(route[n], route[n + 1]) else ""
  }

  /**
   * Every turn is a left or right turn that comes right after a proceed along a different
   * street and right before the proceed along the street it names. A turn may end the commands
   * only when `open` holds, and then it names `next`: the street of the proceed still to come.
   */
  ghost predicate TurnsPlaced(commands: seq<TourCommand>, open: bool, next: string)
  {
    forall k :: 0 <= k < |commands| && commands[k].Turn? ==>
      k > 0 && commands[k - 1].Proceed? && commands[k - 1].street != commands[k].street &&
      (commands[k].direction == "left" || commands[k].direction == "right") &&
      (k + 1 < |commands| ==> commands[k + 1].Proceed? && commands[k + 1].street == commands[k].street) &&
      (k + 1 == |commands| ==> open && commands[k].street == next)
  }

  lemma TurnsPlacedAppend(a: seq<TourCommand>, b: seq<TourCommand>, open: bool, next: string, a': string)
    requires TurnsPlaced(a, false, a') && TurnsPlaced(b, open, next)
    ensures TurnsPlaced(a + b, open, next)
  {
    forall k | 0 <= k < |a + b| && (a + b)[k].Turn?
      ensures k > 0 && (a + b)[k - 1].Proceed? && (a + b)[k - 1].street != (a + b)[k].street &&
              ((a + b)[k].direction == "left" || (a + b)[k].direction == "right") &&
              (k + 1 < |a + b| ==> (a + b)[k + 1].Proceed? && (a + b)[k + 1].street == (a + b)[k].street) &&
              (k + 1 == |a + b| ==> open && (a + b)[k].street == next)
    {
      if k < |a| {
        assert (a + b)[k] == a[k] && (a + b)[k - 1] == a[k - 1];
        assert a[k].Turn?;
        assert (a + b)[k + 1] == a[k + 1];
      } else {
        assert (a + b)[k] == b[k - |a|];
        assert k - |a| > 0;
        assert (a + b)[k - 1] == b[k - 1 - |a|];
        if k + 1 < |a + b| {
          assert (a + b)[k + 1] == b[k + 1 - |a|];
        }
      }
    }
  }

  /** A step adds the proceed along segment n - 1 and possibly the turn onto segment n. */
  lemma StepPlaced(env: Services, route: seq<GeoPoint>, n: nat)
    requires 0 < n < |route|
    requires TurnsPlaced(Steps(env, route, n - 1), true, NextStreet(env, route, n - 1))
    ensures TurnsPlaced(Steps(env, route, n), n + 1 < |route|, NextStreet(env, route, n))
  {
    var done := Steps(env, route, n - 1);
    var p := ProceedAt(env, route, n - 1);
    var turn := TurnAt(env, route, n - 1);
    var cs := Steps(env, route, n);
    assert cs == done + [p] + turn;
    forall k | 0 <= k < |cs| && cs[k].Turn?
      ensures k > 0 && cs[k - 1].Proceed? && cs[k - 1].street != cs[k].street &&
              (cs[k].direction == "left" || cs[k].direction == "right") &&
              (k + 1 < |cs| ==> cs[k + 1].Proceed? && cs[k + 1].street == cs[k].street) &&
              (k + 1 == |cs| ==> n + 1 < |route| && cs[k].street == NextStreet(env, route, n))
    {
      if k < |done| {
        assert cs[k] == done[k] && cs[k - 1] == done[k - 1];
        if k + 1 < |done| {
          assert cs[k + 1] == done[k + 1];
        } else {
          assert cs[k + 1] == p;
        }
      } else {
        assert k == |done| + 1 && turn != [] && cs[k] == turn[0] && cs[k - 1] == p;
      }
    }
  }

  lemma {:induction false} StepsPlaced(env: Services, route: seq<GeoPoint>, n: nat)
    requires n < |route|
    ensures TurnsPlaced(Steps(env, route, n), n + 1 < |route|, NextStreet(env, route, n))
  {
    if n > 0 {
      StepsPlaced(env, route, n - 1);
      StepPlaced(env, route, n);
    }
  }

  lemma {:induction false} BeforePlaced(env: Services, stops: seq<Stop>, i: nat)
    requires i < |stops| && Before(env, stops, i).Some?
    ensures TurnsPlaced(Before(env, stops, i).value, false, "")
  {
    if i > 0 {
      BeforePlaced(env, stops, i - 1);
      var done := Before(env, stops, i - 1).value;
      BeforeStep(env, stops, i);
      var route := LegRoute(env, stops[i - 1].0, stops[i].0).value;
      var leg := Leg(env, stops[i - 1].0, stops[i].0).value;
      StepsPlaced(env, route, |route| - 1);
      TurnsPlacedAppend(done, [CommentaryOf(stops[i - 1])], false, "", "");
      TurnsPlacedAppend(done + [CommentaryOf(stops[i - 1])], leg, false, "", "");
    }
  }

  /**
   * In a whole tour, every turn is a left or right turn between two proceeds of the same leg:
   * it follows a proceed along a different street and precedes the proceed along the street it
   * names, so no turn ends a leg.
   */
  lemma TourTurns(env: Services, stops: seq<Stop>)
    ensures TurnsPlaced(Tour(env, stops), false, "")
  {
    if stops != [] && Before(env, stops, |stops| - 1).Some? {
      BeforePlaced(env, stops, |stops| - 1);
      TurnsPlacedAppend(Before(env, stops, |stops| - 1).value, [CommentaryOf(stops[|stops| - 1])], false, "", "");
    }
  }
}
