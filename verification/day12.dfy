/** Day 12, Rain Risk: a ferry follows navigation actions. In part 1, N, E,
    S and W move the ferry, L and R turn its heading and F moves it along the
    heading. In part 2, N, E, S and W move a waypoint held relative to the
    ferry, L and R rotate that waypoint about the ferry, and F moves the ferry
    towards the waypoint that many times. Both parts report the Manhattan
    distance from the start. */
module Day12 {
  import opened Wrappers
  import opened Strings

  /** A position, in units east and north of the start. */
  datatype Position = Position(east: int, north: int)

  /** One navigation action: an operation letter and its value. */
  datatype Action = Action(operation: char, value: int)

  /** The ferry: where it is, where its waypoint is, and its heading in
      degrees clockwise from north. */
  datatype Ferry = Ferry(position: Position, waypoint: Position, direction: int)

  /** The ferry at the start: at the origin, waypoint 10 east and 1 north,
      facing east. */
  const Start: Ferry := Ferry(Position(0, 0), Position(10, 1), 90)

  /** `Action.Parse`: the first character is the operation and the rest must
      parse as a 32-bit integer; an empty line has no first character. */
  function ParseAction(raw: string): (r: Result<Action>)
    ensures r.Ok? <==> |raw| > 0 && ParseInt32(raw[1..]).Some?
    ensures r.Ok? ==> r.value.operation == raw[0] && Some(r.value.value) == ParseInt(raw[1..])
  {
    if |raw| == 0 then Err("Index was outside the bounds of the array")
    else
      match ParseInt32(raw[1..])
      case Some(v) => Ok(Action(raw[0], v))
      case None => Err("Input string was not in a correct format")
  }

  /** C#'s `%` on `int`: the remainder takes the sign of the dividend. */
  function Rem(a: int, b: int): (r: int)
    requires b > 0
    ensures a >= 0 ==> 0 <= r < b
    ensures a < 0 ==> -b < r <= 0
  {
    if a >= 0 then a % b else -((-a) % b)
  }

  /** `Move`: N, E, S and W shift one coordinate by the value; any other
      operation throws. */
  function Move(operation: char, value: int, position: Position): (r: Result<Position>)
    ensures r.Ok? <==> operation in {'N', 'E', 'S', 'W'}
    ensures r.Ok? ==> r.value.east - position.east
                      == (if operation == 'E' then value else if operation == 'W' then -value else 0)
    ensures r.Ok? ==> r.value.north - position.north
                      == (if operation == 'N' then value else if operation == 'S' then -value else 0)
  {
    match operation
    case 'N' => Ok(Position(position.east, position.north + value))
    case 'E' => Ok(Position(position.east + value, position.north))
    case 'S' => Ok(Position(position.east, position.north - value))
    case 'W' => Ok(Position(position.east - value, position.north))
    case _ => Err("Invalid operation")
  }

  /** The compass letter opposite `operation`. */
  function Opposite(operation: char): char {
    match operation
    case 'N' => 'S'
    case 'S' => 'N'
    case 'E' => 'W'
    case 'W' => 'E'
    case _ => operation
  }

  /** Moving one way and then the same distance the opposite way returns to
      the start. */
  lemma MoveThenOppositeReturns(operation: char, value: int, position: Position)
    requires operation in {'N', 'E', 'S', 'W'}
    ensures Move(operation, value, position).Ok?
    ensures Move(Opposite(operation), value, Move(operation, value, position).value) == Ok(position)
  {
  }

  /** The four headings the ferry can name. */
  predicate Heading(direction: int) {
    direction in {0, 90, 180, 270}
  }

  /** `TurnFerry`: clockwise adds the degrees, counter-clockwise adds
      `360 - degrees`, both reduced with C#'s `%`. */
  function TurnFerry(direction: int, degrees: int, clockwise: bool): (r: int)
    ensures -360 < r < 360
    ensures (if clockwise then direction + degrees else direction + (360 - degrees)) >= 0 ==> r >= 0
  {
    if clockwise then Rem(direction + degrees, 360) else Rem(direction + (360 - degrees), 360)
  }

  /** A right-angle turn from a heading gives a heading, and turning right
      and then left by the same angle restores the heading. */
  lemma TurnKeepsHeading(direction: int, degrees: int)
    requires Heading(direction) && degrees in {0, 90, 180, 270, 360}
    ensures Heading(TurnFerry(direction, degrees, true))
    ensures Heading(TurnFerry(direction, degrees, false))
    ensures TurnFerry(TurnFerry(direction, degrees, true), degrees, false) == direction
    ensures TurnFerry(TurnFerry(direction, degrees, false), degrees, true) == direction
  {
  }

  /** `DirectionFromDegrees`: the compass letter of a heading; any other
      value throws. */
  function DirectionFromDegrees(direction: int): (r: Result<char>)
    ensures r.Ok? <==> Heading(direction)
    ensures r.Ok? ==> r.value in {'N', 'E', 'S', 'W'}
    ensures r.Ok? ==> (r.value == 'N' <==> direction == 0) && (r.value == 'S' <==> direction == 180)
                      && (r.value == 'E' <==> direction == 90)
  {
    match direction
    case 0 => Ok('N')
    case 90 => Ok('E')
    case 180 => Ok('S')
    case 270 => Ok('W')
    case _ => Err("Invalid degree value")
  }

  /** `ExecuteActionPartOne`: L and R turn the ferry; F moves along the
      heading; everything else moves the ferry by compass letter. */
  function ExecutePartOne(ferry: Ferry, action: Action): (r: Result<Ferry>)
    ensures r.Ok? ==> r.value.waypoint == ferry.waypoint
    ensures action.operation in {'L', 'R'} ==>
      r == Ok(ferry.(direction := TurnFerry(ferry.direction, action.value, action.operation == 'R')))
    ensures action.operation == 'F' ==> (r.Ok? <==> Heading(ferry.direction))
    ensures r.Ok? && action.operation !in {'L', 'R'} ==> r.value.direction == ferry.direction
  {
    if action.operation == 'R' || action.operation == 'L' then
      Ok(ferry.(direction := TurnFerry(ferry.direction, action.value, action.operation == 'R')))
    else
      var operation :- if action.operation == 'F' then DirectionFromDegrees(ferry.direction) else Ok(action.operation);
      var position :- Move(operation, action.value, ferry.position);
      Ok(ferry.(position := position))
  }

  /** A quarter turn counter-clockwise about the ferry. */
  function QuarterTurn(p: Position): Position {
    Position(-p.north, p.east)
  }

  /** `k` counter-clockwise quarter turns: the reference for rotation. */
  function QuarterTurns(p: Position, k: nat): Position {
    if k == 0 then p else QuarterTurn(QuarterTurns(p, k - 1))
  }

  /** `RotateWaypoint`: clockwise rotation by `d` is done as counter-clockwise
      rotation by `360 - d`; only 0, 90, 180 and 270 are accepted after that
      conversion, so `R0` and `L360` throw. */
  function RotateWaypoint(waypoint: Position, degrees: int, clockwise: bool): (r: Result<Position>)
    ensures var ccw := if clockwise then 360 - degrees else degrees;
      && (r.Ok? <==> Heading(ccw))
      && (r.Ok? ==> r.value == QuarterTurns(waypoint, ccw / 90))
    ensures r.Ok? ==> Manhattan(r.value) == Manhattan(waypoint)
  {
    var ccw := if clockwise then 360 - degrees else degrees;
    assert QuarterTurns(waypoint, 1) == QuarterTurn(waypoint);
    assert QuarterTurns(waypoint, 2) == QuarterTurn(QuarterTurns(waypoint, 1));
    assert QuarterTurns(waypoint, 3) == QuarterTurn(QuarterTurns(waypoint, 2));
    match ccw
    case 0 => Ok(waypoint)
    case 90 => Ok(Position(-waypoint.north, waypoint.east))
    case 180 => Ok(Position(-waypoint.east, -waypoint.north))
    case 270 => Ok(Position(waypoint.north, -waypoint.east))
    case _ => Err("Invalid degree value")
  }

  /** Four quarter turns are the identity, and a turn one way is undone by
      the same turn the other way. */
  lemma {:induction false} FullTurnRestores(p: Position, k: nat)
    ensures QuarterTurns(p, k + 4) == QuarterTurns(p, k)
  {
    if k > 0 {
      FullTurnRestores(p, k - 1);
    } else {
      assert QuarterTurns(p, 1) == QuarterTurn(p);
      assert QuarterTurns(p, 2) == QuarterTurn(QuarterTurns(p, 1));
      assert QuarterTurns(p, 3) == QuarterTurn(QuarterTurns(p, 2));
      assert QuarterTurns(p, 4) == QuarterTurn(QuarterTurns(p, 3));
    }
  }

  lemma RotateBackRestores(waypoint: Position, degrees: int)
    requires degrees in {90, 180, 270}
    ensures RotateWaypoint(waypoint, degrees, true).Ok?
    ensures RotateWaypoint(RotateWaypoint(waypoint, degrees, true).value, degrees, false) == Ok(waypoint)
  {
  }

  /** `MoveFerryTowardsWaypoint`: the ferry moves `times` copies of the
      waypoint offset; the waypoint stays put relative to the ferry. */
  function MoveTowardsWaypoint(ferry: Ferry, times: int): (r: Ferry)
    ensures r.waypoint == ferry.waypoint && r.direction == ferry.direction
    ensures r.position.east - ferry.position.east == times * ferry.waypoint.east
    ensures r.position.north - ferry.position.north == times * ferry.waypoint.north
  {
    ferry.(position := Position(ferry.position.east + ferry.waypoint.east * times,
                                ferry.position.north + ferry.waypoint.north * times))
  }

  /** `ExecuteActionPartTwo`: L and R rotate the waypoint, F moves the
      ferry towards it, and compass letters move the waypoint. */
  function ExecutePartTwo(ferry: Ferry, action: Action): (r: Result<Ferry>)
    ensures r.Ok? ==> r.value.direction == ferry.direction
    ensures r.Ok? && action.operation != 'F' ==> r.value.position == ferry.position
    ensures action.operation == 'F' ==> r == Ok(MoveTowardsWaypoint(ferry, action.value))
    ensures r.Ok? && action.operation in {'L', 'R'} ==> Manhattan(r.value.waypoint) == Manhattan(ferry.waypoint)
  {
    if action.operation == 'R' || action.operation == 'L' then
      var waypoint :- RotateWaypoint(ferry.waypoint, action.value, action.operation == 'R');
      Ok(ferry.(waypoint := waypoint))
    else if action.operation == 'F' then
      Ok(MoveTowardsWaypoint(ferry, action.value))
    else
      var waypoint :- Move(action.operation, action.value, ferry.waypoint);
      Ok(ferry.(waypoint := waypoint))
  }

  function Abs(x: int): nat {
    if x < 0 then -x else x
  }

  /** `CalculateManhattanDistance`: the distance from the origin. */
  function Manhattan(p: Position): (d: nat)
    ensures d == 0 <==> p == Position(0, 0)
    ensures d >= Abs(p.east) && d >= Abs(p.north)
  {
    Abs(p.east) + Abs(p.north)
  }

  /** The actions applied in order; the first failing action stops the run. */
  function Navigate(ferry: Ferry, actions: seq<Action>, partTwo: bool): (r: Result<Ferry>)
    ensures |actions| == 0 ==> r == Ok(ferry)
    ensures r.Ok? && !partTwo ==> r.value.waypoint == ferry.waypoint
    ensures r.Ok? && partTwo ==> r.value.direction == ferry.direction
    decreases |actions|
  {
    if |actions| == 0 then Ok(ferry)
    else
      var next :- if partTwo then ExecutePartTwo(ferry, actions[0]) else ExecutePartOne(ferry, actions[0]);
      Navigate(next, actions[1..], partTwo)
  }

  /** Navigating a concatenation is navigating the first part, then the
      second from where the first left the ferry. */
  lemma {:induction false} NavigateAppend(ferry: Ferry, a: seq<Action>, b: seq<Action>, partTwo: bool)
    ensures Navigate(ferry, a + b, partTwo)
         == (match Navigate(ferry, a, partTwo)
             case Ok(mid) => Navigate(mid, b, partTwo)
             case Err(e) => Err(e))
    decreases |a|
  {
    if |a| > 0 {
      assert (a + b)[0] == a[0] && (a + b)[1..] == a[1..] + b;
      var step := if partTwo then ExecutePartTwo(ferry, a[0]) else ExecutePartOne(ferry, a[0]);
      if step.Ok? {
        NavigateAppend(step.value, a[1..], b, partTwo);
      }
    } else {
      assert a + b == b;
    }
  }

  function ParseActions(input: seq<string>): (r: Result<seq<Action>>)
    ensures r.Ok? ==> |r.value| == |input|
    ensures r.Ok? ==> forall k :: 0 <= k < |input| ==> ParseAction(input[k]) == Ok(r.value[k])
    ensures r.Err? ==> exists k :: 0 <= k < |input| && ParseAction(input[k]).Err?
  {
    if |input| == 0 then Ok([])
    else
      var first :- ParseAction(input[0]);
      var rest :- ParseActions(input[1..]);
      Ok([first] + rest)
  }

  /** The net offset of the compass actions, east and north: a reference
      for a course that never turns. */
  function CompassSum(actions: seq<Action>): Position {
    if |actions| == 0 then Position(0, 0)
    else
      var rest := CompassSum(actions[1..]);
      var v := actions[0].value;
      match actions[0].operation
      case 'N' => Position(rest.east, rest.north + v)
      case 'S' => Position(rest.east, rest.north - v)
      case 'E' => Position(rest.east + v, rest.north)
      case 'W' => Position(rest.east - v, rest.north)
      case _ => rest
  }

  predicate CompassOnly(actions: seq<Action>) {
    forall k :: 0 <= k < |actions| ==> actions[k].operation in {'N', 'E', 'S', 'W'}
  }

  /** In part 1 a course of compass actions moves the ferry by their net
      offset and changes nothing else. */
  lemma {:induction false} CompassCourse(ferry: Ferry, actions: seq<Action>)
    requires CompassOnly(actions)
    ensures Navigate(ferry, actions, false)
         == Ok(ferry.(position := Position(ferry.position.east + CompassSum(actions).east,
                                           ferry.position.north + CompassSum(actions).north)))
    decreases |actions|
  {
    if |actions| > 0 {
      var next := ExecutePartOne(ferry, actions[0]).value;
      CompassCourse(next, actions[1..]);
    }
  }

  predicate NoForward(actions: seq<Action>) {
    forall k :: 0 <= k < |actions| ==> actions[k].operation != 'F'
  }

  /** In part 2 a course without F never moves the ferry. */
  lemma {:induction false} NoForwardStaysPut(ferry: Ferry, actions: seq<Action>)
    requires NoForward(actions)
    ensures Navigate(ferry, actions, true).Ok? ==> Navigate(ferry, actions, true).value.position == ferry.position
    decreases |actions|
  {
    if |actions| > 0 && ExecutePartTwo(ferry, actions[0]).Ok? {
      NoForwardStaysPut(ExecutePartTwo(ferry, actions[0]).value, actions[1..]);
    }
  }

  /** Part 1: the distance of the ferry from the start after the course;
      a course of compass actions ends at the distance of its net offset. */
  function Part1(input: seq<string>): (r: Result<nat>)
    ensures |input| == 0 ==> r == Ok(0)
    ensures r.Ok? <==> ParseActions(input).Ok? && Navigate(Start, ParseActions(input).value, false).Ok?
    ensures r.Ok? ==> r.value == Manhattan(Navigate(Start, ParseActions(input).value, false).value.position)
    ensures ParseActions(input).Ok? && CompassOnly(ParseActions(input).value) ==>
      r == Ok(Manhattan(CompassSum(ParseActions(input).value)))
  {
    var parsed := ParseActions(input);
    if parsed.Err? then Err(parsed.error)
    else
      var course := Navigate(Start, parsed.value, false);
      CompassDistance(parsed.value);
      if course.Err? then Err(course.error)
      else Ok(Manhattan(course.value.position))
  }

  /** From the start, a compass-only course ends at the distance of its net
      offset. */
  lemma CompassDistance(actions: seq<Action>)
    ensures CompassOnly(actions) ==>
      Navigate(Start, actions, false).Ok? &&
      Manhattan(Navigate(Start, actions, false).value.position) == Manhattan(CompassSum(actions))
  {
    if CompassOnly(actions) {
      CompassCourse(Start, actions);
    }
  }

  /** Part 2: the same distance with the waypoint rules; a course without F
      ends where it started. */
  function Part2(input: seq<string>): (r: Result<nat>)
    ensures |input| == 0 ==> r == Ok(0)
    ensures r.Ok? <==> ParseActions(input).Ok? && Navigate(Start, ParseActions(input).value, true).Ok?
    ensures r.Ok? ==> r.value == Manhattan(Navigate(Start, ParseActions(input).value, true).value.position)
    ensures r.Ok? && NoForward(ParseActions(input).value) ==> r.value == 0
  {
    var actions :- ParseActions(input);
    var ferry :- Navigate(Start, actions, true);
    if NoForward(actions) then NoForwardStaysPut(Start, actions); Ok(Manhattan(ferry.position))
    else Ok(Manhattan(ferry.position))
  }

  /** The puzzle's example course: part 1 ends 25 from the start. */
  lemma ExampleCourseOne()
    ensures Navigate(Start, [Action('F', 10), Action('N', 3), Action('F', 7), Action('R', 90), Action('F', 11)], false)
         == Ok(Ferry(Position(17, -8), Position(10, 1), 180))
  {
    var course := [Action('F', 10), Action('N', 3), Action('F', 7), Action('R', 90), Action('F', 11)];
    assert Navigate(Ferry(Position(17, 3), Position(10, 1), 180), course[4..], false)
        == Ok(Ferry(Position(17, -8), Position(10, 1), 180));
    assert Navigate(Ferry(Position(17, 3), Position(10, 1), 90), course[3..], false)
        == Ok(Ferry(Position(17, -8), Position(10, 1), 180));
    assert Navigate(Ferry(Position(10, 3), Position(10, 1), 90), course[2..], false)
        == Ok(Ferry(Position(17, -8), Position(10, 1), 180));
    assert Navigate(Ferry(Position(10, 0), Position(10, 1), 90), course[1..], false)
        == Ok(Ferry(Position(17, -8), Position(10, 1), 180));
  }

  /** The same course with the waypoint: part 2 ends 286 from the start. */
  lemma ExampleCourseTwo()
    ensures Navigate(Start, [Action('F', 10), Action('N', 3), Action('F', 7), Action('R', 90), Action('F', 11)], true)
         == Ok(Ferry(Position(214, -72), Position(4, -10), 90))
  {
    var course := [Action('F', 10), Action('N', 3), Action('F', 7), Action('R', 90), Action('F', 11)];
    assert Navigate(Ferry(Position(170, 38), Position(4, -10), 90), course[4..], true)
        == Ok(Ferry(Position(214, -72), Position(4, -10), 90));
    assert Navigate(Ferry(Position(170, 38), Position(10, 4), 90), course[3..], true)
        == Ok(Ferry(Position(214, -72), Position(4, -10), 90));
    assert Navigate(Ferry(Position(100, 10), Position(10, 4), 90), course[2..], true)
        == Ok(Ferry(Position(214, -72), Position(4, -10), 90));
    assert Navigate(Ferry(Position(100, 10), Position(10, 1), 90), course[1..], true)
        == Ok(Ferry(Position(214, -72), Position(4, -10), 90));
  }
}
