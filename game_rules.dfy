/**
 * The rules of the game.py variant of the frog/knight jump game, written as
 * functions of the whole game state. The class Game.FrogJumpGame takes the same
 * steps in place and is proved to agree with them.
 *
 * Compared with Quantumquest.py this variant has no balls, caps the fall
 * speed, lets a knight on a log ride along with it, lets logs of a row bounce
 * off each other, has a `falling` flag that keeps gravity on, and uses a
 * closed-interval overlap test.
 *
 * Members such as Reflect, MovedLogs, ReflectedSpeeds, InitialKnight, Event
 * and Run are written here and again in QuantumQuestRules on purpose: the two
 * source files are independent programs, and each module models one of them.
 */
module GameRules {
  import opened Canvas

  const WINDOW_WIDTH: real := 1000.0
  const WINDOW_HEIGHT: real := 800.0
  const LOG_WIDTH: real := 100.0
  const LOG_HEIGHT: real := 20.0
  const NUM_LOGS_PER_ROW: nat := 3
  const NUM_ROWS: nat := 6
  const INITIAL_LOG_SPEED: real := 6.0
  const JUMP_DISTANCE: real := 100.0
  const KNIGHT_WIDTH: real := 30.0
  const KNIGHT_HEIGHT: real := 30.0
  const GRAVITY: real := 0.5
  const MAX_FALL_VELOCITY: real := 10.0

  // Values the source writes inline or computes once.
  const LOG_SPACING: real :=
    (WINDOW_WIDTH - LOG_WIDTH * NUM_LOGS_PER_ROW as real) / (NUM_LOGS_PER_ROW + 1) as real
  const KNIGHT_START_X: real := 150.0  // LOG_WIDTH * NUM_LOGS_PER_ROW // 2
  const CHEST_INSET: real := 35.0      // (LOG_WIDTH - KNIGHT_WIDTH) // 2
  const CHEST_GAP: real := 10.0        // between a chest's bottom and its log's top
  const CHEST_POINTS: int := 10

  /*** Layout ***/

  /** Top y of the logs of a row; row 0 is the bottom one. */
  function RowY(row: int): (y: real) {
    WINDOW_HEIGHT - (row + 1) as real * JUMP_DISTANCE
  }

  /** A log of the given row has the row's y and the size every log is created with. */
  predicate LogOfRow(log: Rect, row: nat) {
    log.y1 == RowY(row) && log.y2 == log.y1 + LOG_HEIGHT && log.x2 == log.x1 + LOG_WIDTH
  }

  /** x of log i of every row: evenly spread, with equal gaps at both ends. */
  function InitialLogX(i: nat): (x: real) {
    LOG_SPACING * (i + 1) as real + LOG_WIDTH * i as real
  }

  /** The logs the constructor creates, row by row. */
  function InitialLogs(): (logs: seq<seq<Rect>>)
    ensures IsGrid(logs, NUM_ROWS, NUM_LOGS_PER_ROW)
    ensures forall r, i :: 0 <= r < NUM_ROWS && 0 <= i < NUM_LOGS_PER_ROW ==>
      LogOfRow(logs[r][i], r) && logs[r][i].x1 == InitialLogX(i)
  {
    seq(NUM_ROWS, r =>
      seq(NUM_LOGS_PER_ROW, i requires 0 <= i =>
        Rect(InitialLogX(i), RowY(r), InitialLogX(i) + LOG_WIDTH, RowY(r) + LOG_HEIGHT)))
  }

  /**
   * The initial logs lie inside the window, and no two of them touch, in the
   * same row or in different rows.
   */
  lemma InitialLogsApart(r: nat, i: nat, k: nat, j: nat)
    requires r < NUM_ROWS && i < NUM_LOGS_PER_ROW && k < NUM_ROWS && j < NUM_LOGS_PER_ROW
    ensures 0.0 <= InitialLogs()[r][i].x1 && InitialLogs()[r][i].x2 <= WINDOW_WIDTH
    ensures (r, i) != (k, j) ==> !Collide(InitialLogs()[r][i], InitialLogs()[k][j])
  {
    var a, b := InitialLogs()[r][i], InitialLogs()[k][j];
    if r == k && i < j {
      assert a.x2 < b.x1;
    } else if r == k && j < i {
      assert b.x2 < a.x1;
    } else if r < k {
      assert b.y2 < a.y1;
    } else if k < r {
      assert a.y2 < b.y1;
    }
  }

  /** The knight's starting rectangle, on top of the bottom row. */
  function InitialKnight(): (knight: Rect)
    ensures knight.x2 - knight.x1 == KNIGHT_WIDTH && knight.y2 - knight.y1 == KNIGHT_HEIGHT
    ensures knight.y2 == RowY(0) && knight.x1 == KNIGHT_START_X
  {
    var y := WINDOW_HEIGHT - JUMP_DISTANCE - KNIGHT_HEIGHT;
    Rect(KNIGHT_START_X, y, KNIGHT_START_X + KNIGHT_WIDTH, y + KNIGHT_HEIGHT)
  }

  /**
   * The canvas item ids of the logs. Tk numbers canvas items 1, 2, 3, ... in
   * creation order, and the constructor creates the logs first, row by row.
   */
  function LogItems(): (items: seq<seq<int>>)
    ensures IsGrid(items, NUM_ROWS, NUM_LOGS_PER_ROW)
    ensures forall r, i :: 0 <= r < NUM_ROWS && 0 <= i < NUM_LOGS_PER_ROW ==>
      items[r][i] == 1 + r * NUM_LOGS_PER_ROW + i
  {
    seq(NUM_ROWS, r => seq(NUM_LOGS_PER_ROW, i => 1 + r * NUM_LOGS_PER_ROW + i))
  }

  /** Log (r, i)'s item is held by row r and by no other row, at position i. */
  lemma LogItemPlace(r: nat, i: nat)
    requires r < NUM_ROWS && i < NUM_LOGS_PER_ROW
    ensures forall k :: 0 <= k < NUM_ROWS ==> (LogItems()[r][i] in LogItems()[k] <==> k == r)
    ensures forall m :: 0 <= m < NUM_LOGS_PER_ROW ==> (LogItems()[r][m] == LogItems()[r][i] <==> m == i)
  {
    var items := LogItems();
    forall k | 0 <= k < NUM_ROWS
      ensures items[r][i] in items[k] <==> k == r
    {
      if items[r][i] in items[k] {
        var m :| 0 <= m < |items[k]| && items[k][m] == items[r][i];
      }
    }
  }

  /** get_log_row: the first row whose list holds the item; None (the implicit return) when none does. */
  method GetLogRow(items: seq<seq<int>>, item: int) returns (row: Option<nat>)
    ensures row.None? <==> forall k :: 0 <= k < |items| ==> item !in items[k]
    ensures row.Some? ==>
      row.value < |items| && item in items[row.value] &&
      forall k :: 0 <= k < row.value ==> item !in items[k]
  {
    for k := 0 to |items|
      invariant forall j :: 0 <= j < k ==> item !in items[j]
    {
      if item in items[k] {
        return Some(k);
      }
    }
    return None;
  }

  /**
   * get_log_index: the position of the item in the first row that holds it;
   * None when no row does.
   */
  method GetLogIndex(items: seq<seq<int>>, item: int) returns (index: Option<nat>)
    ensures index.None? <==> forall k :: 0 <= k < |items| ==> item !in items[k]
    ensures forall r :: (0 <= r < |items| && item in items[r] &&
                         forall k :: 0 <= k < r ==> item !in items[k]) ==>
      index.Some? && index.value < |items[r]| && items[r][index.value] == item &&
      forall m :: 0 <= m < index.value ==> items[r][m] != item
  {
    for k := 0 to |items|
      invariant forall j :: 0 <= j < k ==> item !in items[j]
    {
      if item in items[k] {
        var i := IndexOf(items[k], item);
        return Some(i);
      }
    }
    return None;
  }

  /*** Collision ***/

  /** check_collision: the closed boxes share at least one point. */
  predicate Collide(a: Rect, b: Rect) {
    !(a.x2 < b.x1 || a.x1 > b.x2 || a.y2 < b.y1 || a.y1 > b.y2)
  }

  /** The test is symmetric. */
  lemma CollideSymmetric(a: Rect, b: Rect)
    ensures Collide(a, b) <==> Collide(b, a)
  {
  }

  /**
   * Boxes that only share part of an edge, or only a corner, count as
   * colliding: side by side with overlapping y ranges, or one on top of the
   * other (a knight standing on a log) with overlapping x ranges.
   */
  lemma TouchingCollide(a: Rect, b: Rect)
    requires a.x1 <= a.x2 && a.y1 <= a.y2 && b.x1 <= b.x2 && b.y1 <= b.y2
    requires || ((a.x2 == b.x1 || b.x2 == a.x1) && a.y1 <= b.y2 && b.y1 <= a.y2)
             || ((a.y2 == b.y1 || b.y2 == a.y1) && a.x1 <= b.x2 && b.x1 <= a.x2)
    ensures Collide(a, b)
  {
  }

  /** For well-formed boxes the test is overlap of the closed x and y intervals. */
  lemma CollideIsIntervalOverlap(a: Rect, b: Rect)
    ensures Collide(a, b) <==> a.x1 <= b.x2 && b.x1 <= a.x2 && a.y1 <= b.y2 && b.y1 <= a.y2
  {
  }

  /*** Placing the chest ***/

  /**
   * place_chest for the log (row, slot) the random choice picked: centred over
   * it, its bottom CHEST_GAP above the log's top, but never above the window.
   */
  function PlaceChest(logs: seq<seq<Rect>>, row: nat, slot: nat): (chest: Rect)
    requires IsGrid(logs, NUM_ROWS, NUM_LOGS_PER_ROW) && row < NUM_ROWS && slot < NUM_LOGS_PER_ROW
    ensures chest.x2 - chest.x1 == KNIGHT_WIDTH && chest.y2 - chest.y1 == KNIGHT_HEIGHT
    ensures chest.y1 >= 0.0
    ensures chest.y1 == if logs[row][slot].y1 - KNIGHT_HEIGHT - CHEST_GAP < 0.0 then 0.0
                        else logs[row][slot].y1 - KNIGHT_HEIGHT - CHEST_GAP
    ensures LogOfRow(logs[row][slot], row) ==>
      chest.x1 - logs[row][slot].x1 == logs[row][slot].x2 - chest.x2 &&
      chest.y2 + CHEST_GAP == logs[row][slot].y1
  {
    var log := logs[row][slot];
    var x := log.x1 + CHEST_INSET;
    var y := log.y1 - KNIGHT_HEIGHT - CHEST_GAP;
    var y' := if y < 0.0 then 0.0 else y;
    Rect(x, y', x + KNIGHT_WIDTH, y' + KNIGHT_HEIGHT)
  }

  /*** Logs ***/

  /** update_game's edge test on a log that has just moved. */
  predicate AtEdge(log: Rect) {
    log.x2 >= WINDOW_WIDTH || log.x1 <= 0.0
  }

  /** The speed a log keeps after its move: reversed at a screen edge, else the same. */
  function Reflect(moved: Rect, speed: real): (next: real)
    ensures Abs(next) == Abs(speed)
    ensures next != speed ==> AtEdge(moved)
    ensures AtEdge(moved) ==> next == -speed
  {
    if AtEdge(moved) then -speed else speed
  }

  function MovedLogs(logs: seq<seq<Rect>>, speeds: seq<seq<real>>): (moved: seq<seq<Rect>>)
    requires IsGrid(logs, NUM_ROWS, NUM_LOGS_PER_ROW) && IsGrid(speeds, NUM_ROWS, NUM_LOGS_PER_ROW)
    ensures IsGrid(moved, NUM_ROWS, NUM_LOGS_PER_ROW)
    ensures forall r, i :: 0 <= r < NUM_ROWS && 0 <= i < NUM_LOGS_PER_ROW ==>
      moved[r][i] == Translate(logs[r][i], speeds[r][i], 0.0)
  {
    seq(NUM_ROWS, r requires 0 <= r < NUM_ROWS =>
      seq(NUM_LOGS_PER_ROW, i requires 0 <= i < NUM_LOGS_PER_ROW =>
        Translate(logs[r][i], speeds[r][i], 0.0)))
  }

  function ReflectedSpeeds(moved: seq<seq<Rect>>, speeds: seq<seq<real>>): (next: seq<seq<real>>)
    requires IsGrid(moved, NUM_ROWS, NUM_LOGS_PER_ROW) && IsGrid(speeds, NUM_ROWS, NUM_LOGS_PER_ROW)
    ensures IsGrid(next, NUM_ROWS, NUM_LOGS_PER_ROW)
    ensures forall r, i :: 0 <= r < NUM_ROWS && 0 <= i < NUM_LOGS_PER_ROW ==>
      next[r][i] == Reflect(moved[r][i], speeds[r][i])
  {
    seq(NUM_ROWS, r requires 0 <= r < NUM_ROWS =>
      seq(NUM_LOGS_PER_ROW, i requires 0 <= i < NUM_LOGS_PER_ROW =>
        Reflect(moved[r][i], speeds[r][i])))
  }

  /*** Logs bouncing off each other ***/

  /** check_log_collisions's answer: do two different logs of the row touch? */
  predicate RowOverlaps(row: seq<Rect>) {
    exists i, j :: 0 <= i < |row| && 0 <= j < |row| && i != j && Collide(row[i], row[j])
  }

  /** check_log_collisions, with its two loops. */
  method CheckLogCollisions(row: seq<Rect>) returns (found: bool)
    ensures found <==> RowOverlaps(row)
  {
    for i := 0 to |row|
      invariant forall a, b :: 0 <= a < i && 0 <= b < |row| && a != b ==> !Collide(row[a], row[b])
    {
      for j := 0 to |row|
        invariant forall b :: 0 <= b < j && i != b ==> !Collide(row[i], row[b])
      {
        if i != j && Collide(row[i], row[j]) {
          return true;
        }
      }
    }
    return false;
  }

  /** How many of the logs row[..n], other than log i itself, touch log i. */
  function Overlaps(row: seq<Rect>, i: nat, n: nat): (count: nat)
    requires i < |row| && n <= |row|
    ensures count <= if i < n then n - 1 else n
  {
    if n == 0 then 0
    else Overlaps(row, i, n - 1) + if n - 1 != i && Collide(row[i], row[n - 1]) then 1 else 0
  }

  /** A speed negated `times` times over. */
  function Negated(speed: real, times: nat): (next: real)
    ensures Abs(next) == Abs(speed)
    ensures times % 2 == 0 ==> next == speed
  {
    if times % 2 == 0 then speed else -speed
  }

  /**
   * handle_log_collisions on one row: log i's speed is negated once for every
   * other log of the row that it touches.
   */
  function FlippedRow(row: seq<Rect>, speeds: seq<real>): (next: seq<real>)
    requires |speeds| == |row|
    ensures |next| == |row|
    ensures forall i :: 0 <= i < |row| ==> Abs(next[i]) == Abs(speeds[i])
  {
    seq(|row|, i requires 0 <= i < |row| => Negated(speeds[i], Overlaps(row, i, |row|)))
  }

  /** A log that touches no other log of its row is counted no overlaps. */
  lemma {:induction false} NoOverlapsCounted(row: seq<Rect>, i: nat, n: nat)
    requires i < |row| && n <= |row|
    requires forall j :: 0 <= j < |row| && j != i ==> !Collide(row[i], row[j])
    ensures Overlaps(row, i, n) == 0
  {
    if n > 0 {
      NoOverlapsCounted(row, i, n - 1);
    }
  }

  /** In a row where no two logs touch, handle_log_collisions changes no speed. */
  lemma FlippedRowUnchanged(row: seq<Rect>, speeds: seq<real>)
    requires |speeds| == |row| && !RowOverlaps(row)
    ensures FlippedRow(row, speeds) == speeds
  {
    forall i | 0 <= i < |row|
      ensures FlippedRow(row, speeds)[i] == speeds[i]
    {
      NoOverlapsCounted(row, i, |row|);
    }
  }

  /** update_game calls handle_log_collisions only when check_log_collisions finds a pair. */
  function RowBounce(row: seq<Rect>, speeds: seq<real>): (next: seq<real>)
    requires |speeds| == |row|
    ensures |next| == |row|
    ensures forall i :: 0 <= i < |row| ==> Abs(next[i]) == Abs(speeds[i])
  {
    if RowOverlaps(row) then FlippedRow(row, speeds) else speeds
  }

  /** That guard changes nothing: the flip alone gives the same speeds. */
  lemma RowBounceIsFlip(row: seq<Rect>, speeds: seq<real>)
    requires |speeds| == |row|
    ensures RowBounce(row, speeds) == FlippedRow(row, speeds)
  {
    if !RowOverlaps(row) {
      FlippedRowUnchanged(row, speeds);
    }
  }

  function BouncedSpeeds(logs: seq<seq<Rect>>, speeds: seq<seq<real>>): (next: seq<seq<real>>)
    requires IsGrid(logs, NUM_ROWS, NUM_LOGS_PER_ROW) && IsGrid(speeds, NUM_ROWS, NUM_LOGS_PER_ROW)
    ensures IsGrid(next, NUM_ROWS, NUM_LOGS_PER_ROW)
    ensures forall r :: 0 <= r < NUM_ROWS ==> next[r] == RowBounce(logs[r], speeds[r])
    ensures forall r, i :: 0 <= r < NUM_ROWS && 0 <= i < NUM_LOGS_PER_ROW ==>
      Abs(next[r][i]) == Abs(speeds[r][i])
  {
    seq(NUM_ROWS, r requires 0 <= r < NUM_ROWS => RowBounce(logs[r], speeds[r]))
  }

  /*** Riding on logs ***/

  /** The first log of a row, from position j on, that the knight touches. */
  function FirstTouched(knight: Rect, row: seq<Rect>, j: nat): (found: Option<nat>)
    decreases |row| - j
    ensures found.Some? ==> j <= found.value < |row|
  {
    if j >= |row| then None
    else if Collide(knight, row[j]) then Some(j)
    else FirstTouched(knight, row, j + 1)
  }

  /** FirstTouched finds a touched log and none before it, or tells that there is none. */
  lemma {:induction false} FirstTouchedIsFirst(knight: Rect, row: seq<Rect>, j: nat)
    decreases |row| - j
    ensures var found := FirstTouched(knight, row, j);
      (found.Some? ==>
         Collide(knight, row[found.value]) &&
         forall k :: j <= k < found.value ==> !Collide(knight, row[k])) &&
      (found.None? ==> forall k :: j <= k < |row| ==> !Collide(knight, row[k]))
  {
    if j < |row| && !Collide(knight, row[j]) {
      FirstTouchedIsFirst(knight, row, j + 1);
    }
  }

  /**
   * How far one row of check_knight_on_log moves the knight along x: half the
   * speed of the first log of the row it touches, or nothing if it touches none.
   */
  function RowNudge(knight: Rect, row: seq<Rect>, speeds: seq<real>): (nudge: real)
    requires |speeds| == |row|
    ensures (forall j :: 0 <= j < |row| ==> !Collide(knight, row[j])) ==> nudge == 0.0
    ensures nudge != 0.0 ==>
      exists j :: 0 <= j < |row| && Collide(knight, row[j]) && nudge == speeds[j] * 0.5
  {
    FirstTouchedIsFirst(knight, row, 0);
    match FirstTouched(knight, row, 0)
    case None => 0.0
    case Some(j) => speeds[j] * 0.5
  }

  /** A nudge is at most half the largest speed of the row. */
  lemma RowNudgeBound(knight: Rect, row: seq<Rect>, speeds: seq<real>, bound: real)
    requires |speeds| == |row| && 0.0 <= bound
    requires forall i :: 0 <= i < |row| ==> -bound <= speeds[i] <= bound
    ensures -bound / 2.0 <= RowNudge(knight, row, speeds) <= bound / 2.0
    ensures FirstTouched(knight, row, 0).None? ==> RowNudge(knight, row, speeds) == 0.0
  {
  }

  /** Where check_knight_on_log leaves the knight, and how many rows moved it. */
  datatype Ride = Ride(knight: Rect, nudges: nat)

  /**
   * check_knight_on_log from row r up: each row nudges the knight (see RowNudge)
   * and counts if the knight touched one of its logs, and the rows above see the
   * nudged knight (the `break` leaves only the loop over the row's logs).
   */
  function RideFrom(knight: Rect, logs: seq<seq<Rect>>, speeds: seq<seq<real>>, r: nat): (ride: Ride)
    requires IsGrid(logs, NUM_ROWS, NUM_LOGS_PER_ROW) && IsGrid(speeds, NUM_ROWS, NUM_LOGS_PER_ROW)
    requires r <= NUM_ROWS
    decreases NUM_ROWS - r
    ensures ride.nudges <= NUM_ROWS - r
  {
    if r == NUM_ROWS then Ride(knight, 0)
    else
      var touched := FirstTouched(knight, logs[r], 0).Some?;
      var rest := RideFrom(Translate(knight, RowNudge(knight, logs[r], speeds[r]), 0.0), logs, speeds, r + 1);
      Ride(rest.knight, if touched then rest.nudges + 1 else rest.nudges)
  }

  /** Riding moves the knight along x only and keeps its width. */
  lemma {:induction false} RideKeepsHeight(knight: Rect, logs: seq<seq<Rect>>, speeds: seq<seq<real>>, r: nat)
    requires IsGrid(logs, NUM_ROWS, NUM_LOGS_PER_ROW) && IsGrid(speeds, NUM_ROWS, NUM_LOGS_PER_ROW)
    requires r <= NUM_ROWS
    decreases NUM_ROWS - r
    ensures var ride := RideFrom(knight, logs, speeds, r);
      && ride.knight.y1 == knight.y1 && ride.knight.y2 == knight.y2
      && ride.knight.x2 - ride.knight.x1 == knight.x2 - knight.x1
  {
    if r < NUM_ROWS {
      RideKeepsHeight(Translate(knight, RowNudge(knight, logs[r], speeds[r]), 0.0), logs, speeds, r + 1);
    }
  }

  /**
   * No row counts the knight as on a log exactly when, in the rows checked, it
   * touches no log at all; the knight then stays where it was.
   */
  lemma {:induction false} RideStillIffUntouched(knight: Rect, logs: seq<seq<Rect>>, speeds: seq<seq<real>>, r: nat)
    requires IsGrid(logs, NUM_ROWS, NUM_LOGS_PER_ROW) && IsGrid(speeds, NUM_ROWS, NUM_LOGS_PER_ROW)
    requires r <= NUM_ROWS
    decreases NUM_ROWS - r
    ensures RideFrom(knight, logs, speeds, r).nudges == 0 <==>
      forall k, i :: r <= k < NUM_ROWS && 0 <= i < NUM_LOGS_PER_ROW ==> !Collide(knight, logs[k][i])
    ensures RideFrom(knight, logs, speeds, r).nudges == 0 ==> RideFrom(knight, logs, speeds, r).knight == knight
  {
    if r < NUM_ROWS {
      FirstTouchedIsFirst(knight, logs[r], 0);
      var nudged := Translate(knight, RowNudge(knight, logs[r], speeds[r]), 0.0);
      if FirstTouched(knight, logs[r], 0).None? {
        assert nudged == knight;
      }
      RideStillIffUntouched(nudged, logs, speeds, r + 1);
    }
  }

  /**
   * With speeds between -INITIAL_LOG_SPEED and INITIAL_LOG_SPEED, each counted
   * row moves the knight by at most half of that, 3, and the others not at all.
   */
  lemma {:induction false} RideDrift(knight: Rect, logs: seq<seq<Rect>>, speeds: seq<seq<real>>, r: nat)
    requires IsGrid(logs, NUM_ROWS, NUM_LOGS_PER_ROW) && IsGrid(speeds, NUM_ROWS, NUM_LOGS_PER_ROW)
    requires r <= NUM_ROWS
    requires forall k, i :: 0 <= k < NUM_ROWS && 0 <= i < NUM_LOGS_PER_ROW ==>
      -INITIAL_LOG_SPEED <= speeds[k][i] <= INITIAL_LOG_SPEED
    decreases NUM_ROWS - r
    ensures var ride := RideFrom(knight, logs, speeds, r);
      var drift := ride.knight.x1 - knight.x1;
      var n := ride.nudges as real;
      -3.0 * n <= drift <= 3.0 * n
  {
    var ride := RideFrom(knight, logs, speeds, r);
    if r < NUM_ROWS {
      var nudge := RowNudge(knight, logs[r], speeds[r]);
      var nudged := Translate(knight, nudge, 0.0);
      RowNudgeBound(knight, logs[r], speeds[r], INITIAL_LOG_SPEED);
      RideDrift(nudged, logs, speeds, r + 1);
      var rest := RideFrom(nudged, logs, speeds, r + 1);
      if FirstTouched(knight, logs[r], 0).Some? {
        assert ride.nudges as real == rest.nudges as real + 1.0;
      } else {
        assert ride.nudges == rest.nudges;
      }
    } else {
      assert ride.nudges == 0 && ride.knight == knight;
    }
  }

  /*** Gravity ***/

  /** One tick of gravity with the cap. */
  function Gravity(velocityY: real): (next: real)
    requires 0.0 <= velocityY <= MAX_FALL_VELOCITY
    ensures 0.0 < next <= MAX_FALL_VELOCITY
    ensures next == if velocityY + GRAVITY > MAX_FALL_VELOCITY then MAX_FALL_VELOCITY else velocityY + GRAVITY
  {
    var v := velocityY + GRAVITY;
    if v > MAX_FALL_VELOCITY then MAX_FALL_VELOCITY else v
  }

  /** n ticks of gravity in a row. */
  function GravityTimes(velocityY: real, n: nat): (next: real)
    requires 0.0 <= velocityY <= MAX_FALL_VELOCITY
    ensures velocityY <= next <= MAX_FALL_VELOCITY
    ensures n > 0 ==> 0.0 < next
  {
    if n == 0 then velocityY else Gravity(GravityTimes(velocityY, n - 1))
  }

  /** n ticks of gravity give min(v + n * GRAVITY, MAX_FALL_VELOCITY). */
  lemma {:induction false} GravityTimesIsCapped(velocityY: real, n: nat)
    requires 0.0 <= velocityY <= MAX_FALL_VELOCITY
    ensures GravityTimes(velocityY, n) ==
      if velocityY + n as real * GRAVITY > MAX_FALL_VELOCITY then MAX_FALL_VELOCITY
      else velocityY + n as real * GRAVITY
  {
    if n > 0 {
      GravityTimesIsCapped(velocityY, n - 1);
    }
  }

  /*** The game state and its steps ***/

  datatype State = State(
    logs: seq<seq<Rect>>,    // canvas coordinates of self.logs[row][i]
    speeds: seq<seq<real>>,  // self.log_speeds
    knight: Rect,
    velocityY: real,
    onLog: bool,
    falling: bool,
    chest: Rect,
    score: int,
    missionCompleted: bool)

  /** What every step keeps true. */
  ghost predicate Inv(s: State) {
    && IsGrid(s.logs, NUM_ROWS, NUM_LOGS_PER_ROW)
    && IsGrid(s.speeds, NUM_ROWS, NUM_LOGS_PER_ROW)
    && (forall r, i :: 0 <= r < NUM_ROWS && 0 <= i < NUM_LOGS_PER_ROW ==>
          LogOfRow(s.logs[r][i], r) && Abs(s.speeds[r][i]) <= INITIAL_LOG_SPEED)
    && 0.0 <= s.velocityY <= MAX_FALL_VELOCITY
    && s.score >= 0 && s.score % CHEST_POINTS == 0
  }

  /**
   * The state the constructor builds, before its first call of update_game.
   * `speeds` are the random.uniform draws, (chestRow, chestSlot) the first chest's log.
   */
  function Initial(speeds: seq<seq<real>>, chestRow: nat, chestSlot: nat): (s: State)
    requires IsGrid(speeds, NUM_ROWS, NUM_LOGS_PER_ROW)
    requires forall r, i :: 0 <= r < NUM_ROWS && 0 <= i < NUM_LOGS_PER_ROW ==>
      -INITIAL_LOG_SPEED <= speeds[r][i] <= INITIAL_LOG_SPEED
    requires chestRow < NUM_ROWS && chestSlot < NUM_LOGS_PER_ROW
    ensures Inv(s)
    ensures s.score == 0 && s.velocityY == 0.0 && !s.onLog && !s.falling && !s.missionCompleted
  {
    State(InitialLogs(), speeds, InitialKnight(), 0.0, false, false,
          PlaceChest(InitialLogs(), chestRow, chestSlot), 0, false)
  }

  /** update_game's first two loops: move and reflect every log, then bounce the rows. */
  function LogsTick(s: State): (t: State)
    requires Inv(s)
    ensures Inv(t)
    ensures t == s.(logs := t.logs, speeds := t.speeds)
    ensures t.logs == MovedLogs(s.logs, s.speeds)
    ensures t.speeds == BouncedSpeeds(t.logs, ReflectedSpeeds(t.logs, s.speeds))
  {
    var logs := MovedLogs(s.logs, s.speeds);
    s.(logs := logs, speeds := BouncedSpeeds(logs, ReflectedSpeeds(logs, s.speeds)))
  }

  /**
   * check_knight_on_log as a step of the state: the knight rides the logs it
   * touches, is on a log if any row counted it, and then stops falling.
   */
  function RideTick(u: State): (t: State)
    requires IsGrid(u.logs, NUM_ROWS, NUM_LOGS_PER_ROW) && IsGrid(u.speeds, NUM_ROWS, NUM_LOGS_PER_ROW)
    ensures t.velocityY == if t.onLog then 0.0 else u.velocityY
  {
    var ride := RideFrom(u.knight, u.logs, u.speeds, 0);
    var onLog := ride.nudges > 0;
    u.(knight := ride.knight, onLog := onLog, velocityY := if onLog then 0.0 else u.velocityY)
  }

  /**
   * The end of update_game: capped gravity when the knight is falling or on no
   * log, the drop by the vertical velocity, and the loss at the bottom.
   */
  function DropTick(v: State): (t: State)
    requires 0.0 <= v.velocityY <= MAX_FALL_VELOCITY
    ensures 0.0 <= t.velocityY <= MAX_FALL_VELOCITY
    ensures t == v.(knight := t.knight, velocityY := t.velocityY, missionCompleted := t.missionCompleted)
    ensures var applied := if v.falling || !v.onLog then Gravity(v.velocityY) else v.velocityY;
      && t.knight == Translate(v.knight, 0.0, applied)
      && (t.missionCompleted <==> v.missionCompleted || t.knight.y1 >= WINDOW_HEIGHT)
      && t.velocityY == if t.knight.y1 >= WINDOW_HEIGHT then 0.0 else applied
  {
    var velocityY := if v.falling || !v.onLog then Gravity(v.velocityY) else v.velocityY;
    var knight := Translate(v.knight, 0.0, velocityY);
    if knight.y1 >= WINDOW_HEIGHT then v.(knight := knight, velocityY := 0.0, missionCompleted := true)
    else v.(knight := knight, velocityY := velocityY)
  }

  /**
   * update_game: move and reflect the logs, bounce logs of a row off each other,
   * let the knight ride the logs it stands on, apply capped gravity when the
   * knight is falling or on no log, drop it, and check for a loss.
   */
  function Tick(s: State): (t: State)
    requires Inv(s)
    ensures Inv(t)
    ensures s.missionCompleted ==> t == s
    ensures t.falling == s.falling && t.chest == s.chest && t.score == s.score
  {
    if s.missionCompleted then s else DropTick(RideTick(LogsTick(s)))
  }

  /**
   * What a tick does to the knight: it is on a log exactly when it touched one
   * of the moved logs; it then loses its vertical speed unless it is falling;
   * gravity acts otherwise; it never rises, drifts by at most 18 along x, and
   * the game is lost exactly when its top reaches the bottom of the window.
   */
  lemma TickKnight(s: State)
    requires Inv(s) && !s.missionCompleted
    ensures var t := Tick(s);
      && (!t.onLog <==> forall k, i :: 0 <= k < NUM_ROWS && 0 <= i < NUM_LOGS_PER_ROW ==>
                                        !Collide(s.knight, t.logs[k][i]))
      && (t.missionCompleted <==> t.knight.y1 >= WINDOW_HEIGHT)
      && (t.missionCompleted ==> t.velocityY == 0.0)
      && (!t.missionCompleted ==>
            t.velocityY == if s.falling || !t.onLog then Gravity(if t.onLog then 0.0 else s.velocityY) else 0.0)
      && t.knight == Translate(RideFrom(s.knight, t.logs, t.speeds, 0).knight, 0.0,
                               if s.falling || !t.onLog then Gravity(if t.onLog then 0.0 else s.velocityY) else 0.0)
      && (!t.onLog ==> t.knight.x1 == s.knight.x1 && t.knight.x2 == s.knight.x2)
      && t.knight.y1 >= s.knight.y1 && t.knight.y2 - t.knight.y1 == s.knight.y2 - s.knight.y1
      && -18.0 <= t.knight.x1 - s.knight.x1 <= 18.0  // NUM_ROWS rows of at most 3
  {
    var u := LogsTick(s);
    assert Tick(s) == DropTick(RideTick(u));
    RideStillIffUntouched(s.knight, u.logs, u.speeds, 0);
    RideKeepsHeight(s.knight, u.logs, u.speeds, 0);
    RideDrift(s.knight, u.logs, u.speeds, 0);
  }

  /** A knight below the bottom row of logs, where no log can reach it. */
  predicate BelowLogs(knight: Rect) {
    knight.y1 > RowY(0) + LOG_HEIGHT
  }

  /** n update_game ticks and nothing else. */
  function Ticks(n: nat): (events: seq<Event>)
    ensures |events| == n
    ensures forall k :: 0 <= k < n ==> events[k] == TickEvent
  {
    if n == 0 then [] else [TickEvent] + Ticks(n - 1)
  }

  /** The state after n calls of update_game and nothing else. */
  function TickTimes(s: State, n: nat): (t: State)
    requires Inv(s)
    ensures Inv(t)
    ensures s.missionCompleted ==> t == s
    decreases n
  {
    if n == 0 then s else TickTimes(Tick(s), n - 1)
  }

  /** Running n tick events is ticking n times. */
  lemma {:induction false} RunTicksIsTickTimes(s: State, n: nat)
    requires Inv(s)
    ensures Run(s, Ticks(n)) == TickTimes(s, n)
    decreases n
  {
    if n > 0 {
      var m: nat := n - 1;
      RunTicksUnfold(s, m);
      RunTicksIsTickTimes(Tick(s), m);
    }
  }

  /**
   * A knight below every log falls freely: after n ticks its velocity is the
   * capped n-fold gravity step and its x is unchanged, unless the game was
   * lost on the way.
   */
  lemma {:induction false} FreeFall(s: State, n: nat)
    requires Inv(s) && !s.missionCompleted && BelowLogs(s.knight)
    ensures var t := TickTimes(s, n);
      t.missionCompleted || (t.velocityY == GravityTimes(s.velocityY, n) && t.knight.x1 == s.knight.x1)
    decreases n
  {
    if n > 0 {
      var m: nat := n - 1;
      var t := BelowLogsStep(s, m);
      if !t.missionCompleted {
        FreeFall(t, m);
        FallsOn(s, t, TickTimes(t, m), m);
      }
    }
  }

  /**
   * One gravity step and x kept by the first tick, then m gravity steps and
   * x kept by the rest, make m + 1 gravity steps and x kept, unless the game
   * is lost on the way.
   */
  lemma FallsOn(s: State, t: State, r: State, m: nat)
    requires 0.0 <= s.velocityY <= MAX_FALL_VELOCITY && 0.0 <= t.velocityY <= MAX_FALL_VELOCITY
    requires t.missionCompleted || (t.velocityY == Gravity(s.velocityY) && t.knight.x1 == s.knight.x1)
    requires t.missionCompleted ==> r.missionCompleted
    requires !t.missionCompleted ==>
      r.missionCompleted || (r.velocityY == GravityTimes(t.velocityY, m) && r.knight.x1 == t.knight.x1)
    ensures r.missionCompleted || (r.velocityY == GravityTimes(s.velocityY, m + 1) && r.knight.x1 == s.knight.x1)
  {
    GravityTimesShift(s.velocityY, m + 1);
  }

  /** None of the next n ticks finds the knight on a log. */
  ghost predicate OffLogsFor(s: State, n: nat)
    requires Inv(s)
    decreases n
  {
    n == 0 || (!Tick(s).onLog && OffLogsFor(Tick(s), n - 1))
  }

  /**
   * The same free fall wherever the knight is, as long as no tick of the run
   * finds it on a log: each tick applies one gravity step and keeps its x,
   * unless the game is lost on the way.
   */
  lemma {:induction false} FallWithoutLogs(s: State, n: nat)
    requires Inv(s) && !s.missionCompleted && OffLogsFor(s, n)
    ensures var t := TickTimes(s, n);
      t.missionCompleted || (t.velocityY == GravityTimes(s.velocityY, n) && t.knight.x1 == s.knight.x1)
    decreases n
  {
    if n > 0 {
      var m: nat := n - 1;
      var t := OffLogsStep(s, m);
      if !t.missionCompleted {
        FallWithoutLogs(t, m);
        FallsOn(s, t, TickTimes(t, m), m);
      }
    }
  }

  /**
   * The first of m + 1 ticks below every log: t, the state after it, is
   * again below every log, one gravity step faster and at the same x, unless
   * it lost.
   */
  lemma BelowLogsStep(s: State, m: nat) returns (t: State)
    requires Inv(s) && !s.missionCompleted && BelowLogs(s.knight)
    ensures Inv(t) && TickTimes(s, m + 1) == TickTimes(t, m)
    ensures t.missionCompleted ==> TickTimes(s, m + 1) == t
    ensures !t.missionCompleted ==>
      BelowLogs(t.knight) && t.velocityY == Gravity(s.velocityY) && t.knight.x1 == s.knight.x1
  {
    t := Tick(s);
    TickBelowLogs(s);
  }

  /**
   * The first of m + 1 ticks that never find the knight on a log: t, the
   * state after it, starts m such ticks, one gravity step faster and at the
   * same x, unless it lost.
   */
  lemma OffLogsStep(s: State, m: nat) returns (t: State)
    requires Inv(s) && !s.missionCompleted && OffLogsFor(s, m + 1)
    ensures Inv(t) && TickTimes(s, m + 1) == TickTimes(t, m)
    ensures t.missionCompleted ==> TickTimes(s, m + 1) == t
    ensures !t.missionCompleted ==>
      OffLogsFor(t, m) && t.velocityY == Gravity(s.velocityY) && t.knight.x1 == s.knight.x1
  {
    t := Tick(s);
    TickOffLogs(s);
  }

  /** A tick that leaves the knight on no log applies one gravity step and keeps its x, unless it loses. */
  lemma TickOffLogs(s: State)
    requires Inv(s) && !s.missionCompleted && !Tick(s).onLog
    ensures var t := Tick(s);
      t.missionCompleted || (t.velocityY == Gravity(s.velocityY) && t.knight.x1 == s.knight.x1)
  {
    TickKnight(s);
  }

  /** The first of m + 1 ticks, then the other m. */
  lemma RunTicksUnfold(s: State, m: nat)
    requires Inv(s)
    ensures Run(s, Ticks(m + 1)) == Run(Tick(s), Ticks(m))
  {
    var events := Ticks(m + 1);
    assert Step(s, events[0]) == Tick(s);
    assert events[1..] == Ticks(m);
  }

  /** One tick below every log: no log is touched, so gravity alone moves the knight. */
  lemma TickBelowLogs(s: State)
    requires Inv(s) && !s.missionCompleted && BelowLogs(s.knight)
    ensures var t := Tick(s);
      t.missionCompleted ||
      (t.velocityY == Gravity(s.velocityY) && t.knight.x1 == s.knight.x1 && BelowLogs(t.knight))
  {
    var t := Tick(s);
    NoLogReachesBelow(s.knight, t.logs);
    TickKnight(s);
  }

  /** Every log lies above a knight that is below the bottom row. */
  lemma NoLogReachesBelow(knight: Rect, logs: seq<seq<Rect>>)
    requires IsGrid(logs, NUM_ROWS, NUM_LOGS_PER_ROW)
    requires forall r, i :: 0 <= r < NUM_ROWS && 0 <= i < NUM_LOGS_PER_ROW ==> LogOfRow(logs[r][i], r)
    requires BelowLogs(knight)
    ensures forall r, i :: 0 <= r < NUM_ROWS && 0 <= i < NUM_LOGS_PER_ROW ==> !Collide(knight, logs[r][i])
  {
  }

  /** Applying gravity once and then n - 1 more times is applying it n times. */
  lemma {:induction false} GravityTimesShift(velocityY: real, n: nat)
    requires 0.0 <= velocityY <= MAX_FALL_VELOCITY && n > 0
    ensures GravityTimes(Gravity(velocityY), n - 1) == GravityTimes(velocityY, n)
    decreases n
  {
    if n > 1 {
      GravityTimesShift(velocityY, n - 1);
    }
  }

  /** Every log moves by its own speed along x only, and keeps its row's y. */
  lemma TickMovesLogs(s: State, r: nat, i: nat)
    requires Inv(s) && !s.missionCompleted && r < NUM_ROWS && i < NUM_LOGS_PER_ROW
    ensures Tick(s).logs[r][i] == Translate(s.logs[r][i], s.speeds[r][i], 0.0)
    ensures Tick(s).logs[r][i].y1 == s.logs[r][i].y1 == RowY(r)
  {
  }

  /**
   * A log's speed after a tick: reversed at a screen edge, then negated once
   * per other log of its row that it touches; its magnitude never changes.
   */
  lemma TickLogSpeed(s: State, r: nat, i: nat)
    requires Inv(s) && !s.missionCompleted && r < NUM_ROWS && i < NUM_LOGS_PER_ROW
    ensures var t := Tick(s);
      && t.speeds[r][i] == Negated(Reflect(t.logs[r][i], s.speeds[r][i]), Overlaps(t.logs[r], i, NUM_LOGS_PER_ROW))
      && Abs(t.speeds[r][i]) == Abs(s.speeds[r][i])
  {
    var t := Tick(s);
    var reflected := ReflectedSpeeds(t.logs, s.speeds);
    RowBounceIsFlip(t.logs[r], reflected[r]);
  }

  /**
   * move_knight (and jump_knight, which only calls it): move the knight, win at
   * the top, otherwise collect the chest if touched and place a new one over
   * the log (row, slot) chosen at random.
   */
  function KnightMove(s: State, dx: real, dy: real, row: nat, slot: nat): (t: State)
    requires Inv(s) && row < NUM_ROWS && slot < NUM_LOGS_PER_ROW
    ensures Inv(t)
    ensures t.knight == Translate(s.knight, dx, dy)
    ensures t.missionCompleted <==> s.missionCompleted || t.knight.y1 <= 0.0
    ensures t.velocityY == s.velocityY && t.falling == s.falling && t.onLog == s.onLog
    ensures t.logs == s.logs && t.speeds == s.speeds
    ensures t.score != s.score <==> t.knight.y1 > 0.0 && Collide(t.knight, s.chest)
    ensures t.score != s.score ==>
      t.score == s.score + CHEST_POINTS && t.chest == PlaceChest(s.logs, row, slot)
    ensures t.score == s.score ==> t.chest == s.chest
  {
    var knight := Translate(s.knight, dx, dy);
    if knight.y1 <= 0.0 then s.(knight := knight, missionCompleted := true)
    else if Collide(knight, s.chest) then
      s.(knight := knight, score := s.score + CHEST_POINTS, chest := PlaceChest(s.logs, row, slot))
    else s.(knight := knight)
  }

  /*** Sequences of calls ***/

  /** What the host can do: one update_game tick, a move/jump key, or the Down key. */
  datatype Event =
    | TickEvent
    | MoveEvent(dx: real, dy: real, chestRow: nat, chestSlot: nat)
    | FallEvent

  predicate EventOk(e: Event) {
    e.MoveEvent? ==> e.chestRow < NUM_ROWS && e.chestSlot < NUM_LOGS_PER_ROW
  }

  function Step(s: State, e: Event): (t: State)
    requires Inv(s) && EventOk(e)
    ensures Inv(t)
  {
    match e
    case TickEvent => Tick(s)
    case MoveEvent(dx, dy, row, slot) => KnightMove(s, dx, dy, row, slot)
    case FallEvent => s.(falling := true)
  }

  /** The state after a sequence of calls, in order. */
  function Run(s: State, events: seq<Event>): (t: State)
    requires Inv(s) && forall k :: 0 <= k < |events| ==> EventOk(events[k])
    ensures Inv(t)
    decreases |events|
  {
    if events == [] then s else Run(Step(s, events[0]), events[1..])
  }

  /** Once set, neither the falling flag nor the mission flag is ever cleared. */
  lemma {:induction false} FlagsStaySet(s: State, events: seq<Event>)
    requires Inv(s) && forall k :: 0 <= k < |events| ==> EventOk(events[k])
    ensures s.falling ==> Run(s, events).falling
    ensures s.missionCompleted ==> Run(s, events).missionCompleted
    decreases |events|
  {
    if events != [] {
      FlagsStaySet(Step(s, events[0]), events[1..]);
    }
  }

  /** Only the Down key sets the falling flag. */
  lemma {:induction false} OnlyDownStartsFalling(s: State, events: seq<Event>)
    requires Inv(s) && forall k :: 0 <= k < |events| ==> EventOk(events[k]) && !events[k].FallEvent?
    ensures Run(s, events).falling == s.falling
    decreases |events|
  {
    if events != [] {
      OnlyDownStartsFalling(Step(s, events[0]), events[1..]);
    }
  }

  /** Once the mission is completed, any number of ticks leaves the state as it is. */
  lemma {:induction false} CompletedGameIgnoresTicks(s: State, n: nat)
    requires Inv(s) && s.missionCompleted
    ensures Run(s, seq(n, _ => TickEvent)) == s
    decreases n
  {
    if n > 0 {
      assert seq(n, _ => TickEvent)[1..] == seq(n - 1, _ => TickEvent);
      CompletedGameIgnoresTicks(s, n - 1);
    }
  }

  /** n presses of the jump key, each placing a collected chest over log (0, 0). */
  function Jumps(n: nat): (events: seq<Event>)
    ensures |events| == n
    ensures forall k :: 0 <= k < n ==> events[k] == MoveEvent(0.0, -JUMP_DISTANCE, 0, 0)
  {
    if n == 0 then [] else [MoveEvent(0.0, -JUMP_DISTANCE, 0, 0)] + Jumps(n - 1)
  }

  /**
   * n jumps lift the knight by n * JUMP_DISTANCE; the mission is completed
   * exactly when the knight's top reaches 0, provided no earlier jump got there.
   */
  lemma {:induction false} JumpsClimb(s: State, n: nat)
    requires Inv(s) && !s.missionCompleted
    requires n > 0 && s.knight.y1 - (n - 1) as real * JUMP_DISTANCE > 0.0
    ensures var t := Run(s, Jumps(n));
      t.knight.y1 == s.knight.y1 - n as real * JUMP_DISTANCE &&
      (t.missionCompleted <==> t.knight.y1 <= 0.0)
    decreases n
  {
    var t := KnightMove(s, 0.0, -JUMP_DISTANCE, 0, 0);
    assert Step(s, Jumps(n)[0]) == t;
    assert Jumps(n)[1..] == Jumps(n - 1);
    if n > 1 {
      JumpsClimb(t, n - 1);
    } else {
      assert Run(t, Jumps(0)) == t;
    }
  }

  /** From the start, six jumps leave the game running and the seventh wins it. */
  lemma SeventhJumpWins(speeds: seq<seq<real>>, chestRow: nat, chestSlot: nat)
    requires IsGrid(speeds, NUM_ROWS, NUM_LOGS_PER_ROW)
    requires forall r, i :: 0 <= r < NUM_ROWS && 0 <= i < NUM_LOGS_PER_ROW ==>
      -INITIAL_LOG_SPEED <= speeds[r][i] <= INITIAL_LOG_SPEED
    requires chestRow < NUM_ROWS && chestSlot < NUM_LOGS_PER_ROW
    ensures !Run(Initial(speeds, chestRow, chestSlot), Jumps(6)).missionCompleted
    ensures Run(Initial(speeds, chestRow, chestSlot), Jumps(7)).missionCompleted
  {
    var s := Initial(speeds, chestRow, chestSlot);
    JumpsClimb(s, 6);
    JumpsClimb(s, 7);
  }
}
