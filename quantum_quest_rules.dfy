/**
 * The rules of the Quantumquest.py variant of the frog/knight jump game, written
 * as functions of the whole game state. The class QuantumQuest.FrogJumpGame takes
 * the same steps in place, field by field, and is proved to agree with them.
 *
 * Row 0 is the bottom row of logs; y grows downwards, so the knight wins by
 * reaching y <= 0 and loses by dropping to y >= WINDOW_HEIGHT.
 *
 * Members such as Reflect, MovedLogs, ReflectedSpeeds, InitialKnight, Event
 * and Run are written here and again in GameRules on purpose: the two source
 * files are independent programs, and each module models one of them.
 */
module QuantumQuestRules {
  import opened Canvas

  const WINDOW_WIDTH: real := 1000.0
  const WINDOW_HEIGHT: real := 800.0
  const LOG_WIDTH: real := 100.0
  const LOG_HEIGHT: real := 20.0
  const NUM_LOGS_PER_ROW: nat := 3
  const NUM_ROWS: nat := 6
  const INITIAL_LOG_SPEED: real := 5.0
  const JUMP_DISTANCE: real := 100.0
  const KNIGHT_WIDTH: real := 30.0
  const KNIGHT_HEIGHT: real := 30.0
  const GRAVITY: real := 0.5
  const BALL_RADIUS: real := 10.0
  const MAX_BALLS: nat := 3

  // Values the source writes inline.
  const LEFT_LOG_X: real := 150.0      // x of the first log of every row
  const LOG_STRIDE: real := 333.0      // WINDOW_WIDTH // NUM_LOGS_PER_ROW
  const KNIGHT_START_X: real := 185.0  // LEFT_LOG_X + LOG_WIDTH // 2 - KNIGHT_WIDTH // 2
  const CHEST_INSET: real := 35.0      // (LOG_WIDTH - KNIGHT_WIDTH) // 2
  const CHEST_GAP: real := 10.0        // between a chest's bottom and its log's top
  const BALL_INSET: real := 45.0       // (LOG_WIDTH - BALL_RADIUS) // 2
  const BALL_STEP: real := 5.0         // how far a ball drops per tick
  const CHEST_POINTS: int := 10
  const BALL_PENALTY: int := 2

  /*** Layout ***/

  /** Top y of the logs of a row. */
  function RowY(row: int): (y: real) {
    WINDOW_HEIGHT - (row + 1) as real * JUMP_DISTANCE
  }

  /** A log of the given row has the row's y and the size every log is created with. */
  predicate LogOfRow(log: Rect, row: nat) {
    log.y1 == RowY(row) && log.y2 == log.y1 + LOG_HEIGHT && log.x2 == log.x1 + LOG_WIDTH
  }

  /** The logs the constructor creates, row by row. */
  function InitialLogs(): (logs: seq<seq<Rect>>)
    ensures IsGrid(logs, NUM_ROWS, NUM_LOGS_PER_ROW)
    ensures forall r, i :: 0 <= r < NUM_ROWS && 0 <= i < NUM_LOGS_PER_ROW ==>
      LogOfRow(logs[r][i], r) && logs[r][i].x1 == LEFT_LOG_X + i as real * LOG_STRIDE
    ensures forall r, i :: 0 <= r < NUM_ROWS && 0 <= i < NUM_LOGS_PER_ROW ==>
      0.0 < logs[r][i].x1 && logs[r][i].x2 < WINDOW_WIDTH
    ensures forall r, i :: 0 <= r < NUM_ROWS && 0 <= i < NUM_LOGS_PER_ROW - 1 ==>
      logs[r][i].x2 < logs[r][i + 1].x1
  {
    seq(NUM_ROWS, r =>
      seq(NUM_LOGS_PER_ROW, i =>
        var x := LEFT_LOG_X + i as real * LOG_STRIDE;
        Rect(x, RowY(r), x + LOG_WIDTH, RowY(r) + LOG_HEIGHT)))
  }

  /** Log speeds of the constructor: +INITIAL_LOG_SPEED where the coin said so, else the opposite. */
  function InitialSpeeds(rightward: seq<seq<bool>>): (speeds: seq<seq<real>>)
    requires IsGrid(rightward, NUM_ROWS, NUM_LOGS_PER_ROW)
    ensures IsGrid(speeds, NUM_ROWS, NUM_LOGS_PER_ROW)
    ensures forall r, i :: 0 <= r < NUM_ROWS && 0 <= i < NUM_LOGS_PER_ROW ==>
      Abs(speeds[r][i]) == INITIAL_LOG_SPEED && (speeds[r][i] > 0.0 <==> rightward[r][i])
  {
    seq(NUM_ROWS, r requires 0 <= r < NUM_ROWS =>
      seq(NUM_LOGS_PER_ROW, i requires 0 <= i < NUM_LOGS_PER_ROW =>
        if rightward[r][i] then INITIAL_LOG_SPEED else -INITIAL_LOG_SPEED))
  }

  /** The knight's starting rectangle, on top of the bottom row. */
  function InitialKnight(): (knight: Rect)
    ensures knight.x2 - knight.x1 == KNIGHT_WIDTH && knight.y2 - knight.y1 == KNIGHT_HEIGHT
    ensures knight.y2 == RowY(0) && knight.x1 == KNIGHT_START_X
  {
    var y := WINDOW_HEIGHT - JUMP_DISTANCE - KNIGHT_HEIGHT;
    Rect(KNIGHT_START_X, y, KNIGHT_START_X + KNIGHT_WIDTH, y + KNIGHT_HEIGHT)
  }

  /**
   * The canvas item ids of the logs. Tk numbers canvas items 1, 2, 3, ... in
   * creation order, and the constructor creates the logs first, row by row.
   */
  function LogItems(): (items: seq<seq<int>>)
    ensures IsGrid(items, NUM_ROWS, NUM_LOGS_PER_ROW)
    ensures forall r, i :: 0 <= r < NUM_ROWS && 0 <= i < NUM_LOGS_PER_ROW ==>
      items[r][i] == 1 + r * NUM_LOGS_PER_ROW + i
  {
    seq(NUM_ROWS, r => seq(NUM_LOGS_PER_ROW, i => 1 + r * NUM_LOGS_PER_ROW + i))
  }

  /**
   * get_log_row: the first row whose list holds the item, -1 when none does.
   */
  method GetLogRow(items: seq<seq<int>>, item: int) returns (row: int)
    ensures -1 <= row < |items|
    ensures row == -1 <==> forall k :: 0 <= k < |items| ==> item !in items[k]
    ensures row >= 0 ==> item in items[row] && forall k :: 0 <= k < row ==> item !in items[k]
  {
    for k := 0 to |items|
      invariant forall j :: 0 <= j < k ==> item !in items[j]
    {
      if item in items[k] {
        return k;
      }
    }
    return -1;
  }

  /*** Placing chests and balls ***/

  /** place_chest for the log the random choice picked: centred over it, just above it. */
  function PlaceChest(logs: seq<seq<Rect>>, row: nat, slot: nat): (chest: Rect)
    requires IsGrid(logs, NUM_ROWS, NUM_LOGS_PER_ROW) && row < NUM_ROWS && slot < NUM_LOGS_PER_ROW
    ensures chest.x2 - chest.x1 == KNIGHT_WIDTH && chest.y2 - chest.y1 == KNIGHT_HEIGHT
    ensures chest.y2 + CHEST_GAP == logs[row][slot].y1
    ensures LogOfRow(logs[row][slot], row) ==>
      chest.x1 - logs[row][slot].x1 == logs[row][slot].x2 - chest.x2
  {
    var log := logs[row][slot];
    var x := log.x1 + CHEST_INSET;
    var y := log.y1 - KNIGHT_HEIGHT - CHEST_GAP;
    Rect(x, y, x + KNIGHT_WIDTH, y + KNIGHT_HEIGHT)
  }

  /** spawn_falling_ball's ball for the chosen log: centred on it, resting on its top. */
  function BallAbove(log: Rect): (ball: Rect)
    ensures ball.x2 - ball.x1 == BALL_RADIUS && ball.y2 - ball.y1 == BALL_RADIUS
    ensures ball.y2 == log.y1
    ensures log.x2 == log.x1 + LOG_WIDTH ==> ball.x1 - log.x1 == log.x2 - ball.x2
  {
    var x := log.x1 + BALL_INSET;
    var y := log.y1 - BALL_RADIUS;
    Rect(x, y, x + BALL_RADIUS, y + BALL_RADIUS)
  }

  /*** Collision ***/

  /**
   * check_collision exactly as this variant writes it: the top y of the first
   * box is compared with the RIGHT x of the second, and the left x of the first
   * box is compared with nothing.
   */
  predicate Collide(a: Rect, b: Rect) {
    a.x2 > b.x1 && a.y1 < b.x2 && a.y2 > b.y1
  }

  /** The test is not symmetric. */
  lemma CollideNotSymmetric()
    ensures exists a: Rect, b: Rect :: Collide(a, b) && !Collide(b, a)
  {
    var a := Rect(0.0, 0.0, 10.0, 60.0);
    var b := Rect(5.0, 20.0, 100.0, 70.0);
    assert Collide(a, b) && !Collide(b, a);
  }

  /** Two boxes apart on both axes (the first lies right of and below the second) can collide. */
  lemma CollideWithoutOverlap()
    ensures exists a: Rect, b: Rect :: Collide(a, b) && a.x1 > b.x2 && a.y1 > b.y2
  {
    var a := Rect(600.0, 100.0, 630.0, 130.0);
    var b := Rect(0.0, 0.0, 500.0, 20.0);
    assert Collide(a, b) && a.x1 > b.x2 && a.y1 > b.y2;
  }

  /** A knight standing on the bottom row counts as touching a log five rows higher. */
  lemma KnightTouchesLogFiveRowsUp()
    ensures exists knight: Rect, log: Rect ::
      knight.y2 == RowY(0) && knight.y2 - knight.y1 == KNIGHT_HEIGHT && knight.x2 - knight.x1 == KNIGHT_WIDTH
      && LogOfRow(log, NUM_ROWS - 1) && Collide(knight, log)
  {
    var knight := Rect(600.0, 670.0, 630.0, 700.0);
    var log := Rect(600.0, 200.0, 700.0, 220.0);
    assert LogOfRow(log, NUM_ROWS - 1) && Collide(knight, log);
  }

  /**
   * A knight touches a log only when the log's left x lies between the knight's
   * top y minus the log width and the knight's right x.
   */
  lemma CollideWithLogNeedsReach(knight: Rect, log: Rect, row: nat)
    requires LogOfRow(log, row) && Collide(knight, log)
    ensures knight.y1 - LOG_WIDTH < log.x1 < knight.x2
  {
  }

  /** The starting knight touches no log, wherever the logs have moved. */
  lemma InitialKnightTouchesNoLog(log: Rect, row: nat)
    requires LogOfRow(log, row)
    ensures !Collide(InitialKnight(), log)
  {
    if Collide(InitialKnight(), log) {
      CollideWithLogNeedsReach(InitialKnight(), log, row);
    }
  }

  /*** Logs ***/

  /** update_game's edge test on a log that has just moved. */
  predicate AtEdge(log: Rect) {
    log.x2 >= WINDOW_WIDTH || log.x1 <= 0.0
  }

  /** The speed a log keeps after its move: reversed at a screen edge, else the same. */
  function Reflect(moved: Rect, speed: real): (next: real)
    ensures Abs(next) == Abs(speed)
    ensures next != speed ==> AtEdge(moved)
    ensures AtEdge(moved) ==> next == -speed
  {
    if AtEdge(moved) then -speed else speed
  }

  function MovedLogs(logs: seq<seq<Rect>>, speeds: seq<seq<real>>): (moved: seq<seq<Rect>>)
    requires IsGrid(logs, NUM_ROWS, NUM_LOGS_PER_ROW) && IsGrid(speeds, NUM_ROWS, NUM_LOGS_PER_ROW)
    ensures IsGrid(moved, NUM_ROWS, NUM_LOGS_PER_ROW)
    ensures forall r, i :: 0 <= r < NUM_ROWS && 0 <= i < NUM_LOGS_PER_ROW ==>
      moved[r][i] == Translate(logs[r][i], speeds[r][i], 0.0)
  {
    seq(NUM_ROWS, r requires 0 <= r < NUM_ROWS =>
      seq(NUM_LOGS_PER_ROW, i requires 0 <= i < NUM_LOGS_PER_ROW =>
        Translate(logs[r][i], speeds[r][i], 0.0)))
  }

  function ReflectedSpeeds(moved: seq<seq<Rect>>, speeds: seq<seq<real>>): (next: seq<seq<real>>)
    requires IsGrid(moved, NUM_ROWS, NUM_LOGS_PER_ROW) && IsGrid(speeds, NUM_ROWS, NUM_LOGS_PER_ROW)
    ensures IsGrid(next, NUM_ROWS, NUM_LOGS_PER_ROW)
    ensures forall r, i :: 0 <= r < NUM_ROWS && 0 <= i < NUM_LOGS_PER_ROW ==>
      next[r][i] == Reflect(moved[r][i], speeds[r][i])
  {
    seq(NUM_ROWS, r requires 0 <= r < NUM_ROWS =>
      seq(NUM_LOGS_PER_ROW, i requires 0 <= i < NUM_LOGS_PER_ROW =>
        Reflect(moved[r][i], speeds[r][i])))
  }

  /** check_knight_on_log's question: does the knight touch any log at all? */
  predicate OnSomeLog(knight: Rect, logs: seq<seq<Rect>>) {
    exists r, i :: 0 <= r < |logs| && 0 <= i < |logs[r]| && Collide(knight, logs[r][i])
  }

  /** Does the knight touch some log of this row? */
  predicate TouchesRow(knight: Rect, rowLogs: seq<Rect>) {
    exists i :: 0 <= i < |rowLogs| && Collide(knight, rowLogs[i])
  }

  /*** Balls ***/

  /** One tick of a ball: BALL_STEP down, nothing else. */
  function Fall(ball: Rect): (fallen: Rect)
    ensures fallen.x1 == ball.x1 && fallen.x2 == ball.x2
    ensures fallen.y1 == ball.y1 + BALL_STEP && fallen.y2 == ball.y2 + BALL_STEP
  {
    Translate(ball, 0.0, BALL_STEP)
  }

  /** update_balls's test for a ball that has left the screen: its bottom at or below the window's. */
  predicate OffScreen(ball: Rect) {
    ball.y2 >= WINDOW_HEIGHT
  }

  /**
   * What update_balls leaves: the balls still alive, how many were removed
   * because they hit the knight, and whether the step raised an exception.
   */
  datatype BallsOutcome = BallsOutcome(balls: seq<Rect>, hits: nat, raised: bool)

  /**
   * update_balls from list position i on. Python's for loop walks the list by
   * position while the body removes from it, so the ball after a removed one is
   * skipped this tick. A ball that leaves the screen is deleted from the canvas
   * and from the list before check_collision asks the canvas for its
   * coordinates; a deleted item has none, so indexing them raises IndexError
   * and the step ends there, with that ball already gone.
   */
  function UpdateBallsFrom(knight: Rect, balls: seq<Rect>, i: nat): (o: BallsOutcome)
    decreases |balls| + 1 - i
    ensures |o.balls| + o.hits + (if o.raised then 1 else 0) == |balls|
  {
    if i >= |balls| then BallsOutcome(balls, 0, false)
    else
      var ball := Fall(balls[i]);
      if OffScreen(ball) then BallsOutcome(RemoveAt(balls, i), 0, true)
      else if Collide(knight, ball) then
        var o := UpdateBallsFrom(knight, RemoveAt(balls, i), i + 1);
        o.(hits := o.hits + 1)
      else UpdateBallsFrom(knight, balls[i := ball], i + 1)
  }

  /**
   * update_balls read over the list as it was when the call began, ball by
   * ball: a ball that falls off the screen ends the call with the rest of the
   * list untouched; a ball that hits the knight is removed, and the ball after
   * it is kept as it was, neither moved nor checked; any other ball falls.
   */
  function BallWalk(knight: Rect, rest: seq<Rect>): (w: BallsOutcome)
    decreases |rest|
    ensures |w.balls| + w.hits + (if w.raised then 1 else 0) == |rest|
  {
    if rest == [] then BallsOutcome([], 0, false)
    else
      var ball := Fall(rest[0]);
      if OffScreen(ball) then BallsOutcome(rest[1..], 0, true)
      else if Collide(knight, ball) then
        if |rest| == 1 then BallsOutcome([], 1, false)
        else
          var w := BallWalk(knight, rest[2..]);
          BallsOutcome([rest[1]] + w.balls, w.hits + 1, w.raised)
      else
        var w := BallWalk(knight, rest[1..]);
        BallsOutcome([ball] + w.balls, w.hits, w.raised)
  }

  /** The walk by list position that update_balls does agrees with BallWalk on the balls not yet reached. */
  lemma {:induction false} UpdateBallsFromIsWalk(knight: Rect, pre: seq<Rect>, rest: seq<Rect>)
    ensures var w := BallWalk(knight, rest);
      UpdateBallsFrom(knight, pre + rest, |pre|) == BallsOutcome(pre + w.balls, w.hits, w.raised)
    decreases |rest|
  {
    var all := pre + rest;
    if rest == [] {
      assert all == pre + [];
    } else {
      assert all[|pre|] == rest[0];
      assert all[..|pre|] == pre && all[|pre| + 1..] == rest[1..];
      var ball := Fall(rest[0]);
      if OffScreen(ball) {
        assert RemoveAt(all, |pre|) == pre + rest[1..];
      } else if Collide(knight, ball) {
        RemovedHitIsWalk(knight, pre, rest);
      } else {
        FallenBallIsWalk(knight, pre, rest);
      }
    }
  }

  lemma {:induction false} RemovedHitIsWalk(knight: Rect, pre: seq<Rect>, rest: seq<Rect>)
    requires rest != [] && !OffScreen(Fall(rest[0])) && Collide(knight, Fall(rest[0]))
    ensures var w := BallWalk(knight, rest);
      UpdateBallsFrom(knight, pre + rest, |pre|) == BallsOutcome(pre + w.balls, w.hits, w.raised)
    decreases |rest|, 0
  {
    var all := pre + rest;
    var removed := RemoveAt(all, |pre|);
    assert all[..|pre|] == pre && all[|pre| + 1..] == rest[1..];
    assert removed == pre + rest[1..];
    var o := UpdateBallsFrom(knight, removed, |pre| + 1);
    assert UpdateBallsFrom(knight, all, |pre|) == o.(hits := o.hits + 1);
    if |rest| == 1 {
      assert removed == pre;
    } else {
      var pre' := pre + [rest[1]];
      assert removed == pre' + rest[2..];
      UpdateBallsFromIsWalk(knight, pre', rest[2..]);
      var w := BallWalk(knight, rest[2..]);
      assert BallWalk(knight, rest) == BallsOutcome([rest[1]] + w.balls, w.hits + 1, w.raised);
      assert pre' + w.balls == pre + ([rest[1]] + w.balls);
    }
  }

  lemma {:induction false} FallenBallIsWalk(knight: Rect, pre: seq<Rect>, rest: seq<Rect>)
    requires rest != [] && !OffScreen(Fall(rest[0])) && !Collide(knight, Fall(rest[0]))
    ensures var w := BallWalk(knight, rest);
      UpdateBallsFrom(knight, pre + rest, |pre|) == BallsOutcome(pre + w.balls, w.hits, w.raised)
    decreases |rest|, 0
  {
    var all := pre + rest;
    var ball := Fall(rest[0]);
    var pre' := pre + [ball];
    assert all[|pre|] == rest[0];
    assert all[|pre| := ball] == pre' + rest[1..];
    assert UpdateBallsFrom(knight, all, |pre|) == UpdateBallsFrom(knight, pre' + rest[1..], |pre'|);
    UpdateBallsFromIsWalk(knight, pre', rest[1..]);
    var w := BallWalk(knight, rest[1..]);
    assert BallWalk(knight, rest) == BallsOutcome([ball] + w.balls, w.hits, w.raised);
    assert pre' + w.balls == pre + ([ball] + w.balls);
  }

  /** A ball that, once moved, is neither off the screen nor touching the knight. */
  predicate Harmless(knight: Rect, ball: Rect) {
    !OffScreen(Fall(ball)) && !Collide(knight, Fall(ball))
  }

  /** Every ball moved down by one step, in order. */
  function FallAll(balls: seq<Rect>): (fallen: seq<Rect>)
    ensures |fallen| == |balls|
    ensures forall j :: 0 <= j < |balls| ==> fallen[j] == Fall(balls[j])
  {
    seq(|balls|, j requires 0 <= j < |balls| => Fall(balls[j]))
  }

  /** A run of harmless balls at the front simply falls, and the walk goes on after them. */
  lemma {:induction false} WalkHarmlessPrefix(knight: Rect, rest: seq<Rect>, k: nat)
    requires k <= |rest| && forall j :: 0 <= j < k ==> Harmless(knight, rest[j])
    ensures var v := BallWalk(knight, rest[k..]);
      BallWalk(knight, rest) == BallsOutcome(FallAll(rest[..k]) + v.balls, v.hits, v.raised)
    decreases k
  {
    if k == 0 {
      assert rest[..0] == [] && rest[0..] == rest;
    } else {
      var tail := rest[1..];
      var v := BallWalk(knight, rest[k..]);
      var fallen := FallAll(tail[..k - 1]);
      HarmlessHeadFalls(knight, rest, k);
      assert BallWalk(knight, tail) == BallsOutcome(fallen + v.balls, v.hits, v.raised) by {
        WalkHarmlessPrefix(knight, tail, k - 1);
      }
      assert [Fall(rest[0])] + (fallen + v.balls) == ([Fall(rest[0])] + fallen) + v.balls;
    }
  }

  /** One step of WalkHarmlessPrefix: the harmless first ball falls in front of the rest of the walk. */
  lemma HarmlessHeadFalls(knight: Rect, rest: seq<Rect>, k: nat)
    requires 0 < k <= |rest| && Harmless(knight, rest[0])
    ensures var v := BallWalk(knight, rest[1..]);
      BallWalk(knight, rest) == BallsOutcome([Fall(rest[0])] + v.balls, v.hits, v.raised)
    ensures rest[1..][k - 1..] == rest[k..]
    ensures FallAll(rest[..k]) == [Fall(rest[0])] + FallAll(rest[1..][..k - 1])
  {
    assert rest[1..][..k - 1] == rest[1..k];
  }

  /** When every ball is harmless, update_balls moves each one down and nothing else happens. */
  lemma UpdateBallsAllFall(knight: Rect, balls: seq<Rect>)
    requires forall j :: 0 <= j < |balls| ==> Harmless(knight, balls[j])
    ensures UpdateBallsFrom(knight, balls, 0) == BallsOutcome(FallAll(balls), 0, false)
  {
    UpdateBallsFromIsWalk(knight, [], balls);
    assert [] + balls == balls;
    WalkHarmlessPrefix(knight, balls, |balls|);
    assert balls[..|balls|] == balls && balls[|balls|..] == [];
  }

  /**
   * When ball k is the first one that is not harmless and it falls off the
   * screen, the call raises there: the balls before it have fallen, it is
   * gone, and the balls after it are untouched.
   */
  lemma UpdateBallsRaisesAtOffScreen(knight: Rect, balls: seq<Rect>, k: nat)
    requires k < |balls| && forall j :: 0 <= j < k ==> Harmless(knight, balls[j])
    requires OffScreen(Fall(balls[k]))
    ensures UpdateBallsFrom(knight, balls, 0) == BallsOutcome(FallAll(balls[..k]) + balls[k + 1..], 0, true)
  {
    UpdateBallsFromIsWalk(knight, [], balls);
    assert [] + balls == balls;
    WalkHarmlessPrefix(knight, balls, k);
    assert balls[k..][1..] == balls[k + 1..];
  }

  /**
   * When ball k is the first one that is not harmless and it hits the knight,
   * it is removed and the ball after it is skipped: kept exactly as it was,
   * not moved and not checked, whatever it would have done.
   */
  lemma UpdateBallsSkipsAfterHit(knight: Rect, balls: seq<Rect>, k: nat)
    requires k + 1 < |balls| && forall j :: 0 <= j < k ==> Harmless(knight, balls[j])
    requires !OffScreen(Fall(balls[k])) && Collide(knight, Fall(balls[k]))
    ensures var w := BallWalk(knight, balls[k + 2..]);
      UpdateBallsFrom(knight, balls, 0) ==
        BallsOutcome(FallAll(balls[..k]) + [balls[k + 1]] + w.balls, w.hits + 1, w.raised)
  {
    var rest, w := balls[k..], BallWalk(knight, balls[k + 2..]);
    assert BallWalk(knight, rest) == BallsOutcome([balls[k + 1]] + w.balls, w.hits + 1, w.raised) by {
      assert rest[0] == balls[k] && rest[1] == balls[k + 1] && rest[2..] == balls[k + 2..];
    }
    var fallen := FallAll(balls[..k]);
    assert BallWalk(knight, balls) == BallsOutcome(fallen + BallWalk(knight, rest).balls, w.hits + 1, w.raised) by {
      WalkHarmlessPrefix(knight, balls, k);
    }
    assert UpdateBallsFrom(knight, balls, 0) == BallWalk(knight, balls) by {
      UpdateBallsFromIsWalk(knight, [], balls);
      assert [] + balls == balls;
    }
    assert fallen + ([balls[k + 1]] + w.balls) == fallen + [balls[k + 1]] + w.balls;
  }

  /**
   * The skip can hide a ball leaving the screen: the first ball hits the
   * knight, so the second, which would fall off, is kept unmoved and the
   * call does not raise.
   */
  lemma SkippedBallDoesNotRaise()
    ensures var knight := Rect(590.0, 500.0, 620.0, 530.0);
      var hitter, leaver := Rect(600.0, 500.0, 610.0, 510.0), Rect(0.0, 790.0, 10.0, 800.0);
      OffScreen(Fall(leaver)) &&
      UpdateBallsFrom(knight, [hitter, leaver], 0) == BallsOutcome([leaver], 1, false)
  {
    var knight := Rect(590.0, 500.0, 620.0, 530.0);
    var hitter, leaver := Rect(600.0, 500.0, 610.0, 510.0), Rect(0.0, 790.0, 10.0, 800.0);
    assert RemoveAt([hitter, leaver], 0) == [leaver];
  }

  /** update_balls raises only if some ball, once moved, is off the screen. */
  lemma {:induction false} WalkRaisesOnlyOffScreen(knight: Rect, rest: seq<Rect>)
    ensures BallWalk(knight, rest).raised ==> exists j :: 0 <= j < |rest| && OffScreen(Fall(rest[j]))
    decreases |rest|
  {
    if rest != [] && !OffScreen(Fall(rest[0])) {
      if Collide(knight, Fall(rest[0])) {
        if |rest| > 1 {
          WalkRaisesOnlyOffScreen(knight, rest[2..]);
          if BallWalk(knight, rest).raised {
            var j :| 0 <= j < |rest[2..]| && OffScreen(Fall(rest[2..][j]));
            assert OffScreen(Fall(rest[j + 2]));
          }
        }
      } else {
        WalkRaisesOnlyOffScreen(knight, rest[1..]);
        if BallWalk(knight, rest).raised {
          var j :| 0 <= j < |rest[1..]| && OffScreen(Fall(rest[1..][j]));
          assert OffScreen(Fall(rest[j + 1]));
        }
      }
    }
  }

  /** The same for update_balls itself: with no ball falling off the screen, it never raises. */
  lemma UpdateBallsRaisesOnlyOffScreen(knight: Rect, balls: seq<Rect>)
    ensures UpdateBallsFrom(knight, balls, 0).raised ==> exists j :: 0 <= j < |balls| && OffScreen(Fall(balls[j]))
  {
    UpdateBallsFromIsWalk(knight, [], balls);
    assert [] + balls == balls;
    WalkRaisesOnlyOffScreen(knight, balls);
  }

  /*** The game state and its steps ***/

  datatype State = State(
    logs: seq<seq<Rect>>,    // canvas coordinates of self.logs[row][i]
    speeds: seq<seq<real>>,  // self.log_speeds
    knight: Rect,
    velocityY: real,
    onLog: bool,
    chest: Rect,
    balls: seq<Rect>,
    score: int,
    missionCompleted: bool)

  /** What every step keeps true. */
  ghost predicate Inv(s: State) {
    && IsGrid(s.logs, NUM_ROWS, NUM_LOGS_PER_ROW)
    && IsGrid(s.speeds, NUM_ROWS, NUM_LOGS_PER_ROW)
    && (forall r, i :: 0 <= r < NUM_ROWS && 0 <= i < NUM_LOGS_PER_ROW ==>
          LogOfRow(s.logs[r][i], r) && Abs(s.speeds[r][i]) == INITIAL_LOG_SPEED)
    && s.velocityY >= 0.0
    && |s.balls| <= MAX_BALLS
  }

  /** The state the constructor builds, before its first call of update_game. */
  function Initial(rightward: seq<seq<bool>>, chestRow: nat, chestSlot: nat): (s: State)
    requires IsGrid(rightward, NUM_ROWS, NUM_LOGS_PER_ROW)
    requires chestRow < NUM_ROWS && chestSlot < NUM_LOGS_PER_ROW
    ensures Inv(s)
    ensures s.score == 0 && s.balls == [] && s.velocityY == 0.0 && !s.onLog && !s.missionCompleted
  {
    State(InitialLogs(), InitialSpeeds(rightward), InitialKnight(), 0.0, false,
          PlaceChest(InitialLogs(), chestRow, chestSlot), [], 0, false)
  }

  /** The result of one update_game call, and whether it raised. */
  datatype TickOutcome = TickOutcome(state: State, raised: bool)

  /** The first loop of update_game: every log moves by its speed and reverses at an edge. */
  function LogsTick(s: State): (t: State)
    requires Inv(s)
    ensures Inv(t)
    ensures t == s.(logs := t.logs, speeds := t.speeds)
    ensures t.logs == MovedLogs(s.logs, s.speeds) && t.speeds == ReflectedSpeeds(t.logs, s.speeds)
  {
    var logs := MovedLogs(s.logs, s.speeds);
    s.(logs := logs, speeds := ReflectedSpeeds(logs, s.speeds))
  }

  /**
   * check_knight_on_log, then gravity on an airborne knight and the knight's
   * fall by its vertical velocity.
   */
  function KnightTick(u: State): (t: State)
    requires Inv(u)
    ensures Inv(t)
    ensures t == u.(knight := t.knight, velocityY := t.velocityY, onLog := t.onLog)
    ensures t.onLog == OnSomeLog(u.knight, u.logs)
    ensures t.velocityY == if t.onLog then 0.0 else u.velocityY + GRAVITY
    ensures t.knight == Translate(u.knight, 0.0, t.velocityY)
  {
    var onLog := OnSomeLog(u.knight, u.logs);
    var velocityY := if onLog then 0.0 else u.velocityY + GRAVITY;
    u.(knight := Translate(u.knight, 0.0, velocityY), velocityY := velocityY, onLog := onLog)
  }

  /**
   * The rest of update_game: update_balls (which may raise), the loss check at
   * the bottom of the window and spawn_balls_periodically.
   */
  function BallsTick(v: State, spawn: bool, row: nat, slot: nat): (t: TickOutcome)
    requires Inv(v) && !v.missionCompleted && row < NUM_ROWS && slot < NUM_LOGS_PER_ROW
    ensures Inv(t.state)
    ensures t.state == v.(balls := t.state.balls, score := t.state.score,
                          velocityY := t.state.velocityY, missionCompleted := t.state.missionCompleted)
    ensures t.state.score <= v.score
    ensures t.state.missionCompleted ==>
      !t.raised && v.knight.y1 >= WINDOW_HEIGHT && t.state.velocityY == 0.0
    ensures !t.state.missionCompleted ==> t.state.velocityY == v.velocityY
  {
    var b := UpdateBallsFrom(v.knight, v.balls, 0);
    var moved := v.(balls := b.balls, score := v.score - BALL_PENALTY * b.hits);
    if b.raised then TickOutcome(moved, true)
    else if v.knight.y1 >= WINDOW_HEIGHT then
      TickOutcome(moved.(velocityY := 0.0, missionCompleted := true), false)
    else if spawn && |moved.balls| < MAX_BALLS then
      TickOutcome(moved.(balls := moved.balls + [BallAbove(v.logs[row][slot])]), false)
    else TickOutcome(moved, false)
  }

  /**
   * update_game: move and reflect the logs, look for a log under the knight,
   * apply gravity and the knight's fall, move the balls, check for a loss and
   * maybe spawn a ball. `spawn` stands for the 2% draw, (row, slot) for the
   * log the new ball would be placed on.
   */
  function Tick(s: State, spawn: bool, row: nat, slot: nat): (t: TickOutcome)
    requires Inv(s) && row < NUM_ROWS && slot < NUM_LOGS_PER_ROW
    ensures Inv(t.state)
    ensures s.missionCompleted ==> t == TickOutcome(s, false)
    ensures t.state.missionCompleted && !s.missionCompleted ==>
      !t.raised && t.state.knight.y1 >= WINDOW_HEIGHT && t.state.velocityY == 0.0
    ensures t.state.chest == s.chest
    ensures t.state.score <= s.score
    ensures !s.missionCompleted ==> (t.state.onLog <==> OnSomeLog(s.knight, t.state.logs))
    ensures !s.missionCompleted ==> t.state.knight.x1 == s.knight.x1 && t.state.knight.x2 == s.knight.x2
  {
    if s.missionCompleted then TickOutcome(s, false)
    else BallsTick(KnightTick(LogsTick(s)), spawn, row, slot)
  }

  /** Every log moves by its own speed along x only; its speed flips exactly at an edge. */
  lemma TickMovesLogs(s: State, spawn: bool, row: nat, slot: nat, r: nat, i: nat)
    requires Inv(s) && row < NUM_ROWS && slot < NUM_LOGS_PER_ROW && !s.missionCompleted
    requires r < NUM_ROWS && i < NUM_LOGS_PER_ROW
    ensures var t := Tick(s, spawn, row, slot).state;
      && t.logs[r][i] == Translate(s.logs[r][i], s.speeds[r][i], 0.0)
      && (t.speeds[r][i] == -s.speeds[r][i] <==> AtEdge(t.logs[r][i]))
      && (t.speeds[r][i] == s.speeds[r][i] <==> !AtEdge(t.logs[r][i]))
  {
    var t := Tick(s, spawn, row, slot).state;
    assert Abs(s.speeds[r][i]) == INITIAL_LOG_SPEED;
    assert t.speeds[r][i] == Reflect(t.logs[r][i], s.speeds[r][i]);
  }

  /**
   * What a tick does to the balls and the score, and when it is lost: the balls
   * fall and hit the knight as update_balls says; unless that raised, the game
   * is lost exactly when the knight's top has reached the bottom, and a ball is
   * spawned exactly when the game goes on, the draw says so and fewer than
   * MAX_BALLS are left.
   */
  lemma TickBallsAndLoss(s: State, spawn: bool, row: nat, slot: nat)
    requires Inv(s) && row < NUM_ROWS && slot < NUM_LOGS_PER_ROW && !s.missionCompleted
    ensures var t := Tick(s, spawn, row, slot);
      var o := UpdateBallsFrom(t.state.knight, s.balls, 0);
      && t.raised == o.raised
      && t.state.score == s.score - BALL_PENALTY * o.hits
      && (!t.raised ==> (t.state.missionCompleted <==> t.state.knight.y1 >= WINDOW_HEIGHT))
      && t.state.balls ==
           if spawn && !t.raised && !t.state.missionCompleted && |o.balls| < MAX_BALLS
           then o.balls + [BallAbove(t.state.logs[row][slot])]
           else o.balls
  {
    var v := KnightTick(LogsTick(s));
    assert Tick(s, spawn, row, slot) == BallsTick(v, spawn, row, slot);
  }

  /**
   * move_knight (and jump_knight, which only calls it): move the knight, win at
   * the top, otherwise let gravity act on an airborne knight and collect the
   * chest if touched, placing a new one over the log (row, slot) chosen at random.
   */
  function KnightMove(s: State, dx: real, dy: real, row: nat, slot: nat): (t: State)
    requires Inv(s) && row < NUM_ROWS && slot < NUM_LOGS_PER_ROW
    ensures Inv(t)
    ensures t.knight == Translate(s.knight, dx, dy)
    ensures t.missionCompleted <==> s.missionCompleted || t.knight.y1 <= 0.0
    ensures t.knight.y1 <= 0.0 ==> t == s.(knight := t.knight, missionCompleted := true)
    ensures t.knight.y1 > 0.0 ==>
      t.velocityY == s.velocityY + (if s.onLog then 0.0 else GRAVITY)
    ensures t.score != s.score <==> t.knight.y1 > 0.0 && Collide(t.knight, s.chest)
    ensures t.score != s.score ==>
      t.score == s.score + CHEST_POINTS && t.chest == PlaceChest(s.logs, row, slot)
    ensures t.score == s.score ==> t.chest == s.chest
    ensures t.logs == s.logs && t.speeds == s.speeds && t.balls == s.balls && t.onLog == s.onLog
  {
    var knight := Translate(s.knight, dx, dy);
    if knight.y1 <= 0.0 then s.(knight := knight, missionCompleted := true)
    else
      var velocityY := if s.onLog then s.velocityY else s.velocityY + GRAVITY;
      if Collide(knight, s.chest) then
        s.(knight := knight, velocityY := velocityY, score := s.score + CHEST_POINTS,
           chest := PlaceChest(s.logs, row, slot))
      else s.(knight := knight, velocityY := velocityY)
  }

  /** get_knight_row, searching from row i upwards. */
  function KnightRowFrom(y: real, i: nat): (row: nat)
    requires i < NUM_ROWS
    decreases NUM_ROWS - i
    ensures i <= row < NUM_ROWS
    ensures forall k :: i <= k < row ==> y < RowY(k)
    ensures y >= RowY(row) || row == NUM_ROWS - 1
  {
    if y >= RowY(i) || i == NUM_ROWS - 1 then i else KnightRowFrom(y, i + 1)
  }

  /**
   * get_knight_row: the first row (from the bottom) whose log top lies at or
   * above y, and the top row when there is none.
   */
  function KnightRow(y: real): (row: nat)
    ensures row < NUM_ROWS
    ensures forall k :: 0 <= k < row ==> y < RowY(k)
    ensures y >= RowY(row) || row == NUM_ROWS - 1
  {
    KnightRowFrom(y, 0)
  }

  /** get_knight_row as the source computes it, with a loop. */
  method GetKnightRow(y: real) returns (row: nat)
    ensures row < NUM_ROWS
    ensures row == KnightRow(y)
  {
    for i := 0 to NUM_ROWS
      invariant KnightRowFrom(y, if i < NUM_ROWS then i else NUM_ROWS - 1) == KnightRow(y)
      invariant forall k :: 0 <= k < i ==> y < RowY(k)
    {
      if y >= RowY(i) {
        return i;
      }
    }
    return NUM_ROWS - 1;
  }

  /**
   * fall_to_next_log: when the row get_knight_row names is not the top one and
   * the knight touches a log of the row above it, move the knight down by one
   * jump; otherwise nothing happens.
   */
  function KnightFall(s: State): (t: State)
    requires Inv(s)
    ensures Inv(t)
    ensures t == s || t == s.(knight := Translate(s.knight, 0.0, JUMP_DISTANCE))
    ensures t != s ==>
      KnightRow(s.knight.y1) < NUM_ROWS - 1 && TouchesRow(s.knight, s.logs[KnightRow(s.knight.y1) + 1])
    ensures KnightRow(s.knight.y1) < NUM_ROWS - 1 && TouchesRow(s.knight, s.logs[KnightRow(s.knight.y1) + 1]) ==>
      t == s.(knight := Translate(s.knight, 0.0, JUMP_DISTANCE))
  {
    var current := KnightRow(s.knight.y1);
    if current < NUM_ROWS - 1 && TouchesRow(s.knight, s.logs[current + 1])
    then s.(knight := Translate(s.knight, 0.0, JUMP_DISTANCE))
    else s
  }

  /*** Sequences of calls ***/

  /** What the host can do: one update_game tick, a move/jump key, or the Down key. */
  datatype Event =
    | TickEvent(spawn: bool, row: nat, slot: nat)
    | MoveEvent(dx: real, dy: real, chestRow: nat, chestSlot: nat)
    | FallEvent

  predicate EventOk(e: Event) {
    match e
    case TickEvent(_, row, slot) => row < NUM_ROWS && slot < NUM_LOGS_PER_ROW
    case MoveEvent(_, _, row, slot) => row < NUM_ROWS && slot < NUM_LOGS_PER_ROW
    case FallEvent => true
  }

  function Step(s: State, e: Event): (t: State)
    requires Inv(s) && EventOk(e)
    ensures Inv(t)
  {
    match e
    case TickEvent(spawn, row, slot) => Tick(s, spawn, row, slot).state
    case MoveEvent(dx, dy, row, slot) => KnightMove(s, dx, dy, row, slot)
    case FallEvent => KnightFall(s)
  }

  /** The state after a sequence of calls, in order. */
  function Run(s: State, events: seq<Event>): (t: State)
    requires Inv(s) && forall k :: 0 <= k < |events| ==> EventOk(events[k])
    ensures Inv(t)
    decreases |events|
  {
    if events == [] then s else Run(Step(s, events[0]), events[1..])
  }

  /** Once the mission is completed, no sequence of calls makes it incomplete again. */
  lemma {:induction false} MissionStaysCompleted(s: State, events: seq<Event>)
    requires Inv(s) && forall k :: 0 <= k < |events| ==> EventOk(events[k])
    requires s.missionCompleted
    ensures Run(s, events).missionCompleted
    decreases |events|
  {
    if events != [] {
      MissionStaysCompleted(Step(s, events[0]), events[1..]);
    }
  }

  /** Once the mission is completed, any number of ticks leaves the state as it is. */
  lemma {:induction false} CompletedGameIgnoresTicks(s: State, events: seq<Event>)
    requires Inv(s) && forall k :: 0 <= k < |events| ==> EventOk(events[k]) && events[k].TickEvent?
    requires s.missionCompleted
    ensures Run(s, events) == s
    decreases |events|
  {
    if events != [] {
      CompletedGameIgnoresTicks(Step(s, events[0]), events[1..]);
    }
  }

  /** n ticks that spawn nothing. */
  function Quiet(n: nat): (events: seq<Event>)
    ensures |events| == n
    ensures forall k :: 0 <= k < n ==> events[k] == TickEvent(false, 0, 0)
  {
    if n == 0 then [] else [TickEvent(false, 0, 0)] + Quiet(n - 1)
  }

  /** A knight out of every log's reach: no log can touch it, wherever the logs are. */
  predicate OutOfReach(knight: Rect) {
    knight.x2 + LOG_WIDTH <= knight.y1
  }

  /**
   * A knight out of reach of the logs and with no balls about falls freely:
   * after n quiet ticks its velocity has grown by n * GRAVITY, unless the game
   * was lost on the way.
   */
  lemma {:induction false} FreeFall(s: State, n: nat)
    requires Inv(s) && !s.missionCompleted && s.balls == [] && OutOfReach(s.knight)
    ensures var t := Run(s, Quiet(n));
      t.missionCompleted || (t.velocityY == s.velocityY + n as real * GRAVITY && t.knight.x1 == s.knight.x1)
    decreases n
  {
    if n > 0 {
      var events := Quiet(n);
      var t := Tick(s, false, 0, 0).state;
      assert Step(s, events[0]) == t;
      assert events[1..] == Quiet(n - 1);
      assert !OnSomeLog(s.knight, t.logs);
      if !t.missionCompleted {
        FreeFall(t, n - 1);
      } else {
        MissionStaysCompleted(t, Quiet(n - 1));
      }
    }
  }

  /** The starting knight is out of every log's reach, so it falls from the first tick on. */
  lemma InitialKnightOutOfReach()
    ensures OutOfReach(InitialKnight())
  {
  }
}
