/**
 * The FrogJumpGame class of Quantumquest.py. Every field the source keeps on the
 * object or on the canvas is a field here, and every method changes them in
 * place the way the source does; each method is proved to leave the state that
 * the matching function of QuantumQuestRules describes.
 */
module QuantumQuest {
  import opened Canvas
  import opened QuantumQuestRules

  class FrogJumpGame {
    var logs: seq<seq<Rect>>    // canvas coordinates of self.logs[row][i]
    var logSpeeds: seq<seq<real>>
    var knight: Rect
    var velocityY: real
    var onLog: bool
    var chest: Rect
    var balls: seq<Rect>
    var score: int
    var missionCompleted: bool

    function Snapshot(): State
      reads this
    {
      State(logs, logSpeeds, knight, velocityY, onLog, chest, balls, score, missionCompleted)
    }

    ghost predicate Valid()
      reads this
    {
      Inv(Snapshot())
    }

    /**
     * __init__ up to its closing call of update_game, which is the host's first
     * tick. `rightward` holds the coin flips for the log speeds and
     * (chestRow, chestSlot) the log the first chest is placed on.
     */
    constructor (rightward: seq<seq<bool>>, chestRow: nat, chestSlot: nat)
      requires IsGrid(rightward, NUM_ROWS, NUM_LOGS_PER_ROW)
      requires chestRow < NUM_ROWS && chestSlot < NUM_LOGS_PER_ROW
      ensures Valid()
      ensures Snapshot() == Initial(rightward, chestRow, chestSlot)
    {
      logs := InitialLogs();
      knight := InitialKnight();
      velocityY := 0.0;
      onLog := false;
      chest := PlaceChest(InitialLogs(), chestRow, chestSlot);
      balls := [];
      logSpeeds := InitialSpeeds(rightward);
      score := 0;
      missionCompleted := false;
    }

    /**
     * update_game. `spawn` stands for the 2% draw of spawn_balls_periodically and
     * (row, slot) for the log its ball would be placed on. `raised` tells that
     * update_balls raised, which ends the call where it stood.
     */
    method UpdateGame(spawn: bool, row: nat, slot: nat) returns (raised: bool)
      requires Valid() && row < NUM_ROWS && slot < NUM_LOGS_PER_ROW
      modifies this
      ensures TickOutcome(Snapshot(), raised) == Tick(old(Snapshot()), spawn, row, slot)
      ensures Valid()
    {
      raised := false;
      if missionCompleted {
        return;
      }
      ghost var s := Snapshot();
      MoveLogs();
      assert Snapshot() == LogsTick(s);
      CheckKnightOnLog();
      if !onLog {
        velocityY := velocityY + GRAVITY;
      }
      knight := Translate(knight, 0.0, velocityY);
      assert Snapshot() == KnightTick(LogsTick(s));
      raised := FinishUpdate(spawn, row, slot);
    }

    /** The tail of update_game: update_balls, the loss check and spawn_balls_periodically. */
    method FinishUpdate(spawn: bool, row: nat, slot: nat) returns (raised: bool)
      requires Valid() && !missionCompleted && row < NUM_ROWS && slot < NUM_LOGS_PER_ROW
      modifies this`balls, this`score, this`velocityY, this`missionCompleted
      ensures TickOutcome(Snapshot(), raised) == BallsTick(old(Snapshot()), spawn, row, slot)
    {
      raised := UpdateBalls();
      if raised {
        return;
      }
      if knight.y1 >= WINDOW_HEIGHT {
        velocityY := 0.0;
        missionCompleted := true;
        return;
      }
      SpawnBallsPeriodically(spawn, row, slot);
    }

    /** The first loop of update_game: move every log and reverse it at a screen edge. */
    method MoveLogs()
      requires IsGrid(logs, NUM_ROWS, NUM_LOGS_PER_ROW) && IsGrid(logSpeeds, NUM_ROWS, NUM_LOGS_PER_ROW)
      modifies this`logs, this`logSpeeds
      ensures logs == MovedLogs(old(logs), old(logSpeeds))
      ensures logSpeeds == ReflectedSpeeds(logs, old(logSpeeds))
    {
      for r := 0 to NUM_ROWS
        invariant IsGrid(logs, NUM_ROWS, NUM_LOGS_PER_ROW) && IsGrid(logSpeeds, NUM_ROWS, NUM_LOGS_PER_ROW)
        invariant forall k, i :: 0 <= k < NUM_ROWS && 0 <= i < NUM_LOGS_PER_ROW ==>
          if k < r then
            logs[k][i] == Translate(old(logs)[k][i], old(logSpeeds)[k][i], 0.0) &&
            logSpeeds[k][i] == Reflect(logs[k][i], old(logSpeeds)[k][i])
          else
            logs[k][i] == old(logs)[k][i] && logSpeeds[k][i] == old(logSpeeds)[k][i]
      {
        for j := 0 to NUM_LOGS_PER_ROW
          invariant IsGrid(logs, NUM_ROWS, NUM_LOGS_PER_ROW) && IsGrid(logSpeeds, NUM_ROWS, NUM_LOGS_PER_ROW)
          invariant forall k, i :: 0 <= k < NUM_ROWS && 0 <= i < NUM_LOGS_PER_ROW ==>
            if k < r || (k == r && i < j) then
              logs[k][i] == Translate(old(logs)[k][i], old(logSpeeds)[k][i], 0.0) &&
              logSpeeds[k][i] == Reflect(logs[k][i], old(logSpeeds)[k][i])
            else
              logs[k][i] == old(logs)[k][i] && logSpeeds[k][i] == old(logSpeeds)[k][i]
        {
          logs := logs[r := logs[r][j := Translate(logs[r][j], logSpeeds[r][j], 0.0)]];
          if logs[r][j].x2 >= WINDOW_WIDTH || logs[r][j].x1 <= 0.0 {
            logSpeeds := logSpeeds[r := logSpeeds[r][j := -logSpeeds[r][j]]];
          }
        }
      }
      GridsEqual(logs, MovedLogs(old(logs), old(logSpeeds)), NUM_ROWS, NUM_LOGS_PER_ROW);
      GridsEqual(logSpeeds, ReflectedSpeeds(logs, old(logSpeeds)), NUM_ROWS, NUM_LOGS_PER_ROW);
    }

    /**
     * check_knight_on_log: on_log tells whether the knight touches any log; the
     * first log found stops both loops and zeroes the vertical velocity. The
     * knight itself is not moved.
     */
    method CheckKnightOnLog()
      requires IsGrid(logs, NUM_ROWS, NUM_LOGS_PER_ROW) && IsGrid(logSpeeds, NUM_ROWS, NUM_LOGS_PER_ROW)
      modifies this`onLog, this`velocityY
      ensures onLog == OnSomeLog(knight, logs)
      ensures velocityY == if onLog then 0.0 else old(velocityY)
    {
      onLog := false;
      var items := LogItems();
      for r := 0 to NUM_ROWS
        invariant !onLog && velocityY == old(velocityY)
        invariant forall k, i :: 0 <= k < r && 0 <= i < NUM_LOGS_PER_ROW ==> !Collide(knight, logs[k][i])
      {
        for j := 0 to NUM_LOGS_PER_ROW
          invariant !onLog && velocityY == old(velocityY)
          invariant forall k, i :: 0 <= k < NUM_ROWS && 0 <= i < NUM_LOGS_PER_ROW && (k < r || (k == r && i < j)) ==>
            !Collide(knight, logs[k][i])
        {
          if Collide(knight, logs[r][j]) {
            onLog := true;
            // The source looks the log's speed up and does not use it.
            var logRow := GetLogRow(items, items[r][j]);
            var logIndex := IndexOf(items[r], items[r][j]);
            var logSpeed := logSpeeds[logRow][logIndex];
            velocityY := 0.0;
            return;
          }
        }
      }
    }

    /**
     * update_balls: every ball it reaches drops by BALL_STEP; one that leaves the
     * screen is removed and the call raises; one that hits the knight is removed
     * and costs BALL_PENALTY points. The list position advances after each ball,
     * removed or not.
     */
    method UpdateBalls() returns (raised: bool)
      modifies this`balls, this`score
      ensures var o := UpdateBallsFrom(knight, old(balls), 0);
        balls == o.balls && score == old(score) - BALL_PENALTY * o.hits && raised == o.raised
    {
      var i := 0;
      ghost var hits := 0;
      raised := false;
      while i < |balls|
        invariant var o := UpdateBallsFrom(knight, old(balls), 0);
          var rest := UpdateBallsFrom(knight, balls, i);
          o == rest.(hits := rest.hits + hits)
        invariant score == old(score) - BALL_PENALTY * hits
        decreases |balls| + 1 - i
      {
        ghost var before := balls;
        balls := balls[i := Fall(balls[i])];
        assert RemoveAt(balls, i) == RemoveAt(before, i);
        if OffScreen(balls[i]) {
          balls := RemoveAt(balls, i);
          // check_collision now indexes the coordinates of a deleted item.
          raised := true;
          return;
        }
        if Collide(knight, balls[i]) {
          balls := RemoveAt(balls, i);
          score := score - BALL_PENALTY;
          hits := hits + 1;
        }
        i := i + 1;
      }
    }

    /** spawn_falling_ball: a new ball on the log (row, slot). */
    method SpawnFallingBall(row: nat, slot: nat)
      requires IsGrid(logs, NUM_ROWS, NUM_LOGS_PER_ROW) && IsGrid(logSpeeds, NUM_ROWS, NUM_LOGS_PER_ROW)
      requires row < NUM_ROWS && slot < NUM_LOGS_PER_ROW
      modifies this`balls
      ensures balls == old(balls) + [BallAbove(logs[row][slot])]
    {
      balls := balls + [BallAbove(logs[row][slot])];
    }

    /** spawn_balls_periodically: spawn when the draw says so and fewer than MAX_BALLS balls are out. */
    method SpawnBallsPeriodically(spawn: bool, row: nat, slot: nat)
      requires IsGrid(logs, NUM_ROWS, NUM_LOGS_PER_ROW) && IsGrid(logSpeeds, NUM_ROWS, NUM_LOGS_PER_ROW)
      requires row < NUM_ROWS && slot < NUM_LOGS_PER_ROW
      modifies this`balls
      ensures balls == if spawn && |old(balls)| < MAX_BALLS then old(balls) + [BallAbove(logs[row][slot])] else old(balls)
    {
      if spawn && |balls| < MAX_BALLS {
        SpawnFallingBall(row, slot);
      }
    }

    /**
     * move_knight. (chestRow, chestSlot) is the log a collected chest is
     * replaced over.
     */
    method MoveKnight(dx: real, dy: real, chestRow: nat, chestSlot: nat)
      requires Valid() && chestRow < NUM_ROWS && chestSlot < NUM_LOGS_PER_ROW
      modifies this
      ensures Valid()
      ensures Snapshot() == KnightMove(old(Snapshot()), dx, dy, chestRow, chestSlot)
    {
      knight := Translate(knight, dx, dy);
      if knight.y1 <= 0.0 {
        missionCompleted := true;
        return;
      }
      if !onLog {
        velocityY := velocityY + GRAVITY;
      }
      if Collide(knight, chest) {
        score := score + CHEST_POINTS;
        chest := PlaceChest(logs, chestRow, chestSlot);
      }
    }

    /** jump_knight only forwards to move_knight. */
    method JumpKnight(dx: real, dy: real, chestRow: nat, chestSlot: nat)
      requires Valid() && chestRow < NUM_ROWS && chestSlot < NUM_LOGS_PER_ROW
      modifies this
      ensures Valid()
      ensures Snapshot() == KnightMove(old(Snapshot()), dx, dy, chestRow, chestSlot)
    {
      MoveKnight(dx, dy, chestRow, chestSlot);
    }

    /** fall_to_next_log */
    method FallToNextLog()
      requires Valid()
      modifies this`knight
      ensures Valid()
      ensures Snapshot() == KnightFall(old(Snapshot()))
    {
      var currentRow := GetKnightRow(knight.y1);
      if currentRow < NUM_ROWS - 1 {
        var nextRow := currentRow + 1;
        for i := 0 to NUM_LOGS_PER_ROW
          invariant knight == old(knight)
          invariant forall k :: 0 <= k < i ==> !Collide(knight, logs[nextRow][k])
        {
          if Collide(knight, logs[nextRow][i]) {
            knight := Translate(knight, 0.0, JUMP_DISTANCE);
            return;
          }
        }
      }
    }
  }
}
