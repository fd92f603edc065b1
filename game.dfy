/**
 * The FrogJumpGame class of game.py. The fields are the object's attributes
 * and the canvas coordinates of its items; every method changes them in place
 * the way the source does and is proved to agree with GameRules.
 */
module Game {
  import opened Canvas
  import opened GameRules

  class FrogJumpGame {
    var logs: seq<seq<Rect>>    // canvas coordinates of self.logs[row][i]
    var logSpeeds: seq<seq<real>>
    var knight: Rect
    var velocityY: real
    var onLog: bool
    var falling: bool
    var chest: Rect
    var score: int
    var missionCompleted: bool

    function Snapshot(): State
      reads this
    {
      State(logs, logSpeeds, knight, velocityY, onLog, falling, chest, score, missionCompleted)
    }

    ghost predicate Valid()
      reads this
    {
      Inv(Snapshot())
    }

    /**
     * __init__ up to its closing call of update_game, which is the host's first
     * tick. `speeds` are the random.uniform draws and (chestRow, chestSlot)
     * the log the first chest is placed over.
     */
    constructor (speeds: seq<seq<real>>, chestRow: nat, chestSlot: nat)
      requires IsGrid(speeds, NUM_ROWS, NUM_LOGS_PER_ROW)
      requires forall r, i :: 0 <= r < NUM_ROWS && 0 <= i < NUM_LOGS_PER_ROW ==>
        -INITIAL_LOG_SPEED <= speeds[r][i] <= INITIAL_LOG_SPEED
      requires chestRow < NUM_ROWS && chestSlot < NUM_LOGS_PER_ROW
      ensures Valid()
      ensures Snapshot() == Initial(speeds, chestRow, chestSlot)
    {
      logs := InitialLogs();
      logSpeeds := speeds;
      knight := InitialKnight();
      velocityY := 0.0;
      onLog := false;
      falling := false;
      chest := PlaceChest(InitialLogs(), chestRow, chestSlot);
      score := 0;
      missionCompleted := false;
    }

    /** update_game */
    method UpdateGame()
      requires Valid()
      modifies this
      ensures Snapshot() == Tick(old(Snapshot()))
      ensures Valid()
    {
      if missionCompleted {
        return;
      }
      ghost var s := Snapshot();
      MoveLogs();
      ResolveLogCollisions();
      assert Snapshot() == LogsTick(s);
      CheckKnightOnLog();
      assert Snapshot() == RideTick(LogsTick(s));
      DropKnight();
    }

    /**
     * The end of update_game: capped gravity when the knight is falling or on
     * no log, the drop, and the loss once the knight's top reaches the bottom.
     */
    method DropKnight()
      requires 0.0 <= velocityY <= MAX_FALL_VELOCITY
      modifies this`velocityY, this`knight, this`missionCompleted
      ensures Snapshot() == DropTick(old(Snapshot()))
    {
      if falling || !onLog {
        velocityY := velocityY + GRAVITY;
        if velocityY > MAX_FALL_VELOCITY {
          velocityY := MAX_FALL_VELOCITY;
        }
      }
      knight := Translate(knight, 0.0, velocityY);
      if knight.y1 >= WINDOW_HEIGHT {
        velocityY := 0.0;
        missionCompleted := true;
        return;
      }
    }

    /** The first loop of update_game: move every log and reverse it at a screen edge. */
    method MoveLogs()
      requires IsGrid(logs, NUM_ROWS, NUM_LOGS_PER_ROW) && IsGrid(logSpeeds, NUM_ROWS, NUM_LOGS_PER_ROW)
      modifies this`logs, this`logSpeeds
      ensures logs == MovedLogs(old(logs), old(logSpeeds))
      ensures logSpeeds == ReflectedSpeeds(logs, old(logSpeeds))
    {
      for r := 0 to NUM_ROWS
        invariant IsGrid(logs, NUM_ROWS, NUM_LOGS_PER_ROW) && IsGrid(logSpeeds, NUM_ROWS, NUM_LOGS_PER_ROW)
        invariant forall k, i :: 0 <= k < NUM_ROWS && 0 <= i < NUM_LOGS_PER_ROW ==>
          if k < r then
            logs[k][i] == Translate(old(logs)[k][i], old(logSpeeds)[k][i], 0.0) &&
            logSpeeds[k][i] == Reflect(logs[k][i], old(logSpeeds)[k][i])
          else
            logs[k][i] == old(logs)[k][i] && logSpeeds[k][i] == old(logSpeeds)[k][i]
      {
        for j := 0 to NUM_LOGS_PER_ROW
          invariant IsGrid(logs, NUM_ROWS, NUM_LOGS_PER_ROW) && IsGrid(logSpeeds, NUM_ROWS, NUM_LOGS_PER_ROW)
          invariant forall k, i :: 0 <= k < NUM_ROWS && 0 <= i < NUM_LOGS_PER_ROW ==>
            if k < r || (k == r && i < j) then
              logs[k][i] == Translate(old(logs)[k][i], old(logSpeeds)[k][i], 0.0) &&
              logSpeeds[k][i] == Reflect(logs[k][i], old(logSpeeds)[k][i])
            else
              logs[k][i] == old(logs)[k][i] && logSpeeds[k][i] == old(logSpeeds)[k][i]
        {
          logs := logs[r := logs[r][j := Translate(logs[r][j], logSpeeds[r][j], 0.0)]];
          if logs[r][j].x2 >= WINDOW_WIDTH || logs[r][j].x1 <= 0.0 {
            logSpeeds := logSpeeds[r := logSpeeds[r][j := -logSpeeds[r][j]]];
          }
        }
      }
      GridsEqual(logs, MovedLogs(old(logs), old(logSpeeds)), NUM_ROWS, NUM_LOGS_PER_ROW);
      GridsEqual(logSpeeds, ReflectedSpeeds(logs, old(logSpeeds)), NUM_ROWS, NUM_LOGS_PER_ROW);
    }

    /** The second loop of update_game: a row in which two logs touch has its speeds bounced. */
    method ResolveLogCollisions()
      requires IsGrid(logs, NUM_ROWS, NUM_LOGS_PER_ROW) && IsGrid(logSpeeds, NUM_ROWS, NUM_LOGS_PER_ROW)
      modifies this`logSpeeds
      ensures logSpeeds == BouncedSpeeds(logs, old(logSpeeds))
    {
      for r := 0 to NUM_ROWS
        invariant IsGrid(logSpeeds, NUM_ROWS, NUM_LOGS_PER_ROW)
        invariant forall k :: 0 <= k < NUM_ROWS ==>
          logSpeeds[k] == if k < r then RowBounce(logs[k], old(logSpeeds)[k]) else old(logSpeeds)[k]
      {
        var overlapping := CheckLogCollisions(logs[r]);
        if overlapping {
          HandleLogCollisions(r);
        }
      }
      assert forall k :: 0 <= k < NUM_ROWS ==> logSpeeds[k] == BouncedSpeeds(logs, old(logSpeeds))[k];
    }

    /**
     * handle_log_collisions on row r: for every ordered pair of different logs
     * that touch, the first one's speed is negated.
     */
    method HandleLogCollisions(r: nat)
      requires IsGrid(logs, NUM_ROWS, NUM_LOGS_PER_ROW) && IsGrid(logSpeeds, NUM_ROWS, NUM_LOGS_PER_ROW)
      requires r < NUM_ROWS
      modifies this`logSpeeds
      ensures logSpeeds == old(logSpeeds)[r := FlippedRow(logs[r], old(logSpeeds)[r])]
    {
      var items := LogItems();
      for i := 0 to NUM_LOGS_PER_ROW
        invariant IsGrid(logSpeeds, NUM_ROWS, NUM_LOGS_PER_ROW)
        invariant forall k :: 0 <= k < NUM_ROWS && k != r ==> logSpeeds[k] == old(logSpeeds)[k]
        invariant forall m :: 0 <= m < NUM_LOGS_PER_ROW ==>
          logSpeeds[r][m] == if m < i then FlippedRow(logs[r], old(logSpeeds)[r])[m] else old(logSpeeds)[r][m]
      {
        LogItemPlace(r, i);
        for j := 0 to NUM_LOGS_PER_ROW
          invariant IsGrid(logSpeeds, NUM_ROWS, NUM_LOGS_PER_ROW)
          invariant forall k :: 0 <= k < NUM_ROWS && k != r ==> logSpeeds[k] == old(logSpeeds)[k]
          invariant forall m :: 0 <= m < NUM_LOGS_PER_ROW && m != i ==>
            logSpeeds[r][m] == if m < i then FlippedRow(logs[r], old(logSpeeds)[r])[m] else old(logSpeeds)[r][m]
          invariant logSpeeds[r][i] == Negated(old(logSpeeds)[r][i], Overlaps(logs[r], i, j))
        {
          if i != j && Collide(logs[r][i], logs[r][j]) {
            var logRow := GetLogRow(items, items[r][i]);
            logSpeeds := logSpeeds[logRow.value := logSpeeds[logRow.value][i := -logSpeeds[logRow.value][i]]];
          }
        }
      }
      assert forall k :: 0 <= k < NUM_ROWS ==>
        logSpeeds[k] == old(logSpeeds)[r := FlippedRow(logs[r], old(logSpeeds)[r])][k];
    }

    /**
     * check_knight_on_log: in each row the first log the knight touches moves
     * the knight by half its speed and zeroes the vertical velocity; on_log
     * tells whether any row did so.
     */
    method CheckKnightOnLog()
      requires IsGrid(logs, NUM_ROWS, NUM_LOGS_PER_ROW) && IsGrid(logSpeeds, NUM_ROWS, NUM_LOGS_PER_ROW)
      modifies this`onLog, this`velocityY, this`knight
      ensures var ride := RideFrom(old(knight), logs, logSpeeds, 0);
        knight == ride.knight && onLog == (ride.nudges > 0)
      ensures velocityY == if onLog then 0.0 else old(velocityY)
    {
      onLog := false;
      var items := LogItems();
      ghost var whole := RideFrom(knight, logs, logSpeeds, 0);
      ghost var nudges: nat := 0;
      for r := 0 to NUM_ROWS
        invariant whole.knight == RideFrom(knight, logs, logSpeeds, r).knight
        invariant whole.nudges == nudges + RideFrom(knight, logs, logSpeeds, r).nudges
        invariant onLog == (nudges > 0)
        invariant velocityY == if onLog then 0.0 else old(velocityY)
      {
        ghost var touched := FirstTouched(knight, logs[r], 0).Some?;
        CheckRow(r, items);
        if touched {
          nudges := nudges + 1;
        }
      }
    }

    /**
     * The inner loop of check_knight_on_log, over row r: the first log the
     * knight touches, if any, is looked up by its canvas item, moves the
     * knight and ends the loop.
     */
    method CheckRow(r: nat, items: seq<seq<int>>)
      requires IsGrid(logs, NUM_ROWS, NUM_LOGS_PER_ROW) && IsGrid(logSpeeds, NUM_ROWS, NUM_LOGS_PER_ROW)
      requires r < NUM_ROWS && items == LogItems()
      modifies this`onLog, this`velocityY, this`knight
      ensures knight == Translate(old(knight), RowNudge(old(knight), logs[r], logSpeeds[r]), 0.0)
      ensures var touched := FirstTouched(old(knight), logs[r], 0).Some?;
        onLog == (old(onLog) || touched) && velocityY == if touched then 0.0 else old(velocityY)
    {
      FirstTouchedIsFirst(knight, logs[r], 0);
      for j := 0 to NUM_LOGS_PER_ROW
        invariant knight == old(knight) && onLog == old(onLog) && velocityY == old(velocityY)
        invariant forall k :: 0 <= k < j ==> !Collide(knight, logs[r][k])
      {
        if Collide(knight, logs[r][j]) {
          assert FirstTouched(old(knight), logs[r], 0) == Some(j);
          onLog := true;
          LogItemPlace(r, j);
          var logRow := GetLogRow(items, items[r][j]);
          var logIndex := GetLogIndex(items, items[r][j]);
          assert logRow == Some(r) && logIndex == Some(j);
          var logSpeed := logSpeeds[logRow.value][logIndex.value];
          knight := Translate(knight, logSpeed * 0.5, 0.0);
          velocityY := 0.0;
          return;
        }
      }
    }

    /** jump_knight only forwards to move_knight. */
    method JumpKnight(dx: real, dy: real, chestRow: nat, chestSlot: nat)
      requires Valid() && chestRow < NUM_ROWS && chestSlot < NUM_LOGS_PER_ROW
      modifies this
      ensures Valid()
      ensures Snapshot() == KnightMove(old(Snapshot()), dx, dy, chestRow, chestSlot)
    {
      MoveKnight(dx, dy, chestRow, chestSlot);
    }

    /**
     * move_knight. (chestRow, chestSlot) is the log a collected chest is
     * replaced over.
     */
    method MoveKnight(dx: real, dy: real, chestRow: nat, chestSlot: nat)
      requires Valid() && chestRow < NUM_ROWS && chestSlot < NUM_LOGS_PER_ROW
      modifies this
      ensures Valid()
      ensures Snapshot() == KnightMove(old(Snapshot()), dx, dy, chestRow, chestSlot)
    {
      knight := Translate(knight, dx, dy);
      if knight.y1 <= 0.0 {
        missionCompleted := true;
        return;
      }
      if Collide(knight, chest) {
        score := score + CHEST_POINTS;
        chest := PlaceChest(logs, chestRow, chestSlot);
      }
    }

    /** start_falling: the Down key keeps gravity on from now on. */
    method StartFalling()
      requires Valid()
      modifies this`falling
      ensures Valid()
      ensures Snapshot() == old(Snapshot()).(falling := true)
    {
      falling := true;
    }
  }
}
