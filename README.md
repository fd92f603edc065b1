# Frog Jump Game (knight and logs) in Dafny

The repository holds several Tkinter versions of one small arcade game. A
knight stands on rows of logs that slide left and right across a 1000 × 800
window. The player jumps the knight up one row at a time. The knight wins by
reaching the top of the window and loses by falling out of the bottom. Chests
placed above the logs give points. This project models the `FrogJumpGame`
class of two of those versions, each on its own:

- `Quantumquest.py`: falling balls cost points, gravity is uncapped, and the
  Down key drops the knight one row. Its collision test compares mismatched
  coordinates.
- `game.py`: there are no balls and the fall speed is capped. A knight on a
  log rides along with it, logs of a row bounce off each other, and the Down
  key sets a `falling` flag that keeps gravity on. The collision test is a
  closed-interval overlap.

Each version has two modules:

- a rules module (`QuantumQuestRules`, `GameRules`). It defines the game
  state as a datatype and every method of the class as a function of that
  state. The lemmas about those functions state what a tick, a move or a
  sequence of key presses does.
- a class module (`QuantumQuest`, `Game`). It holds a `FrogJumpGame` class
  whose fields are the object's attributes and the canvas coordinates of its
  items. Its methods update those fields in place with the source's loops,
  and each is proved to leave exactly the state the matching rules function
  describes.

`Canvas` holds what both versions need from the Tk canvas. A rectangle is
four coordinates, `move` translates it, and list helpers stand in for
`list.index` and `list.remove`.

Coordinates are reals and y grows downwards. Row 0 is the bottom row of logs.
The canvas item ids of the logs are `1 + 3·row + i`, because Tk numbers
items in creation order and both constructors create the log grid first.
`get_log_row` and `get_log_index` search a grid of these ids.

The Quantumquest.py `update_balls` deletes a ball that has left the screen,
then asks the canvas for that ball's coordinates in `check_collision`. Tk
returns an empty list for a deleted item, so the index at line 182 raises
IndexError. The model ends the tick there: the ball is gone, the rest of the
tick does not happen, and `UpdateGame` returns `raised == true`.

## Model

| member | source | states |
|---|---|---|
| Canvas.IndexOf | Quantumquest.py:166 | `list.index`: the returned position holds the item and no earlier position does |
| Canvas.RemoveAt | Quantumquest.py:208 | `list.remove` of an item at position i: one shorter, the entries before i kept, those after shifted down by one |
| QuantumQuestRules.InitialLogs | Quantumquest.py:30-41 | six rows of three logs; each log has its row's y and the log size; log i of every row starts at x = 150 + 333·i; all lie strictly inside the window, and in each row a log ends before the next begins |
| QuantumQuestRules.InitialSpeeds | Quantumquest.py:57-59 | every speed has magnitude INITIAL_LOG_SPEED (5) and is positive exactly where the coin flip chose rightward |
| QuantumQuestRules.Initial | Quantumquest.py:21-66 | the constructor's state satisfies the invariant, with score 0, no balls, velocity 0, not on a log, mission not completed |
| QuantumQuestRules.LogItems | Quantumquest.py:33-41 | the canvas item ids of the logs form a six-by-three grid; log (r, i) has id 1 + 3·r + i, since Tk numbers items in creation order and the logs are created first, row by row |
| QuantumQuestRules.Inv | Quantumquest.py:48-59 | the invariant the constructor establishes and every step keeps: six rows of three logs and speeds, every log at its row's y with the log size, every speed of magnitude INITIAL_LOG_SPEED, a non-negative fall velocity, at most MAX_BALLS balls |
| QuantumQuestRules.Collide | Quantumquest.py:177-183 | check_collision as written: true exactly when the first box's right x exceeds the second's left x, its top y is below the second's RIGHT x, and its bottom y exceeds the second's top y; the first box's left x and the second's bottom y are never compared |
| QuantumQuestRules.AtEdge | Quantumquest.py:101 | a moved log reverses when its right x has reached WINDOW_WIDTH (1000) or its left x has reached 0 |
| QuantumQuestRules.OnSomeLog | Quantumquest.py:159-168 | check_knight_on_log sets on_log exactly when the knight collides with some log of some row |
| QuantumQuestRules.TouchesRow | Quantumquest.py:221-231 | fall_to_next_log drops the knight exactly when it collides with some log of the next row |
| QuantumQuestRules.OffScreen | Quantumquest.py:206 | a ball has fallen off the screen when its bottom y has reached WINDOW_HEIGHT |
| QuantumQuestRules.GetLogRow | Quantumquest.py:170-175 | returns -1 exactly when no row holds the log; otherwise the first row that holds it |
| QuantumQuestRules.PlaceChest | Quantumquest.py:81-88 | the chest is knight-sized, its bottom lies 10 above the chosen log's top, and it is centred over a log of normal size |
| QuantumQuestRules.BallAbove | Quantumquest.py:190-198 | a spawned ball is BALL_RADIUS square, rests on the chosen log's top and, over a log of normal size, is centred over it |
| QuantumQuestRules.CollideNotSymmetric | Quantumquest.py:177-183 | as written, check_collision is not symmetric: some pair collides one way round and not the other |
| QuantumQuestRules.CollideWithoutOverlap | Quantumquest.py:177-183 | as written, two boxes that are apart on both axes can still count as colliding |
| QuantumQuestRules.KnightTouchesLogFiveRowsUp | Quantumquest.py:177-183 | as written, a knight standing on the bottom row can count as touching a log of the top row |
| QuantumQuestRules.CollideWithLogNeedsReach | Quantumquest.py:177-183 | when the knight touches a log, the log's left x lies between the knight's top y minus the log width and the knight's right x |
| QuantumQuestRules.InitialKnight | Quantumquest.py:44-45 | the starting knight is knight-sized, its left x is KNIGHT_START_X and its bottom is the bottom row's top |
| QuantumQuestRules.InitialKnightTouchesNoLog | Quantumquest.py:44-45 | the starting knight touches no log of any row, wherever the logs have moved |
| QuantumQuestRules.InitialKnightOutOfReach | Quantumquest.py:44-45 | the starting knight is out of every log's reach, so no log can hold it up |
| QuantumQuestRules.Reflect | Quantumquest.py:101-102 | a log's speed keeps its magnitude; it is reversed when the moved log is at an edge and unchanged otherwise |
| QuantumQuestRules.Fall | Quantumquest.py:203 | one tick moves a ball BALL_STEP down and keeps its x |
| QuantumQuestRules.UpdateBallsFrom | Quantumquest.py:200-214 | no ball is lost or created unaccounted: balls kept + balls that hit the knight + (1 if the call raised) = balls before |
| QuantumQuestRules.BallWalk | Quantumquest.py:200-214 | a reference walk over the original list: a ball whose fallen box is off screen ends the walk with a raise, leaving the rest unmoved; a ball that hits the knight is removed and the next ball is skipped, kept unmoved; any other ball is kept fallen; the same count holds as for UpdateBallsFrom |
| QuantumQuestRules.UpdateBallsFromIsWalk | Quantumquest.py:200-214 | the index loop that removes from the list it walks leaves exactly the balls, hits and raise of BallWalk |
| QuantumQuestRules.WalkHarmlessPrefix | Quantumquest.py:201-214 | balls that stay on screen and miss the knight are each kept, fallen, in order, and the walk goes on after them |
| QuantumQuestRules.UpdateBallsAllFall | Quantumquest.py:201-214 | when every ball stays on screen and misses the knight, update_balls moves each down BALL_STEP, keeps them all in order, scores no hit and does not raise |
| QuantumQuestRules.UpdateBallsRaisesAtOffScreen | Quantumquest.py:202-208 | the first ball to leave the screen, after harmless ones, ends the call with a raise; the balls before it are fallen, it is removed, and the balls after it are not moved |
| QuantumQuestRules.UpdateBallsSkipsAfterHit | Quantumquest.py:202-214 | a ball that hits the knight, after harmless ones, is removed with one hit counted, and the ball after it is kept unmoved and untested; the walk resumes two balls on |
| QuantumQuestRules.SkippedBallDoesNotRaise | Quantumquest.py:202-214 | a concrete case: a ball that would leave the screen escapes the off-screen test because the ball before it hit the knight |
| QuantumQuestRules.WalkRaisesOnlyOffScreen | Quantumquest.py:203-208 | the reference walk raises only if some ball's fallen box is off screen |
| QuantumQuestRules.UpdateBallsRaisesOnlyOffScreen | Quantumquest.py:203-208 | update_balls raises only if some ball's fallen box is off screen |
| QuantumQuestRules.MovedLogs | Quantumquest.py:97-99 | every log is moved by its own speed along x |
| QuantumQuestRules.ReflectedSpeeds | Quantumquest.py:100-102 | every speed is the Reflect of the moved log and its old speed |
| QuantumQuestRules.LogsTick | Quantumquest.py:96-102 | the log loop keeps the invariant and changes only the logs and their speeds |
| QuantumQuestRules.KnightTick | Quantumquest.py:104-112 | on_log is true exactly when the knight touches some moved log; velocity is 0 on a log and grows by GRAVITY otherwise; the knight moves down by the velocity; nothing else changes |
| QuantumQuestRules.BallsTick | Quantumquest.py:114-126 | the tail of update_game keeps the invariant, changes only the balls, score, velocity and mission flag, never raises the score, and completes the mission only without a raise and with the knight at or below the bottom, with velocity 0 |
| QuantumQuestRules.Tick | Quantumquest.py:90-129 | update_game keeps the invariant and changes nothing once the mission is completed; a tick that completes the mission did not raise, the knight's top is at or below the bottom and velocity is 0; the chest stays; the score never rises; on_log is true exactly when the knight touches a moved log; the knight keeps its x |
| QuantumQuestRules.TickMovesLogs | Quantumquest.py:96-102 | every log moves by its own speed along x; its speed is negated exactly when the moved log is at an edge and unchanged exactly when it is not |
| QuantumQuestRules.TickBallsAndLoss | Quantumquest.py:114-126 | a tick raises exactly when update_balls does and lowers the score by 2 per ball that hit the knight; unless it raised, the game is lost exactly when the knight's top is at or below the bottom; a ball is appended exactly when the tick neither raised nor lost, the draw says so and fewer than MAX_BALLS balls are left |
| QuantumQuestRules.KnightMove | Quantumquest.py:131-157 | the knight moves by (dx, dy); the mission completes exactly when it was already completed or the top reaches 0; when the top reaches 0 nothing else changes; otherwise gravity is added unless on a log; the score changes exactly when the moved knight is below the top and touches the chest, by +10, with a new chest over the chosen log; logs, speeds, balls and on_log are untouched |
| QuantumQuestRules.KnightRowFrom | Quantumquest.py:233-239 | the row found from i on is the first at or after i whose log top is at or above y, or the top row |
| QuantumQuestRules.KnightRow | Quantumquest.py:233-239 | get_knight_row: the first row whose log top lies at or above y, and the top row when there is none |
| QuantumQuestRules.GetKnightRow | Quantumquest.py:233-239 | the loop returns exactly KnightRow(y) |
| QuantumQuestRules.KnightFall | Quantumquest.py:221-231 | fall_to_next_log moves the knight down by one jump, and changes nothing else, exactly when the knight's row is below the top and the knight touches a log of the next row; otherwise it changes nothing |
| QuantumQuestRules.Step | Quantumquest.py:69-73 | any tick, move, jump or Down key keeps the invariant |
| QuantumQuestRules.Run | Quantumquest.py:69-73 | any sequence of them keeps the invariant |
| QuantumQuestRules.MissionStaysCompleted | Quantumquest.py:93-94 | once the mission is completed, no sequence of calls makes it incomplete again |
| QuantumQuestRules.CompletedGameIgnoresTicks | Quantumquest.py:93-94 | once the mission is completed, any number of ticks leaves the whole state unchanged |
| QuantumQuestRules.FreeFall | Quantumquest.py:107-112 | a knight out of every log's reach, with no balls about, gains GRAVITY of velocity per quiet tick and keeps its x, unless the game is lost first |
| QuantumQuest.FrogJumpGame.constructor | Quantumquest.py:21-76 | builds the state Initial describes |
| QuantumQuest.FrogJumpGame.UpdateGame | Quantumquest.py:90-129 | leaves the state, and reports the raise, exactly as Tick says, and keeps the invariant |
| QuantumQuest.FrogJumpGame.FinishUpdate | Quantumquest.py:114-126 | update_balls, the loss check and the spawn leave the state BallsTick says |
| QuantumQuest.FrogJumpGame.MoveLogs | Quantumquest.py:96-102 | the nested loop leaves logs == MovedLogs(old logs, old speeds) and speeds reflected at the edges |
| QuantumQuest.FrogJumpGame.CheckKnightOnLog | Quantumquest.py:159-168 | on_log is true exactly when the knight touches some log; velocity becomes 0 then and is untouched otherwise |
| QuantumQuest.FrogJumpGame.UpdateBalls | Quantumquest.py:200-214 | the loop that removes from the list it walks leaves the balls, the score and the raise that UpdateBallsFrom describes |
| QuantumQuest.FrogJumpGame.SpawnFallingBall | Quantumquest.py:190-198 | appends the ball BallAbove places over the chosen log |
| QuantumQuest.FrogJumpGame.SpawnBallsPeriodically | Quantumquest.py:216-219 | appends a ball exactly when the draw says so and fewer than MAX_BALLS are out |
| QuantumQuest.FrogJumpGame.MoveKnight | Quantumquest.py:134-157 | leaves the state KnightMove says and keeps the invariant |
| QuantumQuest.FrogJumpGame.JumpKnight | Quantumquest.py:131-132 | the same as MoveKnight |
| QuantumQuest.FrogJumpGame.FallToNextLog | Quantumquest.py:221-231 | leaves the state KnightFall says and keeps the invariant |
| GameRules.InitialLogs | game.py:29-45 | six rows of three logs; each log has its row's y and the log size; log i starts at spacing·(i+1) + 100·i |
| GameRules.InitialLogsApart | game.py:32-40 | every initial log lies inside the window, and no two different initial logs touch |
| GameRules.LogItems | game.py:34-44 | the canvas item ids of the logs form a six-by-three grid; log (r, i) has id 1 + 3·r + i, since Tk numbers items in creation order and the logs are created first, row by row |
| GameRules.LogItemPlace | game.py:34-41 | the canvas item of log (r, i) is held by row r and no other row, at position i only |
| GameRules.GetLogRow | game.py:198-202 | None (Python's implicit None) exactly when no row holds the log; otherwise the first row holding it |
| GameRules.GetLogIndex | game.py:204-208 | None exactly when no row holds the log; otherwise the first position of the log in the first row that holds it |
| GameRules.InitialKnight | game.py:48-49 | the starting knight is knight-sized, its left x is KNIGHT_START_X and its bottom is the bottom row's top |
| GameRules.Collide | game.py:191-196 | check_collision on closed intervals: true unless one box lies wholly left of, right of, above or below the other, so boxes that share only an edge or a corner collide |
| GameRules.AtEdge | game.py:104 | a moved log reverses when its right x has reached WINDOW_WIDTH (1000) or its left x has reached 0 |
| GameRules.RowOverlaps | game.py:175-181 | check_log_collisions holds exactly when two different positions i and j of the row hold logs that collide |
| GameRules.CollideSymmetric | game.py:191-196 | check_collision does not depend on the order of its arguments |
| GameRules.TouchingCollide | game.py:191-196 | boxes that meet only along part of an edge or at a corner collide: side by side with overlapping y ranges, or one resting on the other (a knight standing on a log) with overlapping x ranges |
| GameRules.CollideIsIntervalOverlap | game.py:191-196 | check_collision holds exactly when the closed x and y intervals of the two boxes overlap |
| GameRules.PlaceChest | game.py:79-89 | the chest is knight-sized and never above the window; its top is 40 above the log's top, or 0 when that would be negative; over a log of normal size it is centred, and if not clamped its bottom is 10 above the log |
| GameRules.MovedLogs | game.py:98-101 | every log is moved by its own speed along x |
| GameRules.ReflectedSpeeds | game.py:102-105 | every speed is the Reflect of the moved log and its old speed |
| GameRules.Overlaps | game.py:183-189 | the count of other logs of the row touching log i, among the first n, is at most the number of those other logs |
| GameRules.Negated | game.py:188-189 | negating a speed any number of times keeps its magnitude, and an even number of times gives it back |
| GameRules.Reflect | game.py:102-105 | a log's speed keeps its magnitude; it is reversed when the moved log is at an edge and unchanged otherwise |
| GameRules.CheckLogCollisions | game.py:175-181 | returns true exactly when two different logs of the row touch |
| GameRules.FlippedRow | game.py:183-189 | handle_log_collisions keeps the row's length and every speed's magnitude |
| GameRules.NoOverlapsCounted | game.py:183-189 | a log that touches no other log of its row is never negated |
| GameRules.FlippedRowUnchanged | game.py:183-189 | in a row where no two logs touch, handle_log_collisions changes no speed |
| GameRules.RowBounce | game.py:107-111 | the guarded bounce keeps the row's length and every speed's magnitude |
| GameRules.RowBounceIsFlip | game.py:107-111 | the check_log_collisions guard changes nothing: the bounce equals handle_log_collisions alone |
| GameRules.BouncedSpeeds | game.py:107-111 | each row's speeds are that row's RowBounce, and every magnitude is kept |
| GameRules.FirstTouched | game.py:164-173 | the position found lies in the row, at or after the start |
| GameRules.FirstTouchedIsFirst | game.py:164-173 | the log a row's search stops at is touched by the knight and no earlier one is; when it finds none, the knight touches no log of the row |
| GameRules.RowNudge | game.py:164-171 | a row moves the knight by half the speed of a log it touches, and not at all when it touches none |
| GameRules.RowNudgeBound | game.py:168-171 | a row moves the knight by at most half the largest log speed, and not at all when it touches no log there |
| GameRules.RideFrom | game.py:161-173 | check_knight_on_log from a row up counts at most one log per row |
| GameRules.RideKeepsHeight | game.py:161-173 | check_knight_on_log moves the knight along x only and keeps its width |
| GameRules.RideStillIffUntouched | game.py:161-173 | no row counts the knight as on a log exactly when it touches no log at all; the knight is then not moved |
| GameRules.RideDrift | game.py:161-173 | with speeds drawn in [-6, 6], the knight drifts along x by at most 3 per row that held it |
| GameRules.Gravity | game.py:116-121 | one tick of gravity gives v + GRAVITY, or exactly MAX_FALL_VELOCITY when v + GRAVITY exceeds it; the result is in (0, MAX_FALL_VELOCITY] |
| GameRules.GravityTimes | game.py:117-121 | n ticks of capped gravity never lower the fall velocity and never take it above MAX_FALL_VELOCITY; after at least one tick it is positive |
| GameRules.GravityTimesIsCapped | game.py:116-121 | n ticks of gravity give min(v + n·GRAVITY, MAX_FALL_VELOCITY) |
| GameRules.GravityTimesShift | game.py:116-121 | one gravity step followed by n - 1 more is n steps |
| GameRules.TickTimes | game.py:91-135 | n calls of update_game keep the invariant and leave a completed game as it is |
| GameRules.RunTicksIsTickTimes | game.py:67-71 | running n tick events is calling update_game n times |
| GameRules.FreeFall | game.py:113-121 | a knight below every log gains velocity as n ticks of capped gravity over n ticks and keeps its x, unless the game is lost first |
| GameRules.FallWithoutLogs | game.py:113-121 | wherever the knight starts, if none of the next n ticks finds it on a log, it ends with the velocity of n capped gravity steps and its x unchanged, unless the game is lost first |
| GameRules.TickOffLogs | game.py:113-121 | a tick that finds the knight on no log applies one gravity step and keeps its x, unless the game is lost |
| GameRules.TickBelowLogs | game.py:113-121 | one tick of a knight below every log applies one gravity step, keeps its x and leaves it below every log, unless the game is lost |
| GameRules.Initial | game.py:21-64 | the constructor's state satisfies the invariant, with score 0, velocity 0, not on a log, not falling, mission not completed |
| GameRules.Inv | game.py:29-61 | the invariant the constructor establishes and every step keeps: six rows of three logs and speeds, every log at its row's y with the log size, every speed within ±INITIAL_LOG_SPEED, a fall velocity in [0, MAX_FALL_VELOCITY], a score that is non-negative and a multiple of CHEST_POINTS |
| GameRules.LogsTick | game.py:97-111 | the two log loops keep the invariant and change only the logs and their speeds |
| GameRules.RideTick | game.py:113-114 | after check_knight_on_log, velocity is 0 on a log and unchanged otherwise |
| GameRules.DropTick | game.py:116-132 | the end of update_game applies the capped gravity step when falling or on no log, and the unchanged velocity otherwise; the knight moves down by exactly that velocity and keeps its x; the game is lost exactly when it was already lost or the knight's top reaches the bottom, and velocity is then 0; nothing else changes; velocity stays within [0, MAX_FALL_VELOCITY] |
| GameRules.Tick | game.py:91-135 | update_game keeps the invariant, changes nothing once the mission is completed, and never changes the falling flag, chest or score |
| GameRules.TickKnight | game.py:113-132 | after a tick the knight is on a log exactly when it touched a moved log; the game is lost exactly when its top reaches the bottom, with velocity 0; otherwise the velocity is the capped gravity step (from 0 on a log) when falling or on no log, and 0 on a log; the knight ends where check_knight_on_log's ride puts it, moved down by that velocity, and keeps its x when on no log; it never rises, keeps its height and drifts at most 18 along x |
| GameRules.TickMovesLogs | game.py:97-105 | every log moves by its own speed along x and keeps its row's y |
| GameRules.TickLogSpeed | game.py:97-111 | a log's new speed is its edge-reflected speed negated once per other log of its row that it touches, and its magnitude never changes |
| GameRules.KnightMove | game.py:140-159 | the knight moves by (dx, dy); the mission completes exactly when it was already completed or the top reaches 0; velocity, falling, on_log, logs and speeds are untouched; the score changes exactly when the moved knight is below the top and touches the chest, by +10, with a new chest over the chosen log |
| GameRules.Step | game.py:67-71 | any tick, move, jump or Down key keeps the invariant |
| GameRules.Run | game.py:67-71 | any sequence of them keeps the invariant |
| GameRules.FlagsStaySet | game.py:214-216 | once set, neither the falling flag nor the mission flag is cleared by any sequence of calls |
| GameRules.OnlyDownStartsFalling | game.py:67-71 | without the Down key the falling flag never changes |
| GameRules.CompletedGameIgnoresTicks | game.py:94-95 | once the mission is completed, any number of ticks leaves the whole state unchanged |
| GameRules.JumpsClimb | game.py:140-152 | n jumps lift the knight by n·JUMP_DISTANCE, and the mission is then completed exactly when its top has reached 0, provided no earlier jump got there |
| GameRules.SeventhJumpWins | game.py:47-51 | from the starting state six jumps leave the game running and the seventh wins it |
| Game.FrogJumpGame.constructor | game.py:21-74 | builds the state Initial describes |
| Game.FrogJumpGame.UpdateGame | game.py:91-135 | leaves exactly the state Tick says and keeps the invariant |
| Game.FrogJumpGame.DropKnight | game.py:116-132 | leaves the state DropTick says |
| Game.FrogJumpGame.MoveLogs | game.py:97-105 | the nested loop leaves logs == MovedLogs(old logs, old speeds) and speeds reflected at the edges |
| Game.FrogJumpGame.ResolveLogCollisions | game.py:107-111 | the loop over rows leaves speeds == BouncedSpeeds(logs, old speeds) |
| Game.FrogJumpGame.HandleLogCollisions | game.py:183-189 | the double loop changes only row r, to FlippedRow of its logs and old speeds |
| Game.FrogJumpGame.CheckKnightOnLog | game.py:161-173 | the knight ends where RideFrom puts it; on_log is true exactly when some row held it; velocity is 0 then and unchanged otherwise |
| Game.FrogJumpGame.CheckRow | game.py:164-173 | one pass of the inner loop moves the knight by RowNudge and sets on_log and zeroes velocity exactly when a log of the row is touched |
| Game.FrogJumpGame.JumpKnight | game.py:137-138 | the same as MoveKnight |
| Game.FrogJumpGame.MoveKnight | game.py:140-159 | leaves the state KnightMove says and keeps the invariant |
| Game.FrogJumpGame.StartFalling | game.py:214-216 | sets the falling flag, changes nothing else, and keeps the invariant |

## Left out

- Rendering is not modelled: the canvas colours, the window title, the score text (`update_score`), and the "You Win!" and "Game Over!" texts.
- The key bindings are not modelled as such. A key press is a `MoveEvent` or `FallEvent` of `Step`, with the bindings' dx and dy left as parameters.
- The `root.after(50, ...)` scheduling, the module-level `Tk()` setup and `mainloop` are not modelled. The host is `Run` over a list of events.
- The constructor's closing call of `update_game` is not part of the constructor. It is the first tick the host applies.
- Randomness becomes parameters:
  - the coin flips of the Quantumquest.py speeds, and the `random.uniform` speeds of game.py
  - the row and slot chosen for a chest or a ball
  - the 2% spawn draw
- Floating point is modelled as exact reals, so rounding is not captured.
- Python's integer `//` in the layout becomes the constants it evaluates to.
- The `print` in the Quantumquest.py `check_collision` is left out, because it only writes to the console.
- The `knight_coords` shadow list is left out, because nothing reads it.
- The constants SPEED_INCREMENT and FAST_FALL_VELOCITY are left out, because neither version uses them.
- Canvas item ids are modelled only for the logs, which `get_log_row` and `get_log_index` look up by id. Balls are rectangles in a list, and `balls.remove(ball)` is `Canvas.RemoveAt` at the ball's position; this agrees with removal by id because Tk never reuses an item id.
- Deleting and recreating the chest item is modelled as replacing the chest's rectangle.
- QuantumQuestRules.Step: a tick that raised is followed by further ticks in `Run`. In the program, the exception leaves `update_game` before `root.after` is reached, so the periodic loop stops.
- CheckRow, DropKnight, MoveLogs, ResolveLogCollisions and FinishUpdate are helper methods. They take the source's inline loops or the tail of `update_game` out of the method the source writes them in.
- The Quantumquest.py `log_speed` look-up in `check_knight_on_log` is kept, but its value is unused, as in the source.
