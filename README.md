# mini_lcd display core, modelled in Dafny

mini_lcd is firmware for a Raspberry Pi Pico that drives four small LCD
panels. A host PC streams measurement messages over a two-core FIFO. Two
rotary encoders and their push buttons drive an on-screen menu. Each panel
shows one "display function": a CPU graph, a miscellaneous graph, a colour
test, a Snake game or the settings menu.

This project models the logic behind the panels:

- `c_int.dfy` (`CInt`): the C integer behaviour the firmware relies on.
  This covers int16/uint16/uint32 wrap-around, uint64 time differences and
  division that truncates toward zero.
- `ino_compat.dfy` (`InoCompat`): the Arduino-style `millis`, `map` and
  `constrain` helpers.
- `circle_deq.dfy` (`CircleDeqs`): `CircleDeq<T>`, the fixed-size ring
  buffer that overwrites its oldest entry.
- `comm.dfy` (`Comm`): the inter-core message framing, covering the
  receiving state machine and the sending queue.
- `button.dfy` (`Buttons`): a push button with edge callbacks.
- `encoder.dfy` (`Encoders`): a rotary encoder. It covers the interrupt-side
  quadrature latch, the queue of rotations and the main-loop drain.
- `menu.dfy` (`Menus`): a list menu with wrap-around selection.
- `system.dfy` (`Router`): the display-function router `System`. It keeps
  each function on at most one panel and runs the settings menu flow.
- `perf_graph.dfy` (`PerfGraphs`): the bookkeeping of the performance
  graph. Per-core loads are sorted in descending order into a 50-sample
  history, and there is a 35-sample history for GPU and RAM.
- `snake.dfy` (`Snakes`) and `tetris.dfy` (`TetrisGame`): the two games.
- `hagl_clip.dfy` (`HaglClip`): the HAGL graphics library's clipping
  primitives `put_pixel`, `hline` and `vline`.
- `hagl_rectangle.dfy` (`HaglRectangle`): plain and rounded rectangles,
  both outlined and filled.
- `hagl_blit.dfy` (`HaglBlit`): plain and scaled bitmap blits.

## How the model is built

Objects whose fields the firmware updates in place are Dafny classes. Each
method is proved against a pure specification function of the old state:
`Abs() == SetFn(old(Abs()), idx, f)` for the router, and
`Contents() == Pushed(old(Contents()), v)` for the ring buffer. The
promised properties are then proved as lemmas about those functions.
Examples are the at-most-one-panel rule, the settings round trip, "no full
row survives line removal" and "the newest 127 values survive".

The HAGL primitives do not touch a frame buffer. They return the list of
low-level calls they make: a horizontal span, a vertical span, a pixel or a
whole-bitmap blit. A drawing routine's output is the list of requests it
hands to `hline`, `vline` or `put_pixel`, run through the clipping those
primitives perform (`Visible`). The lemmas then state which pixels end up
painted.

Callbacks (`std::function`) are modelled as flags saying whether one is
set. A method that fires callbacks returns the sequence it fired. Clock
readings (`millis`, `time_us_64`), GPIO levels and `rand()` are parameters.

Two facts about the code that the model keeps:

- `CircleDeq` has kSize = 128 slots but holds at most 127 values
  (`kSize - 1`), so pushing 0..149 leaves 23..149 (`CircleDeqs.PushRange`).
- `PerfGraph::Draw` redraws once 1000 ms have passed.

## Model

| member | source | states |
|---|---|---|
| CInt.ToInt16 | hagl/hagl_hline.cpp:42 | the int16 conversion gives a value in [-2^15, 2^15), congruent to the input mod 2^16, and leaves in-range values alone |
| CInt.Elapsed | Functions/Snake.cpp:31-40 | an unsigned 64-bit `now - last` lies in [0, 2^64), equals `now - last` when no wrap occurs and wraps by 2^64 otherwise |
| CInt.CDiv | hagl/hagl_blit.cpp:68-69 | C integer division: the quotient truncates toward zero, the remainder is smaller than the divisor in magnitude and carries the dividend's sign |
| CInt.CDivExact | hagl/hagl_blit.cpp:68-69 | for a non-negative dividend and a positive divisor, C division agrees with mathematical division |
| InoCompat.Millis | ino_compat.h:15-18 | milliseconds are the microsecond clock divided by 1000: `ms*1000 <= us < (ms+1)*1000` |
| InoCompat.Map | ino_compat.h:25-28 | `map` sends `in_min` to `out_min` and `in_max` to `out_max` |
| InoCompat.MapTruncatesTowardZero | ino_compat.h:25-28 | `map(-1, 0, 2, 0, 1)` is 0 and `map(-3, 0, 2, 0, 1)` is -1, because C truncates toward zero where floor division would give -1 and -2 |
| InoCompat.Constrain | ino_compat.h:30-39 | below `low` gives `low`; above `high` gives `high`; otherwise the value itself; the result lies in [low, high] whenever low ≤ high; when low > high every input gives `high` |
| CircleDeqs.Pushed | Utils/CircleDeq.h:10-17 | a push never takes the buffer past 127 entries |
| CircleDeqs.PushAll | Utils/CircleDeq.h:10-17 | pushing a sequence one value at a time never exceeds the capacity |
| CircleDeqs.PushedNewest | Utils/CircleDeq.h:14-16 | a push onto a full buffer drops exactly the oldest value |
| CircleDeqs.PushAllKeepsNewest | Utils/CircleDeq.h:10-17 | after any number of pushes the buffer holds exactly the newest min(n, 127) values of everything pushed, oldest first |
| CircleDeqs.PushAllFromEmpty | Utils/CircleDeq.h:10-26 | pushing n values into an empty buffer leaves exactly the last min(n, 127) of them to be popped, in order |
| CircleDeqs.PushRange | Utils/CircleDeq.h:14-16 | pushing 0..n-1 with n ≥ 127 into an empty buffer leaves n-127..n-1 |
| CircleDeqs.CircleDeq.Len | Utils/CircleDeq.h:39-42 | the number of stored values is never more than 127 (`kSize - 1`) |
| CircleDeqs.CircleDeq.constructor | Utils/CircleDeq.h:40-42 | a new buffer is empty with both cursors at 0 |
| CircleDeqs.CircleDeq.PushBack | Utils/CircleDeq.h:10-17 | the contents become `Pushed(old contents, v)`: appended, and the oldest value is overwritten when full; both cursors stay below 128 |
| CircleDeqs.CircleDeq.PopFront | Utils/CircleDeq.h:18-26 | an empty buffer returns the blank value and changes nothing; otherwise it returns the oldest value and the contents lose exactly that value |
| CircleDeqs.CircleDeq.Front | Utils/CircleDeq.h:27-33 | returns the blank value when empty, otherwise the value the next `PopFront` returns, without changing anything |
| CircleDeqs.CircleDeq.Empty | Utils/CircleDeq.h:34-37 | true exactly when there are no contents, exactly when the two cursors are equal |
| Comm.Size | Utils/Comm.cpp:11-12 | only MEASUREMENTS and SNAKE have a payload size; the size is positive and fits in the 32-word message |
| Comm.Frame | Utils/Comm.cpp:56-67 | a sent frame is the type word followed by exactly `Size(type)` data words |
| Comm.RxStep | Utils/Comm.cpp:14-49 | one received word keeps the receiver state consistent (the count of words still to come fits the message) and every delivered message is well-formed |
| Comm.FeedPayload | Utils/Comm.cpp:36-46 | feeding the remaining payload words to a Receiving state fills them in order and delivers the message only at the last word |
| Comm.FrameRoundTrip | Utils/Comm.cpp:14-67 | an idle receiver fed a sender's frame delivers the same type and payload, and delivers nothing before the frame's last word |
| Comm.UnknownTypeDropped | Utils/Comm.cpp:25-28 | an unknown type word in Idle delivers nothing and leaves the receiver Idle |
| Comm.ResyncAfterUnknownType | Utils/Comm.cpp:20-46 | after an unknown type word, the next whole frame is still received correctly |
| Comm.Receiver.Process | Utils/Comm.cpp:14-49 | with no word waiting nothing changes; otherwise exactly one word is taken and the state and delivered message are those of `RxStep` |
| Comm.Sender.Send | Utils/Comm.cpp:51-54 | the message is queued at the back |
| Comm.Sender.Process | Utils/Comm.cpp:56-67 | an empty queue does nothing; a known type pops the front message and pushes its `Frame`; an unknown type pushes only the type word, leaves the message queued and reports failure |
| Buttons.Button.constructor | Components/Button.cpp:10-18 | the button starts released (level 1, the initialiser `status_ = 1` of Button.h:19) with the given callbacks |
| Buttons.Button.SetOnUp | Components/Button.cpp:20-23 | installs the release callback and changes nothing else |
| Buttons.Button.SetOnDown | Components/Button.cpp:25-28 | installs the press callback and changes nothing else |
| Buttons.Button.Process | Components/Button.cpp:30-45 | fires only on a level change and records the new level; OnUp fires iff the level rose and that callback is set, OnDown iff it fell and that callback is set |
| Encoders.Edge | Components/Encoder.cpp:79-125 | the interrupt handler: on pin A, A low with B high arms the clockwise latch if it was clear, and A low with B low and the counter-clockwise latch armed enqueues Right and clears both latches; on pin B, B low with A high arms the counter-clockwise latch if it was clear, and B low with A low and the clockwise latch armed enqueues Left and clears both; a GPIO that is neither pin changes nothing; at most one step per interrupt, and a step always clears both latches |
| Encoders.Dispatch | Components/Encoder.cpp:53-64 | each queued step fires at most one callback, and exactly one when both rotation callbacks are set |
| Encoders.DispatchInOrder | Components/Encoder.cpp:53-64 | with both rotation callbacks set, call i of the drain is the callback for queued direction i: one call per step, in FIFO order |
| Encoders.DispatchSnoc | Components/Encoder.cpp:53-64 | draining one more queued direction appends exactly that direction's call, if its callback is set, after the earlier calls |
| Encoders.Encoder.constructor | Components/Encoder.cpp:13-30 | empty queue and latches; with an on-press callback the button is created on the button pin with it as its release callback |
| Encoders.Encoder.SetOnLeft | Components/Encoder.cpp:32-35 | installs the left callback only |
| Encoders.Encoder.SetOnRight | Components/Encoder.cpp:37-40 | installs the right callback only |
| Encoders.Encoder.SetOnPress | Components/Encoder.cpp:42-49 | an existing button gets the callback (or none, for a null one) as its press handler and keeps its level and release handler; otherwise a new button on pinA, released, is created with the callback as its release handler |
| Encoders.Encoder.Callback | Components/Encoder.cpp:79-125 | latches follow `Edge`, and the queue becomes `PushAll(old queue, steps of this edge)` |
| Encoders.Encoder.Drain | Components/Encoder.cpp:53-64 | the queue is emptied and the callbacks fired are exactly `Dispatch` of the old queue, oldest first |
| Encoders.Encoder.Poll | Components/Encoder.cpp:65-67 | at most one callback fires, and none when the button level has not changed |
| Encoders.Encoder.Process | Components/Encoder.cpp:51-68 | empties the queue, then samples the button: the calls are `Dispatch` of the old queue followed by the button's edge call; the button records the new level and keeps its callbacks |
| Encoders.IrqCallback | Components/Encoder.cpp:70-77 | a GPIO registered to an encoder updates that encoder's latches by `Edge` and its queue by `PushAll`, keeping its button, callbacks and queue object; other GPIOs change nothing |
| Menus.UpIndex | Functions/Menu.cpp:31-37 | the new selection lies in the list |
| Menus.DownIndex | Functions/Menu.cpp:39-45 | the new selection lies in the list |
| Menus.UpFromPositive | Functions/Menu.cpp:31-37 | from a positive selection Up moves exactly one item back |
| Menus.DownWraps | Functions/Menu.cpp:39-45 | Down from the last item wraps to 0 |
| Menus.UpFromZero | Functions/Menu.cpp:31-37 | Up from item 0 lands on `(2^32 - 1) mod n`, which is the last item iff n divides 2^32 |
| Menus.UpFromZeroExamples | Functions/Menu.cpp:31-37 | Up from item 0 lands on item 3 of 4, on item 0 of 5 and on item 3 of 6 |
| Menus.Menu.constructor | Functions/Menu.cpp:5-9 | no items and selection -1 |
| Menus.Menu.SetItems | Functions/Menu.cpp:11-21 | a null or empty list leaves no items and selection -1; otherwise the items are replaced and the selection goes back to 0 |
| Menus.Menu.Up | Functions/Menu.cpp:31-37 | with no items nothing changes; otherwise the selection becomes `UpIndex` and the items are unchanged |
| Menus.Menu.Down | Functions/Menu.cpp:39-45 | with no items nothing changes; otherwise the selection becomes `DownIndex` and the items are unchanged |
| Menus.Menu.Click | Functions/Menu.h:19 | passes the current selection to the select callback and changes nothing |
| Router.FromIndex | System.h:13-20 | the function picker's index 0, and only it, is None; index 5, and only it, is Settings |
| Router.Reassigned | System.cpp:129-205 | after `setDisplayFunction(idx, f)` slot idx holds f; every other slot keeps its function unless it held an earlier copy of f, which becomes None; an out-of-range idx changes nothing |
| Router.ScannedWhenFound | System.cpp:143-146 | when the scan stops at idx already holding f, its result equals the full reassignment |
| Router.SetFn | System.cpp:129-205 | the slots become `Reassigned`, the hand-over events are appended, and selected display, verbosity and reboot flag are untouched |
| Router.SetFnSplit | System.cpp:141-204 | `setDisplayFunction` is the scan followed by the hand-over on idx |
| Router.CloseFn | System.cpp:271-276 | closing settings forgets the settings display and the remembered function |
| Router.PickFunctionFn | System.cpp:243-254 | an out-of-range index changes nothing |
| Router.PickVerbosityFn | System.cpp:260-267 | an out-of-range index changes nothing; a valid one sets the verbosity and closes settings |
| Router.InitSlots | System.cpp:99-106 | start-up shows Misc graph, CPU graph, colour test and Snake on slots 0..3 |
| Router.ReassignedOnlyAtIdx | System.cpp:141-204 | after assigning f ≠ None, f sits on slot idx and nowhere else |
| Router.ReassignedKeepsExclusive | System.cpp:141-204 | if no function sat on two slots before, none does afterwards |
| Router.ReassignedFrame | System.cpp:141-152 | a slot emptied by the assignment held f, and f is not None |
| Router.SetNone | System.cpp:149 | assigning None empties exactly that slot and records one hand-over |
| Router.SetSameIsNoOp | System.cpp:141-146 | assigning f to a slot that already holds it changes nothing, events included |
| Router.SetIdempotent | System.cpp:129-205 | assigning the same function twice gives the same slots as once, and the same whole state for f ≠ None |
| Router.SettingsRoundTrip | System.cpp:194-198 | putting Settings on a slot and then restoring the remembered function gives back the original slots |
| Router.PressOpensSettings | System.cpp:82-88 | a press with no settings open puts Settings on slot 3, remembers slot 3's function and shows the main menu with item 0 selected |
| Router.CancelRestoresSlots | System.cpp:214-230 | opening settings and clicking "Cancel" restores every slot and clears the settings bookkeeping |
| Router.CloseWithoutSettings | System.cpp:271-276 | with no settings open, closing changes no slot and records no event |
| Router.PickFunctionApplies | System.cpp:243-254 | a valid pick puts the function on the selected display and forgets that selection; settings are closed unless the pick is Settings |
| Router.SetKeepsExclusive | System.cpp:129-205 | every `setDisplayFunction` keeps each function on at most one slot |
| Router.CloseKeepsExclusive | System.cpp:271-276 | closing settings keeps each function on at most one slot |
| Router.PickKeepsExclusive | System.cpp:241-269 | both pickers keep each function on at most one slot |
| Router.SelectKeepsExclusive | System.cpp:207-269 | every menu click keeps each function on at most one slot |
| Router.PressKeepsExclusive | System.cpp:82-88 | the encoder press keeps each function on at most one slot |
| Router.System.constructor | System.cpp:66-97 | four empty slots, no settings open, no menu page, verbosity 2 |
| Router.System.ShowMenu | System.cpp:207-212 | the menu shows the given page's items with item 0 selected |
| Router.System.ShowSettings | System.cpp:207-212 | the state becomes the main menu with item 0 selected |
| Router.System.ClearSlot | System.cpp:147-150 | one slot becomes None and its hand-over is recorded |
| Router.System.ScanStep | System.cpp:141-152 | one scan step stops exactly at idx holding f; otherwise the slots follow the scan so far |
| Router.System.ScanForCopies | System.cpp:141-152 | reports whether idx already holds f; the slots become `Scanned` and the clearing events are recorded |
| Router.System.HandOver | System.cpp:153-204 | the state becomes `HandOverFn` of the old state |
| Router.System.SetDisplayFunction | System.cpp:129-205 | the state becomes `SetFn(old state, idx, f)`, and the lemmas above hold of it |
| Router.System.Init | System.cpp:99-106 | the state becomes `InitFn`; the slots are Misc graph, CPU graph, colour test, Snake |
| Router.System.CloseSettings | System.cpp:271-276 | the state becomes `CloseFn` of the old state |
| Router.System.ShowDisplayNames | System.cpp:232-239 | the display picker is shown with item 0 selected |
| Router.System.ShowFunctionNames | System.cpp:241-256 | the function picker is shown with item 0 selected |
| Router.System.ShowVerbosityNames | System.cpp:258-269 | the verbosity picker is shown with item 0 selected |
| Router.System.OnMainMenuItem | System.cpp:214-230 | the state becomes `MainMenuFn(old state, idx)` |
| Router.System.OnFunctionPicked | System.cpp:243-254 | the state becomes `PickFunctionFn(old state, idx)` |
| Router.System.OnVerbosityPicked | System.cpp:260-267 | the state becomes `PickVerbosityFn(old state, idx)` |
| Router.System.Click | System.cpp:207-269 | a click hands the current selection to the page's callback, giving `SelectFn` |
| Router.System.OnEncoderPress | System.cpp:82-88 | the state becomes `PressFn` of the old state |
| PerfGraphs.SortedEndsWithZero | PerfGraph.cpp:41-43 | a descending row of naturals that contains a 0 ends with 0, so the stale 17th entry of a row is always 0 |
| PerfGraphs.SwapDown | PerfGraph.cpp:41-43 | swaps two neighbours, leaves the rest alone and keeps the multiset |
| PerfGraphs.InsertDescending | PerfGraph.cpp:41-43 | inserts entry i into the descending prefix, giving a descending prefix one longer, with the same multiset and no change beyond i |
| PerfGraphs.SortDescending | PerfGraph.cpp:41-43 | the array ends up in descending order and is a permutation of its old contents |
| PerfGraphs.PerfGraph.constructor | PerfGraph.cpp:23-36 | every CPU, GPU and RAM history entry is 0 and both cursors start at 0 |
| PerfGraphs.PerfGraph.SetCpuDisplay | Functions/PerfGraph.h:12 | records the CPU display and changes nothing else |
| PerfGraphs.PerfGraph.SetMiscDisplay | Functions/PerfGraph.h:13 | records the misc display and changes nothing else |
| PerfGraphs.PerfGraph.LoadRow | PerfGraph.cpp:41-42 | copies the 16 core loads and the row's stale 17th entry into a fresh buffer |
| PerfGraphs.PerfGraph.StoreRow | PerfGraph.cpp:41-43 | writes one row back and leaves every other row unchanged |
| PerfGraphs.PerfGraph.StoreMisc | PerfGraph.cpp:45-49 | RAM and GPU samples go to the misc cursor; the three GPU scalars are copied |
| PerfGraphs.PerfGraph.AddData | PerfGraph.cpp:38-53 | the row at the CPU cursor becomes the 16 core loads plus a 0 in descending order (a permutation); all other rows stay; RAM and GPU are stored at the misc cursor; the cursors advance mod 50 and mod 35 |
| PerfGraphs.PerfGraph.Draw | PerfGraph.cpp:150-163 | less than 1000 ms since the last redraw (in uint64 arithmetic) draws nothing; otherwise each present display is drawn and the time is recorded |
| Snakes.TurnLeft | Functions/Snake.cpp:77-90 | a left turn never keeps the direction and never reverses it |
| Snakes.TurnRight | Functions/Snake.cpp:104-117 | a right turn never keeps the direction and never reverses it |
| Snakes.TurnsUndo | Functions/Snake.cpp:66-118 | left then right (or right then left) is no turn; two lefts or two rights reverse |
| Snakes.PerformStep | Functions/Snake.cpp:120-138 | one step moves exactly one cell, along the direction's axis and with its sign |
| Snakes.StepBack | Functions/Snake.cpp:120-138 | a step followed by a step in the opposite direction returns to the start |
| Snakes.Candidate | Functions/Snake.cpp:145-146 | every random apple position lies inside the playing field, left of the last column |
| Snakes.FirstFree | Functions/Snake.cpp:144-154 | the retry loop stops at the first candidate not on the snake; all earlier ones were on it |
| Snakes.SpawnedApple | Functions/Snake.cpp:140-157 | the spawned apple is inside the field and not on the snake |
| Snakes.MoveKeepsBody | Functions/Snake.cpp:45-62 | moving or growing onto a free in-field cell keeps the body inside the field and free of self-overlap |
| Snakes.StartFits | Functions/Snake.cpp:192-200 | the starting body fits a field of at least 6×7 and does not overlap itself |
| Snakes.Snake.constructor | Functions/Snake.cpp:12-18 | starts without a display, game over, facing right, with the given time |
| Snakes.Snake.SpawnApple | Functions/Snake.cpp:140-157 | without a display nothing changes; with one the apple is the first free candidate |
| Snakes.Snake.Reset | Functions/Snake.cpp:177-205 | with a display the game is restarted: starting body, facing right, new apple |
| Snakes.Snake.SetDisplay | Functions/Snake.cpp:20-27 | attaching a display resets the game; detaching keeps the game state |
| Snakes.Snake.TurnLeftCall | Functions/Snake.cpp:66-91 | after game over a press restarts; a second turn within one step is ignored; otherwise the direction turns left and the turn is recorded |
| Snakes.Snake.TurnRightCall | Functions/Snake.cpp:93-118 | the same as the left turn, with a right turn |
| Snakes.Snake.Process | Functions/Snake.cpp:29-64 | before the 200 ms tick (or without a display, or after game over) nothing moves; on a tick the head steps, and a wall or self hit ends the game unchanged, eating grows the body and respawns the apple, otherwise the body moves by one |
| TetrisGame.Offsets | Functions/Tetris.cpp:19-27 | each tetromino has four block offsets |
| TetrisGame.ApplyOffsetTurns | Functions/Tetris.cpp:39-59 | rotation r applies r quarter turns to an offset |
| TetrisGame.FourTurns | Functions/Tetris.cpp:39-59 | four quarter turns give back the original offset |
| TetrisGame.PivotIsCell | Functions/Tetris.cpp:19-27 | every rotation keeps the pivot block at the piece position |
| TetrisGame.CellsShift | Functions/Tetris.cpp:215-227 | moving the piece position by (dx, dy) moves every block by (dx, dy) |
| TetrisGame.Recorded | Functions/Tetris.cpp:191-196 | a cell is reported as taken exactly when it is among the recorded blocks |
| TetrisGame.IsOccupied | Functions/Tetris.cpp:186-197 | a cell is occupied iff it is left of, right of or below the board, or recorded; cells above the board are free |
| TetrisGame.CountAppend | Functions/Tetris.cpp:237-243 | recording more blocks adds their count per row |
| TetrisGame.AddCountsExact | Functions/Tetris.cpp:237-243 | after adding, each row counter equals the number of recorded blocks in that row |
| TetrisGame.ClearRow | Functions/Tetris.cpp:261-271 | clearing row i removes exactly as many blocks as row i held |
| TetrisGame.CountClearRow | Functions/Tetris.cpp:261-271 | after clearing row i, each row r ≤ i has the count row r - 1 had before, and each row below i keeps its count |
| TetrisGame.ClearRowRows | Functions/Tetris.cpp:261-271 | clearing a row keeps every block on the board |
| TetrisGame.RemoveFromClears | Functions/Tetris.cpp:256-282 | when the counts from the scan start on are exact and no row before the scan start is full, no row at all is full after the scan, every block stays on the board, and the blocks are untouched unless some were removed |
| TetrisGame.FitsBelowFloor | Functions/Tetris.cpp:229-253 | a piece that can move down one cell is not on the bottom row |
| TetrisGame.DropFn | Functions/Tetris.cpp:138-149 | a hard drop keeps the game valid: blocks on the board, counters exact |
| TetrisGame.SpawnOnBoard | Functions/Tetris.cpp:199-213 | a new piece at the top centre of a board at least 4 wide fits on the board in every shape |
| TetrisGame.SpawnKeepsValid | Functions/Tetris.cpp:199-213 | spawning keeps the game valid |
| TetrisGame.ShiftKeepsValid | Functions/Tetris.cpp:215-227 | a move that fits keeps the game valid |
| TetrisGame.MoveKeepsValid | Functions/Tetris.cpp:215-227 | a sideways move, whether it happens or not, keeps the game valid |
| TetrisGame.RotateKeepsValid | Functions/Tetris.cpp:118-136 | rotation keeps the game valid |
| TetrisGame.RemoveLinesKeepsValid | Functions/Tetris.cpp:256-282 | line removal keeps the game valid and leaves no full row |
| TetrisGame.LandKeepsValid | Functions/Tetris.cpp:236-249 | landing (record the piece, spawn the next, then remove full lines unless the spawn ended the game) keeps the game valid and, unless it ends the game, leaves no full row |
| TetrisGame.AdvanceKeepsValid | Functions/Tetris.cpp:229-254 | the one-row fall keeps the game valid |
| TetrisGame.ResetKeepsValid | Functions/Tetris.cpp:151-157 | a reset gives a valid, empty, running game |
| TetrisGame.Tetris.constructor | Functions/Tetris.h:33-45 | a new game has no display, an empty board, zero row counters and is over |
| TetrisGame.Tetris.SetDisplay | Functions/Tetris.cpp:62-68 | records the display and changes no game state |
| TetrisGame.Tetris.FreeAt | Functions/Tetris.cpp:217-225 | true exactly when every block of the piece at the given position is free |
| TetrisGame.Tetris.OnBoardAt | Functions/Tetris.cpp:124-132 | true exactly when every block of the rotated piece is on the board |
| TetrisGame.Tetris.MovePiece | Functions/Tetris.cpp:215-227 | the game becomes `MoveFn`: the piece moves only if it fits there |
| TetrisGame.Tetris.Rotate | Functions/Tetris.cpp:118-136 | without a display nothing changes; otherwise the game becomes `RotateFn` |
| TetrisGame.Tetris.SetRotation | Functions/Tetris.cpp:134 | when the next rotation lies on the board, the game becomes `RotateFn` of the old game |
| TetrisGame.Tetris.SpawnPiece | Functions/Tetris.cpp:199-213 | the game becomes `SpawnFn`: a new piece at the top centre; a recorded block on the new piece's pivot cell ends the game, and otherwise the game-over flag is kept (the other three blocks are not checked) |
| TetrisGame.Tetris.RecordPiece | Functions/Tetris.cpp:237-243 | the piece's blocks are recorded and the row counters become `RecordFn`'s |
| TetrisGame.Tetris.ClearRowOf | Functions/Tetris.cpp:261-271 | the blocks become `ClearRow` of the old ones; the result says whether any block went |
| TetrisGame.Tetris.Recount | Functions/Tetris.cpp:275-278 | every row counter becomes the number of recorded blocks in its row |
| TetrisGame.Tetris.RemoveLines | Functions/Tetris.cpp:256-282 | the game becomes `RemoveLinesFn` of the old game |
| TetrisGame.Tetris.AdvancePiece | Functions/Tetris.cpp:229-254 | the game becomes `AdvanceFn`, and the result says whether the piece fell |
| TetrisGame.Tetris.Land | Functions/Tetris.cpp:236-249 | the game becomes `LandFn` of the old game |
| TetrisGame.Tetris.Drop | Functions/Tetris.cpp:138-149 | without a display nothing changes; otherwise the game becomes `DropFn` |
| TetrisGame.Tetris.Sideways | Functions/Tetris.cpp:70-98 | without a display nothing changes; after game over the game resets; otherwise the piece moves by dx if it fits |
| TetrisGame.Tetris.Reset | Functions/Tetris.cpp:151-157 | the board and counters are emptied and a new piece is spawned |
| TetrisGame.Tetris.Process | Functions/Tetris.cpp:100-116 | before the 500 ms tick (or without a display, or after game over) nothing changes; on a tick the piece advances one row or lands |
| HaglClip.PutPixel | hagl/hagl_pixel.cpp:42-56 | a pixel reaches the display exactly when it lies inside the clip window |
| HaglClip.GetPixel | hagl/hagl_pixel.cpp:58-75 | reading a pixel always yields black |
| HaglClip.HLine | hagl/hagl_hline.cpp:40-66 | a line wholly outside the clip (or empty) sends nothing; otherwise one span on the same row, inside the clip, is sent; a line inside the clip is sent unchanged |
| HaglClip.VLine | hagl/hagl_vline.cpp:40-66 | the same for vertical lines, on the same column |
| HaglClip.HLineExact | hagl/hagl_hline.cpp:50-63 | with a clip window at the origin the span covers exactly the requested pixels that are inside the clip |
| HaglClip.VLineExact | hagl/hagl_vline.cpp:50-63 | the same for vertical lines |
| HaglClip.HLineLeftClipOverdraws | hagl/hagl_hline.cpp:50-53 | with the clip's left edge at 10, a 10-pixel line from x = 5 becomes a span of 15 starting at 10: the code adds `x0` to the width instead of removing the clipped part |
| HaglClip.VLineTopClipOverdraws | hagl/hagl_vline.cpp:50-53 | the same at the clip's top edge |
| HaglClip.PixelIsUnitLine | hagl/hagl_pixel.cpp:42-56 | a pixel is painted exactly when a one-pixel line at that place would paint it |
| HaglClip.VisibleUnclipped | hagl/hagl_hline.cpp:61-65 | requests that lie inside the clip reach the display unchanged |
| HaglRectangle.ExchangeSwaps | hagl/hagl_rectangle.cpp:47-58 | the three-step add/subtract swap on int16 exchanges the values even when the intermediate sum overflows |
| HaglRectangle.Ordered | hagl/hagl_rectangle.cpp:47-58 | after the swaps the corners are ordered and are the same two values |
| HaglRectangle.Normalize | hagl/hagl_rectangle.cpp:46-58 | the normalised rectangle has x0 ≤ x1 and y0 ≤ y1 and holds the same coordinates |
| HaglRectangle.MissesHasNoVisiblePixel | hagl/hagl_rectangle.cpp:60-68 | a rectangle the early exit rejects has no pixel inside the clip |
| HaglRectangle.Outline | hagl/hagl_rectangle.cpp:70-76 | the outline is four line requests |
| HaglRectangle.DrawRectangle | hagl/hagl_rectangle.cpp:43-77 | at most four spans, all inside the clip; nothing for a rectangle outside it |
| HaglRectangle.DrawRectangleInside | hagl/hagl_rectangle.cpp:70-76 | a rectangle inside the clip is drawn as its four edges unchanged |
| HaglRectangle.DrawRectangleExact | hagl/hagl_rectangle.cpp:43-77 | with the clip at the origin the painted pixels are exactly the outline pixels inside the clip |
| HaglRectangle.OutlineExact | hagl/hagl_rectangle.cpp:70-76 | the four edge requests cover exactly the rectangle's outline |
| HaglRectangle.FillRowsExact | hagl/hagl_rectangle.cpp:79-118 | the filled rows lie inside the clip and paint exactly the rectangle's pixels that are inside the clip |
| HaglRectangle.FillRectangle | hagl/hagl_rectangle.cpp:79-118 | the calls made are those of `FillRows`, one clamped span per row |
| HaglRectangle.ClampRadius | hagl/hagl_rectangle.cpp:150-153 | the radius is cut to at most half the width and half the height, and is one of those three values |
| HaglRectangle.EdgeRequests | hagl/hagl_rectangle.cpp:155-158 | the straight edges are four line requests |
| HaglRectangle.RoundedEdgesInside | hagl/hagl_rectangle.cpp:155-158 | for a rectangle inside the clip the straight edges reach the display unchanged |
| HaglRectangle.MidpointStep | hagl/hagl_rectangle.cpp:164-172 | one midpoint step advances x by one, lowers y by one iff the decision value was positive, and keeps the decision value in int16 |
| HaglRectangle.ArcRequests | hagl/hagl_rectangle.cpp:174-188 | each midpoint step makes eight requests |
| HaglRectangle.DrawRoundedRectangle | hagl/hagl_rectangle.cpp:120-190 | the edges come first, then at most 8(r+1) corner pixels, and everything sent lies inside the clip |
| HaglRectangle.CornerArcs | hagl/hagl_rectangle.cpp:160-189 | the corner loop sends at most 8(r+1) pixels, all inside the clip |
| HaglRectangle.CapRequests | hagl/hagl_rectangle.cpp:241-265 | each midpoint step makes four line requests |
| HaglRectangle.FillRoundedRectangle | hagl/hagl_rectangle.cpp:192-270 | at most 4(r+1) cap spans inside the clip, followed by the filled centre band |
| HaglRectangle.CapsAndBand | hagl/hagl_rectangle.cpp:227-269 | the caps lie inside the clip and are followed by exactly the centre band's rows |
| HaglRectangle.CornerCaps | hagl/hagl_rectangle.cpp:227-266 | the cap loop sends at most 4(r+1) spans, all inside the clip |
| HaglBlit.CopyPutsLength | hagl/hagl_blit.cpp:51-56 | the fallback copy requests one pixel per texel, w·h in all |
| HaglBlit.CopyPutsAt | hagl/hagl_blit.cpp:51-56 | texel `buffer[y*w + x]` is requested at (x0 + x, y0 + y) |
| HaglBlit.BlitXY | hagl/hagl_blit.cpp:42-61 | a bitmap that fits inside the clip goes to the display in one blit; otherwise each pixel is put through clipping |
| HaglBlit.CopyPixels | hagl/hagl_blit.cpp:48-56 | the fallback loop makes exactly the clipped `CopyPuts` calls |
| HaglBlit.FlushRightTakesFallback | hagl/hagl_blit.cpp:45-46 | a bitmap inside the clip whose last column is clip.x1 or whose last row is clip.y1 fails the fast-path test, so it is copied pixel by pixel |
| HaglBlit.CopyInsideForwarded | hagl/hagl_blit.cpp:51-56 | on the fallback path a bitmap inside the clip has every pixel forwarded unchanged |
| HaglBlit.Sample | hagl/hagl_blit.cpp:73-75 | a sampled source coordinate is inside the source; at scale 1 it is the coordinate itself |
| HaglBlit.RatioBounds | hagl/hagl_blit.cpp:68-73 | the 16.16 fixed-point ratio never sends a target coordinate outside the source |
| HaglBlit.SameSizeRatio | hagl/hagl_blit.cpp:68-74 | at equal sizes the ratio is exactly 1.0 and sampling is the identity |
| HaglBlit.SampleFormula | hagl/hagl_blit.cpp:73-74 | the sample is `(i * ratio) >> 16` |
| HaglBlit.ScaledPutsLength | hagl/hagl_blit.cpp:71-78 | the scaled copy requests one pixel per target position, w·h in all |
| HaglBlit.ScaledSameSizeIsCopy | hagl/hagl_blit.cpp:63-79 | scaling to the bitmap's own size requests exactly what the plain copy does |
| HaglBlit.BlitXYWH | hagl/hagl_blit.cpp:63-79 | the calls made are exactly the clipped `ScaledPuts` requests |
| HaglBlit.FixedRatio | hagl/hagl_blit.cpp:68-69 | the stored ratio is below 2^31, so the uint32 store never wraps, and it is the floor of the 16.16 quotient: `ratio·n ≤ size·2^16 < ratio·n + n` |
| HaglBlit.SampleAt | hagl/hagl_blit.cpp:73-75 | given any ratio that is the floor of the 16.16 quotient, the computed coordinate equals `Sample`, so it lies inside the source |

## Left out

- Display drivers, SPI, DMA and the HAL back-end are left out: they are hardware I/O. So are the `hagl.cpp` colour and font glue, `hagl_image`, TCP, the Logger and `main.cpp`. The duplicate older revisions at the repository root (`Button.cpp`, `Encoder.cpp`, `Snake.cpp` and others) are not part of this model; the `Components/` and `Functions/` versions are the ones modelled. The one exception is the root `Button.h`, the only header for `Components/Button.cpp`: its initialiser `status_ = 1` (Button.h:19) gives the button's starting level.
- `hagl/hline.h`, `hagl/vline.h`, `hagl/window.h` and `hagl/bitmap.h` are not part of this model. The window and bitmap records are re-declared as datatypes.
- Drawing a frame is left out: the float arithmetic of the CPU and misc graphs (PerfGraph.cpp:69-148), the colour test and `Menu::draw` are not modelled. `PerfGraphs.PerfGraph.Draw` only says when a redraw happens.
- Concurrency is left out. The encoder interrupt handler and the main loop, and the two cores around the FIFO, are modelled as running one after the other, with no interleaving inside a call. The hardware FIFO is a `Fifo` class holding a sequence of words.
- `System::Process` (System.cpp:108-117) and `System::OnMessage` (System.cpp:119-127) only poll the components and forward messages, so they are not modelled. Their targets (`Encoder::Process`, `Button::Process`, `Receiver::Process`, `PerfGraph::AddData`, the games' `Process`) are.
- `watchdog_reboot` is recorded as a `rebooted` flag. Display clears and activations are recorded as Deactivate/Activate events.
- `Menus.Menu.Click`: the body of `Menu::Click` is outside this model; it is modelled as calling the select callback with the current selection.
- `Menus.Menu.Up` is modelled as written: from item 0 it computes `(size_t)(0 - 1) % n`, which is the last item only when n divides 2^32 (`Menus.UpFromZero`).
- `Encoders.Encoder.SetOnPress`: when no button exists, the code creates it on `pinA` rather than the button pin, and the model follows the code.
- `InoCompat.Map`: does not model the overflow of the C `long` products; its contract covers the endpoints, and truncation toward zero is shown by `InoCompat.MapTruncatesTowardZero`.
- `HaglClip.HLine` and `HaglClip.VLine`: the contracts state that the span lies inside the clip, not that it covers exactly the requested pixels, because when the clip does not start at 0 the code adds `x0` to the width instead of removing the clipped part (`HaglClip.HLineLeftClipOverdraws`). Exact coverage is proved for a clip at the origin (`HaglClip.HLineExact`).
- The clip window is assumed to satisfy 0 ≤ x0 ≤ x1 < 2^15 (likewise for y), as the display's default clip does (hagl/include/Display.h:14).
- `HaglRectangle.DrawRoundedRectangle` and `HaglRectangle.FillRoundedRectangle`: do not prove that the corner pixels lie on a circle, only how many there are and that they are clipped; the radius is required below 32767 so the int16 midpoint counter cannot wrap.
- `HaglBlit.BlitXYWH`: requires positive target sizes and a non-empty bitmap, since the code would divide by zero otherwise. It also requires the bitmap's width and height to be below 2^15, so that `width << 16` and `height << 16` stay within a 32-bit int.
- `Comm.Sender.Process`: for a message of unknown type the code's `Message::Size.at` throws `std::out_of_range` after the type word has been pushed. The model returns `ok == false` in place of the exception and leaves the message queued.
- `Snakes.Snake.SpawnApple`: `rand()` is a sequence of numbers passed in, and the model requires a free candidate somewhere in it; the code retries forever otherwise. The apple never lands in the last column (`x` is drawn from `width - 2` values starting at 1), and the model keeps that.
- `Snakes.Snake.constructor`: the header declares `Snake()` while the source file defines `Snake(Display*)`; the model starts without a display, which `SetDisplay` then attaches. Fields are required to be at least 6 wide and 7 high so the starting body fits.
- `TetrisGame.Tetris.constructor`: `presentBlocks_` has no initializer in the code; the model starts the row counters at zero. Boards are required to be at least 4 wide and 2 high.
- `TetrisGame.Tetris.Sideways` models both `Left` and `Right` (Functions/Tetris.cpp:70-98), which differ only in the sign of the move.
- `TetrisGame.Tetris.Drop` and `TetrisGame.Tetris.Rotate`: like the code, they do not check for game over.
- `rand()` in Tetris is a single number passed in. Clocks (`millis`, `time_us_64`) are parameters, and time differences are uint64 as in the code.
