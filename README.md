# Animated canvas sketches, modelled in Dafny

This project models the host-side logic of two 2D canvas sketches. A sketch
is a closure that the runner calls once per frame.

- **sketch-01.js, a grid of boxes.**
  - Each frame lays out `cols` x `rows` cells inside a margin, with a gap between cells.
  - The `Box` cached for a cell is reused, and only its position and size are overwritten. A `Box` is created only where the cache has none.
  - Drawing a box either runs its start trial (`insetBoxRandomness < Math.random()`) or draws a centred inset rectangle that closes in as the animation runs. The timer clears once the animation has run `animationLength` seconds.
- **sketch-02.js, a clock face.**
  - Each frame turns `tickCount` ticks to evenly spaced angles on a ring, and draws them and `arcCount` arcs around the centre.
  - A tick waits until a random trial starts it. Every start from rest narrows it again. It then slides from the ring towards the centre, shrinking, and clears when done. With `withAnimationOverride` a running tick can be restarted.
  - An arc is sampled once when its slot is first filled. It starts on its first draw and then rotates at a constant rate forever.

Both sketches share one animation timer. It is the timer methods of `Box` and the `animatedObject` base class (sketch-02.js:30-60), which are the same code. That timer is modelled once, as the value type `Animation.Timer`. Each shape class holds one in its `timer` field.

The model takes the source's own form:

- `Box`, `Tick` and `Arc` are classes whose methods update their fields.
- The frame closures are the classes `BoxSketch.Grid` and `ClockSketch.Face`.
  - Their lazily filled caches (`boxes`, `ticks`, `arcs`) are map fields from slot to object.
  - Their frame loops are methods with loop invariants.
- Each frame method is proved against a specification:
  - A ghost function gives, slot by slot, the state the frame leaves each cached shape in.
  - `Slots.VisitedUpTo` says the frame has visited exactly the slots below the count.
  - Slots at or beyond the count are left as they were, and nothing is removed.

These are passed in as parameters:

- the clock, as one integer `now` in milliseconds per frame;
- the random samples, as values in [0, 1);
- sine and cosine, as functions.

Drawing is modelled as the value each shape would draw: a `BoxDrawing`, a `TickMark` or a rotation.

The grid sketch stores the box of cell (`i`, `j`) at slot `cols * i + j`. With more rows than columns, two cells share a slot (see Findings). The model records that index as written (`BoxSketch.SourceBoxIndex`). The frame itself uses the intended one-slot-per-cell index `rows * i + j` (`BoxSketch.CellIndex`), so the frame's contracts describe the corrected program; `## Left out` says where it differs from the code as written.

An arc's length is modelled as the code computes it. The code draws the length from the one-argument range `random.range(arcMinLength * arcMaxLength)`, that is from [0, arcMinLength * arcMaxLength). Reading `arcMinLength` and `arcMaxLength` as a [min, max) range was probably intended; the model follows the code, and `ClockSketch.ArcLengthIsProductRange` shows the consequence.

## Model

| member | source | states |
|---|---|---|
| Animation.Timer.StartAnimation | sketch-01.js:35-41 | after `startAnimation` the timer has an animation, and no time has elapsed at the start instant |
| Animation.Timer.AnimationElapsed | sketch-01.js:43-45 | the elapsed milliseconds are `now` minus the recorded start |
| Animation.Timer.AnimationElapsedPercent | sketch-01.js:47-49 | the fraction times `animationLength * 1000` is the elapsed time; it is at least 1 exactly when the animation has run its length, non-negative exactly when `now` is not before the start, and 0 exactly at the start |
| Animation.Timer.AnimationClear | sketch-01.js:51-53 | after `animationClear` the timer has no animation |
| Animation.Timer.AnimationClearIfDone | sketch-01.js:55-59 | the result is the timer unchanged or cleared; an active timer is cleared exactly when `now - start >= animationLength * 1000`; an inactive one stays inactive |
| Animation.StartedTimerSurvivesItsFrame | sketch-02.js:30-60 | a timer started at `now` has fraction 0 and is not cleared by `animationClearIfDone` at the same instant |
| Animation.ElapsedPercentMonotone | sketch-02.js:47-49 | the elapsed fraction never decreases as time advances |
| Random.Range | sketch-02.js:112-116 | `random.range(min, max)` with a sample in [0, 1) lies in [min, max) when min < max, and is `min` for sample 0 |
| BoxSketch.InsetRect | sketch-01.js:70-78 | the inner rectangle is centred (offset + inner width + offset = width, likewise for height); it is the outline at fraction 0 and `(1 - inset)` of its size at fraction 1 |
| BoxSketch.InsetRectShrinks | sketch-01.js:70-78 | as the fraction grows, the inner rectangle never grows |
| BoxSketch.BoxTimerStep | sketch-01.js:69-86 | one box draw makes at most one transition: an active box keeps its start or clears (exactly when complete) and never restarts; an inactive box starts at `now` exactly when `insetBoxRandomness < r`, and otherwise stays inactive |
| BoxSketch.NoInsetWhenRandomnessAtLeastOne | sketch-01.js:83-85 | with `insetBoxRandomness >= 1` and samples in [0, 1), an inactive box stays inactive over any number of frames |
| BoxSketch.Box.constructor | sketch-01.js:21-24 | a new box outlines the given rectangle and is not animating |
| BoxSketch.Box.SetPosition | sketch-01.js:26-29 | only the position changes; the size is kept |
| BoxSketch.Box.SetSize | sketch-01.js:30-33 | only the size changes; the position is kept |
| BoxSketch.Box.Draw | sketch-01.js:61-89 | the box outlines its rectangle; it draws an inset rectangle exactly when it was animating, shrunk for the elapsed fraction; its timer takes one `BoxTimerStep` |
| BoxSketch.GridLayout | sketch-01.js:99-103 | the margins are `width * margin` and `height * margin`; `cols` cells plus `cols` gaps plus the margin fill the width exactly, likewise for rows and height |
| BoxSketch.CellRect | sketch-01.js:109-110 | every cell has the same size `iw` x `ih` |
| BoxSketch.ColumnPitch | sketch-01.js:102-110 | columns are `(width - mw) / cols` apart |
| BoxSketch.ColumnsInsideMargins | sketch-01.js:99-110 | with `0 <= margin <= 1`, every column starts at or after `mw / 2` and ends at or before `width - gap * width - mw / 2`, which the last column reaches exactly |
| BoxSketch.RowsInsideMargins | sketch-01.js:99-109 | the same for rows and the height |
| BoxSketch.CellWidthPositive | sketch-01.js:102 | cells have positive width exactly when `gap * cols + margin < 1` |
| BoxSketch.PaneAllowsNegativeCells | sketch-01.js:133-136 | the pane's ranges admit gap 0.9 with 20 columns, which gives a negative cell width |
| BoxSketch.DefaultCellsPositive | sketch-01.js:9-18 | with the default parameters on the 2048 x 2048 canvas every cell is 163.84 square, and the margins total 204.8 across and down |
| BoxSketch.SourceBoxIndexInjective | sketch-01.js:105-107 | as written, the slot `cols * i + j` is unique to its cell when there are no more rows than columns |
| BoxSketch.SourceBoxIndexCollides | sketch-01.js:105-107 | as written, with at least 2 columns and more rows than columns, cells (0, cols) and (1, 0) share slot `cols` |
| BoxSketch.CellIndex | sketch-01.js:107 | the corrected slot of a cell lies below `cols * rows` |
| BoxSketch.CellOfIndex | sketch-01.js:107 | the cell is recovered from its corrected slot by division and remainder by `rows` |
| BoxSketch.CellIndexInjective | sketch-01.js:105-107 | distinct cells have distinct corrected slots for every grid shape |
| BoxSketch.CellIndexRange | sketch-01.js:105-107 | corrected slots stay below `cols * rows` |
| BoxSketch.CellIndexOnto | sketch-01.js:105-107 | every slot below `cols * rows` is the corrected slot of a cell of the grid |
| BoxSketch.FrameStateOfCell | sketch-01.js:105-119 | the state a frame leaves cell (`i`, `j`)'s slot in is the cell's rectangle with one draw step of the slot's prior timer |
| BoxSketch.FrameComplete | sketch-01.js:105-121 | once every slot is visited, the cache holds exactly the old slots plus the grid's slots; slots beyond the grid are unchanged; each cell's slot holds the cell's rectangle and one step of its own timer; each drawing outlines its slot |
| BoxSketch.Grid.constructor | sketch-01.js:93 | the cache starts empty |
| BoxSketch.Grid.DrawCell | sketch-01.js:112-119 | a cached box is reused (position and size overwritten, timer kept), an empty slot gets a fresh box, and the slot's box takes one draw step; every other slot is unchanged |
| BoxSketch.Grid.DrawSlot | sketch-01.js:106-120 | one inner-loop step extends the visited prefix of slots and of drawings by the cell's slot |
| BoxSketch.Grid.DrawColumn | sketch-01.js:106-120 | the inner loop extends the visited prefix by the `rows` slots of column `i` |
| BoxSketch.Grid.Frame | sketch-01.js:94-122 | one frame reuses every cached box, fills exactly the grid's empty slots with fresh boxes, and leaves slots beyond the grid unchanged; each cell's box, at its corrected slot `rows * i + j`, has the cell's rectangle and one step of the timer it had, so an animation survives a resize; the frame draws `cols * rows` outlines, slot by slot |
| ClockSketch.Deg2Rad | sketch-02.js:26-28 | `rad * 180 == deg * Pi` |
| ClockSketch.RingEvenlySpaced | sketch-02.js:162-164 | tick `i` sits at `2 * Pi * i / tickCount`; neighbours are `2 * Pi / tickCount` apart; tick 0 is at 0 and one step past the last tick is a whole turn |
| ClockSketch.RestartNeedsOverride | sketch-02.js:78-81 | a successful trial on a running tick happens only under `withAnimationOverride` |
| ClockSketch.NoTriggerWithoutChance | sketch-02.js:78-81 | with `tickChance <= 0` no trial succeeds |
| ClockSketch.TickWidthStep | sketch-02.js:82-84 | the width changes only when a trial starts an inactive tick; it never grows and stays at least 0.3 times what it was, and a positive width strictly shrinks on such a start |
| ClockSketch.ScaledDown | sketch-02.js:83 | `w * random.range(0.3, 1)` lies in [0.3 w, w], and strictly below a positive `w` |
| ClockSketch.TickTrigger | sketch-02.js:78-86 | the tick runs after its trial exactly when the trial succeeded or it was running; a success restarts it at `now` |
| ClockSketch.TickTimerStep | sketch-02.js:78-105 | a triggered tick is left running from `now`; an untriggered inactive tick stays inactive; an untriggered running tick is kept or cleared, cleared exactly when its animation has run its length |
| ClockSketch.TickMarkAt | sketch-02.js:88-94 | a running tick is drawn with its width, rotated by `-angle`; at fraction 0 it is at `tickRadius` along its direction with full height; at fraction 1 it is at the centre with height 0 |
| ClockSketch.TickMarkDistance | sketch-02.js:88-90 | the tick's distance from the centre is `tickRadius * (1 - f)` |
| ClockSketch.Tick.constructor | sketch-02.js:63-67 | a new tick has the given size and angle and is not animating |
| ClockSketch.Tick.SetDimension | sketch-02.js:69-72 | `setDimension` sets the size |
| ClockSketch.Tick.SetAngle | sketch-02.js:73-75 | `setAngle` sets the angle |
| ClockSketch.Tick.Draw | sketch-02.js:77-106 | one draw moves the tick's state by `TickStep` (only its width and timer change) and shows `TickDrawn` of its prior state |
| ClockSketch.TickShowsWhileRunning | sketch-02.js:88-105 | a tick is drawn exactly when it was running or its trial succeeded; an inactive tick whose trial fails draws nothing and is left unchanged; a drawn tick has its new width and is rotated by `-angle` |
| ClockSketch.SampleArc | sketch-02.js:110-117 | radius in [0.3, 1] of `tickRadius` (below it when positive), start in [0, 360), target angle in [-360, 360), speed in [0.01, 0.09), length in [0, arcMinLength * arcMaxLength) |
| ClockSketch.ArcLengthIsProductRange | sketch-02.js:113 | the length is not in [arcMinLength, arcMaxLength): with the defaults a middle sample gives 4050 and the lowest gives 0 |
| ClockSketch.ArcTimerStep | sketch-02.js:122-124 | after a draw the arc is running, and a running arc keeps its start |
| ClockSketch.ArcActiveForever | sketch-02.js:119-124 | over any non-empty run of frames an arc is running, from the start time of its first draw |
| ClockSketch.ArcRotatesSteadily | sketch-02.js:126 | the rotation `toAngle * f * speed` is 0 when the arc starts and proportional to the elapsed time |
| ClockSketch.Arc.constructor | sketch-02.js:110-117 | a new arc has the sampled shape and is not animating |
| ClockSketch.Arc.Draw | sketch-02.js:119-138 | one draw starts the timer if needed (the shape never changes) and shows the rotation of the elapsed fraction |
| ClockSketch.ResizeKeepsTickSize | sketch-02.js:162-171 | a cached tick's frame step does not depend on the canvas size; its height is unchanged and its width stays within [0.3 w, w] |
| ClockSketch.NewTickSize | sketch-02.js:156-171 | a tick created by a frame has height `height * tickLength`, width in [0.3, 1] of `width * tickWidth`, the slot's ring angle, and runs exactly when its first trial succeeds |
| ClockSketch.ArcShapeFixed | sketch-02.js:178-184 | a cached arc keeps its shape whatever the later samples and parameters, and runs after every frame |
| ClockSketch.Face.constructor | sketch-02.js:142-143 | both caches start empty |
| ClockSketch.Face.DrawTick | sketch-02.js:163-171 | the cached tick at a slot is only turned to the new angle, an empty slot gets a fresh tick, and the slot's tick takes one draw step; every other slot and the arcs are unchanged |
| ClockSketch.Face.DrawArc | sketch-02.js:179-183 | the cached arc at a slot is reused, an empty slot gets a freshly sampled arc, and the slot's arc takes one draw step; every other slot and the ticks are unchanged |
| ClockSketch.Face.DrawTickSlot | sketch-02.js:162-172 | one tick-loop step extends the visited prefix of tick slots and of marks by one |
| ClockSketch.Face.DrawArcSlot | sketch-02.js:178-184 | one arc-loop step extends the visited prefix of arc slots and of rotations by one |
| ClockSketch.Face.DrawTicks | sketch-02.js:162-172 | the tick loop reuses every cached tick, visits exactly slots below `tickCount` (each to its frame step), leaves the rest and the arcs unchanged, and shows each slot's mark |
| ClockSketch.Face.DrawArcs | sketch-02.js:178-184 | the arc loop reuses every cached arc, visits exactly slots below `arcCount`, leaves the rest and the ticks unchanged, and shows each slot's rotation |
| ClockSketch.Face.Frame | sketch-02.js:145-187 | one frame does the tick loop and then the arc loop: both caches only grow, every cached object is reused, trailing slots are untouched, and the marks and rotations are those of each slot's frame step |

## Left out

- Canvas drawing calls (`save`, `translate`, `rotate`, `rect`, `stroke`, `arc`, fill styles and line widths) are left out. Each shape's draw returns the geometry it would paint instead.
- The tick rectangle at sketch-02.js:100 is drawn quarter-size and off-centre. `TickMark` gives the tick's centre and size, not that rectangle.
- The arc's start angle at sketch-02.js:133 is passed in degrees where radians are expected. The arc's path (radius, start, end) is not drawn; only its rotation is.
- `Arc.Draw`: returns the rotation only; the radius, start and length it strokes are kept in the arc's state.
- The `canvasSketch` runner, `settings`, and the Tweakpane pane in `createPane` are user-interface plumbing. The pane's ranges appear only as `BoxSketch.InPaneRanges`.
- sketch-03.js, sketch-06.js and sketch-07.js are not part of this model. Their logic is shader source text that runs on the GPU.
- The clock is a parameter. The source reads `new Date()` afresh in each timer call, but the model uses one `now` per frame for every shape. The unused `currentTime` (sketch-02.js:151) is dropped.
- `Math.random`, `random.chance` and `random.range` are replaced by samples in [0, 1) passed in, with the usual uniform-range semantics.
- `Math.sin` and `Math.cos` are function parameters, and `Math.PI` is a real constant. `ClockSketch.TickMarkDistance` assumes the two values lie on the unit circle.
- Numbers are exact reals, not IEEE doubles. Rounding is not modelled.
- `animationLength = 0` is allowed by the pane but divides by zero. Every operation that computes a fraction requires `animationLength > 0`.
- BoxSketch.Grid.Frame: stores cell (`i`, `j`) at the corrected slot `rows * i + j`, not at `cols * i + j` as sketch-01.js:107 does, so its contract describes the corrected program. It differs from the code as written in three ways. (1) With more rows than columns the code visits slot `cols` twice in a frame, for (0, `cols`) and (1, 0), so that box is moved, drawn twice and steps its timer twice. (2) With fewer rows than columns the code fills slots up to `cols * (cols - 1) + rows - 1`, at or beyond `cols * rows` (slot 7 for 3 columns and 2 rows), which the model leaves unchanged. (3) When `rows` changes between frames the code keeps each cell's box at its slot while the model moves boxes and their timers to other cells; when `cols` changes it is the other way round. The same holds for its helpers, listed below.
- BoxSketch.FrameStateOfCell: describes the state of the corrected slot `rows * i + j`; the code's slot `cols * i + j` is described only by `BoxSketch.SourceBoxIndex`, for the reasons given for `BoxSketch.Grid.Frame`.
- BoxSketch.FrameComplete: the cache layout it states (keys below `cols * rows`, each cell's box at its corrected slot, later slots unchanged) is that of the corrected program, for the reasons given for `BoxSketch.Grid.Frame`.
- BoxSketch.Grid.DrawSlot: extends the visited prefix over the corrected slots, where the code's column `i` starts at slot `cols * i`, for the reasons given for `BoxSketch.Grid.Frame`.
- BoxSketch.Grid.DrawColumn: covers corrected slots `rows * i` to `rows * i + rows - 1`, not the code's `cols * i` to `cols * i + rows - 1`, for the reasons given for `BoxSketch.Grid.Frame`.
- `BoxSketch.Grid.Frame`: requires `cols > 0` and `rows > 0`, as the pane's minimum of 2 guarantees.
- `BoxSketch.Grid.Frame`: states each drawing's outline only. The inset rectangle of each box is stated per box by `BoxSketch.Box.Draw`.
- Counts are natural numbers. The pane lets `arcCount` take fractional values, where the source's loop would run up to the next whole number.
- The fraction computed for an inactive tick (sketch-02.js:88, `new Date() - null`) is never used, so it is computed only for a running tick.
- The duplicated `startAnimation` in `animatedObject` (sketch-02.js:31-37) defines the same method twice. It is modelled once.
- The frame loops are split into per-step methods (`DrawSlot`, `DrawColumn`, `DrawTickSlot`, `DrawArcSlot`). Each step appends to the frame's output instead of painting.
- Sparse JavaScript arrays are modelled as maps from slot to object. A slot's object is either present or absent.

## Findings

| source | as written | input that shows it | evidently intended | confidence | as-written member | corrected member |
|---|---|---|---|---|---|---|
| sketch-01.js:107 | the box of cell (`i`, `j`) is stored at slot `cols * i + j` while `j` runs up to `rows` | `cols = 2`, `rows = 3`: cells (0, 2) and (1, 0) both use slot 2, so one box is repositioned and drawn twice per frame and one cell shares another's animation | one slot per cell, `rows * i + j` (the same as written when `rows == cols`) | high; not executed | BoxSketch.SourceBoxIndexCollides | BoxSketch.CellIndexInjective |
