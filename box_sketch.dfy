/**
  sketch-01.js: a grid of boxes. Each frame lays out `cols` x `rows` cells
  inside a margin, reuses the box cached for a cell (only its position and
  size are overwritten), creates a box for a cell that has none, and draws
  every box. Drawing a box either starts its inset animation (a random trial
  against `insetBoxRandomness`) or draws an inner rectangle that closes in
  linearly with the elapsed fraction, clearing the timer once it completes.
*/
module BoxSketch {
  import opened Wrappers
  import opened Animation
  import opened Slots

  /** The sketch's `params` object, read by every frame. */
  datatype Params = Params(
    rows: nat,
    cols: nat,
    margin: real,
    gap: real,
    inset: real,
    insetBoxRandomness: real,
    lineWidth: real,
    animationLength: real)

  /** The initial values of `params`. */
  const Defaults: Params := Params(10, 10, 0.1, 0.01, 0.2, 0.0, 2.0, 2.0)

  /** The ranges the tweaking pane allows for each parameter. */
  predicate InPaneRanges(p: Params) {
    && 0.1 <= p.lineWidth <= 20.0
    && 2 <= p.rows <= 20
    && 2 <= p.cols <= 20
    && 0.01 <= p.margin <= 0.9
    && 0.01 <= p.gap <= 0.9
    && 0.01 <= p.inset <= 0.9
    && 0.0 <= p.insetBoxRandomness <= 1.0
    && 0.0 <= p.animationLength <= 10.0
  }

  datatype Rect = Rect(left: real, top: real, width: real, height: real)

  /** What one box draws: its outline and, while animating, the inset rectangle. */
  datatype BoxDrawing = BoxDrawing(outline: Rect, inner: Option<Rect>)

  // ---------------------------------------------------------------------
  // Drawing one box
  // ---------------------------------------------------------------------

  /**
    The inner rectangle drawn at elapsed fraction `fraction`: the outline
    shrunk by `inset * fraction` of its size, split evenly on both sides.
  */
  function InsetRect(outline: Rect, inset: real, fraction: real): (r: Rect)
    ensures (r.left - outline.left) + r.width + (r.left - outline.left) == outline.width
    ensures (r.top - outline.top) + r.height + (r.top - outline.top) == outline.height
    ensures fraction == 0.0 ==> r == outline
    ensures fraction == 1.0 ==> r.width == (1.0 - inset) * outline.width
    ensures fraction == 1.0 ==> r.height == (1.0 - inset) * outline.height
  {
    var k := inset * fraction;
    Rect(outline.left + (k * outline.width) / 2.0,
         outline.top + (k * outline.height) / 2.0,
         outline.width - k * outline.width,
         outline.height - k * outline.height)
  }

  /** The inner rectangle never grows as the fraction advances. */
  lemma InsetRectShrinks(outline: Rect, inset: real, f: real, g: real)
    requires inset >= 0.0 && outline.width >= 0.0 && outline.height >= 0.0
    requires f <= g
    ensures InsetRect(outline, inset, g).width <= InsetRect(outline, inset, f).width
    ensures InsetRect(outline, inset, g).height <= InsetRect(outline, inset, f).height
  {
    ScaleMonotone(inset, f, g);
    ScaleMonotone(outline.width, inset * f, inset * g);
    ScaleMonotone(outline.height, inset * f, inset * g);
    assert (inset * f) * outline.width == outline.width * (inset * f);
    assert (inset * g) * outline.width == outline.width * (inset * g);
    assert (inset * f) * outline.height == outline.height * (inset * f);
    assert (inset * g) * outline.height == outline.height * (inset * g);
  }

  /**
    The timer transition of one `Box.draw`: an active box only ever runs to
    completion, an inactive one starts when the trial `insetBoxRandomness < r`
    succeeds. `r` is the value `Math.random()` returned.
  */
  function BoxTimerStep(t: Timer, now: int, r: real, p: Params): (t': Timer)
    requires p.animationLength > 0.0
    ensures t.HasAnimation() ==> t' == t || t' == Inactive
    ensures t.HasAnimation() ==>
              (t' == Inactive <==> t.AnimationElapsed(now) as real >= p.animationLength * MillisPerSecond)
    ensures !t.HasAnimation() ==> (t'.HasAnimation() <==> p.insetBoxRandomness < r)
    ensures !t.HasAnimation() && t'.HasAnimation() ==> t' == Active(now)
  {
    if t.HasAnimation() then
      t.AnimationClearIfDone(now, p.animationLength)
    else if p.insetBoxRandomness < r then
      t.StartAnimation(now)
    else
      t
  }

  /** The timer after a box is drawn on successive frames at `nows`, with trials `rs`. */
  function BoxTimerRun(t: Timer, nows: seq<int>, rs: seq<real>, p: Params): Timer
    requires |nows| == |rs| && p.animationLength > 0.0
    decreases |nows|
  {
    if nows == [] then t else BoxTimerRun(BoxTimerStep(t, nows[0], rs[0], p), nows[1..], rs[1..], p)
  }

  /**
    With `insetBoxRandomness` at 1 or more, no trial with `Math.random()` in
    [0, 1) succeeds, so an inactive box never animates, however many frames.
  */
  lemma {:induction false} NoInsetWhenRandomnessAtLeastOne(t: Timer, nows: seq<int>, rs: seq<real>, p: Params)
    requires |nows| == |rs| && p.animationLength > 0.0
    requires !t.HasAnimation() && p.insetBoxRandomness >= 1.0
    requires forall k :: 0 <= k < |rs| ==> 0.0 <= rs[k] < 1.0
    ensures BoxTimerRun(t, nows, rs, p) == Inactive
  {
    if nows != [] {
      NoInsetWhenRandomnessAtLeastOne(BoxTimerStep(t, nows[0], rs[0], p), nows[1..], rs[1..], p);
    }
  }

  /** A box: a cell's rectangle plus its inset-animation timer. */
  class Box {
    var x: real
    var y: real
    var width: real
    var height: real
    var timer: Timer

    /** The rectangle the box outlines. */
    function Outline(): Rect
      reads this
    {
      Rect(x, y, width, height)
    }

    /** A new box, not animating. */
    constructor (x: real, y: real, width: real, height: real)
      ensures Outline() == Rect(x, y, width, height)
      ensures timer == Inactive
    {
      this.x, this.y := x, y;
      this.width, this.height := width, height;
      timer := Inactive;
    }

    /** `setPosition`: only the position changes. */
    method SetPosition(x: real, y: real)
      modifies this`x, this`y
      ensures Outline() == Rect(x, y, old(width), old(height))
    {
      this.x, this.y := x, y;
    }

    /** `setSize`: only the size changes. */
    method SetSize(width: real, height: real)
      modifies this`width, this`height
      ensures Outline() == Rect(old(x), old(y), width, height)
    {
      this.width, this.height := width, height;
    }

    /**
      `draw`: outline the box; while animating, also draw the inset
      rectangle for the elapsed fraction, then clear a completed timer;
      otherwise run the start trial with the sample `r`.
    */
    method Draw(now: int, r: real, p: Params) returns (d: BoxDrawing)
      requires p.animationLength > 0.0
      modifies this`timer
      ensures d.outline == Outline()
      ensures d.inner.Some? <==> old(timer).HasAnimation()
      ensures old(timer).HasAnimation() ==>
                d.inner.value == InsetRect(Outline(), p.inset, old(timer).AnimationElapsedPercent(now, p.animationLength))
      ensures timer == BoxTimerStep(old(timer), now, r, p)
    {
      if timer.HasAnimation() {
        var fraction := timer.AnimationElapsedPercent(now, p.animationLength);
        d := BoxDrawing(Outline(), Some(InsetRect(Outline(), p.inset, fraction)));
        timer := timer.AnimationClearIfDone(now, p.animationLength);
      } else {
        d := BoxDrawing(Outline(), None);
        if p.insetBoxRandomness < r {
          timer := timer.StartAnimation(now);
        }
      }
    }
  }

  // ---------------------------------------------------------------------
  // Grid layout
  // ---------------------------------------------------------------------

  /** Margins `mw`/`mh` and cell size `iw` x `ih` of one frame. */
  datatype Layout = Layout(mw: real, mh: real, iw: real, ih: real)

  /** The layout computed from the canvas size at the start of each frame. */
  function GridLayout(width: real, height: real, p: Params): (l: Layout)
    requires p.cols > 0 && p.rows > 0
    ensures l.mw == width * p.margin && l.mh == height * p.margin
    ensures l.iw * p.cols as real + p.gap * width * p.cols as real + l.mw == width
    ensures l.ih * p.rows as real + p.gap * height * p.rows as real + l.mh == height
  {
    var mw := width * p.margin;
    var mh := height * p.margin;
    Layout(mw, mh,
           (width - p.gap * width * p.cols as real - mw) / p.cols as real,
           (height - p.gap * height * p.rows as real - mh) / p.rows as real)
  }

  /** Left edge of the cells in column `i`. */
  function CellLeft(l: Layout, width: real, p: Params, i: nat): real {
    (l.iw + p.gap * width) * i as real + l.mw / 2.0
  }

  /** Top edge of the cells in row `j`. */
  function CellTop(l: Layout, height: real, p: Params, j: nat): real {
    (l.ih + p.gap * height) * j as real + l.mh / 2.0
  }

  /** The rectangle of cell (`i`, `j`): every cell has the same size. */
  function CellRect(l: Layout, width: real, height: real, p: Params, i: nat, j: nat): (r: Rect)
    ensures r.width == l.iw && r.height == l.ih
  {
    Rect(CellLeft(l, width, p, i), CellTop(l, height, p, j), l.iw, l.ih)
  }

  /**
    One step from a column to the next is (width - mw) / cols: a cell plus
    a gap share evenly what the margins leave.
  */
  lemma ColumnPitch(width: real, height: real, p: Params)
    requires p.cols > 0 && p.rows > 0
    ensures var l := GridLayout(width, height, p);
      l.iw + p.gap * width == (width - l.mw) / p.cols as real
  {
    var l := GridLayout(width, height, p);
    var c := p.cols as real;
    assert (l.iw + p.gap * width) * c == l.iw * c + p.gap * width * c;
    QuotientOf(l.iw + p.gap * width, width - l.mw, c);
  }

  /**
    Column `i` lies inside the margins: its left edge is at least `mw / 2`
    and its right edge at most `width - gap * width - mw / 2`, which the last
    column reaches exactly.
  */
  lemma ColumnsInsideMargins(width: real, height: real, p: Params, i: nat)
    requires p.cols > 0 && p.rows > 0 && i < p.cols
    requires width >= 0.0 && 0.0 <= p.margin <= 1.0
    ensures var l := GridLayout(width, height, p);
      && CellLeft(l, width, p, i) >= l.mw / 2.0
      && CellLeft(l, width, p, i) + l.iw <= width - p.gap * width - l.mw / 2.0
      && (i == p.cols - 1 ==> CellLeft(l, width, p, i) + l.iw == width - p.gap * width - l.mw / 2.0)
  {
    var l := GridLayout(width, height, p);
    var c := p.cols as real;
    var pitch := (width - l.mw) / c;
    ColumnPitch(width, height, p);
    ScaleMonotone(width, p.margin, 1.0);
    assert pitch * c == width - l.mw;
    SignOfScaled(c, pitch);
    ScaleMonotone(pitch, 0.0, i as real);
    ScaleMonotone(pitch, (i + 1) as real, c);
    assert CellLeft(l, width, p, i) == pitch * i as real + l.mw / 2.0;
    assert CellLeft(l, width, p, i) + l.iw == pitch * (i + 1) as real + l.mw / 2.0 - p.gap * width;
  }

  /** Rows lie inside the margins in the same way. */
  lemma RowsInsideMargins(width: real, height: real, p: Params, j: nat)
    requires p.cols > 0 && p.rows > 0 && j < p.rows
    requires height >= 0.0 && 0.0 <= p.margin <= 1.0
    ensures var l := GridLayout(width, height, p);
      && CellTop(l, height, p, j) >= l.mh / 2.0
      && CellTop(l, height, p, j) + l.ih <= height - p.gap * height - l.mh / 2.0
      && (j == p.rows - 1 ==> CellTop(l, height, p, j) + l.ih == height - p.gap * height - l.mh / 2.0)
  {
    var transposed := p.(rows := p.cols, cols := p.rows);
    ColumnsInsideMargins(height, width, transposed, j);
    var l, t := GridLayout(width, height, p), GridLayout(height, width, transposed);
    assert l.ih == t.iw && l.mh == t.mw;
    assert CellTop(l, height, p, j) == CellLeft(t, height, transposed, j);
  }

  /** Cells have a positive width exactly when `gap * cols + margin < 1`. */
  lemma CellWidthPositive(width: real, height: real, p: Params)
    requires p.cols > 0 && p.rows > 0 && width > 0.0
    ensures GridLayout(width, height, p).iw > 0.0 <==> p.gap * p.cols as real + p.margin < 1.0
  {
    var l := GridLayout(width, height, p);
    var c := p.cols as real;
    var s := 1.0 - p.gap * c - p.margin;
    assert width * s == width - p.gap * width * c - width * p.margin;
    assert c * l.iw == width * s;
    SignOfScaled(c, l.iw);
    SignOfScaled(width, s);
  }

  /** The pane lets the cell width go negative: gap 0.9 with 20 columns. */
  lemma PaneAllowsNegativeCells()
    ensures var p := Defaults.(gap := 0.9, cols := 20);
      InPaneRanges(p) && GridLayout(2048.0, 2048.0, p).iw < 0.0
  {
    var p := Defaults.(gap := 0.9, cols := 20);
    CellWidthPositive(2048.0, 2048.0, p);
  }

  /** With the default parameters on the 2048 x 2048 canvas every cell is 163.84 square. */
  lemma DefaultCellsPositive()
    ensures GridLayout(2048.0, 2048.0, Defaults) == Layout(204.8, 204.8, 163.84, 163.84)
  {
  }

  // ---------------------------------------------------------------------
  // Cache slot of a cell
  // ---------------------------------------------------------------------

  /** The slot `cols * i + j` the source computes for column `i`, row `j`. */
  function SourceBoxIndex(cols: nat, i: nat, j: nat): nat {
    cols * i + j
  }

  /** As written, the slot is unique to its cell when there are no more rows than columns. */
  lemma SourceBoxIndexInjective(cols: nat, rows: nat, i: nat, j: nat, i': nat, j': nat)
    requires rows <= cols && i < cols && i' < cols && j < rows && j' < rows
    requires SourceBoxIndex(cols, i, j) == SourceBoxIndex(cols, i', j')
    ensures i == i' && j == j'
  {
    DivModOfCell(cols, i, j);
    DivModOfCell(cols, i', j');
  }

  /**
    As written, with more rows than columns cells (0, cols) and (1, 0)
    share one slot: with cols = 2 and rows = 3, slot 2 is visited twice.
  */
  lemma SourceBoxIndexCollides(cols: nat, rows: nat)
    requires 2 <= cols < rows
    ensures SourceBoxIndex(cols, 0, cols) == SourceBoxIndex(cols, 1, 0) == cols
  {
  }

  /**
    The slot of cell (`i`, `j`) in the order the loops visit them: column by
    column, `rows` slots per column. The cell is recovered from the slot.
  */
  function CellIndex(cols: nat, rows: nat, i: nat, j: nat): (k: nat)
    requires i < cols && j < rows
    ensures k < cols * rows
  {
    CellIndexRange(cols, rows, i, j);
    rows * i + j
  }

  /** The cell is recovered from its slot: column by division, row by remainder. */
  lemma CellOfIndex(cols: nat, rows: nat, i: nat, j: nat)
    requires i < cols && j < rows
    ensures CellIndex(cols, rows, i, j) / rows == i && CellIndex(cols, rows, i, j) % rows == j
  {
    DivModOfCell(rows, i, j);
  }

  /** Distinct cells have distinct slots, for every grid shape. */
  lemma CellIndexInjective(cols: nat, rows: nat, i: nat, j: nat, i': nat, j': nat)
    requires i < cols && i' < cols && j < rows && j' < rows
    requires CellIndex(cols, rows, i, j) == CellIndex(cols, rows, i', j')
    ensures i == i' && j == j'
  {
    CellOfIndex(cols, rows, i, j);
    CellOfIndex(cols, rows, i', j');
  }

  /** The slots of a `cols` x `rows` grid are exactly 0 .. cols * rows - 1. */
  lemma CellIndexRange(cols: nat, rows: nat, i: nat, j: nat)
    requires i < cols && j < rows
    ensures rows * i + j < cols * rows
  {
    NatScaleMonotone(rows, i + 1, cols);
    assert rows * (i + 1) == rows * i + rows;
    assert cols * rows == rows * cols;
  }

  /** Every slot below `cols * rows` is the slot of exactly one cell of the grid. */
  lemma CellIndexOnto(cols: nat, rows: nat, k: nat)
    requires k < cols * rows
    ensures rows > 0 && k / rows < cols && CellIndex(cols, rows, k / rows, k % rows) == k
  {
    assert rows > 0;
    var i, j := k / rows, k % rows;
    assert k == rows * i + j;
    assert rows * i < rows * cols;
    QuotientBelow(rows, i, cols);
  }

  /** The slot after the last cell of column `i` is the first of column `i + 1`. */
  lemma NextColumn(rows: nat, cols: nat, i: nat)
    requires i < cols
    ensures rows * i + rows == rows * (i + 1) <= cols * rows
  {
    NatScaleMonotone(rows, i + 1, cols);
  }

  // ---------------------------------------------------------------------
  // Arithmetic facts the proofs above use
  // ---------------------------------------------------------------------

  lemma ScaleMonotone(a: real, b: real, c: real)
    requires a >= 0.0 && b <= c
    ensures a * b <= a * c
  {
    assert a * c - a * b == a * (c - b);
  }

  lemma SignOfScaled(a: real, b: real)
    requires a > 0.0
    ensures a * b > 0.0 <==> b > 0.0
    ensures a * b >= 0.0 <==> b >= 0.0
  {
  }

  lemma QuotientOf(x: real, y: real, c: real)
    requires c > 0.0 && x * c == y
    ensures x == y / c
  {
  }

  lemma NatScaleMonotone(a: nat, b: nat, c: nat)
    requires b <= c
    ensures a * b <= a * c
  {
    assert a * c == a * b + a * (c - b);
  }

  lemma QuotientBelow(a: nat, i: nat, c: nat)
    requires a * i < a * c
    ensures i < c
  {
    if c <= i {
      NatScaleMonotone(a, c, i);
    }
  }

  lemma SmallMultipleIsZero(r: int, d: int)
    requires r > 0 && -r < r * d < r
    ensures d == 0
  {
  }

  lemma DivModOfCell(rows: nat, i: nat, j: nat)
    requires j < rows
    ensures (rows * i + j) / rows == i && (rows * i + j) % rows == j
  {
    var k := rows * i + j;
    var q, m := k / rows, k % rows;
    assert k == rows * q + m;
    assert rows * (q - i) == j - m;
    SmallMultipleIsZero(rows, q - i);
  }

  // ---------------------------------------------------------------------
  // The frame driver and its cache of boxes
  // ---------------------------------------------------------------------

  /** Outline and timer of one cached box. */
  datatype BoxState = BoxState(outline: Rect, timer: Timer)

  /** The timer a slot starts a frame with: its box's, or that of a new box. */
  function PriorTimer(states: map<nat, BoxState>, k: nat): Timer
  {
    if k in states then states[k].timer else Inactive
  }

  /** The state frame step `k` leaves slot `k` in, given its state before the frame. */
  function CellStep(before: map<nat, BoxState>, k: nat, l: Layout, width: real, height: real,
                    now: int, samples: seq<real>, p: Params): BoxState
    requires p.rows > 0 && k < |samples| && p.animationLength > 0.0
  {
    BoxState(CellRect(l, width, height, p, k / p.rows, k % p.rows),
             BoxTimerStep(PriorTimer(before, k), now, samples[k], p))
  }

  /** Each drawing outlines the expected state of the slot it was drawn for. */
  ghost predicate OutlinesDrawn(drawings: seq<BoxDrawing>, expected: seq<BoxState>)
    requires |drawings| <= |expected|
  {
    forall k :: 0 <= k < |drawings| ==> drawings[k].outline == expected[k].outline
  }

  /** Drawing the next slot's outline extends the drawn prefix by one. */
  lemma OutlinesAppend(drawings: seq<BoxDrawing>, d: BoxDrawing, expected: seq<BoxState>)
    requires |drawings| < |expected| && OutlinesDrawn(drawings, expected)
    requires d.outline == expected[|drawings|].outline
    ensures OutlinesDrawn(drawings + [d], expected)
  {
  }

  /** The state every slot a frame visits is left in, slot by slot. */
  ghost function FrameStates(before: map<nat, BoxState>, l: Layout, width: real, height: real,
                             now: int, samples: seq<real>, p: Params): (e: seq<BoxState>)
    requires p.rows > 0 && p.animationLength > 0.0
    ensures |e| == |samples|
    ensures forall k :: 0 <= k < |e| ==> e[k] == CellStep(before, k, l, width, height, now, samples, p)
  {
    seq(|samples|, k requires 0 <= k < |samples| => CellStep(before, k, l, width, height, now, samples, p))
  }

  /** The expected state of the slot of cell (`i`, `j`). */
  lemma FrameStateOfCell(before: map<nat, BoxState>, l: Layout, width: real, height: real,
                         now: int, samples: seq<real>, p: Params, i: nat, j: nat)
    requires p.rows > 0 && p.animationLength > 0.0 && |samples| == p.cols * p.rows
    requires i < p.cols && j < p.rows
    ensures var k := CellIndex(p.cols, p.rows, i, j);
      FrameStates(before, l, width, height, now, samples, p)[k]
      == BoxState(CellRect(l, width, height, p, i, j), BoxTimerStep(PriorTimer(before, k), now, samples[k], p))
  {
    CellOfIndex(p.cols, p.rows, i, j);
  }

  /**
    A frame that has visited every slot of the grid leaves each cell's slot
    with the cell's rectangle and one step of its timer, leaves the slots
    beyond the grid as they were, and has drawn each slot's outline.
  */
  lemma FrameComplete(before: map<nat, BoxState>, after: map<nat, BoxState>, l: Layout, width: real, height: real,
                      now: int, samples: seq<real>, p: Params, drawings: seq<BoxDrawing>)
    requires p.rows > 0 && p.animationLength > 0.0 && |samples| == p.cols * p.rows
    requires VisitedUpTo(before, after, FrameStates(before, l, width, height, now, samples, p), |samples|)
    requires |drawings| == |samples| && OutlinesDrawn(drawings, FrameStates(before, l, width, height, now, samples, p))
    ensures forall k: nat :: k in after <==> k in before || k < p.cols * p.rows
    ensures forall k :: k in before && k >= p.cols * p.rows ==> after[k] == before[k]
    ensures forall i: nat, j: nat :: i < p.cols && j < p.rows ==>
              var k := CellIndex(p.cols, p.rows, i, j);
              after[k] == BoxState(CellRect(l, width, height, p, i, j), BoxTimerStep(PriorTimer(before, k), now, samples[k], p))
    ensures forall k :: 0 <= k < |drawings| ==> drawings[k].outline == after[k].outline
  {
    forall i: nat, j: nat | i < p.cols && j < p.rows
      ensures var k := CellIndex(p.cols, p.rows, i, j);
        after[k] == BoxState(CellRect(l, width, height, p, i, j), BoxTimerStep(PriorTimer(before, k), now, samples[k], p))
    {
      FrameStateOfCell(before, l, width, height, now, samples, p, i, j);
    }
  }

  /**
    The closure returned by `sketch`: the `boxes` array, filled lazily and
    never rebuilt, and the per-frame drawing.
  */
  class Grid {
    var boxes: map<nat, Box>

    /** No box is cached in two slots. */
    ghost predicate Valid()
      reads this
    {
      forall k, k' :: k in boxes && k' in boxes && k != k' ==> boxes[k] != boxes[k']
    }

    /** The state of every cached box. */
    ghost function States(): (m: map<nat, BoxState>)
      reads this, boxes.Values
      ensures m.Keys == boxes.Keys
    {
      map k | k in boxes :: BoxState(boxes[k].Outline(), boxes[k].timer)
    }

    /** `let boxes = []`. */
    constructor ()
      ensures Valid() && boxes == map[]
    {
      boxes := map[];
    }

    /**
      One cell of a frame: reuse the box at slot `k`, overwriting only its
      position and size, or create one there if the slot is empty; then draw
      it with the start-trial sample `r`.
    */
    method DrawCell(k: nat, cell: Rect, ghost prior: Timer, now: int, r: real, p: Params) returns (d: BoxDrawing)
      requires Valid() && p.animationLength > 0.0
      requires prior == PriorTimer(States(), k)
      modifies this, if k in boxes then {boxes[k]} else {}
      ensures Valid()
      ensures boxes.Keys == old(boxes).Keys + {k}
      ensures forall k' :: k' in old(boxes) ==> boxes[k'] == old(boxes)[k']
      ensures k !in old(boxes) ==> fresh(boxes[k])
      ensures States()[k] == BoxState(cell, BoxTimerStep(prior, now, r, p))
      ensures forall k' :: k' in old(boxes) && k' != k ==> States()[k'] == old(States())[k']
      ensures d.outline == cell
    {
      var b: Box;
      if k in boxes {
        b := boxes[k];
        b.SetPosition(cell.left, cell.top);
        b.SetSize(cell.width, cell.height);
      } else {
        b := new Box(cell.left, cell.top, cell.width, cell.height);
        boxes := boxes[k := b];
      }
      d := b.Draw(now, r, p);
    }

    /**
      One step of the inner loop: draw the cell (`i`, `j`), whose slot is
      `base + j` with `base` the first slot of column `i`, and append its
      drawing to the frame's `drawings` (`before` and `expected` being the
      slot states when the frame began and the states the frame leaves).
    */
    method DrawSlot(i: nat, j: nat, l: Layout, width: real, height: real, now: int, samples: seq<real>, p: Params,
                    ghost base: nat, ghost before: map<nat, BoxState>, ghost expected: seq<BoxState>,
                    drawings: seq<BoxDrawing>)
      returns (drawings': seq<BoxDrawing>)
      requires Valid() && p.animationLength > 0.0
      requires i < p.cols && j < p.rows && |samples| == p.cols * p.rows
      requires base == p.rows * i && |drawings| == base + j < |samples|
      requires expected == FrameStates(before, l, width, height, now, samples, p)
      requires VisitedUpTo(before, States(), expected, |drawings|)
      requires OutlinesDrawn(drawings, expected)
      modifies this, boxes.Values
      ensures Valid()
      ensures forall k :: k in old(boxes) ==> k in boxes && boxes[k] == old(boxes)[k]
      ensures forall k :: k in boxes && k !in old(boxes) ==> fresh(boxes[k])
      ensures |drawings'| == |drawings| + 1
      ensures VisitedUpTo(before, States(), expected, |drawings'|)
      ensures OutlinesDrawn(drawings', expected)
    {
      var k := CellIndex(p.cols, p.rows, i, j);
      assert k == base + j;
      ghost var mid := States();
      NextSlotUntouched(before, mid, expected, k);
      ghost var prior := PriorTimer(before, k);
      var d := DrawCell(k, CellRect(l, width, height, p, i, j), prior, now, samples[k], p);
      FrameStateOfCell(before, l, width, height, now, samples, p, i, j);
      VisitNext(before, mid, States(), expected, k);
      OutlinesAppend(drawings, d, expected);
      drawings' := drawings + [d];
    }

    /** The inner loop of a frame: the cells of column `i`, top to bottom. */
    method DrawColumn(i: nat, l: Layout, width: real, height: real, now: int, samples: seq<real>, p: Params,
                      ghost before: map<nat, BoxState>, ghost expected: seq<BoxState>, drawings: seq<BoxDrawing>)
      returns (drawings': seq<BoxDrawing>)
      requires Valid() && p.animationLength > 0.0
      requires i < p.cols && p.rows > 0 && |samples| == p.cols * p.rows
      requires |drawings| == p.rows * i && p.rows * i + p.rows <= |samples|
      requires expected == FrameStates(before, l, width, height, now, samples, p)
      requires VisitedUpTo(before, States(), expected, |drawings|)
      requires OutlinesDrawn(drawings, expected)
      modifies this, boxes.Values
      ensures Valid()
      ensures forall k :: k in old(boxes) ==> k in boxes && boxes[k] == old(boxes)[k]
      ensures forall k :: k in boxes && k !in old(boxes) ==> fresh(boxes[k])
      ensures |drawings'| == p.rows * i + p.rows
      ensures VisitedUpTo(before, States(), expected, |drawings'|)
      ensures OutlinesDrawn(drawings', expected)
    {
      ghost var base := |drawings|;
      drawings' := drawings;
      for j: nat := 0 to p.rows
        invariant Valid()
        invariant |drawings'| == base + j <= |samples|
        invariant forall k :: k in old(boxes) ==> k in boxes && boxes[k] == old(boxes)[k]
        invariant forall k :: k in boxes && k !in old(boxes) ==> fresh(boxes[k])
        invariant VisitedUpTo(before, States(), expected, |drawings'|)
        invariant OutlinesDrawn(drawings', expected)
      {
        drawings' := DrawSlot(i, j, l, width, height, now, samples, p, base, before, expected, drawings');
      }
    }

    /**
      One frame of the sketch on a `width` x `height` canvas at time `now`;
      `samples[k]` is what `Math.random()` returns if slot `k` runs its start
      trial. Every cell's box gets the cell's rectangle and one draw step of
      its own timer: reused boxes keep their animation across a resize, new
      boxes start inactive, and slots the grid no longer reaches stay as
      they were.
    */
    method Frame(width: real, height: real, now: int, samples: seq<real>, p: Params)
      returns (drawings: seq<BoxDrawing>)
      requires Valid()
      requires p.cols > 0 && p.rows > 0 && p.animationLength > 0.0
      requires |samples| == p.cols * p.rows
      modifies this, boxes.Values
      ensures Valid()
      ensures forall k: nat :: k in boxes <==> k in old(boxes) || k < p.cols * p.rows
      ensures forall k :: k in old(boxes) ==> boxes[k] == old(boxes)[k]
      ensures forall k :: k in boxes && k !in old(boxes) ==> fresh(boxes[k])
      ensures forall k :: k in old(boxes) && k >= p.cols * p.rows ==> States()[k] == old(States())[k]
      ensures forall i: nat, j: nat :: i < p.cols && j < p.rows ==>
                var k := CellIndex(p.cols, p.rows, i, j);
                States()[k] == BoxState(CellRect(GridLayout(width, height, p), width, height, p, i, j),
                                        BoxTimerStep(PriorTimer(old(States()), k), now, samples[k], p))
      ensures |drawings| == p.cols * p.rows
      ensures forall k :: 0 <= k < |drawings| ==> drawings[k].outline == States()[k].outline
    {
      var l := GridLayout(width, height, p);
      ghost var before := States();
      ghost var expected := FrameStates(before, l, width, height, now, samples, p);
      drawings := [];
      for i: nat := 0 to p.cols
        invariant Valid()
        invariant |drawings| == p.rows * i <= |samples|
        invariant forall k :: k in old(boxes) ==> k in boxes && boxes[k] == old(boxes)[k]
        invariant forall k :: k in boxes && k !in old(boxes) ==> fresh(boxes[k])
        invariant VisitedUpTo(before, States(), expected, |drawings|)
        invariant OutlinesDrawn(drawings, expected)
      {
        NextColumn(p.rows, p.cols, i);
        drawings := DrawColumn(i, l, width, height, now, samples, p, before, expected, drawings);
      }
      assert p.rows * p.cols == p.cols * p.rows;
      FrameComplete(before, States(), l, width, height, now, samples, p, drawings);
    }
  }
}
