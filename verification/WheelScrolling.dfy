// Mouse wheel events become a backlog of lines, and every frame takes whole
// lines from it. Numbers are ideal reals.
module WheelScrolling {
  import opened Options

  // The units of a wheel event; any other unit is taken as pixels without gain.
  datatype Mode = Pixel | Line | Page | OtherMode

  datatype Wheel = Wheel(pendingLines: real, velocity: real, lastEventTime: real, direction: int)

  const INITIAL: Wheel := Wheel(0.0, 0.0, -1.0, 0)

  function Abs(x: real): real { if x < 0.0 then -x else x }
  function Max(x: real, y: real): real { if x < y then y else x }
  function Min(x: real, y: real): real { if x < y then x else y }

  // The integer next to `x` towards zero.
  function Truncate(x: real): int { if x < 0.0 then -(-x).Floor else x.Floor }

  function WheelGain(speedPixelsPerMs: real): real {
    var speed := Abs(speedPixelsPerMs);
    if speed <= 0.5 then 0.4
    else if speed <= 1.5 then 0.4 + (speed - 0.5) * 1.6
    else if speed >= 4.0 then 8.0
    else 2.0 + (speed - 1.5) / 2.5 * 6.0
  }

  // Faster scrolling never scrolls less, the gain stays within its range, and it
  // has no jumps: it grows at most 2.4 times as much as the speed.
  lemma GainIsSmooth(slow: real, fast: real)
    requires Abs(slow) <= Abs(fast)
    ensures 0.4 <= WheelGain(slow) <= WheelGain(fast) <= 8.0
    ensures WheelGain(fast) - WheelGain(slow) <= 2.4 * (Abs(fast) - Abs(slow))
    ensures WheelGain(-slow) == WheelGain(slow)
  {
  }

  // ----- one wheel event -----

  function DeltaPixels(deltaY: real, mode: Mode, cellHeight: real, rows: real): real {
    if mode == Line then deltaY * Max(1.0, cellHeight)
    else if mode == Page then deltaY * Max(1.0, cellHeight) * Max(1.0, rows)
    else deltaY
  }

  function Direction(deltaPixels: real): int { if deltaPixels < 0.0 then -1 else 1 }

  // Time since the last event, if there was one.
  function EventGap(w: Wheel, eventTime: real): real {
    if w.lastEventTime >= 0.0 then eventTime - w.lastEventTime else 0.0
  }

  function Elapsed(w: Wheel, eventTime: real): (e: real)
    ensures e >= 1.0
  {
    if w.lastEventTime >= 0.0 then Max(1.0, Min(100.0, EventGap(w, eventTime))) else 16.0
  }

  // A long pause forgets everything but the time of the last event.
  function Rested(w: Wheel, eventTime: real): Wheel {
    if EventGap(w, eventTime) > 80.0 then w.(pendingLines := 0.0, velocity := 0.0, direction := 0) else w
  }

  // A turn drops the backlog and starts from the event's own velocity; otherwise
  // the velocity is smoothed.
  function Turned(w: Wheel, direction: int, instantVelocity: real): Wheel {
    if w.direction != 0 && w.direction != direction then w.(pendingLines := 0.0, velocity := instantVelocity)
    else if w.lastEventTime < 0.0 then w.(velocity := instantVelocity)
    else w.(velocity := w.velocity * 0.65 + instantVelocity * 0.35)
  }

  function Moved(w: Wheel, deltaPixels: real, eventTime: real): Wheel {
    var instantVelocity := deltaPixels / Elapsed(w, eventTime);
    Turned(Rested(w, eventTime), Direction(deltaPixels), instantVelocity)
      .(direction := Direction(deltaPixels), lastEventTime := eventTime)
  }

  function Clamp(x: real, bound: real): real { Max(-bound, Min(bound, x)) }

  // Only pixels are scaled by the speed.
  function Gain(mode: Mode, velocity: real): real {
    if mode == Pixel then WheelGain(velocity) else 1.0
  }

  function Grown(w: Wheel, deltaPixels: real, mode: Mode, safeCellHeight: real, safeRows: real): Wheel
    requires safeCellHeight >= 1.0
  {
    w.(pendingLines := Clamp(w.pendingLines + deltaPixels / safeCellHeight * Gain(mode, w.velocity), safeRows * 8.0))
  }

  datatype WheelEvent = WheelEvent(deltaY: real, mode: Mode, cellHeight: real, rows: real, timestamp: Option<real>)

  function EventTime(e: WheelEvent): real {
    if e.timestamp.Some? then e.timestamp.value else 0.0
  }

  function Enqueued(w: Wheel, e: WheelEvent): Wheel {
    if e.deltaY == 0.0 then w
    else
      var deltaPixels := DeltaPixels(e.deltaY, e.mode, e.cellHeight, e.rows);
      Grown(Moved(w, deltaPixels, EventTime(e)), deltaPixels, e.mode, Max(1.0, e.cellHeight), Max(1.0, e.rows))
  }

  // ----- one frame -----

  function MaxSteps(rows: real): (m: int)
    ensures m >= 8
  {
    var most := (Max(1.0, rows) * 1.25).Floor;
    if most < 8 then 8 else most
  }

  // The lines a frame scrolls by.
  function FrameSteps(w: Wheel, rows: real): int {
    if Abs(w.pendingLines) < 1.0 then 0
    else
      var whole := Truncate(w.pendingLines);
      var most := MaxSteps(rows);
      if whole < -most then -most else if whole > most then most else whole
  }

  function AfterFrame(w: Wheel, rows: real): Wheel {
    w.(pendingLines := w.pendingLines - FrameSteps(w, rows) as real)
  }

  // ----- the state object -----

  class WheelState {
    var pendingLines: real
    var velocityPixelsPerMs: real
    var lastEventTime: real
    var direction: int

    ghost function View(): Wheel
      reads this
    {
      Wheel(pendingLines, velocityPixelsPerMs, lastEventTime, direction)
    }

    constructor ()
      ensures View() == INITIAL
    {
      pendingLines, velocityPixelsPerMs, lastEventTime, direction := 0.0, 0.0, -1.0, 0;
    }

    method EnqueueWheel(deltaY: real, deltaMode: Mode, cellHeight: real, rows: real, timestamp: Option<real>)
      modifies this
      ensures View() == Enqueued(old(View()), WheelEvent(deltaY, deltaMode, cellHeight, rows, timestamp))
    {
      if deltaY == 0.0 {
        return;
      }
      var safeCellHeight := Max(1.0, cellHeight);
      var safeRows := Max(1.0, rows);
      var deltaPixels := deltaY;
      if deltaMode == Line {
        deltaPixels := deltaY * safeCellHeight;
      } else if deltaMode == Page {
        deltaPixels := deltaY * safeCellHeight * safeRows;
      }
      assert deltaPixels == DeltaPixels(deltaY, deltaMode, cellHeight, rows);
      var eventTime := if timestamp.Some? then timestamp.value else 0.0;
      TakeVelocity(deltaPixels, eventTime);
      AddLines(deltaPixels, deltaMode, safeCellHeight, safeRows);
    }

    method TakeVelocity(deltaPixels: real, eventTime: real)
      modifies this
      ensures View() == Moved(old(View()), deltaPixels, eventTime)
    {
      var newDirection := if deltaPixels < 0.0 then -1 else 1;
      var eventGap := if lastEventTime >= 0.0 then eventTime - lastEventTime else 0.0;
      if eventGap > 80.0 {
        pendingLines := 0.0;
        velocityPixelsPerMs := 0.0;
        direction := 0;
      }
      assert View() == Rested(old(View()), eventTime);
      var elapsed := if lastEventTime >= 0.0 then Max(1.0, Min(100.0, eventGap)) else 16.0;
      var instantVelocity := deltaPixels / elapsed;
      if direction != 0 && direction != newDirection {
        pendingLines := 0.0;
        velocityPixelsPerMs := instantVelocity;
      } else if lastEventTime < 0.0 {
        velocityPixelsPerMs := instantVelocity;
      } else {
        velocityPixelsPerMs := velocityPixelsPerMs * 0.65 + instantVelocity * 0.35;
      }
      direction := newDirection;
      lastEventTime := eventTime;
    }

    method AddLines(deltaPixels: real, deltaMode: Mode, safeCellHeight: real, safeRows: real)
      requires safeCellHeight >= 1.0 && safeRows >= 1.0
      modifies this`pendingLines
      ensures View() == Grown(old(View()), deltaPixels, deltaMode, safeCellHeight, safeRows)
    {
      var gain := if deltaMode == Pixel then WheelGain(velocityPixelsPerMs) else 1.0;
      pendingLines := pendingLines + deltaPixels / safeCellHeight * gain;
      var maxPendingLines := safeRows * 8.0;
      pendingLines := Max(-maxPendingLines, Min(maxPendingLines, pendingLines));
    }

    method ConsumeWheelFrame(rows: real) returns (steps: int)
      modifies this
      ensures steps == FrameSteps(old(View()), rows)
      ensures View() == AfterFrame(old(View()), rows)
    {
      if Abs(pendingLines) < 1.0 {
        return 0;
      }
      var whole := Truncate(pendingLines);
      var maxSteps := MaxSteps(rows);
      steps := if whole < -maxSteps then -maxSteps else if whole > maxSteps then maxSteps else whole;
      pendingLines := pendingLines - steps as real;
    }
  }

  // ----- any mix of events and frames -----

  datatype Step = Event(event: WheelEvent) | Frame(rows: real)

  function After(w: Wheel, s: Step): Wheel {
    match s
    case Event(event) => Enqueued(w, event)
    case Frame(rows) => AfterFrame(w, rows)
  }

  function Run(steps: seq<Step>): Wheel {
    if steps == [] then INITIAL else After(Run(steps[..|steps| - 1]), steps[|steps| - 1])
  }

  // `x` is zero or has the sign of `direction`.
  predicate Along(x: real, direction: int) {
    x == 0.0 || (x > 0.0 && direction == 1) || (x < 0.0 && direction == -1)
  }

  predicate Consistent(w: Wheel) {
    Along(w.pendingLines, w.direction) && Along(w.velocity, w.direction)
  }

  // The rows of the last event that had any effect.
  function LastRows(steps: seq<Step>): Option<real> {
    if steps == [] then None
    else
      var last := steps[|steps| - 1];
      if last.Event? && last.event.deltaY != 0.0 then Some(last.event.rows) else LastRows(steps[..|steps| - 1])
  }

  function Capacity(rows: Option<real>): real {
    if rows.None? then 0.0 else 8.0 * Max(1.0, rows.value)
  }

  lemma ProductSign(x: real, y: real)
    requires y > 0.0
    ensures x > 0.0 ==> x * y > 0.0 && x / y > 0.0
    ensures x < 0.0 ==> x * y < 0.0 && x / y < 0.0
  {
    assert x / y * y == x;
    if x < 0.0 {
      assert (-x) * y > 0.0;
    }
  }

  lemma DeltaSign(e: WheelEvent)
    ensures var d := DeltaPixels(e.deltaY, e.mode, e.cellHeight, e.rows);
            (e.deltaY > 0.0 ==> d > 0.0) && (e.deltaY < 0.0 ==> d < 0.0)
  {
    ProductSign(e.deltaY, Max(1.0, e.cellHeight));
    ProductSign(e.deltaY * Max(1.0, e.cellHeight), Max(1.0, e.rows));
  }

  lemma MovedKeeps(w: Wheel, deltaPixels: real, eventTime: real)
    requires Consistent(w) && deltaPixels != 0.0
    ensures var v := Moved(w, deltaPixels, eventTime);
            Consistent(v) && v.direction == Direction(deltaPixels)
  {
    ProductSign(deltaPixels, Elapsed(w, eventTime));
  }

  lemma GrownKeeps(w: Wheel, deltaPixels: real, mode: Mode, safeCellHeight: real, safeRows: real)
    requires Consistent(w) && deltaPixels != 0.0 && w.direction == Direction(deltaPixels)
    requires safeCellHeight >= 1.0 && safeRows >= 1.0
    ensures var v := Grown(w, deltaPixels, mode, safeCellHeight, safeRows);
            Consistent(v) && v.direction == w.direction && Abs(v.pendingLines) <= 8.0 * safeRows
  {
    GainIsSmooth(w.velocity, w.velocity);
    ProductSign(deltaPixels, safeCellHeight);
    ProductSign(deltaPixels / safeCellHeight, Gain(mode, w.velocity));
  }

  lemma EventKeeps(w: Wheel, e: WheelEvent)
    requires Consistent(w) && e.deltaY != 0.0
    ensures var v := Enqueued(w, e);
            && Consistent(v) && v.direction == Direction(e.deltaY)
            && Abs(v.pendingLines) <= 8.0 * Max(1.0, e.rows)
  {
    var deltaPixels := DeltaPixels(e.deltaY, e.mode, e.cellHeight, e.rows);
    DeltaSign(e);
    MovedKeeps(w, deltaPixels, EventTime(e));
    GrownKeeps(Moved(w, deltaPixels, EventTime(e)), deltaPixels, e.mode, Max(1.0, e.cellHeight), Max(1.0, e.rows));
  }

  // A frame scrolls the way of the backlog, takes no more than there is, and
  // what it scrolls and leaves add up to what there was.
  lemma FrameConserves(w: Wheel, rows: real)
    ensures var (steps, left) := (FrameSteps(w, rows), AfterFrame(w, rows).pendingLines);
            && steps as real + left == w.pendingLines
            && (w.pendingLines >= 0.0 ==> 0 <= steps <= MaxSteps(rows) && 0.0 <= left)
            && (w.pendingLines <= 0.0 ==> -MaxSteps(rows) <= steps <= 0 && left <= 0.0)
            && (steps == 0 <==> Abs(w.pendingLines) < 1.0)
            && (left == w.pendingLines - Truncate(w.pendingLines) as real ||
                Abs(steps as real) == MaxSteps(rows) as real)
  {
  }

  // Whatever happens, backlog and velocity point the way of the last event, and
  // the backlog is at most eight screens of the rows it had.
  lemma {:induction false} RunKeeps(steps: seq<Step>)
    ensures Consistent(Run(steps))
    ensures Abs(Run(steps).pendingLines) <= Capacity(LastRows(steps))
  {
    if steps == [] {
    } else {
      var (before, last) := (steps[..|steps| - 1], steps[|steps| - 1]);
      RunKeeps(before);
      match last {
        case Event(e) => if e.deltaY != 0.0 { EventKeeps(Run(before), e); }
        case Frame(rows) => FrameConserves(Run(before), rows);
      }
    }
  }

  // ----- how fast the backlog drains -----

  // The lines `n` frames scroll by, and the wheel after them.
  function Frames(w: Wheel, rows: real, n: nat): (int, Wheel) {
    if n == 0 then (0, w)
    else
      var (scrolled, v) := Frames(w, rows, n - 1);
      (scrolled + FrameSteps(v, rows), AfterFrame(v, rows))
  }

  function Whole(w: Wheel): nat {
    Abs(w.pendingLines).Floor
  }

  // Some whole lines `whole` of a backlog are left when `done` of them were
  // scrolled.
  lemma WholeLeft(p: real, whole: int, done: int)
    requires p >= 0.0 && whole == p.Floor && 0 <= done <= whole
    ensures (p - done as real).Floor == whole - done
    ensures Truncate(-(p - done as real)) == done - whole
  {
  }

  // If `done` lines were scrolled of a backlog `p`, as many as `budget` allowed,
  // one more frame scrolls as many as one more frame's budget allows.
  lemma OneMoreFrame(w: Wheel, rows: real, p: real, done: int, budget: nat)
    requires w.pendingLines == p - done as real
    requires var whole := Abs(p).Floor; Scrolled(p, done, if whole <= budget then whole else budget)
    ensures var (whole, more) := (Abs(p).Floor, budget + MaxSteps(rows));
            Scrolled(p, done + FrameSteps(w, rows), if whole <= more then whole else more)
  {
    var whole := Abs(p).Floor;
    WholeLeft(Abs(p), whole, if p < 0.0 then -done else done);
  }

  predicate Scrolled(p: real, scrolled: int, lines: nat) {
    if p < 0.0 then scrolled == 0 - lines else scrolled == lines
  }

  lemma OneMoreTime(n: nat, m: int)
    requires n > 0
    ensures (n - 1) * m + m == n * m
  {
  }

  // `n` frames scroll by all whole lines or `n` times as much as one frame may.
  lemma {:induction false} FramesScroll(w: Wheel, rows: real, n: nat)
    ensures var (scrolled, v) := Frames(w, rows, n);
            && scrolled as real + v.pendingLines == w.pendingLines
            && Scrolled(w.pendingLines, scrolled,
                        if Whole(w) <= n * MaxSteps(rows) then Whole(w) else n * MaxSteps(rows))
  {
    if n == 0 {
    } else {
      FramesScroll(w, rows, n - 1);
      var (scrolled, v) := Frames(w, rows, n - 1);
      OneMoreFrame(v, rows, w.pendingLines, scrolled, (n - 1) * MaxSteps(rows));
      OneMoreTime(n, MaxSteps(rows));
    }
  }

  // The backlog is below one line after `n` frames exactly if its whole lines
  // fit into `n` full frames; all of them have been scrolled by then.
  lemma DrainedExactly(w: Wheel, rows: real, n: nat)
    ensures Abs(Frames(w, rows, n).1.pendingLines) < 1.0 <==> Whole(w) <= n * MaxSteps(rows)
    ensures Whole(w) <= n * MaxSteps(rows) ==> Frames(w, rows, n).0 == Truncate(w.pendingLines)
  {
    FramesScroll(w, rows, n);
  }

  // Seven frames scroll by all whole lines of `w` and leave less than one.
  predicate GoneInSeven(w: Wheel, rows: real) {
    var (scrolled, v) := Frames(w, rows, 7);
    scrolled == Truncate(w.pendingLines) && Abs(v.pendingLines) < 1.0
  }

  // So they do for every backlog built for `rows` rows.
  ghost predicate DrainsInSeven(rows: real) {
    forall steps :: LastRows(steps) == Some(rows) ==> GoneInSeven(Run(steps), rows)
  }

  // A single event can fill the backlog.
  lemma FullBacklog(rows: real) returns (steps: seq<Step>)
    ensures LastRows(steps) == Some(rows) && Run(steps).pendingLines == 8.0 * Max(1.0, rows)
  {
    var e := WheelEvent(8.0 * Max(1.0, rows), Line, 1.0, rows, None);
    steps := [Event(e)];
    assert steps[..0] == [];
    assert Run(steps) == Enqueued(INITIAL, e);
  }

  lemma SevenFrames(rows: real)
    ensures DrainsInSeven(rows) <==> (8.0 * Max(1.0, rows)).Floor <= 7 * MaxSteps(rows)
  {
    if (8.0 * Max(1.0, rows)).Floor <= 7 * MaxSteps(rows) {
      forall steps | LastRows(steps) == Some(rows)
        ensures GoneInSeven(Run(steps), rows)
      {
        RunKeeps(steps);
        DrainedExactly(Run(steps), rows, 7);
      }
    } else {
      var steps := FullBacklog(rows);
      DrainedExactly(Run(steps), rows, 7);
      assert !GoneInSeven(Run(steps), rows);
    }
  }

  // Seven frames are enough for every whole number of rows, and six are not;
  // for a fraction of a row seven may be too few.
  lemma WholeRowsDrainInSeven(rows: nat)
    requires rows >= 1
    ensures DrainsInSeven(rows as real)
  {
    SevenFrames(rows as real);
  }

  lemma SevenIsTight() returns (steps: seq<Step>)
    ensures LastRows(steps) == Some(7.0) && Abs(Frames(Run(steps), 7.0, 6).1.pendingLines) >= 1.0
  {
    steps := FullBacklog(7.0);
    DrainedExactly(Run(steps), 7.0, 6);
  }

  lemma FractionalRowsMayNeedEight()
    ensures !DrainsInSeven(7.19)
  {
    SevenFrames(7.19);
  }
}
