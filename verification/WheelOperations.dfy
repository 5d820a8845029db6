// What single wheel events and frames do, written out in lines, pixels and
// milliseconds.
module WheelOperations {
  import opened Options
  import opened WheelScrolling

  function AtLeastOne(x: real): real { if x > 1.0 then x else 1.0 }

  // The event comes more than 80 milliseconds after the one before.
  ghost predicate AfterPause(w: Wheel, time: real) {
    w.lastEventTime >= 0.0 && time > w.lastEventTime + 80.0
  }

  // It goes the other way than the one before.
  ghost predicate Turns(w: Wheel, e: WheelEvent) {
    w.direction != 0 && w.direction != if e.deltaY > 0.0 then 1 else -1
  }

  // ----- the backlog -----

  // The lines one event stands for: as many as it says in lines, so many screens
  // in pages, and otherwise its pixels by the height of a cell, where pixels
  // proper count 0.4 to 8 times.
  ghost function LinesOf(e: WheelEvent, speed: real): real {
    match e.mode
    case Line => e.deltaY
    case Page => e.deltaY * AtLeastOne(e.rows)
    case Pixel => e.deltaY / AtLeastOne(e.cellHeight) * WheelGain(speed)
    case OtherMode => e.deltaY / AtLeastOne(e.cellHeight)
  }

  lemma Cancels(x: real, y: real)
    requires y >= 1.0
    ensures x * y / y == x
  {
  }

  lemma UnitsScale(e: WheelEvent, speed: real)
    ensures DeltaPixels(e.deltaY, e.mode, e.cellHeight, e.rows) / AtLeastOne(e.cellHeight) * Gain(e.mode, speed)
            == LinesOf(e, speed)
  {
    var (cell, rows) := (AtLeastOne(e.cellHeight), AtLeastOne(e.rows));
    match e.mode
    case Line => Cancels(e.deltaY, cell);
    case Page =>
      Cancels(e.deltaY * rows, cell);
      Swap(e.deltaY, cell, rows);
    case Pixel =>
    case OtherMode =>
  }

  lemma Swap(x: real, y: real, z: real)
    ensures x * y * z == x * z * y
  {
  }

  lemma SignOfPixels(w: Wheel, e: WheelEvent)
    requires e.deltaY != 0.0
    ensures var direction := Direction(DeltaPixels(e.deltaY, e.mode, e.cellHeight, e.rows));
            && direction == (if e.deltaY > 0.0 then 1 else -1)
            && (Turns(w, e) <==> w.direction != 0 && w.direction != direction)
  {
    DeltaSign(e);
  }

  lemma BacklogBefore(w: Wheel, e: WheelEvent, pixels: real)
    requires e.deltaY != 0.0 && pixels == DeltaPixels(e.deltaY, e.mode, e.cellHeight, e.rows)
    ensures var v := Moved(w, pixels, EventTime(e));
            && v.pendingLines == (if AfterPause(w, EventTime(e)) || Turns(w, e) then 0.0 else w.pendingLines)
            && v.direction == (if e.deltaY > 0.0 then 1 else -1) && v.lastEventTime == EventTime(e)
  {
    SignOfPixels(w, e);
  }

  lemma Added(v: Wheel, e: WheelEvent, pixels: real)
    requires pixels == DeltaPixels(e.deltaY, e.mode, e.cellHeight, e.rows)
    ensures var (wanted, most) := (v.pendingLines + LinesOf(e, v.velocity), 8.0 * AtLeastOne(e.rows));
            Grown(v, pixels, e.mode, Max(1.0, e.cellHeight), Max(1.0, e.rows)) ==
            v.(pendingLines := if wanted > most then most else if wanted < -most then -most else wanted)
  {
    UnitsScale(e, v.velocity);
    assert Max(1.0, e.cellHeight) == AtLeastOne(e.cellHeight);
  }

  // An event adds its lines to the backlog, or to nothing after a pause or on a
  // turn, up to eight screens either way.
  lemma BacklogAfterEvent(w: Wheel, e: WheelEvent)
    requires e.deltaY != 0.0
    ensures var v := Enqueued(w, e);
            var wanted := (if AfterPause(w, EventTime(e)) || Turns(w, e) then 0.0 else w.pendingLines)
                          + LinesOf(e, v.velocity);
            var most := 8.0 * AtLeastOne(e.rows);
            && v.pendingLines == (if wanted > most then most else if wanted < -most then -most else wanted)
            && v.direction == (if e.deltaY > 0.0 then 1 else -1) && v.lastEventTime == EventTime(e)
  {
    var pixels := DeltaPixels(e.deltaY, e.mode, e.cellHeight, e.rows);
    BacklogBefore(w, e, pixels);
    Added(Moved(w, pixels, EventTime(e)), e, pixels);
  }

  // An event without a delta does nothing, and one without a time has the time 0.
  lemma EmptyEvent(w: Wheel, e: WheelEvent)
    ensures e.deltaY == 0.0 ==> Enqueued(w, e) == w
    ensures e.timestamp == None ==> Enqueued(w, e) == Enqueued(w, e.(timestamp := Some(0.0)))
  {
  }

  // ----- the velocity -----

  // The pixels of an event.
  ghost function PixelsOf(e: WheelEvent): real {
    match e.mode
    case Line => e.deltaY * AtLeastOne(e.cellHeight)
    case Page => e.deltaY * (AtLeastOne(e.cellHeight) * AtLeastOne(e.rows))
    case _ => e.deltaY
  }

  lemma PixelsMeaning(e: WheelEvent)
    ensures DeltaPixels(e.deltaY, e.mode, e.cellHeight, e.rows) == PixelsOf(e)
  {
    ProductGroups(e.deltaY, AtLeastOne(e.cellHeight), AtLeastOne(e.rows));
  }

  lemma ProductGroups(x: real, y: real, z: real)
    ensures x * y * z == x * (y * z)
  {
  }

  // The first event is taken to have lasted 16 milliseconds, and any other as
  // long as it is since the one before, within 1 and 100.
  ghost function MillisecondsOf(w: Wheel, time: real): (d: real)
    ensures 1.0 <= d <= 100.0
  {
    var gap := time - w.lastEventTime;
    if w.lastEventTime < 0.0 then 16.0 else if gap < 1.0 then 1.0 else if gap > 100.0 then 100.0 else gap
  }

  // The velocity is the event's own at first and on a turn. Otherwise 35 parts in
  // a hundred of it go into the velocity so far, which is zero after a pause.
  lemma VelocityAfterEvent(w: Wheel, e: WheelEvent)
    requires e.deltaY != 0.0
    ensures var (velocity, own) := (Enqueued(w, e).velocity, PixelsOf(e) / MillisecondsOf(w, EventTime(e)));
            && (w.lastEventTime < 0.0 ==> velocity == own)
            && (w.lastEventTime >= 0.0 && AfterPause(w, EventTime(e)) ==> 100.0 * velocity == 35.0 * own)
            && (w.lastEventTime >= 0.0 && !AfterPause(w, EventTime(e)) && Turns(w, e) ==> velocity == own)
            && (w.lastEventTime >= 0.0 && !AfterPause(w, EventTime(e)) && !Turns(w, e) ==>
                  100.0 * velocity == 65.0 * w.velocity + 35.0 * own)
  {
    var pixels := DeltaPixels(e.deltaY, e.mode, e.cellHeight, e.rows);
    SignOfPixels(w, e);
    PixelsMeaning(e);
    assert Elapsed(w, EventTime(e)) == MillisecondsOf(w, EventTime(e));
    SameVelocity(w, e, pixels);
  }

  lemma SameVelocity(w: Wheel, e: WheelEvent, pixels: real)
    requires e.deltaY != 0.0 && pixels == DeltaPixels(e.deltaY, e.mode, e.cellHeight, e.rows)
    ensures Enqueued(w, e).velocity == Moved(w, pixels, EventTime(e)).velocity
  {
  }

  // Between its corners at 0.5, 1.5 and 4 pixels per millisecond the gain is
  // straight; it goes from 0.4 over 2 to 8, and is level outside.
  lemma GainCorners(slow: real, fast: real)
    requires 0.0 <= slow <= fast
    ensures WheelGain(0.5) == 0.4 && WheelGain(1.5) == 2.0 && WheelGain(4.0) == 8.0
    ensures fast <= 0.5 || 4.0 <= slow ==> WheelGain(fast) == WheelGain(slow)
    ensures 0.5 <= slow && fast <= 1.5 ==> WheelGain(fast) - WheelGain(slow) == 1.6 * (fast - slow)
    ensures 1.5 <= slow && fast <= 4.0 ==> WheelGain(fast) - WheelGain(slow) == 2.4 * (fast - slow)
  {
  }

  // ----- a frame -----

  // A frame takes at least 8 lines, and a screen and a quarter if that is more.
  lemma MostSteps(rows: real)
    ensures var most := MaxSteps(rows);
            && 8 <= most && most as real + 1.0 > 1.25 * AtLeastOne(rows)
            && (most == 8 || most as real <= 1.25 * AtLeastOne(rows))
  {
  }

  // A frame scrolls the way of the backlog. It leaves less than a line, or it
  // took as much as it may and left the rest.
  lemma FrameTakes(w: Wheel, rows: real)
    ensures var (steps, left, most) := (FrameSteps(w, rows), AfterFrame(w, rows).pendingLines, MaxSteps(rows));
            && left == w.pendingLines - steps as real
            && AfterFrame(w, rows) == w.(pendingLines := left)
            && (w.pendingLines >= 0.0 ==> 0 <= steps && 0.0 <= left && (left < 1.0 || steps == most))
            && (w.pendingLines <= 0.0 ==> steps <= 0 && left <= 0.0 && (left > -1.0 || steps == -most))
            && -most <= steps <= most
  {
    FrameConserves(w, rows);
  }
}
