/**
 * One DMX channel: its buffer slot and its fade, the arithmetic of a fade, and what a history of
 * actions says the slot must show. Times are steady-clock nanoseconds, durations milliseconds.
 */
module FadeModel {
  import opened ArtNetBytes

  const SLOTS := 513
  const NANOS_PER_MILLI := 1_000_000

  datatype Fade = Fade(active: bool, start: byte, target: byte, startTime: int, duration: nat)

  const NO_FADE := Fade(false, 0, 0, 0, 0)

  /** A channel's slot in dmx_data and its entry in fades. */
  datatype AnyCell = Cell(value: byte, fade: Fade)

  type Cell = c: AnyCell | c.fade.active ==> c.fade.duration > 0 witness Cell(0, Fade(false, 0, 0, 0, 0))

  function Clamp(v: int): byte {
    if v < 0 then 0 else if v > 255 then 255 else v
  }

  function Elapsed(f: Fade, now: int): int {
    CDiv(now - f.startTime, NANOS_PER_MILLI)
  }

  /** The interpolated level before clamping, in exact arithmetic, truncated toward zero. */
  function Level(f: Fade, elapsed: int): int
    requires f.duration > 0
  {
    f.start + CDiv(elapsed * (f.target - f.start), f.duration)
  }

  /** The value update_fades gives an active channel. */
  function Interpolate(f: Fade, now: int): byte
    requires f.duration > 0
  {
    if Elapsed(f, now) >= f.duration then f.target else Clamp(Level(f, Elapsed(f, now)))
  }

  // ----- arithmetic of a fade

  lemma MulMonotone(d: nat, a: int, b: int)
    requires a <= b
    ensures d * a <= d * b
  {
  }

  lemma ShareBounds(elapsed: nat, span: nat, duration: nat)
    requires elapsed < duration
    ensures 0 <= elapsed * span / duration <= span
    ensures span > 0 ==> elapsed * span / duration < span
  {
    if span > 0 {
      var q := elapsed * span / duration;
      assert elapsed * span < duration * span;
      assert duration * q <= elapsed * span;
      if q >= span {
        MulMonotone(duration, span, q);
      }
    }
  }

  lemma ShareGrows(e1: nat, e2: nat, span: nat, duration: nat)
    requires e1 <= e2 && duration > 0
    ensures e1 * span / duration <= e2 * span / duration
  {
    var q1, q2 := e1 * span / duration, e2 * span / duration;
    assert e1 * span <= e2 * span;
    assert duration * q1 <= e1 * span && e2 * span < duration * (q2 + 1);
    if q1 > q2 {
      MulMonotone(duration, q2 + 1, q1);
    }
  }

  lemma NegatedProduct(a: int, b: int)
    ensures a * -b == -(a * b)
  {
  }

  /** For 0 <= elapsed the fade's offset from its start is its share of the span, in the fade's direction. */
  lemma LevelAsShare(f: Fade, elapsed: nat)
    requires f.duration > 0
    ensures f.target >= f.start ==> Level(f, elapsed) == f.start + elapsed * (f.target - f.start) / f.duration
    ensures f.target < f.start ==> Level(f, elapsed) == f.start - elapsed * (f.start - f.target) / f.duration
  {
    if f.target < f.start {
      NegatedProduct(elapsed, f.start - f.target);
    }
  }

  predicate Between(a: int, x: int, b: int) {
    a <= x <= b || b <= x <= a
  }

  /**
   * Until its duration is over a fade stays between its end points, never reaches its target
   * unless it started there, and never needs the clamp.
   */
  lemma FadeInProgress(f: Fade, elapsed: nat)
    requires f.duration > 0 && elapsed < f.duration
    ensures Between(f.start, Level(f, elapsed), f.target) && Clamp(Level(f, elapsed)) == Level(f, elapsed)
    ensures f.start != f.target ==> Level(f, elapsed) != f.target
  {
    LevelAsShare(f, elapsed);
    if f.target >= f.start {
      ShareBounds(elapsed, f.target - f.start, f.duration);
    } else {
      ShareBounds(elapsed, f.start - f.target, f.duration);
    }
  }

  lemma ElapsedGrows(f: Fade, t1: int, t2: int)
    requires f.startTime <= t1 <= t2
    ensures 0 <= Elapsed(f, t1) <= Elapsed(f, t2)
  {
  }

  /** Later updates are never farther from the target, and the target, once reached, is kept. */
  lemma FadeMonotone(f: Fade, t1: int, t2: int)
    requires f.duration > 0 && f.startTime <= t1 <= t2
    ensures Between(f.start, Interpolate(f, t1), f.target)
    ensures Between(Interpolate(f, t1), Interpolate(f, t2), f.target)
    ensures Elapsed(f, t1) >= f.duration ==> Interpolate(f, t2) == f.target
    ensures Interpolate(f, t1) == f.target <==> Elapsed(f, t1) >= f.duration || f.start == f.target
  {
    ElapsedGrows(f, t1, t2);
    var e1, e2 := Elapsed(f, t1), Elapsed(f, t2);
    if e1 < f.duration {
      FadeInProgress(f, e1);
    }
    if e2 < f.duration {
      FadeInProgress(f, e2);
      LevelAsShare(f, e1);
      LevelAsShare(f, e2);
      if f.target >= f.start {
        ShareGrows(e1, e2, f.target - f.start, f.duration);
      } else {
        ShareGrows(e1, e2, f.start - f.target, f.duration);
      }
    }
  }

  /**
   * The value of a fade in closed form. r nanoseconds and e whole milliseconds after its start it
   * has covered e / duration of its way, rounded toward its start; from the duration on it is at
   * its target.
   */
  lemma FadeValue(f: Fade, e: nat, r: nat)
    requires f.duration > 0 && r < 1_000_000
    ensures Interpolate(f, f.startTime + 1_000_000 * e + r) ==
      if e >= f.duration then f.target
      else if f.target >= f.start then f.start + e * (f.target - f.start) / f.duration
      else f.start - e * (f.start - f.target) / f.duration
  {
    assert (1_000_000 * e + r) / 1_000_000 == e;
    assert Elapsed(f, f.startTime + 1_000_000 * e + r) == e;
    hide Elapsed, Level;
    if e < f.duration {
      FadeInProgress(f, e);
      LevelAsShare(f, e);
    }
  }

  // ----- actions on one channel

  /** What can happen to a channel: a level is set, a fade is begun, fades are advanced to a time. */
  datatype AnyAct = Set(level: byte) | Ramp(target: byte, duration: nat, now: int) | Tick(now: int)

  type Act = a: AnyAct | a.Ramp? ==> a.duration > 0 witness Set(0)

  function Perform(c: Cell, a: Act): Cell {
    match a
    case Set(level) => Cell(level, c.fade.(active := false))
    case Ramp(target, duration, now) => c.(fade := Fade(true, c.value, target, now, duration))
    case Tick(now) =>
      if c.fade.active then
        Cell(Interpolate(c.fade, now),
             if Elapsed(c.fade, now) >= c.fade.duration then c.fade.(active := false) else c.fade)
      else c
  }

  const NEW_CELL: Cell := Cell(0, NO_FADE)

  // ----- what a history means

  /** The channel's level at time t: constant since it was last set, or on its latest fade. */
  function ValueAt(h: seq<Act>, t: int): byte
    decreases |h|, 1
  {
    if h == [] then 0
    else
      var (rest, last) := (h[..|h| - 1], h[|h| - 1]);
      match last
      case Set(level) => level
      case Ramp(target, duration, now) => Interpolate(Fade(true, Shown(rest), target, now, duration), t)
      case Tick(_) => ValueAt(rest, t)
  }

  /** What the channel's slot shows: its level when it was last set or advanced. */
  function Shown(h: seq<Act>): byte
    decreases |h|, 0
  {
    if h == [] then 0
    else
      var (rest, last) := (h[..|h| - 1], h[|h| - 1]);
      match last
      case Set(level) => level
      case Ramp(_, _, _) => Shown(rest)
      case Tick(now) => ValueAt(rest, now)
  }

  /** The cell shows the history, and its fade, if active, is the one the history is on. */
  ghost predicate Reflects(c: Cell, h: seq<Act>, latest: int)
  {
    c.value == Shown(h) &&
    if c.fade.active
    then c.fade.startTime <= latest && forall t :: ValueAt(h, t) == Interpolate(c.fade, t)
    else forall t :: t >= latest ==> ValueAt(h, t) == c.value
  }

  /** The time of an action, if it has one, is not before latest. */
  predicate NotBefore(a: Act, latest: int) {
    !a.Set? ==> a.now >= latest
  }

  function Later(a: Act, latest: int): int {
    if a.Set? then latest else a.now
  }

  /** One action keeps the cell in step with its history; dropping a finished fade loses nothing. */
  lemma PerformReflects(c: Cell, h: seq<Act>, latest: int, a: Act)
    requires Reflects(c, h, latest) && NotBefore(a, latest)
    ensures Reflects(Perform(c, a), h + [a], Later(a, latest))
  {
    var h' := h + [a];
    assert h'[..|h'| - 1] == h;
    var c' := Perform(c, a);
    hide Interpolate;
    match a {
      case Set(_) =>
      case Ramp(_, _, _) =>
        assert forall t :: ValueAt(h', t) == Interpolate(c'.fade, t);
      case Tick(now) =>
        assert Shown(h') == ValueAt(h, now);
        assert forall t :: ValueAt(h', t) == ValueAt(h, t);
        if c.fade.active && Elapsed(c.fade, now) >= c.fade.duration {
          forall t | t >= now
            ensures ValueAt(h', t) == c'.value
          {
            FadeMonotone(c.fade, now, t);
            FadeMonotone(c.fade, now, now);
          }
        }
    }
  }

  /**
   * One update of a channel, exactly: a fade that is over is dropped at its target, one in
   * progress shows its value and stays, and a channel without a fade is left alone.
   */
  lemma TickExactly(c: Cell, e: nat, r: nat)
    requires r < 1_000_000
    ensures var f := c.fade;
      var c' := Perform(c, Tick(f.startTime + 1_000_000 * e + r));
      if !f.active then c' == c
      else if e >= f.duration then c' == Cell(f.target, f.(active := false))
      else (
        c'.fade == f &&
        c'.value ==
          if f.target >= f.start then f.start + e * (f.target - f.start) / f.duration
          else f.start - e * (f.start - f.target) / f.duration)
  {
    if c.fade.active {
      FadeValue(c.fade, e, r);
      assert (1_000_000 * e + r) / 1_000_000 == e;
    }
    hide Interpolate;
  }

  /** Setting a level drops the fade; beginning a fade keeps the value shown and starts from it. */
  lemma SetAndRampExactly(c: Cell, level: byte, target: byte, millis: nat, now: int)
    requires millis > 0
    ensures Perform(c, Set(level)) == Cell(level, c.fade.(active := false))
    ensures Perform(c, Ramp(target, millis, now)) == Cell(c.value, Fade(true, c.value, target, now, millis))
  {
  }
}
