/** The frame-by-frame animation both scrollers share: elapsed time is
    clamped to one scroll period, eased, and each axis is interpolated from
    the start position to the destination and written to the container. */
module Animation {

  /** `SCROLL_TIME`, in milliseconds. */
  const ScrollTime: real := 468.0

  /** The animation context: where the container started, where it is going,
      and the clock reading when the animation began. */
  datatype Context = Context(startX: real, startY: real, x: real, y: real, startTime: real)

  /** A scroll position, `scrollLeft`/`scrollTop` or the window's
      `scrollX`/`scrollY`. */
  datatype Position = Position(left: real, top: real)

  /** `(time - startTime) / SCROLL_TIME`, lowered to 1 when it is higher. */
  function Elapsed(ctx: Context, now: real): (k: real)
    ensures k <= 1.0
    ensures now - ctx.startTime >= ScrollTime ==> k == 1.0
    ensures now - ctx.startTime <= ScrollTime ==> k * ScrollTime == now - ctx.startTime
    ensures ctx.startTime <= now ==> 0.0 <= k
  {
    var elapsed := (now - ctx.startTime) / ScrollTime;
    if elapsed > 1.0 then 1.0 else elapsed
  }

  /** `start + (target - start) * value` */
  function Lerp(start: real, target: real, value: real): real {
    start + (target - start) * value
  }

  /** Interpolation reaches the target at 1 and stays at the start at 0. */
  lemma LerpEnds(start: real, target: real)
    ensures Lerp(start, target, 1.0) == target
    ensures Lerp(start, target, 0.0) == start
  {
  }

  /** For a value between 0 and 1 the interpolated position lies between
      the start and the target. */
  lemma LerpBetween(start: real, target: real, value: real)
    requires 0.0 <= value <= 1.0
    ensures start <= target ==> start <= Lerp(start, target, value) <= target
    ensures target <= start ==> target <= Lerp(start, target, value) <= start
  {
    var d := target - start;
    if d >= 0.0 {
      MulNonNegative(d, value);
      MulNonNegative(d, 1.0 - value);
    } else {
      MulNonNegative(-d, value);
      MulNonNegative(-d, 1.0 - value);
    }
    assert d * (1.0 - value) == d - d * value;
  }

  lemma MulNonNegative(a: real, b: real)
    requires 0.0 <= a && 0.0 <= b
    ensures 0.0 <= a * b
  {
  }

  /** The position one step writes at clock reading `now`. */
  function Frame(ctx: Context, ease: real -> real, now: real): Position {
    var value := ease(Elapsed(ctx, now));
    Position(Lerp(ctx.startX, ctx.x, value), Lerp(ctx.startY, ctx.y, value))
  }

  /** The written position is the destination on both axes. */
  predicate Arrived(ctx: Context, p: Position) {
    p.left == ctx.x && p.top == ctx.y
  }

  /** Once a full scroll period has passed, a step writes the destination
      (with an easing that maps 1 to 1), so no further frame is requested. */
  lemma ArrivesAfterScrollTime(ctx: Context, ease: real -> real, now: real)
    requires ease(1.0) == 1.0
    requires now - ctx.startTime >= ScrollTime
    ensures Arrived(ctx, Frame(ctx, ease, now))
  {
    LerpEnds(ctx.startX, ctx.x);
    LerpEnds(ctx.startY, ctx.y);
  }

  /** With an easing that stays inside [0, 1] on [0, 1], every frame taken
      after the start time lies between the start and the destination on
      each axis. */
  lemma FrameBetween(ctx: Context, ease: real -> real, now: real)
    requires forall k :: 0.0 <= k <= 1.0 ==> 0.0 <= ease(k) <= 1.0
    requires ctx.startTime <= now
    ensures var p := Frame(ctx, ease, now);
      (ctx.startX <= ctx.x ==> ctx.startX <= p.left <= ctx.x) &&
      (ctx.x <= ctx.startX ==> ctx.x <= p.left <= ctx.startX) &&
      (ctx.startY <= ctx.y ==> ctx.startY <= p.top <= ctx.y) &&
      (ctx.y <= ctx.startY ==> ctx.y <= p.top <= ctx.startY)
  {
    var value := ease(Elapsed(ctx, now));
    LerpBetween(ctx.startX, ctx.x, value);
    LerpBetween(ctx.startY, ctx.y, value);
  }

  /** The scroll position of the container being animated: an element's
      `scrollLeft`/`scrollTop`, or the window's position that `scrollTo`
      sets when the container is the body. */
  class Container {
    var scrollLeft: real
    var scrollTop: real

    constructor(left: real, top: real)
      ensures scrollLeft == left && scrollTop == top
    {
      scrollLeft := left;
      scrollTop := top;
    }

    function Current(): Position
      reads this
    {
      Position(scrollLeft, scrollTop)
    }
  }

  /** One animation step at clock reading `now`: writes the eased,
      interpolated position and answers whether another frame is
      requested. */
  method Step(box: Container, ctx: Context, ease: real -> real, now: real) returns (again: bool)
    modifies box
    ensures box.Current() == Frame(ctx, ease, now)
    ensures again <==> !Arrived(ctx, box.Current())
  {
    var elapsed := (now - ctx.startTime) / ScrollTime;
    elapsed := if elapsed > 1.0 then 1.0 else elapsed;
    var value := ease(elapsed);
    var currentX := ctx.startX + (ctx.x - ctx.startX) * value;
    var currentY := ctx.startY + (ctx.y - ctx.startY) * value;
    box.scrollLeft := currentX;
    box.scrollTop := currentY;
    again := currentX != ctx.x || currentY != ctx.y;
  }

  /** The whole animation: the first step, then one step per animation
      frame for as long as steps request one, with `clock` giving the time
      each step reads. Returns how many steps ran. */
  method Run(box: Container, ctx: Context, ease: real -> real, clock: seq<real>) returns (ticks: nat)
    modifies box
    ensures ticks <= |clock|
    ensures ticks == 0 <==> |clock| == 0
    ensures ticks > 0 ==> box.Current() == Frame(ctx, ease, clock[ticks - 1])
    ensures forall j :: 0 <= j < ticks - 1 ==> !Arrived(ctx, Frame(ctx, ease, clock[j]))
    ensures ticks < |clock| ==> Arrived(ctx, box.Current())
    ensures ease(1.0) == 1.0 && (exists j :: 0 <= j < |clock| && clock[j] - ctx.startTime >= ScrollTime) ==>
      Arrived(ctx, box.Current())
    ensures ticks == 0 ==> box.Current() == old(box.Current())
  {
    ticks := 0;
    var again := true;
    while ticks < |clock| && again
      invariant ticks <= |clock|
      invariant ticks == 0 ==> again && box.Current() == old(box.Current())
      invariant ticks > 0 ==> box.Current() == Frame(ctx, ease, clock[ticks - 1])
      invariant ticks > 0 ==> (again <==> !Arrived(ctx, box.Current()))
      invariant forall j :: 0 <= j < ticks - 1 ==> !Arrived(ctx, Frame(ctx, ease, clock[j]))
      decreases |clock| - ticks
    {
      again := Step(box, ctx, ease, clock[ticks]);
      ticks := ticks + 1;
    }
    if ease(1.0) == 1.0 && exists j :: 0 <= j < |clock| && clock[j] - ctx.startTime >= ScrollTime {
      var j :| 0 <= j < |clock| && clock[j] - ctx.startTime >= ScrollTime;
      ArrivesAfterScrollTime(ctx, ease, clock[j]);
    }
  }
}
