/** `roundedRectPath` (index.js:192-202), which traces the CRT bezel outline
    onto a canvas context as one move, four straight edges and four quadratic
    corners. The context is a recorder of the path commands it receives. */
module RoundedRect {

  datatype Point = Point(x: int, y: int)

  datatype PathCommand =
    | MoveTo(to: Point)
    | LineTo(to: Point)
    | QuadraticCurveTo(control: Point, to: Point)

  /** The canvas context, reduced to the path commands it has been given. */
  class PathRecorder {
    var commands: seq<PathCommand>

    constructor ()
      ensures commands == []
    {
      commands := [];
    }

    method MoveTo(x: int, y: int)
      modifies this
      ensures commands == old(commands) + [PathCommand.MoveTo(Point(x, y))]
    {
      commands := commands + [PathCommand.MoveTo(Point(x, y))];
    }

    method LineTo(x: int, y: int)
      modifies this
      ensures commands == old(commands) + [PathCommand.LineTo(Point(x, y))]
    {
      commands := commands + [PathCommand.LineTo(Point(x, y))];
    }

    method QuadraticCurveTo(cpx: int, cpy: int, x: int, y: int)
      modifies this
      ensures commands == old(commands) + [PathCommand.QuadraticCurveTo(Point(cpx, cpy), Point(x, y))]
    {
      commands := commands + [PathCommand.QuadraticCurveTo(Point(cpx, cpy), Point(x, y))];
    }
  }

  /** A point of the closed box with corner `(x, y)`, width `w` and height `h`. */
  predicate InBox(p: Point, x: int, y: int, w: int, h: int) {
    x <= p.x <= x + w && y <= p.y <= y + h
  }

  /** The box's corners, clockwise from the top right. */
  function Corner(i: nat, x: int, y: int, w: int, h: int): Point
    requires i < 4
  {
    if i == 0 then Point(x + w, y)
    else if i == 1 then Point(x + w, y + h)
    else if i == 2 then Point(x, y + h)
    else Point(x, y)
  }

  /** The outline: it starts at `(x + r, y)`, alternates straight edges and corner
      curves, each curve bending around one corner of the box in clockwise order,
      each straight edge running horizontally or vertically from where the previous
      command ended, and it ends where it started. When the radius fits the box,
      every point named stays inside it. */
  predicate IsRoundedOutline(path: seq<PathCommand>, x: int, y: int, w: int, h: int, r: int) {
    |path| == 9 &&
    path[0] == PathCommand.MoveTo(Point(x + r, y)) &&
    path[8].to == Point(x + r, y) &&
    (forall k :: 0 <= k < 4 ==>
      path[2 * k + 1].LineTo? &&
      (path[2 * k + 1].to.x == path[2 * k].to.x || path[2 * k + 1].to.y == path[2 * k].to.y)) &&
    (forall k :: 0 <= k < 4 ==>
      path[2 * k + 2].QuadraticCurveTo? && path[2 * k + 2].control == Corner(k, x, y, w, h)) &&
    (0 <= r && 2 * r <= w && 2 * r <= h ==>
      forall c :: c in path ==> InBox(c.to, x, y, w, h))
  }

  /** The nine commands `roundedRectPath(ctx, x, y, w, h, r)` issues, in order. */
  function RoundedOutline(x: int, y: int, w: int, h: int, r: int): seq<PathCommand> {
    [ PathCommand.MoveTo(Point(x + r, y)),
      PathCommand.LineTo(Point(x + w - r, y)),
      PathCommand.QuadraticCurveTo(Point(x + w, y), Point(x + w, y + r)),
      PathCommand.LineTo(Point(x + w, y + h - r)),
      PathCommand.QuadraticCurveTo(Point(x + w, y + h), Point(x + w - r, y + h)),
      PathCommand.LineTo(Point(x + r, y + h)),
      PathCommand.QuadraticCurveTo(Point(x, y + h), Point(x, y + h - r)),
      PathCommand.LineTo(Point(x, y + r)),
      PathCommand.QuadraticCurveTo(Point(x, y), Point(x + r, y)) ]
  }

  /** The commands form a closed rounded outline of the box: straight edges alternating
      with curves around the corners clockwise, inside the box when the radius fits. */
  lemma RoundedOutlineShape(x: int, y: int, w: int, h: int, r: int)
    ensures IsRoundedOutline(RoundedOutline(x, y, w, h, r), x, y, w, h, r)
  {
    var path := RoundedOutline(x, y, w, h, r);
    forall k | 0 <= k < 4
      ensures path[2 * k + 1].LineTo?
      ensures path[2 * k + 1].to.x == path[2 * k].to.x || path[2 * k + 1].to.y == path[2 * k].to.y
      ensures path[2 * k + 2].QuadraticCurveTo? && path[2 * k + 2].control == Corner(k, x, y, w, h)
    {
      assert k == 0 || k == 1 || k == 2 || k == 3;
    }
  }

  /** `roundedRectPath(ctx, x, y, w, h, r)`: appends the outline to the recorder. */
  method RoundedRectPath(ctx: PathRecorder, x: int, y: int, w: int, h: int, r: int)
    modifies ctx
    ensures ctx.commands == old(ctx.commands) + RoundedOutline(x, y, w, h, r)
  {
    ctx.MoveTo(x + r, y);
    ctx.LineTo(x + w - r, y);
    ctx.QuadraticCurveTo(x + w, y, x + w, y + r);
    ctx.LineTo(x + w, y + h - r);
    ctx.QuadraticCurveTo(x + w, y + h, x + w - r, y + h);
    ctx.LineTo(x + r, y + h);
    ctx.QuadraticCurveTo(x, y + h, x, y + h - r);
    ctx.LineTo(x, y + r);
    ctx.QuadraticCurveTo(x, y, x + r, y);
  }

  /** The bezel `drawFrame` fills and clips to: `roundedRectPath(ctx, 8, 8, W - 16, H - 16, 14)`
      on the 500 by 200 canvas. The radius fits, so the outline stays inside the canvas. */
  method BezelPath(ctx: PathRecorder)
    modifies ctx
    ensures ctx.commands == old(ctx.commands) + RoundedOutline(8, 8, 484, 184, 14)
    ensures IsRoundedOutline(RoundedOutline(8, 8, 484, 184, 14), 8, 8, 484, 184, 14)
    ensures forall c :: c in RoundedOutline(8, 8, 484, 184, 14) ==> InBox(c.to, 0, 0, 500, 200)
  {
    RoundedRectPath(ctx, 8, 8, 500 - 16, 200 - 16, 14);
    RoundedOutlineShape(8, 8, 484, 184, 14);
  }
}
