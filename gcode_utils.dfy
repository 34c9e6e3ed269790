/**
 * The plotter stage: traced vector paths become a G-code program for a
 * CoreXY pen plotter.
 *
 * A traced path is given by its start point, its arc length and its points
 * at the eleven fractions t = 0, 1/10, ..., 10/10 of the way along it. The
 * stage takes a bounding box over the samples at t = 0 .. 9/10 of every path,
 * chooses a scale that makes the box 80 mm wide, moves the box corner to the
 * origin, mixes each point into motor coordinates (x + y, x - y) and emits a
 * fixed preamble, one 13-command block per path at least 2 units long, and a
 * fixed postamble. The program is a sequence of structured commands; turning
 * it into text is a separate step whose number formatter is a parameter.
 */
module GcodeUtils {
  import opened Wrappers

  /** Fractions sampled per path are i / Steps. */
  const Steps: nat := 10
  /** Width of the drawing, in millimetres, after scaling. */
  const TargetWidth: real := 80.0
  /** Paths shorter than this are treated as noise and not drawn. */
  const MinLength: real := 2.0

  datatype Point = Point(x: real, y: real)

  /** Positions of the two CoreXY motors. */
  datatype MotorPos = MotorPos(a: real, b: real)

  /** A path's points at t = i / Steps for i = 0 .. Steps. */
  type Samples = s: seq<Point> | |s| == Steps + 1 witness seq(11, _ => Point(0.0, 0.0))

  datatype TracedPath = TracedPath(start: Point, length: real, samples: Samples)

  datatype GcodeError = NoPaths

  /** Translation and scale shared by every point of one program. */
  datatype Frame = Frame(minX: real, minY: real, scale: real)

  datatype Command =
    | Millimetres      // G21
    | Absolute         // G90
    | ServoReady       // M3 S1000
    | SetFeed          // G1 F3000
    | PenUp            // M5
    | PenDown          // M3
    | Rapid(to: MotorPos)   // G0 to a point
    | Linear(to: MotorPos)  // G1 to a point
    | Home             // G0 X0 Y0

  // ---------------------------------------------------------------------------
  // CoreXY mixing

  /** Cartesian pen position to motor positions. */
  function ToCoreXY(p: Point): (m: MotorPos)
    ensures m.a + m.b == 2.0 * p.x && m.a - m.b == 2.0 * p.y
  {
    MotorPos(p.x + p.y, p.x - p.y)
  }

  /** Motor positions back to the cartesian pen position. */
  function FromCoreXY(m: MotorPos): (p: Point)
    ensures ToCoreXY(p) == m
  {
    Point((m.a + m.b) / 2.0, (m.a - m.b) / 2.0)
  }

  /** Mixing then unmixing gives back the pen position. */
  lemma CoreXYRoundTrip(p: Point)
    ensures FromCoreXY(ToCoreXY(p)) == p
  {
  }

  /** Distinct pen positions drive the motors to distinct positions. */
  lemma CoreXYInjective(p: Point, q: Point)
    requires ToCoreXY(p) == ToCoreXY(q)
    ensures p == q
  {
    CoreXYRoundTrip(p);
    CoreXYRoundTrip(q);
  }

  // ---------------------------------------------------------------------------
  // Bounding box and scale

  /** The points the bounding box is taken over: samples 0 .. Steps - 1 of every path, path by path. */
  function BoxSamples(paths: seq<TracedPath>): (pts: seq<Point>)
    ensures |pts| == 10 * |paths|
  {
    if paths == [] then []
    else BoxSamples(paths[..|paths| - 1]) + paths[|paths| - 1].samples[..Steps]
  }

  /** Box sample 10 k + i is the sample of path k at t = i / 10, for i < 10. */
  lemma {:induction false} BoxSampleAt(paths: seq<TracedPath>, k: nat, i: nat)
    requires k < |paths| && i < Steps
    ensures BoxSamples(paths)[10 * k + i] == paths[k].samples[i]
  {
    var init := paths[..|paths| - 1];
    if k < |init| {
      BoxSampleAt(init, k, i);
      assert init[k] == paths[k];
    }
  }

  /** Every box sample is the sample at some t < 1 of some path. */
  lemma BoxSampleOrigin(paths: seq<TracedPath>, n: nat)
    requires n < |BoxSamples(paths)|
    ensures n / 10 < |paths| && n % 10 < Steps
    ensures BoxSamples(paths)[n] == paths[n / 10].samples[n % 10]
  {
    BoxSampleAt(paths, n / 10, n % 10);
  }

  /** The x coordinates, in order. */
  function Xs(pts: seq<Point>): (xs: seq<real>)
    ensures |xs| == |pts| && forall i :: 0 <= i < |pts| ==> xs[i] == pts[i].x
  {
    if pts == [] then [] else Xs(pts[..|pts| - 1]) + [pts[|pts| - 1].x]
  }

  /** The y coordinates, in order. */
  function Ys(pts: seq<Point>): (ys: seq<real>)
    ensures |ys| == |pts| && forall i :: 0 <= i < |pts| ==> ys[i] == pts[i].y
  {
    if pts == [] then [] else Ys(pts[..|pts| - 1]) + [pts[|pts| - 1].y]
  }

  /** The least element. */
  function MinOf(xs: seq<real>): (m: real)
    requires |xs| > 0
    ensures m in xs && forall i :: 0 <= i < |xs| ==> m <= xs[i]
  {
    if |xs| == 1 then xs[0]
    else
      var rest := MinOf(xs[1..]);
      assert forall i :: 1 <= i < |xs| ==> xs[1..][i - 1] == xs[i];
      if xs[0] <= rest then xs[0] else rest
  }

  /** The greatest element. */
  function MaxOf(xs: seq<real>): (m: real)
    requires |xs| > 0
    ensures m in xs && forall i :: 0 <= i < |xs| ==> xs[i] <= m
  {
    if |xs| == 1 then xs[0]
    else
      var rest := MaxOf(xs[1..]);
      assert forall i :: 1 <= i < |xs| ==> xs[1..][i - 1] == xs[i];
      if xs[0] >= rest then xs[0] else rest
  }

  /** The factor that makes a box of the given width TargetWidth wide; 1 for a box of no width. */
  function ScaleFor(width: real): (s: real)
    requires width >= 0.0
    ensures s > 0.0
    ensures width == 0.0 ==> s == 1.0
    ensures width != 0.0 ==> s * width == TargetWidth
  {
    if width == 0.0 then 1.0 else TargetWidth / width
  }

  /** Extent of the points along x. */
  function BoxWidth(pts: seq<Point>): (w: real)
    requires |pts| > 0
    ensures w >= 0.0
  {
    MaxOf(Xs(pts)) - MinOf(Xs(pts))
  }

  /** The frame that puts the box corner of the points at the origin and makes the box TargetWidth wide. */
  function FrameFor(pts: seq<Point>): Frame
    requires |pts| > 0
  {
    Frame(MinOf(Xs(pts)), MinOf(Ys(pts)), ScaleFor(BoxWidth(pts)))
  }

  /** The frame a non-empty path list is drawn in. */
  function FrameOf(paths: seq<TracedPath>): Frame
    requires paths != []
  {
    FrameFor(BoxSamples(paths))
  }

  /** The point with the box corner moved to the origin, then scaled. */
  function Normalise(p: Point, f: Frame): Point {
    Point((p.x - f.minX) * f.scale, (p.y - f.minY) * f.scale)
  }

  /** Undoes the scale, then moves the origin back to the box corner. */
  function Denormalise(n: Point, f: Frame): Point
    requires f.scale != 0.0
  {
    Point(n.x / f.scale + f.minX, n.y / f.scale + f.minY)
  }

  lemma Unscale(d: real, s: real)
    requires s != 0.0
    ensures d * s / s == d
  {
  }

  /** A frame with a non-zero scale loses nothing. */
  lemma NormaliseRoundTrip(p: Point, f: Frame)
    requires f.scale != 0.0
    ensures Denormalise(Normalise(p, f), f) == p
  {
    Unscale(p.x - f.minX, f.scale);
    Unscale(p.y - f.minY, f.scale);
  }

  /** Where the motors go for a point of the path: unmixed, it is the normalised point. */
  function Place(p: Point, f: Frame): (m: MotorPos)
    ensures FromCoreXY(m) == Normalise(p, f)
  {
    CoreXYRoundTrip(Normalise(p, f));
    ToCoreXY(Normalise(p, f))
  }

  lemma ScaledWithin(d: real, w: real, s: real)
    requires 0.0 <= d <= w && s > 0.0 && (w == 0.0 || s * w == TargetWidth)
    ensures 0.0 <= d * s <= TargetWidth
  {
    assert d * s <= w * s;
  }

  lemma ScaledNonNegative(d: real, s: real)
    requires 0.0 <= d && s > 0.0
    ensures 0.0 <= d * s
  {
  }

  /** One point of the box lands inside [0, 80] x [0, oo) once normalised. */
  lemma PointWithin(p: Point, f: Frame, maxX: real)
    requires f.minX <= p.x <= maxX && f.minY <= p.y
    requires f.scale == ScaleFor(maxX - f.minX)
    ensures 0.0 <= Normalise(p, f).x <= TargetWidth && 0.0 <= Normalise(p, f).y
  {
    ScaledWithin(p.x - f.minX, maxX - f.minX, f.scale);
    ScaledNonNegative(p.y - f.minY, f.scale);
  }

  /**
   * Every point lands at x in [0, 80] and y >= 0 once normalised in the frame
   * of its own box: the scaled box is exactly TargetWidth wide, or a single
   * column at x = 0.
   */
  lemma NormalisedBounds(pts: seq<Point>)
    requires |pts| > 0
    ensures var f := FrameFor(pts);
      forall n :: 0 <= n < |pts| ==>
        0.0 <= Normalise(pts[n], f).x <= TargetWidth && 0.0 <= Normalise(pts[n], f).y
  {
    var f := FrameFor(pts);
    var xs, ys := Xs(pts), Ys(pts);
    forall n | 0 <= n < |pts|
      ensures 0.0 <= Normalise(pts[n], f).x <= TargetWidth && 0.0 <= Normalise(pts[n], f).y
    {
      assert MinOf(xs) <= xs[n] <= MaxOf(xs) && MinOf(ys) <= ys[n];
      PointWithin(pts[n], f, MaxOf(xs));
    }
  }

  /** The normalisation is tight at the corner: some point lands on x = 0 and some on y = 0. */
  lemma CornerReached(pts: seq<Point>)
    requires |pts| > 0
    ensures var f := FrameFor(pts);
      (exists n :: 0 <= n < |pts| && Normalise(pts[n], f).x == 0.0) &&
      (exists n :: 0 <= n < |pts| && Normalise(pts[n], f).y == 0.0)
  {
    var f := FrameFor(pts);
    var xs, ys := Xs(pts), Ys(pts);
    var lo :| 0 <= lo < |xs| && xs[lo] == MinOf(xs);
    OnCorner(pts[lo], f);
    var bottom :| 0 <= bottom < |ys| && ys[bottom] == MinOf(ys);
    OnCorner(pts[bottom], f);
  }

  /** The normalisation is tight at the far edge: when the box has width, some point lands on x = 80. */
  lemma FarEdgeReached(pts: seq<Point>)
    requires |pts| > 0 && BoxWidth(pts) != 0.0
    ensures exists n :: 0 <= n < |pts| && Normalise(pts[n], FrameFor(pts)).x == TargetWidth
  {
    var f := FrameFor(pts);
    var xs, w := Xs(pts), BoxWidth(pts);
    var hi :| 0 <= hi < |xs| && xs[hi] == MaxOf(xs);
    OnFarEdge(pts[hi], f, w);
  }

  lemma OnCorner(p: Point, f: Frame)
    ensures p.x == f.minX ==> Normalise(p, f).x == 0.0
    ensures p.y == f.minY ==> Normalise(p, f).y == 0.0
  {
  }

  lemma OnFarEdge(p: Point, f: Frame, width: real)
    requires width > 0.0 && p.x - f.minX == width && f.scale == ScaleFor(width)
    ensures Normalise(p, f).x == TargetWidth
  {
  }

  /** A straight path along the x axis whose samples sit 10 units apart, from 0 to 100. */
  function RulerPath(): (p: TracedPath)
    ensures forall i :: 0 <= i <= Steps ==> p.samples[i] == Point(10.0 * i as real, 0.0)
  {
    TracedPath(Point(0.0, 0.0), 100.0, seq(11, i => Point(10.0 * i as real, 0.0)))
  }

  /**
   * The box leaves out t = 1, so a path's end point can land outside the
   * 80 mm width: on RulerPath the box is 90 wide, the scale 8/9, and the end
   * point at 100 is drawn at x = 800/9.
   */
  lemma EndPointOutsideWidth()
    ensures var f := FrameOf([RulerPath()]);
      f.scale == 8.0 / 9.0 && Normalise(RulerPath().samples[Steps], f).x > TargetWidth
  {
    var paths := [RulerPath()];
    var pts := BoxSamples(paths);
    var xs := Xs(pts);
    forall n | 0 <= n < |pts|
      ensures xs[n] == 10.0 * n as real
    {
      BoxSampleOrigin(paths, n);
    }
    RulerBox(xs);
    var f := FrameOf(paths);
    assert f.minX == 0.0 && f.scale == ScaleFor(90.0);
    RulerScale();
    RulerEnd(RulerPath().samples[Steps], f);
  }

  lemma RulerBox(xs: seq<real>)
    requires |xs| == 10 && forall n :: 0 <= n < 10 ==> xs[n] == 10.0 * n as real
    ensures MinOf(xs) == 0.0 && MaxOf(xs) == 90.0
  {
    assert xs[0] == 0.0 && xs[9] == 90.0;
  }

  lemma RulerScale()
    ensures ScaleFor(90.0) == 8.0 / 9.0
  {
  }

  lemma RulerEnd(p: Point, f: Frame)
    requires p.x == 100.0 && f.minX == 0.0 && f.scale == 8.0 / 9.0
    ensures Normalise(p, f).x > TargetWidth
  {
  }

  // ---------------------------------------------------------------------------
  // The program

  const Preamble: seq<Command> := [Millimetres, Absolute, ServoReady, SetFeed]
  const Postamble: seq<Command> := [PenUp, Home]

  predicate IsShort(p: TracedPath) {
    p.length < MinLength
  }

  /** One pen-down stroke to each of the points, in order. */
  function Strokes(pts: seq<Point>, f: Frame): (s: seq<Command>)
    ensures |s| == |pts| && forall j :: 0 <= j < |pts| ==> s[j] == Linear(Place(pts[j], f))
  {
    if pts == [] then [] else Strokes(pts[..|pts| - 1], f) + [Linear(Place(pts[|pts| - 1], f))]
  }

  /** The commands that draw one path: lift, travel to its start, lower, stroke. */
  function Block(p: TracedPath, f: Frame): (b: seq<Command>)
    ensures |b| == 13
  {
    [PenUp, Rapid(Place(p.start, f)), PenDown] + Strokes(p.samples[1..], f)
  }

  /** The commands one path contributes: none for a short one. */
  function Contribution(p: TracedPath, f: Frame): seq<Command> {
    if IsShort(p) then [] else Block(p, f)
  }

  /** The commands for a list of paths, in order. */
  function Blocks(paths: seq<TracedPath>, f: Frame): seq<Command> {
    if paths == [] then []
    else Blocks(paths[..|paths| - 1], f) + Contribution(paths[|paths| - 1], f)
  }

  lemma BlocksOfPrefix(paths: seq<TracedPath>, k: nat, f: Frame)
    requires k < |paths|
    ensures Blocks(paths[..k + 1], f) == Blocks(paths[..k], f) + Contribution(paths[k], f)
  {
    assert paths[..k + 1][..k] == paths[..k];
  }

  /** The paths that are drawn, in input order. */
  function LongPaths(paths: seq<TracedPath>): (drawn: seq<TracedPath>)
    ensures |drawn| <= |paths|
  {
    if paths == [] then []
    else
      var last := paths[|paths| - 1];
      LongPaths(paths[..|paths| - 1]) + if IsShort(last) then [] else [last]
  }

  /** The program for the paths drawn in a given frame. */
  function ProgramIn(paths: seq<TracedPath>, f: Frame): seq<Command> {
    Preamble + Blocks(paths, f) + Postamble
  }

  /** The whole program for a non-empty path list, in the frame of its box. */
  function Program(paths: seq<TracedPath>): seq<Command>
    requires paths != []
  {
    ProgramIn(paths, FrameOf(paths))
  }

  /** The drawn paths are exactly the paths of length at least MinLength. */
  lemma {:induction false} LongPathsMembers(paths: seq<TracedPath>)
    ensures forall p :: p in LongPaths(paths) <==> p in paths && !IsShort(p)
  {
    if paths != [] {
      var init, last := paths[..|paths| - 1], paths[|paths| - 1];
      LongPathsMembers(init);
      assert paths == init + [last];
    }
  }

  /** Short paths contribute nothing: the blocks depend only on the drawn paths. */
  lemma {:induction false} BlocksOfLongPaths(paths: seq<TracedPath>, f: Frame)
    ensures Blocks(paths, f) == Blocks(LongPaths(paths), f)
  {
    if paths != [] {
      var init, last := paths[..|paths| - 1], paths[|paths| - 1];
      BlocksOfLongPaths(init, f);
      var drawn := LongPaths(init);
      if IsShort(last) {
        assert LongPaths(paths) == drawn;
        assert Blocks(paths, f) == Blocks(init, f) + [];
      } else {
        var longer := drawn + [last];
        assert LongPaths(paths) == longer;
        assert longer[..|longer| - 1] == drawn && longer[|longer| - 1] == last;
        assert Blocks(longer, f) == Blocks(drawn, f) + Block(last, f);
      }
    }
  }

  lemma AppendAssoc<T>(a: seq<T>, b: seq<T>, c: seq<T>)
    ensures a + b + c == a + (b + c)
  {
  }

  lemma SlicePrefix<T>(a: seq<T>, b: seq<T>, hi: nat)
    requires hi <= |a|
    ensures (a + b)[..hi] == a[..hi]
  {
  }

  lemma SliceSuffix<T>(a: seq<T>, b: seq<T>)
    ensures (a + b)[|a|..] == b
  {
  }

  lemma SliceOfConcat<T>(a: seq<T>, b: seq<T>, c: seq<T>, lo: nat, hi: nat)
    requires lo <= hi <= |b|
    ensures (a + b + c)[|a| + lo .. |a| + hi] == b[lo..hi]
  {
    assert forall k :: lo <= k < hi ==> (a + b + c)[|a| + k] == b[k];
  }

  /** The j-th drawn path's 13-command block sits at commands 13 * j .. 13 * j + 12. */
  lemma {:induction false} BlocksLayout(paths: seq<TracedPath>, f: Frame)
    ensures |Blocks(paths, f)| == 13 * |LongPaths(paths)|
    ensures forall j :: 0 <= j < |LongPaths(paths)| ==>
      Blocks(paths, f)[13 * j .. 13 * j + 13] == Block(LongPaths(paths)[j], f)
  {
    if paths != [] {
      var init, last := paths[..|paths| - 1], paths[|paths| - 1];
      BlocksLayout(init, f);
      var before, drawn := Blocks(init, f), LongPaths(init);
      if IsShort(last) {
        assert Blocks(paths, f) == before + [] == before;
        assert LongPaths(paths) == drawn + [] == drawn;
      } else {
        assert Blocks(paths, f) == before + Block(last, f);
        assert LongPaths(paths) == drawn + [last];
        LaidOutAppend(before, drawn, last, f);
      }
    }
  }

  /** Commands laid out as the blocks of the given paths, 13 commands each. */
  ghost predicate LaidOut(cs: seq<Command>, drawn: seq<TracedPath>, f: Frame) {
    |cs| == 13 * |drawn| &&
    forall j :: 0 <= j < |drawn| ==> cs[13 * j .. 13 * j + 13] == Block(drawn[j], f)
  }

  lemma LaidOutAppend(cs: seq<Command>, drawn: seq<TracedPath>, p: TracedPath, f: Frame)
    requires LaidOut(cs, drawn, f)
    ensures LaidOut(cs + Block(p, f), drawn + [p], f)
  {
    var all := cs + Block(p, f);
    forall j | 0 <= j < |drawn| + 1
      ensures all[13 * j .. 13 * j + 13] == Block((drawn + [p])[j], f)
    {
      if j < |drawn| {
        SlicePrefix(cs, Block(p, f), 13 * j + 13);
        assert all[13 * j .. 13 * j + 13] == cs[..13 * j + 13][13 * j ..];
      } else {
        SliceSuffix(cs, Block(p, f));
      }
    }
  }

  /** A block lifts the pen, travels to the start, lowers the pen and strokes to t = 1/10 .. 10/10. */
  lemma BlockShape(p: TracedPath, f: Frame)
    ensures var b := Block(p, f);
      b[0] == PenUp && b[1] == Rapid(Place(p.start, f)) && b[2] == PenDown &&
      forall i :: 1 <= i <= Steps ==> b[2 + i] == Linear(Place(p.samples[i], f))
  {
    forall i | 1 <= i <= Steps
      ensures Block(p, f)[2 + i] == Linear(Place(p.samples[i], f))
    {
      assert p.samples[1..][i - 1] == p.samples[i];
    }
  }

  /**
   * The program's layout: the four preamble commands, the blocks of the drawn
   * paths in input order, then pen up and return home.
   */
  lemma ProgramLayout(paths: seq<TracedPath>, f: Frame)
    ensures var prog, drawn := ProgramIn(paths, f), LongPaths(paths);
      |prog| == 6 + 13 * |drawn| &&
      prog[..4] == [Millimetres, Absolute, ServoReady, SetFeed] &&
      prog[|prog| - 2..] == [PenUp, Home] &&
      forall j :: 0 <= j < |drawn| ==> prog[4 + 13 * j .. 4 + 13 * j + 13] == Block(drawn[j], f)
  {
    var prog, drawn := ProgramIn(paths, f), LongPaths(paths);
    var blocks := Blocks(paths, f);
    BlocksLayout(paths, f);
    assert prog == Preamble + blocks + Postamble;
    SlicePrefix(Preamble + blocks, Postamble, 4);
    SlicePrefix(Preamble, blocks, 4);
    SliceSuffix(Preamble + blocks, Postamble);
    forall j | 0 <= j < |drawn|
      ensures prog[4 + 13 * j .. 4 + 13 * j + 13] == Block(drawn[j], f)
    {
      SliceOfConcat(Preamble, blocks, Postamble, 13 * j, 13 * j + 13);
    }
  }

  // ---------------------------------------------------------------------------
  // Text

  /** A number formatter that never writes a line break. */
  ghost predicate SingleLine(fmt: real -> string) {
    forall v :: '\n' !in fmt(v)
  }

  /** The text of one command; with a break-free number format it is a single line. */
  function Render(c: Command, fmt: real -> string): (line: string)
    ensures SingleLine(fmt) ==> '\n' !in line
  {
    match c
    case Millimetres => "G21"
    case Absolute => "G90"
    case ServoReady => "M3 S1000"
    case SetFeed => "G1 F3000"
    case PenUp => "M5"
    case PenDown => "M3"
    case Rapid(m) => "G0 X" + fmt(m.a) + " Y" + fmt(m.b)
    case Linear(m) => "G1 X" + fmt(m.a) + " Y" + fmt(m.b)
    case Home => "G0 X0 Y0"
  }

  function Rendered(cs: seq<Command>, fmt: real -> string): (lines: seq<string>)
    ensures |lines| == |cs| && forall i :: 0 <= i < |cs| ==> lines[i] == Render(cs[i], fmt)
  {
    seq(|cs|, i requires 0 <= i < |cs| => Render(cs[i], fmt))
  }

  /** The lines separated by line breaks. */
  function Join(lines: seq<string>): string {
    if lines == [] then ""
    else if |lines| == 1 then lines[0]
    else lines[0] + "\n" + Join(lines[1..])
  }

  function FirstBreak(s: string): (i: nat)
    requires '\n' in s
    ensures i < |s| && s[i] == '\n' && '\n' !in s[..i]
    ensures forall j :: 0 <= j < i ==> s[j] != '\n'
  {
    if s[0] == '\n' then 0
    else
      assert s == [s[0]] + s[1..];
      var i := FirstBreak(s[1..]);
      assert s[..i + 1] == [s[0]] + s[1..][..i];
      i + 1
  }

  /** The text cut at its line breaks. */
  function Lines(s: string): (lines: seq<string>)
    ensures |lines| >= 1 && forall i :: 0 <= i < |lines| ==> '\n' !in lines[i]
    decreases |s|
  {
    if '\n' in s then
      var i := FirstBreak(s);
      [s[..i]] + Lines(s[i + 1..])
    else [s]
  }

  /** The first break after a line without breaks is the one that ends it. */
  lemma BreakAfterLine(head: string, tail: string)
    requires '\n' !in head
    ensures var s := head + "\n" + tail;
      '\n' in s && FirstBreak(s) == |head| && s[..|head|] == head && s[|head| + 1..] == tail
  {
    var s := head + "\n" + tail;
    assert s[|head|] == '\n';
    var i := FirstBreak(s);
    assert s[..|head|] == head && s[|head| + 1..] == tail;
  }

  /** Cutting joined lines at the breaks gives back the lines. */
  lemma {:induction false} LinesOfJoin(lines: seq<string>)
    requires |lines| >= 1 && forall i :: 0 <= i < |lines| ==> '\n' !in lines[i]
    ensures Lines(Join(lines)) == lines
  {
    if |lines| > 1 {
      var head, tail := lines[0], Join(lines[1..]);
      var s := head + "\n" + tail;
      assert Join(lines) == s;
      BreakAfterLine(head, tail);
      assert Lines(s) == [head] + Lines(tail);
      LinesOfJoin(lines[1..]);
      assert lines == [head] + lines[1..];
    }
  }

  /** Joining a text's lines gives back the text. */
  lemma {:induction false} JoinOfLines(s: string)
    ensures Join(Lines(s)) == s
    decreases |s|
  {
    if '\n' in s {
      var i := FirstBreak(s);
      var rest := Lines(s[i + 1..]);
      JoinOfLines(s[i + 1..]);
      assert ([s[..i]] + rest)[1..] == rest;
      assert s == s[..i] + "\n" + s[i + 1..];
    }
  }

  /** The program as text. */
  function Text(cs: seq<Command>, fmt: real -> string): string {
    Join(Rendered(cs, fmt))
  }


  /** With a single-line formatter, the text has exactly one line per command. */
  lemma TextLines(cs: seq<Command>, fmt: real -> string)
    requires |cs| >= 1 && SingleLine(fmt)
    ensures Lines(Text(cs, fmt)) == Rendered(cs, fmt)
  {
    var lines := Rendered(cs, fmt);
    assert forall i :: 0 <= i < |lines| ==> '\n' !in lines[i];
    LinesOfJoin(lines);
  }

  /** The lines of a framed command list start with the preamble lines and end with the postamble lines. */
  lemma FramedLines(cs: seq<Command>, fmt: real -> string)
    requires |cs| >= 6 && cs[..4] == Preamble && cs[|cs| - 2..] == Postamble
    ensures var lines := Rendered(cs, fmt);
      lines[..4] == ["G21", "G90", "M3 S1000", "G1 F3000"] &&
      lines[|lines| - 2..] == ["M5", "G0 X0 Y0"]
  {
    var lines := Rendered(cs, fmt);
    var n := |cs|;
    assert cs[0] == Millimetres && cs[1] == Absolute && cs[2] == ServoReady && cs[3] == SetFeed;
    assert lines[..4] == [lines[0], lines[1], lines[2], lines[3]];
    assert cs[n - 2] == PenUp && cs[n - 1] == Home;
    assert lines[n - 2..] == [lines[n - 2], lines[n - 1]];
  }

  /**
   * The program text has 6 + 13 lines per drawn path, starting with the
   * preamble and ending with the postamble.
   */
  lemma ProgramText(paths: seq<TracedPath>, f: Frame, fmt: real -> string)
    requires SingleLine(fmt)
    ensures var lines := Lines(Text(ProgramIn(paths, f), fmt));
      |lines| == 6 + 13 * |LongPaths(paths)| &&
      lines[..4] == ["G21", "G90", "M3 S1000", "G1 F3000"] &&
      lines[|lines| - 2..] == ["M5", "G0 X0 Y0"]
  {
    var prog := ProgramIn(paths, f);
    ProgramLayout(paths, f);
    TextLines(prog, fmt);
    FramedLines(prog, fmt);
  }

  // ---------------------------------------------------------------------------
  // The stage

  /** Collects the bounding-box points: samples 0 .. Steps - 1 of every path, path by path. */
  method CollectBoxPoints(paths: seq<TracedPath>) returns (allPoints: seq<Point>)
    ensures allPoints == BoxSamples(paths)
  {
    allPoints := [];
    for k := 0 to |paths|
      invariant allPoints == BoxSamples(paths[..k])
    {
      var path := paths[k];
      for i := 0 to Steps
        invariant allPoints == BoxSamples(paths[..k]) + path.samples[..i]
      {
        allPoints := allPoints + [path.samples[i]];
        assert path.samples[..i + 1] == path.samples[..i] + [path.samples[i]];
      }
      assert paths[..k + 1][..k] == paths[..k];
    }
    assert paths[..|paths|] == paths;
  }

  /** The box corner and the scale: 80 over the box width, or 1 for a box of no width. */
  method ChooseFrame(allPoints: seq<Point>) returns (frame: Frame)
    requires |allPoints| > 0
    ensures frame == FrameFor(allPoints)
  {
    var minX := MinOf(Xs(allPoints));
    var minY := MinOf(Ys(allPoints));
    var width := MaxOf(Xs(allPoints)) - minX;
    var scale := ScaleFor(width);
    frame := Frame(minX, minY, scale);
  }

  /** Appends the commands for one path: nothing for a short path, its block otherwise. */
  method AppendPath(gcode: seq<Command>, path: TracedPath, frame: Frame) returns (extended: seq<Command>)
    ensures extended == gcode + Contribution(path, frame)
  {
    if path.length < MinLength {
      return gcode;
    }
    var start := ToCoreXY(Normalise(path.start, frame));
    extended := gcode + [PenUp, Rapid(start), PenDown];
    ghost var travel := [PenUp, Rapid(start), PenDown];
    for i := 1 to Steps + 1
      invariant extended == gcode + travel + Strokes(path.samples[1..i], frame)
    {
      var p := ToCoreXY(Normalise(path.samples[i], frame));
      AppendAssoc(gcode + travel, Strokes(path.samples[1..i], frame), [Linear(p)]);
      extended := extended + [Linear(p)];
      assert path.samples[1..i + 1][..i - 1] == path.samples[1..i];
    }
    assert path.samples[1..Steps + 1] == path.samples[1..];
    AppendAssoc(gcode, travel, Strokes(path.samples[1..], frame));
  }

  /** Emits the program: preamble, the commands for each path in turn, postamble. */
  method EmitProgram(paths: seq<TracedPath>, frame: Frame) returns (gcode: seq<Command>)
    ensures gcode == ProgramIn(paths, frame)
  {
    gcode := [Millimetres, Absolute, ServoReady, SetFeed];
    for k := 0 to |paths|
      invariant gcode == Preamble + Blocks(paths[..k], frame)
    {
      BlocksOfPrefix(paths, k, frame);
      AppendAssoc(Preamble, Blocks(paths[..k], frame), Contribution(paths[k], frame));
      gcode := AppendPath(gcode, paths[k], frame);
    }
    assert paths[..|paths|] == paths;
    gcode := gcode + [PenUp, Home];
  }

  /**
   * Draws the paths: the error for an empty list, otherwise the program's
   * text. The check for an empty point list can never fire, since every path
   * gives Steps points.
   */
  method ImageToGcode(paths: seq<TracedPath>, fmt: real -> string) returns (r: Result<string, GcodeError>)
    ensures r.Failure? <==> paths == []
    ensures r.Success? ==> r.value == Text(Program(paths), fmt)
  {
    if paths == [] {
      return Failure(NoPaths);
    }
    var allPoints := CollectBoxPoints(paths);
    assert |allPoints| == 10 * |paths| > 0;
    var frame := ChooseFrame(allPoints);
    var gcode := EmitProgram(paths, frame);
    r := Success(Text(gcode, fmt));
  }
}
