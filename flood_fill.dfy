/** The scanline flood fill inside `fill` (get-gif-mask.js): marks, in a w*h flag
    buffer, the background pixels whose colour is close to that of pixel (0, 0). */
module FloodFill {
  import opened Pixels

  datatype Point = Point(x: int, y: int)

  /** Two grid points that share an edge. */
  predicate Adjacent(p: Point, q: Point)
  {
    (p.x == q.x && (p.y == q.y + 1 || q.y == p.y + 1))
    || (p.y == q.y && (p.x == q.x + 1 || q.x == p.x + 1))
  }

  /** What the fill reads: the RGBA image `ref` (w*h pixels), the colour metric
      `deltaE` and the threshold `fuzz`. The metric is a parameter: a lemma that
      needs a property of it (distance 0 from a colour to itself, distances never
      negative) states it in its own requires. */
  datatype FillArgs = FillArgs(ref: seq<Byte>, w: nat, h: nat,
                               deltaE: (seq<Byte>, seq<Byte>) -> real, fuzz: real)
  {
    predicate Valid() { w > 0 && h > 0 && |ref| == w * h * 4 }

    predicate InBounds(p: Point) { 0 <= p.x < w && 0 <= p.y < h }

    /** Index of a pixel in the flag buffer (getPPoint / setPPoint use size 1). */
    function Cell(p: Point): (i: int)
      requires InBounds(p)
      ensures 0 <= i < w * h
    {
      CellInBounds(p.x, p.y, w, h);
      p.y * w + p.x
    }

    /** The four corners the fill starts from, in the order they are pushed. */
    function Seeds(): seq<Point>
    {
      [Point(0, 0), Point(w - 1, 0), Point(0, h - 1), Point(w - 1, h - 1)]
    }

    /** The reference colour: the colour of pixel (0, 0). */
    function RefColor(): seq<Byte> { GetPoint(ref, 0, 0, w, 4) }

    /** A pixel of the image whose colour is closer than `fuzz` to the reference colour. */
    predicate Similar(p: Point)
    {
      InBounds(p) && deltaE(GetPoint(ref, p.x, p.y, w, 4), RefColor()) < fuzz
    }

    /** The flag of pixel p is set. */
    predicate Marked(m: seq<Byte>, p: Point)
    {
      InBounds(p) && |m| == w * h && m[Cell(p)] != 0
    }

    /** The fill would enter p: unmarked and similar. */
    predicate Qualifies(m: seq<Byte>, p: Point)
    {
      Similar(p) && !Marked(m, p)
    }

    /** A similar neighbour q of a marked pixel is marked, waiting on the stack,
        or one of the `extra` points still being processed. */
    predicate Owed(m: seq<Byte>, stack: seq<Point>, extra: set<Point>, q: Point)
    {
      !Similar(q) || Marked(m, q) || q in stack || q in extra
    }

    /** Every similar neighbour of a marked pixel is accounted for. */
    ghost predicate ClosedExcept(m: seq<Byte>, stack: seq<Point>, extra: set<Point>)
    {
      forall r, q | Marked(m, r) && Adjacent(r, q) :: Owed(m, stack, extra, q)
    }

    /** What the fill guarantees about its flag buffer. */
    ghost predicate FillSpec(m: seq<Byte>)
    {
      && |m| == w * h
      && (forall p | Marked(m, p) :: Similar(p))
      && (forall i | 0 <= i < 4 :: Similar(Seeds()[i]) ==> Marked(m, Seeds()[i]))
      && ClosedExcept(m, [], {})
    }
  }

  /** Number of zero flags. */
  function Unmarked(s: seq<Byte>): nat
  {
    if s == [] then 0 else Unmarked(s[..|s| - 1]) + (if s[|s| - 1] == 0 then 1 else 0)
  }

  lemma {:induction false} UnmarkedAllZero(s: seq<Byte>)
    requires forall k | 0 <= k < |s| :: s[k] == 0
    ensures Unmarked(s) == |s|
  {
    if s != [] {
      UnmarkedAllZero(s[..|s| - 1]);
    }
  }

  /** Setting one zero flag removes exactly one unmarked pixel. */
  lemma {:induction false} UnmarkedSet(s: seq<Byte>, i: int, v: Byte)
    requires 0 <= i < |s| && s[i] == 0 && v != 0
    ensures Unmarked(s[i := v]) == Unmarked(s) - 1
  {
    var n := |s| - 1;
    if i == n {
      assert s[i := v][..n] == s[..n];
    } else {
      assert s[i := v][..n] == s[..n][i := v];
      UnmarkedSet(s[..n], i, v);
    }
  }

  /** The closure obligations after the stack lost its top `p`. */
  lemma PopKeepsClosure(args: FillArgs, m: seq<Byte>, stack: seq<Point>, p: Point)
    requires stack != [] && p == stack[|stack| - 1]
    requires args.ClosedExcept(m, stack, {})
    ensures args.ClosedExcept(m, stack[..|stack| - 1], {p})
  {
    var rest := stack[..|stack| - 1];
    assert stack == rest + [p];
    forall r, q | args.Marked(m, r) && Adjacent(r, q)
      ensures args.Owed(m, rest, {p}, q)
    {
      assert args.Owed(m, stack, {}, q);
    }
  }

  /** The pixels of column `p.x` from row `y` down to `p` all qualify, as long as
      `p` itself is an unmarked similar pixel. */
  ghost predicate Pending(args: FillArgs, m: seq<Byte>, p: Point, y: int)
  {
    args.Qualifies(m, p) ==>
      y <= p.y && forall k | y <= k <= p.y :: args.Qualifies(m, Point(p.x, k))
  }

  ghost predicate StackInBounds(args: FillArgs, stack: seq<Point>)
  {
    forall i | 0 <= i < |stack| :: args.InBounds(stack[i])
  }

  /** Only similar pixels are marked. */
  ghost predicate Sound(args: FillArgs, m: seq<Byte>)
  {
    forall r | args.Marked(m, r) :: args.Similar(r)
  }

  /** The state of the downward walk in column `p.x` at row `y`, after popping `p`. */
  ghost predicate DownInv(args: FillArgs, m: seq<Byte>, stack: seq<Point>, p: Point, y: int)
  {
    && args.Valid() && |m| == args.w * args.h && args.InBounds(p)
    && 0 <= y <= args.h
    && StackInBounds(args, stack)
    && Sound(args, m)
    && (0 < y ==> !args.Qualifies(m, Point(p.x, y - 1)))
    && args.ClosedExcept(m, stack, {p, Point(p.x, y)})
    && Pending(args, m, p, y)
  }

  /** The stack after the fill looked at neighbour q: pushed when it qualifies. */
  function PushIf(args: FillArgs, m: seq<Byte>, q: Point): seq<Point>
  {
    if args.Qualifies(m, q) then [q] else []
  }

  /** Where the upward walk stops, the downward walk starts. */
  lemma UpDone(args: FillArgs, m: seq<Byte>, stack: seq<Point>, p: Point, y: int)
    requires args.Valid() && |m| == args.w * args.h && args.InBounds(p)
    requires 0 <= y <= p.y
    requires StackInBounds(args, stack) && Sound(args, m)
    requires y > 0 ==> !args.Qualifies(m, Point(p.x, y - 1))
    requires args.ClosedExcept(m, stack, {p})
    requires Pending(args, m, p, y)
    ensures DownInv(args, m, stack, p, y)
  {
    forall r, q | args.Marked(m, r) && Adjacent(r, q)
      ensures args.Owed(m, stack, {p, Point(p.x, y)}, q)
    {
      assert args.Owed(m, stack, {p}, q);
    }
  }

  /** One marking step of the downward walk: push the qualifying side neighbours,
      then mark (p.x, y). */
  lemma MarkStep(args: FillArgs, m: seq<Byte>, m': seq<Byte>, stack: seq<Point>, stack': seq<Point>, p: Point, y: int)
    requires DownInv(args, m, stack, p, y) && y < args.h
    requires args.Qualifies(m, Point(p.x, y))
    requires m' == m[args.Cell(Point(p.x, y)) := 1]
    requires stack' == stack + PushIf(args, m, Point(p.x - 1, y)) + PushIf(args, m, Point(p.x + 1, y))
    ensures DownInv(args, m', stack', p, y + 1)
    ensures 2 * Unmarked(m') + |stack'| <= 2 * Unmarked(m) + |stack|
    ensures forall r | args.Marked(m, r) :: args.Marked(m', r)
  {
    var c := Point(p.x, y);
    UnmarkedSet(m, args.Cell(c), 1);
    MarkOthers(args, m, c);
    assert stack'[..|stack|] == stack;
    MarkClosure(args, m, m', stack, stack', p, y);
    PushInBounds(args, m, stack, stack', p, y);
    MarkSound(args, m, m', c);
    MarkPending(args, m, m', p, y);
  }

  /** Only pixels of the image are pushed. */
  lemma PushInBounds(args: FillArgs, m: seq<Byte>, stack: seq<Point>, stack': seq<Point>, p: Point, y: int)
    requires StackInBounds(args, stack)
    requires stack' == stack + PushIf(args, m, Point(p.x - 1, y)) + PushIf(args, m, Point(p.x + 1, y))
    ensures StackInBounds(args, stack')
  {
    forall i | 0 <= i < |stack'|
      ensures args.InBounds(stack'[i])
    {
      if i < |stack| {
        assert stack'[i] == stack[i];
      }
    }
  }

  /** Marking a similar pixel keeps only similar pixels marked. */
  lemma MarkSound(args: FillArgs, m: seq<Byte>, m': seq<Byte>, c: Point)
    requires Sound(args, m) && args.Similar(c)
    requires forall r | r != c :: args.Marked(m', r) == args.Marked(m, r)
    ensures Sound(args, m')
  {
    forall r | args.Marked(m', r)
      ensures args.Similar(r)
    {
      if r != c {
        assert args.Marked(m, r);
      }
    }
  }

  /** Marking (p.x, y) moves the pending run of column p.x down by one row. */
  lemma MarkPending(args: FillArgs, m: seq<Byte>, m': seq<Byte>, p: Point, y: int)
    requires Pending(args, m, p, y)
    requires args.Marked(m', Point(p.x, y))
    requires forall r | r != Point(p.x, y) :: args.Marked(m', r) == args.Marked(m, r)
    ensures Pending(args, m', p, y + 1)
  {
    if args.Qualifies(m', p) {
      assert p != Point(p.x, y);
      forall k | y + 1 <= k <= p.y
        ensures args.Qualifies(m', Point(p.x, k))
      {
        assert args.Qualifies(m, Point(p.x, k));
      }
    }
  }

  /** Marking c leaves every other pixel's flag as it was. */
  lemma MarkOthers(args: FillArgs, m: seq<Byte>, c: Point)
    requires args.Valid() && |m| == args.w * args.h && args.InBounds(c)
    ensures args.Marked(m[args.Cell(c) := 1], c)
    ensures forall r | r != c :: args.Marked(m[args.Cell(c) := 1], r) == args.Marked(m, r)
  {
    forall r | r != c
      ensures args.Marked(m[args.Cell(c) := 1], r) == args.Marked(m, r)
    {
      MarkOnlyChanges(args, m, c, r);
    }
  }

  /** The closure part of a marking step. */
  lemma MarkClosure(args: FillArgs, m: seq<Byte>, m': seq<Byte>, stack: seq<Point>, stack': seq<Point>, p: Point, y: int)
    requires DownInv(args, m, stack, p, y) && y < args.h
    requires args.Qualifies(m, Point(p.x, y))
    requires m' == m[args.Cell(Point(p.x, y)) := 1]
    requires forall r | r != Point(p.x, y) :: args.Marked(m', r) == args.Marked(m, r)
    requires stack' == stack + PushIf(args, m, Point(p.x - 1, y)) + PushIf(args, m, Point(p.x + 1, y))
    ensures args.ClosedExcept(m', stack', {p, Point(p.x, y + 1)})
  {
    var c := Point(p.x, y);
    forall r, q | args.Marked(m', r) && Adjacent(r, q)
      ensures args.Owed(m', stack', {p, Point(p.x, y + 1)}, q)
    {
      if r == c {
        OwedFromNew(args, m, m', stack, stack', p, y, q);
      } else {
        assert args.Owed(m, stack, {p, c}, q);
        OwedFromOld(args, m, m', stack, stack', p, y, q);
      }
    }
  }

  /** A neighbour of the freshly marked (p.x, y) is accounted for: the cell below
      is the next one the walk looks at, the cell above stopped the upward walk or
      is marked, and the side cells were pushed when they qualified. */
  lemma OwedFromNew(args: FillArgs, m: seq<Byte>, m': seq<Byte>, stack: seq<Point>, stack': seq<Point>, p: Point, y: int, q: Point)
    requires Adjacent(Point(p.x, y), q)
    requires 0 < y ==> !args.Qualifies(m, Point(p.x, y - 1))
    requires forall r | r != Point(p.x, y) :: args.Marked(m', r) == args.Marked(m, r)
    requires stack' == stack + PushIf(args, m, Point(p.x - 1, y)) + PushIf(args, m, Point(p.x + 1, y))
    ensures args.Owed(m', stack', {p, Point(p.x, y + 1)}, q)
  {
    if args.Similar(q) && q != Point(p.x, y + 1) {
      if q.y == y {
        assert !args.Qualifies(m, q) || q in stack';
      } else {
        assert q == Point(p.x, y - 1);
        assert args.Marked(m, q);
      }
    }
  }

  /** A neighbour of a pixel marked before the step stays accounted for. */
  lemma OwedFromOld(args: FillArgs, m: seq<Byte>, m': seq<Byte>, stack: seq<Point>, stack': seq<Point>, p: Point, y: int, q: Point)
    requires args.Owed(m, stack, {p, Point(p.x, y)}, q)
    requires args.Marked(m', Point(p.x, y))
    requires forall r | r != Point(p.x, y) :: args.Marked(m', r) == args.Marked(m, r)
    requires |stack'| >= |stack| && stack'[..|stack|] == stack
    ensures args.Owed(m', stack', {p, Point(p.x, y + 1)}, q)
  {
    if q in stack {
      var i :| 0 <= i < |stack| && stack[i] == q;
      assert stack'[i] == q;
    }
  }

  /** Marking one cell changes the flag of that pixel only. */
  lemma MarkOnlyChanges(args: FillArgs, m: seq<Byte>, c: Point, r: Point)
    requires args.Valid() && |m| == args.w * args.h && args.InBounds(c) && r != c
    ensures args.Marked(m[args.Cell(c) := 1], r) == args.Marked(m, r)
  {
    if args.InBounds(r) && args.Cell(r) == args.Cell(c) {
      CellInjective(r.x, r.y, c.x, c.y, args.w);
    }
  }

  /** When the downward walk stops, the popped point and the walk's last point are
      settled: the closure no longer owes anything to them. */
  lemma DownDone(args: FillArgs, m: seq<Byte>, stack: seq<Point>, p: Point, y: int)
    requires DownInv(args, m, stack, p, y)
    requires y == args.h || !args.Qualifies(m, Point(p.x, y))
    ensures args.ClosedExcept(m, stack, {})
    ensures args.Similar(p) ==> args.Marked(m, p)
  {
    forall r, q | args.Marked(m, r) && Adjacent(r, q)
      ensures args.Owed(m, stack, {}, q)
    {
      assert args.Owed(m, stack, {p, Point(p.x, y)}, q);
    }
  }

  /** `fill`, line 219: from the popped point p, move up while the pixel above is
      unmarked and similar; returns the row where the downward walk starts. */
  method WalkUp(args: FillArgs, proc: array<Byte>, color: seq<Byte>, p: Point) returns (y: int)
    requires args.Valid() && proc.Length == args.w * args.h && color == args.RefColor()
    requires args.InBounds(p)
    ensures 0 <= y <= p.y
    ensures y > 0 ==> !args.Qualifies(proc[..], Point(p.x, y - 1))
    ensures forall k | y <= k < p.y :: args.Qualifies(proc[..], Point(p.x, k))
    ensures Pending(args, proc[..], p, y)
  {
    var x := p.x;
    y := p.y;
    while y > 0 && proc[args.Cell(Point(x, y - 1))] == 0
                && args.deltaE(GetPoint(args.ref, x, y - 1, args.w, 4), color) < args.fuzz
      invariant UpInv(args, proc[..], p, y)
      decreases y
    {
      UpStep(args, proc[..], p, y);
      y := y - 1;
    }
  }

  /** The upward walk at row y: the rows it passed qualify. */
  ghost predicate UpInv(args: FillArgs, m: seq<Byte>, p: Point, y: int)
  {
    && 0 <= y <= p.y
    && (forall k | y <= k < p.y :: args.Qualifies(m, Point(p.x, k)))
    && Pending(args, m, p, y)
  }

  /** One step of the upward walk: the pixel above row y qualifies, so the run of
      qualifying pixels grows by one row. */
  lemma UpStep(args: FillArgs, m: seq<Byte>, p: Point, y: int)
    requires args.Valid() && |m| == args.w * args.h && args.InBounds(p) && 0 < y <= p.y
    requires m[args.Cell(Point(p.x, y - 1))] == 0
    requires args.deltaE(GetPoint(args.ref, p.x, y - 1, args.w, 4), args.RefColor()) < args.fuzz
    requires UpInv(args, m, p, y)
    ensures UpInv(args, m, p, y - 1)
  {
    assert args.Qualifies(m, Point(p.x, y - 1));
  }

  /** `fill`, lines 226-228 and 231-233: push neighbour q when it is unmarked and
      similar. */
  method PushIfQualifies(args: FillArgs, proc: array<Byte>, color: seq<Byte>, stack: seq<Point>, q: Point)
    returns (pixelStack: seq<Point>)
    requires args.Valid() && proc.Length == args.w * args.h && color == args.RefColor()
    requires args.InBounds(q)
    ensures pixelStack == stack + PushIf(args, proc[..], q)
  {
    pixelStack := stack;
    if proc[args.Cell(q)] == 0 && args.deltaE(GetPoint(args.ref, q.x, q.y, args.w, 4), color) < args.fuzz {
      pixelStack := pixelStack + [q];
    }
  }

  /** `fill`, lines 225-235: the pixel (p.x, y) qualifies; push its qualifying
      left and right neighbours, then set its flag. */
  method MarkAndPush(args: FillArgs, proc: array<Byte>, color: seq<Byte>, stack: seq<Point>, p: Point, y: int)
    returns (pixelStack: seq<Point>)
    requires args.Valid() && proc.Length == args.w * args.h && color == args.RefColor()
    requires args.InBounds(Point(p.x, y)) && args.Qualifies(proc[..], Point(p.x, y))
    modifies proc
    ensures proc[..] == old(proc[..])[args.Cell(Point(p.x, y)) := 1]
    ensures pixelStack == stack + PushIf(args, old(proc[..]), Point(p.x - 1, y))
                                + PushIf(args, old(proc[..]), Point(p.x + 1, y))
  {
    var x := p.x;
    ghost var m := proc[..];
    pixelStack := stack;
    if x > 0 {
      pixelStack := PushIfQualifies(args, proc, color, pixelStack, Point(x - 1, y));
    } else {
      assert PushIf(args, m, Point(x - 1, y)) == [];
    }
    ghost var mid := pixelStack;
    if x < args.w - 1 {
      pixelStack := PushIfQualifies(args, proc, color, pixelStack, Point(x + 1, y));
    } else {
      assert PushIf(args, m, Point(x + 1, y)) == [];
    }
    assert pixelStack == mid + PushIf(args, m, Point(x + 1, y));
    proc[args.Cell(Point(x, y))] := 1;
  }

  /** `fill`, lines 223-241: from row y of column p.x, mark each qualifying pixel and
      push its qualifying left and right neighbours, until a pixel does not qualify or
      the column ends. */
  method WalkDown(args: FillArgs, proc: array<Byte>, color: seq<Byte>, stack: seq<Point>, p: Point, y0: int)
    returns (pixelStack: seq<Point>)
    requires proc.Length == args.w * args.h && color == args.RefColor()
    requires DownInv(args, proc[..], stack, p, y0)
    modifies proc
    ensures StackInBounds(args, pixelStack) && Sound(args, proc[..])
    ensures args.ClosedExcept(proc[..], pixelStack, {})
    ensures args.Similar(p) ==> args.Marked(proc[..], p)
    ensures |pixelStack| >= |stack| && pixelStack[..|stack|] == stack
    ensures forall r | args.Marked(old(proc[..]), r) :: args.Marked(proc[..], r)
    ensures 2 * Unmarked(proc[..]) + |pixelStack| <= 2 * Unmarked(old(proc[..])) + |stack|
  {
    var w, h := args.w, args.h;
    var x, y := p.x, y0;
    ghost var m0 := proc[..];
    pixelStack := stack;
    while y < h
      invariant proc.Length == w * h
      invariant WalkInv(args, m0, stack, proc[..], pixelStack, p, y)
      decreases h - y
    {
      if proc[args.Cell(Point(x, y))] == 0 && args.deltaE(GetPoint(args.ref, x, y, w, 4), color) < args.fuzz {
        ghost var before, m := pixelStack, proc[..];
        pixelStack := MarkAndPush(args, proc, color, pixelStack, p, y);
        DownStep(args, m0, stack, m, proc[..], before, pixelStack, p, y);
      } else {
        break;
      }
      y := y + 1;
    }
    DownDone(args, proc[..], pixelStack, p, y);
  }

  /** The state of the downward walk, and what it has done since it started from
      flags m0 and stack stack0. */
  ghost predicate WalkInv(args: FillArgs, m0: seq<Byte>, stack0: seq<Point>, m: seq<Byte>, stack: seq<Point>, p: Point, y: int)
  {
    && DownInv(args, m, stack, p, y)
    && |stack| >= |stack0| && stack[..|stack0|] == stack0
    && (forall r | args.Marked(m0, r) :: args.Marked(m, r))
    && 2 * Unmarked(m) + |stack| <= 2 * Unmarked(m0) + |stack0|
  }

  /** One marking step of the downward walk, stated against the state the walk
      started from. */
  lemma DownStep(args: FillArgs, m0: seq<Byte>, stack0: seq<Point>, m: seq<Byte>, m': seq<Byte>,
                 stack: seq<Point>, stack': seq<Point>, p: Point, y: int)
    requires WalkInv(args, m0, stack0, m, stack, p, y) && y < args.h
    requires args.Qualifies(m, Point(p.x, y))
    requires m' == m[args.Cell(Point(p.x, y)) := 1]
    requires stack' == stack + PushIf(args, m, Point(p.x - 1, y)) + PushIf(args, m, Point(p.x + 1, y))
    ensures WalkInv(args, m0, stack0, m', stack', p, y + 1)
  {
    MarkStep(args, m, m', stack, stack', p, y);
    assert stack'[..|stack0|] == stack[..|stack0|];
  }

  /** Each similar corner seed is marked or still waiting at its place at the
      bottom of the stack. */
  ghost predicate SeedsPending(args: FillArgs, m: seq<Byte>, stack: seq<Point>)
  {
    forall i | 0 <= i < 4 :: args.Similar(args.Seeds()[i]) ==>
      args.Marked(m, args.Seeds()[i]) || (i < |stack| && stack[i] == args.Seeds()[i])
  }

  /** Processing the popped top p keeps the seeds accounted for. */
  lemma SeedsAfterPop(args: FillArgs, m: seq<Byte>, m': seq<Byte>, rest: seq<Point>, stack': seq<Point>, p: Point)
    requires SeedsPending(args, m, rest + [p])
    requires args.Similar(p) ==> args.Marked(m', p)
    requires forall r | args.Marked(m, r) :: args.Marked(m', r)
    requires |stack'| >= |rest| && stack'[..|rest|] == rest
    ensures SeedsPending(args, m', stack')
  {
    forall i | 0 <= i < 4 && args.Similar(args.Seeds()[i])
      ensures args.Marked(m', args.Seeds()[i]) || (i < |stack'| && stack'[i] == args.Seeds()[i])
    {
      if i < |rest| {
        assert stack'[i] == stack'[..|rest|][i];
      }
    }
  }

  /** What holds between rounds of the outer loop. */
  ghost predicate FloodInv(args: FillArgs, m: seq<Byte>, stack: seq<Point>)
  {
    && args.Valid() && |m| == args.w * args.h
    && StackInBounds(args, stack) && Sound(args, m)
    && args.ClosedExcept(m, stack, {})
    && SeedsPending(args, m, stack)
  }

  /** Before the first round: nothing is marked and the four corners are pushed. */
  lemma FloodStart(args: FillArgs, m: seq<Byte>)
    requires args.Valid() && |m| == args.w * args.h
    requires forall k | 0 <= k < |m| :: m[k] == 0
    ensures FloodInv(args, m, args.Seeds())
    ensures Unmarked(m) == args.w * args.h
  {
    UnmarkedAllZero(m);
    assert forall r :: !args.Marked(m, r);
  }

  /** After the last round the stack is empty and the fill has done its job. */
  lemma FloodEnd(args: FillArgs, m: seq<Byte>)
    requires FloodInv(args, m, [])
    ensures args.FillSpec(m)
  {
  }

  /** `fill`, lines 218-240: one round of the outer loop. Pops a point, walks up
      its column, then fills downward. */
  method PopAndFill(args: FillArgs, proc: array<Byte>, color: seq<Byte>, stack: seq<Point>)
    returns (pixelStack: seq<Point>)
    requires args.Valid() && proc.Length == args.w * args.h && color == args.RefColor()
    requires stack != [] && FloodInv(args, proc[..], stack)
    modifies proc
    ensures FloodInv(args, proc[..], pixelStack)
    ensures 2 * Unmarked(proc[..]) + |pixelStack| < 2 * Unmarked(old(proc[..])) + |stack|
  {
    var p := stack[|stack| - 1];
    PopKeepsClosure(args, proc[..], stack, p);
    pixelStack := stack[..|stack| - 1];
    assert stack == pixelStack + [p];
    ghost var rest, before := pixelStack, proc[..];
    var y := WalkUp(args, proc, color, p);
    UpDone(args, proc[..], pixelStack, p, y);
    pixelStack := WalkDown(args, proc, color, pixelStack, p, y);
    SeedsAfterPop(args, before, proc[..], rest, pixelStack, p);
  }

  /** `fill`, lines 218-241: the outer loop, popping and filling until the stack is
      empty. `pops` counts the rounds. */
  method Drain(args: FillArgs, proc: array<Byte>, color: seq<Byte>, stack: seq<Point>)
    returns (ghost pops: nat)
    requires args.Valid() && proc.Length == args.w * args.h && color == args.RefColor()
    requires FloodInv(args, proc[..], stack)
    modifies proc
    ensures FloodInv(args, proc[..], [])
    ensures pops <= 2 * Unmarked(old(proc[..])) + |stack|
  {
    var pixelStack := stack;
    ghost var bound := 2 * Unmarked(proc[..]) + |stack|;
    pops := 0;
    while |pixelStack| > 0
      invariant proc.Length == args.w * args.h
      invariant FloodInv(args, proc[..], pixelStack)
      invariant pops + 2 * Unmarked(proc[..]) + |pixelStack| <= bound
      decreases 2 * Unmarked(proc[..]) + |pixelStack|
    {
      pixelStack := PopAndFill(args, proc, color, pixelStack);
      pops := pops + 1;
    }
  }

  /** `new Uint8Array(n)`: a fresh buffer of n zero flags. */
  method NewFlags(n: nat) returns (proc: array<Byte>)
    ensures fresh(proc) && proc.Length == n
    ensures forall k | 0 <= k < n :: proc[k] == 0
  {
    proc := new Byte[n](_ => 0);
  }

  /** `fill`, lines 196-242: the flood fill over the flag buffer `proc`, seeded
      with the four corners and compared throughout with the colour of pixel (0, 0).
      Returns the final flags; `pops` counts the pops of the work stack. */
  method Flood(args: FillArgs) returns (marks: seq<Byte>, ghost pops: nat)
    requires args.Valid()
    ensures args.FillSpec(marks)
    ensures pops <= 4 + 2 * (args.w * args.h)
  {
    var n := args.w * args.h;
    var color := GetPoint(args.ref, 0, 0, args.w, 4);
    var proc := NewFlags(n);
    FloodStart(args, proc[..]);
    ghost var m0 := proc[..];
    assert 2 * Unmarked(m0) + |args.Seeds()| == 4 + 2 * n;
    pops := Drain(args, proc, color, args.Seeds());
    marks := proc[..];
    FloodEnd(args, marks);
  }

  /** A chain of edge-adjacent pixels, each similar to the reference colour after
      the first. */
  ghost predicate SimilarPath(args: FillArgs, path: seq<Point>)
  {
    forall i | 0 < i < |path| :: Adjacent(path[i - 1], path[i]) && args.Similar(path[i])
  }

  /** The fill is closed: a similar path that starts at a marked pixel is marked
      all the way to its end. */
  lemma {:induction false} PathMarked(args: FillArgs, m: seq<Byte>, path: seq<Point>)
    requires args.FillSpec(m)
    requires |path| > 0 && args.Marked(m, path[0]) && SimilarPath(args, path)
    ensures args.Marked(m, path[|path| - 1])
  {
    if |path| > 1 {
      var prefix := path[..|path| - 1];
      assert SimilarPath(args, prefix) by {
        forall i | 0 < i < |prefix|
          ensures Adjacent(prefix[i - 1], prefix[i]) && args.Similar(prefix[i])
        {
          assert prefix[i - 1] == path[i - 1] && prefix[i] == path[i];
        }
      }
      PathMarked(args, m, prefix);
      assert args.Owed(m, [], {}, path[|path| - 1]);
    }
  }

  /** Every pixel joined by a similar path to a similar corner ends up marked. */
  lemma ComponentMarked(args: FillArgs, m: seq<Byte>, i: int, path: seq<Point>)
    requires args.FillSpec(m) && 0 <= i < 4
    requires |path| > 0 && path[0] == args.Seeds()[i] && args.Similar(path[0])
    requires SimilarPath(args, path)
    ensures args.Marked(m, path[|path| - 1])
  {
    PathMarked(args, m, path);
  }

  /** Pixel (0, 0) is always marked when a colour is at distance 0 from itself and
      `fuzz` is positive: it is the first seed and is similar to itself. */
  lemma OriginMarked(args: FillArgs, m: seq<Byte>)
    requires args.Valid() && args.FillSpec(m)
    requires args.deltaE(args.RefColor(), args.RefColor()) == 0.0 && args.fuzz > 0.0
    ensures args.Marked(m, Point(0, 0))
  {
    assert args.Seeds()[0] == Point(0, 0);
  }

  /** An image of one colour is marked entirely, as long as a colour is at distance
      0 from itself and `fuzz` is positive. */
  lemma UniformAllMarked(args: FillArgs, m: seq<Byte>)
    requires args.Valid() && args.FillSpec(m)
    requires forall p | args.InBounds(p) :: GetPoint(args.ref, p.x, p.y, args.w, 4) == args.RefColor()
    requires args.deltaE(args.RefColor(), args.RefColor()) == 0.0 && args.fuzz > 0.0
    ensures forall p | args.InBounds(p) :: args.Marked(m, p)
  {
    forall p | args.InBounds(p)
      ensures args.Marked(m, p)
    {
      ColumnMarked(args, m, p.x, p.y);
    }
  }

  lemma {:induction false} RowMarked(args: FillArgs, m: seq<Byte>, x: nat)
    requires args.Valid() && args.FillSpec(m) && x < args.w
    requires forall p | args.InBounds(p) :: args.Similar(p)
    ensures args.Marked(m, Point(x, 0))
  {
    if x > 0 {
      RowMarked(args, m, x - 1);
      assert args.Owed(m, [], {}, Point(x, 0));
    } else {
      assert args.Seeds()[0] == Point(0, 0);
    }
  }

  lemma {:induction false} ColumnMarked(args: FillArgs, m: seq<Byte>, x: nat, y: nat)
    requires args.Valid() && args.FillSpec(m) && x < args.w && y < args.h
    requires forall p | args.InBounds(p) :: args.Similar(p)
    ensures args.Marked(m, Point(x, y))
  {
    if y > 0 {
      ColumnMarked(args, m, x, y - 1);
      assert args.Owed(m, [], {}, Point(x, y));
    } else {
      RowMarked(args, m, x);
    }
  }

  /** With a metric that is never negative and `fuzz <= 0`, nothing is similar, so
      nothing is marked, not even pixels equal to the reference colour. */
  lemma NothingMarkedWithoutFuzz(args: FillArgs, m: seq<Byte>)
    requires args.FillSpec(m) && args.fuzz <= 0.0
    requires forall a, b :: args.deltaE(a, b) >= 0.0
    ensures forall p :: !args.Marked(m, p)
  {
  }
}
