/** Bresenham line drawing in 32-bit integers. */
module Line {
  type i32 = x: int | -0x8000_0000 <= x < 0x8000_0000

  /** The largest coordinate difference for which no 32-bit operation of the loop overflows. */
  const MAX_DELTA := 0x2AAA_AAAB

  datatype Pixel = Pixel(x: int, y: int)

  function Abs(x: int): nat {
    if x < 0 then -x else x
  }

  function Max(a: nat, b: nat): nat {
    if a < b then b else a
  }

  /** The coordinate `n` pixels from `start` towards `end`. */
  function Along(start: int, end: int, n: nat): int {
    if start < end then start + n else start - n
  }

  /** From `p` the line moves to `q`: one pixel along the longer axis, at most one along the shorter, never away
      from the end point. */
  predicate Follows(p: Pixel, q: Pixel, from: Pixel, to: Pixel) {
    var a, b := Abs(to.x - from.x), Abs(to.y - from.y);
    && Abs(q.x - p.x) <= 1 && Abs(q.y - p.y) <= 1
    && (a >= b ==> q.x != p.x) && (b >= a ==> q.y != p.y)
    && Abs(to.x - q.x) + Abs(q.x - p.x) == Abs(to.x - p.x)
    && Abs(to.y - q.y) + Abs(q.y - p.y) == Abs(to.y - p.y)
  }

  /** The distance `d == a * j - b * i` from the ideal line is within half a pixel along the shorter axis; of two
      pixels equally near, the line takes the one further along it. */
  predicate HalfOpen(a: nat, b: nat, d: int) {
    if a >= b then a == 0 || 0 - a < 2 * d <= a else 0 - b <= 2 * d < b
  }

  /** After `i` steps in x and `j` in y. */
  ghost predicate Near(a: nat, b: nat, i: nat, j: nat) {
    HalfOpen(a, b, Times(a, j) - Times(b, i))
  }

  ghost predicate OnLine(p: Pixel, from: Pixel, to: Pixel) {
    Near(Abs(to.x - from.x), Abs(to.y - from.y), Abs(p.x - from.x), Abs(p.y - from.y))
  }

  method Line(x1: i32, y1: i32, x2: i32, y2: i32) returns (pixels: seq<Pixel>)
    requires Abs(x2 - x1) <= MAX_DELTA && Abs(y2 - y1) <= MAX_DELTA
    ensures |pixels| == Max(Abs(x2 - x1), Abs(y2 - y1)) + 1
    ensures pixels[0] == Pixel(x1, y1) && pixels[|pixels| - 1] == Pixel(x2, y2)
    ensures Traced(pixels, Pixel(x1, y1), Pixel(x2, y2))
  {
    var dx: i32, sx: i32 := Abs(x2 - x1), if x1 < x2 then 1 else -1;
    var dy: i32, sy: i32 := 0 - Abs(y2 - y1), if y1 < y2 then 1 else -1;
    var err: i32 := dx + dy;
    var x, y := x1, y1;
    pixels := [];
    ghost var from, to := Pixel(x1, y1), Pixel(x2, y2);
    ghost var i: nat, j: nat, d := 0, 0, 0;
    while true
      invariant Drawing(pixels, from, to, x, y, err, i, j, d)
      decreases Length(from, to) - |pixels|
    {
      DrawOne(pixels, from, to, x, y, err, i, j, d);
      pixels := pixels + [Pixel(x, y)];
      if x == x2 && y == y2 {
        break;
      }
      x, y, err, i, j, d := Iterate(dx, dy, sx, sy, x, y, err, from, to, i, j, d, |pixels| - 1);
    }
  }

  /** The loop invariant: the pixels so far, and the variables of the next one. */
  ghost predicate Drawing(pixels: seq<Pixel>, from: Pixel, to: Pixel, x: int, y: int, err: int, i: nat, j: nat, d: int) {
    && At(from, to, x, y, err, i, j, d, |pixels|)
    && Traced(pixels, from, to)
    && if pixels == [] then Pixel(x, y) == from else Follows(pixels[|pixels| - 1], Pixel(x, y), from, to)
  }

  lemma DrawOne(pixels: seq<Pixel>, from: Pixel, to: Pixel, x: int, y: int, err: int, i: nat, j: nat, d: int)
    requires Drawing(pixels, from, to, x, y, err, i, j, d)
    ensures var drawn := pixels + [Pixel(x, y)];
      && Traced(drawn, from, to) && drawn[0] == from && |pixels| <= Length(from, to)
      && (|pixels| == Length(from, to) <==> Pixel(x, y) == to)
  {
    AtEnd(from, to, x, y, err, i, j, d, |pixels|);
    TraceMore(pixels, Pixel(x, y), from, to);
  }

  method Iterate(dx: i32, dy: i32, sx: i32, sy: i32, x1: i32, y1: i32, err1: i32,
                 ghost from: Pixel, ghost to: Pixel, ghost i1: nat, ghost j1: nat, ghost d1: int, ghost k: nat)
    returns (x: i32, y: i32, err: i32, ghost i: nat, ghost j: nat, ghost d: int)
    requires InRange(from) && InRange(to) && dx == Width(from, to) <= MAX_DELTA && 0 - dy == Height(from, to) <= MAX_DELTA
    requires sx == Sign(from.x, to.x) && sy == Sign(from.y, to.y)
    requires At(from, to, x1, y1, err1, i1, j1, d1, k) && k < Length(from, to)
    ensures At(from, to, x, y, err, i, j, d, k + 1) && Follows(Pixel(x1, y1), Pixel(x, y), from, to)
  {
    ghost var inX, inY := 2 * err1 >= dy, 2 * err1 <= dx;
    NextAt(from, to, x1, y1, err1, i1, j1, d1, k, inX, inY);
    i, j := if inX then i1 + 1 else i1, if inY then j1 + 1 else j1;
    d := d1 - (if inX then Height(from, to) else 0) + (if inY then Width(from, to) else 0);
    x, y, err := Step(dx, dy, sx, sy, x1, y1, err1);
  }

  /** The two conditional moves of the loop body. */
  method Step(dx: i32, dy: i32, sx: i32, sy: i32, x1: i32, y1: i32, err1: i32) returns (x: i32, y: i32, err: i32)
    requires -0x8000_0000 <= 2 * err1 < 0x8000_0000 && 0 <= dx <= MAX_DELTA && -MAX_DELTA <= dy <= 0
    requires 2 * err1 >= dy ==> -0x8000_0000 <= x1 + sx < 0x8000_0000
    requires 2 * err1 <= dx ==> -0x8000_0000 <= y1 + sy < 0x8000_0000
    ensures x == x1 + if 2 * err1 >= dy then sx else 0
    ensures y == y1 + if 2 * err1 <= dx then sy else 0
    ensures err == NextError(dx, -dy, err1)
  {
    x, y, err := x1, y1, err1;
    var e2: i32 := 2 * err;
    if e2 >= dy {
      err := err + dy;
      x := x + sx;
    }
    if e2 <= dx {
      err := err + dx;
      y := y + sy;
    }
  }

  predicate InRange(p: Pixel) {
    -0x8000_0000 <= p.x < 0x8000_0000 && -0x8000_0000 <= p.y < 0x8000_0000
  }

  function Width(from: Pixel, to: Pixel): nat {
    Abs(to.x - from.x)
  }

  function Height(from: Pixel, to: Pixel): nat {
    Abs(to.y - from.y)
  }

  function Length(from: Pixel, to: Pixel): nat {
    Max(Width(from, to), Height(from, to))
  }

  /** The loop's variables after `k` pixels, `i` steps in x and `j` in y. */
  ghost predicate At(from: Pixel, to: Pixel, x: int, y: int, err: int, i: nat, j: nat, d: int, k: nat) {
    && x == Along(from.x, to.x, i) && y == Along(from.y, to.y, j)
    && err == Width(from, to) - Height(from, to) + d
    && Reached(Width(from, to), Height(from, to), i, j, d, k)
  }

  /** The pixels start at `from`, each follows the one before, and each is within half a pixel of the line. */
  ghost predicate Traced(pixels: seq<Pixel>, from: Pixel, to: Pixel) {
    && (pixels != [] ==> pixels[0] == from)
    && (forall k :: 0 <= k < |pixels| ==> OnLine(pixels[k], from, to))
    && (forall k :: 0 <= k < |pixels| - 1 ==> Follows(pixels[k], pixels[k + 1], from, to))
  }

  lemma TraceMore(pixels: seq<Pixel>, p: Pixel, from: Pixel, to: Pixel)
    requires Traced(pixels, from, to) && OnLine(p, from, to)
    requires if pixels == [] then p == from else Follows(pixels[|pixels| - 1], p, from, to)
    ensures Traced(pixels + [p], from, to)
  {
  }

  /** `a * n`, by repeated addition as the loop forms it. */
  function Times(a: nat, n: nat): nat {
    if n == 0 then 0 else Times(a, n - 1) + a
  }

  lemma {:induction false} TimesIsProduct(a: nat, n: nat)
    ensures Times(a, n) == a * n
  {
    if n > 0 {
      TimesIsProduct(a, n - 1);
      assert a * n == a * (n - 1) + a;
    }
  }

  /** In plain terms: the pixel is the nearest to the exact height `b * i / a` of the line, or `a * j / b` on a steep
      one, and halfway between two pixels it is the one further along the shorter axis. */
  lemma HalfPixel(p: Pixel, from: Pixel, to: Pixel)
    ensures var a, b := Width(from, to), Height(from, to);
      var i, j := Abs(p.x - from.x), Abs(p.y - from.y);
      OnLine(p, from, to) <==>
        if a >= b then a == 0 || 0 - a < 2 * (a * j - b * i) <= a else 0 - b <= 2 * (a * j - b * i) < b
    ensures var a, b := Width(from, to), Height(from, to);
      var i, j := Abs(p.x - from.x), Abs(p.y - from.y);
      OnLine(p, from, to) ==> 2 * Abs(a * j - b * i) <= Max(a, b)
  {
    TimesIsProduct(Width(from, to), Abs(p.y - from.y));
    TimesIsProduct(Height(from, to), Abs(p.x - from.x));
  }

  // ----- the pixels are determined

  /** In its column, or its row on a steep line, no other pixel is on the line. */
  lemma NearIsUnique(a: nat, b: nat, i: nat, j: nat, k: nat)
    requires Max(a, b) > 0
    ensures a >= b && Near(a, b, i, j) && Near(a, b, i, k) ==> j == k
    ensures a < b && Near(a, b, j, i) && Near(a, b, k, i) ==> j == k
  {
    TimesIsProduct(a, j);
    TimesIsProduct(a, k);
    TimesIsProduct(b, j);
    TimesIsProduct(b, k);
    WholeSteps(a, j, k);
    WholeSteps(b, j, k);
  }

  lemma WholeSteps(m: nat, j: nat, k: nat)
    ensures 0 - m < m * j - m * k < m ==> j == k
  {
    assert m * j - m * k == m * (j - k);
    if j > k {
      assert m * (j - k) == m + m * (j - k - 1);
    } else if k > j {
      assert m * (k - j) == m + m * (k - j - 1);
    }
  }

  /** The `k`-th pixel is `k` steps along the longer axis, towards the end point. */
  lemma {:induction false} LongSteps(pixels: seq<Pixel>, from: Pixel, to: Pixel, k: nat)
    requires Traced(pixels, from, to) && k < |pixels| <= Length(from, to) + 1
    ensures Width(from, to) >= Height(from, to) ==> pixels[k].x == Along(from.x, to.x, k)
    ensures Width(from, to) < Height(from, to) ==> pixels[k].y == Along(from.y, to.y, k)
  {
    if k > 0 {
      LongSteps(pixels, from, to, k - 1);
      assert Follows(pixels[k - 1], pixels[k], from, to);
    }
  }

  /** Along the shorter axis it lies on the same side of the start as the end point. */
  lemma {:induction false} NoFurther(pixels: seq<Pixel>, from: Pixel, to: Pixel, k: nat)
    requires Traced(pixels, from, to) && k < |pixels|
    ensures Between(from.x, pixels[k].x, to.x) && Between(from.y, pixels[k].y, to.y)
  {
    if k > 0 {
      NoFurther(pixels, from, to, k - 1);
      assert Follows(pixels[k - 1], pixels[k], from, to);
    }
  }

  /** So what the line draws is determined: any two pixel sequences of its length with its properties are equal. */
  lemma TraceIsUnique(p: seq<Pixel>, q: seq<Pixel>, from: Pixel, to: Pixel)
    requires Traced(p, from, to) && Traced(q, from, to) && |p| == |q| == Length(from, to) + 1
    ensures p == q
  {
    forall k | 0 <= k < |p|
      ensures p[k] == q[k]
    {
      LongSteps(p, from, to, k);
      LongSteps(q, from, to, k);
      NoFurther(p, from, to, k);
      NoFurther(q, from, to, k);
      SamePixel(p[k], q[k], from, to);
    }
  }

  lemma SamePixel(p: Pixel, q: Pixel, from: Pixel, to: Pixel)
    requires OnLine(p, from, to) && OnLine(q, from, to)
    requires Between(from.x, p.x, to.x) && Between(from.x, q.x, to.x)
    requires Between(from.y, p.y, to.y) && Between(from.y, q.y, to.y)
    requires if Width(from, to) >= Height(from, to) then p.x == q.x else p.y == q.y
    ensures p == q
  {
    if Length(from, to) > 0 {
      if Width(from, to) >= Height(from, to) {
        NearIsUnique(Width(from, to), Height(from, to), Abs(p.x - from.x), Abs(p.y - from.y), Abs(q.y - from.y));
      } else {
        NearIsUnique(Width(from, to), Height(from, to), Abs(p.y - from.y), Abs(p.x - from.x), Abs(q.x - from.x));
      }
    }
  }

  /** The distance from the line, `a * j - b * i`. */
  ghost predicate IsError(a: nat, b: nat, i: nat, j: nat, d: int) {
    d == Times(a, j) - Times(b, i)
  }

  /** The distance stays within half the longer side; the steps along that side count the pixels. */
  ghost predicate Reached(a: nat, b: nat, i: nat, j: nat, d: int, k: nat) {
    && i <= a && j <= b && k <= Max(a, b)
    && (a >= b ==> i == k) && (b >= a ==> j == k)
    && IsError(a, b, i, j, d) && HalfOpen(a, b, d)
  }

  /** The pixel reached is on the line, and it is the last one exactly when it is the end point. */
  lemma AtEnd(from: Pixel, to: Pixel, x: int, y: int, err: int, i: nat, j: nat, d: int, k: nat)
    requires At(from, to, x, y, err, i, j, d, k)
    ensures OnLine(Pixel(x, y), from, to)
    ensures k == Length(from, to) <==> x == to.x && y == to.y
  {
    NearAtEnd(Width(from, to), Height(from, to), i, j, d, k);
  }

  lemma NearAtEnd(a: nat, b: nat, i: nat, j: nat, d: int, k: nat)
    requires Reached(a, b, i, j, d, k)
    ensures Near(a, b, i, j)
    ensures k == Max(a, b) <==> i == a && j == b
  {
    if i == a {
      Behind(a, b, j);
    }
    if j == b {
      Behind(b, a, i);
    }
  }

  /** With one axis done and the other not, the distance is at least a whole side. */
  lemma Behind(m: nat, n: nat, k: nat)
    requires k <= n
    ensures k < n ==> Times(n, m) >= Times(m, k) + m
  {
    TimesIsProduct(n, m);
    TimesIsProduct(m, k);
    if k < n {
      LaterMultiple(m, k, n);
    }
  }

  lemma LaterMultiple(m: nat, k: nat, n: nat)
    requires k < n
    ensures n * m >= m * k + m
  {
    assert n * m == m * k + m * (n - k);
    assert m * (n - k) == m + m * (n - k - 1);
  }

  /** Twice the error term stays within three times the longer side, less two for a side of at least two. */
  predicate SmallError(m: nat, err: int) {
    && -3 * m <= 2 * err <= 3 * m
    && (m >= 2 ==> 2 - 3 * m <= 2 * err <= 3 * m - 2)
  }

  lemma ZeroSide(a: nat, b: nat, i: nat, j: nat, d: int)
    requires IsError(a, b, i, j, d) && i <= a && j <= b
    ensures a == 0 || b == 0 ==> d == 0
  {
    TimesIsProduct(a, j);
    TimesIsProduct(b, i);
  }

  /** Before the end: the longer axis steps, the shorter one never past its end, and the error stays small. */
  lemma NextStep(a: nat, b: nat, i: nat, j: nat, d: int, k: nat, inX: bool, inY: bool)
    requires Reached(a, b, i, j, d, k) && k < Max(a, b)
    requires inX == (2 * (a - b + d) + b >= 0) && inY == (2 * (a - b + d) <= a)
    ensures Reached(a, b, if inX then i + 1 else i, if inY then j + 1 else j,
                    d - (if inX then b else 0) + (if inY then a else 0), k + 1)
    ensures (a >= b ==> inX) && (b >= a ==> inY)
    ensures SmallError(Max(a, b), a - b + d)
  {
    MovedError(a, b, i, j, d);
    ZeroSide(a, b, i, j, d);
    if i == a {
      Behind(a, b, j);
    }
    if j == b {
      Behind(b, a, i);
    }
  }

  /** One iteration of the loop, away from the end. */
  lemma NextAt(from: Pixel, to: Pixel, x: int, y: int, err: int, i: nat, j: nat, d: int, k: nat, inX: bool, inY: bool)
    requires At(from, to, x, y, err, i, j, d, k) && k < Length(from, to)
    requires inX == (2 * err + Height(from, to) >= 0) && inY == (2 * err <= Width(from, to))
    ensures var a, b := Width(from, to), Height(from, to);
      var x', y' := x + (if !inX then 0 else Sign(from.x, to.x)), y + (if !inY then 0 else Sign(from.y, to.y));
      && At(from, to, x', y', NextError(a, b, err), if inX then i + 1 else i, if inY then j + 1 else j,
            d - (if inX then b else 0) + (if inY then a else 0), k + 1)
      && Follows(Pixel(x, y), Pixel(x', y'), from, to)
      && (inX ==> Between(from.x, x', to.x)) && (inY ==> Between(from.y, y', to.y))
    ensures Length(from, to) <= MAX_DELTA ==> -0x8000_0000 <= 2 * err < 0x8000_0000
  {
    NextStep(Width(from, to), Height(from, to), i, j, d, k, inX, inY);
    NextFollows(from, to, x, y, i, j, inX, inY);
  }

  lemma NextFollows(from: Pixel, to: Pixel, x: int, y: int, i: nat, j: nat, inX: bool, inY: bool)
    requires x == Along(from.x, to.x, i) && y == Along(from.y, to.y, j)
    requires i <= Width(from, to) && (inX ==> i < Width(from, to))
    requires j <= Height(from, to) && (inY ==> j < Height(from, to))
    requires (Width(from, to) >= Height(from, to) ==> inX) && (Height(from, to) >= Width(from, to) ==> inY)
    ensures var x', y' := x + (if !inX then 0 else Sign(from.x, to.x)), y + (if !inY then 0 else Sign(from.y, to.y));
      && x' == Along(from.x, to.x, if inX then i + 1 else i) && y' == Along(from.y, to.y, if inY then j + 1 else j)
      && Follows(Pixel(x, y), Pixel(x', y'), from, to)
      && (inX ==> Between(from.x, x', to.x)) && (inY ==> Between(from.y, y', to.y))
  {
    AlongStep(from.x, to.x, i, inX);
    AlongStep(from.y, to.y, j, inY);
  }

  predicate Between(a: int, x: int, b: int) {
    a <= x <= b || b <= x <= a
  }

  function Sign(start: int, end: int): int {
    if start < end then 1 else -1
  }

  lemma MovedError(a: nat, b: nat, i: nat, j: nat, d: int)
    requires IsError(a, b, i, j, d)
    ensures IsError(a, b, i + 1, j, d - b) && IsError(a, b, i, j + 1, d + a) && IsError(a, b, i + 1, j + 1, d - b + a)
  {
  }

  lemma AlongStep(start: int, end: int, n: nat, more: bool)
    requires n <= Abs(end - start) && (more ==> n < Abs(end - start))
    ensures var now, next := Along(start, end, n), Along(start, end, if more then n + 1 else n);
      && next == now + (if !more then 0 else Sign(start, end)) && Between(start, next, end)
      && Abs(end - next) + Abs(next - now) == Abs(end - now)
      && Abs(next - now) == (if more then 1 else 0)
  {
  }

  // ----- how large a line may be

  /** The error term after one more pixel of a line `a` wide and `b` high, in unbounded integers. */
  function NextError(a: nat, b: nat, err: int): int {
    err - (if 2 * err + b >= 0 then b else 0) + (if 2 * err <= a then a else 0)
  }

  function ErrorAfter(a: nat, b: nat, k: nat): int {
    if k == 0 then a - b else NextError(a, b, ErrorAfter(a, b, k - 1))
  }

  /** No `2 * err` of the loop leaves the range of an `int`. */
  ghost predicate Fits(a: nat, b: nat) {
    forall k: nat :: k < Max(a, b) ==> -0x8000_0000 <= 2 * ErrorAfter(a, b, k) < 0x8000_0000
  }

  lemma {:induction false} ReachedAfter(a: nat, b: nat, k: nat) returns (i: nat, j: nat, d: int)
    requires k <= Max(a, b)
    ensures Reached(a, b, i, j, d, k) && ErrorAfter(a, b, k) == a - b + d
  {
    i, j, d := 0, 0, 0;
    if k > 0 {
      i, j, d := ReachedAfter(a, b, k - 1);
      var inX, inY := 2 * (a - b + d) + b >= 0, 2 * (a - b + d) <= a;
      NextStep(a, b, i, j, d, k - 1, inX, inY);
      i, j := if inX then i + 1 else i, if inY then j + 1 else j;
      d := d - (if inX then b else 0) + (if inY then a else 0);
    }
  }

  lemma FitsUpTo(a: nat, b: nat)
    requires a <= MAX_DELTA && b <= MAX_DELTA
    ensures Fits(a, b)
  {
    forall k: nat | k < Max(a, b)
      ensures -0x8000_0000 <= 2 * ErrorAfter(a, b, k) < 0x8000_0000
    {
      var i, j, d := ReachedAfter(a, b, k);
      NextStep(a, b, i, j, d, k, 2 * (a - b + d) + b >= 0, 2 * (a - b + d) <= a);
    }
  }

  lemma {:induction false} Descends(a: nat, k: nat)
    requires 2 * k < a
    ensures ErrorAfter(a, 1, k) == a - 1 - k
  {
    if k > 0 {
      Descends(a, k - 1);
    }
  }

  /** On a line of even width and height 1 the bound on the error is reached, halfway along. */
  lemma LargestError(a: nat)
    requires a >= 2 && a % 2 == 0
    ensures 2 * ErrorAfter(a, 1, a / 2) == 3 * a - 2
  {
    Descends(a, a / 2 - 1);
  }

  /** Lines of every size up to `m` fit exactly when `m` is at most `MAX_DELTA`: for one more, a line of
      width 0x2AAAAAAC and height 1 does not. */
  lemma LargestSize(m: nat)
    ensures (forall a: nat, b: nat :: a <= m && b <= m ==> Fits(a, b)) <==> m <= MAX_DELTA
  {
    if m <= MAX_DELTA {
      forall a: nat, b: nat | a <= m && b <= m
        ensures Fits(a, b)
      {
        FitsUpTo(a, b);
      }
    } else {
      var a := m / 2 * 2;
      LargestError(a);
      assert !Fits(a, 1);
    }
  }
}
