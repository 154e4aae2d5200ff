/** Measuring a still: two draws of one state against each other and against the bare mat. */
module Still {
  import opened Text

  const STILL_PAD: real := 16.0
  const STILL_MOVED: int := 8

  // ---- the frame

  datatype PxRect = PxRect(x0: real, y0: real, x1: real, y1: real)

  datatype StillFrame = StillFrame(width: real, height: real, atX: real, atY: real, box: PxRect, reach: PxRect)

  function Ceil(r: real): int {
    -((-r).Floor)
  }

  /** `stillFrame`; a reach that is not finite is None. */
  function FrameOf(w: real, h: real, reach: Option<real>, dpr: real): StillFrame {
    var r := if reach.Some? && reach.value > 0.0 then reach.value else 0.0;
    var pad := Ceil(r) as real + STILL_PAD;
    StillFrame(w + 2.0 * pad, h + 2.0 * pad, -w / 2.0, -h / 2.0,
               PxRect(pad * dpr, pad * dpr, (pad + w) * dpr, (pad + h) * dpr),
               PxRect((pad - r) * dpr, (pad - r) * dpr, (pad + w + r) * dpr, (pad + h + r) * dpr))
  }

  // ---- pixels

  /** A side of a still: a whole number that JavaScript holds exactly. */
  type Side = n: nat | ExactCount(n)

  datatype StillPixels = StillPixels(width: Side, height: Side, rgba: Bytes)

  /** Four bytes a pixel, rows without gaps. */
  predicate Tight(p: StillPixels) {
    |p.rgba| == 4 * (p.height * p.width)
  }

  predicate SameSize(a: StillPixels, b: StillPixels) {
    a.width == b.width && a.height == b.height && |a.rgba| == |b.rgba|
  }

  function ByteAt(p: StillPixels, x: nat, y: nat, c: nat): int {
    var i := (y * p.width + x) * 4 + c;
    if i < |p.rgba| then p.rgba[i] else -1
  }

  /** The two draws differ at a pixel. */
  predicate Differs(a: StillPixels, b: StillPixels, x: nat, y: nat) {
    exists c: nat | c < 4 :: ByteAt(a, x, y, c) != ByteAt(b, x, y, c)
  }

  function Distance(m: int, n: int): nat {
    if m < n then n - m else m - n
  }

  /** A colour channel is more than the tolerance off. */
  predicate Moved(a: StillPixels, bare: StillPixels, x: nat, y: nat) {
    exists c: nat | c < 3 :: Distance(ByteAt(a, x, y, c), ByteAt(bare, x, y, c)) > STILL_MOVED
  }

  predicate InBox(f: StillFrame, x: nat, y: nat) {
    var cx, cy := x as real + 0.5, y as real + 0.5;
    f.box.x0 <= cx < f.box.x1 && f.box.y0 <= cy < f.box.y1
  }

  predicate Beyond(f: StillFrame, x: nat, y: nat) {
    var cx, cy := x as real + 0.5, y as real + 0.5;
    cx < f.reach.x0 - 1.0 || cx >= f.reach.x1 + 1.0 || cy < f.reach.y0 - 1.0 || cy >= f.reach.y1 + 1.0
  }

  type Picker = (nat, nat) -> bool

  function Differing(a: StillPixels, b: StillPixels): Picker { (x: nat, y: nat) => Differs(a, b, x, y) }

  function Boxed(f: StillFrame): Picker { (x: nat, y: nat) => InBox(f, x, y) }

  function BoxedMoved(a: StillPixels, bare: StillPixels, f: StillFrame): Picker {
    (x: nat, y: nat) => InBox(f, x, y) && Moved(a, bare, x, y)
  }

  function Outside(f: StillFrame): Picker { (x: nat, y: nat) => Beyond(f, x, y) }

  function OutsideMoved(a: StillPixels, bare: StillPixels, f: StillFrame): Picker {
    (x: nat, y: nat) => Beyond(f, x, y) && Moved(a, bare, x, y)
  }

  // ---- the specification: sizes of pixel sets

  type Pixels = set<(nat, nat)>

  /** The pixels of a `w` by `h` still that `p` picks. */
  function Where(w: nat, h: nat, p: Picker): Pixels {
    set x: nat, y: nat | x < w && y < h && p(x, y) :: (x, y)
  }

  /** Those of them in the rows above `y`, and in row `y` left of `x`. */
  function Earlier(w: nat, p: Picker, x: nat, y: nat): Pixels {
    set u: nat, v: nat | u < w && v <= y && (v < y || u < x) && p(u, v) :: (u, v)
  }

  lemma EarlierStep(w: nat, p: Picker, x: nat, y: nat)
    requires x < w
    ensures |Earlier(w, p, x + 1, y)| == |Earlier(w, p, x, y)| + if p(x, y) then 1 else 0
  {
    if p(x, y) {
      assert Earlier(w, p, x + 1, y) == Earlier(w, p, x, y) + {(x, y)};
    } else {
      assert Earlier(w, p, x + 1, y) == Earlier(w, p, x, y);
    }
  }

  lemma EarlierRow(w: nat, p: Picker, y: nat)
    ensures Earlier(w, p, w, y) == Earlier(w, p, 0, y + 1)
    ensures Earlier(w, p, 0, 0) == {}
  {
  }

  lemma EarlierAll(w: nat, h: nat, p: Picker)
    ensures Earlier(w, p, 0, h) == Where(w, h, p)
  {
  }

  datatype StillMeasure = StillMeasure(unsteady: nat, box: nat, drawn: nat, beyond: nat, past: nat)

  /** What the pixels say: counts of pixel sets, where the sizes can be compared at all. */
  function Measured(a: StillPixels, b: StillPixels, bare: StillPixels, f: StillFrame): StillMeasure {
    var w, h := a.width, a.height;
    var unsteady := if SameSize(a, b) then |Where(w, h, Differing(a, b))| else w * h;
    if !SameSize(a, bare) then StillMeasure(unsteady, 0, 0, 0, 0)
    else
      StillMeasure(unsteady,
                   |Where(w, h, Boxed(f))|,
                   |Where(w, h, BoxedMoved(a, bare, f))|,
                   |Where(w, h, Outside(f))|,
                   |Where(w, h, OutsideMoved(a, bare, f))|)
  }

  /** The pixels a counter has counted, were it counting `p` only while `on`. */
  ghost predicate Counts(n: nat, on: bool, w: nat, p: Picker, x: nat, y: nat) {
    n == if on then |Earlier(w, p, x, y)| else 0
  }

  lemma CountsStep(n: nat, on: bool, w: nat, p: Picker, x: nat, y: nat)
    requires x < w && Counts(n, on, w, p, x, y)
    ensures Counts(if on && p(x, y) then n + 1 else n, on, w, p, x + 1, y)
  {
    EarlierStep(w, p, x, y);
  }

  lemma CountsRow(n: nat, on: bool, w: nat, p: Picker, y: nat)
    requires Counts(n, on, w, p, w, y)
    ensures Counts(n, on, w, p, 0, y + 1)
  {
    EarlierRow(w, p, y);
  }

  lemma CountsStart(on: bool, w: nat, p: Picker)
    ensures Counts(0, on, w, p, 0, 0)
  {
    EarlierRow(w, p, 0);
  }

  lemma CountsAll(n: nat, on: bool, w: nat, h: nat, p: Picker)
    requires Counts(n, on, w, p, 0, h)
    ensures n == if on then |Where(w, h, p)| else 0
  {
    EarlierAll(w, h, p);
  }

  /** `measureStill`. */
  method MeasureStill(a: StillPixels, b: StillPixels, bare: StillPixels, f: StillFrame) returns (m: StillMeasure)
    ensures m == Measured(a, b, bare, f)
  {
    hide Differs, Moved, InBox, Beyond, Counts, Where, Earlier;
    var unsteady, box, drawn, beyond, past := 0, 0, 0, 0, 0;
    var w: nat, h: nat := a.width, a.height;
    var steadyComparable, bareComparable := SameSize(a, b), SameSize(a, bare);
    ghost var differs, inBox, inBoxMoved := Differing(a, b), Boxed(f), BoxedMoved(a, bare, f);
    ghost var out, outMoved := Outside(f), OutsideMoved(a, bare, f);
    CountsStart(steadyComparable, w, differs);
    CountsStart(bareComparable, w, inBox);
    CountsStart(bareComparable, w, inBoxMoved);
    CountsStart(bareComparable, w, out);
    CountsStart(bareComparable, w, outMoved);
    for y := 0 to h
      invariant Counts(unsteady, steadyComparable, w, differs, 0, y)
      invariant Counts(box, bareComparable, w, inBox, 0, y) && Counts(drawn, bareComparable, w, inBoxMoved, 0, y)
      invariant Counts(beyond, bareComparable, w, out, 0, y) && Counts(past, bareComparable, w, outMoved, 0, y)
    {
      for x := 0 to w
        invariant Counts(unsteady, steadyComparable, w, differs, x, y)
        invariant Counts(box, bareComparable, w, inBox, x, y) && Counts(drawn, bareComparable, w, inBoxMoved, x, y)
        invariant Counts(beyond, bareComparable, w, out, x, y) && Counts(past, bareComparable, w, outMoved, x, y)
      {
        CountsStep(unsteady, steadyComparable, w, differs, x, y);
        CountsStep(box, bareComparable, w, inBox, x, y);
        CountsStep(drawn, bareComparable, w, inBoxMoved, x, y);
        CountsStep(beyond, bareComparable, w, out, x, y);
        CountsStep(past, bareComparable, w, outMoved, x, y);
        if steadyComparable && Differs(a, b, x, y) {
          unsteady := unsteady + 1;
        }
        if bareComparable {
          var moved := Moved(a, bare, x, y);
          if InBox(f, x, y) {
            box := box + 1;
            if moved {
              drawn := drawn + 1;
            }
          }
          if Beyond(f, x, y) {
            beyond := beyond + 1;
            if moved {
              past := past + 1;
            }
          }
        }
      }
      CountsRow(unsteady, steadyComparable, w, differs, y);
      CountsRow(box, bareComparable, w, inBox, y);
      CountsRow(drawn, bareComparable, w, inBoxMoved, y);
      CountsRow(beyond, bareComparable, w, out, y);
      CountsRow(past, bareComparable, w, outMoved, y);
    }
    CountsAll(unsteady, steadyComparable, w, h, differs);
    CountsAll(box, bareComparable, w, h, inBox);
    CountsAll(drawn, bareComparable, w, h, inBoxMoved);
    CountsAll(beyond, bareComparable, w, h, out);
    CountsAll(past, bareComparable, w, h, outMoved);
    if !steadyComparable {
      unsteady := w * h;
    }
    return StillMeasure(unsteady, box, drawn, beyond, past);
  }

  // ---- what the measure tells

  /** What is counted as drawn is in the box, and what is counted as past the reach is beyond it. */
  lemma MeasureWithin(a: StillPixels, b: StillPixels, bare: StillPixels, f: StillFrame)
    ensures var m := Measured(a, b, bare, f); m.drawn <= m.box && m.past <= m.beyond
  {
    hide Moved, InBox, Beyond;
    var w, h := a.width, a.height;
    SubsetSize(Where(w, h, BoxedMoved(a, bare, f)), Where(w, h, Boxed(f)));
    SubsetSize(Where(w, h, OutsideMoved(a, bare, f)), Where(w, h, Outside(f)));
  }

  lemma TimesMonotonic(m: nat, n: nat, k: nat)
    requires m <= n
    ensures m * k <= n * k
  {
  }

  lemma QuotientBelow(p: nat, w: nat, h: nat)
    requires p < h * w
    ensures w > 0 && p / w < h
  {
    if w > 0 && p / w >= h {
      TimesMonotonic(h, p / w, w);
    }
  }

  lemma PixelOfByte(w: nat, h: nat, k: nat) returns (x: nat, y: nat, c: nat)
    requires k < 4 * (h * w)
    ensures x < w && y < h && c < 4 && (y * w + x) * 4 + c == k
  {
    c := k % 4;
    var p := k / 4;
    QuotientBelow(p, w, h);
    x, y := p % w, p / w;
    assert p == w * y + x;
  }

  /** No pixel is unsteady exactly when the draws are identical, or the still is empty and the sizes cannot be compared. */
  lemma SteadyExact(a: StillPixels, b: StillPixels, bare: StillPixels, f: StillFrame)
    requires Tight(a) && Tight(b)
    ensures Measured(a, b, bare, f).unsteady == 0 <==> a == b || (!SameSize(a, b) && a.width * a.height == 0)
  {
    var s := Where(a.width, a.height, Differing(a, b));
    if a == b {
      assert s == {};
    }
    if SameSize(a, b) && |s| == 0 {
      forall k | 0 <= k < |a.rgba| ensures a.rgba[k] == b.rgba[k] {
        var x, y, c := PixelOfByte(a.width, a.height, k);
        assert (x, y) !in s;
        assert !Differs(a, b, x, y);
        assert ByteAt(a, x, y, c) == ByteAt(b, x, y, c);
      }
      assert a.rgba == b.rgba;
    }
  }

  /** The gap the documentation does not mention: an empty still passes as steady against a draw of another size. */
  lemma EmptyStillPassesAsSteady(f: StillFrame)
    ensures var a, b := StillPixels(0, 0, []), StillPixels(1, 1, [0, 0, 0, 0]);
      a != b && Measured(a, b, a, f).unsteady == 0
  {
    var a, b := StillPixels(0, 0, []), StillPixels(1, 1, [0, 0, 0, 0]);
    assert 0 * 0 == 0;
    assert !SameSize(a, b);
  }

  /** A rectangle within another. */
  predicate Within(inner: PxRect, outer: PxRect) {
    outer.x0 <= inner.x0 && outer.y0 <= inner.y0 && inner.x1 <= outer.x1 && inner.y1 <= outer.y1
  }

  lemma Scaled(k: real, a: real, b: real)
    requires k >= 0.0 && a <= b
    ensures a * k <= b * k
  {
    assert (b - a) * k >= 0.0;
  }

  /** A frame holds its reach with the pad to spare, the reach holds the box, the box is the object's size and stands in
      the middle, and the object is centred on the origin. */
  lemma FrameExact(w: real, h: real, reach: Option<real>, dpr: real)
    requires dpr >= 0.0
    ensures var f := FrameOf(w, h, reach, dpr);
      && Within(f.box, f.reach)
      && Within(f.reach, PxRect(STILL_PAD * dpr, STILL_PAD * dpr, (f.width - STILL_PAD) * dpr, (f.height - STILL_PAD) * dpr))
      && f.box.x1 - f.box.x0 == w * dpr && f.box.y1 - f.box.y0 == h * dpr
      && f.box.x0 + f.box.x1 == f.width * dpr && f.box.y0 + f.box.y1 == f.height * dpr
      && 2.0 * f.atX + w == 0.0 && 2.0 * f.atY + h == 0.0
  {
    var r := if reach.Some? && reach.value > 0.0 then reach.value else 0.0;
    var c := Ceil(r) as real;
    var pad := c + STILL_PAD;
    Scaled(dpr, 0.0, r);
    Scaled(dpr, r, c);
    assert (pad - r) * dpr == pad * dpr - r * dpr;
    assert (pad + w) * dpr == pad * dpr + w * dpr && (pad + h) * dpr == pad * dpr + h * dpr;
    assert (pad + w + r) * dpr == pad * dpr + w * dpr + r * dpr && (pad + h + r) * dpr == pad * dpr + h * dpr + r * dpr;
    assert (w + 2.0 * pad) * dpr == w * dpr + 2.0 * (pad * dpr) && (h + 2.0 * pad) * dpr == h * dpr + 2.0 * (pad * dpr);
    assert (w + 2.0 * pad - STILL_PAD) * dpr == w * dpr + 2.0 * (pad * dpr) - STILL_PAD * dpr;
    assert (h + 2.0 * pad - STILL_PAD) * dpr == h * dpr + 2.0 * (pad * dpr) - STILL_PAD * dpr;
    assert pad * dpr == c * dpr + STILL_PAD * dpr;
  }

  /** In a frame of `stillFrame` no pixel is both in the box and beyond the reach. */
  lemma FrameApart(w: real, h: real, reach: Option<real>, dpr: real, x: nat, y: nat)
    requires dpr >= 0.0
    ensures !(InBox(FrameOf(w, h, reach, dpr), x, y) && Beyond(FrameOf(w, h, reach, dpr), x, y))
  {
    var r := if reach.Some? && reach.value > 0.0 then reach.value else 0.0;
    var pad := Ceil(r) as real + STILL_PAD;
    assert (pad - r) * dpr == pad * dpr - r * dpr;
    assert (pad + w + r) * dpr == (pad + w) * dpr + r * dpr;
    assert (pad + h + r) * dpr == (pad + h) * dpr + r * dpr;
    assert r * dpr >= 0.0;
  }

  // ---- how many pixels a box holds

  function Clamped(k: int, n: nat): nat {
    if k < 0 then 0 else if k > n then n else k
  }

  /** The first of `n` pixels in a row with its centre from `r` on. */
  function First(r: real, n: nat): nat {
    Clamped(Ceil(r - 0.5), n)
  }

  /** How many of the first `n` pixels of a row have their centres from `lo` on and before `hi`. */
  function Span(lo: real, hi: real, n: nat): nat {
    if First(lo, n) < First(hi, n) then First(hi, n) - First(lo, n) else 0
  }

  lemma FirstIn(r: real, n: nat)
    ensures First(r, n) <= n
  {
  }

  lemma CentreFrom(x: nat, n: nat, r: real)
    requires x < n
    ensures x as real + 0.5 >= r <==> x >= First(r, n)
  {
    assert x >= Ceil(r - 0.5) <==> x as real >= r - 0.5;
  }

  function Interval(lo: nat, hi: nat): (s: set<nat>)
    ensures |s| == if lo < hi then hi - lo else 0
    ensures forall x: nat :: x in s <==> lo <= x < hi
  {
    if hi <= lo then {} else Interval(lo, hi - 1) + {hi - 1}
  }

  function Grid(xs: set<nat>, ys: set<nat>): Pixels {
    set x, y | x in xs && y in ys :: (x, y)
  }

  lemma {:induction false} ColumnSize(x: nat, ys: set<nat>)
    ensures |Grid({x}, ys)| == |ys|
  {
    if ys == {} {
      assert Grid({x}, ys) == {};
    } else {
      var y :| y in ys;
      ColumnSize(x, ys - {y});
      assert Grid({x}, ys) == Grid({x}, ys - {y}) + {(x, y)};
    }
  }

  lemma GridSplit(xs: set<nat>, x: nat, ys: set<nat>)
    requires x in xs
    ensures |Grid(xs, ys)| == |Grid(xs - {x}, ys)| + |Grid({x}, ys)|
  {
    var rest, column := Grid(xs - {x}, ys), Grid({x}, ys);
    assert Grid(xs, ys) == rest + column && rest !! column;
  }

  lemma OneMore(m: nat, n: nat)
    ensures m * n + n == (m + 1) * n
  {
  }

  lemma {:induction false} GridSize(xs: set<nat>, ys: set<nat>)
    ensures |Grid(xs, ys)| == |xs| * |ys|
  {
    if xs == {} {
      assert Grid(xs, ys) == {};
    } else {
      hide Grid;
      var x :| x in xs;
      GridSplit(xs, x, ys);
      GridSize(xs - {x}, ys);
      ColumnSize(x, ys);
      OneMore(|xs - {x}|, |ys|);
    }
  }

  /** Pixels picked by column and row. */
  lemma WhereGrid(w: nat, h: nat, p: Picker, xs: set<nat>, ys: set<nat>)
    requires (forall x | x in xs :: x < w) && (forall y | y in ys :: y < h)
    requires forall x: nat, y: nat | x < w && y < h :: p(x, y) <==> x in xs && y in ys
    ensures |Where(w, h, p)| == |xs| * |ys|
  {
    assert Where(w, h, p) == Grid(xs, ys);
    GridSize(xs, ys);
  }

  lemma WhereSame(w: nat, h: nat, p: Picker, q: Picker)
    requires forall x: nat, y: nat | x < w && y < h :: p(x, y) <==> q(x, y)
    ensures Where(w, h, p) == Where(w, h, q)
  {
  }

  /** Every pixel is picked or left. */
  lemma WhereSplit(w: nat, h: nat, p: Picker, q: Picker)
    requires forall x: nat, y: nat | x < w && y < h :: p(x, y) <==> !q(x, y)
    ensures |Where(w, h, p)| + |Where(w, h, q)| == w * h
  {
    var all := Where(w, h, (x: nat, y: nat) => true);
    var these, those := Where(w, h, p), Where(w, h, q);
    assert all == these + those && these !! those;
    WhereGrid(w, h, (x: nat, y: nat) => true, Interval(0, w), Interval(0, h));
  }

  /** The pixels with their centres in a rectangle. */
  function Centred(r: PxRect): Picker {
    (x: nat, y: nat) => r.x0 <= x as real + 0.5 < r.x1 && r.y0 <= y as real + 0.5 < r.y1
  }

  lemma CentredSize(w: nat, h: nat, r: PxRect)
    ensures |Where(w, h, Centred(r))| == Span(r.x0, r.x1, w) * Span(r.y0, r.y1, h)
  {
    hide First, Where;
    var xs, ys := Interval(First(r.x0, w), First(r.x1, w)), Interval(First(r.y0, h), First(r.y1, h));
    forall x: nat, y: nat | x < w && y < h ensures Centred(r)(x, y) <==> x in xs && y in ys {
      CentreFrom(x, w, r.x0);
      CentreFrom(x, w, r.x1);
      CentreFrom(y, h, r.y0);
      CentreFrom(y, h, r.y1);
    }
    FirstIn(r.x1, w);
    FirstIn(r.y1, h);
    WhereGrid(w, h, Centred(r), xs, ys);
  }

  /** A rectangle with `room` more on every side. */
  function Grown(r: PxRect, room: real): PxRect {
    PxRect(r.x0 - room, r.y0 - room, r.x1 + room, r.y1 + room)
  }

  /** Where the sizes can be compared, the box holds as many pixels as its sides say, and what is beyond is all but the reach
      with one pixel more on every side. */
  lemma BoxSize(a: StillPixels, b: StillPixels, bare: StillPixels, f: StillFrame)
    requires SameSize(a, bare)
    ensures var m, w, h := Measured(a, b, bare, f), a.width, a.height;
      && m.box == Span(f.box.x0, f.box.x1, w) * Span(f.box.y0, f.box.y1, h)
      && m.beyond == w * h - Span(f.reach.x0 - 1.0, f.reach.x1 + 1.0, w) * Span(f.reach.y0 - 1.0, f.reach.y1 + 1.0, h)
  {
    hide Span, Moved, Differs, Where;
    var w, h := a.width, a.height;
    var near := Grown(f.reach, 1.0);
    CentredSize(w, h, f.box);
    WhereSame(w, h, Boxed(f), Centred(f.box));
    CentredSize(w, h, near);
    WhereSplit(w, h, Outside(f), Centred(near));
  }

  lemma WholeSpan(lo: nat, size: nat, n: nat)
    requires lo + size <= n
    ensures Span(lo as real, (lo + size) as real, n) == size
  {
    assert Ceil(lo as real - 0.5) == lo && Ceil((lo + size) as real - 0.5) == lo + size;
  }

  lemma {:induction false} WholeTimes(m: nat, n: nat)
    ensures m as real * n as real == (m * n) as real
  {
    if m > 0 {
      WholeTimes(m - 1, n);
      OneMore(m - 1, n);
      assert m as real == (m - 1) as real + 1.0;
    }
  }

  lemma WholeSum(m: nat, n: nat, k: nat)
    ensures (m as real + n as real) * k as real == (m * k + n * k) as real
  {
    WholeTimes(m, k);
    WholeTimes(n, k);
  }

  lemma Twice(m: nat, n: nat)
    ensures 2 * m * n == 2 * (m * n)
  {
  }

  /** The frame's room around the object is a whole number. */
  lemma WholePad(w: real, h: real, reach: Option<real>, dpr: real) returns (pad: nat)
    ensures var f, p := FrameOf(w, h, reach, dpr), pad as real;
      && f.box == PxRect(p * dpr, p * dpr, (p + w) * dpr, (p + h) * dpr)
      && f.width == w + (2 * pad) as real && f.height == h + (2 * pad) as real
  {
    var r := if reach.Some? && reach.value > 0.0 then reach.value else 0.0;
    pad := Ceil(r) + 16;
    assert pad as real == Ceil(r) as real + STILL_PAD;
  }

  lemma WholeFrame(w: nat, h: nat, reach: Option<real>, dpr: nat) returns (edge: nat)
    ensures var f, k := FrameOf(w as real, h as real, reach, dpr as real), dpr as real;
      && f.box == PxRect(edge as real, edge as real, (edge + w * dpr) as real, (edge + h * dpr) as real)
      && f.width * k == (w * dpr + 2 * edge) as real && f.height * k == (h * dpr + 2 * edge) as real
  {
    hide FrameOf;
    var pad := WholePad(w as real, h as real, reach, dpr as real);
    edge := pad * dpr;
    WholeTimes(pad, dpr);
    WholeSum(pad, w, dpr);
    WholeSum(pad, h, dpr);
    WholeSum(w, 2 * pad, dpr);
    WholeSum(h, 2 * pad, dpr);
    Twice(pad, dpr);
  }

  /** Whole sizes at a whole pixel ratio, in a still that holds the frame: the box is the object's size in pixels. */
  lemma WholeBox(a: StillPixels, b: StillPixels, bare: StillPixels, w: nat, h: nat, reach: Option<real>, dpr: nat)
    requires SameSize(a, bare)
    requires var f := FrameOf(w as real, h as real, reach, dpr as real);
      a.width as real >= f.width * dpr as real && a.height as real >= f.height * dpr as real
    ensures Measured(a, b, bare, FrameOf(w as real, h as real, reach, dpr as real)).box == (w * dpr) * (h * dpr)
  {
    hide Span, Measured, FrameOf;
    var f := FrameOf(w as real, h as real, reach, dpr as real);
    var edge := WholeFrame(w, h, reach, dpr);
    BoxSize(a, b, bare, f);
    WholeSpan(edge, w * dpr, a.width);
    WholeSpan(edge, h * dpr, a.height);
  }

  // ---- what drawn and past say of the bytes

  predicate Near(m: byte, n: byte) {
    n - STILL_MOVED <= m <= n + STILL_MOVED
  }

  lemma PixelBytes(w: nat, h: nat, x: nat, y: nat)
    requires x < w && y < h
    ensures y * w + x < h * w
  {
    TimesMonotonic(y + 1, h, w);
  }

  /** The three colour bytes of a pixel are each at most the tolerance off the mat's. */
  predicate NearMat(a: StillPixels, bare: StillPixels, x: nat, y: nat)
    requires Tight(a) && Tight(bare) && SameSize(a, bare) && x < a.width && y < a.height
  {
    PixelBytes(a.width, a.height, x, y);
    var i := 4 * (y * a.width + x);
    Near(a.rgba[i], bare.rgba[i]) && Near(a.rgba[i + 1], bare.rgba[i + 1]) && Near(a.rgba[i + 2], bare.rgba[i + 2])
  }

  lemma NearIsStill(a: StillPixels, bare: StillPixels, x: nat, y: nat)
    requires Tight(a) && Tight(bare) && SameSize(a, bare) && x < a.width && y < a.height
    ensures Moved(a, bare, x, y) <==> !NearMat(a, bare, x, y)
  {
    PixelBytes(a.width, a.height, x, y);
    var one := Distance(ByteAt(a, x, y, 0), ByteAt(bare, x, y, 0));
    var two := Distance(ByteAt(a, x, y, 1), ByteAt(bare, x, y, 1));
    var three := Distance(ByteAt(a, x, y, 2), ByteAt(bare, x, y, 2));
    assert Moved(a, bare, x, y) <==> one > STILL_MOVED || two > STILL_MOVED || three > STILL_MOVED;
  }

  /** Nothing counts as drawn exactly when every pixel with its centre in the box is near the mat, and nothing as past the
      reach exactly when every pixel more than one off the reach is. */
  lemma BlankExact(a: StillPixels, b: StillPixels, bare: StillPixels, f: StillFrame)
    requires Tight(a) && Tight(bare) && SameSize(a, bare)
    ensures Measured(a, b, bare, f).drawn == 0 <==>
      forall x: nat, y: nat | x < a.width && y < a.height && Centred(f.box)(x, y) :: NearMat(a, bare, x, y)
    ensures Measured(a, b, bare, f).past == 0 <==>
      forall x: nat, y: nat | x < a.width && y < a.height && !Centred(Grown(f.reach, 1.0))(x, y) :: NearMat(a, bare, x, y)
  {
    hide Moved, NearMat, Differs;
    var w, h := a.width, a.height;
    var drawn, past := Where(w, h, BoxedMoved(a, bare, f)), Where(w, h, OutsideMoved(a, bare, f));
    forall x: nat, y: nat | x < w && y < h
      ensures (x, y) in drawn <==> Centred(f.box)(x, y) && !NearMat(a, bare, x, y)
      ensures (x, y) in past <==> !Centred(Grown(f.reach, 1.0))(x, y) && !NearMat(a, bare, x, y)
    {
      NearIsStill(a, bare, x, y);
    }
  }
}
