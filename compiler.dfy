/** `LEDSignCompiledProgram` of ledsign/core.py: renders a program frame by
    frame and packs the frames into the wire format. Every pixel slot keeps a
    cursor on the keypoint it is heading for; each frame it either reaches
    that keypoint (taking its colour and moving the cursor to the pixel's next
    keypoint) or ramps toward it. The frame's colours are then packed four
    pixels to a word, bit-plane transposed, and written as 12-byte groups; the
    header word `ctrl` and the checksum of the data complete the program. */
module Compiler {
  import opened Wrappers
  import opened Arith
  import opened Transpose
  import opened Timeline
  import opened Hardware
  import Crc
  import Parser

  // Integer helpers

  /** Python's `round` of the rational `num / den`: the nearest integer, a
      tie going to the even one. */
  function RoundHalfEven(num: int, den: nat): int
    requires den > 0
  {
    var q, m := num / den, num % den;
    if 2 * m < den then q
    else if 2 * m > den then q + 1
    else if q % 2 == 0 then q
    else q + 1
  }

  /** The rounded value is at most half a unit away, and it is even when
      exactly half a unit away. */
  lemma RoundNearest(num: int, den: nat)
    requires den > 0
    ensures var r := RoundHalfEven(num, den);
      -(den as int) <= 2 * (num - r * den) <= den &&
      ((2 * (num - r * den) == den || 2 * (num - r * den) == -(den as int)) ==> r % 2 == 0)
  {
    var q, m := num / den, num % den;
    assert num == q * den + m;
    assert (q + 1) * den == q * den + den;
  }

  function Pow2(k: nat): (p: nat)
    ensures p >= 1
  {
    if k == 0 then 1 else 2 * Pow2(k - 1)
  }

  /** Python's `|` on naturals, bit by bit. */
  function BitOr(a: nat, b: nat): nat
    decreases a + b
  {
    if a == 0 then b
    else if b == 0 then a
    else 2 * BitOr(a / 2, b / 2) + (if a % 2 == 1 || b % 2 == 1 then 1 else 0)
  }

  /** An OR of a value below `2^k` with a multiple of `2^k` is their sum. */
  lemma {:induction false} BitOrDisjoint(a: nat, b: nat, k: nat)
    requires a < Pow2(k) && b % Pow2(k) == 0
    ensures BitOr(a, b) == a + b
    decreases k
  {
    if a != 0 && b != 0 {
      var p := Pow2(k - 1);
      var m := b / (2 * p);
      assert b == m * (2 * p);
      DivModUnique(b, 2, m * p, 0);
      DivModUnique(m * p, p, m, 0);
      DivBelow(a, 2, p);
      BitOrDisjoint(a / 2, b / 2, k - 1);
    }
  }

  // Interpolation

  /** How far a pixel heading for `kp` has ramped by frame `i`, in units of
      `1 / kp.duration`: `max((i - kp.end + 1) / kp.duration + 1, 0)` scaled
      by the duration. */
  function Progress(kp: Keypoint, i: nat): nat
  {
    if i + 1 + kp.duration >= kp.end then i + 1 + kp.duration - kp.end else 0
  }

  /** `round(prev + t * (target - prev))` with `t == n / d`. */
  function Interpolate(prev: int, target: int, n: nat, d: nat): int
    requires d > 0
  {
    RoundHalfEven(prev * d + n * (target - prev), d)
  }

  /** The ramp starts at `prev`, ends at `target`, and in between stays
      within the two. */
  lemma InterpolateBounds(prev: int, target: int, n: nat, d: nat)
    requires d > 0
    ensures n == 0 ==> Interpolate(prev, target, n, d) == prev
    ensures n == d ==> Interpolate(prev, target, n, d) == target
    ensures n <= d && prev <= target ==> prev <= Interpolate(prev, target, n, d) <= target
    ensures n <= d && target <= prev ==> target <= Interpolate(prev, target, n, d) <= prev
  {
    if n == 0 {
      ScaledStart(prev, target, d);
      RoundExact(prev, d);
    } else if n == d {
      ScaledEnd(prev, target, d);
      RoundExact(target, d);
    } else if n < d {
      if prev <= target {
        ScaledBetween(prev, target, n, d);
        RoundWithin(prev * d + n * (target - prev), d, prev, target);
      } else {
        ScaledBetween(prev, target, n, d);
        RoundWithin(prev * d + n * (target - prev), d, target, prev);
      }
    }
  }

  lemma ScaledStart(prev: int, target: int, d: nat)
    ensures prev * d + 0 * (target - prev) == prev * d
  {
  }

  lemma ScaledEnd(prev: int, target: int, d: nat)
    ensures prev * d + d * (target - prev) == target * d
  {
  }

  /** The scaled ramp value lies between the scaled end points. */
  lemma ScaledBetween(prev: int, target: int, n: nat, d: nat)
    requires n <= d
    ensures prev <= target ==> prev * d <= prev * d + n * (target - prev) <= target * d
    ensures target <= prev ==> target * d <= prev * d + n * (target - prev) <= prev * d
  {
    if prev <= target {
      MulMonotone(n, d, target - prev);
      ScaledEnd(prev, target, d);
    } else {
      MulMonotone(n, d, prev - target);
      assert n * (target - prev) == -(n * (prev - target));
      assert d * (target - prev) == -(d * (prev - target));
      ScaledEnd(prev, target, d);
    }
  }

  /** Rounding a whole number gives it back. */
  lemma RoundExact(x: int, d: nat)
    requires d > 0
    ensures RoundHalfEven(x * d, d) == x
  {
    var r := RoundHalfEven(x * d, d);
    RoundNearest(x * d, d);
    var e := x * d - r * d;
    assert e == (x - r) * d;
    if x - r >= 1 {
      MulAtLeast(x - r, d);
    } else if x - r <= -1 {
      assert (r - x) * d == -e;
      MulAtLeast(r - x, d);
    }
  }

  /** Rounding a number between two whole numbers stays between them. */
  lemma RoundWithin(num: int, d: nat, lo: int, hi: int)
    requires d > 0 && lo * d <= num <= hi * d
    ensures lo <= RoundHalfEven(num, d) <= hi
  {
    var r := RoundHalfEven(num, d);
    RoundNearest(num, d);
    if r < lo {
      assert (lo - r) * d == lo * d - r * d;
      MulAtLeast(lo - r, d);
    } else if r > hi {
      assert (r - hi) * d == r * d - hi * d;
      MulAtLeast(r - hi, d);
    }
  }

  // Pixel cursors

  /** One channel's level. */
  type Level = x: nat | x < 0x100

  /** A keypoint's colour, and the colour a ramp starts from. */
  datatype Rgb = Rgb(r: Level, g: Level, b: Level)

  /** The channels a slot shows, as the integers Python computes them. A
      ramp toward a keypoint whose end has already passed extrapolates, and
      can leave 0..255. */
  datatype Shade = Shade(r: int, g: int, b: int)

  /** Channel `k` of a shade: 0 for red, 1 for green, 2 for blue. */
  function Channel(c: Shade, k: nat): int
  {
    if k == 0 then c.r else if k == 1 then c.g else c.b
  }

  /** A colour, shown as it is. */
  function ShadeOf(c: Rgb): Shade
  {
    Shade(c.r, c.g, c.b)
  }

  /** Every channel of a shade is a level. */
  predicate InRange(c: Shade)
  {
    0 <= c.r < 0x100 && 0 <= c.g < 0x100 && 0 <= c.b < 0x100
  }

  /** The colour of a keypoint's `rgb` value. */
  function RgbOf(v: nat): Rgb
  {
    Rgb(Parser.Red(v), Parser.Green(v), Parser.Blue(v))
  }

  /** `LEDSignCompilationPixel`: the colour shown, the colour the current ramp
      started from, the pixel mask of the slot, and the keypoint the slot is
      heading for (`None` once there is no further keypoint). */
  datatype Pixel = Pixel(colour: Shade, prev: Rgb, mask: set<nat>, kp: Option<Keypoint>)

  /** Why a compilation raises. */
  datatype CompileError =
    | ZeroDuration    // the ramp toward a keypoint of duration 0 divides by zero
    | WordOutOfRange  // a packed word is negative or needs more than 32 bits, which `struct.pack("<III")` refuses

  /** The ramp toward `kp` at frame `i`: every channel interpolated from the
      ramp's start toward the keypoint's colour. */
  function Ramp(p: Pixel, kp: Keypoint, i: nat): Result<Pixel, CompileError>
  {
    if kp.duration == 0 then Failure(ZeroDuration)
    else
      var n, target := Progress(kp, i), RgbOf(kp.rgb);
      var r := Interpolate(p.prev.r, target.r, n, kp.duration);
      var g := Interpolate(p.prev.g, target.g, n, kp.duration);
      var b := Interpolate(p.prev.b, target.b, n, kp.duration);
      Success(p.(colour := Shade(r, g, b)))
  }

  /** Reaching `kp`: its colour is shown and becomes the start of the next
      ramp, and the cursor moves to the next keypoint of the slot's pixels
      in key order. */
  function Reach(s: seq<Keypoint>, p: Pixel, kp: Keypoint): Pixel
  {
    var c := RgbOf(kp.rgb);
    p.(colour := ShadeOf(c), prev := c, kp := FirstFrom(s, Key(kp) + 1, p.mask))
  }

  /** One slot at frame `i` (the body of the `for j` loop). */
  function StepPixel(s: seq<Keypoint>, p: Pixel, i: nat): Result<Pixel, CompileError>
  {
    match p.kp
    case None => Success(p)
    case Some(kp) =>
      if kp.end <= i then
        var q := Reach(s, p, kp);
        match q.kp
        case None => Success(q)
        case Some(next) => Ramp(q, next, i)
      else Ramp(p, kp, i)
  }

  /** The first `n` slots stepped at frame `i`; the first failing slot, in
      slot order, raises. */
  function StepFirst(s: seq<Keypoint>, ps: seq<Pixel>, i: nat, n: nat): (r: Result<seq<Pixel>, CompileError>)
    requires n <= |ps|
    ensures r.Success? ==> |r.value| == n
  {
    if n == 0 then Success([])
    else match StepFirst(s, ps, i, n - 1)
      case Failure(e) => Failure(e)
      case Success(qs) =>
        match StepPixel(s, ps[n - 1], i)
        case Failure(e) => Failure(e)
        case Success(q) => Success(qs + [q])
  }

  /** Every slot stepped at frame `i`. */
  function StepPixels(s: seq<Keypoint>, ps: seq<Pixel>, i: nat): (r: Result<seq<Pixel>, CompileError>)
    ensures r.Success? ==> |r.value| == |ps|
  {
    StepFirst(s, ps, i, |ps|)
  }

  /** A frame succeeds exactly when every slot does, and then slot `j` holds
      what stepping slot `j` alone gives; it fails with the error of the
      first failing slot. */
  lemma {:induction false} StepFirstSpec(s: seq<Keypoint>, ps: seq<Pixel>, i: nat, n: nat)
    requires n <= |ps|
    ensures StepFirst(s, ps, i, n).Success? <==> forall j :: 0 <= j < n ==> StepPixel(s, ps[j], i).Success?
    ensures StepFirst(s, ps, i, n).Success? ==>
      forall j :: 0 <= j < n ==> StepFirst(s, ps, i, n).value[j] == StepPixel(s, ps[j], i).value
    ensures StepFirst(s, ps, i, n).Failure? ==>
      exists j :: 0 <= j < n && StepPixel(s, ps[j], i) == Failure(StepFirst(s, ps, i, n).error) &&
        forall j' :: 0 <= j' < j ==> StepPixel(s, ps[j'], i).Success?
  {
    if n > 0 {
      StepFirstSpec(s, ps, i, n - 1);
    }
  }

  // What a slot shows

  /** A ramp toward a keypoint that has not been reached succeeds; every
      channel lies between the ramp's start and the keypoint's colour, stays
      at the start until the ramp begins, and is the keypoint's colour in the
      frame before the keypoint ends. */
  lemma RampAhead(p: Pixel, kp: Keypoint, i: nat)
    requires kp.duration > 0 && i < kp.end
    ensures Ramp(p, kp, i).Success?
    ensures var c := Ramp(p, kp, i).value.colour; var t := RgbOf(kp.rgb);
      Between(p.prev.r, t.r, c.r) && Between(p.prev.g, t.g, c.g) && Between(p.prev.b, t.b, c.b)
    ensures i + 1 + kp.duration <= kp.end ==> Ramp(p, kp, i).value.colour == ShadeOf(p.prev)
    ensures i + 1 == kp.end ==> Ramp(p, kp, i).value.colour == ShadeOf(RgbOf(kp.rgb))
    ensures Ramp(p, kp, i).value.prev == p.prev && Ramp(p, kp, i).value.kp == p.kp
  {
    var n, t := Progress(kp, i), RgbOf(kp.rgb);
    assert n <= kp.duration;
    InterpolateBounds(p.prev.r, t.r, n, kp.duration);
    InterpolateBounds(p.prev.g, t.g, n, kp.duration);
    InterpolateBounds(p.prev.b, t.b, n, kp.duration);
  }

  /** `x` lies between `a` and `b`, whichever is larger. */
  predicate Between(a: Level, b: Level, x: int)
  {
    (a <= x <= b) || (b <= x <= a)
  }

  /** A ramp toward a keypoint whose end has passed extrapolates beyond its
      colour. From black toward full red, for a keypoint that ended with
      frame 1 after one frame of ramp, frame 1 shows red 510 (`t == 2`). */
  lemma RampOvershoots(p: Pixel)
    requires p.prev == Black
    ensures Ramp(p, Keypoint(0xff_0000, 1, 1, {0}, 1), 1) == Success(p.(colour := Shade(510, 0, 0)))
  {
    var kp := Keypoint(0xff_0000, 1, 1, {0}, 1);
    assert Progress(kp, 1) == 2;
    assert RgbOf(kp.rgb) == Rgb(255, 0, 0);
    assert Interpolate(0, 255, 2, 1) == RoundHalfEven(510, 1) == 510;
    assert Interpolate(0, 0, 2, 1) == RoundHalfEven(0, 1) == 0;
  }

  /** The slot's pixels have no two keypoints ending in the same frame. */
  predicate EndsDistinct(s: seq<Keypoint>, q: set<nat>)
  {
    forall a, b :: a in s && b in s && Matches(a, q) && Matches(b, q) && a.end == b.end ==> a == b
  }

  /** Every insertion index fits below the end field of the key. */
  predicate IndicesFit(s: seq<Keypoint>)
  {
    forall e :: e in s ==> e.index < IndexSpan
  }

  /** The keypoint a slot heads for before frame `i` is stepped: the first,
      in key order, of the slot's keypoints that ends at frame `i` or later. */
  function Cursor(s: seq<Keypoint>, q: set<nat>, i: nat): Option<Keypoint>
  {
    FirstFrom(s, i * IndexSpan, q)
  }

  /** Keys order keypoints by end frame first. */
  lemma KeyOfEnd(e: Keypoint, i: nat)
    requires e.index < IndexSpan
    ensures Key(e) >= i * IndexSpan <==> e.end >= i
  {
    if e.end >= i {
      MulMonotone(i, e.end, IndexSpan);
    } else {
      MulMonotone(e.end + 1, i, IndexSpan);
      assert (e.end + 1) * IndexSpan == e.end * IndexSpan + IndexSpan;
    }
  }

  /** How the cursor of a slot moves on: the keypoint it names ends at frame
      `i` or later; one that ends after frame `i` stays the cursor of frame
      `i + 1`, and when it ends at frame `i` the next keypoint of the slot in
      key order is the cursor of frame `i + 1`. */
  lemma CursorStep(s: seq<Keypoint>, q: set<nat>, i: nat)
    requires KeysIncreasing(s) && IndicesFit(s) && EndsDistinct(s, q)
    ensures Cursor(s, q, i).Some? ==>
      var kp := Cursor(s, q, i).value;
      kp in s && Matches(kp, q) && kp.end >= i
    ensures Cursor(s, q, i).None? || Cursor(s, q, i).value.end > i ==> Cursor(s, q, i + 1) == Cursor(s, q, i)
    ensures Cursor(s, q, i).Some? && Cursor(s, q, i).value.end <= i ==>
      FirstFrom(s, Key(Cursor(s, q, i).value) + 1, q) == Cursor(s, q, i + 1)
  {
    FirstFromIsLeast(s, i * IndexSpan, q);
    assert i * IndexSpan + IndexSpan == (i + 1) * IndexSpan;
    match Cursor(s, q, i)
    case None =>
      FirstFromRaise(s, i * IndexSpan, (i + 1) * IndexSpan, q);
    case Some(kp) =>
      KeyOfEnd(kp, i);
      if kp.end > i {
        KeyOfEnd(kp, i + 1);
        FirstFromRaise(s, i * IndexSpan, (i + 1) * IndexSpan, q);
      } else {
        forall e | e in s && Key(kp) + 1 <= Key(e) < (i + 1) * IndexSpan
          ensures !Matches(e, q)
        {
          KeyOfEnd(e, i);
          KeyOfEnd(e, i + 1);
        }
        FirstFromRaise(s, Key(kp) + 1, (i + 1) * IndexSpan, q);
      }
  }

  /** The slot invariant of the frame loop: a slot heading for `Cursor(i)`
      before frame `i` heads for `Cursor(i + 1)` after it. */
  lemma CursorAdvance(s: seq<Keypoint>, p: Pixel, i: nat)
    requires KeysIncreasing(s) && IndicesFit(s) && EndsDistinct(s, p.mask)
    requires p.kp == Cursor(s, p.mask, i) && StepPixel(s, p, i).Success?
    ensures StepPixel(s, p, i).value.mask == p.mask
    ensures StepPixel(s, p, i).value.kp == Cursor(s, p.mask, i + 1)
  {
    CursorStep(s, p.mask, i);
  }

  /** Keypoints of positive duration with distinct ends per slot never make a
      slot raise: a ramp only ever heads for a keypoint not yet reached, so
      a slot showing levels goes on showing levels. */
  lemma StepSucceeds(s: seq<Keypoint>, p: Pixel, i: nat)
    requires KeysIncreasing(s) && IndicesFit(s) && EndsDistinct(s, p.mask)
    requires forall e :: e in s ==> e.duration > 0
    requires p.kp == Cursor(s, p.mask, i)
    ensures StepPixel(s, p, i).Success?
    ensures InRange(p.colour) ==> InRange(StepPixel(s, p, i).value.colour)
  {
    CursorStep(s, p.mask, i);
    CursorStep(s, p.mask, i + 1);
    match p.kp
    case None =>
    case Some(kp) =>
      if kp.end <= i {
        var r := Reach(s, p, kp);
        if r.kp.Some? {
          RampAhead(r, r.kp.value, i);
        }
      } else {
        RampAhead(p, kp, i);
      }
  }

  // Packing a frame

  /** `v << (8 * k)` stays below 2^32 exactly when `v` is below this. */
  function LaneLimit(k: nat): nat
  {
    if k == 0 then 0x1_0000_0000 else if k == 1 then 0x100_0000 else if k == 2 then 0x1_0000 else 0x100
  }

  /** An OR with an operand that is not zero is not zero. */
  lemma {:induction false} OrPositive(a: nat, b: nat)
    requires a > 0 || b > 0
    ensures BitOr(a, b) > 0
    decreases a + b
  {
    if a != 0 && b != 0 && a % 2 == 0 && b % 2 == 0 {
      OrPositive(a / 2, b / 2);
    }
  }

  /** An OR of naturals is below `2^k` exactly when both operands are. */
  lemma {:induction false} OrBelow(a: nat, b: nat, k: nat)
    ensures BitOr(a, b) < Pow2(k) <==> a < Pow2(k) && b < Pow2(k)
    decreases k
  {
    if a != 0 && b != 0 {
      if k == 0 {
        OrPositive(a, b);
      } else {
        var p := Pow2(k - 1);
        OrBelow(a / 2, b / 2, k - 1);
        DivBelow(a, 2, p);
        DivBelow(b, 2, p);
        DivBelow(BitOr(a, b), 2, p);
        DivModUnique(BitOr(a, b), 2, BitOr(a / 2, b / 2), if a % 2 == 1 || b % 2 == 1 then 1 else 0);
      }
    }
  }

  lemma {:induction false} Pow2Add(a: nat, b: nat)
    ensures Pow2(a + b) == Pow2(a) * Pow2(b)
    decreases a
  {
    if a > 0 {
      Pow2Add(a - 1, b);
    }
  }

  lemma Pow2Bytes()
    ensures Pow2(8) == 0x100 && Pow2(16) == 0x1_0000 && Pow2(24) == 0x100_0000 && Pow2(32) == 0x1_0000_0000
  {
    assert Pow2(2) == 4;
    assert Pow2(4) == 16;
    assert Pow2(6) == 64;
    assert Pow2(8) == 0x100;
    Pow2Add(8, 8);
    Pow2Add(16, 8);
    Pow2Add(24, 8);
  }

  /** `v << (8 * k)`. */
  function Shifted(v: nat, k: nat): nat
  {
    MulMonotone(0, v, Pow2(8 * k));
    v * Pow2(8 * k)
  }

  /** Lane `k` of `v` shifted into place fits a 32-bit word exactly when
      `FitsLane` says it does. */
  lemma LaneShiftFits(v: nat, k: nat)
    requires k < 4
    ensures Shifted(v, k) < Pow2(32) <==> FitsLane(v, k)
  {
    Pow2Bytes();
    var m, l := Pow2(8 * k), LaneLimit(k);
    assert Pow2(32) == l * m by {
      if k == 0 {
      } else if k == 1 {
        assert m == 0x100;
      } else if k == 2 {
        assert m == 0x1_0000;
      } else {
        assert m == 0x100_0000;
      }
    }
    DivBelow(Shifted(v, k), m, l);
    DivModUnique(Shifted(v, k), m, v, 0);
  }

  /** The source's word, the OR of four channel values each shifted into
      its lane, fits in 32 bits exactly when every lane fits. */
  lemma WordFits(v0: nat, v1: nat, v2: nat, v3: nat)
    ensures BitOr(BitOr(BitOr(Shifted(v0, 0), Shifted(v1, 1)), Shifted(v2, 2)), Shifted(v3, 3)) < Pow2(32) <==>
      FitsLane(v0, 0) && FitsLane(v1, 1) && FitsLane(v2, 2) && FitsLane(v3, 3)
  {
    var x0, x1, x2, x3 := Shifted(v0, 0), Shifted(v1, 1), Shifted(v2, 2), Shifted(v3, 3);
    var y1 := BitOr(x0, x1);
    var y2 := BitOr(y1, x2);
    OrBelow(y2, x3, 32);
    OrBelow(y1, x2, 32);
    OrBelow(x0, x1, 32);
    LaneShiftFits(v0, 0);
    LaneShiftFits(v1, 1);
    LaneShiftFits(v2, 2);
    LaneShiftFits(v3, 3);
  }

  /** Channel value `v` can sit in lane `k` of a word that
      `struct.pack("<I")` accepts. The source ORs `v << (8 * k)` into the
      word as a Python integer. A negative lane makes the whole word
      negative, and a lane at or above its limit sets a bit at position 32
      or higher (`WordFits`); the transposes only move bits below 32, so the
      pack raises in both cases. */
  predicate FitsLane(v: int, k: nat)
  {
    0 <= v < LaneLimit(k)
  }

  /** The word holding a natural below 2^32, counted up from zero. */
  function ToWord(x: nat): word
    requires x < 0x1_0000_0000
  {
    if x == 0 then 0 else ToWord(x - 1) + 1
  }

  /** `v << l` with `l = k << 3`, for a value that fits lane `k`. */
  function Placed(v: int, k: nat): word
    requires k < 4 && FitsLane(v, k)
  {
    if k == 0 then ToWord(v) else if k == 1 then ToWord(v) << 8 else if k == 2 then ToWord(v) << 16 else ToWord(v) << 24
  }

  /** Channel `c` of the four slots `p`, `p + ld`, `p + 2*ld` and `p + 3*ld`
      fits lanes 0 to 3 of a word. */
  predicate LaneFits(ps: seq<Pixel>, ld: nat, p: nat, c: nat)
    requires p + 3 * ld < |ps|
  {
    FitsLane(Channel(ps[p].colour, c), 0) && FitsLane(Channel(ps[p + ld].colour, c), 1) &&
    FitsLane(Channel(ps[p + 2 * ld].colour, c), 2) && FitsLane(Channel(ps[p + 3 * ld].colour, c), 3)
  }

  /** The red, green and blue words of the group whose lane 0 is slot `p`
      all pack. */
  predicate GroupFits(ps: seq<Pixel>, ld: nat, p: nat)
    requires p + 3 * ld < |ps|
  {
    LaneFits(ps, ld, p, 0) && LaneFits(ps, ld, p, 1) && LaneFits(ps, ld, p, 2)
  }

  /** Every group of a frame of `8 * ld` slots packs. */
  predicate Packs(ps: seq<Pixel>, ld: nat)
  {
    |ps| == 8 * ld && forall g {:trigger GroupFits(ps, ld, GroupSlot(g, ld))} :: 0 <= g < 2 * ld ==> GroupFits(ps, ld, GroupSlot(g, ld))
  }

  /** Channel `c` of the four slots in one word, slot `p` in the lowest
      byte, as `rveclo |= pixel.r << l` accumulates it. A lane of 256 or
      more spills into the lane above. */
  function LaneWord(ps: seq<Pixel>, ld: nat, p: nat, c: nat): word
    requires p + 3 * ld < |ps| && LaneFits(ps, ld, p, c)
  {
    Placed(Channel(ps[p].colour, c), 0) | Placed(Channel(ps[p + ld].colour, c), 1) |
    Placed(Channel(ps[p + 2 * ld].colour, c), 2) | Placed(Channel(ps[p + 3 * ld].colour, c), 3)
  }

  /** Channel `c` of slot `p`, as a byte, for a slot showing levels. */
  function LaneByte(ps: seq<Pixel>, p: nat, c: nat): byte
    requires p < |ps| && InRange(ps[p].colour)
  {
    ToByte(Channel(ps[p].colour, c))
  }

  /** The 12 bytes of the group whose lane 0 is slot `p`: the red, green and
      blue words, each transposed. */
  function GroupOut(ps: seq<Pixel>, ld: nat, p: nat): (r: seq<byte>)
    requires p + 3 * ld < |ps| && GroupFits(ps, ld, p)
    ensures |r| == 12
  {
    GroupBytes(Encode(LaneWord(ps, ld, p, 0)), Encode(LaneWord(ps, ld, p, 1)), Encode(LaneWord(ps, ld, p, 2)))
  }

  /** The lane-0 slot of group `g` of a frame: the first `ld` groups take
      slots `0 .. 4 * ld - 1`, the next `ld` slots `4 * ld .. 8 * ld - 1`. */
  function GroupSlot(g: nat, ld: nat): nat
  {
    if g < ld then g else g + 3 * ld
  }

  /** The slot in lane `k` of the word whose lane 0 is slot `p`. */
  function LaneSlot(p: nat, k: nat, ld: nat): nat
  {
    p + k * ld
  }

  /** The `2 * ld` groups of one frame, in byte order. */
  function FrameGroups(ps: seq<Pixel>, ld: nat): (gs: seq<seq<byte>>)
    requires Packs(ps, ld)
    ensures |gs| == 2 * ld && forall g :: 0 <= g < |gs| ==> |gs[g]| == 12
  {
    seq(2 * ld, g requires 0 <= g < 2 * ld => GroupOut(ps, ld, GroupSlot(g, ld)))
  }

  /** Blocks of bytes laid end to end. */
  function Flatten(gs: seq<seq<byte>>): seq<byte>
  {
    if |gs| == 0 then [] else Flatten(gs[..|gs| - 1]) + gs[|gs| - 1]
  }

  /** With blocks of `w` bytes, block `g` sits at byte `w * g`. */
  lemma FlattenLayout(gs: seq<seq<byte>>, w: nat, g: nat)
    requires forall t :: 0 <= t < |gs| ==> |gs[t]| == w
    ensures |Flatten(gs)| == w * |gs|
    ensures g < |gs| ==> w * g + w <= |Flatten(gs)| && Flatten(gs)[w * g .. w * g + w] == gs[g]
  {
    FlattenLength(gs, w);
    if g < |gs| {
      FlattenBlock(gs, w, g);
    }
  }

  /** Blocks of `w` bytes flatten to `w` bytes each. */
  lemma {:induction false} FlattenLength(gs: seq<seq<byte>>, w: nat)
    requires forall t :: 0 <= t < |gs| ==> |gs[t]| == w
    ensures |Flatten(gs)| == w * |gs|
  {
    if |gs| > 0 {
      var n := |gs| - 1;
      FlattenLength(gs[..n], w);
      MulSucc(w, n);
    }
  }

  /** Block `g` of blocks of `w` bytes is the slice at byte `w * g`. */
  lemma {:induction false} FlattenBlock(gs: seq<seq<byte>>, w: nat, g: nat)
    requires forall t :: 0 <= t < |gs| ==> |gs[t]| == w
    requires g < |gs|
    ensures w * g + w <= |Flatten(gs)| && Flatten(gs)[w * g .. w * g + w] == gs[g]
  {
    var n := |gs| - 1;
    var init, last := gs[..n], gs[n];
    var f, x := Flatten(init), w * g;
    assert Flatten(gs) == f + last;
    FlattenLength(init, w);
    MulMonotone(0, g, w);
    if g < n {
      FlattenBlock(init, w, g);
      MulMonotone(g + 1, n, w);
      MulSucc(w, g);
      assert x + w <= |f|;
      SliceBefore(f, last, x, x + w);
      assert init[g] == gs[g];
    } else {
      assert x == |f|;
      SliceAfter(f, last);
    }
  }

  /** A slice of `a + b` inside `a`. */
  lemma SliceBefore<T>(a: seq<T>, b: seq<T>, x: nat, y: nat)
    requires x <= y <= |a|
    ensures (a + b)[x..y] == a[x..y]
  {
  }

  /** The part of `a + b` after `a`. */
  lemma SliceAfter<T>(a: seq<T>, b: seq<T>)
    ensures (a + b)[|a|..|a| + |b|] == b
  {
  }

  /** One frame: the groups of `FrameGroups` laid end to end. */
  function FrameBytes(ps: seq<Pixel>, ld: nat): (r: seq<byte>)
    requires Packs(ps, ld)
    ensures |r| == 24 * ld
  {
    var gs := FrameGroups(ps, ld);
    FlattenLayout(gs, 12, 0);
    Flatten(gs)
  }

  /** Group `g` of a frame is at byte `12 * g`. */
  lemma FrameLayout(ps: seq<Pixel>, ld: nat, g: nat)
    requires Packs(ps, ld) && g < 2 * ld
    ensures GroupSlot(g, ld) + 3 * ld < |ps| && GroupFits(ps, ld, GroupSlot(g, ld))
    ensures FrameBytes(ps, ld)[12 * g .. 12 * g + 12] == GroupOut(ps, ld, GroupSlot(g, ld))
  {
    FlattenLayout(FrameGroups(ps, ld), 12, g);
  }

  /** The word of channel `c` in a group. */
  function WordOf(group: seq<byte>, c: nat): word
    requires |group| == 12
  {
    var w := GroupWords(group);
    if c == 0 then w.0 else if c == 1 then w.1 else w.2
  }

  /** Every slot shows levels only. */
  predicate Levels(ps: seq<Pixel>)
  {
    forall q :: 0 <= q < |ps| ==> InRange(ps[q].colour)
  }

  /** The parser's reading of a group of slots showing levels: the group
      packs, and the word of channel `c`, de-transposed, has in lane `k`
      channel `c` of slot `p + k * ld`. */
  lemma GroupDecodes(ps: seq<Pixel>, ld: nat, p: nat, k: nat, c: nat)
    requires p + 3 * ld < |ps| && k < 4 && c < 3 && Levels(ps)
    ensures p + k * ld < |ps| && GroupFits(ps, ld, p)
    ensures Parser.LaneValue(Decode(WordOf(GroupOut(ps, ld, p), c)), k) == Channel(ps[p + k * ld].colour, c)
  {
    MulMonotone(k, 3, ld);
    LevelsFit(ps, ld, p, 0);
    LevelsFit(ps, ld, p, 1);
    LevelsFit(ps, ld, p, 2);
    WordOfGroupOut(ps, ld, p, c);
    LaneWordDecodes(ps, ld, p, k, c);
    ToByteValue(Channel(ps[p + k * ld].colour, c));
  }

  lemma WordOfGroupOut(ps: seq<Pixel>, ld: nat, p: nat, c: nat)
    requires p + 3 * ld < |ps| && c < 3 && GroupFits(ps, ld, p)
    ensures WordOf(GroupOut(ps, ld, p), c) == Encode(LaneWord(ps, ld, p, c))
  {
    GroupRoundTrip(Encode(LaneWord(ps, ld, p, 0)), Encode(LaneWord(ps, ld, p, 1)), Encode(LaneWord(ps, ld, p, 2)));
  }

  /** Levels fit every lane, and then the packed word is the four bytes
      side by side. */
  lemma LevelsFit(ps: seq<Pixel>, ld: nat, p: nat, c: nat)
    requires p + 3 * ld < |ps| && Levels(ps)
    ensures LaneFits(ps, ld, p, c)
    ensures LaneWord(ps, ld, p, c) == Pack(LaneByte(ps, p, c), LaneByte(ps, p + ld, c), LaneByte(ps, p + 2 * ld, c), LaneByte(ps, p + 3 * ld, c))
  {
    assert InRange(ps[p].colour) && InRange(ps[p + ld].colour);
    assert InRange(ps[p + 2 * ld].colour) && InRange(ps[p + 3 * ld].colour);
    WordOfLevel(Channel(ps[p].colour, c));
    WordOfLevel(Channel(ps[p + ld].colour, c));
    WordOfLevel(Channel(ps[p + 2 * ld].colour, c));
    WordOfLevel(Channel(ps[p + 3 * ld].colour, c));
  }

  lemma LaneWordDecodes(ps: seq<Pixel>, ld: nat, p: nat, k: nat, c: nat)
    requires p + 3 * ld < |ps| && k < 4 && p + k * ld < |ps| && Levels(ps)
    ensures LaneFits(ps, ld, p, c) && InRange(ps[p + k * ld].colour)
    ensures Lane(Decode(Encode(LaneWord(ps, ld, p, c))), k) == LaneByte(ps, p + k * ld, c)
  {
    LevelsFit(ps, ld, p, c);
    SamplesRoundTrip(LaneByte(ps, p, c), LaneByte(ps, p + ld, c), LaneByte(ps, p + 2 * ld, c), LaneByte(ps, p + 3 * ld, c));
    if k == 2 {
      assert k * ld == 2 * ld;
    } else if k == 3 {
      assert k * ld == 3 * ld;
    }
  }

  /** A level's word is its byte, widened. */
  lemma {:induction false} WordOfLevel(x: int)
    requires 0 <= x < 0x100
    ensures ToWord(x) == ToByte(x) as word
  {
    if x > 0 {
      WordOfLevel(x - 1);
      ToByteValue(x - 1);
    }
  }

  /** The byte holding a level (`x as byte`), counted up from zero. */
  function ToByte(x: Level): byte
  {
    if x == 0 then 0 else ToByte(x - 1) + 1
  }

  /** A level survives the round trip through a byte. */
  lemma {:induction false} ToByteValue(x: Level)
    ensures ToByte(x) as int == x
  {
    if x > 0 {
      ToByteValue(x - 1);
    }
  }

  // The whole program

  /** Frame `i` of a program of depth `ld`: every slot stepped (the
      `for j` loop), then every group packed (the `for j` loop over the
      groups). A slot that raises, or a word the pack refuses, raises. */
  function Frame(s: seq<Keypoint>, ps: seq<Pixel>, ld: nat, i: nat): (r: Result<seq<Pixel>, CompileError>)
    ensures r.Success? ==> Packs(r.value, ld)
  {
    match StepPixels(s, ps, i)
    case Failure(e) => Failure(e)
    case Success(qs) => if Packs(qs, ld) then Success(qs) else Failure(WordOutOfRange)
  }

  /** The slots after each of frames `0 .. n - 1`, starting from `ps`; the
      first failing frame raises. */
  function Render(s: seq<Keypoint>, ps: seq<Pixel>, ld: nat, n: nat): (r: Result<seq<seq<Pixel>>, CompileError>)
    ensures r.Success? ==> |r.value| == n && forall i :: 0 <= i < n ==> |r.value[i]| == |ps| && Packs(r.value[i], ld)
  {
    if n == 0 then Success([])
    else match Render(s, ps, ld, n - 1)
      case Failure(e) => Failure(e)
      case Success(snaps) =>
        match Frame(s, Latest(ps, snaps), ld, n - 1)
        case Failure(e) => Failure(e)
        case Success(qs) => Success(snaps + [qs])
  }

  /** The slots after the last frame rendered so far. */
  function Latest(ps: seq<Pixel>, snaps: seq<seq<Pixel>>): seq<Pixel>
  {
    if |snaps| == 0 then ps else snaps[|snaps| - 1]
  }

  /** The bytes of the frames, frame `i` packed from the slots after it. */
  function FramesBytes(snaps: seq<seq<Pixel>>, ld: nat): seq<byte>
    requires forall i :: 0 <= i < |snaps| ==> Packs(snaps[i], ld)
  {
    Flatten(FrameSeq(snaps, ld))
  }

  function FrameSeq(snaps: seq<seq<Pixel>>, ld: nat): (fs: seq<seq<byte>>)
    requires forall i :: 0 <= i < |snaps| ==> Packs(snaps[i], ld)
    ensures |fs| == |snaps| && forall i :: 0 <= i < |fs| ==> |fs[i]| == 24 * ld
  {
    seq(|snaps|, i requires 0 <= i < |snaps| => FrameBytes(snaps[i], ld))
  }

  /** The slots before the first frame: slot `q` has mask `masks[q]`, shows
      black, and heads for the first keypoint touching its pixels. */
  function InitialPixels(s: seq<Keypoint>, masks: seq<set<nat>>): (ps: seq<Pixel>)
    ensures |ps| == |masks|
  {
    seq(|masks|, q requires 0 <= q < |masks| => Pixel(ShadeOf(Black), Black, masks[q], Cursor(s, masks[q], 0)))
  }

  const Black := Rgb(0, 0, 0)

  /** `_led_depth`: in a compressed program just enough groups of eight slots
      for the present pixels, otherwise the hardware's depth. */
  function Depth(hw: Hardware, compressed: bool): nat
  {
    if compressed then (PixelCount(hw) + 7) / 8 else hw.ledDepth
  }

  function Max(a: nat, b: nat): nat
  {
    if a >= b then a else b
  }

  /** The fields of `LEDSignCompiledProgram`. */
  datatype Compiled = Compiled(data: seq<byte>, ledDepth: nat, maxOffset: nat, offsetDivisor: nat, ctrl: nat, crc: bv32)

  /** `LEDSignCompiledProgram(program, is_compressed)` for a program whose
      keypoints in key order are `s`. */
  function CompileSpec(s: seq<Keypoint>, hw: Hardware, duration: nat, compressed: bool): Result<Compiled, CompileError>
  {
    var ld := Depth(hw, compressed);
    var masks := PixelMasks(ld, compressed, hw.pixels);
    DepthCoversPixels(hw);
    var ps := InitialPixels(s, masks);
    match Render(s, ps, ld, duration)
    case Failure(e) => Failure(e)
    case Success(snaps) =>
      var data := FramesBytes(snaps, ld);
      Success(Compiled(data, ld, Max(|data| / 4, 1), Max(6 * ld, 1) * 60, BitOr(3 * ld, |data| * 64), Crc.Checksum(data)))
  }

  /** The compressed depth has a slot for every present pixel. */
  lemma DepthCoversPixels(hw: Hardware)
    ensures |PresentPixels(hw.pixels)| <= 8 * Depth(hw, true)
  {
    var c := PixelCount(hw);
    DivModUnique(c + 7, 8, (c + 7) / 8, (c + 7) % 8);
  }

  // Properties of a whole rendering

  /** Every slot heads for its cursor of frame `i`, and its keypoints end in
      distinct frames. */
  predicate SlotsAt(s: seq<Keypoint>, ps: seq<Pixel>, i: nat)
  {
    forall q :: 0 <= q < |ps| ==> ps[q].kp == Cursor(s, ps[q].mask, i) && EndsDistinct(s, ps[q].mask)
  }

  /** Before the first frame every slot heads for its first keypoint. */
  lemma InitialSlots(s: seq<Keypoint>, masks: seq<set<nat>>)
    requires forall q :: 0 <= q < |masks| ==> EndsDistinct(s, masks[q])
    ensures SlotsAt(s, InitialPixels(s, masks), 0)
    ensures forall q :: 0 <= q < |masks| ==> InitialPixels(s, masks)[q].mask == masks[q]
  {
    assert forall q :: 0 <= q < |masks| ==> InitialPixels(s, masks)[q].kp == Cursor(s, masks[q], 0);
  }

  /** A slot without pixels heads for no keypoint, like the padding slots
      of a compressed program. */
  lemma {:induction false} NoPixelsNoCursor(s: seq<Keypoint>, i: nat)
    ensures Cursor(s, {}, i) == None
  {
    FirstFromIsNone(s, i * IndexSpan);
  }

  lemma {:induction false} FirstFromIsNone(s: seq<Keypoint>, key: int)
    ensures FirstFrom(s, key, {}) == None
  {
    if |s| > 0 {
      assert !Matches(s[0], {});
      FirstFromIsNone(s[1..], key);
    }
  }

  /** One frame keeps the slot invariant. */
  lemma FrameAdvance(s: seq<Keypoint>, ps: seq<Pixel>, i: nat)
    requires KeysIncreasing(s) && IndicesFit(s) && SlotsAt(s, ps, i) && StepPixels(s, ps, i).Success?
    ensures SlotsAt(s, StepPixels(s, ps, i).value, i + 1)
    ensures forall q :: 0 <= q < |ps| ==> StepPixels(s, ps, i).value[q].mask == ps[q].mask
  {
    StepFirstSpec(s, ps, i, |ps|);
    forall q | 0 <= q < |ps|
      ensures StepPixels(s, ps, i).value[q].mask == ps[q].mask
      ensures StepPixels(s, ps, i).value[q].kp == Cursor(s, ps[q].mask, i + 1)
    {
      CursorAdvance(s, ps[q], i);
    }
  }

  /** The last frame of a successful rendering is the step of the slots
      before it. */
  lemma RenderLast(s: seq<Keypoint>, ps: seq<Pixel>, ld: nat, n: nat)
    requires n > 0 && Render(s, ps, ld, n).Success?
    ensures Render(s, ps, ld, n - 1).Success?
    ensures StepPixels(s, Latest(ps, Render(s, ps, ld, n - 1).value), n - 1).Success?
    ensures Render(s, ps, ld, n).value ==
      Render(s, ps, ld, n - 1).value + [StepPixels(s, Latest(ps, Render(s, ps, ld, n - 1).value), n - 1).value]
  {
  }

  /** A frame that steps and packs extends the rendering. */
  lemma RenderExtend(s: seq<Keypoint>, ps: seq<Pixel>, ld: nat, n: nat, snaps: seq<seq<Pixel>>, next: seq<Pixel>)
    requires n > 0 && Render(s, ps, ld, n - 1) == Success(snaps)
    requires StepPixels(s, Latest(ps, snaps), n - 1) == Success(next) && Packs(next, ld)
    ensures Render(s, ps, ld, n) == Success(snaps + [next])
  {
  }

  /** After frame `i` every slot heads for its cursor of frame `i + 1`. */
  lemma {:induction false} RenderCursors(s: seq<Keypoint>, ps: seq<Pixel>, ld: nat, n: nat)
    requires KeysIncreasing(s) && IndicesFit(s) && SlotsAt(s, ps, 0) && Render(s, ps, ld, n).Success?
    ensures forall i :: 0 <= i < n ==> SlotsAt(s, Render(s, ps, ld, n).value[i], i + 1)
  {
    if n > 0 {
      RenderLast(s, ps, ld, n);
      RenderCursors(s, ps, ld, n - 1);
      var snaps := Render(s, ps, ld, n - 1).value;
      var qs := Latest(ps, snaps);
      if n == 1 {
        assert qs == ps;
      } else {
        assert qs == snaps[n - 2];
      }
      FrameAdvance(s, qs, n - 1);
      var all := Render(s, ps, ld, n).value;
      forall i | 0 <= i < n
        ensures SlotsAt(s, all[i], i + 1)
      {
        if i < n - 1 {
          assert all[i] == snaps[i];
        } else {
          assert all[i] == StepPixels(s, qs, n - 1).value;
        }
      }
    }
  }

  /** Every frame keeps every slot's mask. */
  lemma {:induction false} RenderMasks(s: seq<Keypoint>, ps: seq<Pixel>, ld: nat, n: nat)
    requires Render(s, ps, ld, n).Success?
    ensures forall i, q :: 0 <= i < n && 0 <= q < |ps| ==> Render(s, ps, ld, n).value[i][q].mask == ps[q].mask
  {
    if n > 0 {
      RenderLast(s, ps, ld, n);
      RenderMasks(s, ps, ld, n - 1);
      var snaps := Render(s, ps, ld, n - 1).value;
      var qs := Latest(ps, snaps);
      if n == 1 {
        assert qs == ps;
      } else {
        assert qs == snaps[n - 2];
      }
      StepFirstSpec(s, qs, n - 1, |qs|);
      var next := StepPixels(s, qs, n - 1).value;
      forall q | 0 <= q < |qs|
        ensures next[q].mask == ps[q].mask
      {
        assert next[q] == StepPixel(s, qs[q], n - 1).value;
      }
      var all: seq<seq<Pixel>> := Render(s, ps, ld, n).value;
      forall i, q | 0 <= i < n && 0 <= q < |ps|
        ensures all[i][q].mask == ps[q].mask
      {
        if i < n - 1 {
          assert all[i] == snaps[i];
        } else {
          assert all[i] == next;
        }
      }
    }
  }

  /** With keypoints of positive duration ending in distinct frames per
      slot, slots on their cursors and showing levels step without raising
      and go on showing levels. */
  lemma FrameSucceeds(s: seq<Keypoint>, qs: seq<Pixel>, i: nat)
    requires KeysIncreasing(s) && IndicesFit(s) && SlotsAt(s, qs, i) && Levels(qs)
    requires forall e :: e in s ==> e.duration > 0
    ensures StepPixels(s, qs, i).Success? && Levels(StepPixels(s, qs, i).value)
  {
    forall q | 0 <= q < |qs|
      ensures StepPixel(s, qs[q], i).Success? && InRange(StepPixel(s, qs[q], i).value.colour)
    {
      StepSucceeds(s, qs[q], i);
    }
    StepFirstSpec(s, qs, i, |qs|);
  }

  /** With keypoints of positive duration ending in distinct frames per
      slot, and slots starting on levels, compilation never raises, and
      every frame shows levels only. */
  lemma {:induction false} RenderSucceeds(s: seq<Keypoint>, ps: seq<Pixel>, ld: nat, n: nat)
    requires KeysIncreasing(s) && IndicesFit(s) && SlotsAt(s, ps, 0)
    requires forall e :: e in s ==> e.duration > 0
    requires |ps| == 8 * ld && Levels(ps)
    ensures Render(s, ps, ld, n).Success?
    ensures forall i :: 0 <= i < n ==> Levels(Render(s, ps, ld, n).value[i])
  {
    if n > 0 {
      RenderSucceeds(s, ps, ld, n - 1);
      RenderCursors(s, ps, ld, n - 1);
      var snaps := Render(s, ps, ld, n - 1).value;
      var qs := Latest(ps, snaps);
      if n == 1 {
        assert qs == ps;
      } else {
        assert qs == snaps[n - 2];
      }
      FrameSucceeds(s, qs, n - 1);
      var next := StepPixels(s, qs, n - 1).value;
      LevelsPack(next, ld);
      RenderExtend(s, ps, ld, n, snaps, next);
      var all := snaps + [next];
      forall i | 0 <= i < n
        ensures Levels(all[i])
      {
        if i < n - 1 {
          assert all[i] == snaps[i];
        }
      }
    }
  }

  /** A frame showing levels only packs. */
  lemma LevelsPack(ps: seq<Pixel>, ld: nat)
    requires |ps| == 8 * ld && Levels(ps)
    ensures Packs(ps, ld)
  {
    forall g | 0 <= g < 2 * ld
      ensures GroupFits(ps, ld, GroupSlot(g, ld))
    {
      var p := GroupSlot(g, ld);
      LevelsFit(ps, ld, p, 0);
      LevelsFit(ps, ld, p, 1);
      LevelsFit(ps, ld, p, 2);
    }
  }

  /** What a slot shows in frame `i` while heading for a keypoint `kp` that
      ends later: a colour between the ramp's start and `kp`'s, the start
      until the ramp begins, and `kp`'s colour in the last frame before `kp`
      ends. */
  lemma FrameColour(s: seq<Keypoint>, ps: seq<Pixel>, ld: nat, n: nat, i: nat, q: nat)
    requires Render(s, ps, ld, n).Success? && i < n && q < |ps|
    requires var p := Latest(ps, Render(s, ps, ld, n).value[..i])[q];
      p.kp.Some? && p.kp.value.end > i && p.kp.value.duration > 0
    ensures var p := Latest(ps, Render(s, ps, ld, n).value[..i])[q]; var kp := p.kp.value;
      var c := Render(s, ps, ld, n).value[i][q].colour; var t := RgbOf(kp.rgb);
      Between(p.prev.r, t.r, c.r) && Between(p.prev.g, t.g, c.g) && Between(p.prev.b, t.b, c.b) &&
      (i + 1 + kp.duration <= kp.end ==> c == ShadeOf(p.prev)) &&
      (i + 1 == kp.end ==> c == ShadeOf(t))
  {
    RenderStep(s, ps, ld, n, i);
    var qs := Latest(ps, Render(s, ps, ld, n).value[..i]);
    RampAhead(qs[q], qs[q].kp.value, i);
    StepFirstSpec(s, qs, i, |qs|);
  }

  /** A slot whose cursor is `None` is skipped: frame `i` leaves it as it
      was, colour included. */
  lemma IdleSlot(s: seq<Keypoint>, ps: seq<Pixel>, ld: nat, n: nat, i: nat, q: nat)
    requires Render(s, ps, ld, n).Success? && i < n && q < |ps|
    requires Latest(ps, Render(s, ps, ld, n).value[..i])[q].kp.None?
    ensures Render(s, ps, ld, n).value[i][q] == Latest(ps, Render(s, ps, ld, n).value[..i])[q]
  {
    RenderStep(s, ps, ld, n, i);
    var qs := Latest(ps, Render(s, ps, ld, n).value[..i]);
    StepFirstSpec(s, qs, i, |qs|);
  }

  /** A slot whose keypoint has ended by frame `i` takes that keypoint's
      colour as the start of its next ramp, keeps its mask, and moves its
      cursor to the next keypoint of its pixels in key order; with no next
      keypoint it shows that colour. */
  lemma ReachedSlot(s: seq<Keypoint>, ps: seq<Pixel>, ld: nat, n: nat, i: nat, q: nat)
    requires Render(s, ps, ld, n).Success? && i < n && q < |ps|
    requires var p := Latest(ps, Render(s, ps, ld, n).value[..i])[q]; p.kp.Some? && p.kp.value.end <= i
    ensures var p := Latest(ps, Render(s, ps, ld, n).value[..i])[q]; var kp := p.kp.value;
      var r := Render(s, ps, ld, n).value[i][q];
      r.prev == RgbOf(kp.rgb) && r.mask == p.mask && r.kp == FirstFrom(s, Key(kp) + 1, p.mask) &&
      (r.kp.None? ==> r.colour == ShadeOf(RgbOf(kp.rgb)))
  {
    RenderStep(s, ps, ld, n, i);
    var qs := Latest(ps, Render(s, ps, ld, n).value[..i]);
    StepFirstSpec(s, qs, i, |qs|);
  }

  /** Snapshot `i` is frame `i` stepped from the snapshot before it. */
  lemma {:induction false} RenderStep(s: seq<Keypoint>, ps: seq<Pixel>, ld: nat, n: nat, i: nat)
    requires Render(s, ps, ld, n).Success? && i < n
    ensures StepPixels(s, Latest(ps, Render(s, ps, ld, n).value[..i]), i) == Success(Render(s, ps, ld, n).value[i])
  {
    var snaps := Render(s, ps, ld, n - 1).value;
    if i < n - 1 {
      RenderStep(s, ps, ld, n - 1, i);
      assert Render(s, ps, ld, n).value[..i] == snaps[..i];
    } else {
      assert Render(s, ps, ld, n).value[..i] == snaps;
    }
  }

  // The header and the round trip through the parser

  /** `ctrl` keeps `3 * led_depth` in its low byte and the data length in
      words from bit 8 on, so the loader recovers the depth, the data length
      and the duration from it (`(ctrl >> 9) // (ctrl & 0xff)`). */
  lemma CtrlFields(ld: nat, duration: nat)
    requires 3 * ld < 0x100
    ensures var size := 24 * ld * duration; var ctrl := BitOr(3 * ld, size * 64);
      ctrl % 0x100 == 3 * ld && (ctrl / 0x100) * 4 == size &&
      (ld > 0 ==> (ctrl / 0x200) / Max(ctrl % 0x100, 1) == duration)
  {
    CtrlSum(ld, duration);
    CtrlScale(ld, duration);
    CtrlFieldsOf(3 * ld, 3 * ld * duration, 24 * ld * duration, duration);
  }

  lemma CtrlScale(ld: nat, duration: nat)
    ensures 24 * ld * duration == 8 * (3 * ld * duration) && 3 * ld * duration == duration * (3 * ld)
  {
  }

  /** The fields of `lo + 512 * m`, `lo` below 256. */
  lemma CtrlFieldsOf(lo: nat, m: nat, size: nat, duration: nat)
    requires lo < 0x100 && size == 8 * m && (lo > 0 ==> m == duration * lo)
    ensures var ctrl := lo + 512 * m;
      ctrl % 0x100 == lo && (ctrl / 0x100) * 4 == size &&
      (lo > 0 ==> (ctrl / 0x200) / Max(ctrl % 0x100, 1) == duration)
  {
    CtrlDivisions(lo, m);
    if lo > 0 {
      DivModUnique(m, lo, duration, 0);
    }
  }

  /** The two fields of `ctrl` do not overlap. */
  lemma CtrlSum(ld: nat, duration: nat)
    requires 3 * ld < 0x100
    ensures BitOr(3 * ld, 24 * ld * duration * 64) == 3 * ld + 512 * (3 * ld * duration)
  {
    var m := 3 * ld * duration;
    assert 24 * ld * duration * 64 == m * 512;
    Pow2Nine();
    DivModUnique(m * 512, 512, m, 0);
    BitOrDisjoint(3 * ld, m * 512, 9);
  }

  lemma CtrlDivisions(lo: nat, m: nat)
    requires lo < 0x100
    ensures (lo + 512 * m) % 0x100 == lo && (lo + 512 * m) / 0x100 == 2 * m && (lo + 512 * m) / 0x200 == m
  {
    DivModUnique(lo + 512 * m, 0x100, 2 * m, lo);
    DivModUnique(lo + 512 * m, 0x200, m, lo);
  }

  lemma Pow2Nine()
    ensures Pow2(9) == 512
  {
    assert Pow2(3) == 8;
    assert Pow2(6) == 64;
  }

  /** What the parser reads from a compiled program whose frame `i` shows
      levels only (as `RenderSucceeds` gives): lane `k` of channel `c` of
      group `g` (at byte `24 * ld * i + 12 * g`) is that channel of slot
      `LaneSlot(GroupSlot(g, ld), k, ld)` after frame `i`, and the parser's slot of
      that byte position is `GroupSlot(g, ld)`. */
  lemma CompiledDecodes(snaps: seq<seq<Pixel>>, ld: nat, i: nat, g: nat, k: nat, c: nat)
    requires forall i :: 0 <= i < |snaps| ==> Packs(snaps[i], ld)
    requires i < |snaps| && g < 2 * ld && k < 4 && c < 3 && Levels(snaps[i])
    ensures Parser.Slot(24 * ld * i + 12 * g, ld) == GroupSlot(g, ld)
    ensures 24 * ld * i + 12 * g + 12 <= |FramesBytes(snaps, ld)|
    ensures LaneSlot(GroupSlot(g, ld), k, ld) < 8 * ld == |snaps[i]|
    ensures var pos := 24 * ld * i + 12 * g;
      Parser.LaneValue(Decode(WordOf(FramesBytes(snaps, ld)[pos .. pos + 12], c)), k) ==
        Channel(snaps[i][LaneSlot(GroupSlot(g, ld), k, ld)].colour, c)
  {
    var ps, p := snaps[i], GroupSlot(g, ld);
    var pos := 24 * ld * i + 12 * g;
    CompiledGroup(snaps, ld, i, g);
    FrameLayout(ps, ld, g);
    GroupSlotIsSlot(ld, i, g);
    GroupDecodes(ps, ld, p, k, c);
    assert LaneSlot(p, k, ld) == p + k * ld;
    assert FramesBytes(snaps, ld)[pos .. pos + 12] == FrameBytes(ps, ld)[12 * g .. 12 * g + 12];
  }

  /** Group `g` of frame `i` of the data is group `g` of that frame. */
  lemma CompiledGroup(snaps: seq<seq<Pixel>>, ld: nat, i: nat, g: nat)
    requires forall i :: 0 <= i < |snaps| ==> Packs(snaps[i], ld)
    requires i < |snaps| && g < 2 * ld
    ensures var pos := 24 * ld * i + 12 * g;
      pos + 12 <= |FramesBytes(snaps, ld)| &&
      FramesBytes(snaps, ld)[pos .. pos + 12] == FrameBytes(snaps[i], ld)[12 * g .. 12 * g + 12]
  {
    var fs := FrameSeq(snaps, ld);
    FlattenSlice(fs, 24 * ld, i, 12 * g, 12 * g + 12);
    assert fs[i] == FrameBytes(snaps[i], ld);
  }

  /** Bytes `u` to `v` of block `i`, in blocks of `w` bytes laid end to end. */
  lemma FlattenSlice(gs: seq<seq<byte>>, w: nat, i: nat, u: nat, v: nat)
    requires forall t :: 0 <= t < |gs| ==> |gs[t]| == w
    requires i < |gs| && u <= v <= w
    ensures w * i + v <= |Flatten(gs)| && Flatten(gs)[w * i + u .. w * i + v] == gs[i][u..v]
  {
    var f, x := Flatten(gs), w * i;
    FlattenLayout(gs, w, i);
    MulMonotone(0, i, w);
    assert f[x .. x + w] == gs[i];
    SliceOfSlice(f, x, x + w, u, v);
  }

  /** The parser's slot of group `g` of frame `i` is the compiler's. */
  lemma GroupSlotIsSlot(ld: nat, i: nat, g: nat)
    requires g < 2 * ld
    ensures Parser.Slot(24 * ld * i + 12 * g, ld) == GroupSlot(g, ld)
  {
    if g < ld {
      Parser.SlotLayout(i, g, ld);
    } else {
      Parser.SlotLayout(i, g - ld, ld);
      SameSlot(24 * ld * i + 12 * ld + 12 * (g - ld), 24 * ld * i + 12 * g, ld);
    }
  }

  lemma SameSlot(x: nat, y: nat, ld: nat)
    requires ld > 0 && x == y
    ensures Parser.Slot(x, ld) == Parser.Slot(y, ld)
  {
  }

  lemma SliceOfSlice<T>(a: seq<T>, x: nat, y: nat, u: nat, v: nat)
    requires x <= y <= |a| && u <= v <= y - x
    ensures a[x..y][u..v] == a[x + u .. x + v]
  {
    forall t | 0 <= t < v - u
      ensures a[x..y][u..v][t] == a[x + u .. x + v][t]
    {
    }
  }
}
