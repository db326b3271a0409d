/** `LEDSignCompiledProgram.__init__` (ledsign/core.py) as the loops it is
    written with: the pixel states are built by appending, stepped in place
    frame by frame, and packed into a preallocated byte buffer. Each method
    is proved against the specification functions of module `Compiler`. */
module Compilation {
  import opened Wrappers
  import opened Arith
  import opened Transpose
  import opened Timeline
  import opened Hardware
  import opened Compiler
  import Crc

  /** The states of slots standing for the present pixels `pp`, before the
      first frame. */
  function Starts(s: seq<Keypoint>, pp: seq<nat>): (ps: seq<Pixel>)
    ensures |ps| == |pp|
  {
    seq(|pp|, q requires 0 <= q < |pp| => Pixel(ShadeOf(Compiler.Black), Compiler.Black, {pp[q]}, Cursor(s, {pp[q]}, 0)))
  }

  /** The slot state of no pixel: black, and heading for no keypoint. */
  function Blank(): Pixel
  {
    Pixel(ShadeOf(Compiler.Black), Compiler.Black, {}, None)
  }

  /** The pixel states before the first frame: one per present pixel and
      padding up to `8 * ld` in a compressed program, one per slot
      otherwise. */
  method InitialStates(list: KeypointList, hw: Hardware, compressed: bool) returns (ld: nat, ps: seq<Pixel>)
    requires list.Valid()
    ensures ld == Depth(hw, compressed)
    ensures ps == InitialPixels(Elems(list.root), PixelMasks(ld, compressed, hw.pixels))
    ensures |ps| == 8 * ld
  {
    if compressed {
      ld := (PixelCount(hw) + 7) / 8;
      ps := PresentStarts(list, hw.pixels);
      DepthCoversPixels(hw);
      ps := Padded(ps, 8 * ld);
      CompressedStarts(Elems(list.root), ld, hw.pixels);
    } else {
      ld := hw.ledDepth;
      ps := SlotStarts(list, 8 * ld);
      assert ps == InitialPixels(Elems(list.root), PixelMasks(ld, compressed, hw.pixels));
    }
  }

  /** The states of the slots of the present pixels, in pixel order. */
  method PresentStarts(list: KeypointList, present: seq<bool>) returns (ps: seq<Pixel>)
    requires list.Valid()
    ensures ps == Starts(Elems(list.root), PresentPixels(present))
  {
    ghost var s := Elems(list.root);
    ps := [];
    var i := 0;
    while i < |present|
      invariant 0 <= i <= |present|
      invariant ps == Starts(s, PresentPixels(present[..i]))
    {
      assert present[..i + 1][..i] == present[..i];
      if present[i] {
        var kp := list.LookupIncreasing(0, {i});
        ps := ps + [Pixel(ShadeOf(Compiler.Black), Compiler.Black, {i}, kp)];
      }
      i := i + 1;
    }
    assert present[..i] == present;
  }

  /** `ps` padded with slots of no pixel up to `n` slots. */
  method Padded(ps0: seq<Pixel>, n: nat) returns (ps: seq<Pixel>)
    requires |ps0| <= n
    ensures ps == ps0 + seq(n - |ps0|, _ => Blank())
  {
    ps := ps0;
    while |ps| < n
      invariant |ps0| <= |ps| <= n
      invariant ps == ps0 + seq(|ps| - |ps0|, _ => Blank())
    {
      ps := ps + [Blank()];
    }
  }

  /** One state per slot `q < n`, standing for pixel `q`. */
  method SlotStarts(list: KeypointList, n: nat) returns (ps: seq<Pixel>)
    requires list.Valid()
    ensures |ps| == n
    ensures forall q :: 0 <= q < n ==> ps[q] == Pixel(ShadeOf(Compiler.Black), Compiler.Black, {q}, Cursor(Elems(list.root), {q}, 0))
  {
    ghost var s := Elems(list.root);
    ps := [];
    var i := 0;
    while i < n
      invariant 0 <= i <= n && |ps| == i
      invariant forall q :: 0 <= q < i ==> ps[q] == Pixel(ShadeOf(Compiler.Black), Compiler.Black, {q}, Cursor(s, {q}, 0))
    {
      var kp := list.LookupIncreasing(0, {i});
      ps := ps + [Pixel(ShadeOf(Compiler.Black), Compiler.Black, {i}, kp)];
      i := i + 1;
    }
  }

  /** The present pixels' states padded with slots of no pixel are the
      initial states of a compressed program. */
  lemma CompressedStarts(s: seq<Keypoint>, ld: nat, present: seq<bool>)
    requires |PresentPixels(present)| <= 8 * ld
    ensures var pp := PresentPixels(present);
      Starts(s, pp) + seq(8 * ld - |pp|, _ => Blank()) == InitialPixels(s, PixelMasks(ld, true, present))
  {
    var pp := PresentPixels(present);
    var a := Starts(s, pp) + seq(8 * ld - |pp|, _ => Blank());
    var b := InitialPixels(s, PixelMasks(ld, true, present));
    NoPixelsNoCursor(s, 0);
    assert |a| == |b|;
    forall q | 0 <= q < |a|
      ensures a[q] == b[q]
    {
      if q < |pp| {
        assert a[q] == Starts(s, pp)[q];
      }
    }
  }

  /** One slot at frame `i`: reaching its keypoint moves it to the next
      keypoint of its pixels, and a slot still heading for a keypoint ramps
      toward it. */
  method StepSlot(list: KeypointList, pixel: Pixel, i: nat) returns (r: Result<Pixel, CompileError>)
    requires list.Valid()
    ensures r == StepPixel(Elems(list.root), pixel, i)
  {
    match pixel.kp
    case None =>
      r := Success(pixel);
    case Some(kp) =>
      var p := pixel;
      var next := kp;
      if kp.end <= i {
        var c := RgbOf(kp.rgb);
        p := p.(colour := ShadeOf(c), prev := c);
        var found := list.LookupIncreasing(Key(kp) + 1, p.mask);
        p := p.(kp := found);
        if found.None? {
          return Success(p);
        }
        next := found.value;
      }
      r := Ramp(p, next, i);
  }

  /** A failing prefix of a frame decides the whole frame. */
  lemma {:induction false} StepFirstFails(s: seq<Keypoint>, ps: seq<Pixel>, i: nat, n: nat, m: nat)
    requires n <= m <= |ps| && StepFirst(s, ps, i, n).Failure?
    ensures StepFirst(s, ps, i, m) == StepFirst(s, ps, i, n)
    decreases m - n
  {
    if n < m {
      StepFirstFails(s, ps, i, n, m - 1);
    }
  }

  /** Frame `i` stepped in place, slot by slot (the `for j` loop over the
      pixel states). */
  method StepFrame(list: KeypointList, states: array<Pixel>, i: nat) returns (err: Option<CompileError>)
    requires list.Valid()
    modifies states
    ensures match StepPixels(Elems(list.root), old(states[..]), i)
      case Success(v) => err == None && states[..] == v
      case Failure(e) => err == Some(e)
  {
    ghost var s := Elems(list.root);
    ghost var ps0 := states[..];
    var j := 0;
    while j < states.Length
      invariant 0 <= j <= states.Length
      invariant StepFirst(s, ps0, i, j) == Success(states[..j])
      invariant states[j..] == ps0[j..]
    {
      assert states[j] == ps0[j] by { assert states[j..][0] == ps0[j..][0]; }
      var r := StepSlot(list, states[j], i);
      if r.Failure? {
        StepFirstFails(s, ps0, i, j + 1, |ps0|);
        return Some(r.error);
      }
      states[j] := r.value;
      assert states[..j + 1] == StepFirst(s, ps0, i, j).value + [r.value];
      assert states[j + 1..] == ps0[j + 1..] by {
        assert forall t :: j + 1 <= t < states.Length ==> states[t] == old(states[t]);
      }
      j := j + 1;
    }
    assert states[..j] == states[..];
    return None;
  }

  /** Channel `c` of the four lanes of the group whose lane 0 is slot
      `p`: lane `k` is slot `p + k * ld`. */
  function Lanes(ps: seq<Pixel>, ld: nat, p: nat, c: nat): (b: seq<int>)
    requires p + 3 * ld < |ps|
    ensures |b| == 4
  {
    [Channel(ps[p].colour, c), Channel(ps[p + ld].colour, c), Channel(ps[p + 2 * ld].colour, c), Channel(ps[p + 3 * ld].colour, c)]
  }

  /** The first `k` lanes of `b` fit their places in a word. */
  predicate LanesFit(b: seq<int>, k: nat)
    requires k <= |b|
  {
    forall t :: 0 <= t < k ==> FitsLane(b[t], t)
  }

  /** The first `k` lanes of `b` ORed together at their bit positions, as
      the `for k` loop accumulates them. */
  function OrLanes(b: seq<int>, k: nat): word
    requires k <= |b| <= 4 && LanesFit(b, k)
  {
    if k == 0 then 0 else OrLane(OrLanes(b, k - 1), b[k - 1], k - 1)
  }

  /** `acc | v << l` with `l = k << 3`: value `v` ORed into lane `k`. */
  function OrLane(acc: word, v: int, k: nat): word
    requires k < 4 && FitsLane(v, k)
  {
    acc | Placed(v, k)
  }

  /** The four lanes of a group fit exactly when the channel of the group
      fits, and then ORed together they are its packed word. */
  lemma LanesPacked(ps: seq<Pixel>, ld: nat, p: nat, c: nat)
    requires p + 3 * ld < |ps|
    ensures LanesFit(Lanes(ps, ld, p, c), 4) == LaneFits(ps, ld, p, c)
    ensures LaneFits(ps, ld, p, c) ==> OrLanes(Lanes(ps, ld, p, c), 4) == LaneWord(ps, ld, p, c)
  {
    var b := Lanes(ps, ld, p, c);
    assert b[0] == Channel(ps[p].colour, c) && b[1] == Channel(ps[p + ld].colour, c);
    assert b[2] == Channel(ps[p + 2 * ld].colour, c) && b[3] == Channel(ps[p + 3 * ld].colour, c);
    assert LanesFit(b, 4) <==> FitsLane(b[0], 0) && FitsLane(b[1], 1) && FitsLane(b[2], 2) && FitsLane(b[3], 3);
    if LaneFits(ps, ld, p, c) {
      OrLanesAll(b);
    }
  }

  /** All four lanes ORed, one at a time from lane 0. */
  lemma OrLanesAll(b: seq<int>)
    requires |b| == 4 && LanesFit(b, 4)
    ensures OrLanes(b, 4) == Placed(b[0], 0) | Placed(b[1], 1) | Placed(b[2], 2) | Placed(b[3], 3)
  {
    OrLanesNext(b, 0);
    OrLanesNext(b, 1);
    OrLanesNext(b, 2);
    OrLanesNext(b, 3);
    var w0 := Placed(b[0], 0);
    assert OrLanes(b, 1) == w0 by {
      assert OrLanes(b, 1) == 0 | w0;
    }
  }

  /** The `for k` loop ORs lane `k` into the lanes before it. */
  lemma OrLanesNext(b: seq<int>, k: nat)
    requires k < |b| == 4 && LanesFit(b, 4)
    ensures LanesFit(b, k) && LanesFit(b, k + 1)
    ensures OrLanes(b, k + 1) == OrLanes(b, k) | Placed(b[k], k)
  {
  }

  /** `acc |= v << l` for one word: `ok` records whether every lane so far
      fits, and while it does `acc` holds their OR. */
  method OrInto(ok: bool, acc: word, v: int, k: nat) returns (ok': bool, acc': word)
    requires k < 4
    ensures ok' == (ok && FitsLane(v, k))
    ensures ok' ==> acc' == OrLane(acc, v, k)
  {
    if ok && FitsLane(v, k) {
      ok', acc' := true, OrLane(acc, v, k);
    } else {
      ok', acc' := false, acc;
    }
  }

  /** One turn of the `for k` loop on one word: lane `k` is `v`. */
  lemma LaneStep(b: seq<int>, k: nat, v: int, ok: bool, acc: word, ok': bool, acc': word)
    requires k < |b| == 4 && b[k] == v
    requires ok == LanesFit(b, k) && (ok ==> acc == OrLanes(b, k))
    requires ok' == (ok && FitsLane(v, k)) && (ok' ==> acc' == OrLane(acc, v, k))
    ensures ok' == LanesFit(b, k + 1) && (ok' ==> acc' == OrLanes(b, k + 1))
  {
  }

  /** The three words of the group whose lane 0 is slot `p` after `k`
      turns of the `for k` loop: each flag says whether the lanes so far
      fit, and while they do the word is their OR. */
  predicate Partway(ps: seq<Pixel>, ld: nat, p: nat, k: nat, okr: bool, okg: bool, okb: bool, r: word, g: word, b: word)
    requires p + 3 * ld < |ps| && k <= 4
  {
    var rl, gl, bl := Lanes(ps, ld, p, 0), Lanes(ps, ld, p, 1), Lanes(ps, ld, p, 2);
    okr == LanesFit(rl, k) && (okr ==> r == OrLanes(rl, k)) &&
    okg == LanesFit(gl, k) && (okg ==> g == OrLanes(gl, k)) &&
    okb == LanesFit(bl, k) && (okb ==> b == OrLanes(bl, k))
  }

  /** `rvec |= pixel.r << l`, and the same for green and blue: lane `k` of
      the three words of the group whose lane 0 is slot `p`. */
  method OrPixel(ghost ps: seq<Pixel>, ghost ld: nat, ghost p: nat, k: nat, pixel: Pixel,
                 okr: bool, okg: bool, okb: bool, r: word, g: word, b: word)
    returns (okr': bool, okg': bool, okb': bool, r': word, g': word, b': word)
    requires p + 3 * ld < |ps| && k < 4 && p + k * ld < |ps| && pixel == ps[p + k * ld]
    requires Partway(ps, ld, p, k, okr, okg, okb, r, g, b)
    ensures Partway(ps, ld, p, k + 1, okr', okg', okb', r', g', b')
  {
    okr', r' := OrInto(okr, r, pixel.colour.r, k);
    okg', g' := OrInto(okg, g, pixel.colour.g, k);
    okb', b' := OrInto(okb, b, pixel.colour.b, k);
    PartwayStep(ps, ld, p, k, pixel, okr, okg, okb, r, g, b, okr', okg', okb', r', g', b');
  }

  /** One turn of the `for k` loop on the three words of a group, lane `k`
      being `pixel`. */
  lemma PartwayStep(ps: seq<Pixel>, ld: nat, p: nat, k: nat, pixel: Pixel,
                    okr: bool, okg: bool, okb: bool, r: word, g: word, b: word,
                    okr': bool, okg': bool, okb': bool, r': word, g': word, b': word)
    requires p + 3 * ld < |ps| && k < 4 && p + k * ld < |ps| && pixel == ps[p + k * ld]
    requires Partway(ps, ld, p, k, okr, okg, okb, r, g, b)
    requires okr' == (okr && FitsLane(pixel.colour.r, k)) && (okr' ==> r' == OrLane(r, pixel.colour.r, k))
    requires okg' == (okg && FitsLane(pixel.colour.g, k)) && (okg' ==> g' == OrLane(g, pixel.colour.g, k))
    requires okb' == (okb && FitsLane(pixel.colour.b, k)) && (okb' ==> b' == OrLane(b, pixel.colour.b, k))
    ensures Partway(ps, ld, p, k + 1, okr', okg', okb', r', g', b')
  {
    PixelLanes(ps, ld, p, k, pixel);
    LaneStep(Lanes(ps, ld, p, 0), k, pixel.colour.r, okr, r, okr', r');
    LaneStep(Lanes(ps, ld, p, 1), k, pixel.colour.g, okg, g, okg', g');
    LaneStep(Lanes(ps, ld, p, 2), k, pixel.colour.b, okb, b, okb', b');
  }

  /** Lane `k` of each channel of a group is that channel of slot
      `p + k * ld`. */
  lemma PixelLanes(ps: seq<Pixel>, ld: nat, p: nat, k: nat, pixel: Pixel)
    requires p + 3 * ld < |ps| && k < 4 && p + k * ld < |ps| && pixel == ps[p + k * ld]
    ensures Lanes(ps, ld, p, 0)[k] == pixel.colour.r
    ensures Lanes(ps, ld, p, 1)[k] == pixel.colour.g
    ensures Lanes(ps, ld, p, 2)[k] == pixel.colour.b
  {
  }

  /** Lane `k` of the high group of `j` lies `4 * ld` slots above lane `k`
      of the low group. */
  lemma SlotAbove(j: nat, k: nat, ld: nat)
    requires k < 4 && j < ld
    ensures j + (k + 4) * ld == (j + 4 * ld) + k * ld && j + (k + 4) * ld < 8 * ld
  {
    MulMonotone(k, 3, ld);
  }

  /** The three words of the group whose lane 0 is slot `p`, as the `for k`
      loop leaves them: `ok` says whether `struct.pack` takes all three. */
  predicate GroupWordsAre(ps: seq<Pixel>, ld: nat, p: nat, ok: bool, r: word, g: word, b: word)
    requires p + 3 * ld < |ps|
  {
    ok == GroupFits(ps, ld, p) &&
    (ok ==> r == LaneWord(ps, ld, p, 0) && g == LaneWord(ps, ld, p, 1) && b == LaneWord(ps, ld, p, 2))
  }

  /** The six words of groups `j` and `j + ld` of a frame, before
      transposing: lane `k` of the low group is slot `j + k * ld`, of the
      high group slot `j + (k + 4) * ld`. `okLo` and `okHi` say whether
      each group's words fit 32 bits. */
  method PackLanes(states: array<Pixel>, ld: nat, j: nat)
    returns (okLo: bool, rlo: word, glo: word, blo: word, okHi: bool, rhi: word, ghi: word, bhi: word)
    requires j < ld && states.Length == 8 * ld
    ensures j + 7 * ld < 8 * ld
    ensures GroupWordsAre(states[..], ld, j, okLo, rlo, glo, blo)
    ensures GroupWordsAre(states[..], ld, j + 4 * ld, okHi, rhi, ghi, bhi)
  {
    ghost var ps := states[..];
    MulMonotone(3, 7, ld);
    ghost var hi := j + 4 * ld;
    var rl, gl, bl, rh, gh, bh := true, true, true, true, true, true;
    rlo, glo, blo, rhi, ghi, bhi := 0, 0, 0, 0, 0, 0;
    for k := 0 to 4
      invariant Partway(ps, ld, j, k, rl, gl, bl, rlo, glo, blo)
      invariant Partway(ps, ld, hi, k, rh, gh, bh, rhi, ghi, bhi)
    {
      var pixel := states[j + k * ld];
      rl, gl, bl, rlo, glo, blo := OrPixel(ps, ld, j, k, pixel, rl, gl, bl, rlo, glo, blo);
      SlotAbove(j, k, ld);
      pixel := states[j + (k + 4) * ld];
      rh, gh, bh, rhi, ghi, bhi := OrPixel(ps, ld, hi, k, pixel, rh, gh, bh, rhi, ghi, bhi);
    }
    okLo, okHi := rl && gl && bl, rh && gh && bh;
    GroupPacked(ps, ld, j, rl, gl, bl, rlo, glo, blo);
    GroupPacked(ps, ld, hi, rh, gh, bh, rhi, ghi, bhi);
  }

  /** The three words of a group, from what the `for k` loop leaves for
      each channel. */
  lemma GroupPacked(ps: seq<Pixel>, ld: nat, p: nat, okr: bool, okg: bool, okb: bool, r: word, g: word, b: word)
    requires p + 3 * ld < |ps| && Partway(ps, ld, p, 4, okr, okg, okb, r, g, b)
    ensures GroupWordsAre(ps, ld, p, okr && okg && okb, r, g, b)
  {
    LanesPacked(ps, ld, p, 0);
    LanesPacked(ps, ld, p, 1);
    LanesPacked(ps, ld, p, 2);
  }

  /** Groups `j` and `j + ld` of every column `j` below `n` fit: the groups
      the `for j` loop has packed so far. */
  predicate ColumnsFit(ps: seq<Pixel>, ld: nat, n: nat)
    requires |ps| == 8 * ld && n <= ld
  {
    forall j :: 0 <= j < n ==> ColumnFits(ps, ld, j)
  }

  /** Groups `j` and `j + ld` of a frame fit. */
  predicate ColumnFits(ps: seq<Pixel>, ld: nat, j: nat)
    requires |ps| == 8 * ld && j < ld
  {
    GroupFits(ps, ld, j) && GroupFits(ps, ld, j + 4 * ld)
  }

  /** A frame packs exactly when every column does. */
  lemma ColumnsPack(ps: seq<Pixel>, ld: nat)
    requires |ps| == 8 * ld
    ensures Packs(ps, ld) <==> ColumnsFit(ps, ld, ld)
  {
    if Packs(ps, ld) {
      forall j | 0 <= j < ld
        ensures ColumnFits(ps, ld, j)
      {
        assert GroupSlot(j, ld) == j;
        assert GroupSlot(j + ld, ld) == j + 4 * ld;
        assert GroupFits(ps, ld, GroupSlot(j, ld)) && GroupFits(ps, ld, GroupSlot(j + ld, ld));
      }
    }
    if ColumnsFit(ps, ld, ld) {
      forall g | 0 <= g < 2 * ld
        ensures GroupFits(ps, ld, GroupSlot(g, ld))
      {
        if g < ld {
          assert ColumnFits(ps, ld, g);
        } else {
          assert ColumnFits(ps, ld, g - ld);
          assert GroupSlot(g, ld) == (g - ld) + 4 * ld;
        }
      }
    }
  }

  /** Group `g` of a frame that packs, whose lane 0 is slot `p`, from the
      packed words of its three channels. */
  lemma FrameGroup(ps: seq<Pixel>, ld: nat, g: nat, p: nat, r: word, gr: word, b: word)
    requires Packs(ps, ld) && g < 2 * ld && p == GroupSlot(g, ld) && p + 3 * ld < |ps|
    requires GroupWordsAre(ps, ld, p, true, r, gr, b)
    ensures 12 * g + 12 <= 24 * ld
    ensures GroupBytes(Encode(r), Encode(gr), Encode(b)) == FrameBytes(ps, ld)[12 * g .. 12 * g + 12]
  {
    FrameLayout(ps, ld, g);
  }

  /** Groups `j` and `ld + j` of a frame that packs, from the six words
      `PackLanes` gathers for them. */
  lemma GroupPair(ps: seq<Pixel>, ld: nat, j: nat, rlo: word, glo: word, blo: word, rhi: word, ghi: word, bhi: word)
    requires Packs(ps, ld) && j < ld && j + 7 * ld < |ps|
    requires GroupWordsAre(ps, ld, j, true, rlo, glo, blo)
    requires GroupWordsAre(ps, ld, j + 4 * ld, true, rhi, ghi, bhi)
    ensures 12 * (ld + j) + 12 <= 24 * ld
    ensures GroupBytes(Encode(rlo), Encode(glo), Encode(blo)) == FrameBytes(ps, ld)[12 * j .. 12 * j + 12]
    ensures GroupBytes(Encode(rhi), Encode(ghi), Encode(bhi)) == FrameBytes(ps, ld)[12 * (ld + j) .. 12 * (ld + j) + 12]
  {
    FrameGroup(ps, ld, j, j, rlo, glo, blo);
    var g, p := ld + j, j + 4 * ld;
    assert GroupSlot(g, ld) == p;
    FrameGroup(ps, ld, g, p, rhi, ghi, bhi);
  }

  /** `data[at:at+12] = struct.pack("<III", r, g, b)`. */
  method WriteGroup(data: array<byte>, at: nat, r: word, g: word, b: word)
    requires at + 12 <= data.Length
    modifies data
    ensures data[..] == old(data[..])[..at] + GroupBytes(r, g, b) + old(data[..])[at + 12..]
  {
    var group := GroupBytes(r, g, b);
    forall t | at <= t < at + 12 {
      data[t] := group[t - at];
    }
    assert data[..] == old(data[..])[..at] + group + old(data[..])[at + 12..] by {
      forall t | 0 <= t < data.Length
        ensures data[t] == (old(data[..])[..at] + group + old(data[..])[at + 12..])[t]
      {
      }
    }
  }

  /** Byte `t` of a frame starting at `base` is written once the groups
      `0 .. j - 1` and `ld .. ld + j - 1` are. */
  predicate Written(t: int, base: nat, ld: nat, j: nat)
  {
    base <= t < base + 12 * j || base + 12 * ld <= t < base + 12 * ld + 12 * j
  }

  /** The buffer `before` with the bytes of `frame` written where `Written`
      says. */
  function Partial(before: seq<byte>, frame: seq<byte>, base: nat, ld: nat, j: nat): (r: seq<byte>)
    requires j <= ld && base + 24 * ld <= |before| && |frame| == 24 * ld
    ensures |r| == |before|
  {
    seq(|before|, t requires 0 <= t < |before| => if Written(t, base, ld, j) then frame[t - base] else before[t])
  }

  /** Packs the current pixel states into the `24 * ld` bytes of a frame at
      `base`: group `j` at `base + 12 * j` and group `ld + j` another
      `12 * ld` bytes on. `ok` is false where `struct.pack` raises, at the
      first group whose words do not fit 32 bits. */
  method PackFrame(states: array<Pixel>, ld: nat, data: array<byte>, base: nat) returns (ok: bool)
    requires states.Length == 8 * ld && base + 24 * ld <= data.Length
    modifies data
    ensures ok == Packs(states[..], ld)
    ensures ok ==> data[..] == old(data[..])[..base] + FrameBytes(states[..], ld) + old(data[..])[base + 24 * ld..]
  {
    ghost var ps := states[..];
    ghost var frame := if Packs(ps, ld) then FrameBytes(ps, ld) else seq(24 * ld, _ => 0);
    ghost var before := data[..];
    ColumnsPack(ps, ld);
    for j := 0 to ld
      invariant ColumnsFit(ps, ld, j)
      invariant Packs(ps, ld) ==> data[..] == Partial(before, frame, base, ld, j)
    {
      var fits := PackColumn(states, ld, data, base, j, before, frame);
      if !fits {
        return false;
      }
    }
    FrameWritten(before, frame, base, ld);
    return true;
  }

  /** One turn of the `for j` loop: groups `j` and `ld + j` of a frame at
      `base` are packed and written, unless their words do not fit. */
  method PackColumn(states: array<Pixel>, ld: nat, data: array<byte>, base: nat, j: nat,
                    ghost before: seq<byte>, ghost frame: seq<byte>) returns (fits: bool)
    requires states.Length == 8 * ld && j < ld && base + 24 * ld <= data.Length == |before| && |frame| == 24 * ld
    requires Packs(states[..], ld) ==> frame == FrameBytes(states[..], ld) && data[..] == Partial(before, frame, base, ld, j)
    modifies data
    ensures fits == ColumnFits(states[..], ld, j)
    ensures fits && Packs(states[..], ld) ==> data[..] == Partial(before, frame, base, ld, j + 1)
  {
    ghost var ps := states[..];
    var okLo, rlo, glo, blo, okHi, rhi, ghi, bhi := PackLanes(states, ld, j);
    if !okLo || !okHi {
      return false;
    }
    if Packs(ps, ld) {
      GroupPair(ps, ld, j, rlo, glo, blo, rhi, ghi, bhi);
    }
    WriteColumn(data, base, ld, j, rlo, glo, blo, rhi, ghi, bhi, before, frame, Packs(ps, ld));
    return true;
  }

  /** Byte `t` is one of groups `j` and `ld + j` of a frame at `base`. */
  predicate Touched(t: int, base: nat, ld: nat, j: nat)
  {
    base + 12 * j <= t < base + 12 * j + 12 || base + 12 * (ld + j) <= t < base + 12 * (ld + j) + 12
  }

  /** Writes group `j` of a frame at `base` and group `ld + j` another
      `12 * ld` bytes on; when the buffer holds the groups before them and
      these are the frame's, it then holds those before `j + 1`. */
  method WriteColumn(data: array<byte>, base: nat, ld: nat, j: nat,
                     rlo: word, glo: word, blo: word, rhi: word, ghi: word, bhi: word,
                     ghost before: seq<byte>, ghost frame: seq<byte>, ghost packs: bool)
    requires j < ld && base + 24 * ld <= data.Length == |before| && |frame| == 24 * ld
    requires packs ==> GroupBytes(Encode(rlo), Encode(glo), Encode(blo)) == frame[12 * j .. 12 * j + 12]
    requires packs ==> GroupBytes(Encode(rhi), Encode(ghi), Encode(bhi)) == frame[12 * (ld + j) .. 12 * (ld + j) + 12]
    requires packs ==> data[..] == Partial(before, frame, base, ld, j)
    modifies data
    ensures packs ==> data[..] == Partial(before, frame, base, ld, j + 1)
    ensures !packs ==> forall t :: 0 <= t < data.Length && !Touched(t, base, ld, j) ==> data[t] == old(data[t])
  {
    ghost var mid := data[..];
    var k := base + j * 12;
    ghost var k1 := k;
    WriteGroup(data, k, Encode(rlo), Encode(glo), Encode(blo));
    ghost var mid2 := data[..];
    k := k + 12 * ld;
    WriteGroup(data, k, Encode(rhi), Encode(ghi), Encode(bhi));
    if packs {
      PartialStep(before, frame, base, ld, j, k1, k, GroupBytes(Encode(rlo), Encode(glo), Encode(blo)),
                  GroupBytes(Encode(rhi), Encode(ghi), Encode(bhi)), mid, mid2, data[..]);
    }
  }

  /** Writing groups `j` and `ld + j` of the frame extends what is written. */
  lemma PartialStep(before: seq<byte>, frame: seq<byte>, base: nat, ld: nat, j: nat, k1: nat, k2: nat,
                    lo: seq<byte>, hi: seq<byte>, mid: seq<byte>, mid2: seq<byte>, now: seq<byte>)
    requires j < ld && base + 24 * ld <= |before| && |frame| == 24 * ld
    requires k1 == base + j * 12 && k2 == k1 + 12 * ld && |mid| == |before|
    requires lo == frame[12 * j .. 12 * j + 12] && hi == frame[12 * (ld + j) .. 12 * (ld + j) + 12]
    requires mid == Partial(before, frame, base, ld, j)
    requires mid2 == mid[..k1] + lo + mid[k1 + 12..]
    requires now == mid2[..k2] + hi + mid2[k2 + 12..]
    ensures now == Partial(before, frame, base, ld, j + 1)
  {
    var goal := Partial(before, frame, base, ld, j + 1);
    forall t | 0 <= t < |now|
      ensures now[t] == goal[t]
    {
    }
  }

  /** Once both halves of every group are written, the buffer holds the
      frame between the old bytes before and after it. */
  lemma FrameWritten(before: seq<byte>, frame: seq<byte>, base: nat, ld: nat)
    requires base + 24 * ld <= |before| && |frame| == 24 * ld
    ensures Partial(before, frame, base, ld, ld) == before[..base] + frame + before[base + 24 * ld..]
  {
    var now := Partial(before, frame, base, ld, ld);
    var whole := before[..base] + frame + before[base + 24 * ld..];
    forall t | 0 <= t < |now|
      ensures now[t] == whole[t]
    {
      if base <= t < base + 24 * ld {
        assert Written(t, base, ld, ld);
      }
    }
  }

  /** A frame that raises ends the rendering: later frames are not reached. */
  lemma {:induction false} RenderStopsAt(s: seq<Keypoint>, ps: seq<Pixel>, ld: nat, n: nat, m: nat)
    requires n <= m && Render(s, ps, ld, n).Failure?
    ensures Render(s, ps, ld, m) == Render(s, ps, ld, n)
    decreases m - n
  {
    if n < m {
      RenderStopsAt(s, ps, ld, n, m - 1);
    }
  }

  /** Rendering one more frame appends its bytes. */
  lemma FramesAppend(snaps: seq<seq<Pixel>>, f: seq<Pixel>, ld: nat)
    requires forall i :: 0 <= i < |snaps| ==> Packs(snaps[i], ld)
    requires Packs(f, ld)
    ensures FramesBytes(snaps + [f], ld) == FramesBytes(snaps, ld) + FrameBytes(f, ld)
  {
    var all := snaps + [f];
    assert all[..|snaps|] == snaps;
    assert FrameSeq(all, ld)[..|snaps|] == FrameSeq(snaps, ld);
  }

  /** Frame `i` of a buffer of `duration` frames of `24 * ld` bytes starts
      at `i * ld * 24`, and frame `i + 1` right after it. */
  lemma FrameOffsets(i: nat, duration: nat, ld: nat)
    ensures (i + 1) * ld * 24 == i * ld * 24 + 24 * ld
    ensures i < duration ==> (i + 1) * ld * 24 <= duration * ld * 24
  {
    if i < duration {
      MulMonotone(i + 1, duration, ld * 24);
    }
  }

  /** One turn of the `for i` loop: frame `i` steps the pixel states in
      place and packs them into its bytes at `done`, or raises. */
  method RenderFrame(list: KeypointList, states: array<Pixel>, data: array<byte>, ld: nat, duration: nat, i: nat,
                     ghost ps0: seq<Pixel>, ghost snaps: seq<seq<Pixel>>, ghost done: nat)
    returns (err: Option<CompileError>, ghost snaps': seq<seq<Pixel>>, ghost done': nat)
    requires list.Valid() && states.Length == 8 * ld && data.Length == duration * ld * 24 && i < duration
    requires Render(Elems(list.root), ps0, ld, i) == Success(snaps) && states[..] == Latest(ps0, snaps)
    requires done == i * ld * 24 <= data.Length && data[..done] == FramesBytes(snaps, ld)
    modifies states, data
    ensures err.Some? ==> Render(Elems(list.root), ps0, ld, i + 1) == Failure(err.value)
    ensures err.None? ==> Render(Elems(list.root), ps0, ld, i + 1) == Success(snaps') && states[..] == Latest(ps0, snaps')
    ensures err.None? ==> done' == (i + 1) * ld * 24 <= data.Length && data[..done'] == FramesBytes(snaps', ld)
  {
    ghost var s := Elems(list.root);
    ghost var prefix := data[..done];
    snaps', done' := snaps, done;
    err := StepFrame(list, states, i);
    if err.Some? {
      return;
    }
    FrameOffsets(i, duration, ld);
    var ok := PackFrame(states, ld, data, i * ld * 24);
    if !ok {
      assert Render(s, ps0, ld, i + 1) == Failure(WordOutOfRange);
      return Some(WordOutOfRange), snaps', done';
    }
    done' := done + 24 * ld;
    assert data[..done'] == prefix + FrameBytes(states[..], ld);
    FramesAppend(snaps, states[..], ld);
    snaps' := snaps + [states[..]];
  }

  /** The `for i` loop over the frames: each frame steps the pixel states
      in place and packs them into its `24 * ld` bytes at `i * ld * 24`;
      the first frame that raises, stepping or packing, ends the loop. */
  method RenderFrames(list: KeypointList, states: array<Pixel>, data: array<byte>, ld: nat, duration: nat)
    returns (err: Option<CompileError>)
    requires list.Valid() && states.Length == 8 * ld && data.Length == duration * ld * 24
    modifies states, data
    ensures match Render(Elems(list.root), old(states[..]), ld, duration)
      case Success(snaps) => err == None && data[..] == FramesBytes(snaps, ld)
      case Failure(e) => err == Some(e)
  {
    ghost var s := Elems(list.root);
    ghost var ps0 := states[..];
    ghost var snaps: seq<seq<Pixel>> := [];
    ghost var done := 0;
    for i := 0 to duration
      invariant Render(s, ps0, ld, i) == Success(snaps)
      invariant states[..] == Latest(ps0, snaps)
      invariant done == i * ld * 24 <= data.Length && data[..done] == FramesBytes(snaps, ld)
    {
      var e;
      e, snaps, done := RenderFrame(list, states, data, ld, duration, i, ps0, snaps, done);
      if e.Some? {
        RenderStopsAt(s, ps0, ld, i + 1, duration);
        return e;
      }
    }
    assert data[..] == data[..done];
    return None;
  }

  /** `LEDSignCompiledProgram(program, is_compressed)`: the pixel states,
      the buffer of `duration * ld * 24` bytes filled frame by frame, the
      header fields and the checksum of the data. */
  method Compile(list: KeypointList, hw: Hardware, duration: nat, compressed: bool) returns (res: Result<Compiled, CompileError>)
    requires list.Valid()
    ensures res == CompileSpec(Elems(list.root), hw, duration, compressed)
  {
    var ld, ps0 := InitialStates(list, hw, compressed);
    var states := new Pixel[|ps0|](q requires 0 <= q < |ps0| => ps0[q]);
    assert states[..] == ps0;
    var data := new byte[duration * ld * 24](_ => 0);
    var err := RenderFrames(list, states, data, ld, duration);
    if err.Some? {
      return Failure(err.value);
    }
    var c := Assemble(data[..], ld);
    return Success(c);
  }

  /** The header fields of the constructor and the checksum of the filled
      buffer. */
  method Assemble(data: seq<byte>, ld: nat) returns (c: Compiled)
    ensures c == Compiled(data, ld, Max(|data| / 4, 1), Max(6 * ld, 1) * 60, BitOr(3 * ld, |data| * 64), Crc.Checksum(data))
  {
    var maxOffset := Max(|data| / 4, 1);
    var offsetDivisor := Max(6 * ld, 1) * 60;
    var ctrl := BitOr(3 * ld, |data| * 64);
    var crc := new Crc.Checksummer(data);
    c := Compiled(data, ld, maxOffset, offsetDivisor, ctrl, crc.value);
  }
}
