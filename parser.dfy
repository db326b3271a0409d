/** The decoder of compiled programs, `LEDSignProgramParser` of
    ledsign/core.py: it undoes the bit-plane transpose of each 12-byte group,
    fits a piecewise-linear ramp to every pixel's colour samples, and at each
    frame boundary commits the pixels whose ramp restarted, merging pixels
    whose committed states are equal into one keypoint. */
module Parser {
  import opened Arith
  import opened Transpose
  import opened Hardware

  /** `MAX_LINE_EXTRACTION_ERROR`: the summed error, per frame of the ramp,
      that a sample may have and still extend the ramp. */
  const MaxLineExtractionError: nat := 2

  // A pixel state packs its colour into bits 0-23, the running duration into
  // bits 24-43 and the end frame into bits 44 and up, as one Python integer.
  const ColourSpan: nat := 0x100_0000
  const DurationSpan: nat := 0x10_0000
  const EndShift: nat := 0x1000_0000_0000
  const StateSpan: nat := 0x1_0000_0000_0000_0000
  /** `0x0000100001000000`: one more frame of duration and of end. */
  const Tick: nat := 0x1000_0100_0000

  /** `v & 0xffffff`. */
  function Colour(v: nat): nat { v % ColourSpan }
  /** `(v >> 16) & 0xff`. */
  function Red(v: nat): nat { (v / 0x1_0000) % 0x100 }
  /** `(v >> 8) & 0xff`. */
  function Green(v: nat): nat { (v / 0x100) % 0x100 }
  /** `v & 0xff`. */
  function Blue(v: nat): nat { v % 0x100 }
  /** `(v >> 24) & 0xfffff`. */
  function Duration(v: nat): nat { (v / ColourSpan) % DurationSpan }
  /** `v >> 44`. */
  function End(v: nat): nat { v / EndShift }
  /** `v & 0xfffff00000000000`: the 20 end bits below bit 64. */
  function KeepEnd(v: nat): nat { (v % StateSpan) / EndShift * EndShift }
  /** `v & 0xffffffffff000000`: the duration and end bits below bit 64. */
  function KeepTiming(v: nat): nat { (v % StateSpan) / ColourSpan * ColourSpan }

  function Abs(x: int): nat { if x < 0 then -x else x }

  /** A state built from an end, a duration and a colour has those fields. */
  lemma Compose(e: nat, d: nat, r: nat, g: nat, b: nat)
    requires d < DurationSpan && r < 0x100 && g < 0x100 && b < 0x100
    ensures var v := e * EndShift + d * ColourSpan + r * 0x1_0000 + g * 0x100 + b;
      Colour(v) == r * 0x1_0000 + g * 0x100 + b && Duration(v) == d && End(v) == e &&
      Red(v) == r && Green(v) == g && Blue(v) == b
  {
    var c := r * 0x1_0000 + g * 0x100 + b;
    var v := e * EndShift + d * ColourSpan + c;
    DivModUnique(v, ColourSpan, e * DurationSpan + d, c);
    DivModUnique(e * DurationSpan + d, DurationSpan, e, d);
    DivModUnique(v, EndShift, e, d * ColourSpan + c);
    DivModUnique(v, 0x1_0000, e * 0x1000_0000 + d * 0x100 + r, g * 0x100 + b);
    DivModUnique(e * 0x1000_0000 + d * 0x100 + r, 0x100, e * 0x10_0000 + d, r);
    DivModUnique(v, 0x100, e * 0x10_0000_0000 + d * 0x1_0000 + r * 0x100 + g, b);
    DivModUnique(e * 0x10_0000_0000 + d * 0x1_0000 + r * 0x100 + g, 0x100,
                 e * 0x1000_0000 + d * 0x100 + r, g);
  }

  /** What the two masks keep of a state: its end modulo 2^20, and its
      duration. */
  lemma Masks(v: nat)
    ensures KeepTiming(v) == (End(v) % DurationSpan) * EndShift + Duration(v) * ColourSpan
    ensures KeepEnd(v) == (End(v) % DurationSpan) * EndShift
  {
    var c, w := v % ColourSpan, v / ColourSpan;
    var d, w2 := w % DurationSpan, w / DurationSpan;
    var e, h := w2 % DurationSpan, w2 / DurationSpan;
    assert v == h * StateSpan + e * EndShift + d * ColourSpan + c;
    DivModUnique(v, EndShift, h * DurationSpan + e, d * ColourSpan + c);
    DivModUnique(h * DurationSpan + e, DurationSpan, h, e);
    DivModUnique(v, StateSpan, h, e * EndShift + d * ColourSpan + c);
    DivModUnique(e * EndShift + d * ColourSpan + c, ColourSpan, e * DurationSpan + d, c);
    DivModUnique(e * EndShift + d * ColourSpan + c, EndShift, e, d * ColourSpan + c);
  }

  /** The summed extrapolation error of a new sample against the ramp that
      starts at `prev` and has reached `curr` after `Duration(curr)` frames. */
  function LineError(prev: nat, curr: nat, r: nat, g: nat, b: nat): nat
  {
    var d := Duration(curr);
    Abs(r * d - Red(curr) * (d + 1) + Red(prev)) +
    Abs(g * d - Green(curr) * (d + 1) + Green(prev)) +
    Abs(b * d - Blue(curr) * (d + 1) + Blue(prev))
  }

  /** The sample extends the ongoing ramp. */
  predicate Absorbs(prev: nat, curr: nat, r: nat, g: nat, b: nat)
  {
    prev != 0 && LineError(prev, curr, r, g, b) <= Duration(curr) * MaxLineExtractionError
  }

  /** A pixel's new previous and current states, and whether it goes on the
      update stack. */
  datatype PixelUpdate = PixelUpdate(prev: nat, curr: nat, pushed: bool)

  /** One colour sample of one pixel (the body of the `for k` loop). */
  function SampleStep(prev: nat, curr: nat, r: nat, g: nat, b: nat): PixelUpdate
  {
    var restart := !Absorbs(prev, curr, r, g, b);
    var base := if restart then KeepEnd(curr) else curr;
    PixelUpdate(if restart then curr else prev,
                KeepTiming(base) + r * 0x1_0000 + g * 0x100 + b + Tick,
                restart && curr != 0 && (prev == 0 || Colour(curr) != Colour(prev)))
  }

  /** The new current state written after a sample: the colour replaced, one
      more frame of duration (carrying into the end) and one more of end. */
  lemma TickFields(base: nat, r: nat, g: nat, b: nat)
    requires r < 0x100 && g < 0x100 && b < 0x100
    ensures var v := KeepTiming(base) + r * 0x1_0000 + g * 0x100 + b + Tick;
      Red(v) == r && Green(v) == g && Blue(v) == b &&
      Colour(v) == r * 0x1_0000 + g * 0x100 + b &&
      Duration(v) == (Duration(base) + 1) % DurationSpan &&
      End(v) == End(base) % DurationSpan + 1 + (Duration(base) + 1) / DurationSpan
  {
    var e, d := End(base) % DurationSpan, Duration(base);
    Masks(base);
    if d + 1 < DurationSpan {
      Compose(e + 1, d + 1, r, g, b);
    } else {
      Compose(e + 2, 0, r, g, b);
    }
  }

  /** Restarting keeps only the end, below bit 64. */
  lemma KeepEndFields(v: nat)
    ensures Duration(KeepEnd(v)) == 0 && End(KeepEnd(v)) == End(v) % DurationSpan
  {
    Masks(v);
    Compose(End(v) % DurationSpan, 0, 0, 0, 0);
  }

  /** A sample always becomes the current colour and advances the end by one
      frame. When it is absorbed, the ramp start stays, nothing is pushed and
      the duration grows by one (a carry out of its 20 bits moves the end on
      once more); otherwise the current state becomes the ramp start, the
      duration restarts at one while the end is kept, and the pixel is
      pushed exactly when it had a state whose colour differs from the ramp
      start's. */
  lemma SampleFields(prev: nat, curr: nat, r: nat, g: nat, b: nat)
    requires r < 0x100 && g < 0x100 && b < 0x100
    ensures var u := SampleStep(prev, curr, r, g, b);
      Red(u.curr) == r && Green(u.curr) == g && Blue(u.curr) == b &&
      Colour(u.curr) == r * 0x1_0000 + g * 0x100 + b
    ensures var u := SampleStep(prev, curr, r, g, b);
      Absorbs(prev, curr, r, g, b) ==>
        u.prev == prev && !u.pushed &&
        Duration(u.curr) == (Duration(curr) + 1) % DurationSpan &&
        End(u.curr) == End(curr) % DurationSpan + 1 + (Duration(curr) + 1) / DurationSpan
    ensures var u := SampleStep(prev, curr, r, g, b);
      !Absorbs(prev, curr, r, g, b) ==>
        u.prev == curr && Duration(u.curr) == 1 && End(u.curr) == End(curr) % DurationSpan + 1 &&
        u.pushed == (curr != 0 && (prev == 0 || Colour(curr) != Colour(prev)))
  {
    if Absorbs(prev, curr, r, g, b) {
      AbsorbedFields(prev, curr, r, g, b);
    } else {
      RestartFields(prev, curr, r, g, b);
    }
  }

  /** The absorbed case of `SampleFields`. */
  lemma AbsorbedFields(prev: nat, curr: nat, r: nat, g: nat, b: nat)
    requires r < 0x100 && g < 0x100 && b < 0x100 && Absorbs(prev, curr, r, g, b)
    ensures var u := SampleStep(prev, curr, r, g, b);
      u == PixelUpdate(prev, KeepTiming(curr) + r * 0x1_0000 + g * 0x100 + b + Tick, false)
    ensures var v := KeepTiming(curr) + r * 0x1_0000 + g * 0x100 + b + Tick;
      Red(v) == r && Green(v) == g && Blue(v) == b &&
      Colour(v) == r * 0x1_0000 + g * 0x100 + b &&
      Duration(v) == (Duration(curr) + 1) % DurationSpan &&
      End(v) == End(curr) % DurationSpan + 1 + (Duration(curr) + 1) / DurationSpan
  {
    TickFields(curr, r, g, b);
  }

  /** The restarting case of `SampleFields`. */
  lemma RestartFields(prev: nat, curr: nat, r: nat, g: nat, b: nat)
    requires r < 0x100 && g < 0x100 && b < 0x100 && !Absorbs(prev, curr, r, g, b)
    ensures var u := SampleStep(prev, curr, r, g, b);
      u == PixelUpdate(curr, KeepTiming(KeepEnd(curr)) + r * 0x1_0000 + g * 0x100 + b + Tick,
                       curr != 0 && (prev == 0 || Colour(curr) != Colour(prev)))
    ensures var v := KeepTiming(KeepEnd(curr)) + r * 0x1_0000 + g * 0x100 + b + Tick;
      Red(v) == r && Green(v) == g && Blue(v) == b &&
      Colour(v) == r * 0x1_0000 + g * 0x100 + b &&
      Duration(v) == 1 && End(v) == End(curr) % DurationSpan + 1
  {
    var e := End(curr) % DurationSpan;
    KeepEndFields(curr);
    DivModUnique(e, DurationSpan, 0, e);
    DivModUnique(1, DurationSpan, 0, 1);
    TickFields(KeepEnd(curr), r, g, b);
  }

  /** The byte position within the current frame, a frame being
      `stride << 1 == 24 * frame_length` bytes: whole frames are taken off
      until less than one is left. */
  function InFrame(pos: nat, fl: nat): (r: nat)
    requires fl > 0
    ensures r < 24 * fl
    decreases pos
  {
    if pos < 24 * fl then pos else InFrame(pos - 24 * fl, fl)
  }

  /** That is `pos % (stride << 1)`. */
  lemma {:induction false} InFrameIsMod(pos: nat, fl: nat)
    requires fl > 0
    ensures InFrame(pos, fl) == pos % (24 * fl)
    decreases pos
  {
    var m := 24 * fl;
    if pos < m {
      DivModUnique(pos, m, 0, pos);
    } else {
      InFrameIsMod(pos - m, fl);
      var q := (pos - m) / m;
      assert (q + 1) * m == q * m + m;
      DivModUnique(pos, m, q + 1, InFrame(pos, fl));
    }
  }

  /** The pixel slot of lane 0 of the group at byte position `pos`:
      `j // 12 + 3 * frame_length * (j >= stride)` for the position `j`
      within the frame, `stride` being `12 * frame_length`. Lane `k` is
      `frame_length * k` further. */
  function Slot(pos: nat, fl: nat): nat
    requires fl > 0
  {
    var j := InFrame(pos, fl);
    j / 12 + (if j >= 12 * fl then 3 * fl else 0)
  }

  /** The group at `pos` is the last of a frame, after which the update stack
      is flushed. */
  predicate FrameEnds(pos: nat, fl: nat)
    requires fl > 0
  {
    InFrame(GroupPos(pos, 1), fl) == 0
  }

  /** How many groups of the current frame precede position `pos`. */
  function GroupsIntoFrame(pos: nat, fl: nat): nat
    requires fl > 0
  {
    InFrame(pos, fl) / 12
  }

  /** The four lanes of a group address pixels below `8 * frame_length`. */
  lemma SlotBound(pos: nat, fl: nat)
    requires fl > 0
    ensures Slot(pos, fl) + 3 * fl < 8 * fl
  {
  }

  /** Positions advance by whole groups and a frame is a whole number of
      groups, so the position within the frame is a whole number of groups. */
  lemma {:induction false} WholeGroups(pos: nat, fl: nat)
    requires fl > 0 && pos % 12 == 0
    ensures InFrame(pos, fl) % 12 == 0
    decreases pos
  {
    if pos >= 24 * fl {
      DivModUnique(pos - 24 * fl, 12, pos / 12 - 2 * fl, 0);
      WholeGroups(pos - 24 * fl, fl);
    }
  }

  /** `k * fl`, added up lane by lane. */
  function LaneOffset(k: nat, fl: nat): nat
  {
    if k == 0 then 0 else LaneOffset(k - 1, fl) + fl
  }

  /** Lane `k` of the group at slot `j` addresses a slot of the frame. */
  lemma LaneSlotBelow(j: nat, k: nat, fl: nat)
    requires j + 3 * fl < 8 * fl && k < 4
    ensures j + LaneOffset(k, fl) < 8 * fl
  {
    assert LaneOffset(1, fl) == fl;
    assert LaneOffset(2, fl) == 2 * fl;
    assert LaneOffset(3, fl) == 3 * fl;
    assert k == 0 || k == 1 || k == 2 || k == 3;
  }

  /** Moving `d` bytes on within a frame, up to its end, which is the
      start of the next frame. */
  lemma {:induction false} InFrameStep(pos: nat, fl: nat, d: nat)
    requires fl > 0 && InFrame(pos, fl) + d <= 24 * fl
    ensures InFrame(pos + d, fl) == if InFrame(pos, fl) + d < 24 * fl then InFrame(pos, fl) + d else 0
    decreases pos
  {
    if pos >= 24 * fl {
      InFrameStep(pos - 24 * fl, fl, d);
    } else if pos + d == 24 * fl {
      assert InFrame(pos + d, fl) == InFrame(0, fl);
    }
  }

  /** Each group moves one further into the frame, unless it ends the frame. */
  lemma NextGroup(pos: nat, fl: nat)
    requires fl > 0 && pos % 12 == 0
    ensures GroupsIntoFrame(pos, fl) < 2 * fl
    ensures !FrameEnds(pos, fl) ==> GroupsIntoFrame(GroupPos(pos, 1), fl) == GroupsIntoFrame(pos, fl) + 1
  {
    var r := InFrame(pos, fl);
    var q := r / 12;
    WholeGroups(pos, fl);
    DivBelow(r, 12, 2 * fl);
    assert r == q * 12;
    MulMonotone(q + 1, 2 * fl, 12);
    InFrameStep(pos, fl, 12);
    if !FrameEnds(pos, fl) {
      DivModUnique(r + 12, 12, q + 1, 0);
    }
  }

  /** Frame `i` of a compiled program is `24 * frame_length` bytes: group `j`
      of its first half holds pixels `j + k * frame_length` and group `j` of
      its second half pixels `j + (k + 4) * frame_length`, and only the last
      group of the second half ends the frame. */
  lemma SlotLayout(i: nat, j: nat, fl: nat)
    requires j < fl
    ensures Slot(24 * fl * i + 12 * j, fl) == j && !FrameEnds(24 * fl * i + 12 * j, fl)
    ensures Slot(24 * fl * i + 12 * fl + 12 * j, fl) == j + 4 * fl
    ensures FrameEnds(24 * fl * i + 12 * fl + 12 * j, fl) <==> j == fl - 1
  {
    InFrameAt(i, 12 * j, fl);
    InFrameAt(i, 12 * j + 12, fl);
    assert GroupPos(24 * fl * i + 12 * j, 1) == 24 * fl * i + (12 * j + 12);
    InFrameAt(i, 12 * fl + 12 * j, fl);
    if j == fl - 1 {
      InFrameAt(i + 1, 0, fl);
      assert GroupPos(24 * fl * i + 12 * fl + 12 * j, 1) == 24 * fl * (i + 1) + 0;
    } else {
      InFrameAt(i, 12 * fl + 12 * j + 12, fl);
      assert GroupPos(24 * fl * i + 12 * fl + 12 * j, 1) == 24 * fl * i + (12 * fl + 12 * j + 12);
    }
  }

  /** Byte `r` of frame `i` lies `r` bytes into its frame. */
  lemma InFrameAt(i: nat, r: nat, fl: nat)
    requires fl > 0 && r < 24 * fl
    ensures InFrame(24 * fl * i + r, fl) == r
  {
    InFrameIsMod(24 * fl * i + r, fl);
    assert 24 * fl * i == i * (24 * fl);
    DivModUnique(24 * fl * i + r, 24 * fl, i, r);
  }

  /** The group of a frame and the lane within it that address pixel `p`. */
  function GroupOf(p: nat, fl: nat): nat
    requires fl > 0
  {
    if p < 4 * fl then p % fl else fl + p % fl
  }

  function LaneOf(p: nat, fl: nat): nat
    requires fl > 0
  {
    if p < 4 * fl then p / fl else p / fl - 4
  }

  /** Lane `k` of a first-half group `j` addresses pixel `j + k * fl`, and
      that is pixel `p` iff `p` is in the first half with remainder `j` and
      quotient `k`. */
  lemma LowPixel(fl: nat, j: nat, k: nat, p: nat)
    requires j < fl && k < 4
    ensures j + k * fl == p <==> p < 4 * fl && p % fl == j && p / fl == k
  {
    if j + k * fl == p {
      DivModUnique(p, fl, k, j);
      MulMonotone(k, 3, fl);
    }
  }

  /** The same for a second-half group and pixel `j + (k + 4) * fl`. */
  lemma HighPixel(fl: nat, j: nat, k: nat, p: nat)
    requires j < fl && k < 4
    ensures j + (k + 4) * fl == p <==> p >= 4 * fl && p % fl == j && p / fl == k + 4
  {
    if j + (k + 4) * fl == p {
      DivModUnique(p, fl, k + 4, j);
      MulMonotone(4, k + 4, fl);
    }
  }

  /** Within every frame each pixel is addressed by exactly one group and
      lane: lane `k` of group `g` addresses pixel `p` iff `g` and `k` are
      `GroupOf(p)` and `LaneOf(p)`. */
  lemma SlotCoversFrame(i: nat, fl: nat, g: nat, k: nat, p: nat)
    requires fl > 0 && g < 2 * fl && k < 4 && p < 8 * fl
    ensures GroupOf(p, fl) < 2 * fl && LaneOf(p, fl) < 4
    ensures Slot(24 * fl * i + 12 * g, fl) + k * fl == p <==> g == GroupOf(p, fl) && k == LaneOf(p, fl)
  {
    var m := 24 * fl;
    assert 24 * fl * i == i * m;
    InFrameIsMod(24 * fl * i + 12 * g, fl);
    DivModUnique(24 * fl * i + 12 * g, m, i, 12 * g);
    DivBelow(p, fl, 8);
    DivBelow(p, fl, 4);
    if g < fl {
      assert Slot(24 * fl * i + 12 * g, fl) == g;
      LowPixel(fl, g, k, p);
    } else {
      assert Slot(24 * fl * i + 12 * g, fl) == g + 3 * fl;
      HighPixel(fl, g - fl, k, p);
      assert g + 3 * fl + k * fl == (g - fl) + (k + 4) * fl;
    }
  }

  /** Every pixel index in `s` is below `n`. */
  predicate InRange(s: seq<nat>, n: nat)
  {
    forall t :: 0 <= t < |s| ==> s[t] < n
  }

  /** A committed pixel state and the union of the masks of the pixels that
      share it: the arguments of one `_add_raw_keypoint` call. */
  datatype Commit = Commit(state: nat, mask: set<nat>)

  /** Removing entry `j` of the stack by moving the top entry into its place:
      `stack_length -= 1; stack[j] = stack[stack_length]`. */
  function SwapRemove(s: seq<nat>, j: nat): (r: seq<nat>)
    requires j < |s|
    ensures |r| == |s| - 1
  {
    s[j := s[|s| - 1]][..|s| - 1]
  }

  /** Swap-removal drops the entry at `j` and keeps every other entry. */
  lemma SwapRemoveElements(s: seq<nat>, j: nat)
    requires j < |s|
    ensures forall p :: p in SwapRemove(s, j) ==> p in s
    ensures forall p :: p in s && p != s[j] ==> p in SwapRemove(s, j)
  {
    var r := SwapRemove(s, j);
    forall p | p in r
      ensures p in s
    {
      var t :| 0 <= t < |r| && r[t] == p;
      if t == j {
        assert p == s[|s| - 1];
      } else {
        assert p == s[t];
      }
    }
    forall p | p in s && p != s[j]
      ensures p in r
    {
      var t :| 0 <= t < |s| && s[t] == p;
      if t == |s| - 1 {
        assert r[j] == p;
      } else {
        assert r[t] == p;
      }
    }
  }

  /** The inner loop of a flush from position `j`: every entry whose state is
      `v` is swap-removed and its mask ORed into `mask`; the result is the
      stack left over and the accumulated mask. */
  function Extract(s: seq<nat>, j: nat, vals: seq<nat>, masks: seq<set<nat>>, v: nat, mask: set<nat>)
    : (r: (seq<nat>, set<nat>))
    requires j <= |s| && InRange(s, |vals|) && |vals| <= |masks|
    ensures |r.0| <= |s| && InRange(r.0, |vals|)
    ensures j < |s| && vals[s[j]] == v ==> |r.0| < |s|
    decreases |s| - j
  {
    if j == |s| then (s, mask)
    else if vals[s[j]] == v then Extract(SwapRemove(s, j), j, vals, masks, v, mask + masks[s[j]])
    else Extract(s, j + 1, vals, masks, v, mask)
  }

  /** The outer loop of a flush: the state of the bottom entry is committed
      with the masks of all entries sharing it, until the stack is empty. */
  function FlushAll(s: seq<nat>, vals: seq<nat>, masks: seq<set<nat>>): seq<Commit>
    requires InRange(s, |vals|) && |vals| <= |masks|
    decreases |s|
  {
    if |s| == 0 then []
    else
      var r := Extract(s, 0, vals, masks, vals[s[0]], {});
      [Commit(vals[s[0]], r.1)] + FlushAll(r.0, vals, masks)
  }

  /** The pixels of `s` whose state is `v`. */
  function PixelsWith(s: seq<nat>, vals: seq<nat>, v: nat): set<nat>
  {
    set p | p in s && p < |vals| && vals[p] == v
  }

  /** The union of the masks of the pixels `ps`. */
  function MaskUnion(ps: set<nat>, masks: seq<set<nat>>): set<nat>
  {
    set p, x | p in ps && p < |masks| && x in masks[p] :: x
  }

  lemma MaskUnionAdd(ps: set<nat>, q: nat, masks: seq<set<nat>>)
    requires q < |masks|
    ensures MaskUnion(ps + {q}, masks) == MaskUnion(ps, masks) + masks[q]
  {
  }

  /** `Extract` leaves exactly the entries whose state is not `v`, and adds
      the masks of all entries whose state is `v`, provided none before `j`
      has state `v`. */
  lemma {:induction false} ExtractSpec(s: seq<nat>, j: nat, vals: seq<nat>, masks: seq<set<nat>>, v: nat, mask: set<nat>)
    requires j <= |s| && InRange(s, |vals|) && |vals| <= |masks|
    requires forall t :: 0 <= t < j ==> vals[s[t]] != v
    ensures var r := Extract(s, j, vals, masks, v, mask);
      (forall p :: p in r.0 <==> p in s && vals[p] != v) &&
      r.1 == mask + MaskUnion(PixelsWith(s, vals, v), masks)
    decreases |s| - j
  {
    if j == |s| {
      assert PixelsWith(s, vals, v) == {};
    } else if vals[s[j]] == v {
      var s' := SwapRemove(s, j);
      SwapRemoveElements(s, j);
      ExtractSpec(s', j, vals, masks, v, mask + masks[s[j]]);
      assert PixelsWith(s, vals, v) == PixelsWith(s', vals, v) + {s[j]};
      MaskUnionAdd(PixelsWith(s', vals, v), s[j], masks);
    } else {
      ExtractSpec(s, j + 1, vals, masks, v, mask);
    }
  }

  /** The committed states are pairwise distinct. */
  predicate DistinctStates(e: seq<Commit>)
  {
    forall i, i' :: 0 <= i < i' < |e| ==> e[i].state != e[i'].state
  }

  /** The state of every pixel of `s` is committed. */
  predicate Covers(e: seq<Commit>, s: seq<nat>, vals: seq<nat>)
  {
    forall p :: p in s && p < |vals| ==> exists i :: 0 <= i < |e| && e[i].state == vals[p]
  }

  /** Each commit is the state of some pixel of `s` and carries exactly the
      masks of the pixels of `s` in that state. */
  predicate Grouped(e: seq<Commit>, s: seq<nat>, vals: seq<nat>, masks: seq<set<nat>>)
  {
    forall i :: 0 <= i < |e| ==>
      (exists p :: p in s && p < |vals| && vals[p] == e[i].state) &&
      e[i].mask == MaskUnion(PixelsWith(s, vals, e[i].state), masks)
  }

  predicate Partitions(e: seq<Commit>, s: seq<nat>, vals: seq<nat>, masks: seq<set<nat>>)
  {
    DistinctStates(e) && Covers(e, s, vals) && Grouped(e, s, vals, masks)
  }

  /** A flush partitions the stacked pixels by state: the committed states are
      pairwise distinct, every stacked pixel's state is committed, and each
      commit carries exactly the masks of the stacked pixels in that state. */
  lemma {:induction false} FlushPartition(s: seq<nat>, vals: seq<nat>, masks: seq<set<nat>>)
    requires InRange(s, |vals|) && |vals| <= |masks|
    ensures Partitions(FlushAll(s, vals, masks), s, vals, masks)
    decreases |s|
  {
    if |s| > 0 {
      var v := vals[s[0]];
      var r := Extract(s, 0, vals, masks, v, {});
      ExtractSpec(s, 0, vals, masks, v, {});
      FlushPartition(r.0, vals, masks);
      var t := FlushAll(r.0, vals, masks);
      RestStates(s, r.0, t, vals, masks, v);
      FlushHeadDistinct(t, v, r.1);
      FlushHeadCovers(s, r.0, t, vals, v, r.1);
      FlushHeadGrouped(s, r.0, t, vals, masks, v, r.1);
    }
  }

  /** The commits of what is left after extracting state `v` have other
      states, and for each of them the remaining pixels in that state are all
      the pixels in that state. */
  lemma RestStates(s: seq<nat>, rest: seq<nat>, t: seq<Commit>, vals: seq<nat>, masks: seq<set<nat>>, v: nat)
    requires InRange(s, |vals|)
    requires forall p :: p in rest <==> p in s && vals[p] != v
    requires Grouped(t, rest, vals, masks)
    ensures forall i :: 0 <= i < |t| ==>
      t[i].state != v && PixelsWith(rest, vals, t[i].state) == PixelsWith(s, vals, t[i].state)
  {
    forall i | 0 <= i < |t|
      ensures t[i].state != v && PixelsWith(rest, vals, t[i].state) == PixelsWith(s, vals, t[i].state)
    {
      var p :| p in rest && p < |vals| && vals[p] == t[i].state;
    }
  }

  lemma FlushHeadDistinct(t: seq<Commit>, v: nat, mask: set<nat>)
    requires DistinctStates(t) && forall i :: 0 <= i < |t| ==> t[i].state != v
    ensures DistinctStates([Commit(v, mask)] + t)
  {
    var e := [Commit(v, mask)] + t;
    forall i, i' | 0 <= i < i' < |e|
      ensures e[i].state != e[i'].state
    {
      if i > 0 {
        assert e[i] == t[i - 1] && e[i'] == t[i' - 1];
      } else {
        assert e[i'] == t[i' - 1];
      }
    }
  }

  lemma FlushHeadCovers(s: seq<nat>, rest: seq<nat>, t: seq<Commit>, vals: seq<nat>, v: nat, mask: set<nat>)
    requires InRange(s, |vals|)
    requires forall p :: p in rest <==> p in s && vals[p] != v
    requires Covers(t, rest, vals)
    ensures Covers([Commit(v, mask)] + t, s, vals)
  {
    var e := [Commit(v, mask)] + t;
    forall p | p in s && p < |vals|
      ensures exists i :: 0 <= i < |e| && e[i].state == vals[p]
    {
      if vals[p] == v {
        assert e[0].state == vals[p];
      } else {
        var i :| 0 <= i < |t| && t[i].state == vals[p];
        assert e[i + 1] == t[i];
      }
    }
  }

  lemma FlushHeadGrouped(s: seq<nat>, rest: seq<nat>, t: seq<Commit>, vals: seq<nat>, masks: seq<set<nat>>, v: nat, mask: set<nat>)
    requires |s| > 0 && s[0] < |vals| && v == vals[s[0]]
    requires forall p :: p in rest ==> p in s
    requires mask == MaskUnion(PixelsWith(s, vals, v), masks)
    requires Grouped(t, rest, vals, masks)
    requires forall i :: 0 <= i < |t| ==>
      t[i].state != v && PixelsWith(rest, vals, t[i].state) == PixelsWith(s, vals, t[i].state)
    ensures Grouped([Commit(v, mask)] + t, s, vals, masks)
  {
    var e := [Commit(v, mask)] + t;
    forall i | 0 <= i < |e|
      ensures (exists p :: p in s && p < |vals| && vals[p] == e[i].state) &&
        e[i].mask == MaskUnion(PixelsWith(s, vals, e[i].state), masks)
    {
      if i == 0 {
        assert s[0] in s;
      } else {
        assert e[i] == t[i - 1];
        var p :| p in rest && p < |vals| && vals[p] == t[i - 1].state;
        assert p in s;
      }
    }
  }

  /** The parser's state as values: previous and current pixel states, the
      live part of the update stack, and the commits made so far. */
  datatype Snapshot = Snapshot(prev: seq<nat>, curr: seq<nat>, stack: seq<nat>, commits: seq<Commit>)

  predicate WellFormed(s: Snapshot, n: nat)
  {
    |s.prev| == n && |s.curr| == n && InRange(s.stack, n)
  }

  function Zeros(n: nat): (z: seq<nat>)
    ensures |z| == n && forall i :: 0 <= i < n ==> z[i] == 0
  {
    seq(n, _ => 0)
  }

  /** One sample applied to pixel `j` (none when there is no such pixel). */
  function ApplySample(s: Snapshot, j: nat, r: nat, g: nat, b: nat): (t: Snapshot)
    ensures |t.prev| == |s.prev| && |t.curr| == |s.curr| && t.commits == s.commits
    ensures InRange(s.stack, |s.prev|) ==> InRange(t.stack, |s.prev|)
  {
    if j < |s.prev| && j < |s.curr| then
      var u := SampleStep(s.prev[j], s.curr[j], r, g, b);
      s.(prev := s.prev[j := u.prev], curr := s.curr[j := u.curr],
         stack := if u.pushed then s.stack + [j] else s.stack)
    else s
  }

  /** Byte `k` of a de-transposed word, as a number: one channel of one
      pixel's sample. */
  function LaneValue(w: word, k: nat): (v: nat)
    requires k < 4
    ensures v < 0x100
  {
    Lane(w, k) as nat
  }

  /** The samples of one group: lane `k` of the three de-transposed words,
      as the red, green and blue channel of one pixel. */
  function Samples(rv: word, gv: word, bv: word): (ss: seq<(nat, nat, nat)>)
    ensures |ss| == 4
    ensures forall k :: 0 <= k < 4 ==> ss[k] == (LaneValue(rv, k), LaneValue(gv, k), LaneValue(bv, k))
  {
    seq(4, k requires 0 <= k < 4 => (LaneValue(rv, k), LaneValue(gv, k), LaneValue(bv, k)))
  }

  /** Samples `k` onwards of a group, sample `k` addressing pixel `j` and
      each further one the pixel one frame length on. */
  function ApplyLanes(s: Snapshot, fl: nat, j: nat, ss: seq<(nat, nat, nat)>, k: nat): (t: Snapshot)
    ensures |t.prev| == |s.prev| && |t.curr| == |s.curr| && t.commits == s.commits
    ensures InRange(s.stack, |s.prev|) ==> InRange(t.stack, |s.prev|)
    decreases |ss| - k
  {
    if k >= |ss| then s
    else ApplyLanes(ApplySample(s, j, ss[k].0, ss[k].1, ss[k].2), fl, j + fl, ss, k + 1)
  }

  /** The commits of a flush over the states `vals`, and an empty stack. */
  function Flushed(s: Snapshot, vals: seq<nat>, masks: seq<set<nat>>): (t: Snapshot)
    requires InRange(s.stack, |vals|) && |vals| <= |masks|
    ensures t.prev == s.prev && t.curr == s.curr && t.stack == []
  {
    s.(stack := [], commits := s.commits + FlushAll(s.stack, vals, masks))
  }

  /** The four samples of one 12-byte group at byte position `pos`: three
      words, de-transposed, whose lanes are the samples of four pixels. */
  function GroupLanes(s: Snapshot, fl: nat, pos: nat, group: seq<byte>): (t: Snapshot)
    requires fl > 0 && |group| == 12 && WellFormed(s, 8 * fl)
    ensures WellFormed(t, 8 * fl) && t.commits == s.commits
  {
    var w := GroupWords(group);
    ApplyLanes(s, fl, Slot(pos, fl), Samples(Decode(w.0), Decode(w.1), Decode(w.2)), 0)
  }

  /** One group; the last group of a frame then flushes the stack over the
      previous states. */
  function ApplyGroup(s: Snapshot, fl: nat, masks: seq<set<nat>>, pos: nat, group: seq<byte>): (t: Snapshot)
    requires fl > 0 && |group| == 12 && WellFormed(s, 8 * fl) && |masks| >= 8 * fl
    ensures WellFormed(t, 8 * fl)
  {
    var t := GroupLanes(s, fl, pos, group);
    if FrameEnds(pos, fl) then Flushed(t, t.prev, masks) else t
  }

  /** The byte position of group `n` of data fed from byte position `offset`. */
  function GroupPos(offset: nat, n: nat): nat
  {
    offset + 12 * n
  }

  /** Groups start at multiples of 12 when the first one does. */
  lemma GroupPosAligned(offset: nat, n: nat)
    requires offset % 12 == 0
    ensures GroupPos(offset, n) % 12 == 0
  {
    DivModUnique(GroupPos(offset, n), 12, offset / 12 + n, 0);
  }

  /** Group `n` of `data`. */
  function GroupAt(data: seq<byte>, n: nat): (g: seq<byte>)
    requires 12 * n + 12 <= |data|
    ensures |g| == 12
  {
    data[12 * n..12 * n + 12]
  }

  /** The first `n` groups of `data`, the first one at byte position `offset`. */
  function ApplyGroups(s: Snapshot, fl: nat, masks: seq<set<nat>>, offset: nat, data: seq<byte>, n: nat): (t: Snapshot)
    requires fl > 0 && 12 * n <= |data| && WellFormed(s, 8 * fl) && |masks| >= 8 * fl
    ensures WellFormed(t, 8 * fl)
  {
    if n == 0 then s
    else ApplyGroup(ApplyGroups(s, fl, masks, offset, data, n - 1), fl, masks, GroupPos(offset, n - 1), GroupAt(data, n - 1))
  }

  /** The fold over `n + 1` groups is the fold over `n` extended by group
      `n`, which lies 12 bytes before group `n + 1`. */
  lemma ApplyGroupsNext(s: Snapshot, fl: nat, masks: seq<set<nat>>, offset: nat, data: seq<byte>, n: nat)
    requires fl > 0 && 12 * n + 12 <= |data| && WellFormed(s, 8 * fl) && |masks| >= 8 * fl
    ensures ApplyGroups(s, fl, masks, offset, data, n + 1) ==
      ApplyGroup(ApplyGroups(s, fl, masks, offset, data, n), fl, masks, GroupPos(offset, n), GroupAt(data, n))
    ensures GroupPos(GroupPos(offset, n), 1) == GroupPos(offset, n + 1)
  {
  }

  /** The fold over `n1 = n + 1` groups. */
  lemma ApplyGroupsStep(s: Snapshot, fl: nat, masks: seq<set<nat>>, offset: nat, data: seq<byte>, n: nat, n1: nat)
    requires fl > 0 && 12 * n1 <= |data| && WellFormed(s, 8 * fl) && |masks| >= 8 * fl && n1 == n + 1
    ensures ApplyGroups(s, fl, masks, offset, data, n1) ==
      ApplyGroup(ApplyGroups(s, fl, masks, offset, data, n), fl, masks, GroupPos(offset, n), GroupAt(data, n))
  {
    ApplyGroupsNext(s, fl, masks, offset, data, n);
  }

  /** Equal group counts give equal folds and equal positions. */
  lemma ApplyGroupsCount(s: Snapshot, fl: nat, masks: seq<set<nat>>, offset: nat, data: seq<byte>, n: nat, m: nat)
    requires fl > 0 && 12 * n <= |data| && WellFormed(s, 8 * fl) && |masks| >= 8 * fl && m == n
    ensures ApplyGroups(s, fl, masks, offset, data, m) == ApplyGroups(s, fl, masks, offset, data, n)
    ensures GroupPos(offset, m) == GroupPos(offset, n)
  {
  }

  /** Sequences that agree up to `k` agree on every slice below `k`. */
  lemma SlicesAgree<T>(d: seq<T>, e: seq<T>, k: nat, i: nat, j: nat)
    requires i <= j <= k <= |d| && k <= |e| && d[..k] == e[..k]
    ensures d[i..j] == e[i..j] && d[..j] == e[..j]
  {
    assert d[i..j] == d[..k][i..j];
    assert e[i..j] == e[..k][i..j];
    assert d[..j] == d[..k][..j];
    assert e[..j] == e[..k][..j];
  }

  /** A slice of `b` is the slice of `a + b` shifted by `|a|`. */
  lemma SliceBehind<T>(a: seq<T>, b: seq<T>, i: nat, j: nat)
    requires i <= j <= |b|
    ensures (a + b)[|a| + i..|a| + j] == b[i..j]
  {
  }

  /** One group applied to equal states at equal positions. */
  lemma ApplyGroupAgrees(x: Snapshot, y: Snapshot, fl: nat, masks: seq<set<nat>>, px: nat, py: nat, gx: seq<byte>, gy: seq<byte>)
    requires fl > 0 && |gx| == 12 && WellFormed(x, 8 * fl) && |masks| >= 8 * fl && x == y && px == py && gx == gy
    ensures ApplyGroup(x, fl, masks, px, gx) == ApplyGroup(y, fl, masks, py, gy)
  {
  }

  /** The fold over `n` groups reads only the first `n` groups of the data. */
  lemma {:induction false} ApplyGroupsPrefix(s: Snapshot, fl: nat, masks: seq<set<nat>>, offset: nat, d: seq<byte>, e: seq<byte>, n: nat)
    requires fl > 0 && 12 * n <= |d| && 12 * n <= |e| && WellFormed(s, 8 * fl) && |masks| >= 8 * fl
    requires d[..12 * n] == e[..12 * n]
    ensures ApplyGroups(s, fl, masks, offset, d, n) == ApplyGroups(s, fl, masks, offset, e, n)
  {
    if n > 0 {
      SlicesAgree(d, e, 12 * n, 12 * (n - 1), 12 * n);
      ApplyGroupsPrefix(s, fl, masks, offset, d, e, n - 1);
      ApplyGroupsNext(s, fl, masks, offset, d, n - 1);
      ApplyGroupsNext(s, fl, masks, offset, e, n - 1);
      ApplyGroupAgrees(ApplyGroups(s, fl, masks, offset, d, n - 1), ApplyGroups(s, fl, masks, offset, e, n - 1),
                       fl, masks, GroupPos(offset, n - 1), GroupPos(offset, n - 1), GroupAt(d, n - 1), GroupAt(e, n - 1));
    }
  }

  /** No groups of `b` after `a`. */
  lemma ApplyGroupsSplitBase(s: Snapshot, fl: nat, masks: seq<set<nat>>, offset: nat, o: nat, a: seq<byte>, b: seq<byte>, k: nat, m: nat, km: nat)
    requires fl > 0 && |a| == 12 * k && WellFormed(s, 8 * fl) && |masks| >= 8 * fl && m == 0 && km == k
    ensures ApplyGroups(ApplyGroups(s, fl, masks, offset, a, k), fl, masks, o, b, m) ==
      ApplyGroups(s, fl, masks, offset, a + b, km)
  {
    assert (a + b)[..12 * k] == a[..12 * k];
    ApplyGroupsPrefix(s, fl, masks, offset, a, a + b, k);
  }

  /** Feeding `a`, `k` whole groups, and then `m` groups of `b` from where
      `a` ended (byte position `o`) is feeding the first `k + m` groups of
      `a + b`: the parser's state does not depend on how the data was cut
      into `update` calls. */
  lemma {:induction false} ApplyGroupsSplit(s: Snapshot, fl: nat, masks: seq<set<nat>>, offset: nat, o: nat, a: seq<byte>, b: seq<byte>, k: nat, m: nat, km: nat)
    requires fl > 0 && |a| == 12 * k && 12 * m <= |b| && WellFormed(s, 8 * fl) && |masks| >= 8 * fl
    requires o == offset + |a| && km == k + m
    ensures 12 * km <= |a + b|
    ensures ApplyGroups(ApplyGroups(s, fl, masks, offset, a, k), fl, masks, o, b, m) ==
      ApplyGroups(s, fl, masks, offset, a + b, km)
  {
    if m == 0 {
      ApplyGroupsSplitBase(s, fl, masks, offset, o, a, b, k, m, km);
    } else {
      var m1, km1 := m - 1, km - 1;
      assert GroupAt(b, m1) == GroupAt(a + b, km1) by {
        SliceBehind(a, b, 12 * m1, 12 * m1 + 12);
      }
      var t := ApplyGroups(s, fl, masks, offset, a, k);
      var x := ApplyGroups(t, fl, masks, o, b, m1);
      var y := ApplyGroups(s, fl, masks, offset, a + b, km1);
      ApplyGroupsSplit(s, fl, masks, offset, o, a, b, k, m1, km1);
      ApplyGroupAgrees(x, y, fl, masks, GroupPos(o, m1), GroupPos(offset, km1), GroupAt(b, m1), GroupAt(a + b, km1));
      ApplyGroupsStep(t, fl, masks, o, b, m1, m);
      ApplyGroupsStep(s, fl, masks, offset, a + b, km1, km);
    }
  }

  /** A parser's state before any data. */
  function Initial(fl: nat): (s: Snapshot)
    ensures WellFormed(s, 8 * fl) && s.stack == [] && s.commits == []
  {
    Snapshot(Zeros(8 * fl), Zeros(8 * fl), [], [])
  }

  /** The state of a new parser fed `data` in whole groups from its start;
      a parser of frames without width takes no groups. */
  function Fed(fl: nat, masks: seq<set<nat>>, data: seq<byte>): (t: Snapshot)
    requires |masks| >= 8 * fl
    ensures WellFormed(t, 8 * fl)
  {
    if fl == 0 then Initial(0) else ApplyGroups(Initial(fl), fl, masks, 0, data, |data| / 12)
  }

  /** Feeding `b` after `a` is feeding `a + b`. */
  lemma FedAppend(fl: nat, masks: seq<set<nat>>, a: seq<byte>, b: seq<byte>)
    requires fl > 0 && |masks| >= 8 * fl && |a| % 12 == 0 && |b| % 12 == 0
    ensures |a + b| % 12 == 0
    ensures ApplyGroups(Fed(fl, masks, a), fl, masks, |a|, b, |b| / 12) == Fed(fl, masks, a + b)
  {
    DivModUnique(|a|, 12, |a| / 12, 0);
    DivModUnique(|b|, 12, |b| / 12, 0);
    DivModUnique(|a + b|, 12, |a| / 12 + |b| / 12, 0);
    ApplyGroupsSplit(Initial(fl), fl, masks, 0, |a|, a, b, |a| / 12, |b| / 12, |a + b| / 12);
  }

  /** What `terminate` commits after the state `t`, added to the commits of
      `t`: the stacked pixels and every pixel whose state changed since its
      last commit, flushed over the current states. */
  function Finished(t: Snapshot, fl: nat, masks: seq<set<nat>>): seq<Commit>
    requires WellFormed(t, 8 * fl) && |masks| >= 8 * fl
  {
    var c := Changed(t.prev, t.curr, 8 * fl);
    assert InRange(t.stack + c, |t.curr|) by {
      forall i | 0 <= i < |t.stack + c|
        ensures (t.stack + c)[i] < |t.curr|
      {
        if i >= |t.stack| {
          assert (t.stack + c)[i] == c[i - |t.stack|];
        }
      }
    }
    t.commits + FlushAll(t.stack + c, t.curr, masks)
  }

  /** Every commit of a new parser of frame length `fl` that is fed `data`
      and then terminated. */
  function ParsedCommits(fl: nat, masks: seq<set<nat>>, data: seq<byte>): seq<Commit>
    requires |masks| >= 8 * fl
  {
    Finished(Fed(fl, masks, data), fl, masks)
  }

  /** Whatever the cut, the commits of the terminated parser partition the
      pixels of each flush: the final flush groups the pixels stacked or
      changed by their current state. */
  lemma FinishedPartition(t: Snapshot, fl: nat, masks: seq<set<nat>>)
    requires WellFormed(t, 8 * fl) && |masks| >= 8 * fl
    ensures |Finished(t, fl, masks)| >= |t.commits| && Finished(t, fl, masks)[..|t.commits|] == t.commits
    ensures var s := t.stack + Changed(t.prev, t.curr, 8 * fl);
      InRange(s, |t.curr|) &&
      Partitions(Finished(t, fl, masks)[|t.commits|..], s, t.curr, masks)
  {
    var s := t.stack + Changed(t.prev, t.curr, 8 * fl);
    assert Finished(t, fl, masks)[|t.commits|..] == FlushAll(s, t.curr, masks);
    FlushPartition(s, t.curr, masks);
  }

  /** At the last group of a frame the stack is emptied, and the commits it
      adds partition the pixels stacked during the frame by their previous
      state. */
  lemma FrameEndFlush(s: Snapshot, fl: nat, masks: seq<set<nat>>, pos: nat, group: seq<byte>)
    requires fl > 0 && |group| == 12 && WellFormed(s, 8 * fl) && |masks| >= 8 * fl
    requires FrameEnds(pos, fl)
    ensures var u := GroupLanes(s, fl, pos, group);
      var t := ApplyGroup(s, fl, masks, pos, group);
      t.stack == [] && t.prev == u.prev &&
      t.commits == s.commits + FlushAll(u.stack, u.prev, masks) &&
      Partitions(FlushAll(u.stack, u.prev, masks), u.stack, u.prev, masks)
  {
    var u := GroupLanes(s, fl, pos, group);
    FlushPartition(u.stack, u.prev, masks);
  }

  /** The pixels whose current colour differs from their previous one, in
      increasing order: what `terminate` pushes. */
  function Changed(prev: seq<nat>, curr: seq<nat>, n: nat): (c: seq<nat>)
    requires n <= |prev| && n <= |curr|
    ensures InRange(c, n) && |c| <= n
  {
    if n == 0 then []
    else Changed(prev, curr, n - 1) + (if Colour(prev[n - 1]) != Colour(curr[n - 1]) then [n - 1] else [])
  }

  /** A changed pixel `i` met with `s` and the changes before `i` already
      filling `n` entries overflows: the whole scan needs more than `n`, and
      the `n` entries are its first `n`. */
  lemma ChangedOverflow(s: seq<nat>, prev: seq<nat>, curr: seq<nat>, i: nat, n: nat)
    requires i < n <= |prev| && n <= |curr| && |s| + |Changed(prev, curr, i)| == n
    requires Colour(prev[i]) != Colour(curr[i])
    ensures |s| + |Changed(prev, curr, n)| > n
    ensures s + Changed(prev, curr, i) == (s + Changed(prev, curr, n))[..n]
  {
    ChangedGrows(prev, curr, i, n);
    OverflowOf(s, Changed(prev, curr, i), i, Changed(prev, curr, n), n);
  }

  lemma OverflowOf(s: seq<nat>, ci: seq<nat>, i: nat, cn: seq<nat>, n: nat)
    requires |s| + |ci| == n && ci + [i] <= cn
    ensures |s| + |cn| > n && s + ci == (s + cn)[..n]
  {
    assert cn[..|ci|] == ci;
    PrefixConcat(s, ci, cn);
  }

  /** The scan up to `n` starts with the scan up to `i` and then `i`, when
      pixel `i` changed. */
  lemma {:induction false} ChangedGrows(prev: seq<nat>, curr: seq<nat>, i: nat, n: nat)
    requires i < n <= |prev| && n <= |curr| && Colour(prev[i]) != Colour(curr[i])
    ensures Changed(prev, curr, i) + [i] <= Changed(prev, curr, n)
  {
    if n > i + 1 {
      ChangedGrows(prev, curr, i, n - 1);
    }
  }

  /** A prefix `b` of `c`, behind the same `a`. */
  lemma PrefixConcat<T>(a: seq<T>, b: seq<T>, c: seq<T>)
    requires |b| <= |c| && c[..|b|] == b
    ensures (a + c)[..|a| + |b|] == a + b
  {
  }

  /** `LEDSignProgramParser`: the pixel state lists, the live part of the
      update stack, the byte offset of the next group, and the commits handed
      to the program so far. */
  class ProgramParser {
    const frameLength: nat
    const masks: seq<set<nat>>
    var prev: seq<nat>
    var curr: seq<nat>
    var stack: seq<nat>
    var offset: nat
    var commits: seq<Commit>

    /** Lists of `8 * frame_length` entries; the stack, whose buffer has as
        many slots, holds pixel indices. */
    ghost predicate Shape()
      reads this
    {
      |prev| == 8 * frameLength && |curr| == 8 * frameLength && |masks| >= 8 * frameLength &&
      |stack| <= 8 * frameLength && InRange(stack, 8 * frameLength)
    }

    /** Between calls the offset is a whole number of groups and the stack
        holds at most four pixels for each group of the current frame, so a
        push never overflows it. */
    ghost predicate Valid()
      reads this
    {
      Shape() && offset % 12 == 0 &&
      (frameLength > 0 ==> |stack| <= 4 * GroupsIntoFrame(offset, frameLength))
    }

    ghost function Snap(): Snapshot
      reads this
    {
      Snapshot(prev, curr, stack, commits)
    }

    constructor (frameLength: nat, compressed: bool, present: seq<bool>)
      ensures Valid() && this.frameLength == frameLength && offset == 0
      ensures masks == PixelMasks(frameLength, compressed, present)
      ensures Snap() == Initial(frameLength)
    {
      this.frameLength := frameLength;
      masks := PixelMasks(frameLength, compressed, present);
      offset := 0;
      prev := Zeros(8 * frameLength);
      curr := Zeros(8 * frameLength);
      stack := [];
      commits := [];
    }

    /** One sample of pixel `j`. */
    method Sample(j: nat, r: nat, g: nat, b: nat)
      requires Shape() && j < 8 * frameLength && |stack| < 8 * frameLength
      modifies this`prev, this`curr, this`stack
      ensures Shape() && Snap() == ApplySample(old(Snap()), j, r, g, b)
      ensures |stack| <= old(|stack|) + 1
    {
      var p, c := prev[j], curr[j];
      if !Absorbs(p, c, r, g, b) {
        prev := prev[j := c];
        if c != 0 && (p == 0 || Colour(c) != Colour(p)) {
          stack := stack + [j];
        }
        c := KeepEnd(c);
      }
      curr := curr[j := KeepTiming(c) + r * 0x1_0000 + g * 0x100 + b + Tick];
    }

    /** The inner loop of a flush: removes the stacked pixels whose state in
        `vals` is `value`, swapping the top entry into each gap, and returns
        the union of their masks. */
    method Collect(vals: seq<nat>, value: nat) returns (mask: set<nat>)
      requires InRange(stack, |vals|) && |vals| <= |masks|
      modifies this`stack
      ensures (stack, mask) == Extract(old(stack), 0, vals, masks, value, {})
    {
      mask := {};
      var j := 0;
      while j < |stack|
        invariant j <= |stack| && InRange(stack, |vals|)
        invariant Extract(stack, j, vals, masks, value, mask) == Extract(old(stack), 0, vals, masks, value, {})
        decreases |stack| - j
      {
        if vals[stack[j]] == value {
          mask := mask + masks[stack[j]];
          stack := stack[j := stack[|stack| - 1]][..|stack| - 1];
        } else {
          j := j + 1;
        }
      }
    }

    /** Empties the stack, committing each state of `vals` shared by stacked
        pixels once with the union of their masks. */
    method Flush(vals: seq<nat>)
      requires Shape() && |vals| == 8 * frameLength
      modifies this`stack, this`commits
      ensures Shape() && stack == []
      ensures commits == old(commits) + FlushAll(old(stack), vals, masks)
    {
      while |stack| > 0
        invariant Shape()
        invariant old(commits) + FlushAll(old(stack), vals, masks) == commits + FlushAll(stack, vals, masks)
        decreases |stack|
      {
        ghost var s := stack;
        var value := vals[stack[0]];
        var mask := Collect(vals, value);
        commits := commits + [Commit(value, mask)];
        assert FlushAll(s, vals, masks) == [Commit(value, mask)] + FlushAll(stack, vals, masks);
      }
    }

    /** Sample `k` of a group, taken for the pixel at `slot`. */
    method SampleLane(slot: nat, ss: seq<(nat, nat, nat)>, k: nat)
      requires Shape() && k < |ss| && slot < 8 * frameLength && |stack| < 8 * frameLength
      modifies this`prev, this`curr, this`stack
      ensures Shape() && |stack| <= old(|stack|) + 1
      ensures ApplyLanes(Snap(), frameLength, slot + frameLength, ss, k + 1) == ApplyLanes(old(Snap()), frameLength, slot, ss, k)
    {
      Sample(slot, ss[k].0, ss[k].1, ss[k].2);
    }

    /** The four samples of one group, sample `k` for pixel `j + k * frame_length`. */
    method SampleLanes(j: nat, ss: seq<(nat, nat, nat)>)
      requires Shape() && |ss| == 4 && j + 3 * frameLength < 8 * frameLength && |stack| + 4 <= 8 * frameLength
      modifies this`prev, this`curr, this`stack
      ensures Shape() && Snap() == ApplyLanes(old(Snap()), frameLength, j, ss, 0)
      ensures |stack| <= old(|stack|) + 4
    {
      var slot: nat := j;
      var k := 0;
      while k < 4
        invariant k <= 4 && Shape() && slot == j + LaneOffset(k, frameLength) && commits == old(commits)
        invariant ApplyLanes(Snap(), frameLength, slot, ss, k) == ApplyLanes(old(Snap()), frameLength, j, ss, 0)
        invariant |stack| <= old(|stack|) + k
      {
        LaneSlotBelow(j, k, frameLength);
        SampleLane(slot, ss, k);
        slot := slot + frameLength;
        k := k + 1;
      }
    }

    /** One group at byte position `pos`: the four samples, then the flush
        of the stack over the previous states after a frame's last group. */
    method ProcessGroup(pos: nat, group: seq<byte>)
      requires Shape() && frameLength > 0 && |group| == 12 && pos % 12 == 0
      requires |stack| <= 4 * GroupsIntoFrame(pos, frameLength)
      modifies this`prev, this`curr, this`stack, this`commits
      ensures Shape() && Snap() == ApplyGroup(old(Snap()), frameLength, masks, pos, group)
      ensures |stack| <= 4 * GroupsIntoFrame(GroupPos(pos, 1), frameLength)
    {
      var w := GroupWords(group);
      var rv, gv, bv := Decode(w.0), Decode(w.1), Decode(w.2);
      var j := Slot(pos, frameLength);
      SlotBound(pos, frameLength);
      NextGroup(pos, frameLength);
      SampleLanes(j, Samples(rv, gv, bv));
      if FrameEnds(pos, frameLength) {
        Flush(prev);
      }
    }

    /** The body of the loop of `update`: group `n` of `data`, fed from
        byte position `base`; `m` counts the groups processed. */
    method UpdateStep(data: seq<byte>, n: nat, base: nat, ghost s0: Snapshot)
      requires Shape() && frameLength > 0 && base % 12 == 0
      requires |stack| <= 4 * GroupsIntoFrame(GroupPos(base, n), frameLength)
      requires 12 * n + 12 <= |data| && WellFormed(s0, 8 * frameLength)
      requires Snap() == ApplyGroups(s0, frameLength, masks, base, data, n)
      modifies this`prev, this`curr, this`stack, this`commits
      ensures Shape() && Snap() == ApplyGroups(s0, frameLength, masks, base, data, n + 1)
      ensures |stack| <= 4 * GroupsIntoFrame(GroupPos(base, n + 1), frameLength)
    {
      GroupPosAligned(base, n);
      ProcessGroup(GroupPos(base, n), GroupAt(data, n));
      ApplyGroupsNext(s0, frameLength, masks, base, data, n);
    }

    /** The loop of `update`: every whole group of `data`, fed from byte
        position `base`; `n` counts them. */
    method UpdateGroups(data: seq<byte>, base: nat, ghost s0: Snapshot) returns (n: nat)
      requires Shape() && frameLength > 0 && base % 12 == 0
      requires |stack| <= 4 * GroupsIntoFrame(GroupPos(base, 0), frameLength)
      requires WellFormed(s0, 8 * frameLength) && Snap() == s0
      modifies this`prev, this`curr, this`stack, this`commits
      ensures 12 * n <= |data| < 12 * n + 12
      ensures Shape() && Snap() == ApplyGroups(s0, frameLength, masks, base, data, n)
      ensures |stack| <= 4 * GroupsIntoFrame(GroupPos(base, n), frameLength)
    {
      n := 0;
      while 12 * n + 12 <= |data|
        invariant 12 * n <= |data| && Shape()
        invariant |stack| <= 4 * GroupsIntoFrame(GroupPos(base, n), frameLength)
        invariant Snap() == ApplyGroups(s0, frameLength, masks, base, data, n)
      {
        ghost var k := n;
        UpdateStep(data, n, base, s0);
        n := n + 1;
        ApplyGroupsCount(s0, frameLength, masks, base, data, k + 1, n);
      }
    }

    /** `update`: feeds the groups of `data`. A length that is not a whole
        number of groups fails once the whole groups are processed, leaving
        the offset as it was; data with a frame length of zero fails at
        once. On success the offset advances past `data`. */
    method Update(data: seq<byte>) returns (ok: bool)
      requires Valid()
      modifies this`offset, this`prev, this`curr, this`stack, this`commits
      ensures Shape()
      ensures ok == (|data| % 12 == 0 && (|data| == 0 || frameLength > 0))
      ensures frameLength > 0 ==> Snap() == ApplyGroups(old(Snap()), frameLength, masks, old(offset), data, |data| / 12)
      ensures frameLength == 0 ==> Snap() == old(Snap())
      ensures offset == if ok then old(offset) + |data| else old(offset)
      ensures ok ==> Valid()
    {
      if frameLength == 0 {
        return |data| == 0;
      }
      var n := UpdateGroups(data, offset, Snap());
      DivModUnique(|data|, 12, n, |data| - 12 * n);
      ApplyGroupsCount(old(Snap()), frameLength, masks, offset, data, n, |data| / 12);
      if 12 * n < |data| {
        return false;
      }
      GroupPosAligned(offset, n);
      offset := GroupPos(offset, n);
      return true;
    }

    /** The scan of `terminate`: pushes every pixel whose current colour
        differs from its previous one, failing when the stack is full. */
    method PushChanged() returns (ok: bool)
      requires Shape()
      modifies this`stack
      ensures Shape()
      ensures ok == (|old(stack)| + |Changed(prev, curr, 8 * frameLength)| <= 8 * frameLength)
      ensures ok ==> stack == old(stack) + Changed(prev, curr, 8 * frameLength)
      ensures !ok ==> stack == (old(stack) + Changed(prev, curr, 8 * frameLength))[..8 * frameLength]
    {
      var n := 8 * frameLength;
      var i := 0;
      while i < n
        invariant i <= n && |stack| <= n
        invariant stack == old(stack) + Changed(prev, curr, i)
      {
        if Colour(prev[i]) != Colour(curr[i]) {
          if |stack| == n {
            ChangedOverflow(old(stack), prev, curr, i, n);
            return false;
          }
          stack := stack + [i];
        }
        i := i + 1;
      }
      return true;
    }

    /** `terminate`: the scan, then a flush over the current states. The
        stack holds one entry per pixel; a push beyond that fails with the
        stack full and nothing committed. */
    method Terminate() returns (ok: bool)
      requires Shape()
      modifies this`stack, this`commits
      ensures Shape()
      ensures ok == (|old(stack)| + |Changed(prev, curr, 8 * frameLength)| <= 8 * frameLength)
      ensures ok ==> (stack == [] &&
        commits == old(commits) + FlushAll(old(stack) + Changed(prev, curr, 8 * frameLength), curr, masks))
      ensures !ok ==> (commits == old(commits) &&
        stack == (old(stack) + Changed(prev, curr, 8 * frameLength))[..8 * frameLength])
    {
      ok := PushChanged();
      if ok {
        Flush(curr);
      }
    }
  }
}
