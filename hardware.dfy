/** What the model takes from `LEDSignHardware` (ledsign/core.py): the LED
    depth and which of the `8 * led_depth` pixel slots hold a pixel. The
    geometry itself is fetched over the device protocol and is not part of
    this model. */
module Hardware {

  /** `_led_depth` and `_pixels`, a slot being `true` when it holds a pixel
      and `false` for `None`. */
  datatype Hardware = Hardware(ledDepth: nat, pixels: seq<bool>)

  /** `_pixel_count`: the number of present pixels. */
  function PixelCount(hw: Hardware): nat
  {
    |PresentPixels(hw.pixels)|
  }

  /** `_mask`: bit `i` is set exactly for the present pixel slots `i`. */
  function PixelSet(hw: Hardware): set<nat>
  {
    set i | 0 <= i < |hw.pixels| && hw.pixels[i]
  }

  /** The indices of the present pixels, in increasing order. */
  function PresentPixels(present: seq<bool>): (ps: seq<nat>)
    ensures |ps| <= |present|
  {
    if |present| == 0 then []
    else PresentPixels(present[..|present| - 1]) + (if present[|present| - 1] then [|present| - 1] else [])
  }

  /** `PresentPixels` lists exactly the present pixels, each once, in
      increasing order. */
  lemma {:induction false} PresentPixelsSpec(present: seq<bool>)
    ensures forall q, q' :: 0 <= q < q' < |PresentPixels(present)| ==> PresentPixels(present)[q] < PresentPixels(present)[q']
    ensures forall q :: 0 <= q < |PresentPixels(present)| ==>
      PresentPixels(present)[q] < |present| && present[PresentPixels(present)[q]]
    ensures forall i :: 0 <= i < |present| && present[i] ==> i in PresentPixels(present)
  {
    if |present| > 0 {
      var init := present[..|present| - 1];
      PresentPixelsSpec(init);
      var ps := PresentPixels(present);
      assert forall i :: 0 <= i < |init| ==> init[i] == present[i];
      assert forall q :: 0 <= q < |PresentPixels(init)| ==> ps[q] == PresentPixels(init)[q];
    }
  }

  /** The pixel masks of the `8 * depth` slots of a compiled program, as the
      compiler and the parser both lay them out: in a compressed program (a
      saved file) slot `q` stands for the `q`-th present pixel and the
      remaining slots for no pixel; otherwise slot `i` stands for pixel `i`. */
  function PixelMasks(fl: nat, compressed: bool, present: seq<bool>): (m: seq<set<nat>>)
    ensures |m| >= 8 * fl
    ensures !compressed || |PresentPixels(present)| <= 8 * fl ==> |m| == 8 * fl
  {
    if compressed then
      var ps := PresentPixels(present);
      seq(|ps|, q requires 0 <= q < |ps| => {ps[q]}) +
      seq(if |ps| < 8 * fl then 8 * fl - |ps| else 0, _ => {})
    else
      seq(8 * fl, i => {i})
  }

  /** The masks address distinct pixels, and in a compressed program only
      present ones. */
  lemma PixelMasksSpec(fl: nat, compressed: bool, present: seq<bool>)
    ensures var m := PixelMasks(fl, compressed, present);
      (forall q, q' :: 0 <= q < q' < |m| ==> m[q] * m[q'] == {}) &&
      (forall q, i :: 0 <= q < |m| && i in m[q] ==> if compressed then i < |present| && present[i] else i == q)
  {
    var m := PixelMasks(fl, compressed, present);
    if compressed {
      var ps := PresentPixels(present);
      PresentPixelsSpec(present);
      assert forall q, q' :: 0 <= q < q' < |ps| ==> ps[q] < ps[q'];
      assert forall q :: 0 <= q < |ps| ==> ps[q] < |present| && present[ps[q]];
      assert forall q :: 0 <= q < |m| ==> m[q] == if q < |ps| then {ps[q]} else {};
      forall q, q' | 0 <= q < q' < |m|
        ensures m[q] * m[q'] == {}
      {
        if q' < |ps| {
          assert ps[q] < ps[q'];
        }
      }
    } else {
      assert forall q :: 0 <= q < |m| ==> m[q] == {q};
    }
  }

}
