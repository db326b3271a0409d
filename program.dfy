/** `LEDSignProgram` (ledsign/program.py): a program under construction or
    loaded from a file or a device, made of the keypoints in its keypoint
    list, plus the `command_rgb` helper of its builder. Files and the device
    appear as values: a file is its bytes, and a device is the sequence of
    chunks it answers to the chunk requests of `load`. */
module Program {
  import opened Wrappers
  import opened Arith
  import opened Timeline
  import opened Hardware
  import Crc
  import Parser
  import Compiler
  import Compilation

  type byte = bv8

  /** The exceptions the operations raise. */
  datatype ProgramError =
    | InvalidProgram          // "Invalid program": a file that fails one of the header checks
    | UnresolvedErrors        // "Unresolved program errors": compile or save of a program with errors
    | DeviceDisconnected      // "Device disconnected": the device went away before `load`
    | MismatchedHardware      // "Mismatched program hardware"
    | MismatchedChecksum      // "Mismatched program checksum"
    | MalformedData           // the parser fails on a chunk: not whole 12-byte groups, or frames of no width
    | UpdateStackFull         // the parser's update stack overflows at `terminate`
    | HeaderOverflow          // `struct.pack("<I", ctrl)` of a control word of 32 bits or more
    | TransferIncomplete      // the device stops answering before the whole program arrived
    | IndexSpaceExhausted     // a keypoint would need an insertion index beyond the 44 bits of its key
    | CompileFailed(e: Compiler.CompileError)
    | AttributeError          // an attribute lookup on an object that lacks it
    | NameError               // a name that is not defined

  /** A connected device, as far as `load` sees it: the successive chunks it
      answers with. */
  datatype Device = Device(answers: seq<seq<byte>>)

  /** `_load_parameters` without the weak reference: the control word and
      the checksum reported by the device. */
  datatype LoadParameters = LoadParameters(ctrl: nat, crc: nat)

  // Keypoints produced from raw parser output

  /** `mask &= self._hardware._mask`: the pixels of `mask` that the hardware
      has. */
  function Clip(mask: set<nat>, hw: Hardware): set<nat>
  {
    mask * PixelSet(hw)
  }

  /** Every keypoint of a program touches at least one pixel, and only
      pixels the hardware has. */
  predicate Clipped(s: seq<Keypoint>, hw: Hardware)
  {
    forall e :: e in s ==> e.mask != {} && e.mask <= PixelSet(hw)
  }

  /** The number of parser commits whose mask keeps a pixel after clipping:
      the keypoints `_add_raw_keypoint` inserts for them. */
  function Kept(cs: seq<Parser.Commit>, hw: Hardware): (n: nat)
    ensures n <= |cs|
  {
    if |cs| == 0 then 0
    else Kept(cs[..|cs| - 1], hw) + (if Clip(cs[|cs| - 1].mask, hw) != {} then 1 else 0)
  }

  /** The keypoint of a packed parser state `v` (colour `v & 0xffffff`, end
      frame `v >> 44`, duration `(v >> 24) & 0xfffff`) on the pixels `mask`,
      with insertion index `index`. */
  function CommitKeypoint(c: Parser.Commit, hw: Hardware, index: nat): Keypoint
  {
    Keypoint(Parser.Colour(c.state), Parser.End(c.state), Parser.Duration(c.state), Clip(c.mask, hw), index)
  }

  /** The keypoints of `s` after the commits `cs` were handed to
      `_add_raw_keypoint` in order, the counter standing at `index` before the
      first of them. */
  function AddedAll(s: seq<Keypoint>, index: nat, cs: seq<Parser.Commit>, hw: Hardware): seq<Keypoint>
  {
    if |cs| == 0 then s
    else
      var init := cs[..|cs| - 1];
      var prev := AddedAll(s, index, init, hw);
      var c := cs[|cs| - 1];
      if Clip(c.mask, hw) == {} then prev
      else InsertSorted(prev, CommitKeypoint(c, hw, index + Kept(init, hw)))
  }

  /** Inserting adds exactly the one keypoint. */
  lemma {:induction false} InsertSortedMembers(s: seq<Keypoint>, kp: Keypoint)
    ensures |InsertSorted(s, kp)| == |s| + 1
    ensures forall e :: e in InsertSorted(s, kp) <==> e in s || e == kp
  {
    if |s| > 0 && Key(kp) >= Key(s[0]) {
      InsertSortedMembers(s[1..], kp);
      assert s == [s[0]] + s[1..];
    }
  }

  /** The keypoints added for `cs` are exactly the clipped commits that keep a
      pixel, with consecutive insertion indices from `index`. */
  lemma {:induction false} AddedAllContents(s: seq<Keypoint>, index: nat, cs: seq<Parser.Commit>, hw: Hardware)
    ensures |AddedAll(s, index, cs, hw)| == |s| + Kept(cs, hw)
    ensures forall e :: e in AddedAll(s, index, cs, hw) ==>
      (e in s || (e.mask != {} && e.mask <= PixelSet(hw) && index <= e.index < index + Kept(cs, hw)))
  {
    if |cs| > 0 {
      var init, c := cs[..|cs| - 1], cs[|cs| - 1];
      var prev := AddedAll(s, index, init, hw);
      AddedAllContents(s, index, init, hw);
      if Clip(c.mask, hw) != {} {
        var kp := CommitKeypoint(c, hw, index + Kept(init, hw));
        assert AddedAll(s, index, cs, hw) == InsertSorted(prev, kp);
        InsertSortedMembers(prev, kp);
      } else {
        assert AddedAll(s, index, cs, hw) == prev;
      }
    }
  }

  // Checks of a saved file

  /** `struct.unpack("<I", ...)`: the little-endian 32-bit word at `at`. */
  function ReadU32(bs: seq<byte>, at: nat): nat
    requires at + 4 <= |bs|
  {
    bs[at] as nat + 0x100 * bs[at + 1] as nat + 0x1_0000 * bs[at + 2] as nat + 0x100_0000 * bs[at + 3] as nat
  }

  /** `struct.pack("<I", x)`. */
  function U32Bytes(x: nat): (bs: seq<byte>)
    requires x < 0x1_0000_0000
    ensures |bs| == 4
  {
    var a := x / 0x100;
    var b := a / 0x100;
    [Compiler.ToByte(x % 0x100), Compiler.ToByte(a % 0x100), Compiler.ToByte(b % 0x100), Compiler.ToByte(b / 0x100)]
  }

  /** The four base-256 digits of a 32-bit word. */
  lemma U32Digits(x: nat)
    requires x < 0x1_0000_0000
    ensures var a := x / 0x100; var b := a / 0x100;
      x == x % 0x100 + 0x100 * (a % 0x100) + 0x1_0000 * (b % 0x100) + 0x100_0000 * (b / 0x100)
  {
    var a := x / 0x100;
    var b := a / 0x100;
    assert x == x % 0x100 + 0x100 * a;
    assert a == a % 0x100 + 0x100 * b;
    assert b == b % 0x100 + 0x100 * (b / 0x100);
  }
  /** Reading back a packed word gives the word. */
  lemma U32RoundTrip(x: nat, rest: seq<byte>)
    requires x < 0x1_0000_0000
    ensures ReadU32(U32Bytes(x) + rest, 0) == x
  {
    var a := x / 0x100;
    var b := a / 0x100;
    U32Digits(x);
    var w, y, z, t: Compiler.Level := x % 0x100, a % 0x100, b % 0x100, b / 0x100;
    Compiler.ToByteValue(w);
    Compiler.ToByteValue(y);
    Compiler.ToByteValue(z);
    Compiler.ToByteValue(t);
    var bs := U32Bytes(x) + rest;
    assert bs[0] == Compiler.ToByte(w) && bs[1] == Compiler.ToByte(y);
    assert bs[2] == Compiler.ToByte(z) && bs[3] == Compiler.ToByte(t);
  }

  /** The duration a control word announces: `(ctrl >> 9) // max(ctrl & 0xff, 1)`. */
  function LoadedDuration(ctrl: nat): nat
  {
    (ctrl / 0x200) / Compiler.Max(ctrl % 0x100, 1)
  }

  /** The checks `_load_from_file` makes before parsing: whole 32-bit words
      and at least the header, a depth byte that is a multiple of 3, a size
      that agrees with the control word, the checksum of the data, and the
      hardware's compressed depth. On success, the control word. */
  function FileCheck(file: seq<byte>, hw: Hardware): (r: Result<nat, ProgramError>)
    ensures r.Failure? ==> r.error == InvalidProgram
    ensures r.Success? ==> (|file| >= 8 && r.value == ReadU32(file, 0) &&
      |file| == 8 + 4 * (r.value / 0x100) && |file| % 4 == 0 &&
      Crc.Checksum(file[8..]) as nat == ReadU32(file, 4) &&
      r.value % 0x100 == 3 * ((PixelCount(hw) + 7) / 8))
    ensures (|file| >= 8 && |file| % 4 == 0 && |file| == 8 + 4 * (ReadU32(file, 0) / 0x100) &&
      Crc.Checksum(file[8..]) as nat == ReadU32(file, 4) &&
      ReadU32(file, 0) % 0x100 == 3 * ((PixelCount(hw) + 7) / 8)) ==> r == Success(ReadU32(file, 0))
  {
    if |file| < 8 || |file| % 4 != 0 then Failure(InvalidProgram)
    else
      var ctrl, crc := ReadU32(file, 0), ReadU32(file, 4);
      if (ctrl % 0x100) % 3 != 0 || |file| != (ctrl / 0x100) * 4 + 8 || crc != Crc.Checksum(file[8..]) as nat then
        Failure(InvalidProgram)
      else if (PixelCount(hw) + 7) / 8 != (ctrl % 0x100) / 3 then Failure(InvalidProgram)
      else Success(ctrl)
  }

  /** `_save_to_file`: the control word and the checksum as little-endian
      words, then the data. */
  function SavedFile(c: Compiler.Compiled): (file: seq<byte>)
    requires c.ctrl < 0x1_0000_0000
    ensures |file| == 8 + |c.data| && file[8..] == c.data
  {
    U32Bytes(c.ctrl) + U32Bytes(c.crc as nat) + c.data
  }

  /** A compressed compilation holds `duration` frames of `24 * depth`
      bytes, its control word packs the depth field and the size, and its
      checksum is that of its data. */
  lemma CompiledFields(s: seq<Keypoint>, hw: Hardware, duration: nat)
    requires Compiler.CompileSpec(s, hw, duration, true).Success?
    ensures var c := Compiler.CompileSpec(s, hw, duration, true).value; var ld := Compiler.Depth(hw, true);
      c.ledDepth == ld && |c.data| == 24 * ld * duration &&
      c.ctrl == Compiler.BitOr(3 * ld, 24 * ld * duration * 64) && c.crc == Crc.Checksum(c.data)
  {
    var ld := Compiler.Depth(hw, true);
    var masks := PixelMasks(ld, true, hw.pixels);
    Compiler.DepthCoversPixels(hw);
    var ps := Compiler.InitialPixels(s, masks);
    var snaps := Compiler.Render(s, ps, ld, duration).value;
    var fs := Compiler.FrameSeq(snaps, ld);
    if |fs| > 0 {
      Compiler.FlattenLayout(fs, 24 * ld, |fs| - 1);
    }
  }

  /** The header of a saved file reads back as the control word and the
      checksum. */
  lemma SavedHeader(c: Compiler.Compiled)
    requires c.ctrl < 0x1_0000_0000
    ensures ReadU32(SavedFile(c), 0) == c.ctrl && ReadU32(SavedFile(c), 4) == c.crc as nat
  {
    var tail := U32Bytes(c.crc as nat) + c.data;
    U32RoundTrip(c.ctrl, tail);
    assert SavedFile(c) == U32Bytes(c.ctrl) + tail;
    U32RoundTrip(c.crc as nat, c.data);
    ReadShifted(U32Bytes(c.ctrl), tail);
  }

  /** A word read past a prefix of four bytes. */
  lemma ReadShifted(head: seq<byte>, tail: seq<byte>)
    requires |head| == 4 && |tail| >= 4
    ensures ReadU32(head + tail, 4) == ReadU32(tail, 0)
  {
    var bs := head + tail;
    assert bs[4] == tail[0] && bs[5] == tail[1] && bs[6] == tail[2] && bs[7] == tail[3];
  }

  /** What `save` writes, `_load_from_file` accepts on the same hardware, and
      the duration read back from the header is the program's whenever the
      program has any slot group (with none, the header reads duration 0).
      This needs the depth field `3 * depth` to fit its byte. */
  lemma SavedFileLoads(s: seq<Keypoint>, hw: Hardware, duration: nat)
    requires 3 * Compiler.Depth(hw, true) < 0x100
    requires Compiler.CompileSpec(s, hw, duration, true).Success?
    requires Compiler.CompileSpec(s, hw, duration, true).value.ctrl < 0x1_0000_0000
    ensures var c := Compiler.CompileSpec(s, hw, duration, true).value;
      FileCheck(SavedFile(c), hw) == Success(c.ctrl) &&
      (c.ledDepth > 0 ==> LoadedDuration(c.ctrl) == duration) &&
      (c.ledDepth == 0 ==> LoadedDuration(c.ctrl) == 0)
  {
    var c := Compiler.CompileSpec(s, hw, duration, true).value;
    CompiledFields(s, hw, duration);
    HeaderChecks(c, hw, duration);
  }

  /** The header checks pass on any compilation with these fields. */
  lemma HeaderChecks(c: Compiler.Compiled, hw: Hardware, duration: nat)
    requires 3 * c.ledDepth < 0x100 && c.ledDepth == Compiler.Depth(hw, true)
    requires |c.data| == 24 * c.ledDepth * duration && c.ctrl == Compiler.BitOr(3 * c.ledDepth, 24 * c.ledDepth * duration * 64)
    requires c.crc == Crc.Checksum(c.data) && c.ctrl < 0x1_0000_0000
    ensures FileCheck(SavedFile(c), hw) == Success(c.ctrl)
    ensures c.ledDepth > 0 ==> LoadedDuration(c.ctrl) == duration
    ensures c.ledDepth == 0 ==> LoadedDuration(c.ctrl) == 0
  {
    var ld := c.ledDepth;
    Compiler.CtrlFields(ld, duration);
    SavedHeader(c);
    HeaderWords(SavedFile(c), c.ctrl, |c.data|);
    DivModUnique(c.ctrl % 0x100, 3, ld, 0);
    if ld == 0 {
      EmptyCtrl(ld, duration);
    }
  }

  /** With no slot groups the control word is 0. */
  lemma EmptyCtrl(ld: nat, duration: nat)
    requires ld == 0
    ensures Compiler.BitOr(3 * ld, 24 * ld * duration * 64) == 0
  {
    assert 24 * ld == 0;
  }

  /** A file of `8 + 4 * (ctrl >> 8)` bytes is whole words and matches its
      control word's size field. */
  lemma HeaderWords(file: seq<byte>, ctrl: nat, size: nat)
    requires |file| == 8 + size && (ctrl / 0x100) * 4 == size
    ensures |file| % 4 == 0 && |file| == (ctrl / 0x100) * 4 + 8 && |file| >= 8
  {
    DivModUnique(|file|, 4, ctrl / 0x100 + 2, 0);
  }

  /** `load`'s chunk size: `min(max(program_size, 64), 65536)` rounded down
      to whole 12-byte groups. */
  function ChunkSize(size: nat): nat
  {
    var c := if size < 64 then 64 else if size > 0x1_0000 then 0x1_0000 else size;
    c - c % 12
  }

  /** Chunks are whole groups, between 60 and 65532 bytes, and as large as
      the clamped program size allows. */
  lemma ChunkSizeBounds(size: nat)
    ensures ChunkSize(size) % 12 == 0 && 60 <= ChunkSize(size) <= 65532
    ensures var c := if size < 64 then 64 else if size > 0x1_0000 then 0x1_0000 else size;
      ChunkSize(size) <= c < ChunkSize(size) + 12
  {
    var c := if size < 64 then 64 else if size > 0x1_0000 then 0x1_0000 else size;
    DivModUnique(c - c % 12, 12, c / 12, 0);
    DivBelow(c, 12, 6);
    DivBelow(c, 12, 5462);
    assert c / 12 >= 5 && c / 12 <= 5461;
    MulMonotone(5, c / 12, 12);
    MulMonotone(c / 12, 5461, 12);
  }

  /** The number of bytes in the first `n` answers. */
  function Received(answers: seq<seq<byte>>, n: nat): seq<byte>
    requires n <= |answers|
  {
    Compiler.Flatten(answers[..n])
  }

  /** `load` reads exactly `n` answers: together they reach `size` bytes and
      no shorter prefix does. */
  predicate Arrived(answers: seq<seq<byte>>, size: nat, n: nat)
  {
    n <= |answers| && |Received(answers, n)| >= size &&
    forall m :: 0 <= m < n ==> |Received(answers, m)| < size
  }

  /** The parser's `update` accepts `n` bytes in a program of frame length
      `fl`: whole 12-byte groups, and none at all when frames have no width. */
  predicate Parses(n: nat, fl: nat)
  {
    n % 12 == 0 && (n == 0 || fl > 0)
  }

  /** The parser accepts each of the first `n` answers. */
  predicate AllParse(answers: seq<seq<byte>>, n: nat, fl: nat)
  {
    forall i :: 0 <= i < n && i < |answers| ==> Parses(|answers[i]|, fl)
  }

  /** Accepting one more answer. */
  lemma AllParseStep(answers: seq<seq<byte>>, n: nat, fl: nat)
    requires n < |answers|
    ensures AllParse(answers, n + 1, fl) == (AllParse(answers, n, fl) && Parses(|answers[n]|, fl))
  {
  }

  /** `load` reads all of the program in `n` answers, the parser accepts
      them, and the bytes received do not have the checksum `crc`. */
  predicate CorruptTransfer(answers: seq<seq<byte>>, size: nat, fl: nat, crc: nat, n: nat)
  {
    Arrived(answers, size, n) && AllParse(answers, n, fl) && Crc.Checksum(Received(answers, n)) as nat != crc
  }

  /** `load` reads all of the program in `n` answers, the parser accepts
      them, and the checksum matches. */
  predicate SoundTransfer(answers: seq<seq<byte>>, size: nat, fl: nat, crc: nat, n: nat)
  {
    Arrived(answers, size, n) && AllParse(answers, n, fl) && Crc.Checksum(Received(answers, n)) as nat == crc
  }

  /** The exceptions `load` raises. */
  predicate RaisedByLoad(e: ProgramError)
  {
    e.DeviceDisconnected? || e.MismatchedHardware? || e.MismatchedChecksum? || e.MalformedData? ||
    e.UpdateStackFull? || e.TransferIncomplete? || e.IndexSpaceExhausted?
  }

  /** The program size a control word announces: `(ctrl >> 8) << 2`. */
  function ProgramSize(ctrl: nat): nat
  {
    (ctrl / 0x100) * 4
  }

  /** The frame length a control word announces: `(ctrl & 0xff) // 3`. */
  function FrameLength(ctrl: nat): nat
  {
    (ctrl % 0x100) / 3
  }

  /** A compile error raised through the program. */
  function Lift(r: Result<Compiler.Compiled, Compiler.CompileError>): Result<Compiler.Compiled, ProgramError>
  {
    match r
    case Success(c) => Success(c)
    case Failure(e) => Failure(CompileFailed(e))
  }

  /** A compressed compilation written as a file, or the exception `save`
      raises for it. */
  function Saved(r: Result<Compiler.Compiled, Compiler.CompileError>): Result<seq<byte>, ProgramError>
  {
    match r
    case Failure(e) => Failure(CompileFailed(e))
    case Success(c) => if c.ctrl >= 0x1_0000_0000 then Failure(HeaderOverflow) else Success(SavedFile(c))
  }

  /** Reading one more answer. */
  lemma ReceivedStep(answers: seq<seq<byte>>, n: nat)
    requires n < |answers|
    ensures Received(answers, n + 1) == Received(answers, n) + answers[n]
  {
    assert answers[..n + 1][..n] == answers[..n];
  }

  // `command_rgb`

  /** `min(max(x, 0), 255)`. */
  function Clamp(x: int): (c: nat)
    ensures c <= 255
    ensures 0 <= x <= 255 ==> c == x
    ensures x < 0 ==> c == 0
    ensures x > 255 ==> c == 255
  {
    if x < 0 then 0 else if x > 255 then 255 else x
  }

  /** `command_rgb(r, g, b)` on whole numbers: `(r << 16) + (g << 8) + b` of
      the clamped channels. */
  function CommandRgb(r: int, g: int, b: int): nat
  {
    Clamp(r) * 0x1_0000 + Clamp(g) * 0x100 + Clamp(b)
  }

  /** The colour fits 24 bits and the compiler reads back the clamped
      channels from it. */
  lemma CommandRgbChannels(r: int, g: int, b: int)
    ensures CommandRgb(r, g, b) <= 0xff_ffff
    ensures Compiler.RgbOf(CommandRgb(r, g, b)) == Compiler.Rgb(Clamp(r), Clamp(g), Clamp(b))
    ensures Parser.Colour(CommandRgb(r, g, b)) == CommandRgb(r, g, b)
  {
    var v := CommandRgb(r, g, b);
    var lo := Clamp(g) * 0x100 + Clamp(b);
    DivModUnique(v, 0x1_0000, Clamp(r), lo);
    DivModUnique(Clamp(r), 0x100, 0, Clamp(r));
    DivModUnique(v, 0x100, Clamp(r) * 0x100 + Clamp(g), Clamp(b));
    DivModUnique(Clamp(r) * 0x100 + Clamp(g), 0x100, Clamp(r), Clamp(g));
    DivModUnique(v, Parser.ColourSpan, 0, v);
  }

  // Verification

  /** `kp.end - kp.duration < 0`: the ramp toward `kp` would start before
      the first frame. */
  predicate StartsEarly(kp: Keypoint)
  {
    kp.end < kp.duration
  }

  /** `a` comes before `b`, shares a pixel with it, and ends after the ramp
      toward `b` starts. */
  predicate Overlap(a: Keypoint, b: Keypoint)
  {
    Key(a) < Key(b) && a.mask * b.mask != {} && a.end + b.duration > b.end
  }

  /** Some keypoint of `s` overlaps `b`. */
  predicate Overlapped(s: seq<Keypoint>, b: Keypoint)
  {
    exists a :: a in s && Overlap(a, b)
  }

  /** What `verify` reports about `b`. */
  predicate Flawed(s: seq<Keypoint>, b: Keypoint)
  {
    StartsEarly(b) || Overlapped(s, b)
  }

  /** Some keypoint of key below `k` is flawed. */
  predicate FlawedBelow(s: seq<Keypoint>, k: int)
  {
    exists b :: b in s && Key(b) < k && Flawed(s, b)
  }

  /** Some keypoint of key at most `k` overlaps `b`. */
  predicate OverlapUpTo(s: seq<Keypoint>, b: Keypoint, k: int)
  {
    exists a :: a in s && Key(a) <= k && Overlap(a, b)
  }

  /** The program has errors: some keypoint is flawed. */
  predicate HasErrors(s: seq<Keypoint>)
  {
    exists b :: b in s && Flawed(s, b)
  }

  /** In key order, equal keys are the same keypoint. */
  lemma KeysUnique(s: seq<Keypoint>, a: Keypoint, b: Keypoint)
    requires KeysIncreasing(s) && a in s && b in s && Key(a) == Key(b)
    ensures a == b
  {
    var i :| 0 <= i < |s| && s[i] == a;
    var j :| 0 <= j < |s| && s[j] == b;
    assert !(i < j) && !(j < i);
  }

  /** Every keypoint of a clipped program matches the whole hardware mask
      (the source's mask `-1`). */
  lemma ClippedMatches(s: seq<Keypoint>, hw: Hardware, e: Keypoint)
    requires Clipped(s, hw) && e in s
    ensures Matches(e, PixelSet(hw))
  {
    var x :| x in e.mask;
    assert x in e.mask * PixelSet(hw);
  }

  /** One step of the outer walk of `verify`: the next keypoint in key order
      is `e`, so the keypoints below `Key(e) + 1` are those below `k` and `e`. */
  lemma OuterStep(s: seq<Keypoint>, hw: Hardware, k: int, e: Keypoint)
    requires KeysIncreasing(s) && Clipped(s, hw)
    requires FirstFrom(s, k, PixelSet(hw)) == Some(e)
    ensures e in s && Key(e) >= k
    ensures FlawedBelow(s, Key(e) + 1) == (FlawedBelow(s, k) || Flawed(s, e))
  {
    FirstFromIsLeast(s, k, PixelSet(hw));
    if FlawedBelow(s, Key(e) + 1) {
      var b :| b in s && Key(b) < Key(e) + 1 && Flawed(s, b);
      if Key(b) >= k {
        ClippedMatches(s, hw, b);
        KeysUnique(s, b, e);
      }
    }
  }

  /** The outer walk of `verify` is over once nothing is left from `k`. */
  lemma OuterDone(s: seq<Keypoint>, hw: Hardware, k: int)
    requires KeysIncreasing(s) && Clipped(s, hw)
    requires FirstFrom(s, k, PixelSet(hw)) == None
    ensures FlawedBelow(s, k) == HasErrors(s)
  {
    FirstFromIsLeast(s, k, PixelSet(hw));
    if HasErrors(s) {
      var b :| b in s && Flawed(s, b);
      ClippedMatches(s, hw, b);
    }
  }

  /** What overlaps `b` has a smaller key. */
  lemma OverlapsBelow(s: seq<Keypoint>, b: Keypoint)
    ensures Overlapped(s, b) == OverlapUpTo(s, b, Key(b) - 1)
  {
  }

  /** Keys order ends: with insertion indices below 2^44, a smaller key
      never has a later end frame. */
  lemma EndsFollowKeys(a: Keypoint, b: Keypoint)
    requires a.index < IndexSpan && b.index < IndexSpan && Key(a) <= Key(b)
    ensures a.end <= b.end
  {
    KeyOrder(a, b);
  }

  /** One step of the inner walk (toward smaller keys) of `verify` on `kp`:
      `entry` is the last keypoint sharing a pixel with `kp` at or below `k`,
      and it overlaps `kp`. */
  lemma InnerStep(s: seq<Keypoint>, kp: Keypoint, k: int, entry: Keypoint)
    requires KeysIncreasing(s) && k < Key(kp)
    requires LastUpTo(s, k, kp.mask) == Some(entry) && entry.end + kp.duration > kp.end
    ensures entry in s && Overlap(entry, kp) && Key(entry) <= k
    ensures OverlapUpTo(s, kp, k) == (Overlap(entry, kp) || OverlapUpTo(s, kp, Key(entry) - 1))
  {
    LastUpToIsGreatest(s, k, kp.mask);
    if exists a :: a in s && Key(a) <= k && Overlap(a, kp) {
      var a :| a in s && Key(a) <= k && Overlap(a, kp);
      if Key(a) > Key(entry) - 1 {
        assert Matches(a, kp.mask);
        KeysUnique(s, a, entry);
      }
    }
  }

  /** The inner walk stops: nothing at or below `k` sharing a pixel with `kp`
      ends after its ramp starts. This is where the walk relies on end frames
      not increasing toward smaller keys. */
  lemma InnerDone(s: seq<Keypoint>, kp: Keypoint, k: int, n: nat)
    requires KeysIncreasing(s) && (forall e :: e in s ==> e.index < n) && n <= IndexSpan
    requires var r := LastUpTo(s, k, kp.mask); r.None? || r.value.end + kp.duration <= kp.end
    ensures !OverlapUpTo(s, kp, k)
  {
    LastUpToIsGreatest(s, k, kp.mask);
    var r := LastUpTo(s, k, kp.mask);
    if r.Some? {
      forall a | a in s && Key(a) <= k && Matches(a, kp.mask)
        ensures a.end <= r.value.end
      {
        EndsFollowKeys(a, r.value);
      }
    }
  }

  // The disconnected-device branch of `load`, which the source gets wrong

  /** What a branch of `load` leaves behind when it raises: the exception,
      the keypoints and the error flag. */
  datatype Raised = Raised(error: ProgramError, keypoints: seq<Keypoint>, hasError: bool)

  /** The disconnected-device branch as written: `LEDSignProtocolError` is
      not imported by ledsign/program.py, so raising it is a `NameError`. */
  function DisconnectAsWritten(s: seq<Keypoint>): Raised
  {
    Raised(NameError, s, true)
  }

  /** The disconnected-device branch as intended. */
  function DisconnectIntended(s: seq<Keypoint>): Raised
  {
    Raised(DeviceDisconnected, s, true)
  }

  /** As written, a lost device surfaces as a `NameError`, not as the
      protocol error callers catch. */
  lemma DisconnectRaisesNameError(s: seq<Keypoint>)
    ensures DisconnectAsWritten(s).error == NameError && DisconnectAsWritten(s) != DisconnectIntended(s)
  {
  }

  /** The `while (offset < program_size)` loop of `load`: each answer to a
      chunk request is fed to the checksum and to the parser. The loop stops
      once the program has arrived, when the parser rejects a chunk, or when
      the device has no more answers; `offset` is the number of bytes
      received. */
  method Transfer(answers: seq<seq<byte>>, size: nat, parser: Parser.ProgramParser, received: Crc.Checksummer)
    returns (requests: seq<(nat, nat)>, parsed: bool, offset: nat)
    requires parser.Valid() && parser.offset == 0 && parser.Snap() == Parser.Initial(parser.frameLength)
    requires received.value == Crc.Checksum([])
    modifies parser, received
    ensures parser.Shape() && |requests| <= |answers| && offset == |Received(answers, |requests|)|
    ensures forall i :: 0 <= i < |requests| ==> requests[i] == (|Received(answers, i)|, ChunkSize(size))
    ensures forall m :: 0 <= m < |requests| ==> |Received(answers, m)| < size
    ensures parsed == AllParse(answers, |requests|, parser.frameLength)
    ensures received.value == Crc.Checksum(Received(answers, |requests|))
    ensures parsed ==> (offset >= size || |requests| == |answers|)
    ensures parsed ==> parser.Snap() == Parser.Fed(parser.frameLength, parser.masks, Received(answers, |requests|))
  {
    var chunkSize := ChunkSize(size);
    requests, parsed, offset := [], true, 0;
    var n := 0;
    assert answers[..0] == [];
    while offset < size && n < |answers| && parsed
      invariant parser.Shape() && (parsed ==> parser.Valid())
      invariant n == |requests| && n <= |answers| && offset == |Received(answers, n)|
      invariant forall i :: 0 <= i < n ==> requests[i] == (|Received(answers, i)|, chunkSize)
      invariant forall m :: 0 <= m < n ==> |Received(answers, m)| < size
      invariant parsed == AllParse(answers, n, parser.frameLength)
      invariant received.value == Crc.Checksum(Received(answers, n))
      invariant parsed ==> parser.offset == offset
      invariant parsed ==> parser.Snap() == Parser.Fed(parser.frameLength, parser.masks, Received(answers, n))
      decreases |answers| - n
    {
      requests := requests + [(offset, chunkSize)];
      AllParseStep(answers, n, parser.frameLength);
      parsed := Receive(answers, n, parser, received);
      offset := offset + |answers[n]|;
      n := n + 1;
    }
  }

  /** One turn of the loop of `load`: answer `n` is fed to the checksum and
      to the parser. */
  method Receive(answers: seq<seq<byte>>, n: nat, parser: Parser.ProgramParser, received: Crc.Checksummer)
    returns (parsed: bool)
    requires n < |answers| && parser.Valid() && received.value == Crc.Checksum(Received(answers, n))
    requires parser.offset == |Received(answers, n)|
    requires parser.Snap() == Parser.Fed(parser.frameLength, parser.masks, Received(answers, n))
    modifies parser, received
    ensures parser.Shape() && (parsed ==> parser.Valid())
    ensures parsed ==> parser.offset == |Received(answers, n + 1)|
    ensures parsed ==> parser.Snap() == Parser.Fed(parser.frameLength, parser.masks, Received(answers, n + 1))
    ensures parsed == Parses(|answers[n]|, parser.frameLength)
    ensures received.value == Crc.Checksum(Received(answers, n + 1))
    ensures |Received(answers, n + 1)| == |Received(answers, n)| + |answers[n]|
  {
    var chunk := answers[n];
    ReceivedStep(answers, n);
    Crc.FoldAppend(0, Received(answers, n), chunk);
    received.Update(chunk);
    parsed := parser.Update(chunk);
    if parsed && parser.frameLength > 0 {
      Parser.FedAppend(parser.frameLength, parser.masks, Received(answers, n), chunk);
    }
  }

  /** `LEDSignProgram`. The hardware and the keypoint list object are fixed
      at construction. */
  class Program {
    const hw: Hardware
    const list: KeypointList
    var duration: nat
    var loadParameters: Option<LoadParameters>
    var hasError: bool

    /** The list is valid and every keypoint in it touches some pixel of the
        hardware and no other. */
    ghost predicate Valid()
      reads this, list
    {
      list.Valid() && Clipped(Elems(list.root), hw)
    }

    /** `LEDSignProgram(device)` without a file: an empty program of one
        frame. */
    constructor (hw: Hardware)
      ensures Valid() && this.hw == hw && fresh(list)
      ensures Elems(list.root) == [] && list.index == 0
      ensures duration == 1 && loadParameters == None && !hasError
    {
      this.hw := hw;
      list := new KeypointList();
      duration := 1;
      loadParameters := None;
      hasError := false;
    }

    /** `_create_unloaded_from_device`: an empty program announcing the
        device's duration, which `load` fills in with the device's program
        provided the control word announces any data. */
    static method CreateUnloadedFromDevice(hw: Hardware, ctrl: nat, crc: nat) returns (p: Program)
      ensures fresh(p) && fresh(p.list) && p.Valid() && p.hw == hw
      ensures Elems(p.list.root) == [] && !p.hasError
      ensures p.duration == LoadedDuration(ctrl)
      ensures p.loadParameters == if ctrl / 0x100 != 0 then Some(LoadParameters(ctrl, crc)) else None
    {
      p := new Program(hw);
      p.duration := LoadedDuration(ctrl);
      if ctrl / 0x100 != 0 {
        p.loadParameters := Some(LoadParameters(ctrl, crc));
      }
    }

    /** `_add_raw_keypoint`: the mask is clipped to the hardware, and a
        keypoint that keeps a pixel is inserted. Inserting needs a free
        insertion index; `ok` is false when none is left. */
    method AddRawKeypoint(rgb: nat, end: nat, duration: nat, mask: set<nat>) returns (ok: bool)
      requires Valid()
      modifies list
      ensures Valid()
      ensures ok == (Clip(mask, hw) == {} || old(list.index) < IndexSpan)
      ensures !ok || Clip(mask, hw) == {} ==> Elems(list.root) == old(Elems(list.root)) && list.index == old(list.index)
      ensures ok && Clip(mask, hw) != {} ==> (list.index == old(list.index) + 1 &&
        Elems(list.root) == InsertSorted(old(Elems(list.root)), Keypoint(rgb, end, duration, Clip(mask, hw), old(list.index))))
    {
      var m := Clip(mask, hw);
      if m == {} {
        return true;
      }
      if list.index >= IndexSpan {
        return false;
      }
      ghost var s := Elems(list.root);
      var kp := Keypoint(rgb, end, duration, m, list.index);
      list.Insert(kp);
      InsertSortedContents(s, kp);
      forall e | e in Elems(list.root)
        ensures e.mask != {} && e.mask <= PixelSet(hw)
      {
        assert e in multiset(InsertSorted(s, kp));
      }
      ok := true;
    }

    /** The parser's commits `cs`, handed to `_add_raw_keypoint` in order;
        `ok` is false when the insertion indices run out. */
    method AddCommits(cs: seq<Parser.Commit>) returns (ok: bool)
      requires Valid()
      modifies list
      ensures Valid()
      ensures ok == (old(list.index) + Kept(cs, hw) <= IndexSpan)
      ensures ok ==> (Elems(list.root) == AddedAll(old(Elems(list.root)), old(list.index), cs, hw) &&
        list.index == old(list.index) + Kept(cs, hw))
    {
      ghost var s0, i0 := Elems(list.root), list.index;
      var n := 0;
      while n < |cs|
        invariant n <= |cs| && Valid()
        invariant Elems(list.root) == AddedAll(s0, i0, cs[..n], hw) && list.index == i0 + Kept(cs[..n], hw)
        invariant list.index <= IndexSpan
      {
        var added := AddCommit(s0, i0, cs, n);
        if !added {
          return false;
        }
        n := n + 1;
      }
      assert cs[..n] == cs;
      return true;
    }

    /** Commit `n`, as the parser hands it over: a keypoint of its colour,
        end and duration on its pixels. */
    method AddCommit(ghost s0: seq<Keypoint>, ghost i0: nat, cs: seq<Parser.Commit>, n: nat) returns (added: bool)
      requires Valid() && n < |cs|
      requires Elems(list.root) == AddedAll(s0, i0, cs[..n], hw) && list.index == i0 + Kept(cs[..n], hw)
      modifies list
      ensures Valid()
      ensures added ==>
        (Elems(list.root) == AddedAll(s0, i0, cs[..n + 1], hw) && list.index == i0 + Kept(cs[..n + 1], hw) &&
         list.index <= IndexSpan)
      ensures !added ==> i0 + Kept(cs, hw) > IndexSpan
    {
      var c := cs[n];
      AddedStep(s0, i0, cs, hw, n);
      added := AddRawKeypoint(Parser.Colour(c.state), Parser.End(c.state), Parser.Duration(c.state), c.mask);
      if !added {
        KeptMonotone(cs, hw, n + 1);
      }
    }

    /** `_load_from_file` on the bytes of a file: the header checks, then the
        duration, then the parse of the data into keypoints. */
    method LoadFromFile(file: seq<byte>) returns (raised: Option<ProgramError>)
      requires Valid()
      modifies this, list
      ensures Valid() && loadParameters == old(loadParameters) && hasError == old(hasError)
      ensures FileCheck(file, hw).Failure? ==>
        (raised == Some(InvalidProgram) && duration == old(duration) && Elems(list.root) == old(Elems(list.root)))
      ensures FileCheck(file, hw).Success? ==>
        (duration == LoadedDuration(FileCheck(file, hw).value) && raised != Some(InvalidProgram) &&
         (raised == Some(MalformedData) <==> !Parses(|file| - 8, FrameLength(FileCheck(file, hw).value))))
      ensures FileCheck(file, hw).Success? && raised == None ==>
        var fl := FrameLength(FileCheck(file, hw).value);
        Elems(list.root) == AddedAll(old(Elems(list.root)), old(list.index),
          Parser.ParsedCommits(fl, PixelMasks(fl, true, hw.pixels), file[8..]), hw)
    {
      var check := FileCheck(file, hw);
      if check.Failure? {
        return Some(InvalidProgram);
      }
      var ctrl := check.value;
      duration := LoadedDuration(ctrl);
      raised := ParseAll(FrameLength(ctrl), file[8..]);
    }

    /** `parser = LEDSignProgramParser(self, fl, True); parser.update(data);
        parser.terminate()`: the keypoints of a compressed program image
        are added; the parser fails on data that is not whole groups and
        when its update stack overflows. */
    method ParseAll(fl: nat, data: seq<byte>) returns (raised: Option<ProgramError>)
      requires Valid()
      modifies list
      ensures Valid()
      ensures raised == Some(MalformedData) <==> !Parses(|data|, fl)
      ensures raised != Some(InvalidProgram)
      ensures raised == None ==>
        Elems(list.root) == AddedAll(old(Elems(list.root)), old(list.index), Parser.ParsedCommits(fl, PixelMasks(fl, true, hw.pixels), data), hw)
    {
      var parser := new Parser.ProgramParser(fl, true, hw.pixels);
      var parsed := parser.Update(data);
      if !parsed {
        var _ := AddCommits(parser.commits);
        return Some(MalformedData);
      }
      assert parser.Snap() == Parser.Fed(fl, parser.masks, data);
      raised := Finish(parser);
    }

    /** `parser.terminate()` and the keypoints it commits: the stack
        overflows when the stacked and the changed pixels do not fit it. */
    method Finish(parser: Parser.ProgramParser) returns (raised: Option<ProgramError>)
      requires Valid() && parser.Shape()
      modifies list, parser
      ensures Valid()
      ensures raised == None || raised == Some(UpdateStackFull) || raised == Some(IndexSpaceExhausted)
      ensures raised == None ==>
        Elems(list.root) == AddedAll(old(Elems(list.root)), old(list.index),
          Parser.Finished(old(parser.Snap()), parser.frameLength, parser.masks), hw)
    {
      var flushed := parser.Terminate();
      var added := AddCommits(parser.commits);
      if !flushed {
        return Some(UpdateStackFull);
      }
      if !added {
        return Some(IndexSpaceExhausted);
      }
      return None;
    }

    /** `load`: a program created from a device gets its keypoints from it,
        once. The device must still be there and drive the same LED depth;
        then the program is requested in chunks of `ChunkSize` bytes from
        offset 0, every chunk is fed to a checksum and to a parser of
        uncompressed data, and the parser's keypoints are added. A checksum
        that differs from the device's drops the keypoints and marks the
        program as having errors, as does a lost device or another depth.
        `requests` are the (offset, size) pairs of the chunk requests. */
    method Load(device: Option<Device>) returns (raised: Option<ProgramError>, requests: seq<(nat, nat)>)
      requires Valid()
      modifies this, list
      ensures Valid() && loadParameters == None && duration == old(duration)
      ensures old(loadParameters).None? ==>
        (raised == None && requests == [] && hasError == old(hasError) && Elems(list.root) == old(Elems(list.root)))
      ensures old(loadParameters).Some? && device.None? ==>
        (raised == Some(DeviceDisconnected) && hasError && requests == [] && Elems(list.root) == old(Elems(list.root)))
      ensures old(loadParameters).Some? && device.Some? && FrameLength(old(loadParameters).value.ctrl) != hw.ledDepth ==>
        (raised == Some(MismatchedHardware) && hasError && requests == [] && Elems(list.root) == old(Elems(list.root)))
      ensures old(loadParameters).Some? && device.Some? ==>
        (|requests| <= |device.value.answers| &&
         forall i :: 0 <= i < |requests| ==>
           requests[i] == (|Received(device.value.answers, i)|, ChunkSize(ProgramSize(old(loadParameters).value.ctrl))))
      ensures raised == Some(MismatchedChecksum) <==>
        (old(loadParameters).Some? && device.Some? && FrameLength(old(loadParameters).value.ctrl) == hw.ledDepth &&
         CorruptTransfer(device.value.answers, ProgramSize(old(loadParameters).value.ctrl), hw.ledDepth, old(loadParameters).value.crc, |requests|))
      ensures raised == Some(MismatchedChecksum) ==> (hasError && Elems(list.root) == [])
      ensures raised == None && old(loadParameters).Some? ==>
        (device.Some? && FrameLength(old(loadParameters).value.ctrl) == hw.ledDepth &&
         SoundTransfer(device.value.answers, ProgramSize(old(loadParameters).value.ctrl), hw.ledDepth, old(loadParameters).value.crc, |requests|) &&
         Elems(list.root) == AddedAll(old(Elems(list.root)), old(list.index),
           Parser.ParsedCommits(hw.ledDepth, PixelMasks(hw.ledDepth, false, hw.pixels), Received(device.value.answers, |requests|)), hw))
      ensures raised != Some(DeviceDisconnected) && raised != Some(MismatchedHardware) && raised != Some(MismatchedChecksum) ==>
        hasError == old(hasError)
      ensures raised.Some? ==> RaisedByLoad(raised.value)
      ensures old(loadParameters).Some? && device.Some? && FrameLength(old(loadParameters).value.ctrl) == hw.ledDepth ==>
        var answers, size := device.value.answers, ProgramSize(old(loadParameters).value.ctrl);
        (!AllParse(answers, |requests|, hw.ledDepth) ==> raised == Some(MalformedData)) &&
        (AllParse(answers, |requests|, hw.ledDepth) && |Received(answers, |requests|)| < size ==>
          raised == Some(TransferIncomplete) && |requests| == |answers|) &&
        (SoundTransfer(answers, size, hw.ledDepth, old(loadParameters).value.crc, |requests|) ==>
          raised == None || raised == Some(UpdateStackFull) || raised == Some(IndexSpaceExhausted))
    {
      if loadParameters.None? {
        return None, [];
      }
      var p := loadParameters.value;
      loadParameters := None;
      if device.None? {
        hasError := true;
        return Some(DeviceDisconnected), [];
      }
      if FrameLength(p.ctrl) != hw.ledDepth {
        hasError := true;
        return Some(MismatchedHardware), [];
      }
      raised, requests := Download(p, device.value.answers);
    }

    /** The transfer part of `load`, once the device is known to drive the
        program's LED depth: the chunk requests from offset 0, the checksum
        and the parse of the answers, then `terminate`. */
    method Download(p: LoadParameters, answers: seq<seq<byte>>) returns (raised: Option<ProgramError>, requests: seq<(nat, nat)>)
      requires Valid() && FrameLength(p.ctrl) == hw.ledDepth
      modifies this`hasError, list
      ensures Valid()
      ensures |requests| <= |answers| &&
        forall i :: 0 <= i < |requests| ==> requests[i] == (|Received(answers, i)|, ChunkSize(ProgramSize(p.ctrl)))
      ensures raised == Some(MismatchedChecksum) <==> CorruptTransfer(answers, ProgramSize(p.ctrl), hw.ledDepth, p.crc, |requests|)
      ensures raised == Some(MismatchedChecksum) ==> (hasError && Elems(list.root) == [])
      ensures raised != Some(MismatchedChecksum) ==> hasError == old(hasError)
      ensures raised == None ==>
        SoundTransfer(answers, ProgramSize(p.ctrl), hw.ledDepth, p.crc, |requests|) &&
        Elems(list.root) == AddedAll(old(Elems(list.root)), old(list.index),
          Parser.ParsedCommits(hw.ledDepth, PixelMasks(hw.ledDepth, false, hw.pixels), Received(answers, |requests|)), hw)
      ensures raised.Some? ==> RaisedByLoad(raised.value) && !raised.value.DeviceDisconnected? && !raised.value.MismatchedHardware?
      ensures !AllParse(answers, |requests|, hw.ledDepth) ==> raised == Some(MalformedData)
      ensures AllParse(answers, |requests|, hw.ledDepth) && |Received(answers, |requests|)| < ProgramSize(p.ctrl) ==>
        raised == Some(TransferIncomplete) && |requests| == |answers|
      ensures SoundTransfer(answers, ProgramSize(p.ctrl), hw.ledDepth, p.crc, |requests|) ==>
        raised == None || raised == Some(UpdateStackFull) || raised == Some(IndexSpaceExhausted)
    {
      var size := ProgramSize(p.ctrl);
      var parser := new Parser.ProgramParser(FrameLength(p.ctrl), false, hw.pixels);
      var received := new Crc.Checksummer([]);
      var parsed, offset;
      requests, parsed, offset := Transfer(answers, size, parser, received);
      raised := Settle(parser, parsed, offset >= size, received.value as nat == p.crc);
    }

    /** The end of `load` once the transfer stopped: a chunk the parser
        rejected, a program that did not arrive whole, and a checksum that
        differs are errors, and the keypoints parsed so far are added; only
        the last drops them again and marks the program as having errors.
        A sound transfer ends with `terminate`. */
    method Settle(parser: Parser.ProgramParser, parsed: bool, arrived: bool, matches: bool) returns (raised: Option<ProgramError>)
      requires Valid() && parser.Shape()
      modifies this`hasError, list, parser
      ensures Valid()
      ensures !parsed ==> raised == Some(MalformedData)
      ensures parsed && !arrived ==> raised == Some(TransferIncomplete)
      ensures raised == Some(MismatchedChecksum) <==> parsed && arrived && !matches
      ensures raised == Some(MismatchedChecksum) ==> (hasError && Elems(list.root) == [])
      ensures raised != Some(MismatchedChecksum) ==> hasError == old(hasError)
      ensures parsed && arrived && matches ==>
        (raised == None || raised == Some(UpdateStackFull) || raised == Some(IndexSpaceExhausted))
      ensures raised == None ==>
        (parsed && arrived && matches &&
         Elems(list.root) == AddedAll(old(Elems(list.root)), old(list.index),
           Parser.Finished(old(parser.Snap()), parser.frameLength, parser.masks), hw))
    {
      if !parsed {
        var _ := AddCommits(parser.commits);
        return Some(MalformedData);
      }
      if !arrived {
        var _ := AddCommits(parser.commits);
        return Some(TransferIncomplete);
      }
      if !matches {
        var _ := AddCommits(parser.commits);
        list.Clear();
        hasError := true;
        return Some(MismatchedChecksum);
      }
      raised := Finish(parser);
    }

    /** The checksum-mismatch branch of `load` as written: the keypoints
        parsed so far are added, then `self._program` raises because a
        program has no such attribute, before the list is cleared or the
        flag set. Unlike `Settle`, which leaves no keypoints and the flag
        set, a corrupt transfer that parsed a keypoint keeps it, and the
        flag is what it was. */
    method MismatchAsWritten(parser: Parser.ProgramParser) returns (raised: Option<ProgramError>)
      requires Valid() && parser.Shape()
      modifies list
      ensures Valid() && raised == Some(AttributeError) && hasError == old(hasError)
      ensures old(list.index) + Kept(parser.commits, hw) <= IndexSpan ==>
        Elems(list.root) == AddedAll(old(Elems(list.root)), old(list.index), parser.commits, hw) &&
        |Elems(list.root)| == |old(Elems(list.root))| + Kept(parser.commits, hw)
      ensures old(list.index) + Kept(parser.commits, hw) <= IndexSpan && Kept(parser.commits, hw) > 0 ==>
        Elems(list.root) != []
    {
      ghost var s0, i0 := Elems(list.root), list.index;
      var _ := AddCommits(parser.commits);
      AddedAllContents(s0, i0, parser.commits, hw);
      return Some(AttributeError);
    }

    /** `verify`: `load`, then the checks of `Lint`. */
    method Verify(device: Option<Device>) returns (res: Result<bool, ProgramError>)
      requires Valid()
      modifies this, list
      ensures Valid() && loadParameters == None
      ensures res.Success? ==> (res.value == !HasErrors(Elems(list.root)) && hasError == !res.value)
      ensures old(loadParameters).None? ==> (res.Success? && Elems(list.root) == old(Elems(list.root)))
    {
      var raised, _ := Load(device);
      if raised.Some? {
        return Failure(raised.value);
      }
      var ok := Lint();
      return Success(ok);
    }

    /** `__call__` after the builder function ran: with `skip_verify` the
        program is marked as having errors unchecked, otherwise it is
        verified; an exception marks it as having errors. */
    method Call(skipVerify: bool, device: Option<Device>) returns (raised: Option<ProgramError>)
      requires Valid()
      modifies this, list
      ensures Valid()
      ensures skipVerify ==> (raised == None && hasError && Elems(list.root) == old(Elems(list.root)))
      ensures !skipVerify && raised.Some? ==> hasError
      ensures !skipVerify && raised.None? ==> hasError == HasErrors(Elems(list.root))
    {
      if skipVerify {
        hasError := true;
        return None;
      }
      var res := Verify(device);
      if res.Failure? {
        hasError := true;
        return Some(res.error);
      }
      return None;
    }

    /** `compile`: `load`, then, unless the program has errors and they are
        not bypassed, the uncompressed compilation. */
    method Compile(bypass: bool, device: Option<Device>) returns (res: Result<Compiler.Compiled, ProgramError>)
      requires Valid()
      modifies this, list
      ensures Valid()
      ensures res == Failure(UnresolvedErrors) ==> (hasError && !bypass)
      ensures res.Success? || res.error.CompileFailed? ==>
        ((!hasError || bypass) && res == Lift(Compiler.CompileSpec(Elems(list.root), hw, duration, false)))
      ensures old(loadParameters).None? ==>
        (res == Failure(UnresolvedErrors) <==> hasError && !bypass) &&
        (!(hasError && !bypass) ==> res == Lift(Compiler.CompileSpec(Elems(list.root), hw, duration, false)))
    {
      var raised, _ := Load(device);
      if raised.Some? {
        return Failure(raised.value);
      }
      if hasError && !bypass {
        return Failure(UnresolvedErrors);
      }
      var c := Compilation.Compile(list, hw, duration, false);
      return Lift(c);
    }

    /** `save`: `load`, the same gate as `compile`, then the compressed
        compilation written as a file; a control word of 32 bits or more
        does not fit the header. */
    method Save(bypass: bool, device: Option<Device>) returns (res: Result<seq<byte>, ProgramError>)
      requires Valid()
      modifies this, list
      ensures Valid()
      ensures res == Failure(UnresolvedErrors) ==> (hasError && !bypass)
      ensures res.Success? ==>
        ((!hasError || bypass) && Compiler.CompileSpec(Elems(list.root), hw, duration, true).Success? &&
         Compiler.CompileSpec(Elems(list.root), hw, duration, true).value.ctrl < 0x1_0000_0000 &&
         res.value == SavedFile(Compiler.CompileSpec(Elems(list.root), hw, duration, true).value))
      ensures res == Failure(HeaderOverflow) ==>
        (Compiler.CompileSpec(Elems(list.root), hw, duration, true).Success? &&
         Compiler.CompileSpec(Elems(list.root), hw, duration, true).value.ctrl >= 0x1_0000_0000)
      ensures old(loadParameters).None? ==>
        (res == Failure(UnresolvedErrors) <==> hasError && !bypass) &&
        (!(hasError && !bypass) ==> res == Saved(Compiler.CompileSpec(Elems(list.root), hw, duration, true)))
    {
      var raised, _ := Load(device);
      if raised.Some? {
        return Failure(raised.value);
      }
      if hasError && !bypass {
        return Failure(UnresolvedErrors);
      }
      var c := Compilation.Compile(list, hw, duration, true);
      if c.Failure? {
        return Failure(CompileFailed(c.error));
      }
      if c.value.ctrl >= 0x1_0000_0000 {
        return Failure(HeaderOverflow);
      }
      return Success(SavedFile(c.value));
    }

    /** The checks of `verify` after its `load`: every keypoint in key order
        is flagged when its ramp starts before the first frame or when an
        earlier keypoint on one of its pixels still runs when the ramp
        starts. The answer is whether the program is free of errors. */
    method Lint() returns (ok: bool)
      requires Valid()
      modifies this`hasError
      ensures ok == !HasErrors(Elems(list.root)) && hasError == !ok
    {
      ghost var s := Elems(list.root);
      var all := PixelSet(hw);
      hasError := false;
      ghost var k: int := 0;
      var kp := list.LookupIncreasing(0, all);
      while kp.Some?
        invariant list.Valid() && Clipped(s, hw) && s == Elems(list.root)
        invariant kp == FirstFrom(s, k, all)
        invariant hasError == FlawedBelow(s, k)
        invariant kp.Some? ==> k <= Key(kp.value) < KeyBound(s)
        decreases KeyBound(s) - k
      {
        kp, k := LintStep(s, all, k, kp.value);
      }
      OuterDone(s, hw, k);
      ok := !hasError;
    }

    /** One turn of the outer walk of `verify`: `e`, the first keypoint
        from key `k` on, is checked, and the walk moves on past it. */
    method LintStep(ghost s: seq<Keypoint>, all: set<nat>, ghost k: int, e: Keypoint)
      returns (next: Option<Keypoint>, ghost k': int)
      requires list.Valid() && Clipped(s, hw) && s == Elems(list.root) && all == PixelSet(hw)
      requires Some(e) == FirstFrom(s, k, all) && hasError == FlawedBelow(s, k)
      modifies this`hasError
      ensures list.Valid() && s == Elems(list.root)
      ensures k < k' && next == FirstFrom(s, k', all) && hasError == FlawedBelow(s, k')
      ensures next.Some? ==> k' <= Key(next.value) < KeyBound(s)
    {
      OuterStep(s, hw, k, e);
      CheckKeypoint(e);
      k' := Key(e) + 1;
      next := list.LookupIncreasing(Key(e) + 1, all);
      FirstFromSound(s, k', all);
    }

    /** The body of the outer walk of `verify` on `kp`: its ramp must not
        start before the first frame, and no earlier keypoint on its pixels
        may still run when it starts. */
    method CheckKeypoint(kp: Keypoint)
      requires list.Valid()
      modifies this`hasError
      ensures list.Valid() && Elems(list.root) == old(Elems(list.root))
      ensures hasError == (old(hasError) || Flawed(Elems(list.root), kp))
    {
      var start := kp.end - kp.duration;
      if start < 0 {
        hasError := true;
      }
      ScanPredecessors(kp, start);
    }

    /** The inner walk of `verify` on `kp`: the keypoints sharing a pixel
        with `kp`, in decreasing key order below it, as long as they end after
        `start`, the frame its ramp starts from. */
    method ScanPredecessors(kp: Keypoint, start: int)
      requires list.Valid() && start == kp.end - kp.duration
      modifies this`hasError
      ensures hasError == (old(hasError) || Overlapped(Elems(list.root), kp))
    {
      ghost var s, h0 := Elems(list.root), hasError;
      ghost var k: int := Key(kp) - 1;
      var entry := list.LookupDecreasing(Key(kp) - 1, kp.mask);
      while entry.Some? && entry.value.end > start
        invariant list.Valid() && s == Elems(list.root)
        invariant -1 <= k < Key(kp) && entry == LastUpTo(s, k, kp.mask)
        invariant (h0 || OverlapUpTo(s, kp, Key(kp) - 1)) == (hasError || OverlapUpTo(s, kp, k))
        decreases k + 1
      {
        var a := entry.value;
        InnerStep(s, kp, k, a);
        if a != kp {
          hasError := true;
        }
        k := Key(a) - 1;
        entry := list.LookupDecreasing(Key(a) - 1, kp.mask);
      }
      InnerDone(s, kp, k, list.index);
      OverlapsBelow(s, kp);
    }
  }

  /** Handing over one more commit. */
  lemma AddedStep(s: seq<Keypoint>, index: nat, cs: seq<Parser.Commit>, hw: Hardware, n: nat)
    requires n < |cs|
    ensures Kept(cs[..n + 1], hw) == Kept(cs[..n], hw) + (if Clip(cs[n].mask, hw) != {} then 1 else 0)
    ensures AddedAll(s, index, cs[..n + 1], hw) ==
      if Clip(cs[n].mask, hw) == {} then AddedAll(s, index, cs[..n], hw)
      else InsertSorted(AddedAll(s, index, cs[..n], hw), CommitKeypoint(cs[n], hw, index + Kept(cs[..n], hw)))
  {
    assert cs[..n + 1][..n] == cs[..n];
  }

  /** Commits only add to the count. */
  lemma {:induction false} KeptMonotone(cs: seq<Parser.Commit>, hw: Hardware, n: nat)
    requires n <= |cs|
    ensures Kept(cs[..n], hw) <= Kept(cs, hw)
    decreases |cs| - n
  {
    if n < |cs| {
      KeptMonotone(cs, hw, n + 1);
      assert cs[..n + 1][..n] == cs[..n];
    } else {
      assert cs[..n] == cs;
    }
  }
}
