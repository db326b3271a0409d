/** The bit-plane transpose of the wire format. A 12-byte group holds three
    little-endian 32-bit words (red, green, blue); before the transpose each
    word carries one 8-bit channel sample of four pixels, byte `k` for pixel
    `k`, and afterwards bit `b` of the sample of pixel `k` sits at bit
    `4*b + k`. */
module Transpose {

  type byte = bv8
  type word = bv32

  /** `_bit_permute_step`: a masked delta swap, exchanging the bits selected by
      `b` with the bits `c` positions above them. */
  function BitPermuteStep(a: word, b: word, c: word): word
    requires c < 32
  {
    var t := ((a >> c) ^ a) & b;
    (a ^ t) ^ (t << c)
  }

  /** A delta swap is well formed when no selected bit moves onto another
      selected bit and none is shifted out of the word. */
  predicate DisjointSwap(b: word, c: word)
    requires c < 32
  {
    b & (b << c) == 0 && (b << c) >> c == b
  }

  /** The seven (mask, distance) pairs that the compiler and the parser use. */
  const UsedSteps: set<(word, word)> := {
    (0x00aa_00aa, 7), (0x0000_cccc, 14), (0x00f0_00f0, 4), (0x0000_ff00, 8),
    (0x0a0a_0a0a, 3), (0x00cc_00cc, 6), (0x0000_f0f0, 12)
  }

  lemma UsedStepsAreDisjoint(b: word, c: word)
    requires (b, c) in UsedSteps
    ensures c < 32 && DisjointSwap(b, c)
  {
  }

  // Each step with its constants written out. Stating these once per step
  // keeps the solver from reasoning about a shift by an unknown distance.

  lemma Unfold7(a: word)
    ensures BitPermuteStep(a, 0x00aa_00aa, 7) == (var t := ((a >> 7) ^ a) & 0x00aa_00aa; (a ^ t) ^ (t << 7))
  {
  }

  lemma Unfold14(a: word)
    ensures BitPermuteStep(a, 0x0000_cccc, 14) == (var t := ((a >> 14) ^ a) & 0x0000_cccc; (a ^ t) ^ (t << 14))
  {
  }

  lemma Unfold4(a: word)
    ensures BitPermuteStep(a, 0x00f0_00f0, 4) == (var t := ((a >> 4) ^ a) & 0x00f0_00f0; (a ^ t) ^ (t << 4))
  {
  }

  lemma Unfold8(a: word)
    ensures BitPermuteStep(a, 0x0000_ff00, 8) == (var t := ((a >> 8) ^ a) & 0x0000_ff00; (a ^ t) ^ (t << 8))
  {
  }

  lemma Unfold3(a: word)
    ensures BitPermuteStep(a, 0x0a0a_0a0a, 3) == (var t := ((a >> 3) ^ a) & 0x0a0a_0a0a; (a ^ t) ^ (t << 3))
  {
  }

  lemma Unfold6(a: word)
    ensures BitPermuteStep(a, 0x00cc_00cc, 6) == (var t := ((a >> 6) ^ a) & 0x00cc_00cc; (a ^ t) ^ (t << 6))
  {
  }

  lemma Unfold12(a: word)
    ensures BitPermuteStep(a, 0x0000_f0f0, 12) == (var t := ((a >> 12) ^ a) & 0x0000_f0f0; (a ^ t) ^ (t << 12))
  {
  }

  /** Every delta swap the compiler and the parser apply undoes itself. */
  lemma StepInvolution(a: word, b: word, c: word)
    requires (b, c) in UsedSteps
    ensures c < 32 && BitPermuteStep(BitPermuteStep(a, b, c), b, c) == a
  {
    if (b, c) == (0x00aa_00aa, 7) {
      Unfold7(a);
      Unfold7(BitPermuteStep(a, b, c));
    } else if (b, c) == (0x0000_cccc, 14) {
      Unfold14(a);
      Unfold14(BitPermuteStep(a, b, c));
    } else if (b, c) == (0x00f0_00f0, 4) {
      Unfold4(a);
      Unfold4(BitPermuteStep(a, b, c));
    } else if (b, c) == (0x0000_ff00, 8) {
      Unfold8(a);
      Unfold8(BitPermuteStep(a, b, c));
    } else if (b, c) == (0x0a0a_0a0a, 3) {
      Unfold3(a);
      Unfold3(BitPermuteStep(a, b, c));
    } else if (b, c) == (0x00cc_00cc, 6) {
      Unfold6(a);
      Unfold6(BitPermuteStep(a, b, c));
    } else {
      Unfold12(a);
      Unfold12(BitPermuteStep(a, b, c));
    }
  }

  /** The compiler's chain: four pixel bytes become eight nibble planes. */
  function Encode(w: word): word
  {
    var w1 := BitPermuteStep(w, 0x00aa_00aa, 7);
    var w2 := BitPermuteStep(w1, 0x0000_cccc, 14);
    var w3 := BitPermuteStep(w2, 0x00f0_00f0, 4);
    BitPermuteStep(w3, 0x0000_ff00, 8)
  }

  /** The parser's chain, which undoes `Encode`. */
  function Decode(w: word): word
  {
    var w1 := BitPermuteStep(w, 0x0a0a_0a0a, 3);
    var w2 := BitPermuteStep(w1, 0x00cc_00cc, 6);
    var w3 := BitPermuteStep(w2, 0x0000_f0f0, 12);
    BitPermuteStep(w3, 0x0000_ff00, 8)
  }

  /** `Encode` with every step written out. */
  function EncodeExpanded(w: word): word
  {
    var w1 := (var t := ((w >> 7) ^ w) & 0x00aa_00aa; (w ^ t) ^ (t << 7));
    var w2 := (var t := ((w1 >> 14) ^ w1) & 0x0000_cccc; (w1 ^ t) ^ (t << 14));
    var w3 := (var t := ((w2 >> 4) ^ w2) & 0x00f0_00f0; (w2 ^ t) ^ (t << 4));
    (var t := ((w3 >> 8) ^ w3) & 0x0000_ff00; (w3 ^ t) ^ (t << 8))
  }

  /** `Decode` with every step written out. */
  function DecodeExpanded(w: word): word
  {
    var w1 := (var t := ((w >> 3) ^ w) & 0x0a0a_0a0a; (w ^ t) ^ (t << 3));
    var w2 := (var t := ((w1 >> 6) ^ w1) & 0x00cc_00cc; (w1 ^ t) ^ (t << 6));
    var w3 := (var t := ((w2 >> 12) ^ w2) & 0x0000_f0f0; (w2 ^ t) ^ (t << 12));
    (var t := ((w3 >> 8) ^ w3) & 0x0000_ff00; (w3 ^ t) ^ (t << 8))
  }

  lemma EncodeIsExpanded(w: word)
    ensures Encode(w) == EncodeExpanded(w)
  {
    var w1 := BitPermuteStep(w, 0x00aa_00aa, 7);
    var w2 := BitPermuteStep(w1, 0x0000_cccc, 14);
    var w3 := BitPermuteStep(w2, 0x00f0_00f0, 4);
    Unfold7(w);
    Unfold14(w1);
    Unfold4(w2);
    Unfold8(w3);
  }

  lemma DecodeIsExpanded(w: word)
    ensures Decode(w) == DecodeExpanded(w)
  {
    var w1 := BitPermuteStep(w, 0x0a0a_0a0a, 3);
    var w2 := BitPermuteStep(w1, 0x00cc_00cc, 6);
    var w3 := BitPermuteStep(w2, 0x0000_f0f0, 12);
    Unfold3(w);
    Unfold6(w1);
    Unfold12(w2);
    Unfold8(w3);
  }

  /** The parser's chain undoes the compiler's chain. */
  lemma DecodeEncode(w: word)
    ensures Decode(Encode(w)) == w
  {
    EncodeIsExpanded(w);
    DecodeIsExpanded(Encode(w));
  }

  /** And the compiler's chain undoes the parser's: the two are inverse
      permutations of the 32 bits. */
  lemma EncodeDecode(w: word)
    ensures Encode(Decode(w)) == w
  {
    DecodeIsExpanded(w);
    EncodeIsExpanded(Decode(w));
  }

  /** Bit `i` of a word. */
  predicate Bit(w: word, i: nat)
    requires i < 32
  {
    (w >> i) & 1 == 1
  }

  lemma ExpandedBit(w: word, k: nat, b: nat)
    requires k < 4 && b < 8
    ensures Bit(EncodeExpanded(w), 4 * b + k) == Bit(w, 8 * k + b)
  {
    if k == 0 {
      ExpandedBit0(w, k, b);
    } else if k == 1 {
      ExpandedBit1(w, k, b);
    } else if k == 2 {
      ExpandedBit2(w, k, b);
    } else {
      ExpandedBit3(w, k, b);
    }
  }

  lemma ExpandedBit0(w: word, k: nat, b: nat)
    requires k == 0 && b < 8
    ensures Bit(EncodeExpanded(w), 4 * b + k) == Bit(w, 8 * k + b)
  {
    if b == 0 {
      assert Bit(EncodeExpanded(w), 0) == Bit(w, 0);
    } else if b == 1 {
      assert Bit(EncodeExpanded(w), 4) == Bit(w, 1);
    } else if b == 2 {
      assert Bit(EncodeExpanded(w), 8) == Bit(w, 2);
    } else if b == 3 {
      assert Bit(EncodeExpanded(w), 12) == Bit(w, 3);
    } else if b == 4 {
      assert Bit(EncodeExpanded(w), 16) == Bit(w, 4);
    } else if b == 5 {
      assert Bit(EncodeExpanded(w), 20) == Bit(w, 5);
    } else if b == 6 {
      assert Bit(EncodeExpanded(w), 24) == Bit(w, 6);
    } else {
      assert Bit(EncodeExpanded(w), 28) == Bit(w, 7);
    }
  }

  lemma ExpandedBit1(w: word, k: nat, b: nat)
    requires k == 1 && b < 8
    ensures Bit(EncodeExpanded(w), 4 * b + k) == Bit(w, 8 * k + b)
  {
    if b == 0 {
      assert Bit(EncodeExpanded(w), 1) == Bit(w, 8);
    } else if b == 1 {
      assert Bit(EncodeExpanded(w), 5) == Bit(w, 9);
    } else if b == 2 {
      assert Bit(EncodeExpanded(w), 9) == Bit(w, 10);
    } else if b == 3 {
      assert Bit(EncodeExpanded(w), 13) == Bit(w, 11);
    } else if b == 4 {
      assert Bit(EncodeExpanded(w), 17) == Bit(w, 12);
    } else if b == 5 {
      assert Bit(EncodeExpanded(w), 21) == Bit(w, 13);
    } else if b == 6 {
      assert Bit(EncodeExpanded(w), 25) == Bit(w, 14);
    } else {
      assert Bit(EncodeExpanded(w), 29) == Bit(w, 15);
    }
  }

  lemma ExpandedBit2(w: word, k: nat, b: nat)
    requires k == 2 && b < 8
    ensures Bit(EncodeExpanded(w), 4 * b + k) == Bit(w, 8 * k + b)
  {
    if b == 0 {
      assert Bit(EncodeExpanded(w), 2) == Bit(w, 16);
    } else if b == 1 {
      assert Bit(EncodeExpanded(w), 6) == Bit(w, 17);
    } else if b == 2 {
      assert Bit(EncodeExpanded(w), 10) == Bit(w, 18);
    } else if b == 3 {
      assert Bit(EncodeExpanded(w), 14) == Bit(w, 19);
    } else if b == 4 {
      assert Bit(EncodeExpanded(w), 18) == Bit(w, 20);
    } else if b == 5 {
      assert Bit(EncodeExpanded(w), 22) == Bit(w, 21);
    } else if b == 6 {
      assert Bit(EncodeExpanded(w), 26) == Bit(w, 22);
    } else {
      assert Bit(EncodeExpanded(w), 30) == Bit(w, 23);
    }
  }

  lemma ExpandedBit3(w: word, k: nat, b: nat)
    requires k == 3 && b < 8
    ensures Bit(EncodeExpanded(w), 4 * b + k) == Bit(w, 8 * k + b)
  {
    if b == 0 {
      assert Bit(EncodeExpanded(w), 3) == Bit(w, 24);
    } else if b == 1 {
      assert Bit(EncodeExpanded(w), 7) == Bit(w, 25);
    } else if b == 2 {
      assert Bit(EncodeExpanded(w), 11) == Bit(w, 26);
    } else if b == 3 {
      assert Bit(EncodeExpanded(w), 15) == Bit(w, 27);
    } else if b == 4 {
      assert Bit(EncodeExpanded(w), 19) == Bit(w, 28);
    } else if b == 5 {
      assert Bit(EncodeExpanded(w), 23) == Bit(w, 29);
    } else if b == 6 {
      assert Bit(EncodeExpanded(w), 27) == Bit(w, 30);
    } else {
      assert Bit(EncodeExpanded(w), 31) == Bit(w, 31);
    }
  }

  /** The compiler's chain moves bit `b` of byte `k` to bit `4*b + k`. */
  lemma EncodeBit(w: word, k: nat, b: nat)
    requires k < 4 && b < 8
    ensures Bit(Encode(w), 4 * b + k) == Bit(w, 8 * k + b)
  {
    EncodeIsExpanded(w);
    ExpandedBit(w, k, b);
  }

  /** The parser's chain moves bit `4*b + k` back to bit `b` of byte `k`. */
  lemma DecodeBit(w: word, k: nat, b: nat)
    requires k < 4 && b < 8
    ensures Bit(Decode(w), 8 * k + b) == Bit(w, 4 * b + k)
  {
    EncodeBit(Decode(w), k, b);
    EncodeDecode(w);
  }

  /** Byte `k` of a word, least significant first: what the parser reads with
      `& 0xff` after shifting the word right by eight bits `k` times. */
  function Lane(w: word, k: nat): byte
    requires k < 4
  {
    var shifted := if k == 0 then w else if k == 1 then w >> 8 else if k == 2 then w >> 16 else w >> 24;
    (shifted & 0xff) as byte
  }

  /** Four channel samples ORed into a word, sample `k` at bit `8*k`. */
  function Pack(s0: byte, s1: byte, s2: byte, s3: byte): word
  {
    (s0 as word) | ((s1 as word) << 8) | ((s2 as word) << 16) | ((s3 as word) << 24)
  }

  lemma LanesOfPack(s0: byte, s1: byte, s2: byte, s3: byte)
    ensures Lane(Pack(s0, s1, s2, s3), 0) == s0 && Lane(Pack(s0, s1, s2, s3), 1) == s1
    ensures Lane(Pack(s0, s1, s2, s3), 2) == s2 && Lane(Pack(s0, s1, s2, s3), 3) == s3
  {
  }

  lemma PackOfLanes(w: word)
    ensures Pack(Lane(w, 0), Lane(w, 1), Lane(w, 2), Lane(w, 3)) == w
  {
  }

  /** Four channel samples survive the compiler's packing and transpose and
      the parser's transpose and unpacking. */
  lemma SamplesRoundTrip(s0: byte, s1: byte, s2: byte, s3: byte)
    ensures var w := Decode(Encode(Pack(s0, s1, s2, s3)));
      Lane(w, 0) == s0 && Lane(w, 1) == s1 && Lane(w, 2) == s2 && Lane(w, 3) == s3
  {
    DecodeEncode(Pack(s0, s1, s2, s3));
    LanesOfPack(s0, s1, s2, s3);
  }

  /** `struct.pack("<I", w)`: four bytes, least significant first. */
  function WordBytes(w: word): (r: seq<byte>)
    ensures |r| == 4
  {
    [Lane(w, 0), Lane(w, 1), Lane(w, 2), Lane(w, 3)]
  }

  /** `struct.unpack("<I", s)`. */
  function BytesWord(s: seq<byte>): word
    requires |s| == 4
  {
    Pack(s[0], s[1], s[2], s[3])
  }

  lemma BytesWordBytes(w: word)
    ensures BytesWord(WordBytes(w)) == w
  {
    PackOfLanes(w);
  }

  lemma WordBytesWord(s: seq<byte>)
    requires |s| == 4
    ensures WordBytes(BytesWord(s)) == s
  {
    LanesOfPack(s[0], s[1], s[2], s[3]);
  }

  /** `struct.pack("<III", r, g, b)`: one 12-byte group. */
  function GroupBytes(r: word, g: word, b: word): (s: seq<byte>)
    ensures |s| == 12
  {
    WordBytes(r) + WordBytes(g) + WordBytes(b)
  }

  /** `struct.unpack("<III", s)`. */
  function GroupWords(s: seq<byte>): (word, word, word)
    requires |s| == 12
  {
    (BytesWord(s[0..4]), BytesWord(s[4..8]), BytesWord(s[8..12]))
  }

  lemma GroupRoundTrip(r: word, g: word, b: word)
    ensures GroupWords(GroupBytes(r, g, b)) == (r, g, b)
  {
    var s := GroupBytes(r, g, b);
    assert s[0..4] == WordBytes(r);
    assert s[4..8] == WordBytes(g);
    assert s[8..12] == WordBytes(b);
    BytesWordBytes(r);
    BytesWordBytes(g);
    BytesWordBytes(b);
  }

  lemma GroupBytesOfWords(s: seq<byte>)
    requires |s| == 12
    ensures var (r, g, b) := GroupWords(s); GroupBytes(r, g, b) == s
  {
    WordBytesWord(s[0..4]);
    WordBytesWord(s[4..8]);
    WordBytesWord(s[8..12]);
    assert s == s[0..4] + s[4..8] + s[8..12];
  }
}
