/** Bitwise AND of two bytes, and the proof that each arithmetic reading of
    `byte & mask` in MidiTypes is the AND of the byte with that mask. */
module Bits {
  import opened MidiTypes

  /** A four-bit value. */
  predicate IsNibble(x: int)
  {
    0 <= x < 16
  }

  /** Both x and y have their bit of weight w, for 0 <= x, y < 2 * w. */
  function Both(x: int, y: int, w: int): int
  {
    if x >= w && y >= w then 1 else 0
  }

  /** The bit of weight w of x taken off, for 0 <= x < 2 * w. */
  function Below(x: int, w: int): int
  {
    if x >= w then x - w else x
  }

  /** `x & y` on nibbles, bit by bit from bit 3 down. */
  function And4(x: int, y: int): int
    requires IsNibble(x) && IsNibble(y)
  {
    var x2, y2 := Below(x, 8), Below(y, 8);
    var x1, y1 := Below(x2, 4), Below(y2, 4);
    var x0, y0 := Below(x1, 2), Below(y1, 2);
    8 * Both(x, y, 8) + 4 * Both(x2, y2, 4) + 2 * Both(x1, y1, 2) + Both(x0, y0, 1)
  }

  /** `a & b` on bytes: the AND of the high nibbles and of the low nibbles. */
  function And(a: Byte, b: Byte): Byte
  {
    var r := 16 * And4(a as int / 16, b as int / 16) + And4(a as int % 16, b as int % 16);
    assert 0 <= r < 256 by { And4Bound(a as int / 16, b as int / 16); And4Bound(a as int % 16, b as int % 16); }
    r as Byte
  }

  lemma And4Bound(x: int, y: int)
    requires IsNibble(x) && IsNibble(y)
    ensures IsNibble(And4(x, y))
  {
  }

  /** AND of a nibble with the four masks the parser's masks are made of. */
  lemma And4Masks(x: int)
    requires IsNibble(x)
    ensures And4(x, 0) == 0 && And4(x, 15) == x
    ensures And4(x, 7) == Below(x, 8) && And4(x, 8) == x - Below(x, 8)
  {
  }

  lemma {:induction false} MulAtLeast(d: int, k: int)
    requires d > 0 && k >= 1
    ensures d * k >= d
    decreases k
  {
    if k > 1 {
      MulAtLeast(d, k - 1);
      assert d * k == d * (k - 1) + d;
    }
  }

  /** Quotient and remainder are unique. */
  lemma DivModUnique(a: int, d: int, t: int, x: int)
    requires d > 0 && a == d * t + x && 0 <= x < d
    ensures a / d == t && a % d == x
  {
    var t', x' := a / d, a % d;
    assert a == d * t' + x';
    assert d * t' - d * t == d * (t' - t);
    if t' > t {
      MulAtLeast(d, t' - t);
    } else if t' < t {
      MulAtLeast(d, t - t');
    }
  }

  /** A byte as its two nibbles. */
  lemma Nibbles(b: Byte)
    ensures IsNibble(b as int / 16) && IsNibble(b as int % 16)
    ensures b as int == 16 * (b as int / 16) + b as int % 16
  {
  }

  lemma StatusMaskAgrees(b: Byte)
    ensures IsStatus(b) <==> And(b, kStatusByteMask) != 0
  {
    Nibbles(b);
    And4Masks(b as int / 16);
    And4Masks(b as int % 16);
  }

  lemma ChannelMaskAgrees(b: Byte)
    ensures ChannelOf(b) == And(b, kChannelMask)
  {
    Nibbles(b);
    And4Masks(b as int / 16);
    And4Masks(b as int % 16);
  }

  lemma DataMaskAgrees(b: Byte)
    ensures DataOf(b) == And(b, kDataByteMask)
  {
    var h, l := b as int / 16, b as int % 16;
    Nibbles(b);
    And4Masks(h);
    And4Masks(l);
    DivModUnique(b as int, 128, (h - Below(h, 8)) / 8, 16 * Below(h, 8) + l);
  }

  lemma SubTypeMaskAgrees(b: Byte)
    ensures SubTypeOf(b) == And(b, kSystemRealTimeMask)
  {
    var h, l := b as int / 16, b as int % 16;
    Nibbles(b);
    And4Masks(h);
    And4Masks(l);
    DivModUnique(b as int, 8, 2 * h + (l - Below(l, 8)) / 8, Below(l, 8));
  }

  lemma MessageMaskAgrees(b: Byte)
    ensures MessageCode(b) == And(b, kMessageMask) / 16
  {
    var h, l := b as int / 16, b as int % 16;
    Nibbles(b);
    And4Masks(h);
    And4Masks(l);
    DivModUnique(b as int, 128, (h - Below(h, 8)) / 8, 16 * Below(h, 8) + l);
    DivModUnique(16 * Below(h, 8) + l, 16, Below(h, 8), l);
    DivModUnique(16 * Below(h, 8), 16, Below(h, 8), 0);
  }
}
