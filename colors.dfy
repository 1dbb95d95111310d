/**
 * A colour with four 16-bit channels packed into one 64-bit word: R in the
 * most significant 16 bits, then G, then B, and A in the least significant.
 * Built by shift-and-add, read by shift-and-mask.
 *
 * Words and channels are bounded integers; on unsigned values `v >> k` is
 * `v / 2^k` and `v & 0xFFFF` is `v % 2^16`, which is how they are written here.
 */
module Colors {
  import opened Ints

  /** The largest value of one channel. */
  const MAX_CHANNEL_VALUE: u16 := 0xFFFF

  const SHIFT_16: int := 0x1_0000
  const SHIFT_32: int := 0x1_0000_0000
  const SHIFT_48: int := 0x1_0000_0000_0000

  /** The packed word is the whole colour: two colours are equal exactly when their words are. */
  datatype Color = Color(value: u64) {

    /** The packed word, which determines the colour. */
    function Value(): (v: u64)
      ensures Color(v) == this
    {
      value
    }

    /** `uint16(value >> 48)`: the top 16 bits, above the other 48. */
    function R(): (r: u16)
    {
      value / SHIFT_48
    }

    /** `uint16((value >> 32) & 0xFFFF)`: the 16 bits below R. */
    function G(): (g: u16)
    {
      (value / SHIFT_32) % (MAX_CHANNEL_VALUE + 1)
    }

    /** `uint16((value >> 16) & 0xFFFF)`: the 16 bits below G. */
    function B(): (b: u16)
    {
      (value / SHIFT_16) % (MAX_CHANNEL_VALUE + 1)
    }

    /** `uint16(value & 0xFFFF)`: the bottom 16 bits. */
    function A(): (a: u16)
    {
      value % (MAX_CHANNEL_VALUE + 1)
    }

    /** The four channels, which side by side are the whole word. */
    function Rgba(): (t: (u16, u16, u16, u16))
      ensures t.0 * SHIFT_48 + t.1 * SHIFT_32 + t.2 * SHIFT_16 + t.3 == value
    {
      assert value == (value / SHIFT_16) * SHIFT_16 + A();
      assert value / SHIFT_16 == (value / SHIFT_32) * SHIFT_16 + B();
      assert value / SHIFT_32 == (value / SHIFT_48) * SHIFT_16 + G();
      (R(), G(), B(), A())
    }
  }

  /** Wraps a raw packed word; any bit pattern is a colour. */
  function MakeColor(value: u64): (c: Color)
    ensures c.Value() == value
  {
    Color(value)
  }

  /**
   * Packs four channels by shifting left 16 and adding the next channel.
   * Nothing is shifted out and no addition carries, so the word is the four
   * channels side by side, and every accessor gives back its channel.
   */
  function MakeColorRgba(r: u16, g: u16, b: u16, a: u16): (c: Color)
    ensures c.Value() == r * SHIFT_48 + g * SHIFT_32 + b * SHIFT_16 + a
    ensures c.R() == r && c.G() == g && c.B() == b && c.A() == a
    ensures c.Rgba() == (r, g, b, a)
  {
    PackChannels(r, g, b, a);
    MakeColor(Pack(r, g, b, a))
  }

  /** The shift-and-add sequence `v := r; v <<= 16; v += g; v <<= 16; v += b; v <<= 16; v += a` in uint64. */
  /**
   * Nothing is shifted past bit 63 and no addition carries into the next
   * channel, so the word is the four channels side by side.
   */
  function Pack(r: u16, g: u16, b: u16, a: u16): (v: u64)
    ensures v == r * SHIFT_48 + g * SHIFT_32 + b * SHIFT_16 + a
  {
    var v0: u64 := r;
    var v1 := AddU64(Shl16U64(v0), g);
    assert v1 == r * SHIFT_16 + g;
    var v2 := AddU64(Shl16U64(v1), b);
    assert v2 == r * SHIFT_32 + g * SHIFT_16 + b;
    AddU64(Shl16U64(v2), a)
  }

  lemma PackChannels(r: u16, g: u16, b: u16, a: u16)
    ensures var c := Color(r * SHIFT_48 + g * SHIFT_32 + b * SHIFT_16 + a);
      c.R() == r && c.G() == g && c.B() == b && c.A() == a
  {
    var v := r * SHIFT_48 + g * SHIFT_32 + b * SHIFT_16 + a;
    assert v / SHIFT_48 == r;
    assert v / SHIFT_32 == r * SHIFT_16 + g;
    assert v / SHIFT_16 == r * SHIFT_32 + g * SHIFT_16 + b;
  }

  /** The four fields cover all 64 bits: repacking a colour's channels gives the colour back. */
  lemma ChannelsInverse(c: Color)
    ensures MakeColorRgba(c.R(), c.G(), c.B(), c.A()) == c
  {
    var t := c.Rgba();
  }

  /** Equality of colours is equality of their packed words. */
  lemma EqualByValue(c: Color, d: Color)
    ensures c == d <==> c.Value() == d.Value()
  {
  }
}
