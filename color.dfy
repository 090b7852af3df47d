/** Colour words: `urgb_u32` packs three channel bytes into a 32-bit word and
    `put_pixel` shifts that word left by 8 before it goes to the strip. */
module Color {
  import opened Words

  /** `urgb_u32(r, g, b)`: `(r << 8) | (g << 16) | b`. */
  function Urgb(r: U8, g: U8, b: U8): (w: U32)
    ensures w == g * 0x1_0000 + r * 0x100 + b
    ensures w < 0x100_0000
  {
    assert Pow2(8) == 0x100 && Pow2(16) == 0x1_0000;
    ShlNoWrap(r, 8);
    ShlNoWrap(g, 16);
    var rs, gs := Shl32(r, 8), Shl32(g, 16);
    DivModUnique(gs, 0x1_0000, g, 0);
    OrDisjoint(rs, gs, 16);
    DivModUnique(rs + gs, 0x100, g * 0x100 + r, 0);
    OrDisjoint(b, rs + gs, 8);
    Or(Or(rs, gs), b)
  }

  /** `(w >> 8) & 0xff` */
  function RedOf(w: U32): U8 { Shr(w, 8) % 0x100 }

  /** `(w >> 16) & 0xff` */
  function GreenOf(w: U32): U8 { Shr(w, 16) % 0x100 }

  /** `w & 0xff` */
  function BlueOf(w: U32): U8 { w % 0x100 }

  /** The channel bytes come back out of a packed word unchanged. */
  lemma UrgbRoundTrip(r: U8, g: U8, b: U8)
    ensures RedOf(Urgb(r, g, b)) == r
    ensures GreenOf(Urgb(r, g, b)) == g
    ensures BlueOf(Urgb(r, g, b)) == b
  {
    var w := Urgb(r, g, b);
    DivModUnique(w, 0x100, g * 0x100 + r, b);
    DivModUnique(g * 0x100 + r, 0x100, g, r);
    DivModUnique(w, 0x1_0000, g, r * 0x100 + b);
    DivModUnique(g, 0x100, 0, g);
  }

  /** Every word below 2^24 is the packing of its own three channel bytes. */
  lemma UrgbOnto(w: U32)
    requires w < 0x100_0000
    ensures Urgb(RedOf(w), GreenOf(w), BlueOf(w)) == w
  {
    var q := w / 0x100;
    assert w == 0x100 * q + w % 0x100;
    assert q == 0x100 * (q / 0x100) + q % 0x100;
    DivModUnique(w, 0x1_0000, q / 0x100, (q % 0x100) * 0x100 + w % 0x100);
    assert q / 0x100 < 0x100;
    DivModUnique(q / 0x100, 0x100, 0, q / 0x100);
  }

  /** The word `put_pixel` hands to the strip: `pixel_grb << 8u`. Its low byte
      is clear and it carries the bottom 24 bits of the input; bits 24-31 of
      the input are shifted out. */
  function Transmit(pixel_grb: U32): (v: U32)
    ensures v % 0x100 == 0
    ensures v / 0x100 == pixel_grb % 0x100_0000
  {
    var lo := pixel_grb % 0x100_0000;
    assert pixel_grb == 0x100_0000 * (pixel_grb / 0x100_0000) + lo;
    assert pixel_grb * 0x100 == TwoTo32 * (pixel_grb / 0x100_0000) + lo * 0x100;
    DivModUnique(pixel_grb * 0x100, TwoTo32, pixel_grb / 0x100_0000, lo * 0x100);
    DivModUnique(lo * 0x100, 0x100, lo, 0);
    Shl32(pixel_grb, 8)
  }

  lemma TransmitZero()
    ensures Transmit(0) == 0
  {
    var v := Transmit(0);
    assert v == 0x100 * (v / 0x100) + v % 0x100;
  }

  /** On the wire a packed colour is green in bits 24-31, red in bits 16-23,
      blue in bits 8-15 and zero in bits 0-7. */
  lemma TransmitLayout(r: U8, g: U8, b: U8)
    ensures Shr(Transmit(Urgb(r, g, b)), 24) == g
    ensures Shr(Transmit(Urgb(r, g, b)), 16) % 0x100 == r
    ensures Shr(Transmit(Urgb(r, g, b)), 8) % 0x100 == b
    ensures Transmit(Urgb(r, g, b)) % 0x100 == 0
  {
    var w := Urgb(r, g, b);
    var v := Transmit(w);
    DivModUnique(w, 0x100_0000, 0, w);
    DivModUnique(v, 0x100, w, 0);
    assert v == g * 0x100_0000 + r * 0x1_0000 + b * 0x100;
    DivModUnique(v, 0x100_0000, g, r * 0x1_0000 + b * 0x100);
    DivModUnique(v, 0x1_0000, g * 0x100 + r, b * 0x100);
    DivModUnique(g * 0x100 + r, 0x100, g, r);
    DivModUnique(g * 0x1_0000 + r * 0x100 + b, 0x100, g * 0x100 + r, b);
  }
}
