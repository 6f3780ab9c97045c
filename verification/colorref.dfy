/**
 * The Win32 `COLORREF` colour value and the channel macros win-main.cpp
 * reads it with. A `COLORREF` is a 32-bit `DWORD` laid out as 0x00BBGGRR:
 * red in the low byte, then green, then blue; the high byte is not a
 * channel.
 */
module Win32Color {

  /** `BYTE`: an unsigned 8-bit value. */
  type byte = v: int | 0 <= v < 0x100

  /** `COLORREF`: a 32-bit `DWORD`. */
  type ColorRef = v: int | 0 <= v < 0x1_0000_0000

  /** `GetRValue`: the low byte. */
  function GetRValue(c: ColorRef): byte
  {
    c % 0x100
  }

  /** `GetGValue`: the second byte. */
  function GetGValue(c: ColorRef): byte
  {
    (c / 0x100) % 0x100
  }

  /** `GetBValue`: the third byte. */
  function GetBValue(c: ColorRef): byte
  {
    (c / 0x1_0000) % 0x100
  }

  /** The `RGB` macro, which callers use to build the colours the core unpacks: packs three channels as 0x00BBGGRR. */
  function RGB(r: byte, g: byte, b: byte): (c: ColorRef)
    ensures c < 0x100_0000
  {
    r + g * 0x100 + b * 0x1_0000
  }

  /** Each channel macro reads back the channel `RGB` packed. */
  lemma ChannelsOfRGB(r: byte, g: byte, b: byte)
    ensures GetRValue(RGB(r, g, b)) == r
    ensures GetGValue(RGB(r, g, b)) == g
    ensures GetBValue(RGB(r, g, b)) == b
  {
    var c := RGB(r, g, b);
    assert c == r + 0x100 * (g + 0x100 * b);
    assert c / 0x100 == g + 0x100 * b;
    assert c / 0x1_0000 == b;
  }

  /** A colour without a high byte is the `RGB` of its own channels. */
  lemma RGBOfChannels(c: ColorRef)
    requires c < 0x100_0000
    ensures RGB(GetRValue(c), GetGValue(c), GetBValue(c)) == c
  {
    var q1 := c / 0x100;
    var q2 := q1 / 0x100;
    assert c == c % 0x100 + 0x100 * q1;
    assert q1 == q1 % 0x100 + 0x100 * q2;
    assert c / 0x1_0000 == q2;
    assert q2 < 0x100;
  }

  /** The high byte of a `COLORREF` is invisible to all three channel macros. */
  lemma HighByteIgnored(c: ColorRef)
    ensures GetRValue(c % 0x100_0000) == GetRValue(c)
    ensures GetGValue(c % 0x100_0000) == GetGValue(c)
    ensures GetBValue(c % 0x100_0000) == GetBValue(c)
  {
    var lo, hi := c % 0x100_0000, c / 0x100_0000;
    var g, b := lo / 0x100, lo / 0x1_0000;
    DivMod(c, 0x100, g + 0x1_0000 * hi, lo % 0x100);
    DivMod(c / 0x100, 0x100, g / 0x100 + 0x100 * hi, g % 0x100);
    DivMod(c, 0x1_0000, b + 0x100 * hi, lo % 0x1_0000);
    DivMod(c / 0x1_0000, 0x100, hi, b);
  }

  /** Division by `d` is determined by any quotient and remainder that add back up. */
  lemma DivMod(a: int, d: int, q: int, r: int)
    requires 0 < d && a == q * d + r && 0 <= r < d
    ensures a / d == q && a % d == r
  {
    var q', r' := a / d, a % d;
    assert (q - q') * d == r' - r;
    if q > q' {
      MulPositive(q - q' - 1, d);
      assert false;
    } else if q < q' {
      MulPositive(q' - q - 1, d);
      assert false;
    }
  }

  /** A positive multiple of `d` is at least `d`. */
  lemma MulPositive(n: int, d: int)
    requires 0 <= n && 0 < d
    ensures (n + 1) * d >= d
  {
  }

  /**
   * The four bytes of one pixel of the 32-bit DIB section, in memory order:
   * blue, green, red, then an unused byte set to 0.
   */
  function Bgra(c: ColorRef): seq<byte>
  {
    [GetBValue(c), GetGValue(c), GetRValue(c), 0]
  }
}
